/** The java.lang.String operations the HTTP core relies on, with their Java semantics:
    `indexOf`, `startsWith`, `endsWith`, `contains`, `split` with limit 0, 2 and 3,
    `trim`, `toLowerCase` and `replace`. Separators are literal (every regular
    expression the core passes to `split` matches one fixed text). */
module JavaText {
  import opened Wrappers

  const CRLF: string := "\r\n"
  const BlankLine: string := "\r\n\r\n"

  /** `pat` occurs in `s` at index `i`. */
  predicate At<T(==)>(s: seq<T>, pat: seq<T>, i: nat) {
    i + |pat| <= |s| && s[i..i + |pat|] == pat
  }

  /** The first index at or after `i` where `pat` occurs (`indexOf(pat, i)`). */
  function FindFrom<T(==)>(s: seq<T>, pat: seq<T>, i: nat): (r: Option<nat>)
    requires i <= |s|
    ensures r.Some? ==> i <= r.value <= |s| && At(s, pat, r.value)
    ensures r.Some? ==> forall k: nat :: i <= k < r.value ==> !At(s, pat, k)
    ensures r.None? ==> forall k: nat :: i <= k <= |s| ==> !At(s, pat, k)
    decreases |s| - i
  {
    if At(s, pat, i) then Some(i)
    else if i == |s| then None
    else FindFrom(s, pat, i + 1)
  }

  /** The first index where `pat` occurs (`indexOf(pat)`). */
  function Find<T(==)>(s: seq<T>, pat: seq<T>): (r: Option<nat>)
    ensures r.Some? ==> r.value <= |s| && At(s, pat, r.value)
    ensures r.Some? ==> forall k: nat :: k < r.value ==> !At(s, pat, k)
    ensures r.None? ==> forall k: nat :: k <= |s| ==> !At(s, pat, k)
  {
    FindFrom(s, pat, 0)
  }

  /** An occurrence with none before it is the one `Find` returns. */
  lemma {:induction false} FindFromIs<T>(s: seq<T>, pat: seq<T>, i: nat, j: nat)
    requires i <= j <= |s| && At(s, pat, j)
    requires forall k: nat :: i <= k < j ==> !At(s, pat, k)
    ensures FindFrom(s, pat, i) == Some(j)
    decreases j - i
  {
    if i < j {
      assert !At(s, pat, i);
      FindFromIs(s, pat, i + 1, j);
    }
  }

  lemma {:induction false} FindIs<T>(s: seq<T>, pat: seq<T>, j: nat)
    requires j <= |s| && At(s, pat, j)
    requires forall k: nat :: k < j ==> !At(s, pat, k)
    ensures Find(s, pat) == Some(j)
  {
    FindFromIs(s, pat, 0, j);
  }

  predicate Contains<T(==)>(s: seq<T>, pat: seq<T>) {
    Find(s, pat).Some?
  }

  predicate StartsWith<T(==)>(s: seq<T>, p: seq<T>) {
    |p| <= |s| && s[..|p|] == p
  }

  predicate EndsWith<T(==)>(s: seq<T>, p: seq<T>) {
    |p| <= |s| && s[|s| - |p|..] == p
  }

  /** No element of `s` is `c`. */
  predicate Free<T(==)>(s: seq<T>, c: T) {
    forall i :: 0 <= i < |s| ==> s[i] != c
  }

  /** A concatenation avoids `c` exactly when both parts do. */
  lemma {:induction false} FreeAppend<T>(a: seq<T>, b: seq<T>, c: T)
    ensures Free(a + b, c) <==> Free(a, c) && Free(b, c)
  {
    if Free(a, c) && Free(b, c) {
      forall i | 0 <= i < |a + b| ensures (a + b)[i] != c {
        if i >= |a| { assert (a + b)[i] == b[i - |a|]; }
      }
    }
    if Free(a + b, c) {
      forall i | 0 <= i < |a| ensures a[i] != c {
        assert (a + b)[i] == a[i];
      }
      forall i | 0 <= i < |b| ensures b[i] != c {
        assert (a + b)[|a| + i] == b[i];
      }
    }
  }

  /** A separator whose first element does not occur in `x` is first found right after `x`. */
  lemma {:induction false} FindAfterFree<T>(x: seq<T>, pat: seq<T>, y: seq<T>)
    requires |pat| > 0 && Free(x, pat[0])
    ensures Find(x + pat + y, pat) == Some(|x|)
  {
    var s := x + pat + y;
    assert s[|x|..|x| + |pat|] == pat;
    forall k: nat | k < |x|
      ensures !At(s, pat, k)
    {
      assert s[k] == x[k];
    }
    FindIs(s, pat, |x|);
  }

  /** A separator whose first element does not occur in `x` is not found in `x`. */
  lemma {:induction false} FindInFree<T>(x: seq<T>, pat: seq<T>)
    requires |pat| > 0 && Free(x, pat[0])
    ensures Find(x, pat) == None
  {
    forall k: nat | k <= |x|
      ensures !At(x, pat, k)
    {
      if k + |pat| <= |x| {
        assert x[k..k + |pat|][0] == x[k];
      }
    }
  }

  /** A text lacking one of the pattern's elements does not contain the pattern. */
  lemma {:induction false} FindMissing<T>(s: seq<T>, pat: seq<T>, j: nat)
    requires j < |pat| && Free(s, pat[j])
    ensures Find(s, pat) == None
  {
    forall k: nat | k <= |s|
      ensures !At(s, pat, k)
    {
      if k + |pat| <= |s| {
        assert s[k..k + |pat|][j] == s[k + j];
      }
    }
  }

  /** `s.split(sep, 2)`: split at the first occurrence of `sep` only. */
  function SplitOnce<T(==)>(s: seq<T>, sep: seq<T>): (r: seq<seq<T>>)
    ensures 1 <= |r| <= 2
    ensures |r| == 1 <==> Find(s, sep).None?
    ensures |r| == 1 ==> r[0] == s
    ensures |r| == 2 ==> s == r[0] + sep + r[1] && Find(s, sep) == Some(|r[0]|)
  {
    match Find(s, sep)
    case None => [s]
    case Some(j) =>
      assert s == s[..j] + sep + s[j + |sep|..];
      [s[..j], s[j + |sep|..]]
  }

  /** When the separator is first found right after `x`, splitting once gives `x` and the rest. */
  lemma {:induction false} SplitAtFound<T>(x: seq<T>, sep: seq<T>, y: seq<T>)
    requires Find(x + sep + y, sep) == Some(|x|)
    ensures SplitOnce(x + sep + y, sep) == [x, y]
  {
    var s := x + sep + y;
    assert s[..|x|] == x;
    assert s[|x| + |sep|..] == y;
  }

  /** `s.split(sep, -1)`: every piece between occurrences, the empty ones included. */
  function SplitAll<T(==)>(s: seq<T>, sep: seq<T>): (r: seq<seq<T>>)
    requires |sep| > 0
    ensures |r| >= 1
    decreases |s|
  {
    match Find(s, sep)
    case None => [s]
    case Some(j) => [s[..j]] + SplitAll(s[j + |sep|..], sep)
  }

  function DropTrailingEmpty<T>(parts: seq<seq<T>>): (r: seq<seq<T>>)
    ensures |r| <= |parts|
    ensures r == [] || r[|r| - 1] != []
  {
    if parts == [] then []
    else if parts[|parts| - 1] == [] then DropTrailingEmpty(parts[..|parts| - 1])
    else parts
  }

  /** `DropTrailingEmpty` keeps a prefix and removes empty pieces only. */
  lemma {:induction false} DroppedAreEmpty<T>(parts: seq<seq<T>>)
    ensures DropTrailingEmpty(parts) == parts[..|DropTrailingEmpty(parts)|]
    ensures forall i :: |DropTrailingEmpty(parts)| <= i < |parts| ==> parts[i] == []
    decreases |parts|
  {
    if parts != [] && parts[|parts| - 1] == [] {
      var init := parts[..|parts| - 1];
      DroppedAreEmpty(init);
      assert init[..|DropTrailingEmpty(parts)|] == parts[..|DropTrailingEmpty(parts)|];
      forall i | |DropTrailingEmpty(parts)| <= i < |parts| ensures parts[i] == [] {
        if i < |parts| - 1 {
          assert parts[i] == init[i];
        }
      }
    }
  }

  /** `s.split(sep)` (limit 0): as `SplitAll`, with trailing empty pieces removed,
      except that a text in which `sep` does not occur is returned whole. */
  function Split<T(==)>(s: seq<T>, sep: seq<T>): seq<seq<T>>
    requires |sep| > 0
  {
    if Find(s, sep).None? then [s] else DropTrailingEmpty(SplitAll(s, sep))
  }

  /** A text without the separator's first element is split into itself. */
  lemma {:induction false} SplitWhole<T>(s: seq<T>, sep: seq<T>)
    requires |sep| > 0 && Free(s, sep[0])
    ensures Split(s, sep) == [s]
  {
    FindInFree(s, sep);
  }

  /** With a one-element separator, the last piece of `split` is the text after the last separator. */
  lemma {:induction false} SplitAllLast<T>(x: seq<T>, sep: seq<T>, y: seq<T>)
    requires |sep| == 1 && Free(y, sep[0])
    ensures var r := SplitAll(x + sep + y, sep); r[|r| - 1] == y
    decreases |x|
  {
    var s := x + sep + y;
    assert At(s, sep, |x|) by {
      assert s[|x|..|x| + 1] == sep;
    }
    var j := Find(s, sep).value;
    if j == |x| {
      assert s[j + 1..] == y;
      FindInFree(y, sep);
    } else {
      assert s[j + 1..] == x[j + 1..] + sep + y;
      SplitAllLast(x[j + 1..], sep, y);
    }
  }

  lemma {:induction false} SplitLast<T>(x: seq<T>, sep: seq<T>, y: seq<T>)
    requires |sep| == 1 && Free(y, sep[0]) && y != []
    ensures var r := Split(x + sep + y, sep); |r| >= 1 && r[|r| - 1] == y
  {
    var s := x + sep + y;
    assert s[|x|..|x| + 1] == sep;
    assert At(s, sep, |x|);
    assert Find(s, sep).Some?;
    SplitAllLast(x, sep, y);
  }

  /** `s.split(sep, 3)`: split at the first two occurrences of `sep`. */
  function SplitLimit3<T(==)>(s: seq<T>, sep: seq<T>): (r: seq<seq<T>>)
    ensures 1 <= |r| <= 3
  {
    var first := SplitOnce(s, sep);
    if |first| == 1 then first else [first[0]] + SplitOnce(first[1], sep)
  }

  /** `sep` joins the pieces back together. */
  function Join<T>(parts: seq<seq<T>>, sep: seq<T>): seq<T> {
    if |parts| == 0 then []
    else if |parts| == 1 then parts[0]
    else parts[0] + sep + Join(parts[1..], sep)
  }

  /** Splitting the join of pieces that do not contain the separator's first element gives the pieces back. */
  lemma {:induction false} SplitAllJoin<T>(parts: seq<seq<T>>, sep: seq<T>)
    requires |parts| >= 1 && |sep| > 0
    requires forall i :: 0 <= i < |parts| ==> Free(parts[i], sep[0])
    ensures SplitAll(Join(parts, sep), sep) == parts
    decreases |parts|
  {
    if |parts| == 1 {
      FindInFree(parts[0], sep);
    } else {
      var rest := Join(parts[1..], sep);
      FindAfterFree(parts[0], sep, rest);
      assert (parts[0] + sep + rest)[|parts[0]| + |sep|..] == rest;
      assert (parts[0] + sep + rest)[..|parts[0]|] == parts[0];
      SplitAllJoin(parts[1..], sep);
    }
  }

  /** `split` with limit 0 returns such pieces too, provided the last one is not empty. */
  lemma {:induction false} SplitJoin<T>(parts: seq<seq<T>>, sep: seq<T>)
    requires |parts| >= 1 && |sep| > 0 && parts[|parts| - 1] != []
    requires forall i :: 0 <= i < |parts| ==> Free(parts[i], sep[0])
    ensures Split(Join(parts, sep), sep) == parts
  {
    SplitAllJoin(parts, sep);
    if |parts| == 1 {
      FindInFree(parts[0], sep);
    }
  }

  /** Three pieces without the separator's first element, joined by it, split back into the three. */
  lemma {:induction false} SplitThree<T>(a: seq<T>, b: seq<T>, c: seq<T>, sep: seq<T>)
    requires |sep| > 0 && c != []
    requires Free(a, sep[0]) && Free(b, sep[0]) && Free(c, sep[0])
    ensures Split(a + sep + b + sep + c, sep) == [a, b, c]
  {
    var parts := [a, b, c];
    assert parts[1..] == [b, c] && parts[1..][1..] == [c];
    assert Join([c], sep) == c;
    assert Join([b, c], sep) == b + sep + c;
    assert Join(parts, sep) == a + sep + (b + sep + c) == a + sep + b + sep + c;
    SplitJoin(parts, sep);
  }

  /** With limit 3 only the first two pieces must avoid the separator: the third is the rest, whatever it holds. */
  lemma {:induction false} SplitLimit3Of<T>(a: seq<T>, b: seq<T>, c: seq<T>, sep: seq<T>)
    requires |sep| > 0 && Free(a, sep[0]) && Free(b, sep[0])
    ensures SplitLimit3(a + sep + b + sep + c, sep) == [a, b, c]
  {
    var rest := b + sep + c;
    Regroup(a, sep, b, c);
    SplitOnceOf(a, sep, rest);
    SplitOnceOf(b, sep, c);
  }

  lemma {:induction false} Regroup<T>(a: seq<T>, sep: seq<T>, b: seq<T>, c: seq<T>)
    ensures a + sep + b + sep + c == a + sep + (b + sep + c)
  {
  }

  /** A text split once at a separator that its first piece avoids. */
  lemma {:induction false} SplitOnceOf<T>(x: seq<T>, sep: seq<T>, y: seq<T>)
    requires |sep| > 0 && Free(x, sep[0])
    ensures SplitOnce(x + sep + y, sep) == [x, y]
  {
    FindAfterFree(x, sep, y);
    SplitAtFound(x, sep, y);
  }

  /** `Character.toLowerCase` on the ASCII letters. */
  function LowerChar(c: char): char {
    if 'A' <= c <= 'Z' then (c as int + 32) as char else c
  }

  /** `toLowerCase()`. */
  function Lower(s: string): (r: string)
    ensures |r| == |s|
    ensures forall i :: 0 <= i < |s| ==> r[i] == LowerChar(s[i])
  {
    seq(|s|, i requires 0 <= i < |s| => LowerChar(s[i]))
  }

  lemma {:induction false} LowerIdempotent(s: string)
    ensures Lower(Lower(s)) == Lower(s)
  {
  }

  lemma {:induction false} LowerAppend(a: string, b: string)
    ensures Lower(a + b) == Lower(a) + Lower(b)
  {
  }

  /** The characters `trim()` removes: everything up to and including the space. */
  predicate IsTrimmed(c: char) {
    c <= ' '
  }

  /** The text without its leading characters up to the space. */
  function TrimStart(s: string): (r: string)
    ensures |r| <= |s|
    ensures r == [] || !IsTrimmed(r[0])
  {
    if s != [] && IsTrimmed(s[0]) then TrimStart(s[1..]) else s
  }

  /** The text without its trailing characters up to the space. */
  function TrimEnd(s: string): (r: string)
    ensures |r| <= |s|
    ensures r == [] || !IsTrimmed(r[|r| - 1])
  {
    if s != [] && IsTrimmed(s[|s| - 1]) then TrimEnd(s[..|s| - 1]) else s
  }

  /** `TrimStart` keeps a suffix and removes only characters up to the space. */
  lemma {:induction false} TrimStartSuffix(s: string)
    ensures TrimStart(s) == s[|s| - |TrimStart(s)|..]
    ensures forall i :: 0 <= i < |s| - |TrimStart(s)| ==> IsTrimmed(s[i])
    decreases |s|
  {
    if s != [] && IsTrimmed(s[0]) {
      var r := TrimStart(s);
      TrimStartSuffix(s[1..]);
      assert s[1..][|s| - 1 - |r|..] == s[|s| - |r|..];
      forall i | 0 <= i < |s| - |r| ensures IsTrimmed(s[i]) {
        if i > 0 {
          assert s[i] == s[1..][i - 1];
        }
      }
    }
  }

  /** `TrimEnd` keeps a prefix and removes only characters up to the space. */
  lemma {:induction false} TrimEndPrefix(s: string)
    ensures TrimEnd(s) == s[..|TrimEnd(s)|]
    ensures forall i :: |TrimEnd(s)| <= i < |s| ==> IsTrimmed(s[i])
    decreases |s|
  {
    if s != [] && IsTrimmed(s[|s| - 1]) {
      var r := TrimEnd(s);
      var init := s[..|s| - 1];
      TrimEndPrefix(init);
      assert init[..|r|] == s[..|r|];
      forall i | |r| <= i < |s| ensures IsTrimmed(s[i]) {
        if i < |s| - 1 {
          assert s[i] == init[i];
        }
      }
    }
  }

  /** `trim()`: without the leading and trailing characters up to the space. */
  function Trim(s: string): string
    decreases |s|
  {
    if s != [] && IsTrimmed(s[0]) then Trim(s[1..]) else TrimEnd(s)
  }

  /** Trimming strips the leading characters first, then the trailing ones. */
  lemma {:induction false} TrimBothEnds(s: string)
    ensures Trim(s) == TrimEnd(TrimStart(s))
    decreases |s|
  {
    if s != [] && IsTrimmed(s[0]) {
      TrimBothEnds(s[1..]);
    }
  }

  /** Trimming ignores extra leading blanks. */
  lemma {:induction false} TrimLeadingSpace(v: string)
    ensures Trim(" " + v) == Trim(v)
  {
    assert (" " + v)[1..] == v;
  }

  /** `replace(target, repl)`: every occurrence of `target`, scanning left to right. */
  function Replace<T(==)>(s: seq<T>, target: seq<T>, repl: seq<T>): seq<T>
    requires |target| > 0
    decreases |s|
  {
    match Find(s, target)
    case None => s
    case Some(j) => s[..j] + repl + Replace(s[j + |target|..], target, repl)
  }
}
