/** `Integer.parseInt(s, radix)` and `Integer.toString`/`String.valueOf` on Java's
    32-bit `int`, for the ASCII digits. */
module JavaNumber {
  import opened Wrappers

  /** A Java `int`. */
  type int32 = x: int | -0x8000_0000 <= x < 0x8000_0000

  /** `Character.digit(c, radix)`: the value of an ASCII digit or letter, if below the radix. */
  function Digit(c: char, radix: nat): (r: Option<nat>)
    requires 2 <= radix <= 36
    ensures r.Some? ==> r.value < radix
  {
    var d :=
      if '0' <= c <= '9' then c as int - '0' as int
      else if 'a' <= c <= 'z' then c as int - 'a' as int + 10
      else if 'A' <= c <= 'Z' then c as int - 'A' as int + 10
      else radix;
    if d < radix then Some(d) else None
  }

  /** The character `Integer.toString(n, radix)` writes for one digit. */
  function DigitChar(d: nat): (c: char)
    requires d < 36
    ensures '0' <= c <= '9' || 'a' <= c <= 'z'
  {
    if d < 10 then ('0' as int + d) as char else ('a' as int + d - 10) as char
  }

  /** The value of a digit string, most significant digit first; `None` if some character is not a digit. */
  function DigitsValue(s: string, radix: nat): Option<nat>
    requires 2 <= radix <= 36
    decreases |s|
  {
    if s == [] then Some(0)
    else
      match Digit(s[|s| - 1], radix)
      case None => None
      case Some(d) =>
        match DigitsValue(s[..|s| - 1], radix)
        case None => None
        case Some(v) => Some(v * radix + d)
  }

  /** `Integer.parseInt(s, radix)`: an optional sign, at least one digit, and a value that fits in an `int`;
      `None` stands for the NumberFormatException. */
  function ParseInt(s: string, radix: nat): (r: Option<int32>)
    requires 2 <= radix <= 36
    ensures s == [] ==> r.None?
    ensures r.Some? && s[0] != '-' ==> r.value >= 0
  {
    if s == [] then None
    else
      var digits := if s[0] == '-' || s[0] == '+' then s[1..] else s;
      if digits == [] then None
      else
        match DigitsValue(digits, radix)
        case None => None
        case Some(v) =>
          var n: int := if s[0] == '-' then -(v as int) else v;
          if -0x8000_0000 <= n < 0x8000_0000 then Some(n) else None
  }

  /** `Integer.toString(n, radix)` for a non-negative `n`. */
  function NatToString(n: nat, radix: nat): (r: string)
    requires 2 <= radix <= 36
    ensures |r| >= 1
    ensures forall i :: 0 <= i < |r| ==> '0' <= r[i] <= '9' || 'a' <= r[i] <= 'z'
    decreases n
  {
    if n < radix then [DigitChar(n)] else NatToString(n / radix, radix) + [DigitChar(n % radix)]
  }

  /** `String.valueOf(i)` / `Integer.toString(i)`: decimal, with a minus sign when negative. */
  function IntToString(i: int): (r: string)
    ensures |r| >= 1
    ensures forall k :: 0 <= k < |r| ==> r[k] == '-' || '0' <= r[k] <= '9' || 'a' <= r[k] <= 'z'
  {
    if i < 0 then "-" + NatToString(-i, 10) else NatToString(i, 10)
  }

  lemma {:induction false} DigitOfDigitChar(d: nat, radix: nat)
    requires 2 <= radix <= 36 && d < radix
    ensures Digit(DigitChar(d), radix) == Some(d)
  {
  }

  /** Reading back the digits `NatToString` writes gives the number. */
  lemma {:induction false} DigitsValueOfNatToString(n: nat, radix: nat)
    requires 2 <= radix <= 36
    ensures DigitsValue(NatToString(n, radix), radix) == Some(n)
    decreases n
  {
    if n < radix {
      DigitsValueAppend([], 0, n, radix);
      assert [] + [DigitChar(n)] == NatToString(n, radix);
    } else {
      var q, d := n / radix, n % radix;
      var p := NatToString(q, radix);
      assert NatToString(n, radix) == p + [DigitChar(d)];
      DivStep(n, radix);
      DigitsValueOfNatToString(q, radix);
      DigitsValueAppend(p, q, d, radix);
    }
  }

  /** The division facts the digit recursion needs, proved apart so that the nonlinear
      arithmetic stays out of the larger proof above. */
  lemma {:induction false} DivStep(n: nat, radix: nat)
    requires 2 <= radix <= n
    ensures 0 < n / radix < n
    ensures (n / radix) * radix + n % radix == n
  {
  }

  lemma {:induction false} DigitsValueAppend(p: string, v: nat, d: nat, radix: nat)
    requires 2 <= radix <= 36 && d < radix
    requires DigitsValue(p, radix) == Some(v)
    ensures DigitsValue(p + [DigitChar(d)], radix) == Some(v * radix + d)
  {
    var s := p + [DigitChar(d)];
    assert s[..|s| - 1] == p;
    DigitOfDigitChar(d, radix);
  }

  /** `Integer.parseInt` inverts `Integer.toString` on every non-negative `int`, in every radix. */
  lemma {:induction false} ParseNatToString(n: nat, radix: nat)
    requires 2 <= radix <= 36 && n < 0x8000_0000
    ensures ParseInt(NatToString(n, radix), radix) == Some(n)
  {
    DigitsValueOfNatToString(n, radix);
  }

  /** `Integer.parseInt(Integer.toString(i))` is `i` for every `int`, the negative ones included. */
  lemma {:induction false} ParseIntToString(i: int32)
    ensures ParseInt(IntToString(i), 10) == Some(i)
  {
    if i < 0 {
      ParseNegative(-(i as int));
    } else {
      ParseNatToString(i, 10);
    }
  }

  lemma {:induction false} ParseNegative(m: nat)
    requires 0 < m <= 0x8000_0000
    ensures ParseInt("-" + NatToString(m, 10), 10) == Some(-(m as int))
  {
    var t := NatToString(m, 10);
    DigitsValueOfNatToString(m, 10);
    var s := "-" + t;
    assert s[0] == '-' && s[1..] == t;
  }
}
