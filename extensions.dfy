/** `parseExtension` and the content type `fetchPage` derives from the extension. */
module Extensions {
  import opened Wrappers
  import opened JavaText

  const ImageExtensions: seq<string> := ["jpeg", "jpg", "png", "bmp", "wbmp", "gif"]
  const TextExtensions: seq<string> := ["txt", "html", "js", "css"]

  /** `parseExtension(path)`: the last piece of `split("/")` (the path itself when that is empty),
      then the lower-cased last piece of `split("\\.")`, or "" when there is no dot or no piece. */
  function ParseExtension(path: string): (r: string)
    ensures forall i :: 0 <= i < |r| ==> !('A' <= r[i] <= 'Z')
    ensures r != [] ==> Contains(FileName(path), ".")
  {
    NameExtension(FileName(path))
  }

  /** The last piece of `path.split("/")`; the whole path when there is none (the caught index error). */
  function FileName(path: string): string {
    var pathSplit := Split(path, "/");
    if |pathSplit| == 0 then path else pathSplit[|pathSplit| - 1]
  }

  /** The lower-cased last piece of `filename.split("\\.")`; "" without a dot or without a piece. */
  function NameExtension(filename: string): string {
    if !Contains(filename, ".") then ""
    else
      var filenameSplit := Split(filename, ".");
      if |filenameSplit| == 0 then "" else Lower(filenameSplit[|filenameSplit| - 1])
  }

  /** The content type for an extension: images get `image/<ext>`, the four text extensions
      their text type, each with `; charset=utf-8`, and everything else "undefined". */
  function ContentType(ext: string): (r: string)
    ensures ext in ImageExtensions ==> r == "image/" + ext + "; charset=utf-8"
    ensures ext == "txt" ==> r == "text/plain; charset=utf-8"
    ensures ext == "js" ==> r == "text/javascript; charset=utf-8"
    ensures ext == "html" || ext == "css" ==> r == "text/" + ext + "; charset=utf-8"
    ensures r == "undefined" <==> ext !in ImageExtensions && ext !in TextExtensions
  {
    if ext in ImageExtensions then "image/" + ext + "; charset=utf-8"
    else if ext in TextExtensions then
      if ext == "txt" then "text/plain; charset=utf-8"
      else if ext == "js" then "text/javascript; charset=utf-8"
      else "text/" + ext + "; charset=utf-8"
    else "undefined"
  }

  /** The extension of a file name `base.ext` under any directory is `ext`, lower-cased, provided
      `ext` is non-empty and free of `.` and `/`, and `base` has no `/`. */
  lemma {:induction false} ExtensionOfName(dir: string, base: string, ext: string)
    requires ext != [] && Free(ext, '.') && Free(ext, '/') && Free(base, '/')
    ensures ParseExtension(dir + "/" + base + "." + ext) == Lower(ext)
    ensures ParseExtension(base + "." + ext) == Lower(ext)
  {
    var name := base + "." + ext;
    NameFree(base, ext);
    assert dir + "/" + base + "." + ext == dir + "/" + name;
    LastComponent(dir, name);
    ExtensionAfterDot(base, ext);
  }

  lemma {:induction false} NameFree(base: string, ext: string)
    requires Free(ext, '/') && Free(base, '/')
    ensures Free(base + "." + ext, '/') && base + "." + ext != []
  {
    assert Free(".", '/');
    FreeAppend(base, ".", '/');
    FreeAppend(base + ".", ext, '/');
  }

  /** The file name of a path is its last component. */
  lemma {:induction false} LastComponent(dir: string, name: string)
    requires name != [] && Free(name, '/')
    ensures FileName(dir + "/" + name) == name && FileName(name) == name
  {
    SplitLast(dir, "/", name);
    SplitWhole(name, "/");
  }

  lemma {:induction false} ExtensionAfterDot(base: string, ext: string)
    requires ext != [] && Free(ext, '.')
    ensures NameExtension(base + "." + ext) == Lower(ext)
  {
    var name := base + "." + ext;
    assert name[|base|..|base| + 1] == ".";
    assert At(name, ".", |base|);
    SplitLast(base, ".", ext);
  }

  /** A last path component without a dot has no extension. */
  lemma {:induction false} NoDotNoExtension(dir: string, name: string)
    requires name != [] && Free(name, '/') && Free(name, '.')
    ensures ParseExtension(dir + "/" + name) == ""
    ensures ParseExtension(name) == ""
  {
    LastComponent(dir, name);
    FindInFree(name, ".");
  }

  /** `split` drops trailing empty pieces, so a name ending in a dot has the text before it as its
      extension: `file.` yields `file`. */
  lemma {:induction false} TrailingDot(base: string)
    requires base != [] && Free(base, '.') && Free(base, '/')
    ensures ParseExtension(base + ".") == Lower(base)
  {
    var name := base + ".";
    assert Free(".", '/');
    FreeAppend(base, ".", '/');
    SplitWhole(name, "/");
    assert name == base + "." + [];
    FindAfterFree(base, ".", []);
    assert Find(name, ".") == Some(|base|);
    assert name[..|base|] == base && name[|base| + 1..] == [];
    FindInFree([], ".");
    assert SplitAll([], ".") == [[]];
    assert SplitAll(name, ".") == [base] + SplitAll([], ".");
    assert DropTrailingEmpty([base, []]) == [base] by {
      assert [base, []][..1] == [base];
      assert DropTrailingEmpty([base]) == [base];
    }
    assert Split(name, ".") == [base];
    assert FileName(name) == name;
    assert Contains(name, ".");
    assert NameExtension(name) == Lower(base);
  }

  /** The content types of the image extensions, and only those, contain `image`, which is what
      the connection loop tests before Base64-decoding a body. */
  lemma {:induction false} ImageTypeIff(ext: string)
    ensures Contains(ContentType(ext), "image") <==> ext in ImageExtensions
  {
    var r := ContentType(ext);
    if ext in ImageExtensions {
      assert r == "image" + ("/" + ext + "; charset=utf-8");
      assert At(r, "image", 0) by {
        assert r[0..5] == "image";
      }
    } else {
      OtherTypesLackG(ext);
      FindMissing(r, "image", 3);
    }
  }

  lemma {:induction false} OtherTypesLackG(ext: string)
    requires ext !in ImageExtensions
    ensures Free(ContentType(ext), 'g')
  {
    if ext in TextExtensions {
      TextTypesLackG(ext);
    }
  }

  lemma {:induction false} TextTypesLackG(ext: string)
    requires ext in TextExtensions
    ensures Free(ContentType(ext), 'g')
  {
    assert ext == "txt" || ext == "html" || ext == "js" || ext == "css";
    if ext == "html" || ext == "css" {
      NamedTextTypeLacksG(ext);
    } else {
      FixedTextTypesLackG();
    }
  }

  lemma {:induction false} FixedTextTypesLackG()
    ensures Free(ContentType("txt"), 'g') && Free(ContentType("js"), 'g')
  {
    assert ContentType("txt") == "text/plain; charset=utf-8";
    assert ContentType("js") == "text/javascript; charset=utf-8";
  }

  lemma {:induction false} NamedTextTypeLacksG(ext: string)
    requires ext == "html" || ext == "css"
    ensures Free(ContentType(ext), 'g')
  {
    FreeAppend("text/", ext, 'g');
    FreeAppend("text/" + ext, "; charset=utf-8", 'g');
  }
}
