/**
 * The upload filter `allowed_file`: a filename is accepted when it holds a
 * dot and the text after its last dot, lower-cased, is a known image
 * extension.
 */
module Upload {
  import opened Wrappers

  /** The extensions the application accepts for uploads. */
  const AllowedExtensions: set<string> := {"png", "jpg", "jpeg", "gif"}

  /** Lower-cases one character; only ASCII letters change. */
  function LowerChar(ch: char): char
  {
    if 'A' <= ch <= 'Z' then (ch as int - 'A' as int + 'a' as int) as char else ch
  }

  /** `s.lower()` restricted to ASCII letters. */
  function Lower(s: string): (r: string)
    ensures |r| == |s|
    ensures forall i :: 0 <= i < |s| ==> r[i] == LowerChar(s[i])
  {
    if s == [] then [] else [LowerChar(s[0])] + Lower(s[1..])
  }

  /** The position of the last dot of `s`, if any. */
  function LastDot(s: string): (r: Option<nat>)
    ensures r.None? <==> '.' !in s
    ensures r.Some? ==> r.value < |s| && s[r.value] == '.' && '.' !in s[r.value + 1..]
  {
    if s == [] then None
    else if s[|s| - 1] == '.' then Some(|s| - 1)
    else
      var r := LastDot(s[..|s| - 1]);
      assert s == s[..|s| - 1] + [s[|s| - 1]];
      assert r.Some? ==> s[r.value + 1..] == s[..|s| - 1][r.value + 1..] + [s[|s| - 1]];
      r
  }

  /**
   * `s.rsplit('.', 1)`: the whole string when it has no dot, otherwise the
   * text before and the text after its last dot.
   */
  function RSplitLastDot(s: string): (parts: seq<string>)
    ensures '.' !in s ==> parts == [s]
    ensures '.' in s ==> |parts| == 2 && parts[0] + "." + parts[1] == s && '.' !in parts[1]
  {
    match LastDot(s)
    case None => [s]
    case Some(i) =>
      assert s == s[..i] + "." + s[i + 1..];
      [s[..i], s[i + 1..]]
  }

  /** `allowed_file(filename)`. */
  function AllowedFile(filename: string): (ok: bool)
    ensures '.' !in filename ==> !ok
  {
    '.' in filename && Lower(RSplitLastDot(filename)[1]) in AllowedExtensions
  }

  /**
   * A filename is accepted exactly when some dot in it has no dot after it
   * and the text following that dot, lower-cased, is an allowed extension.
   */
  lemma {:induction false} AllowedFileIffExtension(filename: string)
    ensures AllowedFile(filename) <==>
      exists i :: 0 <= i < |filename| && filename[i] == '.' && '.' !in filename[i + 1..]
        && Lower(filename[i + 1..]) in AllowedExtensions
  {
    if AllowedFile(filename) {
      var i := LastDot(filename).value;
      assert RSplitLastDot(filename)[1] == filename[i + 1..];
    }
    forall i | 0 <= i < |filename| && filename[i] == '.' && '.' !in filename[i + 1..]
      ensures LastDot(filename) == Some(i)
    {
    }
  }

  /** A stem followed by a dot and an allowed extension, in any letter case, is accepted. */
  lemma StemWithAllowedExtension(stem: string, ext: string)
    requires '.' !in ext && Lower(ext) in AllowedExtensions
    ensures AllowedFile(stem + "." + ext)
  {
    var name := stem + "." + ext;
    assert name[|stem|] == '.' && name[|stem| + 1..] == ext;
    AllowedFileIffExtension(name);
  }

  /** Lower-casing never makes a dot, and keeps one. */
  lemma LowerCharDot(ch: char)
    ensures LowerChar(ch) == '.' <==> ch == '.'
  {
  }

  /** Lower-casing a string keeps the position of its last dot. */
  lemma {:induction false} LastDotOfLower(s: string)
    ensures LastDot(Lower(s)) == LastDot(s)
  {
    if s != [] {
      var init, last := s[..|s| - 1], s[|s| - 1];
      var lowered := Lower(s);
      assert lowered[..|s| - 1] == Lower(init);
      LowerCharDot(last);
      assert lowered[|s| - 1] == LowerChar(last);
      if last != '.' {
        LastDotOfLower(init);
      }
    }
  }

  /** Lower-casing twice is lower-casing once. */
  lemma LowerIdempotent(s: string)
    ensures Lower(Lower(s)) == Lower(s)
  {
  }

  /** Lower-casing commutes with dropping a prefix. */
  lemma {:induction false} LowerSuffix(s: string, i: nat)
    requires i <= |s|
    ensures Lower(s)[i..] == Lower(s[i..])
  {
    if i > 0 {
      assert Lower(s)[i..] == Lower(s[1..])[i - 1..];
      assert s[i..] == s[1..][i - 1..];
      LowerSuffix(s[1..], i - 1);
    }
  }

  /** The extension of a lower-cased name is the lower-cased extension. */
  lemma ExtensionOfLower(filename: string)
    requires '.' in filename
    ensures '.' in Lower(filename)
    ensures RSplitLastDot(Lower(filename))[1] == Lower(RSplitLastDot(filename)[1])
  {
    var lowered := Lower(filename);
    LastDotOfLower(filename);
    var i := LastDot(filename).value;
    assert LastDot(lowered) == Some(i);
    assert RSplitLastDot(filename)[1] == filename[i + 1..];
    assert RSplitLastDot(lowered)[1] == lowered[i + 1..];
    LowerSuffix(filename, i + 1);
  }

  /** Letter case does not decide acceptance: a name is accepted iff its lower-cased form is. */
  lemma AllowedFileIgnoresCase(filename: string)
    ensures AllowedFile(Lower(filename)) == AllowedFile(filename)
  {
    LastDotOfLower(filename);
    if '.' in filename {
      ExtensionOfLower(filename);
      LowerIdempotent(RSplitLastDot(filename)[1]);
    }
  }

  /** An upper-case extension passes. */
  lemma UpperCaseExample()
    ensures AllowedFile("photo.PNG")
  {
    var lowered := Lower("PNG");
    assert lowered[0] == 'p' && lowered[1] == 'n' && lowered[2] == 'g';
    assert lowered == "png";
    StemWithAllowedExtension("photo", "PNG");
  }

  /** A name that is nothing but a dot and an allowed extension passes: the stem may be empty. */
  lemma DotOnlyNameAccepted(ext: string)
    requires '.' !in ext && Lower(ext) in AllowedExtensions
    ensures AllowedFile("." + ext)
  {
    var name := "." + ext;
    assert name[0] == '.' && name[1..] == ext;
    AllowedFileIffExtension(name);
  }

  /** A name ending in a dot has an empty extension and is refused. */
  lemma TrailingDotRejected(stem: string)
    ensures !AllowedFile(stem + ".")
  {
    var name := stem + ".";
    assert LastDot(name) == Some(|stem|);
    assert RSplitLastDot(name)[1] == "";
  }

  /** Only the text after the last dot counts: a double extension is judged by its outer part. */
  lemma DoubleExtensionExample()
    ensures !AllowedFile("archive.png.exe")
  {
    var name := "archive.png.exe";
    assert name == "archive.png" + "." + "exe";
    assert '.' !in "exe";
    assert LastDot(name) == Some(11);
    assert Lower("exe") == "exe";
  }
}
