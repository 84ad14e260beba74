/**
 * The upload filter: a filename is accepted when the text after its last
 * dot, lower-cased, is one of the image extensions.
 */
module Upload {
  import opened Wrappers

  const ALLOWED_EXTENSIONS: set<string> := {"png", "jpg", "jpeg"}

  /** ASCII lower-casing of one character. */
  function LowerChar(c: char): char {
    if 'A' <= c <= 'Z' then (c as int + 32) as char else c
  }

  /** `s.lower()`, restricted to ASCII letters. */
  function Lower(s: string): (r: string)
    ensures |r| == |s|
    ensures forall i :: 0 <= i < |s| ==> r[i] == LowerChar(s[i])
  {
    if s == [] then [] else [LowerChar(s[0])] + Lower(s[1..])
  }

  /** Position of the last occurrence of `c` in `s`. */
  function LastIndexOf(s: string, c: char): (r: Option<nat>)
    ensures r.None? <==> c !in s
    ensures r.Some? ==> r.value < |s| && s[r.value] == c && c !in s[r.value + 1..]
  {
    if s == [] then None
    else if s[|s| - 1] == c then Some(|s| - 1)
    else LastIndexOf(s[..|s| - 1], c)
  }

  /** `s.rsplit(sep, 1)`: the whole string, or the parts before and after the last `sep`. */
  function RSplitOnce(s: string, sep: char): (parts: seq<string>)
    ensures |parts| == 1 || |parts| == 2
    ensures |parts| == 1 <==> sep !in s
    ensures |parts| == 1 ==> parts[0] == s
    ensures |parts| == 2 ==> parts[0] + [sep] + parts[1] == s && sep !in parts[1]
  {
    match LastIndexOf(s, sep)
    case None => [s]
    case Some(i) => [s[..i], s[i + 1..]]
  }

  /** `allowed_file(filename)`; the `and` keeps `[1]` from being taken of a one-part split. */
  predicate AllowedFile(filename: string): (ok: bool)
    ensures ok ==> '.' in filename && 3 <= |RSplitOnce(filename, '.')[1]| <= 4
  {
    '.' in filename && Lower(RSplitOnce(filename, '.')[1]) in ALLOWED_EXTENSIONS
  }

  /** A dot with no dot after it is the one LastIndexOf finds. */
  lemma {:induction false} LastDotIsUnique(s: string, i: nat)
    requires i < |s| && s[i] == '.' && '.' !in s[i + 1..]
    ensures LastIndexOf(s, '.') == Some(i)
  {
    if i < |s| - 1 {
      assert s[|s| - 1] == s[i + 1..][|s| - i - 2];
      assert s[..|s| - 1][i + 1..] == s[i + 1..|s| - 1];
      LastDotIsUnique(s[..|s| - 1], i);
    }
  }

  /**
   * A filename is accepted exactly when it has a dot that no later dot
   * follows, and the text after it, lower-cased, is an allowed extension.
   */
  lemma AllowedFileIffExtension(filename: string)
    ensures AllowedFile(filename) <==>
      exists i :: 0 <= i < |filename| && filename[i] == '.' && '.' !in filename[i + 1..]
        && Lower(filename[i + 1..]) in ALLOWED_EXTENSIONS
  {
    if exists i :: 0 <= i < |filename| && filename[i] == '.' && '.' !in filename[i + 1..]
        && Lower(filename[i + 1..]) in ALLOWED_EXTENSIONS
    {
      var i :| 0 <= i < |filename| && filename[i] == '.' && '.' !in filename[i + 1..]
        && Lower(filename[i + 1..]) in ALLOWED_EXTENSIONS;
      LastDotIsUnique(filename, i);
    }
  }

  /** A filename without a dot, or ending in a dot, is rejected. */
  lemma RejectsMissingOrEmptyExtension(filename: string)
    requires '.' !in filename || filename[|filename| - 1] == '.'
    ensures !AllowedFile(filename)
  {
    if '.' in filename {
      LastDotIsUnique(filename, |filename| - 1);
      assert Lower([]) == [];
    }
  }

  /** Lower-casing commutes with taking a suffix. */
  lemma LowerSuffix(s: string, j: nat)
    requires j <= |s|
    ensures Lower(s)[j..] == Lower(s[j..])
  {
    assert forall i :: 0 <= i < |s| - j ==> Lower(s)[j..][i] == Lower(s[j..])[i];
  }

  /** Lower-casing twice is lower-casing once. */
  lemma LowerIdempotent(s: string)
    ensures Lower(Lower(s)) == Lower(s)
  {
    assert forall i :: 0 <= i < |s| ==> Lower(Lower(s))[i] == Lower(s)[i];
  }

  /** Lower-casing moves no dot: the last dot stays where it was. */
  lemma {:induction false} LowerKeepsLastDot(s: string)
    ensures LastIndexOf(Lower(s), '.') == LastIndexOf(s, '.')
  {
    if s != [] {
      var init := s[..|s| - 1];
      assert Lower(s)[..|s| - 1] == Lower(init);
      LowerKeepsLastDot(init);
    }
  }

  /** The text the filter checks is the suffix after the last dot. */
  lemma ExtensionAfterLastDot(filename: string)
    requires '.' in filename
    ensures RSplitOnce(filename, '.')[1] == filename[LastIndexOf(filename, '.').value + 1..]
  {
  }

  /** The filter ignores letter case: a name and its lower-cased form are accepted alike. */
  lemma AllowedFileIgnoresCase(filename: string)
    ensures AllowedFile(Lower(filename)) == AllowedFile(filename)
  {
    LowerKeepsLastDot(filename);
    if '.' in filename {
      var low := Lower(filename);
      var j := LastIndexOf(filename, '.').value;
      ExtensionAfterLastDot(filename);
      ExtensionAfterLastDot(low);
      LowerSuffix(filename, j + 1);
      LowerIdempotent(filename[j + 1..]);
    }
  }

  /** An upper-case extension is accepted. */
  lemma AcceptsUpperCaseExtension()
    ensures AllowedFile("photo.PNG")
  {
    var f := "photo.PNG";
    LastDotIsUnique(f, 5);
    assert f[6..] == "PNG";
    assert Lower("PNG") == "png";
  }

  /** Only the last extension counts: an image extension before it does not help. */
  lemma RejectsInnerExtension()
    ensures !AllowedFile("table.png.exe")
  {
    var f := "table.png.exe";
    LastDotIsUnique(f, 9);
    assert f[10..] == "exe";
    assert Lower("exe") == "exe";
  }
}
