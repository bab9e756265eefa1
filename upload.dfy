/**
 * The file-type check of the upload route (app.py:180-181): a file name is
 * accepted when it contains a '.', and the text after its last '.'
 * (`rsplit('.', 1)[1]`), lower-cased, is one of the listed extensions.
 */
module Upload {

  import opened Wrappers

  const AllowedExtensions: set<string> := {"png", "jpg", "jpeg", "bmp", "tiff", "tif", "gif"}

  /** Lower-casing of one character; only the ASCII letters A-Z change. */
  function LowerChar(c: char): (l: char)
    ensures 'A' <= c <= 'Z' ==> 'a' <= l <= 'z' && l as int == c as int + 32
    ensures !('A' <= c <= 'Z') ==> l == c
  {
    if 'A' <= c <= 'Z' then (c as int + 32) as char else c
  }

  /** `s.lower()`, character by character. */
  function Lower(s: string): (r: string)
    ensures |r| == |s|
    ensures forall i :: 0 <= i < |s| ==> r[i] == LowerChar(s[i])
  {
    if s == [] then [] else [LowerChar(s[0])] + Lower(s[1..])
  }

  /** Position i holds a '.' and no later position does. */
  predicate IsLastDot(s: string, i: int)
  {
    0 <= i < |s| && s[i] == '.' && forall k :: i < k < |s| ==> s[k] != '.'
  }

  /** The position of the last '.' in `s`, where `rsplit('.', 1)` splits it. */
  function LastDot(s: string): (r: Option<nat>)
    ensures r.None? <==> '.' !in s
    ensures r.Some? ==> IsLastDot(s, r.value)
  {
    if s == [] then None
    else if s[|s| - 1] == '.' then Some(|s| - 1)
    else
      var r := LastDot(s[..|s| - 1]);
      assert s == s[..|s| - 1] + [s[|s| - 1]];
      r
  }

  /** The upload's extension check. */
  function HasAllowedExtension(filename: string): (ok: bool)
    ensures ok ==> '.' in filename
  {
    match LastDot(filename)
    case None => false
    case Some(i) => Lower(filename[i + 1..]) in AllowedExtensions
  }

  /** A string has at most one last '.', and `LastDot` finds it. */
  lemma LastDotIs(s: string, i: int)
    requires IsLastDot(s, i)
    ensures LastDot(s) == Some(i)
  {
    var j := LastDot(s).value;
    assert IsLastDot(s, j);
    assert !(i < j) && !(j < i);
  }

  /**
   * A name is accepted exactly when it has a last '.' and the lower-cased
   * text after it is an allowed extension.
   */
  lemma AcceptedIff(filename: string)
    ensures HasAllowedExtension(filename) <==>
      exists i :: IsLastDot(filename, i) && Lower(filename[i + 1..]) in AllowedExtensions
  {
    if HasAllowedExtension(filename) {
      var i := LastDot(filename).value;
      assert IsLastDot(filename, i);
    } else {
      forall i | IsLastDot(filename, i)
        ensures Lower(filename[i + 1..]) !in AllowedExtensions
      {
        LastDotIs(filename, i);
      }
    }
  }

  /** Lower-casing moves no '.': the last one stays where it was. */
  lemma LastDotOfLower(s: string)
    ensures LastDot(Lower(s)) == LastDot(s)
  {
    var l := Lower(s);
    assert forall k :: 0 <= k < |s| ==> (l[k] == '.' <==> s[k] == '.');
    match LastDot(s)
    case None =>
      assert '.' !in l;
    case Some(i) =>
      assert IsLastDot(l, i);
      LastDotIs(l, i);
  }

  /** Lower-casing commutes with taking a suffix. */
  lemma LowerSuffix(s: string, i: nat)
    requires i <= |s|
    ensures Lower(s[i..]) == Lower(s)[i..]
  {
    assert |Lower(s[i..])| == |Lower(s)[i..]|;
  }

  /** The check ignores letter case: names that lower-case alike are accepted alike. */
  lemma CaseInsensitive(a: string, b: string)
    requires Lower(a) == Lower(b)
    ensures HasAllowedExtension(a) == HasAllowedExtension(b)
  {
    LastDotOfLower(a);
    LastDotOfLower(b);
    match LastDot(a)
    case None =>
    case Some(i) =>
      LowerSuffix(a, i + 1);
      LowerSuffix(b, i + 1);
  }

  lemma AcceptsUpperCaseExtension()
    ensures HasAllowedExtension("Scan.TIFF")
  {
    var name := "Scan.TIFF";
    assert IsLastDot(name, 4);
    LastDotIs(name, 4);
    assert name[5..] == "TIFF";
    assert Lower("TIFF") == "tiff";
  }

  lemma AcceptsEmptyStem()
    ensures HasAllowedExtension(".gif")
  {
    var name := ".gif";
    assert IsLastDot(name, 0);
    LastDotIs(name, 0);
    assert name[1..] == "gif";
    assert Lower("gif") == "gif";
  }

  lemma RejectsNameWithoutDot()
    ensures !HasAllowedExtension("png")
  {
    assert '.' !in "png";
  }

  lemma RejectsOnlyLastExtensionCounts()
    ensures !HasAllowedExtension("image.png.exe")
  {
    var name := "image.png.exe";
    assert IsLastDot(name, 9);
    LastDotIs(name, 9);
    assert name[10..] == "exe";
    assert Lower("exe") == "exe";
  }
}
