/**
 * The two pure helpers of the profile handler: the avatar extension allowlist
 * (`allowed_file`) and the scheme prefix that `update` puts on a website.
 */
module Validation {

  /** The extensions an avatar upload may carry (`ALLOWED_EXTENSIONS`). */
  const AllowedExtensions: set<string> := {"png", "jpg", "jpeg", "gif"}

  /** Index of the last occurrence of `c` in `s`, or -1 when `c` does not occur. */
  function LastIndexOf(s: string, c: char): (r: int)
    ensures -1 <= r < |s|
    ensures r == -1 <==> c !in s
    ensures r >= 0 ==> s[r] == c && c !in s[r + 1..]
    decreases |s|
  {
    if s == [] then -1
    else if s[|s| - 1] == c then |s| - 1
    else
      var r := LastIndexOf(s[..|s| - 1], c);
      assert s == s[..|s| - 1] + [s[|s| - 1]];
      assert r >= 0 ==> s[r + 1..] == s[..|s| - 1][r + 1..] + [s[|s| - 1]];
      r
  }

  /** ASCII lower-casing of one character. */
  function LowerChar(c: char): char
  {
    if 'A' <= c <= 'Z' then (c as int + 32) as char else c
  }

  /** ASCII lower-casing of a string (`str.lower`). */
  function Lower(s: string): (r: string)
    ensures |r| == |s|
  {
    seq(|s|, i requires 0 <= i < |s| => LowerChar(s[i]))
  }

  /** `i` is the position of the last '.' of `filename`. */
  predicate IsLastDot(filename: string, i: int)
  {
    0 <= i < |filename| && filename[i] == '.' && '.' !in filename[i + 1..]
  }

  /** A name has at most one last dot, and LastIndexOf finds it. */
  lemma LastDotUnique(filename: string, i: int)
    requires IsLastDot(filename, i)
    ensures i == LastIndexOf(filename, '.')
  {
  }

  /**
   * `allowed_file`: the name contains a '.' and the text after its last '.',
   * lower-cased, is one of the allowed extensions.
   */
  function AllowedFile(filename: string): (r: bool)
    ensures r <==> exists i :: IsLastDot(filename, i) && Lower(filename[i + 1..]) in AllowedExtensions
  {
    if '.' !in filename then
      assert forall i :: !IsLastDot(filename, i);
      false
    else
      var k := LastIndexOf(filename, '.');
      assert IsLastDot(filename, k);
      assert forall i :: IsLastDot(filename, i) ==> i == k by {
        forall i | IsLastDot(filename, i) ensures i == k { LastDotUnique(filename, i); }
      }
      Lower(filename[k + 1..]) in AllowedExtensions
  }

  /** Names the allowlist accepts: the extension's case does not matter, nor does what precedes the last dot. */
  lemma AllowedFileAccepts()
    ensures AllowedFile("a.PNG")
    ensures AllowedFile(".png")
    ensures AllowedFile("photo.v2.JpEg")
  {
    assert IsLastDot("a.PNG", 1) && "a.PNG"[2..] == "PNG" && Lower("PNG") == "png";
    assert IsLastDot(".png", 0) && ".png"[1..] == "png" && Lower("png") == "png";
    assert IsLastDot("photo.v2.JpEg", 8) && "photo.v2.JpEg"[9..] == "JpEg" && Lower("JpEg") == "jpeg";
  }

  /** A bare extension, a disallowed last extension, an empty extension and an empty name are rejected. */
  lemma AllowedFileRejects()
    ensures !AllowedFile("png")
    ensures !AllowedFile("a.png.exe")
    ensures !AllowedFile("a.")
    ensures !AllowedFile("")
  {
    assert "png"[0] != '.' && "png"[1] != '.' && "png"[2] != '.';
    assert "a.png.exe"[6..] == "exe" && Lower("exe") == "exe";
    assert forall i :: IsLastDot("a.png.exe", i) ==> i == 5 by {
      forall i | IsLastDot("a.png.exe", i) ensures i == 5 {
        assert IsLastDot("a.png.exe", 5);
        LastDotUnique("a.png.exe", i);
        LastDotUnique("a.png.exe", 5);
      }
    }
    assert forall i :: IsLastDot("a.", i) ==> i == 1 by {
      forall i | IsLastDot("a.", i) ensures i == 1 {
        assert IsLastDot("a.", 1);
        LastDotUnique("a.", i);
        LastDotUnique("a.", 1);
      }
    }
    assert "a."[2..] == "" && Lower("") == "";
  }

  /** An allowed name is never empty, so an empty upload never changes the avatar. */
  lemma AllowedFileNonEmpty(filename: string)
    requires AllowedFile(filename)
    ensures |filename| >= 2
  {
  }

  /** Whether `re.match("https?://.*", website)` succeeds: the text starts with a scheme. */
  predicate HasScheme(website: string)
  {
    "http://" <= website || "https://" <= website
  }

  /** The website normalisation of `update`: prefix "http://" unless a scheme is present. */
  function NormaliseWebsite(website: string): (r: string)
    ensures HasScheme(r)
    ensures r == website <==> HasScheme(website)
    ensures |r| >= |website| && r[|r| - |website|..] == website
    ensures !HasScheme(website) ==> r[..|r| - |website|] == "http://"
  {
    if HasScheme(website) then website else "http://" + website
  }

  /** Normalising an already normalised website changes nothing. */
  lemma NormaliseWebsiteIdempotent(website: string)
    ensures NormaliseWebsite(NormaliseWebsite(website)) == NormaliseWebsite(website)
  {
  }
}
