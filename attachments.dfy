/** Classification and renaming of uploaded files (server/routes/messages.ts):
    Node's posix `path.extname`, `isImageFile`, `isHeicFile`, the name multer
    stores an upload under, and the `.heic`/`.heif` to `.jpg` rename applied
    after a successful conversion. */
module Attachments {
  import opened Base

  // ---------------------------------------------------------------------------
  // path.extname (posix)
  // ---------------------------------------------------------------------------

  function LastIndexOf(s: string, c: char): (k: int)
    ensures -1 <= k < |s|
    ensures k >= 0 ==> s[k] == c
    ensures forall j :: k < j < |s| ==> s[j] != c
  {
    if |s| == 0 then -1
    else if s[|s| - 1] == c then |s| - 1
    else LastIndexOf(s[..|s| - 1], c)
  }

  lemma {:induction false} LastIndexOfIs(s: string, c: char, k: int)
    requires -1 <= k < |s| && (k >= 0 ==> s[k] == c)
    requires forall j :: k < j < |s| ==> s[j] != c
    ensures LastIndexOf(s, c) == k
  {
    if |s| > 0 && k < |s| - 1 {
      LastIndexOfIs(s[..|s| - 1], c, k);
    }
  }

  function DropTrailingSlashes(p: string): (q: string)
    ensures |q| <= |p| && q == p[..|q|]
    ensures q == [] || q[|q| - 1] != '/'
  {
    if |p| > 0 && p[|p| - 1] == '/' then DropTrailingSlashes(p[..|p| - 1]) else p
  }

  /** The last path component, trailing separators ignored. */
  function LastPart(p: string): (b: string)
    ensures forall j :: 0 <= j < |b| ==> b[j] != '/'
  {
    var q := DropTrailingSlashes(p);
    q[LastIndexOf(q, '/') + 1..]
  }

  lemma LastPartOfPlainName(p: string)
    requires p != [] && forall j :: 0 <= j < |p| ==> p[j] != '/'
    ensures LastPart(p) == p
  {
    LastIndexOfIs(p, '/', -1);
  }

  /** `path.extname`: from the last '.' of the last component to its end; empty
      when that component has no '.', starts with its only relevant '.'
      (".heic" has no extension), or is "..". */
  function ExtName(p: string): (e: string)
    ensures e == [] || e[0] == '.'
    ensures forall j :: 0 <= j < |e| ==> e[j] != '/' && (j > 0 ==> e[j] != '.')
  {
    var part := LastPart(p);
    var d := LastIndexOf(part, '.');
    if d <= 0 || part == ".." then ""
    else
      part[d..]
  }

  predicate NoSlash(p: string) {
    forall j :: 0 <= j < |p| ==> p[j] != '/'
  }

  /** When `p` is a single component whose last '.' is at `d > 0`, the
      extension is everything from that '.' on. */
  lemma ExtNameAt(p: string, d: int)
    requires NoSlash(p) && 0 < d < |p| && p[d] == '.' && p != ".."
    requires forall j :: d < j < |p| ==> p[j] != '.'
    ensures ExtName(p) == p[d..]
  {
    LastPartOfPlainName(p);
    LastIndexOfIs(p, '.', d);
  }

  /** A dot-file such as ".heic" has no extension at all. */
  lemma ExtNameOfDotFile(p: string)
    requires NoSlash(p) && |p| > 0 && p[0] == '.'
    requires forall j :: 0 < j < |p| ==> p[j] != '.'
    ensures ExtName(p) == ""
  {
    LastPartOfPlainName(p);
    LastIndexOfIs(p, '.', 0);
  }

  // ---------------------------------------------------------------------------
  // isImageFile / isHeicFile (server/routes/messages.ts:45-56)
  // ---------------------------------------------------------------------------

  const ImageMimeTypes: seq<string> :=
    ["image/jpeg", "image/png", "image/gif", "image/webp", "image/heic", "image/heif"]
  const ImageExtensions: seq<string> :=
    [".jpg", ".jpeg", ".png", ".gif", ".webp", ".heic", ".heif"]

  predicate IsImageFile(mimetype: string, filename: string) {
    mimetype in ImageMimeTypes || ToLower(ExtName(filename)) in ImageExtensions
  }

  predicate IsHeicFile(mimetype: string, filename: string) {
    var ext := ToLower(ExtName(filename));
    mimetype == "image/heic" || mimetype == "image/heif" || ext == ".heic" || ext == ".heif"
  }

  /** Every HEIC file is also classified as an image. */
  lemma HeicIsImage(mimetype: string, filename: string)
    ensures IsHeicFile(mimetype, filename) ==> IsImageFile(mimetype, filename)
  {
  }

  /** What the extension alone decides: for a MIME type outside the image list,
      a one-component name whose last '.' is at `d > 0` is an image exactly
      when its lower-cased tail from `d` is one of the seven listed extensions. */
  lemma ImageByExtension(mimetype: string, name: string, d: int)
    requires mimetype !in ImageMimeTypes
    requires NoSlash(name) && 0 < d < |name| && name[d] == '.' && name != ".."
    requires forall j :: d < j < |name| ==> name[j] != '.'
    ensures IsImageFile(mimetype, name) <==> ToLower(name[d..]) in ImageExtensions
  {
    ExtNameAt(name, d);
  }

  /** A dot-file such as ".heic" is an image or HEIC file only through its MIME type. */
  lemma DotFileNeedsMime(mimetype: string, name: string)
    requires NoSlash(name) && |name| > 0 && name[0] == '.'
    requires forall j :: 0 < j < |name| ==> name[j] != '.'
    ensures IsHeicFile(mimetype, name) <==> mimetype == "image/heic" || mimetype == "image/heif"
    ensures IsImageFile(mimetype, name) <==> mimetype in ImageMimeTypes
  {
    ExtNameOfDotFile(name);
    assert ToLower("") == "";
  }

  // ---------------------------------------------------------------------------
  // Stored names and the HEIC rename (server/routes/messages.ts:31-35, 196, 206)
  // ---------------------------------------------------------------------------

  /** multer's stored name: a unique prefix followed by the original extension. */
  function StoredName(uniqueSuffix: string, originalName: string): (n: string)
    ensures StartsWith(n, uniqueSuffix) && EndsWith(n, ExtName(originalName))
    ensures |n| == |uniqueSuffix| + |ExtName(originalName)|
  {
    uniqueSuffix + ExtName(originalName)
  }

  /** `/\.(heic|heif)$/i` matches. */
  predicate HasHeicSuffix(s: string) {
    |s| >= 5 && (ToLower(s[|s| - 5..]) == ".heic" || ToLower(s[|s| - 5..]) == ".heif")
  }

  /** `s.replace(/\.(heic|heif)$/i, '.jpg')`, as written in the upload route. */
  function JpgName(s: string): (r: string)
    ensures HasHeicSuffix(s) ==> EndsWith(r, ".jpg") && r != s && r[..|r| - 4] == s[..|s| - 5]
    ensures !HasHeicSuffix(s) ==> r == s
  {
    if HasHeicSuffix(s) then s[..|s| - 5] + ".jpg" else s
  }

  /** The upload directory after a successful conversion: the JPEG is written
      under the renamed stored name, then the original stored file is unlinked. */
  function FilesAfterConversion(files: set<string>, stored: string, target: string): set<string> {
    (files + {target}) - {stored}
  }

  /** As written, a HEIC upload whose stored name lacks the suffix (a MIME type
      of image/heic on a file named "IMG_0001", or a file named ".heic", whose
      extension is empty) is converted onto its own path and then unlinked:
      the URL the message records names a file that no longer exists.
      multer's unique prefix `Date.now() + '-' + n` always ends in a digit. */
  lemma ConvertedFileLost(uniqueSuffix: string, originalName: string, files: set<string>)
    requires |uniqueSuffix| > 0 && '0' <= uniqueSuffix[|uniqueSuffix| - 1] <= '9'
    requires ExtName(originalName) == ""
    ensures var stored := StoredName(uniqueSuffix, originalName);
            JpgName(stored) == stored &&
            JpgName(stored) !in FilesAfterConversion(files, stored, JpgName(stored))
  {
    var stored := StoredName(uniqueSuffix, originalName);
    assert stored == uniqueSuffix;
    assert !HasHeicSuffix(stored) by {
      if |stored| >= 5 {
        var tail := ToLower(stored[|stored| - 5..]);
        assert tail[4] == LowerChar(stored[|stored| - 1]);
        assert ".heic"[4] == 'c' && ".heif"[4] == 'f';
      }
    }
  }

  /** The evidently intended rename: always a different name ending in ".jpg". */
  function ConvertedName(s: string): (r: string)
    ensures EndsWith(r, ".jpg") && r != s
    ensures HasHeicSuffix(s) ==> r == JpgName(s)
  {
    if HasHeicSuffix(s) then JpgName(s) else s + ".jpg"
  }

  /** With the intended rename the converted file survives the unlink. */
  lemma ConvertedFileKept(files: set<string>, stored: string)
    ensures ConvertedName(stored) in FilesAfterConversion(files, stored, ConvertedName(stored))
  {
  }
}
