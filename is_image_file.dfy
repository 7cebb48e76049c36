/** `isImageFile(src)`: whether a URL or file name looks like an image. */
module ImageFile {
  import opened Strings

  const ImageExtensions: seq<string> := ["jpg", "jpeg", "png", "gif", "bmp", "svg", "webp"]

  /** The alternatives of the pattern `image\/(jpeg|png|gif|bmp|svg\+xml|webp)`. */
  const MimeSubtypes: seq<string> := ["jpeg", "png", "gif", "bmp", "svg+xml", "webp"]

  /** `src.split('.').pop()?.toLowerCase()`. */
  function Extension(src: string): string {
    Lower(AfterLast(src, '.'))
  }

  /** `mimeTypeRegex.test(src)`: the pattern matches somewhere in `src`. */
  predicate MatchesMimePattern(src: string) {
    exists i :: 0 <= i < |MimeSubtypes| && Contains(src, "image/" + MimeSubtypes[i])
  }

  /** The three tests in the order the source makes them. */
  function IsImageFile(src: string): (r: bool)
    ensures r <==> Extension(src) in ImageExtensions || Contains(src, "image/")
  {
    var ext := Extension(src);
    if ext != "" && ext in ImageExtensions then true
    else if MatchesMimePattern(src) then (MimePatternImpliesImage(src); true)
    else if Contains(src, "image/") then true
    else false
  }

  /** The pattern test adds nothing: every match of it contains `image/`. */
  lemma MimePatternImpliesImage(src: string)
    requires MatchesMimePattern(src)
    ensures Contains(src, "image/")
  {
    var i :| 0 <= i < |MimeSubtypes| && Contains(src, "image/" + MimeSubtypes[i]);
    ContainsPrefix(src, "image/", MimeSubtypes[i]);
  }

  /** A string without a dot is compared whole, after lowercasing. */
  lemma UpperCaseBareExtension()
    ensures IsImageFile("PNG")
  {
    assert AfterLast("PNG", '.') == "PNG";
    assert Lower("PNG") == "png";
  }

  /** The image extensions are made of lower-case ASCII letters. */
  lemma ExtensionsAreLetters(e: string, j: nat)
    requires e in ImageExtensions && j < |e|
    ensures 'a' <= e[j] <= 'z'
  {
  }

  /** A query string after the extension hides it: `a.jpg?w=1` is not an image unless it
      also contains `image/`. */
  lemma QueryStringDefeatsExtension(src: string, k: nat)
    requires k < |AfterLast(src, '.')| && AfterLast(src, '.')[k] == '?'
    requires !Contains(src, "image/")
    ensures !IsImageFile(src)
  {
    var ext := Extension(src);
    assert ext[k] == '?';
    if ext in ImageExtensions {
      ExtensionsAreLetters(ext, k);
    }
  }

  /** A name made only of characters past `z` (no dot, no ASCII letter) is not an image. */
  lemma {:induction false} BeyondAsciiIsNotImage(name: string)
    requires forall k :: 0 <= k < |name| ==> name[k] > 'z'
    ensures !IsImageFile(name)
  {
    assert '.' !in name;
    var ext := Extension(name);
    assert ext == name;
    if ext in ImageExtensions {
      ExtensionsAreLetters(ext, 0);
    }
    AbsentCharNotContained(name, "image/", 0);
  }

  lemma EmptyIsNotImage()
    ensures !IsImageFile("")
  {
    assert Split("", '.') == [""];
  }
}
