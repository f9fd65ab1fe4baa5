/**
  Thumbnail URLs on Wikimedia Commons (`free_images::get_thumb_url`).

  An upload lives at `<root><path>/<file>`, and the thumbnail service renders it at
  `<root>thumb/<path>/<file>/<N>px-<file>`, with `.png` appended for vector originals.
  `ThumbUrl` rewrites an upload URL into that form; its inverse `ParseThumb` reads the
  original file and the width back out of such a URL, and the round-trip lemmas connect
  `ThumbUrl` to it.
 */
module Thumbnails {
  import opened PhpValues
  import opened PhpStrings
  import opened Decimal

  const CommonsRoot := "https://upload.wikimedia.org/wikipedia/commons/"
  const ThumbPrefix := CommonsRoot + "thumb/"

  /** Width of the rendered thumbnail: a portrait original (taller than wide) is scaled
      so that its height, not its width, fits `thumbWidth`; `PortraitRounding` states
      how the scaled width is rounded. */
  function ScaledWidth(thumbWidth: nat, origWidth: nat, origHeight: nat): (w: nat)
    ensures origHeight <= origWidth ==> w == thumbWidth
    ensures w <= thumbWidth
  {
    if origHeight > origWidth then
      var x := thumbWidth * origWidth;
      MulMono(thumbWidth, origWidth + 1, origHeight);
      RoundedQuotientBound(x, origHeight, thumbWidth);
      (2 * x + origHeight) / (2 * origHeight)
    else
      thumbWidth
  }

  /** A portrait original's scaled width is the integer nearest to
      thumbWidth * origWidth / origHeight, halves rounded up, as PHP's `round` gives
      for these non-negative operands. */
  lemma PortraitRounding(thumbWidth: nat, origWidth: nat, origHeight: nat)
    requires origHeight > origWidth
    ensures var w := ScaledWidth(thumbWidth, origWidth, origHeight);
            origHeight * (2 * w - 1) <= 2 * thumbWidth * origWidth < origHeight * (2 * w + 1)
  {
    RoundedQuotient(thumbWidth * origWidth, origHeight);
  }

  /** (2x + h) div 2h is the integer nearest to x / h, halves rounded up. */
  lemma RoundedQuotient(x: nat, h: nat)
    requires h > 0
    ensures h * (2 * ((2 * x + h) / (2 * h)) - 1) <= 2 * x < h * (2 * ((2 * x + h) / (2 * h)) + 1)
  {
    var q := (2 * x + h) / (2 * h);
    var rm := (2 * x + h) % (2 * h);
    assert 2 * x + h == 2 * h * q + rm && 0 <= rm < 2 * h;
    assert h * (2 * q - 1) == 2 * h * q - h;
    assert h * (2 * q + 1) == 2 * h * q + h;
  }

  /** Rounding x / h does not exceed t when x is at most t less than t * h. */
  lemma RoundedQuotientBound(x: nat, h: nat, t: nat)
    requires h > 0 && x + t <= t * h
    ensures (2 * x + h) / (2 * h) <= t
  {
    var q := (2 * x + h) / (2 * h);
    RoundedQuotient(x, h);
    assert h * (2 * q - 1) < h * (2 * t + 1);
    MulCancel(h, 2 * q - 1, 2 * t + 1);
  }

  lemma MulCancel(h: nat, a: int, b: int)
    requires h > 0 && h * a < h * b
    ensures a < b
  {
    assert h * b - h * a == h * (b - a);
  }

  lemma MulMono(t: nat, a: nat, b: nat)
    requires a <= b
    ensures t * a <= t * b
  {
    assert t * b - t * a == t * (b - a);
  }

  /** The short-circuit: unless forced, an original that already fits is its own thumbnail. */
  predicate Fits(origWidth: nat, origHeight: nat, thumbWidth: nat, force: bool) {
    !force && origWidth <= thumbWidth && origHeight <= thumbWidth
  }

  /** The upload URL with every occurrence of the Commons root removed. */
  function ShortPath(imageUrl: string): string {
    RemoveAll(imageUrl, CommonsRoot)
  }

  /** The lower-cased extension of the short path, which decides gif and svg handling. */
  function ThumbExtension(imageUrl: string): string {
    Lower(Extension(ShortPath(imageUrl)))
  }

  /** `<root>thumb/<shortPath>/<width>px-<file>`, where `<file>` is the last segment of
      the short path, followed by `.png` when the original is rasterised. */
  function SynthesisedUrl(shortPath: string, width: nat, png: bool): string {
    ThumbPrefix + (shortPath + "/" + WidthSegment(width, LastSegment(shortPath), png))
  }

  /** The final path segment `<width>px-<file>[.png]` of a thumbnail URL. */
  function WidthSegment(width: nat, fileName: string, png: bool): string {
    NatToString(width) + "px-" + fileName + (if png then ".png" else "")
  }

  /** `get_thumb_url(imageUrl, origWidth, origHeight, thumbWidth, force)`; `gifIcon` is the
      host's generic icon URL for ".gif" files. */
  function ThumbUrl(imageUrl: string, origWidth: nat, origHeight: nat, thumbWidth: nat,
                    force: bool, gifIcon: string): (r: string)
    ensures Fits(origWidth, origHeight, thumbWidth, force) ==> r == imageUrl
    ensures !Fits(origWidth, origHeight, thumbWidth, force) && !Truthy(imageUrl) ==> r == ""
    ensures (!Fits(origWidth, origHeight, thumbWidth, force) && Truthy(imageUrl)
             && ThumbExtension(imageUrl) == "gif") ==> r == gifIcon
    ensures (!Fits(origWidth, origHeight, thumbWidth, force) && Truthy(imageUrl)
             && ThumbExtension(imageUrl) != "gif") ==>
      r == SynthesisedUrl(ShortPath(imageUrl), ScaledWidth(thumbWidth, origWidth, origHeight),
                          ThumbExtension(imageUrl) == "svg")
  {
    if Fits(origWidth, origHeight, thumbWidth, force) then imageUrl
    else if !Truthy(imageUrl) then ""
    else
      var extension := ThumbExtension(imageUrl);
      if extension == "gif" then gifIcon
      else SynthesisedUrl(ShortPath(imageUrl), ScaledWidth(thumbWidth, origWidth, origHeight), extension == "svg")
  }

  /** What a Commons thumbnail URL names: the original upload and the rendered width. */
  datatype ThumbRef = ThumbRef(original: string, width: nat)

  /** Reads `<root>thumb/<path>/<N>px-…` back into the original `<root><path>` and `N`;
      `None` for a URL not of that form. */
  function ParseThumb(u: string): (r: Option<ThumbRef>)
    ensures r.Some? ==> StartsWith(u, ThumbPrefix) && StartsWith(r.value.original, CommonsRoot)
  {
    if !StartsWith(u, ThumbPrefix) then None
    else
      var rest := u[|ThumbPrefix|..];
      var slash := LastIndexOf(rest, '/');
      if slash < 0 then None
      else
        match ParseWidth(rest[slash + 1..])
        case None => None
        case Some(width) => Some(ThumbRef(CommonsRoot + rest[..slash], width))
  }

  /** Reads the `N` of a final segment `<N>px-…`. */
  function ParseWidth(segment: string): Option<nat> {
    var digits := DigitPrefix(segment);
    if digits == "" || !StartsWith(segment[|digits|..], "px-") then None
    else Some(DigitsValue(digits))
  }

  lemma NoSlashInDigits(s: string)
    requires AllDigits(s)
    ensures '/' !in s
  {
    forall i | 0 <= i < |s|
      ensures s[i] != '/'
    {
      assert IsDigit(s[i]);
    }
  }

  /** The width segment of a synthesised URL reads back as its width. */
  lemma ParseWidthOf(width: nat, fileName: string, png: bool)
    ensures ParseWidth(WidthSegment(width, fileName, png)) == Some(width)
  {
    var digits := NatToString(width);
    var after := "px-" + fileName + (if png then ".png" else "");
    assert WidthSegment(width, fileName, png) == digits + after;
    DigitPrefixOf(digits, after);
    assert (digits + after)[|digits|..] == after;
    assert after[..3] == "px-";
    DecimalRoundTrip(width);
  }

  lemma NoSlashInSegment(width: nat, fileName: string, png: bool)
    requires '/' !in fileName
    ensures '/' !in WidthSegment(width, fileName, png)
  {
    var digits := NatToString(width);
    NoSlashInDigits(digits);
    var suffix := if png then ".png" else "";
    forall c | c in WidthSegment(width, fileName, png)
      ensures c != '/'
    {
      assert c in digits || c in "px-" || c in fileName || c in suffix;
    }
  }

  /** A synthesised URL parses back into the root-prefixed short path and the width. */
  lemma ParseSynthesised(shortPath: string, width: nat, png: bool)
    ensures ParseThumb(SynthesisedUrl(shortPath, width, png)) == Some(ThumbRef(CommonsRoot + shortPath, width))
  {
    var fileName := LastSegment(shortPath);
    var segment := WidthSegment(width, fileName, png);
    var rest := shortPath + "/" + segment;
    var u := SynthesisedUrl(shortPath, width, png);
    assert u[..|ThumbPrefix|] == ThumbPrefix;
    assert u[|ThumbPrefix|..] == rest;
    NoSlashInSegment(width, fileName, png);
    LastIndexAfter(shortPath, '/', segment);
    assert rest[|shortPath| + 1..] == segment;
    assert rest[..|shortPath|] == shortPath;
    ParseWidthOf(width, fileName, png);
  }

  /** A synthesised thumbnail URL names the short path it was built from and the
      width it was rendered at. */
  lemma ThumbUrlRoundTrip(imageUrl: string, origWidth: nat, origHeight: nat, thumbWidth: nat,
                          force: bool, gifIcon: string)
    requires !Fits(origWidth, origHeight, thumbWidth, force) && Truthy(imageUrl)
    requires ThumbExtension(imageUrl) != "gif"
    ensures ParseThumb(ThumbUrl(imageUrl, origWidth, origHeight, thumbWidth, force, gifIcon))
            == Some(ThumbRef(CommonsRoot + ShortPath(imageUrl), ScaledWidth(thumbWidth, origWidth, origHeight)))
  {
    ParseSynthesised(ShortPath(imageUrl), ScaledWidth(thumbWidth, origWidth, origHeight),
                     ThumbExtension(imageUrl) == "svg");
  }

  /** For an upload under the Commons root, the thumbnail URL points back at exactly
      that upload. */
  lemma ThumbUrlNamesOriginal(path: string, origWidth: nat, origHeight: nat, thumbWidth: nat,
                              force: bool, gifIcon: string)
    requires !Fits(origWidth, origHeight, thumbWidth, force)
    requires !Occurs(CommonsRoot, path)
    requires ThumbExtension(CommonsRoot + path) != "gif"
    ensures ParseThumb(ThumbUrl(CommonsRoot + path, origWidth, origHeight, thumbWidth, force, gifIcon))
            == Some(ThumbRef(CommonsRoot + path, ScaledWidth(thumbWidth, origWidth, origHeight)))
  {
    RemoveLeading(path, CommonsRoot);
    RemoveAbsent(path, CommonsRoot);
    ThumbUrlRoundTrip(CommonsRoot + path, origWidth, origHeight, thumbWidth, force, gifIcon);
  }

  lemma PortraitWidth()
    ensures ScaledWidth(75, 400, 800) == 38
  {
  }

  /** A 400x800 portrait asked for at width 75 is rendered 38 pixels wide. */
  lemma PortraitExample(path: string, gifIcon: string)
    requires !Occurs(CommonsRoot, path)
    requires ThumbExtension(CommonsRoot + path) != "gif"
    ensures ParseThumb(ThumbUrl(CommonsRoot + path, 400, 800, 75, false, gifIcon))
            == Some(ThumbRef(CommonsRoot + path, 38))
  {
    PortraitWidth();
    ThumbUrlNamesOriginal(path, 400, 800, 75, false, gifIcon);
  }

  /** An upload path without a colon cannot contain the Commons root, so `str_replace`
      removes only the leading root. */
  lemma UploadShortPath(path: string)
    requires ':' !in path
    ensures ShortPath(CommonsRoot + path) == path
  {
    assert CommonsRoot[5] == ':';
    AbsentCharMeansNoOccurrence(CommonsRoot, path, 5);
    RemoveLeading(path, CommonsRoot);
    RemoveAbsent(path, CommonsRoot);
  }

  /** The thumbnail of an upload `<root><stem>.<ext>` with a lower-case extension other
      than gif, once past the short-circuit: the synthesised URL for that path, as a PNG
      exactly when the extension is svg. */
  lemma UploadThumbnail(stem: string, ext: string, origWidth: nat, origHeight: nat,
                        thumbWidth: nat, force: bool, gifIcon: string)
    requires ':' !in stem + "." + ext
    requires ext != "" && '.' !in ext && '/' !in ext && ext != "gif"
    requires forall i :: 0 <= i < |ext| ==> !('A' <= ext[i] <= 'Z')
    requires !Fits(origWidth, origHeight, thumbWidth, force)
    ensures ThumbUrl(CommonsRoot + (stem + "." + ext), origWidth, origHeight, thumbWidth, force, gifIcon)
            == SynthesisedUrl(stem + "." + ext, ScaledWidth(thumbWidth, origWidth, origHeight), ext == "svg")
  {
    var path := stem + "." + ext;
    UploadShortPath(path);
    ExtensionOfName(stem, ext);
    LowerUnchanged(ext);
    assert ThumbExtension(CommonsRoot + path) == ext;
    UploadTruthy(path);
  }

  /** An upload URL is never "" or "0": the root alone is longer than that. */
  lemma UploadTruthy(path: string)
    ensures Truthy(CommonsRoot + path)
  {
    assert |CommonsRoot + path| >= |CommonsRoot| > 1;
  }

  /** The sample upload paths of the concrete examples below. */
  const JpegPath := "a/ab/Foo.jpg"
  const SvgPath := "a/ab/X.svg"

  lemma JpegFileName()
    ensures LastSegment(JpegPath) == "Foo.jpg"
  {
    assert "a/ab" + "/" + "Foo.jpg" == JpegPath;
    LastSegmentAfterSlash("a/ab", "Foo.jpg");
  }

  lemma JpegWidthSegment()
    ensures WidthSegment(38, "Foo.jpg", false) == "38px-Foo.jpg"
  {
    assert NatToString(38) == "38";
  }

  /** The thumbnail of a concrete 400x800 JPEG upload at width 75, with no call
      condition left open: the whole URL is spelled out. */
  lemma JpegPortraitThumbnail(gifIcon: string)
    ensures ThumbUrl(CommonsRoot + JpegPath, 400, 800, 75, false, gifIcon)
            == ThumbPrefix + "a/ab/Foo.jpg/38px-Foo.jpg"
  {
    assert "a/ab/Foo" + "." + "jpg" == JpegPath;
    UploadThumbnail("a/ab/Foo", "jpg", 400, 800, 75, false, gifIcon);
    PortraitWidth();
    JpegSynthesised();
  }

  lemma JpegSynthesised()
    ensures SynthesisedUrl(JpegPath, 38, false) == ThumbPrefix + "a/ab/Foo.jpg/38px-Foo.jpg"
  {
    JpegFileName();
    JpegWidthSegment();
    assert JpegPath + "/" + "38px-Foo.jpg" == "a/ab/Foo.jpg/38px-Foo.jpg";
  }

  lemma SvgFileName()
    ensures LastSegment(SvgPath) == "X.svg"
  {
    assert "a/ab" + "/" + "X.svg" == SvgPath;
    LastSegmentAfterSlash("a/ab", "X.svg");
  }

  lemma SvgWidthSegment()
    ensures WidthSegment(200, "X.svg", true) == "200px-X.svg.png"
  {
    assert NatToString(200) == "200";
  }

  /** A portrait original requested at its own width is narrowed to round(w * w / h). */
  lemma PortraitOwnWidth()
    ensures ScaledWidth(400, 400, 800) == 200
  {
  }

  /** A 400x800 SVG rendered "at its original size" (forced, requested at width 400)
      comes out 200 pixels wide. */
  lemma SvgPortraitRendering(gifIcon: string)
    ensures ThumbUrl(CommonsRoot + SvgPath, 400, 800, 400, true, gifIcon)
            == ThumbPrefix + "a/ab/X.svg/200px-X.svg.png"
  {
    assert "a/ab/X" + "." + "svg" == SvgPath;
    UploadThumbnail("a/ab/X", "svg", 400, 800, 400, true, gifIcon);
    PortraitOwnWidth();
    SvgSynthesised();
  }

  lemma SvgSynthesised()
    ensures SynthesisedUrl(SvgPath, 200, true) == ThumbPrefix + "a/ab/X.svg/200px-X.svg.png"
  {
    SvgFileName();
    SvgWidthSegment();
    assert SvgPath + "/" + "200px-X.svg.png" == "a/ab/X.svg/200px-X.svg.png";
  }

  /** GIF uploads are never thumbnailed, whatever their dimensions: past the
      short-circuit the result is the generic icon. */
  lemma GifNeverThumbnailed(imageUrl: string, origWidth: nat, origHeight: nat, thumbWidth: nat,
                            force: bool, gifIcon: string)
    requires Truthy(imageUrl) && ThumbExtension(imageUrl) == "gif"
    requires !Fits(origWidth, origHeight, thumbWidth, force)
    ensures ThumbUrl(imageUrl, origWidth, origHeight, thumbWidth, force, gifIcon) == gifIcon
  {
  }

  lemma SynthesisedSplit(shortPath: string, width: nat, png: bool)
    ensures SynthesisedUrl(shortPath, width, png)
            == (ThumbPrefix + shortPath) + "/" + WidthSegment(width, LastSegment(shortPath), png)
  {
    Regroup(ThumbPrefix, shortPath, "/", WidthSegment(width, LastSegment(shortPath), png));
  }

  lemma Regroup(a: string, b: string, c: string, d: string)
    ensures a + (b + c + d) == a + b + c + d
  {
  }

  /** The shape of a synthesised URL, before any question of when it is produced. */
  lemma SynthesisedUrlShape(shortPath: string, width: nat, png: bool)
    ensures var u := SynthesisedUrl(shortPath, width, png);
            && StartsWith(u, ThumbPrefix + shortPath + "/")
            && LastSegment(u) == WidthSegment(width, LastSegment(shortPath), png)
  {
    var fileName := LastSegment(shortPath);
    var segment := WidthSegment(width, fileName, png);
    var head := ThumbPrefix + shortPath + "/";
    SynthesisedSplit(shortPath, width, png);
    assert (head + segment)[..|head|] == head;
    NoSlashInSegment(width, fileName, png);
    LastSegmentAfterSlash(ThumbPrefix + shortPath, segment);
  }

  /** A synthesised URL starts with `<root>thumb/<short path>/` and its last segment is
      `<N>px-<file>`, with `.png` appended exactly when the original is an SVG. */
  lemma SynthesisedShape(imageUrl: string, origWidth: nat, origHeight: nat, thumbWidth: nat,
                         force: bool, gifIcon: string)
    requires !Fits(origWidth, origHeight, thumbWidth, force) && Truthy(imageUrl)
    requires ThumbExtension(imageUrl) != "gif"
    ensures var r := ThumbUrl(imageUrl, origWidth, origHeight, thumbWidth, force, gifIcon);
            var last := NatToString(ScaledWidth(thumbWidth, origWidth, origHeight)) + "px-"
                        + LastSegment(ShortPath(imageUrl));
            && StartsWith(r, ThumbPrefix + ShortPath(imageUrl) + "/")
            && (ThumbExtension(imageUrl) == "svg" ==> LastSegment(r) == last + ".png")
            && (ThumbExtension(imageUrl) != "svg" ==> LastSegment(r) == last)
  {
    var png := ThumbExtension(imageUrl) == "svg";
    var shortPath := ShortPath(imageUrl);
    var width := ScaledWidth(thumbWidth, origWidth, origHeight);
    var r := ThumbUrl(imageUrl, origWidth, origHeight, thumbWidth, force, gifIcon);
    assert r == SynthesisedUrl(shortPath, width, png);
    SynthesisedUrlShape(shortPath, width, png);
    var last := NatToString(width) + "px-" + LastSegment(shortPath);
    if png {
      assert WidthSegment(width, LastSegment(shortPath), png) == last + ".png";
    } else {
      assert WidthSegment(width, LastSegment(shortPath), png) == last + "";
      assert last + "" == last;
    }
  }

}
