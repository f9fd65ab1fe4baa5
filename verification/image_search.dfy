/**
  The Commons search client (`free_images::search_images`): the query parameters it
  sends, and the normalisation of the decoded answer into one record per result page.

  The HTTP GET and `unserialize` are the host's `fetch`; the host's icon lookup and
  `strtotime` are `iconUrl` and `epoch`.
 */
module ImageSearch {
  import opened PhpValues
  import opened PhpStrings
  import opened Thumbnails

  const ThumbsPerPage := 24
  const FileNamespace := 6
  const ImageSideLength := 1024
  const ThumbSize := 120
  const IconSize := 24

  const ImageTypes: set<string> := {"image/jpeg", "image/png", "image/gif", "image/svg+xml"}

  type Params = Attrs

  /** The keys of a result record; `Key` gives the array key the host reads. */
  datatype Field =
    | Title | Thumbnail | ThumbnailWidth | ThumbnailHeight | License | Url
    | Source | ImageWidth | ImageHeight | Size | RealThumbnail | RealIcon | Author | DateModified

  function Key(f: Field): string {
    match f
    case Title => "title"
    case Thumbnail => "thumbnail"
    case ThumbnailWidth => "thumbnail_width"
    case ThumbnailHeight => "thumbnail_height"
    case License => "license"
    case Url => "url"
    case Source => "source"
    case ImageWidth => "image_width"
    case ImageHeight => "image_height"
    case Size => "size"
    case RealThumbnail => "realthumbnail"
    case RealIcon => "realicon"
    case Author => "author"
    case DateModified => "datemodified"
  }

  /** One result as the host's file picker receives it: a PHP array whose keys are `Key`s. */
  type Record = map<Field, Value>

  /** One `imageinfo` entry of a result page, as the API returns it when asked for
      url, dimensions, mime, timestamp, size and user with a thumbnail size hint. */
  datatype ImageInfo = ImageInfo(
    url: string, descriptionUrl: string, mime: string,
    width: nat, height: nat, size: nat,
    thumbUrl: string, thumbWidth: nat, thumbHeight: nat,
    user: string, timestamp: string)

  /** One entry of `query.pages`: a file page and its `imageinfo` list, possibly empty. */
  datatype Page = Page(title: string, imageInfo: seq<ImageInfo>)

  /** The decoded answer: undecodable (failed request or `unserialize`), or decoded with
      or without a `query.pages` list, in the order of the decoded `query.pages` array. */
  datatype Response = Undecodable | Decoded(pages: Option<seq<Page>>)

  /** What the host supplies: the transport, its generic file-icon URL for a file name,
      and `strtotime` (`None` where it returns false). */
  datatype Host = Host(fetch: Params -> Response, iconUrl: string -> string, epoch: string -> Option<int>)

  /** The keys the client sets itself: two in its constructor, the rest in `search_images`. */
  const OwnKeys: set<string> := {"format", "redirects", "action", "generator", "gsrsearch",
                                 "gsrnamespace", "gsrlimit", "gsroffset", "prop", "iiprop"}

  function OwnParams(keyword: string, page: int): (p: Params)
    ensures p.Keys == OwnKeys
  {
    map["format" := Str("php"), "redirects" := Bool(true),
        "action" := Str("query"), "generator" := Str("search"), "gsrsearch" := Str(keyword),
        "gsrnamespace" := Int(FileNamespace), "gsrlimit" := Int(ThumbsPerPage),
        "gsroffset" := Int(page * ThumbsPerPage),
        "prop" := Str("imageinfo"), "iiprop" := Str("url|dimensions|mime|timestamp|size|user")]
  }

  /** The parameters `search_images(keyword, page, params)` sends: its own settings,
      then the caller's `params` for keys it has not set, then a 1024 pixel thumbnail
      size hint for whichever of width and height is still missing. */
  function SearchQuery(keyword: string, page: int, params: Params): (q: Params)
    ensures q.Keys == OwnParams(keyword, page).Keys + params.Keys + SizeDefaults().Keys
    ensures forall k :: k in OwnParams(keyword, page) ==> q[k] == OwnParams(keyword, page)[k]
    ensures forall k :: k in params && k !in OwnParams(keyword, page) ==> q[k] == params[k]
    ensures forall k :: k in SizeDefaults() && k !in OwnParams(keyword, page) && k !in params ==> q[k] == Int(ImageSideLength)
  {
    Union(Union(OwnParams(keyword, page), params), SizeDefaults())
  }

  const SizeKeys: set<string> := {"iiurlwidth", "iiurlheight"}

  function SizeDefaults(): (p: Params)
    ensures p.Keys == SizeKeys
    ensures forall k :: k in p ==> p[k] == Int(ImageSideLength)
  {
    map["iiurlwidth" := Int(ImageSideLength), "iiurlheight" := Int(ImageSideLength)]
  }

  /** A search asks for 24 results from the file namespace, starting `page` pages in,
      and the caller can neither change that nor the search text. */
  lemma QueryPaging(keyword: string, page: int, params: Params)
    ensures var q := SearchQuery(keyword, page, params);
            && q["gsrsearch"] == Str(keyword)
            && q["gsrnamespace"] == Int(FileNamespace)
            && q["gsrlimit"] == Int(ThumbsPerPage)
            && q["gsroffset"] == Int(page * ThumbsPerPage)
  {
    var own := OwnParams(keyword, page);
    assert own["gsrsearch"] == Str(keyword);
    assert own["gsrnamespace"] == Int(FileNamespace);
    assert own["gsrlimit"] == Int(ThumbsPerPage);
    assert own["gsroffset"] == Int(page * ThumbsPerPage);
  }

  /** The 1024 pixel size hints apply exactly where the caller gave none. */
  lemma QuerySizeHints(keyword: string, page: int, params: Params)
    ensures var q := SearchQuery(keyword, page, params);
            && q["iiurlwidth"] == (if "iiurlwidth" in params then params["iiurlwidth"] else Int(ImageSideLength))
            && q["iiurlheight"] == (if "iiurlheight" in params then params["iiurlheight"] else Int(ImageSideLength))
  {
    assert "iiurlwidth" !in OwnKeys && "iiurlheight" !in OwnKeys;
  }

  function EpochValue(t: Option<int>): Value {
    match t
    case Some(seconds) => Int(seconds)
    case None => Bool(false)
  }

  /** The fields a record may carry besides the ones every record has. */
  const AttrFields: set<Field> := {Source, ImageWidth, ImageHeight, Size, RealThumbnail, RealIcon, Author, DateModified}

  /** Attributes of an image whose scaled-down copy is narrower than the original: the
      copy is the source, and it doubles as thumbnail and icon when it is small enough. */
  function ScaledAttrs(info: ImageInfo): (r: Record)
    ensures r.Keys <= AttrFields && Source in r
    ensures Size !in r && Author !in r && DateModified !in r
    ensures r[Source] == Str(info.thumbUrl)
    ensures ImageWidth in r && r[ImageWidth] == Int(info.thumbWidth)
    ensures ImageHeight in r && r[ImageHeight] == Int(info.thumbHeight)
    ensures RealThumbnail in r <==> info.thumbWidth <= ThumbSize && info.thumbHeight <= ThumbSize
    ensures RealThumbnail in r ==> r[RealThumbnail] == Str(info.thumbUrl)
    ensures RealIcon in r <==> info.thumbWidth <= IconSize && info.thumbHeight <= IconSize
    ensures RealIcon in r ==> r[RealIcon] == Str(info.thumbUrl)
  {
    var source := Str(info.thumbUrl);
    var scaled := map[Source := source, ImageWidth := Int(info.thumbWidth), ImageHeight := Int(info.thumbHeight)];
    var withThumb :=
      if info.thumbWidth <= ThumbSize && info.thumbHeight <= ThumbSize
      then scaled[RealThumbnail := source] else scaled;
    if info.thumbWidth <= IconSize && info.thumbHeight <= IconSize
    then withThumb[RealIcon := source] else withThumb
  }

  /** Attributes of an image used at its original size, with `source` as its source. */
  function OriginalAttrs(info: ImageInfo, source: string): (r: Record)
    ensures r.Keys == {ImageWidth, ImageHeight, Size, Source}
    ensures r[ImageWidth] == Int(info.width) && r[ImageHeight] == Int(info.height) && r[Size] == Int(info.size)
    ensures r[Source] == Str(source)
  {
    map[ImageWidth := Int(info.width), ImageHeight := Int(info.height), Size := Int(info.size), Source := Str(source)]
  }

  /** The source of an image used at its original size: the upload itself, except that
      an SVG is replaced by a forced PNG rendering requested at its own width (which
      `ThumbUrl` narrows for a portrait original). */
  function OriginalSource(info: ImageInfo, isSvg: bool, gifIcon: string): string {
    if isSvg then ThumbUrl(info.url, info.width, info.height, info.width, true, gifIcon) else info.url
  }

  /** Thumbnail, icon, author and date, added only where the size-dependent part left
      them unset. */
  function ImageDefaults(info: ImageInfo, host: Host): (r: Record)
    ensures r.Keys == {RealThumbnail, RealIcon, Author, DateModified}
    ensures r[RealThumbnail] == Str(ThumbUrl(info.url, info.width, info.height, ThumbSize, false, host.iconUrl(".gif")))
    ensures r[RealIcon] == Str(ThumbUrl(info.url, info.width, info.height, IconSize, false, host.iconUrl(".gif")))
    ensures r[Author] == Str(info.user)
    ensures r[DateModified] == EpochValue(host.epoch(info.timestamp))
  {
    var gifIcon := host.iconUrl(".gif");
    map[RealThumbnail := Str(ThumbUrl(info.url, info.width, info.height, ThumbSize, false, gifIcon)),
        RealIcon := Str(ThumbUrl(info.url, info.width, info.height, IconSize, false, gifIcon)),
        Author := Str(info.user),
        DateModified := EpochValue(host.epoch(info.timestamp))]
  }

  /** The size-dependent attributes of an image: the API's scaled-down copy when it is
      narrower than the original, the original otherwise. */
  function SizedAttrs(info: ImageInfo, isSvg: bool, gifIcon: string): (r: Record)
    ensures r.Keys <= AttrFields && Source in r
    ensures Author !in r && DateModified !in r
    ensures info.width <= info.thumbWidth ==> RealThumbnail !in r && RealIcon !in r
  {
    if info.thumbWidth < info.width then ScaledAttrs(info)
    else OriginalAttrs(info, OriginalSource(info, isSvg, gifIcon))
  }

  /** The attributes of an image: the size-dependent ones, then the defaults. */
  function ImageAttrs(info: ImageInfo, isSvg: bool, host: Host): (r: Record)
    ensures r.Keys <= AttrFields && Source in r
  {
    Union(SizedAttrs(info, isSvg, host.iconUrl(".gif")), ImageDefaults(info, host))
  }

  /** A page is an image when its first `imageinfo` has one of the four image MIME types. */
  predicate IsImage(page: Page) {
    |page.imageInfo| > 0 && page.imageInfo[0].mime in ImageTypes
  }

  /** SVG detection looks at the page title's extension, case-sensitively. */
  predicate IsSvg(page: Page) {
    Extension(page.title) == "svg"
  }

  const CommonKeys: set<Field> := {Title, Thumbnail, ThumbnailWidth, ThumbnailHeight, License, Url}

  /** The fields every record has. */
  function CommonFields(page: Page, host: Host): (r: Record)
    ensures r.Keys == CommonKeys
  {
    var title := if IsImage(page) && IsSvg(page) then page.title + ".png" else page.title;
    var name := SubstrFrom(title, 5);
    map[Title := Str(name), Thumbnail := Str(host.iconUrl(name)),
        ThumbnailWidth := Int(ThumbSize), ThumbnailHeight := Int(ThumbSize),
        License := Str("cc-sa"),
        Url := if |page.imageInfo| > 0 then Str(page.imageInfo[0].descriptionUrl) else Null]
  }

  /** The attributes of a page: an image's, or for any other file only its source URL. */
  function PageAttrs(page: Page, host: Host): (r: Record)
    ensures r.Keys <= AttrFields && Source in r
  {
    if IsImage(page) then ImageAttrs(page.imageInfo[0], IsSvg(page), host)
    else map[Source := if |page.imageInfo| > 0 then Str(page.imageInfo[0].url) else Null]
  }

  /** The record for one result page. */
  function PageRecord(page: Page, host: Host): (r: Record)
    ensures CommonKeys <= r.Keys && Source in r
    ensures r[License] == Str("cc-sa")
    ensures r[ThumbnailWidth] == Int(ThumbSize) && r[ThumbnailHeight] == Int(ThumbSize)
    ensures IsImage(page) && IsSvg(page) ==> r[Title] == Str(SubstrFrom(page.title + ".png", 5))
    ensures !(IsImage(page) && IsSvg(page)) ==> r[Title] == Str(SubstrFrom(page.title, 5))
    ensures r[Thumbnail].Str? && r[Thumbnail].str == host.iconUrl(r[Title].str)
    ensures r[Url] == (if |page.imageInfo| > 0 then Str(page.imageInfo[0].descriptionUrl) else Null)
    ensures r.Keys == CommonKeys + PageAttrs(page, host).Keys
    ensures forall f :: f in PageAttrs(page, host) ==> r[f] == PageAttrs(page, host)[f]
  {
    assert CommonKeys !! AttrFields;
    Union(CommonFields(page, host), PageAttrs(page, host))
  }

  /** A file that is not an image gets only its URL as source, or null when the page
      has no `imageinfo`. */
  lemma NonImageRecord(page: Page, host: Host)
    requires !IsImage(page)
    ensures var r := PageRecord(page, host);
            && r.Keys == CommonKeys + {Source}
            && r[Source] == (if |page.imageInfo| > 0 then Str(page.imageInfo[0].url) else Null)
  {
  }

  /** An image's record is its common fields plus its image attributes. */
  lemma ImageFields(page: Page, host: Host)
    requires IsImage(page)
    ensures var r := PageRecord(page, host);
            var attrs := ImageAttrs(page.imageInfo[0], IsSvg(page), host);
            && r.Keys == CommonKeys + attrs.Keys
            && (forall f :: f in attrs ==> r[f] == attrs[f])
  {
  }

  /** The author and the modification date always come from the `imageinfo`. */
  lemma ImageAuthorAndDate(info: ImageInfo, isSvg: bool, host: Host)
    ensures var r := ImageAttrs(info, isSvg, host);
            && r[Author] == Str(info.user)
            && r[DateModified] == EpochValue(host.epoch(info.timestamp))
  {
    var sized := SizedAttrs(info, isSvg, host.iconUrl(".gif"));
    assert Author !in sized && DateModified !in sized;
  }

  /** When the API's scaled-down copy is narrower than the original, the copy is what
      gets picked: its URL and dimensions, and no byte size. */
  lemma ScaledDownRecord(info: ImageInfo, isSvg: bool, host: Host)
    requires info.thumbWidth < info.width
    ensures ImageAttrs(info, isSvg, host)[Source] == Str(info.thumbUrl)
    ensures ImageAttrs(info, isSvg, host)[ImageWidth] == Int(info.thumbWidth)
    ensures ImageAttrs(info, isSvg, host)[ImageHeight] == Int(info.thumbHeight)
    ensures Size !in ImageAttrs(info, isSvg, host)
  {
    assert SizedAttrs(info, isSvg, host.iconUrl(".gif")) == ScaledAttrs(info);
  }

  /** The scaled-down copy doubles as thumbnail (icon) when it fits in 120 (24) pixels
      each way, and the defaults added afterwards do not replace it; otherwise the
      thumbnail (icon) is `ThumbUrl` of the original at 120 (24) pixels. */
  lemma ScaledDownThumbnails(info: ImageInfo, isSvg: bool, host: Host)
    requires info.thumbWidth < info.width
    ensures ImageAttrs(info, isSvg, host)[RealThumbnail] ==
            (if info.thumbWidth <= ThumbSize && info.thumbHeight <= ThumbSize then Str(info.thumbUrl)
             else Str(ThumbUrl(info.url, info.width, info.height, ThumbSize, false, host.iconUrl(".gif"))))
    ensures ImageAttrs(info, isSvg, host)[RealIcon] ==
            (if info.thumbWidth <= IconSize && info.thumbHeight <= IconSize then Str(info.thumbUrl)
             else Str(ThumbUrl(info.url, info.width, info.height, IconSize, false, host.iconUrl(".gif"))))
  {
    assert SizedAttrs(info, isSvg, host.iconUrl(".gif")) == ScaledAttrs(info);
  }

  /** Otherwise the original is picked: its dimensions and size, and its URL as source
      (for an SVG, a forced PNG rendering requested at the original width). */
  lemma FullSizeRecord(info: ImageInfo, isSvg: bool, host: Host)
    requires info.width <= info.thumbWidth
    ensures ImageAttrs(info, isSvg, host)[ImageWidth] == Int(info.width)
    ensures ImageAttrs(info, isSvg, host)[ImageHeight] == Int(info.height)
    ensures ImageAttrs(info, isSvg, host)[Size] == Int(info.size)
    ensures ImageAttrs(info, isSvg, host)[Source] ==
            Str(if isSvg then ThumbUrl(info.url, info.width, info.height, info.width, true, host.iconUrl(".gif"))
                else info.url)
  {
    assert SizedAttrs(info, isSvg, host.iconUrl(".gif"))
           == OriginalAttrs(info, OriginalSource(info, isSvg, host.iconUrl(".gif")));
  }

  /** A 400x800 SVG used at full size is listed as 400x800, but its source is a PNG
      rendering 200 pixels wide: the forced call keeps the portrait narrowing. */
  lemma PortraitSvgSource(info: ImageInfo, host: Host)
    requires info.url == CommonsRoot + SvgPath && info.width == 400 && info.height == 800
    requires 400 <= info.thumbWidth
    ensures ImageAttrs(info, true, host)[ImageWidth] == Int(400)
    ensures ImageAttrs(info, true, host)[ImageHeight] == Int(800)
    ensures ImageAttrs(info, true, host)[Source] == Str(ThumbPrefix + "a/ab/X.svg/200px-X.svg.png")
  {
    FullSizeRecord(info, true, host);
    SvgPortraitRendering(host.iconUrl(".gif"));
  }

  /** An original used at full size gets as thumbnail and icon `ThumbUrl` of the
      original, unforced, at 120 and 24 pixels. */
  lemma FullSizeThumbnails(info: ImageInfo, isSvg: bool, host: Host)
    requires info.width <= info.thumbWidth
    ensures ImageAttrs(info, isSvg, host)[RealThumbnail] ==
            Str(ThumbUrl(info.url, info.width, info.height, ThumbSize, false, host.iconUrl(".gif")))
    ensures ImageAttrs(info, isSvg, host)[RealIcon] ==
            Str(ThumbUrl(info.url, info.width, info.height, IconSize, false, host.iconUrl(".gif")))
  {
    var sized := SizedAttrs(info, isSvg, host.iconUrl(".gif"));
    assert RealThumbnail !in sized && RealIcon !in sized;
  }

  /** An original no larger than 120 pixels each way is its own thumbnail. */
  lemma SmallOriginalIsItsOwnThumbnail(info: ImageInfo, isSvg: bool, host: Host)
    requires info.width <= info.thumbWidth && info.width <= ThumbSize && info.height <= ThumbSize
    ensures ImageAttrs(info, isSvg, host)[RealThumbnail] == Str(info.url)
  {
    FullSizeThumbnails(info, isSvg, host);
  }

  /** A title ending in ".svg" marks an SVG file, whatever precedes it. */
  lemma SvgTitle(stem: string, imageInfo: seq<ImageInfo>)
    ensures IsSvg(Page(stem + ".svg", imageInfo))
  {
    var title := stem + ".svg";
    assert title == stem + "." + "svg" by {
      assert "." + "svg" == ".svg";
    }
    ExtensionOfName(stem, "svg");
  }

  /** An SVG image is listed under its title with ".png" appended, minus "File:", and
      its generic thumbnail is looked up by that name. */
  lemma SvgListedAsPng(stem: string, info: ImageInfo, host: Host)
    requires info.mime in ImageTypes
    ensures var r := PageRecord(Page(stem + ".svg", [info]), host);
            && r[Title] == Str(SubstrFrom(stem + ".svg" + ".png", 5))
            && r[Thumbnail] == Str(host.iconUrl(SubstrFrom(stem + ".svg" + ".png", 5)))
  {
    var page := Page(stem + ".svg", [info]);
    SvgTitle(stem, [info]);
    assert IsImage(page);
  }

  /** The records of `pages`, appended one page at a time as the source's loop does. */
  function Records(pages: seq<Page>, record: Page -> Record): (files: seq<Record>)
    ensures |files| == |pages|
    ensures forall i :: 0 <= i < |pages| ==> files[i] == record(pages[i])
  {
    if |pages| == 0 then []
    else Records(pages[..|pages| - 1], record) + [record(pages[|pages| - 1])]
  }

  /** The pages of a response; none unless it decoded with a `query.pages` list. */
  function PagesOf(response: Response): seq<Page> {
    if response.Decoded? && response.pages.Some? then response.pages.value else []
  }

  /** The records of a decoded response, in page order. */
  function Normalise(response: Response, host: Host): (files: seq<Record>)
    ensures |files| == |PagesOf(response)|
    ensures forall i :: 0 <= i < |files| ==> files[i] == PageRecord(PagesOf(response)[i], host)
  {
    match response
    case Decoded(Some(pages)) => Records(pages, page => PageRecord(page, host))
    case _ => []
  }

  /** `search_images(keyword, page, params)` on a fresh client: one record per page of
      the answer to the query built from the arguments, in the order of those pages. */
  function SearchImages(keyword: string, page: int, params: Params, host: Host): (files: seq<Record>)
    ensures |files| == |PagesOf(host.fetch(SearchQuery(keyword, page, params)))|
    ensures forall i {:trigger PagesOf(host.fetch(SearchQuery(keyword, page, params)))[i]} :: 0 <= i < |files| ==>
              files[i] == PageRecord(PagesOf(host.fetch(SearchQuery(keyword, page, params)))[i], host)
  {
    Normalise(host.fetch(SearchQuery(keyword, page, params)), host)
  }

  /** A failed request, an undecodable answer, or an answer without pages gives no files. */
  lemma NoPagesNoFiles(response: Response, host: Host)
    requires response.Undecodable? || response.pages.None? || response.pages.value == []
    ensures Normalise(response, host) == []
  {
  }
}
