# Free images repository — a Dafny model

This project models the decision logic of the Moodle "free images" repository plugin. The plugin lets a user search Wikimedia Commons from the file picker and pick an image. The model covers two parts:

- the Commons client (`free_images.php`):
  - `get_thumb_url` builds thumbnail URLs;
  - `search_images` builds the API query and turns the decoded answer into one record per file;
  - the plugin's constants (24 results per page, the file namespace 6, the 1024 pixel size hint, the 120 pixel thumbnail).
- the repository adapter (`lib.php`):
  - the remembered maximum width and height (`get_maxwidth`/`get_maxheight`);
  - the paged listing (`get_listing`);
  - the search keyword kept in the session (`check_login`);
  - the global-search entry point (`search`).

Everything is a total, pure function. Request parameters, user preferences and the session are passed in and handed back explicitly. The host's effects are the fields of a `Host` value:

- the HTTP GET together with `unserialize` (`fetch`);
- the file-icon URL lookup (`iconUrl`);
- `strtotime` (`epoch`).

The modules:

- `PhpValues`: PHP scalars, `empty()` on strings (`Truthy`), and array union `+` (`Union`, the left side wins).
- `PhpStrings`: `strtolower`, `substr`, `end(explode('/', …))`, `basename`/`pathinfo` extension, and `str_replace` with an empty replacement.
- `Decimal`: the decimal spelling of a natural number, and reading it back.
- `Thumbnails`: `get_thumb_url`, plus `ParseThumb`, which reads a Commons thumbnail URL back into the upload and width it names. The round-trip lemmas connect `ThumbUrl` to this inverse.
- `ImageSearch`: `search_images`. It covers the query map, the decoded-response datatypes and the record for each page.
- `Repository`: `lib.php`, covering preferences, listing, login and search.

Some behaviours a reader might not expect, modelled as the code does them:

- Caller parameters passed to `search_images` do not override the client's own settings. `$this->_param += $params` keeps the left-hand values.
- A result page without `imageinfo` is not skipped. It still yields a record, and its `url` (and, for a non-image, `source`) is null.
- `search_images` detects SVG titles case-sensitively (no `strtolower`), while `get_thumb_url` lower-cases the extension. So a `File:X.SVG` is not renamed to `.png`, and at full size its source is the SVG file itself. Thumbnails that `get_thumb_url` synthesises for it still end in `.png`.
- An SVG used at full size gets as source a forced PNG rendering requested at its original width. For a portrait original, `get_thumb_url` narrows that width to round(w²/h), so a 400×800 SVG is rendered 200 pixels wide (`ImageSearch.PortraitSvgSource`) while the record still gives its dimensions as 400×800.
- `search` ignores its `$page` argument and always returns the first page.

## Model

| member | source | states |
|---|---|---|
| Thumbnails.ScaledWidth | free_images.php:139-142 | An original that is not portrait keeps the requested width, and a scaled width never exceeds the requested one. |
| Thumbnails.PortraitRounding | free_images.php:140-142 | A portrait original gets the width nearest to thumbwidth·width/height, halves rounded up. |
| Thumbnails.ThumbUrl | free_images.php:124-150 | The four outcomes of `get_thumb_url`, each with its condition: the URL unchanged when not forced and both sides fit; "" for an empty or "0" URL; the generic GIF icon for a gif; otherwise `<root>thumb/<short path>/<N>px-<file>` with `.png` for an svg, where N is the scaled width. |
| Thumbnails.ThumbUrlRoundTrip | free_images.php:131-146 | A synthesised thumbnail URL parses back to the Commons root plus the short path it was built from, and to the scaled width it was rendered at. |
| Thumbnails.ThumbUrlNamesOriginal | free_images.php:131-146 | For an upload under the Commons root, the thumbnail URL names exactly that upload and the scaled width. |
| Thumbnails.UploadThumbnail | free_images.php:131-146 | For any upload `<root><stem>.<ext>` with a lower-case, non-gif extension, past the short-circuit the thumbnail is the synthesised URL for that path at the scaled width, as a PNG exactly when the extension is svg. |
| Thumbnails.SvgPortraitRendering | free_images.php:140-146 | A 400×800 SVG requested, forced, at its own width 400 is rendered 200 pixels wide: `<root>thumb/a/ab/X.svg/200px-X.svg.png`. |
| Thumbnails.PortraitExample | free_images.php:140-142 | A 400×800 original asked for at width 75 is rendered 38 pixels wide. |
| Thumbnails.JpegPortraitThumbnail | free_images.php:127-146 | The concrete upload `<root>a/ab/Foo.jpg`, 400×800, asked for at width 75 gets the thumbnail `<root>thumb/a/ab/Foo.jpg/38px-Foo.jpg`. |
| Thumbnails.GifNeverThumbnailed | free_images.php:133-137 | Past the short-circuit, a gif (by lower-cased extension) yields the generic icon whatever its dimensions and whether or not it is forced. |
| Thumbnails.SynthesisedUrlShape | free_images.php:138-146 | A thumbnail URL built from a short path starts with `<root>thumb/<short path>/`, and its last segment is the width segment for the path's file name. |
| Thumbnails.SynthesisedShape | free_images.php:138-146 | A synthesised URL starts with `<root>thumb/<short path>/`. Its last segment is `<N>px-<file>`, with `.png` appended exactly when the lower-cased extension is svg. |
| PhpStrings.RemoveAll | free_images.php:133 | `str_replace` with an empty replacement never lengthens its subject and adds no character the subject lacks. An empty needle leaves the subject as it is. |
| PhpStrings.Lower | free_images.php:134 | `strtolower` keeps the length and lower-cases each ASCII letter in place. |
| PhpStrings.Extension | free_images.php:134 | The extension holds no dot or slash. A non-empty one ends the base name, preceded by a dot. |
| PhpStrings.LastSegment | free_images.php:138-139 | `end(explode('/', s))` holds no slash and ends `s`. Unless it is all of `s`, a slash precedes it. |
| PhpStrings.SubstrFrom | free_images.php:243 | `substr(s, n)` is "" once `n` reaches the end, and otherwise the rest of `s` after its first `n` characters. |
| PhpValues.Union | free_images.php:171-173 | PHP array `+`: the keys of both sides, with every left-hand value kept and the right side only filling missing keys. |
| PhpStrings.LastSegmentAfterSlash | free_images.php:138-139 | The file name taken from `a/b` is `b` whenever `b` holds no slash. |
| PhpStrings.ExtensionOfName | free_images.php:134 | A name ending in `.ext` has extension `ext` when `ext` holds no dot or slash. |
| PhpStrings.RemoveAbsent | free_images.php:133 | Removing the Commons root from a URL that does not contain it leaves the URL unchanged. |
| Decimal.DecimalRoundTrip | free_images.php:143 | The decimal width written into a thumbnail URL reads back as the same number. |
| ImageSearch.SearchQuery | free_images.php:163-173 | The query's keys are the client's own ten settings (two from the constructor at lines 53-54), the caller's keys and the two size hints. Own settings keep their values, caller keys only add missing ones, and the 1024 hints fill only what is still missing. |
| ImageSearch.QueryPaging | free_images.php:165-168 | The query searches for the keyword in namespace 6 and asks for 24 results starting at page·24, whatever the caller passes. |
| ImageSearch.QuerySizeHints | free_images.php:171-173 | `iiurlwidth` and `iiurlheight` are the caller's when given, otherwise 1024. |
| ImageSearch.PageRecord | free_images.php:242-250 | Every record has license cc-sa and a 120×120 thumbnail size. Its title is the page title minus its first five characters, with `.png` appended first for an svg image. Its thumbnail is the host icon for that title, and its url is the description URL. |
| ImageSearch.ImageFields | free_images.php:191-250 | An image's record is the common fields plus the image attributes, and nothing else. |
| ImageSearch.ScaledDownRecord | free_images.php:192-198 | When the scaled copy is narrower than the original, source and dimensions come from the copy and there is no size. |
| ImageSearch.ScaledDownThumbnails | free_images.php:199-235 | In that case thumbnail and icon are the copy when it fits in 120 or 24 pixels each way, and the defaults added later do not overwrite them. Otherwise they are `get_thumb_url` of the original at 120 and 24 pixels. |
| ImageSearch.FullSizeRecord | free_images.php:206-222 | Otherwise the original's dimensions and size are used. The source is the original URL, or for an svg `get_thumb_url` forced and requested at the original width, which a portrait original narrows to round(w²/h). |
| ImageSearch.PortraitSvgSource | free_images.php:206-222 | A 400×800 SVG used at full size is listed as 400×800, but its source is the 200 pixel wide PNG rendering. |
| ImageSearch.FullSizeThumbnails | free_images.php:224-235 | An original used at full size gets as thumbnail and icon `get_thumb_url` of the original, unforced, at 120 and 24 pixels. |
| ImageSearch.SmallOriginalIsItsOwnThumbnail | free_images.php:224-230 | An original used at full size that fits in 120×120 is its own thumbnail. |
| ImageSearch.ImageAuthorAndDate | free_images.php:236-237 | An image's author is the uploader, and its date is `strtotime` of the timestamp (false when that fails). |
| ImageSearch.NonImageRecord | free_images.php:239-241 | A file whose MIME type is not one of the four image types gets only its URL as source, or null without `imageinfo`. |
| ImageSearch.SvgTitle | free_images.php:183-184 | A title ending in `.svg` is recognised as SVG. |
| ImageSearch.SvgListedAsPng | free_images.php:183-189 | An SVG image `X.svg` is listed as `X.svg.png` minus the `File:` prefix, and its icon is looked up by that name. |
| ImageSearch.Records | free_images.php:178-251 | One record per page, in page order. |
| ImageSearch.Normalise | free_images.php:177-253 | The records of a response are exactly one per page of `query.pages`, each the page's record. A response without pages gives none. |
| ImageSearch.SearchImages | free_images.php:160-254 | `search_images` returns one record per page of the answer to its own query, each that page's record, in the pages' order. |
| ImageSearch.NoPagesNoFiles | free_images.php:177 | A failed request, an undecodable answer, or a missing or empty `query.pages` gives an empty list. |
| Repository.PreferredSize | lib.php:53-60 | `get_maxwidth`, and `get_maxheight` at lines 71-78 alike: a positive parameter is returned and stored exactly when it differs from the stored value. Otherwise the stored value (default 1024) is returned and nothing is written. No other preference changes. |
| Repository.PreferenceSticks | lib.php:53-60 | After a size is remembered, a later request without the parameter, or with the same value, gets it back and writes nothing. |
| Repository.RememberSizes | lib.php:92-94 | Reading the width and then the height limit stores each positive request parameter. Otherwise the earlier value (1024 by default) stays. No other preference changes, and with neither parameter set nothing is written. |
| Repository.ListingOf | lib.php:92-104 | A page's listing searches (page−1) pages in with the stored limits as size hints and sets the three flags. `pages` is −1 exactly when the list is non-empty; for an empty list it is the page itself past the first, or 0. |
| Repository.GetListing | lib.php:85-106 | `get_listing` remembers the size limits and lists page max(page, 1) with them. |
| Repository.ListingContents | lib.php:85-106 | The listing's page is clamped to at least 1. Its list is the search at page−1 with the remembered width and height, its three flags are true, and `pages` is −1 exactly when the list is non-empty; for an empty list it is the page past the first, or 0. |
| Repository.PagesNeverOne | lib.php:98-104 | `pages` is −1, 0 or at least 2. |
| Repository.ListingQuery | lib.php:88-94 | The listing's query starts (page−1)·24 results in, never below 0, searches for the keyword, and carries the remembered size limits as hints. |
| Repository.SessionKeyInjective | lib.php:117 | Different instances have different session keys. |
| Repository.CheckLogin | lib.php:111-128 | The keyword comes from `free_images_keyword`, else `s`. A non-empty one is stored under the instance's session key. Without one, a page request restores the stored keyword. Login succeeds exactly when the final keyword is non-empty, and no other session entry changes. |
| Repository.NextPageRestoresKeyword | lib.php:118-126 | Searching and then requesting another page without a keyword continues with the same keyword, logged in, with the session unchanged. |
| Repository.OtherInstanceKeywordKept | lib.php:117-126 | A login on one instance leaves another instance's remembered keyword as it was. |
| Repository.Search | lib.php:188-192 | Global search lists one record per page of the answer to the query for offset 0 with no extra parameters, whatever `page` is. |
| Repository.SearchRequestsFirstPage | lib.php:188-192 | Global search, whatever its page argument, queries offset 0 with no extra parameters and hence the 1024 size hints. |
| Repository.SearchIsFirstListingPage | lib.php:188-192 | Global search returns the same list as the first listing page gives a user whose size limits are the 1024 defaults. |

## Left out

- The curl transport, `unserialize` and the client's `login`, `logout`, `get_image_url` and `get_images_by_page`. These are network I/O and an opaque wire format; the decoded answer is the `Response` datatype given by the host's `fetch`.
- `$OUTPUT->image_url(file_extension_icon(…))` and `strtotime`. These are host and library calls, modelled as the uninterpreted `iconUrl` and `epoch`.
- `print_login`, `global_search`, `contains_private_data`, `get_file_source_info` and the language strings. They are form rendering and constant answers with no logic.
- The accumulation of `_param` across calls on one client. Every caller builds a fresh client, so each query starts from the constructor's two settings.
- The order of keys in PHP arrays. Query maps and records are unordered maps.
- Thumbnails.PortraitRounding: does not model PHP's floating-point `round`. It states the exactly rounded quotient, computed as (2·t·w + h) div (2·h). This matches `round` on these non-negative operands except where float precision would bite.
- Thumbnails.ScaledWidth: computes that same exact quotient instead of the float computation, for the same reason.
- Thumbnails.ThumbUrl: dimensions are naturals and `$thumbwidth` has no default of 75; callers always pass it explicitly.
- Repository.Search: returns the bare list of records; the `['list' => …]` array that wraps it is not modelled.
- Repository.GetListing: takes the page number as an integer. The `(int)` cast of the raw page string is not modelled.
- Repository.PreferredSize: takes the size parameter as an already cleaned integer. `PARAM_INT` cleaning is not modelled.
- ImageSearch.PageRecord: `imageinfo` entries are assumed to carry every field requested (url, dimensions, mime, size, user, timestamp, thumbnail). The model does not cover an entry missing some of them.
