/**
  The repository plugin itself (`repository_free_images` in lib.php): the remembered
  maximum image size, the paged listing for the file picker, the search keyword kept
  in the session across pages, and the global-search entry point.

  Request parameters, user preferences and the session are passed in and handed back
  explicitly instead of being read from and written to the host's globals.
 */
module Repository {
  import opened PhpValues
  import opened Decimal
  import opened ImageSearch

  /** The request parameters the plugin reads: `free_images_keyword`, `s` and `page` as
      raw strings, `free_images_maxwidth` and `free_images_maxheight` as cleaned integers
      (0 when absent). */
  datatype Request = Request(keyword: string, s: string, page: string, maxWidth: int, maxHeight: int)

  /** The user's stored preferences, by name. */
  type Preferences = map<string, int>

  const MaxWidthPref := "repository_free_images_maxwidth"
  const MaxHeightPref := "repository_free_images_maxheight"

  lemma PrefNamesDiffer()
    ensures MaxWidthPref != MaxHeightPref
  {
    assert MaxWidthPref[26] != MaxHeightPref[26];
  }

  /** `get_user_preferences(name, 1024)`. */
  function StoredSize(prefs: Preferences, name: string): int {
    if name in prefs then prefs[name] else ImageSideLength
  }

  /** A size limit and the preferences after reading it. */
  datatype Sized = Sized(value: int, prefs: Preferences)

  /** `get_maxwidth` / `get_maxheight`: a positive request parameter wins and is
      remembered (written only when it differs from what is stored); otherwise the
      stored preference, 1024 by default, applies. */
  function PreferredSize(prefs: Preferences, name: string, param: int): (s: Sized)
    ensures s.value == (if param > 0 then param else StoredSize(prefs, name))
    ensures StoredSize(s.prefs, name) == s.value
    ensures s.prefs != prefs <==> param > 0 && param != StoredSize(prefs, name)
    ensures forall k :: k != name ==> (k in s.prefs <==> k in prefs)
    ensures forall k :: k != name && k in prefs ==> s.prefs[k] == prefs[k]
  {
    var stored := StoredSize(prefs, name);
    if param > 0 && param != stored then Sized(param, prefs[name := param]) else Sized(stored, prefs)
  }

  /** Once remembered, a size is what later requests without the parameter get, and
      asking for it again changes nothing. */
  lemma PreferenceSticks(prefs: Preferences, name: string, param: int, later: int)
    requires later <= 0 || later == PreferredSize(prefs, name, param).value
    ensures var first := PreferredSize(prefs, name, param);
            PreferredSize(first.prefs, name, later) == first
  {
  }

  function MaxWidth(prefs: Preferences, req: Request): Sized {
    PreferredSize(prefs, MaxWidthPref, req.maxWidth)
  }

  function MaxHeight(prefs: Preferences, req: Request): Sized {
    PreferredSize(prefs, MaxHeightPref, req.maxHeight)
  }

  /** The thumbnail size hint `get_listing` passes to the search. */
  function SizeParams(width: int, height: int): Params {
    map["iiurlwidth" := Int(width), "iiurlheight" := Int(height)]
  }

  /** The listing handed to the file picker. `pages` is -1 for "there may be more",
      the current page when it came back empty past the first, and 0 for no paging. */
  datatype Listing = Listing(page: int, list: seq<Record>, nologin: bool, norefresh: bool,
                             nosearch: bool, pages: int)

  datatype Browse = Browse(listing: Listing, prefs: Preferences)

  /** The preferences after `get_listing` has read the width and then the height limit:
      each size is the positive request parameter, else what was stored before (1024
      by default); nothing else changes, and without either parameter nothing does. */
  function RememberSizes(prefs: Preferences, req: Request): (p: Preferences)
    ensures StoredSize(p, MaxWidthPref) == (if req.maxWidth > 0 then req.maxWidth else StoredSize(prefs, MaxWidthPref))
    ensures StoredSize(p, MaxHeightPref) == (if req.maxHeight > 0 then req.maxHeight else StoredSize(prefs, MaxHeightPref))
    ensures forall k :: k != MaxWidthPref && k != MaxHeightPref ==> (k in p <==> k in prefs)
    ensures forall k :: k != MaxWidthPref && k != MaxHeightPref && k in prefs ==> p[k] == prefs[k]
    ensures req.maxWidth <= 0 && req.maxHeight <= 0 ==> p == prefs
  {
    var width := MaxWidth(prefs, req);
    PrefNamesDiffer();
    MaxHeight(width.prefs, req).prefs
  }

  /** The listing of page `current` (already at least 1) searched with the size limits
      stored in `sizes`: the search starts (current - 1) pages in, and `pages` tells the
      picker whether to offer a next page. */
  function ListingOf(keyword: string, current: int, sizes: Preferences, host: Host): (l: Listing)
    ensures l.page == current
    ensures l.nologin && l.norefresh && l.nosearch
    ensures l.list == SearchImages(keyword, current - 1,
                                   SizeParams(StoredSize(sizes, MaxWidthPref), StoredSize(sizes, MaxHeightPref)), host)
    ensures l.pages == -1 <==> |l.list| > 0
    ensures |l.list| == 0 ==> l.pages == (if current > 1 then current else 0)
  {
    var list := SearchImages(keyword, current - 1,
                             SizeParams(StoredSize(sizes, MaxWidthPref), StoredSize(sizes, MaxHeightPref)), host);
    Listing(current, list, true, true, true, if |list| > 0 then -1 else if current > 1 then current else 0)
  }

  /** `get_listing(path, page)` for the current `keyword`: the size limits are read
      (and remembered) first, then page numbers below 1 mean page 1 and the listing of
      that page is searched with the remembered limits. */
  function GetListing(keyword: string, page: int, req: Request, prefs: Preferences, host: Host): (r: Browse)
    ensures r.prefs == RememberSizes(prefs, req)
    ensures r.listing == ListingOf(keyword, if page < 1 then 1 else page, r.prefs, host)
  {
    var sizes := RememberSizes(prefs, req);
    Browse(ListingOf(keyword, if page < 1 then 1 else page, sizes, host), sizes)
  }

  /** What a listing page holds: page numbers below 1 mean page 1, the search runs
      (page - 1) pages in with the remembered limits, the three flags are set, and
      `pages` is -1 exactly when the page has results. */
  lemma ListingContents(keyword: string, page: int, req: Request, prefs: Preferences, host: Host)
    ensures var r := GetListing(keyword, page, req, prefs, host);
            && r.listing.page == (if page < 1 then 1 else page)
            && r.listing.nologin && r.listing.norefresh && r.listing.nosearch
            && r.listing.list == SearchImages(keyword, r.listing.page - 1,
                                              SizeParams(StoredSize(r.prefs, MaxWidthPref), StoredSize(r.prefs, MaxHeightPref)), host)
            && (r.listing.pages == -1 <==> |r.listing.list| > 0)
            && (|r.listing.list| == 0 ==> r.listing.pages == (if r.listing.page > 1 then r.listing.page else 0))
  {
  }

  /** The picker is never told there is exactly one page: either it may ask for more,
      or there is no paging, or the empty page is the last one. */
  lemma PagesNeverOne(keyword: string, page: int, req: Request, prefs: Preferences, host: Host)
    ensures var l := GetListing(keyword, page, req, prefs, host).listing;
            l.pages == -1 || l.pages == 0 || l.pages >= 2
  {
  }

  /** The query behind a listing page: the results start (page - 1) * 24 in, never
      before the first, and the size hints are the remembered limits. */
  lemma ListingQuery(keyword: string, page: int, req: Request, prefs: Preferences, host: Host)
    ensures var r := GetListing(keyword, page, req, prefs, host);
            var width := StoredSize(r.prefs, MaxWidthPref);
            var height := StoredSize(r.prefs, MaxHeightPref);
            var q := SearchQuery(keyword, r.listing.page - 1, SizeParams(width, height));
            && q["gsroffset"] == Int((r.listing.page - 1) * ThumbsPerPage)
            && q["gsroffset"].num >= 0
            && q["gsrsearch"] == Str(keyword)
            && q["iiurlwidth"] == Int(width)
            && q["iiurlheight"] == Int(height)
  {
    var r := GetListing(keyword, page, req, prefs, host);
    var params := SizeParams(StoredSize(r.prefs, MaxWidthPref), StoredSize(r.prefs, MaxHeightPref));
    QueryPaging(keyword, r.listing.page - 1, params);
    QuerySizeHints(keyword, r.listing.page - 1, params);
  }

  /** The session entry that remembers instance `id`'s last keyword. */
  function SessionKey(id: nat): string {
    "free_images_" + NatToString(id) + "_keyword"
  }

  /** Each repository instance has its own session entry. */
  lemma SessionKeyInjective(a: nat, b: nat)
    requires SessionKey(a) == SessionKey(b)
    ensures a == b
  {
    var prefix := "free_images_";
    var key := SessionKey(a);
    assert key[|prefix|..|key| - 8] == NatToString(a);
    assert key[|prefix|..|key| - 8] == NatToString(b);
    NatToStringInjective(a, b);
  }

  /** The keyword, the session afterwards, and whether the search can proceed. */
  datatype Login = Login(keyword: string, session: map<string, string>, loggedIn: bool)

  /** `check_login` for instance `id`: the keyword comes from `free_images_keyword`,
      else `s`. A new keyword is remembered in the session; a request for another page
      with no keyword takes the remembered one back. Logged in means a keyword PHP
      does not consider empty. */
  function CheckLogin(id: nat, req: Request, session: map<string, string>): (r: Login)
    ensures r.loggedIn <==> Truthy(r.keyword)
    ensures Truthy(req.keyword) ==> r.keyword == req.keyword
    ensures !Truthy(req.keyword) && Truthy(req.s) ==> r.keyword == req.s
    ensures Truthy(req.keyword) || Truthy(req.s) ==>
              SessionKey(id) in r.session && r.session[SessionKey(id)] == r.keyword
    ensures !Truthy(req.keyword) && !Truthy(req.s) && Truthy(req.page) && SessionKey(id) in session ==>
              r.keyword == session[SessionKey(id)]
    ensures !Truthy(req.keyword) && !Truthy(req.s) && !(Truthy(req.page) && SessionKey(id) in session) ==>
              !r.loggedIn
    ensures !Truthy(req.keyword) && !Truthy(req.s) ==> r.session == session
    ensures forall k :: k != SessionKey(id) ==> (k in r.session <==> k in session)
    ensures forall k :: k != SessionKey(id) && k in session ==> r.session[k] == session[k]
  {
    var first := if Truthy(req.keyword) then req.keyword else req.s;
    var key := SessionKey(id);
    if !Truthy(first) && Truthy(req.page) then
      var keyword := if key in session then session[key] else first;
      Login(keyword, session, Truthy(keyword))
    else if Truthy(first) then
      Login(first, session[key := first], true)
    else
      Login(first, session, false)
  }

  /** Searching and then asking for another page without the keyword continues the
      same search. */
  lemma NextPageRestoresKeyword(id: nat, search: Request, next: Request, session: map<string, string>)
    requires Truthy(search.keyword) || Truthy(search.s)
    requires !Truthy(next.keyword) && !Truthy(next.s) && Truthy(next.page)
    ensures var first := CheckLogin(id, search, session);
            var second := CheckLogin(id, next, first.session);
            second.keyword == first.keyword && second.loggedIn && second.session == first.session
  {
  }

  /** Instances do not disturb each other's remembered keyword. */
  lemma OtherInstanceKeywordKept(id: nat, other: nat, req: Request, session: map<string, string>)
    requires id != other && SessionKey(other) in session
    ensures var r := CheckLogin(id, req, session);
            SessionKey(other) in r.session && r.session[SessionKey(other)] == session[SessionKey(other)]
  {
    if SessionKey(other) == SessionKey(id) {
      SessionKeyInjective(other, id);
    }
  }

  /** `search(searchText, page)`: the first page of results at the default size, whatever
      `page` is. */
  function Search(searchText: string, page: int, host: Host): (files: seq<Record>)
    ensures |files| == |PagesOf(host.fetch(SearchQuery(searchText, 0, map[])))|
    ensures forall i {:trigger PagesOf(host.fetch(SearchQuery(searchText, 0, map[])))[i]} :: 0 <= i < |files| ==>
              files[i] == PageRecord(PagesOf(host.fetch(SearchQuery(searchText, 0, map[])))[i], host)
  {
    SearchImages(searchText, 0, map[], host)
  }

  /** Whatever `page` it is given, a global search asks for the first 24 results with
      no parameters of its own, so the size hints are the 1024 pixel defaults. */
  lemma SearchRequestsFirstPage(searchText: string, page: int, host: Host)
    ensures var q := SearchQuery(searchText, 0, map[]);
            && Search(searchText, page, host) == Normalise(host.fetch(q), host)
            && q.Keys == OwnKeys + SizeKeys
            && q["gsroffset"] == Int(0)
            && q["iiurlwidth"] == Int(ImageSideLength) && q["iiurlheight"] == Int(ImageSideLength)
  {
    QueryPaging(searchText, 0, map[]);
    QuerySizeHints(searchText, 0, map[]);
  }

  /** Global search gives what browsing the first page gives a user whose size limits
      are the 1024 pixel defaults. */
  lemma SearchIsFirstListingPage(searchText: string, page: int, listingPage: int, req: Request,
                                 prefs: Preferences, host: Host)
    requires listingPage <= 1
    requires var r := GetListing(searchText, listingPage, req, prefs, host);
             StoredSize(r.prefs, MaxWidthPref) == ImageSideLength && StoredSize(r.prefs, MaxHeightPref) == ImageSideLength
    ensures Search(searchText, page, host) == GetListing(searchText, listingPage, req, prefs, host).listing.list
  {
    var own := OwnParams(searchText, 0);
    assert SizeParams(ImageSideLength, ImageSideLength) == SizeDefaults();
    UnionEmpty(own);
    UnionAbsorbs(own, SizeDefaults());
    assert SearchQuery(searchText, 0, map[]) == SearchQuery(searchText, 0, SizeParams(ImageSideLength, ImageSideLength));
  }
}
