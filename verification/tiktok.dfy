/**
 `ExtractorTikTok`: TikTok links carry fewer identifiers in the URL itself, so
 accounts, live rooms and some collections are resolved by fetching the linked
 page and searching its embedded data.
 */
module TikTok {
  import opened Optional
  import opened Regex
  import opened Captures
  import opened Results

  /** `requester.request_url(url, "text")`: the page text, or `None` when the
      request failed. */
  type Fetcher = string -> Option<string>

  /** `html or ""`: a failed request is searched as an empty page. */
  function Page(fetch: Fetcher, url: string): string {
    fetch(url).GetOr("")
  }

  /** `ExtractorTikTok.__get_html_data`: group `index` of the first match of `p`
      in the fetched page, or "" when the page holds no match. */
  function GetHtmlData(find: Finder, fetch: Fetcher, url: string, p: Pattern, index: nat): (r: Option<string>)
    ensures find(p, Page(fetch, url)) == [] ==> r == Some("")
    ensures find(p, Page(fetch, url)) != [] ==> r == Group(find(p, Page(fetch, url))[0], index)
    ensures fetch(url).None? && find(p, "") == [] ==> r == Some("")
  {
    match Search(find, p, Page(fetch, url))
    case None => Some("")
    case Some(m) => Group(m, index)
  }

  /** One page lookup per candidate URL, in order. */
  function Resolve(find: Finder, fetch: Fetcher, urls: seq<string>, p: Pattern): (r: seq<Option<string>>)
    ensures |r| == |urls|
    ensures forall k :: 0 <= k < |urls| ==> r[k] == GetHtmlData(find, fetch, urls[k], p, 1)
  {
    seq(|urls|, k requires 0 <= k < |urls| => GetHtmlData(find, fetch, urls[k], p, 1))
  }

  /** Resolving splits along the candidate list. */
  lemma ResolveAppend(find: Finder, fetch: Fetcher, a: seq<string>, b: seq<string>, p: Pattern)
    ensures Resolve(find, fetch, a + b, p) == Resolve(find, fetch, a, p) + Resolve(find, fetch, b, p)
  {
  }

  /** Some candidate's page yields the non-empty `x`. */
  ghost predicate Yields(find: Finder, fetch: Fetcher, urls: seq<string>, p: Pattern, x: string) {
    x != "" && exists u :: u in urls && GetHtmlData(find, fetch, u, p, 1) == Some(x)
  }

  /** Every candidate's page is looked up in turn and the falsy answers are
      filtered out: the page-data values of the candidates, in candidate order. */
  function Lookup(find: Finder, fetch: Fetcher, urls: seq<string>, p: Pattern): (r: seq<string>)
    ensures |r| <= |urls|
    ensures forall k :: 0 <= k < |r| ==> r[k] != ""
    ensures forall x :: x in r <==> Yields(find, fetch, urls, p, x)
  {
    var answers := Resolve(find, fetch, urls, p);
    assert forall x :: Some(x) in answers <==> exists u :: u in urls && GetHtmlData(find, fetch, u, p, 1) == Some(x) by {
      forall x ensures Some(x) in answers ==> exists u :: u in urls && GetHtmlData(find, fetch, u, p, 1) == Some(x) {
        if Some(x) in answers {
          var k :| 0 <= k < |answers| && answers[k] == Some(x);
          assert urls[k] in urls;
        }
      }
      forall x ensures (exists u :: u in urls && GetHtmlData(find, fetch, u, p, 1) == Some(x)) ==> Some(x) in answers {
        if exists u :: u in urls && GetHtmlData(find, fetch, u, p, 1) == Some(x) {
          var u :| u in urls && GetHtmlData(find, fetch, u, p, 1) == Some(x);
          var k :| 0 <= k < |urls| && urls[k] == u;
          assert answers[k] == Some(x);
        }
      }
    }
    KeepPresent(answers)
  }

  /** A candidate whose lookup is falsy is dropped without disturbing the others. */
  lemma LookupDropsFalsy(find: Finder, fetch: Fetcher, a: seq<string>, u: string, b: seq<string>, p: Pattern)
    requires !Truthy(GetHtmlData(find, fetch, u, p, 1))
    ensures Lookup(find, fetch, a + [u] + b, p) == Lookup(find, fetch, a, p) + Lookup(find, fetch, b, p)
  {
    ResolveAppend(find, fetch, a + [u], b, p);
    ResolveAppend(find, fetch, a, [u], p);
    assert Resolve(find, fetch, [u], p) == [GetHtmlData(find, fetch, u, p, 1)];
    DropsFalsyEntry(Resolve(find, fetch, a, p), GetHtmlData(find, fetch, u, p, 1), Resolve(find, fetch, b, p));
  }

  /** `ExtractorTikTok.__extract_detail` at its default group: the video or photo
      id of every work link. A bare profile link matches the pattern too, but its
      optional id group is absent and it contributes nothing. */
  function Detail(find: Finder, text: string): (r: seq<string>)
    ensures forall k :: 0 <= k < |r| ==> r[k] != ""
    ensures forall x :: x in r <==> Captured(find, TikTokDetailLink, text, 1, x)
  {
    ExtractInfo(find, TikTokDetailLink, text, 1)
  }

  /** Profile links (no id group) among the work links leave the answer unchanged:
      the ids are those of the matches that carry one, in match order. */
  lemma DetailInMatchOrder(find: Finder, text: string) returns (idx: seq<nat>)
    ensures |idx| == |Detail(find, text)|
    ensures forall k :: 0 <= k < |idx| ==>
      (idx[k] < |find(TikTokDetailLink, text)| && Group(find(TikTokDetailLink, text)[idx[k]], 1) == Some(Detail(find, text)[k]))
    ensures forall k, l :: 0 <= k < l < |idx| ==> idx[k] < idx[l]
    ensures forall j :: 0 <= j < |find(TikTokDetailLink, text)| && Truthy(Group(find(TikTokDetailLink, text)[j], 1)) ==> j in idx
  {
    idx := ExtractInfoInMatchOrder(find, TikTokDetailLink, text, 1);
  }

  /** The profile URLs the account pattern finds, in match order. */
  function AccountUrls(find: Finder, text: string): seq<string> {
    ExtractInfo(find, TikTokAccountLink, text, 1)
  }

  /** `ExtractorTikTok.user`: every profile URL's page is fetched and searched
      for `"secUid"`; profiles whose lookup fails or is empty are dropped. */
  function User(find: Finder, fetch: Fetcher, text: string): (r: seq<string>)
    ensures |r| <= |find(TikTokAccountLink, text)|
    ensures forall k :: 0 <= k < |r| ==> r[k] != ""
    ensures forall x :: x in r <==>
      x != "" && exists u :: Captured(find, TikTokAccountLink, text, 1, u) && GetHtmlData(find, fetch, u, SecUidField, 1) == Some(x)
  {
    var urls := AccountUrls(find, text);
    assert forall u :: u in urls <==> Captured(find, TikTokAccountLink, text, 1, u);
    Lookup(find, fetch, urls, SecUidField)
  }

  /** The ids come in profile order: `idx` picks, strictly increasing, the
      profiles whose lookup succeeded, and every successful one is picked. */
  lemma UserInCandidateOrder(find: Finder, fetch: Fetcher, text: string) returns (idx: seq<nat>)
    ensures Selects(Resolve(find, fetch, AccountUrls(find, text), SecUidField), User(find, fetch, text), idx)
  {
    idx := KeepPresentSelects(Resolve(find, fetch, AccountUrls(find, text), SecUidField));
  }

  /** A profile whose page cannot be fetched (and an empty page holds no
      `"secUid"`) is skipped, and the other profiles' ids keep their order. */
  lemma UserSkipsUnreachableProfile(find: Finder, fetch: Fetcher, text: string, a: seq<string>, u: string, b: seq<string>)
    requires AccountUrls(find, text) == a + [u] + b
    requires fetch(u).None? && find(SecUidField, "") == []
    ensures User(find, fetch, text) == Lookup(find, fetch, a, SecUidField) + Lookup(find, fetch, b, SecUidField)
  {
    LookupDropsFalsy(find, fetch, a, u, b, SecUidField);
  }

  /** `[unquote(i) for i in titles]` */
  function DecodeAll(unquote: string -> string, titles: seq<string>): (r: seq<Option<string>>)
    ensures |r| == |titles|
    ensures forall k :: 0 <= k < |titles| ==> r[k] == Some(unquote(titles[k]))
  {
    seq(|titles|, k requires 0 <= k < |titles| => Some(unquote(titles[k])))
  }

  /** `[None for _ in ids]` */
  function NoTitles(n: nat): (r: seq<Option<string>>)
    ensures |r| == n
    ensures forall k :: 0 <= k < n ==> r[k].None?
  {
    seq(n, _ => None)
  }

  /** The collection ids read from the pages of the work links (whole matches). */
  function PageMixIds(find: Finder, fetch: Fetcher, text: string): seq<string> {
    Lookup(find, fetch, ExtractInfo(find, TikTokDetailLink, text, 0), MixIdField)
  }

  /** Some collection link's slug decodes to `t`. */
  ghost predicate SlugTitle(find: Finder, unquote: string -> string, text: string, t: string) {
    exists s :: Captured(find, TikTokMixLink, text, 1, s) && t == unquote(s)
  }

  /** The decoded title slugs of the collection links, one per captured slug. */
  function SlugTitles(find: Finder, unquote: string -> string, text: string): (r: seq<Option<string>>)
    ensures |r| == |ExtractInfo(find, TikTokMixLink, text, 1)|
    ensures forall k :: 0 <= k < |r| ==> r[k] == Some(unquote(ExtractInfo(find, TikTokMixLink, text, 1)[k]))
    ensures forall t :: Some(t) in r <==> SlugTitle(find, unquote, text, t)
  {
    var slugs := ExtractInfo(find, TikTokMixLink, text, 1);
    var titles := DecodeAll(unquote, slugs);
    assert forall t :: Some(t) in titles <==> exists s :: s in slugs && t == unquote(s) by {
      forall t ensures (exists s :: s in slugs && t == unquote(s)) ==> Some(t) in titles {
        if exists s :: s in slugs && t == unquote(s) {
          var s :| s in slugs && t == unquote(s);
          var k :| 0 <= k < |slugs| && slugs[k] == s;
          assert titles[k] == Some(t);
        }
      }
    }
    titles
  }

  /** `ExtractorTikTok.mix`: the flag is always `True`. Ids found on fetched work
      pages come first and carry no title; then every playlist or collection link
      gives its id and its percent-decoded title slug. */
  function Mix(find: Finder, fetch: Fetcher, unquote: string -> string, text: string): (r: TitledMix)
    ensures r.flag
    ensures forall x :: x in r.ids <==>
      Yields(find, fetch, ExtractInfo(find, TikTokDetailLink, text, 0), MixIdField, x) || Captured(find, TikTokMixLink, text, 2, x)
    ensures |r.ids| == |PageMixIds(find, fetch, text)| + |ExtractInfo(find, TikTokMixLink, text, 2)|
    ensures |r.titles| == |PageMixIds(find, fetch, text)| + |ExtractInfo(find, TikTokMixLink, text, 1)|
    ensures forall k :: 0 <= k < |r.titles| ==> (r.titles[k].None? <==> k < |PageMixIds(find, fetch, text)|)
    ensures forall t :: Some(t) in r.titles <==> SlugTitle(find, unquote, text, t)
    ensures r.ids == PageMixIds(find, fetch, text) + ExtractInfo(find, TikTokMixLink, text, 2)
    ensures r.titles == NoTitles(|PageMixIds(find, fetch, text)|) + SlugTitles(find, unquote, text)
  {
    var detail := PageMixIds(find, fetch, text);
    Assemble(detail, ExtractInfo(find, TikTokMixLink, text, 2), SlugTitles(find, unquote, text))
  }

  /** The collection answer: the flag set, the page-found ids before the link ids,
      and an absent title for each page-found id before the link titles. */
  function Assemble(pages: seq<string>, ids: seq<string>, titles: seq<Option<string>>): (r: TitledMix)
    ensures r.flag
    ensures |r.ids| == |pages| + |ids| && |r.titles| == |pages| + |titles|
    ensures forall k :: 0 <= k < |ids| ==> r.ids[|pages| + k] == ids[k]
    ensures forall k :: 0 <= k < |titles| ==> r.titles[|pages| + k] == titles[k]
    ensures r.ids[..|pages|] == pages && r.ids[|pages|..] == ids
    ensures r.titles[..|pages|] == NoTitles(|pages|) && r.titles[|pages|..] == titles
  {
    TitledMix(true, pages + ids, NoTitles(|pages|) + titles)
  }

  /** Position `j` of the collection answer holds match `m`'s id and decoded slug. */
  ghost predicate MixEntry(r: TitledMix, j: nat, m: Match, unquote: string -> string) {
    && j < |r.ids| && j < |r.titles|
    && Some(r.ids[j]) == Group(m, 2)
    && Group(m, 1).Some? && r.titles[j] == Some(unquote(Group(m, 1).value))
  }

  /** When every collection match captures both a slug and an id (as the
      pattern's non-empty groups guarantee), ids and titles line up: the `k`-th
      collection link's id and decoded slug sit at the same position, after the
      untitled ids read from fetched pages. */
  lemma MixAligned(find: Finder, fetch: Fetcher, unquote: string -> string, text: string)
    requires forall m :: m in find(TikTokMixLink, text) ==> Truthy(Group(m, 1)) && Truthy(Group(m, 2))
    ensures |Mix(find, fetch, unquote, text).ids| == |Mix(find, fetch, unquote, text).titles|
    ensures forall k :: 0 <= k < |find(TikTokMixLink, text)| ==>
      MixEntry(Mix(find, fetch, unquote, text), |PageMixIds(find, fetch, text)| + k, find(TikTokMixLink, text)[k], unquote)
  {
    forall k | 0 <= k < |find(TikTokMixLink, text)|
      ensures MixEntry(Mix(find, fetch, unquote, text), |PageMixIds(find, fetch, text)| + k, find(TikTokMixLink, text)[k], unquote)
    {
      MixEntryAt(find, fetch, unquote, text, k);
    }
    ExtractInfoOnePerMatch(find, TikTokMixLink, text, 1);
    ExtractInfoOnePerMatch(find, TikTokMixLink, text, 2);
  }

  lemma MixEntryAt(find: Finder, fetch: Fetcher, unquote: string -> string, text: string, k: nat)
    requires forall m :: m in find(TikTokMixLink, text) ==> Truthy(Group(m, 1)) && Truthy(Group(m, 2))
    requires k < |find(TikTokMixLink, text)|
    ensures MixEntry(Mix(find, fetch, unquote, text), |PageMixIds(find, fetch, text)| + k, find(TikTokMixLink, text)[k], unquote)
  {
    var pages := PageMixIds(find, fetch, text);
    var m := find(TikTokMixLink, text)[k];
    var ids := ExtractInfo(find, TikTokMixLink, text, 2);
    var titles := SlugTitles(find, unquote, text);
    assert k < |ids| && Some(ids[k]) == Group(m, 2) by {
      ExtractInfoOnePerMatch(find, TikTokMixLink, text, 2);
    }
    assert k < |titles| && Group(m, 1).Some? && titles[k] == Some(unquote(Group(m, 1).value)) by {
      ExtractInfoOnePerMatch(find, TikTokMixLink, text, 1);
    }
    assert Mix(find, fetch, unquote, text) == Assemble(pages, ids, titles);
  }

  /** `ExtractorTikTok.live`: the flag is always `True`; every live link's page
      is searched for `"roomId"` and failed lookups are dropped. */
  function Live(find: Finder, fetch: Fetcher, text: string): (r: LiveResult)
    ensures r.Direct()
    ensures forall x :: x in r.ids <==>
      x != "" && exists u :: Captured(find, TikTokLiveLink, text, 0, u) && GetHtmlData(find, fetch, u, RoomIdField, 1) == Some(x)
  {
    var urls := LiveUrls(find, text);
    assert forall u :: u in urls <==> Captured(find, TikTokLiveLink, text, 0, u);
    Rooms(Lookup(find, fetch, urls, RoomIdField))
  }

  /** The live-link URLs the live pattern finds (whole matches), in match order. */
  function LiveUrls(find: Finder, text: string): seq<string> {
    ExtractInfo(find, TikTokLiveLink, text, 0)
  }

  /** The room ids come in link order: `idx` picks, strictly increasing, the live
      links whose lookup succeeded, and every successful one is picked. */
  lemma LiveInCandidateOrder(find: Finder, fetch: Fetcher, text: string) returns (idx: seq<nat>)
    ensures Selects(Resolve(find, fetch, LiveUrls(find, text), RoomIdField), Live(find, fetch, text).ids, idx)
  {
    idx := KeepPresentSelects(Resolve(find, fetch, LiveUrls(find, text), RoomIdField));
  }

  /** `ExtractorTikTok.run`: short links are expanded first (`resolve`), then the
      category picks the extractor; any other category is a `ValueError`. */
  function Run(find: Finder, resolve: string -> string, fetch: Fetcher, unquote: string -> string, text: string, kind: string): (r: RunResult)
    ensures r.ValueError? <==> kind !in Categories
    ensures kind == "detail" ==> r == Ok(IdList(Detail(find, resolve(text))))
    ensures kind == "user" ==> r == Ok(IdList(User(find, fetch, resolve(text))))
    ensures kind == "mix" ==> r == Ok(TitledCollection(Mix(find, fetch, unquote, resolve(text))))
    ensures kind == "live" ==> r == Ok(LiveAnswer(Live(find, fetch, resolve(text))))
  {
    var urls := resolve(text);
    match kind
    case "detail" => Ok(IdList(Detail(find, urls)))
    case "user" => Ok(IdList(User(find, fetch, urls)))
    case "mix" => Ok(TitledCollection(Mix(find, fetch, unquote, urls)))
    case "live" => Ok(LiveAnswer(Live(find, fetch, urls)))
    case _ => ValueError
  }
}
