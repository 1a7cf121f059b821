/**
 The regular-expression layer, kept abstract. The extractor only ever asks a
 compiled pattern for `finditer(text)` (all non-overlapping matches, left to
 right) or `search(text)` (the first of them) and then reads one group of each
 match. The matching engine itself is an oracle: a `Finder` maps a pattern of
 the table and a text to the matches Python's `re` would report.
 */
module Regex {
  import opened Optional

  /** One `re.Match`: group 0 is always a string (possibly empty); a numbered
      group is absent (`None`) when it did not take part in the match. */
  datatype Match = Match(whole: string, groups: seq<Option<string>>)

  /** `m.group(index)`. An index beyond the pattern's groups reads as absent;
      every call site in the extractor uses an index its pattern defines. */
  function Group(m: Match, index: nat): Option<string>
  {
    if index == 0 then Some(m.whole)
    else if index <= |m.groups| then m.groups[index - 1]
    else None
  }

  /** The compiled patterns of both extractor classes. The `TikTok…` members are
      the class attributes `ExtractorTikTok` overrides; the `…Field` members are
      the page-data patterns searched in fetched HTML. */
  datatype Pattern =
    | AccountLink      // www.douyin.com/user/<handle>[...modal_id=<19 digits>]: groups 1 (handle), 2 (modal id)
    | AccountShare     // www.iesdouyin.com/share/user/<handle>?: group 1
    | DetailLink       // www.douyin.com/(video|note|slides)/<19 digits>: group 1
    | DetailShare      // www.iesdouyin.com/share/(video|note|slides)/<19 digits>/: group 1
    | DetailSearch     // www.douyin.com/search/...modal_id=<19 digits>: group 1
    | DetailDiscover   // www.douyin.com/discover...modal_id=<19 digits>: group 1
    | ChannelLink      // www.douyin.com/channel/<n>?modal_id=<19 digits>: group 1
    | MixLink          // www.douyin.com/collection/<19 digits>: group 1
    | MixShare         // www.iesdouyin.com/share/mix/detail/<19 digits>/: group 1
    | LiveLink         // live.douyin.com/<digits>: group 1
    | LiveLinkSelf     // www.douyin.com/follow?webRid=<digits>: group 1
    | LiveLinkShare    // webcast.amemv.com/douyin/webcast/reflow/<non-space>+: no group
    | TikTokAccountLink  // (www.tiktok.com/@<handle>): group 1 is the whole URL
    | TikTokDetailLink   // www.tiktok.com/@<handle>[/(video|photo)/<19 digits>]: optional group 1
    | TikTokMixLink      // www.tiktok.com/@.../(playlist|collection)/<slug>-<19 digits>: groups 1 (slug), 2 (id)
    | TikTokLiveLink     // www.tiktok.com/@<handle>/live: no group
    | SecUidField        // "secUid":"<id>" in page data: group 1
    | RoomIdField        // "roomId":"<digits>" in page data: group 1
    | MixIdField         // "canonical":"...<19 digits>" in page data: group 1

  /** `pattern.finditer(text)`, as the oracle answers it. */
  type Finder = (Pattern, string) -> seq<Match>

  /** `pattern.search(text)`: the leftmost match, which is the first one `finditer` yields. */
  function Search(find: Finder, p: Pattern, text: string): (r: Option<Match>)
    ensures r.None? <==> find(p, text) == []
    ensures r.Some? ==> r.value in find(p, text) && r.value == find(p, text)[0]
  {
    if find(p, text) == [] then None else Some(find(p, text)[0])
  }
}
