/**
 `Extractor`: pattern-only extraction of Douyin identifiers from text whose
 short links have already been expanded.
 */
module Douyin {
  import opened Optional
  import opened Regex
  import opened Strings
  import opened Captures
  import opened Url
  import opened Results

  /** The work-link shapes in precedence order, each with its identifier group. */
  const DetailShapes: seq<Shape> := [
    Shape(DetailLink, 1), Shape(DetailShare, 1), Shape(AccountLink, 2),
    Shape(DetailSearch, 1), Shape(DetailDiscover, 1), Shape(ChannelLink, 1)]

  /** The account-link shapes in precedence order. */
  const UserShapes: seq<Shape> := [Shape(AccountLink, 1), Shape(AccountShare, 1)]

  /** The collection-link shapes in precedence order. */
  const MixShapes: seq<Shape> := [Shape(MixLink, 1), Shape(MixShare, 1)]

  /** The direct live-link shapes in precedence order. */
  const LiveShapes: seq<Shape> := [Shape(LiveLink, 1), Shape(LiveLinkSelf, 1)]

  /** Some shape of `shapes` captures `x` in `text`. */
  ghost predicate AnyCaptures(find: Finder, shapes: seq<Shape>, text: string, x: string) {
    exists s :: s in shapes && ShapeCaptures(find, s, text, x)
  }

  /** `Extractor.__extract_detail`, which `detail` returns unchanged: the work
      identifiers of every detail shape, shape by shape. */
  function Detail(find: Finder, text: string): (r: seq<string>)
    ensures forall k :: 0 <= k < |r| ==> r[k] != ""
    ensures forall x :: x in r <==> AnyCaptures(find, DetailShapes, text, x)
    ensures r == ExtractShapes(find, DetailShapes, text)
  {
    var link := ExtractInfo(find, DetailLink, text, 1);
    var share := ExtractInfo(find, DetailShare, text, 1);
    var account := ExtractInfo(find, AccountLink, text, 2);
    var search := ExtractInfo(find, DetailSearch, text, 1);
    var discover := ExtractInfo(find, DetailDiscover, text, 1);
    var channel := ExtractInfo(find, ChannelLink, text, 1);
    DetailFollowsTable(find, text);
    link + share + account + search + discover + channel
  }

  /** The six concatenated lists are the precedence table read in order. */
  lemma DetailFollowsTable(find: Finder, text: string)
    ensures ExtractInfo(find, DetailLink, text, 1) + ExtractInfo(find, DetailShare, text, 1)
      + ExtractInfo(find, AccountLink, text, 2) + ExtractInfo(find, DetailSearch, text, 1)
      + ExtractInfo(find, DetailDiscover, text, 1) + ExtractInfo(find, ChannelLink, text, 1)
      == ExtractShapes(find, DetailShapes, text)
  {
    var a, b, c := [DetailShapes[0]], [DetailShapes[1]], [DetailShapes[2]];
    var d, e, f := [DetailShapes[3]], [DetailShapes[4]], [DetailShapes[5]];
    assert DetailShapes == a + b + c + d + e + f;
    ExtractShapesAppend(find, a + b + c + d + e, f, text);
    ExtractShapesAppend(find, a + b + c + d, e, text);
    ExtractShapesAppend(find, a + b + c, d, text);
    ExtractShapesAppend(find, a + b, c, text);
    ExtractShapesAppend(find, a, b, text);
    ExtractShapesSingle(find, DetailShapes[0], text);
    ExtractShapesSingle(find, DetailShapes[1], text);
    ExtractShapesSingle(find, DetailShapes[2], text);
    ExtractShapesSingle(find, DetailShapes[3], text);
    ExtractShapesSingle(find, DetailShapes[4], text);
    ExtractShapesSingle(find, DetailShapes[5], text);
  }

  /** No deduplication, direct links first: an identifier that both a direct work
      link and a share link carry is reported twice, and its first occurrence
      lies within the direct-link block at the front. */
  lemma DetailKeepsDuplicates(find: Finder, text: string, x: string)
    requires Captured(find, DetailLink, text, 1, x) && Captured(find, DetailShare, text, 1, x)
    ensures multiset(Detail(find, text))[x] >= 2
    ensures exists k :: 0 <= k < |ExtractInfo(find, DetailLink, text, 1)| && Detail(find, text)[k] == x
  {
    var link := ExtractInfo(find, DetailLink, text, 1);
    var share := ExtractInfo(find, DetailShare, text, 1);
    var account := ExtractInfo(find, AccountLink, text, 2);
    var search := ExtractInfo(find, DetailSearch, text, 1);
    var discover := ExtractInfo(find, DetailDiscover, text, 1);
    var channel := ExtractInfo(find, ChannelLink, text, 1);
    var s2 := link + share;
    var s3 := s2 + account;
    var s4 := s3 + search;
    var s5 := s4 + discover;
    var r := s5 + channel;
    assert r == Detail(find, text);
    assert x in link && x in share;
    assert multiset(s2)[x] >= 2 by {
      assert multiset(s2) == multiset(link) + multiset(share);
    }
    assert multiset(r)[x] >= 2 by {
      assert multiset(s3) == multiset(s2) + multiset(account);
      assert multiset(s4) == multiset(s3) + multiset(search);
      assert multiset(s5) == multiset(s4) + multiset(discover);
      assert multiset(r) == multiset(s5) + multiset(channel);
    }
    var k :| 0 <= k < |link| && link[k] == x;
    assert r[k] == s5[k] == s4[k] == s3[k] == s2[k] == link[k];
  }

  /** `Extractor.user`: account handles from profile links, then from profile share links. */
  function User(find: Finder, text: string): (r: seq<string>)
    ensures forall k :: 0 <= k < |r| ==> r[k] != ""
    ensures forall x :: x in r <==> AnyCaptures(find, UserShapes, text, x)
    ensures r == ExtractShapes(find, UserShapes, text)
  {
    var link := ExtractInfo(find, AccountLink, text, 1);
    var share := ExtractInfo(find, AccountShare, text, 1);
    UserFollowsTable(find, text);
    link + share
  }

  /** The profile-link handles come first, as one block, then the share-link handles. */
  lemma UserFollowsTable(find: Finder, text: string)
    ensures ExtractInfo(find, AccountLink, text, 1) + ExtractInfo(find, AccountShare, text, 1)
      == ExtractShapes(find, UserShapes, text)
  {
    ExtractShapesAppend(find, [UserShapes[0]], [UserShapes[1]], text);
    assert UserShapes == [UserShapes[0]] + [UserShapes[1]];
    ExtractShapesSingle(find, UserShapes[0], text);
    ExtractShapesSingle(find, UserShapes[1], text);
  }

  /** The collection ids of the text: collection links, then collection share links. */
  function CollectionIds(find: Finder, text: string): (r: seq<string>)
    ensures forall x :: x in r <==> AnyCaptures(find, MixShapes, text, x)
    ensures r == ExtractShapes(find, MixShapes, text)
    ensures r == ExtractInfo(find, MixLink, text, 1) + ExtractInfo(find, MixShare, text, 1)
  {
    ExtractShapesAppend(find, [MixShapes[0]], [MixShapes[1]], text);
    assert MixShapes == [MixShapes[0]] + [MixShapes[1]];
    ExtractShapesSingle(find, MixShapes[0], text);
    ExtractShapesSingle(find, MixShapes[1], text);
    ExtractInfo(find, MixLink, text, 1) + ExtractInfo(find, MixShare, text, 1)
  }

  /** `Extractor.mix`. A work link anywhere in the text decides the answer: the
      result is then `(False, work ids)` and the collection patterns play no part.
      Only without one do collection links give `(True, ids)`; with neither the
      answer is `(None, [])`. */
  function Mix(find: Finder, text: string): (r: MixResult)
    ensures r.flag == Some(false) <==> Detail(find, text) != []
    ensures r.flag == Some(false) ==> r.ids == Detail(find, text)
    ensures r.flag == Some(true) <==>
      (forall x :: !AnyCaptures(find, DetailShapes, text, x)) && exists x :: AnyCaptures(find, MixShapes, text, x)
    ensures r.flag == Some(true) ==> r.ids == CollectionIds(find, text)
    ensures r.flag.Some? <==> r.ids != []
    ensures r.flag != Some(false) ==> forall x :: x in r.ids <==> AnyCaptures(find, MixShapes, text, x)
  {
    var detail := Detail(find, text);
    if detail != [] then
      assert detail[0] in detail;
      MixResult(Some(false), detail)
    else
      var m := CollectionIds(find, text);
      assert forall x :: !AnyCaptures(find, DetailShapes, text, x) by {
        forall x ensures !AnyCaptures(find, DetailShapes, text, x) {
          assert x !in detail;
        }
      }
      assert m != [] ==> AnyCaptures(find, MixShapes, text, m[0]);
      if m != [] then MixResult(Some(true), m) else MixResult(None, [])
  }

  /** Two oracles that agree on every work-link pattern give the same work ids. */
  lemma DetailDependsOnDetailShapes(find1: Finder, find2: Finder, text: string)
    requires forall k :: 0 <= k < |DetailShapes| ==> find1(DetailShapes[k].pattern, text) == find2(DetailShapes[k].pattern, text)
    ensures Detail(find1, text) == Detail(find2, text)
  {
    assert find1(DetailShapes[0].pattern, text) == find2(DetailShapes[0].pattern, text);
    assert find1(DetailShapes[1].pattern, text) == find2(DetailShapes[1].pattern, text);
    assert find1(DetailShapes[2].pattern, text) == find2(DetailShapes[2].pattern, text);
    assert find1(DetailShapes[3].pattern, text) == find2(DetailShapes[3].pattern, text);
    assert find1(DetailShapes[4].pattern, text) == find2(DetailShapes[4].pattern, text);
    assert find1(DetailShapes[5].pattern, text) == find2(DetailShapes[5].pattern, text);
  }

  /** Once a work link is present, what the collection patterns match cannot
      change `mix`'s answer: a collection link beside a work link is never seen. */
  lemma MixIgnoresCollectionsBesideWorkLink(find1: Finder, find2: Finder, text: string)
    requires forall k :: 0 <= k < |DetailShapes| ==> find1(DetailShapes[k].pattern, text) == find2(DetailShapes[k].pattern, text)
    requires Detail(find1, text) != []
    ensures Mix(find1, text) == Mix(find2, text) == MixResult(Some(false), Detail(find1, text))
  {
    DetailDependsOnDetailShapes(find1, find2, text);
  }

  /** The `sec_user_id` query parameter the reflow fallback reads. */
  const SecUserIdKey: string := "sec_user_id"

  /** The decoded query fields of a URL, in order. */
  function QueryFields(unquote: string -> string, url: string): seq<Field> {
    ParseQsl(unquote, UrlParse(url).query.GetOr(""))
  }

  /** One iteration of `Extractor.extract_sec_user_id`: the last segment of the
      URL's path and the first `sec_user_id` value of its query, or "". */
  function SecUserRef(unquote: string -> string, url: string): (r: ReflowRef)
    ensures '/' !in r.segment
    ensures IsLastSegment(UrlParse(url).path, r.segment)
    ensures (forall k :: 0 <= k < |QueryFields(unquote, url)| ==> QueryFields(unquote, url)[k].name != SecUserIdKey)
      ==> r.secUserId == ""
    ensures (exists k :: FirstNamed(QueryFields(unquote, url), SecUserIdKey, k))
      ==> exists k :: FirstNamed(QueryFields(unquote, url), SecUserIdKey, k)
                      && QueryFields(unquote, url)[k].value == r.secUserId
  {
    var path := UrlParse(url).path;
    var fields := QueryFields(unquote, url);
    var segment := LastSegment(path);
    var first := FirstValue(fields, SecUserIdKey);
    assert (exists k :: FirstNamed(fields, SecUserIdKey, k)) ==> first.Some?;
    ReflowRef(segment, first.GetOr(""))
  }

  /** `Extractor.extract_sec_user_id`: one pair per URL, in the same order. */
  function ExtractSecUserId(unquote: string -> string, urls: seq<string>): (r: seq<ReflowRef>)
    ensures |r| == |urls|
    ensures forall k :: 0 <= k < |urls| ==> r[k] == SecUserRef(unquote, urls[k])
  {
    seq(|urls|, k requires 0 <= k < |urls| => SecUserRef(unquote, urls[k]))
  }

  /** `pair` comes from the text of some non-empty reflow share link match. */
  ghost predicate FromReflowLink(find: Finder, unquote: string -> string, text: string, pair: ReflowRef) {
    exists m :: m in find(LiveLinkShare, text) && m.whole != "" && pair == SecUserRef(unquote, m.whole)
  }

  /** The fallback of `Extractor.live`: every reflow share link of the text,
      reduced to its (segment, sec_user_id) pair, in match order. */
  function ReflowPairs(find: Finder, unquote: string -> string, text: string): (pairs: seq<ReflowRef>)
    ensures |pairs| <= |find(LiveLinkShare, text)|
    ensures forall k :: 0 <= k < |pairs| ==> FromReflowLink(find, unquote, text, pairs[k])
  {
    var shares := ExtractInfo(find, LiveLinkShare, text, 0);
    var pairs := ExtractSecUserId(unquote, shares);
    assert forall k :: 0 <= k < |pairs| ==> FromReflowLink(find, unquote, text, pairs[k]) by {
      forall k | 0 <= k < |pairs|
        ensures FromReflowLink(find, unquote, text, pairs[k])
      {
        assert shares[k] in shares;
        var m :| m in find(LiveLinkShare, text) && Group(m, 0) == Some(shares[k]);
        assert m.whole == shares[k] && pairs[k] == SecUserRef(unquote, shares[k]);
      }
    }
    pairs
  }

  /** `Extractor.live`. Direct and follow-page live links win and give
      `(True, room ids)`; otherwise every reflow share link becomes a
      (segment, sec_user_id) pair and the answer is `(False, pairs)`. */
  function Live(find: Finder, unquote: string -> string, text: string): (r: LiveResult)
    ensures r.Direct() <==> exists x :: AnyCaptures(find, LiveShapes, text, x)
    ensures r.Rooms? ==> forall x :: x in r.ids <==> AnyCaptures(find, LiveShapes, text, x)
    ensures r.Rooms? ==> r.ids == ExtractShapes(find, LiveShapes, text)
    ensures r.Rooms? ==> r.ids == ExtractInfo(find, LiveLink, text, 1) + ExtractInfo(find, LiveLinkSelf, text, 1)
    ensures r.Reflows? ==> r.pairs == ReflowPairs(find, unquote, text)
  {
    var liveLink := ExtractInfo(find, LiveLink, text, 1);
    var liveLinkSelf := ExtractInfo(find, LiveLinkSelf, text, 1);
    var live := liveLink + liveLinkSelf;
    ExtractShapesAppend(find, [LiveShapes[0]], [LiveShapes[1]], text);
    assert LiveShapes == [LiveShapes[0]] + [LiveShapes[1]];
    ExtractShapesSingle(find, LiveShapes[0], text);
    ExtractShapesSingle(find, LiveShapes[1], text);
    assert live == ExtractShapes(find, LiveShapes, text);
    if live != [] then
      assert live[0] in live;
      assert AnyCaptures(find, LiveShapes, text, live[0]);
      Rooms(live)
    else
      assert forall x :: !AnyCaptures(find, LiveShapes, text, x) by {
        forall x ensures !AnyCaptures(find, LiveShapes, text, x) {
          assert x !in live;
        }
      }
      Reflows(ReflowPairs(find, unquote, text))
  }

  /** The query `?sec_user_id=<value>` of a reflow link, or no query. */
  function SecUserQuery(value: Option<string>): Option<string> {
    if value.Some? then Some(SecUserIdKey + "=" + value.value) else None
  }

  /** The pair of an `https` reflow-style link is its last path segment and its
      decoded `sec_user_id` value, or "" when the link has no query. */
  lemma SecUserRefOfLink(unquote: string -> string, host: string, dirs: string, segment: string, value: Option<string>)
    requires Avoids(host, {'/', '?', '#'})
    requires (dirs == "" || dirs[0] == '/') && Avoids(dirs, {'?', '#', ';'})
    requires Avoids(segment, {'/', '?', '#', ';'})
    requires value.Some? ==> value.value != "" && Avoids(value.value, {'#', '&', '+'})
    requires unquote(SecUserIdKey) == SecUserIdKey
    ensures SecUserRef(unquote, "https://" + host + (dirs + "/" + segment) + Delimited("?", SecUserQuery(value)))
      == ReflowRef(segment, if value.Some? then unquote(value.value) else "")
  {
    var path := dirs + "/" + segment;
    var query := SecUserQuery(value);
    var url := "https://" + host + path + Delimited("?", query);
    ReflowPathShape(dirs, segment);
    SecUserQueryShape(value);
    UrlParseHttps(host, path, query);
    LastSegmentOf(dirs, segment);
    SecUserQueryFields(unquote, value);
    assert QueryFields(unquote, url) == SecUserFields(unquote, value);
    assert FirstValue(SecUserFields(unquote, value), SecUserIdKey)
      == (if value.Some? then Some(unquote(value.value)) else None);
  }

  lemma ReflowPathShape(dirs: string, segment: string)
    requires (dirs == "" || dirs[0] == '/') && Avoids(dirs, {'?', '#', ';'})
    requires Avoids(segment, {'/', '?', '#', ';'})
    ensures var path := dirs + "/" + segment;
      |path| > 0 && path[0] == '/' && Avoids(path, {'?', '#', ';'})
  {
    var path := dirs + "/" + segment;
    forall k | 0 <= k < |path| ensures path[k] !in {'?', '#', ';'} {
      if k < |dirs| {
        assert path[k] == dirs[k];
      } else if k > |dirs| {
        assert path[k] == segment[k - |dirs| - 1];
      }
    }
  }

  lemma SecUserQueryShape(value: Option<string>)
    requires value.Some? ==> Avoids(value.value, {'#'})
    ensures SecUserQuery(value).Some? ==> Avoids(SecUserQuery(value).value, {'#'})
  {
    if value.Some? {
      var q := SecUserQuery(value).value;
      forall k | 0 <= k < |q| ensures q[k] != '#' {
        if k >= |SecUserIdKey| + 1 {
          assert q[k] == value.value[k - |SecUserIdKey| - 1];
        }
      }
    }
  }

  /** The fields of the query `SecUserQuery(value)`. */
  function SecUserFields(unquote: string -> string, value: Option<string>): seq<Field> {
    if value.Some? then [Field(SecUserIdKey, unquote(value.value))] else []
  }

  lemma SecUserQueryFields(unquote: string -> string, value: Option<string>)
    requires value.Some? ==> value.value != "" && Avoids(value.value, {'#', '&', '+'})
    requires unquote(SecUserIdKey) == SecUserIdKey
    ensures ParseQsl(unquote, SecUserQuery(value).GetOr("")) == SecUserFields(unquote, value)
  {
    if value.Some? {
      var v := value.value;
      var q := SecUserIdKey + "=" + v;
      assert Split(q, '&') == [q] by {
        SecUserPieceAmpFree(v);
      }
      SecUserPieceField(unquote, v);
      assert ParseFields(unquote, [q]) == [Field(SecUserIdKey, unquote(v))] by {
        assert [q][1..] == [];
      }
    } else {
      assert Split("", '&') == [""];
      assert ParseFields(unquote, [""]) == [] by {
        assert [""][1..] == [];
      }
    }
  }

  lemma SecUserPieceAmpFree(v: string)
    requires Avoids(v, {'&'})
    ensures '&' !in SecUserIdKey + "=" + v
  {
    var q := SecUserIdKey + "=" + v;
    forall k | 0 <= k < |q| ensures q[k] != '&' {
      if k > |SecUserIdKey| {
        assert q[k] == v[k - |SecUserIdKey| - 1];
      }
    }
  }

  lemma SecUserPieceField(unquote: string -> string, v: string)
    requires v != "" && Avoids(v, {'+'})
    requires unquote(SecUserIdKey) == SecUserIdKey
    ensures ParseField(unquote, SecUserIdKey + "=" + v) == Some(Field(SecUserIdKey, unquote(v)))
  {
    var q := SecUserIdKey + "=" + v;
    assert q[..|SecUserIdKey|] == SecUserIdKey && q[|SecUserIdKey| + 1..] == v;
    assert q[|SecUserIdKey|] == '=' && '=' !in q[..|SecUserIdKey|];
    ReplaceAbsentChar(SecUserIdKey, '+', ' ');
    ReplaceAbsentChar(v, '+', ' ');
  }

  /** Without direct live links, `live` turns every non-empty reflow share match
      into exactly one pair, in match order. */
  lemma LiveOnePairPerReflow(find: Finder, unquote: string -> string, text: string)
    requires ExtractInfo(find, LiveLink, text, 1) + ExtractInfo(find, LiveLinkSelf, text, 1) == []
    requires forall m :: m in find(LiveLinkShare, text) ==> m.whole != ""
    ensures Live(find, unquote, text).Reflows?
    ensures |Live(find, unquote, text).pairs| == |find(LiveLinkShare, text)|
    ensures forall k :: 0 <= k < |find(LiveLinkShare, text)| ==>
      Live(find, unquote, text).pairs[k] == SecUserRef(unquote, find(LiveLinkShare, text)[k].whole)
  {
    ExtractInfoOnePerMatch(find, LiveLinkShare, text, 0);
  }

  /** The reflow link of the live example: its pair is its last path segment and
      its `sec_user_id` value. */
  lemma ReflowLinkExample(unquote: string -> string)
    requires unquote(SecUserIdKey) == SecUserIdKey && unquote("XYZ") == "XYZ"
    ensures SecUserRef(unquote, "https://" + "webcast.amemv.com" + ("/douyin/webcast/reflow" + "/" + "abc123")
      + Delimited("?", Some(SecUserIdKey + "=" + "XYZ"))) == ReflowRef("abc123", "XYZ")
  {
    SecUserRefOfLink(unquote, "webcast.amemv.com", "/douyin/webcast/reflow", "abc123", Some("XYZ"));
  }

  /** Parameters after a `;` in the last segment of an `https` reflow-style
      link are not part of its segment: `…/reflow/abc;x` gives `abc`. */
  lemma SegmentStopsAtParams(unquote: string -> string, host: string, dirs: string, segment: string, params: string)
    requires Avoids(host, {'/', '?', '#'})
    requires (dirs == "" || dirs[0] == '/') && Avoids(dirs, {'?', '#', ';'})
    requires Avoids(segment, {'/', '?', '#', ';'})
    requires Avoids(params, {'/', '?', '#'})
    ensures SecUserRef(unquote, "https://" + host + (dirs + "/" + segment) + ";" + params).segment == segment
  {
    var path := dirs + "/" + segment;
    ReflowPathShape(dirs, segment);
    UrlParseHttpsParams(host, path, params, None);
    assert "https://" + host + path + ";" + params + Delimited("?", None) == "https://" + host + path + ";" + params;
    LastSegmentOf(dirs, segment);
  }

  /** Text with no link of any Douyin shape gives empty answers: no work ids,
      `(None, [])` for collections and `(False, [])` for live. */
  lemma NoLinks(find: Finder, unquote: string -> string, text: string)
    requires forall p :: find(p, text) == []
    ensures Detail(find, text) == []
    ensures User(find, text) == []
    ensures Mix(find, text) == MixResult(None, [])
    ensures Live(find, unquote, text) == Reflows([])
  {
    assert forall s, x :: !ShapeCaptures(find, s, text, x);
    assert Detail(find, text) == [] by {
      if Detail(find, text) != [] {
        assert false;
      }
    }
    assert User(find, text) == [] by {
      if User(find, text) != [] {
        assert false;
      }
    }
    assert ExtractInfo(find, LiveLinkShare, text, 0) == [];
  }

  /** `Extractor.run`: short links in the text are expanded first (`resolve`),
      then the category picks the extractor; any other category is a `ValueError`. */
  function Run(find: Finder, resolve: string -> string, unquote: string -> string, text: string, kind: string): (r: RunResult)
    ensures r.ValueError? <==> kind !in Categories
    ensures kind == "detail" ==> r == Ok(IdList(Detail(find, resolve(text))))
    ensures kind == "user" ==> r == Ok(IdList(User(find, resolve(text))))
    ensures kind == "mix" ==> r == Ok(Collection(Mix(find, resolve(text))))
    ensures kind == "live" ==> r == Ok(LiveAnswer(Live(find, unquote, resolve(text))))
  {
    var urls := resolve(text);
    match kind
    case "detail" => Ok(IdList(Detail(find, urls)))
    case "user" => Ok(IdList(User(find, urls)))
    case "mix" => Ok(Collection(Mix(find, urls)))
    case "live" => Ok(LiveAnswer(Live(find, unquote, urls)))
    case _ => ValueError
  }
}
