# Link extractor model

A Dafny model of the link extractor of TikTokDownloader (`src/link/extractor.py`).
The extractor turns pasted text into per-category identifier lists for Douyin
(`Extractor`) and TikTok (`ExtractorTikTok`). It finds links with compiled regular
expressions, reads one capture group per match, drops empty captures, and
concatenates the per-pattern lists in a fixed precedence order. It then packs
the result per category: `detail`, `user`, `mix` or `live`. The TikTok variant
also fetches each candidate page and searches its embedded data.

The regular-expression engine is an uninterpreted oracle. A `Finder` maps a
`Pattern` and a text to the `finditer` matches; `search` is the first of them.
Three more things are plain function parameters:

- page fetching: `Fetcher`, a page text or `None`;
- short-link expansion done by `Requester.run`: `resolve`;
- percent-decoding: `unquote`.

Everything else is modelled as pure functions over sequences:

- `extract_info` and its filtering;
- the precedence tables;
- the three-valued `mix` flag;
- the `live` fallback to reflow links;
- the parts of `urlparse` and `parse_qs` that `extract_sec_user_id` relies on:
  - the scheme, network location, params, query and fragment split;
  - splitting on `&`, dropping blank pieces, and first value per name;
- `run` dispatch.

Modules:

- `Optional`: the `Option` type.
- `Regex`: patterns, matches and groups, and the `Finder` oracle with `Search`.
- `Strings`: first index of a character, split, join and last piece.
- `Captures`: `extract_info`, truthiness filtering, and precedence tables of (pattern, group) shapes.
- `Url`: `urlparse`, `parse_qs`, and the last segment of a path.
- `Results`: the shapes of the per-category answers.
- `Douyin`: `Extractor`.
- `TikTok`: `ExtractorTikTok`.

## Model

| member | source | states |
|---|---|---|
| Captures.ExtractInfo | src/link/extractor.py:138-141 | The result never holds `""`. It is no longer than the match list. `x` is in it exactly when some match captures the non-empty `x` in the requested group. |
| Captures.ExtractInfoInMatchOrder | src/link/extractor.py:138-141 | The captures appear in match order. Each comes from a strictly later match than the one before. Every match with a non-empty group contributes. |
| Captures.ExtractInfoOnePerMatch | src/link/extractor.py:138-141 | When every match captures something non-empty, there is exactly one result per match, in position. |
| Captures.KeepPresent | src/link/extractor.py:141 | The filter `[i for i in … if i]` keeps exactly the entries that are present and non-empty. It never lengthens the list. |
| Captures.KeepPresentSelects | src/link/extractor.py:141 | The kept entries are a subsequence of the input. Every truthy entry is kept, in its original order. |
| Captures.DropsFalsyEntry | src/link/extractor.py:196 | A `None` or `""` entry is dropped without reordering the entries around it. |
| Captures.ExtractShapesAppend | src/link/extractor.py:119-125 | Concatenating per-pattern lists follows the table. Captures of an earlier pattern precede those of a later one, wherever they sit in the text. |
| Douyin.Detail | src/link/extractor.py:115-125 | The work ids are exactly the captures of the six work-link shapes: direct, share, account with `modal_id` (group 2), search, discover, channel. No id is empty. The list is the six per-shape lists concatenated in table order. |
| Douyin.DetailFollowsTable | src/link/extractor.py:115-125 | The six concatenated lists are the precedence table read in order. |
| Douyin.DetailKeepsDuplicates | src/link/extractor.py:115-125 | There is no deduplication. An id carried by both a direct and a share link occurs at least twice. Its first occurrence lies in the leading direct-link block. |
| Douyin.DetailDependsOnDetailShapes | src/link/extractor.py:115-125 | The work ids depend only on what the six work-link patterns match. |
| Douyin.User | src/link/extractor.py:86-92 | The account ids are exactly the captures of profile links and profile share links. The list is the profile-link captures followed by the share-link captures. |
| Douyin.UserFollowsTable | src/link/extractor.py:86-92 | The profile-link captures come first, then the share-link captures. |
| Douyin.Mix | src/link/extractor.py:94-102 | The flag is three-valued. `False` holds exactly when there are work ids, and the ids are then the work ids. `True` holds exactly when there are no work links but some collection link; the ids are then the collection-link ids followed by the collection-share ids, through `Douyin.CollectionIds`. `None` comes with an empty list. |
| Douyin.CollectionIds | src/link/extractor.py:100-102 | The collection ids are exactly the captures of collection links and collection share links. The list is the collection-link ids followed by the collection-share ids, in match order. |
| Douyin.MixIgnoresCollectionsBesideWorkLink | src/link/extractor.py:94-99 | Once a work link is present, the answer is `(False, work ids)`, whatever the collection patterns match. |
| Douyin.SecUserRef | src/link/extractor.py:130-134 | The first element is the last `/`-free segment of the parsed path. The second is the first `sec_user_id` field of the parsed query, or `""` when there is none. |
| Douyin.ExtractSecUserId | src/link/extractor.py:127-136 | There is one pair per URL, with the same length and order. |
| Douyin.SecUserRefOfLink | src/link/extractor.py:130-134 | An `https` reflow link `…/<segment>[?sec_user_id=<v>]` gives the pair (segment, decoded v), or (segment, `""`) without a query. |
| Douyin.ReflowLinkExample | src/link/extractor.py:127-136 | `https://webcast.amemv.com/douyin/webcast/reflow/abc123?sec_user_id=XYZ` gives (`abc123`, `XYZ`). |
| Douyin.ReflowPairs | src/link/extractor.py:112-113 | The fallback gives at most one pair per reflow match. Each pair comes from a non-empty reflow match. |
| Douyin.Live | src/link/extractor.py:104-113 | The flag is `True` exactly when a live or follow-page link captures a room id, and the ids are then the live-link captures followed by the follow-page captures, in match order. Otherwise the answer is `(False, reflow pairs)`. |
| Douyin.LiveOnePairPerReflow | src/link/extractor.py:104-113 | When no live or follow-page link captures a room id, every non-empty reflow match gives exactly one pair, in match order. |
| Douyin.NoLinks | src/link/extractor.py:94-113 | Text without links gives `[]` for detail and user, `(None, [])` for mix, and `(False, [])` for live. |
| Douyin.Run | src/link/extractor.py:63-78 | Each of the four categories runs its extractor on the expanded text. Any other category string is a `ValueError`. |
| Url.UrlParse | src/link/extractor.py:131 | The path holds no `?` or `#`. The query holds no `#`. The network location holds no `/`, `?` or `#`. For a URL without upper-case letters, the components with their delimiters spell the URL again. |
| Url.UrlParseHttps | src/link/extractor.py:131 | `https://host/path[?query]` parses to scheme `https`, that host, that path and that query, with no params and no fragment. |
| Url.UrlParseHttpsParams | src/link/extractor.py:131 | `https://host/path;params[?query]` parses to scheme `https`, that host and that query. The path stops before the `;`, and the params are the text between the `;` and the query. |
| Url.ParamsSplit | src/link/extractor.py:131 | `urlparse`'s params step on `path;params`, where the path has no `;` and the params have no `/`, gives that path and those params. |
| Douyin.SegmentStopsAtParams | src/link/extractor.py:131-134 | For an `https` reflow-style link `…/<segment>;<params>`, the pair's segment is `<segment>` without the params. |
| Url.LastSegment | src/link/extractor.py:134 | `path.split("/")[-1]` is the `/`-free suffix of the path that is either the whole path or preceded by `/`. |
| Strings.SplitLastPiece | src/link/extractor.py:134 | The last piece of a split is the text after the last separator. |
| Strings.JoinSplit | src/link/extractor.py:134 | Joining the pieces of a split with the same separator gives back the text. |
| Url.ParseField | src/link/extractor.py:132 | A `&`-piece gives a field exactly when it holds `=` and something follows the first `=`. The name is the decoded text before the first `=`, the value the decoded text after it, with `+` read as a space. |
| Url.ParseFields | src/link/extractor.py:132 | A field is kept exactly when some piece gives it. There are at most as many fields as pieces. |
| Url.ParseFieldsAppend | src/link/extractor.py:132-134 | Fields come in piece order. The fields of two runs of pieces are those of the first run followed by those of the second, so `[0]` at line 134 sees the earliest `sec_user_id`. |
| Url.ParseQsl | src/link/extractor.py:132 | The fields of a query are exactly those its `&`-pieces give. There are at most as many as pieces. |
| Url.ParseQslJoin | src/link/extractor.py:132 | A query made of `&`-free pieces joined by `&` has exactly the fields of those pieces, in piece order. |
| Url.FirstValue | src/link/extractor.py:132-134 | `parse_qs(q).get(key, [""])[0]`: `None` exactly when no field has that name; otherwise the value of the first field with that name. |
| Regex.Search | src/link/extractor.py:216 | `search` finds nothing exactly when `finditer` finds nothing. Otherwise it returns the first match. |
| TikTok.GetHtmlData | src/link/extractor.py:206-216 | The result is group `index` of the first data match in the fetched page, or `""` when the page has none. A failed fetch is searched as the empty page. |
| TikTok.Lookup | src/link/extractor.py:194-196 | The lookup results keep exactly the non-empty page values of the candidates. There are at most as many as there are candidates. |
| TikTok.LookupDropsFalsy | src/link/extractor.py:194-196 | A candidate whose lookup is falsy is dropped. The other candidates' values keep their order. |
| TikTok.Detail | src/link/extractor.py:198-204 | The work ids are exactly the non-empty video or photo ids of the work-link matches. Bare profile links contribute nothing. |
| TikTok.DetailInMatchOrder | src/link/extractor.py:198-204 | The work ids appear in match order. Every match carrying an id contributes. |
| TikTok.User | src/link/extractor.py:190-196 | There are at most as many ids as profile links. `x` is an id exactly when some profile link's page yields the non-empty `secUid` `x`. |
| TikTok.UserInCandidateOrder | src/link/extractor.py:190-196 | The ids are the truthy per-profile lookups, in profile order. |
| TikTok.UserSkipsUnreachableProfile | src/link/extractor.py:190-196 | A profile whose page cannot be fetched is skipped, and the other ids keep their order. |
| TikTok.Mix | src/link/extractor.py:218-227 | The flag is always `True`. The ids are exactly the page-found ids followed by the collection-link ids, each block in order. The titles are exactly one `None` per page-found id, then the decoded slugs in link order. No page-found id has a title. |
| TikTok.MixAligned | src/link/extractor.py:218-227 | When every collection match captures both groups, ids and titles have equal length. The k-th collection link's id and decoded slug then sit at the same position. |
| TikTok.Live | src/link/extractor.py:229-235 | The flag is always `True`. The room ids are exactly the non-empty `roomId` values of the live links' pages. |
| TikTok.LiveInCandidateOrder | src/link/extractor.py:229-235 | The room ids are the truthy per-link lookups, in link order. |
| TikTok.Run | src/link/extractor.py:167-182 | Each of the four categories runs its extractor on the expanded text. Any other category string is a `ValueError`. |

## Left out

- The regular-expression engine: lazy `\S*?`, word boundaries and non-overlapping `finditer` are not modelled. `Finder` is an oracle, so the patterns at lines 14-50 and 145-159 appear only as names.
- `Requester` is left out. Its short-link expansion is the `resolve` parameter, and its HTTP fetch is the `Fetcher` parameter.
- Client selection in `__init__`, `Parameter`, and async scheduling are left out. The awaits run one after another, so they are modelled as plain calls. Every member is a pure function of its inputs, including the `Fetcher` and `resolve` oracles. So within the model, the same input and the same oracles give the same output. The program itself fetches over the network, and two fetches of the same URL may differ.
- Douyin.Run and TikTok.Run: the default `type_="detail"` (lines 64 and 168) is not modelled, and the category is always passed. A caller that omits it gets what `kind == "detail"` gives.
- `detail_id` (line 21) is never used by the extractor.
- Regex.Group: a group index beyond the pattern's groups reads as `None`, where Python raises `IndexError`. Every call site uses a group its pattern defines.
- Url.UrlParse: some `urlparse` behaviour is not modelled. It strips leading C0 control characters and spaces, and removes tabs and newlines. It raises `ValueError` on unbalanced IPv6 brackets. It checks the network location against NFKC normalisation. For some reflow matches this changes the answer, and the model does not follow it. A match such as `a://[https://webcast.amemv.com/douyin/webcast/reflow/x` has an unbalanced `[` in its network location, so `live` and `run` raise `ValueError`, while the model returns a pair. A leading control character can change the scheme the program sees, and with it whether `;` starts params. The program may then give a longer last segment than the model.
- Douyin.Live and Douyin.Run: they inherit the `Url.UrlParse` gaps above. On a reflow match that makes `urlparse` raise, the program raises where the model answers.
- Url.FirstValue and Douyin.SecUserRef: percent-decoding is the `unquote` oracle. The `parse_qs` options `keep_blank_values`, `strict_parsing`, `max_num_fields` and `separator` are fixed at their defaults.
- TikTok.MixAligned: equal lengths are proved only when both groups of every collection match are non-empty. The pattern at line 156 guarantees this, but the regex engine is an oracle.
- TikTok.UserSkipsUnreachableProfile: it assumes the `secUid` pattern does not match the empty page. The pattern requires literal text, but the oracle does not know that.

Douyin `mix` is modelled as written. A work link anywhere in the text decides the answer, even when collection links are also present. `Douyin.MixIgnoresCollectionsBesideWorkLink` states this.
