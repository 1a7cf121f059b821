/**
 The part of Python's `urllib.parse` the live-link fallback uses: `urlparse`
 (built on `urlsplit`) and `parse_qs`. Components follow the generic syntax of
 RFC 3986 section 3: `scheme ":" ["//" authority] path ["?" query] ["#" fragment]`,
 where the path ends at the first `?` or `#` (section 3.3) and the query at the
 first `#` (section 3.4). Percent-decoding is the `unquote` oracle.
 */
module Url {
  import opened Optional
  import opened Strings

  /** `urlparse`'s result. A component that is absent from the text is `None`;
      Python reports both absent and empty components as "". */
  datatype Parsed = Parsed(
    scheme: Option<string>,
    netloc: Option<string>,
    path: string,
    params: Option<string>,
    query: Option<string>,
    fragment: Option<string>)

  predicate IsAsciiLetter(c: char) {
    'a' <= c <= 'z' || 'A' <= c <= 'Z'
  }

  predicate IsAsciiUpper(c: char) {
    'A' <= c <= 'Z'
  }

  /** `urllib.parse.scheme_chars` */
  predicate IsSchemeChar(c: char) {
    IsAsciiLetter(c) || '0' <= c <= '9' || c == '+' || c == '-' || c == '.'
  }

  /** `str.lower()` on the ASCII scheme characters. */
  function LowerAscii(s: string): (r: string)
    ensures |r| == |s|
    ensures forall k :: 0 <= k < |s| ==> !IsAsciiUpper(r[k])
    ensures forall k :: 0 <= k < |s| && !IsAsciiUpper(s[k]) ==> r[k] == s[k]
  {
    seq(|s|, k requires 0 <= k < |s| => if IsAsciiUpper(s[k]) then (s[k] as int + 32) as char else s[k])
  }

  /** `urlsplit`'s scheme step: text before the first `:` is the scheme when it is
      non-empty, starts with an ASCII letter and holds only scheme characters. */
  function SplitScheme(url: string): (r: (Option<string>, string))
    ensures r.0.None? ==> r.1 == url
    ensures r.0.Some? ==>
      && 0 < |r.0.value| < |url|
      && url[|r.0.value|] == ':' && url[|r.0.value| + 1..] == r.1
      && r.0.value == LowerAscii(url[..|r.0.value|])
  {
    var i := FirstIndex(url, {':'});
    if 0 < i < |url| && IsAsciiLetter(url[0]) && forall k :: 0 <= k < i ==> IsSchemeChar(url[k])
    then (Some(LowerAscii(url[..i])), url[i + 1..])
    else (None, url)
  }

  /** A component with its leading delimiter, or nothing when it is absent. */
  function Delimited(delimiter: string, o: Option<string>): string {
    if o.Some? then delimiter + o.value else ""
  }

  /** `urlsplit`'s authority step: after a leading `//`, the netloc runs to the
      first `/`, `?` or `#`. */
  function SplitNetloc(s: string): (r: (Option<string>, string))
    ensures s == Delimited("//", r.0) + r.1
    ensures r.0.Some? ==> '/' !in r.0.value && '?' !in r.0.value && '#' !in r.0.value
  {
    if |s| >= 2 && s[..2] == "//" then
      var d := 2 + FirstIndex(s[2..], {'/', '?', '#'});
      assert s == s[..2] + (s[2..d] + s[d..]);
      assert forall j :: 0 <= j < |s[2..d]| ==> s[2..d][j] == s[2..][j];
      (Some(s[2..d]), s[d..])
    else (None, s)
  }

  /** `s.split(c, 1)` when `c in s`: the text before the first `c`, and the rest. */
  function SplitAtFirst(s: string, c: char): (r: (string, Option<string>))
    ensures c !in r.0
    ensures r.1.None? <==> c !in s
    ensures s == r.0 + Delimited([c], r.1)
  {
    var i := FirstIndex(s, {c});
    if i < |s| then
      assert s == s[..i] + ([c] + s[i + 1..]);
      assert forall j :: 0 <= j < i ==> s[..i][j] == s[j];
      (s[..i], Some(s[i + 1..]))
    else (s, None)
  }

  /** `_splitparams`: parameters are what follows the first `;` of the last path segment. */
  function SplitParams(url: string): (r: (string, Option<string>))
    ensures url == r.0 + Delimited(";", r.1)
  {
    var n := |url| - |LastPart(url, '/')|;
    var split := SplitAtFirst(url[n..], ';');
    ReassembleParams(url, n, split.0, split.1);
    (url[..n] + split.0, split.1)
  }

  lemma ReassembleParams(url: string, n: nat, segment: string, params: Option<string>)
    requires n <= |url| && url[n..] == segment + Delimited(";", params)
    ensures url == (url[..n] + segment) + Delimited(";", params)
  {
    assert url == url[..n] + url[n..];
  }

  lemma ReassembleScheme(url: string, n: nat)
    requires n < |url| && url[n] == ':'
    requires forall k :: 0 <= k < |url| ==> !IsAsciiUpper(url[k])
    ensures url == (LowerAscii(url[..n]) + ":") + url[n + 1..]
  {
    assert LowerAscii(url[..n]) == url[..n];
    assert url == url[..n] + [url[n]] + url[n + 1..];
  }

  /** A character missing from a concatenation is missing from both parts. */
  lemma ConcatLacks(a: string, b: string, c: char)
    requires c !in a + b
    ensures c !in a && c !in b
  {
    assert forall k :: 0 <= k < |a| ==> a[k] == (a + b)[k];
    assert forall k :: 0 <= k < |b| ==> b[k] == (a + b)[|a| + k];
  }

  /** `urllib.parse.uses_params`: the schemes whose last segment may carry `;` parameters. */
  predicate UsesParams(scheme: Option<string>) {
    scheme.GetOr("") in
      ["", "ftp", "hdl", "prospero", "http", "imap", "https", "shttp",
       "rtsp", "rtsps", "rtspu", "sip", "sips", "mms", "sftp", "tel"]
  }

  /** `urlparse`'s parameter step, taken only for schemes that use parameters
      and only when the text holds a `;`. */
  function SplitPathParams(scheme: Option<string>, s: string): (r: (string, Option<string>))
    ensures s == r.0 + Delimited(";", r.1)
  {
    if UsesParams(scheme) && ';' in s then SplitParams(s) else (s, None)
  }

  /** Path, parameters, query and fragment with their delimiters. */
  function TailText(p: Parsed): string {
    p.path + Delimited(";", p.params) + Delimited("?", p.query) + Delimited("#", p.fragment)
  }

  /** The scheme with the `:` that ends it, or nothing. */
  function SchemeText(scheme: Option<string>): string {
    if scheme.Some? then scheme.value + ":" else ""
  }

  /** Puts the components back together with their delimiters. */
  function Unparse(p: Parsed): string {
    SchemeText(p.scheme) + (Delimited("//", p.netloc) + TailText(p))
  }

  /** `urlsplit`'s fragment and query steps, then `urlparse`'s parameter step,
      on what follows the netloc. */
  function ParseTail(scheme: Option<string>, netloc: Option<string>, s: string): (r: Parsed)
    ensures r.scheme == scheme && r.netloc == netloc
    ensures TailText(r) == s
    ensures '?' !in r.path && '#' !in r.path
    ensures r.query.Some? ==> '#' !in r.query.value
  {
    var (beforeFragment, fragment) := SplitAtFirst(s, '#');
    var (beforeQuery, query) := SplitAtFirst(beforeFragment, '?');
    var (path, params) := SplitPathParams(scheme, beforeQuery);
    assert '#' !in beforeQuery && (query.Some? ==> '#' !in query.value) by {
      ConcatLacks(beforeQuery, Delimited("?", query), '#');
      if query.Some? {
        ConcatLacks("?", query.value, '#');
      }
    }
    assert '?' !in path && '#' !in path by {
      ConcatLacks(path, Delimited(";", params), '?');
      ConcatLacks(path, Delimited(";", params), '#');
    }
    Parsed(scheme, netloc, path, params, query, fragment)
  }

  /** `urlparse(url)`. Parsing loses nothing: the components, with their
      delimiters, spell the URL again (the scheme comes back lower-cased, hence
      the restriction on that clause). */
  function UrlParse(url: string): (r: Parsed)
    ensures '?' !in r.path && '#' !in r.path
    ensures r.query.Some? ==> '#' !in r.query.value
    ensures r.netloc.Some? ==> '/' !in r.netloc.value && '?' !in r.netloc.value && '#' !in r.netloc.value
    ensures (forall k :: 0 <= k < |url| ==> !IsAsciiUpper(url[k])) ==> Unparse(r) == url
  {
    var (scheme, afterScheme) := SplitScheme(url);
    var (netloc, afterNetloc) := SplitNetloc(afterScheme);
    var r := ParseTail(scheme, netloc, afterNetloc);
    assert (forall k :: 0 <= k < |url| ==> !IsAsciiUpper(url[k])) ==> url == SchemeText(scheme) + afterScheme by {
      if scheme.Some? && forall k :: 0 <= k < |url| ==> !IsAsciiUpper(url[k]) {
        ReassembleScheme(url, |scheme.value|);
      }
    }
    r
  }

  /** `segment` ends `path` and is either all of it or preceded by a `/`. */
  ghost predicate IsLastSegment(path: string, segment: string) {
    && '/' !in segment
    && |segment| <= |path| && path[|path| - |segment|..] == segment
    && (|segment| < |path| ==> path[|path| - |segment| - 1] == '/')
  }

  /** The last segment of a path, `path.split("/")[-1]`. */
  function LastSegment(path: string): (r: string)
    ensures IsLastSegment(path, r)
  {
    var parts := Split(path, '/');
    SplitLastPiece(path, '/');
    parts[|parts| - 1]
  }

  /** Splitting at the first `c`, given where it is. */
  lemma SplitAtFirstAt(s: string, c: char, i: nat)
    requires i < |s| && s[i] == c && c !in s[..i]
    ensures SplitAtFirst(s, c) == (s[..i], Some(s[i + 1..]))
  {
    assert FirstIndex(s, {c}) == i;
  }

  /** One `name=value` pair of a query string, after decoding. */
  datatype Field = Field(name: string, value: string)

  /** One `&`-separated piece as `parse_qsl` treats it with its defaults: an empty
      piece, a piece without `=` and a piece with an empty value are dropped;
      otherwise `+` becomes a space and both sides are percent-decoded. */
  function ParseField(unquote: string -> string, nameValue: string): (r: Option<Field>)
    ensures '=' !in nameValue ==> r.None?
    ensures forall i :: 0 <= i < |nameValue| && nameValue[i] == '=' && '=' !in nameValue[..i] ==>
      && (r.None? <==> i == |nameValue| - 1)
      && (r.Some? ==> r.value == Field(unquote(ReplaceChar(nameValue[..i], '+', ' ')),
                                       unquote(ReplaceChar(nameValue[i + 1..], '+', ' '))))
  {
    var (name, value) := SplitAtFirst(nameValue, '=');
    forall i | 0 <= i < |nameValue| && nameValue[i] == '=' && '=' !in nameValue[..i]
      ensures name == nameValue[..i] && value == Some(nameValue[i + 1..])
    {
      SplitAtFirstAt(nameValue, '=', i);
    }
    if nameValue == "" || value.None? || value.value == "" then None
    else Some(Field(unquote(ReplaceChar(name, '+', ' ')), unquote(ReplaceChar(value.value, '+', ' '))))
  }

  /** The fields of the pieces, in order, skipping dropped pieces. */
  function ParseFields(unquote: string -> string, pieces: seq<string>): (r: seq<Field>)
    ensures |r| <= |pieces|
    ensures forall f :: f in r <==> exists k :: 0 <= k < |pieces| && ParseField(unquote, pieces[k]) == Some(f)
  {
    if |pieces| == 0 then []
    else
      FieldOfPieces(unquote, pieces);
      match ParseField(unquote, pieces[0])
      case Some(f) => [f] + ParseFields(unquote, pieces[1..])
      case None => ParseFields(unquote, pieces[1..])
  }

  /** A piece giving `f` is the first piece or one of the rest. */
  lemma FieldOfPieces(unquote: string -> string, pieces: seq<string>)
    requires |pieces| > 0
    ensures forall f :: (exists k :: 0 <= k < |pieces| && ParseField(unquote, pieces[k]) == Some(f)) <==>
      ParseField(unquote, pieces[0]) == Some(f) || exists k :: 0 <= k < |pieces[1..]| && ParseField(unquote, pieces[1..][k]) == Some(f)
  {
    forall f | exists k :: 0 <= k < |pieces| && ParseField(unquote, pieces[k]) == Some(f)
      ensures ParseField(unquote, pieces[0]) == Some(f) || exists k :: 0 <= k < |pieces[1..]| && ParseField(unquote, pieces[1..][k]) == Some(f)
    {
      var k :| 0 <= k < |pieces| && ParseField(unquote, pieces[k]) == Some(f);
      if k > 0 {
        assert pieces[1..][k - 1] == pieces[k];
      }
    }
    forall f | exists k :: 0 <= k < |pieces[1..]| && ParseField(unquote, pieces[1..][k]) == Some(f)
      ensures exists k :: 0 <= k < |pieces| && ParseField(unquote, pieces[k]) == Some(f)
    {
      var k :| 0 <= k < |pieces[1..]| && ParseField(unquote, pieces[1..][k]) == Some(f);
      assert pieces[k + 1] == pieces[1..][k];
    }
  }

  /** `parse_qsl(query)`: the query's fields in order of appearance. */
  function ParseQsl(unquote: string -> string, query: string): (r: seq<Field>)
    ensures |r| <= |Split(query, '&')|
    ensures forall f :: f in r <==> exists piece :: piece in Split(query, '&') && ParseField(unquote, piece) == Some(f)
  {
    ParseFields(unquote, Split(query, '&'))
  }

  /** Fields keep the order of their pieces: the fields of two runs of pieces
      are the fields of the first run, then those of the second. */
  lemma {:induction false} ParseFieldsAppend(unquote: string -> string, a: seq<string>, b: seq<string>)
    ensures ParseFields(unquote, a + b) == ParseFields(unquote, a) + ParseFields(unquote, b)
    decreases |a|
  {
    if |a| > 0 {
      assert (a + b)[0] == a[0] && (a + b)[1..] == a[1..] + b;
      ParseFieldsAppend(unquote, a[1..], b);
    } else {
      assert a + b == b;
    }
  }

  /** The query of `&`-free pieces joined with `&` has the fields of those pieces, in piece order. */
  lemma ParseQslJoin(unquote: string -> string, pieces: seq<string>)
    requires |pieces| >= 1
    requires forall k :: 0 <= k < |pieces| ==> '&' !in pieces[k]
    ensures ParseQsl(unquote, Join(pieces, '&')) == ParseFields(unquote, pieces)
  {
    SplitJoin(pieces, '&');
  }

  /** Field `k` is the first one named `key`. */
  ghost predicate FirstNamed(fields: seq<Field>, key: string, k: int) {
    0 <= k < |fields| && fields[k].name == key && forall j :: 0 <= j < k ==> fields[j].name != key
  }

  /** `parse_qs(query).get(key)[0]`: `parse_qs` gathers each name's values in
      order of appearance, so this is the value of the first field named `key`. */
  function FirstValue(fields: seq<Field>, key: string): (r: Option<string>)
    ensures r.None? <==> forall k :: 0 <= k < |fields| ==> fields[k].name != key
    ensures r.Some? ==> exists k :: FirstNamed(fields, key, k) && fields[k].value == r.value
  {
    if |fields| == 0 then None
    else if fields[0].name == key then
      assert FirstNamed(fields, key, 0);
      Some(fields[0].value)
    else
      var r := FirstValue(fields[1..], key);
      assert r.Some? ==> exists k :: FirstNamed(fields, key, k) && fields[k].value == r.value by {
        if r.Some? {
          var k :| FirstNamed(fields[1..], key, k) && fields[1..][k].value == r.value;
          assert FirstNamed(fields, key, k + 1) by {
            forall j | 0 <= j < k + 1 ensures fields[j].name != key {
              if j > 0 {
                assert fields[j] == fields[1..][j - 1];
              }
            }
          }
        }
      }
      r
  }

  /** `s` holds none of the characters `cs`. */
  predicate Avoids(s: string, cs: set<char>) {
    forall k :: 0 <= k < |s| ==> s[k] !in cs
  }

  /** Two last-segment candidates of the same path coincide. */
  lemma LastSegmentUnique(path: string, a: string, b: string)
    requires IsLastSegment(path, a) && IsLastSegment(path, b)
    ensures a == b
  {
    assert |a| == |b| by {
      if |a| != |b| {
        assert false;
      }
    }
  }

  /** The last segment of `dirs + "/" + segment` is `segment`. */
  lemma LastSegmentOf(dirs: string, segment: string)
    requires '/' !in segment
    ensures LastSegment(dirs + "/" + segment) == segment
  {
    var path := dirs + "/" + segment;
    assert path[|path| - |segment|..] == segment;
    assert path[|path| - |segment| - 1] == '/';
    LastSegmentUnique(path, LastSegment(path), segment);
  }

  /** How `urlparse` splits an `https` URL with a host, a path and an optional
      query and no parameters or fragment. */
  lemma UrlParseHttps(host: string, path: string, query: Option<string>)
    requires Avoids(host, {'/', '?', '#'})
    requires |path| > 0 && path[0] == '/' && Avoids(path, {'?', '#', ';'})
    requires query.Some? ==> Avoids(query.value, {'#'})
    ensures UrlParse("https://" + host + path + Delimited("?", query))
      == Parsed(Some("https"), Some(host), path, None, query, None)
  {
    var tail := path + Delimited("?", query);
    var afterScheme := "//" + host + tail;
    assert "https://" + host + path + Delimited("?", query) == "https:" + afterScheme;
    HttpsScheme(afterScheme);
    HostNetloc(host, tail);
    PathAndQuery(host, path, query);
  }

  lemma HttpsScheme(afterScheme: string)
    ensures SplitScheme("https:" + afterScheme) == (Some("https"), afterScheme)
  {
    var url := "https:" + afterScheme;
    assert FirstIndex(url, {':'}) == 5 by {
      assert url[5] == ':';
      assert forall j :: 0 <= j < 5 ==> url[j] !in {':'};
    }
    assert url[..5] == "https" && url[6..] == afterScheme;
    assert LowerAscii("https") == "https";
  }

  lemma HostNetloc(host: string, tail: string)
    requires Avoids(host, {'/', '?', '#'})
    requires |tail| > 0 && tail[0] == '/'
    ensures SplitNetloc("//" + host + tail) == (Some(host), tail)
  {
    var s := "//" + host + tail;
    assert FirstIndex(s[2..], {'/', '?', '#'}) == |host| by {
      assert s[2..] == host + tail;
      assert s[2..][|host|] == '/';
      assert forall j :: 0 <= j < |host| ==> s[2..][j] == host[j];
    }
    assert s[2..2 + |host|] == host && s[2 + |host|..] == tail;
  }

  lemma PathAndQuery(host: string, path: string, query: Option<string>)
    requires |path| > 0 && path[0] == '/' && Avoids(path, {'?', '#', ';'})
    requires query.Some? ==> Avoids(query.value, {'#'})
    ensures ParseTail(Some("https"), Some(host), path + Delimited("?", query))
      == Parsed(Some("https"), Some(host), path, None, query, None)
  {
    var tail := path + Delimited("?", query);
    assert '#' !in tail by {
      forall k | 0 <= k < |tail| ensures tail[k] != '#' {
        if k < |path| {
          assert tail[k] == path[k];
        } else if k > |path| {
          assert tail[k] == query.value[k - |path| - 1];
        }
      }
    }
    assert SplitAtFirst(tail, '#') == (tail, None);
    assert FirstIndex(tail, {'?'}) == |path| by {
      assert forall j :: 0 <= j < |path| ==> tail[j] == path[j];
      assert query.Some? ==> tail[|path|] == '?';
    }
    if query.Some? {
      assert tail[..|path|] == path && tail[|path| + 1..] == query.value;
    }
    assert SplitAtFirst(tail, '?') == (path, query);
    assert SplitPathParams(Some("https"), path) == (path, None);
  }

  /** `_splitparams` on a path whose last segment carries parameters: the path
      ends at the first `;` and the parameters are the rest. */
  lemma ParamsSplit(path: string, params: string)
    requires Avoids(path, {';'}) && Avoids(params, {'/'})
    ensures SplitParams(path + ";" + params) == (path, Some(params))
  {
    var url := path + ";" + params;
    var last := LastPart(path, '/');
    var n := |path| - |last|;
    LastPartWithParams(path, params);
    LastPartAvoids(path, ';');
    SliceAtLastPart(path, params);
    SplitParamsAt(url, n, last, params);
  }

  /** Cutting `path;params` where the last part of `path` starts. */
  lemma SliceAtLastPart(path: string, params: string)
    ensures var url := path + ";" + params;
      var n := |path| - |LastPart(path, '/')|;
      url[n..] == LastPart(path, '/') + ";" + params && url[..n] + LastPart(path, '/') == path
  {
    var last := LastPart(path, '/');
    var n := |path| - |last|;
    var head := path[..n];
    assert path == head + last by {
      assert path[n..] == last;
    }
    var url := head + (last + ";" + params);
    assert path + ";" + params == url;
    assert url[n..] == last + ";" + params;
    assert url[..n] == head;
  }

  /** Parameters without `/` extend the last part of the path. */
  lemma LastPartWithParams(path: string, params: string)
    requires Avoids(params, {'/'})
    ensures LastPart(path + ";" + params, '/') == LastPart(path, '/') + ";" + params
  {
    assert path + ";" + params == path + (";" + params);
    assert '/' !in ";" + params by {
      forall k | 0 <= k < |";" + params| ensures (";" + params)[k] != '/' {
        if k > 0 {
          assert (";" + params)[k] == params[k - 1];
        }
      }
    }
    LastPartAppend(path, ";" + params, '/');
  }

  /** The last part of a text avoiding `c` avoids `c`. */
  lemma LastPartAvoids(s: string, c: char)
    requires Avoids(s, {c})
    ensures c !in LastPart(s, '/')
  {
    var last := LastPart(s, '/');
    forall j | 0 <= j < |last| ensures last[j] != c {
      assert last[j] == s[|s| - |last| + j];
    }
  }

  /** `_splitparams` when the last segment starts at `n` and its first `;` follows `last`. */
  lemma SplitParamsAt(url: string, n: nat, last: string, params: string)
    requires n <= |url| && |LastPart(url, '/')| == |url| - n
    requires url[n..] == last + ";" + params && ';' !in last
    ensures SplitParams(url) == (url[..n] + last, Some(params))
  {
    var w := url[n..];
    assert SplitAtFirst(w, ';') == (last, Some(params)) by {
      assert w[..|last|] == last && w[|last| + 1..] == params;
      SplitAtFirstAt(w, ';', |last|);
    }
  }

  /** How `urlparse` splits an `https` URL whose path carries `;` parameters:
      the path stops at the `;` and the parameters run up to the query. */
  lemma UrlParseHttpsParams(host: string, path: string, params: string, query: Option<string>)
    requires Avoids(host, {'/', '?', '#'})
    requires |path| > 0 && path[0] == '/' && Avoids(path, {'?', '#', ';'})
    requires Avoids(params, {'/', '?', '#'})
    requires query.Some? ==> Avoids(query.value, {'#'})
    ensures UrlParse("https://" + host + path + ";" + params + Delimited("?", query))
      == Parsed(Some("https"), Some(host), path, Some(params), query, None)
  {
    var tail := path + ";" + params + Delimited("?", query);
    var afterScheme := "//" + host + tail;
    assert "https://" + host + path + ";" + params + Delimited("?", query) == "https:" + afterScheme;
    HttpsScheme(afterScheme);
    HostNetloc(host, tail);
    PathParamsAndQuery(host, path, params, query);
  }

  lemma PathParamsAndQuery(host: string, path: string, params: string, query: Option<string>)
    requires |path| > 0 && path[0] == '/' && Avoids(path, {'?', '#', ';'})
    requires Avoids(params, {'/', '?', '#'})
    requires query.Some? ==> Avoids(query.value, {'#'})
    ensures ParseTail(Some("https"), Some(host), path + ";" + params + Delimited("?", query))
      == Parsed(Some("https"), Some(host), path, Some(params), query, None)
  {
    var head := path + ";" + params;
    assert Avoids(head, {'?', '#'}) by {
      forall k | 0 <= k < |head| ensures head[k] !in {'?', '#'} {
        if k < |path| {
          assert head[k] == path[k];
        } else if k > |path| {
          assert head[k] == params[k - |path| - 1];
        }
      }
    }
    QueryAfter(head, query);
    assert SplitPathParams(Some("https"), head) == (path, Some(params)) by {
      assert head[|path|] == ';';
      ParamsSplit(path, params);
    }
  }

  /** `urlsplit`'s fragment and query steps on `head[?query]` when `head` has
      neither `?` nor `#`. */
  lemma QueryAfter(head: string, query: Option<string>)
    requires Avoids(head, {'?', '#'})
    requires query.Some? ==> Avoids(query.value, {'#'})
    ensures SplitAtFirst(head + Delimited("?", query), '#') == (head + Delimited("?", query), None)
    ensures SplitAtFirst(head + Delimited("?", query), '?') == (head, query)
  {
    var tail := head + Delimited("?", query);
    assert '#' !in tail by {
      forall k | 0 <= k < |tail| ensures tail[k] != '#' {
        if k < |head| {
          assert tail[k] == head[k];
        } else if k > |head| {
          assert tail[k] == query.value[k - |head| - 1];
        }
      }
    }
    if query.Some? {
      assert tail[..|head|] == head && tail[|head| + 1..] == query.value;
      SplitAtFirstAt(tail, '?', |head|);
    } else {
      assert tail == head;
    }
  }
}
