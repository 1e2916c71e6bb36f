/**
 * The lookup client: the request URL it builds from an address, a format and a
 * callback name (`buildUrl` and `encode`), the argument check it makes first,
 * and how it turns the response into a result (`lookup`). The HTTP exchange and
 * the JSON parser are parameters of `Lookup`: `send` yields what the transport
 * delivers for a URL, `parse` what the JSON library makes of a body.
 */
module Ip2GeoClient {
  import opened Wrappers
  import opened Strings
  import FormEncoding

  const BaseUrl: string := "https://api.ip2geoapi.com/ip"

  const KeyParam: string := "key"
  const FormatParam: string := "format"
  const CallbackParam: string := "callback"

  const JsonFormat: string := "json"
  const JsonpFormat: string := "jsonp"

  const CallbackMisuse: string := "callback can only be used when format is 'jsonp'"
  const ApiUnreachable: string := "Unable to reach Ip2Geo API"

  /** What of a client's configuration the URL and the lookup read; it never changes after construction. */
  datatype Client = Client(apiKey: Option<string>)

  // ---------------------------------------------------------------------------
  // The URL
  // ---------------------------------------------------------------------------

  /**
   * The URL up to its query: the base, and the encoded address as one more
   * segment. The URL functions take the encoder as a parameter; the client's
   * is `FormEncoding.Encode`.
   */
  function Path(encode: string -> string, ip: Option<string>): (path: string)
    ensures path == BaseUrl <==> ip.None? || ip.value == ""
  {
    if ip.Some? && ip.value != "" then BaseUrl + "/" + encode(ip.value) else BaseUrl
  }

  /** The query parameters `buildUrl` puts into its map. */
  function Params(apiKey: Option<string>, format: Option<string>, callback: Option<string>): (p: map<string, string>)
    ensures p.Keys <= {KeyParam, FormatParam, CallbackParam}
    ensures callback.Some? ==> CallbackParam in p && p[CallbackParam] == callback.value
  {
    var withKey := if apiKey.Some? && apiKey.value != "" then map[KeyParam := apiKey.value] else map[];
    var withFormat := if format.Some? then withKey[FormatParam := format.value] else withKey;
    if callback.Some? then withFormat[CallbackParam := callback.value] else withFormat
  }

  /**
   * An order in which a hash map may hand out the keys of `params`: each key
   * exactly once. The model fixes no particular one.
   */
  ghost predicate IsIterationOrder(order: seq<string>, params: map<string, string>) {
    && (forall k :: k in params <==> k in order)
    && (forall i, j :: 0 <= i < j < |order| ==> order[i] != order[j])
  }

  /** The entries of `params`, in the iteration order `order`. */
  function Entries(params: map<string, string>, order: seq<string>): (es: seq<(string, string)>)
    requires forall k :: 0 <= k < |order| ==> order[k] in params
    ensures |es| == |order|
  {
    seq(|order|, j requires 0 <= j < |order| => (order[j], params[order[j]]))
  }

  /** One query item, `k=v` with both sides passed through `encode`. */
  function Item(encode: string -> string, k: string, v: string): string {
    encode(k) + "=" + encode(v)
  }

  function Items(encode: string -> string, entries: seq<(string, string)>): (items: seq<string>)
    ensures |items| == |entries|
  {
    seq(|entries|, j requires 0 <= j < |entries| => Item(encode, entries[j].0, entries[j].1))
  }

  /** The query: nothing without entries, else `?` and the items joined by `&`. */
  function Query(encode: string -> string, entries: seq<(string, string)>): (q: string)
    ensures q == "" <==> entries == []
    ensures q != "" ==> q[0] == '?'
  {
    if entries == [] then "" else "?" + Join(Items(encode, entries), '&')
  }

  /** The URL `buildUrl` returns for the parameter map `params` when it iterates in `order`. */
  function Url(encode: string -> string, ip: Option<string>, params: map<string, string>,
               order: seq<string>): (url: string)
    requires forall k :: 0 <= k < |order| ==> order[k] in params
    ensures url == Path(encode, ip) <==> order == []
  {
    Path(encode, ip) + Query(encode, Entries(params, order))
  }

  /**
   * `buildUrl`: a string that grows step by step (the base, then the encoded
   * address as one more segment) and a map filled by conditional puts; the
   * query is appended by `AppendQuery`.
   */
  method BuildUrl(client: Client, ip: Option<string>, format: Option<string>,
                  callback: Option<string>, order: seq<string>) returns (url: string)
    requires IsIterationOrder(order, Params(client.apiKey, format, callback))
    ensures url == Url(FormEncoding.Encode, ip, Params(client.apiKey, format, callback), order)
  {
    var sb := "";
    if ip.Some? && ip.value != "" {
      var e := FormEncoding.Encode(ip.value);
      sb := sb + BaseUrl + "/" + e;
      PathOfSegment(FormEncoding.Encode, ip, e, sb);
    } else {
      sb := sb + BaseUrl;
      assert sb == BaseUrl;
    }
    ghost var path := sb;
    assert path == Path(FormEncoding.Encode, ip);

    var params: map<string, string> := map[];
    if client.apiKey.Some? && client.apiKey.value != "" {
      params := params[KeyParam := client.apiKey.value];
    }
    if format.Some? {
      params := params[FormatParam := format.value];
    }
    if callback.Some? {
      params := params[CallbackParam := callback.value];
    }
    assert params == Params(client.apiKey, format, callback);
    EmptyIterationOrder(order, params);
    var entries := Entries(params, order);

    url := AppendQuery(sb, entries, FormEncoding.Encode);
    UrlOfParts(FormEncoding.Encode, ip, params, order, path, entries, url);
  }

  /**
   * The second half of `buildUrl`: when there are entries, a `?` and then, for
   * each entry in turn, `encode(k)`, `=` and `encode(v)`, behind an `&` unless
   * a `first` flag says it is the first. It is proved for any encoder.
   */
  method AppendQuery(prefix: string, entries: seq<(string, string)>, encode: string -> string)
    returns (sb: string)
    ensures sb == prefix + Query(encode, entries)
  {
    sb := prefix;
    if |entries| != 0 {
      sb := sb + "?";
      ghost var start := sb;
      ghost var items := Items(encode, entries);
      var first := true;
      var i := 0;
      while i < |entries|
        invariant 0 <= i <= |entries|
        invariant first <==> i == 0
        invariant sb == start + Join(items[..i], '&')
      {
        ghost var before := sb;
        var k, v := entries[i].0, entries[i].1;
        if !first {
          sb := sb + "&";
        }
        first := false;
        sb := sb + encode(k) + "=" + encode(v);
        EmitItem(start, items, i, before, sb);
        i := i + 1;
      }
      QueryOfJoin(prefix, encode, entries, start, items[..i], sb);
    }
  }

  lemma PathOfSegment(encode: string -> string, ip: Option<string>, e: string, sb: string)
    requires ip.Some? && ip.value != "" && e == encode(ip.value)
    requires sb == "" + BaseUrl + "/" + e
    ensures sb == Path(encode, ip)
  {
  }

  lemma UrlOfParts(encode: string -> string, ip: Option<string>, params: map<string, string>,
                   order: seq<string>, path: string, entries: seq<(string, string)>, url: string)
    requires IsIterationOrder(order, params)
    requires path == Path(encode, ip) && entries == Entries(params, order)
    requires url == path + Query(encode, entries)
    ensures url == Url(encode, ip, params, order)
  {
  }

  /** The map is empty exactly when its iteration order is. */
  lemma EmptyIterationOrder(order: seq<string>, params: map<string, string>)
    requires IsIterationOrder(order, params)
    ensures |params| == 0 <==> order == []
  {
    if order != [] {
      assert order[0] in params;
    }
    if |params| != 0 {
      var k :| k in params;
      assert k in order;
    }
  }

  /** One pass of the loop: item `i`, behind an `&` unless it is the first. */
  lemma EmitItem(start: string, items: seq<string>, i: nat, before: string, after: string)
    requires i < |items|
    requires before == start + Join(items[..i], '&')
    requires after == (if i == 0 then before else before + "&") + items[i]
    ensures after == start + Join(items[..i + 1], '&')
  {
    assert items[..i + 1] == items[..i] + [items[i]];
    JoinAppend(start, items[..i], items[i], before, after);
  }

  /** After the last pass, the string is the prefix and the query. */
  lemma QueryOfJoin(prefix: string, encode: string -> string, entries: seq<(string, string)>,
                    start: string, done: seq<string>, sb: string)
    requires entries != [] && start == prefix + "?"
    requires done == Items(encode, entries)[..|entries|] && sb == start + Join(done, '&')
    ensures sb == prefix + Query(encode, entries)
  {
    var items := Items(encode, entries);
    assert done == items;
    assert (prefix + "?") + Join(items, '&') == prefix + ("?" + Join(items, '&'));
  }

  lemma JoinAppend(prefix: string, done: seq<string>, item: string, before: string, after: string)
    requires before == prefix + Join(done, '&')
    requires after == (if done == [] then before else before + "&") + item
    ensures after == prefix + Join(done + [item], '&')
  {
    JoinSnoc(done, item, '&');
  }

  // ---------------------------------------------------------------------------
  // Reading a URL back
  // ---------------------------------------------------------------------------

  /** What a server reads out of a URL: the address and the query entries. */
  datatype Request = Request(ip: string, params: seq<(string, string)>)

  /** The URL before its first `?`. */
  function UpToQuery(url: string): string {
    if '?' in url then url[..IndexOf(url, '?')] else url
  }

  /** The address a path names: none for the bare base, else its decoded last segment. */
  function ParsePath(path: string): Option<string> {
    if path == BaseUrl then Some("")
    else if |path| > |BaseUrl| && path[..|BaseUrl| + 1] == BaseUrl + "/" then
      FormEncoding.Decode(path[|BaseUrl| + 1..])
    else None
  }

  /** An item `k=v` with exactly one `=`, both sides decoded. */
  function ParseItem(item: string): Option<(string, string)> {
    var sides := Split(item, '=');
    if |sides| != 2 then None
    else match (FormEncoding.Decode(sides[0]), FormEncoding.Decode(sides[1]))
      case (Some(k), Some(v)) => Some((k, v))
      case _ => None
  }

  /** Every item parsed by `parse`, or nothing when one of them does not parse. */
  function ParseAll<T>(parse: string -> Option<T>, items: seq<string>): Option<seq<T>> {
    if items == [] then Some([])
    else match (parse(items[0]), ParseAll(parse, items[1..]))
      case (Some(e), Some(es)) => Some([e] + es)
      case _ => None
  }

  /** A query, split on `&` into items. */
  function ParseQuery(query: string): Option<seq<(string, string)>> {
    ParseAll(ParseItem, Split(query, '&'))
  }

  /** A whole URL: the path before the first `?`, the query after it. */
  function ParseUrl(url: string): Option<Request> {
    if '?' in url then
      var i := IndexOf(url, '?');
      match (ParsePath(url[..i]), ParseQuery(url[i + 1..]))
      case (Some(ip), Some(es)) => Some(Request(ip, es))
      case _ => None
    else
      match ParsePath(url)
      case Some(ip) => Some(Request(ip, []))
      case None => None
  }

  // ---------------------------------------------------------------------------
  // Properties of the URL
  // ---------------------------------------------------------------------------

  /** Each parameter is present under exactly its own rule, and no other name ever is. */
  lemma ParamsPresence(apiKey: Option<string>, format: Option<string>, callback: Option<string>)
    ensures var p := Params(apiKey, format, callback);
      && (KeyParam in p <==> apiKey.Some? && apiKey.value != "")
      && (KeyParam in p ==> p[KeyParam] == apiKey.value)
      && (FormatParam in p <==> format.Some?)
      && (FormatParam in p ==> p[FormatParam] == format.value)
      && (CallbackParam in p <==> callback.Some?)
      && (CallbackParam in p ==> p[CallbackParam] == callback.value)
      && p.Keys <= {KeyParam, FormatParam, CallbackParam}
  {
  }

  lemma {:induction false} DistinctLength(order: seq<string>)
    requires forall i, j :: 0 <= i < j < |order| ==> order[i] != order[j]
    ensures |set k | k in order| == |order|
  {
    if order != [] {
      var rest := order[1..];
      DistinctLength(rest);
      assert (set k | k in order) == {order[0]} + (set k | k in rest);
      assert order[0] !in rest by {
        forall j | 0 <= j < |rest| ensures rest[j] != order[0] { assert rest[j] == order[j + 1]; }
      }
    }
  }

  /** An iteration order visits as many keys as the map holds. */
  lemma IterationOrderLength(order: seq<string>, params: map<string, string>)
    requires IsIterationOrder(order, params)
    ensures |order| == |params|
  {
    DistinctLength(order);
    assert params.Keys == set k | k in order;
  }

  /**
   * What the URL needs of an encoder: its output never holds `?`, `&` or `=`,
   * and decoding gives back what was encoded.
   */
  ghost predicate IsUrlSafe(encode: string -> string) {
    forall s :: '?' !in encode(s) && '&' !in encode(s) && '=' !in encode(s)
                && FormEncoding.Decode(encode(s)) == Some(s)
  }

  /** The form encoder, the one `encode` calls, is such an encoder. */
  lemma FormEncodingIsUrlSafe()
    ensures IsUrlSafe(FormEncoding.Encode)
  {
    forall s ensures '?' !in FormEncoding.Encode(s) && '&' !in FormEncoding.Encode(s)
                     && '=' !in FormEncoding.Encode(s)
                     && FormEncoding.Decode(FormEncoding.Encode(s)) == Some(s) {
      var t := FormEncoding.Encode(s);
      forall i | 0 <= i < |t| ensures t[i] != '?' && t[i] != '&' && t[i] != '=' {
        assert !FormEncoding.IsUrlDelimiter(t[i]);
      }
      FormEncoding.DecodeEncode(s);
    }
  }

  lemma PathHasNoQuery(encode: string -> string, ip: Option<string>)
    requires IsUrlSafe(encode)
    ensures '?' !in Path(encode, ip)
  {
    var p := Path(encode, ip);
    if ip.Some? && ip.value != "" {
      var e := encode(ip.value);
      forall i | 0 <= i < |p| ensures p[i] != '?' {
        if i > |BaseUrl| { assert p[i] == e[i - |BaseUrl| - 1]; }
      }
    }
  }

  /** The URL before any `?` is the base, with the encoded address only when there is one. */
  lemma UrlPath(encode: string -> string, ip: Option<string>, params: map<string, string>,
                order: seq<string>)
    requires IsUrlSafe(encode) && IsIterationOrder(order, params)
    ensures UpToQuery(Url(encode, ip, params, order))
            == if ip.None? || ip.value == "" then BaseUrl else BaseUrl + "/" + encode(ip.value)
  {
    PathHasNoQuery(encode, ip);
    UpToQueryOfPath(Path(encode, ip), Query(encode, Entries(params, order)));
  }

  /** Before a query that is empty or starts with `?`, a path without `?` is all of the URL up to `?`. */
  lemma UpToQueryOfPath(path: string, query: string)
    requires '?' !in path && (query == "" || query[0] == '?')
    ensures UpToQuery(path + query) == path
  {
    if query == "" {
      assert path + query == path;
    } else {
      IndexOfAfter(path, '?', query[1..]);
      assert path + query == path + ['?'] + query[1..];
    }
  }

  lemma ItemHasNoAmpersand(encode: string -> string, k: string, v: string)
    requires IsUrlSafe(encode)
    ensures '&' !in Item(encode, k, v)
  {
    var ek, ev := encode(k), encode(v);
    var item := Item(encode, k, v);
    forall i | 0 <= i < |item| ensures item[i] != '&' {
      if i < |ek| { assert item[i] == ek[i]; }
      else if i > |ek| { assert item[i] == ev[i - |ek| - 1]; }
    }
  }

  lemma ItemsHaveNoAmpersand(encode: string -> string, entries: seq<(string, string)>)
    requires IsUrlSafe(encode)
    ensures forall j :: 0 <= j < |entries| ==> Items(encode, entries)[j] != [] && '&' !in Items(encode, entries)[j]
  {
    forall j | 0 <= j < |entries| ensures Items(encode, entries)[j] != [] && '&' !in Items(encode, entries)[j] {
      ItemHasNoAmpersand(encode, entries[j].0, entries[j].1);
    }
  }

  /**
   * The URL's shape: the path, which holds no `?`, and then, exactly when there
   * are parameters, a `?` and one item `encode(k)=encode(v)` per parameter in
   * iteration order, joined by `&`; splitting on `&` gives the items back,
   * there is exactly one `&` between neighbours and none at either end.
   */
  lemma QueryShape(encode: string -> string, ip: Option<string>, p: map<string, string>,
                   order: seq<string>)
    requires IsUrlSafe(encode) && IsIterationOrder(order, p)
    ensures var url := Url(encode, ip, p, order);
            var items := Items(encode, Entries(p, order));
            var q := Join(items, '&');
      && url == Path(encode, ip) + (if |p| > 0 then "?" + q else "")
      && '?' !in Path(encode, ip)
      && ('?' in url <==> |p| > 0)
      && |items| == |order| == |p|
      && (forall j :: 0 <= j < |order| ==> items[j] == encode(order[j]) + "=" + encode(p[order[j]]))
      && (|p| > 0 ==>
            && Split(q, '&') == items
            && Count(q, '&') == |p| - 1
            && q != [] && q[0] != '&' && q[|q| - 1] != '&')
  {
    var path := Path(encode, ip);
    var entries := Entries(p, order);
    var url := path + Query(encode, entries);
    PathHasNoQuery(encode, ip);
    IterationOrderLength(order, p);
    if entries != [] {
      var q := Join(Items(encode, entries), '&');
      assert url == path + ['?'] + q;
      assert url[|path|] == '?';
      JoinedItemsShape(encode, entries);
    } else {
      assert url == path;
    }
  }

  /** The items joined by `&` split back into the items, with one `&` fewer than items and none at the ends. */
  lemma JoinedItemsShape(encode: string -> string, entries: seq<(string, string)>)
    requires IsUrlSafe(encode) && entries != []
    ensures var items := Items(encode, entries);
            var q := Join(items, '&');
      && Split(q, '&') == items
      && Count(q, '&') == |entries| - 1
      && q != [] && q[0] != '&' && q[|q| - 1] != '&'
  {
    var items := Items(encode, entries);
    ItemsHaveNoAmpersand(encode, entries);
    SplitJoin(items, '&');
    CountJoin(items, '&');
    JoinEnds(items, '&');
  }

  /** A join of non-empty, separator-free parts neither starts nor ends with the separator. */
  lemma {:induction false} JoinEnds(parts: seq<string>, sep: char)
    requires parts != []
    requires forall k :: 0 <= k < |parts| ==> parts[k] != [] && sep !in parts[k]
    ensures var t := Join(parts, sep); t != [] && t[0] != sep && t[|t| - 1] != sep
  {
    var t := Join(parts, sep);
    if |parts| == 1 {
      assert t == parts[0];
    } else {
      JoinEnds(parts[1..], sep);
      var rest := Join(parts[1..], sep);
      assert t == parts[0] + [sep] + rest;
      assert t[0] == parts[0][0];
      assert t[|t| - 1] == rest[|rest| - 1];
    }
  }

  lemma ParseItemOfItem(encode: string -> string, k: string, v: string)
    requires IsUrlSafe(encode)
    ensures ParseItem(Item(encode, k, v)) == Some((k, v))
  {
    var ek, ev := encode(k), encode(v);
    SplitAfter(ek, '=', ev);
    assert Split(Item(encode, k, v), '=') == [ek, ev];
  }

  lemma ParseItemsOfItems(encode: string -> string, entries: seq<(string, string)>)
    requires IsUrlSafe(encode)
    ensures ParseAll(ParseItem, Items(encode, entries)) == Some(entries)
  {
    var items := Items(encode, entries);
    forall j | 0 <= j < |items| ensures ParseItem(items[j]) == Some(entries[j]) {
      ParseItemOfItem(encode, entries[j].0, entries[j].1);
    }
    ParseEachItem(ParseItem, items, entries);
  }

  /** Items that each parse to their entry parse, together, to the entries. */
  lemma {:induction false} ParseEachItem<T>(parse: string -> Option<T>, items: seq<string>, es: seq<T>)
    requires |items| == |es|
    requires forall j :: 0 <= j < |items| ==> parse(items[j]) == Some(es[j])
    ensures ParseAll(parse, items) == Some(es)
  {
    if items != [] {
      assert forall j :: 0 <= j < |items| - 1 ==> items[1..][j] == items[j + 1] && es[1..][j] == es[j + 1];
      ParseEachItem(parse, items[1..], es[1..]);
      assert [es[0]] + es[1..] == es;
    }
  }

  lemma ParsePathOfPath(encode: string -> string, ip: Option<string>)
    requires IsUrlSafe(encode)
    ensures ParsePath(Path(encode, ip)) == Some(if ip.Some? then ip.value else "")
  {
    if ip.Some? && ip.value != "" {
      var e := encode(ip.value);
      var p := BaseUrl + "/" + e;
      assert p[..|BaseUrl| + 1] == BaseUrl + "/";
      assert p[|BaseUrl| + 1..] == e;
    }
  }

  /**
   * The URL reads back as what it was built from: the path decodes to the
   * address (empty when there was none) and the query to the map's entries.
   */
  lemma UrlRoundTrip(encode: string -> string, ip: Option<string>, params: map<string, string>,
                     order: seq<string>)
    requires IsUrlSafe(encode) && IsIterationOrder(order, params)
    ensures ParseUrl(Url(encode, ip, params, order))
            == Some(Request(if ip.Some? then ip.value else "", Entries(params, order)))
  {
    PathHasNoQuery(encode, ip);
    ParsePathOfPath(encode, ip);
    ParseUrlOfParts(Path(encode, ip), encode, Entries(params, order));
  }

  /** A path without `?` followed by the query of some entries reads back as the path's address and those entries. */
  lemma ParseUrlOfParts(path: string, encode: string -> string, entries: seq<(string, string)>)
    requires '?' !in path && ParsePath(path).Some? && IsUrlSafe(encode)
    ensures ParseUrl(path + Query(encode, entries)) == Some(Request(ParsePath(path).value, entries))
  {
    if entries != [] {
      var q := Join(Items(encode, entries), '&');
      QueryParses(encode, entries);
      ParseUrlAtQuery(path, q);
      assert path + Query(encode, entries) == path + ['?'] + q;
    } else {
      assert path + Query(encode, entries) == path;
    }
  }

  /** The items joined by `&` parse back into the entries. */
  lemma QueryParses(encode: string -> string, entries: seq<(string, string)>)
    requires IsUrlSafe(encode) && entries != []
    ensures ParseQuery(Join(Items(encode, entries), '&')) == Some(entries)
  {
    ItemsHaveNoAmpersand(encode, entries);
    SplitJoin(Items(encode, entries), '&');
    ParseItemsOfItems(encode, entries);
  }

  /** A URL splits at its first `?`, the one right after a path without any. */
  lemma ParseUrlAtQuery(path: string, query: string)
    requires '?' !in path && ParsePath(path).Some? && ParseQuery(query).Some?
    ensures ParseUrl(path + ['?'] + query) == Some(Request(ParsePath(path).value, ParseQuery(query).value))
  {
    var url := path + ['?'] + query;
    IndexOfAfter(path, '?', query);
    assert url[..|path|] == path;
    assert url[|path| + 1..] == query;
  }

  /**
   * Whatever order the map iterates in, the decoded query is exactly the
   * parameter set: each parameter once, and nothing else.
   */
  lemma QueryDecodesToParams(encode: string -> string, ip: Option<string>, p: map<string, string>,
                             order: seq<string>)
    requires IsUrlSafe(encode) && IsIterationOrder(order, p)
    ensures var r := ParseUrl(Url(encode, ip, p, order));
      && r.Some?
      && |r.value.params| == |p|
      && (forall e :: e in r.value.params <==> e.0 in p && p[e.0] == e.1)
  {
    var entries := Entries(p, order);
    UrlRoundTrip(encode, ip, p, order);
    IterationOrderLength(order, p);
    forall e ensures e in entries <==> e.0 in p && p[e.0] == e.1 {
      if e.0 in p && p[e.0] == e.1 {
        var j :| 0 <= j < |order| && order[j] == e.0;
        assert entries[j] == e;
      }
    }
  }

  /**
   * End to end: the URL `buildUrl` makes reads back as the address and exactly
   * the arguments the presence rules admit, each once, whatever order the map
   * iterates in (for any URL-safe encoder, the client's among them).
   */
  lemma BuiltUrlCarriesArguments(encode: string -> string, client: Client, ip: Option<string>,
                                 format: Option<string>, callback: Option<string>, order: seq<string>)
    requires IsUrlSafe(encode) && IsIterationOrder(order, Params(client.apiKey, format, callback))
    ensures var p := Params(client.apiKey, format, callback);
            var r := ParseUrl(Url(encode, ip, p, order));
      && r.Some?
      && r.value.ip == (if ip.Some? then ip.value else "")
      && |r.value.params| == |p|
      && (forall k, v :: (k, v) in r.value.params <==> ParamEntry(client.apiKey, format, callback, k, v))
  {
    var p := Params(client.apiKey, format, callback);
    UrlRoundTrip(encode, ip, p, order);
    QueryDecodesToParams(encode, ip, p, order);
    var r := ParseUrl(Url(encode, ip, p, order));
    forall k, v ensures (k, v) in r.value.params <==> ParamEntry(client.apiKey, format, callback, k, v) {
      ParamEntryInParams(client.apiKey, format, callback, k, v);
    }
  }

  /** The argument pairs the presence rules admit. */
  predicate ParamEntry(apiKey: Option<string>, format: Option<string>, callback: Option<string>,
                       k: string, v: string) {
    || (k == KeyParam && apiKey.Some? && apiKey.value != "" && v == apiKey.value)
    || (k == FormatParam && format.Some? && v == format.value)
    || (k == CallbackParam && callback.Some? && v == callback.value)
  }

  lemma ParamEntryInParams(apiKey: Option<string>, format: Option<string>, callback: Option<string>,
                           k: string, v: string)
    ensures var p := Params(apiKey, format, callback);
      k in p && p[k] == v <==> ParamEntry(apiKey, format, callback, k, v)
  {
    ParamsPresence(apiKey, format, callback);
  }

  // ---------------------------------------------------------------------------
  // lookup
  // ---------------------------------------------------------------------------

  /** The JSON values the parser may produce. */
  datatype Json =
    | JNull
    | JBool(b: bool)
    | JNumber(literal: string)
    | JString(s: string)
    | JArray(elements: seq<Json>)
    | JObject(fields: map<string, Json>)

  /** What the transport delivers for a request. */
  datatype Exchange =
    | Response(status: int, body: string)
    | IoFailure(reason: string)
    | Interrupted

  /** What the JSON library makes of a body read as a map. */
  datatype Parsed =
    | ParsedObject(fields: map<string, Json>)
    | ParsedNull
    | Malformed(reason: string)

  /** The exception that a `RuntimeException` wraps. */
  datatype Cause =
    | TransportIo(reason: string)
    | TransportInterrupted
    | Undecodable(reason: string)

  datatype Error =
    | IllegalArgument(message: string)
    | Unreachable(message: string, cause: Cause)

  datatype Value =
    | JsonFields(fields: map<string, Json>)
    | NullValue
    | RawBody(body: string)

  datatype Outcome = Returned(value: Value) | Threw(error: Error)

  /** A call's outcome, with the URLs it sent requests to. */
  datatype Run = Run(outcome: Outcome, requests: seq<string>)

  /** The argument check: a callback is allowed only with the format `jsonp`. */
  predicate CallbackPermitted(format: Option<string>, callback: Option<string>) {
    callback.None? || format == Some(JsonpFormat)
  }

  /** The formats whose body is parsed as JSON: none given, or exactly `json`. */
  predicate DecodesJson(format: Option<string>) {
    format.None? || format == Some(JsonFormat)
  }

  /** The body of the `try`, after the request is made. */
  function Respond(format: Option<string>, exchange: Exchange, parse: string -> Parsed): (r: Outcome)
    ensures r.Threw? ==> r.error.Unreachable? && r.error.message == ApiUnreachable
    ensures exchange.Response? && !DecodesJson(format) ==> r == Returned(RawBody(exchange.body))
    ensures !exchange.Response? ==> r.Threw?
  {
    match exchange
    case IoFailure(reason) => Threw(Unreachable(ApiUnreachable, TransportIo(reason)))
    case Interrupted => Threw(Unreachable(ApiUnreachable, TransportInterrupted))
    case Response(_, body) =>
      if DecodesJson(format) then
        match parse(body)
        case ParsedObject(fields) => Returned(JsonFields(fields))
        case ParsedNull => Returned(NullValue)
        case Malformed(reason) => Threw(Unreachable(ApiUnreachable, Undecodable(reason)))
      else
        Returned(RawBody(body))
  }

  /** `lookup`, with the map's iteration order, the transport and the parser as parameters. */
  function Lookup(client: Client, ip: Option<string>, format: Option<string>, callback: Option<string>,
                  order: seq<string>, send: string -> Exchange, parse: string -> Parsed): (run: Run)
    requires IsIterationOrder(order, Params(client.apiKey, format, callback))
    ensures |run.requests| <= 1
    ensures run.requests == [] <==> !CallbackPermitted(format, callback)
    ensures run.outcome.Threw? && run.outcome.error.IllegalArgument? <==> !CallbackPermitted(format, callback)
  {
    if !CallbackPermitted(format, callback) then
      Run(Threw(IllegalArgument(CallbackMisuse)), [])
    else
      var url := Url(FormEncoding.Encode, ip, Params(client.apiKey, format, callback), order);
      Run(Respond(format, send(url), parse), [url])
  }

  // ---------------------------------------------------------------------------
  // Properties of lookup
  // ---------------------------------------------------------------------------

  /**
   * The argument error comes exactly when a callback is given (even an empty
   * one) and the format is not exactly `jsonp`; it is raised before any
   * request, and it is never the wrapped transport error.
   */
  lemma LookupArgumentCheck(client: Client, ip: Option<string>, format: Option<string>,
                            callback: Option<string>, order: seq<string>,
                            send: string -> Exchange, parse: string -> Parsed)
    requires IsIterationOrder(order, Params(client.apiKey, format, callback))
    ensures var run := Lookup(client, ip, format, callback, order, send, parse);
      && (run.outcome.Threw? && run.outcome.error.IllegalArgument?
          <==> callback.Some? && format != Some(JsonpFormat))
      && (run.requests == [] <==> callback.Some? && format != Some(JsonpFormat))
      && (run.outcome.Threw? && run.outcome.error.IllegalArgument?
          ==> run == Run(Threw(IllegalArgument(CallbackMisuse)), []))
  {
  }

  /** A rejected call does not depend on the transport or the parser at all. */
  lemma RejectedLookupIgnoresTransport(client: Client, ip: Option<string>, format: Option<string>,
                                       callback: Option<string>, order: seq<string>,
                                       send1: string -> Exchange, parse1: string -> Parsed,
                                       send2: string -> Exchange, parse2: string -> Parsed)
    requires IsIterationOrder(order, Params(client.apiKey, format, callback))
    requires !CallbackPermitted(format, callback)
    ensures Lookup(client, ip, format, callback, order, send1, parse1)
            == Lookup(client, ip, format, callback, order, send2, parse2)
  {
  }

  /** An accepted call sends exactly one request, to the URL `buildUrl` makes. */
  lemma AcceptedLookupSendsUrl(client: Client, ip: Option<string>, format: Option<string>,
                               callback: Option<string>, order: seq<string>,
                               send: string -> Exchange, parse: string -> Parsed)
    requires IsIterationOrder(order, Params(client.apiKey, format, callback))
    requires CallbackPermitted(format, callback)
    ensures Lookup(client, ip, format, callback, order, send, parse).requests
            == [Url(FormEncoding.Encode, ip, Params(client.apiKey, format, callback), order)]
  {
  }

  /**
   * With a response in hand, no format or exactly `json` returns what the
   * parser made of the body; every other format returns the body unchanged.
   */
  lemma LookupDispatch(client: Client, ip: Option<string>, format: Option<string>,
                       callback: Option<string>, order: seq<string>,
                       send: string -> Exchange, parse: string -> Parsed)
    requires IsIterationOrder(order, Params(client.apiKey, format, callback))
    requires CallbackPermitted(format, callback)
    requires send(Url(FormEncoding.Encode, ip, Params(client.apiKey, format, callback), order)).Response?
    ensures var body := send(Url(FormEncoding.Encode, ip, Params(client.apiKey, format, callback), order)).body;
            var outcome := Lookup(client, ip, format, callback, order, send, parse).outcome;
      && (!DecodesJson(format) ==> outcome == Returned(RawBody(body)))
      && (DecodesJson(format) && parse(body).ParsedObject? ==>
            outcome == Returned(JsonFields(parse(body).fields)))
      && (DecodesJson(format) && parse(body).ParsedNull? ==> outcome == Returned(NullValue))
      && (DecodesJson(format) && parse(body).Malformed? ==>
            outcome == Threw(Unreachable(ApiUnreachable, Undecodable(parse(body).reason))))
  {
  }

  /** The status code is never consulted: responses with the same body give the same result. */
  lemma LookupIgnoresStatus(client: Client, ip: Option<string>, format: Option<string>,
                            callback: Option<string>, order: seq<string>,
                            send1: string -> Exchange, send2: string -> Exchange,
                            parse: string -> Parsed)
    requires IsIterationOrder(order, Params(client.apiKey, format, callback))
    requires var url := Url(FormEncoding.Encode, ip, Params(client.apiKey, format, callback), order);
      send1(url).Response? && send2(url).Response? && send1(url).body == send2(url).body
    ensures Lookup(client, ip, format, callback, order, send1, parse)
            == Lookup(client, ip, format, callback, order, send2, parse)
  {
    var url := Url(FormEncoding.Encode, ip, Params(client.apiKey, format, callback), order);
    RespondIgnoresStatus(format, send1(url), send2(url), parse);
  }

  /** Two responses with the same body get the same answer, whatever their status. */
  lemma RespondIgnoresStatus(format: Option<string>, e1: Exchange, e2: Exchange, parse: string -> Parsed)
    requires e1.Response? && e2.Response? && e1.body == e2.body
    ensures Respond(format, e1, parse) == Respond(format, e2, parse)
  {
  }

  /** Raw formats never run the parser. */
  lemma RawFormatIgnoresParser(client: Client, ip: Option<string>, format: Option<string>,
                               callback: Option<string>, order: seq<string>,
                               send: string -> Exchange, parse1: string -> Parsed,
                               parse2: string -> Parsed)
    requires IsIterationOrder(order, Params(client.apiKey, format, callback))
    requires !DecodesJson(format)
    ensures Lookup(client, ip, format, callback, order, send, parse1)
            == Lookup(client, ip, format, callback, order, send, parse2)
  {
  }

  /**
   * Every failure inside the `try` is the one wrapped error with the message
   * "Unable to reach Ip2Geo API": it comes exactly when the call passed the
   * argument check and the transport failed or the JSON could not be decoded.
   */
  lemma LookupFailuresCollapse(client: Client, ip: Option<string>, format: Option<string>,
                               callback: Option<string>, order: seq<string>,
                               send: string -> Exchange, parse: string -> Parsed)
    requires IsIterationOrder(order, Params(client.apiKey, format, callback))
    ensures var url := Url(FormEncoding.Encode, ip, Params(client.apiKey, format, callback), order);
            var outcome := Lookup(client, ip, format, callback, order, send, parse).outcome;
      && (outcome.Threw? && outcome.error.Unreachable? <==>
            && CallbackPermitted(format, callback)
            && (!send(url).Response? || (DecodesJson(format) && parse(send(url).body).Malformed?)))
      && (outcome.Threw? && outcome.error.Unreachable? ==> outcome.error.message == ApiUnreachable)
      && (outcome.Threw? ==> outcome.error.IllegalArgument? || outcome.error.Unreachable?)
  {
  }
}
