/**
  The request paths the client builds, and the URL they are joined into.

  A path is read back here by splitting it on '/' and percent-decoding the table segment;
  the theorems say how much of the route survives that.
*/
module Routes {
  import opened Values
  import opened Utf8
  import opened PercentEscape

  datatype Route =
    | Tables
    | CreateTable
    | Txn
    | Query
    | Schema
    | Compact
    | DropTable(table: seq<byte>)
    | Count(table: seq<byte>)
    | CompactTable(table: seq<byte>)
    | SchemaFor(table: seq<byte>)

  /** The routes that name a table. */
  predicate NamesTable(route: Route) {
    route.DropTable? || route.Count? || route.CompactTable? || route.SchemaFor?
  }

  /** The path of a route, as the client writes it. */
  ghost function Path(route: Route): string {
    match route
    case Tables => "/tables"
    case CreateTable => "/kit/create_table"
    case Txn => "/kit/txn"
    case Query => "/kit/query"
    case Schema => "/kit/schema"
    case Compact => "/compact"
    case DropTable(table) => "/tables/" + Escaped(table)
    case Count(table) => "/tables/" + Escaped(table) + "/count"
    case CompactTable(table) => "/tables/" + Escaped(table) + "/compact"
    case SchemaFor(table) => "/kit/schema/" + Escaped(table)
  }

  method DropTablePath(name: seq<byte>) returns (path: string)
    ensures path == Path(DropTable(name)) == "/tables/" + Escaped(name)
  {
    var seg := UrlPathEscape(name);
    return "/tables/" + seg;
  }

  method CountPath(table: seq<byte>) returns (path: string)
    ensures path == Path(Count(table)) == "/tables/" + Escaped(table) + "/count"
  {
    var seg := UrlPathEscape(table);
    return "/tables/" + seg + "/count";
  }

  method SchemaForPath(table: seq<byte>) returns (path: string)
    ensures path == Path(SchemaFor(table)) == "/kit/schema/" + Escaped(table)
  {
    var seg := UrlPathEscape(table);
    return "/kit/schema/" + seg;
  }

  method CompactTablePath(table: seq<byte>) returns (path: string)
    ensures path == Path(CompactTable(table)) == "/tables/" + Escaped(table) + "/compact"
  {
    var seg := UrlPathEscape(table);
    return "/tables/" + seg + "/compact";
  }

  // ---- Splitting a path ----

  function Split(p: string): (segs: seq<string>)
    ensures |segs| >= 1
  {
    if p == "" then [""]
    else if p[0] == '/' then [""] + Split(p[1..])
    else [[p[0]] + Split(p[1..])[0]] + Split(p[1..])[1..]
  }

  lemma {:induction false} SplitAt(a: string, b: string)
    requires '/' !in a
    ensures Split(a + "/" + b) == [a] + Split(b)
  {
    var p := a + "/" + b;
    if a == "" {
      assert p[1..] == b;
    } else {
      assert a[0] in a;
      assert p[1..] == a[1..] + "/" + b;
      SplitAt(a[1..], b);
      assert ([a[1..]] + Split(b))[1..] == Split(b);
      assert a == [a[0]] + a[1..];
    }
  }

  lemma {:induction false} SplitPlain(a: string)
    requires '/' !in a
    ensures Split(a) == [a]
  {
    if a != "" {
      assert a[0] in a;
      SplitPlain(a[1..]);
      assert a == [a[0]] + a[1..];
    }
  }

  lemma Split2(a: string, b: string)
    requires '/' !in a && '/' !in b
    ensures Split("/" + a + "/" + b) == ["", a, b]
  {
    assert "/" + a + "/" + b == "" + "/" + (a + "/" + b);
    SplitAt("", a + "/" + b);
    SplitAt(a, b);
    SplitPlain(b);
  }

  lemma Split3(a: string, b: string, c: string)
    requires '/' !in a && '/' !in b && '/' !in c
    ensures Split("/" + a + "/" + b + "/" + c) == ["", a, b, c]
  {
    var rest := b + "/" + c;
    assert "/" + a + "/" + b + "/" + c == "" + "/" + (a + "/" + rest);
    SplitAt("", a + "/" + rest);
    SplitAt(a, rest);
    SplitAt(b, c);
    SplitPlain(c);
  }

  /** The segments of a route's path, the leading empty one included. */
  ghost function Segments(route: Route): seq<string> {
    match route
    case Tables => ["", "tables"]
    case CreateTable => ["", "kit", "create_table"]
    case Txn => ["", "kit", "txn"]
    case Query => ["", "kit", "query"]
    case Schema => ["", "kit", "schema"]
    case Compact => ["", "compact"]
    case DropTable(table) => ["", "tables", Escaped(table)]
    case Count(table) => ["", "tables", Escaped(table), "count"]
    case CompactTable(table) => ["", "tables", Escaped(table), "compact"]
    case SchemaFor(table) => ["", "kit", "schema", Escaped(table)]
  }

  lemma SplitRootPath(name: string)
    requires '/' !in name
    ensures Split("/" + name) == ["", name]
  {
    hide Split;
    assert "/" + name == "" + "/" + name;
    SplitAt("", name);
    SplitPlain(name);
  }

  lemma SplitFixedPath(route: Route)
    requires !NamesTable(route)
    ensures Split(Path(route)) == Segments(route)
  {
    hide Split;
    if route.Tables? || route.Compact? {
      assert "/" + "tables" == "/tables" && "/" + "compact" == "/compact";
      SplitRootPath(if route.Tables? then "tables" else "compact");
    } else {
      KitPaths();
      SplitKitPath(match route
                   case CreateTable => "create_table"
                   case Txn => "txn"
                   case Query => "query"
                   case _ => "schema");
    }
  }

  lemma KitPaths()
    ensures "/kit/" + "create_table" == "/kit/create_table" && "/kit/" + "txn" == "/kit/txn"
    ensures "/kit/" + "query" == "/kit/query" && "/kit/" + "schema" == "/kit/schema"
  {
  }

  lemma SplitKitPath(name: string)
    requires '/' !in name
    ensures Split("/kit/" + name) == ["", "kit", name]
  {
    hide Split;
    assert "/kit/" == "/" + "kit" + "/";
    Split2("kit", name);
  }

  lemma SplitTablePath(name: string, action: string)
    requires '/' !in name && '/' !in action
    ensures Split("/tables/" + name) == ["", "tables", name]
    ensures Split("/tables/" + name + "/" + action) == ["", "tables", name, action]
  {
    hide Split;
    assert "/tables/" == "/" + "tables" + "/";
    Split2("tables", name);
    Split3("tables", name, action);
  }

  lemma SplitSchemaPath(name: string)
    requires '/' !in name
    ensures Split("/kit/schema/" + name) == ["", "kit", "schema", name]
  {
    hide Split;
    assert "/kit/schema/" == "/" + "kit" + "/" + "schema" + "/";
    Split3("kit", "schema", name);
  }

  /** A table name never adds or removes a path segment. */
  lemma SplitPath(route: Route)
    ensures Split(Path(route)) == Segments(route)
  {
    hide Escaped, Split;
    if NamesTable(route) {
      var name := Escaped(route.table);
      EscapedHasNoSlash(route.table);
      SplitTablePath(name, "count");
      SplitTablePath(name, "compact");
      SplitSchemaPath(name);
      assert "/tables/" + name + "/count" == "/tables/" + name + "/" + "count";
      assert "/tables/" + name + "/compact" == "/tables/" + name + "/" + "compact";
    } else {
      SplitFixedPath(route);
    }
  }

  lemma EscapedHasNoSlash(table: seq<byte>)
    ensures '/' !in Escaped(table)
  {
    NoSlash(Scrub(table));
  }

  // ---- Reading a path back ----

  function Named(make: seq<byte> -> Route, seg: string): Option<Route> {
    match PercentDecode(seg)
    case Some(name) => Some(make(name))
    case None => None
  }

  function ParseSegments(segs: seq<string>): Option<Route> {
    if |segs| < 2 || segs[0] != "" then None
    else if segs[1..] == ["tables"] then Some(Tables)
    else if segs[1..] == ["compact"] then Some(Compact)
    else if segs[1..] == ["kit", "create_table"] then Some(CreateTable)
    else if segs[1..] == ["kit", "txn"] then Some(Txn)
    else if segs[1..] == ["kit", "query"] then Some(Query)
    else if segs[1..] == ["kit", "schema"] then Some(Schema)
    else if segs[1] == "tables" && |segs| == 3 then Named(n => DropTable(n), segs[2])
    else if segs[1] == "tables" && |segs| == 4 && segs[3] == "count" then Named(n => Count(n), segs[2])
    else if segs[1] == "tables" && |segs| == 4 && segs[3] == "compact" then Named(n => CompactTable(n), segs[2])
    else if segs[1] == "kit" && |segs| == 4 && segs[2] == "schema" then Named(n => SchemaFor(n), segs[3])
    else None
  }

  function ParseRoute(path: string): Option<Route> {
    ParseSegments(Split(path))
  }

  /** A route whose table name has been scrubbed. */
  ghost function ScrubRoute(route: Route): Route {
    match route
    case DropTable(table) => DropTable(Scrub(table))
    case Count(table) => Count(Scrub(table))
    case CompactTable(table) => CompactTable(Scrub(table))
    case SchemaFor(table) => SchemaFor(Scrub(table))
    case _ => route
  }

  /** Reading a path back recovers the route and the scrubbed name, for every name there is:
      empty, with slashes, with percent signs, or not UTF-8 at all. */
  lemma PathRoundTrip(route: Route)
    ensures ParseRoute(Path(route)) == Some(ScrubRoute(route))
  {
    SplitPath(route);
    hide Escaped, EscapeBytes, Scrub, Split, PercentDecode;
    assert "tables" != "kit" && "count" != "compact";
    if NamesTable(route) {
      EscapeRoundTrip(route.table);
    }
  }

  /** Two routes share a path exactly when they are the same route on names that scrub to
      the same text; in particular no two routes of different kinds ever do. */
  lemma PathCollides(a: Route, b: Route)
    ensures Path(a) == Path(b) <==> ScrubRoute(a) == ScrubRoute(b)
  {
    PathRoundTrip(a);
    PathRoundTrip(b);
    if ScrubRoute(a) == ScrubRoute(b) && NamesTable(a) {
      EscapeCollides(a.table, b.table);
    }
  }

  ghost predicate NameIsText(route: Route) {
    NamesTable(route) ==> WellFormed(route.table)
  }

  /** On names that are text, the path determines the route and the name. */
  lemma {:induction false} PathInjective(a: Route, b: Route)
    requires NameIsText(a) && NameIsText(b)
    ensures Path(a) == Path(b) <==> a == b
  {
    PathCollides(a, b);
    if NamesTable(a) {
      ScrubFixesExactlyText(a.table);
    }
    if NamesTable(b) {
      ScrubFixesExactlyText(b.table);
    }
  }

  // ---- Joining the path to the base URL ----

  const DEFAULT_BASE_URL := "http://127.0.0.1:8453"

  function TrimRight(s: string): string {
    if s != "" && s[|s| - 1] == '/' then TrimRight(s[..|s| - 1]) else s
  }

  function TrimLeft(s: string): string {
    if s != "" && s[0] == '/' then TrimLeft(s[1..]) else s
  }

  /** The base URL a new client keeps. */
  function BaseURL(url: string): string {
    TrimRight(if url == "" then DEFAULT_BASE_URL else url)
  }

  function RequestURL(base: string, path: string): string {
    base + "/" + TrimLeft(path)
  }

  /** `t` is `s` without its trailing slashes, all of them and nothing else. */
  ghost predicate IsTrimmed(t: string, s: string) {
    && t <= s
    && (t == "" || t[|t| - 1] != '/')
    && forall i | |t| <= i < |s| :: s[i] == '/'
  }

  lemma {:induction false} TrimRightMeaning(s: string, t: string)
    ensures t == TrimRight(s) <==> IsTrimmed(t, s)
  {
    if s != "" && s[|s| - 1] == '/' {
      var front := s[..|s| - 1];
      TrimRightMeaning(front, t);
      TrimRightMeaning(front, TrimRight(front));
      if IsTrimmed(t, s) {
        assert t != s;
        assert t <= front;
      }
    } else if IsTrimmed(t, s) {
      assert s != "" ==> |t| == |s|;
    }
  }

  /** One more slash on the configured URL makes no difference, unless the URL was empty:
      then it stops standing for the default. */
  lemma TrailingSlashIgnored(url: string)
    ensures BaseURL(url + "/") == BaseURL(url) <==> url != ""
  {
    assert (url + "/")[..|url|] == url;
    assert TrimRight(DEFAULT_BASE_URL) == DEFAULT_BASE_URL;
    assert TrimRight(url + "/") == TrimRight(url);
  }

  lemma PathStart(route: Route)
    ensures |Path(route)| >= 2 && Path(route)[0] == '/' && Path(route)[1] != '/'
  {
    hide Escaped;
  }

  lemma JoinOnce(base: string, path: string)
    requires |path| >= 2 && path[0] == '/' && path[1] != '/'
    ensures RequestURL(base, path) == base + path
    ensures RequestURL(base, path)[|base|..] == path
  {
    assert TrimLeft(path) == path[1..];
    assert "/" + path[1..] == path;
  }

  /** The endpoints that name no table. */
  lemma EndpointURLs(url: string)
    ensures RequestURL(BaseURL(url), "/kit/txn") == BaseURL(url) + "/kit/txn" == BaseURL(url) + Path(Txn)
    ensures RequestURL(BaseURL(url), "/kit/query") == BaseURL(url) + "/kit/query" == BaseURL(url) + Path(Query)
    ensures Path(Tables) == "/tables" && Path(CreateTable) == "/kit/create_table"
    ensures Path(Schema) == "/kit/schema" && Path(Compact) == "/compact"
  {
    JoinOnce(BaseURL(url), "/kit/txn");
    JoinOnce(BaseURL(url), "/kit/query");
  }

  /** The join puts exactly one slash between base and path: the URL is the configured URL less
      its trailing slashes, followed by the path itself, so it determines the path. */
  lemma JoinIsConcatenation(url: string, route: Route)
    ensures IsTrimmed(BaseURL(url), if url == "" then "http://127.0.0.1:8453" else url)
    ensures RequestURL(BaseURL(url), Path(route)) == BaseURL(url) + Path(route)
    ensures ParseRoute(RequestURL(BaseURL(url), Path(route))[|BaseURL(url)|..]) == Some(ScrubRoute(route))
  {
    var configured := if url == "" then DEFAULT_BASE_URL else url;
    TrimRightMeaning(configured, BaseURL(url));
    assert IsTrimmed(BaseURL(url), configured);
    hide IsTrimmed;
    hide Path, RequestURL, BaseURL, ParseRoute, ScrubRoute;
    PathStart(route);
    JoinOnce(BaseURL(url), Path(route));
    PathRoundTrip(route);
  }
}
