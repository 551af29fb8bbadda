/** Route matchers, the route table and its order, and the load-time checks on
    routes. Regular expressions, Unicode case mapping and the upstream
    allow-list are parameters. */
module Routing {
  import opened Wrappers
  import opened Text
  import opened PathNormalize

  /** What the library functions do. */
  datatype Library = Library(
    upper: string -> string,
    regexCompiles: string -> bool,
    regexMatches: (string, string) -> bool,
    baseUrlAllowed: string -> bool)

  datatype HeaderMatch = HeaderMatch(name: string, value: string, regex: bool)
  datatype QueryMatch = QueryMatch(name: string, value: string)
  datatype MatchRule = MatchRule(method_: string, path: string, headers: seq<HeaderMatch>, query: seq<QueryMatch>)
  datatype Route = Route(name: string, rule: MatchRule)
  datatype Request = Request(method_: string, path: string, headers: seq<(string, string)>, query: seq<(string, string)>)

  datatype Matcher =
    | Exact(method_: string, path: string)
    | Prefix(method_: string, prefix: string)
    | Regex(method_: string, pattern: string)

  datatype CompileError = InvalidRegex(pattern: string) | NotAbsolute(path: string)

  function TrimEndSlashes(s: string): string {
    if s != "" && s[|s| - 1] == '/' then TrimEndSlashes(s[..|s| - 1]) else s
  }

  function Compile(l: Library, rule: MatchRule): Result<Matcher, CompileError> {
    var raw := rule.path;
    var m := l.upper(rule.method_);
    if raw != "" && raw[0] == '~' then
      var pattern := Trim(raw[1..]);
      if l.regexCompiles(pattern) then Ok(Regex(m, pattern)) else Err(InvalidRegex(pattern))
    else if !IsAbsolute(raw) then Err(NotAbsolute(raw))
    else if |raw| > 1 && raw[|raw| - 1] == '/' then Ok(Prefix(m, TrimEndSlashes(raw)))
    else Ok(Exact(m, Normalize(raw)))
  }

  predicate PathMatches(l: Library, m: Matcher, path: string) {
    match m
    case Exact(_, p) => path == p
    case Prefix(_, prefix) => path == prefix || prefix + "/" <= path
    case Regex(_, pattern) => l.regexMatches(pattern, path)
  }

  predicate MethodMatches(l: Library, m: Matcher, method_: string) {
    m.method_ == l.upper(method_) || m.method_ == "ANY"
  }

  function AsciiLower(s: string): string {
    if s == "" then ""
    else [if 'A' <= s[0] <= 'Z' then (s[0] as int + 32) as char else s[0]] + AsciiLower(s[1..])
  }

  predicate HeaderMatches(l: Library, want: HeaderMatch, have: (string, string)) {
    && AsciiLower(have.0) == AsciiLower(want.name)
    && if want.regex then l.regexCompiles(want.value) && l.regexMatches(want.value, have.1) else have.1 == want.value
  }

  predicate HeadersMatch(l: Library, want: seq<HeaderMatch>, have: seq<(string, string)>) {
    forall w :: w in want ==> exists h :: h in have && HeaderMatches(l, w, h)
  }

  predicate QueryMatches(want: seq<QueryMatch>, have: seq<(string, string)>) {
    forall w :: w in want ==> (w.name, w.value) in have
  }

  predicate FullMatch(l: Library, m: Matcher, rule: MatchRule, r: Request) {
    && MethodMatches(l, m, r.method_)
    && PathMatches(l, m, r.path)
    && HeadersMatch(l, rule.headers, r.headers)
    && QueryMatches(rule.query, r.query)
  }

  // What the texts of a rule mean.

  lemma {:induction false} TrimsSlashes(p: string, slashes: string)
    requires p != "" ==> p[|p| - 1] != '/'
    requires forall i :: 0 <= i < |slashes| ==> slashes[i] == '/'
    ensures TrimEndSlashes(p + slashes) == p
  {
    if slashes == "" {
      assert p + slashes == p;
    } else {
      var n := |slashes| - 1;
      assert (p + slashes)[..|p| + n] == p + slashes[..n];
      TrimsSlashes(p, slashes[..n]);
    }
  }

  /** A tilde and white space introduce a regular expression. */
  lemma TildeIsRegex(l: Library, rule: MatchRule, before: string, pattern: string, after: string)
    requires AllWhite(before) && Trimmed(pattern) && AllWhite(after)
    requires rule.path == "~" + (before + pattern + after)
    ensures Compile(l, rule) ==
      if l.regexCompiles(pattern) then Ok(Regex(l.upper(rule.method_), pattern)) else Err(InvalidRegex(pattern))
  {
    TrimTakesOff(before, pattern, after);
    assert rule.path[1..] == before + pattern + after;
  }

  /** Slashes at the end of an absolute path make it a prefix without them; the root
      alone is exact, and several slashes alone are the empty prefix. */
  lemma SlashedIsPrefix(l: Library, rule: MatchRule, p: string, slashes: string)
    requires p != "" ==> IsAbsolute(p) && p[|p| - 1] != '/'
    requires slashes != "" && forall i :: 0 <= i < |slashes| ==> slashes[i] == '/'
    requires rule.path == p + slashes
    ensures Compile(l, rule) ==
      if rule.path == "/" then Ok(Exact(l.upper(rule.method_), "/")) else Ok(Prefix(l.upper(rule.method_), p))
  {
    hide Normalize, TrimEndSlashes;
    var raw := rule.path;
    TrimsSlashes(p, slashes);
    NormalizeRoot();
    assert raw[|raw| - 1] == slashes[|slashes| - 1];
    assert raw[0] == if p == "" then slashes[0] else p[0];
    assert |raw| == 1 ==> raw == "/";
  }

  lemma NormalizeRoot()
    ensures Normalize("/") == "/"
  {
    SplitCons('/', "", '/');
    assert ['/'] + "" == "/";
    assert Split("/", '/') == ["", ""];
    assert Resolve([], ["", ""]) == Resolve([], [""]) == [] by {
      assert ["", ""][1..] == [""] && [""][1..] == [];
    }
  }

  /** Anything else that does not start at the root is refused. */
  lemma RelativeIsRefused(l: Library, rule: MatchRule)
    requires rule.path != "" ==> rule.path[0] != '~' && rule.path[0] != '/'
    ensures Compile(l, rule) == Err(NotAbsolute(rule.path))
  {
  }

  predicate IsLetter(c: char) {
    'A' <= c <= 'Z' || 'a' <= c <= 'z'
  }

  /** The same text, but for the case of ASCII letters. */
  ghost predicate SameButCase(s: string, t: string) {
    |s| == |t| && forall i :: 0 <= i < |s| ==>
      s[i] == t[i] ||
      (IsLetter(s[i]) && IsLetter(t[i]) && (s[i] as int - t[i] as int == 32 || t[i] as int - s[i] as int == 32))
  }

  lemma {:induction false} LowerIgnoresCase(s: string, t: string)
    ensures AsciiLower(s) == AsciiLower(t) <==> SameButCase(s, t)
    decreases |s|
  {
    if s != "" && t != "" {
      LowerIgnoresCase(s[1..], t[1..]);
      assert AsciiLower(s)[1..] == AsciiLower(s[1..]) && AsciiLower(t)[1..] == AsciiLower(t[1..]);
      assert AsciiLower(s) == AsciiLower(t) <==> AsciiLower(s)[0] == AsciiLower(t)[0] && AsciiLower(s[1..]) == AsciiLower(t[1..]);
      assert forall i :: 1 <= i < |s| ==> s[i] == s[1..][i - 1];
      assert forall i :: 1 <= i < |t| ==> t[i] == t[1..][i - 1];
      assert forall i :: 0 <= i < |s[1..]| ==> s[1..][i] == s[i + 1];
      assert forall i :: 0 <= i < |t[1..]| ==> t[1..][i] == t[i + 1];
    }
  }

  /** When a request meets a rule with any conditions: it meets the rule without them,
      every header condition by a header of that name in any case, and every query
      condition to the letter. */
  lemma ConditionsAllMet(l: Library, m: Matcher, rule: MatchRule, r: Request)
    ensures FullMatch(l, m, rule, r) <==>
      && FullMatch(l, m, rule.(headers := [], query := []), r)
      && (forall i :: 0 <= i < |rule.headers| ==> HeaderMet(l, rule.headers[i], r.headers))
      && (forall i :: 0 <= i < |rule.query| ==> QueryMet(rule.query[i], r.query))
  {
    HeadersAllMet(l, rule.headers, r.headers);
    QueryAllMet(rule.query, r.query);
    HeadersAllMet(l, [], r.headers);
    QueryAllMet([], r.query);
  }

  ghost predicate Meets(l: Library, want: HeaderMatch, have: (string, string)) {
    SameButCase(want.name, have.0) &&
    if want.regex then l.regexCompiles(want.value) && l.regexMatches(want.value, have.1) else want.value == have.1
  }

  /** Some header meets the condition. */
  ghost predicate HeaderMet(l: Library, want: HeaderMatch, have: seq<(string, string)>) {
    exists k :: 0 <= k < |have| && Meets(l, want, have[k])
  }

  lemma HeadersAllMet(l: Library, want: seq<HeaderMatch>, have: seq<(string, string)>)
    ensures HeadersMatch(l, want, have) <==>
      forall i :: 0 <= i < |want| ==> HeaderMet(l, want[i], have)
  {
    forall w: HeaderMatch, h: (string, string)
      ensures HeaderMatches(l, w, h) <==> Meets(l, w, h)
    {
      LowerIgnoresCase(w.name, h.0);
    }
    if HeadersMatch(l, want, have) {
      forall i | 0 <= i < |want|
        ensures HeaderMet(l, want[i], have)
      {
        assert want[i] in want;
        var h :| h in have && HeaderMatches(l, want[i], h);
        var k :| 0 <= k < |have| && have[k] == h;
      }
    }
    if forall i :: 0 <= i < |want| ==> HeaderMet(l, want[i], have) {
      forall w | w in want
        ensures exists h :: h in have && HeaderMatches(l, w, h)
      {
        var i :| 0 <= i < |want| && want[i] == w;
        var k :| 0 <= k < |have| && Meets(l, want[i], have[k]);
        assert have[k] in have;
      }
    }
  }

  ghost predicate Asks(want: QueryMatch, have: (string, string)) {
    want.name == have.0 && want.value == have.1
  }

  ghost predicate QueryMet(want: QueryMatch, have: seq<(string, string)>) {
    exists k :: 0 <= k < |have| && Asks(want, have[k])
  }

  lemma QueryAllMet(want: seq<QueryMatch>, have: seq<(string, string)>)
    ensures QueryMatches(want, have) <==>
      forall i :: 0 <= i < |want| ==> QueryMet(want[i], have)
  {
    if QueryMatches(want, have) {
      forall i | 0 <= i < |want|
        ensures QueryMet(want[i], have)
      {
        assert want[i] in want;
        var k :| 0 <= k < |have| && have[k] == (want[i].name, want[i].value);
      }
    }
    if forall i :: 0 <= i < |want| ==> QueryMet(want[i], have) {
      forall w | w in want
        ensures (w.name, w.value) in have
      {
        var i :| 0 <= i < |want| && want[i] == w;
        var k :| 0 <= k < |have| && Asks(want[i], have[k]);
        assert have[k] == (w.name, w.value) && have[k] in have;
      }
    }
  }

  // The table.

  /** A compiled matcher with the index of its route. */
  datatype Entry = Entry(matcher: Matcher, index: nat)

  datatype Table = Table(routes: seq<Route>, compiled: seq<Entry>)

  function Class(m: Matcher): nat {
    match m case Exact(_, _) => 0 case Prefix(_, _) => 1 case Regex(_, _) => 2
  }

  datatype TableError = NotCompiled(name: string, error: CompileError)

  /** All routes compile, and `ms` are their matchers. */
  ghost predicate CompileTo(l: Library, routes: seq<Route>, ms: seq<Matcher>) {
    |ms| == |routes| && forall i :: 0 <= i < |routes| ==> Compile(l, routes[i].rule) == Ok(ms[i])
  }

  /** Route `i` is the first that does not compile. */
  ghost predicate FirstBad(l: Library, routes: seq<Route>, i: nat, e: TableError)
    requires i < |routes|
  {
    && (forall j :: 0 <= j < i ==> Compile(l, routes[j].rule).Ok?)
    && Compile(l, routes[i].rule) == Err(e.error)
    && e.name == routes[i].name
  }

  method CompileAll(l: Library, routes: seq<Route>) returns (r: Result<seq<Entry>, TableError>)
    ensures r.Ok? <==> forall i :: 0 <= i < |routes| ==> Compile(l, routes[i].rule).Ok?
    ensures r.Ok? ==> |r.value| == |routes| && forall i :: 0 <= i < |routes| ==>
      r.value[i].index == i && Compile(l, routes[i].rule) == Ok(r.value[i].matcher)
    ensures r.Err? ==> exists i :: 0 <= i < |routes| && FirstBad(l, routes, i, r.error)
  {
    var out: seq<Entry> := [];
    for i := 0 to |routes|
      invariant |out| == i
      invariant forall j :: 0 <= j < i ==> out[j].index == j && Compile(l, routes[j].rule) == Ok(out[j].matcher)
    {
      var m := Compile(l, routes[i].rule);
      if m.Err? {
        assert FirstBad(l, routes, i, NotCompiled(routes[i].name, m.error));
        return Err(NotCompiled(routes[i].name, m.error));
      }
      out := out + [Entry(m.value, i)];
    }
    r := Ok(out);
  }

  ghost predicate Precedes(a: Entry, b: Entry) {
    Class(a.matcher) < Class(b.matcher) || (Class(a.matcher) == Class(b.matcher) && a.index < b.index)
  }

  /** Sorted by class, and within a class still in registration order. */
  ghost predicate StablySorted(entries: seq<Entry>) {
    forall i, j :: 0 <= i < j < |entries| ==> Precedes(entries[i], entries[j])
  }

  /** Entries in the order of registration. */
  ghost predicate Registered(entries: seq<Entry>) {
    forall i :: 0 <= i < |entries| ==> entries[i].index == i
  }

  /** The stable sort by class: insertion from the right, past larger classes only. */
  method SortByClass(entries: seq<Entry>) returns (sorted: seq<Entry>)
    requires Registered(entries)
    ensures StablySorted(sorted) && multiset(sorted) == multiset(entries)
  {
    sorted := [];
    for i := 0 to |entries|
      invariant StablySorted(sorted) && multiset(sorted) == multiset(entries[..i])
      invariant forall e :: e in sorted ==> e.index < i
    {
      var x := entries[i];
      var p := |sorted|;
      while p > 0 && Class(sorted[p - 1].matcher) > Class(x.matcher)
        invariant 0 <= p <= |sorted|
        invariant forall k :: p <= k < |sorted| ==> Class(sorted[k].matcher) > Class(x.matcher)
      {
        p := p - 1;
      }
      assert entries[..i + 1] == entries[..i] + [x];
      InsertKeepsSorted(sorted, x, p);
      InsertKeepsEntries(sorted, x, p);
      sorted := sorted[..p] + [x] + sorted[p..];
    }
    assert entries[..|entries|] == entries;
  }

  lemma InsertPrecedes(left: seq<Entry>, x: Entry, right: seq<Entry>)
    requires StablySorted(left) && StablySorted(right)
    requires forall i, j :: 0 <= i < |left| && 0 <= j < |right| ==> Precedes(left[i], right[j])
    requires forall i :: 0 <= i < |left| ==> Precedes(left[i], x)
    requires forall j :: 0 <= j < |right| ==> Precedes(x, right[j])
    ensures StablySorted(left + [x] + right)
  {
    var longer := left + [x] + right;
    var n := |left|;
    forall i, j | 0 <= i < j < |longer|
      ensures Precedes(longer[i], longer[j])
    {
      assert i < n ==> longer[i] == left[i];
      assert i > n ==> longer[i] == right[i - n - 1];
      assert j < n ==> longer[j] == left[j];
      assert j > n ==> longer[j] == right[j - n - 1];
    }
  }

  lemma InsertKeepsEntries(sorted: seq<Entry>, x: Entry, p: nat)
    requires p <= |sorted|
    ensures multiset(sorted[..p] + [x] + sorted[p..]) == multiset(sorted) + multiset{x}
    ensures forall e :: e in sorted[..p] + [x] + sorted[p..] ==> e == x || e in sorted
  {
    assert sorted == sorted[..p] + sorted[p..];
  }

  lemma InsertKeepsSorted(sorted: seq<Entry>, x: Entry, p: nat)
    requires StablySorted(sorted) && p <= |sorted|
    requires p > 0 ==> Class(sorted[p - 1].matcher) <= Class(x.matcher)
    requires forall k :: p <= k < |sorted| ==> Class(sorted[k].matcher) > Class(x.matcher)
    requires forall e :: e in sorted ==> e.index < x.index
    ensures StablySorted(sorted[..p] + [x] + sorted[p..])
  {
    var left, right := sorted[..p], sorted[p..];
    forall i | 0 <= i < p
      ensures Precedes(left[i], x)
    {
      assert sorted[i] in sorted;
      if i < p - 1 {
        assert Precedes(sorted[i], sorted[p - 1]);
      }
    }
    InsertPrecedes(left, x, right);
  }

  method NewTable(l: Library, routes: seq<Route>) returns (r: Result<Table, TableError>)
    ensures r.Ok? <==> exists ms :: CompileTo(l, routes, ms)
    ensures r.Ok? ==> r.value.routes == routes && IsTable(l, r.value)
  {
    var compiled := CompileAll(l, routes);
    if compiled.Err? {
      r := Err(compiled.error);
    } else {
      var sorted := SortByClass(compiled.value);
      r := Ok(Table(routes, sorted));
      ghost var ms := seq(|routes|, i requires 0 <= i < |routes| => compiled.value[i].matcher);
      assert CompileTo(l, routes, ms);
      SortedHasAll(compiled.value, sorted);
      forall i | 0 <= i < |routes|
        ensures HasRoute(sorted, i)
      {
        assert compiled.value[i] in sorted;
      }
    }
  }

  lemma SortedHasAll(entries: seq<Entry>, sorted: seq<Entry>)
    requires multiset(entries) == multiset(sorted)
    ensures forall e :: e in entries <==> e in sorted
  {
    forall e
      ensures e in entries <==> e in sorted
    {
      assert e in entries <==> e in multiset(entries);
      assert e in sorted <==> e in multiset(sorted);
    }
  }

  /** The compiled list has each route once, with its matcher, in table order. */
  ghost predicate IsTable(l: Library, t: Table) {
    && StablySorted(t.compiled)
    && (forall e :: e in t.compiled ==> e.index < |t.routes| && Compile(l, t.routes[e.index].rule) == Ok(e.matcher))
    && (forall i :: 0 <= i < |t.routes| ==> HasRoute(t.compiled, i))
  }

  ghost predicate HasRoute(compiled: seq<Entry>, i: nat) {
    exists k :: 0 <= k < |compiled| && compiled[k].index == i
  }

  /** Route `i` matches the request. */
  ghost predicate RouteMatches(l: Library, routes: seq<Route>, i: nat, r: Request)
    requires i < |routes|
  {
    var m := Compile(l, routes[i].rule);
    m.Ok? && FullMatch(l, m.value, routes[i].rule, r)
  }

  /** The class of route `i`. */
  ghost function RouteClass(l: Library, routes: seq<Route>, i: nat): nat
    requires i < |routes|
  {
    var m := Compile(l, routes[i].rule);
    if m.Ok? then Class(m.value) else 0
  }

  /** The answer to a request: the matching route least by class, then by order
      of registration; none if and only if no route matches. */
  method MatchRequest(l: Library, t: Table, r: Request) returns (found: Option<nat>)
    requires IsTable(l, t)
    ensures found.None? ==> forall i :: 0 <= i < |t.routes| ==> !RouteMatches(l, t.routes, i, r)
    ensures found.Some? ==> found.value < |t.routes| && RouteMatches(l, t.routes, found.value, r)
    ensures found.Some? ==> forall i :: 0 <= i < |t.routes| && RouteMatches(l, t.routes, i, r) && i != found.value ==>
      RouteClass(l, t.routes, found.value) < RouteClass(l, t.routes, i) ||
      (RouteClass(l, t.routes, found.value) == RouteClass(l, t.routes, i) && found.value < i)
  {
    for k := 0 to |t.compiled|
      invariant forall j :: 0 <= j < k ==> !RouteMatches(l, t.routes, t.compiled[j].index, r)
    {
      var e := t.compiled[k];
      assert e in t.compiled;
      var rule := t.routes[e.index].rule;
      if FullMatch(l, e.matcher, rule, r) {
        forall i | 0 <= i < |t.routes| && RouteMatches(l, t.routes, i, r) && i != e.index
          ensures RouteClass(l, t.routes, e.index) < RouteClass(l, t.routes, i) ||
            (RouteClass(l, t.routes, e.index) == RouteClass(l, t.routes, i) && e.index < i)
        {
          assert HasRoute(t.compiled, i);
          var j :| 0 <= j < |t.compiled| && t.compiled[j].index == i;
          assert t.compiled[j] in t.compiled;
          assert Precedes(t.compiled[k], t.compiled[j]);
        }
        return Some(e.index);
      }
    }
    forall i | 0 <= i < |t.routes|
      ensures !RouteMatches(l, t.routes, i, r)
    {
      assert HasRoute(t.compiled, i);
    }
    found := None;
  }

  /** The order of classes: exact routes, then prefixes, then regular expressions. */
  lemma KindsInOrder(l: Library, routes: seq<Route>, i: nat, j: nat)
    requires i < |routes| && j < |routes|
    requires Compile(l, routes[i].rule).Ok? && Compile(l, routes[j].rule).Ok?
    ensures
      var first, second := Compile(l, routes[i].rule).value, Compile(l, routes[j].rule).value;
      RouteClass(l, routes, i) < RouteClass(l, routes, j) <==>
      (first.Exact? && (second.Prefix? || second.Regex?)) || (first.Prefix? && second.Regex?)
  {
  }

  // Load-time checks.

  datatype Upstream = Upstream(id: string, baseUrl: string, apiKey: string)

  datatype LoadedConfig = LoadedConfig(upstreams: seq<Upstream>, rps: nat, burst: nat, routes: seq<Route>)

  datatype ConfigError =
    | BaseUrlNotAllowed(baseUrl: string)
    | DuplicateName(name: string)
    | InvalidMethod(name: string, method_: string)
    | InvalidPath(name: string, path: string)
    | ZeroRateLimit
    | ShortApiKey(id: string)

  predicate IsValidMethod(l: Library, m: string) {
    l.upper(m) in {"GET", "POST", "PUT", "DELETE", "PATCH", "HEAD", "OPTIONS", "ANY"}
  }

  predicate IsValidPath(p: string) {
    IsAbsolute(p) && p[|p| - 1] != '/'
  }

  ghost predicate ValidRoute(l: Library, r: Route) {
    IsValidMethod(l, r.rule.method_) && IsValidPath(r.rule.path)
  }

  ghost predicate DistinctNames(routes: seq<Route>) {
    forall i, j :: 0 <= i < j < |routes| ==> routes[i].name != routes[j].name
  }

  ghost predicate ValidConfig(l: Library, cfg: LoadedConfig) {
    && (forall i :: 0 <= i < |cfg.upstreams| ==> l.baseUrlAllowed(cfg.upstreams[i].baseUrl))
    && DistinctNames(cfg.routes)
    && (forall i :: 0 <= i < |cfg.routes| ==> ValidRoute(l, cfg.routes[i]))
    && cfg.rps != 0 && cfg.burst != 0
    && (forall i :: 0 <= i < |cfg.upstreams| ==> |Utf8(cfg.upstreams[i].apiKey)| >= 16)
  }

  ghost predicate UrlsAllowed(l: Library, cfg: LoadedConfig, n: nat)
    requires n <= |cfg.upstreams|
  {
    forall i :: 0 <= i < n ==> l.baseUrlAllowed(cfg.upstreams[i].baseUrl)
  }

  ghost predicate RoutesFine(l: Library, cfg: LoadedConfig, n: nat)
    requires n <= |cfg.routes|
  {
    DistinctNames(cfg.routes[..n]) && forall i :: 0 <= i < n ==> ValidRoute(l, cfg.routes[i])
  }

  ghost predicate KeysLong(cfg: LoadedConfig, n: nat)
    requires n <= |cfg.upstreams|
  {
    forall i :: 0 <= i < n ==> |Utf8(cfg.upstreams[i].apiKey)| >= 16
  }

  /** Upstream `i` is the first whose base URL is not allowed. */
  ghost predicate BadUrl(l: Library, cfg: LoadedConfig, i: nat, url: string) {
    i < |cfg.upstreams| && UrlsAllowed(l, cfg, i) && url == cfg.upstreams[i].baseUrl && !l.baseUrlAllowed(url)
  }

  /** Route `i` is the first with something wrong, and this is what. */
  ghost predicate BadRoute(l: Library, cfg: LoadedConfig, i: nat, e: ConfigError) {
    && i < |cfg.routes| && RoutesFine(l, cfg, i)
    && var r := cfg.routes[i];
       if !DistinctNames(cfg.routes[..i + 1]) then e == DuplicateName(r.name)
       else if !IsValidMethod(l, r.rule.method_) then e == InvalidMethod(r.name, r.rule.method_)
       else !IsValidPath(r.rule.path) && e == InvalidPath(r.name, r.rule.path)
  }

  ghost predicate BadKey(cfg: LoadedConfig, i: nat, id: string) {
    i < |cfg.upstreams| && KeysLong(cfg, i) && |Utf8(cfg.upstreams[i].apiKey)| < 16 && id == cfg.upstreams[i].id
  }

  /** An error names the first thing wrong: base URLs come first, then the routes one
      by one, then the rate limit, then the keys. */
  ghost predicate Explains(l: Library, cfg: LoadedConfig, e: ConfigError) {
    match e
    case BaseUrlNotAllowed(url) => exists i :: BadUrl(l, cfg, i, url)
    case ZeroRateLimit =>
      UrlsAllowed(l, cfg, |cfg.upstreams|) && RoutesFine(l, cfg, |cfg.routes|) && (cfg.rps == 0 || cfg.burst == 0)
    case ShortApiKey(id) =>
      && UrlsAllowed(l, cfg, |cfg.upstreams|) && RoutesFine(l, cfg, |cfg.routes|)
      && cfg.rps != 0 && cfg.burst != 0 && exists i :: BadKey(cfg, i, id)
    case _ => UrlsAllowed(l, cfg, |cfg.upstreams|) && exists i :: BadRoute(l, cfg, i, e)
  }

  lemma NameTaken(routes: seq<Route>, i: nat)
    requires i < |routes| && DistinctNames(routes[..i])
    ensures DistinctNames(routes[..i + 1]) <==> forall k :: 0 <= k < i ==> routes[k].name != routes[i].name
  {
    assert forall k :: 0 <= k < i ==> routes[..i + 1][k] == routes[..i][k] == routes[k];
    assert routes[..i + 1][i] == routes[i];
  }

  method Validate(l: Library, cfg: LoadedConfig) returns (r: Result<(), ConfigError>)
    ensures r.Ok? <==> ValidConfig(l, cfg)
    ensures r.Err? ==> Explains(l, cfg, r.error)
  {
    for i := 0 to |cfg.upstreams|
      invariant UrlsAllowed(l, cfg, i)
    {
      if !l.baseUrlAllowed(cfg.upstreams[i].baseUrl) {
        assert BadUrl(l, cfg, i, cfg.upstreams[i].baseUrl);
        return Err(BaseUrlNotAllowed(cfg.upstreams[i].baseUrl));
      }
    }
    var seen: set<string> := {};
    for i := 0 to |cfg.routes|
      invariant forall n :: n in seen <==> exists k :: 0 <= k < i && cfg.routes[k].name == n
      invariant RoutesFine(l, cfg, i)
    {
      var route := cfg.routes[i];
      NameTaken(cfg.routes, i);
      if route.name in seen {
        NotAllDistinct(cfg.routes, i);
        assert BadRoute(l, cfg, i, DuplicateName(route.name));
        return Err(DuplicateName(route.name));
      }
      seen := seen + {route.name};
      if !IsValidMethod(l, route.rule.method_) {
        assert BadRoute(l, cfg, i, InvalidMethod(route.name, route.rule.method_));
        return Err(InvalidMethod(route.name, route.rule.method_));
      }
      if !IsValidPath(route.rule.path) {
        assert BadRoute(l, cfg, i, InvalidPath(route.name, route.rule.path));
        return Err(InvalidPath(route.name, route.rule.path));
      }
    }
    assert cfg.routes[..|cfg.routes|] == cfg.routes;
    if cfg.rps == 0 || cfg.burst == 0 {
      return Err(ZeroRateLimit);
    }
    for i := 0 to |cfg.upstreams|
      invariant KeysLong(cfg, i)
    {
      if |Utf8(cfg.upstreams[i].apiKey)| < 16 {
        assert BadKey(cfg, i, cfg.upstreams[i].id);
        return Err(ShortApiKey(cfg.upstreams[i].id));
      }
    }
    r := Ok(());
  }

  lemma NotAllDistinct(routes: seq<Route>, i: nat)
    requires i < |routes| && !DistinctNames(routes[..i + 1])
    ensures !DistinctNames(routes)
  {
    var a, b :| 0 <= a < b < i + 1 && routes[..i + 1][a].name == routes[..i + 1][b].name;
    assert routes[a].name == routes[b].name;
  }

  /** The methods that are accepted, in the library's upper case. */
  lemma MethodsAccepted(l: Library, m: string)
    ensures IsValidMethod(l, m) <==>
      var u := l.upper(m);
      u == "GET" || u == "HEAD" || u == "POST" || u == "PUT" || u == "PATCH" || u == "DELETE" || u == "OPTIONS" || u == "ANY"
  {
  }

  /** A route that passed the checks compiles, and to an exact matcher: neither a
      prefix nor a regular expression can pass them. */
  lemma ValidPathsAreExact(l: Library, rule: MatchRule)
    ensures IsValidPath(rule.path) <==>
      Compile(l, rule) == Ok(Exact(l.upper(rule.method_), Normalize(rule.path))) && rule.path != "/"
  {
  }

  /** So in a checked configuration the table is built, and plain registration
      order decides among the matching routes. */
  lemma {:induction false} RegistrationOrderDecides(l: Library, cfg: LoadedConfig)
    requires ValidConfig(l, cfg)
    ensures forall i :: 0 <= i < |cfg.routes| ==>
      Compile(l, cfg.routes[i].rule).Ok? && RouteClass(l, cfg.routes, i) == 0
  {
    forall i | 0 <= i < |cfg.routes|
      ensures Compile(l, cfg.routes[i].rule).Ok? && RouteClass(l, cfg.routes, i) == 0
    {
      assert ValidRoute(l, cfg.routes[i]);
      ValidPathsAreExact(l, cfg.routes[i].rule);
    }
  }

  method MatchValidated(l: Library, cfg: LoadedConfig, r: Request) returns (found: Option<nat>)
    requires ValidConfig(l, cfg)
    ensures found.None? ==> forall i :: 0 <= i < |cfg.routes| ==> !RouteMatches(l, cfg.routes, i, r)
    ensures found.Some? ==> found.value < |cfg.routes| && RouteMatches(l, cfg.routes, found.value, r)
    ensures found.Some? ==> forall i :: 0 <= i < found.value ==> !RouteMatches(l, cfg.routes, i, r)
  {
    RegistrationOrderDecides(l, cfg);
    ghost var ms := seq(|cfg.routes|, i requires 0 <= i < |cfg.routes| => Compile(l, cfg.routes[i].rule).value);
    assert CompileTo(l, cfg.routes, ms);
    var table := NewTable(l, cfg.routes);
    found := MatchRequest(l, table.value, r);
  }

  /** What the handler asks: it passes on neither headers nor query. */
  function Bare(method_: string, path: string): Request {
    Request(method_, path, [], [])
  }

  /** Without headers and query, a route that has a condition on either never
      matches. */
  lemma BareMatchesExactly(l: Library, m: Matcher, rule: MatchRule, method_: string, path: string)
    ensures FullMatch(l, m, rule, Bare(method_, path)) <==>
      MethodMatches(l, m, method_) && PathMatches(l, m, path) && rule.headers == [] && rule.query == []
  {
    if rule.headers != [] {
      assert rule.headers[0] in rule.headers;
    }
    if rule.query != [] {
      assert rule.query[0] in rule.query;
    }
  }

  /** A checked route that answers: its method fits, its normalised path is the
      request's path to the letter, and it has no conditions. */
  predicate Answers(l: Library, rule: MatchRule, method_: string, path: string) {
    && (l.upper(rule.method_) == l.upper(method_) || l.upper(rule.method_) == "ANY")
    && Normalize(rule.path) == path
    && rule.headers == [] && rule.query == []
  }

  /** The handler's question to the table of a checked configuration: the first
      registered route without conditions that has this method and path. */
  method ResolveRoute(l: Library, cfg: LoadedConfig, method_: string, path: string) returns (found: Option<nat>)
    requires ValidConfig(l, cfg)
    ensures found.None? ==> forall i :: 0 <= i < |cfg.routes| ==> !Answers(l, cfg.routes[i].rule, method_, path)
    ensures found.Some? ==> found.value < |cfg.routes| && Answers(l, cfg.routes[found.value].rule, method_, path)
    ensures found.Some? ==> forall i :: 0 <= i < found.value ==> !Answers(l, cfg.routes[i].rule, method_, path)
  {
    found := MatchValidated(l, cfg, Bare(method_, path));
    forall i | 0 <= i < |cfg.routes|
      ensures RouteMatches(l, cfg.routes, i, Bare(method_, path)) <==> Answers(l, cfg.routes[i].rule, method_, path)
    {
      var rule := cfg.routes[i].rule;
      assert ValidRoute(l, cfg.routes[i]);
      ValidPathsAreExact(l, rule);
      BareMatchesExactly(l, Compile(l, rule).value, rule, method_, path);
    }
  }

  // Prefix matchers.

  lemma {:induction false} JoinConcat(p: seq<string>, q: seq<string>)
    requires p != [] && q != []
    ensures Join(p + q, "/") == Join(p, "/") + "/" + Join(q, "/")
  {
    if |p| == 1 {
      assert (p + q)[1..] == q;
    } else {
      assert (p + q)[1..] == p[1..] + q;
      JoinConcat(p[1..], q);
      assert p[0] + "/" + (Join(p[1..], "/") + "/" + Join(q, "/")) == Join(p, "/") + "/" + Join(q, "/");
    }
  }

  /** A prefix matcher accepts exactly the paths that begin with its segments. */
  lemma PrefixMatchesSegments(l: Library, method_: string, prefix: string, path: string)
    ensures PathMatches(l, Prefix(method_, prefix), path) <==> Split(prefix, '/') <= Split(path, '/')
  {
    var p, s := Split(prefix, '/'), Split(path, '/');
    JoinSplit(prefix, '/');
    JoinSplit(path, '/');
    if path != prefix && prefix + "/" <= path {
      var rest := path[|prefix| + 1..];
      assert path == prefix + "/" + rest;
      SplitConcat(prefix, rest, '/');
    }
    if p <= s && p != s {
      var q := s[|p|..];
      assert s == p + q;
      JoinConcat(p, q);
    }
  }
}
