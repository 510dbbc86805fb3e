/** The API Mesh side of the overlay: which data source a GraphQL
    response came from, the bounded newest-first log of tracked queries,
    the operation name read from a query's text, and the grouping of
    page elements by their `data-inspector-source` attribute. */
module ScannerMesh {
  import opened Common
  import opened Dom

  // ---------------------------------------------------------------------
  // detectSource
  // ---------------------------------------------------------------------

  datatype Source = Commerce | Catalog | Search

  /** The response fields whose presence marks each rule. */
  const CatalogDetailKeys := {"Citisignal_productDetail"}
  const CatalogCardKeys := {"Citisignal_productCards", "products"}
  const CatalogPageKeys := {"Citisignal_productPageData"}
  const SearchKeys := {"Citisignal_productFacets", "facets"}
  const CommerceKeys := {"categories", "storeConfig", "navigation", "breadcrumbs"}

  /** Some field of `keys` holds a truthy value in the response. */
  predicate AnyIn(data: set<string>, keys: set<string>)
  {
    exists k :: k in keys && k in data
  }

  /** detectSource(queryName, data), where `data` is the set of top-level
      response fields whose values are truthy.  The rules are tried in
      order and the first that fires decides. */
  function DetectSource(queryName: string, data: set<string>): Source
  {
    if AnyIn(data, CatalogDetailKeys) || queryName == "GetProductDetail" then Catalog
    else if AnyIn(data, CatalogCardKeys) || StrContains(queryName, "ProductCards") then Catalog
    else if AnyIn(data, CatalogPageKeys) || queryName == "GetProductPageData" then Catalog
    else if AnyIn(data, SearchKeys) || StrContains(queryName, "Facet") || StrContains(queryName, "Search")
         || StrContains(queryName, "Filter") then Search
    else if AnyIn(data, CommerceKeys) || StrContains(queryName, "Navigation") || StrContains(queryName, "Breadcrumb")
    then Commerce
    else Commerce
  }

  /** Any of the three catalog rules fires. */
  ghost predicate CatalogRule(queryName: string, data: set<string>)
  {
    || "Citisignal_productDetail" in data || "Citisignal_productCards" in data || "products" in data
    || "Citisignal_productPageData" in data
    || queryName == "GetProductDetail" || queryName == "GetProductPageData"
    || Includes(queryName, "ProductCards")
  }

  /** The search rule fires. */
  ghost predicate SearchRule(queryName: string, data: set<string>)
  {
    || "Citisignal_productFacets" in data || "facets" in data
    || Includes(queryName, "Facet") || Includes(queryName, "Search") || Includes(queryName, "Filter")
  }

  /** The classification, rule by rule: catalog whenever a catalog rule
      fires, otherwise search whenever the search rule fires, otherwise
      commerce. */
  lemma DetectSourceSpec(queryName: string, data: set<string>)
    ensures DetectSource(queryName, data) == Catalog <==> CatalogRule(queryName, data)
    ensures DetectSource(queryName, data) == Search <==>
      !CatalogRule(queryName, data) && SearchRule(queryName, data)
    ensures DetectSource(queryName, data) == Commerce <==>
      !CatalogRule(queryName, data) && !SearchRule(queryName, data)
  {
    assert AnyIn(data, CatalogDetailKeys) <==> "Citisignal_productDetail" in data;
    assert AnyIn(data, CatalogPageKeys) <==> "Citisignal_productPageData" in data;
    assert AnyIn(data, CatalogCardKeys) <==> "Citisignal_productCards" in data || "products" in data;
    assert AnyIn(data, SearchKeys) <==> "Citisignal_productFacets" in data || "facets" in data;
  }

  /** The commerce rule only restates the default: the commerce markers
      never change the outcome. */
  lemma CommerceMarkersIrrelevant(queryName: string, data: set<string>, extra: set<string>)
    requires extra <= CommerceKeys
    ensures DetectSource(queryName, data + extra) == DetectSource(queryName, data)
  {
    DetectSourceSpec(queryName, data);
    DetectSourceSpec(queryName, data + extra);
  }

  // ---------------------------------------------------------------------
  // createQueryTracker
  // ---------------------------------------------------------------------

  /** What the fetch wrapper records per query. */
  datatype QueryEntry = QueryEntry(queryName: string, source: Source, responseTime: int, timestamp: int)

  const DefaultMaxQueries := 50
  const DefaultLimit := 10

  function Min(a: int, b: int): int { if a <= b then a else b }
  function Max(a: int, b: int): int { if a >= b then a else b }

  /** `s` after `s.length = n` when it is longer than `n`. */
  function Truncate<T>(s: seq<T>, n: nat): (r: seq<T>)
    ensures |r| == Min(|s|, n) && r == s[..|r|]
  {
    if |s| > n then s[..n] else s
  }

  /** Reverse order: the newest of a history first. */
  function Reverse<T>(s: seq<T>): (r: seq<T>)
    ensures |r| == |s| && forall i :: 0 <= i < |s| ==> r[i] == s[|s| - 1 - i]
  {
    if s == [] then [] else [s[|s| - 1]] + Reverse(s[..|s| - 1])
  }

  /** The end index Array.prototype.slice(0, end) uses: a negative end
      counts back from the length. */
  function SliceEnd(len: nat, end: int): (r: nat)
    ensures r <= len
  {
    if end < 0 then Max(len + end, 0) else Min(end, len)
  }

  /** The log after tracking `history` (oldest first) into an empty log
      with capacity `n`: each entry goes through trackQuery. */
  function Tracked(history: seq<QueryEntry>, n: nat): seq<QueryEntry>
  {
    if history == [] then [] else Truncate([history[|history| - 1]] + Tracked(history[..|history| - 1], n), n)
  }

  /** The log always holds the `n` newest entries of the history, newest
      first: older ones are dropped, none is reordered. */
  lemma {:induction false} TrackedIsNewest(history: seq<QueryEntry>, n: nat)
    ensures Tracked(history, n) == Truncate(Reverse(history), n)
    decreases |history|
  {
    if history != [] {
      var init, e := history[..|history| - 1], history[|history| - 1];
      TrackedIsNewest(init, n);
      var t := Truncate(Reverse(init), n);
      var full := [e] + Reverse(init);
      assert Reverse(history) == full;
      var lhs := Truncate([e] + t, n);
      var rhs := Truncate(full, n);
      assert |lhs| == |rhs|;
      forall i | 0 <= i < |lhs|
        ensures lhs[i] == rhs[i]
      {
        if i > 0 {
          assert lhs[i] == t[i - 1] && rhs[i] == Reverse(init)[i - 1];
        }
      }
    }
  }

  /** createQueryTracker(maxQueries) */
  class QueryTracker {
    const maxQueries: nat
    var queries: seq<QueryEntry>

    predicate Valid()
      reads this
    {
      |queries| <= maxQueries
    }

    constructor (maxQueries: nat)
      ensures Valid() && this.maxQueries == maxQueries && queries == []
    {
      this.maxQueries := maxQueries;
      queries := [];
    }

    /** trackQuery(entry): unshift, then cut the array back to
        maxQueries entries. */
    method TrackQuery(entry: QueryEntry)
      requires Valid()
      modifies this
      ensures Valid()
      ensures queries == Truncate([entry] + old(queries), maxQueries)
      ensures maxQueries > 0 ==> queries[0] == entry
      ensures |queries| == Min(|old(queries)| + 1, maxQueries)
    {
      queries := [entry] + queries;
      if |queries| > maxQueries {
        queries := queries[..maxQueries];
      }
    }

    /** getQueries(limit): the newest entries, `limit` of them (10 when
        the argument is omitted); the log is not changed. */
    method GetQueries(limit: Option<int>) returns (r: seq<QueryEntry>)
      ensures var n := if limit.Some? then limit.value else DefaultLimit;
        && (0 <= n ==> |r| == Min(n, |queries|))
        && (n < 0 ==> |r| == Max(|queries| + n, 0))
        && r == queries[..|r|]
    {
      var end := if limit.Some? then limit.value else DefaultLimit;
      r := queries[..SliceEnd(|queries|, end)];
    }

    /** clearQueries() */
    method ClearQueries()
      modifies this
      ensures Valid() && queries == []
    {
      queries := [];
    }
  }

  // ---------------------------------------------------------------------
  // The operation name: /query\s+(\w+)/
  // ---------------------------------------------------------------------

  const AnonymousName := "Anonymous"

  /** \w */
  predicate IsWordChar(c: char)
  {
    ('a' <= c <= 'z') || ('A' <= c <= 'Z') || ('0' <= c <= '9') || c == '_'
  }

  /** The length of the run of white space (\s) starting at `i`. */
  function SpaceRun(s: string, i: nat): (r: nat)
    requires i <= |s|
    ensures i + r <= |s|
    decreases |s| - i
  {
    if i < |s| && IsJsWhitespace(s[i]) then 1 + SpaceRun(s, i + 1) else 0
  }

  lemma {:induction false} SpaceRunSpec(s: string, i: nat)
    requires i <= |s|
    ensures forall j :: i <= j < i + SpaceRun(s, i) ==> IsJsWhitespace(s[j])
    ensures i + SpaceRun(s, i) == |s| || !IsJsWhitespace(s[i + SpaceRun(s, i)])
    decreases |s| - i
  {
    if i < |s| && IsJsWhitespace(s[i]) {
      SpaceRunSpec(s, i + 1);
    }
  }

  /** The length of the run of word characters starting at `i`. */
  function WordRun(s: string, i: nat): (r: nat)
    requires i <= |s|
    ensures i + r <= |s|
    decreases |s| - i
  {
    if i < |s| && IsWordChar(s[i]) then 1 + WordRun(s, i + 1) else 0
  }

  lemma {:induction false} WordRunSpec(s: string, i: nat)
    requires i <= |s|
    ensures forall j :: i <= j < i + WordRun(s, i) ==> IsWordChar(s[j])
    ensures i + WordRun(s, i) == |s| || !IsWordChar(s[i + WordRun(s, i)])
    decreases |s| - i
  {
    if i < |s| && IsWordChar(s[i]) {
      WordRunSpec(s, i + 1);
    }
  }

  /** The word "query" starts at `i`. */
  predicate QueryAt(s: string, i: nat)
  {
    i + 5 <= |s| && s[i..i + 5] == "query"
  }

  /** The captured name when the pattern matches starting at `i`. */
  function MatchAt(s: string, i: nat): Option<string>
    requires i <= |s|
  {
    if !QueryAt(s, i) then None
    else
      var w := SpaceRun(s, i + 5);
      if w == 0 then None
      else
        var n := WordRun(s, i + 5 + w);
        if n == 0 then None else Some(s[i + 5 + w..i + 5 + w + n])
  }

  /** The leftmost match at `from` or later. */
  function FirstMatch(s: string, from: nat): Option<string>
    requires from <= |s|
    decreases |s| - from
  {
    if MatchAt(s, from).Some? then MatchAt(s, from)
    else if from == |s| then None
    else FirstMatch(s, from + 1)
  }

  /** `query.match(/query\s+(\w+)/)`, its capture, or "Anonymous". */
  function QueryName(query: string): string
  {
    match FirstMatch(query, 0)
    case Some(name) => name
    case None => AnonymousName
  }

  /** What the pattern means at position `i`: the word "query", one or
      more white-space characters, then `name`, a non-empty run of word
      characters that the greedy \w+ cannot extend. */
  ghost predicate CapturesAt(s: string, i: nat, name: string)
  {
    && QueryAt(s, i)
    && name != [] && (forall c :: c in name ==> IsWordChar(c))
    && exists k :: SpacesThen(s, i, k, name)
  }

  /** `k` white-space characters after the word "query" at `i`, then
      `name`, which no word character follows. */
  ghost predicate SpacesThen(s: string, i: nat, k: nat, name: string)
  {
    var j := i + 5;
    && 1 <= k && j + k + |name| <= |s|
    && (forall p :: j <= p < j + k ==> IsJsWhitespace(s[p]))
    && s[j + k..j + k + |name|] == name
    && (j + k + |name| == |s| || !IsWordChar(s[j + k + |name|]))
  }

  lemma WordIsNotSpace(c: char)
    ensures IsWordChar(c) ==> !IsJsWhitespace(c)
  {
  }

  /** The match at a position, computed, is the match the pattern
      defines, and the pattern defines at most one capture there. */
  lemma MatchAtSpec(s: string, i: nat, name: string)
    requires i <= |s|
    ensures MatchAt(s, i) == Some(name) <==> CapturesAt(s, i, name)
  {
    if MatchAt(s, i) == Some(name) {
      MatchAtCaptures(s, i);
    }
    if CapturesAt(s, i, name) {
      CapturesAtMatches(s, i, name);
    }
  }

  lemma MatchAtCaptures(s: string, i: nat)
    requires i <= |s| && MatchAt(s, i).Some?
    ensures CapturesAt(s, i, MatchAt(s, i).value)
  {
    var name := MatchAt(s, i).value;
    var k := SpaceRun(s, i + 5);
    var n := WordRun(s, i + 5 + k);
    SpaceRunSpec(s, i + 5);
    WordRunSpec(s, i + 5 + k);
    forall c | c in name
      ensures IsWordChar(c)
    {
      var j :| 0 <= j < |name| && name[j] == c;
      assert name[j] == s[i + 5 + k + j];
    }
    assert SpacesThen(s, i, k, name);
  }

  lemma CapturesAtMatches(s: string, i: nat, name: string)
    requires i <= |s| && CapturesAt(s, i, name)
    ensures MatchAt(s, i) == Some(name)
  {
    var k :| SpacesThen(s, i, k, name);
    var p := i + 5 + k;
    assert s[p] == name[0];
    WordIsNotSpace(name[0]);
    SpaceRunIs(s, i + 5, k);
    forall q | p <= q < p + |name|
      ensures IsWordChar(s[q])
    {
      assert s[q] == name[q - p] && name[q - p] in name;
    }
    WordRunIs(s, p, |name|);
  }

  /** The white-space run from `j` is exactly `k` long when `k`
      white-space characters are followed by something else. */
  lemma {:induction false} SpaceRunIs(s: string, j: nat, k: nat)
    requires j + k <= |s| && forall p :: j <= p < j + k ==> IsJsWhitespace(s[p])
    requires j + k == |s| || !IsJsWhitespace(s[j + k])
    ensures SpaceRun(s, j) == k
    decreases k
  {
    if k > 0 {
      SpaceRunIs(s, j + 1, k - 1);
    }
  }

  lemma {:induction false} WordRunIs(s: string, j: nat, k: nat)
    requires j + k <= |s| && forall p :: j <= p < j + k ==> IsWordChar(s[p])
    requires j + k == |s| || !IsWordChar(s[j + k])
    ensures WordRun(s, j) == k
    decreases k
  {
    if k > 0 {
      WordRunIs(s, j + 1, k - 1);
    }
  }

  /** The leftmost match from `from` on: the capture at the least
      matching position, or nothing when no position matches. */
  lemma {:induction false} FirstMatchSpec(s: string, from: nat)
    requires from <= |s|
    ensures FirstMatch(s, from).Some? ==>
      exists i :: from <= i <= |s| && MatchAt(s, i) == FirstMatch(s, from)
        && forall j :: from <= j < i ==> MatchAt(s, j).None?
    ensures FirstMatch(s, from).None? ==> forall i :: from <= i <= |s| ==> MatchAt(s, i).None?
    decreases |s| - from
  {
    if MatchAt(s, from).None? && from < |s| {
      FirstMatchSpec(s, from + 1);
      if FirstMatch(s, from).Some? {
        var i :| from + 1 <= i <= |s| && MatchAt(s, i) == FirstMatch(s, from + 1)
          && forall j :: from + 1 <= j < i ==> MatchAt(s, j).None?;
        assert forall j :: from <= j < i ==> MatchAt(s, j).None?;
      }
    }
  }

  /** The operation name: the capture of the leftmost place the pattern
      matches, and "Anonymous" exactly when it matches nowhere. */
  lemma QueryNameSpec(query: string)
    ensures QueryName(query) != AnonymousName ==>
      exists i :: 0 <= i <= |query| && CapturesAt(query, i, QueryName(query))
        && forall j, other :: 0 <= j < i ==> !CapturesAt(query, j, other)
    ensures (forall i, name :: 0 <= i <= |query| ==> !CapturesAt(query, i, name)) ==>
      QueryName(query) == AnonymousName
  {
    FirstMatchSpec(query, 0);
    if FirstMatch(query, 0).Some? {
      var name := FirstMatch(query, 0).value;
      var i :| 0 <= i <= |query| && MatchAt(query, i) == FirstMatch(query, 0)
        && forall j :: 0 <= j < i ==> MatchAt(query, j).None?;
      MatchAtSpec(query, i, name);
      forall j, other | 0 <= j < i
        ensures !CapturesAt(query, j, other)
      {
        MatchAtSpec(query, j, other);
      }
    }
  }

  // ---------------------------------------------------------------------
  // scanMeshSources
  // ---------------------------------------------------------------------

  const SourceAttr := "data-inspector-source"
  const SourceSelector := AnyAttr({SourceAttr})

  /** getAttribute('data-inspector-source'); every element the selector
      returns carries it. */
  function SourceOf(h: Host, el: nat): string
  {
    if HasAttr(h, el, SourceAttr) then h.nodes[el].attrs[SourceAttr] else ""
  }

  /** A Map from source id to elements; `order` is the Map's insertion
      order of keys. */
  datatype SourceGroups = SourceGroups(order: seq<string>, groups: map<string, seq<nat>>)

  /** The forEach callback of scanMeshSources for one element. */
  function GroupStep(g: SourceGroups, id: string, el: nat): SourceGroups
  {
    var groups := if id in g.groups then g.groups else g.groups[id := []];
    var order := if id in g.groups then g.order else g.order + [id];
    SourceGroups(order, groups[id := groups[id] + [el]])
  }

  /** The groups after the loop has seen `els`. */
  function GroupAll(h: Host, els: seq<nat>): SourceGroups
  {
    if els == [] then SourceGroups([], map[])
    else GroupStep(GroupAll(h, els[..|els| - 1]), SourceOf(h, els[|els| - 1]), els[|els| - 1])
  }

  function SameSource(h: Host, id: string): nat -> bool
  {
    (el: nat) => SourceOf(h, el) == id
  }

  /** The grouping after one more element. */
  lemma GroupAllUnfold(h: Host, init: seq<nat>, el: nat)
    ensures GroupAll(h, init + [el]) == GroupStep(GroupAll(h, init), SourceOf(h, el), el)
  {
    assert (init + [el])[..|init|] == init;
  }

  function SourceIds(h: Host, els: seq<nat>): set<string>
  {
    set x | x in els :: SourceOf(h, x)
  }

  /** One key per source id present, each once, in order of first
      appearance. */
  lemma {:induction false} GroupKeys(h: Host, els: seq<nat>)
    ensures var g := GroupAll(h, els);
      g.groups.Keys == SourceIds(h, els) && Elems(g.order) == g.groups.Keys && NoDuplicates(g.order)
    decreases |els|
  {
    if els != [] {
      var init, el := els[..|els| - 1], els[|els| - 1];
      GroupKeys(h, init);
      var g0 := GroupAll(h, init);
      var id := SourceOf(h, el);
      assert els == init + [el];
      assert SourceIds(h, els) == SourceIds(h, init) + {id};
      ElemsSnoc(g0.order, id);
      if id !in g0.groups {
        assert forall j :: 0 <= j < |g0.order| ==> g0.order[j] in Elems(g0.order);
      }
    }
  }

  /** Under each key exactly the elements carrying that id, in document
      order. */
  lemma {:induction false} GroupContents(h: Host, els: seq<nat>)
    ensures var g := GroupAll(h, els);
      forall id :: id in g.groups ==> g.groups[id] == Filter(els, SameSource(h, id))
    decreases |els|
  {
    if els != [] {
      var init, el := els[..|els| - 1], els[|els| - 1];
      GroupContents(h, init);
      GroupKeys(h, init);
      var g0 := GroupAll(h, init);
      var g := GroupAll(h, els);
      var id := SourceOf(h, el);
      assert els == init + [el];
      forall k | k in g.groups
        ensures g.groups[k] == Filter(els, SameSource(h, k))
      {
        FilterSnoc(init, el, SameSource(h, k));
        if k != id {
          assert k in g0.groups;
        } else if id !in g0.groups {
          FilterNone(init, SameSource(h, k));
        }
      }
    }
  }

  /** What the grouping holds: one key per source id present, in order of
      first appearance and each once; under each key exactly the elements
      carrying that id, in document order; hence no empty group, and no
      group at all when nothing matches. */
  lemma GroupAllSpec(h: Host, els: seq<nat>)
    ensures var g := GroupAll(h, els);
      && g.groups.Keys == SourceIds(h, els)
      && Elems(g.order) == g.groups.Keys && NoDuplicates(g.order)
      && (forall id :: id in g.groups ==> g.groups[id] == Filter(els, SameSource(h, id)))
      && (forall id :: id in g.groups ==> g.groups[id] != [])
      && (els == [] ==> g.groups == map[])
  {
    GroupKeys(h, els);
    GroupContents(h, els);
    var g := GroupAll(h, els);
    forall id | id in g.groups
      ensures g.groups[id] != []
    {
      var x :| x in els && SourceOf(h, x) == id;
      FilterMembers(els, SameSource(h, id));
      assert x in g.groups[id];
    }
  }

  /** Every element lands in exactly one group: the one for its own id. */
  lemma GroupedOnce(h: Host, els: seq<nat>, el: nat, id: string)
    requires el in els
    ensures id in GroupAll(h, els).groups && el in GroupAll(h, els).groups[id] <==> id == SourceOf(h, el)
  {
    GroupAllSpec(h, els);
    var g := GroupAll(h, els);
    FilterMembers(els, SameSource(h, id));
    FilterMembers(els, SameSource(h, SourceOf(h, el)));
  }

  /** scanMeshSources(rootElement) */
  method ScanMeshSources(h: Host, rootElement: nat) returns (result: SourceGroups)
    requires WellFormed(h)
    ensures result == GroupAll(h, QuerySelectorAll(h, rootElement, SourceSelector))
  {
    var elements := QuerySelectorAll(h, rootElement, SourceSelector);
    var order: seq<string> := [];
    var groups: map<string, seq<nat>> := map[];
    for k := 0 to |elements|
      invariant SourceGroups(order, groups) == GroupAll(h, elements[..k])
    {
      var el := elements[k];
      var sourceId := SourceOf(h, el);
      if sourceId !in groups {
        groups := groups[sourceId := []];
        order := order + [sourceId];
      }
      groups := groups[sourceId := groups[sourceId] + [el]];
      PrefixSnoc(elements, k);
      GroupAllUnfold(h, elements[..k], el);
    }
    assert elements[..|elements|] == elements;
    result := SourceGroups(order, groups);
  }
}
