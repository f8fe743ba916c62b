/** The query engine: filters and orders the index's hits, and keeps a
    result cache keyed by search kind and query text. */
module Query {
  import opened Strings
  import opened Types
  import opened Sorting

  // ---------------------------------------------------------------------
  // apply_filters

  /** Whether one filter keeps a result. `Package` and `Module` both test
      the file path for a substring. */
  predicate Keeps(f: SearchFilter, r: SearchResult)
  {
    match f
    case KindFilter(kind) => r.declaration.kind == kind
    case AnnotationFilter(annotation) =>
      exists i :: 0 <= i < |r.declaration.annotations| && Contains(r.declaration.annotations[i].name, annotation)
    case PackageFilter(package) => Contains(r.filePath, package)
    case ModuleFilter(moduleName) => Contains(r.filePath, moduleName)
  }

  /** One `into_iter().filter(..).collect()` pass. */
  function FilterBy(results: seq<SearchResult>, f: SearchFilter): (r: seq<SearchResult>)
    ensures |r| <= |results|
  {
    if results == [] then []
    else
      var x := results[|results| - 1];
      FilterBy(results[..|results| - 1], f) + (if Keeps(f, x) then [x] else [])
  }

  /** The passes in filter order. */
  function ApplyAll(results: seq<SearchResult>, filters: seq<SearchFilter>): seq<SearchResult>
  {
    if filters == [] then results
    else FilterBy(ApplyAll(results, filters[..|filters| - 1]), filters[|filters| - 1])
  }

  predicate KeptByAll(filters: seq<SearchFilter>, x: SearchResult)
  {
    forall i :: 0 <= i < |filters| ==> Keeps(filters[i], x)
  }

  /** The reference: a single pass keeping what every filter keeps. */
  function KeepAll(results: seq<SearchResult>, filters: seq<SearchFilter>): seq<SearchResult>
  {
    if results == [] then []
    else
      var x := results[|results| - 1];
      KeepAll(results[..|results| - 1], filters) + (if KeptByAll(filters, x) then [x] else [])
  }

  lemma {:induction false} FilterKeepAll(results: seq<SearchResult>, filters: seq<SearchFilter>, f: SearchFilter)
    ensures FilterBy(KeepAll(results, filters), f) == KeepAll(results, filters + [f])
  {
    if results != [] {
      var init := results[..|results| - 1];
      var x := results[|results| - 1];
      FilterKeepAll(init, filters, f);
      var fs := filters + [f];
      assert KeptByAll(fs, x) <==> KeptByAll(filters, x) && Keeps(f, x) by {
        assert fs[|filters|] == f;
        assert forall i :: 0 <= i < |filters| ==> fs[i] == filters[i];
      }
      var k0 := KeepAll(init, filters);
      if KeptByAll(filters, x) {
        assert KeepAll(results, filters) == k0 + [x];
        assert (k0 + [x])[..|k0|] == k0;
        assert FilterBy(k0 + [x], f) == FilterBy(k0, f) + (if Keeps(f, x) then [x] else []);
      } else {
        assert KeepAll(results, filters) == k0;
      }
    }
  }

  /** Applying the filters one after another is one pass with their
      conjunction. */
  lemma {:induction false} ApplyAllIsConjunction(results: seq<SearchResult>, filters: seq<SearchFilter>)
    ensures ApplyAll(results, filters) == KeepAll(results, filters)
  {
    if filters == [] {
      KeepAllNone(results);
    } else {
      var init := filters[..|filters| - 1];
      ApplyAllIsConjunction(results, init);
      FilterKeepAll(results, init, filters[|filters| - 1]);
      assert init + [filters[|filters| - 1]] == filters;
    }
  }

  lemma {:induction false} KeepAllNone(results: seq<SearchResult>)
    ensures KeepAll(results, []) == results
  {
    if results != [] {
      KeepAllNone(results[..|results| - 1]);
    }
  }

  /** A result survives exactly when it was a hit and every filter keeps it. */
  lemma {:induction false} KeepAllIff(results: seq<SearchResult>, filters: seq<SearchFilter>, x: SearchResult)
    ensures x in KeepAll(results, filters) <==> x in results && KeptByAll(filters, x)
  {
    if results != [] {
      KeepAllIff(results[..|results| - 1], filters, x);
      assert results == results[..|results| - 1] + [results[|results| - 1]];
    }
  }

  /** The output depends only on which filters are given, not on their
      order or repetition. */
  lemma {:induction false} KeepAllOrderFree(results: seq<SearchResult>, fs: seq<SearchFilter>, gs: seq<SearchFilter>)
    requires forall f :: f in fs <==> f in gs
    ensures KeepAll(results, fs) == KeepAll(results, gs)
  {
    if results != [] {
      KeepAllOrderFree(results[..|results| - 1], fs, gs);
      var x := results[|results| - 1];
      assert KeptByAll(fs, x) == KeptByAll(gs, x) by {
        if KeptByAll(fs, x) {
          forall j | 0 <= j < |gs|
            ensures Keeps(gs[j], x)
          {
            assert gs[j] in fs;
          }
        }
        if KeptByAll(gs, x) {
          forall j | 0 <= j < |fs|
            ensures Keeps(fs[j], x)
          {
            assert fs[j] in gs;
          }
        }
      }
    }
  }

  /** Order is kept: with nothing removed the list comes back unchanged. */
  lemma {:induction false} KeepAllKeepsOrder(results: seq<SearchResult>, filters: seq<SearchFilter>)
    requires forall i :: 0 <= i < |results| ==> KeptByAll(filters, results[i])
    ensures KeepAll(results, filters) == results
  {
    if results != [] {
      KeepAllKeepsOrder(results[..|results| - 1], filters);
      assert results == results[..|results| - 1] + [results[|results| - 1]];
    }
  }

  /** `apply_filters`. */
  method ApplyFilters(results0: seq<SearchResult>, filters: seq<SearchFilter>) returns (results: seq<SearchResult>)
    ensures results == ApplyAll(results0, filters)
  {
    results := results0;
    for i := 0 to |filters|
      invariant results == ApplyAll(results0, filters[..i])
    {
      assert filters[..i + 1][..i] == filters[..i];
      results := FilterBy(results, filters[i]);
    }
    assert filters[..|filters|] == filters;
  }

  // ---------------------------------------------------------------------
  // sort_results

  predicate ByName(a: SearchResult, b: SearchResult)
  {
    LexLe(a.declaration.name, b.declaration.name)
  }

  /** Paths are ordered as strings here. */
  predicate ByPath(a: SearchResult, b: SearchResult)
  {
    LexLe(a.filePath, b.filePath)
  }

  predicate ByScoreDescending(a: SearchResult, b: SearchResult)
  {
    a.score >= b.score
  }

  /** The comparison `sort_results` uses for each search kind. */
  function Order(kind: SearchKind): (SearchResult, SearchResult) -> bool
  {
    match kind
    case Fuzzy => ByScoreDescending
    case Exact => ByName
    case Regex => ByPath
  }

  lemma OrderIsTotalPreorder(kind: SearchKind)
    ensures TotalPreorder(Order(kind))
  {
    match kind
    case Fuzzy =>
    case Exact =>
      forall a: SearchResult, b: SearchResult
        ensures ByName(a, b) || ByName(b, a)
      {
        LexLeTotal(a.declaration.name, b.declaration.name);
      }
      forall a: SearchResult, b: SearchResult, c: SearchResult | ByName(a, b) && ByName(b, c)
        ensures ByName(a, c)
      {
        LexLeTransitive(a.declaration.name, b.declaration.name, c.declaration.name);
      }
    case Regex =>
      forall a: SearchResult, b: SearchResult
        ensures ByPath(a, b) || ByPath(b, a)
      {
        LexLeTotal(a.filePath, b.filePath);
      }
      forall a: SearchResult, b: SearchResult, c: SearchResult | ByPath(a, b) && ByPath(b, c)
        ensures ByPath(a, c)
      {
        LexLeTransitive(a.filePath, b.filePath, c.filePath);
      }
  }

  /** `sort_results`: a stable sort under the kind's order. */
  function SortResults(results: seq<SearchResult>, kind: SearchKind): seq<SearchResult>
  {
    SortBy(results, Order(kind))
  }

  /** The sorted list is a permutation of the input, ascending by name for
      Exact, by path for Regex, and descending by score for Fuzzy; results
      that tie keep their input order. */
  lemma SortResultsSpec(results: seq<SearchResult>, kind: SearchKind)
    ensures multiset(SortResults(results, kind)) == multiset(results)
    ensures SortedBy(SortResults(results, kind), Order(kind))
    ensures kind == Fuzzy ==> forall i, j :: 0 <= i < j < |results| ==> SortResults(results, kind)[i].score >= SortResults(results, kind)[j].score
    ensures forall e :: EquivalentsOf(SortResults(results, kind), Order(kind), e) == EquivalentsOf(results, Order(kind), e)
  {
    OrderIsTotalPreorder(kind);
    SortPermutes(results, Order(kind));
    SortSorted(results, Order(kind));
    forall e {
      SortStable(results, Order(kind), e);
    }
  }

  // ---------------------------------------------------------------------
  // search and its cache

  /** `format!("{:?}:{}", kind, query)`. */
  function CacheKey(q: SearchQuery): string
  {
    SearchKindName(q.kind) + ":" + q.query
  }

  /** The key determines the kind and the query text, and nothing else. */
  lemma CacheKeyDetermines(q1: SearchQuery, q2: SearchQuery)
    ensures CacheKey(q1) == CacheKey(q2) <==> q1.kind == q2.kind && q1.query == q2.query
  {
    if CacheKey(q1) == CacheKey(q2) {
      var k1, k2 := SearchKindName(q1.kind), SearchKindName(q2.kind);
      assert |k1| == 5 && |k2| == 5;
      assert CacheKey(q1)[..5] == k1 && CacheKey(q2)[..5] == k2;
      assert q1.kind == q2.kind;
      assert CacheKey(q1)[6..] == q1.query && CacheKey(q2)[6..] == q2.query;
    }
  }

  /** What a miss computes: the index's hits, filtered, then sorted. */
  function Fresh(index: SearchQuery -> seq<SearchResult>, q: SearchQuery): seq<SearchResult>
  {
    SortResults(ApplyAll(index(q), q.filters), q.kind)
  }

  /** What `search` answers: the cached list when the key is present. */
  function Answer(index: SearchQuery -> seq<SearchResult>, cache: map<string, seq<SearchResult>>, q: SearchQuery): seq<SearchResult>
  {
    if CacheKey(q) in cache then cache[CacheKey(q)] else Fresh(index, q)
  }

  /** Every cached list is the fresh answer to some query with its key. */
  ghost predicate CacheSound(index: SearchQuery -> seq<SearchResult>, cache: map<string, seq<SearchResult>>)
  {
    forall key :: key in cache ==> exists q :: CacheKey(q) == key && cache[key] == Fresh(index, q)
  }

  /** With a sound cache, any answer is the fresh answer to a query of the
      same kind and text, so it is sorted the way the kind asks and every
      result in it was a hit for that text; only the filters and the limit
      may differ from the query asked. */
  lemma AnswerOfSoundCache(index: SearchQuery -> seq<SearchResult>, cache: map<string, seq<SearchResult>>, q: SearchQuery)
    requires CacheSound(index, cache)
    ensures exists q': SearchQuery :: q'.kind == q.kind && q'.query == q.query && Answer(index, cache, q) == Fresh(index, q')
  {
    if CacheKey(q) in cache {
      var q' :| CacheKey(q') == CacheKey(q) && cache[CacheKey(q)] == Fresh(index, q');
      CacheKeyDetermines(q, q');
    }
  }

  /** Two queries with the same kind and text share an entry: after
      `search_by_kind(Class)`, `exact_search("Class")` gets back the
      kind-filtered list. */
  lemma KindSearchSharesKey(kind: DeclarationKind, l1: Option<nat>, l2: Option<nat>)
    ensures CacheKey(KindQuery(kind, l1)) == CacheKey(TextQuery(KindName(kind), Exact, l2))
  {
  }

  /** Sum of the cached list lengths. */
  ghost function TotalLength(cache: map<string, seq<SearchResult>>): nat
    decreases |cache.Keys|
  {
    if cache == map[] then 0
    else
      var key :| key in cache;
      |cache[key]| + TotalLength(cache - {key})
  }

  /** Any entry may be counted first. */
  lemma {:induction false} TotalLengthRemove(cache: map<string, seq<SearchResult>>, key: string)
    requires key in cache
    ensures TotalLength(cache) == |cache[key]| + TotalLength(cache - {key})
    decreases |cache.Keys|
  {
    var first :| first in cache && TotalLength(cache) == |cache[first]| + TotalLength(cache - {first});
    if first != key {
      assert (cache - {first}).Keys == cache.Keys - {first};
      assert (cache - {key}).Keys == cache.Keys - {key};
      TotalLengthRemove(cache - {first}, key);
      TotalLengthRemove(cache - {key}, first);
      assert cache - {first} - {key} == cache - {key} - {first};
    }
  }

  /** A miss adds one entry holding the returned list. */
  lemma TotalLengthInsert(cache: map<string, seq<SearchResult>>, key: string, results: seq<SearchResult>)
    requires key !in cache
    ensures |cache[key := results].Keys| == |cache.Keys| + 1
    ensures TotalLength(cache[key := results]) == TotalLength(cache) + |results|
  {
    var m := cache[key := results];
    assert m.Keys == cache.Keys + {key};
    TotalLengthRemove(m, key);
    assert m - {key} == cache;
  }

  /** The query `search_by_kind` issues. */
  function KindQuery(kind: DeclarationKind, limit: Option<nat>): SearchQuery
  {
    SearchQuery(KindName(kind), Exact, [KindFilter(kind)], limit)
  }

  /** The query `search_by_annotation` issues. */
  function AnnotationQuery(annotation: string, limit: Option<nat>): SearchQuery
  {
    SearchQuery(annotation, Exact, [AnnotationFilter(annotation)], limit)
  }

  /** The query `search_by_package` issues. */
  function PackageQuery(package: string, limit: Option<nat>): SearchQuery
  {
    SearchQuery(package, Exact, [PackageFilter(package)], limit)
  }

  /** The unfiltered query of `fuzzy_search`, `exact_search` and `regex_search`. */
  function TextQuery(text: string, kind: SearchKind, limit: Option<nat>): SearchQuery
  {
    SearchQuery(text, kind, [], limit)
  }

  /** A fresh kind search yields only declarations of that kind. */
  lemma KindQueryKeepsKind(index: SearchQuery -> seq<SearchResult>, kind: DeclarationKind, limit: Option<nat>, x: SearchResult)
    requires x in Fresh(index, KindQuery(kind, limit))
    ensures x.declaration.kind == kind && x in index(KindQuery(kind, limit))
  {
    var q := KindQuery(kind, limit);
    SortResultsSpec(ApplyAll(index(q), q.filters), q.kind);
    assert x in multiset(ApplyAll(index(q), q.filters));
    ApplyAllIsConjunction(index(q), q.filters);
    KeepAllIff(index(q), q.filters, x);
    assert Keeps(q.filters[0], x);
  }

  /** An index with no hits answers nothing to a query missing the cache. */
  lemma EmptyIndexAnswersNothing(index: SearchQuery -> seq<SearchResult>, q: SearchQuery)
    requires index(q) == []
    ensures Fresh(index, q) == []
  {
    ApplyAllIsConjunction([], q.filters);
  }

  datatype QueryStatistics = QueryStatistics(
    totalDeclarations: nat,
    classCount: nat,
    interfaceCount: nat,
    enumCount: nat,
    recordCount: nat,
    annotationCount: nat)

  /** The query engine over a fixed index. `index` answers each query with
      the hits the full-text index returns; `documentCount` is its number
      of documents. */
  class QueryEngine {
    const index: SearchQuery -> seq<SearchResult>
    const documentCount: nat
    var cache: map<string, seq<SearchResult>>

    ghost predicate Valid()
      reads this
    {
      CacheSound(index, cache)
    }

    constructor (index: SearchQuery -> seq<SearchResult>, documentCount: nat)
      ensures this.index == index && this.documentCount == documentCount
      ensures cache == map[] && Valid()
    {
      this.index := index;
      this.documentCount := documentCount;
      cache := map[];
    }

    /** `search`: a hit returns the stored list and changes nothing; a miss
        filters and sorts the index's hits and stores them under the key. */
    method Search(query: SearchQuery) returns (results: seq<SearchResult>)
      requires Valid()
      modifies this
      ensures Valid()
      ensures results == Answer(index, old(cache), query)
      ensures CacheKey(query) in old(cache) ==> cache == old(cache)
      ensures CacheKey(query) !in old(cache) ==> cache == old(cache)[CacheKey(query) := results]
    {
      var cacheKey := SearchKindName(query.kind) + ":" + query.query;
      if cacheKey in cache {
        return cache[cacheKey];
      }
      results := index(query);
      results := ApplyFilters(results, query.filters);
      results := SortResults(results, query.kind);
      assert results == Fresh(index, query);
      cache := cache[cacheKey := results];
      assert CacheKey(query) == cacheKey && cache[cacheKey] == Fresh(index, query);
    }

    method SearchByKind(kind: DeclarationKind, limit: Option<nat>) returns (results: seq<SearchResult>)
      requires Valid()
      modifies this
      ensures Valid()
      ensures results == Answer(index, old(cache), KindQuery(kind, limit))
      ensures cache == old(cache)[CacheKey(KindQuery(kind, limit)) := results]
    {
      results := Search(KindQuery(kind, limit));
    }

    method SearchByAnnotation(annotation: string, limit: Option<nat>) returns (results: seq<SearchResult>)
      requires Valid()
      modifies this
      ensures Valid()
      ensures results == Answer(index, old(cache), AnnotationQuery(annotation, limit))
      ensures cache == old(cache)[CacheKey(AnnotationQuery(annotation, limit)) := results]
    {
      results := Search(AnnotationQuery(annotation, limit));
    }

    method SearchByPackage(package: string, limit: Option<nat>) returns (results: seq<SearchResult>)
      requires Valid()
      modifies this
      ensures Valid()
      ensures results == Answer(index, old(cache), PackageQuery(package, limit))
      ensures cache == old(cache)[CacheKey(PackageQuery(package, limit)) := results]
    {
      results := Search(PackageQuery(package, limit));
    }

    method FuzzySearch(text: string, limit: Option<nat>) returns (results: seq<SearchResult>)
      requires Valid()
      modifies this
      ensures Valid()
      ensures results == Answer(index, old(cache), TextQuery(text, Fuzzy, limit))
      ensures cache == old(cache)[CacheKey(TextQuery(text, Fuzzy, limit)) := results]
    {
      results := Search(TextQuery(text, Fuzzy, limit));
    }

    method ExactSearch(text: string, limit: Option<nat>) returns (results: seq<SearchResult>)
      requires Valid()
      modifies this
      ensures Valid()
      ensures results == Answer(index, old(cache), TextQuery(text, Exact, limit))
      ensures cache == old(cache)[CacheKey(TextQuery(text, Exact, limit)) := results]
    {
      results := Search(TextQuery(text, Exact, limit));
    }

    method RegexSearch(pattern: string, limit: Option<nat>) returns (results: seq<SearchResult>)
      requires Valid()
      modifies this
      ensures Valid()
      ensures results == Answer(index, old(cache), TextQuery(pattern, Regex, limit))
      ensures cache == old(cache)[CacheKey(TextQuery(pattern, Regex, limit)) := results]
    {
      results := Search(TextQuery(pattern, Regex, limit));
    }

    /** `get_statistics`: the document count and the lengths of the five
        kind searches; the five keys differ, so each count is the answer
        the cache held before the call. */
    method GetStatistics() returns (stats: QueryStatistics)
      requires Valid()
      modifies this
      ensures Valid()
      ensures stats.totalDeclarations == documentCount
      ensures stats.classCount == |Answer(index, old(cache), KindQuery(Class, None))|
      ensures stats.interfaceCount == |Answer(index, old(cache), KindQuery(Interface, None))|
      ensures stats.enumCount == |Answer(index, old(cache), KindQuery(Enum, None))|
      ensures stats.recordCount == |Answer(index, old(cache), KindQuery(Record, None))|
      ensures stats.annotationCount == |Answer(index, old(cache), KindQuery(AnnotationType, None))|
    {
      ghost var c0 := cache;
      var classes := SearchByKind(Class, None);
      ghost var c1 := cache;
      var interfaces := SearchByKind(Interface, None);
      StoredAnswer(index, c0, Class, Interface, classes);
      ghost var c2 := cache;
      var enums := SearchByKind(Enum, None);
      StoredAnswer(index, c0, Class, Enum, classes);
      StoredAnswer(index, c1, Interface, Enum, interfaces);
      ghost var c3 := cache;
      var records := SearchByKind(Record, None);
      StoredAnswer(index, c0, Class, Record, classes);
      StoredAnswer(index, c1, Interface, Record, interfaces);
      StoredAnswer(index, c2, Enum, Record, enums);
      var annotations := SearchByKind(AnnotationType, None);
      StoredAnswer(index, c0, Class, AnnotationType, classes);
      StoredAnswer(index, c1, Interface, AnnotationType, interfaces);
      StoredAnswer(index, c2, Enum, AnnotationType, enums);
      StoredAnswer(index, c3, Record, AnnotationType, records);
      stats := QueryStatistics(documentCount, |classes|, |interfaces|, |enums|, |records|, |annotations|);
    }

    /** `clear_cache`. */
    method ClearCache()
      requires Valid()
      modifies this
      ensures Valid() && cache == map[]
    {
      cache := map[];
    }

    /** `get_cache_stats`: the number of entries and the total number of
        cached results, summed over the entries in map order. */
    method GetCacheStats() returns (entries: nat, total: nat)
      ensures entries == |cache.Keys| && total == TotalLength(cache)
    {
      entries := |cache.Keys|;
      total := 0;
      var remaining := cache.Keys;
      assert (map key | key in remaining :: cache[key]) == cache;
      while remaining != {}
        invariant remaining <= cache.Keys
        invariant total + TotalLength(map key | key in remaining :: cache[key]) == TotalLength(cache)
        decreases |remaining|
      {
        var key :| key in remaining;
        var rest := map k | k in remaining :: cache[k];
        TotalLengthRemove(rest, key);
        assert rest - {key} == map k | k in remaining - {key} :: cache[k];
        total := total + |cache[key]|;
        remaining := remaining - {key};
      }
    }
  }

  /** Storing the answer to one kind search leaves the answer to another
      kind search alone: the two keys differ. */
  lemma StoredAnswer(index: SearchQuery -> seq<SearchResult>, cache: map<string, seq<SearchResult>>, stored: DeclarationKind, later: DeclarationKind, v: seq<SearchResult>)
    requires stored != later
    ensures Answer(index, cache[CacheKey(KindQuery(stored, None)) := v], KindQuery(later, None)) == Answer(index, cache, KindQuery(later, None))
  {
    CacheKeyDetermines(KindQuery(stored, None), KindQuery(later, None));
    KindNameInjective(stored, later);
  }

  lemma KindNameInjective(k1: DeclarationKind, k2: DeclarationKind)
    requires k1 != k2
    ensures KindName(k1) != KindName(k2)
  {
    match k1
    case Class => assert KindName(k1)[0] == 'C';
    case Interface => assert KindName(k1)[0] == 'I';
    case Enum => assert KindName(k1)[0] == 'E';
    case Record => assert KindName(k1)[0] == 'R';
    case AnnotationType => assert KindName(k1)[0] == 'A';
  }
}
