/**
 * The server's file cache: a map from file name to content with a capacity
 * and an insertion list. When the map is full, the oldest ENTRY OF THE LIST is
 * evicted (first in, first out), and a name already present is never
 * overwritten but does go to the end of the list again. The cache also holds
 * the catalog lookup tables that the server derives once per configuration.
 */
module CacheStore {
  import opened Optional
  import opened Catalog

  /** The cache's contents: the map, the insertion list and the capacity. */
  datatype CacheState = CacheState(entries: map<string, string>, order: seq<string>, capacity: int)

  /** The lookup tables `createMaps` derives from the catalog. */
  datatype CatalogMaps = CatalogMaps(
    fileNameMap: map<string, map<string, seq<string>>>,
    folderNameMap: map<string, string>,
    includesMap: map<string, seq<(string, string)>>,
    moduleNameMap: map<string, Option<string>>,
    outputOrderMap: map<string, Option<int>>)

  /** The tables for a catalog, each keyed by abbreviation with a later element winning. */
  function MapsOf(es: seq<Element>): CatalogMaps
  {
    CatalogMaps(FileNameMap(es), FolderMap(es), IncludesMap(es),
      Index(es, Always, ModuleNameOf), Index(es, Always, OutputOrderOf))
  }

  /** An empty cache of the given capacity. */
  function Empty(capacity: int): CacheState
  {
    CacheState(map[], [], capacity)
  }

  /** The size check evicts: the map is at capacity and there is an oldest list entry. */
  predicate Evicts(st: CacheState)
  {
    |st.entries| >= st.capacity && |st.order| > 0
  }

  /**
   * `updateCache(f, c)`: at capacity, drop the first list entry from the
   * map and the list; then store `c` under `f` unless `f` is still present;
   * finally append `f` to the list.
   */
  function Update(st: CacheState, f: string, c: string): (st2: CacheState)
    ensures st2.capacity == st.capacity
  {
    var st1 := if Evicts(st) then CacheState(st.entries - {st.order[0]}, st.order[1..], st.capacity) else st;
    CacheState(if f in st1.entries then st1.entries else st1.entries[f := c], st1.order + [f], st.capacity)
  }

  /** Every key of the map occurs in the insertion list. */
  predicate KeysListed(st: CacheState)
  {
    forall k :: k in st.entries ==> k in st.order
  }

  // ---------------------------------------------------------------------
  // Properties of one update
  // ---------------------------------------------------------------------

  /** After an update the name is in the map and ends the list. */
  lemma UpdateStores(st: CacheState, f: string, c: string)
    ensures var st2 := Update(st, f, c);
      f in st2.entries && |st2.order| > 0 && st2.order[|st2.order| - 1] == f
  {
  }

  /**
   * At capacity, exactly the oldest list entry leaves the list and the map,
   * whether or not `f` is already present (first in, first out, not least
   * recently used); below capacity nothing leaves.
   */
  lemma UpdateEvictsOldest(st: CacheState, f: string, c: string)
    ensures var st2 := Update(st, f, c);
      if Evicts(st) then
        st2.order == st.order[1..] + [f] &&
        st2.entries.Keys == (st.entries.Keys - {st.order[0]}) + {f}
      else
        st2.order == st.order + [f] &&
        st2.entries.Keys == st.entries.Keys + {f}
  {
  }

  /**
   * Content is never overwritten: a name present before keeps its content
   * unless it was the entry just evicted, in which case it gets the new
   * content; every other name keeps its content.
   */
  lemma UpdateKeepsContent(st: CacheState, f: string, c: string)
    ensures var st2 := Update(st, f, c);
      var evicted := Evicts(st) && st.order[0] == f;
      (f in st.entries && !evicted ==> st2.entries[f] == st.entries[f]) &&
      (f !in st.entries || evicted ==> st2.entries[f] == c) &&
      (forall g :: g in st2.entries && g != f ==> g in st.entries && st2.entries[g] == st.entries[g])
  {
  }

  /** An update keeps every key listed. */
  lemma UpdateKeepsKeysListed(st: CacheState, f: string, c: string)
    requires KeysListed(st)
    ensures KeysListed(Update(st, f, c))
  {
    var st2 := Update(st, f, c);
    forall k | k in st2.entries ensures k in st2.order {
      if k != f {
        assert k in st.entries;
        if Evicts(st) {
          assert k != st.order[0];
          assert st.order == [st.order[0]] + st.order[1..];
        }
      }
    }
  }

  // ---------------------------------------------------------------------
  // Sequences of updates
  // ---------------------------------------------------------------------

  /** Updating with each name (and its content) in turn. */
  function Inserts(st: CacheState, fs: seq<string>, cs: seq<string>): CacheState
    requires |fs| == |cs|
  {
    if fs == [] then st
    else Update(Inserts(st, fs[..|fs| - 1], cs[..|cs| - 1]), fs[|fs| - 1], cs[|cs| - 1])
  }

  /** No name occurs twice. */
  predicate Distinct(fs: seq<string>)
  {
    forall i, j :: 0 <= i < j < |fs| ==> fs[i] != fs[j]
  }

  /** The state a run of distinct names keeps: the keys are the list's names, without repetition, within capacity. */
  predicate Tidy(st: CacheState)
  {
    st.entries.Keys == (set x | x in st.order) && Distinct(st.order) && |st.order| <= st.capacity
  }

  /** One update with a name not yet listed keeps the state tidy, evicting the oldest exactly when full. */
  lemma UpdateFresh(st: CacheState, f: string, c: string)
    requires st.capacity >= 1 && Tidy(st) && f !in st.order
    ensures var st2 := Update(st, f, c);
      Tidy(st2) && st2.order == (if |st.order| == st.capacity then st.order[1..] else st.order) + [f]
  {
    DistinctSize(st.order);
    if |st.order| == st.capacity {
      assert Evicts(st);
      DropOldest(st.order);
    }
    AppendFresh(if |st.order| == st.capacity then st.order[1..] else st.order, f);
  }

  /** Dropping the first name of a distinct list removes exactly that name, and the rest stays distinct. */
  lemma DropOldest(o: seq<string>)
    requires o != [] && Distinct(o)
    ensures (set x | x in o) - {o[0]} == (set x | x in o[1..])
    ensures Distinct(o[1..])
  {
    assert o == [o[0]] + o[1..];
  }

  /** Appending a name not yet listed keeps a list distinct and adds exactly that name. */
  lemma AppendFresh(o: seq<string>, f: string)
    requires Distinct(o) && f !in o
    ensures Distinct(o + [f])
    ensures (set x | x in o + [f]) == (set x | x in o) + {f}
  {
  }

  /** The smaller of two counts. */
  function Min(a: int, b: int): int
  {
    if a < b then a else b
  }

  /**
   * From an empty cache of capacity c >= 1, pairwise-distinct names leave
   * exactly the last min(n, c) of them, in order, in the list, and the map's
   * keys are exactly the listed names.
   */
  lemma {:induction false} DistinctInsertsKeepLast(c: int, fs: seq<string>, cs: seq<string>)
    requires c >= 1 && |fs| == |cs| && Distinct(fs)
    ensures var st := Inserts(Empty(c), fs, cs);
      st.capacity == c && st.order == fs[|fs| - Min(|fs|, c)..] && Tidy(st)
  {
    if fs != [] {
      var n := |fs|;
      var front, fronts := fs[..n - 1], cs[..n - 1];
      var st := Inserts(Empty(c), front, fronts);
      assert st.capacity == c && st.order == fs[n - 1 - Min(n - 1, c)..n - 1] && Tidy(st) by {
        assert Distinct(front);
        DistinctInsertsKeepLast(c, front, fronts);
        assert front[n - 1 - Min(n - 1, c)..] == fs[n - 1 - Min(n - 1, c)..n - 1];
      }
      assert fs[n - 1] !in st.order by {
        NotInWindow(fs, n - 1 - Min(n - 1, c));
      }
      UpdateFresh(st, fs[n - 1], cs[n - 1]);
      ShiftWindow(fs, st.order, c);
    }
  }

  /** The last name of a distinct run is not among the names before it. */
  lemma NotInWindow(fs: seq<string>, a: nat)
    requires Distinct(fs) && a < |fs|
    ensures fs[|fs| - 1] !in fs[a..|fs| - 1]
  {
    forall k | a <= k < |fs| - 1 ensures fs[k] != fs[|fs| - 1] {
    }
  }

  /** The window of the last min(n - 1, c) names, advanced by the n-th name. */
  lemma ShiftWindow(fs: seq<string>, o: seq<string>, c: int)
    requires c >= 1 && |fs| >= 1
    requires o == fs[|fs| - 1 - Min(|fs| - 1, c)..|fs| - 1]
    ensures (if |o| == c then o[1..] else o) + [fs[|fs| - 1]] == fs[|fs| - Min(|fs|, c)..]
  {
  }

  /** A list without repetitions has as many distinct elements as entries. */
  lemma {:induction false} DistinctSize(s: seq<string>)
    requires Distinct(s)
    ensures |set x | x in s| == |s|
  {
    if s != [] {
      var front := s[..|s| - 1];
      assert Distinct(front);
      DistinctSize(front);
      assert (set x | x in s) == (set x | x in front) + {s[|s| - 1]};
      assert s[|s| - 1] !in (set x | x in front);
    }
  }

  /** Hence the map never exceeds the capacity, and after c + 1 distinct names the first is gone. */
  lemma DistinctInsertsBounded(c: int, fs: seq<string>, cs: seq<string>)
    requires c >= 1 && |fs| == |cs| && Distinct(fs)
    ensures |Inserts(Empty(c), fs, cs).entries| <= c
    ensures |fs| > c ==> fs[0] !in Inserts(Empty(c), fs, cs).entries
  {
    DistinctInsertsKeepLast(c, fs, cs);
    var st := Inserts(Empty(c), fs, cs);
    DistinctSize(st.order);
    if |fs| > c {
      forall k | 0 <= k < |st.order| ensures st.order[k] != fs[0] {
        assert st.order[k] == fs[|fs| - c + k];
      }
    }
  }

  /**
   * The bound is not unconditional: with a repeated name (what a cache hit
   * in the builder produces) a cache of capacity 2 ends up holding 3 files.
   */
  lemma RepeatsOverflow()
    ensures |Inserts(Empty(2), ["a", "a", "b", "c", "d"], ["", "", "", "", ""]).entries| == 3
  {
    var fs, cs := ["a", "a", "b", "c", "d"], ["", "", "", "", ""];
    var s3 := CacheState(map["a" := "", "b" := ""], ["a", "a", "b"], 2);
    assert Inserts(Empty(2), fs[..4], cs[..4]) == Update(s3, "c", "") by {
      assert fs[..4][..3] == ["a", "a", "b"] && cs[..4][..3] == ["", "", ""];
      RepeatsStart();
    }
    assert fs[..|fs| - 1] == fs[..4] && cs[..|cs| - 1] == cs[..4];
    RepeatsEnd();
  }

  /** The first three updates: the repeated name is listed twice but stored once. */
  lemma RepeatsStart()
    ensures Inserts(Empty(2), ["a", "a", "b"], ["", "", ""]) == CacheState(map["a" := "", "b" := ""], ["a", "a", "b"], 2)
  {
    var fs, cs := ["a", "a", "b"], ["", "", ""];
    assert fs[..2] == ["a", "a"] && cs[..2] == ["", ""];
    RepeatsTwo();
  }

  /** The first two updates: the second finds the name present and only lists it again. */
  lemma RepeatsTwo()
    ensures Inserts(Empty(2), ["a", "a"], ["", ""]) == CacheState(map["a" := ""], ["a", "a"], 2)
  {
    var fs, cs := ["a", "a"], ["", ""];
    assert fs[..1] == ["a"] && cs[..1] == [""] && fs[..1][..0] == [] && cs[..1][..0] == [];
    var s1 := CacheState(map["a" := ""], ["a"], 2);
    assert Inserts(Empty(2), fs[..1], cs[..1]) == s1;
    assert |s1.entries| == 1 && !Evicts(s1);
  }

  /** The last two updates: each evicts a stale `a` that is no longer stored, so nothing leaves. */
  lemma RepeatsEnd()
    ensures |Update(Update(CacheState(map["a" := "", "b" := ""], ["a", "a", "b"], 2), "c", ""), "d", "").entries| == 3
  {
    var s3 := CacheState(map["a" := "", "b" := ""], ["a", "a", "b"], 2);
    assert |s3.entries| == 2 && Evicts(s3);
    assert s3.entries - {"a"} == map["b" := ""];
    assert s3.order[1..] == ["a", "b"];
    var s4 := Update(s3, "c", "");
    assert s4.entries == map["b" := "", "c" := ""] && s4.order == ["a", "b", "c"];
    assert s4.entries - {"a"} == s4.entries;
  }

  // ---------------------------------------------------------------------
  // The cache object
  // ---------------------------------------------------------------------

  /** `Cache`: its map, list and capacity are updated in place; logging is left out. */
  class Cache {
    var cacheMap: map<string, string>
    var cacheList: seq<string>
    var cacheSize: int
    var config: Config
    /** `_maps`: `undefined` until `createMaps` has run. */
    var maps: Option<CatalogMaps>

    /** The map, list and capacity as one value. */
    function State(): CacheState
      reads this
    {
      CacheState(cacheMap, cacheList, cacheSize)
    }

    /** Capacity 1 unless a (non-null) size is given; the tables are not built yet. */
    constructor(size: Option<int>, configIn: Config)
      ensures State() == Empty(if size.Some? then size.value else 1)
      ensures config == configIn && maps.None?
    {
      cacheMap := map[];
      cacheList := [];
      cacheSize := 1;
      if size.Some? {
        cacheSize := size.value;
      }
      config := configIn;
      maps := None;
    }

    /** `resetCache`: an empty cache of the new capacity for the new configuration, with fresh tables. */
    method ResetCache(size: int, configIn: Config)
      modifies this
      ensures State() == Empty(size) && config == configIn
      ensures maps == Some(MapsOf(configIn.elements))
    {
      cacheMap := map[];
      cacheList := [];
      cacheSize := size;
      config := configIn;
      CreateMaps();
    }

    /** `searchCache`: the stored content, or `false` (here `None`) for an absent name. */
    method SearchCache(filename: string) returns (r: Option<string>)
      ensures r.Some? <==> filename in State().entries
      ensures r.Some? ==> r.value == State().entries[filename]
    {
      if filename in cacheMap {
        return Some(cacheMap[filename]);
      }
      return None;
    }

    /** `updateCache`; the `refresh` flag only selects a log message and is left out. */
    method UpdateCache(filename: string, fileContent: string)
      modifies this
      ensures State() == Update(old(State()), filename, fileContent)
      ensures unchanged(this`config, this`maps)
    {
      if |cacheMap| >= cacheSize && |cacheList| > 0 {
        cacheMap := cacheMap - {cacheList[0]};
        cacheList := cacheList[1..];
      }
      if filename !in cacheMap {
        cacheMap := cacheMap[filename := fileContent];
      }
      cacheList := cacheList + [filename];
    }

    /** `createMaps`: the tables for the current configuration. */
    method CreateMaps()
      modifies this
      ensures maps == Some(MapsOf(config.elements))
      ensures State() == old(State()) && config == old(config)
    {
      var ms := BuildMaps(config.elements);
      maps := Some(ms);
    }
  }

  /** The loop of `createMaps`: one pass over the catalog fills all five tables. */
  method BuildMaps(es: seq<Element>) returns (ms: CatalogMaps)
    ensures ms == MapsOf(es)
  {
    var outputOrderMap: map<string, Option<int>> := map[];
    var folderNameMap: map<string, string> := map[];
    var moduleNameMap: map<string, Option<string>> := map[];
    var fileNameMap: map<string, map<string, seq<string>>> := map[];
    var includesMap: map<string, seq<(string, string)>> := map[];
    var i := 0;
    while i < |es|
      invariant 0 <= i <= |es|
      invariant outputOrderMap == Index(es[..i], Always, OutputOrderOf)
      invariant folderNameMap == Index(es[..i], Always, FolderOf)
      invariant moduleNameMap == Index(es[..i], Always, ModuleNameOf)
      invariant fileNameMap == Index(es[..i], HasTemplates, TemplatesOf)
      invariant includesMap == Index(es[..i], HasIncludes, IncludesOf)
    {
      var element := es[i];
      IndexStep(es, i, Always, OutputOrderOf);
      IndexStep(es, i, Always, FolderOf);
      IndexStep(es, i, Always, ModuleNameOf);
      IndexStep(es, i, HasTemplates, TemplatesOf);
      IndexStep(es, i, HasIncludes, IncludesOf);
      outputOrderMap := outputOrderMap[element.abbr := element.outputOrder];
      folderNameMap := folderNameMap[element.abbr := element.folderName];
      moduleNameMap := moduleNameMap[element.abbr := element.moduleName];
      var tempMap := TemplateTable(element.fileNames);
      if |element.fileNames| > 0 {
        fileNameMap := fileNameMap[element.abbr := tempMap];
      }
      if |element.fileIncludes| > 0 {
        includesMap := includesMap[element.abbr := element.fileIncludes];
      }
      i := i + 1;
    }
    assert es[..i] == es;
  ms := CatalogMaps(fileNameMap, folderNameMap, includesMap, moduleNameMap, outputOrderMap);
  }

  /** The inner loop of the table builders: each `fileNames` key set to its templates, in key order. */
  method TemplateTable(pairs: seq<(string, seq<string>)>) returns (tempMap: map<string, seq<string>>)
    ensures tempMap == TableOf(pairs)
  {
    tempMap := map[];
    var j := 0;
    while j < |pairs|
      invariant 0 <= j <= |pairs|
      invariant tempMap == TableOf(pairs[..j])
    {
      assert pairs[..j + 1][..j] == pairs[..j];
      tempMap := tempMap[pairs[j].0 := pairs[j].1];
      j := j + 1;
    }
    assert pairs[..j] == pairs;
  }

  /**
   * What `createMaps` sets: folder, module name and output order for every
   * abbreviation in the catalog, templates only for elements with at least
   * one `fileNames` key, includes only for elements with some; each from
   * the last element carrying that abbreviation.
   */
  lemma MapsContents(es: seq<Element>, k: string)
    ensures var ms := MapsOf(es);
      (k in ms.folderNameMap <==> exists i :: 0 <= i < |es| && es[i].abbr == k) &&
      (k in ms.outputOrderMap <==> k in ms.folderNameMap) &&
      (k in ms.moduleNameMap <==> k in ms.folderNameMap) &&
      (k in ms.fileNameMap <==> exists i :: 0 <= i < |es| && es[i].abbr == k && |es[i].fileNames| > 0) &&
      (k in ms.includesMap <==> exists i :: 0 <= i < |es| && es[i].abbr == k && |es[i].fileIncludes| > 0)
    ensures var ms := MapsOf(es); var last := LastKept(es, Always, k);
      k in ms.folderNameMap ==>
        ms.folderNameMap[k] == es[last].folderName &&
        ms.outputOrderMap[k] == es[last].outputOrder &&
        ms.moduleNameMap[k] == es[last].moduleName
  {
    IndexLastWins(es, Always, FolderOf, k);
    IndexLastWins(es, Always, OutputOrderOf, k);
    IndexLastWins(es, Always, ModuleNameOf, k);
    IndexLastWins(es, HasTemplates, TemplatesOf, k);
    IndexLastWins(es, HasIncludes, IncludesOf, k);
    var a := LastKept(es, Always, k);
    var t := LastKept(es, HasTemplates, k);
    var n := LastKept(es, HasIncludes, k);
    if a < 0 {
      assert forall i :: 0 <= i < |es| ==> es[i].abbr != k;
    }
    if t < 0 {
      assert forall i :: 0 <= i < |es| ==> !(es[i].abbr == k && HasTemplates(es[i]));
    }
    if n < 0 {
      assert forall i :: 0 <= i < |es| ==> !(es[i].abbr == k && HasIncludes(es[i]));
    }
  }
}
