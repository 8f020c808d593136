/**
 * Build assembly. A request path is cut into segments. Each segment gives an
 * abbreviation, a version, a folder name and the macros its module
 * contributes, and the trailing filename gives the file type and whether the
 * minified variant is wanted. For every module segment, the filename
 * templates for that type are expanded and the resulting paths are fetched
 * through the shared cache. The fragments are appended to the build message,
 * and finally the two header placeholders are filled in.
 */
module Builder {
  import opened Optional
  import opened Strings
  import opened Catalog
  import opened CacheStore
  import UrlValidate

  /**
   * What storage holds at a path: a readable file, or one whose read fails.
   * A path that is not a key of the storage map does not exist.
   */
  datatype Stored = Readable(content: string) | Unreadable

  /**
   * `fetchFile`'s answer: a freshly read buffer, or a string (cached content,
   * `''` for a missing file, `'500'` for a failed read).
   */
  datatype Fetched = Buffer(text: string) | Text(text: string)

  /** What fetching changes: the shared cache and the builder's `includedFiles`. */
  datatype Env = Env(cache: CacheState, included: seq<string>)

  /** How `buildFile` settles: a rejected promise, `false`, or the built file. */
  datatype BuildResult = Threw | NotBuilt | Built(file: string)

  /** abbreviation -> folder key -> filename templates (`fileNameMap`, whose inner maps the build rewrites). */
  type Tables = map<string, map<string, seq<string>>>

  /** A possibly `undefined` value concatenated onto a string. */
  function JsStr(v: Option<string>): string
  {
    if v.Some? then v.value else "undefined"
  }

  // ---------------------------------------------------------------------
  // Fetching one file
  // ---------------------------------------------------------------------

  /** `searchCache` answers something truthy: the name is stored with non-empty content. */
  predicate Hit(st: CacheState, f: string)
  {
    f in st.entries && st.entries[f] != ""
  }

  /**
   * `fetchFile(f)`. An existing file that is not a hit is read, cached and
   * recorded under its full path; a read that throws gives `'500'` and
   * changes nothing. A missing file that is not a hit is cached as `''`.
   * A hit re-inserts the cached content and is recorded with the build
   * location stripped (first occurrence only).
   */
  function Fetch(buildLocation: string, disk: map<string, Stored>, env: Env, f: string): (Fetched, Env)
  {
    if !Hit(env.cache, f) && f in disk then
      match disk[f]
      case Readable(c) => (Buffer(c), Env(Update(env.cache, f, c), env.included + [f]))
      case Unreadable => (Text("500"), env)
    else if !Hit(env.cache, f) then
      (Text(""), Env(Update(env.cache, f, ""), env.included))
    else
      var v := env.cache.entries[f];
      (Text(v), Env(Update(env.cache, f, v), env.included + [ReplaceFirst(f, buildLocation, "")]))
  }

  /** The answer that aborts a build: the string `'500'` (a buffer never compares equal to it). */
  predicate Aborts(x: Fetched)
  {
    x == Text("500")
  }

  /**
   * `'500'` comes back exactly when an existing, uncached file cannot be
   * read, or when the cached content is itself `'500'`.
   */
  lemma FetchAborts(loc: string, disk: map<string, Stored>, env: Env, f: string)
    ensures Aborts(Fetch(loc, disk, env, f).0) <==>
      (!Hit(env.cache, f) && f in disk && disk[f].Unreadable?) ||
      (Hit(env.cache, f) && env.cache.entries[f] == "500")
  {
  }

  /**
   * A missing, uncached file contributes `''`, is not recorded, and is
   * afterwards in the cache with content `''`.
   */
  lemma FetchMissing(loc: string, disk: map<string, Stored>, env: Env, f: string)
    requires f !in disk && !Hit(env.cache, f)
    ensures var r := Fetch(loc, disk, env, f);
      r.0 == Text("") && r.1.included == env.included &&
      f in r.1.cache.entries && r.1.cache.entries[f] == ""
  {
    UpdateKeepsContent(env.cache, f, "");
  }

  /**
   * A fresh read returns the content and records the full path; the cache
   * then holds the content, except that a stale `''` entry that is not
   * evicted stays `''` (an entry is never overwritten).
   */
  lemma FetchRead(loc: string, disk: map<string, Stored>, env: Env, f: string)
    requires f in disk && disk[f].Readable? && !Hit(env.cache, f)
    ensures var r := Fetch(loc, disk, env, f);
      var kept := f in env.cache.entries && !(Evicts(env.cache) && env.cache.order[0] == f);
      r.0 == Buffer(disk[f].content) && r.1.included == env.included + [f] &&
      f in r.1.cache.entries && r.1.cache.entries[f] == (if kept then "" else disk[f].content)
  {
    UpdateKeepsContent(env.cache, f, disk[f].content);
  }

  /**
   * A hit returns the cached content whether or not the file still exists,
   * keeps that content in the cache, and records the path with the build
   * location stripped.
   */
  lemma FetchHit(loc: string, disk: map<string, Stored>, env: Env, f: string)
    requires Hit(env.cache, f)
    ensures var r := Fetch(loc, disk, env, f);
      r.0 == Text(env.cache.entries[f]) &&
      r.1.included == env.included + [ReplaceFirst(f, loc, "")] &&
      f in r.1.cache.entries && r.1.cache.entries[f] == env.cache.entries[f]
  {
    UpdateKeepsContent(env.cache, f, env.cache.entries[f]);
  }

  /** The outcome of fetching a list of paths in turn: stopped by a `'500'`, the texts joined, the state reached. */
  datatype Gathered = Gathered(failed: bool, text: string, env: Env)

  /** The inner fetch loop of `build`: paths in order, giving up at the first `'500'`. */
  function FetchAll(loc: string, disk: map<string, Stored>, env: Env, paths: seq<string>): Gathered
    decreases |paths|, 1
  {
    if paths == [] then Gathered(false, "", env) else FetchLast(loc, disk, env, paths)
  }

  /** A non-empty list of fetches: the last path is fetched unless an earlier one has answered `'500'`. */
  function FetchLast(loc: string, disk: map<string, Stored>, env: Env, paths: seq<string>): Gathered
    requires paths != []
    decreases |paths|, 0
  {
    var g := FetchAll(loc, disk, env, paths[..|paths| - 1]);
    if g.failed then g
    else
      var r := Fetch(loc, disk, g.env, paths[|paths| - 1]);
      if Aborts(r.0) then Gathered(true, g.text, r.1) else Gathered(false, g.text + r.0.text, r.1)
  }

  /**
   * A list of fetches fails exactly when some path, fetched in the state the
   * earlier paths left without failing, answers `'500'`.
   */
  lemma {:induction false} FetchAllFails(loc: string, disk: map<string, Stored>, env: Env, paths: seq<string>)
    ensures FetchAll(loc, disk, env, paths).failed <==> exists j :: 0 <= j < |paths| && AbortsAt(loc, disk, env, paths, j)
  {
    if paths != [] {
      assert FetchAll(loc, disk, env, paths) == FetchLast(loc, disk, env, paths);
      var n := |paths|;
      var front := paths[..n - 1];
      FetchAllFails(loc, disk, env, front);
      forall j | 0 <= j < n - 1 ensures AbortsAt(loc, disk, env, paths, j) == AbortsAt(loc, disk, env, front, j) {
        assert paths[..j] == front[..j];
      }
      if FetchAll(loc, disk, env, front).failed {
        var j :| 0 <= j < n - 1 && AbortsAt(loc, disk, env, front, j);
        assert AbortsAt(loc, disk, env, paths, j);
      } else {
        assert forall j :: 0 <= j < n - 1 ==> !AbortsAt(loc, disk, env, paths, j);
        assert FetchAll(loc, disk, env, paths).failed <==> AbortsAt(loc, disk, env, paths, n - 1);
      }
    }
  }

  /** The `j`-th path answers `'500'`, fetched in the state the earlier paths left without failing. */
  predicate AbortsAt(loc: string, disk: map<string, Stored>, env: Env, paths: seq<string>, j: nat)
    requires j < |paths|
  {
    var g := FetchAll(loc, disk, env, paths[..j]);
    !g.failed && Aborts(Fetch(loc, disk, g.env, paths[j]).0)
  }

  /** Once a `'500'` has stopped a list of fetches, the later paths are not fetched. */
  lemma {:induction false} FetchAllSticks(loc: string, disk: map<string, Stored>, env: Env, paths: seq<string>, j: nat, m: nat)
    requires j <= m <= |paths| && FetchAll(loc, disk, env, paths[..j]).failed
    ensures FetchAll(loc, disk, env, paths[..m]) == FetchAll(loc, disk, env, paths[..j])
    decreases m - j
  {
    if m > j {
      FetchAllSticks(loc, disk, env, paths, j, m - 1);
      assert paths[..m][..m - 1] == paths[..m - 1];
      assert FetchAll(loc, disk, env, paths[..m]) == FetchLast(loc, disk, env, paths[..m]);
    }
  }

  /** Fetching only appends to `includedFiles`. */
  lemma {:induction false} FetchAllGrows(loc: string, disk: map<string, Stored>, env: Env, paths: seq<string>)
    ensures Extends(env.included, FetchAll(loc, disk, env, paths).env.included)
    ensures FetchAll(loc, disk, env, paths).env.cache.capacity == env.cache.capacity
  {
    if paths != [] {
      var front := paths[..|paths| - 1];
      FetchAllGrows(loc, disk, env, front);
      assert FetchAll(loc, disk, env, paths) == FetchLast(loc, disk, env, paths);
      var g := FetchAll(loc, disk, env, front);
      if !g.failed {
        FetchGrows(loc, disk, g.env, paths[|paths| - 1]);
        ExtendsTrans(env.included, g.env.included, Fetch(loc, disk, g.env, paths[|paths| - 1]).1.included);
      }
    }
  }

  /** One fetch appends at most one path to `includedFiles` and keeps the cache's capacity. */
  lemma FetchGrows(loc: string, disk: map<string, Stored>, env: Env, f: string)
    ensures Extends(env.included, Fetch(loc, disk, env, f).1.included)
    ensures Fetch(loc, disk, env, f).1.cache.capacity == env.cache.capacity
  {
    var inc := Fetch(loc, disk, env, f).1.included;
    assert inc == env.included || inc[..|env.included|] == env.included;
  }

  // ---------------------------------------------------------------------
  // Macros: `includesList`, assigned in place
  // ---------------------------------------------------------------------

  /** The first position holding key `k`. */
  function KeyIndex(list: seq<(string, string)>, k: string): (r: Option<nat>)
    ensures r.Some? ==> r.value < |list| && list[r.value].0 == k && forall j :: 0 <= j < r.value ==> list[j].0 != k
    ensures r.None? ==> forall j :: 0 <= j < |list| ==> list[j].0 != k
  {
    if list == [] then None
    else if list[0].0 == k then Some(0)
    else match KeyIndex(list[1..], k)
      case None => None
      case Some(j) => Some(j + 1)
  }

  /** `includesList[k]`, `undefined` for a key never assigned. */
  function Lookup(list: seq<(string, string)>, k: string): Option<string>
  {
    match KeyIndex(list, k)
    case None => None
    case Some(j) => Some(list[j].1)
  }

  /** `includesList[k] = v`: an existing key keeps its place and takes the new value, a new key goes last. */
  function SetKey(list: seq<(string, string)>, k: string, v: string): seq<(string, string)>
  {
    match KeyIndex(list, k)
    case None => list + [(k, v)]
    case Some(j) => list[j := (k, v)]
  }

  /** After an assignment the key reads the new value and every other key reads what it did. */
  lemma SetKeyLookup(list: seq<(string, string)>, k: string, v: string, g: string)
    ensures Lookup(SetKey(list, k, v), g) == if g == k then Some(v) else Lookup(list, g)
  {
    var t := SetKey(list, k, v);
    match KeyIndex(list, k)
    case None =>
      assert t[|list|] == (k, v) && forall j :: 0 <= j < |list| ==> t[j] == list[j];
      if g == k {
        assert KeyIndex(t, g) == Some(|list|);
      } else {
        match KeyIndex(list, g)
        case None =>
          assert forall j :: 0 <= j < |t| ==> t[j].0 != g;
        case Some(i) =>
          assert forall j :: 0 <= j < i ==> t[j].0 != g;
      }
    case Some(i) =>
      if g == k {
        assert t[i].0 == k && forall j :: 0 <= j < i ==> t[j].0 != g;
        assert KeyIndex(t, k) == Some(i);
      } else {
        match KeyIndex(list, g)
        case None =>
          assert forall j :: 0 <= j < |t| ==> t[j].0 != g;
        case Some(h) =>
          assert t[h] == list[h];
          assert forall j :: 0 <= j < h ==> t[j].0 != g;
      }
  }

  /** Every pair of `pairs` assigned in turn. */
  function AssignAll(list: seq<(string, string)>, pairs: seq<(string, string)>): seq<(string, string)>
  {
    if pairs == [] then list
    else
      var p := pairs[|pairs| - 1];
      SetKey(AssignAll(list, pairs[..|pairs| - 1]), p.0, p.1)
  }

  /** The value of the last pair with key `k`. */
  function LastValue(pairs: seq<(string, string)>, k: string): Option<string>
  {
    if pairs == [] then None
    else if pairs[|pairs| - 1].0 == k then Some(pairs[|pairs| - 1].1)
    else LastValue(pairs[..|pairs| - 1], k)
  }

  /** A key's last value in a concatenation comes from the second part when it has the key there. */
  lemma {:induction false} LastValueAppend(a: seq<(string, string)>, b: seq<(string, string)>, k: string)
    ensures LastValue(a + b, k) == if LastValue(b, k).Some? then LastValue(b, k) else LastValue(a, k)
  {
    if b != [] {
      assert (a + b)[..|a + b| - 1] == a + b[..|b| - 1];
      LastValueAppend(a, b[..|b| - 1], k);
    } else {
      assert a + b == a;
    }
  }

  /** After assigning `pairs`, a key reads its last value in `pairs`, or what it read before when `pairs` lacks it. */
  lemma {:induction false} AssignAllLookup(list: seq<(string, string)>, pairs: seq<(string, string)>, g: string)
    ensures Lookup(AssignAll(list, pairs), g) == if LastValue(pairs, g).Some? then LastValue(pairs, g) else Lookup(list, g)
  {
    if pairs != [] {
      var p := pairs[|pairs| - 1];
      AssignAllLookup(list, pairs[..|pairs| - 1], g);
      SetKeyLookup(AssignAll(list, pairs[..|pairs| - 1]), p.0, p.1, g);
    }
  }

  /** The macros a segment's module contributes (`includesMap.get(abbr)`, none when undefined). */
  function SegmentIncludes(es: seq<Element>, segment: string): seq<(string, string)>
  {
    var m := IncludesMap(es);
    if AbbrOf(segment) in m then m[AbbrOf(segment)] else []
  }

  /** `includesList` after the segment loop: every segment's macros assigned in path order. */
  function MacrosOf(es: seq<Element>, p: seq<string>): seq<(string, string)>
  {
    if p == [] then []
    else AssignAll(MacrosOf(es, p[..|p| - 1]), SegmentIncludes(es, p[|p| - 1]))
  }

  /** Every segment's macro pairs, in path order. */
  function AllIncludes(es: seq<Element>, p: seq<string>): seq<(string, string)>
  {
    if p == [] then []
    else AllIncludes(es, p[..|p| - 1]) + SegmentIncludes(es, p[|p| - 1])
  }

  /** A later segment's value for a macro overrides an earlier one: each key reads its last value in path order. */
  lemma {:induction false} MacrosLastWins(es: seq<Element>, p: seq<string>, g: string)
    ensures Lookup(MacrosOf(es, p), g) == LastValue(AllIncludes(es, p), g)
  {
    if p != [] {
      var front := p[..|p| - 1];
      var inc := SegmentIncludes(es, p[|p| - 1]);
      MacrosLastWins(es, front, g);
      AssignAllLookup(MacrosOf(es, front), inc, g);
      LastValueAppend(AllIncludes(es, front), inc, g);
    }
  }

  // ---------------------------------------------------------------------
  // Template expansion
  // ---------------------------------------------------------------------

  /** For each macro in order, the first `{key}` replaced by its value. */
  function ApplyMacros(s: string, macros: seq<(string, string)>): string
  {
    if macros == [] then s
    else
      var m := macros[|macros| - 1];
      ReplaceFirst(ApplyMacros(s, macros[..|macros| - 1]), "{" + m.0 + "}", m.1)
  }

  /** One template: the macros, then the first `{version}` replaced by the segment's version. */
  function ExpandName(name: string, macros: seq<(string, string)>, version: string): string
  {
    ReplaceFirst(ApplyMacros(name, macros), "{version}", version)
  }

  /** `updateFile`: every template expanded. */
  function Expand(names: seq<string>, macros: seq<(string, string)>, version: string): seq<string>
  {
    if names == [] then []
    else Expand(names[..|names| - 1], macros, version) + [ExpandName(names[|names| - 1], macros, version)]
  }

  /** Expansion works template by template and keeps their number and order. */
  lemma {:induction false} ExpandShape(names: seq<string>, macros: seq<(string, string)>, version: string)
    ensures |Expand(names, macros, version)| == |names|
    ensures forall k :: 0 <= k < |names| ==> Expand(names, macros, version)[k] == ExpandName(names[k], macros, version)
  {
    if names != [] {
      ExpandShape(names[..|names| - 1], macros, version);
    }
  }

  /** A placeholder starts with `{`, so a text without `{` holds none. */
  lemma NoBraceNoPlaceholder(s: string, k: string)
    requires '{' !in s
    ensures forall i: nat :: !OccursAt(s, "{" + k + "}", i)
  {
    var p := "{" + k + "}";
    forall i: nat ensures !OccursAt(s, p, i) {
      if i + |p| <= |s| {
        assert s[i..i + |p|][0] == s[i] && s[i] in s;
      }
    }
  }

  /** A template without `{` is left exactly as it is. */
  lemma {:induction false} PlainTemplateUnchanged(name: string, macros: seq<(string, string)>, version: string)
    requires '{' !in name
    ensures ApplyMacros(name, macros) == name
    ensures ExpandName(name, macros, version) == name
  {
    if macros != [] {
      var m := macros[|macros| - 1];
      PlainTemplateUnchanged(name, macros[..|macros| - 1], version);
      NoBraceNoPlaceholder(name, m.0);
      ReplaceAbsent(name, "{" + m.0 + "}", m.1);
    }
    NoBraceNoPlaceholder(name, "version");
    assert "{version}" == "{" + "version" + "}";
    ReplaceAbsent(name, "{version}", version);
  }

  /** Only the first occurrence of a placeholder is replaced: `x{a}{a}` with a = 1 becomes `x1{a}`. */
  lemma FirstOccurrenceOnly()
    ensures ExpandName("x{a}{a}", [("a", "1")], "2") == "x1{a}"
  {
    var macros := [("a", "1")];
    assert macros[..0] == [];
    assert "{" + "a" + "}" == "{a}";
    assert "x{a}{a}" == "x" + "{a}" + "{a}";
    assert !OccursAt("x" + "{a}" + "{a}", "{a}", 0) by {
      assert ("x" + "{a}" + "{a}")[0] == 'x';
    }
    assert '$' !in "1";
    ReplaceFirstAt("x", "{a}", "{a}", "1");
    assert ApplyMacros("x{a}{a}", macros) == "x" + "1" + "{a}" == "x1{a}";
    forall i: nat ensures !OccursAt("x1{a}", "{version}", i) {
      assert |"{version}"| > |"x1{a}"|;
    }
    ReplaceAbsent("x1{a}", "{version}", "2");
  }

  /** Macros apply in order, so a value may use a later macro: `{a}` with a = `{b}`, b = 2 becomes `2`. */
  lemma MacrosChain()
    ensures ApplyMacros("{a}", [("a", "{b}"), ("b", "2")]) == "2"
  {
    var macros := [("a", "{b}"), ("b", "2")];
    assert macros[..1] == [("a", "{b}")] && macros[..1][..0] == [];
    assert "{" + "a" + "}" == "{a}" && "{" + "b" + "}" == "{b}";
    assert '$' !in "{b}" && '$' !in "2";
    ReplaceWhole("{a}", "{b}");
    ReplaceWhole("{b}", "2");
  }

  // ---------------------------------------------------------------------
  // The trailing filename
  // ---------------------------------------------------------------------

  /** `type`: a dot and the filename's last `.`-part. */
  function TypeOf(name: string): string
  {
    var sp := Split(name, '.');
    "." + sp[|sp| - 1]
  }

  /** `min`: the filename splits into more than two `.`-parts. */
  predicate IsMin(name: string)
  {
    |Split(name, '.')| > 2
  }

  /** `folder`: the last `.`-part of the type. */
  function FolderKey(typ: string): string
  {
    var ft := Split(typ, '.');
    ft[|ft| - 1]
  }

  /** Joined parts hold the separator exactly when there are at least two of them. */
  lemma JoinHasSeparator(parts: seq<string>, c: char)
    requires forall k :: 0 <= k < |parts| ==> c !in parts[k]
    ensures c in Join(parts, c) <==> |parts| >= 2
  {
    if |parts| >= 2 {
      assert Join(parts, c)[|parts[0]|] == c;
    }
  }

  /** The last part of a split is what follows the last separator. */
  lemma {:induction false} SplitLastPart(s: string, c: char)
    ensures var p := Split(s, c); p[|p| - 1] == s[|PrefixThroughLast(s, c)|..]
  {
    if c in s {
      SplitLastPartSeparated(s, c);
    } else {
      SplitLastPartWhole(s, c);
    }
  }

  lemma {:induction false} SplitLastPartSeparated(s: string, c: char)
    requires c in s
    ensures var p := Split(s, c); p[|p| - 1] == s[|PrefixThroughLast(s, c)|..]
  {
    SplitLast(s, c, Split(s, c));
  }

  lemma {:induction false} SplitLastPartWhole(s: string, c: char)
    requires c !in s
    ensures var p := Split(s, c); p[|p| - 1] == s[|PrefixThroughLast(s, c)|..]
  {
    SplitWithoutSeparator(s, c);
    assert |PrefixThroughLast(s, c)| == 0;
    assert s[0..] == s;
  }

  /** The filename is minified exactly when a second `.` follows its first. */
  lemma MinShape(name: string)
    ensures IsMin(name) <==> '.' in name && '.' in name[|PrefixBefore(name, '.')| + 1..]
  {
    var sp := Split(name, '.');
    if |sp| >= 2 {
      assert name == sp[0] + ['.'] + Join(sp[1..], '.');
      assert name[|sp[0]| + 1..] == Join(sp[1..], '.');
      JoinHasSeparator(sp[1..], '.');
    }
  }

  /** The type is `.` plus what follows the filename's last `.`, and the folder key is the type without its dot. */
  lemma TypeShape(name: string)
    ensures TypeOf(name) == "." + name[|PrefixThroughLast(name, '.')|..]
    ensures FolderKey(TypeOf(name)) == name[|PrefixThroughLast(name, '.')|..]
  {
    SplitLastPart(name, '.');
    FolderKeyOfType(name[|PrefixThroughLast(name, '.')|..]);
  }

  /** A dot followed by a dot-free text has that text as its folder key. */
  lemma FolderKeyOfType(x: string)
    requires '.' !in x
    ensures FolderKey("." + x) == x
  {
    var ft := Split("." + x, '.');
    assert ("." + x)[0] == '.';
    assert ft[0] == "";
    assert "." + x == ft[0] + ['.'] + Join(ft[1..], '.');
    assert Join(ft[1..], '.') == x;
    JoinHasSeparator(ft[1..], '.');
  }

  // ---------------------------------------------------------------------
  // The segment loop of `buildFile`
  // ---------------------------------------------------------------------

  /** The abbreviation of each segment (the key into `fileNameMap`). */
  function Abbrs(p: seq<string>): (r: seq<string>)
    ensures |r| == |p| && forall i :: 0 <= i < |p| ==> r[i] == AbbrOf(p[i])
  {
    if p == [] then [] else Abbrs(p[..|p| - 1]) + [AbbrOf(p[|p| - 1])]
  }

  /** `versionList`: each segment's part after its last `-`, `''` for a segment with no `-`. */
  function Versions(p: seq<string>): (r: seq<string>)
    ensures |r| == |p| && forall i :: 0 <= i < |p| ==> r[i] == VersionOf(p[i])
  {
    if p == [] then [] else Versions(p[..|p| - 1]) + [VersionOf(p[|p| - 1])]
  }

  /** `folderNameList`: each segment's folder name, `undefined` for an unknown abbreviation. */
  function Folders(es: seq<Element>, p: seq<string>): (r: seq<Option<string>>)
    ensures |r| == |p| && forall i :: 0 <= i < |p| ==> r[i] == Get(FolderMap(es), AbbrOf(p[i]))
  {
    if p == [] then [] else Folders(es, p[..|p| - 1]) + [Get(FolderMap(es), AbbrOf(p[|p| - 1]))]
  }

  /** `start`: 1 once any segment (the filename included) has no `-`. */
  function StartOf(p: seq<string>): nat
  {
    if PlainBefore(p, |p|) then 1 else 0
  }

  /** One of the first `i` segments has no `-`. */
  predicate PlainBefore(p: seq<string>, i: nat)
    requires i <= |p|
  {
    exists k :: 0 <= k < i && '-' !in p[k]
  }

  /** One more segment scanned for a `-`. */
  lemma PlainBeforeStep(p: seq<string>, i: nat)
    requires i < |p|
    ensures PlainBefore(p, i + 1) <==> PlainBefore(p, i) || '-' !in p[i]
  {
    if PlainBefore(p, i + 1) && '-' in p[i] {
      var k :| 0 <= k < i + 1 && '-' !in p[k];
      assert k < i;
    }
  }

  /** The extensions-list entry of a segment: its folder name and its last `-`-part, each after a space. */
  function ExtEntry(es: seq<Element>, segment: string): string
  {
    EntryText(Get(FolderMap(es), AbbrOf(segment)), LastPart(segment))
  }

  /** ` <folder> <version>`, with `undefined` for a missing folder name. */
  function EntryText(folder: Option<string>, version: string): string
  {
    " " + JsStr(folder) + " " + version
  }

  /** The entries of segments 1 .. n - 2. */
  function ExtEntries(es: seq<Element>, p: seq<string>): seq<string>
  {
    seq(if |p| >= 2 then |p| - 2 else 0, k requires 0 <= k < |p| - 2 => ExtEntry(es, p[k + 1]))
  }

  /** `extensionsList`: the entries joined with `,`. */
  function ExtensionsList(es: seq<Element>, p: seq<string>): string
  {
    Join(ExtEntries(es, p), ',')
  }

  /** A separator-free first part splits off a text. */
  lemma {:induction false} SplitPrefix(x: string, c: char, y: string)
    requires c !in x
    ensures Split(x + [c] + y, c) == [x] + Split(y, c)
    decreases |x|
  {
    var s := x + [c] + y;
    if x == [] {
      assert s == [c] + y && s[1..] == y;
    } else {
      assert s[0] == x[0] && s[1..] == x[1..] + [c] + y;
      SplitPrefix(x[1..], c, y);
      assert [x[0]] + x[1..] == x;
    }
  }

  /** Splitting joined separator-free parts gives the parts back. */
  lemma {:induction false} SplitJoin(parts: seq<string>, c: char)
    requires |parts| >= 1 && Free(parts, c)
    ensures Split(Join(parts, c), c) == parts
  {
    if |parts| == 1 {
      var p := Split(parts[0], c);
      assert |p| == 1;
    } else {
      SplitJoin(parts[1..], c);
      SplitPrefix(parts[0], c, Join(parts[1..], c));
    }
  }

  /** No part holds the separator. */
  predicate Free(parts: seq<string>, c: char)
  {
    forall k :: 0 <= k < |parts| ==> c !in parts[k]
  }

  /**
   * The extensions list is empty for a path of at most two segments, and
   * otherwise, when no entry holds a `,`, splitting it on `,` gives back one
   * entry per segment 1 .. n - 2, in path order.
   */
  lemma ExtensionsListParts(es: seq<Element>, p: seq<string>, entries: seq<string>)
    requires entries == ExtEntries(es, p)
    ensures |p| <= 2 ==> ExtensionsList(es, p) == ""
    ensures |p| > 2 && Free(entries, ',') ==> Split(ExtensionsList(es, p), ',') == entries
    ensures |p| > 2 ==> |entries| == |p| - 2
    ensures forall k :: 0 <= k < |entries| ==> entries[k] == ExtEntry(es, p[k + 1])
  {
    if |p| > 2 && Free(entries, ',') {
      SplitJoin(entries, ',');
    }
  }

  /** The segment loop's extensions-list length after `i` segments: entries exist for segments 1 .. n - 2. */
  function ExtCount(n: int, i: int): nat
  {
    if i <= 1 || n <= 2 then 0 else if i <= n - 1 then i - 1 else n - 2
  }

  /** Segment `i` (1 <= i <= n - 2) adds its entry, after a `,` unless it is the first. */
  lemma ExtStep(es: seq<Element>, p: seq<string>, i: nat)
    requires 0 < i < |p| - 1
    ensures var e := ExtEntries(es, p);
      Join(e[..ExtCount(|p|, i + 1)], ',') ==
        (if i > 1 then Join(e[..ExtCount(|p|, i)], ',') + "," else "") + ExtEntry(es, p[i])
  {
    var e := ExtEntries(es, p);
    if i > 1 {
      JoinLast(e[..i], ',');
      assert e[..i][..i - 1] == e[..i - 1];
    } else {
      assert e[..1] == [ExtEntry(es, p[1])];
    }
  }

  /** The abbreviations, versions, folders, macros, extensions list and start the segment loop produces. */
  method SegmentLists(es: seq<Element>, parsedURL: seq<string>)
    returns (fileNameMap: Tables, fileNameList: seq<string>, versionList: seq<string>, folderNameList: seq<Option<string>>,
      extensionsList: string, includesList: seq<(string, string)>, start: nat)
    ensures fileNameMap == FileNameMap(es)
    ensures fileNameList == Abbrs(parsedURL) && versionList == Versions(parsedURL) && folderNameList == Folders(es, parsedURL)
    ensures extensionsList == ExtensionsList(es, parsedURL) && includesList == MacrosOf(es, parsedURL)
    ensures start == StartOf(parsedURL)
  {
    var ms := BuildMaps(es);
    fileNameMap := ms.fileNameMap;
    fileNameList, versionList, folderNameList := [], [], [];
    extensionsList, includesList, start := "", [], 0;
    var i := 0;
    while i < |parsedURL|
      invariant 0 <= i <= |parsedURL|
      invariant fileNameList == Abbrs(parsedURL[..i])
      invariant versionList == Versions(parsedURL[..i])
      invariant folderNameList == Folders(es, parsedURL[..i])
      invariant extensionsList == Join(ExtEntries(es, parsedURL)[..ExtCount(|parsedURL|, i)], ',')
      invariant includesList == MacrosOf(es, parsedURL[..i])
      invariant start == if PlainBefore(parsedURL, i) then 1 else 0
    {
      fileNameList, versionList, folderNameList, extensionsList, includesList, start :=
        ScanSegment(es, ms, parsedURL, i, fileNameList, versionList, folderNameList, extensionsList, includesList, start);
      i := i + 1;
    }
    assert parsedURL[..i] == parsedURL;
    assert ExtEntries(es, parsedURL)[..ExtCount(i, i)] == ExtEntries(es, parsedURL);
  }

  /** One iteration of the segment loop: segment `i` split on `-` and added to every list. */
  method ScanSegment(es: seq<Element>, ms: CatalogMaps, parsedURL: seq<string>, i: nat,
                     fileNameList: seq<string>, versionList: seq<string>, folderNameList: seq<Option<string>>,
                     extensionsList: string, includesList: seq<(string, string)>, start: nat)
    returns (fileNameList': seq<string>, versionList': seq<string>, folderNameList': seq<Option<string>>,
      extensionsList': string, includesList': seq<(string, string)>, start': nat)
    requires ms == MapsOf(es) && i < |parsedURL|
    requires fileNameList == Abbrs(parsedURL[..i])
    requires versionList == Versions(parsedURL[..i])
    requires folderNameList == Folders(es, parsedURL[..i])
    requires extensionsList == Join(ExtEntries(es, parsedURL)[..ExtCount(|parsedURL|, i)], ',')
    requires includesList == MacrosOf(es, parsedURL[..i])
    requires start == if PlainBefore(parsedURL, i) then 1 else 0
    ensures fileNameList' == Abbrs(parsedURL[..i + 1])
    ensures versionList' == Versions(parsedURL[..i + 1])
    ensures folderNameList' == Folders(es, parsedURL[..i + 1])
    ensures extensionsList' == Join(ExtEntries(es, parsedURL)[..ExtCount(|parsedURL|, i + 1)], ',')
    ensures includesList' == MacrosOf(es, parsedURL[..i + 1])
    ensures start' == if PlainBefore(parsedURL, i + 1) then 1 else 0
  {
    var n := |parsedURL|;
    var abbr, hyphen, lastPart := SplitSegment(parsedURL[i]);
    PlainBeforeStep(parsedURL, i);
    start' := start;
    if hyphen {
      versionList' := versionList + [lastPart];
    } else {
      start' := 1;
      versionList' := versionList + [""];
    }
    folderNameList' := folderNameList + [Get(ms.folderNameMap, abbr)];
    extensionsList' := AppendExtension(es, ms, parsedURL, i, abbr, lastPart, extensionsList);
    fileNameList' := fileNameList + [abbr];
    SegmentStep(es, parsedURL, i);
    includesList' := includesList;
    if abbr in ms.includesMap {
      includesList' := AssignIncludes(includesList, ms.includesMap[abbr]);
    }
  }

  /** The extensions-list part of one pass of the segment loop: an inner segment adds its entry, after a comma unless it is the first. */
  method AppendExtension(es: seq<Element>, ms: CatalogMaps, parsedURL: seq<string>, i: nat, abbr: string, lastPart: string,
                         extensionsList: string) returns (extensionsList': string)
    requires ms == MapsOf(es) && i < |parsedURL|
    requires abbr == AbbrOf(parsedURL[i]) && lastPart == LastPart(parsedURL[i])
    requires extensionsList == Join(ExtEntries(es, parsedURL)[..ExtCount(|parsedURL|, i)], ',')
    ensures extensionsList' == Join(ExtEntries(es, parsedURL)[..ExtCount(|parsedURL|, i + 1)], ',')
  {
    extensionsList' := extensionsList;
    if i > 0 && i < |parsedURL| - 1 {
      ExtStep(es, parsedURL, i);
      if i > 1 {
        extensionsList' := extensionsList' + ",";
      }
      extensionsList' := extensionsList' + EntryText(Get(ms.folderNameMap, abbr), lastPart);
    }
  }

  /** One more segment: each list gains that segment's entry, and its macros are assigned. */
  lemma SegmentStep(es: seq<Element>, p: seq<string>, i: nat)
    requires i < |p|
    ensures Abbrs(p[..i + 1]) == Abbrs(p[..i]) + [AbbrOf(p[i])]
    ensures Versions(p[..i + 1]) == Versions(p[..i]) + [VersionOf(p[i])]
    ensures Folders(es, p[..i + 1]) == Folders(es, p[..i]) + [Get(FolderMap(es), AbbrOf(p[i]))]
    ensures MacrosOf(es, p[..i + 1]) == AssignAll(MacrosOf(es, p[..i]), SegmentIncludes(es, p[i]))
  {
    assert p[..i + 1][..i] == p[..i];
  }

  /**
   * The split of one segment on `-`: the abbreviation, whether there was a
   * `-` (a version), and the last part (`str[str.length - 1]`).
   */
  method SplitSegment(segment: string) returns (abbr: string, hyphen: bool, lastPart: string)
    ensures abbr == AbbrOf(segment) && hyphen == ('-' in segment) && lastPart == LastPart(segment)
  {
    var str := Split(segment, '-');
    abbr := DeriveAbbr(segment);
    SplitLastPart(segment, '-');
    hyphen := |str| > 1;
    lastPart := str[|str| - 1];
  }

  /** The inner assignment loop of the segment loop: each of a module's macros set in `includesList`. */
  method AssignIncludes(list: seq<(string, string)>, pairs: seq<(string, string)>) returns (r: seq<(string, string)>)
    ensures r == AssignAll(list, pairs)
  {
    r := list;
    var j := 0;
    while j < |pairs|
      invariant 0 <= j <= |pairs|
      invariant r == AssignAll(list, pairs[..j])
    {
      assert pairs[..j + 1][..j] == pairs[..j];
      r := SetKey(r, pairs[j].0, pairs[j].1);
      j := j + 1;
    }
    assert pairs[..j] == pairs;
  }

  /** The template loop of `build`: `updateFile`. */
  method ExpandTemplates(names: seq<string>, macros: seq<(string, string)>, version: string) returns (updateFile: seq<string>)
    ensures updateFile == Expand(names, macros, version)
  {
    updateFile := [];
    var k := 0;
    while k < |names|
      invariant 0 <= k <= |names|
      invariant updateFile == Expand(names[..k], macros, version)
    {
      assert names[..k + 1][..k] == names[..k];
      var updatestring := ExpandOne(names[k], macros, version);
      updateFile := updateFile + [updatestring];
      k := k + 1;
    }
    assert names[..k] == names;
  }

  /** One template of the template loop: the macros in order, then `{version}`. */
  method ExpandOne(name: string, macros: seq<(string, string)>, version: string) returns (updatestring: string)
    ensures updatestring == ExpandName(name, macros, version)
  {
    updatestring := name;
    var l := 0;
    while l < |macros|
      invariant 0 <= l <= |macros|
      invariant updatestring == ApplyMacros(name, macros[..l])
    {
      assert macros[..l + 1][..l] == macros[..l];
      updatestring := ReplaceFirst(updatestring, "{" + macros[l].0 + "}", macros[l].1);
      l := l + 1;
    }
    assert macros[..l] == macros;
    updatestring := ReplaceFirst(updatestring, "{version}", version);
  }

  // ---------------------------------------------------------------------
  // The build loop
  // ---------------------------------------------------------------------

  /**
   * What `build` is given: for each segment the abbreviation through which
   * it reaches its template table (`fileNameList`; segments with the same
   * abbreviation share one table), its version and its folder name; the
   * macros; the type; the minified flag; and the first segment to build.
   */
  datatype Request = Request(
    abbrs: seq<string>,
    versions: seq<string>,
    folders: seq<Option<string>>,
    macros: seq<(string, string)>,
    typ: string,
    min: bool,
    start: nat)

  /** The per-segment lists have one entry per segment. */
  predicate Aligned(rq: Request)
  {
    |rq.versions| == |rq.abbrs| && |rq.folders| == |rq.abbrs|
  }

  function Minify(rq: Request): string
  {
    if rq.min then ".min" else ""
  }

  /** The paths of a segment's expanded templates. */
  function SegmentPaths(loc: string, folder: Option<string>, version: string, names: seq<string>, minify: string, typ: string): seq<string>
  {
    if names == [] then []
    else
      SegmentPaths(loc, folder, version, names[..|names| - 1], minify, typ) +
      [TemplatePath(loc, folder, version, TemplateFile(names[|names| - 1], minify, typ))]
  }

  /** A template's file name: the expanded name, then `.min` or nothing, then the type. */
  function TemplateFile(name: string, minify: string, typ: string): string
  {
    name + minify + typ
  }

  /** Where a template file lives: `<location><folder>-<version>/<file>`, with `undefined` for a missing folder name. */
  function TemplatePath(loc: string, folder: Option<string>, version: string, filename: string): string
  {
    loc + JsStr(folder) + "-" + version + "/" + filename
  }

  /** One path per template, in template order. */
  lemma {:induction false} SegmentPathsShape(loc: string, folder: Option<string>, version: string, names: seq<string>, minify: string, typ: string)
    ensures |SegmentPaths(loc, folder, version, names, minify, typ)| == |names|
    ensures forall k :: 0 <= k < |names| ==>
      SegmentPaths(loc, folder, version, names, minify, typ)[k] == TemplatePath(loc, folder, version, TemplateFile(names[k], minify, typ))
  {
    if names != [] {
      SegmentPathsShape(loc, folder, version, names[..|names| - 1], minify, typ);
    }
  }

  /** The build so far: stopped by a `'500'`, the content, the state, the (rewritten) template tables. */
  datatype Run = Run(failed: bool, content: string, env: Env, tables: Tables)

  /** The segment's module has templates for the folder key. */
  predicate Builds(tables: Tables, abbr: string, key: string)
  {
    abbr in tables && key in tables[abbr]
  }

  /**
   * One iteration of the build loop: a segment whose module has templates
   * for the folder key has them expanded and written back into its (shared)
   * table, and their paths fetched and appended; any other segment changes
   * nothing.
   */
  function Step(loc: string, disk: map<string, Stored>, rq: Request, i: nat, run: Run): Run
    requires Aligned(rq) && i < |rq.abbrs|
  {
    var a := rq.abbrs[i];
    var key := FolderKey(rq.typ);
    if !Builds(run.tables, a, key) then run
    else
      var names := Expand(run.tables[a][key], rq.macros, rq.versions[i]);
      var g := FetchAll(loc, disk, run.env, SegmentPaths(loc, rq.folders[i], rq.versions[i], names, Minify(rq), rq.typ));
      Run(g.failed, run.content + g.text, g.env, run.tables[a := run.tables[a][key := names]])
  }

  /** The build loop run over segments `start` .. `k - 1`, beginning with the build message. */
  function BuildTo(cfg: Config, disk: map<string, Stored>, rq: Request, env: Env, tables: Tables, k: int): Run
    requires Aligned(rq) && (k <= rq.start || k <= |rq.abbrs|)
    decreases k, 1
  {
    if k <= rq.start then Run(false, cfg.buildMessage, env, tables)
    else BuildAt(cfg, disk, rq, env, tables, k - 1)
  }

  /** The build loop once it has dealt with segment `i`: a stopped build is not stepped further. */
  function BuildAt(cfg: Config, disk: map<string, Stored>, rq: Request, env: Env, tables: Tables, i: nat): Run
    requires Aligned(rq) && rq.start <= i < |rq.abbrs|
    decreases i + 1, 0
  {
    var run := BuildTo(cfg, disk, rq, env, tables, i);
    if run.failed then run else Step(cfg.buildLocation, disk, rq, i, run)
  }

  /** `filePath.split('/')` without a leading empty part. */
  function Segments(filePath: string): seq<string>
  {
    UrlValidate.DropLeadingEmpty(Split(filePath, '/'))
  }

  /** What the segment loop and the filename hand to `build`. */
  function RequestOf(es: seq<Element>, p: seq<string>): Request
    requires |p| > 0
  {
    Request(Abbrs(p), Versions(p), Folders(es, p), MacrosOf(es, p), TypeOf(p[|p| - 1]), IsMin(p[|p| - 1]), StartOf(p))
  }

  /** The two header substitutions, each of the first occurrence only. */
  function Substitute(subs: Substitutions, file: string, filePath: string, extensionsList: string): string
  {
    ReplaceFirst(ReplaceFirst(file, subs.extensionsURL, filePath), subs.extensionsList, extensionsList)
  }

  /** A `$$` in the request path reaches the header as one `$`: `replace` expands its replacement text. */
  lemma DollarInPath()
    ensures Substitute(Substitutions("{l}", "{u}"), "{u}", "/$$x.js", "") == "/$x.js"
  {
    DollarInUrlPlaceholder();
    NoBraceNoPlaceholder("/$x.js", "l");
    assert "{l}" == "{" + "l" + "}";
    ReplaceAbsent("/$x.js", "{l}", "");
  }

  /** The first of the two substitutions of `DollarInPath`. */
  lemma DollarInUrlPlaceholder()
    ensures ReplaceFirst("{u}", "{u}", "/$$x.js") == "/$x.js"
  {
    var p: string := "{u}";
    assert p == [] + p + [];
    ReplaceFirstAt([], p, [], "/$$x.js");
    DollarPathExpansion([], p, []);
    assert [] + "/$x.js" + [] == "/$x.js";
  }

  /** The replacement text of `DollarInPath`, expanded whatever the match and its context. */
  lemma DollarPathExpansion(before: string, matched: string, after: string)
    ensures Substitution("/$$x.js", before, matched, after) == "/$x.js"
  {
    assert "/$$x.js" == "/" + ("$$" + "x.js");
    LiteralReplacement("x.js", before, matched, after);
    DollarDollarPrefix("x.js", before, matched, after);
    SubstitutionPrefix("/", "$$" + "x.js", before, matched, after);
  }

  /**
   * `buildFile(filePath)`, with the state it leaves. An empty path has no
   * filename segment and throws. A failed or empty build is `false`.
   */
  function BuildSpec(cfg: Config, disk: map<string, Stored>, env: Env, filePath: string): (BuildResult, Env)
  {
    var p := Segments(filePath);
    if p == [] then (Threw, env)
    else
      var run := BuildTo(cfg, disk, RequestOf(cfg.elements, p), env, FileNameMap(cfg.elements), |p| - 1);
      if run.failed || run.content == "" then (NotBuilt, run.env)
      else (Built(Substitute(cfg.substitutions, run.content, filePath, ExtensionsList(cfg.elements, p))), run.env)
  }

  /** `BuildSpec` on a non-empty path, in terms of its build loop. */
  lemma BuildSpecOf(cfg: Config, disk: map<string, Stored>, env: Env, filePath: string, p: seq<string>, run: Run)
    requires p == Segments(filePath) && p != []
    requires run == BuildTo(cfg, disk, RequestOf(cfg.elements, p), env, FileNameMap(cfg.elements), |p| - 1)
    ensures BuildSpec(cfg, disk, env, filePath) ==
      if run.failed || run.content == "" then (NotBuilt, run.env)
      else (Built(Substitute(cfg.substitutions, run.content, filePath, ExtensionsList(cfg.elements, p))), run.env)
  {
  }

  // ---------------------------------------------------------------------
  // Properties of a build
  // ---------------------------------------------------------------------

  /** `b` starts with `a`. */
  predicate Extends<T(==)>(a: seq<T>, b: seq<T>)
  {
    |a| <= |b| && b[..|a|] == a
  }

  lemma ExtendsTrans<T>(a: seq<T>, b: seq<T>, c: seq<T>)
    requires Extends(a, b) && Extends(b, c)
    ensures Extends(a, c)
  {
    assert c[..|b|][..|a|] == c[..|a|];
  }

  /** The content always begins with the build message: fragments are only appended after it. */
  lemma {:induction false} HeaderPrefix(cfg: Config, disk: map<string, Stored>, rq: Request, env: Env, tables: Tables, k: int)
    requires Aligned(rq) && (k <= rq.start || k <= |rq.abbrs|)
    ensures Extends(cfg.buildMessage, BuildTo(cfg, disk, rq, env, tables, k).content)
    decreases k
  {
    if k > rq.start {
      HeaderPrefix(cfg, disk, rq, env, tables, k - 1);
      var run := BuildTo(cfg, disk, rq, env, tables, k - 1);
      assert BuildTo(cfg, disk, rq, env, tables, k) == BuildAt(cfg, disk, rq, env, tables, k - 1);
      if !run.failed {
        StepGrows(cfg.buildLocation, disk, rq, k - 1, run);
        ExtendsTrans(cfg.buildMessage, run.content, Step(cfg.buildLocation, disk, rq, k - 1, run).content);
      }
    }
  }

  /** Once a `'500'` has stopped the build, later segments fetch nothing and change nothing. */
  lemma {:induction false} FailureStops(cfg: Config, disk: map<string, Stored>, rq: Request, env: Env, tables: Tables, k: int, k2: int)
    requires Aligned(rq) && k <= k2 && (k2 <= rq.start || k2 <= |rq.abbrs|)
    requires BuildTo(cfg, disk, rq, env, tables, k).failed
    ensures BuildTo(cfg, disk, rq, env, tables, k2) == BuildTo(cfg, disk, rq, env, tables, k)
    decreases k2 - k
  {
    if k2 > k {
      FailureStops(cfg, disk, rq, env, tables, k, k2 - 1);
      StartNotFailed(cfg, disk, rq, env, tables, k);
      BuildStopped(cfg, disk, rq, env, tables, k2);
    }
  }

  /** Where the build loop stops: at the filename segment, or at once when `start` is already past it. */
  lemma LoopExit(cfg: Config, disk: map<string, Stored>, rq: Request, env: Env, tables: Tables, i: int)
    requires Aligned(rq) && rq.start <= i && |rq.abbrs| - 1 <= i && (i <= |rq.abbrs| - 1 || i == rq.start)
    ensures BuildTo(cfg, disk, rq, env, tables, |rq.abbrs| - 1) == BuildTo(cfg, disk, rq, env, tables, i)
  {
  }

  /** Before the first segment is built nothing has failed. */
  lemma StartNotFailed(cfg: Config, disk: map<string, Stored>, rq: Request, env: Env, tables: Tables, k: int)
    requires Aligned(rq) && (k <= rq.start || k <= |rq.abbrs|)
    ensures BuildTo(cfg, disk, rq, env, tables, k).failed ==> k > rq.start
  {
  }

  /** A failed build is not stepped further. */
  lemma BuildStopped(cfg: Config, disk: map<string, Stored>, rq: Request, env: Env, tables: Tables, k: int)
    requires Aligned(rq) && rq.start < k <= |rq.abbrs|
    requires BuildTo(cfg, disk, rq, env, tables, k - 1).failed
    ensures BuildTo(cfg, disk, rq, env, tables, k) == BuildTo(cfg, disk, rq, env, tables, k - 1)
  {
    assert BuildTo(cfg, disk, rq, env, tables, k) == BuildAt(cfg, disk, rq, env, tables, k - 1);
  }

  /** With no segment from `start` on having templates for the folder key, the build is the bare message and touches nothing. */
  lemma {:induction false} NothingBuilt(cfg: Config, disk: map<string, Stored>, rq: Request, env: Env, tables: Tables, k: int)
    requires Aligned(rq) && (k <= rq.start || k <= |rq.abbrs|)
    requires forall i :: rq.start <= i < k ==> !Builds(tables, rq.abbrs[i], FolderKey(rq.typ))
    ensures BuildTo(cfg, disk, rq, env, tables, k) == Run(false, cfg.buildMessage, env, tables)
    decreases k
  {
    if k > rq.start {
      NothingBuilt(cfg, disk, rq, env, tables, k - 1);
      assert BuildTo(cfg, disk, rq, env, tables, k) == BuildAt(cfg, disk, rq, env, tables, k - 1);
    }
  }

  /**
   * Only segments `start` .. `k - 1` matter: requests that agree on those
   * segments build the same. With `k = n - 1` the filename segment, and the
   * first segment when `start = 1`, play no part.
   */
  lemma {:induction false} OnlyBuiltSegments(cfg: Config, disk: map<string, Stored>, rq: Request, rq2: Request, env: Env, tables: Tables, k: int)
    requires Aligned(rq) && Aligned(rq2) && |rq2.abbrs| == |rq.abbrs|
    requires rq2.macros == rq.macros && rq2.typ == rq.typ && rq2.min == rq.min && rq2.start == rq.start
    requires k <= rq.start || k <= |rq.abbrs|
    requires forall i :: rq.start <= i < k ==>
      rq2.abbrs[i] == rq.abbrs[i] && rq2.versions[i] == rq.versions[i] && rq2.folders[i] == rq.folders[i]
    ensures BuildTo(cfg, disk, rq2, env, tables, k) == BuildTo(cfg, disk, rq, env, tables, k)
    decreases k
  {
    if k > rq.start {
      OnlyBuiltSegments(cfg, disk, rq, rq2, env, tables, k - 1);
      assert BuildTo(cfg, disk, rq, env, tables, k) == BuildAt(cfg, disk, rq, env, tables, k - 1);
      assert BuildTo(cfg, disk, rq2, env, tables, k) == BuildAt(cfg, disk, rq2, env, tables, k - 1);
      StepAgrees(cfg.buildLocation, disk, rq, rq2, k - 1, BuildTo(cfg, disk, rq, env, tables, k - 1));
    }
  }

  /** A step reads only the segment's abbreviation, version and folder and the request's macros, type and `min`. */
  lemma StepAgrees(loc: string, disk: map<string, Stored>, rq: Request, rq2: Request, i: nat, run: Run)
    requires Aligned(rq) && Aligned(rq2) && i < |rq.abbrs| == |rq2.abbrs|
    requires rq2.macros == rq.macros && rq2.typ == rq.typ && rq2.min == rq.min
    requires rq2.abbrs[i] == rq.abbrs[i] && rq2.versions[i] == rq.versions[i] && rq2.folders[i] == rq.folders[i]
    ensures Step(loc, disk, rq2, i, run) == Step(loc, disk, rq, i, run)
  {
    assert Minify(rq2) == Minify(rq);
  }

  /** One step only appends, to the content and to `includedFiles`, and keeps the cache's capacity. */
  lemma StepGrows(loc: string, disk: map<string, Stored>, rq: Request, i: nat, run: Run)
    requires Aligned(rq) && i < |rq.abbrs|
    ensures Extends(run.content, Step(loc, disk, rq, i, run).content)
    ensures Extends(run.env.included, Step(loc, disk, rq, i, run).env.included)
    ensures Step(loc, disk, rq, i, run).env.cache.capacity == run.env.cache.capacity
  {
    var a := rq.abbrs[i];
    var key := FolderKey(rq.typ);
    if Builds(run.tables, a, key) {
      var names := Expand(run.tables[a][key], rq.macros, rq.versions[i]);
      var paths := SegmentPaths(loc, rq.folders[i], rq.versions[i], names, Minify(rq), rq.typ);
      FetchAllGrows(loc, disk, run.env, paths);
      var t := FetchAll(loc, disk, run.env, paths).text;
      assert (run.content + t)[..|run.content|] == run.content;
    }
  }

  /** A build only appends to `includedFiles` (it is never reset) and keeps the cache's capacity. */
  lemma {:induction false} BuildGrows(cfg: Config, disk: map<string, Stored>, rq: Request, env: Env, tables: Tables, k: int)
    requires Aligned(rq) && (k <= rq.start || k <= |rq.abbrs|)
    ensures Extends(env.included, BuildTo(cfg, disk, rq, env, tables, k).env.included)
    ensures BuildTo(cfg, disk, rq, env, tables, k).env.cache.capacity == env.cache.capacity
    decreases k
  {
    if k > rq.start {
      BuildGrows(cfg, disk, rq, env, tables, k - 1);
      var run := BuildTo(cfg, disk, rq, env, tables, k - 1);
      assert BuildTo(cfg, disk, rq, env, tables, k) == BuildAt(cfg, disk, rq, env, tables, k - 1);
      if !run.failed {
        var next := Step(cfg.buildLocation, disk, rq, k - 1, run);
        StepGrows(cfg.buildLocation, disk, rq, k - 1, run);
        ExtendsTrans(env.included, run.env.included, next.env.included);
      }
    }
  }

  /** Only the empty path leaves no segment once a leading empty part is dropped. */
  lemma SegmentsEmpty(filePath: string)
    ensures Segments(filePath) == [] <==> filePath == ""
  {
    var parts := Split(filePath, '/');
    if |parts| == 1 {
      assert Join(parts, '/') == parts[0];
    }
  }

  /** `buildFile` throws exactly for the empty path, whose filename segment is `undefined`. */
  lemma BuildThrows(cfg: Config, disk: map<string, Stored>, env: Env, filePath: string)
    ensures BuildSpec(cfg, disk, env, filePath).0 == Threw <==> filePath == ""
  {
    SegmentsEmpty(filePath);
    if filePath != "" {
      var p := Segments(filePath);
      var run := BuildTo(cfg, disk, RequestOf(cfg.elements, p), env, FileNameMap(cfg.elements), |p| - 1);
      BuildSpecOf(cfg, disk, env, filePath, p, run);
    }
  }

  /**
   * How `buildFile` settles on a path with segments `p`, whose build loop
   * ends in `run`: it builds exactly when no fetch answered `'500'` and the
   * content is not empty. A result of `false` never carries a partial file.
   */
  lemma BuildOutcome(cfg: Config, disk: map<string, Stored>, env: Env, filePath: string, p: seq<string>, run: Run)
    requires p == Segments(filePath) && p != []
    requires run == BuildTo(cfg, disk, RequestOf(cfg.elements, p), env, FileNameMap(cfg.elements), |p| - 1)
    ensures BuildSpec(cfg, disk, env, filePath).0.Built? <==> !run.failed && run.content != ""
    ensures BuildSpec(cfg, disk, env, filePath).0 == NotBuilt <==> !BuildSpec(cfg, disk, env, filePath).0.Built?
  {
    BuildSpecOf(cfg, disk, env, filePath, p, run);
    if run.failed || run.content == "" {
      assert BuildSpec(cfg, disk, env, filePath).0 == NotBuilt;
    } else {
      assert BuildSpec(cfg, disk, env, filePath).0.Built?;
    }
  }

  /** With a non-empty build message the content is never empty, so the file is built exactly when no fetch answered `'500'`. */
  lemma BuildWithMessage(cfg: Config, disk: map<string, Stored>, env: Env, filePath: string, p: seq<string>, run: Run)
    requires p == Segments(filePath) && p != [] && cfg.buildMessage != ""
    requires run == BuildTo(cfg, disk, RequestOf(cfg.elements, p), env, FileNameMap(cfg.elements), |p| - 1)
    ensures BuildSpec(cfg, disk, env, filePath).0.Built? <==> !run.failed
  {
    BuildOutcome(cfg, disk, env, filePath, p, run);
    HeaderPrefix(cfg, disk, RequestOf(cfg.elements, p), env, FileNameMap(cfg.elements), |p| - 1);
  }

  /** The path of a template, as fetched: folder `Buttons`, version 1.5.6, minified JavaScript. */
  lemma PathExample()
    ensures SegmentPaths("/dt/", Some("Buttons"), "1.5.6", ["x"], ".min", ".js") ==
      ["/dt/Buttons-1.5.6/x.min.js"]
  {
    var names := ["x"];
    assert names[..0] == [];
    assert SegmentPaths("/dt/", Some("Buttons"), "1.5.6", names[..0], ".min", ".js") == [];
    assert "/dt/" + "Buttons" + "-" + "1.5.6" + "/" + ("x" + ".min" + ".js") ==
      "/dt/Buttons-1.5.6/x.min.js";
  }

  /** A segment whose abbreviation has no folder name is fetched from an `undefined-` folder. */
  lemma UndefinedFolderExample()
    ensures SegmentPaths("/dt/", None, "1.5.6", ["x"], "", ".css") == ["/dt/undefined-1.5.6/x.css"]
  {
    var names := ["x"];
    assert names[..0] == [];
    assert SegmentPaths("/dt/", None, "1.5.6", names[..0], "", ".css") == [];
    assert "/dt/" + "undefined" + "-" + "1.5.6" + "/" + ("x" + "" + ".css") == "/dt/undefined-1.5.6/x.css";
  }

  /**
   * The first half of `buildFile`: the path split into segments (a leading
   * empty part dropped), the segment lists, and the filename's type and
   * `min` flag. With no segment the filename is `undefined` and there is no
   * request.
   */
  method ParsePath(es: seq<Element>, filePath: string)
    returns (parsedURL: seq<string>, fileNameMap: Tables, extensionsList: string, request: Option<Request>)
    ensures parsedURL == Segments(filePath)
    ensures fileNameMap == FileNameMap(es) && extensionsList == ExtensionsList(es, parsedURL)
    ensures request == if parsedURL == [] then None else Some(RequestOf(es, parsedURL))
  {
    parsedURL := Split(filePath, '/');
    if parsedURL[0] == "" {
      parsedURL := parsedURL[1..];
    }
    assert parsedURL == Segments(filePath);
    var fileNameList, versionList, folderNameList, includesList, start;
    fileNameMap, fileNameList, versionList, folderNameList, extensionsList, includesList, start :=
      SegmentLists(es, parsedURL);
    if |parsedURL| == 0 {
      return parsedURL, fileNameMap, extensionsList, None;
    }
    var splitFileName := Split(parsedURL[|parsedURL| - 1], '.');
    var typ := "." + splitFileName[|splitFileName| - 1];
    var min := false;
    if |splitFileName| > 2 {
      min := true;
    }
    assert typ == TypeOf(parsedURL[|parsedURL| - 1]) && min == IsMin(parsedURL[|parsedURL| - 1]);
    request := Some(Request(fileNameList, versionList, folderNameList, includesList, typ, min, start));
  }

  // ---------------------------------------------------------------------
  // The builder object
  // ---------------------------------------------------------------------

  /** `BuildFile`: the configuration, the shared cache, and the list of files included so far (never reset). */
  class BuildFile {
    const config: Config
    const storedFiles: Cache
    var includedFiles: seq<string>

    /** The state fetches change. */
    function Now(): Env
      reads this, storedFiles
    {
      Env(storedFiles.State(), includedFiles)
    }

    constructor(cache: Cache, configIn: Config)
      ensures storedFiles == cache && config == configIn && includedFiles == []
    {
      storedFiles := cache;
      config := configIn;
      includedFiles := [];
    }

    /** `getInclusions`: every file recorded by the builds so far. */
    method GetInclusions() returns (r: seq<string>)
      ensures r == includedFiles
    {
      return includedFiles;
    }

    /** `fetchFile`, with storage as a parameter. */
    method FetchFile(disk: map<string, Stored>, filename: string) returns (r: Fetched)
      modifies this, storedFiles
      ensures (r, Now()) == Fetch(config.buildLocation, disk, old(Now()), filename)
    {
      var inCache := storedFiles.SearchCache(filename);
      var hit := inCache.Some? && inCache.value != "";
      if filename in disk && !hit {
        match disk[filename]
        case Readable(content) =>
          storedFiles.UpdateCache(filename, content);
          includedFiles := includedFiles + [filename];
          return Buffer(content);
        case Unreadable =>
          return Text("500");
      } else if !hit {
        storedFiles.UpdateCache(filename, "");
        return Text("");
      } else {
        storedFiles.UpdateCache(filename, inCache.value);
        includedFiles := includedFiles + [ReplaceFirst(filename, config.buildLocation, "")];
        return Text(inCache.value);
      }
    }

    /**
     * One iteration of the fetch loop: the next path fetched and, unless it
     * answers `'500'`, its text appended; a `'500'` settles the whole list.
     */
    method FetchNext(disk: map<string, Stored>, ghost paths: seq<string>, ghost j: nat, path: string, text: string, ghost env0: Env)
      returns (failed: bool, text': string)
      requires j < |paths| && path == paths[j]
      requires Gathered(false, text, Now()) == FetchAll(config.buildLocation, disk, env0, paths[..j])
      modifies this, storedFiles
      ensures !failed ==> Gathered(false, text', Now()) == FetchAll(config.buildLocation, disk, env0, paths[..j + 1])
      ensures failed ==> Gathered(true, text', Now()) == FetchAll(config.buildLocation, disk, env0, paths)
    {
      assert paths[..j + 1][..j] == paths[..j];
      assert FetchAll(config.buildLocation, disk, env0, paths[..j + 1]) == FetchLast(config.buildLocation, disk, env0, paths[..j + 1]);
      var fileAddition := FetchFile(disk, path);
      if Aborts(fileAddition) {
        FetchAllSticks(config.buildLocation, disk, env0, paths, j + 1, |paths|);
        assert paths[..|paths|] == paths;
        return true, text;
      }
      return false, text + fileAddition.text;
    }

    /** The fetch loop of one segment in `build`: stops at the first `'500'`. */
    method FetchSegment(disk: map<string, Stored>, folder: Option<string>, version: string, names: seq<string>, minify: string, typ: string)
      returns (failed: bool, text: string)
      modifies this, storedFiles
      ensures Gathered(failed, text, Now()) ==
        FetchAll(config.buildLocation, disk, old(Now()), SegmentPaths(config.buildLocation, folder, version, names, minify, typ))
    {
      ghost var paths := SegmentPaths(config.buildLocation, folder, version, names, minify, typ);
      ghost var env0 := Now();
      SegmentPathsShape(config.buildLocation, folder, version, names, minify, typ);
      text := "";
      var j := 0;
      while j < |names|
        invariant 0 <= j <= |names|
        invariant Gathered(false, text, Now()) == FetchAll(config.buildLocation, disk, env0, paths[..j])
      {
        var filename := TemplateFile(names[j], minify, typ);
        var path := TemplatePath(config.buildLocation, folder, version, filename);
        failed, text := FetchNext(disk, paths, j, path, text, env0);
        if failed {
          return;
        }
        j := j + 1;
      }
      assert paths[..j] == paths;
      return false, text;
    }

    /** One iteration of the build loop: `Step` on the loop's state. */
    method BuildStep(disk: map<string, Stored>, rq: Request, i: nat, folder: string, minify: string, content: string, tables: Tables,
                     ghost env0: Env, ghost fileNameMap: Tables)
      returns (failed: bool, content': string, tables': Tables)
      requires Aligned(rq) && rq.start <= i < |rq.abbrs| && folder == FolderKey(rq.typ) && minify == Minify(rq)
      requires BuildTo(config, disk, rq, env0, fileNameMap, i) == Run(false, content, Now(), tables)
      modifies this, storedFiles
      ensures BuildTo(config, disk, rq, env0, fileNameMap, i + 1) == Run(failed, content', Now(), tables')
    {
      ghost var run := Run(false, content, Now(), tables);
      assert BuildTo(config, disk, rq, env0, fileNameMap, i + 1) == BuildAt(config, disk, rq, env0, fileNameMap, i)
        == Step(config.buildLocation, disk, rq, i, run);
      failed, content', tables' := false, content, tables;
      var a := rq.abbrs[i];
      if a in tables && folder in tables[a] {
        var updateFile := ExpandTemplates(tables[a][folder], rq.macros, rq.versions[i]);
        tables' := tables[a := tables[a][folder := updateFile]];
        var text;
        failed, text := FetchSegment(disk, rq.folders[i], rq.versions[i], updateFile, minify, rq.typ);
        content' := content + text;
      }
    }

    /** `build`: `None` where the source returns `false`. */
    method Build(disk: map<string, Stored>, rq: Request, fileNameMap: Tables) returns (r: Option<string>)
      requires Aligned(rq)
      modifies this, storedFiles
      ensures var run := BuildTo(config, disk, rq, old(Now()), fileNameMap, |rq.abbrs| - 1);
        r == (if run.failed then None else Some(run.content)) && Now() == run.env
    {
      ghost var env0 := Now();
      var fileContent := config.buildMessage;
      var minify := Minify(rq);
      var folder := FolderKey(rq.typ);
      var tables := fileNameMap;
      var i := rq.start;
      while i < |rq.abbrs| - 1
        invariant rq.start <= i && (i <= |rq.abbrs| - 1 || i == rq.start)
        invariant BuildTo(config, disk, rq, env0, fileNameMap, i) == Run(false, fileContent, Now(), tables)
      {
        var failed;
        failed, fileContent, tables := BuildStep(disk, rq, i, folder, minify, fileContent, tables, env0, fileNameMap);
        if failed {
          FailureStops(config, disk, rq, env0, fileNameMap, i + 1, |rq.abbrs| - 1);
          return None;
        }
        i := i + 1;
      }
      LoopExit(config, disk, rq, env0, fileNameMap, i);
      return Some(fileContent);
    }

    /** `buildFile`, with storage as a parameter. */
    method BuildFile(disk: map<string, Stored>, filePath: string) returns (r: BuildResult)
      modifies this, storedFiles
      ensures (r, Now()) == BuildSpec(config, disk, old(Now()), filePath)
    {
      ghost var env0 := Now();
      var parsedURL, fileNameMap, extensionsList, request := ParsePath(config.elements, filePath);
      if request.None? {
        // the filename segment is `undefined`, and splitting it throws
        return Threw;
      }
      var rq := request.value;
      ghost var run := BuildTo(config, disk, rq, env0, fileNameMap, |rq.abbrs| - 1);
      BuildSpecOf(config, disk, env0, filePath, parsedURL, run);
      var file := Build(disk, rq, fileNameMap);
      if file.None? || file.value == "" {
        return NotBuilt;
      }
      var built := ReplaceFirst(file.value, config.substitutions.extensionsURL, filePath);
      built := ReplaceFirst(built, config.substitutions.extensionsList, extensionsList);
      return Built(built);
    }
  }
}
