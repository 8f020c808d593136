/**
 * The module catalog the builder is configured with, how a path segment is
 * turned into the catalog abbreviation it names, and the abbreviation-keyed
 * lookup tables that several components derive from the catalog.
 */
module Catalog {
  import opened Optional
  import opened Strings

  /**
   * One catalog element. `order` is the bucket the validators and the
   * builder read (10 styling, 20 third-party library, 30 core, 40 extension);
   * `outputOrder` and `moduleName` are the properties the cache's lookup
   * tables read, absent (`undefined`) when an element does not set them.
   * `fileNames` maps an output folder key (`js`, `css`) to filename templates;
   * `fileIncludes` holds the macros the element contributes, in key order.
   */
  datatype Element = Element(
    abbr: string,
    order: int,
    outputOrder: Option<int>,
    folderName: string,
    moduleName: Option<string>,
    versions: seq<string>,
    excludes: seq<string>,
    fileNames: seq<(string, seq<string>)>,
    fileIncludes: seq<(string, string)>)

  /** The two header placeholders the builder fills in after concatenation. */
  datatype Substitutions = Substitutions(extensionsList: string, extensionsURL: string)

  /**
   * The configuration: where module folders live, the header every build
   * starts with, the catalog, the permitted base file names, the orders a
   * path must contain and the header placeholders.
   */
  datatype Config = Config(
    buildLocation: string,
    buildMessage: string,
    elements: seq<Element>,
    fileNames: seq<string>,
    requiredOrders: seq<int>,
    substitutions: Substitutions)

  /** The segment is literally the element's abbreviation followed by one of its versions. */
  predicate Matches(e: Element, segment: string)
  {
    exists k :: 0 <= k < |e.versions| && segment == e.abbr + e.versions[k]
  }

  // ---------------------------------------------------------------------
  // From a path segment to its abbreviation and version
  // ---------------------------------------------------------------------

  /**
   * The abbreviation a segment names: the whole segment when it has no `-`,
   * otherwise everything up to and including its last `-`
   * (`b-colvis-1.5.6` names `b-colvis-`).
   */
  function AbbrOf(segment: string): (a: string)
    ensures |a| <= |segment| && a == segment[..|a|]
    ensures '-' !in segment ==> a == segment
    ensures '-' in segment ==> |a| > 0 && a[|a| - 1] == '-' && '-' !in segment[|a|..]
  {
    if '-' in segment then PrefixThroughLast(segment, '-') else segment
  }

  /** What follows the last `-` of a segment (the whole segment when it has none). */
  function LastPart(segment: string): (v: string)
    ensures '-' !in v
  {
    segment[|PrefixThroughLast(segment, '-')|..]
  }

  /** The version a segment carries: its last part when it has a `-`, otherwise empty. */
  function VersionOf(segment: string): (v: string)
  {
    if '-' in segment then LastPart(segment) else ""
  }

  /** A segment is its abbreviation followed by its version, and the version holds no `-`. */
  lemma AbbrThenVersion(segment: string)
    ensures AbbrOf(segment) + VersionOf(segment) == segment
    ensures '-' !in VersionOf(segment)
  {
  }

  /** The three shapes the derivation distinguishes: `x`, `x-v` and `x-y-...-v`. */
  lemma AbbrOfShapes(x: string, y: string, v: string)
    requires '-' !in x && '-' !in y && '-' !in v
    ensures AbbrOf(x) == x
    ensures AbbrOf(x + "-" + v) == x + "-"
    ensures AbbrOf(x + "-" + y + "-" + v) == x + "-" + y + "-"
    ensures VersionOf(x + "-" + v) == v && VersionOf(x + "-" + y + "-" + v) == v
  {
    PrefixThroughLastOf(x, '-', v);
    assert x + "-" + v == x + ['-'] + v;
    assert '-' in x + "-" + v by { assert (x + "-" + v)[|x|] == '-'; }
    PrefixThroughLastOf(x + "-" + y, '-', v);
    assert x + "-" + y + "-" + v == (x + "-" + y) + ['-'] + v;
    assert '-' in x + "-" + y + "-" + v by { assert (x + "-" + y + "-" + v)[|x|] == '-'; }
  }

  /**
   * The abbreviation as the validator, the static-prefix finder and the
   * builder compute it: split on `-`, keep the first part, and when there was
   * a `-` append `-` and every further part but the last, each followed by `-`.
   */
  method DeriveAbbr(segment: string) returns (abbr: string)
    ensures abbr == AbbrOf(segment)
  {
    var str := Split(segment, '-');
    abbr := str[0];
    if |str| > 1 {
      abbr := abbr + "-";
      assert str[..1] == [str[0]];
    }
    if |str| > 2 {
      var k := 1;
      while k < |str| - 1
        invariant 1 <= k <= |str| - 1
        invariant abbr == Join(str[..k], '-') + "-"
      {
        JoinPrefixStep(str, k, '-');
        abbr := abbr + str[k] + "-";
        k := k + 1;
      }
    }
    SplitAbbr(segment, str);
  }

  /** One more part joined on: the step of the derivation loop. */
  lemma JoinPrefixStep(parts: seq<string>, k: nat, c: char)
    requires 1 <= k < |parts|
    ensures Join(parts[..k + 1], c) == Join(parts[..k], c) + [c] + parts[k]
  {
    JoinLast(parts[..k + 1], c);
    assert parts[..k + 1][..k] == parts[..k];
  }

  /** What the derivation loop ends with is the abbreviation. */
  lemma SplitAbbr(segment: string, str: seq<string>)
    requires str == Split(segment, '-')
    ensures |str| == 1 ==> str[0] == segment
    ensures |str| > 1 ==> Join(str[..|str| - 1], '-') + "-" == AbbrOf(segment)
  {
    if '-' in segment {
      SplitLast(segment, '-', str);
    }
  }

  /** The earlier validator's key: the segment's text before its first `-`, plus `-` when there is one. */
  function FirstKey(segment: string): (key: string)
    ensures '-' !in segment ==> key == segment
    ensures '-' in segment ==> 0 < |key| <= |segment| && key == segment[..|key|] && key[|key| - 1] == '-' && '-' !in key[..|key| - 1]
  {
    if '-' in segment then PrefixBefore(segment, '-') + "-" else segment
  }

  // ---------------------------------------------------------------------
  // Abbreviation-keyed lookup tables
  // ---------------------------------------------------------------------

  /**
   * A table built by visiting the elements in order and, for each element
   * that `keep` admits, setting its abbreviation to `val` of it: a later
   * element with the same abbreviation overwrites an earlier one.
   */
  function Index<V>(es: seq<Element>, keep: Element -> bool, val: Element -> V): map<string, V>
  {
    if es == [] then map[]
    else
      var m := Index(es[..|es| - 1], keep, val);
      var e := es[|es| - 1];
      if keep(e) then m[e.abbr := val(e)] else m
  }

  /** The position of the last element admitted by `keep` with abbreviation `k`, or -1. */
  function LastKept(es: seq<Element>, keep: Element -> bool, k: string): (i: int)
    ensures -1 <= i < |es|
    ensures i >= 0 ==> es[i].abbr == k && keep(es[i])
    ensures forall j :: i < j < |es| ==> !(es[j].abbr == k && keep(es[j]))
  {
    if es == [] then -1
    else if es[|es| - 1].abbr == k && keep(es[|es| - 1]) then |es| - 1
    else LastKept(es[..|es| - 1], keep, k)
  }

  /**
   * A table has an entry for exactly the abbreviations of admitted elements,
   * and the entry comes from the last such element.
   */
  lemma {:induction false} IndexLastWins<V>(es: seq<Element>, keep: Element -> bool, val: Element -> V, k: string)
    ensures k in Index(es, keep, val) <==> LastKept(es, keep, k) >= 0
    ensures k in Index(es, keep, val) ==> Index(es, keep, val)[k] == val(es[LastKept(es, keep, k)])
  {
    if es != [] {
      IndexLastWins(es[..|es| - 1], keep, val, k);
    }
  }

  /** A key-to-templates table built from an element's `fileNames`, later keys overwriting earlier ones. */
  function TableOf(pairs: seq<(string, seq<string>)>): map<string, seq<string>>
  {
    if pairs == [] then map[]
    else TableOf(pairs[..|pairs| - 1])[pairs[|pairs| - 1].0 := pairs[|pairs| - 1].1]
  }

  /** Every pair's key is in the table, holding the templates of the last pair with that key. */
  lemma {:induction false} TableOfLastWins(pairs: seq<(string, seq<string>)>, i: nat)
    requires i < |pairs|
    ensures pairs[i].0 in TableOf(pairs)
    ensures (forall j :: i < j < |pairs| ==> pairs[j].0 != pairs[i].0) ==> TableOf(pairs)[pairs[i].0] == pairs[i].1
  {
    if i < |pairs| - 1 {
      TableOfLastWins(pairs[..|pairs| - 1], i);
    }
  }

  function Always(e: Element): bool { true }
  function HasTemplates(e: Element): bool { |e.fileNames| > 0 }
  function HasIncludes(e: Element): bool { |e.fileIncludes| > 0 }
  function OrderOf(e: Element): int { e.order }
  function OutputOrderOf(e: Element): Option<int> { e.outputOrder }
  function FolderOf(e: Element): string { e.folderName }
  function ModuleNameOf(e: Element): Option<string> { e.moduleName }
  function TemplatesOf(e: Element): map<string, seq<string>> { TableOf(e.fileNames) }
  function IncludesOf(e: Element): seq<(string, string)> { e.fileIncludes }

  /** abbreviation -> `order`, as the validators and the builder build it. */
  function OrderMap(es: seq<Element>): map<string, int> { Index(es, Always, OrderOf) }

  /** abbreviation -> folder name */
  function FolderMap(es: seq<Element>): map<string, string> { Index(es, Always, FolderOf) }

  /** abbreviation -> template table, only for elements with at least one template key */
  function FileNameMap(es: seq<Element>): map<string, map<string, seq<string>>> { Index(es, HasTemplates, TemplatesOf) }

  /** abbreviation -> contributed macros, only for elements that contribute at least one */
  function IncludesMap(es: seq<Element>): map<string, seq<(string, string)>> { Index(es, HasIncludes, IncludesOf) }

  /** One more element visited: the step both map-building loops take. */
  lemma IndexStep<V>(es: seq<Element>, i: nat, keep: Element -> bool, val: Element -> V)
    requires i < |es|
    ensures Index(es[..i + 1], keep, val) ==
      if keep(es[i]) then Index(es[..i], keep, val)[es[i].abbr := val(es[i])] else Index(es[..i], keep, val)
  {
    assert es[..i + 1][..i] == es[..i];
  }
}
