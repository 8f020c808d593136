/**
 * The build-path validator: a path is accepted when its last segment is a
 * permitted file name, every other segment names a known catalog element, the
 * orders never decrease, the required orders all occur, and each segment is
 * literally an element's abbreviation plus one of its versions, the element
 * not having been excluded by an earlier segment.
 */
module UrlValidate {
  import opened Optional
  import opened Strings
  import opened Catalog

  // ---------------------------------------------------------------------
  // The file-name pattern `(n1|...|nk)(.min)?.(js|css)$`, searched anywhere.
  // Each `.` is a wildcard: the backslash before it is consumed by the
  // string literal, so the regular expression never sees an escaped dot.
  // ---------------------------------------------------------------------

  /**
   * The regular-expression wildcard `.` matches one UTF-16 code unit that is
   * not a line terminator. A character beyond U+FFFF is two code units, and
   * the literal that follows a wildcard here never matches the second one.
   */
  predicate Wild(c: char)
  {
    c as int <= 0xFFFF && c != '\n' && c != '\r' && c != '\U{2028}' && c != '\U{2029}'
  }

  predicate ExtensionOk(t: string)
  {
    t == "js" || t == "css"
  }

  /** What must follow the permitted name, up to the end: `(.min)?.(js|css)`. */
  predicate TailOk(t: string)
  {
    || (|t| >= 1 && Wild(t[0]) && ExtensionOk(t[1..]))
    || (|t| >= 5 && Wild(t[0]) && t[1..4] == "min" && Wild(t[4]) && ExtensionOk(t[5..]))
  }

  /** The alternatives of the group: joining no names leaves the empty group `()`, which matches the empty string. */
  function Alternatives(names: seq<string>): (alts: seq<string>)
    ensures |alts| > 0
  {
    if names == [] then [""] else names
  }

  /** The pattern matches `f` starting at `i` with alternative `n`. */
  predicate MatchAt(f: string, i: nat, n: string)
  {
    i + |n| <= |f| && f[i..i + |n|] == n && TailOk(f[i + |n|..])
  }

  /** `f.search(pattern) >= 0`: the pattern matches somewhere in `f`. */
  ghost predicate PatternFound(names: seq<string>, f: string)
  {
    exists i: nat, k :: 0 <= k < |Alternatives(names)| && MatchAt(f, i, Alternatives(names)[k])
  }

  /** `f` ends with `n` followed by a tail of length `len`. */
  predicate EndsWithTail(f: string, n: string, len: nat)
  {
    |f| >= |n| + len && MatchAt(f, |f| - len - |n|, n)
  }

  /** A tail that matches has one of four lengths, so a match is one of four suffixes. */
  predicate EndsWithName(f: string, n: string)
  {
    EndsWithTail(f, n, 3) || EndsWithTail(f, n, 4) || EndsWithTail(f, n, 7) || EndsWithTail(f, n, 8)
  }

  lemma TailLength(t: string)
    requires TailOk(t)
    ensures |t| == 3 || |t| == 4 || |t| == 7 || |t| == 8
  {
    if |t| >= 1 && ExtensionOk(t[1..]) {
      assert |t[1..]| == 2 || |t[1..]| == 3;
    } else {
      assert |t[5..]| == 2 || |t[5..]| == 3;
    }
  }

  /** Every accepted ending ends in `s`, the last letter of both extensions. */
  lemma TailEndsInS(t: string)
    ensures TailOk(t) ==> |t| > 0 && t[|t| - 1] == 's'
  {
    if TailOk(t) {
      TailLength(t);
      if |t| >= 1 && ExtensionOk(t[1..]) {
        assert t[|t| - 1] == t[1..][|t[1..]| - 1];
      } else {
        assert t[|t| - 1] == t[5..][|t[5..]| - 1];
      }
    }
  }

  /** A match anywhere is a match at the end. */
  lemma MatchAtIsSuffix(f: string, i: nat, n: string)
    requires MatchAt(f, i, n)
    ensures EndsWithName(f, n)
  {
    TailLength(f[i + |n|..]);
  }

  function AnyEnding(alts: seq<string>, f: string): (ok: bool)
    ensures ok <==> exists k :: 0 <= k < |alts| && EndsWithName(f, alts[k])
  {
    if alts == [] then false
    else EndsWithName(f, alts[0]) || AnyEnding(alts[1..], f)
  }

  /** Looking at the four possible endings decides the search. */
  lemma EndingsDecidePattern(names: seq<string>, f: string)
    ensures AnyEnding(Alternatives(names), f) <==> PatternFound(names, f)
  {
    var alts := Alternatives(names);
    if AnyEnding(alts, f) {
      var k :| 0 <= k < |alts| && EndsWithName(f, alts[k]);
      var n := alts[k];
      if EndsWithTail(f, n, 3) { assert MatchAt(f, |f| - 3 - |n|, n); }
      else if EndsWithTail(f, n, 4) { assert MatchAt(f, |f| - 4 - |n|, n); }
      else if EndsWithTail(f, n, 7) { assert MatchAt(f, |f| - 7 - |n|, n); }
      else { assert MatchAt(f, |f| - 8 - |n|, n); }
    } else {
      forall i: nat, k | 0 <= k < |alts| && MatchAt(f, i, alts[k]) ensures false {
        MatchAtIsSuffix(f, i, alts[k]);
      }
    }
  }

  /** `validateFilename`: the file-name pattern matches the trailing segment. */
  function FilenameOk(names: seq<string>, f: string): (ok: bool)
    ensures ok <==> PatternFound(names, f)
  {
    EndingsDecidePattern(names, f);
    AnyEnding(Alternatives(names), f)
  }

  /** The name, a wildcard and an extension; or with `.min`-like infix: these are accepted, and only these endings. */
  lemma FilenameShapes(names: seq<string>, n: string, pre: string, a: char, b: char)
    requires n in names && Wild(a) && Wild(b)
    ensures FilenameOk(names, pre + n + [a] + "js")
    ensures FilenameOk(names, pre + n + [a] + "min" + [b] + "css")
    ensures !FilenameOk(names, pre + n + [a] + "jsx")
  {
    var f1 := pre + n + [a] + "js";
    assert f1[|pre|..|pre| + |n|] == n && f1[|pre| + |n|..] == [a] + "js";
    assert MatchAt(f1, |pre|, n);
    var f2 := pre + n + [a] + "min" + [b] + "css";
    assert f2[|pre|..|pre| + |n|] == n && f2[|pre| + |n|..] == [a] + "min" + [b] + "css";
    assert MatchAt(f2, |pre|, n);
    var f3 := pre + n + [a] + "jsx";
    forall i: nat, k | 0 <= k < |Alternatives(names)| ensures !MatchAt(f3, i, Alternatives(names)[k]) {
      var m := i + |Alternatives(names)[k]|;
      if m <= |f3| {
        var t := f3[m..];
        TailEndsInS(t);
        if |t| > 0 {
          assert t[|t| - 1] == f3[|f3| - 1] == 'x';
        }
      }
    }
  }

  /** A character beyond U+FFFF in the wildcard's place is rejected: no single `.` spans a surrogate pair. */
  lemma AstralRejected()
    ensures !FilenameOk(["datatables"], "datatables\U{1F600}js")
  {
    var f := "datatables\U{1F600}js";
    forall i: nat, k | 0 <= k < |Alternatives(["datatables"])| ensures !MatchAt(f, i, Alternatives(["datatables"])[k]) {
      assert Alternatives(["datatables"])[k] == "datatables";
      if i + 10 <= |f| && f[i..i + 10] == "datatables" {
        assert f[i] == 'd';
        assert i == 0;
        assert f[10..] == "\U{1F600}js";
        assert !Wild(f[10]);
      }
    }
  }

  // ---------------------------------------------------------------------
  // Order, existence and requirement checks
  // ---------------------------------------------------------------------

  /** A leading `/` leaves an empty first segment, which is removed. */
  function DropLeadingEmpty(parsed: seq<string>): (segs: seq<string>)
    ensures parsed != [] && parsed[0] == "" ==> segs == parsed[1..]
    ensures (parsed == [] || parsed[0] != "") ==> segs == parsed
  {
    if |parsed| > 0 && parsed[0] == "" then parsed[1..] else parsed
  }

  /** The order of each segment's abbreviation, `undefined` for one the catalog does not know. */
  function OrderList(es: seq<Element>, segs: seq<string>): (orders: seq<Option<int>>)
    ensures |orders| == |segs|
    ensures forall i :: 0 <= i < |segs| ==> orders[i] == Get(OrderMap(es), AbbrOf(segs[i]))
  {
    seq(|segs|, i requires 0 <= i < |segs| => Get(OrderMap(es), AbbrOf(segs[i])))
  }

  predicate AllKnown(orders: seq<Option<int>>)
  {
    forall i :: 0 <= i < |orders| ==> orders[i].Some?
  }

  /** Each order is at least its predecessor's. */
  predicate StepsUp(orders: seq<Option<int>>)
    requires AllKnown(orders)
  {
    forall i :: 0 < i < |orders| ==> orders[i - 1].value <= orders[i].value
  }

  /** Every required order is the order of some segment. */
  predicate RequiredPresent(required: seq<int>, orders: seq<Option<int>>)
  {
    forall r :: r in required ==> Some(r) in orders
  }

  predicate OrdersOk(orders: seq<Option<int>>, required: seq<int>)
  {
    AllKnown(orders) && StepsUp(orders) && RequiredPresent(required, orders)
  }

  /** `filter(x => x !== v)`: every copy of `v` goes, the rest stay in order. */
  function Without(s: seq<int>, v: int): (r: seq<int>)
    ensures forall x :: x in r <==> x in s && x != v
    ensures |r| <= |s|
  {
    if s == [] then [] else (if s[0] == v then [] else [s[0]]) + Without(s[1..], v)
  }

  /** Orders that step up between neighbours never decrease between any two positions. */
  lemma {:induction false} StepsUpIsSorted(orders: seq<Option<int>>, i: nat, j: nat)
    requires AllKnown(orders) && StepsUp(orders)
    requires i <= j < |orders|
    ensures orders[i].value <= orders[j].value
    decreases j - i
  {
    if i < j {
      StepsUpIsSorted(orders, i, j - 1);
    }
  }

  /** Lines 40-60: the order map, then each segment's abbreviation looked up in it. */
  method OrderListOf(es: seq<Element>, segs: seq<string>) returns (orderList: seq<Option<int>>)
    ensures orderList == OrderList(es, segs)
  {
    var orderMap: map<string, int> := map[];
    var e := 0;
    while e < |es|
      invariant 0 <= e <= |es|
      invariant orderMap == Index(es[..e], Always, OrderOf)
    {
      IndexStep(es, e, Always, OrderOf);
      orderMap := orderMap[es[e].abbr := es[e].order];
      e := e + 1;
    }
    assert es[..e] == es;
    orderList := [];
    var j := 0;
    while j < |segs|
      invariant 0 <= j <= |segs|
      invariant |orderList| == j
      invariant forall i :: 0 <= i < j ==> orderList[i] == Get(OrderMap(es), AbbrOf(segs[i]))
    {
      var abbr := DeriveAbbr(segs[j]);
      orderList := orderList + [Get(orderMap, abbr)];
      j := j + 1;
    }
  }

  /** Lines 62-79: reject an unknown abbreviation, a decrease, or a required order never seen. */
  method CheckOrders(orderList: seq<Option<int>>, required: seq<int>) returns (ok: bool)
    ensures ok == OrdersOk(orderList, required)
  {
    var requireList := required;
    var j := 0;
    while j < |orderList|
      invariant 0 <= j <= |orderList|
      invariant AllKnown(orderList[..j]) && StepsUp(orderList[..j])
      invariant forall r :: r in requireList <==> r in required && Some(r) !in orderList[..j]
    {
      if orderList[j].Some? && orderList[j].value in requireList {
        requireList := Without(requireList, orderList[j].value);
      }
      assert orderList[..j + 1] == orderList[..j] + [orderList[j]];
      if orderList[j].None? {
        assert !AllKnown(orderList);
        return false;
      } else if j > 0 && orderList[j].value < orderList[j - 1].value {
        assert !OrdersOk(orderList, required);
        return false;
      }
      j := j + 1;
    }
    assert orderList[..j] == orderList;
    assert AllKnown(orderList) && StepsUp(orderList);
    ok := |requireList| == 0;
    if ok {
      forall r | r in required ensures Some(r) in orderList {
        assert r !in requireList;
      }
    } else {
      var r := requireList[0];
      assert r in requireList;
      assert r in required && Some(r) !in orderList;
    }
  }

  // ---------------------------------------------------------------------
  // Versions and exclusions
  // ---------------------------------------------------------------------

  /** The element is not excluded and the segment is its abbreviation plus one of its versions. */
  predicate Admits(e: Element, excludes: seq<string>, segment: string)
  {
    e.abbr !in excludes && Matches(e, segment)
  }

  /** The first element at or after `from` that admits the segment. */
  function FirstMatch(es: seq<Element>, excludes: seq<string>, segment: string, from: nat): (r: Option<nat>)
    ensures r.Some? ==> from <= r.value < |es| && Admits(es[r.value], excludes, segment)
    ensures r.Some? ==> forall k :: from <= k < r.value ==> !Admits(es[k], excludes, segment)
    ensures r.None? ==> forall k :: from <= k < |es| ==> !Admits(es[k], excludes, segment)
    decreases |es| - from
  {
    if from >= |es| then None
    else if Admits(es[from], excludes, segment) then Some(from)
    else FirstMatch(es, excludes, segment, from + 1)
  }

  /** The verdict of a validation and the exclusions accumulated by then. */
  datatype Verdict = Verdict(ok: bool, excludes: seq<string>)

  /** Segment by segment: the first admitting element's exclusions are appended before the next segment. */
  function VersionScan(es: seq<Element>, excludes: seq<string>, segs: seq<string>): Verdict
    decreases |segs|
  {
    if segs == [] then Verdict(true, excludes)
    else match FirstMatch(es, excludes, segs[0], 0)
      case None => Verdict(false, excludes)
      case Some(k) => VersionScan(es, excludes + es[k].excludes, segs[1..])
  }

  /** One segment of the scan. */
  lemma VersionScanStep(es: seq<Element>, excludes: seq<string>, segs: seq<string>, i: nat)
    requires i < |segs|
    ensures VersionScan(es, excludes, segs[i..]) ==
      match FirstMatch(es, excludes, segs[i], 0)
      case None => Verdict(false, excludes)
      case Some(k) => VersionScan(es, excludes + es[k].excludes, segs[i + 1..])
  {
    assert segs[i..][0] == segs[i];
    assert segs[i..][1..] == segs[i + 1..];
  }

  /** The element each segment was matched against, for as long as the scan accepts. */
  function MatchTrace(es: seq<Element>, excludes: seq<string>, segs: seq<string>): (t: seq<nat>)
    ensures |t| <= |segs|
    ensures forall i :: 0 <= i < |t| ==> t[i] < |es|
    decreases |segs|
  {
    if segs == [] then []
    else match FirstMatch(es, excludes, segs[0], 0)
      case None => []
      case Some(k) => [k] + MatchTrace(es, excludes + es[k].excludes, segs[1..])
  }

  /** The exclusions in force when segment `i` is checked. */
  function ExcludesBefore(es: seq<Element>, excludes: seq<string>, segs: seq<string>, i: nat): seq<string>
    requires i <= |MatchTrace(es, excludes, segs)|
    decreases i
  {
    if i == 0 then excludes
    else
      var trace := MatchTrace(es, excludes, segs);
      ExcludesBefore(es, excludes, segs, i - 1) + es[trace[i - 1]].excludes
  }

  /** The check of everything before the file name: orders, then versions. */
  function ValidateSpec(cfg: Config, excludes: seq<string>, parsedURL: seq<string>): Verdict
  {
    var segs := DropLeadingEmpty(parsedURL);
    if !OrdersOk(OrderList(cfg.elements, segs), cfg.requiredOrders) then Verdict(false, excludes)
    else VersionScan(cfg.elements, excludes, segs)
  }

  /** The whole path check: file name first, then the rest. */
  function Parse(cfg: Config, excludes: seq<string>, inputURL: string): Verdict
  {
    var parts := Split(inputURL, '/');
    if !FilenameOk(cfg.fileNames, parts[|parts| - 1]) then Verdict(false, excludes)
    else ValidateSpec(cfg, excludes, parts[..|parts| - 1])
  }

  /** The segments `Parse` checks against the catalog. */
  function PathSegments(inputURL: string): seq<string>
  {
    var parts := Split(inputURL, '/');
    DropLeadingEmpty(parts[..|parts| - 1])
  }

  // ---------------------------------------------------------------------
  // Properties of an accepted path
  // ---------------------------------------------------------------------

  /** An accepting scan matched every segment, and its final exclusions are those accumulated over all of them. */
  lemma {:induction false} ScanAccepts(es: seq<Element>, excludes: seq<string>, segs: seq<string>)
    requires VersionScan(es, excludes, segs).ok
    ensures |MatchTrace(es, excludes, segs)| == |segs|
    ensures VersionScan(es, excludes, segs).excludes == ExcludesBefore(es, excludes, segs, |segs|)
    decreases |segs|
  {
    if segs != [] {
      var k := FirstMatch(es, excludes, segs[0], 0).value;
      ScanAccepts(es, excludes + es[k].excludes, segs[1..]);
      ExcludesShift(es, excludes, segs, k, |segs|);
    }
  }

  /** Each matched segment was matched against an element that admits it under the exclusions then in force. */
  lemma {:induction false} TraceAdmits(es: seq<Element>, excludes: seq<string>, segs: seq<string>, i: nat)
    requires i < |MatchTrace(es, excludes, segs)|
    ensures Admits(es[MatchTrace(es, excludes, segs)[i]], ExcludesBefore(es, excludes, segs, i), segs[i])
    decreases i
  {
    var k := FirstMatch(es, excludes, segs[0], 0).value;
    if i > 0 {
      TraceAdmits(es, excludes + es[k].excludes, segs[1..], i - 1);
      ExcludesShift(es, excludes, segs, k, i);
    }
  }

  /** Exclusions after the first segment are those of the rest of the path, started from the grown list. */
  lemma {:induction false} ExcludesShift(es: seq<Element>, excludes: seq<string>, segs: seq<string>, k: nat, i: nat)
    requires segs != [] && FirstMatch(es, excludes, segs[0], 0) == Some(k)
    requires 0 < i <= |MatchTrace(es, excludes, segs)|
    ensures i - 1 <= |MatchTrace(es, excludes + es[k].excludes, segs[1..])|
    ensures ExcludesBefore(es, excludes, segs, i) == ExcludesBefore(es, excludes + es[k].excludes, segs[1..], i - 1)
    decreases i
  {
    if i > 1 {
      ExcludesShift(es, excludes, segs, k, i - 1);
    }
  }

  /** The exclusions only grow: those in force at segment `i` extend those at any earlier point. */
  lemma {:induction false} ExcludesGrow(es: seq<Element>, excludes: seq<string>, segs: seq<string>, i: nat, j: nat)
    requires i <= j <= |MatchTrace(es, excludes, segs)|
    ensures ExcludesBefore(es, excludes, segs, i) <= ExcludesBefore(es, excludes, segs, j)
    decreases j - i
  {
    if i < j {
      ExcludesGrow(es, excludes, segs, i, j - 1);
    }
  }

  /**
   * Once a segment matched an element that lists its own abbreviation among
   * its exclusions, no later segment is matched against an element with that
   * abbreviation.
   */
  lemma SelfExclusionHolds(es: seq<Element>, excludes: seq<string>, segs: seq<string>, i: nat, j: nat)
    requires VersionScan(es, excludes, segs).ok
    requires i < j < |segs|
    ensures var t := MatchTrace(es, excludes, segs);
      j < |t| && (es[t[i]].abbr in es[t[i]].excludes ==> es[t[j]].abbr != es[t[i]].abbr)
  {
    ScanAccepts(es, excludes, segs);
    var t := MatchTrace(es, excludes, segs);
    var a := es[t[i]].abbr;
    TraceAdmits(es, excludes, segs, j);
    if a in es[t[i]].excludes {
      var before := ExcludesBefore(es, excludes, segs, i + 1);
      var atJ := ExcludesBefore(es, excludes, segs, j);
      assert before == ExcludesBefore(es, excludes, segs, i) + es[t[i]].excludes;
      assert a in before;
      ExcludesGrow(es, excludes, segs, i + 1, j);
      assert atJ[..|before|] == before;
      assert a in atJ;
      assert Admits(es[t[j]], atJ, segs[j]);
    }
  }

  /**
   * An accepted path: the file name matched the pattern, every segment's
   * abbreviation is known, orders never decrease from any segment to any later
   * one, every required order occurs, every segment is literally some
   * element's abbreviation plus one of its versions, and the exclusions only grew.
   */
  lemma AcceptedPath(cfg: Config, excludes: seq<string>, inputURL: string)
    requires Parse(cfg, excludes, inputURL).ok
    ensures var parts := Split(inputURL, '/'); FilenameOk(cfg.fileNames, parts[|parts| - 1])
    ensures var segs := PathSegments(inputURL); var orders := OrderList(cfg.elements, segs);
      && (forall i :: 0 <= i < |segs| ==> AbbrOf(segs[i]) in OrderMap(cfg.elements))
      && (forall i, j :: 0 <= i <= j < |segs| ==> orders[i].Some? && orders[j].Some? && orders[i].value <= orders[j].value)
      && (forall r :: r in cfg.requiredOrders ==> Some(r) in orders)
      && (forall i :: 0 <= i < |segs| ==> exists k :: 0 <= k < |cfg.elements| && Matches(cfg.elements[k], segs[i]))
    ensures excludes <= Parse(cfg, excludes, inputURL).excludes
  {
    var segs := PathSegments(inputURL);
    AcceptedParts(cfg, excludes, inputURL);
    OrdersSorted(OrderList(cfg.elements, segs));
    OrdersKnown(cfg.elements, segs);
    ScanMatches(cfg.elements, excludes, segs);
    ExcludesGrow(cfg.elements, excludes, segs, 0, |segs|);
  }

  /** What acceptance consists of: the file name passed, the orders passed, and the version scan accepted. */
  lemma AcceptedParts(cfg: Config, excludes: seq<string>, inputURL: string)
    requires Parse(cfg, excludes, inputURL).ok
    ensures var parts := Split(inputURL, '/'); FilenameOk(cfg.fileNames, parts[|parts| - 1])
    ensures OrdersOk(OrderList(cfg.elements, PathSegments(inputURL)), cfg.requiredOrders)
    ensures VersionScan(cfg.elements, excludes, PathSegments(inputURL)) == Parse(cfg, excludes, inputURL)
  {
  }

  /** Orders that pass the order check never decrease from any position to a later one. */
  lemma OrdersSorted(orders: seq<Option<int>>)
    requires AllKnown(orders) && StepsUp(orders)
    ensures forall i, j :: 0 <= i <= j < |orders| ==> orders[i].Some? && orders[j].Some? && orders[i].value <= orders[j].value
  {
    forall i, j | 0 <= i <= j < |orders| ensures orders[i].value <= orders[j].value {
      StepsUpIsSorted(orders, i, j);
    }
  }

  /** Known orders mean abbreviations the order map holds. */
  lemma OrdersKnown(es: seq<Element>, segs: seq<string>)
    requires AllKnown(OrderList(es, segs))
    ensures forall i :: 0 <= i < |segs| ==> AbbrOf(segs[i]) in OrderMap(es)
  {
    var orders := OrderList(es, segs);
    forall i | 0 <= i < |segs| ensures AbbrOf(segs[i]) in OrderMap(es) {
      assert orders[i].Some?;
    }
  }

  /** An accepting scan matched every segment literally against some element, and its exclusions are the accumulated ones. */
  lemma ScanMatches(es: seq<Element>, excludes: seq<string>, segs: seq<string>)
    requires VersionScan(es, excludes, segs).ok
    ensures |MatchTrace(es, excludes, segs)| == |segs|
    ensures VersionScan(es, excludes, segs).excludes == ExcludesBefore(es, excludes, segs, |segs|)
    ensures forall i :: 0 <= i < |segs| ==> exists k :: 0 <= k < |es| && Matches(es[k], segs[i])
  {
    ScanAccepts(es, excludes, segs);
    forall i | 0 <= i < |segs| ensures exists k :: 0 <= k < |es| && Matches(es[k], segs[i]) {
      TraceAdmits(es, excludes, segs, i);
      var k := MatchTrace(es, excludes, segs)[i];
      assert Matches(es[k], segs[i]);
    }
  }

  /** A trailing segment that is not a permitted file name rejects the path before any segment is looked at. */
  lemma BadFilenameRejects(cfg: Config, excludes: seq<string>, inputURL: string)
    requires var parts := Split(inputURL, '/'); !PatternFound(cfg.fileNames, parts[|parts| - 1])
    ensures Parse(cfg, excludes, inputURL) == Verdict(false, excludes)
  {
  }

  /** A segment that is an element's abbreviation with a longer or shorter version is not that element's match. */
  lemma NearMissRejected(e: Element, v: string, extra: string)
    requires v in e.versions && extra != []
    requires forall w :: w in e.versions ==> |w| == |v|
    ensures !Matches(e, e.abbr + v + extra)
    ensures |v| > 0 ==> !Matches(e, e.abbr + v[..|v| - 1])
  {
    forall k | 0 <= k < |e.versions|
      ensures e.abbr + v + extra != e.abbr + e.versions[k]
      ensures |v| > 0 ==> e.abbr + v[..|v| - 1] != e.abbr + e.versions[k]
    {
      assert e.versions[k] in e.versions;
    }
  }

  // ---------------------------------------------------------------------
  // The validator object
  // ---------------------------------------------------------------------

  /** A validator holds the configuration and the exclusions accumulated by the segments it accepted. */
  class URLValidate {
    const config: Config
    var excludes: seq<string>

    constructor(configIn: Config)
      ensures config == configIn && excludes == []
    {
      config := configIn;
      excludes := [];
    }

    /** `parseURL`: split on `/`, check the trailing file name, then the rest of the path. */
    method ParseURL(inputURL: string) returns (ok: bool)
      modifies this
      ensures Verdict(ok, excludes) == Parse(config, old(excludes), inputURL)
    {
      var parsedURL := Split(inputURL, '/');
      var filename := parsedURL[|parsedURL| - 1];
      parsedURL := parsedURL[..|parsedURL| - 1];
      ok := FilenameOk(config.fileNames, filename);
      if !ok {
        return;
      }
      ok := ValidateURL(parsedURL);
    }

    /** `validateURL`: drop a leading empty segment, check orders and requirements, then each version. */
    method ValidateURL(parsedURL: seq<string>) returns (ok: bool)
      modifies this
      ensures Verdict(ok, excludes) == ValidateSpec(config, old(excludes), parsedURL)
    {
      var segs := parsedURL;
      if |segs| > 0 && segs[0] == "" {
        segs := segs[1..];
      }
      assert segs == DropLeadingEmpty(parsedURL);
      var orderList := OrderListOf(config.elements, segs);
      ok := CheckOrders(orderList, config.requiredOrders);
      if !ok {
        return;
      }
      ghost var spec := VersionScan(config.elements, excludes, segs);
      assert spec == ValidateSpec(config, excludes, parsedURL);
      var i := 0;
      assert segs[0..] == segs;
      while i < |segs|
        invariant 0 <= i <= |segs|
        invariant VersionScan(config.elements, excludes, segs[i..]) == spec
      {
        VersionScanStep(config.elements, excludes, segs, i);
        var valid := ValidateVersion(segs[i]);
        if !valid {
          return false;
        }
        i := i + 1;
      }
      return true;
    }

    /**
     * `validateVersion`: the first element, not excluded so far, that the
     * segment spells with one of its versions; its exclusions are appended.
     */
    method ValidateVersion(segment: string) returns (ok: bool)
      modifies this
      ensures var m := FirstMatch(config.elements, old(excludes), segment, 0);
        ok == m.Some? &&
        excludes == if m.Some? then old(excludes) + config.elements[m.value].excludes else old(excludes)
    {
      var es := config.elements;
      var i := 0;
      while i < |es|
        invariant 0 <= i <= |es|
        invariant excludes == old(excludes)
        invariant FirstMatch(es, excludes, segment, 0) == FirstMatch(es, excludes, segment, i)
      {
        var element := es[i];
        if element.abbr !in excludes {
          var v := 0;
          while v < |element.versions|
            invariant 0 <= v <= |element.versions|
            invariant forall k :: 0 <= k < v ==> segment != element.abbr + element.versions[k]
          {
            if segment == element.abbr + element.versions[v] {
              assert Admits(element, excludes, segment);
              var x := 0;
              while x < |element.excludes|
                invariant 0 <= x <= |element.excludes|
                invariant excludes == old(excludes) + element.excludes[..x]
              {
                excludes := excludes + [element.excludes[x]];
                x := x + 1;
              }
              assert element.excludes[..x] == element.excludes;
              return true;
            }
            v := v + 1;
          }
        }
        i := i + 1;
      }
      return false;
    }
  }
}
