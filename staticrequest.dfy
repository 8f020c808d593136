/**
 * The static-prefix finder: where, in a requested path, the first segment
 * naming no known module is, and whether the orders the configuration
 * requires are all covered by the segments.
 */
module StaticRequest {
  import opened Optional
  import opened Catalog

  /** The order each segment's abbreviation maps to, `undefined` when the map has no such key. */
  function SegmentOrders(parsedURL: seq<string>, maps: map<string, int>): (orders: seq<Option<int>>)
    ensures |orders| == |parsedURL|
    ensures forall i :: 0 <= i < |parsedURL| ==> orders[i] == Get(maps, AbbrOf(parsedURL[i]))
  {
    seq(|parsedURL|, i requires 0 <= i < |parsedURL| => Get(maps, AbbrOf(parsedURL[i])))
  }

  /** The known orders, in path order. */
  function Known(orders: seq<Option<int>>): seq<int>
  {
    if orders == [] then []
    else
      var rest := Known(orders[..|orders| - 1]);
      assert orders == orders[..|orders| - 1] + [orders[|orders| - 1]];
      match orders[|orders| - 1]
      case None => rest
      case Some(v) => rest + [v]
  }

  /** `indexOf`: the first position holding `v`, or -1. */
  function IndexOf(s: seq<int>, v: int): (i: int)
    ensures -1 <= i < |s|
    ensures i >= 0 ==> s[i] == v && v !in s[..i]
    ensures i == -1 <==> v !in s
  {
    if s == [] then -1
    else if s[0] == v then 0
    else
      var i := IndexOf(s[1..], v);
      assert s == [s[0]] + s[1..];
      if i == -1 then -1 else i + 1
  }

  /** `splice(indexOf(v), 1)` when `v` occurs: exactly one copy of `v` leaves the list. */
  function RemoveOne(s: seq<int>, v: int): (t: seq<int>)
    ensures multiset(t) == multiset(s) - multiset{v}
  {
    var i := IndexOf(s, v);
    if i == -1 then
      assert multiset(s)[v] == 0;
      s
    else
      assert s == s[..i] + [v] + s[i + 1..];
      assert multiset(s) == multiset(s[..i]) + multiset{v} + multiset(s[i + 1..]);
      s[..i] + s[i + 1..]
  }

  /** What is left of the required orders once every known segment has removed one copy of its order. */
  function Missing(required: seq<int>, known: seq<int>): seq<int>
  {
    if known == [] then required
    else RemoveOne(Missing(required, known[..|known| - 1]), known[|known| - 1])
  }

  /** The remaining requirements are the multiset difference: each segment covers one copy of one order. */
  lemma {:induction false} MissingIsDifference(required: seq<int>, known: seq<int>)
    ensures multiset(Missing(required, known)) == multiset(required) - multiset(known)
  {
    if known != [] {
      var front := known[..|known| - 1];
      var x := known[|known| - 1];
      MissingIsDifference(required, front);
      MultisetLast(known);
      DifferenceStep(multiset(required), multiset(front), x);
    }
  }

  /** The last element of a non-empty list, and the rest. */
  lemma MultisetLast(s: seq<int>)
    requires s != []
    ensures multiset(s) == multiset(s[..|s| - 1]) + multiset{s[|s| - 1]}
  {
    assert s == s[..|s| - 1] + [s[|s| - 1]];
  }

  /** Taking away one more copy of `x`. */
  lemma DifferenceStep(a: multiset<int>, b: multiset<int>, x: int)
    ensures a - (b + multiset{x}) == (a - b) - multiset{x}
  {
    forall e ensures (a - (b + multiset{x}))[e] == ((a - b) - multiset{x})[e] {
    }
  }

  /** Nothing is left exactly when the known orders cover the required ones, copies counted. */
  lemma MissingEmptyIff(required: seq<int>, known: seq<int>)
    ensures |Missing(required, known)| == 0 <==> multiset(required) <= multiset(known)
  {
    var rest := Missing(required, known);
    MissingIsDifference(required, known);
    EmptyDifference(multiset(required), multiset(known));
    assert |rest| == 0 <==> multiset(rest) == multiset{} by {
      if |rest| > 0 {
        assert rest[0] in multiset(rest);
      }
    }
  }

  /** A multiset difference is empty exactly when the first multiset is contained in the second. */
  lemma EmptyDifference(a: multiset<int>, b: multiset<int>)
    ensures a - b == multiset{} <==> a <= b
  {
    if a <= b {
      forall e ensures (a - b)[e] == 0 {
      }
    }
    if a - b == multiset{} {
      forall e ensures a[e] <= b[e] {
        assert (a - b)[e] == 0;
      }
    }
  }

  /** One more position scanned: a known order removes one copy of itself. */
  lemma MissingStep(required: seq<int>, orders: seq<Option<int>>, j: nat)
    requires j < |orders|
    ensures Missing(required, Known(orders[..j + 1])) ==
      if orders[j].Some? then RemoveOne(Missing(required, Known(orders[..j])), orders[j].value)
      else Missing(required, Known(orders[..j]))
  {
    assert orders[..j + 1][..j] == orders[..j];
    if orders[j].Some? {
      var k := Known(orders[..j + 1]);
      assert k[..|k| - 1] == Known(orders[..j]);
    }
  }

  /** The first position whose order is unknown. */
  function FirstUnknown(orders: seq<Option<int>>): (j: Option<nat>)
    ensures j.Some? ==> j.value < |orders| && orders[j.value].None? && forall k :: 0 <= k < j.value ==> orders[k].Some?
    ensures j.None? ==> forall k :: 0 <= k < |orders| ==> orders[k].Some?
  {
    if orders == [] then None
    else if orders[0].None? then Some(0)
    else match FirstUnknown(orders[1..])
      case None => None
      case Some(j) => Some(j + 1)
  }

  /** `findStaticRequest` as a value: the first unknown position, else 0 when a required order is missing, else -1. */
  function StaticSpec(parsedURL: seq<string>, maps: map<string, int>, required: Option<seq<int>>): int
  {
    var orders := SegmentOrders(parsedURL, maps);
    match FirstUnknown(orders)
    case Some(j) => j
    case None =>
      if required.Some? && |Missing(required.value, Known(orders))| > 0 then 0 else -1
  }

  /**
   * `findStaticRequest`. The caller's `requires` is a value here, so the
   * copy the source takes with `slice` is the local `requireList`.
   */
  method FindStaticRequest(parsedURL: seq<string>, maps: map<string, int>, required: Option<seq<int>>) returns (r: int)
    ensures r == StaticSpec(parsedURL, maps, required)
  {
    var orderList := OrderListOf(parsedURL, maps);

    var requireList: seq<int> := [];
    if required.Some? {
      requireList := required.value;
    }

    var j := 0;
    assert Known(orderList[..0]) == [];
    assert required.Some? ==> requireList == Missing(required.value, Known(orderList[..0]));
    while j < |orderList|
      invariant 0 <= j <= |orderList|
      invariant required.Some? ==> requireList == Missing(required.value, Known(orderList[..j]))
      invariant forall k :: 0 <= k < j ==> orderList[k].Some?
    {
      requireList := RemoveCovered(required, orderList, j, requireList);
      if orderList[j].None? {
        SpecUnknownAt(parsedURL, maps, required, orderList, j);
        return j;
      }
      j := j + 1;
    }
    assert orderList[..j] == orderList;
    SpecAllKnown(parsedURL, maps, required, orderList);

    if required.Some? {
      if |requireList| > 0 {
        return 0;
      }
    }
    return -1;
  }

  /** The answer when position `j` is the first whose order is unknown. */
  lemma SpecUnknownAt(parsedURL: seq<string>, maps: map<string, int>, required: Option<seq<int>>, orders: seq<Option<int>>, j: nat)
    requires orders == SegmentOrders(parsedURL, maps)
    requires j < |orders| && orders[j].None?
    requires forall k :: 0 <= k < j ==> orders[k].Some?
    ensures StaticSpec(parsedURL, maps, required) == j
  {
    var u := FirstUnknown(orders);
    assert u.Some?;
    assert !(u.value < j) && !(u.value > j);
  }

  /** The answer when every order is known. */
  lemma SpecAllKnown(parsedURL: seq<string>, maps: map<string, int>, required: Option<seq<int>>, orders: seq<Option<int>>)
    requires orders == SegmentOrders(parsedURL, maps)
    requires forall k :: 0 <= k < |orders| ==> orders[k].Some?
    ensures StaticSpec(parsedURL, maps, required) ==
      if required.Some? && |Missing(required.value, Known(orders))| > 0 then 0 else -1
  {
    assert FirstUnknown(orders).None?;
  }

  /** The first loop of `findStaticRequest`: each segment's abbreviation looked up in the map. */
  method OrderListOf(parsedURL: seq<string>, maps: map<string, int>) returns (orderList: seq<Option<int>>)
    ensures orderList == SegmentOrders(parsedURL, maps)
  {
    orderList := [];
    var i := 0;
    while i < |parsedURL|
      invariant 0 <= i <= |parsedURL|
      invariant |orderList| == i
      invariant forall k :: 0 <= k < i ==> orderList[k] == Get(maps, AbbrOf(parsedURL[k]))
    {
      var abbr := DeriveAbbr(parsedURL[i]);
      orderList := orderList + [Get(maps, abbr)];
      i := i + 1;
    }
    assert orderList == SegmentOrders(parsedURL, maps);
  }

  /**
   * One pass of the second loop of `findStaticRequest` before its unknown
   * check: when a copy of the segment's order is still required, one copy
   * leaves the list, which keeps the list equal to `Missing` of the orders seen.
   */
  method RemoveCovered(required: Option<seq<int>>, orderList: seq<Option<int>>, j: nat, requireList: seq<int>)
    returns (rest: seq<int>)
    requires j < |orderList|
    requires required.Some? ==> requireList == Missing(required.value, Known(orderList[..j]))
    ensures orderList[j].Some? && required.Some? ==> rest == Missing(required.value, Known(orderList[..j + 1]))
    ensures orderList[j].None? ==> rest == requireList
  {
    rest := requireList;
    if required.Some? {
      if orderList[j].Some? && IndexOf(requireList, orderList[j].value) > -1 {
        rest := RemoveOne(requireList, orderList[j].value);
      }
      if orderList[j].Some? {
        MissingStep(required.value, orderList, j);
      }
    }
  }

  // ---------------------------------------------------------------------
  // Properties
  // ---------------------------------------------------------------------

  /** The answer is the first segment whose abbreviation the map does not know, when there is one. */
  lemma FirstUnknownReported(parsedURL: seq<string>, maps: map<string, int>, required: Option<seq<int>>, j: nat)
    requires j < |parsedURL| && AbbrOf(parsedURL[j]) !in maps
    requires forall k :: 0 <= k < j ==> AbbrOf(parsedURL[k]) in maps
    ensures StaticSpec(parsedURL, maps, required) == j
  {
    SpecUnknownAt(parsedURL, maps, required, SegmentOrders(parsedURL, maps), j);
  }

  /**
   * With every segment known: -1 exactly when nothing is required or the
   * segments' orders cover the required orders as a multiset, 0 otherwise.
   */
  lemma AllKnownVerdict(parsedURL: seq<string>, maps: map<string, int>, required: Option<seq<int>>, known: seq<int>)
    requires |known| == |parsedURL|
    requires forall k :: 0 <= k < |parsedURL| ==> AbbrOf(parsedURL[k]) in maps && known[k] == maps[AbbrOf(parsedURL[k])]
    ensures var r := StaticSpec(parsedURL, maps, required);
      (r == -1 || r == 0) &&
      (r == -1 <==> required.None? || multiset(required.value) <= multiset(known))
  {
    var orders := SegmentOrders(parsedURL, maps);
    KnownOfAllSome(orders, known);
    assert FirstUnknown(orders).None?;
    if required.Some? {
      MissingEmptyIff(required.value, known);
    }
  }

  /** With every order known, the known orders are exactly the orders' values. */
  lemma {:induction false} KnownOfAllSome(orders: seq<Option<int>>, known: seq<int>)
    requires |known| == |orders|
    requires forall k :: 0 <= k < |orders| ==> orders[k] == Some(known[k])
    ensures Known(orders) == known
  {
    if orders != [] {
      KnownOfAllSome(orders[..|orders| - 1], known[..|known| - 1]);
      assert known == known[..|known| - 1] + [known[|known| - 1]];
    }
  }

  /**
   * The answer lies in -1 .. |parsedURL| - 1, except that an empty path with
   * a non-empty `requires` answers 0.
   */
  lemma AnswerRange(parsedURL: seq<string>, maps: map<string, int>, required: Option<seq<int>>)
    ensures var r := StaticSpec(parsedURL, maps, required);
      -1 <= r && (r < |parsedURL| || (r == 0 && parsedURL == [] && required.Some? && required.value != []))
  {
    if parsedURL == [] {
      assert Known(SegmentOrders(parsedURL, maps)) == [];
    }
  }

  /** Order along the path plays no part: a path whose orders decrease is still answered -1. */
  lemma OrderIgnored()
    ensures StaticSpec(["b", "a"], map["a" := 10, "b" := 20], Some([10, 20])) == -1
  {
    var maps := map["a" := 10, "b" := 20];
    assert AbbrOf("b") == "b" && AbbrOf("a") == "a";
    AllKnownVerdict(["b", "a"], maps, Some([10, 20]), [20, 10]);
    assert multiset([10, 20]) == multiset([20, 10]);
  }
}
