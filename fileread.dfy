/**
 * The earlier path validator. After the order check it walks the path with
 * one shared index: a styling segment first, then at most one third-party
 * package (rejecting a second jQuery flavour later in the path), then
 * optionally the core library, then nothing but extensions.
 */
module FileRead {
  import opened Optional
  import opened Strings
  import opened Catalog
  import UrlValidate

  /** A completed call's value, or the `TypeError` the source throws when it reads a field of a missing element. */
  datatype Answer<T> = Done(value: T) | Threw

  /** Some element of the given order is spelled by the segment. */
  predicate HasMatch(es: seq<Element>, order: int, segment: string)
  {
    exists k :: 0 <= k < |es| && es[k].order == order && Matches(es[k], segment)
  }

  /** The order of each segment's key (first part plus `-`), `undefined` when unknown. */
  function KeyOrders(es: seq<Element>, segs: seq<string>): (orders: seq<Option<int>>)
    ensures |orders| == |segs|
    ensures forall i :: 0 <= i < |segs| ==> orders[i] == Get(OrderMap(es), FirstKey(segs[i]))
  {
    seq(|segs|, i requires 0 <= i < |segs| => Get(OrderMap(es), FirstKey(segs[i])))
  }

  /** The first position holding an element with this abbreviation, or -1. */
  function FirstWithAbbr(es: seq<Element>, abbr: string, from: nat): (j: int)
    ensures j == -1 || from <= j < |es|
    ensures j >= 0 ==> es[j].abbr == abbr && forall k :: from <= k < j ==> es[k].abbr != abbr
    ensures j == -1 ==> forall k :: from <= k < |es| ==> es[k].abbr != abbr
    decreases |es| - from
  {
    if from >= |es| then -1
    else if es[from].abbr == abbr then from
    else FirstWithAbbr(es, abbr, from + 1)
  }

  /** The element checked against the rest of the path for a jQuery flavour: the other flavour, found by abbreviation. */
  function PackagePoint(es: seq<Element>, flavour: string): int
  {
    if flavour == "jq-" then FirstWithAbbr(es, "jqc-", 0)
    else if flavour == "jqc-" then FirstWithAbbr(es, "jq-", 0)
    else 0
  }

  /**
   * `checkDoubleJQ`: true when no segment after `x` spells the other flavour.
   * Reading the versions of a missing element throws, which happens as soon
   * as there is a later segment to compare.
   */
  function DoubleSpec(es: seq<Element>, segs: seq<string>, x: nat, flavour: string): Answer<bool>
  {
    var pp := PackagePoint(es, flavour);
    if x + 1 >= |segs| then Done(true)
    else if !(0 <= pp < |es|) then Threw
    else Done(forall j :: x < j < |segs| ==> !Matches(es[pp], segs[j]))
  }

  /** `checkVersionPackage`: 0 no match, 1 a match, 2 a jQuery flavour doubled later in the path. */
  function VersionPackageSpec(es: seq<Element>, segs: seq<string>, k: nat, x: nat): Answer<int>
    requires k < |es| && x < |segs|
  {
    if !Matches(es[k], segs[x]) then Done(0)
    else if es[k].abbr == "jq-" || es[k].abbr == "jqc-" then
      match DoubleSpec(es, segs, x, es[k].abbr)
      case Threw => Threw
      case Done(single) => Done(if single then 1 else 2)
    else Done(1)
  }

  /** `checkPackage`: the answer for the first order-20 element that matches, 0 when none does. */
  function PackageSpec(es: seq<Element>, segs: seq<string>, x: nat, from: nat): Answer<int>
    requires x < |segs|
    decreases |es| - from
  {
    if from >= |es| then Done(0)
    else if es[from].order == 20 then
      match VersionPackageSpec(es, segs, from, x)
      case Threw => Threw
      case Done(r) => if r == 1 || r == 2 then Done(r) else PackageSpec(es, segs, x, from + 1)
    else PackageSpec(es, segs, x, from + 1)
  }

  /** After the optional package, at index `i`: no further low order, an optional core library, then extensions only. */
  function AfterPackages(es: seq<Element>, segs: seq<string>, orders: seq<Option<int>>, i: nat): bool
    requires |orders| == |segs| && UrlValidate.AllKnown(orders)
  {
    if i < |segs| && orders[i].value < 30 then false
    else
      var j := if i < |segs| && HasMatch(es, 30, segs[i]) then i + 1 else i;
      if j < |segs| && orders[j].value < 40 then false
      else forall m :: j <= m < |segs| ==> HasMatch(es, 40, segs[m])
  }

  /** `validateURL` as a whole. */
  function ValidateSpec(es: seq<Element>, parsedURL: seq<string>): Answer<bool>
  {
    var segs := UrlValidate.DropLeadingEmpty(parsedURL);
    var orders := KeyOrders(es, segs);
    if !(UrlValidate.AllKnown(orders) && UrlValidate.StepsUp(orders)) then Done(false)
    else if !(|segs| > 0 && HasMatch(es, 10, segs[0])) then Done(false)
    else if 1 < |segs| - 1 && orders[1].value < 30 then
      match PackageSpec(es, segs, 1, 0)
      case Threw => Threw
      case Done(r) => if r == 1 then Done(AfterPackages(es, segs, orders, 2)) else Done(false)
    else Done(AfterPackages(es, segs, orders, 1))
  }

  /** `parseURL`: the trailing file name first, then the rest of the path. */
  function ParseSpec(names: seq<string>, es: seq<Element>, inputURL: string): Answer<bool>
  {
    var parts := Split(inputURL, '/');
    if !UrlValidate.FilenameOk(names, parts[|parts| - 1]) then Done(false)
    else ValidateSpec(es, parts[..|parts| - 1])
  }

  // ---------------------------------------------------------------------
  // The methods
  // ---------------------------------------------------------------------

  /**
   * `parseURL`. The source reads the permitted names from a configuration
   * property the configuration does not define; here they are a parameter.
   */
  method ParseURL(names: seq<string>, es: seq<Element>, inputURL: string) returns (r: Answer<bool>)
    ensures r == ParseSpec(names, es, inputURL)
  {
    var parsedURL := Split(inputURL, '/');
    var filename := parsedURL[|parsedURL| - 1];
    parsedURL := parsedURL[..|parsedURL| - 1];
    if !UrlValidate.FilenameOk(names, filename) {
      return Done(false);
    }
    r := ValidateURL(es, parsedURL);
  }

  /** `validateURL`: the stages share the index `i`, which only moves forward. */
  method ValidateURL(es: seq<Element>, parsedURL: seq<string>) returns (r: Answer<bool>)
    ensures r == ValidateSpec(es, parsedURL)
  {
    var segs := parsedURL;
    if |segs| > 0 && segs[0] == "" {
      segs := segs[1..];
    }
    assert segs == UrlValidate.DropLeadingEmpty(parsedURL);

    var orderList := KeyOrderList(es, segs);

    var ordered := CheckKeyOrders(orderList);
    if !ordered {
      return Done(false);
    }

    // The first segment must be a styling framework (order 10).
    var stylFound := FindStyling(es, if |segs| > 0 then Some(segs[0]) else None);
    if !stylFound {
      return Done(false);
    }

    // Third-party packages: the source's loop leaves on its first pass, by return or break.
    var i := 1;
    if i < |segs| - 1 {
      if orderList[i].value < 30 {
        var validThird := CheckPackage(es, segs, i);
        if validThird == Threw {
          return Threw;
        } else if validThird == Done(2) {
          return Done(false);
        } else if validThird == Done(1) {
          i := i + 1;
        } else {
          return Done(false);
        }
      }
    }
    var rest := ValidateRest(es, segs, orderList, i);
    return Done(rest);
  }

  /** The order check of `validateURL`: every key is known and the orders never decrease. */
  method CheckKeyOrders(orderList: seq<Option<int>>) returns (ok: bool)
    ensures ok == (UrlValidate.AllKnown(orderList) && UrlValidate.StepsUp(orderList))
  {
    var j := 0;
    while j < |orderList|
      invariant 0 <= j <= |orderList|
      invariant UrlValidate.AllKnown(orderList[..j]) && UrlValidate.StepsUp(orderList[..j])
    {
      assert orderList[..j + 1] == orderList[..j] + [orderList[j]];
      if orderList[j].None? {
        assert !UrlValidate.AllKnown(orderList);
        return false;
      } else if j > 0 && orderList[j].value < orderList[j - 1].value {
        assert !(UrlValidate.AllKnown(orderList) && UrlValidate.StepsUp(orderList));
        return false;
      }
      j := j + 1;
    }
    assert orderList[..j] == orderList;
    return true;
  }

  /** The styling stage of `validateURL`: some order-10 element is spelled by the first segment. */
  method FindStyling(es: seq<Element>, first: Option<string>) returns (stylFound: bool)
    ensures stylFound <==> first.Some? && HasMatch(es, 10, first.value)
  {
    var j := 0;
    while j < |es|
      invariant 0 <= j <= |es|
      invariant forall k :: 0 <= k < j ==> !(es[k].order == 10 && first.Some? && Matches(es[k], first.value))
    {
      if es[j].order == 10 {
        stylFound := CheckVersionStyling(es, first, j);
        if stylFound {
          return;
        }
      }
      j := j + 1;
    }
    return false;
  }

  /** The order and key lookups of `validateURL`: build the order table, then look up each segment's key. */
  method KeyOrderList(es: seq<Element>, segs: seq<string>) returns (orderList: seq<Option<int>>)
    ensures orderList == KeyOrders(es, segs)
  {
    var orderMap: map<string, int> := map[];
    var j := 0;
    while j < |es|
      invariant 0 <= j <= |es|
      invariant orderMap == Index(es[..j], Always, OrderOf)
    {
      IndexStep(es, j, Always, OrderOf);
      orderMap := orderMap[es[j].abbr := es[j].order];
      j := j + 1;
    }
    assert es[..j] == es;

    orderList := [];
    j := 0;
    while j < |segs|
      invariant 0 <= j <= |segs|
      invariant |orderList| == j
      invariant forall m :: 0 <= m < j ==> orderList[m] == Get(OrderMap(es), FirstKey(segs[m]))
    {
      var str := Split(segs[j], '-');
      var key := str[0];
      if |str| > 1 {
        key := key + "-";
      }
      orderList := orderList + [Get(orderMap, key)];
      j := j + 1;
    }
  }

  /** The stages of `validateURL` after the package check, from index `i`. */
  method ValidateRest(es: seq<Element>, segs: seq<string>, orderList: seq<Option<int>>, from: nat) returns (ok: bool)
    requires |orderList| == |segs| && UrlValidate.AllKnown(orderList)
    ensures ok == AfterPackages(es, segs, orderList, from)
  {
    var i := from;
    if i < |segs| && orderList[i].value < 30 {
      return false;
    }

    // The core library, if present, takes one segment.
    ghost var afterThird := i;
    var includesDT := CheckDT(es, if i < |segs| then Some(segs[i]) else None);
    if includesDT {
      i := i + 1;
    }
    assert i == if afterThird < |segs| && HasMatch(es, 30, segs[afterThird]) then afterThird + 1 else afterThird;

    if i < |segs| && orderList[i].value < 40 {
      return false;
    }

    // Everything that is left must be an extension (order 40).
    ghost var extStart := i;
    var validExtension := true;
    while i < |segs|
      invariant extStart <= i && (i <= |segs| || i == extStart)
      invariant validExtension
      invariant forall m :: extStart <= m < i ==> HasMatch(es, 40, segs[m])
    {
      validExtension := CheckExtension(es, segs[i]);
      if !validExtension {
        break;
      }
      i := i + 1;
    }
    return validExtension;
  }

  /** `checkVersionStyling`: the segment (possibly `undefined`) is element `i`'s abbreviation plus a version. */
  method CheckVersionStyling(es: seq<Element>, segment: Option<string>, i: nat) returns (found: bool)
    requires i < |es|
    ensures found <==> segment.Some? && Matches(es[i], segment.value)
  {
    var j := 0;
    while j < |es[i].versions|
      invariant 0 <= j <= |es[i].versions|
      invariant forall k :: 0 <= k < j ==> segment != Some(es[i].abbr + es[i].versions[k])
    {
      if segment == Some(es[i].abbr + es[i].versions[j]) {
        return true;
      }
      j := j + 1;
    }
    return false;
  }

  /** `checkDT`: some core-library element (order 30) is spelled by the segment; `undefined` otherwise, read as false. */
  method CheckDT(es: seq<Element>, segment: Option<string>) returns (found: bool)
    ensures found <==> segment.Some? && HasMatch(es, 30, segment.value)
  {
    var k := 0;
    while k < |es|
      invariant 0 <= k <= |es|
      invariant forall m :: 0 <= m < k ==> !(es[m].order == 30 && segment.Some? && Matches(es[m], segment.value))
    {
      if es[k].order == 30 {
        var j := 0;
        while j < |es[k].versions|
          invariant 0 <= j <= |es[k].versions|
          invariant forall v :: 0 <= v < j ==> segment != Some(es[k].abbr + es[k].versions[v])
        {
          if segment == Some(es[k].abbr + es[k].versions[j]) {
            return true;
          }
          j := j + 1;
        }
      }
      k := k + 1;
    }
    return false;
  }

  /** `checkVersionExtension`: the segment is element `i`'s abbreviation plus a version. */
  method CheckVersionExtension(es: seq<Element>, segment: string, i: nat) returns (found: bool)
    requires i < |es|
    ensures found <==> Matches(es[i], segment)
  {
    var j := 0;
    while j < |es[i].versions|
      invariant 0 <= j <= |es[i].versions|
      invariant forall k :: 0 <= k < j ==> segment != es[i].abbr + es[i].versions[k]
    {
      if segment == es[i].abbr + es[i].versions[j] {
        return true;
      }
      j := j + 1;
    }
    return false;
  }

  /** `checkVersionPackage`: does the package at `x` spell element `k`, and if it is a jQuery flavour, is it the only one. */
  method CheckVersionPackage(es: seq<Element>, segs: seq<string>, k: nat, x: nat) returns (r: Answer<int>)
    requires k < |es| && x < |segs|
    ensures r == VersionPackageSpec(es, segs, k, x)
  {
    var j := 0;
    while j < |es[k].versions|
      invariant 0 <= j <= |es[k].versions|
      invariant forall v :: 0 <= v < j ==> segs[x] != es[k].abbr + es[k].versions[v]
    {
      if segs[x] == es[k].abbr + es[k].versions[j] {
        if es[k].abbr == "jq-" || es[k].abbr == "jqc-" {
          var doubleJQ := CheckDoubleJQ(es, segs, x, es[k].abbr);
          if doubleJQ == Threw {
            return Threw;
          }
          if !doubleJQ.value {
            return Done(2);
          }
          return Done(1);
        }
        return Done(1);
      }
      j := j + 1;
    }
    return Done(0);
  }

  /** `checkExtension`: some extension element (order 40) is spelled by the segment. */
  method CheckExtension(es: seq<Element>, segment: string) returns (found: bool)
    ensures found <==> HasMatch(es, 40, segment)
  {
    var j := 0;
    while j < |es|
      invariant 0 <= j <= |es|
      invariant forall k :: 0 <= k < j ==> !(es[k].order == 40 && Matches(es[k], segment))
    {
      if es[j].order == 40 {
        var versionFound := CheckVersionExtension(es, segment, j);
        if versionFound {
          return true;
        }
      }
      j := j + 1;
    }
    return false;
  }

  /** `checkPackage`: try each order-20 element in turn; the first definite answer (1 or 2) wins. */
  method CheckPackage(es: seq<Element>, segs: seq<string>, x: nat) returns (r: Answer<int>)
    requires x < |segs|
    ensures r == PackageSpec(es, segs, x, 0)
  {
    var j := 0;
    while j < |es|
      invariant 0 <= j <= |es|
      invariant PackageSpec(es, segs, x, j) == PackageSpec(es, segs, x, 0)
    {
      if es[j].order == 20 {
        var packageFound := CheckVersionPackage(es, segs, j, x);
        if packageFound == Threw {
          return Threw;
        }
        if packageFound == Done(1) || packageFound == Done(2) {
          return packageFound;
        }
      }
      j := j + 1;
    }
    return Done(0);
  }

  /** `checkDoubleJQ`: no segment after `x` spells the other jQuery flavour. */
  method CheckDoubleJQ(es: seq<Element>, segs: seq<string>, x: nat, flavour: string) returns (r: Answer<bool>)
    ensures r == DoubleSpec(es, segs, x, flavour)
  {
    var packagePoint := 0;
    if flavour == "jq-" {
      packagePoint := FindAbbrPackage(es, "jqc-");
    } else if flavour == "jqc-" {
      packagePoint := FindAbbrPackage(es, "jq-");
    }
    var j := x + 1;
    while j < |segs|
      invariant x + 1 <= j <= |segs| || (j == x + 1 && j > |segs|)
      invariant j > x + 1 ==> 0 <= packagePoint < |es|
      invariant forall m :: x < m < j && m < |segs| ==> !Matches(es[packagePoint], segs[m])
    {
      if !(0 <= packagePoint < |es|) {
        return Threw;
      }
      var k := 0;
      while k < |es[packagePoint].versions|
        invariant 0 <= k <= |es[packagePoint].versions|
        invariant forall v :: 0 <= v < k ==> segs[j] != es[packagePoint].abbr + es[packagePoint].versions[v]
      {
        if segs[j] == es[packagePoint].abbr + es[packagePoint].versions[k] {
          return Done(false);
        }
        k := k + 1;
      }
      j := j + 1;
    }
    return Done(true);
  }

  /** `findAbbrPackage`: the first position holding this abbreviation, or -1. */
  method FindAbbrPackage(es: seq<Element>, abbr: string) returns (j: int)
    ensures j == FirstWithAbbr(es, abbr, 0)
  {
    var i := 0;
    while i < |es|
      invariant 0 <= i <= |es|
      invariant forall k :: 0 <= k < i ==> es[k].abbr != abbr
    {
      if abbr == es[i].abbr {
        return i;
      }
      i := i + 1;
    }
    return -1;
  }

  // ---------------------------------------------------------------------
  // Properties
  // ---------------------------------------------------------------------

  /** A package answer of 1 came from an order-20 element the segment spells, and a jQuery flavour is not doubled. */
  lemma {:induction false} PackageFound(es: seq<Element>, segs: seq<string>, x: nat, from: nat)
    requires x < |segs| && PackageSpec(es, segs, x, from) == Done(1)
    ensures exists k :: (from <= k < |es| && es[k].order == 20 && Matches(es[k], segs[x]) &&
      ((es[k].abbr == "jq-" || es[k].abbr == "jqc-") ==> DoubleSpec(es, segs, x, es[k].abbr) == Done(true)))
    decreases |es| - from
  {
    if es[from].order == 20 && VersionPackageSpec(es, segs, from, x) == Done(1) {
      assert Matches(es[from], segs[x]);
    } else {
      PackageFound(es, segs, x, from + 1);
    }
  }

  /**
   * An accepted path: it starts with a styling segment; a segment of order
   * below 30 occurs only directly after it, never last, and spells a package;
   * every other segment spells the core library or an extension.
   */
  lemma AcceptedLayout(es: seq<Element>, parsedURL: seq<string>)
    requires ValidateSpec(es, parsedURL) == Done(true)
    ensures var segs := UrlValidate.DropLeadingEmpty(parsedURL); var orders := KeyOrders(es, segs);
      && |segs| > 0 && HasMatch(es, 10, segs[0])
      && UrlValidate.AllKnown(orders)
      && (forall m :: 1 <= m < |segs| && orders[m].value < 30 ==> m == 1 && |segs| > 2 && HasMatch(es, 20, segs[1]))
      && (forall m :: 1 <= m < |segs| && orders[m].value >= 30 ==> HasMatch(es, 30, segs[m]) || HasMatch(es, 40, segs[m]))
      && (|segs| > 2 && orders[1].value < 30 ==> PackageSpec(es, segs, 1, 0) == Done(1))
  {
    var segs := UrlValidate.DropLeadingEmpty(parsedURL);
    var orders := KeyOrders(es, segs);
    var i := if 1 < |segs| - 1 && orders[1].value < 30 then 2 else 1;
    if i == 2 {
      PackageFound(es, segs, 1, 0);
    }
    assert AfterPackages(es, segs, orders, i);
    forall m | 1 <= m < |segs| && orders[m].value < 30 ensures m == 1 && i == 2 {
      if m >= i {
        UrlValidate.StepsUpIsSorted(orders, i, m);
      }
    }
  }

  /**
   * When the package check accepts a jQuery flavour (the first order-20
   * element the package segment spells), the catalog holds the other flavour
   * and no later segment spells it.
   */
  lemma NoDoubleJQuery(es: seq<Element>, segs: seq<string>, x: nat, k: nat)
    requires x + 1 < |segs| && PackageSpec(es, segs, x, 0) == Done(1)
    requires k < |es| && es[k].abbr == "jq-" && es[k].order == 20 && Matches(es[k], segs[x])
    requires forall m :: 0 <= m < k ==> !(es[m].order == 20 && Matches(es[m], segs[x]))
    ensures var pp := FirstWithAbbr(es, "jqc-", 0);
      0 <= pp < |es| && forall j :: x < j < |segs| ==> !Matches(es[pp], segs[j])
  {
    PackagePicks(es, segs, x, 0, k);
  }

  /** The package check answers for the first order-20 element the segment spells. */
  lemma {:induction false} PackagePicks(es: seq<Element>, segs: seq<string>, x: nat, from: nat, k: nat)
    requires x < |segs| && from <= k < |es| && es[k].order == 20 && Matches(es[k], segs[x])
    requires forall m :: from <= m < k ==> !(es[m].order == 20 && Matches(es[m], segs[x]))
    ensures PackageSpec(es, segs, x, from) == VersionPackageSpec(es, segs, k, x)
    decreases k - from
  {
    if from < k {
      PackagePicks(es, segs, x, from + 1, k);
    }
  }
}
