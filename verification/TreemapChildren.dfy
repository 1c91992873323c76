/** The children a treemap node shows and their areas, functions `_`, `b`, `w` and `S` of module
    "9ca8": sorting, dropping what would be too small, and sharing out the node's area. */
module TreemapChildren {
  import opened Collections
  import opened RealSums
  import opened TreemapTiling

  datatype Order = Asc | Desc

  /** Position of the j-th smallest in a list of n in this order. */
  function At(n: nat, order: Order, j: nat): nat
    requires j < n
  {
    if order.Asc? then j else n - 1 - j
  }

  /** The list without its j smallest. */
  function Rest(children: seq<nat>, order: Order, j: nat): seq<nat>
    requires j <= |children|
  {
    if order.Asc? then children[j..] else children[..|children| - j]
  }

  /** Values in the order wanted. */
  ghost predicate Sorted(value: seq<real>, children: seq<nat>, order: Order)
    requires forall i :: 0 <= i < |children| ==> children[i] < |value|
  {
    forall j, k :: 0 <= j < k < |children| ==>
        value[children[At(|children|, order, j)]] <= value[children[At(|children|, order, k)]]
  }

  /** The part of the area a value has of a total. */
  function Share(value: real, total: real, area: real): real
    requires total != 0.0
  {
    Product(value / total, area)
  }

  /** The child's share of the area is below the threshold. */
  predicate Below(value: real, total: real, area: real, visibleMin: Option<real>) {
    visibleMin.Some? && total != 0.0 && Share(value, total, area) < visibleMin.value
  }

  lemma ShareOrder(a: real, b: real, total: real, area: real)
    requires a <= b && total > 0.0 && area >= 0.0
    ensures Share(a, total, area) <= Share(b, total, area)
  {
    assert a / total * total == a && b / total * total == b;
    ProductOrder(a / total, b / total, area);
  }

  lemma {:induction false} SumFirst(value: seq<real>, s: seq<nat>)
    requires s != [] && Within(s, |value|)
    ensures SumOver(value, s) == SumOver(value, s[1..]) + value[s[0]]
  {
    hide SumOver;
    assert s == [s[0]] + s[1..];
    SumConcat(value, [s[0]], s[1..]);
    SumSingle(value, s[0]);
  }

  lemma {:induction false} SumLast(value: seq<real>, s: seq<nat>)
    requires s != [] && Within(s, |value|)
    ensures SumOver(value, s) == SumOver(value, s[..|s| - 1]) + value[s[|s| - 1]]
  {
  }

  lemma {:induction false} RestSum(value: seq<real>, children: seq<nat>, order: Order, j: nat)
    requires Within(children, |value|) && j < |children|
    ensures Within(Rest(children, order, j), |value|) && Within(Rest(children, order, j + 1), |value|)
    ensures SumOver(value, Rest(children, order, j)) == SumOver(value, Rest(children, order, j + 1)) +
            value[children[At(|children|, order, j)]]
  {
    hide SumOver;
    var x := children[At(|children|, order, j)];
    SumSingle(value, x);
    if order.Asc? {
      SumFirst(value, children[j..]);
      assert children[j..][1..] == children[j + 1..];
    } else {
      var head := children[..|children| - j];
      SumLast(value, head);
      assert head[..|head| - 1] == children[..|children| - (j + 1)];
    }
  }

  ghost predicate NonNegative(value: seq<real>) {
    forall v :: 0 <= v < |value| ==> value[v] >= 0.0
  }

  lemma {:induction false} RestNonNegative(value: seq<real>, children: seq<nat>, order: Order, j: nat)
    requires Within(children, |value|) && j <= |children| && NonNegative(value)
    ensures Within(Rest(children, order, j), |value|) && SumOver(value, Rest(children, order, j)) >= 0.0
  {
    SumNonNegative(value, Rest(children, order, j));
  }

  /** Each of the m smallest is below the threshold, as a share of itself and all not smaller. */
  ghost predicate AllBelow(value: seq<real>, children: seq<nat>, order: Order, m: nat, area: real,
                           visibleMin: Option<real>)
    requires Within(children, |value|) && m <= |children|
  {
    forall j :: 0 <= j < m ==> BelowAt(value, children, order, j, area, visibleMin)
  }

  ghost predicate BelowAt(value: seq<real>, children: seq<nat>, order: Order, j: nat, area: real,
                          visibleMin: Option<real>)
    requires Within(children, |value|) && j < |children|
  {
    Within(Rest(children, order, j), |value|) &&
    Below(value[children[At(|children|, order, j)]], SumOver(value, Rest(children, order, j)), area, visibleMin)
  }

  /** Once one is big enough, so are all bigger ones. */
  lemma BelowOrder(value: seq<real>, children: seq<nat>, order: Order, m: nat, j: nat, total: real, area: real,
                   visibleMin: Option<real>)
    requires Within(children, |value|) && m <= j < |children| && Sorted(value, children, order) && total >= 0.0 &&
             area >= 0.0
    requires !Below(value[children[At(|children|, order, m)]], total, area, visibleMin)
    ensures !Below(value[children[At(|children|, order, j)]], total, area, visibleMin)
  {
    if total > 0.0 && m < j {
      ShareOrder(value[children[At(|children|, order, m)]], value[children[At(|children|, order, j)]], total, area);
    }
  }

  /** What has been found after the first j children, counted from the smallest. */
  ghost predicate Found(value: seq<real>, children: seq<nat>, order: Order, j: nat, dropped: nat, total: real,
                        area: real, visibleMin: Option<real>)
    requires Within(children, |value|)
  {
    && dropped <= j <= |children| && Within(Rest(children, order, dropped), |value|)
    && total == SumOver(value, Rest(children, order, dropped)) && total >= 0.0
    && AllBelow(value, children, order, dropped, area, visibleMin)
    && (dropped < j ==> !Below(value[children[At(|children|, order, dropped)]], total, area, visibleMin))
  }

  lemma FoundStep(value: seq<real>, children: seq<nat>, order: Order, j: nat, dropped: nat, total: real, area: real,
                  visibleMin: Option<real>)
    requires Within(children, |value|) && NonNegative(value) && area >= 0.0 && j < |children| &&
             Sorted(value, children, order)
    requires Found(value, children, order, j, dropped, total, area, visibleMin)
    ensures var c := value[children[At(|children|, order, j)]];
            if Below(c, total, area, visibleMin) then
              dropped == j && Found(value, children, order, j + 1, j + 1, total - c, area, visibleMin)
            else
              Found(value, children, order, j + 1, dropped, total, area, visibleMin)
  {
    hide SumOver, Below, Sorted, At, Rest;
    if dropped < j {
      BelowOrder(value, children, order, dropped, j, total, area, visibleMin);
    } else {
      RestSum(value, children, order, j);
      RestNonNegative(value, children, order, j + 1);
    }
  }

  lemma {:induction false} FoundStart(value: seq<real>, children: seq<nat>, order: Order, area: real,
                                      visibleMin: Option<real>)
    requires Within(children, |value|) && NonNegative(value)
    ensures Found(value, children, order, 0, 0, SumOver(value, children), area, visibleMin)
  {
    hide SumOver;
    RestNonNegative(value, children, order, 0);
    assert Rest(children, order, 0) == children;
  }

  lemma FoundEnd(value: seq<real>, children: seq<nat>, order: Order, dropped: nat, total: real, area: real,
                 visibleMin: Option<real>)
    requires Within(children, |value|) && area >= 0.0 && Sorted(value, children, order)
    requires Found(value, children, order, |children|, dropped, total, area, visibleMin)
    ensures var kept := Rest(children, order, dropped);
            forall i :: 0 <= i < |kept| ==> kept[i] < |value| && !Below(value[kept[i]], total, area, visibleMin)
  {
    hide SumOver, Below, Sorted;
    var kept, n := Rest(children, order, dropped), |children|;
    forall i | 0 <= i < |kept|
      ensures kept[i] < |value| && !Below(value[kept[i]], total, area, visibleMin)
    {
      BelowOrder(value, children, order, dropped, if order.Asc? then dropped + i else n - 1 - i, total, area,
                 visibleMin);
    }
  }

  lemma {:induction false} RestHolds(value: seq<real>, children: seq<nat>, order: Order, d: nat, j: nat)
    requires Within(children, |value|) && NonNegative(value) && d <= j < |children|
    ensures Within(Rest(children, order, d), |value|) &&
            value[children[At(|children|, order, j)]] <= SumOver(value, Rest(children, order, d))
    decreases j - d
  {
    hide SumOver;
    RestSum(value, children, order, d);
    if d < j {
      RestHolds(value, children, order, d + 1, j);
    } else {
      RestNonNegative(value, children, order, d + 1);
    }
  }

  lemma {:induction false} SumZero(value: seq<real>, indices: seq<nat>)
    requires Within(indices, |value|) && forall i :: 0 <= i < |indices| ==> value[indices[i]] == 0.0
    ensures SumOver(value, indices) == 0.0
  {
    if indices != [] {
      SumZero(value, indices[..|indices| - 1]);
    }
  }

  lemma {:induction false} LargestPositive(value: seq<real>, children: seq<nat>, order: Order)
    requires Within(children, |value|) && NonNegative(value) && Sorted(value, children, order) &&
             SumOver(value, children) > 0.0
    ensures children != [] && value[children[At(|children|, order, |children| - 1)]] > 0.0
  {
    if forall i :: 0 <= i < |children| ==> value[children[i]] == 0.0 {
      SumZero(value, children);
    }
    hide SumOver;
    var i :| 0 <= i < |children| && value[children[i]] != 0.0;
    var j := At(|children|, order, i);
    assert At(|children|, order, j) == i;
  }

  /** The largest child's share is at most the whole, and it is the whole if it is alone. */
  lemma LargestShare(value: real, total: real, area: real)
    requires 0.0 < value <= total && area >= 0.0
    ensures Share(value, total, area) <= area && (value == total ==> Share(value, total, area) == area)
  {
    ShareOrder(value, total, total, area);
    assert total / total == 1.0;
  }

  /** When the sum is above 0, everything is dropped just if the whole area is below the threshold. */
  lemma {:induction false} DroppedAll(value: seq<real>, children: seq<nat>, order: Order, dropped: nat, total: real,
                                      area: real, visibleMin: Option<real>)
    requires Within(children, |value|) && NonNegative(value) && area >= 0.0 && Sorted(value, children, order)
    requires Found(value, children, order, |children|, dropped, total, area, visibleMin) &&
             SumOver(value, children) > 0.0
    ensures total == 0.0 <==> visibleMin.Some? && area < visibleMin.value
    ensures Rest(children, order, dropped) == [] <==> total == 0.0
  {
    LargestPositive(value, children, order);
    var n := |children|;
    var largest := value[children[At(n, order, n - 1)]];
    if dropped < n {
      RestHolds(value, children, order, dropped, n - 1);
      BelowOrder(value, children, order, dropped, n - 1, total, area, visibleMin);
      LargestShare(largest, total, area);
    } else {
      assert BelowAt(value, children, order, n - 1, area, visibleMin);
      RestSum(value, children, order, n - 1);
      assert SumOver(value, Rest(children, order, n)) == 0.0;
      LargestShare(largest, largest, area);
    }
  }

  /** The dropped children are first in ascending and last in descending order, and each gets less than the least
      visible area when it shares the area with all that come behind, or before, it. */
  ghost predicate DroppedRightly(value: seq<real>, children: seq<nat>, order: Order, dropped: nat, area: real,
                                 visibleMin: Option<real>)
    requires Within(children, |value|) && dropped <= |children|
  {
    match order
    case Asc => forall i :: 0 <= i < dropped ==> TooSmall(value, children[i], children[i..], area, visibleMin)
    case Desc => forall i :: |children| - dropped <= i < |children| ==>
      TooSmall(value, children[i], children[..i + 1], area, visibleMin)
  }

  ghost predicate TooSmall(value: seq<real>, c: nat, among: seq<nat>, area: real, visibleMin: Option<real>) {
    && c < |value| && Within(among, |value|) && SumOver(value, among) > 0.0
    && visibleMin.Some? && Product(value[c], area) < Product(visibleMin.value, SumOver(value, among))
  }

  /** The quotients of the test, multiplied out. */
  lemma BelowMeans(v: real, total: real, area: real, visibleMin: Option<real>)
    requires total > 0.0
    ensures Below(v, total, area, visibleMin) <==>
            visibleMin.Some? && Product(v, area) < Product(visibleMin.value, total)
  {
    if visibleMin.Some? {
      var q := v / total;
      assert q * total == v;
      assert q * area * total == v * area;
      if Share(v, total, area) < visibleMin.value {
        LessTimes(Share(v, total, area), visibleMin.value, total);
      } else {
        ProductOrder(visibleMin.value, Share(v, total, area), total);
      }
    }
  }

  lemma LessTimes(a: real, b: real, w: real)
    requires a < b && w > 0.0
    ensures Product(a, w) < Product(b, w)
  {
  }

  lemma {:induction false} DroppedAreSmall(value: seq<real>, children: seq<nat>, order: Order, dropped: nat,
                                           area: real, visibleMin: Option<real>)
    requires Within(children, |value|) && NonNegative(value) && dropped <= |children|
    requires AllBelow(value, children, order, dropped, area, visibleMin)
    ensures DroppedRightly(value, children, order, dropped, area, visibleMin)
  {
    hide SumOver, Product, Below;
    var n := |children|;
    hide TooSmall, BelowAt;
    forall i | 0 <= i < n && (if order.Asc? then i < dropped else n - dropped <= i)
      ensures TooSmall(value, children[i], if order.Asc? then children[i..] else children[..i + 1], area, visibleMin)
    {
      DroppedIsSmall(value, children, order, if order.Asc? then i else n - 1 - i, area, visibleMin);
    }
  }

  lemma {:induction false} DroppedIsSmall(value: seq<real>, children: seq<nat>, order: Order, j: nat, area: real,
                                          visibleMin: Option<real>)
    requires Within(children, |value|) && NonNegative(value) && j < |children|
    requires BelowAt(value, children, order, j, area, visibleMin)
    ensures TooSmall(value, children[At(|children|, order, j)], Rest(children, order, j), area, visibleMin)
  {
    hide SumOver, Product, Below;
    var c, total := children[At(|children|, order, j)], SumOver(value, Rest(children, order, j));
    SumNonNegative(value, Rest(children, order, j));
    BelowSome(value[c], total, area, visibleMin);
    BelowMeans(value[c], total, area, visibleMin);
  }

  lemma BelowSome(v: real, total: real, area: real, visibleMin: Option<real>)
    requires Below(v, total, area, visibleMin)
    ensures total != 0.0
  {
  }

  lemma {:induction false} KeptAreLarge(value: seq<real>, kept: seq<nat>, total: real, area: real,
                                        visibleMin: Option<real>)
    requires total > 0.0 && visibleMin.Some? && forall i :: 0 <= i < |kept| ==>
               kept[i] < |value| && !Below(value[kept[i]], total, area, visibleMin)
    ensures forall i :: 0 <= i < |kept| ==>
              kept[i] < |value| && Product(value[kept[i]], area) >= Product(visibleMin.value, total)
  {
    hide Below, Product;
    forall i | 0 <= i < |kept|
      ensures Product(value[kept[i]], area) >= Product(visibleMin.value, total)
    {
      BelowMeans(value[kept[i]], total, area, visibleMin);
    }
  }

  /** Drops the children below the threshold, smallest first, each against the total of those not yet
      dropped. They form one end of the list, so cutting that end off drops just them. */
  method FilterByThreshold(value: seq<real>, children: seq<nat>, order: Option<Order>, visibleMin: Option<real>,
                           area: real, sum: real)
    returns (kept: seq<nat>, total: real, ghost dropped: nat)
    requires Within(children, |value|) && NonNegative(value) && area >= 0.0 && sum == SumOver(value, children)
    requires order.Some? ==> Sorted(value, children, order.value)
    ensures order.None? ==> kept == children && dropped == 0
    ensures order.Some? ==> dropped <= |children| && kept == Rest(children, order.value, dropped)
    ensures order == Some(Asc) ==> kept == children[dropped..]
    ensures order == Some(Desc) ==> kept == children[..|children| - dropped]
    ensures order.Some? ==> AllBelow(value, children, order.value, dropped, area, visibleMin)
    ensures order.Some? ==> DroppedRightly(value, children, order.value, dropped, area, visibleMin)
    ensures order.Some? && visibleMin.Some? && total > 0.0 ==>
              forall i :: 0 <= i < |kept| ==>
                kept[i] < |value| && Product(value[kept[i]], area) >= Product(visibleMin.value, total)
    ensures order.Some? ==> forall i :: 0 <= i < |kept| ==>
              kept[i] < |value| && !Below(value[kept[i]], total, area, visibleMin)
    ensures Within(kept, |value|) && total == SumOver(value, kept)
    ensures order.Some? && sum > 0.0 ==>
              (total == 0.0 <==> visibleMin.Some? && area < visibleMin.value) && (kept == [] <==> total == 0.0)
  {
    hide SumOver, Below, Sorted, Found;
    if order.None? {
      return children, sum, 0;
    }
    var n, asc := |children|, order.value.Asc?;
    var deletePoint := n;
    total, dropped := sum, 0;
    FoundStart(value, children, order.value, area, visibleMin);
    for l := n downto 0
      invariant dropped == n - deletePoint <= n &&
                Found(value, children, order.value, n - l, dropped, total, area, visibleMin)
    {
      FoundStep(value, children, order.value, n - l - 1, dropped, total, area, visibleMin);
      var c := value[children[if asc then n - l - 1 else l]];
      if Below(c, total, area, visibleMin) {
        deletePoint := l;
        total := total - c;
        dropped := n - l;
      }
    }
    kept := if asc then children[n - deletePoint..] else children[..deletePoint];
    FoundEnd(value, children, order.value, dropped, total, area, visibleMin);
    FoundMeans(value, children, order.value, dropped, total, area, visibleMin);
    DroppedAreSmall(value, children, order.value, dropped, area, visibleMin);
    if visibleMin.Some? && total > 0.0 {
      KeptAreLarge(value, kept, total, area, visibleMin);
    }
    if sum > 0.0 {
      DroppedAll(value, children, order.value, dropped, total, area, visibleMin);
    }
  }

  lemma {:induction false} FoundMeans(value: seq<real>, children: seq<nat>, order: Order, dropped: nat, total: real,
                                      area: real, visibleMin: Option<real>)
    requires Within(children, |value|) && Found(value, children, order, |children|, dropped, total, area, visibleMin)
    ensures Within(Rest(children, order, dropped), |value|) && total == SumOver(value, Rest(children, order, dropped))
    ensures AllBelow(value, children, order, dropped, area, visibleMin)
  {
  }

  // ---------------------------------------------------------------------------------

  lemma {:induction false} ReversedMultiset(s: seq<nat>)
    ensures multiset(Reversed(s)) == multiset(s)
  {
    if s == [] {
      assert Reversed(s) == [];
    } else {
      var init, last := s[..|s| - 1], s[|s| - 1];
      ReversedMultiset(init);
      assert Reversed(s) == [last] + Reversed(init);
      assert s == init + [last];
    }
  }

  function All(n: nat): (r: seq<nat>)
    ensures |r| == n && forall i :: 0 <= i < n ==> r[i] == i
  {
    seq(n, i requires 0 <= i < n => i)
  }

  /** Equal values: by index, upwards or downwards as the values are. */
  ghost predicate TiesByIndex(value: seq<real>, children: seq<nat>, order: Order)
    requires Within(children, |value|)
  {
    forall j, k ::
      0 <= j < k < |children| &&
      value[children[At(|children|, order, j)]] == value[children[At(|children|, order, k)]] ==>
        children[At(|children|, order, j)] < children[At(|children|, order, k)]
  }

  lemma SortedInOrder(value: seq<real>, children: seq<nat>)
    requires Within(children, |value|) && SortedBy(value, children) && TiesAscend(value, children)
    ensures Sorted(value, children, Asc) && TiesByIndex(value, children, Asc)
    ensures Within(Reversed(children), |value|) && Sorted(value, Reversed(children), Desc) &&
            TiesByIndex(value, Reversed(children), Desc)
  {
  }

  /** By value, upwards or downwards, and equal ones by index the same way. */
  ghost predicate Ordered(value: seq<real>, children: seq<nat>, order: Order)
    requires Within(children, |value|)
  {
    match order
    case Asc => forall j, k :: 0 <= j < k < |children| ==>
      var a, b := children[j], children[k];
      value[a] < value[b] || (value[a] == value[b] && a < b)
    case Desc => forall j, k :: 0 <= j < k < |children| ==>
      var a, b := children[j], children[k];
      value[a] > value[b] || (value[a] == value[b] && a > b)
  }

  lemma OrderedBy(value: seq<real>, children: seq<nat>, order: Order)
    requires Within(children, |value|) && Sorted(value, children, order) && TiesByIndex(value, children, order)
    ensures Ordered(value, children, order)
  {
    var n := |children|;
    forall j, k | 0 <= j < k < n
      ensures order.Asc? ==> value[children[j]] <= value[children[k]]
      ensures order.Asc? && value[children[j]] == value[children[k]] ==> children[j] < children[k]
      ensures order.Desc? ==> value[children[j]] >= value[children[k]]
      ensures order.Desc? && value[children[j]] == value[children[k]] ==> children[j] > children[k]
    {
      if order.Asc? {
        assert At(n, order, j) == j && At(n, order, k) == k;
      } else {
        assert At(n, order, n - 1 - k) == k && At(n, order, n - 1 - j) == j;
      }
    }
  }

  lemma RestOrdered(value: seq<real>, children: seq<nat>, order: Order, d: nat)
    requires Within(children, |value|) && d <= |children| && Ordered(value, children, order)
    ensures Within(Rest(children, order, d), |value|) && Ordered(value, Rest(children, order, d), order)
  {
  }

  /** Sorts all children by value, equal ones by index. */
  method SortChildren(value: seq<real>, order: Option<Order>) returns (children: seq<nat>)
    ensures Within(children, |value|) && multiset(children) == multiset(All(|value|))
    ensures order.None? ==> children == All(|value|)
    ensures order.Some? ==> Sorted(value, children, order.value) && Ordered(value, children, order.value)
  {
    hide SortedBy, Sorted, TiesByIndex, TiesAscend, Ordered;
    children := All(|value|);
    if order.Some? {
      children := SortBy(value, children);
      SortedInOrder(value, children);
      if order.value.Desc? {
        ReversedMultiset(children);
        children := Reversed(children);
      }
      OrderedBy(value, children, order.value);
    }
  }

  /** What the children of the list get of the area. */
  function Shares(value: seq<real>, kept: seq<nat>, total: real, area: real): (areas: seq<real>)
    requires total != 0.0 && forall i :: 0 <= i < |kept| ==> kept[i] < |value|
    ensures |areas| == |kept| && forall i :: 0 <= i < |kept| ==> areas[i] == Share(value[kept[i]], total, area)
  {
    seq(|kept|, i requires 0 <= i < |kept| => Share(value[kept[i]], total, area))
  }

  lemma {:induction false} SharesSum(value: seq<real>, kept: seq<nat>, total: real, area: real)
    requires total > 0.0 && Within(kept, |value|)
    ensures Product(Total(Shares(value, kept, total, area)), total) == Product(SumOver(value, kept), area)
  {
    hide Product, Share;
    if kept == [] {
      ProductPlus(total, 0.0, 0.0);
      ProductPlus(area, 0.0, 0.0);
    } else {
      var init, last := kept[..|kept| - 1], kept[|kept| - 1];
      SharesSum(value, init, total, area);
      var shares := Shares(value, kept, total, area);
      assert shares[..|shares| - 1] == Shares(value, init, total, area);
      ProductPlus(total, Total(shares[..|shares| - 1]), shares[|shares| - 1]);
      ProductPlus(area, SumOver(value, init), value[last]);
      ShareTimes(value[last], total, area);
    }
  }

  lemma ShareTimes(value: real, total: real, area: real)
    requires total > 0.0
    ensures Product(Share(value, total, area), total) == Product(value, area)
  {
    assert value / total * total == value;
    assert value / total * area * total == value / total * total * area;
  }

  lemma ShareZero(total: real, area: real)
    requires total > 0.0
    ensures Share(0.0, total, area) == 0.0
  {
    assert 0.0 / total == 0.0;
  }

  lemma SameFactor(a: real, b: real, total: real)
    requires total > 0.0 && Product(a, total) == Product(b, total)
    ensures a == b
  {
    assert (a - b) * total == 0.0;
  }

  lemma {:induction false} WholeShared(value: seq<real>, kept: seq<nat>, total: real, area: real)
    requires total > 0.0 && Within(kept, |value|) && NonNegative(value) && total == SumOver(value, kept) && area >= 0.0
    ensures Total(Shares(value, kept, total, area)) == area
    ensures forall i :: 0 <= i < |kept| ==>
              Shares(value, kept, total, area)[i] >= 0.0 &&
                Product(Shares(value, kept, total, area)[i], total) == Product(value[kept[i]], area)
  {
    SharesSum(value, kept, total, area);
    ProductSwapped(total, area);
    hide SumOver, Total, Product, Share;
    SameFactor(Total(Shares(value, kept, total, area)), area, total);
    forall i | 0 <= i < |kept|
      ensures Shares(value, kept, total, area)[i] >= 0.0 &&
              Product(Shares(value, kept, total, area)[i], total) == Product(value[kept[i]], area)
    {
      ShareOrder(0.0, value[kept[i]], total, area);
      ShareZero(total, area);
      ShareTimes(value[kept[i]], total, area);
    }
  }

  lemma ProductSwapped(a: real, b: real)
    ensures Product(a, b) == Product(b, a)
  {
  }

  /** The children a node shows, and their areas. */
  method InitChildren(value: seq<real>, order: Option<Order>, visibleMin: Option<real>, area: real)
    returns (kept: seq<nat>, areas: seq<real>)
    requires NonNegative(value) && area >= 0.0
    ensures Within(kept, |value|) && |areas| == |kept|
    ensures kept != [] ==> Total(areas) == area
    ensures forall i :: 0 <= i < |kept| ==>
              areas[i] >= 0.0 && Product(areas[i], SumOver(value, kept)) == Product(value[kept[i]], area)
    ensures order.Some? ==> Ordered(value, kept, order.value)
    ensures order.Some? && visibleMin.Some? ==> forall i :: 0 <= i < |areas| ==> areas[i] >= visibleMin.value
    ensures kept == [] <==>
            SumOver(value, All(|value|)) == 0.0 || (order.Some? && visibleMin.Some? && area < visibleMin.value)
    ensures order.None? && kept != [] ==> kept == All(|value|)
  {
    hide SumOver, Sorted, Below, Product, Total, Rest, AllBelow, Ordered, DroppedRightly;
    var children := SortChildren(value, order);
    var sum := SumOver(value, children);
    SumPermuted(value, children, All(|value|));
    SumNone(value, order);
    if sum == 0.0 {
      return [], [];
    }
    SumNonNegative(value, children);
    var total: real;
    ghost var dropped;
    kept, total, dropped := FilterByThreshold(value, children, order, visibleMin, area, sum);
    if total == 0.0 {
      return [], [];
    }
    SumNonNegative(value, kept);
    WholeShared(value, kept, total, area);
    if order.Some? {
      RestOrdered(value, children, order.value, dropped);
      NoneBelow(value, kept, total, area, visibleMin);
    }
    areas := Shares(value, kept, total, area);
  }

  lemma {:induction false} SumNone(value: seq<real>, order: Option<Order>)
    ensures SumOver(value, []) == 0.0
    ensures order.Some? ==> Ordered(value, [], order.value)
  {
  }

  lemma NoneBelow(value: seq<real>, kept: seq<nat>, total: real, area: real, visibleMin: Option<real>)
    requires total > 0.0 && forall i :: 0 <= i < |kept| ==>
               kept[i] < |value| && !Below(value[kept[i]], total, area, visibleMin)
    ensures visibleMin.Some? ==> forall i :: 0 <= i < |kept| ==> Shares(value, kept, total, area)[i] >= visibleMin.value
  {
  }
}
