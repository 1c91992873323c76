/** The child patch of the SVG painter, module "dc20": the children of the root are edited
    along the diff of the old and the new visible list. */
module SvgPatch {
  import opened Collections
  import opened EditScript
  import opened GreedyScript
  import opened ArrayDiff

  /** A DOM node; only its identity matters. */
  class Element {
    constructor () {}
  }

  /** A displayable owns a shape element, a text element, both, or (an empty text, an image
      without source) none. */
  class Displayable {
    var invisible: bool
    var svgEl: Option<Element>
    var textSvgEl: Option<Element>

    constructor () {
      invisible, svgEl, textSvgEl := false, None, None;
    }

    /** The elements in the order in which they should appear. */
    ghost function Elements(): seq<Element>
      reads this
    {
      OptionToSeq(svgEl) + OptionToSeq(textSvgEl)
    }
  }

  /** A visible displayable as the second pass sees it: its elements, and whether the diff
      keeps or adds it. */
  datatype Item = Item(elements: seq<Element>, kept: bool)

  /** The child list the painter is meant to produce. */
  ghost function Flat(items: seq<Item>): seq<Element> {
    if items == [] then [] else Flat(items[..|items| - 1]) + items[|items| - 1].elements
  }

  /** What the second pass has laid out: elements up to and including the insertion anchor,
      and the text element that a kept displayable has left behind the anchor. */
  datatype Placed = Placed(upToAnchor: seq<Element>, behind: seq<Element>)

  ghost function Place(items: seq<Item>): Placed {
    if items == [] then Placed([], [])
    else
      Placing(Place(items[..|items| - 1]), items[|items| - 1])
  }

  ghost function Placing(p: Placed, item: Item): Placed {
    if !item.kept then p.(upToAnchor := p.upToAnchor + item.elements)
    else if item.elements == [] then p
    else Placed(p.upToAnchor + p.behind + item.elements[..1], item.elements[1..])
  }

  /** The last displayable with an element is a kept one with both a shape and a text. */
  ghost predicate TextPending(items: seq<Item>) {
    items != [] &&
    var last := items[|items| - 1];
    if last.elements == [] then TextPending(items[..|items| - 1])
    else last.kept && |last.elements| == 2
  }

  /** No displayable with an element is added right behind a kept one that has two. */
  ghost predicate Orderly(items: seq<Item>) {
    forall k :: 0 <= k < |items| && !items[k].kept && items[k].elements != [] ==> !TextPending(items[..k])
  }

  lemma ConcatNoDuplicates<T>(a: seq<T>, b: seq<T>)
    requires NoDuplicates(a) && NoDuplicates(b) && forall x :: x in b ==> x !in a
    ensures NoDuplicates(a + b)
  {
    forall i, j | 0 <= i < j < |a + b|
      ensures (a + b)[i] != (a + b)[j]
    {
      if i < |a| <= j {
        assert b[j - |a|] in b;
      }
    }
  }

  ghost predicate AtMostTwo(items: seq<Item>) {
    forall k :: 0 <= k < |items| ==> |items[k].elements| <= 2
  }

  lemma {:induction false} PlaceBehind(items: seq<Item>)
    requires AtMostTwo(items)
    ensures |Place(items).behind| <= 1
    ensures TextPending(items) ==> Place(items).behind != []
    ensures Orderly(items) && Place(items).behind != [] ==> TextPending(items)
    ensures |Place(items).upToAnchor| + |Place(items).behind| == |Flat(items)|
    ensures forall e :: e in Place(items).behind ==> e in Flat(items)
  {
    if items != [] {
      var init, item := items[..|items| - 1], items[|items| - 1];
      assert items == init + [item];
      OrderlySnoc(init, item);
      PlaceBehind(init);
    }
  }

  lemma {:induction false} OrderlySnoc(init: seq<Item>, item: Item)
    ensures Orderly(init + [item]) <==>
            Orderly(init) && (!item.kept && item.elements != [] ==> !TextPending(init))
  {
    var items := init + [item];
    assert items[..|init|] == init;
    assert forall k :: 0 <= k < |init| ==> items[k] == init[k] && items[..k] == init[..k];
    if Orderly(items) {
      assert items[|init|] == item;
      forall k | 0 <= k < |init| && !init[k].kept && init[k].elements != []
        ensures !TextPending(init[..k])
      {
        assert items[k] == init[k];
      }
    }
  }

  /** Appending the same elements to two lists of equal length keeps them equal or different. */
  lemma SameTail<T>(a: seq<T>, b: seq<T>, tail: seq<T>)
    requires |a| == |b|
    ensures a + tail == b + tail <==> a == b
  {
    assert (a + tail)[..|a|] == a && (b + tail)[..|b|] == b;
  }

  lemma {:induction false} PlaceSnoc(init: seq<Item>, item: Item)
    ensures var p, items := Place(init), init + [item];
            && Flat(items) == Flat(init) + item.elements
            && Place(items) == Placing(p, item)
  {
    assert (init + [item])[..|init|] == init;
  }

  lemma {:induction false} FlatHas(items: seq<Item>, j: nat)
    requires j < |items|
    ensures forall e :: e in items[j].elements ==> e in Flat(items)
  {
    if j < |items| - 1 {
      FlatHas(items[..|items| - 1], j);
    }
  }

  lemma PrefixNoDuplicates<T>(a: seq<T>, b: seq<T>)
    requires NoDuplicates(a + b)
    ensures NoDuplicates(a)
  {
    assert forall i :: 0 <= i < |a| ==> (a + b)[i] == a[i];
  }

  /** Nothing is displaced by a kept item, or without a text behind the anchor. */
  lemma LaidBehind(p: Placed, item: Item)
    requires item.kept || p.behind == []
    ensures var q := Placing(p, item); q.upToAnchor + q.behind == (p.upToAnchor + p.behind) + item.elements
  {
    assert item.elements != [] ==> item.elements == item.elements[..1] + item.elements[1..];
  }

  /** The second pass produces the wanted child list exactly when nothing is added right
      behind a kept displayable with two elements. */
  lemma {:induction false} PlacedRight(items: seq<Item>)
    requires AtMostTwo(items) && NoDuplicates(Flat(items))
    ensures Place(items).upToAnchor + Place(items).behind == Flat(items) <==> Orderly(items)
  {
    if items == [] {
    } else {
      hide Place, Flat, Orderly, TextPending, NoDuplicates;
      var init, item := items[..|items| - 1], items[|items| - 1];
      var p := Place(init);
      assert items == init + [item];
      PlaceSnoc(init, item);
      PrefixNoDuplicates(Flat(init), item.elements);
      PlacedRight(init);
      PlaceBehind(init);
      OrderlySnoc(init, item);
      SameTail(p.upToAnchor + p.behind, Flat(init), item.elements);
      if item.kept || p.behind == [] {
        LaidBehind(p, item);
      } else if item.elements == [] {
        assert Flat(items) == Flat(init) && Place(items) == p;
      } else {
        PendingTextMisplaced(init, item);
      }
    }
  }

  /** If every kept displayable owns at most one element, all is laid out right. */
  lemma {:induction false} SingleElementsOrderly(items: seq<Item>)
    requires forall k :: 0 <= k < |items| && items[k].kept ==> |items[k].elements| <= 1
    ensures Orderly(items)
  {
    forall k | 0 <= k <= |items|
      ensures !TextPending(items[..k])
    {
      NeverPending(items[..k]);
    }
  }

  lemma {:induction false} NeverPending(items: seq<Item>)
    requires forall k :: 0 <= k < |items| && items[k].kept ==> |items[k].elements| <= 1
    ensures !TextPending(items)
  {
    if items != [] {
      NeverPending(items[..|items| - 1]);
    }
  }

  /** The failing case: a displayable added behind a kept one with shape and text lands between
      its shape and its text. */
  lemma AddedBehindShapeAndText(shape: Element, text: Element, added: Element)
    requires shape != text && text != added && shape != added
    ensures var items := [Item([shape, text], true), Item([added], false)];
            && !Orderly(items) && Flat(items) == [shape, text, added]
            && Place(items).upToAnchor + Place(items).behind == [shape, added, text]
  {
    var kept, new_ := Item([shape, text], true), Item([added], false);
    PlaceSnoc([], kept);
    PlaceSnoc([kept], new_);
    assert [] + [kept] == [kept] && [kept] + [new_] == [kept, new_];
    OrderlySnoc([kept], new_);
  }

  /** A pending text element ends up behind the elements that are added to its displayable. */
  lemma {:induction false} PendingTextMisplaced(init: seq<Item>, item: Item)
    requires AtMostTwo(init) && NoDuplicates(Flat(init + [item]))
    requires Place(init).behind != [] && !item.kept && item.elements != []
    ensures var p := Place(init + [item]); p.upToAnchor + p.behind != Flat(init + [item])
  {
    var items := init + [item];
    assert items[..|init|] == init;
    PlaceBehind(init);
    var all, wanted, text := Place(items).upToAnchor + Place(items).behind, Flat(items), Place(init).behind[0];
    assert all[|all| - 1] == text && text in Flat(init);
    var i :| 0 <= i < |Flat(init)| && Flat(init)[i] == text;
    assert wanted[i] == text && wanted[|wanted| - 1] == item.elements[|item.elements| - 1];
  }

  // ---------------------------------------------------------------------------------
  // The old child list, the diff, and what each pass has to do

  function Join<T>(parts: seq<seq<T>>): seq<T> {
    if parts == [] then [] else Join(parts[..|parts| - 1]) + parts[|parts| - 1]
  }

  lemma {:induction false} JoinSnoc<T>(parts: seq<seq<T>>, part: seq<T>)
    ensures Join(parts + [part]) == Join(parts) + part
  {
    assert (parts + [part])[..|parts|] == parts;
  }

  ghost predicate SameMembers(a: seq<Element>, b: seq<Element>) {
    (forall e :: e in a ==> e in b) && forall e :: e in b ==> e in a
  }

  lemma {:induction false} JoinConcat<T>(parts: seq<seq<T>>, more: seq<seq<T>>)
    ensures Join(parts + more) == Join(parts) + Join(more)
  {
    hide Join;
    if more == [] {
      JoinNone<T>();
      assert parts + more == parts;
    } else {
      var init, last := more[..|more| - 1], more[|more| - 1];
      JoinConcat(parts, init);
      JoinSnoc(init, last);
      JoinSnoc(parts + init, last);
      assert more == init + [last] && parts + more == parts + init + [last];
    }
  }

  lemma JoinNone<T>()
    ensures Join<T>([]) == []
  {
  }

  lemma {:induction false} JoinCons<T>(part: seq<T>, parts: seq<seq<T>>)
    ensures Join([part] + parts) == part + Join(parts)
  {
    hide Join;
    if parts == [] {
      assert [part] + parts == [] + [part];
      JoinNone<T>();
      JoinSnoc([], part);
    } else {
      var init, last := parts[..|parts| - 1], parts[|parts| - 1];
      JoinCons(part, init);
      JoinSnoc(init, last);
      JoinSnoc([part] + init, last);
      assert parts == init + [last] && [part] + parts == ([part] + init) + [last];
    }
  }

  lemma {:induction false} AheadOneMore<T>(parts: seq<seq<T>>, n: nat, part: seq<T>)
    requires n <= |parts|
    ensures Join((parts + [part])[n..]) == Join(parts[n..]) + part
  {
    assert (parts + [part])[n..] == parts[n..] + [part];
    JoinSnoc(parts[n..], part);
  }

  /** The list without the given elements. */
  ghost function Without(s: seq<Element>, gone: set<Element>): seq<Element> {
    if s == [] then []
    else Without(s[..|s| - 1], gone) + if s[|s| - 1] in gone then [] else [s[|s| - 1]]
  }

  lemma {:induction false} WithoutConcat(a: seq<Element>, b: seq<Element>, gone: set<Element>)
    ensures Without(a + b, gone) == Without(a, gone) + Without(b, gone)
  {
    if b == [] {
      assert a + b == a;
    } else {
      WithoutConcat(a, b[..|b| - 1], gone);
      assert (a + b)[..|a + b| - 1] == a + b[..|b| - 1];
    }
  }

  lemma {:induction false} WithoutSingle(e: Element, gone: set<Element>)
    ensures Without([e], gone) == if e in gone then [] else [e]
    ensures Without([], gone) == []
  {
    assert [e][..0] == [];
  }

  lemma {:induction false} WithoutTwice(s: seq<Element>, gone: set<Element>, more: set<Element>)
    ensures Without(Without(s, gone), more) == Without(s, gone + more)
  {
    if s != [] {
      WithoutTwice(s[..|s| - 1], gone, more);
      var last := s[|s| - 1];
      WithoutConcat(Without(s[..|s| - 1], gone), if last in gone then [] else [last], more);
      WithoutSingle(last, more);
    }
  }

  lemma {:induction false} WithoutMembers(s: seq<Element>, gone: set<Element>)
    ensures forall e :: e in Without(s, gone) ==> e in s && e !in gone
    ensures forall e :: e in s && e !in gone ==> e in Without(s, gone)
    ensures NoDuplicates(s) ==> NoDuplicates(Without(s, gone))
  {
    if s != [] {
      var init, last := s[..|s| - 1], s[|s| - 1];
      WithoutMembers(init, gone);
      assert forall e :: e in s <==> e in init || e == last;
    }
  }

  lemma {:induction false} SameWithout(a: seq<Element>, b: seq<Element>, gone: set<Element>)
    requires SameMembers(a, b)
    ensures SameMembers(Without(a, gone), Without(b, gone))
  {
    hide Without;
    WithoutMembers(a, gone);
    WithoutMembers(b, gone);
  }

  lemma {:induction false} WithoutStrangers(s: seq<Element>, gone: set<Element>)
    requires forall e :: e in s ==> e !in gone
    ensures Without(s, gone) == s
  {
    if s != [] {
      WithoutStrangers(s[..|s| - 1], gone);
    }
  }

  lemma {:induction false} WithoutAll(s: seq<Element>, gone: set<Element>)
    requires forall e :: e in s ==> e in gone
    ensures Without(s, gone) == []
  {
    if s != [] {
      WithoutAll(s[..|s| - 1], gone);
    }
  }

  /** The filtered list grows by a part that loses nothing. */
  lemma {:induction false} WithoutKeepsPart(s: seq<Element>, part: seq<Element>, gone: set<Element>)
    requires forall e :: e in part ==> e !in gone
    ensures Without(s + part, gone) == Without(s, gone) + part
  {
    WithoutConcat(s, part, gone);
    WithoutStrangers(part, gone);
  }

  /** The filtered list does not change when a part and the elements to lose grow together. */
  lemma {:induction false} WithoutDropsPart(s: seq<Element>, part: seq<Element>, gone: set<Element>, mine: set<Element>)
    requires forall e :: e in part ==> e in mine
    requires forall e :: e in s ==> e !in mine
    ensures Without(s + part, gone + mine) == Without(s, gone)
  {
    hide Without;
    WithoutConcat(s, part, gone + mine);
    WithoutAll(part, gone + mine);
    WithoutMembers(s, gone);
    WithoutStrangers(Without(s, gone), mine);
    WithoutTwice(s, gone, mine);
  }

  /** The elements of the list that are also in the other one. */
  ghost function OnlyIn(s: seq<Element>, who: seq<Element>): seq<Element> {
    if s == [] then []
    else OnlyIn(s[..|s| - 1], who) + if s[|s| - 1] in who then [s[|s| - 1]] else []
  }

  lemma {:induction false} OnlyInConcat(a: seq<Element>, b: seq<Element>, who: seq<Element>)
    ensures OnlyIn(a + b, who) == OnlyIn(a, who) + OnlyIn(b, who)
  {
    if b == [] {
      assert a + b == a;
    } else {
      OnlyInConcat(a, b[..|b| - 1], who);
      assert (a + b)[..|a + b| - 1] == a + b[..|b| - 1];
    }
  }

  lemma {:induction false} OnlyInAll(s: seq<Element>, who: seq<Element>)
    requires forall e :: e in s ==> e in who
    ensures OnlyIn(s, who) == s
  {
    if s != [] {
      var init, last := s[..|s| - 1], s[|s| - 1];
      assert last in s && s == init + [last];
      OnlyInAll(init, who);
    }
  }

  lemma {:induction false} OnlyInNone(s: seq<Element>, who: seq<Element>)
    requires forall e :: e in s ==> e !in who
    ensures OnlyIn(s, who) == []
  {
    if s != [] {
      OnlyInNone(s[..|s| - 1], who);
    }
  }

  lemma {:induction false} OnlyInSame(s: seq<Element>, who: seq<Element>, who': seq<Element>)
    requires forall e :: e in who <==> e in who'
    ensures OnlyIn(s, who) == OnlyIn(s, who')
  {
    if s != [] {
      OnlyInSame(s[..|s| - 1], who, who');
    }
  }

  lemma {:induction false} OnlyInTwice(s: seq<Element>, who: seq<Element>, fewer: seq<Element>)
    requires forall e :: e in fewer ==> e in who
    ensures OnlyIn(OnlyIn(s, who), fewer) == OnlyIn(s, fewer)
  {
    if s != [] {
      var init, last := s[..|s| - 1], s[|s| - 1];
      OnlyInTwice(init, who, fewer);
      OnlyInConcat(OnlyIn(init, who), if last in who then [last] else [], fewer);
      OnlyInOne(last, fewer);
    }
  }

  lemma {:induction false} OnlyInOne(e: Element, who: seq<Element>)
    ensures OnlyIn([e], who) == (if e in who then [e] else []) && OnlyIn([], who) == []
  {
    assert [e][..0] == [];
  }

  /** The list has got more elements, and the ones from before are still in their order. */
  ghost predicate Grown(was: seq<Element>, now: seq<Element>) {
    (forall e :: e in was ==> e in now) && OnlyIn(now, was) == was
  }

  lemma {:induction false} GrownSame(s: seq<Element>)
    ensures Grown(s, s)
  {
    OnlyInAll(s, s);
  }

  lemma {:induction false} GrownMore(a: seq<Element>, b: seq<Element>, c: seq<Element>)
    requires Grown(a, b) && Grown(b, c)
    ensures Grown(a, c)
  {
    OnlyInTwice(c, b, a);
  }

  lemma {:induction false} GrownByOne(s: seq<Element>, i: nat, e: Element)
    requires i <= |s| && e !in s
    ensures Grown(s, s[..i] + [e] + s[i..])
  {
    hide OnlyIn;
    assert s[..i] + s[i..] == s;
    GrownBetween(s[..i], e, s[i..]);
  }

  lemma {:induction false} GrownBetween(a: seq<Element>, e: Element, b: seq<Element>)
    requires e !in a + b
    ensures Grown(a + b, a + [e] + b)
  {
    hide OnlyIn;
    var was := a + b;
    OnlyInConcat(a + [e], b, was);
    OnlyInConcat(a, [e], was);
    OnlyInOne(e, was);
    OnlyInAll(a, was);
    OnlyInAll(b, was);
    assert a + [] == a;
    assert forall x :: x in was ==> x in a || x in b;
  }

  /** So it has, and the new ones are wanted. */
  ghost predicate Filled(was: seq<Element>, now: seq<Element>, wanted: seq<Element>) {
    Grown(was, now) && forall e :: e in now ==> e in was || e in wanted
  }

  lemma {:induction false} FilledSame(s: seq<Element>, wanted: seq<Element>)
    ensures Filled(s, s, wanted)
  {
    GrownSame(s);
  }

  lemma {:induction false} FilledMore(a: seq<Element>, b: seq<Element>, c: seq<Element>, own: seq<Element>,
                                      wanted: seq<Element>)
    requires Filled(a, b, wanted) && Grown(b, c)
    requires forall e :: e in c ==> e in b || e in own
    requires forall e :: e in own ==> e in wanted
    ensures Filled(a, c, wanted)
  {
    GrownMore(a, b, c);
    hide Grown;
  }

  /** A list that has come to its wanted order had its elements in that order before. */
  lemma {:induction false} FilledInOrder(was: seq<Element>, wanted: seq<Element>, part: seq<Element>)
    requires Filled(was, wanted, wanted) && OnlyIn(wanted, part) == part
    requires SameMembers(was, part)
    ensures was == part
  {
    OnlyInSame(wanted, was, part);
  }

  /** From one place of the list up to another there is just this part. */
  ghost predicate StandsAt(all: seq<Element>, lo: nat, hi: nat, part: seq<Element>) {
    lo <= hi <= |all| && all[lo..hi] == part
  }

  lemma StandsStill(all: seq<Element>, lo: nat, hi: nat, part: seq<Element>, more: seq<Element>)
    requires StandsAt(all, lo, hi, part)
    ensures StandsAt(all + more, lo, hi, part)
  {
    assert (all + more)[lo..hi] == all[lo..hi];
  }

  lemma StandsBehind(all: seq<Element>, part: seq<Element>)
    ensures StandsAt(all + part, |all|, |all| + |part|, part)
  {
    assert (all + part)[|all|..] == part;
  }

  /** Displayables are compared with ===. */
  function ByIdentity(before: seq<Displayable>, after: seq<Displayable>): Lists<Displayable> {
    Lists(before, after, (x, y) => x == y)
  }

  ghost predicate Disjoint(a: seq<Element>, b: seq<Element>) {
    forall i, j :: 0 <= i < |a| && 0 <= j < |b| ==> a[i] != b[j]
  }

  /** Some of the elements are in the document; the others have been created since. */
  ghost predicate PartShown(own: seq<Element>, seen: seq<Element>) {
    seen == own || seen == [] || (|own| == 2 && (seen == own[..1] || seen == own[1..]))
  }

  lemma {:induction false} OnlyInTwo(own: seq<Element>, who: seq<Element>)
    requires |own| <= 2
    ensures PartShown(own, OnlyIn(own, who))
  {
    OnlyInPair(own, who);
    hide OnlyIn;
  }

  lemma {:induction false} OnlyInPair(own: seq<Element>, who: seq<Element>)
    requires |own| <= 2
    ensures own == [] ==> OnlyIn(own, who) == []
    ensures |own| == 1 ==> OnlyIn(own, who) == if own[0] in who then own else []
    ensures |own| == 2 ==> OnlyIn(own, who) ==
                             if own[0] in who then (if own[1] in who then own else own[..1])
                             else if own[1] in who then own[1..] else []
  {
    hide OnlyIn;
    if own == [] {
      OnlyInNone(own, who);
    } else if |own| == 1 {
      assert own == [own[0]];
      OnlyInOne(own[0], who);
    } else {
      assert own == [own[0]] + [own[1]];
      OnlyInConcat([own[0]], [own[1]], who);
      OnlyInOne(own[0], who);
      OnlyInOne(own[1], who);
    }
  }

  lemma {:induction false} OnlyInMembers(s: seq<Element>, who: seq<Element>)
    ensures forall e :: e in OnlyIn(s, who) <==> e in s && e in who
  {
    if s != [] {
      OnlyInMembers(s[..|s| - 1], who);
    }
  }

  lemma {:induction false} OnlyInPart(own: seq<Element>, seen: seq<Element>, who: seq<Element>)
    requires PartShown(own, seen) && |own| <= 2 && NoDuplicates(own)
    requires forall e :: e in own ==> (e in who <==> e in seen)
    ensures OnlyIn(own, who) == seen
  {
    OnlyInPair(own, who);
    hide OnlyIn;
    if |own| == 2 && seen == own[..1] {
      assert own[0] in seen && own[1] !in seen;
    }
  }

  /** One repaint: the diffed lists, the elements each displayable owns, and the part of the
      old ones' elements that is in the document. */
  datatype Repaint = Repaint(before: seq<Displayable>, after: seq<Displayable>,
                             elements: map<Displayable, seq<Element>>, shown: seq<seq<Element>>)
  {
    ghost predicate Sound() {
      && |shown| == |before| && NoDuplicates(before) && NoDuplicates(after)
      && (forall i :: 0 <= i < |before| ==> before[i] in elements)
      && (forall i :: 0 <= i < |after| ==> after[i] in elements)
      && (forall d | d in elements.Keys :: |elements[d]| <= 2 && NoDuplicates(elements[d]))
      && (forall d, d' | d in elements.Keys && d' in elements.Keys && d != d' :: Disjoint(elements[d], elements[d']))
      && (forall i :: 0 <= i < |before| ==> PartShown(elements[before[i]], shown[i]))
    }

    /** The first element of an old displayable, if it owns any, is in the document. */
    ghost predicate HeadShown(i: nat)
      requires Sound() && i < |before|
    {
      elements[before[i]] == [] || (shown[i] != [] && shown[i][0] == elements[before[i]][0])
    }

    /** So it is for all displayables that the script keeps. */
    ghost predicate HeadsShown(ops: seq<Op>)
      requires Sound() && Playable(Lists(), ops)
    {
      ops == [] ||
      var init := ops[..|ops| - 1];
      HeadsShown(init) && (ops[|ops| - 1].Keep? ==> HeadShown(OldUsed(init)))
    }

    ghost function Lists(): Lists<Displayable> {
      ByIdentity(before, after)
    }

    /** The shown elements of the displayables a script keeps. */
    ghost function Survivors(ops: seq<Op>): seq<seq<Element>>
      requires Sound() && Playable(Lists(), ops)
    {
      if ops == [] then []
      else
        var init := ops[..|ops| - 1];
        Survivors(init) + if ops[|ops| - 1].Keep? then [shown[OldUsed(init)]] else []
    }

    /** All elements of the displayables a script removes. */
    ghost function Gone(ops: seq<Op>): set<Element>
      requires Sound() && Playable(Lists(), ops)
    {
      if ops == [] then {}
      else
        var init := ops[..|ops| - 1];
        Gone(init) + if ops[|ops| - 1].Remove? then (set e | e in elements[before[OldUsed(init)]]) else {}
    }

    /** The new visible displayables a script has come to, kept or added. */
    ghost function Items(ops: seq<Op>): seq<Item>
      requires Sound() && Playable(Lists(), ops)
    {
      if ops == [] then []
      else
        var init, op := ops[..|ops| - 1], ops[|ops| - 1];
        Items(init) + if op.Remove? then [] else [Item(elements[after[NewUsed(init)]], op.Keep?)]
    }

    lemma {:induction false} ItemsAt(ops: seq<Op>)
      requires Sound() && Playable(Lists(), ops)
      ensures |Items(ops)| == NewUsed(ops) <= |after|
      ensures forall k :: 0 <= k < |Items(ops)| ==> Items(ops)[k].elements == elements[after[k]]
    {
      if ops != [] {
        ItemsAt(ops[..|ops| - 1]);
      }
    }

    /** The child list a repaint should produce: the elements of the first n new displayables. */
    ghost function Wanted(n: nat): seq<Element>
      requires Sound() && n <= |after|
    {
      if n == 0 then [] else Wanted(n - 1) + elements[after[n - 1]]
    }

    /** In the wanted list each displayable has its elements in a row, the shape before the text, and one
        displayable comes right behind the other. */
    lemma {:induction false} WantedMeans(n: nat) returns (starts: seq<nat>)
      requires Sound() && n <= |after|
      ensures |starts| == n + 1 && starts[0] == 0 && starts[n] == |Wanted(n)|
      ensures forall k, l :: 0 <= k && l == k + 1 <= n ==>
                StandsAt(Wanted(n), starts[k], starts[l], elements[after[k]])
    {
      hide StandsAt;
      if n == 0 {
        starts := [0];
      } else {
        starts := WantedMeans(n - 1);
        var before, own := Wanted(n - 1), elements[after[n - 1]];
        assert Wanted(n) == before + own;
        hide Wanted;
        StandsBehind(before, own);
        forall k, l | 0 <= k && l == k + 1 <= n - 1
          ensures StandsAt(before + own, starts[k], starts[l], elements[after[k]])
        {
          StandsStill(before, starts[k], starts[l], elements[after[k]], own);
        }
        starts := starts + [|before| + |own|];
      }
    }

    /** Whatever script the diff chooses, the wanted child list is the same. */
    lemma {:induction false} FlatIsWanted(ops: seq<Op>)
      requires Sound() && Playable(Lists(), ops)
      ensures NewUsed(ops) <= |after| && Flat(Items(ops)) == Wanted(NewUsed(ops))
    {
      ItemsAt(ops);
      if ops != [] {
        var init, op := ops[..|ops| - 1], ops[|ops| - 1];
        FlatIsWanted(init);
        if op.Remove? {
          assert Items(ops) == Items(init);
        } else {
          PlaceSnoc(Items(init), Item(elements[after[NewUsed(init)]], op.Keep?));
        }
      }
    }

    /** When what is laid out is wanted. */
    lemma {:induction false} RightIfOrderly(ops: seq<Op>)
      requires Sound() && Transforms(Lists(), ops)
      ensures Flat(Items(ops)) == Wanted(|after|)
      ensures var p := Place(Items(ops)); p.upToAnchor + p.behind == Wanted(|after|) <==> Orderly(Items(ops))
      ensures SingleInBoth() ==> HeadsShown(ops) && Orderly(Items(ops))
    {
      hide Playable, NewUsed, OldUsed, Items, Place, Orderly, AtMostTwo, HeadsShown, SingleInBoth, NoDuplicates, Sound;
      FlatItems(ops);
      PlacedRight(Items(ops));
      FlatIsWanted(ops);
      if SingleInBoth() {
        SingleIsRight(ops);
      }
    }

    /** No displayable that is in both lists owns two elements, or one that was created since. */
    ghost predicate SingleInBoth()
      requires Sound()
    {
      forall i, j :: 0 <= i < |before| && 0 <= j < |after| && before[i] == after[j] ==>
        |elements[before[i]]| <= 1 && shown[i] == elements[before[i]]
    }

    /** Then every script lays out the elements right. */
    lemma {:induction false} SingleIsRight(ops: seq<Op>)
      requires Sound() && Playable(Lists(), ops) && SingleInBoth()
      ensures HeadsShown(ops) && Orderly(Items(ops))
    {
      SingleKept(ops);
      SingleElementsOrderly(Items(ops));
    }

    lemma {:induction false} SingleKept(ops: seq<Op>)
      requires Sound() && Playable(Lists(), ops) && SingleInBoth()
      ensures HeadsShown(ops) && forall k :: 0 <= k < |Items(ops)| && Items(ops)[k].kept ==>
                |Items(ops)[k].elements| <= 1
    {
      if ops != [] {
        var init := ops[..|ops| - 1];
        SingleKept(init);
        ItemsAt(init);
        if ops[|ops| - 1].Keep? {
          assert before[OldUsed(init)] == after[NewUsed(init)];
        }
      }
    }

    /** Taking the gone elements out of the old child list leaves the survivors' elements. */
    lemma {:induction false} RemovalLeavesSurvivors(ops: seq<Op>)
      requires Sound() && Playable(Lists(), ops)
      ensures OldUsed(ops) <= |before|
      ensures forall e :: e in Gone(ops) ==> exists i :: 0 <= i < OldUsed(ops) && e in elements[before[i]]
      ensures Without(Join(shown[..OldUsed(ops)]), Gone(ops)) == Join(Survivors(ops))
    {
      hide Without, Join, Survivors, Gone, OldUsed;
      if ops == [] {
        NothingYet();
      } else {
        var init, op := ops[..|ops| - 1], ops[|ops| - 1];
        assert ops == init + [op];
        Snoc(Lists(), init, op);
        RemovalLeavesSurvivors(init);
        GoneNext(init, op);
        if !op.Add? {
          RemovalStep(init, op);
        }
      }
    }

    /** What stays in the document after the removals is in the order of the displayables it belongs to. */
    ghost predicate InOrder(ops: seq<Op>, was: seq<Element>)
      requires Sound() && Playable(Lists(), ops)
    {
      Without(was, Gone(ops)) == Join(Survivors(ops))
    }

    /** So it is if all that is shown was in order; and in any order the same elements stay. */
    lemma {:induction false} WhatStays(ops: seq<Op>, was: seq<Element>)
      requires Sound() && Transforms(Lists(), ops)
      requires SameMembers(was, Join(shown))
      ensures was == Join(shown) ==> InOrder(ops, was)
      ensures SameMembers(Without(was, Gone(ops)), Join(Survivors(ops)))
    {
      hide Without, Join, Survivors, Gone, Playable;
      RemovalLeavesSurvivors(ops);
      assert shown[..|shown|] == shown;
      assert Without(Join(shown), Gone(ops)) == Join(Survivors(ops));
      SameWithout(was, Join(shown), Gone(ops));
    }

    /** A repaint of an unchanged list leaves the wanted children if and only if they were in order before and
        each displayable had its first element among them: it puts no element right that an earlier one misplaced. */
    lemma {:induction false} SameListAgain(ops: seq<Op>, was: seq<Element>)
      requires Sound() && before == after && Transforms(Lists(), ops)
      requires forall other :: Transforms(Lists(), other) ==> Cost(ops) <= Cost(other)
      ensures InOrder(ops, was) && HeadsShown(ops) && Orderly(Items(ops)) <==>
              was == Join(shown) && forall i :: 0 <= i < |before| ==> HeadShown(i)
    {
      hide Sound, Playable, NewUsed, OldUsed, Cost, HeadsShown, HeadShown, Orderly, Items, Join, Without, Survivors,
           Gone;
      KeepAll(|before|);
      assert Transforms(Lists(), Repeat(Keep, |before|));
      NoEdits(ops);
      assert shown[..|shown|] == shown;
      WithoutStrangers(was, {});
    }

    lemma {:induction false} KeepAll(n: nat)
      requires Sound() && before == after && n <= |before|
      ensures var all := Repeat(Keep, n);
              Playable(Lists(), all) && NewUsed(all) == OldUsed(all) == n && Cost(all) == 0
    {
      hide Sound, Playable, NewUsed, OldUsed, Cost;
      if n == 0 {
        EmptyScript(Lists());
      } else {
        KeepAll(n - 1);
        assert Repeat(Keep, n) == Repeat(Keep, n - 1) + [Keep];
        Snoc(Lists(), Repeat(Keep, n - 1), Keep);
      }
    }

    /** Without edits nothing goes, and every displayable is a kept one. */
    lemma {:induction false} NoEdits(ops: seq<Op>)
      requires Sound() && Playable(Lists(), ops) && Cost(ops) == 0
      ensures Gone(ops) == {} && OldUsed(ops) <= |shown| == |before| && Survivors(ops) == shown[..OldUsed(ops)]
      ensures Orderly(Items(ops))
      ensures HeadsShown(ops) <==> forall i :: 0 <= i < OldUsed(ops) ==> HeadShown(i)
    {
      hide Sound, Orderly, Items, Gone, Survivors, HeadsShown, HeadShown;
      if ops == [] {
        NothingKept();
      } else {
        var init := ops[..|ops| - 1];
        assert ops == init + [Keep];
        Snoc(Lists(), init, Keep);
        hide Playable;
        NoEdits(init);
        SurvivorsNext(init, Keep);
        OneMoreKept(init);
        assert shown[..OldUsed(init) + 1] == shown[..OldUsed(init)] + [shown[OldUsed(init)]];
      }
    }

    lemma {:induction false} NothingKept()
      requires Sound()
      ensures Playable(Lists(), []) && Gone([]) == {} && Items([]) == [] && Survivors([]) == [] && OldUsed([]) == 0
      ensures HeadsShown([]) && Orderly([]) && |shown| == |before|
    {
    }

    lemma {:induction false} OneMoreKept(init: seq<Op>)
      requires Sound() && Playable(Lists(), init) && Playable(Lists(), init + [Keep])
      requires Gone(init) == {} && Orderly(Items(init))
      ensures OldUsed(init) < |before| && Gone(init + [Keep]) == {} && Orderly(Items(init + [Keep]))
      ensures HeadsShown(init + [Keep]) <==> HeadsShown(init) && HeadShown(OldUsed(init))
    {
      hide Orderly, Survivors;
      Snoc(Lists(), init, Keep);
      assert (init + [Keep])[..|init|] == init && (init + [Keep])[|init|] == Keep;
      OrderlySnoc(Items(init), Item(elements[after[NewUsed(init)]], true));
    }

    /** The elements that stay are wanted, and in the wanted list they are in this order. */
    lemma {:induction false} SurvivorsWanted(ops: seq<Op>)
      requires Sound() && Playable(Lists(), ops)
      ensures OnlyIn(Flat(Items(ops)), Join(Survivors(ops))) == Join(Survivors(ops))
      ensures forall e :: e in Join(Survivors(ops)) ==> e in Flat(Items(ops))
    {
      hide Sound, Playable, OnlyIn, Join, Flat, Items, Survivors;
      SurvivorsWantedBy(ops, ops);
      FlatIsWanted(ops);
    }

    /** What the placements make of the elements that stay is wanted, and is the wanted list only if they were in
        order. */
    lemma {:induction false} RightOnlyInOrder(ops: seq<Op>, was: seq<Element>, stayed: seq<Element>, now: seq<Element>)
      requires Sound() && Transforms(Lists(), ops)
      requires stayed == Without(was, Gone(ops)) && SameMembers(stayed, Join(Survivors(ops)))
      requires Filled(stayed, now, Flat(Items(ops)))
      ensures forall e :: e in now ==> e in Flat(Items(ops))
      ensures InOrder(ops, was) <==> stayed == Join(Survivors(ops))
      ensures now == Flat(Items(ops)) ==> InOrder(ops, was)
      ensures Grown(stayed, now)
    {
      hide Sound, Playable, OnlyIn, Join, Flat, Items, Survivors, Gone, Without, Grown;
      SurvivorsWanted(ops);
      if now == Flat(Items(ops)) {
        hide Filled;
        FilledInOrder(stayed, now, Join(Survivors(ops)));
      }
    }

    /** What a child list shows of each of the first n new displayables. */
    ghost function ShownOf(n: nat, now: seq<Element>): seq<seq<Element>>
      requires Sound() && n <= |after|
    {
      if n == 0 then [] else ShownOf(n - 1, now) + [OnlyIn(elements[after[n - 1]], now)]
    }

    /** The child list shows elements of the new displayables only, so the next repaint can start from it. */
    ghost predicate Repaintable(now: seq<Element>)
      requires Sound()
    {
      var next := ShownOf(|after|, now);
      && |next| == |after| && SameMembers(now, Join(next))
      && forall i :: 0 <= i < |after| ==> PartShown(elements[after[i]], next[i])
    }

    lemma {:induction false} WantedIsRepaintable(now: seq<Element>)
      requires Sound() && forall e :: e in now ==> e in Wanted(|after|)
      ensures Repaintable(now)
    {
      hide Sound, Join, Wanted, ShownOf, PartShown;
      ShownIsPart(|after|, now);
      OnlyInMembers(Wanted(|after|), now);
      assert Join(ShownOf(|after|, now)) == OnlyIn(Wanted(|after|), now);
      assert SameMembers(now, OnlyIn(Wanted(|after|), now));
    }

    lemma {:induction false} ShownIsPart(n: nat, now: seq<Element>)
      requires Sound() && n <= |after|
      ensures |ShownOf(n, now)| == n && Join(ShownOf(n, now)) == OnlyIn(Wanted(n), now)
      ensures forall i :: 0 <= i < n ==> PartShown(elements[after[i]], ShownOf(n, now)[i])
    {
      hide Join, OnlyIn, PartShown;
      if n == 0 {
        NothingWanted(now);
      } else {
        var own := elements[after[n - 1]];
        ShownIsPart(n - 1, now);
        JoinSnoc(ShownOf(n - 1, now), OnlyIn(own, now));
        OnlyInConcat(Wanted(n - 1), own, now);
        OwnOnce(after[n - 1]);
        OnlyInTwo(own, now);
      }
    }

    lemma {:induction false} SurvivorsWantedBy(done: seq<Op>, ops: seq<Op>)
      requires Sound() && Playable(Lists(), ops) && done <= ops
      ensures Playable(Lists(), done) && forall e :: e in Join(Survivors(done)) ==> e in Flat(Items(done))
      ensures OnlyIn(Flat(Items(done)), Join(Survivors(ops))) == Join(Survivors(done))
    {
      hide Sound, Playable, OnlyIn, Join, Flat, Items, Survivors, PartShown, BelongsToNew, Ahead;
      AheadMembers(done, ops);
      var who := Join(Survivors(ops));
      if done == [] {
        StartOfScript(ops);
        NothingWanted(who);
      } else {
        var init, op := done[..|done| - 1], done[|done| - 1];
        assert done == init + [op];
        SurvivorsWantedBy(init, ops);
        AheadMembers(init, ops);
        if op.Remove? {
          RemoveNext(init, ops);
        } else if op.Add? {
          AddedNotStaying(init, ops);
        } else {
          KeptStaying(init, ops);
        }
      }
    }

    lemma {:induction false} NothingWanted(who: seq<Element>)
      ensures OnlyIn(Flat([]), who) == Join([]) == []
    {
    }

    /** An added displayable owns nothing of what stays. */
    lemma {:induction false} AddedNotStaying(done: seq<Op>, ops: seq<Op>)
      requires Sound() && Playable(Lists(), ops) && done + [Add] <= ops && Playable(Lists(), done) &&
               Playable(Lists(), done + [Add])
      requires Survivors(done) <= Survivors(ops) && forall e :: e in Join(Survivors(done)) ==> e in Flat(Items(done))
      requires OnlyIn(Flat(Items(done)), Join(Survivors(ops))) == Join(Survivors(done))
      ensures OnlyIn(Flat(Items(done + [Add])), Join(Survivors(ops))) == Join(Survivors(done + [Add]))
      ensures forall e :: e in Join(Survivors(done + [Add])) ==> e in Flat(Items(done + [Add]))
    {
      hide Sound, Playable, OnlyIn, Join, Flat, Items, Survivors, Place;
      var k, n := |Survivors(done)|, NewUsed(done);
      AddNext(done, ops);
      SurvivorsNext(done, Add);
      FlatNext(done, Add);
      FlatItems(done);
      forall e | e in elements[after[n]]
        ensures e !in Flat(Items(done))
      {
        OwnedOnce(e, n);
      }
      assert Survivors(ops) == Survivors(done) + Survivors(ops)[k..];
      JoinConcat(Survivors(done), Survivors(ops)[k..]);
      OnlyInConcat(Flat(Items(done)), elements[after[n]], Join(Survivors(ops)));
      OnlyInNone(elements[after[n]], Join(Survivors(ops)));
      assert Survivors(done) + [] == Survivors(done);
    }

    /** Of a kept displayable stays what is shown. */
    lemma {:induction false} KeptStaying(done: seq<Op>, ops: seq<Op>)
      requires Sound() && Playable(Lists(), ops) && done + [Keep] <= ops && Playable(Lists(), done) &&
               Playable(Lists(), done + [Keep])
      requires Survivors(done) <= Survivors(ops) && forall e :: e in Join(Survivors(done)) ==> e in Flat(Items(done))
      requires OnlyIn(Flat(Items(done)), Join(Survivors(ops))) == Join(Survivors(done))
      ensures OnlyIn(Flat(Items(done + [Keep])), Join(Survivors(ops))) == Join(Survivors(done + [Keep]))
      ensures forall e :: e in Join(Survivors(done + [Keep])) ==> e in Flat(Items(done + [Keep]))
    {
      hide Sound, Playable, OnlyIn, Join, Flat, Items, Survivors, Place, PartShown, BelongsToNew;
      var k, i, n, who := |Survivors(done)|, OldUsed(done), NewUsed(done), Join(Survivors(ops));
      KeepNext(done, ops);
      SurvivorsNext(done, Keep);
      FlatNext(done, Keep);
      StrangersToEarlier(i, {});
      OwnOnce(after[n]);
      assert Survivors(ops) == Survivors(done) + Survivors(ops)[k..];
      JoinConcat(Survivors(done), Survivors(ops)[k..]);
      JoinSnoc(Survivors(done), shown[i]);
      forall e | e in elements[after[n]] && e !in shown[i]
        ensures e !in who
      {
        NotAmongSurvivors(ops, i, e);
      }
      OnlyInConcat(Flat(Items(done)), elements[after[n]], who);
      OnlyInPart(elements[after[n]], shown[i], who);
    }

    lemma {:induction false} FlatNext(done: seq<Op>, op: Op)
      requires Sound() && Playable(Lists(), done) && Playable(Lists(), done + [op]) && !op.Remove? &&
               NewUsed(done) < |after|
      ensures Flat(Items(done + [op])) == Flat(Items(done)) + elements[after[NewUsed(done)]]
    {
      hide Flat, Playable;
      assert (done + [op])[..|done|] == done;
      PlaceSnoc(Items(done), Item(elements[after[NewUsed(done)]], op.Keep?));
    }

    lemma {:induction false} NothingYet()
      requires Sound()
      ensures Playable(Lists(), []) && OldUsed([]) == 0 && Gone([]) == {} && Survivors([]) == []
      ensures Without(Join(shown[..0]), {}) == Join([])
    {
    }

    /** What is gone after one more operation was of old displayables up to it; an addition changes nothing. */
    lemma {:induction false} GoneNext(init: seq<Op>, op: Op)
      requires Sound() && Playable(Lists(), init) && Playable(Lists(), init + [op])
      requires OldUsed(init + [op]) == (if op.Add? then OldUsed(init) else OldUsed(init) + 1) <= |before|
      requires forall e :: e in Gone(init) ==> exists i :: 0 <= i < OldUsed(init) && e in elements[before[i]]
      ensures forall e :: e in Gone(init + [op]) ==>
                exists i :: 0 <= i < OldUsed(init + [op]) && e in elements[before[i]]
      ensures op.Add? ==> Gone(init + [op]) == Gone(init) && Survivors(init + [op]) == Survivors(init)
    {
      hide Playable, OldUsed;
      assert (init + [op])[..|init|] == init && (init + [op])[|init|] == op;
      forall e | e in Gone(init + [op])
        ensures exists i :: 0 <= i < OldUsed(init + [op]) && e in elements[before[i]]
      {
        if e !in Gone(init) {
          assert e in elements[before[OldUsed(init)]];
        }
      }
    }

    lemma {:induction false} JoinMembers(m: nat)
      requires Sound() && m <= |before|
      ensures forall e :: e in Join(shown[..m]) ==> exists i :: 0 <= i < m && e in elements[before[i]]
    {
      if m > 0 {
        JoinMembers(m - 1);
        assert shown[..m][..m - 1] == shown[..m - 1];
      }
    }

    lemma {:induction false} RemovalStep(init: seq<Op>, op: Op)
      requires Sound() && Playable(Lists(), init + [op]) && Playable(Lists(), init) && !op.Add? &&
               OldUsed(init) < |before|
      requires forall e :: e in Gone(init) ==> exists i :: 0 <= i < OldUsed(init) && e in elements[before[i]]
      requires Without(Join(shown[..OldUsed(init)]), Gone(init)) == Join(Survivors(init))
      ensures Without(Join(shown[..OldUsed(init) + 1]), Gone(init + [op])) == Join(Survivors(init + [op]))
    {
      hide Without, Join, Survivors, Gone, Playable, OldUsed;
      var m, ops := OldUsed(init), init + [op];
      var first, mine := Join(shown[..m]), set e | e in elements[before[m]];
      UnfoldStep(init, op);
      assert shown[..m + 1] == shown[..m] + [shown[m]];
      JoinSnoc(shown[..m], shown[m]);
      JoinSnoc(Survivors(init), shown[m]);
      JoinMembers(m);
      if op.Keep? {
        StrangersToEarlier(m, Gone(init));
        WithoutKeepsPart(first, shown[m], Gone(init));
      } else {
        StrangersToEarlier(m, set e | e in first);
        WithoutDropsPart(first, shown[m], Gone(init), mine);
      }
    }

    lemma {:induction false} UnfoldStep(init: seq<Op>, op: Op)
      requires Sound() && Playable(Lists(), init + [op]) && Playable(Lists(), init) && !op.Add? &&
               OldUsed(init) < |before|
      ensures var m := OldUsed(init);
              && Survivors(init + [op]) == (if op.Keep? then Survivors(init) + [shown[m]] else Survivors(init))
              && Gone(init + [op]) == (if op.Keep? then Gone(init) else Gone(init) + set e | e in elements[before[m]])
    {
      hide Sound, Playable, OldUsed;
      assert (init + [op])[..|init|] == init && (init + [op])[|init|] == op;
    }

    /** Elements of earlier displayables are not elements of a later one. */
    lemma StrangersToEarlier(m: nat, earlier: set<Element>)
      requires Sound() && m < |before|
      requires forall e :: e in earlier ==> exists i :: 0 <= i < m && e in elements[before[i]]
      ensures forall e :: e in elements[before[m]] ==> e !in earlier
      ensures forall e :: e in shown[m] ==> e in elements[before[m]]
    {
    }

    /** The survivors' elements the second pass has not come to yet. */
    ghost function Ahead(done: seq<Op>, ops: seq<Op>): seq<Element>
      requires Sound() && Playable(Lists(), done) && Playable(Lists(), ops)
      requires |Survivors(done)| <= |Survivors(ops)|
    {
      Join(Survivors(ops)[|Survivors(done)|..])
    }

    ghost predicate BelongsToNew(e: Element, lo: nat, hi: nat)
      requires Sound() && hi <= |after|
    {
      exists j :: lo <= j < hi && e in elements[after[j]]
    }

    lemma Widen(e: Element, lo: nat, hi: nat, hi': nat)
      requires Sound() && hi <= hi' <= |after| && lo <= hi
      requires BelongsToNew(e, lo, hi) || (hi < hi' && e in elements[after[hi]])
      ensures BelongsToNew(e, lo, hi')
    {
      if BelongsToNew(e, lo, hi) {
        var j :| lo <= j < hi && e in elements[after[j]];
        assert lo <= j < hi' && e in elements[after[j]];
      } else {
        assert lo <= hi < hi' && e in elements[after[hi]];
      }
    }

    /** One more operation of the script adds its survivor to what lies ahead. */
    lemma {:induction false} AheadGrows(done: seq<Op>, init: seq<Op>, op: Op)
      requires Sound() && Playable(Lists(), done) && Playable(Lists(), init) && Playable(Lists(), init + [op])
      requires Survivors(done) <= Survivors(init)
      ensures Survivors(done) <= Survivors(init + [op])
      ensures op.Keep? ==>
                OldUsed(init) < |before| && NewUsed(init) < |after| && before[OldUsed(init)] == after[NewUsed(init)]
      ensures Ahead(done, init + [op]) == Ahead(done, init) + if op.Keep? then shown[OldUsed(init)] else []
    {
      hide Sound, OldUsed, NewUsed, Join;
      var ops, i := init + [op], OldUsed(init);
      Snoc(Lists(), init, op);
      assert ops[..|init|] == init;
      hide Playable;
      if op.Keep? {
        SurvivorsNext(init, op);
        AheadOneMore(Survivors(init), |Survivors(done)|, shown[i]);
      } else {
        SurvivorsNext(init, op);
        assert Survivors(init) + [] == Survivors(init);
      }
    }

    lemma {:induction false} SurvivorsNext(init: seq<Op>, op: Op)
      requires Sound() && Playable(Lists(), init) && Playable(Lists(), init + [op])
      ensures op.Keep? ==> OldUsed(init) < |before| == |shown|
      ensures Survivors(init + [op]) == Survivors(init) + if op.Keep? then [shown[OldUsed(init)]] else []
    {
      Snoc(Lists(), init, op);
      assert (init + [op])[..|init|] == init;
    }

    /** What lies ahead belongs to new displayables that are not placed yet. */
    lemma {:induction false} AheadMembers(done: seq<Op>, ops: seq<Op>)
      requires Sound() && Playable(Lists(), ops) && done <= ops
      ensures Playable(Lists(), done) && NewUsed(done) <= NewUsed(ops) <= |after|
      ensures Survivors(done) <= Survivors(ops)
      ensures forall e :: e in Ahead(done, ops) ==> BelongsToNew(e, NewUsed(done), NewUsed(ops))
    {
      hide Sound, BelongsToNew, Join, Survivors, OldUsed;
      ItemsAt(ops);
      if |done| == |ops| {
        assert done == ops && Survivors(ops)[|Survivors(ops)|..] == [];
        JoinNone<Element>();
      } else {
        var init, op := ops[..|ops| - 1], ops[|ops| - 1];
        AheadMembers(done, init);
        assert ops == init + [op];
        AheadGrows(done, init, op);
        forall e | e in Ahead(done, ops)
          ensures BelongsToNew(e, NewUsed(done), NewUsed(ops))
        {
          if op.Keep? {
            StrangersToEarlier(OldUsed(init), {});
          }
          Widen(e, NewUsed(done), NewUsed(init), NewUsed(ops));
        }
      }
    }

    /** What is placed belongs to new displayables the pass has come to. */
    lemma {:induction false} PlacedMembers(done: seq<Op>)
      requires Sound() && Playable(Lists(), done)
      ensures NewUsed(done) <= |after|
      ensures var p := Place(Items(done));
              forall e :: e in p.upToAnchor || e in p.behind ==> BelongsToNew(e, 0, NewUsed(done))
    {
      ItemsAt(done);
      if done != [] {
        var init, op := done[..|done| - 1], done[|done| - 1];
        PlacedMembers(init);
        if !op.Remove? {
          var p, own := Place(Items(init)), elements[after[NewUsed(init)]];
          assert Items(done)[..|Items(init)|] == Items(init);
          assert forall e :: e in own[..if own == [] then 0 else 1] ==> e in own;
          forall e | e in Place(Items(done)).upToAnchor || e in Place(Items(done)).behind
            ensures BelongsToNew(e, 0, NewUsed(done))
          {
            assert e in p.upToAnchor || e in p.behind || e in own;
            Widen(e, 0, NewUsed(init), NewUsed(done));
          }
        } else {
          assert Items(done) == Items(init);
        }
      }
    }

    /** The state of the second pass after a prefix of the script. */
    ghost predicate Laid(done: seq<Op>, ops: seq<Op>, children: seq<Element>, anchor: Option<Element>)
      requires Sound() && Playable(Lists(), ops) && done <= ops
    {
      AheadMembers(done, ops);
      var p := Place(Items(done));
      children == p.upToAnchor + p.behind + Ahead(done, ops) && anchor == LastOf(p.upToAnchor)
    }

    lemma {:induction false} AddNext(done: seq<Op>, ops: seq<Op>)
      requires Sound() && Playable(Lists(), ops) && done + [Add] <= ops
      ensures Playable(Lists(), done) && Playable(Lists(), done + [Add])
      ensures done <= ops && NewUsed(done) < |after| && NewUsed(done + [Add]) == NewUsed(done) + 1
      ensures after[NewUsed(done)] in elements
      ensures var p, own := Place(Items(done)), elements[after[NewUsed(done)]];
              && |Survivors(done)| <= |Survivors(ops)| && |Survivors(done + [Add])| <= |Survivors(ops)|
              && Place(Items(done + [Add])) == Placed(p.upToAnchor + own, p.behind)
              && Ahead(done + [Add], ops) == Ahead(done, ops)
              && forall e :: e in own ==> e !in p.upToAnchor && e !in p.behind && e !in Ahead(done, ops)
    {
      var done', n := done + [Add], NewUsed(done);
      AheadMembers(done, ops);
      AheadMembers(done', ops);
      PlacedMembers(done);
      Snoc(Lists(), done, Add);
      assert done'[..|done|] == done;
      assert Items(done') == Items(done) + [Item(elements[after[n]], false)];
      assert Items(done')[..|Items(done)|] == Items(done);
      assert Survivors(done') == Survivors(done);
      forall e | e in elements[after[n]]
        ensures !BelongsToNew(e, 0, n) && !BelongsToNew(e, n + 1, NewUsed(ops))
      {
        OwnedOnce(e, n);
      }
    }

    lemma {:induction false} OwnOnce(d: Displayable)
      requires Sound() && d in elements
      ensures NoDuplicates(elements[d]) && |elements[d]| <= 2
    {
    }

    /** An element of the n-th new displayable belongs to no other one. */
    lemma OwnedOnce(e: Element, n: nat)
      requires Sound() && n < |after| && e in elements[after[n]]
      ensures forall lo: nat, hi: nat :: hi <= |after| && (hi <= n || n < lo) ==> !BelongsToNew(e, lo, hi)
    {
      forall j | 0 <= j < |after| && j != n
        ensures e !in elements[after[j]]
      {
        assert after[j] != after[n];
        assert Disjoint(elements[after[j]], elements[after[n]]);
      }
    }

    lemma {:induction false} KeepNext(done: seq<Op>, ops: seq<Op>)
      requires Sound() && Playable(Lists(), ops) && done + [Keep] <= ops
      ensures Playable(Lists(), done) && Playable(Lists(), done + [Keep])
      ensures done <= ops && NewUsed(done) < |after| && OldUsed(done) < |before| == |shown|
      ensures NewUsed(done + [Keep]) == NewUsed(done) + 1 && OldUsed(done + [Keep]) == OldUsed(done) + 1
      ensures before[OldUsed(done)] == after[NewUsed(done)] && after[NewUsed(done)] in elements
      ensures var p, own, seen := Place(Items(done)), elements[after[NewUsed(done)]], shown[OldUsed(done)];
              && |Survivors(done)| <= |Survivors(ops)| && |Survivors(done + [Keep])| <= |Survivors(ops)|
              && Place(Items(done + [Keep])) ==
                 (if own == [] then p else Placed(p.upToAnchor + p.behind + own[..1], own[1..]))
              && Ahead(done, ops) == seen + Ahead(done + [Keep], ops)
              && PartShown(own, seen) && NoDuplicates(own) && (HeadsShown(ops) ==> HeadShown(OldUsed(done)))
              && forall e :: e in own ==> e !in p.upToAnchor && e !in p.behind && e !in Ahead(done + [Keep], ops)
    {
      hide Items, Survivors, Place, Join, HeadsShown, BelongsToNew;
      var done', n := done + [Keep], NewUsed(done);
      if HeadsShown(ops) {
        HeadsShownBefore(done', ops);
        HeadOfLast(done);
      }
      AheadMembers(done, ops);
      AheadMembers(done', ops);
      PlacedMembers(done);
      Snoc(Lists(), done, Keep);
      OwnOnce(after[n]);
      KeptItem(done);
      AheadPart(done, ops);
      hide Playable, NewUsed, OldUsed, Ahead;
      forall e | e in elements[after[n]]
        ensures !BelongsToNew(e, 0, n) && !BelongsToNew(e, n + 1, NewUsed(ops))
      {
        OwnedOnce(e, n);
      }
    }

    lemma {:induction false} HeadOfLast(done: seq<Op>)
      requires Sound() && Playable(Lists(), done) && Playable(Lists(), done + [Keep]) && HeadsShown(done + [Keep])
      ensures OldUsed(done) < |before| && HeadShown(OldUsed(done))
    {
      assert (done + [Keep])[..|done|] == done;
    }

    /** The kept displayable as an item, and where it is placed. */
    lemma {:induction false} KeptItem(done: seq<Op>)
      requires Sound() && Playable(Lists(), done) && Playable(Lists(), done + [Keep]) && NewUsed(done) < |after| &&
               after[NewUsed(done)] in elements
      ensures var p, own := Place(Items(done)), elements[after[NewUsed(done)]];
              Place(Items(done + [Keep])) ==
                if own == [] then p else Placed(p.upToAnchor + p.behind + own[..1], own[1..])
    {
      assert (done + [Keep])[..|done|] == done;
      var item := Item(elements[after[NewUsed(done)]], true);
      assert Items(done + [Keep]) == Items(done) + [item];
      PlaceSnoc(Items(done), item);
    }

    /** What lies ahead starts with what is shown of the kept displayable. */
    lemma {:induction false} AheadPart(done: seq<Op>, ops: seq<Op>)
      requires Sound() && Playable(Lists(), ops) && Playable(Lists(), done) && Playable(Lists(), done + [Keep]) &&
               OldUsed(done) < |before|
      requires Survivors(done) <= Survivors(ops) && Survivors(done + [Keep]) <= Survivors(ops)
      ensures Ahead(done, ops) == shown[OldUsed(done)] + Ahead(done + [Keep], ops)
    {
      SurvivorsNext(done, Keep);
      hide Sound, Playable, Survivors, OldUsed, Join;
      var all, i := Survivors(ops), |Survivors(done)|;
      assert all[i] == shown[OldUsed(done)] && all[i..] == [all[i]] + all[i + 1..];
      JoinCons(all[i], all[i + 1..]);
    }

    lemma {:induction false} HeadsShownBefore(done: seq<Op>, ops: seq<Op>)
      requires Sound() && Playable(Lists(), ops) && done <= ops && HeadsShown(ops)
      ensures Playable(Lists(), done) && HeadsShown(done)
    {
      if |done| == |ops| {
        assert done == ops;
      } else {
        HeadsShownBefore(done, ops[..|ops| - 1]);
      }
    }

    /** The elements of a displayable the script has come to are wanted. */
    lemma {:induction false} OwnWanted(done: seq<Op>, op: Op, ops: seq<Op>)
      requires Sound() && Playable(Lists(), ops) && done + [op] <= ops && !op.Remove?
      requires Playable(Lists(), done) && NewUsed(done) < |after|
      ensures forall e :: e in elements[after[NewUsed(done)]] ==> e in Flat(Items(ops))
    {
      hide Flat;
      ItemsAt(done);
      ItemsBefore(done + [op], ops);
      assert (done + [op])[..|done|] == done;
      assert Items(done + [op])[NewUsed(done)] == Item(elements[after[NewUsed(done)]], op.Keep?);
      FlatHas(Items(ops), NewUsed(done));
    }

    // -------------------------------------------------------------------------------
    // When a kept displayable lacks its first element

    /** The first element of the j-th new displayable, which the script keeps, is not there. */
    ghost predicate HeadMissing(ops: seq<Op>, j: nat, children: seq<Element>)
      requires Sound() && Playable(Lists(), ops)
    {
      j < |Items(ops)| && Items(ops)[j].kept && Items(ops)[j].elements != [] && Items(ops)[j].elements[0] !in children
    }

    lemma {:induction false} ItemsBefore(done: seq<Op>, ops: seq<Op>)
      requires Sound() && Playable(Lists(), ops) && done <= ops
      ensures Playable(Lists(), done) && Items(done) <= Items(ops)
    {
      if |done| == |ops| {
        assert done == ops;
      } else {
        ItemsBefore(done, ops[..|ops| - 1]);
      }
    }

    /** Elements that are not shown are not among the survivors. */
    lemma {:induction false} NotAmongSurvivors(ops: seq<Op>, i: nat, e: Element)
      requires Sound() && Playable(Lists(), ops) && i < |before| && e in elements[before[i]] && e !in shown[i]
      ensures e !in Join(Survivors(ops))
    {
      if ops != [] {
        var init, op := ops[..|ops| - 1], ops[|ops| - 1];
        NotAmongSurvivors(init, i, e);
        if op.Keep? {
          var m := OldUsed(init);
          JoinSnoc(Survivors(init), shown[m]);
          StrangersToEarlier(m, {});
          if m != i {
            assert before[m] != before[i] && Disjoint(elements[before[m]], elements[before[i]]);
          }
          assert e !in shown[m];
        } else {
          assert Survivors(init) + [] == Survivors(init);
        }
      }
    }

    /** A script that keeps a displayable without its first element starts with that one missing. */
    lemma {:induction false} MissingAtStart(ops: seq<Op>, whole: seq<Op>) returns (j: nat)
      requires Sound() && Playable(Lists(), whole) && Playable(Lists(), ops) && ops <= whole && !HeadsShown(ops)
      ensures HeadMissing(whole, j, Join(Survivors(whole)))
    {
      var init, op := ops[..|ops| - 1], ops[|ops| - 1];
      if HeadsShown(init) {
        var i := OldUsed(init);
        j := NewUsed(init);
        ItemsAt(init);
        ItemsBefore(ops, whole);
        assert Items(ops)[j] == Item(elements[after[j]], true);
        assert before[i] == after[j];
        HeadNotSeen(i);
        NotAmongSurvivors(whole, i, elements[before[i]][0]);
      } else {
        j := MissingAtStart(init, whole);
      }
    }

    lemma {:induction false} HeadNotSeen(i: nat)
      requires Sound() && i < |before| && !HeadShown(i)
      ensures elements[before[i]] != [] && elements[before[i]][0] in elements[before[i]] &&
              elements[before[i]][0] !in shown[i]
    {
    }

    /** No step puts it in: an added displayable is another one, and of a kept one only what follows
        its first element is put in. */
    lemma {:induction false} StaysMissing(done: seq<Op>, op: Op, ops: seq<Op>, j: nat, was: seq<Element>,
                                          now: seq<Element>)
      requires Sound() && Playable(Lists(), ops) && done + [op] <= ops && !op.Remove? && HeadMissing(ops, j, was)
      requires Playable(Lists(), done) && NewUsed(done) < |after|
      requires var own := elements[after[NewUsed(done)]];
               forall e :: e in now ==> e in was || (if op.Keep? then own != [] && e in own[1..] else e in own)
      ensures HeadMissing(ops, j, now)
    {
      var n, e := NewUsed(done), Items(ops)[j].elements[0];
      ItemsAt(ops);
      ItemsAt(done);
      ItemsBefore(done + [op], ops);
      assert (done + [op])[..|done|] == done;
      assert Items(done + [op])[n] == Item(elements[after[n]], op.Keep?);
      if j == n {
        assert NoDuplicates(elements[after[n]]);
      } else {
        OwnedOnce(e, j);
        assert e in elements[after[n]] ==> BelongsToNew(e, n, n + 1);
      }
    }

    /** The state of the second pass: what is laid out, or that a first element is missing. */
    ghost predicate Laying(done: seq<Op>, ops: seq<Op>, children: seq<Element>, anchor: Option<Element>)
      requires Sound() && Playable(Lists(), ops) && done <= ops
    {
      if HeadsShown(ops) then Laid(done, ops, children, anchor) else exists j: nat :: HeadMissing(ops, j, children)
    }

    lemma {:induction false} LayingAtStart(ops: seq<Op>, children: seq<Element>)
      requires Sound() && Playable(Lists(), ops) && children == Join(Survivors(ops))
      ensures [] <= ops && Laying([], ops, children, None)
    {
      if HeadsShown(ops) {
        LaidAtStart(ops, children);
      } else {
        var j := MissingAtStart(ops, ops);
        assert HeadMissing(ops, j, children);
      }
    }

    /** At its end the pass has laid out the items, or the child list is not the wanted one. */
    lemma {:induction false} LayingAtEnd(ops: seq<Op>, children: seq<Element>, anchor: Option<Element>)
      requires Sound() && Playable(Lists(), ops) && Laying(ops, ops, children, anchor)
      ensures if HeadsShown(ops) then children == Place(Items(ops)).upToAnchor + Place(Items(ops)).behind
              else children != Flat(Items(ops))
    {
      if HeadsShown(ops) {
        LaidAtEnd(ops, children, anchor);
      } else {
        var j: nat :| HeadMissing(ops, j, children);
        FlatHas(Items(ops), j);
        assert Items(ops)[j].elements[0] in Items(ops)[j].elements;
      }
    }

    lemma {:induction false} LaidAtStart(ops: seq<Op>, children: seq<Element>)
      requires Sound() && Playable(Lists(), ops) && children == Join(Survivors(ops))
      ensures [] <= ops && Laid([], ops, children, None)
    {
      StartOfScript(ops);
      AheadMembers([], ops);
      assert Survivors(ops)[0..] == Survivors(ops);
    }

    lemma {:induction false} LayingUnchanged(components: seq<Component>, t: nat, ops: seq<Op>, children: seq<Element>,
                                             anchor: Option<Element>, straight: bool)
      requires Sound() && ops == ScriptOf(components) && Playable(Lists(), ops) && Indexed(components)
      requires t < |components| && components[t].removed
      requires ScriptOf(components[..t]) <= ops &&
               (straight ==> Laying(ScriptOf(components[..t]), ops, children, anchor))
      ensures ScriptOf(components[..t + 1]) <= ops &&
              (straight ==> Laying(ScriptOf(components[..t + 1]), ops, children, anchor))
    {
      hide Playable, ScriptOf, Survivors, Items, Place, Sound, Indexed, HeadsShown, HeadMissing;
      NothingPlaced(components, t, ops);
    }

    lemma {:induction false} LaidAtEnd(ops: seq<Op>, children: seq<Element>, anchor: Option<Element>)
      requires Sound() && Playable(Lists(), ops) && Laid(ops, ops, children, anchor)
      ensures var p := Place(Items(ops)); children == p.upToAnchor + p.behind
    {
      assert Survivors(ops)[|Survivors(ops)|..] == [];
      assert Ahead(ops, ops) == [];
    }

    lemma {:induction false} FlatItems(ops: seq<Op>)
      requires Sound() && Playable(Lists(), ops)
      ensures AtMostTwo(Items(ops)) && NoDuplicates(Flat(Items(ops)))
      ensures NewUsed(ops) <= |after| && forall e :: e in Flat(Items(ops)) ==> BelongsToNew(e, 0, NewUsed(ops))
    {
      ItemsAt(ops);
      if ops != [] {
        var init, op := ops[..|ops| - 1], ops[|ops| - 1];
        FlatItems(init);
        if op.Remove? {
          assert Items(ops) == Items(init);
        } else {
          var n := NewUsed(init);
          assert Items(ops)[..|Items(init)|] == Items(init);
          forall e | e in elements[after[n]]
            ensures !BelongsToNew(e, 0, n)
          {
            OwnedOnce(e, n);
          }
          ConcatNoDuplicates(Flat(Items(init)), elements[after[n]]);
          forall e | e in Flat(Items(ops))
            ensures BelongsToNew(e, 0, NewUsed(ops))
          {
            Widen(e, 0, n, NewUsed(ops));
          }
        }
      }
    }

    /** The root's children when a prefix of the script has been through the first pass. */
    ghost predicate GoneBy(done: seq<Op>, ops: seq<Op>, was: seq<Element>, now: seq<Element>)
      requires Sound() && Playable(Lists(), ops) && done <= ops
    {
      AheadMembers(done, ops);
      now == Without(was, Gone(done))
    }

    lemma {:induction false} StartOfScript(ops: seq<Op>)
      requires Sound() && Playable(Lists(), ops)
      ensures [] <= ops && Gone([]) == {} && Items([]) == [] && Survivors([]) == []
    {
    }

    lemma {:induction false} NothingRemoved(components: seq<Component>, t: nat, ops: seq<Op>)
      requires Sound() && ops == ScriptOf(components) && Playable(Lists(), ops) && Indexed(components)
      requires t < |components| && !components[t].removed
      ensures ScriptOf(components[..t]) <= ops && ScriptOf(components[..t + 1]) <= ops
      ensures Playable(Lists(), ScriptOf(components[..t])) && Playable(Lists(), ScriptOf(components[..t + 1]))
      ensures Gone(ScriptOf(components[..t])) == Gone(ScriptOf(components[..t + 1]))
    {
      hide ScriptOf, Playable, Sound, Indexed, Gone, Repeat, Reached, Survivors;
      ScriptOfPrefix(components, t);
      ScriptOfPrefix(components, t + 1);
      AheadMembers(ScriptOf(components[..t]), ops);
      AheadMembers(ScriptOf(components[..t + 1]), ops);
      var first := ScriptOf(components[..t]);
      ReachedEnd(components, t);
      for p := 0 to components[t].count
        invariant Reached(components, t, p) <= ops && Playable(Lists(), Reached(components, t, p))
        invariant Gone(Reached(components, t, p)) == Gone(first)
      {
        ReachedNext(Lists(), components, t, p);
        StaysGone(Reached(components, t, p), components[t].Kind(), ops);
      }
    }

    lemma {:induction false} StaysGone(done: seq<Op>, op: Op, ops: seq<Op>)
      requires Sound() && Playable(Lists(), ops) && done + [op] <= ops && !op.Remove?
      ensures Playable(Lists(), done) && Playable(Lists(), done + [op]) && Gone(done + [op]) == Gone(done)
    {
      AheadMembers(done, ops);
      AheadMembers(done + [op], ops);
      assert (done + [op])[..|done|] == done;
    }

    lemma NothingPlaced(components: seq<Component>, t: nat, ops: seq<Op>)
      requires Sound() && ops == ScriptOf(components) && Playable(Lists(), ops) && Indexed(components)
      requires t < |components| && components[t].removed
      ensures ScriptOf(components[..t]) <= ops && ScriptOf(components[..t + 1]) <= ops
      ensures Playable(Lists(), ScriptOf(components[..t])) && Playable(Lists(), ScriptOf(components[..t + 1]))
      ensures Items(ScriptOf(components[..t])) == Items(ScriptOf(components[..t + 1]))
      ensures Survivors(ScriptOf(components[..t])) == Survivors(ScriptOf(components[..t + 1]))
    {
      hide ScriptOf, Playable, Sound, Indexed, Items, Survivors, Repeat, Reached, Gone;
      ScriptOfPrefix(components, t);
      ScriptOfPrefix(components, t + 1);
      AheadMembers(ScriptOf(components[..t]), ops);
      AheadMembers(ScriptOf(components[..t + 1]), ops);
      var first := ScriptOf(components[..t]);
      ReachedEnd(components, t);
      for p := 0 to components[t].count
        invariant Reached(components, t, p) <= ops && Playable(Lists(), Reached(components, t, p))
        invariant Items(Reached(components, t, p)) == Items(first)
        invariant Survivors(Reached(components, t, p)) == Survivors(first)
      {
        ReachedNext(Lists(), components, t, p);
        RemoveNext(Reached(components, t, p), ops);
      }
    }

    lemma {:induction false} RemoveNext(done: seq<Op>, ops: seq<Op>)
      requires Sound() && Playable(Lists(), ops) && done + [Remove] <= ops
      ensures Playable(Lists(), done) && Playable(Lists(), done + [Remove])
      ensures done <= ops && OldUsed(done) < |before| && OldUsed(done + [Remove]) == OldUsed(done) + 1
      ensures before[OldUsed(done)] in elements
      ensures Items(done + [Remove]) == Items(done) && Survivors(done + [Remove]) == Survivors(done)
      ensures Gone(done + [Remove]) == Gone(done) + (set e | e in elements[before[OldUsed(done)]])
    {
      AheadMembers(done, ops);
      AheadMembers(done + [Remove], ops);
      Snoc(Lists(), done, Remove);
      assert (done + [Remove])[..|done|] == done;
    }
  }

  ghost function LastOf(s: seq<Element>): Option<Element> {
    if s == [] then None else Some(s[|s| - 1])
  }

  lemma InsertNoDuplicates(s: seq<Element>, i: nat, e: Element)
    requires NoDuplicates(s) && i <= |s| && e !in s
    ensures NoDuplicates(s[..i] + [e] + s[i..])
  {
  }

  lemma {:induction false} WithoutOne(s: seq<Element>, i: nat)
    requires NoDuplicates(s) && i < |s|
    ensures Without(s, {s[i]}) == s[..i] + s[i + 1..]
  {
    hide NoDuplicates, Without;
    var before, after := s[..i], s[i + 1..];
    assert s == before + [s[i]] + after;
    OnlyOnce(s, i);
    WithoutConcat(before, [s[i]], {s[i]});
    WithoutConcat(before + [s[i]], after, {s[i]});
    WithoutStrangers(before, {s[i]});
    WithoutStrangers(after, {s[i]});
    WithoutSingle(s[i], {s[i]});
  }

  lemma {:induction false} OnlyOnce(s: seq<Element>, i: nat)
    requires NoDuplicates(s) && i < |s|
    ensures s[i] !in s[..i] && s[i] !in s[i + 1..]
  {
  }

  lemma SplitAt(head: seq<Element>, tail: seq<Element>)
    ensures (head + tail)[..|head|] == head && (head + tail)[|head|..] == tail
  {
  }

  ghost function OptionToSeq(element: Option<Element>): seq<Element> {
    if element.Some? then [element.value] else []
  }

  /** A part that shows the first element shows the first or both. */
  lemma {:induction false} HeadFirst(own: seq<Element>, seen: seq<Element>)
    requires PartShown(own, seen) && NoDuplicates(own) && (own == [] || (seen != [] && seen[0] == own[0]))
    ensures seen == own || (|own| == 2 && seen == own[..1] && own[1] !in seen)
  {
  }

  lemma OwnElements(r: Displayable, head: seq<Element>, tail: seq<Element>)
    requires NoDuplicates(r.Elements()) && forall e :: e in r.Elements() ==> e !in head && e !in tail
    ensures r.svgEl.Some? ==> r.svgEl.value !in head && r.svgEl.value !in tail
    ensures r.textSvgEl.Some? ==>
              r.textSvgEl.value !in head + OptionToSeq(r.svgEl) && r.textSvgEl.value !in tail
  {
    if r.svgEl.Some? {
      assert r.Elements()[0] == r.svgEl.value;
    }
    if r.textSvgEl.Some? {
      assert r.Elements()[|r.Elements()| - 1] == r.textSvgEl.value;
    }
  }

  /** Laying the elements of a displayable one after the other. */
  lemma {:induction false} LaidOneByOne(r: Displayable, head: seq<Element>, tail: seq<Element>)
    ensures head + OptionToSeq(r.svgEl) + OptionToSeq(r.textSvgEl) + tail == head + r.Elements() + tail
    ensures LastOf(head + r.Elements()) ==
            if r.textSvgEl.Some? then r.textSvgEl else if r.svgEl.Some? then r.svgEl else LastOf(head)
    ensures LastOf(head + OptionToSeq(r.svgEl)) == if r.svgEl.Some? then r.svgEl else LastOf(head)
    ensures r.textSvgEl.Some? ==> r.textSvgEl.value in head + r.Elements() + tail
    ensures forall e :: e in r.Elements() <==> r.svgEl == Some(e) || r.textSvgEl == Some(e)
  {
    assert head + OptionToSeq(r.svgEl) + OptionToSeq(r.textSvgEl) == head + r.Elements();
    if r.textSvgEl.Some? {
      assert (head + r.Elements() + tail)[|head + r.Elements()| - 1] == r.textSvgEl.value;
      assert r.Elements()[|r.Elements()| - 1] == r.textSvgEl.value;
    }
    if r.svgEl.Some? {
      assert r.Elements()[0] == r.svgEl.value;
    }
  }

  lemma {:induction false} ElementsAre(r: Displayable)
    ensures r.Elements() == [] <==> r.svgEl.None? && r.textSvgEl.None?
    ensures r.Elements() != [] ==> Some(r.Elements()[0]) == if r.svgEl.Some? then r.svgEl else r.textSvgEl
    ensures r.svgEl.Some? && r.textSvgEl.Some? ==> r.Elements()[1..] == [r.textSvgEl.value]
    ensures r.textSvgEl.None? ==> |r.Elements()| <= 1
  {
  }

  /** The text of a kept displayable is there already, or goes right behind its shape. */
  lemma {:induction false} ShownOrMissing(r: Displayable, head: seq<Element>, shown: seq<Element>, tail: seq<Element>)
    requires r.textSvgEl.Some?
    requires shown == r.Elements() ||
             (|r.Elements()| == 2 && shown == r.Elements()[..1] && r.Elements()[1] !in head + shown + tail)
    ensures var children := head + shown + tail;
            if shown == r.Elements() then
              r.textSvgEl.value in children
            else
              && r.svgEl.Some? && r.textSvgEl.value !in children
              && |head| < |children| && children[|head|] == r.svgEl.value
              && children[..|head| + 1] + [r.textSvgEl.value] + children[|head| + 1..] == head + r.Elements() + tail
  {
    var children := head + shown + tail;
    if shown == r.Elements() {
      assert children[|head| + |shown| - 1] == r.textSvgEl.value;
    } else {
      assert children[..|head| + 1] == head + shown && children[|head| + 1..] == tail;
      assert shown + [r.textSvgEl.value] == r.Elements();
    }
  }

  lemma AnchorMoves(head: seq<Element>, own: seq<Element>, tail: seq<Element>)
    requires own != []
    ensures head + own + tail == (head + own[..1]) + own[1..] + tail
    ensures LastOf(head + own[..1]) == Some(own[0])
  {
    assert own == own[..1] + own[1..];
  }

  lemma NotThereYet(own: seq<Element>, laid: seq<Element>, behind: seq<Element>, seen: seq<Element>, rest: seq<Element>)
    requires forall e :: e in own ==> e !in laid && e !in behind && e !in rest
    ensures |own| == 2 && own[1] !in seen ==> own[1] !in (laid + behind) + seen + rest
  {
    assert |own| == 2 ==> own[1] in own;
  }

  class Painter {
    var children: seq<Element>  // the child nodes of the svg root
    var visibleList: seq<Displayable>

    constructor ()
      ensures children == [] && visibleList == []
    {
      children, visibleList := [], [];
    }

    /** Puts an element behind another one unless it is in the root already. */
    method InsertAfter(element: Option<Element>, prev: Option<Element>)
      requires NoDuplicates(children)
      modifies this`children
      ensures NoDuplicates(children)
      ensures element.None? || prev.None? || element.value in old(children) ==> children == old(children)
      ensures Grown(old(children), children)
      ensures forall e :: e in children ==> e in old(children) || element == Some(e)
      ensures element.Some? && prev.Some? && element.value !in old(children) ==>
                forall i :: 0 <= i < |old(children)| && old(children)[i] == prev.value ==>
                  children == old(children)[..i + 1] + [element.value] + old(children)[i + 1..]
    {
      hide Grown, OnlyIn;
      GrownSame(children);
      if element.Some? && element.value !in children && prev.Some? {
        if prev.value in children {
          var i :| 0 <= i < |children| && children[i] == prev.value;
          InsertNoDuplicates(children, i + 1, element.value);
          GrownByOne(children, i + 1, element.value);
          children := children[..i + 1] + [element.value] + children[i + 1..];
        } else {
          InsertNoDuplicates(children, |children|, element.value);
          GrownByOne(children, |children|, element.value);
          assert children[..|children|] + [element.value] + children[|children|..] == children + [element.value];
          children := children + [element.value];
        }
      }
    }

    method Prepend(element: Option<Element>)
      requires NoDuplicates(children)
      modifies this`children
      ensures NoDuplicates(children)
      ensures Grown(old(children), children)
      ensures children == if element.Some? && element.value !in old(children) then [element.value] + old(children)
              else old(children)
    {
      GrownSame(children);
      if element.Some? && element.value !in children {
        InsertNoDuplicates(children, 0, element.value);
        GrownByOne(children, 0, element.value);
        assert children[..0] + [element.value] + children[0..] == [element.value] + children;
        children := [element.value] + children;
      }
    }

    method Remove(element: Option<Element>)
      requires NoDuplicates(children)
      modifies this`children
      ensures NoDuplicates(children)
      ensures children == Without(old(children), if element.Some? then {element.value} else {})
    {
      WithoutStrangers(children, {});
      if element.Some? && element.value in children {
        var i :| 0 <= i < |children| && children[i] == element.value;
        WithoutOne(children, i);
        WithoutMembers(children, {element.value});
        children := children[..i] + children[i + 1..];
      } else if element.Some? {
        WithoutStrangers(children, {element.value});
      }
    }

    /** Puts an element behind the given one, or in front of everything if there is none. */
    method PlaceOne(element: Option<Element>, prev: Option<Element>, ghost exact: bool, ghost head: seq<Element>,
                    ghost tail: seq<Element>)
      requires NoDuplicates(children)
      requires exact ==> children == head + tail && prev == LastOf(head)
      requires exact && element.Some? ==> element.value !in head && element.value !in tail
      modifies this`children
      ensures NoDuplicates(children) && (exact ==> children == head + OptionToSeq(element) + tail)
      ensures Grown(old(children), children)
      ensures forall e :: e in children ==> e in old(children) || element == Some(e)
    {
      hide Grown;
      SplitAt(head, tail);
      if prev.Some? {
        assert exact ==> children[|head| - 1] == prev.value;
        InsertAfter(element, prev);
      } else {
        Prepend(element);
      }
    }

    /** The second pass on an added displayable: its elements go right behind the anchor. It is exact as
        long as the anchor is in the root. */
    method PlaceAdded(r: Displayable, prev: Option<Element>, ghost exact: bool, ghost head: seq<Element>,
                      ghost tail: seq<Element>)
      returns (anchor: Option<Element>)
      requires NoDuplicates(children)
      requires exact ==> children == head + tail && prev == LastOf(head)
      requires exact ==> NoDuplicates(r.Elements()) && forall e :: e in r.Elements() ==> e !in head && e !in tail
      modifies this`children
      ensures NoDuplicates(children)
      ensures exact ==> children == head + r.Elements() + tail && anchor == LastOf(head + r.Elements())
      ensures Grown(old(children), children)
      ensures forall e :: e in children ==> e in old(children) || e in r.Elements()
    {
      hide NoDuplicates, LastOf, OptionToSeq, Displayable.Elements, Grown;
      var svgElement, textSvgElement := r.svgEl, r.textSvgEl;
      LaidOneByOne(r, head, tail);
      if exact {
        OwnElements(r, head, tail);
      }
      ghost var was := children;
      PlaceOne(svgElement, prev, exact, head, tail);
      ghost var head', shaped := head + OptionToSeq(svgElement), children;
      if svgElement.Some? {
        PlaceOne(textSvgElement, svgElement, exact, head', tail);
      } else {
        PlaceOne(textSvgElement, prev, exact, head', tail);
      }
      GrownMore(was, shaped, children);
      ghost var texted := children;
      InsertAfter(textSvgElement, svgElement);
      GrownMore(was, texted, children);
      anchor := if textSvgElement.Some? then textSvgElement else if svgElement.Some? then svgElement else prev;
    }

    /** The second pass on a kept displayable: a new text element goes behind the shape, and nothing
        else is put in. It is exact if the first element is in the root. */
    method TouchKept(r: Displayable, prev: Option<Element>, ghost exact: bool,
                     ghost head: seq<Element>, ghost shown: seq<Element>, ghost tail: seq<Element>)
      returns (anchor: Option<Element>)
      requires NoDuplicates(children)
      requires exact ==> children == head + shown + tail
      requires exact ==>
                 shown == r.Elements() ||
                   (|r.Elements()| == 2 && shown == r.Elements()[..1] && r.Elements()[1] !in children)
      modifies this`children
      ensures NoDuplicates(children)
      ensures exact ==> children == head + r.Elements() + tail
      ensures anchor == if r.Elements() == [] then prev else Some(r.Elements()[0])
      ensures Grown(old(children), children)
      ensures forall e :: e in children ==> e in old(children) || (r.Elements() != [] && e in r.Elements()[1..])
    {
      hide NoDuplicates, OptionToSeq, Displayable.Elements, Grown;
      GrownSame(children);
      var svgElement, textSvgElement := r.svgEl, r.textSvgEl;
      ElementsAre(r);
      if textSvgElement.Some? {
        if exact {
          ShownOrMissing(r, head, shown, tail);
        }
        InsertAfter(textSvgElement, svgElement);
      }
      anchor := if svgElement.Some? then svgElement else if textSvgElement.Some? then textSvgElement else prev;
    }

    method RemoveElements(r: Displayable, ghost was: seq<Element>, ghost gone: set<Element>)
      requires NoDuplicates(children) && children == Without(was, gone)
      modifies this`children
      ensures NoDuplicates(children) && children == Without(was, gone + set e | e in r.Elements())
    {
      hide Without, NoDuplicates;
      Remove(r.svgEl);
      Remove(r.textSvgEl);
      RemovedBoth(r, was, gone, old(children), children);
    }

    /** A run of removed displayables. */
    method RemovedRun(components: seq<Component>, t: nat, ghost plan: Repaint, ghost was: seq<Element>)
      requires plan.Sound() && NoDuplicates(children) && visibleList == plan.before
      requires forall d | d in plan.elements.Keys :: plan.elements[d] == d.Elements()
      requires Playable(plan.Lists(), ScriptOf(components)) && Indexed(components) && t < |components|
      requires components[t].removed && ScriptOf(components[..t]) <= ScriptOf(components)
      requires plan.GoneBy(ScriptOf(components[..t]), ScriptOf(components), was, children)
      modifies this`children
      ensures NoDuplicates(children) && ScriptOf(components[..t + 1]) <= ScriptOf(components)
      ensures plan.GoneBy(ScriptOf(components[..t + 1]), ScriptOf(components), was, children)
    {
      hide ScriptOf, Reached, Playable, NewUsed, OldUsed, Without, Repaint.Sound, Repaint.Gone, Repaint.Survivors,
           Repaint.Items,
           NoDuplicates, Indexed, Repeat;
      ghost var ops := ScriptOf(components);
      ReachedEnd(components, t);
      for p := 0 to components[t].count
        invariant NoDuplicates(children) && Reached(components, t, p) <= ops
        invariant plan.GoneBy(Reached(components, t, p), ops, was, children)
      {
        ReachedNext(plan.Lists(), components, t, p);
        plan.RemoveNext(Reached(components, t, p), ops);
        RemoveElements(visibleList[components[t].indices[p]], was, plan.Gone(Reached(components, t, p)));
      }
    }

    /** First pass: takes the elements of removed displayables out of the root. */
    method RemovalPass(components: seq<Component>, ghost plan: Repaint)
      requires plan.Sound() && NoDuplicates(children) && visibleList == plan.before
      requires forall d | d in plan.elements.Keys :: plan.elements[d] == d.Elements()
      requires Transforms(plan.Lists(), ScriptOf(components)) && Indexed(components)
      modifies this`children
      ensures NoDuplicates(children)
      ensures children == Without(old(children), plan.Gone(ScriptOf(components)))
    {
      hide ScriptOf, Reached, Playable, NewUsed, OldUsed, Without, Repaint.Sound, Repaint.Gone, Repaint.Survivors,
           NoDuplicates, Indexed;
      ghost var ops := ScriptOf(components);
      WithoutStrangers(children, {});
      plan.StartOfScript(ops);
      NothingUsed(components[..0]);
      for t := 0 to |components|
        invariant NoDuplicates(children) && ScriptOf(components[..t]) <= ops
        invariant plan.GoneBy(ScriptOf(components[..t]), ops, old(children), children)
      {
        if components[t].removed {
          RemovedRun(components, t, plan, old(children));
        } else {
          plan.NothingRemoved(components, t, ops);
        }
      }
      assert components[..|components|] == components;
    }

    /** One displayable of the second pass that the diff adds. */
    method AddedStep(r: Displayable, prev: Option<Element>, ghost plan: Repaint, ghost done: seq<Op>,
                     ghost ops: seq<Op>,
                     ghost straight: bool, ghost start: seq<Element>)
      returns (anchor: Option<Element>)
      requires plan.Sound() && NoDuplicates(children)
      requires Playable(plan.Lists(), ops) && done <= ops && done + [Add] <= ops
      requires (straight ==> plan.Laying(done, ops, children, prev)) && Filled(start, children, Flat(plan.Items(ops)))
      requires NewUsed(done) < |plan.after| && r == plan.after[NewUsed(done)] && r.Elements() == plan.elements[r]
      modifies this`children
      ensures NoDuplicates(children) && (straight ==> plan.Laying(done + [Add], ops, children, anchor))
      ensures Filled(start, children, Flat(plan.Items(ops)))
    {
      hide Playable, NewUsed, OldUsed, Place, Repaint.Items, Repaint.Survivors, Repaint.Ahead, NoDuplicates,
           Repaint.HeadsShown, Repaint.HeadMissing, Repaint.Sound, Filled, Grown;
      plan.AddNext(done, ops);
      plan.OwnOnce(r);
      ghost var exact, p, was := straight && plan.HeadsShown(ops), Place(plan.Items(done)), children;
      ghost var rest := p.behind + plan.Ahead(done, ops);
      assert exact ==> children == p.upToAnchor + rest;
      anchor := PlaceAdded(r, prev, exact, p.upToAnchor, rest);
      if exact {
        assert children == (p.upToAnchor + r.Elements()) + p.behind + plan.Ahead(done + [Add], ops);
      } else if straight {
        ghost var j: nat :| plan.HeadMissing(ops, j, was);
        plan.StaysMissing(done, Add, ops, j, was, children);
      }
      plan.OwnWanted(done, Add, ops);
      FilledMore(start, was, children, r.Elements(), Flat(plan.Items(ops)));
    }

    /** One displayable of the second pass that the diff keeps. */
    method KeptStep(r: Displayable, prev: Option<Element>, ghost plan: Repaint, ghost done: seq<Op>, ghost ops: seq<Op>,
                    ghost straight: bool, ghost start: seq<Element>)
      returns (anchor: Option<Element>)
      requires plan.Sound() && NoDuplicates(children)
      requires Playable(plan.Lists(), ops) && done <= ops && done + [Keep] <= ops
      requires (straight ==> plan.Laying(done, ops, children, prev)) && Filled(start, children, Flat(plan.Items(ops)))
      requires NewUsed(done) < |plan.after| && r == plan.after[NewUsed(done)] && r.Elements() == plan.elements[r]
      modifies this`children
      ensures NoDuplicates(children) && (straight ==> plan.Laying(done + [Keep], ops, children, anchor))
      ensures Filled(start, children, Flat(plan.Items(ops)))
    {
      hide Playable, NewUsed, OldUsed, Place, Repaint.Items, Repaint.Survivors, Repaint.Ahead,
           Repaint.Sound, NoDuplicates, Repaint.HeadsShown, Repaint.HeadMissing, Filled, Grown;
      plan.KeepNext(done, ops);
      ghost var exact, p, was := straight && plan.HeadsShown(ops), Place(plan.Items(done)), children;
      ghost var own, seen, rest := r.Elements(), plan.shown[OldUsed(done)], plan.Ahead(done + [Keep], ops);
      assert exact ==> children == (p.upToAnchor + p.behind) + seen + rest;
      if exact {
        HeadFirst(own, seen);
        NotThereYet(own, p.upToAnchor, p.behind, seen, rest);
      }
      anchor := TouchKept(r, prev, exact, p.upToAnchor + p.behind, seen, rest);
      if straight && !exact {
        ghost var j: nat :| plan.HeadMissing(ops, j, was);
        plan.StaysMissing(done, Keep, ops, j, was, children);
      } else if own != [] {
        AnchorMoves(p.upToAnchor + p.behind, own, rest);
      }
      plan.OwnWanted(done, Keep, ops);
      FilledMore(start, was, children, own, Flat(plan.Items(ops)));
    }

    /** A run of added displayables. */
    method AddedRun(components: seq<Component>, t: nat, list: seq<Displayable>, prev: Option<Element>,
                    ghost plan: Repaint,
                    ghost straight: bool, ghost start: seq<Element>)
      returns (anchor: Option<Element>)
      requires plan.Sound() && NoDuplicates(children) && list == plan.after
      requires forall d | d in plan.elements.Keys :: plan.elements[d] == d.Elements()
      requires Transforms(plan.Lists(), ScriptOf(components)) && Indexed(components) && t < |components|
      requires components[t].Kind() == Add && ScriptOf(components[..t]) <= ScriptOf(components)
      requires straight ==> plan.Laying(ScriptOf(components[..t]), ScriptOf(components), children, prev)
      requires Filled(start, children, Flat(plan.Items(ScriptOf(components))))
      modifies this`children
      ensures NoDuplicates(children) && ScriptOf(components[..t + 1]) <= ScriptOf(components)
      ensures straight ==> plan.Laying(ScriptOf(components[..t + 1]), ScriptOf(components), children, anchor)
      ensures Filled(start, children, Flat(plan.Items(ScriptOf(components))))
    {
      hide ScriptOf, Reached, Playable, NewUsed, OldUsed, Repaint.Sound, Repaint.Survivors, Repaint.Items,
           Repaint.Ahead, NoDuplicates, Indexed, Repaint.Laying, Place, Join, Filled;
      ghost var ops := ScriptOf(components);
      anchor := prev;
      ReachedEnd(components, t);
      for p := 0 to components[t].count
        invariant NoDuplicates(children) && Reached(components, t, p) <= ops
        invariant straight ==> plan.Laying(Reached(components, t, p), ops, children, anchor)
        invariant Filled(start, children, Flat(plan.Items(ops)))
      {
        ReachedNext(plan.Lists(), components, t, p);
        plan.AddNext(Reached(components, t, p), ops);
        anchor := AddedStep(list[components[t].indices[p]], anchor, plan, Reached(components, t, p), ops, straight,
                            start);
      }
    }

    /** A run of kept displayables. */
    method KeptRun(components: seq<Component>, t: nat, list: seq<Displayable>, prev: Option<Element>,
                   ghost plan: Repaint,
                   ghost straight: bool, ghost start: seq<Element>)
      returns (anchor: Option<Element>)
      requires plan.Sound() && NoDuplicates(children) && list == plan.after
      requires forall d | d in plan.elements.Keys :: plan.elements[d] == d.Elements()
      requires Transforms(plan.Lists(), ScriptOf(components)) && Indexed(components) && t < |components|
      requires components[t].Kind() == Keep && ScriptOf(components[..t]) <= ScriptOf(components)
      requires straight ==> plan.Laying(ScriptOf(components[..t]), ScriptOf(components), children, prev)
      requires Filled(start, children, Flat(plan.Items(ScriptOf(components))))
      modifies this`children
      ensures NoDuplicates(children) && ScriptOf(components[..t + 1]) <= ScriptOf(components)
      ensures straight ==> plan.Laying(ScriptOf(components[..t + 1]), ScriptOf(components), children, anchor)
      ensures Filled(start, children, Flat(plan.Items(ScriptOf(components))))
    {
      hide ScriptOf, Reached, Playable, NewUsed, OldUsed, Repaint.Sound, Repaint.Survivors, Repaint.Items,
           Repaint.Ahead, NoDuplicates, Indexed, Repaint.Laying, Place, Join, Filled;
      ghost var ops := ScriptOf(components);
      anchor := prev;
      ReachedEnd(components, t);
      for p := 0 to components[t].count
        invariant NoDuplicates(children) && Reached(components, t, p) <= ops
        invariant straight ==> plan.Laying(Reached(components, t, p), ops, children, anchor)
        invariant Filled(start, children, Flat(plan.Items(ops)))
      {
        ReachedNext(plan.Lists(), components, t, p);
        plan.KeepNext(Reached(components, t, p), ops);
        anchor := KeptStep(list[components[t].indices[p]], anchor, plan, Reached(components, t, p), ops, straight,
                           start);
      }
    }

    /** Second pass: walks the new visible displayables and puts the added ones in place. */
    method PlacementPass(components: seq<Component>, list: seq<Displayable>, ghost plan: Repaint)
      requires plan.Sound() && NoDuplicates(children) && list == plan.after
      requires forall d | d in plan.elements.Keys :: plan.elements[d] == d.Elements()
      requires Transforms(plan.Lists(), ScriptOf(components)) && Indexed(components)
      requires OneKindEach(components)
      modifies this`children
      ensures NoDuplicates(children)
      ensures var ops := ScriptOf(components); var p := Place(plan.Items(ops));
              old(children) == Join(plan.Survivors(ops)) ==>
                if plan.HeadsShown(ops) then children == p.upToAnchor + p.behind else children != Flat(plan.Items(ops))
      ensures Filled(old(children), children, Flat(plan.Items(ScriptOf(components))))
    {
      hide ScriptOf, Reached, Playable, NewUsed, OldUsed, Repaint.Sound, Repaint.Survivors, Repaint.Items,
           Repaint.Ahead, NoDuplicates, Indexed, Repaint.Laying, Place, Join, Filled;
      ghost var ops := ScriptOf(components);
      var prev: Option<Element> := None;
      NothingUsed(components[..0]);
      ghost var straight, start := children == Join(plan.Survivors(ops)), children;
      if straight {
        plan.LayingAtStart(ops, children);
      }
      FilledSame(children, Flat(plan.Items(ops)));
      for t := 0 to |components|
        invariant NoDuplicates(children) && ScriptOf(components[..t]) <= ops
        invariant straight ==> plan.Laying(ScriptOf(components[..t]), ops, children, prev)
        invariant Filled(start, children, Flat(plan.Items(ops)))
      {
        if components[t].added {
          prev := AddedRun(components, t, list, prev, plan, straight, start);
        } else if !components[t].removed {
          prev := KeptRun(components, t, list, prev, plan, straight, start);
        } else {
          plan.LayingUnchanged(components, t, ops, children, prev, straight);
        }
      }
      assert components[..|components|] == components;
      if straight {
        plan.LayingAtEnd(ops, children, prev);
      }
    }

    /** The displayables that are not marked as invisible. */
    method Visible(list: seq<Displayable>) returns (visible: seq<Displayable>)
      ensures visible == VisibleOf(list)
    {
      visible := [];
      assert list[..0] == [];
      for t := 0 to |list|
        invariant visible == VisibleOf(list[..t])
      {
        assert list[..t + 1][..t] == list[..t];
        if !list[t].invisible {
          visible := visible + [list[t]];
        }
      }
      assert list[..|list|] == list;
    }

    /** Repaints: both passes along the diff of the old and the new visible list. The child list is the
        wanted one if and only if every kept displayable has its first element in the document before,
        nothing is added right behind a kept one that has two, and what stays is in order. The child list
        may be in any order, such as an earlier repaint may have left it in. Which are kept is known
        beforehand: the diff finds DiffScript of the two lists. What stays keeps its order in any case,
        and nothing gets in that is not wanted. */
    method PaintList(list: seq<Displayable>, ghost shown: seq<seq<Element>>)
      returns (ghost plan: Repaint, ghost ops: seq<Op>, ghost places: seq<nat>)
      requires |shown| == |visibleList| && NoDuplicates(children) && SameMembers(children, Join(shown))
      requires Repaint(visibleList, VisibleOf(list), ElementsOf(visibleList + list), shown).Sound()
      modifies this
      ensures visibleList == VisibleOf(list)
      ensures HasVisible(list, places, visibleList)
      ensures plan == old(Repaint(visibleList, VisibleOf(list), ElementsOf(visibleList + list), shown))
      ensures plan.Sound() && Transforms(plan.Lists(), ops) && ops == DiffScript(plan.Lists())
      ensures forall other :: Transforms(plan.Lists(), other) ==> Cost(ops) <= Cost(other)
      ensures NoDuplicates(children)
      ensures children == plan.Wanted(|plan.after|) <==>
              plan.InOrder(ops, old(children)) && plan.HeadsShown(ops) && Orderly(plan.Items(ops))
      ensures plan.InOrder(ops, old(children)) && plan.HeadsShown(ops) ==>
                var p := Place(plan.Items(ops)); children == p.upToAnchor + p.behind
      ensures plan.InOrder(ops, old(children)) && plan.SingleInBoth() ==> children == plan.Wanted(|plan.after|)
      ensures old(children) == Join(shown) ==> plan.InOrder(ops, old(children))
      ensures Grown(Without(old(children), plan.Gone(ops)), children)
      ensures (forall e :: e in children ==> e in plan.Wanted(|plan.after|)) && plan.Repaintable(children)
    {
      hide ScriptOf, Playable, NewUsed, OldUsed, Repaint.Survivors, Repaint.Items, Place, Without, Cost, NoDuplicates,
           Repaint.Sound, Repaint.Gone, Orderly, AtMostTwo, Indexed, OneKindEach, Compact, Repaint.HeadsShown,
           Repaint.SingleInBoth, DiffScript,
           Join, Repaint.Wanted, VisibleOf, Flat, Filled, Grown, OnlyIn, Repaint.InOrder, SameMembers,
           Repaint.Repaintable, HasVisible;
      var visible := Visible(list);
      plan := Repaint(visibleList, visible, ElementsOf(visibleList + list), shown);
      var components := Diff(ByIdentity(visibleList, visible));
      ops := ScriptOf(components);
      plan.WhatStays(ops, children);
      RemovalPass(components, plan);
      ghost var stayed := children;
      PlacementPass(components, visible, plan);
      plan.RightIfOrderly(ops);
      plan.RightOnlyInOrder(ops, old(children), stayed, children);
      plan.WantedIsRepaintable(children);
      places := VisibleInOrder(list);
      visibleList := visible;
    }
  }

  /** The displayables of a list that are to be drawn. */
  ghost function VisibleOf(list: seq<Displayable>): seq<Displayable>
    reads list
  {
    if list == [] then []
    else VisibleOf(list[..|list| - 1]) + if list[|list| - 1].invisible then [] else [list[|list| - 1]]
  }

  /** The visible list has what stands in the list at the places of those that are not invisible, in order. */
  ghost predicate HasVisible(list: seq<Displayable>, places: seq<nat>, visible: seq<Displayable>)
    reads list
  {
    && (forall d :: d in visible ==> d in list && !d.invisible)
    && (forall d :: d in list && !d.invisible ==> d in visible)
    && (forall i :: 0 <= i < |list| ==> (i in places <==> !list[i].invisible))
    && |visible| == |places|
    && (forall j :: 0 <= j < |places| ==> places[j] < |list| && visible[j] == list[places[j]])
    && forall j, k :: 0 <= j < k < |places| ==> places[j] < places[k]
  }

  /** Where in the list they are. */
  lemma {:induction false} VisibleInOrder(list: seq<Displayable>) returns (places: seq<nat>)
    ensures HasVisible(list, places, VisibleOf(list))
  {
    places := VisiblePlaces(list);
    VisibleMembers(list);
    PickedMeans(list, places, VisibleOf(list));
    hide VisibleOf, Picked;
  }

  lemma {:induction false} VisiblePlaces(list: seq<Displayable>) returns (places: seq<nat>)
    ensures Picked(list, places, VisibleOf(list))
    ensures forall i: nat :: i in places <==> i < |list| && !list[i].invisible
  {
    if list == [] {
      places := [];
    } else {
      var init, last := list[..|list| - 1], list[|list| - 1];
      places := VisiblePlaces(init);
      PickedMore(init, places, VisibleOf(init), last);
      hide Picked;
      assert list == init + [last];
      assert last.invisible ==> VisibleOf(list) == VisibleOf(init);
      if !last.invisible {
        places := places + [|init|];
      }
    }
  }

  lemma {:induction false} VisibleMembers(list: seq<Displayable>)
    ensures forall d: Displayable :: d in VisibleOf(list) <==> d in list && !d.invisible
  {
    if list != [] {
      var init, last := list[..|list| - 1], list[|list| - 1];
      VisibleMembers(init);
      assert list == init + [last];
    }
  }

  ghost function ElementsOf(list: seq<Displayable>): map<Displayable, seq<Element>>
    reads list
  {
    map d | d in list :: d.Elements()
  }

  lemma RemovedBoth(r: Displayable, was: seq<Element>, gone: set<Element>, before: seq<Element>, now: seq<Element>)
    requires before == Without(was, gone)
    requires now == Without(Without(before, if r.svgEl.Some? then {r.svgEl.value} else {}),
                            if r.textSvgEl.Some? then {r.textSvgEl.value} else {})
    ensures now == Without(was, gone + (set e | e in r.Elements()))
  {
    hide Without;
    var a := if r.svgEl.Some? then {r.svgEl.value} else {};
    var b := if r.textSvgEl.Some? then {r.textSvgEl.value} else {};
    WithoutTwice(was, gone, a);
    WithoutTwice(was, gone + a, b);
    assert gone + a + b == gone + (set e | e in r.Elements()) by {
      assert forall e :: e in r.Elements() <==> e in a || e in b;
    }
  }

  // ---------------------------------------------------------------------------------
  // Repaints that go wrong

  lemma {:induction false} VisibleTwo(a: Displayable, x: Displayable)
    requires !a.invisible && !x.invisible
    ensures VisibleOf([a]) == [a] && VisibleOf([a, x]) == [a, x]
  {
    assert [a][..0] == [] && [] + [a] == [a];
    assert VisibleOf([a]) == [a];
    assert [a, x][..1] == [a] && [a] + [x] == [a, x];
  }

  /** The diff of a list with the same list and one more element. */
  lemma {:induction false} ScriptOfOneMore(a: Displayable, x: Displayable)
    requires a != x
    ensures DiffScript(ByIdentity([a], [a, x])) == [Keep, Add]
    ensures Playable(ByIdentity([a], [a, x]), [Keep, Add])
  {
    var l := ByIdentity([a], [a, x]);
    FollowedOneMore(l);
    hide NewUsed, OldUsed, Cost, Playable, Slide, Followed;
    assert Greedy(l, 0, 0) == Some([Keep]) && Greedy(l, 0, 1).None? && Greedy(l, 0, 2).None?;
    assert Chosen(l, Some([Keep]), None) == Some(Followed(l, [Keep] + [Add]));
    assert Greedy(l, 1, 1) == Some([Keep, Add]) && Goal(l) == 1;
    hide Greedy;
    assert ScriptFrom(l, 0) == ScriptFrom(l, 1) == [Keep, Add];
  }

  lemma {:induction false} FollowedOneMore(l: Lists<Displayable>)
    requires |l.before| == 1 && |l.after| == 2 && l.equals(l.after[0], l.before[0])
    ensures Followed(l, []) == [Keep] && Followed(l, [Keep] + [Add]) == [Keep, Add] == [Keep] + [Add]
    ensures NewUsed([Keep]) == 1 && NewUsed([Keep, Add]) == 2 && OldUsed([Keep, Add]) == 1 && Playable(l, [Keep, Add])
  {
    hide NewUsed, OldUsed, Cost, Playable, Slide;
    OneMoreUsed(l);
    OneMoreSlides(l);
    assert Repeat(Keep, 1) == [Keep] && Repeat(Keep, 0) == [];
  }

  lemma {:induction false} OneMoreUsed(l: Lists<Displayable>)
    requires |l.before| == 1 && |l.after| == 2 && l.equals(l.after[0], l.before[0])
    ensures [] + [Keep] == [Keep] && [Keep] + [Add] == [Keep, Add]
    ensures NewUsed([]) == OldUsed([]) == 0 && NewUsed([Keep]) == OldUsed([Keep]) == 1
    ensures NewUsed([Keep, Add]) == 2 && OldUsed([Keep, Add]) == 1 && Playable(l, [Keep, Add])
  {
    hide NewUsed, OldUsed, Cost, Playable;
    EmptyScript(l);
    Snoc(l, [], Keep);
    Snoc(l, [Keep], Add);
    assert [] + [Keep] == [Keep] && [Keep] + [Add] == [Keep, Add];
  }

  lemma {:induction false} OneMoreSlides(l: Lists<Displayable>)
    requires |l.before| == 1 && |l.after| == 2 && l.equals(l.after[0], l.before[0])
    ensures Slide(l, 0, 0) == 1 && Slide(l, 2, 1) == 2
  {
    assert Slide(l, 1, 1) == 1;
  }

  /** The displayables of a repaint own different elements. */
  lemma {:induction false} SoundRepaint(before: seq<Displayable>, after: seq<Displayable>, shown: seq<seq<Element>>)
    requires NoDuplicates(before) && NoDuplicates(after) && |shown| == |before|
    requires forall d | d in before + after :: NoDuplicates(d.Elements())
    requires forall d, d' | d in before + after && d' in before + after && d != d' ::
             Disjoint(d.Elements(), d'.Elements())
    requires forall i :: 0 <= i < |before| ==> PartShown(before[i].Elements(), shown[i])
    ensures Repaint(before, after, ElementsOf(before + after), shown).Sound()
  {
    hide NoDuplicates, Disjoint, PartShown;
    var both := before + after;
    assert forall i :: 0 <= i < |before| ==> both[i] == before[i];
    assert forall i :: 0 <= i < |after| ==> both[|before| + i] == after[i];
  }

  method PaintFirst(d: Displayable) returns (painter: Painter)
    requires !d.invisible && NoDuplicates(d.Elements())
    ensures fresh(painter) && painter.visibleList == [d] && painter.children == d.Elements()
  {
    hide Repaint.Sound, Repaint.HeadsShown, Repaint.Items, Repaint.Wanted, Orderly, Place, Flat, VisibleOf, ElementsOf,
         Playable, DiffScript, Join, Cost;
    hide Disjoint, PartShown, NoDuplicates, Displayable.Elements;
    painter := new Painter();
    VisibleOne(d);
    SoundFirst(d);
    JoinNone<Element>();
    ghost var plan, ops, _ := painter.PaintList([d], []);
    FirstPaint(plan, d);
  }

  lemma {:induction false} SoundFirst(d: Displayable)
    requires NoDuplicates(d.Elements())
    ensures Repaint([], [d], ElementsOf([] + [d]), []).Sound() && NoDuplicates<Element>([])
  {
    assert [] + [d] == [d];
    SoundRepaint([], [d], []);
  }

  /** A displayable with shape and text is painted, and then another one behind it: its shape lands
      between the shape and the text of the first. */
  method PaintBehindShapeAndText(a: Displayable, x: Displayable, shape: Element, text: Element, added: Element)
    returns (painter: Painter)
    requires a != x && !a.invisible && !x.invisible && shape != text && shape != added && text != added
    requires a.svgEl == Some(shape) && a.textSvgEl == Some(text) && x.svgEl == Some(added) && x.textSvgEl == None
    ensures painter.visibleList == [a, x]
    ensures painter.children == [shape, added, text]
  {
    assert a.Elements() == [shape, text] && x.Elements() == [added];
    hide Displayable.Elements;
    TwoDifferent(shape, text);
    painter := PaintFirst(a);
    PaintBehind(painter, a, x, shape, text, added);
  }

  method PaintBehind(painter: Painter, a: Displayable, x: Displayable, shape: Element, text: Element, added: Element)
    requires a != x && !a.invisible && !x.invisible && shape != text && shape != added && text != added
    requires a.Elements() == [shape, text] && x.Elements() == [added]
    requires painter.visibleList == [a] && painter.children == [shape, text]
    modifies painter
    ensures painter.visibleList == [a, x]
    ensures painter.children == [shape, added, text]
  {
    hide Repaint.Sound, Repaint.HeadsShown, Repaint.Items, Repaint.Wanted, Orderly, Place, VisibleOf, ElementsOf,
         Playable,
         DiffScript, Join, Cost, Displayable.Elements, NoDuplicates, Transforms;
    TwoDifferent(shape, text);
    VisibleTwo(a, x);
    JoinOne([shape, text]);
    ghost var owned := RepaintOfTwo(a, x, shape, text, added);
    ghost var plan, ops, _ := painter.PaintList([a, x], [[shape, text]]);
    LaidInBetween(plan, shape, text, added);
  }

  lemma {:induction false} TwoDifferent(a: Element, b: Element)
    requires a != b
    ensures NoDuplicates([a, b])
  {
  }

  lemma {:induction false} RepaintOfTwo(a: Displayable, x: Displayable, shape: Element, text: Element, added: Element)
    returns (owned: map<Displayable, seq<Element>>)
    requires a != x && shape != text && shape != added && text != added && a.Elements() == [shape, text] &&
             x.Elements() == [added]
    ensures owned == ElementsOf([a] + [a, x]) && Repaint([a], [a, x], owned, [[shape, text]]).Sound()
    ensures a in owned && owned[a] == [shape, text] && x in owned && owned[x] == [added]
  {
    hide Displayable.Elements, ElementsOf, Repaint.Sound;
    SoundRepaint([a], [a, x], [[shape, text]]);
    ElementsIn([a] + [a, x]);
    owned := ElementsOf([a] + [a, x]);
    assert a in [a] + [a, x] && ([a] + [a, x])[2] == x;
  }

  lemma {:induction false} LaidInBetween(plan: Repaint, shape: Element, text: Element, added: Element)
    requires plan.Sound() && |plan.before| == 1 && |plan.after| == 2 && plan.before[0] == plan.after[0] != plan.after[1]
    requires shape != text && shape != added && text != added && plan.shown == [[shape, text]]
    requires plan.elements[plan.after[0]] == [shape, text] && plan.elements[plan.after[1]] == [added]
    ensures Playable(plan.Lists(), DiffScript(plan.Lists()))
    ensures var ops := DiffScript(plan.Lists()); var p := Place(plan.Items(ops));
            plan.HeadsShown(ops) && p.upToAnchor + p.behind == [shape, added, text]
  {
    ScriptOfOneMore(plan.before[0], plan.after[1]);
    assert plan.before == [plan.before[0]] && plan.after == [plan.before[0], plan.after[1]];
    hide Repaint.Sound, Repaint.HeadsShown, Repaint.Items, Place, Flat, Playable, DiffScript, Orderly;
    KeepThenAdd(plan);
    AddedBehindShapeAndText(shape, text, added);
  }

  lemma {:induction false} ElementsIn(list: seq<Displayable>)
    ensures forall d :: d in list ==> d in ElementsOf(list) && ElementsOf(list)[d] == d.Elements()
  {
  }

  /** The first repaint of one displayable. */
  lemma {:induction false} FirstPaint(plan: Repaint, d: Displayable)
    requires plan.Sound() && plan.before == [] && plan.after == [d] && plan.elements == ElementsOf([] + [d])
    ensures plan.SingleInBoth() && plan.Wanted(1) == d.Elements()
  {
    WantedTwo(plan);
  }

  lemma {:induction false} JoinOne<T>(part: seq<T>)
    ensures Join([part]) == part
  {
    JoinNone<T>();
    JoinSnoc([], part);
    assert [] + [part] == [part] && [] + part == part;
  }

  lemma {:induction false} WantedTwo(plan: Repaint)
    requires plan.Sound() && |plan.after| <= 2
    ensures plan.Wanted(0) == []
    ensures |plan.after| >= 1 ==> plan.Wanted(1) == plan.elements[plan.after[0]]
    ensures |plan.after| == 2 ==> plan.Wanted(2) == plan.elements[plan.after[0]] + plan.elements[plan.after[1]]
  {
    assert |plan.after| >= 1 ==> [] + plan.elements[plan.after[0]] == plan.elements[plan.after[0]];
  }

  lemma {:induction false} KeepThenAdd(plan: Repaint)
    requires plan.Sound() && |plan.before| == 1 && |plan.after| == 2 && plan.before[0] == plan.after[0]
    requires Playable(plan.Lists(), [Keep, Add]) && plan.shown[0] == plan.elements[plan.before[0]]
    ensures plan.HeadsShown([Keep, Add])
    ensures plan.Items([Keep, Add]) ==
            [Item(plan.elements[plan.after[0]], true), Item(plan.elements[plan.after[1]], false)]
  {
    var first, second := Item(plan.elements[plan.after[0]], true), Item(plan.elements[plan.after[1]], false);
    Snoc(plan.Lists(), [], Keep);
    Snoc(plan.Lists(), [Keep], Add);
    EmptyScript(plan.Lists());
    assert [] + [Keep] == [Keep] && [Keep] + [Add] == [Keep, Add];
    assert [Keep, Add][..1] == [Keep] && [Keep][..0] == [];
    assert plan.Items([Keep]) == [first] && plan.HeadsShown([Keep]);
    assert plan.Items([Keep, Add]) == [first] + [second];
  }

  /** A displayable without elements is painted, gets its text, and is painted again: the text is not
      put into the document. */
  method PaintTextCreatedLater(t: Displayable, text: Element) returns (painter: Painter)
    requires !t.invisible && t.svgEl == None && t.textSvgEl == None
    modifies t`textSvgEl
    ensures painter.visibleList == [t] && t.Elements() == [text]
    ensures painter.children != t.Elements()
  {
    hide Repaint.Sound, Repaint.HeadsShown, Repaint.Items, Repaint.Wanted, Orderly, Place, Flat, VisibleOf, ElementsOf,
         Playable, DiffScript, Join, Cost;
    assert t.Elements() == [];
    painter := PaintFirst(t);
    t.textSvgEl := Some(text);
    VisibleOne(t);
    JoinOne<Element>([]);
    assert t.Elements() == [text];
    SoundRepaint([t], [t], [[]]);
    ElementsIn([t] + [t]);
    ghost var owned := ElementsOf([t] + [t]);
    assert t in owned && owned[t] == [text];
    ghost var plan, ops, _ := painter.PaintList([t], [[]]);
    assert plan == Repaint([t], [t], owned, [[]]);
    KeptWithout(t, plan, ops);
    WantedTwo(plan);
  }

  lemma {:induction false} VisibleOne(t: Displayable)
    requires !t.invisible
    ensures VisibleOf([t]) == [t]
  {
    assert [t][..0] == [] && [] + [t] == [t];
  }

  lemma {:induction false} KeptWithout(t: Displayable, plan: Repaint, ops: seq<Op>)
    requires plan.Sound() && plan.before == plan.after == [t] && plan.shown == [[]]
    requires t in plan.elements && plan.elements[t] != []
    requires ops == DiffScript(plan.Lists()) && Playable(plan.Lists(), ops)
    ensures !plan.HeadsShown(ops)
  {
    var l := plan.Lists();
    assert Slide(l, 0, 0) == 1;
    WholeScript(l);
    assert ops == [Keep] && ops[..0] == [];
  }
}
