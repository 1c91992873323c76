/** Squarified rows and exact tiling, functions `x` (its row loop), `M` and `I` of module "9ca8". */
module TreemapTiling {
  import opened RealSums

  datatype Rect = Rect(x: real, y: real, width: real, height: real)

  function AtLeastZero(a: real): real { if a >= 0.0 then a else 0.0 }

  function Start(r: Rect, alongX: bool): real { if alongX then r.x else r.y }

  function Extent(r: Rect, alongX: bool): real { if alongX then r.width else r.height }

  function Area(r: Rect): real { Product(r.width, r.height) }

  /** A rectangle from its start and extent along one axis and across it. */
  function Box(alongX: bool, start: real, extent: real, startAcross: real, extentAcross: real): Rect {
    if alongX then Rect(start, startAcross, extent, extentAcross) else Rect(startAcross, start, extentAcross, extent)
  }

  function Total(areas: seq<real>): real {
    if areas == [] then 0.0 else Total(areas[..|areas| - 1]) + areas[|areas| - 1]
  }

  lemma {:induction false} TotalConcat(a: seq<real>, b: seq<real>)
    ensures Total(a + b) == Total(a) + Total(b)
  {
    if b == [] {
      assert a + b == a;
    } else {
      TotalConcat(a, b[..|b| - 1]);
      assert (a + b)[..|a + b| - 1] == a + b[..|b| - 1];
    }
  }

  lemma {:induction false} TotalNonNegative(a: seq<real>)
    requires forall i :: 0 <= i < |a| ==> a[i] >= 0.0
    ensures Total(a) >= 0.0
    ensures forall i :: 0 <= i < |a| ==> a[i] <= Total(a)
  {
    if a != [] {
      TotalNonNegative(a[..|a| - 1]);
    }
  }

  // ---------------------------------------------------------------------------------
  // Points

  /** Rectangles are half open, so that neighbours share no point. */
  predicate In(r: Rect, px: real, py: real) {
    r.x <= px < r.x + r.width && r.y <= py < r.y + r.height
  }

  function Ind(r: Rect, px: real, py: real): nat { if In(r, px, py) then 1 else 0 }

  /** In how many of the rectangles the point lies. */
  ghost function Hits(rects: seq<Rect>, px: real, py: real): nat {
    if rects == [] then 0 else Hits(rects[..|rects| - 1], px, py) + Ind(rects[|rects| - 1], px, py)
  }

  /** Every point of the container lies in one rectangle only, every other point in none. */
  ghost predicate Tiles(rects: seq<Rect>, container: Rect) {
    forall px, py :: Hits(rects, px, py) == Ind(container, px, py)
  }

  lemma {:induction false} HitsOne(rects: seq<Rect>, i: nat, px: real, py: real)
    requires i < |rects| && In(rects[i], px, py)
    ensures Hits(rects, px, py) >= 1
  {
    if i < |rects| - 1 {
      HitsOne(rects[..|rects| - 1], i, px, py);
    }
  }

  lemma {:induction false} HitsTwo(rects: seq<Rect>, i: nat, j: nat, px: real, py: real)
    requires i < j < |rects| && In(rects[i], px, py) && In(rects[j], px, py)
    ensures Hits(rects, px, py) >= 2
  {
    if j < |rects| - 1 {
      HitsTwo(rects[..|rects| - 1], i, j, px, py);
    } else {
      HitsOne(rects[..|rects| - 1], i, px, py);
    }
  }

  lemma {:induction false} HitFound(rects: seq<Rect>, px: real, py: real) returns (i: nat)
    requires Hits(rects, px, py) >= 1
    ensures i < |rects| && In(rects[i], px, py)
  {
    if In(rects[|rects| - 1], px, py) {
      i := |rects| - 1;
    } else {
      i := HitFound(rects[..|rects| - 1], px, py);
    }
  }

  /** What tiling says of each point and each pair of rectangles. */
  lemma TilingMeans(rects: seq<Rect>, container: Rect, px: real, py: real)
    requires Tiles(rects, container)
    ensures In(container, px, py) <==> exists i :: 0 <= i < |rects| && In(rects[i], px, py)
    ensures forall i, j :: 0 <= i < j < |rects| ==> !(In(rects[i], px, py) && In(rects[j], px, py))
  {
    assert Hits(rects, px, py) == Ind(container, px, py);
    if In(container, px, py) {
      var i := HitFound(rects, px, py);
    }
    forall i | 0 <= i < |rects| && In(rects[i], px, py)
      ensures In(container, px, py)
    {
      HitsOne(rects, i, px, py);
    }
    forall i, j | 0 <= i < j < |rects|
      ensures !(In(rects[i], px, py) && In(rects[j], px, py))
    {
      if In(rects[i], px, py) && In(rects[j], px, py) {
        HitsTwo(rects, i, j, px, py);
      }
    }
  }

  /** The first part of a rectangle cut at s along an axis. */
  function Head(r: Rect, alongX: bool, s: real): Rect {
    if alongX then Rect(r.x, r.y, s, r.height) else Rect(r.x, r.y, r.width, s)
  }

  function Tail(r: Rect, alongX: bool, s: real): Rect {
    if alongX then Rect(r.x + s, r.y, r.width - s, r.height) else Rect(r.x, r.y + s, r.width, r.height - s)
  }

  lemma Cut(r: Rect, alongX: bool, s: real, px: real, py: real)
    requires 0.0 <= s <= Extent(r, alongX)
    ensures Ind(r, px, py) == Ind(Head(r, alongX, s), px, py) + Ind(Tail(r, alongX, s), px, py)
  {
  }

  // ---------------------------------------------------------------------------------
  // How stretched a row is

  datatype Ext = Finite(value: real) | Infinite

  predicate AtMost(a: Ext, b: Ext) {
    b.Infinite? || (a.Finite? && a.value <= b.value)
  }

  /** The greatest area; areas of 0 do not matter. */
  function Largest(row: seq<real>): real {
    if row == [] then 0.0
    else
      var rest, last := Largest(row[..|row| - 1]), row[|row| - 1];
      if last != 0.0 && last > rest then last else rest
  }

  /** The smallest area other than 0. */
  function Smallest(row: seq<real>): Ext {
    if row == [] then Infinite
    else
      var rest, last := Smallest(row[..|row| - 1]), row[|row| - 1];
      if last != 0.0 && !AtMost(rest, Finite(last)) then Finite(last) else rest
  }

  function WorstOf(row: seq<real>, side: real, ratio: real): Ext {
    Stretched(Largest(row), Smallest(row), Wanted(side, ratio), Square(Total(row)))
  }

  function Square(x: real): real { Product(x, x) }

  function Wanted(side: real, ratio: real): real { Product(Square(side), ratio) }

  function Over(x: real, y: real): real
    requires y != 0.0
  {
    x / y
  }

  /** The formula on the extremes of the row. */
  function Stretched(most: real, least: Ext, c: real, l: real): Ext {
    if l == 0.0 || least.Infinite? || Product(c, least.value) == 0.0 then Infinite
    else Finite(Max(Over(Product(c, most), l), Over(l, Product(c, least.value))))
  }

  method Worst(row: seq<real>, area: real, side: real, ratio: real) returns (worst: Ext)
    requires area == Total(row)
    ensures worst == WorstOf(row, side, ratio)
  {
    hide Stretched;
    var most, least := 0.0, Infinite;
    for r := 0 to |row|
      invariant most == Largest(row[..r]) && least == Smallest(row[..r])
    {
      assert row[..r + 1][..r] == row[..r];
      var n := row[r];
      if n != 0.0 {
        if !AtMost(least, Finite(n)) {
          least := Finite(n);
        }
        if n > most {
          most := n;
        }
      }
    }
    assert row[..|row|] == row;
    worst := Stretched(most, least, Wanted(side, ratio), Square(area));
  }

  lemma {:induction false} Extremes(row: seq<real>)
    requires forall i :: 0 <= i < |row| ==> row[i] >= 0.0
    ensures Largest(row) >= 0.0 && forall i :: 0 <= i < |row| ==> row[i] <= Largest(row)
    ensures Smallest(row).Finite? ==> Smallest(row).value > 0.0
    ensures forall i :: 0 <= i < |row| && row[i] != 0.0 ==>
              AtMost(Smallest(row), Finite(row[i])) && Smallest(row).Finite?
    ensures Largest(row) > 0.0 ==> Largest(row) in row
    ensures Smallest(row).Finite? ==> Smallest(row).value in row
    ensures Smallest(row).Infinite? ==> Total(row) == 0.0
  {
    if row != [] {
      var init := row[..|row| - 1];
      Extremes(init);
      assert forall i :: 0 <= i < |init| ==> init[i] == row[i];
      assert Largest(init) <= Largest(row) && row[|row| - 1] <= Largest(row);
    }
  }

  /** How far a cell of this area is from the wanted proportions, either way. */
  function Stretch(a: real, c: real, l: real): real
    requires Product(c, a) != 0.0 && l != 0.0
  {
    Max(Over(Product(c, a), l), Over(l, Product(c, a)))
  }

  lemma Positive(x: real, y: real)
    requires x > 0.0 && y > 0.0
    ensures Product(x, y) > 0.0
  {
  }

  lemma OverTimes(x: real, y: real)
    requires y > 0.0
    ensures Product(Over(x, y), y) == x
  {
  }

  lemma OverOrder(x: real, y: real, l: real)
    requires x <= y && l > 0.0
    ensures Over(x, l) <= Over(y, l)
  {
    hide Over;
    OverTimes(x, l);
    OverTimes(y, l);
    if Over(x, l) > Over(y, l) {
      Positive(Over(x, l) - Over(y, l), l);
    }
  }

  lemma OverPositive(l: real, x: real)
    requires l > 0.0 && x > 0.0
    ensures Over(l, x) > 0.0
  {
    hide Over;
    OverTimes(l, x);
    if Over(l, x) <= 0.0 {
      ProductOrder(Over(l, x), 0.0, x);
    }
  }

  lemma OverAgainst(x: real, y: real, l: real)
    requires 0.0 < x <= y && l > 0.0
    ensures Over(l, y) <= Over(l, x)
  {
    hide Over;
    OverTimes(l, x);
    OverTimes(l, y);
    OverPositive(l, y);
    if Over(l, y) > Over(l, x) {
      Positive(Over(l, y) - Over(l, x), x);
      ProductOrder(x, y, Over(l, y));
    }
  }

  lemma StretchBetween(a: real, least: real, most: real, c: real, l: real)
    requires 0.0 < least <= a <= most && c > 0.0 && l > 0.0
    ensures Product(c, least) > 0.0 && Product(c, a) > 0.0
    ensures Over(Product(c, a), l) <= Over(Product(c, most), l) && Over(l, Product(c, a)) <= Over(l, Product(c, least))
  {
    hide Over;
    Positive(c, a);
    Positive(c, least);
    ProductOrder(a, most, c);
    ProductOrder(least, a, c);
    OverOrder(Product(c, a), Product(c, most), l);
    OverAgainst(Product(c, least), Product(c, a), l);
  }

  lemma WantedPositive(side: real, ratio: real, area: real)
    requires side > 0.0 && ratio > 0.0 && area > 0.0
    ensures Wanted(side, ratio) > 0.0 && Square(area) > 0.0
  {
    hide Product;
    Positive(side, side);
    Positive(Square(side), ratio);
    Positive(area, area);
  }

  /** The formula on the extremes is the worst stretch of all cells in the row. */
  lemma {:induction false} WorstIsGreatest(row: seq<real>, side: real, ratio: real)
    requires (forall i :: 0 <= i < |row| ==> row[i] >= 0.0) && Total(row) > 0.0 && side > 0.0 && ratio > 0.0
    ensures WorstOf(row, side, ratio).Finite? && Square(Total(row)) > 0.0
    ensures forall i :: 0 <= i < |row| && row[i] > 0.0 ==>
              Product(Wanted(side, ratio), row[i]) > 0.0 &&
              Stretch(row[i], Wanted(side, ratio), Square(Total(row))) <= WorstOf(row, side, ratio).value
    ensures exists i :: 0 <= i < |row| && row[i] > 0.0 && Product(Wanted(side, ratio), row[i]) > 0.0 &&
              Stretch(row[i], Wanted(side, ratio), Square(Total(row))) == WorstOf(row, side, ratio).value
  {
    hide Stretch, Wanted, Square, Total, Largest, Smallest, Product;
    WantedPositive(side, ratio, Total(row));
    Extremes(row);
    WorstOfAll(row, Largest(row), Smallest(row).value, Wanted(side, ratio), Square(Total(row)));
  }

  lemma WorstOfAll(row: seq<real>, most: real, least: real, c: real, l: real)
    requires c > 0.0 && l > 0.0 && most in row && least in row && 0.0 < least
    requires forall i :: 0 <= i < |row| && row[i] != 0.0 ==> least <= row[i] <= most
    requires forall i :: 0 <= i < |row| ==> 0.0 <= row[i] <= most
    ensures Stretched(most, Finite(least), c, l).Finite?
    ensures forall i :: 0 <= i < |row| && row[i] > 0.0 ==>
              Product(c, row[i]) > 0.0 && Stretch(row[i], c, l) <= Stretched(most, Finite(least), c, l).value
    ensures exists i :: 0 <= i < |row| && row[i] > 0.0 && Product(c, row[i]) > 0.0 &&
              Stretch(row[i], c, l) == Stretched(most, Finite(least), c, l).value
  {
    hide Product, Over;
    StretchBetween(most, least, most, c, l);
    StretchBetween(least, least, most, c, l);
    forall i | 0 <= i < |row| && row[i] > 0.0
      ensures Product(c, row[i]) > 0.0 && Stretch(row[i], c, l) <= Stretched(most, Finite(least), c, l).value
    {
      StretchBetween(row[i], least, most, c, l);
    }
    var i :| 0 <= i < |row| && row[i] == most;
    var j :| 0 <= j < |row| && row[j] == least;
    assert Stretch(row[i], c, l) == Stretched(most, Finite(least), c, l).value ||
           Stretch(row[j], c, l) == Stretched(most, Finite(least), c, l).value;
  }

  /** Stretch in terms of the cell's sides: along the row, and across it. */
  lemma StretchOfCell(along: real, across: real, side: real, ratio: real, a: real, area: real)
    requires along > 0.0 && across > 0.0 && side > 0.0 && ratio > 0.0
    requires Product(along, across) == a && Product(across, side) == area
    ensures a > 0.0 && Square(area) > 0.0
    ensures Over(Product(Wanted(side, ratio), a), Square(area)) == Over(Product(ratio, along), across)
    ensures ratio * along > 0.0 && Product(Wanted(side, ratio), a) > 0.0
    ensures var stretch := Stretch(a, Wanted(side, ratio), Square(area));
            && ratio * along / across <= stretch && across / (ratio * along) <= stretch
            && (stretch == ratio * along / across || stretch == across / (ratio * along))
  {
    CellProportion(along, across, side, ratio, a, area);
    WantedPositive(side, ratio, area);
    hide Wanted, Square;
    Positive(ratio, along);
    Positive(along, across);
    Positive(Wanted(side, ratio), a);
    Upside(Product(Wanted(side, ratio), a), Square(area), ratio * along, across);
  }

  /** Equal quotients are equal upside down. */
  lemma Upside(p: real, q: real, r: real, s: real)
    requires p > 0.0 && q > 0.0 && r > 0.0 && s > 0.0 && p / q == r / s
    ensures q / p == s / r
  {
    var x := p / q;
    assert x * q == p && x * s == r;
    assert q * (x * s) == s * (x * q);
    CrossEqual(q, p, s, r);
  }

  lemma CellProportion(along: real, across: real, side: real, ratio: real, a: real, area: real)
    requires along > 0.0 && across > 0.0 && side > 0.0 && ratio > 0.0
    requires Product(along, across) == a && Product(across, side) == area
    ensures a > 0.0 && area > 0.0 && Square(area) > 0.0
    ensures Over(Product(Wanted(side, ratio), a), Square(area)) == Over(Product(ratio, along), across)
  {
    Positive(along, across);
    Positive(across, side);
    Positive(area, area);
    assert Product(Product(Wanted(side, ratio), a), across) == Product(Product(ratio, along), Square(area)) by {
      assert side * side * ratio * (along * across) * across == ratio * along * ((across * side) * (across * side));
    }
    hide Product, Over, Wanted, Square;
    CrossEqual(Product(Wanted(side, ratio), a), Square(area), Product(ratio, along), across);
  }

  lemma CrossEqual(p: real, q: real, r: real, s: real)
    requires q > 0.0 && s > 0.0 && Product(p, s) == Product(r, q)
    ensures Over(p, q) == Over(r, s)
  {
    var u, v := p / q, r / s;
    assert u * q == p && v * s == r;
    assert u * q * s == v * s * q;
    assert (u - v) * (q * s) == 0.0;
    Positive(q, s);
  }

  // ---------------------------------------------------------------------------------
  // Placing a row

  /** The child's rectangle in its cell: half a gap off each side, as far as there is room. */
  function Inset(cell: Rect, half: real): Rect {
    var w, h := AtLeastZero(cell.width - 2.0 * half), AtLeastZero(cell.height - 2.0 * half);
    Rect(cell.x + Min(half, w / 2.0), cell.y + Min(half, h / 2.0), w, h)
  }

  ghost predicate Inside(inner: Rect, outer: Rect) {
    && outer.x <= inner.x && inner.x + inner.width <= outer.x + outer.width
    && outer.y <= inner.y && inner.y + inner.height <= outer.y + outer.height
  }

  lemma InsetInside(cell: Rect, half: real)
    requires half >= 0.0 && cell.width >= 0.0 && cell.height >= 0.0
    ensures Inside(Inset(cell, half), cell)
    ensures cell.width >= 4.0 * half && cell.height >= 4.0 * half ==>
              Inset(cell, half) == Rect(cell.x + half, cell.y + half, cell.width - 2.0 * half, cell.height - 2.0 * half)
    ensures var box := Inset(cell, half);
            && box.width == (if cell.width > 2.0 * half then cell.width - 2.0 * half else 0.0)
            && box.height == (if cell.height > 2.0 * half then cell.height - 2.0 * half else 0.0)
            && box.x - cell.x == (if box.width >= 2.0 * half then half else box.width / 2.0)
            && box.y - cell.y == (if box.height >= 2.0 * half then half else box.height / 2.0)
  {
  }

  /** The thickness of a row; the last one takes what is left. */
  function Thickness(area: real, side: real, rect: Rect, alongX: bool, last: bool): (r: real)
    ensures last ==> r == Extent(rect, !alongX)
    ensures !last && side == 0.0 && Extent(rect, !alongX) >= 0.0 ==> r == 0.0
  {
    var h := if side != 0.0 then area / side else 0.0;
    if last || h > Extent(rect, !alongX) then Extent(rect, !alongX) else h
  }

  lemma ThicknessFits(area: real, side: real, rect: Rect, alongX: bool, last: bool)
    requires side == Extent(rect, alongX) >= 0.0 && Extent(rect, !alongX) >= 0.0
    requires 0.0 <= area <= Area(rect) && (last ==> area == Area(rect))
    ensures 0.0 <= Thickness(area, side, rect, alongX, last) <= Extent(rect, !alongX)
    ensures Product(side, Thickness(area, side, rect, alongX, last)) == area
  {
    var across := Extent(rect, !alongX);
    assert Area(rect) == Product(side, across);
    if side != 0.0 {
      assert area / side * side == area;
      if area / side > across {
        Positive(area / side - across, side);
      }
      if area / side < 0.0 {
        Positive(-(area / side), side);
      }
    }
  }

  lemma CellFits(x: real, h: real, a: real, others: real, final: bool)
    requires x >= 0.0 && h >= 0.0 && a >= 0.0 && others >= 0.0 && Product(x, h) == a + others
    requires final ==> others == 0.0
    ensures var v := if h != 0.0 then a / h else 0.0;
            var size := if final || x < v then x else v;
            0.0 <= size <= x && Product(size, h) == a && Product(x - size, h) == others
  {
    if h != 0.0 {
      var v := a / h;
      assert v * h == a;
      if x < v {
        Positive(v - x, h);
      }
      if v < 0.0 {
        Positive(-v, h);
      }
    }
  }

  /** The cells of a row fill a slab from its start on, one after the other, with the row's areas. */
  ghost predicate RowCells(row: seq<real>, cells: seq<Rect>, slab: Rect, alongX: bool) {
    && |cells| == |row|
    && (forall j :: 0 <= j < |cells| ==> CellOf(cells[j], row[j], slab, alongX))
    && (cells != [] ==> Start(cells[0], alongX) == Start(slab, alongX))
    && (forall j, k :: 0 <= j < |cells| && k == j + 1 < |cells| ==>
        Start(cells[k], alongX) == Start(cells[j], alongX) + Extent(cells[j], alongX))
  }

  ghost predicate CellOf(cell: Rect, area: real, slab: Rect, alongX: bool) {
    && Area(cell) == area && cell.width >= 0.0 && cell.height >= 0.0
    && Extent(cell, !alongX) == Extent(slab, !alongX) && Start(cell, !alongX) == Start(slab, !alongX)
  }

  /** The cells placed so far, and what is left of the slab behind them. */
  ghost predicate Filling(row: seq<real>, p: nat, cells: seq<Rect>, left: Rect, slab: Rect, alongX: bool) {
    && p == |cells| <= |row| && RowCells(row[..p], cells, slab, alongX) && Splits(cells, left, slab)
    && Start(left, !alongX) == Start(slab, !alongX) && Extent(left, !alongX) == Extent(slab, !alongX)
    && Start(left, alongX) + Extent(left, alongX) == Start(slab, alongX) + Extent(slab, alongX)
    && Start(left, alongX) ==
       (if p == 0 then Start(slab, alongX) else Start(cells[p - 1], alongX) + Extent(cells[p - 1], alongX))
    && Extent(left, alongX) >= 0.0 &&
       Product(Extent(left, alongX), Extent(slab, !alongX)) == Total(row) - Total(row[..p])
  }

  lemma {:induction false} FillingStart(row: seq<real>, slab: Rect, alongX: bool)
    requires Extent(slab, alongX) >= 0.0 && Product(Extent(slab, alongX), Extent(slab, !alongX)) == Total(row)
    ensures Filling(row, 0, [], slab, slab, alongX)
  {
  }

  /** Placing one more cell. */
  lemma FillingStep(row: seq<real>, p: nat, cells: seq<Rect>, left: Rect, slab: Rect, alongX: bool, size: real)
    requires p < |row| && (forall i :: 0 <= i < |row| ==> row[i] >= 0.0) && Filling(row, p, cells, left, slab, alongX)
    requires Extent(slab, !alongX) >= 0.0
    requires var h := Extent(slab, !alongX); var v := if h != 0.0 then row[p] / h else 0.0;
             var x := Extent(left, alongX);
             size == if p == |row| - 1 || x < v then x else v
    ensures Filling(row, p + 1, cells + [Head(left, alongX, size)], Tail(left, alongX, size), slab, alongX)
    ensures p + 1 == |row| ==> Extent(Tail(left, alongX, size), alongX) == 0.0
    ensures Head(left, alongX, size).width >= 0.0 && Head(left, alongX, size).height >= 0.0
  {
    hide Splits, RowCells, Total, Product, Area;
    TotalTail(row, p);
    NothingLeft(row);
    var cell := Head(left, alongX, size);
    CellFits(Extent(left, alongX), Extent(slab, !alongX), row[p], Total(row[p + 1..]), p == |row| - 1);
    SplitCell(cells, left, slab, alongX, size);
    HeadArea(left, alongX, size);
    assert row[..p + 1] == row[..p] + [row[p]];
    RowCellsMore(row[..p], row[p], cells, cell, slab, alongX);
  }

  lemma HeadArea(r: Rect, alongX: bool, size: real)
    ensures Area(Head(r, alongX, size)) == Product(size, Extent(r, !alongX))
  {
  }

  lemma NothingLeft(row: seq<real>)
    ensures Total(row[|row|..]) == 0.0
  {
  }

  lemma RowCellsMore(row: seq<real>, area: real, cells: seq<Rect>, cell: Rect, slab: Rect, alongX: bool)
    requires RowCells(row, cells, slab, alongX) && CellOf(cell, area, slab, alongX)
    requires Start(cell, alongX) ==
             if cells == [] then Start(slab, alongX)
               else Start(cells[|cells| - 1], alongX) + Extent(cells[|cells| - 1], alongX)
    ensures RowCells(row + [area], cells + [cell], slab, alongX)
  {
    hide CellOf, Start, Extent;
  }

  /** The cells, and what is left of the rectangle, split up the points of the whole. */
  ghost predicate Splits(cells: seq<Rect>, rest: Rect, whole: Rect) {
    forall px, py :: Hits(cells, px, py) + Ind(rest, px, py) == Ind(whole, px, py)
  }

  lemma SplitNone(rect: Rect)
    ensures Splits([], rect, rect)
  {
  }

  lemma SplitCell(cells: seq<Rect>, rest: Rect, whole: Rect, alongX: bool, size: real)
    requires Splits(cells, rest, whole) && 0.0 <= size <= Extent(rest, alongX)
    ensures Splits(cells + [Head(rest, alongX, size)], Tail(rest, alongX, size), whole)
  {
    var now := cells + [Head(rest, alongX, size)];
    assert now[..|now| - 1] == cells;
    forall px, py
      ensures Hits(now, px, py) + Ind(Tail(rest, alongX, size), px, py) == Ind(whole, px, py)
    {
      assert Hits(cells, px, py) + Ind(rest, px, py) == Ind(whole, px, py);
      Cut(rest, alongX, size, px, py);
    }
  }

  lemma {:induction false} HitsConcat(a: seq<Rect>, b: seq<Rect>, px: real, py: real)
    ensures Hits(a + b, px, py) == Hits(a, px, py) + Hits(b, px, py)
  {
    if b == [] {
      assert a + b == a;
    } else {
      HitsConcat(a, b[..|b| - 1], px, py);
      assert (a + b)[..|a + b| - 1] == a + b[..|b| - 1];
    }
  }

  /** A row that splits up its slab to the last point leaves the rest of the rectangle. */
  lemma SplitRow(cells: seq<Rect>, none: Rect, rect: Rect, alongX: bool, h: real)
    requires Splits(cells, none, Head(rect, !alongX, h)) && Extent(none, alongX) == 0.0 &&
             0.0 <= h <= Extent(rect, !alongX)
    ensures Splits(cells, Tail(rect, !alongX, h), rect)
  {
    hide Hits;
    forall px, py
      ensures Hits(cells, px, py) + Ind(Tail(rect, !alongX, h), px, py) == Ind(rect, px, py)
    {
      assert Hits(cells, px, py) + Ind(none, px, py) == Ind(Head(rect, !alongX, h), px, py);
      Cut(rect, !alongX, h, px, py);
    }
  }

  lemma SplitMore(before: seq<Rect>, rest: Rect, whole: Rect, cells: seq<Rect>, rest': Rect)
    requires Splits(before, rest, whole) && Splits(cells, rest', rest)
    ensures Splits(before + cells, rest', whole)
  {
    hide Ind;
    forall px, py
      ensures Hits(before + cells, px, py) + Ind(rest', px, py) == Ind(whole, px, py)
    {
      HitsConcat(before, cells, px, py);
      assert Hits(before, px, py) + Ind(rest, px, py) == Ind(whole, px, py);
      assert Hits(cells, px, py) + Ind(rest', px, py) == Ind(rest, px, py);
    }
  }

  lemma {:induction false} TotalTail(row: seq<real>, p: nat)
    requires p < |row| && forall i :: 0 <= i < |row| ==> row[i] >= 0.0
    ensures Total(row) - Total(row[..p]) == row[p] + Total(row[p + 1..]) && Total(row[p + 1..]) >= 0.0
    ensures Total(row[..p + 1]) == Total(row[..p]) + row[p]
  {
    assert row[..p + 1][..p] == row[..p] && row == row[..p + 1] + row[p + 1..];
    TotalConcat(row[..p + 1], row[p + 1..]);
    TotalNonNegative(row[p + 1..]);
  }

  /** Fills a slab with the row's cells, and puts the children's rectangles into them. */
  method FillSlab(row: seq<real>, slab: Rect, along: bool, half: real)
    returns (boxes: seq<Rect>, cells: seq<Rect>, ghost left: Rect)
    requires row != [] && (forall i :: 0 <= i < |row| ==> row[i] >= 0.0) && half >= 0.0 && slab.width >= 0.0 &&
             slab.height >= 0.0
    requires Product(Extent(slab, along), Extent(slab, !along)) == Total(row)
    ensures Filling(row, |row|, cells, left, slab, along) && Extent(left, along) == 0.0
    ensures |boxes| == |row| && forall j :: 0 <= j < |boxes| ==>
              j < |cells| && boxes[j] == Inset(cells[j], half) && Inside(boxes[j], cells[j])
  {
    hide Filling, Product, Total, Inset, Inside;
    var h, end := Extent(slab, !along), Start(slab, along) + Extent(slab, along);
    var c := Start(slab, along);
    boxes, cells, left := [], [], slab;
    FillingStart(row, slab, along);
    for p := 0 to |row|
      invariant |boxes| == |cells| == p && forall j :: 0 <= j < p ==>
                  boxes[j] == Inset(cells[j], half) && Inside(boxes[j], cells[j])
      invariant Filling(row, p, cells, left, slab, along) && left == Box(along, c, end - c, Start(slab, !along), h)
      invariant p == |row| ==> Extent(left, along) == 0.0
    {
      var v := if h != 0.0 then row[p] / h else 0.0;
      var x := end - c;
      var size := if p == |row| - 1 || x < v then x else v;
      var cell := Box(along, c, size, Start(slab, !along), h);
      FillingStep(row, p, cells, left, slab, along, size);
      InsetInside(cell, half);
      boxes, cells, left := boxes + [Inset(cell, half)], cells + [cell], Tail(left, along, size);
      c := c + size;
    }
  }

  /** Places a row along the shorter side, or along the whole rectangle if it is the last. */
  method PlaceRow(row: seq<real>, area: real, side: real, rect: Rect, half: real, last: bool)
    returns (boxes: seq<Rect>, rest: Rect, cells: seq<Rect>, ghost slab: Rect)
    requires row != [] && (forall i :: 0 <= i < |row| ==> row[i] >= 0.0) && area == Total(row) && half >= 0.0
    requires side == Min(rect.width, rect.height) >= 0.0 && area <= Area(rect) && (last ==> area == Area(rect))
    ensures slab == Head(rect, side != rect.width, Thickness(area, side, rect, side == rect.width, last))
    ensures rest == Tail(rect, side != rect.width, Thickness(area, side, rect, side == rect.width, last))
    ensures RowCells(row, cells, slab, side == rect.width) && Splits(cells, rest, rect)
    ensures |boxes| == |cells| && forall j :: 0 <= j < |boxes| ==>
              boxes[j] == Inset(cells[j], half) && Inside(boxes[j], cells[j])
    ensures rest.width >= 0.0 && rest.height >= 0.0 && Area(rest) == Area(rect) - area
  {
    hide Product, Splits, Thickness, Hits, Total, Inset, Inside;
    var along := side == rect.width;
    TotalNonNegative(row);
    ThicknessFits(area, side, rect, along, last);
    var h := Thickness(area, side, rect, along, last);
    ghost var left;
    boxes, cells, left := FillSlab(row, Head(rect, !along, h), along, half);
    slab := Head(rect, !along, h);
    rest := Tail(rect, !along, h);
    assert row[..|row|] == row;
    SplitRow(cells, left, rect, along, h);
    RestArea(rect, along, h);
  }

  lemma RestArea(rect: Rect, alongX: bool, h: real)
    ensures Area(Tail(rect, !alongX, h)) == Area(rect) - Product(Extent(rect, alongX), h)
  {
  }

  // ---------------------------------------------------------------------------------
  // Squarifying

  /** A row: the children from..to, the rectangle it was placed in, its slab and what remained. */
  datatype Row = Row(from: nat, to: nat, rect: Rect, slab: Rect, rest: Rect)

  function Side(rect: Rect): real { Min(rect.width, rect.height) }

  function WorstFrom(areas: seq<real>, from: nat, to: nat, rect: Rect, ratio: real): Ext
    requires from <= to <= |areas|
  {
    WorstOf(areas[from..to], Side(rect), ratio)
  }

  /** No child made the row worse, and the next one would have. */
  ghost predicate Greedy(areas: seq<real>, ratio: real, row: Row) {
    && row.from < row.to <= |areas|
    && (forall k, l :: row.from < k && l == k + 1 <= row.to ==>
          AtMost(WorstFrom(areas, row.from, l, row.rect, ratio), WorstFrom(areas, row.from, k, row.rect, ratio)))
    && (row.to < |areas| ==>
          !AtMost(WorstFrom(areas, row.from, row.to + 1, row.rect, ratio),
                  WorstFrom(areas, row.from, row.to, row.rect, ratio)))
  }

  /** The row's children fill its slab, cut off along the shorter side of its rectangle. */
  ghost predicate Laid(areas: seq<real>, cells: seq<Rect>, row: Row) {
    && row.from < row.to <= |areas| && row.to <= |cells|
    && var side, along := Side(row.rect), Side(row.rect) == row.rect.width;
       var h := Thickness(Total(areas[row.from..row.to]), side, row.rect, along, row.to == |areas|);
       && row.slab == Head(row.rect, !along, h) && row.rest == Tail(row.rect, !along, h)
       && RowCells(areas[row.from..row.to], cells[row.from..row.to], row.slab, along)
  }

  /** The rows take up the children in order, each in what the one before it left. */
  ghost predicate Chained(rows: seq<Row>, container: Rect, m: nat, rest: Rect) {
    if rows == [] then m == 0 && rest == container
    else
      var last := rows[|rows| - 1];
      last.to == m && last.rest == rest && Chained(rows[..|rows| - 1], container, last.from, last.rect)
  }

  ghost predicate RowsDone(areas: seq<real>, ratio: real, cells: seq<Rect>, rows: seq<Row>) {
    forall k :: 0 <= k < |rows| ==> Greedy(areas, ratio, rows[k]) && Laid(areas, cells, rows[k])
  }

  /** The first children are placed and the rest of the container is free. */
  ghost predicate Placed(areas: seq<real>, ratio: real, half: real, container: Rect, boxes: seq<Rect>, cells: seq<Rect>,
                         rest: Rect, rows: seq<Row>) {
    && |boxes| == |cells| <= |areas|
    && (forall j :: 0 <= j < |cells| ==>
        Area(cells[j]) == areas[j] && boxes[j] == Inset(cells[j], half) && Inside(boxes[j], cells[j]))
    && Splits(cells, rest, container) && Chained(rows, container, |cells|, rest) && RowsDone(areas, ratio, cells, rows)
    && rest.width >= 0.0 && rest.height >= 0.0 && Area(rest) == Total(areas[|cells|..])
  }

  /** The row being filled. */
  ghost predicate Growing(areas: seq<real>, ratio: real, from: nat, d: nat, rect: Rect, best: Ext) {
    && from <= d <= |areas|
    && (forall k, l :: from < k && l == k + 1 <= d ==>
          AtMost(WorstFrom(areas, from, l, rect, ratio), WorstFrom(areas, from, k, rect, ratio)))
    && best == if from == d then Infinite else WorstFrom(areas, from, d, rect, ratio)
  }

  lemma {:induction false} PlacedStart(areas: seq<real>, ratio: real, half: real, container: Rect)
    requires container.width >= 0.0 && container.height >= 0.0 && Total(areas) == Area(container)
    ensures Placed(areas, ratio, half, container, [], [], container, [])
  {
    assert areas[0..] == areas;
  }

  lemma RowTotals(areas: seq<real>, from: nat, to: nat)
    requires from <= to <= |areas| && forall i :: 0 <= i < |areas| ==> areas[i] >= 0.0
    ensures Total(areas[from..]) == Total(areas[from..to]) + Total(areas[to..])
    ensures Total(areas[from..to]) <= Total(areas[from..]) &&
            (to == |areas| ==> Total(areas[from..to]) == Total(areas[from..]))
  {
    assert areas[from..] == areas[from..to] + areas[to..];
    TotalConcat(areas[from..to], areas[to..]);
    TotalNonNegative(areas[to..]);
  }

  lemma CellsAppended(areas: seq<real>, half: real, boxes: seq<Rect>, cells: seq<Rect>, more: seq<Rect>,
                      moreCells: seq<Rect>, to: nat, slab: Rect, along: bool)
    requires |boxes| == |cells| && to == |cells| + |moreCells| <= |areas|
    requires forall j :: 0 <= j < |cells| ==>
               Area(cells[j]) == areas[j] && boxes[j] == Inset(cells[j], half) && Inside(boxes[j], cells[j])
    requires RowCells(areas[|cells|..to], moreCells, slab, along)
    requires |more| == |moreCells| && forall j :: 0 <= j < |more| ==>
               more[j] == Inset(moreCells[j], half) && Inside(more[j], moreCells[j])
    ensures forall j :: 0 <= j < to ==>
              Area((cells + moreCells)[j]) == areas[j] && (boxes + more)[j] == Inset((cells + moreCells)[j], half) &&
                Inside((boxes + more)[j], (cells + moreCells)[j])
  {
    hide Inset, Inside, Area;
    forall j | |cells| <= j < to
      ensures Area((cells + moreCells)[j]) == areas[j]
    {
      assert CellOf(moreCells[j - |cells|], areas[|cells|..to][j - |cells|], slab, along);
    }
  }

  lemma RowsKept(areas: seq<real>, ratio: real, cells: seq<Rect>, more: seq<Rect>, rows: seq<Row>, row: Row)
    requires RowsDone(areas, ratio, cells, rows) && Greedy(areas, ratio, row) && Laid(areas, cells + more, row)
    ensures RowsDone(areas, ratio, cells + more, rows + [row])
  {
    hide Greedy, Thickness, RowCells, Total;
    forall k | 0 <= k < |rows|
      ensures Laid(areas, cells + more, rows[k])
    {
      assert Laid(areas, cells, rows[k]);
      assert (cells + more)[rows[k].from..rows[k].to] == cells[rows[k].from..rows[k].to];
    }
  }

  /** Closes a row: places it, and goes on with what is left of the rectangle. */
  method CloseRow(areas: seq<real>, ratio: real, half: real, container: Rect, row: seq<real>, area: real, rect: Rect,
                  ghost best: Ext,
                  boxes0: seq<Rect>, cells0: seq<Rect>, ghost rows0: seq<Row>)
    returns (boxes: seq<Rect>, rest: Rect, cells: seq<Rect>, ghost rows: seq<Row>)
    requires (forall i :: 0 <= i < |areas| ==> areas[i] >= 0.0) && half >= 0.0
    requires Placed(areas, ratio, half, container, boxes0, cells0, rect, rows0)
    requires row != [] && |boxes0| + |row| <= |areas| && row == areas[|boxes0|..|boxes0| + |row|] && area == Total(row)
    requires Growing(areas, ratio, |boxes0|, |boxes0| + |row|, rect, best)
    requires |boxes0| + |row| < |areas| ==> !AtMost(WorstFrom(areas, |boxes0|, |boxes0| + |row| + 1, rect, ratio), best)
    ensures Placed(areas, ratio, half, container, boxes, cells, rest, rows) && |boxes| == |boxes0| + |row|
  {
    hide Splits, RowCells, Thickness, Total, Area, Inset, Inside, RowsDone, WorstFrom;
    ghost var from, to := |boxes0|, |boxes0| + |row|;
    RowTotals(areas, from, to);
    var side := Min(rect.width, rect.height);
    var more: seq<Rect>, moreCells: seq<Rect>;
    ghost var slab;
    more, rest, moreCells, slab := PlaceRow(row, area, side, rect, half, |boxes0| + |row| == |areas|);
    SplitMore(cells0, rect, container, moreCells, rest);
    assert |moreCells| == |row| by { RowCount(row, moreCells, slab, side == rect.width); }
    CellsAppended(areas, half, boxes0, cells0, more, moreCells, to, slab, side == rect.width);
    ghost var done := Row(from, to, rect, slab, rest);
    assert (cells0 + moreCells)[from..to] == moreCells;
    RowsKept(areas, ratio, cells0, moreCells, rows0, done);
    assert (rows0 + [done])[..|rows0|] == rows0;
    boxes, cells, rows := boxes0 + more, cells0 + moreCells, rows0 + [done];
  }

  lemma RowCount(row: seq<real>, cells: seq<Rect>, slab: Rect, along: bool)
    requires RowCells(row, cells, slab, along)
    ensures |cells| == |row|
  {
  }

  lemma NoAreaNoPoints(rest: Rect)
    requires rest.width >= 0.0 && rest.height >= 0.0 && Area(rest) == 0.0
    ensures forall px, py :: !In(rest, px, py)
  {
    if rest.width > 0.0 && rest.height > 0.0 {
      Positive(rest.width, rest.height);
    }
  }

  lemma AllPlaced(areas: seq<real>, ratio: real, half: real, container: Rect, boxes: seq<Rect>, cells: seq<Rect>,
                  rest: Rect, rows: seq<Row>)
    requires Placed(areas, ratio, half, container, boxes, cells, rest, rows) && |cells| == |areas|
    ensures Tiles(cells, container)
  {
    hide Hits, In;
    assert Total(areas[|cells|..]) == 0.0;
    NoAreaNoPoints(rest);
    forall px, py
      ensures Hits(cells, px, py) == Ind(container, px, py)
    {
      assert Hits(cells, px, py) + Ind(rest, px, py) == Ind(container, px, py);
      assert !In(rest, px, py);
    }
  }

  /** Lays the children out in rows: their cells tile the container, each with its child's area. */
  method Squarify(areas: seq<real>, container: Rect, half: real, ratio: real)
    returns (boxes: seq<Rect>, cells: seq<Rect>, ghost rows: seq<Row>)
    requires (forall i :: 0 <= i < |areas| ==> areas[i] >= 0.0) && half >= 0.0
    requires container.width >= 0.0 && container.height >= 0.0 && Total(areas) == Area(container)
    ensures |boxes| == |cells| == |areas| && Tiles(cells, container)
    ensures forall i :: 0 <= i < |areas| ==>
              Area(cells[i]) == areas[i] && boxes[i] == Inset(cells[i], half) && Inside(boxes[i], cells[i])
    ensures RowsDone(areas, ratio, cells, rows) && exists rest :: Chained(rows, container, |areas|, rest)
  {
    hide Splits, RowCells, Thickness, Total, Area, Inset, Inside, RowsDone, WorstFrom, WorstOf, Tiles, Chained;
    var rect, side := container, Min(container.width, container.height);
    var row: seq<real>, area, best := [], 0.0, Infinite;
    boxes, cells, rows := [], [], [];
    PlacedStart(areas, ratio, half, container);
    EmptyTotal();
    var d := 0;
    while d < |areas|
      invariant Placed(areas, ratio, half, container, boxes, cells, rect, rows)
      invariant d == |boxes| + |row| <= |areas| && row == areas[|boxes|..d] && area == Total(row)
      invariant side == Side(rect) && Growing(areas, ratio, |boxes|, d, rect, best)
      decreases |areas| - d, |row|
    {
      var next := row + [areas[d]];
      assert next == areas[|boxes|..d + 1] && next[..|row|] == row;
      TotalMore(row, areas[d]);
      var worst := Worst(next, area + areas[d], side, ratio);
      assert worst == WorstFrom(areas, |boxes|, d +
                                1, rect, ratio) by { WorstFromIs(areas, |boxes|, d + 1, rect, ratio); }
      if AtMost(worst, best) {
        row, area, d, best := next, area + areas[d], d + 1, worst;
      } else {
        boxes, rect, cells, rows := CloseRow(areas, ratio, half, container, row, area, rect, best, boxes, cells, rows);
        side := Min(rect.width, rect.height);
        row, area, best := [], 0.0, Infinite;
      }
    }
    if row != [] {
      boxes, rect, cells, rows := CloseRow(areas, ratio, half, container, row, area, rect, best, boxes, cells, rows);
    }
    AllPlaced(areas, ratio, half, container, boxes, cells, rect, rows);
  }

  lemma EmptyTotal()
    ensures Total([]) == 0.0
  {
  }

  lemma {:induction false} TotalMore(row: seq<real>, a: real)
    ensures Total(row + [a]) == Total(row) + a
  {
    assert (row + [a])[..|row|] == row;
  }

  lemma WorstFromIs(areas: seq<real>, from: nat, to: nat, rect: Rect, ratio: real)
    requires from <= to <= |areas|
    ensures WorstFrom(areas, from, to, rect, ratio) == WorstOf(areas[from..to], Side(rect), ratio)
  {
  }
}
