/** One level of the treemap, function `x` of module "9ca8": the children a node shows, laid out in
    what its border, its title and half a gap leave of it. */
module TreemapLayout {
  import opened Collections
  import opened RealSums
  import opened TreemapTiling
  import opened TreemapChildren

  /** What a node's own style takes: border, gap between children, and height of the title. */
  datatype Style = Style(border: real, gap: real, title: real)

  /** Where the children's cells go, in the node's own coordinates. */
  function Content(width: real, height: real, style: Style): Rect {
    var m, v := style.border - style.gap / 2.0, Max(style.border, style.title) - style.gap / 2.0;
    Rect(m, v, AtLeastZero(width - 2.0 * m), AtLeastZero(height - m - v))
  }

  /** What the border on all sides, and the title or the border above, leave of the node, and half a gap more
      on each side. */
  ghost predicate Leaves(width: real, height: real, style: Style, content: Rect) {
    var top := if style.border >= style.title then style.border else style.title;
    var w, h := width - 2.0 * style.border, height - style.border - top;
    && content.x + style.gap / 2.0 == style.border && content.y + style.gap / 2.0 == top
    && content.width == (if w + style.gap >= 0.0 then w + style.gap else 0.0)
    && content.height == (if h + style.gap >= 0.0 then h + style.gap else 0.0)
  }

  /** The child's rectangle leaves border and title free, and reaches them where its cell is at an edge of the
      content. */
  ghost predicate InBorder(width: real, height: real, style: Style, content: Rect, cell: Rect, box: Rect) {
    var top := if style.border >= style.title then style.border else style.title;
    && style.border <= box.x && box.x + box.width <= width - style.border
    && top <= box.y && box.y + box.height <= height - style.border
    && (cell.x == content.x ==> box.x == style.border)
    && (cell.y == content.y ==> box.y == top)
    && (cell.x + cell.width == content.x + content.width ==> box.x + box.width == width - style.border)
    && (cell.y + cell.height == content.y + content.height ==> box.y + box.height == height - style.border)
  }

  /** Some box reaches the border on the left, on the right and below, and the title or the border above. */
  ghost predicate AllSidesReached(width: real, height: real, style: Style, boxes: seq<Rect>) {
    && (exists i :: 0 <= i < |boxes| && boxes[i].x == style.border)
    && (exists i :: 0 <= i < |boxes| && boxes[i].x + boxes[i].width == width - style.border)
    && (exists i :: 0 <= i < |boxes| &&
          boxes[i].y == if style.border >= style.title then style.border else style.title)
    && (exists i :: 0 <= i < |boxes| && boxes[i].y + boxes[i].height == height - style.border)
  }

  /** The cell has area, and room for two gaps. */
  ghost predicate Roomy(cell: Rect, gap: real) {
    cell.width > 0.0 && cell.height > 0.0 && cell.width >= 2.0 * gap && cell.height >= 2.0 * gap
  }

  /** A tile that has points lies inside the container. */
  lemma TileInside(rects: seq<Rect>, container: Rect, i: nat)
    requires Tiles(rects, container) && i < |rects| && rects[i].width > 0.0 && rects[i].height > 0.0
    ensures Inside(rects[i], container) && container.width > 0.0 && container.height > 0.0
  {
    hide Tiles;
    var r := rects[i];
    TilingMeans(rects, container, r.x, r.y);
    assert In(r, r.x, r.y);
    TilingMeans(rects, container, container.x + container.width, r.y);
    TilingMeans(rects, container, r.x, container.y + container.height);
  }

  /** A tile that reaches farthest along an axis. */
  lemma {:induction false} Farthest(rects: seq<Rect>, alongX: bool, i: nat) returns (f: nat)
    requires i < |rects| && rects[i].width > 0.0 && rects[i].height > 0.0
    ensures f < |rects| && rects[f].width > 0.0 && rects[f].height > 0.0
    ensures forall j :: 0 <= j < |rects| && rects[j].width > 0.0 && rects[j].height > 0.0 ==>
              Start(rects[j], alongX) + Extent(rects[j], alongX) <= Start(rects[f], alongX) + Extent(rects[f], alongX)
  {
    hide Start, Extent;
    f := i;
    for n := 0 to |rects|
      invariant f < |rects| && rects[f].width > 0.0 && rects[f].height > 0.0
      invariant forall j :: 0 <= j < n && rects[j].width > 0.0 && rects[j].height > 0.0 ==>
                  Start(rects[j], alongX) + Extent(rects[j], alongX) <=
                  Start(rects[f], alongX) + Extent(rects[f], alongX)
    {
      if rects[n].width > 0.0 && rects[n].height > 0.0 &&
         Start(rects[n], alongX) + Extent(rects[n], alongX) > Start(rects[f], alongX) + Extent(rects[f], alongX) {
        f := n;
      }
    }
  }

  /** The tiles reach all four sides of the container. */
  lemma {:induction false} TilesReach(rects: seq<Rect>, container: Rect)
    returns (first: nat, right: nat, below: nat)
    requires Tiles(rects, container) && container.width > 0.0 && container.height > 0.0
    ensures first < |rects| && right < |rects| && below < |rects|
    ensures rects[first].x == container.x && rects[first].y == container.y
    ensures rects[right].x + rects[right].width == container.x + container.width
    ensures rects[below].y + rects[below].height == container.y + container.height
  {
    hide Tiles;
    TilingMeans(rects, container, container.x, container.y);
    assert In(container, container.x, container.y);
    first :| 0 <= first < |rects| && In(rects[first], container.x, container.y);
    TileInside(rects, container, first);
    right := Farthest(rects, true, first);
    TileInside(rects, container, right);
    TilingMeans(rects, container, rects[right].x + rects[right].width, rects[right].y);
    below := Farthest(rects, false, first);
    TileInside(rects, container, below);
    TilingMeans(rects, container, rects[below].x, rects[below].y + rects[below].height);
  }

  /** A child's rectangle leaves the node's border and title free when its cell has room for two gaps. */
  lemma BoxInsideBorder(width: real, height: real, style: Style, content: Rect, cell: Rect)
    requires style.gap >= 0.0 && Leaves(width, height, style, content) && Inside(cell, content)
    requires Roomy(cell, style.gap)
    ensures InBorder(width, height, style, content, cell, Inset(cell, style.gap / 2.0))
  {
  }

  /** If all cells are roomy, the children together reach the border and the title. */
  lemma {:induction false} BoxesReach(width: real, height: real, style: Style, content: Rect, cells: seq<Rect>,
                                      boxes: seq<Rect>)
    requires Leaves(width, height, style, content) && Tiles(cells, content) && |boxes| == |cells| > 0
    requires forall i :: 0 <= i < |cells| ==> Roomy(cells[i], style.gap)
    requires forall i :: 0 <= i < |cells| ==> InBorder(width, height, style, content, cells[i], boxes[i])
    ensures AllSidesReached(width, height, style, boxes)
  {
    hide Tiles, Leaves;
    TileInside(cells, content, 0);
    var first, right, below := TilesReach(cells, content);
    assert InBorder(width, height, style, content, cells[first], boxes[first]);
    assert InBorder(width, height, style, content, cells[right], boxes[right]);
    assert InBorder(width, height, style, content, cells[below], boxes[below]);
  }

  /** A single child has all of it. */
  lemma {:induction false} OnlyChild(width: real, height: real, style: Style, content: Rect, cell: Rect)
    requires style.gap >= 0.0 && Leaves(width, height, style, content) && Tiles([cell], content)
    requires Roomy(content, style.gap)
    ensures var top := if style.border >= style.title then style.border else style.title;
            Inset(cell, style.gap / 2.0) ==
              Rect(style.border, top, width - 2.0 * style.border, height - style.border - top)
  {
    hide Tiles;
    var first, right, below := TilesReach([cell], content);
    assert cell == content;
  }

  /** Lays out the children of a node that shows any. The cells tile the content, and share out its area by
      value. */
  method LayOutChildren(width: real, height: real, style: Style, value: seq<real>, order: Option<Order>,
                        visibleMin: Option<real>, ratio: real)
    returns (kept: seq<nat>, boxes: seq<Rect>, cells: seq<Rect>, content: Rect)
    requires NonNegative(value) && style.gap >= 0.0
    ensures Leaves(width, height, style, content)
    ensures Within(kept, |value|) && |kept| == |boxes| == |cells|
    ensures kept != [] ==> Tiles(cells, content)
    ensures forall i :: 0 <= i < |kept| ==>
              Product(Area(cells[i]), SumOver(value, kept)) == Product(value[kept[i]], Area(content))
    ensures order.Some? ==> Ordered(value, kept, order.value)
    ensures order.Some? && visibleMin.Some? ==> forall i :: 0 <= i < |cells| ==> Area(cells[i]) >= visibleMin.value
    ensures forall i :: 0 <= i < |kept| ==> boxes[i] == Inset(cells[i], style.gap / 2.0) && Inside(boxes[i], cells[i])
    ensures forall i :: 0 <= i < |kept| && Roomy(cells[i], style.gap) ==>
              InBorder(width, height, style, content, cells[i], boxes[i])
    ensures kept != [] && (forall i :: 0 <= i < |kept| ==> Roomy(cells[i], style.gap)) ==>
              AllSidesReached(width, height, style, boxes)
    ensures |kept| == 1 && Roomy(content, style.gap) ==>
              var top := if style.border >= style.title then style.border else style.title;
              boxes == [Rect(style.border, top, width - 2.0 * style.border, height - style.border - top)]
    ensures kept == [] <==>
            SumOver(value, All(|value|)) == 0.0 ||
              (order.Some? && visibleMin.Some? && Area(content) < visibleMin.value)
  {
    hide Product, Tiles, SumOver, Inset, Inside, Total, Sorted, RowsDone, Chained, InBorder, AllSidesReached, Leaves,
         Ordered;
    content := Content(width, height, style);
    ContentLeaves(width, height, style);
    var area := Area(content);
    ProductOrder(0.0, content.width, content.height);
    ProductPlus(content.height, 0.0, 0.0);
    var areas: seq<real>;
    kept, areas := InitChildren(value, order, visibleMin, area);
    boxes, cells := [], [];
    if kept != [] {
      ghost var rows;
      boxes, cells, rows := Squarify(areas, content, style.gap / 2.0, ratio);
      forall i | 0 <= i < |kept| && Roomy(cells[i], style.gap)
        ensures InBorder(width, height, style, content, cells[i], boxes[i])
      {
        TileInside(cells, content, i);
        BoxInsideBorder(width, height, style, content, cells[i]);
      }
      if forall i :: 0 <= i < |kept| ==> Roomy(cells[i], style.gap) {
        BoxesReach(width, height, style, content, cells, boxes);
      }
      if |kept| == 1 && Roomy(content, style.gap) {
        assert cells == [cells[0]];
        OnlyChild(width, height, style, content, cells[0]);
      }
    }
  }

  lemma ContentLeaves(width: real, height: real, style: Style)
    ensures Leaves(width, height, style, Content(width, height, style))
  {
  }
}
