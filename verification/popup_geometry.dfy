/**
  Integer geometry of the playback-mode popups: screen containment, the edge
  a misplaced popup overflows, and where each popup is sent for each edge.
 */
module PopupGeometry {

  datatype Point = Point(x: int, y: int)

  /** A rectangle in integer screen coordinates; the right and bottom sides are inclusive. */
  datatype Rect = Rect(x: int, y: int, width: nat, height: nat) {
    function LeftSide(): int { x }
    function TopSide(): int { y }
    function RightSide(): int { x + width - 1 }
    function BottomSide(): int { y + height - 1 }
  }

  /** The rectangle of a given size whose top-left corner is at `p`. */
  function PlacedAt(p: Point, width: nat, height: nat): Rect
  {
    Rect(p.x, p.y, width, height)
  }

  /** `inner` lies within `outer`: four side comparisons. */
  predicate Contains(outer: Rect, inner: Rect)
  {
    && outer.LeftSide() <= inner.LeftSide()
    && inner.RightSide() <= outer.RightSide()
    && outer.TopSide() <= inner.TopSide()
    && inner.BottomSide() <= outer.BottomSide()
  }

  /** The screen edge the popups are laid out against; UNDEFINED means they fit in a circle. */
  datatype Edge = Undefined | Bottom | Right | Left | Top

  /**
    The edge reported for a candidate rectangle: none when it lies on the
    screen, otherwise the first side it overflows in the order bottom, right,
    left, top.
   */
  function Classify(screen: Rect, dest: Rect): (e: Edge)
    ensures e == Undefined <==> Contains(screen, dest)
    ensures e == Bottom <==> dest.BottomSide() > screen.BottomSide()
    ensures e == Right ==> dest.RightSide() > screen.RightSide() && dest.BottomSide() <= screen.BottomSide()
    ensures e == Left ==>
      && dest.LeftSide() < screen.LeftSide()
      && dest.RightSide() <= screen.RightSide() && dest.BottomSide() <= screen.BottomSide()
    ensures e == Top ==>
      && dest.TopSide() < screen.TopSide()
      && screen.LeftSide() <= dest.LeftSide()
      && dest.RightSide() <= screen.RightSide() && dest.BottomSide() <= screen.BottomSide()
  {
    if Contains(screen, dest) then Undefined
    else if dest.BottomSide() > screen.BottomSide() then Bottom
    else if dest.RightSide() > screen.RightSide() then Right
    else if dest.LeftSide() < screen.LeftSide() then Left
    else if dest.TopSide() < screen.TopSide() then Top
    else Undefined
  }

  /** `k` is the first candidate that does not lie on the screen. */
  predicate FirstOffending(screen: Rect, dests: seq<Rect>, k: int)
  {
    && 0 <= k < |dests|
    && !Contains(screen, dests[k])
    && forall j :: 0 <= j < k ==> Contains(screen, dests[j])
  }

  /** Reference definition: the classification of the first candidate not on the screen, if any. */
  function FirstEdge(screen: Rect, dests: seq<Rect>): Edge
    decreases |dests|
  {
    if |dests| == 0 then Undefined
    else if !Contains(screen, dests[0]) then Classify(screen, dests[0])
    else FirstEdge(screen, dests[1..])
  }

  /**
    The reference edge is UNDEFINED exactly when every candidate is on the
    screen, and otherwise is the classification of the first candidate
    that is not.
   */
  lemma {:induction false} FirstEdgeIsFirstOffending(screen: Rect, dests: seq<Rect>)
    ensures FirstEdge(screen, dests) == Undefined <==> forall i :: 0 <= i < |dests| ==> Contains(screen, dests[i])
    ensures FirstEdge(screen, dests) != Undefined ==>
      exists k :: FirstOffending(screen, dests, k) && FirstEdge(screen, dests) == Classify(screen, dests[k])
    decreases |dests|
  {
    if |dests| > 0 {
      var tail := dests[1..];
      assert forall i :: 0 < i < |dests| ==> dests[i] == tail[i - 1];
      if Contains(screen, dests[0]) {
        FirstEdgeIsFirstOffending(screen, tail);
        if FirstEdge(screen, tail) != Undefined {
          var k :| FirstOffending(screen, tail, k) && FirstEdge(screen, tail) == Classify(screen, tail[k]);
          assert FirstOffending(screen, dests, k + 1);
        }
      } else {
        assert FirstOffending(screen, dests, 0);
      }
    }
  }

  /**
    Scans the candidates in order and stops at the first one that leaves the
    screen, reporting the edge it overflows; the edge stays UNDEFINED when
    every candidate is on the screen.
   */
  method ScanEdge(screen: Rect, dests: seq<Rect>) returns (edge: Edge)
    ensures edge == FirstEdge(screen, dests)
    ensures edge == Undefined <==> forall i :: 0 <= i < |dests| ==> Contains(screen, dests[i])
  {
    FirstEdgeIsFirstOffending(screen, dests);
    edge := Undefined;
    var index := 0;
    while index < |dests|
      invariant 0 <= index <= |dests|
      invariant forall j :: 0 <= j < index ==> Contains(screen, dests[j])
      invariant FirstEdge(screen, dests) == FirstEdge(screen, dests[index..])
    {
      assert dests[index..][1..] == dests[index + 1..];
      if !Contains(screen, dests[index]) {
        edge := Classify(screen, dests[index]);
        return;
      }
      index := index + 1;
    }
  }

  /** Gap in pixels between the button and a popup row, and between popups in the row. */
  const Margin: int := 10

  /**
    Where popup `index` (of the given size) is sent, given the button's
    global origin and the point on the circle around it used when there is
    no edge.
   */
  function Target(edge: Edge, origin: Point, index: nat, width: nat, height: nat, onCircle: Point): (p: Point)
    ensures edge == Bottom ==> p.y + height + Margin == origin.y && p.x + index * (width + Margin) == origin.x
    ensures edge == Right || edge == Left || edge == Top ==> p == origin
    ensures edge == Undefined ==> p == onCircle
  {
    match edge
    case Bottom => Point(origin.x - index * (width + Margin), origin.y - (height + Margin))
    case Right => origin
    case Left => origin
    case Top => origin
    case Undefined => onCircle
  }

  /**
    Against the bottom edge each popup ends a margin above the button, and
    the first one keeps the button's x. Of two neighbours of the same width,
    the later one sits to the left with exactly a margin between them.
   */
  lemma BottomNeighbours(origin: Point, i: nat, width: nat, height: nat, ci: Point, cj: Point)
    ensures var a := PlacedAt(Target(Bottom, origin, i, width, height, ci), width, height);
      var b := PlacedAt(Target(Bottom, origin, i + 1, width, height, cj), width, height);
      && a.BottomSide() == origin.y - Margin - 1
      && (i == 0 ==> a.LeftSide() == origin.x)
      && a.LeftSide() - b.RightSide() - 1 == Margin
  {
    assert (i + 1) * (width + Margin) == i * (width + Margin) + (width + Margin);
  }

  /** Against the bottom edge equally wide popups form a row without overlap, later ones to the left. */
  lemma {:induction false} BottomRowDisjoint(origin: Point, i: nat, j: nat, width: nat, height: nat, ci: Point, cj: Point)
    requires i < j
    ensures PlacedAt(Target(Bottom, origin, j, width, height, cj), width, height).RightSide()
      < PlacedAt(Target(Bottom, origin, i, width, height, ci), width, height).LeftSide()
    decreases j - i
  {
    BottomNeighbours(origin, j - 1, width, height, ci, cj);
    if j > i + 1 {
      BottomRowDisjoint(origin, i, j - 1, width, height, ci, cj);
    }
  }

}
