/**
  The popup selector of playback modes: five popups around the playback-mode
  button, one per mode. Clicking one selects its mode; toggling lays the
  popups out and shows or hides them.
 */
module PlaybackModes {
  import opened Options
  import opened PopupGeometry

  datatype Mode = CurrentItemOnce | CurrentItemInLoop | Sequential | Loop | Random

  type Icon = string

  /** A popup: the mode it selects, its button's icon, its size and whether it is shown. */
  datatype Popup = Popup(mode: Mode, icon: Icon, width: nat, height: nat, visible: bool)

  /** A media playlist, identified by name, with its playback mode. */
  datatype Playlist = Playlist(name: string, mode: Mode)

  /** The factory's state: its popups in order, the edge of the previous layout, and the main button's icon. */
  datatype Factory = Factory(popups: seq<Popup>, previousEdge: Edge, buttonIcon: Icon)

  /** How a popup is brought to its target: moved there at once, or animated from the button's origin. */
  datatype Placement = MoveTo(target: Point) | AnimateFrom(start: Point, target: Point)

  /** The order in which the popups are created. */
  const CreationOrder: seq<Mode> := [CurrentItemOnce, CurrentItemInLoop, Sequential, Loop, Random]

  predicate Offers(popups: seq<Popup>, m: Mode)
  {
    exists k :: 0 <= k < |popups| && popups[k].mode == m
  }

  /**
    Creates one hidden popup per mode, in creation order, each showing the
    icon `icon` gives its mode.
   */
  function Create(icon: Mode -> Icon, width: nat, height: nat, buttonIcon: Icon): (f: Factory)
    ensures |f.popups| == 5
    ensures forall i :: 0 <= i < 5 ==>
      f.popups[i].mode == CreationOrder[i] && f.popups[i].width == width && f.popups[i].height == height
    ensures forall m :: Offers(f.popups, m)
    ensures forall i, j :: 0 <= i < j < |f.popups| ==> f.popups[i].mode != f.popups[j].mode
    ensures forall i :: 0 <= i < |f.popups| ==> !f.popups[i].visible && f.popups[i].icon == icon(f.popups[i].mode)
    ensures f.previousEdge == Undefined && f.buttonIcon == buttonIcon
  {
    var popups := seq(5, i requires 0 <= i < 5 => Popup(CreationOrder[i], icon(CreationOrder[i]), width, height, false));
    assert forall m :: Offers(popups, m) by {
      forall m
        ensures Offers(popups, m)
      {
        assert popups[CreationIndex(m)].mode == m;
      }
    }
    Factory(popups, Undefined, buttonIcon)
  }

  /** The position of a mode in the creation order. */
  function CreationIndex(m: Mode): (k: nat)
    ensures k < |CreationOrder| && CreationOrder[k] == m
  {
    match m
    case CurrentItemOnce => 0
    case CurrentItemInLoop => 1
    case Sequential => 2
    case Loop => 3
    case Random => 4
  }

  /** Every popup closed, nothing else about them changed. */
  function CloseAll(popups: seq<Popup>): (r: seq<Popup>)
    ensures |r| == |popups|
    ensures forall i :: 0 <= i < |r| ==> r[i] == popups[i].(visible := false)
    decreases |popups|
  {
    if |popups| == 0 then []
    else [popups[0].(visible := false)] + CloseAll(popups[1..])
  }

  /**
    Clicking the button of popup `k`: the main button takes that button's
    icon and every popup closes; the player gets the current playlist if it
    had none, and its playlist is set to the popup's mode. The second
    component is the player's playlist afterwards, which therefore always
    exists.
   */
  function Click(f: Factory, k: nat, playerPlaylist: Option<Playlist>, current: Playlist): (r: (Factory, Playlist))
    requires k < |f.popups|
    ensures r.0.buttonIcon == f.popups[k].icon
    ensures |r.0.popups| == |f.popups|
    ensures forall i :: 0 <= i < |f.popups| ==>
      !r.0.popups[i].visible && r.0.popups[i].(visible := true) == f.popups[i].(visible := true)
    ensures r.0.previousEdge == f.previousEdge
    ensures r.1.mode == f.popups[k].mode
    ensures r.1.name == if playerPlaylist.Some? then playerPlaylist.value.name else current.name
  {
    var closed := Factory(CloseAll(f.popups), f.previousEdge, f.popups[k].icon);
    var attached := if playerPlaylist.None? then current else playerPlaylist.value;
    (closed, attached.(mode := f.popups[k].mode))
  }

  /** Clicking the same popup again changes nothing. */
  lemma ClickIsIdempotent(f: Factory, k: nat, playerPlaylist: Option<Playlist>, current: Playlist)
    requires k < |f.popups|
    ensures var (g, p) := Click(f, k, playerPlaylist, current);
      Click(g, k, Some(p), current) == (g, p)
  {
    var (g, p) := Click(f, k, playerPlaylist, current);
    var (h, q) := Click(g, k, Some(p), current);
    assert h.popups == g.popups;
  }

  /** A freshly created factory lets the user select every playback mode. */
  lemma CreatedFactoryOffersEveryMode(
    icon: Mode -> Icon, width: nat, height: nat, buttonIcon: Icon,
    m: Mode, playerPlaylist: Option<Playlist>, current: Playlist)
    ensures var f := Create(icon, width, height, buttonIcon);
      exists k :: 0 <= k < |f.popups| && Click(f, k, playerPlaylist, current).1.mode == m
  {
    var f := Create(icon, width, height, buttonIcon);
    assert Offers(f.popups, m);
    var k :| 0 <= k < |f.popups| && f.popups[k].mode == m;
    assert Click(f, k, playerPlaylist, current).1.mode == m;
  }

  /** The rectangles a layout tests: each popup's size placed at its point on the inner circle. */
  function Candidates(popups: seq<Popup>, near: seq<Point>): seq<Rect>
    requires |near| == |popups|
  {
    seq(|popups|, i requires 0 <= i < |popups| => PlacedAt(near[i], popups[i].width, popups[i].height))
  }

  /**
    What `move` guarantees: only the remembered edge changes, and it becomes
    the edge of the first candidate not on the screen; each popup goes to its
    target for that edge, and is animated from the button's origin exactly
    when an edge has just appeared after a layout without one.
   */
  predicate LaidOut(
    f: Factory, screen: Rect, origin: Point, near: seq<Point>, onCircle: seq<Point>,
    g: Factory, placements: seq<Placement>)
    requires |near| == |f.popups| && |onCircle| == |f.popups|
  {
    var dests := Candidates(f.popups, near);
    && g == f.(previousEdge := g.previousEdge)
    && g.previousEdge == FirstEdge(screen, dests)
    && |placements| == |f.popups|
    && (forall i :: 0 <= i < |f.popups| ==>
          placements[i].target == Target(g.previousEdge, origin, i, f.popups[i].width, f.popups[i].height, onCircle[i]))
    && (forall i :: 0 <= i < |f.popups| ==>
          (placements[i].AnimateFrom? <==> g.previousEdge != Undefined && f.previousEdge == Undefined))
    && (forall i :: 0 <= i < |f.popups| && placements[i].AnimateFrom? ==> placements[i].start == origin)
  }

  /**
    Lays the popups out around the button whose global origin is `origin`.
    `near` holds each popup's point on the circle tested against the screen,
    `onCircle` each popup's target when no edge is hit.
   */
  method Move(f: Factory, screen: Rect, origin: Point, near: seq<Point>, onCircle: seq<Point>)
    returns (g: Factory, placements: seq<Placement>)
    requires |near| == |f.popups| && |onCircle| == |f.popups|
    ensures LaidOut(f, screen, origin, near, onCircle, g, placements)
    ensures g.previousEdge == Right || g.previousEdge == Left || g.previousEdge == Top ==>
      forall i :: 0 <= i < |placements| ==> placements[i].target == origin
    ensures g.previousEdge == Undefined ==>
      forall i :: 0 <= i < |placements| ==> placements[i] == MoveTo(onCircle[i])
  {
    var edge := ScanEdge(screen, Candidates(f.popups, near));
    placements := [];
    var index := 0;
    while index < |f.popups|
      invariant 0 <= index <= |f.popups|
      invariant |placements| == index
      invariant forall i :: 0 <= i < index ==>
        placements[i].target == Target(edge, origin, i, f.popups[i].width, f.popups[i].height, onCircle[i])
      invariant forall i :: 0 <= i < index ==>
        (placements[i].AnimateFrom? <==> edge != Undefined && f.previousEdge == Undefined)
      invariant forall i :: 0 <= i < index && placements[i].AnimateFrom? ==> placements[i].start == origin
    {
      var popup := f.popups[index];
      var target := Target(edge, origin, index, popup.width, popup.height, onCircle[index]);
      var placement :=
        if edge == Undefined || f.previousEdge != Undefined then MoveTo(target)
        else AnimateFrom(origin, target);
      placements := placements + [placement];
      index := index + 1;
    }
    g := f.(previousEdge := edge);
  }

  /** Every popup's visibility negated, nothing else about them changed. */
  function FlipVisibility(popups: seq<Popup>): (r: seq<Popup>)
    ensures |r| == |popups|
    ensures forall i :: 0 <= i < |r| ==> r[i] == popups[i].(visible := !popups[i].visible)
    decreases |popups|
  {
    if |popups| == 0 then []
    else [popups[0].(visible := !popups[0].visible)] + FlipVisibility(popups[1..])
  }

  /** Toggling visibility twice restores every popup. */
  lemma FlipTwice(popups: seq<Popup>)
    ensures FlipVisibility(FlipVisibility(popups)) == popups
  {
    var twice := FlipVisibility(FlipVisibility(popups));
    assert forall i :: 0 <= i < |popups| ==> twice[i] == popups[i];
  }

  /** Lays the popups out, then shows each hidden popup and hides each shown one. */
  method TogglePlaybackModes(f: Factory, screen: Rect, origin: Point, near: seq<Point>, onCircle: seq<Point>)
    returns (g: Factory, placements: seq<Placement>)
    requires |near| == |f.popups| && |onCircle| == |f.popups|
    ensures LaidOut(f, screen, origin, near, onCircle, g.(popups := f.popups), placements)
    ensures |g.popups| == |f.popups|
    ensures forall i :: 0 <= i < |g.popups| ==>
      g.popups[i].visible == !f.popups[i].visible && g.popups[i].(visible := true) == f.popups[i].(visible := true)
  {
    var moved;
    moved, placements := Move(f, screen, origin, near, onCircle);
    g := moved.(popups := FlipVisibility(moved.popups));
  }

  /**
    Laying out again with the same inputs finds the same edge, and then no
    popup is animated: each is moved straight to its target.
   */
  lemma RepeatedLayoutOnlyMoves(
    f: Factory, screen: Rect, origin: Point, near: seq<Point>, onCircle: seq<Point>,
    g: Factory, placements: seq<Placement>, h: Factory, again: seq<Placement>)
    requires |near| == |f.popups| && |onCircle| == |f.popups|
    requires LaidOut(f, screen, origin, near, onCircle, g, placements)
    requires LaidOut(g, screen, origin, near, onCircle, h, again)
    ensures h.previousEdge == g.previousEdge
    ensures forall i :: 0 <= i < |again| ==> again[i].MoveTo?
  {
    assert Candidates(g.popups, near) == Candidates(f.popups, near);
  }

}
