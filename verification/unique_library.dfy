/**
  The flat item model behind the unique library view: one root row per
  inserted artist, album or track node, each carrying its sort key, plus a
  map from track URI to the item that shows that track.
 */
module UniqueLibrary {
  import opened Options
  import opened Separated
  import opened LibraryDaos
  import opened NormalizedKeys

  /** Identity of an item; a fresh one stands for each newly allocated item. */
  type ItemId = nat

  datatype ItemType = TrackItem | AlbumItem | ArtistItem | SeparatorItem

  /** A cell of a row: the node item itself, or a plain item showing a text. */
  datatype Cell = NodeCell | TextCell(text: string)

  /** A root row. `id` identifies its first (node) item; `key` is that item's normalized string. */
  datatype Row = Row(id: ItemId, node: Node, key: string, cells: seq<Cell>)

  /**
    The model's state: the root rows in order, the URI-to-item map of tracks,
    the separators recorded for top-level (artist) items, and the next fresh
    item identity.
   */
  datatype LibraryModel = LibraryModel(
    rows: seq<Row>,
    tracks: map<string, ItemId>,
    topLevelItems: map<ItemId, ItemId>,
    nextId: ItemId)

  function EmptyModel(): LibraryModel
  {
    LibraryModel([], map[], map[], 0)
  }

  function ItemTypeOf(node: Node): ItemType
    requires !node.OtherNode?
  {
    match node
    case TrackNode(_) => TrackItem
    case AlbumNode(_) => AlbumItem
    case ArtistNode(_) => ArtistItem
  }

  /** The cells following the node item: the album title, then the artist title, as far as they exist. */
  function TrailingCells(node: Node): seq<Cell>
  {
    match node
    case TrackNode(t) =>
      if t.album.None? then []
      else
        var albumCell := [TextCell(t.album.value.title)];
        if t.album.value.artist.None? then albumCell
        else albumCell + [TextCell(t.album.value.artist.value.title)]
    case AlbumNode(al) =>
      if al.artist.None? then [] else [TextCell(al.artist.value.title)]
    case _ => []
  }

  /** The row built for a node, or nothing for a node of an unhandled kind. */
  function NewRow(id: ItemId, node: Node): (r: Option<Row>)
    ensures r.None? <==> node.OtherNode?
    ensures r.Some? ==>
      && r.value.id == id && r.value.node == node
      && r.value.key == NodeKey(node)
      && 1 <= |r.value.cells| <= 3
      && r.value.cells[0] == NodeCell
    ensures node.TrackNode? ==>
      var t := node.track;
      && (|r.value.cells| >= 2 <==> t.album.Some?)
      && (|r.value.cells| == 3 <==> t.album.Some? && t.album.value.artist.Some?)
      && (t.album.Some? ==> r.value.cells[1] == TextCell(t.album.value.title))
      && (|r.value.cells| == 3 ==> r.value.cells[2] == TextCell(t.album.value.artist.value.title))
    ensures node.AlbumNode? ==>
      && |r.value.cells| == (if node.album.artist.Some? then 2 else 1)
      && (node.album.artist.Some? ==> r.value.cells[1] == TextCell(node.album.artist.value.title))
    ensures node.ArtistNode? ==> |r.value.cells| == 1
  {
    if node.OtherNode? then None
    else Some(Row(id, node, NodeKey(node), [NodeCell] + TrailingCells(node)))
  }

  predicate IsTrackRowFor(row: Row, uri: string)
  {
    row.node.TrackNode? && row.node.track.uri == uri
  }

  predicate DistinctIds(rows: seq<Row>)
  {
    forall i, j :: 0 <= i < j < |rows| ==> rows[i].id != rows[j].id
  }

  predicate HasId(rows: seq<Row>, id: ItemId)
  {
    exists i :: 0 <= i < |rows| && rows[i].id == id
  }

  /**
    The model's invariant: item identities are distinct and older than
    `nextId`; every track row is the one its URI maps to; every mapped item
    is a track row for that URI; every recorded separator points at an
    artist row.
   */
  predicate WellFormed(m: LibraryModel)
  {
    && DistinctIds(m.rows)
    && (forall row :: row in m.rows ==> row.id < m.nextId)
    && (forall row :: row in m.rows && row.node.TrackNode? ==>
          row.node.track.uri in m.tracks && m.tracks[row.node.track.uri] == row.id)
    && (forall u :: u in m.tracks ==>
          exists row :: row in m.rows && row.id == m.tracks[u] && IsTrackRowFor(row, u))
    && (forall s :: s in m.topLevelItems ==>
          exists row :: row in m.rows && row.id == m.topLevelItems[s] && row.node.ArtistNode?)
  }

  /**
    Removes the row whose node item is `id`, keeping the others
    (`RemoveRowMembers`) in order (`RemoveRowKeepsOrder`).
    This is what the model assumes of `removeNode`: it removes exactly that row.
   */
  function RemoveRow(rows: seq<Row>, id: ItemId): (r: seq<Row>)
    ensures !HasId(rows, id) ==> r == rows
    decreases |rows|
  {
    if |rows| == 0 then []
    else
      var rest := RemoveRow(rows[1..], id);
      assert rows == [rows[0]] + rows[1..];
      assert !HasId(rows, id) ==> !HasId(rows[1..], id) by {
        if HasId(rows[1..], id) {
          var i :| 0 <= i < |rows[1..]| && rows[1..][i].id == id;
          assert rows[i + 1].id == id;
        }
      }
      if rows[0].id == id then rest else [rows[0]] + rest
  }

  /** A row remains exactly when it was there and does not hold the removed item. */
  lemma {:induction false} RemoveRowMembers(rows: seq<Row>, id: ItemId)
    ensures forall row :: row in RemoveRow(rows, id) <==> row in rows && row.id != id
    decreases |rows|
  {
    if |rows| > 0 {
      RemoveRowMembers(rows[1..], id);
      assert rows == [rows[0]] + rows[1..];
    }
  }

  /** The rows after the first keep distinct identities. */
  lemma DistinctTail(rows: seq<Row>)
    requires DistinctIds(rows) && |rows| > 0
    ensures DistinctIds(rows[1..])
  {
    var tail := rows[1..];
    forall i, j | 0 <= i < j < |tail|
      ensures tail[i].id != tail[j].id
    {
      assert tail[i] == rows[i + 1] && tail[j] == rows[j + 1];
    }
  }

  /** Removing an item no row holds changes nothing. */
  lemma RemoveAbsent(rows: seq<Row>, id: ItemId)
    requires forall k :: 0 <= k < |rows| ==> rows[k].id != id
    ensures RemoveRow(rows, id) == rows
  {
    assert !HasId(rows, id);
  }

  /**
    With distinct identities, removing the item of row `i` leaves the rows
    before it and the rows after it, in their order.
   */
  lemma {:induction false} RemoveRowKeepsOrder(rows: seq<Row>, id: ItemId, i: int)
    requires DistinctIds(rows) && 0 <= i < |rows| && rows[i].id == id
    ensures RemoveRow(rows, id) == rows[..i] + rows[i + 1..]
    decreases |rows|
  {
    var tail := rows[1..];
    if i == 0 {
      assert RemoveRow(tail, id) == tail by {
        forall k | 0 <= k < |tail|
          ensures tail[k].id != id
        {
          assert tail[k] == rows[k + 1];
        }
        RemoveAbsent(tail, id);
      }
      assert rows[..i] + rows[i + 1..] == tail;
    } else {
      assert RemoveRow(tail, id) == tail[..i - 1] + tail[i..] by {
        DistinctTail(rows);
        assert tail[i - 1].id == id;
        RemoveRowKeepsOrder(tail, id, i - 1);
      }
      assert RemoveRow(rows, id) == [rows[0]] + RemoveRow(tail, id) by {
        assert rows[0].id != rows[i].id;
      }
      assert rows[..i] == [rows[0]] + tail[..i - 1];
      assert rows[i + 1..] == tail[i..];
    }
  }

  /** Removing a row keeps the identities of the others distinct. */
  lemma {:induction false} RemoveRowKeepsDistinct(rows: seq<Row>, id: ItemId)
    requires DistinctIds(rows)
    ensures DistinctIds(RemoveRow(rows, id))
    decreases |rows|
  {
    if |rows| > 0 {
      var tail := rows[1..];
      DistinctTail(rows);
      RemoveRowKeepsDistinct(tail, id);
      var rest := RemoveRow(tail, id);
      RemoveRowMembers(tail, id);
      if rows[0].id != id {
        var r := [rows[0]] + rest;
        forall i, j | 0 <= i < j < |r|
          ensures r[i].id != r[j].id
        {
          assert r[j] == rest[j - 1] && r[j] in tail;
          if i > 0 {
            assert r[i] == rest[i - 1];
          } else {
            var k :| 0 <= k < |tail| && tail[k] == r[j];
            assert rows[k + 1] == r[j];
          }
        }
      }
    }
  }

  /** With distinct identities, removing a present item removes exactly one row. */
  lemma RemoveRowLength(rows: seq<Row>, id: ItemId)
    requires DistinctIds(rows) && HasId(rows, id)
    ensures |RemoveRow(rows, id)| == |rows| - 1
  {
    var i :| 0 <= i < |rows| && rows[i].id == id;
    RemoveRowKeepsOrder(rows, id, i);
  }

  /** The rows of the old model that survive an insertion of `n`: all but the replaced one. */
  predicate Survives(m: LibraryModel, n: Node, r: Row)
  {
    r in m.rows && !(n.TrackNode? && n.track.uri in m.tracks && r.id == m.tracks[n.track.uri])
  }

  /**
    The old rows that remain when `n` is inserted: for a track whose URI is
    already mapped, every row but the mapped item's; otherwise all of them.
   */
  function Survivors(m: LibraryModel, n: Node): (kept: seq<Row>)
    ensures forall r :: r in kept <==> Survives(m, n, r)
    ensures !(n.TrackNode? && n.track.uri in m.tracks) ==> kept == m.rows
  {
    if n.TrackNode? && n.track.uri in m.tracks then
      RemoveRowMembers(m.rows, m.tracks[n.track.uri]);
      RemoveRow(m.rows, m.tracks[n.track.uri])
    else m.rows
  }

  /** The survivors are the old rows in their order, less the replaced row `i`. */
  lemma SurvivorsKeepOrder(m: LibraryModel, n: Node, i: int)
    requires DistinctIds(m.rows) && n.TrackNode? && n.track.uri in m.tracks
    requires 0 <= i < |m.rows| && m.rows[i].id == m.tracks[n.track.uri]
    ensures Survivors(m, n) == m.rows[..i] + m.rows[i + 1..]
  {
    RemoveRowKeepsOrder(m.rows, m.tracks[n.track.uri], i);
  }

  /** The URI map after inserting `n`: a track's URI now names the new row. */
  function TracksAfter(m: LibraryModel, n: Node): map<string, ItemId>
  {
    if n.TrackNode? then m.tracks[n.track.uri := m.nextId] else m.tracks
  }

  /**
    Inserts a node, `separator` standing for what `insertSeparator` returns
    when the node is an artist. A null node or a node of another kind leaves
    the model as it is; any other node appends one row, after the row of the
    previous item for the same track URI has been removed.
   */
  function InsertNode(m: LibraryModel, node: Option<Node>, separator: Option<ItemId>): (m': LibraryModel)
    ensures node.None? || node.value.OtherNode? ==> m' == m
    ensures node.Some? && !node.value.OtherNode? ==>
      && m'.nextId == m.nextId + 1
      && m'.rows == Survivors(m, node.value) + [NewRow(m.nextId, node.value).value]
    ensures node.Some? && node.value.TrackNode? ==>
      m'.tracks == m.tracks[node.value.track.uri := m.nextId]
    ensures !(node.Some? && node.value.TrackNode?) ==>
      m'.tracks == m.tracks && (node.Some? && !node.value.OtherNode? ==>
                                 |m'.rows| == |m.rows| + 1 && m'.rows[..|m.rows|] == m.rows)
    ensures m'.topLevelItems ==
      if node.Some? && node.value.ArtistNode? && separator.Some?
      then m.topLevelItems[separator.value := m.nextId]
      else m.topLevelItems
  {
    if node.None? then m
    else match NewRow(m.nextId, node.value)
      case None => m
      case Some(row) =>
        var n := node.value;
        var kept := Survivors(m, n);
        var tracks := TracksAfter(m, n);
        var top :=
          if n.ArtistNode? && separator.Some? then m.topLevelItems[separator.value := row.id]
          else m.topLevelItems;
        assert (kept + [row])[..|kept|] == kept;
        LibraryModel(kept + [row], tracks, top, m.nextId + 1)
  }

  /** The model starts empty and well-formed. */
  lemma EmptyModelWellFormed()
    ensures WellFormed(EmptyModel())
  {
  }

  /** Appending a row with a fresh identity keeps identities distinct. */
  lemma AppendFreshRow(rows: seq<Row>, row: Row)
    requires DistinctIds(rows)
    requires forall r :: r in rows ==> r.id < row.id
    ensures DistinctIds(rows + [row])
  {
  }

  /** After an insertion the rows are the survivors followed by the new row. */
  lemma InsertedRows(m: LibraryModel, n: Node, separator: Option<ItemId>, r: Row)
    requires !n.OtherNode?
    ensures r in InsertNode(m, Some(n), separator).rows <==> Survives(m, n, r) || r == NewRow(m.nextId, n).value
  {
  }

  /** Within distinct identities, two rows with the same identity are the same row. */
  lemma SameIdSameRow(rows: seq<Row>, a: Row, b: Row)
    requires DistinctIds(rows)
    requires a in rows && b in rows && a.id == b.id
    ensures a == b
  {
    var i :| 0 <= i < |rows| && rows[i] == a;
    var j :| 0 <= j < |rows| && rows[j] == b;
  }

  /** The replaced row, if any, is a track row; so no other kind of row is lost. */
  lemma OnlyTheTrackRowIsReplaced(m: LibraryModel, n: Node, r: Row)
    requires WellFormed(m)
    requires r in m.rows && !Survives(m, n, r)
    ensures IsTrackRowFor(r, n.track.uri)
  {
    var prior :| prior in m.rows && prior.id == m.tracks[n.track.uri] && IsTrackRowFor(prior, n.track.uri);
    SameIdSameRow(m.rows, r, prior);
  }

  /** An insertion keeps identities distinct and older than the next one. */
  lemma InsertKeepsIdentities(m: LibraryModel, n: Node, separator: Option<ItemId>)
    requires WellFormed(m) && !n.OtherNode?
    ensures var m' := InsertNode(m, Some(n), separator);
      DistinctIds(m'.rows) && forall r :: r in m'.rows ==> r.id < m'.nextId
  {
    var m' := InsertNode(m, Some(n), separator);
    var row := NewRow(m.nextId, n).value;
    var kept := Survivors(m, n);
    assert m'.rows == kept + [row];
    if n.TrackNode? && n.track.uri in m.tracks {
      RemoveRowKeepsDistinct(m.rows, m.tracks[n.track.uri]);
    }
    AppendFreshRow(kept, row);
    forall r | r in m'.rows
      ensures r.id < m'.nextId
    {
      InsertedRows(m, n, separator, r);
    }
  }

  /** After an insertion every track row is still the one its URI maps to. */
  lemma InsertKeepsTrackRowsMapped(m: LibraryModel, n: Node, separator: Option<ItemId>)
    requires WellFormed(m) && !n.OtherNode?
    ensures var m' := InsertNode(m, Some(n), separator);
      forall r :: r in m'.rows && r.node.TrackNode? ==>
        r.node.track.uri in m'.tracks && m'.tracks[r.node.track.uri] == r.id
  {
  }

  /** Every mapped URI still names a track row among the survivors and the new row. */
  lemma SurvivorsKeepMappedItem(m: LibraryModel, n: Node, u: string)
    requires WellFormed(m) && !n.OtherNode?
    requires u in TracksAfter(m, n)
    ensures exists r ::
      r in Survivors(m, n) + [NewRow(m.nextId, n).value] && r.id == TracksAfter(m, n)[u] && IsTrackRowFor(r, u)
  {
    var row := NewRow(m.nextId, n).value;
    if n.TrackNode? && u == n.track.uri {
      assert row in Survivors(m, n) + [row];
    } else {
      var r :| r in m.rows && r.id == m.tracks[u] && IsTrackRowFor(r, u);
      if !Survives(m, n, r) {
        OnlyTheTrackRowIsReplaced(m, n, r);
      }
      assert r in Survivors(m, n);
      assert r in Survivors(m, n) + [row];
    }
  }

  /** After an insertion every mapped URI still names a track row for it. */
  lemma InsertKeepsMappedItems(m: LibraryModel, n: Node, separator: Option<ItemId>)
    requires WellFormed(m) && !n.OtherNode?
    ensures var m' := InsertNode(m, Some(n), separator);
      forall u :: u in m'.tracks ==> exists r :: r in m'.rows && r.id == m'.tracks[u] && IsTrackRowFor(r, u)
  {
    var m' := InsertNode(m, Some(n), separator);
    assert m'.rows == Survivors(m, n) + [NewRow(m.nextId, n).value];
    assert m'.tracks == TracksAfter(m, n);
    forall u | u in m'.tracks
      ensures exists r :: r in m'.rows && r.id == m'.tracks[u] && IsTrackRowFor(r, u)
    {
      SurvivorsKeepMappedItem(m, n, u);
    }
  }

  /** After an insertion every recorded separator still names an artist row. */
  lemma InsertKeepsSeparators(m: LibraryModel, n: Node, separator: Option<ItemId>)
    requires WellFormed(m) && !n.OtherNode?
    ensures var m' := InsertNode(m, Some(n), separator);
      forall s :: s in m'.topLevelItems ==>
        exists r :: r in m'.rows && r.id == m'.topLevelItems[s] && r.node.ArtistNode?
  {
    var m' := InsertNode(m, Some(n), separator);
    var row := NewRow(m.nextId, n).value;
    forall s | s in m'.topLevelItems
      ensures exists r :: r in m'.rows && r.id == m'.topLevelItems[s] && r.node.ArtistNode?
    {
      if n.ArtistNode? && separator.Some? && s == separator.value {
        InsertedRows(m, n, separator, row);
      } else {
        var r :| r in m.rows && r.id == m.topLevelItems[s] && r.node.ArtistNode?;
        if !Survives(m, n, r) {
          OnlyTheTrackRowIsReplaced(m, n, r);
        }
        InsertedRows(m, n, separator, r);
      }
    }
  }

  /** Every insertion keeps the model's invariant. */
  lemma InsertPreservesWellFormed(m: LibraryModel, node: Option<Node>, separator: Option<ItemId>)
    requires WellFormed(m)
    ensures WellFormed(InsertNode(m, node, separator))
  {
    if node.Some? && !node.value.OtherNode? {
      InsertKeepsIdentities(m, node.value, separator);
      InsertKeepsTrackRowsMapped(m, node.value, separator);
      InsertKeepsMappedItems(m, node.value, separator);
      InsertKeepsSeparators(m, node.value, separator);
    }
  }

  /** In a well-formed model at most one row shows a given track URI. */
  lemma OneRowPerUri(m: LibraryModel, i: int, j: int)
    requires WellFormed(m)
    requires 0 <= i < |m.rows| && 0 <= j < |m.rows|
    requires m.rows[i].node.TrackNode? && IsTrackRowFor(m.rows[j], m.rows[i].node.track.uri)
    ensures i == j
  {
  }

  /** Inserting a track adds a row only when its URI was not yet mapped. */
  lemma TrackInsertRowCount(m: LibraryModel, t: TrackDao, separator: Option<ItemId>)
    requires WellFormed(m)
    ensures |InsertNode(m, Some(TrackNode(t)), separator).rows| == |m.rows| + (if t.uri in m.tracks then 0 else 1)
  {
    var m' := InsertNode(m, Some(TrackNode(t)), separator);
    var row := NewRow(m.nextId, TrackNode(t)).value;
    if t.uri in m.tracks {
      var prior :| prior in m.rows && prior.id == m.tracks[t.uri] && IsTrackRowFor(prior, t.uri);
      var k :| 0 <= k < |m.rows| && m.rows[k] == prior;
      assert HasId(m.rows, m.tracks[t.uri]);
      assert m'.rows == Survivors(m, TrackNode(t)) + [row];
      RemoveRowLength(m.rows, m.tracks[t.uri]);
    } else {
      assert m'.rows == m.rows + [row];
    }
  }

  /**
    Inserting a track whose URI is already mapped replaces that row: the row
    count stays the same, the new last row is the only row for the URI, and
    the URI maps to it.
   */
  lemma TrackInsertReplaces(m: LibraryModel, t: TrackDao, separator: Option<ItemId>)
    requires WellFormed(m)
    ensures var m' := InsertNode(m, Some(TrackNode(t)), separator);
      && |m'.rows| == |m.rows| + (if t.uri in m.tracks then 0 else 1)
      && m'.tracks[t.uri] == m'.rows[|m'.rows| - 1].id
      && forall i :: 0 <= i < |m'.rows| && IsTrackRowFor(m'.rows[i], t.uri) ==> i == |m'.rows| - 1
  {
    var m' := InsertNode(m, Some(TrackNode(t)), separator);
    TrackInsertRowCount(m, t, separator);
    InsertPreservesWellFormed(m, Some(TrackNode(t)), separator);
    forall i | 0 <= i < |m'.rows| && IsTrackRowFor(m'.rows[i], t.uri)
      ensures i == |m'.rows| - 1
    {
      OneRowPerUri(m', |m'.rows| - 1, i);
    }
  }

  /** Inserting the same track twice leaves as many rows as inserting it once. */
  lemma ReinsertKeepsRowCount(m: LibraryModel, t: TrackDao, s1: Option<ItemId>, s2: Option<ItemId>)
    requires WellFormed(m)
    ensures var once := InsertNode(m, Some(TrackNode(t)), s1);
      |InsertNode(once, Some(TrackNode(t)), s2).rows| == |once.rows|
  {
    var once := InsertNode(m, Some(TrackNode(t)), s1);
    InsertPreservesWellFormed(m, Some(TrackNode(t)), s1);
    TrackInsertReplaces(once, t, s2);
  }

  /**
    Inserting a track keeps the old rows in their order: the row that held
    its URI, if any, is taken out where it stood and the new row goes last.
   */
  lemma TrackInsertKeepsOrder(m: LibraryModel, t: TrackDao, separator: Option<ItemId>)
    requires WellFormed(m)
    ensures var m' := InsertNode(m, Some(TrackNode(t)), separator);
      var row := NewRow(m.nextId, TrackNode(t)).value;
      && (t.uri !in m.tracks ==> m'.rows == m.rows + [row])
      && (t.uri in m.tracks ==>
            exists i :: 0 <= i < |m.rows| && IsTrackRowFor(m.rows[i], t.uri) && m'.rows == m.rows[..i] + m.rows[i + 1..] + [row])
  {
    if t.uri in m.tracks {
      var prior :| prior in m.rows && prior.id == m.tracks[t.uri] && IsTrackRowFor(prior, t.uri);
      var i :| 0 <= i < |m.rows| && m.rows[i] == prior;
      SurvivorsKeepOrder(m, TrackNode(t), i);
    }
  }

  /** The null character `currentLetter` answers when there is no letter to show. */
  const NullChar: char := 0 as char

  /**
    What `currentLetter` sees of a view index: whether it is valid, the type
    of the source item behind it (absent when there is none), and its
    normalized string (empty when it has none).
   */
  datatype IndexView = IndexView(valid: bool, item: Option<ItemType>, key: string)

  /** The view of a node row. */
  function RowView(row: Row): IndexView
    requires !row.node.OtherNode?
  {
    IndexView(true, Some(ItemTypeOf(row.node)), row.key)
  }

  predicate IsZeroSeparator(index: IndexView)
  {
    index.item == Some(SeparatorItem) && index.key == "0"
  }

  /**
    The index letter of a row: the upper-cased first character of its key,
    or the null character for the "0" separator, an invalid index or an
    empty key. `upper` upper-cases one character.
   */
  function CurrentLetter(index: IndexView, upper: char -> char): (c: char)
    ensures IsZeroSeparator(index) || !index.valid || index.key == "" ==> c == NullChar
    ensures !IsZeroSeparator(index) && index.valid && index.key != "" ==> c == upper(index.key[0])
  {
    if IsZeroSeparator(index) then NullChar
    else if !index.valid then NullChar
    else if index.key != "" then upper(index.key[0])
    else NullChar
  }

  /**
    An artist row always has a letter: its key ends with a bar, so it is
    never empty, and the letter is that of the normalized title (or of the
    bar when the title is empty).
   */
  lemma ArtistRowLetter(a: ArtistDao, id: ItemId, upper: char -> char)
    ensures CurrentLetter(RowView(NewRow(id, ArtistNode(a)).value), upper)
      == upper(if a.titleNormalized == "" then Bar else a.titleNormalized[0])
  {
  }

  /** A track whose album has an artist is filed under the letter of that artist's row. */
  lemma TrackRowLetterIsArtistLetter(t: TrackDao, trackId: ItemId, artistId: ItemId, upper: char -> char)
    requires t.album.Some? && t.album.value.artist.Some?
    ensures CurrentLetter(RowView(NewRow(trackId, TrackNode(t)).value), upper)
      == CurrentLetter(RowView(NewRow(artistId, ArtistNode(t.album.value.artist.value)).value), upper)
  {
  }

  /** An album with an artist is filed under the letter of that artist's row. */
  lemma AlbumRowLetterIsArtistLetter(al: AlbumDao, albumId: ItemId, artistId: ItemId, upper: char -> char)
    requires al.artist.Some?
    ensures CurrentLetter(RowView(NewRow(albumId, AlbumNode(al)).value), upper)
      == CurrentLetter(RowView(NewRow(artistId, ArtistNode(al.artist.value)).value), upper)
  {
  }

}
