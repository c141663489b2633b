# Miam-Player: unique library rows and playback-mode popups, in Dafny

This project models two pieces of discrete logic from the Miam-Player desktop music player and proves properties about them.

1. **The unique library item model** (`UniqueLibraryItemModel`). `insertNode` turns an artist, album or track record into one root row of a flat item model. The row carries a bar-separated sort key (the "normalized string"). An artist's key starts its albums' keys, and an album's key starts its tracks' keys, so sorting by key groups the library hierarchically. The model keeps a map from track URI to the item that shows the track. Inserting a track whose URI is already known first removes the old row. `currentLetter` gives the index letter of a row: the upper-cased first character of its key.
2. **The playback-mode popup factory** (`PlaybackModeWidgetFactory`). It has five popups, one per playback mode, placed around the playback-mode button. Clicking one sets the main button's icon, closes every popup, attaches a playlist to the player if it has none, and sets that playlist's mode. `move` finds the screen edge that the first off-screen candidate rectangle overflows, places every popup for that edge, and animates them only when an edge appears after a layout that had none. `togglePlaybackModes` lays the popups out and flips each one's visibility.

Files:

- `options.dfy` has `Options`, an optional value that stands in for nullable pointers.
- `separated.dfy` has `Separated`, which joins and splits bar-separated fields and proves the round trips between the two.
- `library_daos.dfy` has `LibraryDaos`, the artist, album and track records with opaque text fields.
- `normalized_keys.dfy` has `NormalizedKeys`, the three sort keys, their field decomposition and the prefix ordering between them.
- `unique_library.dfy` has `UniqueLibrary`, which covers rows, the URI map, `insertNode`, the model invariant and `currentLetter`.
- `popup_geometry.dfy` has `PopupGeometry`, which covers integer rectangles, containment, edge classification, the edge scan and per-edge targets.
- `playback_modes.dfy` has `PlaybackModes`, which covers popup creation, click handling, `move` and `togglePlaybackModes`.

Modelling choices:

- Each newly allocated item gets a fresh `nat` identity (`nextId`). The identity stands for the item pointer that the URI map holds. The separator map holds something else in the source: the artist item's model index (`nodeItem->index()`), which names a row position. The model records the artist's identity there instead; see the `UniqueLibrary.InsertNode` lines under "## Left out".
- `removeNode` is not part of this model. It is assumed to remove exactly the row of the given item and nothing else (`RemoveRow`).
- `insertSeparator` is not part of this model. Its return value is a parameter of `InsertNode`: the separator item, or nothing.
- `currentLetter` sees a view index as three things: whether it is valid, the type of the source item behind it, and its normalized string. Proxy-to-source index mapping is not modelled. Upper-casing is a parameter `upper` applied to the first character.
- In `move`, the points produced by the floating-point polar construction are inputs. `near` holds the 60-pixel circle points whose rectangles are tested against the screen. `onCircle` holds the UNDEFINED-case targets. The screen's available geometry is also an input.
- A click returns the factory state and the player's playlist afterwards. The model assumes there is a current tab playlist whose media playlist is non-null (see `PlaybackModes.Click` under "## Left out"). Under that assumption the player has a playlist after every click.

## Model

| member | source | states |
|---|---|---|
| UniqueLibrary.InsertNode | src/MiamUniqueLibrary/uniquelibraryitemmodel.cpp:41-93 | A null node or a node of another kind leaves the model unchanged. Any other node appends one fresh row, built from the node, at the end. Apart from the new row, the rows afterwards are the survivors: the old rows minus the row that the track's URI mapped to. A track's URI then maps to the new item. A separator is recorded only for an artist, and only when one is returned. The rows afterwards are exactly the survivors, in their order, followed by the new row. Artist and album insertions leave the URI map alone and keep every old row as an unchanged prefix. |
| UniqueLibrary.NewRow | src/MiamUniqueLibrary/uniquelibraryitemmodel.cpp:47-83 | A row exists exactly for track, album and artist nodes. It carries the node's key and starts with the node cell. A track row has 1 to 3 cells: the album title cell exactly when there is an album, and the artist title cell exactly when that album has an artist. An album row has 2 cells exactly when it has an artist. An artist row has exactly 1 cell. |
| UniqueLibrary.RemoveRow | src/MiamUniqueLibrary/uniquelibraryitemmodel.cpp:64-68 | The assumed `removeNode`. Removing an item that no row holds changes nothing. |
| UniqueLibrary.RemoveRowMembers | src/MiamUniqueLibrary/uniquelibraryitemmodel.cpp:64-68 | A row remains exactly when it was there and does not hold the removed item. |
| UniqueLibrary.RemoveRowKeepsOrder | src/MiamUniqueLibrary/uniquelibraryitemmodel.cpp:64-68 | When identities are distinct and row `i` holds the item, removing the item leaves the rows before `i` followed by the rows after it, in their order. |
| UniqueLibrary.RemoveRowKeepsDistinct | src/MiamUniqueLibrary/uniquelibraryitemmodel.cpp:64-68 | Removing a row keeps the identities of the remaining rows distinct. |
| UniqueLibrary.RemoveRowLength | src/MiamUniqueLibrary/uniquelibraryitemmodel.cpp:64-68 | When identities are distinct, removing a present item removes exactly one row. |
| UniqueLibrary.Survivors | src/MiamUniqueLibrary/uniquelibraryitemmodel.cpp:64-68 | For a track whose URI is already mapped, every old row remains except the mapped item's. For any other node, all old rows remain. |
| UniqueLibrary.SurvivorsKeepOrder | src/MiamUniqueLibrary/uniquelibraryitemmodel.cpp:64-68 | When identities are distinct and row `i` is the item that the track's URI maps to, the survivors are the old rows before `i` followed by those after it. |
| UniqueLibrary.TrackInsertKeepsOrder | src/MiamUniqueLibrary/uniquelibraryitemmodel.cpp:64-87 | In a well-formed model, inserting a track whose URI is unknown appends its row after every old row, unchanged. If the URI is known, the old track row for it is taken out where it stood, the other rows keep their order, and the new row goes last. |
| UniqueLibrary.EmptyModelWellFormed | src/MiamUniqueLibrary/uniquelibraryitemmodel.cpp:9-16 | A newly constructed model, with no rows and empty maps, satisfies the invariant. |
| UniqueLibrary.InsertPreservesWellFormed | src/MiamUniqueLibrary/uniquelibraryitemmodel.cpp:64-92 | Every insertion keeps the invariant. Identities stay distinct and fresh. Every track row is the item its URI maps to. Every mapped item is a row for that URI. Every recorded separator points at an artist row. |
| UniqueLibrary.OneRowPerUri | src/MiamUniqueLibrary/uniquelibraryitemmodel.cpp:64-69 | In a well-formed model, two track rows with the same URI are the same row. |
| UniqueLibrary.TrackInsertReplaces | src/MiamUniqueLibrary/uniquelibraryitemmodel.cpp:64-69 | Inserting a track adds a row only if its URI was unknown; otherwise the row count stays the same. Afterwards the URI maps to the new last row, which is the only row for that URI. |
| UniqueLibrary.TrackInsertRowCount | src/MiamUniqueLibrary/uniquelibraryitemmodel.cpp:64-69 | In a well-formed model, inserting a track adds one row if its URI was unknown. If the URI was already mapped, the row count stays the same. |
| UniqueLibrary.ReinsertKeepsRowCount | src/MiamUniqueLibrary/uniquelibraryitemmodel.cpp:64-69 | Inserting the same track a second time does not add a row. |
| UniqueLibrary.CurrentLetter | src/MiamUniqueLibrary/uniquelibraryitemmodel.cpp:18-33 | The result is the null character for the "0" separator, for an invalid index and for an empty key. In every other case it is the upper-cased first character of the key. |
| UniqueLibrary.ArtistRowLetter | src/MiamUniqueLibrary/uniquelibraryitemmodel.cpp:18-33 | An artist row always gets a letter, because its key is never empty. The letter is the upper-cased first character of the normalized title, or of the bar when the title is empty. |
| UniqueLibrary.TrackRowLetterIsArtistLetter | src/MiamUniqueLibrary/uniquelibraryitemmodel.cpp:18-33 | A track whose album has an artist is filed under the same letter as that artist's row. |
| UniqueLibrary.AlbumRowLetterIsArtistLetter | src/MiamUniqueLibrary/uniquelibraryitemmodel.cpp:18-33 | An album with an artist is filed under the same letter as that artist's row. |
| NormalizedKeys.TrackKey | src/MiamUniqueLibrary/uniquelibraryitemmodel.cpp:52-63 | A track key is the bar-join of the fields [artist normalized title][year, album title] disc, number, title. The album fields appear only with an album, and the artist field only when that album has an artist, giving 3, 5 or 6 fields. |
| NormalizedKeys.TrackKeyDecodes | src/MiamUniqueLibrary/uniquelibraryitemmodel.cpp:52-63 | When no field contains a bar, splitting a track key at its bars gives back exactly those fields. |
| NormalizedKeys.AlbumKey | src/MiamUniqueLibrary/uniquelibraryitemmodel.cpp:73-79 | An album key is the bar-join of [artist normalized title] year, title, which is 2 or 3 fields. |
| NormalizedKeys.AlbumKeyDecodes | src/MiamUniqueLibrary/uniquelibraryitemmodel.cpp:73-79 | When no field contains a bar, splitting an album key gives back its fields. |
| NormalizedKeys.ArtistKey | src/MiamUniqueLibrary/uniquelibraryitemmodel.cpp:82 | An artist key is the normalized title followed by one bar: the fields are the title and an empty field. |
| NormalizedKeys.ArtistKeyDecodes | src/MiamUniqueLibrary/uniquelibraryitemmodel.cpp:82 | When the normalized title contains no bar, splitting the artist key gives back the title and an empty field. |
| NormalizedKeys.ArtistKeyPrefixesAlbumKey | src/MiamUniqueLibrary/uniquelibraryitemmodel.cpp:73-82 | An artist's key is a proper prefix of the key of each album of that artist. |
| NormalizedKeys.AlbumKeyPrefixesTrackKey | src/MiamUniqueLibrary/uniquelibraryitemmodel.cpp:52-79 | An album's key followed by a bar is a proper prefix of the key of each of its tracks. |
| NormalizedKeys.ArtistKeyPrefixesTrackKey | src/MiamUniqueLibrary/uniquelibraryitemmodel.cpp:52-82 | An artist's key is a proper prefix of the key of each track on that artist's albums. |
| NormalizedKeys.ArtistGroupIsExact | src/MiamUniqueLibrary/uniquelibraryitemmodel.cpp:73-82 | With bar-free normalized titles, an artist's key starts the key of an album that has an artist only when that artist has the same normalized title. Sorting never files such an album under another artist. |
| NormalizedKeys.ArtistlessAlbumJoinsGroup | src/MiamUniqueLibrary/uniquelibraryitemmodel.cpp:73-82 | An album without an artist whose year equals an artist's normalized title has a key that starts with that artist's key, so it sorts inside that artist's group. |
| NormalizedKeys.AlbumlessTrackJoinsGroup | src/MiamUniqueLibrary/uniquelibraryitemmodel.cpp:52-82 | A track without an album whose disc equals an artist's normalized title has a key that starts with that artist's key, followed by more text. |
| NormalizedKeys.TrackArtistGroupIsExact | src/MiamUniqueLibrary/uniquelibraryitemmodel.cpp:52-82 | The same holds for a track and the artist of its album. |
| PlaybackModes.Create | code/src/playbackmodewidgetfactory.cpp:11-17 | There are five popups, in the creation order CurrentItemOnce, CurrentItemInLoop, Sequential, Loop, Random, each of the given width and height. Every mode is offered and no mode appears twice. Each popup shows its mode's icon, and each starts hidden. |
| PlaybackModes.CloseAll | code/src/playbackmodewidgetfactory.cpp:29-34 | Every popup is closed, and nothing else about any popup changes. |
| PlaybackModes.Click | code/src/playbackmodewidgetfactory.cpp:28-42 | The main button takes the clicked button's icon. Every popup is closed and otherwise unchanged. The player's playlist afterwards exists: it is the player's old playlist if there was one, otherwise the current playlist. Its mode is the clicked popup's mode. |
| PlaybackModes.ClickIsIdempotent | code/src/playbackmodewidgetfactory.cpp:28-42 | Clicking the same popup again changes nothing more. |
| PlaybackModes.CreatedFactoryOffersEveryMode | code/src/playbackmodewidgetfactory.cpp:11-42 | For every mode, some popup of a new factory, when clicked, sets the playlist to that mode. |
| PopupGeometry.Classify | code/src/playbackmodewidgetfactory.cpp:63-72 | No edge is reported exactly when the rectangle lies on the screen. BOTTOM is reported exactly when it overflows the bottom. RIGHT, LEFT and TOP are reported only when that side overflows and every side earlier in the order bottom, right, left does not. |
| PopupGeometry.ScanEdge | code/src/playbackmodewidgetfactory.cpp:53-75 | The loop that stops at the first off-screen candidate returns the reference edge. That edge stays UNDEFINED exactly when every candidate lies on the screen. |
| PopupGeometry.FirstEdgeIsFirstOffending | code/src/playbackmodewidgetfactory.cpp:53-75 | The reference edge is UNDEFINED exactly when every candidate lies on the screen. Otherwise it is the classification of the first candidate that does not. |
| PopupGeometry.Target | code/src/playbackmodewidgetfactory.cpp:81-98 | Against the bottom edge popup `index` sits one popup height plus a margin above the button's origin, shifted left by `index` times its width plus a margin. For RIGHT, LEFT and TOP it stays at the button's origin. With no edge it goes to its point on the circle. |
| PopupGeometry.BottomNeighbours | code/src/playbackmodewidgetfactory.cpp:82-85 | Against the bottom edge each popup ends one margin above the button, and popup 0 keeps the button's x. Of two equally wide neighbours, the later one sits to the left, exactly one margin away. |
| PopupGeometry.BottomRowDisjoint | code/src/playbackmodewidgetfactory.cpp:82-85 | Against the bottom edge, any later popup of the same width lies wholly to the left of any earlier one, so the row never overlaps. |
| PlaybackModes.Move | code/src/playbackmodewidgetfactory.cpp:47-107 | Only the remembered edge changes, and it becomes the edge of the first off-screen candidate rectangle. Each popup goes to its target for that edge: the button's origin for RIGHT, LEFT and TOP, and its circle point, moved and never animated, when there is no edge. A popup is animated from the origin exactly when an edge appears after a layout without one. |
| PlaybackModes.RepeatedLayoutOnlyMoves | code/src/playbackmodewidgetfactory.cpp:100-106 | Laying out again with the same inputs finds the same edge and animates no popup. |
| PlaybackModes.FlipVisibility | code/src/playbackmodewidgetfactory.cpp:114-117 | Each popup's visibility is negated independently, and nothing else about the list changes. |
| PlaybackModes.FlipTwice | code/src/playbackmodewidgetfactory.cpp:114-117 | Flipping visibility twice restores every popup. |
| PlaybackModes.TogglePlaybackModes | code/src/playbackmodewidgetfactory.cpp:111-118 | The popups are laid out as `move` guarantees, and then each popup's visibility is negated with nothing else changed. |

## Left out

- src/Player/views/viewplaylists.cpp: signal and slot wiring and widget setup. Its arithmetic depends on slider clamping and icon-theme lookup, which are not part of this model.
- code/src/playlists/stardelegate.cpp: delegate painting and editor plumbing. The star-rating logic it forwards to is not part of this model.
- src/Core/abstractview.h: an interface with empty defaults and no behaviour.
- src/MiamPlayer/filesystem/addressbardirectorylist.h: declarations only. The bodies of its operations are not part of this model.
- `proxy()` (uniquelibraryitemmodel.cpp:35-38) and the constructor's proxy wiring (:11, :14-15): they create a sort/filter proxy and set it up over the model, which is a toolkit concern. The rest of the constructor is modelled. `setColumnCount(3)` (:13) fixes the three columns that a row's one to three cells fill. The constructor's empty rows and maps are `EmptyModel`.
- RemoveRow: the real `removeNode` ("clean unused nodes") may also remove parent rows that become empty. Its body is not part of this model, so it is assumed to remove exactly the given row.
- UniqueLibrary.InsertNode: `insertSeparator` is not part of this model. Its result is a parameter, and any separator row it adds to the model is not represented.
- UniqueLibrary.InsertNode: the separator map stores a stable reference to the artist item, not the model index the source stores at uniquelibraryitemmodel.cpp:90. A plain model index names a row position and goes stale when an earlier row is removed at :67. For example, insert a track with URI u (row 0), then an artist (row 1, separator recorded), then another track with URI u. Row 0 is removed, the artist moves to row 0, and the stored index now names the new track row. The invariant "every recorded separator points at an artist row" holds only under the stable-reference reading.
- UniqueLibrary.InsertNode: the declaration of `_topLevelItems` is not part of this model. It is taken as a single-valued map, so inserting for a separator that is already a key replaces the earlier artist. A multi-valued map would keep every artist recorded under one separator (one separator per letter).
- UniqueLibrary.CurrentLetter: the whole key is upper-cased and then its first character is taken. The model upper-cases only the first character, which differs for characters whose upper case is several characters long. The source returns `at(0)` of a UTF-16 string, which is one code unit. For a key whose first character lies outside the Basic Multilingual Plane, the source returns a lone high surrogate. Dafny characters are Unicode scalar values, which exclude surrogates, so the model returns the whole upper-cased first character instead. Proxy index mapping is folded into the index view.
- The DAO accessors are opaque text fields: `trackNumber(true)` formatting, `titleNormalized`, `title`, `year`, `disc` and `uri`. A node's parent is taken to have the kind that the source's cast assumes.
- Move: the polar placement uses floating-point angles and lengths, and rounds to the nearest point. That placement is not modelled; the resulting points are inputs.
- Move: the desktop's available geometry is not queried; it is an input.
- Move: the toolkit's rule that a null rectangle is never contained is not modelled. Containment is the four side comparisons. Integer overflow in `index * (width + margin)` is not modelled either, because coordinates are unbounded integers.
- Move: animation timing and the actual widget move are effects, and are returned as a list of placements.
- PopupGeometry.BottomRowDisjoint: non-overlap is proved for equally wide popups only. With different widths the formula `index * (width_i + margin)` can overlap neighbours.
- PlaybackModes.Create: the popups' size and icon come from the popup widget class, which is not part of this model, so they are parameters. All popups have the same size.
- PlaybackModes.Create: the initial `_previousEdge` and initial popup visibility are declared in a header that is not part of this model. They are taken as UNDEFINED and hidden.
- PlaybackModes.Click: the handler dereferences the current tab playlist and the player's playlist without null checks (playbackmodewidgetfactory.cpp:39-41). The model assumes a current tab playlist exists and that its media playlist is non-null, so `current` is always a playlist. The crash the source would hit otherwise is not modelled.
- NormalizedKeys.ArtistGroupIsExact: exact grouping is proved only for albums and tracks whose album has an artist. Without an artist, an album key begins with its year and a track key with its disc. Such a key can start with an artist's key (`ArtistlessAlbumJoinsGroup`, `AlbumlessTrackJoinsGroup`), so those rows can sort inside that artist's group.
- Click: the order of the toolkit's map iteration when wiring handlers does not affect any click's effect and is not modelled. The player's playlist is identified by name.
- Widget painting, Qt object ownership and signal/slot machinery are not modelled.
