# Map snapshots and item tag resolution, in Dafny

This project models two parts of a tile-based simulation game and proves properties of them.

**Map snapshots.** `src/game/map.rs` saves a map to one document and loads it back. A map has a name, a placement table (`tiles`: tile type and modifier per coordinate), global data and a save time. Beside the map runs a table of tile entities, one per occupied coordinate, each holding that tile's data.

- Saving walks the placement table. For every coordinate that also has a live entity, it reads the entity's data, stops the entity and emits a saved tile.
- Runtime identifiers mean nothing across runs. So the save also writes a header that gives, for every tile-type identifier used, the string the interner resolves it to.
- Loading has three cases:
  - a file that cannot be opened, for whatever reason: a new empty map;
  - a file that does not decode: a new empty map under the quarantine name `<name>-ERR-<yymmddHHMMSS>`, and an `invalid_map_data` error carrying both names;
  - otherwise: every saved tile is re-keyed from old identifier to header string to current identifier. A tile whose string the current run does not know is dropped. Every kept tile gets a fresh entity, and its data is replayed into that entity.

**Item tag resolution.** `src/resource/item.rs` converts items between their textual and interned forms and defines `id_match`: an identifier matches itself, and matches a tag whose rule admits it. It also keeps `ordered_items`, the registered item identifiers sorted by display name. `get_items` resolves an identifier to items. A concrete item gives a fresh one-element list. A tag is resolved once, by filtering `ordered_items`, and then kept in a cache that the caller owns.

Files:

- `ids.dfy`: `Wrappers.Option`, and the interner, modelled as an append-only table of strings (`Ids`).
- `tile_entity.dfy`: the tile-entity table (`TileEntity`).
- `map.dfy`: the snapshot document and save/load (`GameMap`).
- `item.dfy`: items, matching, ordering and the tag cache (`Items`).

Things the model takes as parameters:

- Clock readings.
- The interner's data conversions `data_to_raw` and `data_from_raw`.
- A tag's rule.
- An item's display name.
- The text conversions of a resource identifier.

The saved document and the outcome of reading a file are plain values. Identifiers and the save time are unbounded integers.

The source and its design description differ in three places. The model follows the source each time:

- The design says a failed entity query during save aborts the save. The source unwraps the reply, so it panics. The model makes this a precondition of `GameMap.Save`.
- The design says dropped tiles are logged on load. The source drops them silently.
- The design calls the header an ordered sequence. The source builds it from a hash map, so its order is arbitrary. The model's `Entries` fixes no order.

## Model

| member | source | states |
|---|---|---|
| `Ids.Interner.Get` | src/resource/item.rs:27-28 | an interned string's identifier is found exactly when the string is in the table, and that identifier's entry is the string |
| `Ids.Interner.Resolve` | src/game/map.rs:98 | an identifier resolves exactly when the interner issued it, to a string it holds |
| `Ids.Interner.Intern` | src/resource/item.rs:21-22 | interning gives an identifier that `Get` and `Resolve` agree on; the table only grows, and is unchanged when the string was known |
| `Ids.GetResolveInverse` | src/game/map.rs:173-176 | for a valid interner, `Get(s) == Some(id)` if and only if `Resolve(id) == Some(s)` |
| `Ids.ResolveInjective` | src/game/map.rs:97-99 | two identifiers resolving to the same string are equal |
| `Ids.InternTwice` | src/resource/item.rs:19-24 | interning the same string twice gives the same identifier, and the table ends unchanged or grown by that one string |
| `Ids.IndexOf` | src/resource/item.rs:27 | the position found holds the string; no position is found only when the string is absent |
| `TileEntity.TileEntities.GetData` | src/game/map.rs:101-104 | a running entity answers `GetData` with its whole data map; asking a stopped one is excluded, as the source unwraps the reply |
| `TileEntity.TileEntities.Stop` | src/game/map.rs:107 | stopping adds the coordinate to the stopped set and changes no data |
| `TileEntity.TileEntities.Spawn` | src/game/map.rs:177 | a new entity at the coordinate starts with empty data and is running |
| `TileEntity.TileEntities.SetData` | src/game/map.rs:181 | `SetData(k, v)` sets key `k` of that entity's data to `v` and changes nothing else |
| `TileEntity.TileEntities.Replay` | src/game/map.rs:180-182 | one `SetData` per entry, in any order, leaves the entity's data as its old data overridden by every entry |
| `GameMap.NewEmpty` | src/game/map.rs:66-74 | the new map has the given name, no tiles, no data, and the clock reading as save time |
| `GameMap.Path` | src/game/map.rs:76-78 | the path is `map/`, then the name, then `.bin`, and the name can be read back from it |
| `GameMap.PathInjective` | src/game/map.rs:76-78 | distinct map names give distinct paths |
| `GameMap.TwoDigits` | src/game/map.rs:148 | a number below 100 becomes two decimal digits that read back as the number |
| `GameMap.StampDecodes` | src/game/map.rs:148 | the `%y%m%d%H%M%S` stamp is twelve digits, from which year-in-century, month, day, hour, minute and second read back |
| `GameMap.Stamp` | src/game/map.rs:148 | the `%y%m%d%H%M%S` rendering of a local time is twelve decimal digits |
| `GameMap.ErrMapName` | src/game/map.rs:148 | the quarantine name is 17 characters longer than the map name, starts with it, and differs from it |
| `GameMap.ErrMapNameShape` | src/game/map.rs:148 | the quarantine name is the map name, then `-ERR-`, then the stamp, so it never equals the map name |
| `GameMap.Entries` | src/game/map.rs:116 | the header lists every entry of the identifier map exactly once, and nothing else |
| `GameMap.Save` | src/game/map.rs:80-125 | saves exactly the coordinates with both a tile and a live entity, once each, with the tile's own identifier and modifier and the entity's data in raw form; the header lists exactly the identifiers used, once each, with their resolved strings; exactly those entities are stopped |
| `GameMap.SavedTileAppend` | src/game/map.rs:96-109 | emitting a tile with a live entity extends the saved list and its identifier set by that tile |
| `GameMap.HeaderMap` | src/game/map.rs:167 | the header read back as a lookup has exactly the header's identifiers as keys |
| `GameMap.HeaderMapAt` | src/game/map.rs:167 | with no identifier listed twice, the lookup gives each header entry's string |
| `GameMap.Remap` | src/game/map.rs:173-176 | a saved identifier remaps exactly when the header names it and the current interner knows the string, and it remaps to the identifier of that string |
| `GameMap.RebuildTiles` | src/game/map.rs:169-186 | the placement table the load loop builds, entry by entry with a later entry overriding an earlier one at the same coordinate, holds only coordinates of the saved list |
| `GameMap.RebuildData` | src/game/map.rs:169-186 | the entity data the load loop leaves behind, over the same entries, holds only coordinates of the saved list |
| `GameMap.RebuildKeys` | src/game/map.rs:169-186 | the rebuilt placement table and entity table have the same coordinates, all of them saved ones |
| `GameMap.RebuildAt` | src/game/map.rs:172-186 | in a saved list with distinct coordinates, as every save produces, a saved tile is kept exactly when its identifier remaps; then it has the new identifier, its own modifier, and an entity holding its converted data |
| `GameMap.RebuildStep` | src/game/map.rs:172-186 | handling one more saved tile adds it to both tables when it remaps, and changes neither otherwise |
| `GameMap.Restore` | src/game/map.rs:169-187 | the load loop spawns an entity and replays its data for each entry that remaps, leaving exactly the `RebuildTiles` placement table and the `RebuildData` entity data, with no entity stopped |
| `GameMap.Load` | src/game/map.rs:127-202 | a file that cannot be opened gives a new empty map and no entities; an undecodable file gives a new empty map under the quarantine name and an `invalid_map_data` error with the map name and the quarantine name; a decoded document gives the rebuilt tiles and entities, the map name, the saved save time and the converted global data; no new entity is stopped |
| `GameMap.Moved` | src/game/map.rs:173-175 | an identifier moved from the saving run to the loading run resolves, in the loading run, to the string it had in the saving run |
| `GameMap.HeaderMapOfSave` | src/game/map.rs:167 | reading back a save's header maps every identifier the save used to the saving run's string for it |
| `GameMap.LoadOfSaveAt` | src/game/map.rs:92-186 | each saved tile, loaded in any run, is kept exactly as `Survivors` says |
| `GameMap.LoadOfSaveRebuiltSurvive` | src/game/map.rs:92-186 | every coordinate a load of a save rebuilds is a survivor, with the survivor's tile and data |
| `GameMap.LoadOfSaveSurvivorsRebuilt` | src/game/map.rs:92-186 | every survivor is rebuilt by a load of the save |
| `GameMap.Survivors` | src/game/map.rs:92-186 | the reference for a save followed by a load: a tile that had a live entity comes back exactly when the loading run knows its type's saving-run string; it keeps its modifier, and its new identifier resolves to that string |
| `GameMap.SurvivorData` | src/game/map.rs:92-186 | the entity data that comes back: over exactly the coordinates of `Survivors`, `fromRaw(toRaw(data))` of each entity's data |
| `GameMap.LoadOfSaveTiles` | src/game/map.rs:92-186 | loading a save rebuilds exactly the `Survivors` placement table |
| `GameMap.LoadOfSaveData` | src/game/map.rs:92-186 | loading a save rebuilds exactly the `SurvivorData` entity data |
| `GameMap.LoadOfSave` | src/game/map.rs:92-186 | loading a save in any run keeps exactly the tiles that had a live entity and whose type string the loading run knows, re-keyed to that run's identifier with their modifier, each with an entity holding `fromRaw(toRaw(data))` |
| `GameMap.MovedSameRun` | src/game/map.rs:97-99 | within one run every saved tile's identifier moves to itself |
| `GameMap.SurvivorsSameRun` | src/game/map.rs:184-185 | when identifiers move to themselves and the data conversion round-trips, the survivors are the tiles with a live entity, unchanged |
| `GameMap.LoadOfSaveSameRun` | src/game/map.rs:92-186 | within one run, with data conversion that round-trips, loading a save gives back every tile that had a live entity unchanged, and each such entity's data |
| `GameMap.SaveThenLoad` | src/game/map.rs:80-202 | when the data conversions round-trip (`fromRaw(toRaw(d)) == d` for the global data and each entity's data), a save followed by a load in the same run gives a map with the same name, the save's time, the same global data and exactly the tiles that had live entities, with those entities' data; the save stopped exactly those entities |
| `Items.ToItem` | src/resource/item.rs:26-31 | gives an item exactly when both identifier strings are interned, and its identifiers resolve to those strings |
| `Items.ToItemRaw` | src/resource/item.rs:41-46 | gives nothing exactly when either identifier does not resolve, and otherwise the parsed resolved strings |
| `Items.InternToItem` | src/resource/item.rs:19-24 | always gives an item, which `ToItem` then finds; identifiers issued before are unchanged, and no string other than the item's two is interned |
| `Items.ToItemThenRaw` | src/resource/item.rs:26-46 | an item found from its textual form converts back to that form, when parsing undoes printing |
| `Items.ToRawThenItem` | src/resource/item.rs:26-46 | the textual form of an item converts back to that item, when printing undoes parsing |
| `Items.IdMatch` | src/resource/item.rs:49-59 | an identifier always matches itself; a different identifier matches exactly when the other is a tag whose rule admits it |
| `Items.NameLe` | src/resource/item.rs:111 | the `String` order of the sort key: a prefix comes first, and a name that comes first starts with a character no greater |
| `Items.NameLeIsLexicographic` | src/resource/item.rs:111 | that order holds exactly when one name is a prefix of the other, or has the smaller character at the first position where they differ |
| `Items.NameLeTotal` | src/resource/item.rs:111 | any two display names are ordered one way or the other |
| `Items.NameLeTransitive` | src/resource/item.rs:111 | the display-name order is transitive |
| `Items.SeqOfSet` | src/resource/item.rs:109 | collecting the registry's keys lists each key exactly once |
| `Items.InsertIntoSorted` | src/resource/item.rs:111 | moving an element into a sorted prefix leaves the prefix one longer and sorted, the array a permutation of what it was, and every element after the prefix in place |
| `Items.SwapDown` | src/resource/item.rs:111 | swapping an element ordered before its left neighbour moves it one place down while the rest of the prefix stays sorted and it stays ordered before everything to its right |
| `Items.InsertedSorted` | src/resource/item.rs:111 | once the moved element is ordered after its left neighbour and before everything to its right, the whole prefix is sorted |
| `Items.SortByName` | src/resource/item.rs:111 | the array ends sorted by display name and is a permutation of what it was |
| `Items.ResourceManager.OrderedItems` | src/resource/item.rs:108-114 | `orderedItems` becomes a permutation of the registered item identifiers, non-decreasing by display name; the registry is unchanged |
| `Items.TagItems` | src/resource/item.rs:94-99 | a resolved tag has at most as many items as `ordered_items` has identifiers |
| `Items.TagItemsMember` | src/resource/item.rs:94-99 | an item is among a tag's items exactly when it is registered under its identifier, that identifier is in `ordered_items`, and it matches the tag |
| `Items.TagItemsSorted` | src/resource/item.rs:94-99 | a tag's items keep the display-name order of `ordered_items` |
| `Items.TagItemsDistinct` | src/resource/item.rs:94-99 | with no identifier repeated in `ordered_items`, no item is resolved twice |
| `Items.TagItemsOfRegistry` | src/resource/item.rs:94-99 | when `ordered_items` lists exactly the registered items, a tag resolves to exactly the registered items matching it, and an identifier that is neither item nor tag resolves to nothing |
| `Items.OccursTwice` | src/resource/item.rs:109 | a general sequence fact used by `ListOfSetNoDuplicates` for the collected key list: an element at two positions of a list counts at least twice in its multiset |
| `Items.ListOfSetNoDuplicates` | src/resource/item.rs:109 | a list holding each key of the registry once has no duplicates |
| `Items.ResolvedTag` | src/resource/item.rs:94-113 | after `ordered_items`, a tag resolves to the registered items matching it, each once, in display-name order |
| `Items.ResourceManager.GetItems` | src/resource/item.rs:89-106 | a registered item gives the one-element list of that item and leaves the cache alone; anything else leaves the cache holding it, keeps an existing entry, adds the filtered list when absent, and changes no other entry; a coherent cache stays coherent and the result is then the filtered list |
| `Items.ResourceManager.GetItemsTwice` | src/resource/item.rs:93-104 | two calls in a row with the same identifier give equal lists |

## Left out

- Compression, JSON encoding, files, buffer sizes and `create_dir_all` are not modelled. A saved document is a value, and reading a file gives "missing", "does not decode" or a decoded document. The panics of `File::create`, `Encoder::new`, `Decoder::new`, `to_writer` and `do_finish` are outside the model.
- Actors are not modelled. `GetData` is a read, `SetData` an assignment, `Stop` an insertion into a stopped set. Message ordering, `block_on`, asynchronous sending and a failing `new_tile` are outside the model.
- An actor replaced on load by a later saved tile at the same coordinate is not tracked. The source leaves it running, unreferenced.
- `data_to_raw`, `data_from_raw`, `Tag::of`, `item_name`, `IdRaw::to_string`, `IdRaw::parse`, `IdRaw::to_id` and `game::new_tile` are not shown. They are given function values. `to_id` is taken to intern the identifier's string. `new_tile` is taken to start an entity with empty data (`TileEntities.Spawn`), which the same-run round trip relies on.
- `Registry::item` is not shown. It is taken to be a lookup in `items`.
- The interner's internals are not shown. It is modelled as an append-only table whose identifiers are positions.
- Clock readings are parameters: the two `Local::now` calls of load and `Utc::now` of save.
- The error manager and logging are not modelled. Load returns the error it would push, with the error identifier as a parameter.
- `MapInfo`, `load_item` and `load_items` are not modelled. `load_item` and `load_items` read directories and files and panic on error.
- Hash-map iteration order is modelled as an arbitrary choice. The model's sort is an insertion sort. The source uses `sort_unstable_by_key`, and only the sorted-permutation contract is claimed.
- `Arc` sharing is not modelled. Lists are values, so "freshly allocated" and "shared" cannot be told apart.
- The integer widths of `TileCoord`, `TileModifier`, `Id` and the `i64` save time are not modelled. No arithmetic is done on them.
- GameMap.Save: the source panics when a saved tile's identifier does not resolve or its entity no longer answers. The model requires neither happens instead of modelling the panic.
