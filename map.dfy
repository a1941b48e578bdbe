/**
 * The map snapshot: saving a map and its tile entities as one document, and
 * loading such a document back into a map and a fresh table of tile entities.
 *
 * Identifiers are only meaningful within one run, so a saved document carries a
 * header pairing every tile-type identifier it uses with that identifier's
 * string.  Loading re-keys each saved tile through the header and the current
 * run's interner; a tile whose string the current run does not know is dropped.
 *
 * Compression, the JSON encoding and the file system are not modelled: a saved
 * document is a `SerdeMap` value, and what reading the file gives is a
 * `MapFile` (a file that could not be opened, a file that does not decode, or
 * a decoded document).
 * Clock readings are parameters.
 */
module GameMap {
  import opened Wrappers
  import opened Ids
  import opened TileEntity

  /** The directory snapshots live in. */
  const MapPath: string := "map"

  /** The placement table: tile type and modifier per coordinate. */
  type Tiles = map<TileCoord, (Id, TileModifier)>

  datatype Map = Map(mapName: string, tiles: Tiles, data: DataMap, saveTime: int)

  /** One saved tile: its type identifier as issued by the saving run, its
      modifier and its data in raw form. */
  datatype SerdeTile = SerdeTile(id: Id, modifier: TileModifier, data: DataMapRaw)

  /** The saved document. */
  datatype SerdeMap = SerdeMap(
    header: seq<(Id, string)>,
    serdeTiles: seq<(TileCoord, SerdeTile)>,
    data: DataMapRaw,
    saveTime: int)

  /** What opening and decoding the snapshot file at `Path(name)` gives:
      `Missing` when the file could not be opened for any reason (absent,
      unreadable, a directory), `Undecodable` when it opened but did not decode. */
  datatype MapFile = Missing | Undecodable | Decoded(doc: SerdeMap)

  /** A local wall-clock reading, the fields the quarantine name is built from. */
  datatype LocalTime = LocalTime(year: int, month: nat, day: nat, hour: nat, minute: nat, second: nat)
  {
    predicate Valid() {
      1 <= month <= 12 && 1 <= day <= 31 && hour < 24 && minute < 60 && second < 61
    }
  }

  /** An error handed to the error manager: its identifier and its arguments. */
  datatype ErrorPush = ErrorPush(errorId: Id, args: seq<string>)

  // ---------------------------------------------------------------------------
  // Names and paths

  /** A map with no tiles and no data. */
  function NewEmpty(mapName: string, now: int): (m: Map)
    ensures m.mapName == mapName && m.tiles == map[] && m.data == map[] && m.saveTime == now
  {
    Map(mapName, map[], map[], now)
  }

  /** The file a map is saved to: the map's name, under the map directory, with
      the `.bin` extension. */
  function Path(mapName: string): (p: string)
    ensures |p| == |mapName| + 8
    ensures p[..4] == "map/" && p[|p| - 4..] == ".bin"
    ensures p[4..|p| - 4] == mapName
  {
    MapPath + "/" + mapName + ".bin"
  }

  /** Distinct maps are saved to distinct files. */
  lemma PathInjective(a: string, b: string)
    requires Path(a) == Path(b)
    ensures a == b
  {
    var p := Path(a);
    assert a == p[4..|p| - 4];
  }

  function Digit(n: nat): (c: char)
    requires n < 10
    ensures '0' <= c <= '9'
  {
    "0123456789"[n]
  }

  function DigitValue(c: char): int {
    c as int - '0' as int
  }

  /** `n` written as two decimal digits, zero-padded. */
  function TwoDigits(n: nat): (s: string)
    requires n < 100
    ensures |s| == 2 && '0' <= s[0] <= '9' && '0' <= s[1] <= '9'
    ensures DigitValue(s[0]) * 10 + DigitValue(s[1]) == n
  {
    [Digit(n / 10), Digit(n % 10)]
  }

  /** The `%y%m%d%H%M%S` rendering of a local time: year within its century,
      month, day, hour, minute and second, two digits each. */
  function Stamp(t: LocalTime): (s: string)
    requires t.Valid()
    ensures |s| == 12
    ensures forall k :: 0 <= k < 12 ==> '0' <= s[k] <= '9'
  {
    TwoDigits(t.year % 100) + TwoDigits(t.month) + TwoDigits(t.day)
      + TwoDigits(t.hour) + TwoDigits(t.minute) + TwoDigits(t.second)
  }

  /** The stamp is twelve digits, from which every field it renders can be read
      back: two readings of the clock give the same stamp only when they agree
      on all six fields. */
  lemma StampDecodes(t: LocalTime)
    requires t.Valid()
    ensures |Stamp(t)| == 12
    ensures forall k :: 0 <= k < 12 ==> '0' <= Stamp(t)[k] <= '9'
    ensures DigitValue(Stamp(t)[0]) * 10 + DigitValue(Stamp(t)[1]) == t.year % 100
    ensures DigitValue(Stamp(t)[2]) * 10 + DigitValue(Stamp(t)[3]) == t.month
    ensures DigitValue(Stamp(t)[4]) * 10 + DigitValue(Stamp(t)[5]) == t.day
    ensures DigitValue(Stamp(t)[6]) * 10 + DigitValue(Stamp(t)[7]) == t.hour
    ensures DigitValue(Stamp(t)[8]) * 10 + DigitValue(Stamp(t)[9]) == t.minute
    ensures DigitValue(Stamp(t)[10]) * 10 + DigitValue(Stamp(t)[11]) == t.second
  {
    var y, mo, d := TwoDigits(t.year % 100), TwoDigits(t.month), TwoDigits(t.day);
    var h, mi, s := TwoDigits(t.hour), TwoDigits(t.minute), TwoDigits(t.second);
    assert Stamp(t) == y + mo + d + h + mi + s;
  }

  /** The quarantine name given to a map whose file does not decode. */
  function ErrMapName(mapName: string, t: LocalTime): (r: string)
    requires t.Valid()
    ensures |r| == |mapName| + 17 && r[..|mapName|] == mapName
    ensures r != mapName
  {
    mapName + "-ERR-" + Stamp(t)
  }

  /** The quarantine name starts with the original name, followed by the error
      marker and the stamp, so it never equals the original name. */
  lemma ErrMapNameShape(mapName: string, t: LocalTime)
    requires t.Valid()
    ensures |ErrMapName(mapName, t)| == |mapName| + 17
    ensures ErrMapName(mapName, t)[..|mapName|] == mapName
    ensures ErrMapName(mapName, t)[|mapName|..|mapName| + 5] == "-ERR-"
    ensures ErrMapName(mapName, t)[|mapName| + 5..] == Stamp(t)
    ensures ErrMapName(mapName, t) != mapName
  {
    StampDecodes(t);
    var r := ErrMapName(mapName, t);
    assert r == mapName + "-ERR-" + Stamp(t);
  }

  // ---------------------------------------------------------------------------
  // What a save produces

  /** The coordinates a tile list covers. */
  function SavedCoords(st: seq<(TileCoord, SerdeTile)>): set<TileCoord> {
    set j | 0 <= j < |st| :: st[j].0
  }

  /** The tile-type identifiers a tile list uses. */
  function TileIds(st: seq<(TileCoord, SerdeTile)>): set<Id> {
    set j | 0 <= j < |st| :: st[j].1.id
  }

  /** The identifiers a header gives a string for. */
  function HeaderIds(header: seq<(Id, string)>): set<Id> {
    set i | 0 <= i < |header| :: header[i].0
  }

  ghost predicate DistinctCoords(st: seq<(TileCoord, SerdeTile)>) {
    forall i, j :: 0 <= i < j < |st| ==> st[i].0 != st[j].0
  }

  /** `st` lists, once each, exactly the coordinates that have both a tile and a
      live entity, each with the tile's own identifier and modifier and the
      entity's data in raw form. */
  ghost predicate SavesTiles(st: seq<(TileCoord, SerdeTile)>, tiles: Tiles,
                             entities: map<TileCoord, DataMap>, toRaw: DataMap -> DataMapRaw)
  {
    && DistinctCoords(st)
    && SavedCoords(st) == tiles.Keys * entities.Keys
    && forall j :: 0 <= j < |st| ==>
         && st[j].0 in tiles && st[j].0 in entities
         && st[j].1 == SerdeTile(tiles[st[j].0].0, tiles[st[j].0].1, toRaw(entities[st[j].0]))
  }

  /** `header` gives, once each, exactly the identifiers `st` uses, each with the
      string the interner resolves it to. */
  ghost predicate HeaderFor(header: seq<(Id, string)>, st: seq<(TileCoord, SerdeTile)>, interner: Interner)
    reads interner
  {
    && (forall i, j :: 0 <= i < j < |header| ==> header[i].0 != header[j].0)
    && HeaderIds(header) == TileIds(st)
    && forall i :: 0 <= i < |header| ==> interner.Resolve(header[i].0) == Some(header[i].1)
  }

  /** The entries of `m` as a list, in no particular order. */
  method Entries(m: map<Id, string>) returns (s: seq<(Id, string)>)
    ensures forall i, j :: 0 <= i < j < |s| ==> s[i].0 != s[j].0
    ensures HeaderIds(s) == m.Keys
    ensures forall i :: 0 <= i < |s| ==> s[i].0 in m && m[s[i].0] == s[i].1
  {
    s := [];
    var rest := m.Keys;
    while rest != {}
      invariant rest <= m.Keys
      invariant HeaderIds(s) == m.Keys - rest
      invariant forall i, j :: 0 <= i < j < |s| ==> s[i].0 != s[j].0
      invariant forall i :: 0 <= i < |s| ==> s[i].0 in m && m[s[i].0] == s[i].1
      decreases rest
    {
      var id :| id in rest;
      assert HeaderIds(s + [(id, m[id])]) == HeaderIds(s) + {id} by {
        var s' := s + [(id, m[id])];
        assert s'[|s|].0 == id;
        assert forall i :: 0 <= i < |s| ==> s'[i] == s[i];
      }
      s := s + [(id, m[id])];
      rest := rest - {id};
    }
  }

  /** Saves `m`: for every coordinate with both a tile and a live entity, reads
      the entity's data, stops the entity and emits the tile; records every
      tile-type identifier it emits in the header.  The save time is the clock
      reading `now`.  Each tile's identifier must resolve and its entity must
      still be running: the source unwraps both. */
  method Save(m: Map, interner: Interner, entities: TileEntities,
              toRaw: DataMap -> DataMapRaw, now: int) returns (doc: SerdeMap)
    requires forall c :: c in m.tiles && c in entities.data ==>
               interner.Resolve(m.tiles[c].0).Some? && c !in entities.stopped
    modifies entities`stopped
    ensures SavesTiles(doc.serdeTiles, m.tiles, entities.data, toRaw)
    ensures HeaderFor(doc.header, doc.serdeTiles, interner)
    ensures doc.data == toRaw(m.data) && doc.saveTime == now
    ensures entities.stopped == old(entities.stopped) + m.tiles.Keys * entities.data.Keys
  {
    var idMap: map<Id, string> := map[];
    var serdeTiles: seq<(TileCoord, SerdeTile)> := [];
    var todo := m.tiles.Keys;
    while todo != {}
      invariant todo <= m.tiles.Keys
      invariant SavesTiles(serdeTiles, m.tiles - todo, entities.data, toRaw)
      invariant idMap.Keys == TileIds(serdeTiles)
      invariant forall id :: id in idMap ==> interner.Resolve(id) == Some(idMap[id])
      invariant entities.stopped == old(entities.stopped) + (m.tiles.Keys - todo) * entities.data.Keys
      decreases todo
    {
      var c :| c in todo;
      if c in entities.data {
        var (id, modifier) := m.tiles[c];
        if id !in idMap {
          idMap := idMap[id := interner.Resolve(id).value];
        }
        var d := entities.GetData(c);
        var raw := toRaw(d);
        entities.Stop(c);
        SavedTileAppend(serdeTiles, m.tiles, todo, entities.data, toRaw, c);
        serdeTiles := serdeTiles + [(c, SerdeTile(id, modifier, raw))];
      } else {
        SavedTileSkip(serdeTiles, m.tiles, todo, entities.data, toRaw, c);
      }
      todo := todo - {c};
    }
    assert m.tiles - todo == m.tiles;
    var header := Entries(idMap);
    doc := SerdeMap(header, serdeTiles, toRaw(m.data), now);
  }

  /** The loop step of `Save` that emits the tile at `c`. */
  lemma SavedTileAppend(st: seq<(TileCoord, SerdeTile)>, tiles: Tiles, todo: set<TileCoord>,
                        entities: map<TileCoord, DataMap>, toRaw: DataMap -> DataMapRaw, c: TileCoord)
    requires c in todo && c in tiles && c in entities
    requires SavesTiles(st, tiles - todo, entities, toRaw)
    ensures SavesTiles(st + [(c, SerdeTile(tiles[c].0, tiles[c].1, toRaw(entities[c])))],
                       tiles - (todo - {c}), entities, toRaw)
    ensures TileIds(st + [(c, SerdeTile(tiles[c].0, tiles[c].1, toRaw(entities[c])))]) == TileIds(st) + {tiles[c].0}
  {
    var st' := st + [(c, SerdeTile(tiles[c].0, tiles[c].1, toRaw(entities[c])))];
    assert forall j :: 0 <= j < |st| ==> st'[j] == st[j];
    assert c !in SavedCoords(st);
    assert SavedCoords(st') == SavedCoords(st) + {c} by {
      assert st'[|st|].0 == c;
    }
    assert TileIds(st') == TileIds(st) + {tiles[c].0} by {
      assert st'[|st|].1.id == tiles[c].0;
    }
  }

  /** The loop step of `Save` that skips `c`, which has no entity. */
  lemma SavedTileSkip(st: seq<(TileCoord, SerdeTile)>, tiles: Tiles, todo: set<TileCoord>,
                      entities: map<TileCoord, DataMap>, toRaw: DataMap -> DataMapRaw, c: TileCoord)
    requires c in todo && c in tiles && c !in entities
    requires SavesTiles(st, tiles - todo, entities, toRaw)
    ensures SavesTiles(st, tiles - (todo - {c}), entities, toRaw)
  {
  }

  // ---------------------------------------------------------------------------
  // What a load rebuilds

  /** The header as a lookup from saved identifier to string; a later entry for
      the same identifier overrides an earlier one. */
  function HeaderMap(header: seq<(Id, string)>): (m: map<Id, string>)
    ensures m.Keys == HeaderIds(header)
  {
    if header == [] then map[]
    else
      var last := header[|header| - 1];
      var prefix := header[..|header| - 1];
      assert HeaderIds(header) == HeaderIds(prefix) + {last.0} by {
        assert forall i :: 0 <= i < |prefix| ==> header[i] == prefix[i];
      }
      HeaderMap(prefix)[last.0 := last.1]
  }

  /** With no identifier listed twice, the lookup gives each entry's string. */
  lemma {:induction false} HeaderMapAt(header: seq<(Id, string)>, i: nat)
    requires forall a, b :: 0 <= a < b < |header| ==> header[a].0 != header[b].0
    requires i < |header|
    ensures HeaderMap(header)[header[i].0] == header[i].1
  {
    if i < |header| - 1 {
      var prefix := header[..|header| - 1];
      HeaderMapAt(prefix, i);
      assert prefix[i] == header[i];
    }
  }

  /** The current run's identifier for a saved identifier: through the header's
      string, then the current interner. */
  function Remap(idReverse: map<Id, string>, interner: Interner, id: Id): (r: Option<Id>)
    reads interner
    ensures r.Some? <==> id in idReverse && idReverse[id] in interner.names
    ensures r.Some? ==> interner.Resolve(r.value) == Some(idReverse[id])
  {
    if id in idReverse then interner.Get(idReverse[id]) else None
  }

  /** The placement table rebuilt from a saved tile list, entry by entry in
      list order; an entry whose identifier does not remap is skipped. */
  function RebuildTiles(idReverse: map<Id, string>, interner: Interner,
                        st: seq<(TileCoord, SerdeTile)>): (r: Tiles)
    reads interner
    ensures r.Keys <= SavedCoords(st)
  {
    if st == [] then map[]
    else
      var prev := RebuildTiles(idReverse, interner, st[..|st| - 1]);
      var (c, t) := st[|st| - 1];
      match Remap(idReverse, interner, t.id)
      case None => prev
      case Some(id) => prev[c := (id, t.modifier)]
  }

  /** The entity data rebuilt from a saved tile list, over the same entries as
      `RebuildTiles`. */
  function RebuildData(idReverse: map<Id, string>, interner: Interner,
                       fromRaw: DataMapRaw -> DataMap, st: seq<(TileCoord, SerdeTile)>): (r: map<TileCoord, DataMap>)
    reads interner
    ensures r.Keys <= SavedCoords(st)
  {
    if st == [] then map[]
    else
      var prev := RebuildData(idReverse, interner, fromRaw, st[..|st| - 1]);
      var (c, t) := st[|st| - 1];
      match Remap(idReverse, interner, t.id)
      case None => prev
      case Some(_) => prev[c := fromRaw(t.data)]
  }

  /** The rebuilt placement table and entity table have the same coordinates,
      all of them coordinates of the saved list. */
  lemma {:induction false} RebuildKeys(idReverse: map<Id, string>, interner: Interner,
                                       fromRaw: DataMapRaw -> DataMap, st: seq<(TileCoord, SerdeTile)>)
    ensures RebuildTiles(idReverse, interner, st).Keys == RebuildData(idReverse, interner, fromRaw, st).Keys
    ensures RebuildTiles(idReverse, interner, st).Keys <= SavedCoords(st)
  {
    if st != [] {
      var prefix := st[..|st| - 1];
      RebuildKeys(idReverse, interner, fromRaw, prefix);
      assert forall j :: 0 <= j < |prefix| ==> prefix[j] == st[j];
      assert SavedCoords(st) == SavedCoords(prefix) + {st[|st| - 1].0};
    }
  }

  /** In a list with distinct coordinates, a saved tile survives the load
      exactly when its identifier remaps, and then it gets the remapped
      identifier, its own modifier, and its own data. */
  lemma {:induction false} RebuildAt(idReverse: map<Id, string>, interner: Interner,
                                     fromRaw: DataMapRaw -> DataMap, st: seq<(TileCoord, SerdeTile)>, j: nat)
    requires DistinctCoords(st) && j < |st|
    ensures (st[j].0 in RebuildTiles(idReverse, interner, st))
              == Remap(idReverse, interner, st[j].1.id).Some?
    ensures Remap(idReverse, interner, st[j].1.id).Some? ==>
              && RebuildTiles(idReverse, interner, st)[st[j].0]
                   == (Remap(idReverse, interner, st[j].1.id).value, st[j].1.modifier)
              && st[j].0 in RebuildData(idReverse, interner, fromRaw, st)
              && RebuildData(idReverse, interner, fromRaw, st)[st[j].0] == fromRaw(st[j].1.data)
  {
    var prefix := st[..|st| - 1];
    assert forall k :: 0 <= k < |prefix| ==> prefix[k] == st[k];
    RebuildKeys(idReverse, interner, fromRaw, prefix);
    if j < |st| - 1 {
      RebuildAt(idReverse, interner, fromRaw, prefix, j);
    } else {
      assert st[j].0 !in SavedCoords(prefix);
    }
  }

  /** One entry more of the saved list: the entry is added to both tables when
      its identifier remaps, and neither changes otherwise. */
  lemma RebuildStep(idReverse: map<Id, string>, interner: Interner,
                    fromRaw: DataMapRaw -> DataMap, st: seq<(TileCoord, SerdeTile)>, i: nat)
    requires i < |st|
    ensures var id := Remap(idReverse, interner, st[i].1.id);
            && RebuildTiles(idReverse, interner, st[..i + 1])
                 == (if id.Some? then RebuildTiles(idReverse, interner, st[..i])[st[i].0 := (id.value, st[i].1.modifier)]
                     else RebuildTiles(idReverse, interner, st[..i]))
            && RebuildData(idReverse, interner, fromRaw, st[..i + 1])
                 == (if id.Some? then RebuildData(idReverse, interner, fromRaw, st[..i])[st[i].0 := fromRaw(st[i].1.data)]
                     else RebuildData(idReverse, interner, fromRaw, st[..i]))
  {
    assert st[..i + 1][..i] == st[..i];
  }

  /** The loop of a load over the saved tile list: every entry whose identifier
      remaps gets a fresh entity at its coordinate, its data replayed into it,
      and a place in the returned placement table. */
  method Restore(idReverse: map<Id, string>, interner: Interner, fromRaw: DataMapRaw -> DataMap,
                 st: seq<(TileCoord, SerdeTile)>, entities: TileEntities)
    returns (tiles: Tiles)
    requires entities.data == map[] && entities.stopped == {}
    modifies entities
    ensures entities.stopped == {}
    ensures tiles == RebuildTiles(idReverse, interner, st)
    ensures entities.data == RebuildData(idReverse, interner, fromRaw, st)
  {
    tiles := map[];
    var i := 0;
    while i < |st|
      invariant 0 <= i <= |st|
      invariant entities.stopped == {}
      invariant tiles == RebuildTiles(idReverse, interner, st[..i])
      invariant entities.data == RebuildData(idReverse, interner, fromRaw, st[..i])
    {
      var (c, t) := st[i];
      RebuildStep(idReverse, interner, fromRaw, st, i);
      var id := Remap(idReverse, interner, t.id);
      if id.Some? {
        ghost var before := entities.data;
        entities.Spawn(c);
        entities.Replay(c, fromRaw(t.data));
        assert map[] + fromRaw(t.data) == fromRaw(t.data);
        assert entities.data == before[c := fromRaw(t.data)];
        tiles := tiles[c := (id.value, t.modifier)];
      }
      i := i + 1;
    }
    assert st[..i] == st;
  }

  /** Loads the map named `mapName` from what reading its file gave.
      A file that cannot be opened gives a new empty map; one that does not decode gives a
      new empty map under a quarantine name, and an `invalid_map_data` error
      carrying both names; a decoded document gives the tiles whose identifiers
      remap in the current run, each with a fresh entity holding its data, and
      keeps the saved name and save time.  `clock` and `now` are the two
      readings of the local clock. */
  method Load(file: MapFile, mapName: string, interner: Interner, fromRaw: DataMapRaw -> DataMap,
              clock: LocalTime, now: int, invalidMapData: Id)
    returns (m: Map, entities: TileEntities, pushed: Option<ErrorPush>)
    requires clock.Valid()
    ensures fresh(entities) && entities.stopped == {}
    ensures file.Missing? ==>
              && m == NewEmpty(mapName, now) && entities.data == map[] && pushed == None
    ensures file.Undecodable? ==>
              && m == NewEmpty(ErrMapName(mapName, clock), now) && entities.data == map[]
              && pushed == Some(ErrorPush(invalidMapData, [mapName, ErrMapName(mapName, clock)]))
    ensures file.Decoded? ==>
              && pushed == None
              && m.mapName == mapName && m.saveTime == file.doc.saveTime
              && m.data == fromRaw(file.doc.data)
              && m.tiles == RebuildTiles(HeaderMap(file.doc.header), interner, file.doc.serdeTiles)
              && entities.data == RebuildData(HeaderMap(file.doc.header), interner, fromRaw, file.doc.serdeTiles)
  {
    entities := new TileEntities();
    if file.Missing? {
      return NewEmpty(mapName, now), entities, None;
    }
    if file.Undecodable? {
      var errMapName := ErrMapName(mapName, clock);
      pushed := Some(ErrorPush(invalidMapData, [mapName, errMapName]));
      return NewEmpty(errMapName, now), entities, pushed;
    }
    var doc := file.doc;
    var tiles := Restore(HeaderMap(doc.header), interner, fromRaw, doc.serdeTiles, entities);
    m := Map(mapName, tiles, fromRaw(doc.data), doc.saveTime);
    pushed := None;
  }

  // ---------------------------------------------------------------------------
  // Save followed by load

  /** A saved identifier's identifier in another run: its string in the saving
      run, looked up in the loading run. */
  function Moved(saved: Interner, current: Interner, id: Id): (r: Option<Id>)
    reads saved, current
    ensures r.Some? ==> saved.Resolve(id).Some? && current.Resolve(r.value) == saved.Resolve(id)
  {
    match saved.Resolve(id)
    case None => None
    case Some(s) => current.Get(s)
  }

  /** The header of a save, read back, maps each identifier the save used to
      the saving run's string for it. */
  lemma HeaderMapOfSave(header: seq<(Id, string)>, st: seq<(TileCoord, SerdeTile)>, saved: Interner, id: Id)
    requires HeaderFor(header, st, saved)
    requires id in TileIds(st)
    ensures id in HeaderMap(header) && saved.Resolve(id) == Some(HeaderMap(header)[id])
  {
    var i :| 0 <= i < |header| && header[i].0 == id;
    HeaderMapAt(header, i);
  }

  /** The tiles a load in the run of `current` brings back from a save made in
      the run of `saved`: those with a live entity whose type's string the
      loading run knows, under the loading run's identifier for that string. */
  function Survivors(tiles: Tiles, entities: map<TileCoord, DataMap>, saved: Interner, current: Interner): (r: Tiles)
    reads saved, current
    ensures forall c :: c in tiles && c in entities ==>
      (c in r <==> saved.Resolve(tiles[c].0).Some? && saved.Resolve(tiles[c].0).value in current.names)
    ensures forall c :: c in r ==>
      (c in tiles && c in entities && r[c].1 == tiles[c].1
       && current.Resolve(r[c].0) == saved.Resolve(tiles[c].0))
  {
    map c | c in tiles && c in entities && Moved(saved, current, tiles[c].0).Some?
          :: (Moved(saved, current, tiles[c].0).value, tiles[c].1)
  }

  /** The entity data that comes back with `Survivors`. */
  function SurvivorData(tiles: Tiles, entities: map<TileCoord, DataMap>, saved: Interner, current: Interner,
                        toRaw: DataMap -> DataMapRaw, fromRaw: DataMapRaw -> DataMap): (r: map<TileCoord, DataMap>)
    reads saved, current
    ensures r.Keys == Survivors(tiles, entities, saved, current).Keys
    ensures forall c :: c in r ==> r[c] == fromRaw(toRaw(entities[c]))
  {
    map c | c in tiles && c in entities && Moved(saved, current, tiles[c].0).Some?
          :: fromRaw(toRaw(entities[c]))
  }

  /** One entry of a save, loaded: it survives exactly as `Survivors` says. */
  lemma LoadOfSaveAt(doc: SerdeMap, tiles: Tiles, entities: map<TileCoord, DataMap>,
                     toRaw: DataMap -> DataMapRaw, fromRaw: DataMapRaw -> DataMap,
                     saved: Interner, current: Interner, j: nat)
    requires SavesTiles(doc.serdeTiles, tiles, entities, toRaw)
    requires HeaderFor(doc.header, doc.serdeTiles, saved)
    requires j < |doc.serdeTiles|
    ensures var c := doc.serdeTiles[j].0;
            var rt := RebuildTiles(HeaderMap(doc.header), current, doc.serdeTiles);
            var rd := RebuildData(HeaderMap(doc.header), current, fromRaw, doc.serdeTiles);
            && (c in rt <==> c in Survivors(tiles, entities, saved, current))
            && (c in rt ==> c in rd && rt[c] == Survivors(tiles, entities, saved, current)[c]
                            && rd[c] == SurvivorData(tiles, entities, saved, current, toRaw, fromRaw)[c])
  {
    var st := doc.serdeTiles;
    assert st[j].1.id in TileIds(st);
    HeaderMapOfSave(doc.header, st, saved, st[j].1.id);
    RebuildAt(HeaderMap(doc.header), current, fromRaw, st, j);
  }

  /** Every coordinate a load of a save rebuilds is one `Survivors` names, with
      the same tile and data. */
  lemma LoadOfSaveRebuiltSurvive(doc: SerdeMap, tiles: Tiles, entities: map<TileCoord, DataMap>,
                                 toRaw: DataMap -> DataMapRaw, fromRaw: DataMapRaw -> DataMap,
                                 saved: Interner, current: Interner)
    requires SavesTiles(doc.serdeTiles, tiles, entities, toRaw)
    requires HeaderFor(doc.header, doc.serdeTiles, saved)
    ensures var rt := RebuildTiles(HeaderMap(doc.header), current, doc.serdeTiles);
            var rd := RebuildData(HeaderMap(doc.header), current, fromRaw, doc.serdeTiles);
            forall c :: c in rt ==>
              && c in Survivors(tiles, entities, saved, current)
              && rt[c] == Survivors(tiles, entities, saved, current)[c]
              && c in rd && rd[c] == SurvivorData(tiles, entities, saved, current, toRaw, fromRaw)[c]
  {
    var st := doc.serdeTiles;
    var rt := RebuildTiles(HeaderMap(doc.header), current, st);
    RebuildKeys(HeaderMap(doc.header), current, fromRaw, st);
    forall c | c in rt
      ensures && c in Survivors(tiles, entities, saved, current)
              && rt[c] == Survivors(tiles, entities, saved, current)[c]
              && c in RebuildData(HeaderMap(doc.header), current, fromRaw, st)
              && RebuildData(HeaderMap(doc.header), current, fromRaw, st)[c]
                   == SurvivorData(tiles, entities, saved, current, toRaw, fromRaw)[c]
    {
      var j :| 0 <= j < |st| && st[j].0 == c;
      LoadOfSaveAt(doc, tiles, entities, toRaw, fromRaw, saved, current, j);
    }
  }

  /** Every coordinate `Survivors` names is rebuilt by a load of the save. */
  lemma LoadOfSaveSurvivorsRebuilt(doc: SerdeMap, tiles: Tiles, entities: map<TileCoord, DataMap>,
                                   toRaw: DataMap -> DataMapRaw, fromRaw: DataMapRaw -> DataMap,
                                   saved: Interner, current: Interner)
    requires SavesTiles(doc.serdeTiles, tiles, entities, toRaw)
    requires HeaderFor(doc.header, doc.serdeTiles, saved)
    ensures forall c :: c in Survivors(tiles, entities, saved, current) ==>
              c in RebuildTiles(HeaderMap(doc.header), current, doc.serdeTiles)
  {
    var st := doc.serdeTiles;
    forall c | c in Survivors(tiles, entities, saved, current)
      ensures c in RebuildTiles(HeaderMap(doc.header), current, st)
    {
      assert c in SavedCoords(st);
      var j :| 0 <= j < |st| && st[j].0 == c;
      LoadOfSaveAt(doc, tiles, entities, toRaw, fromRaw, saved, current, j);
    }
  }

  /** Loading what a save produced, in any later run: a tile survives exactly
      when it had a live entity and its type's string is known to the loading
      run; it comes back under that run's identifier for the string, with its
      modifier, and its entity comes back with `fromRaw(toRaw(data))`. */
  lemma LoadOfSave(doc: SerdeMap, tiles: Tiles, entities: map<TileCoord, DataMap>,
                   toRaw: DataMap -> DataMapRaw, fromRaw: DataMapRaw -> DataMap,
                   saved: Interner, current: Interner)
    requires SavesTiles(doc.serdeTiles, tiles, entities, toRaw)
    requires HeaderFor(doc.header, doc.serdeTiles, saved)
    ensures RebuildTiles(HeaderMap(doc.header), current, doc.serdeTiles)
              == Survivors(tiles, entities, saved, current)
    ensures RebuildData(HeaderMap(doc.header), current, fromRaw, doc.serdeTiles)
              == SurvivorData(tiles, entities, saved, current, toRaw, fromRaw)
  {
    LoadOfSaveTiles(doc, tiles, entities, toRaw, fromRaw, saved, current);
    LoadOfSaveData(doc, tiles, entities, toRaw, fromRaw, saved, current);
  }

  /** The placement-table half of `LoadOfSave`. */
  lemma LoadOfSaveTiles(doc: SerdeMap, tiles: Tiles, entities: map<TileCoord, DataMap>,
                        toRaw: DataMap -> DataMapRaw, fromRaw: DataMapRaw -> DataMap,
                        saved: Interner, current: Interner)
    requires SavesTiles(doc.serdeTiles, tiles, entities, toRaw)
    requires HeaderFor(doc.header, doc.serdeTiles, saved)
    ensures RebuildTiles(HeaderMap(doc.header), current, doc.serdeTiles)
              == Survivors(tiles, entities, saved, current)
  {
    var rt := RebuildTiles(HeaderMap(doc.header), current, doc.serdeTiles);
    var et := Survivors(tiles, entities, saved, current);
    LoadOfSaveRebuiltSurvive(doc, tiles, entities, toRaw, fromRaw, saved, current);
    LoadOfSaveSurvivorsRebuilt(doc, tiles, entities, toRaw, fromRaw, saved, current);
    assert rt == et by {
      assert forall c :: c in rt <==> c in et;
    }
  }

  /** The entity-data half of `LoadOfSave`. */
  lemma LoadOfSaveData(doc: SerdeMap, tiles: Tiles, entities: map<TileCoord, DataMap>,
                       toRaw: DataMap -> DataMapRaw, fromRaw: DataMapRaw -> DataMap,
                       saved: Interner, current: Interner)
    requires SavesTiles(doc.serdeTiles, tiles, entities, toRaw)
    requires HeaderFor(doc.header, doc.serdeTiles, saved)
    ensures RebuildData(HeaderMap(doc.header), current, fromRaw, doc.serdeTiles)
              == SurvivorData(tiles, entities, saved, current, toRaw, fromRaw)
  {
    var hm := HeaderMap(doc.header);
    var rd := RebuildData(hm, current, fromRaw, doc.serdeTiles);
    var ed := SurvivorData(tiles, entities, saved, current, toRaw, fromRaw);
    LoadOfSaveTiles(doc, tiles, entities, toRaw, fromRaw, saved, current);
    LoadOfSaveRebuiltSurvive(doc, tiles, entities, toRaw, fromRaw, saved, current);
    RebuildKeys(hm, current, fromRaw, doc.serdeTiles);
    assert rd == ed by {
      assert forall c :: c in rd <==> c in ed;
    }
  }

  /** Within one run every saved tile's identifier comes back as itself. */
  lemma MovedSameRun(doc: SerdeMap, tiles: Tiles, entities: map<TileCoord, DataMap>,
                     toRaw: DataMap -> DataMapRaw, interner: Interner)
    requires interner.Valid()
    requires SavesTiles(doc.serdeTiles, tiles, entities, toRaw)
    requires HeaderFor(doc.header, doc.serdeTiles, interner)
    ensures forall c :: c in tiles && c in entities ==> Moved(interner, interner, tiles[c].0) == Some(tiles[c].0)
  {
    var st := doc.serdeTiles;
    forall c | c in tiles && c in entities
      ensures Moved(interner, interner, tiles[c].0) == Some(tiles[c].0)
    {
      assert c in SavedCoords(st);
      var j :| 0 <= j < |st| && st[j].0 == c;
      assert st[j].1.id in TileIds(st);
      HeaderMapOfSave(doc.header, st, interner, st[j].1.id);
      var s := interner.Resolve(tiles[c].0).value;
      GetResolveInverse(interner, s, tiles[c].0);
    }
  }

  /** Within one run, and with data conversion that round-trips, loading what a
      save produced gives back every tile that had a live entity, unchanged, and
      every such entity's data. */
  lemma LoadOfSaveSameRun(doc: SerdeMap, tiles: Tiles, entities: map<TileCoord, DataMap>,
                          toRaw: DataMap -> DataMapRaw, fromRaw: DataMapRaw -> DataMap, interner: Interner)
    requires interner.Valid()
    requires SavesTiles(doc.serdeTiles, tiles, entities, toRaw)
    requires HeaderFor(doc.header, doc.serdeTiles, interner)
    requires forall c :: c in tiles && c in entities ==> fromRaw(toRaw(entities[c])) == entities[c]
    ensures RebuildTiles(HeaderMap(doc.header), interner, doc.serdeTiles)
              == map c | c in tiles && c in entities :: tiles[c]
    ensures RebuildData(HeaderMap(doc.header), interner, fromRaw, doc.serdeTiles)
              == map c | c in tiles && c in entities :: entities[c]
  {
    LoadOfSave(doc, tiles, entities, toRaw, fromRaw, interner, interner);
    MovedSameRun(doc, tiles, entities, toRaw, interner);
    SurvivorsSameRun(tiles, entities, toRaw, fromRaw, interner);
  }

  /** When every identifier comes back as itself and the data conversion
      round-trips, the survivors are the tiles with a live entity, unchanged. */
  lemma SurvivorsSameRun(tiles: Tiles, entities: map<TileCoord, DataMap>,
                         toRaw: DataMap -> DataMapRaw, fromRaw: DataMapRaw -> DataMap, interner: Interner)
    requires forall c :: c in tiles && c in entities ==> Moved(interner, interner, tiles[c].0) == Some(tiles[c].0)
    requires forall c :: c in tiles && c in entities ==> fromRaw(toRaw(entities[c])) == entities[c]
    ensures Survivors(tiles, entities, interner, interner) == map c | c in tiles && c in entities :: tiles[c]
    ensures SurvivorData(tiles, entities, interner, interner, toRaw, fromRaw)
              == map c | c in tiles && c in entities :: entities[c]
  {
  }

  /** A save followed, in the same run, by a load of the saved document: the
      loaded map has the saved name and the save's time, every tile that had a
      live entity, and those entities' data. */
  method SaveThenLoad(m: Map, interner: Interner, entities: TileEntities,
                      toRaw: DataMap -> DataMapRaw, fromRaw: DataMapRaw -> DataMap,
                      now: int, clock: LocalTime, later: int, invalidMapData: Id)
    returns (loaded: Map, rebuilt: TileEntities)
    requires interner.Valid() && clock.Valid()
    requires forall c :: c in m.tiles && c in entities.data ==>
               interner.Resolve(m.tiles[c].0).Some? && c !in entities.stopped
    requires forall c :: c in m.tiles && c in entities.data ==>
               fromRaw(toRaw(entities.data[c])) == entities.data[c]
    requires fromRaw(toRaw(m.data)) == m.data
    modifies entities`stopped
    ensures loaded == Map(m.mapName, map c | c in m.tiles && c in entities.data :: m.tiles[c], m.data, now)
    ensures rebuilt.data == map c | c in m.tiles && c in entities.data :: entities.data[c]
    ensures entities.stopped == old(entities.stopped) + m.tiles.Keys * entities.data.Keys
  {
    var doc := Save(m, interner, entities, toRaw, now);
    LoadOfSaveSameRun(doc, m.tiles, entities.data, toRaw, fromRaw, interner);
    var pushed;
    loaded, rebuilt, pushed := Load(Decoded(doc), m.mapName, interner, fromRaw, clock, later, invalidMapData);
  }
}
