/**
 * Tile entities: the per-coordinate state that the map snapshot reads on save
 * and rebuilds on load.
 *
 * In the source each tile entity is an actor holding a `DataMap`; the table of
 * them maps a coordinate to an actor handle.  Here the table is one object that
 * holds, per coordinate, the data map the actor owns, and the set of
 * coordinates whose actor has been told to stop.  A `GetData` call becomes a
 * read of that map and a `SetData` message an assignment to one key.
 */
module TileEntity {
  import opened Ids

  /** A map cell. */
  datatype TileCoord = TileCoord(q: int, r: int)

  /** The sub-variant of a tile type placed at a cell (rotation and the like). */
  type TileModifier = int

  /** One typed value of a tile's data.  Its variants are not part of this model. */
  type Data(==)

  /** A tile's data, keyed by interned identifiers. */
  type DataMap = map<Id, Data>

  /** The string-keyed form of a `DataMap`, as written to disk.  Its structure is
      not part of this model. */
  type DataMapRaw(==)

  class TileEntities {
    /** The data each live entity holds, by coordinate. */
    var data: map<TileCoord, DataMap>
    /** Coordinates whose entity has been told to stop. */
    var stopped: set<TileCoord>

    /** An empty table, as `Default::default()` gives. */
    constructor ()
      ensures data == map[] && stopped == {}
    {
      data := map[];
      stopped := {};
    }

    /** The `GetData` request: the entity's whole data map.  A stopped entity no
        longer answers, and the caller unwraps the reply, so asking one is a
        caller error. */
    method GetData(c: TileCoord) returns (d: DataMap)
      requires c in data && c !in stopped
      ensures d == data[c]
    {
      d := data[c];
    }

    /** Tells the entity at `c` to stop; its data stays as it was. */
    method Stop(c: TileCoord)
      requires c in data
      modifies this`stopped
      ensures stopped == old(stopped) + {c}
    {
      stopped := stopped + {c};
    }

    /** Starts a new entity at `c` with no data, replacing any entity there. */
    method Spawn(c: TileCoord)
      modifies this
      ensures data == old(data)[c := map[]]
      ensures stopped == old(stopped) - {c}
    {
      data := data[c := map[]];
      stopped := stopped - {c};
    }

    /** The `SetData` message: sets one key of the entity's data, last writer wins. */
    method SetData(c: TileCoord, key: Id, value: Data)
      requires c in data
      modifies this`data
      ensures c in data && data.Keys == old(data).Keys
      ensures data[c] == old(data)[c][key := value]
      ensures forall o :: o in data && o != c ==> data[o] == old(data)[o]
    {
      var updated: DataMap := data[c][key := value];
      data := data[c := updated];
    }

    /** Sends one `SetData` per entry of `d` to the entity at `c`, in no
        particular order; afterwards its data holds every entry of `d`. */
    method Replay(c: TileCoord, d: DataMap)
      requires c in data
      modifies this`data
      ensures c in data && data.Keys == old(data).Keys
      ensures data[c] == old(data)[c] + d
      ensures forall o :: o in data && o != c ==> data[o] == old(data)[o]
    {
      var rest := d.Keys;
      ghost var sent: DataMap := map[];
      while rest != {}
        invariant rest <= d.Keys && sent.Keys == d.Keys - rest
        invariant forall k :: k in sent ==> sent[k] == d[k]
        invariant c in data && data.Keys == old(data).Keys
        invariant data[c] == old(data)[c] + sent
        invariant forall o :: o in data && o != c ==> data[o] == old(data)[o]
        decreases rest
      {
        var k :| k in rest;
        SetData(c, k, d[k]);
        sent := sent[k := d[k]];
        rest := rest - {k};
      }
      assert sent == d;
    }
  }
}
