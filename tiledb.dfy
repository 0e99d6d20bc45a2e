/** The values the chip database hands to the tile page generator, and the
    reasons generation of a tile page aborts. */
module TileDb {

  /** A tile position (x, y). */
  type Coord = (int, int)

  /** One database record of a tile: entry[0] is the tuple of bit ids (each may
      carry a '!' negation marker), entry[1] the kind ("routing", "buffer" or a
      function tag), and entry[2:] the remaining fields; for routing and buffer
      records these are the source and the destination net. */
  datatype Entry = Entry(bits: seq<string>, kind: string, nets: seq<string>)

  /** One net name at one tile, as reported by the segment grouping. */
  datatype Segment = Segment(x: int, y: int, name: string)

  /** A documentation category of nets: the page lists categories by priority. */
  datatype Category = Category(priority: int, title: string)

  /** Every way generation of a tile page aborts. In the source each one is a
      raised exception: a failed assert, a regex match of None dereferenced,
      or a list index out of range. */
  datatype Failure =
    | BadBitId(bit: string)               // bit id does not match B<digits>[<digits>]
    | BitOutOfRange(row: nat, col: nat)   // bit id outside the tile's bit matrix
    | UnknownFunction(kind: string)       // function kind with no bitmap label
    | DuplicateNet(key: string)           // two segment groups with the same local names
    | MissingNet(kind: string)            // routing or buffer record without source or destination
    | DuplicateLink(src: string, dst: string)  // two records for one (source, destination) pair
    | ExhaustedDstName                    // a destination name used up while stripping the prefix

  predicate IsRoutingKind(kind: string)
  {
    kind == "routing" || kind == "buffer"
  }

  /** The record has its entry[2] and entry[3]. */
  predicate HasEnds(e: Entry)
  {
    |e.nets| >= 2
  }

  predicate AllHaveEnds(es: seq<Entry>)
  {
    forall i :: 0 <= i < |es| ==> HasEnds(es[i])
  }

  /** The records for which ic.tile_has_entry holds, in database order. */
  function Applicable(db: seq<Entry>, applies: Entry -> bool): (r: seq<Entry>)
    ensures |r| <= |db|
    ensures forall e :: e in r <==> e in db && applies(e)
  {
    if db == [] then []
    else
      var init := Applicable(db[..|db| - 1], applies);
      assert db == db[..|db| - 1] + [db[|db| - 1]];
      if applies(db[|db| - 1]) then init + [db[|db| - 1]] else init
  }

  /** Each record is kept as often as the database holds it, or dropped. */
  lemma {:induction false} ApplicableCount(db: seq<Entry>, applies: Entry -> bool, e: Entry)
    ensures multiset(Applicable(db, applies))[e] == if applies(e) then multiset(db)[e] else 0
  {
    if db != [] {
      var init := db[..|db| - 1];
      ApplicableCount(init, applies, e);
      assert db == init + [db[|db| - 1]];
    }
  }

  /** The applicable records of a database split at i are those of the two parts. */
  lemma {:induction false} ApplicableSplit(db: seq<Entry>, i: nat, applies: Entry -> bool)
    requires i <= |db|
    ensures Applicable(db, applies) == Applicable(db[..i], applies) + Applicable(db[i..], applies)
    decreases |db| - i
  {
    if i == |db| {
      assert db[..i] == db;
      assert db[i..] == [];
    } else {
      var init := db[..|db| - 1];
      assert init[..i] == db[..i];
      ApplicableSplit(init, i, applies);
      assert db[i..][..|db[i..]| - 1] == init[i..];
      assert db[i..][|db[i..]| - 1] == db[|db| - 1];
    }
  }
}
