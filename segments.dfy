/** The nets of the focal tile (tx, ty) and their permanent connections: the
    tiles visible around it, and each connected segment group split into the
    focal tile's own names and the names it has in each visible tile. */
module Segments {
  import opened Wrappers
  import opened Text
  import opened Ordering
  import opened TileDb
  import opened Families

  /** Inside the 5x5 window around the focal tile, the tile itself included. */
  predicate InWindow(tx: int, ty: int, p: Coord)
  {
    tx - 2 <= p.0 <= tx + 2 && ty - 2 <= p.1 <= ty + 2
  }

  /** The neighbourhood table loops: rows y = ty+2 down to ty-2, columns
      x = tx-2 to tx+2; a position holding a tile is visible. */
  method VisibleTiles(tx: int, ty: int, tileExists: Coord -> bool) returns (visible: set<Coord>)
    ensures forall p :: p in visible <==> InWindow(tx, ty, p) && tileExists(p)
  {
    visible := {};
    var y := ty + 2;
    while y > ty - 3
      invariant ty - 3 <= y <= ty + 2
      invariant forall p :: p in visible <==> InWindow(tx, ty, p) && y < p.1 && tileExists(p)
    {
      var x := tx - 2;
      while x < tx + 3
        invariant tx - 2 <= x <= tx + 3
        invariant forall p :: p in visible <==>
                    InWindow(tx, ty, p) && tileExists(p) && (y < p.1 || (p.1 == y && p.0 < x))
      {
        if tileExists((x, y)) {
          visible := visible + {(x, y)};
        }
        x := x + 1;
      }
      y := y - 1;
    }
  }

  /** The names of a group's segments at position p, in order. */
  function NamesAt(segs: seq<Segment>, p: Coord): seq<string>
  {
    if segs == [] then []
    else
      var init := NamesAt(segs[..|segs| - 1], p);
      var s := segs[|segs| - 1];
      if (s.x, s.y) == p then init + [s.name] else init
  }

  /** A name is listed at p exactly when some segment at p carries it. */
  lemma {:induction false} NamesAtSpec(segs: seq<Segment>, p: Coord)
    ensures forall n :: n in NamesAt(segs, p) <==>
              exists k :: 0 <= k < |segs| && (segs[k].x, segs[k].y) == p && segs[k].name == n
  {
    if segs != [] {
      var init := segs[..|segs| - 1];
      NamesAtSpec(init, p);
      assert forall k :: 0 <= k < |init| ==> init[k] == segs[k];
    }
  }

  /** neighbour_segs: for every visible position, the group's names there. */
  function NeighbourMap(visible: set<Coord>, segs: seq<Segment>): map<Coord, seq<string>>
  {
    if segs == [] then map[]
    else
      var m := NeighbourMap(visible, segs[..|segs| - 1]);
      var s := segs[|segs| - 1];
      var p := (s.x, s.y);
      if p in visible then m[p := (if p in m then m[p] else []) + [s.name]] else m
  }

  /** A group's neighbour map holds exactly the visible positions where it has
      a segment, each with the group's names there in order. */
  lemma {:induction false} NeighbourMapSpec(visible: set<Coord>, segs: seq<Segment>)
    ensures forall p :: p in NeighbourMap(visible, segs) <==> p in visible && NamesAt(segs, p) != []
    ensures forall p :: p in NeighbourMap(visible, segs) ==> NeighbourMap(visible, segs)[p] == NamesAt(segs, p)
  {
    if segs != [] {
      var init := segs[..|segs| - 1];
      NeighbourMapSpec(visible, init);
      var s := segs[|segs| - 1];
      forall p | NamesAt(init, p) != [] ensures NamesAt(segs, p) != [] {
      }
      forall p | p != (s.x, s.y) && NamesAt(segs, p) != [] ensures NamesAt(init, p) != [] {
      }
    }
  }

  /** this_segs: the names the group has in the focal tile. */
  function LocalNames(tx: int, ty: int, segs: seq<Segment>): seq<string>
  {
    NamesAt(segs, (tx, ty))
  }

  /** this_name: the sorted local names joined with ", ". */
  function GroupKey(local: seq<string>): string
  {
    Join(Sort(local), ", ")
  }

  /** The key depends only on which local names there are, not on their order. */
  lemma GroupKeyOrderFree(a: seq<string>, b: seq<string>)
    requires multiset(a) == multiset(b)
    ensures GroupKey(a) == GroupKey(b)
  {
    SortPermutationInvariant(a, b);
  }

  /** A group with at least one name in the focal tile is kept. */
  predicate Kept(tx: int, ty: int, segs: seq<Segment>)
  {
    LocalNames(tx, ty, segs) != []
  }

  /** Items filed under their keys, skipping items without one; a repeated
      key fails. */
  function IndexUnique<V>(items: seq<(Option<string>, V)>): Result<map<string, V>, Failure>
  {
    if items == [] then Ok(map[])
    else
      var prev :- IndexUnique(items[..|items| - 1]);
      match items[|items| - 1].0
      case None => Ok(prev)
      case Some(key) =>
        if key in prev then Err(DuplicateNet(key))
        else Ok(prev[key := items[|items| - 1].1])
  }

  predicate KeysUnique<V>(items: seq<(Option<string>, V)>)
  {
    forall a, b :: 0 <= a < b < |items| && items[a].0.Some? ==> items[a].0 != items[b].0
  }

  /** On success the keys are those of the items that have one, each filed
      with its item's value. */
  lemma {:induction false} IndexUniqueKeys<V>(items: seq<(Option<string>, V)>)
    requires IndexUnique(items).Ok?
    ensures var m := IndexUnique(items).value;
      (forall k :: k in m <==> exists a :: 0 <= a < |items| && items[a].0 == Some(k)) &&
      (forall a :: 0 <= a < |items| && items[a].0.Some? ==> m[items[a].0.value] == items[a].1)
  {
    if items != [] {
      var init := items[..|items| - 1];
      IndexUniqueKeys(init);
      var prev := IndexUnique(init).value;
      var m := IndexUnique(items).value;
      var n := |items| - 1;
      assert forall a :: 0 <= a < n ==> items[a] == init[a];
      forall k ensures k in m <==> exists a :: 0 <= a < |items| && items[a].0 == Some(k) {
        if k in prev {
          var a :| 0 <= a < |init| && init[a].0 == Some(k);
          assert items[a].0 == Some(k);
        }
      }
    }
  }

  /** Indexing succeeds exactly when no two items share a key. */
  lemma {:induction false} IndexUniqueOk<V>(items: seq<(Option<string>, V)>)
    ensures IndexUnique(items).Ok? <==> KeysUnique(items)
  {
    if items != [] {
      var init := items[..|items| - 1];
      IndexUniqueOk(init);
      var n := |items| - 1;
      assert forall a :: 0 <= a < n ==> items[a] == init[a];
      if IndexUnique(init).Ok? {
        IndexUniqueKeys(init);
        var prev := IndexUnique(init).value;
        if items[n].0.Some? && items[n].0.value in prev {
          var a :| 0 <= a < |init| && init[a].0 == items[n].0;
          assert items[a].0 == items[n].0;
        }
      } else {
        var a, b :| 0 <= a < b < |init| && init[a].0.Some? && init[a].0 == init[b].0;
        assert items[a].0 == items[b].0;
      }
    }
  }

  lemma {:induction false} IndexUniqueErrPrefix<V>(items: seq<(Option<string>, V)>, n: nat)
    requires n <= |items| && IndexUnique(items[..n]).Err?
    ensures IndexUnique(items) == IndexUnique(items[..n])
  {
    if n < |items| {
      var init := items[..|items| - 1];
      assert init[..n] == items[..n];
      IndexUniqueErrPrefix(init, n);
    } else {
      assert items[..n] == items;
    }
  }

  /** The key of a group, when it is kept. */
  function KeyOf(tx: int, ty: int, segs: seq<Segment>): string
  {
    GroupKey(LocalNames(tx, ty, segs))
  }

  /** What one group contributes to groups_indexed: its key if it is kept,
      and its neighbour map. */
  function GroupItem(tx: int, ty: int, visible: set<Coord>, segs: seq<Segment>)
    : (Option<string>, map<Coord, seq<string>>)
  {
    (if Kept(tx, ty, segs) then Some(KeyOf(tx, ty, segs)) else None, NeighbourMap(visible, segs))
  }

  function GroupItems(tx: int, ty: int, visible: set<Coord>, groups: seq<seq<Segment>>)
    : (r: seq<(Option<string>, map<Coord, seq<string>>)>)
    ensures |r| == |groups|
    ensures forall a :: 0 <= a < |groups| ==> r[a] == GroupItem(tx, ty, visible, groups[a])
  {
    seq(|groups|, a requires 0 <= a < |groups| => GroupItem(tx, ty, visible, groups[a]))
  }

  /** groups_indexed after the given groups; a repeated key fails the assert. */
  function GroupsIndexed(tx: int, ty: int, visible: set<Coord>, groups: seq<seq<Segment>>)
    : Result<map<string, map<Coord, seq<string>>>, Failure>
  {
    IndexUnique(GroupItems(tx, ty, visible, groups))
  }

  /** All names the groups have in the focal tile, group after group. */
  function AllLocalNames(tx: int, ty: int, groups: seq<seq<Segment>>): seq<string>
  {
    if groups == [] then []
    else AllLocalNames(tx, ty, groups[..|groups| - 1]) + LocalNames(tx, ty, groups[|groups| - 1])
  }

  /** What the segment loop leaves behind. */
  datatype SegmentIndex = SegmentIndex(groupsIndexed: map<string, map<Coord, seq<string>>>,
                                       tileNets: map<string, set<int>>)

  /** The page files the local names with FamilyOf, so that its tileNets
      is TileNets(map[], AllLocalNames(tx, ty, groups)). */
  function SegmentIndexOf(file: Filing, tx: int, ty: int, visible: set<Coord>, groups: seq<seq<Segment>>)
    : Result<SegmentIndex, Failure>
  {
    var indexed :- GroupsIndexed(tx, ty, visible, groups);
    Ok(SegmentIndex(indexed, AddFamilies(file, map[], AllLocalNames(tx, ty, groups))))
  }

  /** The grouping succeeds exactly when no two kept groups share a key;
      then the keys are those of the kept groups, and each kept group's key
      maps to its neighbour map. */
  lemma GroupsIndexedSpec(tx: int, ty: int, visible: set<Coord>, groups: seq<seq<Segment>>)
    ensures GroupsIndexed(tx, ty, visible, groups).Ok? <==> KeysUnique(GroupItems(tx, ty, visible, groups))
    ensures GroupsIndexed(tx, ty, visible, groups).Ok? ==>
      var m := GroupsIndexed(tx, ty, visible, groups).value;
      var items := GroupItems(tx, ty, visible, groups);
      (forall k :: k in m <==> exists a :: 0 <= a < |items| && items[a].0 == Some(k)) &&
      (forall a :: 0 <= a < |items| && items[a].0.Some? ==> m[items[a].0.value] == items[a].1)
  {
    IndexUniqueOk(GroupItems(tx, ty, visible, groups));
    if GroupsIndexed(tx, ty, visible, groups).Ok? {
      IndexUniqueKeys(GroupItems(tx, ty, visible, groups));
    }
  }

  lemma {:induction false} AddFamiliesAppend(file: Filing, fams: map<string, set<int>>, a: seq<string>, b: seq<string>)
    ensures AddFamilies(file, fams, a + b) == AddFamilies(file, AddFamilies(file, fams, a), b)
  {
    if b == [] {
      assert a + b == a;
    } else {
      assert (a + b)[..|a + b| - 1] == a + b[..|b| - 1];
      AddFamiliesAppend(file, fams, a, b[..|b| - 1]);
    }
  }

  lemma GroupItemsPrefix(tx: int, ty: int, visible: set<Coord>, groups: seq<seq<Segment>>, i: nat)
    requires i < |groups|
    ensures GroupItems(tx, ty, visible, groups[..i + 1]) ==
              GroupItems(tx, ty, visible, groups[..i]) + [GroupItem(tx, ty, visible, groups[i])]
    ensures GroupItems(tx, ty, visible, groups[..i + 1]) == GroupItems(tx, ty, visible, groups)[..i + 1]
  {
  }

  /** The loop over one group's segments: its names in the focal tile, the
      families they join (filed by FamilyOf on the page), and its names in
      each visible tile. */
  method SplitGroup(file: Filing, tx: int, ty: int, visible: set<Coord>, segs: seq<Segment>,
                    fams0: map<string, set<int>>)
    returns (local: seq<string>, neighbours: map<Coord, seq<string>>, fams: map<string, set<int>>)
    ensures local == LocalNames(tx, ty, segs)
    ensures neighbours == NeighbourMap(visible, segs)
    ensures fams == AddFamilies(file, fams0, local)
  {
    local, neighbours, fams := [], map[], fams0;
    var j := 0;
    while j < |segs|
      invariant 0 <= j <= |segs|
      invariant local == NamesAt(segs[..j], (tx, ty))
      invariant neighbours == NeighbourMap(visible, segs[..j])
      invariant fams == AddFamilies(file, fams0, local)
    {
      var s := segs[j];
      SegmentStep(visible, segs, j, (tx, ty));
      if s.x == tx && s.y == ty {
        AddFamiliesSnoc(file, fams0, local, s.name);
        local := local + [s.name];
        fams := AddFamily(file, fams, s.name);
      }
      var p := (s.x, s.y);
      if p in visible {
        neighbours := neighbours[p := (if p in neighbours then neighbours[p] else []) + [s.name]];
      }
      j := j + 1;
    }
    assert segs[..j] == segs;
  }

  lemma SegmentStep(visible: set<Coord>, segs: seq<Segment>, j: nat, p: Coord)
    requires j < |segs|
    ensures NamesAt(segs[..j + 1], p) ==
              NamesAt(segs[..j], p) + (if (segs[j].x, segs[j].y) == p then [segs[j].name] else [])
    ensures var m := NeighbourMap(visible, segs[..j]);
            var q := (segs[j].x, segs[j].y);
            NeighbourMap(visible, segs[..j + 1]) ==
              if q in visible then m[q := (if q in m then m[q] else []) + [segs[j].name]] else m
  {
    assert segs[..j + 1][..j] == segs[..j];
  }

  lemma AddFamiliesSnoc(file: Filing, fams0: map<string, set<int>>, names: seq<string>, n: string)
    ensures AddFamilies(file, fams0, names + [n]) == AddFamily(file, AddFamilies(file, fams0, names), n)
  {
    assert (names + [n])[..|names|] == names;
  }

  /** One more group indexed: skipped when it has no local name, failing
      when its key is taken, filed under its key otherwise. */
  lemma IndexStep(tx: int, ty: int, visible: set<Coord>, groups: seq<seq<Segment>>, i: nat,
                  indexed: map<string, map<Coord, seq<string>>>)
    requires i < |groups| && IndexUnique(GroupItems(tx, ty, visible, groups[..i])) == Ok(indexed)
    ensures AllLocalNames(tx, ty, groups[..i + 1]) ==
              AllLocalNames(tx, ty, groups[..i]) + LocalNames(tx, ty, groups[i])
    ensures var local := LocalNames(tx, ty, groups[i]);
            IndexUnique(GroupItems(tx, ty, visible, groups[..i + 1])) ==
              if local == [] then Ok(indexed)
              else if GroupKey(local) in indexed then Err(DuplicateNet(GroupKey(local)))
              else Ok(indexed[GroupKey(local) := NeighbourMap(visible, groups[i])])
  {
    assert groups[..i + 1][..i] == groups[..i];
    GroupItemsPrefix(tx, ty, visible, groups, i);
    assert GroupItems(tx, ty, visible, groups[..i + 1])[..i] == GroupItems(tx, ty, visible, groups[..i]);
  }

  /** The segment loop over the groups, in the order given: split each group,
      then file a kept group under its key, failing on a repeated key. */
  method IndexSegments(file: Filing, tx: int, ty: int, visible: set<Coord>, groups: seq<seq<Segment>>)
    returns (r: Result<SegmentIndex, Failure>)
    ensures r == SegmentIndexOf(file, tx, ty, visible, groups)
  {
    var indexed: map<string, map<Coord, seq<string>>> := map[];
    var fams: map<string, set<int>> := map[];
    var i := 0;
    while i < |groups|
      invariant 0 <= i <= |groups|
      invariant IndexUnique(GroupItems(tx, ty, visible, groups[..i])) == Ok(indexed)
      invariant fams == AddFamilies(file, map[], AllLocalNames(tx, ty, groups[..i]))
    {
      IndexStep(tx, ty, visible, groups, i, indexed);
      AddFamiliesAppend(file, map[], AllLocalNames(tx, ty, groups[..i]), LocalNames(tx, ty, groups[i]));
      var local, neighbours, fams' := SplitGroup(file, tx, ty, visible, groups[i], fams);
      fams := fams';
      if local != [] {
        var key := Join(Sort(local), ", ");
        if key in indexed {
          r := Err(DuplicateNet(key));
          GroupItemsPrefix(tx, ty, visible, groups, i);
          IndexUniqueErrPrefix(GroupItems(tx, ty, visible, groups), i + 1);
          return;
        }
        indexed := indexed[key := neighbours];
      }
      i := i + 1;
    }
    assert groups[..i] == groups;
    r := Ok(SegmentIndex(indexed, fams));
  }
}
