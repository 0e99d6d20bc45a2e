/** The connectivity matrix of one routing category: for each routing or
    buffer record of the category's buckets, in the order of the sorted keys,
    the (source, destination) pair is entered once with its marker. */
module Links {
  import opened Wrappers
  import opened TileDb
  import opened Routing

  /** The letter of a matrix cell: B for a buffer, R for a routing switch. */
  function Marker(kind: string): char
  {
    if kind == "buffer" then 'B' else 'R'
  }

  /** (entry[2], entry[3]): source and destination. */
  function Link(e: Entry): (string, string)
    requires HasEnds(e)
  {
    (e.nets[0], e.nets[1])
  }

  /** links, src_nets and dst_nets. */
  datatype Links = Links(matrix: map<(string, string), char>, srcNets: set<string>, dstNets: set<string>)

  const NoLinks := Links(map[], {}, {})

  /** One record entered; a pair already present fails the assertion. */
  function AddLink(l: Links, e: Entry): Result<Links, Failure>
    requires HasEnds(e)
  {
    var src, dst := e.nets[0], e.nets[1];
    if (src, dst) in l.matrix then Err(DuplicateLink(src, dst))
    else Ok(Links(l.matrix[(src, dst) := Marker(e.kind)], l.srcNets + {src}, l.dstNets + {dst}))
  }

  function LinksOf(es: seq<Entry>): Result<Links, Failure>
    requires AllHaveEnds(es)
  {
    if es == [] then Ok(NoLinks)
    else
      var prev :- LinksOf(es[..|es| - 1]);
      AddLink(prev, es[|es| - 1])
  }

  predicate DistinctLinks(es: seq<Entry>)
    requires AllHaveEnds(es)
  {
    forall i, j :: 0 <= i < j < |es| ==> Link(es[i]) != Link(es[j])
  }

  /** The records' pairs, sources and destinations. */
  function Pairs(es: seq<Entry>): set<(string, string)>
    requires AllHaveEnds(es)
  {
    if es == [] then {} else Pairs(es[..|es| - 1]) + {Link(es[|es| - 1])}
  }

  function Sources(es: seq<Entry>): set<string>
    requires AllHaveEnds(es)
  {
    if es == [] then {} else Sources(es[..|es| - 1]) + {es[|es| - 1].nets[0]}
  }

  function Dests(es: seq<Entry>): set<string>
    requires AllHaveEnds(es)
  {
    if es == [] then {} else Dests(es[..|es| - 1]) + {es[|es| - 1].nets[1]}
  }

  /** The three sets hold what some record has in that place. */
  lemma {:induction false} EndsSpec(es: seq<Entry>)
    requires AllHaveEnds(es)
    ensures forall p :: p in Pairs(es) <==> exists i :: 0 <= i < |es| && Link(es[i]) == p
    ensures forall n :: n in Sources(es) <==> exists i :: 0 <= i < |es| && es[i].nets[0] == n
    ensures forall n :: n in Dests(es) <==> exists i :: 0 <= i < |es| && es[i].nets[1] == n
  {
    if es != [] {
      var init := es[..|es| - 1];
      EndsSpec(init);
      assert forall i :: 0 <= i < |init| ==> init[i] == es[i];
    }
  }

  /** A pair of the set comes from some record. */
  lemma {:induction false} PairWitness(es: seq<Entry>, p: (string, string)) returns (i: nat)
    requires AllHaveEnds(es) && p in Pairs(es)
    ensures i < |es| && Link(es[i]) == p
  {
    if Link(es[|es| - 1]) == p {
      i := |es| - 1;
    } else {
      i := PairWitness(es[..|es| - 1], p);
    }
  }

  /** The matrix holds exactly the records' pairs, each with its record's
      marker, and the net sets are exactly their sources and destinations. */
  predicate Describes(l: Links, es: seq<Entry>)
    requires AllHaveEnds(es)
  {
    l.matrix.Keys == Pairs(es) && l.srcNets == Sources(es) && l.dstNets == Dests(es) &&
    forall i :: 0 <= i < |es| ==> Link(es[i]) in l.matrix && l.matrix[Link(es[i])] == Marker(es[i].kind)
  }

  /** A built matrix describes the records entered. */
  lemma {:induction false} LinksDescribes(es: seq<Entry>)
    requires AllHaveEnds(es) && LinksOf(es).Ok?
    ensures Describes(LinksOf(es).value, es)
  {
    if es != [] {
      var init, e := es[..|es| - 1], es[|es| - 1];
      assert forall i :: 0 <= i < |init| ==> init[i] == es[i];
      LinksDescribes(init);
      var prev := LinksOf(init).value;
      assert LinksOf(es) == AddLink(prev, e);
      var l := LinksOf(es).value;
      forall i | 0 <= i < |es| ensures Link(es[i]) in l.matrix && l.matrix[Link(es[i])] == Marker(es[i].kind) {
        if i < |init| {
          assert Link(init[i]) in prev.matrix;
        }
      }
    }
  }

  /** The matrix is built exactly when no two records share a pair. */
  lemma {:induction false} LinksOk(es: seq<Entry>)
    requires AllHaveEnds(es)
    ensures LinksOf(es).Ok? <==> DistinctLinks(es)
  {
    if es != [] {
      var init, e := es[..|es| - 1], es[|es| - 1];
      LinksOk(init);
      assert forall i :: 0 <= i < |init| ==> init[i] == es[i];
      if LinksOf(init).Ok? {
        var prev := LinksOf(init).value;
        LinksDescribes(init);
        assert LinksOf(es) == AddLink(prev, e);
        if Link(e) in prev.matrix {
          var i := PairWitness(init, Link(e));
          assert Link(es[i]) == Link(es[|es| - 1]);
        } else {
          forall i, j | 0 <= i < j < |es| ensures Link(es[i]) != Link(es[j]) {
            if j < |init| {
              assert Link(init[i]) != Link(init[j]);
            } else {
              assert Link(init[i]) in prev.matrix;
            }
          }
        }
      } else {
        var i, j :| 0 <= i < j < |init| && Link(init[i]) == Link(init[j]);
        assert Link(es[i]) == Link(es[j]);
      }
    }
  }

  /** Entering the records in another order gives the same matrix when it
      succeeds: the matrix depends only on which records there are. */
  lemma LinksOrderFree(es: seq<Entry>, fs: seq<Entry>)
    requires AllHaveEnds(es) && AllHaveEnds(fs) && multiset(es) == multiset(fs)
    requires LinksOf(es).Ok? && LinksOf(fs).Ok?
    ensures LinksOf(es) == LinksOf(fs)
  {
    LinksDescribes(es);
    LinksDescribes(fs);
    SameEnds(es, fs);
    SameEnds(fs, es);
    var l, m := LinksOf(es).value, LinksOf(fs).value;
    forall p | p in l.matrix ensures l.matrix[p] == m.matrix[p] {
      var i := PairWitness(es, p);
      var j := IndexOf(fs, es[i]);
    }
    assert l.matrix == m.matrix;
    assert l.srcNets == m.srcNets && l.dstNets == m.dstNets;
    assert l == m;
  }

  /** Where a record of the multiset sits in the sequence. */
  lemma {:induction false} IndexOf(fs: seq<Entry>, x: Entry) returns (j: nat)
    requires x in multiset(fs)
    ensures j < |fs| && fs[j] == x
  {
    if fs[|fs| - 1] == x {
      j := |fs| - 1;
    } else {
      assert fs == fs[..|fs| - 1] + [fs[|fs| - 1]];
      j := IndexOf(fs[..|fs| - 1], x);
    }
  }

  /** Every record of es is one of fs: its pair, source and destination are there. */
  lemma SameEnds(es: seq<Entry>, fs: seq<Entry>)
    requires AllHaveEnds(es) && AllHaveEnds(fs) && multiset(es) <= multiset(fs)
    ensures Pairs(es) <= Pairs(fs) && Sources(es) <= Sources(fs) && Dests(es) <= Dests(fs)
  {
    EndsSpec(es);
    EndsSpec(fs);
    forall i | 0 <= i < |es|
      ensures Link(es[i]) in Pairs(fs) && es[i].nets[0] in Sources(fs) && es[i].nets[1] in Dests(fs)
    {
      assert es[i] in multiset(es);
      var j := IndexOf(fs, es[i]);
    }
  }

  lemma {:induction false} LinksErrPrefix(es: seq<Entry>, n: nat)
    requires AllHaveEnds(es) && n <= |es|
    requires AllHaveEnds(es[..n]) && LinksOf(es[..n]).Err?
    ensures LinksOf(es) == LinksOf(es[..n])
  {
    if n < |es| {
      var init := es[..|es| - 1];
      assert init[..n] == es[..n];
      LinksErrPrefix(init, n);
    } else {
      assert es[..n] == es;
    }
  }

  /** The records of the category's buckets, bucket after bucket. */
  function CategoryEntries(keys: seq<string>, groups: map<string, seq<Entry>>): (es: seq<Entry>)
    requires forall i :: 0 <= i < |keys| ==> keys[i] in groups
    requires forall key, e :: key in groups && e in groups[key] ==> HasEnds(e)
    ensures AllHaveEnds(es)
    ensures forall e :: e in es <==> exists i :: 0 <= i < |keys| && e in groups[keys[i]]
  {
    if keys == [] then []
    else
      var init := CategoryEntries(keys[..|keys| - 1], groups);
      var last := keys[|keys| - 1];
      assert forall i :: 0 <= i < |keys| - 1 ==> keys[..|keys| - 1][i] == keys[i];
      init + groups[last]
  }

  lemma {:induction false} CategoryEntriesSplit(keys: seq<string>, groups: map<string, seq<Entry>>, n: nat)
    requires forall i :: 0 <= i < |keys| ==> keys[i] in groups
    requires forall key, e :: key in groups && e in groups[key] ==> HasEnds(e)
    requires n <= |keys|
    ensures CategoryEntries(keys, groups) == CategoryEntries(keys[..n], groups) + CategoryEntries(keys[n..], groups)
    decreases |keys| - n
  {
    if n == |keys| {
      assert keys[..n] == keys;
      assert keys[n..] == [];
    } else {
      var init := keys[..|keys| - 1];
      assert init[..n] == keys[..n];
      CategoryEntriesSplit(init, groups, n);
      assert keys[n..][..|keys[n..]| - 1] == init[n..];
    }
  }

  /** keys lists the members of s, each once. */
  predicate ListsOnce(keys: seq<string>, s: set<string>)
  {
    (forall i, j :: 0 <= i < j < |keys| ==> keys[i] != keys[j]) &&
    (forall i :: 0 <= i < |keys| ==> keys[i] in s) &&
    (forall key :: key in s ==> key in keys)
  }

  /** Walking distinct keys over exact buckets meets each routing record of
      a listed key as often as the database holds it. */
  lemma {:induction false} EntriesCount(k: Keying, es: seq<Entry>, keys: seq<string>,
                                        groups: map<string, seq<Entry>>, e: Entry)
    requires forall i, j :: 0 <= i < j < |keys| ==> keys[i] != keys[j]
    requires forall i :: 0 <= i < |keys| ==> keys[i] in groups && groups[keys[i]] == Bucket(k, es, keys[i])
    requires forall key, e :: key in groups && e in groups[key] ==> HasEnds(e)
    ensures multiset(CategoryEntries(keys, groups))[e] ==
            if IsRoutingKind(e.kind) && HasEnds(e) && RecordKey(k, e) in keys then multiset(es)[e] else 0
  {
    if keys != [] {
      var init, last := keys[..|keys| - 1], keys[|keys| - 1];
      assert forall i :: 0 <= i < |init| ==> init[i] == keys[i];
      EntriesCount(k, es, init, groups, e);
      ApplicableCount(es, InBucket(k, last), e);
      assert CategoryEntries(keys, groups) == CategoryEntries(init, groups) + groups[last];
      assert keys == init + [last];
    }
  }

  /** A key of the category's keys is a key of one of its routing records;
      since a key fixes the category, a record is of category c exactly when
      its key is listed. */
  lemma KeyListed(k: Keying, es: seq<Entry>, c: Category, keys: seq<string>, e: Entry)
    requires KeyFixesCategory(k, es)
    requires forall key :: key in keys <==> key in CategoryKeys(k, es, c)
    requires IsRoutingKind(e.kind) && HasEnds(e) && e in es
    ensures RecordKey(k, e) in keys <==> RoutesIn(k, c)(e)
  {
    var j := IndexOf(es, e);
    var key := RecordKey(k, e);
    CategoryKeysSpec(k, es, c, key);
    if key in keys {
      var i :| 0 <= i < |es| && RoutesIn(k, c)(es[i]) && k.config(es[i].kind, es[i].nets[1], es[i].bits) == key;
      assert RecordKey(k, es[i]) == RecordKey(k, es[j]);
    }
    if RoutesIn(k, c)(e) {
      assert RoutesIn(k, c)(es[j]) && k.config(es[j].kind, es[j].nets[1], es[j].bits) == key;
    }
  }

  /** What the tables say about category c, in the terms EntriesCount and
      KeyListed use. */
  lemma CategoryTables(k: Keying, es: seq<Entry>, c: Category, keys: seq<string>)
    requires ConfigTablesOf(k, es).Ok?
    requires c in ConfigTablesOf(k, es).value.grpgrp
    requires ListsOnce(keys, ConfigTablesOf(k, es).value.grpgrp[c])
    ensures var t := ConfigTablesOf(k, es).value;
            (forall i :: 0 <= i < |keys| ==> keys[i] in t.configGroups && t.configGroups[keys[i]] == Bucket(k, es, keys[i])) &&
            (forall key, e :: key in t.configGroups && e in t.configGroups[key] ==> HasEnds(e))
    ensures forall key :: key in keys <==> key in CategoryKeys(k, es, c)
  {
    var t := ConfigTablesOf(k, es).value;
    ConfigTablesListed(k, es);
    ConfigTablesExact(k, es);
    assert t.grpgrp[c] == CategoryKeys(k, es, c);
  }

  /** The records of category c's buckets, taken over its keys listed once,
      are the routing records of category c, as often as the database holds
      them, when a key fixes the category. */
  lemma CategoryRecords(k: Keying, es: seq<Entry>, c: Category, keys: seq<string>)
    requires ConfigTablesOf(k, es).Ok? && KeyFixesCategory(k, es)
    requires c in ConfigTablesOf(k, es).value.grpgrp
    requires ListsOnce(keys, ConfigTablesOf(k, es).value.grpgrp[c])
    ensures var t := ConfigTablesOf(k, es).value;
            (forall i :: 0 <= i < |keys| ==> keys[i] in t.configGroups) &&
            (forall key, e :: key in t.configGroups && e in t.configGroups[key] ==> HasEnds(e))
    ensures var t := ConfigTablesOf(k, es).value;
            multiset(CategoryEntries(keys, t.configGroups)) == multiset(Applicable(es, RoutesIn(k, c)))
  {
    var groups := ConfigTablesOf(k, es).value.configGroups;
    CategoryTables(k, es, c, keys);
    var ce := CategoryEntries(keys, groups);
    var ap := Applicable(es, RoutesIn(k, c));
    forall e
      ensures multiset(ce)[e] == multiset(ap)[e]
    {
      EntriesCount(k, es, keys, groups, e);
      ApplicableCount(es, RoutesIn(k, c), e);
      if IsRoutingKind(e.kind) && HasEnds(e) && e in es {
        KeyListed(k, es, c, keys, e);
      }
    }
    assert multiset(ce) == multiset(ap);
  }

  /** A record held twice sits at two places. */
  lemma {:induction false} TwoIndices(es: seq<Entry>, x: Entry) returns (a: nat, b: nat)
    requires multiset(es)[x] >= 2
    ensures a < b < |es| && es[a] == x && es[b] == x
  {
    var init := es[..|es| - 1];
    assert es == init + [es[|es| - 1]];
    if es[|es| - 1] == x {
      a := IndexOf(init, x);
      b := |es| - 1;
    } else {
      a, b := TwoIndices(init, x);
    }
  }

  /** Equal records at two places are held twice. */
  lemma CountTwo(fs: seq<Entry>, i: nat, j: nat)
    requires i < j < |fs| && fs[i] == fs[j]
    ensures multiset(fs)[fs[i]] >= 2
  {
    assert fs == fs[..j] + fs[j..];
    assert fs[i] in fs[..j];
    assert fs[j] in fs[j..];
  }

  /** No two records sharing a pair is a property of the multiset of records. */
  lemma DistinctPerm(es: seq<Entry>, fs: seq<Entry>)
    requires AllHaveEnds(es) && AllHaveEnds(fs) && multiset(es) == multiset(fs)
    requires DistinctLinks(es)
    ensures DistinctLinks(fs)
  {
    forall i, j | 0 <= i < j < |fs| ensures Link(fs[i]) != Link(fs[j]) {
      if fs[i] == fs[j] {
        CountTwo(fs, i, j);
        var a, b := TwoIndices(es, fs[i]);
        assert false;
      } else {
        assert fs[i] in multiset(es) && fs[j] in multiset(es);
        var a := IndexOf(es, fs[i]);
        var b := IndexOf(es, fs[j]);
        if a < b {
          assert Link(es[a]) != Link(es[b]);
        } else {
          assert Link(es[b]) != Link(es[a]);
        }
      }
    }
  }

  /** A description of some records describes any reordering of them. */
  lemma DescribesPerm(l: Links, es: seq<Entry>, fs: seq<Entry>)
    requires AllHaveEnds(es) && AllHaveEnds(fs) && multiset(es) == multiset(fs)
    requires Describes(l, es)
    ensures Describes(l, fs)
  {
    SameEnds(es, fs);
    SameEnds(fs, es);
    forall i | 0 <= i < |fs| ensures Link(fs[i]) in l.matrix && l.matrix[Link(fs[i])] == Marker(fs[i].kind) {
      assert fs[i] in multiset(es);
      var j := IndexOf(es, fs[i]);
    }
  }

  /** The matrix of category c is built exactly when no two of its routing
      records share a (source, destination) pair, and then it describes those
      records. */
  lemma CategoryMatrix(k: Keying, es: seq<Entry>, c: Category, keys: seq<string>)
    requires ConfigTablesOf(k, es).Ok? && KeyFixesCategory(k, es)
    requires c in ConfigTablesOf(k, es).value.grpgrp
    requires ListsOnce(keys, ConfigTablesOf(k, es).value.grpgrp[c])
    ensures var t := ConfigTablesOf(k, es).value;
            (forall i :: 0 <= i < |keys| ==> keys[i] in t.configGroups) &&
            (forall key, e :: key in t.configGroups && e in t.configGroups[key] ==> HasEnds(e)) &&
            AllHaveEnds(Applicable(es, RoutesIn(k, c))) &&
            (LinksOf(CategoryEntries(keys, t.configGroups)).Ok? <==> DistinctLinks(Applicable(es, RoutesIn(k, c)))) &&
            (LinksOf(CategoryEntries(keys, t.configGroups)).Ok? ==>
               Describes(LinksOf(CategoryEntries(keys, t.configGroups)).value, Applicable(es, RoutesIn(k, c))))
  {
    var t := ConfigTablesOf(k, es).value;
    CategoryRecords(k, es, c, keys);
    var ce := CategoryEntries(keys, t.configGroups);
    var ap := Applicable(es, RoutesIn(k, c));
    assert AllHaveEnds(ap) by {
      forall i | 0 <= i < |ap| ensures HasEnds(ap[i]) {
        assert ap[i] in ap;
      }
    }
    LinksOk(ce);
    if DistinctLinks(ce) {
      DistinctPerm(ce, ap);
      LinksDescribes(ce);
      DescribesPerm(LinksOf(ce).value, ce, ap);
    }
    if DistinctLinks(ap) {
      DistinctPerm(ap, ce);
    }
  }

  /** One more record entered. */
  lemma LinksSnoc(es: seq<Entry>, e: Entry)
    requires AllHaveEnds(es) && HasEnds(e)
    ensures AllHaveEnds(es + [e])
    ensures LinksOf(es + [e]) == if LinksOf(es).Err? then LinksOf(es) else AddLink(LinksOf(es).value, e)
  {
    assert (es + [e])[..|es|] == es;
  }

  /** The inner loop: the records of one bucket entered after those before. */
  method AddGroup(ghost before: seq<Entry>, l: Links, grp: seq<Entry>) returns (r: Result<Links, Failure>)
    requires AllHaveEnds(before) && AllHaveEnds(grp) && LinksOf(before) == Ok(l)
    ensures AllHaveEnds(before + grp) && r == LinksOf(before + grp)
  {
    var cur := l;
    var j := 0;
    assert before + grp[..0] == before;
    while j < |grp|
      invariant 0 <= j <= |grp|
      invariant AllHaveEnds(before + grp[..j]) && LinksOf(before + grp[..j]) == Ok(cur)
    {
      var e := grp[j];
      assert before + grp[..j + 1] == (before + grp[..j]) + [e];
      LinksSnoc(before + grp[..j], e);
      var src, dst := e.nets[0], e.nets[1];
      if (src, dst) in cur.matrix {
        assert (before + grp)[..|before| + j + 1] == before + grp[..j + 1];
        LinksErrPrefix(before + grp, |before| + j + 1);
        return Err(DuplicateLink(src, dst));
      }
      cur := Links(cur.matrix[(src, dst) := Marker(e.kind)], cur.srcNets + {src}, cur.dstNets + {dst});
      j := j + 1;
    }
    assert grp[..j] == grp;
    r := Ok(cur);
  }

  /** The loop over the category's sorted keys and their buckets. */
  method BuildLinks(keys: seq<string>, groups: map<string, seq<Entry>>) returns (r: Result<Links, Failure>)
    requires forall i :: 0 <= i < |keys| ==> keys[i] in groups
    requires forall key, e :: key in groups && e in groups[key] ==> HasEnds(e)
    ensures r == LinksOf(CategoryEntries(keys, groups))
  {
    var l := NoLinks;
    var i := 0;
    while i < |keys|
      invariant 0 <= i <= |keys|
      invariant LinksOf(CategoryEntries(keys[..i], groups)) == Ok(l)
    {
      ghost var before := CategoryEntries(keys[..i], groups);
      var grp := groups[keys[i]];
      assert keys[..i + 1][..i] == keys[..i];
      assert CategoryEntries(keys[..i + 1], groups) == before + grp;
      var step := AddGroup(before, l, grp);
      if step.Err? {
        CategoryEntriesSplit(keys, groups, i + 1);
        LinksErrPrefix(CategoryEntries(keys, groups), |before + grp|);
        return step;
      }
      l := step.value;
      i := i + 1;
    }
    assert keys[..i] == keys;
    r := Ok(l);
  }
}
