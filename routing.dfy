/** The routing configuration of a tile: routing and buffer records bucketed
    by kind, destination and bits, the buckets filed by the destination's
    category, the other records filed by their fields; and per category the
    connectivity matrix of (source, destination) pairs. */
module Routing {
  import opened Wrappers
  import opened Text
  import opened Ordering
  import opened TileDb
  import opened NetCat
  import opened BitId

  /** The record's bit ids with the '!' markers removed: each names the same
      bitmap cell as the id it comes from, and has no marker left. */
  function StrippedBits(bits: seq<string>): (r: seq<string>)
    ensures |r| == |bits| && forall i :: 0 <= i < |bits| ==> r[i] == StripBang(bits[i])
    ensures forall i :: 0 <= i < |bits| ==> '!' !in r[i] && Address(r[i]) == Address(bits[i])
  {
    StripBangsTwice(bits);
    seq(|bits|, i requires 0 <= i < |bits| => StripBang(bits[i]))
  }

  lemma StripBangsTwice(bits: seq<string>)
    ensures forall i :: 0 <= i < |bits| ==> StripBang(StripBang(bits[i])) == StripBang(bits[i])
  {
    forall i | 0 <= i < |bits| {
      StripBangTwice(bits[i]);
    }
  }

  /** cfggrp: the kind, a space, the destination, a comma, and the sorted
      stripped bits joined by commas. */
  function ConfigKey(kind: string, dst: string, bits: seq<string>): string
  {
    kind + " " + dst + "," + Join(Sort(StrippedBits(bits)), ",")
  }

  /** The key of a non-routing record: "&nbsp;".join(entry[1:]). */
  function OtherKey(e: Entry): string
  {
    Join([e.kind] + e.nets, "&nbsp;")
  }

  /** The functions the filing uses: the destination's category and the two
      keys. The tile page uses TileKeying; the filing is proved for any. */
  datatype Keying = Keying(
    cat: string -> Category,
    config: (string, string, seq<string>) -> string,
    other: Entry -> string)

  const TileKeying := Keying(Net2Cat, ConfigKey, OtherKey)

  /** config_groups, grpgrp and other_config_groups. */
  datatype ConfigTables = ConfigTables(
    configGroups: map<string, seq<Entry>>,
    grpgrp: map<Category, set<string>>,
    others: map<string, set<string>>)

  const NoTables := ConfigTables(map[], map[], map[])

  /** One record filed. A routing or buffer record without entry[3] raises
      IndexError. */
  function AddConfig(k: Keying, t: ConfigTables, e: Entry): Result<ConfigTables, Failure>
  {
    if IsRoutingKind(e.kind) then
      if |e.nets| < 2 then Err(MissingNet(e.kind))
      else
        var key := k.config(e.kind, e.nets[1], e.bits);
        var c := k.cat(e.nets[1]);
        Ok(t.(configGroups := t.configGroups[key := (if key in t.configGroups then t.configGroups[key] else []) + [e]],
              grpgrp := t.grpgrp[c := (if c in t.grpgrp then t.grpgrp[c] else {}) + {key}]))
    else
      var key := k.other(e);
      Ok(t.(others := t.others[key := (if key in t.others then t.others[key] else {}) + set b | b in e.bits]))
  }

  function ConfigTablesOf(k: Keying, es: seq<Entry>): Result<ConfigTables, Failure>
  {
    if es == [] then Ok(NoTables)
    else
      var prev :- ConfigTablesOf(k, es[..|es| - 1]);
      AddConfig(k, prev, es[|es| - 1])
  }

  /** Filing fails exactly when a routing or buffer record lacks a destination. */
  lemma {:induction false} ConfigTablesOk(k: Keying, es: seq<Entry>)
    ensures ConfigTablesOf(k, es).Ok? <==>
              forall i :: 0 <= i < |es| && IsRoutingKind(es[i].kind) ==> |es[i].nets| >= 2
  {
    if es != [] {
      var init := es[..|es| - 1];
      ConfigTablesOk(k, init);
      assert forall i :: 0 <= i < |init| ==> init[i] == es[i];
    }
  }

  /** A routing or buffer record sits in the bucket of its key, and the key
      is filed under the category of the record's destination. */
  predicate RoutingFiled(k: Keying, t: ConfigTables, e: Entry)
  {
    |e.nets| >= 2 &&
    var key := k.config(e.kind, e.nets[1], e.bits);
    key in t.configGroups && e in t.configGroups[key] &&
    k.cat(e.nets[1]) in t.grpgrp && key in t.grpgrp[k.cat(e.nets[1])]
  }

  /** Every bucket holds only routing or buffer records of the given ones,
      each under its own key. */
  predicate BucketsSound(k: Keying, t: ConfigTables, es: seq<Entry>)
  {
    forall key, e :: key in t.configGroups && e in t.configGroups[key] ==>
      e in es && IsRoutingKind(e.kind) && |e.nets| >= 2 && k.config(e.kind, e.nets[1], e.bits) == key
  }

  /** Every bit of a non-routing record is in the set of the record's key. */
  predicate OthersFiled(k: Keying, t: ConfigTables, e: Entry)
  {
    k.other(e) in t.others && forall b :: b in e.bits ==> b in t.others[k.other(e)]
  }

  /** What the filing guarantees about the records it has seen. */
  predicate Filed(k: Keying, t: ConfigTables, es: seq<Entry>)
  {
    (forall e :: e in es && IsRoutingKind(e.kind) ==> RoutingFiled(k, t, e)) &&
    BucketsSound(k, t, es) &&
    (forall e :: e in es && !IsRoutingKind(e.kind) ==> OthersFiled(k, t, e))
  }

  lemma {:induction false} ConfigTablesFiled(k: Keying, es: seq<Entry>)
    requires ConfigTablesOf(k, es).Ok?
    ensures Filed(k, ConfigTablesOf(k, es).value, es)
    ensures Exact(k, ConfigTablesOf(k, es).value, es)
  {
    ConfigTablesExact(k, es);
    if es != [] {
      var init, e := es[..|es| - 1], es[|es| - 1];
      ConfigTablesFiled(k, init);
      assert es == init + [e];
      var prev := ConfigTablesOf(k, init).value;
      var t := AddConfig(k, prev, e).value;
      AddConfigKeeps(k, prev, e);
      AddConfigBuckets(k, prev, init, e);
      forall x | x in es && IsRoutingKind(x.kind) ensures RoutingFiled(k, t, x) {
        if x != e {
          assert x in init;
        }
      }
      forall x | x in es && !IsRoutingKind(x.kind) ensures OthersFiled(k, t, x) {
        if x != e {
          assert x in init;
        }
      }
    }
  }

  /** Filing one record keeps what was filed before and files the record. */
  lemma AddConfigKeeps(k: Keying, t: ConfigTables, e: Entry)
    requires AddConfig(k, t, e).Ok?
    ensures forall x :: RoutingFiled(k, t, x) ==> RoutingFiled(k, AddConfig(k, t, e).value, x)
    ensures forall x :: OthersFiled(k, t, x) ==> OthersFiled(k, AddConfig(k, t, e).value, x)
    ensures IsRoutingKind(e.kind) ==> RoutingFiled(k, AddConfig(k, t, e).value, e)
    ensures !IsRoutingKind(e.kind) ==> OthersFiled(k, AddConfig(k, t, e).value, e)
  {
  }

  lemma AddConfigBuckets(k: Keying, t: ConfigTables, es: seq<Entry>, e: Entry)
    requires BucketsSound(k, t, es) && AddConfig(k, t, e).Ok?
    ensures BucketsSound(k, AddConfig(k, t, e).value, es + [e])
  {
    var r := AddConfig(k, t, e).value;
    if IsRoutingKind(e.kind) {
      var key := k.config(e.kind, e.nets[1], e.bits);
      forall key', x | key' in r.configGroups && x in r.configGroups[key']
        ensures x in es + [e] && IsRoutingKind(x.kind) && |x.nets| >= 2 && k.config(x.kind, x.nets[1], x.bits) == key'
      {
        if key' == key && x !in (if key in t.configGroups then t.configGroups[key] else []) {
          assert x == e;
        }
      }
    }
  }

  /** The records a bucket receives: routing or buffer records with a
      destination whose key is the given one. */
  function InBucket(k: Keying, key: string): Entry -> bool
  {
    (e: Entry) => IsRoutingKind(e.kind) && |e.nets| >= 2 && k.config(e.kind, e.nets[1], e.bits) == key
  }

  /** The routing or buffer records whose destination has category c. */
  function RoutesIn(k: Keying, c: Category): Entry -> bool
  {
    (e: Entry) => IsRoutingKind(e.kind) && |e.nets| >= 2 && k.cat(e.nets[1]) == c
  }

  /** A bucket's records: those of its key, in database order, repeats kept. */
  function Bucket(k: Keying, es: seq<Entry>, key: string): seq<Entry>
  {
    Applicable(es, InBucket(k, key))
  }

  /** The keys of the buckets whose records have a destination of category c. */
  function CategoryKeys(k: Keying, es: seq<Entry>, c: Category): set<string>
  {
    if es == [] then {}
    else
      var e := es[|es| - 1];
      CategoryKeys(k, es[..|es| - 1], c) + (if RoutesIn(k, c)(e) then {k.config(e.kind, e.nets[1], e.bits)} else {})
  }

  /** Some non-routing record has the key. */
  predicate HasOther(k: Keying, es: seq<Entry>, key: string)
  {
    es != [] &&
    (HasOther(k, es[..|es| - 1], key) || (!IsRoutingKind(es[|es| - 1].kind) && k.other(es[|es| - 1]) == key))
  }

  /** The bits of the non-routing records with the key, as written. */
  function OtherBits(k: Keying, es: seq<Entry>, key: string): set<string>
  {
    if es == [] then {}
    else
      var e := es[|es| - 1];
      OtherBits(k, es[..|es| - 1], key) + (if !IsRoutingKind(e.kind) && k.other(e) == key then set b | b in e.bits else {})
  }

  /** config_groups holds exactly the non-empty buckets. */
  ghost predicate ExactBuckets(k: Keying, t: ConfigTables, es: seq<Entry>)
  {
    forall key :: (key in t.configGroups <==> Bucket(k, es, key) != []) &&
                  (key in t.configGroups ==> t.configGroups[key] == Bucket(k, es, key))
  }

  /** grpgrp holds exactly the categories with a key, each with its keys. */
  ghost predicate ExactCategories(k: Keying, t: ConfigTables, es: seq<Entry>)
  {
    forall c :: (c in t.grpgrp <==> CategoryKeys(k, es, c) != {}) &&
                (c in t.grpgrp ==> t.grpgrp[c] == CategoryKeys(k, es, c))
  }

  /** other_config_groups holds exactly the non-routing keys, each with its bits. */
  ghost predicate ExactOthers(k: Keying, t: ConfigTables, es: seq<Entry>)
  {
    forall key :: (key in t.others <==> HasOther(k, es, key)) &&
                  (key in t.others ==> t.others[key] == OtherBits(k, es, key))
  }

  ghost predicate Exact(k: Keying, t: ConfigTables, es: seq<Entry>)
  {
    ExactBuckets(k, t, es) && ExactCategories(k, t, es) && ExactOthers(k, t, es)
  }

  lemma AddConfigExactBuckets(k: Keying, t: ConfigTables, es: seq<Entry>, e: Entry)
    requires ExactBuckets(k, t, es) && AddConfig(k, t, e).Ok?
    ensures ExactBuckets(k, AddConfig(k, t, e).value, es + [e])
  {
    var es' := es + [e];
    assert es'[..|es'| - 1] == es;
    forall key ensures Bucket(k, es', key) == Bucket(k, es, key) + (if InBucket(k, key)(e) then [e] else []) {
    }
  }

  lemma AddConfigExactCategories(k: Keying, t: ConfigTables, es: seq<Entry>, e: Entry)
    requires ExactCategories(k, t, es) && AddConfig(k, t, e).Ok?
    ensures ExactCategories(k, AddConfig(k, t, e).value, es + [e])
  {
    var es' := es + [e];
    assert es'[..|es'| - 1] == es;
  }

  lemma AddConfigExactOthers(k: Keying, t: ConfigTables, es: seq<Entry>, e: Entry)
    requires ExactOthers(k, t, es) && AddConfig(k, t, e).Ok?
    ensures ExactOthers(k, AddConfig(k, t, e).value, es + [e])
  {
    var es', r := es + [e], AddConfig(k, t, e).value;
    assert es'[..|es'| - 1] == es;
    forall key ensures (key in r.others <==> HasOther(k, es', key)) &&
                       (key in r.others ==> r.others[key] == OtherBits(k, es', key)) {
      var mine := !IsRoutingKind(e.kind) && k.other(e) == key;
      assert HasOther(k, es', key) == (HasOther(k, es, key) || mine);
      assert OtherBits(k, es', key) == OtherBits(k, es, key) + (if mine then set b | b in e.bits else {});
      if !HasOther(k, es, key) {
        OtherBitsNone(k, es, key);
      }
    }
  }

  lemma {:induction false} OtherBitsNone(k: Keying, es: seq<Entry>, key: string)
    requires !HasOther(k, es, key)
    ensures OtherBits(k, es, key) == {}
  {
    if es != [] {
      OtherBitsNone(k, es[..|es| - 1], key);
    }
  }

  /** The tables hold nothing but what the records put there: each bucket is
      the list of its records in database order, each category has exactly
      the keys of its records, and each non-routing key exactly the bits of
      its records. */
  lemma {:induction false} ConfigTablesExact(k: Keying, es: seq<Entry>)
    requires ConfigTablesOf(k, es).Ok?
    ensures Exact(k, ConfigTablesOf(k, es).value, es)
  {
    if es != [] {
      var init, e := es[..|es| - 1], es[|es| - 1];
      ConfigTablesExact(k, init);
      var prev := ConfigTablesOf(k, init).value;
      assert ConfigTablesOf(k, es) == AddConfig(k, prev, e);
      assert init + [e] == es;
      AddConfigExactBuckets(k, prev, init, e);
      AddConfigExactCategories(k, prev, init, e);
      AddConfigExactOthers(k, prev, init, e);
    } else {
      assert forall key :: Bucket(k, es, key) == [];
    }
  }

  /** A key is filed under category c exactly when some record of that
      category has it. */
  lemma {:induction false} CategoryKeysSpec(k: Keying, es: seq<Entry>, c: Category, key: string)
    ensures key in CategoryKeys(k, es, c) <==>
              exists i :: 0 <= i < |es| && RoutesIn(k, c)(es[i]) && k.config(es[i].kind, es[i].nets[1], es[i].bits) == key
  {
    if es != [] {
      var init := es[..|es| - 1];
      CategoryKeysSpec(k, init, c, key);
      assert forall i :: 0 <= i < |init| ==> init[i] == es[i];
    }
  }

  /** The key of a routing or buffer record. */
  function RecordKey(k: Keying, e: Entry): string
    requires HasEnds(e)
  {
    k.config(e.kind, e.nets[1], e.bits)
  }

  /** Records that share a bucket have destinations of one category. */
  predicate KeyFixesCategory(k: Keying, es: seq<Entry>)
  {
    forall i, j :: 0 <= i < |es| && 0 <= j < |es| &&
                   IsRoutingKind(es[i].kind) && HasEnds(es[i]) && IsRoutingKind(es[j].kind) && HasEnds(es[j]) &&
                   RecordKey(k, es[i]) == RecordKey(k, es[j]) ==>
                   k.cat(es[i].nets[1]) == k.cat(es[j].nets[1])
  }

  /** The routing kind a key starts with. */
  function KindAt(s: string): string
  {
    if s != [] && s[0] == 'r' then "routing" else "buffer"
  }

  /** A page key gives back its kind and destination when the destination has
      no comma. */
  lemma ConfigKeyHead(kind: string, dst: string, bits: seq<string>)
    requires IsRoutingKind(kind) && ',' !in dst
    ensures KindAt(ConfigKey(kind, dst, bits)) == kind
    ensures SplitOn(ConfigKey(kind, dst, bits), ',')[0] == kind + " " + dst
  {
    var head := kind + " " + dst;
    assert ConfigKey(kind, dst, bits) == head + [','] + Join(Sort(StrippedBits(bits)), ",");
    assert ',' !in kind;
    assert ',' !in head;
    SplitOnAfterPiece(head, ',', Join(Sort(StrippedBits(bits)), ","));
  }

  /** On the page, records sharing a key share their destination, so the key
      fixes the category, whenever no destination contains a comma. */
  lemma TileKeyFixesCategory(es: seq<Entry>)
    requires forall i :: 0 <= i < |es| && HasEnds(es[i]) ==> ',' !in es[i].nets[1]
    ensures KeyFixesCategory(TileKeying, es)
  {
    forall i, j | 0 <= i < |es| && 0 <= j < |es| &&
                  IsRoutingKind(es[i].kind) && HasEnds(es[i]) && IsRoutingKind(es[j].kind) && HasEnds(es[j]) &&
                  RecordKey(TileKeying, es[i]) == RecordKey(TileKeying, es[j])
      ensures es[i].nets[1] == es[j].nets[1]
    {
      var e, f := es[i], es[j];
      ConfigKeyHead(e.kind, e.nets[1], e.bits);
      ConfigKeyHead(f.kind, f.nets[1], f.bits);
      var h := e.kind + " " + e.nets[1];
      assert h == f.kind + " " + f.nets[1];
      assert e.kind == f.kind;
      assert e.nets[1] == h[|e.kind| + 1..];
    }
  }

  /** Every key filed under a category names a bucket. */
  predicate CategoriesListed(t: ConfigTables)
  {
    forall c, key :: c in t.grpgrp && key in t.grpgrp[c] ==> key in t.configGroups
  }

  /** The tables the tile page reads per category are well formed: every key
      of a category has a bucket, and every bucketed record has a source and
      a destination, as the connectivity matrix needs. */
  lemma {:induction false} ConfigTablesListed(k: Keying, es: seq<Entry>)
    requires ConfigTablesOf(k, es).Ok?
    ensures CategoriesListed(ConfigTablesOf(k, es).value)
    ensures var t := ConfigTablesOf(k, es).value;
            forall key, e :: key in t.configGroups && e in t.configGroups[key] ==> HasEnds(e)
  {
    if es != [] {
      var init, e := es[..|es| - 1], es[|es| - 1];
      ConfigTablesListed(k, init);
      ConfigTablesFiled(k, es);
    }
  }

  /** The bit list the stamp table reads back from a key: cfggrp.split(",")[1:]
      gives the sorted stripped bits when no field contains a comma. */
  lemma KeyBits(kind: string, dst: string, bits: seq<string>)
    requires bits != [] && ',' !in kind && ',' !in dst
    requires forall i :: 0 <= i < |bits| ==> ',' !in bits[i]
    ensures SplitOn(ConfigKey(kind, dst, bits), ',')[1..] == Sort(StrippedBits(bits))
  {
    var stripped := StrippedBits(bits);
    var sorted := Sort(stripped);
    forall i | 0 <= i < |sorted| ensures ',' !in sorted[i] {
      assert sorted[i] in multiset(stripped);
      var j :| 0 <= j < |bits| && stripped[j] == sorted[i];
      StripBangSub(bits[j]);
    }
    SplitJoin(sorted, ',');
    SplitOnAfterPiece(kind + " " + dst, ',', Join(sorted, ","));
    assert ConfigKey(kind, dst, bits) == (kind + " " + dst) + [','] + Join(sorted, ",");
  }

  /** Removing '!' adds no character. */
  lemma {:induction false} StripBangSub(s: string)
    ensures forall c :: c in StripBang(s) ==> c in s
  {
    if s != [] {
      StripBangSub(s[1..]);
    }
  }

  /** A record without bits leaves one empty bit name after the split. */
  lemma KeyNoBits(kind: string, dst: string)
    requires ',' !in kind && ',' !in dst
    ensures SplitOn(ConfigKey(kind, dst, []), ',')[1..] == [""]
  {
    assert StrippedBits([]) == [];
    assert ConfigKey(kind, dst, []) == (kind + " " + dst) + [','] + "";
    SplitOnAfterPiece(kind + " " + dst, ',', "");
  }

  /** Records with the same kind and destination whose bits are the same once
      stripped, in whatever order and sense, share a bucket. */
  lemma KeyIgnoresOrderAndSense(kind: string, dst: string, bits: seq<string>, bits': seq<string>)
    requires multiset(StrippedBits(bits)) == multiset(StrippedBits(bits'))
    ensures ConfigKey(kind, dst, bits) == ConfigKey(kind, dst, bits')
  {
    SortPermutationInvariant(StrippedBits(bits), StrippedBits(bits'));
  }

  /** One record of the loop: a routing or buffer record goes into its bucket
      and its key under the destination's category; any other record adds its
      bits to the set of its key. */
  method FileRecord(k: Keying, t: ConfigTables, e: Entry)
    returns (r: Result<ConfigTables, Failure>)
    ensures r == AddConfig(k, t, e)
  {
    if IsRoutingKind(e.kind) {
      if |e.nets| < 2 {
        return Err(MissingNet(e.kind));
      }
      var key := k.config(e.kind, e.nets[1], e.bits);
      var c := k.cat(e.nets[1]);
      var bucket := if key in t.configGroups then t.configGroups[key] else [];
      var keys := if c in t.grpgrp then t.grpgrp[c] else {};
      r := Ok(t.(configGroups := t.configGroups[key := bucket + [e]], grpgrp := t.grpgrp[c := keys + {key}]));
    } else {
      var key := k.other(e);
      var grp := if key in t.others then t.others[key] else {};
      ghost var grp0 := grp;
      var j := 0;
      while j < |e.bits|
        invariant 0 <= j <= |e.bits|
        invariant grp == grp0 + set b | b in e.bits[..j]
      {
        assert e.bits[..j + 1] == e.bits[..j] + [e.bits[j]];
        grp := grp + {e.bits[j]};
        j := j + 1;
      }
      assert e.bits[..j] == e.bits;
      r := Ok(t.(others := t.others[key := grp]));
    }
  }

  /** The loop over the tile's records that fills the three tables. */
  method BuildConfigTables(k: Keying, db: seq<Entry>, applies: Entry -> bool)
    returns (r: Result<ConfigTables, Failure>)
    ensures r == ConfigTablesOf(k, Applicable(db, applies))
  {
    var t := NoTables;
    ghost var done: seq<Entry> := [];
    var i := 0;
    while i < |db|
      invariant 0 <= i <= |db|
      invariant done == Applicable(db[..i], applies)
      invariant ConfigTablesOf(k, done) == Ok(t)
    {
      var e := db[i];
      assert db[..i + 1][..i] == db[..i];
      if applies(e) {
        assert (done + [e])[..|done|] == done;
        var step := FileRecord(k, t, e);
        if step.Err? {
          r := Err(step.error);
          ApplicableSplit(db, i + 1, applies);
          ConfigTablesErrPrefix(k, Applicable(db, applies), |done| + 1);
          return;
        }
        t := step.value;
        done := done + [e];
      }
      i := i + 1;
    }
    assert db[..i] == db;
    r := Ok(t);
  }

  lemma {:induction false} ConfigTablesErrPrefix(k: Keying, es: seq<Entry>, n: nat)
    requires n <= |es| && ConfigTablesOf(k, es[..n]).Err?
    ensures ConfigTablesOf(k, es) == ConfigTablesOf(k, es[..n])
  {
    if n < |es| {
      var init := es[..|es| - 1];
      assert init[..n] == es[..n];
      ConfigTablesErrPrefix(k, init, n);
    } else {
      assert es[..n] == es;
    }
  }
}
