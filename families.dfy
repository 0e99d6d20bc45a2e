/** Net families of the focal tile. A local net name of the shape
    <prefix>_<digits><rest> is one member of the family prefix_*rest and
    contributes its index; any other name is a family of its own, marked by
    the index -1. The listing prints one line per kind of member. */
module Families {
  import opened Wrappers
  import opened Text
  import opened Ordering
  import opened BitId
  import opened TileDb
  import opened NetCat

  /** The three groups of re.match(r"(.*?_)(\d+)(.*)", name). */
  datatype FamilyMatch = FamilyMatch(prefix: string, digits: string, rest: string)

  /** A place where the lazy first group can end: '_' followed by a digit. */
  predicate SplitAt(s: string, j: nat)
  {
    j + 1 < |s| && s[j] == '_' && IsDigit(s[j + 1])
  }

  /** The first split point at or after i. '.' does not match a newline, so
      the search gives up at the first one. */
  function FindSplit(s: string, i: nat): (r: Option<nat>)
    requires i <= |s|
    ensures r.Some? ==> i <= r.value && SplitAt(s, r.value)
    ensures r.Some? ==> forall j :: i <= j < r.value ==> s[j] != '\n' && !SplitAt(s, j)
    ensures r.None? ==> forall j :: i <= j < |s| && SplitAt(s, j) ==> exists n :: i <= n < j && s[n] == '\n'
    decreases |s| - i
  {
    if i + 1 >= |s| || s[i] == '\n' then None
    else if SplitAt(s, i) then Some(i)
    else FindSplit(s, i + 1)
  }

  /** The end of the line that contains index k. */
  function LineEnd(s: string, k: nat): (e: nat)
    requires k <= |s|
    ensures k <= e <= |s| && (e == |s| || s[e] == '\n')
    ensures forall n :: k <= n < e ==> s[n] != '\n'
    decreases |s| - k
  {
    if k == |s| || s[k] == '\n' then k else LineEnd(s, k + 1)
  }

  function MatchFamily(s: string): Option<FamilyMatch>
  {
    match FindSplit(s, 0)
    case None => None
    case Some(j) =>
      var k := DigitRunEnd(s, j + 1);
      Some(FamilyMatch(s[..j + 1], s[j + 1..k], s[k..LineEnd(s, k)]))
  }

  /** The regex finds its groups exactly when some '_' followed by a digit
      comes before any newline. The first group is the shortest such prefix,
      the second the whole digit run after it, the third the rest of the line;
      without a newline the three groups put back together are the name. */
  lemma MatchFamilySpec(s: string)
    ensures MatchFamily(s).Some? <==> exists j :: 0 <= j < |s| && SplitAt(s, j) && '\n' !in s[..j]
    ensures MatchFamily(s).Some? ==>
      var m := MatchFamily(s).value;
      var j := |m.prefix| - 1;
      j >= 0 && SplitAt(s, j) && (forall n :: 0 <= n < j ==> !SplitAt(s, n)) &&
      |m.digits| > 0 && AllDigits(m.digits) &&
      (m.rest == [] || !IsDigit(m.rest[0])) && '\n' !in m.rest &&
      m.prefix + m.digits + m.rest <= s &&
      (|m.prefix + m.digits + m.rest| < |s| ==> s[|m.prefix + m.digits + m.rest|] == '\n') &&
      ('\n' !in s ==> m.prefix + m.digits + m.rest == s)
  {
    if FindSplit(s, 0).Some? {
      MatchFamilyFound(s);
    } else {
      MatchFamilyNotFound(s);
    }
  }

  lemma MatchFamilyFound(s: string)
    requires FindSplit(s, 0).Some?
    ensures '\n' !in s[..FindSplit(s, 0).value]
    ensures MatchFamily(s).Some?
    ensures var m := MatchFamily(s).value;
      var j := |m.prefix| - 1;
      j == FindSplit(s, 0).value &&
      |m.digits| > 0 && AllDigits(m.digits) &&
      (m.rest == [] || !IsDigit(m.rest[0])) && '\n' !in m.rest &&
      m.prefix + m.digits + m.rest <= s &&
      (|m.prefix + m.digits + m.rest| < |s| ==> s[|m.prefix + m.digits + m.rest|] == '\n') &&
      ('\n' !in s ==> m.prefix + m.digits + m.rest == s)
  {
    var j := FindSplit(s, 0).value;
    var k := DigitRunEnd(s, j + 1);
    var e := LineEnd(s, k);
    var m := MatchFamily(s).value;
    assert m == FamilyMatch(s[..j + 1], s[j + 1..k], s[k..e]);
    assert m.prefix + m.digits + m.rest == s[..e];
    if '\n' !in s {
      assert e == |s|;
    }
  }

  lemma MatchFamilyNotFound(s: string)
    requires FindSplit(s, 0).None?
    ensures forall j :: 0 <= j < |s| && SplitAt(s, j) ==> '\n' in s[..j]
  {
    forall j | 0 <= j < |s| && SplitAt(s, j) ensures '\n' in s[..j] {
      var n :| 0 <= n < j && s[n] == '\n';
      assert s[..j][n] == '\n';
    }
  }

  /** The family a local net name belongs to and the index it contributes. */
  function FamilyOf(name: string): (string, int)
  {
    match MatchFamily(name)
    case Some(m) => (m.prefix + "*" + m.rest, ParseNat(m.digits) as int)
    case None => (name, -1)
  }

  /** A way of filing a name under a key with an index. */
  type Filing = string -> (string, int)

  /** fams.setdefault(key, set()).add(index) for the name's key and index. */
  function AddFamily(file: Filing, fams: map<string, set<int>>, name: string): (r: map<string, set<int>>)
    ensures r.Keys == fams.Keys + {file(name).0}
  {
    var (key, index) := file(name);
    fams[key := (if key in fams then fams[key] else {}) + {index}]
  }

  /** The names added in order. */
  function AddFamilies(file: Filing, fams: map<string, set<int>>, names: seq<string>): map<string, set<int>>
  {
    if names == [] then fams
    else AddFamily(file, AddFamilies(file, fams, names[..|names| - 1]), names[|names| - 1])
  }

  /** this_tile_nets after the given local names. */
  function TileNets(fams: map<string, set<int>>, names: seq<string>): map<string, set<int>>
  {
    AddFamilies(FamilyOf, fams, names)
  }

  /** Adding a name never removes a family or an index. */
  lemma IndicesOnlyGrow(fams: map<string, set<int>>, name: string)
    ensures forall k :: k in fams ==> k in AddFamily(FamilyOf, fams, name) && fams[k] <= AddFamily(FamilyOf, fams, name)[k]
    ensures FamilyOf(name).1 in AddFamily(FamilyOf, fams, name)[FamilyOf(name).0]
  {
  }

  lemma {:induction false} AddFamiliesSpec(file: Filing, fams: map<string, set<int>>, names: seq<string>)
    ensures forall k :: k in AddFamilies(file, fams, names) <==>
              k in fams || exists n :: n in names && file(n).0 == k
    ensures forall k, i :: k in AddFamilies(file, fams, names) ==>
              (i in AddFamilies(file, fams, names)[k] <==>
               (k in fams && i in fams[k]) || exists n :: n in names && file(n) == (k, i))
  {
    if names != [] {
      var init, last := names[..|names| - 1], names[|names| - 1];
      AddFamiliesSpec(file, fams, init);
      assert names == init + [last];
      var r := AddFamilies(file, fams, names);
      forall k ensures k in r <==> k in fams || exists n :: n in names && file(n).0 == k {
        if exists n :: n in names && file(n).0 == k {
          var n :| n in names && file(n).0 == k;
          if n != last {
            assert n in init;
          }
        }
      }
      forall k, i | k in r
        ensures i in r[k] <==> (k in fams && i in fams[k]) || exists n :: n in names && file(n) == (k, i)
      {
        if exists n :: n in names && file(n) == (k, i) {
          var n :| n in names && file(n) == (k, i);
          if n != last {
            assert n in init;
          }
        }
      }
    }
  }

  /** A family exists exactly when it existed or some added name belongs to
      it, and an index is in it exactly when it was or some added name
      contributes it; so the result does not depend on the order of names. */
  lemma TileNetsSpec(fams: map<string, set<int>>, names: seq<string>)
    ensures forall k :: k in TileNets(fams, names) <==>
              k in fams || exists n :: n in names && FamilyOf(n).0 == k
    ensures forall k, i :: k in TileNets(fams, names) ==>
              (i in TileNets(fams, names)[k] <==>
               (k in fams && i in fams[k]) || exists n :: n in names && FamilyOf(n) == (k, i))
  {
    AddFamiliesSpec(FamilyOf, fams, names);
  }

  /** Every index this_tile_nets holds is -1 or non-negative, so the
      listing, which prints the bare key for -1 and the non-negative indices
      otherwise, leaves none of them out. */
  lemma ListingDropsNothing(names: seq<string>)
    ensures forall k :: k in TileNets(map[], names) ==>
              TileNets(map[], names)[k] <= {-1} + NonNegative(TileNets(map[], names)[k])
  {
    var fams := TileNets(map[], names);
    TileNetsSpec(map[], names);
    forall k, i | k in fams && i in fams[k] ensures i == -1 || i >= 0 {
      var n :| n in names && FamilyOf(n) == (k, i);
    }
  }

  // ---------------------------------------------------------------------
  // The listing of one family

  function NonNegative(idx: set<int>): (r: set<int>)
    ensures forall i :: i in r <==> i in idx && i >= 0
  {
    set i | i in idx && i >= 0
  }

  function DecimalList(xs: seq<int>): (r: seq<string>)
    ensures |r| == |xs|
    ensures forall n :: 0 <= n < |xs| && xs[n] >= 0 ==> r[n] == NatToString(xs[n])
  {
    if xs == [] then [] else [NatToString(if xs[0] >= 0 then xs[0] else 0)] + DecimalList(xs[1..])
  }

  /** "{" + ",".join("%d" % i for i in xs) + "}" */
  function Braced(xs: seq<int>): string
  {
    "{" + Join(DecimalList(xs), ",") + "}"
  }

  /** The item texts printed for a family: the bare key when -1 is present,
      then the key with '*' replaced by the single index, or by the ascending
      indices in braces when there are several. */
  function FamilyLines(key: string, idx: set<int>): seq<string>
  {
    var indices := SortedInts(NonNegative(idx));
    (if -1 in idx then [key] else []) +
    (if |indices| == 1 then [ReplaceStar(key, NatToString(indices[0]))]
     else if |indices| > 1 then [ReplaceStar(key, Braced(indices))]
     else [])
  }

  /** The number of lines: one for a plain member, one for the indexed members. */
  lemma FamilyLinesCount(key: string, idx: set<int>)
    ensures |FamilyLines(key, idx)| ==
              (if -1 in idx then 1 else 0) + (if exists i :: i in idx && i >= 0 then 1 else 0)
    ensures -1 in idx ==> FamilyLines(key, idx)[0] == key
  {
    if exists i :: i in idx && i >= 0 {
      var i :| i in idx && i >= 0;
      assert i in NonNegative(idx);
      assert |SortedInts(NonNegative(idx))| > 0;
    } else {
      assert NonNegative(idx) == {};
    }
  }

  lemma ReplaceStarOnce(prefix: string, rest: string, t: string)
    requires '*' !in prefix && '*' !in rest
    ensures ReplaceStar(prefix + "*" + rest, t) == prefix + t + rest
  {
    ReplaceStarAppend(prefix + "*", rest, t);
    ReplaceStarAppend(prefix, "*", t);
    ReplaceStarNoStar(prefix, t);
    ReplaceStarNoStar(rest, t);
    assert ReplaceStar("*", t) == t;
  }

  /** Substituting the index into the key of a member gives the member back. */
  lemma {:induction false} FamilyRoundTrip(name: string)
    requires MatchFamily(name).Some? && '\n' !in name && '*' !in name
    requires Canonical(MatchFamily(name).value.digits)
    ensures var (key, i) := FamilyOf(name);
            i >= 0 && FamilyLines(key, {i}) == [name]
  {
    MatchFamilySpec(name);
    var m := MatchFamily(name).value;
    var i: int := ParseNat(m.digits);
    assert NonNegative({i}) == {i};
    assert SortedInts({i}) == [i];
    NatToStringParse(m.digits);
    assert '*' !in m.prefix && '*' !in m.rest by {
      assert m.prefix + m.digits + m.rest == name;
    }
    ReplaceStarOnce(m.prefix, m.rest, m.digits);
  }

  /** A family of several indexed members is listed once: the indices in
      ascending order, comma separated in braces, where the '*' was. */
  lemma SeveralIndices(prefix: string, rest: string, idx: set<int>)
    requires '*' !in prefix && '*' !in rest
    requires -1 !in idx && |NonNegative(idx)| > 1
    ensures FamilyLines(prefix + "*" + rest, idx) == [prefix + Braced(SortedInts(NonNegative(idx))) + rest]
  {
    ReplaceStarOnce(prefix, rest, Braced(SortedInts(NonNegative(idx))));
  }

  // ---------------------------------------------------------------------
  // nets_in_cats

  /** The names filed under category c, in the order given. */
  function InCategory(cat: string -> Category, names: seq<string>, c: Category): (r: seq<string>)
    ensures forall n :: n in r <==> n in names && cat(n) == c
  {
    if names == [] then []
    else
      var init := InCategory(cat, names[..|names| - 1], c);
      var last := names[|names| - 1];
      assert names == names[..|names| - 1] + [last];
      if cat(last) == c then init + [last] else init
  }

  /** setdefault(cat(name), list()).append(name) for each name in order. */
  function GroupByCategory(cat: string -> Category, names: seq<string>): map<Category, seq<string>>
  {
    if names == [] then map[]
    else
      var m := GroupByCategory(cat, names[..|names| - 1]);
      var last := names[|names| - 1];
      var c := cat(last);
      m[c := (if c in m then m[c] else []) + [last]]
  }

  lemma {:induction false} GroupByCategoryKeys(cat: string -> Category, names: seq<string>)
    ensures GroupByCategory(cat, names).Keys == set n | n in names :: cat(n)
  {
    if names != [] {
      var init, last := names[..|names| - 1], names[|names| - 1];
      GroupByCategoryKeys(cat, init);
      assert names == init + [last];
      assert (set n | n in names :: cat(n)) == (set n | n in init :: cat(n)) + {cat(last)};
    }
  }

  /** A category no name belongs to gets no names. */
  lemma {:induction false} InCategoryNone(cat: string -> Category, names: seq<string>, c: Category)
    requires forall n :: n in names ==> cat(n) != c
    ensures InCategory(cat, names, c) == []
  {
    if names != [] {
      InCategoryNone(cat, names[..|names| - 1], c);
    }
  }

  lemma {:induction false} GroupByCategoryLists(cat: string -> Category, names: seq<string>)
    ensures forall c :: c in GroupByCategory(cat, names) ==> GroupByCategory(cat, names)[c] == InCategory(cat, names, c)
  {
    if names != [] {
      var init, last := names[..|names| - 1], names[|names| - 1];
      GroupByCategoryLists(cat, init);
      var prev, m := GroupByCategory(cat, init), GroupByCategory(cat, names);
      var d := cat(last);
      assert InCategory(cat, names, d) == InCategory(cat, init, d) + [last];
      if d !in prev {
        GroupByCategoryKeys(cat, init);
        InCategoryNone(cat, init, d);
      }
      forall c | c in m ensures m[c] == InCategory(cat, names, c) {
        if c != d {
          assert InCategory(cat, names, c) == InCategory(cat, init, c);
        }
      }
    }
  }

  /** nets_in_cats as setdefault leaves it: a category has a list exactly
      when some name belongs to it, and the list holds that category's names
      in the order given. */
  lemma GroupByCategorySpec(cat: string -> Category, names: seq<string>)
    ensures forall c :: c in GroupByCategory(cat, names) <==> exists n :: n in names && cat(n) == c
    ensures forall c :: c in GroupByCategory(cat, names) ==> GroupByCategory(cat, names)[c] == InCategory(cat, names, c)
  {
    GroupByCategoryKeys(cat, names);
    GroupByCategoryLists(cat, names);
  }

  /** nets_in_cats: a category has a list exactly when some net belongs to
      it, and the list holds that category's nets in the order given. */
  lemma NetsInCatsSpec(names: seq<string>)
    ensures forall c :: c in GroupByCategory(Net2Cat, names) <==> exists n :: n in names && Net2Cat(n) == c
    ensures forall c :: c in GroupByCategory(Net2Cat, names) ==>
              GroupByCategory(Net2Cat, names)[c] == InCategory(Net2Cat, names, c)
  {
    GroupByCategorySpec(Net2Cat, names);
  }

  /** The loop over sorted(this_tile_nets) that fills nets_in_cats; the page
      passes Net2Cat as cat. */
  method CategoriseNets(cat: string -> Category, names: seq<string>) returns (m: map<Category, seq<string>>)
    ensures m == GroupByCategory(cat, names)
  {
    m := map[];
    var i := 0;
    while i < |names|
      invariant 0 <= i <= |names|
      invariant m == GroupByCategory(cat, names[..i])
    {
      assert names[..i + 1][..i] == names[..i];
      var c := cat(names[i]);
      if c in m {
        m := m[c := m[c] + [names[i]]];
      } else {
        assert [] + [names[i]] == [names[i]];
        m := m[c := [names[i]]];
      }
      i := i + 1;
    }
    assert names[..i] == names;
  }
}
