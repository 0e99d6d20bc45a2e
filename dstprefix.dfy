/** The connectivity matrix's column header: the destination names' common
    prefix, cut back to its last '_', is printed once over the columns and
    removed from each name. */
module DstPrefix {
  import opened Wrappers
  import opened TileDb

  predicate NoneEmpty(l: seq<string>)
  {
    forall i :: 0 <= i < |l| ==> l[i] != ""
  }

  /** Every name starts with the first name's first character. */
  predicate SameHead(l: seq<string>)
    requires NoneEmpty(l)
  {
    forall i :: 0 <= i < |l| ==> l[i][0] == l[0][0]
  }

  /** Each name without its first character. */
  function Tails(l: seq<string>): (r: seq<string>)
    requires NoneEmpty(l)
    ensures |r| == |l| && forall i :: 0 <= i < |l| ==> r[i] == l[i][1..]
    ensures forall i :: 0 <= i < |l| ==> [l[i][0]] + r[i] == l[i]
  {
    seq(|l|, i requires 0 <= i < |l| => l[i][1..])
  }

  /** Each name with c put back in front. */
  function Prepend(c: char, l: seq<string>): (r: seq<string>)
    ensures |r| == |l| && forall i :: 0 <= i < |l| ==> r[i] == [c] + l[i]
  {
    seq(|l|, i requires 0 <= i < |l| => [c] + l[i])
  }

  /** Taking the first characters off again undoes Prepend. */
  lemma PrependTails(c: char, l: seq<string>)
    ensures NoneEmpty(Prepend(c, l)) && Tails(Prepend(c, l)) == l
  {
    var r := Prepend(c, l);
    assert forall i :: 0 <= i < |l| ==> r[i] == [c] + l[i];
  }

  /** The first while loop, from a prefix already taken: it goes on while the
      names' first characters form a one-element set; a name used up makes
      n[0] raise IndexError. */
  function StripLoop(prefix: string, l: seq<string>): Result<(string, seq<string>), Failure>
    requires |l| > 1
    decreases |l[0]|
  {
    if !NoneEmpty(l) then Err(ExhaustedDstName)
    else if SameHead(l) then StripLoop(prefix + [l[0][0]], Tails(l))
    else Ok((prefix, l))
  }

  /** The second while loop: characters go back from the prefix to the names
      until the prefix is empty or ends with '_'. */
  function Back(prefix: string, l: seq<string>): (string, seq<string>)
    decreases |prefix|
  {
    if prefix != "" && prefix[|prefix| - 1] != '_' then
      Back(prefix[..|prefix| - 1], Prepend(prefix[|prefix| - 1], l))
    else (prefix, l)
  }

  /** The header prefix and the column names, for the destinations in the
      order they are listed. */
  function DstPrefixOf(names: seq<string>): Result<(string, seq<string>), Failure>
  {
    if |names| > 1 then
      var (p, l) :- StripLoop("", names);
      Ok(Back(p, l))
    else Ok(Back("", names))
  }

  predicate EndsWithUnderscore(s: string)
  {
    s != "" && s[|s| - 1] == '_'
  }

  // ---------------------------------------------------------------------
  // The first loop

  lemma {:induction false} StripLoopSplit(prefix: string, l: seq<string>)
    requires |l| > 1 && StripLoop(prefix, l).Ok?
    ensures prefix <= StripLoop(prefix, l).value.0
    ensures |StripLoop(prefix, l).value.1| == |l|
    ensures forall i :: 0 <= i < |l| ==>
              StripLoop(prefix, l).value.0 + StripLoop(prefix, l).value.1[i] == prefix + l[i]
    decreases |l[0]|
  {
    if SameHead(l) {
      var t := Tails(l);
      StripLoopSplit(prefix + [l[0][0]], t);
      forall i | 0 <= i < |l| ensures prefix + [l[0][0]] + t[i] == prefix + l[i] {
        assert l[i] == [l[i][0]] + l[i][1..];
      }
    }
  }

  /** l[i] is a prefix of every name. */
  predicate PrefixOfAll(l: seq<string>, i: int)
    requires 0 <= i < |l|
  {
    forall j :: 0 <= j < |l| ==> l[i] <= l[j]
  }

  predicate SomePrefixOfAll(l: seq<string>)
  {
    exists i :: 0 <= i < |l| && PrefixOfAll(l, i)
  }

  /** Stripping fails exactly when one name is a prefix of every name. */
  lemma {:induction false} StripLoopErr(prefix: string, l: seq<string>)
    requires |l| > 1
    ensures StripLoop(prefix, l).Err? <==> SomePrefixOfAll(l)
    decreases |l[0]|
  {
    if !NoneEmpty(l) {
      var i :| 0 <= i < |l| && l[i] == "";
      assert PrefixOfAll(l, i);
    } else if SameHead(l) {
      StripLoopErr(prefix + [l[0][0]], Tails(l));
      TailsPrefixOfAll(l);
    } else {
      var k :| 0 <= k < |l| && l[k][0] != l[0][0];
      if i :| 0 <= i < |l| && PrefixOfAll(l, i) {
        assert l[i] <= l[0] && l[i] <= l[k];
      }
    }
  }

  /** Dropping a shared first character keeps which names are prefixes of all. */
  lemma TailsPrefixOfAll(l: seq<string>)
    requires NoneEmpty(l) && SameHead(l)
    ensures SomePrefixOfAll(l) <==> SomePrefixOfAll(Tails(l))
  {
    var t := Tails(l);
    forall i, j | 0 <= i < |l| && 0 <= j < |l| ensures l[i] <= l[j] <==> t[i] <= t[j] {
      assert l[i] == [l[0][0]] + t[i] && l[j] == [l[0][0]] + t[j];
    }
    if SomePrefixOfAll(l) {
      var i :| 0 <= i < |l| && PrefixOfAll(l, i);
      assert PrefixOfAll(t, i);
    }
    if SomePrefixOfAll(t) {
      var i :| 0 <= i < |t| && PrefixOfAll(t, i);
      assert PrefixOfAll(l, i);
    }
  }

  /** What stripping leaves as prefix is the names' longest common prefix. */
  lemma {:induction false} StripLoopMaximal(prefix: string, l: seq<string>, q: string)
    requires |l| > 1 && StripLoop(prefix, l).Ok?
    requires forall j :: 0 <= j < |l| ==> q <= prefix + l[j]
    ensures |q| <= |StripLoop(prefix, l).value.0|
    decreases |l[0]|
  {
    if SameHead(l) {
      var t := Tails(l);
      forall j | 0 <= j < |l| ensures prefix + l[j] == prefix + [l[0][0]] + t[j] {
        assert l[j] == [l[0][0]] + t[j];
      }
      StripLoopMaximal(prefix + [l[0][0]], t, q);
    } else if |q| > |prefix| {
      NextCharShared(prefix, l, q);
      assert false;
    }
  }

  /** A common prefix longer than the prefix taken fixes every name's first
      character. */
  lemma NextCharShared(prefix: string, l: seq<string>, q: string)
    requires NoneEmpty(l) && |q| > |prefix|
    requires forall j :: 0 <= j < |l| ==> q <= prefix + l[j]
    ensures SameHead(l)
  {
    forall j | 0 <= j < |l| ensures l[j][0] == q[|prefix|] {
      assert (prefix + l[j])[|prefix|] == l[j][0];
    }
  }

  // ---------------------------------------------------------------------
  // The second loop

  lemma {:induction false} BackSplit(prefix: string, l: seq<string>)
    ensures Back(prefix, l).0 <= prefix
    ensures Back(prefix, l).0 == "" || EndsWithUnderscore(Back(prefix, l).0)
    ensures |Back(prefix, l).1| == |l|
    ensures forall i :: 0 <= i < |l| ==> Back(prefix, l).0 + Back(prefix, l).1[i] == prefix + l[i]
    decreases |prefix|
  {
    if prefix != "" && prefix[|prefix| - 1] != '_' {
      var c := prefix[|prefix| - 1];
      var init := prefix[..|prefix| - 1];
      BackSplit(init, Prepend(c, l));
      forall i | 0 <= i < |l| ensures init + ([c] + l[i]) == prefix + l[i] {
        assert prefix == init + [c];
      }
    }
  }

  /** What backing off keeps is the longest part of the prefix that ends
      with '_'. */
  lemma {:induction false} BackMaximal(prefix: string, l: seq<string>, q: string)
    requires q <= prefix && EndsWithUnderscore(q)
    ensures |q| <= |Back(prefix, l).0|
    decreases |prefix|
  {
    if prefix != "" && prefix[|prefix| - 1] != '_' {
      assert q != prefix;
      assert q <= prefix[..|prefix| - 1];
      BackMaximal(prefix[..|prefix| - 1], Prepend(prefix[|prefix| - 1], l), q);
    }
  }

  // ---------------------------------------------------------------------
  // The header

  /** The printed prefix followed by a column name gives the destination
      name back, and the prefix is empty or ends with '_'. */
  lemma DstPrefixSplit(names: seq<string>)
    requires DstPrefixOf(names).Ok?
    ensures var (p, cols) := DstPrefixOf(names).value;
      (p == "" || EndsWithUnderscore(p)) &&
      |cols| == |names| && forall i :: 0 <= i < |names| ==> p + cols[i] == names[i]
  {
    if |names| > 1 {
      StripLoopSplit("", names);
      var (p, l) := StripLoop("", names).value;
      BackSplit(p, l);
    } else {
      BackSplit("", names);
    }
  }

  /** With fewer than two destinations there is no prefix. */
  lemma DstPrefixSingle(names: seq<string>)
    requires |names| <= 1
    ensures DstPrefixOf(names) == Ok(("", names))
  {
  }

  /** The header crashes exactly when, among two or more destinations, one
      name is a prefix of every name (for instance a short name that is the
      start of all the others). */
  lemma DstPrefixErr(names: seq<string>)
    ensures DstPrefixOf(names).Err? <==> |names| > 1 && SomePrefixOfAll(names)
  {
    if |names| > 1 {
      StripLoopErr("", names);
    }
  }

  /** No longer common prefix ending with '_' exists. */
  lemma DstPrefixMaximal(names: seq<string>, q: string)
    requires DstPrefixOf(names).Ok? && |names| > 1
    requires EndsWithUnderscore(q) && forall j :: 0 <= j < |names| ==> q <= names[j]
    ensures |q| <= |DstPrefixOf(names).value.0|
  {
    StripLoopSplit("", names);
    var (p, l) := StripLoop("", names).value;
    assert forall j :: 0 <= j < |names| ==> q <= "" + names[j] by {
      assert forall j :: 0 <= j < |names| ==> "" + names[j] == names[j];
    }
    StripLoopMaximal("", names, q);
    assert p + l[0] == names[0];
    assert q <= p;
    BackMaximal(p, l, q);
  }

  /** The printed prefix does not depend on the order the destinations are
      listed in. */
  lemma DstPrefixOrderFree(names: seq<string>, names': seq<string>)
    requires multiset(names) == multiset(names')
    requires DstPrefixOf(names).Ok? && DstPrefixOf(names').Ok?
    ensures DstPrefixOf(names).value.0 == DstPrefixOf(names').value.0
  {
    assert |names| == |multiset(names)| == |names'|;
    if |names| > 1 {
      var p, p' := DstPrefixOf(names).value.0, DstPrefixOf(names').value.0;
      DstPrefixSplit(names);
      DstPrefixSplit(names');
      forall j | 0 <= j < |names'| ensures p <= names'[j] {
        assert names'[j] in multiset(names);
        var i :| 0 <= i < |names| && names[i] == names'[j];
        assert p + DstPrefixOf(names).value.1[i] == names[i];
      }
      forall j | 0 <= j < |names| ensures p' <= names[j] {
        assert names[j] in multiset(names');
        var i :| 0 <= i < |names'| && names'[i] == names[j];
        assert p' + DstPrefixOf(names').value.1[i] == names'[i];
      }
      if EndsWithUnderscore(p) {
        DstPrefixMaximal(names', p);
      }
      if EndsWithUnderscore(p') {
        DstPrefixMaximal(names, p');
      }
      assert p <= names[0] && p' <= names[0];
    }
  }

  // ---------------------------------------------------------------------
  // The loops as written

  /** One pass of the first loop's condition: the set of first characters,
      raising IndexError on an empty name. */
  method FirstChars(l: seq<string>) returns (r: Option<set<char>>)
    ensures r.None? <==> !NoneEmpty(l)
    ensures r.Some? ==> forall c :: c in r.value <==> exists i :: 0 <= i < |l| && l[i][0] == c
  {
    var heads: set<char> := {};
    var k := 0;
    while k < |l|
      invariant 0 <= k <= |l|
      invariant forall j :: 0 <= j < k ==> l[j] != ""
      invariant forall c :: c in heads <==> exists j :: 0 <= j < k && l[j][0] == c
    {
      if l[k] == "" {
        return None;
      }
      heads := heads + {l[k][0]};
      k := k + 1;
    }
    r := Some(heads);
  }

  /** A set of first characters has one element exactly when all names
      share the first name's first character. */
  lemma OneHead(l: seq<string>, heads: set<char>)
    requires |l| > 0 && NoneEmpty(l)
    requires forall c :: c in heads <==> exists i :: 0 <= i < |l| && l[i][0] == c
    ensures |heads| == 1 <==> SameHead(l)
  {
    assert l[0][0] in heads;
    if SameHead(l) {
      assert heads == {l[0][0]};
    } else {
      var k :| 0 <= k < |l| && l[k][0] != l[0][0];
      assert {l[0][0], l[k][0]} <= heads;
      assert |{l[0][0], l[k][0]}| == 2;
      SubsetSize({l[0][0], l[k][0]}, heads);
    }
  }

  lemma SubsetSize(a: set<char>, b: set<char>)
    requires a <= b
    ensures |a| <= |b|
  {
    assert b == a + (b - a);
  }

  /** The inner for loop of the first while loop. */
  method DropFirst(l: seq<string>) returns (r: seq<string>)
    requires NoneEmpty(l)
    ensures r == Tails(l)
  {
    r := l;
    var i := 0;
    while i < |r|
      invariant |r| == |l| && 0 <= i <= |r|
      invariant forall j :: 0 <= j < i ==> r[j] == l[j][1..]
      invariant forall j :: i <= j < |r| ==> r[j] == l[j]
    {
      r := r[i := r[i][1..]];
      i := i + 1;
    }
  }

  /** The inner for loop of the second while loop. */
  method PutBack(c: char, l: seq<string>) returns (r: seq<string>)
    ensures r == Prepend(c, l)
  {
    r := l;
    var i := 0;
    while i < |r|
      invariant |r| == |l| && 0 <= i <= |r|
      invariant forall j :: 0 <= j < i ==> r[j] == [c] + l[j]
      invariant forall j :: i <= j < |r| ==> r[j] == l[j]
    {
      r := r[i := [c] + r[i]];
      i := i + 1;
    }
  }

  /** dst_net_prefix and dst_net_list, computed as the two while loops do. */
  method SplitDstPrefix(names: seq<string>) returns (r: Result<(string, seq<string>), Failure>)
    ensures r == DstPrefixOf(names)
  {
    var prefix := "";
    var list := names;
    if |list| > 1 {
      while true
        invariant |list| == |names|
        invariant StripLoop(prefix, list) == StripLoop("", names)
        decreases |list[0]|
      {
        var heads := FirstChars(list);
        if heads.None? {
          return Err(ExhaustedDstName);
        }
        OneHead(list, heads.value);
        if |heads.value| != 1 {
          break;
        }
        prefix := prefix + [list[0][0]];
        list := DropFirst(list);
      }
    }
    ghost var start := (prefix, list);
    assert Back(prefix, list) == DstPrefixOf(names).value;
    while prefix != "" && prefix[|prefix| - 1] != '_'
      invariant Back(prefix, list) == Back(start.0, start.1)
      decreases |prefix|
    {
      var c := prefix[|prefix| - 1];
      list := PutBack(c, list);
      prefix := prefix[..|prefix| - 1];
    }
    r := Ok((prefix, list));
  }
}
