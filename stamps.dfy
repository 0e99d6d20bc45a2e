/** The configuration stamps of one routing bucket: one row per record with a
    1 or 0 cell per bit of the bucket's key, the rows emitted in sorted order. */
module Stamps {
  import opened Text
  import opened Ordering
  import opened TileDb
  import opened Routing

  const CellOpen := "<td align=\"center\">"
  const CellClose := "</td>"

  /** One bit cell: 1 when the bit is set by the record, 0 otherwise. */
  function Cell(on: bool): (r: string)
    ensures |r| == 25
  {
    CellOpen + (if on then "1" else "0") + CellClose
  }

  /** The bit cells of a row. The test is membership of the key's bit in the
      record's bit tuple as written, so a bit the record holds as !bit gets 0. */
  function Cells(bits: seq<string>, e: Entry): (r: string)
    ensures |r| == 25 * |bits|
  {
    if bits == [] then ""
    else Cells(bits[..|bits| - 1], e) + Cell(bits[|bits| - 1] in e.bits)
  }

  /** Function, source and destination cells closing a row. */
  function RowTail(e: Entry): string
    requires HasEnds(e)
  {
    CellOpen + e.kind + "</td><td><tt>" + e.nets[0] + "</tt></td><td><tt>" + e.nets[1] + "</tt></td></tr>"
  }

  function Row(bits: seq<string>, e: Entry): string
    requires HasEnds(e)
  {
    "<tr>" + Cells(bits, e) + RowTail(e)
  }

  /** The bit columns: cfggrp.split(",")[1:]. */
  function StampBits(key: string): seq<string>
  {
    SplitOn(key, ',')[1..]
  }

  /** group_lines before sorting: the records' rows in bucket order. */
  function Rows(bits: seq<string>, grp: seq<Entry>): (r: seq<string>)
    requires AllHaveEnds(grp)
    ensures |r| == |grp| && forall i :: 0 <= i < |grp| ==> r[i] == Row(bits, grp[i])
  {
    seq(|grp|, i requires 0 <= i < |grp| => Row(bits, grp[i]))
  }

  /** The printed rows: the same rows, in ascending order. */
  function StampLines(key: string, grp: seq<Entry>): (r: seq<string>)
    requires AllHaveEnds(grp)
    ensures Sorted(r) && multiset(r) == multiset(Rows(StampBits(key), grp))
  {
    Sort(Rows(StampBits(key), grp))
  }

  lemma CellsSnoc(bits: seq<string>, b: string, e: Entry)
    ensures Cells(bits + [b], e) == Cells(bits, e) + Cell(b in e.bits)
  {
    assert (bits + [b])[..|bits|] == bits;
  }

  lemma {:induction false} CellsAppend(xs: seq<string>, ys: seq<string>, e: Entry)
    ensures Cells(xs + ys, e) == Cells(xs, e) + Cells(ys, e)
  {
    if ys == [] {
      assert xs + ys == xs;
    } else {
      var init, y := ys[..|ys| - 1], ys[|ys| - 1];
      assert ys == init + [y];
      assert xs + ys == (xs + init) + [y];
      CellsAppend(xs, init, e);
      CellsSnoc(xs + init, y, e);
      CellsSnoc(init, y, e);
    }
  }

  lemma CellsSplit(bits: seq<string>, e: Entry, n: nat)
    requires n <= |bits|
    ensures Cells(bits, e) == Cells(bits[..n], e) + Cells(bits[n..], e)
  {
    assert bits == bits[..n] + bits[n..];
    CellsAppend(bits[..n], bits[n..], e);
  }

  lemma MiddleSlice(a: string, b: string, c: string)
    ensures (a + b + c)[|a| .. |a| + |b|] == b
  {
  }

  /** The cells of a row around the k-th bit's. */
  lemma CellsAround(bits: seq<string>, e: Entry, k: nat)
    requires k < |bits|
    ensures Cells(bits, e) == Cells(bits[..k], e) + Cell(bits[k] in e.bits) + Cells(bits[k + 1..], e)
  {
    CellsSplit(bits, e, k);
    CellsSplit(bits[k..], e, 1);
    assert bits[k..][..1] == [bits[k]];
    assert bits[k..][1..] == bits[k + 1..];
    assert Cells([bits[k]], e) == Cell(bits[k] in e.bits) by {
      assert [bits[k]][..0] == [];
    }
  }

  /** A row split around the k-th bit's cell. */
  lemma RowAround(bits: seq<string>, e: Entry, k: nat)
    requires HasEnds(e) && k < |bits|
    ensures Row(bits, e) ==
            ("<tr>" + Cells(bits[..k], e)) + (Cell(bits[k] in e.bits) + (Cells(bits[k + 1..], e) + RowTail(e)))
  {
    CellsAround(bits, e, k);
  }

  /** The k-th bit's cell of a row sits 4 + 25k characters in. */
  lemma StampCell(bits: seq<string>, e: Entry, k: nat)
    requires HasEnds(e) && k < |bits|
    ensures Row(bits, e)[4 + 25 * k .. 4 + 25 * k + 25] == Cell(bits[k] in e.bits)
    ensures Row(bits, e)[4 + 25 * k + 19] == if bits[k] in e.bits then '1' else '0'
  {
    var c := Cell(bits[k] in e.bits);
    var a := "<tr>" + Cells(bits[..k], e);
    var rest := Cells(bits[k + 1..], e) + RowTail(e);
    RowAround(bits, e, k);
    assert a + (c + rest) == a + c + rest;
    MiddleSlice(a, c, rest);
    assert c[19] == if bits[k] in e.bits then '1' else '0';
  }

  /** The two records set the same bits among the first k. */
  predicate AgreeBefore(bits: seq<string>, e: Entry, f: Entry, k: nat)
    requires k <= |bits|
  {
    forall j :: 0 <= j < k ==> (bits[j] in e.bits <==> bits[j] in f.bits)
  }

  /** Records that agree on all the bits have the same cells. */
  lemma {:induction false} CellsAgree(bits: seq<string>, e: Entry, f: Entry)
    requires AgreeBefore(bits, e, f, |bits|)
    ensures Cells(bits, e) == Cells(bits, f)
  {
    if bits != [] {
      CellsAgree(bits[..|bits| - 1], e, f);
    }
  }

  /** Rows sort by their bit pattern read left to right: where two records
      first differ, the one without the bit comes first. */
  lemma StampOrder(bits: seq<string>, e: Entry, f: Entry, k: nat)
    requires HasEnds(e) && HasEnds(f) && k < |bits|
    requires AgreeBefore(bits, e, f, k)
    requires bits[k] !in e.bits && bits[k] in f.bits
    ensures LexLe(Row(bits, e), Row(bits, f)) && Row(bits, e) != Row(bits, f)
  {
    var w := "<tr>" + Cells(bits[..k], e);
    var x := Cells(bits[k + 1..], e) + RowTail(e);
    var y := Cells(bits[k + 1..], f) + RowTail(f);
    var zero, one := Cell(false), Cell(true);
    RowAround(bits, e, k);
    RowAround(bits, f, k);
    assert Cells(bits[..k], f) == Cells(bits[..k], e) by {
      assert AgreeBefore(bits[..k], e, f, k);
      CellsAgree(bits[..k], e, f);
    }
    CellOrder();
    LexLeDecidedEarly(zero, one, x, y);
    LexLeStrictCommonPrefix(w, zero + x, one + y);
  }

  /** A record's row in its own bucket: every column is one of the record's
      bits with its '!' removed, and the cell is 1 exactly when the record
      holds that bit un-negated, so a bit it requires clear shows 0. */
  lemma OwnRow(e: Entry, k: nat)
    requires HasEnds(e) && e.bits != [] && ',' !in e.kind && ',' !in e.nets[1]
    requires forall i :: 0 <= i < |e.bits| ==> ',' !in e.bits[i]
    requires k < |StampBits(ConfigKey(e.kind, e.nets[1], e.bits))|
    ensures var bits := StampBits(ConfigKey(e.kind, e.nets[1], e.bits));
            (exists i :: 0 <= i < |e.bits| && bits[k] == StripBang(e.bits[i])) &&
            Row(bits, e)[4 + 25 * k + 19] == if bits[k] in e.bits then '1' else '0'
  {
    var bits := StampBits(ConfigKey(e.kind, e.nets[1], e.bits));
    KeyBits(e.kind, e.nets[1], e.bits);
    var stripped := StrippedBits(e.bits);
    assert bits[k] in multiset(stripped);
    var i :| 0 <= i < |stripped| && stripped[i] == bits[k];
    StampCell(bits, e, k);
  }

  /** A 0 cell sorts before a 1 cell. */
  lemma CellOrder()
    ensures LexLe(Cell(false), Cell(true)) && Cell(false) != Cell(true)
  {
    LexLeCommonPrefix(CellOpen, "0" + CellClose, "1" + CellClose);
    assert Cell(false) == CellOpen + ("0" + CellClose);
    assert Cell(true) == CellOpen + ("1" + CellClose);
    assert Cell(false)[19] != Cell(true)[19];
  }

  /** One record's line: '<tr>', a cell per bit, then the record's cells. */
  method StampRow(bits: seq<string>, e: Entry) returns (line: string)
    requires HasEnds(e)
    ensures line == Row(bits, e)
  {
    var cells := "";
    var j := 0;
    while j < |bits|
      invariant 0 <= j <= |bits|
      invariant cells == Cells(bits[..j], e)
    {
      assert bits[..j + 1][..j] == bits[..j];
      cells := cells + Cell(bits[j] in e.bits);
      j := j + 1;
    }
    assert bits[..j] == bits;
    line := "<tr>" + cells + RowTail(e);
  }

  /** The loop over a bucket's records, then sorted(group_lines). */
  method StampTable(key: string, grp: seq<Entry>) returns (lines: seq<string>)
    requires AllHaveEnds(grp)
    ensures lines == StampLines(key, grp)
  {
    var bits := SplitOn(key, ',')[1..];
    var groupLines: seq<string> := [];
    var i := 0;
    while i < |grp|
      invariant 0 <= i <= |grp|
      invariant |groupLines| == i && forall k :: 0 <= k < i ==> groupLines[k] == Row(bits, grp[k])
    {
      var line := StampRow(bits, grp[i]);
      groupLines := groupLines + [line];
      i := i + 1;
    }
    assert groupLines == Rows(bits, grp);
    lines := Sort(groupLines);
  }
}
