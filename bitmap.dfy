/** The configuration bitmap of one tile: every cell of the tile's bit matrix
    gets a shade and a one-letter mark from the database records that name it. */
module Bitmap {
  import opened Wrappers
  import opened Rules
  import opened BitId
  import opened TileDb

  /** The cell background: #aaa, #faa, #afa and #aaf in the page. */
  datatype Shade = Unassigned | RoutingShade | BufferShade | FunctionShade

  /** One bitmap cell: its shade, its mark, and whether a routing or buffer
      record has named it (the "is_routing" key of the cell's dict). */
  datatype Cell = Cell(shade: Shade, mark: char, isRouting: bool)

  const Blank := Cell(Unassigned, '?', false)

  type Grid = seq<seq<Cell>>

  /** The if/elif chain that picks the mark of a function bit. */
  const FunctionRules: seq<(Pattern, char)> := [
    (Exact("ColBufCtrl"), 'O'),
    (Prefix("LC_"), 'L'),
    (Prefix("NegClk"), 'N'),
    (Prefix("CarryInSet"), 'C'),
    (Prefix("IOB_"), 'I'),
    (Prefix("IoCtrl"), 'T'),
    (Exact("Icegate"), 'G'),
    (Prefix("Cascade"), 'A'),
    (Prefix("RamConfig"), 'M'),
    (Prefix("RamCascade"), 'M'),
    (Prefix("PLL"), 'P')
  ]

  function FunctionMark(kind: string): Option<char>
  {
    FirstMatch(FunctionRules, kind)
  }

  /** A kind the bitmap can label; any other kind fails the final assert. */
  predicate KnownKind(kind: string)
  {
    IsRoutingKind(kind) || FunctionMark(kind).Some?
  }

  function KindShade(kind: string): Shade
  {
    if kind == "routing" then RoutingShade
    else if kind == "buffer" then BufferShade
    else FunctionShade
  }

  function KindMark(kind: string): char
    requires KnownKind(kind)
  {
    if kind == "routing" then 'R'
    else if kind == "buffer" then 'B'
    else FunctionMark(kind).value
  }

  /** The cell after one record of the given kind has named it. A function
      record leaves the routing flag as it was. */
  function Painted(cell: Cell, kind: string): (r: Result<Cell, Failure>)
    ensures r.Ok? <==> KnownKind(kind)
    ensures r.Ok? ==> r.value.shade == KindShade(kind) && r.value.mark == KindMark(kind)
    ensures r.Ok? ==> r.value.isRouting == (IsRoutingKind(kind) || cell.isRouting)
  {
    if kind == "routing" then Ok(Cell(RoutingShade, 'R', true))
    else if kind == "buffer" then Ok(Cell(BufferShade, 'B', true))
    else
      match FunctionMark(kind)
      case Some(m) => Ok(Cell(FunctionShade, m, cell.isRouting))
      case None => Err(UnknownFunction(kind))
  }

  /** How a bit id is resolved to a cell. The page uses Address; the lemmas
      below hold for any resolution, which keeps their proofs independent of
      the bit id grammar. */
  type Locator = string -> Option<(nat, nat)>

  /** Grid g has the shape the tile's row widths give. */
  predicate Fits(g: Grid, widths: seq<nat>)
  {
    |g| == |widths| && forall r :: 0 <= r < |g| ==> |g[r]| == widths[r]
  }

  predicate InShape(widths: seq<nat>, row: nat, col: nat)
  {
    row < |widths| && col < widths[row]
  }

  /** A bit id that resolves to a cell of the tile. */
  predicate BitFits(loc: Locator, widths: seq<nat>, bit: string)
  {
    loc(bit).Some? && InShape(widths, loc(bit).value.0, loc(bit).value.1)
  }

  /** One bit of a record: resolve it (a bad bit id has no match object),
      index the matrix (IndexError outside it), and paint the cell. */
  function PaintBit(loc: Locator, g: Grid, bit: string, kind: string): Result<Grid, Failure>
  {
    match loc(bit)
    case None => Err(BadBitId(bit))
    case Some((row, col)) =>
      if row < |g| && col < |g[row]| then
        var cell :- Painted(g[row][col], kind);
        Ok(g[row := g[row][col := cell]])
      else Err(BitOutOfRange(row, col))
  }

  /** The bits of one record, painted in order. */
  function PaintBits(loc: Locator, g: Grid, bits: seq<string>, kind: string): Result<Grid, Failure>
  {
    if bits == [] then Ok(g)
    else
      var prev :- PaintBits(loc, g, bits[..|bits| - 1], kind);
      PaintBit(loc, prev, bits[|bits| - 1], kind)
  }

  /** The records, painted in database order. */
  function PaintEntries(loc: Locator, g: Grid, es: seq<Entry>): Result<Grid, Failure>
  {
    if es == [] then Ok(g)
    else
      var prev :- PaintEntries(loc, g, es[..|es| - 1]);
      PaintBits(loc, prev, es[|es| - 1].bits, es[|es| - 1].kind)
  }

  /** The "?" matrix on the grey background, one row per bit group. */
  function InitialGrid(widths: seq<nat>): (g: Grid)
    ensures Fits(g, widths)
    ensures forall r, c :: 0 <= r < |g| && 0 <= c < |g[r]| ==> g[r][c] == Blank
  {
    seq(|widths|, r requires 0 <= r < |widths| => seq(widths[r], c => Blank))
  }

  /** The bitmap of a tile whose applicable records are es. */
  function BitmapOf(widths: seq<nat>, es: seq<Entry>): Result<Grid, Failure>
  {
    PaintEntries(Address, InitialGrid(widths), es)
  }

  /** Record e names the cell (row, col) with one of its bit ids. */
  predicate Touches(loc: Locator, e: Entry, row: nat, col: nat)
  {
    TouchesBits(loc, e.bits, row, col)
  }

  predicate TouchesBits(loc: Locator, bits: seq<string>, row: nat, col: nat)
  {
    exists b :: 0 <= b < |bits| && loc(bits[b]) == Some((row, col))
  }

  /** The last record naming (row, col), or -1 when none does. */
  function LastTouch(loc: Locator, es: seq<Entry>, row: nat, col: nat): (k: int)
    ensures -1 <= k < |es|
    ensures k >= 0 ==> Touches(loc, es[k], row, col)
    ensures forall j :: k < j < |es| ==> !Touches(loc, es[j], row, col)
  {
    if es == [] then -1
    else if Touches(loc, es[|es| - 1], row, col) then |es| - 1
    else LastTouch(loc, es[..|es| - 1], row, col)
  }

  predicate RoutingTouched(loc: Locator, es: seq<Entry>, row: nat, col: nat)
  {
    exists k :: 0 <= k < |es| && Touches(loc, es[k], row, col) && IsRoutingKind(es[k].kind)
  }

  // ---------------------------------------------------------------------
  // What painting one record does

  /** Painting a cell twice with one kind is painting it once. */
  lemma PaintedTwice(cell: Cell, kind: string)
    requires KnownKind(kind)
    ensures Painted(Painted(cell, kind).value, kind) == Painted(cell, kind)
  {
  }

  lemma PaintBitOk(loc: Locator, g: Grid, bit: string, kind: string, widths: seq<nat>)
    requires Fits(g, widths)
    ensures PaintBit(loc, g, bit, kind).Ok? <==> BitFits(loc, widths, bit) && KnownKind(kind)
    ensures PaintBit(loc, g, bit, kind).Ok? ==> Fits(PaintBit(loc, g, bit, kind).value, widths)
  {
    if loc(bit).Some? {
      var (row, col) := loc(bit).value;
      if row < |g| && col < |g[row]| && KnownKind(kind) {
        var h := PaintBit(loc, g, bit, kind).value;
        assert h == g[row := g[row][col := Painted(g[row][col], kind).value]];
        assert forall r :: 0 <= r < |h| ==> |h[r]| == |g[r]|;
      }
    }
  }

  lemma PaintBitCell(loc: Locator, g: Grid, bit: string, kind: string, r: nat, c: nat)
    requires PaintBit(loc, g, bit, kind).Ok?
    requires r < |g| && c < |g[r]|
    ensures var h := PaintBit(loc, g, bit, kind).value;
            r < |h| && c < |h[r]| &&
            h[r][c] == if loc(bit) == Some((r, c)) then Painted(g[r][c], kind).value else g[r][c]
  {
  }

  /** A record's bits paint without failure exactly when each of them fits
      the tile and the kind is one the bitmap can label; the shape stays. */
  lemma {:induction false} PaintBitsOk(loc: Locator, g: Grid, bits: seq<string>, kind: string, widths: seq<nat>)
    requires Fits(g, widths)
    ensures PaintBits(loc, g, bits, kind).Ok? <==>
              forall b :: 0 <= b < |bits| ==> BitFits(loc, widths, bits[b]) && KnownKind(kind)
    ensures PaintBits(loc, g, bits, kind).Ok? ==> Fits(PaintBits(loc, g, bits, kind).value, widths)
  {
    if bits != [] {
      var init := bits[..|bits| - 1];
      PaintBitsOk(loc, g, init, kind, widths);
      assert forall b :: 0 <= b < |init| ==> init[b] == bits[b];
      if PaintBits(loc, g, init, kind).Ok? {
        PaintBitOk(loc, PaintBits(loc, g, init, kind).value, bits[|bits| - 1], kind, widths);
      }
    }
  }

  lemma TouchesBitsSnoc(loc: Locator, bits: seq<string>, r: nat, c: nat)
    requires bits != []
    ensures TouchesBits(loc, bits, r, c) <==>
              TouchesBits(loc, bits[..|bits| - 1], r, c) || loc(bits[|bits| - 1]) == Some((r, c))
  {
    var init := bits[..|bits| - 1];
    if TouchesBits(loc, bits, r, c) && loc(bits[|bits| - 1]) != Some((r, c)) {
      var b :| 0 <= b < |bits| && loc(bits[b]) == Some((r, c));
      assert loc(init[b]) == Some((r, c));
    }
    if TouchesBits(loc, init, r, c) {
      var b :| 0 <= b < |init| && loc(init[b]) == Some((r, c));
      assert loc(bits[b]) == Some((r, c));
    }
  }

  /** After one record: a cell it names is painted with its kind, any other
      cell is as it was. */
  lemma {:induction false} PaintBitsCell(loc: Locator, g: Grid, bits: seq<string>, kind: string,
                                         widths: seq<nat>, r: nat, c: nat)
    requires Fits(g, widths) && InShape(widths, r, c)
    requires PaintBits(loc, g, bits, kind).Ok?
    ensures KnownKind(kind) || bits == []
    ensures Fits(PaintBits(loc, g, bits, kind).value, widths)
    ensures PaintBits(loc, g, bits, kind).value[r][c] ==
              if TouchesBits(loc, bits, r, c) then Painted(g[r][c], kind).value else g[r][c]
  {
    PaintBitsOk(loc, g, bits, kind, widths);
    if bits != [] {
      var init, last := bits[..|bits| - 1], bits[|bits| - 1];
      assert PaintBits(loc, g, init, kind).Ok?;
      PaintBitsCell(loc, g, init, kind, widths, r, c);
      var prev := PaintBits(loc, g, init, kind).value;
      PaintBitCell(loc, prev, last, kind, r, c);
      TouchesBitsSnoc(loc, bits, r, c);
      if loc(last) == Some((r, c)) && TouchesBits(loc, init, r, c) {
        PaintedTwice(g[r][c], kind);
      }
    }
  }

  // ---------------------------------------------------------------------
  // All records

  /** Every bit of the record names a cell of the tile, and the record's
      kind is one the bitmap can label unless it has no bits. */
  predicate EntryFits(loc: Locator, widths: seq<nat>, e: Entry)
  {
    forall b :: 0 <= b < |e.bits| ==> BitFits(loc, widths, e.bits[b]) && KnownKind(e.kind)
  }

  /** Every record fits. */
  predicate AllFit(loc: Locator, widths: seq<nat>, es: seq<Entry>)
  {
    forall k :: 0 <= k < |es| ==> EntryFits(loc, widths, es[k])
  }

  lemma AllFitSnoc(loc: Locator, widths: seq<nat>, es: seq<Entry>)
    requires es != []
    ensures AllFit(loc, widths, es) <==>
              AllFit(loc, widths, es[..|es| - 1]) && EntryFits(loc, widths, es[|es| - 1])
  {
    assert forall k :: 0 <= k < |es| - 1 ==> es[..|es| - 1][k] == es[k];
  }

  lemma {:induction false} PaintEntriesOk(loc: Locator, g: Grid, widths: seq<nat>, es: seq<Entry>)
    requires Fits(g, widths)
    ensures PaintEntries(loc, g, es).Ok? ==> Fits(PaintEntries(loc, g, es).value, widths)
    ensures PaintEntries(loc, g, es).Ok? <==> AllFit(loc, widths, es)
  {
    if es != [] {
      var init, last := es[..|es| - 1], es[|es| - 1];
      PaintEntriesOk(loc, g, widths, init);
      AllFitSnoc(loc, widths, es);
      if PaintEntries(loc, g, init).Ok? {
        var prev := PaintEntries(loc, g, init).value;
        PaintBitsOk(loc, prev, last.bits, last.kind, widths);
        assert PaintEntries(loc, g, es) == PaintBits(loc, prev, last.bits, last.kind);
      }
    }
  }

  lemma TouchedSnoc(loc: Locator, es: seq<Entry>, row: nat, col: nat)
    requires es != []
    ensures LastTouch(loc, es, row, col) ==
              if Touches(loc, es[|es| - 1], row, col) then |es| - 1 else LastTouch(loc, es[..|es| - 1], row, col)
    ensures RoutingTouched(loc, es, row, col) <==>
              RoutingTouched(loc, es[..|es| - 1], row, col) ||
              (Touches(loc, es[|es| - 1], row, col) && IsRoutingKind(es[|es| - 1].kind))
  {
    var init := es[..|es| - 1];
    if RoutingTouched(loc, init, row, col) {
      var k :| 0 <= k < |init| && Touches(loc, init[k], row, col) && IsRoutingKind(init[k].kind);
      assert es[k] == init[k];
    }
    if RoutingTouched(loc, es, row, col) {
      var k :| 0 <= k < |es| && Touches(loc, es[k], row, col) && IsRoutingKind(es[k].kind);
      if k < |init| {
        assert es[k] == init[k];
      }
    }
  }

  lemma {:induction false} PaintEntriesCell(loc: Locator, g: Grid, widths: seq<nat>, es: seq<Entry>, row: nat, col: nat)
    requires Fits(g, widths) && InShape(widths, row, col)
    requires forall r, c :: 0 <= r < |g| && 0 <= c < |g[r]| ==> g[r][c] == Blank
    requires PaintEntries(loc, g, es).Ok?
    ensures Fits(PaintEntries(loc, g, es).value, widths)
    ensures var cell := PaintEntries(loc, g, es).value[row][col];
            var k := LastTouch(loc, es, row, col);
            if k < 0 then cell == Blank
            else KnownKind(es[k].kind) &&
                 cell == Cell(KindShade(es[k].kind), KindMark(es[k].kind), RoutingTouched(loc, es, row, col))
  {
    PaintEntriesOk(loc, g, widths, es);
    if es != [] {
      var init, last := es[..|es| - 1], es[|es| - 1];
      assert PaintEntries(loc, g, init).Ok?;
      PaintEntriesCell(loc, g, widths, init, row, col);
      PaintEntriesOk(loc, g, widths, init);
      var prev := PaintEntries(loc, g, init).value;
      PaintBitsCell(loc, prev, last.bits, last.kind, widths, row, col);
      TouchedSnoc(loc, es, row, col);
      var k := LastTouch(loc, init, row, col);
      assert k >= 0 ==> init[k] == es[k];
    }
  }

  /** Painting succeeds exactly when every bit id of every applicable record
      parses, lies inside the tile, and belongs to a record of a kind the
      bitmap can label. A record without bits never fails, whatever its kind. */
  lemma BitmapOkIff(widths: seq<nat>, es: seq<Entry>)
    ensures BitmapOf(widths, es).Ok? ==> Fits(BitmapOf(widths, es).value, widths)
    ensures BitmapOf(widths, es).Ok? <==> AllFit(Address, widths, es)
  {
    PaintEntriesOk(Address, InitialGrid(widths), widths, es);
  }

  /** Last writer wins. A cell nobody names stays blank; otherwise its shade
      and mark are those of the last record naming it, and its routing flag
      is set exactly when some routing or buffer record named it, so a later
      function record never clears it. */
  lemma CellIsLastWriter(widths: seq<nat>, es: seq<Entry>, row: nat, col: nat)
    requires BitmapOf(widths, es).Ok?
    requires InShape(widths, row, col)
    ensures Fits(BitmapOf(widths, es).value, widths)
    ensures var cell := BitmapOf(widths, es).value[row][col];
            var k := LastTouch(Address, es, row, col);
            if k < 0 then cell == Blank
            else KnownKind(es[k].kind) &&
                 cell == Cell(KindShade(es[k].kind), KindMark(es[k].kind), RoutingTouched(Address, es, row, col))
  {
    PaintEntriesCell(Address, InitialGrid(widths), widths, es, row, col);
  }

  // ---------------------------------------------------------------------
  // The loop of the page generator

  /** A failure stops the painting: what follows a failed prefix is not run. */
  lemma {:induction false} PaintBitsErrPrefix(loc: Locator, g: Grid, bits: seq<string>, kind: string, n: nat)
    requires n <= |bits| && PaintBits(loc, g, bits[..n], kind).Err?
    ensures PaintBits(loc, g, bits, kind) == PaintBits(loc, g, bits[..n], kind)
  {
    if n < |bits| {
      var init := bits[..|bits| - 1];
      assert init[..n] == bits[..n];
      PaintBitsErrPrefix(loc, g, init, kind, n);
    } else {
      assert bits[..n] == bits;
    }
  }

  lemma {:induction false} PaintEntriesErrPrefix(loc: Locator, g: Grid, es: seq<Entry>, n: nat)
    requires n <= |es| && PaintEntries(loc, g, es[..n]).Err?
    ensures PaintEntries(loc, g, es) == PaintEntries(loc, g, es[..n])
  {
    if n < |es| {
      var init := es[..|es| - 1];
      assert init[..n] == es[..n];
      PaintEntriesErrPrefix(loc, g, init, n);
    } else {
      assert es[..n] == es;
    }
  }

  /** The "?" matrix, one row of cells per bit group. */
  method NewGrid(widths: seq<nat>) returns (g: Grid)
    ensures g == InitialGrid(widths)
  {
    g := [];
    var line := 0;
    while line < |widths|
      invariant 0 <= line <= |widths| && |g| == line
      invariant forall k :: 0 <= k < line ==> g[k] == seq(widths[k], c => Blank)
    {
      var cells: seq<Cell> := [];
      while |cells| < widths[line]
        invariant |cells| <= widths[line]
        invariant cells == seq(|cells|, c => Blank)
      {
        cells := cells + [Blank];
      }
      g := g + [cells];
      line := line + 1;
    }
  }

  /** The inner loop: each bit of one record, stopping at the first failure. */
  method PaintRecord(loc: Locator, g0: Grid, bits: seq<string>, kind: string) returns (r: Result<Grid, Failure>)
    ensures r == PaintBits(loc, g0, bits, kind)
  {
    var g := g0;
    var j := 0;
    while j < |bits|
      invariant 0 <= j <= |bits|
      invariant PaintBits(loc, g0, bits[..j], kind) == Ok(g)
    {
      assert bits[..j + 1][..j] == bits[..j];
      var bit := bits[j];
      var at := loc(bit);
      if at.None? {
        r := Err(BadBitId(bit));
        PaintBitsErrPrefix(loc, g0, bits, kind, j + 1);
        return;
      }
      var (row, col) := at.value;
      if !(row < |g| && col < |g[row]|) {
        r := Err(BitOutOfRange(row, col));
        PaintBitsErrPrefix(loc, g0, bits, kind, j + 1);
        return;
      }
      var cell := Painted(g[row][col], kind);
      if cell.Err? {
        r := Err(cell.error);
        PaintBitsErrPrefix(loc, g0, bits, kind, j + 1);
        return;
      }
      g := g[row := g[row][col := cell.value]];
      j := j + 1;
    }
    assert bits[..j] == bits;
    r := Ok(g);
  }

  /** The page generator's loop over the tile's records: the "?" matrix,
      then each applicable record painted in order, stopping at the first
      failure. */
  method BuildBitmap(widths: seq<nat>, db: seq<Entry>, applies: Entry -> bool)
    returns (r: Result<Grid, Failure>)
    ensures r == BitmapOf(widths, Applicable(db, applies))
  {
    var g := NewGrid(widths);
    ghost var g0 := g;
    ghost var done: seq<Entry> := [];
    var i := 0;
    while i < |db|
      invariant 0 <= i <= |db|
      invariant done == Applicable(db[..i], applies)
      invariant PaintEntries(Address, g0, done) == Ok(g)
    {
      var e := db[i];
      assert db[..i + 1][..i] == db[..i];
      if applies(e) {
        assert (done + [e])[..|done|] == done;
        var painted := PaintRecord(Address, g, e.bits, e.kind);
        if painted.Err? {
          r := Err(painted.error);
          ApplicableSplit(db, i + 1, applies);
          PaintEntriesErrPrefix(Address, g0, Applicable(db, applies), |done| + 1);
          return;
        }
        g := painted.value;
        done := done + [e];
      }
      i := i + 1;
    }
    assert db[..i] == db;
    r := Ok(g);
  }
}
