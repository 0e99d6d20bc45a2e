/** Bit identifiers. A configuration bit is named B<row>[<col>]; in a database
    record it may carry '!' markers for inverted sense, which are removed
    before the name is parsed with the pattern B(\d+)\[(\d+)\]$. */
module BitId {
  import opened Wrappers
  import opened Text

  /** The end of the maximal run of digits that starts at index i. */
  function DigitRunEnd(s: string, i: nat): (j: nat)
    requires i <= |s|
    ensures i <= j <= |s| && AllDigits(s[i..j])
    ensures j == |s| || !IsDigit(s[j])
    decreases |s| - i
  {
    if i < |s| && IsDigit(s[i]) then
      var j := DigitRunEnd(s, i + 1);
      assert s[i..j] == [s[i]] + s[i + 1..j];
      j
    else i
  }

  /** The end of a run of digits is where the first non-digit is. */
  lemma DigitRunEndAt(s: string, i: nat, j: nat)
    requires i <= j <= |s| && AllDigits(s[i..j]) && (j == |s| || !IsDigit(s[j]))
    ensures DigitRunEnd(s, i) == j
    decreases j - i
  {
    if i < j {
      assert IsDigit(s[i]) by { assert s[i] == s[i..j][0]; }
      assert s[i + 1..j] == s[i..j][1..];
      DigitRunEndAt(s, i + 1, j);
    }
  }

  /** re.match(r"B(\d+)\[(\d+)\]$", s): the row and column of a bit id. Python's
      '$' also matches just before a final newline. */
  function ParseBitId(s: string): Option<(nat, nat)>
  {
    if |s| == 0 || s[0] != 'B' then None
    else
      var i := DigitRunEnd(s, 1);
      if i == 1 || i == |s| || s[i] != '[' then None
      else
        var j := DigitRunEnd(s, i + 1);
        if j == i + 1 || j == |s| || s[j] != ']' then None
        else if j + 1 == |s| || (j + 2 == |s| && s[j + 1] == '\n') then
          Some((ParseNat(s[1..i]), ParseNat(s[i + 1..j])))
        else None
  }

  /** s is B, digits s[1..i], '[', digits s[i+1..j], ']', and at most a newline. */
  predicate BitIdShape(s: string, i: nat, j: nat)
  {
    1 < i && i + 1 < j < |s| &&
    s[0] == 'B' && AllDigits(s[1..i]) && s[i] == '[' &&
    AllDigits(s[i + 1..j]) && s[j] == ']' &&
    (j + 1 == |s| || (j + 2 == |s| && s[j + 1] == '\n'))
  }

  /** A bit id parses exactly when it has the shape, and then it addresses the
      row and the column its two digit runs spell. */
  lemma ParseBitIdSpec(s: string)
    ensures ParseBitId(s).Some? <==> exists i: nat, j: nat :: BitIdShape(s, i, j)
    ensures forall i: nat, j: nat :: BitIdShape(s, i, j) ==>
              ParseBitId(s) == Some((ParseNat(s[1..i]), ParseNat(s[i + 1..j])))
  {
    forall i: nat, j: nat | BitIdShape(s, i, j)
      ensures ParseBitId(s) == Some((ParseNat(s[1..i]), ParseNat(s[i + 1..j])))
    {
      DigitRunEndAt(s, 1, i);
      DigitRunEndAt(s, i + 1, j);
    }
    if ParseBitId(s).Some? {
      var i := DigitRunEnd(s, 1);
      var j := DigitRunEnd(s, i + 1);
      assert BitIdShape(s, i, j);
    }
  }

  /** The cell a bit id of a database record addresses: '!' markers removed first. */
  function Address(bit: string): Option<(nat, nat)>
  {
    ParseBitId(StripBang(bit))
  }

  /** B, a digit run, [, a digit run, ]: the runs give the row and the column. */
  lemma ParseComposed(d1: string, d2: string)
    requires |d1| > 0 && |d2| > 0 && AllDigits(d1) && AllDigits(d2)
    ensures ParseBitId("B" + d1 + "[" + d2 + "]") == Some((ParseNat(d1), ParseNat(d2)))
  {
    var s := "B" + d1 + "[" + d2 + "]";
    var i, j := 1 + |d1|, 2 + |d1| + |d2|;
    assert s[1..i] == d1 && s[i + 1..j] == d2;
    assert BitIdShape(s, i, j);
    ParseBitIdSpec(s);
  }

  lemma NoBangInBitId(d1: string, d2: string)
    requires AllDigits(d1) && AllDigits(d2)
    ensures '!' !in "B" + d1 + "[" + d2 + "]"
  {
    var s := "B" + d1 + "[" + d2 + "]";
    forall k | 0 <= k < |s| ensures s[k] != '!' {
      if 1 <= k < 1 + |d1| {
        assert s[k] == d1[k - 1];
      } else if 2 + |d1| <= k < 2 + |d1| + |d2| {
        assert s[k] == d2[k - 2 - |d1|];
      }
    }
  }

  /** The canonical spelling of the bit at (row, col). */
  function BitIdString(row: nat, col: nat): string
  {
    "B" + NatToString(row) + "[" + NatToString(col) + "]"
  }

  lemma ParseBitIdString(row: nat, col: nat)
    ensures ParseBitId(BitIdString(row, col)) == Some((row, col))
  {
    ParseComposed(NatToString(row), NatToString(col));
    ParseNatToString(row);
    ParseNatToString(col);
  }

  /** A negated bit id addresses the same cell as the plain one. */
  lemma NegatedAddressesSameCell(row: nat, col: nat)
    ensures Address("!" + BitIdString(row, col)) == Address(BitIdString(row, col)) == Some((row, col))
  {
    var s := BitIdString(row, col);
    NoBangInBitId(NatToString(row), NatToString(col));
    StripBangNoop(s);
    assert ("!" + s)[1..] == s;
    assert StripBang("!" + s) == StripBang(s);
    ParseBitIdString(row, col);
  }

  /** Leading zeros are read away by int(), so two spellings name one cell. */
  lemma {:induction false} LeadingZeroSameCell(row: nat, col: nat)
    ensures Address("B0" + NatToString(row) + "[" + NatToString(col) + "]") == Address(BitIdString(row, col))
  {
    var d := "0" + NatToString(row);
    assert "B0" + NatToString(row) == "B" + d;
    assert AllDigits(d);
    ParseNatLeadingZero(NatToString(row));
    NoBangInBitId(d, NatToString(col));
    NoBangInBitId(NatToString(row), NatToString(col));
    StripBangNoop("B" + d + "[" + NatToString(col) + "]");
    StripBangNoop(BitIdString(row, col));
    ParseComposed(d, NatToString(col));
    ParseComposed(NatToString(row), NatToString(col));
  }

  lemma {:induction false} ParseNatLeadingZero(d: string)
    requires AllDigits(d)
    ensures AllDigits("0" + d) && ParseNat("0" + d) == ParseNat(d)
  {
    if d != [] {
      assert ("0" + d)[..|"0" + d| - 1] == "0" + d[..|d| - 1];
      ParseNatLeadingZero(d[..|d| - 1]);
    } else {
      assert ("0" + d)[..0] == [];
    }
  }

  /** '$' lets one final newline through; any other trailing text is refused. */
  lemma TrailingText(row: nat, col: nat, x: char)
    ensures ParseBitId(BitIdString(row, col) + [x]) == if x == '\n' then Some((row, col)) else None
  {
    var r, c := NatToString(row), NatToString(col);
    var s := BitIdString(row, col) + [x];
    var i, j := 1 + |r|, 2 + |r| + |c|;
    assert s[1..i] == r && s[i + 1..j] == c;
    DigitRunEndAt(s, 1, i);
    DigitRunEndAt(s, i + 1, j);
    ParseNatToString(row);
    ParseNatToString(col);
  }
}
