/** net2cat: the documentation category of a net name. Every rule is tested
    in turn and each match rebinds the result, so the last matching rule
    decides; a name no rule matches is "Unsorted". */
module NetCat {
  import opened Rules
  import opened TileDb

  const Unsorted := Category(99, "Unsorted")

  /** Rules 0 to 7: global networks, local tracks and the tile's blocks. */
  const BlockRules: seq<(Pattern, Category)> := [
    (Prefix("glb_netwk_"), Category(10, "Global Networks")),
    (Prefix("glb2local_"), Category(10, "Global Networks")),
    (Prefix("fabout"), Category(10, "Global Networks")),
    (Prefix("local_"), Category(20, "Local Tracks")),
    (Prefix("carry_in"), Category(25, "Logic Block")),
    (Prefix("io_"), Category(25, "IO Block")),
    (Prefix("ram"), Category(25, "RAM Block")),
    (Prefix("lutff_"), Category(25, "Logic Block"))
  ]

  /** Rules 8 to 15: the eight logic cells. */
  const LutRules: seq<(Pattern, Category)> := [
    (Prefix("lutff_0"), Category(30, "Logic Unit 0")),
    (Prefix("lutff_1"), Category(30, "Logic Unit 1")),
    (Prefix("lutff_2"), Category(30, "Logic Unit 2")),
    (Prefix("lutff_3"), Category(30, "Logic Unit 3")),
    (Prefix("lutff_4"), Category(30, "Logic Unit 4")),
    (Prefix("lutff_5"), Category(30, "Logic Unit 5")),
    (Prefix("lutff_6"), Category(30, "Logic Unit 6")),
    (Prefix("lutff_7"), Category(30, "Logic Unit 7"))
  ]

  /** Rules 16 to 26: neighbourhood and span wires. */
  const SpanRules: seq<(Pattern, Category)> := [
    (Prefix("neigh_op_"), Category(40, "Neighbourhood")),
    (Prefix("logic_op_"), Category(40, "Neighbourhood")),
    (Prefix("sp4_v_"), Category(50, "Span-4 Vertical")),
    (Prefix("span4_vert_"), Category(50, "Span-4 Vertical")),
    (Prefix("sp4_r_v_"), Category(55, "Span-4 Right Vertical")),
    (Prefix("sp4_h_"), Category(60, "Span-4 Horizontal")),
    (Prefix("span4_horz_"), Category(60, "Span-4 Horizontal")),
    (Prefix("sp12_v_"), Category(70, "Span-12 Vertical")),
    (Prefix("span12_vert_"), Category(70, "Span-12 Vertical")),
    (Prefix("sp12_h_"), Category(80, "Span-12 Horizontal")),
    (Prefix("span12_horz_"), Category(80, "Span-12 Horizontal"))
  ]

  /** The rules in the order the page tests them. */
  const NetRules: seq<(Pattern, Category)> := BlockRules + LutRules + SpanRules

  /** The category of a net: the last matching rule's, or Unsorted. */
  function Net2Cat(name: string): (c: Category)
    ensures (forall i :: 0 <= i < |NetRules| ==> !Matches(NetRules[i].0, name)) ==> c == Unsorted
    ensures forall i :: 0 <= i < |NetRules| && Matches(NetRules[i].0, name) &&
                        (forall j :: i < j < |NetRules| ==> !Matches(NetRules[j].0, name)) ==>
                        c == NetRules[i].1
  {
    LastMatch(NetRules, name, Unsorted)
  }

  /** No rule after the lutff_ ones matches a name starting with "lu". */
  lemma LaterRulesMiss(name: string)
    requires |name| >= 2 && name[0] == 'l' && name[1] == 'u'
    ensures forall j :: 16 <= j < |NetRules| ==> !Matches(NetRules[j].0, name)
  {
    forall j | 16 <= j < |NetRules| ensures !Matches(NetRules[j].0, name) {
      assert NetRules[j] == SpanRules[j - 16];
      var t := NetRules[j].0.text;
      assert t[0] != name[0] || t[1] != name[1];
    }
  }

  /** Rules 8 to 15 are the eight logic units, 0 to 7. */
  lemma LutRule(i: int)
    requires 8 <= i < 16
    ensures var d := ('0' as int + i - 8) as char;
            NetRules[i] == (Prefix("lutff_" + [d]), Category(30, "Logic Unit " + [d]))
  {
    assert NetRules[i] == LutRules[i - 8];
    var k := i - 8;
    if k == 0 {
      assert "lutff_" + ['0'] == "lutff_0" && "Logic Unit " + ['0'] == "Logic Unit 0";
    } else if k == 1 {
      assert "lutff_" + ['1'] == "lutff_1" && "Logic Unit " + ['1'] == "Logic Unit 1";
    } else if k == 2 {
      assert "lutff_" + ['2'] == "lutff_2" && "Logic Unit " + ['2'] == "Logic Unit 2";
    } else if k == 3 {
      assert "lutff_" + ['3'] == "lutff_3" && "Logic Unit " + ['3'] == "Logic Unit 3";
    } else if k == 4 {
      assert "lutff_" + ['4'] == "lutff_4" && "Logic Unit " + ['4'] == "Logic Unit 4";
    } else if k == 5 {
      assert "lutff_" + ['5'] == "lutff_5" && "Logic Unit " + ['5'] == "Logic Unit 5";
    } else if k == 6 {
      assert "lutff_" + ['6'] == "lutff_6" && "Logic Unit " + ['6'] == "Logic Unit 6";
    } else {
      assert "lutff_" + ['7'] == "lutff_7" && "Logic Unit " + ['7'] == "Logic Unit 7";
    }
  }

  /** A net of logic cell d (lutff_0 to lutff_7) belongs to that logic unit,
      not to the logic block that the earlier lutff_ rule named. */
  lemma LogicUnit(d: char, rest: string)
    requires '0' <= d <= '7'
    ensures Net2Cat("lutff_" + [d] + rest) == Category(30, "Logic Unit " + [d])
  {
    var name := "lutff_" + [d] + rest;
    var i := 8 + (d as int - '0' as int);
    LutRule(i);
    assert NetRules[i].0.text <= name;
    assert name[0] == 'l' && name[1] == 'u' && name[6] == d;
    LaterRulesMiss(name);
    forall j | i < j < 16 ensures !Matches(NetRules[j].0, name) {
      LutRule(j);
      assert NetRules[j].0.text[6] != name[6];
    }
  }

  /** Any other lutff_ net is in the logic block. */
  lemma LogicBlock(rest: string)
    requires rest == [] || !('0' <= rest[0] <= '7')
    ensures Net2Cat("lutff_" + rest) == Category(25, "Logic Block")
  {
    var name := "lutff_" + rest;
    assert NetRules[7] == BlockRules[7];
    assert NetRules[7].0.text <= name;
    assert name[0] == 'l' && name[1] == 'u';
    LaterRulesMiss(name);
    forall j | 7 < j < 16 ensures !Matches(NetRules[j].0, name) {
      LutRule(j);
      assert |name| <= 6 || NetRules[j].0.text[6] != name[6];
    }
  }
}
