/**
  What reaches the hardware from a register table: (register, value) pairs, without the table line
  that asked for them.  The radio table writes whole words, the MAC table the low byte of
  each (hal/HalHWImg8723A_RF.c, hal/HalHWImg8723A_MAC.c).
 */
module PhyRegisters {
  import opened Bytes
  import opened PhyTable

  const WORD_WRITES: bv32 := 0xFFFFFFFF
  const BYTE_WRITES: bv32 := 0xFF

  function Registers(writes: seq<Write>, cut: bv32): (r: seq<(bv32, bv32)>)
    ensures |r| == |writes| && forall k :: 0 <= k < |r| ==> r[k] == (writes[k].reg, writes[k].value & cut)
  {
    seq(|writes|, k requires 0 <= k < |writes| => (writes[k].reg, writes[k].value & cut))
  }

  ghost predicate WritesRight(items: seq<Item>, hex: bv32, cut: bv32)
    requires WellFormed(items)
  {
    var o := Interpret(Encode(items), 0, hex);
    !o.overrun && Registers(o.writes, cut) == Registers(Meaning(items, 0, hex), cut)
  }

  /** Where the loop survives, the hardware sees what the structure means. */
  lemma SurvivesWritesRight(items: seq<Item>, hex: bv32, cut: bv32)
    requires WellFormed(items) && Survives(items, hex)
    ensures WritesRight(items, hex, cut)
  {
    hide Interpret, Encode, Meaning, Survives;
    InterpretsExactly(items, 0, hex);
  }

  predicate BranchLine(l: Line) {
    l.v1 >= BRANCH && (IsMarker(l.v2) || l.v2 == IF_MARK)
  }

  predicate DataOnly(body: seq<Line>) {
    forall l <- body :: !BranchLine(l)
  }

  /** No line under a branch looks like an if line. */
  predicate NoIfLines(items: seq<Item>) {
    forall x <- items :: x.Block? ==>
      && (forall a <- x.arms :: DataOnly(a.body))
      && (x.els.Some? ==> DataOnly(x.els.value))
  }

  /** No data line asks for what another line, data or branch, could be taken to ask for. */
  ghost predicate Telling(t: seq<Line>, cut: bv32) {
    forall i, j :: 0 <= i < |t| && 0 <= j < |t| && i != j && !BranchLine(t[i]) ==>
      t[i].v1 != t[j].v1 || t[i].v2 & cut != t[j].v2 & cut
  }

  /** Line `w.line` of table `t`, counted from `at`, is what `w` writes. */
  ghost predicate Read(w: Write, t: seq<Line>, at: nat) {
    at <= w.line < at + |t| && t[w.line - at] == Line(w.reg, w.value)
  }

  ghost predicate AllRead(writes: seq<Write>, t: seq<Line>, at: nat) {
    forall k :: 0 <= k < |writes| ==> Read(writes[k], t, at)
  }

  lemma ReadLater(writes: seq<Write>, t: seq<Line>, at: nat, n: nat)
    requires n <= |t| && AllRead(writes, t[n..], at + n)
    ensures AllRead(writes, t, at)
  {
  }

  lemma ReadBoth(v: seq<Write>, w: seq<Write>, t: seq<Line>, at: nat)
    requires AllRead(v, t, at) && AllRead(w, t, at)
    ensures AllRead(v + w, t, at)
  {
  }

  /** Whatever the loop writes stands in the table. */
  lemma {:induction false} InterpretReads(t: seq<Line>, at: nat, hex: bv32)
    ensures AllRead(Interpret(t, at, hex).writes, t, at)
    decreases |t|
  {
    if t == [] {
    } else if t[0].v1 < BRANCH {
      hide CheckCondition, AllRead, ToMarker, ToEnd, Writes;
      InterpretReads(t[1..], at + 1, hex);
      ReadLater(Interpret(t[1..], at + 1, hex).writes, t, at, 1);
      assert AllRead([Write(at, t[0].v1, t[0].v2)], t, at) by { ReadHead(t, at); }
      ReadBoth([Write(at, t[0].v1, t[0].v2)], Interpret(t[1..], at + 1, hex).writes, t, at);
    } else if |t| > 1 {
      hide CheckCondition, AllRead, ToMarker, ToEnd, Writes;
      BranchReads(t, at, hex);
    } else {
      hide CheckCondition;
    }
  }

  lemma ReadHead(t: seq<Line>, at: nat)
    requires t != []
    ensures AllRead([Write(at, t[0].v1, t[0].v2)], t, at)
  {
  }

  lemma BodyReads(t: seq<Line>, lo: nat, hi: nat, at: nat)
    requires lo <= hi <= |t|
    ensures AllRead(Writes(t[lo..hi], at + lo), t, at)
  {
  }

  lemma {:induction false} BranchReads(t: seq<Line>, at: nat, hex: bv32)
    requires |t| > 1 && t[0].v1 >= BRANCH
    ensures AllRead(Interpret(t, at, hex).writes, t, at)
    decreases |t|, 0
  {
    hide CheckCondition, AllRead, ToMarker, ToEnd, Writes;
    var k := ToMarker(t[1..]);
    if !CheckCondition(t[0].v1, hex) {
      InterpretReads(t[1 + k..], at + 1 + k, hex);
      ReadLater(Interpret(t[1 + k..], at + 1 + k, hex).writes, t, at, 1 + k);
    } else {
      var n := 2 + k + ToEnd(t[1 + k..]);
      InterpretReads(t[n..], at + n, hex);
      ReadLater(Interpret(t[n..], at + n, hex).writes, t, at, n);
      BodyReads(t, 1, 1 + k, at);
      ReadBoth(Writes(t[1..1 + k], at + 1), Interpret(t[n..], at + n, hex).writes, t, at);
    }
  }

  ghost predicate AllData(writes: seq<Write>) {
    forall k :: 0 <= k < |writes| ==> !BranchLine(Line(writes[k].reg, writes[k].value))
  }

  /** Whatever the structure means stands in the table too, on lines that are no branch lines. */
  lemma {:induction false} TailReads(arms: seq<Arm>, els: Option<seq<Line>>, end: bv32, mark: bv32, at: nat, hex: bv32)
    requires (forall a <- arms :: DataOnly(a.body)) && (els.Some? ==> DataOnly(els.value))
    ensures AllRead(TailMeaning(arms, els, at, hex), EncodeTail(arms, els, end, mark), at)
    ensures AllData(TailMeaning(arms, els, at, hex))
  {
    hide CheckCondition, BranchLine, AllRead, AllData;
    var t := EncodeTail(arms, els, end, mark);
    if arms == [] {
      match els {
        case None => NothingRead(t, at);
        case Some(body) =>
          assert t[1..1 + |body|] == body;
          BodyReads(t, 1, 1 + |body|, at);
          BodyData(body, at + 1);
      }
    } else {
      var body := arms[0].body;
      assert arms[0] in arms;
      TailUnfolds(arms, els, end, mark);
      hide EncodeTail, Writes;
      var n := 1 + |body|;
      assert t[1..n] == body && t[n..] == EncodeTail(arms[1..], els, end, ELSE_IF_MARK);
      if CheckCondition(arms[0].cond, hex) {
        BodyReads(t, 1, n, at);
        BodyData(body, at + 1);
      } else {
        TailReads(arms[1..], els, end, ELSE_IF_MARK, at + n, hex);
        ReadLater(TailMeaning(arms[1..], els, at + n, hex), t, at, n);
      }
    }
  }

  lemma NothingRead(t: seq<Line>, at: nat)
    ensures AllRead([], t, at) && AllData([])
  {
  }

  lemma BodyData(body: seq<Line>, at: nat)
    requires DataOnly(body)
    ensures AllData(Writes(body, at))
  {
    hide BranchLine;
    forall k | 0 <= k < |body| ensures !BranchLine(body[k]) {
      assert body[k] in body;
    }
  }

  lemma DataBoth(v: seq<Write>, w: seq<Write>)
    requires AllData(v) && AllData(w)
    ensures AllData(v + w)
  {
  }

  lemma ReadFront(writes: seq<Write>, front: seq<Line>, rest: seq<Line>, at: nat)
    requires AllRead(writes, front, at)
    ensures AllRead(writes, front + rest, at)
  {
  }

  function ItemMeaning(x: Item, at: nat, hex: bv32): seq<Write> {
    match x
    case Plain(p) => [Write(at, p.v1, p.v2)]
    case Block(arms, els) => TailMeaning(arms, els, at, hex)
  }

  lemma FirstItem(items: seq<Item>, at: nat, hex: bv32)
    requires WellFormed(items) && NoIfLines(items) && items != []
    ensures WellFormedItem(items[0]) && WellFormed(items[1..]) && NoIfLines(items[1..]) && NoIfLines([items[0]])
    ensures Encode(items) == EncodeItem(items[0]) + Encode(items[1..])
    ensures Meaning(items, at, hex) ==
            ItemMeaning(items[0], at, hex) + Meaning(items[1..], at + |EncodeItem(items[0])|, hex)
  {
    hide CheckCondition, EncodeTail, TailMeaning, DataOnly, PlainBody;
    assert items[0] in items;
  }

  lemma NoItems(at: nat, hex: bv32)
    ensures AllRead(Meaning([], at, hex), Encode([]), at) && AllData(Meaning([], at, hex))
  {
  }

  lemma ItemReads(x: Item, at: nat, hex: bv32)
    requires WellFormedItem(x) && NoIfLines([x])
    ensures AllRead(ItemMeaning(x, at, hex), EncodeItem(x), at) && AllData(ItemMeaning(x, at, hex))
  {
    hide CheckCondition, AllRead, AllData, EncodeTail, TailMeaning, DataOnly, PlainBody;
    assert x in [x];
    match x {
      case Plain(p) =>
        ReadHead([p], at);
        PlainData(p, at);
      case Block(arms, els) => TailReads(arms, els, arms[0].cond, IF_MARK, at, hex);
    }
  }

  lemma {:induction false} MeaningReads(items: seq<Item>, at: nat, hex: bv32)
    requires WellFormed(items) && NoIfLines(items)
    ensures AllRead(Meaning(items, at, hex), Encode(items), at) && AllData(Meaning(items, at, hex))
  {
    hide *;
    if items == [] {
      NoItems(at, hex);
    } else {
      FirstItem(items, at, hex);
      ItemReads(items[0], at, hex);
      var first, rest := EncodeItem(items[0]), Encode(items[1..]);
      var n := |first|;
      MeaningReads(items[1..], at + n, hex);
      var v, w := ItemMeaning(items[0], at, hex), Meaning(items[1..], at + n, hex);
      assert (first + rest)[n..] == rest;
      ReadLater(w, first + rest, at, n);
      ReadFront(v, first, rest, at);
      ReadBoth(v, w, first + rest, at);
      DataBoth(v, w);
    }
  }

  lemma PlainData(p: Line, at: nat)
    requires p.v1 < BRANCH
    ensures AllData([Write(at, p.v1, p.v2)])
  {
  }

  /** Where each data line is told apart from every other line, equal register writes come from equal
      lines. */
  lemma SameLines(v: seq<Write>, w: seq<Write>, t: seq<Line>, cut: bv32)
    requires Telling(t, cut) && AllRead(v, t, 0) && AllRead(w, t, 0) && AllData(w)
    requires Registers(v, cut) == Registers(w, cut)
    ensures v == w
  {
    hide BranchLine;
    forall k | 0 <= k < |v| ensures v[k] == w[k] {
      assert Registers(v, cut)[k] == Registers(w, cut)[k];
      assert Read(v[k], t, 0) && Read(w[k], t, 0);
      assert v[k].line == w[k].line;
    }
  }

  /** On tables whose data lines are told apart, the hardware sees what the structure means if and only
      if the loop survives. */
  lemma WritesRightExactly(items: seq<Item>, hex: bv32, cut: bv32)
    requires WellFormed(items) && NoIfLines(items) && Telling(Encode(items), cut)
    ensures WritesRight(items, hex, cut) <==> Survives(items, hex)
  {
    hide Interpret, Encode, Meaning, Survives, Telling, AllRead, AllData, NoIfLines, Registers;
    InterpretsExactly(items, 0, hex);
    if WritesRight(items, hex, cut) {
      InterpretReads(Encode(items), 0, hex);
      MeaningReads(items, 0, hex);
      SameLines(Interpret(Encode(items), 0, hex).writes, Meaning(items, 0, hex), Encode(items), cut);
    }
  }

  const FIRST_COND: bv32 := 0xFF0F011F
  const PAIR := Line(4, 0x210E7)
  const FALSE_IF := Block([Arm(FIRST_COND, [Line(3, 0x18C63)])], None)
  const EITHER_WAY := Block([Arm(BRANCH, [PAIR])], Some([PAIR]))

  lemma FalseIf()
    ensures WellFormedItem(FALSE_IF) && !CheckCondition(FIRST_COND, 0)
    ensures !Selects(FALSE_IF.arms, None, 0) && TailMeaning(FALSE_IF.arms, None, 0, 0) == []
    ensures EncodeItem(FALSE_IF) == [Line(FIRST_COND, IF_MARK), Line(3, 0x18C63), Line(FIRST_COND, END_MARK)]
  {
    ShippedCondition(0);
    hide CheckCondition;
    var arms := FALSE_IF.arms;
    assert arms[1..] == [];
    assert EncodeTail([], None, FIRST_COND, ELSE_IF_MARK) == [] + [Line(FIRST_COND, END_MARK)];
  }

  lemma EitherWay()
    ensures WellFormedItem(EITHER_WAY) && CheckCondition(BRANCH, 0)
    ensures TailMeaning(EITHER_WAY.arms, EITHER_WAY.els, 3, 0) == [Write(4, PAIR.v1, PAIR.v2)]
    ensures EncodeItem(EITHER_WAY) ==
            [Line(BRANCH, IF_MARK)] + [PAIR] + ([Line(BRANCH, ELSE_MARK)] + [PAIR] + [Line(BRANCH, END_MARK)])
  {
    ElseAlwaysHolds(0);
    hide CheckCondition;
    assert EITHER_WAY.arms[1..] == [];
    var other := [Line(BRANCH, ELSE_MARK)] + [PAIR] + [Line(BRANCH, END_MARK)];
    assert EncodeTail([], EITHER_WAY.els, BRANCH, ELSE_IF_MARK) == other;
    TailUnfolds(EITHER_WAY.arms, EITHER_WAY.els, BRANCH, IF_MARK);
  }

  /** From the false if's end line on: the next if line is swallowed and its else part written. */
  lemma OtherWayTaken()
    ensures
      var t := [Line(FIRST_COND, END_MARK)] + EncodeItem(EITHER_WAY);
      Interpret(t, 2, 0) == Outcome([Write(6, PAIR.v1, PAIR.v2)], false)
  {
    FalseIf();
    EitherWay();
    hide CheckCondition, Interpret, EncodeItem;
    var skipped, last := [Line(BRANCH, IF_MARK)] + [PAIR], [Line(BRANCH, END_MARK)];
    var other := [Line(BRANCH, ELSE_MARK)] + [PAIR] + last;
    RefusedArm(FIRST_COND, END_MARK, skipped, other, 2, 0);
    Associates([Line(FIRST_COND, END_MARK)], skipped, other);
    LastIsEnd(BRANCH, []);
    TakenArm(BRANCH, ELSE_MARK, [PAIR], last, [], 5, 0);
    assert other + [] == other;
    NothingToDo(8);
    assert Writes([PAIR], 6) == [Write(6, PAIR.v1, PAIR.v2)];
  }

  lemma NothingToDo(at: nat)
    ensures Interpret([], at, 0) == Outcome([], false)
  {
  }

  /** Without that it can be right by accident: the loop loses the arm it should take, and takes another
      that writes the same. */
  lemma RightByAccident()
    ensures
      var items := [FALSE_IF, EITHER_WAY];
      WellFormed(items) && WritesRight(items, 0, WORD_WRITES) && !Survives(items, 0)
  {
    var items, one := [FALSE_IF, EITHER_WAY], [EITHER_WAY];
    FalseIf();
    EitherWay();
    OtherWayTaken();
    hide CheckCondition, Interpret, EncodeItem, EncodeTail, TailMeaning, Selects, Idle;
    assert items[1..] == one && one[1..] == [];
    var t := EncodeItem(EITHER_WAY);
    assert Encode(one) == t + [] == t;
    TailUnselected(FALSE_IF.arms, None, FIRST_COND, IF_MARK, t, 0, 0);
    assert EncodeItem(FALSE_IF) == EncodeTail(FALSE_IF.arms, None, FIRST_COND, IF_MARK) by { SameItem(); }
    assert Meaning(one, 3, 0) == [Write(4, PAIR.v1, PAIR.v2)] + [];
    assert Meaning(items, 0, 0) == [] + Meaning(one, 3, 0);
    assert !SafeAfterNone(one, 0);
  }

  lemma SameItem()
    ensures EncodeItem(FALSE_IF) == EncodeTail(FALSE_IF.arms, None, FIRST_COND, IF_MARK)
  {
  }
}
