/**
  The register tables of hal/HalHWImg8723A_RF.c and hal/HalHWImg8723A_MAC.c: pairs of words
  in which conditionals are spelt out flat, as

      (cond, 0xABCD) ...  (cond, 0xCDEF) ...  (0xCDCDCDCD, 0xCDCD) ...  (cond, 0xDEAD)

  for if, else-if, else and end, and the loop that interprets them.
 */
module PhyTable {
  import opened Bytes

  const BRANCH: bv32 := 0xCDCDCDCD      // first words from here on start a branch line
  const IF_MARK: bv32 := 0xABCD
  const ELSE_IF_MARK: bv32 := 0xCDEF
  const ELSE_MARK: bv32 := 0xCDCD
  const END_MARK: bv32 := 0xDEAD

  /** One pair of table words. */
  datatype Line = Line(v1: bv32, v2: bv32)

  /** A register write, and the table line that asked for it. */
  datatype Write = Write(line: nat, reg: bv32, value: bv32)

  /** `overrun` tells that the interpreter read past the end of the table. */
  datatype Outcome = Outcome(writes: seq<Write>, overrun: bool)

  /** The bytes of a condition word, and of the word it is held against. */
  function BoardOf(w: bv32): bv32 { w & 0x000000FF }
  function InterfaceOf(w: bv32): bv32 { (w & 0x0000FF00) >> 8 }
  function PlatformOf(w: bv32): bv32 { (w & 0x00FF0000) >> 16 }

  predicate CheckCondition(condition: bv32, hex: bv32) {
    var board := BoardOf(hex);
    var interface := InterfaceOf(hex);
    var platform := PlatformOf(hex);
    condition == BRANCH ||
    (&& !(board == BoardOf(condition) && BoardOf(condition) != 0x00)
     && !(interface & InterfaceOf(condition) == 0 && InterfaceOf(condition) != 0x07)
     && !(platform & PlatformOf(condition) == 0 && PlatformOf(condition) != 0x0F))
  }

  /** The condition of the shipped tables holds off board type 0x1F on an interface with bit 0
      set, whatever the platform. */
  lemma ShippedCondition(hex: bv32)
    ensures CheckCondition(0xFF0F011F, hex) <==>
              hex & 0xFF != 0x1F && hex & 0x0100 != 0
  {
  }

  predicate IsMarker(v2: bv32) {
    v2 == END_MARK || v2 == ELSE_IF_MARK || v2 == ELSE_MARK
  }

  // ---------------------------------------------------------------------------
  // The loop, as a function of what is left of the table
  // ---------------------------------------------------------------------------

  /** How many lines the inner loops step over. */
  function ToMarker(t: seq<Line>): (k: nat)
    requires t != []
    ensures k < |t|
  {
    if IsMarker(t[0].v2) || |t| == 1 then 0 else 1 + ToMarker(t[1..])
  }

  function ToEnd(t: seq<Line>): (k: nat)
    requires t != []
    ensures k < |t|
  {
    if t[0].v2 == END_MARK || |t| == 1 then 0 else 1 + ToEnd(t[1..])
  }

  function Writes(body: seq<Line>, at: nat): (w: seq<Write>)
    ensures |w| == |body|
    ensures forall i :: 0 <= i < |w| ==> w[i] == Write(at + i, body[i].v1, body[i].v2)
  {
    if body == [] then [] else [Write(at, body[0].v1, body[0].v2)] + Writes(body[1..], at + 1)
  }

  function After(w: seq<Write>, o: Outcome): Outcome {
    Outcome(w + o.writes, o.overrun)
  }

  function Interpret(t: seq<Line>, at: nat, hex: bv32): Outcome
    decreases |t|
  {
    if t == [] then Outcome([], false)
    else if t[0].v1 < BRANCH then After([Write(at, t[0].v1, t[0].v2)], Interpret(t[1..], at + 1, hex))
    else if |t| == 1 then Outcome([], true)
    else
      var k := ToMarker(t[1..]);
      if !CheckCondition(t[0].v1, hex) then Interpret(t[1 + k..], at + 1 + k, hex)
      else
        var e := ToEnd(t[1 + k..]);
        After(Writes(t[1..1 + k], at + 1), Interpret(t[2 + k + e..], at + 2 + k + e, hex))
  }

  // ---------------------------------------------------------------------------
  // Structured tables
  // ---------------------------------------------------------------------------

  datatype Arm = Arm(cond: bv32, body: seq<Line>)

  datatype Item =
    | Plain(pair: Line)
    | Block(arms: seq<Arm>, els: Option<seq<Line>>)

  function EncodeTail(arms: seq<Arm>, els: Option<seq<Line>>, end: bv32, mark: bv32): seq<Line> {
    if arms == [] then
      (match els case None => [] case Some(body) => [Line(BRANCH, ELSE_MARK)] + body) + [Line(end, END_MARK)]
    else [Line(arms[0].cond, mark)] + arms[0].body + EncodeTail(arms[1..], els, end, ELSE_IF_MARK)
  }

  /** The end line repeats the condition of the if line, as the shipped tables do. */
  function EncodeItem(x: Item): seq<Line>
    requires WellFormedItem(x)
  {
    match x
    case Plain(p) => [p]
    case Block(arms, els) => EncodeTail(arms, els, arms[0].cond, IF_MARK)
  }

  function Encode(items: seq<Item>): seq<Line>
    requires WellFormed(items)
  {
    if items == [] then [] else EncodeItem(items[0]) + Encode(items[1..])
  }

  predicate PlainBody(body: seq<Line>) {
    forall p :: p in body ==> !IsMarker(p.v2)
  }

  predicate WellFormedTail(arms: seq<Arm>, els: Option<seq<Line>>) {
    && (forall a :: a in arms ==> a.cond >= BRANCH && PlainBody(a.body))
    && (els.Some? ==> PlainBody(els.value))
  }

  predicate WellFormedItem(x: Item) {
    match x
    case Plain(p) => p.v1 < BRANCH
    case Block(arms, els) => arms != [] && WellFormedTail(arms, els)
  }

  predicate WellFormed(items: seq<Item>) {
    forall x :: x in items ==> WellFormedItem(x)
  }

  // ---------------------------------------------------------------------------
  // What a structured table means
  // ---------------------------------------------------------------------------

  /** Some arm is taken: the first whose condition holds, or else the else arm. */
  predicate Selects(arms: seq<Arm>, els: Option<seq<Line>>, hex: bv32) {
    els.Some? || exists a :: a in arms && CheckCondition(a.cond, hex)
  }

  function TailMeaning(arms: seq<Arm>, els: Option<seq<Line>>, at: nat, hex: bv32): seq<Write> {
    if arms == [] then (match els case None => [] case Some(body) => Writes(body, at + 1))
    else if CheckCondition(arms[0].cond, hex) then Writes(arms[0].body, at + 1)
    else TailMeaning(arms[1..], els, at + 1 + |arms[0].body|, hex)
  }

  function Meaning(items: seq<Item>, at: nat, hex: bv32): seq<Write>
    requires WellFormed(items)
  {
    if items == [] then []
    else
      (match items[0]
       case Plain(p) => [Write(at, p.v1, p.v2)]
       case Block(arms, els) => TailMeaning(arms, els, at, hex))
      + Meaning(items[1..], at + |EncodeItem(items[0])|, hex)
  }

  /** The arm taken, if any, has nothing to write. */
  predicate Idle(arms: seq<Arm>, els: Option<seq<Line>>, hex: bv32) {
    if arms == [] then els.None? || els.value == []
    else if CheckCondition(arms[0].cond, hex) then arms[0].body == []
    else Idle(arms[1..], els, hex)
  }

  /** Nothing is lost where a conditional has an arm to take.  Where it has none, the loop takes
      its end line for a branch that fails and skips on: that does no harm only when the next
      line is the last or carries a marker value, or when a conditional follows whose first
      arm is refused too, or is taken but empty, as is the arm then taken in its place. */
  predicate Survives(items: seq<Item>, hex: bv32) {
    if items == [] then true
    else if items[0].Plain? || Selects(items[0].arms, items[0].els, hex) then Survives(items[1..], hex)
    else SafeAfterNone(items[1..], hex) && Survives(items[1..], hex)
  }

  predicate SafeAfterNone(rest: seq<Item>, hex: bv32) {
    && rest != []
    && match rest[0]
       case Plain(p) => IsMarker(p.v2) || |rest| == 1
       case Block(arms, els) =>
         && arms != []
         && (CheckCondition(arms[0].cond, hex) ==>
               arms[0].body == [] && Selects(arms[1..], els, hex) && Idle(arms[1..], els, hex))
  }

  // ---------------------------------------------------------------------------
  // The loop against the structure
  // ---------------------------------------------------------------------------

  lemma {:induction false} SkipsBody(body: seq<Line>, mark: Line, rest: seq<Line>)
    requires forall p :: p in body ==> !IsMarker(p.v2)
    requires IsMarker(mark.v2)
    ensures ToMarker(body + [mark] + rest) == |body|
  {
    var t := body + [mark] + rest;
    if body == [] {
      assert t[0] == mark;
    } else {
      assert t[0] == body[0] && t[1..] == body[1..] + [mark] + rest;
      SkipsBody(body[1..], mark, rest);
    }
  }

  lemma {:induction false} PassesToEnd(body: seq<Line>, rest: seq<Line>)
    requires forall p :: p in body ==> p.v2 != END_MARK
    requires rest != []
    ensures ToEnd(body + rest) == |body| + ToEnd(rest)
  {
    var t := body + rest;
    if body == [] {
      assert t == rest;
    } else {
      assert t[0] == body[0] && t[1..] == body[1..] + rest;
      PassesToEnd(body[1..], rest);
    }
  }

  /** From anywhere in a conditional, the search for the end finds its own. */
  lemma {:induction false} EndOfTail(arms: seq<Arm>, els: Option<seq<Line>>, end: bv32, mark: bv32, rest: seq<Line>)
    requires WellFormedTail(arms, els) && mark != END_MARK
    ensures EncodeTail(arms, els, end, mark) != []
    ensures ToEnd(EncodeTail(arms, els, end, mark) + rest) == |EncodeTail(arms, els, end, mark)| - 1
  {
    hide ToEnd;
    var t := EncodeTail(arms, els, end, mark);
    if arms == [] {
      var last := [Line(end, END_MARK)];
      LastIsEnd(end, rest);
      match els {
        case None => assert t == last;
        case Some(body) =>
          var skipped := [Line(BRANCH, ELSE_MARK)] + body;
          PassesToEnd(skipped, last + rest);
          assert t + rest == skipped + (last + rest);
      }
    } else {
      var u := EncodeTail(arms[1..], els, end, ELSE_IF_MARK);
      var skipped := [Line(arms[0].cond, mark)] + arms[0].body;
      assert arms[0] in arms;
      EndOfTail(arms[1..], els, end, ELSE_IF_MARK, rest);
      PassesToEnd(skipped, u + rest);
      assert t + rest == skipped + (u + rest);
    }
  }

  lemma LastIsEnd(end: bv32, rest: seq<Line>)
    ensures ToEnd([Line(end, END_MARK)] + rest) == 0
  {
  }

  /** The first line after a body is a marker line. */
  lemma TailStarts(arms: seq<Arm>, els: Option<seq<Line>>, end: bv32)
    ensures
      var t := EncodeTail(arms, els, end, ELSE_IF_MARK);
      t != [] && IsMarker(t[0].v2)
  {
  }

  lemma PlainStep(p: Line, rest: seq<Line>, at: nat, hex: bv32)
    requires p.v1 < BRANCH
    ensures Interpret([p] + rest, at, hex) == After([Write(at, p.v1, p.v2)], Interpret(rest, at + 1, hex))
  {
    hide CheckCondition, ToMarker, ToEnd, Writes;
    assert ([p] + rest)[1..] == rest;
  }

  lemma RefusedStep(l: Line, rest: seq<Line>, at: nat, hex: bv32)
    requires l.v1 >= BRANCH && !CheckCondition(l.v1, hex) && rest != []
    ensures Interpret([l] + rest, at, hex) == Interpret(rest[ToMarker(rest)..], at + 1 + ToMarker(rest), hex)
  {
    hide CheckCondition, ToMarker, ToEnd, Writes;
    var t := [l] + rest;
    assert t[1..] == rest && t[0] == l;
    assert t[1 + ToMarker(rest)..] == rest[ToMarker(rest)..];
  }

  /** A taken arm: its body is written and the rest of the conditional skipped. */
  lemma TakenArm(cond: bv32, mark: bv32, body: seq<Line>, tail: seq<Line>, rest: seq<Line>, at: nat, hex: bv32)
    requires cond >= BRANCH && CheckCondition(cond, hex)
    requires forall p :: p in body ==> !IsMarker(p.v2)
    requires tail != [] && IsMarker(tail[0].v2) && ToEnd(tail + rest) == |tail| - 1
    ensures Interpret([Line(cond, mark)] + body + tail + rest, at, hex)
            == After(Writes(body, at + 1), Interpret(rest, at + 1 + |body| + |tail|, hex))
  {
    hide CheckCondition, ToMarker, ToEnd, Writes;
    var t := [Line(cond, mark)] + body + tail + rest;
    assert t[0] == Line(cond, mark) && |t| > 1;
    SkipsBody(body, tail[0], tail[1..] + rest);
    assert t[1..] == body + [tail[0]] + (tail[1..] + rest);
    var k := |body|;
    assert t[1..1 + k] == body && t[1 + k..] == tail + rest;
    assert t[2 + k + (|tail| - 1)..] == rest;
  }

  /** A refused arm: the loop goes on at the next marker line. */
  lemma RefusedArm(cond: bv32, mark: bv32, body: seq<Line>, tail: seq<Line>, at: nat, hex: bv32)
    requires cond >= BRANCH && !CheckCondition(cond, hex)
    requires forall p :: p in body ==> !IsMarker(p.v2)
    requires tail != [] && IsMarker(tail[0].v2)
    ensures Interpret([Line(cond, mark)] + body + tail, at, hex) == Interpret(tail, at + 1 + |body|, hex)
  {
    hide CheckCondition, Interpret, ToMarker;
    SkipsBody(body, tail[0], tail[1..]);
    assert body + tail == body + [tail[0]] + tail[1..];
    RefusedStep(Line(cond, mark), body + tail, at, hex);
    assert [Line(cond, mark)] + body + tail == [Line(cond, mark)] + (body + tail);
  }

  /** Where some arm is taken, a conditional does what it means. */
  lemma {:induction false} TailSelected(arms: seq<Arm>, els: Option<seq<Line>>, end: bv32, mark: bv32,
                                        rest: seq<Line>, at: nat, hex: bv32)
    requires WellFormedTail(arms, els) && mark != END_MARK && Selects(arms, els, hex)
    ensures
      var t := EncodeTail(arms, els, end, mark);
      Interpret(t + rest, at, hex)
      == After(TailMeaning(arms, els, at, hex), Interpret(rest, at + |t|, hex))
  {
    hide CheckCondition, Interpret, Writes, ToEnd, ToMarker, EncodeTail;
    if arms == [] {
      ElseTaken(els.value, end, mark, rest, at, hex);
    } else if CheckCondition(arms[0].cond, hex) {
      FirstTaken(arms, els, end, mark, rest, at, hex);
    } else {
      FirstRefused(arms, els, end, mark, rest, at, hex);
      SelectsLater(arms, els, hex);
      TailSelected(arms[1..], els, end, ELSE_IF_MARK, rest, at + 1 + |arms[0].body|, hex);
    }
  }

  lemma ElseTaken(body: seq<Line>, end: bv32, mark: bv32, rest: seq<Line>, at: nat, hex: bv32)
    requires PlainBody(body)
    ensures
      var t := EncodeTail([], Some(body), end, mark);
      Interpret(t + rest, at, hex) == After(Writes(body, at + 1), Interpret(rest, at + |t|, hex))
  {
    hide CheckCondition, Interpret, Writes, ToEnd, ToMarker;
    var t, last := EncodeTail([], Some(body), end, mark), [Line(end, END_MARK)];
    ElseAlwaysHolds(hex);
    LastIsEnd(end, rest);
    TakenArm(BRANCH, ELSE_MARK, body, last, rest, at, hex);
    assert t + rest == [Line(BRANCH, ELSE_MARK)] + body + last + rest;
  }

  lemma FirstTaken(arms: seq<Arm>, els: Option<seq<Line>>, end: bv32, mark: bv32,
                   rest: seq<Line>, at: nat, hex: bv32)
    requires WellFormedTail(arms, els) && arms != [] && CheckCondition(arms[0].cond, hex)
    ensures
      var t := EncodeTail(arms, els, end, mark);
      Interpret(t + rest, at, hex) == After(Writes(arms[0].body, at + 1), Interpret(rest, at + |t|, hex))
  {
    hide CheckCondition, Interpret, Writes, ToEnd, ToMarker, EncodeTail;
    assert arms[0] in arms;
    TailUnfolds(arms, els, end, mark);
    TailStarts(arms[1..], els, end);
    EndOfTail(arms[1..], els, end, ELSE_IF_MARK, rest);
    TakenArm(arms[0].cond, mark, arms[0].body, EncodeTail(arms[1..], els, end, ELSE_IF_MARK), rest, at, hex);
  }

  lemma FirstRefused(arms: seq<Arm>, els: Option<seq<Line>>, end: bv32, mark: bv32,
                     rest: seq<Line>, at: nat, hex: bv32)
    requires WellFormedTail(arms, els) && arms != [] && !CheckCondition(arms[0].cond, hex)
    ensures
      var t, u, n := EncodeTail(arms, els, end, mark), EncodeTail(arms[1..], els, end, ELSE_IF_MARK), 1 + |arms[0].body|;
      Interpret(t + rest, at, hex) == Interpret(u + rest, at + n, hex) && |t| == n + |u|
  {
    hide CheckCondition, Interpret, Writes, ToEnd, ToMarker, EncodeTail;
    assert arms[0] in arms;
    TailUnfolds(arms, els, end, mark);
    TailStarts(arms[1..], els, end);
    var u := EncodeTail(arms[1..], els, end, ELSE_IF_MARK);
    RefusedArm(arms[0].cond, mark, arms[0].body, u + rest, at, hex);
    Associates([Line(arms[0].cond, mark)] + arms[0].body, u, rest);
  }

  lemma SelectsLater(arms: seq<Arm>, els: Option<seq<Line>>, hex: bv32)
    requires arms != [] && Selects(arms, els, hex) && !CheckCondition(arms[0].cond, hex)
    ensures Selects(arms[1..], els, hex)
  {
    hide CheckCondition;
    if els.None? {
      var a :| a in arms && CheckCondition(a.cond, hex);
      assert a in arms[1..];
    }
  }

  lemma ElseAlwaysHolds(hex: bv32)
    ensures CheckCondition(BRANCH, hex)
  {
  }

  /** Where no arm is taken, the loop arrives at the end line as if it were a branch. */
  lemma {:induction false} TailUnselected(arms: seq<Arm>, els: Option<seq<Line>>, end: bv32, mark: bv32,
                                          rest: seq<Line>, at: nat, hex: bv32)
    requires WellFormedTail(arms, els) && mark != END_MARK && !Selects(arms, els, hex)
    ensures
      var t := EncodeTail(arms, els, end, mark);
      && t != [] && Interpret(t + rest, at, hex) == Interpret([Line(end, END_MARK)] + rest, at + |t| - 1, hex)
      && TailMeaning(arms, els, at, hex) == []
  {
    hide CheckCondition, Interpret;
    var t := EncodeTail(arms, els, end, mark);
    if arms != [] {
      var u := EncodeTail(arms[1..], els, end, ELSE_IF_MARK);
      TailStarts(arms[1..], els, end);
      RefusedArm(arms[0].cond, mark, arms[0].body, u + rest, at, hex);
      assert t + rest == [Line(arms[0].cond, mark)] + arms[0].body + (u + rest);
      TailUnselected(arms[1..], els, end, ELSE_IF_MARK, rest, at + 1 + |arms[0].body|, hex);
    } else {
      assert t == [Line(end, END_MARK)];
    }
  }

  /** The lines the loop writes lie at or after where it stands. */
  lemma {:induction false} WritesAhead(t: seq<Line>, at: nat, hex: bv32)
    ensures forall w :: w in Interpret(t, at, hex).writes ==> w.line >= at
    decreases |t|
  {
    hide CheckCondition, ToMarker, ToEnd, Writes;
    if t != [] {
      if t[0].v1 < BRANCH {
        WritesAhead(t[1..], at + 1, hex);
      } else if |t| > 1 {
        var k := ToMarker(t[1..]);
        if !CheckCondition(t[0].v1, hex) {
          WritesAhead(t[1 + k..], at + 1 + k, hex);
        } else {
          var n := 2 + k + ToEnd(t[1 + k..]);
          WritesAhead(t[n..], at + n, hex);
        }
      }
    }
  }

  /** A conditional with no arm to take, followed by `rest`. */
  lemma AfterNone(cond: bv32, items: seq<Item>, at: nat, hex: bv32)
    requires cond >= BRANCH && !CheckCondition(cond, hex) && WellFormed(items)
    ensures
      var o := Interpret([Line(cond, END_MARK)] + Encode(items), at, hex);
      var good := Interpret(Encode(items), at + 1, hex);
      && (SafeAfterNone(items, hex) ==> o == good)
      && (!SafeAfterNone(items, hex) ==> o != Outcome(Meaning(items, at + 1, hex), false))
  {
    if items == [] {
      assert [Line(cond, END_MARK)] + Encode(items) == [Line(cond, END_MARK)];
    } else if items[0].Block? {
      BlockAfterNone(cond, items, at, hex);
    } else {
      PlainAfterNone(cond, items, at, hex);
    }
  }

  lemma PlainAfterNone(cond: bv32, items: seq<Item>, at: nat, hex: bv32)
    requires cond >= BRANCH && !CheckCondition(cond, hex) && WellFormed(items)
    requires items != [] && items[0].Plain?
    ensures
      var o := Interpret([Line(cond, END_MARK)] + Encode(items), at, hex);
      var good := Interpret(Encode(items), at + 1, hex);
      && (SafeAfterNone(items, hex) ==> o == good)
      && (!SafeAfterNone(items, hex) ==> o != Outcome(Meaning(items, at + 1, hex), false))
  {
    hide CheckCondition, Interpret;
    var p, rest := items[0].pair, Encode(items[1..]);
    var t := [p] + rest;
    assert items[0] in items;
    assert Encode(items) == t;
    RefusedStep(Line(cond, END_MARK), t, at, hex);
    var k := ToMarker(t);
    if SafeAfterNone(items, hex) {
      assert k == 0 && t[0..] == t;
    } else {
      EncodesMore(items[1..]);
      WritesAhead(t[k..], at + 1 + k, hex);
      FirstWrite(p, items[1..], at + 1, hex);
      assert Meaning(items, at + 1, hex)[0].line == at + 1;
    }
  }

  lemma FirstWrite(p: Line, rest: seq<Item>, at: nat, hex: bv32)
    requires p.v1 < BRANCH && WellFormed(rest)
    ensures WellFormed([Plain(p)] + rest)
    ensures Meaning([Plain(p)] + rest, at, hex) == [Write(at, p.v1, p.v2)] + Meaning(rest, at + 1, hex)
  {
    assert ([Plain(p)] + rest)[1..] == rest;
  }

  lemma EncodesMore(items: seq<Item>)
    requires items != [] && WellFormed(items)
    ensures Encode(items) != []
  {
    assert items[0] in items;
    EncodesSomething(items[0]);
  }

  lemma EncodesSomething(x: Item)
    requires WellFormedItem(x)
    ensures EncodeItem(x) != []
  {
  }

  lemma BlockAfterNone(cond: bv32, items: seq<Item>, at: nat, hex: bv32)
    requires cond >= BRANCH && !CheckCondition(cond, hex) && WellFormed(items)
    requires items != [] && items[0].Block?
    ensures
      var o := Interpret([Line(cond, END_MARK)] + Encode(items), at, hex);
      var good := Interpret(Encode(items), at + 1, hex);
      && (SafeAfterNone(items, hex) ==> o == good)
      && (!SafeAfterNone(items, hex) ==> o != Outcome(Meaning(items, at + 1, hex), false))
  {
    hide CheckCondition, Interpret, Encode, Meaning, Selects, Idle;
    assert WellFormedItem(items[0]) by { assert items[0] in items; }
    var a, tail := items[0].arms[0], AfterFirstArm(items);
    BlockShape(items, at + 1, hex);
    // The failed branch swallows the if line and the body under it.
    var body := [Line(a.cond, IF_MARK)] + a.body;
    RefusedArm(cond, END_MARK, body, tail, at, hex);
    assert [Line(cond, END_MARK)] + Encode(items) == [Line(cond, END_MARK)] + body + tail;
    if !CheckCondition(a.cond, hex) {
      RefusedArm(a.cond, IF_MARK, a.body, tail, at + 1, hex);
    } else if a.body != [] {
      WritesAhead(tail, at + 1 + |body|, hex);
      var o := Interpret(tail, at + 1 + |body|, hex);
      assert o.writes != [] ==> o.writes[0] in o.writes;
    } else {
      EmptyArmSwallowed(items, at + 1, hex);
    }
  }

  /** The if line of a conditional is swallowed, whose first arm holds over nothing: the loop goes on
      to the other arms. */
  lemma EmptyArmSwallowed(items: seq<Item>, at: nat, hex: bv32)
    requires WellFormed(items) && items != [] && items[0].Block? && WellFormedItem(items[0])
    requires items[0].arms[0].body == [] && CheckCondition(items[0].arms[0].cond, hex)
    ensures
      var o := Interpret(AfterFirstArm(items), at + 1, hex);
      if SafeAfterNone(items, hex) then o == Interpret(Encode(items), at, hex)
      else o != Outcome(Meaning(items, at, hex), false)
  {
    hide *;
    EmptyArmOthers(items, hex);
    var arms, els := items[0].arms, items[0].els;
    var end, rest, more := arms[0].cond, Encode(items[1..]), arms[1..];
    var u := EncodeTail(more, els, end, ELSE_IF_MARK);
    var n := at + 1 + |u|;
    EmptyArmShape(items);
    EmptyArmRuns(items, at, hex);
    EmptyArmMeans(items, at, hex);
    if Selects(more, els, hex) {
      OthersSelected(more, els, end, items[1..], at + 1, hex);
    } else {
      TailUnselected(more, els, end, ELSE_IF_MARK, rest, at + 1, hex);
      EndTaken(end, items[1..], n - 1, hex);
    }
  }

  lemma OthersSelected(arms: seq<Arm>, els: Option<seq<Line>>, end: bv32, items: seq<Item>, at: nat, hex: bv32)
    requires WellFormedTail(arms, els) && Selects(arms, els, hex) && WellFormed(items)
    ensures
      var t := EncodeTail(arms, els, end, ELSE_IF_MARK);
      var o, n := Interpret(t + Encode(items), at, hex), at + |t|;
      if Idle(arms, els, hex) then o == Interpret(Encode(items), n, hex)
      else o != Outcome(Meaning(items, n, hex), false)
  {
    hide *;
    MarksDiffer();
    TailSelected(arms, els, end, ELSE_IF_MARK, Encode(items), at, hex);
    IdleWrites(arms, els, at, hex);
    TailAhead(arms, els, end, at, hex);
    var n := at + |EncodeTail(arms, els, end, ELSE_IF_MARK)|;
    MeaningAhead(items, n, hex);
    EarlierWrites(TailMeaning(arms, els, at, hex), Interpret(Encode(items), n, hex), Meaning(items, n, hex), n);
  }

  lemma MarksDiffer()
    ensures ELSE_IF_MARK != END_MARK && IF_MARK != END_MARK
  {
  }

  lemma EmptyArmOthers(items: seq<Item>, hex: bv32)
    requires WellFormed(items) && items != [] && items[0].Block? && WellFormedItem(items[0])
    requires items[0].arms[0].body == [] && CheckCondition(items[0].arms[0].cond, hex)
    ensures
      var Block(arms, els) := items[0];
      && arms != [] && arms[0].cond >= BRANCH && WellFormedTail(arms[1..], els) && WellFormed(items[1..])
      && (SafeAfterNone(items, hex) <==> Selects(arms[1..], els, hex) && Idle(arms[1..], els, hex))
      && ELSE_IF_MARK != END_MARK
  {
    hide CheckCondition, Selects, Idle, PlainBody;
    assert items[0].arms[0] in items[0].arms;
  }

  /** Writes that lie before everything a table means. */
  lemma EarlierWrites(w: seq<Write>, o: Outcome, m: seq<Write>, n: nat)
    requires forall x :: x in w ==> x.line < n
    requires forall x :: x in m ==> x.line >= n
    ensures if w == [] then After(w, o) == o else After(w, o) != Outcome(m, false)
  {
    if w == [] {
      assert w + o.writes == o.writes;
    } else {
      assert (w + o.writes)[0] == w[0] && w[0] in w;
    }
  }

  lemma EmptyArmShape(items: seq<Item>)
    requires WellFormed(items) && items != [] && items[0].Block? && WellFormedItem(items[0])
    requires items[0].arms[0].body == []
    ensures
      var Block(arms, els) := items[0];
      var u := EncodeTail(arms[1..], els, arms[0].cond, ELSE_IF_MARK);
      && AfterFirstArm(items) == u + Encode(items[1..])
      && Encode(items) == [Line(arms[0].cond, IF_MARK)] + AfterFirstArm(items)
      && |EncodeItem(items[0])| == 1 + |u|
  {
    hide Encode;
    EncodeUnfolds(items);
    TailUnfolds(items[0].arms, items[0].els, items[0].arms[0].cond, IF_MARK);
    assert [Line(items[0].arms[0].cond, IF_MARK)] + [] == [Line(items[0].arms[0].cond, IF_MARK)];
  }

  lemma EmptyArmRuns(items: seq<Item>, at: nat, hex: bv32)
    requires WellFormed(items) && items != [] && items[0].Block? && WellFormedItem(items[0])
    requires items[0].arms[0].body == [] && CheckCondition(items[0].arms[0].cond, hex)
    ensures
      var Block(arms, els) := items[0];
      var u := EncodeTail(arms[1..], els, arms[0].cond, ELSE_IF_MARK);
      Interpret(Encode(items), at, hex) == Interpret(Encode(items[1..]), at + 1 + |u|, hex)
  {
    hide *;
    EmptyArmOthers(items, hex);
    var arms, els := items[0].arms, items[0].els;
    var u := EncodeTail(arms[1..], els, arms[0].cond, ELSE_IF_MARK);
    EmptyArmShape(items);
    TailStarts(arms[1..], els, arms[0].cond);
    EndOfTail(arms[1..], els, arms[0].cond, ELSE_IF_MARK, Encode(items[1..]));
    TakenEmpty(arms[0].cond, u, Encode(items[1..]), at, hex);
  }

  lemma TakenEmpty(cond: bv32, tail: seq<Line>, rest: seq<Line>, at: nat, hex: bv32)
    requires cond >= BRANCH && CheckCondition(cond, hex)
    requires tail != [] && IsMarker(tail[0].v2) && ToEnd(tail + rest) == |tail| - 1
    ensures Interpret([Line(cond, IF_MARK)] + (tail + rest), at, hex) == Interpret(rest, at + 1 + |tail|, hex)
  {
    var line := [Line(cond, IF_MARK)];
    TakenArm(cond, IF_MARK, [], tail, rest, at, hex);
    hide CheckCondition, Interpret, ToEnd;
    assert line + [] + tail + rest == line + (tail + rest);
    EarlierWrites([], Interpret(rest, at + 1 + |tail|, hex), [], 0);
  }

  lemma MeaningOfBlock(items: seq<Item>, at: nat, hex: bv32)
    requires WellFormed(items) && items != [] && items[0].Block? && WellFormedItem(items[0])
    requires CheckCondition(items[0].arms[0].cond, hex)
    ensures Meaning(items, at, hex) ==
            Writes(items[0].arms[0].body, at + 1) + Meaning(items[1..], at + |EncodeItem(items[0])|, hex)
  {
    hide CheckCondition, EncodeTail, Writes;
  }

  lemma NoWrites(at: nat)
    ensures Writes([], at) == []
  {
  }

  lemma EmptyArmMeans(items: seq<Item>, at: nat, hex: bv32)
    requires WellFormed(items) && items != [] && items[0].Block? && WellFormedItem(items[0])
    requires items[0].arms[0].body == [] && CheckCondition(items[0].arms[0].cond, hex)
    ensures
      var Block(arms, els) := items[0];
      var u := EncodeTail(arms[1..], els, arms[0].cond, ELSE_IF_MARK);
      Meaning(items, at, hex) == Meaning(items[1..], at + 1 + |u|, hex)
  {
    EmptyArmShape(items);
    MeaningOfBlock(items, at, hex);
    NoWrites(at + 1);
    hide *;
    var m := Meaning(items[1..], at + |EncodeItem(items[0])|, hex);
    assert [] + m == m;
  }

  lemma {:induction false} IdleWrites(arms: seq<Arm>, els: Option<seq<Line>>, at: nat, hex: bv32)
    ensures Idle(arms, els, hex) <==> TailMeaning(arms, els, at, hex) == []
  {
    hide CheckCondition;
    if arms != [] && !CheckCondition(arms[0].cond, hex) {
      IdleWrites(arms[1..], els, at + 1 + |arms[0].body|, hex);
    }
  }

  /** What a conditional writes lies within it. */
  lemma {:induction false} TailAhead(arms: seq<Arm>, els: Option<seq<Line>>, end: bv32, at: nat, hex: bv32)
    ensures forall w :: w in TailMeaning(arms, els, at, hex) ==>
              at < w.line < at + |EncodeTail(arms, els, end, ELSE_IF_MARK)|
  {
    hide CheckCondition;
    if arms != [] && !CheckCondition(arms[0].cond, hex) {
      TailAhead(arms[1..], els, end, at + 1 + |arms[0].body|, hex);
    }
  }

  lemma {:induction false} MeaningAhead(items: seq<Item>, at: nat, hex: bv32)
    requires WellFormed(items)
    ensures forall w :: w in Meaning(items, at, hex) ==> w.line >= at
    ensures items != [] && items[0].Block? ==> forall w :: w in Meaning(items, at, hex) ==> w.line > at
  {
    hide CheckCondition, EncodeTail, TailMeaning;
    if items != [] {
      assert items[0] in items;
      EncodesSomething(items[0]);
      MeaningAhead(items[1..], at + |EncodeItem(items[0])|, hex);
      if items[0].Block? {
        TailAhead(items[0].arms, items[0].els, items[0].arms[0].cond, at, hex);
      }
    }
  }

  /** Taken for a branch that holds, an end line always does harm: the loop writes marker lines, or
      loses the last line it looks at, or reads past the end. */
  lemma EndTaken(cond: bv32, items: seq<Item>, at: nat, hex: bv32)
    requires cond >= BRANCH && CheckCondition(cond, hex) && WellFormed(items)
    ensures Interpret([Line(cond, END_MARK)] + Encode(items), at, hex) != Outcome(Meaning(items, at + 1, hex), false)
  {
    hide CheckCondition, ToMarker, ToEnd, Writes, Encode, Meaning;
    var t := Encode(items);
    var all := [Line(cond, END_MARK)] + t;
    assert all[0] == Line(cond, END_MARK) && all[1..] == t;
    if t != [] {
      var k := ToMarker(t);
      var e := ToEnd(all[1 + k..]);
      var later := Interpret(all[2 + k + e..], at + 2 + k + e, hex).writes;
      WritesAhead(all[2 + k + e..], at + 2 + k + e, hex);
      assert all[1..1 + k] == t[..k];
      Mismatch(items, at + 1, hex, later);
    }
  }

  lemma {:induction false} Mismatch(items: seq<Item>, at: nat, hex: bv32, later: seq<Write>)
    requires WellFormed(items) && Encode(items) != []
    requires forall w :: w in later ==> w.line > at + ToMarker(Encode(items))
    ensures Writes(Encode(items)[..ToMarker(Encode(items))], at) + later != Meaning(items, at, hex)
  {
    hide CheckCondition, EncodeTail, TailMeaning, Meaning, Writes;
    var t := Encode(items);
    var k := ToMarker(t);
    var w := Writes(t[..k], at) + later;
    assert items[0] in items;
    if items[0].Block? {
      MeaningAhead(items, at, hex);
      IfLineFirst(items);
      assert w[0].line == at;
    } else {
      var p, rest := items[0].pair, items[1..];
      FirstWrite(p, rest, at, hex);
      assert [Plain(p)] + rest == items;
      if k == 0 {
        assert w == later && (w != [] ==> w[0] in later);
      } else {
        FirstLine(p, rest);
        Mismatch(rest, at + 1, hex, later);
        WritesCons(t, k, at);
        Associates([Write(at, p.v1, p.v2)], Writes(t[1..][..k - 1], at + 1), later);
        TailsDiffer(Write(at, p.v1, p.v2), Writes(t[1..][..k - 1], at + 1) + later, Meaning(rest, at + 1, hex));
      }
    }
  }

  lemma FirstLine(p: Line, rest: seq<Item>)
    requires p.v1 < BRANCH && WellFormed(rest) && WellFormed([Plain(p)] + rest)
    ensures Encode([Plain(p)] + rest)[0] == p && Encode([Plain(p)] + rest)[1..] == Encode(rest)
  {
    assert ([Plain(p)] + rest)[1..] == rest;
  }

  lemma WritesCons(t: seq<Line>, k: nat, at: nat)
    requires 0 < k <= |t|
    ensures Writes(t[..k], at) == [Write(at, t[0].v1, t[0].v2)] + Writes(t[1..][..k - 1], at + 1)
  {
    assert t[..k][1..] == t[1..][..k - 1];
  }

  lemma TailsDiffer<T>(x: T, a: seq<T>, b: seq<T>)
    requires a != b
    ensures [x] + a != [x] + b
  {
    assert ([x] + a)[1..] == a && ([x] + b)[1..] == b;
  }

  lemma IfLineFirst(items: seq<Item>)
    requires WellFormed(items) && items != [] && items[0].Block?
    ensures |Encode(items)| >= 2 && Encode(items)[0].v2 == IF_MARK && ToMarker(Encode(items)) > 0
  {
    assert items[0] in items;
    EncodeUnfolds(items);
    TailStarts(items[0].arms[1..], items[0].els, items[0].arms[0].cond);
  }

  function AfterFirstArm(items: seq<Item>): seq<Line>
    requires WellFormed(items) && items != [] && items[0].Block? && WellFormedItem(items[0])
  {
    EncodeTail(items[0].arms[1..], items[0].els, items[0].arms[0].cond, ELSE_IF_MARK) + Encode(items[1..])
  }

  lemma BlockShape(items: seq<Item>, at: nat, hex: bv32)
    requires WellFormed(items) && items != [] && items[0].Block? && WellFormedItem(items[0])
    ensures
      var a, tail := items[0].arms[0], AfterFirstArm(items);
      && a.cond >= BRANCH && PlainBody(a.body)
      && tail != [] && IsMarker(tail[0].v2)
      && Encode(items) == [Line(a.cond, IF_MARK)] + a.body + tail
      && (CheckCondition(a.cond, hex) && a.body != [] ==>
            Meaning(items, at, hex) != [] && Meaning(items, at, hex)[0].line == at + 1)
  {
    hide CheckCondition, Writes, Encode;
    var arms, els := items[0].arms, items[0].els;
    assert arms[0] in arms;
    TailStarts(arms[1..], els, arms[0].cond);
    EncodeUnfolds(items);
    if CheckCondition(arms[0].cond, hex) && arms[0].body != [] {
      var w := Writes(arms[0].body, at + 1);
      assert TailMeaning(arms, els, at, hex) == w;
      assert Meaning(items, at, hex)[0] == w[0];
    }
  }

  lemma EncodeUnfolds(items: seq<Item>)
    requires WellFormed(items) && items != [] && items[0].Block? && WellFormedItem(items[0])
    ensures
      var Block(arms, els) := items[0];
      Encode(items) == [Line(arms[0].cond, IF_MARK)] + arms[0].body + AfterFirstArm(items)
  {
    hide EncodeTail, PlainBody;
    var arms, els := items[0].arms, items[0].els;
    var u := EncodeTail(arms[1..], els, arms[0].cond, ELSE_IF_MARK);
    TailUnfolds(arms, els, arms[0].cond, IF_MARK);
    Associates([Line(arms[0].cond, IF_MARK)] + arms[0].body, u, Encode(items[1..]));
  }

  lemma TailUnfolds(arms: seq<Arm>, els: Option<seq<Line>>, end: bv32, mark: bv32)
    requires arms != []
    ensures EncodeTail(arms, els, end, mark)
            == [Line(arms[0].cond, mark)] + arms[0].body + EncodeTail(arms[1..], els, end, ELSE_IF_MARK)
  {
  }

  /** The loop does exactly what the table means, without reading past its end, if and only if
      every conditional without an arm to take is one it survives. */
  lemma {:induction false} InterpretsExactly(items: seq<Item>, at: nat, hex: bv32)
    requires WellFormed(items)
    ensures Interpret(Encode(items), at, hex) == Outcome(Meaning(items, at, hex), false) <==> Survives(items, hex)
    decreases |items|
  {
    hide CheckCondition;
    if items != [] {
      hide Interpret;
      var rest := Encode(items[1..]);
      assert items[0] in items;
      match items[0] {
        case Plain(p) =>
          InterpretsExactly(items[1..], at + 1, hex);
          PlainStep(p, rest, at, hex);
          SameAfter([Write(at, p.v1, p.v2)], Interpret(rest, at + 1, hex), Meaning(items[1..], at + 1, hex));
        case Block(arms, els) =>
          InterpretsExactly(items[1..], at + |EncodeItem(items[0])|, hex);
          BlockExactly(items, at, hex);
      }
    }
  }

  lemma BlockExactly(items: seq<Item>, at: nat, hex: bv32)
    requires WellFormed(items) && items != [] && items[0].Block? && WellFormedItem(items[0])
    requires
      var n := at + |EncodeItem(items[0])|;
      Interpret(Encode(items[1..]), n, hex) == Outcome(Meaning(items[1..], n, hex), false)
      <==> Survives(items[1..], hex)
    ensures Interpret(Encode(items), at, hex) == Outcome(Meaning(items, at, hex), false) <==> Survives(items, hex)
  {
    hide *;
    var Block(arms, els) := items[0];
    BlockParts(items, at, hex);
    var rest, t := Encode(items[1..]), EncodeItem(items[0]);
    var n := at + |t|;
    if Selects(arms, els, hex) {
      TailSelected(arms, els, arms[0].cond, IF_MARK, rest, at, hex);
      SameAfter(TailMeaning(arms, els, at, hex), Interpret(rest, n, hex), Meaning(items[1..], n, hex));
    } else {
      TailUnselected(arms, els, arms[0].cond, IF_MARK, rest, at, hex);
      NoneTaken(arms, els, hex);
      AfterNone(arms[0].cond, items[1..], n - 1, hex);
      assert [] + Meaning(items[1..], n, hex) == Meaning(items[1..], n, hex);
    }
  }

  lemma BlockParts(items: seq<Item>, at: nat, hex: bv32)
    requires WellFormed(items) && items != [] && items[0].Block? && WellFormedItem(items[0])
    ensures
      var arms, els, rest := items[0].arms, items[0].els, items[1..];
      var t := EncodeItem(items[0]);
      && arms != [] && WellFormedTail(arms, els) && WellFormed(rest) && IF_MARK != END_MARK
      && t == EncodeTail(arms, els, arms[0].cond, IF_MARK) && |t| > 0
      && Encode(items) == t + Encode(rest)
      && Meaning(items, at, hex) == TailMeaning(arms, els, at, hex) + Meaning(rest, at + |t|, hex)
      && (Survives(items, hex) <==>
            if Selects(arms, els, hex) then Survives(rest, hex) else SafeAfterNone(rest, hex) && Survives(rest, hex))
  {
    hide CheckCondition, TailMeaning, Selects, SafeAfterNone, PlainBody;
  }

  lemma NoneTaken(arms: seq<Arm>, els: Option<seq<Line>>, hex: bv32)
    requires !Selects(arms, els, hex) && arms != [] && WellFormedTail(arms, els)
    ensures arms[0].cond >= BRANCH && !CheckCondition(arms[0].cond, hex)
  {
    hide CheckCondition;
    assert arms[0] in arms;
  }

  lemma SameAfter(w: seq<Write>, o: Outcome, m: seq<Write>)
    ensures After(w, o) == Outcome(w + m, false) <==> o == Outcome(m, false)
  {
    if After(w, o) == Outcome(w + m, false) {
      assert o.writes == (w + o.writes)[|w|..] == (w + m)[|w|..] == m;
    }
  }

  /** With an else arm in every conditional, as the shipped tables have, the loop is right on every
      board, interface and platform. */
  lemma ElseMakesRight(items: seq<Item>, at: nat, hex: bv32)
    requires WellFormed(items)
    requires forall x :: x in items && x.Block? ==> x.els.Some?
    ensures Interpret(Encode(items), at, hex) == Outcome(Meaning(items, at, hex), false)
  {
    ElseSurvives(items, hex);
    InterpretsExactly(items, at, hex);
  }

  lemma {:induction false} ElseSurvives(items: seq<Item>, hex: bv32)
    requires forall x :: x in items && x.Block? ==> x.els.Some?
    ensures Survives(items, hex)
  {
    if items != [] {
      ElseSurvives(items[1..], hex);
    }
  }

  /** The simplest table it gets wrong: a false if without an else loses the pair behind it. */
  lemma MissingElseLosesWrite()
    ensures
      var items := [Block([Arm(0xFF0F011F, [Line(3, 0x18C63)])], None),
                    Plain(Line(4, 0x210E7)), Plain(Line(9, 0x2044F))];
      WellFormed(items) && Interpret(Encode(items), 0, 0) != Outcome(Meaning(items, 0, 0), false)
  {
    var items := [Block([Arm(0xFF0F011F, [Line(3, 0x18C63)])], None), Plain(Line(4, 0x210E7)), Plain(Line(9, 0x2044F))];
    ShippedCondition(0);
    hide CheckCondition;
    assert !Selects(items[0].arms, items[0].els, 0);
    assert items[1..][0] == items[1];
    assert !SafeAfterNone(items[1..], 0);
    assert !Survives(items, 0);
    InterpretsExactly(items, 0, 0);
  }

  // ---------------------------------------------------------------------------
  // The loop itself
  // ---------------------------------------------------------------------------

  ghost function Lines(words: seq<bv32>): (t: seq<Line>)
    requires |words| % 2 == 0
    ensures |t| == |words| / 2
  {
    seq(|words| / 2, k requires 0 <= k < |words| / 2 => Line(words[2 * k], words[2 * k + 1]))
  }

  lemma LineAt(words: seq<bv32>, k: nat)
    requires |words| % 2 == 0 && k < |words| / 2
    ensures Lines(words)[k] == Line(words[2 * k], words[2 * k + 1])
  {
  }

  /** Steps from word `from`, line `l`, to the next marker line, or to the last line. */
  method SkipToMarker(table: seq<bv32>, from: nat, ghost l: nat) returns (i: nat)
    requires |table| % 2 == 0 && from == 2 * l && from < |table|
    ensures i == 2 * (l + ToMarker(Lines(table)[l..])) && i < |table|
  {
    hide Lines;
    ghost var t, j := Lines(table), l;
    LineAt(table, j);
    i := from;
    var v2 := table[i + 1];
    while !IsMarker(v2) && i < |table| - 2
      invariant i == 2 * j && l <= j < |t| && v2 == t[j].v2
      invariant j + ToMarker(t[j..]) == l + ToMarker(t[l..])
      decreases |table| - i
    {
      assert t[j..][1..] == t[j + 1..];
      i := i + 2;
      j := j + 1;
      LineAt(table, j);
      v2 := table[i + 1];
    }
  }

  lemma ToMarkerStep(t: seq<Line>, j: nat)
    requires j < |t|
    ensures ToMarker(t[j..]) == if IsMarker(t[j].v2) || j == |t| - 1 then 0 else 1 + ToMarker(t[j + 1..])
  {
    assert t[j..][1..] == t[j + 1..];
  }

  /** As SkipToMarker, writing every line it passes. */
  method ConfigureToMarker(table: seq<bv32>, from: nat, ghost l: nat) returns (i: nat, writes: seq<Write>)
    requires |table| % 2 == 0 && from == 2 * l && from < |table|
    ensures
      var t := Lines(table);
      var j := l + ToMarker(t[l..]);
      i == 2 * j && i < |table| && writes == Writes(t[l..j], l)
  {
    hide Writes, Lines, ToMarker;
    ghost var t, j := Lines(table), l;
    LineAt(table, j);
    i := from;
    var v1, v2 := table[i], table[i + 1];
    writes := [];
    assert Writes(t[l..l], l) == [];
    ToMarkerStep(t, j);
    while !IsMarker(v2) && i < |table| - 2
      invariant i == 2 * j && l <= j < |t| && Line(v1, v2) == t[j]
      invariant ToMarker(t[j..]) == if IsMarker(v2) || j == |t| - 1 then 0 else 1 + ToMarker(t[j + 1..])
      invariant j + ToMarker(t[j..]) == l + ToMarker(t[l..])
      invariant writes == Writes(t[l..j], l)
      decreases |table| - i
    {
      WritesGrow(t[l..j], Line(v1, v2), l);
      assert t[l..j + 1] == t[l..j] + [Line(v1, v2)];
      writes := writes + [Write(i / 2, v1, v2)];
      i := i + 2;
      j := j + 1;
      LineAt(table, j);
      ToMarkerStep(t, j);
      v1, v2 := table[i], table[i + 1];
    }
  }

  /** Steps from word `from`, line `l`, to the next end line, or to the last line. */
  method SkipToEnd(table: seq<bv32>, from: nat, ghost l: nat) returns (i: nat)
    requires |table| % 2 == 0 && from == 2 * l && from < |table|
    ensures i == 2 * (l + ToEnd(Lines(table)[l..])) && i < |table|
  {
    hide Lines;
    ghost var t, j := Lines(table), l;
    LineAt(table, j);
    i := from;
    var v2 := table[i + 1];
    while v2 != END_MARK && i < |table| - 2
      invariant i == 2 * j && l <= j < |t| && v2 == t[j].v2
      invariant j + ToEnd(t[j..]) == l + ToEnd(t[l..])
      decreases |table| - i
    {
      assert t[j..][1..] == t[j + 1..];
      i := i + 2;
      j := j + 1;
      LineAt(table, j);
      v2 := table[i + 1];
    }
  }

  /** ODM_ReadAndConfig_RadioA_1T_8723A and ODM_ReadAndConfig_MAC_REG_8723A over any table. */
  method ReadAndConfig(table: seq<bv32>, hex: bv32) returns (writes: seq<Write>, overrun: bool)
    requires |table| % 2 == 0
    ensures Outcome(writes, overrun) == Interpret(Lines(table), 0, hex)
  {
    hide CheckCondition, Interpret, ToMarker, ToEnd, Writes, Lines, After;
    ghost var t, l := Lines(table), 0;
    var i := 0;
    writes, overrun := [], false;
    assert t[0..] == t;
    AfterNothing(Interpret(t, 0, hex));
    while i < |table|
      invariant i == 2 * l && l <= |t| && !overrun
      invariant After(writes, Interpret(t[l..], l, hex)) == Interpret(t, 0, hex)
      decreases |t| - l
    {
      InterpretAt(t, l, hex);
      LineAt(table, l);
      var v1, v2 := table[i], table[i + 1];
      if v1 < BRANCH {
        AfterTwice(writes, [Write(l, v1, v2)], Interpret(t[l + 1..], l + 1, hex));
        writes := writes + [Write(i / 2, v1, v2)];
        l := l + 1;
      } else if i + 2 == |table| {
        // The first READ_NEXT_PAIR would read behind the table.
        AfterIs(writes, Outcome([], true));
        return writes, true;
      } else if !CheckCondition(v1, hex) {
        i := SkipToMarker(table, i + 2, l + 1);
        l := l + 1 + ToMarker(t[l + 1..]);
        i := i - 2;    // the marker line found is the next one looked at
      } else {
        var more;
        i, more := ConfigureToMarker(table, i + 2, l + 1);
        ghost var k := l + 1 + ToMarker(t[l + 1..]);
        i := SkipToEnd(table, i, k);
        l := k + ToEnd(t[k..]) + 1;
        AfterTwice(writes, more, Interpret(t[l..], l, hex));
        writes := writes + more;
      }
      i := i + 2;
    }
    InterpretAt(t, l, hex);
    AfterIs(writes, Outcome([], false));
  }

  lemma AfterNothing(o: Outcome)
    ensures After([], o) == o
  {
  }

  lemma AfterIs(w: seq<Write>, o: Outcome)
    requires o.writes == []
    ensures After(w, o) == Outcome(w, o.overrun)
  {
  }

  lemma AfterTwice(v: seq<Write>, w: seq<Write>, o: Outcome)
    ensures After(v, After(w, o)) == After(v + w, o)
  {
    Associates(v, w, o.writes);
  }

  /** One turn of the interpreter at line `l` of table `t`. */
  lemma InterpretAt(t: seq<Line>, l: nat, hex: bv32)
    requires l <= |t|
    ensures
      var here := Interpret(t[l..], l, hex);
      if l == |t| then here == Outcome([], false)
      else if t[l].v1 < BRANCH then here == After([Write(l, t[l].v1, t[l].v2)], Interpret(t[l + 1..], l + 1, hex))
      else if l + 1 == |t| then here == Outcome([], true)
      else
        var k := l + 1 + ToMarker(t[l + 1..]);
        if !CheckCondition(t[l].v1, hex) then here == Interpret(t[k..], k, hex)
        else
          var e := k + ToEnd(t[k..]);
          here == After(Writes(t[l + 1..k], l + 1), Interpret(t[e + 1..], e + 1, hex))
  {
    hide CheckCondition, ToMarker, ToEnd, Writes;
    if l + 1 < |t| {
      var u := t[l..];
      assert u[1..] == t[l + 1..];
      var k := ToMarker(u[1..]);
      assert u[1 + k..] == t[l + 1 + k..] && u[1..1 + k] == t[l + 1..l + 1 + k];
      var e := ToEnd(u[1 + k..]);
      assert u[2 + k + e..] == t[l + 2 + k + e..];
    } else if l < |t| {
      assert t[l..][1..] == t[l + 1..];
    }
  }

  lemma WritesGrow(body: seq<Line>, p: Line, at: nat)
    ensures Writes(body + [p], at) == Writes(body, at) + [Write(at + |body|, p.v1, p.v2)]
  {
  }
}
