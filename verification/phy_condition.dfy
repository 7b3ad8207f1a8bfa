/**
  What the condition word of a register table says, byte by byte (CheckCondition in
  hal/HalHWImg8723A_RF.c).
 */
module PhyCondition {
  import opened PhyTable

  /** The bit is set in both. */
  predicate Both(a: bv32, b: bv32, bit: bv32) {
    a & bit == bit && b & bit == bit
  }

  predicate ShareBit(a: bv32, b: bv32) {
    || Both(a, b, 1) || Both(a, b, 2) || Both(a, b, 4) || Both(a, b, 8)
    || Both(a, b, 16) || Both(a, b, 32) || Both(a, b, 64) || Both(a, b, 128)
  }

  lemma SharedBits(a: bv32, b: bv32)
    requires b <= 0xFF
    ensures ShareBit(a, b) <==> a & b != 0
  {
  }

  lemma OneByte(w: bv32)
    ensures InterfaceOf(w) <= 0xFF && PlatformOf(w) <= 0xFF
  {
  }

  /** A condition word keeps off the board it names, if it names one; asks for one of the interfaces it has a
      bit for, unless it is 7; and for one of the platforms it has a bit for, unless that is 15.
      0xCDCDCDCD holds always. */
  lemma ConditionHolds(condition: bv32, hex: bv32)
    ensures CheckCondition(condition, hex) <==>
              || condition == BRANCH
              || (&& (BoardOf(condition) == 0 || BoardOf(hex) != BoardOf(condition))
                  && (InterfaceOf(condition) == 7 || ShareBit(InterfaceOf(hex), InterfaceOf(condition)))
                  && (PlatformOf(condition) == 15 || ShareBit(PlatformOf(hex), PlatformOf(condition))))
  {
    hide BoardOf, InterfaceOf, PlatformOf, ShareBit;
    OneByte(condition);
    SharedBits(InterfaceOf(hex), InterfaceOf(condition));
    SharedBits(PlatformOf(hex), PlatformOf(condition));
  }
}
