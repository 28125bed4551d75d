/** Flag words and `bitmask_choose` of eq.c. A flag word is the set of the positions of its 1 bits,
    so `|` is union, `&` intersection, the population count the cardinality, and find-first-set the
    least member. */
module Bitmask {

  predicate IsLowest(mask: set<nat>, bit: nat) {
    bit in mask && forall b :: b in mask ==> bit <= b
  }

  lemma {:induction false} LowestExists(mask: set<nat>)
    requires mask != {}
    ensures exists bit :: IsLowest(mask, bit)
  {
    var bit :| bit in mask;
    if mask == {bit} {
      assert IsLowest(mask, bit);
    } else {
      LowestExists(mask - {bit});
      var other :| IsLowest(mask - {bit}, other);
      var low := if bit <= other then bit else other;
      assert forall b :: b in mask ==> b == bit || b in mask - {bit};
      assert IsLowest(mask, low);
    }
  }

  /** `__builtin_ffs(mask) - 1` */
  function Lowest(mask: set<nat>): (bit: nat)
    requires mask != {}
    ensures IsLowest(mask, bit)
  {
    LowestExists(mask);
    var bit :| bit in mask && IsLowest(mask, bit);
    bit
  }

  ghost function Below(mask: set<nat>, bit: nat): set<nat> {
    set b | b in mask && b < bit
  }

  /** The 1 bit that has `index` 1 bits below it. */
  ghost predicate HasRank(mask: set<nat>, bit: nat, index: nat) {
    bit in mask && |Below(mask, bit)| == index
  }

  /** Clears the lowest bit `rand() % popcount` times and takes the lowest bit that is left. Callers
      never pass zero (there the source asserts); `draw` is what `rand()` returned. */
  method BitmaskChoose(mask: set<nat>, draw: nat) returns (chosen: nat)
    requires mask != {}
    ensures chosen == NthBit(mask, draw % |mask|)
    ensures HasRank(mask, chosen, draw % |mask|)
  {
    var index := draw % |mask|;
    var left := mask;
    for i := 0 to index
      invariant |left| == |mask| - i
      invariant NthBit(mask, index) == NthBit(left, index - i)
    {
      left := left - {Lowest(left)};
    }
    chosen := Lowest(left);
    NthBitRank(mask, index);
  }

  function NthBit(mask: set<nat>, index: nat): nat
    requires index < |mask|
  {
    if index == 0 then Lowest(mask) else NthBit(mask - {Lowest(mask)}, index - 1)
  }

  lemma {:induction false} NthBitRank(mask: set<nat>, index: nat)
    requires index < |mask|
    ensures HasRank(mask, NthBit(mask, index), index)
  {
    var low := Lowest(mask);
    if index == 0 {
      assert Below(mask, low) == {};
    } else {
      NthBitRank(mask - {low}, index - 1);
      var bit := NthBit(mask, index);
      assert Below(mask, bit) == Below(mask - {low}, bit) + {low};
    }
  }

  /** No allowed flag is out of reach: every 1 bit is chosen by some value of `rand()`. */
  lemma {:induction false} EveryBitIsChosen(mask: set<nat>, bit: nat) returns (index: nat)
    requires bit in mask
    ensures index < |mask| && NthBit(mask, index) == bit
  {
    var low := Lowest(mask);
    if bit == low {
      index := 0;
    } else {
      index := EveryBitIsChosen(mask - {low}, bit);
      index := index + 1;
    }
  }
}
