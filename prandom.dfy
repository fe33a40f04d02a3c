/** The xorshift32 generator with rejection (util/prandom.h).  The source's
    `next` repeats the xorshift step until the state drops below `kMaxNext`;
    nothing bounds the number of rounds, so the model's `Next` takes the
    number of rounds it may spend and reports `None` when they run out. */
module PRandom {
  import opened Wrappers

  /** `kMaxNext`. */
  const K_MAX_NEXT: bv32 := 0x0fff_ffff
  /** The default seed, also used in place of a zero seed. */
  const DEFAULT_SEED: bv32 := 0xdead_beef

  /** One xorshift32 step, shifts 13, 17 and 5. */
  function XorShift(x: bv32): (r: bv32)
    ensures x == 0 ==> r == 0
  {
    var a := x ^ (x << 13);
    var b := a ^ (a >> 17);
    b ^ (b << 5)
  }

  /** Each of the three steps is invertible, so only zero maps to zero. */
  lemma XorShiftNonzero(x: bv32)
    ensures x != 0 ==> XorShift(x) != 0
  {
    if x != 0 {
      var a := x ^ (x << 13);
      ShiftLeft13Nonzero(x);
      var b := a ^ (a >> 17);
      ShiftRight17Nonzero(a);
      ShiftLeft5Nonzero(b);
    }
  }

  lemma ShiftLeft13Nonzero(x: bv32)
    requires x != 0
    ensures x ^ (x << 13) != 0
  {
  }

  lemma ShiftRight17Nonzero(x: bv32)
    requires x != 0
    ensures x ^ (x >> 17) != 0
  {
  }

  lemma ShiftLeft5Nonzero(x: bv32)
    requires x != 0
    ensures x ^ (x << 5) != 0
  {
  }

  /** The outcome of at most `rounds` rounds of `next` from state `s`: the
      value drawn, if any, and the state left behind. */
  function Draw(s: bv32, rounds: nat): (r: (Option<bv32>, bv32))
    ensures r.0.Some? ==> r.0.value < K_MAX_NEXT && r.1 == r.0.value
    ensures r.0.None? ==> K_MAX_NEXT <= r.1 || (rounds == 0 && r.1 == s)
    ensures s != 0 ==> r.1 != 0
    decreases rounds
  {
    if rounds == 0 then (None, s)
    else
      var x := XorShift(s);
      XorShiftNonzero(s);
      if x < K_MAX_NEXT then (Some(x), x) else Draw(x, rounds - 1)
  }

  class Crandom {
    /** `state_`, never zero. */
    var state: bv32

    predicate Valid()
      reads this
    {
      state != 0
    }

    /** `Crandom(seed)`: a zero seed would make xorshift stick at zero. */
    constructor (seed: bv32)
      ensures Valid()
      ensures state == if seed != 0 then seed else DEFAULT_SEED
    {
      state := if seed != 0 then seed else DEFAULT_SEED;
    }

    /** `next`, spending at most `rounds` rounds of the do-while loop. */
    method Next(rounds: nat) returns (r: Option<bv32>)
      requires Valid()
      modifies this
      ensures Valid()
      ensures (r, state) == Draw(old(state), rounds)
    {
      var left: nat := rounds;
      while left > 0
        invariant Valid()
        invariant left <= rounds
        invariant Draw(old(state), rounds) == Draw(state, left)
        decreases left
      {
        var x := XorShift(state);
        XorShiftNonzero(state);
        state := x;
        if x < K_MAX_NEXT {
          return Some(x);
        }
        left := left - 1;
      }
      return None;
    }
  }
}
