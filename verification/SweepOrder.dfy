/** `next_rand` and `sweep_order`: a Fisher-Yates shuffle over a xorshift generator, reversed on odd trials. */
module SweepOrder {
  /** A 64-bit word as its bits, least significant first. */
  type Word = bits: seq<bool> | |bits| == 64 witness seq(64, i => false)

  const TWO_TO_THE_64: nat := 0x1_0000_0000_0000_0000
  const DEFAULT_SEED: nat := 0x9E37_79B9_7F4A_7C15
  const MULTIPLIER: nat := 0x2545_F491_4F6C_DD1D
  const CONCURRENCY_LEVELS: seq<nat> := [4, 16, 64, 128]

  // Words and numbers

  function Value(bits: seq<bool>): nat {
    if bits == [] then 0 else (if bits[0] then 1 else 0) + 2 * Value(bits[1..])
  }

  function Bits(n: nat, length: nat): (bits: seq<bool>)
    ensures |bits| == length
  {
    if length == 0 then [] else [n % 2 == 1] + Bits(n / 2, length - 1)
  }

  /** Words stand for their values: reading a word off its value gives it back. */
  lemma {:induction false} BitsOfValue(bits: seq<bool>)
    ensures Bits(Value(bits), |bits|) == bits
  {
    if bits == [] {
    } else {
      BitsOfValue(bits[1..]);
      assert Value(bits) / 2 == Value(bits[1..]) && (Value(bits) % 2 == 1) == bits[0];
    }
  }

  function Power2(k: nat): nat {
    if k == 0 then 1 else 2 * Power2(k - 1)
  }

  /** The bits of a number have its value, up to as many bits as are kept. */
  lemma {:induction false} ValueOfBits(n: nat, length: nat)
    ensures Power2(length) > 0 && Value(Bits(n, length)) == n % Power2(length)
  {
    if length == 0 {
    } else {
      ValueOfBits(n / 2, length - 1);
      HalvedRemainder(n, Power2(length - 1));
    }
  }

  lemma HalvedRemainder(n: nat, half: nat)
    requires half > 0
    ensures n % (2 * half) == n % 2 + 2 * (n / 2 % half)
  {
    var quotient, rest := n / 2 / half, n / 2 % half;
    assert n / 2 == quotient * half + rest;
    assert n == 2 * half * quotient + (n % 2 + 2 * rest);
    RemainderIs(n, 2 * half, quotient, n % 2 + 2 * rest);
  }

  lemma RemainderIs(n: nat, divisor: nat, quotient: nat, rest: nat)
    requires rest < divisor && n == divisor * quotient + rest
    ensures n % divisor == rest
  {
    OneRemainder(divisor, quotient - n / divisor, rest, n % divisor);
  }

  lemma OneRemainder(divisor: nat, more: int, rest: nat, other: nat)
    requires rest < divisor && other < divisor && divisor * more == other - rest
    ensures rest == other
  {
    if more > 0 {
      TimesAtLeast(divisor, more);
    } else if more < 0 {
      TimesAtLeast(divisor, -more);
    }
  }

  lemma TimesAtLeast(a: nat, k: nat)
    requires k > 0
    ensures a * k >= a
  {
  }

  lemma {:induction false} PowersAdd(a: nat, b: nat)
    ensures Power2(a + b) == Power2(a) * Power2(b)
  {
    if a == 0 {
    } else {
      PowersAdd(a - 1, b);
    }
  }

  lemma WordSize()
    ensures Power2(64) == TWO_TO_THE_64
  {
    PowersAdd(8, 8);
    PowersAdd(16, 16);
    PowersAdd(32, 32);
    assert Power2(8) == 256;
  }

  function Wrapped(n: nat): Word {
    Bits(n % TWO_TO_THE_64, 64)
  }

  lemma BitsHold(n: nat, length: nat)
    requires n < Power2(length)
    ensures Value(Bits(n, length)) == n
  {
    ValueOfBits(n, length);
  }

  /** Wrapping keeps the remainder modulo 2^64, so the value of a product of words is the wrapped product. */
  lemma WrappingKeepsTheRemainder(n: nat)
    ensures Value(Wrapped(n)) == n % TWO_TO_THE_64
  {
    WordSize();
    BitsHold(n % TWO_TO_THE_64, 64);
  }

  /** A word is what its value wraps to: words are the numbers modulo 2^64. */
  lemma WordIsWrappedValue(word: Word)
    ensures Value(word) < TWO_TO_THE_64 && Wrapped(Value(word)) == word
  {
    WordSize();
    BitsOfValue(word);
    ValueOfBits(Value(word), 64);
  }

  function Zero(): Word {
    seq(64, i => false)
  }

  function Xor(a: Word, b: Word): Word {
    seq(64, i requires 0 <= i < 64 => a[i] != b[i])
  }

  function ShiftRight(x: Word, k: nat): Word {
    seq(64, i requires 0 <= i < 64 => i + k < 64 && x[i + k])
  }

  function ShiftLeft(x: Word, k: nat): Word {
    seq(64, i requires 0 <= i < 64 => i >= k && x[i - k])
  }

  // The generator

  function NextState(state: Word): Word {
    var a := Xor(state, ShiftRight(state, 12));
    var b := Xor(a, ShiftLeft(a, 25));
    Xor(b, ShiftRight(b, 27))
  }

  /** The output for an updated state, by a multiplication that wraps around. */
  function Output(state: Word): nat {
    Value(state) * MULTIPLIER % TWO_TO_THE_64
  }

  // Undoing a step: the bits a shift does not reach are unchanged, the others follow from them

  function UndoRightBit(y: Word, k: nat, i: nat): bool
    requires k > 0 && i < 64
    decreases 64 - i
  {
    if i + k < 64 then y[i] != UndoRightBit(y, k, i + k) else y[i]
  }

  function UndoLeftBit(y: Word, k: nat, i: nat): bool
    requires k > 0 && i < 64
  {
    if i >= k then y[i] != UndoLeftBit(y, k, i - k) else y[i]
  }

  function UndoRight(y: Word, k: nat): Word
    requires k > 0
  {
    seq(64, i requires 0 <= i < 64 => UndoRightBit(y, k, i))
  }

  function UndoLeft(y: Word, k: nat): Word
    requires k > 0
  {
    seq(64, i requires 0 <= i < 64 => UndoLeftBit(y, k, i))
  }

  lemma {:induction false} RightBitUndone(x: Word, k: nat, i: nat)
    requires k > 0 && i < 64
    ensures UndoRightBit(Xor(x, ShiftRight(x, k)), k, i) == x[i]
    decreases 64 - i
  {
    if i + k < 64 {
      RightBitUndone(x, k, i + k);
    }
  }

  lemma {:induction false} LeftBitUndone(x: Word, k: nat, i: nat)
    requires k > 0 && i < 64
    ensures UndoLeftBit(Xor(x, ShiftLeft(x, k)), k, i) == x[i]
  {
    if i >= k {
      LeftBitUndone(x, k, i - k);
    }
  }

  lemma RightUndone(x: Word, k: nat)
    requires k > 0
    ensures UndoRight(Xor(x, ShiftRight(x, k)), k) == x
    ensures Xor(UndoRight(x, k), ShiftRight(UndoRight(x, k), k)) == x
  {
    forall i | 0 <= i < 64
      ensures UndoRight(Xor(x, ShiftRight(x, k)), k)[i] == x[i]
    {
      RightBitUndone(x, k, i);
    }
  }

  lemma LeftUndone(x: Word, k: nat)
    requires k > 0
    ensures UndoLeft(Xor(x, ShiftLeft(x, k)), k) == x
    ensures Xor(UndoLeft(x, k), ShiftLeft(UndoLeft(x, k), k)) == x
  {
    forall i | 0 <= i < 64
      ensures UndoLeft(Xor(x, ShiftLeft(x, k)), k)[i] == x[i]
    {
      LeftBitUndone(x, k, i);
    }
  }

  function PreviousState(state: Word): Word {
    UndoRight(UndoLeft(UndoRight(state, 27), 25), 12)
  }

  /** The state update is a bijection on 64-bit words. */
  lemma StateUpdateIsBijective(x: Word)
    ensures PreviousState(NextState(x)) == x && NextState(PreviousState(x)) == x
  {
    var a := Xor(x, ShiftRight(x, 12));
    var b := Xor(a, ShiftLeft(a, 25));
    RightUndone(x, 12);
    LeftUndone(a, 25);
    RightUndone(b, 27);
    var c := UndoRight(x, 27);
    RightUndone(x, 27);
    LeftUndone(c, 25);
    RightUndone(UndoLeft(c, 25), 12);
  }

  function Iterated<S>(step: S -> S, s: S, n: nat): S {
    if n == 0 then s else step(Iterated(step, s, n - 1))
  }

  /** A point that only itself steps to is never reached from elsewhere. */
  lemma {:induction false} IteratesAvoid<S(!new)>(step: S -> S, fixed: S, s: S, n: nat)
    requires (forall x :: step(x) == fixed ==> x == fixed) && s != fixed
    ensures Iterated(step, s, n) != fixed
  {
    if n == 0 {
    } else {
      IteratesAvoid(step, fixed, s, n - 1);
    }
  }

  function StateAfter(state: Word, n: nat): Word {
    Iterated(NextState, state, n)
  }

  lemma ZeroStaysZero()
    ensures NextState(Zero()) == Zero()
  {
    assert Xor(Zero(), ShiftRight(Zero(), 12)) == Zero();
    assert Xor(Zero(), ShiftLeft(Zero(), 25)) == Zero();
    assert Xor(Zero(), ShiftRight(Zero(), 27)) == Zero();
  }

  lemma OnlyZeroStepsToZero(x: Word)
    requires NextState(x) == Zero()
    ensures x == Zero()
  {
    ZeroStaysZero();
    StateUpdateIsBijective(x);
    StateUpdateIsBijective(Zero());
  }

  lemma ZeroStepsOnlyToZero(x: Word)
    ensures NextState(x) == Zero() <==> x == Zero()
  {
    ZeroStaysZero();
    if NextState(x) == Zero() {
      OnlyZeroStepsToZero(x);
    }
  }

  /** Updates the state in place; the old state can be recovered, and only zero leads to zero. */
  method NextRand(state: Word) returns (r: nat, next: Word)
    ensures next == NextState(state) && r == Output(next)
    ensures PreviousState(next) == state
    ensures next == Zero() <==> state == Zero()
  {
    var x := state;
    x := Xor(x, ShiftRight(x, 12));
    x := Xor(x, ShiftLeft(x, 25));
    x := Xor(x, ShiftRight(x, 27));
    next := x;
    r := Value(x) * MULTIPLIER % TWO_TO_THE_64;
    StateUpdateIsBijective(state);
    ZeroStepsOnlyToZero(state);
  }

  /** A state that is not zero never becomes zero. */
  lemma StatesStayNonZero(state: Word, n: nat)
    requires state != Zero()
    ensures StateAfter(state, n) != Zero()
  {
    forall x | NextState(x) == Zero()
      ensures x == Zero()
    {
      OnlyZeroStepsToZero(x);
    }
    IteratesAvoid(NextState, Zero(), state, n);
  }

  // The shuffle

  function Swap(s: seq<nat>, i: nat, j: nat): (r: seq<nat>)
    requires i < |s| && j < |s|
    ensures |r| == |s|
  {
    s[i := s[j]][j := s[i]]
  }

  function Sampled<S, O>(step: S -> S, output: S -> O, s: S, n: nat): (samples: seq<O>)
    ensures |samples| == n
  {
    seq(n, i requires 0 <= i < n => output(Iterated(step, s, i + 1)))
  }

  lemma {:induction false} IteratedShifts<S>(step: S -> S, s: S, n: nat)
    ensures Iterated(step, step(s), n) == Iterated(step, s, n + 1)
  {
    if n == 0 {
    } else {
      IteratedShifts(step, s, n - 1);
    }
  }

  /** The first sample, and those after one step. */
  lemma SampledOneByOne<S, O>(step: S -> S, output: S -> O, s: S, next: S, n: nat)
    requires n > 0 && next == step(s)
    ensures Sampled(step, output, s, n) == [output(next)] + Sampled(step, output, next, n - 1)
  {
    IteratedShifts(step, s, 0);
    forall i | 1 <= i < n
      ensures Sampled(step, output, s, n)[i] == Sampled(step, output, next, n - 1)[i - 1]
    {
      IteratedShifts(step, s, i);
    }
  }

  /** The next `n` outputs of the generator. */
  function Draws(state: Word, n: nat): (draws: seq<nat>)
    ensures |draws| == n
  {
    Sampled(NextState, Output, state, n)
  }

  /** One swap for each draw, at the indices from the number of draws down to 1. */
  function Shuffle(levels: seq<nat>, draws: seq<nat>): (r: seq<nat>)
    requires |draws| < |levels| || draws == []
    ensures |r| == |levels|
    decreases |draws|
  {
    if draws == [] then levels
    else Shuffle(Swap(levels, |draws|, draws[0] % (|draws| + 1)), draws[1..])
  }

  function Reversed(s: seq<nat>): (r: seq<nat>)
    ensures |r| == |s| && forall k | 0 <= k < |s| :: r[k] == s[|s| - 1 - k]
  {
    seq(|s|, k requires 0 <= k < |s| => s[|s| - 1 - k])
  }

  /** The same for both trials of a pair; a seed that cancels out is replaced. */
  function StartState(seed: Word, trial: nat): Word {
    var state := Xor(seed, Wrapped(trial / 2 * DEFAULT_SEED));
    if state == Zero() then Wrapped(DEFAULT_SEED) else state
  }

  lemma SeedIsNotZero()
    ensures Wrapped(DEFAULT_SEED) != Zero()
  {
    assert Wrapped(DEFAULT_SEED)[0] == (DEFAULT_SEED % TWO_TO_THE_64 % 2 == 1);
  }

  /** Whatever the seed, the generator of a sweep is never in the state that yields nothing but zeros. */
  lemma SweepStatesAreNonZero(seed: Word, trial: nat, n: nat)
    ensures StateAfter(StartState(seed, trial), n) != Zero()
  {
    SeedIsNotZero();
    StatesStayNonZero(StartState(seed, trial), n);
  }

  /** The order of a trial: the shuffle of its pair, reversed on odd trials. */
  function Order(seed: Word, trial: nat): (order: seq<nat>)
    ensures |order| == |CONCURRENCY_LEVELS|
  {
    OrderFrom(CONCURRENCY_LEVELS, Draws(StartState(seed, trial), |CONCURRENCY_LEVELS| - 1), trial % 2 == 1)
  }

  function OrderFrom(levels: seq<nat>, draws: seq<nat>, odd: bool): (order: seq<nat>)
    requires |draws| < |levels| || draws == []
    ensures |order| == |levels|
  {
    if odd then Reversed(Shuffle(levels, draws)) else Shuffle(levels, draws)
  }

  /** Swaps and reverses the levels in place. */
  method SweepOrder(seed: Word, trial: nat) returns (levels: array<nat>)
    ensures fresh(levels) && levels[..] == Order(seed, trial)
  {
    var n := |CONCURRENCY_LEVELS|;
    levels := new nat[n](k requires 0 <= k < |CONCURRENCY_LEVELS| => CONCURRENCY_LEVELS[k]);
    var state := StartState(seed, trial);
    ghost var start := state;
    assert levels[..] == CONCURRENCY_LEVELS;
    var i := n - 1;
    while i > 0
      invariant 0 <= i < n == levels.Length
      invariant Shuffle(levels[..], Draws(state, i)) == Shuffle(CONCURRENCY_LEVELS, Draws(start, n - 1))
    {
      ghost var before := levels[..];
      var r, next := NextRand(state);
      var j := r % (i + 1);
      levels[i], levels[j] := levels[j], levels[i];
      assert levels[..] == Swap(before, i, j);
      SampledOneByOne(NextState, Output, state, next, i);
      state := next;
      i := i - 1;
    }
    if trial % 2 == 1 {
      ReverseInPlace(levels);
    }
  }

  method ReverseInPlace(a: array<nat>)
    modifies a
    ensures a[..] == Reversed(old(a[..]))
  {
    var lo := 0;
    while lo < a.Length / 2
      invariant 0 <= lo <= a.Length / 2
      invariant forall k | 0 <= k < lo || a.Length - lo <= k < a.Length :: a[k] == old(a[a.Length - 1 - k])
      invariant forall k | lo <= k < a.Length - lo :: a[k] == old(a[k])
    {
      var hi := a.Length - 1 - lo;
      a[lo], a[hi] := a[hi], a[lo];
      lo := lo + 1;
    }
  }

  // What the orders are for

  lemma SwapPermutes(s: seq<nat>, i: nat, j: nat)
    requires i < |s| && j < |s|
    ensures multiset(Swap(s, i, j)) == multiset(s)
  {
  }

  /** Whatever is drawn, the shuffle is a permutation. */
  lemma {:induction false} ShufflePermutes(levels: seq<nat>, draws: seq<nat>)
    requires |draws| < |levels| || draws == []
    ensures multiset(Shuffle(levels, draws)) == multiset(levels)
    decreases |draws|
  {
    if draws == [] {
    } else {
      var j := draws[0] % (|draws| + 1);
      SwapPermutes(levels, |draws|, j);
      ShufflePermutes(Swap(levels, |draws|, j), draws[1..]);
    }
  }

  lemma {:induction false} ReversedPermutes(s: seq<nat>)
    ensures multiset(Reversed(s)) == multiset(s)
  {
    if s == [] {
      assert Reversed(s) == [];
    } else {
      ReversedPermutes(s[1..]);
      assert Reversed(s) == Reversed(s[1..]) + [s[0]];
      assert s == [s[0]] + s[1..];
    }
  }

  lemma OrderFromPermutes(levels: seq<nat>, draws: seq<nat>, odd: bool)
    requires |draws| < |levels| || draws == []
    ensures multiset(OrderFrom(levels, draws, odd)) == multiset(levels)
  {
    ShufflePermutes(levels, draws);
    ReversedPermutes(Shuffle(levels, draws));
  }

  /** Every order is a permutation of the levels. */
  lemma OrdersArePermutations(seed: Word, trial: nat)
    ensures multiset(Order(seed, trial)) == multiset(CONCURRENCY_LEVELS)
  {
    OrderFromPermutes(CONCURRENCY_LEVELS, Draws(StartState(seed, trial), |CONCURRENCY_LEVELS| - 1), trial % 2 == 1);
  }

  /** The two trials of a pair run the levels in opposite orders, so the two positions of a level add up to the
      same number for every level. */
  lemma PairsAreMirrored(seed: Word, k: nat, i: nat, j: nat)
    requires i < |CONCURRENCY_LEVELS| && j < |CONCURRENCY_LEVELS|
    ensures Order(seed, 2 * k + 1) == Reversed(Order(seed, 2 * k))
    ensures Order(seed, 2 * k)[i] == Order(seed, 2 * k + 1)[j] <==> i + j == |CONCURRENCY_LEVELS| - 1
  {
    assert (2 * k) / 2 == k == (2 * k + 1) / 2;
    OrdersArePermutations(seed, 2 * k);
    LevelsAreDistinct();
    MirroredPositions(Order(seed, 2 * k), CONCURRENCY_LEVELS, i, j);
  }

  lemma MirroredPositions(order: seq<nat>, levels: seq<nat>, i: nat, j: nat)
    requires multiset(order) == multiset(levels) && |order| == |levels| && forall x :: multiset(levels)[x] <= 1
    requires i < |order| && j < |order|
    ensures order[i] == Reversed(order)[j] <==> i + j == |levels| - 1
  {
    if i != |order| - 1 - j {
      PermutationsAreDistinct(order, levels, i, |order| - 1 - j);
    }
  }

  lemma LevelsAreDistinct()
    ensures forall x :: multiset(CONCURRENCY_LEVELS)[x] <= 1
  {
  }

  /** A permutation of distinct elements has distinct elements. */
  lemma PermutationsAreDistinct(s: seq<nat>, t: seq<nat>, i: nat, j: nat)
    requires multiset(s) == multiset(t) && (forall x :: multiset(t)[x] <= 1)
    requires i < |s| && j < |s| && i != j
    ensures s[i] != s[j]
  {
    var lo, hi := if i < j then i else j, if i < j then j else i;
    assert s == s[..lo] + [s[lo]] + s[lo + 1..hi] + [s[hi]] + s[hi + 1..];
    assert multiset(s)[s[lo]] >= if s[lo] == s[hi] then 2 else 1;
  }
}
