// The xoshiro256** generator behind the order bots: seeding by splitmix64 and the state step,
// which has an inverse, so that the state never becomes all zero and runs in pure cycles.
module Xoshiro {

  datatype State = State(a: bv64, b: bv64, c: bv64, d: bv64)

  const ZERO := State(0, 0, 0, 0)

  function Xor(x: bv64, y: bv64): bv64 { x ^ y }
  function Shift(x: bv64): bv64 { x << 17 }
  function Rot(x: bv64): bv64 { (x << 45) | (x >> 19) }

  /** One step of the state. */
  function Step(s: State): State {
    var c, d := Xor(s.c, s.a), Xor(s.d, s.b);
    State(Xor(s.a, d), Xor(s.b, c), Xor(c, Shift(s.b)), Rot(d))
  }

  function Unrot(x: bv64): bv64 { (x << 19) | (x >> 45) }

  /** Undoes `x ^ (x << 17)`. */
  function Unshift(x: bv64): bv64 { x ^ (x << 17) ^ (x << 34) ^ (x << 51) }

  /** The step taken back. */
  function Previous(s: State): State {
    var d := Unrot(s.d);
    var a, b := Xor(s.a, d), Unshift(Xor(s.b, s.c));
    State(a, b, Xor(Xor(s.b, b), a), Xor(d, b))
  }

  lemma RotBack(x: bv64)
    ensures Unrot(Rot(x)) == x && Rot(Unrot(x)) == x
  {}

  lemma XorBack(x: bv64, y: bv64)
    ensures Xor(Xor(x, y), y) == x
  {}

  lemma XorFirst(x: bv64, y: bv64)
    ensures Xor(Xor(x, y), x) == y
  {}

  lemma UnshiftLiteral(b: bv64, c: bv64)
    ensures Unshift((b ^ c) ^ (c ^ (b << 17))) == b
  {}

  lemma UnshiftBack(b: bv64, c: bv64)
    ensures Unshift(Xor(Xor(b, c), Xor(c, Shift(b)))) == b
  {
    assert Unshift(Xor(Xor(b, c), Xor(c, Shift(b)))) == Unshift((b ^ c) ^ (c ^ (b << 17))) by {
      assert Xor(Xor(b, c), Xor(c, Shift(b))) == Xor(b ^ c, c ^ (b << 17)) by {
        assert Xor(b, c) == b ^ c;
        assert Xor(c, Shift(b)) == c ^ (b << 17) by { assert Shift(b) == b << 17; }
      }
    }
    UnshiftLiteral(b, c);
  }

  lemma PreviousStep(s: State)
    ensures Previous(Step(s)) == s
  {
    var c, d := Xor(s.c, s.a), Xor(s.d, s.b);
    RotBack(d);
    UnshiftBack(s.b, c);
    XorBack(s.a, d);
    XorBack(s.c, s.a);
    XorBack(s.d, s.b);
    XorFirst(s.b, c);
  }

  lemma XorFront(x: bv64, y: bv64)
    ensures Xor(y, Xor(x, y)) == x
  {}

  lemma ShiftLiteral(z: bv64)
    ensures Xor(z ^ (z << 17) ^ (z << 34) ^ (z << 51), (z ^ (z << 17) ^ (z << 34) ^ (z << 51)) << 17) == z
  {}

  lemma ShiftUnshift(z: bv64)
    ensures Xor(Unshift(z), Shift(Unshift(z))) == z
  {
    assert Xor(Unshift(z), Shift(Unshift(z)))
        == Xor(z ^ (z << 17) ^ (z << 34) ^ (z << 51), (z ^ (z << 17) ^ (z << 34) ^ (z << 51)) << 17) by {
      assert Unshift(z) == z ^ (z << 17) ^ (z << 34) ^ (z << 51);
      assert Shift(z ^ (z << 17) ^ (z << 34) ^ (z << 51)) == (z ^ (z << 17) ^ (z << 34) ^ (z << 51)) << 17;
    }
    ShiftLiteral(z);
  }

  lemma XorMoves(x: bv64, y: bv64, u: bv64, v: bv64)
    requires Xor(u, v) == Xor(x, y)
    ensures Xor(Xor(x, u), v) == y
  {}

  lemma StepPrevious(s: State)
    ensures Step(Previous(s)) == s
  {
    var p, d := Previous(s), Unrot(s.d);
    RotBack(s.d);
    XorBack(Xor(s.b, p.b), p.a);
    XorBack(d, p.b);
    XorBack(s.a, d);
    XorFront(s.b, p.b);
    ShiftUnshift(Xor(s.b, s.c));
    XorMoves(s.b, s.c, p.b, Shift(p.b));
  }

  // ----- runs -----

  /** The state after `n` steps. */
  function After(s: State, n: nat): State { if n == 0 then s else Step(After(s, n - 1)) }

  function Before(s: State, n: nat): State
    decreases n
  { if n == 0 then s else Before(Previous(s), n - 1) }

  /** Any number of steps can be taken back, so two states that meet were always equal. */
  lemma {:induction false} BeforeAfter(s: State, n: nat)
    ensures Before(After(s, n), n) == s
  {
    if n > 0 {
      PreviousStep(After(s, n - 1));
      BeforeAfter(s, n - 1);
    }
  }

  lemma {:induction false} AfterAdds(s: State, m: nat, n: nat)
    ensures After(s, m + n) == After(After(s, m), n)
  {
    if n > 0 { AfterAdds(s, m, n - 1); }
  }

  lemma AfterInjective(s: State, t: State, n: nat)
    ensures After(s, n) == After(t, n) <==> s == t
  {
    BeforeAfter(s, n);
    BeforeAfter(t, n);
  }

  /** A run that repeats a state has come back to where it began. */
  lemma PureCycle(s: State, i: nat, j: nat)
    requires i <= j
    ensures After(s, i) == After(s, j) <==> After(s, j - i) == s
  {
    AfterAdds(s, j - i, i);
    AfterInjective(s, After(s, j - i), i);
  }

  lemma ZeroStays()
    ensures Step(ZERO) == ZERO
  {}

  /** All zero is reached from all zero only. */
  lemma {:induction false} NeverZero(s: State, n: nat)
    ensures After(s, n) == ZERO <==> s == ZERO
  {
    if n > 0 {
      ZeroStays();
      PreviousStep(ZERO);
      PreviousStep(After(s, n - 1));
      NeverZero(s, n - 1);
    }
  }

  // ----- the generator -----

  // The steps of splitmix64 and of the output scrambling, each with the one that undoes it. Contracts
  // write the multipliers in decimal.

  function Fold30(x: bv64): bv64 { x ^ (x >> 30) }
  function Unfold30(x: bv64): bv64 { x ^ (x >> 30) ^ (x >> 60) }
  function Fold27(x: bv64): bv64 { x ^ (x >> 27) }
  function Unfold27(x: bv64): bv64 { x ^ (x >> 27) ^ (x >> 54) }
  function Fold31(x: bv64): bv64 { x ^ (x >> 31) }
  function Unfold31(x: bv64): bv64 { x ^ (x >> 31) ^ (x >> 62) }
  function First(x: bv64): bv64 { x * 0xBF58476D1CE4E5B9 }
  function Unfirst(x: bv64): bv64 { x * 0x96DE1B173F119089 }
  function Second(x: bv64): bv64 { x * 0x94D049BB133111EB }
  function Unsecond(x: bv64): bv64 { x * 0x319642B2D24D8EC3 }
  function Five(x: bv64): bv64 { x * 5 }
  function Unfive(x: bv64): bv64 { x * 0xCCCCCCCCCCCCCCCD }
  function Nine(x: bv64): bv64 { x * 9 }
  function Unnine(x: bv64): bv64 { x * 0x8E38E38E38E38E39 }
  function Turn(x: bv64): bv64 { (x << 7) | (x >> 57) }
  function Unturn(x: bv64): bv64 { (x >> 7) | (x << 57) }

  lemma Folded30Literal(x: bv64)
    ensures Unfold30(x ^ (x >> 30)) == x && Fold30(x ^ (x >> 30) ^ (x >> 60)) == x
  {}

  lemma Folded30(x: bv64)
    ensures Unfold30(Fold30(x)) == x && Fold30(Unfold30(x)) == x
  {
    assert Unfold30(Fold30(x)) == Unfold30(x ^ (x >> 30)) by {
      assert Fold30(x) == x ^ (x >> 30);
    }
    assert Fold30(Unfold30(x)) == Fold30(x ^ (x >> 30) ^ (x >> 60)) by {
      assert Unfold30(x) == x ^ (x >> 30) ^ (x >> 60);
    }
    Folded30Literal(x);
  }

  lemma Folded27Literal(x: bv64)
    ensures Unfold27(x ^ (x >> 27)) == x && Fold27(x ^ (x >> 27) ^ (x >> 54)) == x
  {}

  lemma Folded27(x: bv64)
    ensures Unfold27(Fold27(x)) == x && Fold27(Unfold27(x)) == x
  {
    assert Unfold27(Fold27(x)) == Unfold27(x ^ (x >> 27)) by {
      assert Fold27(x) == x ^ (x >> 27);
    }
    assert Fold27(Unfold27(x)) == Fold27(x ^ (x >> 27) ^ (x >> 54)) by {
      assert Unfold27(x) == x ^ (x >> 27) ^ (x >> 54);
    }
    Folded27Literal(x);
  }

  lemma Folded31Literal(x: bv64)
    ensures Unfold31(x ^ (x >> 31)) == x && Fold31(x ^ (x >> 31) ^ (x >> 62)) == x
  {}

  lemma Folded31(x: bv64)
    ensures Unfold31(Fold31(x)) == x && Fold31(Unfold31(x)) == x
  {
    assert Unfold31(Fold31(x)) == Unfold31(x ^ (x >> 31)) by {
      assert Fold31(x) == x ^ (x >> 31);
    }
    assert Fold31(Unfold31(x)) == Fold31(x ^ (x >> 31) ^ (x >> 62)) by {
      assert Unfold31(x) == x ^ (x >> 31) ^ (x >> 62);
    }
    Folded31Literal(x);
  }

  lemma FirstsLiteral(x: bv64)
    ensures Unfirst(x * 13787848793156543929) == x && First(x * 10871156337175269513) == x
  {}

  lemma Firsts(x: bv64)
    ensures Unfirst(First(x)) == x && First(Unfirst(x)) == x
  {
    assert Unfirst(First(x)) == Unfirst(x * 0xBF58476D1CE4E5B9) by {
      assert First(x) == x * 0xBF58476D1CE4E5B9;
    }
    assert First(Unfirst(x)) == First(x * 0x96DE1B173F119089) by {
      assert Unfirst(x) == x * 0x96DE1B173F119089;
    }
    FirstsLiteral(x);
  }

  lemma SecondsLiteral(x: bv64)
    ensures Unsecond(x * 10723151780598845931) == x && Second(x * 3573116690164977347) == x
  {}

  lemma Seconds(x: bv64)
    ensures Unsecond(Second(x)) == x && Second(Unsecond(x)) == x
  {
    assert Unsecond(Second(x)) == Unsecond(x * 0x94D049BB133111EB) by {
      assert Second(x) == x * 0x94D049BB133111EB;
    }
    assert Second(Unsecond(x)) == Second(x * 0x319642B2D24D8EC3) by {
      assert Unsecond(x) == x * 0x319642B2D24D8EC3;
    }
    SecondsLiteral(x);
  }

  lemma FivesLiteral(x: bv64)
    ensures Unfive(x * 5) == x && Five(x * 14757395258967641293) == x
  {}

  lemma Fives(x: bv64)
    ensures Unfive(Five(x)) == x && Five(Unfive(x)) == x
  {
    assert Unfive(Five(x)) == Unfive(x * 5) by {
      assert Five(x) == x * 5;
    }
    assert Five(Unfive(x)) == Five(x * 0xCCCCCCCCCCCCCCCD) by {
      assert Unfive(x) == x * 0xCCCCCCCCCCCCCCCD;
    }
    FivesLiteral(x);
  }

  lemma NinesLiteral(x: bv64)
    ensures Unnine(x * 9) == x && Nine(x * 10248191152060862009) == x
  {}

  lemma Nines(x: bv64)
    ensures Unnine(Nine(x)) == x && Nine(Unnine(x)) == x
  {
    assert Unnine(Nine(x)) == Unnine(x * 9) by {
      assert Nine(x) == x * 9;
    }
    assert Nine(Unnine(x)) == Nine(x * 0x8E38E38E38E38E39) by {
      assert Unnine(x) == x * 0x8E38E38E38E38E39;
    }
    NinesLiteral(x);
  }

  lemma Turned(x: bv64)
    ensures Unturn(Turn(x)) == x && Turn(Unturn(x)) == x
  {}

  /** One output of splitmix64. */
  function Mixed(s: bv64): bv64 { Fold31(Second(Fold27(First(Fold30(s))))) }

  function Unmixed(r: bv64): bv64 { Unfold30(Unfirst(Unfold27(Unsecond(Unfold31(r))))) }

  /** The mixing of a seed loses nothing: it is a bijection. */
  lemma MixedBijective(s: bv64)
    ensures Unmixed(Mixed(s)) == s && Mixed(Unmixed(s)) == s
  {
    var a := Fold30(s);
    var b := First(a);
    var c := Fold27(b);
    Folded30(s);
    Firsts(a);
    Folded27(b);
    Seconds(c);
    Folded31(Second(c));
    var x := Unfold31(s);
    var y := Unsecond(x);
    var z := Unfold27(y);
    Folded31(s);
    Seconds(x);
    Folded27(y);
    Firsts(z);
    Folded30(Unfirst(z));
  }

  function Advanced(s: bv64): bv64 { s + 0x9E3779B97F4A7C15 }

  /** The word a splitmix64 state contributes: zero is replaced by 1. */
  function WordOf(s: bv64): (w: bv64)
    ensures w != 0
  {
    if Mixed(s) == 0 then 1 else Mixed(s)
  }

  /** The one splitmix64 state whose word has to be replaced is 0. */
  lemma WordIs(s: bv64)
    ensures WordOf(s) == if s == 0 then 1 else Mixed(s)
  {
    assert Mixed(0) == 0;
    MixedBijective(s);
    MixedBijective(0);
  }

  /** The splitmix64 state after `n` additions of its increment. */
  function Seeding(s: bv64, n: nat): bv64 { if n == 0 then s else Advanced(Seeding(s, n - 1)) }

  /** The state a seed starts from. */
  function Seeded(seed: bv64): State {
    State(WordOf(Seeding(seed, 1)), WordOf(Seeding(seed, 2)), WordOf(Seeding(seed, 3)), WordOf(Seeding(seed, 4)))
  }

  /** No seed ever leads to the all-zero state. */
  lemma SeedNeverZero(seed: bv64, n: nat)
    ensures After(Seeded(seed), n) != ZERO
  {
    NeverZero(Seeded(seed), n);
  }

  /** One output, from the second word of the state. */
  function Scrambled(b: bv64): bv64 { Nine(Turn(Five(b))) }

  function Unscrambled(r: bv64): bv64 { Unfive(Unturn(Unnine(r))) }

  /** The scrambling loses nothing: it is a bijection. */
  lemma ScrambledBijective(b: bv64)
    ensures Unscrambled(Scrambled(b)) == b && Scrambled(Unscrambled(b)) == b
  {
    Fives(b);
    Turned(Five(b));
    Nines(Turn(Five(b)));
    Nines(b);
    Turned(Unnine(b));
    Fives(Unturn(Unnine(b)));
  }

  lemma ShiftedFive(b: bv64)
    requires b <= 28823037615171174
    ensures ((b * 5) << 7) | ((b * 5) >> 57) == b * 640
  {}

  lemma NineTimes(b: bv64)
    ensures (b * 640) * 9 == b * 5760
  {}

  /** While five times the word fits in 57 bits, the rotation is a multiplication by 128. */
  lemma ScrambledSmall(b: bv64)
    requires b <= 28823037615171174
    ensures Scrambled(b) == b * 5760
  {
    assert Scrambled(b) == (b * 640) * 9 by {
      assert Turn(Five(b)) == b * 640 by {
        assert Turn(Five(b)) == Turn(b * 5) by { assert Five(b) == b * 5; }
        assert Turn(b * 5) == ((b * 5) << 7) | ((b * 5) >> 57);
        ShiftedFive(b);
      }
      assert Nine(b * 640) == (b * 640) * 9;
    }
    NineTimes(b);
  }

  /** The first outputs from the state 1, 2, 3, 4. */
  lemma FirstOutputs()
    ensures var s := State(1, 2, 3, 4);
            && Scrambled(s.b) == 11520 && Scrambled(After(s, 1).b) == 0 && Scrambled(After(s, 2).b) == 1509978240
            && Scrambled(After(s, 3).b) == 1215971899390074240
  {
    var s := State(1, 2, 3, 4);
    var s1 := Step(s);
    var s2 := Step(s1);
    var s3 := Step(s2);
    assert After(s, 0) == s;
    assert After(s, 1) == s1 && After(s, 2) == s2 && After(s, 3) == s3;
  }

  /** The first words mixed from seed 0. */
  lemma FirstWords()
    ensures Mixed(Seeding(0, 1)) == 16294208416658607535 && Mixed(Seeding(0, 2)) == 7960286522194355700
    ensures Mixed(Seeding(0, 3)) == 487617019471545679 && Mixed(Seeding(0, 4)) == 17909611376780542444
  {
    assert Seeding(0, 0) == 0;
    assert Seeding(0, 1) == 0x9E3779B97F4A7C15;
    assert Seeding(0, 2) == 0x3C6EF372FE94F82A;
  }

  class Generator {
    const s: array<bv64>

    ghost function Value(): State
      requires s.Length == 4
      reads s
    {
      State(s[0], s[1], s[2], s[3])
    }

    ghost predicate Valid()
      reads this, s
    {
      s.Length == 4 && Value() != ZERO
    }

    /** Expand the seed to the words of the state. */
    method Expand(seed: bv64)
      requires s.Length == 4
      modifies s
      ensures Value() == Seeded(seed)
    {
      var z := seed;
      for i := 0 to 4
        invariant z == Seeding(seed, i)
        invariant forall k | 0 <= k < i :: s[k] == WordOf(Seeding(seed, k + 1))
      {
        z := Advanced(z);
        s[i] := Mixed(z);
        if s[i] == 0 { s[i] := 1; }
      }
    }

    /** Every word starts out nonzero, whatever the seed. */
    constructor (seed: bv64)
      ensures Valid() && fresh(s) && Value() == Seeded(seed)
    {
      s := new bv64[4];
      new;
      Expand(seed);
      SeedNeverZero(seed, 0);
    }

    method Next() returns (result: bv64)
      requires Valid()
      modifies s
      ensures Valid() && Value() == Step(old(Value())) && result == Scrambled(old(s[1]))
    {
      NeverZero(Value(), 1);
      result := Scrambled(s[1]);
      var t := Shift(s[1]);
      s[2] := Xor(s[2], s[0]);
      s[3] := Xor(s[3], s[1]);
      s[1] := Xor(s[1], s[2]);
      s[0] := Xor(s[0], s[3]);
      s[2] := Xor(s[2], t);
      s[3] := Rot(s[3]);
    }
  }
}
