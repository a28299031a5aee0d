/**
 The string hash and the random generator of scripts/bench-cost-prediction.ts, with JavaScript's
 32-bit integer operators written out.
 */
module Hashing {

  const TWO32 := 0x1_0000_0000

  /** `x | 0`: the signed 32-bit integer congruent to `x`. */
  function ToInt32(x: int): (r: int)
    ensures -0x8000_0000 <= r < 0x8000_0000
  {
    (x + 0x8000_0000) % TWO32 - 0x8000_0000
  }

  /** `x >>> 0`: the unsigned one. */
  function ToUint32(x: int): (r: nat)
    ensures r < TWO32
  {
    x % TWO32
  }

  ghost predicate Congruent(x: int, y: int) { exists q: int :: x == y + q * TWO32 }

  lemma CongruentBy(x: int, y: int, q: int)
    requires x == y + q * TWO32
    ensures Congruent(x, y)
  {
  }

  lemma Int32Congruent(x: int)
    ensures Congruent(ToInt32(x), x)
  {
    CongruentBy(ToInt32(x), x, -((x + 0x8000_0000) / TWO32));
  }

  lemma CongruentUint32(x: int, y: int)
    requires Congruent(x, y)
    ensures ToUint32(x) == ToUint32(y)
  {
  }

  // ---------------------------------------------------------------------------------------
  // djb2
  // ---------------------------------------------------------------------------------------

  /** The base-33 value of a text with leading digit 5381, by Horner's rule. */
  function Horner(input: seq<nat>): nat {
    if input == [] then 5381 else Horner(input[..|input| - 1]) * 33 + input[|input| - 1]
  }

  function Pow33(n: nat): nat { if n == 0 then 1 else 33 * Pow33(n - 1) }

  /** The polynomial, written from the first character on. */
  function Polynomial(input: seq<nat>): nat {
    if input == [] then 0 else input[0] * Pow33(|input| - 1) + Polynomial(input[1..])
  }

  lemma {:induction false} PolynomialSnoc(input: seq<nat>, c: nat)
    ensures Polynomial(input + [c]) == Polynomial(input) * 33 + c
    decreases |input|
  {
    var t := input + [c];
    if input == [] {
      assert t[1..] == [];
      assert Polynomial(t) == c * Pow33(0) + Polynomial([]);
    } else {
      assert t[0] == input[0] && t[1..] == input[1..] + [c];
      PolynomialSnoc(input[1..], c);
      var n := |input| - 1;
      assert Pow33(n + 1) == 33 * Pow33(n);
      assert input[0] * Pow33(n + 1) == input[0] * Pow33(n) * 33;
    }
  }

  /** Horner's value is 5381 * 33^n plus the polynomial of the n characters. */
  lemma {:induction false} HornerIsPolynomial(input: seq<nat>)
    ensures Horner(input) == 5381 * Pow33(|input|) + Polynomial(input)
    decreases |input|
  {
    if input != [] {
      var p, c := input[..|input| - 1], input[|input| - 1];
      assert input == p + [c];
      HornerIsPolynomial(p);
      PolynomialSnoc(p, c);
    }
  }

  /** One round keeps the congruence through both signed truncations. */
  lemma RoundCongruent(hash: int, value: int, c: nat)
    requires Congruent(hash, value)
    ensures Congruent(ToInt32(ToInt32(hash * 32) + hash + c), value * 33 + c)
  {
    var shifted := ToInt32(hash * 32);
    Int32Congruent(hash * 32);
    Int32Congruent(shifted + hash + c);
    var p: int :| shifted == hash * 32 + p * TWO32;
    var q: int :| hash == value + q * TWO32;
    var r: int :| ToInt32(shifted + hash + c) == shifted + hash + c + r * TWO32;
    CongruentBy(ToInt32(shifted + hash + c), value * 33 + c, r + p + 33 * q);
  }

  /** For every text, the signed-shift loop computes the base-33 polynomial modulo 2^32. */
  method Djb2(input: seq<nat>) returns (r: nat)
    ensures r == (5381 * Pow33(|input|) + Polynomial(input)) % TWO32
  {
    hide ToInt32, ToUint32, Congruent;
    var hash := 5381;
    CongruentBy(hash, Horner([]), 0);
    assert input[..0] == [];
    for i := 0 to |input|
      invariant Congruent(hash, Horner(input[..i]))
    {
      assert input[..i + 1][..i] == input[..i];
      RoundCongruent(hash, Horner(input[..i]), input[i]);
      hash := ToInt32(ToInt32(hash * 32) + hash + input[i]);
    }
    assert input[..|input|] == input;
    CongruentUint32(hash, Horner(input));
    HornerIsPolynomial(input);
    Uint32Is(Horner(input));
    r := ToUint32(hash);
  }

  lemma Uint32Is(x: int)
    ensures ToUint32(x) == x % TWO32
  {
  }

  // ---------------------------------------------------------------------------------------
  // mulberry32
  // ---------------------------------------------------------------------------------------

  const INCREMENT := 0x6D2B79F5

  /** The state before draw `k + 1`, from a seed. */
  function StateAfter(seed: int, k: nat): (r: nat)
    ensures r < TWO32
  {
    (seed + k * INCREMENT) % TWO32
  }

  /** The output mixing of a state, on 32-bit words. */
  function Mix(state: bv32): bv32 {
    var t := (state ^ (state >> 15)) * (state | 1);
    var u := t ^ (t + (t ^ (t >> 7)) * (t | 61));
    u ^ (u >> 14)
  }

  /** The unsigned word the closure divides by 2^32. */
  function Word(state: nat): (w: nat)
    requires state < TWO32
    ensures w < TWO32
  {
    Mix(state as bv32) as int
  }

  /** The first three words drawn from seed 0. */
  lemma FirstWords()
    ensures Word(StateAfter(0, 1)) == 1144304738 && Word(StateAfter(0, 2)) == 1416247 && Word(StateAfter(0, 3)) == 958946056
  {
    assert StateAfter(0, 1) == 0x6D2B79F5;
    assert StateAfter(0, 2) == 0xDA56F3EA;
    assert StateAfter(0, 3) == 0x47826DDF;
    MixSamples();
  }

  lemma MixSamples()
    ensures Mix(0x6D2B79F5) == 1144304738 && Mix(0xDA56F3EA) == 1416247 && Mix(0x47826DDF) == 958946056
  {
  }

  /** The closure: its state, and one draw. */
  class Generator {
    var state: nat
    ghost const seed: int
    ghost var draws: nat

    ghost predicate Valid()
      reads this
    {
      state == StateAfter(seed, draws)
    }

    constructor (s: int)
      ensures Valid() && seed == s && draws == 0
    {
      state, seed, draws := ToUint32(s), s, 0;
    }

    method Next() returns (value: real)
      requires Valid()
      modifies this
      ensures Valid() && draws == old(draws) + 1
      ensures state == StateAfter(seed, old(draws) + 1)
      ensures value == Word(StateAfter(seed, draws)) as real / TWO32 as real
      ensures 0.0 <= value < 1.0
    {
      hide Word, StateAfter;
      StateStep(seed, draws);
      state := ToUint32(state + INCREMENT);
      draws := draws + 1;
      var word := Word(state);
      WordFraction(word);
      value := word as real / TWO32 as real;
    }
  }

  lemma StateStep(seed: int, k: nat)
    ensures ToUint32(StateAfter(seed, k) + INCREMENT) == StateAfter(seed, k + 1)
  {
    var x := seed + k * INCREMENT;
    assert x == x / TWO32 * TWO32 + x % TWO32;
    assert seed + (k + 1) * INCREMENT == x % TWO32 + INCREMENT + x / TWO32 * TWO32;
    CongruentBy(seed + (k + 1) * INCREMENT, x % TWO32 + INCREMENT, x / TWO32);
    CongruentUint32(seed + (k + 1) * INCREMENT, x % TWO32 + INCREMENT);
  }

  lemma WordFraction(word: int)
    requires 0 <= word < TWO32
    ensures 0.0 <= word as real / TWO32 as real < 1.0
  {
  }

  function Pow2(m: nat): nat { if m == 0 then 1 else 2 * Pow2(m - 1) }

  /** If an odd number times `n` is a multiple of 2^m, so is `n`. */
  lemma {:induction false} OddCancels(c: nat, n: int, q: int, m: nat) returns (r: int)
    requires c % 2 == 1 && n * c == q * Pow2(m)
    ensures n == r * Pow2(m)
    decreases m
  {
    if m == 0 {
      r := n;
    } else {
      var p := Pow2(m - 1);
      assert n * c == 2 * (q * p);
      EvenFactor(c, n, q * p);
      var h := n / 2;
      assert n == 2 * h;
      assert 2 * (h * c) == 2 * (q * p);
      r := OddCancels(c, h, q, m - 1);
      assert n == 2 * (r * p) == r * Pow2(m);
    }
  }

  lemma EvenFactor(c: nat, n: int, x: int)
    requires c % 2 == 1 && n * c == 2 * x
    ensures n % 2 == 0
  {
    var d := c / 2;
    assert c == 2 * d + 1;
    assert n * c == 2 * (n * d) + n;
    assert n == 2 * (x - n * d);
  }

  lemma Pow2Of32()
    ensures Pow2(32) == TWO32
  {
    assert Pow2(8) == 256;
    assert Pow2(16) == 0x1_0000;
    assert Pow2(24) == 0x100_0000;
  }

  /** From every seed, no state repeats within 2^32 draws. */
  lemma StatesDistinct(seed: int, i: nat, j: nat)
    requires i < j < i + TWO32
    ensures StateAfter(seed, i) != StateAfter(seed, j)
  {
    if StateAfter(seed, i) == StateAfter(seed, j) {
      var x, y := seed + i * INCREMENT, seed + j * INCREMENT;
      Pow2Of32();
      assert y - x == (y / TWO32 - x / TWO32) * TWO32;
      assert y - x == (j - i) * INCREMENT;
      var r := OddCancels(INCREMENT, j - i, y / TWO32 - x / TWO32, 32);
      NoSmallMultiple(j - i, r);
    }
  }

  lemma NoSmallMultiple(n: int, r: int)
    requires 0 < n < TWO32
    ensures n != r * TWO32
  {
  }

  /** And after exactly 2^32 draws the state is the seed's again. */
  lemma StateReturns(seed: int)
    ensures StateAfter(seed, TWO32) == StateAfter(seed, 0)
  {
  }

  /** The token jitter drawn from the generator stays within 0.85 and 1.15. */
  method Jitter(g: Generator) returns (jitter: real)
    requires g.Valid()
    modifies g
    ensures g.Valid() && g.draws == old(g.draws) + 1
    ensures 0.85 <= jitter < 1.15
    ensures (jitter - 0.85) / 0.3 == Word(StateAfter(g.seed, g.draws)) as real / TWO32 as real
  {
    hide Word, StateAfter;
    var value := g.Next();
    jitter := 0.85 + value * 0.3;
  }
}
