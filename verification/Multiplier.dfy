/** machine/mipssim.cc, Mult: the shift-and-add multiplication behind MULT and MULTU. */
module Multiplier {
  import opened Words

  /** The 64-bit value of a register pair. */
  function Pair(hi: word, lo: word): (v: nat) {
    hi * WORD_LIMIT + lo
  }

  const PAIR_LIMIT := WORD_LIMIT * WORD_LIMIT

  /** -x in C int arithmetic: the most negative int is its own negation. */
  function Negate(x: int32): (r: int32) {
    Wrap(0 - x)
  }

  /** Absolute values survive the wrap-around when read as unsigned words. */
  lemma NegateIsMagnitude(x: int32)
    requires x < 0
    ensures ToWord(Negate(x)) == 0 - x
  {
    assert (0 - x) % WORD_LIMIT == 0 - x;
  }

  /** The addition of a round, with its carry. */
  method AddPair(hi0: word, lo0: word, bHi: word, bLo: word) returns (hi: word, lo: word)
    requires Pair(hi0, lo0) + Pair(bHi, bLo) < PAIR_LIMIT
    ensures Pair(hi, lo) == Pair(hi0, lo0) + Pair(bHi, bLo)
  {
    hi, lo := hi0, (lo0 + bLo) % WORD_LIMIT;
    if lo < bLo {
      assert lo == lo0 + bLo - WORD_LIMIT;
      hi := (hi + 1) % WORD_LIMIT;
    }
    hi := (hi + bHi) % WORD_LIMIT;
  }

  /** The doubling of a round, the high bit of bLo moving into bHi. */
  method DoublePair(bHi0: word, bLo0: word) returns (bHi: word, bLo: word)
    requires 2 * Pair(bHi0, bLo0) < PAIR_LIMIT
    ensures Pair(bHi, bLo) == 2 * Pair(bHi0, bLo0)
  {
    bHi := (bHi0 * 2) % WORD_LIMIT;
    if bLo0 >= INT_LIMIT {
      bHi := bHi + 1;
    }
    bLo := (bLo0 * 2) % WORD_LIMIT;
  }

  /** acc + u * b is what the loop keeps: the low bit of u moves one copy of b into acc. */
  lemma MoveOneBit(acc: nat, u: nat, b: nat)
    ensures u % 2 == 1 ==> acc + b + (u / 2) * (2 * b) == acc + u * b
    ensures u % 2 == 0 ==> acc + (u / 2) * (2 * b) == acc + u * b
  {
    assert u == 2 * (u / 2) + u % 2;
    var h := u / 2;
    assert h * (2 * b) == 2 * h * b;
    if u % 2 == 1 {
      assert u * b == (2 * h + 1) * b == 2 * h * b + b;
    } else {
      assert u * b == (2 * h) * b;
    }
  }

  lemma ProductBound(x: nat, y: nat, a: nat, b: nat)
    requires x < a && y < b
    ensures x * y < a * b
  {
    assert x * y <= x * b;
    assert x * b < a * b;
  }

  /** What the loop keeps before its i-th round: the product so far, plus the bits of a still
      to come times the shifted b, is the whole product. The signed a is u or, with its sign
      bits shifted in, u less a power of two. */
  ghost predicate LoopInv(a: int, u: nat, i: nat, hi: word, lo: word, bHi: word, bLo: word, product: nat) {
    && i <= 32
    && Pair(hi, lo) + u * Pair(bHi, bLo) == product < PAIR_LIMIT
    && u < Pow2(32 - i) && Pair(bHi, bLo) < Pow2(32 + i)
    && (a == u || a == u - Pow2(32 - i))
  }

  lemma LowBit(a: int, u: nat, i: nat)
    requires i < 32 && u < Pow2(32 - i) && (a == u || a == u - Pow2(32 - i))
    ensures a % 2 == u % 2
    ensures a / 2 == u / 2 || a / 2 == u / 2 - Pow2(31 - i)
    ensures u / 2 < Pow2(31 - i)
    ensures a == 1 ==> u == 1
  {
    assert Pow2(32 - i) == 2 * Pow2(31 - i);
    hide Pow2;
    Halve(a, u, Pow2(31 - i));
  }

  lemma Halve(a: int, u: nat, p: nat)
    requires u < 2 * p && (a == u || a == u - 2 * p)
    ensures a % 2 == u % 2 && (a / 2 == u / 2 || a / 2 == u / 2 - p) && u / 2 < p
    ensures a == 1 ==> u == 1
  {
  }

  /** What a round may count on: its bit, and room for its addition and its doubling. */
  lemma RoundStart(a: int, u: nat, i: nat, hi: word, lo: word, bHi: word, bLo: word, product: nat)
    requires i < 32 && LoopInv(a, u, i, hi, lo, bHi, bLo, product)
    ensures a % 2 == u % 2 && (a == 1 ==> u == 1)
    ensures u > 0 ==> Pair(hi, lo) + Pair(bHi, bLo) <= product < PAIR_LIMIT
    ensures 2 * Pair(bHi, bLo) < PAIR_LIMIT
    ensures u == 1 ==> Pair(hi, lo) + Pair(bHi, bLo) == product
  {
    LowBit(a, u, i);
    DoubleFits(i, Pair(bHi, bLo));
    OneCopy(Pair(hi, lo), u, Pair(bHi, bLo));
  }

  lemma OneCopy(acc: nat, u: nat, b: nat)
    ensures u > 0 ==> acc + b <= acc + u * b
    ensures u == 1 ==> acc + b == acc + u * b
  {
    if u > 0 { assert u * b == b + (u - 1) * b; }
  }

  lemma DoubleFits(i: nat, b: nat)
    requires i < 32 && b < Pow2(32 + i)
    ensures 2 * b < Pow2(33 + i) && 2 * b < PAIR_LIMIT
  {
    Pow2Monotone(33 + i, 64);
    Pow2Word();
  }

  /** After its addition, a round hands the invariant to the next one. */
  lemma RoundKeepsInv(a: int, u: nat, i: nat, hi: word, lo: word, bHi: word, bLo: word,
                      hi': word, lo': word, bHi': word, bLo': word, product: nat)
    requires i < 32 && LoopInv(a, u, i, hi, lo, bHi, bLo, product)
    requires Pair(hi', lo') == Pair(hi, lo) + if u % 2 == 1 then Pair(bHi, bLo) else 0
    requires Pair(bHi', bLo') == 2 * Pair(bHi, bLo)
    ensures LoopInv(a / 2, u / 2, i + 1, hi', lo', bHi', bLo', product)
  {
    MoveOneBit(Pair(hi, lo), u, Pair(bHi, bLo));
    LowBit(a, u, i);
    DoubleFits(i, Pair(bHi, bLo));
  }

  lemma AfterLastRound(a: int, u: nat, hi: word, lo: word, bHi: word, bLo: word, product: nat)
    requires LoopInv(a, u, 32, hi, lo, bHi, bLo, product)
    ensures Pair(hi, lo) == product
  {
    assert u == 0;
  }

  lemma FirstRound(a: int32, b: word)
    ensures LoopInv(a, ToWord(a), 0, 0, 0, 0, b, ToWord(a) * b)
  {
    Pow2Word();
    ProductBound(ToWord(a), b, WORD_LIMIT, WORD_LIMIT);
  }

  /** The loop of Mult: the bits of a, lowest first, each add in a shifted copy of b; the
      loop is left early when a has no bits left. */
  method MultUnsigned(a0: int32, b: word) returns (hi: word, lo: word)
    ensures Pair(hi, lo) == ToWord(a0) * b
  {
    hide LoopInv, Pair, Pow2, ToWord;
    var a: int32 := a0;
    var bLo: word := b;
    var bHi: word := 0;
    hi, lo := 0, 0;
    ghost var u: nat, product := ToWord(a0), ToWord(a0) * b;
    FirstRound(a0, b);
    for i := 0 to 32
      invariant LoopInv(a, u, i, hi, lo, bHi, bLo, product)
    {
      ghost var hi0, lo0, bHi0, bLo0 := hi, lo, bHi, bLo;
      RoundStart(a, u, i, hi, lo, bHi, bLo, product);
      if a % 2 == 1 {
        hi, lo := AddPair(hi, lo, bHi, bLo);
        if a == 0 || a == 1 {
          return;
        }
      }
      bHi, bLo := DoublePair(bHi, bLo);
      RoundKeepsInv(a, u, i, hi0, lo0, bHi0, bLo0, hi, lo, bHi, bLo, product);
      a := a / 2;
      u := u / 2;
    }
    AfterLastRound(a, u, hi, lo, bHi, bLo, product);
  }

  /** Overwrites the pair with the double-length product: exactly the product of the two
      words, or exactly the signed product of the two ints, for all 2^64 operand pairs. */
  method Mult(a0: int32, b0: int32, signedArith: bool) returns (hi: int32, lo: int32)
    ensures !signedArith ==> Pair(ToWord(hi), ToWord(lo)) == ToWord(a0) * ToWord(b0)
    ensures signedArith ==> hi * WORD_LIMIT + ToWord(lo) == a0 * b0
  {
    if a0 == 0 || b0 == 0 {
      return 0, 0;
    }
    var a: int32, b: int32, negative := a0, b0, false;
    if signedArith {
      if a < 0 {
        negative := !negative;
        NegateIsMagnitude(a);
        a := Negate(a);
      }
      if b < 0 {
        negative := !negative;
        NegateIsMagnitude(b);
        b := Negate(b);
      }
    }
    assert signedArith ==> ToWord(a) == Abs(a0) && ToWord(b) == Abs(b0);
    assert negative <==> signedArith && (a0 < 0) != (b0 < 0);
    var h, l := MultUnsigned(a, ToWord(b));
    hide Pair, ToWord, Abs;
    ghost var magnitude := Pair(h, l);
    if negative {
      h, l := Complement(h, l);
    }
    hi, lo := ToInt(h), ToInt(l);
    if signedArith {
      SignedResult(a0, b0, magnitude, negative, h, l);
    }
  }

  method Complement(h0: word, l0: word) returns (h: word, l: word)
    ensures Pair(h0, l0) > 0 ==> Pair(h, l) == PAIR_LIMIT - Pair(h0, l0)
  {
    h := WORD_LIMIT - 1 - h0;
    l := WORD_LIMIT - 1 - l0;
    l := (l + 1) % WORD_LIMIT;
    if l == 0 {
      h := (h + 1) % WORD_LIMIT;
    }
  }

  /** The signed reading of the result pair is the signed product: it never overflows. */
  lemma SignedResult(a: int32, b: int32, magnitude: nat, negative: bool, h: word, l: word)
    requires a != 0 && b != 0 && magnitude == Abs(a) * Abs(b)
    requires negative == ((a < 0) != (b < 0))
    requires if negative then magnitude > 0 ==> Pair(h, l) == PAIR_LIMIT - magnitude else Pair(h, l) == magnitude
    ensures ToInt(h) * WORD_LIMIT + l == a * b
  {
    SignOfProduct(a, b);
    MagnitudeBound(Abs(a), Abs(b));
  }

  lemma SignOfProduct(a: int32, b: int32)
    ensures Abs(a) * Abs(b) == if (a < 0) != (b < 0) then 0 - a * b else a * b
  {
  }

  lemma MagnitudeBound(x: nat, y: nat)
    requires x <= INT_LIMIT && y <= INT_LIMIT
    ensures 0 <= x * y <= INT_LIMIT * INT_LIMIT && (0 < x && 0 < y ==> 0 < x * y)
  {
    FactorGrows(x, INT_LIMIT, y);
    FactorGrows(y, INT_LIMIT, INT_LIMIT);
    if x > 0 { FactorGrows(1, x, y); }
  }

  lemma FactorGrows(x: nat, limit: nat, y: nat)
    requires x <= limit
    ensures x * y <= limit * y
  {
    var rest := limit - x;
    assert limit * y == (x + rest) * y == x * y + rest * y;
  }
}
