/** Bytes and 32-bit words of the simulated host: unsigned words, two's complement
    integers, bit operations on words, and the little-endian images that a `char *`
    cast of an in-memory table shows to the disk. */
module Words {

  const WORD_LIMIT := 0x1_0000_0000
  const INT_LIMIT := 0x8000_0000

  type byte = x: int | 0 <= x < 256
  type word = x: int | 0 <= x < WORD_LIMIT
  type int32 = x: int | -INT_LIMIT <= x < INT_LIMIT

  /** The `unsigned` reading of a C int. */
  function ToWord(x: int32): (w: word) {
    if x < 0 then x + WORD_LIMIT else x
  }

  /** The `int` reading of an unsigned word. */
  function ToInt(w: word): (x: int32)
    ensures ToWord(x) == w
  {
    if w < INT_LIMIT then w else w - WORD_LIMIT
  }

  /** The value a C `int` expression takes when its exact value is x. */
  function Wrap(x: int): (r: int32)
    ensures (x - r) % WORD_LIMIT == 0
  {
    ToInt(x % WORD_LIMIT)
  }

  function Abs(x: int): (r: nat) { if x < 0 then -x else x }

  // ---------------------------------------------------------------- bits

  function Pow2(k: nat): (p: nat)
    ensures p > 0
  {
    if k == 0 then 1 else 2 * Pow2(k - 1)
  }

  predicate TestBit(w: nat, k: nat) {
    if k == 0 then w % 2 == 1 else TestBit(w / 2, k - 1)
  }

  function BitOr(a: nat, b: nat): (r: nat) {
    if a == 0 && b == 0 then 0
    else 2 * BitOr(a / 2, b / 2) + (if a % 2 == 1 || b % 2 == 1 then 1 else 0)
  }

  function BitAnd(a: nat, b: nat): (r: nat) {
    if a == 0 && b == 0 then 0
    else 2 * BitAnd(a / 2, b / 2) + (if a % 2 == 1 && b % 2 == 1 then 1 else 0)
  }

  /** a & ~b */
  function BitAndNot(a: nat, b: nat): (r: nat) {
    if a == 0 && b == 0 then 0
    else 2 * BitAndNot(a / 2, b / 2) + (if a % 2 == 1 && b % 2 == 0 then 1 else 0)
  }

  lemma {:induction false} ZeroHasNoBits(k: nat)
    ensures !TestBit(0, k)
  {
    if k > 0 { ZeroHasNoBits(k - 1); }
  }

  lemma {:induction false} Pow2Bits(i: nat, k: nat)
    ensures TestBit(Pow2(i), k) <==> i == k
  {
    if k == 0 {
    } else if i == 0 {
      ZeroHasNoBits(k - 1);
    } else {
      Pow2Bits(i - 1, k - 1);
    }
  }

  lemma {:induction false} BitwiseBits(a: nat, b: nat, k: nat)
    ensures TestBit(BitOr(a, b), k) <==> TestBit(a, k) || TestBit(b, k)
    ensures TestBit(BitAnd(a, b), k) <==> TestBit(a, k) && TestBit(b, k)
    ensures TestBit(BitAndNot(a, b), k) <==> TestBit(a, k) && !TestBit(b, k)
  {
    if a == 0 && b == 0 {
      ZeroHasNoBits(k);
    } else if k > 0 {
      BitwiseBits(a / 2, b / 2, k - 1);
    }
  }

  lemma {:induction false} BitwiseBound(a: nat, b: nat, n: nat)
    requires a < Pow2(n) && b < Pow2(n)
    ensures BitOr(a, b) < Pow2(n) && BitAnd(a, b) < Pow2(n) && BitAndNot(a, b) < Pow2(n)
  {
    if n > 0 && (a > 0 || b > 0) {
      BitwiseBound(a / 2, b / 2, n - 1);
    }
  }

  lemma {:induction false} Pow2Monotone(i: nat, k: nat)
    requires i <= k
    ensures Pow2(i) <= Pow2(k)
  {
    if i < k { Pow2Monotone(i, k - 1); }
  }

  lemma Pow2Word()
    ensures Pow2(8) == 256 && Pow2(16) == 65536
    ensures Pow2(31) == INT_LIMIT && Pow2(32) == WORD_LIMIT && Pow2(64) == WORD_LIMIT * WORD_LIMIT
  {
    assert Pow2(8) == 256;
    assert Pow2(16) == 65536;
    assert Pow2(24) == 0x100_0000;
    assert Pow2(32) == WORD_LIMIT;
    assert Pow2(40) == 256 * WORD_LIMIT;
    assert Pow2(48) == 65536 * WORD_LIMIT;
    assert Pow2(56) == 0x100_0000 * WORD_LIMIT;
  }

  /** A one-bit mask picks out exactly that bit: `w & (1 << k)` is non-zero iff bit k is set. */
  lemma {:induction false} MaskTestsBit(w: nat, k: nat)
    ensures BitAnd(w, Pow2(k)) != 0 <==> TestBit(w, k)
  {
    if k > 0 {
      MaskTestsBit(w / 2, k - 1);
      assert Pow2(k) / 2 == Pow2(k - 1);
    } else {
      BitwiseZero(w / 2);
    }
  }

  /** The bitwise operations on a word and itself. */
  lemma {:induction false} BitwiseSelf(w: nat)
    ensures BitAnd(w, w) == w && BitOr(w, w) == w && BitAndNot(w, w) == 0
  {
    if w > 0 { BitwiseSelf(w / 2); }
  }

  /** And on a word and zero. */
  lemma {:induction false} BitwiseZero(w: nat)
    ensures BitAnd(w, 0) == 0 && BitAnd(0, w) == 0
    ensures BitOr(w, 0) == w && BitOr(0, w) == w
    ensures BitAndNot(w, 0) == w && BitAndNot(0, w) == 0
  {
    if w > 0 { BitwiseZero(w / 2); }
  }

  // ---------------------------------------------------------------- little-endian images

  function WordToBytes(w: word): (b: seq<byte>)
    ensures |b| == 4
  {
    [w % 256, w / 256 % 256, w / 65536 % 256, w / 0x100_0000]
  }

  function BytesToWord(b: seq<byte>): (w: word)
    requires |b| == 4
  {
    b[0] as int + 256 * (b[1] as int) + 65536 * (b[2] as int) + 0x100_0000 * (b[3] as int)
  }

  lemma WordRoundTrip(w: word)
    ensures BytesToWord(WordToBytes(w)) == w
  {
    assert w / 65536 == w / 256 / 256;
    assert w / 0x100_0000 == w / 65536 / 256;
  }

  /** The memory image of an array of words. */
  function WordsToBytes(ws: seq<word>): (b: seq<byte>)
    ensures |b| == 4 * |ws|
  {
    seq(4 * |ws|, i requires 0 <= i < 4 * |ws| => WordToBytes(ws[i / 4])[i % 4])
  }

  function BytesToWords(b: seq<byte>): (ws: seq<word>)
    ensures |ws| == |b| / 4
  {
    seq(|b| / 4, i requires 0 <= i < |b| / 4 => BytesToWord(b[4 * i..4 * i + 4]))
  }

  lemma WordsRoundTrip(ws: seq<word>)
    ensures BytesToWords(WordsToBytes(ws)) == ws
  {
    hide WordToBytes, BytesToWord;
    var b := WordsToBytes(ws);
    assert |BytesToWords(b)| == |ws| by { assert 4 * |ws| / 4 == |ws|; }
    forall i | 0 <= i < |ws|
      ensures BytesToWords(b)[i] == ws[i]
    {
      OneWord(ws, i);
    }
  }

  lemma OneWord(ws: seq<word>, i: nat)
    requires i < |ws|
    ensures BytesToWord(WordsToBytes(ws)[4 * i..4 * i + 4]) == ws[i]
  {
    hide WordToBytes, BytesToWord;
    var b := WordsToBytes(ws);
    forall j | 0 <= j < 4
      ensures b[4 * i + j] == WordToBytes(ws[i])[j]
    {
      InFour(i, j);
    }
    assert b[4 * i..4 * i + 4] == WordToBytes(ws[i]);
    WordRoundTrip(ws[i]);
  }

  lemma InFour(i: nat, j: nat)
    requires j < 4
    ensures (4 * i + j) / 4 == i && (4 * i + j) % 4 == j
  {
  }

  function IntsToWords(xs: seq<int32>): (ws: seq<word>)
    ensures |ws| == |xs|
  {
    seq(|xs|, i requires 0 <= i < |xs| => ToWord(xs[i]))
  }

  function WordsToInts(ws: seq<word>): (xs: seq<int32>)
    ensures |xs| == |ws|
  {
    seq(|ws|, i requires 0 <= i < |ws| => ToInt(ws[i]))
  }
}
