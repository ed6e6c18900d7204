/** userprog/bitmap.cc: an array of bits kept in 32-bit words, each bit free (clear) or in use. */
module BitMaps {
  import opened Words

  const BITS_IN_WORD := 32

  /** The bits that a word array of a bitmap with n bits holds. */
  function BitsOf(ws: seq<word>, n: nat): (bits: seq<bool>)
    requires n <= BITS_IN_WORD * |ws|
    ensures |bits| == n
  {
    seq(n, i requires 0 <= i < n => TestBit(ws[i / BITS_IN_WORD], i % BITS_IN_WORD))
  }

  /** How many bits are clear. */
  function CountClear(bits: seq<bool>): (n: nat) {
    if bits == [] then 0
    else CountClear(bits[..|bits| - 1]) + if bits[|bits| - 1] then 0 else 1
  }

  lemma {:induction false} CountClearSplit(a: seq<bool>, b: seq<bool>)
    ensures CountClear(a + b) == CountClear(a) + CountClear(b)
  {
    if b == [] {
      assert a + b == a;
    } else {
      assert (a + b)[..|a + b| - 1] == a + b[..|b| - 1];
      CountClearSplit(a, b[..|b| - 1]);
    }
  }

  /** Marking a clear bit uses up exactly one free item; clearing it gives it back. */
  lemma CountClearUpdate(bits: seq<bool>, i: nat)
    requires i < |bits| && !bits[i]
    ensures CountClear(bits) == CountClear(bits[i := true]) + 1
  {
    var pre, post := bits[..i], bits[i + 1..];
    assert bits == pre + [false] + post;
    assert bits[i := true] == pre + [true] + post;
    CountClearSplit(pre + [false], post);
    CountClearSplit(pre + [true], post);
    CountClearSplit(pre, [false]);
    CountClearSplit(pre, [true]);
    assert CountClear([false]) == 1 && CountClear([true]) == 0;
  }

  lemma {:induction false} CountClearPositive(bits: seq<bool>)
    ensures CountClear(bits) > 0 <==> exists i :: 0 <= i < |bits| && !bits[i]
  {
    if bits != [] {
      var n := |bits| - 1;
      CountClearPositive(bits[..n]);
      if i :| 0 <= i < |bits| && !bits[i] {
        if i < n { assert !bits[..n][i]; }
      }
      if i :| 0 <= i < n && !bits[..n][i] { assert !bits[i]; }
    }
  }

  lemma UpdateWord(ws: seq<word>, n: nat, which: nat, w: word)
    requires n <= BITS_IN_WORD * |ws| && which < n
    requires forall k | 0 <= k < BITS_IN_WORD && k != which % BITS_IN_WORD ::
               TestBit(w, k) == TestBit(ws[which / BITS_IN_WORD], k)
    ensures BitsOf(ws[which / BITS_IN_WORD := w], n)
            == BitsOf(ws, n)[which := TestBit(w, which % BITS_IN_WORD)]
  {
    var at := which / BITS_IN_WORD;
    var got := BitsOf(ws[at := w], n);
    var want := BitsOf(ws, n)[which := TestBit(w, which % BITS_IN_WORD)];
    forall i | 0 <= i < n
      ensures got[i] == want[i]
    {
      if i / BITS_IN_WORD == at && i != which {
        assert i % BITS_IN_WORD != which % BITS_IN_WORD;
      }
    }
  }

  class BitMap {
    const numBits: nat
    const numWords: nat
    const words: array<word>

    ghost predicate Valid() {
      numWords == words.Length && numBits <= BITS_IN_WORD * numWords
    }

    ghost function Bits(): (bits: seq<bool>)
      requires Valid()
      reads words
      ensures |bits| == numBits
    {
      BitsOf(words[..], numBits)
    }

    constructor (nitems: nat)
      ensures Valid() && fresh(words)
      ensures numBits == nitems && numWords == (nitems + BITS_IN_WORD - 1) / BITS_IN_WORD
      ensures Bits() == seq(nitems, _ => false)
    {
      numBits := nitems;
      numWords := nitems / BITS_IN_WORD + (if nitems % BITS_IN_WORD > 0 then 1 else 0);
      words := new word[nitems / BITS_IN_WORD + (if nitems % BITS_IN_WORD > 0 then 1 else 0)];
      new;
      for i := 0 to nitems
        invariant forall j | 0 <= j < i :: !Bits()[j]
      {
        Clear(i);
      }
    }

    method Mark(which: nat)
      requires Valid() && which < numBits
      modifies words
      ensures Bits() == old(Bits())[which := true]
    {
      var at, k := which / BITS_IN_WORD, which % BITS_IN_WORD;
      ghost var before := words[..];
      MaskFits(words[at], k);
      words[at] := BitOr(words[at], Pow2(k));
      assert words[..] == before[at := words[at]];
      forall j: nat ensures TestBit(words[at], j) <==> TestBit(before[at], j) || j == k {
        BitwiseBits(before[at], Pow2(k), j);
        Pow2Bits(k, j);
      }
      UpdateWord(before, numBits, which, words[at]);
    }

    method Clear(which: nat)
      requires Valid() && which < numBits
      modifies words
      ensures Bits() == old(Bits())[which := false]
    {
      var at, k := which / BITS_IN_WORD, which % BITS_IN_WORD;
      ghost var before := words[..];
      MaskFits(words[at], k);
      words[at] := BitAndNot(words[at], Pow2(k));
      assert words[..] == before[at := words[at]];
      forall j: nat ensures TestBit(words[at], j) <==> TestBit(before[at], j) && j != k {
        BitwiseBits(before[at], Pow2(k), j);
        Pow2Bits(k, j);
      }
      UpdateWord(before, numBits, which, words[at]);
    }

    method Test(which: nat) returns (marked: bool)
      requires Valid() && which < numBits
      ensures marked == Bits()[which]
    {
      MaskTestsBit(words[which / BITS_IN_WORD], which % BITS_IN_WORD);
      marked := BitAnd(words[which / BITS_IN_WORD], Pow2(which % BITS_IN_WORD)) != 0;
    }

    /** Finds and takes the first clear bit; -1 exactly when every bit is set. */
    method Find() returns (r: int)
      requires Valid()
      modifies words
      ensures r == -1 <==> CountClear(old(Bits())) == 0
      ensures r == -1 ==> Bits() == old(Bits())
      ensures r != -1 ==> 0 <= r < numBits && !old(Bits())[r] && Bits() == old(Bits())[r := true]
      ensures forall j | 0 <= j < r :: old(Bits())[j]
    {
      CountClearPositive(Bits());
      for i := 0 to numBits
        invariant forall j | 0 <= j < i :: Bits()[j]
        invariant Bits() == old(Bits())
      {
        var marked := Test(i);
        if !marked {
          Mark(i);
          return i;
        }
      }
      return -1;
    }

    method NumClear() returns (count: nat)
      requires Valid()
      ensures count == CountClear(Bits())
    {
      count := 0;
      for i := 0 to numBits
        invariant count == CountClear(Bits()[..i])
      {
        var marked := Test(i);
        assert Bits()[..i + 1][..i] == Bits()[..i];
        if !marked { count := count + 1; }
      }
      assert Bits()[..numBits] == Bits();
    }
  }

  lemma MaskFits(w: word, k: nat)
    requires k < BITS_IN_WORD
    ensures BitOr(w, Pow2(k)) < WORD_LIMIT && BitAndNot(w, Pow2(k)) < WORD_LIMIT
  {
    Pow2Word();
    Pow2Monotone(k, 31);
    BitwiseBound(w, Pow2(k), 32);
  }
}
