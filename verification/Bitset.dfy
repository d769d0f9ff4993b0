/**
 The fields_seen words of the decoder (pb_decode.c:930-931, 1015-1020, 1053-1071): 32-bit words
 with one bit per REQUIRED field, and the two comparisons that check the first n bits.
 */
module Bitset {
  import opened Varint
  import opened Integers

  predicate Bit(w: nat, k: nat) {
    w / Pow2(k) % 2 == 1
  }

  /** w | (1 << k) */
  function SetBit(w: nat, k: nat): nat {
    if Bit(w, k) then w else w + Pow2(k)
  }

  /** The word of the first n positions from base on: bit k is set when base + k is in the set. */
  function WordOf(s: set<nat>, base: nat, n: nat): nat {
    if n == 0 then 0 else WordOf(s, base, n - 1) + if base + n - 1 in s then Pow2(n - 1) else 0
  }

  lemma {:induction false} WordBound(s: set<nat>, base: nat, n: nat)
    ensures WordOf(s, base, n) < Pow2(n)
  {
    if n > 0 {
      WordBound(s, base, n - 1);
    }
  }

  lemma {:induction false} WordBit(s: set<nat>, base: nat, n: nat, k: nat)
    requires k < n
    ensures Bit(WordOf(s, base, n), k) <==> base + k in s
    decreases n
  {
    hide Pow2;
    var w := WordOf(s, base, n - 1);
    WordBound(s, base, n - 1);
    if k == n - 1 {
      if base + k in s {
        DivOne(w, Pow2(k));
      } else {
        DivZero(w, Pow2(k));
      }
    } else {
      WordBit(s, base, n - 1, k);
      if base + n - 1 in s {
        var d := HigherPower(n - 1, k);
        AddEven(w, Pow2(k), d);
      }
    }
  }

  lemma DivOne(w: nat, p: nat)
    requires w < p
    ensures (w + p) / p == 1
  {
  }

  lemma DivZero(w: nat, p: nat)
    requires w < p
    ensures w / p == 0
  {
  }

  lemma {:induction false} HigherPower(n: nat, k: nat) returns (d: nat)
    requires k < n
    ensures Pow2(n) == Pow2(k) * (2 * d)
    decreases n
  {
    if k == n - 1 {
      d := 1;
    } else {
      var e := HigherPower(n - 1, k);
      d := 2 * e;
      assert 2 * (Pow2(k) * (2 * e)) == Pow2(k) * (2 * d);
    }
  }

  lemma AddEven(w: nat, p: nat, d: nat)
    requires p > 0
    ensures (w + p * (2 * d)) / p % 2 == w / p % 2
  {
    var q, r := w / p, w % p;
    assert w + p * (2 * d) == p * (q + 2 * d) + r by {
      assert w == p * q + r;
      assert p * (q + 2 * d) == p * q + p * (2 * d);
    }
    DivMod(p, q + 2 * d, r);
  }

  lemma DivMod(p: nat, q: nat, r: nat)
    requires r < p
    ensures (p * q + r) / p == q
  {
    var v := p * q + r;
    var q' := v / p;
    assert p * q' + v % p == v;
    if q' > q { MulMonotonic(p, q + 1, q'); }
    if q' < q { MulMonotonic(p, q' + 1, q); }
  }

  lemma {:induction false} WordAdd(s: set<nat>, base: nat, n: nat, r: nat)
    ensures WordOf(s + {r}, base, n) ==
            WordOf(s, base, n) + if base <= r < base + n && r !in s then Pow2(r - base) else 0
  {
    if n > 0 {
      WordAdd(s, base, n - 1, r);
    }
  }

  /** Marking a position as seen is or-ing its bit into its word; other words do not change. */
  lemma MarkBit(s: set<nat>, base: nat, r: nat)
    ensures WordOf(s + {r}, base, 32) ==
            if base <= r < base + 32 then SetBit(WordOf(s, base, 32), r - base) else WordOf(s, base, 32)
  {
    WordAdd(s, base, 32, r);
    if base <= r < base + 32 {
      WordBit(s, base, 32, r - base);
    }
  }

  /** The low n bits are all set exactly when the first n positions are in the set. */
  lemma {:induction false} WordFull(s: set<nat>, base: nat, n: nat)
    ensures WordOf(s, base, n) == Pow2(n) - 1 <==> forall r :: base <= r < base + n ==> r in s
  {
    if n > 0 {
      WordFull(s, base, n - 1);
      WordBound(s, base, n - 1);
      if WordOf(s, base, n) == Pow2(n) - 1 {
        assert base + n - 1 in s;
      }
    }
  }

  /** Positions past n that are not in the set leave their bits clear. */
  lemma {:induction false} WordShort(s: set<nat>, base: nat, n: nat, l: nat)
    requires n <= l && forall r :: base + n <= r < base + l ==> r !in s
    ensures WordOf(s, base, l) == WordOf(s, base, n)
    decreases l
  {
    if n < l {
      WordShort(s, base, n, l - 1);
    }
  }

  /** allbits >> (32 - n) */
  lemma AllBitsShifted(n: nat)
    requires n <= 32
    ensures (TWO32 - 1) / Pow2(32 - n) == Pow2(n) - 1
  {
    Pow2Product(n, 32 - n);
    Pow2Words();
    DivPred(Pow2(32 - n), Pow2(n));
  }

  lemma DivPred(p: nat, q: nat)
    requires p >= 1 && q >= 1
    ensures p * q >= 1 && (p * q - 1) / p == q - 1
  {
    MulMonotonic(p, 1, q);
    assert p * q - 1 == p * (q - 1) + (p - 1);
    DivMod(p, q - 1, p - 1);
  }

  lemma {:induction false} Pow2Product(a: nat, b: nat)
    ensures Pow2(b) * Pow2(a) == Pow2(a + b)
    decreases b
  {
    if b > 0 {
      Pow2Product(a, b - 1);
      DoubleFactor(Pow2(b - 1), Pow2(a));
    }
  }

  lemma DoubleFactor(x: nat, y: nat)
    ensures 2 * x * y == 2 * (x * y)
  {
  }

  /** The two words hold a set of positions below 64. */
  predicate Holds(words: seq<nat>, s: set<nat>) {
    |words| == 2 && words[0] == WordOf(s, 0, 32) && words[1] == WordOf(s, 32, 32)
  }

  lemma Mark(words: seq<nat>, s: set<nat>, r: nat)
    requires Holds(words, s) && r < 64
    ensures Holds(words[r / 32 := SetBit(words[r / 32], r % 32)], s + {r})
  {
    MarkBit(s, 0, r);
    MarkBit(s, 32, r);
  }

  /** The check of the source: whole words against all ones, the last one against its low bits. */
  predicate FirstSeen(words: seq<nat>, n: nat)
    requires |words| == 2 && n <= 64
  {
    && (forall i :: 0 <= i < n / 32 ==> words[i] == TWO32 - 1)
    && (n % 32 != 0 ==> words[n / 32] == (TWO32 - 1) / Pow2(32 - n % 32))
  }

  /** It passes exactly when the first n positions are in the set; it relies on none above being
      in it. */
  lemma FirstSeenExact(words: seq<nat>, s: set<nat>, n: nat)
    requires Holds(words, s) && n <= 64
    requires forall r :: r in s ==> r < n
    ensures FirstSeen(words, n) <==> forall r :: 0 <= r < n ==> r in s
  {
    WholeWord(s, 0);
    WholeWord(s, 32);
    if n < 32 {
      PartWord(s, 0, n);
    } else if n < 64 {
      assert 0 < n / 32;
      PartWord(s, 32, n - 32);
    } else {
      assert 0 < n / 32 && 1 < n / 32;
    }
  }

  lemma WholeWord(s: set<nat>, base: nat)
    ensures WordOf(s, base, 32) == TWO32 - 1 <==> forall r :: base <= r < base + 32 ==> r in s
  {
    Pow2Words();
    WordFull(s, base, 32);
  }

  lemma PartWord(s: set<nat>, base: nat, k: nat)
    requires k < 32 && forall r :: base + k <= r < base + 32 ==> r !in s
    ensures WordOf(s, base, 32) == (TWO32 - 1) / Pow2(32 - k) <==> forall r :: base <= r < base + k ==> r in s
    ensures k == 0 ==> WordOf(s, base, 32) == 0
  {
    AllBitsShifted(k);
    WordShort(s, base, k, 32);
    WordFull(s, base, k);
  }
}
