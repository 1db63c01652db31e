/** Physical memory as bytes, little-endian 64-bit words in it, and the meaning of the
    kernel's own memset and memcpy (kernel/misc/utils.c) on it.
    Memory is total: a store outside RAM is dropped and a load there reads 0xFF. */
module Memory {
  import opened Words

  type Ram = seq<Byte>
  /** A boot module as the loader sees it: the byte at every offset from its start. */
  type Image = nat -> Byte

  const PAGE: nat := 4096

  lemma PagesApart(p: nat, q: nat)
    requires p % 4096 == 0 && q % 4096 == 0 && p != q
    ensures p + 4096 <= q || q + 4096 <= p
  {
    assert p == 4096 * (p / 4096) && q == 4096 * (q / 4096);
  }

  function Load(m: Ram, a: nat): Byte { if a < |m| then m[a] else 0xFF }

  function Store(m: Ram, a: nat, v: Byte): Ram { if a < |m| then m[a := v] else m }

  // ---- little-endian words ----

  function LE(m: Ram, a: nat, k: nat): nat
    decreases k, a
  {
    if k == 0 then 0 else Load(m, a) + 256 * LE(m, a + 1, k - 1)
  }

  function Pow256(k: nat): (r: nat)
    ensures r > 0
  {
    if k == 0 then 1 else 256 * Pow256(k - 1)
  }

  lemma {:induction false} LEBound(m: Ram, a: nat, k: nat)
    ensures LE(m, a, k) < Pow256(k)
    decreases k
  {
    if k > 0 {
      LEBound(m, a + 1, k - 1);
    }
  }

  lemma Pow256At8()
    ensures Pow256(8) == TWO64
  {
    assert Pow256(4) == 0x1_0000_0000 by { assert Pow256(2) == 0x1_0000; }
  }

  function Word(m: Ram, a: nat): U64
  {
    Pow256At8();
    LEBound(m, a, 8);
    LE(m, a, 8)
  }

  /** A word is its eight bytes, the least significant first. */
  lemma {:induction false} WordBytes(m: Ram, a: nat)
    requires a + 8 <= |m|
    ensures var b := (k: nat) requires k < 8 => m[a + k] as int;
            Word(m, a) == b(0) + 0x100 * b(1) + 0x1_0000 * b(2) + 0x100_0000 * b(3) +
                          0x1_0000_0000 * (b(4) + 0x100 * b(5) + 0x1_0000 * b(6) + 0x100_0000 * b(7))
  {
    FourBytes(m, a, 4);
    FourBytes(m, a + 4, 0);
  }

  lemma {:induction false} FourBytes(m: Ram, a: nat, k: nat)
    requires a + 4 <= |m|
    ensures var b := (i: nat) requires i < 4 => m[a + i] as int;
            LE(m, a, 4 + k) ==
            b(0) + 0x100 * b(1) + 0x1_0000 * b(2) + 0x100_0000 * b(3) + 0x1_0000_0000 * LE(m, a + 4, k)
  {
    assert LE(m, a + 3, 1 + k) == m[a + 3] as int + 256 * LE(m, a + 4, k);
    assert LE(m, a + 2, 2 + k) == m[a + 2] as int + 256 * LE(m, a + 3, 1 + k);
    assert LE(m, a + 1, 3 + k) == m[a + 1] as int + 256 * LE(m, a + 2, 2 + k);
  }

  function StoreLE(m: Ram, a: nat, v: nat, k: nat): (r: Ram)
    ensures |r| == |m|
    decreases k, a
  {
    if k == 0 then m else StoreLE(Store(m, a, v % 256), a + 1, v / 256, k - 1)
  }

  function StoreWord(m: Ram, a: nat, v: U64): (r: Ram)
    ensures |r| == |m|
  {
    StoreLE(m, a, v, 8)
  }

  lemma {:induction false} StoreLEFrame(m: Ram, a: nat, v: nat, k: nat)
    ensures forall b :: 0 <= b < |m| && !(a <= b < a + k) ==> StoreLE(m, a, v, k)[b] == m[b]
    decreases k
  {
    if k > 0 {
      StoreLEFrame(Store(m, a, v % 256), a + 1, v / 256, k - 1);
    }
  }

  lemma {:induction false} LESame(m: Ram, n: Ram, a: nat, k: nat)
    requires forall b :: a <= b < a + k ==> Load(m, b) == Load(n, b)
    ensures LE(m, a, k) == LE(n, a, k)
    decreases k
  {
    if k > 0 {
      LESame(m, n, a + 1, k - 1);
    }
  }

  lemma {:induction false} LEStoreLE(m: Ram, a: nat, v: nat, k: nat)
    requires a + k <= |m| && v < Pow256(k)
    ensures LE(StoreLE(m, a, v, k), a, k) == v
    decreases k
  {
    if k > 0 {
      var m1 := Store(m, a, v % 256);
      LEStoreLE(m1, a + 1, v / 256, k - 1);
      StoreLEFrame(m1, a + 1, v / 256, k - 1);
    }
  }

  /** A stored word reads back, every byte outside its eight keeps its value, and so does
      every word that does not overlap it. */
  lemma StoreWordEffect(m: Ram, a: nat, v: U64)
    ensures |StoreWord(m, a, v)| == |m|
    ensures a + 8 <= |m| ==> Word(StoreWord(m, a, v), a) == v
    ensures forall b :: 0 <= b < |m| && !(a <= b < a + 8) ==> StoreWord(m, a, v)[b] == m[b]
    ensures forall b: nat :: b + 8 <= a || a + 8 <= b ==> Word(StoreWord(m, a, v), b) == Word(m, b)
  {
    StoreLEFrame(m, a, v, 8);
    if a + 8 <= |m| {
      Pow256At8();
      LEStoreLE(m, a, v, 8);
    }
    forall b: nat | b + 8 <= a || a + 8 <= b
      ensures Word(StoreWord(m, a, v), b) == Word(m, b)
    {
      LESame(StoreWord(m, a, v), m, b, 8);
    }
  }

  /** Words agree where their bytes do. */
  lemma WordSame(m: Ram, n: Ram, a: nat)
    requires |m| == |n|
    requires forall b :: a <= b < a + 8 && b < |m| ==> m[b] == n[b]
    ensures Word(m, a) == Word(n, a)
  {
    LESame(m, n, a, 8);
  }

  // ---- memset and memcpy ----

  /** How far a 64-bit pointer counts up from `d` to reach `i`, passing through zero if it must. */
  function Distance(d: U64, i: nat): nat { if d <= i then i - d else TWO64 + i - d }

  /** The 64-bit pointer `d + i`. */
  function Advance(d: U64, i: U64): U64 { if d + i < TWO64 then d + i else d + i - TWO64 }

  /** Address `i` is one of the `n` addresses that a 64-bit pointer visits counting up from `d`. */
  predicate Within(i: nat, d: U64, n: U64) { i < TWO64 && Distance(d, i) < n }

  function MemSet(m: Ram, d: U64, v: Byte, n: U64): (r: Ram)
    ensures |r| == |m|
  {
    seq(|m|, i requires 0 <= i < |m| => if Within(i, d, n) then v else m[i])
  }

  /** The addresses that a 64-bit pointer visits in `n` steps from `d`. */
  ghost predicate Visited(b: nat, d: U64, n: U64)
  {
    exists i: nat :: i < n && b == Advance(d, i)
  }

  lemma AdvanceIs(d: U64, i: U64)
    ensures Advance(d, i) == (d + i) % 0x1_0000_0000_0000_0000
  {
  }

  lemma VisitedIff(b: nat, d: U64, n: U64)
    ensures Within(b, d, n) <==> Visited(b, d, n)
    ensures Within(b, d, n) ==> b == Advance(d, Distance(d, b))
  {
    if Within(b, d, n) {
      assert b == Advance(d, Distance(d, b));
    }
  }

  /** memset and the copy from a file, address by address as the pointer counts up. */
  lemma FillsVisited(m: Ram, d: U64, v: Byte, f: Image, off: nat, n: U64, b: nat)
    requires b < |m|
    ensures MemSet(m, d, v, n)[b] == if Visited(b, d, n) then v else m[b]
    ensures !Visited(b, d, n) ==> CopyIn(m, d, f, off, n)[b] == m[b]
    ensures forall i: nat :: i < n && b == Advance(d, i) ==> CopyIn(m, d, f, off, n)[b] == f(off + i)
  {
    VisitedIff(b, d, n);
  }

  /** Where the pointer does not wrap, memset fills exactly [d, d + n). */
  lemma MemSetRange(m: Ram, d: U64, v: Byte, n: U64)
    requires d + n <= TWO64 && |m| <= TWO64
    ensures forall b: nat :: b < |m| ==> MemSet(m, d, v, n)[b] == if d <= b < d + n then v else m[b]
  {
  }

  /** Copy `n` bytes of an image, from offset `off` on, to `d`. */
  function CopyIn(m: Ram, d: U64, f: Image, off: nat, n: U64): (r: Ram)
    ensures |r| == |m|
  {
    seq(|m|, i requires 0 <= i < |m| => if Within(i, d, n) then f(off + Distance(d, i)) else m[i])
  }

  lemma CopyInRange(m: Ram, d: U64, f: Image, off: nat, n: U64)
    requires d + n <= TWO64 && |m| <= TWO64
    ensures forall b: nat :: b < |m| ==> CopyIn(m, d, f, off, n)[b] == if d <= b < d + n then f(off + (b - d)) else m[b]
  {
  }

  /** The ascending byte copy, written the way its loop runs so that overlap is covered too. */
  function MemCpy(m: Ram, d: nat, s: nat, n: nat): (r: Ram)
    ensures |r| == |m|
    decreases n, d
  {
    if n == 0 then m else MemCpy(Store(m, d, Load(m, s)), d + 1, s + 1, n - 1)
  }

  lemma {:induction false} MemCpyDisjoint(m: Ram, d: nat, s: nat, n: nat)
    requires d + n <= |m| && s + n <= |m|
    requires d + n <= s || s + n <= d
    ensures forall b :: 0 <= b < |m| && !(d <= b < d + n) ==> MemCpy(m, d, s, n)[b] == m[b]
    ensures forall b :: d <= b < d + n ==> MemCpy(m, d, s, n)[b] == m[b - d + s]
    decreases n
  {
    if n > 0 {
      var m1 := Store(m, d, Load(m, s));
      MemCpyDisjoint(m1, d + 1, s + 1, n - 1);
      forall b | d <= b < d + n
        ensures MemCpy(m, d, s, n)[b] == m[b - d + s]
      {
        assert b - (d + 1) + (s + 1) == b - d + s;
      }
    }
  }

  lemma {:induction false} ZeroLE(m: Ram, a: nat, k: nat)
    requires a + k <= |m|
    requires forall b :: a <= b < a + k ==> m[b] == 0
    ensures LE(m, a, k) == 0
    decreases k
  {
    if k > 0 {
      ZeroLE(m, a + 1, k - 1);
    }
  }

  lemma {:induction false} ShiftedLE(m: Ram, n: Ram, a: nat, b: nat, k: nat)
    requires a + k <= |m| && b + k <= |n|
    requires forall i :: a <= i < a + k ==> m[i] == n[i - a + b]
    ensures LE(m, a, k) == LE(n, b, k)
    decreases k
  {
    if k > 0 {
      assert m[a] == n[a - a + b];
      forall i | a + 1 <= i < a + k
        ensures m[i] == n[i - (a + 1) + (b + 1)]
      {
        assert i - (a + 1) + (b + 1) == i - a + b;
      }
      ShiftedLE(m, n, a + 1, b + 1, k - 1);
    }
  }
}
