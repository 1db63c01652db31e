/** The ELF file and the initial register frame as kernel/tasks/tasks.h lays them out, and the
    checks and sizes that run_elf (kernel/tasks/tasks.c) takes from them. */
module Elf {
  import opened Words
  import opened Memory
  import opened Pmm

  function U16At(f: Image, o: nat): U16 { f(o) + 256 * f(o + 1) }

  function U32At(f: Image, o: nat): U32 { U16At(f, o) + 0x1_0000 * U16At(f, o + 2) }

  function U64At(f: Image, o: nat): U64 { U32At(f, o) + 0x1_0000_0000 * U32At(f, o + 4) }

  /** An entry of the program header table. */
  datatype Segment = Segment(kind: U32, offset: U64, vaddr: U64, filesz: U64, memsz: U64)

  function EntryPoint(f: Image): U64 { U64At(f, 24) }

  function SegmentCount(f: Image): U16 { U16At(f, 56) }

  /** Entry `i`; the table's stride is the size of the structure, whatever the header says. */
  function SegmentAt(f: Image, i: nat): Segment
  {
    var o := U64At(f, 32) + 56 * i;
    Segment(U32At(f, o), U64At(f, o + 8), U64At(f, o + 16), U64At(f, o + 32), U64At(f, o + 40))
  }

  /** The code that run_elf refuses a file with, or 0. */
  function Refusal(f: Image, bytes: U32): nat
  {
    if bytes <= 120 then 1
    else if f(0) != 0x7F then 2
    else if U16At(f, 18) != 0x3E then 3
    else if f(4) != 2 then 4
    else if f(5) != 1 then 5
    else if U16At(f, 16) != 2 then 6
    else 0
  }

  /** Entries that take memory. */
  predicate Loads(g: Segment) { g.kind == 1 && g.memsz != 0 }

  /** `ALIGNUP` as the C grammar reads it: the 64-bit sum is only the condition of `? 1 : 0`. */
  function AlignUp(addr: U64): nat
  {
    var sum := Align(addr) + addr % 4096;
    if sum == 0 || sum == TWO64 then 0 else 1
  }

  /** The number of pages that `n` bytes need. */
  function Pages(n: nat): nat { (n + 4095) / 4096 }

  /** `ALIGNUP` is the number of pages needed exactly up to one page. */
  lemma AlignUpIff(n: U64)
    ensures AlignUp(n) == Pages(n) <==> n <= 4096
    ensures AlignUp(n) == if n == 0 || n == 0xFFFF_FFFF_FFFF_F800 then 0 else 1
  {
    AlignUpIs(n);
    hide AlignUp;
    if n > 4096 {
      assert Pages(n) >= 2;
    }
  }

  lemma {:induction false} AlignUpIs(n: U64)
    ensures AlignUp(n) == if n == 0 || n == 0xFFFF_FFFF_FFFF_F800 then 0 else 1
  {
    var q, c := n / 1024, n % 1024;
    var h, d := q / 4, q % 4;
    assert n == 1024 * q + c && q == 4 * h + d;
    assert n == 4096 * h + (1024 * d + c);
    DivModOf(4096, h, 1024 * d + c);
    hide Align;
    AlignOf(n, q, c);
    SumWraps(q, h, d, c);
  }

  lemma AlignOf(n: U64, q: nat, c: nat)
    requires n == 1024 * q + c && c == n % 1024
    ensures Align(n) == 1024 * q
  {
  }

  lemma SumWraps(q: nat, h: nat, d: nat, c: nat)
    requires q == 4 * h + d && d < 4 && c < 1024 && 1024 * q + c < TWO64
    ensures 1024 * q + (1024 * d + c) == TWO64 <==> 1024 * q + c == 0xFFFF_FFFF_FFFF_F800
  {
    if 1024 * q + (1024 * d + c) == TWO64 {
      assert c == 0 && q + d == 0x40_0000_0000_0000;
      assert 4 * h + 2 * d == 0x40_0000_0000_0000;
    }
  }

  // ---- the checks ----

  /** The six things that an accepted file has, in the order they are looked at. */
  function Checks(f: Image, bytes: U32): seq<bool>
  {
    [bytes > 120, f(0) == 0x7F, U16At(f, 18) == 0x3E, f(4) == 2, f(5) == 1, U16At(f, 16) == 2]
  }

  /** run_elf refuses exactly the files that fail a check, with the number of the first that fails. */
  lemma RefusalFirst(f: Image, bytes: U32)
    ensures Refusal(f, bytes) <= 6
    ensures Refusal(f, bytes) == 0 <==> forall i :: 0 <= i < 6 ==> Checks(f, bytes)[i]
    ensures var c := Refusal(f, bytes);
            c > 0 ==> !Checks(f, bytes)[c - 1] && forall i :: 0 <= i < c - 1 ==> Checks(f, bytes)[i]
  {
    var cs := Checks(f, bytes);
    assert (forall i :: 0 <= i < 6 ==> cs[i]) <==> cs[0] && cs[1] && cs[2] && cs[3] && cs[4] && cs[5];
  }

  // ---- the layout ----

  /** The `k` bytes of a field, least significant first. */
  function FieldBytes(v: nat, k: nat): (r: seq<Byte>)
    ensures |r| == k
    decreases k, v
  {
    if k == 0 then [] else [v % 256] + FieldBytes(v / 256, k - 1)
  }

  /** `f` has the bytes `s` from offset `o` on. */
  predicate Holds(f: Image, o: nat, s: seq<Byte>) { forall i: nat :: i < |s| ==> f(o + i) == s[i] }

  lemma HoldsParts(f: Image, o: nat, s: seq<Byte>, t: seq<Byte>)
    requires Holds(f, o, s + t)
    ensures Holds(f, o, s) && Holds(f, o + |s|, t)
  {
    forall i: nat | i < |s|
      ensures f(o + i) == s[i]
    {
      assert (s + t)[i] == s[i];
    }
    forall i: nat | i < |t|
      ensures f(o + |s| + i) == t[i]
    {
      assert (s + t)[|s| + i] == t[i];
      assert o + (|s| + i) == o + |s| + i;
    }
  }

  lemma Read16(f: Image, o: nat, v: U16)
    requires Holds(f, o, FieldBytes(v, 2))
    ensures U16At(f, o) == v
  {
    var s := FieldBytes(v, 2);
    assert s == [v % 256] + FieldBytes(v / 256, 1);
    assert FieldBytes(v / 256, 1) == [v / 256 % 256] + FieldBytes(v / 256 / 256, 0);
    assert f(o + 0) == s[0] && f(o + 1) == s[1];
  }

  /** `v >> 8 * j` */
  function ShiftBytes(v: nat, j: nat): nat
    decreases j, v
  {
    if j == 0 then v else ShiftBytes(v / 256, j - 1)
  }

  lemma {:induction false} SplitField(v: nat, j: nat, k: nat)
    ensures FieldBytes(v, j + k) == FieldBytes(v, j) + FieldBytes(ShiftBytes(v, j), k)
    decreases j
  {
    if j > 0 {
      SplitField(v / 256, j - 1, k);
    }
  }

  lemma ShiftTwo(v: nat)
    ensures ShiftBytes(v, 2) == v / 0x1_0000
  {
    assert ShiftBytes(v, 2) == ShiftBytes(v / 256, 1) == v / 256 / 256;
  }

  lemma ShiftFour(v: nat)
    ensures ShiftBytes(v, 4) == v / 0x1_0000_0000
  {
    var w := v / 0x1_0000;
    assert ShiftBytes(v, 4) == ShiftBytes(v / 256, 3) == ShiftBytes(v / 256 / 256, 2);
    assert v / 256 / 256 == w;
    ShiftTwo(w);
    assert w / 0x1_0000 == v / 0x1_0000_0000;
  }

  lemma Read32(f: Image, o: nat, v: U32)
    requires Holds(f, o, FieldBytes(v, 4))
    ensures U32At(f, o) == v
  {
    hide FieldBytes;
    SplitField(v, 2, 2);
    ShiftTwo(v);
    HoldsParts(f, o, FieldBytes(v, 2), FieldBytes(v / 0x1_0000, 2));
    LowField(v);
    Read16(f, o, v % 0x1_0000);
    Read16(f, o + 2, v / 0x1_0000);
  }

  lemma LowField(v: nat)
    ensures FieldBytes(v, 2) == FieldBytes(v % 0x1_0000, 2)
  {
    assert FieldBytes(v, 2) == [v % 256] + FieldBytes(v / 256, 1);
    assert FieldBytes(v / 256, 1) == [v / 256 % 256] + FieldBytes(v / 256 / 256, 0);
    var w := v % 0x1_0000;
    assert FieldBytes(w, 2) == [w % 256] + FieldBytes(w / 256, 1);
    assert FieldBytes(w / 256, 1) == [w / 256 % 256] + FieldBytes(w / 256 / 256, 0);
    var q := v / 0x1_0000;
    assert v == 0x1_0000 * q + w;
    assert v / 256 == 256 * q + w / 256;
  }

  lemma Read64(f: Image, o: nat, v: U64)
    requires Holds(f, o, FieldBytes(v, 8))
    ensures U64At(f, o) == v
  {
    hide FieldBytes;
    SplitField(v, 4, 4);
    ShiftFour(v);
    HoldsParts(f, o, FieldBytes(v, 4), FieldBytes(v / 0x1_0000_0000, 4));
    LowField32(v);
    Read32(f, o, v % 0x1_0000_0000);
    Read32(f, o + 4, v / 0x1_0000_0000);
  }

  lemma LowField32(v: nat)
    ensures FieldBytes(v, 4) == FieldBytes(v % 0x1_0000_0000, 4)
  {
    hide FieldBytes;
    var w := v % 0x1_0000_0000;
    SplitField(v, 2, 2);
    SplitField(w, 2, 2);
    ShiftTwo(v);
    ShiftTwo(w);
    LowField(v);
    LowField(w);
    LowField(v / 0x1_0000);
    LowField(w / 0x1_0000);
    var q := v / 0x1_0000_0000;
    assert v == 0x1_0000_0000 * q + w;
    assert v / 0x1_0000 == 0x1_0000 * q + w / 0x1_0000;
    assert v % 0x1_0000 == w % 0x1_0000;
    assert (v / 0x1_0000) % 0x1_0000 == (w / 0x1_0000) % 0x1_0000;
  }

  /** A program header as the System V gABI lays it out (chapter 5, "Program Header", Elf64_Phdr). */
  function ProgramHeader(g: Segment, flags: U32, paddr: U64, align: U64): seq<Byte>
  {
    FieldBytes(g.kind, 4) + (FieldBytes(flags, 4) + (FieldBytes(g.offset, 8) + (FieldBytes(g.vaddr, 8) +
    (FieldBytes(paddr, 8) + (FieldBytes(g.filesz, 8) + (FieldBytes(g.memsz, 8) + FieldBytes(align, 8)))))))
  }

  /** Entry `i` of the table reads back as the segment that was laid out there. */
  lemma SegmentRoundTrip(f: Image, i: nat, g: Segment, flags: U32, paddr: U64, align: U64)
    requires Holds(f, U64At(f, 32) + 56 * i, ProgramHeader(g, flags, paddr, align))
    ensures SegmentAt(f, i) == g
  {
    hide FieldBytes, Holds, U64At, U32At;
    var o := U64At(f, 32) + 56 * i;
    var s7 := FieldBytes(g.memsz, 8) + FieldBytes(align, 8);
    var s6 := FieldBytes(g.filesz, 8) + s7;
    var s5 := FieldBytes(paddr, 8) + s6;
    var s4 := FieldBytes(g.vaddr, 8) + s5;
    var s3 := FieldBytes(g.offset, 8) + s4;
    var s2 := FieldBytes(flags, 4) + s3;
    HoldsParts(f, o, FieldBytes(g.kind, 4), s2);
    HoldsParts(f, o + 4, FieldBytes(flags, 4), s3);
    HoldsParts(f, o + 8, FieldBytes(g.offset, 8), s4);
    HoldsParts(f, o + 16, FieldBytes(g.vaddr, 8), s5);
    HoldsParts(f, o + 24, FieldBytes(paddr, 8), s6);
    HoldsParts(f, o + 32, FieldBytes(g.filesz, 8), s7);
    HoldsParts(f, o + 40, FieldBytes(g.memsz, 8), FieldBytes(align, 8));
    Read32(f, o, g.kind);
    Read64(f, o + 8, g.offset);
    Read64(f, o + 16, g.vaddr);
    Read64(f, o + 32, g.filesz);
    Read64(f, o + 40, g.memsz);
  }

  /** The fields of a file header; `ident` is its first sixteen bytes. */
  datatype Header = Header(ident: seq<Byte>, kind: U16, machine: U16, version: U32, entry: U64, phoff: U64, shoff: U64,
                           flags: U32, ehsize: U16, phentsize: U16, phnum: U16)

  /** The header up to the number of program headers (System V gABI, chapter 4, "ELF Header"). */
  function HeaderBytes(h: Header): seq<Byte>
  {
    h.ident + (FieldBytes(h.kind, 2) + (FieldBytes(h.machine, 2) + (FieldBytes(h.version, 4) + (FieldBytes(h.entry, 8) +
    (FieldBytes(h.phoff, 8) + (FieldBytes(h.shoff, 8) + (FieldBytes(h.flags, 4) + (FieldBytes(h.ehsize, 2) +
    (FieldBytes(h.phentsize, 2) + FieldBytes(h.phnum, 2))))))))))
  }

  /** What run_elf reads of a file that starts with a header is what the header says. */
  lemma HeaderRoundTrip(f: Image, h: Header)
    requires |h.ident| == 16 && Holds(f, 0, HeaderBytes(h))
    ensures f(0) == h.ident[0] && f(4) == h.ident[4] && f(5) == h.ident[5]
    ensures U16At(f, 16) == h.kind && U16At(f, 18) == h.machine
    ensures EntryPoint(f) == h.entry && U64At(f, 32) == h.phoff && SegmentCount(f) == h.phnum
  {
    hide FieldBytes, U64At, U32At, U16At;
    var s9 := FieldBytes(h.phentsize, 2) + FieldBytes(h.phnum, 2);
    var s8 := FieldBytes(h.ehsize, 2) + s9;
    var s7 := FieldBytes(h.flags, 4) + s8;
    var s6 := FieldBytes(h.shoff, 8) + s7;
    var s5 := FieldBytes(h.phoff, 8) + s6;
    var s4 := FieldBytes(h.entry, 8) + s5;
    var s3 := FieldBytes(h.version, 4) + s4;
    var s2 := FieldBytes(h.machine, 2) + s3;
    var s1 := FieldBytes(h.kind, 2) + s2;
    HoldsParts(f, 0, h.ident, s1);
    assert f(0 + 0) == h.ident[0] && f(0 + 4) == h.ident[4] && f(0 + 5) == h.ident[5];
    hide Holds;
    HoldsParts(f, 16, FieldBytes(h.kind, 2), s2);
    HoldsParts(f, 18, FieldBytes(h.machine, 2), s3);
    HoldsParts(f, 20, FieldBytes(h.version, 4), s4);
    HoldsParts(f, 24, FieldBytes(h.entry, 8), s5);
    HoldsParts(f, 32, FieldBytes(h.phoff, 8), s6);
    HoldsParts(f, 40, FieldBytes(h.shoff, 8), s7);
    HoldsParts(f, 48, FieldBytes(h.flags, 4), s8);
    HoldsParts(f, 52, FieldBytes(h.ehsize, 2), s9);
    HoldsParts(f, 54, FieldBytes(h.phentsize, 2), FieldBytes(h.phnum, 2));
    Read16(f, 16, h.kind);
    Read16(f, 18, h.machine);
    Read64(f, 24, h.entry);
    Read64(f, 32, h.phoff);
    Read16(f, 56, h.phnum);
  }

  // ---- the register frame ----

  /** ProcessState: 22 words. */
  const FRAME_BYTES := 176
  const RBP := 8
  const RIP := 17
  const RSP := 20
  const STACK_TOP: U64 := 0x800_0000
  const STACK_PAGE: U64 := 0x7FF_F000

  type Frame = r: seq<U64> | |r| == 22 witness seq(22, _ => 0)

  /** `state` when run_elf copies it: three fields are set, the others are what `junk`, the stack
      memory it was declared in, held. */
  function InitialFrame(junk: Frame, entry: U64): Frame
  {
    junk[RIP := entry][RBP := STACK_TOP][RSP := STACK_TOP - FRAME_BYTES]
  }

  function ByteOf(w: nat, k: nat): Byte
    decreases k, w
  {
    if k == 0 then w % 256 else ByteOf(w / 256, k - 1)
  }

  /** The frame as bytes in memory. */
  function FrameImage(r: Frame): Image
  {
    (i: nat) => if i < 176 then ByteOf(r[i / 8], i % 8) else 0
  }

  lemma {:induction false} LEOfBytes(m: Ram, a: nat, w: nat, j: nat, v: nat, k: nat)
    requires a + k <= |m| && v < Pow256(k)
    requires forall i: nat :: i < k ==> ByteOf(v, i) == ByteOf(w, j + i)
    requires forall b :: a <= b < a + k ==> m[b] == ByteOf(w, j + (b - a))
    ensures LE(m, a, k) == v
    decreases k
  {
    if k > 0 {
      assert ByteOf(v, 0) == ByteOf(w, j + 0);
      assert m[a] == ByteOf(w, j + (a - a));
      forall i: nat | i < k - 1
        ensures ByteOf(v / 256, i) == ByteOf(w, j + 1 + i)
      {
        assert ByteOf(v, i + 1) == ByteOf(w, j + (i + 1));
      }
      forall b | a + 1 <= b < a + 1 + (k - 1)
        ensures m[b] == ByteOf(w, j + 1 + (b - (a + 1)))
      {
        assert j + 1 + (b - (a + 1)) == j + (b - a);
      }
      LEOfBytes(m, a + 1, w, j + 1, v / 256, k - 1);
    }
  }

  /** Where the frame's bytes are in memory, its words read back. */
  lemma FrameWord(m: Ram, d: nat, r: Frame, k: nat)
    requires k < 22 && d + 176 <= |m|
    requires forall b: nat :: d <= b < d + 176 ==> m[b] == FrameImage(r)(b - d)
    ensures Word(m, d + 8 * k) == r[k]
  {
    Pow256At8();
    hide LE, Pow256, ByteOf;
    forall b | d + 8 * k <= b < d + 8 * k + 8
      ensures m[b] == ByteOf(r[k], 0 + (b - (d + 8 * k)))
    {
      var i := b - d;
      assert i / 8 == k && i % 8 == b - (d + 8 * k) by { DivModOf(8, k, b - (d + 8 * k)); }
    }
    LEOfBytes(m, d + 8 * k, r[k], 0, r[k], 8);
  }
}
