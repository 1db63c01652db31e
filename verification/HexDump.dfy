/** pagecontent of kernel/mem/pmm_mem.c: a page printed as 256 rows of sixteen bytes. */
module HexDump {
  import opened Words
  import opened Numbers

  const PAGE_BYTES := 4096
  const ROW_CHARS := 68
  const DUMP_CHARS := 17408
  const NEWLINE: Byte := 10
  const SPACE: Byte := 32
  const BAR: Byte := 124

  // ---- the text ----

  /** `v >> 4 * j` */
  function Shift(v: nat, j: nat): nat
    decreases j, v
  {
    if j == 0 then v else Shift(v / 16, j - 1)
  }

  /** The low `k` hexadecimal digits of `w`, highest first. */
  function HexDigits(w: nat, k: nat): (r: Text)
    ensures |r| == k
    decreases k, w
  {
    if k == 0 then [] else HexDigits(w / 16, k - 1) + [DigitChar(w % 16)]
  }

  /** What stands before the digits of byte `i`: a new row with its label, the bar in its middle, or
      nothing. The label's last digit is always 0. */
  function Lead(addr: U64, i: nat): (r: Text)
    ensures |r| == if i % 16 == 0 then 18 else if i % 8 == 0 then 2 else 0
  {
    if i % 16 == 0 then [NEWLINE] + HexDigits(Wrap64(addr + i) / 16, 15) + [DigitChar(0), SPACE]
    else if i % 8 == 0 then [BAR, SPACE]
    else []
  }

  /** The text of the first `n` bytes. */
  function Dump(addr: U64, page: seq<Byte>, n: nat): Text
    requires n <= |page|
    decreases n, addr
  {
    if n == 0 then []
    else Dump(addr, page, n - 1) + Lead(addr, n - 1) + [DigitChar(page[n - 1] / 16), DigitChar(page[n - 1] % 16), SPACE]
  }

  /** Where the digits of byte `i` stand. */
  function DigitsAt(i: nat): nat { (i / 16) * ROW_CHARS + 18 + (i % 16) * 3 + if i % 16 >= 8 then 2 else 0 }

  // ---- where things stand ----

  lemma NextByte(i: nat)
    requires i > 0
    ensures DigitsAt(i) == DigitsAt(i - 1) + 3 + if i % 16 == 0 then 18 else if i % 8 == 0 then 2 else 0
  {
    var q, r := (i - 1) / 16, (i - 1) % 16;
    assert i == 16 * q + r + 1;
    if r == 15 {
      InRow(q + 1, 0);
    } else {
      InRow(q, r + 1);
    }
  }

  lemma InRow(q: nat, c: nat)
    requires c < 16
    ensures (16 * q + c) / 16 == q && (16 * q + c) % 16 == c
    ensures (16 * q + c) % 8 == 0 <==> c == 0 || c == 8
  {
    if c < 8 {
      assert 16 * q + c == 8 * (2 * q) + c;
    } else {
      assert 16 * q + c == 8 * (2 * q + 1) + (c - 8);
    }
  }

  lemma {:induction false} DumpLength(addr: U64, page: seq<Byte>, n: nat)
    requires n <= |page|
    ensures n > 0 ==> |Dump(addr, page, n)| == DigitsAt(n - 1) + 3
    decreases n
  {
    if n > 1 {
      DumpLength(addr, page, n - 1);
      NextByte(n - 1);
    }
  }

  lemma {:induction false} DumpPrefix(addr: U64, page: seq<Byte>, m: nat, n: nat)
    requires m <= n <= |page|
    ensures Dump(addr, page, m) <= Dump(addr, page, n)
    decreases n
  {
    if m < n {
      DumpPrefix(addr, page, m, n - 1);
    }
  }

  /** The dump of a page has 17408 characters. */
  lemma DumpSize(addr: U64, page: seq<Byte>)
    requires |page| == PAGE_BYTES
    ensures |Dump(addr, page, PAGE_BYTES)| == DUMP_CHARS
  {
    DumpLength(addr, page, PAGE_BYTES);
  }

  /** Reading the two digits at DigitsAt(i) recovers byte `i`, for every byte: the dump loses nothing. */
  lemma DumpRoundTrip(addr: U64, page: seq<Byte>, i: nat)
    requires |page| == PAGE_BYTES && i < PAGE_BYTES
    ensures DigitsAt(i) + 1 < |Dump(addr, page, PAGE_BYTES)|
    ensures var t := Dump(addr, page, PAGE_BYTES);
            DigitValue(t[DigitsAt(i)]) * 16 + DigitValue(t[DigitsAt(i) + 1]) == page[i]
  {
    var part := Dump(addr, page, i + 1);
    DumpLength(addr, page, i + 1);
    DumpPrefix(addr, page, i + 1, PAGE_BYTES);
    assert part[|part| - 3] == DigitChar(page[i] / 16) && part[|part| - 2] == DigitChar(page[i] % 16);
    var t := Dump(addr, page, PAGE_BYTES);
    assert t[DigitsAt(i)] == part[DigitsAt(i)] && t[DigitsAt(i) + 1] == part[DigitsAt(i) + 1];
  }

  /** What byte `i` adds to the dump of a page, and where. */
  lemma {:induction false} BytePlace(addr: U64, page: seq<Byte>, i: nat)
    requires |page| == PAGE_BYTES && i < PAGE_BYTES
    ensures var before, lead := Dump(addr, page, i), Lead(addr, i);
            var digits := [DigitChar(page[i] / 16), DigitChar(page[i] % 16), SPACE];
            && |before| + |lead| == DigitsAt(i) && |lead| == (if i % 16 == 0 then 18 else if i % 8 == 0 then 2 else 0)
            && before + lead + digits <= Dump(addr, page, PAGE_BYTES)
  {
    hide Lead, DigitChar, DigitsAt;
    DumpLength(addr, page, i + 1);
    DumpPrefix(addr, page, i + 1, PAGE_BYTES);
  }

  /** The characters between the digits: a space behind each byte; in front of a row a line feed, its
      label and a space; in the middle of a row a bar and a space. With the digits and the labels that
      is every character of the dump. */
  lemma {:induction false} Separators(addr: U64, page: seq<Byte>, i: nat)
    requires |page| == 4096 && i < 4096
    ensures var t := Dump(addr, page, 4096);
            && 18 <= DigitsAt(i) && DigitsAt(i) + 3 <= |t|
            && t[DigitsAt(i) + 2] == 32
            && (i % 16 == 0 ==> t[DigitsAt(i) - 18] == 10 && t[DigitsAt(i) - 1] == 32)
            && (i % 16 == 8 ==> t[DigitsAt(i) - 2] == 124 && t[DigitsAt(i) - 1] == 32)
  {
    var before, lead := Dump(addr, page, i), Lead(addr, i);
    var digits := [DigitChar(page[i] / 16), DigitChar(page[i] % 16), SPACE];
    BytePlace(addr, page, i);
    LeadEnds(addr, i);
    hide Dump, Lead, DigitsAt, DigitChar;
    FromPrefix(before, lead, digits, Dump(addr, page, PAGE_BYTES));
  }

  lemma LeadEnds(addr: U64, i: nat)
    ensures var lead := Lead(addr, i);
            && (i % 16 == 0 ==> |lead| == 18 && lead[0] == 10 && lead[17] == 32)
            && (i % 16 == 8 ==> |lead| == 2 && lead[0] == 124 && lead[1] == 32)
  {
    hide HexDigits, Wrap64, DigitChar;
    if i % 16 == 0 {
      var digits := HexDigits(Wrap64(addr + i) / 16, 15);
      assert Lead(addr, i) == [NEWLINE] + digits + [DigitChar(0), SPACE];
    } else if i % 16 == 8 {
      assert i % 8 == 0 by {
        InRow(i / 16, 8);
        assert i == 16 * (i / 16) + 8;
      }
      assert Lead(addr, i) == [BAR, SPACE];
    }
  }

  lemma FromPrefix(s: Text, lead: Text, more: Text, t: Text)
    requires s + lead + more <= t
    ensures forall k :: |s| <= k < |s| + |lead| ==> t[k] == lead[k - |s|]
    ensures forall k :: |s| + |lead| <= k < |s| + |lead| + |more| ==> t[k] == more[k - |s| - |lead|]
  {
    var p := s + lead + more;
    assert forall k :: 0 <= k < |p| ==> t[k] == p[k];
  }

  /** The digits run from '0' to '9' and on from 'A'. */
  lemma DigitsOfByte(addr: U64, page: seq<Byte>, i: nat)
    requires |page| == 4096 && i < 4096
    ensures var t := Dump(addr, page, 4096);
            && DigitsAt(i) + 1 < |t|
            && t[DigitsAt(i)] as int == "0123456789ABCDEF"[page[i] / 16] as int
            && t[DigitsAt(i) + 1] as int == "0123456789ABCDEF"[page[i] % 16] as int
  {
    var before, lead := Dump(addr, page, i), Lead(addr, i);
    var digits := [DigitChar(page[i] / 16), DigitChar(page[i] % 16), SPACE];
    BytePlace(addr, page, i);
    HexChar(page[i] / 16);
    HexChar(page[i] % 16);
    hide Dump, Lead, DigitsAt, DigitChar;
    FromPrefix(before, lead, digits, Dump(addr, page, PAGE_BYTES));
  }

  lemma HexChar(n: nat)
    requires n < 16
    ensures DigitChar(n) as int == "0123456789ABCDEF"[n] as int
  {
  }

  // ---- the labels ----

  function Pow16(k: nat): (r: nat)
    ensures r > 0
    decreases k
  {
    if k == 0 then 1 else 16 * Pow16(k - 1)
  }

  lemma {:induction false} HexDigitsEval(w: nat, k: nat)
    requires w < Pow16(k)
    ensures Eval(HexDigits(w, k), 16) == w
    decreases k
  {
    if k > 0 {
      HexDigitsEval(w / 16, k - 1);
      var front := HexDigits(w / 16, k - 1);
      assert (front + [DigitChar(w % 16)])[..|front|] == front;
    }
  }

  lemma Pow16At15()
    ensures Pow16(15) == 0x1000_0000_0000_0000
  {
    assert Pow16(8) == 0x1_0000_0000;
  }

  /** The label of a row, as the sixteen characters after its newline. */
  function Label(addr: U64, i: nat): Text
    requires i % 16 == 0
  {
    Lead(addr, i)[1..17]
  }

  /** The label of the row that starts with byte `i` stands before the digits of that byte, with a space
      between them. */
  lemma {:induction false} LabelStands(addr: U64, page: seq<Byte>, i: nat)
    requires |page| == PAGE_BYTES && i < PAGE_BYTES && i % 16 == 0
    ensures DigitsAt(i) >= 18 && DigitsAt(i) <= |Dump(addr, page, PAGE_BYTES)|
    ensures Dump(addr, page, PAGE_BYTES)[DigitsAt(i) - 17..DigitsAt(i) - 1] == Label(addr, i)
  {
    var before, lead := Dump(addr, page, i), Lead(addr, i);
    var digits := [DigitChar(page[i] / 16), DigitChar(page[i] % 16), SPACE];
    BytePlace(addr, page, i);
    hide Dump, Lead, DigitsAt, DigitChar;
    MiddleOf(before, lead, digits, Dump(addr, page, PAGE_BYTES));
  }

  lemma MiddleOf(s: Text, lead: Text, more: Text, t: Text)
    requires |lead| == 18 && s + lead + more <= t
    ensures t[|s| + 1..|s| + 17] == lead[1..17]
  {
    var p := s + lead + more;
    forall j | |s| + 1 <= j < |s| + 17
      ensures t[j] == lead[j - |s|]
    {
      assert t[j] == p[j];
    }
  }

  /** In the dump of a page, the label of each row reads as the address of the row's first byte exactly
      when the page pointer is 16-aligned; it always reads as that address rounded down to sixteen. */
  lemma LabelIff(addr: U64, page: seq<Byte>, i: nat)
    requires |page| == PAGE_BYTES && i < PAGE_BYTES && i % 16 == 0
    ensures 17 <= DigitsAt(i) <= |Dump(addr, page, PAGE_BYTES)|
    ensures var row := Dump(addr, page, PAGE_BYTES)[DigitsAt(i) - 17..DigitsAt(i) - 1];
            && Eval(row, 16) == Wrap64(addr + i) - Wrap64(addr + i) % 16
            && (Eval(row, 16) == Wrap64(addr + i) <==> addr % 16 == 0)
  {
    hide Dump, Label, DigitsAt, Wrap64, Eval;
    LabelStands(addr, page, i);
    LabelReads(addr, i);
  }

  lemma LabelReads(addr: U64, i: nat)
    requires i % 16 == 0
    ensures Eval(Label(addr, i), 16) == Wrap64(addr + i) - Wrap64(addr + i) % 16
    ensures Eval(Label(addr, i), 16) == Wrap64(addr + i) <==> addr % 16 == 0
  {
    hide Wrap64;
    var v := Wrap64(addr + i);
    Pow16At15();
    HexDigitsEval(v / 16, 15);
    var digits := HexDigits(v / 16, 15);
    assert Label(addr, i) == digits + [DigitChar(0)];
    assert (digits + [DigitChar(0)])[..15] == digits;
    AlignedSum(addr, i);
  }

  lemma AlignedSum(addr: U64, i: nat)
    requires i % 16 == 0
    ensures Wrap64(addr + i) % 16 == addr % 16
  {
    var q := (addr + i) / TWO64;
    assert addr + i == TWO64 * q + Wrap64(addr + i);
    var k, h := i / 16, TWO64 / 16;
    assert addr + 16 * k == 16 * (h * q) + Wrap64(addr + i);
  }

  // ---- the loop ----

  lemma {:induction false} DigitOf(w: nat, k: nat, i: nat)
    requires i < k
    ensures HexDigits(w, k)[k - 1 - i] == DigitChar(Shift(w, i) % 16)
    decreases k
  {
    if i > 0 {
      DigitOf(w / 16, k - 1, i - 1);
    }
  }

  method WriteLabel(v: U64, buffer: array<Byte>, start: nat)
    requires start + 15 <= buffer.Length
    modifies buffer
    ensures buffer[..] == old(buffer[..start]) + HexDigits(v / 16, 15) + old(buffer[start + 15..])
  {
    ghost var digits := HexDigits(v / 16, 15);
    var j, pos := 15, start;
    while j > 0
      invariant 0 <= j <= 15 && pos == start + (15 - j)
      invariant forall k :: 0 <= k < 15 - j ==> buffer[start + k] == digits[k]
      invariant forall k :: 0 <= k < buffer.Length && !(start <= k < pos) ==> buffer[k] == old(buffer[k])
    {
      buffer[pos] := DigitChar(Shift(v, j) % 16);
      DigitOf(v / 16, 15, j - 1);
      assert Shift(v, j) == Shift(v / 16, j - 1);
      pos := pos + 1;
      j := j - 1;
    }
    assert forall k :: 0 <= k < 15 ==> buffer[start + k] == digits[k];
    assert buffer[start..start + 15] == digits;
    assert buffer[..] == buffer[..start] + buffer[start..start + 15] + buffer[start + 15..];
  }

  /** pagecontent, for the page read at `addr`: the dump, its NUL, and nothing else. */
  method PageContent(addr: U64, page: array<Byte>, buffer: array<Byte>)
    requires page.Length == PAGE_BYTES && buffer.Length > DUMP_CHARS && page != buffer
    modifies buffer
    ensures buffer[..DUMP_CHARS + 1] == Dump(addr, page[..], PAGE_BYTES) + [0]
    ensures buffer[DUMP_CHARS + 1..] == old(buffer[DUMP_CHARS + 1..])
  {
    hide Dump, Lead, HexDigits, DigitChar;
    ghost var was := buffer[..];
    ghost var text := page[..];
    DumpStart(addr, text);
    var pos, i := 0, 0;
    while i < 4096
      invariant 0 <= i <= 4096 && pos == |Dump(addr, text, i)| <= DUMP_CHARS
      invariant page[..] == text && buffer[..] == Dump(addr, text, i) + was[pos..]
    {
      pos := WriteEntry(addr, page[i], buffer, pos, i, text, was);
      i := i + 1;
    }
    DumpSize(addr, text);
    Terminate(buffer, pos, Dump(addr, text, PAGE_BYTES), was);
  }

  /** The body of the loop: the separators and the two digits of byte `i`. */
  method WriteEntry(addr: U64, b: Byte, buffer: array<Byte>, start: nat, i: nat, ghost text: Text, ghost was: Text)
    returns (pos: nat)
    requires i < |text| == PAGE_BYTES && b == text[i] && start == |Dump(addr, text, i)|
    requires start <= DUMP_CHARS < buffer.Length == |was| && buffer[..] == Dump(addr, text, i) + was[start..]
    modifies buffer
    ensures pos == |Dump(addr, text, i + 1)| <= DUMP_CHARS && buffer[..] == Dump(addr, text, i + 1) + was[pos..]
  {
    hide Dump, Lead, HexDigits, DigitChar;
    DumpNext(addr, text, i);
    ghost var done, lead := Dump(addr, text, i), Lead(addr, i);
    pos := WriteLead(addr, buffer, start, i, done, was);
    WriteByte(b, buffer, pos, done + lead, was);
    pos := pos + 3;
  }

  method Terminate(buffer: array<Byte>, pos: nat, ghost done: Text, ghost was: Text)
    requires pos == |done| < buffer.Length == |was| && buffer[..] == done + was[pos..]
    modifies buffer
    ensures buffer[..pos + 1] == done + [0] && buffer[pos + 1..] == was[pos + 1..]
  {
    assert buffer[..pos] == done && buffer[pos + 1..] == was[pos + 1..];
    buffer[pos] := 0;
    assert buffer[..pos + 1] == done + [0];
  }

  lemma DumpStart(addr: U64, page: seq<Byte>)
    ensures Dump(addr, page, 0) == []
  {
  }

  lemma {:induction false} DumpNext(addr: U64, page: seq<Byte>, i: nat)
    requires i < |page| == PAGE_BYTES
    ensures Dump(addr, page, i + 1) ==
            Dump(addr, page, i) + Lead(addr, i) + [DigitChar(page[i] / 16), DigitChar(page[i] % 16), SPACE]
    ensures |Dump(addr, page, i + 1)| <= DUMP_CHARS
  {
    DumpPrefix(addr, page, i + 1, PAGE_BYTES);
    DumpSize(addr, page);
  }

  lemma DigitPair(s: Text, was: Text, b: Byte)
    requires |s| + 3 <= |was|
    ensures var t: Text := s + was[|s|..];
            var t1: Text := t[|s| := DigitChar(b / 16)];
            var t2: Text := t1[|s| + 1 := DigitChar(b % 16)];
            t2[|s| + 2 := SPACE] ==
            s + [DigitChar(b / 16), DigitChar(b % 16), SPACE] + was[|s| + 3..]
  {
  }

  method WriteByte(b: Byte, buffer: array<Byte>, start: nat, ghost done: Text, ghost was: Text)
    requires start == |done| && start + 3 <= buffer.Length == |was| && buffer[..] == done + was[start..]
    modifies buffer
    ensures buffer[..] == done + [DigitChar(b / 16), DigitChar(b % 16), SPACE] + was[start + 3..]
  {
    DigitPair(done, was, b);
    ghost var now: Text := buffer[..];
    buffer[start], buffer[start + 1], buffer[start + 2] := DigitChar(b / 16), DigitChar(b % 16), SPACE;
    now := now[start := DigitChar(b / 16)];
    now := now[start + 1 := DigitChar(b % 16)];
    now := now[start + 2 := SPACE];
    assert buffer[..] == now;
  }

  lemma BarPair(s: Text, was: Text)
    requires |s| + 2 <= |was|
    ensures var t: Text := s + was[|s|..];
            var t1: Text := t[|s| := BAR];
            t1[|s| + 1 := SPACE] == s + [BAR, SPACE] + was[|s| + 2..]
  {
  }

  /** The separators before byte `i`. */
  method WriteLead(addr: U64, buffer: array<Byte>, start: nat, i: nat, ghost done: Text, ghost was: Text)
    returns (pos: nat)
    requires start == |done| && start + |Lead(addr, i)| <= buffer.Length == |was|
    requires buffer[..] == done + was[start..]
    modifies buffer
    ensures pos == start + |Lead(addr, i)| && buffer[..] == done + Lead(addr, i) + was[pos..]
  {
    pos := start;
    if i % 8 == 0 && i % 16 != 0 {
      BarPair(done, was);
      ghost var now: Text := buffer[..];
      buffer[pos], buffer[pos + 1] := BAR, SPACE;
      pos := pos + 2;
      now := now[start := BAR];
      now := now[start + 1 := SPACE];
      assert buffer[..] == now;
    }
    if i % 16 == 0 {
      WriteRow(Wrap64(addr + i), buffer, pos, done, was);
      pos := pos + 18;
    }
  }

  /** The start of a row. */
  method WriteRow(v: U64, buffer: array<Byte>, start: nat, ghost done: Text, ghost was: Text)
    requires start == |done| && start + 18 <= buffer.Length == |was| && buffer[..] == done + was[start..]
    modifies buffer
    ensures buffer[..] == done + ([NEWLINE] + HexDigits(v / 16, 15) + [DigitChar(0), SPACE]) + was[start + 18..]
  {
    hide HexDigits;
    ghost var digits := HexDigits(v / 16, 15);
    ghost var now: Text := buffer[..];
    buffer[start] := NEWLINE;
    assert buffer[..] == now[start := NEWLINE];
    WriteLabel(v, buffer, start + 1);
    buffer[start + 16], buffer[start + 17] := DigitChar(0), SPACE;
    RowStored(done, was, digits);
  }

  /** The stores of a row, on the text in front and what is still to be written over. */
  lemma RowStored(s: Text, was: Text, digits: Text)
    requires |s| + 18 <= |was| && |digits| == 15
    ensures var t: Text := s + was[|s|..];
            var t1: Text := t[|s| := NEWLINE];
            var t2: Text := t1[..|s| + 1] + digits + t1[|s| + 16..];
            var t3: Text := t2[|s| + 16 := DigitChar(0)];
            t3[|s| + 17 := SPACE] == s + ([NEWLINE] + digits + [DigitChar(0), SPACE]) + was[|s| + 18..]
  {
  }
}
