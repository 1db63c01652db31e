/** uitoa, itoa and reverse of kernel/misc/utils.c: numbers printed into a caller's buffer, least
    significant digit first, and then turned round in place. */
module Numbers {
  import opened Words

  type Text = seq<Byte>

  const MINUS: Byte := 45
  const ZERO: Byte := 48

  // ---- numerals ----

  function DigitChar(r: nat): Byte
    requires r < 32
  {
    if r >= 10 then 65 + (r - 10) else 48 + r
  }

  predicate IsDigit(c: Byte, base: nat) { (48 <= c <= 57 && c - 48 < base) || (65 <= c && c - 55 < base) }

  function DigitValue(c: Byte): int { if c <= 57 then c - 48 else c - 55 }

  function Eval(s: Text, base: nat): int
  {
    if s == [] then 0 else Eval(s[..|s| - 1], base) * base + DigitValue(s[|s| - 1])
  }

  /** Digits of the base only, and no leading zero but in "0". */
  predicate IsNumeral(s: Text, base: nat)
  {
    && s != []
    && (forall i :: 0 <= i < |s| ==> IsDigit(s[i], base))
    && (|s| > 1 ==> s[0] != ZERO)
  }

  function Numeral(v: nat, base: nat): Text
    requires 2 <= base <= 32
    decreases v
  {
    if v < base then [DigitChar(v)]
    else
      DivSmaller(v, base);
      Numeral(v / base, base) + [DigitChar(v % base)]
  }

  lemma DivSmaller(v: nat, base: nat)
    requires base >= 2
    ensures 0 <= v / base && (v > 0 ==> v / base < v)
    ensures v >= base ==> v / base >= 1
  {
    DivFacts(v, base, v / base, v % base);
  }

  lemma DivFacts(v: nat, base: nat, q: int, r: int)
    requires base >= 2 && v == base * q + r && 0 <= r < base
    ensures q >= 0 && (v > 0 ==> q < v) && (v >= base ==> q >= 1)
  {
    assert q < 0 ==> base * q + base <= 0;
    assert q >= 0 ==> base * q >= 2 * q;
    assert q == 0 ==> base * q == 0;
  }

  lemma DigitOk(r: nat, base: nat)
    requires r < base <= 32
    ensures IsDigit(DigitChar(r), base) && DigitValue(DigitChar(r)) == r
    ensures DigitChar(r) >= ZERO && (r > 0 ==> DigitChar(r) > ZERO)
  {
  }

  lemma {:induction false} NumeralOk(v: nat, base: nat)
    requires 2 <= base <= 32
    ensures IsNumeral(Numeral(v, base), base) && Eval(Numeral(v, base), base) == v
    ensures Numeral(v, base) != [] && Numeral(v, base)[0] >= ZERO
    ensures v > 0 ==> Numeral(v, base)[0] > ZERO
    decreases v
  {
    hide Eval, IsDigit, DigitChar, DigitValue;
    if v < base {
      DigitOk(v, base);
      EvalAppend([], DigitChar(v), base);
      assert [] + [DigitChar(v)] == [DigitChar(v)];
    } else {
      DivSmaller(v, base);
      var q, r := v / base, v % base;
      assert base * q + r == v;
      NumeralOk(q, base);
      hide Numeral;
      NumeralStep(v, base);
      DigitOk(r, base);
      NumeralJoined(Numeral(q, base), q, r, base);
    }
  }

  lemma NumeralStep(v: nat, base: nat)
    requires 2 <= base <= 32 && v >= base
    ensures v / base >= 0 && Numeral(v, base) == Numeral(v / base, base) + [DigitChar(v % base)]
  {
    DivSmaller(v, base);
  }

  /** One more digit after a numeral of a positive value. */
  lemma NumeralJoined(s: Text, q: nat, r: nat, base: nat)
    requires r < base <= 32 && IsNumeral(s, base) && Eval(s, base) == q && s[0] > ZERO
    ensures var t := s + [DigitChar(r)]; IsNumeral(t, base) && Eval(t, base) == base * q + r && t[0] == s[0]
  {
    DigitOk(r, base);
    EvalAppend(s, DigitChar(r), base);
    hide Eval, IsDigit, DigitChar, DigitValue;
    assert q * base == base * q;
  }

  lemma EvalAppend(front: Text, last: Byte, base: nat)
    ensures Eval(front + [last], base) == (if front == [] then 0 else Eval(front, base) * base) + DigitValue(last)
  {
    assert (front + [last])[..|front|] == front;
  }

  lemma ProductAtLeast(w: int, base: nat)
    requires w >= 0 && base >= 1
    ensures w * base >= w
  {
  }

  lemma {:induction false} EvalPositive(s: Text, base: nat)
    requires 2 <= base <= 32 && IsNumeral(s, base)
    ensures Eval(s, base) >= 0
    ensures s[0] != ZERO ==> Eval(s, base) >= 1
    decreases |s|
  {
    hide Eval;
    var front, last := s[..|s| - 1], s[|s| - 1];
    assert s == front + [last];
    EvalAppend(front, last, base);
    assert IsDigit(last, base);
    if front != [] {
      EvalPositive(front, base);
      ProductAtLeast(Eval(front, base), base);
    }
  }

  /** There is only one numeral for a value. */
  lemma {:induction false} NumeralUnique(s: Text, base: nat)
    requires 2 <= base <= 32 && IsNumeral(s, base)
    ensures Eval(s, base) >= 0 && s == Numeral(Eval(s, base), base)
    decreases |s|
  {
    hide Eval, IsDigit;
    EvalPositive(s, base);
    var front, last := s[..|s| - 1], s[|s| - 1];
    assert s == front + [last];
    EvalAppend(front, last, base);
    DigitBack(last, base);
    var d := DigitValue(last);
    hide DigitValue, DigitChar;
    if front != [] {
      assert IsNumeral(front, base);
      EvalPositive(front, base);
      NumeralUnique(front, base);
      hide Numeral;
      QuotientOf(Eval(front, base), d, base);
      NumeralStep(Eval(s, base), base);
    }
  }

  lemma DigitBack(c: Byte, base: nat)
    requires IsDigit(c, base) && base <= 32
    ensures 0 <= DigitValue(c) < base && DigitChar(DigitValue(c)) == c
  {
  }

  lemma {:induction false} QuotientOf(w: int, d: int, base: nat)
    requires w >= 1 && 0 <= d < base && base >= 2
    ensures (w * base + d) / base == w && (w * base + d) % base == d && w * base + d >= base
  {
    assert w * base == base * w;
    DivModOf(base, w, d);
    ProductStep(base, 0, w);
  }

  // ---- what the loops write ----

  /** C division and remainder, which round towards zero. */
  function Quot(n: int, base: nat): int
    requires base > 0
  {
    if n >= 0 then n / base else -((-n) / base)
  }

  function Rem(n: int, base: nat): int
    requires base > 0
  {
    if n >= 0 then n % base else -((-n) % base)
  }

  lemma RemBound(n: int, base: nat)
    requires 2 <= base <= 32
    ensures -32 < Rem(n, base) < 32
    ensures n >= 0 ==> Rem(n, base) >= 0
    ensures n <= 0 ==> Rem(n, base) <= 0
  {
  }

  /** The character for a remainder, negative ones included. */
  function RemChar(r: int): Byte
    requires -32 < r < 32
  {
    if r >= 10 then 65 + (r - 10) else 48 + r
  }

  function Magnitude(n: int): nat { if n < 0 then -n else n }

  lemma {:induction false} QuotSmaller(n: int, base: nat)
    requires base >= 2 && n != 0
    ensures Magnitude(Quot(n, base)) < Magnitude(n)
    ensures n >= 0 ==> Quot(n, base) >= 0
    ensures n <= 0 ==> Quot(n, base) <= 0
  {
    hide Quot;
    var q := QuotientOfMagnitude(n, base);
  }

  lemma {:induction false} QuotientOfMagnitude(n: int, base: nat) returns (q: int)
    requires base >= 2 && n != 0
    ensures 0 <= q < Magnitude(n) && Quot(n, base) == if n >= 0 then q else -q
  {
    if n >= 0 {
      q := n / base;
      DivSmaller(n, base);
    } else {
      q := (-n) / base;
      DivSmaller(-n, base);
    }
  }

  /** The characters that the digit loop writes, in the order it writes them. */
  function LowChars(n: int, base: nat): Text
    requires 2 <= base <= 32
    decreases Magnitude(n)
  {
    if n == 0 then []
    else
      QuotSmaller(n, base);
      RemBound(n, base);
      [RemChar(Rem(n, base))] + LowChars(Quot(n, base), base)
  }

  function Reversed(s: Text): (r: Text)
    ensures |r| == |s| && forall k :: 0 <= k < |s| ==> r[k] == s[|s| - 1 - k]
  {
    seq(|s|, k requires 0 <= k < |s| => s[|s| - 1 - k])
  }

  lemma {:induction false} LowCharsReversed(v: nat, base: nat)
    requires 2 <= base <= 32 && v > 0
    ensures Reversed(LowChars(v, base)) == Numeral(v, base)
    decreases v
  {
    DivSmaller(v, base);
    var rest := LowChars(v / base, base);
    assert LowChars(v, base) == [DigitChar(v % base)] + rest;
    assert Reversed(LowChars(v, base)) == Reversed(rest) + [DigitChar(v % base)];
    if v < base {
      assert v / base == 0 by { QuotientSmall(v, base); }
    } else {
      LowCharsReversed(v / base, base);
    }
  }

  lemma QuotientSmall(v: nat, base: nat)
    requires v < base
    ensures v / base == 0 && v % base == v
  {
  }

  /** With "0" for the empty loop, and a sign for the final turn. */
  function Unsigned(n: int, base: nat): Text
    requires 2 <= base <= 32
  {
    if n == 0 then [ZERO] else LowChars(n, base)
  }

  /** The text that uitoa leaves is the numeral of the value, in every base it accepts. */
  lemma {:induction false} UitoaText(value: U64, base: nat)
    requires 2 <= base <= 32
    ensures var s := Reversed(Unsigned(value, base));
            s == Numeral(value, base) && IsNumeral(s, base) && Eval(s, base) == value
  {
    NumeralOk(value, base);
    if value > 0 {
      LowCharsReversed(value, base);
    }
  }

  // ---- itoa ----

  type I64 = x: int | -0x8000_0000_0000_0000 <= x < 0x8000_0000_0000_0000

  /** Passing a 64-bit value to `int abs(int)`: the low 32 bits, as a signed number. */
  function Low32(v: I64): int
  {
    var low := v % 0x1_0000_0000;
    if low >= 0x8000_0000 then low - 0x1_0000_0000 else low
  }

  /** abs, on two's complement wrap-around: the least value has no positive counterpart. */
  function Abs32(i: int): int { if i < 0 && i != -0x8000_0000 then -i else i }

  function ItoaChars(v: I64, base: nat): Text
    requires 2 <= base <= 32
  {
    Unsigned(Abs32(Low32(v)), base) + if v < 0 && base == 10 then [MINUS] else []
  }

  /** The text that itoa leaves. */
  function ItoaText(v: I64, base: nat): Text
    requires 2 <= base <= 32
  {
    Reversed(ItoaChars(v, base))
  }

  /** What a signed number looks like. */
  function SignedNumeral(v: int, base: nat): Text
    requires 2 <= base <= 32
  {
    if v < 0 then [MINUS] + Numeral(-v, base) else Numeral(v, base)
  }

  /** From the one value that abs cannot negate, the loop writes characters up to '0' only. */
  lemma {:induction false} NegativeChars(n: int, base: nat)
    requires 2 <= base <= 32 && n < 0
    ensures LowChars(n, base) != [] && forall i :: 0 <= i < |LowChars(n, base)| ==> LowChars(n, base)[i] <= ZERO
    decreases Magnitude(n)
  {
    QuotSmaller(n, base);
    RemBound(n, base);
    var q := Quot(n, base);
    if q < 0 {
      NegativeChars(q, base);
    }
  }

  lemma Low32Cases(v: I64)
    ensures -0x8000_0000 <= Low32(v) < 0x8000_0000
    ensures Low32(v) == v <==> -0x8000_0000 <= v < 0x8000_0000
  {
  }

  lemma ReversedSign(s: Text)
    ensures Reversed(s + [MINUS]) == [MINUS] + Reversed(s)
    ensures s + [] == s
  {
  }

  /** itoa prints the value exactly when it fits in 32 bits and is not the least such value, and is
      not negative in a base other than ten. */
  lemma ItoaIff(v: I64, base: nat)
    requires 2 <= base <= 32
    ensures ItoaText(v, base) == SignedNumeral(v, base) <==>
            -0x8000_0000 < v < 0x8000_0000 && (v >= 0 || base == 10)
  {
    hide LowChars, Numeral, Eval, IsNumeral, Low32;
    Low32Cases(v);
    var n := Abs32(Low32(v));
    ReversedSign(Unsigned(n, base));
    if n < 0 {
      NegativeText(v, n, base);
    } else {
      UitoaText(n, base);
      NumeralOk(n, base);
      SignedEqualIff(v, n, base);
      assert n == Magnitude(v) <==> -0x8000_0000 < v < 0x8000_0000;
    }
  }

  /** For the values that it prints wrongly as well: with `n` for the low half of the value as a signed
      number, the text is the numeral of its magnitude, behind a sign if the whole value is negative and the
      base is ten; but the digits of the least `n` come out as far below '0' as they should be above it. */
  lemma {:induction false} ItoaMeans(v: I64, base: nat, n: int)
    requires 2 <= base <= 32 && n % 0x1_0000_0000 == v % 0x1_0000_0000 && -0x8000_0000 <= n < 0x8000_0000
    ensures var s := if v < 0 && base == 10 then [45] else [];
            var t := Numeral(if n < 0 then -n else n, base);
            if n != -0x8000_0000 then ItoaText(v, base) == s + t else Mirrors(ItoaText(v, base), s, t)
  {
    assert Low32(v) == n;
    hide LowChars, Numeral, Eval, IsNumeral, Low32;
    ReversedSign(Unsigned(Abs32(n), base));
    if n == -0x8000_0000 {
      MirroredChars(0x8000_0000, base);
    } else {
      UitoaText(Magnitude(n), base);
    }
  }

  /** `u` is `s`, and then every digit of `t` counted down from '0'. */
  ghost predicate Mirrors(u: Text, s: Text, t: Text)
  {
    |u| == |s| + |t| && u[..|s|] == s && forall i :: 0 <= i < |t| ==> u[|s| + i] as int == 48 - DigitValue(t[i])
  }

  lemma {:induction false} MirroredChars(v: int, base: nat)
    requires 2 <= base <= 32 && v > 0
    ensures Mirrors(Reversed(LowChars(-v, base)), [], Numeral(v, base))
    decreases v
  {
    DivSmaller(v, base);
    var q, r := v / base, v % base;
    NegativeStep(v, q, r, base);
    if v < base {
      QuotientSmall(v, base);
    } else {
      MirroredChars(q, base);
      hide LowChars;
      MirrorsMore(LowChars(-q, base), Numeral(q, base), r);
    }
  }

  lemma NegativeStep(v: int, q: int, r: int, base: nat)
    requires 2 <= base <= 32 && v > 0 && q == v / base && r == v % base
    ensures 0 <= r < base && LowChars(-v, base) == [48 - r] + LowChars(-q, base)
  {
    hide LowChars;
    assert Rem(-v, base) == -r && Quot(-v, base) == -q;
    LowCharsStep(-v, base);
  }

  lemma LowCharsStep(n: int, base: nat)
    requires 2 <= base <= 32 && n != 0
    ensures -32 < Rem(n, base) < 32
    ensures LowChars(n, base) == [RemChar(Rem(n, base))] + LowChars(Quot(n, base), base)
  {
    RemBound(n, base);
  }

  lemma MirrorsMore(s: Text, t: Text, r: nat)
    requires r < 32 && Mirrors(Reversed(s), [], t)
    ensures Mirrors(Reversed([48 - r] + s), [], t + [DigitChar(r)])
  {
    assert Reversed([48 - r] + s) == Reversed(s) + [48 - r];
    assert DigitValue(DigitChar(r)) == r;
  }

  /** The digits. */
  lemma DigitsAre(r: nat)
    requires r < 32
    ensures DigitChar(r) as int == "0123456789ABCDEFGHIJKLMNOPQRSTUV"[r] as int
  {
  }

  lemma SignedEqualIff(v: int, n: nat, base: nat)
    requires 2 <= base <= 32
    ensures var t := Numeral(n, base);
            (if v < 0 && base == 10 then [MINUS] + t else t) == SignedNumeral(v, base) <==>
            n == Magnitude(v) && (v >= 0 || base == 10)
  {
    hide Numeral, Eval, IsNumeral;
    NumeralOk(n, base);
    NumeralOk(Magnitude(v), base);
    var a, b := Numeral(n, base), Numeral(Magnitude(v), base);
    assert a == b ==> n == Magnitude(v);
    if v < 0 {
      assert ([MINUS] + a)[1..] == a && ([MINUS] + b)[1..] == b;
      assert ([MINUS] + b)[0] == MINUS;
    }
  }

  lemma NegativeText(v: I64, n: int, base: nat)
    requires 2 <= base <= 32 && n == Abs32(Low32(v)) && n < 0
    ensures ItoaText(v, base) != SignedNumeral(v, base)
  {
    hide LowChars, Numeral, Eval, IsNumeral;
    assert v != 0;
    hide Low32, Abs32;
    NegativeChars(n, base);
    var s := LowChars(n, base);
    ReversedSign(s);
    NumeralOk(Magnitude(v), base);
    var r, t := Reversed(s), Numeral(Magnitude(v), base);
    assert r[0] == s[|s| - 1] <= ZERO;
    if v >= 0 {
      assert SignedNumeral(v, base) == t && ItoaText(v, base) == r;
    } else if base == 10 {
      assert ([MINUS] + t)[1] == t[0] && ([MINUS] + r)[1] == r[0];
      assert SignedNumeral(v, base) == [MINUS] + t && ItoaText(v, base) == [MINUS] + r;
    } else {
      assert ([MINUS] + t)[1] == t[0];
      assert |r| > 1 ==> r[1] == s[|s| - 2] <= ZERO;
      assert SignedNumeral(v, base) == [MINUS] + t && ItoaText(v, base) == r;
    }
  }

  // ---- the loops ----

  /** reverse, with its swap */
  method Reverse(buffer: array<Byte>, i: nat, j: int)
    requires i <= j + 1 <= buffer.Length
    modifies buffer
    ensures forall k :: 0 <= k < buffer.Length ==> buffer[k] == old(buffer[if i <= k <= j then i + j - k else k])
  {
    var a, b := i, j;
    while a < b
      invariant i <= a <= b + 2 && a + b == i + j
      invariant forall k :: 0 <= k < buffer.Length ==>
                  buffer[k] == old(buffer[if i <= k <= j && (k < a || k > b) then i + j - k else k])
    {
      buffer[a], buffer[b] := buffer[b], buffer[a];
      a, b := a + 1, b - 1;
    }
  }

  /** uitoa: a base out of range changes nothing. */
  method Uitoa(value: U64, buffer: array<Byte>, base: int)
    requires 2 <= base <= 32 ==> |Unsigned(value, base)| < buffer.Length
    modifies buffer
    ensures !(2 <= base <= 32) ==> buffer[..] == old(buffer[..])
    ensures 2 <= base <= 32 ==>
              var s := Reversed(Unsigned(value, base)); buffer[..] == s + [0] + old(buffer[|s| + 1..])
  {
    if base < 2 || base > 32 {
      return;
    }
    hide Unsigned;
    ghost var was, s := buffer[..], Unsigned(value, base);
    var i := WriteUnsigned(value, buffer, base);
    Written(s, was, 0);
    buffer[i] := 0;
    Finish(buffer, i, s, was);
  }

  /** The digit loop, and '0' when it writes nothing. */
  method WriteUnsigned(n: int, buffer: array<Byte>, base: nat) returns (i: nat)
    requires 2 <= base <= 32 && |Unsigned(n, base)| < buffer.Length
    modifies buffer
    ensures i == |Unsigned(n, base)|
    ensures buffer[..] == Unsigned(n, base) + old(buffer[i..])
  {
    hide LowChars;
    NothingWritten(n, base);
    ghost var was := buffer[..];
    i := WriteDigits(n, buffer, base);
    if i == 0 {
      Written([], was, ZERO);
      buffer[i] := ZERO;
      i := i + 1;
    }
  }

  lemma NothingWritten(n: int, base: nat)
    requires 2 <= base <= 32
    ensures LowChars(n, base) == [] <==> n == 0
  {
  }

  /** Storing the next character after the text written so far. */
  lemma Written(s: Text, was: Text, c: Byte)
    requires |s| < |was|
    ensures (s + was[|s|..])[|s| := c] == (s + [c]) + was[|s + [c]|..]
  {
  }

  /** The last turn of both printers. */
  method Finish(buffer: array<Byte>, i: nat, ghost s: Text, ghost was: Text)
    requires i == |s| < buffer.Length == |was|
    requires buffer[..] == s + [0] + was[|s| + 1..]
    modifies buffer
    ensures buffer[..] == Reversed(s) + [0] + was[|s| + 1..]
  {
    ghost var before := buffer[..];
    assert forall k :: 0 <= k < i ==> before[k] == s[k];
    Reverse(buffer, 0, i - 1);
    assert forall k :: 0 <= k < i ==> buffer[k] == before[i - 1 - k];
  }

  /** The digit loop. */
  method WriteDigits(value: int, buffer: array<Byte>, base: nat) returns (i: nat)
    requires 2 <= base <= 32 && |LowChars(value, base)| < buffer.Length
    modifies buffer
    ensures i == |LowChars(value, base)|
    ensures buffer[..] == LowChars(value, base) + old(buffer[i..])
  {
    i := 0;
    var n := value;
    ghost var s, was := LowChars(value, base), buffer[..];
    while n != 0
      invariant i <= |s| && s[i..] == LowChars(n, base)
      invariant buffer[..] == s[..i] + was[i..]
      decreases Magnitude(n)
    {
      QuotSmaller(n, base);
      RemBound(n, base);
      var c := RemChar(Rem(n, base));
      assert s[i] == s[i..][0] == c && s[i + 1..] == s[i..][1..];
      Written(s[..i], was, c);
      assert s[..i + 1] == s[..i] + [c];
      buffer[i] := c;
      i := i + 1;
      n := Quot(n, base);
    }
    assert s[..i] == s;
  }

  /** itoa */
  method Itoa(value: I64, buffer: array<Byte>, base: int)
    requires 2 <= base <= 32 ==> |ItoaChars(value, base)| < buffer.Length
    modifies buffer
    ensures !(2 <= base <= 32) ==> buffer[..] == old(buffer[..])
    ensures 2 <= base <= 32 ==>
              var s := ItoaText(value, base); buffer[..] == s + [0] + old(buffer[|s| + 1..])
  {
    if base < 2 || base > 32 {
      return;
    }
    hide Low32, Abs32, Unsigned;
    var n := Abs32(Low32(value));
    ghost var was, s := buffer[..], Unsigned(n, base);
    var i := WriteUnsigned(n, buffer, base);
    if value < 0 && base == 10 {
      Written(s, was, MINUS);
      buffer[i] := MINUS;
      i := i + 1;
      s := s + [MINUS];
    }
    assert s == ItoaChars(value, base);
    assert buffer[..] == s + was[|s|..];
    Written(s, was, 0);
    buffer[i] := 0;
    Finish(buffer, i, s, was);
  }
}
