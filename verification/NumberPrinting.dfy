/** The two number printers of the HAL: the division-based one of alt_log_printf and the shift-based %x of alt_printf. */
module NumberPrinting {
  import opened Unsigned
  import opened Numerals

  /** What a directive of alt_log_printf has set when its type letter is reached; `width` is -1 where none was given. */
  datatype Format = Format(leadingZero: bool, signed: bool, base: Base, upper: bool, width: int)

  /** The two's complement reading of a word. */
  function Signed(v: u32): int { if v < 0x8000_0000 then v else v - M }

  lemma SignedIs(v: u32)
    ensures -0x8000_0000 <= Signed(v) < 0x8000_0000 && (v - Signed(v)) % 0x1_0000_0000 == 0
  {
  }

  function Number(v: u32, signed: bool): int { if signed then Signed(v) else v }

  function Abs(x: int): nat { if x < 0 then -x else x }

  function Glyph(d: nat, upper: bool): char
    requires d < 16
  {
    if d <= 9 then '0' + d as char else (if upper then 'A' else 'a') + (d - 10) as char
  }

  function Text(digits: seq<nat>, upper: bool): (s: string)
    requires forall i :: 0 <= i < |digits| ==> digits[i] < 16
    ensures |s| == |digits|
    ensures forall i :: 0 <= i < |digits| ==> s[i] == Glyph(digits[i], upper)
  {
    seq(|digits|, i requires 0 <= i < |digits| => Glyph(digits[i], upper))
  }

  function Repeat(c: char, n: int): string { seq(if n > 0 then n else 0, _ => c) }

  function Sign(x: int): string { if x < 0 then "-" else "" }

  /** The digits of the magnitude of `x`. */
  function Digits(x: int, base: Base, upper: bool): string {
    NumeralValue(Abs(x), base);
    Text(Numeral(Abs(x), base), upper)
  }

  /** What a directive is to print: the number right-aligned in its width, filled with zeros after the sign or with
      blanks before it. */
  function Printed(x: int, f: Format): string {
    var digits := Digits(x, f.base, f.upper);
    var fill := f.width - |digits| - |Sign(x)|;
    if f.leadingZero then Sign(x) + Repeat('0', fill) + digits else Repeat(' ', fill) + Sign(x) + digits
  }

  /** `alt_log_repchar` */
  method RepChar(c: char, r: int) returns (out: string)
    ensures out == Repeat(c, r)
  {
    out := "";
    var n := r;
    while n > 0
      invariant if r > 0 then 0 <= n else n == r
      invariant out == Repeat(c, if r > 0 then r - n else 0)
    {
      out := out + [c];
      n := n - 1;
    }
  }

  function Quot(v: nat, p: nat): nat
    requires p > 0
  {
    v / p
  }

  function Rem(v: nat, p: nat): nat
    requires p > 0
  {
    v % p
  }

  /** The digit-counting loop: `p` is the place value of the leading digit, and never overflows the word. */
  method CountDigits(v: u32, base: Base) returns (digitCount: nat, p: u32)
    ensures digitCount >= 1 && p == Pow(base, digitCount - 1)
    ensures v < Pow(base, digitCount) && (digitCount > 1 ==> p <= v)
  {
    hide Pow, Quot;
    var vShrink := Quot(v, base);
    digitCount, p := 1, 1;
    CountStart(v, base);
    while vShrink > 0
      invariant digitCount >= 1 && p == Pow(base, digitCount - 1) && vShrink == Quot(v, Pow(base, digitCount))
      invariant digitCount > 1 ==> p <= v
      decreases vShrink
    {
      CountStep(v, base, digitCount);
      digitCount := digitCount + 1;
      p := TimesBase(p, base, digitCount - 1);
      vShrink := Quot(vShrink, base);
    }
    CountEnd(v, base, digitCount);
  }

  lemma CountStart(v: nat, base: Base)
    ensures Pow(base, 0) == 1 && Quot(v, base) == Quot(v, Pow(base, 1))
  {
    PowStep(base, 0);
  }

  lemma CountStep(v: nat, base: Base, k: nat)
    requires Quot(v, Pow(base, k)) > 0
    ensures Pow(base, k) <= v && Quot(v, Pow(base, k + 1)) == Quot(Quot(v, Pow(base, k)), base) < Quot(v, Pow(base, k))
  {
    hide Pow;
    PowStep(base, k);
    DivDiv(v, Pow(base, k), base);
    AtLeastOne(v, Pow(base, k));
    Shrinks(v / Pow(base, k), base);
  }

  lemma Shrinks(x: nat, b: Base)
    requires x > 0
    ensures x / b < x
  {
    DivModAny(x, b);
    if x / b > 0 {
      LessThanDouble(x / b, b);
    }
  }

  lemma LessThanDouble(q: nat, b: Base)
    requires q > 0
    ensures q < q * b
  {
    assert q * b == q + q * (b - 1);
  }

  lemma CountEnd(v: nat, base: Base, k: nat)
    requires Quot(v, Pow(base, k)) == 0
    ensures v < Pow(base, k)
  {
    hide Pow;
    AtLeastOne(v, Pow(base, k));
  }

  function TimesBase(p: u32, base: Base, ghost k: nat): (r: u32)
    requires k > 0 && p == Pow(base, k - 1) && Pow(base, k) < M
    ensures r == Pow(base, k)
  {
    PowStep(base, k - 1);
    p * base
  }

  lemma AtLeastOne(v: nat, p: nat)
    requires p > 0
    ensures v / p > 0 <==> p <= v
  {
    DivModAny(v, p);
    if v / p > 0 {
      TimesBound(v / p, p);
    }
  }

  /** The digit loop: from the leading digit down, `p` running through the place values to 0. */
  method PrintDigits(value: u32, place: u32, ghost count: nat, base: Base, upper: bool) returns (out: string)
    requires count >= 1 && place == Pow(base, count - 1) && value < Pow(base, count)
    ensures forall i :: 0 <= i < count ==> Low(value, count, base)[i] < base
    ensures out == Text(Low(value, count, base), upper)
  {
    hide Pow, Low, Text, Quot, Rem;
    var v: u32, p: u32 := value, place;
    ghost var k: nat := count;
    ghost var done: seq<nat> := [];
    out := "";
    LowSmall(value, count, base);
    NoText(upper);
    while p != 0
      invariant k <= count && v < Pow(base, k) && p == Place(k, base)
      invariant |done| == count - k && done + Low(v, k, base) == Low(value, count, base)
      invariant forall i :: 0 <= i < |done| ==> done[i] < base
      invariant out == Text(done, upper)
      decreases k
    {
      DigitStep(v, k, base, done);
      var d := Quot(v, p);
      out := out + [if d <= 9 then '0' + d as char else (if upper then 'A' else 'a') + (d - 10) as char];
      TextPush(done, d, upper);
      done := done + [d];
      v := Rem(v, p);
      p := Quot(p, base);
      k := k - 1;
    }
    assert done + Low(v, 0, base) == done;
  }

  lemma NoText(upper: bool)
    ensures Text([], upper) == ""
  {
  }

  /** The place value of the highest of `k` digits. */
  function Place(k: nat, b: Base): nat { if k == 0 then 0 else Pow(b, k - 1) }

  lemma DigitStep(v: nat, k: nat, base: Base, done: seq<nat>)
    requires v < Pow(base, k) && k > 0
    ensures var p := Pow(base, k - 1);
            && Quot(v, p) < base && Rem(v, p) < p && Quot(p, base) == Place(k - 1, base) <= p
            && done + Low(v, k, base) == done + [Quot(v, p)] + Low(Rem(v, p), k - 1, base)
  {
    hide Pow, Low;
    LowSplit(v, k - 1, base);
    DivModAny(v, Pow(base, k - 1));
    PlaceDown(k - 1, base);
    Reassoc(done, Quot(v, Pow(base, k - 1)), Low(v % Pow(base, k - 1), k - 1, base));
  }

  lemma Reassoc(done: seq<nat>, d: nat, rest: seq<nat>)
    ensures done + ([d] + rest) == done + [d] + rest
  {
  }

  lemma TextPush(digits: seq<nat>, d: nat, upper: bool)
    requires d < 16 && forall i :: 0 <= i < |digits| ==> digits[i] < 16
    ensures Text(digits + [d], upper) == Text(digits, upper) + [Glyph(d, upper)]
  {
  }

  lemma {:induction false} LowSmall(v: nat, k: nat, b: Base)
    ensures forall i :: 0 <= i < k ==> Low(v, k, b)[i] < b
  {
    if k > 0 {
      LowSmall(v / b, k - 1, b);
    }
  }

  lemma PlaceDown(k: nat, b: Base)
    ensures Quot(Pow(b, k), b) == Place(k, b) && Place(k, b) <= Pow(b, k)
  {
    hide Pow, Quot;
    if k == 0 {
      PlaceOfUnits(b);
    } else {
      PlaceAbove(k - 1, b);
    }
  }

  lemma PlaceOfUnits(b: Base)
    ensures Pow(b, 0) == 1 && Quot(1, b) == 0
  {
    hide Pow;
    PowOne(b);
    DivUnique(1, b, 0, 1);
  }

  lemma PlaceAbove(k: nat, b: Base)
    ensures Quot(Pow(b, k + 1), b) == Pow(b, k) <= Pow(b, k + 1)
  {
    hide Pow;
    PowStep(b, k);
    TimesBound(b, Pow(b, k));
    DivExact(Pow(b, k), b);
  }

  lemma DivExact(p: int, b: Base)
    ensures b * p / b == p
  {
    Commutes(b, p);
    DivUnique(b * p, b, p, 0);
  }

  /** The fill and the sign; `before` is the width that the digits leave. */
  method PrintLead(leadingZero: bool, sign: bool, before: int) returns (out: string)
    ensures var s, fill := if sign then "-" else "", if sign then before - 1 else before;
            out == if leadingZero then s + Repeat('0', fill) else Repeat(' ', fill) + s
  {
    hide Repeat;
    out := "";
    var width := before;
    if leadingZero {
      if sign {
        out := out + "-";
        width := width - 1;
      }
      var fill := RepChar('0', width);
      out := out + fill;
    } else {
      if sign {
        width := width - 1;
      }
      var fill := RepChar(' ', width);
      out := out + fill;
      if sign {
        out := out + "-";
      }
    }
  }

  /** The integer directives of `alt_log_private_printf`, from the value on. */
  method PrintInteger(word: u32, f: Format) returns (out: string)
    ensures out == Printed(Number(word, f.signed), f)
  {
    hide Pow, Low, Text, Numeral, Nibble;
    var v, sign := word, false;
    if f.signed && v >= 0x8000_0000 {
      v := (0xFFFF_FFFF - v + 1) % M;
      sign := true;
    }
    var digitCount, p := CountDigits(v, f.base);
    NumeralIsLow(v, digitCount - 1, f.base);
    out := PrintLead(f.leadingZero, sign, f.width - digitCount);
    var digits := PrintDigits(v, p, digitCount, f.base, f.upper);
    out := out + digits;
  }

  /** The text is as wide as asked for, or as the number needs: also for the most negative integer. */
  lemma PrintedWidth(x: int, f: Format)
    ensures |Printed(x, f)| == var need := |Digits(x, f.base, f.upper)| + |Sign(x)|; if f.width > need then f.width else need
  {
  }

  // ---- reading back

  function DigitOf(c: char): nat {
    if '0' <= c <= '9' then c as int - '0' as int
    else if 'a' <= c <= 'f' then c as int - 'a' as int + 10
    else if 'A' <= c <= 'F' then c as int - 'A' as int + 10
    else 0
  }

  function ReadDigits(s: string, b: Base): int {
    if s == "" then 0 else ReadDigits(s[..|s| - 1], b) * b + DigitOf(s[|s| - 1])
  }

  /** Blanks, a sign, digits. */
  function Read(s: string, b: Base): int {
    if s == "" then 0
    else if s[0] == ' ' then Read(s[1..], b)
    else if s[0] == '-' then -ReadDigits(s[1..], b)
    else ReadDigits(s, b)
  }

  lemma {:induction false} ReadText(digits: seq<nat>, upper: bool, b: Base)
    requires forall i :: 0 <= i < |digits| ==> digits[i] < 16
    ensures ReadDigits(Text(digits, upper), b) == Value(digits, b)
    decreases |digits|
  {
    if digits != [] {
      var n := |digits| - 1;
      ReadText(digits[..n], upper, b);
      assert Text(digits, upper)[..n] == Text(digits[..n], upper);
      assert DigitOf(Glyph(digits[n], upper)) == digits[n];
    }
  }

  lemma {:induction false} ReadZeros(n: int, s: string, b: Base)
    ensures ReadDigits(Repeat('0', n) + s, b) == ReadDigits(s, b)
    decreases |s|, n
  {
    var t := Repeat('0', n) + s;
    if s != "" {
      ReadZeros(n, s[..|s| - 1], b);
      assert t[..|t| - 1] == Repeat('0', n) + s[..|s| - 1];
    } else if n > 0 {
      ReadZeros(n - 1, "", b);
      assert t[..|t| - 1] == Repeat('0', n - 1) + "";
    } else {
      assert t == "";
    }
  }

  lemma {:induction false} ReadBlanks(n: int, s: string, b: Base)
    ensures Read(Repeat(' ', n) + s, b) == Read(s, b)
    decreases n
  {
    if n > 0 {
      ReadBlanks(n - 1, s, b);
      assert (Repeat(' ', n) + s)[1..] == Repeat(' ', n - 1) + s;
    } else {
      assert Repeat(' ', n) + s == s;
    }
  }

  lemma ReadDigitsOf(x: int, base: Base, upper: bool)
    ensures var d := Digits(x, base, upper);
            d != "" && ReadDigits(d, base) == Abs(x) && d[0] != '-' && d[0] != ' '
  {
    NumeralValue(Abs(x), base);
    ReadText(Numeral(Abs(x), base), upper, base);
  }

  /** The printed text reads back as the number, so no two numbers print alike. */
  lemma PrintedRoundTrip(x: int, f: Format)
    ensures Read(Printed(x, f), f.base) == x
  {
    hide ReadDigits, Digits;
    var digits := Digits(x, f.base, f.upper);
    var fill := f.width - |digits| - |Sign(x)|;
    ReadDigitsOf(x, f.base, f.upper);
    if f.leadingZero {
      var tail := Repeat('0', fill) + digits;
      ReadZeros(fill, digits, f.base);
      assert Sign(x) + Repeat('0', fill) + digits == Sign(x) + tail;
      assert x < 0 ==> (Sign(x) + tail)[1..] == tail;
      assert x >= 0 ==> Sign(x) + tail == tail;
      assert fill > 0 ==> tail[0] == '0';
      assert fill <= 0 ==> tail == digits;
    } else {
      var tail := Sign(x) + digits;
      ReadBlanks(fill, tail, f.base);
      assert Repeat(' ', fill) + Sign(x) + digits == Repeat(' ', fill) + tail;
      assert x < 0 ==> tail[1..] == digits;
      assert x >= 0 ==> tail == digits;
    }
  }

  // ---- what the text looks like

  const LOWER := "0123456789abcdef"
  const UPPER := "0123456789ABCDEF"

  /** The digit `d`, in small or in capital letters. */
  lemma GlyphIs(d: nat, upper: bool)
    requires d < 16
    ensures Glyph(d, upper) == (if upper then UPPER else LOWER)[d]
  {
    assert d == 0 || d == 1 || d == 2 || d == 3 || d == 4 || d == 5 || d == 6 || d == 7
        || d == 8 || d == 9 || d == 10 || d == 11 || d == 12 || d == 13 || d == 14 || d == 15;
  }

  /** One of the first `base` digits. */
  predicate IsDigit(c: char, base: Base, upper: bool) { c in (if upper then UPPER else LOWER)[..base] }

  lemma {:induction false} DigitsAreDigits(x: int, base: Base, upper: bool)
    ensures var digits := Digits(x, base, upper);
            && digits != "" && (forall i :: 0 <= i < |digits| ==> IsDigit(digits[i], base, upper))
            && (digits[0] == '0' ==> x == 0)
  {
    NumeralValue(Abs(x), base);
    var numeral := Numeral(Abs(x), base);
    forall i | 0 <= i < |numeral|
      ensures IsDigit(Glyph(numeral[i], upper), base, upper)
    {
      GlyphIs(numeral[i], upper);
      assert Glyph(numeral[i], upper) == (if upper then UPPER else LOWER)[..base][numeral[i]];
    }
    GlyphIs(numeral[0], upper);
  }

  /** With the zero flag: a minus sign for a negative number, zeros, and the digits of the base in the letters asked for, of
      which the first is a zero only for zero. */
  lemma PrintedZeros(x: int, f: Format)
    requires f.leadingZero
    ensures var s, k := Printed(x, f), |Printed(x, f)| - |Digits(x, f.base, f.upper)|;
            && |Sign(x)| <= k < |s| && s[..|Sign(x)|] == (if x < 0 then "-" else "")
            && (forall i :: |Sign(x)| <= i < k ==> s[i] == '0')
            && (forall i :: k <= i < |s| ==> IsDigit(s[i], f.base, f.upper))
            && (s[k] == '0' ==> x == 0)
  {
    hide Digits, IsDigit;
    DigitsAreDigits(x, f.base, f.upper);
    Three(Sign(x), Repeat('0', f.width - |Digits(x, f.base, f.upper)| - |Sign(x)|), Digits(x, f.base, f.upper));
  }

  /** Without it: blanks, the sign, and the digits. */
  lemma PrintedBlanks(x: int, f: Format)
    requires !f.leadingZero
    ensures var s, k := Printed(x, f), |Printed(x, f)| - |Digits(x, f.base, f.upper)|;
            && |Sign(x)| <= k < |s| && (forall i :: 0 <= i < k - |Sign(x)| ==> s[i] == ' ')
            && s[k - |Sign(x)|..k] == (if x < 0 then "-" else "")
            && (forall i :: k <= i < |s| ==> IsDigit(s[i], f.base, f.upper))
            && (s[k] == '0' ==> x == 0)
  {
    hide Digits, IsDigit;
    DigitsAreDigits(x, f.base, f.upper);
    Three(Repeat(' ', f.width - |Digits(x, f.base, f.upper)| - |Sign(x)|), Sign(x), Digits(x, f.base, f.upper));
  }

  lemma Three(a: string, b: string, c: string)
    ensures var s := a + b + c;
            && s[..|a|] == a && s[|a|..|a| + |b|] == b && s[|a| + |b|..] == c && |s| == |a| + |b| + |c|
            && (forall i :: 0 <= i < |a| ==> s[i] == a[i])
            && (forall i :: |a| <= i < |a| + |b| ==> s[i] == b[i - |a|])
            && (forall i :: |a| + |b| <= i < |s| ==> s[i] == c[i - |a| - |b|])
  {
  }

  predicate RightCase(c: char, upper: bool) { if upper then c !in "abcdef" else c !in "ABCDEF" }

  /** No capital letter in %x, no small one in %X. */
  lemma PrintedCase(x: int, f: Format)
    ensures forall i :: 0 <= i < |Printed(x, f)| ==> RightCase(Printed(x, f)[i], f.upper)
  {
    hide Digits, IsDigit, RightCase;
    DigitsAreDigits(x, f.base, f.upper);
    OthersCase(f.upper);
    var digits := Digits(x, f.base, f.upper);
    forall i | 0 <= i < |digits|
      ensures RightCase(digits[i], f.upper)
    {
      DigitCase(digits[i], f.base, f.upper);
    }
  }

  lemma OthersCase(upper: bool)
    ensures RightCase(' ', upper) && RightCase('0', upper) && RightCase('-', upper)
  {
  }

  lemma DigitCase(c: char, base: Base, upper: bool)
    requires IsDigit(c, base, upper)
    ensures RightCase(c, upper)
  {
    var letters := if upper then UPPER else LOWER;
    var i :| 0 <= i < base && letters[..base][i] == c;
    assert letters[i] == c;
    GlyphIs(i, upper);
  }

  // ---- alt_printf

  /** The four bits of `v` from bit 4 * k on. */
  function Nibble(v: u32, k: nat): (d: nat)
    ensures d < 16
  {
    v / Pow(16, k) % 16
  }

  /** The %x of `alt_printf`, which prints what the %x of alt_log_printf does; `k` stands for digit_shift / 4. */
  method PrintHex(v: u32) returns (out: string)
    ensures out == Printed(v, Format(false, false, 16, false, -1))
  {
    hide Pow, Low, Text, Numeral, Nibble;
    if v == 0 {
      NumeralZero();
      return "0";
    }
    var k := 7;
    PowEight();
    while Nibble(v, k) == 0
      invariant 0 <= k < 8 && v < Pow(16, k + 1)
      decreases k
    {
      NextNibble(v, k);
      k := k - 1;
    }
    NibbleMeansDigits(v, k);
    NumeralIsLow(v, k, 16);
    ghost var n := k + 1;
    ghost var digits := Low(v, n, 16);
    LowSmall(v, n, 16);
    out := "";
    while k >= 0
      invariant -1 <= k < n && |out| == n - 1 - k
      invariant forall i :: 0 <= i < |out| ==> out[i] == Glyph(digits[i], false)
    {
      NibbleIsDigit(v, k, n);
      var digit := Nibble(v, k);
      out := out + [if digit <= 9 then '0' + digit as char else 'a' + (digit - 10) as char];
      k := k - 1;
    }
    TextAt(digits, out);
    PlainHex(v);
  }

  lemma NibbleIsDigit(v: u32, k: nat, n: nat)
    requires k < n
    ensures Nibble(v, k) == Low(v, n, 16)[n - 1 - k]
  {
    hide Low, Pow;
    LowDigit(v, n, 16, n - 1 - k);
  }

  lemma PlainHex(v: u32)
    ensures Printed(v, Format(false, false, 16, false, -1)) == Digits(v, 16, false)
  {
  }

  lemma TextAt(digits: seq<nat>, s: string)
    requires |s| == |digits| && forall i :: 0 <= i < |digits| ==> digits[i] < 16 && s[i] == Glyph(digits[i], false)
    ensures s == Text(digits, false)
  {
  }

  lemma NumeralZero()
    ensures Printed(0, Format(false, false, 16, false, -1)) == "0"
  {
    assert Numeral(0, 16) == [0];
  }

  lemma PowEight()
    ensures Pow(16, 8) == M
  {
    assert Pow(16, 4) == 65536;
  }

  lemma NextNibble(v: u32, k: nat)
    requires v < Pow(16, k + 1) && Nibble(v, k) == 0 && v != 0
    ensures k > 0 && v < Pow(16, k)
  {
    hide Pow, Low;
    LowSplit(v, k, 16);
    AtLeastOne(v, Pow(16, k));
    PowStep(16, 0);
  }

  lemma NibbleMeansDigits(v: u32, k: nat)
    requires v < Pow(16, k + 1) && Nibble(v, k) != 0
    ensures Pow(16, k) <= v
  {
    hide Pow;
    AtLeastOne(v, Pow(16, k));
  }
}
