/** The format strings of alt_log_printf: the state machine that reads them, against a grammar of directives. */
module LogFormat {
  import opened Options
  import opened Unsigned
  import opened Numerals
  import opened NumberPrinting

  datatype Arg = Int(word: u32) | Str(text: string)

  datatype State = Chars | FirstFmtChar | OtherFmtChar

  /** The variables of the loop, what it has printed, and the arguments not yet read. */
  datatype Machine = Machine(state: State, leadingZero: bool, long: bool, before: int, after: int, args: seq<Arg>, out: string)

  function Start(args: seq<Arg>): Machine { Machine(Chars, false, false, 0, 0, args, "") }

  // ---- the grammar

  /** `%[0][width][.precision][l]letter`; the precision and the `l` have no effect. */
  datatype Piece =
    | Plain(c: char)
    | Percent
    | Directive(zero: bool, width: Option<nat>, precision: Option<nat>, long: bool, letter: char)

  ghost predicate WellFormed(p: Piece) {
    match p
    case Plain(c) => c != '%' && c != '\0'
    case Percent => true
    case Directive(zero, width, _, _, letter) =>
      && IsLetter(letter)
      && (width.Some? ==> 0 < width.value)
  }

  /** Neither the terminator, a digit, `.`, `l` nor, where it would read as an escape, `%`. */
  predicate IsLetter(c: char) { c != '\0' && !('0' <= c <= '9') && c != '.' && c != 'l' && c != '%' }

  function Decimal(v: nat): string {
    NumeralValue(v, 10);
    Text(Numeral(v, 10), false)
  }

  function Render(p: Piece): string {
    match p
    case Plain(c) => [c]
    case Percent => "%%"
    case Directive(zero, width, precision, long, letter) =>
      "%" + ((if zero then "0" else "") + ((if width.Some? then Decimal(width.value) else "")
      + ((if precision.Some? then "." + Decimal(precision.value) else "") + ((if long then "l" else "") + [letter]))))
  }

  function RenderAll(pieces: seq<Piece>): string {
    if pieces == [] then "" else Render(pieces[0]) + RenderAll(pieces[1..])
  }

  // ---- what a directive prints

  predicate TakesArgument(letter: char) { letter in "diuoxXcs" }

  /** The next argument; reading past the last is not modelled. */
  function Next(args: seq<Arg>): Arg { if args == [] then Int(0) else args[0] }

  function Rest(args: seq<Arg>): seq<Arg> { if args == [] then [] else args[1..] }

  function WordOf(arg: Arg): u32 { if arg.Int? then arg.word else 0 }
  function StringOf(arg: Arg): string { if arg.Str? then arg.text else "" }

  function FormatOf(letter: char, zero: bool, width: int): Format {
    if letter == 'u' then Format(zero, false, 10, false, width)
    else if letter == 'o' then Format(zero, false, 8, false, width)
    else if letter == 'x' then Format(zero, false, 16, false, width)
    else if letter == 'X' then Format(zero, false, 16, true, width)
    else Format(zero, true, 10, false, width)
  }

  function Directed(letter: char, zero: bool, width: int, arg: Arg): string {
    if letter == 'c' then Repeat(' ', width - 1) + [(WordOf(arg) % 256) as char]
    else if letter == 's' then Repeat(' ', width - |StringOf(arg)|) + StringOf(arg)
    else if letter in "diuoxX" then
      var f := FormatOf(letter, zero, width);
      Printed(Number(WordOf(arg), f.signed), f)
    else ""
  }

  function Width(p: Piece): int
    requires p.Directive?
  {
    if p.width.Some? then p.width.value else -1
  }

  /** What the pieces print, argument by argument. */
  function Expected(pieces: seq<Piece>, args: seq<Arg>): string {
    if pieces == [] then ""
    else
      var (text, rest) := Meaning(pieces[0], args);
      text + Expected(pieces[1..], rest)
  }

  function Meaning(p: Piece, args: seq<Arg>): (string, seq<Arg>) {
    match p
    case Plain(c) => ([c], args)
    case Percent => ("%", args)
    case Directive(zero, _, _, _, letter) =>
      (Directed(letter, zero, Width(p), Next(args)), if TakesArgument(letter) then Rest(args) else args)
  }

  /** What each numeric letter prints reads back, in its base, as the argument: d and i as a signed number, u, o, x and X as
      an unsigned one; x in small letters, X in capitals. Fill and width are those of the flag and the width given. */
  lemma NumberLetters(zero: bool, width: int, v: u32)
    ensures Read(Directed('d', zero, width, Int(v)), 10) == Signed(v)
    ensures Directed('i', zero, width, Int(v)) == Directed('d', zero, width, Int(v))
    ensures Read(Directed('u', zero, width, Int(v)), 10) == v
    ensures Read(Directed('o', zero, width, Int(v)), 8) == v
    ensures Read(Directed('x', zero, width, Int(v)), 16) == v
    ensures Read(Directed('X', zero, width, Int(v)), 16) == v
    ensures Directed('d', zero, width, Int(v)) == Printed(Signed(v), Format(zero, true, 10, false, width))
    ensures Directed('u', zero, width, Int(v)) == Printed(v, Format(zero, false, 10, false, width))
    ensures Directed('o', zero, width, Int(v)) == Printed(v, Format(zero, false, 8, false, width))
    ensures Directed('x', zero, width, Int(v)) == Printed(v, Format(zero, false, 16, false, width))
    ensures Directed('X', zero, width, Int(v)) == Printed(v, Format(zero, false, 16, true, width))
  {
    hide Printed, Read;
    PrintedRoundTrip(Signed(v), Format(zero, true, 10, false, width));
    PrintedRoundTrip(v, Format(zero, false, 10, false, width));
    PrintedRoundTrip(v, Format(zero, false, 8, false, width));
    PrintedRoundTrip(v, Format(zero, false, 16, false, width));
    PrintedRoundTrip(v, Format(zero, false, 16, true, width));
  }

  /** A character and a string stand at the right of their width, after blanks only; other letters print nothing, and just
      these eight take an argument. */
  lemma OtherLetters(letter: char, zero: bool, width: int, arg: Arg)
    ensures var s := Directed('c', zero, width, arg);
            && |s| == (if width > 1 then width else 1) && s[|s| - 1] as int == WordOf(arg) % 256
            && forall i :: 0 <= i < |s| - 1 ==> s[i] == ' '
    ensures var s, text := Directed('s', zero, width, arg), StringOf(arg);
            && |s| == (if width > |text| then width else |text|) && s[|s| - |text|..] == text
            && forall i :: 0 <= i < |s| - |text| ==> s[i] == ' '
    ensures letter !in ['d', 'i', 'u', 'o', 'x', 'X', 'c', 's'] <==> !TakesArgument(letter)
    ensures !TakesArgument(letter) ==> Directed(letter, zero, width, arg) == ""
  {
  }

  // ---- the state machine

  function Step(m: Machine, c: char): Machine {
    match m.state
    case Chars =>
      if c == '%' then m.(leadingZero := false, long := false, before := -1, after := -1, state := FirstFmtChar)
      else m.(out := m.out + [c])
    case FirstFmtChar =>
      if c == '0' then m.(leadingZero := true, state := OtherFmtChar)
      else if c == '%' then m.(out := m.out + [c], state := Chars)
      else Other(m.(state := OtherFmtChar), c)
    case OtherFmtChar => Other(m, c)
  }

  function Other(m: Machine, c: char): Machine {
    if c == '.' then m.(after := 0)
    else if '0' <= c <= '9' then
      var d := c as int - '0' as int;
      if m.after < 0 then m.(before := (if m.before < 0 then 0 else m.before * 10) + d) else m.(after := m.after * 10 + d)
    else if c == 'l' then m.(long := true)
    else m.(out := m.out + Directed(c, m.leadingZero, m.before, Next(m.args)),
            args := if TakesArgument(c) then Rest(m.args) else m.args,
            state := Chars)
  }

  function Feed(m: Machine, s: string): Machine
    decreases |s|
  {
    if s == "" then m else Feed(Step(m, s[0]), s[1..])
  }

  /** The characters that C reads of a string. */
  function Terminated(s: string): (t: string)
    ensures t <= s && '\0' !in t && (t != s ==> s[|t|] == '\0')
  {
    if s == "" || s[0] == '\0' then "" else [s[0]] + Terminated(s[1..])
  }

  lemma {:induction false} FeedConcat(m: Machine, s: string, t: string)
    ensures Feed(m, s + t) == Feed(Feed(m, s), t)
    decreases |s|
  {
    if s == "" {
      assert s + t == t;
    } else {
      FeedConcat(Step(m, s[0]), s[1..], t);
      assert (s + t)[1..] == s[1..] + t;
    }
  }

  lemma FeedOne(m: Machine, c: char)
    ensures Feed(m, [c]) == Step(m, c)
  {
    assert Feed(Step(m, c), []) == Step(m, c);
  }

  /** Digits of a width: `before` becomes their value. The first must not be read as the zero flag. */
  lemma {:induction false} FeedWidth(m: Machine, digits: seq<nat>)
    requires m.after < 0 && m.before == -1 && digits != [] && forall i :: 0 <= i < |digits| ==> digits[i] < 10
    requires m.state == OtherFmtChar || (m.state == FirstFmtChar && digits[0] != 0)
    ensures Value(digits, 10) >= 0
    ensures Feed(m, Text(digits, false)) == m.(before := Value(digits, 10), state := OtherFmtChar)
    decreases |digits|
  {
    var n := |digits| - 1;
    SplitLast(digits);
    if n == 0 {
      assert Value(digits[..n], 10) == 0;
      assert Text(digits, false) == [Glyph(digits[0], false)];
      FeedOne(m, Glyph(digits[0], false));
    } else {
      FeedWidth(m, digits[..n]);
      FeedConcat(m, Text(digits[..n], false), [Glyph(digits[n], false)]);
      FeedOne(Feed(m, Text(digits[..n], false)), Glyph(digits[n], false));
    }
  }

  lemma {:induction false} FeedPrecision(m: Machine, digits: seq<nat>)
    requires m.after == 0 && forall i :: 0 <= i < |digits| ==> digits[i] < 10
    requires m.state == OtherFmtChar
    ensures Value(digits, 10) >= 0
    ensures Feed(m, Text(digits, false)) == m.(after := Value(digits, 10))
    decreases |digits|
  {
    if digits != [] {
      var n := |digits| - 1;
      SplitLast(digits);
      FeedPrecision(m, digits[..n]);
      FeedConcat(m, Text(digits[..n], false), [Glyph(digits[n], false)]);
      FeedOne(Feed(m, Text(digits[..n], false)), Glyph(digits[n], false));
    }
  }

  lemma SplitLast(digits: seq<nat>)
    requires digits != [] && forall i :: 0 <= i < |digits| ==> digits[i] < 10
    ensures var n := |digits| - 1; Text(digits, false) == Text(digits[..n], false) + [Glyph(digits[n], false)]
  {
  }

  /** One piece takes the machine from between directives to between directives, printing what the piece means. */
  lemma FeedPiece(m: Machine, p: Piece)
    requires m.state == Chars && WellFormed(p)
    ensures var m' := Feed(m, Render(p)); var (text, rest) := Meaning(p, m.args);
            m'.state == Chars && m'.out == m.out + text && m'.args == rest
  {
    hide Feed, Directed;
    match p
    case Plain(c) => FeedOne(m, c);
    case Percent =>
      assert "%%" == "%" + "%";
      FeedConcat(m, "%", "%");
      FeedOne(m, '%');
      FeedOne(Feed(m, "%"), '%');
    case Directive(zero, width, precision, long, letter) =>
      FeedDirective(m, p);
  }

  lemma FeedDirective(m: Machine, p: Piece)
    requires m.state == Chars && WellFormed(p) && p.Directive?
    ensures var m' := Feed(m, Render(p)); var (text, rest) := Meaning(p, m.args);
            m'.state == Chars && m'.out == m.out + text && m'.args == rest
  {
    hide Feed, Directed, Decimal;
    var tail1 := (if p.long then "l" else "") + [p.letter];
    var tail2 := (if p.precision.Some? then "." + Decimal(p.precision.value) else "") + tail1;
    var tail3 := (if p.width.Some? then Decimal(p.width.value) else "") + tail2;
    FeedConcat(m, "%", (if p.zero then "0" else "") + tail3);
    FeedOne(m, '%');
    var m1 := Step(m, '%');
    var m2 := FeedZero(m1, p.zero, tail3);
    var m3 := FeedWidthOf(m2, p.width, tail2);
    var m4 := FeedPrecisionOf(m3, p.precision, tail1);
    FeedTail(m4, p.long, p.letter);
  }

  lemma FeedZero(m: Machine, zero: bool, tail: string) returns (m': Machine)
    requires m.state == FirstFmtChar
    ensures m' == if zero then m.(leadingZero := true, state := OtherFmtChar) else m
    ensures Feed(m, (if zero then "0" else "") + tail) == Feed(m', tail)
  {
    if zero {
      FeedConcat(m, "0", tail);
      FeedOne(m, '0');
      m' := Step(m, '0');
    } else {
      assert "" + tail == tail;
      m' := m;
    }
  }

  lemma FeedWidthOf(m: Machine, width: Option<nat>, tail: string) returns (m': Machine)
    requires m.state != Chars && m.after == -1 && m.before == -1 && (width.Some? ==> 0 < width.value)
    ensures m' == if width.Some? then m.(before := width.value, state := OtherFmtChar) else m
    ensures Feed(m, (if width.Some? then Decimal(width.value) else "") + tail) == Feed(m', tail)
  {
    hide Feed;
    if width.Some? {
      NumeralValue(width.value, 10);
      FeedConcat(m, Decimal(width.value), tail);
      FeedWidth(m, Numeral(width.value, 10));
      m' := m.(before := width.value, state := OtherFmtChar);
    } else {
      assert "" + tail == tail;
      m' := m;
    }
  }

  lemma FeedPrecisionOf(m: Machine, precision: Option<nat>, tail: string) returns (m': Machine)
    requires m.state != Chars
    ensures m' == if precision.Some? then m.(after := precision.value, state := OtherFmtChar) else m
    ensures Feed(m, (if precision.Some? then "." + Decimal(precision.value) else "") + tail) == Feed(m', tail)
  {
    hide Feed;
    if precision.Some? {
      NumeralValue(precision.value, 10);
      var digits := Decimal(precision.value);
      assert "." + digits + tail == "." + (digits + tail);
      FeedConcat(m, ".", digits + tail);
      FeedOne(m, '.');
      FeedConcat(Step(m, '.'), digits, tail);
      FeedPrecision(Step(m, '.'), Numeral(precision.value, 10));
      m' := m.(after := precision.value, state := OtherFmtChar);
    } else {
      assert "" + tail == tail;
      m' := m;
    }
  }

  lemma FeedTail(m: Machine, long: bool, letter: char)
    requires m.state != Chars && IsLetter(letter)
    ensures var m' := Feed(m, (if long then "l" else "") + [letter]);
            && m'.state == Chars && m'.out == m.out + Directed(letter, m.leadingZero, m.before, Next(m.args))
            && m'.args == if TakesArgument(letter) then Rest(m.args) else m.args
  {
    hide Feed, Directed;
    if long {
      FeedConcat(m, "l", [letter]);
      FeedOne(m, 'l');
      FeedOne(Step(m, 'l'), letter);
    } else {
      assert "" + [letter] == [letter];
      FeedOne(m, letter);
    }
  }

  lemma {:induction false} FeedAll(m: Machine, pieces: seq<Piece>)
    requires m.state == Chars && forall i :: 0 <= i < |pieces| ==> WellFormed(pieces[i])
    ensures Feed(m, RenderAll(pieces)).out == m.out + Expected(pieces, m.args)
    decreases |pieces|
  {
    hide Render, Meaning, Step;
    if pieces != [] {
      FeedPiece(m, pieces[0]);
      FeedConcat(m, Render(pieces[0]), RenderAll(pieces[1..]));
      FeedAll(Feed(m, Render(pieces[0])), pieces[1..]);
    }
  }

  /** Every format string written in the grammar prints what its directives mean. */
  lemma FormatIsRead(pieces: seq<Piece>, args: seq<Arg>)
    requires forall i :: 0 <= i < |pieces| ==> WellFormed(pieces[i])
    ensures Feed(Start(args), Terminated(RenderAll(pieces))).out == Expected(pieces, args)
  {
    hide WellFormed, RenderAll, Expected, Feed, Terminated;
    FeedAll(Start(args), pieces);
    NoTerminator(pieces);
    assert Terminated(RenderAll(pieces)) == RenderAll(pieces);
    assert "" + Expected(pieces, args) == Expected(pieces, args);
  }

  lemma {:induction false} NoTerminator(pieces: seq<Piece>)
    requires forall i :: 0 <= i < |pieces| ==> WellFormed(pieces[i])
    ensures '\0' !in RenderAll(pieces)
    decreases |pieces|
  {
    hide Render;
    if pieces != [] {
      NoTerminatorIn(pieces[0]);
      NoTerminator(pieces[1..]);
    }
  }

  lemma NoTerminatorIn(p: Piece)
    requires WellFormed(p)
    ensures '\0' !in Render(p)
  {
    hide Decimal;
    if p.Directive? {
      if p.width.Some? {
        DecimalDigits(p.width.value);
      }
      if p.precision.Some? {
        DecimalDigits(p.precision.value);
      }
    }
  }

  lemma DecimalDigits(v: nat)
    ensures '\0' !in Decimal(v)
  {
    hide Numeral;
    NumeralValue(v, 10);
  }

  /** `alt_log_private_printf` */
  method LogPrintf(fmt: string, arguments: seq<Arg>) returns (out: string)
    ensures out == Feed(Start(arguments), Terminated(fmt)).out
  {
    hide Directed, TakesArgument, Printed, Remaining;
    var state, leadingZero, long, before, after, args := Chars, false, false, 0, 0, arguments;
    out := "";
    var i := 0;
    while i < |fmt| && fmt[i] != '\0'
      invariant 0 <= i <= |fmt|
      invariant Remaining(Machine(state, leadingZero, long, before, after, args, out), fmt, i)
             == Remaining(Start(arguments), fmt, 0)
    {
      var c := fmt[i];
      ReadOne(Machine(state, leadingZero, long, before, after, args, out), fmt, i);
      i := i + 1;
      if state == Chars {
        if c == '%' {
          leadingZero, long, before, after, state := false, false, -1, -1, FirstFmtChar;
        } else {
          out := out + [c];
        }
      } else if state == FirstFmtChar && c == '0' {
        leadingZero, state := true, OtherFmtChar;
      } else if state == FirstFmtChar && c == '%' {
        out, state := out + [c], Chars;
      } else {
        state := OtherFmtChar;
        if c == '.' {
          after := 0;
        } else if '0' <= c <= '9' {
          var d := c as int - '0' as int;
          if after < 0 {
            before := (if before < 0 then 0 else before * 10) + d;
          } else {
            after := after * 10 + d;
          }
        } else if c == 'l' {
          long := true;
        } else {
          var text := PrintDirective(c, leadingZero, before, Next(args));
          out := out + text;
          if TakesArgument(c) {
            args := Rest(args);
          }
          state := Chars;
        }
      }
    }
    ReadAll(Machine(state, leadingZero, long, before, after, args, out), fmt, i);
    ReadFromStart(Start(arguments), fmt);
  }

  /** Where the machine gets on what is left of the string. */
  function Remaining(m: Machine, fmt: string, i: nat): Machine
    requires i <= |fmt|
  {
    Feed(m, Terminated(fmt[i..]))
  }

  lemma ReadOne(m: Machine, fmt: string, i: nat)
    requires i < |fmt| && fmt[i] != '\0'
    ensures Remaining(m, fmt, i) == Remaining(Step(m, fmt[i]), fmt, i + 1)
  {
    hide Step;
    assert fmt[i..][0] == fmt[i] && fmt[i..][1..] == fmt[i + 1..];
    assert Terminated(fmt[i..]) == [fmt[i]] + Terminated(fmt[i + 1..]);
  }

  lemma ReadAll(m: Machine, fmt: string, i: nat)
    requires i <= |fmt| && (i < |fmt| ==> fmt[i] == '\0')
    ensures Remaining(m, fmt, i) == m
  {
  }

  lemma ReadFromStart(m: Machine, fmt: string)
    ensures Remaining(m, fmt, 0) == Feed(m, Terminated(fmt))
  {
    assert fmt[0..] == fmt;
  }

  /** The type letter. */
  method PrintDirective(c: char, zero: bool, before: int, arg: Arg) returns (out: string)
    ensures out == Directed(c, zero, before, arg)
  {
    hide Printed;
    out := "";
    if c == 'c' {
      out := RepChar(' ', before - 1);
      out := out + [(WordOf(arg) % 256) as char];
    } else if c == 's' {
      out := RepChar(' ', before - |StringOf(arg)|);
      out := out + StringOf(arg);
    } else if c in "diuoxX" {
      out := PrintInteger(WordOf(arg), FormatOf(c, zero, before));
    }
  }
}
