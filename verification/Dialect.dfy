/**
 From ICU's spellings to those of the regex crates. What a character is taken for depends on how many classes
 are open around it, so the theorems are about text read from a given class depth on.
 */
module Dialect {
  import opened Wrappers

  /** Members of a class for what `IsLineBreak` holds of (`LineBreaksHaveLineBreaks`). */
  const LINE_BREAKS := "\\n" + "\\x0B" + "\\f" + "\\r" + "\\x{85}" + "\\x{2028}" + "\\x{2029}"
  /** Members of a class for what `IsBlank` holds of (`BlanksHaveBlanks`). */
  const BLANKS := "\\t" + "\\p{Zs}"

  /** What stands around the line terminators for `\\R`, a CRLF pair or one of them, and for `\\Z`, the end. */
  const BREAK_OPEN := "(?:" + "\\r" + "\\n|"
  const BREAK_CLOSE := ")"
  const END_OPEN := "(?=(?:" + "\\r" + "\\n|"
  const END_CLOSE := ")?" + "\\z)"

  type Translated = Result<string, string>

  function RefusedInClass(letter: char): (r: string)
    ensures |r| > 3 && r[..3] == ['`', '\\', letter]
  {
    "`\\" + [letter] + "` cannot be used inside a character class"
  }

  // ---------- the text of a quoted section ----------

  predicate IsSyntax(c: char) {
    || c == '\\' || c == '.' || c == '+' || c == '*' || c == '?' || c == '(' || c == ')' || c == '|' || c == '['
    || c == ']' || c == '{' || c == '}' || c == '^' || c == '$' || c == '#' || c == '&' || c == '-' || c == '~'
  }

  /** The characters with the Unicode property White_Space. */
  predicate IsWhitespace(c: char) {
    var n := c as int;
    || 0x9 <= n <= 0xD || n == 0x20 || n == 0x85 || n == 0xA0 || n == 0x1680 || 0x2000 <= n <= 0x200A
    || n == 0x2028 || n == 0x2029 || n == 0x202F || n == 0x205F || n == 0x3000
  }

  function HexDigit(d: nat): (c: char)
    requires d < 16
  {
    "0123456789abcdef"[d]
  }

  function Hex(n: nat): string {
    if n < 16 then [HexDigit(n)] else Hex(n / 16) + [HexDigit(n % 16)]
  }

  /** What stands for one quoted character: `ReadLiterals` takes it for just that character. */
  function Literal(c: char): (r: string) {
    if IsSyntax(c) then ['\\', c]
    else if IsWhitespace(c) then "\\x{" + Hex(c as int) + "}"
    else [c]
  }

  predicate EndsQuote(s: string): (r: bool)
    ensures r <==> "\\E" <= s
  {
    |s| >= 2 && s[0] == '\\' && s[1] == 'E'
  }

  /** What is written for quoted text that begins here. */
  function QuotedText(s: string): string {
    if s == [] || EndsQuote(s) then [] else Literal(s[0]) + QuotedText(s[1..])
  }

  /** How much of the pattern the section takes, its `\E` included. */
  function QuotedLength(s: string): (n: nat)
    ensures n <= |s|
  {
    if s == [] then 0 else if EndsQuote(s) then 2 else 1 + QuotedLength(s[1..])
  }

  // ---------- one step ----------

  /** What is written for the head of a pattern, how much of it that is, and the class depth behind it. */
  datatype Step = Step(emit: string, taken: nat, depth: nat) | Refused(letter: char)

  function Member(body: string, inClass: bool): string {
    if inClass then body else "[" + body + "]"
  }

  /** How much of a class that opens here is no member: its `[`, a `^`, and a `]` that is a literal. */
  function Opening(s: string): (n: nat)
    requires s != [] && s[0] == '['
    ensures 1 <= n <= |s| && n <= 3
    ensures n == if "[^]" <= s then 3 else if "[^" <= s || "[]" <= s then 2 else 1
  {
    var n := if |s| > 1 && s[1] == '^' then 2 else 1;
    if n < |s| && s[n] == ']' then n + 1 else n
  }

  function EscapeAt(s: string, depth: nat): (r: Step)
    requires |s| >= 2 && s[0] == '\\'
    ensures r.Step? ==> 2 <= r.taken <= |s| && r.depth == depth
  {
    var next := s[1];
    if next == 'h' then Step(Member(BLANKS, depth > 0), 2, depth)
    else if next == 'v' then Step(Member(LINE_BREAKS, depth > 0), 2, depth)
    else if next in "HVR" && depth > 0 then Refused(next)
    else if next == 'H' then Step(Member("^" + BLANKS, false), 2, depth)
    else if next == 'V' then Step(Member("^" + LINE_BREAKS, false), 2, depth)
    else if next == 'R' then Step(BREAK_OPEN + Member(LINE_BREAKS, false) + BREAK_CLOSE, 2, depth)
    else if next == 'Z' && depth == 0 then Step(END_OPEN + Member(LINE_BREAKS, false) + END_CLOSE, 2, depth)
    else if next in "<>" then Step([next], 2, depth)
    else if next == 'Q' then Step(QuotedText(s[2..]), 2 + QuotedLength(s[2..]), depth)
    else Step(['\\', next], 2, depth)
  }

  function StepAt(s: string, depth: nat): (r: Step)
    requires s != []
    ensures r.Step? ==> 1 <= r.taken <= |s|
  {
    if s[0] == '\\' then
      if |s| == 1 then Step("\\", 1, depth) else EscapeAt(s, depth)
    else if s[0] == '[' then
      if depth == 0 then Step(s[..Opening(s)], Opening(s), 1) else Step("[", 1, depth + 1)
    else if s[0] == ']' && depth > 0 then Step("]", 1, depth - 1)
    else Step([s[0]], 1, depth)
  }

  function Behind(emit: string, r: Translated): Translated {
    match r
    case Ok(t) => Ok(emit + t)
    case Err(e) => Err(e)
  }

  /** The translation of the rest of a pattern, read at class depth `depth`. */
  function TranslateFrom(s: string, depth: nat): Translated
    decreases |s|
  {
    if s == [] then Ok([])
    else match StepAt(s, depth)
      case Refused(letter) => Err(RefusedInClass(letter))
      case Step(emit, taken, depth') => Behind(emit, TranslateFrom(s[taken..], depth'))
  }

  // ---------- the loop ----------

  lemma QuotedOneMore(s: string)
    requires s != []
    ensures EndsQuote(s) ==> QuotedText(s) == [] && QuotedLength(s) == 2
    ensures !EndsQuote(s) ==>
              QuotedText(s) == Literal(s[0]) + QuotedText(s[1..]) && QuotedLength(s) == 1 + QuotedLength(s[1..])
  {
  }

  method PushQuoted(chars: string, start: nat, before: string) returns (i: nat, out: string)
    requires start <= |chars|
    ensures i == start + QuotedLength(chars[start..]) && out == before + QuotedText(chars[start..])
  {
    hide QuotedText, QuotedLength, Literal;
    i, out := start, before;
    while i < |chars|
      invariant start <= i <= |chars|
      invariant QuotedLength(chars[start..]) == i - start + QuotedLength(chars[i..])
      invariant before + QuotedText(chars[start..]) == out + QuotedText(chars[i..])
    {
      QuotedOneMore(chars[i..]);
      if chars[i] == '\\' && i + 1 < |chars| && chars[i + 1] == 'E' {
        assert EndsQuote(chars[i..]);
        return i + 2, out;
      }
      assert chars[i..][1..] == chars[i + 1..];
      ghost var behind := QuotedText(chars[i + 1..]);
      assert out + (Literal(chars[i]) + behind) == (out + Literal(chars[i])) + behind;
      out := out + Literal(chars[i]);
      i := i + 1;
    }
    QuotedNothing(chars[i..]);
  }

  lemma QuotedNothing(s: string)
    requires s == []
    ensures QuotedText(s) == [] && QuotedLength(s) == 0
  {
  }

  method Translate(source: string) returns (r: Translated)
    ensures r == TranslateFrom(source, 0)
  {
    hide TranslateFrom, QuotedText, QuotedLength, Literal;
    var chars := source;
    var out: string := [];
    var i, depth: nat := 0, 0;
    assert chars[0..] == chars && (forall t: string :: [] + t == t);
    while i < |chars|
      invariant 0 <= i <= |chars|
      invariant TranslateFrom(source, 0) == Behind(out, TranslateFrom(chars[i..], depth))
    {
      ghost var rest, from, before := chars[i..], i, out;
      TakeStep(chars, i, depth, out);
      var c := chars[i];
      if c == '\\' {
        if i + 1 >= |chars| {
          assert |rest| == 1;
          out := out + "\\";
          NothingLeft(chars[i + 1..], depth, out);
          return Ok(out);
        }
        var next := chars[i + 1];
        i := i + 2;
        if next == 'h' {
          out := out + Member(BLANKS, depth > 0);
        } else if next == 'v' {
          out := out + Member(LINE_BREAKS, depth > 0);
        } else if next in "HVR" && depth > 0 {
          return Err(RefusedInClass(next));
        } else if next == 'H' {
          out := out + Member("^" + BLANKS, false);
        } else if next == 'V' {
          out := out + Member("^" + LINE_BREAKS, false);
        } else if next == 'R' {
          out := out + (BREAK_OPEN + Member(LINE_BREAKS, false) + BREAK_CLOSE);
        } else if next == 'Z' && depth == 0 {
          out := out + (END_OPEN + Member(LINE_BREAKS, false) + END_CLOSE);
        } else if next in "<>" {
          out := out + [next];
        } else if next == 'Q' {
          assert rest[2..] == chars[i..];
          i, out := PushQuoted(chars, i, out);
        } else {
          out := out + ['\\', next];
        }
      } else if c == '[' {
        out := out + "[";
        i := i + 1;
        if depth == 0 {
          depth := 1;
          if i < |chars| && chars[i] == '^' {
            out := out + "^";
            i := i + 1;
          }
          if i < |chars| && chars[i] == ']' {
            out := out + "]";
            i := i + 1;
          }
          assert out == before + rest[..i - from];
        } else {
          depth := depth + 1;
        }
      } else if c == ']' && depth > 0 {
        out := out + "]";
        i := i + 1;
        depth := depth - 1;
      } else {
        out := out + [c];
        i := i + 1;
      }
    }
    NothingLeft(chars[i..], depth, out);
    r := Ok(out);
  }

  lemma NothingLeft(s: string, depth: nat, out: string)
    requires s == []
    ensures Behind(out, TranslateFrom(s, depth)) == Ok(out)
  {
    assert out + [] == out;
  }

  /** One step of the reading from `i` on. */
  lemma TakeStep(chars: string, i: nat, depth: nat, out: string)
    requires i < |chars|
    ensures match StepAt(chars[i..], depth)
            case Refused(letter) => Behind(out, TranslateFrom(chars[i..], depth)) == Err(RefusedInClass(letter))
            case Step(emit, taken, depth') =>
              Behind(out, TranslateFrom(chars[i..], depth))
              == Behind(out + emit, TranslateFrom(chars[i + taken..], depth'))
  {
    hide StepAt;
    match StepAt(chars[i..], depth) {
      case Refused(_) =>
      case Step(emit, taken, depth') =>
        assert chars[i..][taken..] == chars[i + taken..];
        match TranslateFrom(chars[i + taken..], depth') {
          case Err(_) =>
          case Ok(t) => assert (out + emit) + t == out + (emit + t);
        }
    }
  }

  // ---------- nothing is left to rewrite ----------

  /** A backslash in front of this character is an ICU spelling, at this class depth. */
  predicate Rewritten(c: char, depth: nat) {
    || c == 'h' || c == 'H' || c == 'v' || c == 'V' || c == 'R' || c == 'Q' || c == '<' || c == '>'
    || (c == 'Z' && depth == 0)
  }

  /** Read on its own from class depth `depth` on, `t` has no ICU spelling. */
  predicate IcuFree(t: string, depth: nat)
    decreases |t|
  {
    if t == [] then true
    else if t[0] == '\\' then |t| == 1 || (!Rewritten(t[1], depth) && IcuFree(t[2..], depth))
    else if t[0] == '[' then if depth == 0 then IcuFree(t[Opening(t)..], 1) else IcuFree(t[1..], depth + 1)
    else IcuFree(t[1..], if t[0] == ']' && depth > 0 then depth - 1 else depth)
  }

  lemma FreeStep(t: string, depth: nat)
    requires t != [] && IcuFree(t, depth)
    ensures var step := StepAt(t, depth);
            step.Step? && step.emit == t[..step.taken] && IcuFree(t[step.taken..], step.depth)
  {
    hide BLANKS, LINE_BREAKS;
  }

  /** A pattern without ICU spellings is copied as it is. */
  lemma {:induction false} FreeIsCopied(t: string, depth: nat)
    requires IcuFree(t, depth)
    ensures TranslateFrom(t, depth) == Ok(t)
    decreases |t|
  {
    hide StepAt, IcuFree;
    if t != [] {
      FreeStep(t, depth);
      var step := StepAt(t, depth);
      FreeIsCopied(t[step.taken..], step.depth);
      assert t[..step.taken] + t[step.taken..] == t;
    }
  }

  /** Text that reads the same at any depth and leaves the depth as it is. */
  predicate Plain(e: string) {
    if e == [] then true
    else if e[0] == '\\' then |e| >= 2 && !Rewritten(e[1], 0) && Plain(e[2..])
    else e[0] != '[' && e[0] != ']' && Plain(e[1..])
  }

  lemma {:induction false} PlainBehindPlain(a: string, b: string)
    requires Plain(a) && Plain(b)
    ensures Plain(a + b)
    decreases |a|
  {
    if a == [] {
      assert a + b == b;
    } else {
      var n := if a[0] == '\\' then 2 else 1;
      assert (a + b)[n..] == a[n..] + b;
      PlainBehindPlain(a[n..], b);
    }
  }

  lemma {:induction false} FreeBehindPlain(e: string, t: string, depth: nat)
    requires Plain(e)
    ensures IcuFree(e + t, depth) <==> IcuFree(t, depth)
    decreases |e|
  {
    if e == [] {
      assert e + t == t;
    } else {
      var n := if e[0] == '\\' then 2 else 1;
      assert (e + t)[n..] == e[n..] + t;
      FreeBehindPlain(e[n..], t, depth);
    }
  }

  lemma {:induction false} HexIsPlain(n: nat)
    ensures Plain(Hex(n))
  {
    var last := [HexDigit(n % 16)];
    assert last[1..] == [] && last[0] != '\\' && last[0] != '[' && last[0] != ']';
    if n >= 16 {
      HexIsPlain(n / 16);
      PlainBehindPlain(Hex(n / 16), last);
    }
  }

  lemma LiteralIsPlain(c: char)
    ensures Plain(Literal(c))
  {
    if IsWhitespace(c) {
      var open, close := "\\x{", "}";
      assert open[2..] == "{" && "{"[1..] == [] && close[1..] == [];
      HexIsPlain(c as int);
      PlainBehindPlain(open, Hex(c as int));
      PlainBehindPlain(open + Hex(c as int), close);
    } else if IsSyntax(c) {
      assert ['\\', c][2..] == [];
    } else {
      assert [c][1..] == [];
    }
  }

  lemma {:induction false} QuotedIsPlain(s: string)
    ensures Plain(QuotedText(s))
    decreases |s|
  {
    if s != [] && !EndsQuote(s) {
      LiteralIsPlain(s[0]);
      QuotedIsPlain(s[1..]);
      PlainBehindPlain(Literal(s[0]), QuotedText(s[1..]));
    }
  }

  predicate IsWord(word: string) {
    forall k :: 0 <= k < |word| ==> word[k] != '\\' && word[k] != '[' && word[k] != ']'
  }

  lemma {:induction false} PlainWord(word: string)
    requires IsWord(word)
    ensures Plain(word)
    decreases |word|
  {
    if word != [] {
      PlainWord(word[1..]);
    }
  }

  /** An escape, and text without syntax after it. */
  lemma PlainEscape(e: string)
    requires |e| >= 2 && e[0] == '\\' && !Rewritten(e[1], 0) && IsWord(e[2..])
    ensures Plain(e)
  {
    PlainWord(e[2..]);
  }

  lemma BlanksArePlain()
    ensures Plain(BLANKS) && BLANKS[0] == '\\'
  {
    PlainEscape("\\t");
    PlainEscape("\\p{Zs}");
    PlainBehindPlain("\\t", "\\p{Zs}");
  }

  lemma LineBreaksArePlain()
    ensures Plain(LINE_BREAKS) && LINE_BREAKS[0] == '\\'
  {
    hide Plain;
    var a, b := "\\n" + "\\x0B", "\\f";
    PlainEscape("\\n");
    PlainEscape("\\x0B");
    PlainBehindPlain("\\n", "\\x0B");
    PlainEscape("\\f");
    PlainBehindPlain(a, "\\f");
    PlainEscape("\\r");
    PlainBehindPlain(a + "\\f", "\\r");
    PlainEscape("\\x{85}");
    PlainBehindPlain(a + "\\f" + "\\r", "\\x{85}");
    PlainEscape("\\x{2028}");
    PlainBehindPlain(a + "\\f" + "\\r" + "\\x{85}", "\\x{2028}");
    PlainEscape("\\x{2029}");
    PlainBehindPlain(a + "\\f" + "\\r" + "\\x{85}" + "\\x{2028}", "\\x{2029}");
  }

  lemma BreakFramesArePlain()
    ensures Plain(BREAK_OPEN) && Plain(END_OPEN) && Plain(BREAK_CLOSE) && Plain(END_CLOSE)
  {
    hide Plain;
    PlainEscape("\\r");
    PlainEscape("\\n|");
    PlainWord("(?:");
    PlainWord("(?=(?:");
    PlainBehindPlain("(?:", "\\r");
    PlainBehindPlain("(?=(?:", "\\r");
    PlainBehindPlain("(?:" + "\\r", "\\n|");
    PlainBehindPlain("(?=(?:" + "\\r", "\\n|");
    PlainWord(")");
    PlainWord(")?");
    PlainEscape("\\z)");
    PlainBehindPlain(")?", "\\z)");
  }

  /** The members and the end of a free-standing class are passed over. */
  lemma FreeBehindMembers(body: string, t: string, depth: nat)
    requires Plain(body) && IcuFree(t, depth)
    ensures IcuFree(body + ("]" + t), if depth == 0 then 1 else depth + 1)
  {
    assert ("]" + t)[1..] == t;
    FreeBehindPlain(body, "]" + t, if depth == 0 then 1 else depth + 1);
  }

  /** What stands behind the head of a free-standing class. */
  lemma FreeBehindBracket(rest: string, depth: nat)
    requires rest != [] && rest[0] == '\\' && IcuFree(rest, if depth == 0 then 1 else depth + 1)
    ensures IcuFree("[" + rest, depth) && IcuFree("[^" + rest, depth)
  {
    var inner, negated := "[" + rest, "[^" + rest;
    assert inner[1..] == rest && negated[2..] == rest;
    assert depth > 0 ==> negated[1..][1..] == rest && IcuFree(negated[1..], depth + 1);
  }

  /** A free-standing class of plain members is passed over at any depth. */
  lemma FreeBehindClass(body: string, t: string, depth: nat)
    requires Plain(body) && body != [] && body[0] == '\\' && IcuFree(t, depth)
    ensures IcuFree(Member(body, false) + t, depth) && IcuFree(Member("^" + body, false) + t, depth)
  {
    hide Plain, IcuFree;
    var rest := body + ("]" + t);
    FreeBehindMembers(body, t, depth);
    FreeBehindBracket(rest, depth);
    assert Member(body, false) + t == "[" + rest && Member("^" + body, false) + t == "[^" + rest;
  }

  /** The rewriting of an escape leaves nothing to rewrite, as long as the depth is no less. */
  lemma FreeBehindEscape(s: string, d1: nat, t: string, d2: nat)
    requires |s| >= 2 && s[0] == '\\' && EscapeAt(s, d1).Step? && d1 <= d2 && IcuFree(t, d2)
    ensures IcuFree(EscapeAt(s, d1).emit + t, d2)
  {
    var c, emit := s[1], EscapeAt(s, d1).emit;
    hide Plain;
    BreakFramesArePlain();
    LineBreaksArePlain();
    BlanksArePlain();
    if c == 'h' || c == 'H' {
      FreeBehindPlain(BLANKS, t, d2);
      FreeBehindClass(BLANKS, t, d2);
    } else if c == 'v' || c == 'V' {
      FreeBehindPlain(LINE_BREAKS, t, d2);
      FreeBehindClass(LINE_BREAKS, t, d2);
    } else if c == 'R' {
      FreeBehindFrame(BREAK_OPEN, LINE_BREAKS, BREAK_CLOSE, t, d2);
    } else if c == 'Z' && d1 == 0 {
      FreeBehindFrame(END_OPEN, LINE_BREAKS, END_CLOSE, t, d2);
    } else if c == 'Q' {
      QuotedIsPlain(s[2..]);
      FreeBehindPlain(emit, t, d2);
    } else if c == '<' || c == '>' {
      assert ([c] + t)[1..] == t;
    } else {
      assert emit == ['\\', c] && (emit + t)[2..] == t;
    }
  }

  lemma FreeBehindFrame(open: string, body: string, close: string, t: string, depth: nat)
    requires Plain(open) && Plain(body) && Plain(close) && body != [] && body[0] == '\\' && IcuFree(t, depth)
    ensures IcuFree(open + Member(body, false) + close + t, depth)
  {
    hide Plain, IcuFree;
    var inner := Member(body, false);
    FreeBehindPlain(close, t, depth);
    FreeBehindClass(body, close + t, depth);
    FreeBehindPlain(open, inner + (close + t), depth);
    assert open + inner + close + t == open + (inner + (close + t));
  }

  /** What an escape is rewritten to begins with neither `^` nor `]`. */
  lemma EmitsNoRawHead(s: string)
    requires s != [] && s[0] == '\\' && StepAt(s, 1).Step? && StepAt(s, 1).emit != []
    ensures StepAt(s, 1).emit[0] != '^' && StepAt(s, 1).emit[0] != ']'
  {
    if |s| >= 2 && s[1] == 'Q' {
      assert StepAt(s, 1).emit[0] == Literal(s[2..][0])[0];
    }
  }

  /**
   Where the first reading had `\\Q\\E` between a `[` and what follows, the second may take a `^` or a `]`
   there for the head of the class. It stands raw in the pattern, behind quotes without text.
   */
  lemma {:induction false} RawHead(s: string, c: char) returns (rest: string)
    requires TranslateFrom(s, 1).Ok? && TranslateFrom(s, 1).value != [] && TranslateFrom(s, 1).value[0] == c
    requires c == '^' || c == ']'
    ensures |rest| < |s|
    ensures TranslateFrom(rest, if c == ']' then 0 else 1) == Ok(TranslateFrom(s, 1).value[1..])
    decreases |s|
  {
    var step := StepAt(s, 1);
    rest := s[step.taken..];
    var t := TranslateFrom(rest, step.depth).value;
    if step.emit == [] {
      assert [] + t == t;
      rest := RawHead(rest, c);
    } else {
      assert (step.emit + t)[0] == step.emit[0];
      if s[0] == '\\' {
        EmitsNoRawHead(s);
        assert false;
      }
      assert s[0] == c && step.emit == [c];
      assert ([c] + t)[1..] == t;
    }
  }

  /**
   Whatever is translated at depth `d1` has nothing left to rewrite, read at that depth or one more:
   the two readings never come further apart, and never does the second run below the first.
   */
  lemma {:induction false} LeavesNothing(s: string, d1: nat, d2: nat)
    requires TranslateFrom(s, d1).Ok? && d1 <= d2 <= d1 + 1
    ensures IcuFree(TranslateFrom(s, d1).value, d2)
    decreases |s|
  {
    if s != [] {
      var step := StepAt(s, d1);
      var rest := s[step.taken..];
      var t := TranslateFrom(rest, step.depth).value;
      if s[0] == '\\' && |s| >= 2 {
        LeavesNothing(rest, d1, d2);
        FreeBehindEscape(s, d1, t, d2);
      } else if s[0] == '[' && d1 == 0 {
        ClassOpens(s, d2);
      } else {
        assert step.emit == [s[0]] && ([s[0]] + t)[1..] == t;
        var d2' := if s[0] == '[' then d2 + 1 else if s[0] == ']' && d2 > 0 then d2 - 1 else d2;
        LeavesNothing(rest, step.depth, d2');
      }
    }
  }

  /** The head of a class, which the second reading may take to be longer than the first. */
  lemma {:induction false} ClassOpens(s: string, d2: nat)
    requires s != [] && s[0] == '[' && TranslateFrom(s, 0).Ok? && d2 <= 1
    ensures IcuFree(TranslateFrom(s, 0).value, d2)
    decreases |s|, 0
  {
    hide TranslateFrom, IcuFree, Opening;
    var n := Opening(s);
    var head, rest := s[..n], s[n..];
    HeadThenRest(s);
    var t := TranslateFrom(rest, 1).value;
    var text := head + t;
    assert text[n..] == t;
    if d2 == 1 {
      var inside := if head[n - 1] == ']' then 1 else 2;
      LeavesNothing(rest, 1, inside);
      FreeBehindHead(head, t, inside);
    } else {
      HeadNoShorter(s, text);
      if Opening(text) == n {
        LeavesNothing(rest, 1, 1);
      } else {
        LongerHead(rest, text, n);
        assert text[Opening(text)..] == t[Opening(text) - n..];
      }
      FreeFromHead(text);
    }
  }

  /** The head of a class is copied, and what is behind it read inside the class. */
  lemma HeadThenRest(s: string)
    requires s != [] && s[0] == '[' && TranslateFrom(s, 0).Ok?
    ensures var n := Opening(s);
            && TranslateFrom(s[n..], 1).Ok? && TranslateFrom(s, 0).value == s[..n] + TranslateFrom(s[n..], 1).value
            && (n == 2 ==> s[1] == '^' || s[1] == ']') && (n == 3 ==> s[1] == '^' && s[2] == ']')
  {
    assert StepAt(s, 0) == Step(s[..Opening(s)], Opening(s), 1);
  }

  lemma HeadNoShorter(s: string, text: string)
    requires s != [] && s[0] == '[' && s[..Opening(s)] <= text
    ensures text != [] && text[0] == '[' && Opening(text) >= Opening(s)
    ensures Opening(text) > Opening(s) && Opening(s) == 2 ==> text[1] == '^'
  {
    assert forall k :: 0 <= k < Opening(s) ==> text[k] == s[k];
  }

  lemma FreeFromHead(text: string)
    requires text != [] && text[0] == '[' && IcuFree(text[Opening(text)..], 1)
    ensures IcuFree(text, 0)
  {
  }

  /** Inside a class, the head of another is a `[` and a member, or a `]` that ends it again. */
  lemma FreeBehindHead(head: string, t: string, inside: nat)
    requires 1 <= |head| <= 3 && head[0] == '[' && inside == (if head[|head| - 1] == ']' then 1 else 2)
    requires |head| == 2 ==> head[1] == '^' || head[1] == ']'
    requires |head| == 3 ==> head[1] == '^' && head[2] == ']'
    requires IcuFree(t, inside)
    ensures IcuFree(head + t, 1)
  {
    var text := head + t;
    assert text[|head|..] == t && (forall k :: 0 <= k < |head| ==> text[k] == head[k]);
    if |head| == 2 {
      assert text[1..][1..] == text[2..];
    } else if |head| == 3 {
      assert text[2..][1..] == text[3..] && IcuFree(text[2..], 2);
      assert text[1..][1..] == text[2..] && IcuFree(text[1..], 2);
    }
  }

  /** The second reading takes a `^`, a `]` or both from behind the head into it. */
  lemma {:induction false} LongerHead(rest: string, text: string, n: nat)
    requires TranslateFrom(rest, 1).Ok? && 1 <= n <= |text| && text[0] == '['
    requires text[n..] == TranslateFrom(rest, 1).value
    requires n < Opening(text) && (n == 2 ==> text[1] == '^')
    ensures IcuFree(text[n..][Opening(text) - n..], 1)
    decreases |rest|, 1
  {
    var t := text[n..];
    if t[0] == ']' {
      var more := RawHead(rest, ']');
      LeavesNothing(more, 0, 1);
    } else {
      var more := RawHead(rest, '^');
      if Opening(text) == 2 {
        LeavesNothing(more, 1, 1);
      } else {
        assert t[1..][0] == text[2] == ']';
        var last := RawHead(more, ']');
        LeavesNothing(last, 0, 1);
        assert t[2..] == t[1..][1..];
      }
    }
  }

  /** What translates has nothing left to rewrite: translating it again changes nothing. */
  lemma TranslatingTwiceIsOnce(s: string)
    requires TranslateFrom(s, 0).Ok?
    ensures IcuFree(TranslateFrom(s, 0).value, 0)
    ensures TranslateFrom(TranslateFrom(s, 0).value, 0) == TranslateFrom(s, 0)
  {
    LeavesNothing(s, 0, 0);
    FreeIsCopied(TranslateFrom(s, 0).value, 0);
  }

  /** The patterns that come through unchanged are those without an ICU spelling. */
  lemma KeptExactlyWhenFree(s: string)
    ensures TranslateFrom(s, 0) == Ok(s) <==> IcuFree(s, 0)
  {
    if TranslateFrom(s, 0) == Ok(s) {
      LeavesNothing(s, 0, 0);
    }
    if IcuFree(s, 0) {
      FreeIsCopied(s, 0);
    }
  }

  // ---------- quoted text stays literal ----------

  function HexValue(c: char): int {
    if '0' <= c <= '9' then c as int - '0' as int
    else if 'a' <= c <= 'f' then c as int - 'a' as int + 10
    else if 'A' <= c <= 'F' then c as int - 'A' as int + 10
    else -1
  }

  /** The hexadecimal number up to a `}`, and what is behind it. */
  function ReadHex(t: string, sofar: nat): (r: Option<(nat, string)>)
    ensures r.Some? ==> |r.value.1| < |t|
  {
    if t == [] then None
    else if t[0] == '}' then Some((sofar, t[1..]))
    else if HexValue(t[0]) < 0 then None
    else ReadHex(t[1..], 16 * sofar + HexValue(t[0]))
  }

  predicate IsScalar(n: nat) {
    n < 0xD800 || 0xE000 <= n < 0x11_0000
  }

  /** The characters a regular expression reads as more than themselves, as the reader of literals has them. */
  const SPECIAL := "\\.+*?()|[]{}^$#&-~"

  /** The code points with the Unicode property White_Space. */
  const WHITE: set<int> := {
    0x9, 0xA, 0xB, 0xC, 0xD, 0x20, 0x85, 0xA0, 0x1680, 0x2000, 0x2001, 0x2002, 0x2003, 0x2004, 0x2005, 0x2006,
    0x2007, 0x2008, 0x2009, 0x200A, 0x2028, 0x2029, 0x202F, 0x205F, 0x3000}

  lemma SyntaxIsSpecial(c: char)
    ensures IsSyntax(c) <==> c in SPECIAL
  {
    assert SPECIAL == "\\.+*?()|[" + "]{}^$#&-~";
  }

  lemma WhitespaceIsWhite(c: char)
    ensures IsWhitespace(c) <==> c as int in WHITE
  {
  }

  /** `t` read as a regular expression of nothing but literals, white space passing for nothing. */
  function ReadLiterals(t: string): Option<string>
    decreases |t|
  {
    if t == [] then Some([])
    else if t[0] != '\\' then
      if t[0] in SPECIAL || t[0] as int in WHITE then None else Prepend(t[0], ReadLiterals(t[1..]))
    else if |t| < 2 then None
    else if t[1] in SPECIAL then Prepend(t[1], ReadLiterals(t[2..]))
    else if t[1] == 'x' && |t| > 2 && t[2] == '{' then
      match ReadHex(t[3..], 0)
      case None => None
      case Some((n, rest)) => if IsScalar(n) then Prepend(n as char, ReadLiterals(rest)) else None
    else None
  }

  function Prepend(c: char, r: Option<string>): Option<string> {
    match r
    case None => None
    case Some(rest) => Some([c] + rest)
  }

  lemma DigitReadsBack(d: nat, rest: string, sofar: nat)
    requires d < 16
    ensures ReadHex([HexDigit(d)] + rest, sofar) == ReadHex(rest, 16 * sofar + d)
  {
    var c := HexDigit(d);
    assert HexValue(c) == d && c != '}';
    assert ([c] + rest)[1..] == rest;
  }

  lemma {:induction false} HexReadsBack(n: nat, rest: string)
    ensures ReadHex(Hex(n) + rest, 0) == ReadHex(rest, n)
    decreases n
  {
    hide ReadHex, HexDigit;
    DigitReadsBack(n % 16, rest, n / 16);
    if n >= 16 {
      var last := [HexDigit(n % 16)];
      HexReadsBack(n / 16, last + rest);
      assert Hex(n) + rest == Hex(n / 16) + (last + rest);
    }
  }

  lemma SpaceReadsBack(c: char, rest: string)
    requires IsWhitespace(c)
    ensures ReadLiterals("\\x{" + Hex(c as int) + "}" + rest) == Prepend(c, ReadLiterals(rest))
  {
    hide IsWhitespace;
    var digits := Hex(c as int) + ("}" + rest);
    var text := "\\x{" + Hex(c as int) + "}" + rest;
    assert text == "\\x{" + digits && text[3..] == digits && text[0] == '\\' && text[1] == 'x' && text[2] == '{';
    HexReadsBack(c as int, "}" + rest);
    assert ("}" + rest)[1..] == rest;
    assert ReadHex(digits, 0) == Some((c as int, rest));
  }

  /** A quoted character reads back as itself, whatever stands behind it. */
  lemma LiteralReadsBack(c: char, rest: string)
    ensures ReadLiterals(Literal(c) + rest) == Prepend(c, ReadLiterals(rest))
  {
    hide IsSyntax, IsWhitespace, SPECIAL, WHITE;
    SyntaxIsSpecial(c);
    WhitespaceIsWhite(c);
    if IsSyntax(c) {
      assert (['\\', c] + rest)[2..] == rest;
    } else if IsWhitespace(c) {
      SpaceReadsBack(c, rest);
    } else {
      assert ([c] + rest)[1..] == rest;
      BackslashIsSpecial();
    }
  }

  lemma BackslashIsSpecial()
    ensures '\\' in SPECIAL && 'x' !in SPECIAL
  {
  }

  /** Only what has to be written otherwise is: special ones behind a backslash, white space as numbers. */
  lemma LiteralIs(c: char)
    ensures c in SPECIAL ==> Literal(c) == ['\\', c]
    ensures c !in SPECIAL && c as int !in WHITE ==> Literal(c) == [c]
    ensures c as int in WHITE ==>
              |Literal(c)| > 3 && Literal(c)[..3] == "\\x{" && ReadHex(Literal(c)[3..], 0) == Some((c as int, []))
  {
    hide IsSyntax, IsWhitespace, SPECIAL, WHITE, Hex;
    SyntaxIsSpecial(c);
    WhitespaceIsWhite(c);
    NoWhiteIsSpecial(c);
    if c as int in WHITE {
      var text := Literal(c);
      assert text[3..] == Hex(c as int) + "}";
      HexReadsBack(c as int, "}");
      assert "}"[1..] == [];
    }
  }

  lemma NoWhiteIsSpecial(c: char)
    ensures !(c in SPECIAL && c as int in WHITE)
  {
    hide SPECIAL, WHITE;
    SyntaxIsSpecial(c);
    WhitespaceIsWhite(c);
  }

  /** A quoted section without `\\E` in it stands for exactly its text. */
  lemma {:induction false} QuotedReadsBack(q: string)
    requires forall i :: 0 <= i < |q| ==> !EndsQuote(q[i..])
    ensures ReadLiterals(QuotedText(q)) == Some(q)
    decreases |q|
  {
    if q != [] {
      assert q[0..] == q;
      forall i | 0 <= i < |q[1..]| ensures !EndsQuote(q[1..][i..]) {
        assert q[1..][i..] == q[i + 1..];
      }
      QuotedReadsBack(q[1..]);
      LiteralReadsBack(q[0], QuotedText(q[1..]));
      assert [q[0]] + q[1..] == q;
    }
  }

  /** The end of a quoted section is where its first `\\E` is, and it leaves the class depth as it was. */
  lemma {:induction false} QuoteEnds(q: string, rest: string)
    requires forall i :: 0 <= i < |q| ==> !EndsQuote((q + "\\E" + rest)[i..])
    ensures QuotedText(q + "\\E" + rest) == QuotedText(q) && QuotedLength(q + "\\E" + rest) == |q| + 2
    decreases |q|
  {
    var s := q + "\\E" + rest;
    if q != [] {
      assert s[0..] == s && s[1..] == q[1..] + "\\E" + rest;
      forall i | 0 <= i < |q[1..]| ensures !EndsQuote(s[1..][i..]) {
        assert s[1..][i..] == s[i + 1..];
      }
      QuoteEnds(q[1..], rest);
      assert EndsQuote(q) ==> EndsQuote(s);
    }
  }

  /** A section that nothing ends takes all there is. */
  lemma {:induction false} QuoteRunsOut(q: string)
    requires forall i :: 0 <= i < |q| ==> !EndsQuote(q[i..])
    ensures QuotedLength(q) == |q|
    decreases |q|
  {
    if q != [] {
      assert q[0..] == q;
      forall i | 0 <= i < |q[1..]| ensures !EndsQuote(q[1..][i..]) {
        assert q[1..][i..] == q[i + 1..];
      }
      QuoteRunsOut(q[1..]);
    }
  }

  lemma QuotedStep(q: string, tail: string, depth: nat, taken: nat)
    requires QuotedText(q + tail) == QuotedText(q) && QuotedLength(q + tail) == taken
    ensures TranslateFrom("\\Q" + q + tail, depth) == Behind(QuotedText(q), TranslateFrom((q + tail)[taken..], depth))
  {
    hide QuotedText, QuotedLength;
    var s := "\\Q" + q + tail;
    assert s[0] == '\\' && s[1] == 'Q' && s[2..] == q + tail;
    assert StepAt(s, depth) == Step(QuotedText(q), 2 + taken, depth);
    assert s[2 + taken..] == (q + tail)[taken..];
  }

  /** How a quoted section goes on behind its text: with its end and the rest, or not at all. */
  function QuoteTail(closed: bool, rest: string): string {
    if closed then "\\E" + rest else []
  }

  /**
   A quoted section in a pattern, at any depth and whether something ends it or not: the literals of its
   text, and then the rest of the pattern if there is one.
   */
  lemma QuotedSectionIsLiteral(q: string, closed: bool, rest: string, depth: nat)
    requires forall i :: 0 <= i < |q| ==> !EndsQuote((q + QuoteTail(closed, rest))[i..])
    ensures TranslateFrom("\\Q" + q + QuoteTail(closed, rest), depth)
         == Behind(QuotedText(q), TranslateFrom(if closed then rest else [], depth))
    ensures ReadLiterals(QuotedText(q)) == Some(q)
  {
    var tail := QuoteTail(closed, rest);
    forall i | 0 <= i < |q| ensures !EndsQuote(q[i..]) {
      var behind := (q + tail)[i..];
      if |q[i..]| >= 2 {
        assert behind[0] == q[i..][0] && behind[1] == q[i..][1];
      }
    }
    QuotedReadsBack(q);
    if closed {
      assert q + tail == q + "\\E" + rest;
      QuoteEnds(q, rest);
      QuotedStep(q, tail, depth, |q| + 2);
      assert (q + tail)[|q| + 2..] == rest;
    } else {
      assert q + tail == q;
      QuoteRunsOut(q);
      QuotedStep(q, tail, depth, |q|);
      assert q[|q|..] == [];
    }
  }

  // ---------- what the rewritten escapes stand for ----------

  /** The characters of the category Zs. */
  predicate IsSpaceSeparator(c: char) {
    var n := c as int;
    n == 0x20 || n == 0xA0 || n == 0x1680 || 0x2000 <= n <= 0x200A || n == 0x202F || n == 0x205F || n == 0x3000
  }

  /** What ICU calls a horizontal blank: a tab or a space separator. */
  predicate IsBlank(c: char) {
    c == '\t' || IsSpaceSeparator(c)
  }

  /** What ICU calls a line terminator. */
  predicate IsLineBreak(c: char) {
    var n := c as int;
    0xA <= n <= 0xD || n == 0x85 || n == 0x2028 || n == 0x2029
  }

  /** The number an escape in a class names by `\\xHH` or `\\x{…}`, and how long the escape is. */
  function CodeAt(body: string): (r: Option<(nat, nat)>)
    ensures r.Some? ==> 0 < r.value.1 <= |body|
  {
    if |body| < 4 || body[0] != '\\' || body[1] != 'x' then None
    else if body[2] == '{' then
      match ReadHex(body[3..], 0)
      case None => None
      case Some((n, rest)) => Some((n, |body| - |rest|))
    else if HexValue(body[2]) >= 0 && HexValue(body[3]) >= 0 then Some((16 * HexValue(body[2]) + HexValue(body[3]), 4))
    else None
  }

  /** Whether the class with these members, all of them escapes, has the character. */
  predicate ClassHas(body: string, c: char)
    decreases |body|
  {
    if |body| < 2 || body[0] != '\\' then false
    else if body[1] == 'n' then c as int == 0xA || ClassHas(body[2..], c)
    else if body[1] == 't' then c as int == 0x9 || ClassHas(body[2..], c)
    else if body[1] == 'f' then c as int == 0xC || ClassHas(body[2..], c)
    else if body[1] == 'r' then c as int == 0xD || ClassHas(body[2..], c)
    else if "\\p{Zs}" <= body then IsSpaceSeparator(c) || ClassHas(body[6..], c)
    else match CodeAt(body)
      case None => false
      case Some((n, length)) => c as int == n || ClassHas(body[length..], c)
  }

  lemma HasBehindLetter(letter: char, rest: string, c: char)
    requires letter == 'n' || letter == 't' || letter == 'f' || letter == 'r'
    ensures ClassHas(['\\', letter] + rest, c) <==>
            || ClassHas(rest, c)
            || c as int == (if letter == 'n' then 0xA else if letter == 't' then 0x9
                            else if letter == 'f' then 0xC else 0xD)
  {
    assert (['\\', letter] + rest)[2..] == rest;
  }

  lemma HasBehindCode(code: string, rest: string, n: nat, c: char)
    requires |code| >= 4 && code[0] == '\\' && code[1] == 'x' && CodeAt(code + rest) == Some((n, |code|))
    ensures ClassHas(code + rest, c) <==> c as int == n || ClassHas(rest, c)
  {
    assert (code + rest)[|code|..] == rest;
  }

  lemma BlanksHaveBlanks(c: char)
    ensures ClassHas(BLANKS, c) <==> IsBlank(c)
  {
    assert BLANKS == ['\\', 't'] + "\\p{Zs}";
    HasBehindLetter('t', "\\p{Zs}", c);
    assert "\\p{Zs}"[6..] == [] && !ClassHas([], c);
  }

  /** A code in braces is what its digits write. */
  lemma BracedCode(digits: string, n: nat, rest: string)
    requires digits == Hex(n)
    ensures CodeAt("\\x{" + digits + "}" + rest) == Some((n, |digits| + 4))
  {
    var body := "\\x{" + digits + "}" + rest;
    assert body[3..] == digits + ("}" + rest);
    HexReadsBack(n, "}" + rest);
    assert ("}" + rest)[1..] == rest;
  }

  lemma HasBehindBraces(n: nat, rest: string, c: char)
    ensures ClassHas("\\x{" + Hex(n) + "}" + rest, c) <==> c as int == n || ClassHas(rest, c)
  {
    hide ClassHas, CodeAt, Hex;
    var code := "\\x{" + Hex(n) + "}";
    BracedCode(Hex(n), n, rest);
    HasBehindCode(code, rest, n, c);
  }

  /** The three terminators written in braces. */
  lemma BracedBreaks(c: char)
    ensures ClassHas("\\x{85}" + "\\x{2028}" + "\\x{2029}", c) <==>
            c as int == 0x85 || c as int == 0x2028 || c as int == 0x2029
  {
    hide ClassHas;
    FourCodes();
    NothingHas(c);
    HasBehindBraces(0x2029, [], c);
    assert "\\x{" + "2029" + "}" + [] == "\\x{2029}";
    HasBehindBraces(0x2028, "\\x{2029}", c);
    assert "\\x{" + "2028" + "}" + "\\x{2029}" == "\\x{2028}" + "\\x{2029}";
    HasBehindBraces(0x85, "\\x{2028}" + "\\x{2029}", c);
    assert "\\x{" + "85" + "}" + ("\\x{2028}" + "\\x{2029}") == "\\x{85}" + "\\x{2028}" + "\\x{2029}";
  }

  lemma LineBreaksHaveLineBreaks(c: char)
    ensures ClassHas(LINE_BREAKS, c) <==> IsLineBreak(c)
  {
    hide ClassHas, CodeAt;
    var braced := "\\x{85}" + "\\x{2028}" + "\\x{2029}";
    BracedBreaks(c);
    HasBehindLetter('r', braced, c);
    var r := ['\\', 'r'] + braced;
    HasBehindLetter('f', r, c);
    var f := ['\\', 'f'] + r;
    TwoDigits(f);
    HasBehindCode("\\x0B", f, 0xB, c);
    HasBehindLetter('n', "\\x0B" + f, c);
    LineBreaksFromTheBack();
  }

  lemma LineBreaksFromTheBack()
    ensures var braced := "\\x{85}" + "\\x{2028}" + "\\x{2029}";
            LINE_BREAKS == ['\\', 'n'] + ("\\x0B" + (['\\', 'f'] + (['\\', 'r'] + braced)))
  {
  }

  lemma NothingHas(c: char)
    ensures !ClassHas([], c)
  {
  }

  lemma TwoDigits(rest: string)
    ensures CodeAt("\\x0B" + rest) == Some((0xB, 4))
  {
    var body := "\\x0B" + rest;
    assert body[2] == '0' && body[3] == 'B';
  }

  lemma FourCodes()
    ensures Hex(0x85) == "85" && Hex(0x2028) == "2028" && Hex(0x2029) == "2029"
  {
    assert Hex(0x8) == "8" && Hex(0x2) == "2" && Hex(0x20) == "20" && Hex(0x202) == "202";
  }

  /** Whether a class that stands by itself, with escapes for members, matches the character. */
  predicate ClassMatches(t: string, c: char) {
    && |t| >= 3 && t[0] == '[' && t[|t| - 1] == ']'
    && if t[1] == '^' then !ClassHas(t[2..|t| - 1], c) else ClassHas(t[1..|t| - 1], c)
  }

  lemma OwnClassMatches(body: string, c: char)
    requires body != [] && body[0] == '\\'
    ensures ClassMatches(Member(body, false), c) <==> ClassHas(body, c)
    ensures ClassMatches(Member("^" + body, false), c) <==> !ClassHas(body, c)
  {
    hide ClassHas;
    var t, not := Member(body, false), Member("^" + body, false);
    assert t[1..|t| - 1] == body && not[2..|not| - 1] == body;
  }

  /**
   What is written for each of the four escapes matches exactly the characters that ICU's escape does:
   as a free-standing class outside, and as further members inside a class.
   */
  lemma EscapesMeanWhatIcuMeans(s: string, depth: nat, c: char)
    requires |s| >= 2 && s[0] == '\\' && EscapeAt(s, depth).Step?
    ensures var emit := EscapeAt(s, depth).emit;
            && (depth == 0 && s[1] == 'h' ==> (ClassMatches(emit, c) <==> IsBlank(c)))
            && (depth == 0 && s[1] == 'H' ==> (ClassMatches(emit, c) <==> !IsBlank(c)))
            && (depth == 0 && s[1] == 'v' ==> (ClassMatches(emit, c) <==> IsLineBreak(c)))
            && (depth == 0 && s[1] == 'V' ==> (ClassMatches(emit, c) <==> !IsLineBreak(c)))
            && (depth > 0 && s[1] == 'h' ==> (ClassHas(emit, c) <==> IsBlank(c)))
            && (depth > 0 && s[1] == 'v' ==> (ClassHas(emit, c) <==> IsLineBreak(c)))
  {
    hide ClassHas, ClassMatches, IsBlank, IsLineBreak;
    BlanksHaveBlanks(c);
    LineBreaksHaveLineBreaks(c);
    OwnClassMatches(BLANKS, c);
    OwnClassMatches(LINE_BREAKS, c);
  }

  /**
   Outside a class `\\R` becomes a group of two ways, a pair of carriage return and line feed or one line break,
   and `\\Z` looks ahead for the end with or without one of these in front; inside a class `\\Z` stays. The angle
   brackets lose the backslash, and an escape that is none of ICU's stays as it is.
   */
  lemma OtherEscapes(s: string, depth: nat) returns (breaks: string)
    requires |s| >= 2 && s[0] == '\\'
    ensures forall c :: ClassMatches(breaks, c) <==> IsLineBreak(c)
    ensures s[1] == 'R' && depth == 0 ==>
              EscapeAt(s, depth) == Step("(?:" + "\\r\\n" + "|" + breaks + ")", 2, depth)
    ensures s[1] == 'Z' && depth == 0 ==>
              EscapeAt(s, depth) == Step("(?=(?:" + "\\r\\n" + "|" + breaks + ")?" + "\\z" + ")", 2, depth)
    ensures s[1] == 'Z' && depth > 0 ==> EscapeAt(s, depth) == Step("\\Z", 2, depth)
    ensures s[1] == '<' ==> EscapeAt(s, depth) == Step("<", 2, depth)
    ensures s[1] == '>' ==> EscapeAt(s, depth) == Step(">", 2, depth)
    ensures s[1] !in "hHvVRZQ<>" ==> EscapeAt(s, depth) == Step(['\\', s[1]], 2, depth)
  {
    breaks := Member(LINE_BREAKS, false);
    forall c ensures ClassMatches(breaks, c) <==> IsLineBreak(c) {
      hide ClassHas, ClassMatches, IsLineBreak;
      LineBreaksHaveLineBreaks(c);
      OwnClassMatches(LINE_BREAKS, c);
    }
    hide LINE_BREAKS, ClassMatches, IsLineBreak;
    assert BREAK_OPEN == "(?:" + "\\r\\n" + "|" && END_OPEN == "(?=(?:" + "\\r\\n" + "|";
    assert END_CLOSE == ")?" + "\\z" + ")";
  }

  // ---------- what is refused ----------

  /** An escape of a pattern, and how many classes are open around it. */
  datatype Escape = Escape(letter: char, depth: nat)

  /** The escapes of a pattern, in order; quoted text has none. */
  function Escapes(s: string, depth: nat): seq<Escape>
    decreases |s|
  {
    if s == [] || s == "\\" then []
    else if s[0] == '\\' then
      [Escape(s[1], depth)] + Escapes(s[2 + (if s[1] == 'Q' then QuotedLength(s[2..]) else 0)..], depth)
    else if s[0] == '[' && depth == 0 then Escapes(s[Opening(s)..], 1)
    else Escapes(s[1..], if s[0] == '[' then depth + 1 else if s[0] == ']' && depth > 0 then depth - 1 else depth)
  }

  predicate NoPlaceInClass(e: Escape) {
    e.depth > 0 && (e.letter == 'H' || e.letter == 'V' || e.letter == 'R')
  }

  /** A pattern is refused exactly for an escape inside a class that has no place there, and for the first one. */
  lemma {:induction false} RefusedExactlyInClasses(s: string, depth: nat)
    ensures TranslateFrom(s, depth).Err? <==> exists e <- Escapes(s, depth) :: NoPlaceInClass(e)
    ensures TranslateFrom(s, depth).Err? ==>
              exists k :: 0 <= k < |Escapes(s, depth)| && NoPlaceInClass(Escapes(s, depth)[k])
                          && (forall e <- Escapes(s, depth)[..k] :: !NoPlaceInClass(e))
                          && TranslateFrom(s, depth).error == RefusedInClass(Escapes(s, depth)[k].letter)
    decreases |s|
  {
    hide RefusedInClass, QuotedText, QuotedLength;
    if s != [] {
      var es, step := Escapes(s, depth), StepAt(s, depth);
      if step.Refused? {
        assert es[0] == Escape(s[1], depth) && es[..0] == [];
        assert es[0] in es && NoPlaceInClass(es[0]);
      } else {
        var rest := s[step.taken..];
        var more := Escapes(rest, step.depth);
        RefusedExactlyInClasses(rest, step.depth);
        if s[0] == '\\' && |s| >= 2 {
          assert es == [es[0]] + more && !NoPlaceInClass(es[0]);
          OneInFront(es[0], more);
          if k :| 0 <= k < |more| && NoPlaceInClass(more[k]) && (forall e <- more[..k] :: !NoPlaceInClass(e))
                  && TranslateFrom(rest, step.depth).error == RefusedInClass(more[k].letter) {
            assert es[k + 1] == more[k] && es[..k + 1] == [es[0]] + more[..k];
          }
        } else {
          assert es == more;
        }
      }
    }
  }

  lemma OneInFront(e: Escape, more: seq<Escape>)
    requires !NoPlaceInClass(e)
    ensures (exists x <- [e] + more :: NoPlaceInClass(x)) <==> exists x <- more :: NoPlaceInClass(x)
  {
    if x :| x in more && NoPlaceInClass(x) {
      assert x in [e] + more;
    }
  }
}
