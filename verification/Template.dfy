/**
 Replacement templates: one is read into pieces once and expanded for each match, and a body is
 rewritten by putting the expansions where the matches are.
 */
module Template {
  import opened Wrappers

  /** A piece expands the same way for every match but for the group it may name. */
  datatype Piece = Text(text: string) | Group(number: string)

  predicate IsDigit(c: char) {
    '0' <= c <= '9'
  }

  predicate AllDigits(s: string) {
    forall k :: 0 <= k < |s| ==> IsDigit(s[k])
  }

  /** How many digits stand at the head of `s`. */
  function DigitRun(s: string): (n: nat)
    ensures n <= |s| && AllDigits(s[..n]) && (n < |s| ==> !IsDigit(s[n]))
  {
    if s == [] || !IsDigit(s[0]) then 0
    else
      var n := DigitRun(s[1..]);
      assert s[..n + 1] == [s[0]] + s[1..][..n];
      1 + n
  }

  // ---------- numbers ----------

  const USIZE_END: nat := 0x1_0000_0000_0000_0000

  /** The number that digits write. */
  function Value(digits: string): nat
    requires AllDigits(digits)
  {
    if digits == [] then 0
    else 10 * Value(digits[..|digits| - 1]) + (digits[|digits| - 1] as int - '0' as int)
  }

  /** How many digits a number is written with. */
  function DecimalLength(n: nat): (d: nat)
    ensures d >= 1
  {
    if n < 10 then 1 else 1 + DecimalLength(n / 10)
  }

  /** The group that digits name: 0 when they write no number of 64 bits. */
  function IndexOf(digits: string): nat {
    if digits == [] || !AllDigits(digits) || Value(digits) >= USIZE_END then 0 else Value(digits)
  }

  type Groups = nat -> Option<string>

  /** What stands for a group: its text when there is such a group and it took part in the match. */
  function GroupText(index: nat, group: Groups, count: nat): string {
    if index <= count && group(index).Some? then group(index).value else []
  }

  // ---------- one pass over a template ----------

  /**
   A reading without pieces, which knows the groups from the start: a `$` looks no further than their count
   has digits, and a backslash hides what comes behind it.
   */
  function OnePass(s: string, group: Groups, count: nat): string
    decreases |s|
  {
    if s == [] then []
    else if s[0] == '\\' then
      if |s| == 1 then [] else [s[1]] + OnePass(s[2..], group, count)
    else if s[0] == '$' && |s| > 1 && IsDigit(s[1]) then
      var take := Min(DecimalLength(count), DigitRun(s[1..]));
      GroupText(IndexOf(s[1..][..take]), group, count) + OnePass(s[1 + take..], group, count)
    else [s[0]] + OnePass(s[1..], group, count)
  }

  function Min(a: nat, b: nat): nat {
    if a <= b then a else b
  }

  // ---------- reading and expanding ----------

  /** The pieces of the rest of a template, `run` being the text gathered before it. */
  function PiecesFrom(s: string, run: string): seq<Piece>
    decreases |s|
  {
    if s == [] then TextPiece(run)
    else if s[0] == '\\' then
      if |s| == 1 then TextPiece(run) else PiecesFrom(s[2..], run + [s[1]])
    else if s[0] == '$' then
      var n := DigitRun(s[1..]);
      if n == 0 then PiecesFrom(s[1..], run + ['$'])
      else TextPiece(run) + [Group(s[1..][..n])] + PiecesFrom(s[1 + n..], [])
    else PiecesFrom(s[1..], run + [s[0]])
  }

  function TextPiece(run: string): seq<Piece> {
    if run == [] then [] else [Text(run)]
  }

  function ExpandPiece(piece: Piece, group: Groups, count: nat): string {
    match piece
    case Text(text) => text
    case Group(number) =>
      var take := Min(DecimalLength(count), |number|);
      GroupText(IndexOf(number[..take]), group, count) + number[take..]
  }

  function ExpandPieces(pieces: seq<Piece>, group: Groups, count: nat): string {
    if pieces == [] then []
    else ExpandPiece(pieces[0], group, count) + ExpandPieces(pieces[1..], group, count)
  }

  method SkipDigits(text: string, start: nat) returns (j: nat)
    requires start <= |text|
    ensures j == start + DigitRun(text[start..])
  {
    j := start;
    while j < |text| && IsDigit(text[j])
      invariant start <= j <= |text| && DigitRun(text[start..]) == j - start + DigitRun(text[j..])
    {
      assert text[j..][1..] == text[j + 1..];
      j := j + 1;
    }
  }

  /** What the head of the rest adds to the pieces and to the run of text. */
  lemma PiecesStep(s: string, run: string)
    requires s != []
    ensures s[0] == '\\' && |s| == 1 ==> PiecesFrom(s, run) == PiecesFrom([], run)
    ensures s[0] == '\\' && |s| > 1 ==> PiecesFrom(s, run) == PiecesFrom(s[2..], run + [s[1]])
    ensures s[0] == '$' && DigitRun(s[1..]) == 0 ==> PiecesFrom(s, run) == PiecesFrom(s[1..], run + ['$'])
    ensures s[0] != '\\' && s[0] != '$' ==> PiecesFrom(s, run) == PiecesFrom(s[1..], run + [s[0]])
  {
  }

  lemma PiecesGroup(s: string, run: string)
    requires s != [] && s[0] == '$' && DigitRun(s[1..]) > 0
    ensures var n := DigitRun(s[1..]);
            PiecesFrom(s, run) == TextPiece(run) + [Group(s[1..][..n])] + PiecesFrom(s[1 + n..], [])
  {
  }

  method Parse(text: string) returns (pieces: seq<Piece>)
    ensures pieces == PiecesFrom(text, [])
    ensures forall group, count :: ExpandPieces(pieces, group, count) == OnePass(text, group, count)
  {
    hide PiecesFrom, DigitRun, OnePass, ExpandPieces;
    pieces := [];
    var run: string := [];
    var i := 0;
    assert text[0..] == text;
    while i < |text|
      invariant 0 <= i <= |text|
      invariant PiecesFrom(text, []) == pieces + PiecesFrom(text[i..], run)
    {
      ghost var rest := text[i..];
      PiecesStep(rest, run);
      assert rest[1..] == text[i + 1..];
      if text[i] == '\\' {
        if i + 1 < |text| {
          assert rest[2..] == text[i + 2..];
          run := run + [text[i + 1]];
          i := i + 2;
        } else {
          i := i + 1;
        }
      } else if text[i] == '$' {
        var j := SkipDigits(text, i + 1);
        if j == i + 1 {
          run := run + ['$'];
          i := i + 1;
        } else {
          PiecesGroup(rest, run);
          assert rest[j - i..] == text[j..] && rest[1..][..j - (i + 1)] == text[i + 1..j];
          if run != [] {
            pieces := pieces + [Text(run)];
            run := [];
          }
          pieces := pieces + [Group(text[i + 1..j])];
          i := j;
        }
      } else {
        run := run + [text[i]];
        i := i + 1;
      }
    }
    PiecesAtEnd(text[i..], run);
    if run != [] {
      pieces := pieces + [Text(run)];
    }
    assert pieces == PiecesFrom(text, []);
    AllPiecesExpand(text);
  }

  lemma AllPiecesExpand(text: string)
    ensures forall group, count :: ExpandPieces(PiecesFrom(text, []), group, count) == OnePass(text, group, count)
  {
    hide PiecesFrom, OnePass, ExpandPieces;
    forall group, count ensures ExpandPieces(PiecesFrom(text, []), group, count) == OnePass(text, group, count) {
      assert [] + OnePass(text, group, count) == OnePass(text, group, count);
      PiecesExpandToOnePass(text, [], group, count);
    }
  }

  lemma PiecesAtEnd(s: string, run: string)
    requires s == []
    ensures PiecesFrom(s, run) == TextPiece(run)
  {
  }

  method Expand(pieces: seq<Piece>, group: Groups, count: nat, before: string) returns (out: string)
    ensures out == before + ExpandPieces(pieces, group, count)
  {
    hide ExpandPiece, ExpandPieces;
    out := before;
    var digits := DecimalLength(count);
    NothingExpands(group, count);
    for k := 0 to |pieces|
      invariant out == before + ExpandPieces(pieces[..k], group, count)
    {
      out := ExpandOne(pieces[k], digits, group, count, out);
      ExpandOneMore(pieces, k, group, count);
    }
    assert pieces[..|pieces|] == pieces;
  }

  lemma NothingExpands(group: Groups, count: nat)
    ensures ExpandPieces([], group, count) == []
  {
  }

  method ExpandOne(piece: Piece, digits: nat, group: Groups, count: nat, before: string) returns (out: string)
    requires digits == DecimalLength(count)
    ensures out == before + ExpandPiece(piece, group, count)
  {
    hide IndexOf, DecimalLength;
    out := before;
    match piece {
      case Text(text) => out := out + text;
      case Group(number) =>
        var take := Min(digits, |number|);
        var index := IndexOf(number[..take]);
        if index <= count && group(index).Some? {
          out := out + group(index).value;
        }
        out := out + number[take..];
    }
  }

  lemma ExpandOneMore(pieces: seq<Piece>, k: nat, group: Groups, count: nat)
    requires k < |pieces|
    ensures ExpandPieces(pieces[..k + 1], group, count) ==
            ExpandPieces(pieces[..k], group, count) + ExpandPiece(pieces[k], group, count)
  {
    hide ExpandPiece;
    ExpandConcat(pieces[..k], [pieces[k]], group, count);
    assert pieces[..k + 1] == pieces[..k] + [pieces[k]] && [pieces[k]][1..] == [];
  }

  /** Digits that `$` leaves over are text. */
  lemma {:induction false} DigitsAreText(digits: string, rest: string, group: Groups, count: nat)
    requires AllDigits(digits)
    ensures OnePass(digits + rest, group, count) == digits + OnePass(rest, group, count)
    decreases |digits|
  {
    if digits == [] {
      assert digits + rest == rest;
    } else {
      assert (digits + rest)[1..] == digits[1..] + rest;
      DigitsAreText(digits[1..], rest, group, count);
    }
  }

  lemma {:induction false} ExpandConcat(a: seq<Piece>, b: seq<Piece>, group: Groups, count: nat)
    ensures ExpandPieces(a + b, group, count) == ExpandPieces(a, group, count) + ExpandPieces(b, group, count)
    decreases |a|
  {
    if a == [] {
      assert a + b == b;
    } else {
      assert (a + b)[1..] == a[1..] + b;
      ExpandConcat(a[1..], b, group, count);
    }
  }

  lemma TextExpands(run: string, group: Groups, count: nat)
    ensures ExpandPieces(TextPiece(run), group, count) == run
  {
    assert [Text(run)][1..] == [];
  }

  /** A `$` with digits, expanded as a piece, and what is behind the digits. */
  lemma GroupExpands(s: string, group: Groups, count: nat)
    requires s != [] && s[0] == '$' && DigitRun(s[1..]) > 0
    ensures var n := DigitRun(s[1..]);
            ExpandPiece(Group(s[1..][..n]), group, count) + OnePass(s[1 + n..], group, count)
            == OnePass(s, group, count)
  {
    hide IndexOf, DecimalLength, GroupText, OnePass, AllDigits, DigitRun;
    var n := DigitRun(s[1..]);
    var number, rest := s[1..][..n], s[1 + n..];
    var take := Min(DecimalLength(count), n);
    PassGroup(s, group, count);
    CutDigits(s, n, take);
    LastDigits(number, take);
    DigitsAreText(number[take..], rest, group, count);
    var text := GroupText(IndexOf(number[..take]), group, count);
    var behind := OnePass(rest, group, count);
    assert text + (number[take..] + behind) == (text + number[take..]) + behind;
  }

  /** The digits behind a `$`, cut after the first `take` of them. */
  lemma CutDigits(s: string, n: nat, take: nat)
    requires take <= n < |s|
    ensures s[1..][..n][..take] == s[1..][..take] && s[1 + take..] == s[1..][..n][take..] + s[1 + n..]
  {
  }

  lemma LastDigits(digits: string, from: nat)
    requires AllDigits(digits) && from <= |digits|
    ensures AllDigits(digits[from..])
  {
  }

  /** A `$` with digits, in the single pass. */
  lemma PassGroup(s: string, group: Groups, count: nat)
    requires s != [] && s[0] == '$' && DigitRun(s[1..]) > 0
    ensures var take := Min(DecimalLength(count), DigitRun(s[1..]));
            OnePass(s, group, count)
            == GroupText(IndexOf(s[1..][..take]), group, count) + OnePass(s[1 + take..], group, count)
  {
    hide IndexOf, DecimalLength, GroupText;
    assert s[1] == s[1..][0] && IsDigit(s[1]);
  }

  /** Reading first and expanding later comes to the same as one pass. */
  lemma {:induction false} PiecesExpandToOnePass(s: string, run: string, group: Groups, count: nat)
    ensures ExpandPieces(PiecesFrom(s, run), group, count) == run + OnePass(s, group, count)
    decreases |s|
  {
    hide ExpandPiece, ExpandPieces, PiecesFrom, OnePass;
    TextExpands(run, group, count);
    if s == [] {
      PiecesAtEnd(s, run);
      NothingLeft(s, group, count);
    } else {
      PiecesStep(s, run);
      PassStep(s, group, count);
      if s[0] == '\\' {
        if |s| == 1 {
          PiecesAtEnd([], run);
        } else {
          PiecesExpandToOnePass(s[2..], run + [s[1]], group, count);
        }
      } else if s[0] == '$' && DigitRun(s[1..]) > 0 {
        var n := DigitRun(s[1..]);
        PiecesGroup(s, run);
        PiecesExpandToOnePass(s[1 + n..], [], group, count);
        ThreeExpand(TextPiece(run), Group(s[1..][..n]), PiecesFrom(s[1 + n..], []), group, count);
        GroupExpands(s, group, count);
      } else {
        PiecesExpandToOnePass(s[1..], run + [s[0]], group, count);
      }
    }
  }

  lemma NothingLeft(s: string, group: Groups, count: nat)
    requires s == []
    ensures OnePass(s, group, count) == []
  {
  }

  lemma ThreeExpand(a: seq<Piece>, piece: Piece, b: seq<Piece>, group: Groups, count: nat)
    ensures ExpandPieces(a + [piece] + b, group, count) ==
            ExpandPieces(a, group, count) + ExpandPiece(piece, group, count) + ExpandPieces(b, group, count)
  {
    hide ExpandPiece;
    ExpandConcat(a + [piece], b, group, count);
    ExpandConcat(a, [piece], group, count);
    assert [piece][1..] == [];
  }

  /** One character of text, or an escaped one, in the single pass. */
  lemma PassStep(s: string, group: Groups, count: nat)
    requires s != []
    ensures s[0] == '\\' ==> OnePass(s, group, count) == if |s| == 1 then [] else [s[1]] + OnePass(s[2..], group, count)
    ensures s[0] != '\\' && (s[0] == '$' ==> DigitRun(s[1..]) == 0) ==>
              OnePass(s, group, count) == [s[0]] + OnePass(s[1..], group, count)
  {
  }

  /** The four things a template is read as, and nothing else. */
  lemma ReadsLikeThis(c: char, rest: string, group: Groups, count: nat)
    ensures OnePass([], group, count) == [] && OnePass("\\", group, count) == []
    ensures OnePass(['\\', c] + rest, group, count) == [c] + OnePass(rest, group, count)
    ensures rest == [] || !IsDigit(rest[0]) ==> OnePass("$" + rest, group, count) == "$" + OnePass(rest, group, count)
    ensures c != '\\' && c != '$' ==> OnePass([c] + rest, group, count) == [c] + OnePass(rest, group, count)
  {
    hide DecimalLength, GroupText, IndexOf;
    assert (['\\', c] + rest)[2..] == rest && ("$" + rest)[1..] == rest && ([c] + rest)[1..] == rest;
  }

  // ---------- rewriting a body ----------

  /** What an engine found: where each group stands, the whole match first; or that it gave up. */
  datatype Found = Match(spans: seq<Option<(nat, nat)>>) | GaveUp

  predicate InText(span: (nat, nat), text: string) {
    span.0 <= span.1 <= |text|
  }

  /** A match of a pattern with `count` groups has a span for the whole and one for each that took part. */
  predicate WellFormed(found: Found, text: string, count: nat) {
    found.Match? ==>
      && |found.spans| == count + 1 && found.spans[0].Some?
      && forall k :: 0 <= k <= count && found.spans[k].Some? ==> InText(found.spans[k].value, text)
  }

  /** The matches come from left to right, from `end` on, and none begins before the last one ends. */
  predicate Ordered(found: seq<Found>, text: string, end: nat, count: nat) {
    && end <= |text|
    && (found != [] ==>
          && WellFormed(found[0], text, count)
          && (found[0].Match? ==>
                && end <= found[0].spans[0].value.0
                && Ordered(found[1..], text, found[0].spans[0].value.1, count)))
  }

  /** The texts of the groups of a match. */
  function GroupsOf(found: Found, text: string): Groups
    requires found.Match?
  {
    (k: nat) =>
      if k < |found.spans| && found.spans[k].Some? && InText(found.spans[k].value, text)
      then Some(text[found.spans[k].value.0..found.spans[k].value.1]) else None
  }

  /** The text from `end` on with the template in the place of each match; nothing when the engine gave up. */
  function Replaced(template: string, text: string, found: seq<Found>, end: nat, count: nat): Option<string>
    requires Ordered(found, text, end, count)
    decreases |found|
  {
    if found == [] then Some(text[end..])
    else if found[0].GaveUp? then None
    else
      var whole := found[0].spans[0].value;
      var expansion := OnePass(template, GroupsOf(found[0], text), count);
      match Replaced(template, text, found[1..], whole.1, count)
      case None => None
      case Some(rest) => Some(text[end..whole.0] + expansion + rest)
  }

  function Behind(before: string, r: Option<string>): Option<string> {
    match r
    case None => None
    case Some(rest) => Some(before + rest)
  }

  method ReplaceAll(template: string, pieces: seq<Piece>, text: string, found: seq<Found>, count: nat)
    returns (r: Option<string>)
    requires pieces == PiecesFrom(template, [])
    requires Ordered(found, text, 0, count)
    ensures r == Replaced(template, text, found, 0, count)
    ensures r.None? <==> GaveUp in found
  {
    hide OnePass, PiecesFrom, ExpandPieces, Replaced;
    GivesUp(template, text, found, 0, count);
    var out: string := [];
    var end: nat := 0;
    assert found[0..] == found;
    NothingBefore(Replaced(template, text, found, 0, count));
    for k := 0 to |found|
      invariant Ordered(found[k..], text, end, count)
      invariant Replaced(template, text, found, 0, count)
             == Behind(out, Replaced(template, text, found[k..], end, count))
    {
      var captures := found[k];
      assert found[k..][0] == captures && found[k..][1..] == found[k + 1..];
      ReplaceStep(template, text, found[k..], end, count, out);
      if captures.GaveUp? {
        return None;
      }
      var whole := captures.spans[0].value;
      out := out + text[end..whole.0];
      var group := GroupsOf(captures, text);
      out := Expand(pieces, group, count, out);
      PiecesExpandToOnePass(template, [], group, count);
      assert [] + OnePass(template, group, count) == OnePass(template, group, count);
      end := whole.1;
    }
    ReplaceEnd(template, text, found[|found|..], end, count);
    out := out + text[end..];
    r := Some(out);
  }

  lemma NothingBefore(r: Option<string>)
    ensures Behind([], r) == r
  {
    assert r.Some? ==> [] + r.value == r.value;
  }

  lemma ReplaceEnd(template: string, text: string, found: seq<Found>, end: nat, count: nat)
    requires found == [] && end <= |text|
    ensures Replaced(template, text, found, end, count) == Some(text[end..])
  {
  }

  /** One match more: what stands before it, and the expansion. */
  lemma ReplaceStep(template: string, text: string, found: seq<Found>, end: nat, count: nat, out: string)
    requires found != [] && Ordered(found, text, end, count)
    ensures found[0].GaveUp? ==> Replaced(template, text, found, end, count).None?
    ensures found[0].Match? ==>
              var whole := found[0].spans[0].value;
              Behind(out, Replaced(template, text, found, end, count)) ==
              Behind(out + text[end..whole.0] + OnePass(template, GroupsOf(found[0], text), count),
                     Replaced(template, text, found[1..], whole.1, count))
  {
    hide OnePass;
    if found[0].Match? {
      var whole := found[0].spans[0].value;
      var expansion := OnePass(template, GroupsOf(found[0], text), count);
      match Replaced(template, text, found[1..], whole.1, count) {
        case None =>
        case Some(rest) =>
          var between := text[end..whole.0];
          assert out + (between + expansion + rest) == out + between + expansion + rest;
      }
    }
  }

  lemma {:induction false} GivesUp(template: string, text: string, found: seq<Found>, end: nat, count: nat)
    requires Ordered(found, text, end, count)
    ensures Replaced(template, text, found, end, count).None? <==> GaveUp in found
    decreases |found|
  {
    if found != [] && found[0].Match? {
      GivesUp(template, text, found[1..], found[0].spans[0].value.1, count);
    }
  }

  /** `$0` stands for the whole match. */
  lemma DollarZeroIsTheMatch(group: Groups, count: nat)
    requires group(0).Some?
    ensures OnePass("$0", group, count) == group(0).value
  {
    var s := "$0";
    assert s[1..] == "0" && "0"[1..] == [] && DigitRun("0") == 1;
    assert Min(DecimalLength(count), 1) == 1 && "0"[..1] == "0" && "0"[..0] == [];
    assert Value("0") == 0;
    assert s[2..] == [];
  }

  /** Putting each match in its own place leaves the text as it was, whatever the matches are. */
  lemma {:induction false} DollarZeroKeepsTheText(text: string, found: seq<Found>, end: nat, count: nat)
    requires Ordered(found, text, end, count) && GaveUp !in found
    ensures Replaced("$0", text, found, end, count) == Some(text[end..])
    decreases |found|
  {
    hide OnePass;
    if found != [] {
      var whole := found[0].spans[0].value;
      DollarZeroIsTheMatch(GroupsOf(found[0], text), count);
      DollarZeroKeepsTheText(text, found[1..], whole.1, count);
      assert text[end..whole.0] + text[whole.0..whole.1] + text[whole.1..] == text[end..];
    }
  }

  // ---------- writing a text as a template ----------

  /** `text` with a backslash in front of what a template would not read as text. */
  function Escaped(text: string): string {
    if text == [] then []
    else (if text[0] == '\\' || text[0] == '$' then ['\\', text[0]] else [text[0]]) + Escaped(text[1..])
  }

  /** An escaped text stands for itself, whatever the groups are. */
  lemma {:induction false} EscapedStandsForItself(text: string, group: Groups, count: nat)
    ensures OnePass(Escaped(text), group, count) == text
    decreases |text|
  {
    if text != [] {
      EscapedStandsForItself(text[1..], group, count);
      var s := Escaped(text);
      if text[0] == '\\' || text[0] == '$' {
        assert s[2..] == Escaped(text[1..]);
      } else {
        assert s[1..] == Escaped(text[1..]);
      }
      assert [text[0]] + text[1..] == text;
    }
  }

  // ---------- the digits a group is named by ----------

  function Pow10(n: nat): (p: nat)
    ensures p >= 1
  {
    if n == 0 then 1 else 10 * Pow10(n - 1)
  }

  lemma {:induction false} ValueIsSmall(digits: string)
    requires AllDigits(digits)
    ensures Value(digits) < Pow10(|digits|)
    decreases |digits|
  {
    if digits != [] {
      ValueIsSmall(digits[..|digits| - 1]);
    }
  }

  lemma {:induction false} LengthIsTight(n: nat)
    ensures n < Pow10(DecimalLength(n)) && (n > 0 ==> Pow10(DecimalLength(n) - 1) <= n)
    decreases n
  {
    if n >= 10 {
      LengthIsTight(n / 10);
    }
  }

  lemma {:induction false} Pow10Grows(a: nat, b: nat)
    requires a <= b
    ensures Pow10(a) <= Pow10(b)
    decreases b
  {
    if a < b {
      Pow10Grows(a, b - 1);
    }
  }

  /** Nineteen digits are never too large a number for 64 bits, and twenty can be. */
  lemma SixtyFourBitsHoldNineteenDigits()
    ensures Pow10(19) <= USIZE_END < Pow10(20)
  {
    assert Pow10(4) == 10_000;
    assert Pow10(8) == 100_000_000;
    assert Pow10(12) == 1_000_000_000_000;
    assert Pow10(16) == 10_000_000_000_000_000;
    assert Pow10(18) == 1_000_000_000_000_000_000;
  }

  function Nines(n: nat): (s: string)
    ensures |s| == n && AllDigits(s)
  {
    if n == 0 then [] else Nines(n - 1) + ['9']
  }

  lemma {:induction false} NinesAreLarge(n: nat)
    ensures Value(Nines(n)) == Pow10(n) - 1
  {
    if n > 0 {
      assert Nines(n)[..n - 1] == Nines(n - 1);
      NinesAreLarge(n - 1);
    }
  }

  /**
   Every reading of the digits that can be taken is their number exactly below 10^19 groups. From there on
   twenty digits are taken, and as many nines, which name no group, are read as 0.
   */
  lemma IndexIsTheNumber(count: nat)
    ensures count < Pow10(19) <==>
            forall digits :: digits != [] && AllDigits(digits) && |digits| <= DecimalLength(count) ==>
                               IndexOf(digits) == Value(digits)
    ensures count < USIZE_END ==>
              forall digits :: digits != [] && AllDigits(digits) && IndexOf(digits) != Value(digits) ==>
                                 Value(digits) > count
  {
    hide Value, Pow10;
    LengthIsTight(count);
    SixtyFourBitsHoldNineteenDigits();
    if count < Pow10(19) {
      if DecimalLength(count) > 19 {
        Pow10Grows(19, DecimalLength(count) - 1);
        assert false;
      }
      forall digits | digits != [] && AllDigits(digits) && |digits| <= DecimalLength(count)
        ensures IndexOf(digits) == Value(digits)
      {
        ValueIsSmall(digits);
        Pow10Grows(|digits|, 19);
      }
    } else {
      if DecimalLength(count) <= 19 {
        Pow10Grows(DecimalLength(count), 19);
        assert false;
      }
      NinesAreLarge(20);
      assert IndexOf(Nines(20)) != Value(Nines(20));
    }
  }
  /**
   For every number of groups that 64 bits can hold, digits that write the number of a group stand for that
   group. Digits that write a larger number stand for nothing, as long as they are read as their number
   (`IndexIsTheNumber`).
   */
  lemma ExistingGroupsAreRead(digits: string, group: Groups, count: nat)
    requires digits != [] && AllDigits(digits) && count < USIZE_END
    ensures Value(digits) <= count ==>
              IndexOf(digits) == Value(digits)
              && GroupText(IndexOf(digits), group, count)
                 == if group(Value(digits)).Some? then group(Value(digits)).value else []
    ensures Value(digits) > count && |digits| <= DecimalLength(count) && count < Pow10(19) ==>
              GroupText(IndexOf(digits), group, count) == []
  {
    hide Value, Pow10, DecimalLength;
    if |digits| <= DecimalLength(count) && count < Pow10(19) {
      IndexIsTheNumber(count);
    }
  }

  function Decimal(n: nat): (s: string)
    ensures |s| == DecimalLength(n) && AllDigits(s)
  {
    var last := [('0' as int + n % 10) as char];
    if n < 10 then last else Decimal(n / 10) + last
  }

  lemma {:induction false} DecimalIsTheNumber(n: nat)
    ensures Value(Decimal(n)) == n
    decreases n
  {
    var s := Decimal(n);
    if n >= 10 {
      assert s[..|s| - 1] == Decimal(n / 10);
      DecimalIsTheNumber(n / 10);
    } else {
      assert s[..0] == [] && Value([]) == 0;
    }
  }

  lemma {:induction false} LongerIsLarger(a: nat, b: nat)
    requires a <= b
    ensures DecimalLength(a) <= DecimalLength(b)
    decreases b
  {
    if a >= 10 {
      LongerIsLarger(a / 10, b / 10);
    }
  }

  lemma {:induction false} RunOfDigits(digits: string, rest: string)
    requires AllDigits(digits) && (rest != [] ==> !IsDigit(rest[0]))
    ensures DigitRun(digits + rest) == |digits|
    decreases |digits|
  {
    if digits == [] {
      assert digits + rest == rest;
    } else {
      assert (digits + rest)[1..] == digits[1..] + rest;
      RunOfDigits(digits[1..], rest);
    }
  }

  /** Every group can be named: `$` and the number of a group, up to what is no digit, stand for its text. */
  lemma EveryGroupCanBeNamed(k: nat, rest: string, group: Groups, count: nat)
    requires k <= count < USIZE_END && (rest != [] ==> !IsDigit(rest[0]))
    ensures OnePass("$" + Decimal(k) + rest, group, count)
         == (if group(k).Some? then group(k).value else []) + OnePass(rest, group, count)
  {
    hide Value, DigitRun, IndexOf;
    var digits := Decimal(k);
    var s := "$" + digits + rest;
    assert s[1..] == digits + rest && s[1] == digits[0] && IsDigit(s[1]);
    RunOfDigits(digits, rest);
    LongerIsLarger(k, count);
    assert s[1..][..|digits|] == digits && s[1 + |digits|..] == rest;
    DecimalIsTheNumber(k);
    ExistingGroupsAreRead(digits, group, count);
  }
  /**
   Of more digits than the number of groups has, those in front name the group, and the others are text: with
   two groups, `$12` is the first one and a `2`.
   */
  lemma MoreDigitsAreText(digits: string, more: string, rest: string, group: Groups, count: nat)
    requires count < USIZE_END && |digits| == DecimalLength(count) && AllDigits(digits) && AllDigits(more)
    requires rest != [] ==> !IsDigit(rest[0])
    ensures Value(digits) <= count ==>
              var text := if group(Value(digits)).Some? then group(Value(digits)).value else [];
              OnePass("$" + digits + more + rest, group, count) == text + more + OnePass(rest, group, count)
    ensures Value(digits) > count && count < Pow10(19) ==>
              OnePass("$" + digits + more + rest, group, count) == more + OnePass(rest, group, count)
  {
    hide OnePass, Value, IndexOf, DecimalLength, Pow10, GroupText;
    TakesTheFirst(digits, more, rest, group, count);
    ExistingGroupsAreRead(digits, group, count);
    DigitsAreText(more, rest, group, count);
    var text, behind := GroupText(IndexOf(digits), group, count), OnePass(rest, group, count);
    assert text + (more + behind) == text + more + behind;
    assert [] + more == more;
  }

  lemma TakesTheFirst(digits: string, more: string, rest: string, group: Groups, count: nat)
    requires |digits| == DecimalLength(count) && AllDigits(digits) && AllDigits(more)
    requires rest != [] ==> !IsDigit(rest[0])
    ensures OnePass("$" + digits + more + rest, group, count)
         == GroupText(IndexOf(digits), group, count) + OnePass(more + rest, group, count)
  {
    hide OnePass, DigitRun, IndexOf, DecimalLength, GroupText;
    var s := "$" + digits + more + rest;
    assert s[1..] == (digits + more) + rest;
    RunOfDigits(digits + more, rest);
    PassGroup(s, group, count);
    assert s[1..][..|digits|] == digits && s[1 + |digits|..] == more + rest;
  }

  /** In the place of a match, `$` and the number of a group put what that group stands at in the text. */
  lemma GroupsAreTheirText(text: string, spans: seq<Option<(nat, nat)>>, k: nat, count: nat)
    requires k <= count < USIZE_END && Ordered([Match(spans)], text, 0, count)
    ensures var whole := spans[0].value;
            Replaced("$" + Decimal(k), text, [Match(spans)], 0, count)
            == Some(text[..whole.0] + (if spans[k].Some? then text[spans[k].value.0..spans[k].value.1] else [])
                    + text[whole.1..])
  {
    hide OnePass, Decimal;
    var found, group := [Match(spans)], GroupsOf(Match(spans), text);
    EveryGroupCanBeNamed(k, [], group, count);
    assert "$" + Decimal(k) + [] == "$" + Decimal(k);
    NothingIsNothing(group, count);
    assert found[1..] == [] && Replaced("$" + Decimal(k), text, found[1..], spans[0].value.1, count).Some?;
    var part := if spans[k].Some? then text[spans[k].value.0..spans[k].value.1] else [];
    assert part + [] == part;
  }

  lemma NothingIsNothing(group: Groups, count: nat)
    ensures OnePass([], group, count) == []
  {
  }
}
