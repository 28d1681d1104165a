/**
 Patterns as they are written: parts one behind the other. Reading a pattern gives its parts back, every pattern
 that can be read has parts, and what it matches is told from them alone, without any token or loop.
 */
module Patterns {
  import opened Glob
  import opened Wrappers

  // ---------- a pattern and its parts ----------

  /** A member of a class as it is written: one character, or two with a `-` between them. */
  datatype Item = Single(c: char) | Span(lo: char, hi: char)

  /** A part of a pattern as it is written; `mark` is what stands behind the `[` of a class that is negated. */
  datatype Part = Letter(c: char) | Run | Mark | Bracket(mark: string, items: seq<Item>)

  function WriteItem(item: Item): string {
    match item
    case Single(c) => [c]
    case Span(lo, hi) => [lo, '-', hi]
  }

  function WriteItems(items: seq<Item>): string {
    if items == [] then [] else WriteItem(items[0]) + WriteItems(items[1..])
  }

  function WritePart(part: Part): string {
    match part
    case Letter(c) => [c]
    case Run => "*"
    case Mark => "?"
    case Bracket(mark, items) => "[" + mark + (WriteItems(items) + "]")
  }

  function WriteParts(parts: seq<Part>): string {
    if parts == [] then [] else WritePart(parts[0]) + WriteParts(parts[1..])
  }

  /** What is written is read as these members: a `]` only in front, and a `-` between two only for a span. */
  predicate ItemsFit(items: seq<Item>, first: bool) {
    items != [] ==>
      && (first || WriteItem(items[0])[0] != ']') && (items[0].Span? ==> items[0].hi != ']')
      && (items[0].Single? && |items| > 1 && WriteItem(items[1])[0] == '-' ==> items[1..] == [Single('-')])
      && ItemsFit(items[1..], false)
  }

  predicate PartFits(part: Part, opts: GlobOptions) {
    match part
    case Letter(c) => c != '*' && c != '?' && (opts.classes ==> c != '[')
    case Bracket(mark, items) =>
      && opts.classes && items != [] && ItemsFit(items, true)
      && (mark == "!" || mark == "^" || (mark == "" && WriteItem(items[0])[0] != '!' && WriteItem(items[0])[0] != '^'))
    case _ => true
  }

  function RangeOf(item: Item, ci: bool): (char, char) {
    match item
    case Single(c) => (Fold(c, ci), Fold(c, ci))
    case Span(lo, hi) => (Fold(lo, ci), Fold(hi, ci))
  }

  function RangesOf(items: seq<Item>, ci: bool): (r: seq<(char, char)>)
    ensures |r| == |items| && forall k :: 0 <= k < |items| ==> r[k] == RangeOf(items[k], ci)
  {
    seq(|items|, k requires 0 <= k < |items| => RangeOf(items[k], ci))
  }

  function TokOf(part: Part, ci: bool): Tok {
    match part
    case Letter(c) => Lit(Fold(c, ci))
    case Run => Any
    case Mark => One
    case Bracket(mark, items) => Class(mark != "", RangesOf(items, ci))
  }

  function ToksOf(parts: seq<Part>, ci: bool): (r: seq<Tok>)
    ensures |r| == |parts| && forall k :: 0 <= k < |parts| ==> r[k] == TokOf(parts[k], ci)
  {
    seq(|parts|, k requires 0 <= k < |parts| => TokOf(parts[k], ci))
  }

  lemma StandsAt(chars: string, i: nat, a: string, b: string)
    requires i <= |chars| && a + b <= chars[i..] && b != []
    ensures i + |a| < |chars| && b <= chars[i + |a|..] && chars[i + |a|] == b[0]
    ensures forall k :: 0 <= k < |a| ==> chars[i + k] == a[k]
  {
    assert chars[i + |a|..] == chars[i..][|a|..] && (a + b)[|a|..] == b;
    assert forall k :: 0 <= k < |a| ==> chars[i + k] == chars[i..][k] == (a + b)[k];
    assert (a + b)[|a|] == b[0];
  }

  lemma ItemIsSome(item: Item)
    ensures WriteItem(item) != []
  {
  }

  lemma WriteOff(items: seq<Item>)
    requires items != []
    ensures WriteItems(items) == WriteItem(items[0]) + WriteItems(items[1..])
    ensures WriteItems(items) + "]" == WriteItem(items[0]) + (WriteItems(items[1..]) + "]")
  {
    hide WriteItem;
  }

  lemma NoItems(first: bool)
    ensures WriteItems([]) == [] && ItemsFit([], first)
  {
  }

  lemma OneDash()
    ensures WriteItems([Single('-')]) == "-"
  {
    assert [Single('-')][1..] == [] && "-" + WriteItems([]) == "-";
  }

  /** What stands behind a member: the next one, or the `]`. */
  lemma BehindItem(items: seq<Item>)
    requires items != []
    ensures var rest := WriteItems(items[1..]) + "]";
            && WriteItems(items) + "]" == WriteItem(items[0]) + rest
            && rest[0] == (if |items| == 1 then ']' else WriteItem(items[1])[0])
            && (items[1..] == [Single('-')] ==> rest == "-]")
  {
    hide WriteItem, WriteItems;
    var tail := items[1..];
    WriteOff(items);
    if tail == [] {
      NoItems(true);
    } else {
      assert tail[0] == items[1];
      WriteOff(tail);
      ItemIsSome(tail[0]);
      assert (WriteItem(tail[0]) + WriteItems(tail[1..]))[0] == WriteItem(tail[0])[0];
    }
    if tail == [Single('-')] {
      OneDash();
    }
  }

  lemma SliceJoins(s: string, i: nat, j: nat, k: nat)
    requires i <= j <= k <= |s|
    ensures s[i..k] == s[i..j] + s[j..k]
  {
  }

  lemma SliceOfOne(s: string, i: nat)
    requires i < |s|
    ensures s[i..i + 1] == [s[i]]
  {
  }

  /** A member in front of what is read of a class behind it. */
  lemma ClassTakesRange(chars: string, j: nat, some: bool, ci: bool, range: (char, char), next: nat,
                        rest: seq<(char, char)>, end: nat)
    requires j < |chars| && (some ==> chars[j] != ']') && RangeAt(chars, j, ci) == (range, next)
    requires ClassFrom(chars, next, true, ci) == Some((rest, end))
    ensures ClassFrom(chars, j, some, ci) == Some(([range] + rest, end))
  {
    hide RangeAt;
  }

  lemma ItemsFitOnward(items: seq<Item>, first: bool)
    requires items != [] && ItemsFit(items, first)
    ensures ItemsFit(items, true) && ItemsFit(items[1..], false) && (first || WriteItem(items[0])[0] != ']')
  {
  }

  lemma {:induction false} ReadsItemsBack(chars: string, j: nat, items: seq<Item>, some: bool, ci: bool)
    requires j <= |chars| && (items != [] || some) && ItemsFit(items, !some)
    requires WriteItems(items) + "]" <= chars[j..]
    ensures ClassFrom(chars, j, some, ci) == Some((RangesOf(items, ci), j + |WriteItems(items)|))
    decreases |items|
  {
    hide RangesOf, RangeAt, WriteItems, RangeOf, ItemsFit, WriteItem;
    if items == [] {
      NoItems(!some);
      assert chars[j] == chars[j..][0] == ']' && RangesOf(items, ci) == [];
    } else {
      var head, rest := WriteItem(items[0]), WriteItems(items[1..]) + "]";
      BehindItem(items);
      ItemIsSome(items[0]);
      StandsAt(chars, j, head, rest);
      ItemsFitOnward(items, !some);
      RangeIsRead(chars, j, items, ci);
      ReadsItemsBack(chars, j + |head|, items[1..], true, ci);
      assert [RangeOf(items[0], ci)] + RangesOf(items[1..], ci) == RangesOf(items, ci);
      assert |WriteItems(items) + "]"| == |head| + |rest|;
      assert chars[j] == head[0];
      ClassTakesRange(chars, j, some, ci, RangeOf(items[0], ci), j + |head|, RangesOf(items[1..], ci),
                      j + |WriteItems(items)|);
    }
  }

  lemma RangeIsRead(chars: string, j: nat, items: seq<Item>, ci: bool)
    requires j < |chars| && items != [] && ItemsFit(items, true)
    requires WriteItem(items[0]) + (WriteItems(items[1..]) + "]") <= chars[j..]
    ensures RangeAt(chars, j, ci) == (RangeOf(items[0], ci), j + |WriteItem(items[0])|)
  {
    hide Fold;
    var head, rest := WriteItem(items[0]), WriteItems(items[1..]) + "]";
    BehindItem(items);
    StandsAt(chars, j, head, rest);
    assert chars[j] == head[0];
    if items[0].Single? {
      assert chars[j + 1] == rest[0];
      if rest[0] == '-' {
        assert rest == "-]" && chars[j + 1..][1] == chars[j + 2];
        assert chars[j + 2] == ']';
      }
    } else {
      assert chars[j + 1] == head[1] && chars[j + 2] == head[2];
    }
  }

  lemma PartIsSome(part: Part)
    ensures WritePart(part) != []
  {
  }

  lemma ReadsPartBack(chars: string, i: nat, part: Part, opts: GlobOptions)
    requires i < |chars| && PartFits(part, opts) && WritePart(part) <= chars[i..]
    ensures TokenAt(chars, i, opts) == Some((TokOf(part, opts.caseInsensitive), i + |WritePart(part)|))
  {
    hide ClassFrom, Fold, WriteItems, RangesOf;
    assert chars[i] == WritePart(part)[0];
    if part.Bracket? {
      var open, rest := "[" + part.mark, WriteItems(part.items) + "]";
      StandsAt(chars, i, open, rest);
      BehindItem(part.items);
      assert rest[0] == WriteItem(part.items[0])[0];
      assert part.mark != "" ==> chars[i + 1] == part.mark[0];
      ReadsItemsBack(chars, i + |open|, part.items, false, opts.caseInsensitive);
    }
  }

  /** Every list of parts that fit is what the pattern they are written as is read as. */
  lemma {:induction false} ReadsBack(before: string, parts: seq<Part>, opts: GlobOptions)
    requires forall part <- parts :: PartFits(part, opts)
    ensures TokensFrom(before + WriteParts(parts), |before|, opts) == Some(ToksOf(parts, opts.caseInsensitive))
    decreases |parts|
  {
    hide TokenAt, PartFits, WritePart, TokOf;
    var chars, ci := before + WriteParts(parts), opts.caseInsensitive;
    if parts == [] {
      assert ToksOf(parts, ci) == [];
    } else {
      var first := parts[0];
      PartIsSome(first);
      assert chars[|before|..] == WritePart(first) + WriteParts(parts[1..]);
      ReadsPartBack(chars, |before|, first, opts);
      assert chars == (before + WritePart(first)) + WriteParts(parts[1..]);
      ReadsBack(before + WritePart(first), parts[1..], opts);
      assert [TokOf(first, ci)] + ToksOf(parts[1..], ci) == ToksOf(parts, ci);
    }
  }

  /** The members a class that is closed was written with. */
  lemma {:induction false} ItemsOf(chars: string, j: nat, some: bool, ci: bool) returns (items: seq<Item>)
    requires j <= |chars| && ClassFrom(chars, j, some, ci).Some?
    ensures var end := ClassFrom(chars, j, some, ci).value.1;
            WriteItems(items) == chars[j..end] && chars[end] == ']'
    ensures ItemsFit(items, !some) && (items != [] || some)
    decreases |chars| - j
  {
    hide Fold, WriteItems, ItemsFit;
    var end := ClassFrom(chars, j, some, ci).value.1;
    if chars[j] == ']' && some {
      items := [];
      NoItems(!some);
    } else {
      var next := RangeAt(chars, j, ci).1;
      var rest := ItemsOf(chars, next, true, ci);
      var item := if next == j + 3 then Span(chars[j], chars[j + 2]) else Single(chars[j]);
      items := [item] + rest;
      SliceJoins(chars, j, next, end);
      ItemIsRead(chars, j, ci);
      if item.Single? && rest != [] {
        NoSpanBehind(chars, j, rest, ci);
      }
      ItemsGrow(item, rest, !some);
    }
  }

  lemma ItemIsRead(chars: string, j: nat, ci: bool)
    requires j < |chars|
    ensures var next := RangeAt(chars, j, ci).1;
            && (next == j + 3 ==> next <= |chars| && WriteItem(Span(chars[j], chars[j + 2])) == chars[j..next])
            && (next != j + 3 ==> next == j + 1 && WriteItem(Single(chars[j])) == chars[j..next])
  {
    hide Fold;
  }

  lemma ItemsGrow(item: Item, rest: seq<Item>, first: bool)
    requires ItemsFit(rest, false) && (first || WriteItem(item)[0] != ']') && (item.Span? ==> item.hi != ']')
    requires item.Single? && rest != [] && WriteItem(rest[0])[0] == '-' ==> rest == [Single('-')]
    ensures ItemsFit([item] + rest, first) && WriteItems([item] + rest) == WriteItem(item) + WriteItems(rest)
  {
    var items := [item] + rest;
    assert items[0] == item && items[1..] == rest;
    assert |items| > 1 ==> items[1] == rest[0];
  }

  /** Where a single character was read, what begins with a `-` behind it is the last member. */
  lemma NoSpanBehind(chars: string, j: nat, rest: seq<Item>, ci: bool)
    requires j + 1 < |chars| && RangeAt(chars, j, ci).1 == j + 1 && rest != []
    requires ClassFrom(chars, j + 1, true, ci).Some?
    requires WriteItems(rest) == chars[j + 1..ClassFrom(chars, j + 1, true, ci).value.1]
    ensures WriteItem(rest[0])[0] == '-' ==> rest == [Single('-')]
  {
    hide Fold, ClassFrom;
    BehindItem(rest);
    var end := ClassFrom(chars, j + 1, true, ci).value.1;
    assert |WriteItem(rest[0])| >= 1 && WriteItems(rest)[0] == WriteItem(rest[0])[0];
    assert chars[j + 1..end][0] == chars[j + 1];
    if WriteItem(rest[0])[0] == '-' {
      assert chars[j + 2] == ']';
      ClosedAt(chars, j + 1, ci);
      OneCharacter(rest);
    }
  }

  /** A member in front of a `]` is the last. */
  lemma ClosedAt(chars: string, j: nat, ci: bool)
    requires j + 1 < |chars| && chars[j] == '-' && chars[j + 1] == ']'
    ensures ClassFrom(chars, j, true, ci).Some? && ClassFrom(chars, j, true, ci).value.1 == j + 1
  {
    hide Fold;
    assert ClassFrom(chars, j + 1, true, ci) == Some(([], j + 1));
  }

  lemma OneCharacter(items: seq<Item>)
    requires items != [] && WriteItems(items) == "-"
    ensures items == [Single('-')]
  {
    var head, rest := WriteItem(items[0]), WriteItems(items[1..]);
    assert |head + rest| == 1 && |head| >= 1 && rest == [];
    assert head == head + rest == "-";
    assert items[1..] == [];
    assert items == [items[0]];
  }

  /** The part that a token was written as. */
  lemma PartAt(chars: string, i: nat, opts: GlobOptions) returns (part: Part)
    requires i < |chars| && TokenAt(chars, i, opts).Some?
    ensures PartFits(part, opts) && WritePart(part) == chars[i..TokenAt(chars, i, opts).value.1]
  {
    if chars[i] == '[' && opts.classes {
      part := ClassAt(chars, i, opts);
    } else {
      part := if chars[i] == '*' then Run else if chars[i] == '?' then Mark else Letter(chars[i]);
    }
  }

  lemma ClassAt(chars: string, i: nat, opts: GlobOptions) returns (part: Part)
    requires i < |chars| && chars[i] == '[' && opts.classes && TokenAt(chars, i, opts).Some?
    ensures PartFits(part, opts) && WritePart(part) == chars[i..TokenAt(chars, i, opts).value.1]
  {
    hide Fold, ClassFrom, ItemsFit, WriteItems, RangeAt;
    var start := if Negated(chars, i + 1) then i + 2 else i + 1;
    var end := ClassFrom(chars, start, false, opts.caseInsensitive).value.1;
    var items := ItemsOf(chars, start, false, opts.caseInsensitive);
    HeadOfItems(chars, start, end, items);
    part := Bracket(chars[i + 1..start], items);
    SliceOfOne(chars, i);
    SliceOfOne(chars, end);
    SliceJoins(chars, start, end, end + 1);
    SliceJoins(chars, i, i + 1, start);
    SliceJoins(chars, i, start, end + 1);
    assert start == i + 1 ==> part.mark == "";
    assert start == i + 2 ==> part.mark == [chars[i + 1]];
  }

  lemma HeadOfItems(chars: string, start: nat, end: nat, items: seq<Item>)
    requires start <= end <= |chars| && items != [] && WriteItems(items) == chars[start..end]
    ensures start < end && WriteItem(items[0])[0] == chars[start]
  {
    hide WriteItem;
    BehindItem(items);
    ItemIsSome(items[0]);
    var all, head := WriteItems(items), WriteItem(items[0]);
    assert (all + "]")[0] == head[0];
    assert |all| > 0;
    assert all[0] == chars[start..end][0] == chars[start];
  }

  /** Parts of a pattern that can be read, which it is written as. */
  lemma {:induction false} PartsOf(pattern: string, i: nat, opts: GlobOptions) returns (parts: seq<Part>)
    requires i <= |pattern| && TokensFrom(pattern, i, opts).Some?
    ensures (forall part <- parts :: PartFits(part, opts)) && WriteParts(parts) == pattern[i..]
    decreases |pattern| - i
  {
    hide TokenAt, PartFits, WritePart;
    parts := [];
    if i < |pattern| {
      var next := TokenAt(pattern, i, opts).value.1;
      var part := PartAt(pattern, i, opts);
      var rest := PartsOf(pattern, next, opts);
      parts := [part] + rest;
      assert parts[1..] == rest && pattern[i..] == pattern[i..next] + pattern[next..];
    }
  }

  /** Nothing else can be read than what is written as parts that fit. */
  lemma ReadExactlyWhenWritten(pattern: string, opts: GlobOptions)
    ensures TokensFrom(pattern, 0, opts).Some? <==>
            exists parts :: (forall part <- parts :: PartFits(part, opts)) && WriteParts(parts) == pattern
  {
    hide PartFits;
    if TokensFrom(pattern, 0, opts).Some? {
      var parts := PartsOf(pattern, 0, opts);
      assert WriteParts(parts) == pattern;
    }
    if parts :| (forall part <- parts :: PartFits(part, opts)) && WriteParts(parts) == pattern {
      ReadsBack([], parts, opts);
      assert [] + pattern == pattern;
    }
  }

  // ---------- what a pattern matches, told from its parts ----------

  const CAPITALS := "ABCDEFGHIJKLMNOPQRSTUVWXYZ"
  const SMALL := "abcdefghijklmnopqrstuvwxyz"

  /** The same character, or the same letter of ASCII in its other case where case is ignored. */
  predicate SameLetter(a: char, b: char, ci: bool) {
    || a == b
    || (ci && exists k :: 0 <= k < 26 && a == CAPITALS[k] && b == SMALL[k])
    || (ci && exists k :: 0 <= k < 26 && b == CAPITALS[k] && a == SMALL[k])
  }

  /** The small letter for a capital, looked up from the `k`th on. */
  function Lower(c: char, k: nat): char
    requires k <= 26
    decreases 26 - k
  {
    if k == 26 then c else if c == CAPITALS[k] then SMALL[k] else Lower(c, k + 1)
  }

  predicate Holds(item: Item, c: char, ci: bool) {
    match item
    case Single(l) => SameLetter(l, c, ci)
    case Span(lo, hi) => if ci then Lower(lo, 0) <= Lower(c, 0) <= Lower(hi, 0) else lo <= c <= hi
  }

  predicate Allows(part: Part, c: char, ci: bool) {
    match part
    case Letter(l) => SameLetter(l, c, ci)
    case Mark => true
    case Bracket(mark, items) => (mark == "") == exists k :: 0 <= k < |items| && Holds(items[k], c, ci)
    case Run => false
  }

  /** `s` falls into texts of the parts, one behind the other. */
  ghost predicate Accepts(parts: seq<Part>, s: string, ci: bool)
    decreases |parts|
  {
    if parts == [] then s == []
    else if parts[0] == Run then exists k :: 0 <= k <= |s| && Accepts(parts[1..], s[k..], ci)
    else s != [] && Allows(parts[0], s[0], ci) && Accepts(parts[1..], s[1..], ci)
  }

  lemma {:induction false} LowerAdds32(c: char, k: nat)
    requires k <= 26 && (c < 'A' || c as int >= 'A' as int + k)
    ensures Lower(c, k) == if 'A' <= c <= 'Z' then (c as int + 32) as char else c
    decreases 26 - k
  {
    LettersAre();
    if k < 26 && c != CAPITALS[k] {
      LowerAdds32(c, k + 1);
    }
  }

  lemma LettersAre()
    ensures forall k :: 0 <= k < 26 ==> CAPITALS[k] as int == 'A' as int + k && SMALL[k] as int == 'a' as int + k
  {
  }

  lemma FoldIsLower(c: char, ci: bool)
    ensures Fold(c, ci) == if ci then Lower(c, 0) else c
  {
    LowerAdds32(c, 0);
  }

  /** Two characters are folded to one exactly when they are the same letter. */
  lemma FoldsMeet(a: char, b: char, ci: bool)
    ensures Fold(a, ci) == Fold(b, ci) <==> SameLetter(a, b, ci)
  {
    CapitalAndSmall(a, b);
    CapitalAndSmall(b, a);
  }

  lemma CapitalAndSmall(a: char, b: char)
    ensures (exists k :: 0 <= k < 26 && a == CAPITALS[k] && b == SMALL[k]) <==>
            'A' <= a <= 'Z' && b as int == a as int + 32
  {
    LettersAre();
    if 'A' <= a <= 'Z' && b as int == a as int + 32 {
      var k := a as int - 'A' as int;
      assert a == CAPITALS[k] && b == SMALL[k];
    }
  }

  lemma TokAllows(part: Part, c: char, ci: bool)
    ensures TokMatches(TokOf(part, ci), Fold(c, ci)) <==> Allows(part, c, ci)
  {
    hide Fold, Lower, SameLetter;
    match part {
      case Letter(l) => FoldsMeet(l, c, ci);
      case Bracket(mark, items) =>
        var ranges, f := RangesOf(items, ci), Fold(c, ci);
        forall k | 0 <= k < |items| ensures (ranges[k].0 <= f <= ranges[k].1) <==> Holds(items[k], c, ci) {
          RangeHolds(items[k], c, ci);
        }
        assert InRanges(ranges, f) <==> exists k :: 0 <= k < |items| && Holds(items[k], c, ci);
      case _ =>
    }
  }

  lemma RangeHolds(item: Item, c: char, ci: bool)
    ensures RangeOf(item, ci).0 <= Fold(c, ci) <= RangeOf(item, ci).1 <==> Holds(item, c, ci)
  {
    hide Fold, Lower, SameLetter;
    FoldIsLower(c, ci);
    match item {
      case Single(l) => FoldsMeet(l, c, ci);
      case Span(lo, hi) =>
        FoldIsLower(lo, ci);
        FoldIsLower(hi, ci);
    }
  }

  lemma {:induction false} SplitsWhenAccepted(parts: seq<Part>, s: string, ci: bool)
    ensures Splits(ToksOf(parts, ci), FoldAll(s, ci)) <==> Accepts(parts, s, ci)
    decreases |parts|
  {
    hide Fold, TokMatches, Allows;
    var toks, text := ToksOf(parts, ci), FoldAll(s, ci);
    if parts != [] {
      assert toks[1..] == ToksOf(parts[1..], ci);
      assert toks[0] == Any <==> parts[0] == Run;
      forall k | 0 <= k <= |s| ensures Splits(toks[1..], text[k..]) <==> Accepts(parts[1..], s[k..], ci) {
        assert text[k..] == FoldAll(s[k..], ci);
        SplitsWhenAccepted(parts[1..], s[k..], ci);
      }
      if s != [] {
        TokAllows(parts[0], s[0], ci);
      }
    }
  }

  /** A pattern matches exactly what its parts say. */
  lemma MatchesWhatIsWritten(parts: seq<Part>, opts: GlobOptions, s: string)
    requires forall part <- parts :: PartFits(part, opts)
    ensures var read := TokensFrom(WriteParts(parts), 0, opts);
            && read.Some?
            && (Splits(Collapse(read.value), FoldAll(s, opts.caseInsensitive)) <==>
                Accepts(parts, s, opts.caseInsensitive))
  {
    hide Splits, Accepts, TokensFrom, PartFits;
    ReadsBack([], parts, opts);
    assert [] + WriteParts(parts) == WriteParts(parts);
    CollapseKeepsLanguage(ToksOf(parts, opts.caseInsensitive), FoldAll(s, opts.caseInsensitive));
    SplitsWhenAccepted(parts, s, opts.caseInsensitive);
  }

  function Letters(p: string): (parts: seq<Part>)
    ensures |parts| == |p| && forall i :: 0 <= i < |p| ==> parts[i] == Letter(p[i])
  {
    seq(|p|, i requires 0 <= i < |p| => Letter(p[i]))
  }

  lemma {:induction false} LettersAreThemselves(p: string, s: string, ci: bool)
    ensures WriteParts(Letters(p)) == p
    ensures Accepts(Letters(p), s, ci) <==> |s| == |p| && forall i :: 0 <= i < |p| ==> SameLetter(p[i], s[i], ci)
    decreases |p|
  {
    hide SameLetter;
    if p != [] {
      assert Letters(p)[1..] == Letters(p[1..]) && [p[0]] + p[1..] == p;
      LettersAreThemselves(p[1..], if s == [] then [] else s[1..], ci);
      if s != [] {
        assert forall i :: 0 < i < |p| ==> p[i] == p[1..][i - 1];
        assert |s| == |p| ==> forall i :: 0 < i < |s| ==> s[i] == s[1..][i - 1];
        if |s| == |p| && SameLetter(p[0], s[0], ci)
           && forall i :: 0 <= i < |p[1..]| ==> SameLetter(p[1..][i], s[1..][i], ci) {
          forall i | 0 <= i < |p| ensures SameLetter(p[i], s[i], ci) {
            assert i > 0 ==> SameLetter(p[1..][i - 1], s[1..][i - 1], ci);
          }
        }
      }
    }
  }

  /** A pattern without wildcards matches its own text and nothing else, but for case where that is ignored. */
  lemma PlainTextMatchesItself(p: string, opts: GlobOptions, s: string)
    requires '*' !in p && '?' !in p && (opts.classes ==> '[' !in p)
    ensures var read := TokensFrom(p, 0, opts);
            && read.Some?
            && (Splits(Collapse(read.value), FoldAll(s, opts.caseInsensitive)) <==>
                |s| == |p| && forall i :: 0 <= i < |p| ==> SameLetter(p[i], s[i], opts.caseInsensitive))
  {
    hide Splits, Accepts, TokensFrom, SameLetter;
    LettersAreThemselves(p, s, opts.caseInsensitive);
    forall part <- Letters(p) ensures PartFits(part, opts) {
      var i :| 0 <= i < |p| && Letters(p)[i] == part;
      assert p[i] in p;
    }
    MatchesWhatIsWritten(Letters(p), opts, s);
  }

  /** A token by itself: a star takes any text, and every other one a single character it has. */
  lemma OneTokenTakes(s: string, negate: bool, ranges: seq<(char, char)>, l: char)
    ensures Splits([Any], s) && (Splits([One], s) <==> |s| == 1) && (Splits([Lit(l)], s) <==> s == [l])
    ensures Splits([Class(negate, ranges)], s) <==>
            |s| == 1 && negate != exists k :: 0 <= k < |ranges| && ranges[k].0 <= s[0] <= ranges[k].1
  {
    hide Splits;
    StarTakesAll(s);
    OneOther(One, s);
    OneOther(Lit(l), s);
    OneOther(Class(negate, ranges), s);
  }

  lemma OneOther(tok: Tok, s: string)
    requires tok != Any
    ensures Splits([tok], s) <==> |s| == 1 && TokMatches(tok, s[0])
  {
    hide TokMatches;
    assert [tok][1..] == [];
    if s != [] {
      assert Splits([], s[1..]) <==> |s| == 1;
    }
  }
}
