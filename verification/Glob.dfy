/**
 The wildcard matcher: a pattern is read once into tokens, and a two-pointer loop that remembers
 only the last `*` decides whether a text matches.
 */
module Glob {
  import opened Sets
  import opened Wrappers

  datatype GlobOptions = GlobOptions(caseInsensitive: bool, classes: bool)

  datatype Tok =
    | Lit(c: char)
    | Any
    | One
    | Class(negate: bool, ranges: seq<(char, char)>)

  datatype Glob = Glob(source: string, toks: seq<Tok>, ci: bool)

  /** ASCII lower case when the pattern ignores case. */
  function Fold(c: char, ci: bool): char {
    if ci && 'A' <= c <= 'Z' then (c as int + 32) as char else c
  }

  function FoldAll(s: string, ci: bool): (r: string)
    ensures |r| == |s|
    ensures forall i :: 0 <= i < |s| ==> r[i] == Fold(s[i], ci)
  {
    seq(|s|, i requires 0 <= i < |s| => Fold(s[i], ci))
  }

  predicate InRanges(ranges: seq<(char, char)>, c: char) {
    exists k :: 0 <= k < |ranges| && ranges[k].0 <= c <= ranges[k].1
  }

  predicate TokMatches(tok: Tok, c: char) {
    match tok
    case Lit(l) => l == c
    case One => true
    case Class(negate, ranges) => InRanges(ranges, c) != negate
    case Any => false
  }

  // ---------- the language of a token list ----------

  /** `input` splits over `toks`: each `*` takes any run, every other token one character. */
  ghost predicate Splits(toks: seq<Tok>, input: string)
    decreases |toks|
  {
    if toks == [] then input == []
    else if toks[0] == Any then exists k :: 0 <= k <= |input| && Splits(toks[1..], input[k..])
    else input != [] && TokMatches(toks[0], input[0]) && Splits(toks[1..], input[1..])
  }

  // ---------- the matching loop ----------

  /** What the loop remembers of the last `*`: its token and where its run ended. */
  datatype Star = Star(tok: nat, at: nat)

  /** The last `*` could still be given a longer run. */
  ghost predicate Retry(toks: seq<Tok>, input: string, star: Option<Star>)
    requires star.Some? ==> star.value.tok < |toks|
  {
    star.Some? && exists k :: star.value.at < k <= |input| && Splits(toks[star.value.tok + 1..], input[k..])
  }

  /** No `*` stands in `toks`, so a text it takes has its length. */
  predicate Plain(toks: seq<Tok>) {
    forall k :: 0 <= k < |toks| ==> toks[k] != Any
  }

  /** A run of plain tokens takes one character each; what follows them starts that much later. */
  lemma {:induction false} PlainTakesItsLength(toks: seq<Tok>, n: nat, input: string)
    requires n <= |toks| && Plain(toks[..n]) && Splits(toks, input)
    ensures n <= |input| && Splits(toks[n..], input[n..])
    decreases n
  {
    if n == 0 {
      assert toks[0..] == toks && input[0..] == input;
    } else {
      assert toks[0] == toks[..n][0] != Any;
      var rest, text := toks[1..], input[1..];
      assert rest[..n - 1] == toks[..n][1..];
      PlainTakesItsLength(rest, n - 1, text);
      assert rest[n - 1..] == toks[n..] && text[n - 1..] == input[n..];
    }
  }

  /** At a `*`, whatever an older `*` could still do, this one can: the older one may be forgotten. */
  lemma NewStarDominates(toks: seq<Tok>, input: string, star: Option<Star>, pi: nat, si: nat)
    requires pi < |toks| && si <= |input| && toks[pi] == Any
    requires star.Some? ==> star.value.tok < pi && Plain(toks[star.value.tok + 1..pi])
    requires star.Some? ==> si == star.value.at + (pi - star.value.tok - 1)
    requires Retry(toks, input, star)
    ensures Splits(toks[pi..], input[si..])
  {
    var sp, ss := star.value.tok, star.value.at;
    var k :| ss < k <= |input| && Splits(toks[sp + 1..], input[k..]);
    var n := pi - sp - 1;
    hide Splits;
    assert toks[sp + 1..][..n] == toks[sp + 1..pi];
    PlainTakesItsLength(toks[sp + 1..], n, input[k..]);
    assert toks[sp + 1..][n..] == toks[pi..] && input[k..][n..] == input[k + n..];
    StarTakesMore(toks[pi..], input, si, k + n);
  }

  /** A `*` in front may swallow what stands before the place it matches from. */
  lemma StarTakesMore(toks: seq<Tok>, input: string, from: nat, to: nat)
    requires toks != [] && toks[0] == Any && from <= to <= |input|
    requires Splits(toks, input[to..])
    ensures Splits(toks, input[from..])
  {
    var j :| 0 <= j <= |input[to..]| && Splits(toks[1..], input[to..][j..]);
    assert input[to..][j..] == input[to - from + from + j..] == input[from..][to - from + j..];
  }

  /** A `*` either takes nothing or may be given a longer run. */
  lemma SplitsAtStar(toks: seq<Tok>, input: string, pi: nat, si: nat)
    requires pi < |toks| && si <= |input| && toks[pi] == Any
    ensures Splits(toks[pi..], input[si..]) <==>
            Splits(toks[pi + 1..], input[si..]) || Retry(toks, input, Some(Star(pi, si)))
  {
    var here, text := toks[pi..], input[si..];
    assert here[1..] == toks[pi + 1..];
    assert forall k :: 0 <= k <= |text| ==> text[k..] == input[si + k..];
    if Splits(toks[pi + 1..], text) {
      assert text[0..] == text;
    }
    if Retry(toks, input, Some(Star(pi, si))) {
      var k :| si < k <= |input| && Splits(toks[pi + 1..], input[k..]);
      assert text[k - si..] == input[k..];
    }
    if Splits(here, text) {
      var k :| 0 <= k <= |text| && Splits(here[1..], text[k..]);
      assert text[k..] == input[si + k..];
    }
  }

  /** Giving the last `*` one character more: try there, or further on. */
  lemma RetrySteps(toks: seq<Tok>, input: string, star: Star)
    requires star.tok < |toks| && star.at < |input|
    ensures Retry(toks, input, Some(star)) <==>
            Splits(toks[star.tok + 1..], input[star.at + 1..])
            || Retry(toks, input, Some(Star(star.tok, star.at + 1)))
  {
  }

  /** Once the text is used up, no older choice of the last `*` fits any more. */
  lemma NoRetryAtEnd(toks: seq<Tok>, input: string, star: Star, pi: nat)
    requires star.tok < pi <= |toks| && Plain(toks[star.tok + 1..pi])
    requires |input| == star.at + (pi - star.tok - 1)
    ensures !Retry(toks, input, Some(star))
  {
    var n := pi - star.tok - 1;
    forall k | star.at < k <= |input| ensures !Splits(toks[star.tok + 1..], input[k..]) {
      if Splits(toks[star.tok + 1..], input[k..]) {
        assert toks[star.tok + 1..][..n] == toks[star.tok + 1..pi];
        PlainTakesItsLength(toks[star.tok + 1..], n, input[k..]);
        assert false;
      }
    }
  }

  /** The places of one text index: one for each token and one behind the last. */
  ghost function Column(tokens: nat, q: nat): (places: set<(nat, nat)>)
    ensures forall place :: place in places <==> place.0 <= tokens && place.1 == q
    ensures |places| == tokens + 1
  {
    (if tokens == 0 then {} else Column(tokens - 1, q)) + {(tokens, q)}
  }

  /** The places (token index, text index) the loop can stand at. */
  ghost function Places(tokens: nat, length: nat): (places: set<(nat, nat)>)
    ensures forall place :: place in places <==> place.0 <= tokens && place.1 < length
    ensures |places| == (tokens + 1) * length
    decreases length
  {
    if length == 0 then {}
    else
      var fewer, column := Places(tokens, length - 1), Column(tokens, length - 1);
      assert |fewer + column| == |fewer| + |column| by { assert fewer !! column; }
      fewer + column
  }

  /**
   Where a visited place stands in the order the loop goes through its places: before the last `*`,
   or behind it for a shorter run of it, or for the same run at an earlier token.
   */
  ghost predicate Earlier(toks: seq<Tok>, place: (nat, nat), star: Option<Star>, pi: nat) {
    var sp := if star.Some? then star.value.tok else -1;
    var ss := if star.Some? then star.value.at else 0;
    var run := place.1 - place.0 + sp + 1;
    || place.0 <= sp
    || (place.0 <= |toks| && Plain(toks[sp + 1..place.0]) && (run < ss || (run == ss && place.0 < pi)))
  }

  /** When the loop meets a `*`, it has been at no place behind it. */
  lemma PassedBy(toks: seq<Tok>, place: (nat, nat), star: Option<Star>, pi: nat, si: nat)
    requires Earlier(toks, place, star, pi) && pi < |toks| && toks[pi] == Any
    requires star.Some? ==> star.value.tok < pi
    ensures Earlier(toks, place, Some(Star(pi, si)), pi + 1)
  {
    if place.0 > pi {
      assert false;
    }
  }

  lemma StarTakesNothing(toks: seq<Tok>, pi: nat)
    requires pi < |toks| && toks[pi] == Any
    ensures Splits(toks[pi..], []) <==> Splits(toks[pi + 1..], [])
  {
    assert toks[pi..][1..] == toks[pi + 1..];
    var empty: string := [];
    assert empty[0..] == empty;
  }

  /** A token other than a `*` does not match the end of the text. */
  lemma SomethingLeft(toks: seq<Tok>, pi: nat)
    requires pi <= |toks| && (pi < |toks| ==> toks[pi] != Any)
    ensures Splits(toks[pi..], []) <==> pi == |toks|
  {
  }

  /** How the two indices and the remembered `*` belong together at the head of the loop. */
  ghost predicate Aligned(toks: seq<Tok>, input: string, star: Option<Star>, pi: nat, si: nat) {
    && si <= |input| && pi <= |toks|
    && match star
       case None => si == pi && Plain(toks[..pi])
       case Some(Star(sp, ss)) => sp < pi && ss <= si == ss + (pi - sp - 1) && Plain(toks[sp + 1..pi])
  }

  /** The whole question comes down to what is left here, or to a longer run of the last `*`. */
  ghost predicate Decides(toks: seq<Tok>, input: string, star: Option<Star>, pi: nat, si: nat)
    requires Aligned(toks, input, star, pi, si)
  {
    Splits(toks, input) <==> Splits(toks[pi..], input[si..]) || Retry(toks, input, star)
  }

  lemma OneMoreCharacter(toks: seq<Tok>, input: string, star: Option<Star>, pi: nat, si: nat)
    requires Aligned(toks, input, star, pi, si) && Decides(toks, input, star, pi, si)
    requires si < |input| && pi < |toks| && TokMatches(toks[pi], input[si])
    ensures Aligned(toks, input, star, pi + 1, si + 1) && Decides(toks, input, star, pi + 1, si + 1)
  {
    assert toks[pi..][1..] == toks[pi + 1..] && input[si..][1..] == input[si + 1..];
    assert star.None? ==> toks[..pi + 1] == toks[..pi] + [toks[pi]];
    assert star.Some? ==> toks[star.value.tok + 1..pi + 1] == toks[star.value.tok + 1..pi] + [toks[pi]];
  }

  lemma AnotherStar(toks: seq<Tok>, input: string, star: Option<Star>, pi: nat, si: nat)
    requires Aligned(toks, input, star, pi, si) && Decides(toks, input, star, pi, si)
    requires si < |input| && pi < |toks| && toks[pi] == Any
    ensures Aligned(toks, input, Some(Star(pi, si)), pi + 1, si)
    ensures Decides(toks, input, Some(Star(pi, si)), pi + 1, si)
  {
    SplitsAtStar(toks, input, pi, si);
    if Retry(toks, input, star) {
      NewStarDominates(toks, input, star, pi, si);
    }
  }

  /** Neither a character nor a `*` is to be had at this place. */
  predicate Stuck(toks: seq<Tok>, input: string, pi: nat, si: nat)
    requires si < |input|
  {
    pi >= |toks| || (!TokMatches(toks[pi], input[si]) && toks[pi] != Any)
  }

  /** Without a `*` behind it, a place where the loop is stuck means that the text does not match. */
  lemma NoOtherWay(toks: seq<Tok>, input: string, pi: nat, si: nat)
    requires Aligned(toks, input, None, pi, si) && Decides(toks, input, None, pi, si)
    requires si < |input| && Stuck(toks, input, pi, si)
    ensures !Splits(toks, input)
  {
  }

  lemma Begin(toks: seq<Tok>, input: string)
    ensures Aligned(toks, input, None, 0, 0) && Decides(toks, input, None, 0, 0)
    ensures Behind(toks, input, {}, None, 0)
  {
    assert toks[0..] == toks && input[0..] == input;
  }

  lemma LongerRun(toks: seq<Tok>, input: string, star: Star, pi: nat, si: nat)
    requires Aligned(toks, input, Some(star), pi, si) && Decides(toks, input, Some(star), pi, si)
    requires si < |input| && Stuck(toks, input, pi, si)
    ensures Aligned(toks, input, Some(Star(star.tok, star.at + 1)), star.tok + 1, star.at + 1)
    ensures Decides(toks, input, Some(Star(star.tok, star.at + 1)), star.tok + 1, star.at + 1)
  {
    RetrySteps(toks, input, star);
  }

  /** The text is used up: only `*` may be left. */
  lemma TextUsedUp(toks: seq<Tok>, input: string, star: Option<Star>, pi: nat)
    requires Aligned(toks, input, star, pi, |input|) && Decides(toks, input, star, pi, |input|)
    ensures Splits(toks, input) <==> Splits(toks[pi..], [])
  {
    assert input[|input|..] == [];
    if star.Some? {
      NoRetryAtEnd(toks, input, star.value, pi);
    }
  }

  /** The places the loop has been at are all behind the one it stands at. */
  ghost predicate Behind(toks: seq<Tok>, input: string, visited: set<(nat, nat)>, star: Option<Star>, pi: nat) {
    && visited <= Places(|toks|, |input|)
    && forall place <- visited :: Earlier(toks, place, star, pi)
  }

  lemma EarlierGoesOn(toks: seq<Tok>, place: (nat, nat), star: Option<Star>, pi: nat)
    requires Earlier(toks, place, star, pi)
    ensures Earlier(toks, place, star, pi + 1)
    ensures star.Some? ==> Earlier(toks, place, Some(Star(star.value.tok, star.value.at + 1)), star.value.tok + 1)
  {
  }

  lemma HereIsEarlier(toks: seq<Tok>, input: string, star: Option<Star>, pi: nat, si: nat)
    requires Aligned(toks, input, star, pi, si)
    ensures !Earlier(toks, (pi, si), star, pi) && Earlier(toks, (pi, si), star, pi + 1)
    ensures Earlier(toks, (pi, si), Some(Star(pi, si)), pi + 1)
    ensures star.Some? ==> Earlier(toks, (pi, si), Some(Star(star.value.tok, star.value.at + 1)), star.value.tok + 1)
  {
  }

  /** The place the loop stands at is new; it is behind the next one, whichever way the loop goes. */
  lemma Visit(toks: seq<Tok>, input: string, visited: set<(nat, nat)>, star: Option<Star>, pi: nat, si: nat)
    returns (now: set<(nat, nat)>)
    requires Aligned(toks, input, star, pi, si) && si < |input|
    requires Behind(toks, input, visited, star, pi)
    ensures now == visited + {(pi, si)} && |now| == |visited| + 1 <= (|toks| + 1) * |input|
    ensures pi < |toks| ==> Behind(toks, input, now, star, pi + 1)
    ensures pi < |toks| && toks[pi] == Any ==> Behind(toks, input, now, Some(Star(pi, si)), pi + 1)
    ensures star.Some? ==>
              Behind(toks, input, now, Some(Star(star.value.tok, star.value.at + 1)), star.value.tok + 1)
  {
    hide Earlier;
    HereIsEarlier(toks, input, star, pi, si);
    now := visited + {(pi, si)};
    SubsetIsSmaller(now, Places(|toks|, |input|));
    forall place <- visited
      ensures Earlier(toks, place, star, pi + 1)
      ensures star.Some? ==> Earlier(toks, place, Some(Star(star.value.tok, star.value.at + 1)), star.value.tok + 1)
      ensures pi < |toks| && toks[pi] == Any ==> Earlier(toks, place, Some(Star(pi, si)), pi + 1)
    {
      EarlierGoesOn(toks, place, star, pi);
      if pi < |toks| && toks[pi] == Any {
        PassedBy(toks, place, star, pi, si);
      }
    }
  }

  /**
   Whether `s` matches. The answer is the full language of the tokens, although the loop forgets
   every `*` but the last; no place is visited twice, so the loop turns at most
   (number of tokens + 1) times (length of the text) times.
   */
  method Matches(g: Glob, s: string) returns (r: bool, ghost turns: nat)
    ensures r <==> Splits(g.toks, FoldAll(s, g.ci))
    ensures turns <= (|g.toks| + 1) * |s|
  {
    hide Splits, Decides, Behind, Plain, TokMatches, FoldAll;
    var input := FoldAll(s, g.ci);
    var toks := g.toks;
    var si: nat, pi: nat := 0, 0;
    var star: Option<Star> := None;
    ghost var visited: set<(nat, nat)> := {};
    turns := 0;
    Begin(toks, input);
    while si < |input|
      invariant Aligned(toks, input, star, pi, si) && Decides(toks, input, star, pi, si)
      invariant Behind(toks, input, visited, star, pi)
      invariant turns == |visited| <= (|toks| + 1) * |input|
      decreases |toks| - (if star.Some? then star.value.tok + 1 else 0),
                |input| - (if star.Some? then star.value.at else 0),
                |toks| - pi
    {
      visited := Visit(toks, input, visited, star, pi, si);
      turns := turns + 1;
      if pi < |toks| && TokMatches(toks[pi], input[si]) {
        OneMoreCharacter(toks, input, star, pi, si);
        si := si + 1;
        pi := pi + 1;
      } else if pi < |toks| && toks[pi] == Any {
        AnotherStar(toks, input, star, pi, si);
        star := Some(Star(pi, si));
        pi := pi + 1;
      } else if star.Some? {
        LongerRun(toks, input, star.value, pi, si);
        pi := star.value.tok + 1;
        si := star.value.at + 1;
        star := Some(Star(star.value.tok, star.value.at + 1));
      } else {
        NoOtherWay(toks, input, pi, si);
        return false, turns;
      }
    }
    TextUsedUp(toks, input, star, pi);
    while pi < |toks| && toks[pi] == Any
      invariant pi <= |toks|
      invariant Splits(toks, input) <==> Splits(toks[pi..], [])
    {
      StarTakesNothing(toks, pi);
      pi := pi + 1;
    }
    SomethingLeft(toks, pi);
    r := pi == |toks|;
  }

  // ---------- reading a pattern ----------

  /** The range that stands at `j`, and where the next one does. */
  function RangeAt(chars: string, j: nat, ci: bool): (r: ((char, char), nat))
    requires j < |chars|
    ensures j < r.1 <= |chars|
  {
    if j + 2 < |chars| && chars[j + 1] == '-' && chars[j + 2] != ']'
    then ((Fold(chars[j], ci), Fold(chars[j + 2], ci)), j + 3)
    else ((Fold(chars[j], ci), Fold(chars[j], ci)), j + 1)
  }

  /**
   The ranges of a class from `j` on, and where the `]` stands that closes it. A `]` is a member as
   long as there is none before it (`some`). Nothing when the class is not closed.
   */
  function ClassFrom(chars: string, j: nat, some: bool, ci: bool): (r: Option<(seq<(char, char)>, nat)>)
    requires j <= |chars|
    ensures r.Some? ==> j <= r.value.1 < |chars|
    decreases |chars| - j
  {
    if j == |chars| then None
    else if chars[j] == ']' && some then Some(([], j))
    else
      var (range, next) := RangeAt(chars, j, ci);
      match ClassFrom(chars, next, true, ci)
      case None => None
      case Some((rest, end)) => Some(([range] + rest, end))
  }

  predicate Negated(chars: string, j: nat) {
    j < |chars| && (chars[j] == '!' || chars[j] == '^')
  }

  /** The token that starts at `i`, and where the next one starts. */
  function TokenAt(chars: string, i: nat, opts: GlobOptions): (r: Option<(Tok, nat)>)
    requires i < |chars|
    ensures r.Some? ==> i < r.value.1 <= |chars|
  {
    match chars[i]
    case '*' => Some((Any, i + 1))
    case '?' => Some((One, i + 1))
    case c =>
      if c == '[' && opts.classes then
        var negate := Negated(chars, i + 1);
        match ClassFrom(chars, if negate then i + 2 else i + 1, false, opts.caseInsensitive)
        case None => None
        case Some((ranges, end)) => Some((Class(negate, ranges), end + 1))
      else Some((Lit(Fold(c, opts.caseInsensitive)), i + 1))
  }

  /** The tokens from `i` on, every `*` of the pattern as a token of its own. */
  function TokensFrom(chars: string, i: nat, opts: GlobOptions): Option<seq<Tok>>
    requires i <= |chars|
    decreases |chars| - i
  {
    if i == |chars| then Some([])
    else match TokenAt(chars, i, opts)
      case None => None
      case Some((tok, next)) =>
        match TokensFrom(chars, next, opts)
        case None => None
        case Some(rest) => Some([tok] + rest)
  }

  /** `toks` with each run of `*` as one. */
  function Collapse(toks: seq<Tok>): seq<Tok> {
    if toks == [] then []
    else PushTok(Collapse(toks[..|toks| - 1]), toks[|toks| - 1])
  }

  function PushTok(toks: seq<Tok>, tok: Tok): seq<Tok> {
    if tok == Any && toks != [] && toks[|toks| - 1] == Any then toks else toks + [tok]
  }

  lemma CollapsePush(toks: seq<Tok>, tok: Tok)
    ensures Collapse(toks + [tok]) == PushTok(Collapse(toks), tok)
  {
    assert (toks + [tok])[..|toks|] == toks;
  }

  /** What is read so far, in front of what `TokensFrom` still reads. */
  ghost predicate ReadSoFar(pattern: string, opts: GlobOptions, raw: seq<Tok>, i: nat)
    requires i <= |pattern|
  {
    match TokensFrom(pattern, i, opts)
    case None => TokensFrom(pattern, 0, opts).None?
    case Some(rest) => TokensFrom(pattern, 0, opts) == Some(raw + rest)
  }

  lemma NothingRead(pattern: string, opts: GlobOptions)
    ensures ReadSoFar(pattern, opts, [], 0) && Collapse([]) == []
  {
    if TokensFrom(pattern, 0, opts).Some? {
      assert [] + TokensFrom(pattern, 0, opts).value == TokensFrom(pattern, 0, opts).value;
    }
  }

  lemma AllRead(pattern: string, opts: GlobOptions, raw: seq<Tok>)
    requires ReadSoFar(pattern, opts, raw, |pattern|)
    ensures TokensFrom(pattern, 0, opts) == Some(raw)
  {
    assert raw + [] == raw;
  }

  lemma ReadOneMore(pattern: string, opts: GlobOptions, raw: seq<Tok>, i: nat)
    requires i < |pattern| && ReadSoFar(pattern, opts, raw, i)
    ensures TokenAt(pattern, i, opts).None? ==> TokensFrom(pattern, 0, opts).None?
    ensures TokenAt(pattern, i, opts).Some? ==>
              ReadSoFar(pattern, opts, raw + [TokenAt(pattern, i, opts).value.0], TokenAt(pattern, i, opts).value.1)
  {
    match TokenAt(pattern, i, opts) {
      case None =>
      case Some((tok, next)) =>
        if TokensFrom(pattern, next, opts).Some? {
          var rest := TokensFrom(pattern, next, opts).value;
          assert (raw + [tok]) + rest == raw + ([tok] + rest);
        }
    }
  }

  /**
   Reads `pattern`. It fails exactly when a class is not closed; otherwise the tokens are those of
   the pattern with each run of `*` collapsed, which changes nothing in what matches.
   */
  method New(pattern: string, opts: GlobOptions) returns (r: Result<Glob, string>)
    ensures r.Ok? <==> TokensFrom(pattern, 0, opts).Some?
    ensures r.Ok? ==> r.value == Glob(pattern, Collapse(TokensFrom(pattern, 0, opts).value), opts.caseInsensitive)
    ensures r.Ok? ==> forall s :: Splits(r.value.toks, s) <==> Splits(TokensFrom(pattern, 0, opts).value, s)
    ensures r.Err? ==> r.error == pattern
  {
    hide TokensFrom, Splits, Fold, ClassFrom, ReadSoFar, Collapse;
    var toks: seq<Tok> := [];
    ghost var raw: seq<Tok> := [];
    var i: nat := 0;
    NothingRead(pattern, opts);
    while i < |pattern|
      invariant i <= |pattern|
      invariant ReadSoFar(pattern, opts, raw, i) && toks == Collapse(raw)
    {
      var c := pattern[i];
      ghost var token := TokenAt(pattern, i, opts);
      ReadOneMore(pattern, opts, raw, i);
      if c == '*' {
        if toks == [] || toks[|toks| - 1] != Any {
          toks := toks + [Any];
        }
      } else if c == '?' {
        toks := toks + [One];
      } else if c == '[' && opts.classes {
        var read := NewClass(pattern, i, opts);
        if read.None? {
          return Err(pattern);
        }
        toks := toks + [read.value.0];
        i := read.value.1;
      } else {
        toks := toks + [Lit(Fold(c, opts.caseInsensitive))];
      }
      i := i + 1;
      CollapsePush(raw, token.value.0);
      raw := raw + [token.value.0];
    }
    AllRead(pattern, opts, raw);
    forall s ensures Splits(toks, s) <==> Splits(raw, s) {
      CollapseKeepsLanguage(raw, s);
    }
    r := Ok(Glob(pattern, toks, opts.caseInsensitive));
  }

  /** The ranges read so far, in front of those `ClassFrom` still reads, are those from `start` on. */
  ghost predicate ClassSoFar(chars: string, start: nat, ranges: seq<(char, char)>, j: nat, ci: bool)
    requires start <= j <= |chars|
  {
    ClassFrom(chars, start, false, ci) ==
    match ClassFrom(chars, j, ranges != [], ci)
    case None => None
    case Some((rest, end)) => Some((ranges + rest, end))
  }

  lemma ClassBegins(chars: string, start: nat, ci: bool)
    requires start <= |chars|
    ensures ClassSoFar(chars, start, [], start, ci)
  {
    match ClassFrom(chars, start, false, ci) {
      case None =>
      case Some((rest, end)) => assert [] + rest == rest;
    }
  }

  lemma ClassOneMore(chars: string, start: nat, ranges: seq<(char, char)>, j: nat, ci: bool)
    requires start <= j < |chars| && ClassSoFar(chars, start, ranges, j, ci)
    ensures if chars[j] == ']' && ranges != [] then ClassFrom(chars, start, false, ci) == Some((ranges, j))
            else ClassSoFar(chars, start, ranges + [RangeAt(chars, j, ci).0], RangeAt(chars, j, ci).1, ci)
  {
    if chars[j] == ']' && ranges != [] {
      assert ranges + [] == ranges;
    } else {
      var (range, next) := RangeAt(chars, j, ci);
      match ClassFrom(chars, next, true, ci) {
        case None =>
        case Some((rest, end)) => assert (ranges + [range]) + rest == ranges + ([range] + rest);
      }
    }
  }

  /** The class that opens at `i`, and the index of its last character. */
  method NewClass(pattern: string, i: nat, opts: GlobOptions) returns (r: Option<(Tok, nat)>)
    requires i < |pattern| && pattern[i] == '[' && opts.classes
    ensures match TokenAt(pattern, i, opts)
            case None => r == None
            case Some((tok, next)) => r == Some((tok, next - 1))
  {
    hide ClassFrom, Fold;
    var j := i + 1;
    var negate := j < |pattern| && (pattern[j] == '!' || pattern[j] == '^');
    if negate {
      j := j + 1;
    }
    ghost var start, ci := j, opts.caseInsensitive;
    ClassBegins(pattern, start, ci);
    var ranges: seq<(char, char)> := [];
    while j < |pattern|
      invariant start <= j <= |pattern| && ClassSoFar(pattern, start, ranges, j, ci)
    {
      ClassOneMore(pattern, start, ranges, j, ci);
      if pattern[j] == ']' && ranges != [] {
        return Some((Class(negate, ranges), j));
      }
      var lo := pattern[j];
      if j + 2 < |pattern| && pattern[j + 1] == '-' && pattern[j + 2] != ']' {
        ranges := ranges + [(Fold(lo, opts.caseInsensitive), Fold(pattern[j + 2], opts.caseInsensitive))];
        j := j + 3;
      } else {
        var f := Fold(lo, opts.caseInsensitive);
        ranges := ranges + [(f, f)];
        j := j + 1;
      }
    }
    NeverClosed(pattern, start, ranges, ci);
    r := None;
  }

  lemma NeverClosed(chars: string, start: nat, ranges: seq<(char, char)>, ci: bool)
    requires start <= |chars| && ClassSoFar(chars, start, ranges, |chars|, ci)
    ensures ClassFrom(chars, start, false, ci).None?
  {
  }

  // ---------- collapsing a run of `*` ----------

  /** A text splits over two token lists one after the other when it falls into a text of each. */
  lemma SplitsConcat(a: seq<Tok>, b: seq<Tok>, s: string)
    ensures Splits(a + b, s) <==> exists k :: 0 <= k <= |s| && Splits(a, s[..k]) && Splits(b, s[k..])
  {
    if Splits(a + b, s) {
      var k := FallsApart(a, b, s);
    }
    if k :| 0 <= k <= |s| && Splits(a, s[..k]) && Splits(b, s[k..]) {
      GoTogether(a, b, s, k);
    }
  }

  /** What the first token takes, and the rest. */
  lemma TakeOff(toks: seq<Tok>, s: string) returns (first: nat)
    requires toks != [] && Splits(toks, s)
    ensures first <= |s| && Splits(toks[1..], s[first..])
    ensures toks[0] != Any ==> first == 1 && TokMatches(toks[0], s[0])
  {
    first := 1;
    if toks[0] == Any {
      first :| first <= |s| && Splits(toks[1..], s[first..]);
    }
  }

  lemma PutOn(toks: seq<Tok>, s: string, first: nat)
    requires toks != [] && first <= |s| && Splits(toks[1..], s[first..])
    requires toks[0] != Any ==> first == 1 && TokMatches(toks[0], s[0])
    ensures Splits(toks, s)
  {
  }

  lemma {:induction false} FallsApart(a: seq<Tok>, b: seq<Tok>, s: string) returns (k: nat)
    requires Splits(a + b, s)
    ensures k <= |s| && Splits(a, s[..k]) && Splits(b, s[k..])
    decreases |a|
  {
    k := 0;
    if a == [] {
      assert a + b == b && s[0..] == s;
    } else {
      hide Splits;
      assert (a + b)[1..] == a[1..] + b;
      var first := TakeOff(a + b, s);
      var rest := FallsApart(a[1..], b, s[first..]);
      k := first + rest;
      assert s[..k][first..] == s[first..][..rest] && s[first..][rest..] == s[k..];
      PutOn(a, s[..k], first);
    }
  }

  lemma {:induction false} GoTogether(a: seq<Tok>, b: seq<Tok>, s: string, k: nat)
    requires k <= |s| && Splits(a, s[..k]) && Splits(b, s[k..])
    ensures Splits(a + b, s)
    decreases |a|
  {
    if a == [] {
      assert a + b == b && s[0..] == s;
    } else {
      hide Splits;
      assert (a + b)[1..] == a[1..] + b;
      var first := TakeOff(a, s[..k]);
      assert s[first..][..k - first] == s[..k][first..] && s[first..][k - first..] == s[k..];
      GoTogether(a[1..], b, s[first..], k - first);
      PutOn(a + b, s, first);
    }
  }

  /** One `*` takes everything, and so do two. */
  lemma StarTakesAll(s: string)
    ensures Splits([Any], s) && Splits([Any, Any], s)
  {
    assert [Any][1..] == [] && [Any, Any][1..] == [Any];
    assert s[|s|..] == [] && s[0..] == s;
  }

  lemma {:induction false} CollapseKeepsLanguage(toks: seq<Tok>, s: string)
    ensures Splits(Collapse(toks), s) <==> Splits(toks, s)
    decreases |toks|
  {
    if toks != [] {
      var front, last := toks[..|toks| - 1], toks[|toks| - 1];
      var less := Collapse(front);
      assert toks == front + [last];
      SplitsConcat(front, [last], s);
      forall k | 0 <= k <= |s| ensures Splits(less, s[..k]) <==> Splits(front, s[..k]) {
        CollapseKeepsLanguage(front, s[..k]);
      }
      SplitsConcat(less, [last], s);
      if Collapse(toks) == less {
        StarTwice(less, s);
      }
    }
  }

  /** A second `*` behind a first changes nothing. */
  lemma StarTwice(toks: seq<Tok>, s: string)
    requires toks != [] && toks[|toks| - 1] == Any
    ensures Splits(toks, s) <==> Splits(toks + [Any], s)
  {
    var front := toks[..|toks| - 1];
    assert toks == front + [Any] && toks + [Any] == front + [Any, Any];
    SplitsConcat(front, [Any], s);
    SplitsConcat(front, [Any, Any], s);
    forall k | 0 <= k <= |s| ensures Splits([Any], s[k..]) && Splits([Any, Any], s[k..]) {
      StarTakesAll(s[k..]);
    }
  }

  // ---------- ignoring case ----------

  lemma {:induction false} ClassIgnoresCase(p: string, j: nat, some: bool)
    requires j <= |p|
    ensures ClassFrom(FoldAll(p, true), j, some, true) == ClassFrom(p, j, some, true)
    decreases |p| - j
  {
    if j < |p| {
      ClassIgnoresCase(p, RangeAt(p, j, true).1, true);
    }
  }

  lemma TokenIgnoresCase(p: string, i: nat, opts: GlobOptions)
    requires i < |p| && opts.caseInsensitive
    ensures TokenAt(FoldAll(p, true), i, opts) == TokenAt(p, i, opts)
  {
    hide ClassFrom;
    ClassIgnoresCase(p, i + 1, false);
    if i + 2 <= |p| {
      ClassIgnoresCase(p, i + 2, false);
    }
  }

  /** A pattern that ignores case reads the same whatever the case of its letters. */
  lemma {:induction false} PatternIgnoresCase(p: string, i: nat, opts: GlobOptions)
    requires i <= |p| && opts.caseInsensitive
    ensures TokensFrom(FoldAll(p, true), i, opts) == TokensFrom(p, i, opts)
    decreases |p| - i
  {
    hide TokenAt;
    if i < |p| {
      TokenIgnoresCase(p, i, opts);
      match TokenAt(p, i, opts) {
        case None =>
        case Some((_, next)) => PatternIgnoresCase(p, next, opts);
      }
    }
  }
}
