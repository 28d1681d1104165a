/**
 Managed profiles: which header line is in force, where the lines of the copies lead, told as the orbit of an
 address under `Named`, and what is made of that. Intervals are seconds.
 */
module Managed {
  import opened Wrappers

  const DEFAULT_INTERVAL: nat := 86400
  const SHORTEST_INTERVAL: nat := 60
  /** The orbit is looked at as far as this. */
  const MOST_CHANGES: nat := 8

  /** Addresses are compared as they are requested: what comes behind a `#` is gone. */
  type Url = string

  // ---------- the line in force ----------

  /** The word where the URL stands: none, something else, or an http(s) address. */
  datatype UrlWord = NoUrl | NotHttp | Http(address: Url)

  /** A parameter of the line; the values are those that could be read. */
  datatype Param = Interval(seconds: Option<nat>) | Strict(value: Option<bool>) | UnknownParam

  datatype Directive = ManagedConfig(url: UrlWord, params: seq<Param>) | ForbiddenAutoUpgrade | OtherDirective

  datatype Line = Line(address: Url, interval: nat, strict: bool)

  datatype Warning =
    | WithoutUrl | NoHttpUrl | BelowShortest | InvalidInterval | InvalidStrict | UnknownParameter | UnknownDirective

  /** The interval the parameters ask for: the last that is a number other than 0 counts, with a floor. */
  function IntervalOf(params: seq<Param>): (seconds: nat)
    ensures seconds >= SHORTEST_INTERVAL
  {
    if params == [] then DEFAULT_INTERVAL
    else match params[|params| - 1]
      case Interval(Some(n)) =>
        if n == 0 then IntervalOf(params[..|params| - 1])
        else if n < SHORTEST_INTERVAL then SHORTEST_INTERVAL else n
      case _ => IntervalOf(params[..|params| - 1])
  }

  /** The last `strict` that could be read counts. */
  function StrictOf(params: seq<Param>): bool {
    if params == [] then false
    else match params[|params| - 1]
      case Strict(Some(b)) => b
      case _ => StrictOf(params[..|params| - 1])
  }

  /** Later lines with an address overtake earlier ones (`SecondHasItsWay`). */
  function LineOf(header: seq<Directive>): (line: Option<Line>)
    ensures line.Some? ==> line.value.interval >= SHORTEST_INTERVAL
  {
    if header == [] then None
    else match header[|header| - 1]
      case ManagedConfig(Http(address), params) => Some(Line(address, IntervalOf(params), StrictOf(params)))
      case _ => LineOf(header[..|header| - 1])
  }

  /** A parameter of which nothing is said. */
  predicate Unremarkable(p: Param) {
    match p
    case Interval(seconds) => seconds.Some? && (seconds.value == 0 || seconds.value >= SHORTEST_INTERVAL)
    case Strict(value) => value.Some?
    case UnknownParam => false
  }

  /** The warning a parameter gets, if any. */
  function ParamWarning(p: Param): seq<Warning> {
    if Unremarkable(p) then []
    else match p
      case Interval(Some(_)) => [BelowShortest]
      case Interval(None) => [InvalidInterval]
      case Strict(_) => [InvalidStrict]
      case UnknownParam => [UnknownParameter]
  }

  function ParamWarnings(params: seq<Param>): seq<Warning> {
    if params == [] then [] else ParamWarnings(params[..|params| - 1]) + ParamWarning(params[|params| - 1])
  }

  /** The warnings of a header line; the parameters are looked at only behind an address. */
  function LineWarnings(d: Directive): seq<Warning> {
    match d
    case ManagedConfig(NoUrl, _) => [WithoutUrl]
    case ManagedConfig(NotHttp, _) => [NoHttpUrl]
    case ManagedConfig(Http(_), params) => ParamWarnings(params)
    case ForbiddenAutoUpgrade => []
    case OtherDirective => [UnknownDirective]
  }

  function HeaderWarnings(header: seq<Directive>): seq<Warning> {
    if header == [] then [] else HeaderWarnings(header[..|header| - 1]) + LineWarnings(header[|header| - 1])
  }

  // ---------- the parameters that count, told from their places ----------

  /** A number of seconds other than 0. */
  predicate SetsInterval(p: Param) {
    p.Interval? && p.seconds.Some? && p.seconds.value != 0
  }

  predicate SetsStrict(p: Param) {
    p.Strict? && p.value.Some?
  }

  /** The last number counts, but for a minute that it is never below; a day is what there is without one. */
  ghost predicate IntervalFits(params: seq<Param>, interval: nat) {
    && (forall k :: 0 <= k < |params| && SetsInterval(params[k])
                    && (forall m :: k < m < |params| ==> !SetsInterval(params[m])) ==>
          interval == if params[k].seconds.value >= 60 then params[k].seconds.value else 60)
    && ((forall k :: 0 <= k < |params| ==> !SetsInterval(params[k])) ==> interval == 86400)
  }

  /** The last one that can be read counts; it is not strict without one. */
  ghost predicate StrictFits(params: seq<Param>, strict: bool) {
    && (forall k :: 0 <= k < |params| && SetsStrict(params[k])
                    && (forall m :: k < m < |params| ==> !SetsStrict(params[m])) ==>
          strict == params[k].value.value)
    && ((forall k :: 0 <= k < |params| ==> !SetsStrict(params[k])) ==> !strict)
  }

  lemma {:induction false} IntervalOfFits(params: seq<Param>)
    ensures IntervalFits(params, IntervalOf(params))
    decreases |params|
  {
    hide IntervalFits, IntervalOf;
    if params == [] {
      NothingIsSet();
    } else {
      var front, last := params[..|params| - 1], params[|params| - 1];
      IntervalOfFits(front);
      IntervalOfLast(params);
      assert params == front + [last];
      IntervalFitsOn(front, last, IntervalOf(front));
    }
  }

  lemma NothingIsSet()
    ensures IntervalFits([], IntervalOf([])) && StrictFits([], StrictOf([]))
  {
  }

  lemma IntervalOfLast(params: seq<Param>)
    requires params != []
    ensures var last := params[|params| - 1];
            IntervalOf(params) == if !SetsInterval(last) then IntervalOf(params[..|params| - 1])
                                  else if last.seconds.value >= 60 then last.seconds.value else 60
  {
  }

  /** One parameter more: it counts, or what counted before still does. */
  lemma IntervalFitsOn(front: seq<Param>, last: Param, interval: nat)
    requires IntervalFits(front, interval)
    ensures !SetsInterval(last) ==> IntervalFits(front + [last], interval)
    ensures SetsInterval(last) ==>
              IntervalFits(front + [last], if last.seconds.value >= 60 then last.seconds.value else 60)
  {
    var params := front + [last];
    assert params[|front|] == last;
    forall k | 0 <= k < |params| && SetsInterval(params[k])
               && (forall m :: k < m < |params| ==> !SetsInterval(params[m]))
      ensures SetsInterval(last) ==> k == |front|
      ensures !SetsInterval(last) ==>
                interval == if params[k].seconds.value >= 60 then params[k].seconds.value else 60
    {
      if k < |front| {
        assert !SetsInterval(params[|front|]);
        assert front[k] == params[k] && forall m :: k < m < |front| ==> front[m] == params[m];
      }
    }
    if forall k :: 0 <= k < |params| ==> !SetsInterval(params[k]) {
      assert forall k :: 0 <= k < |front| ==> front[k] == params[k];
    }
  }

  lemma {:induction false} StrictOfFits(params: seq<Param>)
    ensures StrictFits(params, StrictOf(params))
    decreases |params|
  {
    hide StrictFits, StrictOf;
    if params == [] {
      NothingIsSet();
    } else {
      var front, last := params[..|params| - 1], params[|params| - 1];
      StrictOfFits(front);
      StrictOfLast(params);
      assert params == front + [last];
      StrictFitsOn(front, last, StrictOf(front));
    }
  }

  lemma StrictOfLast(params: seq<Param>)
    requires params != []
    ensures var last := params[|params| - 1];
            StrictOf(params) == if SetsStrict(last) then last.value.value else StrictOf(params[..|params| - 1])
  {
  }

  lemma StrictFitsOn(front: seq<Param>, last: Param, strict: bool)
    requires StrictFits(front, strict)
    ensures !SetsStrict(last) ==> StrictFits(front + [last], strict)
    ensures SetsStrict(last) ==> StrictFits(front + [last], last.value.value)
  {
    var params := front + [last];
    assert params[|front|] == last;
    forall k | 0 <= k < |params| && SetsStrict(params[k])
               && (forall m :: k < m < |params| ==> !SetsStrict(params[m]))
      ensures SetsStrict(last) ==> k == |front|
      ensures !SetsStrict(last) ==> strict == params[k].value.value
    {
      if k < |front| {
        assert !SetsStrict(params[|front|]);
        assert front[k] == params[k] && forall m :: k < m < |front| ==> front[m] == params[m];
      }
    }
    if forall k :: 0 <= k < |params| ==> !SetsStrict(params[k]) {
      assert forall k :: 0 <= k < |front| ==> front[k] == params[k];
    }
  }

  predicate HasAddress(d: Directive) {
    d.ManagedConfig? && d.url.Http?
  }

  /** Behind the directive at `k`, which has an address, there is none that has. */
  ghost predicate LastAddress(header: seq<Directive>, k: int) {
    0 <= k < |header| && HasAddress(header[k]) && forall m :: k < m < |header| ==> !HasAddress(header[m])
  }

  ghost predicate LineFits(d: Directive, line: Line) {
    && HasAddress(d) && line.address == d.url.address
    && IntervalFits(d.params, line.interval) && StrictFits(d.params, line.strict)
  }

  /** The line in force is read from the directive behind which no other has an address, if there is one. */
  ghost predicate InForce(header: seq<Directive>, line: Option<Line>) {
    && (forall k :: LastAddress(header, k) ==> line.Some? && LineFits(header[k], line.value))
    && (line.Some? ==> exists k :: LastAddress(header, k))
  }

  lemma {:induction false} LineOfIsInForce(header: seq<Directive>)
    ensures InForce(header, LineOf(header))
    decreases |header|
  {
    hide LineOf, LineFits, LastAddress;
    if header == [] {
      NoLineIsInForce();
    } else {
      var n := |header| - 1;
      var front, last := header[..n], header[n];
      LineOfIsInForce(front);
      LineOfLast(header);
      assert header == front + [last];
      LastAddressOn(front, last);
      if HasAddress(last) {
        ReadByItsParams(last);
        assert LastAddress(header, n);
      } else if LineOf(header).Some? {
        var k :| LastAddress(front, k);
        assert LastAddress(header, k);
      }
      forall k | LastAddress(header, k)
        ensures 0 <= k < |header| && LineOf(header).Some? && LineFits(header[k], LineOf(header).value)
      {
        if !HasAddress(last) {
          assert LastAddress(front, k) && front[k] == header[k];
        }
      }
    }
  }

  lemma NoLineIsInForce()
    ensures InForce([], LineOf([]))
  {
  }

  lemma ReadByItsParams(d: Directive)
    requires HasAddress(d)
    ensures LineFits(d, Line(d.url.address, IntervalOf(d.params), StrictOf(d.params)))
  {
    IntervalOfFits(d.params);
    StrictOfFits(d.params);
  }

  lemma LineOfLast(header: seq<Directive>)
    requires header != []
    ensures var last := header[|header| - 1];
            LineOf(header) == if HasAddress(last)
                              then Some(Line(last.url.address, IntervalOf(last.params), StrictOf(last.params)))
                              else LineOf(header[..|header| - 1])
  {
    hide IntervalOf, StrictOf;
  }

  lemma LastAddressOn(front: seq<Directive>, last: Directive)
    ensures HasAddress(last) ==> forall k :: LastAddress(front + [last], k) <==> k == |front|
    ensures !HasAddress(last) ==> forall k :: LastAddress(front + [last], k) <==> LastAddress(front, k)
    ensures forall k :: LastAddress(front, k) ==> 0 <= k < |front|
    ensures forall k :: LastAddress(front + [last], k) ==> 0 <= k <= |front|
  {
    var header := front + [last];
    assert header[|front|] == last && forall k :: 0 <= k < |front| ==> header[k] == front[k];
  }

  /** What is said of one parameter and of one line by itself. */
  lemma SaidOfOne(p: Param, d: Directive)
    ensures p.Interval? && p.seconds.None? ==> ParamWarnings([p]) == [InvalidInterval]
    ensures p.Interval? && p.seconds.Some? ==>
              ParamWarnings([p]) == if 0 < p.seconds.value < 60 then [BelowShortest] else []
    ensures p.Strict? ==> ParamWarnings([p]) == if p.value.None? then [InvalidStrict] else []
    ensures p.UnknownParam? ==> ParamWarnings([p]) == [UnknownParameter]
    ensures d.ManagedConfig? && d.url.NoUrl? ==> HeaderWarnings([d]) == [WithoutUrl]
    ensures d.ManagedConfig? && d.url.NotHttp? ==> HeaderWarnings([d]) == [NoHttpUrl]
    ensures HasAddress(d) ==> HeaderWarnings([d]) == ParamWarnings(d.params)
    ensures d.ForbiddenAutoUpgrade? ==> HeaderWarnings([d]) == []
    ensures d.OtherDirective? ==> HeaderWarnings([d]) == [UnknownDirective]
  {
    assert [p][..0] == [] && [d][..0] == [];
    assert ParamWarnings([p]) == ParamWarnings([]) + ParamWarning(p) == ParamWarning(p);
    assert HeaderWarnings([d]) == HeaderWarnings([]) + LineWarnings(d) == LineWarnings(d);
  }

  lemma SaidOfOneMore(params: seq<Param>, p: Param)
    ensures ParamWarnings(params + [p]) == ParamWarnings(params) + ParamWarning(p)
  {
    hide ParamWarning;
    assert (params + [p])[..|params|] == params;
  }

  /** The warnings of a list of parameters are those of each, one behind the other. */
  lemma {:induction false} SaidInOrder(first: seq<Param>, second: seq<Param>)
    ensures ParamWarnings(first + second) == ParamWarnings(first) + ParamWarnings(second)
    decreases |second|
  {
    hide ParamWarning, ParamWarnings;
    if second == [] {
      assert first + second == first && ParamWarnings([]) == [] by { NothingIsSaid(); }
    } else {
      var front, last := second[..|second| - 1], second[|second| - 1];
      SaidInOrder(first, front);
      SaidOfOneMore(front, last);
      SaidOfOneMore(first + front, last);
      assert second == front + [last] && first + second == (first + front) + [last];
    }
  }

  lemma NothingIsSaid()
    ensures ParamWarnings([]) == []
  {
  }

  method ReadParams(params: seq<Param>) returns (interval: nat, strict: bool, warnings: seq<Warning>)
    ensures interval == IntervalOf(params) && strict == StrictOf(params)
    ensures IntervalFits(params, interval) && StrictFits(params, strict)
    ensures warnings == ParamWarnings(params)
    ensures warnings == [] <==> forall k :: 0 <= k < |params| ==> Unremarkable(params[k])
  {
    interval, strict, warnings := DEFAULT_INTERVAL, false, [];
    for k := 0 to |params|
      invariant interval == IntervalOf(params[..k]) && strict == StrictOf(params[..k])
      invariant warnings == ParamWarnings(params[..k])
      invariant warnings == [] <==> forall m :: 0 <= m < k ==> Unremarkable(params[m])
    {
      assert params[..k + 1][..k] == params[..k];
      match params[k] {
        case Interval(Some(n)) =>
          if n == 0 {
          } else if n < SHORTEST_INTERVAL {
            interval := SHORTEST_INTERVAL;
            warnings := warnings + [BelowShortest];
          } else {
            interval := n;
          }
        case Interval(None) => warnings := warnings + [InvalidInterval];
        case Strict(Some(b)) => strict := b;
        case Strict(None) => warnings := warnings + [InvalidStrict];
        case UnknownParam => warnings := warnings + [UnknownParameter];
      }
    }
    assert params[..|params|] == params;
    IntervalOfFits(params);
    StrictOfFits(params);
  }

  method Find(header: seq<Directive>) returns (found: Option<Line>, warnings: seq<Warning>)
    ensures found == LineOf(header) && warnings == HeaderWarnings(header)
    ensures InForce(header, found)
  {
    hide InForce;
    found, warnings := None, [];
    for k := 0 to |header|
      invariant found == LineOf(header[..k]) && warnings == HeaderWarnings(header[..k])
    {
      assert header[..k + 1][..k] == header[..k];
      match header[k] {
        case ManagedConfig(url, params) =>
          match url {
            case NoUrl => warnings := warnings + [WithoutUrl];
            case NotHttp => warnings := warnings + [NoHttpUrl];
            case Http(address) =>
              var interval, strict, told := ReadParams(params);
              warnings := warnings + told;
              found := Some(Line(address, interval, strict));
          }
        case ForbiddenAutoUpgrade =>
        case OtherDirective => warnings := warnings + [UnknownDirective];
      }
    }
    assert header[..|header|] == header;
    LineOfIsInForce(header);
  }

  lemma OneMoreLine(header: seq<Directive>, d: Directive)
    ensures LineOf(header + [d]) == (if LineOf([d]).Some? then LineOf([d]) else LineOf(header))
    ensures HeaderWarnings(header + [d]) == HeaderWarnings(header) + LineWarnings(d)
  {
    hide IntervalOf, StrictOf, LineWarnings;
    assert (header + [d])[..|header|] == header && [d][..0] == [];
  }

  /** Of two headers read as one, the second has its way where it has a line in force, and both are told of. */
  lemma {:induction false} SecondHasItsWay(first: seq<Directive>, second: seq<Directive>)
    ensures LineOf(first + second) == if LineOf(second).Some? then LineOf(second) else LineOf(first)
    ensures HeaderWarnings(first + second) == HeaderWarnings(first) + HeaderWarnings(second)
    decreases |second|
  {
    hide LineOf, HeaderWarnings;
    if second == [] {
      assert first + second == first;
      NothingInForce();
    } else {
      var front, last := second[..|second| - 1], second[|second| - 1];
      SecondHasItsWay(first, front);
      assert second == front + [last] && first + second == (first + front) + [last];
      OneMoreLine(front, last);
      OneMoreLine(first + front, last);
    }
  }

  lemma NothingInForce()
    ensures LineOf([]) == None && HeaderWarnings([]) == []
  {
  }

  // ---------- the walk ----------

  /** A downloaded copy: its header, the file it is kept in, and when it was fetched. */
  datatype Copy = Copy(header: seq<Directive>, file: string, fetchedAt: nat)

  datatype Remote = Missing(why: Option<string>) | Text(copy: Copy)

  /** What was downloaded for each address; a load asks for an address once. */
  type Source = Url -> Remote

  datatype Stop = Stop(address: Url, file: Option<string>)

  datatype End = NotFound(why: Option<string>) | Found | NoLine | NoWayOut

  datatype Held = Held(copy: Copy, line: Option<Line>)

  datatype Walk = Walk(stops: seq<Stop>, end: End, last: Option<Held>, newest: Option<nat>)

  /** The address the copy of `a` names. */
  function Named(source: Source, a: Url): Option<Url> {
    match source(a)
    case Missing(_) => None
    case Text(copy) =>
      match LineOf(copy.header)
      case None => None
      case Some(line) => Some(line.address)
  }

  /** Where the lines lead in `k` changes, whatever was passed on the way. */
  function Orbit(source: Source, start: Url, k: nat): Option<Url> {
    if k == 0 then Some(start)
    else match Orbit(source, start, k - 1)
      case None => None
      case Some(a) => Named(source, a)
  }

  ghost predicate At(source: Source, start: Url, k: nat, a: Url) {
    Orbit(source, start, k) == Some(a)
  }

  /** After `k` changes the lines come to an address whose copy names itself. */
  ghost predicate Home(source: Source, start: Url, k: nat) {
    Orbit(source, start, k).Some? && Named(source, Orbit(source, start, k).value) == Orbit(source, start, k)
  }

  /** After `k` changes they come to an address that has no copy. */
  ghost predicate Lost(source: Source, start: Url, k: nat) {
    Orbit(source, start, k).Some? && source(Orbit(source, start, k).value).Missing?
  }

  /** After `k` changes they come to a copy without a line. */
  ghost predicate Lineless(source: Source, start: Url, k: nat) {
    Orbit(source, start, k).Some? && source(Orbit(source, start, k).value).Text?
    && LineOf(source(Orbit(source, start, k).value).copy.header).None?
  }

  /** The lines lead on from every address they come to in `k` changes. */
  ghost predicate LeadsOn(source: Source, start: Url, k: nat) {
    forall j :: 0 <= j <= k ==> Orbit(source, start, j).Some? && !Home(source, start, j) && !Lost(source, start, j)
                                && !Lineless(source, start, j)
  }

  ghost predicate Distinct(stops: seq<Stop>) {
    forall i, j :: 0 <= i < j < |stops| ==> stops[i].address != stops[j].address
  }

  function FileOf(source: Source, a: Url): Option<string> {
    match source(a)
    case Missing(_) => None
    case Text(copy) => Some(copy.file)
  }

  /** The stops are the first places of the orbit, each with the file kept for it. */
  ghost predicate OnOrbit(source: Source, start: Url, stops: seq<Stop>) {
    forall k :: 0 <= k < |stops| ==>
      At(source, start, k, stops[k].address) && stops[k].file == FileOf(source, stops[k].address)
  }

  /** An address that was passed comes again: from then on the lines go around in a circle. */
  lemma {:induction false} Circle(source: Source, start: Url, i: nat, m: nat, n: nat) returns (j: nat)
    requires i <= m && forall k :: 0 <= k <= m ==> Orbit(source, start, k).Some?
    requires Orbit(source, start, m + 1) == Orbit(source, start, i)
    ensures j <= m && Orbit(source, start, n) == Orbit(source, start, j)
    decreases n
  {
    hide Named;
    j := 0;
    if n > 0 {
      j := Circle(source, start, i, m, n - 1);
      assert Orbit(source, start, n) == Orbit(source, start, j + 1);
      j := if j == m then i else j + 1;
    }
  }

  lemma CircleLeadsOn(source: Source, start: Url, i: nat, m: nat, n: nat)
    requires i <= m && LeadsOn(source, start, m)
    requires Orbit(source, start, m + 1) == Orbit(source, start, i)
    ensures LeadsOn(source, start, n)
  {
    forall k | 0 <= k <= n ensures Orbit(source, start, k).Some? && !Home(source, start, k) && !Lost(source, start, k)
                                   && !Lineless(source, start, k) {
      var j := Circle(source, start, i, m, k);
    }
  }

  /** The newest of two times, the second one known. */
  function Newer(a: Option<nat>, b: nat): Option<nat> {
    if a.Some? && a.value >= b then a else Some(b)
  }

  function AddNewest(newest: Option<nat>, remote: Remote): Option<nat> {
    match remote
    case Missing(_) => newest
    case Text(copy) => Newer(newest, copy.fetchedAt)
  }

  function AddLast(last: Option<Held>, remote: Remote): Option<Held> {
    match remote
    case Missing(_) => last
    case Text(copy) => Some(Held(copy, LineOf(copy.header)))
  }

  /** The time of the newest copy the stops have. */
  function NewestOf(source: Source, stops: seq<Stop>): Option<nat> {
    if stops == [] then None
    else AddNewest(NewestOf(source, stops[..|stops| - 1]), source(stops[|stops| - 1].address))
  }

  /** The last copy the stops have. */
  function LastOf(source: Source, stops: seq<Stop>): Option<Held> {
    if stops == [] then None
    else AddLast(LastOf(source, stops[..|stops| - 1]), source(stops[|stops| - 1].address))
  }

  /** What a walk is: a stretch of the orbit, without an address twice, that ends as the orbit does. */
  ghost predicate IsWalk(source: Source, start: Url, w: Walk) {
    && 1 <= |w.stops| <= MOST_CHANGES + 1
    && Distinct(w.stops) && OnOrbit(source, start, w.stops)
    && w.last == LastOf(source, w.stops) && w.newest == NewestOf(source, w.stops)
    && (forall k :: 0 <= k < |w.stops| - 1 ==> !Home(source, start, k))
    && EndsLikeOrbit(source, start, w)
  }

  /** How the walk ends is how the orbit does within eight changes. */
  ghost predicate EndsLikeOrbit(source: Source, start: Url, w: Walk)
    requires w.stops != []
  {
    && (w.end.Found? <==> exists k :: 0 <= k <= MOST_CHANGES && Home(source, start, k))
    && (w.end.NotFound? <==> exists k :: 0 <= k <= MOST_CHANGES && Lost(source, start, k))
    && (w.end.NoLine? <==> exists k :: 0 <= k <= MOST_CHANGES && Lineless(source, start, k))
    && (w.end.NoWayOut? <==> LeadsOn(source, start, MOST_CHANGES))
    && (w.end.NotFound? ==> source(w.stops[|w.stops| - 1].address) == Missing(w.end.why))
    && (w.end.Found? ==> Home(source, start, |w.stops| - 1))
    && (w.end.NoLine? ==> Lineless(source, start, |w.stops| - 1))
    && (w.end.NoWayOut? ==> |w.stops| == MOST_CHANGES + 1
                            || exists stop <- w.stops :: At(source, start, |w.stops|, stop.address))
  }

  /** The orbit stays at home once it is there, and is nowhere once it is lost or has no line. */
  lemma {:induction false} EndsThere(source: Source, start: Url, m: nat, n: nat)
    requires m <= n && Orbit(source, start, m).Some?
    requires Home(source, start, m) || Lost(source, start, m) || Lineless(source, start, m)
    ensures Home(source, start, m) ==> Orbit(source, start, n) == Orbit(source, start, m)
    ensures !Home(source, start, m) && n > m ==> Orbit(source, start, n).None?
    decreases n
  {
    if n > m {
      EndsThere(source, start, m, n - 1);
    }
  }

  /** Where the lines end, they end for good. */
  lemma Terminal(source: Source, start: Url, n: nat)
    requires n <= MOST_CHANGES && (n > 0 ==> LeadsOn(source, start, n - 1))
    requires Home(source, start, n) || Lost(source, start, n) || Lineless(source, start, n)
    ensures (exists k :: 0 <= k <= MOST_CHANGES && Home(source, start, k)) <==> Home(source, start, n)
    ensures (exists k :: 0 <= k <= MOST_CHANGES && Lost(source, start, k)) <==> Lost(source, start, n)
    ensures (exists k :: 0 <= k <= MOST_CHANGES && Lineless(source, start, k)) <==> Lineless(source, start, n)
    ensures !LeadsOn(source, start, MOST_CHANGES)
  {
    forall k | 0 <= k <= MOST_CHANGES
      ensures Home(source, start, k) ==> Home(source, start, n)
      ensures Lost(source, start, k) ==> Lost(source, start, n)
      ensures Lineless(source, start, k) ==> Lineless(source, start, n)
    {
      if k >= n {
        EndsThere(source, start, n, k);
      }
    }
  }

  /** Where they lead on for eight changes, they end nowhere on the way. */
  lemma NoTerminal(source: Source, start: Url)
    requires LeadsOn(source, start, MOST_CHANGES)
    ensures forall k :: 0 <= k <= MOST_CHANGES ==>
              !Home(source, start, k) && !Lost(source, start, k) && !Lineless(source, start, k)
  {
  }

  /** One more stop, at the address the orbit has come to. */
  lemma OneMoreStop(source: Source, start: Url, stops: seq<Stop>, at: Url)
    requires Distinct(stops) && OnOrbit(source, start, stops) && At(source, start, |stops|, at)
    requires forall k :: 0 <= k < |stops| ==> stops[k].address != at
    ensures var more := stops + [Stop(at, FileOf(source, at))];
            && Distinct(more) && OnOrbit(source, start, more)
            && NewestOf(source, more) == AddNewest(NewestOf(source, stops), source(at))
            && LastOf(source, more) == AddLast(LastOf(source, stops), source(at))
  {
    hide At, FileOf, NewestOf, LastOf, AddNewest, AddLast, Distinct;
    StillDistinct(stops, Stop(at, FileOf(source, at)));
    LastStop(source, stops, Stop(at, FileOf(source, at)));
  }

  lemma StillDistinct(stops: seq<Stop>, stop: Stop)
    requires Distinct(stops) && forall k :: 0 <= k < |stops| ==> stops[k].address != stop.address
    ensures Distinct(stops + [stop])
  {
  }

  lemma LastStop(source: Source, stops: seq<Stop>, stop: Stop)
    ensures NewestOf(source, stops + [stop]) == AddNewest(NewestOf(source, stops), source(stop.address))
    ensures LastOf(source, stops + [stop]) == AddLast(LastOf(source, stops), source(stop.address))
  {
    hide AddNewest, AddLast;
    assert (stops + [stop])[..|stops|] == stops;
  }

  /** Walks along the copies: a stretch of the orbit of at most nine addresses, none of them asked for twice. */
  method WalkAlong(start: Url, source: Source) returns (w: Walk)
    ensures IsWalk(source, start, w)
  {
    hide LineOf, InForce, HeaderWarnings, Home, Lost, Lineless, LeadsOn, OnOrbit, Distinct, At, NewestOf, LastOf, Orbit;
    var stops: seq<Stop> := [];
    var last: Option<Held> := None;
    var newest: Option<nat> := None;
    var at := start;
    Starts(source, start);
    while true
      invariant |stops| <= MOST_CHANGES
      invariant At(source, start, |stops|, at) && Distinct(stops) && OnOrbit(source, start, stops)
      invariant forall k :: 0 <= k < |stops| ==> stops[k].address != at
      invariant |stops| > 0 ==> LeadsOn(source, start, |stops| - 1)
      invariant last == LastOf(source, stops) && newest == NewestOf(source, stops)
      decreases MOST_CHANGES - |stops|
    {
      ghost var n := |stops|;
      OneMoreStop(source, start, stops, at);
      WhatIsAt(source, start, n, at);
      match source(at) {
        case Missing(why) =>
          stops := stops + [Stop(at, None)];
          Ended(source, start, n, Walk(stops, NotFound(why), last, newest));
          return Walk(stops, NotFound(why), last, newest);
        case Text(copy) =>
          var line, _ := Find(copy.header);
          newest := Newer(newest, copy.fetchedAt);
          stops := stops + [Stop(at, Some(copy.file))];
          last := Some(Held(copy, line));
          if line.None? {
            Ended(source, start, n, Walk(stops, NoLine, last, newest));
            return Walk(stops, NoLine, last, newest);
          }
          var next := line.value.address;
          if next == at {
            Ended(source, start, n, Walk(stops, Found, last, newest));
            return Walk(stops, Found, last, newest);
          }
          var visited := exists stop <- stops :: stop.address == next;
          if |stops| > MOST_CHANGES || visited {
            NoWay(source, start, Walk(stops, NoWayOut, last, newest), next);
            return Walk(stops, NoWayOut, last, newest);
          }
          at := next;
      }
    }
  }

  /** A walk has nine stops at most, and gives up at the ninth or where an address would come again. */
  lemma WalkIsShort(source: Source, start: Url, w: Walk)
    requires IsWalk(source, start, w)
    ensures 1 <= |w.stops| <= 9
    ensures w.end.NoWayOut? ==> |w.stops| == 9 || exists stop <- w.stops :: At(source, start, |w.stops|, stop.address)
  {
    hide LineOf, Distinct, OnOrbit, LastOf, NewestOf, Home, Lost, Lineless, At;
  }

  lemma Starts(source: Source, start: Url)
    ensures At(source, start, 0, start) && Distinct([]) && OnOrbit(source, start, [])
    ensures LastOf(source, []) == None && NewestOf(source, []) == None
  {
  }

  /** How the orbit goes on from the address it has come to. */
  lemma WhatIsAt(source: Source, start: Url, n: nat, at: Url)
    requires At(source, start, n, at) && (n > 0 ==> LeadsOn(source, start, n - 1))
    ensures Lost(source, start, n) <==> source(at).Missing?
    ensures Lineless(source, start, n) <==> source(at).Text? && LineOf(source(at).copy.header).None?
    ensures Home(source, start, n) <==> Named(source, at) == Some(at)
    ensures Named(source, at).Some? ==>
              && At(source, start, n + 1, Named(source, at).value)
              && (Named(source, at) != Some(at) ==> LeadsOn(source, start, n))
    ensures source(at).Text? ==>
              var line := LineOf(source(at).copy.header);
              Named(source, at) == if line.Some? then Some(line.value.address) else None
  {
  }

  lemma Ended(source: Source, start: Url, n: nat, w: Walk)
    requires n <= MOST_CHANGES && |w.stops| == n + 1 && (n > 0 ==> LeadsOn(source, start, n - 1))
    requires Distinct(w.stops) && OnOrbit(source, start, w.stops)
    requires w.last == LastOf(source, w.stops) && w.newest == NewestOf(source, w.stops)
    requires match w.end
             case Found => Home(source, start, n)
             case NotFound(why) => source(w.stops[n].address) == Missing(why)
             case NoLine => Lineless(source, start, n)
             case NoWayOut => false
    ensures IsWalk(source, start, w)
  {
    assert At(source, start, n, w.stops[n].address);
    Terminal(source, start, n);
  }

  lemma NoWay(source: Source, start: Url, w: Walk, next: Url)
    requires 1 <= |w.stops| <= MOST_CHANGES + 1 && LeadsOn(source, start, |w.stops| - 1) && w.end == NoWayOut
    requires Distinct(w.stops) && OnOrbit(source, start, w.stops)
    requires w.last == LastOf(source, w.stops) && w.newest == NewestOf(source, w.stops)
    requires At(source, start, |w.stops|, next)
    requires |w.stops| > MOST_CHANGES || exists stop <- w.stops :: stop.address == next
    ensures IsWalk(source, start, w)
  {
    if i :| 0 <= i < |w.stops| && w.stops[i].address == next {
      assert At(source, start, i, next);
      CircleLeadsOn(source, start, i, |w.stops| - 1, MOST_CHANGES);
    }
    NoTerminal(source, start);
  }

  // ---------- the choice ----------

  datatype Role = ManagedProfile | ManagedHop

  datatype RemoteRef = RemoteRef(url: Url, role: Role, file: Option<string>, interval: nat, strict: bool)

  /** What the user is told. */
  datatype Note =
    | NotDownloaded(why: Option<string>)
    | LocalInEffect
    | CopyInEffect(file: string)
    | LeadsToAnother(file: string)
    | NoLongerUpdated
    | LeadsTooFar

  datatype Choice = Choice(copy: Option<Copy>, remote: seq<RemoteRef>, notes: seq<Note>)

  /** An edit keeps the local file only if it can be dated between the newest copy of the walk and now. */
  predicate KeepsLocal(w: Walk, hasSection: bool, modified: Option<nat>, now: nat) {
    || w.last.None?
    || (hasSection && modified.Some? && w.newest.Some? && w.newest.value < modified.value <= now)
  }

  ghost predicate HasCopy(source: Source, stops: seq<Stop>, k: int)
    requires 0 <= k < |stops|
  {
    source(stops[k].address).Text?
  }

  /** The copy a walk holds is the one of the last of its stops that has any, with the line of that copy. */
  lemma LastCopyIs(source: Source, start: Url, w: Walk)
    requires IsWalk(source, start, w)
    ensures w.last.None? <==> forall k :: 0 <= k < |w.stops| ==> !HasCopy(source, w.stops, k)
    ensures forall k :: 0 <= k < |w.stops| && HasCopy(source, w.stops, k)
                        && (forall m :: k < m < |w.stops| ==> !HasCopy(source, w.stops, m)) ==>
              var copy := source(w.stops[k].address).copy; w.last == Some(Held(copy, LineOf(copy.header)))
  {
    hide LineOf, OnOrbit, Distinct, EndsLikeOrbit, NewestOf, LastOf, HasCopy;
    LastOfIs(source, w.stops);
  }

  lemma {:induction false} LastOfIs(source: Source, stops: seq<Stop>)
    ensures LastOf(source, stops).None? <==> forall k :: 0 <= k < |stops| ==> !HasCopy(source, stops, k)
    ensures forall k :: 0 <= k < |stops| && HasCopy(source, stops, k)
                        && (forall m :: k < m < |stops| ==> !HasCopy(source, stops, m)) ==>
              var copy := source(stops[k].address).copy; LastOf(source, stops) == Some(Held(copy, LineOf(copy.header)))
    decreases |stops|
  {
    hide LineOf;
    if stops != [] {
      var n := |stops| - 1;
      var front := stops[..n];
      LastOfIs(source, front);
      assert forall k :: 0 <= k < n ==> (HasCopy(source, stops, k) <==> HasCopy(source, front, k));
      if !HasCopy(source, stops, n) {
        assert LastOf(source, stops) == LastOf(source, front);
      }
      forall k | 0 <= k < |stops| && HasCopy(source, stops, k)
                 && (forall m :: k < m < |stops| ==> !HasCopy(source, stops, m))
        ensures var copy := source(stops[k].address).copy;
                LastOf(source, stops) == Some(Held(copy, LineOf(copy.header)))
      {
        if k < n {
          assert !HasCopy(source, stops, n);
          assert HasCopy(source, front, k) && forall m :: k < m < n ==> !HasCopy(source, front, m);
        }
      }
    }
  }

  lemma {:induction false} NewestIsBefore(source: Source, stops: seq<Stop>, t: nat)
    ensures NewestOf(source, stops).None? <==> forall k :: 0 <= k < |stops| ==> !HasCopy(source, stops, k)
    ensures NewestOf(source, stops).Some? && NewestOf(source, stops).value < t ==>
              forall k :: 0 <= k < |stops| && HasCopy(source, stops, k) ==> source(stops[k].address).copy.fetchedAt < t
    ensures NewestOf(source, stops).Some? && NewestOf(source, stops).value >= t ==>
              exists k :: 0 <= k < |stops| && HasCopy(source, stops, k) && source(stops[k].address).copy.fetchedAt >= t
    decreases |stops|
  {
    if stops != [] {
      var n := |stops| - 1;
      var front := stops[..n];
      NewestIsBefore(source, front, t);
      assert forall k :: 0 <= k < n ==> (HasCopy(source, stops, k) <==> HasCopy(source, front, k));
      assert NewestOf(source, stops).None? <==> NewestOf(source, front).None? && !HasCopy(source, stops, n);
      if NewestOf(source, stops).Some? && NewestOf(source, stops).value >= t {
        if NewestOf(source, front).Some? && NewestOf(source, front).value >= t {
          var k :| 0 <= k < n && HasCopy(source, front, k) && source(front[k].address).copy.fetchedAt >= t;
          assert HasCopy(source, stops, k);
        } else {
          assert HasCopy(source, stops, n);
        }
      }
    }
  }

  /**
   The local file is kept exactly if no stop has a copy, or there is a section in it and its change is later than
   the download of each copy of the walk, and not later than now.
   */
  lemma KeepsLocalExactlyWhen(source: Source, start: Url, w: Walk, hasSection: bool, modified: Option<nat>, now: nat)
    requires IsWalk(source, start, w)
    ensures KeepsLocal(w, hasSection, modified, now) <==>
            || (forall k :: 0 <= k < |w.stops| ==> !HasCopy(source, w.stops, k))
            || (hasSection && modified.Some? && modified.value <= now
                && forall k :: 0 <= k < |w.stops| && HasCopy(source, w.stops, k) ==>
                                 source(w.stops[k].address).copy.fetchedAt < modified.value)
  {
    hide OnOrbit, Distinct, EndsLikeOrbit, NewestOf, LastOf, HasCopy, LineOf;
    LastOfIs(source, w.stops);
    NewestIsBefore(source, w.stops, if modified.Some? then modified.value else 0);
  }

  /** Whose interval and strictness the managed profile gets. */
  function UpdatedBy(local: Line, w: Walk, keepsLocal: bool): Line {
    if !keepsLocal && w.last.Some? && w.last.value.line.Some? then w.last.value.line.value else local
  }

  /**
   How the choice follows from the walk: every stop but the last is a hop, the last one is not unless a copy
   without a line is in effect, and its interval and strictness come from a line that leads to it.
   */
  ghost predicate Follows(local: Line, w: Walk, keepsLocal: bool, choice: Choice)
    requires w.stops != []
  {
    var n := |w.stops|;
    && |choice.remote| == n
    && (keepsLocal ==> choice.copy.None?)
    && (!keepsLocal ==> w.last.Some? && choice.copy == Some(w.last.value.copy))
    && (forall k :: 0 <= k < n ==>
          choice.remote[k].url == w.stops[k].address && choice.remote[k].file == w.stops[k].file)
    && (forall k :: 0 <= k < n && choice.remote[k].role == ManagedHop ==>
                      choice.remote[k].interval == 86400 && !choice.remote[k].strict)
    && (forall k :: 0 <= k < n - 1 ==> choice.remote[k].role == ManagedHop)
    && var end := choice.remote[n - 1];
       && (end.role == ManagedProfile <==> keepsLocal || w.end != NoLine)
       && (local.interval >= SHORTEST_INTERVAL ==> end.interval >= SHORTEST_INTERVAL)
       && (keepsLocal ==> end.interval == local.interval && end.strict == local.strict)
       && (!keepsLocal && w.end != NoLine ==>
             var line := w.last.value.line;
             && line.Some? && end.interval == line.value.interval && end.strict == line.value.strict
             && (w.end != NoWayOut ==> line.value.address == end.url))
  }

  /**
   What is said: what there is to download, which text is in effect and in which file it stands, which file's
   line leads on to another address, and why the profile is no longer updated.
   */
  ghost predicate Tells(w: Walk, keepsLocal: bool, notes: seq<Note>) {
    && (forall note <- notes :: note.NotDownloaded? ==> w.end == NotFound(note.why))
    && (w.end.NotFound? <==> NotDownloaded(if w.end.NotFound? then w.end.why else None) in notes)
    && (LocalInEffect in notes <==> keepsLocal && w.last.Some?)
    && (!keepsLocal <==> exists file :: CopyInEffect(file) in notes)
    && (forall file :: CopyInEffect(file) in notes ==> w.last.Some? && file == w.last.value.copy.file)
    && (!keepsLocal && |w.stops| > 1 <==> exists file :: LeadsToAnother(file) in notes)
    && (forall file :: LeadsToAnother(file) in notes ==> w.stops != [] && w.stops[0].file == Some(file))
    && (NoLongerUpdated in notes <==> !keepsLocal && w.end == NoLine)
    && (LeadsTooFar in notes <==> !keepsLocal && w.end == NoWayOut)
  }

  /** The last copy of a walk, and what its line names: the last address, unless the walk found no way out. */
  lemma LineThatNamesTheEnd(source: Source, start: Url, w: Walk)
    requires IsWalk(source, start, w)
    ensures w.stops != [] && (|w.stops| > 1 ==> w.stops[0].file.Some?)
    ensures !w.end.NotFound? ==> w.last.Some?
    ensures w.last.Some? && w.end != NoLine ==>
              w.last.value.line.Some? && w.last.value.line.value.interval >= SHORTEST_INTERVAL
    ensures w.last.Some? && w.end != NoLine && w.end != NoWayOut ==>
              w.last.value.line.value.address == w.stops[|w.stops| - 1].address
  {
    hide NewestOf;
    var n := |w.stops|;
    var front := w.stops[..n - 1];
    assert At(source, start, n - 1, w.stops[n - 1].address);
    if n > 1 {
      CopiesOnTheWay(source, start, w);
    }
    match w.end {
      case NotFound(why) =>
        assert LastOf(source, w.stops) == LastOf(source, front);
        assert n == 1 ==> front == [];
      case NoWayOut =>
        assert !Home(source, start, n - 1) && !Lost(source, start, n - 1) && !Lineless(source, start, n - 1);
      case _ =>
    }
  }

  /** Of more than one stop, the first and the last but one have copies, and the latter names the last stop. */
  lemma CopiesOnTheWay(source: Source, start: Url, w: Walk)
    requires |w.stops| > 1 && OnOrbit(source, start, w.stops)
    ensures w.stops[0].file.Some?
    ensures source(w.stops[|w.stops| - 1].address).Missing? ==>
              var before := w.stops[|w.stops| - 2].address;
              && Named(source, before) == Some(w.stops[|w.stops| - 1].address)
              && LastOf(source, w.stops) == AddLast(LastOf(source, w.stops[..|w.stops| - 2]), source(before))
  {
    hide LineOf;
    var n := |w.stops|;
    assert At(source, start, 0, w.stops[0].address) && At(source, start, n - 2, w.stops[n - 2].address);
    assert At(source, start, n - 1, w.stops[n - 1].address);
    OrbitComesFrom(source, start, 1, n - 1);
    var front := w.stops[..n - 1];
    assert front[n - 2] == w.stops[n - 2] && front[..n - 2] == w.stops[..n - 2];
  }

  lemma {:induction false} OrbitComesFrom(source: Source, start: Url, k: nat, n: nat)
    requires k <= n && Orbit(source, start, n).Some?
    ensures Orbit(source, start, k).Some?
    decreases n
  {
    if k < n {
      OrbitComesFrom(source, start, k, n - 1);
    }
  }

  /** There is one walk from each address. */
  lemma WalkIsUnique(source: Source, start: Url, v: Walk, w: Walk)
    requires IsWalk(source, start, v) && IsWalk(source, start, w)
    ensures v == w
  {
    hide LineOf;
    NoLonger(source, start, v, w);
    NoLonger(source, start, w, v);
    forall k | 0 <= k < |v.stops| ensures v.stops[k] == w.stops[k] {
      SameStop(source, start, v, w, k);
    }
    assert v.stops == w.stops;
  }

  lemma SameStop(source: Source, start: Url, v: Walk, w: Walk, i: nat)
    requires OnOrbit(source, start, v.stops) && OnOrbit(source, start, w.stops) && i < |v.stops| && i < |w.stops|
    ensures v.stops[i] == w.stops[i]
  {
    assert At(source, start, i, v.stops[i].address) && At(source, start, i, w.stops[i].address);
  }

  lemma NoLonger(source: Source, start: Url, v: Walk, w: Walk)
    requires IsWalk(source, start, v) && IsWalk(source, start, w)
    ensures |w.stops| <= |v.stops|
  {
    hide LineOf;
    var n := |v.stops|;
    if |w.stops| > n {
      assert At(source, start, n - 1, v.stops[n - 1].address) && At(source, start, n, w.stops[n].address);
      if v.end.NoWayOut? {
        var i :| 0 <= i < n && At(source, start, n, v.stops[i].address);
        SameStop(source, start, v, w, i);
        assert false;
      }
    }
  }

  /** The choice that goes with the walk, which is the only one. */
  method Choose(local: Line, hasSection: bool, modified: Option<nat>, source: Source, now: nat) returns (choice: Choice)
    ensures exists w :: IsWalk(source, local.address, w)
    ensures forall w :: IsWalk(source, local.address, w) ==>
              && Follows(local, w, KeepsLocal(w, hasSection, modified, now), choice)
              && Tells(w, KeepsLocal(w, hasSection, modified, now), choice.notes)
  {
    hide IsWalk, LineOf;
    var walk := WalkAlong(local.address, source);
    forall w | IsWalk(source, local.address, w) ensures w == walk {
      WalkIsUnique(source, local.address, walk, w);
    }
    LineThatNamesTheEnd(source, local.address, walk);
    var keepsLocal := walk.last.None? || (hasSection && modified.Some? && walk.newest.Some?
                                          && modified.value > walk.newest.value && modified.value <= now);
    var notes := Notes(walk, keepsLocal);
    var updated := keepsLocal || walk.end != NoLine;
    var line := UpdatedBy(local, walk, keepsLocal);
    var remote := seq(|walk.stops|, at requires 0 <= at < |walk.stops| => RefOf(walk, at, updated, line));
    choice := Choice(if keepsLocal then None else Some(walk.last.value.copy), remote, notes);
  }

  method Notes(w: Walk, keepsLocal: bool) returns (notes: seq<Note>)
    requires w.last.None? ==> keepsLocal
    requires w.stops != [] && (|w.stops| > 1 ==> w.stops[0].file.Some?)
    ensures Tells(w, keepsLocal, notes)
  {
    notes := [];
    if w.end.NotFound? {
      notes := notes + [NotDownloaded(w.end.why)];
    }
    if w.last.Some? {
      if keepsLocal {
        notes := notes + [LocalInEffect];
      } else {
        notes := notes + [CopyInEffect(w.last.value.copy.file)];
        assert CopyInEffect(w.last.value.copy.file) in notes;
        var first := w.stops[0].file;
        if |w.stops| > 1 && first.Some? {
          notes := notes + [LeadsToAnother(first.value)];
          assert LeadsToAnother(first.value) in notes;
        }
        match w.end {
          case NoLine => notes := notes + [NoLongerUpdated];
          case NoWayOut => notes := notes + [LeadsTooFar];
          case _ =>
        }
      }
    }
  }

  function RefOf(w: Walk, at: nat, updated: bool, line: Line): RemoteRef
    requires at < |w.stops|
  {
    var managed := updated && at + 1 == |w.stops|;
    RemoteRef(w.stops[at].address, if managed then ManagedProfile else ManagedHop, w.stops[at].file,
              if managed then line.interval else DEFAULT_INTERVAL, managed && line.strict)
  }
}
