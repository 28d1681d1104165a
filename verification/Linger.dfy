/**
 The connections of the API and the three things each may own: its stream, its token with the tracker
 and a place among those that linger. Tasks run side by side; every step below may come between any
 two others. Where a connection's code stands (`pc`) and what it owns (the flags) are kept apart: that
 they fit together is what the runs prove.
 */
module Linger {
  datatype Pc =
    | Accepting        // the listener has the stream and takes a token next
    | Serving
    | Closing          // in the destructor, before anything was asked
    | Asking(seen: nat)  // the counter was read as `seen`
    | Refused          // no place or no runtime: the destructor drops the stream next
    | Returning        // the destructor returns, and drops the token on the way
    | Reading          // the task reads away what still comes
    | Finishing        // it has read enough: the stream is next
    | StreamDropped    // the place is next
    | PlaceDropped     // the token is next
    | Unwinding        // the runtime drops the task, and what it owns in some order
    | Done

  datatype Conn = Conn(pc: Pc, stream: bool, place: bool, token: bool)

  datatype State = State(conns: map<nat, Conn>, lingering: int)

  ghost function Places(s: State): set<nat> {
    set c | c in s.conns && s.conns[c].place
  }

  ghost function Tracked(s: State): set<nat> {
    set c | c in s.conns && s.conns[c].token
  }

  ghost function OpenStreams(s: State): set<nat> {
    set c | c in s.conns && s.conns[c].stream
  }

  // ---------- the steps ----------

  datatype Step =
    | Accept
    | Count
    | LetGo
    | NoRuntime
    | Load
    | NoRoom
    | Swap          // the compare-and-swap succeeds
    | SwapFails     // the counter has changed, or the attempt failed of itself: it is read again
    | ReadOut
    | DropStream
    | DropPlace
    | DropToken
    | Abandon
    | Reap          // the runtime has dropped all the task owned

  /** What the code of one connection does in a step; a drop does not look whether there is anything to drop. */
  ghost predicate Moves(p: Conn, step: Step, q: Conn, lingering: int, max: nat) {
    match step
    case Accept => false
    case Count => p.pc == Accepting && q == p.(pc := Serving, token := true)
    case LetGo => p.pc == Serving && q == p.(pc := Closing)
    case NoRuntime => p.pc == Closing && q == p.(pc := Refused)
    case Load => p.pc == Closing && lingering >= 0 && q == p.(pc := Asking(lingering))
    case NoRoom => p.pc.Asking? && p.pc.seen >= max && q == p.(pc := Refused)
    case Swap => p.pc.Asking? && p.pc.seen < max && lingering == p.pc.seen && q == p.(pc := Reading, place := true)
    case SwapFails => p.pc.Asking? && p.pc.seen < max && lingering >= 0 && q == p.(pc := Asking(lingering))
    case ReadOut => p.pc == Reading && q == p.(pc := Finishing)
    case DropStream =>
      || (p.pc == Refused && q == p.(pc := Returning, stream := false))
      || (p.pc == Finishing && q == p.(pc := StreamDropped, stream := false))
      || (p.pc == Unwinding && p.stream && q == p.(stream := false))
    case DropPlace =>
      || (p.pc == StreamDropped && q == p.(pc := PlaceDropped, place := false))
      || (p.pc == Unwinding && p.place && q == p.(place := false))
    case DropToken =>
      || ((p.pc == Returning || p.pc == PlaceDropped) && q == p.(pc := Done, token := false))
      || (p.pc == Unwinding && p.token && q == p.(token := false))
    case Abandon => p.pc == Reading && q == p.(pc := Unwinding)
    case Reap => p.pc == Unwinding && !p.stream && !p.place && !p.token && q == p.(pc := Done)
  }

  /** How a step changes the counter. */
  function Change(step: Step): int {
    match step
    case Swap => 1
    case DropPlace => -1
    case _ => 0
  }

  const FRESH := Conn(Accepting, true, false, false)

  ghost predicate Next(s: State, c: nat, step: Step, s': State, max: nat) {
    if step == Accept then c !in s.conns && s' == s.(conns := s.conns[c := FRESH])
    else
      && c in s.conns && c in s'.conns
      && Moves(s.conns[c], step, s'.conns[c], s.lingering, max)
      && s' == State(s.conns[c := s'.conns[c]], s.lingering + Change(step))
  }

  const START := State(map[], 0)

  ghost predicate Related(s: State, s': State, max: nat) {
    exists c, step :: Next(s, c, step, s', max)
  }

  /** A run: states, each one step of some connection after the one before. */
  ghost predicate IsRun(run: seq<State>, max: nat) {
    && run != [] && run[0] == START
    && forall i :: 0 <= i < |run| - 1 ==> Related(run[i], run[i + 1], max)
  }

  // ---------- what the code owns, where it stands ----------

  /** What a connection owns is settled by where its code stands, but for a task that is being unwound. */
  ghost predicate FlagsFit(p: Conn) {
    !p.pc.Unwinding? ==>
      && (p.stream <==> !p.pc.Returning? && !p.pc.StreamDropped? && !p.pc.PlaceDropped? && !p.pc.Done?)
      && (p.place <==> p.pc.Reading? || p.pc.Finishing? || p.pc.StreamDropped?)
      && (p.token <==> !p.pc.Accepting? && !p.pc.Done?)
  }

  /** The flags fit, the counter is the number of places owned, and there are never more than `max`. */
  ghost predicate Good(s: State, max: nat) {
    && s.lingering == |Places(s)| <= max
    && forall c <- s.conns :: FlagsFit(s.conns[c])
  }

  lemma MovesKeepFlags(p: Conn, step: Step, q: Conn, lingering: int, max: nat)
    requires FlagsFit(p) && Moves(p, step, q, lingering, max)
    ensures FlagsFit(q)
    ensures q.place <==> step == Swap || (p.place && step != DropPlace)
    ensures step == Swap ==> !p.place && lingering < max
    ensures step == DropPlace ==> p.place
  {
  }

  /** The places after a step. */
  lemma PlacesAfter(s: State, c: nat, step: Step, s': State, max: nat)
    requires Next(s, c, step, s', max)
    ensures step == Accept ==> Places(s') == Places(s)
    ensures step != Accept ==> Places(s') == if s'.conns[c].place then Places(s) + {c} else Places(s) - {c}
    ensures step != Accept ==> (c in Places(s) <==> s.conns[c].place)
  {
    hide Moves;
  }

  lemma NextKeepsGood(s: State, c: nat, step: Step, s': State, max: nat)
    requires Good(s, max) && Next(s, c, step, s', max)
    ensures Good(s', max)
  {
    hide Moves, Places, FlagsFit;
    PlacesAfter(s, c, step, s', max);
    if step == Accept {
      FreshFits();
    } else {
      MovesKeepFlags(s.conns[c], step, s'.conns[c], s.lingering, max);
      if s.conns[c].place == s'.conns[c].place {
        assert Places(s') == Places(s);
      }
    }
  }

  lemma FreshFits()
    ensures FlagsFit(FRESH)
  {
  }

  lemma {:induction false} RunIsGood(run: seq<State>, max: nat, i: nat)
    requires IsRun(run, max) && i < |run|
    ensures Good(run[i], max)
    decreases i
  {
    if i == 0 {
      assert Places(run[0]) == {};
    } else {
      RunIsGood(run, max, i - 1);
      assert Related(run[i - 1], run[i], max);
      var c, step :| Next(run[i - 1], c, step, run[i], max);
      NextKeepsGood(run[i - 1], c, step, run[i], max);
    }
  }

  /** In every state of every run the counter is exact, is within its bounds, and never goes below zero. */
  lemma CounterIsExact(run: seq<State>, max: nat, i: nat)
    requires IsRun(run, max) && i < |run|
    ensures run[i].lingering == |Places(run[i])| && 0 <= run[i].lingering <= max
  {
    RunIsGood(run, max, i);
  }

  // ---------- the order of the drops ----------

  /** The step of a run from its `i`th state is a step of connection `c`. */
  ghost predicate Takes(run: seq<State>, max: nat, i: nat, c: nat, step: Step) {
    i + 1 < |run| && Next(run[i], c, step, run[i + 1], max)
  }

  /** A connection that is being let go of and has not been answered yet whether there is a place. */
  ghost predicate Waiting(s: State, c: nat) {
    c in s.conns && (s.conns[c].pc == Closing || s.conns[c].pc.Asking?)
  }

  /** A step of any connection leaves `c` as it is, or is its own and leaves it open and in its place but for a drop. */
  lemma StepKeeps(s: State, d: nat, step: Step, s': State, max: nat, c: nat)
    requires Next(s, d, step, s', max) && c in s.conns
    ensures c in s'.conns
    ensures s.conns[c].stream && !s'.conns[c].stream ==> d == c && step == DropStream
    ensures s.conns[c].place && !s'.conns[c].place ==> d == c && step == DropPlace
    ensures s'.conns[c].pc.Asking? && s'.conns[c] != s.conns[c] ==> s'.conns[c].pc.seen == s.lingering
    ensures s'.conns[c].pc.Asking? ==> Waiting(s, c)
  {
    if step != Accept && d == c {
      assert Moves(s.conns[c], step, s'.conns[c], s.lingering, max);
    }
  }

  /** A connection that was not there before is a fresh one. */
  lemma StepBrings(s: State, d: nat, step: Step, s': State, max: nat, c: nat)
    requires Next(s, d, step, s', max) && c !in s.conns && c in s'.conns
    ensures s'.conns[c] == FRESH
  {
    hide Moves;
  }

  /** Connections are only ever added. */
  lemma {:induction false} IsKept(run: seq<State>, max: nat, k: nat, i: nat, c: nat)
    requires IsRun(run, max) && k <= i < |run| && c in run[k].conns
    ensures c in run[i].conns
    decreases i
  {
    hide Moves;
    if k < i {
      IsKept(run, max, k, i - 1, c);
      assert Related(run[i - 1], run[i], max);
    }
  }

  /** A stream that is closed was closed by a step of its connection. */
  lemma {:induction false} StreamWasDropped(run: seq<State>, max: nat, i: nat, c: nat) returns (j: nat)
    requires IsRun(run, max) && i < |run| && c in run[i].conns && !run[i].conns[c].stream
    ensures j < i && Takes(run, max, j, c, DropStream)
    decreases i
  {
    hide Moves, Next;
    j := i - if i > 0 then 1 else 0;
    if i == 0 {
      assert false;
    } else {
      assert Related(run[i - 1], run[i], max);
      var d, step :| Next(run[i - 1], d, step, run[i], max);
      if c !in run[i - 1].conns {
        StepBrings(run[i - 1], d, step, run[i], max, c);
      } else if run[i - 1].conns[c].stream {
        StepKeeps(run[i - 1], d, step, run[i], max, c);
      } else {
        j := StreamWasDropped(run, max, i - 1, c);
      }
    }
  }

  /** A place that was taken and is there no more was given back in between. */
  lemma {:induction false} PlaceWasDropped(run: seq<State>, max: nat, k: nat, i: nat, c: nat) returns (j: nat)
    requires IsRun(run, max) && k <= i < |run| && c in run[k].conns && run[k].conns[c].place
    requires c in run[i].conns && !run[i].conns[c].place
    ensures k <= j < i && Takes(run, max, j, c, DropPlace)
    decreases i
  {
    hide Moves, Next;
    IsKept(run, max, k, i - 1, c);
    assert Related(run[i - 1], run[i], max);
    var d, step :| Next(run[i - 1], d, step, run[i], max);
    if run[i - 1].conns[c].place {
      StepKeeps(run[i - 1], d, step, run[i], max, c);
      j := i - 1;
    } else {
      j := PlaceWasDropped(run, max, k, i - 1, c);
    }
  }

  lemma SwapPlaces(s: State, c: nat, s': State, max: nat)
    requires Next(s, c, Swap, s', max)
    ensures c in s'.conns && s'.conns[c].place
  {
  }

  /**
   In every run, a connection whose own code drops its token has had its stream closed before, and its
   place given back before if it took one: a server that waits for the tokens has waited for both.
   */
  lemma TokenGoesLast(run: seq<State>, max: nat, i: nat, c: nat)
    requires IsRun(run, max) && Takes(run, max, i, c, DropToken) && run[i].conns[c].pc != Unwinding
    ensures exists j: nat :: j < i && Takes(run, max, j, c, DropStream)
    ensures forall k: nat :: k < i && Takes(run, max, k, c, Swap) ==>
                          exists j: nat :: k < j < i && Takes(run, max, j, c, DropPlace)
  {
    RunIsGood(run, max, i);
    DropTokenFrom(run[i], c, run[i + 1], max);
    var j := StreamWasDropped(run, max, i, c);
    forall k: nat | k < i && Takes(run, max, k, c, Swap)
      ensures exists j: nat :: k < j < i && Takes(run, max, j, c, DropPlace)
    {
      SwapPlaces(run[k], c, run[k + 1], max);
      var m := PlaceWasDropped(run, max, k + 1, i, c);
    }
  }

  lemma DropTokenFrom(s: State, c: nat, s': State, max: nat)
    requires Good(s, max) && Next(s, c, DropToken, s', max) && s.conns[c].pc != Unwinding
    ensures !s.conns[c].stream && !s.conns[c].place
  {
    assert FlagsFit(s.conns[c]);
  }

  // ---------- an empty tracker ----------

  /** A task that the runtime drops and that still owns its stream. */
  ghost predicate UnwindsOpen(p: Conn) {
    p.pc == Unwinding && p.stream
  }

  ghost predicate UnwindsPlaced(p: Conn) {
    p.pc == Unwinding && p.place
  }

  /**
   Once no connection holds a token, no stream is open exactly when none is about to be counted and no
   task that the runtime drops still owns its stream; and no place is taken exactly when no such task
   still owns its place.
   */
  lemma EmptyTrackerMeansAllGone(run: seq<State>, max: nat, i: nat)
    requires IsRun(run, max) && i < |run| && Tracked(run[i]) == {}
    ensures OpenStreams(run[i]) == {} <==>
            forall c <- run[i].conns :: run[i].conns[c].pc != Accepting && !UnwindsOpen(run[i].conns[c])
    ensures run[i].lingering == 0 <==> forall c <- run[i].conns :: !UnwindsPlaced(run[i].conns[c])
  {
    var s := run[i];
    RunIsGood(run, max, i);
    forall c <- s.conns
      ensures c in OpenStreams(s) <==> s.conns[c].pc == Accepting || UnwindsOpen(s.conns[c])
      ensures c in Places(s) <==> UnwindsPlaced(s.conns[c])
    {
      assert c !in Tracked(s) && FlagsFit(s.conns[c]);
    }
    if run[i].lingering == 0 {
      assert Places(s) == {};
    }
    if forall c <- s.conns :: !UnwindsPlaced(s.conns[c]) {
      assert Places(s) == {};
    }
  }

  /** However its task ended, a connection that is done owns nothing; when all are done nothing is counted. */
  lemma NothingKeptWhenDone(run: seq<State>, max: nat, i: nat)
    requires IsRun(run, max) && i < |run| && forall c <- run[i].conns :: run[i].conns[c].pc == Done
    ensures Tracked(run[i]) == {} && OpenStreams(run[i]) == {} && run[i].lingering == 0
  {
    var s := run[i];
    RunIsGood(run, max, i);
    forall c <- s.conns ensures c !in Tracked(s) && c !in OpenStreams(s) && c !in Places(s) {
      assert FlagsFit(s.conns[c]);
    }
    assert Places(s) == {};
  }

  lemma RunGrows(run: seq<State>, s: State, max: nat) returns (longer: seq<State>)
    requires IsRun(run, max) && Related(run[|run| - 1], s, max)
    ensures longer == run + [s] && IsRun(longer, max)
  {
    hide Related;
    longer := run + [s];
    assert forall i :: 0 <= i < |run| ==> longer[i] == run[i];
  }

  /** One more step of connection `c`, to `q`. */
  lemma StepGrows(run: seq<State>, c: nat, step: Step, q: Conn, max: nat) returns (longer: seq<State>)
    requires IsRun(run, max) && step != Accept && c in run[|run| - 1].conns
    requires Moves(run[|run| - 1].conns[c], step, q, run[|run| - 1].lingering, max)
    ensures IsRun(longer, max)
    ensures var last := run[|run| - 1];
            longer == run + [State(last.conns[c := q], last.lingering + Change(step))]
  {
    hide Moves;
    var last := run[|run| - 1];
    var s := State(last.conns[c := q], last.lingering + Change(step));
    assert Next(last, c, step, s, max);
    longer := RunGrows(run, s, max);
  }

  /**
   That such a task is an exception, in either order in which its owner lets go of stream, token and place: one
   that was suspended drops the place first and the stream last, and one that never began the other way round.
   A run after which no token is held, and a stream is open or a place taken, but not both.
   */
  lemma AnAbandonedTaskCanOutliveItsToken(max: nat, suspended: bool) returns (run: seq<State>)
    requires max > 0
    ensures IsRun(run, max) && Tracked(run[|run| - 1]) == {}
    ensures OpenStreams(run[|run| - 1]) == (if suspended then {0} else {})
    ensures Places(run[|run| - 1]) == (if suspended then {} else {0})
  {
    hide IsRun;
    run := AcceptAndCount(max);
    run := StepGrows(run, 0, LetGo, Conn(Closing, true, false, true), max);
    run := StepGrows(run, 0, Load, Conn(Asking(0), true, false, true), max);
    run := StepGrows(run, 0, Swap, Conn(Reading, true, true, true), max);
    run := StepGrows(run, 0, Abandon, Conn(Unwinding, true, true, true), max);
    if suspended {
      run := StepGrows(run, 0, DropPlace, Conn(Unwinding, true, false, true), max);
      run := StepGrows(run, 0, DropToken, Conn(Unwinding, true, false, false), max);
    } else {
      run := StepGrows(run, 0, DropStream, Conn(Unwinding, false, true, true), max);
      run := StepGrows(run, 0, DropToken, Conn(Unwinding, false, true, false), max);
    }
    assert run[|run| - 1].conns.Keys == {0};
  }

  lemma AcceptAndCount(max: nat) returns (run: seq<State>)
    ensures IsRun(run, max) && run != []
    ensures run[|run| - 1].lingering == 0 && run[|run| - 1].conns == map[0 := Conn(Serving, true, false, true)]
  {
    var s := State(START.conns[0 := FRESH], 0);
    assert Next(START, 0, Accept, s, max);
    run := RunGrows([START], s, max);
    run := StepGrows(run, 0, Count, Conn(Serving, true, false, true), max);
  }

  // ---------- that each connection comes to its end ----------

  /** At most how many steps a connection still has before it is done, attempts that come too late not counted. */
  function StepsLeft(p: Conn): nat {
    if p.pc.Accepting? then 12
    else if p.pc.Serving? then 11
    else if p.pc.Closing? then 10
    else if p.pc.Asking? then 9
    else if p.pc.Refused? || p.pc.Reading? then 8
    else if p.pc.Returning? || p.pc.Finishing? then 7
    else if p.pc.StreamDropped? then 6
    else if p.pc.PlaceDropped? then 5
    else if p.pc.Unwinding? then
      1 + (if p.stream then 1 else 0) + (if p.place then 1 else 0) + (if p.token then 1 else 0)
    else 0
  }

  /** Every step brings its connection nearer to the end, but for an attempt that came too late. */
  lemma StepsRunOut(p: Conn, step: Step, q: Conn, lingering: int, max: nat)
    requires Moves(p, step, q, lingering, max)
    ensures if step == SwapFails then StepsLeft(q) == StepsLeft(p) else StepsLeft(q) < StepsLeft(p)
  {
  }

  /** A connection that is not done can always go on, and tries again only if the counter has changed under it. */
  lemma NeverStuck(p: Conn, lingering: int, max: nat) returns (step: Step, q: Conn)
    requires FlagsFit(p) && lingering >= 0 && p.pc != Done
    ensures Moves(p, step, q, lingering, max)
    ensures step == SwapFails ==> p.pc.Asking? && p.pc.seen < max && lingering != p.pc.seen
    ensures step != Accept && (step == Count <==> p.pc == Accepting) && (step == LetGo <==> p.pc == Serving)
  {
    if p.pc.Accepting? {
      step, q := Count, p.(pc := Serving, token := true);
    } else if p.pc.Serving? {
      step, q := LetGo, p.(pc := Closing);
    } else if p.pc.Closing? {
      step, q := Load, p.(pc := Asking(lingering));
    } else if p.pc.Asking? {
      if p.pc.seen >= max {
        step, q := NoRoom, p.(pc := Refused);
      } else if p.pc.seen == lingering {
        step, q := Swap, p.(pc := Reading, place := true);
      } else {
        step, q := SwapFails, p.(pc := Asking(lingering));
      }
    } else if p.pc.Refused? {
      step, q := DropStream, p.(pc := Returning, stream := false);
    } else if p.pc.Reading? {
      step, q := ReadOut, p.(pc := Finishing);
    } else if p.pc.Finishing? {
      step, q := DropStream, p.(pc := StreamDropped, stream := false);
    } else if p.pc.StreamDropped? {
      step, q := DropPlace, p.(pc := PlaceDropped, place := false);
    } else if p.pc.Returning? || p.pc.PlaceDropped? {
      step, q := DropToken, p.(pc := Done, token := false);
    } else if p.stream {
      step, q := DropStream, p.(stream := false);
    } else if p.place {
      step, q := DropPlace, p.(place := false);
    } else if p.token {
      step, q := DropToken, p.(token := false);
    } else {
      step, q := Reap, p.(pc := Done);
    }
  }

  // ---------- why a connection is refused ----------

  /** What a connection has read of the counter was there while it was asking. */
  lemma {:induction false} SeenWasThere(run: seq<State>, max: nat, i: nat, c: nat) returns (j: nat)
    requires IsRun(run, max) && i < |run| && c in run[i].conns && run[i].conns[c].pc.Asking?
    ensures j <= i && run[j].lingering == run[i].conns[c].pc.seen
    ensures forall k :: j <= k <= i ==> Waiting(run[k], c)
    decreases i
  {
    hide Moves, Next;
    j := i - if i > 0 then 1 else 0;
    if i == 0 {
      assert false;
    } else {
      assert Related(run[i - 1], run[i], max);
      var d, step :| Next(run[i - 1], d, step, run[i], max);
      if c !in run[i - 1].conns {
        StepBrings(run[i - 1], d, step, run[i], max, c);
      } else {
        StepKeeps(run[i - 1], d, step, run[i], max, c);
        if run[i].conns[c] == run[i - 1].conns[c] {
          j := SeenWasThere(run, max, i - 1, c);
        }
      }
    }
  }

  /** For a refusal there was a moment, while the connection was asking, at which all places were taken. */
  lemma RefusedOnlyWhenFull(run: seq<State>, max: nat, i: nat, c: nat) returns (j: nat)
    requires IsRun(run, max) && i + 1 < |run| && Next(run[i], c, NoRoom, run[i + 1], max)
    ensures j <= i && |Places(run[j])| == max && forall k :: j <= k <= i ==> Waiting(run[k], c)
  {
    j := SeenWasThere(run, max, i, c);
    CounterIsExact(run, max, j);
  }

  // ---------- the last reads of a connection ----------

  /** What becomes of a read: some bytes, the end or a failure, and how long it takes. */
  datatype Read = Bytes(n: nat, took: nat) | Ends(took: nat)

  const SCRATCH: nat := 4096

  /** The reads of a connection: the `k`th of them, when `want` bytes are asked for. */
  type Reads = (nat, nat) -> Read

  /** A read gives at least one byte and no more than were asked for. */
  ghost predicate KeepsToWant(read: Reads) {
    forall k, want :: want > 0 && read(k, want).Bytes? ==> 1 <= read(k, want).n <= want
  }

  function Want(left: int): nat {
    if SCRATCH <= left then SCRATCH else if left < 0 then 0 else left
  }

  /** No read asks for more than 4096 bytes, nor for more than may still be thrown away, and none for nothing. */
  lemma WantIs(left: int)
    ensures left >= 4096 ==> Want(left) == 4096
    ensures 0 <= left < 4096 ==> Want(left) == left
  {
  }

  /** What a connection may still throw away, and the time it still has. */
  datatype Rest = Rest(bytes: int, time: int)

  /** What the first `k` reads leave of both. */
  ghost function After(read: Reads, limit: nat, time: nat, k: nat): Rest {
    if k == 0 then Rest(limit, time)
    else
      var rest := After(read, limit, time, k - 1);
      var r := read(k - 1, Want(rest.bytes));
      Rest(rest.bytes - (if r.Bytes? then r.n else 0), rest.time - r.took)
  }

  /**
   `spent` never passes `time`, the shutdown included, and `thrown` never passes `limit`. The method stops for
   one of four reasons only: the shutdown or the next read would take longer than there is time, the next read
   ends it, or the limit is reached.
   */
  method ReadAway(shutdown: nat, read: Reads, limit: nat, time: nat)
    returns (shut: bool, thrown: nat, asked: nat, spent: nat)
    requires KeepsToWant(read)
    ensures shut <==> shutdown <= time
    ensures thrown <= limit && spent <= time
    ensures !shut ==> thrown == 0 && asked == 0
    ensures shut ==>
              && shutdown <= spent
              && After(read, limit, time - shutdown, asked) == Rest(limit - thrown, time - spent)
    ensures shut ==>
              || thrown == limit
              || read(asked, Want(limit - thrown)).Ends?
              || read(asked, Want(limit - thrown)).took > time - spent
  {
    thrown, asked, spent := 0, 0, time;
    if shutdown > time {
      return false, 0, 0, time;
    }
    shut := true;
    spent := shutdown;
    var left: int := limit;
    while left > 0
      invariant left == limit - thrown && thrown <= limit && shutdown <= spent <= time
      invariant After(read, limit, time - shutdown, asked) == Rest(left, time - spent)
      decreases left
    {
      var r := read(asked, Want(left));
      if r.took > time - spent || r.Ends? {
        break;
      }
      left, thrown := left - r.n, thrown + r.n;
      spent, asked := spent + r.took, asked + 1;
    }
  }
}
