/**
 TLS on top of `Linger`. A connection goes through handshake, channel and server while one of a bounded number
 of permits goes with it for part of the way; the accept loop, the handshake tasks and the letting go beneath
 take their steps in any order.
 */
module TlsListener {
  import opened Sets
  import L = Linger

  /** Where a connection is for the listener; how far its letting go has come is for `Linger` to say. */
  datatype Place =
    | Starting     // the accept loop has it
    | Shaking      // its task does the handshake
    | Ready        // the handshake is done, and its task waits to hand the stream over
    | Queued       // the stream is in the channel
    | HandedOver   // the server has the stream
    | LetGo        // let go of without having been handed over, by the loop or by its task
    | Served       // let go of behind the channel

  datatype Loop = Idle | Has(conn: nat)

  /** `permits` are the connections whose task holds one; `early` those whose task gave it up first. */
  datatype State = State(
    linger: L.State,
    place: map<nat, Place>,
    permits: set<nat>,
    queue: seq<nat>,
    loop: Loop,
    stopped: bool,
    early: set<nat>)

  datatype Limits = Limits(handshakes: nat, channel: nat, lingering: nat)

  datatype Step =
    | Accept
    | Count
    | Start
    | Refuse
    | Return        // the refused connection is dropped, and the loop goes on
    | ShakeDone
    | Send
    | Receive
    | Fail          // the handshake failed, took too long, or the server stops
    | GiveUpEarly   // the task ends with its permit gone before its connection: it had no local address
    | Release
    | Finish        // the server is done with the connection
    | Discard       // the listener goes away with the stream in its channel
    | Stop
    | Drop(step: L.Step)

  /** `Closing::drop` has returned: the connection is with another task, or gone. */
  ghost predicate Returned(pc: L.Pc) {
    !(pc.Accepting? || pc.Serving? || pc.Closing? || pc.Asking? || pc.Refused? || pc.Returning?)
  }

  ghost predicate LetsGo(s: State, c: nat, s': State, lim: Limits) {
    L.Next(s.linger, c, L.LetGo, s'.linger, lim.lingering)
  }

  ghost predicate Next(s: State, c: nat, step: Step, s': State, lim: Limits) {
    if step == Accept then
      && s.loop == Idle && c !in s.place && L.Next(s.linger, c, L.Accept, s'.linger, lim.lingering)
      && s' == s.(linger := s'.linger, place := s.place[c := Starting], loop := Has(c))
    else if step == Stop then s' == s.(stopped := true)
    else
      && c in s.place && c in s.linger.conns
      && match step
         case Count =>
           && s.loop == Has(c) && s.place[c] == Starting
           && L.Next(s.linger, c, L.Count, s'.linger, lim.lingering) && s' == s.(linger := s'.linger)
         case Start =>
           && s.loop == Has(c) && s.place[c] == Starting && s.linger.conns[c].pc == L.Serving
           && |s.permits| < lim.handshakes
           && s' == s.(place := s.place[c := Shaking], permits := s.permits + {c}, loop := Idle)
         case Refuse =>
           && s.loop == Has(c) && s.place[c] == Starting && |s.permits| >= lim.handshakes
           && LetsGo(s, c, s', lim) && s' == s.(linger := s'.linger, place := s.place[c := LetGo])
         case Return =>
           s.loop == Has(c) && s.place[c] == LetGo && Returned(s.linger.conns[c].pc) && s' == s.(loop := Idle)
         case ShakeDone => s.place[c] == Shaking && s' == s.(place := s.place[c := Ready])
         case Send =>
           && s.place[c] == Ready && |s.queue| < lim.channel
           && s' == s.(place := s.place[c := Queued], queue := s.queue + [c])
         case Receive =>
           && s.loop == Idle && s.queue != [] && s.queue[0] == c
           && s' == s.(place := s.place[c := HandedOver], queue := s.queue[1..])
         case Fail =>
           && (s.place[c] == Shaking || (s.place[c] == Ready && s.stopped))
           && LetsGo(s, c, s', lim) && s' == s.(linger := s'.linger, place := s.place[c := LetGo])
         case GiveUpEarly =>
           && s.place[c] == Shaking && LetsGo(s, c, s', lim)
           && s' == s.(linger := s'.linger, place := s.place[c := LetGo],
                       permits := s.permits - {c}, early := s.early + {c})
         case Release =>
           && c in s.permits
           && (s.place[c] in {Queued, HandedOver, Served} || (s.place[c] == LetGo && Returned(s.linger.conns[c].pc)))
           && s' == s.(permits := s.permits - {c})
         case Finish =>
           && s.place[c] == HandedOver && LetsGo(s, c, s', lim)
           && s' == s.(linger := s'.linger, place := s.place[c := Served])
         case Discard =>
           && s.stopped && s.queue != [] && s.queue[0] == c && LetsGo(s, c, s', lim)
           && s' == s.(linger := s'.linger, place := s.place[c := Served], queue := s.queue[1..])
         case Drop(drop) =>
           && drop !in {L.Accept, L.Count, L.LetGo}
           && L.Next(s.linger, c, drop, s'.linger, lim.lingering) && s' == s.(linger := s'.linger)
         case _ => false
  }

  const START := State(L.START, map[], {}, [], Idle, false, {})

  ghost predicate Related(s: State, s': State, lim: Limits) {
    exists c, step :: Next(s, c, step, s', lim)
  }

  ghost predicate IsRun(run: seq<State>, lim: Limits) {
    && run != [] && run[0] == START
    && forall i :: 0 <= i < |run| - 1 ==> Related(run[i], run[i + 1], lim)
  }

  // ---------- the invariant ----------

  /** What one connection's place says of where its letting go is, its permit, the channel and the accept loop. */
  ghost predicate Fits(place: Place, pc: L.Pc, permit: bool, queued: bool, inLoop: bool, early: bool) {
    && (queued <==> place == Queued)
    && match place
       case Starting => inLoop && !permit && (pc.Accepting? || pc.Serving?)
       case LetGo => !pc.Accepting? && !pc.Serving? && (Returned(pc) || permit || inLoop || early)
       case Served => !pc.Accepting? && !pc.Serving? && !inLoop
       case Queued => pc.Serving? && !inLoop
       case HandedOver => pc.Serving? && !inLoop
       case _ => pc.Serving? && permit && !inLoop
  }

  ghost predicate FitsAt(s: State, c: nat)
    requires c in s.place && c in s.linger.conns
  {
    Fits(s.place[c], s.linger.conns[c].pc, c in s.permits, c in s.queue, s.loop == Has(c), c in s.early)
  }

  ghost predicate NoRepeat(queue: seq<nat>) {
    forall i, j :: 0 <= i < j < |queue| ==> queue[i] != queue[j]
  }

  ghost predicate Good(s: State, lim: Limits) {
    && s.place.Keys == s.linger.conns.Keys
    && (forall c <- s.place :: FitsAt(s, c))
    && |s.permits| <= lim.handshakes && s.permits <= s.place.Keys
    && (s.loop.Has? ==> s.loop.conn in s.place)
    && (forall c <- s.queue :: c in s.place) && NoRepeat(s.queue)
    && L.Good(s.linger, lim.lingering)
  }

  /** What a step of the letting go does to a connection, as far as the listener is concerned. */
  lemma DropFits(place: Place, p: L.Conn, step: L.Step, q: L.Conn, lingering: int, max: nat,
                 permit: bool, queued: bool, inLoop: bool, early: bool)
    requires L.Moves(p, step, q, lingering, max) && Fits(place, p.pc, permit, queued, inLoop, early)
    requires step != L.Accept && step != L.Count && step != L.LetGo
    ensures Fits(place, q.pc, permit, queued, inLoop, early)
  {
  }

  /** A step of the listener is a step of the plain listener beneath, or none. */
  lemma StepIsLingerStep(s: State, c: nat, step: Step, s': State, lim: Limits)
    requires Next(s, c, step, s', lim)
    ensures step == Stop ==> s'.linger == s.linger
    ensures s'.linger == s.linger || L.Related(s.linger, s'.linger, lim.lingering)
    ensures L.Good(s.linger, lim.lingering) ==> L.Good(s'.linger, lim.lingering)
    ensures forall d <- s.linger.conns :: d in s'.linger.conns && (d != c ==> s'.linger.conns[d] == s.linger.conns[d])
    ensures s'.linger.conns.Keys == s.linger.conns.Keys + (if step == Accept then {c} else {})
  {
    hide L.Moves, L.Good;
    if s'.linger != s.linger {
      var drop := if step == Accept then L.Accept else if step == Count then L.Count
                  else if step.Drop? then step.step else L.LetGo;
      assert L.Next(s.linger, c, drop, s'.linger, lim.lingering);
      if L.Good(s.linger, lim.lingering) {
        L.NextKeepsGood(s.linger, c, drop, s'.linger, lim.lingering);
      }
    }
  }

  /** The other connections are not touched. */
  lemma OthersStay(s: State, c: nat, step: Step, s': State, lim: Limits, d: nat)
    requires Good(s, lim) && Next(s, c, step, s', lim) && d in s.place && (d != c || step == Stop)
    requires d in s'.linger.conns && s'.linger.conns[d] == s.linger.conns[d]
    ensures d in s'.place && d in s'.linger.conns && FitsAt(s', d)
  {
    hide L.Next, L.Good, Fits;
    assert FitsAt(s, d);
    assert || s'.queue == s.queue || s'.queue == s.queue + [c]
           || (s.queue != [] && s.queue[0] == c && s'.queue == s.queue[1..]);
    assert d in s'.queue <==> d in s.queue;
  }

  /** The connection that moves fits its new place. */
  lemma OneFits(s: State, c: nat, step: Step, s': State, lim: Limits)
    requires Good(s, lim) && Next(s, c, step, s', lim) && step != Stop
    ensures c in s'.place && c in s'.linger.conns && FitsAt(s', c)
  {
    hide L.Good;
    if step in {Accept, Count, Start, Refuse, Return} {
      LoopFits(s, c, step, s', lim);
    } else {
      assert FitsAt(s, c);
      if step.Drop? {
        DroppingFits(s, c, step.step, s', lim);
      } else if step in {Fail, GiveUpEarly, Finish, Discard} {
        LettingGoFits(s, c, step, s', lim);
      } else if step == Receive {
        assert c !in s.queue[1..];
      }
    }
  }

  lemma DroppingFits(s: State, c: nat, drop: L.Step, s': State, lim: Limits)
    requires Good(s, lim) && Next(s, c, Drop(drop), s', lim)
    ensures c in s'.place && c in s'.linger.conns && FitsAt(s', c)
  {
    hide L.Good, Fits, L.Moves;
    assert FitsAt(s, c);
    DropFits(s.place[c], s.linger.conns[c], drop, s'.linger.conns[c], s.linger.lingering, lim.lingering,
             c in s.permits, c in s.queue, s.loop == Has(c), c in s.early);
  }

  lemma LettingGoFits(s: State, c: nat, step: Step, s': State, lim: Limits)
    requires Good(s, lim) && Next(s, c, step, s', lim) && step in {Fail, GiveUpEarly, Finish, Discard}
    ensures c in s'.place && c in s'.linger.conns && FitsAt(s', c)
  {
    hide L.Good;
    assert FitsAt(s, c);
    if step == Discard {
      assert c !in s.queue[1..];
    }
  }

  lemma LoopFits(s: State, c: nat, step: Step, s': State, lim: Limits)
    requires Good(s, lim) && Next(s, c, step, s', lim) && step in {Accept, Count, Start, Refuse, Return}
    ensures c in s'.place && c in s'.linger.conns && FitsAt(s', c)
  {
    hide L.Good;
    if step != Accept {
      assert FitsAt(s, c);
    }
  }

  lemma NextKeepsGood(s: State, c: nat, step: Step, s': State, lim: Limits)
    requires Good(s, lim) && Next(s, c, step, s', lim)
    ensures Good(s', lim)
  {
    hide Next, L.Good, FitsAt;
    StepIsLingerStep(s, c, step, s', lim);
    KeysStayGood(s, c, step, s', lim);
    PermitsStayGood(s, c, step, s', lim);
    QueueStaysGood(s, c, step, s', lim);
    forall d <- s'.place ensures d in s'.linger.conns && FitsAt(s', d) {
      if d == c && step != Stop {
        OneFits(s, c, step, s', lim);
      } else {
        OthersStay(s, c, step, s', lim, d);
      }
    }
  }

  lemma KeysStayGood(s: State, c: nat, step: Step, s': State, lim: Limits)
    requires Next(s, c, step, s', lim) && (s.loop.Has? ==> s.loop.conn in s.place)
    ensures s'.place.Keys == s.place.Keys + (if step == Accept then {c} else {})
    ensures s'.loop.Has? ==> s'.loop.conn in s'.place
  {
    hide L.Next, Returned;
  }

  lemma PermitsStayGood(s: State, c: nat, step: Step, s': State, lim: Limits)
    requires Next(s, c, step, s', lim) && |s.permits| <= lim.handshakes && s.permits <= s.place.Keys
    ensures |s'.permits| <= lim.handshakes && s'.permits <= s.place.Keys
  {
    hide L.Next, Returned;
    if s'.permits != s.permits {
      assert || (c in s.place && s'.permits == s.permits + {c} && |s.permits| < lim.handshakes)
             || s'.permits == s.permits - {c};
    }
  }

  lemma QueueStaysGood(s: State, c: nat, step: Step, s': State, lim: Limits)
    requires Good(s, lim) && Next(s, c, step, s', lim)
    ensures (forall d <- s'.queue :: d in s.place) && NoRepeat(s'.queue)
  {
    hide L.Next, L.Good;
    if s'.queue != s.queue {
      assert FitsAt(s, c);
      assert s'.queue == s.queue + [c] || s'.queue == s.queue[1..];
    }
  }

  lemma {:induction false} RunIsGood(run: seq<State>, lim: Limits, i: nat)
    requires IsRun(run, lim) && i < |run|
    ensures Good(run[i], lim)
    decreases i
  {
    if i == 0 {
      assert L.Places(L.START) == {};
    } else {
      RunIsGood(run, lim, i - 1);
      assert Related(run[i - 1], run[i], lim);
      var c, step :| Next(run[i - 1], c, step, run[i], lim);
      NextKeepsGood(run[i - 1], c, step, run[i], lim);
    }
  }

  // ---------- what holds of every run ----------

  /** `at[k]` is where the plain run is when the run is in its `k`th state: each step is one more there, or none. */
  ghost predicate Along(run: seq<State>, plain: seq<L.State>, at: seq<nat>) {
    && 0 < |at| <= |run| && at[0] == 0 && at[|at| - 1] == |plain| - 1
    && (forall k: nat :: k + 1 < |at| ==> at[k + 1] == at[k] || at[k + 1] == at[k] + 1)
    && forall k: nat :: k < |at| ==> at[k] < |plain| && plain[at[k]] == run[k].linger
  }

  lemma AlongStarts(run: seq<State>)
    requires run != [] && run[0] == START
    ensures Along(run, [L.START], [0])
  {
  }

  lemma AlongEnds(run: seq<State>, plain: seq<L.State>, at: seq<nat>)
    requires Along(run, plain, at)
    ensures plain != [] && plain[|plain| - 1] == run[|at| - 1].linger
  {
  }

  lemma AlongAppends(run: seq<State>, plain: seq<L.State>, at: seq<nat>, longer: seq<L.State>)
    requires Along(run, plain, at) && |at| < |run|
    requires longer == plain + [run[|at|].linger] || (longer == plain && run[|at|].linger == run[|at| - 1].linger)
    ensures Along(run, longer, at + [|longer| - 1])
  {
    var more := at + [|longer| - 1];
    forall k: nat | k + 1 < |more| ensures more[k + 1] == more[k] || more[k + 1] == more[k] + 1 {
      if k + 1 < |at| {
        assert more[k + 1] == at[k + 1];
      }
    }
  }

  /** The connections of a run of this listener go through a run of the plain listener. */
  lemma {:induction false} RunsOnThePlainListener(run: seq<State>, lim: Limits, i: nat)
    returns (plain: seq<L.State>, at: seq<nat>)
    requires IsRun(run, lim) && i < |run|
    ensures L.IsRun(plain, lim.lingering) && |at| == i + 1 && Along(run, plain, at)
    decreases i
  {
    hide L.Related, Next, Along;
    if i == 0 {
      plain, at := [L.START], [0];
      assert Along(run, plain, at) by { AlongStarts(run); }
    } else {
      plain, at := RunsOnThePlainListener(run, lim, i - 1);
      assert Related(run[i - 1], run[i], lim);
      var c, step :| Next(run[i - 1], c, step, run[i], lim);
      StepIsLingerStep(run[i - 1], c, step, run[i], lim);
      if run[i].linger != run[i - 1].linger {
        assert plain[|plain| - 1] == run[i - 1].linger by { AlongEnds(run, plain, at); }
        AlongAppends(run, plain, at, plain + [run[i].linger]);
        plain := L.RunGrows(plain, run[i].linger, lim.lingering);
      } else {
        AlongAppends(run, plain, at, plain);
      }
      at := at + [|plain| - 1];
    }
  }

  lemma {:induction false} AlongGrows(run: seq<State>, plain: seq<L.State>, at: seq<nat>, j: nat, k: nat)
    requires Along(run, plain, at) && j <= k < |at|
    ensures at[j] <= at[k]
    decreases k
  {
    if j < k {
      AlongGrows(run, plain, at, j, k - 1);
      assert at[k - 1 + 1] == at[k];
    }
  }

  /** Every state the plain run has come to by then was come to by the run. */
  lemma {:induction false} AlongReaches(run: seq<State>, plain: seq<L.State>, at: seq<nat>, i: nat, m: nat)
    returns (j: nat)
    requires Along(run, plain, at) && i < |at| && m <= at[i]
    ensures j <= i && at[j] == m
    decreases i
  {
    if m == at[i] {
      j := i;
    } else {
      assert at[i - 1 + 1] == at[i];
      j := AlongReaches(run, plain, at, i - 1, m);
    }
  }

  /**
   What `Linger` promises of a refusal holds over TLS as well: a connection, whoever let go of it, is
   refused only if at some moment, while it was asking, all places were taken.
   */
  lemma RefusedOnlyWhenFull(run: seq<State>, lim: Limits, i: nat, c: nat) returns (j: nat)
    requires IsRun(run, lim) && i + 1 < |run| && Next(run[i], c, Drop(L.NoRoom), run[i + 1], lim)
    ensures j <= i && |L.Places(run[j].linger)| == lim.lingering
    ensures forall k :: j <= k <= i ==> L.Waiting(run[k].linger, c)
  {
    hide IsRun, L.IsRun, L.Places, L.Moves;
    var plain, at := RunsOnThePlainListener(run, lim, i + 1);
    NoRoomMoves(run[i], c, run[i + 1], lim);
    assert plain[at[i]] == run[i].linger && plain[at[i + 1]] == run[i + 1].linger;
    var m := L.RefusedOnlyWhenFull(plain, lim.lingering, at[i], c);
    j := AlongReaches(run, plain, at, i, m);
    forall k | j <= k <= i ensures L.Waiting(run[k].linger, c) {
      AlongGrows(run, plain, at, j, k);
      AlongGrows(run, plain, at, k, i);
      assert plain[at[k]] == run[k].linger;
    }
  }

  lemma NoRoomMoves(s: State, c: nat, s': State, lim: Limits)
    requires Next(s, c, Drop(L.NoRoom), s', lim)
    ensures L.Next(s.linger, c, L.NoRoom, s'.linger, lim.lingering) && s.linger != s'.linger
  {
    assert s'.linger.conns[c] != s.linger.conns[c];
  }

  /** Handshakes that take up a place: under way, or done and not in the channel yet. */
  ghost function InFlight(s: State): set<nat> {
    set c | c in s.place && s.place[c] in {Shaking, Ready}
  }

  /** There are never more handshakes in flight than there are places for them. */
  lemma HandshakesAreBounded(run: seq<State>, lim: Limits, i: nat)
    requires IsRun(run, lim) && i < |run|
    ensures |InFlight(run[i])| <= lim.handshakes
  {
    RunIsGood(run, lim, i);
    forall c <- InFlight(run[i]) ensures c in run[i].permits {
      assert FitsAt(run[i], c);
    }
    SubsetIsSmaller(InFlight(run[i]), run[i].permits);
  }

  lemma ServingOwns(s: L.State, c: nat, max: nat)
    requires L.Good(s, max) && c in s.conns && s.conns[c].pc.Serving?
    ensures s.conns[c] == L.Conn(L.Serving, true, false, true)
  {
    assert L.FlagsFit(s.conns[c]);
  }

  /** A connection is refused only while others hold all the permits. */
  lemma RefusesOnlyWithoutPermit(run: seq<State>, lim: Limits, i: nat, c: nat)
    requires IsRun(run, lim) && i + 1 < |run| && Next(run[i], c, Refuse, run[i + 1], lim)
    ensures |run[i].permits| == lim.handshakes && c !in run[i].permits
    ensures forall d <- run[i].permits :: d in run[i].place && run[i].place[d] != Starting
  {
    hide L.Next, L.Good, IsRun;
    RunIsGood(run, lim, i);
    assert FitsAt(run[i], c);
    forall d <- run[i].permits ensures d in run[i].place && run[i].place[d] != Starting {
      assert d in run[i].place.Keys && FitsAt(run[i], d);
    }
  }

  // ---------- that the listener never stands still ----------

  /** A connection whose letting go has begun can go on with it. */
  lemma LettingGoGoesOn(s: State, lim: Limits, c: nat) returns (step: Step, s': State)
    requires Good(s, lim) && c in s.place && c in s.linger.conns
    requires !s.linger.conns[c].pc.Accepting? && !s.linger.conns[c].pc.Serving? && !s.linger.conns[c].pc.Done?
    ensures Next(s, c, step, s', lim) && step.Drop?
  {
    hide FitsAt, Fits;
    var p := s.linger.conns[c];
    assert L.FlagsFit(p);
    var drop, q := L.NeverStuck(p, s.linger.lingering, lim.lingering);
    hide L.Moves, L.FlagsFit;
    var linger := L.State(s.linger.conns[c := q], s.linger.lingering + L.Change(drop));
    step, s' := Drop(drop), s.(linger := linger);
    assert L.Next(s.linger, c, drop, linger, lim.lingering);
  }

  /** Whatever connection the accept loop has, it can go on. */
  lemma LoopGoesOn(s: State, lim: Limits, c: nat) returns (step: Step, s': State)
    requires Good(s, lim) && s.loop == Has(c)
    ensures Next(s, c, step, s', lim) && step != Accept && step != Stop
  {
    hide L.Good, L.FlagsFit;
    assert FitsAt(s, c);
    var pc := s.linger.conns[c].pc;
    if s.place[c] == Starting {
      var p := s.linger.conns[c];
      if pc.Accepting? {
        var q := p.(pc := L.Serving, token := true);
        var linger := L.State(s.linger.conns[c := q], s.linger.lingering);
        step, s' := Count, s.(linger := linger);
        assert L.Next(s.linger, c, L.Count, linger, lim.lingering);
      } else if |s.permits| < lim.handshakes {
        step, s' := Start, s.(place := s.place[c := Shaking], permits := s.permits + {c}, loop := Idle);
      } else {
        step, s' := LetsGoNext(s, lim, c, Refuse);
      }
    } else if Returned(pc) {
      step, s' := Return, s.(loop := Idle);
    } else {
      step, s' := LettingGoGoesOn(s, lim, c);
    }
  }

  lemma LetsGoNext(s: State, lim: Limits, c: nat, how: Step) returns (step: Step, s': State)
    requires c in s.place && c in s.linger.conns && s.linger.conns[c].pc.Serving?
    requires how == Refuse || how == Finish
    requires how == Refuse ==> s.loop == Has(c) && s.place[c] == Starting && |s.permits| >= lim.handshakes
    requires how == Finish ==> s.place[c] == HandedOver
    ensures step == how && Next(s, c, step, s', lim)
  {
    var linger := L.State(s.linger.conns[c := s.linger.conns[c].(pc := L.Closing)], s.linger.lingering);
    step := how;
    s' := s.(linger := linger, place := s.place[c := if how == Refuse then LetGo else Served]);
    assert L.Next(s.linger, c, L.LetGo, linger, lim.lingering);
  }

  /** As long as a connection is not done, some connection can go on, without a new one and without a stop. */
  lemma NoDeadlock(run: seq<State>, lim: Limits, i: nat, c: nat) returns (d: nat, step: Step, s': State)
    requires IsRun(run, lim) && i < |run| && lim.channel > 0
    requires c in run[i].linger.conns && !run[i].linger.conns[c].pc.Done?
    ensures Next(run[i], d, step, s', lim) && step != Accept && step != Stop
  {
    hide IsRun, L.Good, L.Next;
    var s := run[i];
    RunIsGood(run, lim, i);
    assert c in s.place.Keys && FitsAt(s, c);
    d := c;
    if s.loop.Has? {
      d := s.loop.conn;
      step, s' := LoopGoesOn(s, lim, d);
    } else if s.place[c] == HandedOver {
      step, s' := LetsGoNext(s, lim, c, Finish);
    } else if s.place[c] == Shaking {
      step, s' := ShakeDone, s.(place := s.place[c := Ready]);
    } else if s.place[c] == Ready && |s.queue| < lim.channel {
      step, s' := Send, s.(place := s.place[c := Queued], queue := s.queue + [c]);
    } else if s.place[c] == Ready || s.place[c] == Queued {
      d := s.queue[0];
      step, s' := Receive, s.(place := s.place[d := HandedOver], queue := s.queue[1..]);
    } else {
      step, s' := LettingGoGoesOn(s, lim, c);
    }
  }

  /** The order in which a connection goes through its places. */
  function Rank(p: Place): nat {
    match p
    case Starting => 0
    case Shaking => 1
    case Ready => 2
    case Queued => 3
    case HandedOver => 4
    case LetGo => 5
    case Served => 5
  }

  lemma StepGoesOn(s: State, d: nat, step: Step, s': State, lim: Limits, c: nat)
    requires Good(s, lim) && Next(s, d, step, s', lim) && c in s.place
    ensures c in s'.place && Rank(s.place[c]) <= Rank(s'.place[c])
  {
    hide L.Next, L.Good, FitsAt;
    if c in s.queue {
      QueuedIsServing(s, lim, c);
    }
  }

  lemma QueuedIsServing(s: State, lim: Limits, c: nat)
    requires Good(s, lim) && c in s.queue
    ensures c in s.place && c in s.linger.conns && s.place[c] == Queued && s.linger.conns[c].pc.Serving?
  {
    assert FitsAt(s, c);
  }

  lemma {:induction false} PlacesGoOn(run: seq<State>, lim: Limits, i: nat, j: nat, c: nat)
    requires IsRun(run, lim) && i <= j < |run| && c in run[i].place
    ensures c in run[j].place && Rank(run[i].place[c]) <= Rank(run[j].place[c])
    decreases j
  {
    hide Good, Next, Rank;
    if i < j {
      PlacesGoOn(run, lim, i, j - 1, c);
      RunIsGood(run, lim, j - 1);
      assert Related(run[j - 1], run[j], lim);
      var d, step :| Next(run[j - 1], d, step, run[j], lim);
      StepGoesOn(run[j - 1], d, step, run[j], lim, c);
    }
  }

  /**
   In a run the server receives a connection at most once, open and counted, and none whose letting go has
   begun.
   */
  lemma HandedOverOnce(run: seq<State>, lim: Limits, i: nat, c: nat)
    requires IsRun(run, lim) && i + 1 < |run| && Next(run[i], c, Receive, run[i + 1], lim)
    ensures c in run[i].linger.conns && run[i].linger.conns[c] == L.Conn(L.Serving, true, false, true)
    ensures forall j :: i < j < |run| - 1 ==> !Next(run[j], c, Receive, run[j + 1], lim)
    ensures forall j :: 0 <= j <= i && c in run[j].place ==> run[j].place[c] != LetGo && run[j].place[c] != Served
  {
    hide IsRun, L.Next, L.Good, FitsAt;
    RunIsGood(run, lim, i);
    QueuedIsServing(run[i], lim, c);
    ServingOwns(run[i].linger, c, lim.lingering);
    forall j | i < j < |run| - 1 ensures !Next(run[j], c, Receive, run[j + 1], lim) {
      PlacesGoOn(run, lim, i + 1, j, c);
      RunIsGood(run, lim, j);
      if c in run[j].queue {
        QueuedIsServing(run[j], lim, c);
      }
    }
    forall j | 0 <= j <= i && c in run[j].place ensures run[j].place[c] != LetGo && run[j].place[c] != Served {
      PlacesGoOn(run, lim, j, i, c);
    }
  }

  /** The open connections whose handshake has not brought them to the server. */
  ghost function Pending(s: State): set<nat> {
    set c | c in s.place && c in s.linger.conns && s.linger.conns[c].stream
            && s.place[c] in {Starting, Shaking, Ready, LetGo}
  }

  /**
   The open connections that hold no permit and no place and are not in the accept loop: those whose task
   gave the permit up first and that are still being let go of, and those that the runtime drops, place
   before stream.
   */
  ghost function Stray(s: State): set<nat> {
    set c | c in Pending(s) && s.place[c] == LetGo
            && var p := s.linger.conns[c];
               (c in s.early && !Returned(p.pc)) || (p.pc.Unwinding? && !p.place)
  }

  /** Where an open connection is counted that has not come to the server. */
  lemma PendingIsHeld(s: State, lim: Limits, c: nat)
    requires Good(s, lim) && c in Pending(s)
    ensures c in s.permits || c in L.Places(s.linger) || s.loop == Has(c) || c in Stray(s)
  {
    assert FitsAt(s, c);
    assert L.FlagsFit(s.linger.conns[c]);
  }

  /**
   Permits, places and strays are all there can be of open connections without a finished handshake, and one
   more while the accept loop is busy with it.
   */
  lemma PendingIsBounded(run: seq<State>, lim: Limits, i: nat)
    requires IsRun(run, lim) && i < |run|
    ensures |Pending(run[i])|
         <= lim.handshakes + lim.lingering + |Stray(run[i])| + if run[i].loop == Idle then 0 else 1
  {
    hide IsRun, Pending, Stray, L.Places;
    var s := run[i];
    RunIsGood(run, lim, i);
    var busy := if s.loop == Idle then {} else {s.loop.conn};
    var all := s.permits + L.Places(s.linger) + busy + Stray(s);
    forall c <- Pending(s) ensures c in all {
      PendingIsHeld(s, lim, c);
    }
    SubsetIsSmaller(Pending(s), all);
    UnionIsNoLarger(s.permits, L.Places(s.linger));
    UnionIsNoLarger(s.permits + L.Places(s.linger), busy);
    UnionIsNoLarger(s.permits + L.Places(s.linger) + busy, Stray(s));
  }

  // ---------- the bound is reached ----------

  /** The first `n` connections. */
  ghost function Below(n: nat): (r: set<nat>)
    ensures |r| == n && forall c: nat :: c in r <==> c < n
  {
    if n == 0 then {} else Below(n - 1) + {n - 1}
  }

  /** The `n` connections from `k` on. */
  ghost function From(k: nat, n: nat): (r: set<nat>)
    ensures |r| == n && forall c: nat :: c in r <==> k <= c < k + n
  {
    if n == 0 then {} else From(k, n - 1) + {k + n - 1}
  }

  const SERVING := L.Conn(L.Serving, true, false, true)
  const READING := L.Conn(L.Reading, true, true, true)
  const ASKING := L.Conn(L.Asking(0), true, false, true)

  ghost function ConnsOf(all: set<nat>, k: nat, n: nat): map<nat, L.Conn> {
    map c | c in all :: if c < k then ASKING else if c < k + n then SERVING else READING
  }

  ghost function PlacesOf(all: set<nat>, k: nat, n: nat): map<nat, Place> {
    map c | c in all :: if k <= c < k + n then Shaking else LetGo
  }

  /**
   `k` connections given up early that still ask for a place, `n` that say nothing in their handshake, and `m`
   refused ones that linger.
   */
  ghost function Stage(k: nat, n: nat, m: nat): State {
    var all := Below(k + n + m);
    State(L.State(ConnsOf(all, k, n), m), PlacesOf(all, k, n), From(k, n), [], Idle, false, Below(k))
  }

  lemma OneMoreAsks(k: nat)
    ensures ConnsOf(Below(k), k, 0)[k := ASKING] == ConnsOf(Below(k + 1), k + 1, 0)
    ensures PlacesOf(Below(k), k, 0)[k := LetGo] == PlacesOf(Below(k + 1), k + 1, 0)
    ensures Below(k) + {k} == Below(k + 1) && From(k, 0) + {k} - {k} == From(k + 1, 0)
  {
    hide Below, From;
  }

  lemma OneMoreShakes(k: nat, n: nat, c: nat)
    requires c == k + n
    ensures ConnsOf(Below(c), k, n)[c := SERVING] == ConnsOf(Below(c + 1), k, n + 1)
    ensures PlacesOf(Below(c), k, n)[c := Shaking] == PlacesOf(Below(c + 1), k, n + 1)
    ensures From(k, n) + {c} == From(k, n + 1)
  {
    hide Below, From;
  }

  lemma OneMoreLingers(k: nat, n: nat, c: nat)
    requires k + n <= c
    ensures ConnsOf(Below(c), k, n)[c := READING] == ConnsOf(Below(c + 1), k, n)
    ensures PlacesOf(Below(c), k, n)[c := LetGo] == PlacesOf(Below(c + 1), k, n)
  {
    hide Below, From;
  }

  /** `s` after connection `c` has come to `conn` and `place`, and the loop to `loop`. */
  function With(s: State, c: nat, conn: L.Conn, place: Place, loop: Loop): State {
    s.(linger := L.State(s.linger.conns[c := conn], s.linger.lingering), place := s.place[c := place], loop := loop)
  }

  /** The accept loop accepts and counts one more connection. */
  lemma Accepts(run: seq<State>, lim: Limits, c: nat) returns (longer: seq<State>)
    requires IsRun(run, lim)
    requires var s := run[|run| - 1]; s.loop == Idle && c !in s.place && c !in s.linger.conns
    ensures IsRun(longer, lim)
    ensures longer == run + [With(run[|run| - 1], c, L.FRESH, Starting, Has(c)),
                             With(run[|run| - 1], c, SERVING, Starting, Has(c))]
  {
    var s := run[|run| - 1];
    var s1, s2 := With(s, c, L.FRESH, Starting, Has(c)), With(s, c, SERVING, Starting, Has(c));
    assert Next(s, c, Accept, s1, lim);
    longer := RunGrows(run, s1, lim);
    assert s2.linger.conns == s1.linger.conns[c := SERVING] && s2.place == s1.place;
    assert L.Moves(L.FRESH, L.Count, SERVING, s1.linger.lingering, lim.lingering);
    assert Next(s1, c, Count, s2, lim);
    longer := RunGrows(longer, s2, lim);
  }

  /** One more handshake: accepted, counted, given a permit. */
  lemma Shakes(run: seq<State>, lim: Limits, k: nat, n: nat) returns (longer: seq<State>)
    requires IsRun(run, lim) && run[|run| - 1] == Stage(k, n, 0) && n < lim.handshakes
    ensures IsRun(longer, lim) && longer[|longer| - 1] == Stage(k, n + 1, 0)
  {
    hide IsRun, Related, Next, ConnsOf, PlacesOf, Below, From;
    var c := k + n;
    StageHas(k, n, 0, c);
    longer := Accepts(run, lim, c);
    var s := longer[|longer| - 1];
    Starts(s, c, lim);
    longer := Steps(longer, lim, c, Start, Started(s, c));
    OneMoreShakes(k, n, c);
    Overwrites(PlacesOf(Below(c), k, n), c, Starting, Shaking);
  }

  ghost function Started(s: State, c: nat): State {
    s.(place := s.place[c := Shaking], permits := s.permits + {c}, loop := Idle)
  }

  /** One more stray: its task gives the permit up before the connection, which gets as far as asking. */
  lemma Strays(run: seq<State>, lim: Limits, k: nat) returns (longer: seq<State>)
    requires IsRun(run, lim) && run[|run| - 1] == Stage(k, 0, 0) && lim.handshakes > 0
    ensures IsRun(longer, lim) && longer[|longer| - 1] == Stage(k + 1, 0, 0)
  {
    hide IsRun, Related, Next, ConnsOf, PlacesOf, Below, From;
    StageHas(k, 0, 0, k);
    longer := Accepts(run, lim, k);
    var s := longer[|longer| - 1];
    Starts(s, k, lim);
    longer := Steps(longer, lim, k, Start, Started(s, k));
    GivesUp(s, k, lim);
    longer := Steps(longer, lim, k, GiveUpEarly, GivenUp(s, k, L.Closing));
    longer := Steps(longer, lim, k, Drop(L.Load), GivenUp(s, k, L.Asking(0)));
    OneMoreAsks(k);
    Overwrites(ConnsOf(Below(k), k, 0), k, SERVING, ASKING);
    Overwrites(PlacesOf(Below(k), k, 0), k, Starting, LetGo);
  }

  ghost function GivenUp(s: State, c: nat, pc: L.Pc): State {
    s.(linger := L.State(s.linger.conns[c := L.Conn(pc, true, false, true)], s.linger.lingering),
       place := s.place[c := LetGo], permits := s.permits + {c} - {c}, early := s.early + {c}, loop := Idle)
  }

  lemma GivesUp(s: State, c: nat, lim: Limits)
    requires c in s.place && c in s.linger.conns && s.linger.conns[c] == SERVING && s.linger.lingering == 0
    ensures Next(Started(s, c), c, GiveUpEarly, GivenUp(s, c, L.Closing), lim)
    ensures Next(GivenUp(s, c, L.Closing), c, Drop(L.Load), GivenUp(s, c, L.Asking(0)), lim)
  {
    var s0, s1, s2 := Started(s, c), GivenUp(s, c, L.Closing), GivenUp(s, c, L.Asking(0));
    assert s1.place == s0.place[c := LetGo];
    assert L.Next(s0.linger, c, L.LetGo, s1.linger, lim.lingering);
    assert s2.linger == L.State(s1.linger.conns[c := s2.linger.conns[c]], s1.linger.lingering);
    assert L.Next(s1.linger, c, L.Load, s2.linger, lim.lingering);
  }

  lemma Starts(s: State, c: nat, lim: Limits)
    requires s.loop == Has(c) && c in s.place && c in s.linger.conns
    requires s.place[c] == Starting && s.linger.conns[c] == SERVING && |s.permits| < lim.handshakes
    ensures Next(s, c, Start, Started(s, c), lim)
  {
  }

  /** A refused connection on its way: let go of, the counter read, a place taken. */
  ghost function OnTheWay(s: State, c: nat, pc: L.Pc): State {
    With(s, c, L.Conn(pc, true, false, true), LetGo, Has(c))
  }

  ghost function Placed(s: State, c: nat): State {
    var p := With(s, c, READING, LetGo, Has(c));
    p.(linger := L.State(p.linger.conns, p.linger.lingering + 1))
  }

  lemma Refuses(s: State, c: nat, lim: Limits)
    requires s.loop == Has(c) && c in s.place && c in s.linger.conns
    requires s.place[c] == Starting && s.linger.conns[c] == SERVING && |s.permits| >= lim.handshakes
    ensures Next(s, c, Refuse, OnTheWay(s, c, L.Closing), lim)
  {
    var s' := OnTheWay(s, c, L.Closing);
    assert L.Next(s.linger, c, L.LetGo, s'.linger, lim.lingering);
  }

  lemma Loads(s: State, c: nat, lim: Limits)
    requires s.loop == Has(c) && c in s.place && c in s.linger.conns && s.linger.lingering >= 0
    ensures Next(OnTheWay(s, c, L.Closing), c, Drop(L.Load), OnTheWay(s, c, L.Asking(s.linger.lingering)), lim)
  {
    var s1, s2 := OnTheWay(s, c, L.Closing), OnTheWay(s, c, L.Asking(s.linger.lingering));
    assert s2.linger == L.State(s1.linger.conns[c := s2.linger.conns[c]], s1.linger.lingering);
    assert s2.place == s1.place;
    assert L.Next(s1.linger, c, L.Load, s2.linger, lim.lingering);
  }

  lemma Swaps(s: State, c: nat, lim: Limits)
    requires s.loop == Has(c) && c in s.place && c in s.linger.conns && 0 <= s.linger.lingering < lim.lingering
    ensures Next(OnTheWay(s, c, L.Asking(s.linger.lingering)), c, Drop(L.Swap), Placed(s, c), lim)
  {
    var s1, s2 := OnTheWay(s, c, L.Asking(s.linger.lingering)), Placed(s, c);
    assert s2.linger == L.State(s1.linger.conns[c := s2.linger.conns[c]], s1.linger.lingering + 1);
    assert s2.place == s1.place;
    assert L.Next(s1.linger, c, L.Swap, s2.linger, lim.lingering);
  }

  /** One more that is refused, let go of and given a place among those that linger. */
  lemma Lingers(run: seq<State>, lim: Limits, k: nat, m: nat) returns (longer: seq<State>)
    requires IsRun(run, lim) && run[|run| - 1] == Stage(k, lim.handshakes, m) && m < lim.lingering
    ensures IsRun(longer, lim) && longer[|longer| - 1] == Stage(k, lim.handshakes, m + 1)
  {
    hide IsRun, Related, Next, ConnsOf, PlacesOf, Below, From;
    var n := lim.handshakes;
    var c := k + n + m;
    StageHas(k, n, m, c);
    longer := Accepts(run, lim, c);
    var s := longer[|longer| - 1];
    Refuses(s, c, lim);
    Loads(s, c, lim);
    Swaps(s, c, lim);
    longer := Steps(longer, lim, c, Refuse, OnTheWay(s, c, L.Closing));
    longer := Steps(longer, lim, c, Drop(L.Load), OnTheWay(s, c, L.Asking(m)));
    longer := Steps(longer, lim, c, Drop(L.Swap), Placed(s, c));
    Returns(Placed(s, c), c, lim);
    longer := Steps(longer, lim, c, Return, Placed(s, c).(loop := Idle));
    StageGrows(k, n, m, s, c);
  }

  lemma Returns(s: State, c: nat, lim: Limits)
    requires s.loop == Has(c) && c in s.place && c in s.linger.conns
    requires s.place[c] == LetGo && Returned(s.linger.conns[c].pc)
    ensures Next(s, c, Return, s.(loop := Idle), lim)
  {
  }

  lemma Overwrites<V>(m: map<nat, V>, c: nat, v: V, w: V)
    ensures m[c := v][c := w] == m[c := w]
  {
  }

  lemma StageGrows(k: nat, n: nat, m: nat, s: State, c: nat)
    requires c == k + n + m && s == With(Stage(k, n, m), c, SERVING, Starting, Has(c))
    ensures Placed(s, c).(loop := Idle) == Stage(k, n, m + 1)
  {
    hide Below, From, ConnsOf, PlacesOf, Returned;
    OneMoreLingers(k, n, c);
    Overwrites(ConnsOf(Below(c), k, n), c, SERVING, READING);
    Overwrites(PlacesOf(Below(c), k, n), c, Starting, LetGo);
  }

  lemma Steps(run: seq<State>, lim: Limits, c: nat, step: Step, s: State) returns (longer: seq<State>)
    requires IsRun(run, lim) && Next(run[|run| - 1], c, step, s, lim)
    ensures IsRun(longer, lim) && longer[|longer| - 1] == s
  {
    hide IsRun, Next;
    longer := RunGrows(run, s, lim);
  }

  lemma {:induction false} Strayed(lim: Limits, k: nat) returns (run: seq<State>)
    requires k == 0 || lim.handshakes > 0
    ensures IsRun(run, lim) && run[|run| - 1] == Stage(k, 0, 0)
    decreases k
  {
    hide Related;
    if k == 0 {
      run := [START];
      assert START == Stage(0, 0, 0);
    } else {
      run := Strayed(lim, k - 1);
      run := Strays(run, lim, k - 1);
    }
  }

  lemma {:induction false} Shaken(lim: Limits, k: nat, n: nat) returns (run: seq<State>)
    requires n <= lim.handshakes && (k == 0 || lim.handshakes > 0)
    ensures IsRun(run, lim) && run[|run| - 1] == Stage(k, n, 0)
    decreases n
  {
    hide IsRun, Stage;
    if n == 0 {
      run := Strayed(lim, k);
    } else {
      run := Shaken(lim, k, n - 1);
      run := Shakes(run, lim, k, n - 1);
    }
  }

  lemma {:induction false} Lingered(lim: Limits, k: nat, m: nat) returns (run: seq<State>)
    requires m <= lim.lingering && (k == 0 || lim.handshakes > 0)
    ensures IsRun(run, lim) && run[|run| - 1] == Stage(k, lim.handshakes, m)
    decreases m
  {
    hide IsRun, Stage;
    if m == 0 {
      run := Shaken(lim, k, lim.handshakes);
    } else {
      run := Lingered(lim, k, m - 1);
      run := Lingers(run, lim, k, m - 1);
    }
  }

  /**
   The one more is there, whatever the limits: with every permit and every place taken and no stray, the
   accept loop holds one connection more.
   */
  lemma OneMoreWhileRefusing(lim: Limits) returns (run: seq<State>)
    ensures IsRun(run, lim) && |Pending(run[|run| - 1])| == lim.handshakes + lim.lingering + 1
    ensures Stray(run[|run| - 1]) == {} && run[|run| - 1].early == {}
    ensures var last := run[|run| - 1].linger.conns; forall c <- last :: !last[c].pc.Unwinding?
  {
    hide IsRun, Related, Stage, Pending, Stray;
    var n, m := lim.handshakes, lim.lingering;
    run := Lingered(lim, 0, m);
    StageHas(0, n, m, n + m);
    run := Accepts(run, lim, n + m);
    AllPending(0, n, m, n + m);
  }

  /**
   The strays are needed: for every number of them there is a run that ends with an idle loop, all permits and
   places taken, and that many connections more, each given up early and still asking for a place.
   */
  lemma StraysAddUp(lim: Limits, k: nat) returns (run: seq<State>)
    requires k == 0 || lim.handshakes > 0
    ensures IsRun(run, lim) && |Pending(run[|run| - 1])| == lim.handshakes + lim.lingering + k
    ensures run[|run| - 1].loop == Idle && |Stray(run[|run| - 1])| == k && Stray(run[|run| - 1]) == run[|run| - 1].early
    ensures |run[|run| - 1].permits| == lim.handshakes && run[|run| - 1].linger.lingering == lim.lingering
  {
    hide IsRun, Stage, Pending, Stray;
    run := Lingered(lim, k, lim.lingering);
    StagePending(k, lim.handshakes, lim.lingering);
  }

  lemma StageHas(k: nat, n: nat, m: nat, c: nat)
    requires c == k + n + m
    ensures Stage(k, n, m).loop == Idle && c !in Stage(k, n, m).place && c !in Stage(k, n, m).linger.conns
  {
    hide Below, From;
  }

  lemma StagePending(k: nat, n: nat, m: nat)
    ensures var s := Stage(k, n, m);
            && Pending(s) == Below(k + n + m) && Stray(s) == s.early == Below(k)
            && s.loop == Idle && |s.permits| == n && s.linger.lingering == m
            && forall d <- s.linger.conns :: !s.linger.conns[d].pc.Unwinding?
  {
    hide Below, From;
    var s := Stage(k, n, m);
    forall d: nat ensures d in Pending(s) <==> d in Below(k + n + m) {
      assert d in s.place ==> s.place[d] in {Shaking, LetGo};
    }
    assert Pending(s) == Below(k + n + m);
    assert Stray(s) == Below(k);
  }

  lemma AllPending(k: nat, n: nat, m: nat, c: nat)
    requires c == k + n + m
    ensures var s := With(Stage(k, n, m), c, SERVING, Starting, Has(c));
            && Pending(s) == Below(c + 1) && Stray(s) == s.early == Below(k)
            && forall d <- s.linger.conns :: !s.linger.conns[d].pc.Unwinding?
  {
    hide Below, Stage, Pending, Stray, With;
    StagePending(k, n, m);
    StageHas(k, n, m, c);
    OneMorePending(Stage(k, n, m), c);
    assert Below(c) + {c} == Below(c + 1);
  }

  lemma OneMorePending(s: State, c: nat)
    requires c !in s.place && c !in s.linger.conns
    ensures var s' := With(s, c, SERVING, Starting, Has(c));
            && Pending(s') == Pending(s) + {c} && Stray(s') == Stray(s) && s'.early == s.early
            && s'.linger.conns == s.linger.conns[c := SERVING]
  {
    hide Returned, Stray;
    var s' := With(s, c, SERVING, Starting, Has(c));
    assert Pending(s') == Pending(s) + {c};
    assert Stray(s') == Stray(s) by { SameStrays(s, c); }
  }

  lemma SameStrays(s: State, c: nat)
    requires c !in s.place && c !in s.linger.conns
    ensures Stray(With(s, c, SERVING, Starting, Has(c))) == Stray(s)
  {
    hide Returned;
  }

  lemma RunGrows(run: seq<State>, s: State, lim: Limits) returns (longer: seq<State>)
    requires IsRun(run, lim) && Related(run[|run| - 1], s, lim)
    ensures longer == run + [s] && IsRun(longer, lim)
  {
    hide Related;
    longer := run + [s];
    assert forall i :: 0 <= i < |run| ==> longer[i] == run[i];
  }
}
