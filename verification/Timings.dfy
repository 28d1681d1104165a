/**
 How a request is cut into the steps of HAR 1.2, and what rounding and 64 bits do to their sum. Durations are
 nanoseconds.
 */
module Timings {
  import opened Wrappers

  const NANOS_PER_MS: nat := 1_000_000
  const TWO_63: int := 0x8000_0000_0000_0000
  const TWO_64: int := 0x1_0000_0000_0000_0000

  datatype Timings = Timings(
    connect: Option<nat>,
    dns: Option<nat>,
    wait: Option<nat>,
    receive: Option<nat>,
    total: nat,
    reused: bool)

  /** What is written for each step; the value -1 says that there was none. */
  datatype HarTimings = HarTimings(
    blocked: int,
    dns: int,
    connect: int,
    ssl: int,
    send: int,
    wait: int,
    receive: int)

  /** The number of 64 bits with a sign that conversions and sums come to, which wraps around. */
  function AsI64(n: int): (r: int)
    ensures -TWO_63 <= r < TWO_63
    ensures -TWO_63 <= n < TWO_63 <==> r == n
    ensures exists m: int :: r == n - m * TWO_64
  {
    var m := (n + TWO_63) / TWO_64;
    assert (n + TWO_63) % TWO_64 == n + TWO_63 - m * TWO_64;
    n - m * TWO_64
  }

  function WholeMs(d: nat): nat {
    d / NANOS_PER_MS
  }

  function Ms(d: nat): int {
    AsI64(WholeMs(d))
  }

  function Min(a: nat, b: nat): nat {
    if a <= b then a else b
  }

  function SaturatingSub(a: nat, b: nat): nat {
    if a >= b then a - b else 0
  }

  function Or(o: Option<nat>, default: nat): nat {
    if o.Some? then o.value else default
  }

  function MsOr(o: Option<nat>, default: int): int {
    if o.Some? then Ms(o.value) else default
  }

  /** What the lookups count for: no more than the connection, or the whole request without one. */
  function Pressed(t: Timings): Option<nat> {
    if t.dns.Some? then Some(Min(t.dns.value, Or(t.connect, t.total))) else None
  }

  /** The connection without the lookups. */
  function Rest(t: Timings): nat {
    SaturatingSub(Or(t.connect, 0), Or(Pressed(t), 0))
  }

  function Waiting(t: Timings): nat {
    if t.connect.Some? then (if t.wait.Some? then t.wait.value else SaturatingSub(t.total, t.connect.value))
    else SaturatingSub(t.total, Or(Pressed(t), 0))
  }

  function Har(t: Timings): HarTimings {
    HarTimings(
      if t.connect.Some? && t.reused then Ms(Rest(t)) else -1,
      MsOr(Pressed(t), -1),
      if t.connect.Some? && !t.reused then Ms(Rest(t)) else -1,
      -1,
      0,
      Ms(Waiting(t)),
      MsOr(t.receive, 0))
  }

  function Steps(h: HarTimings): seq<int> {
    [h.blocked, h.dns, h.connect, h.ssl, h.send, h.wait, h.receive]
  }

  /** What a step adds to the sum. */
  function Taken(step: int): int {
    if step == -1 then 0 else step
  }

  /** The sum as an integer, steps that are -1 left out. */
  function SumTaken(steps: seq<int>): int {
    if steps == [] then 0 else SumTaken(steps[..|steps| - 1]) + Taken(steps[|steps| - 1])
  }

  function Time(t: Timings): int {
    AsI64(SumTaken(Steps(Har(t))))
  }

  // ---------- what the steps divide up ----------

  /** The whole stretch that the steps divide up: the connection, the waiting and the receiving. */
  function Whole(t: Timings): nat {
    Or(t.receive, 0) +
    if t.connect.None? then t.total
    else if t.wait.Some? then t.connect.value + t.wait.value
    else if t.total >= t.connect.value then t.total else t.connect.value
  }

  /** How many pieces the steps cut the whole stretch into. */
  function Pieces(t: Timings): nat {
    1 + (if t.connect.Some? then 1 else 0) + (if t.dns.Some? then 1 else 0) + (if t.receive.Some? then 1 else 0)
  }

  /** The whole milliseconds of the pieces, without any limit to their number. */
  function Rounded(t: Timings): nat {
    WholeMs(Or(Pressed(t), 0)) + WholeMs(Rest(t)) + WholeMs(Waiting(t)) + WholeMs(Or(t.receive, 0))
  }

  /** `time` falls short of the whole stretch by less than a millisecond for each piece but one. */
  predicate RoundedDown(t: Timings, time: int) {
    0 <= WholeMs(Whole(t)) - time <= Pieces(t) - 1
  }

  lemma RoundingTwo(a: nat, b: nat)
    ensures 0 <= WholeMs(a + b) - WholeMs(a) - WholeMs(b) <= 1
  {
  }

  lemma NothingIsNoMs()
    ensures WholeMs(0) == 0
  {
  }

  /** Where nothing wraps around, only rounding is lost. */
  lemma OnlyRoundingIsLost(t: Timings)
    ensures RoundedDown(t, Rounded(t))
  {
    hide WholeMs, Waiting;
    var pressed, rest, wait, receive := Or(Pressed(t), 0), Rest(t), Waiting(t), Or(t.receive, 0);
    assert pressed + rest + wait + receive == Whole(t) by { PiecesAreTheWhole(t); }
    RoundingTwo(pressed + rest + wait, receive);
    RoundingTwo(pressed + rest, wait);
    RoundingTwo(pressed, rest);
    NothingIsNoMs();
  }

  lemma PiecesAreTheWhole(t: Timings)
    ensures Or(Pressed(t), 0) + Rest(t) + Waiting(t) + Or(t.receive, 0) == Whole(t)
  {
  }

  // ---------- 64 bits ----------

  /**
   What a piece adds to the sum: its whole milliseconds but for multiples of 2^64, and one more if it comes
   out as -1 and is taken for a step there was not.
   */
  lemma PieceWraps(d: nat) returns (q: nat, skipped: nat)
    ensures Taken(Ms(d)) == WholeMs(d) + skipped - q * TWO_64 && skipped <= 1
    ensures WholeMs(d) < TWO_63 ==> q == 0 && skipped == 0
  {
    var m: int :| Ms(d) == WholeMs(d) - m * TWO_64;
    q := m;
    skipped := if Ms(d) == -1 then 1 else 0;
  }

  lemma SumOfSteps(h: HarTimings)
    ensures SumTaken(Steps(h)) ==
            Taken(h.blocked) + Taken(h.dns) + Taken(h.connect) + Taken(h.ssl) + Taken(h.send) + Taken(h.wait)
            + Taken(h.receive)
  {
    hide Taken;
    var s := Steps(h);
    assert s[..7] == s && s[..7][..6] == s[..6] && s[..6][..5] == s[..5] && s[..5][..4] == s[..4];
    assert s[..4][..3] == s[..3] && s[..3][..2] == s[..2] && s[..2][..1] == s[..1] && s[..1][..0] == [];
    assert SumTaken(s[..1]) == Taken(s[0]);
    assert SumTaken(s[..2]) == SumTaken(s[..1]) + Taken(s[1]);
    assert SumTaken(s[..3]) == SumTaken(s[..2]) + Taken(s[2]);
    assert SumTaken(s[..4]) == SumTaken(s[..3]) + Taken(s[3]);
    assert SumTaken(s[..5]) == SumTaken(s[..4]) + Taken(s[4]);
    assert SumTaken(s[..6]) == SumTaken(s[..5]) + Taken(s[5]);
    assert SumTaken(s[..7]) == SumTaken(s[..6]) + Taken(s[6]);
  }

  lemma SumOfPieces(t: Timings)
    ensures SumTaken(Steps(Har(t))) ==
            Taken(Ms(Or(Pressed(t), 0))) + Taken(Ms(Rest(t))) + Taken(Ms(Waiting(t))) + Taken(Ms(Or(t.receive, 0)))
  {
    hide SumTaken, WholeMs, Waiting, AsI64;
    SumOfSteps(Har(t));
    NothingIsNoMs();
    assert AsI64(0) == 0;
  }

  /** `time` is what the pieces come to exactly below 2^63, and at least 2^64 - 4 too small from there on. */
  lemma TimeIsTheRoundedSum(t: Timings)
    ensures Rounded(t) < TWO_63 ==> Time(t) == Rounded(t)
    ensures Rounded(t) >= TWO_63 ==> Rounded(t) - Time(t) >= TWO_64 - 4
  {
    hide Ms, WholeMs, SumTaken, Waiting, Rest, Taken, Har, Steps, AsI64;
    SumOfPieces(t);
    var sum := SumTaken(Steps(Har(t)));
    var q0, e0 := PieceWraps(Or(Pressed(t), 0));
    var q1, e1 := PieceWraps(Rest(t));
    var q2, e2 := PieceWraps(Waiting(t));
    var q3, e3 := PieceWraps(Or(t.receive, 0));
    assert sum == Rounded(t) + (e0 + e1 + e2 + e3) - (q0 + q1 + q2 + q3) * TWO_64;
    var j: int :| Time(t) == sum - j * TWO_64;
    var m := q0 + q1 + q2 + q3 + j;
    assert Time(t) == Rounded(t) + (e0 + e1 + e2 + e3) - m * TWO_64;
  }

  /**
   Whatever the lookups took, and whether the connection was made or reused, `time` is the whole stretch
   but for the rounding of its pieces exactly when their whole milliseconds stay below 2^63.
   */
  lemma TimeIsTheWholeRoundedDown(t: Timings)
    ensures RoundedDown(t, Time(t)) <==> Rounded(t) < TWO_63
  {
    hide Time, Rounded, WholeMs, Whole;
    TimeIsTheRoundedSum(t);
    OnlyRoundingIsLost(t);
  }

  /** With connection, waiting and receiving known, the sum is at most three milliseconds short of them. */
  lemma KnownStepsAreThreeShortAtMost(t: Timings)
    requires t.connect.Some? && t.wait.Some? && t.receive.Some?
    ensures 0 <= WholeMs(t.connect.value + t.wait.value + t.receive.value) - Time(t) <= 3 <==> Rounded(t) < TWO_63
  {
    hide Time, Rounded, WholeMs;
    TimeIsTheRoundedSum(t);
    OnlyRoundingIsLost(t);
  }

  /** Without a connection and without receiving, it is at most one short of the whole request. */
  lemma NoConnectionIsOneShortAtMost(t: Timings)
    requires t.connect.None? && t.receive.None?
    ensures 0 <= WholeMs(t.total) - Time(t) <= 1 <==> Rounded(t) < TWO_63
  {
    hide Time, Rounded, WholeMs;
    TimeIsTheRoundedSum(t);
    OnlyRoundingIsLost(t);
  }

  /** Below that, each step says by itself whether it was taken, and none is negative but for the -1. */
  lemma StepsTellWhatWasTaken(t: Timings)
    requires Rounded(t) < TWO_63
    ensures var h := Har(t);
            && (h.blocked >= 0 <==> t.connect.Some? && t.reused) && (h.connect >= 0 <==> t.connect.Some? && !t.reused)
            && (h.dns >= 0 <==> t.dns.Some?) && h.wait >= 0 && h.receive >= 0
            && forall k :: 0 <= k < 7 ==> Steps(h)[k] >= -1
  {
    hide WholeMs, Waiting, Rest;
  }

  /** The shorter of two durations. */
  predicate IsShorter(d: nat, a: nat, b: nat) {
    d <= a && d <= b && (d == a || d == b)
  }

  /**
   Below that, each step is the whole milliseconds of its own piece. The lookups count for no more than the
   connection, or than the whole request without one, and are taken off what they are part of.
   */
  lemma StepsAre(t: Timings, lookups: nat)
    requires Rounded(t) < TWO_63
    requires if t.dns.None? then lookups == 0
             else IsShorter(lookups, t.dns.value, if t.connect.Some? then t.connect.value else t.total)
    ensures var h := Har(t);
            && h.dns == (if t.dns.Some? then WholeMs(lookups) else -1)
            && (t.connect.Some? ==> lookups <= t.connect.value)
            && h.blocked == (if t.connect.Some? && t.reused then WholeMs(t.connect.value - lookups) else -1)
            && h.connect == (if t.connect.Some? && !t.reused then WholeMs(t.connect.value - lookups) else -1)
            && h.ssl == -1 && h.send == 0
            && h.receive == (if t.receive.Some? then WholeMs(t.receive.value) else 0)
    ensures t.connect.Some? && t.wait.Some? ==> Har(t).wait == WholeMs(t.wait.value)
    ensures t.connect.Some? && t.wait.None? && t.total >= t.connect.value ==>
              Har(t).wait == WholeMs(t.total - t.connect.value)
    ensures t.connect.None? ==> lookups <= t.total && Har(t).wait == WholeMs(t.total - lookups)
  {
    hide WholeMs;
    assert lookups == Or(Pressed(t), 0);
  }

  method TimingsOf(t: Timings) returns (h: HarTimings, time: int)
    ensures h == Har(t) && time == Time(t)
    ensures RoundedDown(t, time) <==> Rounded(t) < TWO_63
  {
    var reach := Or(t.connect, t.total);
    var dns := if t.dns.Some? then Some(Min(t.dns.value, reach)) else None;
    var pressed := Or(dns, 0);
    var wait :=
      if t.connect.Some? && t.wait.Some? then t.wait.value
      else if t.connect.Some? then SaturatingSub(t.total, t.connect.value)
      else SaturatingSub(t.total, pressed);
    var left := if t.connect.Some? then Some(SaturatingSub(t.connect.value, pressed)) else None;
    h := HarTimings(
      MsOr(if t.reused then left else None, -1),
      MsOr(dns, -1),
      MsOr(if t.reused then None else left, -1),
      -1, 0, Ms(wait), MsOr(t.receive, 0));
    assert h == Har(t);
    TimeIsTheWholeRoundedDown(t);
    time := Sum(Steps(h));
  }

  /** The sum as 64 bits make it, step by step. */
  method Sum(steps: seq<int>) returns (time: int)
    ensures time == AsI64(SumTaken(steps))
  {
    time := 0;
    for k := 0 to |steps|
      invariant time == AsI64(SumTaken(steps[..k]))
    {
      assert steps[..k + 1][..k] == steps[..k];
      if steps[k] != -1 {
        WrapsOnce(SumTaken(steps[..k]), steps[k]);
        time := AsI64(time + steps[k]);
      }
    }
    assert steps[..|steps|] == steps;
  }

  /** Wrapping around at every addition is wrapping around once at the end. */
  lemma WrapsOnce(a: int, b: int)
    ensures AsI64(AsI64(a) + b) == AsI64(a + b)
  {
    hide AsI64;
    var m: int :| AsI64(a) == a - m * TWO_64;
    var n: int :| AsI64(AsI64(a) + b) == AsI64(a) + b - n * TWO_64;
    var k: int :| AsI64(a + b) == a + b - k * TWO_64;
    assert AsI64(AsI64(a) + b) - AsI64(a + b) == (k - m - n) * TWO_64;
  }

  /** A duration is given as its whole milliseconds exactly when they are a number of 64 bits. */
  lemma ExactWhenItFits(d: nat)
    ensures Ms(d) == WholeMs(d) <==> WholeMs(d) < TWO_63
  {
    hide AsI64;
  }

  /** Beyond 64 bits a step that was taken can come out as one that was not. */
  lemma BeyondSixtyFourBits()
    ensures var t := Timings(None, None, None, None, 0xFFFF_FFFF_FFFF_FFFF * NANOS_PER_MS, false);
            Rounded(t) >= TWO_63 && Har(t).wait == -1 && Time(t) == 0
  {
    var t := Timings(None, None, None, None, 0xFFFF_FFFF_FFFF_FFFF * NANOS_PER_MS, false);
    assert WholeMs(t.total) == 0xFFFF_FFFF_FFFF_FFFF;
    SumOfSteps(Har(t));
  }
}
