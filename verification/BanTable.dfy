/**
 Bans by counting. A history of lookups and failures settles, for each source, which of its failures count
 and whether it is banned; the table has to agree with that although it holds no more than 1024 sources and
 forgets the one that has been quiet longest.
 */
module BanTable {
  import opened Picking
  import opened Sets
  import opened Wrappers

  /** Times are nanoseconds on the monotonic clock. */
  const SECOND: nat := 1_000_000_000
  const BAN_FAILURES: nat := 5
  const BAN_WINDOW: nat := 600 * SECOND
  const BAN_DURATION: nat := 600 * SECOND
  const MAX_TRACKED: nat := 1024

  type Ip = nat

  datatype Entry = Entry(failures: seq<nat>, bannedUntil: Option<nat>, touched: nat)

  type Table = map<Ip, Entry>

  // ---------- the two operations on the table ----------

  predicate Bans(table: Table, ip: Ip, now: nat) {
    ip in table && table[ip].bannedUntil.Some? && now < table[ip].bannedUntil.value
  }

  /** The table after `ip` was looked up: a ban whose time is up is taken off. */
  function AfterLookup(table: Table, ip: Ip, now: nat): Table {
    if ip in table && table[ip].bannedUntil.Some? && !Bans(table, ip, now)
    then table[ip := Entry([], None, table[ip].touched)]
    else table
  }

  /** The failures from the first one on that is not too old. */
  function Prune(failures: seq<nat>, now: nat): seq<nat> {
    if failures != [] && now - failures[0] > BAN_WINDOW then Prune(failures[1..], now) else failures
  }

  /** The failures of a source once this one is counted. */
  function Counted(table: Table, ip: Ip, now: nat): seq<nat> {
    Prune(if ip in table then table[ip].failures else [], now) + [now]
  }

  function AfterFailure(table: Table, ip: Ip, now: nat): Table {
    var counted := Counted(table, ip, now);
    table[ip := if |counted| >= BAN_FAILURES then Entry([], Some(now + BAN_DURATION), now)
                else Entry(counted, if ip in table then table[ip].bannedUntil else None, now)]
  }

  /** A source that is not in a full table takes the place of one that failed longest ago. */
  predicate Evicts(table: Table, ip: Ip, evicted: Option<Ip>) {
    match evicted
    case None => ip in table || |table| < MAX_TRACKED
    case Some(v) => ip !in table && |table| >= MAX_TRACKED && v in table
                    && forall k <- table :: table[v].touched <= table[k].touched
  }

  function Without(table: Table, evicted: Option<Ip>): Table {
    if evicted.Some? then table - {evicted.value} else table
  }

  // ---------- what happened, in order ----------

  datatype Event =
    | Lookup(ip: Ip, now: nat)
    | Failure(ip: Ip, now: nat, evicted: Option<Ip>)

  function TableAfter(log: seq<Event>): Table {
    if log == [] then map[]
    else
      var before := TableAfter(log[..|log| - 1]);
      match log[|log| - 1]
      case Lookup(ip, now) => AfterLookup(before, ip, now)
      case Failure(ip, now, evicted) => AfterFailure(Without(before, evicted), ip, now)
  }

  /** Every eviction was one the table called for. */
  ghost predicate Legal(log: seq<Event>) {
    log != [] ==>
      var front, last := log[..|log| - 1], log[|log| - 1];
      Legal(front) && (last.Failure? ==> Evicts(TableAfter(front), last.ip, last.evicted))
  }

  /**
   No failure is earlier than the one recorded before it. A request reads the clock before it has the table,
   so two at once may come the other way round.
   */
  ghost predicate InOrder(log: seq<Event>) {
    log != [] ==>
      var front, last := log[..|log| - 1], log[|log| - 1];
      InOrder(front) && (last.Failure? ==> Latest(front) <= last.now)
  }

  /** The time of the last failure of any source; 0 before the first. */
  function Latest(log: seq<Event>): nat {
    if log == [] then 0
    else if log[|log| - 1].Failure? then log[|log| - 1].now
    else Latest(log[..|log| - 1])
  }

  /** The sources that have failed, and when each of them did last. */
  function LastFailures(log: seq<Event>): map<Ip, nat> {
    if log == [] then map[]
    else
      var before, last := LastFailures(log[..|log| - 1]), log[|log| - 1];
      if last.Failure? then before[last.ip := last.now] else before
  }

  // ---------- the sources that are kept ----------

  lemma {:induction false} NoneLaterThanLatest(log: seq<Event>)
    requires InOrder(log)
    ensures forall ip <- LastFailures(log) :: LastFailures(log)[ip] <= Latest(log)
    decreases |log|
  {
    if log != [] {
      NoneLaterThanLatest(log[..|log| - 1]);
    }
  }

  function Capped(n: nat): nat {
    if n <= MAX_TRACKED then n else MAX_TRACKED
  }

  /** What holds of the table after every history; `last` are the last failures of all sources. */
  ghost predicate KeepsRecent(last: map<Ip, nat>, table: Table) {
    && table.Keys <= last.Keys && |table.Keys| == Capped(|last.Keys|)
    && (forall ip <- table :: table[ip].touched == last[ip])
    && (forall gone <- last, ip <- table :: gone !in table ==> last[gone] <= last[ip])
  }

  /** The table has the sources that failed last, with the times of their last failures. */
  lemma {:induction false} TableKeepsRecent(log: seq<Event>)
    requires Legal(log) && InOrder(log)
    ensures KeepsRecent(LastFailures(log), TableAfter(log))
    decreases |log|
  {
    hide KeepsRecent;
    if log == [] {
      NothingKept();
    } else {
      var front, last := log[..|log| - 1], log[|log| - 1];
      TableKeepsRecent(front);
      match last {
        case Lookup(ip, now) => LookupKeepsRecent(LastFailures(front), TableAfter(front), ip, now);
        case Failure(ip, now, evicted) =>
          NoneLaterThanLatest(front);
          FailureKeepsRecent(LastFailures(front), TableAfter(front), ip, now, evicted);
      }
    }
  }

  lemma NothingKept()
    ensures KeepsRecent(map[], map[])
  {
  }

  lemma LookupKeepsRecent(last: map<Ip, nat>, table: Table, ip: Ip, now: nat)
    requires KeepsRecent(last, table)
    ensures KeepsRecent(last, AfterLookup(table, ip, now))
  {
    assert AfterLookup(table, ip, now).Keys == table.Keys;
  }

  lemma FailureKeepsRecent(last: map<Ip, nat>, table: Table, ip: Ip, now: nat, evicted: Option<Ip>)
    requires KeepsRecent(last, table) && Evicts(table, ip, evicted)
    requires forall s <- last :: last[s] <= now
    ensures KeepsRecent(last[ip := now], AfterFailure(Without(table, evicted), ip, now))
  {
    hide AfterFailure, Evicts, KeepsRecent, Without, Capped;
    var last', kept := last[ip := now], Without(table, evicted);
    var after := AfterFailure(kept, ip, now);
    AfterFailureTouches(kept, ip, now);
    assert table.Keys <= last.Keys && |table.Keys| == Capped(|last.Keys|) by { KeepsKeys(last, table); }
    KeptSize(last, table, ip, now, evicted);
    forall k <- kept ensures k in last && kept[k].touched == last[k] {
      StillKept(last, table, evicted, k);
    }
    forall gone <- last', k <- after | gone !in after ensures last'[gone] <= last'[k] {
      NoneGoneFailedLater(last, table, ip, now, evicted, gone, k);
    }
    ToKeepRecent(last', after);
  }

  lemma KeepsKeys(last: map<Ip, nat>, table: Table)
    requires KeepsRecent(last, table)
    ensures table.Keys <= last.Keys && |table.Keys| == Capped(|last.Keys|)
  {
  }

  lemma ToKeepRecent(last: map<Ip, nat>, table: Table)
    requires table.Keys <= last.Keys && |table.Keys| == Capped(|last.Keys|)
    requires forall ip <- table :: table[ip].touched == last[ip]
    requires forall gone <- last, ip <- table :: gone !in table ==> last[gone] <= last[ip]
    ensures KeepsRecent(last, table)
  {
  }

  lemma StillKept(last: map<Ip, nat>, table: Table, evicted: Option<Ip>, k: Ip)
    requires KeepsRecent(last, table) && k in Without(table, evicted)
    ensures k in last && Without(table, evicted)[k].touched == last[k]
  {
  }

  lemma KeptSize(last: map<Ip, nat>, table: Table, ip: Ip, now: nat, evicted: Option<Ip>)
    requires table.Keys <= last.Keys && |table.Keys| == Capped(|last.Keys|) && Evicts(table, ip, evicted)
    ensures |Without(table, evicted).Keys + {ip}| == Capped(|last[ip := now].Keys|)
  {
    SizeStays(table.Keys, last.Keys, ip, evicted);
    assert last[ip := now].Keys == last.Keys + {ip};
    assert Without(table, evicted).Keys == if evicted.Some? then table.Keys - {evicted.value} else table.Keys;
    assert |table| == |table.Keys|;
  }

  /** What is evicted failed no later than what stays, and neither did what was gone before. */
  lemma NoneGoneFailedLater(last: map<Ip, nat>, table: Table, ip: Ip, now: nat, evicted: Option<Ip>, gone: Ip, k: Ip)
    requires KeepsRecent(last, table) && Evicts(table, ip, evicted)
    requires forall s <- last :: last[s] <= now
    requires gone in last && gone != ip && gone !in Without(table, evicted)
    requires k == ip || k in Without(table, evicted)
    ensures last[gone] <= last[ip := now][k]
  {
  }

  lemma AfterFailureTouches(table: Table, ip: Ip, now: nat)
    ensures var after := AfterFailure(table, ip, now);
            && after.Keys == table.Keys + {ip} && after[ip].touched == now
            && (forall k <- table :: k != ip ==> after[k] == table[k])
  {
  }

  /** The table grows until it is full, and stays full from then on. */
  lemma SizeStays(keys: set<Ip>, sources: set<Ip>, ip: Ip, evicted: Option<Ip>)
    requires keys <= sources && |keys| == Capped(|sources|)
    requires match evicted
             case None => ip in keys || |keys| < MAX_TRACKED
             case Some(v) => ip !in keys && |keys| >= MAX_TRACKED && v in keys
    ensures var keys', sources' := (if evicted.Some? then keys - {evicted.value} else keys) + {ip}, sources + {ip};
            && |keys'| == Capped(|sources'|)
            && (evicted.None? && ip !in keys ==> keys == sources)
  {
    if ip in sources {
      assert sources + {ip} == sources;
    }
    if |sources| < MAX_TRACKED {
      SubsetOfSameSize(keys, sources);
    } else if evicted.None? && ip in keys {
      assert keys + {ip} == keys && sources + {ip} == sources;
    } else if evicted.Some? {
      assert |keys - {evicted.value} + {ip}| == |keys|;
    }
  }

  /** In whatever order the times come, the table has as many sources as it may and their last failures. */
  lemma {:induction false} TableKeepsTimes(log: seq<Event>)
    requires Legal(log)
    ensures var last, table := LastFailures(log), TableAfter(log);
            && table.Keys <= last.Keys && |table.Keys| == Capped(|last.Keys|)
            && forall ip <- table :: table[ip].touched == last[ip]
    decreases |log|
  {
    hide AfterFailure, Evicts;
    if log != [] {
      var front, last := log[..|log| - 1], log[|log| - 1];
      TableKeepsTimes(front);
      match last {
        case Lookup(ip, now) =>
        case Failure(ip, now, evicted) =>
          AfterFailureTouches(Without(TableAfter(front), evicted), ip, now);
          KeptSize(LastFailures(front), TableAfter(front), ip, now, evicted);
      }
    }
  }

  /** The sources whose last failure came after that of `ip`. */
  function FailedLater(last: map<Ip, nat>, ip: Ip): set<Ip>
    requires ip in last
  {
    set other | other in last && last[other] > last[ip]
  }

  /**
   With failures at different times, a source is kept exactly when fewer than 1024 other sources
   have failed after it: the table is a true least-recently-failing one, of bounded size.
   */
  lemma KeptExactlyWhenRecent(log: seq<Event>, ip: Ip)
    requires Legal(log) && InOrder(log) && ip in LastFailures(log)
    requires var last := LastFailures(log); forall a <- last, b <- last :: last[a] == last[b] ==> a == b
    ensures ip in TableAfter(log) <==> |FailedLater(LastFailures(log), ip)| < 1024
    ensures |TableAfter(log)| <= 1024
  {
    TableKeepsRecent(log);
    assert |TableAfter(log)| == |TableAfter(log).Keys|;
    Kept(LastFailures(log), TableAfter(log), ip);
  }

  lemma Kept(last: map<Ip, nat>, table: Table, ip: Ip)
    requires KeepsRecent(last, table) && ip in last
    requires forall a <- last, b <- last :: last[a] == last[b] ==> a == b
    ensures ip in table <==> |FailedLater(last, ip)| < MAX_TRACKED
  {
    var later := FailedLater(last, ip);
    if ip in table {
      SubsetIsSmaller(later, table.Keys - {ip});
      assert |table.Keys - {ip}| == |table.Keys| - 1;
    } else {
      SubsetIsSmaller(table.Keys, later);
      if |table.Keys| < MAX_TRACKED {
        SubsetOfSameSize(table.Keys, last.Keys);
      }
    }
  }

  // ---------- the failures that count, and the bans ----------

  /** The failures that lie within the window before `now`. */
  function Recent(failures: seq<nat>, now: nat): seq<nat> {
    if failures == [] then []
    else (if now - failures[0] <= BAN_WINDOW then [failures[0]] else []) + Recent(failures[1..], now)
  }

  /** The failures that count when the last of them comes: each one drops those from the front that are too old. */
  function Window(failures: seq<nat>): (r: seq<nat>)
    ensures |r| <= |failures|
  {
    if failures == [] then []
    else
      var now := failures[|failures| - 1];
      PruneShortens(Window(failures[..|failures| - 1]), now);
      Prune(Window(failures[..|failures| - 1]), now) + [now]
  }

  lemma {:induction false} PruneShortens(failures: seq<nat>, now: nat)
    ensures |Prune(failures, now)| <= |failures|
    decreases |failures|
  {
    if failures != [] {
      PruneShortens(failures[1..], now);
    }
  }

  /** The failure at `now`, the ones in `since` before it, is one too many. */
  predicate Fifth(since: seq<nat>, now: nat) {
    |Window(since + [now])| >= BAN_FAILURES
  }

  /**
   What the history says of a source, without any table: when its last ban began, unless it has been
   seen to be over or the source was put out of the table; and all its failures since then.
   */
  datatype Standing = Standing(since: seq<nat>, ban: Option<nat>)

  function StandingOf(log: seq<Event>, ip: Ip): Standing {
    if log == [] then Standing([], None)
    else
      var before := StandingOf(log[..|log| - 1], ip);
      match log[|log| - 1]
      case Lookup(i, now) =>
        if i == ip && before.ban.Some? && now >= before.ban.value + BAN_DURATION then Standing([], None) else before
      case Failure(i, now, evicted) =>
        if evicted == Some(ip) then Standing([], None)
        else if i != ip then before
        else if Fifth(before.since, now) then Standing([], Some(now))
        else Standing(before.since + [now], before.ban)
  }

  predicate Sorted(s: seq<nat>) {
    forall i, j :: 0 <= i < j < |s| ==> s[i] <= s[j]
  }

  /** The entry of a source that stands like this. */
  ghost predicate Mirrors(entry: Entry, standing: Standing) {
    && entry.failures == Window(standing.since) && |entry.failures| < BAN_FAILURES
    && entry.bannedUntil == (if standing.ban.Some? then Some(standing.ban.value + BAN_DURATION) else None)
  }

  /** The standing of a source is what the table has of it; one that is not in it has none. */
  ghost predicate Agrees(table: Table, ip: Ip, standing: Standing) {
    if ip in table then Mirrors(table[ip], standing) else standing == Standing([], None)
  }

  lemma {:induction false} AllRecent(failures: seq<nat>, now: nat)
    requires forall k :: 0 <= k < |failures| ==> now - failures[k] <= BAN_WINDOW
    ensures Recent(failures, now) == failures
    decreases |failures|
  {
    if failures != [] {
      AllRecent(failures[1..], now);
    }
  }

  /** Of failures in order, taking the old ones off the front leaves exactly the recent ones. */
  lemma {:induction false} PruneLeavesRecent(failures: seq<nat>, earlier: nat, now: nat)
    requires Sorted(failures) && earlier <= now
    ensures Prune(Recent(failures, earlier), now) == Recent(failures, now)
    decreases |failures|
  {
    if failures != [] {
      if now - failures[0] > BAN_WINDOW {
        PruneLeavesRecent(failures[1..], earlier, now);
        assert [] + Recent(failures[1..], now) == Recent(failures[1..], now);
        assert [] + Recent(failures[1..], earlier) == Recent(failures[1..], earlier);
        if earlier - failures[0] <= BAN_WINDOW {
          assert ([failures[0]] + Recent(failures[1..], earlier))[1..] == Recent(failures[1..], earlier);
        }
      } else {
        AllRecent(failures, now);
        AllRecent(failures, earlier);
      }
    }
  }

  lemma {:induction false} RecentConcat(a: seq<nat>, b: seq<nat>, now: nat)
    ensures Recent(a + b, now) == Recent(a, now) + Recent(b, now)
    decreases |a|
  {
    if a == [] {
      assert a + b == b;
    } else {
      assert (a + b)[1..] == a[1..] + b;
      RecentConcat(a[1..], b, now);
      var head := if now - a[0] <= BAN_WINDOW then [a[0]] else [];
      assert Recent(a + b, now) == head + (Recent(a[1..], now) + Recent(b, now));
    }
  }

  /** In order, the failures that count are the recent ones, wherever among the others they stand. */
  lemma {:induction false} WindowIsRecent(failures: seq<nat>)
    requires Sorted(failures) && failures != []
    ensures Window(failures) == Recent(failures, failures[|failures| - 1])
    decreases |failures|
  {
    var front, now := failures[..|failures| - 1], failures[|failures| - 1];
    assert failures == front + [now] && Recent([now], now) == [now];
    RecentConcat(front, [now], now);
    if front != [] {
      WindowIsRecent(front);
      PruneLeavesRecent(front, front[|front| - 1], now);
    }
  }

  // ---------- when exactly the recent failures count ----------

  /** Behind a failure that is recent there is none that is too old. */
  predicate OldFirst(failures: seq<nat>, now: nat) {
    forall i, j :: 0 <= i < j < |failures| && now - failures[i] <= BAN_WINDOW ==> now - failures[j] <= BAN_WINDOW
  }

  predicate AllOld(failures: seq<nat>, now: nat) {
    forall k :: 0 <= k < |failures| ==> now - failures[k] > BAN_WINDOW
  }

  lemma {:induction false} RecentOnes(failures: seq<nat>, now: nat)
    ensures forall f <- Recent(failures, now) :: now - f <= BAN_WINDOW
    ensures Recent(failures, now) == [] <==> AllOld(failures, now)
    decreases |failures|
  {
    if failures != [] {
      RecentOnes(failures[1..], now);
      assert failures == [failures[0]] + failures[1..];
    }
  }

  /** What is taken off the front is too old. */
  lemma {:induction false} PrunePops(failures: seq<nat>, now: nat)
    ensures |Prune(failures, now)| <= |failures|
    ensures Prune(failures, now) == failures[|failures| - |Prune(failures, now)|..]
    ensures AllOld(failures[..|failures| - |Prune(failures, now)|], now)
    decreases |failures|
  {
    if failures != [] && now - failures[0] > BAN_WINDOW {
      PrunePops(failures[1..], now);
    }
  }

  lemma AllRecentAre(failures: seq<nat>, now: nat)
    ensures Recent(failures, now) == failures <==> forall k :: 0 <= k < |failures| ==> now - failures[k] <= BAN_WINDOW
  {
    hide Recent;
    RecentOnes(failures, now);
    if Recent(failures, now) == failures {
      forall k | 0 <= k < |failures| ensures now - failures[k] <= BAN_WINDOW {
        assert failures[k] in Recent(failures, now);
      }
    } else if forall k :: 0 <= k < |failures| ==> now - failures[k] <= BAN_WINDOW {
      AllRecent(failures, now);
    }
  }

  lemma OldInFront(failures: seq<nat>, now: nat)
    requires failures != [] ==> now - failures[0] > BAN_WINDOW
    ensures OldFirst(failures, now) <==> failures == [] || OldFirst(failures[1..], now)
  {
    if failures != [] && OldFirst(failures[1..], now) {
      var tail := failures[1..];
      forall i, j | 0 <= i < j < |failures| && now - failures[i] <= BAN_WINDOW
        ensures now - failures[j] <= BAN_WINDOW
      {
        assert tail[i - 1] == failures[i] && tail[j - 1] == failures[j];
      }
    }
  }

  lemma RecentInFront(failures: seq<nat>, now: nat)
    requires failures != [] && now - failures[0] <= BAN_WINDOW
    ensures OldFirst(failures, now) <==> forall k :: 0 <= k < |failures| ==> now - failures[k] <= BAN_WINDOW
  {
  }

  /** Looking at the front alone leaves the recent ones exactly when the old ones stand first. */
  lemma {:induction false} PruneIsRecentAt(failures: seq<nat>, now: nat)
    ensures Prune(failures, now) == Recent(failures, now) <==> OldFirst(failures, now)
    decreases |failures|
  {
    hide OldFirst;
    if failures == [] {
      OldInFront(failures, now);
    } else if now - failures[0] > BAN_WINDOW {
      PruneIsRecentAt(failures[1..], now);
      assert [] + Recent(failures[1..], now) == Recent(failures[1..], now);
      OldInFront(failures, now);
    } else {
      AllRecentAre(failures, now);
      RecentInFront(failures, now);
    }
  }

  /** It does so at all times exactly when the failures are in order. */
  lemma PruneIsRecentExactlyWhenSorted(failures: seq<nat>)
    ensures Sorted(failures) <==> forall now: nat :: Prune(failures, now) == Recent(failures, now)
  {
    hide Prune, Recent;
    if Sorted(failures) {
      forall now: nat ensures Prune(failures, now) == Recent(failures, now) {
        PruneIsRecentAt(failures, now);
      }
    } else {
      var i, j :| 0 <= i < j < |failures| && failures[i] > failures[j];
      var now := failures[j] + BAN_WINDOW + 1;
      PruneIsRecentAt(failures, now);
      assert now - failures[i] <= BAN_WINDOW < now - failures[j];
    }
  }

  /** What is in the window came last, and what was put out before was too old at the time. */
  lemma {:induction false} WindowIsTheEnd(since: seq<nat>)
    ensures Window(since) == since[|since| - |Window(since)|..]
    decreases |since|
  {
    if since != [] {
      var front, now := since[..|since| - 1], since[|since| - 1];
      WindowIsTheEnd(front);
      PrunePops(Window(front), now);
    }
  }

  lemma OneMoreCounts(since: seq<nat>, now: nat)
    ensures Window(since + [now]) == Prune(Window(since), now) + [now]
  {
    assert (since + [now])[..|since|] == since;
  }

  /** The failures of a source that were put out of its window. */
  function PutOut(since: seq<nat>): seq<nat> {
    since[..|since| - |Window(since)|]
  }

  /** A failure adds to them what it takes off the front of the window. */
  lemma PutOutGrows(since: seq<nat>, now: nat) returns (popped: seq<nat>)
    ensures AllOld(popped, now) && PutOut(since + [now]) == PutOut(since) + popped
  {
    hide Window, Prune, AllOld;
    var w := Window(since);
    PrunePops(w, now);
    popped := w[..|w| - |Prune(w, now)|];
    OneMoreCounts(since, now);
    WindowIsTheEnd(since);
    var rest := |since| - |Prune(w, now)|;
    assert since == PutOut(since) + w;
    assert (since + [now])[..rest] == since[..rest] == PutOut(since) + popped;
  }

  /** They stay too old as long as the clock does not go back behind a failure. */
  lemma {:induction false} PutOutStayOld(since: seq<nat>, now: nat)
    requires forall f <- since :: f <= now
    ensures AllOld(PutOut(since), now)
    decreases |since|
  {
    hide Window, PutOut;
    if since == [] {
      assert PutOut([]) == [] by { NothingIsPutOut(); }
    } else {
      var front, last := since[..|since| - 1], since[|since| - 1];
      forall f <- front ensures f <= now {
        assert f in since;
      }
      PutOutStayOld(front, now);
      var popped := PutOutGrows(front, last);
      assert since == front + [last] && last in since;
      assert AllOld(popped, now);
    }
  }

  lemma NothingIsPutOut()
    ensures PutOut([]) == []
  {
  }

  /**
   A failure at `now` is counted with exactly the recent ones before it if and only if, of those still in
   the window, the old ones stand first, and those put out are too old for it as well.
   */
  lemma CountsExactlyTheRecent(since: seq<nat>, now: nat)
    ensures Window(since + [now]) == Recent(since + [now], now) <==>
            OldFirst(Window(since), now) && AllOld(PutOut(since), now)
  {
    hide Window, Recent, Prune, OldFirst, AllOld;
    var w, out := Window(since), PutOut(since);
    OneMoreCounts(since, now);
    WindowIsTheEnd(since);
    assert since == out + w;
    RecentConcat(since, [now], now);
    RecentConcat(out, w, now);
    JustNow(now);
    PruneIsRecentAt(w, now);
    RecentOnes(out, now);
    if Prune(w, now) + [now] == Recent(out, now) + Recent(w, now) + [now] {
      var kept, all := Prune(w, now), Recent(out, now) + Recent(w, now);
      assert kept == (kept + [now])[..|kept|] == (all + [now])[..|all|] == all;
      KeptAreAllRecent(w, Recent(out, now), now);
    }
  }

  lemma JustNow(now: nat)
    ensures Recent([now], now) == [now]
  {
    assert [now][1..] == [];
  }

  lemma KeptAreAllRecent(w: seq<nat>, before: seq<nat>, now: nat)
    requires Prune(w, now) == before + Recent(w, now) && forall f <- before :: now - f <= BAN_WINDOW
    ensures before == [] && Prune(w, now) == Recent(w, now)
  {
    hide Prune, Recent;
    PrunePops(w, now);
    var kept := Prune(w, now);
    var popped := w[..|w| - |kept|];
    RecentOnes(w, now);
    forall k | 0 <= k < |kept| ensures now - kept[k] <= BAN_WINDOW {
      assert kept[k] in before || kept[k] in Recent(w, now);
    }
    AllRecent(kept, now);
    RecentOnes(popped, now);
    assert w == popped + kept;
    RecentConcat(popped, kept, now);
    assert Recent(w, now) == [] + kept == kept;
    assert |before| == 0;
  }

  lemma TwoCount(a: nat, b: nat)
    ensures Window([a, b]) == if b - a > BAN_WINDOW then [b] else [a, b]
  {
    hide Window;
    NothingCounts();
    OneMoreCounts([], a);
    OneMoreCounts([a], b);
    assert [] + [a] == [a] && [a] + [b] == [a, b] && [a][1..] == [];
  }

  /**
   The smallest failure of order, two requests at once of which the younger is recorded first: at every time
   that is too late for the older and not for the younger, the older one still counts.
   */
  lemma OutOfOrderAnOldOneCounts(a: nat, b: nat, now: nat)
    requires a > b && b + BAN_WINDOW < now <= a + BAN_WINDOW
    ensures Prune([a, b], now) == [a, b] && Recent([a, b], now) == [a]
    ensures Window([a, b] + [now]) == [a, b, now] && Recent([a, b] + [now], now) == [a, now]
  {
    assert [a, b][1..] == [b] && [b][1..] == [];
    assert Recent([b], now) == [] && Recent([a, b], now) == [a] + Recent([b], now);
    TwoCount(a, b);
    OneMoreCounts([a, b], now);
    RecentConcat([a, b], [now], now);
    JustNow(now);
  }

  /** The other way to fail: what a younger failure put out is missed by an older one that is recorded late. */
  lemma OutOfOrderARecentOneIsMissed(a: nat, b: nat, now: nat)
    requires a + BAN_WINDOW < b && now <= a + BAN_WINDOW
    ensures Window([a, b] + [now]) == [b, now] && Recent([a, b] + [now], now) == [a, b, now]
  {
    TwoCount(a, b);
    OneMoreCounts([a, b], now);
    AllRecent([a, b] + [now], now);
  }

  /** What the table counts for a source are the failures that count, this one included. */
  lemma CountedIsWindow(table: Table, ip: Ip, standing: Standing, now: nat)
    requires Agrees(table, ip, standing)
    ensures Counted(table, ip, now) == Window(standing.since + [now])
  {
    assert (standing.since + [now])[..|standing.since|] == standing.since;
  }

  lemma NothingCounts()
    ensures Window([]) == []
  {
  }

  lemma FailureAgrees(table: Table, ip: Ip, standing: Standing, now: nat)
    requires Agrees(table, ip, standing)
    ensures Agrees(AfterFailure(table, ip, now), ip,
                   if Fifth(standing.since, now) then Standing([], Some(now))
                   else Standing(standing.since + [now], standing.ban))
  {
    hide Prune, Counted, Window;
    CountedIsWindow(table, ip, standing, now);
    NothingCounts();
  }

  /** After every history the table has, of every source, what the history says of it. */
  lemma {:induction false} TableAgrees(log: seq<Event>, ip: Ip)
    requires Legal(log)
    ensures Agrees(TableAfter(log), ip, StandingOf(log, ip))
    decreases |log|
  {
    hide Recent, Prune, Fifth, Agrees, AfterFailure, Evicts;
    if log == [] {
      NothingStands(ip);
    } else {
      var front, last := log[..|log| - 1], log[|log| - 1];
      TableAgrees(front, ip);
      match last {
        case Lookup(i, now) => LookupAgrees(TableAfter(front), i, ip, StandingOf(front, ip), now);
        case Failure(i, now, evicted) =>
          EvictionAgrees(TableAfter(front), i, ip, StandingOf(front, ip), now, evicted);
          if i == ip {
            FailureAgrees(Without(TableAfter(front), evicted), ip, StandingOf(front, ip), now);
          }
      }
    }
  }

  lemma NothingStands(ip: Ip)
    ensures Agrees(map[], ip, Standing([], None))
  {
  }

  lemma LookupAgrees(table: Table, i: Ip, ip: Ip, standing: Standing, now: nat)
    requires Agrees(table, ip, standing)
    ensures Agrees(AfterLookup(table, i, now), ip,
                   if i == ip && standing.ban.Some? && now >= standing.ban.value + BAN_DURATION then Standing([], None)
                   else standing)
  {
    hide Recent;
  }

  /** Another source's failure leaves the standing as it is, unless it puts this source out of the table. */
  lemma EvictionAgrees(table: Table, i: Ip, ip: Ip, standing: Standing, now: nat, evicted: Option<Ip>)
    requires Agrees(table, ip, standing) && Evicts(table, i, evicted)
    ensures i == ip ==> evicted != Some(ip) && Agrees(Without(table, evicted), ip, standing)
    ensures i != ip ==> Agrees(AfterFailure(Without(table, evicted), i, now), ip,
                               if evicted == Some(ip) then Standing([], None) else standing)
  {
    hide Recent, AfterFailure;
    AfterFailureTouches(Without(table, evicted), i, now);
  }

  lemma {:induction false} RecentShrinks(failures: seq<nat>, earlier: nat, now: nat)
    requires earlier <= now
    ensures |Recent(failures, now)| <= |Recent(failures, earlier)|
    decreases |failures|
  {
    if failures != [] {
      RecentShrinks(failures[1..], earlier, now);
    }
  }

  lemma StillSorted(since: seq<nat>, now: nat)
    requires Sorted(since) && forall f <- since :: f <= now
    ensures Sorted(since + [now])
  {
    var more := since + [now];
    forall i, j | 0 <= i < j < |more| ensures more[i] <= more[j] {
      assert since[i] in since;
    }
  }

  /** What counts for a source is in order when the history is. */
  lemma {:induction false} SinceIsSorted(log: seq<Event>, ip: Ip)
    requires InOrder(log)
    ensures Sorted(StandingOf(log, ip).since) && forall f <- StandingOf(log, ip).since :: f <= Latest(log)
    decreases |log|
  {
    hide Fifth;
    if log != [] {
      var front, last := log[..|log| - 1], log[|log| - 1];
      SinceIsSorted(front, ip);
      if last.Failure? {
        StillSorted(StandingOf(front, ip).since, last.now);
      }
    }
  }

  lemma WindowIsSorted(since: seq<nat>)
    requires Sorted(since)
    ensures Sorted(Window(since))
  {
    hide Window;
    WindowIsTheEnd(since);
  }

  /**
   The failures of an entry, read before the call, settle it: the next failure is counted with exactly the
   recent ones if and only if the old ones stand first, unless the clock goes back behind a failure. In a
   history in order they are sorted, which is the same as standing so at all times.
   */
  lemma EntryCountsTheRecent(log: seq<Event>, ip: Ip, now: nat)
    requires Legal(log) && ip in TableAfter(log)
    ensures var since, failures := StandingOf(log, ip).since, TableAfter(log)[ip].failures;
            && (Counted(TableAfter(log), ip, now) == Recent(since + [now], now) <==>
                OldFirst(failures, now) && AllOld(PutOut(since), now))
            && ((forall f <- since :: f <= now) ==> AllOld(PutOut(since), now))
            && (Sorted(failures) <==> forall later: nat :: Prune(failures, later) == Recent(failures, later))
            && (InOrder(log) ==> Sorted(failures))
  {
    hide Window, Recent, Prune, OldFirst, AllOld, Counted, PutOut, Sorted, Fifth;
    var since, failures := StandingOf(log, ip).since, TableAfter(log)[ip].failures;
    TableAgrees(log, ip);
    CountedIsWindow(TableAfter(log), ip, StandingOf(log, ip), now);
    CountsExactlyTheRecent(since, now);
    if forall f <- since :: f <= now {
      PutOutStayOld(since, now);
    }
    PruneIsRecentExactlyWhenSorted(failures);
    if InOrder(log) {
      SinceIsSorted(log, ip);
      WindowIsSorted(since);
    }
  }

  /** With the times in order, a ban begins exactly when four other failures lie within the window before this one. */
  lemma BanBeginsAtTheFifth(log: seq<Event>, ip: Ip, now: nat)
    requires Legal(log) && InOrder(log) && Latest(log) <= now
    ensures Fifth(StandingOf(log, ip).since, now) <==> |Recent(StandingOf(log, ip).since, now)| == 4
  {
    hide Prune;
    var since := StandingOf(log, ip).since;
    TableAgrees(log, ip);
    SinceIsSorted(log, ip);
    assert Sorted(since + [now]) by { StillSorted(since, now); }
    WindowIsRecent(since + [now]);
    RecentConcat(since, [now], now);
    assert [now][1..] == [] && Recent([now], now) == [now];
    assert |Window(since)| < BAN_FAILURES;
    if since != [] {
      WindowIsRecent(since);
      assert since[|since| - 1] in since;
      RecentShrinks(since, since[|since| - 1], now);
    }
  }

  /** A source is turned away exactly while its last ban lasts, from its start on and for ten minutes. */
  lemma BannedExactlyForTenMinutes(log: seq<Event>, ip: Ip, now: nat)
    requires Legal(log)
    ensures Bans(TableAfter(log), ip, now) <==>
            StandingOf(log, ip).ban.Some? && now < StandingOf(log, ip).ban.value + 600_000_000_000
  {
    TableAgrees(log, ip);
  }

  // ---------- what a ban says of the history ----------

  /** The times of all failures of a source. */
  function FailuresOf(log: seq<Event>, ip: Ip): seq<nat> {
    if log == [] then []
    else
      var front, last := FailuresOf(log[..|log| - 1], ip), log[|log| - 1];
      if last.Failure? && last.ip == ip then front + [last.now] else front
  }

  /** The recent failures are those of the last ten minutes, each as often as it is there, in the same order. */
  lemma {:induction false} RecentAre(failures: seq<nat>, now: nat) returns (at: seq<nat>)
    ensures Ascending(at, set k: nat | k < |failures| && now <= failures[k] + 600_000_000_000)
    ensures |Recent(failures, now)| == |at|
    ensures forall i :: 0 <= i < |at| ==> at[i] < |failures| && Recent(failures, now)[i] == failures[at[i]]
    decreases |failures|
  {
    at := [];
    if failures != [] {
      var n := |failures| - 1;
      var front, last := failures[..n], failures[n];
      at := RecentAre(front, now);
      assert failures == front + [last];
      RecentConcat(front, [last], now);
      assert [last][1..] == [];
      var which := set k: nat | k < |front| && now <= front[k] + 600_000_000_000;
      var more := set k: nat | k < |failures| && now <= failures[k] + 600_000_000_000;
      if now <= last + 600_000_000_000 {
        AscendingMore(at, which, n);
        at := at + [n];
        assert which + {n} == more;
      } else {
        assert which == more;
      }
    }
  }

  /** What counts for a source since its last ban or insertion are the last of its failures. */
  lemma {:induction false} SinceIsTheEnd(log: seq<Event>, ip: Ip)
    ensures var all, since := FailuresOf(log, ip), StandingOf(log, ip).since;
            |since| <= |all| && since == all[|all| - |since|..]
    decreases |log|
  {
    hide Fifth;
    if log != [] {
      SinceIsTheEnd(log[..|log| - 1], ip);
    }
  }

  /** The ban of a source began with a failure of it, which came after four others within ten minutes. */
  lemma {:induction false} BanHasACause(log: seq<Event>, ip: Ip) returns (b: nat)
    requires Legal(log) && InOrder(log) && StandingOf(log, ip).ban.Some?
    ensures b < |log| && log[b].Failure? && log[b].ip == ip && log[b].now == StandingOf(log, ip).ban.value
    ensures |Recent(FailuresOf(log[..b], ip), log[b].now)| >= 4
    decreases |log|
  {
    hide Fifth, FailuresOf, Recent;
    b := 0;
    if log == [] {
      assert false;
    } else {
      var n := |log| - 1;
      var front, last := log[..n], log[n];
      if StandingOf(front, ip).ban == StandingOf(log, ip).ban {
        b := BanHasACause(front, ip);
        assert front[..b] == log[..b];
      } else {
        b := n;
        BanBeginsAtTheFifth(front, ip, last.now);
        SinceIsTheEnd(front, ip);
        var all, since := FailuresOf(front, ip), StandingOf(front, ip).since;
        var earlier := all[..|all| - |since|];
        assert all == earlier + since;
        RecentConcat(earlier, since, last.now);
      }
    }
  }

  /** Who is banned has failed five times within ten minutes, the last time less than ten minutes ago. */
  lemma BannedMeansFiveFailures(log: seq<Event>, ip: Ip, now: nat) returns (b: nat)
    requires Legal(log) && InOrder(log) && Bans(TableAfter(log), ip, now)
    ensures b < |log| && log[b].Failure? && log[b].ip == ip && now < log[b].now + 600_000_000_000
    ensures |Recent(FailuresOf(log[..b], ip), log[b].now)| >= 4
  {
    BannedExactlyForTenMinutes(log, ip, now);
    b := BanHasACause(log, ip);
  }

  // ---------- requests, one after the other ----------

  /** While a ban is on record nothing is counted. It holds as long as each request is dealt with as a whole. */
  ghost predicate Quiet(log: seq<Event>) {
    forall ip :: StandingOf(log, ip).ban.Some? ==> StandingOf(log, ip).since == []
  }

  lemma QuietLookup(log: seq<Event>, ip: Ip, now: nat)
    ensures Quiet(log) ==>
              && Quiet(log + [Lookup(ip, now)])
              && StandingOf(log + [Lookup(ip, now)], ip).since == StandingOf(log, ip).since
    ensures StandingOf(log + [Lookup(ip, now)], ip).ban.Some? <==>
            StandingOf(log, ip).ban.Some? && now < StandingOf(log, ip).ban.value + BAN_DURATION
  {
    assert (log + [Lookup(ip, now)])[..|log|] == log;
  }

  lemma QuietFailure(log: seq<Event>, ip: Ip, now: nat, evicted: Option<Ip>)
    requires Quiet(log) && StandingOf(log, ip).ban.None? && evicted != Some(ip)
    ensures Quiet(log + [Failure(ip, now, evicted)])
  {
    assert (log + [Failure(ip, now, evicted)])[..|log|] == log;
  }

  /** The answer to a request: turned away, let in, or refused, possibly with a ban that begins now. */
  datatype Answer = Banned | Served | Unauthorized(banBegins: bool)

  /** Whether two byte strings are equal, by a fold over all of them. */
  method CtEq(a: seq<bv8>, b: seq<bv8>) returns (r: bool)
    ensures r <==> a == b
  {
    if |a| != |b| {
      return false;
    }
    var acc: bv8 := 0;
    for k := 0 to |a|
      invariant acc == 0 <==> a[..k] == b[..k]
    {
      OrIsZero(acc, a[k], b[k]);
      assert a[..k + 1] == a[..k] + [a[k]] && b[..k + 1] == b[..k] + [b[k]];
      acc := acc | (a[k] ^ b[k]);
    }
    assert a[..|a|] == a && b[..|b|] == b;
    r := acc == 0;
  }

  lemma OrIsZero(acc: bv8, x: bv8, y: bv8)
    ensures (acc | (x ^ y)) == 0 <==> acc == 0 && x == y
  {
  }

  class AuthState {
    const key: seq<bv8>
    var table: Table
    ghost var log: seq<Event>

    ghost predicate Valid()
      reads this
    {
      Legal(log) && table == TableAfter(log)
    }

    constructor (key: seq<bv8>)
      ensures this.key == key && Valid() && log == []
    {
      this.key := key;
      table := map[];
      log := [];
    }

    method IsBanned(ip: Ip, now: nat) returns (banned: bool)
      requires Valid()
      modifies this
      ensures Valid() && log == old(log) + [Lookup(ip, now)]
      ensures banned <==> StandingOf(old(log), ip).ban.Some?
                          && now < StandingOf(old(log), ip).ban.value + 600_000_000_000
    {
      BannedExactlyForTenMinutes(log, ip, now);
      assert (log + [Lookup(ip, now)])[..|log|] == log;
      log := log + [Lookup(ip, now)];
      if ip !in table {
        return false;
      }
      var entry := table[ip];
      match entry.bannedUntil {
        case None => return false;
        case Some(until) =>
          if now < until {
            return true;
          }
          table := table[ip := entry.(bannedUntil := None, failures := [])];
          return false;
      }
    }

    /** The source whose last failure is the longest ago. */
    method Oldest() returns (oldest: Ip)
      requires |table| > 0
      ensures oldest in table && forall k <- table :: table[oldest].touched <= table[k].touched
    {
      assert table.Keys != {} by { assert |table.Keys| == |table|; }
      oldest :| oldest in table.Keys;
      var rest := table.Keys - {oldest};
      while rest != {}
        invariant oldest in table && rest <= table.Keys
        invariant forall k <- table :: k !in rest ==> table[oldest].touched <= table[k].touched
        decreases rest
      {
        var k :| k in rest;
        if table[k].touched < table[oldest].touched {
          oldest := k;
        }
        rest := rest - {k};
      }
    }

    /** Records a failure; the answer is whether this one begins a ban. */
    method RecordFailure(ip: Ip, now: nat) returns (begins: bool, ghost evicted: Option<Ip>)
      requires Valid()
      modifies this
      ensures Valid() && log == old(log) + [Failure(ip, now, evicted)]
      ensures evicted != Some(ip) && (evicted.Some? <==> ip !in old(table) && |old(table)| >= 1024)
      ensures begins <==> Fifth(StandingOf(old(log), ip).since, now)
      ensures InOrder(old(log)) && Latest(old(log)) <= now ==>
                && (begins <==> |Recent(StandingOf(old(log), ip).since, now)| == 4)
                && InOrder(log) && Latest(log) == now
    {
      hide Legal, InOrder, TableAfter, StandingOf, Fifth, Recent;
      ghost var before := table;
      evicted := None;
      if ip !in table && |table| >= MAX_TRACKED {
        var oldest := Oldest();
        table := table - {oldest};
        evicted := Some(oldest);
      }
      ghost var kept := table;
      var entry := if ip in table then table[ip] else Entry([], None, now);
      entry := entry.(touched := now);
      ghost var failures := entry.failures;
      while entry.failures != [] && now - entry.failures[0] > BAN_WINDOW
        invariant Prune(failures, now) == Prune(entry.failures, now)
        invariant entry == Entry(entry.failures, if ip in kept then kept[ip].bannedUntil else None, now)
        decreases |entry.failures|
      {
        entry := entry.(failures := entry.failures[1..]);
      }
      entry := entry.(failures := entry.failures + [now]);
      assert entry.failures == Counted(kept, ip, now);
      begins := |entry.failures| >= BAN_FAILURES;
      if begins {
        entry := entry.(bannedUntil := Some(now + BAN_DURATION), failures := []);
      }
      table := table[ip := entry];
      FailureLogged(log, ip, now, evicted);
      if InOrder(log) && Latest(log) <= now {
        BanBeginsAtTheFifth(log, ip, now);
        StillInOrder(log, ip, now, evicted);
      }
      log := log + [Failure(ip, now, evicted)];
    }

    /**
     One request from `ip` at `now`, with the key it presents, if any. Its own failure is counted after its
     lookup; without other requests in between, nothing is ever counted beside a ban.
     */
    method RequireKey(ip: Ip, now: nat, presented: Option<seq<bv8>>) returns (answer: Answer)
      requires Valid()
      modifies this
      ensures Valid() && (old(Quiet(log)) ==> Quiet(log))
      ensures var standing, looked := StandingOf(old(log), ip), StandingOf(old(log) + [Lookup(ip, now)], ip);
              && (answer.Banned? <==> standing.ban.Some? && now < standing.ban.value + 600_000_000_000)
              && (answer.Served? <==> !answer.Banned? && presented == Some(key))
              && (answer.Unauthorized? ==> (answer.banBegins <==> Fifth(looked.since, now)))
              && (old(Quiet(log)) ==> looked.since == standing.since)
      ensures answer.Unauthorized? ==>
                exists evicted ::
                  evicted != Some(ip) && log == old(log) + [Lookup(ip, now)] + [Failure(ip, now, evicted)]
      ensures !answer.Unauthorized? ==> log == old(log) + [Lookup(ip, now)]
      ensures old(InOrder(log)) && Latest(old(log)) <= now ==> InOrder(log) && Latest(log) <= now
    {
      hide StandingOf, TableAfter, Legal, InOrder, Fifth, Quiet, Recent;
      QuietLookup(log, ip, now);
      LatestLookup(log, ip, now);
      var banned := IsBanned(ip, now);
      if banned {
        return Banned;
      }
      if presented.Some? {
        var matches := CtEq(presented.value, key);
        if matches {
          return Served;
        }
      }
      ghost var looked := log;
      var begins, evicted := RecordFailure(ip, now);
      if Quiet(looked) {
        QuietFailure(looked, ip, now, evicted);
      }
      answer := Unauthorized(begins);
    }
  }

  lemma LatestLookup(log: seq<Event>, ip: Ip, now: nat)
    ensures Latest(log + [Lookup(ip, now)]) == Latest(log)
    ensures InOrder(log) ==> InOrder(log + [Lookup(ip, now)])
  {
    assert (log + [Lookup(ip, now)])[..|log|] == log;
  }

  lemma StillInOrder(log: seq<Event>, ip: Ip, now: nat, evicted: Option<Ip>)
    requires InOrder(log) && Latest(log) <= now
    ensures InOrder(log + [Failure(ip, now, evicted)]) && Latest(log + [Failure(ip, now, evicted)]) == now
  {
    assert (log + [Failure(ip, now, evicted)])[..|log|] == log;
  }

  /** A failure the table takes in: the log goes on, and the count of it is the fifth or not. */
  lemma FailureLogged(log: seq<Event>, ip: Ip, now: nat, evicted: Option<Ip>)
    requires Legal(log) && Evicts(TableAfter(log), ip, evicted)
    ensures var more := log + [Failure(ip, now, evicted)];
            Legal(more) && TableAfter(more) == AfterFailure(Without(TableAfter(log), evicted), ip, now)
    ensures |Counted(Without(TableAfter(log), evicted), ip, now)| >= BAN_FAILURES <==>
            Fifth(StandingOf(log, ip).since, now)
  {
    assert (log + [Failure(ip, now, evicted)])[..|log|] == log;
    TableAgrees(log, ip);
    CountedIsWindow(TableAfter(log), ip, StandingOf(log, ip), now);
    assert Counted(Without(TableAfter(log), evicted), ip, now) == Counted(TableAfter(log), ip, now);
  }
}
