/**
 The members of groups that include each other. Answers are kept in a table, where a group stands without any
 names while it is being worked out. The question is what that does to the answers: for which include graphs
 they are those of a recursion without a table, whatever was asked before.
 */
module TakenIn {
  import opened Wrappers
  import opened Graph
  import opened Picking
  import opened Profile

  type Groups = map<string, GroupSpec>
  type Table = map<string, seq<string>>

  ghost predicate ByName(groups: Groups) {
    forall n <- groups :: groups[n].name == n
  }

  function IncludeGraph(groups: Groups): Edges {
    map n | n in groups :: groups[n].imports.includeOtherGroups
  }

  function Admitted(names: seq<string>, imports: ImportOpts): seq<string> {
    if names == [] then []
    else
      var front, last := Admitted(names[..|names| - 1], imports), names[|names| - 1];
      if imports.admits(last) then front + [last] else front
  }

  /** The proxies a group has apart from members and includes. */
  function OwnProxies(config: Config, spec: GroupSpec): seq<string> {
    if spec.imports.includeAllProxies then AdmittedProxies(config.policies, spec.imports) else []
  }

  /** The admitted names: those the filter admits, each as often as it is there, in the same order. */
  lemma {:induction false} AdmittedAre(names: seq<string>, imports: ImportOpts) returns (at: seq<nat>)
    ensures Ascending(at, set k: nat | k < |names| && imports.admits(names[k]))
    ensures |Admitted(names, imports)| == |at|
    ensures forall i :: 0 <= i < |at| ==> at[i] < |names| && Admitted(names, imports)[i] == names[at[i]]
    ensures forall m :: m in Admitted(names, imports) <==> m in names && imports.admits(m)
    decreases |names|
  {
    at := [];
    if names != [] {
      var n := |names| - 1;
      var front := names[..n];
      assert names == front + [names[n]];
      at := AdmittedAre(front, imports);
      var which := set k: nat | k < |front| && imports.admits(front[k]);
      if imports.admits(names[n]) {
        AscendingMore(at, which, n);
        at := at + [n];
        assert which + {n} == set k: nat | k < |names| && imports.admits(names[k]);
      } else {
        assert which == set k: nat | k < |names| && imports.admits(names[k]);
      }
    }
  }

  /** What a group has of the proxies: none, or those that are no alias and that its filter admits, in order. */
  lemma OwnProxiesAre(config: Config, spec: GroupSpec) returns (at: seq<nat>)
    ensures !spec.imports.includeAllProxies ==> OwnProxies(config, spec) == []
    ensures spec.imports.includeAllProxies ==>
              Ascending(at, set k: nat | k < |config.policies| && !config.policies[k].builtinAlias
                                                            && spec.imports.admits(config.policies[k].name))
    ensures spec.imports.includeAllProxies ==>
              && |OwnProxies(config, spec)| == |at|
              && forall i :: 0 <= i < |at| ==>
                               at[i] < |config.policies| && OwnProxies(config, spec)[i] == config.policies[at[i]].name
  {
    at := ProxiesAre(config.policies, spec.imports);
  }

  lemma {:induction false} ProxiesAre(policies: seq<Policy>, imports: ImportOpts) returns (at: seq<nat>)
    ensures Ascending(at, set k: nat | k < |policies| && !policies[k].builtinAlias && imports.admits(policies[k].name))
    ensures |AdmittedProxies(policies, imports)| == |at|
    ensures forall i :: 0 <= i < |at| ==>
                          at[i] < |policies| && AdmittedProxies(policies, imports)[i] == policies[at[i]].name
    decreases |policies|
  {
    at := [];
    if policies != [] {
      var n := |policies| - 1;
      var front, last := policies[..n], policies[n];
      assert policies == front + [last];
      at := ProxiesAre(front, imports);
      var which := set k: nat | k < |front| && !front[k].builtinAlias && imports.admits(front[k].name);
      var more := set k: nat | k < |policies| && !policies[k].builtinAlias && imports.admits(policies[k].name);
      if !last.builtinAlias && imports.admits(last.name) {
        AscendingMore(at, which, n);
        at := at + [n];
        assert which + {n} == more;
      } else {
        assert which == more;
      }
    }
  }

  // ---------- the plain recursive definition ----------

  /** What a group takes in: its members, the admitted ones of the groups it includes, its proxies. */
  ghost function Plain(config: Config, groups: Groups, name: string): seq<string>
    requires name in groups && Calm(IncludeGraph(groups), name)
    decreases ReachSet(IncludeGraph(groups), name), |groups[name].imports.includeOtherGroups| + 1
  {
    var spec := groups[name];
    spec.members + PlainIncluded(config, groups, name, |spec.imports.includeOtherGroups|) + OwnProxies(config, spec)
  }

  /** What comes from the first `n` groups it includes; including itself gives a group nothing. */
  ghost function PlainIncluded(config: Config, groups: Groups, name: string, n: nat): seq<string>
    requires name in groups && Calm(IncludeGraph(groups), name)
    requires n <= |groups[name].imports.includeOtherGroups|
    decreases ReachSet(IncludeGraph(groups), name), n
  {
    if n == 0 then []
    else
      var imports := groups[name].imports;
      var other := imports.includeOtherGroups[n - 1];
      PlainIncluded(config, groups, name, n - 1) +
      if other in groups && other != name then
        CalmStep(IncludeGraph(groups), name, other);
        Admitted(Plain(config, groups, other), imports)
      else []
  }

  // ---------- the table ----------

  /** The answer for a group, and the table after it was asked for. */
  function Take(config: Config, groups: Groups, name: string, taken: Table): (r: (Table, seq<string>))
    requires name in groups
    ensures taken.Keys <= r.0.Keys && name in r.0 && forall n <- taken :: r.0[n] == taken[n]
    decreases groups.Keys - taken.Keys, 0
  {
    if name in taken then (taken, taken[name])
    else
      var spec := groups[name];
      assert groups.Keys - taken[name := []].Keys == groups.Keys - taken.Keys - {name};
      var (table, theirs) := TakeIncluded(config, groups, name, taken[name := []], |spec.imports.includeOtherGroups|);
      var names := spec.members + theirs + OwnProxies(config, spec);
      (table[name := names], names)
  }

  /** What comes from the first `n` groups a group includes. */
  function TakeIncluded(config: Config, groups: Groups, name: string, taken: Table, n: nat): (r: (Table, seq<string>))
    requires name in groups && n <= |groups[name].imports.includeOtherGroups|
    ensures taken.Keys <= r.0.Keys && forall n <- taken :: r.0[n] == taken[n]
    decreases groups.Keys - taken.Keys, n + 1
  {
    if n == 0 then (taken, [])
    else
      var imports := groups[name].imports;
      var other := imports.includeOtherGroups[n - 1];
      var (table, names) := TakeIncluded(config, groups, name, taken, n - 1);
      if other in groups then
        var (table', theirs) := Take(config, groups, other, table);
        (table', names + Admitted(theirs, imports))
      else (table, names)
  }

  // ---------- the table agrees with the definition ----------

  /** Apart from the groups being worked out, the table has the plain answer of every calm group. */
  ghost predicate Right(config: Config, groups: Groups, taken: Table, open: set<string>) {
    && open <= taken.Keys
    && forall n <- taken :: n in groups && n !in open && Calm(IncludeGraph(groups), n) ==>
                              taken[n] == Plain(config, groups, n)
  }

  /** `a` leads to `b` over an edge that does not start in `b`. */
  ghost predicate LeadsVia(g: Edges, a: string, b: string) {
    exists c :: c != b && Reaches(g, a, c) && Edge(g, c, b)
  }

  lemma LeadsOn(g: Edges, a: string, b: string, c: string)
    requires a == b || LeadsVia(g, a, b)
    requires Edge(g, b, c) && b != c
    ensures LeadsVia(g, a, c)
  {
    ReachesSelf(g, a);
    if a != b {
      var d :| d != b && Reaches(g, a, d) && Edge(g, d, b);
      EdgeReaches(g, d, b);
      ReachesTrans(g, a, d, b);
    }
  }

  lemma CalmIsNotOpen(g: Edges, name: string)
    requires Calm(g, name)
    ensures !LeadsVia(g, name, name)
  {
    if c :| c != name && Reaches(g, name, c) && Edge(g, c, name) {
      assert false;
    }
  }

  /**
   Whatever groups were asked for before (`taken`) and whichever are being worked out (`open`), a group
   that reaches no cycle through two groups gets its plain answer, and the table stays right.
   */
  lemma {:induction false} TakeIsPlain(config: Config, groups: Groups, name: string, taken: Table, open: set<string>)
    requires name in groups && Right(config, groups, taken, open)
    requires forall o <- open :: LeadsVia(IncludeGraph(groups), o, name)
    ensures Right(config, groups, Take(config, groups, name, taken).0, open)
    ensures Calm(IncludeGraph(groups), name) ==> Take(config, groups, name, taken).1 == Plain(config, groups, name)
    decreases groups.Keys - taken.Keys, 0
  {
    hide LeadsVia, Calm, Reaches;
    if Calm(IncludeGraph(groups), name) {
      CalmIsNotOpen(IncludeGraph(groups), name);
    }
    if name !in taken {
      var empty := taken[name := []];
      assert groups.Keys - empty.Keys == groups.Keys - taken.Keys - {name};
      TakeIncludedIsPlain(config, groups, name, empty, open + {name}, |groups[name].imports.includeOtherGroups|);
    }
  }

  lemma {:induction false} TakeIncludedIsPlain(config: Config, groups: Groups, name: string, taken: Table,
                                               open: set<string>, n: nat)
    requires name in groups && n <= |groups[name].imports.includeOtherGroups|
    requires name in open && Right(config, groups, taken, open) && taken[name] == []
    requires forall o <- open :: o == name || LeadsVia(IncludeGraph(groups), o, name)
    ensures Right(config, groups, TakeIncluded(config, groups, name, taken, n).0, open)
    ensures Calm(IncludeGraph(groups), name) ==>
              TakeIncluded(config, groups, name, taken, n).1 == PlainIncluded(config, groups, name, n)
    decreases groups.Keys - taken.Keys, n + 1
  {
    hide LeadsVia, Calm, Reaches;
    if n > 0 {
      var g, other := IncludeGraph(groups), groups[name].imports.includeOtherGroups[n - 1];
      TakeIncludedIsPlain(config, groups, name, taken, open, n - 1);
      if other in groups && other != name {
        assert Edge(g, name, other);
        forall o <- open ensures LeadsVia(g, o, other) {
          LeadsOn(g, o, name, other);
        }
        TakeIsPlain(config, groups, other, TakeIncluded(config, groups, name, taken, n - 1).0, open);
        if Calm(g, name) {
          CalmStep(g, name, other);
        }
      }
    }
  }

  /** The table after the groups of `asked` were asked for, one after the other. */
  function AfterAsking(config: Config, groups: Groups, asked: seq<string>): Table
    requires forall n <- asked :: n in groups
  {
    if asked == [] then map[]
    else
      var last := asked[|asked| - 1];
      Take(config, groups, last, AfterAsking(config, groups, asked[..|asked| - 1])).0
  }

  lemma {:induction false} AfterAskingIsRight(config: Config, groups: Groups, asked: seq<string>)
    requires forall n <- asked :: n in groups
    ensures Right(config, groups, AfterAsking(config, groups, asked), {})
    decreases |asked|
  {
    if asked != [] {
      var front := asked[..|asked| - 1];
      AfterAskingIsRight(config, groups, front);
      TakeIsPlain(config, groups, asked[|asked| - 1], AfterAsking(config, groups, front), {});
    }
  }

  /** Unless a cycle runs through two groups, the answer is the plain one, whatever was asked for before. */
  lemma AnswerDoesNotDependOnOrder(config: Config, groups: Groups, asked: seq<string>, name: string)
    requires (forall n <- asked :: n in groups) && name in groups
    requires !TwoOnACycle(IncludeGraph(groups))
    ensures Calm(IncludeGraph(groups), name)
    ensures Take(config, groups, name, AfterAsking(config, groups, asked)).1 == Plain(config, groups, name)
  {
    NoTwoIsCalm(IncludeGraph(groups), name);
    AfterAskingIsRight(config, groups, asked);
    TakeIsPlain(config, groups, name, AfterAsking(config, groups, asked), {});
  }

  // ---------- what an answer is made of ----------

  function Flat(parts: seq<seq<string>>): seq<string> {
    if parts == [] then [] else Flat(parts[..|parts| - 1]) + parts[|parts| - 1]
  }

  lemma {:induction false} FlatHas(parts: seq<seq<string>>, m: string)
    ensures m in Flat(parts) <==> exists k :: 0 <= k < |parts| && m in parts[k]
    decreases |parts|
  {
    if parts != [] {
      FlatHas(parts[..|parts| - 1], m);
    }
  }

  /** What a group asked for now, after those of `asked`, is answered. */
  function Answer(config: Config, groups: Groups, asked: seq<string>, name: string): seq<string>
    requires name in groups && forall n <- asked :: n in groups
  {
    Take(config, groups, name, AfterAsking(config, groups, asked)).1
  }

  lemma AnswerIsPlain(config: Config, groups: Groups, asked: seq<string>, name: string)
    requires name in groups && (forall n <- asked :: n in groups) && Calm(IncludeGraph(groups), name)
    ensures Answer(config, groups, asked, name) == Plain(config, groups, name)
  {
    hide Plain, Take, Calm;
    AfterAskingIsRight(config, groups, asked);
    TakeIsPlain(config, groups, name, AfterAsking(config, groups, asked), {});
  }

  /** What the `k`th include gives a group: the admitted names of the other group's own answer. */
  function PartOf(config: Config, groups: Groups, asked: seq<string>, name: string, k: nat): seq<string>
    requires name in groups && (forall n <- asked :: n in groups) && k < |groups[name].imports.includeOtherGroups|
  {
    var other := groups[name].imports.includeOtherGroups[k];
    if other in groups && other != name
    then Admitted(Answer(config, groups, asked, other), groups[name].imports) else []
  }

  /**
   A group that reaches no cycle through two groups is answered its members, then of each group it includes, one
   after another, the admitted ones of the answer that group would get, and then its proxies.
   */
  lemma AnswerIsInOrder(config: Config, groups: Groups, asked: seq<string>, name: string)
    returns (parts: seq<seq<string>>)
    requires name in groups && (forall n <- asked :: n in groups) && Calm(IncludeGraph(groups), name)
    ensures Answer(config, groups, asked, name)
         == groups[name].members + Flat(parts) + OwnProxies(config, groups[name])
    ensures |parts| == |groups[name].imports.includeOtherGroups|
    ensures forall k :: 0 <= k < |parts| ==> parts[k] == PartOf(config, groups, asked, name, k)
  {
    hide Answer, Calm, Admitted, OwnProxies;
    AnswerIsPlain(config, groups, asked, name);
    parts := IncludedParts(config, groups, asked, name, |groups[name].imports.includeOtherGroups|);
  }

  lemma {:induction false} IncludedParts(config: Config, groups: Groups, asked: seq<string>, name: string, n: nat)
    returns (parts: seq<seq<string>>)
    requires name in groups && (forall n <- asked :: n in groups) && Calm(IncludeGraph(groups), name)
    requires n <= |groups[name].imports.includeOtherGroups|
    ensures PlainIncluded(config, groups, name, n) == Flat(parts) && |parts| == n
    ensures forall k :: 0 <= k < n ==> parts[k] == PartOf(config, groups, asked, name, k)
    decreases n
  {
    hide Answer, Calm, Admitted, Take, AfterAsking, Plain, Reaches;
    parts := [];
    if n > 0 {
      parts := IncludedParts(config, groups, asked, name, n - 1);
      var other := groups[name].imports.includeOtherGroups[n - 1];
      if other in groups && other != name {
        assert Edge(IncludeGraph(groups), name, other);
        CalmStep(IncludeGraph(groups), name, other);
        AnswerIsPlain(config, groups, asked, other);
      }
      var part := PartOf(config, groups, asked, name, n - 1);
      assert (parts + [part])[..n - 1] == parts;
      parts := parts + [part];
    }
  }

  /**
   Such a group takes in exactly its written members, the admitted names of what other groups it includes take
   in, and, if it takes in all proxies, the admitted ones that are no alias.
   */
  lemma AnswerHas(config: Config, groups: Groups, asked: seq<string>, name: string, m: string)
    requires name in groups && (forall n <- asked :: n in groups) && Calm(IncludeGraph(groups), name)
    ensures var imports := groups[name].imports;
            m in Answer(config, groups, asked, name) <==>
            || m in groups[name].members
            || (exists other <- imports.includeOtherGroups ::
                  other in groups && other != name && imports.admits(m) && m in Answer(config, groups, asked, other))
            || (imports.includeAllProxies && imports.admits(m)
                && exists p <- config.policies :: p.name == m && !p.builtinAlias)
  {
    hide Answer, Calm, Admitted, Flat;
    var spec := groups[name];
    var others := spec.imports.includeOtherGroups;
    var parts := AnswerIsInOrder(config, groups, asked, name);
    FlatHas(parts, m);
    forall k | 0 <= k < |others|
      ensures m in parts[k] <==> others[k] in groups && others[k] != name && spec.imports.admits(m)
                                 && m in Answer(config, groups, asked, others[k])
    {
      if others[k] in groups && others[k] != name {
        var at := AdmittedAre(Answer(config, groups, asked, others[k]), spec.imports);
      }
    }
    ProxiesHave(config.policies, spec.imports, m);
  }

  lemma ProxiesHave(policies: seq<Policy>, imports: ImportOpts, m: string)
    ensures m in AdmittedProxies(policies, imports) <==>
            imports.admits(m) && exists p <- policies :: p.name == m && !p.builtinAlias
  {
    hide AdmittedProxies;
    var at := ProxiesAre(policies, imports);
    if p :| p in policies && p.name == m && !p.builtinAlias && imports.admits(m) {
      var k: nat :| k < |policies| && policies[k] == p;
      assert k in at;
    }
    if i :| 0 <= i < |at| && AdmittedProxies(policies, imports)[i] == m {
      assert at[i] in at && policies[at[i]] in policies;
    }
  }

  // ---------- where the order of the questions matters ----------

  /** Only `b` has a member, `p`, and nothing is kept from being taken in. */
  ghost predicate HasOnly(groups: Groups, b: string, p: string) {
    forall n <- groups ::
      && groups[n].members == (if n == b then [p] else [])
      && !groups[n].imports.includeAllProxies && forall m :: groups[n].imports.admits(m)
  }

  /** Such groups for a graph, `a` and `b` with a relay. */
  function Witness(g: Edges, a: string, b: string, p: string, relay: string): Groups {
    map n | n in g ::
      GroupSpec(n, if n == b then [p] else [], ImportOpts((_: string) => true, false, g[n]),
                if n == a || n == b then Some(relay) else None)
  }

  /** Unless it is being worked out, `b` has its member among its names. */
  ghost predicate HasOwn(taken: Table, open: set<string>, b: string, p: string) {
    b in taken && b !in open ==> p in taken[b]
  }

  /** What a group that is not being worked out includes has been asked for. */
  ghost predicate Followed(g: Edges, taken: Table, open: set<string>) {
    forall n <- taken, m :: n !in open && Edge(g, n, m) && m in g ==> m in taken
  }

  ghost predicate NoneHas(taken: Table, p: string) {
    forall n <- taken :: p !in taken[n]
  }

  lemma {:induction false} AdmitsAll(names: seq<string>, imports: ImportOpts)
    requires forall n :: imports.admits(n)
    ensures Admitted(names, imports) == names
    decreases |names|
  {
    if names != [] {
      AdmitsAll(names[..|names| - 1], imports);
    }
  }

  lemma OnlyAdmits(groups: Groups, name: string, b: string, p: string)
    requires HasOnly(groups, b, p) && name in groups
    ensures forall m :: groups[name].imports.admits(m)
  {
  }

  /** What asking keeps: followed edges, the member of `b`, and that nobody has it while `b` is being worked out. */
  lemma {:induction false} TakeKeeps(config: Config, groups: Groups, name: string, taken: Table,
                                     open: set<string>, b: string, p: string)
    requires name in groups && HasOnly(groups, b, p)
    requires HasOwn(taken, open, b, p) && Followed(IncludeGraph(groups), taken, open)
    ensures var (table, names) := Take(config, groups, name, taken);
            && HasOwn(table, open, b, p) && Followed(IncludeGraph(groups), table, open)
            && (name == b && b !in open ==> p in names)
            && (NoneHas(taken, p) && b in taken ==> NoneHas(table, p) && p !in names)
    decreases groups.Keys - taken.Keys, 0
  {
    if name !in taken {
      var empty := taken[name := []];
      assert groups.Keys - empty.Keys == groups.Keys - taken.Keys - {name};
      TakeIncludedKeeps(config, groups, name, empty, open + {name}, |groups[name].imports.includeOtherGroups|, b, p);
    }
  }

  lemma {:induction false} TakeIncludedKeeps(config: Config, groups: Groups, name: string, taken: Table,
                                             open: set<string>, n: nat, b: string, p: string)
    requires name in groups && n <= |groups[name].imports.includeOtherGroups| && name in open && name in taken
    requires HasOnly(groups, b, p)
    requires HasOwn(taken, open, b, p) && Followed(IncludeGraph(groups), taken, open)
    ensures var (table, names) := TakeIncluded(config, groups, name, taken, n);
            && HasOwn(table, open, b, p) && Followed(IncludeGraph(groups), table, open)
            && (forall m <- groups[name].imports.includeOtherGroups[..n] :: m in groups ==> m in table)
            && (b in groups[name].imports.includeOtherGroups[..n] && b in groups && b !in open ==> p in names)
            && (NoneHas(taken, p) && b in taken ==> NoneHas(table, p) && p !in names)
    decreases groups.Keys - taken.Keys, n + 1
  {
    hide HasOnly, NoneHas, HasOwn, Followed, IncludeGraph, Take, Admitted;
    if n > 0 {
      var others := groups[name].imports.includeOtherGroups;
      var (table, names) := TakeIncluded(config, groups, name, taken, n - 1);
      TakeIncludedKeeps(config, groups, name, taken, open, n - 1, b, p);
      OnlyAdmits(groups, name, b, p);
      var other := others[n - 1];
      assert forall m :: m in others[..n] <==> m in others[..n - 1] || m == other by {
        assert others[..n] == others[..n - 1] + [other];
      }
      if other in groups {
        TakeKeeps(config, groups, other, table, open, b, p);
        AdmitsAll(Take(config, groups, other, table).1, groups[name].imports);
      }
    }
  }

  lemma FollowedHoldsPath(g: Edges, taken: Table, p: seq<string>)
    requires Followed(g, taken, {}) && IsPath(g, p) && p[0] in taken && p[|p| - 1] in g
    ensures p[|p| - 1] in taken
  {
    for i := 1 to |p|
      invariant p[i - 1] in taken
    {
      assert Edge(g, p[i - 1], p[i]);
      if i < |p| - 1 {
        assert Edge(g, p[i], p[i + 1]);
      }
    }
  }

  /**
   On any cycle through two groups: where `a` includes `b`, `b` leads back to `a` and only `b` has a member,
   `a` takes that member in when it is asked for first and lacks it when `b` was asked for before. `b` has it
   either way.
   */
  lemma OnACycleOrderMatters(config: Config, groups: Groups, a: string, b: string, p: string)
    requires a != b && b in groups && HasOnly(groups, b, p)
    requires Edge(IncludeGraph(groups), a, b) && Reaches(IncludeGraph(groups), b, a)
    ensures p in Take(config, groups, a, map[]).1 && p in Take(config, groups, b, map[]).1
    ensures p !in Take(config, groups, a, AfterAsking(config, groups, [b])).1
    ensures p in Take(config, groups, b, AfterAsking(config, groups, [a])).1
  {
    var g, none: Table := IncludeGraph(groups), map[];
    var others := groups[a].imports.includeOtherGroups;
    TakeKeeps(config, groups, a, none, {}, b, p);
    TakeIncludedKeeps(config, groups, a, none[a := []], {a}, |others|, b, p);
    assert others[..|others|] == others;
    AskedOnce(config, groups, a);
    TakeKeeps(config, groups, b, Take(config, groups, a, none).0, {}, b, p);

    var back := groups[b].imports.includeOtherGroups;
    TakeKeeps(config, groups, b, none, {}, b, p);
    TakeIncludedKeeps(config, groups, b, none[b := []], {b}, |back|, b, p);
    var path :| PathBetween(g, path, b, a);
    FollowedHoldsPath(g, Take(config, groups, b, none).0, path);
    AskedOnce(config, groups, b);
  }

  lemma AskedOnce(config: Config, groups: Groups, name: string)
    requires name in groups
    ensures AfterAsking(config, groups, [name]) == Take(config, groups, name, map[]).0
  {
    assert [name][..0] == [];
  }

  /** Whatever the groups of this include graph are, no answer depends on what was asked for before. */
  ghost predicate OrderFree(config: Config, g: Edges) {
    forall groups: Groups, asked: seq<string>, name: string ::
      ByName(groups) && IncludeGraph(groups) == g && (forall n <- asked :: n in groups) && name in groups ==>
        Take(config, groups, name, AfterAsking(config, groups, asked)).1 == Take(config, groups, name, map[]).1
  }

  /** The answers do not depend on the order of the questions exactly when no cycle runs through two groups. */
  lemma OrderFreeExactlyWithoutTwoOnACycle(config: Config, g: Edges)
    ensures OrderFree(config, g) <==> !TwoOnACycle(g)
  {
    if !TwoOnACycle(g) {
      forall groups: Groups, asked: seq<string>, name: string
        | ByName(groups) && IncludeGraph(groups) == g && (forall n <- asked :: n in groups) && name in groups
        ensures Take(config, groups, name, AfterAsking(config, groups, asked)).1 == Take(config, groups, name, map[]).1
      {
        AnswerDoesNotDependOnOrder(config, groups, asked, name);
        AnswerDoesNotDependOnOrder(config, groups, [], name);
      }
    } else {
      OnACycleSomeOrderMatters(config, g);
    }
  }

  lemma OnACycleSomeOrderMatters(config: Config, g: Edges)
    requires TwoOnACycle(g)
    ensures !OrderFree(config, g)
  {
    hide Reaches, Take, AfterAsking;
    var a, c :| a != c && Reaches(g, a, c) && Reaches(g, c, a);
    var b := EdgeOfTheCycle(g, a, c);
    ReachesFromKey(g, b, a);
    var groups := Witness(g, a, b, "p", "relay");
    assert IncludeGraph(groups) == g && ByName(groups);
    OnACycleOrderMatters(config, groups, a, b, "p");
    assert a in groups && forall n <- [b] :: n in groups;
  }

  lemma ReachesFromKey(g: Edges, a: string, b: string)
    requires Reaches(g, a, b) && a != b
    ensures a in g
  {
    var p :| PathBetween(g, p, a, b);
    assert Edge(g, p[0], p[1]);
  }

  class Memo {
    var taken: Table

    constructor ()
      ensures taken == map[]
    {
      taken := map[];
    }

    method TakenIn(config: Config, groups: Groups, g: GroupSpec) returns (names: seq<string>)
      requires ByName(groups) && g.name in groups && groups[g.name] == g
      modifies this
      ensures (taken, names) == Take(config, groups, g.name, old(taken))
      decreases groups.Keys - taken.Keys
    {
      if g.name in taken {
        return taken[g.name];
      }
      taken := taken[g.name := []];
      ghost var open := taken;
      assert groups.Keys - open.Keys == groups.Keys - old(taken).Keys - {g.name};
      names := g.members;
      var others := g.imports.includeOtherGroups;
      for i := 0 to |others|
        invariant open.Keys <= taken.Keys
        invariant taken == TakeIncluded(config, groups, g.name, open, i).0
        invariant names == g.members + TakeIncluded(config, groups, g.name, open, i).1
      {
        if others[i] in groups {
          var theirs := TakenIn(config, groups, groups[others[i]]);
          names := names + Admitted(theirs, g.imports);
        }
      }
      ghost var theirs := TakeIncluded(config, groups, g.name, open, |others|).1;
      if g.imports.includeAllProxies {
        names := names + AdmittedProxies(config.policies, g.imports);
      }
      assert names == g.members + theirs + OwnProxies(config, g);
      taken := taken[g.name := names];
    }
  }

  // ---------- port hopping under a group's relay ----------

  /** The names of `names` that hop ports, each once, where it is first met. */
  function FirstHops(names: seq<string>, hops: set<string>): seq<string> {
    if names == [] then []
    else
      var front, last := FirstHops(names[..|names| - 1], hops), names[|names| - 1];
      if last in hops && last !in front then front + [last] else front
  }

  function Hopping(specs: seq<PolicySpec>): set<string> {
    set s | s in specs && s.portHopping :: s.name
  }

  ghost predicate UniqueSpecs(groups: seq<GroupSpec>) {
    forall i, j :: 0 <= i < j < |groups| ==> groups[i].name != groups[j].name
  }

  function NameMap(groups: seq<GroupSpec>): (r: Groups)
    requires UniqueSpecs(groups)
    ensures ByName(r) && (forall g <- groups :: g.name in r && r[g.name] == g) && forall n <- r :: r[n] in groups
  {
    map i | 0 <= i < |groups| :: groups[i].name := groups[i]
  }

  function Pairs(group: string, members: seq<string>): seq<(string, string)> {
    seq(|members|, i requires 0 <= i < |members| => (group, members[i]))
  }

  /** The groups with a relay, which are the ones asked for. */
  function Relayed(groups: seq<GroupSpec>): (r: seq<string>)
    ensures forall n <- r :: exists g <- groups :: g.name == n
  {
    if groups == [] then []
    else
      var front, last := Relayed(groups[..|groups| - 1]), groups[|groups| - 1];
      if last.underlyingProxy.Some? then front + [last.name] else front
  }

  /**
   What a group takes in when those of `asked` were asked for before: its plain answer if it reaches no
   cycle through two groups, whatever cycles there are elsewhere, and what the table makes of it otherwise.
   */
  ghost function Names(config: Config, byName: Groups, asked: seq<string>, name: string): seq<string>
    requires name in byName && forall n <- asked :: n in byName
  {
    if Calm(IncludeGraph(byName), name) then Plain(config, byName, name)
    else Take(config, byName, name, AfterAsking(config, byName, asked)).1
  }

  /** The warnings, group after group: of a relayed one, its names that hop ports, each once. */
  ghost function LeftOut(config: Config, byName: Groups, groups: seq<GroupSpec>, hops: set<string>)
    : seq<(string, string)>
    requires forall g <- groups :: g.name in byName
  {
    if groups == [] then []
    else
      var front, last := groups[..|groups| - 1], groups[|groups| - 1];
      LeftOut(config, byName, front, hops) +
      if last.underlyingProxy.Some?
      then Pairs(last.name, FirstHops(Names(config, byName, Relayed(front), last.name), hops)) else []
  }

  /** Each name that hops ports is taken where it is first met, and only there. */
  lemma {:induction false} FirstHopsAre(names: seq<string>, hops: set<string>) returns (at: seq<nat>)
    ensures Ascending(at, set k: nat | k < |names| && names[k] in hops && names[k] !in names[..k])
    ensures |FirstHops(names, hops)| == |at|
    ensures forall i :: 0 <= i < |at| ==> at[i] < |names| && FirstHops(names, hops)[i] == names[at[i]]
    decreases |names|
  {
    at := [];
    if names != [] {
      var n := |names| - 1;
      var front := names[..n];
      assert names == front + [names[n]];
      at := FirstHopsAre(front, hops);
      FirstHopsHas(front, hops, names[n]);
      var which := set k: nat | k < |front| && front[k] in hops && front[k] !in front[..k];
      var more := set k: nat | k < |names| && names[k] in hops && names[k] !in names[..k];
      assert forall k :: 0 <= k <= n ==> names[..k] == front[..k];
      if names[n] in hops && names[n] !in FirstHops(front, hops) {
        AscendingMore(at, which, n);
        at := at + [n];
        assert which + {n} == more;
      } else {
        assert which == more;
      }
    }
  }

  lemma {:induction false} NothingHops(names: seq<string>)
    ensures FirstHops(names, {}) == []
    decreases |names|
  {
    if names != [] {
      NothingHops(names[..|names| - 1]);
    }
  }

  lemma {:induction false} NothingLeftOut(config: Config, byName: Groups, groups: seq<GroupSpec>)
    requires forall g <- groups :: g.name in byName
    ensures LeftOut(config, byName, groups, {}) == []
    decreases |groups|
  {
    if groups != [] {
      var front, last := groups[..|groups| - 1], groups[|groups| - 1];
      NothingLeftOut(config, byName, front);
      NothingHops(Names(config, byName, Relayed(front), last.name));
    }
  }

  /** One warning for each port-hopping name, where it is first met. */
  method Say(group: string, names: seq<string>, hops: set<string>) returns (warnings: seq<(string, string)>)
    ensures warnings == Pairs(group, FirstHops(names, hops))
  {
    warnings := [];
    var said: set<string> := {};
    for k := 0 to |names|
      invariant warnings == Pairs(group, FirstHops(names[..k], hops))
      invariant said == set m | m in FirstHops(names[..k], hops)
    {
      assert names[..k + 1][..k] == names[..k];
      if names[k] in hops && names[k] !in said {
        said := said + {names[k]};
        warnings := warnings + [(group, names[k])];
      }
    }
    assert names[..|names|] == names;
  }

  /** What one more line of a group adds, with a relay or without. */
  lemma OneMoreLine(config: Config, byName: Groups, groups: seq<GroupSpec>, i: nat, hops: set<string>)
    requires i < |groups| && forall g <- groups :: g.name in byName
    ensures var name, asked := groups[i].name, Relayed(groups[..i]);
            var (table, names) := Take(config, byName, name, AfterAsking(config, byName, asked));
            var front := LeftOut(config, byName, groups[..i], hops);
            var more := LeftOut(config, byName, groups[..i + 1], hops);
            && (groups[i].underlyingProxy.None? ==> Relayed(groups[..i + 1]) == asked && more == front)
            && (groups[i].underlyingProxy.Some? ==>
                  && AfterAsking(config, byName, Relayed(groups[..i + 1])) == table
                  && more == front + Pairs(name, FirstHops(names, hops)))
  {
    hide Calm, Right, Plain, FirstHops, Pairs, Take;
    var name, asked := groups[i].name, Relayed(groups[..i]);
    assert groups[..i + 1][..i] == groups[..i];
    if groups[i].underlyingProxy.Some? {
      assert Relayed(groups[..i + 1]) == asked + [name];
      assert (asked + [name])[..|asked|] == asked;
      AfterAskingIsRight(config, byName, asked);
      TakeIsPlain(config, byName, name, AfterAsking(config, byName, asked), {});
    }
  }

  /**
   The port-hopping proxies that the relayed groups leave out: those of each one's plain answer, although
   the table is shared, unless the group itself reaches a cycle through two groups.
   */
  method HopsUnderGroupRelays(config: Config, specs: seq<PolicySpec>, groups: seq<GroupSpec>)
    returns (warnings: seq<(string, string)>)
    requires UniqueSpecs(groups)
    ensures warnings == LeftOut(config, NameMap(groups), groups, Hopping(specs))
  {
    hide Take, FirstHops, Pairs, AfterAsking, LeftOut, Relayed;
    var hops := Hopping(specs);
    var byName := NameMap(groups);
    warnings := [];
    if hops == {} {
      NothingLeftOut(config, byName, groups);
      return;
    }
    var memo := new Memo();
    NothingAskedYet(config, byName, hops);
    for i := 0 to |groups|
      invariant fresh(memo) && memo.taken == AfterAsking(config, byName, Relayed(groups[..i]))
      invariant warnings == LeftOut(config, byName, groups[..i], hops)
    {
      var g := groups[i];
      OneMoreLine(config, byName, groups, i, hops);
      if g.underlyingProxy.Some? {
        var names := memo.TakenIn(config, byName, g);
        var said := Say(g.name, names, hops);
        warnings := warnings + said;
      }
    }
    assert groups[..|groups|] == groups;
  }

  lemma NothingAskedYet(config: Config, groups: Groups, hops: set<string>)
    ensures AfterAsking(config, groups, Relayed([])) == map[] && LeftOut(config, groups, [], hops) == []
  {
  }

  lemma NothingAsked(config: Config, groups: Groups)
    ensures AfterAsking(config, groups, []) == map[]
  {
  }

  // ---------- which warnings depend on the order of the lines ----------

  lemma {:induction false} FirstHopsHas(names: seq<string>, hops: set<string>, m: string)
    ensures m in FirstHops(names, hops) <==> m in names && m in hops
    decreases |names|
  {
    if names != [] {
      var front, last := names[..|names| - 1], names[|names| - 1];
      FirstHopsHas(front, hops, m);
      assert names == front + [last];
    }
  }

  lemma PairsHas(group: string, members: seq<string>, name: string, m: string)
    ensures (name, m) in Pairs(group, members) <==> name == group && m in members
  {
    var pairs := Pairs(group, members);
    if name == group && m in members {
      var k :| 0 <= k < |members| && members[k] == m;
      assert pairs[k] == (name, m);
    }
  }

  /** The `i`th line is a relayed group of this name, which has `m` among its names and `m` hops ports. */
  ghost predicate WarnsAt(config: Config, byName: Groups, groups: seq<GroupSpec>, hops: set<string>, i: nat,
                          name: string, m: string)
    requires forall g <- groups :: g.name in byName
  {
    && i < |groups| && groups[i].name == name && groups[i].underlyingProxy.Some?
    && m in hops && m in Names(config, byName, Relayed(groups[..i]), name)
  }

  lemma {:induction false} LeftOutHas(config: Config, byName: Groups, groups: seq<GroupSpec>, hops: set<string>,
                                      n: nat, name: string, m: string)
    requires n <= |groups| && forall g <- groups :: g.name in byName
    ensures (name, m) in LeftOut(config, byName, groups[..n], hops) <==>
            exists i: nat :: i < n && WarnsAt(config, byName, groups, hops, i, name, m)
    decreases n
  {
    hide Names, FirstHops, Pairs, Relayed;
    if n > 0 {
      var last, asked := groups[n - 1], Relayed(groups[..n - 1]);
      assert groups[..n][..n - 1] == groups[..n - 1];
      LeftOutHas(config, byName, groups, hops, n - 1, name, m);
      if last.underlyingProxy.Some? {
        var names := Names(config, byName, asked, last.name);
        FirstHopsHas(names, hops, m);
        PairsHas(last.name, FirstHops(names, hops), name, m);
        assert WarnsAt(config, byName, groups, hops, n - 1, name, m) <==>
               (name, m) in Pairs(last.name, FirstHops(names, hops));
      } else {
        assert !WarnsAt(config, byName, groups, hops, n - 1, name, m);
      }
    }
  }

  /** What the first lines are warned of comes from one of them. */
  lemma {:induction false} LeftOutIsOfALine(config: Config, byName: Groups, groups: seq<GroupSpec>, hops: set<string>,
                                            k: nat) returns (i: nat)
    requires (forall g <- groups :: g.name in byName) && k < |LeftOut(config, byName, groups, hops)|
    ensures i < |groups| && groups[i].name == LeftOut(config, byName, groups, hops)[k].0
    decreases |groups|
  {
    hide Names, FirstHops;
    var front := groups[..|groups| - 1];
    if k < |LeftOut(config, byName, front, hops)| {
      i := LeftOutIsOfALine(config, byName, front, hops, k);
    } else {
      i := |groups| - 1;
    }
  }

  /** The warnings of a line come before those of a later one. */
  lemma {:induction false} WarningsInLineOrder(config: Config, byName: Groups, lines: seq<GroupSpec>, hops: set<string>,
                                               i: nat, j: nat, k: nat, m: nat)
    requires UniqueSpecs(lines) && (forall g <- lines :: g.name in byName) && i < j < |lines|
    requires var said := LeftOut(config, byName, lines, hops);
             k < |said| && m < |said| && said[k].0 == lines[i].name && said[m].0 == lines[j].name
    ensures k < m
    decreases |lines|
  {
    hide Names, FirstHops;
    var n := |lines| - 1;
    var front := lines[..n];
    var before := |LeftOut(config, byName, front, hops)|;
    if m < before {
      var l := LeftOutIsOfALine(config, byName, front, hops, m);
      assert lines[l].name == lines[j].name && l == j;
      if k < before {
        WarningsInLineOrder(config, byName, front, hops, i, j, k, m);
      } else {
        assert false;
      }
    } else if k >= before {
      assert false;
    }
  }

  /** With relays at two lines only, those are the groups asked for. */
  lemma {:induction false} TwoRelayed(lines: seq<GroupSpec>, lo: nat, hi: nat, n: nat)
    requires lo < hi < |lines| && n <= |lines|
    requires forall k :: 0 <= k < |lines| ==> (lines[k].underlyingProxy.Some? <==> k == lo || k == hi)
    ensures Relayed(lines[..n]) == if n <= lo then [] else if n <= hi then [lines[lo].name]
                                   else [lines[lo].name, lines[hi].name]
    decreases n
  {
    if n > 0 {
      assert lines[..n][..n - 1] == lines[..n - 1];
      TwoRelayed(lines, lo, hi, n - 1);
    }
  }

  lemma OnACycleIsNotCalm(g: Edges, a: string, b: string)
    requires a != b && Edge(g, a, b) && Reaches(g, b, a)
    ensures !Calm(g, a) && !Calm(g, b)
  {
    ReachesSelf(g, a);
  }

  /** A warning can only come from the line of its group. */
  lemma OnlyItsLineWarns(config: Config, lines: seq<GroupSpec>, hops: set<string>, i: nat, m: string)
    requires UniqueSpecs(lines) && i < |lines|
    ensures (lines[i].name, m) in LeftOut(config, NameMap(lines), lines, hops) <==>
            WarnsAt(config, NameMap(lines), lines, hops, i, lines[i].name, m)
  {
    hide LeftOut, Names, NameMap, Relayed;
    assert lines[..|lines|] == lines;
    LeftOutHas(config, NameMap(lines), lines, hops, |lines|, lines[i].name, m);
  }

  /**
   A group that reaches no cycle through two groups is warned of exactly the names it takes in that are those of
   port-hopping policies, if it has a relay.
   */
  lemma CalmGroupIsWarned(config: Config, specs: seq<PolicySpec>, lines: seq<GroupSpec>, i: nat, m: string)
    requires UniqueSpecs(lines) && i < |lines| && Calm(IncludeGraph(NameMap(lines)), lines[i].name)
    ensures (lines[i].name, m) in LeftOut(config, NameMap(lines), lines, Hopping(specs)) <==>
            && lines[i].underlyingProxy.Some? && (exists s <- specs :: s.portHopping && s.name == m)
            && m in Answer(config, NameMap(lines), [], lines[i].name)
  {
    hide LeftOut, NameMap, Relayed, Calm, Answer, Plain;
    OnlyItsLineWarns(config, lines, Hopping(specs), i, m);
    AnswerIsPlain(config, NameMap(lines), [], lines[i].name);
  }

  /** What a group on a cycle through two groups is warned of when the groups of `asked` come before it. */
  lemma WarnsOnACycle(config: Config, lines: seq<GroupSpec>, hops: set<string>, i: nat, m: string, asked: seq<string>)
    requires UniqueSpecs(lines) && i < |lines| && Relayed(lines[..i]) == asked
    requires lines[i].underlyingProxy.Some? && m in hops && !Calm(IncludeGraph(NameMap(lines)), lines[i].name)
    ensures (lines[i].name, m) in LeftOut(config, NameMap(lines), lines, hops) <==>
            m in Take(config, NameMap(lines), lines[i].name, AfterAsking(config, NameMap(lines), asked)).1
  {
    hide LeftOut, NameMap, Relayed, Calm, Take, AfterAsking, Plain;
    OnlyItsLineWarns(config, lines, hops, i, m);
  }

  /**
   On any cycle through two groups, the order of two lines decides a warning: where `a` includes `b`, both are
   relayed and only `b` has a member, one that hops ports, the warning for `a` comes exactly if its line stands
   before that of `b`. The one for `b` comes in any case.
   */
  lemma LineOrderDecidesAWarning(config: Config, lines: seq<GroupSpec>, i: nat, j: nat, p: string, hops: set<string>)
    requires UniqueSpecs(lines) && i < |lines| && j < |lines| && i != j && p in hops
    requires forall k :: 0 <= k < |lines| ==> (lines[k].underlyingProxy.Some? <==> k == i || k == j)
    requires var g := IncludeGraph(NameMap(lines));
             Edge(g, lines[i].name, lines[j].name) && Reaches(g, lines[j].name, lines[i].name)
    requires HasOnly(NameMap(lines), lines[j].name, p)
    ensures var said := LeftOut(config, NameMap(lines), lines, hops);
            ((lines[i].name, p) in said <==> i < j) && (lines[j].name, p) in said
  {
    hide LeftOut, Take, AfterAsking, HasOnly, Reaches, Calm, NameMap, Relayed, IncludeGraph;
    var groups, a, b := NameMap(lines), lines[i].name, lines[j].name;
    assert lines[i] in lines && lines[j] in lines && a != b;
    OnACycleOrderMatters(config, groups, a, b, p);
    OnACycleIsNotCalm(IncludeGraph(groups), a, b);
    NothingAsked(config, groups);
    var lo, hi := if i < j then i else j, if i < j then j else i;
    TwoRelayed(lines, lo, hi, i);
    TwoRelayed(lines, lo, hi, j);
    WarnsOnACycle(config, lines, hops, i, p, if i < j then [] else [b]);
    WarnsOnACycle(config, lines, hops, j, p, if i < j then [a] else []);
  }

  /** Two profiles have the same groups, which include each other like this. */
  ghost predicate SameGroups(xs: seq<GroupSpec>, ys: seq<GroupSpec>, g: Edges) {
    UniqueSpecs(xs) && UniqueSpecs(ys) && NameMap(xs) == NameMap(ys) && IncludeGraph(NameMap(xs)) == g
  }

  /** Profiles with the same groups and this include graph get the same warnings, whatever the order of the lines. */
  ghost predicate LineOrderFree(config: Config, g: Edges) {
    forall xs: seq<GroupSpec>, ys: seq<GroupSpec>, hops: set<string>, w: (string, string) | SameGroups(xs, ys, g) ::
      w in LeftOut(config, NameMap(xs), xs, hops) ==> w in LeftOut(config, NameMap(ys), ys, hops)
  }

  lemma CalmWarningsStay(config: Config, xs: seq<GroupSpec>, ys: seq<GroupSpec>, hops: set<string>, w: (string, string))
    requires UniqueSpecs(xs) && UniqueSpecs(ys) && NameMap(xs) == NameMap(ys)
    requires Calm(IncludeGraph(NameMap(xs)), w.0) && w in LeftOut(config, NameMap(xs), xs, hops)
    ensures w in LeftOut(config, NameMap(ys), ys, hops)
  {
    hide LeftOut, Plain, Calm, Take, AfterAsking, NameMap, Relayed;
    var groups := NameMap(xs);
    assert xs[..|xs|] == xs;
    LeftOutHas(config, groups, xs, hops, |xs|, w.0, w.1);
    var i: nat :| i < |xs| && WarnsAt(config, groups, xs, hops, i, w.0, w.1);
    assert xs[i] in xs && groups[w.0] == xs[i] && groups[w.0] in ys;
    var j :| 0 <= j < |ys| && ys[j] == groups[w.0];
    OnlyItsLineWarns(config, ys, hops, j, w.1);
  }

  /** The lines of these groups, in the order of their names. */
  function Lines(groups: Groups, order: seq<string>): seq<GroupSpec>
    requires forall n <- order :: n in groups
  {
    seq(|order|, k requires 0 <= k < |order| => groups[order[k]])
  }

  ghost predicate Lists(order: seq<string>, names: set<string>) {
    (forall i, j :: 0 <= i < j < |order| ==> order[i] != order[j]) && forall n :: n in order <==> n in names
  }

  lemma {:induction false} Listing(names: set<string>) returns (order: seq<string>)
    ensures Lists(order, names)
    decreases names
  {
    if names == {} {
      order := [];
    } else {
      var n :| n in names;
      var rest := Listing(names - {n});
      order := [n] + rest;
    }
  }

  lemma LinesAreTheGroups(groups: Groups, order: seq<string>)
    requires ByName(groups) && Lists(order, groups.Keys)
    ensures var lines := Lines(groups, order); UniqueSpecs(lines) && NameMap(lines) == groups
  {
    hide NameMap;
    var lines := Lines(groups, order);
    assert forall k :: 0 <= k < |order| ==> order[k] in order && lines[k].name == order[k];
    var named := NameMap(lines);
    forall n <- groups ensures n in named && named[n] == groups[n] {
      var k :| 0 <= k < |order| && order[k] == n;
      assert lines[k] in lines;
    }
    forall n <- named ensures n in groups {
      var k :| 0 <= k < |lines| && lines[k] == named[n];
    }
  }

  /** The warnings do not depend on the order of the lines exactly when no cycle runs through two groups. */
  lemma LineOrderFreeExactlyWithoutTwoOnACycle(config: Config, g: Edges)
    ensures LineOrderFree(config, g) <==> !TwoOnACycle(g)
  {
    hide LeftOut, UniqueSpecs, NameMap, Reaches, Calm;
    if !TwoOnACycle(g) {
      forall xs: seq<GroupSpec>, ys: seq<GroupSpec>, hops: set<string>, w: (string, string)
        | SameGroups(xs, ys, g) && w in LeftOut(config, NameMap(xs), xs, hops)
        ensures w in LeftOut(config, NameMap(ys), ys, hops)
      {
        NoTwoIsCalm(g, w.0);
        CalmWarningsStay(config, xs, ys, hops, w);
      }
    } else {
      var a, c :| a != c && Reaches(g, a, c) && Reaches(g, c, a);
      var b := EdgeOfTheCycle(g, a, c);
      ReachesFromKey(g, b, a);
      var xs, ys := TwoOrders(config, g, a, b);
      assert (a, "p") in LeftOut(config, NameMap(xs), xs, {"p"});
      assert (a, "p") !in LeftOut(config, NameMap(ys), ys, {"p"});
    }
  }

  lemma TwoOrders(config: Config, g: Edges, a: string, b: string) returns (xs: seq<GroupSpec>, ys: seq<GroupSpec>)
    requires a != b && Edge(g, a, b) && Reaches(g, b, a) && b in g
    ensures SameGroups(xs, ys, g)
    ensures (a, "p") in LeftOut(config, NameMap(xs), xs, {"p"}) && (a, "p") !in LeftOut(config, NameMap(ys), ys, {"p"})
  {
    hide LeftOut, UniqueSpecs, NameMap, Reaches, Lists, Witness;
    WitnessFits(g, a, b);
    var rest := Listing(g.Keys - {a, b});
    xs := OneOrder(config, g, a, b, a, b, rest);
    ys := OneOrder(config, g, a, b, b, a, rest);
  }

  lemma WitnessFits(g: Edges, a: string, b: string)
    ensures var groups := Witness(g, a, b, "p", "relay");
            groups.Keys == g.Keys && IncludeGraph(groups) == g && ByName(groups) && HasOnly(groups, b, "p")
  {
  }

  /** The lines of the witness with `x` and `y` in front. */
  lemma OneOrder(config: Config, g: Edges, a: string, b: string, x: string, y: string, rest: seq<string>)
    returns (lines: seq<GroupSpec>)
    requires a != b && Edge(g, a, b) && Reaches(g, b, a) && b in g && Lists(rest, g.Keys - {a, b})
    requires (x == a && y == b) || (x == b && y == a)
    ensures UniqueSpecs(lines) && NameMap(lines) == Witness(g, a, b, "p", "relay")
    ensures (a, "p") in LeftOut(config, NameMap(lines), lines, {"p"}) <==> x == a
  {
    hide LeftOut, UniqueSpecs, NameMap, Reaches, Lists, Lines, Witness, HasOnly, IncludeGraph, ByName;
    WitnessFits(g, a, b);
    assert g.Keys - {x, y} == g.Keys - {a, b};
    TwoInFront(x, y, rest, g.Keys);
    var order := [x, y] + rest;
    OnlyNames(order, g.Keys);
    lines := Lines(Witness(g, a, b, "p", "relay"), order);
    LinesAreTheGroups(Witness(g, a, b, "p", "relay"), order);
    RelayedInFront(g, a, b, x, y, rest);
    LineOrderDecidesAWarning(config, lines, if x == a then 0 else 1, if x == a then 1 else 0, "p", {"p"});
  }

  lemma OnlyNames(order: seq<string>, names: set<string>)
    requires Lists(order, names)
    ensures forall n <- order :: n in names
  {
  }

  lemma RelayedInFront(g: Edges, a: string, b: string, x: string, y: string, rest: seq<string>)
    requires x in g && y in g && Lists(rest, g.Keys - {a, b}) && ((x == a && y == b) || (x == b && y == a))
    ensures var lines := Lines(Witness(g, a, b, "p", "relay"), [x, y] + rest);
            && |lines| >= 2 && lines[0].name == x && lines[1].name == y
            && forall k :: 0 <= k < |lines| ==> (lines[k].underlyingProxy.Some? <==> k == 0 || k == 1)
  {
    var lines := Lines(Witness(g, a, b, "p", "relay"), [x, y] + rest);
    forall k | 2 <= k < |lines| ensures lines[k].underlyingProxy.None? {
      assert rest[k - 2] in rest;
    }
  }

  lemma TwoInFront(x: string, y: string, rest: seq<string>, names: set<string>)
    requires x != y && x in names && y in names && Lists(rest, names - {x, y})
    ensures Lists([x, y] + rest, names)
  {
    var order := [x, y] + rest;
    assert order[2..] == rest;
    forall i, j | 0 <= i < j < |order| ensures order[i] != order[j] {
      if j >= 2 {
        assert order[j] == rest[j - 2] && order[j] in rest;
        assert i >= 2 ==> order[i] == rest[i - 2];
      }
    }
    forall n ensures n in order <==> n in names {
      assert n in order <==> n == x || n == y || n in rest;
    }
  }
}
