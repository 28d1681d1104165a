/**
 Can each resource be given one kind that all its uses agree with? One pass with a table of first uses
 decides it, over rules that nest to any depth.
 */
module SetKinds {
  datatype Keyword = RULE_SET | DOMAIN_SET

  datatype ResourceRef = Internal(id: nat) | Inline(name: string) | File(path: string) | Url(link: string)

  datatype RuleKind =
    | RuleSet(resource: ResourceRef)
    | DomainSet(resource: ResourceRef)
    | And(subs: seq<RuleKind>)
    | Or(subs: seq<RuleKind>)
    | Not(sub: RuleKind)
    | Other

  datatype HostKey = HostRuleSet(resource: ResourceRef) | HostDomainSet(resource: ResourceRef) | Pattern

  /** Every line has a number, `span`; a whole inline set counts as one line. */
  datatype Rule = Rule(kind: RuleKind, span: nat)
  datatype Host = Host(key: HostKey, span: nat)
  datatype InlineSet = InlineSet(rules: seq<RuleKind>, span: nat)
  datatype Config = Config(rules: seq<Rule>, hosts: seq<Host>, rulesets: seq<InlineSet>)

  datatype Use = Use(resource: ResourceRef, keyword: Keyword, span: nat)

  /** A use that disagrees, by its resource and line, with the first one of that resource. */
  datatype Report = Report(resource: ResourceRef, span: nat, firstKeyword: Keyword, firstSpan: nat)

  /** What is fetched or read; a set that the profile or the program contains is neither. */
  predicate IsResource(r: ResourceRef) {
    r.Url? || r.File?
  }

  // ---------- the uses, in order ----------

  function UsesIn(kind: RuleKind, span: nat): seq<Use>
    decreases kind, 0
  {
    match kind
    case RuleSet(r) => [Use(r, RULE_SET, span)]
    case DomainSet(r) => [Use(r, DOMAIN_SET, span)]
    case And(subs) => UsesInAll(subs, span)
    case Or(subs) => UsesInAll(subs, span)
    case Not(sub) => UsesIn(sub, span)
    case Other => []
  }

  function UsesInAll(kinds: seq<RuleKind>, span: nat): seq<Use>
    decreases kinds, 1
  {
    if kinds == [] then []
    else UsesInAll(kinds[..|kinds| - 1], span) + UsesIn(kinds[|kinds| - 1], span)
  }

  function RuleUses(rules: seq<Rule>): seq<Use> {
    if rules == [] then []
    else
      var last := rules[|rules| - 1];
      RuleUses(rules[..|rules| - 1]) + UsesIn(last.kind, last.span)
  }

  function HostUses(hosts: seq<Host>): seq<Use> {
    if hosts == [] then []
    else
      var last := hosts[|hosts| - 1];
      HostUses(hosts[..|hosts| - 1]) +
      match last.key
      case HostRuleSet(r) => [Use(r, RULE_SET, last.span)]
      case HostDomainSet(r) => [Use(r, DOMAIN_SET, last.span)]
      case Pattern => []
  }

  function InlineUses(sets: seq<InlineSet>): seq<Use> {
    if sets == [] then []
    else
      var last := sets[|sets| - 1];
      InlineUses(sets[..|sets| - 1]) + UsesInAll(last.rules, last.span)
  }

  function AllUses(config: Config): seq<Use> {
    RuleUses(config.rules) + HostUses(config.hosts) + InlineUses(config.rulesets)
  }

  lemma {:induction false} UsesFromFront(kind: RuleKind, kinds: seq<RuleKind>, span: nat)
    ensures UsesInAll([kind] + kinds, span) == UsesIn(kind, span) + UsesInAll(kinds, span)
    decreases |kinds|
  {
    var all := [kind] + kinds;
    if kinds == [] {
      assert all == [kind] && all[..0] == [];
    } else {
      UsesFromFront(kind, kinds[..|kinds| - 1], span);
      assert all[..|all| - 1] == [kind] + kinds[..|kinds| - 1];
    }
  }

  /** The uses in a rule stand in it from left to right, on its line. */
  lemma UsesAsWritten(kind: RuleKind, kinds: seq<RuleKind>, r: ResourceRef, span: nat)
    ensures UsesIn(RuleSet(r), span) == [Use(r, RULE_SET, span)]
    ensures UsesIn(DomainSet(r), span) == [Use(r, DOMAIN_SET, span)]
    ensures UsesIn(And([kind] + kinds), span) == UsesIn(kind, span) + UsesIn(And(kinds), span)
    ensures UsesIn(Or([kind] + kinds), span) == UsesIn(kind, span) + UsesIn(Or(kinds), span)
    ensures UsesIn(Not(kind), span) == UsesIn(kind, span)
    ensures UsesIn(And([]), span) == UsesIn(Or([]), span) == UsesIn(Other, span) == []
  {
    UsesFromFront(kind, kinds, span);
  }

  lemma {:induction false} RulesFromFront(rule: Rule, rules: seq<Rule>)
    ensures RuleUses([rule] + rules) == UsesIn(rule.kind, rule.span) + RuleUses(rules)
    decreases |rules|
  {
    hide UsesIn;
    var all := [rule] + rules;
    if rules == [] {
      assert all == [rule] && all[..0] == [];
    } else {
      RulesFromFront(rule, rules[..|rules| - 1]);
      assert all[..|all| - 1] == [rule] + rules[..|rules| - 1];
    }
  }

  function HostUse(host: Host): seq<Use> {
    match host.key
    case HostRuleSet(r) => [Use(r, RULE_SET, host.span)]
    case HostDomainSet(r) => [Use(r, DOMAIN_SET, host.span)]
    case Pattern => []
  }

  lemma {:induction false} HostsFromFront(host: Host, hosts: seq<Host>)
    ensures HostUses([host] + hosts) == HostUse(host) + HostUses(hosts)
    decreases |hosts|
  {
    var all := [host] + hosts;
    if hosts == [] {
      assert all == [host] && all[..0] == [];
    } else {
      HostsFromFront(host, hosts[..|hosts| - 1]);
      assert all[..|all| - 1] == [host] + hosts[..|hosts| - 1];
    }
  }

  lemma {:induction false} SetsFromFront(inline: InlineSet, sets: seq<InlineSet>)
    ensures InlineUses([inline] + sets) == UsesInAll(inline.rules, inline.span) + InlineUses(sets)
    decreases |sets|
  {
    hide UsesInAll;
    var all := [inline] + sets;
    if sets == [] {
      assert all == [inline] && all[..0] == [];
    } else {
      SetsFromFront(inline, sets[..|sets| - 1]);
      assert all[..|all| - 1] == [inline] + sets[..|sets| - 1];
    }
  }

  /**
   All uses of a profile: first those of the rules, line by line, then those of the hosts, then those of the
   inline sets, where a whole set is one line. What comes first is taken off the front here.
   */
  lemma AllUsesAsWritten(config: Config)
    ensures config.rules != [] ==>
              var first := config.rules[0];
              AllUses(config) == UsesIn(first.kind, first.span) + AllUses(config.(rules := config.rules[1..]))
    ensures config.rules == [] && config.hosts != [] ==>
              var first := config.hosts[0];
              var use := if first.key.HostRuleSet? then [Use(first.key.resource, RULE_SET, first.span)]
                         else if first.key.HostDomainSet? then [Use(first.key.resource, DOMAIN_SET, first.span)]
                         else [];
              AllUses(config) == use + AllUses(config.(hosts := config.hosts[1..]))
    ensures config.rules == [] && config.hosts == [] && config.rulesets != [] ==>
              var first := config.rulesets[0];
              AllUses(config) == UsesIn(And(first.rules), first.span)
                                 + AllUses(config.(rulesets := config.rulesets[1..]))
    ensures config.rules == [] && config.hosts == [] && config.rulesets == [] ==> AllUses(config) == []
  {
    hide UsesIn, HostUse, RuleUses, HostUses, InlineUses, UsesInAll;
    NoUses();
    if config.rules != [] {
      RulesFromFront(config.rules[0], config.rules[1..]);
      assert [config.rules[0]] + config.rules[1..] == config.rules;
    } else if config.hosts != [] {
      HostsFromFront(config.hosts[0], config.hosts[1..]);
      assert [config.hosts[0]] + config.hosts[1..] == config.hosts;
      HostUseIs(config.hosts[0]);
    } else if config.rulesets != [] {
      var first := config.rulesets[0];
      SetsFromFront(first, config.rulesets[1..]);
      assert [first] + config.rulesets[1..] == config.rulesets;
      UsesInAndIs(first.rules, first.span);
    }
  }

  lemma NoUses()
    ensures RuleUses([]) == HostUses([]) == InlineUses([]) == []
  {
  }

  lemma HostUseIs(host: Host)
    ensures HostUse(host) == if host.key.HostRuleSet? then [Use(host.key.resource, RULE_SET, host.span)]
                             else if host.key.HostDomainSet? then [Use(host.key.resource, DOMAIN_SET, host.span)]
                             else []
  {
  }

  lemma UsesInAndIs(kinds: seq<RuleKind>, span: nat)
    ensures UsesIn(And(kinds), span) == UsesInAll(kinds, span)
  {
  }

  method CollectSetUses(kind: RuleKind, span: nat, before: seq<Use>) returns (out: seq<Use>)
    ensures out == before + UsesIn(kind, span)
    decreases kind
  {
    out := before;
    match kind {
      case RuleSet(r) => out := out + [Use(r, RULE_SET, span)];
      case DomainSet(r) => out := out + [Use(r, DOMAIN_SET, span)];
      case And(subs) =>
        for i := 0 to |subs|
          invariant out == before + UsesInAll(subs[..i], span)
        {
          assert subs[..i + 1][..i] == subs[..i];
          out := CollectSetUses(subs[i], span, out);
        }
        assert subs[..|subs|] == subs;
      case Or(subs) =>
        for i := 0 to |subs|
          invariant out == before + UsesInAll(subs[..i], span)
        {
          assert subs[..i + 1][..i] == subs[..i];
          out := CollectSetUses(subs[i], span, out);
        }
        assert subs[..|subs|] == subs;
      case Not(sub) => out := CollectSetUses(sub, span, out);
      case Other =>
    }
  }

  method CollectRules(rules: seq<Rule>, before: seq<Use>) returns (uses: seq<Use>)
    ensures uses == before + RuleUses(rules)
  {
    uses := before;
    for i := 0 to |rules|
      invariant uses == before + RuleUses(rules[..i])
    {
      assert rules[..i + 1][..i] == rules[..i];
      uses := CollectSetUses(rules[i].kind, rules[i].span, uses);
    }
    assert rules[..|rules|] == rules;
  }

  method CollectHosts(hosts: seq<Host>, before: seq<Use>) returns (uses: seq<Use>)
    ensures uses == before + HostUses(hosts)
  {
    uses := before;
    for i := 0 to |hosts|
      invariant uses == before + HostUses(hosts[..i])
    {
      assert hosts[..i + 1][..i] == hosts[..i];
      var host := hosts[i];
      match host.key {
        case HostRuleSet(r) => uses := uses + [Use(r, RULE_SET, host.span)];
        case HostDomainSet(r) => uses := uses + [Use(r, DOMAIN_SET, host.span)];
        case Pattern =>
      }
    }
    assert hosts[..|hosts|] == hosts;
  }

  method CollectInline(sets: seq<InlineSet>, before: seq<Use>) returns (uses: seq<Use>)
    ensures uses == before + InlineUses(sets)
  {
    uses := before;
    for i := 0 to |sets|
      invariant uses == before + InlineUses(sets[..i])
    {
      assert sets[..i + 1][..i] == sets[..i];
      ghost var earlier := uses;
      var lines := sets[i].rules;
      for k := 0 to |lines|
        invariant uses == earlier + UsesInAll(lines[..k], sets[i].span)
      {
        assert lines[..k + 1][..k] == lines[..k];
        uses := CollectSetUses(lines[k], sets[i].span, uses);
      }
      assert lines[..|lines|] == lines;
    }
    assert sets[..|sets|] == sets;
  }

  method CollectAll(config: Config) returns (uses: seq<Use>)
    ensures uses == AllUses(config)
  {
    uses := CollectRules(config.rules, []);
    uses := CollectHosts(config.hosts, uses);
    uses := CollectInline(config.rulesets, uses);
  }

  // ---------- the conflicts ----------

  /** Where the resource of the use at `k` is first used. */
  ghost function FirstUse(uses: seq<Use>, k: nat): (f: nat)
    requires k < |uses|
    ensures f <= k && uses[f].resource == uses[k].resource
    ensures forall m :: 0 <= m < f ==> uses[m].resource != uses[k].resource
  {
    FirstOf(uses, uses[k].resource, k)
  }

  ghost function FirstOf(uses: seq<Use>, r: ResourceRef, k: nat): (f: nat)
    requires k < |uses| && uses[k].resource == r
    ensures f <= k && uses[f].resource == r
    ensures forall m :: 0 <= m < f ==> uses[m].resource != r
    decreases k
  {
    if m: nat :| m < k && uses[m].resource == r then FirstOf(uses, r, m) else k
  }

  /** The earliest use of a resource that differs from its first one. */
  ghost predicate Conflicts(uses: seq<Use>, k: nat)
    requires k < |uses|
  {
    && IsResource(uses[k].resource)
    && uses[k].keyword != uses[FirstUse(uses, k)].keyword
    && forall m :: 0 <= m < k && uses[m].resource == uses[k].resource ==>
                     uses[m].keyword == uses[FirstUse(uses, k)].keyword
  }

  /** The conflicts among the first `n` uses, in order. */
  ghost function ConflictsUpTo(uses: seq<Use>, n: nat): seq<Report>
    requires n <= |uses|
  {
    if n == 0 then []
    else
      ConflictsUpTo(uses, n - 1) +
      if Conflicts(uses, n - 1) then
        var first := uses[FirstUse(uses, n - 1)];
        [Report(uses[n - 1].resource, uses[n - 1].span, first.keyword, first.span)]
      else []
  }

  /** What the table holds of a resource: its first use, and whether it has been reported. */
  datatype Seen = Seen(keyword: Keyword, span: nat, reported: bool)

  /** What the table has of a resource when it is used once more. */
  function SeenAt(first: map<ResourceRef, Seen>, u: Use): Seen {
    if u.resource in first then first[u.resource] else Seen(u.keyword, u.span, false)
  }

  /** The table after the first `n` uses. */
  function TableAfter(uses: seq<Use>, n: nat): map<ResourceRef, Seen>
    requires n <= |uses|
  {
    if n == 0 then map[]
    else
      var u, before := uses[n - 1], TableAfter(uses, n - 1);
      if IsResource(u.resource) then
        var seen := SeenAt(before, u);
        before[u.resource := seen.(reported := seen.reported || seen.keyword != u.keyword)]
      else before
  }

  lemma {:induction false} OnlyWhatWasUsed(uses: seq<Use>, n: nat, r: ResourceRef)
    requires n <= |uses| && forall m :: 0 <= m < n ==> uses[m].resource != r
    ensures r !in TableAfter(uses, n)
    decreases n
  {
    if n > 0 {
      OnlyWhatWasUsed(uses, n - 1, r);
    }
  }

  /** Some of the first `n` uses of the resource used at `k` differs from its first use. */
  ghost predicate Differs(uses: seq<Use>, n: nat, k: nat)
    requires k < |uses| && n <= |uses|
  {
    exists m :: 0 <= m < n && uses[m].resource == uses[k].resource && uses[m].keyword != uses[FirstUse(uses, k)].keyword
  }

  /** The table has the first use of each resource, and whether a later one differs from it. */
  lemma {:induction false} TableHasFirst(uses: seq<Use>, n: nat, k: nat)
    requires k < n <= |uses| && IsResource(uses[k].resource)
    ensures var first := uses[FirstUse(uses, k)];
            && uses[k].resource in TableAfter(uses, n)
            && TableAfter(uses, n)[uses[k].resource] == Seen(first.keyword, first.span, Differs(uses, n, k))
    decreases n
  {
    var r, f := uses[k].resource, FirstUse(uses, k);
    if f < n - 1 {
      assert FirstUse(uses, f) == f;
      TableHasFirst(uses, n - 1, f);
    } else {
      OnlyWhatWasUsed(uses, n - 1, r);
    }
    var differs := uses[n - 1].resource == r && uses[n - 1].keyword != uses[f].keyword;
    assert Differs(uses, n, k) <==> Differs(uses, n - 1, k) || differs;
  }

  /** The table has what is needed to judge the next use. */
  lemma Judge(uses: seq<Use>, n: nat)
    requires n < |uses| && IsResource(uses[n].resource)
    ensures var seen, first := SeenAt(TableAfter(uses, n), uses[n]), uses[FirstUse(uses, n)];
            && seen.keyword == first.keyword && seen.span == first.span
            && (Conflicts(uses, n) <==> seen.keyword != uses[n].keyword && !seen.reported)
  {
    var f := FirstUse(uses, n);
    if f < n {
      assert FirstUse(uses, f) == f;
      TableHasFirst(uses, n, f);
    } else {
      OnlyWhatWasUsed(uses, n, uses[n].resource);
    }
  }

  /** Reports each resource used both ways once, at the earliest use that differs from its first. */
  method SetKindConflicts(config: Config) returns (reports: seq<Report>)
    ensures reports == ConflictsUpTo(AllUses(config), |AllUses(config)|)
    ensures reports == [] <==> exists ruleSets :: Agrees(config, ruleSets)
  {
    hide Conflicts, AllUses, Agrees, FirstUse;
    var uses := CollectAll(config);
    reports := [];
    var first: map<ResourceRef, Seen> := map[];
    for n := 0 to |uses|
      invariant first == TableAfter(uses, n)
      invariant reports == ConflictsUpTo(uses, n)
    {
      var u := uses[n];
      if IsResource(u.resource) {
        var seen := if u.resource in first then first[u.resource] else Seen(u.keyword, u.span, false);
        Judge(uses, n);
        if seen.keyword != u.keyword && !seen.reported {
          seen := seen.(reported := true);
          reports := reports + [Report(u.resource, u.span, seen.keyword, seen.span)];
        }
        first := first[u.resource := seen];
      } else {
        NoResource(uses, n);
      }
    }
    SilentWhenKindsAgree(config);
  }

  lemma NoResource(uses: seq<Use>, n: nat)
    requires n < |uses| && !IsResource(uses[n].resource)
    ensures !Conflicts(uses, n)
  {
  }

  // ---------- what silence means ----------

  /** `ruleSets` gives each resource one kind: those in it are RULE-SETs, the others DOMAIN-SETs. */
  predicate Fits(r: ResourceRef, keyword: Keyword, ruleSets: set<ResourceRef>) {
    IsResource(r) ==> (keyword == RULE_SET <==> r in ruleSets)
  }

  /** Every use in a rule, at any depth, is of the kind its resource is given. */
  predicate KindAgrees(kind: RuleKind, ruleSets: set<ResourceRef>)
    decreases kind
  {
    match kind
    case RuleSet(r) => Fits(r, RULE_SET, ruleSets)
    case DomainSet(r) => Fits(r, DOMAIN_SET, ruleSets)
    case And(subs) => forall sub <- subs :: KindAgrees(sub, ruleSets)
    case Or(subs) => forall sub <- subs :: KindAgrees(sub, ruleSets)
    case Not(sub) => KindAgrees(sub, ruleSets)
    case Other => true
  }

  predicate HostAgrees(key: HostKey, ruleSets: set<ResourceRef>) {
    match key
    case HostRuleSet(r) => Fits(r, RULE_SET, ruleSets)
    case HostDomainSet(r) => Fits(r, DOMAIN_SET, ruleSets)
    case Pattern => true
  }

  predicate Agrees(config: Config, ruleSets: set<ResourceRef>) {
    && (forall i :: 0 <= i < |config.rules| ==> KindAgrees(config.rules[i].kind, ruleSets))
    && (forall i :: 0 <= i < |config.hosts| ==> HostAgrees(config.hosts[i].key, ruleSets))
    && (forall i, k :: 0 <= i < |config.rulesets| && 0 <= k < |config.rulesets[i].rules| ==>
                         KindAgrees(config.rulesets[i].rules[k], ruleSets))
  }

  predicate UsesAgree(uses: seq<Use>, ruleSets: set<ResourceRef>) {
    forall k :: 0 <= k < |uses| ==> Fits(uses[k].resource, uses[k].keyword, ruleSets)
  }

  lemma UsesAgreeConcat(a: seq<Use>, b: seq<Use>, ruleSets: set<ResourceRef>)
    ensures UsesAgree(a + b, ruleSets) <==> UsesAgree(a, ruleSets) && UsesAgree(b, ruleSets)
  {
    assert forall k :: 0 <= k < |a| ==> (a + b)[k] == a[k];
    assert forall k :: 0 <= k < |b| ==> (a + b)[|a| + k] == b[k];
  }

  /** The uses gathered from a rule agree exactly when every use in it does. */
  lemma {:induction false} KindUsesAgree(kind: RuleKind, span: nat, ruleSets: set<ResourceRef>)
    ensures UsesAgree(UsesIn(kind, span), ruleSets) <==> KindAgrees(kind, ruleSets)
    decreases kind, 0
  {
    match kind {
      case RuleSet(r) => assert UsesIn(kind, span)[0] == Use(r, RULE_SET, span);
      case DomainSet(r) => assert UsesIn(kind, span)[0] == Use(r, DOMAIN_SET, span);
      case And(subs) => KindUsesAgreeAll(subs, span, ruleSets);
      case Or(subs) => KindUsesAgreeAll(subs, span, ruleSets);
      case Not(sub) => KindUsesAgree(sub, span, ruleSets);
      case Other =>
    }
  }

  lemma {:induction false} KindUsesAgreeAll(kinds: seq<RuleKind>, span: nat, ruleSets: set<ResourceRef>)
    ensures UsesAgree(UsesInAll(kinds, span), ruleSets) <==> forall kind <- kinds :: KindAgrees(kind, ruleSets)
    decreases kinds, 1
  {
    if kinds != [] {
      var front, last := kinds[..|kinds| - 1], kinds[|kinds| - 1];
      KindUsesAgreeAll(front, span, ruleSets);
      KindUsesAgree(last, span, ruleSets);
      UsesAgreeConcat(UsesInAll(front, span), UsesIn(last, span), ruleSets);
      assert kinds == front + [last];
    }
  }

  lemma {:induction false} RuleUsesAgree(rules: seq<Rule>, ruleSets: set<ResourceRef>)
    ensures UsesAgree(RuleUses(rules), ruleSets) <==>
            forall i :: 0 <= i < |rules| ==> KindAgrees(rules[i].kind, ruleSets)
    decreases |rules|
  {
    if rules != [] {
      var front, last := rules[..|rules| - 1], rules[|rules| - 1];
      RuleUsesAgree(front, ruleSets);
      KindUsesAgree(last.kind, last.span, ruleSets);
      UsesAgreeConcat(RuleUses(front), UsesIn(last.kind, last.span), ruleSets);
      assert forall i :: 0 <= i < |front| ==> rules[i] == front[i];
    }
  }

  lemma {:induction false} HostUsesAgree(hosts: seq<Host>, ruleSets: set<ResourceRef>)
    ensures UsesAgree(HostUses(hosts), ruleSets) <==>
            forall i :: 0 <= i < |hosts| ==> HostAgrees(hosts[i].key, ruleSets)
    decreases |hosts|
  {
    if hosts != [] {
      var front, last := hosts[..|hosts| - 1], hosts[|hosts| - 1];
      HostUsesAgree(front, ruleSets);
      UsesAgreeConcat(HostUses(front), HostUses(hosts)[|HostUses(front)|..], ruleSets);
      assert HostUses(hosts) == HostUses(front) + HostUses(hosts)[|HostUses(front)|..];
      assert forall i :: 0 <= i < |front| ==> hosts[i] == front[i];
      if !last.key.Pattern? {
        assert HostUses(hosts)[|HostUses(front)|..][0].resource == last.key.resource;
      }
    }
  }

  lemma {:induction false} InlineUsesAgree(sets: seq<InlineSet>, ruleSets: set<ResourceRef>)
    ensures UsesAgree(InlineUses(sets), ruleSets) <==>
            forall i, k :: 0 <= i < |sets| && 0 <= k < |sets[i].rules| ==> KindAgrees(sets[i].rules[k], ruleSets)
    decreases |sets|
  {
    if sets != [] {
      var front, last := sets[..|sets| - 1], sets[|sets| - 1];
      InlineUsesAgree(front, ruleSets);
      KindUsesAgreeAll(last.rules, last.span, ruleSets);
      UsesAgreeConcat(InlineUses(front), UsesInAll(last.rules, last.span), ruleSets);
      assert forall i :: 0 <= i < |front| ==> sets[i] == front[i];
      assert forall k :: 0 <= k < |last.rules| ==> last.rules[k] in last.rules;
    }
  }

  lemma AllUsesAgree(config: Config, ruleSets: set<ResourceRef>)
    ensures UsesAgree(AllUses(config), ruleSets) <==> Agrees(config, ruleSets)
  {
    var a, b, c := RuleUses(config.rules), HostUses(config.hosts), InlineUses(config.rulesets);
    RuleUsesAgree(config.rules, ruleSets);
    HostUsesAgree(config.hosts, ruleSets);
    InlineUsesAgree(config.rulesets, ruleSets);
    UsesAgreeConcat(a + b, c, ruleSets);
    UsesAgreeConcat(a, b, ruleSets);
  }

  lemma {:induction false} NoConflictUpTo(uses: seq<Use>, n: nat)
    requires n <= |uses|
    ensures ConflictsUpTo(uses, n) == [] <==> forall k :: 0 <= k < n ==> !Conflicts(uses, k)
    decreases n
  {
    if n > 0 {
      NoConflictUpTo(uses, n - 1);
    }
  }

  /** A use that differs from the first of its resource means that some use is a conflict. */
  lemma {:induction false} SomeConflict(uses: seq<Use>, k: nat) returns (c: nat)
    requires k < |uses| && IsResource(uses[k].resource) && uses[k].keyword != uses[FirstUse(uses, k)].keyword
    ensures c <= k && Conflicts(uses, c) && uses[c].resource == uses[k].resource
    decreases k
  {
    if m: nat :| m < k && uses[m].resource == uses[k].resource && uses[m].keyword != uses[FirstUse(uses, k)].keyword {
      assert FirstUse(uses, m) == FirstUse(uses, k);
      c := SomeConflict(uses, m);
    } else {
      c := k;
    }
  }

  /** Nothing is reported exactly when each resource can be given one kind that all its uses agree with. */
  lemma SilentWhenKindsAgree(config: Config)
    ensures ConflictsUpTo(AllUses(config), |AllUses(config)|) == [] <==> exists ruleSets :: Agrees(config, ruleSets)
  {
    var uses := AllUses(config);
    NoConflictUpTo(uses, |uses|);
    if ruleSets :| Agrees(config, ruleSets) {
      AllUsesAgree(config, ruleSets);
      forall k | 0 <= k < |uses| ensures !Conflicts(uses, k) {
        assert Fits(uses[k].resource, uses[k].keyword, ruleSets);
        assert Fits(uses[FirstUse(uses, k)].resource, uses[FirstUse(uses, k)].keyword, ruleSets);
      }
    }
    if ConflictsUpTo(uses, |uses|) == [] {
      var ruleSets := set k | 0 <= k < |uses| && uses[k].keyword == RULE_SET :: uses[k].resource;
      forall k | 0 <= k < |uses| ensures Fits(uses[k].resource, uses[k].keyword, ruleSets) {
        if uses[k].resource in ruleSets && IsResource(uses[k].resource) {
          var m :| 0 <= m < |uses| && uses[m].keyword == RULE_SET && uses[m].resource == uses[k].resource;
          SameKind(uses, k, m);
        }
      }
      AllUsesAgree(config, ruleSets);
    }
  }

  lemma SameKind(uses: seq<Use>, k: nat, m: nat)
    requires k < |uses| && m < |uses| && uses[k].resource == uses[m].resource && IsResource(uses[k].resource)
    requires forall c :: 0 <= c < |uses| ==> !Conflicts(uses, c)
    ensures uses[k].keyword == uses[m].keyword
  {
    assert FirstUse(uses, k) == FirstUse(uses, m);
    if uses[k].keyword != uses[FirstUse(uses, k)].keyword {
      var c := SomeConflict(uses, k);
      assert false;
    }
    if uses[m].keyword != uses[FirstUse(uses, m)].keyword {
      var c := SomeConflict(uses, m);
      assert false;
    }
  }

  // ---------- each resource once ----------

  lemma {:induction false} ReportedUse(uses: seq<Use>, n: nat, i: nat) returns (k: nat)
    requires n <= |uses| && i < |ConflictsUpTo(uses, n)|
    ensures k < n && Conflicts(uses, k)
    ensures var first := uses[FirstUse(uses, k)];
            ConflictsUpTo(uses, n)[i] == Report(uses[k].resource, uses[k].span, first.keyword, first.span)
    decreases n
  {
    if i < |ConflictsUpTo(uses, n - 1)| {
      k := ReportedUse(uses, n - 1, i);
    } else {
      k := n - 1;
    }
  }

  /**
   A report is of the earliest use of its resource that differs from its first use; it has the line of the one,
   and of the other both keyword and line.
   */
  lemma ReportIs(uses: seq<Use>, i: nat) returns (k: nat, f: nat)
    requires i < |ConflictsUpTo(uses, |uses|)|
    ensures f < k < |uses| && uses[f].resource == uses[k].resource && uses[f].keyword != uses[k].keyword
    ensures forall m :: 0 <= m < f ==> uses[m].resource != uses[f].resource
    ensures forall m :: f <= m < k && uses[m].resource == uses[f].resource ==> uses[m].keyword == uses[f].keyword
    ensures ConflictsUpTo(uses, |uses|)[i]
         == Report(uses[k].resource, uses[k].span, uses[f].keyword, uses[f].span)
  {
    k := ReportedUse(uses, |uses|, i);
    f := FirstUse(uses, k);
  }

  /** No resource is reported twice. */
  lemma {:induction false} ReportedOnce(uses: seq<Use>, n: nat, i: nat, j: nat)
    requires n <= |uses| && i < j < |ConflictsUpTo(uses, n)|
    ensures ConflictsUpTo(uses, n)[i].resource != ConflictsUpTo(uses, n)[j].resource
    decreases n
  {
    if j < |ConflictsUpTo(uses, n - 1)| {
      ReportedOnce(uses, n - 1, i, j);
    } else {
      var k := ReportedUse(uses, n - 1, i);
      if uses[k].resource == uses[n - 1].resource {
        assert false;
      }
    }
  }

  lemma {:induction false} ConflictIsReported(uses: seq<Use>, n: nat, k: nat) returns (i: nat)
    requires k < n <= |uses| && Conflicts(uses, k)
    ensures i < |ConflictsUpTo(uses, n)|
    ensures ConflictsUpTo(uses, n)[i] ==
            Report(uses[k].resource, uses[k].span, uses[FirstUse(uses, k)].keyword, uses[FirstUse(uses, k)].span)
    decreases n
  {
    if k < n - 1 {
      i := ConflictIsReported(uses, n - 1, k);
    } else {
      i := |ConflictsUpTo(uses, n - 1)|;
    }
  }

  /** The reported resources are exactly those that have uses of both kinds. */
  lemma ReportedWhenUsedBothWays(uses: seq<Use>, r: ResourceRef)
    ensures (exists report <- ConflictsUpTo(uses, |uses|) :: report.resource == r) <==>
            (r.Url? || r.File?) && exists k, m ::
              && 0 <= k < |uses| && 0 <= m < |uses|
              && uses[k].resource == r == uses[m].resource && uses[k].keyword != uses[m].keyword
  {
    var reports := ConflictsUpTo(uses, |uses|);
    if i :| 0 <= i < |reports| && reports[i].resource == r {
      var k := ReportedUse(uses, |uses|, i);
      assert uses[k].resource == r == uses[FirstUse(uses, k)].resource;
    }
    if IsResource(r) {
      if k, m :| 0 <= k < |uses| && 0 <= m < |uses| && uses[k].resource == r == uses[m].resource
                 && uses[k].keyword != uses[m].keyword {
        assert FirstUse(uses, k) == FirstUse(uses, m);
        var c := SomeConflict(uses, if uses[k].keyword != uses[FirstUse(uses, k)].keyword then k else m);
        var i := ConflictIsReported(uses, |uses|, c);
        assert reports[i] in reports;
      }
    }
  }
}
