/**
 Which relays lie on a cycle of the graph that relays, references, includes and taken-in proxies make up: a
 search with a stack and a set from the end of each relay tells exactly that.
 */
module UnderlyingCycles {
  import opened Wrappers
  import opened Graph
  import opened Picking
  import opened Profile

  /** What the check reports: a policy or a group, and the name its relay goes by. */
  datatype Report = PolicyLeadsBack(name: string, via: string) | GroupLeadsBack(name: string, via: string)

  // ---------- the graph ----------

  function SpecOf(groups: seq<GroupSpec>, name: string): (r: Option<GroupSpec>)
    ensures r.Some? ==> r.value in groups && r.value.name == name
    ensures r.None? ==> forall s <- groups :: s.name != name
  {
    if groups == [] then None
    else if groups[0].name == name then Some(groups[0])
    else SpecOf(groups[1..], name)
  }

  /** Where a group leads to: its references, its relay and the proxies it takes in. */
  function GroupNext(config: Config, groups: seq<GroupSpec>, g: PolicyGroup): seq<string> {
    GroupEdges(g) +
    match SpecOf(groups, g.name)
    case None => []
    case Some(spec) =>
      (if spec.underlyingProxy.Some? then [spec.underlyingProxy.value] else []) +
      (if spec.imports.includeAllProxies then AdmittedProxies(config.policies, spec.imports) else [])
  }

  function PolicyEdges(specs: seq<PolicySpec>): Edges {
    if specs == [] then map[]
    else
      var front, last := PolicyEdges(specs[..|specs| - 1]), specs[|specs| - 1];
      if last.underlyingProxy.Some? then front[last.name := [last.underlyingProxy.value]] else front
  }

  function CombinedEdges(config: Config, specs: seq<PolicySpec>, groups: seq<GroupSpec>, n: nat): Edges
    requires n <= |config.groups|
  {
    if n == 0 then PolicyEdges(specs)
    else
      var g := config.groups[n - 1];
      CombinedEdges(config, specs, groups, n - 1)[g.name := GroupNext(config, groups, g)]
  }

  function CombinedGraph(config: Config, specs: seq<PolicySpec>, groups: seq<GroupSpec>): Edges {
    CombinedEdges(config, specs, groups, |config.groups|)
  }

  /** Reading a profile refuses a name given twice; a typed view belongs to what it is a view of. */
  ghost predicate NamesFit(config: Config, specs: seq<PolicySpec>, groups: seq<GroupSpec>) {
    && UniqueNames(config.groups)
    && (forall i, j :: 0 <= i < j < |specs| ==> specs[i].name != specs[j].name)
    && (forall i, j :: 0 <= i < j < |groups| ==> groups[i].name != groups[j].name)
    && (forall s <- specs, g <- config.groups :: s.name != g.name)
    && (forall s <- groups :: exists g <- config.groups :: g.name == s.name)
  }

  /** The relay of a policy or of a group. */
  ghost predicate RelayEdge(specs: seq<PolicySpec>, groups: seq<GroupSpec>, a: string, b: string) {
    || (exists s <- specs :: s.name == a && s.underlyingProxy == Some(b))
    || (exists s <- groups :: s.name == a && s.underlyingProxy == Some(b))
  }

  /** A group that takes in all proxies has this one among them. */
  ghost predicate TakesInProxy(config: Config, groups: seq<GroupSpec>, a: string, b: string) {
    exists s <- groups ::
      && s.name == a && s.imports.includeAllProxies && s.imports.admits(b)
      && exists p <- config.policies :: p.name == b && !p.builtinAlias
  }

  /** The four ways one name leads to another. */
  ghost predicate LeadsOn(config: Config, specs: seq<PolicySpec>, groups: seq<GroupSpec>, a: string, b: string) {
    || RelayEdge(specs, groups, a, b)
    || (exists g <- config.groups :: g.name == a && RefersTo(g, b))
    || TakesInProxy(config, groups, a, b)
  }

  lemma {:induction false} PolicyEdgesAre(specs: seq<PolicySpec>, a: string, b: string)
    requires forall i, j :: 0 <= i < j < |specs| ==> specs[i].name != specs[j].name
    ensures Edge(PolicyEdges(specs), a, b) <==> exists s <- specs :: s.name == a && s.underlyingProxy == Some(b)
    decreases |specs|
  {
    if specs != [] {
      var front, last := specs[..|specs| - 1], specs[|specs| - 1];
      PolicyEdgesAre(front, a, b);
      assert forall s :: s in specs <==> s in front || s == last by { assert specs == front + [last]; }
      if last.name == a {
        assert forall s <- front :: s.name != a;
      }
    }
  }

  lemma {:induction false} AdmittedAre(policies: seq<Policy>, imports: ImportOpts, b: string)
    ensures b in AdmittedProxies(policies, imports) <==>
            imports.admits(b) && exists p <- policies :: p.name == b && !p.builtinAlias
    decreases |policies|
  {
    if policies != [] {
      var front, last := policies[..|policies| - 1], policies[|policies| - 1];
      AdmittedAre(front, imports, b);
      assert policies == front + [last];
    }
  }

  lemma {:induction false} CombinedLookup(config: Config, specs: seq<PolicySpec>, groups: seq<GroupSpec>, n: nat)
    requires NamesFit(config, specs, groups) && n <= |config.groups|
    ensures forall i :: 0 <= i < n ==>
              config.groups[i].name in CombinedEdges(config, specs, groups, n)
              && CombinedEdges(config, specs, groups, n)[config.groups[i].name]
                 == GroupNext(config, groups, config.groups[i])
    ensures forall a, b :: (forall g <- config.groups :: g.name != a) ==>
              (Edge(CombinedEdges(config, specs, groups, n), a, b) <==> Edge(PolicyEdges(specs), a, b))
    decreases n
  {
    if n > 0 {
      CombinedLookup(config, specs, groups, n - 1);
    }
  }

  /** Names being unique, the view that is found is the view of the group. */
  lemma {:induction false} SpecIsFound(groups: seq<GroupSpec>, s: GroupSpec)
    requires s in groups && forall i, j :: 0 <= i < j < |groups| ==> groups[i].name != groups[j].name
    ensures SpecOf(groups, s.name) == Some(s)
    decreases |groups|
  {
    if groups[0] != s {
      SpecIsFound(groups[1..], s);
    }
  }

  /** What a group leads to, told from its own line and its typed view. */
  lemma GroupNextIs(config: Config, specs: seq<PolicySpec>, groups: seq<GroupSpec>, g: PolicyGroup, b: string)
    requires NamesFit(config, specs, groups) && g in config.groups
    ensures b in GroupNext(config, groups, g) <==> LeadsOn(config, specs, groups, g.name, b)
  {
    hide GroupEdges, RefersTo;
    GroupEdgesAre(g, b);
    forall s <- groups | s.name == g.name ensures SpecOf(groups, g.name) == Some(s) {
      SpecIsFound(groups, s);
    }
    forall other <- config.groups | other.name == g.name ensures other == g {
    }
    if SpecOf(groups, g.name).Some? {
      AdmittedAre(config.policies, SpecOf(groups, g.name).value.imports, b);
    }
  }

  /**
   The edges of the combined graph are the relays of policies and of groups, the references and includes
   of groups, and the proxies that groups take in.
   */
  lemma EdgesAreExactly(config: Config, specs: seq<PolicySpec>, groups: seq<GroupSpec>, a: string, b: string)
    requires NamesFit(config, specs, groups)
    ensures Edge(CombinedGraph(config, specs, groups), a, b) <==> LeadsOn(config, specs, groups, a, b)
  {
    hide LeadsOn, GroupNext, PolicyEdges;
    CombinedLookup(config, specs, groups, |config.groups|);
    if i :| 0 <= i < |config.groups| && config.groups[i].name == a {
      GroupNextIs(config, specs, groups, config.groups[i], b);
    } else {
      NoGroupLeadsOn(config, specs, groups, a, b);
      PolicyEdgesAre(specs, a, b);
    }
  }

  lemma NoGroupLeadsOn(config: Config, specs: seq<PolicySpec>, groups: seq<GroupSpec>, a: string, b: string)
    requires NamesFit(config, specs, groups) && forall g <- config.groups :: g.name != a
    ensures LeadsOn(config, specs, groups, a, b) <==> exists s <- specs :: s.name == a && s.underlyingProxy == Some(b)
  {
  }

  // ---------- reachability by a stack and a set ----------

  /** A set that edges never leave holds everything that can be reached from within. */
  lemma ClosedHoldsAll(g: Edges, closed: set<string>, p: seq<string>)
    requires forall a, b :: a in closed && Edge(g, a, b) ==> b in closed
    requires IsPath(g, p) && p[0] in closed
    ensures forall i :: 0 <= i < |p| ==> p[i] in closed
  {
    for n := 1 to |p|
      invariant forall i :: 0 <= i < n ==> p[i] in closed
    {
      assert Edge(g, p[n - 1], p[n]);
    }
  }

  /** Whether `first` leads to `start`: exactly reachability, on every graph. */
  method LeadsBack(g: Edges, start: string, first: string) returns (r: bool)
    ensures r <==> Reaches(g, first, start)
  {
    hide Reaches, IsPath;
    var seen: set<string> := {};
    var stack := [first];
    ReachesSelf(g, first);
    while stack != []
      invariant forall a :: a in seen || a in stack ==> Reaches(g, first, a)
      invariant forall a, b :: a in seen && Edge(g, a, b) ==> b in seen || b in stack
      invariant (first in seen || first in stack) && start !in seen
      decreases g.Keys - seen, |stack|
    {
      var name := stack[|stack| - 1];
      stack := stack[..|stack| - 1];
      if name == start {
        return true;
      }
      if name !in seen {
        seen := seen + {name};
        if name in g {
          forall b <- g[name] ensures Reaches(g, first, b) {
            EdgeReaches(g, name, b);
            ReachesTrans(g, first, name, b);
          }
          stack := stack + g[name];
        }
      }
    }
    NotReached(g, seen, first, start);
    r := false;
  }

  lemma NotReached(g: Edges, closed: set<string>, first: string, start: string)
    requires forall a, b :: a in closed && Edge(g, a, b) ==> b in closed
    requires first in closed && start !in closed
    ensures !Reaches(g, first, start)
  {
    if p :| PathBetween(g, p, first, start) {
      ClosedHoldsAll(g, closed, p);
      assert false;
    }
  }

  // ---------- the check ----------

  /** A cycle runs along this relay. */
  ghost predicate OnCycle(g: Edges, a: string, b: string) {
    exists p :: IsCycle(g, p) && RunsAlong(p, a, b)
  }

  /** The policies whose relay lies on a cycle, in order. */
  ghost function PolicyReports(g: Edges, specs: seq<PolicySpec>): seq<Report> {
    if specs == [] then []
    else
      var front, last := PolicyReports(g, specs[..|specs| - 1]), specs[|specs| - 1];
      if last.underlyingProxy.Some? && OnCycle(g, last.name, last.underlyingProxy.value)
      then front + [PolicyLeadsBack(last.name, last.underlyingProxy.value)] else front
  }

  /** The groups whose relay lies on a cycle, in order. */
  ghost function GroupReports(g: Edges, groups: seq<GroupSpec>): seq<Report> {
    if groups == [] then []
    else
      var front, last := GroupReports(g, groups[..|groups| - 1]), groups[|groups| - 1];
      if last.underlyingProxy.Some? && OnCycle(g, last.name, last.underlyingProxy.value)
      then front + [GroupLeadsBack(last.name, last.underlyingProxy.value)] else front
  }

  /** One report for each policy whose relay lies on a cycle, in their order, with its name and its relay. */
  lemma {:induction false} PolicyReportsAre(g: Edges, specs: seq<PolicySpec>) returns (at: seq<nat>)
    ensures Ascending(at, set k: nat | k < |specs| && specs[k].underlyingProxy.Some?
                                       && OnCycle(g, specs[k].name, specs[k].underlyingProxy.value))
    ensures |PolicyReports(g, specs)| == |at|
    ensures forall i :: 0 <= i < |at| ==>
              && at[i] < |specs| && specs[at[i]].underlyingProxy.Some?
              && PolicyReports(g, specs)[i] == PolicyLeadsBack(specs[at[i]].name, specs[at[i]].underlyingProxy.value)
    decreases |specs|
  {
    hide OnCycle;
    at := [];
    if specs != [] {
      var n := |specs| - 1;
      var front, last := specs[..n], specs[n];
      at := PolicyReportsAre(g, front);
      var which := set k: nat | k < n && front[k].underlyingProxy.Some?
                                && OnCycle(g, front[k].name, front[k].underlyingProxy.value);
      var more := set k: nat | k < |specs| && specs[k].underlyingProxy.Some?
                               && OnCycle(g, specs[k].name, specs[k].underlyingProxy.value);
      if last.underlyingProxy.Some? && OnCycle(g, last.name, last.underlyingProxy.value) {
        AscendingMore(at, which, n);
        at := at + [n];
        assert which + {n} == more;
      } else {
        assert which == more;
      }
    }
  }

  /** The same for the groups. */
  lemma {:induction false} GroupReportsAre(g: Edges, groups: seq<GroupSpec>) returns (at: seq<nat>)
    ensures Ascending(at, set k: nat | k < |groups| && groups[k].underlyingProxy.Some?
                                       && OnCycle(g, groups[k].name, groups[k].underlyingProxy.value))
    ensures |GroupReports(g, groups)| == |at|
    ensures forall i :: 0 <= i < |at| ==>
              && at[i] < |groups| && groups[at[i]].underlyingProxy.Some?
              && GroupReports(g, groups)[i] == GroupLeadsBack(groups[at[i]].name, groups[at[i]].underlyingProxy.value)
    decreases |groups|
  {
    hide OnCycle;
    at := [];
    if groups != [] {
      var n := |groups| - 1;
      var front, last := groups[..n], groups[n];
      at := GroupReportsAre(g, front);
      var which := set k: nat | k < n && front[k].underlyingProxy.Some?
                                && OnCycle(g, front[k].name, front[k].underlyingProxy.value);
      var more := set k: nat | k < |groups| && groups[k].underlyingProxy.Some?
                               && OnCycle(g, groups[k].name, groups[k].underlyingProxy.value);
      if last.underlyingProxy.Some? && OnCycle(g, last.name, last.underlyingProxy.value) {
        AscendingMore(at, which, n);
        at := at + [n];
        assert which + {n} == more;
      } else {
        assert which == more;
      }
    }
  }

  lemma {:induction false} NoPolicyReport(g: Edges, specs: seq<PolicySpec>)
    ensures PolicyReports(g, specs) == [] <==>
            forall s <- specs :: s.underlyingProxy.Some? ==> !OnCycle(g, s.name, s.underlyingProxy.value)
    decreases |specs|
  {
    if specs != [] {
      NoPolicyReport(g, specs[..|specs| - 1]);
      assert specs == specs[..|specs| - 1] + [specs[|specs| - 1]];
    }
  }

  lemma {:induction false} NoGroupReport(g: Edges, groups: seq<GroupSpec>)
    ensures GroupReports(g, groups) == [] <==>
            forall s <- groups :: s.underlyingProxy.Some? ==> !OnCycle(g, s.name, s.underlyingProxy.value)
    decreases |groups|
  {
    if groups != [] {
      NoGroupReport(g, groups[..|groups| - 1]);
      assert groups == groups[..|groups| - 1] + [groups[|groups| - 1]];
    }
  }

  /** Nothing is reported exactly when no cycle of the graph runs along a relay. */
  lemma SilentWithoutRelayCycle(g: Edges, specs: seq<PolicySpec>, groups: seq<GroupSpec>)
    ensures PolicyReports(g, specs) + GroupReports(g, groups) == [] <==>
            forall p, a, b :: IsCycle(g, p) && RelayEdge(specs, groups, a, b) ==> !RunsAlong(p, a, b)
  {
    NoPolicyReport(g, specs);
    NoGroupReport(g, groups);
    if forall p, a, b :: IsCycle(g, p) && RelayEdge(specs, groups, a, b) ==> !RunsAlong(p, a, b) {
      forall s <- specs | s.underlyingProxy.Some? ensures !OnCycle(g, s.name, s.underlyingProxy.value) {
        assert RelayEdge(specs, groups, s.name, s.underlyingProxy.value);
      }
      forall s <- groups | s.underlyingProxy.Some? ensures !OnCycle(g, s.name, s.underlyingProxy.value) {
        assert RelayEdge(specs, groups, s.name, s.underlyingProxy.value);
      }
    }
  }

  method BuildEdges(config: Config, specs: seq<PolicySpec>, groups: seq<GroupSpec>) returns (edges: Edges)
    ensures edges == CombinedGraph(config, specs, groups)
    ensures NamesFit(config, specs, groups) ==>
              forall a, b :: Edge(edges, a, b) <==> LeadsOn(config, specs, groups, a, b)
  {
    hide NamesFit, LeadsOn, Edge;
    edges := map[];
    for i := 0 to |specs|
      invariant edges == PolicyEdges(specs[..i])
    {
      assert specs[..i + 1][..i] == specs[..i];
      if specs[i].underlyingProxy.Some? {
        edges := edges[specs[i].name := [specs[i].underlyingProxy.value]];
      }
    }
    assert specs[..|specs|] == specs;
    for i := 0 to |config.groups|
      invariant edges == CombinedEdges(config, specs, groups, i)
    {
      var g := config.groups[i];
      var next := GroupEdges(g);
      var spec := SpecOf(groups, g.name);
      if spec.Some? {
        if spec.value.underlyingProxy.Some? {
          next := next + [spec.value.underlyingProxy.value];
        }
        if spec.value.imports.includeAllProxies {
          next := next + AdmittedProxies(config.policies, spec.value.imports);
        }
      }
      assert next == GroupNext(config, groups, g);
      edges := edges[g.name := next];
    }
    if NamesFit(config, specs, groups) {
      forall a, b ensures Edge(edges, a, b) <==> LeadsOn(config, specs, groups, a, b) {
        EdgesAreExactly(config, specs, groups, a, b);
      }
    }
  }

  /** Reports each policy and each group whose own relay lies on a cycle, in order, and nothing else. */
  method Check(config: Config, specs: seq<PolicySpec>, groups: seq<GroupSpec>) returns (reports: seq<Report>)
    requires NamesFit(config, specs, groups)
    ensures var g := CombinedGraph(config, specs, groups);
            && reports == PolicyReports(g, specs) + GroupReports(g, groups)
            && (reports == [] <==>
                forall p, a, b :: IsCycle(g, p) && RelayEdge(specs, groups, a, b) ==> !RunsAlong(p, a, b))
  {
    hide OnCycle, NamesFit;
    var edges := BuildEdges(config, specs, groups);
    reports := [];
    for i := 0 to |specs|
      invariant reports == PolicyReports(edges, specs[..i])
    {
      assert specs[..i + 1][..i] == specs[..i];
      var s := specs[i];
      if s.underlyingProxy.Some? {
        var back := LeadsBack(edges, s.name, s.underlyingProxy.value);
        BackIsCycle(config, specs, groups, s.name, s.underlyingProxy.value);
        if back {
          reports := reports + [PolicyLeadsBack(s.name, s.underlyingProxy.value)];
        }
      }
    }
    assert specs[..|specs|] == specs;
    for i := 0 to |groups|
      invariant reports == PolicyReports(edges, specs) + GroupReports(edges, groups[..i])
    {
      assert groups[..i + 1][..i] == groups[..i];
      var s := groups[i];
      if s.underlyingProxy.Some? {
        var back := LeadsBack(edges, s.name, s.underlyingProxy.value);
        BackIsCycle(config, specs, groups, s.name, s.underlyingProxy.value);
        if back {
          reports := reports + [GroupLeadsBack(s.name, s.underlyingProxy.value)];
        }
      }
    }
    assert groups[..|groups|] == groups;
    SilentWithoutRelayCycle(edges, specs, groups);
  }

  lemma BackIsCycle(config: Config, specs: seq<PolicySpec>, groups: seq<GroupSpec>, a: string, b: string)
    requires NamesFit(config, specs, groups) && RelayEdge(specs, groups, a, b)
    ensures OnCycle(CombinedGraph(config, specs, groups), a, b) <==> Reaches(CombinedGraph(config, specs, groups), b, a)
  {
    EdgesAreExactly(config, specs, groups, a, b);
    CycleAlongEdge(CombinedGraph(config, specs, groups), a, b);
  }
}
