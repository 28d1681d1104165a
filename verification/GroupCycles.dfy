/**
 The check for cycles among policy groups: a depth-first search over the references of the groups
 that colours each group 0 (not met), 1 (being searched) or 2 (done).
 */
module GroupCycles {
  import opened Graph
  import opened Profile

  /** The references among the groups; a reference to anything but a group leads nowhere. */
  function RefGraph(groups: seq<PolicyGroup>): Edges
    requires UniqueNames(groups)
  {
    map i | 0 <= i < |groups| :: groups[i].name := GroupEdges(groups[i])
  }

  /** An edge is a reference, in one of the four ways there are, of the group of that name. */
  lemma RefGraphIs(groups: seq<PolicyGroup>, a: string, b: string)
    requires UniqueNames(groups)
    ensures Edge(RefGraph(groups), a, b) <==> exists g <- groups :: g.name == a && RefersTo(g, b)
  {
    hide GroupEdges, RefersTo;
    forall i | 0 <= i < |groups| && groups[i].name == a ensures b in GroupEdges(groups[i]) <==> RefersTo(groups[i], b) {
      GroupEdgesAre(groups[i], b);
    }
    if g :| g in groups && g.name == a && RefersTo(g, b) {
      var i :| 0 <= i < |groups| && groups[i] == g;
      assert RefGraph(groups)[a] == GroupEdges(g);
    }
  }

  /** Both groups lie on one cycle, along the reference from the first to the second. */
  ghost predicate OnOneCycle(g: Edges, a: string, b: string) {
    exists p :: IsCycle(g, p) && RunsAlong(p, a, b)
  }

  /**
   What holds all through the search. `stack` is the way from where it began to where it is, the
   groups of colour 1; `finished` are the groups of colour 2 in the order they got it.
   */
  ghost predicate Good(groups: seq<PolicyGroup>, colours: seq<nat>, warnings: seq<(string, string)>,
                       finished: seq<string>, stack: seq<string>)
  {
    && UniqueNames(groups) && |colours| == |groups|
    && (forall i :: 0 <= i < |groups| ==> colours[i] <= 2)
    && (forall i :: 0 <= i < |groups| ==> (colours[i] == 1 <==> groups[i].name in stack))
    && (forall i :: 0 <= i < |groups| ==> (colours[i] == 2 <==> groups[i].name in finished))
    && (stack == [] || IsPath(RefGraph(groups), stack))
    && (warnings == [] ==> Sorted(RefGraph(groups), finished))
    && (forall w <- warnings :: OnOneCycle(RefGraph(groups), w.0, w.1))
  }

  lemma Entered(groups: seq<PolicyGroup>, colours: seq<nat>, warnings: seq<(string, string)>,
                finished: seq<string>, stack: seq<string>, i: nat)
    requires Good(groups, colours, warnings, finished, stack) && i < |groups| && colours[i] == 0
    requires stack != [] ==> Edge(RefGraph(groups), stack[|stack| - 1], groups[i].name)
    ensures Good(groups, colours[i := 1], warnings, finished, stack + [groups[i].name])
  {
    PathGrows(RefGraph(groups), stack, groups[i].name);
  }

  lemma Warned(groups: seq<PolicyGroup>, colours: seq<nat>, warnings: seq<(string, string)>,
               finished: seq<string>, stack: seq<string>, i: nat, j: nat)
    requires i < |groups| && j < |groups|
    requires Good(groups, colours, warnings, finished, stack + [groups[i].name]) && colours[j] == 1
    requires Edge(RefGraph(groups), groups[i].name, groups[j].name)
    ensures Good(groups, colours, warnings + [(groups[i].name, groups[j].name)], finished, stack + [groups[i].name])
  {
    BackEdge(RefGraph(groups), stack + [groups[i].name], groups[j].name);
  }

  lemma Left(groups: seq<PolicyGroup>, colours: seq<nat>, warnings: seq<(string, string)>,
             finished: seq<string>, stack: seq<string>, i: nat)
    requires i < |groups|
    requires Good(groups, colours, warnings, finished, stack + [groups[i].name])
    requires groups[i].name !in stack
    requires warnings == [] ==>
               forall b :: Edge(RefGraph(groups), groups[i].name, b) && b in RefGraph(groups) ==> b in finished
    ensures Good(groups, colours[i := 2], warnings, finished + [groups[i].name], stack)
  {
    hide Sorted, IsPath, OnOneCycle, GroupEdges;
    if warnings == [] {
      SortedGrows(RefGraph(groups), finished, groups[i].name);
    }
    PathShrinks(RefGraph(groups), stack, groups[i].name);
  }

  class Search {
    const groups: seq<PolicyGroup>
    const index: map<string, nat>
    const colour: array<nat>
    /** The two groups each warning names. */
    var warnings: seq<(string, string)>
    ghost var finished: seq<string>

    ghost predicate Valid(stack: seq<string>)
      reads this, colour
    {
      && Good(groups, colour[..], warnings, finished, stack)
      && colour.Length == |groups|
      && (forall i :: 0 <= i < |groups| ==> groups[i].name in index && index[groups[i].name] == i)
      && (forall name <- index :: index[name] < |groups| && groups[index[name]].name == name)
    }

    ghost function Unmet(): set<nat>
      reads colour
    {
      set i | 0 <= i < colour.Length && colour[i] == 0
    }

    constructor (groups: seq<PolicyGroup>)
      requires UniqueNames(groups)
      ensures this.groups == groups && fresh(colour) && warnings == []
      ensures Valid([]) && forall i :: 0 <= i < |groups| ==> colour[i] == 0
    {
      this.groups := groups;
      this.index := map i | 0 <= i < |groups| :: groups[i].name := i;
      this.colour := new nat[|groups|](_ => 0);
      this.warnings := [];
      this.finished := [];
    }

    method Dfs(i: nat, ghost stack: seq<string>)
      requires Valid(stack) && i < |groups| && colour[i] == 0
      requires stack != [] ==> Edge(RefGraph(groups), stack[|stack| - 1], groups[i].name)
      modifies this, colour
      ensures Valid(stack) && colour[i] == 2 && old(warnings) <= warnings && groups[i].name in finished
      ensures forall k :: 0 <= k < |groups| && old(colour[k]) != 0 ==> colour[k] == old(colour[k])
      ensures forall done <- old(finished) :: done in finished
      decreases Unmet()
    {
      hide Good, GroupEdges;
      var name := groups[i].name;
      ghost var g, path := RefGraph(groups), stack + [name];
      ColourOf(groups, colour[..], warnings, finished, stack, i);
      Entered(groups, colour[..], warnings, finished, stack, i);
      ghost var before := colour[..];
      colour[i] := 1;
      assert colour[..] == before[i := 1];
      var edges := GroupEdges(groups[i]);
      for e := 0 to |edges|
        invariant Valid(path) && old(warnings) <= warnings
        invariant colour[i] == 1
        invariant forall k :: 0 <= k < |groups| && k != i && before[k] != 0 ==> colour[k] == before[k]
        invariant forall done <- old(finished) :: done in finished
        invariant warnings == [] ==> forall f :: 0 <= f < e && edges[f] in index ==> edges[f] in finished
      {
        if edges[e] in index {
          var j := index[edges[e]];
          assert Edge(g, name, edges[e]);
          ColourOf(groups, colour[..], warnings, finished, path, j);
          if colour[j] == 1 {
            Warned(groups, colour[..], warnings, finished, stack, i, j);
            warnings := warnings + [(name, groups[j].name)];
          } else if colour[j] == 0 {
            assert i in old(Unmet()) && i !in Unmet();
            Dfs(j, path);
          }
        }
      }
      Left(groups, colour[..], warnings, finished, stack, i);
      before := colour[..];
      colour[i] := 2;
      assert colour[..] == before[i := 2];
      finished := finished + [name];
    }
  }

  lemma ColourOf(groups: seq<PolicyGroup>, colours: seq<nat>, warnings: seq<(string, string)>,
                 finished: seq<string>, stack: seq<string>, j: nat)
    requires Good(groups, colours, warnings, finished, stack) && j < |groups|
    ensures colours[j] <= 2
    ensures colours[j] == 2 <==> groups[j].name in finished
    ensures colours[j] == 1 <==> groups[j].name in stack
  {
  }

  /** A reference from the end of a path back to a group on it closes a cycle. */
  lemma BackEdge(g: Edges, path: seq<string>, b: string)
    requires IsPath(g, path) && b in path && Edge(g, path[|path| - 1], b)
    ensures OnOneCycle(g, path[|path| - 1], b)
  {
    var k :| 0 <= k < |path| && path[k] == b;
    assert PathBetween(g, path[k..], b, path[|path| - 1]);
    CycleAlongEdge(g, path[|path| - 1], b);
  }

  /**
   Searches all the groups. There is a warning exactly when the references have a cycle, a group
   that names itself included; every warning names two neighbours on one cycle; and every group is
   done at the end.
   */
  method GroupCycleWarnings(groups: seq<PolicyGroup>) returns (warnings: seq<(string, string)>, colours: seq<nat>)
    requires UniqueNames(groups)
    ensures warnings != [] <==> HasCycle(RefGraph(groups))
    ensures forall w <- warnings :: OnOneCycle(RefGraph(groups), w.0, w.1)
    ensures forall a, b :: Edge(RefGraph(groups), a, b) <==> exists g <- groups :: g.name == a && RefersTo(g, b)
    ensures colours == seq(|groups|, _ => 2)
  {
    forall a, b ensures Edge(RefGraph(groups), a, b) <==> exists g <- groups :: g.name == a && RefersTo(g, b) {
      RefGraphIs(groups, a, b);
    }
    var search := new Search(groups);
    for i := 0 to |groups|
      invariant search.groups == groups && fresh(search) && fresh(search.colour)
      invariant search.Valid([])
      invariant forall k :: 0 <= k < i ==> search.colour[k] == 2
    {
      if search.colour[i] == 0 {
        search.Dfs(i, []);
      }
    }
    warnings, colours := search.warnings, search.colour[..];
    if warnings == [] {
      SortedHasNoCycle(RefGraph(groups), search.finished);
    } else {
      assert OnOneCycle(RefGraph(groups), warnings[0].0, warnings[0].1);
    }
  }
}
