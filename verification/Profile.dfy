/** The parts of a loaded profile that the checks among policies and groups read. */
module Profile {
  import opened Wrappers

  datatype GroupKind = Select | UrlTest | Fallback | LoadBalance | Smart | Subnet

  /** `conditions` are the policies of a subnet group's conditions; `includeOtherGroup` is split already. */
  datatype PolicyGroup = PolicyGroup(
    name: string,
    kind: GroupKind,
    members: seq<string>,
    conditions: seq<string>,
    default: Option<string>,
    includeOtherGroup: Option<seq<string>>)

  function GroupRefs(g: PolicyGroup): seq<string> {
    g.members + g.conditions + (if g.default.Some? then [g.default.value] else [])
  }

  /** Where a group leads to; its cycles are those of the graph with these edges. */
  function GroupEdges(g: PolicyGroup): seq<string> {
    GroupRefs(g) + (if g.kind != Subnet && g.includeOtherGroup.Some? then g.includeOtherGroup.value else [])
  }

  /** A group refers to a name in one of four ways; a subnet group includes nothing. */
  predicate RefersTo(g: PolicyGroup, b: string) {
    || b in g.members
    || b in g.conditions
    || g.default == Some(b)
    || (!g.kind.Subnet? && g.includeOtherGroup.Some? && b in g.includeOtherGroup.value)
  }

  lemma GroupEdgesAre(g: PolicyGroup, b: string)
    ensures b in GroupEdges(g) <==> RefersTo(g, b)
  {
  }

  /** What a group takes in besides the members on its line; `admits` is its name filter. */
  datatype ImportOpts = ImportOpts(
    admits: string -> bool,
    includeAllProxies: bool,
    includeOtherGroups: seq<string>)

  /** The typed view of a group: `underlyingProxy` is the relay its members are dialled through. */
  datatype GroupSpec = GroupSpec(
    name: string,
    members: seq<string>,
    imports: ImportOpts,
    underlyingProxy: Option<string>)

  /** The typed view of a policy. */
  datatype PolicySpec = PolicySpec(name: string, underlyingProxy: Option<string>, portHopping: bool)

  datatype Policy = Policy(name: string, builtinAlias: bool)

  datatype Config = Config(policies: seq<Policy>, groups: seq<PolicyGroup>)

  /** In the order of the profile, the names of the proxies that are no alias and pass the filter. */
  function AdmittedProxies(policies: seq<Policy>, imports: ImportOpts): seq<string> {
    if policies == [] then []
    else
      var front := AdmittedProxies(policies[..|policies| - 1], imports);
      var last := policies[|policies| - 1];
      if !last.builtinAlias && imports.admits(last.name) then front + [last.name] else front
  }

  /** Reading a profile refuses a second policy or group of the same name. */
  ghost predicate UniqueNames(groups: seq<PolicyGroup>) {
    forall i, j :: 0 <= i < j < |groups| ==> groups[i].name != groups[j].name
  }
}
