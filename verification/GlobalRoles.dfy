/** The command-line client's search for the one head and the one tail of a chain. */
module GlobalRoles {
  import opened Wrappers
  import opened CrownTopology
  import opened ConfigGenerator

  datatype Role = HEAD | TAIL

  datatype RoleError = SeveralNodes(first: nat, second: nat) | NoNode

  predicate Marked(n: NodeRecord, role: Role) {
    if role == HEAD then n.isHead else n.isTail
  }

  ghost predicate OnlyOne(nodes: seq<NodeRecord>, role: Role, i: nat) {
    i < |nodes| && Marked(nodes[i], role) && forall j :: 0 <= j < |nodes| && Marked(nodes[j], role) ==> j == i
  }

  /** Found exactly when one node is marked; otherwise the first two marked nodes, or that there is none. */
  method FindGlobalRole(nodes: seq<NodeRecord>, role: Role) returns (r: Result<nat, RoleError>)
    ensures r.Ok? <==> exists i :: OnlyOne(nodes, role, i)
    ensures r.Ok? ==> OnlyOne(nodes, role, r.value)
    ensures r == Err(NoNode) <==> forall j :: 0 <= j < |nodes| ==> !Marked(nodes[j], role)
    ensures r.Err? && r.error.SeveralNodes? ==>
              && r.error.first < r.error.second < |nodes|
              && forall j :: 0 <= j <= r.error.second ==>
                   (Marked(nodes[j], role) <==> j == r.error.first || j == r.error.second)
  {
    var selected: Option<nat> := None;
    for i := 0 to |nodes|
      invariant selected.Some? ==> selected.value < i
      invariant forall j :: 0 <= j < i ==> (Marked(nodes[j], role) <==> selected == Some(j))
    {
      if Marked(nodes[i], role) {
        if selected.Some? {
          assert Marked(nodes[selected.value], role);
          return Err(SeveralNodes(selected.value, i));
        }
        selected := Some(i);
      }
    }
    if selected.None? { return Err(NoNode); }
    assert OnlyOne(nodes, role, selected.value);
    return Ok(selected.value);
  }

  /** On a generated chain both roles are found: the head is the first node, the tail the last. */
  lemma GeneratedRolesAreUnique(nodes: seq<NodeRecord>, n: nat, basePort: nat, env: EnvName, host: Option<string>)
    requires n > 0 && IsGeneratedChain(nodes, n, basePort, env, host)
    ensures OnlyOne(nodes, HEAD, 0) && OnlyOne(nodes, TAIL, n - 1)
  {
    forall i | 0 <= i < n ensures nodes[i].isHead == (i == 0) && nodes[i].isTail == (i == n - 1) {
      assert nodes[i] == ChainRecord(n, basePort, env, host, i);
    }
  }
}
