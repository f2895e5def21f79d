/** The configuration generator, and the client's reading of the addresses it writes. */
module ConfigGenerator {
  import opened Wrappers
  import opened CrownTopology
  import Text

  // ----- addresses -----

  datatype AddrError = NoColon | BadPort

  datatype Addr = Addr(host: string, port: int)

  function RFind(s: string, c: char): (r: Option<nat>)
    ensures r.Some? ==> r.value < |s| && s[r.value] == c && forall i :: r.value < i < |s| ==> s[i] != c
    ensures r.None? ==> c !in s
  {
    if s == "" then None
    else if s[|s|-1] == c then Some(|s| - 1)
    else RFind(s[..|s|-1], c)
  }

  /** Everything before the last colon is the host; stoi reads the port and ignores what follows it. */
  function ParseAddr(s: string): Result<Addr, AddrError> {
    var colon := RFind(s, ':');
    if colon.None? then Err(NoColon)
    else
      var port := Text.Stoi(s[colon.value + 1..]);
      if port.None? then Err(BadPort) else Ok(Addr(s[..colon.value], port.value.value))
  }

  lemma LastAt(s: string, c: char, p: nat)
    requires p < |s| && s[p] == c && forall i :: p < i < |s| ==> s[i] != c
    ensures RFind(s, c) == Some(p)
  {
    hide RFind;
    assert s[p] in s;
  }

  lemma LastColonSplits(host: string, rest: string)
    requires ':' !in rest
    ensures RFind(host + ":" + rest, ':') == Some(|host|)
    ensures (host + ":" + rest)[..|host|] == host && (host + ":" + rest)[|host| + 1..] == rest
  {
    hide RFind;
    var s := host + ":" + rest;
    forall i | |host| < i < |s| ensures s[i] != ':' { assert s[i] == rest[i - |host| - 1]; }
    LastAt(s, ':', |host|);
  }

  /** Whatever the host, even one with colons, host:port parses back. */
  lemma AddrRoundTrip(host: string, port: nat)
    requires port <= Text.INT_MAX
    ensures ParseAddr(Endpoint(host, port)) == Ok(Addr(host, port))
  {
    Text.DigitsAreDigits(port);
    Text.DigitsParseBack(port, Text.INT_MIN, Text.INT_MAX);
    assert ':' !in Text.Digits(port);
    LastColonSplits(host, Text.Digits(port));
    hide RFind, Text.ParsePrefix, Text.Digits;
  }

  /** An address is a host, a colon, a numeral that is an int, and text that is ignored. */
  ghost predicate IsAddr(s: string, host: string, port: int, spaces: string, sign: string, digits: string,
                         rest: string)
  {
    && s == host + ":" + (spaces + sign + digits + rest)
    && Text.IsNumeral(spaces + sign + digits, spaces, sign, digits)
    && port == Text.SignedValue(sign, digits) && Text.INT_MIN <= port <= Text.INT_MAX
    && ':' !in rest && (rest == "" || !Text.IsDigit(rest[0]))
  }

  /** Exactly the addresses are accepted, each as its host and port. */
  lemma ParseAddrIff(s: string, host: string, port: int)
    ensures ParseAddr(s) == Ok(Addr(host, port)) <==>
            exists spaces, sign, digits, rest :: IsAddr(s, host, port, spaces, sign, digits, rest)
  {
    hide RFind, Text.ParsePrefix, Text.SignedValue;
    if ParseAddr(s) == Ok(Addr(host, port)) {
      var spaces, sign, digits, rest := AddrParts(s, host, port);
    }
    forall spaces, sign, digits, rest | IsAddr(s, host, port, spaces, sign, digits, rest)
      ensures ParseAddr(s) == Ok(Addr(host, port))
    {
      AddrIsParsed(s, host, port, spaces, sign, digits, rest);
    }
  }

  lemma AddrIsParsed(s: string, host: string, port: int, spaces: string, sign: string, digits: string, rest: string)
    requires IsAddr(s, host, port, spaces, sign, digits, rest)
    ensures ParseAddr(s) == Ok(Addr(host, port))
  {
    hide RFind, Text.ParsePrefix, Text.SignedValue;
    var numeral := spaces + sign + digits;
    LastColonSplits(host, numeral + rest);
    Text.NumeralIsRead(numeral, spaces, sign, digits, rest, Text.INT_MIN, Text.INT_MAX);
  }

  lemma AddrParts(s: string, host: string, port: int)
    returns (spaces: string, sign: string, digits: string, rest: string)
    requires ParseAddr(s) == Ok(Addr(host, port))
    ensures IsAddr(s, host, port, spaces, sign, digits, rest)
  {
    hide Text.ParsePrefix, Text.SignedValue;
    var colon := RFind(s, ':').value;
    var t := s[colon + 1..];
    spaces, sign, digits := Text.ReadIsNumeral(t, Text.INT_MIN, Text.INT_MAX);
    rest := t[Text.Stoi(t).value.consumed..];
    assert t == spaces + sign + digits + rest;
    assert s == host + ":" + t;
  }

  /** Of the others, those without a colon are told apart. */
  lemma NoColonIff(s: string)
    ensures ParseAddr(s) == Err(NoColon) <==> ':' !in s
  {
    var colon := RFind(s, ':');
    if colon.Some? { assert s[colon.value] in s; }
  }

  // ----- hosts, ports, endpoints -----

  datatype EnvName = DEV | PROD

  const PROD_HOST_PREFIX := "sp26-cs525-"
  const PROD_HOST_START := 1201
  const PROD_HOST_SUFFIX := ".cs.illinois.edu"

  function HostForIndex(index: nat, env: EnvName): string {
    if env == DEV then "127.0.0.1"
    else PROD_HOST_PREFIX + Text.ToString(PROD_HOST_START + index) + PROD_HOST_SUFFIX
  }

  /** An empty override counts as none. */
  predicate Overridden(host: Option<string>) {
    host.Some? && host.value != ""
  }

  function BuildHosts(n: nat, env: EnvName, host: Option<string>): (hosts: seq<string>)
    ensures |hosts| == n
  {
    if Overridden(host) then seq(n, _ => host.value) else seq(n, i requires 0 <= i => HostForIndex(i, env))
  }

  function BuildPorts(n: nat, basePort: int, env: EnvName): (ports: seq<int>)
    ensures |ports| == n
  {
    if env == DEV then seq(n, i => basePort + i) else seq(n, _ => basePort)
  }

  function BuildEndpoints(n: nat, basePort: int, env: EnvName, host: Option<string>): (endpoints: seq<string>)
    ensures |endpoints| == n
  {
    var hosts, ports := BuildHosts(n, env, host), BuildPorts(n, basePort, env);
    seq(n, i requires 0 <= i < n => Endpoint(hosts[i], ports[i]))
  }

  // ----- the two generators -----

  /** Node i of a ring with the given hosts, ports and endpoints. */
  function RingNode(hosts: seq<string>, ports: seq<int>, endpoints: seq<string>, i: nat): NodeRecord
    requires i < |hosts| == |ports| == |endpoints|
  {
    var n := |hosts|;
    NodeRecord(i, hosts[i], ports[i], false, false, Some(endpoints[(i - 1) % n]), Some(endpoints[(i + 1) % n]))
  }

  /** Node i of a chain with the given hosts, ports and endpoints. */
  function ChainNode(hosts: seq<string>, ports: seq<int>, endpoints: seq<string>, i: nat): NodeRecord
    requires i < |hosts| == |ports| == |endpoints|
  {
    var n := |hosts|;
    NodeRecord(i, hosts[i], ports[i], i == 0, i == n - 1,
               if i > 0 then Some(endpoints[i-1]) else None,
               if i + 1 < n then Some(endpoints[i+1]) else None)
  }

  function RingRecord(n: nat, basePort: int, env: EnvName, host: Option<string>, i: nat): NodeRecord
    requires i < n
  {
    RingNode(BuildHosts(n, env, host), BuildPorts(n, basePort, env), BuildEndpoints(n, basePort, env, host), i)
  }

  function ChainRecord(n: nat, basePort: int, env: EnvName, host: Option<string>, i: nat): NodeRecord
    requires i < n
  {
    ChainNode(BuildHosts(n, env, host), BuildPorts(n, basePort, env), BuildEndpoints(n, basePort, env, host), i)
  }

  ghost predicate IsGeneratedRing(nodes: seq<NodeRecord>, n: nat, basePort: int, env: EnvName, host: Option<string>) {
    |nodes| == n && forall i :: 0 <= i < n ==> nodes[i] == RingRecord(n, basePort, env, host, i)
  }

  ghost predicate IsGeneratedChain(nodes: seq<NodeRecord>, n: nat, basePort: int, env: EnvName, host: Option<string>) {
    |nodes| == n && forall i :: 0 <= i < n ==> nodes[i] == ChainRecord(n, basePort, env, host, i)
  }

  lemma FirstHost()
    ensures HostForIndex(0, PROD) == "sp26-cs525-1201.cs.illinois.edu"
  {
    Text.DigitsOf1201();
    hide Text.ToString;
  }

  lemma NeighbourPositions(i: nat, n: nat)
    requires i < n
    ensures (i - 1) % n == (if i == 0 then n - 1 else i - 1) && (i + 1) % n == (if i == n - 1 then 0 else i + 1)
  {
  }

  lemma EndpointAt(n: nat, basePort: int, env: EnvName, host: Option<string>, node: NodeRecord, i: nat)
    requires i < n && node.host == BuildHosts(n, env, host)[i] && node.port == BuildPorts(n, basePort, env)[i]
    ensures EndpointOf(node) == BuildEndpoints(n, basePort, env, host)[i]
  {
  }

  lemma RecordFields(n: nat, basePort: int, env: EnvName, host: Option<string>, i: nat)
    requires i < n
    ensures BuildPorts(n, basePort, env)[i] == if env == DEV then basePort + i else basePort
    ensures host.Some? && host.value != "" ==> BuildHosts(n, env, host)[i] == host.value
    ensures host.None? || host.value == "" ==> BuildHosts(n, env, host)[i] == HostForIndex(i, env)
    ensures HostForIndex(i, env) == if env == DEV then "127.0.0.1"
                                    else "sp26-cs525-" + Text.ToString(1201 + i) + ".cs.illinois.edu"
  {
    hide Text.ToString;
  }

  lemma CommonFields(n: nat, basePort: int, env: EnvName, host: Option<string>, node: NodeRecord, i: nat)
    requires i < n && node.host == BuildHosts(n, env, host)[i] && node.port == BuildPorts(n, basePort, env)[i]
    ensures node.port == if env == DEV then basePort + i else basePort
    ensures host.Some? && host.value != "" ==> node.host == host.value
    ensures host.None? || host.value == "" ==>
              node.host == if env == DEV then "127.0.0.1"
                           else "sp26-cs525-" + Text.ToString(1201 + i) + ".cs.illinois.edu"
    ensures i == 0 && env == PROD && (host.None? || host.value == "") ==> node.host == "sp26-cs525-1201.cs.illinois.edu"
  {
    RecordFields(n, basePort, env, host, i);
    FirstHost();
    hide Text.ToString;
  }

  /** Where the neighbours of a generated ring's node i point. */
  lemma RingLinks(nodes: seq<NodeRecord>, n: nat, basePort: int, env: EnvName, host: Option<string>, i: nat)
    requires IsGeneratedRing(nodes, n, basePort, env, host) && i < n
    ensures nodes[i].predecessor == Some(EndpointOf(nodes[if i == 0 then n - 1 else i - 1]))
    ensures nodes[i].successor == Some(EndpointOf(nodes[if i == n - 1 then 0 else i + 1]))
  {
    var p, q := if i == 0 then n - 1 else i - 1, if i == n - 1 then 0 else i + 1;
    NeighbourPositions(i, n);
    assert nodes[p] == RingRecord(n, basePort, env, host, p) && nodes[q] == RingRecord(n, basePort, env, host, q);
    EndpointAt(n, basePort, env, host, nodes[p], p);
    EndpointAt(n, basePort, env, host, nodes[q], q);
  }

  /** Where the neighbours of a generated chain's node i point. */
  lemma ChainLinks(nodes: seq<NodeRecord>, n: nat, basePort: int, env: EnvName, host: Option<string>, i: nat)
    requires IsGeneratedChain(nodes, n, basePort, env, host) && i < n
    ensures nodes[i].predecessor == if i == 0 then None else Some(EndpointOf(nodes[i-1]))
    ensures nodes[i].successor == if i == n - 1 then None else Some(EndpointOf(nodes[i+1]))
  {
    hide BuildHosts, BuildPorts, BuildEndpoints, EndpointOf;
    if i > 0 {
      assert nodes[i-1] == ChainRecord(n, basePort, env, host, i - 1);
      EndpointAt(n, basePort, env, host, nodes[i-1], i - 1);
    }
    if i < n - 1 {
      assert nodes[i+1] == ChainRecord(n, basePort, env, host, i + 1);
      EndpointAt(n, basePort, env, host, nodes[i+1], i + 1);
    }
  }

  /** Node i of a generated ring, field by field. */
  lemma RingAt(nodes: seq<NodeRecord>, n: nat, basePort: int, env: EnvName, host: Option<string>, i: nat)
    requires IsGeneratedRing(nodes, n, basePort, env, host) && i < n
    ensures nodes[i].id == i && nodes[i].port == if env == DEV then basePort + i else basePort
    ensures host.Some? && host.value != "" ==> nodes[i].host == host.value
    ensures host.None? || host.value == "" ==>
              nodes[i].host == if env == DEV then "127.0.0.1"
                               else "sp26-cs525-" + Text.ToString(1201 + i) + ".cs.illinois.edu"
    ensures i == 0 && env == PROD && (host.None? || host.value == "") ==>
              nodes[i].host == "sp26-cs525-1201.cs.illinois.edu"
    ensures !nodes[i].isHead && !nodes[i].isTail
    ensures nodes[i].predecessor == Some(EndpointOf(nodes[if i == 0 then n - 1 else i - 1]))
    ensures nodes[i].successor == Some(EndpointOf(nodes[if i == n - 1 then 0 else i + 1]))
  {
    assert nodes[i] == RingRecord(n, basePort, env, host, i);
    CommonFields(n, basePort, env, host, nodes[i], i);
    RingLinks(nodes, n, basePort, env, host, i);
  }

  /** Node i of a generated chain, field by field. */
  lemma ChainAt(nodes: seq<NodeRecord>, n: nat, basePort: int, env: EnvName, host: Option<string>, i: nat)
    requires IsGeneratedChain(nodes, n, basePort, env, host) && i < n
    ensures nodes[i].id == i && nodes[i].port == if env == DEV then basePort + i else basePort
    ensures host.Some? && host.value != "" ==> nodes[i].host == host.value
    ensures host.None? || host.value == "" ==>
              nodes[i].host == if env == DEV then "127.0.0.1"
                               else "sp26-cs525-" + Text.ToString(1201 + i) + ".cs.illinois.edu"
    ensures i == 0 && env == PROD && (host.None? || host.value == "") ==>
              nodes[i].host == "sp26-cs525-1201.cs.illinois.edu"
    ensures nodes[i].isHead == (i == 0) && nodes[i].isTail == (i == n - 1)
    ensures nodes[i].predecessor == if i == 0 then None else Some(EndpointOf(nodes[i-1]))
    ensures nodes[i].successor == if i == n - 1 then None else Some(EndpointOf(nodes[i+1]))
  {
    assert nodes[i] == ChainRecord(n, basePort, env, host, i);
    CommonFields(n, basePort, env, host, nodes[i], i);
    ChainLinks(nodes, n, basePort, env, host, i);
  }

  /** The record appended in the ring loop. */
  method MakeRingNode(hosts: seq<string>, ports: seq<int>, endpoints: seq<string>, i: nat) returns (node: NodeRecord)
    requires i < |hosts| == |ports| == |endpoints|
    ensures node == RingNode(hosts, ports, endpoints, i)
  {
    var n := |hosts|;
    var predecessorIndex, successorIndex := (i - 1) % n, (i + 1) % n;
    node := NodeRecord(i, hosts[i], ports[i], false, false,
                       Some(endpoints[predecessorIndex]), Some(endpoints[successorIndex]));
  }

  method BuildCrownConfig(n: nat, basePort: int, env: EnvName, host: Option<string>) returns (nodes: seq<NodeRecord>)
    ensures IsGeneratedRing(nodes, n, basePort, env, host)
    ensures |nodes| == n && forall i :: 0 <= i < n ==> nodes[i].id == i
    ensures forall i :: 0 <= i < n ==> nodes[i].port == if env == DEV then basePort + i else basePort
    ensures forall i :: 0 <= i < n && host.Some? && host.value != "" ==> nodes[i].host == host.value
    ensures forall i :: 0 <= i < n && (host.None? || host.value == "") ==>
              nodes[i].host == if env == DEV then "127.0.0.1"
                               else "sp26-cs525-" + Text.ToString(1201 + i) + ".cs.illinois.edu"
    ensures n > 0 && env == PROD && (host.None? || host.value == "") ==>
              nodes[0].host == "sp26-cs525-1201.cs.illinois.edu"
    ensures forall i :: 0 <= i < n ==> !nodes[i].isHead && !nodes[i].isTail
    ensures forall i :: 0 <= i < n ==> nodes[i].predecessor == Some(EndpointOf(nodes[if i == 0 then n - 1 else i - 1]))
    ensures forall i :: 0 <= i < n ==> nodes[i].successor == Some(EndpointOf(nodes[if i == n - 1 then 0 else i + 1]))
  {
    var hosts, ports := BuildHosts(n, env, host), BuildPorts(n, basePort, env);
    var endpoints := BuildEndpoints(n, basePort, env, host);
    hide RingNode, BuildEndpoints, BuildHosts, BuildPorts;
    nodes := [];
    for i := 0 to n
      invariant |nodes| == i && forall k :: 0 <= k < i ==> nodes[k] == RingNode(hosts, ports, endpoints, k)
    {
      var node := MakeRingNode(hosts, ports, endpoints, i);
      nodes := nodes + [node];
    }
    forall i | 0 <= i < n
      ensures !nodes[i].isHead && !nodes[i].isTail
      ensures nodes[i].predecessor == Some(EndpointOf(nodes[if i == 0 then n - 1 else i - 1]))
      ensures nodes[i].successor == Some(EndpointOf(nodes[if i == n - 1 then 0 else i + 1]))
      ensures nodes[i].id == i && nodes[i].port == if env == DEV then basePort + i else basePort
      ensures host.Some? && host.value != "" ==> nodes[i].host == host.value
      ensures host.None? || host.value == "" ==>
                nodes[i].host == if env == DEV then "127.0.0.1"
                                 else "sp26-cs525-" + Text.ToString(1201 + i) + ".cs.illinois.edu"
    { RingAt(nodes, n, basePort, env, host, i); }
    if n > 0 { RingAt(nodes, n, basePort, env, host, 0); }
  }

  /** The record appended in the chain loop. */
  method MakeChainNode(hosts: seq<string>, ports: seq<int>, endpoints: seq<string>, i: nat) returns (node: NodeRecord)
    requires i < |hosts| == |ports| == |endpoints|
    ensures node == ChainNode(hosts, ports, endpoints, i)
  {
    var n := |hosts|;
    var predecessor := if i > 0 then Some(endpoints[i-1]) else None;
    var successor := if i + 1 < n then Some(endpoints[i+1]) else None;
    node := NodeRecord(i, hosts[i], ports[i], i == 0, i == n - 1, predecessor, successor);
  }

  method BuildLinearConfig(n: nat, basePort: int, env: EnvName, host: Option<string>) returns (nodes: seq<NodeRecord>)
    ensures IsGeneratedChain(nodes, n, basePort, env, host)
    ensures |nodes| == n && forall i :: 0 <= i < n ==> nodes[i].id == i
    ensures forall i :: 0 <= i < n ==> nodes[i].port == if env == DEV then basePort + i else basePort
    ensures forall i :: 0 <= i < n && host.Some? && host.value != "" ==> nodes[i].host == host.value
    ensures forall i :: 0 <= i < n && (host.None? || host.value == "") ==>
              nodes[i].host == if env == DEV then "127.0.0.1"
                               else "sp26-cs525-" + Text.ToString(1201 + i) + ".cs.illinois.edu"
    ensures n > 0 && env == PROD && (host.None? || host.value == "") ==>
              nodes[0].host == "sp26-cs525-1201.cs.illinois.edu"
    ensures forall i :: 0 <= i < n ==> nodes[i].isHead == (i == 0) && nodes[i].isTail == (i == n - 1)
    ensures forall i :: 0 <= i < n ==> nodes[i].predecessor == if i == 0 then None else Some(EndpointOf(nodes[i-1]))
    ensures forall i :: 0 <= i < n - 1 ==> nodes[i].successor == Some(EndpointOf(nodes[i+1]))
    ensures n > 0 ==> nodes[n-1].successor == None
  {
    var hosts, ports := BuildHosts(n, env, host), BuildPorts(n, basePort, env);
    var endpoints := BuildEndpoints(n, basePort, env, host);
    hide ChainNode, BuildEndpoints, BuildHosts, BuildPorts;
    nodes := [];
    for i := 0 to n
      invariant |nodes| == i && forall k :: 0 <= k < i ==> nodes[k] == ChainNode(hosts, ports, endpoints, k)
    {
      var node := MakeChainNode(hosts, ports, endpoints, i);
      nodes := nodes + [node];
    }
    forall i | 0 <= i < n
      ensures nodes[i].isHead == (i == 0) && nodes[i].isTail == (i == n - 1)
      ensures nodes[i].predecessor == if i == 0 then None else Some(EndpointOf(nodes[i-1]))
      ensures nodes[i].id == i && nodes[i].port == if env == DEV then basePort + i else basePort
      ensures host.Some? && host.value != "" ==> nodes[i].host == host.value
      ensures host.None? || host.value == "" ==>
                nodes[i].host == if env == DEV then "127.0.0.1"
                                 else "sp26-cs525-" + Text.ToString(1201 + i) + ".cs.illinois.edu"
    { ChainAt(nodes, n, basePort, env, host, i); }
    forall i | 0 <= i < n - 1 ensures nodes[i].successor == Some(EndpointOf(nodes[i+1])) {
      ChainAt(nodes, n, basePort, env, host, i);
    }
    if n > 0 {
      ChainAt(nodes, n, basePort, env, host, 0);
      ChainAt(nodes, n, basePort, env, host, n - 1);
    }
  }

  // ----- endpoints differ unless one host and one port are shared -----

  lemma CancelLeft(a: string, b: string, c: string)
    requires a + b == a + c
    ensures b == c
  {
    assert b == (a + b)[|a|..] && c == (a + c)[|a|..];
  }

  lemma CancelRight(a: string, b: string, c: string)
    requires a + c == b + c
    ensures a == b
  {
    assert |a| == |b|;
    assert a == (a + c)[..|a|] && b == (b + c)[..|b|];
  }

  lemma PortsTellApart(host: string, p: nat, q: nat)
    requires Endpoint(host, p) == Endpoint(host, q)
    ensures p == q
  {
    CancelLeft(host + ":", Text.Digits(p), Text.Digits(q));
    Text.DigitsInjective(p, q);
  }

  lemma HostNamesDiffer(i: nat, j: nat)
    requires HostForIndex(i, PROD) == HostForIndex(j, PROD)
    ensures i == j
  {
    var a, b := Text.Digits(PROD_HOST_START + i), Text.Digits(PROD_HOST_START + j);
    CancelRight(PROD_HOST_PREFIX + a, PROD_HOST_PREFIX + b, PROD_HOST_SUFFIX);
    CancelLeft(PROD_HOST_PREFIX, a, b);
    Text.DigitsInjective(PROD_HOST_START + i, PROD_HOST_START + j);
  }

  lemma SamePortSameHost(a: string, b: string, port: int)
    requires Endpoint(a, port) == Endpoint(b, port)
    ensures a == b
  {
    hide Text.ToString;
    var rest := ":" + Text.ToString(port);
    assert Endpoint(a, port) == a + rest && Endpoint(b, port) == b + rest;
    CancelRight(a, b, rest);
  }

  lemma HostsTellApart(i: nat, j: nat, port: int)
    requires Endpoint(HostForIndex(i, PROD), port) == Endpoint(HostForIndex(j, PROD), port)
    ensures i == j
  {
    SamePortSameHost(HostForIndex(i, PROD), HostForIndex(j, PROD), port);
    HostNamesDiffer(i, j);
  }

  lemma EndpointsUniqueIff(n: nat, basePort: nat, env: EnvName, host: Option<string>)
    ensures Unique(BuildEndpoints(n, basePort, env, host)) <==> n <= 1 || env == DEV || !Overridden(host)
  {
    var endpoints := BuildEndpoints(n, basePort, env, host);
    var hosts, ports := BuildHosts(n, env, host), BuildPorts(n, basePort, env);
    if n > 1 && env == PROD && Overridden(host) {
      assert endpoints[0] == endpoints[1];
    } else {
      forall i, j | 0 <= i < j < n ensures endpoints[i] != endpoints[j] {
        assert endpoints[i] == Endpoint(hosts[i], ports[i]) && endpoints[j] == Endpoint(hosts[j], ports[j]);
        if endpoints[i] == endpoints[j] {
          if env == DEV {
            PortsTellApart(hosts[i], basePort + i, basePort + j);
          } else {
            HostsTellApart(i, j, basePort);
          }
          assert false;
        }
      }
    }
  }
}
