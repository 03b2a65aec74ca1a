/** The route builder of hostgw/hostgw.go: from a node snapshot to the route
    that sends the node's pod subnet through the node's internal address. */
module Route {
  import opened Wrappers

  /** The kinds of node address a cluster node reports, in its status. */
  datatype AddressType = HostName | ExternalIP | InternalIP | ExternalDNS | InternalDNS

  datatype NodeAddress = NodeAddress(kind: AddressType, address: string)

  /** The parts of a cluster node the core reads: its name, its pod subnet
      (empty when not yet assigned) and its addresses in the order reported. */
  datatype Node = Node(name: string, podCIDR: string, addresses: seq<NodeAddress>)

  /** Kernel route scope: `Universe` for a destination one or more hops away,
      `Link` for one on the directly attached network. */
  datatype Scope = Universe | Link

  /** A kernel route: destination subnet, gateway and scope. `S` and `G` are
      the parsed forms of a subnet and of an IP address. */
  datatype Route<S, G> = Route(dst: S, gw: G, scope: Scope)

  /** The two sentinel errors of the builder. */
  datatype BuildError = NoPodCIDR | NoPodAddress

  /** The foreign parsers and printer the builder relies on: a subnet parser,
      an IP parser and the textual form of a parsed subnet. They are left
      uninterpreted: the model holds for every choice of them. */
  datatype Net<!S, G> = Net(parseCidr: string -> S, parseIp: string -> G, cidrText: S -> string)

  /** `k` is the index of the first address of kind `InternalIP`. */
  predicate IsFirstInternal(addrs: seq<NodeAddress>, k: int)
  {
    0 <= k < |addrs| && addrs[k].kind == InternalIP &&
    forall j | 0 <= j < k :: addrs[j].kind != InternalIP
  }

  /** The address the builder takes as gateway: that of the first internal
      entry in list order, or the empty text when there is none. */
  function FirstInternal(addrs: seq<NodeAddress>): (address: string)
    ensures (forall i | 0 <= i < |addrs| :: addrs[i].kind != InternalIP) ==> address == ""
    ensures forall k | IsFirstInternal(addrs, k) :: address == addrs[k].address
    ensures (exists i | 0 <= i < |addrs| :: addrs[i].kind == InternalIP) ==>
              exists k :: IsFirstInternal(addrs, k) && address == addrs[k].address
  {
    if addrs == [] then ""
    else if addrs[0].kind == InternalIP then
      assert IsFirstInternal(addrs, 0);
      addrs[0].address
    else
      var rest := FirstInternal(addrs[1..]);
      assert forall k | IsFirstInternal(addrs, k) :: IsFirstInternal(addrs[1..], k - 1);
      assert forall k | IsFirstInternal(addrs[1..], k) :: IsFirstInternal(addrs, k + 1);
      assert (exists i | 0 <= i < |addrs| :: addrs[i].kind == InternalIP) ==>
               exists i | 0 <= i < |addrs[1..]| :: addrs[1..][i].kind == InternalIP;
      rest
  }

  /** The search loop of the builder: scan the addresses in order and stop at
      the first internal one. */
  method FindInternalAddress(addrs: seq<NodeAddress>) returns (address: string)
    ensures address == FirstInternal(addrs)
  {
    address := "";
    var i := 0;
    while i < |addrs|
      invariant 0 <= i <= |addrs|
      invariant forall j | 0 <= j < i :: addrs[j].kind != InternalIP
      invariant address == ""
    {
      if addrs[i].kind == InternalIP {
        assert IsFirstInternal(addrs, i);
        address := addrs[i].address;
        break;
      }
      i := i + 1;
    }
  }

  /** What the builder returns for `node`. */
  function BuildRoute<S, G>(node: Node, net: Net<S, G>): Result<Route<S, G>, BuildError>
  {
    if node.podCIDR == "" then Failure(NoPodCIDR)
    else
      var address := FirstInternal(node.addresses);
      if address == "" then Failure(NoPodAddress)
      else Success(Route(net.parseCidr(node.podCIDR), net.parseIp(address), Universe))
  }

  /** The builder: the pod subnet is checked first, then the address search
      runs, then the two texts are parsed into a universe-scope route. */
  method GenerateRoute<S, G>(node: Node, net: Net<S, G>) returns (r: Result<Route<S, G>, BuildError>)
    ensures r == BuildRoute(node, net)
    ensures r.Success? ==> r.value.scope == Universe && r.value.dst == net.parseCidr(node.podCIDR)
  {
    if node.podCIDR == "" {
      return Failure(NoPodCIDR);
    }
    var address := FindInternalAddress(node.addresses);
    if address == "" {
      return Failure(NoPodAddress);
    }
    return Success(Route(net.parseCidr(node.podCIDR), net.parseIp(address), Universe));
  }

  /** An empty pod subnet fails with `NoPodCIDR` whatever the addresses are. */
  lemma NoPodCIDRFirst<S, G>(node: Node, net: Net<S, G>)
    requires node.podCIDR == ""
    ensures BuildRoute(node, net) == Failure(NoPodCIDR)
    ensures forall addrs :: BuildRoute(node.(addresses := addrs), net) == Failure(NoPodCIDR)
  {
  }

  /** The builder's outcomes, all of them: with a pod subnet it succeeds
      exactly when the first internal entry exists and is non-empty, the route
      then being that subnet via that address in universe scope; otherwise it
      fails with `NoPodAddress`, even when a later internal entry is non-empty. */
  lemma {:induction false} BuildRouteCases<S, G>(node: Node, net: Net<S, G>)
    ensures BuildRoute(node, net).Failure? ==>
              BuildRoute(node, net).error == NoPodCIDR || BuildRoute(node, net).error == NoPodAddress
    ensures node.podCIDR != "" ==>
              (BuildRoute(node, net).Success? <==>
                 exists k :: IsFirstInternal(node.addresses, k) && node.addresses[k].address != "")
    ensures forall k | node.podCIDR != "" && IsFirstInternal(node.addresses, k) ::
              BuildRoute(node, net) ==
                if node.addresses[k].address == "" then Failure(NoPodAddress)
                else Success(Route(net.parseCidr(node.podCIDR), net.parseIp(node.addresses[k].address), Universe))
    ensures node.podCIDR != "" && (forall i | 0 <= i < |node.addresses| :: node.addresses[i].kind != InternalIP) ==>
              BuildRoute(node, net) == Failure(NoPodAddress)
  {
    var addrs := node.addresses;
    var a := FirstInternal(addrs);
    if exists i | 0 <= i < |addrs| :: addrs[i].kind == InternalIP {
      var k :| IsFirstInternal(addrs, k) && a == addrs[k].address;
    }
  }

  /** Two routes the builder produced are equal exactly when their
      destinations and gateways are: the scope is universe in both. */
  lemma BuiltRoutesEqual<S, G>(n1: Node, n2: Node, net: Net<S, G>)
    requires BuildRoute(n1, net).Success? && BuildRoute(n2, net).Success?
    ensures var r1, r2 := BuildRoute(n1, net).value, BuildRoute(n2, net).value;
            r1 == r2 <==> r1.dst == r2.dst && r1.gw == r2.gw
  {
  }

  /** The node of the package's own test: a host-name entry precedes the
      internal address. */
  const FixtureNode: Node :=
    Node("test-node-0", "172.28.1.0/24",
         [NodeAddress(HostName, "test-node-0"), NodeAddress(InternalIP, "192.168.1.10")])

  lemma FixtureRoute<S, G>(net: Net<S, G>)
    ensures BuildRoute(FixtureNode, net) ==
            Success(Route(net.parseCidr("172.28.1.0/24"), net.parseIp("192.168.1.10"), Universe))
  {
    assert IsFirstInternal(FixtureNode.addresses, 1);
  }
}
