/** The node event handler of hostgw/hostgw.go: node lifecycle events become
    an ordered trace of external effects (configuration patch, route add,
    route delete) on the local host. */
module HostGw {
  import opened Wrappers
  import opened Route
  import opened CniConf
  import opened Lex

  /** One call into the outside world, with the outcome it reported. */
  datatype Effect<S, G> =
    | Patch(cmd: SedCommand, ok: bool)     // `sed -i`, run on the chosen file
    | Add(route: Route<S, G>, ok: bool)    // `netlink.RouteAdd`
    | Del(route: Route<S, G>, ok: bool)    // `netlink.RouteDel`

  /** What the outside world answers during one event: the local host name,
      the listing of the configuration directory, and whether `sed`, a route
      add and a route delete succeed. */
  datatype World = World(hostname: string, listing: Listing, sedOk: bool, addOk: bool, delOk: bool)

  /** The kernel route table after one effect. A successful add installs the
      route; a successful delete removes every route to the same destination
      via the same gateway, whatever its scope; failures and patches leave it. */
  function Step<S(==), G(==)>(routes: set<Route<S, G>>, e: Effect<S, G>): set<Route<S, G>>
  {
    match e
    case Patch(_, _) => routes
    case Add(r, ok) => if ok then routes + {r} else routes
    case Del(r, ok) => if ok then set x | x in routes && !(x.dst == r.dst && x.gw == r.gw) else routes
  }

  /** The route table after a trace of effects, in order. */
  function Apply<S(==), G(==)>(routes: set<Route<S, G>>, trace: seq<Effect<S, G>>): set<Route<S, G>>
    decreases |trace|
  {
    if trace == [] then routes
    else Step(Apply(routes, trace[..|trace| - 1]), trace[|trace| - 1])
  }

  /** Replaying two traces one after the other is replaying their
      concatenation. */
  lemma {:induction false} ApplyAppend<S, G>(routes: set<Route<S, G>>, a: seq<Effect<S, G>>, b: seq<Effect<S, G>>)
    ensures Apply(routes, a + b) == Apply(Apply(routes, a), b)
    decreases |b|
  {
    if b == [] {
      assert a + b == a;
    } else {
      ApplyAppend(routes, a, b[..|b| - 1]);
      assert (a + b)[..|a + b| - 1] == a + b[..|b| - 1];
    }
  }

  /** The local host as the handler sees it: the kernel route table and the
      trace of every effect issued so far. */
  class Host<S(==), G(==)> {
    var routes: set<Route<S, G>>
    var trace: seq<Effect<S, G>>
    ghost const initial: set<Route<S, G>>

    /** The route table is the replay of the trace over the initial table. */
    ghost predicate Valid()
      reads this
    {
      routes == Apply(initial, trace)
    }

    constructor (routes0: set<Route<S, G>>)
      ensures Valid() && routes == routes0 && trace == []
    {
      routes := routes0;
      trace := [];
      initial := routes0;
    }

    /** Issues one effect. */
    method Perform(e: Effect<S, G>)
      requires Valid()
      modifies this
      ensures Valid()
      ensures trace == old(trace) + [e]
      ensures routes == Step(old(routes), e)
    {
      assert (trace + [e])[..|trace + [e]| - 1] == trace;
      trace := trace + [e];
      routes := Step(routes, e);
    }
  }

  /** What `generateCNIConfig` does to the world: at most one `sed` run. */
  function PatchEffects<S, G>(listing: Listing, subnetText: string, sedOk: bool): seq<Effect<S, G>>
  {
    match PatchPlan(listing, subnetText)
    case Failure(_) => []
    case Success(cmd) => [Patch(cmd, sedOk)]
  }

  /** The error `generateCNIConfig` returns, `None` for success. */
  function PatchError(listing: Listing, subnetText: string, sedOk: bool): Option<ConfError>
  {
    match PatchPlan(listing, subnetText)
    case Failure(e) => Some(e)
    case Success(_) => if sedOk then None else Some(SedFailed)
  }

  /** The effects of a node-added event. */
  function AddEffects<S(==), G(==)>(node: Node, w: World, net: Net<S, G>): seq<Effect<S, G>>
  {
    match BuildRoute(node, net)
    case Failure(_) => []
    case Success(r) =>
      if node.name == w.hostname then
        var text := net.cidrText(r.dst);
        PatchEffects(w.listing, text, w.sedOk) +
        (if PatchError(w.listing, text, w.sedOk).None? then [Add(r.(scope := Link), w.addOk)] else [])
      else
        [Add(r, w.addOk)]
  }

  /** The effects of a node-removed event. */
  function DeleteEffects<S(==), G(==)>(node: Node, w: World, net: Net<S, G>): seq<Effect<S, G>>
  {
    match BuildRoute(node, net)
    case Failure(_) => []
    case Success(r) => if node.name == w.hostname then [] else [Del(r, w.delOk)]
  }

  /** The effects of a node-changed event. */
  function UpdateEffects<S(==), G(==)>(oldNode: Node, newNode: Node, w: World, net: Net<S, G>): seq<Effect<S, G>>
  {
    match BuildRoute(oldNode, net)
    case Failure(_) => []
    case Success(oldR) =>
      match BuildRoute(newNode, net)
      case Failure(_) => []
      case Success(newR) =>
        if oldR == newR then [] else DeleteEffects(oldNode, w, net) + AddEffects(newNode, w, net)
  }

  /** Patches the local CNI configuration with the subnet of `r`: lists the
      directory, picks a file, runs `sed` on it. */
  method GenerateCniConfig<S(==), G(==)>(r: Route<S, G>, net: Net<S, G>, w: World, host: Host<S, G>)
    returns (err: Option<ConfError>)
    requires host.Valid()
    modifies host
    ensures host.Valid()
    ensures host.trace == old(host.trace) + PatchEffects(w.listing, net.cidrText(r.dst), w.sedOk)
    ensures host.routes == old(host.routes)
    ensures err == PatchError(w.listing, net.cidrText(r.dst), w.sedOk)
  {
    var chosen := SelectConfFile(w.listing);
    if chosen.Failure? {
      return Some(chosen.error);
    }
    var filename := chosen.value;
    MinimumUnique(w.listing.files, filename, MinOf(w.listing.files));
    var expr := SedExpr(net.cidrText(r.dst));
    host.Perform(Patch(SedCommand(filename, expr), w.sedOk));
    if !w.sedOk {
      return Some(SedFailed);
    }
    return None;
  }

  /** The event handler. Its fields are set once and never changed; the
      bin directory is never read. */
  class Handler<S(==), G(==)> {
    const cniBinDir: string
    const cniConfDir: string
    const net: Net<S, G>

    constructor (cniBinDir: string, cniConfDir: string, net: Net<S, G>)
      ensures this.cniBinDir == cniBinDir && this.cniConfDir == cniConfDir && this.net == net
    {
      this.cniBinDir := cniBinDir;
      this.cniConfDir := cniConfDir;
      this.net := net;
    }

    /** Node added: build the route; for the local host patch the
        configuration first and give up if that fails, else use link scope;
        then install the route. An install failure is only observed. */
    method OnAdd(node: Node, w: World, host: Host<S, G>)
      requires host.Valid()
      modifies host
      ensures host.Valid()
      ensures host.trace == old(host.trace) + AddEffects(node, w, net)
      ensures host.routes == Apply(old(host.routes), AddEffects(node, w, net))
    {
      ghost var before := host.trace;
      var built := GenerateRoute(node, net);
      if built.Failure? {
        assert host.trace == before + [];
        return;
      }
      var r := built.value;
      if node.name == w.hostname {
        var err := GenerateCniConfig(r, net, w, host);
        if err.Some? {
          assert host.trace == before + AddEffects(node, w, net);
          ApplyAppend(host.initial, before, AddEffects(node, w, net));
          return;
        }
        r := r.(scope := Link);
      }
      host.Perform(Add(r, w.addOk));
      assert host.trace == before + AddEffects(node, w, net);
      ApplyAppend(host.initial, before, AddEffects(node, w, net));
    }

    /** Node removed: build the route; nothing for the local host; otherwise
        delete it. A delete failure is only observed. */
    method OnDelete(node: Node, w: World, host: Host<S, G>)
      requires host.Valid()
      modifies host
      ensures host.Valid()
      ensures host.trace == old(host.trace) + DeleteEffects(node, w, net)
      ensures host.routes == Apply(old(host.routes), DeleteEffects(node, w, net))
    {
      ghost var before := host.trace;
      var built := GenerateRoute(node, net);
      if built.Failure? || node.name == w.hostname {
        assert host.trace == before + [];
        return;
      }
      host.Perform(Del(built.value, w.delOk));
      ApplyAppend(host.initial, before, DeleteEffects(node, w, net));
    }

    /** Node changed: nothing unless both routes build and differ; then the
        removal of the old node followed by the addition of the new one. */
    method OnUpdate(oldNode: Node, newNode: Node, w: World, host: Host<S, G>)
      requires host.Valid()
      modifies host
      ensures host.Valid()
      ensures host.trace == old(host.trace) + UpdateEffects(oldNode, newNode, w, net)
      ensures host.routes == Apply(old(host.routes), UpdateEffects(oldNode, newNode, w, net))
    {
      ghost var before := host.trace;
      var oldR := GenerateRoute(oldNode, net);
      if oldR.Failure? {
        assert host.trace == before + [];
        return;
      }
      var newR := GenerateRoute(newNode, net);
      if newR.Failure? {
        assert host.trace == before + [];
        return;
      }
      if oldR.value == newR.value {
        assert host.trace == before + [];
        return;
      }
      ghost var d, a := DeleteEffects(oldNode, w, net), AddEffects(newNode, w, net);
      assert UpdateEffects(oldNode, newNode, w, net) == d + a;
      OnDelete(oldNode, w, host);
      OnAdd(newNode, w, host);
      assert host.trace == before + (d + a);
      ApplyAppend(host.initial, before, d + a);
    }
  }

  // Properties of the three entry points.

  /** A node whose route cannot be built causes no effect on any event. */
  lemma UnbuildableNodeIsIgnored<S, G>(node: Node, other: Node, w: World, net: Net<S, G>)
    requires BuildRoute(node, net).Failure?
    ensures AddEffects(node, w, net) == []
    ensures DeleteEffects(node, w, net) == []
    ensures UpdateEffects(node, other, w, net) == [] && UpdateEffects(other, node, w, net) == []
  {
  }

  /** Node added for the local host: one patch at most, and first; a route is
      added only after a successful patch, and with link scope; nothing is
      deleted. The patch happens exactly when the route builds and a
      configuration file exists, and it targets the smallest file name. */
  lemma AddSelf<S, G>(node: Node, w: World, net: Net<S, G>)
    requires node.name == w.hostname
    ensures var e := AddEffects(node, w, net);
      (forall i | 0 <= i < |e| :: e[i].Patch? <==> i == 0) &&
      (forall i | 0 <= i < |e| :: !e[i].Del?) &&
      (forall i | 0 <= i < |e| && e[i].Add? ::
         e[0].Patch? && e[0].ok && e[i].route.scope == Link)
    ensures var e := AddEffects(node, w, net);
      BuildRoute(node, net).Success? ==>
        var r := BuildRoute(node, net).value;
        (|e| > 0 <==> w.listing.Listed? && w.listing.files != []) &&
        (|e| > 0 ==> e[0].cmd.file == MinOf(w.listing.files) &&
                     e[0].cmd.expr == SedExpr(net.cidrText(r.dst)) &&
                     e[0].ok == w.sedOk) &&
        (|e| > 0 && w.sedOk ==> e == [e[0], Add(Route(r.dst, r.gw, Link), w.addOk)])
  {
  }

  /** A failed patch for the local host leaves the route table as it was. */
  lemma AddSelfFailedPatchKeepsTable<S, G>(node: Node, w: World, net: Net<S, G>, routes: set<Route<S, G>>)
    requires node.name == w.hostname && !w.sedOk
    ensures forall i | 0 <= i < |AddEffects(node, w, net)| :: !AddEffects(node, w, net)[i].Add?
    ensures Apply(routes, AddEffects(node, w, net)) == routes
  {
    var e := AddEffects(node, w, net);
    if BuildRoute(node, net).Success? {
      var text := net.cidrText(BuildRoute(node, net).value.dst);
      assert PatchError(w.listing, text, w.sedOk).Some?;
      assert e == PatchEffects(w.listing, text, w.sedOk);
      match PatchPlan(w.listing, text)
      case Failure(_) =>
        assert e == [];
      case Success(cmd) =>
        assert e == [] + [Patch(cmd, false)];
    } else {
      assert e == [];
    }
  }

  /** Node added for a peer: no patch, exactly one add of the built route in
      universe scope, whatever the add reports. */
  lemma AddPeer<S, G>(node: Node, w: World, net: Net<S, G>)
    requires node.name != w.hostname
    ensures BuildRoute(node, net).Success? ==>
      AddEffects(node, w, net) == [Add(BuildRoute(node, net).value, w.addOk)] &&
      BuildRoute(node, net).value.scope == Universe
  {
  }

  /** A successful add for a peer installs its route and nothing else. */
  lemma AddPeerInstalls<S, G>(node: Node, w: World, net: Net<S, G>, routes: set<Route<S, G>>)
    requires node.name != w.hostname && w.addOk && BuildRoute(node, net).Success?
    ensures Apply(routes, AddEffects(node, w, net)) == routes + {BuildRoute(node, net).value}
  {
    assert AddEffects(node, w, net) == [] + [Add(BuildRoute(node, net).value, true)];
  }

  /** Node removed: nothing for the local host; for a peer exactly one
      delete of its universe-scope route, whatever the delete reports. */
  lemma DeleteCases<S, G>(node: Node, w: World, net: Net<S, G>)
    ensures node.name == w.hostname ==> DeleteEffects(node, w, net) == []
    ensures node.name != w.hostname && BuildRoute(node, net).Success? ==>
      DeleteEffects(node, w, net) == [Del(BuildRoute(node, net).value, w.delOk)] &&
      BuildRoute(node, net).value.scope == Universe
  {
  }

  /** Adding a peer and then removing it, both successfully, leaves no route
      to its subnet via its address. */
  lemma AddThenDeletePeer<S, G>(node: Node, w: World, net: Net<S, G>, routes: set<Route<S, G>>)
    requires node.name != w.hostname && w.addOk && w.delOk && BuildRoute(node, net).Success?
    ensures var r := BuildRoute(node, net).value;
      forall x | x in Apply(routes, AddEffects(node, w, net) + DeleteEffects(node, w, net)) ::
        !(x.dst == r.dst && x.gw == r.gw)
  {
    var r := BuildRoute(node, net).value;
    var e := [Add(r, true), Del(r, true)];
    assert AddEffects(node, w, net) + DeleteEffects(node, w, net) == e;
    assert e[..1] == [Add(r, true)] && [Add(r, true)][..0] == [];
  }

  /** Node changed: no effect when either route cannot be built or when the
      two routes have the same destination and gateway. */
  lemma UpdateNoOp<S, G>(oldNode: Node, newNode: Node, w: World, net: Net<S, G>)
    requires BuildRoute(oldNode, net).Failure? || BuildRoute(newNode, net).Failure? ||
             (BuildRoute(oldNode, net).value.dst == BuildRoute(newNode, net).value.dst &&
              BuildRoute(oldNode, net).value.gw == BuildRoute(newNode, net).value.gw)
    ensures UpdateEffects(oldNode, newNode, w, net) == []
  {
  }

  /** Node changed, otherwise: the effects of removing the old node followed
      by those of adding the new one. */
  lemma UpdateIsDeleteThenAdd<S, G>(oldNode: Node, newNode: Node, w: World, net: Net<S, G>)
    requires BuildRoute(oldNode, net).Success? && BuildRoute(newNode, net).Success?
    requires BuildRoute(oldNode, net).value.dst != BuildRoute(newNode, net).value.dst ||
             BuildRoute(oldNode, net).value.gw != BuildRoute(newNode, net).value.gw
    ensures UpdateEffects(oldNode, newNode, w, net) ==
            DeleteEffects(oldNode, w, net) + AddEffects(newNode, w, net)
  {
  }

  /** Node changed for the local host: no delete, then exactly the effects of
      adding it (a patch and a link-scope add when the patch succeeds). */
  lemma UpdateSelf<S, G>(oldNode: Node, newNode: Node, w: World, net: Net<S, G>)
    requires oldNode.name == newNode.name == w.hostname
    requires BuildRoute(oldNode, net).Success? && BuildRoute(newNode, net).Success?
    requires BuildRoute(oldNode, net).value != BuildRoute(newNode, net).value
    ensures UpdateEffects(oldNode, newNode, w, net) == AddEffects(newNode, w, net)
    ensures forall i | 0 <= i < |UpdateEffects(oldNode, newNode, w, net)| ::
              !UpdateEffects(oldNode, newNode, w, net)[i].Del?
  {
    AddSelf(newNode, w, net);
  }

  /** Node changed for a peer, both kernel calls succeeding: afterwards the
      new route is installed and no route to the old subnet via the old
      gateway remains. */
  lemma UpdatePeerReplacesRoute<S, G>(oldNode: Node, newNode: Node, w: World, net: Net<S, G>,
                                                routes: set<Route<S, G>>)
    requires oldNode.name != w.hostname && newNode.name != w.hostname && w.delOk && w.addOk
    requires BuildRoute(oldNode, net).Success? && BuildRoute(newNode, net).Success?
    requires BuildRoute(oldNode, net).value != BuildRoute(newNode, net).value
    ensures var oldR, newR := BuildRoute(oldNode, net).value, BuildRoute(newNode, net).value;
      var after := Apply(routes, UpdateEffects(oldNode, newNode, w, net));
      after == (set x | x in routes && !(x.dst == oldR.dst && x.gw == oldR.gw)) + {newR} &&
      newR in after &&
      (forall x | x in after :: !(x.dst == oldR.dst && x.gw == oldR.gw))
  {
    var oldR, newR := BuildRoute(oldNode, net).value, BuildRoute(newNode, net).value;
    var e := [Del(oldR, true), Add(newR, true)];
    assert UpdateEffects(oldNode, newNode, w, net) == e;
    assert e[..1] == [Del(oldR, true)] && [Del(oldR, true)][..0] == [];
    var mid := set x | x in routes && !(x.dst == oldR.dst && x.gw == oldR.gw);
    assert Apply(routes, e[..1]) == mid;
    assert Apply(routes, e) == mid + {newR};
  }
}
