# hostgw route reconciler, modelled in Dafny

The `hostgw` package of simplest-cni keeps a host's kernel routing table in step with the pod subnets of the cluster's nodes. Each pod subnet is routed through the node's internal address. This project models the package's logic and proves properties of it:

- **Route builder** (`generateRoute`): turns a node snapshot into a route or one of two errors (`Route` module).
- **I/O-free front end of `generateCNIConfig`** (`CniConf` module):
  - picks the configuration file to patch;
  - builds the `sed` substitution that writes the local subnet into it.
- **Event handler** (`Handler.OnAdd`, `OnDelete`, `OnUpdate`; `HostGw` module): turns node events into an ordered trace of external effects.

Layout:

- `wrappers.dfy`: `Option` / `Result`.
- `lex.dfy`: the string order `sort.Strings` uses. Go compares strings bytewise over UTF-8, and that agrees with code-point order. Also the minimum of a list of names, and the fact that a sorted permutation starts with it.
- `route.dfy`: nodes, addresses, routes and the builder.
  - The builder's address search is a loop in Go. Here it is a method (`FindInternalAddress`) proved against the function `FirstInternal`.
  - `net.ParseCIDR`, `net.ParseIP` and `IPNet.String` are left uninterpreted. Everything is generic over the parsed subnet type `S` and address type `G`. A `Net<S, G>` value carries the three functions, so every result holds for any parser.
- `cniconf.dfy`: file selection (a loop, `SelectConfFile`), the escape of the first `/`, and the `sed` expression. Its partner is a small reader of `s/PAT/REPL/FLAGS` that honours `\/` escapes. The proof shows `sed` reads back exactly the placeholder, the subnet text and `g`.
- `handler.dfy`: the pieces of the event handler.
  - `Effect`: a `sed` run, a route add or a route delete, each with the outcome it reported.
  - `World`: the answers of the outside world during one event. These are the host name, the directory listing, and whether `sed`, add and delete succeed.
  - `Host`: a class holding the kernel route table and the effect trace. Its invariant is that the table is the replay of the trace over the initial table.
  - `Handler`: a class whose three methods append exactly `AddEffects`, `DeleteEffects` or `UpdateEffects` to the trace. Lemmas state the ordering and absence properties of those traces, and what they do to the route table.

Two facts about the code that the model keeps:

- **First internal entry only.** The builder takes the *first* `InternalIP` entry. It fails with `NoPodAddress` when that entry's address is empty, even if a later internal entry is non-empty (`BuildRouteCases`).
- **Route equality includes scope.** `Route.Equal` also compares scope. Every route the builder produces has universe scope, so for those routes equality reduces to destination and gateway (`BuiltRoutesEqual`).

## Model

| member | source | states |
|---|---|---|
| `Route.FirstInternal` | hostgw/hostgw.go:34-40 | The gateway text is the address of the first `InternalIP` entry in list order; other kinds are skipped; it is empty when no internal entry exists |
| `Route.FindInternalAddress` | hostgw/hostgw.go:34-40 | The `for`/`break` scan returns exactly the address of the first internal entry, or empty text |
| `Route.GenerateRoute` | hostgw/hostgw.go:28-62 | The builder returns what `BuildRoute` specifies; on success the route is the parsed pod CIDR via the parsed address, in universe scope |
| `Route.NoPodCIDRFirst` | hostgw/hostgw.go:29-32 | An empty pod CIDR gives `NoPodCIDR` whatever the address list holds (the check precedes the search) |
| `Route.BuildRouteCases` | hostgw/hostgw.go:28-61 | Only the two sentinel errors occur. With a pod CIDR the build succeeds exactly when the first internal entry exists and is non-empty, and then gives that subnet via that address with universe scope. An empty first internal entry, or none, gives `NoPodAddress` even when a later internal entry is non-empty |
| `Route.BuiltRoutesEqual` | hostgw/hostgw.go:172 | Two routes from the builder are equal exactly when their destination and gateway are |
| `Route.FixtureRoute` | hostgw/hostgw_test.go:31-51 | The test's node (a host-name entry before internal `192.168.1.10`, CIDR `172.28.1.0/24`) builds the route to that CIDR via `192.168.1.10`, universe scope |
| `Lex.MinOf` | hostgw/hostgw.go:71-73 | The chosen name is in the list and sorts at or before every name in it |
| `Lex.MinimumUnique` | hostgw/hostgw.go:71-73 | The smallest name is unique, so which file is patched is determined by the listing |
| `Lex.SortedHeadIsMinimum` | hostgw/hostgw.go:71-73 | Whatever sorted permutation `sort.Strings` leaves, its element 0 is that smallest name |
| `CniConf.SelectConfFile` | hostgw/hostgw.go:65-73 | A listing error is passed on; an empty listing is `ConfNonexist`; otherwise the result is the lexicographically smallest name |
| `CniConf.EscapeFirstSlash` | hostgw/hostgw.go:75 | Text without `/` is unchanged; otherwise only the first `/` becomes `\/` and everything else is kept |
| `CniConf.PatchPlan` | hostgw/hostgw.go:64-75 | The `sed` command prepared: no command on a listing error or an empty listing; otherwise the smallest file name and the expression `s/__SUBNET_STR__/<escaped subnet>/g` |
| `CniConf.SedExprRoundTrip` | hostgw/hostgw.go:75-77 | For subnet text with no backslash and at most one `/`, `sed` splits the expression into pattern `__SUBNET_STR__`, replacement equal to the subnet text, and flags `g` |
| `HostGw.GenerateCniConfig` | hostgw/hostgw.go:64-84 | At most one `sed` run, on the chosen file with the built expression; the route table is untouched. The error returned is the listing error, `ConfNonexist`, the `sed` failure, or none |
| `HostGw.Host.constructor` | hostgw/hostgw.go:127-129 | A host starts with the given route table, an empty trace, and the replay invariant |
| `HostGw.Host.Perform` | hostgw/hostgw.go:127-129 | A kernel or `sed` call is appended to the trace; the table changes by that effect only (install on a successful add, removal of same destination and gateway on a successful delete); the replay invariant is kept |
| `HostGw.Handler.constructor` | hostgw/hostgw.go:86-90 | The handler holds the two directories (and the parsers); they never change |
| `HostGw.Handler.OnAdd` | hostgw/hostgw.go:93-130 | Appends exactly the node-added effects to the trace; the table becomes their replay |
| `HostGw.Handler.OnDelete` | hostgw/hostgw.go:133-153 | Appends exactly the node-removed effects to the trace; the table becomes their replay |
| `HostGw.Handler.OnUpdate` | hostgw/hostgw.go:156-178 | Appends exactly the node-changed effects to the trace; the table becomes their replay |
| `HostGw.ApplyAppend` | hostgw/hostgw.go:176-177 | Replaying the delete effects and then the add effects is replaying their concatenation |
| `HostGw.UnbuildableNodeIsIgnored` | hostgw/hostgw.go:97-102 | A node whose route cannot be built causes no effect on add, on delete, or as either side of an update |
| `HostGw.AddSelf` | hostgw/hostgw.go:104-113 | For the local host: at most one patch, it is the first effect and carries the `sed` outcome; an add appears only after a successful patch and has link scope; no delete. The patch happens exactly when the route builds and a configuration file exists, on the smallest name, with the built expression |
| `HostGw.AddSelfFailedPatchKeepsTable` | hostgw/hostgw.go:106-110 | A failed `sed` for the local host leads to no route add and leaves the table unchanged |
| `HostGw.AddPeer` | hostgw/hostgw.go:104-129 | For a peer: no patch; exactly one add of the built route in universe scope, whatever the add reports (no retry) |
| `HostGw.AddPeerInstalls` | hostgw/hostgw.go:127-129 | A successful peer add leaves the table as before plus the built route |
| `HostGw.DeleteCases` | hostgw/hostgw.go:144-152 | No effect for the local host; for a peer exactly one delete of its universe-scope route, whatever the delete reports |
| `HostGw.AddThenDeletePeer` | hostgw/hostgw.go:127-152 | A successful add then a successful delete of a peer leave no route to its subnet via its address |
| `HostGw.UpdateNoOp` | hostgw/hostgw.go:159-175 | No effect when either build fails, or when both routes have the same destination and gateway |
| `HostGw.UpdateIsDeleteThenAdd` | hostgw/hostgw.go:172-177 | Otherwise the effects are those of removing the old node followed by those of adding the new one |
| `HostGw.UpdateSelf` | hostgw/hostgw.go:176-177 | For the local host a changed route gives no delete: exactly the node-added effects, that is, a patch when a configuration file exists, then a link-scope add only if the patch succeeded |
| `HostGw.UpdatePeerReplacesRoute` | hostgw/hostgw.go:176-177 | For a peer with both kernel calls succeeding, the table afterwards is exactly the old table minus the routes with the old destination and gateway, plus the new route |

## Left out

- `main.go`: flag parsing, client setup, the dry-run listing, the profiling server and the informer loop. These are wiring, I/O and concurrency.
- Logging: every `log.*` call.
- Directory listing (`libcni.ConfFiles`): its result is an input, `World.listing`.
- The `sed` run (`exec.Command`): its success is an input, `World.sedOk`. The file contents are not modelled, so a second patch finding no placeholder is not visible.
- Kernel route calls (`netlink.RouteAdd`, `netlink.RouteDel`): their outcome is an input (`World.addOk`, `World.delOk`). The table update on success is an abstraction of the kernel. A delete removes routes with the same destination and gateway, whatever their scope.
- IP parsing and printing (`net.ParseCIDR`, `net.ParseIP`, `IPNet.String`): uninterpreted functions in `Net`. Parse errors, which the code discards, are whatever value those functions give.
- `netlink.Route.Equal`: modelled only for routes the builder produces, as equality of destination, gateway and scope.
- `os.Hostname`: the host name is an input, `World.hostname`. Its error is not modelled. Inside one `OnUpdate` both inner calls see the same name.
- `sort.Strings`: the in-place sort of the local `files` slice is modelled by its only observed result, element 0. That element is computed as the minimum, and `Lex.SortedHeadIsMinimum` ties the two.
- Type assertions (`obj.(*v1.Node)`): the entry points take typed nodes, so the panic on a non-node payload is not modelled.
- The commented-out route-existence check in `OnAdd`: it is not behaviour.
- `CNIBinDir`: kept as a field but never read, as in the code.
- `CniConf.SedExprRoundTrip`: only `sed`'s field delimiters and the `\/` escape are modelled. Other escapes and `&` in the replacement are not, which is why the lemma requires text without a backslash.
- File names: listed names are taken to be valid UTF-8 text (`seq<char>`). Linux allows arbitrary bytes in a name, and `sort.Strings` orders those bytewise. For valid UTF-8 that order equals the character order used here.
