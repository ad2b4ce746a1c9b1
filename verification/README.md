# FRR visibility: verified models

A Dafny model of the logic that turns an FRR network's events into gNMI state, convergence
traces and topology: the wire decoders and caches of the per-node shim (FPM, BMP, OSPF), the
convergence correlator, and the three exporters that read the nodes (path trace, trace
aggregation, topology). `dafny verify dfyconfig.toml` checks everything.

| file | models |
|---|---|
| `RouteTable.dfy`, `Machines.dfy`, `PathTrace.dfy` | the control-plane path walk: longest-prefix match, the forwarding machine over (node, label stack), runs of such machines |
| `Correlate.dfy`, `Reports.dfy` | the online fold of events and timer ticks into traces, the offline segmentation it is measured against, and what of it the flushed traces show |
| `Cluster.dfy`, `LinkNames.dfy`, `Timeline.dfy`, `Aggregator.dfy`, `TraceIds.dfy` | greedy clustering, merging into one timeline, Zipkin spans and their truncation error, trace ids |
| `Netlink.dfy`, `Fpm.dfy` | attribute streams, MPLS label stacks, the nexthop table and the cached AFT leaves |
| `RouteText.dfy`, `Bgp.dfy`, `Bmp.dfy` | route distinguishers and targets, BGP UPDATEs, the cached L3VPN routes and neighbor sessions |
| `OspfTrigger.dfy`, `OspfReconcile.dfy` | the one-slot trigger protocol, the snapshot-diff reconcile |
| `Topology.dfy` | the edge merge |
| `Text.dfy`, `Bytes.dfy`, `Options.dfy`, `Permutations.dfy` | strings, wire integers, options, reorderings and sorting |

Loops and objects of the source are methods and classes here, proved against specification
functions (`RouteTable.Table`, `Correlate.Fold`, `Cluster.Clusters`, `Netlink.AttrsOf`,
`Bgp.UpdateOf`, `Fpm.MessageOf`, `OspfReconcile.Reconciled`, `Topology.Merge`); the lemmas
are about those functions. Go's map iteration order is a nondeterministic choice. Library
code and kernel state enter as parameters: `RouteTable.Inet` (address parsing), `Fpm.Env` and
`Bmp.Env` (address rendering, table-to-VRF names), the list of VRF devices in
`Bmp.Collector.PeerState`, the warm-up flag of an event. Strings are byte strings, times are
integer nanoseconds. A slice expression that Go would refuse at run time is an explicit
outcome (`Netlink.Walk.fault`, `Bgp.Fault`, `Fpm.Crash`, `Bgp.Broken`), with the exact inputs
that cause it.

Every wire format that is read has an encoder written from its own standard or kernel header
(attributes, numbers and groups, MPLS stacks, distinguishers and communities, NLRI, UPDATEs, the
per-peer header, Peer Up), and a round trip against it. What a lookup, a label operation, a root
text or a state name amounts to is stated once more from the published leaves, the bits of the
addresses and the fields of the events (`AnswerMeans`, `LabelMove`, `TraceMeans`, `AdjStateIs`).

Where a property does not hold of the code on all inputs, the condition under which it does is
proved in both directions, and an input that shows the failure is given:

- The route table is keyed by prefix alone. It is independent of update order, and never mixes
  two network-instances, only under the conditions of `TableOrderIndependence` and
  `MixingCondition`; `RouteTable.OrderMattersExample` shows two orders that disagree and
  `MixedAnswerExample` a mixed answer.
- A schedule of the correlator cuts the stream into the groups of the offline segmentation
  exactly when no tick finds the active group idle for too long before an event that would still
  have joined it (`ScheduleUnobservable`). The flushed traces show less: they are those of the
  segmentation exactly when every segment that is cut that way is two follow events and nothing
  else (`KeptIff`, `FlushedTraces`; `UnseenCutExample` cuts such a pair and shows nothing). On
  every schedule read in event order the groups agree exactly when the idle timeout is at least
  the window (`TicksUnobservable`), as in the constructor, which sets both to 3 s. Emitters stamp
  an event before they enqueue it, so a tick can overtake it: `LateEventExample` cuts a trace in
  two that way.
- The package comment of the correlator says that follow-up events with no active root are
  dropped. The code drops them only during warm-up and opens a churn group afterwards; the model
  follows the code. A root can be dropped with such a group (`RootCanBeLost`), and all roots are
  reported exactly when no group is a follow event with one root behind it (`RootsSurviveIff`,
  `RootsReportedIff`), which the stream alone decides when no tick cuts visibly
  (`StreamRootsIff`).
- The two ends of a link vote for one key exactly when neither node name has a dash, or the
  interface has the same text at both ends (`LinkKeySymmetric`); `DashedNamesDisagree` gives two
  roots that vote apart. Names are taken to have no empty word between dashes; `EmptyWordExample`
  shows keys that agree by chance otherwise. Each end of an interface `x-y` finds the other
  exactly when neither name has a dash (`IfacePeersAgree`, `DashedPeerExample`).
- Truncation keeps two events in order exactly from two milliseconds less a nanosecond on, and
  from one millisecond on when no event is stamped before the first of its group
  (`OrderPreserved`; `Misplaced` and `MisplacedAfterStart` give two events below each bound).
- A negative window makes each trace its own group (`NegativeWindow`) and admits no cover of any
  trace (`NoCover`); the groups are a cover exactly when there is one (`GroupsCover`).
- A trace id is a digest of start, link and roots, and the last two depend on the order of
  polling. All orders of a group give one identity exactly when traces that start together have
  the same text and no two links share the most votes (`IdentityIff`); with a tie, as when two
  links fail together (`TieExample`), one group can be exported under two ids.
- The edge merge is called order-independent in a comment; `MergeOrderIndependence` says exactly
  when it is, and `Topology.OrderMattersExample` shows two sessions of one pair of routers whose
  order decides.
- The comment on nexthop resolution speaks of one level of groups; the code follows up to four
  (`BoundedResolution`).
- A neighbor that changes interface between snapshots leaves stale leaves (`AgreementIff`,
  `MovedNeighborExample`). Over a history the cache agrees with the last snapshot exactly when
  no neighbor's last stay on an interface ended in a move (`AgreesIff`); a neighbor that moved and
  came back before it left does no harm (`ReturnedNeighborExample`).
- The peer messages of one distinguisher are filed under one instance exactly when the first of
  them offers a name, or none does, or the first name offered is the distinguisher's own text
  (`OneInstanceIff`); `SplitSessionExample` files a Peer Down and the next Peer Up apart.
- A run at rest has covered its last OSPF message exactly when one of the commands after it
  succeeded (`CoveredIff`), so all runs do exactly when no command may fail (`AllCoveredIff`,
  `FailedReadLosesChange`).
- Two route distinguishers share a text exactly when one is of type 0 and one of type 2 with the
  same numbers, or both are of unknown types (`RdCollisions`); `RdCollisionExample` gives the
  two that print 1:2.
- An attribute stream is sliced past its end exactly when it ends inside the padding of an
  attribute (`Netlink.FaultIff`, `UnpaddedExample`), and path attributes exactly when they end
  inside an extended length (`Bgp.FaultIff`, `CutLengthExample`).

## Model

| member | source | states |
|---|---|---|
| RouteTable.RouteLookup | cmd/pathtrace-exporter/main.go:235-277 | the answer is a usable entry whose network holds the destination, and no usable entry that holds it is longer; nothing when there is none or the destination is not IPv4; for every walk order of the table |
| RouteTable.ContainsIff | cmd/pathtrace-exporter/main.go:271-271 | a network of length n holds an address if and only if their n leading bits are the same; of length 0 it holds all |
| RouteTable.AnswerMeans | cmd/pathtrace-exporter/main.go:235-277 | the answer read off the updates and the bits: its prefix is the longest of those with a latest next hop or label stack whose leading bits are the destination's, and it carries the latest leaves and the network-instance of the latest next hop |
| RouteTable.PrefixExample | cmd/pathtrace-exporter/main.go:271-271 | 10.0.0.0/8 holds 10.1.1.1 and not 11.1.1.1; 0.0.0.0/0 holds both |
| RouteTable.TableIsLast | cmd/pathtrace-exporter/main.go:236-256 | a table entry is, leaf by leaf, the last update of that leaf for its prefix, whatever came between |
| RouteTable.TableOrderIndependence | cmd/pathtrace-exporter/main.go:236-256 | every delivery order of the leaves gives the same table if and only if no prefix carries two values for one leaf |
| RouteTable.OrderMattersExample | cmd/pathtrace-exporter/main.go:236-256 | one prefix in two instances: the two delivery orders give two tables |
| RouteTable.MixingCondition | cmd/pathtrace-exporter/main.go:233-256 | no order ever pairs the next hop of one network-instance with the labels of another if and only if all those leaves of the prefix come from one instance |
| RouteTable.MixedAnswerExample | cmd/pathtrace-exporter/main.go:233-256 | a prefix in two instances yields an entry that neither holds |
| RouteTable.LongestUnique | cmd/pathtrace-exporter/main.go:261-275 | with canonical prefixes two walks of the table cannot answer differently |
| RouteTable.AnswerOrderIndependent | cmd/pathtrace-exporter/main.go:235-277 | with consistent leaves and canonical prefixes the answer depends on neither update order nor walk order |
| RouteTable.NoRouteMeans | cmd/pathtrace-exporter/main.go:155-159 | the empty answer is unambiguous: it means that nothing usable matched |
| PathTrace.Trace | cmd/pathtrace-exporter/main.go:143-206 | the hops are those of a run of the forwarding machine, the first at the start, each next one at the owner of the previous hop's next hop, or on the same node after an egress pop; a reached walk ends at the owner of the destination; with unambiguous lookups the result is "reached" if and only if the machine gets to (owner of the destination, empty stack) within 23 steps through known nodes |
| PathTrace.Walk | cmd/pathtrace-exporter/main.go:143-206 | a walk ends at the first arrival, the first unknown next hop, the first configuration with no possible move, or after 24 steps, and reports exactly the moves it made |
| PathTrace.IpPhase | cmd/pathtrace-exporter/main.go:153-170 | an IP hop is a move of the machine, and a missing route means that no move exists |
| PathTrace.MplsPhase | cmd/pathtrace-exporter/main.go:171-199 | a label operation is the machine's only move on a non-empty stack |
| PathTrace.LabelMove | cmd/pathtrace-exporter/main.go:171-199 | a label operation read off the latest leaves: an out-label swaps, a next hop alone pops, both lead to the owner of the next hop; with neither the egress pops into the VRF named as interface and stays on the node |
| PathTrace.LabelMoveIff | cmd/pathtrace-exporter/main.go:173-178 | there is an operation if and only if one of the three leaves is there |
| PathTrace.IpHop | cmd/pathtrace-exporter/main.go:153-170 | an IP hop follows an answer of the lookup: it goes to the owner of its next hop with its labels, split at commas, as stack |
| PathTrace.IpHopIff | cmd/pathtrace-exporter/main.go:153-170 | there is an IP hop if and only if the lookup on the node's leaves answers with a route |
| PathTrace.MoveGoes | cmd/pathtrace-exporter/main.go:153-213 | every move leads to the node that owns its next hop, or to "?" when none does; only an egress pop stays |
| PathTrace.WalkIsLinked | cmd/pathtrace-exporter/main.go:143-206 | the same hop by hop for every finished walk |
| PathTrace.MplsLookup | cmd/pathtrace-exporter/main.go:279-292 | each LFIB leaf is the last update of that leaf, empty when absent |
| PathTrace.CanonicalIsDeterministic | cmd/pathtrace-exporter/main.go:143-277 | canonical tables make the whole machine a function |
| PathTrace.ReachedIff | cmd/pathtrace-exporter/main.go:148-206 | any finished walk says "reached" exactly when the destination is at most 23 steps away |
| PathTrace.HopsNumbered | cmd/pathtrace-exporter/main.go:147-206 | hops are numbered 1, 2, ... without gaps, at most 25 of them |
| PathTrace.LoopFree | cmd/pathtrace-exporter/main.go:148-205 | a reached walk visits no (node, stack) twice |
| PathTrace.ReachedConservesLabels | cmd/pathtrace-exporter/main.go:153-199 | replaying a reached walk's recorded operations from the empty stack ends empty; labels pushed plus net growth of swaps equals labels popped |
| PathTrace.LabelBalance | cmd/pathtrace-exporter/main.go:161-197 | on any replayable hop list, final depth is initial depth plus labels added less labels removed |
| PathTrace.MoveIgnoresRest | cmd/pathtrace-exporter/main.go:173-198 | a label operation is unaffected by what lies below the top label |
| PathTrace.TunnelOpacity | cmd/pathtrace-exporter/main.go:173-198 | an LSP of any length runs move for move over any labels beneath it and leaves them untouched |
| PathTrace.TunnelForced | cmd/pathtrace-exporter/main.go:173-198 | and every run from there is that one |
| PathTrace.TunnelDelivers | cmd/pathtrace-exporter/main.go:153-199 | ingress push, transport LSP and egress delivery compose to one run of 1 + LSP length + n steps |
| Machines.EndedShort | cmd/pathtrace-exporter/main.go:148-206 | a run stopped by the step limit, a dead end or an unknown node proves the goal out of reach in that many steps |
| Machines.NoRepeat | cmd/pathtrace-exporter/main.go:148-206 | a deterministic run that meets its goal only at the end repeats no configuration |
| Correlate.Correlator.Receive | internal/correlate/correlate.go:104-133 | one turn of the select loop is one step of the machine on (closed groups, active group) |
| Correlate.Correlator.Flush | internal/correlate/correlate.go:137-169 | a flush closes the group, numbers it unless it is lone churn, and keeps the ring at the last 50 traces |
| Correlate.Correlator.Run | internal/correlate/correlate.go:99-135 | over any inputs, ring and counter are those of the groups the machine closes |
| Correlate.Correlator.constructor | internal/correlate/correlate.go:67-77 | a new correlator is empty, with window and idle timeout of 3 s and a ring of 50 |
| Correlate.TracesAreNumbered | internal/correlate/correlate.go:137-161 | flushed IDs are consecutive from 1, one per group that is not discarded, in order |
| Correlate.TraceMeans | internal/correlate/correlate.go:112-167 | a flushed trace has the bus, kind and key of its first event as root text, behind "churn/" when that is no root, the time of that event as start, and event by event bus, kind, key, detail and offset in whole milliseconds |
| Correlate.OnlineIsOffline | internal/correlate/correlate.go:106-127 | without ticks, the event-at-a-time machine computes the segmentation that cuts exactly at gaps over the window and skips warm-up follow events at group starts |
| Correlate.ScheduleUnobservable | internal/correlate/correlate.go:104-133 | any schedule, in event order or not, gives the offline segmentation if and only if no tick closes a group that the event taken next would have joined |
| Correlate.LateEventExample | internal/correlate/correlate.go:79-133 | with window and idle timeout of 3 s, a tick that overtakes an event already stamped cuts its group in two |
| Correlate.TicksUnobservable | internal/correlate/correlate.go:104-133 | all schedules whose ticks are read no later than the next event's stamp give the offline segmentation if and only if idle >= window |
| Correlate.Conservation | internal/correlate/correlate.go:106-127 | on every schedule, closed groups plus the active one hold every accepted event once, in order, except follow events taken during warm-up |
| Correlate.GroupsAreTight | internal/correlate/correlate.go:107-127 | on every schedule, neighbours inside a group are at most a window apart |
| Correlate.RootsSurviveIff | internal/correlate/correlate.go:137-143 | every root of the closed groups is in a flushed trace, in order, if and only if no group is a follow event with a single root behind it |
| Correlate.RootsReportedIff | internal/correlate/correlate.go:104-143 | on every schedule whose last group is closed, the flushed traces hold every root of the accepted stream if and only if no closed group is such a pair |
| Correlate.RootCanBeLost | internal/correlate/correlate.go:111-143 | a follow event, then one root, then a closing tick: both events are accepted and no trace is flushed |
| Reports.KeptIff | internal/correlate/correlate.go:104-143 | the same for the groups that are kept and their traces, whatever the schedule, the timeouts and the events |
| Reports.FlushedTraces | internal/correlate/correlate.go:99-169 | on any schedule, after a closing tick the flushed traces, numbers included, are those of the offline segmentation if and only if every segment that a tick cut before an event that would have joined it is two follow events and nothing else |
| Reports.UnseenCutExample | internal/correlate/correlate.go:79-143 | a tick that overtakes the second of two follow events changes the groups and no trace |
| Reports.SegmentsHoldRoots | internal/correlate/correlate.go:104-133 | the offline segmentation holds every root of the stream, in order |
| Reports.StreamRootsIff | internal/correlate/correlate.go:104-143 | decided from stamps, root and warm-up flags alone: with no visible cut every root of the stream is reported if and only if no segment is a follow event and one root |
| Cluster.GroupTraces | cmd/trace-aggregator/main.go:128-137 | the groups are the greedy clusters of some time-sorted permutation of the polled traces |
| Cluster.ClustersPartition | cmd/trace-aggregator/main.go:130-137 | every trace is in exactly one group, and order is kept |
| Cluster.GroupsSpread | cmd/trace-aggregator/main.go:130-137 | groups span at most the window, and their heads are more than a window apart |
| Cluster.GreedyIsOptimal | cmd/trace-aggregator/main.go:130-137 | no cover of the traces by blocks of diameter at most the window has fewer blocks |
| Cluster.GroupsCover | cmd/trace-aggregator/main.go:130-137 | the groups are themselves such a cover if and only if there is any, which is when the window is not negative or there is no trace |
| Cluster.NoCover | cmd/trace-aggregator/main.go:130-137 | a negative window admits no cover of any trace |
| Cluster.GroupingIsInvariant | cmd/trace-aggregator/main.go:115-137 | for every window, any two sorted orders of the same traces give the same groups as bags of traces, and in the same places when the window is not negative |
| LinkNames.LinkKeySymmetric | cmd/trace-aggregator/main.go:188-209 | the roots of the two ends vote for one link if and only if neither node name has a dash or the interface has the same text at both ends; without dashes the key is the unordered pair |
| LinkNames.LinkTrace | internal/correlate/correlate.go:111-124 | a trace opened by the link watcher's event of an interface has the link root of that interface |
| LinkNames.LinkTracesAgree | cmd/trace-aggregator/main.go:188-209 | two traces opened at the two ends of a link vote for one link under that same condition, and without dashes for the unordered pair |
| LinkNames.VotesSayLink | cmd/trace-aggregator/main.go:188-209 | a root that votes for a link says "link-" somewhere |
| LinkNames.IfaceKeysAgree | cmd/trace-aggregator/main.go:200-209 | the same for the interface texts alone |
| LinkNames.DashedNamesDisagree | cmd/trace-aggregator/main.go:188-209 | the roots `netlink/link-down a-b-c` and `netlink/link-down c-a-b`, ends of one link, vote for two keys |
| LinkNames.EmptyWordExample | cmd/trace-aggregator/main.go:200-209 | with two dashes in a row in a name, keys of texts with dashes can agree by chance |
| Timeline.Merge | cmd/trace-aggregator/main.go:146-186 | the spans are a time-sorted permutation of the group's spans, offsets start at 0 and never decrease, the trace lasts as long as the last offset, the link has maximal votes, the nodes are listed once each in order |
| Timeline.ZeroTimeIs | cmd/trace-aggregator/main.go:157-160 | a group without spans starts at Go's zero time, the first day of year 1 |
| Timeline.BestLink | cmd/trace-aggregator/main.go:178-184 | for every walk order of the votes, the chosen link has the most |
| Timeline.ZipkinSpans | cmd/trace-aggregator/main.go:279-300 | one root and one child per span, each with its timestamp and duration |
| Timeline.ChildrenFillRoot | cmd/trace-aggregator/main.go:279-300 | the children of a merged trace leave no gap and all start inside the root |
| Timeline.SpanEnds | cmd/trace-aggregator/main.go:279-300 | the root ends a microsecond after the last child starts; a child lasts to the next one, and at least a millisecond |
| Timeline.SpanNames | cmd/trace-aggregator/main.go:274-300 | the root is the network's and named after the link, a child its node's and named after bus and kind of the event, with its key and detail |
| Timeline.Exporter.Push | cmd/trace-aggregator/main.go:268-310 | a merged trace is posted under the digest of its start, link and roots, successfully at most once per id, and again only after a failure |
| TraceIds.MergeIdentity | cmd/trace-aggregator/main.go:146-186 | the start, link and roots of a merged trace are the time of its earliest span, a link with most votes, and the texts of its traces in order |
| TraceIds.IdentityIff | cmd/trace-aggregator/main.go:113-186 | all sorted orders of a group, and all walks over its votes, merge to one start, link and roots if and only if traces that start together have the same text and no two links share the most votes |
| TraceIds.SeedIff | cmd/trace-aggregator/main.go:268-270 | that condition gives one seed for the id, and is necessary when no separator of the seed occurs in the texts |
| TraceIds.TieExample | cmd/trace-aggregator/main.go:178-184 | two links that fail together give one group two identities |
| Timeline.SpanTime | internal/correlate/correlate.go:145-151 | a merged span lies less than 1 ms from its event, on any group; before it, unless the event was stamped before its group's first |
| Timeline.OrderPreserved | cmd/trace-aggregator/main.go:157-164 | two events a given time apart, on any nodes, are always placed in true order if and only if that time is at least 2 ms - 1 ns; 1 ms when no event is stamped before its group's first |
| Timeline.TimelineOrder | cmd/trace-aggregator/main.go:157-175 | in a merged timeline the span of an event precedes that of any event at least 1 ms later, 2 ms - 1 ns when the first is stamped before its group's start and the second after its own |
| Timeline.ExportedTime | cmd/trace-aggregator/main.go:285-297 | an exported timestamp lies less than 2 ms + 1 us before its event and less than 1 ms after it; not after it unless the event was stamped before its group's first |
| Aggregator.Build | cmd/trace-aggregator/main.go:113-144 | one refresh merges each cluster of some sorted order into a well-formed timeline numbered from 1, with the link of most votes, its nodes and its roots |
| Aggregator.SpansConserved | cmd/trace-aggregator/main.go:113-186 | over all merged traces of a refresh every polled span is shown exactly once, at its absolute time |
| Netlink.ForEachAttr | internal/ingest/fpm.go:333-344 | the loop yields exactly the attributes of the stream, and whether it leaves it |
| Netlink.AttrsRoundTrip | internal/ingest/fpm.go:329-344 | an encoded, padded attribute list is walked back to the same types, flags stripped, and payloads |
| Netlink.FaultFreeLengths | internal/ingest/fpm.go:335-343 | all streams of a length are walked inside their bounds if and only if the length is a multiple of four or under four |
| Netlink.FaultIff | internal/ingest/fpm.go:333-344 | a walk leaves its stream if and only if the stream is a list of whole attributes, with any padding bytes, and then one whose payload is there and whose padding is not |
| Netlink.UnpaddedExample | internal/ingest/fpm.go:333-344 | six bytes that are sliced past their end, and the attribute found before that |
| Netlink.DecodeMplsStack | internal/ingest/fpm.go:394-407 | the loop reads the entries up to the bottom of stack or the end |
| Netlink.StackRoundTrip | internal/ingest/fpm.go:394-407 | an RFC 3032 stack of any depth, with any traffic class and TTL and anything behind it, gives its labels back, top first |
| Netlink.LabelsCsv | internal/ingest/fpm.go:409-419 | the text is the comma-joined decimal labels |
| Netlink.CsvRoundTrip | internal/ingest/fpm.go:409-419 | splitting it on commas and reading the numbers gives the list back |
| Fpm.BoundedResolution | internal/ingest/fpm.go:205-226 | for any table, cyclic ones included, resolution finds the first concrete object of the unbounded first-member chain exactly when it is among the first five objects |
| Fpm.ParseMplsEncap | internal/ingest/fpm.go:384-392 | the labels are those of the last tunnel destination of the nested stream |
| Fpm.NhNumbersAre | internal/ingest/fpm.go:162-189 | id, interface and encapsulation type are those of the last attribute of their kernel number; groups accumulate |
| Fpm.NhBytesAre | internal/ingest/fpm.go:162-189 | gateway, blackhole and labels likewise, and a fault means a malformed nested stream |
| Fpm.RtNumbersAre | internal/ingest/fpm.go:242-267 | interface, table, nexthop id and encapsulation type are those of the last attribute of their kernel number |
| Fpm.RtBytesAre | internal/ingest/fpm.go:242-267 | destination, gateway and labels likewise |
| Bytes.Le32RoundTrip | internal/ingest/fpm.go:166-254 | a 32-bit number written in the kernel's byte order is read back, whatever follows |
| Fpm.GroupRoundTrip | internal/ingest/fpm.go:184-189 | the member ids of an encoded nexthop group are read back in order |
| Fpm.NexthopDecoded | internal/ingest/fpm.go:151-203 | a nexthop message on the wire, in any attribute order, becomes the object its attributes describe |
| Fpm.NexthopOnWire | internal/ingest/fpm.go:134-203 | a new or deleted nexthop, by message type, with id, interface and group members as the kernel writes them |
| Fpm.RouteDecoded | internal/ingest/fpm.go:228-327 | a route message of any family and destination length, in any attribute order, is filed under its VRF and prefix with its own gateway and labels, or those of its nexthop object; an unknown family is ignored |
| Fpm.RouteOnWire | internal/ingest/fpm.go:134-326 | a new or deleted route, by message type, is filed under the VRF of its table attribute as the kernel writes it, or of the header's table byte without one; its next hop is its gateway, or that of the nexthop object with the id as written |
| Fpm.RouteExample | internal/ingest/fpm.go:134-326 | the new route 10.0.0.0/8 via 10.1.1.1 in table 10, its attributes byte for byte |
| Fpm.PrefixTexts | internal/ingest/fpm.go:346-359 | whole IPv4 and IPv6 addresses keep their text, an IPv4-mapped one that of its last four bytes, and any other length, such as an empty default route, is 0.0.0.0 |
| Fpm.LabelsEndToEnd | internal/ingest/fpm.go:228-419 | a label stack put on a route reaches the tracer's comma split as the same labels in the same order |
| Fpm.TableIsLastWriter | internal/ingest/fpm.go:196-202 | the nexthop table is, per id, the last message that names it |
| Fpm.Collector.HandleNetlink | internal/ingest/fpm.go:134-148 | after any messages, every key's leaves are those of its last route message evaluated against the nexthop table of that moment; the label leaf exists only for a non-empty stack; nothing changes when a message is cut short |
| Fpm.Collector.HandleNexthop | internal/ingest/fpm.go:151-203 | the table changes as the message says and in nothing else |
| Fpm.Collector.HandleRoute | internal/ingest/fpm.go:228-327 | the message's key shows its new route and every other key is unchanged |
| Fpm.Collector.Publish | internal/ingest/fpm.go:313-326 | a delete removes both leaves, a route without labels clears a stale stack |
| Fpm.RefinesStep | internal/ingest/fpm.go:313-326 | one message keeps the cache equal to the last-writer history |
| RouteText.ParseRTs | internal/ingest/bmp.go:450-468 | the loop lists the route targets of whole communities |
| RouteText.TargetsRoundTrip | internal/ingest/bmp.go:450-468 | the targets of any list of extended communities are recovered in order |
| RouteText.TargetsOnWire | internal/ingest/bmp.go:450-468 | the targets of all three types among any extended communities, and no others, are listed in order by administrator and number |
| RouteText.RdInjectiveWithinType | internal/ingest/bmp.go:433-447 | inside one type the text determines the distinguisher |
| RouteText.RdCollisions | internal/ingest/bmp.go:433-447 | two distinguishers share a text if and only if one is of type 0, the other of type 2, with the same numbers, or both are of type 3 and up |
| RouteText.RdCollisionExample | internal/ingest/bmp.go:433-447 | the distinguishers of type 0 and of type 2 that both print 1:2 |
| RouteText.RdRoundTrip | internal/ingest/bmp.go:433-447 | a distinguisher of each known type is filed under its administrator, dotted or decimal, and its number |
| Bgp.ReadLabels | internal/ingest/bmp.go:349-357 | the scan stops behind the bottom label or where no entry is left |
| Bgp.ParseVpnNlri | internal/ingest/bmp.go:338-370 | the first NLRI and its size, or nothing when it is cut short |
| Bgp.NlrisRoundTrip | internal/ingest/bmp.go:327-370 | any number of canonical labelled VPN-IPv4 NLRI are recovered in order and every byte is consumed |
| Bgp.HandleMp | internal/ingest/bmp.go:298-335 | the attribute's next hop and routes, for VPN-IPv4 only |
| Bgp.ReachRoundTrip | internal/ingest/bmp.go:298-335 | an encoded MP_REACH gives back next hop and prefixes |
| Bgp.UnreachRoundTrip | internal/ingest/bmp.go:298-335 | an encoded MP_UNREACH gives back its prefixes |
| Bgp.ReadAttrs | internal/ingest/bmp.go:263-289 | the loop keeps the last MP_REACH, MP_UNREACH and communities of the list |
| Bgp.AttrsRoundTrip | internal/ingest/bmp.go:265-289 | any list of well-formed path attributes is read back in order to its end |
| Bgp.FaultIff | internal/ingest/bmp.go:265-271 | the loop leaves its message if and only if well-formed attributes are followed, at its very end, by three bytes announcing an extended length |
| Bgp.CutLengthExample | internal/ingest/bmp.go:265-271 | three bytes that are sliced past the message, and are not when one more byte follows in the buffer |
| Bgp.ParseUpdate | internal/ingest/bmp.go:242-296 | what an UPDATE says, or that it is not one |
| Bgp.UpdateRoundTrip | internal/ingest/bmp.go:242-296 | the path attributes of an encoded UPDATE are found behind any withdrawn routes and before any NLRI |
| Bmp.MonitoredUpdate | internal/ingest/bmp.go:233-393 | from wire to cache: exactly the announced and withdrawn routes are written, in order, with distinguisher, prefix, bottom label, next hop and targets |
| Bmp.HeaderRoundTrip | internal/ingest/bmp.go:110-135 | the per-peer header of any message, for both address families, gives back address, AS number and distinguisher text |
| Bmp.MonitoredMessage | internal/ingest/bmp.go:233-393 | a whole route-monitoring message, header and all: every announced prefix is written with distinguisher, prefix, bottom label, next hop, targets and the peer of the header, every withdrawn one is removed, nothing else is written |
| Bmp.RibIsLastWriter | internal/ingest/bmp.go:372-393 | the cached routes are the last write of each (distinguisher, prefix), whichever peer made it |
| Bmp.WithdrawalPrevails | internal/ingest/bmp.go:290-295 | inside one UPDATE a withdrawal prevails over an announcement of the same route |
| Bmp.Collector.RouteMon | internal/ingest/bmp.go:233-239 | a monitored message adds exactly its writes to the history, none when it is not an UPDATE or is cut short |
| Bmp.ReadPeerUpVrf | internal/ingest/bmp.go:200-231 | the VRF name found behind the two OPENs, or nothing |
| Bmp.PeerUpRoundTrip | internal/ingest/bmp.go:200-231 | the first VRF/Table Name of an encoded Peer Up is found behind any OPENs and other TLVs |
| Bmp.Collector.PeerState | internal/ingest/bmp.go:146-194 | a message is filed under the instance known or offered for its distinguisher, as established or idle, no other neighbor changes, unspecified peers are skipped, and a learned distinguisher keeps its name for good |
| Bmp.PeerUpOnWire | internal/ingest/bmp.go:110-231 | of an encoded Peer Up message: its peer is that of the header, and the name offered is the first VRF/Table Name, or else the node's only VRF |
| Bmp.PeerDownOnWire | internal/ingest/bmp.go:110-181 | of an encoded Peer Down message: its peer is that of the header, and only the node's only VRF is offered |
| Bmp.UnspecifiedIff | internal/ingest/bmp.go:147-152 | the peers that are skipped are 0.0.0.0, its IPv4-mapped form and the all-zero IPv6 address |
| Bmp.FiledMeans | internal/ingest/bmp.go:158-181 | without a distinguisher a message is filed under "default", with one under its text until a name is offered, and under that name from then on |
| Bmp.FirstNameStays | internal/ingest/bmp.go:158-178 | over any history of peer messages a distinguisher has the first name offered for it |
| Bmp.OneInstanceIff | internal/ingest/bmp.go:158-181 | the messages of one distinguisher, among any others, are filed under one instance if and only if the first offers a name, or none does, or the first name offered is the distinguisher's own text |
| Bmp.SplitSessionExample | internal/ingest/bmp.go:158-181 | a message before any name is known and one that brings a name are filed apart |
| OspfTrigger.InvRun | internal/ingest/ospf.go:65-102 | the invariant of every interleaving of messages, signals, timer, worker and reads |
| OspfTrigger.MentionsIff | internal/ingest/ospf.go:81-83 | a message counts if and only if it holds the word in any mixture of cases, anywhere |
| OspfTrigger.NoLostWakeup | internal/ingest/ospf.go:44-102 | with nothing pending, the last snapshot was read after the last OSPF message, whether or not the startup command succeeded; reconciles never outnumber signals |
| OspfTrigger.CatchesUp | internal/ingest/ospf.go:44-102 | from every reachable state at most six steps without new messages bring the protocol to rest with a fresh snapshot |
| OspfTrigger.CoveredIff | internal/ingest/ospf.go:44-108 | in every run at rest a snapshot was read after the last OSPF message, and the last message is covered if and only if the command of one of those reads succeeded |
| OspfTrigger.AllCoveredIff | internal/ingest/ospf.go:44-108 | with command outcomes drawn from a given set, every run at rest has covered its last OSPF message if and only if no command may fail |
| OspfTrigger.FailedReadLosesChange | internal/ingest/ospf.go:104-108 | one failing command leaves a change unseen at rest, whatever the startup command did |
| OspfReconcile.Ospf.Reconcile | internal/ingest/ospf.go:104-135 | over every history of snapshots `st` and `seen` mirror the last one, each neighbor's events are those the history calls for, every leaf is that of the neighbor's last stay on the interface unless it was gone right after it, and the cache agrees with the last snapshot if and only if every last stay that is over ended in departure; a failed command changes nothing |
| OspfReconcile.Ospf.Refresh | internal/ingest/ospf.go:112-125 | for every walk order, all present neighbors are written and their transitions emitted |
| OspfReconcile.Ospf.RemoveGone | internal/ingest/ospf.go:126-133 | for every walk order, exactly the departed neighbors are deleted and reported |
| OspfReconcile.AdjStateIs | internal/ingest/ospf.go:184-205 | the part of a state before a slash decides |
| OspfReconcile.StateNames | internal/ingest/ospf.go:184-205 | each of FRR's eight states has its name in the enumeration, and the empty one is unknown |
| OspfReconcile.FullNeighborExample | internal/ingest/ospf.go:111-120 | a neighbor in state Full/DR has adjacency-state FULL and its neighbor-address |
| OspfReconcile.AgreementIff | internal/ingest/ospf.go:111-134 | an agreeing cache agrees with the next snapshot if and only if no router-id changed interface |
| OspfReconcile.AgreesIff | internal/ingest/ospf.go:111-134 | a cache of such leaves agrees with the last snapshot of any history if and only if no neighbor's last stay on any interface ended in a move |
| OspfReconcile.KeptSnoc | internal/ingest/ospf.go:111-134 | one reconcile keeps every leaf that of the neighbor's last stay |
| OspfReconcile.ReturnedNeighborExample | internal/ingest/ospf.go:111-134 | a neighbor that moved, left, came back to its first interface and left again has moved and left nothing behind; without the return it has |
| OspfReconcile.MovedNeighborExample | internal/ingest/ospf.go:111-134 | a neighbor that moves from eth0 to eth1 leaves its eth0 address behind |
| OspfReconcile.TransitionsChain | internal/ingest/ospf.go:121-131 | over any history, a neighbor's consecutive transitions chain state to state up to its current state, and a departed neighbor's last event says so |
| OspfReconcile.EventsName | internal/ingest/ospf.go:121-131 | a transition names the interface the neighbor is on and both its states, a departure the interface it was on |
| OspfReconcile.EventsComplete | internal/ingest/ospf.go:104-131 | over any stretch of a history a neighbor's log grows unless, from the snapshot before it on, the neighbor once present stays present in one adjacency state; and conversely |
| Topology.Builder.AddEdge | cmd/topology-exporter/main.go:102-126 | the edge map is the merge of all observations so far, each edge under its own key and in order |
| Topology.Builder.AddPseudo | cmd/topology-exporter/main.go:130-143 | the same for VLAN and MAC nodes |
| Topology.Builder.LayerNodes | cmd/topology-exporter/main.go:205-214 | a layer's nodes are exactly the end points of its edges |
| Topology.MergeKeeps | cmd/topology-exporter/main.go:119-125 | a merged edge was observed, every observed pair has one, and a default detail survives only if nothing more specific was observed |
| Topology.OneEdge | cmd/topology-exporter/main.go:102-143 | one observation yields one edge under its layer's name and from the smaller to the larger name, if both ends are known and differ; a VLAN or MAC link needs two names |
| Topology.DefaultYields | cmd/topology-exporter/main.go:119-125 | a detail that ends in "=default" yields to any other, in either order |
| Topology.MergeOrderIndependence | cmd/topology-exporter/main.go:102-143 | every order of the observations merges alike if and only if each pair has at most one specific edge, and without one at most one edge |
| Topology.SettledMerges | cmd/topology-exporter/main.go:102-143 | then repetition does not matter either |
| Topology.FlipInvariant | cmd/topology-exporter/main.go:114-118 | for any observations at all, reporting any of the links from the other end changes nothing |
| Topology.EitherEndAnyOrder | cmd/topology-exporter/main.go:102-143 | settled observations merge to one map in any order, any of them reported from either end |
| Topology.OrderMattersExample | cmd/topology-exporter/main.go:102-126 | two instances between one pair of routers: the order of the two sessions decides the edge's detail |
| Topology.MergedEdgesDirected | cmd/topology-exporter/main.go:105-125 | every merged edge runs from the smaller to the larger name, between inventory nodes unless it is a VLAN edge |
| Topology.KeyFaithful | cmd/topology-exporter/main.go:118-118 | names without a bar make the key a faithful name of layer and pair |
| Text.LessIff | cmd/topology-exporter/main.go:114-117 | names are ordered by the first character that differs, a proper prefix first |
| Topology.VlanKeysApart | cmd/topology-exporter/main.go:118-142 | VLAN keys never name a fabric edge |
| Topology.IfacePeer | cmd/topology-exporter/main.go:286-294 | the first part that is neither empty nor the node itself |
| Topology.FirstOtherIs | cmd/topology-exporter/main.go:286-294 | the peer is empty if and only if every part is empty or the node itself; otherwise only such parts stand before it |
| Topology.IfacePeersAgree | cmd/topology-exporter/main.go:286-294 | for distinct non-empty names each end of the interface `x-y` finds the other if and only if neither name has a dash |

## Left out

- PathTrace.Trace: the text of the hop details; hops carry the operation with its labels, VRF and prefix instead. The walk runs over a fixed snapshot, and the map from addresses to nodes is given.
- LinkNames.LinkKeySymmetric: stated for node names whose dash-separated words are not empty; white space, which the kernel refuses in an interface name, is the ASCII set.
- Timeline.Exporter.Push: the SHA-256 digest and the text of a time are given functions, so that two seeds with one digest are not excluded; the ids of the single spans are left out.
- Bmp.MonitoredUpdate: canonical NLRI with a bottom-of-stack label; the withdrawal label 0x800000 of section 2.4 of RFC 8277 has no bottom bit and is outside the round trip.
- Bmp.MonitoredMessage: the same NLRI.
- OspfTrigger.NoLostWakeup: order only; the 300 ms debounce and the timer period are not modelled as durations.
- The accept and framing loops of the two TCP collectors, the sockets, gRPC, HTTP, exec and ticker plumbing: only the messages, events and snapshots they deliver are modelled.
- The correlator's bounded channel: the model starts from the events it accepts.
- The gNMI cache library with its paths and timestamps: leaves are map entries, subtree deletes remove them.
- Correlator events emitted by the FPM and BMP collectors, log lines, JSON and Prometheus text.
- The JSON of `show ip ospf neighbor`: a snapshot is given as neighbors with interface, address and state.
- The LFIB, forwarding-database and cgroup readers, the VRF name resolver and the LLDP watcher.
- Role and title helpers of the topology exporter, and the sorting of its output.
- Concurrency of the two collectors' tables: their mutexes make each handler one step.
