# WakeOnLAN: Bonjour and Core Data bookkeeping, modelled in Dafny

WakeOnLAN is a macOS application. It discovers hosts on the local network
through Bonjour (DNS-SD), lets the user remember them as `NetworkNode` records
in a Core Data store, and sends each one a Wake-on-LAN magic packet. This
project models the application's bookkeeping as pure state machines over an
immutable store and explicit discovery events. It covers five pieces:

- **Promotion.** `addSelectedServiceHost` turns the selected resolved service
  into a remembered node and a remembered service type, keyed by host and by
  type identifier, and links the two. The guard in `wakeAction` decides
  whether `send_wol` is called.
- **Status correlation.** The status controller starts one browse per
  remembered service type. Found and removed events set the `status` of the
  one node whose host is the event's service name.
- **The scan session.** The service browser controller builds the browsed
  type string, keeps the found-services list, counts outstanding resolutions
  to drive the progress indicator, lists resolved services, and takes each
  host's device model from a TXT record.
- **Resolved records.** A `ResolvedService` has field defaults, the
  dotted-decimal IP of the first advertised address, and the MAC address read
  back from a zero-initialised 64-byte C buffer.
- **The service-type list.** It is kept by the meta-query browse of section 9
  of RFC 6763.

Store records are sequences, and a record's identity is its position.
Relationships are sets of positions. Each delegate method is a function from
the old state to the new one, and `Run` replays a sequence of events. Byte
strings that the source turns into Swift strings go through a strict UTF-8
decoder (`Utf8`), with its encoder as partner. The IP string goes through a
dotted-decimal renderer (`Ipv4`), with a parser as partner.

Modules, in dependency order:
- `Common`: `Option`, `byte`, remove-every-occurrence, and list-edit replay.
- `Utf8`.
- `Ipv4`.
- `ResolvedServices`.
- `DataModel`: the Core Data entities.
- `AppDelegate`.
- `NodeStatus`.
- `ServiceBrowser`.
- `ServiceTypes`.

Behaviour of the code that the model keeps, though a cleaner design would
differ:
- Promotion reuses an existing node as it is and never refreshes it.
- A service found twice is appended twice.
- `scan` does not clear the found services.
- A resolution that arrives after its service was removed is still listed,
  because the found services are never consulted.
- `scan` stops the progress indicator on every exit. See Findings.

## Model

| member | source | states |
|---|---|---|
| Common.RemoveAll | WakeOnLAN/ServiceBrowserController.swift:100 | every occurrence of the element is gone and every other element keeps its multiplicity (order is kept by construction) |
| Common.MembershipFollowsLastEdit | WakeOnLAN/ServiceBrowserController.swift:89-101 | after any run of appends and remove-alls, an element is present iff the last edit naming it was an append (or, with none, it was present initially) |
| Utf8.DecodeEncode | WakeOnLAN/ResolvedService.swift:72 | decoding the UTF-8 encoding of any string gives that string back |
| Utf8.Decode | WakeOnLAN/ResolvedService.swift:72 | bytes the strict decoder accepts are exactly the encoding of the decoded text, so decoding loses nothing |
| Ipv4.Render | WakeOnLAN/ResolvedService.swift:43-48 | the text's pieces between dots are the four octets' numerals, and parsing it gives the four octets back |
| Ipv4.RenderParse | WakeOnLAN/ResolvedService.swift:43-48 | every string the parser accepts is the canonical rendering of what it parses to (no leading zeros, four fields) |
| ResolvedServices.MacBuffer | WakeOnLAN/ResolvedService.swift:66-67 | the 64-byte buffer holds what the lookup wrote, followed by zeros, truncated at 64 |
| ResolvedServices.CString | WakeOnLAN/ResolvedService.swift:72 | the C string is a NUL-free prefix of the buffer, ended by a NUL or by the end of the buffer |
| ResolvedServices.MacString | WakeOnLAN/ResolvedService.swift:72-75 | the MAC text encodes back to exactly the C string when that is UTF-8, and is "" otherwise |
| ResolvedServices.ResolveIp | WakeOnLAN/ResolvedService.swift:56-77 | the MAC address is NUL-free and its encoding is a prefix of the zero-padded written bytes; it is "" when the lookup wrote nothing |
| ResolvedServices.MacOfWrittenText | WakeOnLAN/ResolvedService.swift:59-75 | whatever the ping and lookup error codes, a NUL-terminated UTF-8 text written by the lookup becomes the MAC address |
| ResolvedServices.CStringOfTerminated | WakeOnLAN/ResolvedService.swift:66-72 | a buffer whose first NUL is at n yields exactly its first n bytes |
| ResolvedServices.Init | WakeOnLAN/ResolvedService.swift:24-54 | host, domain and type are copied from the service; status is true; owner, icon and name are ""; with no address, IP and MAC stay ""; otherwise the IP parses back to the first address and the MAC is the lookup's |
| DataModel.NodeSlot | WakeOnLAN/WakeOnLAN_AppDelegate.swift:182-189 | the first node with the host, or one past the end when no node has it |
| DataModel.ServiceSlot | WakeOnLAN/WakeOnLAN_AppDelegate.swift:201-207 | the first service record with the identifier, or one past the end when none has it |
| AppDelegate.Promote | WakeOnLAN/WakeOnLAN_AppDelegate.swift:171-226 | with no selection the store is unchanged; otherwise node and service record end up linked both ways; a node is added only when none has the host, with host, domain, IP, MAC and icon copied; an existing node only gains the link; likewise for the service record, created with the type and name; owners and all other records are untouched |
| AppDelegate.PromoteIdempotent | WakeOnLAN/WakeOnLAN_AppDelegate.swift:182-217 | promoting the same selection twice gives the same store (so the same node and service counts) as promoting it once |
| AppDelegate.PromoteKeepsHostsUnique | WakeOnLAN/WakeOnLAN_AppDelegate.swift:182-198 | promotion never introduces a second node with a host some node already has |
| AppDelegate.PromoteKeepsIdentifiersUnique | WakeOnLAN/WakeOnLAN_AppDelegate.swift:201-213 | promotion never introduces a second service record with an existing identifier |
| AppDelegate.PromoteKeepsLinks | WakeOnLAN/WakeOnLAN_AppDelegate.swift:215-217 | relationships that point at existing records and mirror their inverses still do so after promotion |
| AppDelegate.CreatedServiceIsUnnamed | WakeOnLAN/WakeOnLAN_AppDelegate.swift:210-212 | a service record created from a resolved service is named "", since resolved services never get a name |
| AppDelegate.WolArgument | WakeOnLAN/WakeOnLAN_AppDelegate.swift:146-152 | the C string send_wol reads from strdup is NUL-free and a prefix of the address's UTF-8 text, and all of it when the address has no U+0000 |
| AppDelegate.Wake | WakeOnLAN/WakeOnLAN_AppDelegate.swift:136-152 | send_wol is reached iff there is a selection whose first node has a MAC address, and it receives that address as a C string |
| AppDelegate.WakeSendsStoredMac | WakeOnLAN/WakeOnLAN_AppDelegate.swift:138-152 | for an address without U+0000, the bytes send_wol receives decode back to exactly the stored address |
| AppDelegate.WakeCutsAtNul | WakeOnLAN/WakeOnLAN_AppDelegate.swift:146-152 | an address holding U+0000 reaches send_wol cut at that character |
| AppDelegate.WakeDoesNotValidate | WakeOnLAN/WakeOnLAN_AppDelegate.swift:138-152 | any MAC string, even "", reaches send_wol; the guard checks presence only, and "" arrives as the empty C string |
| NodeStatus.BrowsedTypes | WakeOnLAN/NetworkNodeStatusController.swift:33-53 | a type is browsed iff some service record has it as a non-empty identifier; at most one browse per record |
| NodeStatus.BrowsedTypesAppend | WakeOnLAN/NetworkNodeStatusController.swift:43-54 | the browses are started record by record, in store order |
| NodeStatus.Matches | WakeOnLAN/NetworkNodeStatusController.swift:82-87 | the fetch result holds exactly the nodes with the host, in ascending order |
| NodeStatus.ManagedObjectFor | WakeOnLAN/NetworkNodeStatusController.swift:69-99 | returns a node iff it is the only node whose host is the name; zero or several matches give none |
| NodeStatus.MatchesOfAbsent | WakeOnLAN/NetworkNodeStatusController.swift:82-87 | with no node having the host, the fetch returns nothing |
| NodeStatus.MatchesOfUnique | WakeOnLAN/NetworkNodeStatusController.swift:82-92 | with exactly one node having the host, the fetch returns just that node |
| NodeStatus.SetStatus | WakeOnLAN/NetworkNodeStatusController.swift:112-135 | for a unique match only that node's status changes, to the given value; with none the store is unchanged |
| NodeStatus.Step | WakeOnLAN/NetworkNodeStatusController.swift:112-159 | a delegate call changes at most status flags; resolve and not-resolve change nothing |
| NodeStatus.Run | WakeOnLAN/NetworkNodeStatusController.swift:112-159 | any run of events keeps services, owners and the number of nodes |
| NodeStatus.RunKeepsAllButStatus | WakeOnLAN/NetworkNodeStatusController.swift:115-133 | any run of events leaves every node field except status as it was |
| NodeStatus.StatusFollowsLastEvent | WakeOnLAN/NetworkNodeStatusController.swift:112-135 | for a uniquely matched host, status equals whether the last found/removed event for it was a found, else its initial value |
| NodeStatus.AmbiguousNodeKeepsStatus | WakeOnLAN/NetworkNodeStatusController.swift:90-92 | a node with no host, or one it shares with another node, never changes status |
| NodeStatus.Replay | WakeOnLAN/NetworkNodeStatusController.swift:69-159 | with a context, the controller's outcome after any events is the store Run computes; without one, it traps iff some event is a found or removed (the force-unwraps at lines 76 and 87) and has only logged otherwise |
| NodeStatus.FoundTrapsAfterAwake | WakeOnLAN/NetworkNodeStatusController.swift:22-76 | as written, start-up leaves no context, so any run of events traps iff it holds a found or removed event, whatever the store holds |
| NodeStatus.IntendedStatusFollowsLastEvent | WakeOnLAN/NetworkNodeStatusController.swift:22-135 | with the context kept at start-up, the controller never traps and a uniquely matched node's status follows the last found/removed event for its host |
| NodeStatus.Nas01Scenario | WakeOnLAN/NetworkNodeStatusController.swift:112-135 | an offline remembered "nas01" goes online on found and offline on the following removed |
| ServiceBrowser.Prefix | WakeOnLAN/ServiceBrowserController.swift:69 | the kept part is a prefix of the type, of length min(n, length) |
| ServiceBrowser.TypeToBrowse | WakeOnLAN/ServiceBrowserController.swift:67-71 | the browsed type is the selected name, a dot, and at most five leading characters of the selected type |
| ServiceBrowser.BrowsesServiceNameForm | WakeOnLAN/ServiceBrowserController.swift:68-71 | a type reported as name "_http", type "_tcp.local." is browsed as "_http._tcp.", the service-name form of section 7 of RFC 6763 |
| ServiceBrowser.SplitTypeToBrowse | WakeOnLAN/ServiceBrowserController.swift:68-71 | for a dot-free name, splitting the browsed type at its first dot gives back the name and the kept type prefix |
| ServiceBrowser.Scan | WakeOnLAN/ServiceBrowserController.swift:46-81 | the count is reset, the listed services are empty and the indicator is stopped on every exit; found services, monitors and connected service are kept; with a selection the browse restarts on its type, otherwise the old browse goes on |
| ServiceBrowser.ScanIntended | WakeOnLAN/ServiceBrowserController.swift:41-62 | same as scan, except that the indicator keeps running exactly when a browse was started |
| ServiceBrowser.DidFind | WakeOnLAN/ServiceBrowserController.swift:89-94 | the service is appended without de-duplication (multiplicity +1, earlier entries kept) and the count grows by exactly one |
| ServiceBrowser.DidRemove | WakeOnLAN/ServiceBrowserController.swift:99-101 | every occurrence of the service leaves the found services, the rest keep their multiplicity; nothing else changes |
| ServiceBrowser.DidResolve | WakeOnLAN/ServiceBrowserController.swift:110-124 | exactly one resolved record is listed, device-info monitoring starts, the count drops by one, and the indicator runs afterwards iff it ran and the new count is positive |
| ServiceBrowser.DidNotResolve | WakeOnLAN/ServiceBrowserController.swift:130-133 | the count drops by one and nothing else changes, the listed services included |
| ServiceBrowser.LastWithHost | WakeOnLAN/ServiceBrowserController.swift:147-148 | the last listed record with the host, or none when no record has it |
| ServiceBrowser.DidUpdateTxt | WakeOnLAN/ServiceBrowserController.swift:139-151 | with no "model" key or non-UTF-8 value nothing changes and monitoring goes on; otherwise monitoring of the sender stops and only the last listed record with the sender's host changes, its icon becoming the text whose encoding is the TXT value |
| ServiceBrowser.Apply | WakeOnLAN/ServiceBrowserController.swift:89-151 | no delegate call changes the browsed type; listed records only ever have their icon changed; find and remove touch neither the listed records, the monitors nor the indicator; TXT updates leave the found services and the count alone |
| ServiceBrowser.Run | WakeOnLAN/ServiceBrowserController.swift:89-151 | after any events the browse is the one the last scan started, and every record listed before keeps all its fields but the icon |
| ServiceBrowser.RunFoundServices | WakeOnLAN/ServiceBrowserController.swift:89-101 | the found services after any run of events are the replay of its finds and removes |
| ServiceBrowser.FoundFollowsLastEvent | WakeOnLAN/ServiceBrowserController.swift:89-101 | a service is found iff the last find/remove event for it was a find (or, with none, it was there before) |
| ServiceBrowser.CountBalance | WakeOnLAN/ServiceBrowserController.swift:89-133 | the count equals its start plus the finds minus the finished resolutions, in any order |
| ServiceBrowser.ListedGrowth | WakeOnLAN/ServiceBrowserController.swift:110-114 | the listed services grow by exactly one per successful resolution |
| ServiceBrowser.IndicatorRule | WakeOnLAN/ServiceBrowserController.swift:120-123 | the indicator runs after a run of events iff it ran before and no successful resolution left the count at zero or below |
| ServiceBrowser.IndicatorStopsWithScan | WakeOnLAN/ServiceBrowserController.swift:48-62 | as written, the indicator never runs after scan returns, whatever happens next |
| ServiceBrowser.NeverDrainedFromZero | WakeOnLAN/ServiceBrowserController.swift:61-123 | from a zero count, the count never drains at a resolution iff finds stay ahead of finished resolutions at each one |
| ServiceBrowser.IndicatorTracksOutstanding | WakeOnLAN/ServiceBrowserController.swift:41-124 | with the intended scan, the indicator runs iff a type was selected and every successful resolution so far left a resolution outstanding |
| ServiceBrowser.SessionFromStart | WakeOnLAN/ServiceBrowserController.swift:28-133 | from the state awakeFromNib leaves, after a scan and any events: the count is finds minus finished resolutions, one record is listed per successful resolution, a service is found iff its last report was a find, and the indicator is off |
| ServiceBrowser.RenderExample | WakeOnLAN/ResolvedService.swift:45-48 | the address 192.168.1.50 is rendered "192.168.1.50" |
| ServiceBrowser.Printer1Scenario | WakeOnLAN/ServiceBrowserController.swift:89-124 | a service found and resolved at 192.168.1.50 with an empty MAC lookup is found and listed with that IP, MAC "" and icon "" |
| ServiceTypes.Start | WakeOnLAN/ServiceTypesBrowserController.swift:28-32 | start-up has an empty type list and browses the meta-query "_services._dns-sd._udp." in the default domains |
| ServiceTypes.DidFind | WakeOnLAN/ServiceTypesBrowserController.swift:49-52 | exactly the reported type is appended to the list |
| ServiceTypes.DidRemove | WakeOnLAN/ServiceTypesBrowserController.swift:62-64 | the reported type leaves the list; everything else keeps its multiplicity |
| ServiceTypes.Step | WakeOnLAN/ServiceTypesBrowserController.swift:49-85 | resolve and not-resolve leave the browser unchanged; no event changes the query |
| ServiceTypes.Run | WakeOnLAN/ServiceTypesBrowserController.swift:28-85 | no run of events changes the browsed query |
| ServiceTypes.RunIsReplay | WakeOnLAN/ServiceTypesBrowserController.swift:49-64 | the type list after any run of events is the replay of its founds and removes |
| ServiceTypes.ListedIffLastFound | WakeOnLAN/ServiceTypesBrowserController.swift:28-64 | after start-up, a type is listed iff the last report about it was a found |

## Left out

- `send_wol`, the magic-packet construction and the UDP broadcast: a C function outside this model. `Wake` only decides whether it is called and with which string.
- `pingIP`, `macForIP`, `inet_ntoa` and the `sockaddr_in` byte copy are foreign C calls. They become inputs: the ping's error code, a `MacLookup` (error code and the bytes written into the buffer), and the advertised addresses as IPv4 octets.
- ResolvedServices.Init: the first address is taken to be IPv4. The source copies whatever the first address holds into a `sockaddr_in` and renders its `sin_addr`, so an IPv6 first address is not modelled.
- The port read and printed by the initialiser, the 0.2 s sleep, the 2 s resolve timeout, and callback interleaving: timing and concurrency. Events are delivered one at a time.
- Core Data fetch and save errors, `save` itself, undo, and the termination flow of the application delegate: persistence and UI plumbing. The fetches are modelled; a fetch never fails.
- DataModel.NodeSlot and DataModel.ServiceSlot: Core Data returns fetch results in no defined order. The model takes store order for `.first`.
- AppDelegate.NewNodeStatus: the default of the `status` attribute is in the data model file, which is not part of this model. It is taken to be false.
- `NodeImageValueTransformer` and `StatusValueTransformer`: icon lookup and image selection for the UI.
- NSArrayController and NSProgressIndicator behaviour beyond list contents, selection (the first selected object) and whether the indicator is animating. Array-controller removal is modelled as removing every equal object.
- `NetService` equality is taken to be equality of name, type and domain.
- ResolvedServices.MacBuffer: the model assumes `macForIP` writes NUL-terminated text shorter than the 64-element buffer. A longer write overflows the array, which is undefined behaviour; the model replaces it by truncation at 64 bytes.
- ResolvedServices.CString: a buffer holding no zero byte makes `String(cString:encoding:)` read past the array, which is undefined behaviour; the model takes the whole buffer instead.
- ServiceBrowser.Prefix and ServiceBrowser.TypeToBrowse: Swift's `prefix(5)` counts Characters (grapheme clusters), while the model counts Unicode scalars. The two agree on the "_tcp." and "_udp." types the meta-query reports, but not on types whose first five Characters include combining sequences.
- Object lifetimes: the browsers that the status controller's `awakeFromNib` creates are loop-local constants, and the device-info service that the resolve handler starts monitoring is a local. Nothing in the code retains either. The model assumes they keep delivering callbacks after the method that made them returns, so the found/removed events of NodeStatus.Run and the TXT updates of ServiceBrowser.DidUpdateTxt are inputs that may in fact never occur. The second Findings row's trap needs such a found or removed event to arrive.
- Utf8.Decode: Foundation's handling of a leading byte-order mark is not modelled; the strict decoder keeps it as U+FEFF.
- The ServiceBrowser `services` array is declared and never used; it has no counterpart.

## Findings

| source | as written | input that shows it | evidently intended | confidence | as-written member | corrected member |
|---|---|---|---|---|---|---|
| WakeOnLAN/ServiceBrowserController.swift:48-62 | the deferred block of `scan` stops the progress indicator on every exit, including right after the browse is started | select any type and scan: the indicator started at line 62 is stopped as `scan` returns, before any service is found | the indicator keeps running while resolutions are outstanding and is stopped by the resolve handler at lines 120-123, as the comments of lines 41-44 and 105-108 say | medium, not executed | ServiceBrowser.IndicatorStopsWithScan | ServiceBrowser.IndicatorTracksOutstanding |
| WakeOnLAN/NetworkNodeStatusController.swift:22 | `awakeFromNib` binds the array controller's context to a local constant; the `managedObjectContext` property (line 13) is never assigned, and `managedObjectForService` force-unwraps it at lines 76 and 87 | any found event after start-up, for instance `Found("nas01")`, traps on the force-unwrap, provided the browse delivers it (see Left out) | the controller keeps the context for its later lookups, so found/removed set the matching node's status | medium, not executed | NodeStatus.FoundTrapsAfterAwake | NodeStatus.IntendedStatusFollowsLastEvent |
