# Verified model of Relayer's export, archive and recovery logic

This project models the parts of Relayer whose correctness rests on several pieces of state or
several functions at once, and proves what those parts promise:

- the **conversation-export validator**: a stream of turns checked against everything seen
  before it, with graph searches inside each accepted view (`Walks`, `GraphChecks`,
  `ExportModel`, `AcceptedView`, `Definitions`, `ExportStream`, `ExportValidator`,
  `StreamTheorems`, `LineageExamples`, `CallableExamples`);
- the **export builder**: portable identifiers, the renaming of a closure, seeding from an
  import, option keys, the encoding-aware path matcher, and JSONL framing (`PortableIds`,
  `ExportBuilder`, `Redaction`, `RenamingTheorems`, `ExportAccepted`, `OptionKeys`, `Utf8Order`,
  `Decoding`, `Encodings`, `Jsonl`, `Sorting`);
- the **Office archive pre-flight check** over arbitrary bytes, and a ZIP writer it is exact on
  (`Archive`, `ArchiveWriter`);
- the **lease worker** and the **restart pass**, as state machines whose steps are the awaits of
  the source (`LeaseWorker`, `Restart`);
- the **completion watch** of the client and the **observation hold** of the broker, over every
  interleaving (`CompletionWatch`, `ObservationHold`).

`dafny verify dfyconfig.toml` checks all of it.

## How the main results are stated

Each loop or state-changing operation is a method proved equal to, or equivalent to, a
declarative specification that does not mention its worklists, maps or counters:
`ViewOk` for one accepted view, `Admits` for one more turn, `AcceptedStream` for a whole
export, `ArchiveOk` for an archive, `RenameView` for an exported closure, `FinalGraph` and
`FinalProduct` for a restart. The theorems are then about those specifications, for every
input, run or reachable state. What the specifications themselves rest on is stated once more
from outside: decoders against encoders written on their own, the archive check against a ZIP
writer, the exporter by what two exports can and cannot tell apart, lookups in the validator's
maps by the turns and records they stand for, the answers of the watch and the restart by the
fields of a current and a row.

Conventions. SHA-256 fingerprints of definitions are the definitions themselves. JSON encoding
is an arbitrary parser given as a function, and an encoded line has no raw line feed. DEFLATE is
an arbitrary function from bytes to produced sizes or an error. Hash sets and maps are `set` and
`map`. Identifiers are values; the graph's `i64` node ids are `int`. Strings are sequences of
code points, and UTF-8 lengths are computed explicitly where the source measures bytes.

## Where a guarantee has a condition

- *Invoke lineage.* Uniqueness of the converting action is checked only for layers that are some
  turn's accepted root. `ConvertedLineage` proves the whole lineage for those layers, and
  `AcceptedIffOneConversion` the exact condition for every admitted stream: it is accepted iff
  each accepted root that is a conversion target has its own origin as its only converting
  action. For other layers lineage can fail: `ConvertedTargetMayBeShared` gives, for any distinct
  identifiers and any nonblank text, an accepted stream in which two actions convert to one layer
  that is no turn's root (choose identifiers, titles and labels of the portable form to pass the
  field checks that are not modelled). With a turn added that has that layer as its root,
  `ResultAcceptedIffUnshared` shows the stream accepted iff one action converts to it.
- *Export.* Redaction may rewrite client keys and invoke texts. `ExportAcceptedIff` proves that the
  export of an acceptable closure passes the whole validation iff no invoke text becomes blank
  and, outside a share, no two keys of one source node (before V3 also no two node keys or layer
  keys) are rewritten to the same text; `CollapsedKeysRefused` names that refusal.
- *Observation hold.* The hold reads only the newest value. `FalseIffMissable` is exact for every
  channel history: some run answers false iff the newest timely value, or a late value that
  replaced it before the hold looked, is no news, or nothing timely came. With nothing published
  late the newest value alone decides (`NewestTimelyDecides`). In-order publication keeps news
  news (`InOrderKeepsNews`), and then no timely news is ever missed (`NewsInTimeIsSafe`).
- *Archive check.* A ZIP without a comment is accepted iff it is within the limits, its data
  expand to their declared sizes and no header carries a ZIP64 record (`WrittenIsAcceptedIff`),
  except when the entry count and the directory's length, side by side in the end record, spell
  that record's own signature; the check then finds the second one and refuses. That needs at
  least 20480 parts. With a comment, the comment must not hold the signature either
  (`NotedIsAcceptedIff`).
- *Path matcher.* Running out of rounds answers true. `ContainsPrivatePath` is therefore exact
  for "some number of decoding steps exposes a path, or the text does not settle in time".

## Model

| member | source | states |
|---|---|---|
| `GraphChecks.CycleSearch.Visit` | crates/relayer-app-server/src/conversation_export.rs:3864-3885 | One recursive visit over the shared visiting and visited sets: true only if a cycle is reachable from the start of the current path; false finishes the node, leaves the path as it was, and keeps every finished node free of cycles. |
| `GraphChecks.HasCycle` | crates/relayer-app-server/src/conversation_export.rs:3859-3892 | Terminates on every adjacency; from the root alone it answers true iff a directed cycle is reachable from the root, over all components iff the adjacency has any cycle. |
| `GraphChecks.FinishedReachNoCycle` | crates/relayer-app-server/src/conversation_export.rs:3864-3885 | With no visit under way, no finished node reaches a cycle: what makes sharing the sets between start nodes sound. |
| `GraphChecks.Neighbours` | crates/relayer-app-server/src/conversation_export.rs:3832-3842 | The adjacency lists built from a layer's edges are the symmetric closure of the edges and mention every node. |
| `GraphChecks.IsConnected` | crates/relayer-app-server/src/conversation_export.rs:3831-3857 | For distinct members and edges between them, the stack search accepts iff every two nodes are joined by an undirected path. |
| `AcceptedView.ValidateLayer` | crates/relayer-app-server/src/conversation_export.rs:3496-3668 | Accepts iff the record counts are within bounds, members are distinct and are exactly the resolved records in order, the default node is a member, the layout is acceptable, every edge joins two different members, the layer is connected, and action ids are distinct. |
| `AcceptedView.ValidateAction` | crates/relayer-app-server/src/conversation_export.rs:3670-3787 | Accepts iff the action carries exactly the fields its kind allows: relation and target for a navigation, a nonblank text for an invoke, a form for an input; bound inputs only on an invoke and distinct; a reuse policy only on an invoke or a converted one; a conversion only to an expanded target. |
| `AcceptedView.ValidateRootAction` | crates/relayer-app-server/src/conversation_export.rs:3361-3381 | Accepts iff the root action expands the view's root layer from its interaction node, unconverted and with no source layer. |
| `AcceptedView.CheckRoute` | crates/relayer-app-server/src/conversation_export.rs:3389-3467 | Accepts a route iff it names an edge of the layer whose two nodes are its ends, in either order or left out, and waypoints come with ends. |
| `AcceptedView.CheckLayout` | crates/relayer-app-server/src/conversation_export.rs:3554-3615 | Accepts iff every node of the layer is placed exactly once, every route is acceptable, and no edge is routed twice. |
| `AcceptedView.CheckLayers` | crates/relayer-app-server/src/conversation_export.rs:3107-3160 | Accepts iff the layer count is within bounds, layer ids are distinct, client keys agree before V3, every layer is acceptable and the root is present; then every layer can be looked up. |
| `AcceptedView.IndexNodes` | crates/relayer-app-server/src/conversation_export.rs:3177-3198 | Keeps one definition per node id and, before V3, one id per client key; refuses only when two nodes seen so far disagree. |
| `AcceptedView.IndexEdges` | crates/relayer-app-server/src/conversation_export.rs:3199-3209 | Keeps one definition per edge id; refuses only when two edges seen so far disagree. |
| `AcceptedView.IndexAction` | crates/relayer-app-server/src/conversation_export.rs:3247-3268 | Keeps one definition per action id, one id per source and client key, and before V3 one relation per target; refuses only when two actions seen so far disagree. |
| `AcceptedView.BindingsResolved` | crates/relayer-app-server/src/conversation_export.rs:3227-3245 | True iff every bound id names an input action of the view or of the bound inputs on the same source node. |
| `AcceptedView.ActionPlaced` | crates/relayer-app-server/src/conversation_export.rs:3211-3316 | True iff the action is well formed for the version, is not the root action, starts in its layer with coherent provenance, and navigates only inside the view. |
| `AcceptedView.CheckLayer` | crates/relayer-app-server/src/conversation_export.rs:3176-3335 | Visiting one more layer extends the indexes by exactly its records and returns its navigate targets; a refusal means the view's records are not acceptable, whichever order layers are visited in. |
| `AcceptedView.ClosureDecides` | crates/relayer-app-server/src/conversation_export.rs:3337-3346 | Comparing the two counts decides whether every layer is reachable from the root by navigation. |
| `AcceptedView.ExpandDecides` | crates/relayer-app-server/src/conversation_export.rs:3347-3357 | The recorded adjacency decides expand acyclicity: over the whole view from V3 on, over what the root reaches before V3. |
| `AcceptedView.Explore` | crates/relayer-app-server/src/conversation_export.rs:3162-3357 | The worklist terminates despite repeated entries, never looks up a missing layer, and accepts iff the view is acceptable. |
| `AcceptedView.ValidateAcceptedView` | crates/relayer-app-server/src/conversation_export.rs:3094-3381 | Accepts iff the declarative condition on the view holds. |
| `AcceptedView.AcceptedIsNavigationClosure` | crates/relayer-app-server/src/conversation_export.rs:3162-3346 | An accepted view holds exactly the layers reachable from its root layer by navigate actions. |
| `CallableExamples.CallableAcceptedIff` | crates/relayer-app-server/src/conversation_export.rs:3211-3245 | For any distinct names: a one-layer view with an input and an invoke that binds an id is accepted iff the version is V4, the invoke's text is not blank, and that id is an input on the invoke's own node, in the layer or the header. |
| `Definitions.Register` | crates/relayer-app-server/src/conversation_export.rs:1892-1913 | Registering one definition succeeds iff all definitions seen, with this one, are one per id; the map then holds exactly them. |
| `Definitions.RegisterAll` | crates/relayer-app-server/src/conversation_export.rs:1743-1795 | The same for a list, against the set of everything registered before. |
| `Definitions.RegisterNode` | crates/relayer-app-server/src/conversation_export.rs:1796-1891 | Registering one node copy succeeds iff it agrees with every earlier copy of its id on the base and on each optional part both carry; the kept definition is their union. |
| `Definitions.ConflictHasWitness` | crates/relayer-app-server/src/conversation_export.rs:1796-1891 | A clash with the merged definition is always a clash between two actual copies. |
| `Definitions.RegisterCopies` | crates/relayer-app-server/src/conversation_export.rs:1796-1891 | A list of copies registers iff every two of them agree; the outcome is that of registering them one after another up to the first refusal. |
| `Definitions.MergedIsUnique` | crates/relayer-app-server/src/conversation_export.rs:1796-1891 | The kept definitions are determined by the set of copies they merge. |
| `Definitions.RegistrationIgnoresOrder` | crates/relayer-app-server/src/conversation_export.rs:1796-1891 | Two registration runs over the same copies in different orders are both refused, or end with the same kept definitions. |
| `ExportValidator.ConversionVersionOk` | crates/relayer-app-server/src/conversation_export.rs:934-944 | True iff no action of the turn is converted before V3. |
| `ExportValidator.ContextsOk` | crates/relayer-app-server/src/conversation_export.rs:2708-2762 | True iff context ids, and context targets, are distinct within the turn. |
| `ExportValidator.ContentOk` | crates/relayer-app-server/src/conversation_export.rs:2682-2706 | True iff the turn has nonblank text, a submitted input or a nonblank annotation, or failed or was stopped. |
| `ExportValidator.ValidateHeader` | crates/relayer-app-server/src/conversation_export.rs:1915-2022 | True iff the version is known, the invocations are acceptable, bound inputs come only in V4, well formed and with distinct ids, and the manifest lists between one and the greatest number of turns, distinct and numbered from one. |
| `ExportValidator.ValidateInvocations` | crates/relayer-app-server/src/conversation_export.rs:2024-2248 | True iff invocations come only in V4 and within the count limit, with distinct ids, children and result turns, results among the declared turns, and a returned value iff the invocation succeeded. |
| `ExportValidator.OriginOk` | crates/relayer-app-server/src/conversation_export.rs:2585-2632 | True iff the origin is the user, an invocation in V4, or an invoke of an earlier turn that is unconverted or converted to this turn's root. |
| `ExportValidator.ValidateTurn` | crates/relayer-app-server/src/conversation_export.rs:2344-2660 | True iff contexts, content, origin, the accepted-status and view pairing and the view itself are acceptable after the turns so far. |
| `ExportValidator.InvocationOk` | crates/relayer-app-server/src/conversation_export.rs:979-1025 | True iff the turn and the included invocation that names it as result agree in both directions. |
| `ExportValidator.ConversionOk` | crates/relayer-app-server/src/conversation_export.rs:1026-1039 | True iff a root that earlier turns show converted has one of those conversions as the turn's origin. |
| `ExportValidator.CheckContext` | crates/relayer-app-server/src/conversation_export.rs:1094-1148 | One context is accepted iff its owner is an exact earlier occurrence, its layer has one owner in all, and its id is new to contexts, root actions and layer actions. |
| `ExportValidator.CheckContexts` | crates/relayer-app-server/src/conversation_export.rs:1088-1148 | The same for all contexts of a turn, with the two maps then describing one turn more. |
| `ExportValidator.ViewIdsOk` | crates/relayer-app-server/src/conversation_export.rs:1193-1226 | True iff the view's action ids are no context's, its interaction node is new, and its root action is new and no layer action. |
| `ExportValidator.ConversationExportValidator.CheckTurn` | crates/relayer-app-server/src/conversation_export.rs:912-1056 | The checks made before registration, as conditions on the header, the turns so far and this turn. |
| `ExportValidator.ConversationExportValidator.RegisterRecords` | crates/relayer-app-server/src/conversation_export.rs:1149-1235 | Succeeds iff all definitions of the stream with this turn agree, and then the definition maps describe that stream. |
| `ExportValidator.ConversationExportValidator.Remember` | crates/relayer-app-server/src/conversation_export.rs:1244-1305 | The lineage maps describe the stream with one turn more. |
| `ExportValidator.ConversationExportValidator.PushTurn` | crates/relayer-app-server/src/conversation_export.rs:908-1307 | Accepts iff the turn may follow the turns pushed so far; every field then describes the longer stream. |
| `ExportValidator.ConversationExportValidator.Finish` | crates/relayer-app-server/src/conversation_export.rs:1309-1344 | Accepts iff all declared turns came and every accepted root that is a conversion target has one converting action, its own origin. |
| `ExportValidator.ValidateExportRecords` | crates/relayer-app-server/src/conversation_export.rs:748-781 | Accepts iff the first record is the header, no other is, and the turns after it form an acceptable stream. |
| `ExportValidator.ValidateStream` | crates/relayer-app-server/src/conversation_export.rs:768-781 | Pushing turn by turn and finishing accepts iff the stream satisfies the declarative condition. |
| `StreamTheorems.OneDefinitionAcrossStream` | crates/relayer-app-server/src/conversation_export.rs:1743-1913 | In an admitted stream any two layers, edges or layer actions with one id, in whichever turns, are identical, and any two occurrences of a node agree on their base and on every optional part both carry. |
| `StreamTheorems.ContextShowsItsTarget` | crates/relayer-app-server/src/conversation_export.rs:1149-1168 | A context, in whichever turn, shows its target with the base every view gives that node. |
| `StreamTheorems.NamespacesDisjoint` | crates/relayer-app-server/src/conversation_export.rs:1126-1235 | Root-action, layer-action and context-action ids of all turns are pairwise disjoint, whichever turn comes first. |
| `StreamTheorems.IdsBelongToOneTurn` | crates/relayer-app-server/src/conversation_export.rs:1126-1226 | Root-action, interaction-node and context-action ids of two turns never meet. |
| `StreamTheorems.TwoCopiesAgree` | crates/relayer-app-server/src/conversation_export.rs:1796-1891 | Two copies of a node register together iff they agree on the base and on each optional part both carry. |
| `StreamTheorems.OriginResolvedIff` | crates/relayer-app-server/src/conversation_export.rs:1284-1304 | After admitted turns, an action origin resolves iff some earlier turn of that id holds a layer action of that id that is an unconverted invoke, or one converted to the very root the new turn shows. |
| `StreamTheorems.OccursIff` | crates/relayer-app-server/src/conversation_export.rs:1254-1265 | A context's owner is resolved iff the turn of that id shows the layer with the node among its members. |
| `StreamTheorems.ConvertedOriginIsEarlier` | crates/relayer-app-server/src/conversation_export.rs:1026-1056 | The origin of a turn whose root is a conversion target is a converted invoke standing in a strictly earlier turn. |
| `StreamTheorems.ConvertedLineage` | crates/relayer-app-server/src/conversation_export.rs:1323-1344 | For an accepted root that any turn converts to: one action id converts to it, no other turn has it as root, and the origin is that action in a strictly earlier turn. |
| `StreamTheorems.OneResultPerOrigin` | crates/relayer-app-server/src/conversation_export.rs:1040-1056 | No two turns have the same converted invoke as origin. |
| `StreamTheorems.AcceptedIffOneConversion` | crates/relayer-app-server/src/conversation_export.rs:1309-1344 | For every stream of admitted turns: accepted iff each accepted root that is a conversion target has its own origin action as its only converting action. |
| `LineageExamples.ConvertedTargetMayBeShared` | crates/relayer-app-server/src/conversation_export.rs:1323-1333 | For any distinct identifiers and nonblank text: an accepted stream in which two actions convert to one layer that is no turn's root. |
| `LineageExamples.ResultAcceptedIffUnshared` | crates/relayer-app-server/src/conversation_export.rs:1309-1344 | For any distinct names: a turn whose root is a conversion target follows its converted origin, every turn is admitted, and the finished stream is accepted iff one action converts to that root. |
| `PortableIds.FirstFreeIsFirst` | crates/relayer-app-server/src/conversation_export_service.rs:4192-4206 | The fresh-name search ends at the first unused candidate at or after its start. |
| `PortableIds.CandidateIsPortable` | crates/relayer-app-server/src/conversation_export.rs:3789-3810 | Every allocated name has the form the validator demands of an identifier of its kind, for numbers below 10^100. |
| `PortableIds.NextId` | crates/relayer-app-server/src/conversation_export_service.rs:4192-4206 | Returns the id already given or a fresh one; the map stays injective and only grows. |
| `PortableIds.BindId` | crates/relayer-app-server/src/conversation_export_service.rs:4169-4190 | Binds iff the pair is already there or neither side is taken; a refusal changes nothing, and the map stays injective. |
| `PortableIds.InterleavingsKeep` | crates/relayer-app-server/src/conversation_export_service.rs:4114-4206 | Over any interleaving of bindings and requests every map stays injective and no assigned id ever changes. |
| `PortableIds.BindingFits` | crates/relayer-app-server/src/conversation_export_service.rs:4169-4190 | A binding that some injective extension makes is never refused, and keeps that extension open. |
| `PortableIds.PortableIds.Node` | crates/relayer-app-server/src/conversation_export_service.rs:4123-4125 | The object's state moves by one request on the node map; assigned ids stay. |
| `PortableIds.PortableIds.BindNode` | crates/relayer-app-server/src/conversation_export_service.rs:4136-4143 | The object's state moves by one binding; succeeds iff the pair then stands, and never refuses what a still possible naming needs. |
| `ExportBuilder.ExportAction` | crates/relayer-app-server/src/conversation_export_service.rs:2874-2944 | The exported action is the renaming of the raw one under the maps the call leaves. |
| `ExportBuilder.ExportEdge` | crates/relayer-app-server/src/conversation_export_service.rs:2859-2873 | The same for an edge and its endpoints. |
| `ExportBuilder.ExportLayer` | crates/relayer-app-server/src/conversation_export_service.rs:2686-2778 | The same for a layer with its members, records, placements and edge routes, although ids are allocated in another order than they are read; the renderer is kept iff every exported node keeps its artifact. |
| `ExportBuilder.ExportView` | crates/relayer-app-server/src/conversation_export_service.rs:2209-2228 | The exported closure is one renaming of the whole raw closure under the final maps, which extend the maps found. |
| `Redaction.ExportsEqualIffAlike` | crates/relayer-app-server/src/conversation_export_service.rs:2686-2944 | Two closures exported under the same maps by the same redactor are equal iff they differ only in texts the redactor sends to the same text (bases, faces, inputs, invoke texts and, outside a share, client keys) and in what a share or a missing artifact drops. |
| `Redaction.NothingUnredacted` | crates/relayer-app-server/src/conversation_export_service.rs:2779-2944 | With a redactor that sends every text to one text, no other base, face, input, invoke text or authored key stands in the export. |
| `Redaction.ViewIsSaid` | crates/relayer-app-server/src/conversation_export_service.rs:2686-2944 | Field by field: each exported record has its raw record's fields, ids looked up in the maps and texts passed through the redactor. |
| `RenamingTheorems.RenamedReach` | crates/relayer-app-server/src/conversation_export_service.rs:2209-2228 | An injective renaming preserves and reflects reachability. |
| `RenamingTheorems.RenamedCycle` | crates/relayer-app-server/src/conversation_export_service.rs:2209-2228 | And cycles. |
| `RenamingTheorems.ConnectedRenamed` | crates/relayer-app-server/src/conversation_export_service.rs:2686-2778 | A layer is connected iff its export is. |
| `RenamingTheorems.ExportPreservesShape` | crates/relayer-app-server/src/conversation_export_service.rs:2209-2228 | The exported view has the graph shape the validator demands iff the raw closure has it: membership, layout, endpoints, sources, navigate targets, closure, connectivity, expand cycles. |
| `RenamingTheorems.AcceptedHasShape` | crates/relayer-app-server/src/conversation_export.rs:3094-3381 | Every view the validator accepts has that shape. |
| `RenamingTheorems.SeedAction` | crates/relayer-app-server/src/conversation_export_service.rs:2173-2204 | Seeding one action binds its imported names, and never refuses what a still possible naming needs. |
| `RenamingTheorems.SeedImportedActionIds` | crates/relayer-app-server/src/conversation_export_service.rs:2135-2207 | Succeeds iff some injective extension of the maps gives the imported names; the maps then give them. |
| `RenamingTheorems.ReExportReproduces` | crates/relayer-app-server/src/conversation_export_service.rs:2135-2228 | Export, import, seed, export again: a self-contained closure comes out with the same identifiers, whatever names the maps gain later. |
| `RenamingTheorems.WrittenIsSeeded` | crates/relayer-app-server/src/conversation_export_service.rs:2135-2207 | Whatever the exporter wrote under a naming, that naming gives every imported name, so seeding from it can succeed. |
| `RenamingTheorems.ReExport` | crates/relayer-app-server/src/conversation_export_service.rs:1425-1446 | Binding the interaction node, seeding and exporting again: if the imported view is the self-contained closure written under some naming still open to the maps, every step succeeds and the imported view comes out. |
| `ExportAccepted.ExportAcceptedIff` | crates/relayer-app-server/src/conversation_export_service.rs:2686-2944 | The export of an acceptable closure passes the whole view validation iff redaction blanks no invoke text and collapses no client keys that must stay apart. |
| `ExportAccepted.ShareAccepted` | crates/relayer-app-server/src/conversation_export_service.rs:2874-2944 | A share of an acceptable closure is accepted iff it blanks no invoke text. |
| `ExportAccepted.CollapsedKeysRefused` | crates/relayer-app-server/src/conversation_export.rs:3256-3268 | Outside a share, two keys of one source node redacted to one text make the export unacceptable. |
| `OptionKeys.ClipIsLongest` | crates/relayer-app-server/src/conversation_export_service.rs:4106-4112 | The cut keeps the longest prefix of whole code points within the byte limit. |
| `OptionKeys.BoundedKey` | crates/relayer-app-server/src/conversation_export_service.rs:4106-4112 | Walking back to a character boundary and trimming gives that prefix without trailing whitespace. |
| `OptionKeys.FreshKey` | crates/relayer-app-server/src/conversation_export_service.rs:4085-4104 | The suffix search ends with an unused key of at most 128 bytes without trailing whitespace, and keeps the base when it is free. |
| `OptionKeys.InjectivePortableOptionKeys` | crates/relayer-app-server/src/conversation_export_service.rs:4077-4112 | Every key gets a portable key within bounds, distinct keys get distinct ones, for any redaction, and each is its redacted base cut to the limit, or a prefix of it followed by a tilde and a number. |
| `OptionKeys.ExportSelection` | crates/relayer-app-server/src/conversation_export_service.rs:1907-1969 | Options and selection are mapped by one injective key map and their labels redacted; the selection keeps its choices and count, and one that was acceptable to a control is acceptable to it again. |
| `OptionKeys.ExportedSelectionAccepted` | crates/relayer-app-server/src/conversation_export.rs:2869-2939 | A selection of distinct offered options of an acceptable count passes the validator after export, with its count unchanged. |
| `OptionKeys.ControlsDemand` | crates/relayer-app-server/src/conversation_export.rs:2869-2939 | A single selection is accepted iff it is one offered option; a multiple one needs its minimum, where it has one. |
| `Utf8Order.KeyOrderIsCodePointOrder` | crates/relayer-app-server/src/conversation_export.rs:2909-2920 | The byte order of UTF-8 keys that the exporter sorts by and the validator demands is code-point order. |
| `Decoding.StripInvisibleCodePoints` | crates/relayer-app-server/src/conversation_export_service.rs:3831-3868 | Removes exactly the invisible code points and reports whether there were any. |
| `Decoding.DecodeCssEscapesOnce` | crates/relayer-app-server/src/conversation_export_service.rs:3897-3965 | The index loop computes the token-by-token decoding of CSS escapes and reports whether one fired. |
| `Decoding.PercentDecodeOnce` | crates/relayer-app-server/src/conversation_export_service.rs:3870-3895 | The same for percent escapes, followed by lossy UTF-8 decoding of the bytes. |
| `Decoding.DecodeHtmlCharacterReferencesOnce` | crates/relayer-app-server/src/conversation_export_service.rs:3967-4075 | The same for numeric, named and legacy HTML character references. |
| `Encodings.PercentRoundTrip` | crates/relayer-app-server/src/conversation_export_service.rs:3870-3895 | Percent-encoding every UTF-8 byte of a text, high digit first, is undone in one step. |
| `Encodings.LossyReads` | crates/relayer-app-server/src/conversation_export_service.rs:3870-3889 | The lossy decoder returns a text from its UTF-8 bytes, whatever its code points. |
| `Encodings.LeadSound` | crates/relayer-app-server/src/conversation_export_service.rs:3870-3889 | And nothing ill-formed is read as a character: a lead that is not replaced stands before exactly that character's bytes. |
| `Encodings.CssRoundTrip` | crates/relayer-app-server/src/conversation_export_service.rs:3897-3965 | Six-digit CSS escapes of every character are undone in one step, for texts without NUL. |
| `Encodings.CssShortReads` | crates/relayer-app-server/src/conversation_export_service.rs:3911-3965 | An escape of fewer digits ends with one space, tab or newline, which belongs to it. |
| `Encodings.ReferenceRoundTrip` | crates/relayer-app-server/src/conversation_export_service.rs:3967-4028 | Decimal and hexadecimal references of every character are undone in one step. |
| `Encodings.NamedTokenReads` | crates/relayer-app-server/src/conversation_export_service.rs:4030-4075 | A known name between ampersand and semicolon, in any case, reads as its character. |
| `Encodings.LegacyTokenReads` | crates/relayer-app-server/src/conversation_export_service.rs:3967-4028 | So does a legacy name without a semicolon, when none follows in reach. |
| `Encodings.MarkIsStripped` | crates/relayer-app-server/src/conversation_export_service.rs:3831-3868 | An invisible mark set anywhere into a text is stripped and nothing else changes. |
| `Encodings.InvisibleIsInRange` | crates/relayer-app-server/src/conversation_export_service.rs:3831-3859 | Only the listed ranges of format controls, joiners and variation selectors are invisible. |
| `Decoding.ApplyStep` | crates/relayer-app-server/src/conversation_export_service.rs:3812-3824 | A decoder reports a change iff its output differs from its input. |
| `Decoding.StepShrinks` | crates/relayer-app-server/src/conversation_export_service.rs:3861-4028 | Every decoder returns its input or strictly fewer code points. |
| `Decoding.DecodingSettles` | crates/relayer-app-server/src/conversation_export_service.rs:3166-3194 | Unbounded iteration reaches a fixpoint for every text. |
| `Decoding.SettledForever` | crates/relayer-app-server/src/conversation_export_service.rs:3166-3194 | After a round without change nothing ever changes. |
| `Decoding.DecodeRound` | crates/relayer-app-server/src/conversation_export_service.rs:3171-3188 | One round reports exposure iff some step of it exposes a path, and a change iff the text was not settled. |
| `Decoding.ContainsPrivatePath` | crates/relayer-app-server/src/conversation_export_service.rs:3166-3194 | True iff paths are configured and some number of decoding steps, however large, exposes one, or the rounds ran out before the text settled. |
| `Encodings.PercentEncodedIsExposed` | crates/relayer-app-server/src/conversation_export_service.rs:3166-3194 | A text the raw test accepts is exposed when it is percent-encoded. |
| `Encodings.CssEscapedIsExposed` | crates/relayer-app-server/src/conversation_export_service.rs:3166-3194 | And behind CSS escapes. |
| `Encodings.ReferencedIsExposed` | crates/relayer-app-server/src/conversation_export_service.rs:3166-3194 | And behind decimal or hexadecimal references. |
| `Encodings.OneRoundUnwraps` | crates/relayer-app-server/src/conversation_export_service.rs:3812-3824 | One round undoes CSS escapes inside percent-encoding inside references, because it applies its decoders in that order. |
| `Encodings.NestedIsExposed` | crates/relayer-app-server/src/conversation_export_service.rs:3166-3194 | However deeply a path is wrapped that way, decoding exposes it. |
| `Jsonl.WriteBody` | crates/relayer-app-server/src/conversation_export_service.rs:532-547 | Writes the lines joined by line feeds iff every line and the running total stay within the limits. |
| `Jsonl.DecodeExportJsonl` | crates/relayer-app-server/src/conversation_export.rs:712-746 | Reads one record per line, or reports the file's size or the first bad line under its own number. |
| `Jsonl.SplitOfJoined` | crates/relayer-app-server/src/conversation_export.rs:728-746 | Splitting what was joined returns the lines and one empty piece. |
| `Jsonl.ReaderAcceptsWriter` | crates/relayer-app-server/src/conversation_export.rs:712-746 | What the writer emits the reader reads back, line by line in order; its size checks refuse nothing the writer allowed. |
| `Jsonl.JoinedOfLines` | crates/relayer-app-server/src/conversation_export.rs:728-746 | The lines of any nonempty input, joined, are that input up to a final line feed. |
| `Jsonl.CrLfReadsAlike` | crates/relayer-app-server/src/conversation_export.rs:728-746 | A file with CR LF line ends reads line by line as the same file with bare line feeds. |
| `Archive.FindEnd` | desktop/artifact-office/index.js:166-169 | Finds the last end-record signature in the search window, or shows there is none. |
| `Archive.NoEndIff` | desktop/artifact-office/index.js:160-170 | There is no end to be found iff the four signature bytes stand nowhere in the last 65557 bytes of the file. |
| `Archive.HasZip64` | desktop/artifact-office/index.js:116-122 | True iff the extra field runs past the file or its walk meets the ZIP64 tag, reading only in bounds. |
| `Archive.CheckRecord` | desktop/artifact-office/index.js:181-210 | Accepts a directory record iff it and its local header agree and stay within the file and the caps. |
| `Archive.WalkDirectory` | desktop/artifact-office/index.js:178-212 | Accepts iff every record is acceptable and the total expanded size is within the limit; returns the entries and the offset behind the last record. |
| `Archive.AdjacentDecides` | desktop/artifact-office/index.js:214-219 | Comparing neighbours in offset order decides whether all spans are pairwise disjoint. |
| `Archive.SpansApart` | desktop/artifact-office/index.js:216-219 | The loop over the sorted spans answers exactly that. |
| `Archive.CheckPayload` | desktop/artifact-office/index.js:220-242 | Accepts iff a stored entry declares its own size, or a deflated one expands, chunk by chunk, to exactly its declared size. |
| `Archive.CheckArchive` | desktop/artifact-office/index.js:156-243 | On every byte array it terminates, reads in bounds and accepts iff the archive condition holds; it says "not an Office file" iff a file within the limit has no end signature in the window. |
| `Archive.ReadFits` | desktop/artifact-office/index.js:214-219 | Disjoint spans within the file read at most the file's length in all. |
| `Archive.AcceptedWorkIsBounded` | desktop/artifact-office/index.js:178-219 | In an accepted archive all spans are pairwise disjoint, 30 plus the compressed size summed over entries is at most the file length, and part and total sizes respect their caps. |
| `Archive.AcceptedRecordsTile` | desktop/artifact-office/index.js:171-213 | The directory records tile the range from the declared offset to the end record, whose comment ends at the file's end. |
| `Archive.AcceptedHeadersAgree` | desktop/artifact-office/index.js:181-203 | In an accepted archive, in bytes: every central record and its local header carry their signatures, the same method and name, and the same eight size bytes, or a local header whose descriptor bit is set and whose eight size bytes are zero. |
| `ArchiveWriter.TagsRead` | desktop/artifact-office/index.js:116-122 | Walking an extra field meets exactly the tags of the records written into it. |
| `ArchiveWriter.RecordAccepted` | desktop/artifact-office/index.js:181-210 | The two headers of any written part, with or without a data descriptor, are accepted iff the part is within its limit and carries no ZIP64 record. |
| `ArchiveWriter.DirectoryDecides` | desktop/artifact-office/index.js:170-243 | A written directory is accepted iff every part is within its limit, carries no ZIP64 record and expands to its declared size, and the sizes together are within the limit. |
| `ArchiveWriter.NotedIsAcceptedIff` | desktop/artifact-office/index.js:156-243 | A written archive whose end record and comment do not hold the end signature again is accepted iff it is within the byte limit and its parts are acceptable. |
| `ArchiveWriter.WrittenIsAcceptedIff` | desktop/artifact-office/index.js:156-243 | Without a comment: accepted iff within the limits, with acceptable parts, and count and directory length do not spell the end signature. |
| `ArchiveWriter.DeflatedPartAcceptedIff` | desktop/artifact-office/index.js:200-241 | One deflated part, its sizes in the local header or in a descriptor: accepted iff its data expand to the declared size, whatever the compressed size. |
| `LeaseWorker.StepKeeps` | crates/relayer-app-server/src/app_server.rs:1248-1373 | Every step keeps: a scheduled debt is covered by the pass under way, or a notification is pending. |
| `LeaseWorker.NoLostWakeUp` | crates/relayer-app-server/src/app_server.rs:1303-1373 | Over every interleaving, when the worker is parked with no notification, each debt whose arrival was followed by a schedule call has been settled since. |
| `LeaseWorker.SuccessMeansGone` | crates/relayer-app-server/src/app_server.rs:1248-1293 | In every enabled step, a single-debt call that returns true leaves its own debt gone, whatever happened earlier in the pass. |
| `LeaseWorker.RemovedAfterRelease` | crates/relayer-app-server/src/app_server.rs:1258-1280 | Over every run, a debt the worker removes was read, and exactly its lease released at the provider, earlier in the same call, with no other step of the worker in between. |
| `LeaseWorker.OnlyDebtInHandGoes` | crates/relayer-app-server/src/app_server.rs:1276-1292 | A step of the worker removes no debt but the one in hand, at the lease in hand. |
| `LeaseWorker.ResultIsExact` | crates/relayer-app-server/src/app_server.rs:1255-1293 | A call that is blocked or in which something fails returns false; any other returns whether its debt is gone. |
| `LeaseWorker.UnresolvedIffSomeCallFailed` | crates/relayer-app-server/src/app_server.rs:1359-1367 | Over every interleaving, the pass's unresolved flag is set iff one of the calls since its enumeration returned false. |
| `LeaseWorker.WorkerSettlesEverything` | crates/relayer-app-server/src/app_server.rs:1334-1373 | Left alone without failures, the worker reaches its outer wait with no debt left, from any state whose pass covers every debt or that has a notification pending. |
| `LeaseWorker.ArrivalSettles` | crates/relayer-app-server/src/app_server.rs:1316-1373 | From any state a run can reach with nobody else settling, an arrival followed by a schedule call is settled, with all other debts, by the worker left alone. |
| `LeaseWorker.NotificationsKept` | crates/relayer-app-server/src/app_server.rs:1305-1331 | A schedule call reaches a waiting worker or is kept for its next wait; only a wake-up uses one up. |
| `LeaseWorker.OneHolder` | crates/relayer-app-server/src/app_server.rs:1255-1257 | Over every run nobody else settles the debt that the worker's own call is settling. |
| `Restart.SettledAgrees` | crates/relayer-app-server/src/storage/sqlite/completion_executions.rs:605-706 | Settling with a terminal current's outcome makes the row agree with it: accepted with its output iff it succeeded, otherwise failed, or left stopped, with its reason. |
| `Restart.GraphStep` | crates/relayer-graph-core/src/graph/completion/current.rs:61-100 | No step of the pass, a crash, a late request or a harness changes a terminal current, and receipts stay those of restart failures. |
| `Restart.StepKeeps` | crates/relayer-app-server/src/app_server.rs:724-806 | Every step keeps: the listing ahead is what is still interrupted, the outcome in hand is the graph's, and every row the pass settled agrees with its current. |
| `Restart.CompletedPassAgrees` | crates/relayer-app-server/src/app_server.rs:724-806 | Whatever crashes, failing calls, late failures and surviving harnesses do, a completed pass leaves nothing interrupted, every interrupted execution settled in agreement with a current that is not active, and every other row untouched. |
| `Restart.FailKeepsFinal` | crates/relayer-app-server/src/app_server.rs:776-792 | Failing the active current of an interrupted execution leaves the final stores the same. |
| `Restart.SettleKeepsFinal` | crates/relayer-app-server/src/app_server.rs:793-803 | So does settling one with its current's outcome. |
| `Restart.RestartConverges` | crates/relayer-app-server/src/app_server.rs:724-806 | However often the pass crashes and starts again, a completed pass leaves the final stores of an uninterrupted one, and none completes unless every interrupted execution was recoverable. |
| `Restart.PassCompletesIffRecoverable` | crates/relayer-app-server/src/app_server.rs:724-806 | Await by await, an undisturbed pass reaches its end iff every interrupted execution is recoverable, and then leaves the final stores. |
| `Restart.RecoverableIff` | crates/relayer-app-server/src/storage/sqlite/completion_executions.rs:605-706 | Which interrupted executions are recoverable, field by field of the row and of its current. |
| `Restart.FinalGraphIs` | crates/relayer-app-server/src/app_server.rs:776-792 | In the final graph an active current of an interrupted execution has failed, one revision on, for the restart; every other current is unchanged. |
| `Restart.CommitIsIdempotent` | crates/relayer-graph-core/src/graph/completion/current.rs:61-100 | A restart failure requested again against the same head is taken and changes nothing; against any other head it is refused. |
| `Restart.Stores.Conclude` | crates/relayer-app-server/src/app_server.rs:733-792 | The settlement chosen for an execution is its current's outcome after that current, if active, was failed. |
| `Restart.Stores.Reconcile` | crates/relayer-app-server/src/app_server.rs:724-806 | An undisturbed pass completes iff every interrupted execution is recoverable, then leaves the final stores and counts each execution; stopping early keeps the final stores the same. |
| `CompletionWatch.MoveKeeps` | src/complete.ts:96-120 | Every move of the child, the broker or the client's loop keeps the child's invariant: at most one request, asked after what was seen, whose answer is past it. |
| `CompletionWatch.StepKeeps` | src/complete.ts:131-176 | Every step of the watch keeps all children's invariants and the turn order. |
| `CompletionWatch.EveryAnswerReturnedOnce` | src/complete.ts:122-176 | Over every run, what all calls returned for a child is what its requests answered, in order, without loss or repetition; at most one request is open, and an ended child has none. |
| `CompletionWatch.AnswersIncrease` | src/complete.ts:96-176 | A terminal or failed answer is the child's last and nothing is asked after it; revisions strictly increase from answer to answer. |
| `CompletionWatch.AnswersAreCurrents` | src/complete.ts:96-120 | Over every run, whatever a child is reported with was its own current at some moment of that run. |
| `CompletionWatch.OnlyFailureBreaks` | src/complete.ts:183-197 | An answer is an error iff the request failed. |
| `CompletionWatch.RequestIsAnswered` | src/complete.ts:96-120 | A request about a child that moved past what was seen, or ended, is answered with that very current; about any other child it is held open. |
| `CompletionWatch.EmptyIffSettled` | src/complete.ts:138-165 | A call returns nothing iff the watch was settled as its turn began. |
| `CompletionWatch.SettledMeansEnded` | src/complete.ts:154-169 | The watch is settled iff the last answer returned for every child ended it. |
| `CompletionWatch.TurnNeverStuck` | src/complete.ts:144-165 | One answered request is enough for the turn to go on, whatever its siblings do. |
| `CompletionWatch.NextCallDelivers` | src/complete.ts:137-176 | From any idle watch, a child that ended or moved past what was reported is reported by the next call with its very current, however silent its siblings are; the watch is past that revision then, and has ended the child iff it is no longer active. |
| `ObservationHold.StepKeeps` | crates/relayer-app-server/src/completion_broker.rs:135-210 | Every publish, registration, guard drop, deadline and hold step keeps what the hold knows of its channel. |
| `ObservationHold.HoldLosesNoNews` | crates/relayer-app-server/src/completion_broker.rs:181-202 | In every interleaving the hold answers true iff its channel had carried news by then, and after a false answer the channel carried none before the deadline; for channels whose news stays news. |
| `ObservationHold.TrueMeansNews` | crates/relayer-app-server/src/completion_broker.rs:187-194 | A true answer always rests on a value of the caller's channel whose revision is past the caller's or which is no longer active. |
| `ObservationHold.FalseIffMissable` | crates/relayer-app-server/src/completion_broker.rs:181-202 | For every channel history: some run from a fresh start answers false on it iff the newest timely value, or a late one after it, is no news. |
| `ObservationHold.NewestTimelyDecides` | crates/relayer-app-server/src/completion_broker.rs:187-200 | With nothing late, some run answers false iff nothing came, or the newest revision is not past the caller's and still active. |
| `ObservationHold.NewsInTimeIsSafe` | crates/relayer-app-server/src/completion_broker.rs:181-202 | Where news stays news, timely news is never missed. |
| `ObservationHold.LateValueHidesNews` | crates/relayer-app-server/src/completion_broker.rs:187-200 | A late value that is no news can hide timely news from a hold that had not looked yet. |
| `ObservationHold.InOrderKeepsNews` | crates/relayer-app-server/src/completion_broker.rs:188-194 | In-order publication makes news stay news for every caller. |
| `ObservationHold.NoChannelNoNews` | crates/relayer-app-server/src/completion_broker.rs:183-186 | With no channel the hold reports nothing, and only after the deadline. |
| `ObservationHold.HoldConcludes` | crates/relayer-app-server/src/completion_broker.rs:181-202 | From any reachable state, a hold whose deadline has passed or whose channel was dropped answers within three steps of its own. |
| `ObservationHold.OutOfOrderNewsIsLost` | crates/relayer-app-server/src/completion_broker.rs:181-202 | Wherever the history lets news be missed there is a run, from an empty registry and a hold not yet started, that produces it and answers false. |

## Left out

- AcceptedView.ValidateLayer: leaves out identifier formats, nonblank and length checks of single fields, coordinates, shape and side names, and waypoint counts.
- AcceptedView.CheckLayers: leaves out the same field checks, which only add refusals.
- AcceptedView.ValidateAcceptedView: leaves out identifier formats and the card-description and input-payload checks of an action, which only add refusals.
- ExportValidator.ValidateTurn: leaves out the bodies of submitted inputs, attempt outcomes, model plans and permission receipts; they only add refusals.
- ExportValidator.ConversationExportValidator.CheckTurn: leaves out the comparison with frozen invocation arguments, which only adds refusals.
- ExportValidator.ConversationExportValidator.PushTurn: leaves out submitted-input provenance, visual assets and icon carriers, which only add refusals; says nothing of the fields after a refusal, because callers drop the validator then.
- ExportValidator.ConversationExportValidator.Finish: leaves out invocation currents, bound-input registration, callable snapshots and unreachable assets, which only add refusals.
- ExportValidator.ValidateExportRecords: leaves out visual-asset records.
- Error codes, paths and messages of the validator. Since every omitted check only refuses more, all theorems about accepted streams hold of what the code accepts.
- StreamTheorems.ConvertedLineage: is about layers that are some turn's accepted root, because for others two converting actions are accepted; see ConvertedTargetMayBeShared.
- StreamTheorems.NamespacesDisjoint: covers turn views and contexts, not bound inputs, to which the code does not apply those checks.
- ExportBuilder.ExportAction: takes an accepted action of a supported kind and variant; the refusals of others, and of interaction-context actions (which seeding skips too), are not modelled.
- ExportBuilder.ExportEdge: takes an accepted edge.
- ExportBuilder.ExportLayer: takes an accepted layer; coordinates, shapes and sides are one string copied unchanged.
- ExportBuilder.ExportView: takes a closure whose records are all accepted, and redaction is a given function per text.
- OptionKeys.InjectivePortableOptionKeys: asks that the number of keys fits the source's 64-bit `usize`, which the suffix counter relies on.
- Decoding.ContainsPrivatePath: the raw containment test is a parameter, and so are the configured paths; regex-based scrubbing and the Markdown and HTML projections are not modelled.
- PortableIds.CandidateIsPortable: asks for numbers below 10^100, because a longer numeral would pass the identifier length limit.
- Encodings.CssRoundTrip: leaves out NUL, whose CSS escape is read as the replacement character.
- Encodings.LegacyTokenReads: is about a legacy name with no semicolon within reach; with one, the whole name decides.
- ArchiveWriter: writes no ZIP64 end record, encryption or multi-disk fields, all of which the check refuses or does not read.
- Archive: `readBounded`, the concatenation of response chunks under the same byte limit, and the renderers.
- LeaseWorker.WorkerSettlesEverything: has no clock; a retry delay is one step that may always be taken.
- LeaseWorker, Restart, CompletionWatch and ObservationHold model awaits as steps on values, because the claims are about interleavings; only `Restart.Stores` updates its fields in place.
- Restart: `try_end_agent_child` and `fail_interrupted_recursive_child` for children without a launched execution, the retry schedule around them, timestamps, the permission-origin digest, and the ordering of the listing.
- CompletionWatch.EveryAnswerReturnedOnce: the order of different children's changes within one call is arbitrary in the model; the source uses the order the requests were made in.
- CompletionWatch: `observeResult`, the start and stop requests, and the contents of a current beyond lifecycle and revision.
- ObservationHold.HoldLosesNoNews: speaks of channels whose news stays news; FalseIffMissable covers every other history.
- ObservationHold: the completion registry's tokens and leases.
- SQLite, HTTP, process startup, approval and permission tables, and the evaluation renderer.
