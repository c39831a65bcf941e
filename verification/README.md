# DSQL in Dafny

DSQL compiles a query language to PostgreSQL, publishes versioned artifacts and
keeps a resident daemon for build tools.  This project models the parts of it
whose promises reach over many steps or many functions, and proves those
promises for every input, every run and every interleaving.

- **Publication** (`PublicationModel`, `PublicationSafety`, `BuildDirectory`,
  `StrandedIds`).
  Publishers and pruners contend on one advisory lock and may crash between any
  two file-system effects; an outside process may spoil the pointer file.  The
  protocol is a step relation over a map from paths to texts.  The bodies that
  run under the lock are methods on a mutable directory whose every effect is
  recorded in a ghost trace, and the trace is proved to be a run of the protocol.
- **Cardinality proofs** (`ThreeValuedLogic`, `Cardinality`).  The analysis of
  predicates that decides between an array and a single object, proved sound
  against three-valued logic over arbitrary tables.
- **Dynamic inputs** (`KeyOrder`, `DynamicInput`, `DynamicMeaning`,
  `DynamicMaterialization`, `DynamicRenderer`, `DynamicBlocks`,
  `DynamicTraversal`, `DynamicText`, `DynamicAgreement`, `DynamicMirror`,
  `OperandIdentity`, `TextSearch`, `Decimals`).  The
  recursive renderer with its shared operand vector and cursor is a class; it is
  proved to do what a pure elaboration says.  The elaboration is proved to parse
  back to the meaning of the input tree, to place operands in one block per
  input, to fill the markers of the SQL text as if all at once, and to agree
  between the native and the JavaScript runtime.
- **Bindings** (`DynamicBindings`, `Bindings`).  Defaults, serializers and null identities of
  operation inputs: the host pass before transport and the wire pass after it.
- **Scope graph** (`ScopeGraph`).  Visibility with a seen set, three-colour cycle
  detection, generation targets and the grouping of artifacts.
- **Daemon session** (`ProjectDocuments`, `DaemonSession`, `WarmAgreement`,
  `ResidentSession`).  The resident document set against the cold load of a
  project.
- **Schema directory** (`SchemaStore`).  Staging, promotion and recovery of the
  generated schema directory, with a stop or a failure at any effect.
- **Daemon client** (`DaemonClient`).  Calls served one at a time over sessions
  that may die at any moment.  Every uninterrupted piece of the client's code is
  one method, and any order of them is a run.
- **Catalog types** (`CatalogTypes`).  Memoised resolution of domain chains with
  narrowing mappings.
- **Callsite rewriting** (`Sorting`, `TextSearch`, `Decimals`, `Rewrite`).
- **Editor positions** (`LspPosition`).  UTF-8 and UTF-16 positions and
  delta-encoded tokens, as in the sections "Position" and "Semantic Tokens" of the
  Language Server Protocol 3.17.
- **Match lock** (`DerivedOrder`, `Sorting`, `MatchLock`, `MatchLockFile`).  The
  canonical form of the filter match lock, its assembly over the scope graph and
  its reconciliation with the lock file.

`Wrappers` holds the optional and fallible result types.

## What to know when reading the model

- *Stranded ids.*  The comment at `crates/dsql-generate/src/publish.rs:405-410`
  says that stranded ids are never reused.  That fails in a run of the protocol
  (`StrandedIds.StrandedIdCommitted`): a pruner removes the stranded manifest, and
  the id is committed later.  `BuildDirectory.PruningFreesStrandedIds` says when:
  the id allocated after a complete pruning for generation `g` was on disk before
  exactly when the manifest of `g + 1` was, and without pruning it never was;
  `BuildDirectory.PartialPruningFreesIds` covers a pruning that is cut short.  The
  claims about ids are therefore about committed ids.
- *Null inputs.*  A predicate whose nullable variable is null may evaluate to
  anything.  Operator variables are taken to be non-null, because the check at
  `crates/dsql-core/src/resolution.rs:742-768` looks at the value side only.
- *Site disagreement.*  The two errors about disagreeing sites are possible: a
  scalar and a collection site disagree on an empty array
  (`DynamicAgreement.SitesDisagree`).  They are excluded when the operator kinds
  of the sites go together, and `DynamicAgreement.KindsExact` says which kinds do.
  The error about a gap in the operand vector is excluded always.
- *Operand identity.*  The JavaScript renderer compares reused operands by
  identity, so two equal arrays at different places of an input agree natively
  and not in JavaScript (`OperandIdentity.IdentityDecides`), unless they are one
  array.  Which object stands at which place is a parameter of the model.
  `DynamicMirror.ScriptMatchesNative` has the exact condition; it is computed from
  the elaborations of the value.  The condition that a caller can read off the
  metadata, `DynamicMirror.AgreeingSitesPortable`, is only sufficient.
- *Empty forms.*  `DynamicMeaning.AbsentExactly` says when a predicate renders
  nothing.  `DynamicMeaning.EmptyForms`, `EmptyObjectRenders` and
  `EmptyCollectionRenders` are notes that read single cases off the definitions.
- *Fragments.*  The SQL text of one operator is one token of the precedence
  parser: a fragment of the metadata is taken to bind as one condition, since the
  renderer joins fragments with AND without parentheses around each.
- *Accepted values.*  `crates/dsql-core/src/catalog/capabilities.rs:63-71` speaks
  of narrowing the accepted values, but replaces them:
  `CatalogTypes.PatternDropped` loses a pattern along a chain.
  `CatalogTypes.AcceptanceNarrows` has the exact condition over all ways in which
  patterns may match, and `CatalogTypes.AcceptanceNarrowsUnder` the one for a fixed
  way, under which a stricter pattern narrows without repeating the old one.
- *Warm and cold.*  The agreement of session and cold load needs a disk that is
  still during a batch, a batch that names every changed path or an ancestor, no
  path that switches between file and directory, a match lock that is no
  directory and that no group selects, and two owners for every path that two
  groups select.  `ResidentSession.LockedDocumentStale` and
  `ResidentSession.TwinGroupsDiverge` show what happens without the last two.
- *Lone carriage returns.*  The protocol clamps a position to its own line.
  `crates/dsql-lsp/src/position.rs:27-36` strips CRLF and LF only, so a position
  past the end of a line that ends at a lone carriage return maps to the next
  line; `LspPosition.PositionStaysOnLine` has the exact condition.
- *Last bytes of a line.*  `crates/dsql-lsp/src/position.rs:30-31` slices the last
  two bytes of a line, and the slice may start inside a character, as on a line of
  an accented letter and a line feed (`LspPosition.TailCutsCharacter`).  What the
  rope does with such a slice is not part of this model: there a position has no
  result.  `LspPosition.TailAlignedExactly` says which lines these are, and the
  round trips are claimed for the others.
- *Serializers.*  A serializer that turns a value into null for a field that
  admits no null passes the host pass and fails the wire pass
  (`Bindings.SerializedNullRefused`); `Bindings.SettledTwice` has the exact
  condition.
- *Codecs and hashes.*  JSON and YAML codecs are parameters that read back what
  they print; SHA-256 is a parameter, taken to be injective where only equality
  of hashes is used.

## Model

| member | source | states |
|---|---|---|
| PublicationSafety.PublicationIsSafe | crates/dsql-generate/src/publish.rs:421-588 | In every reachable state of any interleaving of publishers, pruners, crashes and pointer damage, a readable pointer names the newest committed generation; its immutable manifest exists with identical bytes, and every artifact it lists, and every artifact its recorded predecessor lists, exists and hashes to the listed hash |
| PublicationSafety.CommittedIdsIncrease | crates/dsql-generate/src/publish.rs:173-210 | Along every run the commit history only grows and its ids strictly increase, also when the pointer is unreadable between publications |
| PublicationSafety.NewestGenerationSurvives | crates/dsql-generate/src/publish.rs:506-588 | The newest committed generation stays complete in every reachable state, whatever stale pruners do and whatever happens to the pointer |
| PublicationSafety.ManifestsAreImmutable | crates/dsql-generate/src/publish.rs:472-486 | A committed manifest that is still on disk has the bytes it had before |
| PublicationSafety.StepKeeps | crates/dsql-generate/src/publish.rs:98-164 | Every event of the protocol keeps the invariant: request, lock acquisition, one file-system step of the holder, crash, pointer damage |
| PublicationSafety.AllocationIsFresh | crates/dsql-generate/src/publish.rs:432-442 | An id allocated from the disk and the pointer is above every committed id and its manifest is not on disk |
| PublicationSafety.DropKeeps | crates/dsql-generate/src/publish.rs:547-580 | Removing any manifest or artifact that a pruner of the newest commit may remove leaves the newest two generations complete |
| PublicationSafety.PointerNamesNewest | crates/dsql-generate/src/publish.rs:508-510 | A pruner that finds its own generation in the pointer is pruning for the newest commit |
| PublicationSafety.ManifestListsSnapshot | crates/dsql-generate/src/publish.rs:376-404 | The manifest of a snapshot lists exactly the entries of its artifacts |
| BuildDirectory.BuildDirectory.AtomicWrite | crates/dsql-generate/src/publish.rs:132-164 | Success replaces exactly the target; every intermediate moment is a step of the protocol; without an i/o fault it fails exactly when its temporary sibling already exists |
| BuildDirectory.BuildDirectory.GenerationIdsOnDisk | crates/dsql-generate/src/publish.rs:182-210 | Lists exactly the ids of the immutable manifests on disk |
| BuildDirectory.BuildDirectory.NextGeneration | crates/dsql-generate/src/publish.rs:432-442 | One more than the largest id known from disk or pointer, 1 when there is none |
| BuildDirectory.BuildDirectory.StoreArtifact | crates/dsql-generate/src/publish.rs:444-466 | Writes an artifact whose path is free, skips an identical file, refuses a different one as a collision |
| BuildDirectory.BuildDirectory.Commit | crates/dsql-generate/src/publish.rs:468-487 | Writes the immutable manifest and then the pointer, in that order |
| BuildDirectory.BuildDirectory.Publish | crates/dsql-generate/src/publish.rs:421-498 | The whole publication as traced effects: on success exactly the artifacts, the immutable manifest and the pointer are new, with the allocated id and the list of written paths; each error has its cause |
| BuildDirectory.BuildDirectory.CollectRetained | crates/dsql-generate/src/publish.rs:511-538 | The union of the paths listed by the retained manifests, or an abort when one of them cannot be read |
| BuildDirectory.BuildDirectory.Prune | crates/dsql-generate/src/publish.rs:506-588 | Removes only prunable manifests and unretained artifacts, all of them when nothing fails; changes nothing when superseded or when a retained manifest is unreadable |
| BuildDirectory.AllocationIsUnique | crates/dsql-generate/src/publish.rs:432-442 | The allocation rule determines one id, within 64 bits or exactly one past them, and not among the known ids |
| BuildDirectory.PublicationOnlyAdds | crates/dsql-generate/src/publish.rs:443-487 | After a publication the current-manifest file holds it, it is complete, and no existing file other than the pointer changed |
| BuildDirectory.TracedBodyIsSafe | crates/dsql-generate/src/publish.rs:98-127 | A traced publish or prune body performed by the lock holder is a run of the protocol, so every moment of it is safe |
| BuildDirectory.PruningFreesStrandedIds | crates/dsql-generate/src/publish.rs:405-442 | Without pruning the allocated id has no manifest on disk; after a complete pruning for the current generation g it is always g + 1, an id that was on disk exactly when the manifest of g + 1 was, and another id than without pruning exactly when some id above g was on disk |
| BuildDirectory.PartialPruningFreesIds | crates/dsql-generate/src/publish.rs:506-588 | After any pruning, complete or cut short, the allocated id is past every id left on disk, and it was on disk before exactly when its manifest is among those removed |
| StrandedIds.StrandedIdCommitted | crates/dsql-generate/src/publish.rs:405-588 | A run of the protocol in which a publisher crashes with its manifest on disk and no commit, a pruner of the previous generation removes that manifest, and the next publisher commits the same id |
| Cardinality.CollectEqualities | crates/dsql-core/src/resolution.rs:702-768 | The analysis in place, extending the left map for `and` and pruning it for `or`, computes the union and intersection semantics |
| Cardinality.Extend | crates/dsql-core/src/resolution.rs:712-720 | `and` keeps every identity of both operands |
| Cardinality.Restrict | crates/dsql-core/src/resolution.rs:721-732 | `or` keeps exactly the identities both operands guarantee and drops a column left with none |
| Cardinality.EqualitiesHold | crates/dsql-core/src/resolution.rs:702-807 | Soundness under three-valued logic: on any row on which the predicate is true, a mapped column is SQL-equal to each of its identities; a predicate whose nullable variable is null may evaluate to anything |
| Cardinality.UniqueKeyExact | crates/dsql-core/src/resolution.rs:666-689 | A key is returned exactly when the primary key or some unique constraint is covered by the guaranteed equalities |
| Cardinality.UniqueKeyPinsOneRow | crates/dsql-core/src/resolution.rs:666-689 | When a key is returned, at most one row of any table that respects its keys passes the predicate |
| Cardinality.AtMostOneRow | crates/dsql-core/src/resolution.rs:597-664 | A selection shaped at-most-one yields at most one row per parent under any predicate, limit, offset and policy filter |
| Cardinality.ExactlyOneRow | crates/dsql-generate/src/assemble.rs:817-821 | One whose result is also reported non-nullable yields exactly one row |
| DynamicMeaning.RenderingPreservesMeaning | crates/dsql-execute/src/lib.rs:348-523 | Parsing the rendered tokens with NOT over AND over OR precedence, in any right context, and evaluating them against the operand vector gives the meaning of the input tree; absent exactly when nothing is rendered |
| DynamicMeaning.AbsentExactly | crates/dsql-execute/src/lib.rs:348-523 | A predicate that renders is absent, leaving the site its identity text, exactly when the value holds nothing but empty objects under `and`, `not` and fields; any `or` and any operator renders something |
| DynamicMeaning.EmptyGroupRenders | crates/dsql-execute/src/lib.rs:367-410 | Without a present child `and` renders nothing and `or` renders FALSE |
| DynamicMeaning.TreeParses | crates/dsql-execute/src/lib.rs:652-654 | The tokens of a rendered tree parse back to that tree, whatever follows |
| DynamicMaterialization.MarkerReplaced | crates/dsql-execute/src/lib.rs:332-346 | Replacement succeeds exactly when the marker occurs once, and leaves the text around it alone; an empty marker occurs once only natively in an empty text |
| DynamicMaterialization.OrderItem | crates/dsql-execute/src/lib.rs:525-556 | A rendered order has one text per item, in order |
| DynamicMaterialization.OrderFailure | crates/dsql-execute/src/lib.rs:525-556 | A failing order reports the error of its first item that has no rendering |
| DynamicRenderer.Renderer.PlaceOperand | crates/dsql-execute/src/lib.rs:614-650 | Appends at the end of the vector, compares before it, refuses past it; the placeholder number follows the position |
| DynamicRenderer.Renderer.RenderOperator | crates/dsql-execute/src/lib.rs:434-518 | One operator: the operand vector, the cursor and the tokens are those of its elaboration, errors included |
| DynamicRenderer.Renderer.RenderEntry | crates/dsql-execute/src/lib.rs:362-521 | One entry of a predicate object: `and`, `or`, `not` or a field |
| DynamicRenderer.Renderer.RenderPredicate | crates/dsql-execute/src/lib.rs:348-523 | The recursive renderer over the shared vector does what the elaboration of the tree says, in sorted key order |
| DynamicRenderer.Renderer.RenderOrder | crates/dsql-execute/src/lib.rs:525-556 | Rendering an order changes no operand and yields the elaborated text or error |
| DynamicRenderer.Renderer.RenderSite | crates/dsql-execute/src/lib.rs:286-326 | One site, from the input's first operand on; it must end where the first site ended, and its marker must be unique |
| DynamicRenderer.Renderer.RenderSites | crates/dsql-execute/src/lib.rs:286-326 | All sites of one input |
| DynamicRenderer.Renderer.MaterializeInputs | crates/dsql-execute/src/lib.rs:265-330 | The loop over inputs equals the specification fold, and never reports a gap in the operand vector |
| DynamicBlocks.MaterializedVector | crates/dsql-execute/src/lib.rs:265-330 | On success the vector is the untouched fixed prefix followed by one block per input, in input order |
| DynamicBlocks.SiteNamesBlock | crates/dsql-execute/src/lib.rs:265-330 | On success every site of an input emits exactly the placeholders of the input's block, each once and consecutively |
| DynamicBlocks.SiteMeansInput | crates/dsql-execute/src/lib.rs:265-330 | On success the text of every predicate site, parsed and evaluated against the final vector, means what the input value means; an absent value leaves the site identity |
| DynamicBlocks.TreeNumbers | crates/dsql-execute/src/lib.rs:614-650 | A rendered tree names the places of its operands, in order |
| DynamicTraversal.OperandsAscend | crates/dsql-execute/src/lib.rs:359-367 | Operands come in depth-first, sorted-key order, also up to the point of a failure |
| DynamicAgreement.PredicateFollows | crates/dsql-execute/src/lib.rs:348-523 | At two sites whose operator kinds go together the second rendering emits the first one's operands, or a prefix of them before failing |
| DynamicAgreement.KindsExact | crates/dsql-execute/src/lib.rs:449-516 | Two operator kinds go together exactly when no input, field, operator and value make them emit different operands; natively only a scalar kind conflicts with a collection or flag kind |
| DynamicAgreement.SitesDisagree | crates/dsql-execute/src/lib.rs:304-318 | A disagreement, concretely: a scalar and a collection site on an empty array |
| DynamicAgreement.InputsNeverDisagree | crates/dsql-execute/src/lib.rs:265-330 | The two site-disagreement errors cannot happen when the operator kinds that the sites of every input declare go together |
| DynamicMirror.PredicateMirrors | integrations/typescript/src/runtime.ts:590-692 | On keys that sort alike the JavaScript elaboration equals the native one wherever the native one succeeds |
| DynamicMirror.ScriptMatchesNative | integrations/typescript/src/runtime.ts:512-758 | Whenever the native materialiser succeeds on keys that sort alike, the JavaScript one, which counts past the fixed parameters and compares reused arrays and objects by identity, succeeds exactly when every input has a contract and every site a marker and, operand by operand, the arrays and objects of the first site; then it gives the same SQL text and the same operand values, whichever objects the caller shares between places |
| DynamicMirror.AgreeingSitesPortable | integrations/typescript/src/runtime.ts:512-758 | Sites with markers whose operator kinds go together meet that condition, whichever objects are shared: the sufficient condition that the metadata shows |
| OperandIdentity.IdentityDecides | integrations/typescript/src/runtime.ts:744-757 | An input on which the native materialiser succeeds and the JavaScript one fails: two sites with swapped operator kinds and two empty arrays; the JavaScript one succeeds exactly when one array stands at both places |
| DynamicText.SqlFilled | crates/dsql-execute/src/lib.rs:265-346 | When the markers stand at gaps of the original text and cannot overlap themselves, the final SQL is the original text with all gaps filled at once, although markers are replaced one after another in a text that already holds rendered sites |
| DynamicText.TextPlaced | crates/dsql-execute/src/lib.rs:265-330 | The gap of each site is filled with that site's text, its placeholders counting from its own input's block |
| KeyOrder.OrdersAgree | integrations/typescript/src/runtime.ts:601-601 | The code-point order and the UTF-16 order agree on two keys exactly when it is not the case that at their first difference one character is beyond the basic plane and the other in U+E000 to U+FFFF |
| KeyOrder.KeysSortAlike | integrations/typescript/src/runtime.ts:601-601 | The two renderers visit a key set in one order exactly when no two of its keys are such a pair |
| KeyOrder.BasicUncrossed | integrations/typescript/src/runtime.ts:601-601 | Keys within the basic plane are never such a pair |
| KeyOrder.OrdersDiffer | integrations/typescript/src/runtime.ts:601-601 | Such a pair, concretely |
| Bindings.SetAt | integrations/typescript/src/runtime.ts:1304-1334 | A path can be set exactly when its lookup meets objects only, and then it holds the new value |
| Bindings.SetApart | integrations/typescript/src/runtime.ts:1309-1372 | Setting a path changes no lookup at a path apart from it |
| Bindings.SetSame | integrations/typescript/src/runtime.ts:1309-1372 | Setting the value already there changes nothing |
| Bindings.MaterializeField | integrations/typescript/src/runtime.ts:892-939 | The assignments for one field, one by one, amount to storing what the field settles to |
| Bindings.FieldPassAt | integrations/typescript/src/runtime.ts:892-939 | One field holds what it settles to, no path apart from it changes, and nothing at all changes when it already holds that |
| Bindings.MaterializeBindings | integrations/typescript/src/runtime.ts:886-942 | The loop over fields is the fold of the single steps, with the first error |
| Bindings.MaterializeDynamicBindings | integrations/typescript/src/runtime.ts:968-994 | The loop over dynamic inputs likewise |
| Bindings.PassSettles | integrations/typescript/src/runtime.ts:886-942 | Over independent paths a pass settles every field from the original bindings and changes no other path, or fails with the first field that does not settle |
| DynamicBindings.PredicateFormTwice | integrations/typescript/src/runtime.ts:996-1109 | The wire side leaves the wire form of a dynamic predicate as it is |
| Bindings.SettledTwice | integrations/typescript/src/runtime.ts:886-942 | What a pass left is left alone by the wire pass, except exactly when a serializer produced a null its field does not admit; then the wire pass fails |
| Bindings.WirePassAfter | integrations/typescript/src/runtime.ts:886-942 | Bindings that went through a pass go through the wire pass unchanged, exactly when no serializer produced a null that its field does not admit; otherwise the wire pass fails |
| Bindings.MaterializeOperation | integrations/typescript/src/runtime.ts:391-408 | The ordinary inputs in one loop, then the dynamic ones in another: together both passes over the variables, with the first error |
| Bindings.HostThenWire | integrations/typescript/src/runtime.ts:349-407 | A whole operation, with its ordinary and its dynamic inputs: variables materialized for transport pass the executor's two wire passes unchanged, exactly when no serializer produced a null that its field does not admit; otherwise those passes fail |
| Bindings.SerializedNullRefused | integrations/typescript/src/runtime.ts:886-942 | An operation on which they fail: its serializer turns a value into null, the host passes return that null, and the wire passes refuse it |
| Bindings.ContextKeepsVariables | integrations/typescript/src/runtime.ts:366-370 | Passing the trusted context afterwards changes no public variable |
| ScopeGraph.VisibleIsReachable | crates/dsql-core/src/source.rs:470-492 | The visible scopes are exactly the reachable ones, each once, the start first |
| ScopeGraph.VisibilitySearch.Collect | crates/dsql-core/src/source.rs:471-486 | The recursive search with a seen set computes the preorder, and terminates |
| ScopeGraph.CycleSearch.Visit | crates/dsql-core/src/source.rs:509-538 | Visiting a scope finishes it, or returns a real cycle; scopes marked visiting are exactly those on the stack |
| ScopeGraph.CycleSearch.VisitImports | crates/dsql-core/src/source.rs:519-536 | Finishes every import of the scope, or returns a real cycle |
| ScopeGraph.CycleSearch.ImportCycle | crates/dsql-core/src/source.rs:502-548 | None exactly when the graph is acyclic; otherwise a closed walk of import edges that repeats no scope before it closes |
| ScopeGraph.TargetSeesScope | crates/dsql-core/src/source.rs:451-465 | In an acyclic graph every configured scope is reached from some generation target |
| ScopeGraph.ArtifactReachesTarget | crates/dsql-generate/src/pipeline.rs:226-247 | In an acyclic graph every artifact is a member of some generation target's group |
| ProjectDocuments.CoversPath | crates/dsql-core/src/source.rs:420-435 | A group covers a path when one of its configured entries does, directories covering what is below them |
| ProjectDocuments.OwnershipOf | crates/dsql-core/src/source.rs:388-415 | Exactly the set of owning assignments decides between unowned, unique and ambiguous |
| ProjectDocuments.OwnershipMeans | crates/dsql-core/src/source.rs:388-415 | Unique names the one owning assignment; ambiguous means two or more |
| ProjectDocuments.LoadDocuments | crates/dsql-project/src/documents.rs:41-128 | The cold load returns exactly the selected, unreserved files with their group and text, and fails only on a contested file |
| ProjectDocuments.CollectConfiguredPath | crates/dsql-project/src/documents.rs:167-244 | The work-stack walk from the static prefix of a configured path, pruned at reserved roots, finds exactly the unreserved matching files, and terminates |
| ProjectDocuments.SelectedFiles | crates/dsql-project/src/documents.rs:98-118 | The files one group selects: those below each of its configured paths, without reserved ones |
| ProjectDocuments.DocumentsUnique | crates/dsql-project/src/documents.rs:41-96 | A disk determines its documents |
| DaemonSession.LoadProject | crates/dsql-project/src/documents.rs:32-96 | Loading succeeds exactly when the disk has a project that loads |
| DaemonSession.RelevanceOf | crates/dsql-daemon/src/session.rs:558-592 | Relevant exactly when resident or owned by one assignment; ambiguous exactly when it is not resident and two own it |
| DaemonSession.ScanDirectory | crates/dsql-daemon/src/session.rs:493-530 | One directory: exactly its fresh files and its open subdirectories, unless a file is ambiguous |
| DaemonSession.ChangedFilesUnder | crates/dsql-daemon/src/session.rs:493-530 | The work-stack walk finds exactly the fresh files below a directory, or reports an ambiguous one exactly when there is one |
| DaemonSession.ClassifyPath | crates/dsql-daemon/src/session.rs:337-460 | One batch path: reload exactly on a trigger, else exactly its fresh files |
| DaemonSession.ClassifyBatch | crates/dsql-daemon/src/session.rs:337-460 | The plan: full reload exactly when some path triggers one, otherwise exactly the fresh files of all paths, and the match-lock change |
| DaemonSession.UpsertAll | crates/dsql-daemon/src/session.rs:968-1015 | Every upserted path holds the text that was read, with its current owner; every other document is untouched |
| WarmAgreement.ProjectUnchanged | crates/dsql-daemon/src/session.rs:337-460 | When nothing triggers a reload, configuration and catalog files did not change |
| WarmAgreement.ChangedUpserted | crates/dsql-daemon/src/session.rs:337-460 | Every changed file with an owner has been upserted |
| WarmAgreement.RemovedUnknown | crates/dsql-daemon/src/session.rs:477-487 | When nothing triggers a reload, a file that is gone was not resident |
| WarmAgreement.WarmIsCold | crates/dsql-daemon/src/session.rs:646-689 | The documents after an incremental batch are those of a cold load of the new disk |
| ResidentSession.Session.Reload | crates/dsql-daemon/src/session.rs:646-689 | A reload makes the session agree with the disk; a failed one means that no project loads |
| ResidentSession.Session.Apply | crates/dsql-daemon/src/session.rs:646-689 | An incremental plan changes exactly the upserted documents; the lock hash follows the plan |
| ResidentSession.Session.Serve | crates/dsql-daemon/src/session.rs:220-278 | The answer holds the resident documents; it is replayed exactly for a batch without effect after an earlier answer |
| ResidentSession.Session.Compile | crates/dsql-daemon/src/session.rs:220-278 | An explicit compile agrees with the disk, whatever was resident |
| ResidentSession.Session.FilesChanged | crates/dsql-daemon/src/session.rs:337-460 | A batch that names every changed path or an ancestor of it keeps the session in agreement with the disk; an invalid path changes nothing |
| ResidentSession.Run | crates/dsql-daemon/src/session.rs:337-592 | For every run of reported edits the session ends with exactly the documents and configuration that a cold load of the last disk gives |
| ResidentSession.LockedDocumentStale | crates/dsql-daemon/src/session.rs:368-386 | Where the assumption on the match lock is needed: a lock file that some group selects goes stale with every change of it, created, edited or removed |
| ResidentSession.TwinGroupsDiverge | crates/dsql-project/src/documents.rs:98-128 | Where the assumption on groups is needed: a new path that two groups select and that has one owner is contested in a cold load, but the session takes it |
| SchemaStore.SchemaStore.Recover | crates/dsql-project/src/metadata.rs:185-204 | Recovery leaves the recoverable directory live, and no stop during it loses that directory |
| SchemaStore.SchemaStore.RemoveAll | crates/dsql-project/src/metadata.rs:129-144 | A removal that may stop half-way never touches what recovery would restore |
| SchemaStore.SchemaStore.WriteContents | crates/dsql-project/src/metadata.rs:215-257 | Writes the complete directory of the catalog, or fails beside an untouched live directory |
| SchemaStore.SchemaStore.Stage | crates/dsql-project/src/metadata.rs:122-148 | A complete staged directory beside a live one that recovery still restores |
| SchemaStore.SchemaStore.Promote | crates/dsql-project/src/metadata.rs:149-181 | Up to the second rename recovery restores the old directory, from it on the new one; a failed promotion puts the old one back |
| SchemaStore.SchemaStore.Store | crates/dsql-project/src/metadata.rs:109-181 | At every moment recovery yields the old directory before promotion and the complete new one after it; success means promoted |
| SchemaStore.StoreOnce | crates/dsql-project/src/metadata.rs:109-181 | Whatever a store leaves, at any stop, recovery turns into the old or the complete new directory |
| SchemaStore.NeverAMixture | crates/dsql-project/src/metadata.rs:109-204 | After any number of interrupted stores recovery finds the first directory or one of the complete stored ones |
| DaemonClient.DaemonClient.Send | integrations/typescript/src/daemon.ts:464-487 | Refuses a dead session, an overlapping request and exhausted ids; otherwise takes the next id and makes it the one pending request |
| DaemonClient.DaemonClient.ScheduleBackoff | integrations/typescript/src/daemon.ts:367-370 | The delay doubles up to 8 s and stays on the ladder |
| DaemonClient.DaemonClient.Call | integrations/typescript/src/daemon.ts:216-233 | Refused once shut down, otherwise numbered and queued behind the earlier calls |
| DaemonClient.DaemonClient.CallShutdown | integrations/typescript/src/daemon.ts:241-244 | Closes the client and queues a shutdown |
| DaemonClient.DaemonClient.FinishRestart | integrations/typescript/src/daemon.ts:251-256 | Reopens the client with the initial backoff and no deadline |
| DaemonClient.DaemonClient.StartTask | integrations/typescript/src/daemon.ts:287-326 | Tasks leave the queue in call order, one at a time |
| DaemonClient.DaemonClient.Spawn | integrations/typescript/src/daemon.ts:328-338 | A new session is current, sends initialize, and invalidates nothing yet |
| DaemonClient.DaemonClient.ContinueInitialize | integrations/typescript/src/daemon.ts:330-359 | After initialize: ready, or dropped with at most one backoff; an unsupported version is fatal for good |
| DaemonClient.DaemonClient.SendRequest | integrations/typescript/src/daemon.ts:297-312 | A request on an ensured session never overlaps another |
| DaemonClient.DaemonClient.ContinueRequest | integrations/typescript/src/daemon.ts:297-312 | The call settles with its reply; a result or an ordinary error resets the backoff, an internal error or a loss does not |
| DaemonClient.DaemonClient.StartShutdown | integrations/typescript/src/daemon.ts:258-285 | Drops the current session; without one the call settles at once |
| DaemonClient.DaemonClient.FinishShutdown | integrations/typescript/src/daemon.ts:258-285 | A shutdown settles however the daemon answered |
| DaemonClient.DaemonClient.Settle | integrations/typescript/src/daemon.ts:422-462 | A pending promise settles once, and only its own session changes |
| DaemonClient.DaemonClient.Fail | integrations/typescript/src/daemon.ts:495-515 | Rejects the pending request, drops the session, backs off and invalidates caches, at most once per session; nothing for a session that failed before |
| DaemonClient.DaemonClient.Receive | integrations/typescript/src/daemon.ts:422-462 | The matching reply settles the pending request; a malformed or foreign line, and an internal error, fail the session; a dead session is ignored |
| DaemonClient.DaemonClient.Exit | integrations/typescript/src/daemon.ts:394-407 | An exit marks the session dead and fails it unless it was closing |
| DaemonClient.DaemonClient.OutputClosed | integrations/typescript/src/daemon.ts:412-418 | A closed output fails a session that is neither dead nor closing |
| DaemonClient.DaemonClient.WriteFailed | integrations/typescript/src/daemon.ts:475-486 | A failed write rejects its request unless it already settled |
| DaemonClient.DaemonClient.Step | integrations/typescript/src/daemon.ts:200-515 | Every piece of the client's code keeps the protocol invariant, history only grows, and the backoff goes back to 250 ms exactly when a call ends with a health signal or a restart completes; otherwise it stays or doubles up to its cap |
| DaemonClient.CallQueued | integrations/typescript/src/daemon.ts:287-295 | A new call is the last one of the calls in order |
| DaemonClient.CallStarted | integrations/typescript/src/daemon.ts:287-295 | The call that runs next is the oldest one queued |
| DaemonClient.CallEnded | integrations/typescript/src/daemon.ts:287-295 | The call that settles next is the running one |
| DaemonClient.Run | integrations/typescript/src/daemon.ts:200-515 | In every interleaving requests never overlap, ids strictly increase, the k-th call to settle is the k-th call made, with its kind, caches are invalidated at most once per session, and the backoff starts at 250 ms, goes back to it exactly at an event at which a call ends with a health signal or a restart completes, and otherwise only stays or doubles up to 8000 ms |
| CatalogTypes.ApplyMapping | crates/dsql-project/src/catalog_types.rs:188-279 | The in-place mapping, check by check, equals its specification, with the error of the first failing check |
| CatalogTypes.MappingNarrows | crates/dsql-core/src/catalog/capabilities.rs:111-129 | A mapping only takes operators and ordering away, and keeps the wire encoding |
| CatalogTypes.AcceptanceNarrows | crates/dsql-core/src/catalog/capabilities.rs:63-71 | A mapping replaces the accepted literal kinds and the pattern, so however patterns match it accepts no more than before exactly when it names an accepted kind and repeats the pattern, if there was one |
| CatalogTypes.AcceptanceNarrowsUnder | crates/dsql-core/src/catalog/capabilities.rs:43-71 | With one way of matching fixed, it accepts no more exactly when every valid text that its own pattern lets through is of an accepted kind and passes the pattern it replaces |
| CatalogTypes.ChainAcceptance | crates/dsql-project/src/catalog_types.rs:165-183 | However patterns match, along a chain a domain accepts no more than its base exactly when it has no mapping, or one that repeats the base's kind and pattern |
| CatalogTypes.PatternDropped | crates/dsql-project/src/catalog_types.rs:165-183 | Two mappings along a chain of which the second drops the pattern of the first |
| CatalogTypes.PlainNarrows | crates/dsql-core/src/catalog/capabilities.rs:97-107 | Along a chain a resolved type narrows its own baseline and its base's resolution, and has its chain end's wire encoding |
| CatalogTypes.ResolutionIsPlain | crates/dsql-project/src/catalog_types.rs:131-186 | On a chain that ends, cycle detection changes nothing |
| CatalogTypes.ResolutionExact | crates/dsql-project/src/catalog_types.rs:131-186 | Resolution succeeds exactly on a chain that ends and whose mappings all apply, with the result of the plain recursion |
| CatalogTypes.Resolver.ResolveCapabilities | crates/dsql-project/src/catalog_types.rs:131-186 | The memoised three-state recursion reports what the unmemoised one does, and every remembered type holds its resolution |
| CatalogTypes.ApplyCatalogTypes | crates/dsql-project/src/catalog_types.rs:103-129 | All types in turn: the result and the error are those of resolving every type on its own |
| CatalogTypes.CatalogNarrows | crates/dsql-project/src/catalog_types.rs:103-186 | In a resolved catalog every chain ends and every type narrows its baseline and its base and has its chain end's encoding |
| CatalogTypes.CycleNeverEnds | crates/dsql-project/src/catalog_types.rs:139-156 | A chain that comes back to where it started never ends, so it is never resolved |
| Rewrite.SourceOrderFound | integrations/typescript/src/rewrite.ts:154-154 | However the ranges are listed, ranges that do not overlap are brought into source order |
| Rewrite.SpliceReplaces | integrations/typescript/src/rewrite.ts:155-167 | Splicing one more range in front is replacing it together with the later ones |
| Rewrite.SpliceAll | integrations/typescript/src/rewrite.ts:154-167 | Descending in-place splicing equals replacing all ranges at once on the original bytes, and fails exactly when a range exceeds them |
| Rewrite.FreshName | integrations/typescript/src/rewrite.ts:123-128 | The first candidate that neither occurs in the source nor is taken; the search ends because a source has finitely many substrings |
| Rewrite.Rewriter.LocalFor | integrations/typescript/src/rewrite.ts:116-131 | One fresh local name per module, chosen once |
| Rewrite.Rewriter.CollectSplices | integrations/typescript/src/rewrite.ts:133-152 | A splice per expression, the modules each once, and an error exactly for an unmapped target |
| Rewrite.Rewriter.Rewrite | integrations/typescript/src/rewrite.ts:103-188 | Original bytes with all ranges replaced at once and one import block at the prologue; local names pairwise distinct and absent from the source |
| LspPosition.TailAlignedExactly | crates/dsql-lsp/src/position.rs:27-36 | The two bytes before the end of a line are a slice of characters exactly on an empty line and on one whose last character has two bytes, or one byte and is alone or behind a one-byte character |
| LspPosition.TailCutsCharacter | crates/dsql-lsp/src/position.rs:27-36 | A line on which they are not: an accented letter and a line feed |
| LspPosition.StripTerminator | crates/dsql-lsp/src/position.rs:27-36 | Where the last two bytes are a slice, the line's content ends before its LF or CRLF as they show; elsewhere there is no result |
| LspPosition.PositionToByte | crates/dsql-lsp/src/position.rs:18-41 | The clamped computation equals its specification on every line whose last two bytes are a slice, and has no result on the others |
| LspPosition.PositionRoundTrip | crates/dsql-lsp/src/position.rs:10-41 | Going to a position and back, where the line's last two bytes are a slice, is the identity except exactly between CR and LF, where it steps before the CR |
| LspPosition.ByteRoundTrip | crates/dsql-lsp/src/position.rs:10-41 | On byte offsets of UTF-8 the round trip returns the offset exactly on a line whose last two bytes are a slice and not between CR and LF, and has no result exactly on the other lines |
| LspPosition.PositionStaysOnLine | crates/dsql-lsp/src/position.rs:18-41 | Where it has a result, a position maps to its own line exactly unless it lies past the end of a line that ends at a lone carriage return |
| LspPosition.LoneReturnLeaks | crates/dsql-lsp/src/position.rs:27-36 | Such a position, concretely |
| LspPosition.EncodeNext | crates/dsql-lsp/src/position.rs:73-103 | One more token: no delta is negative, and decoding gives it back |
| LspPosition.EncodeSemanticTokens | crates/dsql-lsp/src/position.rs:73-103 | Decoding the stream encoded from span-sorted tokens gives exactly the non-empty single-line tokens |
| DerivedOrder.JoinedOrder | crates/dsql-generate/src/match_lock.rs:24-48 | Joined codes of fields order as derived field-by-field comparison does |
| DerivedOrder.StringOrder | crates/dsql-generate/src/match_lock.rs:24-48 | Strings order by code points |
| MatchLock.FiltersPrefixFree | crates/dsql-generate/src/match_lock.rs:24-48 | The derived order tells any two different filters apart |
| MatchLock.FilterMatchLock.Canonicalize | crates/dsql-generate/src/match_lock.rs:66-75 | In place, filter by filter, the lock becomes its canonical form |
| MatchLock.CanonicalLockExact | crates/dsql-generate/src/match_lock.rs:66-75 | Two locks of one version have one canonical form exactly when they denote the same nested sets |
| MatchLock.CanonicalKeepsDenotation | crates/dsql-generate/src/match_lock.rs:66-75 | Canonicalizing changes no denoted filter |
| MatchLock.CanonicalLockIdempotent | crates/dsql-generate/src/match_lock.rs:66-75 | Canonicalizing twice is canonicalizing once |
| MatchLock.AssembleFilterMatchLock | crates/dsql-generate/src/match_lock.rs:133-197 | The assembly loops build the specified lock |
| MatchLock.AssembledExact | crates/dsql-generate/src/match_lock.rs:133-197 | The assembled lock is canonical and pins exactly the filters each scope sees through its imports |
| MatchLock.PinnedMatches | crates/dsql-generate/src/match_lock.rs:160-178 | A pin matches exactly the catalog tables among the entry's targets, each with the entry's fields |
| MatchLockFile.MatchLockFile.Reconcile | crates/dsql-generate/src/publish.rs:256-360 | Update leaves the wanted content and says whether it changed; Locked changes nothing and accepts exactly the matching content; a newer version is never touched; each refusal has its cause |
| MatchLockFile.LockedAfterUpdate | crates/dsql-generate/src/publish.rs:256-360 | With a faithful codec, after an Update with a lock, Locked accepts exactly its canonical form |
| MatchLockFile.RewrittenWhenPinsDiffer | crates/dsql-generate/src/publish.rs:303-317 | Two updates write the same content exactly when their locks denote the same sets |
| MatchLockFile.BuildAccepted | crates/dsql-generate/src/publish.rs:256-360 | A build is accepted against the lock of another one exactly when every scope sees the same filters with the same matches |

## Left out

- Real files, sockets, processes, timers and async scheduling: their effects are atomic steps, events and parameters.
- The bowl engine, the parser, the formatter, the plan builder, the SQL generator and catalog lookup: columns, tables and documents are maps and parameters.
- Path spellings of the build directory: paths are a datatype, except for the artifact address, whose truncation makes collisions possible.
- Lock polling and its deadline: a publisher acquires the lock at some step or never does.
- The reconciliation of the match lock inside a publication: it is one step of the publication body that succeeds or fails, and `MatchLockFile` models it on its own.
- Warnings about failed removals while pruning, and the generator outputs that other tools write.
- Result shapes other than rows and their nullability: aggregates, result metadata and the field walk of `crates/dsql-generate/src/assemble.rs`.
- Path resolution, clause collection and existence predicates of `crates/dsql-core/src/resolution.rs`: they feed the analysis with resolved columns.
- Binding of parameters to PostgreSQL types and scalar validation: validation is a predicate of the input.
- Paths in error values are structured steps instead of dotted texts.
- `Bindings.MaterializeBindings`: a path has at least one part and the empty path text is not modelled, members with the value `undefined` count as missing, and properties inherited from the JavaScript object prototype are not modelled.
- `DynamicBindings.PredicateFormTwice`: an object has no entry order, so which of several invalid entries is reported first is not modelled.
- `Rewrite.Rewriter.Rewrite`: the prologue offset, UTF-8 encoding and the quoting of specifiers are parameters, and a module is identified by the pair of its path and export.
- `LspPosition.PositionToByte`: there is no result on a line whose last two bytes do not start at a character, because what the rope does with such a slice is not part of this model; the conversion of lines and columns to 32 bits is not modelled.
- `ProjectDocuments.CollectConfiguredPath`: the recursion over a plain directory is the same work-stack walk as for a pattern, and matching below the static prefix is a parameter.
- Symbolic links, unreadable files and non-UTF-8 file contents in the project directory.
- `ResidentSession.Session.FilesChanged`: documents are a map from paths, so the order in which upserts are applied is not visible; the artifact publication after a batch is not repeated here.
- Concurrent writers of the schema directory: that code takes no lock, so one writer with stops is modelled; metadata canonicalization and the load of a stored directory are not.
- Validation of catalog type declarations (names, patterns, duplicate provider keys): type ids are indices and mappings are given.
- `CatalogTypes.ApplyMapping`: capabilities are values that the mapping replaces, where the original mutates one record; comparison operators of the provider are part of the given baseline.
- The timeout of a shutdown is an event; killing a process and its standard error are not modelled.
- `MatchLockFile.MatchLockFile.Reconcile`: the trimming of line ends after printing is part of the codec, and message texts are not modelled.
- The overlay, the CLI, diagnostics, editor request handlers, the grammar and the TypeScript declarations.
