# A model of creidhne's reconciling, tracking and drawing

creidhne renders Podman Quadlet units from CUE and reconciles them against a directory. This project models the parts
of it whose guarantees take an argument, and proves them:

- **Layers of the drawio pages** (`Digraph`, `Tarjan`, `Components`, `Layering`). The component pass is a class whose
  fields are the maps, the stack and the counters of the recursive closure; it numbers strongly connected components
  in reverse topological order. Relaxation over the component numbers ends, and its result is the longest-path layering.
- **Plan and apply on a directory** (`FileTree`, `Reconcile`, `WriteOps`, `Prune`, `Passes`, `Clearing`, `Delivery`,
  `Recording`, `Apply`, `Nested`). The disk is a mutable tree of files and directories. Apply, with the recording of the state at its
  end, succeeds exactly on the trees that a predicate on the tree and the desired files names, and changes nothing
  foreign. When it succeeds, the tree has the desired files and no others in its care, and applying again changes
  nothing at all, exactly when no desired path lies below another.
- **Recorded state** (`History`, `StateFile`, `Ownership`). The state file after a run of applies, some of which did not
  write it, is a capped view of an append-only log: of each file, the log since its quadlet last took it over.
- **Tracked transitions** (`Settle`, `Lifecycle`). The settle clock of a unit, the poll loop, and what success means.
- **Compose variables** (`VarScan`, `VarTokens`, `Variables`, `CueString`, `RawScan`, `Keymap`). Tokens with nested braces, their
  rewriting into CUE interpolation that reads back as what the string meant, and the unique CUE field names.
- **The dependency graph** (`DepGraph`, `GraphReduce`, `Blocked`). Building it, folding builds into labels, and finding
  the nearest failed dependency.
- **Shelf pages** (`Drawio`, `Pages`, `Seating`, `ShelfPages`). Boxes on shelves that never overlap, on pages that show
  every unit once, in the box of its stack.
- **Algorithms with a specification of their own** (`EditDistance`, `Registry`, `RestartSpan`).

Code that changes state step by step is modelled by methods with loops, on classes or arrays where the source has them.
Answers of systemctl, the clock, the tag list of a registry and the fields of evaluated units are inputs.

Places where a promise fails are stated with the input, and with the condition under which it holds.

Three of them the commands themselves can meet:

- Keys of a build context may nest, as `conf` and `conf/app.toml` do: the schema takes any keys, and the renderer refuses
  only equal and escaping paths. Apply then never converges. It succeeds every time and changes the directory every time
  (`Nested.NeverSettles`), or, where the first path below another is not directly inside it, fails
  (`Clearing.FreshFeasible`, `Nested.NestedContext`). Apply converges exactly when no desired path lies below another
  (`Apply.Apply`, `Passes.ConvergedPrefixFree`).
- Earlier records are found by quadlet, and later looked up by path. When a file moves to another quadlet its history is
  forgotten, and it shows as changed although its content is the same (`Ownership.TakeoverForgets`, with the exact
  conditions in `Ownership.StaleByPath` and `Ownership.AnswerByPath`).

- The importer writes strings with `strconv.Quote`, which puts control characters without a letter, and delete, as bytes
  (`\x01`). CUE has such escapes in byte literals, with single quotes, and not in strings. The emitted text then does not
  read; without such characters it always reads back (`CueString.QuoteReads`, `Variables.Rewrite`).

Two are failures of functions on inputs that their callers could pass, but that apply does not:

- An `images` entry that is a file stops the passes for some desired files (`Apply.BlockedImages`). What the command
  renders is never among them: the schema has a build context only beside a non-empty Containerfile, which comes before
  the context by name and clears `images` (`Apply.RenderedApplicable`).
- A revision with empty content is not kept in the history, so that the answer for its time can be wrong
  (`History.EmptyContentIsLost`, with the exact condition in `History.WrongIff`). No unit file renders empty: each
  template begins with the text of its unit and a line break (line 1 of `templates/*.tpl`), so the command gets
  the answers of `History.NeverWrong` and `Ownership.AnswerByPath`.

## Model

| member | source | states |
|---|---|---|
| `Digraph.ReachTrans` | internal/cli/graphdrawio.go:215-217 | Reachability composes, so that "mutually reachable" is the relation the components are the classes of |
| `Tarjan.SegmentMutual` | internal/cli/graphdrawio.go:238-247 | The stack from the root of a component upward is one set of mutually reachable nodes |
| `Tarjan.PopNumbered` | internal/cli/graphdrawio.go:238-247 | Popping it keeps every numbered node apart from the others exactly by mutual reachability, with edges going to equal or smaller numbers |
| `Tarjan.FinishRoot` | internal/cli/graphdrawio.go:238-247 | A call whose low link is its own index returns with its whole component numbered and the stack as it found it |
| `Tarjan.FinishInner` | internal/cli/graphdrawio.go:223-247 | Any other call returns with its node on the stack and a low link below it to a node it reaches |
| `Tarjan.VisitCall` | internal/cli/graphdrawio.go:228-233 | Taking over the low link of a finished successor keeps what the call knows: no node on the stack that an explored edge leads to lies below its low link |
| `Tarjan.VisitSeen` | internal/cli/graphdrawio.go:234-236 | The same for a successor seen before: its index counts when it is on the stack and not otherwise |
| `Components.Pass.constructor` | internal/cli/graphdrawio.go:215-222 | The empty pass meets the invariant |
| `Components.Pass.Open` | internal/cli/graphdrawio.go:223-227 | The node gets the next index and its low link, goes on top of the stack, and the invariant holds with its call open |
| `Components.Pass.PopTop` | internal/cli/graphdrawio.go:239-245 | One pop gives the top of the stack the current number and takes it off the stack |
| `Components.Pass.PopComponent` | internal/cli/graphdrawio.go:238-247 | The loop pops exactly the nodes from v upward, all with one new number |
| `Components.Pass.LookAt` | internal/cli/graphdrawio.go:228-237 | One turn of the successor loop, with the recursive call in it |
| `Components.Pass.Strong` | internal/cli/graphdrawio.go:223-249 | The recursion ends; the call returns with its component numbered and the stack as it was, or with its node on the stack and a low link to an older node it reaches; what was numbered or stacked before is as it was |
| `Layering.Adjacency` | internal/cli/graphdrawio.go:203-213 | The lists hold the edges other than self-loops, each list in name order |
| `Layering.VisitAll` | internal/cli/graphdrawio.go:250-255 | After the loop over the sorted nodes every node has been visited and no call is open |
| `Layering.Condense` | internal/cli/graphdrawio.go:202-255 | Two nodes have one component number exactly when they reach each other, and every edge goes to an equal or smaller number |
| `Layering.Raise` | internal/cli/graphdrawio.go:262-269 | Raising a layer keeps each layer c within ncomp-1-c, keeps a path that justifies it, and lowers the total slack |
| `Layering.RelaxEdge` | internal/cli/graphdrawio.go:262-269 | An edge either was relaxed already and nothing changes, or the slack falls |
| `Layering.RelaxPass` | internal/cli/graphdrawio.go:257-271 | A pass that changes nothing finds every edge relaxed; one that changes something lowers the slack |
| `Layering.Relax` | internal/cli/graphdrawio.go:257-271 | The loop ends, with every edge relaxed and every layer reached by some path |
| `Layering.PathBelowLayer` | internal/cli/graphdrawio.go:257-271 | Once edges are relaxed no path crosses more components than the layer of its last node |
| `Layering.LayerAcyclic` | internal/cli/graphdrawio.go:202-276 | The layer of a node is the largest number of component crossings on any path that ends there |
| `Layering.LayersUnique` | internal/cli/graphdrawio.go:197-201 | There is only one such layering, so the order of nodes and edges does not matter |
| `Layering.LayersFollowEdges` | internal/cli/graphdrawio.go:197-201 | Layers are equal inside a cycle and rise along every edge between components |
| `Layering.LayersLeast` | internal/cli/graphdrawio.go:197-201 | It is pointwise below every assignment that is equal inside cycles and rises along other edges |
| `FileTree.Disk.MkdirAll` | internal/reconcile/reconcile.go:212-214 | It fails exactly at or below a file, and else makes the directories missing on the way and touches nothing else |
| `FileTree.Disk.RemoveAll` | internal/reconcile/reconcile.go:217-219 | It takes away the path and all below it, nothing else |
| `FileTree.Disk.Rename` | internal/reconcile/reconcile.go:299-303 | The rename that ends WriteFile puts one file in place; its parent is a directory by then and no directory stands in its place |
| `FileTree.Disk.RemoveDir` | internal/reconcile/reconcile.go:349-355 | The walk asks for it only on a directory with nothing below it, and it takes away just that |
| `FileTree.Disk.ReadDir` | internal/reconcile/reconcile.go:178-187 | Every entry of a directory, each once |
| `Reconcile.ManagedNames` | internal/kinds/kinds.go:15-24 | The files in the care of crei are those at top level that end in one of the eight unit extensions, and all under images |
| `Passes.LocalText` | internal/reconcile/reconcile.go:87-92 | A path is local exactly when its text is not empty, does not start at the root and does not climb out |
| `Reconcile.ParsedMode` | internal/reconcile/reconcile.go:457-463 | A mode is refused exactly when it has a character that is no octal digit or does not fit 32 bits; an accepted one has the owner, group and other digits that its last three characters say |
| `Reconcile.PermDigits` | internal/reconcile/reconcile.go:442-459 | The permission part of a mode is what its three low octal digits say |
| `Reconcile.RightDigits` | internal/reconcile/reconcile.go:107-123 | A file is as desired exactly when it has the content and, if there is a mode, the permission that the digits of the mode say |
| `Reconcile.Classify` | internal/reconcile/reconcile.go:87-123 | A desired file is unchanged exactly when the tree has that content and, when a mode is given, that mode; otherwise added when nothing is there and updated when anything is, a directory included |
| `Reconcile.WalkFiles` | internal/reconcile/reconcile.go:188-203 | The walk below images lists each file at or below its start once and no directory |
| `Reconcile.ListExisting` | internal/reconcile/reconcile.go:166-209 | It lists exactly the managed files on disk, each once: top-level files with a unit extension and all files below images |
| `Reconcile.PlanDesired` | internal/reconcile/reconcile.go:83-124 | One change for each desired file, in name order, with the action the tree calls for |
| `Reconcile.PlanRemovals` | internal/reconcile/reconcile.go:126-143 | One removal for each managed file that is not desired, in name order |
| `Reconcile.ComputePlan` | internal/reconcile/reconcile.go:76-145 | The plan is these two lists; it fails exactly on a name that is not local, a mode that does not parse or a root that is a file |
| `WriteOps.EnsureDir` | internal/reconcile/reconcile.go:223-244 | The directory and those above it exist then and nothing else changes, a file in its own place giving way; it fails, changing nothing, exactly when a file stands above it |
| `WriteOps.WriteFile` | internal/reconcile/reconcile.go:250-307 | On success the path is a file with the content, and with the permission that the three low octal digits of the mode say, or 6, 4 and 4 without a mode, whatever was there; the rest of the tree is as before but for directories above it |
| `WriteOps.DirReady` | internal/reconcile/reconcile.go:223-244 | A directory that exists has no file above it and needs no other made |
| `Prune.Walk` | internal/reconcile/reconcile.go:324-355 | The walk of one directory removes exactly the directories in it that hold no file, itself included unless it is the root |
| `Prune.PruneEmptyDirs` | internal/reconcile/reconcile.go:319-358 | It ends with exactly those directories below the root removed that hold no file at any depth |
| `Prune.PruneEffect` | internal/reconcile/reconcile.go:315-320 | No file goes, the root stays, nothing outside it changes, and a directory left below it has a file below it |
| `Passes.IdleIffConverged` | internal/reconcile/reconcile.go:76-145 | The plan has only unchanged entries exactly when the tree has the desired files as desired and no other managed file |
| `Passes.ConvergedPrefixFree` | internal/render/render.go:188-209 | No tree has two desired files of which one lies below the other: the renderer refuses only equal and escaping paths, so convergence is not always possible |
| `Passes.RemovePass` | internal/cli/commands.go:226-256 | The removal pass takes away the planned files and nothing else |
| `Passes.RemovedIsExtras` | internal/cli/commands.go:222-256 | What it takes away are single managed files that are not desired |
| `Passes.WriteEntry` | internal/cli/commands.go:236-240 | One write keeps the tree outside the desired paths and what is known of the pass; if no desired path lies below another, the files written before it stay |
| `Passes.WritePass` | internal/cli/commands.go:226-260 | For any desired paths the pass succeeds exactly when each write of the plan meets no file above the directory it goes into, it leaves no stray file and touches nothing unrelated; if none lies below another, it writes every planned file and fails exactly when the first write below images meets a file there two levels up |
| `Passes.BlockedIff` | internal/cli/commands.go:226-260 | Of a tree whose managed files are all desired, as after the removal pass: a file stands above the directory of a desired path exactly when the path is two or more levels below images and images is a file |
| `Delivery.AllDelivered` | internal/cli/commands.go:226-260 | If no desired path lies below another, the writes bring each desired path to its content, with the permission that the digits of its mode say; without a mode it keeps what it had if the content was there already and else gets 0644 |
| `Apply.ApplicableAfterRemovals` | internal/cli/commands.go:222-260 | Removals do not change whether apply can succeed, so the condition can be read off the tree before the passes |
| `Clearing.BlockedBy` | internal/reconcile/reconcile.go:223-244 | Of any desired paths, the write of one is blocked exactly when two or more levels above it stands a file, planned or at images, below which nothing has been written yet |
| `Clearing.FeasibleIff` | internal/cli/commands.go:226-260 | The writes of a plan go through exactly when every mode parses and, below each file that comes to stand, what is written first by name lies directly inside it |
| `Clearing.DirectFeasible` | internal/cli/commands.go:226-260 | If no desired path lies two or more levels below another, that is: unless images is a file that no first write clears |
| `Clearing.FreshFeasible` | internal/cli/commands.go:226-260 | On a directory with none of the desired files it is that, where desired paths lie below another, the first by name lies directly inside it |
| `Apply.Execute` | internal/cli/commands.go:218-266 | For any desired paths the outcome is that of the planned writes on the tree without the extra files, then images pruned; some desired file has become right or an extra one is gone; nothing outside their remit changes. If no path lies below another they succeed exactly on applicable trees and then the tree has exactly the desired managed files |
| `Apply.StateUnmanaged` | internal/state/state.go:25-28 | crei.state is no managed path and is related to none, so the passes do not see it |
| `Recording.RecordState` | internal/cli/state.go:12-41 | It writes the document it builds unless the one on disk describes the apply already; it fails exactly when strict and a directory, or no quadlet directory, keeps it from writing |
| `Recording.RecordingFrame` | internal/cli/state.go:18-41 | Nothing but crei.state changes, and that stays when it describes the apply or cannot be written |
| `Recording.RecordingStep` | internal/cli/state.go:18-41 | Where it can be written, what is on disk then describes the apply and is the next step of a run |
| `Apply.Apply` | internal/cli/commands.go:177-276 | For any desired paths apply succeeds exactly when its plan is feasible and, unless the tree had converged, no directory stands at crei.state; a success has converged exactly when no desired path lies below another, and has changed a tree that had not converged; on every applicable tree such files are then exactly the managed ones, each with its content and the permission that the digits of its mode say, or the one it had or 0644; nothing foreign changes; crei.state is recorded or stays, and its digests are those of the files; images is pruned |
| `Apply.ApplyTwice` | internal/cli/commands.go:177-276 | After a success, applying the same at any later time succeeds and leaves every path as it is, crei.state included, if no desired path lies below another; else every further success changes the tree once more |
| `Apply.DiskRun` | internal/cli/state.go:18-41 | What successive applies leave at crei.state is a run of recorded states, so that the history statements hold of the file on disk |
| `Apply.ConvergedApplicable` | internal/cli/commands.go:177-267 | A converged tree is applicable, so a second apply succeeds |
| `Apply.BlockedImages` | internal/reconcile/reconcile.go:223-244 | A counterexample for the passes as such: images is a file, the only desired file lies two levels below, and they fail; the command does not render that file alone |
| `Apply.RenderedApplicable` | creidhne/build.cue:33-42 | With a Containerfile beside each build context, as the schema has it, a file at images never stops apply: all that is needed is that the directory is no file and the modes parse |
| `Nested.NeverSettles` | internal/reconcile/reconcile.go:223-244 | Where desired paths lie directly inside others, every apply of any sequence succeeds, none converges, and each changes the tree again |
| `Nested.NestedContext` | internal/render/render.go:170-209 | Two nested keys of one build context are such files; if the lower is not directly inside the upper, the first apply is not feasible |
| `History.InEffectAt` | internal/state/state.go:69-82 | It returns the content of the newest recorded revision that is not after the time asked for |
| `History.NextDates` | internal/state/state.go:183-213 | One apply keeps the recorded time exactly when it keeps the digest, for files at top level and below images alike; without recorded content nothing is put into the history |
| `History.RecordDates` | internal/state/state.go:183-213 | After any log of applies the record of any file, also below images, has the digest and mode of the last one and the time of the last change; below images it has neither content nor history |
| `History.RecordHolds` | internal/state/state.go:189-213 | After any log of applies the record of a unit file has the last content and mode, dated when the content last changed, with the superseded contents that are not empty, the last ten of them if there are more |
| `History.AnswerExact` | internal/state/state.go:69-82 | For any contents, exactly when it answers with the content of the last apply not after the time; a different answer is given only when that content was empty |
| `History.NeverWrong` | internal/state/state.go:69-82 | With contents that are not empty an answer is the content of the last apply not after the time, and there is one whenever at most ten changes followed |
| `History.LastNIs` | internal/state/state.go:206-211 | What is cut from a history that grows too long is its oldest part |
| `History.StaleIff` | internal/cli/status.go:458-473 | On a log of any one file, also below images, the recorded time is after a moment exactly when an apply after that moment changed the content |
| `History.EmptyContentIsLost` | internal/state/state.go:201-207 | A counterexample for the record as such: a superseded empty content leaves no revision, and an earlier one is answered for its time; no template renders an empty unit file |
| `History.WrongIff` | internal/state/state.go:69-82 | For any contents, exactly when an answer is wrong: the file was empty at the time and has changed since, and of the superseded versions with content one is from before and fewer than ten from after it |
| `StateFile.BuildFile` | internal/state/state.go:183-213 | The field-by-field record of one file is the next one of its log |
| `StateFile.ManifestIs` | internal/state/state.go:165-173 | The manifest has exactly the quadlets that are named, each with the units of its last pair |
| `StateFile.Build` | internal/state/state.go:161-219 | The document has the version and the quadlets that are named, each with the time of the apply, the units of its last pair of that name, and one record for each of its rendered files, in path order, with digest, mode and content of what was rendered, dated and versioned from the earlier record of that file; nothing else is carried over |
| `StateFile.EqualIff` | internal/state/state.go:256-287 | Two documents are equal up to times exactly when the earlier one describes the apply: same manifest, same files with the same contents and modes |
| `StateFile.DescribedStays` | internal/state/state.go:256-287 | A document that describes the apply comes out of Build with the same manifest and records |
| `StateFile.KeptRecords` | internal/cli/state.go:30-33 | So not writing it loses nothing |
| `StateFile.OwnsIff` | internal/state/state.go:165-190 | A quadlet renders a file exactly when it is among the quadlets of the apply and the file among its rendered files |
| `StateFile.RunRecords` | internal/state/state.go:161-219 | Over a run in which some applies did not write the document, the record that a quadlet has of a file is that of the log of all applies since the quadlet took it over, whatever else comes and goes, also when its mode changes; what another quadlet recorded of the file, or what was recorded before it was gone, is not carried over |
| `StateFile.RunDates` | internal/state/state.go:161-219 | In terms of the rendered files of the applies: the record is that of the last one, dated at the last apply that changed the content, or at the first since the quadlet took the file over |
| `Ownership.FileRecord` | internal/state/state.go:235-248 | It returns a record of the path if there is one, whichever quadlet it is in |
| `Ownership.FoundByPath` | internal/cli/status.go:390-390 | After a run in which one quadlet at a time renders the file, the record of that path is the one of its last owner, whatever the order of the quadlets |
| `Ownership.StaleByPath` | internal/cli/status.go:458-473 | The time recorded for a path is after a moment exactly when an apply after that moment was the first to have the file, or changed its content or the quadlet that renders it |
| `Ownership.AnswerByPath` | internal/state/state.go:69-82 | With contents that are not empty the answer for the path of a unit file is the content of the last apply not after the time, if the last owner had taken over by then and at most ten content changes followed, else there is none; for a path below images there is none |
| `Ownership.TakeoverForgets` | internal/state/state.go:174-182 | A counterexample: another quadlet renders the same file with the same content, and the file shows as changed, with no answer for the time before |
| `Settle.Accounting` | internal/cli/lifecycle.go:112-125 | The settle total of a live unit is the sum of the intervals that began at a poll seeing it unqueued and transitional; queued time never counts |
| `Settle.Outcome` | internal/cli/lifecycle.go:171-215 | A live unit becomes done exactly at a poll that sees it unqueued and settled, and stalled exactly at one that sees it transitional with the sum of its moving intervals at the budget |
| `Settle.Absorbing` | internal/cli/lifecycle.go:181-183 | A unit is never both done and stalled, and stays in either whatever follows |
| `Settle.Deadline` | internal/cli/lifecycle.go:208-210 | With polls at least d apart, a unit not seen settled is stalled by the (ceil(W/d)+1)-th poll that sees it transitional |
| `Settle.NoBudgetNoStall` | internal/cli/lifecycle.go:101-105 | A budget of zero never stalls a unit |
| `Lifecycle.RestartTracker.constructor` | internal/cli/lifecycle.go:144-160 | Pre-done units start done and all others are enqueued |
| `Lifecycle.RestartTracker.BankSettle` | internal/cli/lifecycle.go:119-125 | It stops one clock, keeping what has run, and touches no other unit |
| `Lifecycle.RestartTracker.Sort` | internal/cli/lifecycle.go:177-191 | The first loop of poll: live queued units bank, the live ones no longer queued are collected, nothing else changes |
| `Lifecycle.RestartTracker.Judge` | internal/cli/lifecycle.go:199-213 | The second loop: each collected unit moves as the one-unit step says, the others stay |
| `Lifecycle.RestartTracker.Poll` | internal/cli/lifecycle.go:171-215 | A poll moves every unit as the one-unit step machine does; it fails exactly when a query it makes fails |
| `Lifecycle.RestartTracker.IsAllDone` | internal/cli/lifecycle.go:217-226 | True exactly when no unit is live |
| `Lifecycle.RestartTracker.Failures` | internal/cli/lifecycle.go:275-304 | The failed set is the stalled units and the enqueued ones whose state is known and the verb calls failed, also when a missing state makes it an error; a failed query is an error with no set |
| `Lifecycle.RestartTracker.FailedError` | internal/cli/lifecycle.go:307-323 | There is an error exactly when a tracked unit failed |
| `Lifecycle.RestartTracker.PlainFlow` | internal/cli/lifecycle.go:411-457 | The plain loop has the outcome that the transition has on the same answers |
| `Lifecycle.RestartTracker.Animate` | internal/cli/lifecycle.go:376-407 | The redrawing loop, which polls at every n-th frame, drives the units just as polling alone does |
| `Lifecycle.RestartTracker.LiveFlow` | internal/cli/lifecycle.go:341-371 | The live flow has the same outcome as the plain one |
| `Lifecycle.DriveFinishes` | internal/cli/lifecycle.go:171-226 | When polling comes to an end no unit is live, and the states are those that the one-unit machine reaches on the answers read so far |
| `Lifecycle.SuccessMeans` | internal/cli/lifecycle.go:48-74 | Success means that no unit stalled, each enqueued unit was found at some poll without a job and in none of the states activating, deactivating, reloading, refreshing and maintenance, and its final state is known: after a restart or start it is none of these nor failed, after a stop neither active nor activating |
| `Lifecycle.SuccessWhen` | internal/cli/lifecycle.go:36-75 | Conversely, when the queries succeed, each enqueued unit is done at some poll and none ends in such a state, the transition succeeds |
| `Lifecycle.PollDecides` | internal/cli/lifecycle.go:162-215 | A live unit is done at a poll exactly when it has no job there and is in none of the five states in between; it can stall only when it is in one of them |
| `VarScan.MatchBrace` | internal/importer/vars.go:53-67 | It finds the closing brace of the opening one, counting nesting, exactly when there is one |
| `VarScan.VarTokenSpans` | internal/importer/vars.go:43-84 | The spans are variable tokens or doubled dollars, in order and disjoint, and at no other position does a token start |
| `VarScan.ScanUnique` | internal/importer/vars.go:43-84 | Only one list of spans is like that |
| `VarScan.ScanCutsToks` | internal/importer/vars.go:43-84 | The spans cut out the tokens that reading from the left gives |
| `VarScan.NameCodes` | internal/importer/vars.go:70-76 | A name starts with a letter or an underscore and goes on with these and digits |
| `VarTokens.ParsedDefault` | internal/importer/vars.go:150-175 | A token is decoded with the default d for the name n exactly when it is ${n:-d} or ${n-d}, and as nested exactly when a token opens in d |
| `VarTokens.ParsedAlternate` | internal/importer/vars.go:150-175 | A token with the alternate mark is ${n:+d} or ${n+d}, and those have no default |
| `VarTokens.ParsedName` | internal/importer/vars.go:150-175 | Every token but the doubled dollar is decoded to the one name that it is for: $name, or what stands in the braces before the first of the four operator characters |
| `Variables.EnvSet.Record` | internal/importer/vars.go:86-111 | After any sequence of calls a name is required exactly when some occurrence was bare, and otherwise has its first default |
| `Variables.EnvSet.Fields` | internal/importer/vars.go:221-233 | One field for each name in order of first occurrence, with a default exactly when no occurrence was bare |
| `Variables.Interpolate` | internal/importer/vars.go:116-144 | The emitted text, read as a CUE string, is exactly what the compose string means: gaps literally, a doubled dollar as one, one reference for each token; if a character that Go writes as a byte is to be said, it does not read at all |
| `Variables.Rewrite` | internal/importer/vars.go:116-144 | Without a dollar it returns the string itself, and otherwise a quoted interpolation of that meaning, which reads back exactly when no character in it is written as a byte; it records each variable token once and in order, with the default of ${n:-d} or ${n-d} unless a token opens in it, and else as bare |
| `Variables.MeaningOfToken` | internal/importer/vars.go:125-141 | A token means a dollar, or a reference to the name that it is for |
| `Variables.ReachedNext` | internal/importer/vars.go:125-141 | One more span: the text so far and the meaning of the rest still make up the whole |
| `CueString.IdentCodes` | internal/importer/importer.go:235-235 | An identifier has letters, underscores and dollars, and after the first character digits too |
| `CueString.ByteCodes` | internal/importer/vars.go:235-240 | The characters that Go writes as bytes are the control characters without a letter of their own, and delete |
| `CueString.EmitsInner` | internal/importer/vars.go:235-240 | A quoted segment reads back as its characters, whatever follows it, also when it ends in a backslash or a quote, unless one of them is written as a byte: then nothing reads |
| `CueString.EmitsRef` | internal/importer/vars.go:131-140 | An emitted reference reads back as the one variable it names, on the same condition |
| `CueString.QuotedRound` | internal/importer/vars.go:235-240 | A quoted string, with its closing quote, reads back as itself and stops there exactly when none of its characters is written as a byte |
| `CueString.SelectorRound` | internal/importer/importer.go:238-243 | A selector reads back as its field, as an identifier always, quoted on that condition |
| `CueString.EscapeRound` | internal/importer/vars.go:235-240 | An escape with a letter or with the digits after u or U reads back as its character; one with an x, for control characters without a letter and delete, is no escape of a string |
| `CueString.QuoteReads` | internal/importer/vars.go:235-240 | So a quoted string is a string literal at all exactly when it has no such character |
| `Variables.SayableMeaning` | internal/importer/vars.go:116-144 | A compose string without such characters has nothing in its meaning that would not read back |
| `RawScan.OccursUnfolds` | internal/importer/vars.go:196-215 | What occurs in a text: its tokens, and what occurs between the braces of one of them |
| `RawScan.PendingNext` | internal/importer/vars.go:196-215 | Replacing a token of the worklist by its nested tokens loses none and invents none |
| `RawScan.InnerShorter` | internal/importer/vars.go:207-213 | The nested tokens together are shorter than their parent |
| `RawScan.ScanText` | internal/importer/vars.go:190-216 | The worklist ends having seen exactly the tokens at every depth |
| `RawScan.ScanRawVariables` | internal/importer/vars.go:176-219 | A name is reported exactly when some token at some depth of some readable file is for it, and as having a default exactly when each of these is ${n:-d} or ${n-d} for some d |
| `Keymap.ItoaInjective` | internal/importer/importer.go:205-212 | Different suffixes print differently |
| `Keymap.ItoaIs` | internal/importer/importer.go:205-212 | A suffix is printed in decimal, without leading zeros |
| `Keymap.SuffixedIs` | internal/importer/importer.go:205-212 | A suffix follows the key after an underscore |
| `Keymap.SanitizedIs` | internal/importer/importer.go:194-203 | In the sanitized form no dash or dot is left, and nothing else is changed |
| `Keymap.TakenSuffixes` | internal/importer/importer.go:205-212 | If all suffixes up to n are taken there are that many used keys |
| `Keymap.FreeKey` | internal/importer/importer.go:205-212 | The unbounded search ends, by counting, at the first free suffix |
| `Keymap.Keys.Key` | internal/importer/importer.go:190-219 | A name known keeps its key, a new one gets a key no other name has; no other name changes |
| `Keymap.KeyAll` | internal/importer/importer.go:178-219 | Over any requests one name always gets one key and different names get different ones |
| `DepGraph.DirectivesIff` | internal/cli/graph.go:15-23 | The targets read are those that a listed directive of the [Unit] section has |
| `DepGraph.DirectiveNames` | internal/cli/graph.go:15-23 | The sixteen listed directives are these |
| `DepGraph.FlattenIs` | internal/cli/graph.go:116-123 | The units of the project are those of its quadlets, each with the name of its quadlet |
| `DepGraph.CatalogIs` | internal/cli/graph.go:116-119 | The catalog has exactly the file names of the project, each with kind and quadlet of the last unit of the name |
| `DepGraph.ServicesIs` | internal/cli/graph.go:120-122 | A service name stands for the last unit of the project that has it, and the empty one for none |
| `DepGraph.RefsIff` | internal/cli/graph.go:178-213 | The references read are the image, the pod, and what stands before the first colon of each network and volume entry, at top level or else under Build, and of each network under Kube |
| `DepGraph.FirstFieldIs` | internal/cli/graph.go:215-222 | A reference ends at the first colon, if there is one |
| `DepGraph.EdgesDeclared` | internal/cli/graph.go:153-203 | The graph has exactly the edges that a unit declares by a listed directive or refers to as a managed unit |
| `DepGraph.Graph.AddEdge` | internal/cli/graph.go:140-153 | A target becomes a node unless it is one already; nothing else changes |
| `DepGraph.Graph.AddUnitEdges` | internal/cli/graph.go:155-172 | The listed directives add their edges in order, and just their targets as nodes |
| `DepGraph.Graph.AddResourceEdges` | internal/cli/graph.go:174-203 | References to managed units add their edges in order, others nothing |
| `DepGraph.Graph.AddUnit` | internal/cli/graph.go:155-203 | A unit adds its declared edges in order, and just their targets as nodes |
| `DepGraph.Graph.AddFocus` | internal/cli/graph.go:125-129 | The nodes are then exactly the focus units, with kind and quadlet from the project |
| `DepGraph.Graph.AddEdges` | internal/cli/graph.go:130-135 | All edges of the focus units, each between nodes |
| `DepGraph.BuildGraph` | internal/cli/graph.go:110-137 | The edges are exactly those that a focus unit declares: by a listed directive, resolved to the last unit with that service or else to itself, or by a reference to a file name of the project; every node is the last unit of that file name in the project or external |
| `DepGraph.SortedEdges` | internal/cli/graph.go:298-319 | Every distinct edge once, in strictly increasing order of from, rel and to |
| `DepGraph.EdgeLeIff` | internal/cli/graph.go:300-308 | Edges are ordered by where they start, then by relation, then by where they end |
| `DepGraph.SortedUnique` | internal/cli/graph.go:268-319 | The result depends on the set of edges alone |
| `GraphReduce.StemIs` | internal/cli/graphreduce.go:40-47 | The stem of a name is what stands before its last dot, and the name itself if it has none or only one in front |
| `GraphReduce.FoldsIff` | internal/cli/graphreduce.go:81-92 | An edge folds exactly when it is the image edge of a unit to the build of its name in its quadlet |
| `GraphReduce.StackShared` | internal/cli/graphreduce.go:49-56 | Two units share a stack exactly when they are of one quadlet, or of none and of one called external |
| `GraphReduce.FoldsIntoOne` | internal/cli/graphreduce.go:81-92 | A node folds at most one build, and a build folds none but itself |
| `GraphReduce.FoldCandidates` | internal/cli/graphreduce.go:81-92 | The folded map and the candidates are exactly those of the folding edges, whatever their order |
| `GraphReduce.KeepTouched` | internal/cli/graphreduce.go:93-99 | A candidate stays hidden exactly when nothing but folding edges into it touches it, whatever the order of the edges |
| `GraphReduce.Orphans` | internal/cli/graphreduce.go:101-112 | The orphans are the nodes no edge touches, in order |
| `GraphReduce.KeptEdges` | internal/cli/graphreduce.go:148-159 | The edges other than those of hidden builds, in order |
| `GraphReduce.ReduceGraph` | internal/cli/graphreduce.go:60-138 | The reduction as a whole is the one that these conditions name, with the counts of its sets |
| `GraphReduce.NothingLost` | internal/cli/graphreduce.go:8-29 | Every node is visible, hidden or an orphan and only one of them; every edge is kept or folded; kept edges have both ends visible |
| `GraphReduce.HiddenIsLabelled` | internal/cli/graphreduce.go:8-29 | A hidden build is in the label of a visible node, exactly when something other than itself uses it |
| `GraphReduce.Count` | internal/cli/graphreduce.go:123-136 | The counts are the sizes of the sets they stand for; the cross count is of kept edges between units of different quadlets, or of a quadlet and of none |
| `GraphReduce.CountsAddUp` | internal/cli/graphreduce.go:29-37 | Units are the visible, the folded and the orphans, and relations the kept and the folded, in number |
| `GraphReduce.OrderIrrelevant` | internal/cli/graphreduce.go:71-138 | Two graphs with the same set of edges reduce to the same |
| `Blocked.PathSeen` | internal/cli/status.go:553-572 | Every path from the start goes through the queue or ends among the seen |
| `Blocked.NoneNearer` | internal/cli/status.go:553-572 | While a level is searched no failed unit is nearer |
| `Blocked.FirstFailedDep` | internal/cli/status.go:553-572 | It ends on every graph; it returns a failed unit at the least number of hops from the start, other than the start, and none exactly when no other is reachable |
| `Drawio.Apart` | internal/cli/graphdrawio.go:121-123 | No two cells overlap on the page unless one contains the other |
| `Drawio.AddBox` | internal/cli/graphdrawio.go:394-399 | A box at the cursor overlaps no box before it and leaves room for the next |
| `Drawio.WrapRoom` | internal/cli/graphdrawio.go:394-396 | A new shelf has room below everything on the page |
| `Drawio.Geometry` | internal/cli/graphdrawio.go:392-411 | The size of a box and the place of each unit in it, in numbers |
| `Drawio.AddToColumn` | internal/cli/graphdrawio.go:402-411 | A unit in the next row of its column lies inside the box and overlaps no other unit in it |
| `Drawio.NextColumn` | internal/cli/graphdrawio.go:402-411 | A new column starts right of all units so far |
| `Drawio.LegendGeometry` | internal/cli/graphdrawio.go:672-727 | The size of the legend and the place of its rows, in numbers |
| `Drawio.AddSwatch` | internal/cli/graphdrawio.go:717-727 | A legend row lies inside the legend and below the rows before it |
| `Pages.OnPage` | internal/cli/graphdrawio.go:182-189 | Every cell, nested ones in page coordinates, lies on the emitted page |
| `Pages.DrawioPage.Vertex` | internal/cli/graphdrawio.go:122-137 | It appends a cell and extends the page by cells at top level alone |
| `Pages.DrawioPage.Heading` | internal/cli/graphdrawio.go:520-523 | The two heading cells leave the first shelf free |
| `Pages.DrawioPage.PlaceBox` | internal/cli/graphdrawio.go:394-417 | A box goes to the cursor or a new shelf, overlapping nothing; the cursor moves past it |
| `Pages.DrawioPage.PlaceStack` | internal/cli/graphdrawio.go:392-417 | A stack box with its columns is on the page, each unit in its slot inside the box, and the page stays free of overlaps |
| `Pages.DrawioPage.ShelfLegend` | internal/cli/graphdrawio.go:507-518 | The legend is one more box without overlap, with a row for each used kind and edge style in the fixed order, and none on a page without any |
| `ShelfPages.Select` | internal/cli/graphdrawio.go:319-330 | It selects exactly the kept edges of the relations between visible units of the kinds shown; the units used are their ends |
| `ShelfPages.StyleIs` | internal/cli/graphdrawio.go:435-445 | An edge between quadlets is styled as crossing, any other by its relation if that is of a resource, else as a dependency |
| `Seating.Weigh` | internal/cli/graphdrawio.go:455-465 | The weights count the edges between two stacks either way, the totals those of one stack |
| `Seating.Best` | internal/cli/graphdrawio.go:478-492 | It finds the first of the remaining stacks with the largest score |
| `Seating.OrderStacks` | internal/cli/graphdrawio.go:450-497 | Every stack is seated once, and has a larger score than all left at its turn, or the same and a smaller name |
| `Seating.Average` | internal/cli/graphdrawio.go:371-383 | The average row of the neighbours that have one, none if none has |
| `Seating.Column` | internal/cli/graphdrawio.go:361-392 | Attachers are in name order and get rows; resources are in order of the average row of their neighbours, those without last, and by name among equals |
| `ShelfPages.Columns` | internal/cli/graphdrawio.go:354-392 | The columns of a stack hold each of its used units once; there is one for each kind it has, in the order of kinds, with units of that kind alone, each in its order by the rows of the attachers before it |
| `ShelfPages.HousedStack` | internal/cli/graphdrawio.go:401-413 | The units of a stack are drawn inside the box with its name |
| `ShelfPages.ShelfLayout` | internal/cli/graphdrawio.go:304-433 | Every used unit is drawn once, inside the box of its stack; page and shelf stay free of overlaps; the kinds and edge styles used are recorded for the legend |
| `ShelfPages.ShelfPage` | internal/cli/graphdrawio.go:737-767 | A page shows exactly the units that a selected edge touches, once each, without overlap; a unit of a quadlet lies in the box with the name of that quadlet, one of none in the box called external; the legend has their kinds and the styles of the selected edges, cross for those between quadlets |
| `ShelfPages.PageNetworks` | internal/cli/graphdrawio.go:737-750 | This for the network relations between containers, pods, kubes and networks |
| `ShelfPages.PageStorage` | internal/cli/graphdrawio.go:753-768 | This for the volume and pod relations between containers, pods, kubes and volumes |
| `ShelfPages.DrawMissing` | internal/cli/graphdrawio.go:783-830 | The trailing boxes hold each unit not yet placed once, in the box of its stack |
| `ShelfPages.DrawnOnce` | internal/cli/graphdrawio.go:772-774 | Visible nodes and orphans together are the nodes that are not hidden, each once |
| `ShelfPages.PageDetail` | internal/cli/graphdrawio.go:772-854 | Every node of the graph is drawn exactly once, in the box with the name of its quadlet, or external, or that of the unreferenced units, except builds folded into a label; nothing overlaps; the legend has the kinds drawn and the styles of the edges selected |
| `EditDistance.Distance` | internal/eval/diag.go:893-912 | The two-row table ends with the Levenshtein recurrence on the whole strings |
| `EditDistance.ScriptAtLeast` | internal/eval/diag.go:893-912 | No edit script is shorter than the recurrence |
| `EditDistance.ShortestScript` | internal/eval/diag.go:893-912 | There is one of just that length |
| `EditDistance.DistanceIsShortest` | internal/eval/diag.go:893-912 | The distance is n exactly when the shortest script of insertions, deletions and substitutions has n edits |
| `EditDistance.ZeroIffEqual` | internal/eval/diag.go:893-912 | It is zero exactly for equal strings |
| `EditDistance.Symmetric` | internal/eval/diag.go:893-912 | It is the same both ways |
| `EditDistance.Triangle` | internal/eval/diag.go:893-912 | It obeys the triangle inequality |
| `Registry.Compare` | internal/registry/registry.go:230-250 | The loop over the longer version computes comparison under zero padding |
| `Registry.Antisymmetric` | internal/registry/registry.go:230-250 | Swapping the versions negates the result |
| `Registry.TransitiveCmp` | internal/registry/registry.go:230-250 | The order is transitive |
| `Registry.EqualIffPadded` | internal/registry/registry.go:230-250 | Equal means equal part by part under zero padding |
| `Registry.NewerAt` | internal/registry/registry.go:230-250 | Of as many parts, a version is newer exactly when the first part that differs is larger |
| `Registry.EligibleIff` | internal/registry/registry.go:289-317 | An upgrade, part by part: the first part that differs from those of the current version is larger, the suffix is the same, precision is kept, no date stamp follows a small number, and the version is in range |
| `Registry.InRangeIs` | internal/registry/registry.go:260-274 | A constraint is asked about the first three parts, with zeros for those that are missing |
| `Registry.PickVersion` | internal/registry/registry.go:276-329 | It returns the first of the largest eligible tags, and none exactly when there is no eligible tag |
| `Registry.NewerTransitive` | internal/registry/registry.go:276-329 | Being strictly newer at the older precision carries along a chain |
| `Registry.ChainRises` | internal/registry/registry.go:276-329 | Along any chain of eligible versions, as picks are, on whatever tags and constraints, versions rise at every earlier precision, precision never drops and the suffix stays |
| `Registry.SecondStep` | internal/registry/registry.go:276-329 | After a pick from fixed tags, just what is eligible still: tags with a date-like first part, when the pick passed 1000 and the version before it had not |
| `Registry.PicksEnd` | internal/registry/registry.go:276-329 | On fixed tags a chain of picks ends after one step when the first part was at least 1000 or the pick is below 1000, and after two in any case |
| `RestartSpan.GapIs` | internal/cli/timeoutrules.go:187-210 | There is a ramp exactly when there are steps from a delay that is not zero to a finite maximum above it; then the gaps grow by a constant ratio over the steps and stay at the maximum, else all are the delay |
| `RestartSpan.SpanIsSum` | internal/cli/timeoutrules.go:187-210 | The closed form is the sum of the first gaps, geometric up to the step count and flat after it |
| `RestartSpan.GapsGrow` | internal/cli/timeoutrules.go:187-193 | Gaps never shrink |
| `RestartSpan.FirstIsTightest` | internal/cli/timeoutrules.go:142-150 | Of all runs of burst+1 starts the first is the tightest |
| `RestartSpan.FindingExact` | internal/cli/timeoutrules.go:142-185 | The finding is raised exactly when the limiter is on and no burst+1 starts anywhere in an endless run fit inside the interval: ten seconds and five starts where none is set, off at zero or at what is no finite span |

## Left out

- Symlinks, special files, ownership, permission errors, temporary names and fsync: the tree has regular files and directories, and a write is one step. The parent of the quadlet directory is taken to exist.
- Names are cleaned paths, given as lists of components, and strings are compared by code point where the source compares bytes.
- Recording.RecordState: a document is written by any encoding that reads back; rendering of each quadlet on its own, and its errors, are inputs, and so is which files are desired.
- Apply.Apply: the confirmation, the reload of systemd and what is printed are left out.
- SHA-256 is an injective function; evaluation of CUE, templates, the schema and rendering are not part of this model.
- CueString.Escape: which characters beyond ASCII are printable is a constant left open; every statement holds whatever they are. Strings are valid Unicode.
- RawScan.ScanRawVariables: a file that cannot be read contributes nothing, so the files are those that can.
- Variables.EnvSet.Record: the texts of warnings, and the name and default that the resolved mode substitutes, are not modelled.
- RestartSpan.SpanIsSum: arithmetic is over reals, and the exponential of logarithms is a ratio whose power is max/delay.
- Registry.PickVersion: versions are parsed already, and a constraint is any predicate on the first three parts; a constraint that does not parse is left out.
- Parsing of ages, tags and references: shallow.
- Lifecycle.RestartTracker.PlainFlow: polling is over a finite list of answers and reports that it still waits when they run out; what is printed is left out.
- DepGraph.BuildGraph: decoding evaluated data into lists of strings is left out, as are merged edges and the other graph formats.
- GraphReduce.ReduceGraph: it takes build units to be named with their extension, as the schema names them (internal/kinds/kinds.go:20).
- Blocked.FirstFailedDep: an empty answer is None; which rows ask, and which edges are hard dependencies, is left to the caller.
- ShelfPages.ShelfLayout: labels, styles and the edges drawn between the boxes are left out, but for the edge styles that the legend needs.
- The overview page is a plain grid over the layers, and the dependency page bands over them; neither shares the shelves.
- Lint messages, status rows other than blocked and stale, pickers, prompts, diffs and the registry client.
