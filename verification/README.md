# Nightfall photo ingress: a verified model

Nightfall polls OneDrive accounts for new photos, downloads them into a staging area, hashes and registers
them, and lets an operator accept, reject or purge them; a build helper (govctl) resolves named targets to an
execution order. This project models the stateful parts of that system in Dafny and proves what they promise.

Main results:

- **Delta polling** (`Reducer`, `DeltaPoll`, `Retry`): at-least-once delivery into the registry over any sequence of polls,
  each of which may fail or be cut off after any step; the exact condition under which a page is delivered whole; bounds
  on pages, downloads, attempts and sleep; why a candidate may be given up; the last-event-wins reducer.
- **Ingest and operator commands** (`Storage`, `Records`, `Trail`, `Lifecycle`, `Batch`, `Journal`, `Crash`): the path
  invariant and the conservation of content over every run of completed commands, crash safety of the durable move,
  independence of the batch schedule, and the exact moments at which a crash, with or without replay, breaks the invariant.
- **govctl** (`Manifest`, `RequiresCheck`, `FirstMention`, `Resolver`): validation is exact, and a validated manifest always
  resolves to the duplicate-free dependency closure in topological order, laid out by first mention, which is one order.
- **Smaller state machines** (`LivePhoto`, `Idempotency`, `HashImport`, `AuditLog`, `CycleMarks`, `Momentum`).

`Wrappers`, `Sequences` and `Graphs` hold the notions several modules share. `dafny verify dfyconfig.toml` checks everything.

## Assumptions

- The lifecycle roots are pairwise disjoint; configuration only checks that they differ.
- No stored name ends in `.tmp`, because the cross-pool copy writes to a `.tmp` sibling.
- SHA-256 is collision free: a digest is identified with the content it came from.
- There is one ingest worker, and no live-photo pair rows exist when operator commands run.
- The page handoff processor is present, as the command line passes it: it ingests the page's downloads as one batch.
- Server answers, clocks, jitter and copy results are arbitrary inputs, and so are database faults in the two API services.
- In ingest and the operator commands no registry transaction fails, and neither does an fsync or chmod after a rename;
  the moments of these operations show what such a failure, like a crash, would leave.
- The audit log only grows while a reader follows its cursors; pruning of old rows is not modelled.
- Retry delays and momentum use real arithmetic; rounding is not modelled.
- Registry and API transactions are atomic, and the journal is not rotated between an operation and its replay.
- Operation ids in the journal are non-empty and not reused (the code adds a random part).

## Where code and comments disagree

The model follows the code.

- `_graph_get_json` calls its loop exit unreachable (client.py:1988); `Retry.GraphGet` states exactly when it is
  reached.
- `memo or {}` (govctl_manifest.py:61) drops an empty memo, so nothing is shared between expansions; the result is
  the same, and the model has no memo.
- `_detect_cycles` says it returns every node on a cycle. With a -> b, c; b -> d; c -> d; d -> a it marks a, b and d but
  not c (`CycleMarks.MissesNode`). `CycleMarks.Detect` states exactly which nodes are marked and when that is all of
  them.
- A cycle among `requires` is reported with its first node once more than needed: a, b, a, a for two targets that require
  each other (`RequiresCheck.TwoTargetReport`).
- `max_downloads` caps kept files. In tolerant mode files without a size are downloaded and quarantined outside that count
  (`DeltaPoll.CapHoldsExactly`).
- An idempotency key is meant for one request, but only action and item are compared, and the request body is not
  stored: another update of the same rule under a used key gets the old reply (`Idempotency.OtherRequestPasses`,
  `Idempotency.RefusedExactly`).
- When the download budget ends inside a page the rest of that page is skipped for good although the cursor moves on
  (`DeltaPoll.WholePageSettled`, `DeltaPoll.BudgetCutsPage`).
- Replay moves a registered file aside after a crash between registry commit and journal line, and overwrites a file
  that stands at the `.orphaned` name (`Crash.CutThenReplay`, `Crash.QueuedCanBreak`, `Journal.SurvivesExactly`).

## Model

| member | source | states |
|---|---|---|
| `Manifest.MakePlan` | dev/lib/govctl_resolve.py:54-97 | A plan comes out exactly for a well-formed manifest and a non-empty request of known names; it lists exactly the targets that what is requested (directly or through groups) reaches, each once, every requirement before its dependents, and in the order of first mention among what is independent, which leaves one order only; with a well-formed manifest only an empty request or an unknown name can fail. |
| `Manifest.Validate` | dev/lib/govctl_manifest.py:202-223 | Validation succeeds exactly on well-formed manifests, and its output satisfies everything resolution relies on; its dependency graph is the one the `requires` lists stand for; a cycle is reported as a cycle with one entry too many, which as a whole is never a path. |
| `Manifest.RequiresEdge` | dev/lib/govctl_manifest.py:206-221 | Independent reading of that graph: an edge wherever a `requires` list names a target directly or through nested groups. |
| `Manifest.ExpandGroup` | dev/lib/govctl_manifest.py:53-97 | Expansion succeeds exactly when no unknown name and no group cycle is reachable; otherwise the error names a real fault; the result is the left-to-right unfolding with repeats removed. |
| `Manifest.ExpandFrom` | dev/lib/govctl_manifest.py:53-97 | The recursion ends because the stack holds distinct group names; success means the reference tree closes within the number of groups not on the stack. |
| `Manifest.ExpandMember` | dev/lib/govctl_manifest.py:77-94 | One member reference: target, nested group or fault, with the same guarantees. |
| `Manifest.LeavesAreReachableTargets` | dev/lib/govctl_manifest.py:53-97 | The unfolding holds exactly the targets that some reachable group names. |
| `Manifest.LeavesStable` | dev/lib/govctl_manifest.py:53-97 | Unfolding deeper than the tree closes changes nothing, so the depth bound hides nothing. |
| `Manifest.ClosesIsExpandable` | dev/lib/govctl_manifest.py:64-95 | A tree that closes has no reachable cycle and no unknown name. |
| `Manifest.BrokenIsNotExpandable` | dev/lib/govctl_manifest.py:64-95 | Each reported fault is a reachable cycle or unknown name. |
| `Manifest.ExpandRequires` | dev/lib/govctl_manifest.py:100-109 | A `requires` reference expands exactly when it is a target or an expandable group, to its unfolding. |
| `Manifest.ExpandTarget` | dev/lib/govctl_manifest.py:206-221 | `requires_expanded` is the repeat-free unfolding of the whole list; refusal means a reference is unusable or leads back to the target. |
| `Manifest.BadRequiresIsIllFormed` | dev/lib/govctl_manifest.py:206-221 | Both refusals are justified: a self reference is a cycle of length one. |
| `Manifest.ExpandAllGroups` | dev/lib/govctl_manifest.py:202-204 | All groups are expanded, or one cannot be. |
| `Manifest.ExpandAllTargets` | dev/lib/govctl_manifest.py:206-221 | The adjacency passed to the cycle check is the graph of the `requires` lists; failure means the manifest is ill-formed. |
| `Manifest.NormalizedIsValidated` | dev/lib/govctl_manifest.py:202-234 | The normalized manifest of a well-formed source meets the precondition of resolution. |
| `Sequences.DedupElements` | dev/lib/govctl_manifest.py:72-95 | The `seen` set beside a growing list keeps every element, each once. |
| `Sequences.DedupFirstOccurrenceOrder` | dev/lib/govctl_manifest.py:72-95 | ... in order of first occurrence: the output for a prefix is a prefix of the output. |
| `Sequences.CollectNested` | dev/lib/govctl_manifest.py:83-90 | Removing repeats inside a nested group before merging changes nothing. |
| `Sequences.AppendNew` | dev/lib/govctl_manifest.py:83-90 | The inner merge loop, with the `seen` set equal to the elements of the list throughout. |
| `RequiresCheck.Detect` | dev/lib/govctl_manifest.py:112-132 | The check passes exactly on acyclic graphs; otherwise all but the last entry of what it reports is a cycle that meets no node twice before it closes. |
| `RequiresCheck.ReportIsPathExactly` | dev/lib/govctl_manifest.py:117-120 | The reported list as a whole is a path if and only if its first node requires itself. |
| `RequiresCheck.TwoTargetReport` | dev/lib/govctl_manifest.py:117-126 | For two targets that require each other the list is a, b, a, a or b, a, b, b, and no path. |
| `RequiresCheck.Checker.Dfs` | dev/lib/govctl_manifest.py:116-128 | A clean return leaves a finishing order that contains the node; otherwise the list reported is such a cycle and one more entry. |
| `Graphs.TopologicalAcyclic` | dev/lib/govctl_manifest.py:112-132 | A graph whose nodes all stand in a finishing order has no cycle. |
| `Graphs.TopologicalClosed` | dev/lib/govctl_resolve.py:72-97 | A finishing order is closed under reachability. |
| `Resolver.Resolve` | dev/lib/govctl_resolve.py:54-97 | Succeeds exactly when nothing the request reaches is unknown, unnormalized or on a cycle; the order is duplicate-free, dependencies first, exactly the closure, and laid out by first mention of the requested targets and of the requirements of each target; every error is justified by the graph. |
| `Resolver.Search.Dfs` | dev/lib/govctl_resolve.py:72-92 | A clean return adds one block for the target at the end: what its first requirement newly brings, then what the second does, and so on, then the target; an error is justified. |
| `Resolver.Search.RequireAll` | dev/lib/govctl_resolve.py:85-88 | The requirements are taken in the order of the list, each adding its own section after the one before. |
| `Resolver.Search.TakeAll` | dev/lib/govctl_resolve.py:94-97 | The requested targets are taken in their order, so the whole order is laid out by first mention. |
| `FirstMention.FirstMentionIsUnique` | dev/lib/govctl_resolve.py:72-97 | Graph and requested targets leave one order only that is laid out by first mention. |
| `FirstMention.RootsBringPrefixes` | dev/lib/govctl_resolve.py:72-97 | For every k, what the first k requested targets reach is a prefix of that order. |
| `FirstMention.DiamondOrder` | dev/lib/govctl_resolve.py:85-92 | For a requiring b and c, which both require d, that order is d, b, c, a. |
| `Resolver.ExpandRequest` | dev/lib/govctl_resolve.py:43-70 | Requested names become their targets, first mention first; a refused name is unknown. |
| `Resolver.ValidatedResolves` | dev/lib/govctl_resolve.py:54-97 | Over a validated manifest every non-empty request of known names is resolvable, so no cycle is ever reported. |
| `Resolver.ClosureResolved` | dev/lib/govctl_resolve.py:72-97 | A finishing order that holds the roots holds their closure, and nothing in it lies on a cycle. |
| `Resolver.JustifiedIsReal` | dev/lib/govctl_resolve.py:72-92 | Every error of the search contradicts resolvability. |
| `CycleMarks.Detect` | metrics/runner/backend_collector.py:70-95 | For every graph and every order of keys and neighbours: the marked nodes are exactly those on a cycle none of whose nodes was finished when they were entered; so every node of every cycle is marked if and only if each has such a cycle, which is certain when no node has two successors that meet again on the way back to it; every cycle has a marked node; nothing is marked exactly when the graph is acyclic. |
| `CycleMarks.LeaveMarked` | metrics/runner/backend_collector.py:76-90 | A node left unmarked has no cycle around what was finished before it. |
| `CycleMarks.LeaveMerges` | metrics/runner/backend_collector.py:76-90 | A node missed although it lies on a cycle shows two successors of an ancestor that meet again and lead back. |
| `CycleMarks.CycleHasMark` | metrics/runner/backend_collector.py:76-90 | Descending through what was finished earlier, every cycle is found to hold a mark. |
| `CycleMarks.OneWayBackNeverMerges` | metrics/runner/backend_collector.py:70-95 | In particular the promise holds when no node has two different successors that lead back to it. |
| `CycleMarks.FigureEight` | metrics/runner/backend_collector.py:70-95 | The condition is wider than that: two cycles sharing one node meet it. |
| `CycleMarks.MissesNode` | metrics/runner/backend_collector.py:70-95 | Concrete graph with a cycle through c on which c is not marked. |
| `CycleMarks.Marker.Dfs` | metrics/runner/backend_collector.py:76-90 | The recursion computes the search function and keeps: finished nodes are settled, back edges have marked what they span, and what was finished between two path nodes hangs below the first. |
| `CycleMarks.Marker.MarkBackEdge` | metrics/runner/backend_collector.py:83-86 | The path from the neighbour on is marked, and all of it lies on the cycle the edge closes. |
| `Reducer.DeltaReducer.Materialize` | src/nightfall_photo_ingress/adapters/onedrive/client.py:1052-1062 | Over the raw items fed so far: the output lists, by position, exactly the items that are files with id, name and an acceptable size and after which no item of the same id is deleted or such a file; each with its own id, name, size and URL. |
| `Reducer.DeltaReducer.ApplyPage` | src/nightfall_photo_ingress/adapters/onedrive/client.py:996-1049 | Applying a page leaves exactly the state of feeding its items after all earlier ones; a payload without a list changes nothing. |
| `Reducer.BackwardMeansLastWord` | src/nightfall_photo_ingress/adapters/onedrive/client.py:996-1062 | The scan lists exactly the valid files that have the last effective event of their id, ordered by the position of that event. |
| `Reducer.BackwardMeansLastWords` | src/nightfall_photo_ingress/adapters/onedrive/client.py:996-1062 | The same said of the raw fields alone. |
| `Reducer.EventMeans` | src/nightfall_photo_ingress/adapters/onedrive/client.py:1004-1049 | An item is a file event exactly when it is not deleted, is a file, and has an id, a name and a size that is missing or a non-negative integer; it decides its id exactly when it is that or a deletion. |
| `Reducer.BackwardIds` | src/nightfall_photo_ingress/adapters/onedrive/client.py:996-1062 | No id appears twice among the candidates. |
| `Reducer.PagesAreTheirConcatenation` | src/nightfall_photo_ingress/adapters/onedrive/client.py:996-1049 | Feeding pages one at a time equals feeding their concatenation. |
| `Reducer.OrderedIsBackward` | src/nightfall_photo_ingress/adapters/onedrive/client.py:1052-1062 | Listing the dictionary by sequence number gives the backward scan. |
| `Reducer.SortedCandidates` | src/nightfall_photo_ingress/adapters/onedrive/client.py:1052-1062 | Sorting by sequence number and dropping tombstones gives the listed candidates in order. |
| `DeltaPoll.CursorEndsFinishedChain` | src/nightfall_photo_ingress/adapters/onedrive/client.py:671-877 | At-least-once delivery over any history of runs and crashes: the persisted cursor is the initial URL or ends a chain of pages, each finished before the next was fetched, each reached by the link before it. |
| `DeltaPoll.ChainLosesNothing` | src/nightfall_photo_ingress/adapters/onedrive/client.py:671-877 | Every in-budget candidate of every page of that chain was handed off or given a ghost reason after the page was fetched; all of them if the page fits the budget. |
| `DeltaPoll.ChainExplains` | src/nightfall_photo_ingress/adapters/onedrive/client.py:1143-1301 | Every in-budget candidate before the cursor was handed off, unless the answers to its requests called for giving it up: no size in strict mode, no URL, unreachable after the refresh, or a download without size in tolerant mode. |
| `DeltaPoll.ChainDelivers` | src/nightfall_photo_ingress/adapters/onedrive/client.py:1256-1301 | So a candidate of known size whose download completes whenever it is tried was handed off. |
| `DeltaPoll.WholePageSettled` | src/nightfall_photo_ingress/adapters/onedrive/client.py:792-823 | The budget cut, exactly: a processed page has all its candidates settled if and only if it fits the budget it was fetched with. |
| `DeltaPoll.BudgetCutsPage` | src/nightfall_photo_ingress/adapters/onedrive/client.py:792-835 | Concrete run, within a budget of one file and one page, in which the cursor moves past a candidate that was never looked at. |
| `DeltaPoll.OnlyOfferedSettles` | src/nightfall_photo_ingress/adapters/onedrive/client.py:792-821 | Nothing is handed off or ghosted but what the current page offers within the budget. |
| `DeltaPoll.PrefixConsistent` | src/nightfall_photo_ingress/adapters/onedrive/client.py:671-877 | A crash after any step leaves a consistent history. |
| `DeltaPoll.RunBounds` | src/nightfall_photo_ingress/adapters/onedrive/client.py:671-732 | Over one run: as many distinct URLs as fetches, at most `max_delta_pages` of them; at most `max_downloads` kept files; at most `max_downloads` downloads per page, quarantined ones included, and none is quarantined unless the mode is tolerant. |
| `DeltaPoll.SizedIsKept` | src/nightfall_photo_ingress/adapters/onedrive/client.py:1256-1272 | When every size is known every download is kept, so the cap holds for all of them. |
| `DeltaPoll.QuarantinePassesCap` | src/nightfall_photo_ingress/adapters/onedrive/client.py:1256-1272 | For every tolerant configuration with two pages: a run with one download more than the cap. |
| `DeltaPoll.CapHoldsExactly` | src/nightfall_photo_ingress/adapters/onedrive/client.py:792-821 | All downloads of every run stay within the cap if and only if the mode is not tolerant or one page is the limit. |
| `DeltaPoll.ChainIsAccounted` | src/nightfall_photo_ingress/adapters/onedrive/client.py:790-877 | Poll and ingest together: every in-budget candidate of every page before the cursor was given up with a reason or has an ingest outcome of its own. |
| `DeltaPoll.Poller.HandOff` | src/nightfall_photo_ingress/adapters/onedrive/client.py:814-820 | The handoff ingests the page's downloads as one batch; only a finished batch counts as handed off, and whatever it hashed is on record; it fails only when a job of the batch is stuck. |
| `DeltaPoll.Poller.Lifetime` | src/nightfall_photo_ingress/adapters/onedrive/client.py:605-920 | Any number of polls, each cut off after any of its steps, keeps the delivery guarantee, the path invariant and the record of what was handed off, and every step of the history is called for by the answers of some poll. |
| `DeltaPoll.Poller.PollOnce` | src/nightfall_photo_ingress/adapters/onedrive/client.py:605-920 | However a poll ends, every step was allowed and called for, and the run stayed within its limits on pages, kept files and downloads per page; it cools down exactly when the breaker is active; an error has a cause (time, page limit, repeated link, failed fetch, a failed request for an offered candidate, a stuck job, or no delta link), a resync a repeated link or a 410; a completed poll has saved the last delta link it was given, or the budget halted it before it was given one. |
| `DeltaPoll.Poller.WalkPages` | src/nightfall_photo_ingress/adapters/onedrive/client.py:671-855 | The page loop: the delta link kept is the last one a page carried and belongs to a finished page; every early end has its cause. |
| `DeltaPoll.Poller.WalkAndSave` | src/nightfall_photo_ingress/adapters/onedrive/client.py:671-880 | After the loop the last delta link is saved; without one the poll is an error unless the budget ended it. |
| `DeltaPoll.Poller.PollPage` | src/nightfall_photo_ingress/adapters/onedrive/client.py:732-835 | One page: fetched from the cursor, processed, and only then its next link saved; the links returned are those of the page; no page comes back exactly when the fetch brings none, and a failed page has a cause. |
| `DeltaPoll.Poller.ProcessPage` | src/nightfall_photo_ingress/adapters/onedrive/client.py:790-820 | Success means every in-budget candidate of the page was settled and the download count is exact; failure means a request for an offered candidate broke or a job of the handoff is stuck. |
| `DeltaPoll.Poller.DownloadCandidates` | src/nightfall_photo_ingress/adapters/onedrive/client.py:1143-1301 | The first `limit` candidates are each kept or settled, each as its answers call for; what is returned was downloaded from this page; it fails only when a request for one of them breaks. |
| `DeltaPoll.Poller.DownloadOne` | src/nightfall_photo_ingress/adapters/onedrive/client.py:1143-1301 | Which of the four ends a candidate comes to is decided, both ways, by the answers alone: kept if and only if a usable URL was found and a download completed, at once or after the one refresh, and it has a size or the mode is neither strict nor tolerant; quarantined if and only if it completed without size in tolerant mode; ghosted for each reason if and only if that reason holds; aborted if and only if a request broke. |
| `DeltaPoll.Poller.Try` | src/nightfall_photo_ingress/adapters/onedrive/client.py:1152-1272 | The requests for one candidate, with the same four equivalences. |
| `DeltaPoll.ReducePage` | src/nightfall_photo_ingress/adapters/onedrive/client.py:1093-1107 | A page's candidates are its backward scan: the items of the page that have the last word on their id. |
| `Retry.DownloadWithRetry` | src/nightfall_photo_ingress/adapters/onedrive/client.py:1491-1744 | At most `max_attempts` requests; each but the last was answered by nothing, by 429, 500, 502, 503 or 504, or by a body of the wrong length, and is followed by the delay computed from its attempt and its server hint; total sleep at most (max_attempts-1)*max_delay; the download is done exactly when the last response is below 400, was written and has the expected length; success leaves its body, failure leaves no file unless the clean-up of the last attempt itself failed, which the source ignores. |
| `Retry.GraphGet` | src/nightfall_photo_ingress/adapters/onedrive/client.py:1747-1993 | Same bounds, at most one token refresh, one delay with the server hint after each transient answer and none after a refusal; the last response decides the result (a body that is JSON but no object raises), and the loop exit is reached exactly when the refresher works, the response to the last allowed attempt is a refusal and all earlier ones are transient (or no attempt is allowed). |
| `Retry.Meet` | src/nightfall_photo_ingress/adapters/onedrive/client.py:1790-1975 | One answer: a first refusal is met by a refresh that works, a transient answer by another attempt while one is left, and everything else ends the call. |
| `Retry.ComputeDelay` | src/nightfall_photo_ingress/adapters/onedrive/retry.py:110-141 | Never above the cap; a server hint within the cap is honoured exactly; below the cap the delay minus jitter is base times a power of two. |
| `Retry.DelayDoubles` | src/nightfall_photo_ingress/adapters/onedrive/retry.py:110-141 | Without hint and jitter the delay starts at the base and doubles with each attempt, up to the cap. |
| `Retry.TotalWithinPolicy` | src/nightfall_photo_ingress/adapters/onedrive/retry.py:110-141 | Capped delays, fewer than the allowed attempts, sum to at most (max_attempts-1)*max_delay. |
| `Storage.ChooseDestination` | src/nightfall_photo_ingress/domain/storage.py:95-114 | The base path or the lowest free numbered name; fails exactly when all are taken (or none may be tried), which cannot happen when the directory holds at most `max_attempts` entries. |
| `Storage.FullDirectory` | src/nightfall_photo_ingress/domain/storage.py:95-114 | Pigeonhole: when all candidates are taken the directory holds more than `max_attempts` entries. |
| `Storage.NumberedInjective` | src/nightfall_photo_ingress/domain/storage.py:104-108 | Different numbers give different names. |
| `Storage.DecimalRoundTrip` | src/nightfall_photo_ingress/domain/storage.py:104-108 | Reading a decimal suffix back gives the number. |
| `Storage.NumberedNotTmp` | src/nightfall_photo_ingress/domain/storage.py:104-108 | Numbering never makes a `.tmp` name. |
| `Storage.Disk.CommitFile` | src/nightfall_photo_ingress/domain/storage.py:117-179 | Moves exactly when the source exists, the destination lies under the root and, across pools, the source is not the `.tmp` sibling and the copy is exact; each refusal has its own condition. In every intermediate state the full content is at the source or the destination, and nothing differs from the start but source, destination and the `.tmp` sibling; after a move the destination equals the original source (false exactly for a cross-pool move onto itself). |
| `Lifecycle.Pipeline.Run` | src/nightfall_photo_ingress/reject.py:60-450 | Over every run of completed commands: records of each status point into their own root or nowhere, every recorded path holds a file with that hash, no two records share a path, no record is lost, none turns pending again, and the content of a record with a path stays in the queues unless its hash is purged, even when a block rule clears the path. |
| `Lifecycle.Pipeline.ProcessOne` | src/nightfall_photo_ingress/domain/ingest.py:438-712 | A condition on candidate, options, staged content, registry and index for each way an ingest can end, both ways: missing file, wrong size, the two zero-byte exits, discarded by the key's row (same size, same time, hash on record), blocked, discarded by the hash of the content, queued; a collision limit exactly when all names are taken and a broken move exactly when a cross-pool copy differs; files, registry, index and origins afterwards are stated for each. It touches no other staged file and loses no queued content; the journal is left closed; its recorded moments leave out no disk state and no journal, torn lines included, and the path invariant holds at each. |
| `Lifecycle.Pipeline.Screen` | src/nightfall_photo_ingress/domain/ingest.py:461-540 | The exits before hashing, each with its journal line, decide as the matrix does, and the matrix means what `Records.DecideMeans` says. |
| `Records.DecideMeans` | src/nightfall_photo_ingress/domain/ingest.py:438-712 | The decision matrix in terms of staged content, sizes, times, options, registry and index: one equivalence for each action, and the hash each carries. |
| `Records.EffectMeans` | src/nightfall_photo_ingress/domain/ingest.py:438-712 | Registry, index, origins and files after an ingest, action by action. |
| `Lifecycle.Pipeline.Settle` | src/nightfall_photo_ingress/domain/ingest.py:550-600 | A blocked or known hash: the staged file goes, the registry is brought up to date, the journal closed. |
| `Lifecycle.Pipeline.Enqueue` | src/nightfall_photo_ingress/domain/ingest.py:597-648 | A new hash: the file ends up at the lowest free pending path and on record; nothing is registered exactly when all names are taken or a cross-pool copy differs. |
| `Lifecycle.Pipeline.Land` | src/nightfall_photo_ingress/domain/ingest.py:614-641 | The three steps after the move, with the moment between registry commit and journal line among them. |
| `Lifecycle.Pipeline.ProcessHashed` | src/nightfall_photo_ingress/domain/ingest.py:542-675 | The hashed half of the same, with block rules, known hashes and new hashes. |
| `Lifecycle.Pipeline.Relocate` | src/nightfall_photo_ingress/domain/ingest.py:604-614 | The file arrives at the lowest free name; there is none exactly when all are taken; the move breaks exactly when there is one and a cross-pool copy differs; on failure only a `.tmp` sibling can be gone. |
| `Lifecycle.Pipeline.AcceptSha` | src/nightfall_photo_ingress/reject.py:89-158 | Acceptance happens exactly for a pending record with a known origin whose file can be moved: it fails for want of a free name exactly when all are taken, for a bad copy exactly when a cross-pool copy differs; the file goes to the lowest free name; on the way the invariant holds exactly until the file leaves its recorded place, and again at the end. |
| `Lifecycle.Pipeline.ApplyReject` | src/nightfall_photo_ingress/reject.py:265-384 | Afterwards the hash is on record as rejected, repeating is a no-op, other records are unchanged, and the invariant holds; it fails for want of a name exactly when a file has to move and all names are taken; on the way the invariant holds exactly until the file leaves its recorded place, and again at the end. |
| `Lifecycle.Pipeline.RejectKnown` | src/nightfall_photo_ingress/reject.py:359-383 | Move, path and status in this order: the invariant fails at every moment between the move and the last transaction. |
| `Lifecycle.Pipeline.RenameToRejected` | src/nightfall_photo_ingress/reject.py:427-450 | A rename to the lowest free name under the rejected root, refused exactly when all are taken. |
| `Lifecycle.Pipeline.PurgeSha` | src/nightfall_photo_ingress/reject.py:161-211 | Purges exactly the rejected records: the file is gone, the record has no path; otherwise nothing changes; the invariant fails exactly between unlink and transaction. |
| `Trail.StandsExactly` | src/nightfall_photo_ingress/reject.py:89-211 | While the registry is unchanged, the invariant holds exactly while the recorded file stands. |
| `Lifecycle.Pipeline.ProcessTrash` | src/nightfall_photo_ingress/reject.py:214-262 | When it completes, the trash is empty, every content that was there is on record as rejected, and the counters add up to the files found; it stops only at a file all of whose names are taken. |
| `Lifecycle.Pipeline.TrashOne` | src/nightfall_photo_ingress/reject.py:224-254 | One trash file: its content becomes rejected, the file goes, earlier rejections stay. |
| `Records.PathsDistinct` | src/nightfall_photo_ingress/domain/registry.py:582-593 | Under the invariant two records never share a path. |
| `Records.SoundMove` | src/nightfall_photo_ingress/domain/registry.py:419-468 | Moving a file to a free path and recording it there keeps the invariant for all records. |
| `Records.SoundDrop` | src/nightfall_photo_ingress/domain/storage.py:153-174 | Losing a `.tmp` file or one outside the queue roots keeps it. |
| `Batch.ProcessBatch` | src/nightfall_photo_ingress/domain/ingest.py:112-271 | For any processing order a completed batch has one order-free description: outcome i belongs to candidate i and agrees with the decision made up front, the registry gains exactly the new hashes, each queued by exactly one job; it fails only when some job has all its names taken or a bad cross-pool copy. |
| `Batch.SchedulesAgree` | src/nightfall_photo_ingress/domain/ingest.py:155-212 | Two schedules register the same hashes with the same statuses and queue the same ones; a job whose outcome differs was to queue new content that another job of the batch was to queue too. |
| `Batch.PendingIsNewHashes` | src/nightfall_photo_ingress/domain/ingest.py:156-248 | The pending counter equals the number of hashes the batch adds. |
| `Batch.CountersCoverBatch` | src/nightfall_photo_ingress/domain/ingest.py:248-271 | The pending, discarded, size-mismatch and two zero-byte counters sum to the batch size; prefilter hits and misses do too. |
| `Batch.IngestBatch` | src/nightfall_photo_ingress/domain/ingest.py:112-271 | Any batch, block rules and repeated keys included, in any order: when it finishes every job has an outcome of its own key, and every hash an outcome speaks of is on record; it fails only when some job is stuck in this sense. |
| `Batch.DecisionLater` | src/nightfall_photo_ingress/domain/ingest.py:438-712 | What other jobs of the batch do can change a decision only from queued to discarded-as-pending, exactly when they registered the same hash. |
| `Batch.StepProgress` | src/nightfall_photo_ingress/domain/ingest.py:164-182 | Processing one more job keeps the progress relation to the start state. |
| `Journal.Recovery.Replay` | src/nightfall_photo_ingress/domain/ingest.py:381-436 | An operation counts as interrupted exactly when none of its records says `registry_persisted`; each is reported once, in order of first appearance; the disk changes by the last record of each such operation, in that order, and by nothing else; the counters are the numbers of files set aside and removed; the journal is cleared; a journal that cannot be read fails the replay without any change. |
| `Journal.ReplayEffect` | src/nightfall_photo_ingress/domain/ingest.py:409-420 | The last record that names a path or moves a file onto it decides what stands there; a path no record touches is unchanged. |
| `Journal.SurvivesExactly` | src/nightfall_photo_ingress/domain/ingest.py:409-420 | A file keeps its content exactly when no interrupted record names it or moves a file onto it, or the last one to do so moves the same content; files named `.orphaned` included. |
| `Journal.OrphanOverwritten` | src/nightfall_photo_ingress/domain/ingest.py:413-416 | The destructive case: a file at the `.orphaned` name of an interrupted destination is overwritten. |
| `Journal.ReplayKeepsBytes` | src/nightfall_photo_ingress/domain/ingest.py:413-416 | What stood at a destination stands unchanged at its `.orphaned` name, unless a record names that path too or uses the destination as staging path. |
| `Journal.Recovery.ReplayTwice` | src/nightfall_photo_ingress/domain/ingest.py:381-436 | An immediate second replay reports nothing and changes nothing. |
| `Journal.GroupByOp` | src/nightfall_photo_ingress/domain/ingest.py:392-395 | Operations in order of first appearance, each with exactly its records in order. |
| `Journal.TestPhases` | src/nightfall_photo_ingress/domain/ingest.py:402-409 | The phase test decides interruption, and the last grouped record is the operation's last journal record. |
| `Journal.OfLatest` | src/nightfall_photo_ingress/domain/ingest.py:409-409 | The last of an operation's records is the last one in the interleaved journal. |
| `Journal.ReadAll` | src/nightfall_photo_ingress/domain/journal.py:74-110 | Reading fails exactly when some line is JSON but no object; otherwise blank, unparsable and incomplete lines are skipped and the rest kept in order. |
| `Journal.Recovery.Append` | src/nightfall_photo_ingress/domain/journal.py:43-72 | After a whole line the record is read back last, no other operation changes standing, `registry_persisted` ends an interruption and a first record of any other phase begins one; after a torn line neither the record nor that line can be read. |
| `Crash.SoundAfterReplay` | src/nightfall_photo_ingress/domain/ingest.py:381-436 | For any registry, disk and replay the path invariant survives exactly when every recorded file does. |
| `Crash.CutThenReplay` | src/nightfall_photo_ingress/domain/ingest.py:381-436 | Cut an ingest at any moment and replay: the path invariant holds afterwards if and only if the journal does not show the operation as moved and unpersisted while the registry already records its destination (or a file of the `.orphaned` name it would take). |
| `Crash.WindowIsExposed` | src/nightfall_photo_ingress/domain/ingest.py:614-641 | Every ingest that queues a file passes through such a moment, between registry commit and `registry_persisted`, and again while that line is being written. |
| `Crash.QueuedCanBreak` | src/nightfall_photo_ingress/domain/ingest.py:614-641 | So for every queued file there is a cut after which replay breaks the invariant. |
| `Crash.CrashBeforePersisted` | src/nightfall_photo_ingress/domain/ingest.py:614-641 | A concrete one, reached by the landing steps from a registry without the file. |
| `Crash.QuietAfter` | src/nightfall_photo_ingress/domain/ingest.py:438-675 | A finished ingest leaves a journal whose replay can only delete staged files. |
| `Crash.RecoverFrom` | src/nightfall_photo_ingress/domain/ingest.py:381-436 | Starting again from a moment by replaying its journal restores the invariant exactly when the moment is not exposed. |
| `Crash.IngestAll` | src/nightfall_photo_ingress/domain/ingest.py:164-182 | The same for any number of ingests over one journal: the cuts include every disk state and every journal, torn lines included, that they go through, and each is recoverable exactly when nothing is exposed. |
| `LivePhoto.Run` | src/nightfall_photo_ingress/live_photo.py:105-216 | Over every run from an empty queue no two queued entries are matchable; the candidates of the run that classify are, as a multiset, those queued, those aged out and the halves of the returned pairs; each pair is one matching photo and video. |
| `LivePhoto.DeferredPairQueue.Ingest` | src/nightfall_photo_ingress/live_photo.py:113-167 | A pair comes out exactly when something matches; the partner is the first of the nearest in time and leaves by position; the pair is one photo and one video of the same account and stem; otherwise the entry is queued last. |
| `LivePhoto.DeferredPairQueue.PopAged` | src/nightfall_photo_ingress/live_photo.py:189-216 | Exactly the entries old enough leave; the others stay in order. |
| `LivePhoto.SelectedSplits` | src/nightfall_photo_ingress/live_photo.py:189-216 | Entries kept and entries removed together are the queue, as a multiset, and lie on their own side of the age limit. |
| `LivePhoto.Choose` | src/nightfall_photo_ingress/live_photo.py:121-152 | A counterpart is chosen exactly when one exists, and it is the first nearest. |
| `LivePhoto.RemovedIsChosen` | src/nightfall_photo_ingress/live_photo.py:148-152 | Removal by equality clears the chosen position even when equal entries exist. |
| `LivePhoto.Eligible` | src/nightfall_photo_ingress/live_photo.py:121-132 | The eligible list is exactly the matching entries in queue order. |
| `LivePhoto.Nearest` | src/nightfall_photo_ingress/live_photo.py:148-151 | The first of the nearest. |
| `LivePhoto.ClassifyMeans` | src/nightfall_photo_ingress/live_photo.py:219-225 | A name is a photo exactly when it ends in one of the four photo extensions, and a video exactly when it ends in one of the three video extensions, in letters of either case and with something before them. |
| `Idempotency.Api.ServeAll` | api/services/triage_service.py:32-193 | Any interleaving of calls to both services: a key commits at most once; after its first reply a call with the same action and item gets that reply again and every other call under the key is refused; requested triage events equal applied plus compensating ones. |
| `Idempotency.RefusedExactly` | api/services/blocklist_service.py:184-200 | A later call under a key that has its reply is refused if and only if its action or item differs or the stored reply does not fit its response model. |
| `Idempotency.OtherRequestPasses` | api/services/blocklist_service.py:184-235 | Two different updates of one rule, and two creations of one pattern with different types, share a key: the second gets the reply of the first. |
| `Idempotency.Api.ExecuteTriage` | api/services/triage_service.py:32-126 | A stored key replays without change; a new key either applies the state ("accepted", "rejected" or "pending" for accept, reject and defer), with both audit events and the stored reply, or leaves state unchanged with a compensating event; other actions are unsupported. |
| `Idempotency.Api.Persist` | api/services/triage_service.py:160-193 | A fresh key gets one row; keys and commits stay in step. |
| `Idempotency.Api.CreateRule` | api/services/blocklist_service.py:40-88 | Succeeds exactly for a free pattern, a known rule type and no fault; the id is new; failure changes nothing. |
| `Idempotency.Api.UpdateRule` | api/services/blocklist_service.py:90-151 | Succeeds exactly when the patched rule keeps patterns unique and the type known; missing fields keep their values. |
| `Idempotency.Api.DeleteRule` | api/services/blocklist_service.py:153-182 | Succeeds exactly for an existing rule without fault; only that rule goes. |
| `Idempotency.Api.Serve` | api/services/blocklist_service.py:184-235 | Whatever the service, a known key never mutates, a success stores its reply, a failure leaves rules, files and keys unchanged. |
| `Idempotency.ServedOne` | api/services/blocklist_service.py:184-200 | One more call keeps stored replies and faithfulness to them. |
| `HashImport.Registry.Execute` | src/nightfall_photo_ingress/hash_import.py:234-287 | Chunk k covers positions k*size to (k+1)*size, and there is a report for each that starts inside the list: its number, how many of its hashes neither the table nor an earlier position holds, and how many it skips; the dry run reports exactly what the real run does and leaves the table alone; the real run leaves the union. |
| `HashImport.ReportsMean` | src/nightfall_photo_ingress/hash_import.py:234-287 | The recursive report says this for every list, table and chunk size. |
| `HashImport.TotalsIgnoreChunkSize` | src/nightfall_photo_ingress/hash_import.py:216-231 | Imported and skipped totals depend on the hashes and the table only, not on the chunk size. |
| `HashImport.SecondRunImportsNothing` | src/nightfall_photo_ingress/hash_import.py:153-163 | A second run imports nothing. |
| `HashImport.ReportsDependOnListed` | src/nightfall_photo_ingress/hash_import.py:249-262 | Looking up only the listed hashes is enough for the simulation. |
| `HashImport.NewIsCardinality` | src/nightfall_photo_ingress/hash_import.py:254-262 | The running count equals the number of distinct hashes not yet present. |
| `HashImport.FetchExisting` | src/nightfall_photo_ingress/hash_import.py:290-314 | Exactly the listed hashes that are in the table. |
| `HashImport.Simulate` | src/nightfall_photo_ingress/hash_import.py:249-270 | The simulated loop gives the expected report. |
| `HashImport.Registry.BulkInsert` | src/nightfall_photo_ingress/domain/registry.py:850-901 | Chunk reports in order, the table becomes the union; a chunk size below one is refused without change. |
| `HashImport.Registry.InsertChunk` | src/nightfall_photo_ingress/domain/registry.py:872-895 | Counts the rows that were new and adds the chunk. |
| `AuditLog.FollowAll` | api/services/audit_service.py:34-110 | Following cursors to the end yields exactly the events of the first read that have the wanted action, newest first and each once, whatever is appended between reads, for every limit of at least one. |
| `AuditLog.GetAuditLog` | api/services/audit_service.py:34-110 | A page is the first `limit` matching rows; the cursor is that of the last row kept and is present exactly when rows remain. |
| `AuditLog.QueryDescends` | api/services/audit_service.py:57-70 | Rows are strictly newest first, hence each once. |
| `AuditLog.QueryMembers` | api/services/audit_service.py:44-70 | Rows are exactly the matching events below the cursor. |
| `AuditLog.QueryAfter` | api/services/audit_service.py:44-70 | Moving the cursor to a row leaves exactly the rows after it. |
| `AuditLog.AppendsInvisible` | api/services/audit_service.py:44-70 | Later events do not appear under an issued cursor. |
| `Momentum.StepFrame` | webui/src/lib/components/staging/photowheel-momentum.ts:39-93 | The index stays valid; a frame that goes on conserves distance (threshold times index change plus leftover equals carried plus velocity times time) with the leftover below the threshold; it rests without a boundary stop exactly when nothing is there or the speed is too low; a boundary stop is at the end towards which at least one more step was left. |
| `Momentum.TakeSteps` | webui/src/lib/components/staging/photowheel-momentum.ts:68-84 | The stepping loop ends for every threshold and conserves distance; it stops early only at the end it is turning to, with a step still left. |
| `Momentum.SpinDown` | webui/src/lib/components/staging/photowheel-momentum.ts:39-93 | Repeated frames reach IDLE within a bound computed from the start velocity, whatever the frame times. |
| `Momentum.FrameLoses` | webui/src/lib/components/staging/photowheel-momentum.ts:54-63 | A frame that keeps turning loses at least minVelocity*(1-friction) of speed. |
| `Momentum.DefaultBound` | webui/src/lib/components/staging/photowheel-momentum.ts:3-5 | With the default constants the bound is at most 250 frames per pixel per millisecond of start velocity, plus one. |

## Left out

- CycleMarks.Detect: the condition that does not mention the order of keys and neighbours is sufficient only; the exact one refers to what the search had finished when it entered a node.
- Lifecycle.Pipeline.ApplyReject: does not model the branch for live-photo pairs, which can stop between the moves of the two members and does not keep the path invariant.
- Lifecycle.Pipeline.ProcessOne: the quarantine target, the rendered destination and the block-rule match are inputs; rendering templates and matching patterns are string plumbing.
- Batch.ProcessBatch: says nothing of the registry beyond the path invariant when one job fails, because the jobs before it have been processed; argument checks at the start of the batch, terminal audit rows and pair rows are not modelled.
- LivePhoto.DeferredPairQueue.PopAged: the final sort of the returned rows for display is not modelled; contents are.
- Journal.Recovery.Append: rotation of the journal file at its size limit is not modelled.
- DeltaPoll.Poller.PollOnce: white space around a stored cursor, counters of anomalies and when the breaker arms are not modelled; whether a cool-down is active is an input.
- Retry.DownloadWithRetry: a failing write or clean-up is a flag per attempt, and what a failing write leaves is an input.
- Lifecycle.Pipeline.TrashOne: the moments of rejecting the content are recorded, the unlink after it is not.
- Threaded ingest and parallel polling of accounts: no ordering is promised.
- Progress after a 410 response: only a marker is written and the old cursor is used again.
- API triage does not move files, so it is part of `Idempotency` and not of the path invariant.
- HTTP, OAuth, SQL text and schema migration, configuration parsing, dashboards, thumbnails, Svelte stores: foreign effects or easy members.
- Directory hashing for `.hashes.v2` caches and parsing of those caches.
- Path discovery at onboarding, locale detection, log redaction.
