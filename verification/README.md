# Resourcey, modelled and proved

Resourcey is a web framework that serves resources over interchangeable stores. This
project models the parts of it whose correctness spans many calls, and proves what they
promise. It is plain Dafny 4.11; `dafny verify dfyconfig.toml` checks all of it.

## What is modelled

**Durable jobs.** `job_rows.dfy` holds the table's rows, the conditional update with its
terminal guard, and the writes of runners and clients. `job_protocol.dfy` interleaves them
at the grain of single storage calls, with stale snapshots between a read and a write.
`job_lease.dfy` adds a clock and takes one loop iteration's read and write together: that is
the grain at which a claim is a lease and a job's attempts are bounded. `job_runner.dfy` is
the runner itself: enumeration, recovery, promotion, claims, bodies and exit, as methods
over a table.

**Paging.** `paging.dfy` is list paging: two stable sorts, a cursor seek, pages, and walks
over data that may change between fetches. `mongo_paging.dfy` is the same service over
documents, by one merged query and a sort specification, and proves that it refines the
former.

**Filters and their compiler.** `filters.dfy` evaluates filter trees as memory does, where
an order comparison may raise, and says what they mean. `mongo_query.dfy` evaluates Mongo
queries over documents with null and missing fields. `filter_converter.dfy` compiles one to
the other with pushed-down polarity.

**Authorized writes.** `policies.dfy` reduces policies to filters, `mongo_service.dfy` is
the document store's write path, `authorized_service.dfy` puts the policies' scope into
every write, and `batch_routes.dfy` groups cross-resource batches into runs. The theorems of
`authorized_service.dfy` compose policies, compiler and store, and those of
`authorized_paging.dfy` policies, compiler and paging.

**State that agrees with something simpler.** `cache.dfy` (a read-through cache shared by
several resources), `oauth_lease.dfy` (a refresh lease held by compare-and-swap),
`realtime.dfy` (a drop-oldest fan-out) and `base36.dfy` (fixed-width key secrets).

`values.dfy` holds the attribute values and their order, `wrappers.dfy` options and results.

## Where the code and its documentation part

- Value leaves are documented as false on null; in memory the four order leaves raise there.
  Both are modelled (`Matches` and `Holds`), and the compiler is proved against the meaning.
- The claim condition names the holder but not the claim, the terminal guard aside; the
  lease theorem therefore needs bodies that keep to their bound, and a run shows why.
- A Mongo walk by the identifier, descending, is the one sort whose seek is not the cursor
  test: both entries of the query's object have the same key. Its sort specification names the
  identifier twice as well: a client that keeps the pairs sorts descending, one that makes a
  mapping of them ascending. Either way such a walk goes round in a circle
  (`descending_walk.dfy`).
- A write that raises skips the cache's eviction, also when it had changed rows.
- A policy-wrapped service decides on all edits of a run before it writes the first, so a gate
  that raises refuses the run's earlier nodes too; taken singly they would be written.
- A list of more identifiers than a filter may carry does not narrow a scope but refuses it:
  an update or delete of a listed row raises, and so does one another policy permits.
- A login during a refresh clears the refresher's lease.

## Model

| member | source | states |
|---|---|---|
| `Values.TextLessExactly` | src/resourcey/list/list_service.py:239-268 | Text is ordered by the first character in which two texts differ, a proper start coming first |
| `Values.TextComparesAtDifference` | src/resourcey/list/list_service.py:239-268 | So two texts compare by their first difference, whatever follows it |
| `Values.BeforeByKind` | src/resourcey/list/list_service.py:239-268 | Null sorts before everything, numbers by size, text by its own order |
| `JobLease.LeaseMutualExclusion` | src/resourcey/jobs/jobs_runner.py:203-376 | In every reachable state of any number of runners each job has at most one live run, and what that run loaded has the row's current attempts, provided bodies keep to their bound or their process dies and clients only cancel running rows |
| `JobLease.OverdueRunIsJoined` | src/resourcey/jobs/jobs_runner.py:203-300 | Without that assumption: in any state the system can reach, a live run whose row is overdue and below its cap is joined by a second run of its job two steps later, and if the claiming runner is the one still running the old body, that body's finish ends the new claim, which has no epoch |
| `JobLease.RecoveredUnderRun` | src/resourcey/jobs/jobs_runner.py:203-243 | A row recovered under its run can be claimed again exactly when its attempts were below the cap; at the cap recovery ends in ERROR and no second run can join |
| `JobLease.OverdueRunBreaksLease` | src/resourcey/jobs/jobs_runner.py:424-429 | A run from the empty table that ends in such a state |
| `JobLease.CreatedJobTerminates` | src/resourcey/jobs/jobs_runner.py:224-376 | However late the bodies are, as long as a runner does not claim a job twice at once: without client edits and without releases that give it back, a job created with cap n gets at most 2n+1 runner writes, and never more than its measure says is left |
| `JobLease.AttemptsBounded` | src/resourcey/jobs/jobs_runner.py:284-376 | Under the same assumption, with releases allowed, attempts never exceed the cap plus the number of releases that gave the job back |
| `JobLease.TimelyMeansOneRunEach` | src/resourcey/jobs/jobs_runner.py:271-300 | The runs of timely runners are among those in which a runner has at most one body of a job, with the same states, so the two theorems above hold of them too |
| `JobLease.SweepStepsExactly` | src/resourcey/jobs/jobs_runner.py:203-300 | The runner's steps are its writes: an overrun claim can be recovered, a due schedule promoted and a pending row claimed, whichever runner does it, with the effect on the row that the sweep has, and a claim starts one body |
| `JobLease.EndsExactly` | src/resourcey/jobs/jobs_runner.py:148-376 | A body that loaded its row can finish, writes its outcome where its runner still holds the row, and is gone; an exit ends exactly the runner's bodies and has each of their jobs to release; a release gives back what is still held |
| `JobLease.OtherStepsExactly` | src/resourcey/jobs/jobs_model.py:169-179 | The clients' creates and edits write what they supply, edits of terminal rows nothing; time, loads, lost bodies and dying processes write no row |
| `JobProtocol.TerminalFrozen` | src/resourcey/jobs/jobs_model.py:83-85 | Once a row is COMPLETED, ERROR or CANCELLED, no client edit, late finish, recovery, promotion or release by any runner, with any stale snapshot, changes any of its fields |
| `JobProtocol.ClaimOwnership` | src/resourcey/jobs/jobs_runner.py:271-376 | Over every interleaving with stale snapshots, claims and claim ends of a job alternate, so each PENDING period is won at most once, and a RUNNING row carries the holder and time of its last claim |
| `JobProtocol.OnlyTheHolderWrites` | src/resourcey/jobs/jobs_runner.py:350-376 | A finish or a release by one runner never alters a row another runner holds |
| `JobProtocol.RunnerStepExactly` | src/resourcey/jobs/jobs_runner.py:203-376 | Acting on a row read at any time before: where the stored row passes the writer's condition it becomes, field by field, what the writer made of what it saw; otherwise, and for every other row, nothing changes |
| `JobProtocol.ClientStepExactly` | src/resourcey/jobs/jobs_model.py:169-179 | A create adds its row; an edit writes what it supplies to a row that is not terminal and nothing else |
| `JobProtocol.RunnerMayExactly` | src/resourcey/jobs/jobs_runner.py:203-376 | Which steps a runner may take on what it read, however long ago: recover what overran then, promote what was due, claim what was pending, finish and release whatever it is |
| `JobProtocol.ClientMayExactly` | src/resourcey/jobs/jobs_model.py:53-66 | A client may create any row that is not running, held or attempted, and write every field but the runner's three and every status but a runner's |
| `JobProtocol.AttemptsFallExactly` | src/resourcey/jobs/jobs_runner.py:284-296 | A step lowers a job's attempts exactly when it is a claim that applies and acts on a row read at least two attempts ago, and only a claim that applies changes them at all |
| `JobProtocol.AttemptsCountWinsExactly` | src/resourcey/jobs/jobs_runner.py:284-296 | All along a run a job's attempts equal the number of claims that won it exactly when no claim that applies acts on stale attempts |
| `JobProtocol.StaleClaimLowersAttempts` | src/resourcey/jobs/jobs_runner.py:284-296 | A run of stale reads after which such a claim takes attempts from two back to one |
| `JobRows.GuardedFilterMeaning` | src/resourcey/jobs/jobs_model.py:169-179 | The filter an update carries (the terminal guard and the writer's own condition, built by the filter factories) holds of exactly the non-terminal rows that pass the writer's condition |
| `JobRows.WrittenExactly` | src/resourcey/jobs/jobs_model.py:169-179 | An update changes nothing on an absent, terminal or failing row; otherwise every supplied field of that row is written, every other field kept, and no other row touched |
| `JobRows.RunnerWritesExactly` | src/resourcey/jobs/jobs_runner.py:203-376 | By the fields of a row, and of no other: a claim older than the job's own bound, or than the default where it has none, is requeued below the cap and failed at it, unheld and with the reason; a schedule is promoted once its moment has come or if it names none; a claim stamps runner, moment and one more attempt; a release gives back what the runner holds |
| `JobRunners.JobTable.Update` | src/resourcey/jobs/jobs_model.py:169-179 | It applies exactly to an existing, non-terminal row that passes the condition; then only that row changes, in the supplied fields only, and otherwise nothing does |
| `JobRunners.JobRunner.Enumerate` | src/resourcey/jobs/jobs_runner.py:438-450 | Paging through the cursor ends and lists every row with the status exactly once, in identifier order |
| `JobRunners.GatheredConcat` | src/resourcey/jobs/jobs_runner.py:438-450 | Consecutive pages make up one page: in order, and exactly the matching rows between the first cursor and the last |
| `JobRunners.JobRunner.RecoverStale` | src/resourcey/jobs/jobs_runner.py:203-243 | Every claim older than the job's own bound, or the default where it has none, and no other row, becomes pending below the attempt cap and an error at it, unheld, with the reason as its detail |
| `JobRunners.JobRunner.PromoteDueScheduled` | src/resourcey/jobs/jobs_runner.py:245-269 | Every SCHEDULED row whose run_at has come, or is null, and no other row, becomes PENDING and keeps its other fields |
| `JobRunners.JobRunner.ClaimRows` | src/resourcey/jobs/jobs_runner.py:271-298 | The claimed rows are the smallest PENDING identifiers, min(free capacity, number pending) of them, each stamped with this runner, the moment and one more attempt; nothing else changes |
| `JobRunners.ClaimExtends` | src/resourcey/jobs/jobs_runner.py:284-298 | Claiming the first pending row of the table so far passes its condition and extends the claims by the next smallest identifier |
| `JobRunners.JobRunner.StartAll` | src/resourcey/jobs/jobs_runner.py:299-307 | The claimed jobs are launched in turn under fresh tasks, next to the bodies already running |
| `JobRunners.StartedExactly` | src/resourcey/jobs/jobs_runner.py:299-307 | Launching leaves every earlier body as it was and runs each claimed job in exactly one new body |
| `JobRunners.JobRunner.Sweep` | src/resourcey/jobs/jobs_runner.py:188-197 | One sweep without interference: recovery, promotion and claims compose to one table, and the bodies started are those of the claimed jobs |
| `JobRunners.SweepLeavesNothingOverdue` | src/resourcey/jobs/jobs_runner.py:188-300 | Row by row: a row the sweep did not claim is what recovery and promotion make of it, so no stale claim and no due schedule is left; a claimed row was pending after those and runs for this runner since now with one more attempt |
| `JobRunners.TidiedRowExactly` | src/resourcey/jobs/jobs_runner.py:203-269 | What those make of a row, by its status, run_at and claim: a schedule for later is untouched, a due one pending, an overrun claim recovered, any other row as it was |
| `JobRunners.SweepKeepsSchedules` | src/resourcey/jobs/jobs_runner.py:245-300 | A schedule for later is neither changed nor claimed by a sweep; one whose moment has come is pending after it, or running for it |
| `JobRunners.SweepClaimsSmallest` | src/resourcey/jobs/jobs_runner.py:271-300 | The claimed rows are the smallest pending ones, and a pending row is left over only when the capacity is used up |
| `JobRunners.JobRunner.Finish` | src/resourcey/jobs/jobs_runner.py:313-369 | Whatever changed since the body loaded its row: its outcome, decided by the row it loaded, is written exactly when this runner holds the claim of a non-terminal row now, and the task is forgotten either way |
| `JobRows.FinishedRowExactly` | src/resourcey/jobs/jobs_runner.py:350-369 | A success is COMPLETED with its detail, a failure requeues unheld below the attempt cap it loaded and is ERROR at it, and no other field changes |
| `JobRunners.ReleasedExactly` | src/resourcey/jobs/jobs_runner.py:371-376 | Release gives back exactly the rows this runner still holds, as PENDING and unheld, and alters nothing else |
| `JobRunners.JobRunner.Exit` | src/resourcey/jobs/jobs_runner.py:148-171 | Leaving forgets every in-flight body and releases exactly the rows of theirs that this runner still holds |
| `Paging.SearchAnswersExactly` | src/resourcey/list/list_service.py:85-219 | Over columns of one kind, a search fails on a row its filter cannot be compared with, and on a cursor that was tampered with or made for another attribute or direction, and on nothing else; a page's own next cursor is accepted |
| `Paging.SelectedAnswersExactly` | src/resourcey/list/list_service.py:98-99 | Selection succeeds exactly when the filter answers on every row, and otherwise fails as incomparable |
| `Paging.WalkUnderChange` | src/resourcey/list/list_service.py:85-108 | Whatever rows are inserted, removed or edited between fetches, a matching row present at every fetch with the same identifier and sort key is shown exactly once by a walk that follows next_cursor to its end |
| `Paging.WalkShowsFromCursor` | src/resourcey/list/list_service.py:154-193 | The same from any produced cursor on: shown exactly once if the row lies past the cursor, and never otherwise |
| `Paging.PageShows` | src/resourcey/list/list_service.py:85-108 | One page shows a matching row exactly when it lies past the page's cursor and not past the next one, which never moves back |
| `Paging.AfterCursorItemIsLater` | src/resourcey/list/list_service.py:244-268 | The cursor test, with its null blocks and its ascending tie-break in both directions, is exactly strictly later in the paging order |
| `Paging.OrderedIsSorted` | src/resourcey/list/list_service.py:135-152 | Two stable passes, by identifier and then by the attribute with nulls first ascending and last descending, give a permutation that increases strictly in the paging order |
| `Paging.OrderIsUnique` | src/resourcey/list/list_service.py:135-152 | Two lists with the same rows that both increase in the paging order are the same list |
| `Paging.RemainingFacts` | src/resourcey/list/list_service.py:85-179 | What a page is cut from is in order and holds exactly the matching rows past the cursor, each as often as the data does |
| `Paging.LaterIsSuffix` | src/resourcey/list/list_service.py:154-193 | Seeking past the cursor of row k-1 of an ordered list leaves exactly the rows from k on |
| `Paging.StaticWalk` | src/resourcey/list/list_service.py:85-108 | On an unchanged list on whose rows the filter answers, the pages concatenate to the matching rows, each once and in order, and there are max(1, ceil(n/limit)) of them |
| `Paging.StaticWalkEnds` | src/resourcey/list/list_service.py:85-108 | Following next_cursor over such a list comes to an end |
| `MongoPaging.SeekFaithfulExactly` | src/resourcey/mongo/mongo_service.py:465-492 | The seek query agrees with the in-memory cursor test on every document, for null and non-null keys in both directions, if and only if the sort is not the identifier descending, where both fields of the query's object are the identifier's |
| `DescendingWalks.DescendingWalkEndsExactly` | src/resourcey/mongo/mongo_service.py:465-492 | On an unchanged collection, with any filter that compiles and with a client that keeps the sort's pairs or makes a mapping of them, a walk by the identifier descending ends if and only if at most one of the documents the filter's query finds is beyond its first page |
| `DescendingWalks.DescendingWalkCircles` | src/resourcey/mongo/mongo_service.py:465-492 | With more, no number of pages ends it, whichever the client: from the start it alternates between two cursors |
| `DescendingWalks.CircleShowsTheFront` | src/resourcey/mongo/mongo_service.py:465-492 | And those pages show the first limit + 1 rows of the client's order only, the others never |
| `DescendingWalks.PairsWalkIsMongoWalk` | src/resourcey/mongo/mongo_sort_converter.py:85-93 | With a client that keeps the pairs these walks are the walks every other sort has |
| `MongoPaging.SpecSortedInOrder` | src/resourcey/mongo/mongo_service.py:368-372 | The sort specification orders documents as list paging orders their projections, null handling and tie-break included, and keeps them all |
| `MongoPaging.SpecInsertedAsItems` | src/resourcey/mongo/mongo_sort_converter.py:85-93 | The specification with the identifier appended as tie-breaker places one document exactly where the paging order places its projection |
| `MongoPaging.QueryAdmits` | src/resourcey/mongo/mongo_service.py:179-213 | The merged query admits a document exactly when the filter holds of its projection and the cursor has not passed it |
| `MongoPaging.MongoSearchAnswersExactly` | src/resourcey/mongo/mongo_service.py:179-213 | A search fails when its filter does not compile, and on a cursor that was tampered with or made for another sort, and on nothing else |
| `MongoPaging.MongoSearchRefines` | src/resourcey/mongo/mongo_service.py:179-213 | A search of a collection answers the page list paging answers over the projected documents, item by item and with the same next cursor |
| `MongoPaging.NextCursorIsTyped` | src/resourcey/mongo/mongo_service.py:404-420 | A next cursor is one this sort produces, and its key and identifier are of the columns' kinds |
| `MongoPaging.MongoWalkRefines` | src/resourcey/mongo/mongo_service.py:179-213 | A walk of a collection, also a changing one, is a list walk of its projections |
| `MongoPaging.QueryWalkUnderChange` | src/resourcey/mongo/mongo_service.py:374-420 | Whatever the filter, if it compiles: a walk of a changing collection shows every document its query keeps admitting, steady in place, exactly once |
| `MongoPaging.MongoWalkUnderChange` | src/resourcey/mongo/mongo_service.py:374-420 | For a pushable filter that is every steady matching document, also where the filter would raise in memory |
| `MongoPaging.FilteredSearch` | src/resourcey/mongo/mongo_service.py:179-213 | A filtered search is the unfiltered search of what the filter's query finds: seeking, sorting and cutting never look at the filter |
| `Filters.MatchesAgrees` | src/resourcey/util/search_filter.py:117-281 | Short-circuit evaluation that may raise on an order comparison with null: when it answers at all, it answers what the filter means |
| `Filters.RaisesExactly` | src/resourcey/util/search_filter.py:105-177 | A conjunction raises exactly at a child that raises behind children that are all true, a disjunction behind ones that are all false, negation and attributes with their child: what comes behind is never looked at |
| `Filters.OrderLeafRaisesExactly` | src/resourcey/util/search_filter.py:194-228 | Of the leaves only the order ones raise, exactly when the value and its bound cannot be compared, null included, although the documentation calls them false there, or when there is no attribute to compare |
| `Filters.ContainsTextExactly` | src/resourcey/util/search_filter.py:284-293 | A substring test finds its needle at any place, letter by letter in either case |
| `Filters.AndOfMeaning` | src/resourcey/util/search_filter.py:301-319 | The normalised conjunction (flattened, All dropped, NoMatch annihilating, singleton unwrapped) means the conjunction of its arguments |
| `Filters.OrOfMeaning` | src/resourcey/util/search_filter.py:322-340 | The normalised disjunction means the disjunction of its arguments, and NoMatch when there are none |
| `Filters.NotOfMeaning` | src/resourcey/util/search_filter.py:343-362 | Normalised negation is the exact complement, and the attribute factory keeps the meaning of what it binds |
| `Filters.FactoriesNormalise` | src/resourcey/util/search_filter.py:301-375 | What the factories build is normal at its root: no nested conjunction in a conjunction or disjunction in a disjunction, no constants, no single child, no double negation |
| `FilterConverter.ConvertPreservesMeaning` | src/resourcey/mongo/mongo_filter_converter.py:182-447 | For every pushable tree, both polarities and every document, the query produced selects the document exactly when the tree holds of it, xor the negation |
| `FilterConverter.ConvertIsAccepted` | src/resourcey/mongo/mongo_filter_converter.py:350-368 | No $and, $or or $nor array the compiler produces is ever empty |
| `FilterConverter.ConvertSucceedsExactly` | src/resourcey/mongo/mongo_filter_converter.py:401-447 | Compilation fails exactly for a tree that leaves an attribute unbound or names an attribute without a field, in either polarity |
| `FilterConverter.ConjunctionMeaning` | src/resourcey/mongo/mongo_filter_converter.py:350-357 | With None as TRUE: the compiled conjunction selects what every child selects |
| `FilterConverter.DisjunctionMeaning` | src/resourcey/mongo/mongo_filter_converter.py:360-368 | With None as TRUE absorbing and an empty disjunction selecting nothing: the compiled disjunction selects what some child selects |
| `FilterConverter.AndOfAdmitted` | src/resourcey/util/search_filter.py:301-319 | For any trees, faithfully compiled or not: the normalised conjunction compiles to a query that admits a document exactly when every one of its parts does on its own |
| `FilterConverter.LeafFaithfulExactly` | src/resourcey/mongo/mongo_filter_converter.py:101-128 | A leaf's query agrees with the leaf on every document if and only if its or-equal bound is not null and its substring needle is text |
| `FilterConverter.ContainsCompilesExactly` | src/resourcey/mongo/mongo_filter_converter.py:79-128 | A substring test compiles to text that contains the needle as it prints: null as None, a number in decimal, without leading zeros and with a sign if it is negative |
| `FilterConverter.NestedAttributePreservedExactly` | src/resourcey/mongo/mongo_filter_converter.py:302-319 | An attribute bound inside an attribute is compiled faithfully, on every document and in either polarity, if and only if what is bound there says of every value what it says of null |
| `FilterConverter.BoundAttributePreservedExactly` | src/resourcey/mongo/mongo_filter_converter.py:302-319 | The same under a field that is already bound, so for nesting of any depth |
| `FilterConverter.NestedLeafPreservedExactly` | src/resourcey/mongo/mongo_filter_converter.py:302-347 | A leaf bound two attributes deep is compiled faithfully if and only if no value satisfies it: an empty membership test, a strict comparison with null, or less than the empty text |
| `FilterConverter.LeafIgnoresValueExactly` | src/resourcey/mongo/mongo_filter_converter.py:101-128 | Those are exactly the pushable leaves that say the same of every value |
| `FilterConverter.NestedAttributeIsNotPreserved` | src/resourcey/mongo/mongo_filter_converter.py:302-319 | A tree and a document that show the failure |
| `FilterConverter.FactoriesKeepPushable` | src/resourcey/util/search_filter.py:301-340 | The factories produce pushable trees from pushable ones, so combining scopes never leaves the compiler's faithful domain |
| `MongoQuery.EscapeIsLiteral` | src/resourcey/mongo/mongo_filter_converter.py:79-81 | Every special character of a needle is escaped and nothing else is given a meaning, so the pattern reads back as the needle |
| `MongoQuery.MergeMeaning` | src/resourcey/mongo/mongo_service.py:456-462 | A merged query admits exactly what both parts admit, an absent part admitting everything |
| `Policies.ReduceMeaning` | src/resourcey/auth/auth_policy.py:96-248 | A policy's filter for a stored row holds exactly where the policy permits the action on it, for every policy and bound group membership |
| `Policies.ReadOnlyReads` | src/resourcey/auth/auth_policy.py:48-139 | A read-only policy admits every row to read, search, count and batch_read, and no row to any other action, a custom one included |
| `Policies.BoundMembership` | src/resourcey/auth/auth_policy.py:200-222 | Outside creates a bound membership policy admits what its match or mismatch policy permits, by whether the caller shares a group with it; binding leaves any other policy alone |
| `Policies.CreateReducesToConstant` | src/resourcey/auth/auth_policy.py:96-248 | For a create every policy reduces to All where it permits it and to NoMatch where not: it never fails and never looks at a row |
| `Policies.ReduceRaisesExactly` | src/resourcey/auth/auth_policy.py:96-248 | A policy raises, always with too many values, exactly when the branch the caller is on comes down to a list of more than 500 distinct identifiers, and never for a create |
| `Policies.PermissionRaisesExactly` | src/resourcey/auth/auth_authorized_service.py:142-152 | The union raises exactly when one of the policies does, whatever the others grant |
| `Policies.PermissionFilterMeaning` | src/resourcey/auth/auth_authorized_service.py:142-152 | The union of the policies' filters holds exactly where some policy permits, it is pushable, and no policies permit nothing |
| `Policies.CreatePermissionIsConstant` | src/resourcey/auth/auth_authorized_service.py:158-162 | The permission filter of a create is All when some policy grants it and NoMatch otherwise |
| `AuthorizedServices.CombineMeaning` | src/resourcey/auth/auth_authorized_service.py:314-325 | The combined scope holds exactly where some policy permits and the caller's condition holds, and stays pushable |
| `AuthorizedServices.ScopeAdmittedExactly` | src/resourcey/auth/auth_authorized_service.py:314-325 | Whatever the caller's condition, one the compiler changes the meaning of included: a scope that compiles admits exactly the documents some policy permits and the condition's own query admits |
| `AuthorizedServices.PushableReach` | src/resourcey/auth/auth_authorized_service.py:314-325 | For a pushable condition, what the scope reaches is what is permitted and what the condition holds of |
| `AuthorizedServices.AuthorizedUpdateExactly` | src/resourcey/auth/auth_authorized_service.py:171-181 | Policies, compiler and store composed, for every list of policies and every condition: an overlong policy, a missing identifier and a scope that does not compile are refused, in this order; otherwise an update changes the addressed document, by exactly the payload, exactly when it is stored, some policy permits it and the condition's query admits it (for a pushable condition: the condition holds), and all else is a not-found that changes nothing |
| `AuthorizedServices.AuthorizedCreateExactly` | src/resourcey/auth/auth_authorized_service.py:158-162 | A create goes in exactly when some policy grants creates and the identifier is free, adds exactly that document, and is otherwise forbidden or a conflict that changes nothing |
| `AuthorizedServices.AuthorizedService.CreateRow` | src/resourcey/auth/auth_authorized_service.py:158-162 | The method's new store and answer are those of the specification the theorem above is about |
| `AuthorizedPaging.PageShowsOnlyPermitted` | src/resourcey/auth/auth_authorized_service.py:194-203 | Whatever the caller's filter, sort, limit and cursor, every document on a page is stored, permitted by some policy and admitted by the filter's own query |
| `AuthorizedPaging.PageShowsOnlyVisible` | src/resourcey/auth/auth_authorized_service.py:194-203 | For a pushable filter, every document on a page is stored, permitted by some policy and kept by the filter |
| `AuthorizedPaging.ReachedIsVisible` | src/resourcey/auth/auth_authorized_service.py:194-203 | For a pushable filter, being admitted by its query is being kept by it |
| `AuthorizedPaging.AuthorizedSearchRaisesExactly` | src/resourcey/auth/auth_authorized_service.py:194-203 | A search fails when a policy is overlong, when its scope does not compile, and on a cursor that was tampered with or made for another sort, in this order, and on nothing else |
| `AuthorizedPaging.ReadOnlySearchIsUnscoped` | src/resourcey/auth/auth_authorized_service.py:194-203 | Under a read-only policy a search answers what it would without policies, whatever the sort, cursor and limit |
| `AuthorizedPaging.ReadOnlyReachesAll` | src/resourcey/auth/auth_authorized_service.py:194-203 | With a filter, or beside other policies, it still reaches every document the filter's query admits |
| `AuthorizedPaging.ScopedWalkUnderChange` | src/resourcey/auth/auth_authorized_service.py:194-203 | Whatever the filter: while the collection changes, a policy-scoped walk shows every document that stays permitted, admitted by the filter's query and in place exactly once |
| `AuthorizedPaging.AuthorizedWalkUnderChange` | src/resourcey/auth/auth_authorized_service.py:194-203 | For a pushable filter that is every document that stays permitted, matching and in place |
| `AuthorizedServices.AuthorizedDeleteExactly` | src/resourcey/auth/auth_authorized_service.py:183-192 | The same for a delete: it removes that document and no other |
| `AuthorizedServices.AuthorizedWritesStayPermitted` | src/resourcey/auth/auth_authorized_service.py:171-192 | No condition leads a write out of the policies: an update or delete that changes the store or answers Ok changed only its own document, and one some policy permits |
| `AuthorizedServices.ReadOnlyWritesNothing` | src/resourcey/auth/auth_authorized_service.py:158-192 | With read-only policies, or none, creates are forbidden, updates and deletes find nothing whatever the condition, and no node of a batch writes anything or answers a row |
| `AuthorizedServices.OverlongAclRefusesUpdate` | src/resourcey/auth/auth_authorized_service.py:142-181 | An instance: with a list of identifiers over the limit that names the document, an update in scope is refused |
| `AuthorizedServices.UnconvertibleScopeWritesNothing` | src/resourcey/mongo/mongo_service.py:292-315 | An update's scope is refused as unsupported, writing nothing, exactly when it cannot be compiled: it is never applied in part |
| `AuthorizedServices.UnconvertibleScopeDeletesNothing` | src/resourcey/mongo/mongo_service.py:292-315 | Likewise for a delete |
| `AuthorizedServices.BatchRefinesOneByOne` | src/resourcey/auth/auth_authorized_service.py:257-295 | Filtering a batch, applying the permitted nodes through the inner service and re-aligning gives the store, error and answers of taking the nodes one at a time |
| `AuthorizedServices.OneByOneAligned` | src/resourcey/auth/auth_authorized_service.py:257-295 | The answers have the input's length and are None at every denied position |
| `AuthorizedServices.GatedNodeExactly` | src/resourcey/auth/auth_authorized_service.py:257-307 | One node, for every list of policies and every condition: its gate raises exactly when it asks an overlong policy; otherwise a create goes in exactly when some policy grants it, and an update or delete acts exactly on the document it names, exactly when that is in reach, with the errors of the single calls but None for a not-found |
| `AuthorizedServices.GatedNodeStaysPermitted` | src/resourcey/auth/auth_authorized_service.py:257-307 | No node of a batch changes anything but its own document, and only where some policy permits its own action |
| `AuthorizedServices.GateRaisesExactly` | src/resourcey/auth/auth_authorized_service.py:257-290 | A gate raises exactly when its node names its target and one of the policies is overlong for its action, and never for a create |
| `AuthorizedServices.AuthorizedService.UpdateRow` | src/resourcey/auth/auth_authorized_service.py:171-181 | The method's new store and answer are those of the specification the theorem above is about |
| `AuthorizedServices.AuthorizedService.DeleteRow` | src/resourcey/auth/auth_authorized_service.py:183-192 | Likewise for the delete |
| `AuthorizedServices.AuthorizedService.Screen` | src/resourcey/auth/auth_authorized_service.py:257-290 | The screening loop with its per-action memo computes, node by node, what every node's own gate says |
| `AuthorizedServices.AuthorizedService.ApplyEdits` | src/resourcey/auth/auth_authorized_service.py:257-295 | A failing gate writes nothing; otherwise store and answers are those of the one-by-one specification |
| `MongoServices.ConvertibleExactly` | src/resourcey/mongo/mongo_filter_converter.py:387-447 | A condition compiles for a resource exactly when it names queryable attributes only and tests every value under one |
| `MongoServices.ViewReads` | src/resourcey/mongo/mongo_service.py:433-454 | A reader sees _id under the identifier's name and every other attribute as it is stored |
| `MongoServices.UpdatedExactly` | src/resourcey/mongo/mongo_service.py:140-167 | With any condition or none: an update without an identifier or with a condition that does not compile is refused; otherwise it changes the addressed document, in exactly the supplied fields, and answers what that document then reads as, and changes nothing when there is none |
| `MongoServices.DeletedExactly` | src/resourcey/mongo/mongo_service.py:169-177 | Likewise a delete removes the addressed document and no other |
| `MongoServices.AppliedOneExactly` | src/resourcey/mongo/mongo_service.py:233-256 | A node of a bare batch is refused if the resource does not support it, and else is that create, update or delete, where a delete answers None |
| `MongoServices.WriteQuerySelects` | src/resourcey/mongo/mongo_service.py:280-307 | A write query selects a stored document exactly when its id matches and the condition holds of its projection |
| `MongoServices.WriteQueryFailsExactly` | src/resourcey/mongo/mongo_service.py:280-315 | A write query is refused exactly when its condition cannot be compiled |
| `MongoServices.MongoService.UpdateOne` | src/resourcey/mongo/mongo_service.py:140-167 | The conditional update: new store and answer as specified, a missing identifier being an error |
| `MongoServices.MongoService.DeleteOne` | src/resourcey/mongo/mongo_service.py:169-177 | The conditional delete: new store and answer as specified |
| `MongoServices.MongoService.ApplyEdits` | src/resourcey/mongo/mongo_service.py:233-256 | The loop applies the edits in order, one answer each, and stops at the first that raises |
| `MongoServices.AppliedEachConcat` | src/resourcey/mongo/mongo_service.py:233-256 | Applying two lists of edits in turn is applying their concatenation, errors included |
| `BatchRoutes.NodeExactly` | src/resourcey/http/batch_routes.py:322-337 | A node taken singly touches its own resource only and answers one item that names resource and action: through a bare service it is the operation itself, through a wrapped one nothing is written when its gate raises or denies it |
| `BatchRoutes.RunIsItsNodes` | src/resourcey/http/batch_routes.py:322-337 | When no node of a run asks an overlong policy, the run through the service built for it, bare or policy-wrapped, gives the stores and the aligned items of its nodes taken singly |
| `BatchRoutes.RunIsItsNodesExactly` | src/resourcey/http/batch_routes.py:322-337 | A run with a node that does writes nothing at all and raises; a run is its nodes singly if and only if it has none or the nodes before the first one succeed and write nothing |
| `BatchRoutes.AdmissionRaisesExactly` | src/resourcey/auth/auth_authorized_dependency.py:110-138 | A node's gate raises exactly when its service is policy-wrapped and the node asks one of its overlong policies |
| `BatchRoutes.OverlongAclRefusesRun` | src/resourcey/auth/auth_authorized_service.py:257-290 | For every set of identifiers over the limit: a granted create before an update is refused with it, while taken singly it is stored |
| `BatchRoutes.BatchExactly` | src/resourcey/http/batch_routes.py:290-319 | A batch is its nodes singly up to the first run that holds a node asking an overlong policy, and nothing of that run or after it is written |
| `BatchRoutes.FirstRefusedExactly` | src/resourcey/http/batch_routes.py:290-319 | There is such a run exactly when there is such a node, and it starts no later than the first one |
| `BatchRoutes.BatchIsItsNodes` | src/resourcey/http/batch_routes.py:290-319 | When no node asks an overlong policy, splitting a batch into runs is transparent: same stores, items and error as its nodes singly, in the caller's order |
| `BatchRoutes.BatchIsItsNodesExactly` | src/resourcey/http/batch_routes.py:290-319 | With such a node it still is if and only if a node before the refused run raises, or the nodes of that run before the raising one succeed and write nothing |
| `BatchRoutes.BatchFailureLeavesPrefix` | src/resourcey/http/batch_routes.py:290-319 | A batch that raises without rollback leaves exactly the nodes before some node k applied, where node k raises on that store or starts the run that is refused |
| `BatchRoutes.NodesConcat` | src/resourcey/http/batch_routes.py:290-319 | Node lists applied one after the other are their concatenation |
| `BatchRoutes.FailureLeavesPrefix` | src/resourcey/http/batch_routes.py:290-319 | Nodes taken singly leave, when one raises, exactly the nodes before it applied |
| `BatchRoutes.EndOfRun` | src/resourcey/http/batch_routes.py:302-319 | The inner loop ends exactly at the end of the maximal run of one resource |
| `BatchRoutes.BatchEndpoint.ApplyBatch` | src/resourcey/http/batch_routes.py:290-319 | Both loops end, and stores, items and error are those of the maximal runs of one resource in list order |
| `BatchRoutes.BatchEndpoint.ApplyRun` | src/resourcey/http/batch_routes.py:322-337 | One run goes through one service and changes only its own resource's store |
| `BatchRoutes.BatchEndpoint.ServeEdits` | src/resourcey/auth/auth_authorized_dependency.py:110-138 | The service built for a resource, bare or wrapped in the caller's policies, decides on every edit before it writes the first |
| `CachedServices.ReplyIsRecent` | src/resourcey/cache/cached_service.py:150-166 | Whatever is written behind or beside the cache, an answer is the inner service's present one, or one it gave a public caller less than expire_in ago with no write through the wrapper having returned since; a caller-scoped answer is never stored |
| `CachedServices.CacheAgrees` | src/resourcey/cache/cached_service.py:235-257 | If no change from outside and no write that raises alters the public answer to a request, every caller of that request is told what the inner service says now |
| `CachedServices.UnevictedChangeExactly` | src/resourcey/cache/cached_service.py:164-257 | For every service, window and run that leaves no fresh copy: after a read and then a change that evicts nothing, a public caller is told the present answer if and only if the read was not answered or the change left the answer as it was |
| `CachedServices.RaisedWriteLeavesStaleCopy` | src/resourcey/cache/cached_service.py:253-257 | An instance: a write that raises after changing a row leaves the old copy in place |
| `CachedServices.CopyIsServed` | src/resourcey/cache/cache_strategy.py:244-257 | An answered read serves its answer to public callers for exactly the window, whatever the inner service would say, and touches no other key |
| `CachedServices.CopyWasGiven` | src/resourcey/cache/cached_service.py:150-162 | Every stored copy is what the inner service told a public caller when it was read, and no write through the wrapper returned since |
| `CachedServices.ClearsOwnEntriesOnly` | src/resourcey/cache/cached_service.py:113-166 | Clearing a path removes all its entries and none of a path apart from it |
| `CachedServices.SeparateExactly` | src/resourcey/cache/cached_service.py:113-115 | Two resources over one store never share a key or evict each other's entries if and only if neither path continues the other at a colon |
| `CachedServices.ColonFreePathsAreApart` | src/resourcey/cache/cached_service.py:164-166 | Distinct colon-free paths are separate in that sense |
| `CachedServices.ColonPathsCollide` | src/resourcey/cache/cached_service.py:113-115 | With a colon in a path a read of one resource and a search of another have one key |
| `CachedServices.KeyDeterminesRequest` | src/resourcey/cache/cached_service.py:113-115 | Under one path the key determines operation and arguments |
| `CachedServices.CachedService.ReadThrough` | src/resourcey/cache/cached_service.py:150-162 | Serves a fresh copy without asking, and otherwise asks and refills, only when cacheable and only if the inner read did not raise |
| `CachedServices.CachedService.WriteThrough` | src/resourcey/cache/cached_service.py:164-257 | Forwards the write and, exactly if it returned, evicts every entry of this path; entries of a path apart from it stay as they are either way |
| `CacheStores.InMemoryCacheStore.Clear` | src/resourcey/cache/cache_store.py:99-105 | Without a prefix nothing stays; with one exactly the entries whose key does not start with it do, unchanged |
| `CacheStores.InMemoryCacheStore.Get` | src/resourcey/cache/cache_store.py:87-89 | The stored entry, or nothing |
| `OAuthLeases.AtMostOneRefresher` | src/resourcey/auth/auth_oauth_token.py:237-305 | If exchanges end by their lease and nobody logs in meanwhile, at every moment at most one refresher of a (principal, client) pair is in its exchange, and short of a revoke nobody else has written the row it claimed |
| `OAuthLeases.CrashBlocksOneLease` | src/resourcey/auth/auth_oauth_token.py:282-305 | In any run, whoever crashed, a stored row left alone for longer than a lease can be claimed |
| `OAuthLeases.SecondClaimExactly` | src/resourcey/auth/auth_oauth_token.py:151-305 | Without any assumption: as long as no second refresher has got in, the stored pair of a live exchange can be claimed if and only if its lease has passed or its row is no longer as it claimed it |
| `OAuthLeases.FirstBreachExactly` | src/resourcey/auth/auth_oauth_token.py:151-305 | And a step lets a second refresher in if and only if it claims such a pair |
| `OAuthLeases.LateExchangeBreaksLease` | src/resourcey/auth/auth_oauth_token.py:282-305 | An instance: an exchange that outlives its lease is joined by a second one |
| `OAuthLeases.LoginBreaksLease` | src/resourcey/auth/auth_oauth_token.py:151-208 | An instance: a login in the middle of an exchange clears its lease and lets a second one in |
| `OAuthLeases.WritesTouchOnePair` | src/resourcey/auth/auth_oauth_token.py:151-305 | Storing, claiming and removing a pair change that pair's row, as stated, and no other |
| `OAuthLeases.StepWritesExactly` | src/resourcey/auth/auth_oauth_token.py:151-305 | A login or a finished exchange leaves the given grant without a lease, a claim keeps the grant under its own lease, a failed exchange or a revoke removes the row, and no step changes another pair's row |
| `OAuthLeases.OtherPairsAreApart` | src/resourcey/auth/auth_oauth_token.py:151-305 | So over any run a pair's row is changed by the steps for that pair only |
| `OAuthLeases.StepExchangesExactly` | src/resourcey/auth/auth_oauth_token.py:237-305 | A claim starts an exchange with the row it claimed; a store, a failure and a crash end theirs, and no other step touches one |
| `OAuthLeases.AnythingMayHappen` | src/resourcey/auth/auth_oauth_token.py:151-305 | Short of the assumptions, time passes, logins, revokes and crashes come at any moment, and a pair can be claimed exactly when it is stored and unleased or its lease has passed |
| `OAuthLeases.AwaitedIsUnexpired` | src/resourcey/auth/auth_oauth_token.py:307-319 | A losing caller's answer is that of the first of forty polls that shows a revoked row or an unexpired token, and a time-out when none does; so a token it returns had not expired when it was seen |
| `OAuthLeases.OAuthTokenService.AwaitFresh` | src/resourcey/auth/auth_oauth_token.py:307-319 | At most forty polls: the first that shows a revoked row or an unexpired token settles the answer, and otherwise it times out |
| `OAuthLeases.OAuthTokenService.Claim` | src/resourcey/auth/auth_oauth_token.py:282-305 | The compare-and-swap wins exactly on a row that is unleased or whose lease has passed; then that row keeps its grant under the new lease, and no other row changes |
| `OAuthLeases.OAuthTokenService.Refresh` | src/resourcey/auth/auth_oauth_token.py:237-280 | A token good for more than thirty seconds is returned as it is; a winner leaves exactly the exchange's grant without a lease, or no row; a loser writes nothing and answers from its polls; no other pair's row changes |
| `Realtime.SoundAfter` | src/resourcey/realtime/realtime_channel.py:82-120 | After any publishes and takes a subscriber was sent every event since it came, its queue is a suffix of them within the bound, deliveries keep publication order without repeats, and an event is missed only if as many later ones as the queue holds came before its turn |
| `Realtime.NothingMissed` | src/resourcey/realtime/realtime_channel.py:82-120 | Each of the last queue_maxsize events was delivered or still waits at its place |
| `Realtime.TakesDeliverInTurn` | src/resourcey/realtime/realtime_channel.py:98-107 | Taking delivers the held events one after the other, each once, and leaves the rest |
| `Realtime.Subscriber.Offer` | src/resourcey/realtime/realtime_channel.py:109-120 | The eviction loop ends and leaves the newest events the bound allows, the new one last |
| `Realtime.InMemoryChannel.Publish` | src/resourcey/realtime/realtime_channel.py:82-85 | Every live subscriber is offered the event, exactly once and independently |
| `Realtime.InMemoryChannel.Iterate` | src/resourcey/realtime/realtime_channel.py:98-107 | One turn delivers the oldest held event and removes it from the queue, or nothing while the queue is empty, and after closing ends the subscription |
| `Realtime.InMemoryChannel.Subscribe` | src/resourcey/realtime/realtime_channel.py:87-91 | A fresh subscriber starts with an empty queue and sees only later events |
| `Base36.EncodeBase36` | src/resourcey/auth/auth_api_key_resource.py:87-93 | The text decodes to the value, has exactly the width if and only if the value fits it, and is longer without a leading zero otherwise |
| `Base36.EncodingIsUnique` | src/resourcey/auth/auth_api_key_resource.py:87-93 | At one width two encodings are equal exactly when their values are |
| `Base36.WidthHoldsSecrets` | src/resourcey/auth/auth_api_key_resource.py:46-54 | 2^256 <= 36^50 |
| `Base36.KeysAreInjective` | src/resourcey/auth/auth_api_key_resource.py:96-103 | All 256-bit secrets are rendered at length 50, distinct ones differently |

## Left out

- Filters: object filters and their lowering, the registry of custom rules and handlers, the cap on the number of `in` values where a caller builds the leaf (an identifier list's reduction has it), and the opt-in fallback that iterates documents when a search filter cannot be compiled (such a search is an error here, as it is by default).
- Values are null, numbers and text; identifiers and instants are numbers or text. Booleans, nested documents, arrays and encodings of other types are not part of the model, and lower-casing is ASCII.
- Regular expressions: only patterns made of literal and escaped characters, which are all the compiler makes.
- Columns hold null or one kind of value: a mixed sort column raises in memory and is ordered by type on the server. List paging orders it by kind here, and Mongo paging excludes it (`AllTyped`); the identifier in descending order has its own exact theorems instead, for both kinds of client. Every other specification names no field in two directions, so both kinds sort it alike.
- FilterConverter.ConvertPreservesMeaning: stated for pushable trees, because an or-equal bound of null, a non-text needle and an attribute inside an attribute are compiled to something else; `LeafFaithfulExactly` and `NestedAttributePreservedExactly` say exactly when.
- AuthorizedServices.AuthorizedUpdateExactly: for a condition that is not pushable, what it narrows the scope to is what its query admits, since its meaning is what the compiler loses there; that it can only narrow is proved for all. Policies' identifier lists are sequences, counted without duplicates.
- Authorized `read`, `count`, `batch_read` and `authorize`: the same scope on single rows and counts, which would add only easy members.
- Batches: rollback by a transactional store. A store here keeps what was written before a node raised.
- Mongo service: defaults and encryption of payload fields, document migration, indexes and duplicate-key retries; a generated identifier is part of the create's input.
- Cursors: the codec is a sealed value that opens to what was sealed and rejects anything else.
- Jobs: deletion of job rows, rows created as RUNNING, runners with different default bounds, a runner entered again before all releases of its exit are through, and the stamping of a creator and a kind. A job body is its reported outcome.
- JobRunners.JobRunner.Sweep: stated for a sweep that no other writer interrupts; interrupted ones are runs of `JobProtocol`, and interference between whole iterations is in `JobLease`. A claim that loses its race is therefore not reached in this method's loop, though the loop handles it.
- Cache: a fetch and its fill are one step, so a fill that straddles another caller's write is outside the theorems; digests of arguments stand for the arguments, as if hashing were injective; validators and HTTP headers are not part of the model.
- OAuth: encryption of stored tokens, scopes and refresh-token expiry; the token an exchange presents is read before the claim and is not tracked, so nothing is said about presenting it once.
- OAuthLeases.OAuthTokenService.Refresh: the storage calls of one caller without another's in between; the interleavings are in the transition system of the same module. Polls see whatever rows and times the environment shows.
- Realtime: scheduling inside one awaited call, and the Redis channel.
- API keys: the random source and the hash.
- SQL and Redis backends, HTTP routing, schema generation, configuration and encryption.
