# Governator, verified

Governator runs coding agents under contract. This project models the parts of it whose correctness
is hardest to see by reading, and proves what they are for:

- **The plan gate.** A plan is a list of contracts joined by `depends_on`. The gate checks the
  contracts, finds which ancestor produces every consumed artifact, and returns dependency levels.
  Modules `Digraph`, `Levels`, `LevelFacts`, `Ancestors`, `Artifacts`, `Envelope`, `SchemaPatterns`,
  `Plan`, and `PlanWords`, which restates the results on the list of jobs alone.
- **The circuit breaker.** One persisted row per backend and an audit log. Every row is proved to be
  a function of the backend's history. Module `Breaker`.
- **Descendant extinction.** Freeze, kill and confirm, while the scope's processes keep forking and
  exiting. Module `Extinction`.
- **Ed25519 verification** of release signatures, over an abstract commutative group, and over the
  code's own curve addition. Modules `Ed25519`, `EdwardsCurve`.
- **Release checkpoints.** Records replaced atomically, with a crash possible between any two steps.
  Module `Checkpoint`.
- **The runtime-tree hash.** A walk through symlink cycles and what its list of entries determines.
  Modules `TreeWalk`, `Walking`, `WalkUnique`, `TreeDetermination`, `TreeKeys`, `TreeHash`, `OneFile`,
  `TreeExact`, `Utf8`, `TreeText`.
- **Ledger time.** 64-bit nanoseconds and their RFC 3339 text. Modules `Calendar`, `LedgerTime`,
  `LegacyText`.
- **The frozen environment.** A map kept as a sorted `key=value` list, and what its digest
  determines. Modules `FrozenEnv`, `EnvDigest`.

`Results`, `Int64`, `Text` and `Order` hold what the others share. `dafny verify dfyconfig.toml` checks the
whole project.

Some promises turn out to hold only under a condition. Each is proved as an equivalence, and lemmas
exhibit inputs on the failing side:

- The envelope test is a containment test if and only if the declared pattern is not a run of `..`
  followed by the recursive wildcard (`Envelope.EnvelopeExact`, and `Envelope.EnvelopeSound` for a
  whole envelope); it decides containment if and only if the base before the wildcard is the root
  directory or holds a name and is not itself recursive (`Envelope.EnvelopeDecides`). `../**` accepts
  `../..`, `**` does not accept `f`, and `a/**/**` does not accept `a/**`
  (`Envelope.ParentsEscape`, `Envelope.UndecidedCandidate`).
- The token total is a 64-bit sum, so it can wrap. An accepted plan is within its cap if and only if
  the true sum fits (`Plan.BudgetExact`). Two jobs of the largest 64-bit budget pass every cap
  (`Plan.WrappedPlan`), but only with a validation laxer than the schema: the schema bounds a single
  job, and then every accepted plan of up to nine billion jobs is within its cap (`Plan.BudgetHolds`).
- The schema trims a write pattern and tests it for being absolute before it replaces backslashes; the
  gate cleans the raw text. The schema rules out climbing patterns behind a white-space prefix if and
  only if the prefix is empty (`SchemaPatterns.SpaceExact`). One space and `\..\..\..` passes the
  schema, is covered by `../**` and lies above it (`SchemaPatterns.SpacedEscape`, and a whole accepted
  plan in `Plan.SpacedPlan`). Without leading white space every accepted write lies inside the
  envelope, whatever is declared (`Plan.SchemaWritesContained`).
- For clean roots of which none lies inside another, the list behind the tree hash determines the
  trees if and only if no root name continues another with `:`, or with `::` and a relative path
  (`TreeExact.DeterminesExact`; the confused trees are built in `TreeExact.AmbiguousConfuses`).
- json.Marshal replaces bytes that are not UTF-8. A list is the only one with its JSON text if and only
  if all its strings are UTF-8 (`TreeText.ListExact`), and the hash of a tree determines the name of
  its file if and only if the name is UTF-8 (`TreeText.NameExact`). The names 0xFF and 0xFE hash alike
  (`TreeText.TwoBytesOneHash`).
- Deriving an environment twice equals deriving it once with merged overrides if and only if every
  `GIT_` key of the first override is set again by the second (`FrozenEnv.OverrideExact`). Setting
  `GIT_DIR` and deriving again without it loses it (`FrozenEnv.LostOverride`, `FrozenEnv.GitDirLost`).
- Equal digests of derived environments mean equal environments if and only if no value may hold a
  line break (`EnvDigest.DigestExact`). With one, `["A=1\nB=2"]` validates under the hash of
  `["A=1", "B=2"]` (`EnvDigest.BreakValidates`).
- When the identified child of the outer process is the namespace init, a nil error proves the
  namespace dead if and only if a child was identified (`Extinction.GoneMeansDead`). Otherwise the code
  waits for the outer process, which can end first (`Extinction.OuterExits`).

Of these inputs the schema keeps away the wrapping plan, and a write spelled `../..` without white
space before it; the others pass every check that is modelled here.

Where code and comments differ, the model follows the code. The header of
`internal/breaker/breaker.go` says that an infrastructure failure re-opens a half-open breaker and
that doctor-gated kinds stay open until a doctor pass; the code demotes an open breaker of any kind to
DEGRADED when a TRANSIENT_UPSTREAM failure follows another kind or comes after the window
(`Breaker.FailureKeepsOpenIff`, with the two shortest histories in `Breaker.DoctorGateLost` and
`Breaker.FailedProbeDemotes`). The comment on `TopologicalLevels` asks its callers for unique ids;
the model has no such precondition and proves that repeated ids are reported as an error.

## Model

| member | source | states |
|---|---|---|
| `Levels.TopologicalLevels` | internal/contracts/plan.go:291-348 | For every job list, with no precondition: success exactly when ids are unique and the graph restricted to known ids is acyclic; on success the levels are a partition of the jobs, none empty, each strictly sorted, and a job's level is the length of its longest dependency chain; on failure the reported count is the jobs minus those whose chains are bounded |
| `PlanWords.LevelsMean` | internal/contracts/plan.go:284-347 | On the list of jobs alone: every job is in a level, everything it depends on is in an earlier one, a job past the first level depends on one in the level just before, and a level lists its jobs by ascending id |
| `Order.LessMeans` | internal/contracts/plan.go:328-328 | One text is less than another exactly when it is a proper prefix or has the smaller character at the first difference |
| `Levels.BuildTables` | internal/contracts/plan.go:292-309 | The in-degree and dependents tables count exactly the known references, repetitions included, and dangling ones are skipped |
| `Levels.DrainLevel` | internal/contracts/plan.go:336-344 | Finishing a level leaves every in-degree equal to the edges from unfinished jobs, and collects exactly the ids that reach zero |
| `Levels.EmitLevel` | internal/contracts/plan.go:320-346 | One round keeps the invariant: finished jobs have their height, the ready ids are exactly the unfinished ones whose dependencies are finished, and they all have the next height |
| `Levels.Stuck` | internal/contracts/plan.go:317-319 | When nothing is ready although jobs remain, there is a cycle, and the unfinished jobs are exactly those with unbounded chains |
| `Digraph.StuckHasCycle` | internal/contracts/plan.go:317-319 | Nodes that all wait for one another contain a cycle |
| `Digraph.HeightStep` | internal/contracts/plan.go:336-345 | A node whose highest predecessor ends a longest chain of k edges ends a longest chain of k+1 |
| `LevelFacts.LayeringUnique` | internal/contracts/plan.go:311-347 | Any two level partitions of the same jobs, listed in any order, are equal |
| `LevelFacts.AncestorsEarlier` | internal/contracts/plan.go:284-290 | A direct or indirect dependency sits in a strictly earlier level |
| `LevelFacts.TokensConserved` | internal/contracts/plan.go:311-347 | The token sum over the levels is the token sum of the plan |
| `Ancestors.Search.Visit` | internal/contracts/plan.go:443-461 | Terminates on every graph; everything returned is an ancestor; on acyclic graphs the memo entry is the full closure, whatever the memo held before |
| `Ancestors.Search.VisitDeps` | internal/contracts/plan.go:450-457 | The loop over direct dependencies collects them and all their ancestors, and restores the call stack |
| `Ancestors.PlanAncestors` | internal/contracts/plan.go:435-466 | Every id returned for a job is a transitive ancestor; with unique ids and no cycle the result is the whole transitive closure |
| `Ancestors.DirectDeps` | internal/contracts/plan.go:436-439 | The direct map holds no edge that is not declared, and with unique ids all of them |
| `Artifacts.ProducersByName` | internal/contracts/plan.go:400-407 | A job is listed under a name exactly when it declares that non-empty name |
| `Artifacts.FindSource` | internal/contracts/plan.go:415-426 | The greatest producing ancestor, or nothing exactly when there is none |
| `Artifacts.FillJob` | internal/contracts/plan.go:410-431 | One job in place: the jobs before it stay resolved, it becomes resolved, the jobs after it stay untouched; an error exactly when a consumed name has no producing ancestor |
| `Artifacts.FillSources` | internal/contracts/plan.go:410-431 | In place: every contract keeps all fields but its sources, which map exactly the consumed names that have a producing ancestor; errors exactly when one has none |
| `Artifacts.ResolveArtifactSources` | internal/contracts/plan.go:399-433 | The same for the whole call, over a sound ancestor map that is complete when ids are unique and the graph acyclic |
| `Artifacts.ResolvedMeans` | internal/contracts/plan.go:410-431 | Job by job: nothing changes when no ancestor declares a consumed name; otherwise the sources are exactly the consumed names that one declares, each from the declaring ancestor with the greatest id |
| `Artifacts.SourcesOrderFree` | internal/contracts/plan.go:399-433 | The sources of a contract do not depend on the job order or on the order the memo was filled in |
| `Envelope.EnvelopeCovers` | internal/contracts/plan.go:352-359 | Accepts exactly when some declared pattern covers the candidate |
| `Envelope.CoversText` | internal/contracts/plan.go:366-378 | Covering on the cleaned texts: equal, or the declared one is a base with the wildcard and the other starts with that base and a slash, or is the base and not itself recursive |
| `Envelope.CoversTransitive` | internal/contracts/plan.go:366-378 | Covering is transitive |
| `Envelope.CoversUpToCleaning` | internal/contracts/plan.go:366-388 | Covering depends only on the cleaned patterns, and patterns with one cleaned form cover each other |
| `Envelope.CleanKeepsPlace` | internal/contracts/plan.go:386-388 | Resolving the cleaned text segment by segment leads where the original text leads |
| `Envelope.CleanRules` | internal/contracts/plan.go:386-388 | Repeated slashes and `.` disappear, a name cancels with the `..` after it, and `..` right below the root disappears |
| `Envelope.CleanEnds` | internal/contracts/plan.go:386-388 | The same at the start of a relative pattern; a trailing slash disappears |
| `Envelope.CleanForms` | internal/contracts/plan.go:386-388 | The normal forms: names below the root, parent steps followed by names, and `.` for nothing |
| `Envelope.NormalizeIdempotent` | internal/contracts/plan.go:386-388 | Cleaning, backslashes included, is idempotent |
| `Envelope.CoversWithin` | internal/contracts/plan.go:361-388 | An accepted candidate is the declared pattern or lies at or below its base, unless the base is only parent steps |
| `Envelope.ParentsEscape` | internal/contracts/plan.go:366-378 | For every declared run of parent steps with the wildcard, a candidate that is accepted and lies above the base |
| `Envelope.EnvelopeExact` | internal/contracts/plan.go:361-388 | Acceptance implies containment for all candidates if and only if the base is more than parent steps |
| `Envelope.WithinCovers` | internal/contracts/plan.go:366-378 | Everything at or below a decidable base is accepted |
| `Envelope.EnvelopeDecides` | internal/contracts/plan.go:361-388 | Acceptance equals containment for all candidates if and only if the declared pattern is decidable |
| `Envelope.UndecidedCandidate` | internal/contracts/plan.go:366-378 | For every pattern that is not decidable, a candidate on which test and containment differ |
| `Envelope.EnvelopeSound` | internal/contracts/plan.go:352-388 | A whole envelope contains everything it accepts if and only if none of its patterns is a run of parent steps |
| `Envelope.LevelWithin` | internal/contracts/plan.go:366-388 | For candidates that do not climb, acceptance means containment for every declared pattern |
| `SchemaPatterns.EscapesExact` | internal/contracts/schema.go:1170-1173 | The cleaned text is `..` or starts with `../` exactly when the place lies above the workspace |
| `SchemaPatterns.CheckPattern` | internal/contracts/schema.go:1155-1175 | Each error exactly for its own violation; a blank or absolute pattern is not examined further |
| `SchemaPatterns.ValidatePathPatterns` | internal/contracts/schema.go:1155-1175 | No error exactly when every pattern is acceptable |
| `SchemaPatterns.SchemaMeans` | internal/contracts/schema.go:1155-1175 | A pattern is acceptable exactly when the text between its white space has no NUL or line break, does not start with a slash and does not point above the workspace |
| `SchemaPatterns.AcceptedLevel` | internal/contracts/schema.go:1155-1175 | A pattern without leading white space that the schema accepts does not climb, trailing white space included |
| `SchemaPatterns.SpacedEscape` | internal/contracts/schema.go:1155-1175 | For every white-space prefix, a pattern that the schema accepts, that `../**` covers and that lies above it |
| `SchemaPatterns.SpaceExact` | internal/contracts/schema.go:1155-1175 | Behind a white-space prefix the schema rules out climbing patterns if and only if the prefix is empty |
| `Plan.CheckPatterns` | internal/contracts/plan.go:244-253 | One error for each pattern outside the envelope, and no other |
| `Plan.CheckJob` | internal/contracts/plan.go:223-253 | No error exactly for an acceptable job, and each kind of error, escaping patterns included, exactly for its own violation |
| `Plan.CheckJobs` | internal/contracts/plan.go:221-255 | No error exactly when ids are distinct and every job is acceptable; then the ids seen are all ids and the total is the 64-bit sum |
| `Plan.CheckDeps` | internal/contracts/plan.go:260-269 | No error exactly when every reference names another job; a self-reference and an unknown id are each reported exactly for their job |
| `Plan.ValidatePlan` | internal/contracts/plan.go:207-282 | Accepts exactly the plans that meet all documented conditions; on acceptance the levels are the level partition, and every consumed artifact has a recorded source that declares it, is the greatest producing ancestor and lies in a strictly earlier level; the jobs change only in their sources |
| `PlanWords.PlanMeans` | internal/contracts/plan.go:192-201 | The accepted plans, condition by condition on the list of jobs: cap, envelope, distinct ids, acceptable jobs, known dependencies, no job that is its own ancestor, and consumed artifacts declared by ancestors |
| `PlanWords.ReachesMeans` | internal/contracts/plan.go:435-466 | The closure of the dependency edges is exactly the relation given by paths of jobs |
| `Plan.GateExact` | internal/contracts/plan.go:207-282 | On acyclic plans the memoised ancestor test and true reachability agree on what is produced |
| `Plan.EverythingWired` | internal/contracts/plan.go:271-281 | From the resolved list and its levels to the wiring of every consumed artifact |
| `Plan.GateOrderFree` | internal/contracts/plan.go:207-282 | Any permutation of the job list, and any map iteration order, gives the same verdict and the same levels of the same resolved contracts |
| `Plan.BudgetExact` | internal/contracts/plan.go:222-258 | The levels of an accepted plan stay within the cap if and only if the true token sum fits 64 bits |
| `Plan.BoundedTotal` | internal/contracts/schema.go:1026-1030 | With the schema's bound on each job, up to nine billion jobs cannot wrap the sum |
| `Plan.BudgetHolds` | internal/contracts/plan.go:222-258 | With the schema's bound on each job, the levels of every accepted plan of up to nine billion jobs stay within the cap |
| `Plan.WrappedPlan` | internal/contracts/plan.go:222-258 | Without that bound, two jobs whose sum wraps and which pass every cap |
| `Plan.WritesContained` | internal/contracts/plan.go:244-253 | Every write of every job of an accepted plan lies within some declared pattern, if none is a run of parent steps |
| `Plan.SchemaWritesContained` | internal/contracts/schema.go:1155-1175 | With the schema's own check of patterns, every write of an accepted plan lies within some declared pattern, whatever is declared, if no write starts with white space |
| `Plan.SpacedPlan` | internal/contracts/plan.go:244-253 | A plan that passes the schema and the gate, with a write above the declared envelope |
| `Breaker.ApplyPolicy` | internal/breaker/breaker.go:300-373 | From the row of an episode to the row of the episode with one more failure: state, kind, opened-at, cooldown, count and update time |
| `Breaker.Store.RecordSuccess` | internal/breaker/breaker.go:217-252 | Keeps every row equal to the function of its history; closes the breaker, records a probe, logs exactly one event or none; database faults change nothing they should not |
| `Breaker.Store.RecordFailure` | internal/breaker/breaker.go:258-291 | The same for a failure; quality kinds change neither row nor log |
| `Breaker.Store.Reset` | internal/breaker/breaker.go:395-419 | The same for an operator reset, which always logs |
| `Breaker.Store.Snapshot` | internal/breaker/breaker.go:177-194 | The row is the function of the history; HALF_OPEN exactly when the episode is open and its cooldown has passed; a load error reads as CLOSED |
| `Breaker.Store.Commit` | internal/breaker/breaker.go:152-166 | Row then event: a failed save changes nothing, a failed event loses only the event |
| `Breaker.Store.Append` | internal/breaker/breaker.go:162-166 | An event that starts in the recorded state keeps the log chained and ends in the row's state |
| `Breaker.ChainStep` | internal/breaker/breaker.go:160-166 | Per backend, each from-state is the previous to-state |
| `Breaker.RowShape` | internal/breaker/breaker.go:217-373 | Every reachable row: HALF_OPEN is never stored, CLOSED is cleared, DEGRADED is transient with count 1 or 2, OPEN has an opening time and a zero cooldown exactly for the doctor-gated kinds |
| `Breaker.QualityInvisible` | internal/breaker/breaker.go:258-264 | Erasing all quality failures from any history changes no field of the row |
| `Breaker.OpenedAtIsFirst` | internal/breaker/breaker.go:300-373 | The opening time is that of the first failure of the episode that left the breaker open |
| `Breaker.RateRunIsMaximal` | internal/breaker/breaker.go:323-347 | The rate-limit count is the longest trailing run of rate limits |
| `Breaker.TransientRunIsMaximal` | internal/breaker/breaker.go:309-322 | The transient count is the longest trailing run of transient failures with gaps of at most thirty minutes |
| `Breaker.ClampIsExact` | internal/breaker/breaker.go:323-347 | For every count n, the clamped 64-bit shift equals min(5m·2^(n-1), 2h) and never wraps |
| `Breaker.RateCooldownsGrow` | internal/breaker/breaker.go:323-347 | Consecutive rate limits of one episode are never granted a shorter cooldown |
| `Breaker.QuotaSchedule` | internal/breaker/breaker.go:348-360 | After a quota failure the breaker is open until the quota reset, or for one hour if that is not later than the failure, and half-open from then on |
| `Breaker.RateSchedule` | internal/breaker/breaker.go:323-347 | After n rate limits in a row from rest it is open for 5, 10, 20, 40, 80 and then 120 minutes after the last |
| `Breaker.TransientSchedule` | internal/breaker/breaker.go:304-322 | After three transient failures with gaps of at most thirty minutes it is open for five minutes after the last |
| `Breaker.LateTransient` | internal/breaker/breaker.go:304-322 | A transient failure after another kind, after a longer gap, or second from rest leaves it degraded |
| `Breaker.AfterFailure` | internal/breaker/breaker.go:300-302 | The row carries the kind and the time of the last infrastructure failure |
| `Breaker.KnownBackends` | internal/breaker/breaker.go:104-113 | The five backends |
| `Breaker.FailureKeepsOpenIff` | internal/breaker/breaker.go:309-322 | An open breaker stays open on the next failure if and only if that failure is not transient or continues a transient run; otherwise it is demoted |
| `Breaker.DoctorGateLost` | internal/breaker/breaker.go:304-322 | Expired credentials and then one transient error leave the breaker DEGRADED without any doctor pass |
| `Breaker.FailedProbeDemotes` | internal/breaker/breaker.go:304-322 | A half-open breaker whose probe fails with a transient error after a rate limit is demoted, not re-opened |
| `Breaker.OnlyTimedKindsCoolDown` | internal/breaker/breaker.go:189-194 | Time alone re-admits a backend from its cooldown on, and never a doctor-gated one |
| `Extinction.EmptyForever` | internal/containment/descendants.go:821-905 | Under any sequence of forks, exits and reclaims, an empty cgroup stays empty and a dead namespace stays dead |
| `Extinction.GoneMeansDead` | internal/containment/descendants.go:918-957 | When the identified child is the init: the end of the awaited process proves the namespace dead, in every run from the launch on, if and only if a child was identified |
| `Extinction.OuterExits` | internal/containment/descendants.go:936-945 | A world in which the outer process exits and the init lives on |
| `Extinction.WaitCgroupEmpty` | internal/containment/descendants.go:1016-1034 | Terminates; a nil error means no member when the call returns, a timeout means members after the deadline, any other error a failed read |
| `Extinction.WaitPidGone` | internal/containment/descendants.go:1036-1056 | Terminates; a nil error means that the kernel reported the process nonexistent, and the namespace dead if it was the init; a timeout means that it existed after the deadline, a refused signal that it exists, any other error a failed probe |
| `Extinction.ScanWorkspaceFD` | internal/containment/descendants.go:1092-1146 | Over the listed processes: clean exactly when every attributed one is readable and holds nothing in the workspace; otherwise the first that is unreadable or holds something decides the error |
| `Extinction.HoldsMeans` | internal/containment/descendants.go:1127-1144 | A process holds the workspace by an open descriptor or by its working directory |
| `Extinction.UnderMeans` | internal/containment/descendants.go:1127-1144 | A path lies under the workspace when it is the workspace or continues it after a slash |
| `Extinction.DescendantSet` | internal/containment/descendants.go:1154-1176 | Terminates; holds only descendants of the root; below 4096 members it holds exactly the descendants |
| `Extinction.SmallTreeExact` | internal/containment/descendants.go:1154-1176 | When fewer than 4096 processes descend from the root, the answer is exactly those |
| `Extinction.Kernel.CountProcs` | internal/containment/descendants.go:1001-1014 | The number of members at that moment, 0 for a removed cgroup, -1 for a failed read |
| `Extinction.Scope.Started` | internal/containment/descendants.go:748-758 | Afterwards the scope names something to act on or knows that it does not; an accepted systemd cgroup contains the unit name |
| `Extinction.Scope.ResolveCgroupFromPID` | internal/containment/descendants.go:760-791 | Adopts the first read that confirms the unit; an error means that none did and two seconds passed |
| `Extinction.Scope.ResolveNSInitPID` | internal/containment/descendants.go:793-811 | The init is the first child of the first read that shows one; an error means that none did and two seconds passed |
| `Extinction.Scope.ExtinguishCgroup` | internal/containment/descendants.go:867-917 | Without an error: frozen, counted and killed in this order, the recorded peak is the count, and the cgroup is empty; each error is the failed call it names, members left, or the unresolved cgroup |
| `Extinction.Scope.ExtinguishNamespace` | internal/containment/descendants.go:918-957 | Without an error the init, or the outer process when no init was identified, was reported gone, and the namespace is dead if that was the init; each error means a process that exists, a failed probe or an unidentified init |
| `Extinction.Scope.Terminate` | internal/containment/descendants.go:865-978 | The switch over the kinds: stopped without an error, or the cause of the error, what was sent in which order, and to whom handles are attributed: the members of the cgroup, the descendants of the init or the outer process, or the process group of the pid |
| `Extinction.Scope.ScanScope` | internal/containment/descendants.go:980-992 | With a workspace, /proc is listed once after the stop; no error exactly when the listing succeeded and every attributed process is readable and holds nothing in the workspace, and each error has its witness |
| `Extinction.Scope.Extinguish` | internal/containment/descendants.go:821-992 | A clean scan exactly without an error, and without one exactly when the processes listed after the stop and attributed to the scope are readable and hold nothing in the workspace; then, and also when only the scan failed, the scope is stopped and, once a launch happened, confirmed extinct in its own way; every other error has its cause; an unresolved cgroup always yields an error |
| `Ed25519.ScalarMul` | scripts/release_policy.py:282-289 | Double-and-add equals n-fold addition for every scalar, in every commutative group |
| `Ed25519.Verify` | scripts/release_policy.py:302-321 | Accepts exactly on well-formed lengths, decodable points, a scalar below L and [8][S]B = [8](R + [h]A) for h the hash of R, key and message modulo L |
| `Ed25519.HonestSignatureAccepted` | scripts/release_policy.py:302-321 | Every signature made as section 5.1.6 of RFC 8032 prescribes is accepted: S is the 32-byte little-endian text of (r + h·a) mod L |
| `Ed25519.HonestEquation` | scripts/release_policy.py:315-321 | With S = (r + h·a) mod L, the equation holds even before the cofactor |
| `Ed25519.SignatureUnique` | scripts/release_policy.py:315-317 | For a message, a key and an encoded R at most one scalar encoding is accepted, because scalars are reduced and L is odd |
| `Ed25519.CofactorExact` | scripts/release_policy.py:321-321 | The cofactor forgives exactly a difference whose order divides 8 |
| `Ed25519.LittleEndianRoundTrip` | scripts/release_policy.py:315-315 | Decoding the little-endian encoding of a fitting scalar gives it back |
| `Ed25519.LittleEndianMeans` | scripts/release_policy.py:315-315 | The decoded scalar is the sum of the bytes weighted by powers of 256, the first byte lowest |
| `Ed25519.CurveConstants` | scripts/release_policy.py:239-240 | The group order and the field modulus, as powers of two |
| `Ed25519.EdwardsCommutes` | scripts/release_policy.py:271-279 | The concrete addition law commutes |
| `Ed25519.EdwardsNeutral` | scripts/release_policy.py:271-283 | (0, 1), where the loop starts, is neutral for reduced coordinates |
| `Ed25519.EdwardsIsGroup` | scripts/release_policy.py:271-283 | With closure, associativity and inverses assumed, the code's own addition with (0, 1) is a commutative group |
| `EdwardsCurve.EdwardsCloses` | scripts/release_policy.py:271-279 | The sum of two points of the curve is a point of the curve, if the denominators are invertible |
| `EdwardsCurve.EdwardsInverse` | scripts/release_policy.py:271-279 | A point of the curve and one with the opposite first coordinate sum to (0, 1), if the denominators are invertible |
| `EdwardsCurve.CurveIsGroup` | scripts/release_policy.py:271-283 | With associativity and invertible denominators assumed, the points of the curve under the code's addition are a commutative group |
| `EdwardsCurve.VerifyOnCurve` | scripts/release_policy.py:302-321 | The verifier over the code's own addition accepts exactly the signatures that meet the cofactored equation |
| `Checkpoint.StateDir.AtomicWrite` | scripts/release_checkpoint.py:79-107 | With a crash at any point, every record path is absent or holds one complete record: the last one committed |
| `Checkpoint.RecordsAreNotTemp` | scripts/release_checkpoint.py:92-92 | No record path is a temporary name, so torn bytes are never read as a record |
| `Checkpoint.StateDir.Peek` | scripts/release_checkpoint.py:124-144 | Resumes exactly when the committed identity agrees in all identity fields, and then answers its attempt |
| `Checkpoint.StateDir.Init` | scripts/release_checkpoint.py:147-160 | Commits the candidate's identity with the attempt, or nothing |
| `Checkpoint.StateDir.Check` | scripts/release_checkpoint.py:163-201 | Each exit code exactly for its case: missing, stale, not PASS, reusable |
| `Checkpoint.StateDir.Write` | scripts/release_checkpoint.py:204-244 | Commits the outcome under the identity file's fields, or nothing |
| `Checkpoint.OutcomeShape` | scripts/release_checkpoint.py:225-241 | A written record has the identity file's match fields, the command, PASS or FAIL, and the details unchanged |
| `Checkpoint.StateDir.Aggregate` | scripts/release_checkpoint.py:247-285 | Accepts exactly when every required tier's last record is a PASS under the current attempt and identity, and returns those records |
| `Checkpoint.PassedMeans` | scripts/release_checkpoint.py:58-76 | What a PASS under the current attempt and identity is, field by field |
| `Checkpoint.StateDir.BeginAttempt` | scripts/release.sh:623-662 | Resuming keeps all records and the attempt; otherwise everything is wiped and the new attempt recorded; an interrupted removal only removes |
| `Checkpoint.ContentCommitted` | scripts/release_checkpoint.py:79-107 | The content of a path is a committed record that nothing has replaced or removed since |
| `Checkpoint.ContentMeans` | scripts/release_checkpoint.py:79-107 | And a committed record that nothing has replaced or removed since is the content |
| `Checkpoint.AttemptsNeverMix` | scripts/release_checkpoint.py:247-285 | At every later moment of every run, what is accepted under an attempt was committed after its id was first used |
| `Checkpoint.NothingReusableAtStart` | scripts/release_checkpoint.py:163-201 | Under a fresh attempt id nothing is reusable, wiped or not |
| `Checkpoint.PassedWasWritten` | scripts/release_checkpoint.py:204-244 | An accepted tier was recorded by the write command; the identity file cannot stand in for it |
| `Checkpoint.LastRecordDecides` | scripts/release_checkpoint.py:204-244 | After a write the tier is reusable if and only if it was written PASS |
| `Walking.Walker.Walk` | internal/assay/snapshot.go:679-683 | Terminates by unvisited symlink targets, then depth; the trail stays sound and grows only at or below the directory; an error means something reachable cannot be read |
| `Walking.Walker.WalkEntries` | internal/assay/snapshot.go:684-740 | Every entry of the directory is recorded when the loop ends, in the order of the names |
| `Walking.Walker.VisitEntry` | internal/assay/snapshot.go:684-738 | One entry is recorded completely: content of a file, target of a link, descent into a directory |
| `Walking.Walker.FollowLink` | internal/assay/snapshot.go:695-723 | A link's target is recorded, its content if it is no directory, and a directory is entered through the first link that leads there and no other |
| `WalkUnique.WalkUnique` | internal/assay/snapshot.go:669-745 | Two finished walks of one root are the same: the same directories under the same logical paths, entered through the same links, and the same facts |
| `TreeWalk.EntryPath` | internal/assay/snapshot.go:685-688 | A logical path is the directory's logical path, a slash and the name |
| `TreeWalk.EntryTexts` | internal/assay/snapshot.go:703-734 | The keys and values of a file and of a symlink, written out |
| `TreeHash.WalkRoot` | internal/assay/snapshot.go:672-745 | On every finite file system, symlink cycles included: success exactly when everything reachable can be read, and then a finished walk with its list |
| `TreeHash.CollectEntries` | internal/assay/snapshot.go:672-745 | The list is one part for each root, empty for a root that is skipped, and a part holds one entry for each fact of that root's walk |
| `TreeHash.HashPathTree` | internal/assay/snapshot.go:669-760 | The hash is that of a rearrangement of exactly those entries in ascending order of keys, and empty for no entries |
| `WalkUnique.PartsUnique` | internal/assay/snapshot.go:669-745 | All entries of all roots are a function of the file system |
| `WalkUnique.HashUnique` | internal/assay/snapshot.go:669-760 | The hash is a function of the file system and the roots whenever no two entries share a key |
| `TreeDetermination.AllReached` | internal/assay/snapshot.go:679-741 | A finished walk has entered every reachable directory |
| `TreeDetermination.FinishedUnobstructed` | internal/assay/snapshot.go:679-741 | A walk finishes only when everything below the root can be read |
| `TreeDetermination.PlaceAgrees` | internal/assay/snapshot.go:702-719 | Walks of two file systems with the same facts put a logical path at the same place |
| `TreeKeys.CollisionExact` | internal/assay/snapshot.go:703-734 | Two roots can produce one key from real directory entries if and only if one continues the other ambiguously |
| `TreeKeys.EntryInjective` | internal/assay/snapshot.go:703-734 | Under unambiguous roots an entry comes from one root and one fact |
| `TreeHash.ListingDetermines` | internal/assay/snapshot.go:660-760 | Equal lists: every reachable regular file has the same content and every reachable symlink the same target |
| `TreeExact.AmbiguousConfuses` | internal/assay/snapshot.go:669-760 | For any two confusable clean roots that lie apart, two different file systems with the same list, with the roots where their text says |
| `TreeExact.DeterminesExact` | internal/assay/snapshot.go:669-760 | For clean roots that lie apart, the list determines the trees, content behind symlinks included, if and only if the roots are unambiguous |
| `TreeExact.UnambiguousDetermines` | internal/assay/snapshot.go:669-760 | For any roots, wherever they lead: if none continues another ambiguously, equal lists mean equal trees |
| `Utf8.ValidExact` | internal/assay/snapshot.go:750-757 | A text is the only one with its runes and replacement marks if and only if it is valid UTF-8 |
| `Utf8.WidthExact` | internal/assay/snapshot.go:750-757 | A rune starts a text exactly when the encoding of some code point does (section 3 of RFC 3629) |
| `TreeText.ListExact` | internal/assay/snapshot.go:750-757 | A list is the only one with its JSON text if and only if all its strings are UTF-8 |
| `TreeText.NameExact` | internal/assay/snapshot.go:669-760 | The hash of a tree determines the name of its file if and only if the name is UTF-8 |
| `TreeText.TwoBytesOneHash` | internal/assay/snapshot.go:669-760 | Trees with a file named 0xFF and with a file named 0xFE are different and hash alike |
| `TreeText.HashDetermines` | internal/assay/snapshot.go:669-760 | If all names and link targets on one side are UTF-8, an equal hash of unambiguous roots means equal trees, in both directions and whatever the other side holds |
| `LedgerTime.ToUnixNanoExact` | internal/dbtime/dbtime.go:71-81 | Although the conversion wraps, it accepts exactly the zero time and the instants whose true count lies in (-2^63, 2^63-1], and answers that count |
| `LedgerTime.FromTo` | internal/dbtime/dbtime.go:71-90 | Number to time to number is the identity on every 64-bit integer |
| `LedgerTime.ToFrom` | internal/dbtime/dbtime.go:71-90 | Time to number to time is the identity on every accepted time |
| `LedgerTime.OrderPreserved` | internal/dbtime/dbtime.go:71-81 | Stored numbers compare as the instants do |
| `Calendar.DateRoundTrip` | internal/dbtime/dbtime.go:48-53 | Every day has a valid Gregorian date that names it |
| `Calendar.NextDay` | internal/dbtime/dbtime.go:48-53 | The date of the next day is the next day of the month, else the first of the next month, else January 1 |
| `LegacyText.Anchors` | internal/dbtime/dbtime.go:48-53 | The Unix epoch is 1970-01-01 and the zero time lies on 0001-01-01 |
| `LegacyText.SampleText` | internal/dbtime/dbtime.go:48-53 | The text of one instant whose fields all differ |
| `LegacyText.EpochText` | internal/dbtime/dbtime.go:48-53 | The text of the Unix epoch |
| `LegacyText.SampleNumbers` | internal/dbtime/dbtime.go:115-121 | The numbers of both texts |
| `LegacyText.LocalTimeRead` | internal/dbtime/dbtime.go:55-66 | What a text with any zone reads as: days since 1970-01-01, the clock, minus the offset |
| `LegacyText.OffsetRead` | internal/dbtime/dbtime.go:55-66 | The offset of a numeric zone |
| `LegacyText.ParseExact` | internal/dbtime/dbtime.go:55-66 | Which texts are read: the separators, the range of every field, and the zone |
| `LegacyText.FractionRoundTrip` | internal/dbtime/dbtime.go:48-66 | Nanoseconds survive the text form with stripped zeros |
| `LegacyText.LegacyTextExact` | internal/dbtime/dbtime.go:48-66 | Formatting and parsing are inverse if and only if the time is zero or its year is 0 to 9999 |
| `LegacyText.NumberTextNumber` | internal/dbtime/dbtime.go:115-128 | Number to text to number is the identity on every 64-bit integer |
| `LegacyText.WrittenRowVerifies` | internal/dbtime/dbtime.go:104-113 | Beside the text of a representable time the corruption check accepts that time's number and no other |
| `FrozenEnv.With` | internal/controllerenv/controllerenv.go:77-101 | The result validates and lists the derived map in strictly ascending key order |
| `FrozenEnv.DerivedMeans` | internal/controllerenv/controllerenv.go:77-90 | Which variables a derivation has: those of the override and those inherited, by name; an override wins, and otherwise the last entry of the list |
| `FrozenEnv.EncodesMeans` | internal/controllerenv/controllerenv.go:91-99 | The list in words: one entry for each variable, the keys ascending |
| `FrozenEnv.Lookup` | internal/controllerenv/controllerenv.go:67-75 | The value of the first entry with that key |
| `FrozenEnv.FirstMeans` | internal/controllerenv/controllerenv.go:67-75 | That entry is the first that starts with the name and an equals sign, and the value is the rest |
| `FrozenEnv.Validate` | internal/controllerenv/controllerenv.go:57-65 | Each error exactly for its case: not frozen, or a hash that is not that of the sorted lines |
| `FrozenEnv.LookupEncoded` | internal/controllerenv/controllerenv.go:67-101 | Looking a name up in a derived list is looking it up in the map |
| `FrozenEnv.DerivedKeys` | internal/controllerenv/controllerenv.go:79-90 | No derived environment holds an injection variable or a key that breaks the text form |
| `FrozenEnv.EncodesUnique` | internal/controllerenv/controllerenv.go:91-99 | A map has one list, whatever order its keys were iterated in |
| `FrozenEnv.EncodesInjective` | internal/controllerenv/controllerenv.go:91-99 | A list has one map |
| `FrozenEnv.InheritedEncoded` | internal/controllerenv/controllerenv.go:79-84 | Deriving inherits exactly the permitted keys of the encoded map |
| `FrozenEnv.OverrideExact` | internal/controllerenv/controllerenv.go:77-101 | Deriving with a and then b equals deriving with a overridden by b if and only if no `GIT_` key of a is missing from b |
| `FrozenEnv.LostOverride` | internal/controllerenv/controllerenv.go:79-90 | An override of a `GIT_` key is visible after its own derivation and absent after every further one that does not repeat it |
| `FrozenEnv.GitDirLost` | internal/controllerenv/controllerenv.go:79-90 | The same at GIT_DIR followed by an empty override, where deriving twice and once differ |
| `EnvDigest.LinesUnique` | internal/controllerenv/controllerenv.go:146-151 | Without line breaks in values, the joined text has one reading, even when keys hold line breaks |
| `EnvDigest.DigestSorted` | internal/controllerenv/controllerenv.go:146-151 | The digest is that of the entries in ascending order, however they are listed |
| `EnvDigest.LinesText` | internal/controllerenv/controllerenv.go:146-151 | Each further line is set off by one line break |
| `EnvDigest.DigestExact` | internal/controllerenv/controllerenv.go:57-65 | Equal digests of derived environments mean equal lists if and only if values may not hold a line break |
| `EnvDigest.BreakValidates` | internal/controllerenv/controllerenv.go:57-65 | For any two variables, one variable with a line break validates under the hash of both |
| `EnvDigest.LinesComparable` | internal/controllerenv/controllerenv.go:146-151 | The lines of two variables always sort one way or the other, so one of the two can absorb the other |

## Left out

- Ancestors.PlanAncestors: on a cyclic graph, or with repeated ids, only soundness is stated; the memo then holds fewer ids than the closure, depending on the visit order, and the plan is refused anyway.
- Contract.Validate is a predicate that implies a non-empty job id; the schema behind it, YAML parsing, panel specifications and the texts and sorting of validation errors are not modelled.
- path.Clean, strings.Split, sort.Strings and the calendar of Go's time package are modelled by definitions of what they compute, not by their code.
- LegacyText.LegacyTextExact: only the RFC 3339 form is parsed; the variants Go's slower parser also tolerates (a comma before the fraction, a one-digit hour) read as unparseable.
- Breaker.ApplyPolicy: times are unbounded instants after Go's zero time, the failure count is unbounded, and quota.NextReset is an input; the detail text, the `All` listing and the health mapping are not modelled.
- Breaker.Store.Commit: SQLite is a row map and a log with an injected fault; concurrent writers are not modelled.
- Extinction.EmptyForever: processes enter a cgroup only by being forked there; migration from outside and nested cgroups are not modelled.
- Extinction.Scope.Extinguish: the freeze and kill writes have no assumed effect, so the result rests on what is observed; test hooks, the sealed primitive, the mutex and the waiting time in the proof are not modelled, and attribution by cgroup and by process group is evaluated at the moment /proc is listed, not process by process.
- Extinction.Scope.ExtinguishNamespace: with no identified init a nil error does not promise a dead namespace, because the code only waits for the outer process; that the first child is the init is an assumption about `unshare`.
- Extinction.DescendantSet: the child relation is one consistent read per process.
- EdwardsCurve.VerifyOnCurve: associativity of the Edwards addition and invertible denominators, point decompression and SHA-512 are assumptions or parameters of the scheme.
- Checkpoint.StateDir.Write: JSON values are strings, and argument parsing, the printed output and the splitting of the required list are not modelled.
- TreeHash.HashPathTree: that `os.ReadDir` lists a directory in ascending order without repetition is an assumption about Go's library; the error of a failed walk is not tied to a particular entry.
- TreeExact.DeterminesExact: for roots that are not clean, repeated, or inside one another only the "if" half is stated (TreeExact.UnambiguousDetermines); the walk of an enclosing root also sees the files of the inner one, which can tell confused keys apart.
- TreeText.HashDetermines: SHA-256 is injective, json.Marshal shows exactly the runes and replacement marks of its strings, a root name leads to the same place in both file systems, and the tree does not change during the walk.
- FrozenEnv.With: SHA-256 is a function with non-empty results; capturing the ambient environment (`Freeze`, and `With` as a function of the process environment) is not modelled.
- The command line, agents, attestation, claims, configuration and the remaining scripts are not modelled: mostly file, git and process checks of one branch each.
