# pg_ripple: models and proofs

pg_ripple keeps RDF triples in PostgreSQL: a dictionary of terms with a shared-memory
cache, triple tables split into a read-optimised and a write part, Datalog rules with an
inference engine, temporal facts, R2RML import, and scripts that check migrations and
schemas.  This project models the parts of it in which state or arithmetic is intricate,
and proves what they promise.  `dafny verify dfyconfig.toml` checks all of it.

- **Encode cache** (`CacheModel`, `EncodeCache`): an ideal 4-way cache is related to a map
  and to its own history; a class over 128-bit words with packed ages refines it.
- **Delta Bloom filter** (`BloomModel`, `DeltaBloom`): reference counts over two positions
  for each predicate.
- **Locks** (`LockOrder`): backends that take and drop the locks of these structures step
  by step.
- **Dictionary** (`DictionaryCache`): sessions that encode terms, commit, abort, flush and
  roll back to savepoints in any interleaving.
- **Rule libraries** (`RuleLibrary`, `LibraryGraph`): the recursive installer, upgrade and
  uninstall, and the graph theory of what they do.
- **Rules** (`RuleSafety`, `Datalog`, `RuleMeaning`, `RuleSql`, `CompiledRules`, `RuleGaps`,
  `Subsumption`, `SemiNaive`, `FreshCalls`, `CallCases`, `RecursiveCalls`, `SinglePass`,
  `Stratification`, `RuleOrder`): the static validator and domain independence; rules, their
  models, and the statements compiled for them; the rules dropped as redundant; the
  semi-naive engine and what one call of it computes; the single-pass engine; the stratifier
  with Kosaraju's and Kahn's algorithms, and the order in which stored rules run.
- **Triple storage and what-if inference** (`TripleStore`, `WhatIf`): tables, tombstones and
  merges against one set of facts; the speculative procedure and its diff.
- **Text** (`Percent`, `Template`, `NTriples`, `R2rml`): percent-encoding, templates,
  literal escaping, the N-Triples tokenizer and printed rows.
- **Temporal facts** (`TemporalStore`, `GraphDiff`): registry, intervals, point-in-time
  views, snapshots and the diff query.
- **Scripts** (`MigrationGraph`, `JsonText`, `SchemaFingerprint`, `BuildDate`).

`Prelude`, `StringOrder` and `DecimalText` hold what several of them share.

Where the code and its comments differ the model follows the code:

- `src/shmem.rs:31` describes the set index as `>> 126`; the code at `src/shmem.rs:398`
  shifts by 118, which is what makes masking off the two age bits lossless.  The same
  comment calls lookups shared-locked; `src/shmem.rs:428-429` takes exclusive locks.
- `src/datalog/seminaive.rs:5-13` describes evaluation stratum by stratum; the loop takes all
  rules at once, negation is answered from the stored tables, and the stored tables do not
  change during the loop.
- `src/datalog/compiler/sql.rs:28-190` compiles every rule that mentions its own head as a
  transitive closure: the variables of the rule, its tests and its negated atoms play no part,
  and rows keep their graph.
- `src/datalog/stratify.rs:552-565` says that dropping a subsumed rule does not change the least
  model; the code compares nothing but predicates, and drops rules by their text.
- `src/datalog/stratify.rs:422-423` calls the strata an execution order.  Edges lead from heads
  to bodies and Kahn's algorithm starts with the nodes without incoming edges, so a rule gets
  a lower stratum than the rules it depends on.
- `src/temporal.rs:387-388` speaks of closing the open row of the same object; the code closes
  the open rows of subject, predicate and graph.  A retraction likewise closes all of them.
- `src/rule_library.rs:314` speaks of a depth-first search in `check_no_cycle`; it is a
  membership test on the resolution stack, and the recursion is the search.

## Model

| member | source | states |
|---|---|---|
| `CacheModel.HitWasInserted` | `src/shmem.rs:418-505` | In every run of lookups, insertions, evictions and clears a hit returns an id that was inserted earlier for that very key, with no clear in between and with at least one insertion of the key that no eviction has taken back |
| `CacheModel.CopiesAreOutstanding` | `src/shmem.rs:464-565` | The number of ways that hold a key is at most the number of its insertions not yet taken back by an eviction or a clear |
| `CacheModel.EntryOrigin` | `src/shmem.rs:464-505` | Every occupied way can be traced to the insertion that filled it |
| `CacheModel.AtMostOneCopy` | `src/shmem.rs:464-565` | If every insertion follows a miss for its key, no key ever occupies two ways |
| `CacheModel.AgreesThroughoutExactlyWhen` | `src/shmem.rs:418-565` | Through a whole run each hit for a key agrees with a plain map from keys to ids run through the same operations exactly when every step is harmless where it is taken: no eviction of the key while two ways hold it, and no insertion that leaves an older copy of the key in front of the new one |
| `CacheModel.StepKeepsAgreementExactlyWhen` | `src/shmem.rs:418-565` | From agreement, one more operation keeps it exactly when it is harmless |
| `CacheModel.EvictionForgetsExactlyWhen` | `src/shmem.rs:545-565` | After an eviction the key is gone exactly when at most one way held it |
| `CacheModel.CacheRefinesMap` | `src/shmem.rs:418-565` | If every insertion follows a miss for its key, every hit agrees with the map |
| `CacheModel.DuplicateSurvivesEviction` | `src/shmem.rs:545-565` | Without it, an id survives the eviction of its key: two insertions make two ways and an eviction frees one |
| `CacheModel.IdleCountsMisses` | `src/shmem.rs:437-458` | The age of an entry is the number of misses in its set since its last touch, stopping at 3 |
| `CacheModel.InsertionHits` | `src/shmem.rs:464-505` | After the insertion of a key under an id other than 0 the key is answered |
| `EncodeCache.KeyRecovered` | `src/shmem.rs:386-415` | The set index and the 126 low bits of a scoped hash determine it: overwriting the two top bits with an age loses nothing, because the set index repeats them |
| `EncodeCache.PackAgeKeepsBoth` | `src/shmem.rs:403-415` | Packing an age over a word and reading it back gives the age and leaves the key bits as they were |
| `EncodeCache.ScopingIsInjective` | `src/shmem.rs:386-393` | For one database, scoping maps different hashes to different scoped hashes |
| `EncodeCache.ScopingSeparatesDatabases` | `src/shmem.rs:386-393` | One hash has different scoped hashes in different databases |
| `EncodeCache.MatchIsExact` | `src/shmem.rs:430-440` | Within a set a masked comparison succeeds exactly for the word that stands for the searched key |
| `EncodeCache.AgeOrderIsIdleOrder` | `src/shmem.rs:476-500` | Comparing packed ages picks the same victim as comparing the ideal ages |
| `EncodeCache.AgedWordStands` | `src/shmem.rs:446-455` | Incrementing the packed age of a word, up to 3, is one more miss of the ideal entry |
| `EncodeCache.SteppedIsRun` | `src/shmem.rs:418-584` | Stepping every set of the arrays is one more operation in the run of the ideal cache |
| `EncodeCache.StepsAreRuns` | `src/shmem.rs:418-584` | and so the state of all sets stays the ideal run over the recorded operations |
| `EncodeCache.SharedCache.Lookup` | `src/shmem.rs:418-461` | The lookup over the packed arrays answers as the ideal cache does after the recorded operations, so a hit is an id once inserted for that very key and not taken back; the arrays then stand for the history with this lookup added |
| `EncodeCache.SharedCache.Insert` | `src/shmem.rs:464-505` | The arrays then stand for the history with this insertion added: the first free way or the oldest one is its slot |
| `EncodeCache.SharedCache.Evict` | `src/shmem.rs:545-565` | The arrays then stand for the history with this eviction added: the first way that holds the key is freed, and no other |
| `EncodeCache.SharedCache.ClearAll` | `src/shmem.rs:574-584` | The arrays then stand for the history with a clear added, which empties every set |
| `BloomModel.CountersCountMarks` | `src/shmem.rs:289-348` | In balanced runs with at most 255 marks on a position every counter covers the outstanding marks of all predicates that share the position, and equals their number when no reset occurs |
| `BloomModel.NoFalseNegative` | `src/shmem.rs:289-366` | In such runs a predicate with an outstanding mark is never reported clean |
| `BloomModel.CountersOutliveResets` | `src/shmem.rs:368-374` | In every run the counters are those of the same run without its resets: marks before a reset go on counting |
| `BloomModel.NoFalseNegativeAcrossResets` | `src/shmem.rs:289-374` | In runs with resets in which unmarks may take back marks from before a reset, a predicate marked since the last reset, with marks left over the whole run, is never reported clean |
| `BloomModel.ResetHidesAll` | `src/shmem.rs:368-374` | Right after a reset nothing is reported |
| `BloomModel.BitsTrackCounters` | `src/shmem.rs:289-348` | In every run without a reset, balanced or not, a bit is set exactly when its counter is positive |
| `BloomModel.HiddenByUnmarksExactlyWhen` | `src/shmem.rs:301-348` | In balanced runs without a reset, further balanced unmarks can hide a predicate that keeps an outstanding mark exactly when saturation has left its counters short of their loads; for two distinct positions, when both counters are below their loads |
| `BloomModel.SaturationHidesAny` | `src/shmem.rs:301-348` | After 256 further marks of any predicate with an outstanding mark, balanced unmarks can hide it |
| `BloomModel.SaturationIsTheLimit` | `src/shmem.rs:301-325` | After n marks and n - 1 unmarks of one predicate with two distinct positions the remaining mark is seen exactly when n fits the 8-bit counter |
| `BloomModel.StrayUnmarkHidesAnother` | `src/shmem.rs:314-348` | An unmark without a mark makes a different predicate on the same positions, which has an outstanding mark, look clean |
| `BloomModel.LoadIsSum` | `src/shmem.rs:289-348` | The load of a position is the sum, over any list of distinct predicates that covers the run, of their outstanding marks on it |
| `DeltaBloom.SetBitCases` | `src/shmem.rs:295-298` | In the words, setting the bit of one position sets that bit and changes no other position |
| `DeltaBloom.ClearBitCases` | `src/shmem.rs:333-347` | In the words, clearing the bit of one position clears that bit and changes no other position |
| `DeltaBloom.CollidingIds` | `src/shmem.rs:277-282` | Two concrete predicate ids share both positions of the filter, so collisions do occur |
| `DeltaBloom.SharedFilter.SetPredicateDeltaBit` | `src/shmem.rs:289-305` | Marks both positions and counts both, once each, saturating |
| `DeltaBloom.SharedFilter.ClearPredicateDeltaBit` | `src/shmem.rs:314-348` | Counts both positions down and drops the bits of those that reach zero |
| `DeltaBloom.SharedFilter.PredicateMayHaveDelta` | `src/shmem.rs:353-364` | Reports whether either position is marked |
| `DeltaBloom.SharedFilter.ResetBloomFilter` | `src/shmem.rs:368-374` | Clears all bits and, as the code does, no counter |
| `LockOrder.CircularWaitExactlyWhen` | `src/shmem.rs:295-333` | Backends wait in a circle exactly when one is between the two locks of setting a delta bit and another between the two locks of clearing one |
| `LockOrder.MixDeadlocksExactlyWhen` | `src/shmem.rs:289-579` | A mix of operations, for any number of backends, can reach a circular wait exactly when it contains both filter writers; the cache operations alone never do |
| `LockOrder.WritersCanCross` | `src/shmem.rs:295-330` | Two backends and four moves that reach the circular wait |
| `LockOrder.CrossedForGood` | `src/shmem.rs:295-330` | Once crossed, the two writers stay so in every continuation of the run |
| `LockOrder.NoDeadlock` | `src/shmem.rs:289-579` | In every reachable state without crossed writers some busy backend can move |
| `LockOrder.SomeoneCanMove` | `src/shmem.rs:289-579` | Following a blocked backend through its blockers finds one that can move |
| `LockOrder.RunsStayExclusive` | `src/shmem.rs:289-579` | In every run no two backends hold conflicting locks |
| `LockOrder.CacheOperationsExclude` | `src/shmem.rs:428-429` | At most one backend is inside a cache operation at a time, so these take effect one after the other |
| `LockOrder.NoDataRace` | `src/shmem.rs:289-579` | In every run, whoever writes one of the four structures is the only backend to touch it at that moment |
| `LockOrder.ReadersShare` | `src/shmem.rs:353-525` | Filter tests and statistics never wait for each other |
| `LockOrder.LastLockGoesFirst` | `src/shmem.rs:289-579` | Locks are given back one at a time, the last one first |
| `DictionaryCache.RunsStayCoherent` | `src/dictionary/mod.rs:132-200` | For any number of sessions and any interleaving of lookups, publications, commits, aborts and flushes, without savepoint rollbacks, every entry of the shared cache names a committed row or a row of a running transaction, and aborting will remove the latter |
| `DictionaryCache.AtRestOnlyCommittedRows` | `src/lib.rs:534-585` | In such runs, whenever no session has uncommitted rows, the shared cache holds mappings to committed rows only |
| `DictionaryCache.PublishKeepsCoherent` | `src/dictionary/mod.rs:163-197` | The upsert followed by the tracked insertion keeps the cache coherent, whatever other sessions are doing |
| `DictionaryCache.RunsKeepIdsApart` | `src/dictionary/mod.rs:163-189` | In every run, savepoint rollbacks included, rows of different terms, committed or pending in any session, have different ids, and all ids are positive and handed out already |
| `DictionaryCache.IdsAreNeverReused` | `src/schema/tables.rs:27` | An id a term had at any moment of a run, also one that an abort has taken back, is never the id of another term |
| `DictionaryCache.CachedAnswersSeparate` | `src/dictionary/mod.rs:132-189` | After a run without dirty lookups, answers from the caches for different terms are different ids, in whichever sessions |
| `DictionaryCache.PublishAnswers` | `src/dictionary/mod.rs:163-197` | A publication gives the term a row that the session sees, and both caches answer with its id |
| `DictionaryCache.CommitShowsRows` | `src/lib.rs:556-562` | After a commit every session sees the rows, none is left to take back, and no cached answer changes |
| `DictionaryCache.CommittedRowsStay` | `src/lib.rs:534-585` | A committed row keeps its id through every later step |
| `DictionaryCache.AbortTakesBack` | `src/lib.rs:548-555` | An abort takes back exactly the rows of its transaction |
| `DictionaryCache.SavepointTakesBack` | `src/lib.rs:588-603` | A rollback to a savepoint takes back exactly the rows since then, and empties the private cache but not the shared one |
| `DictionaryCache.FlushEmpties` | `src/sparql_api.rs:534-539` | After a flush neither cache of the session answers for any term, and no row is lost |
| `DictionaryCache.LookTouches` | `src/dictionary/mod.rs:132-146` | A lookup changes no answer; a hit in the shared cache goes to the private one and makes its way young, and a miss makes every entry of the set older by one |
| `DictionaryCache.AbortKeepsCoherent` | `src/dictionary/mod.rs:882-896` | Evicting once for each tracked key removes every copy of every row the abort takes back |
| `DictionaryCache.FlushKeepsCoherent` | `src/sparql_api.rs:534-539` | Flushing the cache keeps it coherent |
| `DictionaryCache.CopiesAfterEvictions` | `src/dictionary/mod.rs:882-889` | A list of evictions lowers the number of copies of a key by its count in the list, down to zero |
| `DictionaryCache.SubAbortExactlyWhenUncached` | `src/lib.rs:588-603` | Rolling back to a savepoint keeps the shared cache coherent exactly when none of the rows it takes back is in the shared cache |
| `DictionaryCache.SavepointRollbackLeaks` | `src/lib.rs:588-603` | A run of one session in which a savepoint is rolled back, and a later hit returns an id without a row |
| `DictionaryCache.LocalsHaveRowsExactlyWhen` | `src/dictionary/mod.rs:132-146` | In any interleaving without savepoint rollbacks, all private caches hold ids of visible rows throughout exactly when no lookup is dirty, that is, answered by the shared cache while another session has the row uncommitted |
| `DictionaryCache.LookKeepsLocalsExactlyWhen` | `src/dictionary/mod.rs:132-146` | From a coherent state one lookup keeps that property exactly when it is not dirty |
| `DictionaryCache.OtherStepsKeepLocals` | `src/dictionary/mod.rs:132-200` | and every other step but a savepoint rollback keeps it |
| `DictionaryCache.SharedAnswerVisibleExactlyWhen` | `src/dictionary/mod.rs:132-146` | In a coherent state an answer of the shared cache is the id of a row the session can see exactly when no other session has it uncommitted |
| `DictionaryCache.CachedAnswersAreRows` | `src/dictionary/mod.rs:132-146` | After a run without dirty lookups, an answer from either cache is the id of a visible row exactly when this lookup is not dirty either |
| `DictionaryCache.DirtyHitOutlivesAbort` | `src/dictionary/mod.rs:136-146` | With two sessions at once it is not: a hit on an uncommitted id, then the abort, leaves that id in the private cache of the other session |
| `DictionaryCache.RejoinedExactlyWhen` | `src/dictionary/mod.rs:432-438` | The batch path rebuilds a hash from two signed halves; it is the original hash exactly when the low half is not negative or the high half is all ones |
| `RuleLibrary.LibraryManager.InstallInner` | `src/rule_library.rs:330-448` | The recursive installer with its resolution stack computes the specified outcome, and on success leaves the stack as it found it |
| `RuleLibrary.LibraryManager.InstallRuleLibrary` | `src/rule_library.rs:510-523` | On success the version of the source is installed, and if it was not before, the row, rules and shapes of the source are stored; on failure everything is as it was |
| `RuleLibrary.LibraryManager.UpgradeRuleLibrary` | `src/rule_library.rs:526-576` | Fails for a library that is missing or required, or whose source cannot be installed without it, and then leaves everything as it was; otherwise the source recorded in its row is installed and stored, and rows and rules of others stay or come from the sources |
| `RuleLibrary.LibraryManager.UninstallRuleLibrary` | `src/rule_library.rs:583-622` | Fails exactly for a library that is missing or required; otherwise exactly its row, its rules and the shapes it owns are gone |
| `RuleLibrary.LibraryManager.LoadShapes` | `src/rule_library.rs:454-488` | The shapes a library owns are those it stores that were not stored before |
| `RuleLibrary.InstallKeepsSound` | `src/rule_library.rs:330-448` | Installing from arbitrary sources keeps the catalog without dangling dependencies and the shape ownership sound |
| `RuleLibrary.InstallStores` | `src/rule_library.rs:330-448` | A successful installation leaves the version of the source installed; if it was not, the row has its version, license, source and the names of its dependencies in order, and its rules and shapes are stored; every other row and rules text is as before or comes from a source |
| `RuleLibrary.UpgradeInstalls` | `src/rule_library.rs:526-576` | The same for an upgrade, starting without the old library, whose row gave the source |
| `RuleLibrary.RunsStaySound` | `src/rule_library.rs:330-704` | In every run of install, upgrade and uninstall, with sources that may change from step to step, no row names a missing library, and owned shapes are stored and owned once |
| `RuleLibrary.UninstallSparesOthers` | `src/rule_library.rs:667-704` | Uninstalling a library leaves the rows, rules and owned shapes of all others in place |
| `RuleLibrary.UninstallUndoesInstall` | `src/rule_library.rs:583-622` | Uninstalling what a call installed without dependencies brings the catalog, rules and shapes back |
| `RuleLibrary.PushShrinks` | `src/rule_library.rs:374-385` | Pushing a name on the stack leaves fewer names unvisited: the installation terminates |
| `RuleLibrary.RecordKeepsOwnedExactlyWhen` | `src/rule_library.rs:377-447` | When every stored shape has an owner, recording a library keeps it so exactly when no old row of the same name owns a shape: the row is replaced and the shapes it owned stay stored without an owner |
| `RuleLibrary.DeclaredShapeSurvivesExactlyWhen` | `src/rule_library.rs:667-704` | A shape that a new library declares and another had stored survives the uninstallation of some other library exactly when a library that stays owns it: declaring a shape does not protect it |
| `LibraryGraph.InstallDecides` | `src/rule_library.rs:318-448` | Over sources with unique names installation succeeds exactly when neither a cycle nor a library that cannot be installed is reachable through libraries not yet installed |
| `LibraryGraph.UpgradeDecides` | `src/rule_library.rs:526-576` | Over sources with unique names an upgrade fails exactly for a missing or required library, or when from its source, on the catalog without it, a cycle or a library that cannot be installed is reachable |
| `LibraryGraph.InstallFailureCaused` | `src/rule_library.rs:318-448` | Each failure is a cycle, or a blocked library, that can be reached |
| `LibraryGraph.InstallDone` | `src/rule_library.rs:330-448` | A success records each new library after its dependencies, adds nothing else, and changes no old row |
| `LibraryGraph.InstallRecordsReachable` | `src/rule_library.rs:377-447` | What a success records is exactly the set of libraries reachable through libraries not yet installed |
| `LibraryGraph.SuccessMeansNoCycle` | `src/rule_library.rs:318-325` | A success excludes a reachable cycle |
| `LibraryGraph.RunsStayConsistent` | `src/rule_library.rs:330-704` | Over fixed sources the dependency graph of the catalog stays acyclic in every run |
| `LibraryGraph.SomethingCanBeUninstalled` | `src/rule_library.rs:583-622` | As long as it is acyclic and not empty some library can be uninstalled |
| `LibraryGraph.RecordKeepsAcyclicExactlyWhen` | `src/rule_library.rs:377-447` | Recording a library in an acyclic catalog keeps it acyclic exactly when none of its recorded dependencies requires that library, directly or through other rows |
| `LibraryGraph.ChangingVersionsCanLock` | `src/rule_library.rs:358-371` | With sources that change version between installs, names unique at each step, two libraries come to require each other, and neither can be uninstalled or upgraded any more |
| `RuleSafety.CollectVars` | `src/rule_authoring.rs:273-283` | Collects exactly the variables among the terms |
| `RuleSafety.CheckRule` | `src/rule_authoring.rs:74-214` | Reports the unbound head variables and then the unsafe variables of negated atoms, in order |
| `RuleSafety.ValidateRules` | `src/rule_authoring.rs:49-230` | A nonempty rule list is valid exactly when every rule is range restricted; the errors are those of the rules |
| `RuleSafety.NoIssuesMeansRestricted` | `src/rule_authoring.rs:154-213` | No issue is reported exactly when head variables and variables of negated atoms are bound |
| `RuleSafety.IssuesExactlyWhen` | `src/rule_authoring.rs:154-213` | An issue names a variable of the head, or of a negated atom, exactly when that variable is not bound |
| `RuleSafety.BoundExactlyWhen` | `src/rule_authoring.rs:74-153` | A variable counts as bound exactly when a positive atom has it in one of its four places or an assignment or aggregate computes it |
| `RuleSafety.AcceptedRulesAreDomainIndependent` | `src/rule_authoring.rs:74-214` | An accepted rule whose other operands are bound derives the same facts over any two universes that contain the active domain, for every database |
| `RuleSafety.DerivedValuesAreActive` | `src/rule_authoring.rs:154-176` | Without assignments it derives only values of the database, constants of the head, and the default graph |
| `RuleSafety.OneFactPerMatch` | `src/rule_authoring.rs:104-109` | With assignments computable in order each match of the positive atoms yields one fact |
| `RuleSafety.ValidatorIsExactForPositiveRules` | `src/rule_authoring.rs:74-176` | A rule of positive atoms is accepted exactly when it is domain independent |
| `RuleSafety.RejectedPositiveRuleIsDependent` | `src/rule_authoring.rs:167-175` | A rejected rule of positive atoms derives facts that depend on the universe |
| `RuleSafety.UnboundComparisonIsAccepted` | `src/rule_authoring.rs:100-103` | A comparison with an unbound variable passes the validator |
| `RuleSafety.UnboundComparisonIsDependent` | `src/rule_authoring.rs:100-103` | and what that rule derives depends on the universe |
| `RuleSafety.UnboundOperandIsAccepted` | `src/rule_authoring.rs:104-109` | An assignment with an unbound operand passes the validator |
| `RuleSafety.UnboundOperandIsDependent` | `src/rule_authoring.rs:104-109` | and what that rule derives depends on the universe |
| `RuleSafety.CircularAssignmentsDeriveEverything` | `src/rule_authoring.rs:104-109` | Two assignments that bind each other pass, with bound operands, and derive a fact for every integer |
| `RuleMeaning.FiresExactlyWhenDerived` | `src/rule_authoring.rs:74-214` | For a rule the validator accepts, without tests, matching one fact per atom derives the same facts as the valuations of the rule over any universe with the active domain: the two definitions of the meaning of a rule agree |
| `RuleSql.CompileAtom` | `src/datalog/compiler/mod.rs:366-376` | One step of a FROM clause keeps: the conditions so far hold of a tuple of rows exactly when the atoms so far match it, each variable read from its first column |
| `RuleSql.CompileNonrecursive` | `src/datalog/compiler/emit_union.rs:5-435` | For every rule, store and tables the compiled statement inserts exactly what another rule says: the first atom by cost keeps only the first occurrence of a variable, negated atoms lose their graphs and unbound variables; it inserts nothing when the FROM clause does not parse or the head has no column |
| `RuleSql.CompileVariant` | `src/datalog/compiler/sql.rs:474-688` | The same for the statement with one table replaced, where literals are compiled in the order in which they are written: negated atoms lose the variables not bound by then, and a test on such a variable is never true |
| `RuleSql.BodyMatch` | `src/datalog/compiler/helpers.rs:7-42` | A body that matches a tuple of facts does so with a valuation of exactly its variables, which agrees with every term of every atom |
| `CompiledRules.RunsAsWrittenExactlyWhen` | `src/datalog/compiler/emit_union.rs:5-435` | Both statements run the rule as it is written exactly when it is plain: a condition on its text and join order only |
| `CompiledRules.OnceIsRound` | `src/datalog/seminaive.rs:117-142` | For plain rules of which none mentions its own head, what the statements insert is one round of the rules |
| `RuleGaps.RepeatedVariableExactlyWhen` | `src/datalog/compiler/mod.rs:366-376` | ?x p ?x :- ?x e ?x makes a loop of every row of e; that is what the rule says exactly when each of these subjects has a loop in e |
| `RuleGaps.GraphVariableExactlyWhen` | `src/datalog/compiler/mod.rs:463-468` | A rule with a graph variable in its head that does not mention its own head inserts nothing, in its full query as in its variants; that is right exactly when the rule has nothing to say |
| `RuleGaps.GraphCopyIsLost` | `src/datalog/compiler/mod.rs:463-468` | Copying e to p within each graph copies nothing, although every row of e calls for it |
| `RuleGaps.UnboundNegationExactlyWhen` | `src/datalog/compiler/helpers.rs:44-61` | NOT ?z q ?z is compiled without a condition; the rule inserts what it says exactly when there is no e, no q, or a loop of q |
| `RuleGaps.NegatedGraphExactlyWhen` | `src/datalog/compiler/helpers.rs:44-61` | NOT GRAPH <g> { ?x q ?y } is compiled without the graph; the rule inserts what it says exactly when no row of e is stopped by another graph alone |
| `RuleGaps.EarlyNegationExactlyWhen` | `src/datalog/compiler/sql.rs:556-570` | A negated atom written before the atom that binds its variables stops a variant whenever q has any fact; that is what the rule says exactly when q is empty or every new row of e has its fact of q |
| `RuleGaps.NothingToJoinExactlyWhen` | `src/datalog/compiler/emit_union.rs:212-240` | A second atom without variable or constant makes the statement fail; that is right exactly when the rule has nothing to say |
| `Datalog.LevelsEnd` | `src/datalog/compiler/sql.rs:11-190` | The recursive query run for a rule that mentions its own head comes to an end: each step of it uses up a mark of the CYCLE clause, and after as many steps as there are facts no row is left |
| `Datalog.RecursiveQueryIsWalks` | `src/datalog/compiler/sql.rs:11-190` | That query inserts exactly the facts about the ends of walks that visit no subject twice, start in any other table of the body and continue on the left in the first of them (the own table when there is none); the variables of the rule and its other atoms play no part |
| `Subsumption.IsMultisetSubset` | `src/datalog/stratify.rs:744-757` | Counting down decides whether one list of predicates is part of another, as multisets |
| `Subsumption.CheckSubsumption` | `src/datalog/stratify.rs:570-646` | The texts reported are exactly those of rules for which some other rule has the same head predicate and a shorter list of body predicates that is part of theirs, or an equal one and comes first |
| `Subsumption.ActiveRules` | `src/datalog/seminaive.rs:91-103` | The rules that run are those whose text is not reported, in their order |
| `Subsumption.ActiveIsAllExactlyWhen` | `src/datalog/stratify.rs:570-646` | All rules run exactly when no two of them have the same head predicate and nested lists of body predicates |
| `Subsumption.ShapeIsSafeExactlyWhen` | `src/datalog/stratify.rs:559-570` | No weaker guard on head and body predicates would do: dropping rules keeps every meaning on every store, for all programs of given predicates, exactly when those predicates are not nested |
| `SemiNaive.Fixpoint` | `src/datalog/seminaive.rs:162-252` | The facts after a number of rounds from the seed; the loop stops after the first round that adds nothing, and gives up exactly when each of the first 9999 rounds adds something; unless it gives up it ends with the least set that contains the seed and is closed under the one-delta-atom variants of the rules |
| `SemiNaive.AllVariants` | `src/datalog/compiler/sql.rs:402-470` | One round is the union, over all active rules and all body atoms with a derived predicate, of the compiled variant with the derived table at that atom and the stored tables elsewhere |
| `SemiNaive.SeedTables` | `src/datalog/seminaive.rs:117-142` | The derived tables start with what every active rule inserts: its compiled query, or the recursive query for a rule that mentions its own head |
| `SemiNaive.RunInferenceSeminaive` | `src/datalog/seminaive.rs:24-279` | A call extends the store by the rounds from that seed and gives up exactly when each of 9999 rounds adds something, with at least that many facts; a call that does not give up extends the store by the least set over the seed closed under the variants of the active rules |
| `SemiNaive.DroppingIsHarmlessExactlyWhen` | `src/datalog/seminaive.rs:91-103` | The least model of the active rules is the meaning of all rules exactly when one round of all rules adds nothing to it, and so whenever no two rules are nested |
| `SemiNaive.PlainLinearCallsAreExact` | `src/datalog/seminaive.rs:24-279` | For plain rules that do not mention their own head, with negation of stored predicates only and at most one derived atom per body, one call gives the least model of the active rules; it is the meaning of all rules exactly when the dropped ones would add nothing, and so whenever no two rules are nested |
| `SemiNaive.RepeatedCallsReachTheMeaning` | `src/datalog/seminaive.rs:24-279` | Linear or not, once a further call adds nothing the calls together have reached that least model, with the same condition for the meaning of all rules: repeating a call does not bring a dropped rule back |
| `SemiNaive.FirstRoundIsFair` | `src/datalog/seminaive.rs:117-142` | The first round is a fair seed: it lies in every model |
| `SemiNaive.LoopIsSound` | `src/datalog/seminaive.rs:162-252` | From a fair seed, for plain rules, nothing is derived that is not in every model that extends the store |
| `SemiNaive.OneNewFactIsFound` | `src/datalog/compiler/sql.rs:446-470` | From a fair seed, for plain rules, every conclusion from at most one new fact is derived |
| `SemiNaive.LoopIsExactWhen` | `src/datalog/seminaive.rs:162-252` | From a fair seed, on any store, plain rules get their least model exactly when none draws a further conclusion from two facts that are both new |
| `SemiNaive.LinearRulesAreExact` | `src/datalog/seminaive.rs:162-252` | From a fair seed, plain rules with at most one derived atom per body get their least model |
| `FreshCalls.FreshCallComputes` | `src/datalog/seminaive.rs:24-279` | On a store without derived facts, for all rules, one call computes exactly the least model of other rules: the active ones as they run, without those with two derived atoms and without negated derived atoms, over the store with the rows of the recursive queries |
| `FreshCalls.FreshCallIsExactExactlyWhen` | `src/datalog/seminaive.rs:24-279` | So the call gives the meaning of the program exactly when that is also the least model of those rules, whatever subsumption, recursion, negation or compilation do |
| `FreshCalls.FreshSeedIsFairExactlyWhen` | `src/datalog/seminaive.rs:117-142` | On such a store the seed of plain rules is fair exactly when the rows of the recursive queries lie in every model |
| `FreshCalls.TwoDerivedNeverFires` | `src/datalog/seminaive.rs:162-252` | On a store without derived facts a rule with two derived atoms inserts nothing, in no round |
| `CallCases.ClosureExactlyWhen` | `src/datalog/stratify.rs:626-635` | p(x,y) :- e(x,y) and p(x,z) :- e(x,y), p(y,z): the second rule is dropped and the call only copies e, which is the closure exactly when e is transitive already |
| `CallCases.ChainIsLost` | `src/datalog/stratify.rs:626-635` | A chain of two edges: the path over both is not derived |
| `CallCases.BothWaysExactlyWhen` | `src/datalog/stratify.rs:637-643` | p(x,y) :- e(x,y) and p(y,x) :- e(x,y): the second rule is dropped, on any store, and the call is exact exactly when that rule would have added nothing |
| `CallCases.ListedTwiceDisappears` | `src/datalog/seminaive.rs:91-103` | A rule that is listed twice in the same words does not run at all |
| `RecursiveCalls.ClosureAloneExactlyWhen` | `src/datalog/compiler/sql.rs:11-190` | For the rule p(x,z) :- e(x,y), p(y,z) alone the store is its own meaning, but one call copies every e to p: it is exact exactly when there is no e at all |
| `RecursiveCalls.ReachExactlyWhen` | `src/datalog/compiler/sql.rs:11-190` | Together with p(x,y) :- b(x,y) both rules run; the seed is fair, and the call gives what b reaches backwards along e, exactly when every row of e is in the default graph and leads to its object over b |
| `RecursiveCalls.TransitivityIsLost` | `src/datalog/seminaive.rs:24-279` | Edges copied to paths and a rule that joins two paths, with the seed the code computes: one call derives the copies and nothing else |
| `RecursiveCalls.NegationIsAskedTooEarly` | `src/datalog/seminaive.rs:115-142` | Negation of a predicate derived in the same call is answered before it is derived, and a fact that no rule supports stays |
| `SinglePass.RunInference` | `src/datalog/seminaive.rs:427-507` | The simple engine runs the compiled query of every rule once in the given order, each on what the ones before it left, or the recursive query for rules that mention their own head |
| `SinglePass.OrderedPassIsModel` | `src/datalog/seminaive.rs:482-506` | If no rule reads what it or a later rule derives, one pass closes the store under the rules as they run, negation included |
| `SinglePass.OrderedPassIsExact` | `src/datalog/seminaive.rs:482-506` | and with negation of stored predicates only it gives their least model, which for plain rules is the meaning of the program |
| `SinglePass.ReversedPassMisses` | `src/datalog/seminaive.rs:482-506` | In the opposite order one pass misses the end of every chain of two copying rules |
| `Stratification.Search.Dfs1` | `src/datalog/stratify.rs:150-166` | The first search keeps: each finished node reaches a node under way, or has in its component the last to finish of all it reaches |
| `Stratification.FinishOrder` | `src/datalog/stratify.rs:146-172` | The finishing order lists every node once, and each node has such a leader |
| `Stratification.LastUnvisited` | `src/datalog/stratify.rs:191-201` | A node that reaches the last unvisited one, and is unvisited itself, is reached by it |
| `Stratification.Collector.Dfs2` | `src/datalog/stratify.rs:176-190` | The second search adds nodes that reach its start, and leaves no edge into the added ones from outside the visited |
| `Stratification.ComputeSccs` | `src/datalog/stratify.rs:133-202` | The lists found are exactly the strongly connected components, each once, and edges between them lead forward |
| `Stratification.BuildComponentGraph` | `src/datalog/stratify.rs:225-245` | Fails exactly when a negative edge stays inside a component, and otherwise gives the graph of the components |
| `Stratification.InDegrees` | `src/datalog/stratify.rs:266-271` | Counts for every component the components with an edge to it |
| `Stratification.Kahn` | `src/datalog/stratify.rs:266-294` | Every node is numbered after all its predecessors, and without cycles all nodes are numbered |
| `Stratification.TopoSortSccs` | `src/datalog/stratify.rs:208-311` | The numbering fails exactly when a negative edge lies on a cycle; otherwise numbers are equal exactly within components, never fall along an edge, and leave no gap |
| `Stratification.PredicateStrata` | `src/datalog/stratify.rs:473-477` | The same for the whole computation on a set of predicates and edges |
| `RuleOrder.BuildDependencyGraph` | `src/datalog/stratify.rs:66-110` | The edges are exactly those from heads to the predicates of their bodies, negative for negated atoms |
| `RuleOrder.StoreOrder` | `src/datalog/stratify.rs:500-511` | The buckets of rules read in order are the given rules, each as often as given, by rising stratum and in the given order within a stratum |
| `RuleOrder.StoreRules` | `src/datalog/mod.rs:360-425` | Rules are stored so, or just as given when a negative edge lies on a cycle |
| `RuleOrder.UsersRunFirst` | `src/datalog/stratify.rs:66-110` | Without a cycle between them, a rule that uses what another derives has the lower stratum and runs before it |
| `RuleOrder.StoredPassIsOneRound` | `src/datalog/seminaive.rs:427-507` | For rules without recursion one pass in the stored order adds what all of them insert on the store as it was, and nothing more: every rule runs before the rules it reads from |
| `RuleOrder.StoredPassIsExactExactlyWhen` | `src/datalog/seminaive.rs:427-507` | so for plain rules with negation of stored predicates only it gives the meaning of the program exactly when a second round would add nothing |
| `RuleOrder.StoredIsOrderedExactlyWhen` | `src/datalog/seminaive.rs:427-507` | The stored order is a dependency order exactly when no rule reads a derived predicate |
| `RuleOrder.StoredChainIsIncomplete` | `src/datalog/seminaive.rs:427-507` | However two chained copying rules are given, they are stored in the order in which one pass misses the second copy |
| `TripleStore.InsertAdds` | `src/storage/ops/mod.rs:191-223` | Inserting adds the quad to the view, whichever table it lands in |
| `TripleStore.DeleteHidesExactlyWhen` | `src/storage/ops/mod.rs:460-583` | A deletion takes a quad out of the view exactly when it is not present both in delta and, untombstoned, in main; it touches no other quad |
| `TripleStore.MergeKeepsView` | `src/storage/merge.rs:342-374` | Merging a predicate leaves the view as it is and resolves its doubled quads |
| `TripleStore.MergeSettles` | `src/storage/merge.rs:342-374` | After merging a predicate its visible dedicated rows are all in main and its other tables are empty; other predicates are left alone |
| `TripleStore.MainIsOnlyMerged` | `src/storage/ops/mod.rs:191-583` | Insertions and deletions leave main as it is; a deletion adds a tombstone only for a dedicated quad that is not in delta |
| `TripleStore.RunRefinesSetExactlyWhen` | `src/storage/ops/mod.rs:191-583` | Through a run of insertions, deletions and merges the tables act as one set exactly when no deletion meets a doubled quad |
| `TripleStore.DeletedQuadStaysVisible` | `src/storage/ops/mod.rs:475-492` | Insert, merge, insert again, delete: the quad is still visible |
| `TripleStore.Store.InsertEncodedTriple` | `src/storage/ops/mod.rs:191-223` | Adds the quad to the delta of a dedicated predicate or to the shared table |
| `TripleStore.Store.DeleteTriple` | `src/storage/ops/mod.rs:460-583` | Returns the number of tables, dedicated and shared, that had a row, also when that row was tombstoned already |
| `WhatIf.SnapshotAllTriples` | `src/hypothetical.rs:72-166` | The snapshot is the visible facts of the head predicates, for any split over tables |
| `WhatIf.Speculate` | `src/hypothetical.rs:307-315` | Applies all assertions and then all retractions, in order |
| `WhatIf.ClearAllForPredicates` | `src/hypothetical.rs:175-204` | Removes main, delta and rare rows of the head predicates and leaves tombstones |
| `WhatIf.HypotheticalInference` | `src/hypothetical.rs:218-348` | Fails exactly above the assertion limit and leaves the store as it was; a quad is answered as derived exactly when it has a head predicate, one pass of the stored rules over the other facts with the hypotheses applied gives it, it was not there and is not asserted; as retracted exactly when it was there and the pass does not give it |
| `WhatIf.DiffBalances` | `src/hypothetical.rs:331-347` | Before, less what is retracted, plus what is derived and what was asserted and came back, is after; nothing derived was there before or asserted |
| `WhatIf.AnswerSays` | `src/hypothetical.rs:331-347` | The same for any inference |
| `WhatIf.SpeculationIsFlat` | `src/hypothetical.rs:307-324` | Whatever tables hold the facts, inference starts from the non-head facts with the hypotheses applied, except for retractions that meet a doubled quad once |
| `WhatIf.DeleteAllHides` | `src/hypothetical.rs:313-315` | After a list of deletions a quad of the list is visible exactly when it was doubled and is listed once |
| `WhatIf.OnlyOtherFactsMatter` | `src/hypothetical.rs:307-324` | The facts after depend only on facts and hypotheses outside the head predicates |
| `WhatIf.NoHypothesesNoChangeExactlyWhen` | `src/hypothetical.rs:331-347` | Without hypotheses the answer is empty exactly when the head facts are what inference gives on the others |
| `WhatIf.HandWrittenHeadFactIsRetracted` | `src/hypothetical.rs:317-345` | A head fact that was entered and not inferred is reported as retracted although nothing is hypothesised |
| `WhatIf.PassInfersLeastModels` | `src/hypothetical.rs:317-324` | One pass over plain positive rules in dependency order gives the least superset closed under a round of them |
| `WhatIf.OneSidedHypotheses` | `src/hypothetical.rs:307-347` | For positive rules in any order, recursive or not, and a store saturated by one pass of them, assertions alone retract nothing and retractions alone derive nothing |
| `WhatIf.AssertingRetractsNothing` | `src/hypothetical.rs:331-347` | The first half, for any monotone inference |
| `WhatIf.RetractingDerivesNothing` | `src/hypothetical.rs:331-347` | The second half, for any monotone inference |
| `Percent.PercentEncode` | `src/r2rml.rs:102-125` | The loop over bytes gives a text that decodes to them, has only plain characters and escapes of two capital hexadecimal digits, and is the value itself exactly when that has plain characters only |
| `Percent.PercentRoundTrip` | `src/r2rml.rs:102-125` | Decoding an encoded value gives back its bytes and its characters |
| `Percent.DistinctValuesStayDistinct` | `src/r2rml.rs:102-125` | Different values have different encodings |
| `Percent.EncodedIsClean` | `src/r2rml.rs:105-121` | Encodings consist of unreserved characters, colon, slash, percent sign and hexadecimal digits |
| `Percent.ValueStaysExactlyWhen` | `src/r2rml.rs:105-121` | A value is its own encoding exactly when it has only letters, digits, hyphen, underscore, full stop, tilde, colon and slash; any other value gets longer |
| `Percent.Utf8RoundTrip` | `src/r2rml.rs:104-104` | The UTF-8 bytes of a value determine it |
| `Template.ApplyTemplate` | `src/r2rml.rs:93-100` | The loop computes the replacement of all columns in some order, and the simultaneous substitution when names are brace-free and placeholders not nested |
| `Template.OrderDoesNotMatter` | `src/r2rml.rs:93-100` | For brace-free names and placeholders that are not nested every order gives the simultaneous substitution |
| `Template.OrderFreeExactlyWhen` | `src/r2rml.rs:93-100` | Over all brace-free columns and all orders that holds for a template exactly when its placeholders are not nested |
| `Template.NestedBreaks` | `src/r2rml.rs:93-100` | For every nested template there are columns and an order that give something else |
| `Template.RenderOfPieces` | `src/r2rml.rs:93-100` | Cutting a template into pieces loses nothing |
| `NTriples.EscapeLiteral` | `src/r2rml.rs:127-140` | The loop computes the escaped text of a value |
| `NTriples.EscapeRoundTrip` | `src/r2rml.rs:127-140` | N-Triples unescaping gives the value back |
| `NTriples.EscapedHasNoBreak` | `src/r2rml.rs:127-140` | An escaped value has no line break and no tab |
| `NTriples.EscapeStaysExactlyWhen` | `src/r2rml.rs:127-140` | A value is its own escape exactly when it has no backslash, quote, line feed, carriage return or tab; any other value gets longer |
| `NTriples.ReadIri` | `src/lib.rs:159-184` | Reads up to the next closing bracket, and fails when it is missing or more than 4096 bytes away |
| `NTriples.ReadSuffix` | `src/lib.rs:204-226` | Reads the datatype or language tag that follows a literal |
| `NTriples.ReadToken` | `src/lib.rs:154-240` | One step of the tokenizer: what it reads and what remains to be read |
| `NTriples.ParseNtTriple` | `src/lib.rs:149-248` | The tokenizer returns the first three terms of the trimmed statement, or nothing |
| `R2rml.LineReadsBackExactlyWhen` | `src/lib.rs:149-248` | A printed line is read back as its three terms exactly when every IRI is free of the closing bracket and has at most 4096 bytes |
| `R2rml.ReadBack` | `src/r2rml.rs:243-280` | A printed term followed by a space or nothing is read as that term when readable, and never when not |
| `R2rml.TokenReadsBack` | `src/lib.rs:154-240` | An IRI, a blank node, or a literal with any datatype or language tag, followed by more, is read as it stands |
| `R2rml.StatementReadsBack` | `src/lib.rs:149-248` | and so are three of them printed as a statement |
| `R2rml.PrintedIsInjective` | `src/r2rml.rs:243-280` | The printed text of a term determines the term |
| `R2rml.PrintRow` | `src/r2rml.rs:235-284` | The row loop prints one line for each triple of the row, classes first |
| `R2rml.RowTriplesSay` | `src/r2rml.rs:235-284` | Those triples have one subject, the template, column or constant of the mapping; first one type triple for each class, then one triple for each pair, with its predicate and the value of its template, column or constant |
| `R2rml.RowReadsBack` | `src/r2rml.rs:235-284` | Cut at its line breaks, the printed row is read back triple by triple |
| `R2rml.SubstitutedIsClean` | `src/r2rml.rs:93-125` | Column values bring neither a closing bracket nor a line break into an IRI; only the text of the template can |
| `TemporalStore.FactTable.MarkTemporal` | `src/temporal.rs:294-351` | Registers a predicate, and fails exactly for one registered under the other model |
| `TemporalStore.FactTable.UnmarkTemporal` | `src/temporal.rs:358-383` | Removes a registration, and fails exactly when facts remain |
| `TemporalStore.FactTable.InsertTripleTemporal` | `src/temporal.rs:398-465` | Closes the open rows of the key under the snapshot model and appends the new row; fails exactly for an unregistered predicate |
| `TemporalStore.FactTable.RetractTripleTemporal` | `src/temporal.rs:701-746` | Closes all open rows of the key and returns their number; fails exactly for an unregistered predicate |
| `TemporalStore.InsertShows` | `src/temporal.rs:431-461` | At every moment and in every graph the view after an insertion is the view before, plus the triple where the moment lies in its interval, less, under the snapshot model, what the closed open rows of the key showed from the start on |
| `TemporalStore.RetractEnds` | `src/temporal.rs:701-746` | After a retraction no row of the key is open, and at every moment the view has lost exactly what the open rows of the key showed from then on |
| `TemporalStore.CountOpenCounts` | `src/temporal.rs:701-746` | The number returned is the number of rows of the key that were open |
| `TemporalStore.RegistryChanges` | `src/temporal.rs:294-383` | Registering and removing a predicate fail as said above, change its registration only, and leave all facts alone |
| `TemporalStore.RunsStayConsistent` | `src/temporal.rs:294-465` | In every run a predicate with facts is registered, and a snapshot predicate has at most one open row for each subject and graph |
| `TemporalStore.DataModelIsFixed` | `src/temporal.rs:310-382` | Once a predicate has facts, no run changes its data model or removes its registration |
| `TemporalStore.HistoryIsImmutable` | `src/temporal.rs:431-461` | Steps dated after a moment leave the bag of triples valid at that moment as it was, for both models |
| `TemporalStore.InsertKeepsOneAtATimeExactlyWhen` | `src/temporal.rs:431-461` | An open-ended insertion keeps at most one valid row at any moment exactly when the closed rows of the key end by its start |
| `TemporalStore.ChronologicalRunsAreSingleValued` | `src/temporal.rs:431-461` | In every chronological run with open-ended insertions a snapshot predicate has at most one value at any moment |
| `TemporalStore.OutOfOrderOverlaps` | `src/temporal.rs:431-461` | Three insertions out of order leave two values valid at once |
| `GraphDiff.DiffIsDelta` | `src/temporal_snapshots.rs:177-200` | The set query, read from the left over bags, is the tagged symmetric difference of the two views, each row once |
| `GraphDiff.DiffLeadsToLaterView` | `src/temporal_snapshots.rs:177-200` | Applied to the earlier view the difference gives the later one |
| `GraphDiff.DiffSwaps` | `src/temporal_snapshots.rs:177-200` | Exchanging the moments exchanges the tags |
| `GraphDiff.DiffsCompose` | `src/temporal_snapshots.rs:177-200` | Differences compose across a moment in the middle |
| `GraphDiff.CountValid` | `src/temporal_snapshots.rs:105-116` | Counts the facts of the graph valid at the moment |
| `GraphDiff.SnapshotCatalog.GraphAt` | `src/temporal_snapshots.rs:81-149` | Upserts the row of the snapshot; on a conflict the row keeps the graph it was first made for |
| `GraphDiff.SnapshotCatalog.Prune` | `src/temporal_snapshots.rs:236-246` | Removes exactly the expired rows, and nothing when retention is off |
| `GraphDiff.SnapshotsAreRepeatable` | `src/temporal_snapshots.rs:105-116` | Taken again after any later-dated commands a snapshot has the same facts and count |
| `GraphDiff.NamesCollideExactlyWhen` | `src/temporal_snapshots.rs:92-103` | Two graphs share a snapshot name exactly when they agree wherever either has a kept character other than the underscore |
| `MigrationGraph.ReadFiles` | `scripts/migration_graph.py:37-55` | Accepts exactly file lists in which every name parses, and no base or pair comes twice; an error names the first offending file and what is wrong with it |
| `MigrationGraph.Search.Visit` | `scripts/migration_graph.py:66-75` | The recursive search reports a cycle through the active nodes or finishes the node after all its successors |
| `MigrationGraph.FindCycle` | `scripts/migration_graph.py:66-79` | The search reports a cycle exactly when there is one, by a version on it |
| `MigrationGraph.ForwardHasNoCycle` | `scripts/migration_graph.py:80-82` | Edges that all lead forward have no cycle |
| `MigrationGraph.IsAmbiguous` | `scripts/migration_graph.py:84-88` | Reports exactly the graphs with two edges out of, or into, one version |
| `MigrationGraph.PathFrom` | `scripts/migration_graph.py:90-104` | Returns the edges of a walk to the target, and fails exactly when there is none; a gap is a version the walk reaches and no edge leaves |
| `MigrationGraph.Build` | `scripts/migration_graph.py:33-125` | Accepts exactly the sets with one base whose edges are the steps of one increasing chain from base to target, and gives each version the suffix of the chain from there; a refusal says what is wrong, and earlier reasons come first: the files, the number of bases, a cycle, a backward edge, a branch, a gap, a stray version |
| `MigrationGraph.StraightIsChain` | `scripts/migration_graph.py:80-113` | A forward graph without branches whose walk from the base meets every version is such a chain |
| `MigrationGraph.ChainIsStraight` | `scripts/migration_graph.py:80-113` | and such a chain is forward and without branches |
| `JsonText.DumpsIsInjective` | `scripts/compare_schema_fingerprints.py:18-18` | The serialization with sorted keys, escapes and separators as json.dumps writes them determines the document |
| `JsonText.ValueIsInjective` | `scripts/compare_schema_fingerprints.py:18-18` | Reduced decimals have the same value exactly when they are the same |
| `SchemaFingerprint.DumpsNormalizeIsCanonical` | `scripts/compare_schema_fingerprints.py:13-19` | With that serialization two documents normalize to the same value exactly when they differ by reordering lists, at any depth, only; normalizing twice is normalizing once |
| `SchemaFingerprint.NormalizeIsCanonical` | `scripts/compare_schema_fingerprints.py:13-19` | The same for any injective sort key |
| `SchemaFingerprint.NormalizeIsIdempotent` | `scripts/compare_schema_fingerprints.py:13-19` | For any injective sort key normalizing twice is normalizing once |
| `SchemaFingerprint.NumbersCompareByValue` | `scripts/compare_schema_fingerprints.py:40-43` | Booleans, integers and floating-point numbers are equal exactly when their values are |
| `SchemaFingerprint.Diff` | `scripts/compare_schema_fingerprints.py:27-43` | The reported paths are exactly those of the places where the two values differ; none is reported exactly when the values agree up to what equality inside lists does not see: true, 1 and 1.0 are alike there |
| `SchemaFingerprint.PythonEqualIsBlurred` | `scripts/compare_schema_fingerprints.py:39-42` | Equality of two lists is equality after that identification |
| `SchemaFingerprint.PlainListsNotConfused` | `scripts/compare_schema_fingerprints.py:39-42` | For documents without booleans and whole floating-point numbers in lists the identification changes nothing |
| `SchemaFingerprint.Compare` | `scripts/compare_schema_fingerprints.py:13-43` | The comparison reports exactly the paths at which the normal forms differ, and so none exactly when they agree up to that identification; so it is for all documents that agree up to reordering lists, and for documents without booleans and whole floating-point numbers in lists for no others |
| `SchemaFingerprint.DecidedExactlyWhen` | `scripts/compare_schema_fingerprints.py:13-43` | The comparison tells a document from every other that is not alike exactly when no other normal form differs from its own in the types of numbers in lists only |
| `SchemaFingerprint.TrueMatchesOneInLists` | `scripts/compare_schema_fingerprints.py:39-42` | The comparison does not tell a list with true from a list with 1 |
| `StringOrder.LessIsTotal` | `scripts/compare_schema_fingerprints.py:18-18` | Of two different strings one comes first |
| `BuildDate.CivilIsValidAndInverse` | `build.rs:57-76` | For every day the divisions give a valid date of 1970 or later, and its day number is the day |
| `BuildDate.CivilOfDayNumber` | `build.rs:57-76` | Every valid date from the epoch on is the date of its day number |
| `BuildDate.CivilSteps` | `build.rs:57-76` | Day 0 is 1970-01-01 and each day is followed by its Gregorian successor |
| `BuildDate.CivilCountsDays` | `build.rs:57-76` | The divisions give what counting days from the epoch gives |
| `BuildDate.TimestampReadsBack` | `build.rs:57-76` | The timestamp is the Gregorian date counted from the epoch and the time of day, every field in its place, the year in four digits up to 9999 and the others in two; hours are below 24, minutes and seconds below 60, and the epoch reads back from them |
| `BuildDate.TimestampsSort` | `build.rs:57-76` | Up to the year 9999 timestamps sort like epochs |
| `BuildDate.TimestampsStopSorting` | `build.rs:57-76` | One second later the order of the strings turns |

## Left out

- EncodeCache.SharedCache.Lookup: the hit, miss and eviction counters and the readiness flag are not modelled, and hashing is an arbitrary function of the term.
- DeltaBloom.SharedFilter.SetPredicateDeltaBit: the class keeps one boolean for each position where the code has sixteen 64-bit words; DeltaBloom.SetBitCases and DeltaBloom.ClearBitCases prove that masks in the words act as such booleans.
- LockOrder.NoDeadlock: fairness is not modelled, so that a backend that could move eventually does is not stated; other locks of the server are not part of the model.
- DictionaryCache.RunsStayCoherent: one database, a hash that identifies its term, and an upsert that waits for the concurrent transaction holding the same key; the decode cache and its capacity are not modelled.
- RuleLibrary.RunsStaySound: fetching, Turtle parsing and the network policy are replaced by a map from URLs to parsed libraries, given anew at every step.
- RuleSafety.AcceptedRulesAreDomainIndependent: has the extra hypothesis that operands of comparisons, assignments and string tests are bound; the counterexamples show that it is needed. Aggregates are excluded from it, and the parser, unused-variable warnings and schema warnings are not modelled.
- RuleSql.CompileNonrecursive: predicates are constants, and comparisons and built-ins are tests on the variables they mention; assignments, aggregates and temporal filters are not modelled, and a statement that fails is taken to insert nothing and to leave the rest of the call alone.
- SemiNaive.RunInferenceSeminaive: the rules are those left after constants have been replaced along owl:sameAs; confidence scores, provenance and indexes are not modelled, and of the settings the depth limit (off by default) and the graph scope are at their defaults.
- SinglePass.RunInference: rules with variable predicates, which are expanded at run time, and the counting of statements are not modelled.
- SemiNaive.LinearRulesAreExact: one direction only and with a fair seed; SemiNaive.LoopIsExactWhen and FreshCalls.FreshCallIsExactExactlyWhen give the exact conditions.
- SinglePass.OrderedPassIsExact: one direction only for plain rules; a pass out of order can still be complete, as RuleOrder.StoredPassIsExactExactlyWhen shows for the stored order.
- RuleOrder.StoredPassIsExactExactlyWhen: for programs without recursion; with recursion one pass also runs recursive queries, whose effect RecursiveCalls.ReachExactlyWhen shows for the semi-naive engine.
- Stratification.TopoSortSccs: the second cycle check over components is not run, since components never form a cycle; error texts, aggregate edges and the recursion flags are not modelled.
- TripleStore.Store.DeleteTriple: row counts of predicates, statement identifiers and the form of the view that skips tombstones when there are none are not modelled, and a merge is one step.
- WhatIf.HypotheticalInference: decoding, sorting and the JSON form of the answer are not modelled.
- Percent.PercentEncode: the mapping specification asks for encoding everything but unreserved characters; the code keeps colon and slash, and so does the model.
- NTriples.ParseNtTriple: whether a character is alphanumeric is a parameter, and white space is listed by code point.
- R2rml.PrintRow: reading the mapping and the table is not modelled; the loader that reads the text in production is another parser, which is not part of this model.
- TemporalStore.RunsStayConsistent: time zones, time as the database computes it, and the returned statement reference are not modelled.
- GraphDiff.SnapshotCatalog.GraphAt: the text of the timestamp and which characters are alphanumeric are parameters.
- MigrationGraph.Build: version parsing and the texts of errors are not modelled, nor is the order in which the search meets several cycles.
- JsonText.DumpsIsInjective: floating-point numbers are finite decimals written without an exponent; infinities, numbers that are not numbers, negative zero and unpaired surrogates are excluded.
- SchemaFingerprint.Compare: the list of allowed differences is not modelled, and the order of the reported paths is not stated.
- BuildDate.TimestampsSort: reading the clock and the environment is not modelled.
- Hash functions, signatures, noise, embeddings and similarity scores: cryptography and floating point.
- Background workers, DDL, settings and JSON assembly: wrappers around the server.
- Access control, credentials and address classification: finite tables and DDL.
- Allen relations, quota triggers, statistics and the rule-explanation cache: each follows from reading one branch.
