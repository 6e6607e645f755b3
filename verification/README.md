# Kubeling, modelled and proved

Kubeling reconciles Kubernetes Nodes with rules from a ConfigMap: it initializes Nodes, and keeps labels, annotations
and ExternalIP addresses at what the matching rules want, with one Node condition per rule domain and a detector that
slows it down when another writer keeps changing the values back. Each pass of a controller sends at most one update, so
what matters happens over runs of many passes, with stale caches, conflicts and lost answers in between.

The project has three layers.

- **Code.** Loops, maps and mutable objects of the source as methods and classes (`Matching`, `Values`, `Fingerprints`,
  `ExternalIPs`, `Conditions`, `Flaps`, `Writers`, `Initialization`, `Watcher`, `Controllers`). Each is proved against a
  specification function. Ranging over a Go map visits keys in any order here too.
- **Specification.** What a value merge, a condition change, a detector call and a whole pass (`Reconcile.Pass`) do, and the
  laws they obey (`Collisions` for fingerprints). `Promises` says what passes achieve in terms of nothing but the
  configuration's and the Node's own fields.
- **Protocol.** `Protocol` is a state machine over one Node: API server with resourceVersions, informer store, four
  controllers with queue, worker, flap detector and clock, configuration changes, and other writers. `Wakeup`,
  `Termination`, `Orbits`, `Divergence`, `Convergence`, `Liveness`, `Spacing`, `LostAnswers`, `Safety`,
  `Cycles`, `RuleEdits`, `FalseFlaps` and `History` prove statements about its runs.
  `Controllers.CodeIsStep` and the contracts of the `Reconcile` methods tie the code to it.

Parameters instead of code (`Kube.Lib`): `net.ParseIP`'s verdict, node selector terms, regular expressions, and the binary's
own field manager name. Decoding plus validation of the configuration is the parameter `parse` of the watcher.

Taken as given about Kubernetes: an update is stored only if it is based on the current resourceVersion, and bumps it only if
it changes something; every stored version is eventually offered to the informer, which may skip some; the work queue holds a
key once and never hands it to two workers. A condition's stamp may be any time up to the last clock reading, so rounding by
the API server is covered; where a stamp has to stand in for a lost record, it is at most a second old. Times are integers in
nanoseconds since Go's zero time, `Sub` saturates to 64 bits, and the cooldown's shift wraps to 64 bits.

## Where the code does less than its documentation says

- The flap cooldown is there to keep Kubeling out of a tight loop, but it protects confirmed values (condition True) only. If
  the other writer is faster than the confirmation, Kubeling answers every change at once: `Spacing.UnconfirmedFight` gives,
  for every n, a run with n such answers at one instant. `LostAnswers.CooledExactly` says which single write is safe from
  being followed by another one at once: exactly one whose answer arrives and which restored values that had held, so that the
  condition says True all along. `Spacing.ConfirmedCyclesAreSpaced` is what holds once values were confirmed in between.
- Confirmation is not enough either if the answer to the value write got lost: then the write is not put on record
  (`pkg/controller/metadata_controller.go:136-143`). If other values are on record, the next change by the other writer
  counts as a rule edit, which wipes the state and lets Kubeling write at once (`LostAnswers.OtherOnRecord`; where label rules
  would not be content with their own values, the run also replaces them by one rule that wants the same). If the condition
  said True all along, because the values had held and were restored right away, they count as having held ever since, and are
  restored right away again (`LostAnswers.TrueBefore`). These two are all: `LostAnswers.SpacedExactly`.
- A rule edit is to be no flap. The pass that sees it wipes the detector's record (`pkg/controller/flaps.go:66`) before its
  Pending write is known to be stored, or to have reached the cache. If the next pass reads a Node whose condition still says
  True, it finds nothing on record and counts the edit as a flap, unless the last confirmation is more than 128 s old:
  `RuleEdits.EditIsNoFlapExactly`. That happens if the write is refused or in conflict (`RuleEdits.RefusedEditIsFlap`), and
  also if it is stored but the key is taken again before the cache has it (`RuleEdits.StoredEditIsFlap`). With passes over
  up-to-date Nodes only, storing the Pending write is enough (`RuleEdits.FreshEditIsNoFlapExactly`,
  `Cycles.RuleEditIsNoFlap`). And an edit seen while the condition is not True resets nothing: new values wait for the
  cooldown that old ones earned (`RuleEdits.UnconfirmedEditKeepsStreak`).
- A flap is to be a change by another writer. Without other writers, a pass over the current Node counts none as long as
  values are on record and no answer to a stored value write was lost (`FalseFlaps.NoFlapAlone`). Each of these can fail: with
  nothing on record see above; a stale pass counts one after a restore (`FalseFlaps.StaleRestoreIsFlap`); and after a lost
  answer one is counted when the rules change back (`FalseFlaps.EditBackIsFlap`).
- Label rules that match on labels which label rules set can keep Kubeling writing forever, with no other writer involved
  (`Divergence.ChaseNeverSettles`). Which Nodes they do that to is settled by `Divergence.BoundedExactly`. Annotation and
  address rules cannot.
- `remaining` promises zero when no cooldown is left; because it reads the clock twice it is negative exactly when the cooldown
  ends between the two (`Flaps.RemainingExactly`, `Flaps.RemainingCanBeNegative`). Its caller only asks whether it is
  positive, which is right.
- Fingerprints identify desired values only up to collisions. Among maps whose keys have no "=", as Kubernetes requires, the
  ones with two or more entries all share their fingerprint with a map of one entry, and a map of one entry shares it exactly
  when its value reads like a value, a NUL and a further entry (`Collisions.SharedPlainlyExactly`); the same goes for sets of
  addresses (`Collisions.IPsSharedExactly`). Values and addresses without NUL are told apart from each other
  (`Fingerprints.FingerprintIdentifies`, `Fingerprints.IPFingerprintIdentifies`).

## Model

| member | source | states |
|---|---|---|
| Matching.PatternCache.CompilePattern | pkg/controller/match.go:53-68 | The cache never changes a verdict: the result is what compiling gives, known patterns stay, only patterns that compile are kept |
| Matching.PatternCache.Match | pkg/controller/match.go:16-51 | A Node satisfies a match exactly when every constraint that is set holds; terms or patterns that do not parse match nothing |
| Matching.MatchesPattern | pkg/controller/match.go:37-49 | A Match with only a pattern holds exactly of the providerIDs that the compiled pattern accepts, and of none if it does not compile |
| Matching.MatchesTerms | pkg/controller/match.go:25-36 | One with only terms holds exactly when they parse and select the Node |
| Matching.MatchesSelector | pkg/controller/match.go:20-24 | One with only a nodeSelector holds exactly when its pairs are among the Node's labels |
| Matching.MatchesEach | pkg/controller/match.go:16-19 | A Match holds exactly when each of its three constraints does by itself; one that is not set always does |
| Matching.PatternCache.MatchAll | pkg/controller/match.go:70-81 | The IDs of exactly the matching rules, sorted and without repetition, whatever order the map is visited in |
| Promises.MatchedExactly | pkg/controller/metadata_controller.go:56-84 | The rules that match a Node for labels, annotations and addresses are exactly the matching ones of the configuration's own section for each |
| Text.LeExactly | pkg/controller/match.go:70-81 | The order IDs are sorted in: a prefix first, otherwise the smaller character at the first difference |
| Values.ResolveValues | pkg/controller/metadata_controller.go:148-186 | The result is the specified resolution for any visiting order of rules' maps and of the collected keys |
| Values.ResolvedExactly | pkg/controller/metadata_controller.go:148-186 | A key has value v in the result exactly when some matched rule asks for v and every rule setting the key asks for v |
| Values.ResolvedIgnoresOrder | pkg/controller/metadata_controller.go:148-186 | Any permutation of the matched rules resolves to the same values |
| Values.ConflictsPersist | pkg/controller/metadata_controller.go:175-182 | A key in conflict among some rules is in conflict, and left out, among any more rules |
| Values.ApplyOverwrite | pkg/controller/metadata_controller.go:188-212 | Desired values overwrite, others stay; changed is reported exactly when the result differs, exactly when some desired value was not there |
| Values.MetadataDrift | pkg/controller/drift.go:57-73 | The missing and the changed keys, each sorted, whatever order the map is visited in |
| Values.DriftAgreesWithWrite | pkg/controller/drift.go:57-73 | The report is empty exactly when the write would change nothing, and the write differs from the Node exactly at the reported keys |
| Values.DriftIsSorted | pkg/controller/drift.go:70-71 | Both lists are sorted and no key is named twice, within or across them |
| Fingerprints.ComputeFingerprint | pkg/controller/drift.go:47-55 | Every visiting order of the map yields the same string |
| Fingerprints.FingerprintOfTwo | pkg/controller/drift.go:47-55 | Two sorted "key=value" entries with a NUL between them, and an address as "ip=true" |
| Fingerprints.FingerprintIdentifies | pkg/controller/drift.go:47-55 | Maps whose keys have no "=" and whose values have no NUL are told apart from each other |
| Fingerprints.KeyCollides | pkg/controller/drift.go:51 | A key containing "=" can be split there: the map of one entry with the rest moved to the value has the same fingerprint |
| Fingerprints.ValueCollides | pkg/controller/drift.go:51-54 | A value in which a NUL is followed by another key, "=" and a value collides with the map of two keys, if the two entries come in that order |
| Fingerprints.EmptyFingerprint | pkg/controller/drift.go:47-55 | Only the empty map has the empty fingerprint, which the detector reads as nothing applied |
| Fingerprints.ComputeIPFingerprint | pkg/controller/externalip_controller.go:106-114 | The fingerprint of the set of addresses |
| Fingerprints.IPFingerprintIdentifies | pkg/controller/externalip_controller.go:106-114 | Independent of order and repetition; sets of addresses without NUL are told apart from each other |
| Fingerprints.IPFingerprintCollides | pkg/controller/externalip_controller.go:106-114 | An address of the form a, "=true", NUL, b collides with the set of a and b, if their entries come in that order |
| Collisions.SharedExactly | pkg/controller/drift.go:47-55 | Among all maps, another one has the same fingerprint if and only if there are two or more entries, or an "=" in a key or value |
| Collisions.SharedPlainlyExactly | pkg/controller/drift.go:47-55 | Among maps whose keys have no "=", another one has the same fingerprint if and only if there are two or more entries, or the only value reads like a value, a NUL and an entry of another key, not before this one |
| Collisions.IPsSharedExactly | pkg/controller/externalip_controller.go:106-114 | Another set of addresses has the same fingerprint if and only if there are two or more addresses, or the only one reads like two different ones, in order |
| ExternalIPs.MergeExternalIPs | pkg/controller/externalip_controller.go:116-166 | The result is the other addresses in order, then first occurrences of present and rule addresses, IPv6 first; changed exactly when it differs from the input |
| ExternalIPs.FamilySort | pkg/controller/externalip_controller.go:151-154 | A stable sort with the source's comparison is the stable partition into IPv6 and the rest |
| ExternalIPs.MergeIncremental | pkg/controller/externalip_controller.go:116-166 | Merging two lists one after the other is merging their concatenation, as sequences, empty lists included |
| ExternalIPs.MergeIdempotent | pkg/controller/externalip_controller.go:116-166 | Merging the same list again changes nothing |
| ExternalIPs.MergeAddsOnly | pkg/controller/externalip_controller.go:116-166 | The result holds exactly the previous entries and the rules' addresses as ExternalIP entries |
| ExternalIPs.MergedOrder | pkg/controller/externalip_controller.go:151-165 | In the merged list other addresses come before ExternalIPs, and IPv6 ones before the rest |
| ExternalIPs.NothingWanted | pkg/controller/externalip_controller.go:116-130 | Without wanted addresses the list stays as it is |
| ExternalIPs.UnchangedMeansPresent | pkg/controller/drift.go:75-85 | An unchanged merge has nothing missing; a changed one with nothing missing keeps the set of entries |
| ExternalIPs.ExternalIPDrift | pkg/controller/drift.go:75-85 | The rule addresses the Node lacks, each once, in rule order |
| ExternalIPs.MissingExactly | pkg/controller/drift.go:75-85 | An address is reported missing exactly if it is wanted and not there as an ExternalIP, and once |
| ExternalIPs.AddressesEqual | pkg/controller/externalip_controller.go:187-197 | Elementwise comparison decides equality |
| Sorting.FreshKeepsOrder | pkg/controller/externalip_controller.go:131-149 | Deduplication keeps first occurrences, in their order |
| Conditions.NodeCopy.SetCondition | pkg/controller/conditions.go:74-93 | In place: replaces the first condition of the type or appends, keeping the transition time if the status is the same |
| Conditions.NodeCopy.RemoveCondition | pkg/controller/conditions.go:95-103 | In place: removes the first condition of the type |
| Conditions.FindCondition | pkg/controller/conditions.go:109-117 | The first condition of the type, or none |
| Conditions.FindIsFirst | pkg/controller/conditions.go:105-117 | Of several conditions of a type the first one counts |
| Conditions.ConditionUpToDate | pkg/controller/conditions.go:61-72 | Compares status, reason and message of the first condition of the type |
| Conditions.ConditionHistory | pkg/controller/conditions.go:74-103 | After any sequence of sets and removals: at most one entry per type, the status of the last one, heartbeat of the last write, transition time of the last write that changed the status |
| Conditions.HistoryKeepsOthers | pkg/controller/conditions.go:74-103 | Whatever types the operations of a history name, conditions of all other types stay as they are, in order |
| Conditions.SetEffect | pkg/controller/conditions.go:74-93 | Effect of one write on every type's first entry and count, and on the rest of the list |
| Writers.RecentWriters | pkg/controller/drift.go:87-113 | The loop computes the specified listing |
| Writers.HasFieldPath | pkg/controller/drift.go:122-131 | Walks nested objects along the path |
| Writers.RoundsDown | pkg/controller/drift.go:91-94 | The time since which writers count is the whole second it lies in |
| Writers.OwnsUnder | pkg/controller/drift.go:122-131 | A path of two leads through an object to an object |
| Writers.RecentExactly | pkg/controller/drift.go:87-113 | A manager is listed exactly when it has a qualifying entry, and once |
| Writers.RecentByNewest | pkg/controller/drift.go:95-98 | Whoever is listed earlier has a qualifying entry at least as new as all of whoever is listed later |
| Flaps.FlapDetector.Applied | pkg/controller/flaps.go:46-52 | Records time and fingerprint for this Node only |
| Flaps.FlapDetector.RulesChangedFor | pkg/controller/flaps.go:54-68 | True exactly when other values are on record; then wipes this Node's state |
| Flaps.FlapDetector.Drifted | pkg/controller/flaps.go:70-103 | Remaining cooldown, reset after a long hold, or the next flap; one clock reading, this Node's state only |
| Flaps.FlapDetector.RemainingFor | pkg/controller/flaps.go:105-113 | What is left of the cooldown, at two clock readings in order |
| Flaps.FlapDetector.Forget | pkg/controller/flaps.go:115-121 | Drops this Node's state only |
| Flaps.DriftedExactly | pkg/controller/flaps.go:77-103 | During a cooldown what is left and no change; after more than 128 s zero and no flaps; otherwise one flap more and the next cooldown from now |
| Flaps.Cooldowns | pkg/controller/flaps.go:8-18 | 0.5 s, 1 s, 2 s, 4 s, 8 s, 16 s, 32 s, and 64 s from the eighth flap on |
| Flaps.CooldownIsMin | pkg/controller/flaps.go:95-100 | The bounded shift never overflows and equals min(500 ms * 2^(k-1), 64 s) for every flap count k |
| Flaps.CooldownGrows | pkg/controller/flaps.go:95-100 | Cooldowns never shrink as a streak goes on |
| Flaps.RemainingExactly | pkg/controller/flaps.go:105-113 | The result is positive exactly when the later clock reading is before the end of the cooldown, and negative exactly when the end lies between the two readings |
| Flaps.RemainingCanBeNegative | pkg/controller/flaps.go:105-113 | For any state, one nanosecond before the end and one after give minus one |
| Flaps.HeldExactly | pkg/controller/flaps.go:83-90 | Values have held exactly when both the last write and the last confirmation are more than 128 s ago |
| Flaps.StreakChanges | pkg/controller/flaps.go:77-103 | Fresh drifts add one flap; long holds, rule changes and forgets reset; nothing else touches count or cooldown |
| Flaps.BackoffBound | pkg/controller/flaps.go:77-103 | Between any two flaps of a streak, in any call history without a reset, at least the sum of the cooldowns in between passes |
| Flaps.CooldownSumClosed | pkg/controller/flaps.go:8-18 | The sum in closed form: 63.5 s for seven flaps, 64 s for each further one |
| Flaps.StreakRate | pkg/controller/flaps.go:77-103 | A streak of n flaps, n at least 8, takes at least 63.5 s + 64 s * (n-8) |
| Flaps.UntilBounded | pkg/controller/flaps.go:95-102 | Under any call history no cooldown ends later than 64 s after the last clock reading |
| Flaps.RulesChangedExactly | pkg/controller/flaps.go:54-68 | After any history that put a map on record, it is true exactly when that map is not empty and the desired map differs from it; for keys without "=" and values without NUL |
| Flaps.IPRulesChangedExactly | pkg/controller/flaps.go:54-68 | The same for sets of addresses without NUL |
| Flaps.RulesChangedOnce | pkg/controller/flaps.go:54-68 | Once true, it stays false until values are applied again |
| Initialization.ResolveProviderIDScheme | pkg/controller/initialization_controller.go:96-115 | The one scheme the matched rules ask for, "" if none does, failure exactly when two differ |
| Initialization.RemoveTaint | pkg/controller/initialization_controller.go:126-135 | Drops every entry with the key, keeps the others in order |
| Initialization.InitSafety | pkg/controller/initialization_controller.go:57-94 | Only matched, agreeing Nodes are written; a set providerID stays, and a new one is the agreed scheme, "://" and the name; the taint never goes while an agreed providerID stays unset; nothing else changes |
| Initialization.StampsScheme | pkg/controller/initialization_controller.go:64-83 | A Node without providerID for which the matching rules ask for one scheme is written: the scheme, "://" and its own name at their places, and no taint |
| Initialization.StampsNothingElse | pkg/controller/initialization_controller.go:57-83 | If it has one or none is asked for, it is written exactly when it is tainted and some rule matches, and keeps what providerID it has |
| Initialization.DisagreementLeavesAlone | pkg/controller/initialization_controller.go:64-71 | Two matching rules with different schemes: nothing is written |
| Initialization.ProviderIDIsUnique | pkg/controller/initialization_controller.go:72 | Scheme and name can be read back from a providerID, for schemes without ":" |
| Initialization.InitSettles | pkg/controller/initialization_controller.go:57-94 | After one write nothing is left to do, although the stamped providerID can change which rules match |
| Reconcile.SilentExactly | pkg/controller/drift.go:151-186 | A pass over an up-to-date Node sends nothing exactly when the domain has converged, or when values are missing, the condition is not True and the cooldown still runs; it neither sends nor schedules exactly when converged |
| Reconcile.WriteDiffers | pkg/controller/conditions.go:123-155 | Every update sent differs from the snapshot it is based on, so it bumps the version |
| Reconcile.Truthful | pkg/controller/metadata_controller.go:112-133 | A condition write leaves True exactly when all resolved values are there, False otherwise, and clears only what no rule matches |
| Reconcile.CooldownRespected | pkg/controller/drift.go:158-185 | Whichever path allows it, values are only written once the later clock reading has reached the end of the cooldown |
| Reconcile.WritesOwnPart | pkg/controller/metadata_controller.go:135-143 | A write changes either the domain's values or its condition, removes no key and no address, and changes values only to what the matching rules agree on |
| Promises.LabelsConverged | pkg/controller/metadata_controller.go:102-118 | Exactly if the Node has every label the matching rules agree on and its condition Labeled says True, Applied and the IDs of just these rules; or none matches and there is no such condition |
| Promises.AnnotationsConverged | pkg/controller/metadata_controller.go:102-118 | The same for annotations, with the condition Annotated |
| Promises.AddressesConverged | pkg/controller/externalip_controller.go:56-78 | Then the Node carries every address of every matching rule as an ExternalIP, and its condition ExternalIPsApplied says so |
| Promises.DesiredIPsExactly | pkg/controller/externalip_controller.go:73-76 | The wanted addresses are those of all matching rules, and no others |
| Promises.RuleIPsConcat | pkg/controller/externalip_controller.go:73-76 | The addresses of a list of rules are those of its parts, one after the other |
| Promises.RuleIPsOne | pkg/controller/externalip_controller.go:73-76 | And those of one rule are its own list |
| Promises.LabelsWritten | pkg/controller/metadata_controller.go:135-139 | A value write sets exactly what the matching label rules agree on, and leaves all other labels and everything else |
| Promises.AnnotationsWritten | pkg/controller/metadata_controller.go:135-139 | The same for annotations |
| Promises.AddressesWritten | pkg/controller/externalip_controller.go:93-97 | A value write keeps all addresses and adds exactly those of the matching rules, as ExternalIPs |
| Promises.PassReadsOwnRules | pkg/controller/metadata_controller.go:56-84 | Two configurations with the same rules for labels, annotations or addresses have the same pass for it |
| Promises.NotTrueGoesOn | pkg/controller/drift.go:175-185 | Values missing and no cooldown: without a condition it becomes Pending, naming the matching rules; with one that is not True, Unknown included, the values are written |
| Promises.ForgetsUnmatched | pkg/controller/metadata_controller.go:95-110 | Of a Node that is gone or that no rule matches nothing is remembered |
| Promises.WishesTold | pkg/controller/drift.go:47-55 | The fingerprint handed to the detector differs exactly if what the matching rules agree on differs; for keys without "=", values and addresses without NUL |
| Promises.LabelsReported | pkg/controller/drift.go:57-73 | A flap's report names exactly the agreed keys the Node lacks, and those that have another value |
| Promises.AnnotationsReported | pkg/controller/drift.go:57-73 | The same for annotations |
| Promises.AddressesReported | pkg/controller/drift.go:75-85 | A flap's report names exactly the addresses of matching rules the Node lacks |
| Promises.WritersExactly | pkg/controller/drift.go:87-113 | It names exactly the managers other than this binary that own the domain's field, through its subresource, by a write not before the second the values were last applied in |
| Controllers.NodeQueue.BeforeApplyOn | pkg/controller/drift.go:133-186 | The code has the specified outcome: detector calls, condition write, requeue and verdict, with its clock readings in order |
| Controllers.MetadataController.Reconcile | pkg/controller/metadata_controller.go:94-146 | For labels and annotations, the code does exactly one pass: same write, same detector state, same requeue, conflicts swallowed, other errors returned |
| Controllers.ExternalIPController.Reconcile | pkg/controller/externalip_controller.go:48-104 | The same for addresses |
| Controllers.InitializationController.Reconcile | pkg/controller/initialization_controller.go:48-94 | The code sends exactly the specified initialization update, or nothing |
| Controllers.EnsureConditionOn | pkg/controller/conditions.go:119-137 | Sends the stamped condition unless up to date; only errors other than conflicts are returned |
| Controllers.EnsureConditionAbsentOn | pkg/controller/conditions.go:139-155 | Sends the removal if there is something to remove; conflicts are swallowed |
| Controllers.NodeQueue.Enqueue | pkg/controller/controller.go:71-78 | Add and update events queue the key; a queued key is not queued twice |
| Controllers.NodeQueue.EnqueueEverything | pkg/controller/controller.go:89-100 | Queues every known Node besides what is queued already |
| Controllers.NodeQueue.Get | pkg/controller/controller.go:127-132 | Hands out a queued key no other worker holds |
| Controllers.NodeQueue.Done | pkg/controller/controller.go:134-141 | An error puts the key up for a retry; keys queued meanwhile stay queued |
| Controllers.NodeQueue.ForgetNode | pkg/controller/controller.go:80-87 | A deletion drops the Node's flap state and nothing else |
| Controllers.CodeIsStep | pkg/controller/controller.go:127-142 | From a code state that mirrors a protocol state (stored Node or its absence, detector entry, pending delayed add), a reconcile call leads to one that mirrors a Finish step for one of the three answers; errors and only errors are retried, other objects stay |
| Watcher.ConfigWatcher.Load | pkg/config/watcher.go:91-116 | Stores and then notifies on a valid document or a missing key, ignores anything rejected; the current configuration is that of the last event not rejected |
| Watcher.ConfigWatcher.Clear | pkg/config/watcher.go:132-137 | Stores the empty configuration before it notifies |
| Watcher.DocumentStays | pkg/config/watcher.go:104-116 | After a valid document its parsed configuration is current as long as only rejected events follow |
| Watcher.EmptyStays | pkg/config/watcher.go:97-102 | After a deletion, an object without the key, or from the start, all four sections are empty as long as only rejected events follow |
| Watcher.LastNotificationIsCurrent | pkg/config/watcher.go:91-137 | After any events, the configuration last announced is the current one |
| Wakeup.NoLostWakeup | pkg/controller/controller.go:59-142 | In every reachable state a controller with something left to do for the current Node and configuration is at work, queued, delayed, up for retry, or has an event or change on its way |
| Wakeup.AtRestMeansConverged | pkg/controller/controller.go:59-142 | When nothing is pending any more, all four controllers have converged under the current configuration |
| Wakeup.PassDoesSomething | pkg/controller/drift.go:151-186 | A pass of any controller over the current Node is silent exactly if settled, and its update differs otherwise |
| Termination.BoundedWrites | pkg/controller/metadata_controller.go:94-99 | Once no pass over the current Node uses an older configuration, without other writers and configuration changes: any interleaving with any staleness, conflicts, lost answers and clocks adds at most Measure versions, if the labels of the Node settle (applying the label rules again and again comes to an end, whenever the Node is initialized) |
| Termination.WriteDrops | pkg/controller/metadata_controller.go:94-99 | Every write any controller can make to the current Node lowers the measure, and its labels still settle |
| Termination.OneStaleWrite | pkg/controller/metadata_controller.go:94-99 | After a configuration change at most one write is still computed from an older configuration and stored; then the bounds above apply |
| Termination.SelfIndependentSettles | pkg/controller/match.go:16-51 | If no label rule matches on what label rules set, the labels of any Node settle: after one round, two if its providerID is still to be stamped |
| Termination.SelfIndependentBound | pkg/controller/metadata_controller.go:94-99 | Then a Node with at most one condition per type gets at most 49 more writes |
| Termination.AppliedOnce | pkg/controller/externalip_controller.go:64-104 | Annotations and addresses are in place after one write, because their rules do not match on them |
| Divergence.BoundedExactly | pkg/controller/metadata_controller.go:94-146 | For any Node, initialized or not, no pass over it being under way with an older configuration: the number of writes is bounded if and only if its labels settle, and if and only if they settle within EnoughRounds |
| Divergence.BoundedInGeneral | pkg/controller/metadata_controller.go:94-146 | With passes under any configurations under way: the number of writes is bounded if and only if the labels of every Node that one stored write can leave settle |
| Divergence.SettlingIsEnough | pkg/controller/metadata_controller.go:94-146 | If no pass over the current Node uses an older configuration, the labels of all Nodes that one stored write can leave settle if and only if those of the current Node do |
| Orbits.SettlesSoon | pkg/controller/metadata_controller.go:153-186 | Labels that settle at all settle within a number of rounds computed from the keys and values of the label rules |
| Divergence.AnyNumberOfWrites | pkg/controller/metadata_controller.go:94-146 | Otherwise every number of accepted writes occurs in some run of the controllers alone |
| Divergence.ChaseNeverSettles | pkg/config/types.go:35-42 | Two label rules that turn a label back and forth: a Node whose label has either value never settles |
| Divergence.ChaseSparesOthers | pkg/config/types.go:35-42 | Under the same two rules every Node whose label has neither value is settled from the start, so the condition is one on the Node |
| Convergence.CanConverge | pkg/controller/metadata_controller.go:94-99 | From every state with a Node whose labels settle, whatever workers, caches, cooldowns and older configurations are in play, the controllers alone can reach one in which none has anything left to do |
| Liveness.FairRunsConverge | pkg/controller/controller.go:59-142 | In every infinite run of the controllers alone from a reachable state where the labels of every Node that one stored write can leave settle, all four controllers have nothing left to do from some point on for good; provided that the informer catches up, what is pending happens, time passes, and the network does not fail for ever |
| Spacing.ConfirmedCyclesAreSpaced | pkg/controller/drift.go:158-185 | Two stored value writes with a True condition between them are at least 500 ms apart, more than 128 s if the second restores right away; while every pass wants the same values, the Node is neither forgotten nor deleted, and nobody else sets the condition. If the answer to the first is lost, this takes that nothing else is on record, that the condition was not True before, and that conditions are stamped within a second (then 127 s) |
| LostAnswers.SpacedExactly | pkg/controller/metadata_controller.go:135-143 | Confirmed cycles from a stored value write on are all spaced by 500 ms if and only if its answer arrives, or nothing but the same values is on record and the condition was not True before |
| LostAnswers.OtherOnRecord | pkg/controller/drift.go:153-157 | With other values on record and the answer lost there is a confirmed cycle that writes again at the very same time: confirmed, undone, taken for a rule edit; under the same configuration, unless label rules are not content with their own values: then a single rule that wants the same takes their place |
| LostAnswers.TrueBefore | pkg/controller/drift.go:161-167 | With the condition True before and the answer lost there is one too: undone, and restored right away once more |
| LostAnswers.CooledExactly | pkg/controller/drift.go:158-185 | Under the same hypotheses no further value write can follow a stored one within 500 ms, confirmed in between or not, if and only if its answer arrives and the condition said True before it |
| Spacing.NoWriteWhileCooling | pkg/controller/drift.go:151-186 | In no state, from no snapshot, are values sent during a running cooldown |
| Spacing.DelayBounded | pkg/controller/drift.go:168-178 | In every run a pass schedules itself for a positive time of at most 64 s |
| Spacing.UnconfirmedFight | pkg/controller/drift.go:175-185 | For every n there is a run with n value writes at one instant, each undone before it was confirmed |
| Safety.NoLostUpdates | pkg/controller/metadata_controller.go:135-143 | A stored update was computed from the very Node it replaces, differs from it only in the writer's own part, removes no key and no address, and changes values, providerID and taints only to what the rules matching that Node agree on |
| Safety.NothingRemoved | pkg/controller/externalip_controller.go:20-28 | Over any run without other writers, under any configuration changes: no key and no address disappears, a set providerID stays, no taint comes back |
| Safety.TruthfulOnServer | pkg/controller/metadata_controller.go:112-133 | Right after a stored condition write the server's Node carries a condition that is true of that Node |
| Cycles.RuleEditIsNoFlap | pkg/controller/drift.go:153-157 | If each pass reads the Node its predecessor wrote, a rule edit leads to three passes, Pending naming the matching rules, values, Applied, with no wait, no flap counted, and nothing left to do; for labels if the rules are content with this Node once applied |
| RuleEdits.EditIsNoFlapExactly | pkg/controller/flaps.go:54-68 | After a pass that sees a rule edit, over any snapshot and whatever happens to its update and in between, the next pass, over any snapshot that lacks values, counts no flap if and only if the Node it reads does not say True, or said so more than 128 s ago; otherwise one flap and a cooldown of 0.5 s |
| RuleEdits.FreshEditIsNoFlapExactly | pkg/controller/flaps.go:54-68 | If no stale pass comes in between, the next pass reads the current Node and nobody else touched its condition: no flap if and only if the Pending write was stored, or the condition did not say True, or said so more than 128 s ago |
| RuleEdits.RefusedEditIsFlap | pkg/controller/drift.go:153-167 | From any such state with a recent confirmation, a refused Pending write alone makes the edit count as a flap |
| RuleEdits.StoredEditIsFlap | pkg/controller/metadata_controller.go:94-97 | From the same states, with the Pending write stored and answered: a second pass before the cache has it makes the edit count as a flap |
| RuleEdits.UnconfirmedEditKeepsStreak | pkg/controller/drift.go:175-185 | While the condition does not say True no rule edit touches streak or cooldown, and nothing is written before that is over |
| Cycles.FlapCycle | pkg/controller/drift.go:158-185 | A flap is reported with rules, writers, keys and cooldown, passes during the cooldown only reschedule for what is left, then values and confirmation follow, and the flap stays counted; for labels under the same condition |
| Cycles.OftenContent | pkg/controller/match.go:16-51 | That condition holds of all annotation and address rules, and of label rules that do not match on what label rules set |
| Cycles.HeldIsRestored | pkg/controller/drift.go:161-167 | Values that held are restored by the first pass, the condition stays True, the streak starts over |
| FalseFlaps.NoFlapAlone | pkg/controller/flaps.go:77-103 | Starting with an empty detector, without other writers, under any configuration changes with values that fingerprints tell apart, any stale passes and conflicts, but no lost answers: a pass over the current Node counts no flap while anything is on record |
| FalseFlaps.StaleRestoreIsFlap | pkg/controller/drift.go:158-167 | After values that held were restored, with the write stored and answered, a second pass before the cache has it counts a flap although nobody else wrote |
| FalseFlaps.EditBackIsFlap | pkg/controller/metadata_controller.go:135-143 | After a lost answer, values confirmed since and rules changed back to what is on record, a pass over the current Node counts a flap although nobody else wrote |
| History.RunReplays | pkg/controller/flaps.go:46-121 | Along every run the detector is in the state its calls put it in |
| History.BackoffInRuns | pkg/controller/flaps.go:77-103 | In any run without a reset the flaps are all counted and keep the sums of their cooldowns apart |

## Left out

- Termination.BoundedWrites: the number holds once no pass over the current Node uses an older configuration; before that one more write can be stored (OneStaleWrite), and whether a bound exists is BoundedInGeneral.
- Message wording: a condition message is the data it carries (rule IDs, writers, keys, cooldown), so two different lists of IDs that would print alike are told apart.
- The flap count's 64-bit width: by StreakRate it cannot be reached.
- Work queue and informer internals: rate limits, timers, resync periods and shutdown are steps that may happen at any time; that pending things eventually happen is a hypothesis of FairRunsConverge.
- A reconcile call as one step: its snapshot and configuration are read in earlier steps, but its detector calls, its write and the record of the write form one step, with separate clock readings.
- Lister errors other than not found: a store lookup has no others.
- Restarts and leader election: detectors start empty once.
- Other subresource rules of the API server: an accepted update is based on the current version, so filtering fields by subresource changes nothing.
- Validation of rules, the providerID scheme's URI syntax (section 3.1 of RFC 3986), parsing of references, log lines, flags, charts and manifests: no invariants of their own.
- Go's sort implementations: Text.Sort and Sorting.StableSort stand for what the library leaves behind.
