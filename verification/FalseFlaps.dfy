/** Flaps counted although nobody else writes the Node: what rules them out, and how they come about. */
module FalseFlaps {
  import opened Text
  import opened Kube
  import opened Values
  import opened Fingerprints
  import opened ExternalIPs
  import opened Conditions
  import opened Flaps
  import opened Reconcile
  import opened Protocol
  import opened Scheduling
  import Spacing
  import LostAnswers
  import RuleEdits
  import Safety
  import Sorting

  // ---- What is on record is in place

  ghost predicate NulFree(ips: seq<string>) {
    forall ip :: ip in ips ==> NUL !in ip
  }

  /** Values that fingerprints tell apart. */
  ghost predicate CleanWish(lib: Lib, cfg: Config, d: Domain, node: Node) {
    if d == Addresses then NulFree(DesiredIPs(lib, cfg, node)) else Clean(Desired(lib, cfg, d, node))
  }

  ghost predicate PairsKept(values: Pairs, record: string) {
    forall desired :: Clean(desired) && Fingerprint(desired) == record ==> Holds(values, desired)
  }

  ghost predicate AddressesKept(lib: Lib, addresses: seq<Address>, record: string) {
    forall ips :: NulFree(ips) && IPFingerprint(ips) == record ==> Merged(lib, addresses, ips) == addresses
  }

  /** Whatever values have the fingerprint on record, node has them. */
  ghost predicate Kept(lib: Lib, d: Domain, node: Node, record: string) {
    record != "" ==>
      if d == Addresses then AddressesKept(lib, node.addresses, record) else PairsKept(GetValues(d, node), record)
  }

  ghost predicate RecordKept(lib: Lib, s: Sys, d: Domain)
    requires Complete(s)
  {
    Current(s).Some? && Kept(lib, d, Current(s).value, StateOf(s.ctls[Rule(d)].known).desired)
  }

  lemma SameSetMerges(lib: Lib, a: seq<Address>, ips: seq<string>, again: seq<string>)
    requires forall ip :: ip in again <==> ip in ips
    ensures Merged(lib, Merged(lib, a, ips), again) == Merged(lib, a, ips)
  {
    if again != [] {
      assert again[0] in ips;
      MergeIncremental(lib, a, ips, again);
      AllSeen(Externals(a), ips, again);
    }
  }

  lemma AllSeen(xs: seq<string>, ips: seq<string>, again: seq<string>)
    requires forall ip :: ip in again ==> ip in ips
    ensures Sorting.Fresh(xs + (ips + again), {}) == Sorting.Fresh(xs + ips, {})
  {
    Sorting.FreshConcat(xs + ips, again, {});
    assert xs + (ips + again) == xs + ips + again;
    assert Elems(again) <= {} + Elems(xs + ips);
    Sorting.FreshOfSeen(again, {} + Elems(xs + ips));
  }

  /** Values written are kept under their own fingerprint. */
  lemma WrittenIsKept(lib: Lib, cfg: Config, d: Domain, node: Node)
    requires CleanWish(lib, cfg, d, node)
    ensures Kept(lib, d, WithValues(lib, cfg, d, node), DesiredPrint(lib, cfg, d, node))
  {
    hide Fingerprint, Merged, Desired, DesiredIPs, Clean, Holds;
    if d == Addresses {
      var ips := DesiredIPs(lib, cfg, node);
      forall again | NulFree(again) && IPFingerprint(again) == IPFingerprint(ips)
        ensures Merged(lib, Merged(lib, node.addresses, ips), again) == Merged(lib, node.addresses, ips)
      {
        IPFingerprintIdentifies(again, ips);
        SameSetMerges(lib, node.addresses, ips, again);
      }
    } else {
      var desired := Desired(lib, cfg, d, node);
      HoldsMeansUnchanged(GetValues(d, node), desired);
      forall other | Clean(other) && Fingerprint(other) == Fingerprint(desired)
        ensures Holds(GetValues(d, node) + desired, other)
      {
        FingerprintIdentifies(other, desired);
      }
    }
  }

  /** If the matching rules want what is on record, it is there. */
  lemma WantedIsThere(lib: Lib, cfg: Config, d: Domain, node: Node, record: string)
    requires Kept(lib, d, node, record) && record != "" && CleanWish(lib, cfg, d, node)
    requires DesiredPrint(lib, cfg, d, node) == record
    ensures InPlace(lib, cfg, d, node)
  {
    hide Fingerprint, Merged, Desired, DesiredIPs, Clean;
    if d != Addresses {
      HoldsMeansUnchanged(GetValues(d, node), Desired(lib, cfg, d, node));
    }
  }

  // ---- Without other writers

  /** Nobody else writes; d's controller hears of every value write of its own that is stored, and wants values that
      fingerprints tell apart. The configuration may change, and passes may be over stale Nodes. */
  ghost predicate Alone(lib: Lib, s: Sys, step: Step, d: Domain)
    requires Complete(s) && Enabled(s, step)
  {
    match step
    case Rewrite(_) => false
    case Finish(w, _, answer) => w == Rule(d) ==>
      var c := s.ctls[w];
      answer != Lost && (s.hist[c.work.snap].Some? ==> CleanWish(lib, c.work.cfg, d, s.hist[c.work.snap].value))
    case _ => true
  }

  ghost predicate AllAlone(lib: Lib, s: Sys, steps: seq<Step>, d: Domain)
    requires Complete(s) && Runs(lib, s, steps)
    decreases |steps|
  {
    steps == [] || (
      && Alone(lib, s, steps[0], d)
      && (DoComplete(lib, s, steps[0]); AllAlone(lib, Do(lib, s, steps[0]), steps[1..], d)))
  }

  predicate SameValues(d: Domain, a: Node, b: Node) {
    if d == Addresses then a.addresses == b.addresses else GetValues(d, a) == GetValues(d, b)
  }

  lemma SameKept(lib: Lib, d: Domain, a: Node, b: Node, record: string)
    requires SameValues(d, a, b) && Kept(lib, d, a, record)
    ensures Kept(lib, d, b, record)
  {
    hide PairsKept, AddressesKept;
  }

  /** Others leave d's values alone. */
  lemma OthersKeepValues(lib: Lib, w: Who, cfg: Config, node: Node, known: Known, times: Times, d: Domain)
    requires w != Rule(d) && Computed(lib, w, cfg, Some(node), known, times).write != Nothing
    ensures SameValues(d, node, Computed(lib, w, cfg, Some(node), known, times).write.node)
  {
    hide Computed, Safety.ByTheRules, KeepsAll;
    Safety.ComputedOwn(lib, w, cfg, Some(node), known, times);
  }

  /** A pass of d's own controller: a value write has the wanted fingerprint, and nothing else gets on record. */
  lemma OwnPass(lib: Lib, cfg: Config, d: Domain, node: Option<Node>, known: Known, times: Times)
    ensures var o := Pass(lib, cfg, d, node, known, times.now, times.later, times.stamp);
            && (StateOf(o.known).desired == StateOf(known).desired || StateOf(o.known).desired == "")
            && (o.write.Update? ==> node.Some? && o.write.mark == DesiredPrint(lib, cfg, d, node.value)
                                    && o.write.node == WithValues(lib, cfg, d, node.value))
            && (o.write.Status? ==> node.Some? && SameValues(d, node.value, o.write.node))
  {
    hide Pass, DesiredPrint, WithValues, OwnPartOnly, KeepsAll, FromRules;
    Spacing.PassKnown(lib, cfg, d, node, known, times.now, times.later, times.stamp);
    PassNeedsNode(lib, cfg, d, node, known, times.now, times.later, times.stamp);
    var o := Pass(lib, cfg, d, node, known, times.now, times.later, times.stamp);
    if o.write.Update? {
      Spacing.UpdateMark(lib, cfg, d, node.value, known, times.now, times.later, times.stamp);
    }
    if o.write != Nothing {
      WritesOwnPart(lib, cfg, d, node.value, known, times.now, times.later, times.stamp);
    }
  }

  lemma OwnFinishKeeps(lib: Lib, s: Sys, d: Domain, times: Times, answer: Answer)
    requires Complete(s) && Enabled(s, Finish(Rule(d), times, answer))
    requires Alone(lib, s, Finish(Rule(d), times, answer), d) && RecordKept(lib, s, d)
    ensures var u := Finished(lib, s, Rule(d), times, answer); Complete(u) && RecordKept(lib, u, d)
  {
    hide Pass, Computed, OutcomeOf, CleanWish, Kept, WithValues, DesiredPrint, SameValues;
    Spacing.RuleOutcome(lib, s, d, times);
    var c := s.ctls[Rule(d)];
    var node, o := s.hist[c.work.snap], OutcomeOf(lib, s, Rule(d), times);
    OwnPass(lib, c.work.cfg, d, node, c.known, times);
    NothingKept(lib, d, Current(s).value);
    if o.write.Update? {
      WrittenIsKept(lib, c.work.cfg, d, node.value);
    } else if o.write.Status? && c.work.snap == Last(s) {
      SameKept(lib, d, node.value, o.write.node, StateOf(c.known).desired);
      NothingKept(lib, d, o.write.node);
    }
  }

  lemma NothingKept(lib: Lib, d: Domain, node: Node)
    ensures Kept(lib, d, node, "")
  {
  }

  lemma OtherFinishKeeps(lib: Lib, s: Sys, w: Who, times: Times, answer: Answer, d: Domain)
    requires Complete(s) && Enabled(s, Finish(w, times, answer)) && w != Rule(d) && RecordKept(lib, s, d)
    ensures var u := Finished(lib, s, w, times, answer); Complete(u) && RecordKept(lib, u, d)
  {
    hide Computed, Kept, SameValues;
    var c, o := s.ctls[w], OutcomeOf(lib, s, w, times);
    if o.write != Nothing && c.work.snap == Last(s) {
      OthersKeepValues(lib, w, c.work.cfg, Current(s).value, c.known, times, d);
      SameKept(lib, d, Current(s).value, o.write.node, StateOf(s.ctls[Rule(d)].known).desired);
    }
  }

  lemma StepKeepsRecord(lib: Lib, s: Sys, step: Step, d: Domain)
    requires Complete(s) && Enabled(s, step) && Alone(lib, s, step, d) && RecordKept(lib, s, d)
    ensures Complete(Do(lib, s, step)) && RecordKept(lib, Do(lib, s, step), d)
  {
    hide Finished, Kept, CleanWish;
    if step.Finish? {
      if step.w == Rule(d) {
        OwnFinishKeeps(lib, s, d, step.times, step.answer);
      } else {
        OtherFinishKeeps(lib, s, step.w, step.times, step.answer, d);
      }
    } else {
      DoComplete(lib, s, step);
      NothingKept(lib, d, Current(s).value);
    }
  }

  lemma {:induction false} RunKeepsRecord(lib: Lib, s: Sys, steps: seq<Step>, d: Domain)
    requires Complete(s) && Runs(lib, s, steps) && AllAlone(lib, s, steps, d) && RecordKept(lib, s, d)
    ensures RecordKept(lib, After(lib, s, steps), d)
    decreases |steps|
  {
    hide Do, Enabled, Alone, RecordKept;
    if steps != [] {
      StepKeepsRecord(lib, s, steps[0], d);
      RunKeepsRecord(lib, Do(lib, s, steps[0]), steps[1..], d);
    }
  }

  /** A pass that reads what is on record in place takes missing values for what they are then: changed rules. */
  lemma NoFlapOnRecord(lib: Lib, cfg: Config, d: Domain, node: Node, known: Known, times: Times)
    requires StateOf(known).desired != "" && Kept(lib, d, node, StateOf(known).desired) && CleanWish(lib, cfg, d, node)
    ensures StateOf(Pass(lib, cfg, d, Some(node), known, times.now, times.later, times.stamp).known).flaps <=
            StateOf(known).flaps
  {
    hide Matched, InPlace, WithValues, DesiredPrint, DriftIn, WritersIn, Kept, CleanWish, DriftedStep;
    if DesiredPrint(lib, cfg, d, node) == StateOf(known).desired {
      WantedIsThere(lib, cfg, d, node, StateOf(known).desired);
    }
  }

  /** Without other writers, from when d's detector has seen nothing yet: as long as no answer to a stored value
      write of d's controller is lost, a pass over the current Node counts no flap while anything is on record,
      however often the rules change. */
  lemma NoFlapAlone(lib: Lib, s: Sys, steps: seq<Step>, d: Domain, times: Times, answer: Answer)
    requires Complete(s) && Current(s).Some? && s.ctls[Rule(d)].known == None
    requires Runs(lib, s, steps) && AllAlone(lib, s, steps, d)
    requires var m := After(lib, s, steps);
             && Enabled(m, Finish(Rule(d), times, answer)) && Alone(lib, m, Finish(Rule(d), times, answer), d)
             && m.ctls[Rule(d)].work.snap == Last(m) && StateOf(m.ctls[Rule(d)].known).desired != ""
    ensures var m := After(lib, s, steps);
            StateOf(OutcomeOf(lib, m, Rule(d), times).known).flaps <= StateOf(m.ctls[Rule(d)].known).flaps
  {
    hide Runs, After, AllAlone, Pass, Kept, CleanWish, Computed, OutcomeOf;
    NothingKept(lib, d, Current(s).value);
    RunKeepsRecord(lib, s, steps, d);
    var m := After(lib, s, steps);
    Spacing.RuleOutcome(lib, m, d, times);
    NoFlapOnRecord(lib, m.ctls[Rule(d)].work.cfg, d, Current(m).value, m.ctls[Rule(d)].known, times);
  }

  // ---- A stale pass after a restore

  /** Values held, were changed, and are restored right away. The write is stored and answered, but the key is taken
      again before the cache has it: although nobody else does anything, the same change is counted as a flap. */
  lemma StaleRestoreIsFlap(lib: Lib, s: Sys, d: Domain, t: int) returns (steps: seq<Step>)
    requires Complete(s) && s.ctls[Rule(d)].work == Idle && 0 <= s.ctls[Rule(d)].clock <= t && Current(s).Some?
    requires HeldUntil(lib, s.cfg, d, Current(s).value, s.ctls[Rule(d)].known, t)
    ensures Runs(lib, s, steps) && AllUndisturbed(steps)
    ensures forall i :: 0 <= i < |steps| && steps[i].Finish? ==> steps[i].answer == Answered
    ensures |After(lib, s, steps).hist| == |s.hist| + 1 && RuleEdits.FlappedIn(After(lib, s, steps), d, t)
  {
    hide Runs, After, Enabled, Do, HeldUntil, RuleEdits.FlappedIn, Recorded;
    var last := Finish(Rule(d), At(t), Answered);
    var xs := StartFresh(lib, s, Rule(d));
    var s1 := After(lib, s, xs);
    RestorePass(lib, s1, d, t);
    Extend(lib, s, xs, last);
    steps := TakeCached(lib, s, Rule(d), xs + [last]);
    var s3 := After(lib, s, steps);
    StalePass(lib, s3, d, t, Current(s).value);
    Extend(lib, s, steps, last);
    steps := steps + [last];
  }

  /** Node's values are missing, they are what is on record if anything is, and they held. */
  ghost predicate HeldUntil(lib: Lib, cfg: Config, d: Domain, node: Node, known: Known, t: int) {
    && RuleEdits.Missing(lib, cfg, d, node)
    && !RulesChanged(known, DesiredPrint(lib, cfg, d, node)) && !Cooling(known, t)
    && Held(known, t, RuleEdits.HeartbeatOf(node, d))
  }

  /** Between the two passes: node's values are just recorded, and no flap is. */
  ghost predicate Recorded(lib: Lib, cfg: Config, d: Domain, node: Node, known: Known, t: int) {
    && RuleEdits.Missing(lib, cfg, d, node) && StateOf(known).desired == DesiredPrint(lib, cfg, d, node)
    && StateOf(known).appliedAt == t && StateOf(known).flaps == 0 && StateOf(known).until <= t
  }

  lemma RestorePass(lib: Lib, s: Sys, d: Domain, t: int)
    requires Complete(s) && s.ctls[Rule(d)].work == Ready(Last(s), s.cfg) && 0 <= s.ctls[Rule(d)].clock <= t
    requires Current(s).Some? && HeldUntil(lib, s.cfg, d, Current(s).value, s.ctls[Rule(d)].known, t)
    ensures Enabled(s, Finish(Rule(d), At(t), Answered))
    ensures var u := Do(lib, s, Finish(Rule(d), At(t), Answered));
            && Complete(u) && u.cfg == s.cfg && u.cached == s.cached && u.ctls[Rule(d)].work == Idle
            && u.ctls[Rule(d)].clock == t && |u.hist| == |s.hist| + 1 && s.hist <= u.hist
            && Recorded(lib, s.cfg, d, Current(s).value, u.ctls[Rule(d)].known, t)
  {
    hide Pass, Computed, OutcomeOf, WithValues, DesiredPrint, Matched, InPlace, Find;
    Spacing.RuleOutcome(lib, s, d, At(t));
    RestoreOutcome(lib, s.cfg, d, Current(s).value, s.ctls[Rule(d)].known, t);
    Spacing.NotInPlace(lib, s.cfg, d, Current(s).value);
  }

  lemma RestoreOutcome(lib: Lib, cfg: Config, d: Domain, node: Node, known: Known, t: int)
    requires HeldUntil(lib, cfg, d, node, known, t)
    ensures var o := Pass(lib, cfg, d, Some(node), known, t, t, t);
            && o.write == Update(WithValues(lib, cfg, d, node), DesiredPrint(lib, cfg, d, node)) && o.after == None
            && StateOf(o.known).flaps == 0 && StateOf(o.known).until <= t
  {
    hide Matched, InPlace, WithValues, DesiredPrint, DriftIn, WritersIn;
  }

  lemma StalePass(lib: Lib, s: Sys, d: Domain, t: int, node: Node)
    requires Complete(s) && s.ctls[Rule(d)].work == Ready(s.cached, s.cfg) && s.ctls[Rule(d)].clock == t >= 0
    requires s.hist[s.cached] == Some(node) && s.cached < Last(s)
    requires Recorded(lib, s.cfg, d, node, s.ctls[Rule(d)].known, t)
    ensures Enabled(s, Finish(Rule(d), At(t), Answered))
    ensures var u := Do(lib, s, Finish(Rule(d), At(t), Answered));
            u.hist == s.hist && RuleEdits.FlappedIn(u, d, t)
  {
    hide Pass, Computed, OutcomeOf, Recorded;
    Spacing.RuleOutcome(lib, s, d, At(t));
    StaleOutcome(lib, s.cfg, d, node, s.ctls[Rule(d)].known, t);
    DoComplete(lib, s, Finish(Rule(d), At(t), Answered));
  }

  lemma StaleOutcome(lib: Lib, cfg: Config, d: Domain, node: Node, known: Known, t: int)
    requires Recorded(lib, cfg, d, node, known, t)
    ensures var o := Pass(lib, cfg, d, Some(node), known, t, t, t);
            o.write.Status? && StateOf(o.known).flaps == 1 && StateOf(o.known).until == t + MIN_COOLDOWN
  {
    hide Matched, InPlace, WithValues, DesiredPrint, DriftIn, WritersIn, Cooldown;
    RuleEdits.FirstCooldown();
    HeldExactly(known, t, Find(node.conditions, ConditionOf(d)).value.heartbeat);
  }

  // ---- A lost answer, and the rules changed back

  /** d's controller can finish a pass over the current Node which counts a flap on top of n. */
  ghost predicate CountsFlap(lib: Lib, s: Sys, d: Domain, t: int, n: nat) {
    && Complete(s) && Enabled(s, Finish(Rule(d), At(t), Answered)) && s.ctls[Rule(d)].work.snap == Last(s)
    && StateOf(OutcomeOf(lib, s, Rule(d), At(t)).known).flaps == n + 1
  }

  /** node is content under cfg and only to be confirmed, but not under back, which wants what is on record. */
  ghost predicate BackWanted(lib: Lib, cfg: Config, back: Config, d: Domain, node: Node, known: Known) {
    && !SaysTrue(Find(node.conditions, ConditionOf(d)))
    && Matched(lib, cfg, d, node) != [] && InPlace(lib, cfg, d, node)
    && Matched(lib, back, d, node) != [] && !InPlace(lib, back, d, node)
    && StateOf(known).desired == DesiredPrint(lib, back, d, node)
  }

  /** d's values are in place, but the answer to their write was lost, so that older ones are on record. The next pass
      confirms them; then the rules change back to what is on record; and the pass after that takes it for a flap,
      although nobody else does anything. */
  lemma EditBackIsFlap(lib: Lib, s: Sys, d: Domain, node: Node, known: Known, t: int, back: Config)
    returns (steps: seq<Step>)
    requires LostAnswers.Resting(s, d, s.cfg, node, known, t) && StateOf(known).until <= t && Complete(s)
    requires BackWanted(lib, s.cfg, back, d, node, known)
    ensures Runs(lib, s, steps) && CountsFlap(lib, After(lib, s, steps), d, t, StateOf(known).flaps)
    ensures forall i :: 0 <= i < |steps| ==> !steps[i].Rewrite?
  {
    hide Runs, After, Matched, InPlace, DesiredPrint, Find, Pass, Enabled, Do, CountsFlap;
    var mark := DesiredPrint(lib, s.cfg, d, node);
    var o1 := ConfirmOutcome(lib, s.cfg, d, node, known, t);
    var xs := ConfirmRun(lib, s, d, mark, node, known, t, o1);
    var s2 := Reconfigured(lib, s, xs, d, o1.write.node, known, t, back);
    var ys := StartFresh(lib, s2, Rule(d));
    Scheduling.Join(lib, s, xs + [SetConfig(back)], ys);
    steps := xs + [SetConfig(back)] + ys;
    BackOutcome(lib, back, d, node, o1.write.node, known, t);
    BackCounts(lib, After(lib, s, steps), d, t, back, o1.write.node, known);
  }

  lemma BackCounts(lib: Lib, m: Sys, d: Domain, t: int, back: Config, n: Node, known: Known)
    requires Complete(m) && m.ctls[Rule(d)].work == Ready(Last(m), back) && m.ctls[Rule(d)].clock <= t
    requires Current(m) == Some(n) && m.ctls[Rule(d)].known == known
    requires StateOf(Pass(lib, back, d, Some(n), known, t, t, t).known).flaps == StateOf(known).flaps + 1
    ensures CountsFlap(lib, m, d, t, StateOf(known).flaps)
  {
    hide Pass;
  }

  lemma ConfirmOutcome(lib: Lib, cfg: Config, d: Domain, w: Node, known: Known, t: int) returns (o: Outcome)
    requires Matched(lib, cfg, d, w) != [] && InPlace(lib, cfg, d, w)
    requires !SaysTrue(Find(w.conditions, ConditionOf(d)))
    ensures o == Pass(lib, cfg, d, Some(w), known, t, t, t) && o.write.Status? && o.known == known
    ensures o.write.node == w.(conditions := o.write.node.conditions)
    ensures var c := Find(o.write.node.conditions, ConditionOf(d)); SaysTrue(c) && c.value.heartbeat == t
  {
    hide Matched, InPlace, WithValues, DesiredPrint, DriftIn, WritersIn, BeforeApply;
    o := Pass(lib, cfg, d, Some(w), known, t, t, t);
    SetEffect(w.conditions, AppliedCondition(ConditionOf(d), Matched(lib, cfg, d, w)), t, ConditionOf(d));
  }

  lemma ConfirmRun(lib: Lib, s: Sys, d: Domain, mark: string, w: Node, known: Known, t: int, o: Outcome)
    returns (steps: seq<Step>)
    requires LostAnswers.Resting(s, d, s.cfg, w, known, t) && o == Pass(lib, s.cfg, d, Some(w), known, t, t, t)
    requires Matched(lib, s.cfg, d, w) != [] && DesiredPrint(lib, s.cfg, d, w) == mark && o.write.Status?
    ensures Complete(s) && Runs(lib, s, steps) && AllUndisturbed(steps)
    ensures LostAnswers.Resting(After(lib, s, steps), d, s.cfg, o.write.node, o.known, t)
  {
    hide Runs, After, Matched, DesiredPrint, Pass, Enabled, Do;
    var xs := StartFresh(lib, s, Rule(d));
    LostAnswers.LastStep(lib, After(lib, s, xs), d, mark, s.cfg, w, known, t, o);
    Extend(lib, s, xs, Finish(Rule(d), At(t), Answered));
    steps := xs + [Finish(Rule(d), At(t), Answered)];
  }

  lemma Reconfigured(lib: Lib, s: Sys, xs: seq<Step>, d: Domain, n: Node, known: Known, t: int, back: Config)
    returns (u: Sys)
    requires Complete(s) && Runs(lib, s, xs) && LostAnswers.Resting(After(lib, s, xs), d, s.cfg, n, known, t)
    ensures Runs(lib, s, xs + [SetConfig(back)]) && u == After(lib, s, xs + [SetConfig(back)])
    ensures LostAnswers.Resting(u, d, back, n, known, t)
  {
    hide Runs, After;
    Extend(lib, s, xs, SetConfig(back));
    DoComplete(lib, After(lib, s, xs), SetConfig(back));
    u := After(lib, s, xs + [SetConfig(back)]);
  }

  lemma BackOutcome(lib: Lib, back: Config, d: Domain, w: Node, n: Node, known: Known, t: int)
    requires n == w.(conditions := n.conditions) && StateOf(known).until <= t && t >= 0
    requires var c := Find(n.conditions, ConditionOf(d)); SaysTrue(c) && c.value.heartbeat == t
    requires Matched(lib, back, d, w) != [] && !InPlace(lib, back, d, w)
    requires StateOf(known).desired == DesiredPrint(lib, back, d, w)
    ensures StateOf(Pass(lib, back, d, Some(n), known, t, t, t).known).flaps == StateOf(known).flaps + 1
  {
    hide Matched, InPlace, WithValues, DesiredPrint, DriftIn, WritersIn, Cooldown;
    SameValuesElsewhere(lib, back, d, w, n);
    HeldExactly(known, t, t);
  }
}
