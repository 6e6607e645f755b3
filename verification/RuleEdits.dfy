/** When a rule edit counts as a flap although nobody else changed anything: exactly when the next pass reads a Node
    whose condition still says True, since not more than the flap window (pkg/controller/drift.go, flaps.go). */
module RuleEdits {
  import opened Text
  import opened Kube
  import opened Conditions
  import opened Flaps
  import opened Reconcile
  import opened Protocol
  import opened Scheduling
  import opened Spacing
  import Cycles

  // ---- The pass that sees the edit

  /** d's controller finishes a pass over a Node whose condition says True, whose values are missing, and for which the
      matching rules want something else than what is on record. */
  ghost predicate SeesEdit(lib: Lib, s: Sys, d: Domain, times: Times, answer: Answer)
    requires Complete(s)
  {
    && Enabled(s, Finish(Rule(d), times, answer)) && s.ctls[Rule(d)].clock >= 0
    && var c := s.ctls[Rule(d)];
    && s.hist[c.work.snap].Some?
    && EditIn(lib, c.work.cfg, d, s.hist[c.work.snap].value, c.known)
  }

  ghost predicate EditIn(lib: Lib, cfg: Config, d: Domain, node: Node, known: Known) {
    && SaysTrue(Find(node.conditions, ConditionOf(d)))
    && Matched(lib, cfg, d, node) != [] && !InPlace(lib, cfg, d, node)
    && RulesChanged(known, DesiredPrint(lib, cfg, d, node))
  }

  /** Such a pass takes s to u. */
  ghost predicate EditTo(lib: Lib, s: Sys, d: Domain, times: Times, answer: Answer, u: Sys) {
    && Complete(s) && Complete(u) && Enabled(s, Finish(Rule(d), times, answer))
    && u == Finished(lib, s, Rule(d), times, answer)
    && SeesEdit(lib, s, d, times, answer)
  }

  /** What a pass of d's controller leaves, given its outcome. */
  lemma Finishing(lib: Lib, s: Sys, d: Domain, times: Times, answer: Answer, u: Sys, o: Outcome)
    requires Complete(s) && Complete(u) && s.ctls[Rule(d)].work.Ready? && OutcomeOf(lib, s, Rule(d), times) == o
    requires u == Finished(lib, s, Rule(d), times, answer)
    ensures var c := u.ctls[Rule(d)];
            && c.clock == times.end && c.work == Idle && u.cfg == s.cfg && u.cached == s.cached
            && StateOf(c.known).flaps == StateOf(o.known).flaps && StateOf(c.known).until == StateOf(o.known).until
            && (!o.write.Update? ==> c.known == o.known)
  {
    hide Computed, OutcomeOf, Stored, Fails;
  }

  /** A write of d's controller would be stored. */
  ghost predicate Fits(s: Sys, d: Domain, answer: Answer)
    requires Complete(s)
  {
    var c := s.ctls[Rule(d)];
    c.work != Idle && c.work.snap == Last(s) && answer != Refused
  }

  lemma FinishingStores(lib: Lib, s: Sys, d: Domain, times: Times, answer: Answer, u: Sys, o: Outcome)
    requires Complete(s) && Complete(u) && s.ctls[Rule(d)].work.Ready? && OutcomeOf(lib, s, Rule(d), times) == o
    requires u == Finished(lib, s, Rule(d), times, answer)
    ensures !Fits(s, d, answer) || o.write == Nothing ==> u.hist == s.hist
    ensures Fits(s, d, answer) && o.write != Nothing && Current(s) != Some(o.write.node) ==>
              u.hist == s.hist + [Some(o.write.node)]
  {
    hide Computed, OutcomeOf, Fails, KnownAfter;
  }

  /** Nothing is on record. */
  predicate Wiped(c: Ctl) {
    StateOf(c.known) == ZERO_STATE
  }

  /** The record is wiped, whatever becomes of the Pending write. */
  lemma EditWipes(lib: Lib, s: Sys, d: Domain, times: Times, answer: Answer, u: Sys) returns (n: Node)
    requires EditTo(lib, s, d, times, answer, u) && Complete(s) && Complete(u)
    ensures u.cfg == s.cfg && u.ctls[Rule(d)].work == Idle && u.cached == s.cached
    ensures Wiped(u.ctls[Rule(d)]) && u.ctls[Rule(d)].clock == times.end >= 0
    ensures !SaysTrue(Find(n.conditions, ConditionOf(d)))
    ensures u.hist == if Fits(s, d, answer) then s.hist + [Some(n)] else s.hist
  {
    hide Pass, Matched, InPlace, DesiredPrint, Computed, OutcomeOf, Find, Finished;
    RuleOutcome(lib, s, d, times);
    var c := s.ctls[Rule(d)];
    var node := s.hist[c.work.snap].value;
    n := Cycles.EditPending(lib, c.work.cfg, d, node, c.known, times);
    Finishing(lib, s, d, times, answer, u, Outcome(Some(ZERO_STATE), Status(n), None));
    FinishingStores(lib, s, d, times, answer, u, Outcome(Some(ZERO_STATE), Status(n), None));
  }

  /** If the Pending write is stored, the condition no longer says True. */
  lemma EditSeen(lib: Lib, s: Sys, d: Domain, times: Times, answer: Answer, u: Sys)
    requires EditTo(lib, s, d, times, answer, u) && Complete(s) && Complete(u) && Current(s).Some?
    ensures Current(u).Some? && (if |u.hist| > |s.hist| then !Confirmed(u, d) else u.hist == s.hist)
  {
    hide EditTo, Find;
    var n := EditWipes(lib, s, d, times, answer, u);
  }

  // ---- Until the next pass

  /** d's controller finishes no pass. */
  ghost predicate NoPass(steps: seq<Step>, d: Domain) {
    forall i :: 0 <= i < |steps| ==> !(steps[i].Finish? && steps[i].w == Rule(d))
  }

  lemma StepKeepsWiped(lib: Lib, s: Sys, step: Step, d: Domain)
    requires Complete(s) && Enabled(s, step) && !(step.Finish? && step.w == Rule(d)) && Wiped(s.ctls[Rule(d)])
    ensures var u := Do(lib, s, step);
            Complete(u) && Wiped(u.ctls[Rule(d)]) && u.ctls[Rule(d)].clock == s.ctls[Rule(d)].clock
  {
    hide Computed;
    DoComplete(lib, s, step);
  }

  /** Whatever happens in between, nothing gets on record. */
  lemma {:induction false} StaysWiped(lib: Lib, s: Sys, steps: seq<Step>, d: Domain)
    requires Complete(s) && Runs(lib, s, steps) && NoPass(steps, d) && Wiped(s.ctls[Rule(d)])
    ensures var u := After(lib, s, steps);
            Wiped(u.ctls[Rule(d)]) && u.ctls[Rule(d)].clock == s.ctls[Rule(d)].clock
    decreases |steps|
  {
    hide Do, Enabled, Wiped;
    if steps != [] {
      StepKeepsWiped(lib, s, steps[0], d);
      StaysWiped(lib, Do(lib, s, steps[0]), steps[1..], d);
    }
  }

  lemma {:induction false} Waiting(lib: Lib, s: Sys, steps: seq<Step>, d: Domain, mark: string)
    requires Complete(s) && Runs(lib, s, steps) && AllCalm(lib, s, steps, d, mark) && NoPass(steps, d)
    requires Current(s).Some?
    ensures SameFor(s, After(lib, s, steps), d)
    decreases |steps|
  {
    hide Do, Enabled, Calm, Find;
    if steps != [] {
      var step := steps[0];
      if step.Finish? {
        FinishOfOther(lib, s, step, d);
      } else {
        QuietStep(lib, s, step, d, mark);
      }
      Waiting(lib, Do(lib, s, step), steps[1..], d, mark);
    }
  }

  lemma FinishOfOther(lib: Lib, s: Sys, step: Step, d: Domain)
    requires Complete(s) && Enabled(s, step) && step.Finish? && step.w != Rule(d) && Current(s).Some?
    ensures var u := Do(lib, s, step); Complete(u) && SameFor(s, u, d)
  {
    hide Finished, SameFor;
    OtherFinish(lib, s, step.w, step.times, step.answer, d);
  }

  // ---- The next pass

  /** d's controller finishes a pass over a Node that lacks values; the current one, or one from a stale cache. */
  ghost predicate NextPass(lib: Lib, s: Sys, d: Domain, times: Times, answer: Answer)
    requires Complete(s)
  {
    && Enabled(s, Finish(Rule(d), times, answer))
    && var c := s.ctls[Rule(d)];
    && s.hist[c.work.snap].Some?
    && Matched(lib, c.work.cfg, d, s.hist[c.work.snap].value) != []
    && !InPlace(lib, c.work.cfg, d, s.hist[c.work.snap].value)
  }

  /** Such a pass over node takes s to u. */
  ghost predicate NextTo(lib: Lib, s: Sys, d: Domain, times: Times, answer: Answer, node: Node, u: Sys) {
    && Complete(s) && Complete(u) && Enabled(s, Finish(Rule(d), times, answer))
    && u == Finished(lib, s, Rule(d), times, answer)
    && s.hist[s.ctls[Rule(d)].work.snap] == Some(node)
    && NextPass(lib, s, d, times, answer)
  }

  function HeartbeatOf(node: Node, d: Domain): int {
    var c := Find(node.conditions, ConditionOf(d));
    if c.Some? then c.value.heartbeat else 0
  }

  /** Confirmed so long ago that a change now is no flap (0 is Go's zero time, when nothing is on record). */
  predicate LongAgo(node: Node, d: Domain, now: int) {
    now > FLAP_WINDOW && now - HeartbeatOf(node, d) > FLAP_WINDOW
  }

  /** Its condition says True, and has not for long. */
  predicate LatelyTrue(node: Node, d: Domain, now: int) {
    SaysTrue(Find(node.conditions, ConditionOf(d))) && !LongAgo(node, d, now)
  }

  /** With nothing on record: a flap exactly if the condition says True, since not so long ago. */
  lemma FlapOfNothing(lib: Lib, cfg: Config, d: Domain, node: Node, known: Known, times: Times)
    requires Matched(lib, cfg, d, node) != [] && !InPlace(lib, cfg, d, node) && 0 <= times.now <= times.later
    requires StateOf(known) == ZERO_STATE
    ensures var o := Pass(lib, cfg, d, Some(node), known, times.now, times.later, times.stamp);
            if LatelyTrue(node, d, times.now)
            then && o.write.Status? && o.after == Some(MIN_COOLDOWN)
                 && StateOf(o.known).flaps == 1 && StateOf(o.known).until == times.now + MIN_COOLDOWN
            else StateOf(o.known).flaps == 0 && StateOf(o.known).until == 0 && o.after == None
  {
    hide Matched, InPlace, WithValues, DesiredPrint, DriftIn, WritersIn, Cooldown;
    var current := Find(node.conditions, ConditionOf(d));
    if SaysTrue(current) {
      HeldExactly(known, times.now, current.value.heartbeat);
      DriftedVerdict(known, times.now, current.value.heartbeat);
      FirstCooldown();
    }
  }

  lemma FirstCooldown()
    ensures Cooldown(1) == MIN_COOLDOWN
  {
    CooldownIsMin(1);
    assert Pow2(0) == 1;
  }

  predicate Flapped(c: Ctl, flap: bool, now: int) {
    && StateOf(c.known).flaps == (if flap then 1 else 0)
    && StateOf(c.known).until == (if flap then now + MIN_COOLDOWN else 0)
  }

  lemma NextFlaps(lib: Lib, s: Sys, d: Domain, times: Times, answer: Answer, node: Node, u: Sys)
    requires NextTo(lib, s, d, times, answer, node, u) && Complete(s) && Complete(u)
    requires Wiped(s.ctls[Rule(d)]) && s.ctls[Rule(d)].clock >= 0
    ensures Flapped(u.ctls[Rule(d)], LatelyTrue(node, d, times.now), times.now)
    ensures !Fits(s, d, answer) ==> u.hist == s.hist
  {
    hide Pass, Matched, InPlace, Computed, OutcomeOf, LatelyTrue, Finished, Last;
    RuleOutcome(lib, s, d, times);
    FlapOfNothing(lib, s.ctls[Rule(d)].work.cfg, d, node, s.ctls[Rule(d)].known, times);
    var o := OutcomeOf(lib, s, Rule(d), times);
    Finishing(lib, s, d, times, answer, u, o);
    FinishingStores(lib, s, d, times, answer, u, o);
  }

  /** A rule edit is no flap if and only if the next pass reads a Node whose condition does not say True, or said so
      for the last time more than 128 s ago. Otherwise it counts the edit as a flap, and starts a cooldown of 0.5 s.
      The pass that sees the edit takes s to u; any run without a pass of d's controller leads to m, and its next
      pass, over node, to v. Neither pass need be over an up-to-date Node, and anything may happen in between. */
  lemma EditIsNoFlapExactly(lib: Lib, s: Sys, d: Domain, first: Times, answer: Answer, u: Sys, steps: seq<Step>, m: Sys,
                            second: Times, last: Answer, node: Node, v: Sys)
    requires EditTo(lib, s, d, first, answer, u) && Complete(s) && Complete(u)
    requires Runs(lib, u, steps) && NoPass(steps, d) && m == After(lib, u, steps)
    requires NextTo(lib, m, d, second, last, node, v) && Complete(v)
    ensures StateOf(v.ctls[Rule(d)].known).flaps == 0 <==> !LatelyTrue(node, d, second.now)
    ensures Flapped(v.ctls[Rule(d)], LatelyTrue(node, d, second.now), second.now)
  {
    hide Runs, After, NextTo, EditTo, LatelyTrue, NoPass, Wiped, Find;
    var n := EditWipes(lib, s, d, first, answer, u);
    StaysWiped(lib, u, steps, d);
    NextFlaps(lib, m, d, second, last, node, v);
  }

  /** If the next pass is over the current Node, and nobody else touched d's condition: a rule edit is no flap if and
      only if its Pending write was stored, or the condition did not say True any more, or said so more than 128 s
      ago. */
  lemma FreshEditIsNoFlapExactly(lib: Lib, s: Sys, d: Domain, first: Times, answer: Answer, u: Sys, steps: seq<Step>,
                                 mark: string, m: Sys, second: Times, last: Answer, node: Node, v: Sys)
    requires EditTo(lib, s, d, first, answer, u) && Complete(s) && Complete(u) && Current(s).Some?
    requires Runs(lib, u, steps) && AllCalm(lib, u, steps, d, mark) && NoPass(steps, d) && m == After(lib, u, steps)
    requires NextTo(lib, m, d, second, last, node, v) && Complete(v) && Current(m) == Some(node)
    ensures var stored := |u.hist| > |s.hist|;
            StateOf(v.ctls[Rule(d)].known).flaps == 0 <==> stored || !LatelyTrue(Current(s).value, d, second.now)
  {
    hide Runs, After, AllCalm, NextTo, EditTo, Find, NoPass, LongAgo, Flapped;
    EditSeen(lib, s, d, first, answer, u);
    Waiting(lib, u, steps, d, mark);
    EditIsNoFlapExactly(lib, s, d, first, answer, u, steps, m, second, last, node, v);
    if |u.hist| == |s.hist| { SameLately(Current(s).value, node, d, second.now); }
  }

  lemma SameLately(a: Node, b: Node, d: Domain, now: int)
    requires Find(a.conditions, ConditionOf(d)) == Find(b.conditions, ConditionOf(d))
    ensures LatelyTrue(a, d, now) <==> LatelyTrue(b, d, now)
  {
  }

  // ---- The failing runs

  /** The Pending write does not get through, and nobody else does anything: the edit counts as a flap. */
  lemma RefusedEditIsFlap(lib: Lib, s: Sys, d: Domain, t: int) returns (steps: seq<Step>)
    requires Complete(s) && s.ctls[Rule(d)].work == Idle && 0 <= s.ctls[Rule(d)].clock <= t && Current(s).Some?
    requires EditIn(lib, s.cfg, d, Current(s).value, s.ctls[Rule(d)].known)
    requires !LongAgo(Current(s).value, d, t)
    ensures Runs(lib, s, steps) && AllUndisturbed(steps)
    ensures After(lib, s, steps).hist == s.hist && FlappedIn(After(lib, s, steps), d, t)
  {
    steps := TwoPasses(lib, s, d, t, Refused);
  }

  /** The Pending write is stored and answered, but the key is taken again before the cache has it, and nobody else does
      anything: the edit counts as a flap. */
  lemma StoredEditIsFlap(lib: Lib, s: Sys, d: Domain, t: int) returns (steps: seq<Step>)
    requires Complete(s) && s.ctls[Rule(d)].work == Idle && 0 <= s.ctls[Rule(d)].clock <= t && Current(s).Some?
    requires EditIn(lib, s.cfg, d, Current(s).value, s.ctls[Rule(d)].known)
    requires !LongAgo(Current(s).value, d, t)
    ensures Runs(lib, s, steps) && AllUndisturbed(steps)
    ensures forall i :: 0 <= i < |steps| && steps[i].Finish? ==> steps[i].answer == Answered
    ensures |After(lib, s, steps).hist| == |s.hist| + 1 && FlappedIn(After(lib, s, steps), d, t)
  {
    steps := TwoPasses(lib, s, d, t, Answered);
  }

  /** Two passes over the same Node, one right after the other. */
  lemma TwoPasses(lib: Lib, s: Sys, d: Domain, t: int, answer: Answer) returns (steps: seq<Step>)
    requires Complete(s) && s.ctls[Rule(d)].work == Idle && 0 <= s.ctls[Rule(d)].clock <= t && Current(s).Some?
    requires EditIn(lib, s.cfg, d, Current(s).value, s.ctls[Rule(d)].known)
    requires !LongAgo(Current(s).value, d, t)
    ensures Runs(lib, s, steps) && AllUndisturbed(steps)
    ensures forall i :: 0 <= i < |steps| && steps[i].Finish? ==> steps[i].answer == answer
    ensures |After(lib, s, steps).hist| == |s.hist| + (if answer == Refused then 0 else 1)
    ensures answer == Refused ==> After(lib, s, steps).hist == s.hist
    ensures FlappedIn(After(lib, s, steps), d, t)
  {
    hide Runs, After, EditIn, Enabled, LongAgo, Find, Do, FlappedIn, Missing;
    var last := Finish(Rule(d), At(t), answer);
    var xs := StartFresh(lib, s, Rule(d));
    var s1 := After(lib, s, xs);
    FirstPass(lib, s1, d, t, answer);
    Extend(lib, s, xs, last);
    var s2 := After(lib, s, xs + [last]);
    steps := TakeCached(lib, s, Rule(d), xs + [last]);
    var s3 := After(lib, s, steps);
    SecondPass(lib, s3, d, t, answer, Current(s).value);
    Extend(lib, s, steps, last);
    steps := steps + [last];
  }

  /** u is s after a pass that wiped the record. */
  ghost predicate WipedIn(s: Sys, u: Sys, d: Domain, t: int, answer: Answer)
    requires s.hist != []
  {
    && Complete(u) && u.cfg == s.cfg && u.cached == s.cached && u.ctls[Rule(d)].work == Idle
    && Wiped(u.ctls[Rule(d)]) && u.ctls[Rule(d)].clock == t
    && |u.hist| == |s.hist| + (if answer == Refused then 0 else 1) && s.hist <= u.hist
  }

  lemma FirstPass(lib: Lib, s: Sys, d: Domain, t: int, answer: Answer)
    requires Complete(s) && s.ctls[Rule(d)].work == Ready(Last(s), s.cfg) && 0 <= s.ctls[Rule(d)].clock <= t
    requires Current(s).Some? && EditIn(lib, s.cfg, d, Current(s).value, s.ctls[Rule(d)].known)
    ensures Enabled(s, Finish(Rule(d), At(t), answer))
    ensures WipedIn(s, Do(lib, s, Finish(Rule(d), At(t), answer)), d, t, answer)
    ensures Missing(lib, s.cfg, d, Current(s).value)
  {
    hide Pass, Matched, InPlace, DesiredPrint, Find, Finished;
    var last := Finish(Rule(d), At(t), answer);
    DoComplete(lib, s, last);
    var n := EditWipes(lib, s, d, At(t), answer, Do(lib, s, last));
  }

  ghost predicate FlappedIn(u: Sys, d: Domain, t: int) {
    Complete(u) && Flapped(u.ctls[Rule(d)], true, t)
  }

  ghost predicate Missing(lib: Lib, cfg: Config, d: Domain, node: Node) {
    && SaysTrue(Find(node.conditions, ConditionOf(d)))
    && Matched(lib, cfg, d, node) != [] && !InPlace(lib, cfg, d, node)
  }

  lemma SecondPass(lib: Lib, s: Sys, d: Domain, t: int, answer: Answer, node: Node)
    requires Complete(s) && s.ctls[Rule(d)].work == Ready(s.cached, s.cfg) && 0 <= s.ctls[Rule(d)].clock <= t
    requires Wiped(s.ctls[Rule(d)]) && s.hist[s.cached] == Some(node) && (answer == Refused || s.cached < Last(s))
    requires Missing(lib, s.cfg, d, node) && !LongAgo(node, d, t)
    ensures Enabled(s, Finish(Rule(d), At(t), answer))
    ensures var u := Do(lib, s, Finish(Rule(d), At(t), answer));
            u.hist == s.hist && FlappedIn(u, d, t)
  {
    hide Pass, Matched, InPlace, Find, LongAgo, Finished;
    var last := Finish(Rule(d), At(t), answer);
    DoComplete(lib, s, last);
    NextFlaps(lib, s, d, At(t), answer, node, Do(lib, s, last));
  }

  // ---- An edit while the condition does not say True

  /** Then nobody asks whether the rules changed: the streak and the cooldown stay, whatever is on record, and new
      values wait for the cooldown that old ones earned. */
  lemma UnconfirmedEditKeepsStreak(lib: Lib, cfg: Config, d: Domain, node: Node, known: Known, t: Times)
    requires !SaysTrue(Find(node.conditions, ConditionOf(d)))
    requires Matched(lib, cfg, d, node) != [] && !InPlace(lib, cfg, d, node) && t.now <= t.later
    ensures var o := Pass(lib, cfg, d, Some(node), known, t.now, t.later, t.stamp);
            && StateOf(Cycles.NextKnown(o, t.end)).flaps == StateOf(known).flaps
            && StateOf(Cycles.NextKnown(o, t.end)).until == StateOf(known).until
            && (o.write == Nothing <==> known.Some? && Cooling(known, t.later))
  {
    hide Matched, InPlace, WithValues, DesiredPrint, DriftIn, WritersIn;
    RemainingExactly(known, t.now, t.later);
    SilentExactly(lib, cfg, d, node, known, t.now, t.later, t.stamp);
  }
}
