/** When the answer to a value write is lost: exactly when confirmed cycles are spaced all the same. */
module LostAnswers {
  import opened Text
  import opened Kube
  import opened Matching
  import opened Values
  import opened ExternalIPs
  import opened Conditions
  import opened Flaps
  import opened Reconcile
  import opened Protocol
  import opened Scheduling
  import opened Spacing
  import opened Termination
  import Cycles
  import Fingerprints

  // ---- Calm runs, put together

  ghost predicate Fine(lib: Lib, s: Sys, steps: seq<Step>, d: Domain, mark: string)
    requires Complete(s)
  {
    Runs(lib, s, steps) && AllCalm(lib, s, steps, d, mark) && AllPunctual(steps, d)
  }

  lemma {:induction false} CalmJoin(lib: Lib, s: Sys, xs: seq<Step>, ys: seq<Step>, d: Domain, mark: string)
    requires Complete(s) && Runs(lib, s, xs) && Runs(lib, After(lib, s, xs), ys)
    requires AllCalm(lib, s, xs, d, mark) && AllCalm(lib, After(lib, s, xs), ys, d, mark)
    ensures Runs(lib, s, xs + ys) && AllCalm(lib, s, xs + ys, d, mark)
    decreases |xs|
  {
    hide Do, Enabled, Calm;
    Join(lib, s, xs, ys);
    if xs == [] {
      assert xs + ys == ys;
    } else {
      assert (xs + ys)[1..] == xs[1..] + ys && (xs + ys)[0] == xs[0];
      DoComplete(lib, s, xs[0]);
      CalmJoin(lib, Do(lib, s, xs[0]), xs[1..], ys, d, mark);
    }
  }

  lemma FineJoin(lib: Lib, s: Sys, xs: seq<Step>, ys: seq<Step>, d: Domain, mark: string)
    requires Complete(s) && Fine(lib, s, xs, d, mark) && Fine(lib, After(lib, s, xs), ys, d, mark)
    ensures Fine(lib, s, xs + ys, d, mark) && After(lib, s, xs + ys) == After(lib, After(lib, s, xs), ys)
  {
    hide Runs, After, AllCalm;
    Join(lib, s, xs, ys);
    CalmJoin(lib, s, xs, ys, d, mark);
  }

  lemma FineOne(lib: Lib, s: Sys, step: Step, d: Domain, mark: string)
    requires Complete(s) && Enabled(s, step) && Calm(lib, s, step, d, mark) && Punctual(step, d)
    ensures Fine(lib, s, [step], d, mark) && After(lib, s, [step]) == Do(lib, s, step)
  {
    hide Do, Enabled, Calm;
    DoComplete(lib, s, step);
    assert [step][1..] == [];
    assert Runs(lib, Do(lib, s, step), []);
    assert Runs(lib, s, [step]) && AllCalm(lib, s, [step], d, mark);
  }

  lemma {:induction false} QuietIsFine(lib: Lib, s: Sys, steps: seq<Step>, d: Domain, mark: string)
    requires Complete(s) && Runs(lib, s, steps) && AllQuiet(steps)
    ensures Fine(lib, s, steps, d, mark)
    decreases |steps|
  {
    hide Do, Enabled;
    if steps != [] {
      DoComplete(lib, s, steps[0]);
      QuietIsFine(lib, Do(lib, s, steps[0]), steps[1..], d, mark);
    }
  }

  /** d's worker is idle; node and cfg are current; known is what its detector knows; its clock has not passed t. */
  ghost predicate Resting(s: Sys, d: Domain, cfg: Config, node: Node, known: Known, t: int) {
    && Complete(s)
    && s.ctls[Rule(d)].work == Idle && Current(s) == Some(node) && s.cfg == cfg
    && s.ctls[Rule(d)].known == known && 0 <= s.ctls[Rule(d)].clock <= t
  }

  lemma NewConfig(lib: Lib, s: Sys, d: Domain, mark: string, cfg: Config, node: Node, known: Known, t: int,
                  cfg': Config)
    requires Resting(s, d, cfg, node, known, t)
    ensures Fine(lib, s, [SetConfig(cfg')], d, mark)
    ensures Resting(After(lib, s, [SetConfig(cfg')]), d, cfg', node, known, t)
  {
    hide Fine, Runs, After;
    FineOne(lib, s, SetConfig(cfg'), d, mark);
    DoComplete(lib, s, SetConfig(cfg'));
  }

  lemma RivalWrites(lib: Lib, s: Sys, d: Domain, mark: string, cfg: Config, node: Node, known: Known, t: int, n: Node)
    requires Resting(s, d, cfg, node, known, t) && n != node && n.conditions == node.conditions
    ensures Fine(lib, s, [Rewrite(Some(n))], d, mark)
    ensures Resting(After(lib, s, [Rewrite(Some(n))]), d, cfg, n, known, t)
  {
    hide Fine, Runs, After, Find;
    FineOne(lib, s, Rewrite(Some(n)), d, mark);
    DoComplete(lib, s, Rewrite(Some(n)));
  }

  /** d's worker is about to finish a pass over the current Node, under the current configuration. */
  ghost predicate AtWork(s: Sys, d: Domain, cfg: Config, node: Node, known: Known, t: int) {
    && Complete(s)
    && s.ctls[Rule(d)].work == Ready(Last(s), cfg) && Current(s) == Some(node) && s.cfg == cfg
    && s.ctls[Rule(d)].known == known && 0 <= s.ctls[Rule(d)].clock <= t
  }

  lemma Begin(lib: Lib, s: Sys, d: Domain, mark: string, cfg: Config, node: Node, known: Known, t: int)
    returns (steps: seq<Step>)
    requires Resting(s, d, cfg, node, known, t)
    ensures Fine(lib, s, steps, d, mark) && AtWork(After(lib, s, steps), d, cfg, node, known, t)
  {
    hide Runs, After;
    steps := StartFresh(lib, s, Rule(d));
    QuietIsFine(lib, s, steps, d, mark);
  }

  /** A pass over node still wants mark, and has outcome o. */
  ghost predicate Yields(lib: Lib, cfg: Config, d: Domain, mark: string, node: Node, known: Known, t: int, o: Outcome) {
    && Matched(lib, cfg, d, node) != [] && DesiredPrint(lib, cfg, d, node) == mark
    && Pass(lib, cfg, d, Some(node), known, t, t, t) == o
  }

  lemma StatusPass(lib: Lib, s: Sys, d: Domain, mark: string, cfg: Config, node: Node, known: Known, t: int, o: Outcome)
    returns (steps: seq<Step>)
    requires Resting(s, d, cfg, node, known, t) && Yields(lib, cfg, d, mark, node, known, t, o) && o.write.Status?
    ensures Fine(lib, s, steps, d, mark) && Resting(After(lib, s, steps), d, cfg, o.write.node, o.known, t)
  {
    hide Runs, After, AllCalm, AllPunctual, Yields, Complete;
    var xs := Begin(lib, s, d, mark, cfg, node, known, t);
    var u := After(lib, s, xs);
    var last := Finish(Rule(d), At(t), Answered);
    LastStep(lib, u, d, mark, cfg, node, known, t, o);
    FineOne(lib, u, last, d, mark);
    FineJoin(lib, s, xs, [last], d, mark);
    steps := xs + [last];
  }

  lemma LastStep(lib: Lib, s: Sys, d: Domain, mark: string, cfg: Config, node: Node, known: Known, t: int, o: Outcome)
    requires AtWork(s, d, cfg, node, known, t) && Yields(lib, cfg, d, mark, node, known, t, o) && o.write.Status?
    ensures var last := Finish(Rule(d), At(t), Answered);
            && Enabled(s, last) && Calm(lib, s, last, d, mark)
            && Resting(Do(lib, s, last), d, cfg, o.write.node, o.known, t)
  {
    hide Pass, Matched, DesiredPrint;
    WriteDiffers(lib, cfg, d, node, known, t, t, t);
  }

  lemma Restores(lib: Lib, s: Sys, d: Domain, mark: string, cfg: Config, node: Node, known: Known, t: int, o: Outcome)
    requires AtWork(s, d, cfg, node, known, t) && Yields(lib, cfg, d, mark, node, known, t, o) && o.write.Update?
    ensures Writes(lib, s, d, At(t), Answered) && Calm(lib, s, Finish(Rule(d), At(t), Answered), d, mark)
  {
    hide Pass, Matched, DesiredPrint;
  }

  // ---- Rules that want the same, and are content once they have it

  /** Under cfg, node wants to become w, with mark; and w is as wanted. */
  ghost predicate Suits(lib: Lib, cfg: Config, d: Domain, node: Node, w: Node, mark: string) {
    && Matched(lib, cfg, d, node) != [] && WithValues(lib, cfg, d, node) == w != node
    && DesiredPrint(lib, cfg, d, node) == mark
    && Matched(lib, cfg, d, w) != [] && InPlace(lib, cfg, d, w) && DesiredPrint(lib, cfg, d, w) == mark
    && w == node.(labels := w.labels, annotations := w.annotations, addresses := w.addresses)
  }

  /** A single label rule, which matches all Nodes. */
  function OneForAll(desired: Pairs): Config {
    EMPTY_CONFIG.(labels := map["all" := ValueRule(Match(map[], [], ""), desired)])
  }

  /** The configuration as it is, if its rules are content once the values are written. Otherwise, as can be with label
      rules, a single rule that wants what they now want of node. */
  ghost function SameWishes(lib: Lib, cfg: Config, d: Domain, node: Node): Config {
    if Suits(lib, cfg, d, node, WithValues(lib, cfg, d, node), DesiredPrint(lib, cfg, d, node)) || d != Labels then cfg
    else OneForAll(Desired(lib, cfg, d, node))
  }

  lemma SameWishesSuit(lib: Lib, cfg: Config, d: Domain, node: Node)
    requires Matched(lib, cfg, d, node) != [] && !InPlace(lib, cfg, d, node)
    ensures Suits(lib, SameWishes(lib, cfg, d, node), d, node,
                  WithValues(lib, cfg, d, node), DesiredPrint(lib, cfg, d, node))
  {
    if d == Labels {
      OneForAllSuits(lib, cfg, node);
    } else {
      OthersSuit(lib, cfg, d, node);
    }
  }

  lemma OthersSuit(lib: Lib, cfg: Config, d: Domain, node: Node)
    requires d != Labels && Matched(lib, cfg, d, node) != [] && !InPlace(lib, cfg, d, node)
    ensures Suits(lib, cfg, d, node, WithValues(lib, cfg, d, node), DesiredPrint(lib, cfg, d, node))
  {
    hide Resolved, RulesFor, MatchingIDs, Merged, RuleIPs, Fingerprints.Fingerprint, Fingerprints.IPFingerprint;
    AppliedOnce(lib, cfg, d, node);
  }

  lemma OneForAllSuits(lib: Lib, cfg: Config, node: Node)
    requires Matched(lib, cfg, Labels, node) != [] && !InPlace(lib, cfg, Labels, node)
    ensures Suits(lib, OneForAll(Desired(lib, cfg, Labels, node)), Labels, node,
                  WithValues(lib, cfg, Labels, node), DesiredPrint(lib, cfg, Labels, node))
  {
    hide Resolved, RulesFor, MatchingIDs, Fingerprints.Fingerprint;
    var w, desired := WithValues(lib, cfg, Labels, node), Desired(lib, cfg, Labels, node);
    ForAllNodes(lib, desired, node);
    ForAllNodes(lib, desired, w);
    assert node.labels + desired + desired == node.labels + desired;
  }

  lemma ForAllNodes(lib: Lib, desired: Pairs, node: Node)
    ensures Matched(lib, OneForAll(desired), Labels, node) == ["all"]
    ensures Desired(lib, OneForAll(desired), Labels, node) == desired
  {
    hide Resolved, SortedOf;
    var cfg := OneForAll(desired);
    var ms := RuleMatches(cfg, Labels);
    assert MatchingSet(lib, node.labels, node.name, node.providerID, ms) == {"all"};
    OneListed("all");
    assert RulesFor(["all"], cfg.labels) == [desired];
    OnlyRule(desired);
  }

  // ---- Something else is on record

  /** A pass over the written values confirms them, and leaves the detector as it is. */
  lemma Confirms(lib: Lib, cfg: Config, d: Domain, node: Node, w: Node, mark: string, known: Known, t: int)
    returns (o: Outcome)
    requires Suits(lib, cfg, d, node, w, mark) && !SaysTrue(Find(w.conditions, ConditionOf(d)))
    ensures Yields(lib, cfg, d, mark, w, known, t, o) && o.write.Status? && o.known == known
    ensures o.write.node == w.(conditions := o.write.node.conditions)
    ensures SaysTrue(Find(o.write.node.conditions, ConditionOf(d)))
  {
    hide Matched, InPlace, WithValues, DesiredPrint, DriftIn, WritersIn, BeforeApply;
    o := Pass(lib, cfg, d, Some(w), known, t, t, t);
    var desired := AppliedCondition(ConditionOf(d), Matched(lib, cfg, d, w));
    SetEffect(w.conditions, desired, t, ConditionOf(d));
  }

  /** The other writer puts the old values back: only the conditions tell the Node from what it was. */
  lemma SuitsAnyConditions(lib: Lib, cfg: Config, d: Domain, node: Node, w: Node, mark: string, n: Node)
    requires Suits(lib, cfg, d, node, w, mark) && n == node.(conditions := n.conditions)
    ensures Matched(lib, cfg, d, n) != [] && !InPlace(lib, cfg, d, n) && DesiredPrint(lib, cfg, d, n) == mark
    ensures n != w.(conditions := n.conditions)
  {
    hide Matched, WithValues, DesiredPrint;
    SameValuesElsewhere(lib, cfg, d, node, n);
    NotInPlace(lib, cfg, d, node);
  }

  /** The detector takes that for a change of the rules: Pending, and then the values at once. */
  lemma TakenForEdit(lib: Lib, s: Sys, d: Domain, mark: string, cfg: Config, node: Node, known: Known, t: int)
    returns (steps: seq<Step>)
    requires Resting(s, d, cfg, node, known, t)
    requires SaysTrue(Find(node.conditions, ConditionOf(d))) && RulesChanged(known, mark)
    requires Matched(lib, cfg, d, node) != [] && !InPlace(lib, cfg, d, node) && DesiredPrint(lib, cfg, d, node) == mark
    ensures Fine(lib, s, steps, d, mark)
    ensures var u := After(lib, s, steps);
            Writes(lib, u, d, At(t), Answered) && Calm(lib, u, Finish(Rule(d), At(t), Answered), d, mark)
  {
    hide Pass, Matched, DesiredPrint, InPlace, Find, Fine, Runs, After, Writes, Calm;
    var n := Cycles.EditPending(lib, cfg, d, node, known, At(t));
    var o1 := Outcome(Some(ZERO_STATE), Status(n), None);
    var xs := StatusPass(lib, s, d, mark, cfg, node, known, t, o1);
    FineRuns(lib, s, xs, d, mark);
    var s1 := After(lib, s, xs);
    var ys := Begin(lib, s1, d, mark, cfg, n, o1.known, t);
    Cycles.EditValues(lib, cfg, d, n, o1.known, At(t));
    FineJoin(lib, s, xs, ys, d, mark);
    FineRuns(lib, s1, ys, d, mark);
    var o2 := Outcome(o1.known, Update(WithValues(lib, cfg, d, n), DesiredPrint(lib, cfg, d, n)), None);
    Restores(lib, After(lib, s1, ys), d, mark, cfg, n, o1.known, t, o2);
    steps := xs + ys;
  }

  lemma FineRuns(lib: Lib, s: Sys, steps: seq<Step>, d: Domain, mark: string)
    requires Complete(s) && Fine(lib, s, steps, d, mark)
    ensures Runs(lib, s, steps)
  {
  }

  /** What the first write leaves. */
  lemma AfterFirst(lib: Lib, s: Sys, d: Domain, first: Times, answer: Answer, u: Sys, mark: string)
    requires WritesTo(lib, s, d, first, answer, u, mark) && Complete(s) && Complete(u) && Current(s).Some?
    requires s.ctls[Rule(d)].work.Ready?
    ensures var c, node := s.ctls[Rule(d)], Current(s).value;
            var o := Pass(lib, c.work.cfg, d, Some(node), c.known, first.now, first.later, first.stamp);
            && Matched(lib, c.work.cfg, d, node) != [] && !InPlace(lib, c.work.cfg, d, node)
            && mark == DesiredPrint(lib, c.work.cfg, d, node) && o.write.Update?
            && Find(node.conditions, ConditionOf(d)).Some?
            && WithValues(lib, c.work.cfg, d, node).conditions == node.conditions
            && StateOf(o.known).desired == StateOf(c.known).desired
            && Resting(u, d, s.cfg, WithValues(lib, c.work.cfg, d, node), u.ctls[Rule(d)].known, first.end)
            && (answer == Lost ==> u.ctls[Rule(d)].known == o.known)
            && StateOf(u.ctls[Rule(d)].known).until <= first.end
  {
    hide Pass, Matched, WithValues, DesiredPrint, InPlace, Computed, OutcomeOf, Find;
    var c, node := s.ctls[Rule(d)], Current(s).value;
    RuleOutcome(lib, s, d, first);
    WriteStored(lib, s, d, first, answer, u, mark);
    WritesMeans(lib, c.work.cfg, d, node, c.known, first);
    WritesOwnPart(lib, c.work.cfg, d, node, c.known, first.now, first.later, first.stamp);
    UpdateKeepsRecord(lib, c.work.cfg, d, node, c.known, first);
    NotInPlace(lib, c.work.cfg, d, node);
  }

  lemma WritesMeans(lib: Lib, cfg: Config, d: Domain, node: Node, known: Known, times: Times)
    requires Pass(lib, cfg, d, Some(node), known, times.now, times.later, times.stamp).write.Update?
    ensures Matched(lib, cfg, d, node) != [] && !InPlace(lib, cfg, d, node)
    ensures Find(node.conditions, ConditionOf(d)).Some?
    ensures Pass(lib, cfg, d, Some(node), known, times.now, times.later, times.stamp).write ==
            Update(WithValues(lib, cfg, d, node), DesiredPrint(lib, cfg, d, node))
  {
    hide Matched, WithValues, DesiredPrint, InPlace, DriftIn, WritersIn;
  }

  /** The answer to the first write is lost while other values are on record. The next pass confirms the values; the
      other writer puts the old ones back; and they are written again at the very same time. */
  lemma OtherOnRecord(lib: Lib, s: Sys, d: Domain, first: Times, u: Sys, mark: string)
    returns (before: seq<Step>, since: seq<Step>)
    requires WritesTo(lib, s, d, first, Lost, u, mark) && Complete(s) && Complete(u)
    requires Current(s).Some? && !Confirmed(s, d) && !Agrees(s.ctls[Rule(d)].known, mark)
    ensures AllPunctual(before, d) && AllPunctual(since, d)
    ensures Cycle(lib, u, d, mark, before, since, At(first.end), Answered)
  {
    hide Pass, Matched, DesiredPrint, InPlace, WithValues, Find, Runs, After, AllCalm, Calm, Finished, OutcomeOf;
    hide Yields, Suits, SameWishes, AllPunctual;
    var c, node, t := s.ctls[Rule(d)], Current(s).value, first.end;
    var w, cfg := WithValues(lib, c.work.cfg, d, node), SameWishes(lib, c.work.cfg, d, node);
    AfterFirst(lib, s, d, first, Lost, u, mark);
    SameWishesSuit(lib, c.work.cfg, d, node);
    var known := u.ctls[Rule(d)].known;
    NewConfig(lib, u, d, mark, s.cfg, w, known, t, cfg);
    var o := Confirms(lib, cfg, d, node, w, mark, known, t);
    var xs := StatusPass(lib, After(lib, u, [SetConfig(cfg)]), d, mark, cfg, w, known, t, o);
    FineJoin(lib, u, [SetConfig(cfg)], xs, d, mark);
    before := [SetConfig(cfg)] + xs;
    since := UndoneOnceTrue(lib, After(lib, u, before), d, mark, cfg, node, w, o.write.node, known, t);
  }

  /** The other writer puts the old values back into n, which is w with a condition that says True. */
  lemma UndoneOnceTrue(lib: Lib, s: Sys, d: Domain, mark: string, cfg: Config, node: Node, w: Node, n: Node,
                       known: Known, t: int)
    returns (since: seq<Step>)
    requires Resting(s, d, cfg, n, known, t) && Suits(lib, cfg, d, node, w, mark) && RulesChanged(known, mark)
    requires n == w.(conditions := n.conditions) && SaysTrue(Find(n.conditions, ConditionOf(d)))
    ensures Fine(lib, s, since, d, mark)
    ensures var v := After(lib, s, since);
            Writes(lib, v, d, At(t), Answered) && Calm(lib, v, Finish(Rule(d), At(t), Answered), d, mark)
  {
    hide Pass, Matched, DesiredPrint, InPlace, WithValues, Find, Runs, After, AllCalm, Calm, Writes;
    hide Suits, AllPunctual;
    var old_ := node.(conditions := n.conditions);
    SuitsAnyConditions(lib, cfg, d, node, w, mark, old_);
    RivalWrites(lib, s, d, mark, cfg, n, known, t, old_);
    var ys := TakenForEdit(lib, After(lib, s, [Rewrite(Some(old_))]), d, mark, cfg, old_, known, t);
    FineJoin(lib, s, [Rewrite(Some(old_))], ys, d, mark);
    since := [Rewrite(Some(old_))] + ys;
  }

  // ---- The condition already says True

  /** Values restored right away, because they had held: if the answer is lost, they count as having held ever since. */
  lemma StillHeld(lib: Lib, cfg: Config, d: Domain, node: Node, known: Known, first: Times, t: int)
    requires SaysTrue(Find(node.conditions, ConditionOf(d))) && first.now <= first.later <= t
    requires Pass(lib, cfg, d, Some(node), known, first.now, first.later, first.stamp).write.Update?
    ensures var o := Pass(lib, cfg, d, Some(node), known, first.now, first.later, first.stamp);
            && Matched(lib, cfg, d, node) != []
            && Pass(lib, cfg, d, Some(node), o.known, t, t, t).write.Update?
  {
    hide Matched, InPlace, WithValues, DesiredPrint, DriftIn, WritersIn, Cooldown, UpToDate;
    var heartbeat := Find(node.conditions, ConditionOf(d)).value.heartbeat;
    DriftedVerdict(known, first.now, heartbeat);
  }

  /** The answer to such a write is lost, the condition never stopped saying True; the other writer puts the old values
      back, and they are written again at the very same time. */
  lemma TrueBefore(lib: Lib, s: Sys, d: Domain, first: Times, u: Sys, mark: string) returns (since: seq<Step>)
    requires WritesTo(lib, s, d, first, Lost, u, mark) && Complete(s) && Complete(u)
    requires Current(s).Some? && Confirmed(s, d)
    ensures AllPunctual(since, d) && Cycle(lib, u, d, mark, [], since, At(first.end), Answered)
  {
    hide Pass, Matched, DesiredPrint, InPlace, WithValues, Find, AllPunctual, Calm, Finished, OutcomeOf;
    var c, node, t := s.ctls[Rule(d)], Current(s).value, first.end;
    var w, cfg := WithValues(lib, c.work.cfg, d, node), c.work.cfg;
    AfterFirst(lib, s, d, first, Lost, u, mark);
    NotInPlace(lib, cfg, d, node);
    var known := u.ctls[Rule(d)].known;
    since := RivalUndoes(lib, u, d, mark, s.cfg, w, known, t, cfg, node);
    StillHeld(lib, cfg, d, node, c.known, first, t);
    var v := After(lib, u, since);
    Restores(lib, v, d, mark, cfg, node, known, t, Pass(lib, cfg, d, Some(node), known, t, t, t));
  }

  lemma RivalUndoes(lib: Lib, s: Sys, d: Domain, mark: string, cfg: Config, w: Node, known: Known, t: int,
                    cfg': Config, node: Node)
    returns (steps: seq<Step>)
    requires Resting(s, d, cfg, w, known, t) && node != w && node.conditions == w.conditions
    ensures Fine(lib, s, steps, d, mark) && AtWork(After(lib, s, steps), d, cfg', node, known, t)
  {
    hide Runs, After, AllCalm, AllPunctual;
    NewConfig(lib, s, d, mark, cfg, w, known, t, cfg');
    var s1 := After(lib, s, [SetConfig(cfg')]);
    RivalWrites(lib, s1, d, mark, cfg', w, known, t, node);
    FineJoin(lib, s, [SetConfig(cfg')], [Rewrite(Some(node))], d, mark);
    var s2 := After(lib, s1, [Rewrite(Some(node))]);
    var xs := Begin(lib, s2, d, mark, cfg', node, known, t);
    FineJoin(lib, s, [SetConfig(cfg')] + [Rewrite(Some(node))], xs, d, mark);
    steps := [SetConfig(cfg')] + [Rewrite(Some(node))] + xs;
  }

  // ---- Exactly when

  /** However calm and punctual, no cycle from s on writes values again within 0.5 s of t. */
  ghost predicate Spaced(lib: Lib, s: Sys, d: Domain, mark: string, t: int)
    requires Complete(s)
  {
    forall before, since, second, last |
      Cycle(lib, s, d, mark, before, since, second, last) && AllPunctual(before, d) && AllPunctual(since, d) ::
      second.later - t >= MIN_COOLDOWN
  }

  lemma NoticedIsSpaced(lib: Lib, s: Sys, d: Domain, first: Times, answer: Answer, u: Sys, mark: string)
    requires WritesTo(lib, s, d, first, answer, u, mark) && Complete(s) && Complete(u) && Noticed(s, d, answer, mark)
    ensures Spaced(lib, u, d, mark, first.end)
  {
    hide Cycle, AllPunctual, Noticed, WritesTo;
    forall before, since, second, last |
      Cycle(lib, u, d, mark, before, since, second, last) && AllPunctual(before, d) && AllPunctual(since, d)
      ensures second.later - first.end >= MIN_COOLDOWN
    {
      ConfirmedCyclesAreSpaced(lib, s, d, first, answer, u, mark, before, since, second, last);
    }
  }

  lemma UnnoticedIsNot(lib: Lib, s: Sys, d: Domain, first: Times, u: Sys, mark: string)
    requires WritesTo(lib, s, d, first, Lost, u, mark) && Complete(s) && Complete(u) && !Noticed(s, d, Lost, mark)
    ensures !Spaced(lib, u, d, mark, first.end)
  {
    hide Cycle, AllPunctual, Agrees, Confirmed, WritesTo;
    WriteStored(lib, s, d, first, Lost, u, mark);
    var before, since := [], [];
    if Confirmed(s, d) {
      NonePunctual(d);
      since := TrueBefore(lib, s, d, first, u, mark);
    } else {
      before, since := OtherOnRecord(lib, s, d, first, u, mark);
    }
    assert At(first.end).later - first.end < MIN_COOLDOWN;
  }

  lemma NonePunctual(d: Domain)
    ensures AllPunctual([], d)
  {
  }

  /** Confirmed cycles that start with a stored value write are spaced if and only if its answer arrives, or nothing
      else is on record and the condition did not say True before. */
  lemma SpacedExactly(lib: Lib, s: Sys, d: Domain, first: Times, answer: Answer, u: Sys, mark: string)
    requires WritesTo(lib, s, d, first, answer, u, mark) && Complete(s) && Complete(u)
    ensures Spaced(lib, u, d, mark, first.end) <==> Noticed(s, d, answer, mark)
  {
    hide Spaced, Confirmed, Agrees, OutcomeOf, Finished, Enabled;
    if Noticed(s, d, answer, mark) {
      NoticedIsSpaced(lib, s, d, first, answer, u, mark);
    } else {
      UnnoticedIsNot(lib, s, d, first, u, mark);
    }
  }

  // ---- Confirmed in between or not

  /** From s on: a calm run to a stored value write at second. */
  ghost predicate WritesAgain(lib: Lib, s: Sys, d: Domain, mark: string, steps: seq<Step>, second: Times, last: Answer)
    requires Complete(s)
  {
    && Runs(lib, s, steps) && AllCalm(lib, s, steps, d, mark)
    && var m := After(lib, s, steps);
    && Writes(lib, m, d, second, last) && Calm(lib, m, Finish(Rule(d), second, last), d, mark)
  }

  /** However calm and punctual, no run from s on writes values again within 0.5 s of t. */
  ghost predicate Cooled(lib: Lib, s: Sys, d: Domain, mark: string, t: int)
    requires Complete(s)
  {
    forall steps, second, last | WritesAgain(lib, s, d, mark, steps, second, last) && AllPunctual(steps, d) ::
      second.later - t >= MIN_COOLDOWN
  }

  lemma TrueIsCooled(lib: Lib, s: Sys, d: Domain, first: Times, u: Sys, mark: string)
    requires WritesTo(lib, s, d, first, Answered, u, mark) && Complete(s) && Complete(u)
    requires Current(s).Some? && Confirmed(s, d)
    ensures Cooled(lib, u, d, mark, first.end)
  {
    hide AllPunctual, WritesTo, AllCalm, Writes, Calm, Find;
    WriteStored(lib, s, d, first, Answered, u, mark);
    forall steps, second, last | WritesAgain(lib, u, d, mark, steps, second, last) && AllPunctual(steps, d)
      ensures second.later - first.end >= MIN_COOLDOWN
    {
      NoCalmSteps(lib, u, d, mark);
      assert Cycle(lib, u, d, mark, [], steps, second, last);
      ConfirmedCyclesAreSpaced(lib, s, d, first, Answered, u, mark, [], steps, second, last);
    }
  }

  lemma NoCalmSteps(lib: Lib, s: Sys, d: Domain, mark: string)
    requires Complete(s)
    ensures Runs(lib, s, []) && After(lib, s, []) == s && AllCalm(lib, s, [], d, mark)
  {
  }

  /** The condition did not say True; the other writer puts the old values back before it does, and they are written
      again at the very same time, whether the answer arrived or not. */
  lemma UndoneUnconfirmed(lib: Lib, s: Sys, d: Domain, first: Times, answer: Answer, u: Sys, mark: string)
    returns (steps: seq<Step>)
    requires WritesTo(lib, s, d, first, answer, u, mark) && Complete(s) && Complete(u)
    requires Current(s).Some? && !Confirmed(s, d)
    ensures AllPunctual(steps, d) && WritesAgain(lib, u, d, mark, steps, At(first.end), Answered)
  {
    hide Pass, Matched, DesiredPrint, InPlace, WithValues, Find, AllPunctual, Calm, Finished, OutcomeOf;
    var c, node, t := s.ctls[Rule(d)], Current(s).value, first.end;
    var w, cfg := WithValues(lib, c.work.cfg, d, node), c.work.cfg;
    AfterFirst(lib, s, d, first, answer, u, mark);
    NotInPlace(lib, cfg, d, node);
    var known := u.ctls[Rule(d)].known;
    steps := RivalUndoes(lib, u, d, mark, s.cfg, w, known, t, cfg, node);
    FightOutcome(lib, cfg, d, node, known, t);
    var v := After(lib, u, steps);
    Restores(lib, v, d, mark, cfg, node, known, t, Pass(lib, cfg, d, Some(node), known, t, t, t));
  }

  lemma UncooledAgain(lib: Lib, s: Sys, d: Domain, first: Times, answer: Answer, u: Sys, mark: string)
    requires WritesTo(lib, s, d, first, answer, u, mark) && Complete(s) && Complete(u) && Current(s).Some?
    requires answer == Lost || !Confirmed(s, d)
    ensures !Cooled(lib, u, d, mark, first.end)
  {
    hide AllPunctual, Agrees, Confirmed, WritesTo, AllCalm, Writes, Calm;
    var steps := [];
    if Confirmed(s, d) {
      steps := TrueBefore(lib, s, d, first, u, mark);
      NoCalmSteps(lib, u, d, mark);
      assert WritesAgain(lib, u, d, mark, steps, At(first.end), Answered);
    } else {
      steps := UndoneUnconfirmed(lib, s, d, first, answer, u, mark);
    }
    assert At(first.end).later - first.end < MIN_COOLDOWN;
  }

  /** When the cooldown keeps Kubeling out of a tight loop from a stored value write on, confirmed in between or not:
      if and only if the answer arrives and the condition says True all along, that is, if values that had held were
      restored right away. Any other write can be followed by another one at once. */
  lemma CooledExactly(lib: Lib, s: Sys, d: Domain, first: Times, answer: Answer, u: Sys, mark: string)
    requires WritesTo(lib, s, d, first, answer, u, mark) && Complete(s) && Complete(u)
    ensures Cooled(lib, u, d, mark, first.end) <==> answer == Answered && Current(s).Some? && Confirmed(s, d)
  {
    hide Cooled, Confirmed, Finished, Enabled, WritesTo;
    WriteStored(lib, s, d, first, answer, u, mark);
    AnswerKnown(lib, s, d, first, answer, u, mark);
    if answer == Answered && Confirmed(s, d) {
      TrueIsCooled(lib, s, d, first, u, mark);
    } else {
      UncooledAgain(lib, s, d, first, answer, u, mark);
    }
  }

  lemma AnswerKnown(lib: Lib, s: Sys, d: Domain, first: Times, answer: Answer, u: Sys, mark: string)
    requires WritesTo(lib, s, d, first, answer, u, mark)
    ensures answer != Refused
  {
    hide Enabled, OutcomeOf, Finished;
  }
}
