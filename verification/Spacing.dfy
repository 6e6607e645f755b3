/** How fast values can be written in a fight with another writer: what the cooldowns guarantee over whole runs, and
    what they do not. */
module Spacing {
  import opened Text
  import opened Kube
  import opened Conditions
  import opened Flaps
  import opened Reconcile
  import opened Protocol
  import opened Scheduling
  import Initialization

  // ---- What a pass does to the detector

  /** A pass forgets, resets after a rule change, records a drift, or leaves the detector alone. */
  lemma PassKnown(lib: Lib, cfg: Config, d: Domain, node: Option<Node>, known: Known, now: int, later: int, stamp: int)
    ensures var o := Pass(lib, cfg, d, node, known, now, later, stamp);
            || o.known == None
            || o.known == known
            || (&& o.known == Some(ZERO_STATE) && o.write.Status?
                && RulesChanged(known, DesiredPrint(lib, cfg, d, node.value)))
            || exists at :: o.known == Some(DriftedStep(known, now, at).state)
  {
    hide Matched, InPlace, WithValues, DesiredPrint, DriftIn, WritersIn;
    if node.Some? {
      var current := Find(node.value.conditions, ConditionOf(d));
      if SaysTrue(current) {
        var v := DriftedStep(known, now, current.value.heartbeat);
        assert !UpToDate(node.value.conditions, PendingCondition(ConditionOf(d), Matched(lib, cfg, d, node.value)));
      }
    }
  }

  // ---- No cooldown lasts longer than 64 s

  ghost predicate ShortCooldown(s: Sys, w: Who)
    requires Complete(s)
  {
    s.ctls[w].clock >= 0 && StateOf(s.ctls[w].known).until <= s.ctls[w].clock + MAX_COOLDOWN
  }

  lemma StepKeepsShort(lib: Lib, s: Sys, step: Step, w: Who)
    requires Complete(s) && Enabled(s, step) && ShortCooldown(s, w)
    ensures Complete(Do(lib, s, step)) && ShortCooldown(Do(lib, s, step), w)
  {
    hide Pass;
    DoComplete(lib, s, step);
    if step.Finish? && step.w == w && w.Rule? {
      var c, t := s.ctls[w], step.times;
      ShortAfterPass(lib, c.work.cfg, w.d, s.hist[c.work.snap], c.known, c.clock, t);
    }
  }

  lemma ShortAfterPass(lib: Lib, cfg: Config, d: Domain, node: Option<Node>, known: Known, clock: int, t: Times)
    requires 0 <= clock <= t.now && StateOf(known).until <= clock + MAX_COOLDOWN
    ensures StateOf(Pass(lib, cfg, d, node, known, t.now, t.later, t.stamp).known).until <= t.now + MAX_COOLDOWN
  {
    hide Pass;
    PassKnown(lib, cfg, d, node, known, t.now, t.later, t.stamp);
    var o := Pass(lib, cfg, d, node, known, t.now, t.later, t.stamp);
    if at :| o.known == Some(DriftedStep(known, t.now, at).state) {
      UntilStep(known, clock, DriftCall(t.now, at));
    }
  }

  lemma {:induction false} RunKeepsShort(lib: Lib, s: Sys, steps: seq<Step>, w: Who)
    requires Complete(s) && Runs(lib, s, steps) && ShortCooldown(s, w)
    ensures ShortCooldown(After(lib, s, steps), w)
    decreases |steps|
  {
    hide Do, Enabled, ShortCooldown;
    if steps != [] {
      StepKeepsShort(lib, s, steps[0], w);
      RunKeepsShort(lib, Do(lib, s, steps[0]), steps[1..], w);
    }
  }

  /** In every run: a pass never schedules itself for later than 64 s, and never for the past. */
  lemma DelayBounded(lib: Lib, s: Sys, steps: seq<Step>, w: Who, times: Times, answer: Answer)
    requires Initial(s) && Runs(lib, s, steps) && Enabled(After(lib, s, steps), Finish(w, times, answer))
    ensures var t := After(lib, s, steps);
            && StateOf(t.ctls[w].known).until <= t.ctls[w].clock + MAX_COOLDOWN
            && (OutcomeOf(lib, t, w, times).after.Some? ==> 0 < OutcomeOf(lib, t, w, times).after.value <= MAX_COOLDOWN)
  {
    hide Runs, After, Pass;
    RunKeepsShort(lib, s, steps, w);
    if w.Rule? {
      var t := After(lib, s, steps);
      var c := t.ctls[w];
      PassDelay(lib, c.work.cfg, w.d, t.hist[c.work.snap], c.known, c.clock, times);
    }
  }

  lemma PassDelay(lib: Lib, cfg: Config, d: Domain, node: Option<Node>, known: Known, clock: int, times: Times)
    requires clock <= times.now <= times.later && StateOf(known).until <= clock + MAX_COOLDOWN
    ensures var o := Pass(lib, cfg, d, node, known, times.now, times.later, times.stamp);
            o.after.Some? ==> 0 < o.after.value <= MAX_COOLDOWN
  {
    hide Matched, InPlace, WithValues, DesiredPrint, DriftIn, WritersIn;
    if node.Some? {
      var current := Find(node.value.conditions, ConditionOf(d));
      if SaysTrue(current) {
        DriftedVerdict(known, times.now, current.value.heartbeat);
        CooldownIsMin(StateOf(known).flaps + 1);
      }
    }
  }

  // ---- No value write during a cooldown

  /** Whatever its snapshot and configuration, a pass that sends values does so at a time when no cooldown runs. */
  lemma NoWriteWhileCooling(lib: Lib, s: Sys, w: Who, times: Times, answer: Answer)
    requires Complete(s) && Enabled(s, Finish(w, times, answer)) && w.Rule?
    ensures OutcomeOf(lib, s, w, times).write.Update? && s.ctls[w].known.Some? ==>
            !Cooling(s.ctls[w].known, times.later)
  {
    hide Pass;
    var c := s.ctls[w];
    CooldownRespected(lib, c.work.cfg, w.d, s.hist[c.work.snap], c.known, times.now, times.later, times.stamp);
  }

  // ---- Confirmed cycles are spaced

  /** A step that leaves the rules' wishes (identified by mark), the controller's condition and its memory alone:
      no deletion, every pass of w still wants the same, and other writers do not touch w's condition. */
  ghost predicate Calm(lib: Lib, s: Sys, step: Step, d: Domain, mark: string)
    requires Complete(s) && Enabled(s, step)
  {
    match step
    case Notify(w) => w == Rule(d) ==> s.ctls[w].inbox[0] != Gone
    case Finish(w, _, _) => w == Rule(d) ==>
      var c := s.ctls[w];
      var node := s.hist[c.work.snap];
      && node.Some?
      && Matched(lib, c.work.cfg, d, node.value) != []
      && DesiredPrint(lib, c.work.cfg, d, node.value) == mark
    case Rewrite(node) =>
      && node.Some? && Current(s).Some?
      && Find(node.value.conditions, ConditionOf(d)) == Find(Current(s).value.conditions, ConditionOf(d))
    case _ => true
  }

  ghost predicate AllCalm(lib: Lib, s: Sys, steps: seq<Step>, d: Domain, mark: string)
    requires Complete(s) && Runs(lib, s, steps)
    decreases |steps|
  {
    steps == [] || (
      && Calm(lib, s, steps[0], d, mark)
      && (DoComplete(lib, s, steps[0]); AllCalm(lib, Do(lib, s, steps[0]), steps[1..], d, mark)))
  }

  /** A condition written by d's controller carries a time at most a second before the pass: the API server keeps
      whole seconds. */
  predicate Punctual(step: Step, d: Domain) {
    step.Finish? && step.w == Rule(d) ==> step.times.stamp >= step.times.now - SECOND
  }

  ghost predicate AllPunctual(steps: seq<Step>, d: Domain) {
    forall i :: 0 <= i < |steps| ==> Punctual(steps[i], d)
  }

  /** Nothing the detector has on record makes it take mark for changed rules. */
  predicate Agrees(known: Known, mark: string) {
    StateOf(known).desired == "" || StateOf(known).desired == mark
  }

  /** If the condition says True, it was confirmed at floor or later. */
  predicate FreshlyTrue(node: Node, d: Domain, floor: int) {
    var c := Find(node.conditions, ConditionOf(d));
    SaysTrue(c) ==> c.value.heartbeat >= floor
  }

  /** Since a value write at time t: the detector agrees with mark; any cooldown is from before t, or reaches at least
      0.5 s beyond it; and the values are known, by record or by condition, to have been in place at floor or later. */
  ghost predicate Remembers(s: Sys, d: Domain, mark: string, t: int, floor: int)
    requires Complete(s)
  {
    var c := s.ctls[Rule(d)];
    && Current(s).Some?
    && c.clock >= t && Agrees(c.known, mark)
    && (StateOf(c.known).until <= t || StateOf(c.known).until >= t + MIN_COOLDOWN)
    && (Recorded(c, floor) || FreshlyTrue(Current(s).value, d, floor))
  }

  predicate Recorded(c: Ctl, floor: int) {
    StateOf(c.known).appliedAt >= floor
  }

  ghost predicate Confirmed(s: Sys, d: Domain)
    requires Complete(s) && Current(s).Some?
  {
    SaysTrue(Find(Current(s).value.conditions, ConditionOf(d)))
  }

  /** Once the condition was True: it still is, or a cooldown beyond t was set. */
  ghost predicate Guarded(s: Sys, d: Domain, mark: string, t: int, floor: int)
    requires Complete(s)
  {
    && Remembers(s, d, mark, t, floor)
    && (Confirmed(s, d) || StateOf(s.ctls[Rule(d)].known).until >= t + MIN_COOLDOWN)
  }

  /** What a step keeps: all of this, and a record once made. */
  ghost predicate Keeps(s: Sys, u: Sys, d: Domain, mark: string, t: int, floor: int)
    requires Complete(s) && Complete(u)
  {
    && Remembers(u, d, mark, t, floor)
    && (Guarded(s, d, mark, t, floor) ==> Guarded(u, d, mark, t, floor))
    && (Recorded(s.ctls[Rule(d)], floor) ==> Recorded(u.ctls[Rule(d)], floor))
  }

  /** Either the write is on record, or conditions are stamped in time to stand in for it. */
  ghost predicate Backed(c: Ctl, t: int, floor: int, punctual: bool) {
    floor <= t && (Recorded(c, floor) || (punctual && floor <= t - SECOND))
  }

  lemma {:induction false} FindWithout(a: seq<Condition>, b: seq<Condition>, u: ConditionType, t: ConditionType)
    requires t != u && Without(a, u) == Without(b, u)
    ensures Find(a, t) == Find(b, t)
  {
    FindInWithout(a, u, t);
    FindInWithout(b, u, t);
  }

  lemma {:induction false} FindInWithout(a: seq<Condition>, u: ConditionType, t: ConditionType)
    requires t != u
    ensures Find(a, t) == Find(Without(a, u), t)
  {
    if a != [] {
      FindInWithout(a[1..], u, t);
      if a[0].kind != u {
        assert Without(a, u)[1..] == Without(a[1..], u);
      }
    }
  }

  /** What a calm pass of d's own controller does to its detector. */
  lemma CalmKnown(lib: Lib, cfg: Config, d: Domain, node: Node, known: Known, now: int, later: int, stamp: int, t: int)
    requires t <= now <= later
    requires Matched(lib, cfg, d, node) != [] && Agrees(known, DesiredPrint(lib, cfg, d, node))
    requires StateOf(known).until <= t || StateOf(known).until >= t + MIN_COOLDOWN
    ensures var o := Pass(lib, cfg, d, Some(node), known, now, later, stamp);
            && StateOf(o.known).appliedAt == StateOf(known).appliedAt
            && StateOf(o.known).desired == StateOf(known).desired
            && (StateOf(o.known).until <= t || StateOf(o.known).until >= t + MIN_COOLDOWN)
            && StateOf(o.known).until >= StateOf(known).until
  {
    hide Matched, InPlace, WithValues, DesiredPrint, DriftIn, WritersIn;
    var current := Find(node.conditions, ConditionOf(d));
    if SaysTrue(current) { CooldownIsMin(StateOf(known).flaps + 1); }
  }

  /** A calm pass over a Node whose condition says True takes that back only together with a running cooldown. */
  lemma CalmCondition(lib: Lib, cfg: Config, d: Domain, node: Node, known: Known, now: int, later: int, stamp: int)
    requires now <= later
    requires Matched(lib, cfg, d, node) != [] && Agrees(known, DesiredPrint(lib, cfg, d, node))
    requires SaysTrue(Find(node.conditions, ConditionOf(d)))
    requires Pass(lib, cfg, d, Some(node), known, now, later, stamp).write != Nothing
    ensures var o := Pass(lib, cfg, d, Some(node), known, now, later, stamp);
            SaysTrue(Find(o.write.node.conditions, ConditionOf(d))) || Cooling(o.known, now)
  {
    hide Matched, WithValues, DesiredPrint, DriftIn, WritersIn, InPlace;
    var o := Pass(lib, cfg, d, Some(node), known, now, later, stamp);
    var current := Find(node.conditions, ConditionOf(d));
    DriftedVerdict(known, now, current.value.heartbeat);
    if o.write.Status? {
      var desired := StatusIsSet(lib, cfg, d, node, known, now, later, stamp);
      SetEffect(node.conditions, desired, stamp, ConditionOf(d));
    } else {
      WritesOwnPart(lib, cfg, d, node, known, now, later, stamp);
    }
  }

  /** A condition that a pass leaves True is as fresh as its stamp, or as before. */
  lemma CalmFresh(lib: Lib, cfg: Config, d: Domain, node: Node, known: Known, now: int, later: int, stamp: int,
                  floor: int)
    requires Matched(lib, cfg, d, node) != []
    requires FreshlyTrue(node, d, floor) && stamp >= floor
    requires Pass(lib, cfg, d, Some(node), known, now, later, stamp).write != Nothing
    ensures FreshlyTrue(Pass(lib, cfg, d, Some(node), known, now, later, stamp).write.node, d, floor)
  {
    hide Pass, Matched, Find, SaysTrue;
    if Pass(lib, cfg, d, Some(node), known, now, later, stamp).write.Status? {
      var desired := StatusIsSet(lib, cfg, d, node, known, now, later, stamp);
      SetEffect(node.conditions, desired, stamp, ConditionOf(d));
    } else {
      WritesOwnPart(lib, cfg, d, node, known, now, later, stamp);
    }
  }

  lemma OthersKeepCondition(lib: Lib, w: Who, cfg: Config, node: Node, known: Known, times: Times, d: Domain)
    requires w != Rule(d) && Computed(lib, w, cfg, Some(node), known, times).write != Nothing
    ensures Find(Computed(lib, w, cfg, Some(node), known, times).write.node.conditions, ConditionOf(d)) ==
            Find(node.conditions, ConditionOf(d))
  {
    hide Pass, Initialization.InitWrite;
    match w {
      case Init => Initialization.InitSafety(lib, cfg, node);
      case Rule(e) =>
        WritesOwnPart(lib, cfg, e, node, known, times.now, times.later, times.stamp);
        var n := Computed(lib, w, cfg, Some(node), known, times).write.node;
        FindWithout(n.conditions, node.conditions, ConditionOf(e), ConditionOf(d));
    }
  }

  lemma UpdateMark(lib: Lib, cfg: Config, d: Domain, node: Node, known: Known, now: int, later: int, stamp: int)
    requires Pass(lib, cfg, d, Some(node), known, now, later, stamp).write.Update?
    ensures Pass(lib, cfg, d, Some(node), known, now, later, stamp).write.mark == DesiredPrint(lib, cfg, d, node)
  {
    hide Matched, WithValues, DesiredPrint, DriftIn, WritersIn, InPlace;
  }

  lemma RuleOutcome(lib: Lib, s: Sys, d: Domain, times: Times)
    requires Complete(s) && s.ctls[Rule(d)].work.Ready?
    ensures var c := s.ctls[Rule(d)];
            OutcomeOf(lib, s, Rule(d), times) ==
            Pass(lib, c.work.cfg, d, s.hist[c.work.snap], c.known, times.now, times.later, times.stamp)
  {
    hide Pass, Initialization.InitWrite;
  }

  /** What a calm pass of d's own controller comes to. */
  lemma OwnOutcome(lib: Lib, s: Sys, d: Domain, times: Times, answer: Answer, mark: string, t: int, floor: int)
    requires Complete(s) && Enabled(s, Finish(Rule(d), times, answer))
    requires Calm(lib, s, Finish(Rule(d), times, answer), d, mark) && Remembers(s, d, mark, t, floor)
    requires Backed(s.ctls[Rule(d)], t, floor, Punctual(Finish(Rule(d), times, answer), d))
    ensures var c, o := s.ctls[Rule(d)], OutcomeOf(lib, s, Rule(d), times);
            && StateOf(o.known).appliedAt == StateOf(c.known).appliedAt
            && StateOf(o.known).desired == StateOf(c.known).desired
            && (StateOf(o.known).until <= t || StateOf(o.known).until >= t + MIN_COOLDOWN)
            && StateOf(o.known).until >= StateOf(c.known).until
            && (o.write.Update? ==> o.write.mark == mark)
            && (o.write != Nothing && c.work.snap == Last(s) ==>
                  && (Confirmed(s, d) ==>
                        SaysTrue(Find(o.write.node.conditions, ConditionOf(d))) || Cooling(o.known, times.now))
                  && (Recorded(c, floor) || FreshlyTrue(o.write.node, d, floor)))
  {
    hide Pass, Matched, DesiredPrint, FreshlyTrue, Computed, OutcomeOf;
    RuleOutcome(lib, s, d, times);
    var c := s.ctls[Rule(d)];
    var node := s.hist[c.work.snap].value;
    var o := OutcomeOf(lib, s, Rule(d), times);
    CalmKnown(lib, c.work.cfg, d, node, c.known, times.now, times.later, times.stamp, t);
    if o.write.Update? {
      UpdateMark(lib, c.work.cfg, d, node, c.known, times.now, times.later, times.stamp);
    }
    if o.write != Nothing && c.work.snap == Last(s) {
      if Confirmed(s, d) { CalmCondition(lib, c.work.cfg, d, node, c.known, times.now, times.later, times.stamp); }
      if !Recorded(c, floor) {
        CalmFresh(lib, c.work.cfg, d, node, c.known, times.now, times.later, times.stamp, floor);
      }
    }
  }

  lemma OwnFinish(lib: Lib, s: Sys, d: Domain, times: Times, answer: Answer, mark: string, t: int, floor: int)
    requires Complete(s) && Enabled(s, Finish(Rule(d), times, answer))
    requires Calm(lib, s, Finish(Rule(d), times, answer), d, mark) && Remembers(s, d, mark, t, floor)
    requires Backed(s.ctls[Rule(d)], t, floor, Punctual(Finish(Rule(d), times, answer), d))
    ensures var u := Finished(lib, s, Rule(d), times, answer);
            Complete(u) && Keeps(s, u, d, mark, t, floor)
  {
    hide OutcomeOf, Find, SaysTrue, FreshlyTrue, Calm;
    OwnOutcome(lib, s, d, times, answer, mark, t, floor);
  }

  /** Nothing that matters for d changes from s to u. */
  ghost predicate SameFor(s: Sys, u: Sys, d: Domain)
    requires Complete(s) && Complete(u)
  {
    && u.ctls[Rule(d)].known == s.ctls[Rule(d)].known && u.ctls[Rule(d)].clock == s.ctls[Rule(d)].clock
    && Current(s).Some? && Current(u).Some?
    && Find(Current(u).value.conditions, ConditionOf(d)) == Find(Current(s).value.conditions, ConditionOf(d))
  }

  lemma SameKeeps(s: Sys, u: Sys, d: Domain, mark: string, t: int, floor: int)
    requires Complete(s) && Complete(u) && SameFor(s, u, d) && Remembers(s, d, mark, t, floor)
    ensures Keeps(s, u, d, mark, t, floor)
  {
    hide Find;
  }

  lemma OtherFinish(lib: Lib, s: Sys, w: Who, times: Times, answer: Answer, d: Domain)
    requires Complete(s) && Enabled(s, Finish(w, times, answer)) && w != Rule(d) && Current(s).Some?
    ensures var u := Finished(lib, s, w, times, answer); Complete(u) && SameFor(s, u, d)
  {
    hide Computed, Find;
    var c := s.ctls[w];
    var o := OutcomeOf(lib, s, w, times);
    if o.write != Nothing && c.work.snap == Last(s) {
      OthersKeepCondition(lib, w, c.work.cfg, Current(s).value, c.known, times, d);
    }
  }

  lemma QuietStep(lib: Lib, s: Sys, step: Step, d: Domain, mark: string)
    requires Complete(s) && Enabled(s, step) && Calm(lib, s, step, d, mark) && !step.Finish? && Current(s).Some?
    ensures var u := Do(lib, s, step); Complete(u) && SameFor(s, u, d)
  {
    hide Matched, DesiredPrint, Finished, Find;
    DoComplete(lib, s, step);
  }

  lemma CalmStep(lib: Lib, s: Sys, step: Step, d: Domain, mark: string, t: int, floor: int)
    requires Complete(s) && Enabled(s, step) && Calm(lib, s, step, d, mark) && Remembers(s, d, mark, t, floor)
    requires Backed(s.ctls[Rule(d)], t, floor, Punctual(step, d))
    ensures var u := Do(lib, s, step);
            Complete(u) && Keeps(s, u, d, mark, t, floor)
  {
    hide Finished, Enabled, Calm, Backed, Keeps, SameFor;
    if step.Finish? && step.w == Rule(d) {
      OwnFinish(lib, s, d, step.times, step.answer, mark, t, floor);
    } else {
      if step.Finish? {
        OtherFinish(lib, s, step.w, step.times, step.answer, d);
      } else {
        QuietStep(lib, s, step, d, mark);
      }
      SameKeeps(s, Do(lib, s, step), d, mark, t, floor);
    }
  }

  lemma {:induction false} CalmRun(lib: Lib, s: Sys, steps: seq<Step>, d: Domain, mark: string, t: int, floor: int)
    requires Complete(s) && Runs(lib, s, steps) && AllCalm(lib, s, steps, d, mark) && Remembers(s, d, mark, t, floor)
    requires Backed(s.ctls[Rule(d)], t, floor, AllPunctual(steps, d))
    ensures Keeps(s, After(lib, s, steps), d, mark, t, floor)
    decreases |steps|
  {
    hide Do, Enabled, Calm, Remembers, Guarded, Punctual, Recorded;
    if steps != [] {
      CalmStep(lib, s, steps[0], d, mark, t, floor);
      CalmRun(lib, Do(lib, s, steps[0]), steps[1..], d, mark, t, floor);
    }
  }

  // ---- From one value write to the next

  /** A value write of d that the server stores; the client may or may not hear of it. */
  ghost predicate Writes(lib: Lib, s: Sys, d: Domain, first: Times, answer: Answer)
    requires Complete(s)
  {
    && Enabled(s, Finish(Rule(d), first, answer)) && s.ctls[Rule(d)].clock >= 0 && answer != Refused
    && s.ctls[Rule(d)].work.snap == Last(s) && OutcomeOf(lib, s, Rule(d), first).write.Update?
  }

  /** Such a write takes s to u; mark is the fingerprint of its values. */
  ghost predicate WritesTo(lib: Lib, s: Sys, d: Domain, first: Times, answer: Answer, u: Sys, mark: string) {
    && Complete(s) && Complete(u) && Writes(lib, s, d, first, answer)
    && u == Finished(lib, s, Rule(d), first, answer) && mark == OutcomeOf(lib, s, Rule(d), first).write.mark
  }

  /** The detector can tell this write and its confirmation from older ones: the answer arrives, or nothing else is on
      record and the condition does not say True yet. */
  ghost predicate Noticed(s: Sys, d: Domain, answer: Answer, mark: string)
    requires Complete(s)
  {
    answer == Answered || (Agrees(s.ctls[Rule(d)].known, mark) && Current(s).Some? && !Confirmed(s, d))
  }

  /** The outcome of a value write: the conditions, the record and the end of the cooldown, all as they were. */
  lemma WriteOutcome(lib: Lib, s: Sys, d: Domain, times: Times, answer: Answer)
    requires Complete(s) && Writes(lib, s, d, times, answer)
    ensures var o, was := OutcomeOf(lib, s, Rule(d), times), StateOf(s.ctls[Rule(d)].known);
            && Current(s).Some? && o.write.node.conditions == Current(s).value.conditions
            && StateOf(o.known).desired == was.desired && StateOf(o.known).until == was.until <= times.end
  {
    hide Pass, Computed, OutcomeOf;
    RuleOutcome(lib, s, d, times);
    var c := s.ctls[Rule(d)];
    PassWrites(lib, c.work.cfg, d, s.hist[c.work.snap], c.known, times);
  }

  lemma PassWrites(lib: Lib, cfg: Config, d: Domain, node: Option<Node>, known: Known, times: Times)
    requires 0 <= times.now <= times.later
    requires Pass(lib, cfg, d, node, known, times.now, times.later, times.stamp).write.Update?
    ensures var o := Pass(lib, cfg, d, node, known, times.now, times.later, times.stamp);
            && node.Some? && o.write.node.conditions == node.value.conditions
            && StateOf(o.known).desired == StateOf(known).desired
            && StateOf(o.known).until == StateOf(known).until <= times.later
  {
    hide Pass;
    CooldownRespected(lib, cfg, d, node, known, times.now, times.later, times.stamp);
    PassNeedsNode(lib, cfg, d, node, known, times.now, times.later, times.stamp);
    WritesOwnPart(lib, cfg, d, node.value, known, times.now, times.later, times.stamp);
    UpdateKeepsRecord(lib, cfg, d, node.value, known, times);
  }

  /** What it leaves once stored; if the answer arrives, it is put on record. */
  lemma WriteStored(lib: Lib, s: Sys, d: Domain, times: Times, answer: Answer, u: Sys, mark: string)
    requires WritesTo(lib, s, d, times, answer, u, mark) && Complete(s) && Complete(u)
    ensures && Current(s).Some? && Current(u).Some?
            && Current(u).value.conditions == Current(s).value.conditions
            && u.ctls[Rule(d)].clock == times.end
            && StateOf(u.ctls[Rule(d)].known).until <= times.end
            && StateOf(u.ctls[Rule(d)].known).desired ==
               (if answer == Answered then mark else StateOf(s.ctls[Rule(d)].known).desired)
            && (answer == Answered ==> StateOf(u.ctls[Rule(d)].known).appliedAt == times.end)
  {
    hide Computed;
    WriteOutcome(lib, s, d, times, answer);
  }

  function FloorOf(t: int, answer: Answer): int {
    if answer == Lost then t - SECOND else t
  }

  lemma WriteRemembered(lib: Lib, s: Sys, d: Domain, times: Times, answer: Answer, u: Sys, mark: string)
    requires WritesTo(lib, s, d, times, answer, u, mark) && Complete(s) && Complete(u) && Noticed(s, d, answer, mark)
    ensures Remembers(u, d, mark, times.end, FloorOf(times.end, answer))
    ensures answer == Answered ==> Recorded(u.ctls[Rule(d)], times.end)
    ensures answer != Refused
  {
    hide Finished, Find;
    assert answer != Refused;
    hide WritesTo;
    WriteStored(lib, s, d, times, answer, u, mark);
  }

  /** A pass that writes values keeps the detector's record and the end of its cooldown. */
  lemma UpdateKeepsRecord(lib: Lib, cfg: Config, d: Domain, node: Node, known: Known, times: Times)
    requires Pass(lib, cfg, d, Some(node), known, times.now, times.later, times.stamp).write.Update?
    ensures var o := Pass(lib, cfg, d, Some(node), known, times.now, times.later, times.stamp);
            && StateOf(o.known).desired == StateOf(known).desired && StateOf(o.known).until == StateOf(known).until
            && StateOf(o.known).appliedAt == StateOf(known).appliedAt
  {
    hide Matched, WithValues, DesiredPrint, DriftIn, WritersIn, InPlace;
    var current := Find(node.conditions, ConditionOf(d));
    if SaysTrue(current) { DriftedVerdict(known, times.now, current.value.heartbeat); }
  }

  /** From s on: a calm run to a state where d's condition is True, a calm run from there, and then a stored value
      write at second. */
  ghost predicate Cycle(lib: Lib, s: Sys, d: Domain, mark: string, before: seq<Step>, since: seq<Step>,
                        second: Times, answer: Answer)
    requires Complete(s)
  {
    && Runs(lib, s, before) && AllCalm(lib, s, before, d, mark)
    && var s2 := After(lib, s, before);
    && Current(s2).Some? && Confirmed(s2, d)
    && Runs(lib, s2, since) && AllCalm(lib, s2, since, d, mark)
    && var s3 := After(lib, s2, since);
    && Writes(lib, s3, d, second, answer) && Calm(lib, s3, Finish(Rule(d), second, answer), d, mark)
  }

  /** Values are written and confirmed (the condition says True at some point afterwards); while rules and matches
      stay, nothing is forgotten, the Node is not deleted and nobody else sets the condition, the next stored value
      write comes at least 0.5 s after the first; and more than 128 s after it (127 s if the answer to the first was
      lost) if it restores the values right away. In between anything may happen, any number of times: other writers'
      changes, stale passes, conflicts, lost answers. If the answer to the first write is lost, it takes more: that
      nothing else is on record, that the condition was not True before, and that it is stamped in time. */
  lemma ConfirmedCyclesAreSpaced(lib: Lib, s: Sys, d: Domain, first: Times, answer: Answer, u: Sys, mark: string,
                                 before: seq<Step>, since: seq<Step>, second: Times, last: Answer)
    requires WritesTo(lib, s, d, first, answer, u, mark) && Complete(s) && Complete(u) && Noticed(s, d, answer, mark)
    requires answer == Lost ==> AllPunctual(before, d) && AllPunctual(since, d)
    requires Cycle(lib, u, d, mark, before, since, second, last)
    ensures second.later - first.end >= MIN_COOLDOWN
    ensures var t := After(lib, After(lib, u, before), since);
            Current(t).Some? && Confirmed(t, d) ==> second.now - FloorOf(first.end, answer) > FLAP_WINDOW
  {
    hide Computed, Runs, After, AllCalm, Remembers, Calm, Confirmed, AllPunctual, Agrees, Recorded, WritesTo, Noticed;
    var floor := FloorOf(first.end, answer);
    WriteRemembered(lib, s, d, first, answer, u, mark);
    CalmRun(lib, u, before, d, mark, first.end, floor);
    var m := After(lib, u, before);
    CalmRun(lib, m, since, d, mark, first.end, floor);
    SecondWrite(lib, After(lib, m, since), d, second, last, mark, first.end, floor);
  }

  lemma SecondWrite(lib: Lib, s: Sys, d: Domain, times: Times, answer: Answer, mark: string, t: int, floor: int)
    requires Complete(s) && Writes(lib, s, d, times, answer) && Calm(lib, s, Finish(Rule(d), times, answer), d, mark)
    requires Guarded(s, d, mark, t, floor) && t - SECOND <= floor
    ensures times.later - t >= MIN_COOLDOWN && (Confirmed(s, d) ==> times.now - floor > FLAP_WINDOW)
  {
    hide Matched, DesiredPrint, Pass;
    var c := s.ctls[Rule(d)];
    var node := Current(s).value;
    CooldownRespected(lib, c.work.cfg, d, Some(node), c.known, times.now, times.later, times.stamp);
    if Confirmed(s, d) {
      RestoreHeld(lib, c.work.cfg, d, node, c.known, times.now, times.later, times.stamp);
    }
  }

  lemma RestoreHeld(lib: Lib, cfg: Config, d: Domain, node: Node, known: Known, now: int, later: int, stamp: int)
    requires SaysTrue(Find(node.conditions, ConditionOf(d)))
    requires Pass(lib, cfg, d, Some(node), known, now, later, stamp).write.Update?
    ensures now - LastApplied(known, Find(node.conditions, ConditionOf(d)).value.heartbeat) > FLAP_WINDOW
  {
    hide Matched, WithValues, DesiredPrint, DriftIn, WritersIn, InPlace;
    DriftedVerdict(known, now, Find(node.conditions, ConditionOf(d)).value.heartbeat);
  }

  // ---- Unconfirmed cycles are not

  /** If another writer undoes the values before the condition turns True, Kubeling writes them again at once, any
      number of times, all at the same instant: the cooldown only protects confirmed values. */
  lemma {:induction false} UnconfirmedFight(lib: Lib, s: Sys, d: Domain, node: Node, t: int, n: nat)
    returns (steps: seq<Step>)
    requires Complete(s) && s.ctls[Rule(d)].work == Idle && Current(s) == Some(node)
    requires Matched(lib, s.cfg, d, node) != [] && !InPlace(lib, s.cfg, d, node)
    requires Find(node.conditions, ConditionOf(d)).Some? && !SaysTrue(Find(node.conditions, ConditionOf(d)))
    requires s.ctls[Rule(d)].clock <= t && !Cooling(s.ctls[Rule(d)].known, t)
    ensures Runs(lib, s, steps)
    ensures var u := After(lib, s, steps);
            && |u.hist| == |s.hist| + 2 * n
            && u.ctls[Rule(d)].clock == (if n == 0 then s.ctls[Rule(d)].clock else t)
            && s.hist <= u.hist
            && forall i :: 0 <= i < n ==> u.hist[|s.hist| + 2 * i] == Some(WithValues(lib, s.cfg, d, node))
                                          && u.hist[|s.hist| + 2 * i + 1] == Some(node)
    decreases n
  {
    hide Do, Enabled, Matched, InPlace, WithValues, Runs, After;
    if n == 0 {
      steps := NoSteps(lib, s);
    } else {
      var xs := FightRound(lib, s, d, node, t);
      var m := After(lib, s, xs);
      var ys := UnconfirmedFight(lib, m, d, node, t, n - 1);
      Join(lib, s, xs, ys);
      steps := xs + ys;
      var u := After(lib, s, steps);
      forall i | 0 <= i < n
        ensures u.hist[|s.hist| + 2 * i] == Some(WithValues(lib, s.cfg, d, node))
        ensures u.hist[|s.hist| + 2 * i + 1] == Some(node)
      {
        if i > 0 {
          assert u.hist[|m.hist| + 2 * (i - 1)] == Some(WithValues(lib, s.cfg, d, node));
        }
      }
    }
  }

  lemma FightRound(lib: Lib, s: Sys, d: Domain, node: Node, t: int) returns (steps: seq<Step>)
    requires Complete(s) && s.ctls[Rule(d)].work == Idle && Current(s) == Some(node)
    requires Matched(lib, s.cfg, d, node) != [] && !InPlace(lib, s.cfg, d, node)
    requires Find(node.conditions, ConditionOf(d)).Some? && !SaysTrue(Find(node.conditions, ConditionOf(d)))
    requires s.ctls[Rule(d)].clock <= t && !Cooling(s.ctls[Rule(d)].known, t)
    ensures Runs(lib, s, steps)
    ensures var u := After(lib, s, steps);
            && u.hist == s.hist + [Some(WithValues(lib, s.cfg, d, node)), Some(node)]
            && u.cfg == s.cfg && u.ctls[Rule(d)].work == Idle && u.ctls[Rule(d)].clock == t
            && !Cooling(u.ctls[Rule(d)].known, t)
  {
    hide Matched, WithValues, InPlace, Runs, After, Do, Enabled;
    var xs := StartFresh(lib, s, Rule(d));
    var s1 := After(lib, s, xs);
    var last := Finish(Rule(d), At(t), Answered);
    FightPass(lib, s1, d, node, t);
    Extend(lib, s, xs, last);
    var s2 := After(lib, s, xs + [last]);
    NotInPlace(lib, s.cfg, d, node);
    FightUndo(lib, s2, d, node);
    Extend(lib, s, xs + [last], Rewrite(Some(node)));
    steps := xs + [last] + [Rewrite(Some(node))];
    assert s2.hist + [Some(node)] == s.hist + [Some(WithValues(lib, s.cfg, d, node)), Some(node)];
  }

  /** u is s after an accepted value write of w at time t that left the cooldown as it was. */
  ghost predicate Wrote(s: Sys, u: Sys, d: Domain, w: Node, t: int) {
    && Rule(d) in s.ctls && Rule(d) in u.ctls
    && u.hist == s.hist + [Some(w)] && u.cfg == s.cfg
    && u.ctls[Rule(d)].work == Idle && u.ctls[Rule(d)].clock == t
    && StateOf(u.ctls[Rule(d)].known).until == StateOf(s.ctls[Rule(d)].known).until
  }

  lemma FightPass(lib: Lib, s: Sys, d: Domain, node: Node, t: int)
    requires Complete(s) && s.ctls[Rule(d)].work == Ready(Last(s), s.cfg) && Current(s) == Some(node)
    requires Matched(lib, s.cfg, d, node) != [] && !InPlace(lib, s.cfg, d, node)
    requires Find(node.conditions, ConditionOf(d)).Some? && !SaysTrue(Find(node.conditions, ConditionOf(d)))
    requires s.ctls[Rule(d)].clock <= t && !Cooling(s.ctls[Rule(d)].known, t)
    ensures Enabled(s, Finish(Rule(d), At(t), Answered))
    ensures Wrote(s, Do(lib, s, Finish(Rule(d), At(t), Answered)), d, WithValues(lib, s.cfg, d, node), t)
  {
    hide Pass, Matched, WithValues, InPlace, DesiredPrint, Find, SaysTrue, Do, OutcomeOf, Computed, Enabled;
    RuleOutcome(lib, s, d, At(t));
    NotInPlace(lib, s.cfg, d, node);
    FightOutcome(lib, s.cfg, d, node, s.ctls[Rule(d)].known, t);
    UpdateStored(lib, s, d, At(t), WithValues(lib, s.cfg, d, node), DesiredPrint(lib, s.cfg, d, node));
  }

  /** The effect of an accepted, answered value write that leaves the detector's cooldown as it was. */
  lemma UpdateStored(lib: Lib, s: Sys, d: Domain, times: Times, w: Node, mark: string)
    requires Complete(s) && s.ctls[Rule(d)].work.Ready? && s.ctls[Rule(d)].work.snap == Last(s) && Current(s) != Some(w)
    requires OutcomeOf(lib, s, Rule(d), times) == Outcome(s.ctls[Rule(d)].known, Update(w, mark), None)
    requires s.ctls[Rule(d)].clock <= times.now <= times.later <= times.end && times.stamp <= times.end
    ensures Enabled(s, Finish(Rule(d), times, Answered))
    ensures Wrote(s, Do(lib, s, Finish(Rule(d), times, Answered)), d, w, times.end)
  {
    hide Computed;
  }

  lemma FightOutcome(lib: Lib, cfg: Config, d: Domain, node: Node, known: Known, t: int)
    requires Matched(lib, cfg, d, node) != [] && !InPlace(lib, cfg, d, node)
    requires Find(node.conditions, ConditionOf(d)).Some? && !SaysTrue(Find(node.conditions, ConditionOf(d)))
    requires !Cooling(known, t)
    ensures Pass(lib, cfg, d, Some(node), known, t, t, t) ==
            Outcome(known, Update(WithValues(lib, cfg, d, node), DesiredPrint(lib, cfg, d, node)), None)
  {
    hide Matched, WithValues, InPlace, DesiredPrint, DriftIn, WritersIn;
  }

  lemma NotInPlace(lib: Lib, cfg: Config, d: Domain, node: Node)
    ensures !InPlace(lib, cfg, d, node) ==> WithValues(lib, cfg, d, node) != node
  {
  }

  lemma FightUndo(lib: Lib, s: Sys, d: Domain, node: Node)
    requires Complete(s) && Current(s) != Some(node)
    ensures Enabled(s, Rewrite(Some(node)))
    ensures var u := Do(lib, s, Rewrite(Some(node)));
            u.hist == s.hist + [Some(node)] && u.cfg == s.cfg && u.ctls == s.ctls
  {
  }
}
