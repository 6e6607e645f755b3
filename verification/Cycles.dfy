/** What a sequence of passes adds up to: after a rule edit, after a flap, and after a late change. */
module Cycles {
  import opened Text
  import opened Kube
  import opened Matching
  import opened Values
  import opened ExternalIPs
  import opened Conditions
  import opened Flaps
  import opened Reconcile
  import opened Protocol
  import opened Termination

  // ---- Rules that are content once they have their way

  /** Rules still match once their values are written, and then they are content. */
  ghost predicate Content(lib: Lib, cfg: Config, d: Domain, node: Node) {
    Matched(lib, cfg, d, WithValues(lib, cfg, d, node)) != [] && InPlace(lib, cfg, d, WithValues(lib, cfg, d, node))
  }

  /** So it is with all rules for annotations and addresses, and with label rules that do not feed their matching. */
  lemma OftenContent(lib: Lib, cfg: Config, d: Domain, node: Node)
    requires d == Labels ==> SelfIndependent(lib, cfg)
    requires Matched(lib, cfg, d, node) != []
    ensures Content(lib, cfg, d, node)
  {
    hide WithValues, InPlace, Matched, SelfIndependent;
    if d == Labels {
      AppliedSticks(lib, cfg, node);
    } else {
      AppliedOnce(lib, cfg, d, node);
    }
  }

  /** After the values are written to n, which differs from node in conditions only, they are in place. */
  lemma PlacedByRules(lib: Lib, cfg: Config, d: Domain, node: Node, n: Node)
    requires d == Labels ==> Content(lib, cfg, d, node)
    requires n == node.(conditions := n.conditions) && Matched(lib, cfg, d, node) != []
    ensures Content(lib, cfg, d, n) && WithValues(lib, cfg, d, n).conditions == n.conditions
  {
    hide Resolved, RulesFor, MatchingIDs, Merged, RuleIPs;
    if d == Labels {
      SameLabelStep(lib, cfg, node, n);
      SameLabelStep(lib, cfg, WithValues(lib, cfg, d, node), WithValues(lib, cfg, d, n));
    } else {
      OftenContent(lib, cfg, d, n);
    }
  }

  // ---- Changed rules

  /** The Node a stored update leaves, and what the detector knows once the answer arrived. */
  ghost function NextNode(o: Outcome): Node
    requires o.write != Nothing
  {
    o.write.node
  }

  ghost function NextKnown(o: Outcome, end: int): Known {
    if o.write.Update? then Some(AppliedStep(o.known, end, o.write.mark)) else o.known
  }

  /** Editing the rules is no flap. Say the condition is True, values are on record, and the matching rules now want
      others. Three passes over up-to-date Nodes follow, each with one write and whatever the clock says: Pending,
      the new values, Applied. None of them waits, no flap is counted, and then nothing is left to do. */
  lemma RuleEditIsNoFlap(lib: Lib, cfg: Config, d: Domain, node: Node, known: Known, t1: Times, t2: Times, t3: Times)
    requires d == Labels ==> Content(lib, cfg, d, node)
    requires SaysTrue(Find(node.conditions, ConditionOf(d)))
    requires Matched(lib, cfg, d, node) != [] && !InPlace(lib, cfg, d, node)
    requires RulesChanged(known, DesiredPrint(lib, cfg, d, node))
    requires 0 <= t1.now <= t1.later <= t1.end <= t2.now <= t2.later <= t2.end <= t3.now <= t3.later <= t3.end
    ensures var o1 := Pass(lib, cfg, d, Some(node), known, t1.now, t1.later, t1.stamp);
            && o1.write.Status? && o1.after == None
            && Find(o1.write.node.conditions, ConditionOf(d)) ==
               Some(Condition(ConditionOf(d), IsFalse, Pending, WaitingFor(Matched(lib, cfg, d, node)),
                              t1.stamp, t1.stamp))
            && var o2 := Pass(lib, cfg, d, Some(NextNode(o1)), NextKnown(o1, t1.end), t2.now, t2.later, t2.stamp);
            && o2.write == Update(WithValues(lib, cfg, d, NextNode(o1)), DesiredPrint(lib, cfg, d, node))
            && o2.after == None
            && var o3 := Pass(lib, cfg, d, Some(NextNode(o2)), NextKnown(o2, t2.end), t3.now, t3.later, t3.stamp);
            && o3.write.Status? && o3.after == None
            && Converged(lib, cfg, d, o3.write.node)
            && StateOf(NextKnown(o3, t3.end)).flaps == 0 && StateOf(NextKnown(o3, t3.end)).until == 0
  {
    hide Pass, Matched, InPlace, WithValues, DesiredPrint, Converged, UpToDate;
    var n1 := EditPending(lib, cfg, d, node, known, t1);
    var known1 := Some(ZERO_STATE);
    EditValues(lib, cfg, d, n1, known1, t2);
    var n2 := WithValues(lib, cfg, d, n1);
    PlacedByRules(lib, cfg, d, node, n1);
    EditApplied(lib, cfg, d, n2, Some(AppliedStep(known1, t2.end, DesiredPrint(lib, cfg, d, n1))), t3);
  }

  lemma EditPending(lib: Lib, cfg: Config, d: Domain, node: Node, known: Known, t: Times) returns (n: Node)
    requires SaysTrue(Find(node.conditions, ConditionOf(d)))
    requires Matched(lib, cfg, d, node) != [] && !InPlace(lib, cfg, d, node)
    requires RulesChanged(known, DesiredPrint(lib, cfg, d, node))
    ensures Pass(lib, cfg, d, Some(node), known, t.now, t.later, t.stamp) == Outcome(Some(ZERO_STATE), Status(n), None)
    ensures n == node.(conditions := n.conditions)
    ensures Matched(lib, cfg, d, n) != [] && !InPlace(lib, cfg, d, n)
    ensures DesiredPrint(lib, cfg, d, n) == DesiredPrint(lib, cfg, d, node)
    ensures Find(n.conditions, ConditionOf(d)) ==
            Some(Condition(ConditionOf(d), IsFalse, Pending, WaitingFor(Matched(lib, cfg, d, node)), t.stamp, t.stamp))
  {
    hide Matched, InPlace, WithValues, DesiredPrint, DriftIn, WritersIn;
    var desired := PendingCondition(ConditionOf(d), Matched(lib, cfg, d, node));
    n := node.(conditions := Set(node.conditions, desired, t.stamp));
    SetEffect(node.conditions, desired, t.stamp, ConditionOf(d));
    SameValuesElsewhere(lib, cfg, d, node, n);
  }

  lemma EditValues(lib: Lib, cfg: Config, d: Domain, node: Node, known: Known, t: Times)
    requires var c := Find(node.conditions, ConditionOf(d)); c.Some? && c.value.status == IsFalse
    requires Matched(lib, cfg, d, node) != [] && !InPlace(lib, cfg, d, node)
    requires known == Some(ZERO_STATE) && 0 <= t.now <= t.later
    ensures Pass(lib, cfg, d, Some(node), known, t.now, t.later, t.stamp) ==
            Outcome(known, Update(WithValues(lib, cfg, d, node), DesiredPrint(lib, cfg, d, node)), None)
  {
    hide Matched, InPlace, WithValues, DesiredPrint, DriftIn, WritersIn;
  }

  lemma EditApplied(lib: Lib, cfg: Config, d: Domain, node: Node, known: Known, t: Times)
    requires var c := Find(node.conditions, ConditionOf(d)); c.Some? && c.value.status == IsFalse
    requires Matched(lib, cfg, d, node) != [] && InPlace(lib, cfg, d, node)
    ensures var o := Pass(lib, cfg, d, Some(node), known, t.now, t.later, t.stamp);
            && o.write.Status? && o.after == None && o.known == known && Converged(lib, cfg, d, o.write.node)
  {
    hide Matched, InPlace, WithValues, DesiredPrint, DriftIn, WritersIn;
    var desired := AppliedCondition(ConditionOf(d), Matched(lib, cfg, d, node));
    var n := node.(conditions := Set(node.conditions, desired, t.stamp));
    SetSettles(node.conditions, desired, t.stamp);
    SameValuesElsewhere(lib, cfg, d, node, n);
  }

  // ---- A flap

  /** One flap, from detection to confirmation, each pass over an up-to-date Node. Values changed within the window are
      reported (condition False, naming the rules, the writers, the keys and the cooldown); until the cooldown is over
      passes only reschedule themselves for what is left of it; then the values are written again, whenever that is;
      and confirmed. The flap stays on the count for the next one. */
  lemma FlapCycle(lib: Lib, cfg: Config, d: Domain, node: Node, known: Known, t1: Times, t2: Times, t3: Times,
                  t4: Times)
    requires d == Labels ==> Content(lib, cfg, d, node)
    requires SaysTrue(Find(node.conditions, ConditionOf(d)))
    requires Matched(lib, cfg, d, node) != [] && !InPlace(lib, cfg, d, node)
    requires !RulesChanged(known, DesiredPrint(lib, cfg, d, node))
    requires !Cooling(known, t1.now) && !Held(known, t1.now, Find(node.conditions, ConditionOf(d)).value.heartbeat)
    requires var until := t1.now + Cooldown(StateOf(known).flaps + 1);
             t1.now <= t2.now <= t2.later < until <= t3.now <= t3.later <= t3.end <= t4.now
    ensures var cooldown := Cooldown(StateOf(known).flaps + 1);
            var o1 := Pass(lib, cfg, d, Some(node), known, t1.now, t1.later, t1.stamp);
            && o1.write.Status? && o1.after == Some(cooldown)
            && ReportsDrift(lib, cfg, d, node, NextNode(o1),
                            LastApplied(known, Find(node.conditions, ConditionOf(d)).value.heartbeat), cooldown)
            && Pass(lib, cfg, d, Some(NextNode(o1)), o1.known, t2.now, t2.later, t2.stamp) ==
               Outcome(o1.known, Nothing, Some(t1.now + cooldown - t2.later))
            && var o3 := Pass(lib, cfg, d, Some(NextNode(o1)), o1.known, t3.now, t3.later, t3.stamp);
            && o3.write == Update(WithValues(lib, cfg, d, NextNode(o1)), DesiredPrint(lib, cfg, d, node))
            && o3.after == None
            && var o4 := Pass(lib, cfg, d, Some(NextNode(o3)), NextKnown(o3, t3.end), t4.now, t4.later, t4.stamp);
            && o4.write.Status? && o4.after == None && Converged(lib, cfg, d, o4.write.node)
            && StateOf(NextKnown(o4, t4.end)).flaps == StateOf(known).flaps + 1
  {
    hide Pass, Matched, InPlace, WithValues, DesiredPrint, Converged, UpToDate, ReportsDrift, Cooldown, Held;
    hide DriftIn, WritersIn;
    var s := DriftedStep(known, t1.now, Find(node.conditions, ConditionOf(d)).value.heartbeat).state;
    var n1 := FlapReported(lib, cfg, d, node, known, t1);
    CooldownIsMin(StateOf(known).flaps + 1);
    FlapWaits(lib, cfg, d, n1, Some(s), t2);
    FlapRestored(lib, cfg, d, n1, Some(s), t3);
    PlacedByRules(lib, cfg, d, node, n1);
    EditApplied(lib, cfg, d, WithValues(lib, cfg, d, n1),
                Some(AppliedStep(Some(s), t3.end, DesiredPrint(lib, cfg, d, n1))), t4);
  }

  /** n is node with its condition of d saying that its values were changed since, by whom, and for how long it
      waits. */
  ghost predicate ReportsDrift(lib: Lib, cfg: Config, d: Domain, node: Node, n: Node, since: int, cooldown: int) {
    var c := Find(n.conditions, ConditionOf(d));
    && n == node.(conditions := n.conditions)
    && c.Some? && c.value.status == IsFalse && c.value.reason == Drifted
    && c.value.message ==
       ChangedBy(Matched(lib, cfg, d, node), WritersIn(lib, d, node, since), DriftIn(lib, cfg, d, node), cooldown)
  }

  lemma FlapReported(lib: Lib, cfg: Config, d: Domain, node: Node, known: Known, t: Times) returns (n: Node)
    requires SaysTrue(Find(node.conditions, ConditionOf(d)))
    requires Matched(lib, cfg, d, node) != [] && !InPlace(lib, cfg, d, node)
    requires !RulesChanged(known, DesiredPrint(lib, cfg, d, node))
    requires !Cooling(known, t.now) && !Held(known, t.now, Find(node.conditions, ConditionOf(d)).value.heartbeat)
    ensures var v := DriftedStep(known, t.now, Find(node.conditions, ConditionOf(d)).value.heartbeat);
            && Pass(lib, cfg, d, Some(node), known, t.now, t.later, t.stamp) ==
               Outcome(Some(v.state), Status(n), Some(v.cooldown))
            && v.cooldown == Cooldown(StateOf(known).flaps + 1)
            && v.state.until == t.now + v.cooldown && v.state.flaps == StateOf(known).flaps + 1
            && ReportsDrift(lib, cfg, d, node, n, v.last, v.cooldown)
            && v.last == LastApplied(known, Find(node.conditions, ConditionOf(d)).value.heartbeat)
    ensures n == node.(conditions := n.conditions)
    ensures Matched(lib, cfg, d, n) != [] && !InPlace(lib, cfg, d, n)
    ensures DesiredPrint(lib, cfg, d, n) == DesiredPrint(lib, cfg, d, node)
    ensures var c := Find(n.conditions, ConditionOf(d)); c.Some? && c.value.status == IsFalse
  {
    hide Matched, InPlace, WithValues, DesiredPrint, DriftIn, WritersIn, Cooldown;
    var heartbeat := Find(node.conditions, ConditionOf(d)).value.heartbeat;
    var v := DriftedStep(known, t.now, heartbeat);
    DriftedVerdict(known, t.now, heartbeat);
    var desired := DriftedCondition(ConditionOf(d), Matched(lib, cfg, d, node), DriftIn(lib, cfg, d, node),
                                    WritersIn(lib, d, node, v.last), v.cooldown);
    n := node.(conditions := Set(node.conditions, desired, t.stamp));
    SetEffect(node.conditions, desired, t.stamp, ConditionOf(d));
    SameValuesElsewhere(lib, cfg, d, node, n);
  }

  lemma FlapWaits(lib: Lib, cfg: Config, d: Domain, node: Node, known: Known, t: Times)
    requires var c := Find(node.conditions, ConditionOf(d)); c.Some? && c.value.status == IsFalse
    requires Matched(lib, cfg, d, node) != [] && !InPlace(lib, cfg, d, node)
    requires known.Some? && t.now <= t.later < known.value.until <= t.later + MAX_COOLDOWN
    ensures Pass(lib, cfg, d, Some(node), known, t.now, t.later, t.stamp) ==
            Outcome(known, Nothing, Some(known.value.until - t.later))
  {
    hide Matched, InPlace, WithValues, DesiredPrint, DriftIn, WritersIn;
  }

  lemma FlapRestored(lib: Lib, cfg: Config, d: Domain, node: Node, known: Known, t: Times)
    requires var c := Find(node.conditions, ConditionOf(d)); c.Some? && c.value.status == IsFalse
    requires Matched(lib, cfg, d, node) != [] && !InPlace(lib, cfg, d, node)
    requires known.Some? && known.value.until <= t.now
    ensures Pass(lib, cfg, d, Some(node), known, t.now, t.later, t.stamp) ==
            Outcome(known, Update(WithValues(lib, cfg, d, node), DesiredPrint(lib, cfg, d, node)), None)
  {
    hide Matched, InPlace, WithValues, DesiredPrint, DriftIn, WritersIn;
  }

  // ---- A late change

  /** Values that held for longer than the window are restored at once: the first pass already writes them, the
      condition is left as it is, still True, and the streak starts over. */
  lemma HeldIsRestored(lib: Lib, cfg: Config, d: Domain, node: Node, known: Known, t: Times)
    requires SaysTrue(Find(node.conditions, ConditionOf(d)))
    requires Matched(lib, cfg, d, node) != [] && !InPlace(lib, cfg, d, node)
    requires !RulesChanged(known, DesiredPrint(lib, cfg, d, node))
    requires !Cooling(known, t.now) && Held(known, t.now, Find(node.conditions, ConditionOf(d)).value.heartbeat)
    ensures var o := Pass(lib, cfg, d, Some(node), known, t.now, t.later, t.stamp);
            && o.write == Update(WithValues(lib, cfg, d, node), DesiredPrint(lib, cfg, d, node)) && o.after == None
            && SaysTrue(Find(o.write.node.conditions, ConditionOf(d)))
            && StateOf(o.known).flaps == 0 && StateOf(o.known).until == StateOf(known).until
  {
    hide Matched, InPlace, DesiredPrint, DriftIn, WritersIn, Desired, DesiredIPs, Merged;
  }
}
