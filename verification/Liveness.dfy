/** Left alone and treated fairly, the controllers do converge, and stay so: every fair infinite run. */
module Liveness {
  import opened Text
  import opened Kube
  import opened Conditions
  import opened Flaps
  import opened Reconcile
  import opened Protocol
  import opened Scheduling
  import opened Termination
  import opened Wakeup
  import opened Divergence
  import Safety
  import Initialization

  // ---- Infinite runs

  ghost predicate Behaves(lib: Lib, s: nat -> Sys, step: nat -> Step) {
    forall i: nat :: Complete(s(i)) && Enabled(s(i), step(i)) && s(i + 1) == Do(lib, s(i), step(i))
  }

  ghost predicate LeftAlone(step: nat -> Step) {
    forall i: nat :: Undisturbed(step(i))
  }

  ghost predicate Happens(step: nat -> Step, i: nat, x: Step) {
    exists j: nat :: j >= i && step(j) == x
  }

  predicate Finishes(x: Step, w: Who) {
    x.Finish? && x.w == w
  }

  ghost predicate HasFinish(step: nat -> Step, i: nat, w: Who) {
    exists j: nat :: j >= i && Finishes(step(j), w)
  }

  /** The informer catches up with what is stored. */
  ghost predicate CatchesUp(s: nat -> Sys) {
    forall i: nat :: exists j: nat :: j >= i && s(j).cached + 1 >= |s(i).hist|
  }

  /** What is pending happens: notifications, configuration changes, delays, retries; and workers do their work. */
  ghost predicate Proceeds(s: nat -> Sys, step: nat -> Step, w: Who) {
    forall i: nat :: w in s(i).ctls ==>
      && (s(i).ctls[w].inbox != [] ==> Happens(step, i, Notify(w)))
      && (s(i).ctls[w].trigger ==> Happens(step, i, EnqueueAll(w)))
      && (s(i).ctls[w].delayed ==> Happens(step, i, Elapse(w)))
      && (s(i).ctls[w].retry ==> Happens(step, i, Retry(w)))
      && (s(i).ctls[w].dirty && s(i).ctls[w].work == Idle ==> Happens(step, i, Take(w)))
      && (s(i).ctls[w].work.Got? ==> Happens(step, i, ReadConfig(w)))
      && (s(i).ctls[w].work.Ready? ==> HasFinish(step, i, w))
  }

  predicate GoesThrough(x: Step, w: Who, t: int) {
    Finishes(x, w) && x.times.now >= t && x.answer != Refused
  }

  ghost predicate HasPassThrough(step: nat -> Step, i: nat, w: Who, t: int) {
    exists j: nat :: j >= i && GoesThrough(step(j), w, t)
  }

  /** If there is always another pass, then there is one that starts as late as you like and whose write, if any,
      reaches the server: time passes, and the network does not fail for good. */
  ghost predicate GetsThrough(step: nat -> Step, w: Who) {
    (forall i: nat :: HasFinish(step, i, w)) ==> forall i: nat, t: int :: HasPassThrough(step, i, w, t)
  }

  ghost predicate Fair(s: nat -> Sys, step: nat -> Step) {
    CatchesUp(s) && forall w :: Proceeds(s, step, w) && GetsThrough(step, w)
  }

  // ---- Its prefixes are runs

  lemma {:induction false} PrefixRuns(lib: Lib, s: nat -> Sys, step: nat -> Step, n: nat) returns (steps: seq<Step>)
    requires Behaves(lib, s, step) && LeftAlone(step) && Complete(s(0))
    ensures Runs(lib, s(0), steps) && AllUndisturbed(steps) && After(lib, s(0), steps) == s(n)
  {
    hide Runs, After, Do, Enabled, Complete;
    if n == 0 {
      steps := NoSteps(lib, s(0));
    } else {
      var xs := PrefixRuns(lib, s, step, n - 1);
      assert Enabled(s(n - 1), step(n - 1)) && s(n - 1 + 1) == Do(lib, s(n - 1), step(n - 1));
      Extend(lib, s(0), xs, step(n - 1));
      steps := xs + [step(n - 1)];
    }
  }

  lemma {:induction false} HistoryGrows(lib: Lib, s: nat -> Sys, step: nat -> Step, i: nat, j: nat)
    requires Behaves(lib, s, step) && i <= j
    ensures |s(i).hist| <= |s(j).hist| && s(j).hist[..|s(i).hist|] == s(i).hist
    decreases j - i
  {
    hide Do, Enabled;
    if i < j {
      assert Complete(s(i)) && Enabled(s(i), step(i)) && s(i + 1) == Do(lib, s(i), step(i));
      DoComplete(lib, s(i), step(i));
      HistoryGrows(lib, s, step, i + 1, j);
    }
  }

  /** The last write. */
  lemma {:induction false} WritesStop(lib: Lib, s: nat -> Sys, step: nat -> Step, bound: nat, i: nat) returns (n: nat)
    requires Behaves(lib, s, step) && forall j :: |s(j).hist| <= bound
    ensures n >= i && forall j :: j >= n ==> s(j).hist == s(n).hist
    decreases bound - |s(i).hist|
  {
    hide Behaves;
    if j :| j >= i && |s(j).hist| > |s(i).hist| {
      n := WritesStop(lib, s, step, bound, j);
    } else {
      n := i;
      forall j | j >= n ensures s(j).hist == s(n).hist { HistoryGrows(lib, s, step, n, j); }
    }
  }

  lemma AllWithin(lib: Lib, s: nat -> Sys, step: nat -> Step, b: nat)
    requires Behaves(lib, s, step) && LeftAlone(step) && Complete(s(0)) && WritesBounded(lib, s(0), b)
    ensures forall j: nat :: |s(j).hist| <= |s(0).hist| + b
  {
    hide Behaves, Runs, After;
    forall j: nat ensures |s(j).hist| <= |s(0).hist| + b { var steps := PrefixRuns(lib, s, step, j); }
  }

  // ---- Once it is quiet

  /** From m on nothing is written, the cache has caught up, and everything is known to be on its way to w. */
  ghost predicate Quiet(lib: Lib, s: nat -> Sys, m: nat, w: Who, cfg: Config, node: Node) {
    forall i :: i >= m ==>
      && Complete(s(i)) && s(i).hist == s(m).hist && Current(s(i)) == Some(node)
      && s(i).cached == Last(s(i)) && s(i).cfg == cfg && Inv(lib, s(i), w)
  }

  lemma {:induction false} CacheStays(lib: Lib, s: nat -> Sys, step: nat -> Step, m: nat, i: nat)
    requires Behaves(lib, s, step) && m <= i && Complete(s(m)) && s(m).cached == Last(s(m))
    requires forall j :: j >= m ==> s(j).hist == s(m).hist
    ensures s(i).cached == s(m).cached
    decreases i - m
  {
    hide Computed;
    if i > m {
      CacheStays(lib, s, step, m, i - 1);
      assert Enabled(s(i - 1), step(i - 1)) && s(i - 1 + 1) == Do(lib, s(i - 1), step(i - 1));
    }
  }

  lemma {:induction false} ConfigStays(lib: Lib, s: nat -> Sys, step: nat -> Step, i: nat)
    requires Behaves(lib, s, step) && LeftAlone(step)
    ensures s(i).cfg == s(0).cfg
  {
    hide Computed;
    if i > 0 {
      ConfigStays(lib, s, step, i - 1);
      assert Enabled(s(i - 1), step(i - 1)) && s(i - 1 + 1) == Do(lib, s(i - 1), step(i - 1));
      assert Undisturbed(step(i - 1));
    }
  }

  lemma {:induction false} InvStays(lib: Lib, s: nat -> Sys, step: nat -> Step, w: Who, i: nat)
    requires Behaves(lib, s, step) && Complete(s(0)) && Inv(lib, s(0), w)
    ensures Complete(s(i)) && Inv(lib, s(i), w)
  {
    hide Do, Enabled, Inv;
    if i > 0 {
      InvStays(lib, s, step, w, i - 1);
      assert Enabled(s(i - 1), step(i - 1)) && s(i - 1 + 1) == Do(lib, s(i - 1), step(i - 1));
      StepKeepsInv(lib, s(i - 1), step(i - 1), w);
    }
  }

  // ---- Something left to do leads to another pass

  lemma StepAt(lib: Lib, s: nat -> Sys, step: nat -> Step, i: nat)
    requires Behaves(lib, s, step)
    ensures Complete(s(i)) && Enabled(s(i), step(i)) && s(i + 1) == Do(lib, s(i), step(i))
    ensures Complete(s(i + 1))
  {
    hide Do, Enabled, Complete;
    assert Complete(s(i)) && Complete(s(i + 1));
  }

  lemma GotFinishes(lib: Lib, s: nat -> Sys, step: nat -> Step, w: Who, i: nat)
    requires Behaves(lib, s, step) && Proceeds(s, step, w) && Complete(s(i)) && s(i).ctls[w].work != Idle
    ensures HasFinish(step, i, w)
  {
    hide Behaves, Computed, Complete;
    assert w in s(i).ctls by { AllThere(s(i), w); }
    if s(i).ctls[w].work.Got? {
      var j :| j >= i && step(j) == ReadConfig(w);
      StepAt(lib, s, step, j);
      assert w in s(j + 1).ctls by { AllThere(s(j + 1), w); }
      assert s(j + 1).ctls[w].work.Ready?;
      var k :| k >= j + 1 && Finishes(step(k), w);
    }
  }

  lemma AllThere(s: Sys, w: Who)
    requires Complete(s)
    ensures w in s.ctls
  {
  }

  lemma DirtyFinishes(lib: Lib, s: nat -> Sys, step: nat -> Step, w: Who, i: nat)
    requires Behaves(lib, s, step) && Proceeds(s, step, w) && Complete(s(i)) && s(i).ctls[w].dirty
    ensures HasFinish(step, i, w)
  {
    hide Behaves, Computed, Proceeds;
    if s(i).ctls[w].work == Idle {
      var j := TakenLater(lib, s, step, w, i);
      StepAt(lib, s, step, j);
      GotFinishes(lib, s, step, w, j + 1);
      var k :| k >= j + 1 && Finishes(step(k), w);
    } else {
      GotFinishes(lib, s, step, w, i);
    }
  }

  lemma TakenLater(lib: Lib, s: nat -> Sys, step: nat -> Step, w: Who, i: nat) returns (j: nat)
    requires Behaves(lib, s, step) && Proceeds(s, step, w) && Complete(s(i))
    requires s(i).ctls[w].dirty && s(i).ctls[w].work == Idle
    ensures j >= i && step(j) == Take(w)
  {
    hide Behaves;
    j :| j >= i && step(j) == Take(w);
  }

  /** The first notification from i on is handled with the inbox as it was at i. */
  lemma {:induction false} InboxStays(lib: Lib, s: nat -> Sys, step: nat -> Step, m: nat, w: Who, i: nat, j: nat)
    requires Behaves(lib, s, step) && m <= i <= j
    requires forall k :: k >= m ==> Complete(s(k)) && s(k).cached == Last(s(k))
    requires forall k :: i <= k < j ==> step(k) != Notify(w)
    ensures w in s(i).ctls && w in s(j).ctls && s(j).ctls[w].inbox == s(i).ctls[w].inbox
    decreases j - i
  {
    hide Computed, Behaves;
    if i < j {
      StepAt(lib, s, step, i);
      InboxStays(lib, s, step, m, w, i + 1, j);
    }
  }

  lemma {:induction false} FirstNotify(step: nat -> Step, w: Who, i: nat, j: nat) returns (k: nat)
    requires i <= j && step(j) == Notify(w)
    ensures i <= k <= j && step(k) == Notify(w) && forall l :: i <= l < k ==> step(l) != Notify(w)
    decreases j - i
  {
    if step(i) == Notify(w) {
      k := i;
    } else {
      k := FirstNotify(step, w, i + 1, j);
    }
  }

  lemma {:induction false} SeenFinishes(lib: Lib, s: nat -> Sys, step: nat -> Step, m: nat, w: Who, i: nat)
    requires Behaves(lib, s, step) && Proceeds(s, step, w) && m <= i
    requires forall k :: k >= m ==> Complete(s(k)) && s(k).cached == Last(s(k))
    requires Complete(s(i)) && Seen in s(i).ctls[w].inbox
    ensures HasFinish(step, i, w)
    decreases |s(i).ctls[w].inbox|
  {
    hide Behaves, Computed, Complete;
    var j := NotifiedLater(s, step, w, i);
    var k := FirstNotify(step, w, i, j);
    InboxStays(lib, s, step, m, w, i, k);
    StepAt(lib, s, step, k);
    var inbox := s(i).ctls[w].inbox;
    assert inbox == [inbox[0]] + inbox[1..];
    NotifyHandled(lib, s(k), w);
    if inbox[0] == Seen {
      DirtyFinishes(lib, s, step, w, k + 1);
    } else {
      SeenFinishes(lib, s, step, m, w, k + 1);
    }
    var l :| l >= k + 1 && Finishes(step(l), w);
  }

  lemma NotifiedLater(s: nat -> Sys, step: nat -> Step, w: Who, i: nat) returns (j: nat)
    requires Proceeds(s, step, w) && Complete(s(i)) && s(i).ctls[w].inbox != []
    ensures j >= i && step(j) == Notify(w)
  {
    j :| j >= i && step(j) == Notify(w);
  }

  lemma NotifyHandled(lib: Lib, s: Sys, w: Who)
    requires Complete(s) && Enabled(s, Notify(w))
    ensures var c, t := s.ctls[w], Do(lib, s, Notify(w));
            w in t.ctls && (if c.inbox[0] == Seen then t.ctls[w].dirty else t.ctls[w].inbox == c.inbox[1..])
  {
  }

  /** Whatever keeps the key awake, it comes to a pass. */
  lemma UnsettledFinishes(lib: Lib, s: nat -> Sys, step: nat -> Step, m: nat, w: Who, cfg: Config, node: Node, i: nat)
    requires Behaves(lib, s, step) && Proceeds(s, step, w) && Quiet(lib, s, m, w, cfg, node) && m <= i
    requires !Settled(lib, w, cfg, node)
    ensures HasFinish(step, i, w)
  {
    hide Behaves, Proceeds, Settled, HasFinish;
    var c := s(i).ctls[w];
    if c.work != Idle {
      GotFinishes(lib, s, step, w, i);
    } else if c.dirty {
      DirtyFinishes(lib, s, step, w, i);
    } else if Seen in c.inbox {
      SeenFinishes(lib, s, step, m, w, i);
    } else {
      var j := AddedLater(lib, s, step, m, w, cfg, node, i);
      DirtyFinishes(lib, s, step, w, j);
      Sooner(step, w, i, j);
    }
  }

  lemma Sooner(step: nat -> Step, w: Who, i: nat, j: nat)
    requires i <= j && HasFinish(step, j, w)
    ensures HasFinish(step, i, w)
  {
  }

  lemma AddedLater(lib: Lib, s: nat -> Sys, step: nat -> Step, m: nat, w: Who, cfg: Config, node: Node, i: nat)
    returns (j: nat)
    requires Behaves(lib, s, step) && Proceeds(s, step, w) && Quiet(lib, s, m, w, cfg, node) && m <= i
    requires Complete(s(i)) && (s(i).ctls[w].trigger || s(i).ctls[w].delayed || s(i).ctls[w].retry)
    ensures j >= i && Complete(s(j)) && s(j).ctls[w].dirty
  {
    hide Behaves, Do, Inv, Enabled;
    var x := if s(i).ctls[w].trigger then EnqueueAll(w) else if s(i).ctls[w].delayed then Elapse(w) else Retry(w);
    assert Happens(step, i, x);
    var k: nat :| k >= i && step(k) == x;
    StepAt(lib, s, step, k);
    assert s(k).hist[s(k).cached].Some?;
    Added(lib, s(k), x, w);
    j := k + 1;
  }

  lemma Added(lib: Lib, s: Sys, x: Step, w: Who)
    requires Complete(s) && Enabled(s, x) && s.hist[s.cached].Some?
    requires x == EnqueueAll(w) || x == Elapse(w) || x == Retry(w)
    ensures w in Do(lib, s, x).ctls && Do(lib, s, x).ctls[w].dirty
  {
  }

  // ---- And that pass writes

  /** Values are missing, and the condition does not say True: such passes wait for the cooldown. */
  ghost predicate Waits(lib: Lib, w: Who, cfg: Config, node: Node) {
    && w.Rule? && Matched(lib, cfg, w.d, node) != [] && !InPlace(lib, cfg, w.d, node)
    && !SaysTrue(Find(node.conditions, ConditionOf(w.d)))
  }

  lemma UnsettledWrites(lib: Lib, w: Who, cfg: Config, node: Node, known: Known, times: Times)
    requires !Settled(lib, w, cfg, node) && times.now <= times.later
    requires Waits(lib, w, cfg, node) ==> StateOf(known).until <= times.now
    ensures var o := Computed(lib, w, cfg, Some(node), known, times);
            o.write != Nothing && o.write.node != node
  {
    hide Pass, Converged, Matched, InPlace, Find, SaysTrue, Initialization.InitWrite;
    PassDoesSomething(lib, w, cfg, node, known, times);
    if w.Rule? { SilentExactly(lib, cfg, w.d, node, known, times.now, times.later, times.stamp); }
  }

  lemma WaitingKeeps(lib: Lib, w: Who, cfg: Config, node: Node, known: Known, times: Times)
    requires Waits(lib, w, cfg, node)
    ensures StateOf(Computed(lib, w, cfg, Some(node), known, times).known).until == StateOf(known).until
  {
    hide Matched, InPlace, WithValues, DesiredPrint, DriftIn, WritersIn;
  }

  /** w's worker is idle, or works on the current Node under the current configuration; and no cooldown beyond t keeps
      it waiting. */
  ghost predicate UpToDateAt(lib: Lib, s: Sys, w: Who, cfg: Config, node: Node, t: int)
    requires Complete(s)
  {
    var c := s.ctls[w];
    && (c.work != Idle ==> c.work.snap == Last(s))
    && (c.work.Ready? ==> c.work.cfg == cfg)
    && (Waits(lib, w, cfg, node) ==> StateOf(c.known).until <= t)
  }

  lemma FinishStaysUpToDate(lib: Lib, s: Sys, w: Who, times: Times, answer: Answer, v: Who, cfg: Config, node: Node,
                            t: int)
    requires Complete(s) && Enabled(s, Finish(w, times, answer)) && s.cfg == cfg && Current(s) == Some(node)
    requires UpToDateAt(lib, s, v, cfg, node, t) && Finished(lib, s, w, times, answer).hist == s.hist
    ensures var u := Finished(lib, s, w, times, answer); Complete(u) && UpToDateAt(lib, u, v, cfg, node, t)
  {
    hide Computed, Waits, Stored, Fails;
    if w == v && Waits(lib, w, cfg, node) {
      WaitingKeeps(lib, w, cfg, node, s.ctls[w].known, times);
    }
  }

  lemma StaysUpToDate(lib: Lib, s: Sys, step: Step, w: Who, cfg: Config, node: Node, t: int)
    requires Complete(s) && Enabled(s, step) && s.cached == Last(s) && s.cfg == cfg && Current(s) == Some(node)
    requires t >= 0
    requires UpToDateAt(lib, s, w, cfg, node, t) && Do(lib, s, step).hist == s.hist && Undisturbed(step)
    ensures Complete(Do(lib, s, step)) && UpToDateAt(lib, Do(lib, s, step), w, cfg, node, t)
  {
    hide Finished, Waits;
    if step.Finish? {
      FinishStaysUpToDate(lib, s, step.w, step.times, step.answer, w, cfg, node, t);
    } else {
      DoComplete(lib, s, step);
    }
  }

  lemma {:induction false} AlwaysUpToDate(lib: Lib, s: nat -> Sys, step: nat -> Step, m: nat, w: Who, cfg: Config,
                                          node: Node, t: int, n: nat, i: nat)
    requires Behaves(lib, s, step) && LeftAlone(step) && Quiet(lib, s, m, w, cfg, node) && m <= n <= i && t >= 0
    requires Complete(s(n)) && UpToDateAt(lib, s(n), w, cfg, node, t)
    ensures Complete(s(i)) && UpToDateAt(lib, s(i), w, cfg, node, t)
    decreases i - n
  {
    hide Behaves, Do, Enabled, UpToDateAt, Inv, Complete;
    if n < i {
      AlwaysUpToDate(lib, s, step, m, w, cfg, node, t, n, i - 1);
      StepAt(lib, s, step, i - 1);
      assert Undisturbed(step(i - 1));
      StaysUpToDate(lib, s(i - 1), step(i - 1), w, cfg, node, t);
    }
  }

  /** So nothing is left to do once it is quiet: a pass that went through would have written. */
  lemma QuietIsSettled(lib: Lib, s: nat -> Sys, step: nat -> Step, m: nat, w: Who, cfg: Config, node: Node)
    requires Behaves(lib, s, step) && LeftAlone(step) && Proceeds(s, step, w) && GetsThrough(step, w)
    requires Quiet(lib, s, m, w, cfg, node)
    ensures Settled(lib, w, cfg, node)
  {
    hide Behaves, Settled, Proceeds, Inv, LeftAlone;
    if !Settled(lib, w, cfg, node) {
      forall i: nat ensures HasFinish(step, i, w) {
        var k := if i > m then i else m;
        UnsettledFinishes(lib, s, step, m, w, cfg, node, k);
        Sooner(step, w, i, k);
      }
      assert HasFinish(step, m, w);
      var j: nat :| j >= m && Finishes(step(j), w);
      var n, t := IdleAfter(lib, s, step, m, w, cfg, node, j);
      assert HasPassThrough(step, n, w, t);
      var k: nat :| k >= n && GoesThrough(step(k), w, t);
      AlwaysUpToDate(lib, s, step, m, w, cfg, node, t, n, k);
      StepAt(lib, s, step, k);
      assert s(k + 1).hist == s(m).hist == s(k).hist;
      PassGrows(lib, s(k), step(k), w, cfg, node, t);
    }
  }

  lemma IdleAfter(lib: Lib, s: nat -> Sys, step: nat -> Step, m: nat, w: Who, cfg: Config, node: Node, j: nat)
    returns (n: nat, t: int)
    requires Behaves(lib, s, step) && Quiet(lib, s, m, w, cfg, node) && m <= j && Finishes(step(j), w)
    ensures n == j + 1 && t >= 0 && Complete(s(n)) && UpToDateAt(lib, s(n), w, cfg, node, t)
  {
    hide Behaves, Computed, Inv, Waits;
    StepAt(lib, s, step, j);
    n := j + 1;
    t := Max(0, StateOf(s(n).ctls[w].known).until);
  }

  lemma PassGrows(lib: Lib, s: Sys, x: Step, w: Who, cfg: Config, node: Node, t: int)
    requires Complete(s) && Enabled(s, x) && GoesThrough(x, w, t) && Current(s) == Some(node)
    requires UpToDateAt(lib, s, w, cfg, node, t) && !Settled(lib, w, cfg, node)
    ensures |Do(lib, s, x).hist| > |s.hist|
  {
    hide Computed, Waits, Settled;
    UnsettledWrites(lib, w, cfg, node, s.ctls[w].known, x.times);
  }

  // ---- The theorem

  /** From n on, for good. */
  ghost predicate SettledFrom(lib: Lib, s: nat -> Sys, n: nat) {
    forall i: nat :: i >= n ==> SettledAt(lib, s(i), s(0).cfg)
  }

  ghost predicate SettledAt(lib: Lib, s: Sys, cfg: Config) {
    s.hist != [] && Current(s).Some? && forall w :: Settled(lib, w, cfg, Current(s).value)
  }

  lemma AllSettled(lib: Lib, s: Sys, cfg: Config, node: Node)
    requires s.hist != [] && Current(s) == Some(node) && forall w :: Settled(lib, w, cfg, node)
    ensures SettledAt(lib, s, cfg)
  {
    hide Settled;
  }

  lemma StartInv(lib: Lib, start: Sys, before: seq<Step>, w: Who)
    requires Initial(start) && Runs(lib, start, before)
    ensures Inv(lib, After(lib, start, before), w)
  {
    hide Runs, After, Settled;
    RunKeepsInv(lib, start, before, w);
  }

  /** The Node is never deleted. */
  lemma StillThere(lib: Lib, s: nat -> Sys, step: nat -> Step, m: nat) returns (node: Node)
    requires Behaves(lib, s, step) && LeftAlone(step) && Complete(s(0)) && Current(s(0)).Some?
    ensures s(m).hist != [] && Current(s(m)) == Some(node)
  {
    hide Behaves, Runs, After, Safety.Grown;
    var steps := PrefixRuns(lib, s, step, m);
    Safety.NothingRemoved(lib, s(0), steps);
    node := Current(s(m)).value;
  }

  lemma BecomesQuiet(lib: Lib, s: nat -> Sys, step: nat -> Step, q: nat, m: nat, w: Who, node: Node)
    requires Behaves(lib, s, step) && LeftAlone(step) && Complete(s(0)) && Inv(lib, s(0), w)
    requires q <= m && forall j :: j >= q ==> s(j).hist == s(q).hist
    requires s(m).cached + 1 >= |s(q).hist| && s(m).hist != [] && Current(s(m)) == Some(node)
    ensures Quiet(lib, s, m, w, s(0).cfg, node)
  {
    hide Behaves, Inv;
    InvStays(lib, s, step, w, m);
    forall i | i >= m
      ensures Complete(s(i)) && s(i).hist == s(m).hist && Current(s(i)) == Some(node)
      ensures s(i).cached == Last(s(i)) && s(i).cfg == s(0).cfg && Inv(lib, s(i), w)
    {
      InvStays(lib, s, step, w, i);
      ConfigStays(lib, s, step, i);
      CacheStays(lib, s, step, m, i);
    }
  }

  lemma FairFrom(lib: Lib, s: nat -> Sys, step: nat -> Step, b: nat)
    requires Behaves(lib, s, step) && LeftAlone(step) && Fair(s, step)
    requires Complete(s(0)) && Current(s(0)).Some? && forall w :: Inv(lib, s(0), w)
    requires WritesBounded(lib, s(0), b)
    ensures exists n: nat :: SettledFrom(lib, s, n)
  {
    hide Behaves, WritesBounded, Inv, LeftAlone;
    AllWithin(lib, s, step, b);
    var q := WritesStop(lib, s, step, |s(0).hist| + b, 0);
    var m := CaughtUp(s, q);
    var node := StillThere(lib, s, step, m);
    QuietSettles(lib, s, step, q, m, node);
    assert SettledFrom(lib, s, m);
  }

  lemma CaughtUp(s: nat -> Sys, q: nat) returns (m: nat)
    requires CatchesUp(s)
    ensures m >= q && s(m).cached + 1 >= |s(q).hist|
  {
    m :| m >= q && s(m).cached + 1 >= |s(q).hist|;
  }

  lemma QuietSettles(lib: Lib, s: nat -> Sys, step: nat -> Step, q: nat, m: nat, node: Node)
    requires Behaves(lib, s, step) && LeftAlone(step) && Fair(s, step)
    requires Complete(s(0)) && forall w :: Inv(lib, s(0), w)
    requires q <= m && forall j: nat :: j >= q ==> s(j).hist == s(q).hist
    requires s(m).cached + 1 >= |s(q).hist| && s(m).hist != [] && Current(s(m)) == Some(node)
    ensures SettledFrom(lib, s, m)
  {
    hide Behaves, Inv, LeftAlone, Proceeds, GetsThrough, Settled, CatchesUp, SettledAt, Quiet;
    forall w ensures Settled(lib, w, s(0).cfg, node) {
      BecomesQuiet(lib, s, step, q, m, w, node);
      QuietIsSettled(lib, s, step, m, w, s(0).cfg, node);
    }
    forall i: nat | i >= m ensures SettledAt(lib, s(i), s(0).cfg) {
      InvStays(lib, s, step, Init, i);
      assert s(i).hist == s(m).hist;
      AllSettled(lib, s(i), s(0).cfg, node);
    }
  }

  /** Take any fair infinite run of the controllers alone, from any reachable state where all Nodes that one stored
      write can leave settle. From some point on, all four controllers have nothing left to do. */
  lemma FairRunsConverge(lib: Lib, start: Sys, before: seq<Step>, s: nat -> Sys, step: nat -> Step)
    requires Initial(start) && Runs(lib, start, before) && s(0) == After(lib, start, before)
    requires Behaves(lib, s, step) && LeftAlone(step) && Fair(s, step)
    requires Current(s(0)).Some? && AllLeftSettle(lib, s(0))
    ensures exists n: nat :: SettledFrom(lib, s, n)
  {
    hide Behaves, Runs, After, AllLeftSettle, WritesBounded, Inv, Fair, LeftAlone, SettledFrom;
    forall w ensures Inv(lib, s(0), w) { StartInv(lib, start, before, w); }
    BoundedInGeneral(lib, s(0));
    var b: nat :| WritesBounded(lib, s(0), b);
    FairFrom(lib, s, step, b);
  }
}
