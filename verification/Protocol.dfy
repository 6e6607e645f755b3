/** All four controllers, the API server, the informer cache, the work queues and the rest of the world, as a state
    machine over one Node (pkg/controller/controller.go and the reconcile functions). */
module Protocol {
  import opened Text
  import opened Kube
  import opened Flaps
  import opened Reconcile
  import Initialization

  datatype Who = Init | Rule(d: Domain)

  /** Informer notifications not yet handled: an add or update, or a deletion. */
  datatype Event = Seen | Gone

  /** A worker takes the key, reads the lister, then the configuration, and then finishes its pass. */
  datatype Work = Idle | Got(snap: nat) | Ready(snap: nat, cfg: Config)

  /** One controller's view of the Node: its worker, the queue's dirty bit, a pending AddAfter, a pending rate-limited
      retry, undelivered notifications, a configuration change it is yet to be told about, and its flap detector.
      A key is processed by one worker at a time, so its clock readings are in order. */
  datatype Ctl = Ctl(work: Work, dirty: bool, delayed: bool, retry: bool, inbox: seq<Event>, trigger: bool,
                     known: Known, clock: int)

  /** hist[v] is the Node at resourceVersion v (None: it does not exist); the last one is current. cached is the version
      in the informer's store. */
  datatype Sys = Sys(hist: seq<Option<Node>>, cached: nat, cfg: Config, ctls: map<Who, Ctl>)

  /** The server's answer reaches the client, or is lost after the write was handled, or the write never arrives. */
  datatype Answer = Answered | Lost | Refused

  /** The clock readings of one pass: drifted's or remaining's first, remaining's second, applied's; and the stamp
      a condition gets. */
  datatype Times = Times(now: int, later: int, end: int, stamp: int)

  datatype Step =
    | Deliver(v: nat)
    | Notify(w: Who)
    | EnqueueAll(w: Who)
    | Elapse(w: Who)
    | Retry(w: Who)
    | Resync(w: Who)
    | Take(w: Who)
    | ReadConfig(w: Who)
    | Finish(w: Who, times: Times, answer: Answer)
    | SetConfig(cfg: Config)
    | Rewrite(node: Option<Node>)

  ghost predicate Complete(s: Sys) {
    && (forall w: Who :: w in s.ctls)
    && s.cached < |s.hist|
    && (forall w: Who :: s.ctls[w].work != Idle ==> s.ctls[w].work.snap <= s.cached)
  }

  function Last(s: Sys): nat
    requires s.hist != []
  {
    |s.hist| - 1
  }

  function Current(s: Sys): Option<Node>
    requires s.hist != []
  {
    s.hist[|s.hist| - 1]
  }

  // ---- One pass

  /** What w computes from a snapshot. */
  ghost function Computed(lib: Lib, w: Who, cfg: Config, node: Option<Node>, known: Known, times: Times): Outcome {
    match w
    case Init =>
      var n := if node.Some? then Initialization.InitWrite(lib, cfg, node.value) else None;
      Outcome(known, if n.Some? then Update(n.value, "") else Nothing, None)
    case Rule(d) => Pass(lib, cfg, d, node, known, times.now, times.later, times.stamp)
  }

  /** Whether the server stores the update: optimistic concurrency on the resourceVersion. */
  predicate Accepted(hist: seq<Option<Node>>, snap: nat, write: Write, answer: Answer) {
    write != Nothing && answer != Refused && snap + 1 == |hist|
  }

  /** An update without effect does not bump the version. */
  function Stored(hist: seq<Option<Node>>, snap: nat, write: Write, answer: Answer): seq<Option<Node>>
    requires hist != []
  {
    if Accepted(hist, snap, write, answer) && hist[|hist| - 1] != Some(write.node)
    then hist + [Some(write.node)]
    else hist
  }

  /** Conflicts are swallowed; a lost or refused write, or one to a deleted Node, is an error. */
  predicate Fails(hist: seq<Option<Node>>, snap: nat, write: Write, answer: Answer)
    requires hist != []
  {
    write != Nothing && (answer != Answered || (snap + 1 != |hist| && hist[|hist| - 1].None?))
  }

  ghost function KnownAfter(w: Who, o: Outcome, hist: seq<Option<Node>>, snap: nat, times: Times,
                            answer: Answer): Known
  {
    if w.Rule? && o.write.Update? && Accepted(hist, snap, o.write, answer) && answer == Answered
    then Some(AppliedStep(o.known, times.end, o.write.mark))
    else o.known
  }

  ghost function OutcomeOf(lib: Lib, s: Sys, w: Who, times: Times): Outcome
    requires Complete(s) && s.ctls[w].work.Ready?
  {
    var c := s.ctls[w];
    Computed(lib, w, c.work.cfg, s.hist[c.work.snap], c.known, times)
  }

  ghost function Finished(lib: Lib, s: Sys, w: Who, times: Times, answer: Answer): Sys
    requires Complete(s) && s.ctls[w].work.Ready?
  {
    var c, o := s.ctls[w], OutcomeOf(lib, s, w, times);
    s.(hist := Stored(s.hist, c.work.snap, o.write, answer),
       ctls := s.ctls[w := c.(work := Idle,
                              delayed := c.delayed || o.after.Some?,
                              retry := c.retry || Fails(s.hist, c.work.snap, o.write, answer),
                              known := KnownAfter(w, o, s.hist, c.work.snap, times, answer),
                              clock := times.end)])
  }

  // ---- All steps

  ghost predicate Enabled(s: Sys, step: Step)
    requires Complete(s)
  {
    match step
    case Deliver(v) => s.cached < v < |s.hist|
    case Notify(w) => s.ctls[w].inbox != []
    case EnqueueAll(w) => s.ctls[w].trigger
    case Elapse(w) => s.ctls[w].delayed
    case Retry(w) => s.ctls[w].retry
    case Resync(w) => s.hist[s.cached].Some?
    case Take(w) => s.ctls[w].dirty && s.ctls[w].work == Idle
    case ReadConfig(w) => s.ctls[w].work.Got?
    case Finish(w, t, _) => s.ctls[w].work.Ready? && s.ctls[w].clock <= t.now <= t.later <= t.end && t.stamp <= t.end
    case SetConfig(_) => true
    case Rewrite(node) => node != Current(s)
  }

  ghost function Do(lib: Lib, s: Sys, step: Step): Sys
    requires Complete(s) && Enabled(s, step)
  {
    match step
    case Deliver(v) =>
      var e := if s.hist[v].Some? then Seen else Gone;
      s.(cached := v, ctls := map w | w in s.ctls :: s.ctls[w].(inbox := s.ctls[w].inbox + [e]))
    case Notify(w) =>
      var c := s.ctls[w];
      if c.inbox[0] == Seen then s.(ctls := s.ctls[w := c.(inbox := c.inbox[1..], dirty := true)])
      else s.(ctls := s.ctls[w := c.(inbox := c.inbox[1..], known := None)])
    case EnqueueAll(w) =>
      s.(ctls := s.ctls[w := s.ctls[w].(trigger := false, dirty := s.ctls[w].dirty || s.hist[s.cached].Some?)])
    case Elapse(w) => s.(ctls := s.ctls[w := s.ctls[w].(delayed := false, dirty := true)])
    case Retry(w) => s.(ctls := s.ctls[w := s.ctls[w].(retry := false, dirty := true)])
    case Resync(w) => s.(ctls := s.ctls[w := s.ctls[w].(dirty := true)])
    case Take(w) => s.(ctls := s.ctls[w := s.ctls[w].(dirty := false, work := Got(s.cached))])
    case ReadConfig(w) => s.(ctls := s.ctls[w := s.ctls[w].(work := Ready(s.ctls[w].work.snap, s.cfg))])
    case Finish(w, times, answer) => Finished(lib, s, w, times, answer)
    case SetConfig(cfg) =>
      s.(cfg := cfg, ctls := map w | w in s.ctls :: s.ctls[w].(trigger := true))
    case Rewrite(node) => s.(hist := s.hist + [node])
  }

  /** Nobody else writes the Node, and the configuration stays. */
  predicate Undisturbed(step: Step) {
    !step.SetConfig? && !step.Rewrite?
  }

  lemma DoComplete(lib: Lib, s: Sys, step: Step)
    requires Complete(s) && Enabled(s, step)
    ensures Complete(Do(lib, s, step))
    ensures |s.hist| <= |Do(lib, s, step).hist| && Do(lib, s, step).hist[..|s.hist|] == s.hist
  {
    hide Computed;
  }

  // ---- Runs

  ghost predicate Runs(lib: Lib, s: Sys, steps: seq<Step>)
    requires Complete(s)
    decreases |steps|
  {
    steps == [] || (
      && Enabled(s, steps[0])
      && (DoComplete(lib, s, steps[0]); Runs(lib, Do(lib, s, steps[0]), steps[1..])))
  }

  ghost function After(lib: Lib, s: Sys, steps: seq<Step>): (t: Sys)
    requires Complete(s) && Runs(lib, s, steps)
    ensures Complete(t)
    decreases |steps|
  {
    if steps == [] then s
    else
      DoComplete(lib, s, steps[0]);
      After(lib, Do(lib, s, steps[0]), steps[1..])
  }

  /** How it starts: the informer has just listed the Node (or its absence), nothing is remembered. */
  ghost predicate Initial(s: Sys) {
    && Complete(s)
    && forall w: Who ::
         && s.ctls[w].work == Idle && !s.ctls[w].retry && !s.ctls[w].trigger
         && s.ctls[w].inbox == (if s.hist[s.cached].Some? then [Seen] else [])
         && s.ctls[w].known == None && s.ctls[w].clock >= 0
  }
}
