/** Putting runs together, for the statements that some run exists. */
module Scheduling {
  import opened Kube
  import opened Protocol

  ghost predicate AllUndisturbed(steps: seq<Step>) {
    forall i :: 0 <= i < |steps| ==> Undisturbed(steps[i])
  }

  /** Only the cache and d's worker move: no write, no notification. */
  ghost predicate AllQuiet(steps: seq<Step>) {
    forall i :: 0 <= i < |steps| ==> steps[i].Deliver? || steps[i].Resync? || steps[i].Take? || steps[i].ReadConfig?
  }

  // ---- Building runs

  lemma NoSteps(lib: Lib, s: Sys) returns (steps: seq<Step>)
    requires Complete(s)
    ensures Runs(lib, s, steps) && AllUndisturbed(steps) && After(lib, s, steps) == s
  {
    steps := [];
  }

  lemma {:induction false} Extend(lib: Lib, s: Sys, steps: seq<Step>, step: Step)
    requires Complete(s) && Runs(lib, s, steps) && Enabled(After(lib, s, steps), step)
    ensures Runs(lib, s, steps + [step]) && After(lib, s, steps + [step]) == Do(lib, After(lib, s, steps), step)
    decreases |steps|
  {
    hide Do, Enabled;
    if steps == [] {
      assert [] + [step] == [step] && [step][1..] == [];
      DoComplete(lib, s, step);
    } else {
      assert (steps + [step])[1..] == steps[1..] + [step] && (steps + [step])[0] == steps[0];
      DoComplete(lib, s, steps[0]);
      Extend(lib, Do(lib, s, steps[0]), steps[1..], step);
    }
  }

  lemma {:induction false} Join(lib: Lib, s: Sys, xs: seq<Step>, ys: seq<Step>)
    requires Complete(s) && Runs(lib, s, xs) && Runs(lib, After(lib, s, xs), ys)
    ensures Runs(lib, s, xs + ys) && After(lib, s, xs + ys) == After(lib, After(lib, s, xs), ys)
    decreases |xs|
  {
    hide Do, Enabled;
    if xs == [] {
      assert xs + ys == ys;
    } else {
      assert (xs + ys)[1..] == xs[1..] + ys && (xs + ys)[0] == xs[0];
      DoComplete(lib, s, xs[0]);
      Join(lib, Do(lib, s, xs[0]), xs[1..], ys);
    }
  }

  function At(t: int): Times {
    Times(t, t, t, t)
  }

  /** Lets w's worker finish what it is doing, without a write getting through. */
  lemma Drain(lib: Lib, s: Sys, w: Who) returns (steps: seq<Step>)
    requires Complete(s)
    ensures Runs(lib, s, steps) && AllUndisturbed(steps)
    ensures var t := After(lib, s, steps);
            && t.hist == s.hist && t.cfg == s.cfg && t.ctls[w].work == Idle
            && forall v :: v != w ==> t.ctls[v] == s.ctls[v]
  {
    hide Computed;
    steps := [];
    if s.ctls[w].work.Got? {
      Extend(lib, s, steps, ReadConfig(w));
      steps := steps + [ReadConfig(w)];
    }
    var t := After(lib, s, steps);
    if t.ctls[w].work.Ready? {
      var last := Finish(w, At(t.ctls[w].clock), Refused);
      Extend(lib, s, steps, last);
      steps := steps + [last];
    }
  }

  /** Brings the cache up to date and starts a pass of w. */
  lemma StartFresh(lib: Lib, s: Sys, w: Who) returns (steps: seq<Step>)
    requires Complete(s) && s.ctls[w].work == Idle && Current(s).Some?
    ensures Runs(lib, s, steps) && AllUndisturbed(steps) && AllQuiet(steps)
    ensures var t := After(lib, s, steps);
            && t.hist == s.hist && t.cfg == s.cfg && t.ctls[w].work == Ready(Last(s), s.cfg) && t.cached == Last(s)
            && t.ctls[w].known == s.ctls[w].known && t.ctls[w].clock == s.ctls[w].clock
  {
    hide Computed;
    steps := [];
    if s.cached < Last(s) {
      Extend(lib, s, steps, Deliver(Last(s)));
      steps := steps + [Deliver(Last(s))];
    }
    var t := After(lib, s, steps);
    assert t.cached == Last(t) && t.hist == s.hist && t.cfg == s.cfg && t.ctls[w].work == Idle;
    assert t.ctls[w].known == s.ctls[w].known && t.ctls[w].clock == s.ctls[w].clock;
    steps := TakeCached(lib, s, w, steps);
  }

  /** Lets w read what is in the cache, up to date or not, and the configuration. */
  lemma TakeCached(lib: Lib, s: Sys, w: Who, before: seq<Step>) returns (steps: seq<Step>)
    requires Complete(s) && Runs(lib, s, before) && AllUndisturbed(before)
    requires var t := After(lib, s, before); t.hist[t.cached].Some? && t.ctls[w].work == Idle
    ensures Runs(lib, s, steps) && AllUndisturbed(steps) && steps == before + [Resync(w), Take(w), ReadConfig(w)]
    ensures var t, u := After(lib, s, before), After(lib, s, steps);
            && u.hist == t.hist && u.cfg == t.cfg && u.ctls[w].work == Ready(t.cached, t.cfg) && u.cached == t.cached
            && u.ctls[w].known == t.ctls[w].known && u.ctls[w].clock == t.ctls[w].clock
  {
    hide Computed, Runs, After;
    var t0 := After(lib, s, before);
    Extend(lib, s, before, Resync(w));
    var t1 := Do(lib, t0, Resync(w));
    Extend(lib, s, before + [Resync(w)], Take(w));
    var t2 := Do(lib, t1, Take(w));
    Extend(lib, s, before + [Resync(w)] + [Take(w)], ReadConfig(w));
    steps := before + [Resync(w)] + [Take(w)] + [ReadConfig(w)];
    assert steps == before + [Resync(w), Take(w), ReadConfig(w)];
  }
}
