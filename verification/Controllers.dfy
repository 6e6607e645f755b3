/** The controllers' code, proved to do what a pass of the protocol does (pkg/controller). */
module Controllers {
  import opened Text
  import opened Kube
  import opened Matching
  import opened Values
  import opened Fingerprints
  import opened ExternalIPs
  import opened Conditions
  import opened Flaps
  import opened Reconcile
  import opened Protocol
  import opened Watcher
  import Safety
  import Initialization
  import Writers

  /** A Node as read, with its resourceVersion. */
  datatype Versioned = Versioned(node: Node, version: nat)

  datatype Response = Ok | Conflict | Failed

  function Successor(was: Versioned, node: Node): Versioned {
    Versioned(node, if node == was.node then was.version else was.version + 1)
  }

  /** What an update based on version does to the stored objects, and what the client hears. */
  ghost predicate Handled(before: map<string, Versioned>, after: map<string, Versioned>, node: Node, version: nat,
                          r: Response)
  {
    var fits := node.name in before && before[node.name].version == version;
    && (r == Ok ==> fits && after == before[node.name := Successor(before[node.name], node)])
    && (r == Conflict ==> node.name in before && !fits && after == before)
    && (r == Failed ==> after == before || (fits && after == before[node.name := Successor(before[node.name], node)]))
  }

  /** The API server, reached over a network that can fail before or after the request is handled. */
  class ApiServer {
    var objects: map<string, Versioned>

    constructor ()
      ensures objects == map[]
    {
      objects := map[];
    }

    method Update(node: Node, version: nat) returns (r: Response)
      modifies this
      ensures Handled(old(objects), objects, node, version, r)
    {
      var arrives: bool, answered: bool := *, *;
      if !arrives || node.name !in objects {
        return Failed;
      }
      if objects[node.name].version != version {
        return if answered then Conflict else Failed;
      }
      objects := objects[node.name := Successor(objects[node.name], node)];
      return if answered then Ok else Failed;
    }
  }

  /** The effect of sending w, if anything; err is what the reconcile function returns. */
  ghost predicate Sent(before: map<string, Versioned>, after: map<string, Versioned>, version: nat, w: Write,
                       err: bool, ok: bool)
  {
    if w == Nothing then after == before && !err && !ok
    else
      exists r :: Handled(before, after, w.node, version, r) && (err <==> r == Failed) && (ok <==> r == Ok)
  }

  /** ensureCondition. */
  method EnsureConditionOn(server: ApiServer, clock: Clock, obj: Versioned, desired: Condition)
    returns (err: bool, ghost stamp: int, ghost ok: bool)
    modifies server, clock
    ensures old(clock.t) <= stamp <= clock.t
    ensures Sent(old(server.objects), server.objects, obj.version, EnsureCondition(obj.node, desired, stamp), err, ok)
  {
    stamp := clock.t;
    var current := ConditionUpToDate(obj.node, desired);
    if current {
      return false, stamp, false;
    }
    var updated := new NodeCopy(obj.node);
    var now := clock.Now();
    stamp := now;
    updated.SetCondition(desired, now);
    var r := server.Update(updated.node, obj.version);
    return r == Failed, stamp, r == Ok;
  }

  /** ensureConditionAbsent. */
  method EnsureConditionAbsentOn(server: ApiServer, obj: Versioned, t: ConditionType)
    returns (err: bool, ghost ok: bool)
    modifies server
    ensures Sent(old(server.objects), server.objects, obj.version, EnsureConditionAbsent(obj.node, t), err, ok)
  {
    var current := FindCondition(obj.node, t);
    if current.None? {
      return false, false;
    }
    var updated := new NodeCopy(obj.node);
    updated.RemoveCondition(t);
    var r := server.Update(updated.node, obj.version);
    return r == Failed, r == Ok;
  }

  lemma PutSame(nodes: map<string, FlapState>, node: string)
    ensures Put(nodes, node, if node in nodes then Some(nodes[node]) else None) == nodes
  {
    if node in nodes {
      assert nodes[node := nodes[node]] == nodes;
    } else {
      assert nodes - {node} == nodes;
    }
  }

  /** A key to be added to the queue after a delay. */
  datatype Wait = Wait(key: string, delay: int)

  function WaitsOf(key: string, after: Option<int>): set<Wait> {
    if after.Some? then {Wait(key, after.value)} else {}
  }

  /** The plumbing every controller embeds: the informer's store, the work queue and the flap detector. */
  class NodeQueue {
    const flaps: FlapDetector
    var lister: map<string, Versioned>
    /** The work queue: queued keys, keys being processed, and keys to be added later. */
    var dirty: set<string>
    var processing: set<string>
    var delayed: set<Wait>
    var retries: set<string>

    ghost predicate Valid()
      reads this
    {
      forall key :: key in lister ==> lister[key].node.name == key
    }

    constructor (flaps: FlapDetector)
      ensures Valid() && this.flaps == flaps && lister == map[]
      ensures dirty == {} && processing == {} && delayed == {} && retries == {}
    {
      this.flaps := flaps;
      lister := map[];
      dirty, processing, delayed, retries := {}, {}, {}, {};
    }

    /** Add and update events; adding a queued key again changes nothing. */
    method Enqueue(key: string)
      modifies this`dirty
      ensures dirty == old(dirty) + {key}
    {
      dirty := dirty + {key};
    }

    /** Delete events. */
    method ForgetNode(key: string)
      modifies flaps`nodes
      ensures flaps.nodes == old(flaps.nodes) - {key}
    {
      flaps.Forget(key);
    }

    method EnqueueEverything()
      requires Valid()
      modifies this`dirty
      ensures dirty == old(dirty) + lister.Keys
    {
      var todo := lister.Keys;
      while todo != {}
        invariant todo <= lister.Keys
        invariant dirty == old(dirty) + (lister.Keys - todo)
        decreases |todo|
      {
        var key :| key in todo;
        Enqueue(lister[key].node.name);
        todo := todo - {key};
      }
    }

    /** The first half of processNextItem: a key is never handed to two workers. */
    method Get() returns (key: Option<string>)
      modifies this`dirty, this`processing
      ensures key.None? ==> dirty <= processing && dirty == old(dirty) && processing == old(processing)
      ensures key.Some? ==> key.value in old(dirty) - old(processing)
                            && dirty == old(dirty) - {key.value} && processing == old(processing) + {key.value}
    {
      if dirty <= processing {
        return None;
      }
      var k :| k in dirty && k !in processing;
      dirty := dirty - {k};
      processing := processing + {k};
      return Some(k);
    }

    /** The second half: an error is retried, and a key added meanwhile is still queued. */
    method Done(key: string, err: bool)
      modifies this`processing, this`retries
      ensures retries == old(retries) + (if err then {key} else {}) && processing == old(processing) - {key}
    {
      if err {
        retries := retries + {key};
      }
      processing := processing - {key};
    }

    method AddAfter(key: string, delay: int)
      modifies this`delayed
      ensures delayed == old(delayed) + {Wait(key, delay)}
    {
      delayed := delayed + {Wait(key, delay)};
    }

    /** beforeApply. The ghost results are the outcome it has, its clock readings, and whether the server accepted. */
    method BeforeApplyOn(lib: Lib, ghost cfg: Config, d: Domain, server: ApiServer, obj: Versioned,
                         matched: seq<string>, desired: string, drift: Drift)
      returns (apply: bool, err: bool, ghost o: Outcome, ghost t: Times, ghost ok: bool)
      requires matched == Matched(lib, cfg, d, obj.node)
      requires desired == DesiredPrint(lib, cfg, d, obj.node) && drift == DriftIn(lib, cfg, d, obj.node)
      modifies this`delayed, flaps`nodes, flaps.clock, server
      ensures old(flaps.clock.t) <= t.now <= t.later <= t.end == flaps.clock.t && t.stamp <= t.end
      ensures o == BeforeApply(lib, cfg, d, obj.node, old(flaps.Of(obj.node.name)), t.now, t.later, t.stamp)
      ensures apply <==> o.write.Update?
      ensures apply ==> server.objects == old(server.objects) && !err && !ok
      ensures !apply ==> Sent(old(server.objects), server.objects, obj.version, o.write, err, ok)
      ensures flaps.nodes == Put(old(flaps.nodes), obj.node.name, o.known)
      ensures delayed == old(delayed) + WaitsOf(obj.node.name, o.after)
    {
      hide Matched, DesiredPrint, DriftIn, WithValues, Writers.Recent, EnsureCondition, Sent;
      var node := obj.node;
      ghost var known := flaps.Of(node.name);
      ghost var start := flaps.clock.t;
      PutSame(flaps.nodes, node.name);
      var current := FindCondition(node, ConditionOf(d));
      if current.Some? && current.value.status == IsTrue {
        var changed := flaps.RulesChangedFor(node.name, desired);
        if changed {
          ghost var stamp;
          err, stamp, ok := EnsureConditionOn(server, flaps.clock, obj, PendingCondition(ConditionOf(d), matched));
          t := Times(start, start, flaps.clock.t, stamp);
          o := BeforeApply(lib, cfg, d, node, known, t.now, t.later, t.stamp);
          EnsureSendsStatus(node, PendingCondition(ConditionOf(d), matched), stamp);
          return false, err, o, t, ok;
        }
        var cooldown, count, appliedAt, now := flaps.Drifted(node.name, current.value.heartbeat);
        var changedBy := Writers.RecentWriters(node, lib.manager, Subresource(d), appliedAt, FieldPath(d));
        if cooldown == 0 {
          t := Times(now, now, flaps.clock.t, now);
          o := BeforeApply(lib, cfg, d, node, known, t.now, t.later, t.stamp);
          return true, false, o, t, false;
        }
        AddAfter(node.name, cooldown);
        ghost var stamp;
        err, stamp, ok := EnsureConditionOn(server, flaps.clock, obj,
                                            DriftedCondition(ConditionOf(d), matched, drift, changedBy, cooldown));
        t := Times(now, now, flaps.clock.t, stamp);
        o := BeforeApply(lib, cfg, d, node, known, t.now, t.later, t.stamp);
        EnsureSendsStatus(node, DriftedCondition(ConditionOf(d), matched, drift, changedBy, cooldown), stamp);
        return false, err, o, t, ok;
      }
      var wait, now, later := flaps.RemainingFor(node.name);
      if wait > 0 {
        AddAfter(node.name, wait);
        t := Times(now, later, flaps.clock.t, now);
        o := BeforeApply(lib, cfg, d, node, known, t.now, t.later, t.stamp);
        SentNothing(server.objects, obj.version);
        return false, false, o, t, false;
      }
      if current.None? {
        ghost var stamp;
        err, stamp, ok := EnsureConditionOn(server, flaps.clock, obj, PendingCondition(ConditionOf(d), matched));
        t := Times(now, later, flaps.clock.t, stamp);
        o := BeforeApply(lib, cfg, d, node, known, t.now, t.later, t.stamp);
        EnsureSendsStatus(node, PendingCondition(ConditionOf(d), matched), stamp);
        return false, err, o, t, ok;
      }
      t := Times(now, later, flaps.clock.t, now);
      o := BeforeApply(lib, cfg, d, node, known, t.now, t.later, t.stamp);
      return true, false, o, t, false;
    }
  }

  lemma SentNothing(objects: map<string, Versioned>, version: nat)
    ensures Sent(objects, objects, version, Nothing, false, false)
  {
  }

  lemma EnsureSendsStatus(node: Node, desired: Condition, stamp: int)
    ensures !EnsureCondition(node, desired, stamp).Update?
  {
  }

  // ---- The reconcile functions

  ghost function Read(lister: map<string, Versioned>, key: string): Option<Node> {
    if key in lister then Some(lister[key].node) else None
  }

  ghost function ReadVersion(lister: map<string, Versioned>, key: string): nat {
    if key in lister then lister[key].version else 0
  }

  ghost function Lookup(nodes: map<string, FlapState>, key: string): Known {
    if key in nodes then Some(nodes[key]) else None
  }

  /** What the detector knows once the answer to the write is in. */
  function Noted(o: Outcome, t: Times, ok: bool): Known {
    if o.write.Update? && ok then Some(AppliedStep(o.known, t.end, o.write.mark)) else o.known
  }

  /** The state of the detector, the server and the queue after a reconcile call that had outcome o. */
  ghost predicate CarriedOut(o: Outcome, t: Times, key: string, version: nat,
                             nodes: map<string, FlapState>, nodes': map<string, FlapState>,
                             objects: map<string, Versioned>, objects': map<string, Versioned>,
                             delayed: set<Wait>, delayed': set<Wait>, err: bool, ok: bool)
  {
    && Sent(objects, objects', version, o.write, err, ok)
    && nodes' == Put(nodes, key, Noted(o, t, ok))
    && delayed' == delayed + WaitsOf(key, o.after)
  }

  lemma PutTwice(nodes: map<string, FlapState>, key: string, d: Known, s: FlapState)
    ensures Put(nodes, key, d)[key := s] == Put(nodes, key, Some(s))
    ensures StateOf(Lookup(Put(nodes, key, d), key)) == StateOf(d)
  {
  }

  /** The end of both reconcile functions: beforeApply, and the values if it says so. updated carries the values. */
  method ApplyUnlessHeldBack(q: NodeQueue, server: ApiServer, lib: Lib, ghost cfg: Config, d: Domain, obj: Versioned,
                             matched: seq<string>, mark: string, drift: Drift, updated: Node)
    returns (err: bool, ghost o: Outcome, ghost t: Times, ghost ok: bool)
    requires matched == Matched(lib, cfg, d, obj.node) && updated == WithValues(lib, cfg, d, obj.node)
    requires mark == DesiredPrint(lib, cfg, d, obj.node) && drift == DriftIn(lib, cfg, d, obj.node)
    modifies q`delayed, q.flaps`nodes, q.flaps.clock, server
    ensures old(q.flaps.clock.t) <= t.now <= t.later <= t.end == q.flaps.clock.t && t.stamp <= t.end
    ensures o == BeforeApply(lib, cfg, d, obj.node, Lookup(old(q.flaps.nodes), obj.node.name), t.now, t.later, t.stamp)
    ensures CarriedOut(o, t, obj.node.name, obj.version, old(q.flaps.nodes), q.flaps.nodes,
                       old(server.objects), server.objects, old(q.delayed), q.delayed, err, ok)
  {
    hide Matched, WithValues, DesiredPrint, DriftIn, Sent, BeforeApply;
    var apply;
    apply, err, o, t, ok := q.BeforeApplyOn(lib, cfg, d, server, obj, matched, mark, drift);
    if !apply {
      return err, o, t, ok;
    }
    UpdateIsValueWrite(lib, cfg, d, obj.node, Lookup(old(q.flaps.nodes), obj.node.name), t);
    var r := server.Update(updated, obj.version);
    SentUpdate(old(server.objects), server.objects, obj.version, o.write, r);
    if r != Ok {
      return r == Failed, o, t, false;
    }
    ghost var end := q.flaps.Applied(obj.node.name, mark);
    PutTwice(old(q.flaps.nodes), obj.node.name, o.known, AppliedStep(o.known, end, mark));
    t := t.(end := end);
    return false, o, t, true;
  }

  /** The branches of a pass. */
  lemma PassCases(lib: Lib, cfg: Config, d: Domain, node: Node, known: Known, now: int, later: int, stamp: int)
    ensures Pass(lib, cfg, d, None, known, now, later, stamp) == Outcome(None, Nothing, None)
    ensures Matched(lib, cfg, d, node) == [] ==>
              Pass(lib, cfg, d, Some(node), known, now, later, stamp) ==
              Outcome(None, EnsureConditionAbsent(node, ConditionOf(d)), None)
    ensures Matched(lib, cfg, d, node) != [] && WithValues(lib, cfg, d, node) == node ==>
              Pass(lib, cfg, d, Some(node), known, now, later, stamp) ==
              Outcome(known,
                      EnsureCondition(node, AppliedCondition(ConditionOf(d), Matched(lib, cfg, d, node)), stamp), None)
    ensures Matched(lib, cfg, d, node) != [] && WithValues(lib, cfg, d, node) != node ==>
              Pass(lib, cfg, d, Some(node), known, now, later, stamp) ==
              BeforeApply(lib, cfg, d, node, known, now, later, stamp)
  {
    hide Matched, WithValues, BeforeApply, EnsureCondition, EnsureConditionAbsent;
  }

  /** Labels or annotations. */
  class MetadataController {
    const lib: Lib
    const q: NodeQueue
    const server: ApiServer
    const config: ConfigWatcher
    const patterns: PatternCache
    const domain: Domain

    constructor (lib: Lib, q: NodeQueue, server: ApiServer, config: ConfigWatcher, patterns: PatternCache,
                 domain: Domain)
      requires domain != Addresses
      ensures this.lib == lib && this.q == q && this.server == server && this.config == config
      ensures this.patterns == patterns && this.domain == domain
    {
      this.lib, this.q, this.server, this.config := lib, q, server, config;
      this.patterns, this.domain := patterns, domain;
    }

    /** Does exactly what a pass over the Node in the store, under the current configuration, does. */
    method Reconcile(key: string) returns (err: bool, ghost o: Outcome, ghost t: Times, ghost ok: bool)
      requires domain != Addresses && q.Valid() && patterns.Valid(lib)
      modifies q`delayed, q.flaps`nodes, q.flaps.clock, server, patterns
      ensures q.Valid() && patterns.Valid(lib)
      ensures old(q.flaps.clock.t) <= t.now <= t.later <= t.end == q.flaps.clock.t && t.stamp <= t.end
      ensures o == Pass(lib, config.current, domain, Read(q.lister, key), Lookup(old(q.flaps.nodes), key),
                        t.now, t.later, t.stamp)
      ensures CarriedOut(o, t, key, ReadVersion(q.lister, key), old(q.flaps.nodes), q.flaps.nodes,
                         old(server.objects), server.objects, old(q.delayed), q.delayed, err, ok)
    {
      hide Pass, Matched, WithValues, DesiredPrint, DriftIn, CarriedOut, EnsureCondition;
      hide EnsureConditionAbsent, BeforeApply;
      hide MatchingIDs, Resolved, RulesFor, DriftOf, Fingerprint, Holds, Put, Handled, Sent;
      if key !in q.lister {
        q.flaps.Forget(key);
        err, o, t, ok := false, Outcome(None, Nothing, None), Still(q.flaps.clock.t), false;
        PassAbsent(lib, config.current, domain, Lookup(old(q.flaps.nodes), key), t);
        NothingCarriedOut(t, key, old(q.flaps.nodes), server.objects, q.delayed);
        return;
      }
      var obj := q.lister[key];
      var node := obj.node;
      var cfg := config.current;
      var rules := ValueRules(cfg, domain);
      var matched := patterns.MatchAll(lib, node, ValueMatches(rules));
      MatchedValues(lib, cfg, domain, node);
      if |matched| == 0 {
        q.flaps.Forget(key);
        err, o, t, ok := ClearOn(q, server, lib, cfg, domain, obj, old(q.flaps.nodes));
        return;
      }
      var desired := ResolveValues(matched, rules);
      var newValues, changed := ApplyOverwrite(GetValues(domain, node), desired);
      ValuesOf(lib, cfg, domain, node, desired);
      if !changed {
        err, o, t, ok := ConfirmOn(q, server, lib, cfg, domain, obj, matched);
        return;
      }
      var mark := ComputeFingerprint(desired);
      var drift := MetadataDrift(GetValues(domain, node), desired);
      err, o, t, ok := ApplyUnlessHeldBack(q, server, lib, cfg, domain, obj, matched, mark, drift,
                                           SetValues(domain, node, newValues));
      PassCases(lib, cfg, domain, node, Lookup(old(q.flaps.nodes), key), t.now, t.later, t.stamp);
    }
  }

  function Still(t: int): Times {
    Times(t, t, t, t)
  }

  lemma MatchedValues(lib: Lib, cfg: Config, d: Domain, node: Node)
    requires d != Addresses
    ensures Matched(lib, cfg, d, node) ==
            MatchingIDs(lib, node.labels, node.name, node.providerID, ValueMatches(ValueRules(cfg, d)))
  {
    hide MatchingIDs;
  }

  lemma ValuesOf(lib: Lib, cfg: Config, d: Domain, node: Node, desired: Pairs)
    requires d != Addresses && desired == Desired(lib, cfg, d, node)
    ensures WithValues(lib, cfg, d, node) == SetValues(d, node, GetValues(d, node) + desired)
    ensures WithValues(lib, cfg, d, node) == node <==> GetValues(d, node) + desired == GetValues(d, node)
    ensures DesiredPrint(lib, cfg, d, node) == Fingerprint(desired)
    ensures DriftIn(lib, cfg, d, node) == DriftOf(GetValues(d, node), desired)
  {
    hide Desired, Fingerprint, DriftOf;
  }

  lemma PassAbsent(lib: Lib, cfg: Config, d: Domain, known: Known, t: Times)
    ensures Pass(lib, cfg, d, None, known, t.now, t.later, t.stamp) == Outcome(None, Nothing, None)
  {
  }

  lemma NothingCarriedOut(t: Times, key: string, nodes: map<string, FlapState>, objects: map<string, Versioned>,
                          delayed: set<Wait>)
    ensures CarriedOut(Outcome(None, Nothing, None), t, key, 0, nodes, nodes - {key}, objects, objects,
                       delayed, delayed, false, false)
  {
  }

  /** No rule matches (the detector has just forgotten the Node): the condition goes. */
  method ClearOn(q: NodeQueue, server: ApiServer, lib: Lib, ghost cfg: Config, d: Domain, obj: Versioned,
                 ghost nodes: map<string, FlapState>)
    returns (err: bool, ghost o: Outcome, ghost t: Times, ghost ok: bool)
    requires Matched(lib, cfg, d, obj.node) == [] && q.flaps.nodes == nodes - {obj.node.name}
    modifies server
    ensures t == Still(q.flaps.clock.t)
    ensures o == Pass(lib, cfg, d, Some(obj.node), Lookup(nodes, obj.node.name), t.now, t.later, t.stamp)
    ensures CarriedOut(o, t, obj.node.name, obj.version, nodes, q.flaps.nodes,
                       old(server.objects), server.objects, q.delayed, q.delayed, err, ok)
  {
    hide Matched, Sent, Pass;
    t := Still(q.flaps.clock.t);
    err, ok := EnsureConditionAbsentOn(server, obj, ConditionOf(d));
    o := Outcome(None, EnsureConditionAbsent(obj.node, ConditionOf(d)), None);
    PassCases(lib, cfg, d, obj.node, Lookup(nodes, obj.node.name), t.now, t.later, t.stamp);
  }

  /** All values are in place: the condition becomes True. */
  method ConfirmOn(q: NodeQueue, server: ApiServer, lib: Lib, ghost cfg: Config, d: Domain, obj: Versioned,
                   matched: seq<string>)
    returns (err: bool, ghost o: Outcome, ghost t: Times, ghost ok: bool)
    requires matched == Matched(lib, cfg, d, obj.node) != [] && WithValues(lib, cfg, d, obj.node) == obj.node
    modifies server, q.flaps.clock
    ensures old(q.flaps.clock.t) <= t.now <= t.later <= t.end == q.flaps.clock.t && t.stamp <= t.end
    ensures o == Pass(lib, cfg, d, Some(obj.node), Lookup(q.flaps.nodes, obj.node.name), t.now, t.later, t.stamp)
    ensures CarriedOut(o, t, obj.node.name, obj.version, q.flaps.nodes, q.flaps.nodes,
                       old(server.objects), server.objects, q.delayed, q.delayed, err, ok)
  {
    hide Matched, WithValues, Sent, Pass, EnsureCondition;
    ghost var start, stamp := q.flaps.clock.t, 0;
    err, stamp, ok := EnsureConditionOn(server, q.flaps.clock, obj, AppliedCondition(ConditionOf(d), matched));
    t := Times(start, start, q.flaps.clock.t, stamp);
    o := Outcome(Lookup(q.flaps.nodes, obj.node.name),
                 EnsureCondition(obj.node, AppliedCondition(ConditionOf(d), matched), stamp), None);
    PassCases(lib, cfg, d, obj.node, Lookup(q.flaps.nodes, obj.node.name), t.now, t.later, t.stamp);
    EnsureSendsStatus(obj.node, AppliedCondition(ConditionOf(d), matched), stamp);
    PutSame(q.flaps.nodes, obj.node.name);
  }

  lemma UpdateIsValueWrite(lib: Lib, cfg: Config, d: Domain, node: Node, known: Known, t: Times)
    ensures var o := BeforeApply(lib, cfg, d, node, known, t.now, t.later, t.stamp);
            o.write.Update? ==> o.write == Update(WithValues(lib, cfg, d, node), DesiredPrint(lib, cfg, d, node))
  {
    hide Matched, WithValues, DesiredPrint, DriftIn, WritersIn;
  }

  lemma SentUpdate(before: map<string, Versioned>, after: map<string, Versioned>, version: nat, w: Write, r: Response)
    requires w != Nothing && Handled(before, after, w.node, version, r)
    ensures Sent(before, after, version, w, r == Failed, r == Ok)
  {
  }

  class ExternalIPController {
    const lib: Lib
    const q: NodeQueue
    const server: ApiServer
    const config: ConfigWatcher
    const patterns: PatternCache

    constructor (lib: Lib, q: NodeQueue, server: ApiServer, config: ConfigWatcher, patterns: PatternCache)
      ensures this.lib == lib && this.q == q && this.server == server && this.config == config
      ensures this.patterns == patterns
    {
      this.lib, this.q, this.server, this.config, this.patterns := lib, q, server, config, patterns;
    }

    method Reconcile(key: string) returns (err: bool, ghost o: Outcome, ghost t: Times, ghost ok: bool)
      requires q.Valid() && patterns.Valid(lib)
      modifies q`delayed, q.flaps`nodes, q.flaps.clock, server, patterns
      ensures q.Valid() && patterns.Valid(lib)
      ensures old(q.flaps.clock.t) <= t.now <= t.later <= t.end == q.flaps.clock.t && t.stamp <= t.end
      ensures o == Pass(lib, config.current, Addresses, Read(q.lister, key), Lookup(old(q.flaps.nodes), key),
                        t.now, t.later, t.stamp)
      ensures CarriedOut(o, t, key, ReadVersion(q.lister, key), old(q.flaps.nodes), q.flaps.nodes,
                         old(server.objects), server.objects, old(q.delayed), q.delayed, err, ok)
    {
      hide Pass, Matched, WithValues, DesiredPrint, DriftIn, CarriedOut, EnsureCondition;
      hide EnsureConditionAbsent, BeforeApply;
      hide MatchingIDs, RuleIPs, Merged, IPFingerprint, MissingIPs, Put, Handled, Sent;
      if key !in q.lister {
        q.flaps.Forget(key);
        err, o, t, ok := false, Outcome(None, Nothing, None), Still(q.flaps.clock.t), false;
        PassAbsent(lib, config.current, Addresses, Lookup(old(q.flaps.nodes), key), t);
        NothingCarriedOut(t, key, old(q.flaps.nodes), server.objects, q.delayed);
        return;
      }
      var obj := q.lister[key];
      var node := obj.node;
      var cfg := config.current;
      var rules := cfg.externalIPs;
      var matched := patterns.MatchAll(lib, node, IPMatches(rules));
      MatchedIPs(lib, cfg, node);
      if |matched| == 0 {
        q.flaps.Forget(key);
        err, o, t, ok := ClearOn(q, server, lib, cfg, Addresses, obj, old(q.flaps.nodes));
        return;
      }
      var externalIPs := CollectIPs(rules, matched);
      var newAddresses, changed := MergeExternalIPs(lib, node.addresses, externalIPs);
      IPsOf(lib, cfg, node, externalIPs);
      if !changed {
        err, o, t, ok := ConfirmOn(q, server, lib, cfg, Addresses, obj, matched);
        return;
      }
      var mark := ComputeIPFingerprint(externalIPs);
      var drift := ExternalIPDrift(node.addresses, externalIPs);
      err, o, t, ok := ApplyUnlessHeldBack(q, server, lib, cfg, Addresses, obj, matched, mark, drift,
                                           node.(addresses := newAddresses));
      PassCases(lib, cfg, Addresses, node, Lookup(old(q.flaps.nodes), key), t.now, t.later, t.stamp);
    }
  }

  lemma MatchedIPs(lib: Lib, cfg: Config, node: Node)
    ensures Matched(lib, cfg, Addresses, node) ==
            MatchingIDs(lib, node.labels, node.name, node.providerID, IPMatches(cfg.externalIPs))
  {
    hide MatchingIDs;
  }

  lemma IPsOf(lib: Lib, cfg: Config, node: Node, ips: seq<string>)
    requires ips == DesiredIPs(lib, cfg, node)
    ensures WithValues(lib, cfg, Addresses, node) == node.(addresses := Merged(lib, node.addresses, ips))
    ensures WithValues(lib, cfg, Addresses, node) == node <==> Merged(lib, node.addresses, ips) == node.addresses
    ensures DesiredPrint(lib, cfg, Addresses, node) == IPFingerprint(ips)
    ensures DriftIn(lib, cfg, Addresses, node) == Drift(MissingIPs(node.addresses, ips), [])
  {
    hide DesiredIPs, Merged, IPFingerprint, MissingIPs;
  }

  method CollectIPs(rules: map<string, IPRule>, matched: seq<string>) returns (ips: seq<string>)
    requires forall id :: id in matched ==> id in rules
    ensures ips == RuleIPs(rules, matched)
  {
    ips := [];
    assert matched[0..] == matched;
    for i := 0 to |matched|
      invariant ips + RuleIPs(rules, matched[i..]) == RuleIPs(rules, matched)
    {
      assert matched[i..][1..] == matched[i + 1..];
      ghost var here, rest := rules[matched[i]].externalIPs, RuleIPs(rules, matched[i + 1..]);
      assert RuleIPs(rules, matched[i..]) == here + rest;
      assert ips + (here + rest) == (ips + here) + rest;
      ips := ips + rules[matched[i]].externalIPs;
    }
    assert ips + [] == ips;
  }

  class InitializationController {
    const lib: Lib
    const q: NodeQueue
    const server: ApiServer
    const config: ConfigWatcher
    const patterns: PatternCache

    constructor (lib: Lib, q: NodeQueue, server: ApiServer, config: ConfigWatcher, patterns: PatternCache)
      ensures this.lib == lib && this.q == q && this.server == server && this.config == config
      ensures this.patterns == patterns
    {
      this.lib, this.q, this.server, this.config, this.patterns := lib, q, server, config, patterns;
    }

    method Reconcile(key: string) returns (err: bool, ghost w: Write, ghost ok: bool)
      requires q.Valid() && patterns.Valid(lib)
      modifies server, patterns
      ensures q.Valid() && patterns.Valid(lib)
      ensures w == Computed(lib, Init, config.current, Read(q.lister, key), None, Times(0, 0, 0, 0)).write
      ensures Sent(old(server.objects), server.objects, ReadVersion(q.lister, key), w, err, ok)
    {
      hide MatchingIDs, Sent, Initialization.Schemes, Initialization.SchemeOf, Initialization.ProviderID;
      SentNothing(server.objects, ReadVersion(q.lister, key));
      w := Nothing;
      if key !in q.lister {
        return false, w, false;
      }
      var obj := q.lister[key];
      var node := obj.node;
      var rules := config.current.initialization;
      var matched := patterns.MatchAll(lib, node, Initialization.InitMatches(config.current));
      if |matched| == 0 {
        return false, w, false;
      }
      var providerID := node.providerID;
      if providerID == "" {
        var scheme, agreed := Initialization.ResolveProviderIDScheme(matched, rules);
        if !agreed {
          return false, w, false;
        }
        if scheme != "" {
          providerID := Initialization.ProviderID(scheme, node.name);
        }
      }
      var tainted := Initialization.HasUninitializedTaint(node);
      if providerID == node.providerID && !tainted {
        return false, w, false;
      }
      var updated := new NodeCopy(node);
      updated.node := updated.node.(providerID := providerID);
      var taints := Initialization.RemoveTaint(updated.node.taints);
      updated.node := updated.node.(taints := taints);
      w := Update(updated.node, "");
      var r := server.Update(updated.node, obj.version);
      SentUpdate(old(server.objects), server.objects, obj.version, w, r);
      return r == Failed, w, r == Ok;
    }
  }

  // ---- The code takes steps of the protocol

  /** The stored object is the last version. */
  ghost predicate HoldsLast(objects: map<string, Versioned>, name: string, hist: seq<Option<Node>>)
    requires hist != []
  {
    var last := hist[|hist| - 1];
    (name in objects <==> last.Some?) && (last.Some? ==> objects[name] == Versioned(last.value, |hist| - 1))
  }

  /** The code's state, as far as controller w and the Node called name are concerned, is that of s: the stored object
      (or its absence), what the detector knows, and whether a delayed add is pending. */
  ghost predicate Mirrors(s: Sys, w: Who, name: string, objects: map<string, Versioned>, nodes: map<string, FlapState>,
                          delayed: set<Wait>)
    requires Complete(s)
  {
    && HoldsLast(objects, name, s.hist)
    && (w.Rule? ==> Lookup(nodes, name) == s.ctls[w].known)
    && (s.ctls[w].delayed <==> exists x :: x in delayed && x.key == name)
  }

  /** What the Reconcile methods promise: those of the rule controllers, and that of the initialization controller. */
  ghost predicate Reconciled(w: Who, o: Outcome, t: Times, key: string, version: nat,
                             nodes: map<string, FlapState>, nodes': map<string, FlapState>,
                             objects: map<string, Versioned>, objects': map<string, Versioned>,
                             delayed: set<Wait>, delayed': set<Wait>, err: bool, ok: bool)
  {
    if w.Rule? then CarriedOut(o, t, key, version, nodes, nodes', objects, objects', delayed, delayed', err, ok)
    else Sent(objects, objects', version, o.write, err, ok) && nodes' == nodes && delayed' == delayed
  }

  lemma SameName(lib: Lib, s: Sys, w: Who, times: Times)
    requires Complete(s) && s.ctls[w].work.Ready? && OutcomeOf(lib, s, w, times).write != Nothing
    ensures s.hist[s.ctls[w].work.snap].Some?
    ensures OutcomeOf(lib, s, w, times).write.node.name == s.hist[s.ctls[w].work.snap].value.name
  {
    hide Computed;
    Safety.ComputedOwn(lib, w, s.ctls[w].work.cfg, s.hist[s.ctls[w].work.snap], s.ctls[w].known, times);
  }

  lemma InitNoted(lib: Lib, s: Sys, w: Who, times: Times)
    requires Complete(s) && s.ctls[w].work.Ready?
    ensures w == Init ==> OutcomeOf(lib, s, w, times).after == None
  {
    hide Pass, Initialization.InitWrite;
  }

  /** The protocol's answer that fits what the server did and what the client heard. */
  lemma ServerAnswer(hist: seq<Option<Node>>, snap: nat, write: Write, name: string, objects: map<string, Versioned>,
                     objects': map<string, Versioned>, err: bool, ok: bool)
    returns (answer: Answer)
    requires snap < |hist| && HoldsLast(objects, name, hist)
    requires write != Nothing ==> write.node.name == name && hist[snap].Some?
    requires Sent(objects, objects', snap, write, err, ok)
    ensures HoldsLast(objects', name, Stored(hist, snap, write, answer)) && objects' - {name} == objects - {name}
    ensures Fails(hist, snap, write, answer) <==> err
    ensures ok <==> Accepted(hist, snap, write, answer) && answer == Answered
  {
    if write == Nothing {
      answer := Answered;
    } else {
      var r :| Handled(objects, objects', write.node, snap, r) && (err <==> r == Failed) && (ok <==> r == Ok);
      answer := if r != Failed then Answered else if objects' == objects then Refused else Lost;
    }
  }

  lemma AnswerFits(lib: Lib, s: Sys, w: Who, times: Times, name: string,
                   nodes: map<string, FlapState>, nodes': map<string, FlapState>,
                   objects: map<string, Versioned>, objects': map<string, Versioned>,
                   delayed: set<Wait>, delayed': set<Wait>, err: bool, ok: bool)
    returns (answer: Answer)
    requires Complete(s) && Enabled(s, Finish(w, times, Answered)) && Mirrors(s, w, name, objects, nodes, delayed)
    requires var o := OutcomeOf(lib, s, w, times);
             && (o.write != Nothing ==> o.write.node.name == name && s.hist[s.ctls[w].work.snap].Some?)
             && Reconciled(w, o, times, name, s.ctls[w].work.snap, nodes, nodes', objects, objects',
                           delayed, delayed', err, ok)
    ensures var t := Finished(lib, s, w, times, answer);
            && Complete(t) && Mirrors(t, w, name, objects', nodes', delayed')
            && objects' - {name} == objects - {name}
            && t.ctls[w].retry == (s.ctls[w].retry || err)
  {
    hide Computed, Sent, Stored, Fails, Accepted, Put;
    var o := OutcomeOf(lib, s, w, times);
    answer := ServerAnswer(s.hist, s.ctls[w].work.snap, o.write, name, objects, objects', err, ok);
    InitNoted(lib, s, w, times);
    DoComplete(lib, s, Finish(w, times, answer));
    if w.Rule? { PutFound(nodes, name, Noted(o, times, ok)); }
  }

  lemma PutFound(nodes: map<string, FlapState>, name: string, d: Known)
    ensures Lookup(Put(nodes, name, d), name) == d
  {
  }

  /** A reconcile call takes the code from one mirror image of the protocol to the next: whatever the server does, it
      is a Finish step, with the answer that fits. Conflicts are swallowed, errors retried, other objects left alone.
      */
  lemma CodeIsStep(lib: Lib, s: Sys, w: Who, times: Times, name: string,
                   nodes: map<string, FlapState>, nodes': map<string, FlapState>,
                   objects: map<string, Versioned>, objects': map<string, Versioned>,
                   delayed: set<Wait>, delayed': set<Wait>, err: bool, ok: bool)
    returns (answer: Answer)
    requires Complete(s) && Enabled(s, Finish(w, times, Answered)) && Mirrors(s, w, name, objects, nodes, delayed)
    requires var o, node := OutcomeOf(lib, s, w, times), s.hist[s.ctls[w].work.snap];
             && (node.Some? ==> node.value.name == name)
             && Reconciled(w, o, times, name, s.ctls[w].work.snap, nodes, nodes', objects, objects',
                           delayed, delayed', err, ok)
    ensures var t := Finished(lib, s, w, times, answer);
            && Complete(t) && Mirrors(t, w, name, objects', nodes', delayed')
            && objects' - {name} == objects - {name}
            && t.ctls[w].retry == (s.ctls[w].retry || err)
  {
    hide Computed, OutcomeOf, Finished, Mirrors, Reconciled;
    if OutcomeOf(lib, s, w, times).write != Nothing { SameName(lib, s, w, times); }
    answer := AnswerFits(lib, s, w, times, name, nodes, nodes', objects, objects', delayed, delayed', err, ok);
  }
}
