/** The Node conditions the controllers maintain (pkg/controller/conditions.go). */
module Conditions {
  import opened Text
  import opened Kube

  function PendingCondition(t: ConditionType, matched: seq<string>): Condition {
    Condition(t, IsFalse, Pending, WaitingFor(matched), 0, 0)
  }

  function AppliedCondition(t: ConditionType, matched: seq<string>): Condition {
    Condition(t, IsTrue, Applied, AppliedFrom(matched), 0, 0)
  }

  function DriftedCondition(t: ConditionType, matched: seq<string>, d: Drift, writers: seq<string>,
                            cooldown: int): Condition
  {
    Condition(t, IsFalse, Drifted, ChangedBy(matched, writers, d, cooldown), 0, 0)
  }

  // ---- The list, seen from outside

  /** The first condition of type t. */
  function Find(cs: seq<Condition>, t: ConditionType): (c: Option<Condition>)
    ensures c.Some? ==> c.value in cs && c.value.kind == t
    ensures c.None? <==> forall x :: x in cs ==> x.kind != t
  {
    if cs == [] then None
    else if cs[0].kind == t then Some(cs[0])
    else
      assert cs == [cs[0]] + cs[1..];
      Find(cs[1..], t)
  }

  function Count(cs: seq<Condition>, t: ConditionType): nat {
    if cs == [] then 0 else (if cs[0].kind == t then 1 else 0) + Count(cs[1..], t)
  }

  /** Everything of another type, in order. */
  function Without(cs: seq<Condition>, t: ConditionType): seq<Condition> {
    if cs == [] then []
    else if cs[0].kind == t then Without(cs[1..], t)
    else [cs[0]] + Without(cs[1..], t)
  }

  ghost predicate AtMostOneEach(cs: seq<Condition>) {
    forall t :: Count(cs, t) <= 1
  }

  predicate UpToDate(cs: seq<Condition>, desired: Condition) {
    var c := Find(cs, desired.kind);
    && c.Some? && c.value.status == desired.status
    && c.value.reason == desired.reason && c.value.message == desired.message
  }

  // ---- Changing it

  /** What takes the place of an older condition. */
  function Stamped(old_: Option<Condition>, desired: Condition, now: int): Condition {
    desired.(heartbeat := now,
             transition := if old_.Some? && old_.value.status == desired.status then old_.value.transition else now)
  }

  function Set(cs: seq<Condition>, desired: Condition, now: int): seq<Condition> {
    if cs == [] then [Stamped(None, desired, now)]
    else if cs[0].kind == desired.kind then [Stamped(Some(cs[0]), desired, now)] + cs[1..]
    else [cs[0]] + Set(cs[1..], desired, now)
  }

  function Remove(cs: seq<Condition>, t: ConditionType): seq<Condition> {
    if cs == [] then []
    else if cs[0].kind == t then cs[1..]
    else [cs[0]] + Remove(cs[1..], t)
  }

  lemma {:induction false} SetEffect(cs: seq<Condition>, desired: Condition, now: int, t: ConditionType)
    ensures Find(Set(cs, desired, now), t) ==
            if t == desired.kind then Some(Stamped(Find(cs, t), desired, now)) else Find(cs, t)
    ensures Count(Set(cs, desired, now), t) == if t == desired.kind && Count(cs, t) == 0 then 1 else Count(cs, t)
    ensures Without(Set(cs, desired, now), desired.kind) == Without(cs, desired.kind)
  {
    if cs == [] {
      assert Set(cs, desired, now)[1..] == [];
    } else if cs[0].kind == desired.kind {
      assert Set(cs, desired, now)[1..] == cs[1..];
    } else {
      assert Set(cs, desired, now)[1..] == Set(cs[1..], desired, now);
      SetEffect(cs[1..], desired, now, t);
      if t == desired.kind { FindCount(cs[1..], t); }
    }
  }

  lemma {:induction false} RemoveEffect(cs: seq<Condition>, gone: ConditionType, t: ConditionType)
    ensures t != gone ==> Find(Remove(cs, gone), t) == Find(cs, t)
    ensures Count(Remove(cs, gone), t) == if t == gone && Count(cs, t) > 0 then Count(cs, t) - 1 else Count(cs, t)
    ensures Without(Remove(cs, gone), gone) == Without(cs, gone)
  {
    if cs != [] && cs[0].kind != gone {
      assert Remove(cs, gone)[1..] == Remove(cs[1..], gone);
      RemoveEffect(cs[1..], gone, t);
    }
  }

  lemma {:induction false} FindCount(cs: seq<Condition>, t: ConditionType)
    ensures Find(cs, t).None? <==> Count(cs, t) == 0
  {
    if cs != [] { FindCount(cs[1..], t); }
  }

  /** A write that is needed changes the list, and afterwards none is needed. */
  lemma SetSettles(cs: seq<Condition>, desired: Condition, now: int)
    ensures UpToDate(Set(cs, desired, now), desired)
    ensures !UpToDate(cs, desired) ==> Set(cs, desired, now) != cs
  {
    SetEffect(cs, desired, now, desired.kind);
  }

  lemma RemoveChanges(cs: seq<Condition>, t: ConditionType)
    ensures Remove(cs, t) != cs <==> Find(cs, t).Some?
  {
    FindCount(cs, t);
    RemoveEffect(cs, t, t);
    if Find(cs, t).None? { RemoveNothing(cs, t); }
  }

  lemma {:induction false} RemoveNothing(cs: seq<Condition>, t: ConditionType)
    requires Count(cs, t) == 0
    ensures Remove(cs, t) == cs
  {
    if cs != [] { RemoveNothing(cs[1..], t); }
  }

  // ---- Any history of changes

  datatype Op = SetOp(desired: Condition, now: int) | RemoveOp(gone: ConditionType)

  function Apply(cs: seq<Condition>, op: Op): seq<Condition> {
    match op
    case SetOp(desired, now) => Set(cs, desired, now)
    case RemoveOp(t) => Remove(cs, t)
  }

  function Replay(cs: seq<Condition>, ops: seq<Op>): seq<Condition>
    decreases |ops|
  {
    if ops == [] then cs else Apply(Replay(cs, ops[..|ops| - 1]), ops[|ops| - 1])
  }

  /** The status of t after each operation, from the operations alone. */
  function StatusAfter(start: Option<Status>, ops: seq<Op>, t: ConditionType): Option<Status>
    decreases |ops|
  {
    if ops == [] then start
    else
      match ops[|ops| - 1]
      case SetOp(desired, _) =>
        if desired.kind == t then Some(desired.status) else StatusAfter(start, ops[..|ops| - 1], t)
      case RemoveOp(gone) => if gone == t then None else StatusAfter(start, ops[..|ops| - 1], t)
  }

  /** The time of the last operation that changed the status of t. */
  function LastChange(start: Option<Status>, since: int, ops: seq<Op>, t: ConditionType): int
    decreases |ops|
  {
    if ops == [] then since
    else
      var before := ops[..|ops| - 1];
      var op := ops[|ops| - 1];
      if op.SetOp? && StatusAfter(start, ops, t) != StatusAfter(start, before, t) then op.now
      else LastChange(start, since, before, t)
  }

  /** The time of the last write of t. */
  function LastWrite(since: int, ops: seq<Op>, t: ConditionType): int
    decreases |ops|
  {
    if ops == [] then since
    else
      var op := ops[|ops| - 1];
      if op.SetOp? && op.desired.kind == t then op.now else LastWrite(since, ops[..|ops| - 1], t)
  }

  function StatusOf(c: Option<Condition>): Option<Status> {
    if c.Some? then Some(c.value.status) else None
  }

  /** Whatever sequence of writes and removals: still at most one entry per type, the status is that of the
      last write, LastHeartbeatTime its time, and LastTransitionTime that of the last write that changed the status. */
  lemma {:induction false} ConditionHistory(cs: seq<Condition>, ops: seq<Op>, t: ConditionType)
    requires AtMostOneEach(cs)
    ensures AtMostOneEach(Replay(cs, ops))
    ensures StatusOf(Find(Replay(cs, ops), t)) == StatusAfter(StatusOf(Find(cs, t)), ops, t)
    ensures Find(Replay(cs, ops), t).Some? ==>
              Find(Replay(cs, ops), t).value.transition ==
              LastChange(StatusOf(Find(cs, t)), if Find(cs, t).Some? then Find(cs, t).value.transition else 0, ops, t)
    ensures Find(Replay(cs, ops), t).Some? ==>
              Find(Replay(cs, ops), t).value.heartbeat ==
              LastWrite(if Find(cs, t).Some? then Find(cs, t).value.heartbeat else 0, ops, t)
    decreases |ops|
  {
    if ops != [] {
      var before, op := ops[..|ops| - 1], ops[|ops| - 1];
      var mid := Replay(cs, before);
      ConditionHistory(cs, before, t);
      ApplyKeepsOne(mid, op);
      match op {
        case SetOp(desired, now) => SetEffect(mid, desired, now, t);
        case RemoveOp(gone) =>
          RemoveEffect(mid, gone, t);
          FindCount(Remove(mid, gone), t);
      }
    }
  }

  lemma ApplyKeepsOne(cs: seq<Condition>, op: Op)
    requires AtMostOneEach(cs)
    ensures AtMostOneEach(Apply(cs, op))
  {
    forall t ensures Count(Apply(cs, op), t) <= 1 {
      match op {
        case SetOp(desired, now) => SetEffect(cs, desired, now, t);
        case RemoveOp(gone) => RemoveEffect(cs, gone, t);
      }
    }
  }

  function KindOf(op: Op): ConditionType {
    if op.SetOp? then op.desired.kind else op.gone
  }

  /** Everything of a type outside kinds, in order. */
  function Outside(cs: seq<Condition>, kinds: set<ConditionType>): seq<Condition> {
    if cs == [] then []
    else if cs[0].kind in kinds then Outside(cs[1..], kinds)
    else [cs[0]] + Outside(cs[1..], kinds)
  }

  lemma {:induction false} OutsideWithout(cs: seq<Condition>, t: ConditionType, kinds: set<ConditionType>)
    requires t in kinds
    ensures Outside(Without(cs, t), kinds) == Outside(cs, kinds)
  {
    if cs != [] {
      OutsideWithout(cs[1..], t, kinds);
      if cs[0].kind != t {
        assert Without(cs, t)[1..] == Without(cs[1..], t);
      }
    }
  }

  /** Conditions of types no operation names stay as they were, in their order, whatever types the operations name. */
  lemma {:induction false} HistoryKeepsOthers(cs: seq<Condition>, ops: seq<Op>, kinds: set<ConditionType>)
    requires forall op :: op in ops ==> KindOf(op) in kinds
    ensures Outside(Replay(cs, ops), kinds) == Outside(cs, kinds)
    decreases |ops|
  {
    if ops != [] {
      var before, op := ops[..|ops| - 1], ops[|ops| - 1];
      assert op in ops && forall o :: o in before ==> o in ops;
      HistoryKeepsOthers(cs, before, kinds);
      var mid := Replay(cs, before);
      match op {
        case SetOp(desired, now) => SetEffect(mid, desired, now, desired.kind);
        case RemoveOp(gone) => RemoveEffect(mid, gone, gone);
      }
      OutsideWithout(mid, KindOf(op), kinds);
      OutsideWithout(Apply(mid, op), KindOf(op), kinds);
    }
  }

  // ---- The code

  lemma {:induction false} FindSkips(cs: seq<Condition>, t: ConditionType, i: nat)
    requires i <= |cs| && forall j :: 0 <= j < i ==> cs[j].kind != t
    ensures Find(cs, t) == Find(cs[i..], t)
  {
    if i > 0 {
      FindSkips(cs[1..], t, i - 1);
      assert cs[1..][i - 1..] == cs[i..];
    } else {
      assert cs[0..] == cs;
    }
  }

  lemma SameStart(cs: seq<Condition>, i: nat, tail: seq<Condition>)
    requires 0 < i <= |cs|
    ensures [cs[0]] + (cs[1..][..i - 1] + tail) == cs[..i] + tail
  {
    assert [cs[0]] + cs[1..][..i - 1] == cs[..i];
  }

  lemma {:induction false} SetSkips(cs: seq<Condition>, d: Condition, now: int, i: nat)
    requires i <= |cs| && forall j :: 0 <= j < i ==> cs[j].kind != d.kind
    ensures Set(cs, d, now) == cs[..i] + Set(cs[i..], d, now)
  {
    if i > 0 {
      var rest := cs[1..];
      SetSkips(rest, d, now, i - 1);
      assert rest[i - 1..] == cs[i..];
      SameStart(cs, i, Set(cs[i..], d, now));
    } else {
      assert cs[0..] == cs && cs[..0] == [];
    }
  }

  lemma {:induction false} RemoveSkips(cs: seq<Condition>, t: ConditionType, i: nat)
    requires i <= |cs| && forall j :: 0 <= j < i ==> cs[j].kind != t
    ensures Remove(cs, t) == cs[..i] + Remove(cs[i..], t)
  {
    if i > 0 {
      var rest := cs[1..];
      RemoveSkips(rest, t, i - 1);
      assert rest[i - 1..] == cs[i..];
      SameStart(cs, i, Remove(cs[i..], t));
    } else {
      assert cs[0..] == cs && cs[..0] == [];
    }
  }

  method FindCondition(node: Node, t: ConditionType) returns (c: Option<Condition>)
    ensures c == Find(node.conditions, t)
  {
    for i := 0 to |node.conditions|
      invariant forall j :: 0 <= j < i ==> node.conditions[j].kind != t
    {
      if node.conditions[i].kind == t {
        FindSkips(node.conditions, t, i);
        return Some(node.conditions[i]);
      }
    }
    return None;
  }

  method ConditionUpToDate(node: Node, desired: Condition) returns (yes: bool)
    ensures yes <==> UpToDate(node.conditions, desired)
  {
    for i := 0 to |node.conditions|
      invariant forall j :: 0 <= j < i ==> node.conditions[j].kind != desired.kind
    {
      var c := node.conditions[i];
      if c.kind != desired.kind {
        continue;
      }
      FindSkips(node.conditions, desired.kind, i);
      return c.status == desired.status && c.reason == desired.reason && c.message == desired.message;
    }
    return false;
  }

  /** A Node object of the caller's own, as DeepCopy returns it. */
  class NodeCopy {
    var node: Node

    constructor (node: Node)
      ensures this.node == node
    {
      this.node := node;
    }

    /** now is the reading of metav1.Now. */
    method SetCondition(wanted: Condition, now: int)
      modifies this
      ensures node == old(node).(conditions := Set(old(node.conditions), wanted, now))
    {
      var desired := wanted.(heartbeat := now, transition := now);
      for i := 0 to |node.conditions|
        invariant node == old(node)
        invariant desired == wanted.(heartbeat := now, transition := now)
        invariant forall j :: 0 <= j < i ==> node.conditions[j].kind != desired.kind
      {
        var c := node.conditions[i];
        if c.kind != desired.kind {
          continue;
        }
        SetSkips(node.conditions, wanted, now, i);
        if c.status == desired.status {
          desired := desired.(transition := c.transition);
        }
        node := node.(conditions := node.conditions[i := desired]);
        assert old(node.conditions)[i := desired] ==
               old(node.conditions)[..i] + ([desired] + old(node.conditions)[i..][1..]);
        return;
      }
      SetSkips(node.conditions, wanted, now, |node.conditions|);
      assert node.conditions[..|node.conditions|] == node.conditions;
      node := node.(conditions := node.conditions + [desired]);
    }

    method RemoveCondition(t: ConditionType)
      modifies this
      ensures node == old(node).(conditions := Remove(old(node.conditions), t))
    {
      for i := 0 to |node.conditions|
        invariant node == old(node)
        invariant forall j :: 0 <= j < i ==> node.conditions[j].kind != t
      {
        if node.conditions[i].kind == t {
          RemoveSkips(node.conditions, t, i);
          assert node.conditions[i..][1..] == node.conditions[i + 1..];
          node := node.(conditions := node.conditions[..i] + node.conditions[i + 1..]);
          return;
        }
      }
      RemoveSkips(node.conditions, t, |node.conditions|);
      assert node.conditions[..|node.conditions|] + [] == node.conditions;
    }
  }

  /** Of several conditions of a type the first one counts. */
  lemma FindIsFirst(cs: seq<Condition>, t: ConditionType, i: nat)
    requires i < |cs| && cs[i].kind == t && forall j :: 0 <= j < i ==> cs[j].kind != t
    ensures Find(cs, t) == Some(cs[i])
  {
    FindSkips(cs, t, i);
  }
}
