/** The flap detector (pkg/controller/flaps.go): per Node, how often applied values were changed back, and the
    exponential cooldown before they are restored. */
module Flaps {
  import opened Text
  import opened Kube
  import opened Values
  import opened Fingerprints

  const MIN_COOLDOWN := 500_000_000
  const MAX_COOLDOWN := 64 * SECOND
  const FLAP_WINDOW := 2 * MAX_COOLDOWN

  const MAX_INT64 := 0x7fff_ffff_ffff_ffff
  const MIN_INT64 := -0x8000_0000_0000_0000

  datatype FlapState = FlapState(flaps: nat, appliedAt: int, until: int, desired: string)

  const ZERO_STATE := FlapState(0, 0, 0, "")

  /** What the detector knows about one Node; None before anything is recorded. */
  type Known = Option<FlapState>

  function StateOf(d: Known): FlapState {
    if d.Some? then d.value else ZERO_STATE
  }

  /** time.Time.Sub saturates. */
  function Sub(a: int, b: int): int {
    if a - b > MAX_INT64 then MAX_INT64 else if a - b < MIN_INT64 then MIN_INT64 else a - b
  }

  function Pow2(n: nat): nat {
    if n == 0 then 1 else 2 * Pow2(n - 1)
  }

  /** Wraps to a signed 64-bit integer. */
  function Wrap64(x: int): int {
    (x - MIN_INT64) % 0x1_0000_0000_0000_0000 + MIN_INT64
  }

  /** Go's shift of a Duration. */
  function Shl(x: int, n: nat): int {
    Wrap64(x * Pow2(n))
  }

  /** The cooldown of the k-th flap, as the code bounds the shift. */
  function Cooldown(k: nat): int
    requires k >= 1
  {
    if k - 1 < 16 && Shl(MIN_COOLDOWN, k - 1) < MAX_COOLDOWN then Shl(MIN_COOLDOWN, k - 1) else MAX_COOLDOWN
  }

  // ---- What each operation does to one Node's state

  function AppliedStep(d: Known, now: int, desired: string): FlapState {
    StateOf(d).(appliedAt := now, desired := desired)
  }

  predicate RulesChanged(d: Known, desired: string) {
    d.Some? && d.value.desired != "" && d.value.desired != desired
  }

  function RulesChangedStep(d: Known, desired: string): Known {
    if RulesChanged(d, desired) then Some(ZERO_STATE) else d
  }

  function LastApplied(d: Known, confirmedAt: int): int {
    if confirmedAt > StateOf(d).appliedAt then confirmedAt else StateOf(d).appliedAt
  }

  predicate Cooling(d: Known, now: int) {
    now < StateOf(d).until
  }

  predicate Held(d: Known, now: int, confirmedAt: int) {
    Sub(now, LastApplied(d, confirmedAt)) > FLAP_WINDOW
  }

  datatype Verdict = Verdict(state: FlapState, cooldown: int, flaps: nat, last: int)

  function DriftedStep(d: Known, now: int, confirmedAt: int): Verdict {
    var s, last := StateOf(d), LastApplied(d, confirmedAt);
    if Cooling(d, now) then Verdict(s, Sub(s.until, now), s.flaps, last)
    else if Held(d, now, confirmedAt) then Verdict(s.(flaps := 0), 0, 0, last)
    else
      var cooldown := Cooldown(s.flaps + 1);
      Verdict(s.(flaps := s.flaps + 1, until := now + cooldown), cooldown, s.flaps + 1, last)
  }

  /** Reads the clock twice. */
  function Remaining(d: Known, now: int, later: int): int {
    if d.Some? && now < d.value.until then Sub(d.value.until, later) else 0
  }

  // ---- The code

  /** The detector's map with one Node's entry replaced (or dropped); the others are independent of it. */
  ghost function Put(before: map<string, FlapState>, node: string, d: Known): map<string, FlapState> {
    if d.Some? then before[node := d.value] else before - {node}
  }

  class Clock {
    var t: int

    constructor (t: int)
      ensures this.t == t
    {
      this.t := t;
    }

    /** Time passes as it likes, but never backwards. */
    method Now() returns (now: int)
      modifies this
      ensures old(t) <= now == t
    {
      var passed :| passed >= 0;
      t := t + passed;
      return t;
    }
  }

  class FlapDetector {
    const clock: Clock
    var nodes: map<string, FlapState>

    ghost function Of(node: string): Known
      reads this
    {
      if node in nodes then Some(nodes[node]) else None
    }

    constructor (clock: Clock)
      ensures nodes == map[] && this.clock == clock
    {
      this.clock := clock;
      nodes := map[];
    }

    method State(node: string) returns (s: FlapState)
      modifies this`nodes
      ensures s == StateOf(old(Of(node))) && nodes == old(nodes)[node := s]
    {
      if node in nodes {
        return nodes[node];
      }
      s := ZERO_STATE;
      nodes := nodes[node := s];
    }

    method Applied(node: string, desired: string) returns (ghost now: int)
      modifies this`nodes, clock
      ensures old(clock.t) <= now == clock.t
      ensures nodes == old(nodes)[node := AppliedStep(old(Of(node)), now, desired)]
    {
      var s := State(node);
      var t := clock.Now();
      s := s.(appliedAt := t);
      s := s.(desired := desired);
      nodes := nodes[node := s];
      now := t;
    }

    method RulesChangedFor(node: string, desired: string) returns (changed: bool)
      modifies this`nodes
      ensures changed <==> RulesChanged(old(Of(node)), desired)
      ensures nodes == Put(old(nodes), node, RulesChangedStep(old(Of(node)), desired))
    {
      if node !in nodes || nodes[node].desired == "" || nodes[node].desired == desired {
        return false;
      }
      nodes := nodes[node := ZERO_STATE];
      return true;
    }

    method Drifted(node: string, confirmedAt: int)
      returns (cooldown: int, flaps: nat, last: int, ghost now: int)
      modifies this`nodes, clock
      ensures old(clock.t) <= now == clock.t
      ensures var v := DriftedStep(old(Of(node)), now, confirmedAt);
              cooldown == v.cooldown && flaps == v.flaps && last == v.last && nodes == old(nodes)[node := v.state]
    {
      var t := clock.Now();
      now := t;
      var s := State(node);
      last := s.appliedAt;
      if confirmedAt > last {
        last := confirmedAt;
      }
      if t < s.until {
        return Sub(s.until, t), s.flaps, last, now;
      }
      if Sub(t, last) > FLAP_WINDOW {
        nodes := nodes[node := s.(flaps := 0)];
        return 0, 0, last, now;
      }
      s := s.(flaps := s.flaps + 1);
      cooldown := MAX_COOLDOWN;
      var shift := s.flaps - 1;
      if shift < 16 && Shl(MIN_COOLDOWN, shift) < MAX_COOLDOWN {
        cooldown := Shl(MIN_COOLDOWN, shift);
      }
      s := s.(until := t + cooldown);
      nodes := nodes[node := s];
      flaps := s.flaps;
    }

    method RemainingFor(node: string) returns (left: int, ghost now: int, ghost later: int)
      modifies clock
      ensures old(clock.t) <= now <= later == clock.t
      ensures left == Remaining(Of(node), now, later)
    {
      now := clock.t;
      later := clock.t;
      if node in nodes {
        var t := clock.Now();
        now := t;
        later := t;
        if t < nodes[node].until {
          var t' := clock.Now();
          later := t';
          return Sub(nodes[node].until, t'), now, later;
        }
      }
      return 0, now, later;
    }

    method Forget(node: string)
      modifies this`nodes
      ensures nodes == old(nodes) - {node}
    {
      nodes := nodes - {node};
    }
  }

  // ---- The cooldown formula

  /** The bounded shift never overflows and equals the unbounded formula. */
  lemma CooldownIsMin(k: nat)
    requires k >= 1
    ensures Cooldown(k) ==
            if MIN_COOLDOWN * Pow2(k - 1) < MAX_COOLDOWN then MIN_COOLDOWN * Pow2(k - 1) else MAX_COOLDOWN
    ensures MIN_COOLDOWN <= Cooldown(k) <= MAX_COOLDOWN
  {
    hide Pow2, Wrap64;
    Powers();
    PowGrows(0, k - 1);
    if k - 1 < 16 {
      PowGrows(k - 1, 15);
      ShiftFits(k - 1);
    } else {
      PowGrows(7, k - 1);
    }
  }

  lemma Powers()
    ensures Pow2(0) == 1 && Pow2(7) == 128 && Pow2(15) == 32768
  {
    assert Pow2(3) == 8;
    assert Pow2(7) == 128;
    assert Pow2(11) == 2048;
  }

  lemma ShiftFits(n: nat)
    requires Pow2(n) <= 32768
    ensures Shl(MIN_COOLDOWN, n) == MIN_COOLDOWN * Pow2(n)
  {
    hide Pow2;
    assert MIN_COOLDOWN * Pow2(n) <= MIN_COOLDOWN * 32768;
  }

  lemma {:induction false} PowGrows(a: nat, b: nat)
    requires a <= b
    ensures 1 <= Pow2(a) <= Pow2(b)
    decreases b
  {
    if a < b { PowGrows(a, b - 1); } else if a > 0 { PowGrows(a - 1, b - 1); }
  }

  lemma CooldownGrows(k: nat, l: nat)
    requires 1 <= k <= l
    ensures Cooldown(k) <= Cooldown(l)
  {
    CooldownIsMin(k);
    CooldownIsMin(l);
    PowGrows(k - 1, l - 1);
  }

  // ---- What remaining tells

  /** remaining is positive exactly when the later reading is still before until; and negative, not zero as promised,
      exactly when until passes between its two readings. */
  lemma RemainingExactly(d: Known, now: int, later: int)
    requires now <= later
    ensures Remaining(d, now, later) > 0 <==> d.Some? && Cooling(d, later)
    ensures Remaining(d, now, later) < 0 <==> d.Some? && now < d.value.until < later
  {
  }

  /** As it can: one nanosecond before the end, and one after. */
  lemma RemainingCanBeNegative(s: FlapState)
    ensures Remaining(Some(s), s.until - 1, s.until + 1) == -1
  {
    RemainingExactly(Some(s), s.until - 1, s.until + 1);
  }

  /** Values have held when both the last recorded write and the last confirmation are more than 128 s ago. */
  lemma HeldExactly(d: Known, now: int, confirmedAt: int)
    ensures Held(d, now, confirmedAt) <==>
            now - StateOf(d).appliedAt > 128 * SECOND && now - confirmedAt > 128 * SECOND
  {
  }

  // ---- Histories of one Node's detector

  datatype Call =
    | ApplyCall(now: int, desired: string)
    | RulesCall(desired: string)
    | DriftCall(now: int, confirmedAt: int)
    | RemainingCall
    | ForgetCall

  function Step(d: Known, c: Call): Known {
    match c
    case ApplyCall(now, desired) => Some(AppliedStep(d, now, desired))
    case RulesCall(desired) => RulesChangedStep(d, desired)
    case DriftCall(now, confirmedAt) => Some(DriftedStep(d, now, confirmedAt).state)
    case RemainingCall => d
    case ForgetCall => None
  }

  function Replay(d: Known, calls: seq<Call>): Known
    decreases |calls|
  {
    if calls == [] then d else Replay(Step(d, calls[0]), calls[1..])
  }

  /** A fresh flap: a drift outside any cooldown, of values that had not held for the window. */
  predicate IsFlap(d: Known, c: Call) {
    c.DriftCall? && !Cooling(d, c.now) && !Held(d, c.now, c.confirmedAt)
  }

  predicate IsReset(d: Known, c: Call) {
    || (c.DriftCall? && !Cooling(d, c.now) && Held(d, c.now, c.confirmedAt))
    || (c.RulesCall? && RulesChanged(d, c.desired))
    || c.ForgetCall?
  }

  /** A flap adds one, a long hold, a rule change or a forget resets, and nothing else touches the streak. */
  lemma StreakChanges(d: Known, c: Call)
    ensures StateOf(Step(d, c)).flaps ==
            if IsFlap(d, c) then StateOf(d).flaps + 1 else if IsReset(d, c) then 0 else StateOf(d).flaps
    ensures !IsFlap(d, c) && !IsReset(d, c) ==> StateOf(Step(d, c)).until == StateOf(d).until
    ensures IsFlap(d, c) ==> StateOf(Step(d, c)).until == c.now + Cooldown(StateOf(d).flaps + 1)
    ensures c.DriftCall? && Cooling(d, c.now) ==> Step(d, c) == Some(StateOf(d))
  {
  }

  /** When the fresh flaps of a history were detected. */
  function FlapTimes(d: Known, calls: seq<Call>): seq<int>
    decreases |calls|
  {
    if calls == [] then []
    else
      var rest := FlapTimes(Step(d, calls[0]), calls[1..]);
      if IsFlap(d, calls[0]) then [calls[0].now] + rest else rest
  }

  predicate NoReset(d: Known, calls: seq<Call>)
    decreases |calls|
  {
    calls == [] || (!IsReset(d, calls[0]) && NoReset(Step(d, calls[0]), calls[1..]))
  }

  /** Cooldown(lo) + ... + Cooldown(hi). */
  function CooldownSum(lo: nat, hi: nat): int
    requires lo >= 1
    decreases hi
  {
    if hi < lo then 0 else CooldownSum(lo, hi - 1) + Cooldown(hi)
  }

  lemma {:induction false} SumSplit(lo: nat, hi: nat)
    requires 1 <= lo <= hi
    ensures CooldownSum(lo, hi) == Cooldown(lo) + CooldownSum(lo + 1, hi)
    decreases hi
  {
    if lo < hi { SumSplit(lo, hi - 1); }
  }

  lemma {:induction false} FlapsAfterCooldown(d: Known, calls: seq<Call>, m: nat)
    requires NoReset(d, calls) && m < |FlapTimes(d, calls)|
    ensures FlapTimes(d, calls)[m] >=
            StateOf(d).until + CooldownSum(StateOf(d).flaps + 1, StateOf(d).flaps + m)
    decreases |calls|
  {
    var f := StateOf(d).flaps;
    StreakChanges(d, calls[0]);
    if IsFlap(d, calls[0]) {
      if m > 0 {
        FlapsAfterCooldown(Step(d, calls[0]), calls[1..], m - 1);
        SumSplit(f + 1, f + m);
      }
    } else {
      FlapsAfterCooldown(Step(d, calls[0]), calls[1..], m);
    }
  }

  /** Over a whole streak, however long and whatever else is called in between: from its i-th to its j-th
      flap, at least the cooldowns of all flaps in between pass. */
  lemma {:induction false} BackoffBound(d: Known, calls: seq<Call>, i: nat, j: nat)
    requires NoReset(d, calls) && i <= j < |FlapTimes(d, calls)|
    ensures FlapTimes(d, calls)[j] >= FlapTimes(d, calls)[i]
            + CooldownSum(StateOf(d).flaps + i + 1, StateOf(d).flaps + j)
    decreases |calls|
  {
    var f, rest := StateOf(d).flaps, Step(d, calls[0]);
    StreakChanges(d, calls[0]);
    if !IsFlap(d, calls[0]) {
      BackoffBound(rest, calls[1..], i, j);
    } else if i > 0 {
      BackoffBound(rest, calls[1..], i - 1, j - 1);
    } else if j > 0 {
      FlapsAfterCooldown(rest, calls[1..], j - 1);
      SumSplit(f + 1, f + j);
    }
  }

  /** The sum in closed form: 0.5 s doubling to 32 s adds up to 63.5 s, then 64 s each. */
  lemma {:induction false} CooldownSumClosed(n: nat)
    ensures n <= 7 ==> CooldownSum(1, n) == 500_000_000 * (Pow2(n) - 1)
    ensures n >= 7 ==> CooldownSum(1, n) == 63_500_000_000 + 64_000_000_000 * (n - 7)
  {
    hide Pow2, Cooldown;
    if n == 0 {
      NoSum();
    } else {
      CooldownSumClosed(n - 1);
      if n <= 7 {
        SmallCooldown(n);
      } else {
        LargeCooldown(n);
      }
      if n == 7 { SevenSum(); }
    }
  }

  lemma NoSum()
    ensures MIN_COOLDOWN * (Pow2(0) - 1) == 0
  {
  }

  lemma SevenSum()
    ensures MIN_COOLDOWN * (Pow2(7) - 1) == MIN_COOLDOWN * 127
  {
    assert Pow2(7) == 128 by { assert Pow2(4) == 16; }
  }

  lemma SmallCooldown(k: nat)
    requires 1 <= k <= 7
    ensures Cooldown(k) == MIN_COOLDOWN * Pow2(k - 1)
    ensures MIN_COOLDOWN * (Pow2(k) - 1) == MIN_COOLDOWN * (Pow2(k - 1) - 1) + Cooldown(k)
  {
    CooldownIsMin(k);
    PowGrows(k - 1, 6);
    assert Pow2(6) == 64 by { assert Pow2(3) == 8; }
  }

  lemma LargeCooldown(k: nat)
    requires k >= 8
    ensures Cooldown(k) == MAX_COOLDOWN
  {
    CooldownIsMin(k);
    PowGrows(7, k - 1);
    assert Pow2(7) == 128 by { assert Pow2(4) == 16; }
  }

  /** So a streak of any length has few flaps: at most one every 64 s after the first eight. */
  lemma StreakRate(d: Known, calls: seq<Call>, n: nat)
    requires NoReset(d, calls) && StateOf(d).flaps == 0 && 8 <= n == |FlapTimes(d, calls)|
    ensures FlapTimes(d, calls)[n - 1] - FlapTimes(d, calls)[0] >=
            63_500_000_000 + 64_000_000_000 * (n - 8)
  {
    BackoffBound(d, calls, 0, n - 1);
    CooldownSumClosed(n - 1);
  }

  function Latest(now: int, c: Call): int {
    if c.ApplyCall? || c.DriftCall? then c.now else now
  }

  predicate Monotone(now: int, calls: seq<Call>)
    decreases |calls|
  {
    calls == [] || (now <= Latest(now, calls[0]) && Monotone(Latest(now, calls[0]), calls[1..]))
  }

  function LastReading(now: int, calls: seq<Call>): int
    decreases |calls|
  {
    if calls == [] then now else LastReading(Latest(now, calls[0]), calls[1..])
  }

  /** No cooldown ever reaches further than 64 s beyond the last clock reading. */
  lemma {:induction false} UntilBounded(d: Known, now: int, calls: seq<Call>)
    requires StateOf(d).until <= now + MAX_COOLDOWN && 0 <= now && Monotone(now, calls)
    ensures StateOf(Replay(d, calls)).until <= LastReading(now, calls) + MAX_COOLDOWN
    decreases |calls|
  {
    if calls != [] {
      UntilStep(d, now, calls[0]);
      UntilBounded(Step(d, calls[0]), Latest(now, calls[0]), calls[1..]);
    }
  }

  lemma UntilStep(d: Known, now: int, c: Call)
    requires StateOf(d).until <= now + MAX_COOLDOWN && 0 <= now <= Latest(now, c)
    ensures StateOf(Step(d, c)).until <= Latest(now, c) + MAX_COOLDOWN
  {
    if IsFlap(d, c) { CooldownIsMin(StateOf(d).flaps + 1); }
  }

  // ---- When rulesChanged says so

  /** The values last recorded as applied, if nothing discarded that record since. */
  function Recorded(calls: seq<Call>): string
    decreases |calls|
  {
    if calls == [] then ""
    else
      var before, c := calls[..|calls| - 1], calls[|calls| - 1];
      match c
      case ApplyCall(_, desired) => desired
      case RulesCall(desired) => if Recorded(before) != "" && Recorded(before) != desired then "" else Recorded(before)
      case DriftCall(_, _) => Recorded(before)
      case RemainingCall => Recorded(before)
      case ForgetCall => ""
  }

  lemma {:induction false} ReplayAppend(d: Known, calls: seq<Call>, c: Call)
    ensures Replay(d, calls + [c]) == Step(Replay(d, calls), c)
    decreases |calls|
  {
    if calls == [] {
      assert [] + [c] == [c] && [c][1..] == [];
    } else {
      assert (calls + [c])[1..] == calls[1..] + [c];
      ReplayAppend(Step(d, calls[0]), calls[1..], c);
    }
  }

  lemma {:induction false} StateRecords(calls: seq<Call>)
    ensures StateOf(Replay(None, calls)).desired == Recorded(calls)
    decreases |calls|
  {
    if calls != [] {
      var before, c := calls[..|calls| - 1], calls[|calls| - 1];
      StateRecords(before);
      assert calls == before + [c];
      ReplayAppend(None, before, c);
    }
  }

  /** After any history, rulesChanged is true exactly when values are on record and they differ. */
  lemma RulesChangedExactly(calls: seq<Call>, applied: Pairs, desired: Pairs)
    requires Clean(applied) && Clean(desired) && Recorded(calls) == Fingerprint(applied)
    ensures RulesChanged(Replay(None, calls), Fingerprint(desired)) <==> applied != map[] && applied != desired
  {
    StateRecords(calls);
    EmptyFingerprint(applied);
    FingerprintIdentifies(applied, desired);
  }

  /** The same for addresses, as sets. */
  lemma IPRulesChangedExactly(calls: seq<Call>, applied: seq<string>, desired: seq<string>)
    requires Recorded(calls) == IPFingerprint(applied)
    requires forall ip :: ip in applied || ip in desired ==> NUL !in ip
    ensures RulesChanged(Replay(None, calls), IPFingerprint(desired)) <==>
            applied != [] && !(forall ip :: ip in applied <==> ip in desired)
  {
    StateRecords(calls);
    EmptyFingerprint(IPSet(applied));
    assert applied == [] <==> IPSet(applied) == map[] by {
      if applied != [] { assert applied[0] in IPSet(applied); }
    }
    IPFingerprintIdentifies(applied, desired);
  }

  /** Once true, it stays false until values are applied again. */
  lemma {:induction false} RulesChangedOnce(d: Known, desired: string, calls: seq<Call>, again: string)
    requires RulesChanged(d, desired)
    requires forall c :: c in calls ==> !c.ApplyCall?
    ensures !RulesChanged(Replay(Step(d, RulesCall(desired)), calls), again)
  {
    NothingRecorded(Step(d, RulesCall(desired)), calls);
  }

  lemma {:induction false} NothingRecorded(d: Known, calls: seq<Call>)
    requires StateOf(d).desired == "" && forall c :: c in calls ==> !c.ApplyCall?
    ensures StateOf(Replay(d, calls)).desired == ""
    decreases |calls|
  {
    if calls != [] {
      assert calls[0] in calls;
      NothingRecorded(Step(d, calls[0]), calls[1..]);
    }
  }

  // ---- In numbers

  /** 0.5 s for the first flap, twice as much for each further one, up to 64 s. */
  lemma Cooldowns()
    ensures Cooldown(1) == 500_000_000 && Cooldown(2) == 1_000_000_000 && Cooldown(3) == 2_000_000_000
    ensures Cooldown(4) == 4_000_000_000 && Cooldown(5) == 8_000_000_000 && Cooldown(6) == 16_000_000_000
    ensures Cooldown(7) == 32_000_000_000 && forall k :: k >= 8 ==> Cooldown(k) == 64_000_000_000
  {
    hide Cooldown;
    forall k: int | 1 <= k <= 7 ensures Cooldown(k) == 500_000_000 * Pow2(k - 1) { SmallCooldown(k); }
    forall k: int | k >= 8 ensures Cooldown(k) == 64_000_000_000 { LargeCooldown(k); }
    assert Pow2(0) == 1 && Pow2(1) == 2 && Pow2(2) == 4;
    assert Pow2(3) == 8 && Pow2(4) == 16;
    assert Pow2(5) == 32 && Pow2(6) == 64;
  }

  /** A drift during a cooldown that ends within 64 s just reports what is left; after more than 128 s it restores; and
      otherwise it is one flap more, and the cooldown starts now. */
  lemma DriftedExactly(d: Known, now: int, confirmedAt: int)
    requires StateOf(d).until <= now + 64_000_000_000
    ensures var v, was := DriftedStep(d, now, confirmedAt), StateOf(d);
            if now < was.until then v.state == was && v.cooldown == was.until - now && v.flaps == was.flaps
            else if now - was.appliedAt > 128_000_000_000 && now - confirmedAt > 128_000_000_000
            then v.state == was.(flaps := 0) && v.cooldown == 0 && v.flaps == 0
            else && v.cooldown == Cooldown(was.flaps + 1) && v.flaps == was.flaps + 1
                 && v.state == was.(flaps := was.flaps + 1, until := now + v.cooldown)
  {
    HeldExactly(d, now, confirmedAt);
  }
}
