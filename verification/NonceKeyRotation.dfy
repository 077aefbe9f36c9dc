/**
 Rotating the key of stateless c_nonces under a rolling deploy (issuer/config.go, Dependencies.NonceKeys,
 and the keys issuer/stateless_nonce.go tags and checks with).

 Each replica goes from [old] to [old, new] to [new, old] to [new]: to the third once every replica is at
 the second, and to the last once every replica is at the third and a wait has passed since. Replicas'
 clocks differ by fixed offsets. The lemmas say how long the wait has to be.
 */
module NonceKeyRotation {
  import opened Durations

  datatype Key = Old | New

  type Stage = s: nat | s <= 3

  function KeysAt(stage: Stage): seq<Key> {
    if stage == 0 then [Old]
    else if stage == 1 then [Old, New]
    else if stage == 2 then [New, Old]
    else [New]
  }

  /** Every replica's clock is its offset ahead of the time; a c_nonce lives for lifetime. */
  datatype Deployment = Deployment(offsets: seq<int>, lifetime: int, wait: int)

  /** No two clocks are further apart than skew. */
  predicate Within(d: Deployment, skew: int) {
    forall i, j | 0 <= i < |d.offsets| && 0 <= j < |d.offsets| :: d.offsets[i] - d.offsets[j] <= skew
  }

  datatype Nonce = Nonce(key: Key, expiry: int)

  /** secondStep is when a replica last went to [new, old]. */
  datatype State = State(time: int, stages: seq<Stage>, secondStep: int, nonces: set<Nonce>)

  datatype Action = Ticks(span: nat) | Issues(replica: nat) | Advances(replica: nat)

  predicate AllReached(s: State, stage: Stage) {
    forall r | 0 <= r < |s.stages| :: stage <= s.stages[r]
  }

  /** A c_nonce of replica's, by its own clock, which expires at a whole second. */
  function Issued(d: Deployment, s: State, replica: nat): (n: Nonce)
    requires replica < |d.offsets| == |s.stages|
    ensures n.expiry % SECOND == 0 && n.expiry <= s.time + d.offsets[replica] + d.lifetime < n.expiry + SECOND
    ensures n.key == Old <==> s.stages[replica] < 2
  {
    Nonce(KeysAt(s.stages[replica])[0], (s.time + d.offsets[replica] + d.lifetime) / SECOND * SECOND)
  }

  /** Whether the procedure lets replica take its next step now. */
  predicate MayAdvance(d: Deployment, s: State, replica: nat) {
    && replica < |s.stages| && s.stages[replica] < 3
    && (s.stages[replica] == 1 ==> AllReached(s, 1))
    && (s.stages[replica] == 2 ==> AllReached(s, 2) && s.time - s.secondStep >= d.wait)
  }

  function Step(d: Deployment, s: State, a: Action): (t: State)
    requires |s.stages| == |d.offsets|
    ensures |t.stages| == |d.offsets|
  {
    match a
    case Ticks(span) => s.(time := s.time + span)
    case Issues(r) => if r < |s.stages| then s.(nonces := s.nonces + {Issued(d, s, r)}) else s
    case Advances(r) =>
      if !MayAdvance(d, s, r) then s
      else
        s.(stages := s.stages[r := s.stages[r] + 1], secondStep := if s.stages[r] == 1 then s.time else s.secondStep)
  }

  function Start(d: Deployment, time: int): State {
    State(time, seq(|d.offsets|, _ => 0), time, {})
  }

  function Run(d: Deployment, time: int, actions: seq<Action>): (s: State)
    ensures |s.stages| == |d.offsets|
  {
    if actions == [] then Start(d, time)
    else Step(d, Run(d, time, actions[..|actions| - 1]), actions[|actions| - 1])
  }

  /** Every replica by whose clock a c_nonce has not expired holds the key it was tagged with. */
  ghost predicate Safe(d: Deployment, s: State)
    requires |s.stages| == |d.offsets|
  {
    forall n, r | n in s.nonces && 0 <= r < |d.offsets| && s.time + d.offsets[r] <= n.expiry :: n.key in KeysAt(s.stages[r])
  }

  /** The last time an old key was put on a c_nonce, as far as the stages tell. */
  function LastOld(s: State): int {
    if AllReached(s, 2) then s.secondStep else s.time
  }

  ghost predicate Invariant(d: Deployment, s: State)
    requires |s.stages| == |d.offsets|
  {
    && s.secondStep <= s.time
    && (forall n | n in s.nonces && n.key == New :: AllReached(s, 1))
    && (forall n | n in s.nonces && n.key == Old ::
          exists r | 0 <= r < |d.offsets| :: n.expiry <= LastOld(s) + d.offsets[r] + d.lifetime)
    && (forall r | 0 <= r < |s.stages| && s.stages[r] == 3 :: AllReached(s, 2) && s.time - s.secondStep >= d.wait)
    && (forall r | 0 <= r < |s.stages| && s.stages[r] >= 2 :: AllReached(s, 1))
  }

  lemma LastOldGrows(d: Deployment, s: State, a: Action)
    requires |s.stages| == |d.offsets| && s.secondStep <= s.time
    ensures LastOld(s) <= LastOld(Step(d, s, a))
  {
    var t := Step(d, s, a);
    if AllReached(s, 2) {
      assert AllReached(t, 2);
    } else if a.Advances? && AllReached(t, 2) {
      var r :| 0 <= r < |s.stages| && s.stages[r] < 2;
      assert t.stages[r] >= 2;
      assert r == a.replica && s.stages[r] == 1;
    }
  }

  lemma StepKeepsInvariant(d: Deployment, s: State, a: Action)
    requires |s.stages| == |d.offsets| && Invariant(d, s)
    ensures Invariant(d, Step(d, s, a))
  {
    var t := Step(d, s, a);
    LastOldGrows(d, s, a);
    forall n | n in t.nonces && n.key == Old
      ensures exists r | 0 <= r < |d.offsets| :: n.expiry <= LastOld(t) + d.offsets[r] + d.lifetime
    {
      if n in s.nonces {
        var r :| 0 <= r < |d.offsets| && n.expiry <= LastOld(s) + d.offsets[r] + d.lifetime;
        assert n.expiry <= LastOld(t) + d.offsets[r] + d.lifetime;
      } else {
        assert s.stages[a.replica] < 2 && !AllReached(t, 2);
        assert n.expiry <= LastOld(t) + d.offsets[a.replica] + d.lifetime;
      }
    }
  }

  lemma {:induction false} RunKeepsInvariant(d: Deployment, time: int, actions: seq<Action>)
    ensures Invariant(d, Run(d, time, actions))
  {
    if actions != [] {
      RunKeepsInvariant(d, time, actions[..|actions| - 1]);
      StepKeepsInvariant(d, Run(d, time, actions[..|actions| - 1]), actions[|actions| - 1]);
    }
  }

  /**
   With clocks at most skew apart no replica ever lacks the key of a c_nonce it would otherwise accept, if
   the wait is longer than a c_nonce's lifetime and the skew: with clocks that agree, than its lifetime.
   */
  lemma LongWaitIsSafe(d: Deployment, skew: int, time: int, actions: seq<Action>)
    requires Within(d, skew) && d.wait > d.lifetime + skew
    ensures Safe(d, Run(d, time, actions))
  {
    var s := Run(d, time, actions);
    RunKeepsInvariant(d, time, actions);
    forall n, r | n in s.nonces && 0 <= r < |d.offsets| && s.time + d.offsets[r] <= n.expiry
      ensures n.key in KeysAt(s.stages[r])
    {
      if n.key == Old {
        var i :| 0 <= i < |d.offsets| && n.expiry <= LastOld(s) + d.offsets[i] + d.lifetime;
        assert d.offsets[i] - d.offsets[r] <= skew;
      }
    }
  }

  lemma RunThen(d: Deployment, time: int, actions: seq<Action>, a: Action)
    ensures Run(d, time, actions + [a]) == Step(d, Run(d, time, actions), a)
  {
    assert (actions + [a])[..|actions|] == actions;
  }

  // ---- A run after a wait that is too short ----

  /** The first k replicas at [old, new], the others not yet. */
  lemma {:induction false} ToFirstStep(d: Deployment, time: int, k: nat) returns (actions: seq<Action>)
    requires k <= |d.offsets|
    ensures Run(d, time, actions) == State(time, seq(|d.offsets|, r => if r < k then 1 else 0), time, {})
  {
    if k == 0 {
      actions := [];
      assert seq<Stage>(|d.offsets|, _ => 0) == seq<Stage>(|d.offsets|, r => if r < 0 then 1 else 0);
    } else {
      var before := ToFirstStep(d, time, k - 1);
      actions := before + [Advances(k - 1)];
      RunThen(d, time, before, Advances(k - 1));
      assert seq<Stage>(|d.offsets|, r => if r < k - 1 then 1 else 0)[k - 1 := 1]
          == seq<Stage>(|d.offsets|, r => if r < k then 1 else 0);
    }
  }

  /** The first k replicas but late at [new, old], the others at [old, new]. */
  function StagesBut(n: nat, late: nat, k: nat): seq<Stage> {
    seq(n, r => if r < k && r != late then 2 else 1)
  }

  lemma {:induction false} ToSecondStep(d: Deployment, time: int, late: nat, k: nat) returns (actions: seq<Action>)
    requires k <= |d.offsets|
    ensures Run(d, time, actions) == State(time, StagesBut(|d.offsets|, late, k), time, {})
  {
    if k == 0 {
      actions := ToFirstStep(d, time, |d.offsets|);
      assert StagesBut(|d.offsets|, late, 0) == seq<Stage>(|d.offsets|, r => if r < |d.offsets| then 1 else 0);
    } else {
      var before := ToSecondStep(d, time, late, k - 1);
      if k - 1 == late {
        actions := before;
        assert StagesBut(|d.offsets|, late, k) == StagesBut(|d.offsets|, late, k - 1);
      } else {
        actions := before + [Advances(k - 1)];
        RunThen(d, time, before, Advances(k - 1));
        assert StagesBut(|d.offsets|, late, k - 1)[k - 1 := 2] == StagesBut(|d.offsets|, late, k);
      }
    }
  }

  /**
   And it has to be longer: after any wait no longer than a c_nonce's lifetime and how far ahead of j's clock
   i's is, whenever the last c_nonce i tags with the old key expires, a run has j without that key in time.
   */
  lemma ShortWaitIsNot(d: Deployment, i: nat, j: nat, second: int) returns (time: int, actions: seq<Action>)
    requires i < |d.offsets| && j < |d.offsets|
    requires d.wait <= d.lifetime + d.offsets[i] - d.offsets[j] && 0 <= d.lifetime + d.offsets[i] - d.offsets[j]
    ensures time + d.offsets[i] + d.lifetime == second * SECOND
    ensures !Safe(d, Run(d, time, actions))
  {
    time := second * SECOND - d.offsets[i] - d.lifetime;
    var before := ToSecondStep(d, time, i, |d.offsets|);
    var wait := if d.wait < 0 then 0 else d.wait;
    TooSoon(d, i, j, time, Run(d, time, before), wait);
    hide Run, Step, Safe;
    RunThen(d, time, before, Issues(i));
    RunThen(d, time, before + [Issues(i)], Advances(i));
    RunThen(d, time, before + [Issues(i)] + [Advances(i)], Ticks(wait));
    RunThen(d, time, before + [Issues(i)] + [Advances(i)] + [Ticks(wait)], Advances(j));
    actions := before + [Issues(i)] + [Advances(i)] + [Ticks(wait)] + [Advances(j)];
  }

  lemma TooSoon(d: Deployment, i: nat, j: nat, time: int, s: State, wait: nat)
    requires i < |d.offsets| && j < |d.offsets| && (time + d.offsets[i] + d.lifetime) % SECOND == 0
    requires d.wait <= wait <= d.lifetime + d.offsets[i] - d.offsets[j]
    requires s == State(time, StagesBut(|d.offsets|, i, |d.offsets|), time, {})
    ensures !Safe(d, Step(d, Step(d, Step(d, Step(d, s, Issues(i)), Advances(i)), Ticks(wait)), Advances(j)))
  {
    var nonce := Issued(d, s, i);
    assert nonce == Nonce(Old, time + d.offsets[i] + d.lifetime);
    var issued := Step(d, s, Issues(i));
    var advanced := Step(d, issued, Advances(i));
    assert advanced.stages == seq<Stage>(|d.offsets|, _ => 2) && advanced.secondStep == time;
    var waited := Step(d, advanced, Ticks(wait));
    assert MayAdvance(d, waited, j);
    var last := Step(d, waited, Advances(j));
    assert nonce in last.nonces && last.stages[j] == 3 && Old !in KeysAt(last.stages[j]);
    assert last.time + d.offsets[j] <= nonce.expiry;
  }

  /**
   For a deployment whose clocks are furthest apart at i and j, i's ahead: no run, from any start, has a
   replica lack the key of a c_nonce it would accept, if and only if the wait is longer than a c_nonce's
   lifetime and that skew.
   */
  lemma SafeIffLongWait(d: Deployment, i: nat, j: nat)
    requires i < |d.offsets| && j < |d.offsets| && Within(d, d.offsets[i] - d.offsets[j]) && d.lifetime > 0
    ensures (forall time, actions :: Safe(d, Run(d, time, actions))) <==> d.wait > d.lifetime + d.offsets[i] - d.offsets[j]
  {
    hide Safe, Run;
    assert d.offsets[i] - d.offsets[j] >= d.offsets[i] - d.offsets[i];
    if d.wait > d.lifetime + d.offsets[i] - d.offsets[j] {
      forall time, actions ensures Safe(d, Run(d, time, actions)) {
        LongWaitIsSafe(d, d.offsets[i] - d.offsets[j], time, actions);
      }
    } else {
      var time, actions := ShortWaitIsNot(d, i, j, 0);
    }
  }
}
