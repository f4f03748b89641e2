/**
 On-policy n-step TD prediction (`on_policy_n_step_td`): for every
 trajectory in turn and every `t` of `range(T)`, the anchor is
 `tau = t - n + 1`; when `tau >= 0` the entry `V[state(tau)]` moves a step
 `alpha` towards the n-step return, bootstrapped from the live table.

 Because `t` stops at `T - 1`, only the anchors `0 .. T - n` are ever
 updated. The textbook loop (section 7.1 of Sutton & Barto) runs on until
 `tau = T - 1`; `OnPolicyNStepTdTextbook` is that loop, kept beside the
 as-written one.
 */
module OnPolicyTd {
  import opened Tables
  import opened NStepReturn

  /** Every state id of the episode indexes `V`. */
  predicate StatesIn(traj: Trajectory, nS: nat) {
    forall i :: 0 <= i < |traj| ==> traj[i].state < nS
  }

  predicate AllStatesIn(trajs: seq<Trajectory>, nS: nat) {
    forall k :: 0 <= k < |trajs| ==> StatesIn(trajs[k], nS)
  }

  /** The return `G` the update at `tau` moves towards, read from the
      table as it stands at that moment. */
  function TdTarget(v: VTable, traj: Trajectory, gamma: real, n: nat, tau: nat): real
    requires tau < |traj| && StatesIn(traj, |v|)
  {
    Return(traj, gamma, tau, n, BootV(v, traj, tau + n))
  }

  /** `V[state(tau)] += alpha * (G - V[state(tau)])`; no other entry moves. */
  function TdUpdate(v: VTable, traj: Trajectory, gamma: real, n: nat, alpha: real, tau: nat): (r: VTable)
    requires tau < |traj| && StatesIn(traj, |v|)
    ensures |r| == |v|
    ensures forall x :: 0 <= x < |v| && x != traj[tau].state ==> r[x] == v[x]
  {
    var s := traj[tau].state;
    v[s := Toward(v[s], TdTarget(v, traj, gamma, n, tau), alpha)]
  }

  /** The updated entry closes the fraction `alpha` of its gap to `G`:
      `alpha = 1` sets it to `G` and `alpha = 0` leaves the table as it was. */
  lemma TdUpdateStep(v: VTable, traj: Trajectory, gamma: real, n: nat, alpha: real, tau: nat)
    requires tau < |traj| && StatesIn(traj, |v|)
    ensures var s := traj[tau].state;
            var g := TdTarget(v, traj, gamma, n, tau);
            var r := TdUpdate(v, traj, gamma, n, alpha, tau);
            && g - r[s] == (1.0 - alpha) * (g - v[s])
            && (alpha == 1.0 ==> r[s] == g)
            && (alpha == 0.0 ==> r == v)
  {
    var s := traj[tau].state;
    var g := TdTarget(v, traj, gamma, n, tau);
    var r := TdUpdate(v, traj, gamma, n, alpha, tau);
    var x := v[s];
    assert r[s] == x + alpha * (g - x);
    assert g - r[s] == (1.0 - alpha) * (g - x);
    if alpha == 0.0 {
      assert r[s] == x;
      assert r == v;
    }
  }

  /** With `n = 1` and a connected episode (`next_state(tau) = state(tau+1)`)
      the update is TD(0): `V[s] += alpha * (r + gamma * V[s'] - V[s])`. */
  lemma TdZero(v: VTable, traj: Trajectory, gamma: real, alpha: real, tau: nat)
    requires tau + 1 < |traj| && StatesIn(traj, |v|)
    requires traj[tau].nextState == traj[tau + 1].state
    ensures TdUpdate(v, traj, gamma, 1, alpha, tau)[traj[tau].state]
         == v[traj[tau].state] + alpha * (traj[tau].reward + gamma * v[traj[tau].nextState] - v[traj[tau].state])
  {
    ReturnOneStep(traj, gamma, tau, BootV(v, traj, tau + 1));
  }

  // ------------------------------------------------------------ one episode

  /** Iterations `t .. stop - 1` of the `for t` loop over one episode. The
      source stops at `T`; the textbook loop at `T + n - 1`. */
  function Sweep(v: VTable, traj: Trajectory, gamma: real, n: nat, alpha: real, stop: nat, t: nat): (r: VTable)
    requires n >= 1 && StatesIn(traj, |v|) && t <= stop <= |traj| + n - 1
    ensures |r| == |v|
    decreases stop - t
  {
    if t == stop then v
    else
      var tau := t - n + 1;
      var v' := if tau >= 0 then TdUpdate(v, traj, gamma, n, alpha, tau) else v;
      Sweep(v', traj, gamma, n, alpha, stop, t + 1)
  }

  /** The anchors iterations `t .. stop - 1` fire, in firing order. */
  function FiredAnchors(n: nat, stop: nat, t: nat): seq<nat>
    decreases stop - t
  {
    if t >= stop then []
    else (if t - n + 1 >= 0 then [t - n + 1] else []) + FiredAnchors(n, stop, t + 1)
  }

  /** Updates at the listed anchors, one after the other. */
  function ApplyAnchors(v: VTable, traj: Trajectory, gamma: real, n: nat, alpha: real, anchors: seq<nat>): (r: VTable)
    requires StatesIn(traj, |v|)
    requires forall i :: 0 <= i < |anchors| ==> anchors[i] < |traj|
    ensures |r| == |v|
    decreases |anchors|
  {
    if |anchors| == 0 then v
    else ApplyAnchors(TdUpdate(v, traj, gamma, n, alpha, anchors[0]), traj, gamma, n, alpha, anchors[1..])
  }

  /** Iterations `t .. stop - 1` fire the consecutive anchors
      `max(0, t-n+1) .. max(0, stop-n+1) - 1`, each once. */
  lemma {:induction false} FiredAnchorsRange(n: nat, stop: nat, t: nat)
    requires n >= 1 && t <= stop
    ensures FiredAnchors(n, stop, t) == Range(Max0(t - n + 1), Max0(stop - n + 1))
    decreases stop - t
  {
    if t < stop {
      FiredAnchorsRange(n, stop, t + 1);
    }
  }

  lemma {:induction false} SweepIsAnchorFold(v: VTable, traj: Trajectory, gamma: real, n: nat, alpha: real, stop: nat, t: nat)
    requires n >= 1 && StatesIn(traj, |v|) && t <= stop <= |traj| + n - 1
    ensures FiredAnchors(n, stop, t) == Range(Max0(t - n + 1), Max0(stop - n + 1))
    ensures Sweep(v, traj, gamma, n, alpha, stop, t)
         == ApplyAnchors(v, traj, gamma, n, alpha, FiredAnchors(n, stop, t))
    decreases stop - t
  {
    FiredAnchorsRange(n, stop, t);
    if t < stop {
      var tau := t - n + 1;
      var v' := if tau >= 0 then TdUpdate(v, traj, gamma, n, alpha, tau) else v;
      SweepIsAnchorFold(v', traj, gamma, n, alpha, stop, t + 1);
      if tau >= 0 {
        var rest := FiredAnchors(n, stop, t + 1);
        assert FiredAnchors(n, stop, t) == [tau] + rest;
        assert ([tau] + rest)[1..] == rest;
      }
    }
  }

  /** The source's sweep over one episode performs exactly the updates
      `tau = 0, 1, ..., T - n` in order: `max(0, T - n + 1)` of them. */
  lemma OnPolicySweepAnchors(v: VTable, traj: Trajectory, gamma: real, n: nat, alpha: real)
    requires n >= 1 && StatesIn(traj, |v|)
    ensures |FiredAnchors(n, |traj|, 0)| == Max0(|traj| - n + 1)
    ensures Sweep(v, traj, gamma, n, alpha, |traj|, 0)
         == ApplyAnchors(v, traj, gamma, n, alpha, Range(0, Max0(|traj| - n + 1)))
  {
    SweepIsAnchorFold(v, traj, gamma, n, alpha, |traj|, 0);
  }

  /** An episode shorter than `n` leaves the table unchanged. */
  lemma NoUpdateWhenNExceedsT(v: VTable, traj: Trajectory, gamma: real, n: nat, alpha: real)
    requires n > |traj| && StatesIn(traj, |v|)
    ensures Sweep(v, traj, gamma, n, alpha, |traj|, 0) == v
  {
    OnPolicySweepAnchors(v, traj, gamma, n, alpha);
  }

  /** With `n = T` the single update is at `tau = 0` and moves `V[state(0)]`
      towards the Monte Carlo return of the whole episode. */
  lemma MonteCarloWhenNEqualsT(v: VTable, traj: Trajectory, gamma: real, alpha: real)
    requires |traj| >= 1 && StatesIn(traj, |v|)
    ensures var r := Sweep(v, traj, gamma, |traj|, alpha, |traj|, 0);
            && r[traj[0].state] == v[traj[0].state] + alpha * (MonteCarlo(traj, gamma, 0) - v[traj[0].state])
            && forall x :: 0 <= x < |v| && x != traj[0].state ==> r[x] == v[x]
  {
    var n: nat := |traj|;
    OnPolicySweepAnchors(v, traj, gamma, n, alpha);
    assert Range(0, Max0(n - n + 1)) == [0];
    assert [0][1..] == [];
    ReturnPastEndIsMonteCarlo(traj, gamma, 0, n, BootV(v, traj, n));
  }

  /** Entries at states that no fired anchor visits keep their value. */
  lemma {:induction false} ApplyAnchorsFrame(v: VTable, traj: Trajectory, gamma: real, n: nat, alpha: real, anchors: seq<nat>, x: nat)
    requires StatesIn(traj, |v|) && x < |v|
    requires forall i :: 0 <= i < |anchors| ==> anchors[i] < |traj| && traj[anchors[i]].state != x
    ensures ApplyAnchors(v, traj, gamma, n, alpha, anchors)[x] == v[x]
    decreases |anchors|
  {
    if |anchors| > 0 {
      ApplyAnchorsFrame(TdUpdate(v, traj, gamma, n, alpha, anchors[0]), traj, gamma, n, alpha, anchors[1..], x);
    }
  }

  /** A sweep changes `V` only at the states of anchors `0 .. T - n`. */
  lemma SweepFrame(v: VTable, traj: Trajectory, gamma: real, n: nat, alpha: real, x: nat)
    requires n >= 1 && StatesIn(traj, |v|) && x < |v|
    requires forall tau :: 0 <= tau < Max0(|traj| - n + 1) ==> traj[tau].state != x
    ensures Sweep(v, traj, gamma, n, alpha, |traj|, 0)[x] == v[x]
  {
    OnPolicySweepAnchors(v, traj, gamma, n, alpha);
    ApplyAnchorsFrame(v, traj, gamma, n, alpha, Range(0, Max0(|traj| - n + 1)), x);
  }

  /** The textbook sweep updates every anchor `0 .. T - 1` once, in order. */
  lemma TextbookSweepAnchors(v: VTable, traj: Trajectory, gamma: real, n: nat, alpha: real)
    requires n >= 1 && StatesIn(traj, |v|)
    ensures |FiredAnchors(n, |traj| + n - 1, 0)| == |traj|
    ensures Sweep(v, traj, gamma, n, alpha, |traj| + n - 1, 0)
         == ApplyAnchors(v, traj, gamma, n, alpha, Range(0, |traj|))
  {
    SweepIsAnchorFold(v, traj, gamma, n, alpha, |traj| + n - 1, 0);
  }

  // ------------------------------------------------------------- the batch

  /** The loop `for t` stops at `T` as written, or at `T + n - 1` in the
      textbook algorithm. */
  function Stop(traj: Trajectory, n: nat, textbook: bool): nat
    requires n >= 1
  {
    if textbook then |traj| + n - 1 else |traj|
  }

  /** `for traj in trajs`: the episodes are swept one after the other on
      the same table. */
  function Batch(v: VTable, trajs: seq<Trajectory>, gamma: real, n: nat, alpha: real, textbook: bool): (r: VTable)
    requires n >= 1 && AllStatesIn(trajs, |v|)
    ensures |r| == |v|
    decreases |trajs|
  {
    if |trajs| == 0 then v
    else
      var v' := Sweep(v, trajs[0], gamma, n, alpha, Stop(trajs[0], n, textbook), 0);
      Batch(v', trajs[1..], gamma, n, alpha, textbook)
  }

  /** `on_policy_n_step_td(gamma, trajs, n, alpha, initV)`. */
  function OnPolicyNStepTd(gamma: real, trajs: seq<Trajectory>, n: nat, alpha: real, initV: VTable): (v: VTable)
    requires n >= 1 && AllStatesIn(trajs, |initV|)
    ensures |v| == |initV|
    ensures |trajs| == 0 ==> v == initV
  {
    Batch(initV, trajs, gamma, n, alpha, false)
  }

  /** The same batch with the textbook loop bound, updating every anchor. */
  function OnPolicyNStepTdTextbook(gamma: real, trajs: seq<Trajectory>, n: nat, alpha: real, initV: VTable): (v: VTable)
    requires n >= 1 && AllStatesIn(trajs, |initV|)
    ensures |v| == |initV|
    ensures |trajs| == 0 ==> v == initV
  {
    Batch(initV, trajs, gamma, n, alpha, true)
  }

  /** Sequential processing: a batch is its first part followed by the rest,
      each later update seeing the table the earlier ones left. */
  lemma {:induction false} BatchAppend(v: VTable, a: seq<Trajectory>, b: seq<Trajectory>, gamma: real, n: nat, alpha: real, textbook: bool)
    requires n >= 1 && AllStatesIn(a + b, |v|)
    ensures AllStatesIn(a, |v|) && AllStatesIn(b, |v|)
    ensures Batch(v, a + b, gamma, n, alpha, textbook)
         == Batch(Batch(v, a, gamma, n, alpha, textbook), b, gamma, n, alpha, textbook)
    decreases |a|
  {
    assert forall k :: 0 <= k < |a| ==> (a + b)[k] == a[k];
    assert forall k :: 0 <= k < |b| ==> (a + b)[|a| + k] == b[k];
    if |a| > 0 {
      var v' := Sweep(v, a[0], gamma, n, alpha, Stop(a[0], n, textbook), 0);
      assert (a + b)[1..] == a[1..] + b;
      BatchAppend(v', a[1..], b, gamma, n, alpha, textbook);
    } else {
      assert a + b == b;
    }
  }

  /** A batch of episodes all shorter than `n` returns `initV` unchanged. */
  lemma {:induction false} ShortEpisodesLeaveTableUnchanged(v: VTable, trajs: seq<Trajectory>, gamma: real, n: nat, alpha: real)
    requires n >= 1 && AllStatesIn(trajs, |v|)
    requires forall k :: 0 <= k < |trajs| ==> |trajs[k]| < n
    ensures OnPolicyNStepTd(gamma, trajs, n, alpha, v) == v
    decreases |trajs|
  {
    if |trajs| > 0 {
      NoUpdateWhenNExceedsT(v, trajs[0], gamma, n, alpha);
      ShortEpisodesLeaveTableUnchanged(v, trajs[1..], gamma, n, alpha);
    }
  }

  /** The hand-computed scenario: episode `(0,0,1,1), (1,0,2,2), (2,0,3,2)`,
      `gamma = 1`, `n = 1`, `alpha = 0.5`, `V = 0` gives `[0.5, 1, 1.5]`. */
  lemma HandComputedScenario()
    ensures OnPolicyNStepTd(1.0, [[Transition(0, 0, 1.0, 1), Transition(1, 0, 2.0, 2), Transition(2, 0, 3.0, 2)]],
                            1, 0.5, [0.0, 0.0, 0.0])
         == [0.5, 1.0, 1.5]
  {
    var traj := [Transition(0, 0, 1.0, 1), Transition(1, 0, 2.0, 2), Transition(2, 0, 3.0, 2)];
    var v0 := [0.0, 0.0, 0.0];
    var v1 := TdUpdate(v0, traj, 1.0, 1, 0.5, 0);
    assert v1 == [0.5, 0.0, 0.0];
    var v2 := TdUpdate(v1, traj, 1.0, 1, 0.5, 1);
    assert v2 == [0.5, 1.0, 0.0];
    var v3 := TdUpdate(v2, traj, 1.0, 1, 0.5, 2);
    assert v3 == [0.5, 1.0, 1.5];
    assert Sweep(v0, traj, 1.0, 1, 0.5, 3, 0) == v3;
  }

  /** A one-step episode with `n = 2`: as written its only anchor is never
      updated, the textbook loop moves it to the return `1`. */
  lemma TailAnchorSkipped()
    ensures OnPolicyNStepTd(1.0, [[Transition(0, 0, 1.0, 0)]], 2, 1.0, [0.0]) == [0.0]
    ensures OnPolicyNStepTdTextbook(1.0, [[Transition(0, 0, 1.0, 0)]], 2, 1.0, [0.0]) == [1.0]
  {
    var traj := [Transition(0, 0, 1.0, 0)];
    assert Sweep([0.0], traj, 1.0, 2, 1.0, 2, 0) == [1.0];
  }

  /** The inner `for t in range(T)` loop of `on_policy_n_step_td` over one
      episode, with the inline return computation. */
  method SweepLoop(gamma: real, traj: Trajectory, n: nat, alpha: real, v0: VTable) returns (v: VTable)
    requires n >= 1 && StatesIn(traj, |v0|)
    ensures v == Sweep(v0, traj, gamma, n, alpha, |traj|, 0)
  {
    v := v0;
    var t := 0;
    while t < |traj|
      invariant t <= |traj| && |v| == |v0|
      invariant Sweep(v, traj, gamma, n, alpha, |traj|, t) == Sweep(v0, traj, gamma, n, alpha, |traj|, 0)
    {
      var tau := t - n + 1;
      if tau >= 0 {
        var g := ComputeReturnV(gamma, traj, n, tau, v);
        var s := traj[tau].state;
        v := v[s := Toward(v[s], g, alpha)];
      }
      t := t + 1;
    }
  }

  /** `on_policy_n_step_td` with the source's loop over the episodes. */
  method OnPolicyNStepTdLoops(gamma: real, trajs: seq<Trajectory>, n: nat, alpha: real, initV: VTable) returns (v: VTable)
    requires n >= 1 && AllStatesIn(trajs, |initV|)
    ensures v == OnPolicyNStepTd(gamma, trajs, n, alpha, initV)
  {
    v := initV;
    var k := 0;
    while k < |trajs|
      invariant k <= |trajs| && |v| == |initV|
      invariant Batch(v, trajs[k..], gamma, n, alpha, false) == OnPolicyNStepTd(gamma, trajs, n, alpha, initV)
    {
      assert trajs[k..][1..] == trajs[k + 1..];
      v := SweepLoop(gamma, trajs[k], n, alpha, v);
      k := k + 1;
    }
  }
}
