/**
 One-step Q-learning over logged trajectories (`qlearning` in
 q_learning.py). `Q` starts as all zeros. For each episode the learner
 starts from the first logged state with an epsilon-greedy action, then for
 every transition `t`: `s' = next_state(t)`, `a' = argmax Q[s', :]`,
 `Q[s, a] += alpha * (r_t + gamma * Q[s', a'] - Q[s, a])`, and carries
 `(s, a) := (s', a')`. The logged state and action of transition `t > 0`
 are never read.

 The two draws of `epsilon_greedy` (`np.random.rand()` and
 `np.random.randint(0, n_actions)`) are parameters.
 */
module QLearning {
  import opened Tables

  /** The draws `epsilon_greedy` makes: `u` from `np.random.rand()` and `k`
      from `np.random.randint(0, n_actions)`. */
  datatype Draw = Draw(u: real, k: nat)

  /** `epsilon_greedy(Q, epsilon, n_actions, s, train)`: the first-index
      argmax of `Q[s, :]` when training or when `u < epsilon`, otherwise the
      uniform draw `k`. */
  function EpsilonGreedyChoice(q: QTable, epsilon: real, s: nat, train: bool, d: Draw): (a: nat)
    requires s < |q| && d.k < |q[s]|
    ensures a < |q[s]|
    ensures train ==> IsFirstArgmax(q[s], a)
    ensures !train && d.u < epsilon ==> IsFirstArgmax(q[s], a)
    ensures !train && epsilon <= d.u ==> a == d.k
  {
    if train || d.u < epsilon then Argmax(q[s]) else d.k
  }

  // ---------------------------------------------------------- one episode

  /** The learner's state inside an episode: the table, the carried pair
      `(s, a)` and the running reward total. */
  datatype Carry = Carry(q: QTable, s: nat, a: nat, total: real)

  predicate CarryReady(c: Carry, nS: nat, nA: nat) {
    Shaped(c.q, nS, nA) && c.s < nS && c.a < nA
  }

  /** One iteration of `for t in range(len(traj))`. */
  function QStep(c: Carry, tr: Transition, alpha: real, gamma: real, nS: nat, nA: nat): (r: Carry)
    requires CarryReady(c, nS, nA) && tr.nextState < nS
    ensures CarryReady(r, nS, nA)
    ensures r.s == tr.nextState
    ensures IsFirstArgmax(c.q[tr.nextState], r.a)
    ensures r.q[c.s][c.a] == Toward(c.q[c.s][c.a], tr.reward + gamma * Max(c.q[tr.nextState]), alpha)
    ensures forall x, y :: 0 <= x < nS && 0 <= y < nA && (x != c.s || y != c.a) ==> r.q[x][y] == c.q[x][y]
    ensures r.total == c.total + tr.reward
  {
    var s' := tr.nextState;
    var a' := Argmax(c.q[s']);
    var q' := Set2(c.q, c.s, c.a, Toward(c.q[c.s][c.a], tr.reward + gamma * c.q[s'][a'], alpha));
    Carry(q', s', a', c.total + tr.reward)
  }

  /** Every next state of the episode indexes the table. */
  predicate NextStatesIn(traj: Trajectory, nS: nat) {
    forall i :: 0 <= i < |traj| ==> traj[i].nextState < nS
  }

  /** The learner after the first `t` transitions of the episode. */
  function QRun(c: Carry, traj: Trajectory, alpha: real, gamma: real, nS: nat, nA: nat, t: nat): (r: Carry)
    requires CarryReady(c, nS, nA) && NextStatesIn(traj, nS) && t <= |traj|
    ensures CarryReady(r, nS, nA)
    ensures r.total == c.total + RewardTotal(traj[..t])
    decreases t
  {
    if t == 0 then c
    else
      var prev := QRun(c, traj, alpha, gamma, nS, nA, t - 1);
      RewardTotalSnoc(traj[..t], t - 1);
      assert traj[..t][..t - 1] == traj[..t - 1];
      QStep(prev, traj[t - 1], alpha, gamma, nS, nA)
  }

  /** Adding the rewards in loop order gives the reference total. */
  lemma {:induction false} RewardTotalSnoc(traj: Trajectory, m: nat)
    requires m + 1 == |traj|
    ensures RewardTotal(traj) == RewardTotal(traj[..m]) + traj[m].reward
    decreases m
  {
    if m > 0 {
      RewardTotalSnoc(traj[1..], m - 1);
      assert traj[1..][..m - 1] == traj[..m][1..];
    }
  }

  /** After transition `t` the carried state is `next_state(t)` and the
      carried action is the greedy action there, read from the table
      before the update of step `t`. */
  lemma CarryAfterStep(c: Carry, traj: Trajectory, alpha: real, gamma: real, nS: nat, nA: nat, t: nat)
    requires CarryReady(c, nS, nA) && NextStatesIn(traj, nS) && t < |traj|
    ensures var before := QRun(c, traj, alpha, gamma, nS, nA, t);
            var after := QRun(c, traj, alpha, gamma, nS, nA, t + 1);
            after.s == traj[t].nextState && IsFirstArgmax(before.q[traj[t].nextState], after.a)
  {
  }

  /** The update of transition `t + 1` writes the carried pair
      `(next_state(t), a')`, with `a'` greedy in `next_state(t)` on the
      table before step `t`, whatever state and action are logged at
      `t + 1`; every other entry is left alone. */
  lemma NextUpdateUsesCarry(c: Carry, traj: Trajectory, alpha: real, gamma: real, nS: nat, nA: nat, t: nat)
    requires CarryReady(c, nS, nA) && NextStatesIn(traj, nS) && t + 1 < |traj|
    ensures QRun(c, traj, alpha, gamma, nS, nA, t + 1).s == traj[t].nextState
    ensures IsFirstArgmax(QRun(c, traj, alpha, gamma, nS, nA, t).q[traj[t].nextState],
                          QRun(c, traj, alpha, gamma, nS, nA, t + 1).a)
    ensures var mid := QRun(c, traj, alpha, gamma, nS, nA, t + 1);
            forall x, y :: 0 <= x < nS && 0 <= y < nA && (x != traj[t].nextState || y != mid.a)
              ==> QRun(c, traj, alpha, gamma, nS, nA, t + 2).q[x][y] == mid.q[x][y]
  {
    var mid := QRun(c, traj, alpha, gamma, nS, nA, t + 1);
    assert QRun(c, traj, alpha, gamma, nS, nA, t + 2) == QStep(mid, traj[t + 1], alpha, gamma, nS, nA);
  }

  // ------------------------------------------------------------- the batch

  /** Table and `timestep_reward` after some episodes. */
  datatype QOutput = QOutput(q: QTable, episodeRewards: seq<real>)

  /** What `qlearning` needs of its input: non-empty episodes (it reads
      `traj[0][0]`), state ids inside the table, one first-action draw per
      episode. */
  predicate BatchReady(trajs: seq<Trajectory>, draws: seq<Draw>, nS: nat, nA: nat) {
    && |draws| == |trajs|
    && forall k :: 0 <= k < |trajs| ==>
         && |trajs[k]| > 0
         && trajs[k][0].state < nS
         && NextStatesIn(trajs[k], nS)
         && draws[k].k < nA
  }

  /** Episodes `k ..` of the batch, each starting from its first logged
      state and an epsilon-greedy action on the current table. */
  function QBatch(q: QTable, rewards: seq<real>, trajs: seq<Trajectory>, draws: seq<Draw>, k: nat,
                  alpha: real, gamma: real, epsilon: real, nS: nat, nA: nat): (r: QOutput)
    requires BatchReady(trajs, draws, nS, nA) && Shaped(q, nS, nA) && k <= |trajs|
    ensures Shaped(r.q, nS, nA)
    ensures |r.episodeRewards| == |rewards| + |trajs| - k
    ensures r.episodeRewards[..|rewards|] == rewards
    ensures forall j :: k <= j < |trajs| ==> r.episodeRewards[|rewards| + j - k] == RewardTotal(trajs[j])
    decreases |trajs| - k
  {
    if k == |trajs| then QOutput(q, rewards)
    else
      var traj := trajs[k];
      var s := traj[0].state;
      var a := EpsilonGreedyChoice(q, epsilon, s, false, draws[k]);
      var c := QRun(Carry(q, s, a, 0.0), traj, alpha, gamma, nS, nA, |traj|);
      assert traj[..|traj|] == traj;
      QBatch(c.q, rewards + [c.total], trajs, draws, k + 1, alpha, gamma, epsilon, nS, nA)
  }

  /** `qlearning(trajs, n_states, n_actions, alpha, gamma, epsilon)`. */
  function QLearningRun(trajs: seq<Trajectory>, draws: seq<Draw>, nS: nat, nA: nat,
                        alpha: real, gamma: real, epsilon: real): (out: QOutput)
    requires BatchReady(trajs, draws, nS, nA)
    ensures Shaped(out.q, nS, nA)
    ensures |out.episodeRewards| == |trajs|
    ensures forall k :: 0 <= k < |trajs| ==> out.episodeRewards[k] == RewardTotal(trajs[k])
    ensures |trajs| == 0 ==> forall s, a :: 0 <= s < nS && 0 <= a < nA ==> out.q[s][a] == 0.0
  {
    QBatch(InitQ(nS, nA, Zeros), [], trajs, draws, 0, alpha, gamma, epsilon, nS, nA)
  }

  // ------------------------------------------- updating the logged pair

  /** Q-learning that updates the logged pair `(state(t), action(t))` of
      each transition, towards `r_t + gamma * max Q[s'_t, :]`. */
  function LoggedStep(q: QTable, tr: Transition, alpha: real, gamma: real, nS: nat, nA: nat): (r: QTable)
    requires Shaped(q, nS, nA) && tr.state < nS && tr.action < nA && tr.nextState < nS
    ensures Shaped(r, nS, nA)
    ensures r[tr.state][tr.action] == Toward(q[tr.state][tr.action], tr.reward + gamma * Max(q[tr.nextState]), alpha)
    ensures forall x, y :: 0 <= x < nS && 0 <= y < nA && (x != tr.state || y != tr.action) ==> r[x][y] == q[x][y]
  {
    Set2(q, tr.state, tr.action, Toward(q[tr.state][tr.action], tr.reward + gamma * Max(q[tr.nextState]), alpha))
  }

  /** The intended learner over the first `t` transitions of an episode. */
  function LoggedRun(q: QTable, traj: Trajectory, alpha: real, gamma: real, nS: nat, nA: nat, t: nat): (r: QTable)
    requires Shaped(q, nS, nA) && InTable(traj, nS, nA) && NextStatesIn(traj, nS) && t <= |traj|
    ensures Shaped(r, nS, nA)
    decreases t
  {
    if t == 0 then q
    else LoggedStep(LoggedRun(q, traj, alpha, gamma, nS, nA, t - 1), traj[t - 1], alpha, gamma, nS, nA)
  }

  /** Transition `t` of the intended learner writes exactly its logged
      pair `(state(t), action(t))`. */
  lemma LoggedRunTouchesLoggedPair(q: QTable, traj: Trajectory, alpha: real, gamma: real, nS: nat, nA: nat, t: nat)
    requires Shaped(q, nS, nA) && InTable(traj, nS, nA) && NextStatesIn(traj, nS) && t < |traj|
    ensures var before := LoggedRun(q, traj, alpha, gamma, nS, nA, t);
            var after := LoggedRun(q, traj, alpha, gamma, nS, nA, t + 1);
            && after[traj[t].state][traj[t].action]
                 == Toward(before[traj[t].state][traj[t].action], traj[t].reward + gamma * Max(before[traj[t].nextState]), alpha)
            && forall x, y :: 0 <= x < nS && 0 <= y < nA && (x != traj[t].state || y != traj[t].action)
                 ==> after[x][y] == before[x][y]
  {
    var before := LoggedRun(q, traj, alpha, gamma, nS, nA, t);
    var after := LoggedStep(before, traj[t], alpha, gamma, nS, nA);
    assert LoggedRun(q, traj, alpha, gamma, nS, nA, t + 1) == after;
  }

  /** One transition `(0, 1, 1.0, 0)` over one state and two actions with
      `alpha = 1`, `gamma = 0` and an exploiting first draw: as written the
      reward lands on action 0, the argmax of the all-zero row, and the
      logged action 1 keeps 0. */
  lemma LoggedActionIgnored()
    ensures QLearningRun([[Transition(0, 1, 1.0, 0)]], [Draw(0.0, 0)], 1, 2, 1.0, 0.0, 0.9).q == [[1.0, 0.0]]
  {
    var traj := [Transition(0, 1, 1.0, 0)];
    var q0 := InitQ(1, 2, Zeros);
    assert q0[0] == [0.0, 0.0];
    assert EpsilonGreedyChoice(q0, 0.9, 0, false, Draw(0.0, 0)) == 0;
    var c := QRun(Carry(q0, 0, 0, 0.0), traj, 1.0, 0.0, 1, 2, 1);
    FirstStepOnZeros();
    assert traj[..1] == traj;
    assert QBatch(q0, [], [traj], [Draw(0.0, 0)], 0, 1.0, 0.0, 0.9, 1, 2)
        == QBatch(c.q, [c.total], [traj], [Draw(0.0, 0)], 1, 1.0, 0.0, 0.9, 1, 2);
  }

  /** The as-written episode of `LoggedActionIgnored`, started from the
      carried pair `(0, 0)`. */
  lemma FirstStepOnZeros()
    ensures QRun(Carry(InitQ(1, 2, Zeros), 0, 0, 0.0), [Transition(0, 1, 1.0, 0)], 1.0, 0.0, 1, 2, 1).q == [[1.0, 0.0]]
  {
    var zeros: QTable := [[0.0, 0.0]];
    assert InitQ(1, 2, Zeros) == zeros by {
      var q0 := InitQ(1, 2, Zeros);
      assert |q0| == 1 && q0[0] == [0.0, 0.0];
    }
    StepFromZeros(zeros, Transition(0, 1, 1.0, 0));
  }

  /** One transition rewarded 1 from the all-zero `1 x 2` table, with
      `alpha = 1` and `gamma = 0`, sets the carried entry `(0, 0)` to 1. */
  lemma StepFromZeros(zeros: QTable, tr: Transition)
    requires zeros == [[0.0, 0.0]] && tr == Transition(0, 1, 1.0, 0)
    ensures QRun(Carry(zeros, 0, 0, 0.0), [tr], 1.0, 0.0, 1, 2, 1).q == [[1.0, 0.0]]
  {
    var c0 := Carry(zeros, 0, 0, 0.0);
    var r := QStep(c0, tr, 1.0, 0.0, 1, 2);
    assert QRun(c0, [tr], 1.0, 0.0, 1, 2, 1) == r;
    assert r.q[0][0] == 1.0;
    assert r.q[0][1] == 0.0;
    assert r.q[0] == [1.0, 0.0];
  }

  /** On the same input the intended learner credits the logged action 1. */
  lemma LoggedActionCredited()
    ensures LoggedRun([[0.0, 0.0]], [Transition(0, 1, 1.0, 0)], 1.0, 0.0, 1, 2, 1) == [[0.0, 1.0]]
  {
    var traj := [Transition(0, 1, 1.0, 0)];
    var l0 := [[0.0, 0.0]];
    var l1 := LoggedStep(l0, traj[0], 1.0, 0.0, 1, 2);
    assert LoggedRun(l0, traj, 1.0, 0.0, 1, 2, 1) == l1;
    assert l1[0] == [0.0, 1.0];
  }
}
