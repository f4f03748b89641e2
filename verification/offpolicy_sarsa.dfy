/**
 Off-policy n-step SARSA (`off_policy_n_step_sarsa`), section 7.3 of
 Sutton & Barto. `Q` starts as all zeros and the target policy `pi` is an
 epsilon-greedy policy holding a reference to that same table, so every
 `pi.action_prob` call reads the table as it stands. For every episode and
 every `t` of `range(T)` the reward `r_t` is added to the episode total and,
 when `tau = t - n + 1 >= 0`, `Q[state(tau), action(tau)]` moves by
 `alpha * rho * (G - Q)`, with `rho` the importance ratio over the window
 `tau + 1 .. min(tau + n, T) - 1`.

 Random draws are parameters: `p` is the number `epsilon_greedy` draws at
 construction, `pFinal` the one drawn for the returned policy, and
 `explore(k, tau, i)` the action `np.random.choice` returns when
 `pi.action_prob` is asked about window index `i` of anchor `tau` in
 episode `k` (consulted only when `p >= epsilon`).
 */
module OffPolicySarsa {
  import opened Tables
  import opened NStepReturn
  import opened Policies

  /** `bpi.action_prob(state, action)` of the behaviour policy. */
  type Behaviour = (nat, nat) -> real

  /** The exploring draws, indexed by episode, anchor and window index. */
  type Explore = (nat, nat, nat) -> nat

  /** The hyper-parameters and table shape of one call. */
  datatype Params = Params(gamma: real, n: nat, alpha: real, epsilon: real, p: real, nS: nat, nA: nat)

  /** Every draw of `np.random.choice(nA)` is an action id. */
  ghost predicate DrawsFit(explore: Explore, nA: nat) {
    nA == 0 || forall k, tau, i :: explore(k, tau, i) < nA
  }

  /** `bpi.action_prob` is positive wherever the ratio divides by it: every
      index of the windows `tau + 1 .. tau + n - 1` for `tau = 0 .. T - n`,
      which together cover `1 .. T - 1` once `n >= 2` and `T >= n`. */
  predicate BehaviourCovers(bpi: Behaviour, traj: Trajectory, n: nat) {
    n >= 2 && |traj| >= n ==> forall i :: 1 <= i < |traj| ==> bpi(traj[i].state, traj[i].action) > 0.0
  }

  /** Everything the ratio over the window `tau + 1 .. hi - 1` needs. */
  predicate WindowReady(pi: EpsilonGreedy, traj: Trajectory, tau: nat, hi: nat, bpi: Behaviour, draw: nat -> nat) {
    && hi <= |traj|
    && forall i :: tau < i < hi ==>
         && HasRow(pi.q, traj[i].state)
         && draw(i) < |pi.q[traj[i].state]|
         && bpi(traj[i].state, traj[i].action) > 0.0
  }

  /** `pi.action_prob(s_i, a_i) / bpi.action_prob(s_i, a_i)` */
  function Ratio(pi: EpsilonGreedy, traj: Trajectory, i: nat, bpi: Behaviour, draw: nat -> nat): real
    requires i < |traj| && HasRow(pi.q, traj[i].state) && draw(i) < |pi.q[traj[i].state]|
    requires bpi(traj[i].state, traj[i].action) > 0.0
  {
    EpsActionProb(pi, traj[i].state, traj[i].action, draw(i)) / bpi(traj[i].state, traj[i].action)
  }

  /** `rho` after the loop over `i = tau + 1 .. hi - 1`, multiplying in order. */
  function RhoUpTo(pi: EpsilonGreedy, traj: Trajectory, tau: nat, hi: nat, bpi: Behaviour, draw: nat -> nat): real
    requires tau < hi && WindowReady(pi, traj, tau, hi, bpi, draw)
    decreases hi
  {
    if hi == tau + 1 then 1.0
    else RhoUpTo(pi, traj, tau, hi - 1, bpi, draw) * Ratio(pi, traj, hi - 1, bpi, draw)
  }

  /** The importance ratio of the update at `tau`. */
  function Rho(pi: EpsilonGreedy, traj: Trajectory, tau: nat, n: nat, bpi: Behaviour, draw: nat -> nat): real
    requires n >= 1 && tau < |traj| && WindowReady(pi, traj, tau, Min(tau + n, |traj|), bpi, draw)
  {
    RhoUpTo(pi, traj, tau, Min(tau + n, |traj|), bpi, draw)
  }

  /** The window is empty when `n = 1` or the anchor is the last index, and
      the ratio is then 1. */
  lemma RhoEmptyWindow(pi: EpsilonGreedy, traj: Trajectory, tau: nat, n: nat, bpi: Behaviour, draw: nat -> nat)
    requires n >= 1 && tau < |traj| && WindowReady(pi, traj, tau, Min(tau + n, |traj|), bpi, draw)
    requires n == 1 || tau + 1 == |traj|
    ensures Rho(pi, traj, tau, n, bpi, draw) == 1.0
  {
  }

  /** When target and behaviour policy give the same probability to every
      logged action of the window, the ratio is 1. */
  lemma {:induction false} RhoAgree(pi: EpsilonGreedy, traj: Trajectory, tau: nat, hi: nat, bpi: Behaviour, draw: nat -> nat)
    requires tau < hi && WindowReady(pi, traj, tau, hi, bpi, draw)
    requires forall i :: tau < i < hi ==>
               EpsActionProb(pi, traj[i].state, traj[i].action, draw(i)) == bpi(traj[i].state, traj[i].action)
    ensures RhoUpTo(pi, traj, tau, hi, bpi, draw) == 1.0
    decreases hi
  {
    if hi > tau + 1 {
      RhoAgree(pi, traj, tau, hi - 1, bpi, draw);
      var i := hi - 1;
      var b := bpi(traj[i].state, traj[i].action);
      assert Ratio(pi, traj, i, bpi, draw) == b / b;
      assert b / b == 1.0;
    }
  }

  /** Each factor is positive when `p > 0` and `epsilon >= 0`, and so is `rho`. */
  lemma {:induction false} RhoPositive(pi: EpsilonGreedy, traj: Trajectory, tau: nat, hi: nat, bpi: Behaviour, draw: nat -> nat)
    requires tau < hi && WindowReady(pi, traj, tau, hi, bpi, draw)
    requires pi.p > 0.0 && pi.epsilon >= 0.0
    ensures RhoUpTo(pi, traj, tau, hi, bpi, draw) > 0.0
    decreases hi
  {
    if hi > tau + 1 {
      RhoPositive(pi, traj, tau, hi - 1, bpi, draw);
      var i := hi - 1;
      var nA := |pi.q[traj[i].state]| as real;
      assert pi.p / nA > 0.0;
      assert EpsActionProb(pi, traj[i].state, traj[i].action, draw(i)) > 0.0;
      assert Ratio(pi, traj, i, bpi, draw) > 0.0;
    }
  }

  // ------------------------------------------------------------ one update

  /** Everything one episode needs: ids inside the table, `bpi` positive on
      the windows, and draws that are action ids. */
  ghost predicate EpisodeReady(q: QTable, traj: Trajectory, pr: Params, bpi: Behaviour, explore: Explore) {
    && pr.n >= 1
    && Shaped(q, pr.nS, pr.nA)
    && InTable(traj, pr.nS, pr.nA)
    && BehaviourCovers(bpi, traj, pr.n)
    && DrawsFit(explore, pr.nA)
  }

  /** The update at anchor `tau` of episode `k`:
      `Q[s, a] += alpha * rho * (G - Q[s, a])` with `(s, a)` logged at
      `tau`, `G` bootstrapped from `Q[state(tau+n), action(tau+n)]` and
      `rho` read through the live target policy. */
  function SarsaUpdate(q: QTable, traj: Trajectory, k: nat, pr: Params, bpi: Behaviour, explore: Explore, tau: nat): (r: QTable)
    requires EpisodeReady(q, traj, pr, bpi, explore) && tau + pr.n <= |traj|
    ensures Shaped(r, pr.nS, pr.nA)
    ensures forall x, y :: 0 <= x < pr.nS && 0 <= y < pr.nA && (x != traj[tau].state || y != traj[tau].action)
              ==> r[x][y] == q[x][y]
  {
    var s, a := traj[tau].state, traj[tau].action;
    Set2(q, s, a, Toward(q[s][a], AnchorReturn(q, traj, pr, tau), pr.alpha * AnchorRho(q, traj, k, pr, bpi, explore, tau)))
  }

  /** `rho` of anchor `tau` in episode `k`, read through the target policy
      built on the table as it stands. */
  function AnchorRho(q: QTable, traj: Trajectory, k: nat, pr: Params, bpi: Behaviour, explore: Explore, tau: nat): real
    requires EpisodeReady(q, traj, pr, bpi, explore) && tau + pr.n <= |traj|
  {
    AnchorWindowReady(q, traj, k, pr, bpi, explore, tau);
    Rho(EpsilonGreedy(q, pr.epsilon, pr.p), traj, tau, pr.n, bpi, AnchorDraws(explore, k, tau))
  }

  /** `G` of anchor `tau`, bootstrapped from `Q[state(tau+n), action(tau+n)]`. */
  function AnchorReturn(q: QTable, traj: Trajectory, pr: Params, tau: nat): real
    requires pr.n >= 1 && Shaped(q, pr.nS, pr.nA) && InTable(traj, pr.nS, pr.nA) && tau + pr.n <= |traj|
  {
    Return(traj, pr.gamma, tau, pr.n, BootQ(q, traj, tau + pr.n))
  }

  /** The exploring draws `pi.action_prob` sees while computing the ratio of
      anchor `tau` in episode `k`, by window index. */
  function AnchorDraws(explore: Explore, k: nat, tau: nat): nat -> nat {
    (i: nat) => explore(k, tau, i)
  }

  /** Within a ready episode every anchor's window is ready for the ratio. */
  lemma AnchorWindowReady(q: QTable, traj: Trajectory, k: nat, pr: Params, bpi: Behaviour, explore: Explore, tau: nat)
    requires EpisodeReady(q, traj, pr, bpi, explore) && tau + pr.n <= |traj|
    ensures WindowReady(EpsilonGreedy(q, pr.epsilon, pr.p), traj, tau, Min(tau + pr.n, |traj|), bpi, AnchorDraws(explore, k, tau))
  {
    var pi := EpsilonGreedy(q, pr.epsilon, pr.p);
    var draw := AnchorDraws(explore, k, tau);
    forall i | tau < i < Min(tau + pr.n, |traj|)
      ensures HasRow(pi.q, traj[i].state) && draw(i) < |pi.q[traj[i].state]|
      ensures bpi(traj[i].state, traj[i].action) > 0.0
    {
      assert traj[i].action < pr.nA;
    }
  }

  /** The importance-weighted step: the logged entry closes the fraction
      `alpha * rho` of its gap to the n-step return `G`, and a zero weight
      (`alpha = 0` or `rho = 0`) leaves the table as it was. */
  lemma SarsaUpdateStep(q: QTable, traj: Trajectory, k: nat, pr: Params, bpi: Behaviour, explore: Explore, tau: nat)
    requires EpisodeReady(q, traj, pr, bpi, explore) && tau + pr.n <= |traj|
    ensures var s, a := traj[tau].state, traj[tau].action;
            var w := pr.alpha * AnchorRho(q, traj, k, pr, bpi, explore, tau);
            var g := AnchorReturn(q, traj, pr, tau);
            var r := SarsaUpdate(q, traj, k, pr, bpi, explore, tau);
            && g - r[s][a] == (1.0 - w) * (g - q[s][a])
            && (w == 0.0 ==> r == q)
  {
    var s, a := traj[tau].state, traj[tau].action;
    var w := pr.alpha * AnchorRho(q, traj, k, pr, bpi, explore, tau);
    var g := AnchorReturn(q, traj, pr, tau);
    var r := SarsaUpdate(q, traj, k, pr, bpi, explore, tau);
    assert r[s][a] == Toward(q[s][a], g, w);
    assert g - Toward(q[s][a], g, w) == (1.0 - w) * (g - q[s][a]);
    if w == 0.0 {
      EntrywiseEqual(r, q, pr.nS, pr.nA);
    }
  }

  /** With `n = 1` the ratio is 1 and the update is one-step SARSA:
      `Q[s, a] += alpha * (r + gamma * Q[s', a'] - Q[s, a])` with `(s', a')`
      the pair logged at `tau + 1`. */
  lemma SarsaOneStep(q: QTable, traj: Trajectory, k: nat, pr: Params, bpi: Behaviour, explore: Explore, tau: nat)
    requires EpisodeReady(q, traj, pr, bpi, explore) && pr.n == 1 && tau + 1 < |traj|
    ensures var s, a, s', a' := traj[tau].state, traj[tau].action, traj[tau + 1].state, traj[tau + 1].action;
            SarsaUpdate(q, traj, k, pr, bpi, explore, tau)[s][a]
              == Toward(q[s][a], traj[tau].reward + pr.gamma * q[s'][a'], pr.alpha)
  {
    var s', a' := traj[tau + 1].state, traj[tau + 1].action;
    ReturnOneStep(traj, pr.gamma, tau, q[s'][a']);
    assert pr.alpha * 1.0 == pr.alpha;
  }

  /** When the live target policy and the behaviour policy give every logged
      action of the window the same probability, `rho = 1` and the update is
      on-policy n-step SARSA (section 7.2 of Sutton & Barto): the logged
      entry moves the step `alpha` towards the n-step return. */
  lemma SarsaUpdateOnPolicy(q: QTable, traj: Trajectory, k: nat, pr: Params, bpi: Behaviour, explore: Explore, tau: nat)
    requires EpisodeReady(q, traj, pr, bpi, explore) && tau + pr.n <= |traj|
    requires forall i :: tau < i < Min(tau + pr.n, |traj|) ==>
               EpsActionProb(EpsilonGreedy(q, pr.epsilon, pr.p), traj[i].state, traj[i].action, explore(k, tau, i))
                 == bpi(traj[i].state, traj[i].action)
    ensures var s, a := traj[tau].state, traj[tau].action;
            SarsaUpdate(q, traj, k, pr, bpi, explore, tau)[s][a]
              == Toward(q[s][a], Return(traj, pr.gamma, tau, pr.n, BootQ(q, traj, tau + pr.n)), pr.alpha)
  {
    assert AnchorRho(q, traj, k, pr, bpi, explore, tau) == 1.0 by {
      AnchorWindowReady(q, traj, k, pr, bpi, explore, tau);
      RhoAgree(EpsilonGreedy(q, pr.epsilon, pr.p), traj, tau, Min(tau + pr.n, |traj|), bpi, AnchorDraws(explore, k, tau));
    }
    assert pr.alpha * 1.0 == pr.alpha;
  }

  // ------------------------------------------------------------ one episode

  /** Table and running reward total part-way through an episode. */
  datatype Episode = Episode(q: QTable, total: real)

  /** The table after iteration `t` of the loop: updated at `t - n + 1` when
      that anchor exists. */
  function SweepStep(q: QTable, traj: Trajectory, k: nat, pr: Params, bpi: Behaviour, explore: Explore, t: nat): (r: QTable)
    requires EpisodeReady(q, traj, pr, bpi, explore) && t < |traj|
    ensures EpisodeReady(r, traj, pr, bpi, explore)
  {
    var tau := t - pr.n + 1;
    if tau >= 0 then SarsaUpdate(q, traj, k, pr, bpi, explore, tau) else q
  }

  /** Iterations `t .. T - 1` of the `for t in range(T)` loop. */
  function SarsaSweep(q: QTable, total: real, traj: Trajectory, k: nat, pr: Params, bpi: Behaviour, explore: Explore, t: nat): (r: Episode)
    requires EpisodeReady(q, traj, pr, bpi, explore) && t <= |traj|
    ensures Shaped(r.q, pr.nS, pr.nA)
    ensures r.total == total + RewardTotal(traj[t..])
    decreases |traj| - t
  {
    if t == |traj| then Episode(q, total)
    else
      assert traj[t..][1..] == traj[t + 1..];
      SarsaSweep(SweepStep(q, traj, k, pr, bpi, explore, t), total + traj[t].reward, traj, k, pr, bpi, explore, t + 1)
  }

  /** An episode shorter than `n` leaves `Q` unchanged. */
  lemma {:induction false} SweepUnchangedWhenShort(q: QTable, total: real, traj: Trajectory, k: nat, pr: Params, bpi: Behaviour, explore: Explore, t: nat)
    requires EpisodeReady(q, traj, pr, bpi, explore) && t <= |traj| && pr.n > |traj|
    ensures SarsaSweep(q, total, traj, k, pr, bpi, explore, t).q == q
    decreases |traj| - t
  {
    if t < |traj| {
      assert SweepStep(q, traj, k, pr, bpi, explore, t) == q;
      SweepUnchangedWhenShort(q, total + traj[t].reward, traj, k, pr, bpi, explore, t + 1);
    }
  }

  /** A sweep changes `Q` only at the pairs `(state(tau), action(tau))` of
      its anchors `tau = 0 .. T - n`. */
  lemma {:induction false} SweepFrame(q: QTable, total: real, traj: Trajectory, k: nat, pr: Params, bpi: Behaviour, explore: Explore, t: nat, x: nat, y: nat)
    requires EpisodeReady(q, traj, pr, bpi, explore) && t <= |traj|
    requires x < pr.nS && y < pr.nA
    requires forall tau :: 0 <= tau && tau + pr.n <= |traj| ==> traj[tau].state != x || traj[tau].action != y
    ensures SarsaSweep(q, total, traj, k, pr, bpi, explore, t).q[x][y] == q[x][y]
    decreases |traj| - t
  {
    if t < |traj| {
      var q' := SweepStep(q, traj, k, pr, bpi, explore, t);
      assert q'[x][y] == q[x][y] by {
        var tau := t - pr.n + 1;
        if tau >= 0 {
          assert traj[tau].state != x || traj[tau].action != y;
        }
      }
      SweepFrame(q', total + traj[t].reward, traj, k, pr, bpi, explore, t + 1, x, y);
    }
  }

  // ------------------------------------------------------------- the batch

  /** The table and the list `timestep_reward` after some episodes. */
  datatype Learned = Learned(q: QTable, rewards: seq<real>)

  ghost predicate BatchReady(trajs: seq<Trajectory>, pr: Params, bpi: Behaviour, explore: Explore) {
    && pr.n >= 1
    && DrawsFit(explore, pr.nA)
    && forall k :: 0 <= k < |trajs| ==> InTable(trajs[k], pr.nS, pr.nA) && BehaviourCovers(bpi, trajs[k], pr.n)
  }

  /** Episodes `k .. |trajs| - 1`, each appending its total reward. */
  function SarsaBatch(q: QTable, rewards: seq<real>, trajs: seq<Trajectory>, k: nat, pr: Params, bpi: Behaviour, explore: Explore): (r: Learned)
    requires BatchReady(trajs, pr, bpi, explore) && Shaped(q, pr.nS, pr.nA) && k <= |trajs|
    ensures Shaped(r.q, pr.nS, pr.nA)
    ensures |r.rewards| == |rewards| + |trajs| - k
    ensures r.rewards[..|rewards|] == rewards
    ensures forall j :: k <= j < |trajs| ==> r.rewards[|rewards| + j - k] == RewardTotal(trajs[j])
    decreases |trajs| - k
  {
    if k == |trajs| then Learned(q, rewards)
    else
      var e := SarsaSweep(q, 0.0, trajs[k], k, pr, bpi, explore, 0);
      assert trajs[k][0..] == trajs[k];
      SarsaBatch(e.q, rewards + [e.total], trajs, k + 1, pr, bpi, explore)
  }

  /** What `off_policy_n_step_sarsa` returns. */
  datatype SarsaOutput = SarsaOutput(q: QTable, episodeRewards: seq<real>, policy: EpsilonGreedy)

  /** `off_policy_n_step_sarsa(gamma, trajs, bpi, nS, nA, n, alpha, epsilon)`:
      an `nS x nA` table, one reward total per episode, and a fresh
      epsilon-greedy policy over the final table. */
  function OffPolicyNStepSarsa(trajs: seq<Trajectory>, bpi: Behaviour, pr: Params, pFinal: real, explore: Explore): (out: SarsaOutput)
    requires BatchReady(trajs, pr, bpi, explore)
    ensures Shaped(out.q, pr.nS, pr.nA)
    ensures |out.episodeRewards| == |trajs|
    ensures forall k :: 0 <= k < |trajs| ==> out.episodeRewards[k] == RewardTotal(trajs[k])
    ensures out.policy == EpsilonGreedy(out.q, pr.epsilon, pFinal)
    ensures |trajs| == 0 ==> forall s, a :: 0 <= s < pr.nS && 0 <= a < pr.nA ==> out.q[s][a] == 0.0
  {
    var learned := SarsaBatch(InitQ(pr.nS, pr.nA, Zeros), [], trajs, 0, pr, bpi, explore);
    SarsaOutput(learned.q, learned.rewards, EpsilonGreedy(learned.q, pr.epsilon, pFinal))
  }
}
