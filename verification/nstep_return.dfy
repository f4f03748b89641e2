/**
 The n-step return of Sutton & Barto, Reinforcement Learning (2nd ed.),
 section 7.1, as the two updaters of the n-step module compute it inline:

   G = sum_{i = tau}^{min(tau+n, T) - 1} gamma^(i - tau) * r_i
       + (gamma^n * bootstrap   when tau + n < T)

 where `r_i` is the reward logged with transition `i` and the bootstrap value
 is read from the table at index `tau + n`.
 */
module NStepReturn {
  import opened Tables

  /** `sum_{i = tau}^{hi - 1} gamma^(i - tau) * r_i`, accumulated in index
      order as the `for i in range(tau, ...)` loop does. */
  function Discounted(traj: Trajectory, gamma: real, tau: nat, hi: nat): real
    requires tau <= hi <= |traj|
    decreases hi - tau
  {
    if hi == tau then 0.0
    else Discounted(traj, gamma, tau, hi - 1) + Pow(gamma, hi - 1 - tau) * traj[hi - 1].reward
  }

  /** The n-step return anchored at `tau`; `boot` is the table value at
      index `tau + n`, used only when that index lies inside the episode. */
  function Return(traj: Trajectory, gamma: real, tau: nat, n: nat, boot: real): real
    requires tau < |traj|
  {
    Discounted(traj, gamma, tau, Min(tau + n, |traj|))
      + (if tau + n < |traj| then Pow(gamma, n) * boot else 0.0)
  }

  /** Reference definition: the Monte Carlo return from `tau` to the end of
      the episode, `r_tau + gamma * (r_{tau+1} + gamma * (...))`. */
  function MonteCarlo(traj: Trajectory, gamma: real, tau: nat): real
    decreases |traj| - tau
  {
    if tau >= |traj| then 0.0 else traj[tau].reward + gamma * MonteCarlo(traj, gamma, tau + 1)
  }

  /** `V[state(j)]` when `j` is an index of the episode (0 otherwise, a
      value `Return` never reads). */
  function BootV(v: VTable, traj: Trajectory, j: nat): real
    requires j < |traj| ==> traj[j].state < |v|
  {
    if j < |traj| then v[traj[j].state] else 0.0
  }

  /** `Q[state(j), action(j)]` when `j` is an index of the episode. */
  function BootQ(q: QTable, traj: Trajectory, j: nat): real
    requires j < |traj| ==> traj[j].state < |q| && traj[j].action < |q[traj[j].state]|
  {
    if j < |traj| then q[traj[j].state][traj[j].action] else 0.0
  }

  /** Peeling off the first reward: the forward loop's sum equals the
      nested form `r_tau + gamma * (sum from tau + 1)`. */
  lemma {:induction false} DiscountedPeel(traj: Trajectory, gamma: real, tau: nat, hi: nat)
    requires tau < hi <= |traj|
    ensures Discounted(traj, gamma, tau, hi)
         == traj[tau].reward + gamma * Discounted(traj, gamma, tau + 1, hi)
    decreases hi - tau
  {
    if hi == tau + 1 {
      assert Discounted(traj, gamma, tau, hi) == Discounted(traj, gamma, tau, tau) + Pow(gamma, 0) * traj[tau].reward;
    } else {
      DiscountedPeel(traj, gamma, tau, hi - 1);
      var last := traj[hi - 1].reward;
      var rest := Discounted(traj, gamma, tau + 1, hi - 1);
      var p := Pow(gamma, hi - 1 - (tau + 1));
      assert Pow(gamma, hi - 1 - tau) == gamma * p;
      assert Discounted(traj, gamma, tau + 1, hi) == rest + p * last;
      FactorGamma(traj[tau].reward, gamma, rest, p, last);
    }
  }

  /** `r + gamma * rest + (gamma * p) * last == r + gamma * (rest + p * last)` */
  lemma FactorGamma(r: real, gamma: real, rest: real, p: real, last: real)
    ensures r + gamma * rest + (gamma * p) * last == r + gamma * (rest + p * last)
  {
  }

  /** The loop's sum to the end of the episode is the Monte Carlo return. */
  lemma {:induction false} DiscountedToEndIsMonteCarlo(traj: Trajectory, gamma: real, tau: nat)
    requires tau <= |traj|
    ensures Discounted(traj, gamma, tau, |traj|) == MonteCarlo(traj, gamma, tau)
    decreases |traj| - tau
  {
    if tau < |traj| {
      DiscountedPeel(traj, gamma, tau, |traj|);
      DiscountedToEndIsMonteCarlo(traj, gamma, tau + 1);
    }
  }

  /** When the look-ahead reaches the end of the episode (`tau + n >= T`)
      no bootstrap term is added, whatever the table holds, and the n-step
      return is the Monte Carlo return of the tail. */
  lemma ReturnPastEndIsMonteCarlo(traj: Trajectory, gamma: real, tau: nat, n: nat, boot: real)
    requires tau < |traj| && tau + n >= |traj|
    ensures Return(traj, gamma, tau, n, boot) == MonteCarlo(traj, gamma, tau)
  {
    DiscountedToEndIsMonteCarlo(traj, gamma, tau);
  }

  /** The recursive form of section 7.1 of Sutton & Barto:
      `G_{tau:tau+n} = r_tau + gamma * G_{tau+1:tau+n}`, both returns
      bootstrapping from the same index `tau + n`. */
  lemma ReturnRecursion(traj: Trajectory, gamma: real, tau: nat, n: nat, boot: real)
    requires n >= 2 && tau + 1 < |traj|
    ensures Return(traj, gamma, tau, n, boot)
         == traj[tau].reward + gamma * Return(traj, gamma, tau + 1, n - 1, boot)
  {
    var hi := Min(tau + n, |traj|);
    DiscountedPeel(traj, gamma, tau, hi);
    assert Pow(gamma, n) == gamma * Pow(gamma, n - 1);
    if tau + n < |traj| {
      assert Pow(gamma, n) * boot == gamma * (Pow(gamma, n - 1) * boot);
    }
  }

  /** With `n = 1` the return is the one-step TD target `r_tau + gamma * boot`
      inside the episode and the bare last reward at its end. */
  lemma ReturnOneStep(traj: Trajectory, gamma: real, tau: nat, boot: real)
    requires tau < |traj|
    ensures tau + 1 < |traj| ==> Return(traj, gamma, tau, 1, boot) == traj[tau].reward + gamma * boot
    ensures tau + 1 == |traj| ==> Return(traj, gamma, tau, 1, boot) == traj[tau].reward
  {
    DiscountedPeel(traj, gamma, tau, tau + 1);
  }

  /** Bootstrapping from the exact Monte Carlo value of index `tau + n`
      gives back the Monte Carlo return from `tau`: inside the episode the
      n-step return is the Monte Carlo return with its tail replaced by the
      bootstrap value. */
  lemma {:induction false} ReturnWithExactBootIsMonteCarlo(traj: Trajectory, gamma: real, tau: nat, n: nat)
    requires tau + n < |traj|
    ensures Return(traj, gamma, tau, n, MonteCarlo(traj, gamma, tau + n)) == MonteCarlo(traj, gamma, tau)
    decreases n
  {
    var boot := MonteCarlo(traj, gamma, tau + n);
    if n == 0 {
      assert Return(traj, gamma, tau, 0, boot) == Discounted(traj, gamma, tau, tau) + Pow(gamma, 0) * boot;
    } else if n == 1 {
      ReturnOneStep(traj, gamma, tau, boot);
    } else {
      ReturnRecursion(traj, gamma, tau, n, boot);
      ReturnWithExactBootIsMonteCarlo(traj, gamma, tau + 1, n - 1);
      assert tau + 1 + (n - 1) == tau + n;
    }
  }

  /** The return computation of the on-policy updater, written as the
      source's two loops: rewards `tau .. min(tau+n, T) - 1` weighted by
      `gamma^(i - tau)`, then `gamma^n * V[state(tau + n)]` if `tau + n < T`. */
  method ComputeReturnV(gamma: real, traj: Trajectory, n: nat, tau: nat, v: VTable) returns (g: real)
    requires tau < |traj|
    requires forall i :: 0 <= i < |traj| ==> traj[i].state < |v|
    ensures g == Return(traj, gamma, tau, n, BootV(v, traj, tau + n))
    ensures tau + n >= |traj| ==> g == MonteCarlo(traj, gamma, tau)
  {
    g := 0.0;
    var hi := Min(tau + n, |traj|);
    var i := tau;
    while i < hi
      invariant tau <= i <= hi
      invariant g == Discounted(traj, gamma, tau, i)
    {
      g := g + Pow(gamma, i - tau) * traj[i].reward;
      i := i + 1;
    }
    if tau + n < |traj| {
      g := g + Pow(gamma, n) * v[traj[tau + n].state];
    } else {
      DiscountedToEndIsMonteCarlo(traj, gamma, tau);
    }
  }
}
