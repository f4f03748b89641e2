/**
 The two policy classes of the n-step module: `GreedyPolicy` and
 `epsilon_greedy`. Both read an action-value table. The random number
 `epsilon_greedy` draws once at construction is the field `p`; the action
 `np.random.choice` would pick on the exploring branch is the argument
 `explore`.
 */
module Policies {
  import opened Tables

  datatype Greedy = Greedy(q: QTable)

  datatype EpsilonGreedy = EpsilonGreedy(q: QTable, epsilon: real, p: real)

  /** State `s` has a non-empty row of action values. */
  predicate HasRow(q: QTable, s: nat) {
    s < |q| && |q[s]| > 0
  }

  /** `f(0) + f(1) + ... + f(k-1)`, used to add up a policy's
      probabilities over the actions of one state. */
  function SumTo(f: nat -> real, k: nat): real {
    if k == 0 then 0.0 else SumTo(f, k - 1) + f(k - 1)
  }

  // ---------------------------------------------------------------- greedy

  /** `GreedyPolicy.action`: `np.argmax(Q[state, :])`. */
  function GreedyAction(pi: Greedy, s: nat): (a: nat)
    requires HasRow(pi.q, s)
    ensures IsFirstArgmax(pi.q[s], a)
  {
    Argmax(pi.q[s])
  }

  /** `GreedyPolicy.action_prob`: certain for the first-index argmax,
      impossible for every other action. */
  function GreedyActionProb(pi: Greedy, s: nat, a: nat): (pr: real)
    requires HasRow(pi.q, s)
    ensures pr == 1.0 <==> IsFirstArgmax(pi.q[s], a)
    ensures pr == 0.0 <==> !IsFirstArgmax(pi.q[s], a)
  {
    FirstArgmaxUnique(pi.q[s], GreedyAction(pi, s), a);
    if GreedyAction(pi, s) == a then 1.0 else 0.0
  }

  function GreedyProbs(pi: Greedy, s: nat): nat -> real
    requires HasRow(pi.q, s)
  {
    (a: nat) => GreedyActionProb(pi, s, a)
  }

  lemma {:induction false} GreedyMassPrefix(pi: Greedy, s: nat, k: nat)
    requires HasRow(pi.q, s) && k <= |pi.q[s]|
    ensures SumTo(GreedyProbs(pi, s), k) == if GreedyAction(pi, s) < k then 1.0 else 0.0
  {
    if k > 0 {
      GreedyMassPrefix(pi, s, k - 1);
    }
  }

  /** The greedy policy's probabilities over the actions of a state add up to one. */
  lemma GreedyProbSumsToOne(pi: Greedy, s: nat)
    requires HasRow(pi.q, s)
    ensures SumTo(GreedyProbs(pi, s), |pi.q[s]|) == 1.0
  {
    GreedyMassPrefix(pi, s, |pi.q[s]|);
  }

  // -------------------------------------------------------- epsilon-greedy

  /** `epsilon_greedy.action`: the first-index argmax when the frozen draw
      `p` is below `epsilon`, otherwise the exploring draw. */
  function EpsAction(pi: EpsilonGreedy, s: nat, explore: nat): (a: nat)
    requires HasRow(pi.q, s) && explore < |pi.q[s]|
    ensures a < |pi.q[s]|
    ensures pi.p < pi.epsilon ==> IsFirstArgmax(pi.q[s], a)
    ensures pi.epsilon <= pi.p ==> a == explore
  {
    if pi.p < pi.epsilon then Argmax(pi.q[s]) else explore
  }

  /** `epsilon_greedy.action_prob` as written: the action `action(state)`
      returns gets `epsilon + p/nA`, every other action `p/nA`. */
  function EpsActionProb(pi: EpsilonGreedy, s: nat, a: nat, explore: nat): real
    requires HasRow(pi.q, s) && explore < |pi.q[s]|
  {
    var nA := |pi.q[s]| as real;
    if EpsAction(pi, s, explore) == a then pi.epsilon + pi.p / nA else pi.p / nA
  }

  /** The action `action(state)` returns, on either branch, gets exactly
      `epsilon` more than any other action, and each other action gets
      `p/nA`. */
  lemma EpsilonGap(pi: EpsilonGreedy, s: nat, explore: nat, g: nat, b: nat)
    requires HasRow(pi.q, s) && explore < |pi.q[s]|
    requires g == EpsAction(pi, s, explore) && b != g
    ensures EpsActionProb(pi, s, g, explore) == EpsActionProb(pi, s, b, explore) + pi.epsilon
    ensures EpsActionProb(pi, s, b, explore) == pi.p / (|pi.q[s]| as real)
  {
  }

  /** Adding one more share `x` (and perhaps the bonus) to a prefix sum. */
  lemma OneMoreShare(k: nat, x: real, before: real, bonus: real)
    requires k > 0
    ensures ((k - 1) as real) * x + before + (bonus + x) == (k as real) * x + (before + bonus)
  {
    assert ((k - 1) as real) * x + x == (k as real) * x;
  }

  /** One exploring draw per action of the state, each an action id. */
  predicate DrawsBelow(draws: seq<nat>, nA: nat) {
    |draws| == nA && forall a :: 0 <= a < |draws| ==> draws[a] < nA
  }

  /** `action_prob(state, a)` for each action `a`, each call running
      `action(state)` afresh: `draws[a]` is what `np.random.choice` returns
      inside the call asked about `a` (read only when `p >= epsilon`). */
  function EpsProbs(pi: EpsilonGreedy, s: nat, draws: seq<nat>): nat -> real
    requires HasRow(pi.q, s) && DrawsBelow(draws, |pi.q[s]|)
  {
    (a: nat) => if a < |draws| then EpsActionProb(pi, s, a, draws[a]) else 0.0
  }

  /** 1 when the call asked about action `a` has its own `action(state)`
      return `a`, else 0. */
  function Hit(pi: EpsilonGreedy, s: nat, draws: seq<nat>, a: nat): (h: nat)
    requires HasRow(pi.q, s) && DrawsBelow(draws, |pi.q[s]|) && a < |draws|
    ensures h <= 1
  {
    if EpsAction(pi, s, draws[a]) == a then 1 else 0
  }

  /** How many of the calls for actions `0 .. k-1` hit the very action they
      were asked about. */
  function Hits(pi: EpsilonGreedy, s: nat, draws: seq<nat>, k: nat): (m: nat)
    requires HasRow(pi.q, s) && DrawsBelow(draws, |pi.q[s]|) && k <= |draws|
    ensures m <= k
  {
    if k == 0 then 0 else Hits(pi, s, draws, k - 1) + Hit(pi, s, draws, k - 1)
  }

  /** The `epsilon` bonuses the calls for actions `0 .. k-1` collect. */
  function Bonus(pi: EpsilonGreedy, s: nat, draws: seq<nat>, k: nat): real
    requires HasRow(pi.q, s) && DrawsBelow(draws, |pi.q[s]|) && k <= |draws|
  {
    if k == 0 then 0.0 else Bonus(pi, s, draws, k - 1) + (if Hit(pi, s, draws, k - 1) == 1 then pi.epsilon else 0.0)
  }

  /** `e` added up `m` times. */
  function Times(e: real, m: nat): real {
    if m == 0 then 0.0 else Times(e, m - 1) + e
  }

  /** Adding `e` up `m` times is multiplying by `m`. */
  lemma {:induction false} TimesIsProduct(e: real, m: nat)
    ensures Times(e, m) == e * (m as real)
  {
    if m > 0 {
      TimesIsProduct(e, m - 1);
      assert e * ((m - 1) as real) + e == e * (m as real);
    }
  }

  /** Each hit collects one `epsilon`. */
  lemma {:induction false} BonusCountsHits(pi: EpsilonGreedy, s: nat, draws: seq<nat>, k: nat)
    requires HasRow(pi.q, s) && DrawsBelow(draws, |pi.q[s]|) && k <= |draws|
    ensures Bonus(pi, s, draws, k) == Times(pi.epsilon, Hits(pi, s, draws, k))
  {
    if k > 0 {
      BonusCountsHits(pi, s, draws, k - 1);
      var m := Hits(pi, s, draws, k - 1);
      if Hit(pi, s, draws, k - 1) == 1 {
        assert Times(pi.epsilon, m + 1) == Times(pi.epsilon, m) + pi.epsilon;
      }
    }
  }

  /** The same share `x` for every action. */
  function Uniform(x: real): nat -> real {
    (a: nat) => x
  }

  /** `k` equal shares add up to `k * x`. */
  lemma {:induction false} UniformSum(x: real, k: nat)
    ensures SumTo(Uniform(x), k) == (k as real) * x
  {
    if k > 0 {
      UniformSum(x, k - 1);
      assert ((k - 1) as real) * x + x == (k as real) * x;
    }
  }

  /** Each call's probability is the share `p/nA` plus its bonus. */
  lemma {:induction false} EpsMassPrefix(pi: EpsilonGreedy, s: nat, draws: seq<nat>, k: nat)
    requires HasRow(pi.q, s) && DrawsBelow(draws, |pi.q[s]|) && k <= |pi.q[s]|
    ensures SumTo(EpsProbs(pi, s, draws), k) == SumTo(Uniform(pi.p / (|pi.q[s]| as real)), k) + Bonus(pi, s, draws, k)
  {
    if k > 0 {
      EpsMassPrefix(pi, s, draws, k - 1);
      var u := Uniform(pi.p / (|pi.q[s]| as real));
      var f := EpsProbs(pi, s, draws);
      assert f(k - 1) == u(k - 1) + (if Hit(pi, s, draws, k - 1) == 1 then pi.epsilon else 0.0);
    }
  }

  /** As written, `action_prob` over all actions of a state adds up to `p`
      plus `epsilon` for every call whose own `action(state)` hit the
      action asked about: `p + epsilon * m` (`TimesIsProduct`), with `m`
      anything from 0 to `nA` on the exploring branch, so not 1 in
      general. */
  lemma EpsMassAsWritten(pi: EpsilonGreedy, s: nat, draws: seq<nat>)
    requires HasRow(pi.q, s) && DrawsBelow(draws, |pi.q[s]|)
    ensures SumTo(EpsProbs(pi, s, draws), |pi.q[s]|) == pi.p + Times(pi.epsilon, Hits(pi, s, draws, |pi.q[s]|))
  {
    EpsMassIsPPlusBonus(pi, s, draws);
    BonusCountsHits(pi, s, draws, |pi.q[s]|);
  }

  /** The uniform shares of all calls add up to `p`. */
  lemma EpsMassIsPPlusBonus(pi: EpsilonGreedy, s: nat, draws: seq<nat>)
    requires HasRow(pi.q, s) && DrawsBelow(draws, |pi.q[s]|)
    ensures SumTo(EpsProbs(pi, s, draws), |pi.q[s]|) == pi.p + Bonus(pi, s, draws, |pi.q[s]|)
  {
    var nA := |pi.q[s]|;
    var shares := SumTo(Uniform(pi.p / (nA as real)), nA);
    assert shares == pi.p by {
      UniformSum(pi.p / (nA as real), nA);
      SharesMakeWhole(pi.p, nA);
    }
    EpsMassPrefix(pi, s, draws, nA);
  }

  /** `nA` shares of `p / nA` give back `p`. */
  lemma SharesMakeWhole(p: real, nA: nat)
    requires nA > 0
    ensures (nA as real) * (p / (nA as real)) == p
  {
  }

  /** When every call's `action(state)` returns the same action `g`,
      exactly the call asked about `g` hits. */
  lemma {:induction false} HitsWhenCallsAgree(pi: EpsilonGreedy, s: nat, draws: seq<nat>, g: nat, k: nat)
    requires HasRow(pi.q, s) && DrawsBelow(draws, |pi.q[s]|) && k <= |draws|
    requires forall a :: 0 <= a < |draws| ==> EpsAction(pi, s, draws[a]) == g
    ensures Hits(pi, s, draws, k) == if g < k then 1 else 0
  {
    if k > 0 {
      HitsWhenCallsAgree(pi, s, draws, g, k - 1);
      assert EpsAction(pi, s, draws[k - 1]) == g;
    }
  }

  /** On the greedy branch (`p < epsilon`) every call returns the argmax,
      whatever the draws, and the probabilities add up to `epsilon + p`. */
  lemma EpsMassGreedyBranch(pi: EpsilonGreedy, s: nat, draws: seq<nat>)
    requires HasRow(pi.q, s) && DrawsBelow(draws, |pi.q[s]|) && pi.p < pi.epsilon
    ensures SumTo(EpsProbs(pi, s, draws), |pi.q[s]|) == pi.epsilon + pi.p
  {
    var g := Argmax(pi.q[s]);
    forall a | 0 <= a < |draws|
      ensures EpsAction(pi, s, draws[a]) == g
    {
      FirstArgmaxUnique(pi.q[s], g, EpsAction(pi, s, draws[a]));
    }
    HitsWhenCallsAgree(pi, s, draws, g, |pi.q[s]|);
    EpsMassAsWritten(pi, s, draws);
    assert Times(pi.epsilon, 1) == pi.epsilon;
  }

  /** A concrete policy on the greedy branch whose `action_prob` values add
      up to 1.4, whatever the draws. */
  lemma EpsMassNotOne(draws: seq<nat>)
    requires DrawsBelow(draws, 2)
    ensures var pi := EpsilonGreedy([[0.0, 0.0]], 0.9, 0.5);
            SumTo(EpsProbs(pi, 0, draws), 2) == 1.4
  {
    var pi := EpsilonGreedy([[0.0, 0.0]], 0.9, 0.5);
    EpsMassGreedyBranch(pi, 0, draws);
  }

  /** On the exploring branch the mass depends on the draws: with
      `epsilon = 0.5` and `p = 0.9`, draws that miss both asked actions
      give 0.9, and draws that hit both give 1.9. */
  lemma EpsMassDependsOnDraws()
    ensures var pi := EpsilonGreedy([[0.0, 0.0]], 0.5, 0.9);
            SumTo(EpsProbs(pi, 0, [1, 0]), 2) == 0.9 && SumTo(EpsProbs(pi, 0, [0, 1]), 2) == 1.9
  {
    var pi := EpsilonGreedy([[0.0, 0.0]], 0.5, 0.9);
    var miss, hit := [1, 0], [0, 1];
    EpsMassAsWritten(pi, 0, miss);
    EpsMassAsWritten(pi, 0, hit);
    assert Hits(pi, 0, miss, 2) == 0;
    assert Hits(pi, 0, hit, 2) == 2;
  }

  /** The mixture `action` draws from when `p` is uniform on [0, 1):
      the argmax with probability `epsilon`, otherwise a uniform action. */
  function IntendedActionProb(pi: EpsilonGreedy, s: nat, a: nat): real
    requires HasRow(pi.q, s)
  {
    var nA := |pi.q[s]| as real;
    (if Argmax(pi.q[s]) == a then pi.epsilon else 0.0) + (1.0 - pi.epsilon) / nA
  }

  /** Each per-decision probability lies in [0, 1]; the argmax action gets
      `epsilon` on top of the uniform share `(1 - epsilon)/nA`. */
  lemma IntendedProbIsProbability(pi: EpsilonGreedy, s: nat, a: nat)
    requires HasRow(pi.q, s) && 0.0 <= pi.epsilon <= 1.0
    ensures 0.0 <= IntendedActionProb(pi, s, a) <= 1.0
    ensures IsFirstArgmax(pi.q[s], a) ==> IntendedActionProb(pi, s, a) == pi.epsilon + (1.0 - pi.epsilon) / (|pi.q[s]| as real)
    ensures !IsFirstArgmax(pi.q[s], a) ==> IntendedActionProb(pi, s, a) == (1.0 - pi.epsilon) / (|pi.q[s]| as real)
  {
    FirstArgmaxUnique(pi.q[s], Argmax(pi.q[s]), a);
    var n := |pi.q[s]| as real;
    var y := 1.0 - pi.epsilon;
    ShareAtMostWhole(y, n);
  }

  /** Dividing a non-negative amount among at least one action gives each
      a share between 0 and the whole. */
  lemma ShareAtMostWhole(y: real, n: real)
    requires 0.0 <= y && 1.0 <= n
    ensures 0.0 <= y / n <= y
  {
    var share := y / n;
    assert share * n == y;
    assert share * 1.0 <= share * n;
  }

  function IntendedProbs(pi: EpsilonGreedy, s: nat): nat -> real
    requires HasRow(pi.q, s)
  {
    (a: nat) => IntendedActionProb(pi, s, a)
  }

  lemma {:induction false} IntendedMassPrefix(pi: EpsilonGreedy, s: nat, k: nat)
    requires HasRow(pi.q, s) && k <= |pi.q[s]|
    ensures SumTo(IntendedProbs(pi, s), k)
         == (k as real) * ((1.0 - pi.epsilon) / (|pi.q[s]| as real))
          + (if Argmax(pi.q[s]) < k then pi.epsilon else 0.0)
  {
    if k > 0 {
      IntendedMassPrefix(pi, s, k - 1);
      var f := IntendedProbs(pi, s);
      var x := (1.0 - pi.epsilon) / (|pi.q[s]| as real);
      var g := Argmax(pi.q[s]);
      var bonus := if g == k - 1 then pi.epsilon else 0.0;
      var before := if g < k - 1 then pi.epsilon else 0.0;
      assert f(k - 1) == bonus + x;
      assert SumTo(f, k) == SumTo(f, k - 1) + f(k - 1);
      OneMoreShare(k, x, before, bonus);
    }
  }

  /** The per-decision mixture is a probability distribution over actions. */
  lemma IntendedMassIsOne(pi: EpsilonGreedy, s: nat)
    requires HasRow(pi.q, s)
    ensures SumTo(IntendedProbs(pi, s), |pi.q[s]|) == 1.0
  {
    IntendedMassPrefix(pi, s, |pi.q[s]|);
    var n := |pi.q[s]| as real;
    var y := 1.0 - pi.epsilon;
    assert n * (y / n) == y;
  }
}
