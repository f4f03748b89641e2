# Tabular n-step bootstrapping and Q-learning, modelled in Dafny

This project models the tabular reinforcement-learning core of Kratos-RL:
- `n_step_bootstrap.py`:
  - on-policy n-step TD prediction of a state-value table `V`;
  - the greedy and epsilon-greedy policies derived from an action-value table `Q`;
  - off-policy n-step SARSA with an importance-sampling ratio.
- `q_learning.py`: one-step Q-learning over logged trajectories.

Every learner replays a batch of trajectories of transitions
`(s_t, a_t, r_{t+1}, s_{t+1})`. It moves one table entry at a time towards a
target, by the step `alpha`, or `alpha * rho` in off-policy SARSA.

Modules, one file each:

| module | file | contents |
|---|---|---|
| `Tables` | `tables.dfy` | Transitions, tables, `np.power`, the first-index `np.argmax`, single-entry writes, `init_q` for the fills `zeros` and `ones`, and the per-episode reward total. |
| `Policies` | `policies.dfy` | `GreedyPolicy` and `epsilon_greedy`, with the probability each assigns to an action and the sums of those probabilities. |
| `NStepReturn` | `nstep_return.dfy` | The n-step return `G` that both n-step learners compute inline. It is related to a Monte Carlo reference definition and to the recursive form of the return. |
| `OnPolicyTd` | `onpolicy_td.dfy` | `on_policy_n_step_td` as written, and the textbook loop beside it. Both are pure folds, plus loop methods proved equal to the fold. |
| `OffPolicySarsa` | `offpolicy_sarsa.dfy` | `off_policy_n_step_sarsa`, including the ratio `rho`. The target policy reads the live table. |
| `QLearning` | `qlearning.dfy` | `epsilon_greedy` and `qlearning` of `q_learning.py`, and the learner that updates the logged pair. |

Randomness enters only as parameters:
- `p`, the number `epsilon_greedy` draws when it is constructed.
- `explore`, the actions `np.random.choice` returns inside `action_prob`.
- `Draw(u, k)`, the draws of `q_learning.epsilon_greedy`.

Numbers are exact reals, not IEEE doubles.

Where the code departs from the algorithms it implements, the model follows the code:
- **Which anchors fire.** Sutton & Barto's n-step TD (section 7.1) updates every anchor `tau` in `0 .. T-1`. The code's loop over `range(T)` only reaches `0 .. T-n` (see Findings).
- **Episodes no longer than `n`.** In the textbook loop every state of such an episode moves towards its Monte Carlo return. In the code:
  - with `n = T` only `state(0)` is updated, towards the Monte Carlo return (`MonteCarloWhenNEqualsT`);
  - with `n > T` nothing is updated at all (`NoUpdateWhenNExceedsT`).
- **The exploration draw.** A stochastic epsilon-greedy policy tosses its explore/exploit coin on every decision. The code draws `p` once, in `epsilon_greedy.__init__` (n_step_bootstrap.py:80), and reuses it for every `action` and `action_prob` call. The model keeps the frozen draw `p`. `IntendedActionProb` is the per-decision mixture.
- **Parameter checks.** The code validates none of `n`, `alpha` and `gamma`. The model requires only `n >= 1`: with `n = 0` the last iteration indexes `traj[T]` and raises `IndexError`. Any real `alpha` and `gamma` are accepted.

## Model

| member | source | states |
|---|---|---|
| Tables.InitQ | n_step_bootstrap.py:5-16 | `init_q` with fill `zeros` or `ones` gives an `nS x nA` table holding that value in every entry. |
| Tables.Argmax | n_step_bootstrap.py:74-75 | `np.argmax` of a row is a maximal entry with no maximal entry before it (numpy's first-index tie-breaking). |
| Tables.FirstArgmaxUnique | n_step_bootstrap.py:75 | Exactly one index satisfies numpy's first-index argmax, so every argmax in the source picks the same action. |
| Tables.Max | q_learning.py:71-72 | `Q[s_, argmax Q[s_, :]]` is at least every entry of the row and equal to one of them. |
| Policies.GreedyAction | n_step_bootstrap.py:74-75 | `GreedyPolicy.action` returns the first-index argmax of `Q[state, :]`. |
| Policies.GreedyActionProb | n_step_bootstrap.py:68-72 | `action_prob` is 1 exactly for the greedy action and 0 exactly for every other action. |
| Policies.GreedyProbSumsToOne | n_step_bootstrap.py:68-75 | The greedy probabilities over all actions sum to 1. |
| Policies.EpsAction | n_step_bootstrap.py:91-97 | `epsilon_greedy.action`: the greedy action when the frozen draw `p < epsilon`, otherwise the uniform draw, always an action id. |
| Policies.EpsActionProb | n_step_bootstrap.py:84-89 | As written, `action_prob` gives `epsilon + p/nA` to the action `action(state)` returns and `p/nA` to every other action. |
| Policies.EpsilonGap | n_step_bootstrap.py:84-89 | The action `action` returns, greedy or drawn, gets exactly `epsilon` more than any other action. Every other action gets `p / nA`. |
| Policies.EpsMassAsWritten | n_step_bootstrap.py:84-97 | As written, each `action_prob` call re-runs `action(state)`. The values over all actions sum to `p + epsilon * m`, where `m` counts the calls whose own `action(state)` returned the action they were asked about. |
| Policies.HitsWhenCallsAgree | n_step_bootstrap.py:84-86 | When every call's `action(state)` returns the same action, exactly one call collects the `epsilon` bonus. |
| Policies.EpsMassGreedyBranch | n_step_bootstrap.py:84-95 | On the greedy branch `p < epsilon`, every call returns the argmax whatever the draws, and the values sum to `epsilon + p`. |
| Policies.EpsMassNotOne | n_step_bootstrap.py:84-95 | A concrete policy (`epsilon = 0.9`, `p = 0.5`, two actions) whose probabilities sum to 1.4, whatever the draws. |
| Policies.EpsMassDependsOnDraws | n_step_bootstrap.py:84-97 | On the exploring branch (`epsilon = 0.5`, `p = 0.9`, two actions) the sum depends on the draws: 0.9 when no call hits the action it was asked about, 1.9 when both do. |
| Policies.IntendedProbIsProbability | n_step_bootstrap.py:84-89 | The per-decision mixture `epsilon * [greedy] + (1 - epsilon) / nA` lies in `[0, 1]` for `0 <= epsilon <= 1`. The greedy action gets `epsilon + (1-epsilon)/nA` and every other action gets `(1-epsilon)/nA`. |
| Policies.IntendedMassIsOne | n_step_bootstrap.py:84-89 | The per-decision mixture sums to 1 over all actions. |
| NStepReturn.Discounted | n_step_bootstrap.py:55-56 | The loop sum `sum_{i = tau}^{hi - 1} gamma^(i - tau) r_i`, accumulated in index order. |
| NStepReturn.Return | n_step_bootstrap.py:53-58 | The n-step return: the discounted rewards `tau .. min(tau+n, T) - 1`, plus `gamma^n` times the bootstrap value only when `tau + n < T`. |
| NStepReturn.DiscountedPeel | n_step_bootstrap.py:55-56 | The forward sum `sum gamma^(i-tau) r_i` equals `r_tau + gamma * (the same sum from tau + 1)`. |
| NStepReturn.DiscountedToEndIsMonteCarlo | n_step_bootstrap.py:55-56 | Summed to the end of the episode, the loop's sum is the Monte Carlo return of the tail. |
| NStepReturn.ReturnPastEndIsMonteCarlo | n_step_bootstrap.py:53-58 | When `tau + n >= T`, no bootstrap value is read, whatever the table holds, and `G` is the Monte Carlo return from `tau`. |
| NStepReturn.ReturnWithExactBootIsMonteCarlo | n_step_bootstrap.py:53-58 | When `tau + n < T` and the bootstrap value is the exact Monte Carlo return from `tau + n`, `G` is the Monte Carlo return from `tau`: the n-step return is the Monte Carlo return with its tail replaced by the bootstrap value. |
| NStepReturn.ReturnRecursion | n_step_bootstrap.py:53-58 | For `n >= 2`, `G_{tau:tau+n} = r_tau + gamma * G_{tau+1:tau+n}`, both bootstrapping from index `tau + n`. |
| NStepReturn.ReturnOneStep | n_step_bootstrap.py:53-58 | With `n = 1`, `G` is `r + gamma * boot` inside the episode and the bare last reward at its end. |
| NStepReturn.ComputeReturnV | n_step_bootstrap.py:53-58 | The two loops of the on-policy learner compute the n-step return. They compute the Monte Carlo return when `tau + n >= T`. |
| OnPolicyTd.TdUpdate | n_step_bootstrap.py:59 | The update at `tau` changes only `V[state(tau)]` and keeps the table's length. |
| OnPolicyTd.TdUpdateStep | n_step_bootstrap.py:59 | The updated entry closes the fraction `alpha` of its gap to `G`. With `alpha = 1` it becomes `G`; with `alpha = 0` the table is unchanged. |
| OnPolicyTd.TdZero | n_step_bootstrap.py:51-59 | With `n = 1` on a connected episode, the update is TD(0): `V[s] += alpha (r + gamma V[s'] - V[s])`. |
| OnPolicyTd.Sweep | n_step_bootstrap.py:48-59 | The `for t in range(T)` loop of one episode from iteration `t`: anchor `t - n + 1` is updated when it is at least 0. The table length is kept. |
| OnPolicyTd.FiredAnchorsRange | n_step_bootstrap.py:48-52 | Loop iterations `t .. stop-1` fire exactly the anchors `max(0, t-n+1) .. stop-n`, in increasing order. |
| OnPolicyTd.SweepIsAnchorFold | n_step_bootstrap.py:48-59 | Iterating `t` is the same as applying the updates of the fired anchors in order. |
| OnPolicyTd.OnPolicySweepAnchors | n_step_bootstrap.py:47-59 | One episode updates exactly the anchors `0 .. T-n` (`max(0, T-n+1)` updates), in order. |
| OnPolicyTd.NoUpdateWhenNExceedsT | n_step_bootstrap.py:48-52 | An episode shorter than `n` leaves `V` unchanged. |
| OnPolicyTd.MonteCarloWhenNEqualsT | n_step_bootstrap.py:47-59 | With `n = T`, the only update moves `V[state(0)]` towards the Monte Carlo return of the whole episode. No other entry changes. |
| OnPolicyTd.SweepFrame | n_step_bootstrap.py:48-59 | An entry whose state no fired anchor visits keeps its value. |
| OnPolicyTd.TextbookSweepAnchors | n_step_bootstrap.py:48-52 | The textbook loop (`t` up to `T + n - 2`) updates every anchor `0 .. T-1`, in order. |
| OnPolicyTd.OnPolicyNStepTd | n_step_bootstrap.py:44-61 | The learner returns a table of the length of `initV`. An empty batch returns `initV` unchanged. |
| OnPolicyTd.OnPolicyNStepTdTextbook | n_step_bootstrap.py:44-61 | The textbook learner keeps the table length and returns `initV` on an empty batch. |
| OnPolicyTd.Batch | n_step_bootstrap.py:46-59 | The `for traj in trajs` loop: each episode is swept on the table the previous ones left. The table length is kept. |
| OnPolicyTd.BatchAppend | n_step_bootstrap.py:46-59 | Episodes are replayed one after another: learning on `a + b` is learning on `b` from the table learnt on `a`. |
| OnPolicyTd.ShortEpisodesLeaveTableUnchanged | n_step_bootstrap.py:46-52 | A batch whose episodes are all shorter than `n` returns `initV`. |
| OnPolicyTd.HandComputedScenario | n_step_bootstrap.py:44-61 | The episode `(0,0,1,1), (1,0,2,2), (2,0,3,2)` with `gamma = 1`, `n = 1`, `alpha = 0.5` and a zero table gives `[0.5, 1, 1.5]`. |
| OnPolicyTd.TailAnchorSkipped | n_step_bootstrap.py:48-52 | On a one-step episode with `n = 2`, the code leaves `V = [0]`. The textbook loop gives `[1]`. |
| OnPolicyTd.SweepLoop | n_step_bootstrap.py:47-59 | The source's inner loop over `t`, with the return loops, computes the episode fold. |
| OnPolicyTd.OnPolicyNStepTdLoops | n_step_bootstrap.py:44-61 | The source's nested loops compute `OnPolicyNStepTd`. |
| OffPolicySarsa.RhoUpTo | n_step_bootstrap.py:142-145 | `rho` after the loop over `i = tau + 1 .. hi - 1`: the product, in order, of `pi.action_prob / bpi.action_prob` at the logged pairs. |
| OffPolicySarsa.Rho | n_step_bootstrap.py:142-145 | The importance ratio of anchor `tau`, over the window `tau + 1 .. min(tau + n, T) - 1`. |
| OffPolicySarsa.RhoEmptyWindow | n_step_bootstrap.py:142-145 | With `n = 1`, or at the last anchor, the ratio window is empty and `rho = 1`. |
| OffPolicySarsa.RhoAgree | n_step_bootstrap.py:142-145 | When target and behaviour probabilities agree on every logged action of the window, `rho = 1`. |
| OffPolicySarsa.RhoPositive | n_step_bootstrap.py:142-145 | With `p > 0` and `epsilon >= 0`, every factor is positive and so is `rho`. |
| OffPolicySarsa.SarsaUpdate | n_step_bootstrap.py:152 | The update at `tau` changes only `Q[state(tau), action(tau)]` and keeps the table `nS x nA`. |
| OffPolicySarsa.SarsaUpdateStep | n_step_bootstrap.py:146-152 | The logged entry closes the fraction `alpha * rho` of its gap to the n-step return `G`. When `alpha * rho = 0` the table is unchanged. |
| OffPolicySarsa.SarsaOneStep | n_step_bootstrap.py:146-152 | With `n = 1`, the update is one-step SARSA towards `r + gamma Q[s', a']` with step `alpha`. |
| OffPolicySarsa.SarsaUpdateOnPolicy | n_step_bootstrap.py:142-152 | When target and behaviour agree on the window, the update moves the logged entry the step `alpha` towards the n-step return (on-policy n-step SARSA). |
| OffPolicySarsa.SweepStep | n_step_bootstrap.py:138-152 | Iteration `t` of the episode loop: the update at anchor `t - n + 1` when it is at least 0, otherwise no change. The episode stays ready for the next iteration. |
| OffPolicySarsa.SarsaSweep | n_step_bootstrap.py:136-154 | An episode keeps the table `nS x nA` and adds its rewards, in order, to the running total. |
| OffPolicySarsa.SweepUnchangedWhenShort | n_step_bootstrap.py:138-141 | An episode shorter than `n` leaves `Q` unchanged. |
| OffPolicySarsa.SweepFrame | n_step_bootstrap.py:138-152 | A pair logged at no anchor `0 .. T-n` keeps its value. |
| OffPolicySarsa.SarsaBatch | n_step_bootstrap.py:135-154 | `timestep_reward` grows by one entry per episode: that episode's total reward. Entries already present are kept. |
| OffPolicySarsa.OffPolicyNStepSarsa | n_step_bootstrap.py:130-159 | Returns an `nS x nA` table and one reward total per episode, in order. The policy returned is epsilon-greedy over the final table. An empty batch gives the zero table. |
| QLearning.EpsilonGreedyChoice | q_learning.py:25-42 | `epsilon_greedy` returns the first-index argmax when training or when `u < epsilon`, otherwise the uniform draw `k`. |
| QLearning.QStep | q_learning.py:65-73 | One transition moves `Q[s, a]` of the carried pair towards `r + gamma max Q[s_, :]` and changes nothing else. It then carries `s_` and the argmax action of the table before the update. |
| QLearning.QRun | q_learning.py:65-73 | After `t` transitions, the carried pair indexes the table and the running total is the sum of the first `t` rewards. |
| QLearning.CarryAfterStep | q_learning.py:68-73 | After transition `t`, the carried state is `next_state(t)` and the carried action is greedy there. |
| QLearning.NextUpdateUsesCarry | q_learning.py:68-73 | Transition `t + 1` writes the carried pair `(next_state(t), a_)`, whatever pair is logged at `t + 1`, and nothing else. |
| QLearning.QBatch | q_learning.py:59-75 | Each episode appends its total reward to `timestep_reward` and keeps the table `nS x nA`. |
| QLearning.QLearningRun | q_learning.py:45-77 | `qlearning` returns an `nS x nA` table and one reward total per episode. An empty batch gives the zero table. |
| QLearning.LoggedStep | q_learning.py:72 | The corrected update moves the logged pair `Q[state(t), action(t)]` towards `r + gamma max Q[next_state(t), :]` and nothing else. |
| QLearning.LoggedRun | q_learning.py:65-73 | The corrected learner over the first `t` transitions: each applies its own logged update. The table stays `nS x nA`. |
| QLearning.LoggedRunTouchesLoggedPair | q_learning.py:65-73 | In the corrected learner, transition `t` writes exactly its own logged pair. |
| QLearning.LoggedActionIgnored | q_learning.py:60-73 | On the episode `(0, 1, 1, 0)` the code credits action 0 and leaves the logged action 1 at 0. |
| QLearning.FirstStepOnZeros | q_learning.py:65-73 | On that episode, starting from the carried pair `(0, 0)`, the code's one update sets `Q[0, 0]` to the reward 1 and leaves `Q[0, 1]` at 0. |
| QLearning.LoggedActionCredited | q_learning.py:68-72 | On the same episode, the corrected learner credits the logged action 1. |

## Left out

- `init_q` with `type="random"` (`np.random.random`) and with an unknown type (which returns `None`). The learners only ever use `zeros` (n_step_bootstrap.py:130, q_learning.py:56). `ones`, the default fill, is modelled too.
- Default arguments: `type="ones"` of `init_q`, `epsilon=0.9` of `off_policy_n_step_sarsa` and `train=False` of `epsilon_greedy`. The model takes every argument explicitly, in `Fill`, `Params.epsilon` and the `train` flag.
- Floating point: every quantity is an exact real. IEEE rounding and overflow are not modelled.
- OnPolicyTd.OnPolicyNStepTd: `V` is a table of reals. With an integer-dtype `initV`, the in-place `V[...] += ...` at n_step_bootstrap.py:59 would truncate every update to an integer. That case is not modelled.
- OnPolicyTd.OnPolicyNStepTd: requires every state id of every episode to index `V`. This is stronger than the source, which reads `V` only at the anchors `0 .. T-n` and their bootstrap indices, and reads nothing of an episode shorter than `n`. Out-of-range ids at the positions the source reads raise `IndexError` there.
- Negative ids: numpy would wrap a negative state or action index. Ids are `nat`, so the model has none.
- QLearning.QLearningRun: requires every `next_state` and the first state of each episode to be inside the table, and the first-action draw to be below `nA`. These are exactly the ids the source indexes `Q` with; out of range it raises `IndexError`. Empty trajectories are excluded too, since `traj[0][0]` raises `IndexError` in the source.
- OffPolicySarsa.OffPolicyNStepSarsa:
  - It requires every logged state and action of every episode to be inside the table. This is stronger than the source needs. The source indexes `Q` only at anchor pairs and bootstrap pairs. A window action is only compared with `target_action` inside `action_prob` (n_step_bootstrap.py:86, 145). An episode shorter than `n` is read only for its rewards.
  - It requires `bpi` to be positive at every logged pair `1 .. T-1` when `n >= 2` and `T >= n`. This is the union of the windows the ratio divides over. A zero there makes the source divide by zero.
  - For `nA = 0` the exploring draws are unconstrained, because `np.random.choice(0)` raises.
- The generic policy objects: `bpi.action_prob` is modelled as a function of state and action, and the target policy as the epsilon-greedy policy the source constructs. Dynamic dispatch over arbitrary policy classes is not modelled.
- Aliasing: `on_policy_n_step_td` mutates the caller's `initV` in place (`V = initV`). The model returns a new table, so the caller's copy is unchanged.
- Random draws:
  - `np.random.rand` in `epsilon_greedy.__init__` and in `q_learning.epsilon_greedy`, `np.random.choice` and `np.random.randint` are parameters of the model.
  - Their distributions are not modelled.
- `pandas` and `time`: imported by `q_learning.py` and never used.
- Policies.IntendedActionProb: this corrected mixture is used for the proofs of `IntendedProbIsProbability` and `IntendedMassIsOne` only. The off-policy learner keeps the as-written `action_prob`, as the source computes it.
- QLearning.NextUpdateUsesCarry: states which entry changes and leaves the new value to the contract of `QLearning.QStep`.

## Findings

| source | as written | input that shows it | evidently intended | confidence | as-written member | corrected member |
|---|---|---|---|---|---|---|
| n_step_bootstrap.py:48-52 | `t` runs over `range(T)` and the anchor is `tau = t - n + 1`, so only anchors `0 .. T-n` are updated. The last `n - 1` states of every episode never move. | One episode `[(0, 0, 1, 0)]`, `n = 2`, `alpha = 1`, `gamma = 1`, `V = [0]`: `V` stays `[0]`. | Let `t` run to `T + n - 2`, so that every anchor `0 .. T-1` is updated (n-step TD, section 7.1 of Sutton & Barto). This gives `V = [1]`. | high; not executed | OnPolicyTd.TailAnchorSkipped | OnPolicyTd.TextbookSweepAnchors |
| n_step_bootstrap.py:84-97 | `action_prob` returns `epsilon + p/nA` when the `action(state)` it runs returns the action asked about, and `p/nA` otherwise, with `p` the draw frozen at construction. On the greedy branch `p < epsilon` the probabilities sum to `epsilon + p` (`EpsMassGreedyBranch`). When `p >= epsilon`, each call draws afresh (line 96), and the sum is `p + epsilon * m` for `m` calls that hit (`EpsMassAsWritten`). | `Q = [[0, 0]]`, `epsilon = 0.9`, `p = 0.5`: `1.15 + 0.25 = 1.4`. | The mixture `epsilon * [a greedy] + (1 - epsilon)/nA`, which sums to 1. | medium; not executed | Policies.EpsMassNotOne | Policies.IntendedMassIsOne |
| q_learning.py:60-73 | The update writes the carried pair `(s, a)`: the first epsilon-greedy action, then greedy actions at `next_state`. The logged action of every transition and the logged state of every transition after the first are never read. | Episode `[(0, 1, 1, 0)]`, one state, two actions, `alpha = 1`, `gamma = 0`, exploiting first draw: `Q = [[1, 0]]`, and the logged action 1 gets nothing. | Update the logged pair `Q[state(t), action(t)]` towards `r + gamma max Q[next_state(t), :]`. This gives `Q = [[0, 1]]`. | medium; not executed | QLearning.LoggedActionIgnored | QLearning.LoggedRunTouchesLoggedPair |
