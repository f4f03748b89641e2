/**
 Shared vocabulary of the two tabular learners: transitions, trajectories,
 value tables, the discount power, first-index argmax, single-entry table
 writes, the constant-fill table initialiser and the per-episode reward sum.
 */
module Tables {

  /** One logged step `(s_t, a_t, r_{t+1}, s_{t+1})` of an episode. */
  datatype Transition = Transition(state: nat, action: nat, reward: real, nextState: nat)

  type Trajectory = seq<Transition>

  /** State-value table `V[s]`. */
  type VTable = seq<real>

  /** Action-value table `Q[s][a]`, dense over states x actions. */
  type QTable = seq<seq<real>>

  function Min(a: int, b: int): int {
    if a <= b then a else b
  }

  /** `max(0, x)` */
  function Max0(x: int): nat {
    if x >= 0 then x else 0
  }

  /** `x^k` by repeated multiplication, standing in for `np.power(x, k)`. */
  function Pow(x: real, k: nat): real {
    if k == 0 then 1.0 else x * Pow(x, k - 1)
  }

  /** `x + step * (target - x)`: the incremental update `x += step * (target - x)`
      every learner here applies to one table entry. */
  function Toward(x: real, target: real, step: real): real {
    x + step * (target - x)
  }

  /** The list `[lo, lo+1, ..., hi-1]` (empty when `hi <= lo`). */
  function Range(lo: nat, hi: nat): (r: seq<nat>)
    ensures |r| == Max0(hi - lo)
    ensures forall i :: 0 <= i < |r| ==> r[i] == lo + i
    decreases hi - lo
  {
    if hi <= lo then [] else [lo] + Range(lo + 1, hi)
  }

  /** `k` is the index `np.argmax` reports: a maximal entry with no
      maximal entry before it. */
  predicate IsFirstArgmax(row: seq<real>, k: nat) {
    && k < |row|
    && (forall j :: 0 <= j < |row| ==> row[j] <= row[k])
    && (forall j :: 0 <= j < k ==> row[j] < row[k])
  }

  /** First-index argmax of a non-empty row (numpy's tie-breaking). */
  function Argmax(row: seq<real>): (k: nat)
    requires |row| > 0
    ensures IsFirstArgmax(row, k)
    decreases |row|
  {
    if |row| == 1 then 0
    else
      var front := row[..|row| - 1];
      var k := Argmax(front);
      assert forall j :: 0 <= j < |front| ==> front[j] == row[j];
      if row[|row| - 1] > row[k] then |row| - 1 else k
  }

  /** There is exactly one first-index argmax, so `Argmax` is the only
      answer consistent with numpy's tie-breaking. */
  lemma FirstArgmaxUnique(row: seq<real>, k1: nat, k2: nat)
    requires IsFirstArgmax(row, k1)
    ensures IsFirstArgmax(row, k2) <==> k1 == k2
  {
    if IsFirstArgmax(row, k2) {
      // both entries are maximal, so neither lies strictly below the other
      assert row[k1] == row[k2];
    }
  }

  /** The largest entry of a non-empty row. */
  function Max(row: seq<real>): (m: real)
    requires |row| > 0
    ensures forall j :: 0 <= j < |row| ==> row[j] <= m
    ensures exists j :: 0 <= j < |row| && row[j] == m
  {
    row[Argmax(row)]
  }

  /** `q` is an `nS x nA` table. */
  predicate Shaped(q: QTable, nS: nat, nA: nat) {
    |q| == nS && forall s :: 0 <= s < |q| ==> |q[s]| == nA
  }

  /** `Q[s, a] = v`, leaving every other entry as it was. */
  function Set2(q: QTable, s: nat, a: nat, v: real): (r: QTable)
    requires s < |q| && a < |q[s]|
    ensures |r| == |q|
    ensures forall i :: 0 <= i < |q| ==> |r[i]| == |q[i]|
    ensures r[s][a] == v
    ensures forall i, j :: 0 <= i < |q| && 0 <= j < |q[i]| && (i != s || j != a) ==> r[i][j] == q[i][j]
  {
    q[s := q[s][a := v]]
  }

  /** Two tables of the same shape that agree on every entry are equal. */
  lemma EntrywiseEqual(r: QTable, q: QTable, nS: nat, nA: nat)
    requires Shaped(r, nS, nA) && Shaped(q, nS, nA)
    requires forall s, a :: 0 <= s < nS && 0 <= a < nA ==> r[s][a] == q[s][a]
    ensures r == q
  {
    forall s | 0 <= s < nS
      ensures r[s] == q[s]
    {
      assert forall a :: 0 <= a < nA ==> r[s][a] == q[s][a];
    }
  }

  /** The deterministic fill modes of `init_q`. */
  datatype Fill = Zeros | Ones

  function FillValue(fill: Fill): real {
    match fill
    case Zeros => 0.0
    case Ones => 1.0
  }

  /** `init_q(s, a, type)` for `type` in {"zeros", "ones"}: an `nS x nA`
      table holding the fill value everywhere. */
  function InitQ(nS: nat, nA: nat, fill: Fill): (q: QTable)
    ensures Shaped(q, nS, nA)
    ensures forall s, a :: 0 <= s < nS && 0 <= a < nA ==> q[s][a] == FillValue(fill)
  {
    seq(nS, _ => seq(nA, _ => FillValue(fill)))
  }

  /** Reference definition of an episode's total reward `r_0 + r_1 + ...`. */
  function RewardTotal(traj: Trajectory): real
    decreases |traj|
  {
    if |traj| == 0 then 0.0 else traj[0].reward + RewardTotal(traj[1..])
  }

  /** Every transition's state and action index into an `nS x nA` table. */
  predicate InTable(traj: Trajectory, nS: nat, nA: nat) {
    forall i :: 0 <= i < |traj| ==> traj[i].state < nS && traj[i].action < nA
  }
}
