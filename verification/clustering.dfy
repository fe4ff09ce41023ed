/** The chaining loop of the student entity-resolution engine
    (`gerer_code_etudiant_et_consolider`, step 4): every row starts in its own
    group, labelled `index + 1`, and each candidate key in turn moves the rows
    sharing a key value to the smallest label among them. Only the weak key
    `np_composante_mention` is guarded by the strong-identity check. Rounds
    repeat until one makes no merge. */
module Clustering {
  import opened Wrappers
  import opened Tables
  import opened StudentKeys

  /** One key column: the candidate key of every row (missing or present). */
  type KeyColumn = seq<Option<string>>

  // ---------------------------------------------------------------------------
  // Canonical labels

  /** The canonical label of row `i` for this key (`transform('min')`). */
  function Canon(key: KeyColumn, ids: seq<nat>, i: nat): nat
    requires |key| == |ids| && i < |key| && key[i].Some?
  {
    GroupMin(key, ids, key[i], |key|).GetOr(ids[i])
  }

  /** The canonical label of row `i` is the smallest label of any row sharing
      its key value: a label some row of the key group carries, and no larger
      than the row's own. */
  lemma CanonIsGroupMinimum(key: KeyColumn, ids: seq<nat>, i: nat)
    requires |key| == |ids| && i < |key| && key[i].Some?
    ensures Canon(key, ids, i) <= ids[i]
    ensures exists j :: 0 <= j < |key| && key[j] == key[i] && ids[j] == Canon(key, ids, i)
    ensures forall j :: 0 <= j < |key| && key[j] == key[i] ==> Canon(key, ids, i) <= ids[j]
  {
    GroupMinIsMinimum(key, ids, key[i], |key|);
  }

  /** Computes the canonical label of every row with a present key in one
      pass over the rows; rows without a key keep their own label. */
  method GroupMinima(key: KeyColumn, ids: seq<nat>) returns (canon: seq<nat>)
    requires |key| == |ids|
    ensures |canon| == |ids|
    ensures forall i :: 0 <= i < |ids| && key[i].Some? ==> canon[i] == Canon(key, ids, i)
    ensures forall i :: 0 <= i < |ids| && key[i].None? ==> canon[i] == ids[i]
  {
    var m: map<string, nat> := map[];
    var i := 0;
    while i < |key|
      invariant 0 <= i <= |key|
      invariant forall v :: v in m <==> GroupMin(key, ids, Some(v), i).Some?
      invariant forall v :: v in m ==> m[v] == GroupMin(key, ids, Some(v), i).value
    {
      if key[i].Some? {
        var v := key[i].value;
        if v !in m || ids[i] < m[v] {
          m := m[v := ids[i]];
        }
      }
      i := i + 1;
    }
    canon := [];
    var j := 0;
    while j < |key|
      invariant 0 <= j <= |key| && |canon| == j
      invariant forall k :: 0 <= k < j && key[k].Some? ==> canon[k] == Canon(key, ids, k)
      invariant forall k :: 0 <= k < j && key[k].None? ==> canon[k] == ids[k]
    {
      if key[j].Some? {
        GroupMinIsMinimum(key, ids, key[j], |key|);
        canon := canon + [m[key[j].value]];
      } else {
        canon := canon + [ids[j]];
      }
      j := j + 1;
    }
  }

  // ---------------------------------------------------------------------------
  // Proposals and the weak-key guard

  /** Row `i` holds a present key and a label larger than its group's
      minimum, so the key proposes to relabel it. */
  predicate Proposes(key: KeyColumn, ids: seq<nat>, i: nat)
    requires |key| == |ids| && i < |key|
  {
    key[i].Some? && Canon(key, ids, i) < ids[i]
  }

  /** The rows labelled `c` or `t` (`indices_courant.union(indices_cible)`). */
  function MembersOf(ids: seq<nat>, c: nat, t: nat, n: nat): (idx: seq<nat>)
    requires n <= |ids|
    ensures forall k :: 0 <= k < |idx| ==> idx[k] < n
    ensures forall j :: 0 <= j < n ==> (j in idx <==> ids[j] == c || ids[j] == t)
  {
    if n == 0 then []
    else MembersOf(ids, c, t, n - 1) + (if ids[n - 1] == c || ids[n - 1] == t then [n - 1] else [])
  }

  /** Merging the groups labelled `c` and `t` raises no strong contradiction
      on `cin` or `naissance_date`. */
  predicate PairOk(rows: seq<Row>, ids: seq<nat>, c: nat, t: nat)
    requires |ids| == |rows|
  {
    !StrongContradiction(rows, MembersOf(ids, c, t, |ids|), StrongColumns)
  }

  /** Target label `t` is validated: some proposal into `t` comes from a group
      that can merge with `t` without contradiction. Validity is recorded per
      target, so it then admits every proposal into `t`. */
  predicate ValidTarget(rows: seq<Row>, key: KeyColumn, ids: seq<nat>, t: nat)
    requires |key| == |ids| == |rows|
  {
    exists j :: 0 <= j < |key| && Proposes(key, ids, j) && Canon(key, ids, j) == t && PairOk(rows, ids, ids[j], t)
  }

  /** The proposal of row `i` is carried out: unguarded keys accept every
      proposal, the weak key only those into a validated target. */
  predicate Accepted(rows: seq<Row>, key: KeyColumn, ids: seq<nat>, weak: bool, i: nat)
    requires |key| == |ids| == |rows| && i < |key|
  {
    Proposes(key, ids, i) && (weak ==> ValidTarget(rows, key, ids, Canon(key, ids, i)))
  }

  /** The labels after one key step: accepted rows take their canonical
      label, all computed from the labels before the step. */
  function StepResult(rows: seq<Row>, key: KeyColumn, ids: seq<nat>, weak: bool): (next: seq<nat>)
    requires |key| == |ids| == |rows|
    ensures |next| == |ids|
    ensures forall i :: 0 <= i < |ids| ==> next[i] <= ids[i]
    ensures forall i :: 0 <= i < |ids| ==> (next[i] < ids[i] <==> Accepted(rows, key, ids, weak, i))
  {
    seq(|ids|, i requires 0 <= i < |ids| =>
      if Accepted(rows, key, ids, weak, i) then Canon(key, ids, i) else ids[i])
  }

  /** The key proposes nothing that it would carry out. */
  predicate Settled(rows: seq<Row>, key: KeyColumn, ids: seq<nat>, weak: bool)
    requires |key| == |ids| == |rows|
  {
    forall i :: 0 <= i < |key| ==> !Accepted(rows, key, ids, weak, i)
  }

  /** Rows sharing a present key value share a label. */
  predicate ClosedUnder(key: KeyColumn, ids: seq<nat>)
    requires |key| == |ids|
  {
    forall i, j :: 0 <= i < |key| && 0 <= j < |key| && key[i].Some? && key[i] == key[j] ==> ids[i] == ids[j]
  }

  /** For an unguarded key, having nothing left to carry out is the same as
      every key group carrying a single label. */
  lemma SettledIffClosed(rows: seq<Row>, key: KeyColumn, ids: seq<nat>)
    requires |key| == |ids| == |rows|
    ensures Settled(rows, key, ids, false) <==> ClosedUnder(key, ids)
  {
    if Settled(rows, key, ids, false) {
      forall i, j | 0 <= i < |key| && 0 <= j < |key| && key[i].Some? && key[i] == key[j]
        ensures ids[i] == ids[j]
      {
        assert !Accepted(rows, key, ids, false, i) && !Accepted(rows, key, ids, false, j);
        CanonIsGroupMinimum(key, ids, i);
        CanonIsGroupMinimum(key, ids, j);
      }
    }
    if ClosedUnder(key, ids) {
      forall i | 0 <= i < |key| ensures !Accepted(rows, key, ids, false, i) {
        if key[i].Some? {
          CanonIsGroupMinimum(key, ids, i);
          var j :| 0 <= j < |key| && key[j] == key[i] && ids[j] == Canon(key, ids, i);
        }
      }
    }
  }

  /** When the weak key is settled, two rows that share its value yet carry
      different labels are kept apart by a strong contradiction: some row of
      that key group proposes into the group's minimum and its group cannot
      merge with the target group. More generally, no proposal into any
      target is left whose pair could merge. */
  lemma WeakSeparationJustified(rows: seq<Row>, key: KeyColumn, ids: seq<nat>, i: nat, j: nat)
    requires |key| == |ids| == |rows| && i < |key| && j < |key|
    requires Settled(rows, key, ids, true)
    requires key[i].Some? && key[i] == key[j] && ids[i] != ids[j]
    ensures exists r :: (0 <= r < |key| && key[r] == key[i] && Proposes(key, ids, r)
                         && !PairOk(rows, ids, ids[r], Canon(key, ids, r)))
    ensures forall r, s ::
      (0 <= r < |key| && 0 <= s < |key| && Proposes(key, ids, r) && Proposes(key, ids, s)
       && Canon(key, ids, r) == Canon(key, ids, s)) ==> !PairOk(rows, ids, ids[s], Canon(key, ids, r))
  {
    var c := Canon(key, ids, i);
    CanonIsGroupMinimum(key, ids, i);
    CanonIsGroupMinimum(key, ids, j);
    var r := if c < ids[i] then i else j;
    assert Proposes(key, ids, r);
    assert !Accepted(rows, key, ids, true, r);
    forall r, s | 0 <= r < |key| && 0 <= s < |key| && Proposes(key, ids, r) && Proposes(key, ids, s)
      && Canon(key, ids, r) == Canon(key, ids, s)
      ensures !PairOk(rows, ids, ids[s], Canon(key, ids, r))
    {
      assert !Accepted(rows, key, ids, true, s);
    }
  }

  // ---------------------------------------------------------------------------
  // One key step, one round, and the loop

  /** Some of the first `n` rows proposes into `t` from a group that can
      merge with `t`: `ValidTarget` accumulated row by row. */
  predicate ValidUpTo(rows: seq<Row>, key: KeyColumn, ids: seq<nat>, t: nat, n: nat)
    requires |key| == |ids| == |rows| && n <= |key|
  {
    n > 0 && (ValidUpTo(rows, key, ids, t, n - 1)
              || (Proposes(key, ids, n - 1) && Canon(key, ids, n - 1) == t && PairOk(rows, ids, ids[n - 1], t)))
  }

  lemma {:induction false} ValidUpToIff(rows: seq<Row>, key: KeyColumn, ids: seq<nat>, t: nat, n: nat)
    requires |key| == |ids| == |rows| && n <= |key|
    ensures ValidUpTo(rows, key, ids, t, n) <==>
      exists j :: (0 <= j < n && Proposes(key, ids, j) && Canon(key, ids, j) == t && PairOk(rows, ids, ids[j], t))
  {
    if n > 0 {
      ValidUpToIff(rows, key, ids, t, n - 1);
      var last := Proposes(key, ids, n - 1) && Canon(key, ids, n - 1) == t && PairOk(rows, ids, ids[n - 1], t);
      if last {
        assert 0 <= n - 1 < n;
      }
      if exists j :: (0 <= j < n && Proposes(key, ids, j) && Canon(key, ids, j) == t && PairOk(rows, ids, ids[j], t)) {
        var j :| 0 <= j < n && Proposes(key, ids, j) && Canon(key, ids, j) == t && PairOk(rows, ids, ids[j], t);
        if j < n - 1 {
          assert ValidUpTo(rows, key, ids, t, n - 1);
        }
      }
    }
  }

  /** Validated targets, as the source computes them: one strong check per
      distinct (current label, target label) pair. */
  method ValidTargets(rows: seq<Row>, key: KeyColumn, ids: seq<nat>, canon: seq<nat>) returns (valid: set<nat>)
    requires |key| == |ids| == |rows| == |canon|
    requires forall i :: 0 <= i < |ids| && key[i].Some? ==> canon[i] == Canon(key, ids, i)
    ensures forall t :: t in valid <==> ValidTarget(rows, key, ids, t)
  {
    valid := {};
    var tested: set<(nat, nat)> := {};
    var i := 0;
    while i < |key|
      invariant 0 <= i <= |key|
      invariant forall t :: t in valid <==> ValidUpTo(rows, key, ids, t, i)
      invariant forall c, t :: (c, t) in tested && PairOk(rows, ids, c, t) ==> t in valid
    {
      if key[i].Some? && canon[i] < ids[i] && (ids[i], canon[i]) !in tested {
        tested := tested + {(ids[i], canon[i])};
        if !StrongContradiction(rows, MembersOf(ids, ids[i], canon[i], |ids|), StrongColumns) {
          valid := valid + {canon[i]};
        }
      }
      i := i + 1;
    }
    forall t ensures t in valid <==> ValidTarget(rows, key, ids, t) {
      ValidUpToIff(rows, key, ids, t, |key|);
    }
  }

  /** `df.loc[indices, 'id_temporaire'] = values`: the rows the mask selects
      take their new label, the others keep theirs, and the selected rows are
      counted. */
  method ApplyMask(ids: seq<nat>, canon: seq<nat>, mask: seq<bool>) returns (next: seq<nat>, merges: nat)
    requires |canon| == |ids| == |mask|
    ensures |next| == |ids| && merges <= |ids|
    ensures forall i :: 0 <= i < |ids| ==> next[i] == (if mask[i] then canon[i] else ids[i])
    ensures merges == 0 <==> forall i :: 0 <= i < |ids| ==> !mask[i]
  {
    next := [];
    merges := 0;
    var i := 0;
    while i < |ids|
      invariant 0 <= i <= |ids| && |next| == i && merges <= i
      invariant forall k :: 0 <= k < i ==> next[k] == (if mask[k] then canon[k] else ids[k])
      invariant merges == 0 <==> forall k :: 0 <= k < i ==> !mask[k]
    {
      next := next + [if mask[i] then canon[i] else ids[i]];
      if mask[i] {
        merges := merges + 1;
      }
      i := i + 1;
    }
  }

  /** Carries out the accepted proposals, given the canonical labels and the
      validated targets, and counts them. */
  method ApplyProposals(rows: seq<Row>, key: KeyColumn, ids: seq<nat>, weak: bool, canon: seq<nat>, valid: set<nat>)
    returns (next: seq<nat>, merges: nat)
    requires |key| == |ids| == |rows| == |canon|
    requires forall i :: 0 <= i < |ids| && key[i].Some? ==> canon[i] == Canon(key, ids, i)
    requires weak ==> forall t :: t in valid <==> ValidTarget(rows, key, ids, t)
    ensures next == StepResult(rows, key, ids, weak)
    ensures merges == 0 <==> Settled(rows, key, ids, weak)
    ensures merges <= |ids|
  {
    var mask := seq(|ids|, i requires 0 <= i < |ids| =>
      key[i].Some? && canon[i] < ids[i] && (!weak || canon[i] in valid));
    next, merges := ApplyMask(ids, canon, mask);
    ghost var spec := StepResult(rows, key, ids, weak);
    forall i | 0 <= i < |ids|
      ensures (mask[i] <==> spec[i] < ids[i]) && next[i] == spec[i]
    {
      AcceptedAt(rows, key, ids, weak, canon, valid, i);
    }
    SettledIffUnchanged(rows, key, ids, weak);
  }

  /** The test `ApplyProposals` makes on row `i` holds exactly when the step
      lowers the row's label, and the label it writes is the one `StepResult`
      prescribes. */
  lemma AcceptedAt(rows: seq<Row>, key: KeyColumn, ids: seq<nat>, weak: bool, canon: seq<nat>, valid: set<nat>, i: nat)
    requires |key| == |ids| == |rows| == |canon| && i < |ids|
    requires key[i].Some? ==> canon[i] == Canon(key, ids, i)
    requires weak ==> forall t :: t in valid <==> ValidTarget(rows, key, ids, t)
    ensures (key[i].Some? && canon[i] < ids[i] && (!weak || canon[i] in valid)) == (StepResult(rows, key, ids, weak)[i] < ids[i])
    ensures StepResult(rows, key, ids, weak)[i] ==
      (if key[i].Some? && canon[i] < ids[i] && (!weak || canon[i] in valid) then canon[i] else ids[i])
  {
    assert (key[i].Some? && canon[i] < ids[i] && (!weak || canon[i] in valid)) == Accepted(rows, key, ids, weak, i);
  }

  /** A key is settled exactly when its step changes no label. */
  lemma SettledIffUnchanged(rows: seq<Row>, key: KeyColumn, ids: seq<nat>, weak: bool)
    requires |key| == |ids| == |rows|
    ensures Settled(rows, key, ids, weak) <==> forall k :: 0 <= k < |ids| ==> StepResult(rows, key, ids, weak)[k] == ids[k]
  {
  }

  /** One key: relabels the accepted rows and counts them. */
  method KeyStep(rows: seq<Row>, key: KeyColumn, ids: seq<nat>, weak: bool) returns (next: seq<nat>, merges: nat)
    requires |key| == |ids| == |rows|
    ensures next == StepResult(rows, key, ids, weak)
    ensures merges == 0 <==> Settled(rows, key, ids, weak)
    ensures merges <= |ids|
  {
    var canon := GroupMinima(key, ids);
    var valid: set<nat> := {};
    if weak {
      valid := ValidTargets(rows, key, ids, canon);
    }
    next, merges := ApplyProposals(rows, key, ids, weak, canon, valid);
  }

  /** The sum of all labels, which every merge lowers. */
  function Sum(s: seq<nat>): nat {
    if s == [] then 0 else s[0] + Sum(s[1..])
  }

  /** Lowering labels pointwise lowers the sum, strictly if any label drops. */
  lemma {:induction false} SumMonotone(a: seq<nat>, b: seq<nat>)
    requires |a| == |b|
    requires forall i :: 0 <= i < |a| ==> a[i] <= b[i]
    ensures Sum(a) <= Sum(b)
    ensures (exists i :: 0 <= i < |a| && a[i] < b[i]) ==> Sum(a) < Sum(b)
  {
    if a != [] {
      SumMonotone(a[1..], b[1..]);
      if exists i :: 0 <= i < |a| && a[i] < b[i] {
        var i :| 0 <= i < |a| && a[i] < b[i];
        if i > 0 {
          assert a[1..][i - 1] < b[1..][i - 1];
        }
      }
    }
  }

  /** Labels stay within `1 .. index + 1`. */
  predicate Bounded(ids: seq<nat>) {
    forall i :: 0 <= i < |ids| ==> 1 <= ids[i] <= i + 1
  }

  lemma StepKeepsBounds(rows: seq<Row>, key: KeyColumn, ids: seq<nat>, weak: bool)
    requires |key| == |ids| == |rows| && Bounded(ids)
    ensures Bounded(StepResult(rows, key, ids, weak))
  {
    var next := StepResult(rows, key, ids, weak);
    forall i | 0 <= i < |ids| ensures 1 <= next[i] {
      if Accepted(rows, key, ids, weak, i) {
        CanonIsGroupMinimum(key, ids, i);
        var j :| 0 <= j < |key| && key[j] == key[i] && ids[j] == Canon(key, ids, i);
      }
    }
  }

  /** The labels after the first `k` keys of a round, each key step seeing
      the labels the previous one produced. */
  function RoundUpTo(rows: seq<Row>, keys: seq<KeyColumn>, ids: seq<nat>, k: nat): (next: seq<nat>)
    requires |keys| == KeyCount && |ids| == |rows| && k <= KeyCount
    requires forall q :: 0 <= q < KeyCount ==> |keys[q]| == |rows|
    ensures |next| == |ids|
    decreases k
  {
    if k == 0 then ids
    else StepResult(rows, keys[k - 1], RoundUpTo(rows, keys, ids, k - 1), k - 1 == WeakKey)
  }

  /** One whole round: the six key steps in order. */
  function RoundResult(rows: seq<Row>, keys: seq<KeyColumn>, ids: seq<nat>): seq<nat>
    requires |keys| == KeyCount && |ids| == |rows|
    requires forall q :: 0 <= q < KeyCount ==> |keys[q]| == |rows|
  {
    RoundUpTo(rows, keys, ids, KeyCount)
  }

  /** Part of a round only lowers labels, and keeps them bounded. */
  lemma {:induction false} RoundUpToLowers(rows: seq<Row>, keys: seq<KeyColumn>, ids: seq<nat>, k: nat)
    requires |keys| == KeyCount && |ids| == |rows| && k <= KeyCount
    requires forall q :: 0 <= q < KeyCount ==> |keys[q]| == |rows|
    requires Bounded(ids)
    ensures Bounded(RoundUpTo(rows, keys, ids, k))
    ensures forall i :: 0 <= i < |ids| ==> RoundUpTo(rows, keys, ids, k)[i] <= ids[i]
  {
    if k > 0 {
      RoundUpToLowers(rows, keys, ids, k - 1);
      StepKeepsBounds(rows, keys[k - 1], RoundUpTo(rows, keys, ids, k - 1), k - 1 == WeakKey);
    }
  }

  /** A round keeps labels bounded, and a round that changes any label
      lowers the label sum. */
  lemma RoundLowersSum(rows: seq<Row>, keys: seq<KeyColumn>, ids: seq<nat>)
    requires |keys| == KeyCount && |ids| == |rows|
    requires forall q :: 0 <= q < KeyCount ==> |keys[q]| == |rows|
    requires Bounded(ids)
    ensures Bounded(RoundResult(rows, keys, ids))
    ensures RoundResult(rows, keys, ids) != ids ==> Sum(RoundResult(rows, keys, ids)) < Sum(ids)
  {
    RoundUpToLowers(rows, keys, ids, KeyCount);
    LowerSum(RoundResult(rows, keys, ids), ids);
  }

  /** Labels lowered pointwise have a smaller sum unless none moved. */
  lemma LowerSum(a: seq<nat>, b: seq<nat>)
    requires |a| == |b|
    requires forall i :: 0 <= i < |a| ==> a[i] <= b[i]
    ensures a != b ==> Sum(a) < Sum(b)
  {
    SumMonotone(a, b);
    if a != b {
      var i :| 0 <= i < |a| && a[i] != b[i];
    }
  }

  /** The labels the loop settles on when it starts from `ids`: rounds
      repeat until one changes nothing, so the result is a labelling that a
      further round leaves in place. */
  function Fixpoint(rows: seq<Row>, keys: seq<KeyColumn>, ids: seq<nat>): (r: seq<nat>)
    requires |keys| == KeyCount && |ids| == |rows|
    requires forall q :: 0 <= q < KeyCount ==> |keys[q]| == |rows|
    requires Bounded(ids)
    ensures |r| == |ids| && Bounded(r)
    decreases Sum(ids)
  {
    var next := RoundResult(rows, keys, ids);
    RoundLowersSum(rows, keys, ids);
    if next == ids then ids else Fixpoint(rows, keys, next)
  }

  /** A further round leaves the loop's result in place. */
  lemma {:induction false} FixpointStable(rows: seq<Row>, keys: seq<KeyColumn>, ids: seq<nat>)
    requires |keys| == KeyCount && |ids| == |rows|
    requires forall q :: 0 <= q < KeyCount ==> |keys[q]| == |rows|
    requires Bounded(ids)
    ensures RoundResult(rows, keys, Fixpoint(rows, keys, ids)) == Fixpoint(rows, keys, ids)
    decreases Sum(ids)
  {
    var next := RoundResult(rows, keys, ids);
    RoundLowersSum(rows, keys, ids);
    if next != ids {
      FixpointStable(rows, keys, next);
    }
  }

  /** Every row in a group of its own, labelled `index + 1`. */
  function Singletons(n: nat): (ids: seq<nat>)
    ensures |ids| == n && Bounded(ids)
  {
    seq(n, i requires 0 <= i < n => i + 1)
  }

  // ---------------------------------------------------------------------------
  // Soundness: labels only travel along shared key values

  /** Rows `a` and `b` hold the same present value of some candidate key. */
  predicate ShareKey(keys: seq<KeyColumn>, a: nat, b: nat) {
    exists q :: 0 <= q < |keys| && a < |keys[q]| && b < |keys[q]| && keys[q][a].Some? && keys[q][a] == keys[q][b]
  }

  /** Each row of `p` shares a key value with the next. */
  predicate Chain(keys: seq<KeyColumn>, p: seq<nat>) {
    forall k :: 0 <= k < |p| - 1 ==> ShareKey(keys, p[k], p[k + 1])
  }

  /** Rows `a` and `b` are connected by a chain of shared key values. */
  ghost predicate Linked(keys: seq<KeyColumn>, a: nat, b: nat) {
    exists p :: |p| > 0 && Chain(keys, p) && p[0] == a && p[|p| - 1] == b
  }

  lemma LinkedRefl(keys: seq<KeyColumn>, a: nat)
    ensures Linked(keys, a, a)
  {
    assert Chain(keys, [a]);
  }

  lemma LinkedPrepend(keys: seq<KeyColumn>, a: nat, b: nat, c: nat)
    requires ShareKey(keys, a, b) && Linked(keys, b, c)
    ensures Linked(keys, a, c)
  {
    var p :| |p| > 0 && Chain(keys, p) && p[0] == b && p[|p| - 1] == c;
    var r := [a] + p;
    forall k | 0 <= k < |r| - 1 ensures ShareKey(keys, r[k], r[k + 1]) {
      if k > 0 {
        assert r[k] == p[k - 1] && r[k + 1] == p[k];
      }
    }
    assert Chain(keys, r) && r[|r| - 1] == c;
  }

  lemma LinkedSymmetric(keys: seq<KeyColumn>, a: nat, b: nat)
    requires Linked(keys, a, b)
    ensures Linked(keys, b, a)
  {
    var p :| |p| > 0 && Chain(keys, p) && p[0] == a && p[|p| - 1] == b;
    var r := seq(|p|, k requires 0 <= k < |p| => p[|p| - 1 - k]);
    forall k | 0 <= k < |r| - 1 ensures ShareKey(keys, r[k], r[k + 1]) {
      assert ShareKey(keys, p[|p| - 2 - k], p[|p| - 1 - k]);
    }
    assert Chain(keys, r);
  }

  lemma LinkedTransitive(keys: seq<KeyColumn>, a: nat, b: nat, c: nat)
    requires Linked(keys, a, b) && Linked(keys, b, c)
    ensures Linked(keys, a, c)
  {
    var p :| |p| > 0 && Chain(keys, p) && p[0] == a && p[|p| - 1] == b;
    var s :| |s| > 0 && Chain(keys, s) && s[0] == b && s[|s| - 1] == c;
    var r := p + s[1..];
    forall k | 0 <= k < |r| - 1 ensures ShareKey(keys, r[k], r[k + 1]) {
      if k < |p| - 1 {
        assert r[k] == p[k] && r[k + 1] == p[k + 1];
      } else {
        assert r[k] == s[k - |p| + 1] && r[k + 1] == s[k - |p| + 2];
      }
    }
    assert Chain(keys, r) && r[0] == a && r[|r| - 1] == c;
  }

  /** Every row is linked to the row its label was first given to. */
  ghost predicate LabelsLinked(keys: seq<KeyColumn>, ids: seq<nat>)
    requires Bounded(ids)
  {
    forall i :: 0 <= i < |ids| ==> Linked(keys, i, ids[i] - 1)
  }

  lemma SingletonsLinked(keys: seq<KeyColumn>, n: nat)
    ensures LabelsLinked(keys, Singletons(n))
  {
    forall i | 0 <= i < n ensures Linked(keys, i, Singletons(n)[i] - 1) {
      LinkedRefl(keys, i);
    }
  }

  /** A key step moves a row only to the label of a row it shares that
      key's value with, so labels keep pointing along chains. */
  lemma StepKeepsLinked(rows: seq<Row>, keys: seq<KeyColumn>, q: nat, ids: seq<nat>, weak: bool)
    requires q < |keys| && |keys[q]| == |ids| == |rows| && Bounded(ids)
    requires LabelsLinked(keys, ids)
    ensures Bounded(StepResult(rows, keys[q], ids, weak))
    ensures LabelsLinked(keys, StepResult(rows, keys[q], ids, weak))
  {
    StepKeepsBounds(rows, keys[q], ids, weak);
    var next := StepResult(rows, keys[q], ids, weak);
    forall i | 0 <= i < |ids| ensures Linked(keys, i, next[i] - 1) {
      if Accepted(rows, keys[q], ids, weak, i) {
        CanonIsGroupMinimum(keys[q], ids, i);
        var j :| 0 <= j < |ids| && keys[q][j] == keys[q][i] && ids[j] == Canon(keys[q], ids, i);
        assert ShareKey(keys, i, j);
        assert Linked(keys, j, ids[j] - 1);
        LinkedPrepend(keys, i, j, ids[j] - 1);
      }
    }
  }

  lemma {:induction false} RoundUpToLinked(rows: seq<Row>, keys: seq<KeyColumn>, ids: seq<nat>, k: nat)
    requires |keys| == KeyCount && |ids| == |rows| && k <= KeyCount
    requires forall q :: 0 <= q < KeyCount ==> |keys[q]| == |rows|
    requires Bounded(ids) && LabelsLinked(keys, ids)
    ensures Bounded(RoundUpTo(rows, keys, ids, k))
    ensures LabelsLinked(keys, RoundUpTo(rows, keys, ids, k))
  {
    var j := 0;
    while j < k
      invariant j <= k
      invariant Bounded(RoundUpTo(rows, keys, ids, j)) && LabelsLinked(keys, RoundUpTo(rows, keys, ids, j))
    {
      RoundUpToLinkedStep(rows, keys, ids, j + 1);
      j := j + 1;
    }
  }

  /** One more key of the round keeps labels pointing along chains. */
  lemma RoundUpToLinkedStep(rows: seq<Row>, keys: seq<KeyColumn>, ids: seq<nat>, k: nat)
    requires |keys| == KeyCount && |ids| == |rows| && 0 < k <= KeyCount
    requires forall q :: 0 <= q < KeyCount ==> |keys[q]| == |rows|
    requires Bounded(RoundUpTo(rows, keys, ids, k - 1)) && LabelsLinked(keys, RoundUpTo(rows, keys, ids, k - 1))
    ensures Bounded(RoundUpTo(rows, keys, ids, k))
    ensures LabelsLinked(keys, RoundUpTo(rows, keys, ids, k))
  {
    var prev := RoundUpTo(rows, keys, ids, k - 1);
    StepKeepsLinked(rows, keys, k - 1, prev, k - 1 == WeakKey);
    assert RoundUpTo(rows, keys, ids, k) == StepResult(rows, keys[k - 1], prev, k - 1 == WeakKey);
  }

  /** Two rows with the same label are connected by a chain of shared key
      values. */
  lemma SameLabelLinked(keys: seq<KeyColumn>, ids: seq<nat>, i: nat, j: nat)
    requires Bounded(ids) && LabelsLinked(keys, ids)
    requires i < |ids| && j < |ids| && ids[i] == ids[j]
    ensures Linked(keys, i, j)
  {
    assert Linked(keys, j, ids[j] - 1);
    LinkedSymmetric(keys, j, ids[j] - 1);
    LinkedTransitive(keys, i, ids[i] - 1, j);
  }

  /** A chain that starts at a row sharing no key value with any other row
      never leaves it. */
  lemma {:induction false} ChainStays(keys: seq<KeyColumn>, p: seq<nat>, i: nat, n: nat)
    requires Chain(keys, p) && |p| > 0 && p[0] == i
    requires forall q :: 0 <= q < |keys| ==> |keys[q]| <= n
    requires forall j :: 0 <= j < n && j != i ==> !ShareKey(keys, i, j)
    ensures p[|p| - 1] == i
  {
    if |p| > 1 {
      assert ShareKey(keys, p[0], p[1]);
      var q :| 0 <= q < |keys| && p[0] < |keys[q]| && p[1] < |keys[q]| && keys[q][p[0]].Some? && keys[q][p[0]] == keys[q][p[1]];
      assert p[1] == i;
      assert Chain(keys, p[1..]) by {
        forall k | 0 <= k < |p[1..]| - 1 ensures ShareKey(keys, p[1..][k], p[1..][k + 1]) {
          assert ShareKey(keys, p[k + 1], p[k + 2]);
        }
      }
      ChainStays(keys, p[1..], i, n);
    }
  }

  /** A row that shares no key value with any other row keeps a label of its
      own, `index + 1`, that no other row carries. */
  lemma IsolatedRowStaysAlone(keys: seq<KeyColumn>, ids: seq<nat>, i: nat)
    requires forall q :: 0 <= q < |keys| ==> |keys[q]| == |ids|
    requires Bounded(ids) && LabelsLinked(keys, ids) && i < |ids|
    requires forall j :: 0 <= j < |ids| && j != i ==> !ShareKey(keys, i, j)
    ensures ids[i] == i + 1
    ensures forall j :: 0 <= j < |ids| && j != i ==> ids[j] != ids[i]
  {
    IsolatedChainsStay(keys, ids, i, ids[i] - 1);
    forall j | 0 <= j < |ids| && j != i ensures ids[j] != ids[i] {
      if ids[j] == ids[i] {
        SameLabelLinked(keys, ids, i, j);
        IsolatedChainsStay(keys, ids, i, j);
      }
    }
  }

  lemma IsolatedChainsStay(keys: seq<KeyColumn>, ids: seq<nat>, i: nat, b: nat)
    requires forall q :: 0 <= q < |keys| ==> |keys[q]| == |ids|
    requires i < |ids| && Linked(keys, i, b)
    requires forall j :: 0 <= j < |ids| && j != i ==> !ShareKey(keys, i, j)
    ensures b == i
  {
    var p :| |p| > 0 && Chain(keys, p) && p[0] == i && p[|p| - 1] == b;
    ChainStays(keys, p, i, |ids|);
  }

  /** One iteration of the `while True` loop: the six keys in order, each
      seeing the labels the previous ones produced, which is `RoundResult`.
      A round without merges leaves every label in place and every key
      settled; any merge lowers the label sum. */
  method Round(rows: seq<Row>, keys: seq<KeyColumn>, ids: seq<nat>) returns (next: seq<nat>, merges: nat)
    requires |keys| == KeyCount && |ids| == |rows|
    requires forall k :: 0 <= k < KeyCount ==> |keys[k]| == |rows|
    requires Bounded(ids)
    ensures next == RoundResult(rows, keys, ids)
    ensures |next| == |ids| && Bounded(next)
    ensures merges == 0 <==> next == ids
    ensures merges == 0 ==> forall k :: 0 <= k < KeyCount ==> Settled(rows, keys[k], ids, k == WeakKey)
    ensures merges > 0 ==> Sum(next) < Sum(ids)
  {
    next := ids;
    merges := 0;
    var k := 0;
    while k < KeyCount
      invariant 0 <= k <= KeyCount && |next| == |ids| && Bounded(next)
      invariant next == RoundUpTo(rows, keys, ids, k)
      invariant merges == 0 ==> next == ids
      invariant merges > 0 ==> Sum(next) < Sum(ids)
      invariant Sum(next) <= Sum(ids)
    {
      var after, m := KeyStep(rows, keys[k], next, k == WeakKey);
      RoundAdvance(rows, keys, ids, k, next, after, m);
      next := after;
      merges := merges + m;
      k := k + 1;
    }
    if merges == 0 {
      FixedRoundSettled(rows, keys, ids);
    }
  }

  /** One key step inside a round: the labels advance to the next prefix of
      the round, stay bounded, and the sum drops exactly when the step
      merged something. */
  lemma RoundAdvance(rows: seq<Row>, keys: seq<KeyColumn>, ids: seq<nat>, k: nat, next: seq<nat>, after: seq<nat>, m: nat)
    requires |keys| == KeyCount && |ids| == |rows| && k < KeyCount
    requires forall q :: 0 <= q < KeyCount ==> |keys[q]| == |rows|
    requires next == RoundUpTo(rows, keys, ids, k) && Bounded(next)
    requires after == StepResult(rows, keys[k], next, k == WeakKey)
    requires m == 0 <==> Settled(rows, keys[k], next, k == WeakKey)
    ensures after == RoundUpTo(rows, keys, ids, k + 1) && |after| == |ids| && Bounded(after)
    ensures m == 0 <==> after == next
    ensures Sum(after) <= Sum(next) && (m > 0 ==> Sum(after) < Sum(next))
  {
    StepEffect(rows, keys[k], next, k == WeakKey);
  }

  /** Later key steps of a round only lower the labels earlier ones left. */
  lemma {:induction false} RoundUpToMonotone(rows: seq<Row>, keys: seq<KeyColumn>, ids: seq<nat>, j: nat, k: nat)
    requires |keys| == KeyCount && |ids| == |rows| && j <= k <= KeyCount
    requires forall q :: 0 <= q < KeyCount ==> |keys[q]| == |rows|
    ensures forall i :: 0 <= i < |ids| ==> RoundUpTo(rows, keys, ids, k)[i] <= RoundUpTo(rows, keys, ids, j)[i]
  {
    if j < k {
      RoundUpToMonotone(rows, keys, ids, j, k - 1);
    }
  }

  /** A round that changes nothing finds every key settled. */
  lemma FixedRoundSettled(rows: seq<Row>, keys: seq<KeyColumn>, ids: seq<nat>)
    requires |keys| == KeyCount && |ids| == |rows|
    requires forall q :: 0 <= q < KeyCount ==> |keys[q]| == |rows|
    requires RoundResult(rows, keys, ids) == ids
    ensures forall k :: 0 <= k < KeyCount ==> Settled(rows, keys[k], ids, k == WeakKey)
  {
    forall k | 0 <= k < KeyCount ensures Settled(rows, keys[k], ids, k == WeakKey) {
      FixedRoundSettledAt(rows, keys, ids, k);
    }
  }

  lemma FixedRoundSettledAt(rows: seq<Row>, keys: seq<KeyColumn>, ids: seq<nat>, k: nat)
    requires |keys| == KeyCount && |ids| == |rows| && k < KeyCount
    requires forall q :: 0 <= q < KeyCount ==> |keys[q]| == |rows|
    requires RoundResult(rows, keys, ids) == ids
    ensures Settled(rows, keys[k], ids, k == WeakKey)
  {
    UnchangedUpTo(rows, keys, ids, k);
    UnchangedUpTo(rows, keys, ids, k + 1);
    assert RoundUpTo(rows, keys, ids, k + 1) == StepResult(rows, keys[k], ids, k == WeakKey);
    SettledWhenUnchanged(rows, keys[k], ids, k == WeakKey);
  }

  /** A key step that changes nothing finds the key settled. */
  lemma SettledWhenUnchanged(rows: seq<Row>, key: KeyColumn, ids: seq<nat>, weak: bool)
    requires |key| == |ids| == |rows| && StepResult(rows, key, ids, weak) == ids
    ensures Settled(rows, key, ids, weak)
  {
    SettledIffUnchanged(rows, key, ids, weak);
  }

  /** When a whole round changes nothing, neither does any part of it. */
  lemma UnchangedUpTo(rows: seq<Row>, keys: seq<KeyColumn>, ids: seq<nat>, k: nat)
    requires |keys| == KeyCount && |ids| == |rows| && k <= KeyCount
    requires forall q :: 0 <= q < KeyCount ==> |keys[q]| == |rows|
    requires RoundResult(rows, keys, ids) == ids
    ensures RoundUpTo(rows, keys, ids, k) == ids
  {
    RoundUpToMonotone(rows, keys, ids, 0, k);
    RoundUpToMonotone(rows, keys, ids, k, KeyCount);
    var mid := RoundUpTo(rows, keys, ids, k);
    assert forall i :: 0 <= i < |ids| ==> mid[i] <= ids[i];
    assert forall i :: 0 <= i < |ids| ==> ids[i] <= mid[i];
  }

  /** A key step keeps labels bounded and never raises the label sum; it
      leaves the labels in place exactly when the key is settled, and
      otherwise lowers the sum. */
  lemma StepEffect(rows: seq<Row>, key: KeyColumn, ids: seq<nat>, weak: bool)
    requires |key| == |ids| == |rows| && Bounded(ids)
    ensures Bounded(StepResult(rows, key, ids, weak))
    ensures Sum(StepResult(rows, key, ids, weak)) <= Sum(ids)
    ensures Settled(rows, key, ids, weak) <==> StepResult(rows, key, ids, weak) == ids
    ensures !Settled(rows, key, ids, weak) ==> Sum(StepResult(rows, key, ids, weak)) < Sum(ids)
  {
    var next := StepResult(rows, key, ids, weak);
    StepKeepsBounds(rows, key, ids, weak);
    SumMonotone(next, ids);
    if !Settled(rows, key, ids, weak) {
      var i :| 0 <= i < |ids| && Accepted(rows, key, ids, weak, i);
      assert next[i] < ids[i];
    } else {
      assert next == ids;
    }
  }

  /** The chaining loop: starting from labels `1 .. n`, rounds repeat until
      one makes no merge; the result is `Fixpoint` from `Singletons`. It
      terminates because every productive round lowers the label sum. At
      exit every unguarded key is closed (rows sharing its value share a
      label) and the weak key is settled; and conversely rows share a label
      only when a chain of shared key values connects them. */
  method Resolve(rows: seq<Row>) returns (ids: seq<nat>)
    ensures |ids| == |rows| && Bounded(ids)
    ensures ids == Fixpoint(rows, KeyColumns(rows), Singletons(|rows|))
    ensures forall k :: 0 <= k < WeakKey ==> ClosedUnder(KeyColumns(rows)[k], ids)
    ensures Settled(rows, KeyColumns(rows)[WeakKey], ids, true)
    ensures LabelsLinked(KeyColumns(rows), ids)
    ensures forall i, j :: 0 <= i < |rows| && 0 <= j < |rows| && ids[i] == ids[j] ==> Linked(KeyColumns(rows), i, j)
  {
    var keys := KeyColumns(rows);
    ids := Singletons(|rows|);
    SingletonsLinked(keys, |rows|);
    while true
      invariant |ids| == |rows| && Bounded(ids)
      invariant Fixpoint(rows, keys, ids) == Fixpoint(rows, keys, Singletons(|rows|))
      invariant LabelsLinked(keys, ids)
      decreases Sum(ids)
    {
      var next, merges := Round(rows, keys, ids);
      RoundUpToLinked(rows, keys, ids, KeyCount);
      if merges == 0 {
        forall k | 0 <= k < WeakKey ensures ClosedUnder(keys[k], ids) {
          SettledIffClosed(rows, keys[k], ids);
        }
        forall i, j | 0 <= i < |rows| && 0 <= j < |rows| && ids[i] == ids[j] ensures Linked(keys, i, j) {
          SameLabelLinked(keys, ids, i, j);
        }
        return;
      }
      ids := next;
    }
  }
}
