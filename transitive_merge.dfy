/** `transitiveMerge` of RankOrderCluster.kt: consolidates a family of sets
    into the connected components of the relation "shares an element with".
    The input is the iteration order of the Kotlin `Set<Set<V>>`, so its
    entries are distinct; sets compare by content. */
module Consolidation {
  import opened Collections

  /** All elements of all the sets. */
  ghost function UnionOf<V>(sets: seq<set<V>>): set<V>
  {
    set m, x | 0 <= m < |sets| && x in sets[m] :: x
  }

  /** No two entries at different positions share an element. */
  ghost predicate PairwiseDisjoint<V>(sets: seq<set<V>>)
  {
    forall p, q :: 0 <= p < |sets| && 0 <= q < |sets| && p != q ==> sets[p] * sets[q] == {}
  }

  /** The sets at positions `p` and `q` share an element. */
  ghost predicate Meets<V>(sets: seq<set<V>>, p: int, q: int)
  {
    0 <= p < |sets| && 0 <= q < |sets| && sets[p] * sets[q] != {}
  }

  /** `path` lists positions of `sets`, each set sharing an element with the next. */
  ghost predicate IsPath<V>(sets: seq<set<V>>, path: seq<int>)
  {
    && |path| > 0
    && (forall t :: 0 <= t < |path| ==> 0 <= path[t] < |sets|)
    && (forall t :: 0 <= t < |path| - 1 ==> Meets(sets, path[t], path[t + 1]))
  }

  /** `a` and `b` are connected through a path of overlapping input sets. */
  ghost predicate Linked<V>(sets: seq<set<V>>, a: V, b: V)
  {
    exists path :: IsPath(sets, path) && a in sets[path[0]] && b in sets[path[|path| - 1]]
  }

  /** Every input set lies inside some output set. */
  ghost predicate Covers<V>(sets: seq<set<V>>, merged: seq<set<V>>)
  {
    forall m :: 0 <= m < |sets| ==> InsideSomeBlock(sets[m], merged)
  }

  /** `s` lies inside one of the output sets. */
  ghost predicate InsideSomeBlock<V>(s: set<V>, merged: seq<set<V>>)
  {
    exists k :: 0 <= k < |merged| && s <= merged[k]
  }

  /** Every output set holds only elements of the input sets. (With `Covers`
      and disjointness, each output set is the union of the inputs inside it.) */
  ghost predicate MadeOfInputs<V>(sets: seq<set<V>>, merged: seq<set<V>>)
  {
    forall k :: 0 <= k < |merged| ==> merged[k] <= UnionOf(sets)
  }

  /** Any two elements of one output set are linked through the input sets. */
  ghost predicate BlocksConnected<V>(sets: seq<set<V>>, merged: seq<set<V>>)
  {
    forall k, a, b :: 0 <= k < |merged| && a in merged[k] && b in merged[k] ==> Linked(sets, a, b)
  }

  /** What `transitiveMerge` promises: the output is a set of pairwise disjoint
      sets, each a connected union of input sets, that together cover the input. */
  ghost predicate IsConsolidation<V>(sets: seq<set<V>>, merged: seq<set<V>>)
  {
    && Distinct(merged)
    && PairwiseDisjoint(merged)
    && Covers(sets, merged)
    && MadeOfInputs(sets, merged)
    && ({} in merged <==> {} in sets)
    && BlocksConnected(sets, merged)
  }

  /** Number of `false` flags. */
  function CountFalse(flags: seq<bool>): nat
  {
    if flags == [] then 0 else (if flags[0] then 0 else 1) + CountFalse(flags[1..])
  }

  lemma {:induction false} CountFalseSet(flags: seq<bool>, j: nat)
    requires j < |flags| && !flags[j]
    ensures CountFalse(flags[j := true]) == CountFalse(flags) - 1
  {
    if j > 0 {
      assert flags[j := true][1..] == flags[1..][j - 1 := true];
      CountFalseSet(flags[1..], j - 1);
    }
  }

  /* The state of `transitiveMerge` between steps. `copy` and `flags` are the
     Kotlin `copy` list and `consolidated` array; `owner[m]` is the surviving
     position whose set has absorbed input `m`, and `path[m]` is a path of
     input sets from `sets[owner[m]]` to `sets[m]`. Positions below
     `processed` are finished; no position at or after `active` has been
     touched yet. */

  ghost predicate Shape<V>(sets: seq<set<V>>, copy: seq<set<V>>, flags: seq<bool>, owner: seq<int>, paths: seq<seq<int>>)
  {
    |copy| == |flags| == |owner| == |paths| == |sets|
  }

  /** Each position is owned by itself or by an earlier surviving position
      below `active`; flagged exactly when owned by another. */
  ghost predicate OwnersValid(flags: seq<bool>, owner: seq<int>, active: nat)
    requires |flags| == |owner|
  {
    && (forall m :: 0 <= m < |owner| ==> 0 <= owner[m] <= m && !flags[owner[m]])
    && (forall m :: 0 <= m < |owner| ==> (flags[m] <==> owner[m] != m))
    && (forall m :: 0 <= m < |owner| && owner[m] != m ==> owner[m] < active)
  }

  /** Each input set lies inside the working set of its owner. */
  ghost predicate Covered<V>(sets: seq<set<V>>, copy: seq<set<V>>, owner: seq<int>)
    requires |copy| == |owner| == |sets|
  {
    forall m :: 0 <= m < |sets| && 0 <= owner[m] < |copy| ==> sets[m] <= copy[owner[m]]
  }

  /** Each element of a surviving working set comes from an input it owns. */
  ghost predicate Sourced<V>(sets: seq<set<V>>, copy: seq<set<V>>, flags: seq<bool>, owner: seq<int>)
    requires |copy| == |flags| == |owner| == |sets|
  {
    forall k, x :: 0 <= k < |sets| && !flags[k] && x in copy[k] ==>
      exists m :: 0 <= m < |sets| && owner[m] == k && x in sets[m]
  }

  /** Working sets from `active` on are still the input sets. */
  ghost predicate Untouched<V>(sets: seq<set<V>>, copy: seq<set<V>>, active: nat)
    requires |copy| == |sets|
  {
    forall m :: active <= m < |sets| ==> copy[m] == sets[m]
  }

  /** An empty input meets nothing, so it is never absorbed and absorbs nothing. */
  ghost predicate EmptiesKept<V>(sets: seq<set<V>>, copy: seq<set<V>>, flags: seq<bool>)
    requires |copy| == |flags| == |sets|
  {
    forall m :: 0 <= m < |sets| && sets[m] == {} ==> !flags[m] && copy[m] == {}
  }

  /** Surviving working sets below `processed` meet no other surviving set. */
  ghost predicate Finished<V>(copy: seq<set<V>>, flags: seq<bool>, processed: nat)
    requires |copy| == |flags|
  {
    forall k, l :: 0 <= k < processed && k < |copy| && 0 <= l < |copy| && k != l && !flags[k] && !flags[l] ==>
      copy[k] * copy[l] == {}
  }

  /** `paths[m]` connects the owner of `m` to `m`. */
  ghost predicate PathsValid<V>(sets: seq<set<V>>, owner: seq<int>, paths: seq<seq<int>>)
    requires |owner| == |paths| == |sets|
  {
    forall m :: 0 <= m < |sets| ==>
      IsPath(sets, paths[m]) && paths[m][0] == owner[m] && paths[m][|paths[m]| - 1] == m
  }

  ghost predicate MergeState<V>(sets: seq<set<V>>, copy: seq<set<V>>, flags: seq<bool>,
                                owner: seq<int>, paths: seq<seq<int>>, processed: nat, active: nat)
  {
    && Shape(sets, copy, flags, owner, paths)
    && OwnersValid(flags, owner, active)
    && Covered(sets, copy, owner)
    && Sourced(sets, copy, flags, owner)
    && Untouched(sets, copy, active)
    && EmptiesKept(sets, copy, flags)
    && Finished(copy, flags, processed)
    && PathsValid(sets, owner, paths)
  }

  lemma InitialState<V>(sets: seq<set<V>>)
    ensures MergeState(sets, sets, seq(|sets|, _ => false), seq(|sets|, k => k),
                       seq(|sets|, k => [k]), 0, 0)
  {
    var owner := seq(|sets|, k => k);
    var paths := seq(|sets|, k => [k]);
    forall k, x | 0 <= k < |sets| && x in sets[k]
      ensures exists m :: 0 <= m < |sets| && owner[m] == k && x in sets[m]
    {
      assert owner[k] == k;
    }
    forall m | 0 <= m < |sets| ensures IsPath(sets, paths[m]) {
      assert paths[m] == [m];
    }
  }

  lemma AbsorbOwners(flags: seq<bool>, owner: seq<int>, i: nat, j: nat)
    requires |flags| == |owner| && OwnersValid(flags, owner, i + 1)
    requires i < j < |owner| && !flags[i] && !flags[j]
    ensures OwnersValid(flags[j := true], owner[j := i], i + 1)
    ensures forall m :: 0 <= m < |owner| && owner[m] == j ==> m == j
  {
  }

  lemma AbsorbCovered<V>(sets: seq<set<V>>, copy: seq<set<V>>, owner: seq<int>, i: nat, j: nat)
    requires |copy| == |owner| == |sets| && Covered(sets, copy, owner)
    requires i < j < |sets| && copy[j] == sets[j]
    ensures Covered(sets, copy[i := copy[i] + copy[j]], owner[j := i])
  {
    var copy' := copy[i := copy[i] + copy[j]];
    forall m | 0 <= m < |sets| && 0 <= owner[j := i][m] < |copy| ensures sets[m] <= copy'[owner[j := i][m]] {
      if m != j {
        assert copy[owner[m]] <= copy'[owner[m]];
      }
    }
  }

  lemma AbsorbSourced<V>(sets: seq<set<V>>, copy: seq<set<V>>, flags: seq<bool>, owner: seq<int>, i: nat, j: nat)
    requires |copy| == |flags| == |owner| == |sets|
    requires Sourced(sets, copy, flags, owner)
    requires i < j < |sets| && copy[j] == sets[j] && owner[j] == j
    requires forall m :: 0 <= m < |owner| && owner[m] == j ==> m == j
    ensures Sourced(sets, copy[i := copy[i] + copy[j]], flags[j := true], owner[j := i])
  {
    var copy', flags', owner' := copy[i := copy[i] + copy[j]], flags[j := true], owner[j := i];
    forall k, y | 0 <= k < |sets| && !flags'[k] && y in copy'[k]
      ensures exists m :: 0 <= m < |sets| && owner'[m] == k && y in sets[m]
    {
      if k == i && y in copy[j] {
        assert owner'[j] == i && y in sets[j];
      } else {
        assert y in copy[k] && !flags[k];
        var m :| 0 <= m < |sets| && owner[m] == k && y in sets[m];
        assert owner'[m] == k;
      }
    }
  }

  lemma AbsorbFinished<V>(copy: seq<set<V>>, flags: seq<bool>, i: nat, j: nat)
    requires |copy| == |flags| && Finished(copy, flags, i)
    requires i < j < |copy| && !flags[j]
    ensures Finished(copy[i := copy[i] + copy[j]], flags[j := true], i)
  {
    var copy', flags' := copy[i := copy[i] + copy[j]], flags[j := true];
    forall k, l | 0 <= k < i && 0 <= l < |copy| && k != l && !flags'[k] && !flags'[l]
      ensures copy'[k] * copy'[l] == {}
    {
      if l == i {
        assert copy[k] * copy[i] == {} && copy[k] * copy[j] == {};
      }
    }
  }

  lemma AbsorbPaths<V>(sets: seq<set<V>>, owner: seq<int>, paths: seq<seq<int>>, i: nat, j: nat, m': nat, x: V)
    requires |owner| == |paths| == |sets| && PathsValid(sets, owner, paths)
    requires i < j < |sets| && m' < |sets| && owner[m'] == i && x in sets[m'] && x in sets[j]
    ensures PathsValid(sets, owner[j := i], paths[j := paths[m'] + [j]])
  {
    var w := paths[m'] + [j];
    assert w[|w| - 2] == m';
    assert x in sets[w[|w| - 2]] * sets[w[|w| - 1]];
    assert Meets(sets, w[|w| - 2], w[|w| - 1]);
    assert IsPath(sets, w);
  }

  lemma AbsorbKeeps<V>(sets: seq<set<V>>, copy: seq<set<V>>, flags: seq<bool>, i: nat, j: nat, x: V)
    requires |copy| == |flags| == |sets|
    requires Untouched(sets, copy, i + 1) && EmptiesKept(sets, copy, flags)
    requires i < j < |sets| && x in copy[i] && x in copy[j]
    ensures Untouched(sets, copy[i := copy[i] + copy[j]], i + 1)
    ensures EmptiesKept(sets, copy[i := copy[i] + copy[j]], flags[j := true])
  {
    assert sets[i] != {} && sets[j] != {};
  }

  /** Position `i` absorbs the untouched position `j` whose set meets its own;
      the new owner and path witnesses are returned. */
  lemma AbsorbStep<V>(sets: seq<set<V>>, copy: seq<set<V>>, flags: seq<bool>,
                      owner: seq<int>, paths: seq<seq<int>>, i: nat, j: nat)
    returns (owner': seq<int>, paths': seq<seq<int>>)
    requires MergeState(sets, copy, flags, owner, paths, i, i + 1)
    requires i < j < |sets| && !flags[i] && !flags[j]
    requires copy[i] * copy[j] != {}
    ensures MergeState(sets, copy[i := copy[i] + copy[j]], flags[j := true], owner', paths', i, i + 1)
    ensures CountFalse(flags[j := true]) == CountFalse(flags) - 1
  {
    var x :| x in copy[i] && x in copy[j];
    var m' :| 0 <= m' < |sets| && owner[m'] == i && x in sets[m'];
    assert copy[j] == sets[j];
    AbsorbOwners(flags, owner, i, j);
    AbsorbCovered(sets, copy, owner, i, j);
    AbsorbSourced(sets, copy, flags, owner, i, j);
    AbsorbFinished(copy, flags, i, j);
    AbsorbPaths(sets, owner, paths, i, j, m', x);
    AbsorbKeeps(sets, copy, flags, i, j, x);
    CountFalseSet(flags, j);
    owner', paths' := owner[j := i], paths[j := paths[m'] + [j]];
  }

  /** Finishing position `i`: once its set meets no surviving later set. */
  lemma FinishStep<V>(sets: seq<set<V>>, copy: seq<set<V>>, flags: seq<bool>,
                      owner: seq<int>, paths: seq<seq<int>>, i: nat)
    requires MergeState(sets, copy, flags, owner, paths, i, i + 1)
    requires i < |sets|
    requires !flags[i] ==> MeetsNoLater(copy, flags, i, |sets|)
    ensures MergeState(sets, copy, flags, owner, paths, i + 1, i + 1)
  {
    forall k, l | 0 <= k < i + 1 && k < |copy| && 0 <= l < |copy| && k != l && !flags[k] && !flags[l]
      ensures copy[k] * copy[l] == {}
    {
      if k == i && l < i {
        assert copy[l] * copy[k] == {};
      }
    }
  }

  /** The algorithm's output collection: the surviving sets, in position order,
      as a Kotlin set (a repeat would be dropped; none occurs). */
  ghost predicate CollectedSurvivors<V>(copy: seq<set<V>>, flags: seq<bool>, merged: seq<set<V>>,
                                         picked: seq<int>, upTo: nat)
    requires |copy| == |flags| && upTo <= |copy|
  {
    && |merged| == |picked| <= upTo
    && (forall t :: 0 <= t < |picked| ==> 0 <= picked[t] < upTo && !flags[picked[t]] && merged[t] == copy[picked[t]])
    && (forall t, u :: 0 <= t < u < |picked| ==> picked[t] < picked[u])
    && (forall k :: 0 <= k < upTo && !flags[k] ==> k in picked)
    && Distinct(merged)
  }

  lemma {:induction false} PathReverse<V>(sets: seq<set<V>>, path: seq<int>)
    requires IsPath(sets, path)
    ensures var r := seq(|path|, t requires 0 <= t < |path| => path[|path| - 1 - t]);
      IsPath(sets, r) && r[0] == path[|path| - 1] && r[|r| - 1] == path[0]
  {
    var r := seq(|path|, t requires 0 <= t < |path| => path[|path| - 1 - t]);
    forall t | 0 <= t < |r| - 1 ensures Meets(sets, r[t], r[t + 1]) {
      var u := |path| - 2 - t;
      assert r[t] == path[u + 1] && r[t + 1] == path[u];
      assert sets[path[u]] * sets[path[u + 1]] == sets[path[u + 1]] * sets[path[u]];
    }
  }

  lemma PathJoin<V>(sets: seq<set<V>>, p1: seq<int>, p2: seq<int>)
    requires IsPath(sets, p1) && IsPath(sets, p2) && p1[|p1| - 1] == p2[0]
    ensures IsPath(sets, p1 + p2[1..])
    ensures (p1 + p2[1..])[0] == p1[0]
    ensures (p1 + p2[1..])[|p1 + p2[1..]| - 1] == p2[|p2| - 1]
  {
    var w := p1 + p2[1..];
    forall t | 0 <= t < |w| - 1 ensures Meets(sets, w[t], w[t + 1]) {
      if t >= |p1| - 1 {
        assert w[t] == p2[t - |p1| + 1] && w[t + 1] == p2[t - |p1| + 2];
      }
    }
  }

  lemma FinalDisjoint<V>(copy: seq<set<V>>, flags: seq<bool>, i: nat, merged: seq<set<V>>, picked: seq<int>)
    requires |copy| == |flags| && Finished(copy, flags, i) && i + 1 >= |copy|
    requires CollectedSurvivors(copy, flags, merged, picked, |copy|)
    ensures PairwiseDisjoint(merged)
  {
    forall p, q | 0 <= p < |merged| && 0 <= q < |merged| && p != q
      ensures merged[p] * merged[q] == {}
    {
      if p < q {
        assert picked[p] < picked[q];
        assert copy[picked[p]] * copy[picked[q]] == {};
      } else {
        assert picked[q] < picked[p];
        assert copy[picked[q]] * copy[picked[p]] == {};
      }
    }
  }

  lemma FinalConnected<V>(sets: seq<set<V>>, copy: seq<set<V>>, flags: seq<bool>, owner: seq<int>,
                          paths: seq<seq<int>>, merged: seq<set<V>>, picked: seq<int>)
    requires Shape(sets, copy, flags, owner, paths)
    requires Sourced(sets, copy, flags, owner) && PathsValid(sets, owner, paths)
    requires CollectedSurvivors(copy, flags, merged, picked, |copy|)
    ensures BlocksConnected(sets, merged)
  {
    forall k, a, b | 0 <= k < |merged| && a in merged[k] && b in merged[k]
      ensures Linked(sets, a, b)
    {
      var m1 :| 0 <= m1 < |sets| && owner[m1] == picked[k] && a in sets[m1];
      var m2 :| 0 <= m2 < |sets| && owner[m2] == picked[k] && b in sets[m2];
      var p1, p2 := paths[m1], paths[m2];
      PathReverse(sets, p1);
      var r := seq(|p1|, t requires 0 <= t < |p1| => p1[|p1| - 1 - t]);
      PathJoin(sets, r, p2);
      var w := r + p2[1..];
      assert IsPath(sets, w) && a in sets[w[0]] && b in sets[w[|w| - 1]];
    }
  }

  lemma FinalCovers<V>(sets: seq<set<V>>, copy: seq<set<V>>, flags: seq<bool>, owner: seq<int>,
                       merged: seq<set<V>>, picked: seq<int>)
    requires |copy| == |flags| == |owner| == |sets| && OwnersValid(flags, owner, |sets|)
    requires Covered(sets, copy, owner) && Sourced(sets, copy, flags, owner)
    requires CollectedSurvivors(copy, flags, merged, picked, |copy|)
    ensures Covers(sets, merged) && MadeOfInputs(sets, merged)
  {
    forall m | 0 <= m < |sets| ensures InsideSomeBlock(sets[m], merged) {
      var t :| 0 <= t < |picked| && picked[t] == owner[m];
      assert sets[m] <= merged[t];
    }
    forall k, x | 0 <= k < |merged| && x in merged[k] ensures x in UnionOf(sets) {
      var m :| 0 <= m < |sets| && owner[m] == picked[k] && x in sets[m];
    }
  }

  lemma FinalEmpty<V>(sets: seq<set<V>>, copy: seq<set<V>>, flags: seq<bool>, owner: seq<int>,
                      merged: seq<set<V>>, picked: seq<int>)
    requires |copy| == |flags| == |owner| == |sets| && OwnersValid(flags, owner, |sets|)
    requires Covered(sets, copy, owner) && EmptiesKept(sets, copy, flags)
    requires CollectedSurvivors(copy, flags, merged, picked, |copy|)
    ensures {} in merged <==> {} in sets
  {
    if {} in merged {
      var t :| 0 <= t < |merged| && merged[t] == {};
      var m := picked[t];
      assert owner[m] == m && sets[m] <= copy[m];
      assert merged[t] == copy[m] && sets[m] == {} && sets[m] in sets;
    }
    if {} in sets {
      var m :| 0 <= m < |sets| && sets[m] == {};
      assert !flags[m] && copy[m] == {};
      var t :| 0 <= t < |picked| && picked[t] == m;
      assert merged[t] == {} && merged[t] in merged;
    }
  }

  /** The final state meets the promise of `transitiveMerge`. */
  lemma FinalState<V>(sets: seq<set<V>>, copy: seq<set<V>>, flags: seq<bool>,
                      owner: seq<int>, paths: seq<seq<int>>, i: nat, merged: seq<set<V>>, picked: seq<int>)
    requires MergeState(sets, copy, flags, owner, paths, i, i)
    requires i + 1 >= |sets|
    requires CollectedSurvivors(copy, flags, merged, picked, |sets|)
    ensures IsConsolidation(sets, merged)
  {
    FinalDisjoint(copy, flags, i, merged, picked);
    FinalConnected(sets, copy, flags, owner, paths, merged, picked);
    FinalCovers(sets, copy, flags, owner, merged, picked);
    FinalEmpty(sets, copy, flags, owner, merged, picked);
  }

  /** No two surviving working sets are equal. */
  ghost predicate SurvivorsDiffer<V>(copy: seq<set<V>>, flags: seq<bool>)
    requires |copy| == |flags|
  {
    forall l, k :: 0 <= l < k < |copy| && !flags[l] && !flags[k] ==> copy[l] != copy[k]
  }

  /** Once every position is finished, the surviving sets are disjoint and
      each holds its own input set; distinct inputs keep them apart even
      when empty. */
  lemma FinishedSurvivorsDiffer<V>(sets: seq<set<V>>, copy: seq<set<V>>, flags: seq<bool>, owner: seq<int>, i: nat)
    requires Distinct(sets) && |copy| == |flags| == |owner| == |sets| && i + 1 >= |sets|
    requires OwnersValid(flags, owner, i) && Covered(sets, copy, owner) && Finished(copy, flags, i)
    ensures SurvivorsDiffer(copy, flags)
  {
    forall l, k | 0 <= l < k < |copy| && !flags[l] && !flags[k] ensures copy[l] != copy[k] {
      assert copy[l] * copy[k] == {};
      assert sets[k] <= copy[k] && sets[l] <= copy[l];
      if sets[k] == {} {
        assert sets[l] != sets[k];
      } else {
        assert sets[k] <= copy[k] * copy[k];
      }
    }
  }

  /** A surviving set is new to the survivors collected before it. */
  lemma SurvivorIsNew<V>(copy: seq<set<V>>, flags: seq<bool>, merged: seq<set<V>>, picked: seq<int>, k: nat)
    requires k < |copy| == |flags| && !flags[k] && SurvivorsDiffer(copy, flags)
    requires CollectedSurvivors(copy, flags, merged, picked, k)
    ensures CollectedSurvivors(copy, flags, Add(merged, copy[k]), picked + [k], k + 1)
  {
    assert copy[k] !in merged by {
      forall t | 0 <= t < |merged| ensures merged[t] != copy[k] {
        assert picked[t] < k && !flags[picked[t]] && merged[t] == copy[picked[t]];
      }
    }
    assert Add(merged, copy[k]) == merged + [copy[k]];
    PickedStep(copy, flags, merged, picked, k);
  }

  /** Appending the survivor at `k` keeps the bookkeeping of `picked`. */
  lemma PickedStep<V>(copy: seq<set<V>>, flags: seq<bool>, merged: seq<set<V>>, picked: seq<int>, k: nat)
    requires k < |copy| == |flags| && !flags[k] && |merged| == |picked|
    requires forall t :: 0 <= t < |picked| ==> 0 <= picked[t] < k && !flags[picked[t]] && merged[t] == copy[picked[t]]
    requires forall t, u :: 0 <= t < u < |picked| ==> picked[t] < picked[u]
    requires forall l :: 0 <= l < k && !flags[l] ==> l in picked
    ensures var merged', picked' := merged + [copy[k]], picked + [k];
      && (forall t :: 0 <= t < |picked'| ==> 0 <= picked'[t] < k + 1 && !flags[picked'[t]] && merged'[t] == copy[picked'[t]])
      && (forall t, u :: 0 <= t < u < |picked'| ==> picked'[t] < picked'[u])
      && (forall l :: 0 <= l < k + 1 && !flags[l] ==> l in picked')
  {
    var picked' := picked + [k];
    forall l | 0 <= l < k + 1 && !flags[l] ensures l in picked' {
      if l < k {
        assert l in picked;
      } else {
        assert picked'[|picked|] == l;
      }
    }
  }

  lemma SkipFlagged<V>(copy: seq<set<V>>, flags: seq<bool>, merged: seq<set<V>>, picked: seq<int>, k: nat)
    requires k < |copy| == |flags| && flags[k]
    requires CollectedSurvivors(copy, flags, merged, picked, k)
    ensures CollectedSurvivors(copy, flags, merged, picked, k + 1)
  {
  }

  /** The body of the inner `if`: `copy[i]` takes in `copy[j]`, which is
      flagged as consolidated. */
  method Absorb<V(==)>(copy: array<set<V>>, consolidated: array<bool>, i: nat, j: nat)
    modifies copy, consolidated
    requires i < j < copy.Length == consolidated.Length
    ensures copy[..] == old(copy[..])[i := old(copy[i]) + old(copy[j])]
    ensures consolidated[..] == old(consolidated[..])[j := true]
  {
    copy[i] := copy[i] + copy[j];
    consolidated[j] := true;
  }

  /** One run of the inner `for` loop over `j` in `i + 1 until size`: every
      later set not yet consolidated that meets `copy[i]` is absorbed;
      `intersects` counts them. */
  method MergePass<V(==)>(ghost sets: seq<set<V>>, copy: array<set<V>>, consolidated: array<bool>, i: nat,
                          ghost owner: seq<int>, ghost paths: seq<seq<int>>)
    returns (intersects: nat, ghost owner': seq<int>, ghost paths': seq<seq<int>>)
    modifies copy, consolidated
    requires MergeState(sets, copy[..], consolidated[..], owner, paths, i, i + 1)
    requires i < |sets| && !consolidated[i]
    ensures MergeState(sets, copy[..], consolidated[..], owner', paths', i, i + 1)
    ensures !consolidated[i]
    ensures CountFalse(consolidated[..]) + intersects == CountFalse(old(consolidated[..]))
    ensures intersects == 0 ==> MeetsNoLater(copy[..], consolidated[..], i, |sets|)
  {
    intersects := 0;
    owner', paths' := owner, paths;
    for j := i + 1 to copy.Length
      invariant |sets| == copy.Length == consolidated.Length
      invariant MergeState(sets, copy[..], consolidated[..], owner', paths', i, i + 1)
      invariant !consolidated[i]
      invariant CountFalse(consolidated[..]) + intersects == CountFalse(old(consolidated[..]))
      invariant intersects == 0 ==> MeetsNoLater(copy[..], consolidated[..], i, j)
    {
      intersects, owner', paths' := PassStep(sets, copy, consolidated, i, j, owner', paths', intersects);
    }
  }

  /** `copy[i]` meets no surviving set after it and before `upTo`. */
  ghost predicate MeetsNoLater<V>(copy: seq<set<V>>, flags: seq<bool>, i: nat, upTo: nat)
  {
    forall l :: i < l < upTo && l < |copy| && l < |flags| && i < |copy| && !flags[l] ==> copy[i] * copy[l] == {}
  }

  lemma MeetsNoLaterStep<V>(copy: seq<set<V>>, flags: seq<bool>, i: nat, j: nat)
    requires i < j < |copy| == |flags| && MeetsNoLater(copy, flags, i, j)
    requires flags[j] || copy[i] * copy[j] == {}
    ensures MeetsNoLater(copy, flags, i, j + 1)
  {
  }

  /** The body of the inner loop for position `j`. */
  method PassStep<V(==)>(ghost sets: seq<set<V>>, copy: array<set<V>>, consolidated: array<bool>, i: nat, j: nat,
                         ghost owner: seq<int>, ghost paths: seq<seq<int>>, intersects: nat)
    returns (intersects': nat, ghost owner': seq<int>, ghost paths': seq<seq<int>>)
    modifies copy, consolidated
    requires i < j < |sets| == copy.Length == consolidated.Length
    requires MergeState(sets, copy[..], consolidated[..], owner, paths, i, i + 1) && !consolidated[i]
    requires intersects == 0 ==> MeetsNoLater(copy[..], consolidated[..], i, j)
    ensures MergeState(sets, copy[..], consolidated[..], owner', paths', i, i + 1) && !consolidated[i]
    ensures CountFalse(consolidated[..]) + intersects' == CountFalse(old(consolidated[..])) + intersects
    ensures intersects' == 0 ==> MeetsNoLater(copy[..], consolidated[..], i, j + 1)
    ensures old(consolidated[j]) || old(copy[i]) * old(copy[j]) == {} ==>
              copy[..] == old(copy[..]) && consolidated[..] == old(consolidated[..]) && intersects' == intersects
    ensures !old(consolidated[j]) && old(copy[i]) * old(copy[j]) != {} ==>
              && copy[..] == old(copy[..])[i := old(copy[i]) + old(copy[j])]
              && consolidated[..] == old(consolidated[..])[j := true]
              && intersects' == intersects + 1
  {
    if consolidated[j] || copy[i] * copy[j] == {} {
      intersects', owner', paths' := intersects, owner, paths;
      if intersects == 0 {
        MeetsNoLaterStep(copy[..], consolidated[..], i, j);
      }
    } else {
      owner', paths' := AbsorbInto(sets, copy, consolidated, i, j, owner, paths);
      intersects' := intersects + 1;
      assert intersects' != 0;
    }
  }

  /** `copy[i]` absorbs the meeting set `copy[j]`, keeping the loop's state. */
  method AbsorbInto<V(==)>(ghost sets: seq<set<V>>, copy: array<set<V>>, consolidated: array<bool>, i: nat, j: nat,
                           ghost owner: seq<int>, ghost paths: seq<seq<int>>)
    returns (ghost owner': seq<int>, ghost paths': seq<seq<int>>)
    modifies copy, consolidated
    requires i < j < |sets| == copy.Length == consolidated.Length
    requires MergeState(sets, copy[..], consolidated[..], owner, paths, i, i + 1)
    requires !consolidated[i] && !consolidated[j] && copy[i] * copy[j] != {}
    ensures MergeState(sets, copy[..], consolidated[..], owner', paths', i, i + 1) && !consolidated[i]
    ensures CountFalse(consolidated[..]) + 1 == CountFalse(old(consolidated[..]))
    ensures copy[..] == old(copy[..])[i := old(copy[i]) + old(copy[j])]
    ensures consolidated[..] == old(consolidated[..])[j := true]
  {
    ghost var c, f := copy[..], consolidated[..];
    owner', paths' := AbsorbStep(sets, c, f, owner, paths, i, j);
    Absorb(copy, consolidated, i, j);
    assert copy[..] == c[i := c[i] + c[j]] && consolidated[..] == f[j := true];
  }

  /** One iteration of the outer loop: unless position `i` is already
      consolidated, passes are repeated until one absorbs nothing. */
  method ConsolidateAt<V(==)>(ghost sets: seq<set<V>>, copy: array<set<V>>, consolidated: array<bool>, i: nat,
                              ghost owner: seq<int>, ghost paths: seq<seq<int>>)
    returns (ghost owner': seq<int>, ghost paths': seq<seq<int>>)
    modifies copy, consolidated
    requires MergeState(sets, copy[..], consolidated[..], owner, paths, i, i)
    requires i < |sets|
    ensures MergeState(sets, copy[..], consolidated[..], owner', paths', i + 1, i + 1)
  {
    owner', paths' := owner, paths;
    ghost var c, f := copy[..], consolidated[..];
    if !consolidated[i] {
      while true
        invariant copy[..] == c && consolidated[..] == f
        invariant MergeState(sets, c, f, owner', paths', i, i + 1)
        invariant !f[i]
        decreases CountFalse(f)
      {
        var intersects;
        intersects, owner', paths' := MergePass(sets, copy, consolidated, i, owner', paths');
        c, f := copy[..], consolidated[..];
        if intersects == 0 {
          break;
        }
      }
    }
    FinishStep(sets, c, f, owner', paths', i);
  }

  /** The closing expression of `transitiveMerge`: the sets at the positions
      not consolidated, in position order, collected into a set. */
  method CollectSurvivors<V(==)>(ghost sets: seq<set<V>>, copy: array<set<V>>, consolidated: array<bool>,
                                 ghost owner: seq<int>, ghost paths: seq<seq<int>>, ghost i: nat)
    returns (merged: seq<set<V>>)
    requires Distinct(sets)
    requires MergeState(sets, copy[..], consolidated[..], owner, paths, i, i) && i + 1 >= |sets|
    ensures IsConsolidation(sets, merged)
    ensures |merged| <= |sets|
  {
    ghost var c, f := copy[..], consolidated[..];
    FinishedSurvivorsDiffer(sets, c, f, owner, i);
    merged := [];
    ghost var picked: seq<int> := [];
    for k := 0 to copy.Length
      invariant CollectedSurvivors(c, f, merged, picked, k)
    {
      if !consolidated[k] {
        SurvivorIsNew(c, f, merged, picked, k);
        merged := Add(merged, copy[k]);
        picked := picked + [k];
      } else {
        SkipFlagged(c, f, merged, picked, k);
      }
    }
    FinalState(sets, c, f, owner, paths, i, merged, picked);
  }

  /** `transitiveMerge`. For every position `i` not yet consolidated, passes
      over the later positions are repeated, each folding every meeting set
      into `copy[i]` and flagging it, until a pass folds nothing. The result
      is the set of the unflagged entries. */
  method TransitiveMerge<V(==)>(sets: seq<set<V>>) returns (merged: seq<set<V>>)
    requires Distinct(sets)
    ensures IsConsolidation(sets, merged)
    ensures |merged| <= |sets|
  {
    var size := |sets|;
    var copy := new set<V>[size](k requires 0 <= k < size => sets[k]);
    var consolidated := new bool[size](_ => false);
    ghost var owner: seq<int> := seq(size, k => k);
    ghost var paths: seq<seq<int>> := seq(size, k => [k]);
    InitialState(sets);
    assert copy[..] == sets;
    assert consolidated[..] == seq(size, _ => false);
    var i := 0;
    while i < size - 1
      invariant 0 <= i <= size && (size > 0 ==> i < size)
      invariant MergeState(sets, copy[..], consolidated[..], owner, paths, i, i)
    {
      owner, paths := ConsolidateAt(sets, copy, consolidated, i, owner, paths);
      i := i + 1;
    }
    merged := CollectSurvivors(sets, copy, consolidated, owner, paths, i);
  }
}
