/** Groups in which every shader has one place. */
module ShaderPartition {
  import opened ShaderGroups

  /** No shader has two places. */
  ghost predicate Disjoint(groups: seq<seq<nat>>) {
    forall k, i, l, j ::
      0 <= k < |groups| && 0 <= i < |groups[k]| && 0 <= l < |groups| && 0 <= j < |groups[l]| &&
      groups[k][i] == groups[l][j] ==>
      k == l && i == j
  }

  lemma {:induction false} AllOfAtLeast(groups: seq<seq<nat>>, k: nat, s: nat)
    requires k < |groups|
    ensures AllOf(groups)[s] >= multiset(groups[k])[s]
  {
    if k < |groups| - 1 {
      AllOfAtLeast(groups[..|groups| - 1], k, s);
    }
  }

  lemma {:induction false} AllOfBoth(groups: seq<seq<nat>>, k: nat, l: nat, s: nat)
    requires k < l < |groups|
    ensures AllOf(groups)[s] >= multiset(groups[k])[s] + multiset(groups[l])[s]
  {
    if l < |groups| - 1 {
      AllOfBoth(groups[..|groups| - 1], k, l, s);
    } else {
      AllOfAtLeast(groups[..|groups| - 1], k, s);
    }
  }

  lemma {:induction false} NumbersOnce(n: nat, s: nat)
    ensures multiset(Numbers(n))[s] <= 1
  {
    if n > 0 {
      NumbersOnce(n - 1, s);
      assert Numbers(n) == Numbers(n - 1) + [n - 1];
      if s == n - 1 {
        assert s !in Numbers(n - 1);
      }
    }
  }

  lemma {:induction false} TwiceInSequence(g: seq<nat>, i: nat, j: nat)
    requires i < j < |g| && g[i] == g[j]
    ensures multiset(g)[g[i]] >= 2
  {
    assert g == g[..j] + g[j..];
    assert g[..j][i] == g[i] && g[j..][0] == g[i];
    assert g[i] in multiset(g[..j]) && g[i] in multiset(g[j..]);
  }

  /** Groups that hold every shader once give every shader one place. */
  lemma {:induction false} PartitionDisjoint(groups: seq<seq<nat>>, n: nat)
    requires AllOf(groups) == multiset(Numbers(n))
    ensures Disjoint(groups)
  {
    forall k, i, l, j | 0 <= k < |groups| && 0 <= i < |groups[k]| && 0 <= l < |groups| && 0 <= j < |groups[l]| &&
      groups[k][i] == groups[l][j]
      ensures k == l && i == j
    {
      var s := groups[k][i];
      NumbersOnce(n, s);
      assert s in multiset(groups[k]) && s in multiset(groups[l]);
      if k < l {
        AllOfBoth(groups, k, l, s);
      } else if l < k {
        AllOfBoth(groups, l, k, s);
      } else {
        AllOfAtLeast(groups, k, s);
        if i < j {
          TwiceInSequence(groups[k], i, j);
        } else if j < i {
          TwiceInSequence(groups[k], j, i);
        }
      }
    }
  }

  /** The group that a shader is in. */
  lemma {:induction false} OneGroup(groups: seq<seq<nat>>, n: nat, k: nat, l: nat, s: nat)
    requires AllOf(groups) == multiset(Numbers(n)) && k < |groups| && l < |groups| && s in groups[k] && s in groups[l]
    ensures k == l
  {
    PartitionDisjoint(groups, n);
    var i :| 0 <= i < |groups[k]| && groups[k][i] == s;
    var j :| 0 <= j < |groups[l]| && groups[l][j] == s;
  }
}
