/** `GitBranchService`: the branch lists offered by the pull-request
    dialog.  The IDE's repository manager is replaced by the value it
    gives: the repositories, or a failure standing for an exception. */
module GitBranchService {
  import opened Wrappers
  import opened Text
  import Sorting

  /** What the dialog reads from one repository: local branch names, the
      remote branches' `nameForRemoteOperations`, and the current branch. */
  datatype Repository = Repository(localBranches: seq<string>, remoteBranches: seq<string>, currentBranchName: Option<string>)

  /** The repository manager's answer. */
  datatype Repositories = Threw | Listed(repositories: seq<Repository>)

  /** Branch names sort as strings. */
  function Name(b: string): string { b }

  /** How often `x` occurs in the merged list: as often as in the local
      list if it is local, once if it is only remote, else never. */
  function MergedCount(locals: seq<string>, remotes: seq<string>, x: string): nat {
    if x in locals then multiset(locals)[x] else if x in remotes then 1 else 0
  }

  /** The loop of `getAllBranchesFromRepo` before sorting: every local
      branch, then each remote name the list does not hold yet. */
  method MergeBranches(locals: seq<string>, remotes: seq<string>) returns (r: seq<string>)
    ensures |r| >= |locals| && r[..|locals|] == locals
    ensures forall x :: multiset(r)[x] == MergedCount(locals, remotes, x)
  {
    r := locals;
    var i := 0;
    while i < |remotes|
      invariant 0 <= i <= |remotes|
      invariant |r| >= |locals| && r[..|locals|] == locals
      invariant forall x :: multiset(r)[x] == MergedCount(locals, remotes[..i], x)
    {
      var name := remotes[i];
      assert remotes[..i + 1] == remotes[..i] + [name];
      if name !in r {
        assert multiset(r)[name] == 0;
        r := r + [name];
      } else {
        assert multiset(r)[name] > 0;
      }
      i := i + 1;
    }
    assert remotes[..i] == remotes;
  }

  /** `getAllBranchesFromRepo`: the merged names, sorted. */
  method AllBranchesFromRepo(repo: Repository) returns (r: seq<string>)
    ensures Sorting.Sorted(r, Name)
    ensures forall x :: multiset(r)[x] == MergedCount(repo.localBranches, repo.remoteBranches, x)
  {
    var merged := MergeBranches(repo.localBranches, repo.remoteBranches);
    Sorting.SortBySorted(merged, Name);
    r := Sorting.SortBy(merged, Name);
  }

  /** `getRemoteBranchesFromRepo`: every remote name, sorted, duplicates
      kept. */
  function RemoteBranchesFromRepo(repo: Repository): (r: seq<string>)
    ensures Sorting.Sorted(r, Name)
    ensures multiset(r) == multiset(repo.remoteBranches)
  {
    Sorting.SortBySorted(repo.remoteBranches, Name);
    Sorting.SortBy(repo.remoteBranches, Name)
  }

  /** `getAllBranches`: the first repository's branches; none when there
      is no repository or the manager threw. */
  method AllBranches(env: Repositories) returns (r: seq<string>)
    ensures r == [] <== env.Threw? || |env.repositories| == 0
    ensures env.Listed? && |env.repositories| > 0 ==>
      forall x :: multiset(r)[x] == MergedCount(env.repositories[0].localBranches, env.repositories[0].remoteBranches, x)
    ensures Sorting.Sorted(r, Name)
  {
    if env.Threw? || |env.repositories| == 0 {
      r := [];
    } else {
      r := AllBranchesFromRepo(env.repositories[0]);
    }
  }

  /** `getRemoteBranches` */
  function RemoteBranches(env: Repositories): (r: seq<string>)
    ensures env.Threw? || |env.repositories| == 0 ==> r == []
    ensures env.Listed? && |env.repositories| > 0 ==> multiset(r) == multiset(env.repositories[0].remoteBranches)
    ensures Sorting.Sorted(r, Name)
  {
    if env.Threw? || |env.repositories| == 0 then [] else RemoteBranchesFromRepo(env.repositories[0])
  }

  /** `getCurrentBranch`: the first repository's current branch, `""` when
      it has none (a detached head) or there is no repository. */
  function CurrentBranch(env: Repositories): (r: string)
    ensures r != "" ==> env.Listed? && |env.repositories| > 0 && env.repositories[0].currentBranchName == Some(r)
    ensures env.Listed? && |env.repositories| > 0 && env.repositories[0].currentBranchName.Some? ==>
      r == env.repositories[0].currentBranchName.value
  {
    if env.Threw? || |env.repositories| == 0 then "" else env.repositories[0].currentBranchName.GetOr("")
  }

  // ---------------------------------------------------------------------
  // Properties

  lemma DistinctCounts(s: seq<string>)
    requires forall x :: multiset(s)[x] <= 1
    ensures Sorting.DistinctBy(s, Name)
  {
    forall i, j | 0 <= i < j < |s| ensures s[i] != s[j] {
      if s[i] == s[j] {
        TwoOccurrences(s, i, j);
      }
    }
  }

  lemma TwoOccurrences(s: seq<string>, i: nat, j: nat)
    requires i < j < |s| && s[i] == s[j]
    ensures multiset(s)[s[i]] >= 2
  {
    assert s == s[..i] + [s[i]] + s[i + 1..j] + [s[j]] + s[j + 1..];
  }

  lemma CountsOfDistinct(s: seq<string>, x: string)
    requires Sorting.DistinctBy(s, Name)
    ensures multiset(s)[x] <= 1
    decreases |s|
  {
    if |s| > 0 {
      assert s == [s[0]] + s[1..];
      assert Sorting.DistinctBy(s[1..], Name) by {
        forall i, j | 0 <= i < j < |s[1..]| ensures s[1..][i] != s[1..][j] {
          assert s[1..][i] == s[i + 1] && s[1..][j] == s[j + 1];
        }
      }
      CountsOfDistinct(s[1..], x);
      if x == s[0] {
        assert x !in s[1..];
      }
    }
  }

  /** With distinct local names, the merged and sorted list names every
      local and remote branch exactly once: a remote branch that is also
      local is not listed twice, nor one that two remotes share. */
  lemma AllBranchesOnce(repo: Repository, r: seq<string>)
    requires Sorting.DistinctBy(repo.localBranches, Name)
    requires forall x :: multiset(r)[x] == MergedCount(repo.localBranches, repo.remoteBranches, x)
    ensures Sorting.DistinctBy(r, Name)
    ensures forall x :: x in r <==> x in repo.localBranches || x in repo.remoteBranches
  {
    forall x ensures multiset(r)[x] <= 1 {
      CountsOfDistinct(repo.localBranches, x);
    }
    DistinctCounts(r);
    forall x ensures x in r <==> x in repo.localBranches || x in repo.remoteBranches {
      assert x in r <==> multiset(r)[x] > 0;
      assert x in repo.localBranches <==> multiset(repo.localBranches)[x] > 0;
    }
  }

  /** The merged list before sorting keeps the local branches in order at
      its front, then adds only remote names. */
  lemma MergeAddsRemotes(locals: seq<string>, remotes: seq<string>, r: seq<string>)
    requires |r| >= |locals| && r[..|locals|] == locals
    requires forall x :: multiset(r)[x] == MergedCount(locals, remotes, x)
    ensures forall k :: |locals| <= k < |r| ==> r[k] in remotes && r[k] !in locals
  {
    forall k | |locals| <= k < |r| ensures r[k] in remotes && r[k] !in locals {
      var x := r[k];
      assert r == locals + r[|locals|..];
      assert x in r[|locals|..] by { assert r[|locals|..][k - |locals|] == x; }
      assert multiset(r)[x] == multiset(locals)[x] + multiset(r[|locals|..])[x];
      assert multiset(r)[x] > multiset(locals)[x];
    }
  }
}
