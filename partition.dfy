/**
  The account partition performed by `main` (main.py): the account list is cut
  into min(THREADS, n) contiguous groups; every group gets n / T accounts and
  the first n % T groups get one more.
 */
module Partition {

  /** The thread count `main` settles on: THREADS, lowered to the number of accounts. */
  function WorkerCount(threads: nat, n: nat): nat
  {
    if threads > n then n else threads
  }

  /** The size `main` gives to group `i` of `t`, for `n` accounts. */
  function GroupSize(n: nat, t: nat, i: nat): nat
    requires t > 0
  {
    n / t + (if i < n % t then 1 else 0)
  }

  /** Where group `i` starts: the sizes of the groups before it, added up. */
  function GroupStart(n: nat, t: nat, i: nat): nat
    requires t > 0
  {
    if i == 0 then 0 else GroupStart(n, t, i - 1) + GroupSize(n, t, i - 1)
  }

  /** The groups laid end to end, in order. */
  function Concat<T>(groups: seq<seq<T>>): seq<T>
  {
    if groups == [] then [] else Concat(groups[..|groups| - 1]) + groups[|groups| - 1]
  }

  lemma {:induction false} GroupStartClosedForm(n: nat, t: nat, i: nat)
    requires t > 0
    requires i <= t
    ensures GroupStart(n, t, i) == i * (n / t) + (if i < n % t then i else n % t)
  {
    if i > 0 {
      GroupStartClosedForm(n, t, i - 1);
    }
  }

  /** The group sizes add up to the number of accounts. */
  lemma SizesSumToTotal(n: nat, t: nat)
    requires t > 0
    ensures GroupStart(n, t, t) == n
  {
    GroupStartClosedForm(n, t, t);
  }

  lemma {:induction false} GroupStartMonotone(n: nat, t: nat, i: nat, j: nat)
    requires t > 0
    requires i <= j
    ensures GroupStart(n, t, i) <= GroupStart(n, t, j)
  {
    if i < j {
      GroupStartMonotone(n, t, i, j - 1);
    }
  }

  /** Every group of the split lies inside the account list. */
  lemma GroupWithinAccounts(n: nat, t: nat, i: nat)
    requires t > 0
    requires i < t
    ensures GroupStart(n, t, i + 1) <= n
  {
    GroupStartMonotone(n, t, i + 1, t);
    SizesSumToTotal(n, t);
  }

  /** Any two groups differ in size by at most one, and earlier groups are never smaller. */
  lemma SizesBalanced(n: nat, t: nat, i: nat, j: nat)
    requires t > 0
    requires i <= j < t
    ensures GroupSize(n, t, j) <= GroupSize(n, t, i) <= GroupSize(n, t, j) + 1
  {
  }

  /** With no more groups than accounts, no group is empty. */
  lemma {:induction false} GroupsNonEmpty(n: nat, t: nat, i: nat)
    requires 0 < t <= n
    ensures GroupSize(n, t, i) >= 1
  {
    assert t * (n / t) + n % t == n;
  }

  lemma FiveAccountsTwoThreads()
    ensures WorkerCount(2, 5) == 2
    ensures GroupSize(5, 2, 0) == 3 && GroupSize(5, 2, 1) == 2
  {
  }

  /**
    The partition loop of `main`. Python's slice `accounts[start:end]` never
    clips here, since every `end` is at most `n`.
   */
  method Split<T>(accounts: seq<T>, threads: nat) returns (groups: seq<seq<T>>)
    requires |accounts| >= 1
    requires threads >= 1
    ensures |groups| == WorkerCount(threads, |accounts|)
    ensures |groups| == threads || |groups| == |accounts|
    ensures |groups| <= threads && |groups| <= |accounts|
    ensures forall i :: 0 <= i < |groups| ==> |groups[i]| == GroupSize(|accounts|, |groups|, i)
    ensures Concat(groups) == accounts
  {
    var t := WorkerCount(threads, |accounts|);
    var total := |accounts|;
    var groupSize := total / t;
    var remainder := total % t;
    groups := [];
    var start := 0;
    for i := 0 to t
      invariant |groups| == i
      invariant start == GroupStart(total, t, i)
      invariant start <= total
      invariant Concat(groups) == accounts[..start]
      invariant forall k :: 0 <= k < i ==> |groups[k]| == GroupSize(total, t, k)
    {
      var end := start + groupSize + (if i < remainder then 1 else 0);
      GroupWithinAccounts(total, t, i);
      var group := accounts[start..end];
      assert (groups + [group])[..i] == groups;
      assert accounts[..end] == accounts[..start] + group;
      groups := groups + [group];
      start := end;
    }
    SizesSumToTotal(total, t);
    assert accounts[..start] == accounts;
  }
}
