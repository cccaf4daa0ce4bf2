/**
 * The namespace descriptor set: the fixed list of namespace kinds, the paths the
 * holder opens, and the slot-by-slot effect of the open loop and of close_nsfds.
 */
module Namespaces {
  import opened Wire

  /** The directory holding the running process's namespace links. */
  const NsPathPrefix: string := "/proc/self/ns/"

  /** The namespace kinds in slot order; the order is also the wire order. */
  const NsTypes: seq<string> := ["ipc", "mnt", "net", "pid", "user", "uts"]

  /** Each kind is stored in a char array sized for the longest entry, "user", and its terminator. */
  const NsTypeCapacity: nat := |"user"| + 1

  /** The holder's path buffer: CountOf(ns_path) + CountOf(ns_types[0]), both counting a terminator. */
  const PathCapacity: nat := (|NsPathPrefix| + 1) + NsTypeCapacity

  /** The path the holder opens for one slot (strcpy of the prefix, then strcat of the kind). */
  function NsPath(slot: nat): (p: string)
    requires slot < NsCount
    ensures |p| + 1 <= PathCapacity
    ensures |NsTypes[slot]| + 1 <= NsTypeCapacity
  {
    NsPathPrefix + NsTypes[slot]
  }

  /** Different slots open different files. */
  lemma NsPathsDistinct(i: nat, j: nat)
    requires i < NsCount && j < NsCount && i != j
    ensures NsPath(i) != NsPath(j)
  {
    var n := |NsPathPrefix|;
    assert NsPath(i)[n..] == NsTypes[i];
    assert NsPath(j)[n..] == NsTypes[j];
  }

  /** The slots all absent, as main leaves them before running a mode. */
  predicate AllAbsent(slots: seq<int>)
  {
    forall i :: 0 <= i < |slots| ==> slots[i] == Absent
  }

  // ---------------------------------------------------------------------------
  // close_nsfds

  /** The indices, in increasing order, of the non-absent slots among the first n: the slots close_nsfds calls close on. */
  function Attempted(slots: seq<int>, n: nat): seq<nat>
    requires n <= |slots|
  {
    if n == 0 then []
    else Attempted(slots, n - 1) + (if slots[n - 1] != Absent then [n - 1] else [])
  }

  /** Attempted lists exactly the non-absent slots among the first n, in increasing order. */
  lemma {:induction false} AttemptedExactly(slots: seq<int>, n: nat)
    requires n <= |slots|
    ensures var r := Attempted(slots, n);
      (forall k :: 0 <= k < |r| ==> r[k] < n && slots[r[k]] != Absent) &&
      (forall i :: 0 <= i < n && slots[i] != Absent ==> i in r) &&
      (forall k, l :: 0 <= k < l < |r| ==> r[k] < r[l])
  {
    if n > 0 {
      AttemptedExactly(slots, n - 1);
    }
  }

  /**
   * The slots after one close pass, where closeRvs[i] is what close returned for slot i:
   * a slot becomes absent exactly when it held a descriptor and its close returned 0.
   */
  function AfterClose(slots: seq<int>, closeRvs: seq<int>): (r: seq<int>)
    requires |closeRvs| == |slots|
    ensures |r| == |slots|
  {
    seq(|slots|, i requires 0 <= i < |slots| =>
      if slots[i] != Absent && closeRvs[i] == 0 then Absent else slots[i])
  }

  /** No attempted close failed: close_nsfds then reports success. */
  predicate AllClosed(slots: seq<int>, closeRvs: seq<int>)
    requires |closeRvs| == |slots|
  {
    forall i :: 0 <= i < |slots| && slots[i] != Absent ==> closeRvs[i] == 0
  }

  /** A pass changes only attempted slots, and each of them becomes absent or keeps its descriptor. */
  lemma CloseTouchesOnlyAttempted(slots: seq<int>, closeRvs: seq<int>, i: nat)
    requires |closeRvs| == |slots| && i < |slots|
    ensures AfterClose(slots, closeRvs)[i] != slots[i] <==> i in Attempted(slots, |slots|) && closeRvs[i] == 0
    ensures AfterClose(slots, closeRvs)[i] == Absent || AfterClose(slots, closeRvs)[i] == slots[i]
  {
    AttemptedExactly(slots, |slots|);
  }

  /** After a pass in which every close succeeded, nothing is left open. */
  lemma CloseAllLeavesNothingOpen(slots: seq<int>, closeRvs: seq<int>)
    requires |closeRvs| == |slots| && AllClosed(slots, closeRvs)
    ensures AllAbsent(AfterClose(slots, closeRvs))
  {
  }

  /** close_nsfds attempts no slot of an all-absent array. */
  lemma {:induction false} AttemptedNoneWhenAbsent(slots: seq<int>, n: nat)
    requires n <= |slots| && AllAbsent(slots)
    ensures Attempted(slots, n) == []
  {
    if n > 0 {
      AttemptedNoneWhenAbsent(slots, n - 1);
    }
  }

  /** A pass over all-absent slots attempts nothing, changes nothing and succeeds. */
  lemma CloseOverAbsent(slots: seq<int>, closeRvs: seq<int>)
    requires |closeRvs| == |slots| && AllAbsent(slots)
    ensures Attempted(slots, |slots|) == []
    ensures AfterClose(slots, closeRvs) == slots
    ensures AllClosed(slots, closeRvs)
  {
    AttemptedNoneWhenAbsent(slots, |slots|);
  }

  /**
   * Idempotence: after a pass in which every close succeeded, a second pass attempts
   * nothing, changes nothing and succeeds, whatever close would have returned.
   */
  lemma CloseIdempotent(slots: seq<int>, closeRvs: seq<int>, againRvs: seq<int>)
    requires |closeRvs| == |slots| && |againRvs| == |slots|
    requires AllClosed(slots, closeRvs)
    ensures Attempted(AfterClose(slots, closeRvs), |slots|) == []
    ensures AfterClose(AfterClose(slots, closeRvs), againRvs) == AfterClose(slots, closeRvs)
    ensures AllClosed(AfterClose(slots, closeRvs), againRvs)
  {
    CloseAllLeavesNothingOpen(slots, closeRvs);
    CloseOverAbsent(AfterClose(slots, closeRvs), againRvs);
  }

  /** A second pass attempts exactly the slots whose close failed in the first. */
  lemma CloseRetriesOnlyFailures(slots: seq<int>, closeRvs: seq<int>, i: nat)
    requires |closeRvs| == |slots| && i < |slots|
    ensures i in Attempted(AfterClose(slots, closeRvs), |slots|) <==> i in Attempted(slots, |slots|) && closeRvs[i] != 0
  {
    var once := AfterClose(slots, closeRvs);
    AttemptedExactly(once, |slots|);
    AttemptedExactly(slots, |slots|);
    var r := Attempted(once, |slots|);
    if i in r {
      var k :| 0 <= k < |r| && r[k] == i;
    }
    var r0 := Attempted(slots, |slots|);
    if i in r0 {
      var k :| 0 <= k < |r0| && r0[k] == i;
    }
  }

  // ---------------------------------------------------------------------------
  // The holder's open loop

  /** The index of the first open that returned -1, or the number of outcomes when none did. */
  function FirstFailure(openRvs: seq<int>): (k: nat)
    ensures k <= |openRvs|
    ensures forall j :: 0 <= j < k ==> openRvs[j] != Absent
    ensures k < |openRvs| ==> openRvs[k] == Absent
  {
    if openRvs == [] then 0
    else if openRvs[0] == Absent then 0
    else 1 + FirstFailure(openRvs[1..])
  }

  /**
   * The slots after the open loop, where openRvs[i] is what open returned for slot i:
   * every slot up to and including the first failure stores open's result; later slots are untouched.
   */
  function AfterOpen(slots: seq<int>, openRvs: seq<int>): (r: seq<int>)
    requires |openRvs| == |slots|
    ensures |r| == |slots|
  {
    seq(|slots|, i requires 0 <= i < |slots| =>
      if i <= FirstFailure(openRvs) then openRvs[i] else slots[i])
  }

  /**
   * From the initial all-absent state the open loop fills slots 0..k-1 with open
   * descriptors, where k is the first failing slot, and leaves k and every later slot absent.
   */
  lemma OpenFromEmpty(slots: seq<int>, openRvs: seq<int>)
    requires |openRvs| == |slots| && AllAbsent(slots)
    ensures var k := FirstFailure(openRvs);
      forall i :: 0 <= i < |slots| ==>
        (i < k ==> AfterOpen(slots, openRvs)[i] == openRvs[i] != Absent) &&
        (i >= k ==> AfterOpen(slots, openRvs)[i] == Absent)
  {
  }
}
