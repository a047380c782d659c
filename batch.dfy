/**
  The sequential batches whose per-item status is a plain string: the
  delete loop of the apps menu (`appsDeleting`) and the install loop that
  ends the setup wizard (`appsInstalling`). Each item is first marked as
  pending, then one remote call is awaited; a resolved call marks it
  succeeded or failed by the truthiness of the resolved value, and a
  rejected call throws out of the loop, ending the batch there.
*/
module Batch {
  import opened Options
  import opened OrderedDict

  /** How one awaited remote call settles. */
  datatype Call = Resolved(truthy: bool) | Rejected

  /** The three status strings of a batch. */
  datatype Labels = Labels(pending: string, succeeded: string, failed: string)

  /** The status dictionary, and whether a rejection ended the loop. */
  datatype Run = Run(statuses: Dict<string>, aborted: bool)

  predicate WellFormed(l: Labels)
  {
    l.succeeded != l.pending && l.succeeded != l.failed
  }

  /** The batch over the items in list order, as a left fold. */
  function Batch(names: seq<string>, calls: seq<Call>, l: Labels): Run
    requires |calls| == |names|
  {
    if names == [] then Run([], false)
    else
      var n := |names| - 1;
      var prev := Batch(names[..n], calls[..n], l);
      if prev.aborted then prev
      else
        var d := Put(prev.statuses, names[n], l.pending);
        match calls[n]
        case Rejected => Run(d, true)
        case Resolved(t) => Run(Put(d, names[n], if t then l.succeeded else l.failed), false)
  }

  /** The number of entries, and the number equal to the success string.
      The delete screen prints this pair as its count line; the setup loop
      prints no count, so there it only describes the final statuses. */
  function Tally(statuses: Dict<string>, l: Labels): (nat, nat)
  {
    (|statuses|, CountValues(statuses, Succeeded(l)))
  }

  /** Whether a status is the success string. */
  function Succeeded(l: Labels): string -> bool
  {
    s => s == l.succeeded
  }

  /** The number of calls that resolved truthy. */
  function TruthyCount(calls: seq<Call>): nat
  {
    if calls == [] then 0
    else (if calls[0] == Resolved(true) then 1 else 0) + TruthyCount(calls[1..])
  }

  lemma {:induction false} AbortSticks(names: seq<string>, calls: seq<Call>, l: Labels, k: nat)
    requires |calls| == |names| && k <= |names|
    requires Batch(names[..k], calls[..k], l).aborted
    ensures Batch(names, calls, l) == Batch(names[..k], calls[..k], l)
    decreases |names| - k
  {
    if k < |names| {
      var n := |names| - 1;
      assert names[..n][..k] == names[..k] && calls[..n][..k] == calls[..k];
      AbortSticks(names[..n], calls[..n], l, k);
      var prev := Batch(names[..n], calls[..n], l);
      assert prev.aborted;
      assert Batch(names, calls, l) == prev;
    } else {
      assert names[..k] == names && calls[..k] == calls;
    }
  }

  /** The loop as the source writes it, ending early when a call rejects. */
  method RunBatch(names: seq<string>, calls: seq<Call>, l: Labels)
      returns (statuses: Dict<string>, aborted: bool)
    requires |calls| == |names|
    ensures Run(statuses, aborted) == Batch(names, calls, l)
  {
    statuses, aborted := [], false;
    var i := 0;
    while i < |names| && !aborted
      invariant 0 <= i <= |names|
      invariant Run(statuses, aborted) == Batch(names[..i], calls[..i], l)
    {
      assert names[..i + 1][..i] == names[..i] && calls[..i + 1][..i] == calls[..i];
      statuses := Put(statuses, names[i], l.pending);
      match calls[i] {
      case Rejected =>
        aborted := true;
      case Resolved(t) =>
        statuses := Put(statuses, names[i], if t then l.succeeded else l.failed);
      }
      i := i + 1;
    }
    if aborted {
      AbortSticks(names, calls, l, i);
    } else {
      assert names[..i] == names && calls[..i] == calls;
    }
  }

  /** When no call rejects and the names are distinct, every item is
      processed, in list order, and ends succeeded exactly when its call
      resolved truthy: one failure never stops the items after it. */
  lemma {:induction false} BatchSettlesEveryItem(names: seq<string>, calls: seq<Call>, l: Labels)
    requires |calls| == |names| && Distinct(names)
    requires forall i :: 0 <= i < |calls| ==> calls[i].Resolved?
    ensures !Batch(names, calls, l).aborted
    ensures Keys(Batch(names, calls, l).statuses) == names
    ensures forall i :: 0 <= i < |names| ==>
      Batch(names, calls, l).statuses[i] ==
      (names[i], if calls[i].truthy then l.succeeded else l.failed)
  {
    if names != [] {
      var n := |names| - 1;
      var pre, cpre := names[..n], calls[..n];
      assert Distinct(pre);
      BatchSettlesEveryItem(pre, cpre, l);
      var d := Batch(pre, cpre, l).statuses;
      assert pre + [names[n]] == names;
      SettleNew(d, pre, names[n], l.pending, if calls[n].truthy then l.succeeded else l.failed);
      BatchStep(names, calls, l);
      var e := Batch(names, calls, l).statuses;
      forall i | 0 <= i < |names| ensures e[i] == (names[i], if calls[i].truthy then l.succeeded else l.failed) {
        if i < n {
          assert pre[i] == names[i] && cpre[i] == calls[i] && e[i] == d[i];
        }
      }
    }
  }

  /** One resolved call on a name not yet in the dictionary appends its
      settled entry. */
  lemma BatchStep(names: seq<string>, calls: seq<Call>, l: Labels)
    requires |calls| == |names| && names != []
    requires var n := |names| - 1; var prev := Batch(names[..n], calls[..n], l);
      !prev.aborted && calls[n].Resolved? && names[n] !in Keys(prev.statuses)
    ensures var n := |names| - 1; var prev := Batch(names[..n], calls[..n], l);
      Batch(names, calls, l) == Run(prev.statuses + [(names[n], if calls[n].truthy then l.succeeded else l.failed)], false)
  {
    var n := |names| - 1;
    var d := Batch(names[..n], calls[..n], l).statuses;
    var v := if calls[n].truthy then l.succeeded else l.failed;
    PutNew(d, names[n], l.pending);
    PutLast(d, names[n], l.pending, v);
  }

  /** A name not yet in the dictionary is marked pending and then
      settled: one entry is appended. */
  lemma SettleNew(d: Dict<string>, pre: seq<string>, k: string, pending: string, v: string)
    requires Keys(d) == pre && Distinct(pre + [k])
    ensures k !in Keys(d)
    ensures Keys(d + [(k, v)]) == pre + [k]
  {
    assert k !in Keys(d) by {
      forall i | 0 <= i < |pre| ensures pre[i] != k {
        assert (pre + [k])[i] == pre[i] && (pre + [k])[|pre|] == k;
      }
    }
    KeysAppend(d, [(k, v)]);
  }

  lemma {:induction false} CountSettled(r: Dict<string>, calls: seq<Call>, l: Labels)
    requires |r| == |calls| && WellFormed(l)
    requires forall i :: 0 <= i < |calls| ==>
      calls[i].Resolved? && r[i].1 == if calls[i].truthy then l.succeeded else l.failed
    ensures CountValues(r, Succeeded(l)) == TruthyCount(calls)
  {
    if r != [] {
      CountSettled(r[1..], calls[1..], l);
    }
  }

  /** Whether the last call made for `k` resolved truthy: the status a
      repeated name ends with is the one its last item writes. */
  predicate LastTruthy(names: seq<string>, calls: seq<Call>, k: string)
    requires |calls| == |names|
  {
    if names == [] then false
    else
      var n := |names| - 1;
      if names[n] == k then calls[n] == Resolved(true) else LastTruthy(names[..n], calls[..n], k)
  }

  /** The names whose last call resolved truthy. */
  ghost function LastTruthyNames(names: seq<string>, calls: seq<Call>): set<string>
    requires |calls| == |names|
  {
    set k | k in names && LastTruthy(names, calls, k)
  }

  /** When no call rejects, whatever the names: the dictionary holds each
      name once, in order of first occurrence, with the status settled by
      the last call made for it. */
  lemma BatchLastWrite(names: seq<string>, calls: seq<Call>, l: Labels)
    requires |calls| == |names|
    requires forall i :: 0 <= i < |calls| ==> calls[i].Resolved?
    ensures !Batch(names, calls, l).aborted
    ensures Keys(Batch(names, calls, l).statuses) == Dedup(names)
    ensures forall k :: k in names ==>
      Get(Batch(names, calls, l).statuses, k) == Some(if LastTruthy(names, calls, k) then l.succeeded else l.failed)
  {
    NoAbortBefore(names, calls, l);
    BatchKeys(names, calls, l);
    forall k | k in names
      ensures Get(Batch(names, calls, l).statuses, k) == Some(if LastTruthy(names, calls, k) then l.succeeded else l.failed)
    {
      BatchGet(names, calls, l, k);
    }
  }

  /** One resolved call after a batch that did not abort: the item's
      pending status is overwritten by its settled one. */
  lemma {:induction false} BatchLastStep(names: seq<string>, calls: seq<Call>, l: Labels)
    requires |calls| == |names| && names != []
    requires forall i :: 0 <= i < |calls| ==> calls[i].Resolved?
    ensures var n := |names| - 1;
      Batch(names, calls, l) ==
        Run(Put(Batch(names[..n], calls[..n], l).statuses, names[n], if calls[n].truthy then l.succeeded else l.failed), false)
  {
    var n := |names| - 1;
    NoAbortBefore(names[..n], calls[..n], l);
    PutPut(Batch(names[..n], calls[..n], l).statuses, names[n], l.pending, if calls[n].truthy then l.succeeded else l.failed);
  }

  lemma {:induction false} BatchKeys(names: seq<string>, calls: seq<Call>, l: Labels)
    requires |calls| == |names|
    requires forall i :: 0 <= i < |calls| ==> calls[i].Resolved?
    ensures Keys(Batch(names, calls, l).statuses) == Dedup(names)
  {
    if names != [] {
      var n := |names| - 1;
      BatchKeys(names[..n], calls[..n], l);
      BatchLastStep(names, calls, l);
      PutSpec(Batch(names[..n], calls[..n], l).statuses, names[n], if calls[n].truthy then l.succeeded else l.failed);
    }
  }

  lemma {:induction false} BatchGet(names: seq<string>, calls: seq<Call>, l: Labels, k: string)
    requires |calls| == |names| && k in names
    requires forall i :: 0 <= i < |calls| ==> calls[i].Resolved?
    ensures Get(Batch(names, calls, l).statuses, k) == Some(if LastTruthy(names, calls, k) then l.succeeded else l.failed)
  {
    var n := |names| - 1;
    var pre, cpre, x := names[..n], calls[..n], names[n];
    var d := Batch(pre, cpre, l).statuses;
    var v := if calls[n].truthy then l.succeeded else l.failed;
    BatchLastStep(names, calls, l);
    assert Batch(names, calls, l).statuses == Put(d, x, v);
    PutGet(d, x, v, k);
    if x == k {
      assert LastTruthy(names, calls, k) == calls[n].truthy;
    } else {
      assert LastTruthy(names, calls, k) == LastTruthy(pre, cpre, k);
      InInit(names, k);
      BatchGet(pre, cpre, l, k);
    }
  }

  /** The count line when no call rejects: the number of distinct names
      queued, and the number of names whose last call resolved truthy as
      succeeded; for distinct names, every item queued and exactly the
      truthy calls succeeded. */
  lemma BatchTally(names: seq<string>, calls: seq<Call>, l: Labels)
    requires |calls| == |names| && WellFormed(l)
    requires forall i :: 0 <= i < |calls| ==> calls[i].Resolved?
    ensures Tally(Batch(names, calls, l).statuses, l) ==
      (|set k | k in names|, |LastTruthyNames(names, calls)|)
    ensures Distinct(names) ==> Tally(Batch(names, calls, l).statuses, l) == (|names|, TruthyCount(calls))
  {
    QueuedAsSet(names, calls, l);
    SucceededAsSet(names, calls, l);
    if Distinct(names) {
      var st := Batch(names, calls, l).statuses;
      BatchSettlesEveryItem(names, calls, l);
      CountSettled(st, calls, l);
    }
  }

  lemma QueuedAsSet(names: seq<string>, calls: seq<Call>, l: Labels)
    requires |calls| == |names|
    requires forall i :: 0 <= i < |calls| ==> calls[i].Resolved?
    ensures |Batch(names, calls, l).statuses| == |set k | k in names|
  {
    var st := Batch(names, calls, l).statuses;
    BatchLastWrite(names, calls, l);
    DistinctSize(st);
    assert (set k | k in Keys(st)) == (set k | k in names);
  }

  lemma SucceededAsSet(names: seq<string>, calls: seq<Call>, l: Labels)
    requires |calls| == |names| && WellFormed(l)
    requires forall i :: 0 <= i < |calls| ==> calls[i].Resolved?
    ensures CountValues(Batch(names, calls, l).statuses, Succeeded(l)) ==
      |LastTruthyNames(names, calls)|
  {
    var st := Batch(names, calls, l).statuses;
    var ok := Succeeded(l);
    var want := LastTruthyNames(names, calls);
    BatchKeysDistinct(names, calls, l);
    forall k ensures k in KeysWhere(st, ok) <==> k in want {
      SucceededKey(names, calls, l, k);
    }
    CountIs(st, ok, want);
  }

  lemma BatchKeysDistinct(names: seq<string>, calls: seq<Call>, l: Labels)
    requires |calls| == |names|
    requires forall i :: 0 <= i < |calls| ==> calls[i].Resolved?
    ensures Distinct(Keys(Batch(names, calls, l).statuses))
  {
    BatchLastWrite(names, calls, l);
  }

  lemma SucceededKey(names: seq<string>, calls: seq<Call>, l: Labels, k: string)
    requires |calls| == |names| && WellFormed(l)
    requires forall i :: 0 <= i < |calls| ==> calls[i].Resolved?
    ensures k in KeysWhere(Batch(names, calls, l).statuses, Succeeded(l)) <==>
      k in names && LastTruthy(names, calls, k)
  {
    var st := Batch(names, calls, l).statuses;
    BatchLastWrite(names, calls, l);
    assert k in Keys(st) <==> k in names;
  }

  /** The first rejection ends the batch: the items before it are settled,
      the rejecting item stays at the pending status and no later item is
      processed. */
  lemma BatchStopsAtRejection(names: seq<string>, calls: seq<Call>, l: Labels, j: nat)
    requires |calls| == |names| && j < |names|
    requires calls[j] == Rejected && forall i :: 0 <= i < j ==> calls[i].Resolved?
    ensures Batch(names, calls, l) ==
      Run(Put(Batch(names[..j], calls[..j], l).statuses, names[j], l.pending), true)
  {
    NoAbortBefore(names[..j], calls[..j], l);
    assert names[..j + 1][..j] == names[..j] && calls[..j + 1][..j] == calls[..j];
    AbortSticks(names, calls, l, j + 1);
  }

  lemma {:induction false} NoAbortBefore(names: seq<string>, calls: seq<Call>, l: Labels)
    requires |calls| == |names|
    requires forall i :: 0 <= i < |calls| ==> calls[i].Resolved?
    ensures !Batch(names, calls, l).aborted
  {
    if names != [] {
      var n := |names| - 1;
      NoAbortBefore(names[..n], calls[..n], l);
    }
  }
}
