/**
  The status screen of the apps menu (`appStatus`): the installed
  containers are listed with running ones first and numbered from 1, and
  `performActionOnContainer` turns the operator's "n", "a-b" or "i,j,k"
  into the ids to act on.
*/
module AppsStatus {
  import opened Options

  /** An entry of the `/apps` listing: `Id`, the name (the part of
      `Names[0]` after its leading "/"), `State` and `Status`. */
  datatype Container = Container(id: string, name: string, state: string, status: string)

  predicate IsRunning(c: Container) { c.state == "running" }

  /** The comparator of line 134. */
  function Compare(a: Container, b: Container): int
  {
    if a.state == b.state then 0 else if a.state == "running" then -1 else 1
  }

  /** Insertion of `x` into an already sorted prefix, before the first
      element that the comparator puts after it. */
  function Insert(x: Container, sorted: seq<Container>): seq<Container>
  {
    if sorted == [] then [x]
    else if Compare(x, sorted[0]) < 0 then [x] + sorted
    else [sorted[0]] + Insert(x, sorted[1..])
  }

  /** `results.sort(...)` as a stable insertion sort, adding the elements
      left to right. */
  function SortByState(cs: seq<Container>): seq<Container>
  {
    if cs == [] then [] else Insert(cs[|cs| - 1], SortByState(cs[..|cs| - 1]))
  }

  /** The containers with (`running` true) or without the running state, in
      listing order. */
  function ByState(cs: seq<Container>, running: bool): seq<Container>
  {
    if cs == [] then []
    else ByState(cs[..|cs| - 1], running) + (if IsRunning(cs[|cs| - 1]) == running then [cs[|cs| - 1]] else [])
  }

  /** Each part holds containers of the listing in its own state only. */
  lemma {:induction false} ByStateMembers(cs: seq<Container>, running: bool)
    ensures forall c :: c in ByState(cs, running) ==> c in cs && IsRunning(c) == running
  {
    if cs != [] {
      var m := |cs| - 1;
      ByStateMembers(cs[..m], running);
      forall c | c in ByState(cs, running) ensures c in cs && IsRunning(c) == running {
        if c in ByState(cs[..m], running) {
          assert c in cs[..m];
        }
      }
    }
  }

  lemma {:induction false} InsertAmongStopped(x: Container, n: seq<Container>)
    requires forall c :: c in n ==> !IsRunning(c)
    ensures Insert(x, n) == if IsRunning(x) then [x] + n else n + [x]
  {
    if n != [] {
      assert n[0] in n;
      if !IsRunning(x) {
        InsertAmongStopped(x, n[1..]);
        assert n == [n[0]] + n[1..];
      }
    }
  }

  lemma {:induction false} InsertIntoPartition(x: Container, r: seq<Container>, n: seq<Container>)
    requires forall c :: c in r ==> IsRunning(c)
    ensures Insert(x, r + n) == r + Insert(x, n)
  {
    if r == [] {
      assert r + n == n;
    } else {
      assert r[0] in r;
      InsertPastRunning(x, r[0], r[1..] + n);
      assert r + n == [r[0]] + (r[1..] + n);
      InsertIntoPartition(x, r[1..], n);
      assert [r[0]] + (r[1..] + Insert(x, n)) == r + Insert(x, n);
    }
  }

  /** Nothing is inserted before a running container. */
  lemma InsertPastRunning(x: Container, head: Container, rest: seq<Container>)
    requires IsRunning(head)
    ensures Insert(x, [head] + rest) == [head] + Insert(x, rest)
  {
    assert ([head] + rest)[0] == head && ([head] + rest)[1..] == rest;
  }

  /** The sort is the stable partition: the running containers in listing
      order, then all the others in listing order. */
  lemma {:induction false} SortIsStablePartition(cs: seq<Container>)
    ensures SortByState(cs) == ByState(cs, true) + ByState(cs, false)
  {
    if cs != [] {
      var m := |cs| - 1;
      SortIsStablePartition(cs[..m]);
      var r, n := ByState(cs[..m], true), ByState(cs[..m], false);
      assert forall c :: c in r ==> IsRunning(c) by {
        ByStateMembers(cs[..m], true);
      }
      assert forall c :: c in n ==> !IsRunning(c) by {
        ByStateMembers(cs[..m], false);
      }
      InsertSplits(cs[m], r, n);
    }
  }

  /** Inserting into a partition extends the part of the new element's
      state. */
  lemma InsertSplits(x: Container, r: seq<Container>, n: seq<Container>)
    requires forall c :: c in r ==> IsRunning(c)
    requires forall c :: c in n ==> !IsRunning(c)
    ensures Insert(x, r + n) ==
      (r + if IsRunning(x) then [x] else []) + (n + if IsRunning(x) then [] else [x])
  {
    InsertIntoPartition(x, r, n);
    InsertAmongStopped(x, n);
    if IsRunning(x) {
      assert r + ([x] + n) == (r + [x]) + (n + []);
    } else {
      assert r + (n + [x]) == (r + []) + (n + [x]);
    }
  }

  lemma {:induction false} ByStateCount(cs: seq<Container>)
    ensures multiset(ByState(cs, true)) + multiset(ByState(cs, false)) == multiset(cs)
  {
    if cs != [] {
      var m := |cs| - 1;
      var c := cs[m];
      ByStateCount(cs[..m]);
      assert cs == cs[..m] + [c];
      assert multiset(cs) == multiset(cs[..m]) + multiset{c};
      var r, n := ByState(cs[..m], true), ByState(cs[..m], false);
      if IsRunning(c) {
        assert ByState(cs, true) == r + [c] && ByState(cs, false) == n + [];
        assert multiset(r + [c]) == multiset(r) + multiset{c};
      } else {
        assert ByState(cs, true) == r + [] && ByState(cs, false) == n + [c];
        assert multiset(n + [c]) == multiset(n) + multiset{c};
      }
    }
  }

  /** Every running container comes before every other one, and the sort
      neither loses nor adds a container. */
  lemma SortRunningFirst(cs: seq<Container>)
    ensures forall i, j :: 0 <= i < j < |SortByState(cs)| && !IsRunning(SortByState(cs)[i]) ==> !IsRunning(SortByState(cs)[j])
    ensures multiset(SortByState(cs)) == multiset(cs)
  {
    SortIsStablePartition(cs);
    ByStateCount(cs);
    ByStateMembers(cs, true);
    ByStateMembers(cs, false);
    RunningBeforeStopped(ByState(cs, true), ByState(cs, false));
  }

  /** Running containers followed by stopped ones: no stopped container
      comes before a running one. */
  lemma RunningBeforeStopped(r: seq<Container>, n: seq<Container>)
    requires forall c :: c in r ==> IsRunning(c)
    requires forall c :: c in n ==> !IsRunning(c)
    ensures forall i, j :: 0 <= i < j < |r + n| && !IsRunning((r + n)[i]) ==> !IsRunning((r + n)[j])
  {
    var s := r + n;
    forall i | 0 <= i < |r| ensures IsRunning(s[i]) {
      assert s[i] == r[i] && r[i] in r;
    }
    forall j | |r| <= j < |s| ensures !IsRunning(s[j]) {
      assert s[j] == n[j - |r|] && n[j - |r|] in n;
    }
  }

  /** The table rows: number, name, state and status, numbered from 1 in
      sorted order. */
  function StatusRows(cs: seq<Container>): seq<(nat, string, string, string)>
  {
    var s := SortByState(cs);
    seq(|s|, i requires 0 <= i < |s| => (i + 1, s[i].name, s[i].state, s[i].status))
  }

  // ---------------------------------------------------------------------
  // performActionOnContainer (lines 59-118)

  /** The operator's input, split on "-" (`range`) and on "," (`multiple`).
      Each piece is kept as the integer JavaScript reads it as, or None
      when it reads as NaN. Splitting gives at least one piece, and an
      input with neither separator gives the same single piece to both. */
  datatype IndexInput = IndexInput(rangeParts: seq<Option<int>>, listParts: seq<Option<int>>)

  predicate WellSplit(input: IndexInput)
  {
    |input.rangeParts| >= 1 && |input.listParts| >= 1
    && (|input.rangeParts| == 1 && |input.listParts| == 1 ==> input.rangeParts == input.listParts)
  }

  function Ids(cs: seq<Container>): (r: seq<string>)
    ensures |r| == |cs| && forall k :: 0 <= k < |cs| ==> r[k] == cs[k].id
  {
    seq(|cs|, k requires 0 <= k < |cs| => cs[k].id)
  }

  /** Container number `n` (counted from 1) exists. */
  predicate Numbered(arr: seq<Container>, n: Option<int>)
  {
    n.Some? && 1 <= n.value <= |arr|
  }

  /** The range loop `for (i = a - 1; i < b; i++)`: a NaN bound stops it at
      once, and it reads `arr[i]` for every i it reaches, where one outside
      the list throws. */
  function RangeIds(arr: seq<Container>, a: Option<int>, b: Option<int>): Option<seq<string>>
  {
    if a.None? || b.None? || a.value - 1 >= b.value then Some([])
    else if 1 <= a.value && b.value <= |arr| then Some(Ids(arr[a.value - 1..b.value]))
    else None
  }

  /** The list loop: container number j for every listed j, in the given
      order; a NaN piece or a number outside the list throws. */
  function ListIds(arr: seq<Container>, js: seq<Option<int>>): Option<seq<string>>
  {
    if forall k :: 0 <= k < |js| ==> Numbered(arr, js[k])
    then Some(seq(|js|, k requires 0 <= k < |js| && Numbered(arr, js[k]) => arr[js[k].value - 1].id))
    else None
  }

  /** The ids that receive the action, or None when the code throws before
      anything is sent. */
  function ContainerIds(arr: seq<Container>, input: IndexInput): Option<seq<string>>
    requires WellSplit(input)
  {
    if |input.rangeParts| == 1 && |input.listParts| == 1 then
      var n := input.rangeParts[0];
      if Numbered(arr, n) then Some([arr[n.value - 1].id]) else None
    else
      var r := if |input.rangeParts| > 1 then RangeIds(arr, input.rangeParts[0], input.rangeParts[1]) else Some([]);
      var l := if |input.listParts| > 1 then ListIds(arr, input.listParts) else Some([]);
      if r.None? || l.None? then None else Some(r.value + l.value)
  }

  /** The id collection as the source writes it: one number, or the range
      loop followed by the list loop, both pushing into the same list. */
  method SelectContainerIds(arr: seq<Container>, input: IndexInput) returns (ids: Option<seq<string>>)
    requires WellSplit(input)
    ensures ids == ContainerIds(arr, input)
  {
    var range, multiple := input.rangeParts, input.listParts;
    if |range| == 1 && |multiple| == 1 {
      var n := range[0];
      if Numbered(arr, n) {
        return Some([arr[n.value - 1].id]);
      }
      return None;
    }
    var fromRange: Option<seq<string>> := Some([]);
    if |range| > 1 {
      fromRange := CollectRange(arr, range[0], range[1]);
    }
    if fromRange.None? {
      return None;
    }
    var fromList: Option<seq<string>> := Some([]);
    if |multiple| > 1 {
      fromList := CollectList(arr, multiple);
    }
    if fromList.None? {
      return None;
    }
    ids := Some(fromRange.value + fromList.value);
  }

  /** The range loop (lines 85-91). */
  method CollectRange(arr: seq<Container>, first: Option<int>, last: Option<int>) returns (ids: Option<seq<string>>)
    ensures ids == RangeIds(arr, first, last)
  {
    if first.None? || last.None? {
      return Some([]);
    }
    var a, b := first.value, last.value;
    var collected: seq<string> := [];
    var i := a - 1;
    while i < b
      invariant a - 1 <= i && (a - 1 < b ==> i <= b) && (a - 1 >= b ==> i == a - 1)
      invariant |collected| == i - (a - 1)
      invariant i > a - 1 ==> 1 <= a && i <= |arr|
      invariant forall k :: 0 <= k < |collected| ==> collected[k] == arr[a - 1 + k].id
      decreases b - i
    {
      if !(0 <= i < |arr|) {
        return None;
      }
      collected := collected + [arr[i].id];
      i := i + 1;
    }
    if a - 1 < b {
      assert i == b;
      assert collected == Ids(arr[a - 1..b]);
    } else {
      assert collected == [];
    }
    ids := Some(collected);
  }

  /** The list loop (lines 93-99). */
  method CollectList(arr: seq<Container>, js: seq<Option<int>>) returns (ids: Option<seq<string>>)
    ensures ids == ListIds(arr, js)
  {
    var collected: seq<string> := [];
    var k := 0;
    while k < |js|
      invariant 0 <= k <= |js|
      invariant forall q :: 0 <= q < k ==> Numbered(arr, js[q])
      invariant |collected| == k
      invariant forall q :: 0 <= q < k ==> collected[q] == arr[js[q].value - 1].id
    {
      var j := js[k];
      if !Numbered(arr, j) {
        return None;
      }
      collected := collected + [arr[j.value - 1].id];
      k := k + 1;
    }
    assert collected == ListIds(arr, js).value;
    ids := Some(collected);
  }

  /** "a-b" with 1 <= a <= b <= n acts on containers a..b, a contiguous run
      of the numbering, in ascending order. */
  lemma RangeSelectsRun(arr: seq<Container>, a: int, b: int)
    requires 1 <= a <= b <= |arr|
    ensures ContainerIds(arr, IndexInput([Some(a), Some(b)], [None])).Some?
    ensures var ids := ContainerIds(arr, IndexInput([Some(a), Some(b)], [None])).value;
      |ids| == b - a + 1 && forall k :: 0 <= k < |ids| ==> ids[k] == arr[a - 1 + k].id
  {
  }

  /** On the sorted listing, the number shown in a table row picks that
      row's container. */
  lemma NumberPicksRow(cs: seq<Container>, n: int)
    requires 1 <= n <= |StatusRows(cs)|
    ensures ContainerIds(SortByState(cs), IndexInput([Some(n)], [Some(n)])) == Some([SortByState(cs)[StatusRows(cs)[n - 1].0 - 1].id])
    ensures StatusRows(cs)[n - 1].1 == SortByState(cs)[n - 1].name
  {
  }

  /** "i,j,..." acts on each listed container, in the order given and with
      repetitions kept. */
  lemma ListSelectsInOrder(arr: seq<Container>, js: seq<int>)
    requires |js| > 1 && forall k :: 0 <= k < |js| ==> 1 <= js[k] <= |arr|
    ensures var input := IndexInput([Some(js[0])], seq(|js|, k requires 0 <= k < |js| => Some(js[k])));
      ContainerIds(arr, input).Some?
      && |ContainerIds(arr, input).value| == |js|
      && forall k :: 0 <= k < |js| ==> ContainerIds(arr, input).value[k] == arr[js[k] - 1].id
  {
  }

  /** With both separators, the range's ids come first and then the
      listed ones; a failure in either sends nothing. This is the shape of
      the code only: no typed text makes both parts yield ids, because a
      piece that reads as a number after splitting on "-" holds no ","
      (`MixedTextSendsNothing` is what real text does). */
  lemma BothSeparatorsContribute(arr: seq<Container>, input: IndexInput)
    requires |input.rangeParts| > 1 && |input.listParts| > 1
    ensures var r := RangeIds(arr, input.rangeParts[0], input.rangeParts[1]);
      var l := ListIds(arr, input.listParts);
      ContainerIds(arr, input) == if r.Some? && l.Some? then Some(r.value + l.value) else None
  {
  }

  /** Text containing both separators, such as "1-3,5", splits into the
      pieces "1", "3,5" and "1-3", "5"; the two mixed pieces read as NaN, so
      the range loop stops at once and the list loop throws. */
  lemma MixedTextSendsNothing(arr: seq<Container>, a: int, c: int)
    ensures ContainerIds(arr, IndexInput([Some(a), None], [None, Some(c)])) == None
  {
    var js: seq<Option<int>> := [None, Some(c)];
    assert !Numbered(arr, js[0]);
  }

  /** The actions of the status menu. */
  datatype StatusAction = Start | Stop | Restart | Kill | Back | Exit

  /** What one pass of the status loop does: the (id, action) requests it
      posts, whether the loop goes on, and whether the process exits. Start
      and Stop ask for the containers and act on the numbered (sorted)
      listing; Restart and Kill do nothing. `firstRejected` is the position
      of the first POST that rejects, if any: the rejection leaves the loop
      over the ids, so that request is the last one sent, and the catch of
      the status loop keeps the loop going. */
  function StatusPass(cs: seq<Container>, action: StatusAction, input: IndexInput, firstRejected: Option<nat>)
      : (r: (seq<(string, string)>, bool, bool))
    requires WellSplit(input)
    ensures action !in {Start, Stop} ==> r.0 == []
    ensures r.1 <==> action != Back && action != Exit
    ensures r.2 <==> action == Exit
    ensures action in {Start, Stop} ==>
      var ids := ContainerIds(SortByState(cs), input);
      var all := if ids.Some? then ids.value else [];
      var name := if action == Start then "start" else "stop";
      && |r.0| <= |all|
      && (forall k :: 0 <= k < |r.0| ==> r.0[k] == (all[k], name))
      && (firstRejected.None? || firstRejected.value >= |all| ==> |r.0| == |all|)
      && (firstRejected.Some? && firstRejected.value < |all| ==> |r.0| == firstRejected.value + 1)
  {
    match action
    case Start | Stop =>
      var name := if action == Start then "start" else "stop";
      var ids := ContainerIds(SortByState(cs), input);
      var all := if ids.Some? then ids.value else [];
      var sent := if firstRejected.Some? && firstRejected.value < |all| then all[..firstRejected.value + 1] else all;
      (seq(|sent|, k requires 0 <= k < |sent| => (sent[k], name)), true, false)
    case Restart | Kill => ([], true, false)
    case Back => ([], false, false)
    case Exit => ([], false, true)
  }

  /** "1,2,3" on three running containers with the second POST rejected:
      the first two are started, the third is never asked for, and the
      status loop goes on. */
  lemma SecondPostRejected(a: Container, b: Container, c: Container)
    requires IsRunning(a) && IsRunning(b) && IsRunning(c)
    ensures StatusPass([a, b, c], Start, IndexInput([None], [Some(1), Some(2), Some(3)]), Some(1)) ==
      ([(a.id, "start"), (b.id, "start")], true, false)
  {
    var cs := [a, b, c];
    var js: seq<Option<int>> := [Some(1), Some(2), Some(3)];
    RunningKeepOrder(a, b, c);
    ListedThree(cs, js);
    var r := StatusPass(cs, Start, IndexInput([None], js), Some(1));
    assert |r.0| == 2 && r.0[0] == (a.id, "start") && r.0[1] == (b.id, "start");
    assert r.0 == [(a.id, "start"), (b.id, "start")];
  }

  /** Three running containers keep their listing order in the table. */
  lemma RunningKeepOrder(a: Container, b: Container, c: Container)
    requires IsRunning(a) && IsRunning(b) && IsRunning(c)
    ensures SortByState([a, b, c]) == [a, b, c]
  {
    var cs := [a, b, c];
    SortIsStablePartition(cs);
    assert cs[..2] == [a, b] && [a, b][..1] == [a] && [a][..0] == [];
    assert ByState([a], true) == [a] && ByState([a], false) == [];
    assert ByState([a, b], true) == [a, b] && ByState([a, b], false) == [];
    assert ByState(cs, true) == cs && ByState(cs, false) == [];
  }

  /** "1,2,3" names the first three containers, in that order. */
  lemma ListedThree(cs: seq<Container>, js: seq<Option<int>>)
    requires |cs| == 3 && js == [Some(1), Some(2), Some(3)]
    ensures ContainerIds(cs, IndexInput([None], js)) == Some([cs[0].id, cs[1].id, cs[2].id])
  {
    assert forall k :: 0 <= k < |js| ==> Numbered(cs, js[k]) by {
      assert Numbered(cs, js[0]) && Numbered(cs, js[1]) && Numbered(cs, js[2]);
    }
    var l := ListIds(cs, js).value;
    assert l[0] == cs[0].id && l[1] == cs[1].id && l[2] == cs[2].id;
    assert l == [cs[0].id, cs[1].id, cs[2].id] && [] + l == l;
  }
}
