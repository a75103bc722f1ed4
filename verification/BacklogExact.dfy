/** What a history of backlog cycles says, and what a run of them is (noodles.py:3596-3624, noodles.py:3703-3750). */
module BacklogExact {
  import opened Wrappers
  import opened Ordering
  import opened Backlog

  function FinishAt(acts: seq<Act>, k: nat): Option<Act> {
    if k < |acts| && acts[k].Finished? then Some(acts[k]) else None
  }

  ghost predicate Idle(act: Act) {
    act.Finished? && forall i :: i in act.items ==> !i.schedulable
  }

  /** The last n finished cycles had nothing schedulable, and the one before them, if any, had something. */
  ghost predicate TrailBy(finished: seq<Act>, n: nat) {
    && n <= |finished| && (forall k :: |finished| - n <= k < |finished| ==> Idle(finished[k]))
    && (n < |finished| ==> !Idle(finished[|finished| - 1 - n]))
  }

  lemma TrailNext(finished: seq<Act>, n: nat, act: Act)
    requires TrailBy(finished, n)
    ensures TrailBy(finished + [act], if Idle(act) then n + 1 else 0)
  {
    var all := finished + [act];
    assert all[|finished|] == act;
    if Idle(act) {
      forall k | |all| - (n + 1) <= k < |all| ensures Idle(all[k]) {
        if k < |finished| { assert Idle(finished[k]); }
      }
      if n < |finished| { assert all[|all| - 1 - (n + 1)] == finished[|finished| - 1 - n]; }
    }
  }

  /** The finished cycles, in order. */
  ghost function Finishes(acts: seq<Act>): (r: seq<Act>)
    ensures forall k :: 0 <= k < |r| ==> r[k].Finished?
  {
    if acts == [] then []
    else
      var n := |acts| - 1;
      Finishes(acts[..n]) + (if acts[n].Finished? then [acts[n]] else [])
  }

  lemma {:induction false} FinishesExact(acts: seq<Act>)
    ensures Picks(|acts|, (k: nat) => FinishAt(acts, k), Finishes(acts))
  {
    var pick := (k: nat) => FinishAt(acts, k);
    if acts == [] {
      PicksNothing(pick);
    } else {
      var n := |acts| - 1;
      FinishesExact(acts[..n]);
      PicksNext(n, (k: nat) => FinishAt(acts[..n], k), pick, Finishes(acts[..n]));
    }
  }

  /** The count of empty cycles, and the hold, are those of the cycles finished last. */
  lemma {:induction false} HistoryExact(acts: seq<Act>)
    ensures TrailBy(Finishes(acts), TrailingEmpty(acts))
    ensures HoldUntil(acts) ==
            if Finishes(acts) == [] then None
            else Some(Finishes(acts)[|Finishes(acts)| - 1].at + BackoffSeconds(TrailingEmpty(acts)) as real)
  {
    if acts == [] {
    } else {
      var n := |acts| - 1;
      HistoryExact(acts[..n]);
      if acts[n].Finished? {
        var finished := Finishes(acts[..n]);
        TrailNext(finished, TrailingEmpty(acts[..n]), acts[n]);
        assert Finishes(acts) == finished + [acts[n]] && (finished + [acts[n]])[|finished|] == acts[n];
        assert AllIdle(acts[n].items) <==> Idle(acts[n]);
      } else {
        assert Finishes(acts) == Finishes(acts[..n]);
      }
    }
  }

  /** Act k persists these finalists, and none after it persists or finishes any. */
  ghost predicate PersistedLast(acts: seq<Act>, f: Finalists, k: nat) {
    && k < |acts| && acts[k] == Persisted(f)
    && forall j :: k < j < |acts| ==> !acts[j].Persisted? && !acts[j].Finished?
  }

  /** The finalists persisted and not finished since. */
  lemma {:induction false} PendingExact(acts: seq<Act>, f: Finalists)
    ensures Pending(acts) == Some(f) <==> exists k: nat :: PersistedLast(acts, f, k)
  {
    if acts != [] {
      var n := |acts| - 1;
      PendingExact(acts[..n], f);
      if acts[n] == Persisted(f) { assert PersistedLast(acts, f, n); }
      if k: nat :| PersistedLast(acts, f, k) {
        if k < n { assert PersistedLast(acts[..n], f, k); }
      }
      if k: nat :| PersistedLast(acts[..n], f, k) {
        if !acts[n].Persisted? && !acts[n].Finished? { assert PersistedLast(acts, f, k); }
      }
    }
  }

  /** Act k is the last finished cycle. */
  ghost predicate FinishedLast(acts: seq<Act>, k: nat) {
    k < |acts| && acts[k].Finished? && forall j :: k < j < |acts| ==> !acts[j].Finished?
  }

  ghost predicate HeldSince(acts: seq<Act>, k: nat) {
    exists j :: k < j < |acts| && acts[j].Held?
  }

  /** What a hold serves is what the last finished cycle found. */
  lemma {:induction false} ServedExact(acts: seq<Act>, k: nat)
    requires FinishedLast(acts, k)
    ensures Served(acts) == Some((acts[k].f, acts[k].items, HeldSince(acts, k)))
  {
    var n := |acts| - 1;
    if k < n {
      ServedExact(acts[..n], k);
      assert HeldSince(acts, k) <==> HeldSince(acts[..n], k) || acts[n].Held? by {
        if j :| k < j < |acts| && acts[j].Held? {
          if j < n { assert acts[..n][j].Held?; }
        }
        if j :| k < j < n && acts[..n][j].Held? { assert acts[j].Held?; }
      }
    }
  }

  /** The records and histories of a run, cycle by cycle. */
  ghost predicate IsRun(calls: seq<Call>, records: seq<Record>, histories: seq<seq<Act>>) {
    && |records| == |calls| + 1 && |histories| == |calls| + 1 && records[0] == Absent && histories[0] == []
    && forall k :: 0 <= k < |calls| ==> Follows(calls[k], records[k], histories[k], records[k + 1], histories[k + 1])
  }

  ghost predicate Follows(call: Call, record: Record, acts: seq<Act>, record': Record, acts': seq<Act>) {
    record' == Cycle(record, call).0 && acts' == acts + Cycle(record, call).1
  }

  /** A run starts without a record and goes on by whole cycles. */
  lemma {:induction false} RunExact(calls: seq<Call>) returns (records: seq<Record>, histories: seq<seq<Act>>)
    ensures IsRun(calls, records, histories)
    ensures Run(calls) == (records[|calls|], histories[|calls|])
  {
    if calls == [] {
      records, histories := [Absent], [[]];
    } else {
      var n := |calls| - 1;
      records, histories := RunExact(calls[..n]);
      var r, h := Run(calls).0, Run(calls).1;
      forall k | 0 <= k < n ensures Follows(calls[k], records[k], histories[k], records[k + 1], histories[k + 1]) {
        assert Follows(calls[..n][k], records[k], histories[k], records[k + 1], histories[k + 1]);
      }
      records, histories := records + [r], histories + [h];
    }
  }
}
