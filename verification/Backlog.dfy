/** The resumable backlog cycle and its empty-frontier hold (noodles.py:3596-3624, noodles.py:3703-3750). */
module Backlog {
  import opened Wrappers

  datatype Finalists = Finalists(issues: seq<nat>, pulls: seq<nat>)

  datatype Item = Item(id: nat, schedulable: bool)

  /** The persisted cycle record of one repository. */
  datatype Record =
    | Absent
    | Derived(finalists: Finalists, emptyBefore: nat)
    | Complete(finalists: Finalists, items: seq<Item>, consecutiveEmpty: nat, nextDerivationAt: real, held: bool)

  // ----- the hold

  function Pow2(n: nat): nat {
    if n == 0 then 1 else 2 * Pow2(n - 1)
  }

  const BASE_SECONDS := 180

  const CEILING_SECONDS := 3600

  function Min(a: nat, b: nat): nat {
    if a <= b then a else b
  }

  function BackoffSeconds(consecutiveEmpty: int): nat {
    if consecutiveEmpty <= 0 then 0
    else Min(BASE_SECONDS * Pow2(Min(consecutiveEmpty - 1, 20)), CEILING_SECONDS)
  }

  lemma {:induction false} Pow2Grows(m: nat, n: nat)
    requires m <= n
    ensures Pow2(m) <= Pow2(n)
    decreases n
  {
    if m < n { Pow2Grows(m, n - 1); }
  }

  /** The exponent clamp never shows: the hold doubles from 180 s up to its 3600 s ceiling. */
  lemma BackoffDoublesToCeiling(k: nat)
    requires k >= 1
    ensures BackoffSeconds(k) == Min(BASE_SECONDS * Pow2(k - 1), CEILING_SECONDS)
    ensures BackoffSeconds(k + 1) == Min(2 * BackoffSeconds(k), CEILING_SECONDS)
  {
    assert Pow2(5) == 32;
    if k - 1 >= 5 { Pow2Grows(5, k - 1); Pow2Grows(5, k); Pow2Grows(5, Min(k - 1, 20)); Pow2Grows(5, Min(k, 20)); }
  }

  // ----- one cycle

  /** What one call meets: the time, the provider's answer to a derivation, the finished items, and the
      durable write it dies at (0: it dies before its first). */
  datatype Call = Call(now: real, derivation: Option<Finalists>, items: Option<seq<Item>>, writes: nat)

  /** What one call did, for the run's history. */
  datatype Act =
    | Held(items: seq<Item>, at: real) | Asked(at: real) | Persisted(f: Finalists)
    | Finished(f: Finalists, items: seq<Item>, at: real)

  predicate AnySchedulable(items: seq<Item>) {
    exists i | i in items :: i.schedulable
  }

  function EmptyBefore(record: Record): nat {
    match record
    case Absent => 0
    case Derived(_, k) => k
    case Complete(_, _, k, _, _) => k
  }

  predicate OnHold(record: Record, now: real) {
    record.Complete? && now < record.nextDerivationAt
  }

  function Finish(f: Finalists, emptyBefore: nat, items: seq<Item>, now: real): Record {
    var empty := if AnySchedulable(items) then 0 else emptyBefore + 1;
    Complete(f, items, empty, now + BackoffSeconds(empty) as real, false)
  }

  /** The record one call leaves, its acts in order, and the items it returns if it returns. */
  function Cycle(record: Record, call: Call): (Record, seq<Act>, Option<seq<Item>>) {
    if OnHold(record, call.now) then
      if call.writes == 0 then (record, [], None)
      else (record.(held := true), [Held(record.items, call.now)], Some(record.items))
    else if record.Derived? then FinishCycle(record, call, [])
    else if call.derivation.None? || call.writes == 0 then (record, [Asked(call.now)], None)
    else FinishCycle(Derived(call.derivation.value, EmptyBefore(record)), call,
      [Asked(call.now), Persisted(call.derivation.value)])
  }

  /** The finishing stage over persisted finalists. */
  function FinishCycle(record: Record, call: Call, acts: seq<Act>): (Record, seq<Act>, Option<seq<Item>>)
    requires record.Derived?
  {
    var needed := if acts == [] then 1 else 2;
    if call.items.None? || call.writes < needed then (record, acts, None)
    else
      (Finish(record.finalists, record.emptyBefore, call.items.value, call.now),
       acts + [Finished(record.finalists, call.items.value, call.now)], call.items)
  }

  class BacklogCycle {
    var record: Record
    ghost var acts: seq<Act>

    constructor ()
      ensures record == Absent && acts == []
    {
      record, acts := Absent, [];
    }

    /** sync_backlog. */
    method Sync(call: Call) returns (items: Option<seq<Item>>)
      modifies this
      ensures (record, acts, items) ==
              (Cycle(old(record), call).0, old(acts) + Cycle(old(record), call).1, Cycle(old(record), call).2)
    {
      var emptyBefore := EmptyBefore(record);
      if record.Complete? && call.now < record.nextDerivationAt {
        if call.writes == 0 {
          assert acts == old(acts) + [];
          return None;
        }
        items := Some(record.items);
        record := record.(held := true);
        acts := acts + [Held(record.items, call.now)];
        return;
      }
      var writes := 0;
      var finalists;
      if record.Derived? {
        finalists := record.finalists;
      } else {
        acts := acts + [Asked(call.now)];
        if call.derivation.None? || call.writes == 0 {
          return None;
        }
        finalists := call.derivation.value;
        record, writes := Derived(finalists, emptyBefore), 1;
        acts := acts + [Persisted(finalists)];
      }
      assert acts == old(acts) + (if writes == 0 then [] else [Asked(call.now), Persisted(finalists)]);
      if call.items.None? || call.writes <= writes {
        return None;
      }
      var empty := if AnySchedulable(call.items.value) then 0 else emptyBefore + 1;
      record := Complete(finalists, call.items.value, empty, call.now + BackoffSeconds(empty) as real, false);
      acts := acts + [Finished(finalists, call.items.value, call.now)];
      assert acts == old(acts) + Cycle(old(record), call).1;
      items := call.items;
    }
  }

  // ----- every run of cycles

  function Run(calls: seq<Call>): (Record, seq<Act>) {
    if calls == [] then (Absent, [])
    else
      var (record, acts) := Run(calls[..|calls| - 1]);
      var (record', more, _) := Cycle(record, calls[|calls| - 1]);
      (record', acts + more)
  }

  /** Nothing in the items can be scheduled. */
  predicate AllIdle(items: seq<Item>) {
    forall k :: 0 <= k < |items| ==> !items[k].schedulable
  }

  /** How many of the latest completed cycles in a row ended with nothing schedulable. */
  function TrailingEmpty(acts: seq<Act>): nat {
    if acts == [] then 0
    else
      var last := acts[|acts| - 1];
      if last.Finished? then (if AllIdle(last.items) then TrailingEmpty(acts[..|acts| - 1]) + 1 else 0)
      else TrailingEmpty(acts[..|acts| - 1])
  }

  /** When the latest completed cycle allows the next derivation. */
  function HoldUntil(acts: seq<Act>): Option<real> {
    if acts == [] then None
    else
      var last := acts[|acts| - 1];
      if last.Finished? then Some(last.at + BackoffSeconds(TrailingEmpty(acts)) as real)
      else HoldUntil(acts[..|acts| - 1])
  }

  /** The latest completed cycle, and whether it has been served from the hold since. */
  function Served(acts: seq<Act>): Option<(Finalists, seq<Item>, bool)> {
    if acts == [] then None
    else
      var last, before := acts[|acts| - 1], Served(acts[..|acts| - 1]);
      if last.Finished? then Some((last.f, last.items, false))
      else if last.Held? && before.Some? then Some((before.value.0, before.value.1, true))
      else before
  }

  /** The finalists persisted and not finished yet. */
  function Pending(acts: seq<Act>): Option<Finalists> {
    if acts == [] then None
    else
      var last := acts[|acts| - 1];
      if last.Finished? then None
      else if last.Persisted? then Some(last.f)
      else Pending(acts[..|acts| - 1])
  }

  /** Each provider derivation happened with nothing pending and not before the hold then in force; each
      completed cycle finished exactly the pending finalists. */
  ghost predicate Orderly(acts: seq<Act>) {
    forall k {:trigger acts[k]} :: 0 <= k < |acts| ==> OrderlyAt(acts[..k], acts[k])
  }

  ghost predicate OrderlyAt(before: seq<Act>, act: Act) {
    match act
    case Held(items, at) =>
      && HoldUntil(before).Some? && at < HoldUntil(before).value && Pending(before).None?
      && Served(before).Some? && items == Served(before).value.1
    case Asked(at) => Pending(before).None? && (HoldUntil(before).Some? ==> HoldUntil(before).value <= at)
    case Persisted(_) => Pending(before).None? && before != [] && before[|before| - 1].Asked?
    case Finished(f, _, _) => Pending(before) == Some(f)
  }

  /** The record is exactly what its history says. */
  ghost predicate Accounts(record: Record, acts: seq<Act>) {
    && Orderly(acts)
    && EmptyBefore(record) == TrailingEmpty(acts)
    && Pending(acts) == (if record.Derived? then Some(record.finalists) else None)
    && (record.Complete? ==>
          && HoldUntil(acts) == Some(record.nextDerivationAt)
          && Served(acts) == Some((record.finalists, record.items, record.held)))
    && (record.Absent? ==> HoldUntil(acts).None?)
  }

  lemma Snoc(acts: seq<Act>, act: Act)
    requires Orderly(acts) && OrderlyAt(acts, act)
    ensures Orderly(acts + [act])
    ensures (acts + [act])[..|acts|] == acts
  {
    var all := acts + [act];
    forall k | 0 <= k < |all| ensures OrderlyAt(all[..k], all[k]) {
      assert all[..k] == acts[..k];
      if k == |acts| { assert acts[..k] == acts; }
    }
  }

  lemma FinishAccounts(record: Record, acts: seq<Act>, items: seq<Item>, now: real)
    requires record.Derived? && Accounts(record, acts)
    ensures Accounts(Finish(record.finalists, record.emptyBefore, items, now),
                     acts + [Finished(record.finalists, items, now)])
  {
    Snoc(acts, Finished(record.finalists, items, now));
    assert AllIdle(items) <==> !AnySchedulable(items);
  }

  lemma PersistAccounts(record: Record, acts: seq<Act>, f: Finalists, now: real)
    requires !record.Derived? && Accounts(record, acts) && !OnHold(record, now)
    ensures Accounts(record, acts + [Asked(now)])
    ensures Accounts(Derived(f, EmptyBefore(record)), acts + [Asked(now)] + [Persisted(f)])
  {
    Snoc(acts, Asked(now));
    Snoc(acts + [Asked(now)], Persisted(f));
  }

  lemma FinishCycleAccounts(record: Record, acts: seq<Act>, call: Call, more: seq<Act>)
    requires record.Derived? && Accounts(record, acts + more)
    ensures Accounts(FinishCycle(record, call, more).0, acts + FinishCycle(record, call, more).1)
  {
    var (record', all, items) := FinishCycle(record, call, more);
    if items.Some? {
      FinishAccounts(record, acts + more, call.items.value, call.now);
      assert acts + all == acts + more + [all[|more|]];
    }
  }

  lemma CycleAccounts(record: Record, acts: seq<Act>, call: Call)
    requires Accounts(record, acts)
    ensures Accounts(Cycle(record, call).0, acts + Cycle(record, call).1)
  {
    if OnHold(record, call.now) {
      if call.writes == 0 {
        assert acts + [] == acts;
      } else {
        Snoc(acts, Held(record.items, call.now));
      }
    } else if record.Derived? {
      assert acts + [] == acts;
      FinishCycleAccounts(record, acts, call, []);
    } else if call.derivation.None? {
      PersistAccounts(record, acts, Finalists([], []), call.now);
    } else {
      var f := call.derivation.value;
      PersistAccounts(record, acts, f, call.now);
      if call.writes > 0 {
        assert acts + [Asked(call.now)] + [Persisted(f)] == acts + [Asked(call.now), Persisted(f)];
        FinishCycleAccounts(Derived(f, EmptyBefore(record)), acts, call, [Asked(call.now), Persisted(f)]);
      }
    }
  }

  /** Over any run of cycles, cut at any durable write: consecutive_empty counts the empty cycles completed in
      a row, nothing is derived before the hold ends, and a persisted derivation is finished, never derived again. */
  lemma {:induction false} RunAccounts(calls: seq<Call>)
    ensures Accounts(Run(calls).0, Run(calls).1)
  {
    if calls == [] {
    } else {
      RunAccounts(calls[..|calls| - 1]);
      CycleAccounts(Run(calls[..|calls| - 1]).0, Run(calls[..|calls| - 1]).1, calls[|calls| - 1]);
    }
  }

  /** What one cycle does, in order, and what it returns: while the hold lasts the items already served; otherwise it
      asks the provider, unless a derivation is persisted, persists the answer, and finishes what is persisted. */
  lemma ActsExact(record: Record, call: Call)
    ensures var holds, asks := record.Complete? && call.now < record.nextDerivationAt, !record.Derived?;
            var (record', acts, items) := Cycle(record, call);
            && (holds && call.writes == 0 ==> record' == record && acts == [] && items.None?)
            && (holds && call.writes > 0 ==> acts == [Held(record.items, call.now)] && items == Some(record.items))
            && (!holds && asks && (call.derivation.None? || call.writes == 0) ==>
                  record' == record && acts == [Asked(call.now)] && items.None?)
            && (!holds && asks && call.derivation.Some? && call.writes > 0 && (call.items.None? || call.writes == 1) ==>
                  acts == [Asked(call.now), Persisted(call.derivation.value)] && items.None?)
            && (!holds && asks && call.derivation.Some? && call.items.Some? && call.writes > 1 ==>
                  && acts == [Asked(call.now), Persisted(call.derivation.value),
                              Finished(call.derivation.value, call.items.value, call.now)]
                  && items == call.items)
            && (!asks && (call.items.None? || call.writes == 0) ==> record' == record && acts == [] && items.None?)
            && (!asks && call.items.Some? && call.writes > 0 ==>
                  acts == [Finished(record.finalists, call.items.value, call.now)] && items == call.items)
  {
  }

  /** The hold in seconds: 180 after one empty cycle, 1440 after four and 3600 from the sixth on. */
  lemma HoldSeconds(k: int)
    ensures k <= 0 ==> BackoffSeconds(k) == 0
    ensures BackoffSeconds(1) == 180 && BackoffSeconds(4) == 1440 && (k >= 6 ==> BackoffSeconds(k) == 3600)
  {
    assert Pow2(3) == 8 && Pow2(5) == 32;
    if k >= 6 { Pow2Grows(5, Min(k - 1, 20)); }
  }

  /** The pending finalists, once persisted, stay pending until they are finished. */
  lemma {:induction false} PendingLasts(acts: seq<Act>, j: nat, k: nat)
    requires Orderly(acts) && j < k <= |acts| && acts[j].Persisted?
    ensures Pending(acts[..k]) == Some(acts[j].f)
         || exists m :: j < m < k && acts[m].Finished? && acts[m].f == acts[j].f
    decreases k
  {
    assert acts[..k][..k - 1] == acts[..k - 1];
    if k == j + 1 {
    } else {
      PendingLasts(acts, j, k - 1);
      assert OrderlyAt(acts[..k - 1], acts[k - 1]);
    }
  }

  /** In every run a persisted derivation is paid for once: no provider derivation comes after it before a cycle
      has finished those very finalists. */
  lemma DerivedOnce(calls: seq<Call>, j: nat, k: nat)
    requires var acts := Run(calls).1; j < k < |acts| && acts[j].Persisted? && acts[k].Asked?
    ensures var acts := Run(calls).1; exists m :: j < m < k && acts[m].Finished? && acts[m].f == acts[j].f
  {
    RunAccounts(calls);
    var acts := Run(calls).1;
    PendingLasts(acts, j, k);
    assert OrderlyAt(acts[..k], acts[k]);
  }
}
