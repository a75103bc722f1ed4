/** What one repair reads, logs, files and answers, said of the log and the files alone
    (repair_contract.py:48-207). */
module RepairExact {
  import opened Wrappers
  import opened Ordering
  import opened Text
  import opened Repair

  function ReceiptAt(events: seq<Event>, subject: string, pull: nat, k: nat): Option<Receipt> {
    if k < |events| && events[k].RepairReceipt?
       && events[k].receipt.subject == subject && events[k].receipt.pull == pull
    then Some(events[k].receipt) else None
  }

  /** The receipts logged for the subject and its PR, in order. */
  lemma {:induction false} PriorExact(events: seq<Event>, subject: string, pull: nat)
    ensures Picks(|events|, (k: nat) => ReceiptAt(events, subject, pull, k), Prior(events, subject, pull))
  {
    var pick := (k: nat) => ReceiptAt(events, subject, pull, k);
    if events == [] {
      PicksNothing(pick);
    } else {
      var n := |events| - 1;
      PriorExact(events[..n], subject, pull);
      PicksNext(n, (k: nat) => ReceiptAt(events[..n], subject, pull, k), pick, Prior(events[..n], subject, pull));
    }
  }

  lemma {:induction false} CountExact(events: seq<Event>, e: Event)
    ensures Count(events, e) == multiset(events)[e]
  {
    if events == [] {
    } else {
      var n := |events| - 1;
      CountExact(events[..n], e);
      assert events == events[..n] + [events[n]];
    }
  }

  /** Receipt k is the first of this failure. */
  ghost predicate FirstOf(receipts: seq<Receipt>, key: Key, k: nat) {
    k < |receipts| && receipts[k].key == key && forall j :: 0 <= j < k ==> receipts[j].key != key
  }

  lemma {:induction false} FirstIsFound(receipts: seq<Receipt>, key: Key, k: nat)
    requires FirstOf(receipts, key, k)
    ensures WithKey(receipts, key) == Some(receipts[k])
  {
    if k > 0 {
      assert forall j :: 0 <= j < k - 1 ==> receipts[1..][j] == receipts[j + 1];
      FirstIsFound(receipts[1..], key, k - 1);
    }
  }

  // ----- one repair

  ghost predicate Known(prior: seq<Receipt>, key: Key) {
    exists k :: 0 <= k < |prior| && prior[k].key == key
  }

  lemma KnownExact(prior: seq<Receipt>, key: Key)
    ensures Known(prior, key) <==> WithKey(prior, key).Some?
  {
    WithKeyExact(prior, key);
    if WithKey(prior, key).Some? {
      var r := WithKey(prior, key).value;
      var k :| 0 <= k < |prior| && prior[k] == r;
      assert prior[k].key == key;
    }
  }

  /** The attempt a receipt carries: one more than are logged, or the logged one of a failure known already. */
  ghost function Attempt(prior: seq<Receipt>, key: Key): nat {
    if WithKey(prior, key).Some? && WithKey(prior, key).value.attempt > 0 then WithKey(prior, key).value.attempt
    else |prior| + 1
  }

  ghost function FileText(session: string, pull: nat, head: string): string {
    session + "-pr" + Decimal(pull) + "-" + (if |head| >= 12 then head[..12] else head) + ".json"
  }

  ghost predicate Escalated(store: Store, call: Call) {
    var prior := Prior(store.events, call.subject, call.pull);
    RepairEscalation(Escalation(call.subject, call.pull, call.key.head, |prior|, call.detail)) in store.events
  }

  /** What is logged: a receipt for a failure not known, while fewer than three are; from then on an escalation that
      names the subject, PR, head, the number of attempts and the blocker, unless it stands already. */
  lemma LogExact(store: Store, session: string, call: Call, writes: nat)
    ensures var prior := Prior(store.events, call.subject, call.pull);
            var after := Review(store, session, call, writes).0.events;
            after == store.events
                     + if Known(prior, call.key) || writes == 0 then []
                       else if |prior| < 3 then
                         [RepairReceipt(Receipt(call.subject, call.pull, call.key, |prior| + 1, call.detail))]
                       else if Escalated(store, call) then []
                       else
                         [RepairEscalation(Escalation(call.subject, call.pull, call.key.head, |prior|, call.detail))]
  {
    var prior := Prior(store.events, call.subject, call.pull);
    KnownExact(prior, call.key);
    EnsuredExact(store.events, RepairEscalation(EscalationFor(prior, call)));
    assert store.events + [] == store.events;
  }

  /** An event stands in the log, or is put behind it. */
  lemma EnsuredExact(events: seq<Event>, e: Event)
    ensures Ensured(events, e).0 == (if e in events then events else events + [e])
    ensures Count(events, e) == 0 <==> e !in events
  {
    CountExact(events, e);
  }

  /** What is filed: the receipt, once the failure is logged and unless its file is there. */
  lemma FilesExact(store: Store, session: string, call: Call, writes: nat)
    ensures var prior := Prior(store.events, call.subject, call.pull);
            var path, known := FileText(session, call.pull, call.key.head), Known(prior, call.key);
            Review(store, session, call, writes).0.files ==
            if (known && path !in store.files && writes > 0) || (!known && |prior| < 3 && writes > 1)
            then store.files[path := Receipt(call.subject, call.pull, call.key, Attempt(prior, call.key), call.detail)]
            else store.files
  {
    KnownExact(Prior(store.events, call.subject, call.pull), call.key);
  }

  /** What is answered. */
  lemma OutcomeExact(store: Store, session: string, call: Call, writes: nat)
    ensures var prior := Prior(store.events, call.subject, call.pull);
            var path, known := FileText(session, call.pull, call.key.head), Known(prior, call.key);
            var receipt := Receipt(call.subject, call.pull, call.key, Attempt(prior, call.key), call.detail);
            var e := RepairEscalation(Escalation(call.subject, call.pull, call.key.head, |prior|, call.detail));
            var outcome := Review(store, session, call, writes).1;
            && (outcome == Done(receipt) <==>
                  || (known && (if path in store.files then store.files[path] == receipt else writes > 0))
                  || (!known && |prior| < 3 && writes > 1))
            && (outcome.Done? ==> outcome.receipt == receipt)
            && (outcome == Exhausted <==>
                  && !known && |prior| >= 3
                  && (multiset(store.events)[e] == 1 || (writes > 0 && e !in store.events)))
            && (outcome == ReadbackFailed <==>
                  || (known && path in store.files && store.files[path] != receipt)
                  || (!known && |prior| >= 3 && multiset(store.events)[e] > 1))
  {
    var prior := Prior(store.events, call.subject, call.pull);
    KnownExact(prior, call.key);
    CountExact(store.events, RepairEscalation(EscalationFor(prior, call)));
  }

  // ----- a run of repairs

  /** A run goes on by whole repairs, each from the store the one before it left. */
  lemma {:induction false} RunExact(store: Store, session: string, calls: seq<(Call, nat)>)
    returns (stores: seq<Store>)
    ensures |stores| == |calls| + 1 && stores[0] == store && stores[|calls|] == RunAll(store, session, calls)
    ensures forall k :: 0 <= k < |calls| ==> stores[k + 1] == Review(stores[k], session, calls[k].0, calls[k].1).0
  {
    if calls == [] {
      stores := [store];
    } else {
      var n := |calls| - 1;
      var before := RunExact(store, session, calls[..n]);
      stores := before + [RunAll(store, session, calls)];
      forall k | 0 <= k < |calls| ensures stores[k + 1] == Review(stores[k], session, calls[k].0, calls[k].1).0 {
        if k < n { assert calls[..n][k] == calls[k]; }
      }
    }
  }
}
