/** Bounded repair over one session's event log and receipt files (repair_contract.py:48-207). */
module Repair {
  import opened Wrappers
  import opened Text

  const MAX_ATTEMPTS := 3

  /** The failure a repair answers. */
  datatype Key = Key(head: string, run: nat, job: nat)

  /** A repair receipt; `detail` stands for every field that is read back and not compared by key. */
  datatype Receipt = Receipt(subject: string, pull: nat, key: Key, attempt: nat, detail: string)

  datatype Escalation = Escalation(subject: string, pull: nat, head: string, attempts: nat, blocker: string)

  datatype Event = RepairReceipt(receipt: Receipt) | RepairEscalation(escalation: Escalation) | OtherEvent

  /** What survives a crash: the session log and the receipt files. */
  datatype Store = Store(events: seq<Event>, files: map<string, Receipt>)

  /** One repair past its guards, with the failed run and job it read back. */
  datatype Call = Call(subject: string, pull: nat, key: Key, detail: string)

  datatype Outcome = Done(receipt: Receipt) | Exhausted | ReadbackFailed | Died

  // ----- reading the log

  function Prior(events: seq<Event>, subject: string, pull: nat): seq<Receipt> {
    if events == [] then []
    else
      var last := events[|events| - 1];
      Prior(events[..|events| - 1], subject, pull)
      + (if last.RepairReceipt? && last.receipt.subject == subject && last.receipt.pull == pull
        then [last.receipt] else [])
  }

  function WithKey(receipts: seq<Receipt>, key: Key): Option<Receipt> {
    if receipts == [] then None
    else if receipts[0].key == key then Some(receipts[0])
    else WithKey(receipts[1..], key)
  }

  lemma {:induction false} WithKeyExact(receipts: seq<Receipt>, key: Key)
    ensures WithKey(receipts, key).None? <==> forall k :: 0 <= k < |receipts| ==> receipts[k].key != key
    ensures WithKey(receipts, key).Some? ==>
            WithKey(receipts, key).value in receipts && WithKey(receipts, key).value.key == key
  {
    if receipts == [] {
    } else {
      WithKeyExact(receipts[1..], key);
      assert forall k :: 1 <= k < |receipts| ==> receipts[k] == receipts[1..][k - 1];
    }
  }

  function Count(events: seq<Event>, e: Event): nat {
    if events == [] then 0 else Count(events[..|events| - 1], e) + (if events[|events| - 1] == e then 1 else 0)
  }

  lemma Append(events: seq<Event>, e: Event)
    ensures Count(events + [e], e) == Count(events, e) + 1
    ensures forall s, p :: Prior(events + [e], s, p) ==
              Prior(events, s, p)
                + (if e.RepairReceipt? && e.receipt.subject == s && e.receipt.pull == p then [e.receipt] else [])
  {
    assert (events + [e])[..|events|] == events;
  }

  function ReceiptPath(session: string, pull: nat, head: string): string {
    session + "-pr" + Decimal(pull) + "-" + (if |head| >= 12 then head[..12] else head) + ".json"
  }

  /** One session's receipts of two failures share a file exactly when PR and first twelve head digits agree. */
  lemma PathExact(session: string, p: nat, g: string, q: nat, h: string)
    requires |g| >= 12 && |h| >= 12
    ensures ReceiptPath(session, p, g) == ReceiptPath(session, q, h) <==> p == q && g[..12] == h[..12]
  {
    var front, s, t := session + "-pr", "-" + g[..12] + ".json", "-" + h[..12] + ".json";
    assert ReceiptPath(session, p, g) == front + Decimal(p) + s && ReceiptPath(session, q, h) == front + Decimal(q) + t;
    if ReceiptPath(session, p, g) == ReceiptPath(session, q, h) {
      Framed(front, Decimal(p), s, Decimal(q), t);
      DecimalInjective(p, q);
      assert g[..12] == s[1..13] && h[..12] == t[1..13];
    }
  }

  // ----- one repair, cut after `writes` durable writes

  /** ensure_session_event: the log with e in it once, if it can be, and whether that was read back. */
  function Ensured(events: seq<Event>, e: Event): (seq<Event>, bool) {
    if Count(events, e) > 1 then (events, false)
    else if Count(events, e) == 1 then (events, true)
    else (events + [e], true)
  }

  function AttemptOf(prior: seq<Receipt>, key: Key): nat {
    var existing := WithKey(prior, key);
    if existing.Some? && existing.value.attempt > 0 then existing.value.attempt else |prior| + 1
  }

  function ReceiptFor(prior: seq<Receipt>, call: Call): Receipt {
    Receipt(call.subject, call.pull, call.key, AttemptOf(prior, call.key), call.detail)
  }

  function EscalationFor(prior: seq<Receipt>, call: Call): Escalation {
    Escalation(call.subject, call.pull, call.key.head, |prior|, call.detail)
  }

  /** What one call leaves behind and returns. */
  function Review(store: Store, session: string, call: Call, writes: nat): (Store, Outcome) {
    var prior := Prior(store.events, call.subject, call.pull);
    var receipt := ReceiptFor(prior, call);
    var path := ReceiptPath(session, call.pull, call.key.head);
    if WithKey(prior, call.key).Some? then
      if path in store.files then (store, if store.files[path] == receipt then Done(receipt) else ReadbackFailed)
      else if writes == 0 then (store, Died)
      else (store.(files := store.files[path := receipt]), Done(receipt))
    else if |prior| >= MAX_ATTEMPTS then
      var e := RepairEscalation(EscalationFor(prior, call));
      if writes == 0 && Count(store.events, e) == 0 then (store, Died)
      else (store.(events := Ensured(store.events, e).0),
        if Ensured(store.events, e).1 then Exhausted else ReadbackFailed)
    else if writes == 0 then (store, Died)
    else
      var logged := store.(events := store.events + [RepairReceipt(receipt)]);
      if writes == 1 then (logged, Died) else (logged.(files := store.files[path := receipt]), Done(receipt))
  }

  lemma {:induction false} UnseenIsUncounted(events: seq<Event>, receipt: Receipt)
    requires receipt !in Prior(events, receipt.subject, receipt.pull)
    ensures Count(events, RepairReceipt(receipt)) == 0
  {
    if events == [] {
    } else {
      UnseenIsUncounted(events[..|events| - 1], receipt);
    }
  }

  class Session {
    const id: string
    var events: seq<Event>
    var files: map<string, Receipt>

    constructor (id: string, store: Store)
      ensures this.id == id && Kept() == store
    {
      this.id, this.events, this.files := id, store.events, store.files;
    }

    ghost function Kept(): Store
      reads this
    {
      Store(events, files)
    }

    method EnsureEvent(e: Event) returns (ok: bool)
      modifies this`events
      ensures (events, ok) == Ensured(old(events), e)
    {
      var observed := Count(events, e);
      if observed > 1 {
        return false;
      }
      if observed == 0 {
        Append(events, e);
        events := events + [e];
        observed := Count(events, e);
      }
      ok := observed == 1;
    }

    /** repair_review past its guards. */
    method RepairReview(call: Call, writes: nat) returns (outcome: Outcome)
      modifies this
      ensures (Kept(), outcome) == Review(old(Kept()), id, call, writes)
    {
      var prior := Prior(events, call.subject, call.pull);
      var existing := WithKey(prior, call.key);
      var attempt := if existing.Some? then existing.value.attempt else 0;
      if attempt <= 0 {
        attempt := |prior| + 1;
      }
      var receipt := Receipt(call.subject, call.pull, call.key, attempt, call.detail);
      var path := ReceiptPath(id, call.pull, call.key.head);
      if existing.Some? {
        if path !in files {
          if writes == 0 { return Died; }
          files := files[path := receipt];
        }
        return if files[path] == receipt then Done(receipt) else ReadbackFailed;
      }
      if |prior| >= MAX_ATTEMPTS {
        var e := RepairEscalation(EscalationFor(prior, call));
        if writes == 0 && Count(events, e) == 0 { return Died; }
        var ok := EnsureEvent(e);
        return if ok then Exhausted else ReadbackFailed;
      }
      if writes == 0 { return Died; }
      WithKeyExact(prior, call.key);
      UnseenIsUncounted(events, receipt);
      var ok := EnsureEvent(RepairReceipt(receipt));
      if !ok { return ReadbackFailed; }
      if writes == 1 { return Died; }
      files := files[path := receipt];
      outcome := if files[path] == receipt then Done(receipt) else ReadbackFailed;
    }
  }

  // ----- every run of repairs

  /** The receipts of one session, subject and PR: attempts 1..n in order, n at most 3, distinct failures. */
  ghost predicate Numbered(receipts: seq<Receipt>) {
    && |receipts| <= MAX_ATTEMPTS
    && (forall k :: 0 <= k < |receipts| ==> receipts[k].attempt == k + 1)
    && forall i, j :: 0 <= i < j < |receipts| ==> receipts[i].key != receipts[j].key
  }

  ghost predicate Bounded(events: seq<Event>) {
    forall s, p :: Numbered(Prior(events, s, p))
  }

  lemma NumberedNext(receipts: seq<Receipt>, receipt: Receipt)
    requires Numbered(receipts) && |receipts| < MAX_ATTEMPTS && receipt.attempt == |receipts| + 1
    requires WithKey(receipts, receipt.key).None?
    ensures Numbered(receipts + [receipt])
  {
    WithKeyExact(receipts, receipt.key);
  }

  lemma BoundedNext(events: seq<Event>, e: Event)
    requires Bounded(events)
    requires e.RepairReceipt? ==> Numbered(Prior(events, e.receipt.subject, e.receipt.pull) + [e.receipt])
    ensures Bounded(events + [e])
  {
    Append(events, e);
    forall s, p ensures Numbered(Prior(events + [e], s, p)) {
      assert Numbered(Prior(events, s, p));
    }
  }

  /** One call, cut anywhere, keeps every subject's receipts numbered, and logs at most one event:
      none when the failure is logged already. */
  lemma ReviewStaysBounded(store: Store, session: string, call: Call, writes: nat)
    requires Bounded(store.events)
    ensures var after := Review(store, session, call, writes).0.events;
            && Bounded(after) && store.events <= after && |after| <= |store.events| + 1
            && (WithKey(Prior(store.events, call.subject, call.pull), call.key).Some? ==> after == store.events)
  {
    var prior := Prior(store.events, call.subject, call.pull);
    assert Numbered(prior);
    if WithKey(prior, call.key).None? {
      if |prior| >= MAX_ATTEMPTS {
        BoundedNext(store.events, RepairEscalation(EscalationFor(prior, call)));
      } else {
        NumberedNext(prior, ReceiptFor(prior, call));
        BoundedNext(store.events, RepairReceipt(ReceiptFor(prior, call)));
      }
    }
  }

  /** A sequence of calls, each cut after some durable writes. */
  function RunAll(store: Store, session: string, calls: seq<(Call, nat)>): Store {
    if calls == [] then store
    else
      var last := calls[|calls| - 1];
      Review(RunAll(store, session, calls[..|calls| - 1]), session, last.0, last.1).0
  }

  lemma {:induction false} RunStaysBounded(store: Store, session: string, calls: seq<(Call, nat)>)
    requires Bounded(store.events)
    ensures Bounded(RunAll(store, session, calls).events) && store.events <= RunAll(store, session, calls).events
  {
    if calls == [] {
    } else {
      var last := calls[|calls| - 1];
      RunStaysBounded(store, session, calls[..|calls| - 1]);
      ReviewStaysBounded(RunAll(store, session, calls[..|calls| - 1]), session, last.0, last.1);
    }
  }

  /** A failure not logged yet is refused exactly when three receipts are, and then one escalation is logged. */
  lemma ExhaustionExact(store: Store, session: string, call: Call, writes: nat)
    requires writes > 0
    ensures var prior := Prior(store.events, call.subject, call.pull);
            var e := RepairEscalation(EscalationFor(prior, call));
            var (after, outcome) := Review(store, session, call, writes);
            && (outcome == Exhausted
               <==> WithKey(prior, call.key).None? && |prior| >= MAX_ATTEMPTS && Count(store.events, e) <= 1)
            && (outcome == Exhausted ==> Count(after.events, e) == 1 && after.files == store.files)
  {
    Append(store.events, RepairEscalation(EscalationFor(Prior(store.events, call.subject, call.pull), call)));
  }

  // ----- replay after a crash

  /** A finished repair is replayed to the same receipt by every repetition, which changes nothing. */
  lemma DoneIsReplayed(store: Store, session: string, call: Call, writes: nat, again: nat)
    requires Review(store, session, call, writes).1.Done?
    ensures var (after, outcome) := Review(store, session, call, writes);
            Review(after, session, call, again) == (after, outcome)
  {
    var prior := Prior(store.events, call.subject, call.pull);
    if WithKey(prior, call.key).None? {
      Append(store.events, RepairReceipt(ReceiptFor(prior, call)));
      WithKeyLast(prior, ReceiptFor(prior, call));
    }
  }

  /** A call that dies between the log and the file: its failure is logged with its receipt. */
  lemma CrashAfterLog(store: Store, session: string, call: Call)
    requires WithKey(Prior(store.events, call.subject, call.pull), call.key).None?
    requires |Prior(store.events, call.subject, call.pull)| < MAX_ATTEMPTS
    ensures var prior := Prior(store.events, call.subject, call.pull);
            var (crashed, outcome) := Review(store, session, call, 1);
            && outcome == Died && crashed.files == store.files
            && WithKey(Prior(crashed.events, call.subject, call.pull), call.key) == Some(ReceiptFor(prior, call))
            && ReceiptFor(Prior(crashed.events, call.subject, call.pull), call) == ReceiptFor(prior, call)
  {
    var prior := Prior(store.events, call.subject, call.pull);
    Append(store.events, RepairReceipt(ReceiptFor(prior, call)));
    WithKeyLast(prior, ReceiptFor(prior, call));
  }

  /** Repeating the call recovers it, and logs nothing, exactly when its file is missing or already holds its
      receipt; otherwise every repetition fails its readback and changes nothing. */
  lemma CrashRecoveryExact(store: Store, session: string, call: Call, writes: nat)
    requires WithKey(Prior(store.events, call.subject, call.pull), call.key).None? && writes > 0
    requires |Prior(store.events, call.subject, call.pull)| < MAX_ATTEMPTS
    ensures var crashed := Review(store, session, call, 1).0;
            var path := ReceiptPath(session, call.pull, call.key.head);
            var receipt := ReceiptFor(Prior(store.events, call.subject, call.pull), call);
            var recovers := path !in store.files || store.files[path] == receipt;
            && Review(crashed, session, call, writes).0.events == crashed.events
            && (Review(crashed, session, call, writes).1.Done? <==> recovers)
            && (!recovers ==> Review(crashed, session, call, writes) == (crashed, ReadbackFailed))
  {
    CrashAfterLog(store, session, call);
  }

  /** Every file holds a receipt under its own path, and the failure of that receipt is logged under the same
      attempt. */
  ghost predicate Filed(store: Store, session: string) {
    forall f :: f in store.files ==> FiledAt(store, session, f)
  }

  ghost predicate FiledAt(store: Store, session: string, f: string)
    requires f in store.files
  {
    var r := store.files[f];
    var logged := WithKey(Prior(store.events, r.subject, r.pull), r.key);
    f == ReceiptPath(session, r.pull, r.key.head) && logged.Some? && logged.value.attempt == r.attempt
  }

  lemma {:induction false} WithKeyKept(prior: seq<Receipt>, receipt: Receipt, key: Key)
    requires WithKey(prior, key).Some?
    ensures WithKey(prior + [receipt], key) == WithKey(prior, key)
  {
    if prior[0].key == key {
    } else {
      assert (prior + [receipt])[1..] == prior[1..] + [receipt];
      WithKeyKept(prior[1..], receipt, key);
    }
  }

  lemma AppendKeepsFiled(store: Store, session: string, e: Event)
    requires Filed(store, session)
    ensures Filed(store.(events := store.events + [e]), session)
  {
    var more := store.(events := store.events + [e]);
    Append(store.events, e);
    forall f | f in store.files ensures FiledAt(more, session, f) {
      assert FiledAt(store, session, f);
      var r := store.files[f];
      var prior := Prior(store.events, r.subject, r.pull);
      if e.RepairReceipt? && e.receipt.subject == r.subject && e.receipt.pull == r.pull {
        WithKeyKept(prior, e.receipt, r.key);
      } else {
        assert prior + [] == prior;
      }
    }
  }

  lemma WriteKeepsFiled(store: Store, session: string, r: Receipt)
    requires Filed(store, session)
    requires var logged := WithKey(Prior(store.events, r.subject, r.pull), r.key);
             logged.Some? && logged.value.attempt == r.attempt
    ensures Filed(store.(files := store.files[ReceiptPath(session, r.pull, r.key.head) := r]), session)
  {
    var more := store.(files := store.files[ReceiptPath(session, r.pull, r.key.head) := r]);
    forall f | f in more.files ensures FiledAt(more, session, f) {
      assert f in store.files ==> FiledAt(store, session, f);
    }
  }

  lemma LoggedAttempt(store: Store, call: Call)
    requires Bounded(store.events) && WithKey(Prior(store.events, call.subject, call.pull), call.key).Some?
    ensures var prior := Prior(store.events, call.subject, call.pull);
            WithKey(prior, call.key).value.attempt == ReceiptFor(prior, call).attempt
  {
    var prior := Prior(store.events, call.subject, call.pull);
    WithKeyExact(prior, call.key);
    assert Numbered(prior);
  }

  /** Every call, cut anywhere, keeps files backed by the log. */
  lemma ReviewStaysFiled(store: Store, session: string, call: Call, writes: nat)
    requires Bounded(store.events) && Filed(store, session)
    ensures Filed(Review(store, session, call, writes).0, session)
  {
    var prior := Prior(store.events, call.subject, call.pull);
    var receipt := ReceiptFor(prior, call);
    if WithKey(prior, call.key).Some? {
      LoggedAttempt(store, call);
      WriteKeepsFiled(store, session, receipt);
    } else if |prior| >= MAX_ATTEMPTS {
      AppendKeepsFiled(store, session, RepairEscalation(EscalationFor(prior, call)));
    } else {
      AppendKeepsFiled(store, session, RepairReceipt(receipt));
      Append(store.events, RepairReceipt(receipt));
      WithKeyLast(prior, receipt);
      WriteKeepsFiled(store.(events := store.events + [RepairReceipt(receipt)]), session, receipt);
    }
  }

  lemma {:induction false} RunStaysFiled(store: Store, session: string, calls: seq<(Call, nat)>)
    requires Bounded(store.events) && Filed(store, session)
    ensures Filed(RunAll(store, session, calls), session)
  {
    if calls == [] {
    } else {
      var before, last := calls[..|calls| - 1], calls[|calls| - 1];
      RunStaysFiled(store, session, before);
      RunStaysBounded(store, session, before);
      ReviewStaysFiled(RunAll(store, session, before), session, last.0, last.1);
    }
  }

  /** In every store the runs of a session can reach, no file holds the receipt of a failure not logged yet, so
      there the crash is recovered exactly when the file is missing. */
  lemma CrashRecoveryInRuns(store: Store, session: string, call: Call, writes: nat)
    requires Filed(store, session)
    requires WithKey(Prior(store.events, call.subject, call.pull), call.key).None? && writes > 0
    requires |Prior(store.events, call.subject, call.pull)| < MAX_ATTEMPTS
    ensures var crashed := Review(store, session, call, 1).0;
            var path := ReceiptPath(session, call.pull, call.key.head);
            Review(crashed, session, call, writes).1.Done? <==> path !in store.files
  {
    CrashRecoveryExact(store, session, call, writes);
    var path := ReceiptPath(session, call.pull, call.key.head);
    assert path in store.files ==> FiledAt(store, session, path);
  }

  lemma {:induction false} WithKeyLast(prior: seq<Receipt>, receipt: Receipt)
    requires WithKey(prior, receipt.key).None?
    ensures WithKey(prior + [receipt], receipt.key) == Some(receipt)
  {
    if prior == [] {
    } else {
      assert (prior + [receipt])[1..] == prior[1..] + [receipt];
      WithKeyLast(prior[1..], receipt);
    }
  }

  /** So that crash wedges a second failure at one head of one PR: the first one's receipt holds the file. */
  lemma SecondFailureAtOneHeadWedges(session: string, subject: string, head: string, writes: nat)
    requires writes > 0
    ensures var first := Call(subject, 1, Key(head, 1, 1), "");
            var second := Call(subject, 1, Key(head, 2, 2), "");
            var crashed := Review(Review(Store([], map[]), session, first, 2).0, session, second, 1).0;
            Review(crashed, session, second, writes) == (crashed, ReadbackFailed)
  {
    var first := Call(subject, 1, Key(head, 1, 1), "");
    var store := Review(Store([], map[]), session, first, 2).0;
    var r := ReceiptFor([], first);
    Append([], RepairReceipt(r));
    assert store == Store([] + [RepairReceipt(r)], map[][ReceiptPath(session, 1, head) := r]);
    assert Prior(store.events, subject, 1) == [r];
    CrashRecoveryExact(store, session, Call(subject, 1, Key(head, 2, 2), ""), writes);
  }
}
