/** What the handoff ceremony reads and logs, said of the log and the runs alone
    (noodles.py:1368-1434, runtime_contract.py:899-1090). */
module HandoffExact {
  import opened Wrappers
  import opened Ordering
  import opened Text
  import opened Handoff

  // ----- the log

  function IntentAt(log: Log, k: nat): Option<Intent> {
    if k < |log| && log[k].RerunIntent? then Some(log[k].intent) else None
  }

  /** Every intent of the session, in order. */
  lemma {:induction false} IntentsExact(log: Log)
    ensures Picks(|log|, (k: nat) => IntentAt(log, k), Intents(log))
  {
    var pick := (k: nat) => IntentAt(log, k);
    if log == [] {
      PicksNothing(pick);
    } else {
      var n := |log| - 1;
      IntentsExact(log[..n]);
      PicksNext(n, (k: nat) => IntentAt(log[..n], k), pick, Intents(log[..n]));
    }
  }

  function MessageAt(log: Log, subject: string, k: nat): Option<Message> {
    if k < |log| && log[k].StageMessage? && log[k].message.subject == Some(subject) then Some(log[k].message) else None
  }

  /** Every stage message of the subject, in order. */
  lemma {:induction false} MessagesExact(log: Log, subject: string)
    ensures Picks(|log|, (k: nat) => MessageAt(log, subject, k), Messages(log, subject))
  {
    var pick := (k: nat) => MessageAt(log, subject, k);
    if log == [] {
      PicksNothing(pick);
    } else {
      var n := |log| - 1;
      MessagesExact(log[..n], subject);
      PicksNext(n, (k: nat) => MessageAt(log[..n], subject, k), pick, Messages(log[..n], subject));
    }
  }

  function AlikeAt(log: Log, text: string, run: nat, baseline: nat, k: nat): Option<Message> {
    if k < |log| && log[k].StageMessage?
       && log[k].message.text == text && log[k].message.run == run && log[k].message.baseline == baseline
    then Some(log[k].message) else None
  }

  /** Every stage message of that text, run and baseline, whoever's it is. */
  lemma {:induction false} AlikeExact(log: Log, text: string, run: nat, baseline: nat)
    ensures Picks(|log|, (k: nat) => AlikeAt(log, text, run, baseline, k), Alike(log, text, run, baseline))
  {
    var pick := (k: nat) => AlikeAt(log, text, run, baseline, k);
    if log == [] {
      PicksNothing(pick);
    } else {
      var n := |log| - 1;
      AlikeExact(log[..n], text, run, baseline);
      PicksNext(n, (k: nat) => AlikeAt(log[..n], text, run, baseline, k), pick, Alike(log[..n], text, run, baseline));
    }
  }

  /** The session's last stage message stands at place k. */
  ghost predicate LastAt(log: Log, m: Message, k: nat) {
    && k < |log| && log[k] == StageMessage(m) && forall j :: k < j < |log| ==> !log[j].StageMessage?
  }

  lemma {:induction false} LastExact(log: Log)
    ensures LastStageMessage(log).None? <==> forall k :: 0 <= k < |log| ==> !log[k].StageMessage?
    ensures LastStageMessage(log).Some? ==> exists k: nat :: LastAt(log, LastStageMessage(log).value, k)
  {
    if log == [] {
    } else {
      var n := |log| - 1;
      if log[n].StageMessage? {
        var m := log[n].message;
        assert LastStageMessage(log) == Some(m) && log[n] == StageMessage(m);
        assert LastAt(log, m, n);
      } else {
        LastExact(log[..n]);
        assert forall k :: 0 <= k < n ==> log[..n][k] == log[k];
        if LastStageMessage(log[..n]).Some? {
          var m := LastStageMessage(log[..n]).value;
          var k: nat :| LastAt(log[..n], m, k);
          assert LastAt(log, m, k);
        }
      }
    }
  }

  // ----- what is logged

  /** The message the ceremony parks on: blocking, of this call, run and baseline, with this text. */
  lemma ParksBlocked(call: Call, intent: Intent)
    ensures ParkOn(call, intent).StageMessage?
    ensures var m := ParkOn(call, intent).message;
            && m.blocking && m.subject == Some(call.subject) && m.pull == call.pull && m.head == call.head
            && m.run == intent.run && m.baseline == intent.baseline
            && m.text == "Provider handoff ready: " + call.subject + " PR #" + Decimal(call.pull) + " exact head "
                         + call.head + " verify run " + Decimal(intent.run) + " after attempt "
                         + Decimal(intent.baseline) + "; park until trusted provider landing readback."
  {
  }

  /** An intent is logged once, before the message, unless it was on record. */
  lemma RecordsInOrder(log: Log, call: Call, receipt: Receipt)
    ensures var intent := Intent(call.subject, call.pull, call.head, receipt.run, receipt.baseline);
            Records(log, call, receipt) == if Intents(log) == [] then [RerunIntent(intent), ParkOn(call, intent)]
                                           else [ParkOn(call, intent)]
  {
  }

  // ----- what is read

  /** A standing blocking message is read back exactly as logged. */
  ghost predicate Reads(m: Message, call: Call) {
    && m.blocking && m.subject == Some(call.subject) && m.pull == call.pull && m.head == call.head
    && m.run > 0 && m.baseline > 0 && m == ParkOn(call, Intent("", 0, "", m.run, m.baseline)).message
  }

  lemma StandingExact(log: Log, call: Call)
    ensures BlockingReadback(log, call) == Ok(None) <==> Messages(log, call.subject) == []
    ensures (exists receipt: Receipt :: BlockingReadback(log, call) == Ok(Some(receipt))) <==>
            exists m: Message ::
              Messages(log, call.subject) == [m] && Reads(m, call) && LastStageMessage(log) == Some(m)
    ensures forall receipt: Receipt :: BlockingReadback(log, call) == Ok(Some(receipt)) ==>
              Messages(log, call.subject) != [] && receipt.run == Messages(log, call.subject)[0].run
              && receipt.baseline == Messages(log, call.subject)[0].baseline
  {
    if m: Message :| Messages(log, call.subject) == [m] && Reads(m, call) && LastStageMessage(log) == Some(m) {
      assert BlockingReadback(log, call) == Ok(Some(Receipt(m.run, m.baseline)));
    }
    if receipt: Receipt :| BlockingReadback(log, call) == Ok(Some(receipt)) {
      var m := Messages(log, call.subject)[0];
      assert Messages(log, call.subject) == [m] && Reads(m, call) && LastStageMessage(log) == Some(m);
    }
  }

  /** A run of this head and PR that completed as a failure, at an attempt of its own. */
  ghost predicate FailedHere(run: Run, call: Call) {
    && run.head == call.head && call.pull in run.pulls && run.attempt > 0
    && run.status == Completed && run.conclusion == Failed
  }

  lemma CandidatesExact(runs: map<nat, Run>, call: Call, id: nat)
    ensures id in Candidates(runs, call) <==> id in runs && id > 0 && FailedHere(runs[id], call)
  {
  }

  /** A rerun is posted only for the intended run, still failed at its baseline, and adopted only when it is exactly
      one attempt past it and either known to be active without a conclusion or completed with one. */
  lemma VerdictExact(run: Run, intent: Intent, call: Call)
    ensures Judge(run, intent, call) == PostRerun <==>
              && run.head == call.head && call.pull in run.pulls && run.attempt == intent.baseline
              && run.status == Completed && run.conclusion == Failed
    ensures Judge(run, intent, call) == Adopt <==>
              && run.head == call.head && call.pull in run.pulls && run.attempt == intent.baseline + 1
              && ((run.status == Completed && run.conclusion != NoConclusion)
                  || (run.status == Active && run.conclusion == NoConclusion))
  {
  }

  /** A message is imitated when another stage message holds its text, run and baseline. */
  lemma ImitatedExact(log: Log, call: Call, run: nat, baseline: nat)
    ensures Imitated(log, call, run, baseline) <==>
            exists k: nat :: k < |log| && AlikeAt(log, MessageText(call, run, baseline), run, baseline, k).Some?
  {
    var text := MessageText(call, run, baseline);
    AlikeExact(log, text, run, baseline);
    var pick := (k: nat) => AlikeAt(log, text, run, baseline, k);
    PicksSome(|log|, pick, Alike(log, text, run, baseline));
    assert forall k: nat :: pick(k) == AlikeAt(log, text, run, baseline, k);
  }

  /** What others may do: a run may take any state whose attempt does not fall, and any event that is no record of
      this protocol may be logged. */
  lemma OthersMay(runs: map<nat, Run>, id: nat, run: Run, m: Message)
    ensures (id in runs ==> runs[id].attempt <= run.attempt) ==> Disturb(runs, RunChanges(id, run)) == runs[id := run]
    ensures Noise(LogEvent(None)) == [OtherEvent] && Noise(LogEvent(Some(m))) == [StageMessage(m.(subject := None))]
  {
  }
}
