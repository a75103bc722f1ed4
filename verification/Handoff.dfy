/** The handoff and rerun ceremony over one session log and the provider's workflow runs
    (noodles.py:1368-1434, runtime_contract.py:899-1090). */
module Handoff {
  import opened Wrappers
  import opened Text

  /** One invocation: the subject, its PR and the exact candidate head. */
  datatype Call = Call(subject: string, pull: nat, head: string)

  /** The durable record of which run attempt is to be rerun. */
  datatype Intent = Intent(subject: string, pull: nat, head: string, run: nat, baseline: nat)

  datatype Message = Message(
    subject: Option<string>, pull: nat, head: string, run: nat, baseline: nat, text: string, blocking: bool)

  datatype Event = RerunIntent(intent: Intent) | StageMessage(message: Message) | OtherEvent

  type Log = seq<Event>

  datatype Status = Active | Completed | UnknownStatus

  datatype Conclusion = NoConclusion | Failed | OtherConclusion

  datatype Run = Run(attempt: nat, status: Status, conclusion: Conclusion, head: string, pulls: set<nat>)

  // ----- reading the log

  function Intents(log: Log): seq<Intent> {
    if log == [] then []
    else
      var last := log[|log| - 1];
      Intents(log[..|log| - 1]) + (if last.RerunIntent? then [last.intent] else [])
  }

  function Messages(log: Log, subject: string): seq<Message> {
    if log == [] then []
    else
      var last := log[|log| - 1];
      Messages(log[..|log| - 1], subject)
      + (if last.StageMessage? && last.message.subject == Some(subject) then [last.message] else [])
  }

  /** The stage messages, of any subject or none, that carry this text, run and baseline. */
  function Alike(log: Log, text: string, run: nat, baseline: nat): seq<Message> {
    if log == [] then []
    else
      var last := log[|log| - 1];
      Alike(log[..|log| - 1], text, run, baseline)
      + (if last.StageMessage? && SaysSo(last.message, text, run, baseline) then [last.message] else [])
  }

  predicate SaysSo(m: Message, text: string, run: nat, baseline: nat) {
    m.text == text && m.run == run && m.baseline == baseline
  }

  /** Some other stage message already reads like the blocking one would. */
  predicate Imitated(log: Log, call: Call, run: nat, baseline: nat) {
    Alike(log, MessageText(call, run, baseline), run, baseline) != []
  }

  function LastStageMessage(log: Log): Option<Message> {
    if log == [] then None
    else
      var last := log[|log| - 1];
      if last.StageMessage? then Some(last.message) else LastStageMessage(log[..|log| - 1])
  }

  function MessageText(call: Call, run: nat, baseline: nat): string {
    "Provider handoff ready: " + call.subject + " PR #" + Decimal(call.pull) + " exact head " + call.head
    + " verify run " + Decimal(run) + " after attempt " + Decimal(baseline)
    + "; park until trusted provider landing readback."
  }

  function MessageFor(call: Call, run: nat, baseline: nat): Message {
    Message(Some(call.subject), call.pull, call.head, run, baseline, MessageText(call, run, baseline), true)
  }

  datatype Receipt = Receipt(run: nat, baseline: nat)

  /** blocking_handoff_readback. */
  function BlockingReadback(log: Log, call: Call): Result<Option<Receipt>, ()> {
    var existing := Messages(log, call.subject);
    if |existing| > 1 then Err(())
    else if existing == [] then Ok(None)
    else
      var m := existing[0];
      if m == MessageFor(call, m.run, m.baseline) && m.run > 0 && m.baseline > 0 && LastStageMessage(log) == Some(m)
      then Ok(Some(Receipt(m.run, m.baseline)))
      else Err(())
  }

  /** handoff_rerun_intent_readback. */
  function IntentReadback(log: Log, call: Call): Result<Option<Intent>, ()> {
    var existing := Intents(log);
    if |existing| > 1 then Err(())
    else if existing == [] then Ok(None)
    else
      var i := existing[0];
      if i == Intent(call.subject, call.pull, call.head, i.run, i.baseline) && i.run > 0 && i.baseline > 0
      then Ok(Some(i))
      else Err(())
  }

  // ----- the provider

  predicate Matches(run: Run, call: Call) {
    run.head == call.head && call.pull in run.pulls
  }

  predicate FailedRun(run: Run) {
    run.status == Completed && run.conclusion == Failed
  }

  /** The completed failed required runs of this head and PR. */
  function Candidates(runs: map<nat, Run>, call: Call): set<nat> {
    set id | id in runs && id > 0 && runs[id].attempt > 0 && Matches(runs[id], call) && FailedRun(runs[id])
  }

  ghost predicate IsNewest(ids: set<nat>, id: nat) {
    id in ids && forall j :: j in ids ==> j <= id
  }

  method Newest(ids: set<nat>) returns (id: nat)
    requires ids != {}
    ensures IsNewest(ids, id)
  {
    id :| id in ids;
    var rest := ids - {id};
    while rest != {}
      invariant id in ids && rest <= ids && forall j :: j in ids && j !in rest ==> j <= id
      decreases rest
    {
      var j :| j in rest;
      if j > id { id := j; }
      rest := rest - {j};
    }
  }

  /** Is the run one the ceremony may post a rerun for, or adopt as the rerun already under way? */
  datatype Verdict = PostRerun | Adopt | Refuse

  function Judge(run: Run, intent: Intent, call: Call): Verdict {
    if !Matches(run, call) then Refuse
    else if run.attempt == intent.baseline then (if FailedRun(run) then PostRerun else Refuse)
    else if run.attempt == intent.baseline + 1 then
      (if run.status == UnknownStatus then Refuse
       else if run.status == Completed && run.conclusion == NoConclusion then Refuse
       else if run.status != Completed && run.conclusion != NoConclusion then Refuse
       else Adopt)
    else Refuse
  }

  /** A rerun is posted only for the intended run, still failed at its baseline, and adopted only when it is
      exactly one attempt past it and either known to be active without a conclusion or completed with one. */
  lemma JudgeExact(run: Run, intent: Intent, call: Call)
    ensures Judge(run, intent, call) == PostRerun <==>
              Matches(run, call) && run.attempt == intent.baseline && FailedRun(run)
    ensures Judge(run, intent, call) == Adopt <==>
              && Matches(run, call) && run.attempt == intent.baseline + 1 && run.status != UnknownStatus
              && (run.status == Completed <==> run.conclusion != NoConclusion)
  {
  }

  /** A standing message is the only one of its subject, is the one this call would log, and is the last
      stage message; a standing intent is the only one of the session and is this call's. */
  lemma ReadbackExact(log: Log, call: Call, receipt: Receipt, intent: Intent)
    ensures BlockingReadback(log, call) == Ok(Some(receipt)) <==>
              && Messages(log, call.subject) == [MessageFor(call, receipt.run, receipt.baseline)]
              && receipt.run > 0 && receipt.baseline > 0
              && LastStageMessage(log) == Some(MessageFor(call, receipt.run, receipt.baseline))
    ensures IntentReadback(log, call) == Ok(Some(intent)) <==>
              && Intents(log) == [intent] && intent.run > 0 && intent.baseline > 0
              && intent.subject == call.subject && intent.pull == call.pull && intent.head == call.head
    ensures BlockingReadback(log, call) == Ok(None) <==> Messages(log, call.subject) == []
    ensures IntentReadback(log, call) == Ok(None) <==> Intents(log) == []
  {
  }

  /** What others do meanwhile: runs appear and change, their attempts only grow; sessions log other events. */
  datatype Env = RunChanges(id: nat, run: Run) | LogEvent(message: Option<Message>)

  function Disturb(runs: map<nat, Run>, e: Env): map<nat, Run> {
    if e.RunChanges? && (e.id in runs ==> runs[e.id].attempt <= e.run.attempt) then runs[e.id := e.run] else runs
  }

  function Noise(e: Env): Log {
    if !e.LogEvent? then [] else if e.message.None? then [OtherEvent]
      else [StageMessage(e.message.value.(subject := None))]
  }

  /** What a series of such events leaves of the log and the runs. */
  ghost function AfterEvents(log: Log, runs: map<nat, Run>, es: seq<Env>): (Log, map<nat, Run>)
    decreases |es|
  {
    if es == [] then (log, runs) else AfterEvents(log + Noise(es[0]), Disturb(runs, es[0]), es[1..])
  }

  // ----- what every reachable state satisfies

  ghost predicate Passed(runs: map<nat, Run>, run: nat, baseline: nat) {
    run in runs && runs[run].attempt > baseline
  }

  /** One intent at most, whose run never falls behind its baseline; one blocking message per subject at
      most, backed by that intent and a run past its baseline; one posted rerun at most. */
  ghost predicate Safe(log: Log, runs: map<nat, Run>, posts: nat) {
    && |Intents(log)| <= 1
    && (forall i :: i in Intents(log) ==> i.run in runs && runs[i.run].attempt >= i.baseline)
    && posts <= 1
    && (posts == 1 ==> Intents(log) != [] && Passed(runs, Intents(log)[0].run, Intents(log)[0].baseline))
    && (forall s :: |Messages(log, s)| <= 1)
    && (forall s, m {:trigger Backed(log, runs, s, m)} :: m in Messages(log, s) ==> Backed(log, runs, s, m))
  }

  ghost predicate Backed(log: Log, runs: map<nat, Run>, s: string, m: Message) {
    && Passed(runs, m.run, m.baseline)
    && Intents(log) == [Intent(s, m.pull, m.head, m.run, m.baseline)]
  }

  lemma AppendEvent(log: Log, e: Event)
    ensures Intents(log + [e]) == Intents(log) + (if e.RerunIntent? then [e.intent] else [])
    ensures forall s :: Messages(log + [e], s) ==
              Messages(log, s) + (if e.StageMessage? && e.message.subject == Some(s) then [e.message] else [])
    ensures LastStageMessage(log + [e]) == if e.StageMessage? then Some(e.message) else LastStageMessage(log)
  {
    assert (log + [e])[..|log|] == log;
  }

  lemma AppendAlike(log: Log, e: Event, text: string, run: nat, baseline: nat)
    ensures Alike(log + [e], text, run, baseline) ==
              Alike(log, text, run, baseline)
                + (if e.StageMessage? && SaysSo(e.message, text, run, baseline) then [e.message] else [])
  {
    assert (log + [e])[..|log|] == log;
  }

  ghost predicate SameRecords(before: Log, after: Log) {
    Intents(after) == Intents(before) && forall s :: Messages(after, s) == Messages(before, s)
  }

  ghost predicate Grown(before: map<nat, Run>, after: map<nat, Run>) {
    forall id :: id in before ==> id in after && before[id].attempt <= after[id].attempt
  }

  /** The invariant depends on the log only through its records, and survives attempts that only grow. */
  lemma SafeCarries(log: Log, runs: map<nat, Run>, posts: nat, log': Log, runs': map<nat, Run>)
    requires Safe(log, runs, posts) && SameRecords(log, log') && Grown(runs, runs')
    ensures Safe(log', runs', posts)
  {
    forall s ensures |Messages(log', s)| <= 1 { assert Messages(log', s) == Messages(log, s); }
    forall s, m | m in Messages(log', s) ensures Backed(log', runs', s, m) {
      assert Messages(log', s) == Messages(log, s);
      assert Backed(log, runs, s, m);
    }
  }

  lemma NoiseIsNoRecord(log: Log, e: Env)
    ensures SameRecords(log, log + Noise(e))
  {
    if Noise(e) == [] {
      assert log + Noise(e) == log;
    } else {
      AppendEvent(log, Noise(e)[0]);
    }
  }

  /** Nothing others do can break the invariant. */
  lemma DisturbanceIsSafe(log: Log, runs: map<nat, Run>, posts: nat, e: Env)
    requires Safe(log, runs, posts)
    ensures Safe(log + Noise(e), Disturb(runs, e), posts)
    ensures SameRecords(log, log + Noise(e)) && Grown(runs, Disturb(runs, e))
  {
    NoiseIsNoRecord(log, e);
    SafeCarries(log, runs, posts, log + Noise(e), Disturb(runs, e));
  }

  lemma IntentIsSafe(log: Log, runs: map<nat, Run>, posts: nat, intent: Intent)
    requires Safe(log, runs, posts) && Intents(log) == [] && intent.run in runs
    requires runs[intent.run].attempt >= intent.baseline
    ensures Safe(log + [RerunIntent(intent)], runs, posts)
  {
    AppendEvent(log, RerunIntent(intent));
    assert forall s, m :: m in Messages(log, s) ==> Backed(log, runs, s, m);
  }

  lemma MessageIsSafe(log: Log, runs: map<nat, Run>, posts: nat, s: string, m: Message)
    requires Safe(log, runs, posts) && m.subject == Some(s) && Messages(log, s) == []
    requires Intents(log) == [Intent(s, m.pull, m.head, m.run, m.baseline)] && Passed(runs, m.run, m.baseline)
    ensures Safe(log + [StageMessage(m)], runs, posts)
  {
    AppendEvent(log, StageMessage(m));
    assert forall t, n :: n in Messages(log, t) ==> Backed(log, runs, t, n);
  }

  /** The provider's effect of an accepted rerun POST. */
  function Reran(runs: map<nat, Run>, id: nat): map<nat, Run>
    requires id in runs
  {
    runs[id := runs[id].(attempt := runs[id].attempt + 1, status := Active, conclusion := NoConclusion)]
  }

  /** A ceremony that died after its POST adopts that rerun when it is repeated, and however the run has advanced
      since, none posts again for it. */
  lemma RerunIsAdopted(runs: map<nat, Run>, runs': map<nat, Run>, intent: Intent, call: Call, again: Call)
    requires intent.run in runs && Judge(runs[intent.run], intent, call) == PostRerun
    requires Grown(Reran(runs, intent.run), runs')
    ensures Judge(Reran(runs, intent.run)[intent.run], intent, call) == Adopt
    ensures intent.run in runs' && Judge(runs'[intent.run], intent, again) != PostRerun
  {
    JudgeExact(runs'[intent.run], intent, again);
  }

  /** A rerun whose run was read at the recorded baseline is the first one posted, and leaves the run past its
      baseline, whatever others did to the runs and the log between the readback and the POST. */
  lemma PostIsSafe(log: Log, runs: map<nat, Run>, posts: nat, intent: Intent, log': Log, runs': map<nat, Run>)
    requires Safe(log, runs, posts) && Intents(log) == [intent] && intent.run in runs
    requires runs[intent.run].attempt == intent.baseline
    requires SameRecords(log, log') && Grown(runs, runs')
    ensures posts == 0 && intent.run in runs' && Safe(log', Reran(runs', intent.run), posts + 1)
    ensures Passed(Reran(runs', intent.run), intent.run, intent.baseline)
  {
    SafeCarries(log, runs, posts, log', Reran(runs', intent.run));
  }

  datatype Outcome = Ready(receipt: Receipt) | Refused | Died

  /** The state an undisturbed, uncut ceremony completes from. */
  ghost predicate CanFinish(log: Log, runs: map<nat, Run>, call: Call) {
    match BlockingReadback(log, call)
    case Err(_) => false
    case Ok(Some(_)) => true
    case Ok(None) =>
      match IntentReadback(log, call)
      case Err(_) => false
      case Ok(None) => exists id :: IsNewest(Candidates(runs, call), id) && !Imitated(log, call, id, runs[id].attempt)
      case Ok(Some(i)) =>
        i.run in runs && Judge(runs[i.run], i, call) != Refuse && !Imitated(log, call, i.run, i.baseline)
  }

  /** The state it posts a rerun from. */
  ghost predicate WillPost(log: Log, runs: map<nat, Run>, call: Call) {
    && BlockingReadback(log, call) == Ok(None)
    && IntentReadback(log, call).Ok?
    && match IntentReadback(log, call).value
       case None => Candidates(runs, call) != {}
       case Some(i) => i.run in runs && Judge(runs[i.run], i, call) == PostRerun
  }

  /** The intent on record, or a new one for the newest failed run at its present attempt. */
  ghost predicate GoesBy(log: Log, runs: map<nat, Run>, call: Call, intent: Intent) {
    || IntentReadback(log, call) == Ok(Some(intent))
    || (IntentReadback(log, call) == Ok(None) && IsNewest(Candidates(runs, call), intent.run)
        && intent == Intent(call.subject, call.pull, call.head, intent.run, runs[intent.run].attempt))
  }

  /** There is an intent to go by. */
  ghost predicate HasIntent(log: Log, runs: map<nat, Run>, call: Call) {
    match IntentReadback(log, call)
    case Err(_) => false
    case Ok(None) => Candidates(runs, call) != {}
    case Ok(Some(_)) => true
  }

  /** The two outcomes of an undisturbed ceremony, by the intent it goes by. */
  lemma FinishExact(log: Log, runs: map<nat, Run>, call: Call, intent: Intent)
    requires BlockingReadback(log, call) == Ok(None) && GoesBy(log, runs, call, intent) && intent.run in runs
    ensures var verdict := Judge(runs[intent.run], intent, call);
            && (CanFinish(log, runs, call) <==> verdict != Refuse && !Imitated(log, call, intent.run, intent.baseline))
            && (WillPost(log, runs, call) <==> verdict == PostRerun)
  {
    if IntentReadback(log, call) == Ok(None) {
      assert forall id :: IsNewest(Candidates(runs, call), id) ==> id == intent.run;
    }
  }

  /** The log the intent is recorded in decides the same. */
  lemma IntentFinishExact(log: Log, runs: map<nat, Run>, call: Call, intent: Intent, log': Log)
    requires BlockingReadback(log, call) == Ok(None) && GoesBy(log, runs, call, intent) && intent.run in runs
    requires log' == log || log' == log + [RerunIntent(intent)]
    ensures var verdict := Judge(runs[intent.run], intent, call);
            && (CanFinish(log, runs, call) <==> verdict != Refuse && !Imitated(log', call, intent.run, intent.baseline))
            && (WillPost(log, runs, call) <==> verdict == PostRerun)
  {
    FinishExact(log, runs, call, intent);
    AppendAlike(log, RerunIntent(intent), MessageText(call, intent.run, intent.baseline), intent.run, intent.baseline);
  }

  lemma NoIntentNoFinish(log: Log, runs: map<nat, Run>, call: Call)
    requires BlockingReadback(log, call) == Ok(None) && !HasIntent(log, runs, call)
    ensures !CanFinish(log, runs, call) && !WillPost(log, runs, call)
  {
  }

  /** The blocking message a ceremony parks on. */
  function ParkOn(call: Call, intent: Intent): Event {
    StageMessage(MessageFor(call, intent.run, intent.baseline))
  }

  ghost predicate Parks(before: Log, call: Call, intent: Intent, receipt: Receipt, after: Log) {
    receipt == Receipt(intent.run, intent.baseline) && after == before + [ParkOn(call, intent)]
  }

  /** The message just logged is read back by both readbacks, and is no intent. */
  lemma MessageReadsBack(log: Log, call: Call, run: nat, baseline: nat)
    requires BlockingReadback(log, call) == Ok(None) && !Imitated(log, call, run, baseline) && run > 0 && baseline > 0
    ensures var m := MessageFor(call, run, baseline); var after := log + [StageMessage(m)];
            && Alike(after, m.text, run, baseline) == [m] && LastStageMessage(after) == Some(m)
            && BlockingReadback(after, call) == Ok(Some(Receipt(run, baseline))) && Intents(after) == Intents(log)
  {
    var m := MessageFor(call, run, baseline);
    AppendEvent(log, StageMessage(m));
    AppendAlike(log, StageMessage(m), m.text, run, baseline);
  }

  /** What a ceremony that finishes logs: the intent, unless it was on record, and the message. */
  function Records(log: Log, call: Call, receipt: Receipt): Log {
    var intent := Intent(call.subject, call.pull, call.head, receipt.run, receipt.baseline);
    (if Intents(log) == [] then [RerunIntent(intent)] else []) + [ParkOn(call, intent)]
  }

  lemma RecordsExact(log: Log, call: Call, intent: Intent, log': Log)
    requires intent.subject == call.subject && intent.pull == call.pull && intent.head == call.head
    requires log' == if Intents(log) == [] then log + [RerunIntent(intent)] else log
    ensures forall receipt, after ::
              Parks(log', call, intent, receipt, after) ==> after == log + Records(log, call, receipt)
  {
  }

  class Host {
    var log: Log
    var runs: map<nat, Run>
    var awaiting: set<string>
    var posts: nat

    ghost predicate Valid()
      reads this
    {
      Safe(log, runs, posts)
    }

    constructor (log: Log, runs: map<nat, Run>)
      requires Intents(log) == [] && forall s :: Messages(log, s) == []
      ensures Valid() && this.log == log && this.runs == runs && posts == 0
    {
      this.log, this.runs, this.awaiting, this.posts := log, runs, {}, 0;
    }

    method Disturbed(es: seq<Env>)
      requires Valid()
      modifies this`log, this`runs
      ensures Valid() && SameRecords(old(log), log) && Grown(old(runs), runs)
      ensures es == [] ==> log == old(log) && runs == old(runs)
      ensures (log, runs) == AfterEvents(old(log), old(runs), es)
    {
      for k := 0 to |es|
        invariant Valid() && SameRecords(old(log), log) && Grown(old(runs), runs)
        invariant k == 0 ==> log == old(log) && runs == old(runs)
        invariant AfterEvents(old(log), old(runs), es) == AfterEvents(log, runs, es[k..])
      {
        DisturbanceIsSafe(log, runs, posts, es[k]);
        log, runs := log + Noise(es[k]), Disturb(runs, es[k]);
      }
    }

    /** emit_handoff_rerun_intent: appends once, and reads back what is there otherwise. */
    method EmitIntent(call: Call, run: nat, baseline: nat) returns (r: Result<Intent, ()>)
      requires Valid() && run > 0 && baseline > 0 && run in runs && runs[run].attempt >= baseline
      modifies this`log
      ensures Valid()
      ensures var expected := Intent(call.subject, call.pull, call.head, run, baseline);
              if IntentReadback(old(log), call) == Ok(None) then
                log == old(log) + [RerunIntent(expected)] && r == Ok(expected)
              else
                log == old(log) && (r == Ok(expected) || r.Err?)
                && (r.Ok? <==> IntentReadback(log, call) == Ok(Some(expected)))
    {
      var expected := Intent(call.subject, call.pull, call.head, run, baseline);
      var existing := IntentReadback(log, call);
      if existing.Err? {
        return Err(());
      }
      if existing.value.Some? {
        return if existing.value.value == expected then Ok(expected) else Err(());
      }
      AppendEvent(log, RerunIntent(expected));
      IntentIsSafe(log, runs, posts, expected);
      log := log + [RerunIntent(expected)];
      var observed := IntentReadback(log, call);
      r := if observed == Ok(Some(expected)) then Ok(expected) else Err(());
    }

    /** emit_blocking_handoff: appends once, for a run past its recorded baseline. */
    method EmitMessage(call: Call, run: nat, baseline: nat) returns (r: Result<Receipt, ()>)
      requires Valid() && run > 0 && baseline > 0 && Passed(runs, run, baseline)
      requires Intents(log) == [Intent(call.subject, call.pull, call.head, run, baseline)]
      modifies this`log
      ensures Valid() && Intents(log) == old(Intents(log))
      ensures if BlockingReadback(old(log), call) == Ok(None) then
                if Imitated(old(log), call, run, baseline) then
                  log == old(log) && r.Err?
                else
                  log == old(log) + [StageMessage(MessageFor(call, run, baseline))] && r == Ok(Receipt(run, baseline))
              else
                log == old(log)
                && (r.Ok? ==> r == Ok(Receipt(run, baseline)) && BlockingReadback(log, call) == Ok(Some(r.value)))
      ensures r.Ok? ==> BlockingReadback(log, call) == Ok(Some(r.value))
    {
      var existing := BlockingReadback(log, call);
      if existing.Err? {
        return Err(());
      }
      if existing.value.Some? {
        return if existing.value.value == Receipt(run, baseline) then Ok(Receipt(run, baseline)) else Err(());
      }
      var message := MessageFor(call, run, baseline);
      var alike := Alike(log, message.text, run, baseline);
      if |alike| > 1 {
        return Err(());
      }
      if alike == [] {
        MessageIsSafe(log, runs, posts, call.subject, message);
        MessageReadsBack(log, call, run, baseline);
        log := log + [StageMessage(message)];
      }
      var observed := Alike(log, message.text, run, baseline);
      if |observed| != 1 || LastStageMessage(log) != Some(observed[0]) {
        return Err(());
      }
      var receipt := BlockingReadback(log, call);
      r := if receipt == Ok(Some(Receipt(run, baseline))) then Ok(Receipt(run, baseline)) else Err(());
    }

    /** A new intent for a run read at its baseline; others act before it is logged. */
    method LogIntent(call: Call, run: nat, baseline: nat, meanwhile: seq<Env>) returns (intent: Intent)
      requires Valid() && Intents(log) == []
      requires run > 0 && baseline > 0 && run in runs && runs[run].attempt >= baseline
      modifies this`log, this`runs
      ensures Valid() && Grown(old(runs), runs) && (forall s :: Messages(log, s) == Messages(old(log), s))
      ensures intent == Intent(call.subject, call.pull, call.head, run, baseline) && Intents(log) == [intent]
      ensures meanwhile == [] ==> runs == old(runs) && log == old(log) + [RerunIntent(intent)]
    {
      Disturbed(meanwhile);
      ghost var before := log;
      assert Intents(before) == [] && IntentReadback(before, call) == Ok(None);
      var emitted := EmitIntent(call, run, baseline);
      intent := emitted.value;
      AppendEvent(before, RerunIntent(intent));
    }

    /** The recorded intent, or a new one for the newest failed run. None when there is no failed run. */
    method ObtainIntent(call: Call, meanwhile: seq<Env>) returns (r: Result<Intent, ()>)
      requires Valid()
      modifies this`log, this`runs
      ensures Valid() && Grown(old(runs), runs) && (forall s :: Messages(log, s) == Messages(old(log), s))
      ensures r.Ok? ==> IntentReadback(log, call) == Ok(Some(r.value)) && Intents(log) == [r.value]
      ensures r.Err? || Intents(old(log)) != [] ==> SameRecords(old(log), log)
      ensures meanwhile == [] ==> runs == old(runs)
      ensures meanwhile == [] && r.Ok? ==>
                log == if Intents(old(log)) == [] then old(log) + [RerunIntent(r.value)] else old(log)
      ensures meanwhile == [] && r.Err? ==> log == old(log)
      ensures meanwhile == [] ==> (r.Ok? <==> HasIntent(old(log), old(runs), call))
      ensures meanwhile == [] && r.Ok? ==> GoesBy(old(log), old(runs), call, r.value)
    {
      var recorded := IntentReadback(log, call);
      if recorded.Err? {
        return Err(());
      }
      if recorded.value.Some? {
        return Ok(recorded.value.value);
      }
      var ids := Candidates(runs, call);
      if ids == {} {
        return Err(());
      }
      var id := Newest(ids);
      var baseline := runs[id].attempt;
      var intent := LogIntent(call, id, baseline, meanwhile);
      r := Ok(intent);
    }

    /** Read the intended run back and, if it stands failed at the baseline, post its rerun. Others act between
        the readback and the POST, and the provider accepts the POST or refuses it. */
    method Rerun(call: Call, intent: Intent, between: seq<Env>, accepts: bool) returns (verdict: Verdict)
      requires Valid() && Intents(log) == [intent]
      modifies this`log, this`runs, this`posts
      ensures Valid() && SameRecords(old(log), log) && Grown(old(runs), runs)
      ensures old(intent.run in runs)
      ensures var judged := Judge(old(runs)[intent.run], intent, call);
              && verdict == (if judged == PostRerun && !accepts then Refuse else judged)
              && (judged != PostRerun ==> log == old(log) && runs == old(runs))
              && (judged == PostRerun ==>
                    var met := AfterEvents(old(log), old(runs), between);
                    && log == met.0 && intent.run in met.1
                    && runs == if accepts then Reran(met.1, intent.run) else met.1)
      ensures posts == old(posts) + if verdict == PostRerun then 1 else 0
      ensures verdict != Refuse ==> Passed(runs, intent.run, intent.baseline)
    {
      assert intent in Intents(log);
      verdict := Judge(runs[intent.run], intent, call);
      if verdict == PostRerun {
        ghost var read, at := log, runs;
        Disturbed(between);
        if !accepts { return Refuse; }
        PostIsSafe(read, at, posts, intent, log, runs);
        runs, posts := Reran(runs, intent.run), posts + 1;
      }
    }

    /** Park on one blocking message. */
    method Park(call: Call, intent: Intent, cut: nat, meanwhile: seq<Env>) returns (outcome: Outcome)
      requires Valid() && Intents(log) == [intent] && IntentReadback(log, call) == Ok(Some(intent))
      requires Messages(log, call.subject) == [] && Passed(runs, intent.run, intent.baseline)
      modifies this`log, this`runs
      ensures Valid()
      ensures outcome.Ready? ==> BlockingReadback(log, call) == Ok(Some(outcome.receipt))
      ensures meanwhile == [] && cut > 4 ==>
              && (outcome.Ready? <==> !Imitated(old(log), call, intent.run, intent.baseline))
              && (outcome.Ready? ==> Parks(old(log), call, intent, outcome.receipt, log))
    {
      Disturbed(meanwhile);
      var receipt := EmitMessage(call, intent.run, intent.baseline);
      if receipt.Err? { return Refused; }
      outcome := if cut == 4 then Died else Ready(receipt.value);
    }

    /** Rerun the recorded attempt unless it is under way already, then park on one blocking message. */
    method RerunAndPark(call: Call, intent: Intent, cut: nat, env: nat -> seq<Env>, accepts: bool)
      returns (outcome: Outcome)
      requires Valid() && Intents(log) == [intent] && IntentReadback(log, call) == Ok(Some(intent))
      requires Messages(log, call.subject) == []
      modifies this`log, this`runs, this`posts
      ensures Valid() && old(posts) <= posts
      ensures outcome.Ready? ==> BlockingReadback(log, call) == Ok(Some(outcome.receipt))
      ensures env(3) == [] && env(4) == [] && env(5) == [] && cut > 4 && accepts ==>
                var verdict := Judge(old(runs)[intent.run], intent, call);
                && (outcome.Ready? <==> verdict != Refuse && !Imitated(old(log), call, intent.run, intent.baseline))
                && (outcome.Ready? ==> Parks(old(log), call, intent, outcome.receipt, log))
                && (posts == old(posts) + 1 <==> verdict == PostRerun)
    {
      Disturbed(env(3));
      var verdict := Rerun(call, intent, env(4), accepts);
      if verdict == Refuse { return Refused; }
      if verdict == PostRerun && cut == 3 { return Died; }
      outcome := Park(call, intent, cut, env(5));
    }

    /** The ceremony once no blocking message stands. */
    method Ceremony(call: Call, cut: nat, env: nat -> seq<Env>, accepts: bool) returns (outcome: Outcome)
      requires Valid() && BlockingReadback(log, call) == Ok(None)
      modifies this`log, this`runs, this`posts
      ensures Valid() && old(posts) <= posts
      ensures outcome.Ready? ==> BlockingReadback(log, call) == Ok(Some(outcome.receipt))
      ensures (forall k :: env(k) == []) && cut > 4 && accepts ==>
                && (outcome.Ready? <==> CanFinish(old(log), old(runs), call))
                && (outcome.Ready? ==> log == old(log) + Records(old(log), call, outcome.receipt))
                && (posts == old(posts) + 1 <==> WillPost(old(log), old(runs), call))
    {
      ghost var before := log;
      var obtained := ObtainIntent(call, env(2));
      if obtained.Err? {
        if env(2) == [] { NoIntentNoFinish(before, runs, call); }
        return Refused;
      }
      var intent := obtained.value;
      assert intent in Intents(log);
      if env(2) == [] {
        IntentFinishExact(before, runs, call, intent, log);
        RecordsExact(before, call, intent, log);
      }
      if cut == 2 { return Died; }
      outcome := RerunAndPark(call, intent, cut, env, accepts);
    }

    /** The state flip that opens the ceremony. */
    method Open(call: Call, cut: nat, env: nat -> seq<Env>) returns (died: bool)
      requires Valid()
      modifies this`log, this`runs, this`awaiting
      ensures Valid() && SameRecords(old(log), log)
      ensures env(0) == [] && env(1) == [] ==> log == old(log) && runs == old(runs)
      ensures died <==> cut <= 1
      ensures awaiting == old(awaiting) + if cut == 0 then {} else {call.subject}
    {
      Disturbed(env(0));
      if cut == 0 { return true; }
      awaiting := awaiting + {call.subject};
      Disturbed(env(1));
      died := cut == 1;
    }

    /** execute_handoff past its guards. `cut` is the durable step it dies after (0: none yet; 1: the state flip;
        2: the intent; 3: the POST; 4: the message). env(k) is what others do in the meantime: before the flip,
        before the log is read, before the intent is logged, before the run is read back, between that
        readback and the POST, and before the message is logged. */
    method ExecuteHandoff(call: Call, cut: nat, env: nat -> seq<Env>, accepts: bool) returns (outcome: Outcome)
      requires Valid()
      modifies this
      ensures Valid() && old(posts) <= posts
      ensures awaiting == old(awaiting) + (if cut == 0 then {} else {call.subject})
      ensures outcome.Ready? ==> cut > 1 && BlockingReadback(log, call) == Ok(Some(outcome.receipt))
      ensures Messages(old(log), call.subject) != [] ==> posts == old(posts) && SameRecords(old(log), log)
      ensures (forall k :: env(k) == []) && cut > 4 && accepts ==>
                && (outcome.Ready? <==> CanFinish(old(log), old(runs), call))
                && (outcome.Ready? ==>
                      log == old(log) + if Messages(old(log), call.subject) != [] then []
                                        else Records(old(log), call, outcome.receipt))
                && (posts == old(posts) + 1 <==> WillPost(old(log), old(runs), call))
    {
      var died := Open(call, cut, env);
      if died { return Died; }
      var standing := BlockingReadback(log, call);
      if standing.Err? { return Refused; }
      if standing.value.Some? { return Ready(standing.value.value); }
      outcome := Ceremony(call, cut, env, accepts);
    }
  }

  datatype Turn = Attempt(call: Call, cut: nat, env: nat -> seq<Env>, accepts: bool) | Outside(es: seq<Env>)

  /** Any sequence of ceremonies, for any subjects, PRs and heads of one session, each cut anywhere, with runs
      that others advance and events they log before every step of it and between them: one intent, one message
      per subject, one posted rerun, and no message before its run attempt has passed the recorded baseline. */
  method AnyHistory(log: Log, runs: map<nat, Run>, turns: seq<Turn>) returns (host: Host)
    requires Intents(log) == [] && forall s :: Messages(log, s) == []
    ensures fresh(host) && host.Valid()
    ensures |Intents(host.log)| <= 1 && host.posts <= 1
    ensures forall s :: |Messages(host.log, s)| <= 1
    ensures forall s, m :: m in Messages(host.log, s) ==> Passed(host.runs, m.run, m.baseline)
  {
    host := new Host(log, runs);
    for k := 0 to |turns|
      invariant fresh(host) && host.Valid()
    {
      match turns[k]
      case Attempt(call, cut, env, accepts) => var _ := host.ExecuteHandoff(call, cut, env, accepts);
      case Outside(es) => host.Disturbed(es);
    }
    assert forall s, m :: m in Messages(host.log, s) ==> Backed(host.log, host.runs, s, m);
  }
}
