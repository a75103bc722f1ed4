/** The struggle verdict and the per-subject attempt monitor (schedule_domain.py:165-195, noodles.py:3923-3970). */
module Struggle {
  import opened Wrappers

  datatype Attempt = Attempt(subject: string, diagnostics: seq<string>, controls: seq<string>, head: string)

  datatype Reason = RevertOscillation | SameSignature

  datatype Verdict = Verdict(subject: string, signature: string, attempts: nat, reason: Reason)

  /** How an attempt's failure is reduced to a signature; the results below hold for every reduction. */
  type Signing = Attempt -> string

  // ----- one verdict

  predicate HeadReturns(attempts: seq<Attempt>) {
    && |attempts| >= 3
    && attempts[|attempts| - 1].head != attempts[|attempts| - 2].head
    && exists k | 0 <= k < |attempts| - 2 :: attempts[k].head == attempts[|attempts| - 1].head
  }

  /** Length of the trailing run of equal signatures. */
  function TrailingRun(sign: Signing, attempts: seq<Attempt>): nat {
    if attempts == [] then 0
    else if |attempts| > 1 && sign(attempts[|attempts| - 1]) == sign(attempts[|attempts| - 2])
      then TrailingRun(sign, attempts[..|attempts| - 1]) + 1
    else 1
  }

  predicate OneSubject(attempts: seq<Attempt>) {
    forall k :: 0 <= k < |attempts| ==> attempts[k].subject == attempts[0].subject
  }

  /** The verdict on a nonempty history of one subject. */
  function Judge(sign: Signing, attempts: seq<Attempt>, threshold: nat): Option<Verdict> {
    if attempts == [] then None
    else
      var last := attempts[|attempts| - 1];
      if HeadReturns(attempts) then Some(Verdict(last.subject, sign(last), |attempts|, RevertOscillation))
      else if TrailingRun(sign, attempts) >= threshold
        then Some(Verdict(last.subject, sign(last), TrailingRun(sign, attempts), SameSignature))
      else None
  }

  /** struggle_verdict; it refuses a threshold below two and a history of several subjects. */
  method StruggleVerdict(sign: Signing, attempts: seq<Attempt>, threshold: int) returns (r: Result<Option<Verdict>, ()>)
    ensures r.Err? <==> threshold < 2 || !OneSubject(attempts)
    ensures r.Ok? ==> r.value == Judge(sign, attempts, threshold)
  {
    if threshold < 2 {
      return Err(());
    }
    if attempts == [] {
      return Ok(None);
    }
    if !OneSubject(attempts) {
      return Err(());
    }
    var last := attempts[|attempts| - 1];
    if HeadReturns(attempts) {
      return Ok(Some(Verdict(last.subject, sign(last), |attempts|, RevertOscillation)));
    }
    var repeated, index := 1, |attempts| - 1;
    assert attempts[..|attempts|] == attempts;
    while index > 0 && sign(attempts[index]) == sign(attempts[index - 1])
      invariant 0 <= index < |attempts| && repeated == |attempts| - index
      invariant TrailingRun(sign, attempts) == repeated - 1 + TrailingRun(sign, attempts[..index + 1])
    {
      assert attempts[..index + 1][..index] == attempts[..index];
      repeated, index := repeated + 1, index - 1;
    }
    if repeated >= threshold {
      return Ok(Some(Verdict(last.subject, sign(last), repeated, SameSignature)));
    }
    r := Ok(None);
  }

  // ----- the two patterns, anywhere in a history

  ghost predicate Fires(sign: Signing, attempts: seq<Attempt>, threshold: nat) {
    Judge(sign, attempts, threshold).Some?
  }

  /** `threshold` attempts in a row, the last of them number n, share one signature. */
  ghost predicate StuckAt(sign: Signing, attempts: seq<Attempt>, threshold: nat, n: nat)
    requires n < |attempts|
  {
    && n + 1 >= threshold
    && forall k :: n + 1 - threshold <= k <= n ==> 0 <= k && sign(attempts[k]) == sign(attempts[n])
  }

  /** Attempt n goes back to a head already left. */
  ghost predicate ReturnsAt(attempts: seq<Attempt>, n: nat)
    requires n < |attempts|
  {
    n >= 2 && attempts[n].head != attempts[n - 1].head
    && exists k :: 0 <= k < n - 1 && attempts[k].head == attempts[n].head
  }

  ghost predicate PatternAt(sign: Signing, attempts: seq<Attempt>, threshold: nat, n: nat)
    requires n < |attempts|
  {
    StuckAt(sign, attempts, threshold, n) || ReturnsAt(attempts, n)
  }

  lemma {:induction false} TrailingRunExact(sign: Signing, attempts: seq<Attempt>, threshold: nat)
    requires attempts != [] && threshold >= 1
    ensures 1 <= TrailingRun(sign, attempts) <= |attempts|
    ensures TrailingRun(sign, attempts) >= threshold <==> StuckAt(sign, attempts, threshold, |attempts| - 1)
  {
    var n := |attempts| - 1;
    if n == 0 {
    } else {
      var before := attempts[..n];
      var here, previous := sign(attempts[n]), sign(attempts[n - 1]);
      if sign(attempts[n]) == sign(attempts[n - 1]) {
        TrailingRunExact(sign, before, if threshold > 1 then threshold - 1 else 1);
        if threshold > 1 {
          assert StuckAt(sign, before, threshold - 1, n - 1) <==> StuckAt(sign, attempts, threshold, n) by {
            assert forall k :: 0 <= k < n ==> before[k] == attempts[k];
            if StuckAt(sign, attempts, threshold, n) {
              forall k | n - 1 + 1 - (threshold - 1) <= k <= n - 1
                ensures 0 <= k && sign(before[k]) == sign(before[n - 1]) {
                assert sign(attempts[k]) == sign(attempts[n]);
              }
            }
          }
        }
      } else if threshold > 1 {
        assert StuckAt(sign, attempts, threshold, n) ==> previous == here;
      }
    }
  }

  /** The verdict fires after attempt n exactly when attempt n completes one of the patterns. */
  lemma FiresExact(sign: Signing, attempts: seq<Attempt>, threshold: nat, n: nat)
    requires n < |attempts| && threshold >= 2
    ensures Fires(sign, attempts[..n + 1], threshold) <==> PatternAt(sign, attempts, threshold, n)
  {
    var h := attempts[..n + 1];
    TrailingRunExact(sign, h, threshold);
    assert forall k :: 0 <= k <= n ==> h[k] == attempts[k];
    assert StuckAt(sign, h, threshold, n) <==> StuckAt(sign, attempts, threshold, n);
    assert HeadReturns(h) <==> ReturnsAt(attempts, n) by {
      if HeadReturns(h) {
        var k :| 0 <= k < n - 1 && h[k].head == h[n].head;
        assert attempts[k].head == attempts[n].head;
      }
      if ReturnsAt(attempts, n) {
        var k :| 0 <= k < n - 1 && attempts[k].head == attempts[n].head;
        assert h[k].head == h[n].head;
      }
    }
  }

  /** The verdict names the last attempt's subject and signature; it is an oscillation exactly when that
      attempt returns to a head already left, and otherwise counts the whole trailing run. */
  lemma VerdictExact(sign: Signing, attempts: seq<Attempt>, threshold: nat)
    requires threshold >= 2 && Judge(sign, attempts, threshold).Some?
    ensures var v, n := Judge(sign, attempts, threshold).value, |attempts| - 1;
            && n >= 0 && v.subject == attempts[n].subject && v.signature == sign(attempts[n])
            && (v.reason == RevertOscillation <==> ReturnsAt(attempts, n))
            && (v.reason == RevertOscillation ==> v.attempts == |attempts|)
            && (v.reason == SameSignature ==>
                  && threshold <= v.attempts <= |attempts|
                  && StuckAt(sign, attempts, v.attempts, n) && !StuckAt(sign, attempts, v.attempts + 1, n))
  {
    TrailingRunExact(sign, attempts, TrailingRun(sign, attempts));
    TrailingRunExact(sign, attempts, TrailingRun(sign, attempts) + 1);
    assert attempts[..|attempts|] == attempts;
  }

  // ----- the monitor of one generation

  datatype Receipt =
    Receipt(subject: string, number: int, diagnostics: seq<string>, controls: seq<string>, head: string)

  /** No attempt of the history completes a pattern. */
  ghost predicate Quiet(sign: Signing, history: seq<Attempt>, threshold: nat) {
    forall n: nat :: n < |history| ==> !PatternAt(sign, history, threshold, n)
  }

  /** The last attempt, and no earlier one, completes a pattern, and the verdict is the one on the whole history. */
  ghost predicate Stopped(sign: Signing, history: seq<Attempt>, threshold: nat, verdict: Verdict) {
    && history != [] && Judge(sign, history, threshold) == Some(verdict)
    && PatternAt(sign, history, threshold, |history| - 1)
    && Quiet(sign, history[..|history| - 1], threshold)
  }

  lemma QuietNext(sign: Signing, history: seq<Attempt>, threshold: nat, a: Attempt)
    requires threshold >= 2 && Quiet(sign, history, threshold)
    ensures var more := history + [a];
            && (Judge(sign, more, threshold).None? ==> Quiet(sign, more, threshold))
            && (Judge(sign, more, threshold).Some? ==>
               Stopped(sign, more, threshold, Judge(sign, more, threshold).value))
  {
    var more := history + [a];
    assert more[..|history|] == history && more[..|history| + 1] == more;
    FiresExact(sign, more, threshold, |history|);
    forall n: nat | n < |history| ensures !PatternAt(sign, more, threshold, n) {
      FiresExact(sign, history, threshold, n);
      FiresExact(sign, more, threshold, n);
      assert history[..n + 1] == more[..n + 1];
    }
  }

  /** Every subject's history, except a stopped subject's last attempt, holds neither pattern anywhere. */
  ghost predicate Consistent(
    sign: Signing, threshold: nat, attempted: map<string, seq<Attempt>>, struggling: map<string, Verdict>)
  {
    && struggling.Keys <= attempted.Keys
    && forall s {:trigger HistoryIs(sign, threshold, attempted, struggling, s)} ::
         s in attempted ==> HistoryIs(sign, threshold, attempted, struggling, s)
  }

  ghost predicate HistoryIs(
    sign: Signing, threshold: nat, attempted: map<string, seq<Attempt>>, struggling: map<string, Verdict>, s: string)
    requires s in attempted
  {
    && SubjectIs(attempted[s], s)
    && if s in struggling then Stopped(sign, attempted[s], threshold, struggling[s])
       else Quiet(sign, attempted[s], threshold)
  }

  lemma RecordKeepsConsistent(
    sign: Signing, threshold: nat, attempted: map<string, seq<Attempt>>, struggling: map<string, Verdict>, a: Attempt)
    requires threshold >= 2 && Consistent(sign, threshold, attempted, struggling) && a.subject !in struggling
    ensures var history := HistoryOf(attempted, a.subject) + [a];
            var verdict := Judge(sign, history, threshold);
            && OneSubject(history)
            && Consistent(sign, threshold, attempted[a.subject := history],
                          if verdict.Some? then struggling[a.subject := verdict.value] else struggling)
  {
    var before := HistoryOf(attempted, a.subject);
    assert a.subject in attempted ==> HistoryIs(sign, threshold, attempted, struggling, a.subject);
    QuietNext(sign, before, threshold, a);
    var history := before + [a];
    var verdict := Judge(sign, history, threshold);
    var attempted' := attempted[a.subject := history];
    var struggling' := if verdict.Some? then struggling[a.subject := verdict.value] else struggling;
    assert SubjectIs(history, a.subject);
    forall s | s in attempted' ensures HistoryIs(sign, threshold, attempted', struggling', s) {
      if s != a.subject { assert HistoryIs(sign, threshold, attempted, struggling, s); }
    }
  }

  class Monitor {
    const sign: Signing
    const threshold: nat
    var attempted: map<string, seq<Attempt>>
    var counted: set<(string, int)>
    var struggling: map<string, Verdict>

    ghost predicate Valid()
      reads this
    {
      threshold >= 2 && Consistent(sign, threshold, attempted, struggling)
    }

    constructor (sign: Signing, threshold: nat)
      requires threshold >= 2
      ensures Valid() && this.sign == sign && this.threshold == threshold
      ensures attempted == map[] && counted == {} && struggling == map[]
    {
      this.sign, this.threshold := sign, threshold;
      attempted, counted, struggling := map[], {}, map[];
    }

    /** One repair receipt: an attempt is counted once per number, and never again once its subject struggles. */
    method Observe(r: Receipt)
      requires Valid()
      modifies this
      ensures Valid()
      ensures r.subject == "" || r.subject in old(struggling) || (r.subject, r.number) in old(counted) ==>
              attempted == old(attempted) && counted == old(counted) && struggling == old(struggling)
      ensures r.subject != "" && r.subject !in old(struggling) && (r.subject, r.number) !in old(counted) ==>
                var history := (if r.subject in old(attempted) then old(attempted)[r.subject] else [])
                               + [Attempt(r.subject, r.diagnostics, r.controls, r.head)];
                var verdict := Judge(sign, history, threshold);
                && attempted == old(attempted)[r.subject := history]
                && counted == old(counted) + {(r.subject, r.number)}
                && struggling ==
                   (if verdict.Some? then old(struggling)[r.subject := verdict.value] else old(struggling))
    {
      if r.subject == "" || r.subject in struggling || (r.subject, r.number) in counted {
        return;
      }
      counted := counted + {(r.subject, r.number)};
      var history := HistoryOf(attempted, r.subject);
      RecordKeepsConsistent(sign, threshold, attempted, struggling, AttemptOf(r));
      history := history + [AttemptOf(r)];
      attempted := attempted[r.subject := history];
      var verdict := StruggleVerdict(sign, history, threshold);
      if verdict.value.Some? {
        struggling := struggling[r.subject := verdict.value.value];
      }
    }
  }

  function AttemptOf(r: Receipt): Attempt {
    Attempt(r.subject, r.diagnostics, r.controls, r.head)
  }

  function HistoryOf(attempted: map<string, seq<Attempt>>, subject: string): seq<Attempt> {
    if subject in attempted then attempted[subject] else []
  }

  ghost predicate SubjectIs(history: seq<Attempt>, subject: string) {
    forall k :: 0 <= k < |history| ==> history[k].subject == subject
  }

  /** Receipt k of the stream is the first with its subject and number. */
  ghost predicate IsFirst(receipts: seq<Receipt>, k: nat)
    requires k < |receipts|
  {
    forall j :: 0 <= j < k && receipts[j].subject == receipts[k].subject ==> receipts[j].number != receipts[k].number
  }

  /** The attempts of one subject in the stream: its receipts in order, the first of each number. */
  ghost function AttemptsIn(receipts: seq<Receipt>, s: string): seq<Attempt> {
    if receipts == [] then []
    else
      var n := |receipts| - 1;
      AttemptsIn(receipts[..n], s)
      + (if receipts[n].subject == s && IsFirst(receipts, n)
         then [Attempt(s, receipts[n].diagnostics, receipts[n].controls, receipts[n].head)] else [])
  }

  ghost predicate Seen(receipts: seq<Receipt>, s: string, number: int) {
    exists k :: 0 <= k < |receipts| && receipts[k].subject == s && receipts[k].number == number
  }

  lemma SeenNext(receipts: seq<Receipt>, r: Receipt, s: string, number: int)
    ensures Seen(receipts + [r], s, number) <==> Seen(receipts, s, number) || (r.subject == s && r.number == number)
  {
    var all := receipts + [r];
    assert all[|receipts|] == r;
    if k :| 0 <= k < |receipts| && receipts[k].subject == s && receipts[k].number == number {
      assert all[k] == receipts[k];
    }
  }

  lemma AttemptsNext(receipts: seq<Receipt>, r: Receipt, s: string)
    ensures AttemptsIn(receipts + [r], s) ==
            AttemptsIn(receipts, s)
            + (if r.subject == s && !Seen(receipts, s, r.number)
               then [Attempt(s, r.diagnostics, r.controls, r.head)] else [])
  {
    var all, n := receipts + [r], |receipts|;
    assert all[..n] == receipts && all[n] == r;
    assert forall k :: 0 <= k < n ==> all[k] == receipts[k];
    if r.subject == s { assert IsFirst(all, n) <==> !Seen(receipts, s, r.number); }
  }

  /** A stopped subject's history is the front of its attempts in the stream, any other subject's is all of them. */
  ghost predicate Follows(
    attempted: map<string, seq<Attempt>>, struggling: map<string, Verdict>, receipts: seq<Receipt>, s: string)
  {
    var history := if s in attempted then attempted[s] else [];
    history <= AttemptsIn(receipts, s) && (s !in struggling ==> history == AttemptsIn(receipts, s))
  }

  /** What a monitor holds of one subject after a stream. */
  ghost predicate Tracks(
    attempted: map<string, seq<Attempt>>, struggling: map<string, Verdict>, counted: set<(string, int)>,
    receipts: seq<Receipt>, s: string)
  {
    && Follows(attempted, struggling, receipts, s)
    && (s !in struggling ==> forall number :: (s, number) in counted <==> Seen(receipts, s, number))
  }

  predicate Ignored(r: Receipt, struggling: map<string, Verdict>, counted: set<(string, int)>) {
    r.subject == "" || r.subject in struggling || (r.subject, r.number) in counted
  }

  /** One more receipt: a subject other than its own keeps what is held of it. */
  lemma TracksOther(
    attempted: map<string, seq<Attempt>>, struggling: map<string, Verdict>, counted: set<(string, int)>,
    receipts: seq<Receipt>, r: Receipt, s: string, attempted': map<string, seq<Attempt>>,
    struggling': map<string, Verdict>, counted': set<(string, int)>)
    requires Tracks(attempted, struggling, counted, receipts, s) && r.subject != s
    requires (s in attempted' <==> s in attempted) && (s in attempted ==> attempted'[s] == attempted[s])
    requires (s in struggling' <==> s in struggling)
    requires forall number :: (s, number) in counted' <==> (s, number) in counted
    ensures Tracks(attempted', struggling', counted', receipts + [r], s)
  {
    AttemptsNext(receipts, r, s);
    forall number ensures Seen(receipts + [r], s, number) <==> Seen(receipts, s, number) {
      SeenNext(receipts, r, s, number);
    }
  }

  /** An ignored receipt of its own subject adds no attempt, or comes after the subject was stopped. */
  lemma TracksIgnored(
    attempted: map<string, seq<Attempt>>, struggling: map<string, Verdict>, counted: set<(string, int)>,
    receipts: seq<Receipt>, r: Receipt)
    requires r.subject != "" && Tracks(attempted, struggling, counted, receipts, r.subject)
    requires Ignored(r, struggling, counted)
    ensures Tracks(attempted, struggling, counted, receipts + [r], r.subject)
  {
    AttemptsNext(receipts, r, r.subject);
    forall number ensures Seen(receipts + [r], r.subject, number) <==>
                          Seen(receipts, r.subject, number) || number == r.number {
      SeenNext(receipts, r, r.subject, number);
    }
  }

  /** Any other is its next attempt. */
  lemma TracksCounted(
    attempted: map<string, seq<Attempt>>, struggling: map<string, Verdict>, counted: set<(string, int)>,
    receipts: seq<Receipt>, r: Receipt, struggling': map<string, Verdict>)
    requires Tracks(attempted, struggling, counted, receipts, r.subject) && !Ignored(r, struggling, counted)
    ensures var history := (if r.subject in attempted then attempted[r.subject] else [])
                           + [Attempt(r.subject, r.diagnostics, r.controls, r.head)];
            Tracks(attempted[r.subject := history], struggling', counted + {(r.subject, r.number)}, receipts + [r],
                   r.subject)
  {
    AttemptsNext(receipts, r, r.subject);
    forall number ensures Seen(receipts + [r], r.subject, number) <==>
                          Seen(receipts, r.subject, number) || number == r.number {
      SeenNext(receipts, r, r.subject, number);
    }
  }

  /** Over any stream of receipts: the history of a subject is its receipts' attempts, the first of each number, in
      order; one that struggles was stopped by the first attempt to complete a pattern, the last it records, and any
      other subject's history is complete and holds no pattern. */
  method Generation(sign: Signing, threshold: nat, receipts: seq<Receipt>) returns (monitor: Monitor)
    requires threshold >= 2
    ensures fresh(monitor) && monitor.Valid() && monitor.sign == sign && monitor.threshold == threshold
    ensures forall s :: s != "" ==> Follows(monitor.attempted, monitor.struggling, receipts, s)
    ensures "" !in monitor.attempted
    ensures forall s :: s in monitor.struggling ==>
              s in monitor.attempted && Stopped(sign, monitor.attempted[s], threshold, monitor.struggling[s])
    ensures forall s ::
            s in monitor.attempted && s !in monitor.struggling ==> Quiet(sign, monitor.attempted[s], threshold)
  {
    monitor := new Monitor(sign, threshold);
    for k := 0 to |receipts|
      invariant fresh(monitor) && monitor.Valid() && monitor.sign == sign && monitor.threshold == threshold
      invariant "" !in monitor.attempted
      invariant forall s :: s != "" ==>
                  Tracks(monitor.attempted, monitor.struggling, monitor.counted, receipts[..k], s)
    {
      var r := receipts[k];
      ghost var attempted, struggling, counted := monitor.attempted, monitor.struggling, monitor.counted;
      monitor.Observe(r);
      ghost var seen := receipts[..k + 1];
      assert seen == receipts[..k] + [r];
      forall s | s != ""
        ensures Tracks(monitor.attempted, monitor.struggling, monitor.counted, seen, s)
      {
        assert Tracks(attempted, struggling, counted, receipts[..k], s);
        if s != r.subject {
          TracksOther(attempted, struggling, counted, receipts[..k], r, s,
            monitor.attempted, monitor.struggling, monitor.counted);
        } else if Ignored(r, struggling, counted) {
          TracksIgnored(attempted, struggling, counted, receipts[..k], r);
        } else {
          TracksCounted(attempted, struggling, counted, receipts[..k], r, monitor.struggling);
        }
      }
    }
    assert receipts[..|receipts|] == receipts;
    forall s | s != "" ensures Follows(monitor.attempted, monitor.struggling, receipts, s) {
      assert Tracks(monitor.attempted, monitor.struggling, monitor.counted, receipts, s);
    }
    forall s | s in monitor.attempted
      ensures HistoryIs(sign, threshold, monitor.attempted, monitor.struggling, s) {}
  }
}
