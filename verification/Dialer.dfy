/** Dialing a peer: the jobs of one round, the collector of their results, and the retry loop around the rounds. */
module Dialer {
  import opened Bytes

  type PeerId = nat
  type Addr = nat

  datatype DialError = Transport | Timeout | LimitReached | Routing | InBackoff
      | NoTransport | AllFailed | MaxAttempts(n: nat)

  /** What a job reports: the peer at the other end of its connection, or why there is none. */
  datatype Report = Connected(peer: PeerId) | Failed(error: DialError)

  type Verdict = Result<PeerId, DialError>

  // The retry loop

  /** The round that decides a dial: the first successful one, or the last that `attempts` allows. */
  function Deciding(rounds: seq<Verdict>, attempts: nat): (k: nat)
    requires |rounds| >= Rounds(attempts)
    ensures k < Rounds(attempts)
    ensures forall i :: 0 <= i < k ==> rounds[i].Err?
    ensures rounds[k].Ok? || k + 1 == Rounds(attempts)
  {
    if rounds[0].Ok? || attempts <= 1 then 0 else 1 + Deciding(rounds[1..], attempts - 1)
  }

  function Rounds(attempts: nat): nat { if attempts <= 1 then 1 else attempts }

  function DialVerdict(rounds: seq<Verdict>, attempts: nat): (v: Verdict)
    requires |rounds| >= Rounds(attempts)
  {
    var last := rounds[Deciding(rounds, attempts)];
    if last.Err? && attempts > 1 then Err(MaxAttempts(attempts)) else last
  }

  /** `start_dialing`; `rounds` are the outcomes its rounds would have, and `used` counts those it ran. */
  method StartDialing(rounds: seq<Verdict>, attempts: nat) returns (v: Verdict, used: nat)
    requires |rounds| >= Rounds(attempts)
    ensures v == DialVerdict(rounds, attempts)
    ensures used == Deciding(rounds, attempts) + 1 <= Rounds(attempts)
  {
    used := 0;
    while true
      invariant used < Rounds(attempts)
      invariant Deciding(rounds, attempts) >= used
      decreases Rounds(attempts) - used
    {
      var r := rounds[used];
      used := used + 1;
      if r.Ok? { return r, used; }
      if used >= attempts {
        return if attempts > 1 then Err(MaxAttempts(attempts)) else r, used;
      }
    }
  }

  /** A dial succeeds exactly when one of its allowed rounds does, and then with that round's peer. */
  lemma DialSucceedsIffARoundDoes(rounds: seq<Verdict>, attempts: nat)
    requires |rounds| >= Rounds(attempts)
    ensures DialVerdict(rounds, attempts).Ok? <==> exists i :: 0 <= i < Rounds(attempts) && rounds[i].Ok?
    ensures DialVerdict(rounds, attempts).Ok? ==> DialVerdict(rounds, attempts) in rounds
  {
    var k := Deciding(rounds, attempts);
    if rounds[k].Ok? { assert 0 <= k < Rounds(attempts); }
  }

  /** A dial ends as its first successful round; if all fail, with the count of attempts or the only round's error. */
  lemma VerdictOfDial(rounds: seq<Verdict>, attempts: nat)
    requires |rounds| >= Rounds(attempts)
    ensures forall k :: 0 <= k < Rounds(attempts) && rounds[k].Ok? && (forall i :: 0 <= i < k ==> rounds[i].Err?) ==>
              DialVerdict(rounds, attempts) == rounds[k]
    ensures (forall i :: 0 <= i < Rounds(attempts) ==> rounds[i].Err?) ==>
              DialVerdict(rounds, attempts) == if attempts > 1 then Err(MaxAttempts(attempts)) else rounds[0]
  {
    var d := Deciding(rounds, attempts);
    forall k | 0 <= k < Rounds(attempts) && rounds[k].Ok? && (forall i :: 0 <= i < k ==> rounds[i].Err?)
      ensures DialVerdict(rounds, attempts) == rounds[k]
    {
      assert d <= k && k <= d;
    }
  }

  // Collecting the reports of a round

  /** How many reports the collector looks at: up to the first connection to the wanted peer. */
  function Looked(reports: seq<Option<(Report, Addr)>>, peer: PeerId): (k: nat)
    ensures k <= |reports|
    ensures forall i :: 0 <= i < k ==> !Matches(reports[i], peer)
    ensures k < |reports| ==> Matches(reports[k], peer)
  {
    if reports == [] || Matches(reports[0], peer) then 0 else 1 + Looked(reports[1..], peer)
  }

  predicate Matches(r: Option<(Report, Addr)>, peer: PeerId) {
    r.Some? && r.value.0 == Connected(peer)
  }

  /** The address of a wrong peer or of a transport error is put in backoff; other failures are not. */
  predicate Penalised(r: Option<(Report, Addr)>) {
    r.Some? && Blamed(r.value.0)
  }

  predicate Blamed(report: Report) {
    report.Connected? || report.error == Transport
  }

  function Penalties(reports: seq<Option<(Report, Addr)>>): seq<Addr> {
    if reports == [] then []
    else
      var n := |reports| - 1;
      Penalties(reports[..n]) + (if Penalised(reports[n]) then [reports[n].value.1] else [])
  }

  /** An address is penalised exactly when a report names a wrong peer, or a transport error, for it. */
  lemma {:induction false} PenalisedIff(reports: seq<Option<(Report, Addr)>>, a: Addr)
    ensures a in Penalties(reports) <==>
            exists i :: 0 <= i < |reports| && reports[i].Some? && reports[i].value.1 == a
                        && (reports[i].value.0.Connected? || reports[i].value.0 == Failed(Transport))
  {
    if reports != [] {
      var n := |reports| - 1;
      PenalisedIff(reports[..n], a);
      assert forall i :: 0 <= i < n ==> reports[..n][i] == reports[i];
    }
  }

  /**
   * `collect_dialing_result`; `rx` are the values its receives return, `backoff` the addresses it penalises, in
   * order.
   */
  method CollectDialingResult(rx: seq<Option<(Report, Addr)>>, jobs: nat, peer: PeerId)
    returns (v: Verdict, backoff: seq<Addr>)
    requires |rx| >= jobs
    ensures v == if Looked(rx[..jobs], peer) < jobs then Ok(peer) else Err(AllFailed)
    ensures backoff == Penalties(rx[..Looked(rx[..jobs], peer)])
  {
    backoff := [];
    for i := 0 to jobs
      invariant Looked(rx[..jobs], peer) >= i
      invariant backoff == Penalties(rx[..i])
    {
      assert rx[..i + 1][..i] == rx[..i];
      var r := rx[i];
      if r.Some? {
        var (report, addr) := r.value;
        match report
        case Connected(reported) =>
          if peer == reported { return Ok(reported), backoff; }
          backoff := backoff + [addr];
        case Failed(err) =>
          if err == Transport { backoff := backoff + [addr]; }
      }
    }
    v := Err(AllFailed);
  }

  // The jobs of a round, under every interleaving

  /** `do_dial_job` and `execute_dial`: the limit check, the token, the dial, the report, the token again. */
  datatype Job = Waiting | Refused | Admitted | Dialing | Reporting(report: Report) | Releasing | Done

  /**
   * `sent` is every report put into the channel; `received` of them have been taken out, `penalised` are the jobs
   * whose addresses were put in backoff for that, and `others` counts foreign dials.
   */
  datatype Round = Round(peer: PeerId, limit: nat, consuming: nat, others: nat, jobs: seq<Job>,
                         sent: seq<(nat, Report)>, received: nat, penalised: seq<nat>, verdict: Option<Verdict>)

  datatype Step =
    | Check(j: nat)
    | TakeToken(j: nat)
    | Finish(j: nat, report: Report)
    | Send(j: nat)
    | ReleaseToken(j: nat)
    | Receive
    | ForeignTakes
    | ForeignReleases

  function Start(peer: PeerId, limit: nat, others: nat, jobs: nat): Round {
    Round(peer, limit, others, others, seq(jobs, _ => Waiting), [], 0, [], None)
  }

  predicate Is(r: Round, j: nat, job: Job) { j < |r.jobs| && r.jobs[j] == job }

  predicate Enabled(r: Round, step: Step) {
    match step
    case Check(j) => Is(r, j, Waiting)
    case TakeToken(j) => Is(r, j, Admitted)
    case Finish(j, report) => Is(r, j, Dialing)
    case Send(j) => j < |r.jobs| && (r.jobs[j].Refused? || r.jobs[j].Reporting?)
    case ReleaseToken(j) => Is(r, j, Releasing)
    case Receive => r.verdict.None? && r.received < |r.sent| && r.received < |r.jobs|
    case ForeignTakes => true
    case ForeignReleases => r.others > 0
  }

  function Move(r: Round, j: nat, job: Job): Round
    requires j < |r.jobs|
  {
    r.(jobs := r.jobs[j := job])
  }

  function Take(r: Round, step: Step): Round
    requires Enabled(r, step)
  {
    match step
    case Check(j) => Move(r, j, if r.consuming >= r.limit then Refused else Admitted)
    case TakeToken(j) => Move(r, j, Dialing).(consuming := r.consuming + 1)
    case Finish(j, report) => Move(r, j, Reporting(report))
    case Send(j) =>
      if r.jobs[j].Refused? then Move(r, j, Done).(sent := r.sent + [(j, Failed(LimitReached))])
      else Move(r, j, Releasing).(sent := r.sent + [(j, r.jobs[j].report)])
    case ReleaseToken(j) => Move(r, j, Done).(consuming := if r.consuming > 0 then r.consuming - 1 else 0)
    case Receive =>
      var (j, report) := r.sent[r.received];
      r.(received := r.received + 1,
         penalised := if report != Connected(r.peer) && Blamed(report) then r.penalised + [j] else r.penalised,
         verdict := if report == Connected(r.peer) then Some(Ok(r.peer))
                    else if r.received + 1 == |r.jobs| then Some(Err(AllFailed)) else None)
    case ForeignTakes => r.(consuming := r.consuming + 1, others := r.others + 1)
    case ForeignReleases => r.(consuming := if r.consuming > 0 then r.consuming - 1 else 0, others := r.others - 1)
  }

  predicate Holds(job: Job) { job.Dialing? || job.Reporting? || job.Releasing? }

  predicate HasReported(job: Job) { job.Releasing? || job.Done? }

  function Num(jobs: seq<Job>, p: Job -> bool): (n: nat)
    ensures n <= |jobs|
  {
    if jobs == [] then 0 else Num(jobs[..|jobs| - 1], p) + One(p(jobs[|jobs| - 1]))
  }

  function One(b: bool): nat { if b then 1 else 0 }

  lemma {:induction false} Moved(jobs: seq<Job>, j: nat, job: Job, p: Job -> bool)
    requires j < |jobs|
    ensures Num(jobs[j := job], p) + One(p(jobs[j])) == Num(jobs, p) + One(p(job))
  {
    var n := |jobs| - 1;
    if j < n {
      Moved(jobs[..n], j, job, p);
      assert jobs[j := job][..n] == jobs[..n][j := job];
    } else {
      assert jobs[j := job][..n] == jobs[..n];
    }
  }

  lemma {:induction false} NumExtremes(jobs: seq<Job>, p: Job -> bool)
    ensures Num(jobs, p) == 0 <==> forall j :: 0 <= j < |jobs| ==> !p(jobs[j])
    ensures Num(jobs, p) == |jobs| <==> forall j :: 0 <= j < |jobs| ==> p(jobs[j])
  {
    if jobs != [] {
      NumExtremes(jobs[..|jobs| - 1], p);
      assert forall j :: 0 <= j < |jobs| - 1 ==> jobs[..|jobs| - 1][j] == jobs[j];
    }
  }

  /** The channel's history has one report of every job that has reported and none of any other. */
  ghost predicate ReportedOnce(r: Round) {
    && (forall i :: 0 <= i < |r.sent| ==> r.sent[i].0 < |r.jobs| && HasReported(r.jobs[r.sent[i].0]))
    && (forall i, k :: 0 <= i < k < |r.sent| ==> r.sent[i].0 != r.sent[k].0)
    && |r.sent| == Num(r.jobs, HasReported)
  }

  ghost predicate Collected(r: Round) {
    && r.received <= |r.sent| && r.received <= |r.jobs|
    && match r.verdict
       case None => r.received < |r.jobs| && forall i :: 0 <= i < r.received ==> r.sent[i].1 != Connected(r.peer)
       case Some(Ok(p)) =>
         && p == r.peer && r.received > 0 && r.sent[r.received - 1].1 == Connected(r.peer)
         && forall i :: 0 <= i < r.received - 1 ==> r.sent[i].1 != Connected(r.peer)
       case Some(Err(e)) =>
         e == AllFailed && r.received == |r.jobs|
         && forall i :: 0 <= i < r.received ==> r.sent[i].1 != Connected(r.peer)
  }

  function BlamedJobs(reports: seq<(nat, Report)>): seq<nat> {
    if reports == [] then []
    else
      var n := |reports| - 1;
      BlamedJobs(reports[..n]) + (if Blamed(reports[n].1) then [reports[n].0] else [])
  }

  /** The penalised jobs are, in order, the blamed ones among the reports taken before a success. */
  ghost predicate Penalising(r: Round) {
    var seen := if r.verdict.Some? && r.verdict.value.Ok? then r.received - 1 else r.received;
    0 <= seen <= |r.sent| && r.penalised == BlamedJobs(r.sent[..seen])
  }

  /** The shared counter is the foreign dials plus the jobs of this round that hold a token. */
  ghost predicate Inv(r: Round) {
    ReportedOnce(r) && Collected(r) && Penalising(r) && r.consuming == r.others + Num(r.jobs, Holds)
  }

  predicate OfJob(step: Step) { !step.Receive? && !step.ForeignTakes? && !step.ForeignReleases? }

  lemma JobKeepsCounts(r: Round, step: Step)
    requires Inv(r) && Enabled(r, step) && OfJob(step)
    ensures var t := Take(r, step); t.consuming == t.others + Num(t.jobs, Holds) && |t.sent| == Num(t.jobs, HasReported)
  {
    hide Num, Collected;
    var job := Take(r, step).jobs[step.j];
    Moved(r.jobs, step.j, job, Holds);
    Moved(r.jobs, step.j, job, HasReported);
  }

  /** What the collector has taken does not change while reports are added. */
  lemma StaysCollected(r: Round, t: Round)
    requires Collected(r) && r.sent <= t.sent && |t.jobs| == |r.jobs|
    requires t.received == r.received && t.verdict == r.verdict && t.peer == r.peer
    ensures Collected(t)
  {
    assert forall i :: 0 <= i < |r.sent| ==> t.sent[i] == r.sent[i];
  }

  lemma JobKeepsReports(r: Round, step: Step)
    requires Inv(r) && Enabled(r, step) && OfJob(step) && !step.Send?
    ensures ReportedOnce(Take(r, step)) && Collected(Take(r, step))
  {
    hide Num, Collected, Penalising;
    JobKeepsCounts(r, step);
    var t := Take(r, step);
    assert t.sent == r.sent && |t.jobs| == |r.jobs|;
    StaysCollected(r, t);
    assert forall j :: 0 <= j < |r.jobs| && HasReported(r.jobs[j]) ==> HasReported(t.jobs[j]);
    hide Enabled, Take, HasReported;
    forall i | 0 <= i < |t.sent| ensures t.sent[i].0 < |t.jobs| && HasReported(t.jobs[t.sent[i].0]) {
      assert HasReported(r.jobs[r.sent[i].0]);
    }
  }

  lemma SendKeepsReports(r: Round, j: nat)
    requires Inv(r) && Enabled(r, Send(j))
    ensures ReportedOnce(Take(r, Send(j))) && Collected(Take(r, Send(j)))
  {
    hide Num, Collected, Penalising;
    JobKeepsCounts(r, Send(j));
    var t, n := Take(r, Send(j)), |r.sent|;
    assert |t.jobs| == |r.jobs| && HasReported(t.jobs[j]) && t.sent == r.sent + [t.sent[n]];
    StaysCollected(r, t);
    forall i | 0 <= i < n ensures t.sent[i].0 < |t.jobs| && t.sent[i].0 != j && HasReported(t.jobs[t.sent[i].0]) {
      assert t.sent[i] == r.sent[i] && HasReported(r.jobs[r.sent[i].0]);
    }
  }

  lemma JobKeepsPenalties(r: Round, step: Step)
    requires Penalising(r) && Enabled(r, step) && OfJob(step)
    ensures Penalising(Take(r, step))
  {
    hide BlamedJobs;
    var t := Take(r, step);
    assert r.sent <= t.sent;
    var seen := if r.verdict.Some? && r.verdict.value.Ok? then r.received - 1 else r.received;
    assert t.sent[..seen] == r.sent[..seen];
  }

  lemma ReceiveKeepsPenalties(r: Round)
    requires Penalising(r) && Enabled(r, Receive)
    ensures Penalising(Take(r, Receive))
  {
    var n := r.received;
    assert r.sent[..n + 1][..n] == r.sent[..n];
  }

  lemma ReceiveKeepsCollected(r: Round)
    requires Collected(r) && Enabled(r, Receive)
    ensures Collected(Take(r, Receive))
  {
  }

  lemma OtherKeeps(r: Round, step: Step)
    requires Inv(r) && Enabled(r, step) && !OfJob(step)
    ensures Inv(Take(r, step))
  {
    hide Num, Collected, Penalising;
    if step.Receive? {
      ReceiveKeepsPenalties(r);
      ReceiveKeepsCollected(r);
    } else {
      StaysCollected(r, Take(r, step));
      StaysPenalising(r, Take(r, step));
    }
  }

  lemma StaysPenalising(r: Round, t: Round)
    requires Penalising(r)
    requires t.sent == r.sent && t.received == r.received && t.penalised == r.penalised && t.verdict == r.verdict
    ensures Penalising(t)
  {
  }

  lemma StepKeeps(r: Round, step: Step)
    requires Inv(r) && Enabled(r, step)
    ensures Inv(Take(r, step))
  {
    if OfJob(step) {
      JobKeepsCounts(r, step);
      JobKeepsPenalties(r, step);
      if step.Send? { SendKeepsReports(r, step.j); } else { JobKeepsReports(r, step); }
    } else {
      OtherKeeps(r, step);
    }
  }

  predicate Executable(r: Round, steps: seq<Step>)
    decreases |steps|
  {
    steps == [] || (Enabled(r, steps[0]) && Executable(Take(r, steps[0]), steps[1..]))
  }

  function Final(r: Round, steps: seq<Step>): Round
    requires Executable(r, steps)
    decreases |steps|
  {
    if steps == [] then r else Final(Take(r, steps[0]), steps[1..])
  }

  lemma {:induction false} RunKeeps(r: Round, steps: seq<Step>)
    requires Inv(r) && Executable(r, steps)
    ensures var f := Final(r, steps); Inv(f) && f.peer == r.peer && |f.jobs| == |r.jobs| && f.limit == r.limit
    decreases |steps|
  {
    if steps != [] {
      StepKeeps(r, steps[0]);
      RunKeeps(Take(r, steps[0]), steps[1..]);
    }
  }

  lemma StartHolds(peer: PeerId, limit: nat, others: nat, jobs: nat)
    requires jobs > 0
    ensures Inv(Start(peer, limit, others, jobs))
  {
    NumExtremes(Start(peer, limit, others, jobs).jobs, Holds);
    NumExtremes(Start(peer, limit, others, jobs).jobs, HasReported);
  }

  /** The state in which a run of a round of `jobs` jobs, `others` foreign dials going on, ends. */
  ghost predicate Reached(peer: PeerId, jobs: nat, r: Round) {
    exists limit, others, steps ::
      Executable(Start(peer, limit, others, jobs), steps) && r == Final(Start(peer, limit, others, jobs), steps)
  }

  lemma ReachedHolds(peer: PeerId, jobs: nat, r: Round)
    requires jobs > 0 && Reached(peer, jobs, r)
    ensures Inv(r) && r.peer == peer && |r.jobs| == jobs
  {
    var limit, others, steps :|
      Executable(Start(peer, limit, others, jobs), steps) && r == Final(Start(peer, limit, others, jobs), steps);
    StartHolds(peer, limit, others, jobs);
    RunKeeps(Start(peer, limit, others, jobs), steps);
  }

  /**
   * In every run a round that ends names the wanted peer if a report taken did, and otherwise has heard every
   * job once.
   */
  lemma RoundVerdict(peer: PeerId, jobs: nat, r: Round)
    requires jobs > 0 && Reached(peer, jobs, r) && r.verdict.Some?
    ensures r.verdict.value == Ok(peer) <==>
                  exists i :: 0 <= i < |r.sent| && i < r.received && r.sent[i].1 == Connected(peer)
    ensures r.verdict.value != Ok(peer) ==>
              && r.verdict.value == Err(AllFailed)
              && (forall j :: 0 <= j < |r.jobs| ==> HasReported(r.jobs[j]))
              && (forall i :: 0 <= i < |r.sent| ==> r.sent[i].1 != Connected(peer))
  {
    ReachedHolds(peer, jobs, r);
    NumExtremes(r.jobs, HasReported);
  }

  /** The reports of a round, in the order in which the channel yields them. */
  function Yielded(r: Round, addrs: nat -> Addr): seq<Option<(Report, Addr)>> {
    seq(|r.sent|, i requires 0 <= i < |r.sent| => Some((r.sent[i].1, addrs(r.sent[i].0))))
  }

  /** Where the reports agree, so do the penalties. */
  lemma {:induction false} SamePenalties(r: Round, addrs: nat -> Addr, rx: seq<Option<(Report, Addr)>>, k: nat)
    requires Yielded(r, addrs) <= rx && k <= |r.sent|
    ensures Penalties(rx[..k]) == Addresses(BlamedJobs(r.sent[..k]), addrs)
  {
    if k > 0 {
      SamePenalties(r, addrs, rx, k - 1);
      assert rx[..k][..k - 1] == rx[..k - 1] && r.sent[..k][..k - 1] == r.sent[..k - 1];
      assert rx[k - 1] == Yielded(r, addrs)[k - 1];
      AddressesSnoc(BlamedJobs(r.sent[..k - 1]), r.sent[k - 1].0, addrs);
    }
  }

  function Addresses(jobs: seq<nat>, addrs: nat -> Addr): seq<Addr> {
    seq(|jobs|, i requires 0 <= i < |jobs| => addrs(jobs[i]))
  }

  lemma AddressesSnoc(jobs: seq<nat>, j: nat, addrs: nat -> Addr)
    ensures Addresses(jobs + [j], addrs) == Addresses(jobs, addrs) + [addrs(j)]
  {
  }

  lemma LookedAtReceived(peer: PeerId, jobs: nat, r: Round, addrs: nat -> Addr, rx: seq<Option<(Report, Addr)>>)
    requires Inv(r) && r.peer == peer && |r.jobs| == jobs && r.verdict.Some?
    requires |rx| >= jobs && Yielded(r, addrs) <= rx
    ensures var k := Looked(rx[..jobs], peer);
            && r.verdict.value == (if k < jobs then Ok(peer) else Err(AllFailed))
            && r.received == (if k < jobs then k + 1 else jobs)
  {
    NumExtremes(r.jobs, HasReported);
    hide Num, Penalising;
    var yielded := Yielded(r, addrs);
    assert |r.sent| <= jobs;
    forall i | 0 <= i < |r.sent| ensures Matches(rx[..jobs][i], peer) <==> r.sent[i].1 == Connected(peer) {
      assert rx[..jobs][i] == yielded[i];
    }
    if r.verdict.value.Ok? {
      assert Matches(rx[..jobs][r.received - 1], peer);
    }
  }

  /**
   * A round ends with what `CollectDialingResult` ensures on its reports, whatever the channel would yield after
   * them: the same verdict, the same penalised addresses in the same order, from exactly the reports it looks at.
   */
  lemma RoundRunsTheCollector(peer: PeerId, jobs: nat, r: Round, addrs: nat -> Addr, rx: seq<Option<(Report, Addr)>>)
    requires jobs > 0 && Reached(peer, jobs, r) && r.verdict.Some?
    requires |rx| >= jobs && Yielded(r, addrs) <= rx
    ensures var k := Looked(rx[..jobs], peer);
            && r.verdict.value == (if k < jobs then Ok(peer) else Err(AllFailed))
            && r.received == (if k < jobs then k + 1 else jobs)
            && Addresses(r.penalised, addrs) == Penalties(rx[..k])
  {
    ReachedHolds(peer, jobs, r);
    hide Num, Looked, Penalties, BlamedJobs, Addresses;
    LookedAtReceived(peer, jobs, r, addrs, rx);
    SamePenalties(r, addrs, rx, Looked(rx[..jobs], peer));
  }

  /** How a round may end: before any job, for want of addresses or transports, or with the verdict of its jobs. */
  ghost predicate RoundEnds(peer: PeerId, v: Verdict) {
    || v == Err(Routing) || v == Err(InBackoff) || v == Err(NoTransport)
    || exists jobs, r :: jobs > 0 && Reached(peer, jobs, r) && r.verdict == Some(v)
  }

  /** A round that succeeds does so with the wanted peer. */
  lemma RoundNamesPeer(peer: PeerId, v: Verdict)
    requires RoundEnds(peer, v) && v.Ok?
    ensures v.value == peer
  {
    var jobs, r :| jobs > 0 && Reached(peer, jobs, r) && r.verdict == Some(v);
    RoundVerdict(peer, jobs, r);
  }

  /** A collector that still waits has a report to take or a job that will send one, so its channel never ends. */
  lemma CollectorIsNeverStarved(peer: PeerId, jobs: nat, r: Round)
    requires jobs > 0 && Reached(peer, jobs, r) && r.verdict.None?
    ensures Enabled(r, Receive) || exists j :: 0 <= j < |r.jobs| && !HasReported(r.jobs[j])
  {
    ReachedHolds(peer, jobs, r);
    NumExtremes(r.jobs, HasReported);
  }

  /**
   * No round is ever stuck: a job that is not over can always go on, whatever a dial may report, and once all are over
   * a collector without a verdict has a report to take.  Foreign dials may start at any moment.
   */
  lemma RoundIsNeverStuck(peer: PeerId, jobs: nat, r: Round, j: nat, report: Report)
    requires jobs > 0 && Reached(peer, jobs, r) && j < jobs
    ensures |r.jobs| == jobs
    ensures r.jobs[j].Done? || Enabled(r, Check(j)) || Enabled(r, TakeToken(j)) || Enabled(r, Finish(j, report))
            || Enabled(r, Send(j)) || Enabled(r, ReleaseToken(j))
    ensures r.verdict.None? && (forall i :: 0 <= i < jobs ==> r.jobs[i].Done?) ==> Enabled(r, Receive)
    ensures Enabled(r, ForeignTakes)
  {
    ReachedHolds(peer, jobs, r);
    NumExtremes(r.jobs, HasReported);
    hide Num;
  }

  /**
   * In every run a job is refused exactly when the dials under way, this round's and the foreign ones, have reached
   * the limit; a refused job reports just that, and any other its own result.
   */
  lemma RefusedIffLimitReached(peer: PeerId, jobs: nat, r: Round, j: nat)
    requires jobs > 0 && Reached(peer, jobs, r) && j < jobs
    ensures Enabled(r, Check(j)) ==>
              Take(r, Check(j)).jobs[j] == if r.others + Num(r.jobs, Holds) >= r.limit then Refused else Admitted
    ensures Enabled(r, Send(j)) ==>
              Take(r, Send(j)).sent ==
              r.sent + [(j, if r.jobs[j].Refused? then Failed(LimitReached) else r.jobs[j].report)]
  {
    ReachedHolds(peer, jobs, r);
    hide Num;
  }

  /** No job reports twice. */
  lemma JobsReportOnce(peer: PeerId, jobs: nat, r: Round, i: nat, k: nat)
    requires jobs > 0 && Reached(peer, jobs, r) && i < k < |r.sent|
    ensures r.sent[i].0 != r.sent[k].0 && |r.sent| <= jobs
  {
    ReachedHolds(peer, jobs, r);
  }

  /** When all jobs are over, the shared counter holds exactly the foreign dials again. */
  lemma TokensReturned(peer: PeerId, jobs: nat, r: Round)
    requires jobs > 0 && Reached(peer, jobs, r) && forall j :: 0 <= j < |r.jobs| ==> r.jobs[j] == Done
    ensures r.consuming == r.others
  {
    ReachedHolds(peer, jobs, r);
    NumExtremes(r.jobs, Holds);
  }
}
