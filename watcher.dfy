/**
  The watcher script: one scan of the instances of a fixed region, an alert
  and a healing request per stopped instance, a summary, and a final status.
  The describe-instances call is an input (`Describe`): either the
  reservations it returned or the exception it raised. What the script
  prints is a log of `Line`s, and leaving through `sys.exit` is an exit code.
 */
module Watcher {
  import opened Instances

  /** The only region the script looks at. */
  const Region: string := "us-east-1"

  /** The client error code that gets its own "not authorized" message. */
  const UnauthorizedCode: string := "UnauthorizedOperation"

  /** The status every failed scan exits with. */
  const FailureExitCode: int := 1

  /** The outcome of the describe-instances call. */
  datatype Describe =
    | Described(reservations: seq<Reservation>)
    | NoCredentials
    | ClientError(code: string, message: string)
    | Raised(message: string)

  /** The error message a failed scan reports. */
  datatype ScanError =
    | CredentialsNotFound
    | NotAuthorized(region: string)
    | ApiError(message: string)
    | Unexpected(message: string)

  /** One line of console output, standard output and standard error alike. */
  datatype Line =
    | Banner                                // title and the rule under it
    | Checking(region: string)              // progress line before the call
    | Alert(id: string)                     // bold alert for a stopped instance
    | Healing(id: string)                   // the healing request for it
    | Summary(checked: nat, stopped: nat)   // counts after the scan
    | Error(error: ScanError)               // failure message, then exit
    | AllClear                              // final status: nothing stopped
    | NeedsAttention(count: nat)            // final status: `count` stopped

  /** What the scan hands back: the stopped count, or the process exits. */
  datatype ScanOutcome = Ok(count: nat) | Fail(exitCode: int)

  /** The alert and healing lines of a scan over `s`, in discovery order:
      two lines per stopped instance. */
  function ScanLines(s: seq<Instance>): (r: seq<Line>)
    ensures |r| == 2 * CountStopped(s)
  {
    if s == [] then []
    else
      var last := s[|s| - 1];
      ScanLines(s[..|s| - 1]) + (if IsStopped(last) then [Alert(last.id), Healing(last.id)] else [])
  }

  lemma ScanLinesSnoc(s: seq<Instance>, inst: Instance)
    ensures ScanLines(s + [inst])
         == ScanLines(s) + (if IsStopped(inst) then [Alert(inst.id), Healing(inst.id)] else [])
  {
    assert (s + [inst])[..|s|] == s;
  }

  /** One step of the inner scan loop: the next instance of a reservation
      extends the count and the alert lines of what was seen before it. */
  lemma ScanStep(before: seq<Instance>, reservation: Reservation, i: nat)
    requires i < |reservation|
    ensures var seen, inst := before + reservation[..i], reservation[i];
      && |before + reservation[..i + 1]| == |seen| + 1
      && CountStopped(before + reservation[..i + 1])
         == CountStopped(seen) + (if inst.state == StoppedState then 1 else 0)
      && ScanLines(before + reservation[..i + 1])
         == ScanLines(seen) + (if inst.state == StoppedState then [Alert(inst.id), Healing(inst.id)] else [])
  {
    var seen, inst := before + reservation[..i], reservation[i];
    assert before + reservation[..i + 1] == seen + [inst];
    CountStoppedSnoc(seen, inst);
    ScanLinesSnoc(seen, inst);
  }

  /** The end of the inner scan loop: a whole reservation has been seen. */
  lemma ReservationDone(rs: seq<Reservation>, r: nat)
    requires r < |rs|
    ensures Flatten(rs[..r + 1]) == Flatten(rs[..r]) + rs[r][..|rs[r]|]
  {
    assert rs[r][..|rs[r]|] == rs[r];
    assert rs[..r + 1] == rs[..r] + [rs[r]];
    FlattenSnoc(rs[..r], rs[r]);
  }

  /** Alerts and healing requests alternate, one pair per stopped id, in
      the order of the stopped ids, and nothing else is logged. */
  lemma {:induction false} ScanLinesShape(s: seq<Instance>)
    ensures |ScanLines(s)| == 2 * |StoppedIds(s)|
    ensures forall k :: 0 <= k < |StoppedIds(s)| ==>
      ScanLines(s)[2 * k] == Alert(StoppedIds(s)[k]) && ScanLines(s)[2 * k + 1] == Healing(StoppedIds(s)[k])
  {
    if s != [] {
      var init, last := s[..|s| - 1], s[|s| - 1];
      ScanLinesShape(init);
      var ids0, ids := StoppedIds(init), StoppedIds(s);
      var lines0, lines := ScanLines(init), ScanLines(s);
      assert ids == ids0 + (if IsStopped(last) then [last.id] else []);
      assert lines == lines0 + (if IsStopped(last) then [Alert(last.id), Healing(last.id)] else []);
      forall k | 0 <= k < |ids|
        ensures lines[2 * k] == Alert(ids[k]) && lines[2 * k + 1] == Healing(ids[k])
      {
        if k < |ids0| {
          assert lines[2 * k] == lines0[2 * k] && lines[2 * k + 1] == lines0[2 * k + 1];
          assert ids[k] == ids0[k];
        }
      }
    }
  }

  /** The message for each exception the scan catches, in the order the
      handlers are tried. */
  function ErrorFor(d: Describe): (e: ScanError)
    requires !d.Described?
    ensures e.CredentialsNotFound? <==> d.NoCredentials?
    ensures e.NotAuthorized? <==> d.ClientError? && d.code == UnauthorizedCode
    ensures e.ApiError? <==> d.ClientError? && d.code != UnauthorizedCode
    ensures e.Unexpected? <==> d.Raised?
  {
    match d
    case NoCredentials => CredentialsNotFound
    case ClientError(code, message) =>
      if code == UnauthorizedCode then NotAuthorized(Region) else ApiError(message)
    case Raised(message) => Unexpected(message)
  }

  /** The status line `main` prints after a completed scan: all-clear for
      no stopped instance, otherwise the count that needs attention. */
  function StatusLine(count: nat): (l: Line)
    ensures l.AllClear? || l.NeedsAttention?
    ensures l.AllClear? <==> count == 0
    ensures l.NeedsAttention? ==> l.count == count
  {
    if count == 0 then AllClear else NeedsAttention(count)
  }

  /** The body of the scan's `try`: walk the reservations and their
      instances in order, counting every instance, counting the stopped
      ones and logging an alert and a healing request for each of those. */
  method ScanReservations(rs: seq<Reservation>) returns (totalCount: nat, stoppedCount: nat, alerts: seq<Line>)
    ensures totalCount == |Flatten(rs)|
    ensures stoppedCount == CountStopped(Flatten(rs))
    ensures alerts == ScanLines(Flatten(rs))
  {
    stoppedCount, totalCount := 0, 0;
    alerts := [];
    var r := 0;
    while r < |rs|
      invariant 0 <= r <= |rs|
      invariant totalCount == |Flatten(rs[..r])|
      invariant stoppedCount == CountStopped(Flatten(rs[..r]))
      invariant alerts == ScanLines(Flatten(rs[..r]))
    {
      var reservation := rs[r];
      ghost var before := Flatten(rs[..r]);
      var i := 0;
      assert before + reservation[..i] == before;
      while i < |reservation|
        invariant 0 <= i <= |reservation|
        invariant totalCount == |before + reservation[..i]|
        invariant stoppedCount == CountStopped(before + reservation[..i])
        invariant alerts == ScanLines(before + reservation[..i])
      {
        var instance := reservation[i];
        ScanStep(before, reservation, i);
        totalCount := totalCount + 1;
        if instance.state == StoppedState {
          stoppedCount := stoppedCount + 1;
          alerts := alerts + [Alert(instance.id), Healing(instance.id)];
        }
        i := i + 1;
      }
      ReservationDone(rs, r);
      r := r + 1;
    }
    assert rs[..r] == rs;
  }

  /** The scan: count every instance, count and report the stopped ones,
      print the summary and return the stopped count; every exception ends
      the process with exit status 1 and no count. */
  method CheckEc2Instances(d: Describe) returns (outcome: ScanOutcome, out: seq<Line>)
    ensures outcome.Ok? <==> d.Described?
    ensures d.Described? ==>
      var all := Flatten(d.reservations);
      && outcome.count == CountStopped(all)
      && out == [Checking(Region)] + ScanLines(all) + [Summary(|all|, CountStopped(all))]
    ensures outcome.Ok? ==>
      out[|out| - 1].Summary? && out[|out| - 1].stopped == outcome.count <= out[|out| - 1].checked
    ensures !d.Described? ==>
      outcome == Fail(FailureExitCode) && out == [Checking(Region), Error(ErrorFor(d))]
  {
    out := [Checking(Region)];
    match d {
      case Described(rs) =>
        var totalCount, stoppedCount, alerts := ScanReservations(rs);
        out := out + alerts + [Summary(totalCount, stoppedCount)];
        outcome := Ok(stoppedCount);
      case _ =>
        out := out + [Error(ErrorFor(d))];
        outcome := Fail(FailureExitCode);
    }
  }

  /** The whole run: the banner, the scan, then either the status line and
      exit status 0, or (when the scan exited) exit status 1 with no status
      line. The all-clear line appears exactly when the scan completed and
      no instance is stopped. */
  method Watch(d: Describe) returns (exitCode: int, out: seq<Line>)
    ensures exitCode == (if d.Described? then 0 else FailureExitCode)
    ensures d.Described? ==>
      var all := Flatten(d.reservations);
      out == [Banner, Checking(Region)] + ScanLines(all)
           + [Summary(|all|, CountStopped(all)), StatusLine(CountStopped(all))]
    ensures !d.Described? ==> out == [Banner, Checking(Region), Error(ErrorFor(d))]
    ensures AllClear in out <==>
      d.Described? && forall inst :: inst in Flatten(d.reservations) ==> !IsStopped(inst)
  {
    var outcome, scanOut := CheckEc2Instances(d);
    out := [Banner] + scanOut;
    match outcome {
      case Fail(code) =>
        exitCode := code;
      case Ok(count) =>
        NoAllClearInScan(Flatten(d.reservations));
        AllClearIffNoneStopped(Flatten(d.reservations));
        out := out + [StatusLine(count)];
        exitCode := 0;
    }
  }

  /** Alerts, healing requests and summaries are never the all-clear line. */
  lemma {:induction false} NoAllClearInScan(s: seq<Instance>)
    ensures AllClear !in ScanLines(s)
  {
    if s != [] {
      NoAllClearInScan(s[..|s| - 1]);
    }
  }

  /** `main` reports all-clear exactly when no scanned instance is stopped,
      and otherwise reports the stopped count. */
  lemma AllClearIffNoneStopped(s: seq<Instance>)
    ensures StatusLine(CountStopped(s)) == AllClear
        <==> forall inst :: inst in s ==> !IsStopped(inst)
    ensures StatusLine(CountStopped(s)) != AllClear
        ==> StatusLine(CountStopped(s)) == NeedsAttention(|StoppedIds(s)|)
  {
    CountStoppedZeroIff(s);
    if CountStopped(s) != 0 {
      var i :| 0 <= i < |s| && IsStopped(s[i]);
      assert s[i] in s;
    }
  }

  /** The same status stated over the reservations themselves. */
  lemma AllClearIffNoReservationStopped(rs: seq<Reservation>)
    ensures StatusLine(CountStopped(Flatten(rs))) == AllClear
        <==> forall j, inst :: 0 <= j < |rs| && inst in rs[j] ==> !IsStopped(inst)
  {
    AllClearIffNoneStopped(Flatten(rs));
    forall inst ensures inst in Flatten(rs) <==> exists j :: 0 <= j < |rs| && inst in rs[j] {
      FlattenMember(rs, inst);
    }
  }

  /** An empty response is checked as zero instances, zero stopped, all clear. */
  lemma EmptyResponse()
    ensures var all := Flatten([]);
      |all| == 0 && CountStopped(all) == 0 && StatusLine(CountStopped(all)) == AllClear
  {
  }
}
