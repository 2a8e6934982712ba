/** The shape shared by the checks that walk the list of builds: each build is
    looked at in turn and either passes, adds an error and goes on, adds an
    error and returns, or raises. `Run` is what such a loop reports; the
    checks' methods are proved to report exactly that. `Annotate` is what such
    a loop writes into `request.buildinfo`. */
module Scans {
  import opened Base
  import opened Requests

  /** What one iteration does. */
  datatype Step = Pass | Report(e: Error) | Halt(e: Error) | Crash

  /** What the loop did: the errors it added, how many builds it looked at,
      and whether it ended by raising. */
  datatype Scan = Scan(errors: seq<Error>, visited: nat, crashed: bool)

  predicate Stops(st: Step)
  {
    st.Halt? || st.Crash?
  }

  function Stopper<T>(step: T -> Step): T -> bool
  {
    x => Stops(step(x))
  }

  function Shift(es: seq<Error>, n: nat, r: Scan): Scan
  {
    Scan(es + r.errors, n + r.visited, r.crashed)
  }

  /** The loop invariant before the first build. */
  lemma RunFrom0<T>(s: seq<T>, step: T -> Step)
    ensures Run(s, step) == Shift([], 0, Run(s[0..], step))
  {
    assert s[0..] == s;
  }

  /** The loop invariant after the last build. */
  lemma RunDone<T>(s: seq<T>, step: T -> Step, acc: seq<Error>)
    requires Run(s, step) == Shift(acc, |s|, Run(s[|s|..], step))
    ensures Run(s, step) == Scan(acc, |s|, false)
  {
    assert s[|s|..] == [];
    assert acc + [] == acc;
  }

  /** Moving one visited build, with the errors it reported, into the prefix. */
  lemma ShiftNext(acc: seq<Error>, n: nat, es: seq<Error>, r: Scan)
    ensures Shift(acc, n, Shift(es, 1, r)) == Shift(acc + es, n + 1, r)
  {
    assert acc + (es + r.errors) == (acc + es) + r.errors;
  }

  function Run<T>(s: seq<T>, step: T -> Step): (r: Scan)
    ensures r.visited <= |s|
    ensures |r.errors| <= r.visited
    ensures r.crashed ==> 0 < r.visited
    decreases |s|
  {
    if s == [] then Scan([], 0, false)
    else match step(s[0])
      case Pass => Shift([], 1, Run(s[1..], step))
      case Report(e) => Shift([e], 1, Run(s[1..], step))
      case Halt(e) => Scan([e], 1, false)
      case Crash => Scan([], 1, true)
  }

  /** The errors of the builds that report and go on, in order. */
  function Reported<T>(s: seq<T>, step: T -> Step): seq<Error>
    decreases |s|
  {
    if s == [] then [] else (if step(s[0]).Report? then [step(s[0]).e] else []) + Reported(s[1..], step)
  }

  /** One iteration of the loop, at position `i`. */
  lemma RunAt<T>(s: seq<T>, step: T -> Step, i: nat)
    requires i < |s|
    ensures Run(s[i..], step) == match step(s[i])
      case Pass => Shift([], 1, Run(s[i + 1..], step))
      case Report(e) => Shift([e], 1, Run(s[i + 1..], step))
      case Halt(e) => Scan([e], 1, false)
      case Crash => Scan([], 1, true)
  {
    assert s[i..][0] == s[i];
    assert s[i..][1..] == s[i + 1..];
  }

  /** The loop invariant of every check over the builds, carried past
      position `i`: `acc` holds the errors of the builds before `i`. */
  lemma RunStepInto<T>(s: seq<T>, step: T -> Step, acc: seq<Error>, i: nat)
    requires i < |s|
    requires Run(s, step) == Shift(acc, i, Run(s[i..], step))
    ensures step(s[i]).Pass? ==> Run(s, step) == Shift(acc, i + 1, Run(s[i + 1..], step))
    ensures step(s[i]).Report? ==> Run(s, step) == Shift(acc + [step(s[i]).e], i + 1, Run(s[i + 1..], step))
    ensures step(s[i]).Halt? ==> Run(s, step) == Scan(acc + [step(s[i]).e], i + 1, false)
    ensures step(s[i]).Crash? ==> Run(s, step) == Scan(acc, i + 1, true)
  {
    RunAt(s, step, i);
    var rest := Run(s[i + 1..], step);
    if step(s[i]).Pass? {
      ShiftNext(acc, i, [], rest);
      assert acc + [] == acc;
    } else if step(s[i]).Report? {
      ShiftNext(acc, i, [step(s[i]).e], rest);
    }
  }

  /** The errors one iteration adds. */
  function Emitted(st: Step): (r: seq<Error>)
    ensures |r| <= 1
    ensures st.Report? || st.Halt? ==> r == [st.e]
    ensures st.Pass? || st.Crash? ==> r == []
  {
    if st.Report? || st.Halt? then [st.e] else []
  }

  /** The loop invariant carried past position `i`, in two cases: the build
      lets the loop go on, or it stops it. */
  lemma RunAdvance<T>(s: seq<T>, step: T -> Step, acc: seq<Error>, i: nat)
    requires i < |s|
    requires Run(s, step) == Shift(acc, i, Run(s[i..], step))
    ensures !Stops(step(s[i])) ==>
              Run(s, step) == Shift(acc + Emitted(step(s[i])), i + 1, Run(s[i + 1..], step))
    ensures Stops(step(s[i])) ==>
              Run(s, step) == Scan(acc + Emitted(step(s[i])), i + 1, step(s[i]).Crash?)
  {
    RunStepInto(s, step, acc, i);
    assert acc + [] == acc;
  }

  /** How many builds the loop passes over before one stops it; `|s|` when
      none does. */
  function StopIndex<T>(s: seq<T>, step: T -> Step): (n: nat)
    ensures n <= |s|
    decreases |s|
  {
    if s == [] || Stops(step(s[0])) then 0 else 1 + StopIndex(s[1..], step)
  }

  lemma {:induction false} StopIndexIsFirst<T>(s: seq<T>, step: T -> Step)
    ensures FirstIndex(s, Stopper(step)) ==
              if StopIndex(s, step) < |s| then Some(StopIndex(s, step)) else None
    decreases |s|
  {
    if s != [] {
      if Stops(step(s[0])) {
        assert Stopper(step)(s[0]);
      } else {
        assert !Stopper(step)(s[0]);
        StopIndexIsFirst(s[1..], step);
      }
    }
  }

  /** What `Run` is, in terms of where the loop stops. */
  predicate RunsToStop<T>(s: seq<T>, step: T -> Step)
  {
    var r := Run(s, step);
    var n := StopIndex(s, step);
    && r.visited == (if n < |s| then n + 1 else |s|)
    && r.crashed == (n < |s| && step(s[n]).Crash?)
    && r.errors == Reported(s[..n], step) + (if n < |s| && step(s[n]).Halt? then [step(s[n]).e] else [])
  }

  /** A first build that does not stop the loop adds its report, if any, in
      front of what the rest of the loop does. */
  lemma RunsToStopGo<T>(s: seq<T>, step: T -> Step)
    requires s != [] && !Stops(step(s[0])) && RunsToStop(s[1..], step)
    ensures RunsToStop(s, step)
  {
    var m := StopIndex(s[1..], step);
    var t := s[1..][..m];
    assert s[..m + 1] == [s[0]] + t;
    assert ([s[0]] + t)[1..] == t;
    assert Reported(s[..m + 1], step) == (if step(s[0]).Report? then [step(s[0]).e] else []) + Reported(t, step);
    assert m < |s| - 1 ==> s[1..][m] == s[m + 1];
  }

  lemma {:induction false} RunByIndex<T>(s: seq<T>, step: T -> Step)
    ensures RunsToStop(s, step)
    decreases |s|
  {
    if s != [] {
      if Stops(step(s[0])) {
        assert s[..0] == [];
      } else {
        RunByIndex(s[1..], step);
        RunsToStopGo(s, step);
      }
    }
  }

  /** The loop stops at the first build that halts or raises, having reported
      the errors of the builds before it and, if it halted, its own error. */
  lemma RunShape<T>(s: seq<T>, step: T -> Step)
    ensures var r := Run(s, step);
            var stop := FirstIndex(s, Stopper(step));
            var n := if stop.Some? then stop.value else |s|;
            && n <= |s|
            && r.visited == (if stop.Some? then n + 1 else |s|)
            && r.crashed == (stop.Some? && step(s[n]).Crash?)
            && r.errors == Reported(s[..n], step) + (if stop.Some? && step(s[n]).Halt? then [step(s[n]).e] else [])
  {
    RunByIndex(s, step);
    StopIndexIsFirst(s, step);
  }

  lemma {:induction false} ReportedMembers<T>(s: seq<T>, step: T -> Step)
    ensures forall k :: 0 <= k < |s| && step(s[k]).Report? ==> step(s[k]).e in Reported(s, step)
    ensures forall e :: e in Reported(s, step) ==> exists k :: 0 <= k < |s| && step(s[k]) == Report(e)
    ensures (forall k :: 0 <= k < |s| ==> !step(s[k]).Report?) ==> Reported(s, step) == []
    decreases |s|
  {
    if s != [] {
      ReportedMembers(s[1..], step);
      assert forall k :: 1 <= k < |s| ==> s[k] == s[1..][k - 1];
      forall e | e in Reported(s, step)
        ensures exists k :: 0 <= k < |s| && step(s[k]) == Report(e)
      {
        if !(step(s[0]).Report? && e == step(s[0]).e) {
          assert e in Reported(s[1..], step);
          var k :| 0 <= k < |s| - 1 && step(s[1..][k]) == Report(e);
          assert step(s[k + 1]) == Report(e);
        }
      }
    }
  }

  /** A build that reports and goes on, met before anything stops the loop,
      has its error among the loop's errors. */
  lemma {:induction false} RunKeepsReport<T>(s: seq<T>, step: T -> Step, k: nat)
    requires k < |s| && step(s[k]).Report?
    requires forall j :: 0 <= j < k ==> !Stops(step(s[j]))
    ensures step(s[k]).e in Run(s, step).errors
    decreases k
  {
    if k > 0 {
      assert !Stops(step(s[0]));
      assert s[1..][k - 1] == s[k];
      assert forall j :: 0 <= j < k - 1 ==> s[1..][j] == s[j + 1];
      RunKeepsReport(s[1..], step, k - 1);
    }
  }

  /** A loop whose builds all pass reports nothing and looks at every build. */
  lemma RunAllPass<T>(s: seq<T>, step: T -> Step)
    requires forall k :: 0 <= k < |s| ==> step(s[k]).Pass?
    ensures Run(s, step) == Scan([], |s|, false)
  {
    RunShape(s, step);
    ReportedMembers(s, step);
    assert forall k :: 0 <= k < |s| ==> !Stopper(step)(s[k]);
    assert FirstIndex(s, Stopper(step)).None?;
    assert s[..|s|] == s;
  }

  /** A loop whose builds never report and go on adds at most one error: none
      when no build stops it, the error of the first build that halts it. */
  lemma RunNoReports<T>(s: seq<T>, step: T -> Step)
    requires forall k :: 0 <= k < |s| ==> !step(s[k]).Report?
    ensures var r := Run(s, step);
            var stop := FirstIndex(s, Stopper(step));
            && |r.errors| <= 1
            && (stop.None? ==> r == Scan([], |s|, false))
            && (stop.Some? && step(s[stop.value]).Halt? ==> r == Scan([step(s[stop.value]).e], stop.value + 1, false))
            && (stop.Some? && step(s[stop.value]).Crash? ==> r == Scan([], stop.value + 1, true))
  {
    RunShape(s, step);
    var stop := FirstIndex(s, Stopper(step));
    var n := if stop.Some? then stop.value else |s|;
    ReportedMembers(s[..n], step);
  }

  /** A loop whose builds pass up to position `i`, where one halts, reports
      that one error and looks at nothing after it. */
  lemma RunHaltsAt<T>(s: seq<T>, step: T -> Step, i: nat)
    requires i < |s| && step(s[i]).Halt?
    requires forall j :: 0 <= j < i ==> step(s[j]).Pass?
    ensures Run(s, step) == Scan([step(s[i]).e], i + 1, false)
  {
    RunShape(s, step);
    assert forall j :: 0 <= j < i ==> !Stopper(step)(s[j]);
    assert Stopper(step)(s[i]);
    FirstIndexAt(s, Stopper(step), i);
    ReportedMembers(s[..i], step);
  }

  /** The same, for a build that raises. */
  lemma RunCrashesAt<T>(s: seq<T>, step: T -> Step, i: nat)
    requires i < |s| && step(s[i]).Crash?
    requires forall j :: 0 <= j < i ==> step(s[j]).Pass?
    ensures Run(s, step) == Scan([], i + 1, true)
  {
    RunShape(s, step);
    assert forall j :: 0 <= j < i ==> !Stopper(step)(s[j]);
    assert Stopper(step)(s[i]);
    FirstIndexAt(s, Stopper(step), i);
    ReportedMembers(s[..i], step);
  }

  // ---------------------------------------------------------------------------
  // Writes into request.buildinfo

  /** `buildinfo` after the builds `bs` were visited in order; `upd` says what
      visiting a build writes into its entry (None: nothing). */
  function Annotate(bi: map<string, BuildInfo>, bs: seq<string>,
                    upd: (string, BuildInfo) -> Option<BuildInfo>): map<string, BuildInfo>
    decreases |bs|
  {
    if bs == [] then bi
    else
      var prev := Annotate(bi, bs[..|bs| - 1], upd);
      var b := bs[|bs| - 1];
      match upd(b, InfoOf(prev, b))
      case None => prev
      case Some(x) => prev[b := x]
  }

  /** Visiting one more build. */
  lemma AnnotateNext(bi: map<string, BuildInfo>, bs: seq<string>, i: nat,
                     upd: (string, BuildInfo) -> Option<BuildInfo>)
    requires i < |bs|
    ensures var prev := Annotate(bi, bs[..i], upd);
            Annotate(bi, bs[..i + 1], upd) ==
              match upd(bs[i], InfoOf(prev, bs[i]))
              case None => prev
              case Some(x) => prev[bs[i] := x]
  {
    assert bs[..i + 1][..i] == bs[..i];
  }

  /** Entries of builds that were not visited are left as they were. */
  lemma {:induction false} AnnotateElsewhere(bi: map<string, BuildInfo>, bs: seq<string>,
                                             upd: (string, BuildInfo) -> Option<BuildInfo>, b: string)
    requires b !in bs
    ensures b in Annotate(bi, bs, upd) <==> b in bi
    ensures b in bi ==> Annotate(bi, bs, upd)[b] == bi[b]
    decreases |bs|
  {
    if bs != [] {
      assert b !in bs[..|bs| - 1];
      AnnotateElsewhere(bi, bs[..|bs| - 1], upd, b);
    }
  }

  /** Visiting adds no entry but those of visited builds. */
  lemma {:induction false} AnnotateKeys(bi: map<string, BuildInfo>, bs: seq<string>,
                                        upd: (string, BuildInfo) -> Option<BuildInfo>)
    ensures bi.Keys <= Annotate(bi, bs, upd).Keys
    ensures forall b :: b in Annotate(bi, bs, upd) ==> b in bi || b in bs
    decreases |bs|
  {
    if bs != [] {
      AnnotateKeys(bi, bs[..|bs| - 1], upd);
    }
  }
}
