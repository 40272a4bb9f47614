/**
 * The dependent-checks gate: given the check names a pull request depends on
 * and the check runs reported for its head commit, the run fails unless, for
 * every requested check, the last run with that name in response order
 * concluded with one of the passing statuses.
 */
module DependentChecks {
  import opened Process
  import PyStr

  /**
   * One entry of the response's `check_runs` array. `conclusion` is `None`
   * for a run that has not finished (JSON `null`).
   */
  datatype CheckRun = CheckRun(name: string, conclusion: Option<string>)

  const BAD_RESPONSE_MESSAGE: string := "Bad response from GitHub checks API."

  /** How Python formats the conclusion inside an f-string: `null` prints as `None`. */
  function ConclusionText(conclusion: Option<string>): string
  {
    if conclusion.Some? then conclusion.value else "None"
  }

  /** The line printed for a requested run whose conclusion does not pass. */
  function FailureLine(run: CheckRun): string
  {
    "Check " + run.name + " failed with status " + ConclusionText(run.conclusion)
  }

  /** `check_status in passing_statuses`; a missing conclusion is never a passing one. */
  predicate RunPasses(run: CheckRun, passing: seq<string>)
  {
    run.conclusion.Some? && run.conclusion.value in passing
  }

  /** Run `i` is the last run in response order that carries `name`. */
  ghost predicate IsLatestRun(runs: seq<CheckRun>, name: string, i: int)
  {
    0 <= i < |runs| && runs[i].name == name &&
    forall j :: i < j < |runs| ==> runs[j].name != name
  }

  /** The latest run named `name`, looking from the end of the response. */
  function LatestRun(runs: seq<CheckRun>, name: string): Option<CheckRun>
  {
    if |runs| == 0 then None
    else if runs[|runs| - 1].name == name then Some(runs[|runs| - 1])
    else LatestRun(runs[..|runs| - 1], name)
  }

  /**
   * The decision the gate is meant to make: every requested name has a latest
   * run, and that run passes. A requested check absent from the response fails.
   */
  predicate AllRequestedPass(checks: seq<string>, runs: seq<CheckRun>, passing: seq<string>)
  {
    forall c :: c in checks ==> LatestRun(runs, c).Some? && RunPasses(LatestRun(runs, c).value, passing)
  }

  /**
   * The `checks_passed` dictionary after the first `|runs|` runs: seeded with
   * `False` for every requested name, then overwritten by each requested run.
   * Its keys are exactly the requested names; runs with other names add none.
   */
  function ChecksPassedFold(checks: seq<string>, runs: seq<CheckRun>, passing: seq<string>): (m: map<string, bool>)
    ensures m.Keys == set c | c in checks
  {
    if |runs| == 0 then map c | c in checks :: false
    else
      var m := ChecksPassedFold(checks, runs[..|runs| - 1], passing);
      var run := runs[|runs| - 1];
      if run.name !in checks then m else m[run.name := RunPasses(run, passing)]
  }

  /** The requested runs, in response order, whose conclusion does not pass. */
  function FailingRuns(checks: seq<string>, runs: seq<CheckRun>, passing: seq<string>): seq<CheckRun>
  {
    if |runs| == 0 then []
    else
      var run := runs[|runs| - 1];
      FailingRuns(checks, runs[..|runs| - 1], passing) +
        (if run.name in checks && !RunPasses(run, passing) then [run] else [])
  }

  /** The lines printed while walking the runs: one failure line per failing requested run, in order. */
  function FailureLog(checks: seq<string>, runs: seq<CheckRun>, passing: seq<string>): seq<string>
  {
    var failing := FailingRuns(checks, runs, passing);
    seq(|failing|, j requires 0 <= j < |failing| => FailureLine(failing[j]))
  }

  /** `LatestRun` finds the last run with the name, and finds none only when no run has it. */
  lemma {:induction false} LatestRunIsLast(runs: seq<CheckRun>, name: string)
    ensures LatestRun(runs, name).None? <==> forall i :: 0 <= i < |runs| ==> runs[i].name != name
    ensures LatestRun(runs, name).Some? ==>
      exists i :: IsLatestRun(runs, name, i) && runs[i] == LatestRun(runs, name).value
    decreases |runs|
  {
    if |runs| > 0 {
      var n := |runs| - 1;
      var prefix := runs[..n];
      if runs[n].name == name {
        assert IsLatestRun(runs, name, n);
      } else {
        LatestRunIsLast(prefix, name);
        if LatestRun(prefix, name).Some? {
          var i :| IsLatestRun(prefix, name, i) && prefix[i] == LatestRun(prefix, name).value;
          assert IsLatestRun(runs, name, i);
        } else {
          forall i | 0 <= i < |runs| ensures runs[i].name != name {
            if i < n { assert runs[i] == prefix[i]; }
          }
        }
      }
    }
  }

  /** Each requested name's flag in the dictionary is whether its latest run passes. */
  lemma {:induction false} FoldIsLatest(checks: seq<string>, runs: seq<CheckRun>, passing: seq<string>, c: string)
    requires c in checks
    ensures ChecksPassedFold(checks, runs, passing)[c] ==
      (LatestRun(runs, c).Some? && RunPasses(LatestRun(runs, c).value, passing))
    decreases |runs|
  {
    if |runs| > 0 {
      FoldIsLatest(checks, runs[..|runs| - 1], passing, c);
    }
  }

  /**
   * The gate passes iff every requested name has a last matching run in the
   * response and that run's conclusion is a passing one.
   */
  lemma AllPassIffLatestPasses(checks: seq<string>, runs: seq<CheckRun>, passing: seq<string>)
    ensures AllRequestedPass(checks, runs, passing) <==>
      forall c :: c in checks ==> exists i :: IsLatestRun(runs, c, i) && RunPasses(runs[i], passing)
  {
    forall c | c in checks
      ensures (LatestRun(runs, c).Some? && RunPasses(LatestRun(runs, c).value, passing)) <==>
        exists i :: IsLatestRun(runs, c, i) && RunPasses(runs[i], passing)
    {
      LatestRunIsLast(runs, c);
      if exists i :: IsLatestRun(runs, c, i) && RunPasses(runs[i], passing) {
        var i :| IsLatestRun(runs, c, i) && RunPasses(runs[i], passing);
        var k :| IsLatestRun(runs, c, k) && runs[k] == LatestRun(runs, c).value;
        assert i == k;
      }
    }
  }

  /** A requested check that never appears in the response makes the gate fail. */
  lemma MissingCheckFails(checks: seq<string>, runs: seq<CheckRun>, passing: seq<string>, c: string)
    requires c in checks
    requires forall i :: 0 <= i < |runs| ==> runs[i].name != c
    ensures !AllRequestedPass(checks, runs, passing)
  {
    LatestRunIsLast(runs, c);
  }

  /** With nothing requested the gate passes vacuously. */
  lemma NothingRequestedPasses(runs: seq<CheckRun>, passing: seq<string>)
    ensures AllRequestedPass([], runs, passing)
  {
  }

  /**
   * A run is among the failing runs iff it is in the response, was requested and
   * did not pass; so a requested check absent from the response prints nothing.
   */
  lemma {:induction false} FailingRunsMembers(checks: seq<string>, runs: seq<CheckRun>, passing: seq<string>, run: CheckRun)
    ensures run in FailingRuns(checks, runs, passing) <==>
      run in runs && run.name in checks && !RunPasses(run, passing)
    decreases |runs|
  {
    if |runs| > 0 {
      var n := |runs| - 1;
      var prefix := runs[..n];
      var last := runs[n];
      FailingRunsMembers(checks, prefix, passing, run);
      var tail := if last.name in checks && !RunPasses(last, passing) then [last] else [];
      assert FailingRuns(checks, runs, passing) == FailingRuns(checks, prefix, passing) + tail;
      InSnoc(prefix, last, run);
      assert runs == prefix + [last];
    }
  }

  /**
   * Each run is logged as often as it occurs in the response when it is
   * requested and does not pass, and never otherwise.
   */
  lemma {:induction false} FailingRunsCount(checks: seq<string>, runs: seq<CheckRun>, passing: seq<string>, run: CheckRun)
    ensures multiset(FailingRuns(checks, runs, passing))[run] ==
      if run.name in checks && !RunPasses(run, passing) then multiset(runs)[run] else 0
    decreases |runs|
  {
    if |runs| > 0 {
      var n := |runs| - 1;
      var prefix := runs[..n];
      var last := runs[n];
      FailingRunsCount(checks, prefix, passing, run);
      var tail := if last.name in checks && !RunPasses(last, passing) then [last] else [];
      assert FailingRuns(checks, runs, passing) == FailingRuns(checks, prefix, passing) + tail;
      assert multiset(FailingRuns(checks, runs, passing)) == multiset(FailingRuns(checks, prefix, passing)) + multiset(tail);
      assert runs == prefix + [last];
      assert multiset(runs) == multiset(prefix) + multiset([last]);
    }
  }

  lemma InSnoc<T>(xs: seq<T>, x: T, y: T)
    ensures y in xs + [x] <==> y in xs || y == x
  {
    assert (xs + [x])[|xs|] == x;
  }

  /**
   * `check_statuses_of_checks` on an already fetched response: the non-200
   * assertion, then the dictionary loop, then `all(checks_passed.values())`.
   */
  method CheckStatusesOfChecks(checks: seq<string>, resp: Response<seq<CheckRun>>, passing: seq<string>)
    returns (result: Fetched<bool>, log: seq<string>)
    ensures resp.status != HTTP_OK ==> result == BadResponse(BAD_RESPONSE_MESSAGE) && log == []
    ensures resp.status == HTTP_OK ==> result == Ok(AllRequestedPass(checks, resp.body, passing))
    ensures resp.status == HTTP_OK ==> log == FailureLog(checks, resp.body, passing)
  {
    if resp.status != HTTP_OK {
      return BadResponse(BAD_RESPONSE_MESSAGE), [];
    }
    var runs := resp.body;
    var checksPassed: map<string, bool> := map c | c in checks :: false;
    log := [];
    ghost var failing: seq<CheckRun> := [];
    for k := 0 to |runs|
      invariant checksPassed == ChecksPassedFold(checks, runs[..k], passing)
      invariant failing == FailingRuns(checks, runs[..k], passing)
      invariant log == FailureLog(checks, runs[..k], passing)
    {
      assert runs[..k + 1][..k] == runs[..k];
      var run := runs[k];
      if run.name !in checks {
        continue;
      }
      var passed := RunPasses(run, passing);
      if !passed {
        log := log + [FailureLine(run)];
        failing := failing + [run];
      }
      checksPassed := checksPassed[run.name := passed];
    }
    assert runs[..|runs|] == runs;
    var allPassed := false !in checksPassed.Values;
    forall c | c in checks
      ensures checksPassed[c] == (LatestRun(runs, c).Some? && RunPasses(LatestRun(runs, c).value, passing))
    {
      FoldIsLatest(checks, runs, passing, c);
    }
    if allPassed {
      forall c | c in checks
        ensures LatestRun(runs, c).Some? && RunPasses(LatestRun(runs, c).value, passing)
      {
        assert checksPassed[c] in checksPassed.Values;
      }
    } else {
      var c :| c in checksPassed && checksPassed[c] == false;
      assert c in checks;
    }
    result := Ok(allPassed);
  }

  /**
   * The script's run: split both comma-separated arguments, check the
   * response, and exit 1 iff the statuses do not all pass.
   */
  method CheckDependentChecks(checksArg: string, passingArg: string, resp: Response<seq<CheckRun>>)
    returns (o: Outcome)
    ensures resp.status != HTTP_OK ==> o == AssertionFailed(BAD_RESPONSE_MESSAGE)
    ensures resp.status == HTTP_OK ==> o.Exit? && (o.code == 0 || o.code == 1)
    ensures resp.status == HTTP_OK ==>
      (o.code == 1 <==> !AllRequestedPass(PyStr.Split(checksArg, ','), resp.body, PyStr.Split(passingArg, ',')))
    ensures resp.status == HTTP_OK ==>
      o.log == FailureLog(PyStr.Split(checksArg, ','), resp.body, PyStr.Split(passingArg, ','))
  {
    var checks := PyStr.Split(checksArg, ',');
    var passing := PyStr.Split(passingArg, ',');
    var passed, log := CheckStatusesOfChecks(checks, resp, passing);
    if passed.BadResponse? {
      return AssertionFailed(passed.message);
    }
    if !passed.value {
      return Exit(1, log);
    }
    return Exit(0, log);
  }

  /** `--checks ""` requests one check with the empty name, so with no runs the gate fails. */
  lemma EmptyChecksArgumentRequestsEmptyName(runs: seq<CheckRun>, passing: seq<string>)
    requires forall i :: 0 <= i < |runs| ==> runs[i].name != ""
    ensures !AllRequestedPass(PyStr.Split("", ','), runs, passing)
  {
    MissingCheckFails(PyStr.Split("", ','), runs, passing, "");
  }

  /** "build" succeeded and "test" failed, with only "success" passing: the gate fails and names "test". */
  lemma FailingTestScenario()
    ensures !AllRequestedPass(["build", "test"],
      [CheckRun("build", Some("success")), CheckRun("test", Some("failure"))], ["success"])
    ensures FailureLog(["build", "test"],
      [CheckRun("build", Some("success")), CheckRun("test", Some("failure"))], ["success"])
      == ["Check test failed with status failure"]
  {
    var checks := ["build", "test"];
    var build := CheckRun("build", Some("success"));
    var test := CheckRun("test", Some("failure"));
    var runs := [build, test];
    assert runs[..1] == [build];
    assert [build][..0] == [];
    assert "failure" != "success";
    assert !RunPasses(test, ["success"]);
    assert RunPasses(build, ["success"]);
    assert LatestRun(runs, "test") == Some(test);
    assert checks[1] == "test" && checks[0] == "build";
    assert FailingRuns(checks, [build], ["success"]) == FailingRuns(checks, [], ["success"]) + [];
    assert FailingRuns(checks, runs, ["success"]) == FailingRuns(checks, [build], ["success"]) + [test];
    TestFailureLine();
  }

  lemma TestFailureLine()
    ensures FailureLine(CheckRun("test", Some("failure"))) == "Check test failed with status failure"
  {
    assert "Check " + "test" == "Check test";
    assert "Check test" + " failed with status " == "Check test failed with status ";
    assert "Check test failed with status " + "failure" == "Check test failed with status failure";
  }
}
