/** The run as a whole (topic-review.py, lines 9-90 and 103-109): topics are
    queried one after another, every candidate of a topic gets its outcome
    in order, a failing review is reported and the loop goes on, while a
    failing query or an uncaught exception ends the run; before any of it,
    a label given without a score is refused. The remote side is an
    oracle: `query` maps a query command to its exit code and output,
    `review` a review command to its exit code, `parse` a line to the JSON
    object it holds, if any. */
module Labeler {
  import opened Wrappers
  import Text
  import Topics
  import opened Records
  import opened Review

  /** What a finished subprocess gives back. */
  datatype Process = Process(code: int, stdout: string)

  /** What the run did for one topic. */
  datatype TopicReport =
    | Reviewed(topic: string, outcomes: seq<Outcome>)
    | QueryFailed(topic: string, code: int)

  /** How the run ended: normally (exit code 0), by `sys.exit(1)` after a
      failed query, by an uncaught exception, or by the argument check. */
  datatype Status = Finished | QueryError | Exception | UsageError

  datatype Run = Run(reports: seq<TopicReport>, status: Status)

  function ExitCode(run: Run): int {
    if run.status == Finished then 0 else 1
  }

  /** The last outcome is a crash, after which nothing else happens. */
  predicate Stopped(outcomes: seq<Outcome>) {
    |outcomes| > 0 && outcomes[|outcomes| - 1].Crashed?
  }

  /** The outcomes each candidate would have; only those up to the first
      crash are reached. */
  function Outcomes(cfg: Config, review: seq<string> -> int, patches: seq<Record>): seq<Outcome>
  {
    seq(|patches|, i requires 0 <= i < |patches| => PatchOutcome(cfg, review, patches[i]))
  }

  /** A sequence of outcomes up to and including the first crash; what
      would come after it never happens. */
  function UpToCrash(outcomes: seq<Outcome>): seq<Outcome>
  {
    if outcomes == [] then []
    else
      var before := UpToCrash(outcomes[..|outcomes| - 1]);
      if Stopped(before) then before
      else before + [outcomes[|outcomes| - 1]]
  }

  /** The outcomes of a topic's candidates, in order, up to and including
      the first crash. */
  function TopicOutcomes(cfg: Config, review: seq<string> -> int, patches: seq<Record>): seq<Outcome>
  {
    UpToCrash(Outcomes(cfg, review, patches))
  }

  /** The report for one topic and whether the run goes on after it. */
  datatype Step = Step(report: TopicReport, status: Status)

  /** What querying one topic and handling its candidates gives. */
  function TopicStep(cfg: Config, query: seq<string> -> Process, parse: string -> Option<Record>,
                     review: seq<string> -> int, topic: string): Step
  {
    var result := query(QueryCommand(cfg, topic));
    if result.code != 0 then Step(QueryFailed(topic, result.code), QueryError)
    else
      var outcomes := TopicOutcomes(cfg, review, Candidates(QueryLines(result.stdout), parse));
      Step(Reviewed(topic, outcomes), if Stopped(outcomes) then Exception else Finished)
  }

  /** A sequence of topic steps run one after another, stopping at the
      first step that does not finish normally; the steps after it are
      never taken. */
  function RunSteps(steps: seq<Step>): Run
  {
    if steps == [] then Run([], Finished)
    else
      var before := RunSteps(steps[..|steps| - 1]);
      var last := steps[|steps| - 1];
      if before.status != Finished then before
      else Run(before.reports + [last.report], last.status)
  }

  /** The step each topic would take; only those before the stopping point
      are taken. */
  function Steps(cfg: Config, query: seq<string> -> Process, parse: string -> Option<Record>,
                 review: seq<string> -> int, topics: seq<string>): seq<Step>
  {
    seq(|topics|, i requires 0 <= i < |topics| => TopicStep(cfg, query, parse, review, topics[i]))
  }

  /** The run over a list of topics. */
  function RunTopics(cfg: Config, query: seq<string> -> Process, parse: string -> Option<Record>,
                     review: seq<string> -> int, topics: seq<string>): Run
  {
    RunSteps(Steps(cfg, query, parse, review, topics))
  }

  /** `args.label and args.score is None` refuses the arguments. */
  predicate ArgumentsAccepted(cfg: Config) {
    !(Truthy(cfg.labelName) && cfg.score.None?)
  }

  /** The whole script, from the parsed arguments on. */
  function Execute(cfg: Config, query: seq<string> -> Process, parse: string -> Option<Record>,
                   review: seq<string> -> int): Run
  {
    if !ArgumentsAccepted(cfg) then Run([], UsageError)
    else RunTopics(cfg, query, parse, review, Topics.ResolveTopics(cfg.topic))
  }

  // ---------------------------------------------------------------------
  // The loops of label_patches

  /** The patch loop of topic-review.py, lines 44-84. */
  method ReviewCandidates(cfg: Config, review: seq<string> -> int, patches: seq<Record>)
    returns (outcomes: seq<Outcome>)
    ensures outcomes == TopicOutcomes(cfg, review, patches)
  {
    ghost var reached := Outcomes(cfg, review, patches);
    outcomes := [];
    for i := 0 to |patches|
      invariant outcomes == UpToCrash(reached[..i])
      invariant !Stopped(outcomes)
    {
      assert reached[..i + 1][..i] == reached[..i];
      assert reached[i] == PatchOutcome(cfg, review, patches[i]);
      var patch := patches[i];
      if patch.currentPatchSet.None? || patch.project.None? || patch.number.None? {
        outcomes := outcomes + [Skipped(MissingField)];
        continue;
      }
      var currentPatchSet := patch.currentPatchSet.value;
      if currentPatchSet.revision.None? {
        outcomes := outcomes + [Skipped(MissingRevision)];
        continue;
      }
      var project := patch.project.value;
      var changeNumber := patch.number.value;
      if currentPatchSet.number.None? {
        outcomes := outcomes + [Crashed(MissingPatchSetNumber)];
        StoppedIsFinal(reached, i + 1);
        return;
      }
      var fullPatchId := PatchId(changeNumber, currentPatchSet.number.value);
      if !project.JStr? {
        outcomes := outcomes + [Crashed(ProjectNotText)];
        StoppedIsFinal(reached, i + 1);
        return;
      }
      var reviewCommand := ["ssh", "-p", cfg.port, cfg.server, "gerrit", "review",
                            "--project", project.text, LabelArgument(cfg), fullPatchId];
      if Truthy(cfg.message) {
        reviewCommand := reviewCommand + [MessageArgument(cfg.message.value)];
      }
      var code := review(reviewCommand);
      if code == 0 {
        outcomes := outcomes + [Labeled(reviewCommand)];
      } else {
        outcomes := outcomes + [Failed(reviewCommand, code)];
      }
    }
    assert reached[..|patches|] == reached;
  }

  /** The topic loop of topic-review.py, lines 13-90. */
  method LabelPatches(cfg: Config, query: seq<string> -> Process, parse: string -> Option<Record>,
                      review: seq<string> -> int) returns (run: Run)
    ensures run == RunTopics(cfg, query, parse, review, Topics.ResolveTopics(cfg.topic))
  {
    var topics := Topics.ResolveTopics(cfg.topic);
    ghost var steps := Steps(cfg, query, parse, review, topics);
    var reports: seq<TopicReport> := [];
    for i := 0 to |topics|
      invariant RunSteps(steps[..i]) == Run(reports, Finished)
    {
      assert steps[..i + 1][..i] == steps[..i];
      assert steps[i] == TopicStep(cfg, query, parse, review, topics[i]);
      var topic := topics[i];
      var command := QueryCommand(cfg, topic);
      var result := query(command);
      if result.code != 0 {
        reports := reports + [QueryFailed(topic, result.code)];
        run := Run(reports, QueryError);
        RunStoppedIsFinal(steps, i + 1);
        return;
      }
      var commits := QueryLines(result.stdout);
      var patches := ParseCandidates(commits, parse);
      var outcomes := ReviewCandidates(cfg, review, patches);
      reports := reports + [Reviewed(topic, outcomes)];
      if Stopped(outcomes) {
        run := Run(reports, Exception);
        RunStoppedIsFinal(steps, i + 1);
        return;
      }
    }
    assert steps[..|topics|] == steps;
    run := Run(reports, Finished);
  }

  /** The `__main__` block, lines 103-109, with the exit code it ends with. */
  method Script(cfg: Config, query: seq<string> -> Process, parse: string -> Option<Record>,
                review: seq<string> -> int) returns (run: Run, exitCode: int)
    ensures run == Execute(cfg, query, parse, review)
    ensures exitCode == ExitCode(run)
  {
    if Truthy(cfg.labelName) && cfg.score.None? {
      return Run([], UsageError), 1;
    }
    run := LabelPatches(cfg, query, parse, review);
    exitCode := if run.status == Finished then 0 else 1;
  }

  // ---------------------------------------------------------------------
  // Properties

  /** Once a crash has happened, later candidates add nothing. */
  lemma {:induction false} StoppedIsFinal(outcomes: seq<Outcome>, i: nat)
    requires i <= |outcomes|
    requires Stopped(UpToCrash(outcomes[..i]))
    ensures UpToCrash(outcomes) == UpToCrash(outcomes[..i])
    decreases |outcomes| - i
  {
    if i < |outcomes| {
      assert outcomes[..i + 1][..i] == outcomes[..i];
      StoppedIsFinal(outcomes, i + 1);
    } else {
      assert outcomes[..i] == outcomes;
    }
  }

  /** Once a topic has ended the run, later topics add nothing. */
  lemma {:induction false} RunStoppedIsFinal(steps: seq<Step>, i: nat)
    requires i <= |steps|
    requires RunSteps(steps[..i]).status != Finished
    ensures RunSteps(steps) == RunSteps(steps[..i])
    decreases |steps| - i
  {
    if i < |steps| {
      assert steps[..i + 1][..i] == steps[..i];
      RunStoppedIsFinal(steps, i + 1);
    } else {
      assert steps[..i] == steps;
    }
  }

  /** The commands of the review attempts among the outcomes, in order. */
  function Attempts(outcomes: seq<Outcome>): seq<seq<string>>
  {
    if outcomes == [] then []
    else
      var last := Attempt(outcomes[|outcomes| - 1]);
      Attempts(outcomes[..|outcomes| - 1]) + (if last.Some? then [last.value] else [])
  }

  /** The review commands of the valid candidates, in order; it does not
      depend on what any command exits with. */
  function ValidCommands(cfg: Config, patches: seq<Record>): seq<seq<string>>
  {
    if patches == [] then []
    else
      var v := Validate(patches[|patches| - 1]);
      ValidCommands(cfg, patches[..|patches| - 1])
        + (if v.Valid? then [ReviewCommand(cfg, v.project, v.id)] else [])
  }

  /** Cutting at the first crash keeps a prefix: nothing before its last
      element is a crash, it stops short only at a crash, and without any
      crash it is the whole sequence. */
  lemma UpToCrashSpec(outcomes: seq<Outcome>)
    ensures |UpToCrash(outcomes)| <= |outcomes|
    ensures UpToCrash(outcomes) == outcomes[..|UpToCrash(outcomes)|]
    ensures forall i | 0 <= i < |UpToCrash(outcomes)| - 1 :: !outcomes[i].Crashed?
    ensures |UpToCrash(outcomes)| < |outcomes| ==> Stopped(UpToCrash(outcomes))
    ensures (forall i | 0 <= i < |outcomes| :: !outcomes[i].Crashed?) ==> UpToCrash(outcomes) == outcomes
  {
    UpToCrashPrefix(outcomes);
    UpToCrashNoEarlyCrash(outcomes);
    var r := UpToCrash(outcomes);
    forall i | 0 <= i < |r| - 1 ensures !outcomes[i].Crashed? {
      assert r[i] == outcomes[i];
    }
    if |r| < |outcomes| {
      assert r[|r| - 1] == outcomes[|r| - 1];
    }
    assert outcomes[..|outcomes|] == outcomes;
  }

  lemma {:induction false} UpToCrashPrefix(outcomes: seq<Outcome>)
    ensures |UpToCrash(outcomes)| <= |outcomes|
    ensures UpToCrash(outcomes) == outcomes[..|UpToCrash(outcomes)|]
    ensures |UpToCrash(outcomes)| < |outcomes| ==> Stopped(UpToCrash(outcomes))
  {
    if outcomes != [] {
      var n := |outcomes| - 1;
      var init := outcomes[..n];
      UpToCrashPrefix(init);
      var before := UpToCrash(init);
      assert init[..|before|] == outcomes[..|before|];
      if !Stopped(before) {
        assert outcomes[..n + 1] == outcomes;
      }
    }
  }

  lemma {:induction false} UpToCrashNoEarlyCrash(outcomes: seq<Outcome>)
    ensures forall i | 0 <= i < |UpToCrash(outcomes)| - 1 :: !UpToCrash(outcomes)[i].Crashed?
  {
    if outcomes != [] {
      var n := |outcomes| - 1;
      UpToCrashNoEarlyCrash(outcomes[..n]);
    }
  }

  /** A topic's outcomes are its candidates' own outcomes, one per
      candidate and in candidate order, up to the first crash: nothing
      before the crash is a crash, and the list stops short only at a
      crash, so without a crashing candidate every candidate has its
      outcome. */
  lemma TopicOutcomesSpec(cfg: Config, review: seq<string> -> int, patches: seq<Record>)
    ensures |TopicOutcomes(cfg, review, patches)| <= |patches|
    ensures forall i | 0 <= i < |TopicOutcomes(cfg, review, patches)| ::
              TopicOutcomes(cfg, review, patches)[i] == PatchOutcome(cfg, review, patches[i])
    ensures forall i | 0 <= i < |TopicOutcomes(cfg, review, patches)| - 1 ::
              !TopicOutcomes(cfg, review, patches)[i].Crashed?
    ensures |TopicOutcomes(cfg, review, patches)| < |patches| ==> Stopped(TopicOutcomes(cfg, review, patches))
    ensures (forall i | 0 <= i < |patches| :: !PatchOutcome(cfg, review, patches[i]).Crashed?) ==>
              |TopicOutcomes(cfg, review, patches)| == |patches|
  {
    var reached := Outcomes(cfg, review, patches);
    UpToCrashSpec(reached);
    var r := UpToCrash(reached);
    forall i | 0 <= i < |r| ensures r[i] == PatchOutcome(cfg, review, patches[i]) {
      assert r[i] == reached[..|r|][i];
    }
  }

  /** A failed review does not stop the loop: the next candidate still gets
      its own outcome. */
  lemma FailedReviewContinues(cfg: Config, review: seq<string> -> int, patches: seq<Record>, i: nat)
    requires i + 1 < |patches|
    requires i < |TopicOutcomes(cfg, review, patches)|
    requires TopicOutcomes(cfg, review, patches)[i].Failed?
    ensures i + 1 < |TopicOutcomes(cfg, review, patches)|
    ensures TopicOutcomes(cfg, review, patches)[i + 1] == PatchOutcome(cfg, review, patches[i + 1])
  {
    var r := TopicOutcomes(cfg, review, patches);
    TopicOutcomesSpec(cfg, review, patches);
    assert |r| == i + 1 ==> !Stopped(r);
  }

  /** Every valid candidate before the point where the loop stopped gets
      exactly one review attempt, in candidate order, with its own
      command, whatever earlier attempts exited with; a crashing candidate
      gets none. Without a crashing candidate these are the commands of all
      valid candidates. */
  lemma AttemptsSpec(cfg: Config, review: seq<string> -> int, patches: seq<Record>)
    ensures |TopicOutcomes(cfg, review, patches)| <= |patches|
    ensures Attempts(TopicOutcomes(cfg, review, patches))
            == ValidCommands(cfg, patches[..|TopicOutcomes(cfg, review, patches)|])
    ensures (forall i | 0 <= i < |patches| :: !PatchOutcome(cfg, review, patches[i]).Crashed?) ==>
              Attempts(TopicOutcomes(cfg, review, patches)) == ValidCommands(cfg, patches)
  {
    var reached := Outcomes(cfg, review, patches);
    UpToCrashSpec(reached);
    var k := |UpToCrash(reached)|;
    assert reached[..k] == Outcomes(cfg, review, patches[..k]);
    AttemptsOfOutcomes(cfg, review, patches[..k]);
    TopicOutcomesSpec(cfg, review, patches);
    assert patches[..|patches|] == patches;
  }

  /** Every candidate's own outcome attempts exactly the valid candidates'
      commands, in order. */
  lemma {:induction false} AttemptsOfOutcomes(cfg: Config, review: seq<string> -> int, patches: seq<Record>)
    ensures Attempts(Outcomes(cfg, review, patches)) == ValidCommands(cfg, patches)
  {
    if patches != [] {
      var n := |patches| - 1;
      var reached := Outcomes(cfg, review, patches);
      assert reached[..n] == Outcomes(cfg, review, patches[..n]);
      AttemptsOfOutcomes(cfg, review, patches[..n]);
      AttemptOfOutcome(cfg, review, patches[n]);
    }
  }

  lemma AttemptOfOutcome(cfg: Config, review: seq<string> -> int, patch: Record)
    ensures var v := Validate(patch);
            Attempt(PatchOutcome(cfg, review, patch))
            == if v.Valid? then Some(ReviewCommand(cfg, v.project, v.id)) else None
  {
  }

  /** A run of steps takes them in order, each once: report `i` is step
      `i`'s report; every step before the last one taken finished
      normally; the run stops early only because the last step taken did
      not finish, and the run's status is that step's. */
  lemma {:induction false} RunStepsSpec(steps: seq<Step>)
    ensures |RunSteps(steps).reports| <= |steps|
    ensures forall i | 0 <= i < |RunSteps(steps).reports| :: RunSteps(steps).reports[i] == steps[i].report
    ensures forall i | 0 <= i < |RunSteps(steps).reports| - 1 :: steps[i].status == Finished
    ensures RunSteps(steps).status ==
              if RunSteps(steps).reports == [] then Finished else steps[|RunSteps(steps).reports| - 1].status
    ensures |RunSteps(steps).reports| < |steps| ==> RunSteps(steps).status != Finished
  {
    if steps != [] {
      var n := |steps| - 1;
      var init := steps[..n];
      RunStepsSpec(init);
      var before := RunSteps(init);
      forall i | 0 <= i < |before.reports| ensures init[i] == steps[i] { }
      if before.status == Finished {
        assert |before.reports| == n;
      } else {
        assert before.reports != [];
      }
    }
  }

  /** A failed query ends the run at once: when every earlier topic
      finished and topic `k`'s query exits non-zero, the run reports the
      earlier topics, then the failed query, ends with `sys.exit(1)`, and
      no later topic is queried. */
  lemma QueryFailureAborts(cfg: Config, query: seq<string> -> Process, parse: string -> Option<Record>,
                           review: seq<string> -> int, topics: seq<string>, k: nat)
    requires k < |topics|
    requires forall i | 0 <= i < k :: TopicStep(cfg, query, parse, review, topics[i]).status == Finished
    requires query(QueryCommand(cfg, topics[k])).code != 0
    ensures |RunTopics(cfg, query, parse, review, topics).reports| == k + 1
    ensures RunTopics(cfg, query, parse, review, topics).reports[k]
            == QueryFailed(topics[k], query(QueryCommand(cfg, topics[k])).code)
    ensures RunTopics(cfg, query, parse, review, topics).status == QueryError
    ensures ExitCode(RunTopics(cfg, query, parse, review, topics)) == 1
  {
    var steps := Steps(cfg, query, parse, review, topics);
    RunPrefixFinished(steps, k);
    assert steps[..k + 1][..k] == steps[..k];
    assert steps[k] == Step(QueryFailed(topics[k], query(QueryCommand(cfg, topics[k])).code), QueryError);
    RunStoppedIsFinal(steps, k + 1);
  }

  lemma {:induction false} RunPrefixFinished(steps: seq<Step>, k: nat)
    requires k <= |steps|
    requires forall i | 0 <= i < k :: steps[i].status == Finished
    ensures RunSteps(steps[..k]) == Run(RunSteps(steps[..k]).reports, Finished)
    ensures |RunSteps(steps[..k]).reports| == k
  {
    if k > 0 {
      RunPrefixFinished(steps, k - 1);
      assert steps[..k][..k - 1] == steps[..k - 1];
    }
  }

  /** The argument check refuses exactly a non-empty label without a score,
      and a refused run queries nothing, reviews nothing and exits with 1;
      a score without a label is accepted. */
  lemma UsageErrorExactly(cfg: Config, query: seq<string> -> Process, parse: string -> Option<Record>,
                          review: seq<string> -> int)
    ensures Execute(cfg, query, parse, review).status == UsageError
            <==> Truthy(cfg.labelName) && cfg.score.None?
    ensures Execute(cfg, query, parse, review).status == UsageError ==>
              Execute(cfg, query, parse, review).reports == [] && ExitCode(Execute(cfg, query, parse, review)) == 1
  {
    if ArgumentsAccepted(cfg) {
      var steps := Steps(cfg, query, parse, review, Topics.ResolveTopics(cfg.topic));
      forall i | 0 <= i < |steps| ensures steps[i].status != UsageError {
        assert steps[i] == TopicStep(cfg, query, parse, review, Topics.ResolveTopics(cfg.topic)[i]);
      }
      RunStepsNoUsageError(steps);
    }
  }

  /** Topic steps never refuse the arguments, so neither does a run of them. */
  lemma {:induction false} RunStepsNoUsageError(steps: seq<Step>)
    requires forall i | 0 <= i < |steps| :: steps[i].status != UsageError
    ensures RunSteps(steps).status != UsageError
  {
    if steps != [] {
      var n := |steps| - 1;
      assert forall i | 0 <= i < n :: steps[..n][i] == steps[i];
      RunStepsNoUsageError(steps[..n]);
    }
  }
}
