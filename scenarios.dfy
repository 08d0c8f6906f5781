/** Worked examples, stated over the model: topic resolution of
    "a,b,a,c", one valid record next to a statistics record, both its review
    command and the whole run around it, and the label element when no
    label is given. */
module Scenarios {
  import opened Wrappers
  import Text
  import Topics
  import opened Records
  import opened Review
  import opened Labeler

  /** "a,b,a,c" splits into four pieces. */
  lemma SplitExample()
    ensures Text.Split("a,b,a,c", ',') == ["a", "b", "a", "c"]
  {
    var xs := ["a", "b", "a", "c"];
    Text.SplitJoin(xs, ',');
    assert Text.Join(xs, ',') == "a,b,a,c";
  }
  /** Dropping the repeated "a" keeps the first one. */
  lemma DedupExample()
    ensures Topics.Dedup(["a", "b", "a", "c"]) == ["a", "b", "c"]
  {
    assert Topics.Dedup(["a"]) == ["a"] by {
      assert ["a"][..0] == [];
    }
    assert Topics.Dedup(["a", "b"]) == ["a", "b"] by {
      assert ["a", "b"][..1] == ["a"];
    }
    assert Topics.Dedup(["a", "b", "a"]) == ["a", "b"] by {
      assert ["a", "b", "a"][..2] == ["a", "b"];
    }
    assert ["a", "b", "a", "c"][..3] == ["a", "b", "a"];
  }

  /** The topics of `-t a,b,a,c` are a, b and c, in that order. */
  lemma TopicsExample()
    ensures Topics.ResolveTopics("a,b,a,c") == ["a", "b", "c"]
  {
    SplitExample();
    DedupExample();
  }

  /** The record of the example's first line. */
  function ExampleRecord(): Record {
    Record(None, Some(JStr("demo")), Some(JStr("123")), Some(PatchSet(Some(JStr("2")), Some(JStr("abcd1234")))))
  }

  /** The statistics record that ends every query answer. */
  function StatsRecord(): Record {
    Record(Some(JStr("stats")), None, None, None)
  }

  /** The arguments `-t T -s host -l Verified --score +1`. */
  function ExampleConfig(): Config {
    Config("T", "host", "gerrit", "29418", Some("Verified"), Some("+1"), None)
  }

  /** The review command of the example's record. */
  function ExampleCommand(): seq<string> {
    ["ssh", "-p", "29418", "host", "gerrit", "review", "--project", "demo", "--label=Verified=+1", "123,2"]
  }

  /** Of a valid record's line and the statistics line, only the valid
      record is a candidate. */
  lemma ExampleCandidates(parse: string -> Option<Record>, l1: string, l2: string)
    requires Text.Strip(l1) == l1 && Text.Strip(l2) == l2 && l1 != [] && l2 != []
    requires parse(l1) == Some(ExampleRecord()) && parse(l2) == Some(StatsRecord())
    ensures Candidates([l1, l2], parse) == [ExampleRecord()]
  {
    assert Kept(l1, parse) && Parsed(l1, parse) == ExampleRecord();
    assert !Kept(l2, parse);
    assert [l1, l2][..1] == [l1];
    assert [l1][..0] == [];
    assert Candidates([l1], parse) == [ExampleRecord()];
  }

  /** The example's record is valid and its command is the one shown. */
  lemma ExampleValid()
    ensures Validate(ExampleRecord()) == Valid("demo", "123,2")
    ensures ReviewCommand(ExampleConfig(), "demo", "123,2") == ExampleCommand()
  {
    assert PatchId(JStr("123"), JStr("2")) == "123,2";
    assert LabelArgument(ExampleConfig()) == "--label=Verified=+1";
  }

  /** A valid record followed by the statistics record yields one review
      command, for the valid record, with `--label Verified --score +1`. */
  lemma EndToEndExample(parse: string -> Option<Record>, l1: string, l2: string)
    requires Text.Strip(l1) == l1 && Text.Strip(l2) == l2 && l1 != [] && l2 != []
    requires parse(l1) == Some(ExampleRecord()) && parse(l2) == Some(StatsRecord())
    ensures ValidCommands(ExampleConfig(), Candidates([l1, l2], parse))
            == [["ssh", "-p", "29418", "host", "gerrit", "review", "--project", "demo", "--label=Verified=+1", "123,2"]]
  {
    ExampleCandidates(parse, l1, l2);
    ExampleValid();
    assert [ExampleRecord()][..0] == [];
  }

  /** The whole run with `-t T`: the query answers the two lines, the
      review exits with 0, so the run reports topic T with the one labeled
      command and ends with exit code 0. */
  lemma RunExample(parse: string -> Option<Record>, l1: string, l2: string)
    requires Text.Strip(l1) == l1 && Text.Strip(l2) == l2 && l1 != [] && l2 != []
    requires Text.NoLineBreak(l1) && Text.NoLineBreak(l2)
    requires parse(l1) == Some(ExampleRecord()) && parse(l2) == Some(StatsRecord())
    ensures var query := (c: seq<string>) => Process(0, l1 + "\n" + l2);
            var review := (c: seq<string>) => 0;
            && Execute(ExampleConfig(), query, parse, review)
               == Run([Reviewed("T", [Labeled(ExampleCommand())])], Finished)
            && ExitCode(Execute(ExampleConfig(), query, parse, review)) == 0
  {
    var query := (c: seq<string>) => Process(0, l1 + "\n" + l2);
    var review := (c: seq<string>) => 0;
    var cfg := ExampleConfig();
    var out := l1 + "\n" + l2;
    assert QueryLines(out) == [l1, l2] by {
      ExampleStripped(l1, l2);
      assert Text.Join([l1, l2], '\n') == out;
      Text.SplitLinesJoin([l1, l2]);
    }
    ExampleCandidates(parse, l1, l2);
    ExampleValid();
    assert TopicOutcomes(cfg, review, [ExampleRecord()]) == [Labeled(ExampleCommand())] by {
      var reached := Outcomes(cfg, review, [ExampleRecord()]);
      assert reached == [Labeled(ExampleCommand())];
      assert reached[..0] == [];
    }
    var step := TopicStep(cfg, query, parse, review, "T");
    assert step == Step(Reviewed("T", [Labeled(ExampleCommand())]), Finished);
    assert Topics.ResolveTopics("T") == ["T"] by {
      assert Text.Split("T", ',') == ["T"] by {
        assert "T"[1..] == [] && "T"[0] == 'T';
        assert Text.Split([], ',') == [[]];
        assert ['T'] + [] == "T";
      }
      assert ["T"][..0] == [];
    }
    var steps := Steps(cfg, query, parse, review, ["T"]);
    assert steps == [step];
    assert steps[..0] == [];
    assert RunSteps(steps) == Run([Reviewed("T", [Labeled(ExampleCommand())])], Finished);
    assert ArgumentsAccepted(cfg);
    assert Execute(cfg, query, parse, review) == RunSteps(steps);
  }

  /** A stripped, non-empty first line and last line around "\n" leave
      nothing for `strip()` to remove. */
  lemma ExampleStripped(l1: string, l2: string)
    requires Text.Strip(l1) == l1 && Text.Strip(l2) == l2 && l1 != [] && l2 != []
    ensures Text.Strip(l1 + "\n" + l2) == l1 + "\n" + l2
  {
    var out := l1 + "\n" + l2;
    Text.StripSpec(l1);
    Text.StripSpec(l2);
    assert out[0] == l1[0] && out[|out| - 1] == l2[|l2| - 1];
    assert Text.TrimLeft(out) == out;
  }

  /** Without `--label` and `--score` the label element is still there and
      reads "--label=None=None". */
  lemma NoLabelExample(project: string, id: string)
    ensures var cfg := Config("T", "host", "gerrit", "29418", None, None, None);
            ReviewCommand(cfg, project, id)[8] == "--label=None=None"
  {
  }
}
