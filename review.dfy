/** Checking one candidate patch and building its review command
    (topic-review.py, lines 44-73). */
module Review {
  import opened Wrappers
  import Text
  import Decimal
  import opened Records

  /** The parsed command line. `port` is `str(args.port)`: the text given
      with `-p`, or "29418" by default. */
  datatype Config = Config(
    topic: string,
    server: string,
    remote: string,
    port: string,
    labelName: Option<string>,
    score: Option<string>,
    message: Option<string>)

  /** Python truthiness of an optional string: present and not empty. */
  predicate Truthy(o: Option<string>) {
    o.Some? && o.value != ""
  }

  /** What an f-string puts in place of an optional argument: `None` prints
      as "None". */
  function Show(o: Option<string>): string {
    if o.Some? then o.value else "None"
  }

  /** The query issued for one topic (topic-review.py, line 14). */
  function QueryCommand(cfg: Config, topic: string): seq<string> {
    ["ssh", "-p", cfg.port, cfg.server, cfg.remote, "query",
     "--format=JSON", "--dependencies", "--current-patch-set", "topic:" + topic]
  }

  /** `f"{change_number},{patch_set_number}"`. */
  function PatchId(change: Json, patchSet: Json): string {
    Render(change) + "," + Render(patchSet)
  }

  /** The label element, `f'--label={args.label}={args.score}'`. */
  function LabelArgument(cfg: Config): string {
    "--label=" + Show(cfg.labelName) + "=" + Show(cfg.score)
  }

  /** The message element, `-m '"<message>"'`. */
  function MessageArgument(message: string): string {
    "-m '\"" + message + "\"'"
  }

  /** The review command for one patch: ten fixed elements, and the message
      element only when a non-empty message was given. */
  function ReviewCommand(cfg: Config, project: string, id: string): seq<string> {
    var base := ["ssh", "-p", cfg.port, cfg.server, "gerrit", "review",
                 "--project", project, LabelArgument(cfg), id];
    if Truthy(cfg.message) then base + [MessageArgument(cfg.message.value)] else base
  }

  /** Why a candidate produces no review command and processing continues. */
  datatype Skip = MissingField | MissingRevision

  /** Why a candidate stops the whole run with an uncaught exception: a
      `currentPatchSet` without `number` (KeyError at line 59), or a project
      that is not a string (TypeError when the command is joined at line 75). */
  datatype Crash = MissingPatchSetNumber | ProjectNotText

  /** What the checks of lines 45-59 decide about one candidate. */
  datatype Verdict = Invalid(skip: Skip) | Broken(crash: Crash) | Valid(project: string, id: string)

  function Validate(patch: Record): Verdict {
    if patch.currentPatchSet.None? || patch.project.None? || patch.number.None? then Invalid(MissingField)
    else if patch.currentPatchSet.value.revision.None? then Invalid(MissingRevision)
    else if patch.currentPatchSet.value.number.None? then Broken(MissingPatchSetNumber)
    else if !patch.project.value.JStr? then Broken(ProjectNotText)
    else Valid(patch.project.value.text, PatchId(patch.number.value, patch.currentPatchSet.value.number.value))
  }

  /** The state a candidate ends in. */
  datatype Outcome =
    | Skipped(skip: Skip)
    | Labeled(command: seq<string>)
    | Failed(command: seq<string>, code: int)
    | Crashed(crash: Crash)

  /** One candidate's outcome, given what the review command exits with. */
  function PatchOutcome(cfg: Config, review: seq<string> -> int, patch: Record): Outcome {
    match Validate(patch)
    case Invalid(skip) => Skipped(skip)
    case Broken(crash) => Crashed(crash)
    case Valid(project, id) =>
      var command := ReviewCommand(cfg, project, id);
      var code := review(command);
      if code == 0 then Labeled(command) else Failed(command, code)
  }

  /** The command a valid candidate's review attempt runs, if it has one. */
  function Attempt(o: Outcome): Option<seq<string>> {
    match o
    case Labeled(command) => Some(command)
    case Failed(command, _) => Some(command)
    case _ => None
  }

  /** Which candidates are skipped, which crash and which are reviewed:
      a candidate without `currentPatchSet`, `project` or `number`, or
      whose `currentPatchSet` has no `revision`, is skipped and gets no
      review command; one that passes those checks but has no patch-set
      number, or a project that is not text, crashes; every other one gets
      exactly one review attempt with its own command, labeled when the
      command exits with 0 and failed with the exit code otherwise. */
  lemma PatchOutcomeSpec(cfg: Config, review: seq<string> -> int, patch: Record)
    ensures var o := PatchOutcome(cfg, review, patch);
            var ps := patch.currentPatchSet;
            && (o.Skipped? <==>
                  ps.None? || patch.project.None? || patch.number.None? || ps.value.revision.None?)
            && (o.Skipped? ==> Attempt(o).None?)
            && (o.Crashed? <==>
                  && ps.Some? && patch.project.Some? && patch.number.Some? && ps.value.revision.Some?
                  && (ps.value.number.None? || patch.project.value.JNum?))
            && (Attempt(o).Some? <==>
                  && ps.Some? && patch.project.Some? && patch.number.Some? && ps.value.revision.Some?
                  && ps.value.number.Some? && patch.project.value.JStr?)
            && (Attempt(o).Some? ==>
                  && Attempt(o).value == ReviewCommand(cfg, patch.project.value.text,
                                                       PatchId(patch.number.value, ps.value.number.value))
                  && (o.Labeled? <==> review(Attempt(o).value) == 0)
                  && (o.Failed? ==> o.code == review(o.command) != 0))
  {
  }

  /** The shape of every review command: exactly ten elements when the
      message is absent or empty, eleven when it is given, the last one
      then being the message element; the command run on the server is
      always "gerrit", whatever remote command the query used, and the label element is present
      even when no label was given. */
  lemma ReviewCommandShape(cfg: Config, project: string, id: string)
    ensures var cmd := ReviewCommand(cfg, project, id);
            && |cmd| == (if Truthy(cfg.message) then 11 else 10)
            && cmd[..4] == ["ssh", "-p", cfg.port, cfg.server]
            && cmd[4..7] == ["gerrit", "review", "--project"]
            && cmd[7] == project && cmd[9] == id
            && cmd[8] == LabelArgument(cfg)
            && (cfg.labelName.None? ==> cmd[8] == "--label=None=" + Show(cfg.score))
            && (Truthy(cfg.message) ==> cmd[10] == "-m '\"" + cfg.message.value + "\"'")
  {
  }

  /** The patch identifier reads back: split at commas, it is the pieces
      of the change number followed by those of the patch-set number, so
      when neither contains a comma (always so for JSON numbers) it splits
      into exactly the two rendered numbers, and for numbers they parse
      back to the numbers themselves. */
  lemma PatchIdRoundTrip(change: Json, patchSet: Json)
    ensures Text.Split(PatchId(change, patchSet), ',')
            == Text.Split(Render(change), ',') + Text.Split(Render(patchSet), ',')
    ensures ',' !in Render(change) && ',' !in Render(patchSet) ==>
              Text.Split(PatchId(change, patchSet), ',') == [Render(change), Render(patchSet)]
    ensures change.JNum? && patchSet.JNum? ==>
              var parts := Text.Split(PatchId(change, patchSet), ',');
              && |parts| == 2
              && Decimal.ParseInt(parts[0]) == change.num
              && Decimal.ParseInt(parts[1]) == patchSet.num
  {
    Text.SplitAround(Render(change), Render(patchSet), ',');
    if ',' !in Render(change) && ',' !in Render(patchSet) {
      Text.SplitJoin([Render(change)], ',');
      Text.SplitJoin([Render(patchSet)], ',');
    }
    if change.JNum? && patchSet.JNum? {
      Decimal.IntToStringRoundTrip(change.num);
      Decimal.IntToStringRoundTrip(patchSet.num);
    }
  }
}
