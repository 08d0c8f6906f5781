# Label-Gerrit topic review, modelled in Dafny

`topic-review.py` applies a Gerrit review label to every change under one or
more topics. It splits the `--topic` argument on commas and drops repeated
topics. For each topic it runs `<remote> query` on the server over SSH
(`<remote>` is `--remote`, `gerrit` by default) and reads the JSON lines of
the answer, keeping every patch record. For each patch it runs
`gerrit review` on the same server with the requested label, score and
message. A failed review
is reported and the loop goes on; a failed query ends the run with exit code
1. Before any of this, a label given without a score is refused.

This project models that decision-making (the function `label_patches` and
the argument check of the `__main__` block) and proves what it promises:

- `Text`: Python's `str.strip()`, `str.splitlines()` and splitting on a
  comma. `strip()` is characterised by what it keeps and cuts off.
  `splitlines()` undoes joining lines with "\n". Splitting on a comma and
  joining with a comma undo each other.
- `Decimal`: `str()` of an integer, which is what an f-string writes for a
  JSON number, with its inverse.
- `Topics`: topic resolution (`list(dict.fromkeys(re.split(',', topic)))`).
- `Records`: the JSON records of a query answer and the loop that keeps the
  candidate patches.
- `Review`: the checks on one candidate, its `change,patchset` identifier and
  its review command.
- `Labeler`: the patch loop, the topic loop, the argument check, and how the
  run ends.
- `Scenarios`: worked examples.

The remote side is passed in as three functions. `query` maps a query
command to its exit code and output. `review` maps a review command to its
exit code. `parse` maps a stripped line to the JSON object it holds, or to
`None` when `json.loads` would raise.

The topic loop is specified over `Steps`, the step each topic would take.
By definition `Steps(...)[i]` is `TopicStep(..., topics[i])`. The run takes
only the steps up to the first one that does not finish.
The patch loop is specified the same way. `Outcomes(...)[i]` is the
outcome candidate `i` would have, and `UpToCrash` keeps the outcomes up to
and including the first crash.

Behaviour of the code worth knowing:

- The review command always carries `--label=<label>=<score>`. When no label
  or no score was given, `None` is written in its place (`--label=None=None`).
  The element is never left out.
- The message is passed as one trailing element `-m '"<message>"'`. There is
  no `--message=` flag. The command is joined with spaces and run through a
  shell.
- The review command always runs the remote command `gerrit` on the
  server. Only the query puts `--remote` in that place.
- A record that has `currentPatchSet` with a `revision` but no `number`
  crashes the run with an uncaught `KeyError`. It is not skipped.
- A record whose `project` is a JSON number crashes the run with a
  `TypeError` when the command is joined for printing.

## Model

| member | source | states |
|---|---|---|
| Text.TrimLeftSpec | topic-review.py:25 | what is left is the longest suffix that does not start with white space, and all that was cut off is white space |
| Text.TrimRightSpec | topic-review.py:25 | what is left is the longest prefix that does not end with white space, and all that was cut off is white space |
| Text.Strip | topic-review.py:25 | no contract of its own; `StripSpec` states what `strip()` keeps and cuts off |
| Text.StripSpec | topic-review.py:25-28 | `strip()` keeps a contiguous part with white space only around it; the result is empty exactly when the line is blank |
| Text.StripIdempotent | topic-review.py:18-25 | stripping an already stripped line changes nothing |
| Text.LineEnd | topic-review.py:18 | the first line ends at the first line boundary, or at the end of the text |
| Text.SplitLines | topic-review.py:18 | no line holds a line boundary, and empty text has no lines |
| Text.SplitLinesJoin | topic-review.py:18 | `splitlines()` undoes joining lines with "\n" when the last line is not empty |
| Text.Split | topic-review.py:10 | there is at least one piece, and no piece contains the separator |
| Text.JoinSplit | topic-review.py:10 | the pieces joined with commas give back the topic argument exactly, with no trimming |
| Text.SplitCount | topic-review.py:10 | the number of pieces is the number of commas plus one |
| Text.SplitJoin | topic-review.py:10 | splitting undoes joining pieces that contain no separator |
| Text.SplitAround | topic-review.py:62 | splitting `a,b` gives the pieces of `a` followed by the pieces of `b` |
| Decimal.NatDigits | topic-review.py:62 | a natural number prints as a non-empty run of decimal digits, with no leading zero except for 0 itself |
| Decimal.IntToString | topic-review.py:62 | an integer prints as non-empty text that holds no comma |
| Decimal.IntToStringRoundTrip | topic-review.py:62 | the printed numeral reads back as the number it came from |
| Topics.Dedup | topic-review.py:11 | the result has no duplicates and has exactly the elements of the input |
| Topics.DedupOrder | topic-review.py:11 | the result lists the elements in the order of their first occurrence |
| Topics.DedupUnique | topic-review.py:11 | any list with the input's elements, in first-occurrence order, is the deduplicated list |
| Topics.DedupOfDistinct | topic-review.py:11 | a list without duplicates is left unchanged |
| Topics.DedupIdempotent | topic-review.py:11 | deduplicating twice gives the same list as deduplicating once |
| Topics.ResolveTopics | topic-review.py:10-11 | no contract of its own; `ResolveTopicsSpec` states the topic list it gives |
| Topics.ResolveTopicsSpec | topic-review.py:10-11 | the topic list is non-empty and duplicate-free, holds each piece of the argument once in first-occurrence order, has no comma in any topic, and resolves to itself when joined again |
| Records.Render | topic-review.py:62 | a JSON string is written as itself, a JSON number as comma-free non-empty text |
| Records.QueryLines | topic-review.py:18 | no contract of its own; `StripSpec` and `SplitLinesJoin` state what the stripped, split output holds |
| Records.Candidates | topic-review.py:21-41 | no contract of its own; `CandidatesSpec`, `KeptExactly` and `CandidatesAppend` state which records it keeps and in what order |
| Records.ParseCandidates | topic-review.py:21-41 | the filtering loop returns exactly the candidates of the query lines |
| Records.KeptExactly | topic-review.py:25-41 | a line is kept exactly when it is not blank, its stripped text parses, and it is not the statistics record |
| Records.CandidatesSpec | topic-review.py:21-41 | the candidates are the records of the kept lines, in line order; each comes from a kept line, and every kept line gives one |
| Records.NoStatsCandidate | topic-review.py:33-36 | no candidate is a record whose `type` is `"stats"` |
| Records.CandidatesAppend | topic-review.py:24-41 | each line is judged on its own: the candidates of two runs of lines are those of the first followed by those of the second |
| Review.QueryCommand | topic-review.py:14 | no contract of its own: the query for one topic, `ssh -p <port> <server> <remote> query --format=JSON --dependencies --current-patch-set topic:<topic>`; `LabelPatches` issues it for every topic it reaches |
| Review.Validate | topic-review.py:45-59 | no contract of its own; `PatchOutcomeSpec` states which candidates are skipped, which crash and which are reviewed |
| Review.ReviewCommand | topic-review.py:64-73 | no contract of its own; `ReviewCommandShape` states its shape |
| Review.PatchOutcome | topic-review.py:44-84 | no contract of its own; `PatchOutcomeSpec` states each candidate's outcome |
| Review.PatchOutcomeSpec | topic-review.py:44-84 | a candidate without `currentPatchSet`, `project` or `number`, or without `revision`, is skipped and gets no command; one with no patch-set number or a non-text project crashes; every other candidate gets exactly one review with its own command, labeled exactly when that command exits with 0 |
| Review.ReviewCommandShape | topic-review.py:64-73 | the command has 10 elements, or 11 exactly when the message is non-empty, the last then being `-m '"<message>"'`; the label element is always present, and the remote command is always `gerrit` |
| Review.PatchIdRoundTrip | topic-review.py:57-62 | the identifier splits at commas into the change number's pieces followed by the patch set's; comma-free parts read back as the two numbers, and JSON numbers parse back to their values |
| Labeler.TopicStep | topic-review.py:14-90 | no contract of its own; `QueryFailureAborts` states what a failed query gives, and `TopicOutcomesSpec` what a topic's candidates give |
| Labeler.RunTopics | topic-review.py:13-90 | no contract of its own; `RunStepsSpec`, `QueryFailureAborts` and `LabelPatches` state the run over the topics |
| Labeler.Execute | topic-review.py:103-109 | no contract of its own; `UsageErrorExactly` and `Script` state the refusal, the run and the exit code |
| Labeler.ReviewCandidates | topic-review.py:44-84 | the patch loop yields exactly the topic's outcomes, stopping at the first crash |
| Labeler.LabelPatches | topic-review.py:9-90 | the topic loop yields exactly the run over the resolved topics |
| Labeler.Script | topic-review.py:103-109 | the script yields exactly the specified run, and its exit code is 0 only when the run finished normally |
| Labeler.StoppedIsFinal | topic-review.py:59-84 | after a crash, later candidates add no outcome |
| Labeler.RunStoppedIsFinal | topic-review.py:86-90 | after a failed query or a crash, later topics add nothing |
| Labeler.UpToCrashSpec | topic-review.py:44-84 | the outcomes reached are a prefix of the candidates' outcomes; nothing before the last one is a crash; the prefix is shorter only when it ends in a crash; with no crash it is all of them |
| Labeler.TopicOutcomesSpec | topic-review.py:44-84 | outcome `i` is candidate `i`'s own outcome; nothing before the last outcome is a crash; the list stops short only at a crash, so with no crashing candidate every candidate has an outcome |
| Labeler.FailedReviewContinues | topic-review.py:77-84 | a failed review is followed by the next candidate's own outcome |
| Labeler.AttemptsSpec | topic-review.py:44-84 | the review commands issued are those of the valid candidates up to where the loop stopped, one each, in candidate order, whatever earlier reviews returned |
| Labeler.AttemptsOfOutcomes | topic-review.py:59-84 | taken over all candidates, the commands attempted are exactly the valid candidates' commands, in order |
| Labeler.RunStepsSpec | topic-review.py:13-90 | topics are taken in order, each once; report `i` is topic `i`'s; every topic before the last one reported finished; the run stops early only at a topic that did not finish, and ends with that topic's status |
| Labeler.QueryFailureAborts | topic-review.py:86-90 | when topic `k`'s query fails after the earlier topics finished, the run has `k + 1` reports, the last being the failed query; no later topic is queried, and the exit code is 1 |
| Labeler.UsageErrorExactly | topic-review.py:106-109 | the run is refused exactly when a non-empty label comes without a score; a refused run queries and reviews nothing and exits with 1; a score without a label is accepted |
| Scenarios.SplitExample | topic-review.py:10 | "a,b,a,c" splits into a, b, a, c |
| Scenarios.DedupExample | topic-review.py:11 | deduplicating a, b, a, c gives a, b, c |
| Scenarios.TopicsExample | topic-review.py:10-11 | `-t a,b,a,c` resolves to the topics a, b, c |
| Scenarios.EndToEndExample | topic-review.py:21-73 | a valid record next to the statistics record yields one command, `ssh -p 29418 host gerrit review --project demo --label=Verified=+1 123,2` |
| Scenarios.ExampleCandidates | topic-review.py:24-38 | of a valid record's line and the statistics line, only the valid record becomes a candidate |
| Scenarios.ExampleValid | topic-review.py:45-68 | the example's record passes the checks with identifier `123,2` and gets the command shown |
| Scenarios.RunExample | topic-review.py:9-109 | with `-t T`, a query answering those two lines and a review exiting with 0, the whole run reports topic T with the one labeled command and exits with 0 |
| Scenarios.NoLabelExample | topic-review.py:67 | without `--label` and `--score` the label element reads `--label=None=None` |

## Left out

- Running `ssh`, the subprocesses and their waiting: queries and reviews are the `query` and `review` functions, so the same command always gives the same result within the model.
- A hung remote command, which blocks the real script for ever: every command returns.
- All `print` diagnostics.
- `decode('utf-8')` of the query output: the `query` function returns text.
- The space-joined string run with `shell=True` at line 78, and its word-splitting and quoting by the shell: `review` receives the argument vector before the join.
- `json.loads`: it is the `parse` function. Only JSON objects are modelled. The fields the script reads hold strings or integers, and `currentPatchSet` is an object. Other JSON values are not modelled: `null`, booleans, floats, arrays, and a non-object `currentPatchSet`, where `'revision' in ...` would test a string or a list.
- `argparse` (lines 92-101): the parsed arguments are the `Config` record. `port` is the text `str(args.port)`, "29418" by default.
