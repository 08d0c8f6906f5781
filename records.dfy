/** The query's output and the records it holds (topic-review.py, lines
    18-41): the output is stripped and split into lines, each line is
    stripped, blank lines, lines that are not JSON and the summary record
    whose `type` is `"stats"` are dropped, and every other record becomes a
    candidate patch, in the order of the lines. */
module Records {
  import opened Wrappers
  import Text
  import Decimal

  /** A JSON value of one of the kinds the script reads out of a record. */
  datatype Json = JStr(text: string) | JNum(num: int)

  /** What an f-string puts in place of the value: the string itself, or the
      decimal numeral of the number. */
  function Render(v: Json): (s: string)
    ensures v.JStr? ==> s == v.text
    ensures v.JNum? ==> s != [] && ',' !in s
  {
    match v
    case JStr(t) => t
    case JNum(n) => Decimal.IntToString(n)
  }

  /** The `currentPatchSet` object; a key the server left out is `None`. */
  datatype PatchSet = PatchSet(number: Option<Json>, revision: Option<Json>)

  /** One JSON object of the query output, reduced to the keys the script
      looks at; a key the object does not have is `None`. */
  datatype Record = Record(
    kind: Option<Json>,
    project: Option<Json>,
    number: Option<Json>,
    currentPatchSet: Option<PatchSet>)

  /** `'type' in patch and patch['type'] == 'stats'`. */
  predicate IsStats(r: Record) {
    r.kind == Some(JStr("stats"))
  }

  /** The lines of the query's output: `output.strip().splitlines()`. */
  function QueryLines(output: string): seq<string>
  {
    Text.SplitLines(Text.Strip(output))
  }

  /** A line becomes a candidate when, stripped, it is not empty, it parses
      and it is not the statistics record. */
  predicate Kept(line: string, parse: string -> Option<Record>) {
    var t := Text.Strip(line);
    t != [] && parse(t).Some? && !IsStats(parse(t).value)
  }

  function Parsed(line: string, parse: string -> Option<Record>): Record
    requires Kept(line, parse)
  {
    parse(Text.Strip(line)).value
  }

  /** The candidate patches of a sequence of lines, in line order. */
  function Candidates(lines: seq<string>, parse: string -> Option<Record>): seq<Record>
  {
    if lines == [] then []
    else
      var last := lines[|lines| - 1];
      Candidates(lines[..|lines| - 1], parse) + (if Kept(last, parse) then [Parsed(last, parse)] else [])
  }

  /** The positions of the kept lines, in increasing order. */
  function KeptIndices(lines: seq<string>, parse: string -> Option<Record>): seq<nat>
  {
    if lines == [] then []
    else
      var n := |lines| - 1;
      KeptIndices(lines[..n], parse) + (if Kept(lines[n], parse) then [n] else [])
  }

  /** The filtering loop of topic-review.py, lines 21-41. */
  method ParseCandidates(commits: seq<string>, parse: string -> Option<Record>) returns (patches: seq<Record>)
    ensures patches == Candidates(commits, parse)
  {
    patches := [];
    for i := 0 to |commits|
      invariant patches == Candidates(commits[..i], parse)
    {
      CandidatesStep(commits, i, parse);
      var line := Text.Strip(commits[i]);
      if line == [] {
        continue;
      }
      match parse(line) {
        case None =>
          continue;
        case Some(patch) =>
          if patch.kind.Some? && patch.kind.value == JStr("stats") {
            continue;
          }
          patches := patches + [patch];
      }
    }
    assert commits[..|commits|] == commits;
  }

  lemma CandidatesStep(lines: seq<string>, i: nat, parse: string -> Option<Record>)
    requires i < |lines|
    ensures Candidates(lines[..i + 1], parse)
            == Candidates(lines[..i], parse) + (if Kept(lines[i], parse) then [Parsed(lines[i], parse)] else [])
  {
    assert lines[..i + 1][..i] == lines[..i];
  }

  /** Which lines are kept, in the source's own terms: a line is dropped
      exactly when it is blank (white space only), when its stripped text
      does not parse, or when it parses to the statistics record. */
  lemma KeptExactly(line: string, parse: string -> Option<Record>)
    ensures Kept(line, parse) <==>
              && !Text.AllSpace(line)
              && parse(Text.Strip(line)).Some?
              && !IsStats(parse(Text.Strip(line)).value)
  {
    Text.StripSpec(line);
  }

  /** The candidates are the kept lines' records, in line order and nothing
      else: an order-preserving selection whose positions are exactly the
      kept lines. */
  lemma CandidatesSpec(lines: seq<string>, parse: string -> Option<Record>)
    ensures var c, ix := Candidates(lines, parse), KeptIndices(lines, parse);
            && |ix| == |c|
            && (forall k | 0 <= k < |ix| ::
                  ix[k] < |lines| && Kept(lines[ix[k]], parse) && c[k] == Parsed(lines[ix[k]], parse))
            && (forall k, l | 0 <= k < l < |ix| :: ix[k] < ix[l])
            && (forall i | 0 <= i < |lines| && Kept(lines[i], parse) :: i in ix)
  {
    KeptIndicesSelect(lines, parse);
    KeptIndicesIncreasing(lines, parse);
    KeptIndicesComplete(lines, parse);
  }

  lemma {:induction false} KeptIndicesSelect(lines: seq<string>, parse: string -> Option<Record>)
    ensures var c, ix := Candidates(lines, parse), KeptIndices(lines, parse);
            && |ix| == |c|
            && (forall k | 0 <= k < |ix| ::
                  ix[k] < |lines| && Kept(lines[ix[k]], parse) && c[k] == Parsed(lines[ix[k]], parse))
  {
    if lines != [] {
      var n := |lines| - 1;
      var init := lines[..n];
      KeptIndicesSelect(init, parse);
      var c0, ix0 := Candidates(init, parse), KeptIndices(init, parse);
      var c, ix := Candidates(lines, parse), KeptIndices(lines, parse);
      forall k | 0 <= k < |ix|
        ensures ix[k] < |lines| && Kept(lines[ix[k]], parse) && c[k] == Parsed(lines[ix[k]], parse)
      {
        if k < |ix0| {
          assert ix[k] == ix0[k] && c[k] == c0[k];
          assert lines[ix0[k]] == init[ix0[k]];
        }
      }
    }
  }

  lemma {:induction false} KeptIndicesIncreasing(lines: seq<string>, parse: string -> Option<Record>)
    ensures forall k | 0 <= k < |KeptIndices(lines, parse)| :: KeptIndices(lines, parse)[k] < |lines|
    ensures forall k, l | 0 <= k < l < |KeptIndices(lines, parse)| ::
              KeptIndices(lines, parse)[k] < KeptIndices(lines, parse)[l]
  {
    if lines != [] {
      var n := |lines| - 1;
      var ix0 := KeptIndices(lines[..n], parse);
      KeptIndicesIncreasing(lines[..n], parse);
      var ix := KeptIndices(lines, parse);
      if Kept(lines[n], parse) {
        assert ix == ix0 + [n];
        forall k, l | 0 <= k < l < |ix| ensures ix[k] < ix[l] {
          assert ix[k] == ix0[k] && |lines[..n]| == n;
          assert ix0[k] < n;
          if l < |ix0| { assert ix[l] == ix0[l]; } else { assert ix[l] == n; }
        }
      } else {
        assert ix == ix0;
      }
    }
  }

  lemma KeptIndicesComplete(lines: seq<string>, parse: string -> Option<Record>)
    ensures forall i | 0 <= i < |lines| && Kept(lines[i], parse) :: i in KeptIndices(lines, parse)
  {
    forall i | 0 <= i < |lines| && Kept(lines[i], parse) ensures i in KeptIndices(lines, parse) {
      KeptIndexListed(lines, i, parse);
    }
  }

  lemma {:induction false} KeptIndexListed(lines: seq<string>, i: nat, parse: string -> Option<Record>)
    requires i < |lines| && Kept(lines[i], parse)
    ensures i in KeptIndices(lines, parse)
  {
    var n := |lines| - 1;
    if i < n {
      assert lines[..n][i] == lines[i];
      KeptIndexListed(lines[..n], i, parse);
    }
  }

  /** No candidate is the statistics record. */
  lemma NoStatsCandidate(lines: seq<string>, parse: string -> Option<Record>)
    ensures forall k | 0 <= k < |Candidates(lines, parse)| :: !IsStats(Candidates(lines, parse)[k])
  {
    CandidatesSpec(lines, parse);
  }

  /** Filtering distributes over the lines: the candidates of two runs of
      lines are those of the first followed by those of the second. */
  lemma {:induction false} CandidatesAppend(a: seq<string>, b: seq<string>, parse: string -> Option<Record>)
    ensures Candidates(a + b, parse) == Candidates(a, parse) + Candidates(b, parse)
    decreases |b|
  {
    if b == [] {
      assert a + b == a;
    } else {
      var n := |b| - 1;
      assert (a + b)[..|a + b| - 1] == a + b[..n];
      CandidatesAppend(a, b[..n], parse);
    }
  }
}
