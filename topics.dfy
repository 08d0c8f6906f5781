/** Topic resolution (topic-review.py, lines 10-11): the `--topic` argument
    is split on every comma, without trimming, and duplicates are dropped
    keeping the first occurrence of each topic, as `dict.fromkeys` does. */
module Topics {
  import Text

  predicate NoDuplicates(xs: seq<string>) {
    forall i, j | 0 <= i < j < |xs| :: xs[i] != xs[j]
  }

  /** The position of the first occurrence of `x` in `xs`. */
  function FirstIndex(xs: seq<string>, x: string): (k: nat)
    requires x in xs
    ensures k < |xs| && xs[k] == x
    ensures forall j | 0 <= j < k :: xs[j] != x
  {
    if xs[0] == x then 0 else 1 + FirstIndex(xs[1..], x)
  }

  /** `r` lists elements of `xs` in the order of their first occurrence in `xs`. */
  predicate InFirstOccurrenceOrder(xs: seq<string>, r: seq<string>) {
    && (forall i | 0 <= i < |r| :: r[i] in xs)
    && (forall i, j | 0 <= i < j < |r| :: FirstIndex(xs, r[i]) < FirstIndex(xs, r[j]))
  }

  /** `list(dict.fromkeys(xs))`: keep an element only where it occurs first. */
  function Dedup(xs: seq<string>): (r: seq<string>)
    ensures NoDuplicates(r)
    ensures forall x :: x in r <==> x in xs
  {
    if xs == [] then []
    else
      var r := Dedup(xs[..|xs| - 1]);
      var x := xs[|xs| - 1];
      if x in r then r else r + [x]
  }

  lemma {:induction false} FirstIndexPrefix(xs: seq<string>, ys: seq<string>, x: string)
    requires x in xs
    ensures FirstIndex(xs + ys, x) == FirstIndex(xs, x)
  {
    if xs[0] != x {
      assert (xs + ys)[1..] == xs[1..] + ys;
      FirstIndexPrefix(xs[1..], ys, x);
    }
  }

  /** The deduplicated list keeps first occurrences in their original order. */
  lemma {:induction false} DedupOrder(xs: seq<string>)
    ensures InFirstOccurrenceOrder(xs, Dedup(xs))
  {
    if xs != [] {
      var init, x := xs[..|xs| - 1], xs[|xs| - 1];
      assert xs == init + [x];
      var r := Dedup(init);
      DedupOrder(init);
      forall y | y in init ensures FirstIndex(xs, y) == FirstIndex(init, y) {
        FirstIndexPrefix(init, [x], y);
      }
      if x !in r {
        var d := r + [x];
        assert FirstIndex(xs, x) == |xs| - 1;
        forall i, j | 0 <= i < j < |d| ensures FirstIndex(xs, d[i]) < FirstIndex(xs, d[j]) {
          assert d[i] == r[i] && d[i] in init;
          if j < |r| { assert d[j] == r[j]; }
        }
      }
    }
  }

  /** Deduplicating a list without duplicates leaves it unchanged. */
  lemma {:induction false} DedupOfDistinct(xs: seq<string>)
    requires NoDuplicates(xs)
    ensures Dedup(xs) == xs
  {
    if xs != [] {
      var init := xs[..|xs| - 1];
      DedupOfDistinct(init);
      assert xs[|xs| - 1] !in init;
      assert init + [xs[|xs| - 1]] == xs;
    }
  }

  /** Deduplicating twice is deduplicating once. */
  lemma DedupIdempotent(xs: seq<string>)
    ensures Dedup(Dedup(xs)) == Dedup(xs)
  {
    DedupOfDistinct(Dedup(xs));
  }

  /** The three properties of Dedup determine it: any list with exactly the
      elements of `xs`, in first-occurrence order, is `Dedup(xs)` (no
      duplicates follows from the strict order). */
  lemma DedupUnique(xs: seq<string>, r: seq<string>)
    requires forall x :: x in r <==> x in xs
    requires InFirstOccurrenceOrder(xs, r)
    ensures r == Dedup(xs)
  {
    DedupOrder(xs);
    SameOrderedEqual(xs, r, Dedup(xs));
  }

  lemma {:induction false} SameOrderedEqual(xs: seq<string>, a: seq<string>, b: seq<string>)
    requires forall x :: x in a <==> x in b
    requires InFirstOccurrenceOrder(xs, a) && InFirstOccurrenceOrder(xs, b)
    ensures a == b
    decreases |a|
  {
    assert b != [] ==> b[0] in a;
    if a != [] {
      assert a[0] in b;
      SameHead(xs, a, b);
      SameTailElements(xs, a, b);
      OrderTail(xs, a);
      OrderTail(xs, b);
      SameOrderedEqual(xs, a[1..], b[1..]);
      assert a == [a[0]] + a[1..] && b == [b[0]] + b[1..];
    }
  }

  lemma SameHead(xs: seq<string>, a: seq<string>, b: seq<string>)
    requires a != [] && b != []
    requires forall x :: x in a <==> x in b
    requires InFirstOccurrenceOrder(xs, a) && InFirstOccurrenceOrder(xs, b)
    ensures a[0] == b[0]
  {
    assert a[0] in b && b[0] in a;
    LeastKeyFirst(xs, a, b[0]);
    LeastKeyFirst(xs, b, a[0]);
  }

  /** The first element of an ordered list has the least first-occurrence index. */
  lemma LeastKeyFirst(xs: seq<string>, a: seq<string>, x: string)
    requires x in a && InFirstOccurrenceOrder(xs, a)
    ensures x in xs && FirstIndex(xs, a[0]) <= FirstIndex(xs, x)
  {
    var k :| 0 <= k < |a| && a[k] == x;
    if k > 0 {
      assert FirstIndex(xs, a[0]) < FirstIndex(xs, a[k]);
    }
  }

  lemma SameTailElements(xs: seq<string>, a: seq<string>, b: seq<string>)
    requires a != [] && b != [] && a[0] == b[0]
    requires forall x :: x in a <==> x in b
    requires InFirstOccurrenceOrder(xs, a) && InFirstOccurrenceOrder(xs, b)
    ensures forall x :: x in a[1..] <==> x in b[1..]
  {
    forall x ensures x in a[1..] ==> x in b[1..] {
      if x in a[1..] {
        var k :| 1 <= k < |a| && a[k] == x;
        assert FirstIndex(xs, a[0]) < FirstIndex(xs, a[k]);
        assert x in b && x != b[0];
      }
    }
    forall x ensures x in b[1..] ==> x in a[1..] {
      if x in b[1..] {
        var k :| 1 <= k < |b| && b[k] == x;
        assert FirstIndex(xs, b[0]) < FirstIndex(xs, b[k]);
        assert x in a && x != a[0];
      }
    }
  }

  lemma OrderTail(xs: seq<string>, a: seq<string>)
    requires a != [] && InFirstOccurrenceOrder(xs, a)
    ensures InFirstOccurrenceOrder(xs, a[1..])
  {
    var t := a[1..];
    forall i, j | 0 <= i < j < |t| ensures FirstIndex(xs, t[i]) < FirstIndex(xs, t[j]) {
      assert t[i] == a[i + 1] && t[j] == a[j + 1];
    }
  }

  /** The topics processed, in order: `list(dict.fromkeys(re.split(',', topic)))`. */
  function ResolveTopics(topic: string): seq<string>
  {
    Dedup(Text.Split(topic, ','))
  }

  /** What the resolved topic list is: never empty, each topic free of
      commas and taken verbatim from the argument, every piece of the
      argument present exactly once, in first-occurrence order. */
  lemma ResolveTopicsSpec(topic: string)
    ensures var ts := ResolveTopics(topic);
            && |ts| >= 1
            && NoDuplicates(ts)
            && (forall t :: t in ts <==> t in Text.Split(topic, ','))
            && (forall i | 0 <= i < |ts| :: ',' !in ts[i])
            && InFirstOccurrenceOrder(Text.Split(topic, ','), ts)
            && ResolveTopics(Text.Join(ts, ',')) == ts
  {
    var pieces := Text.Split(topic, ',');
    var ts := ResolveTopics(topic);
    assert pieces[0] in ts;
    DedupOrder(pieces);
    forall i | 0 <= i < |ts| ensures ',' !in ts[i] {
      assert ts[i] in pieces;
    }
    Text.SplitJoin(ts, ',');
    DedupOfDistinct(ts);
  }
}
