/** A download made by one of the scripts: the URL fetched, and the value
    of the run-wide counter that names the file it is saved under. Both
    scripts count their downloads 0, 1, 2, ... and never reset the counter. */
module Fetches {

  datatype Fetch = Fetch(url: string, counter: nat)

  /** A line after rewriting, the counter after it, and the downloads made
      for it, in order. */
  datatype LineResult = LineResult(text: string, next: nat, fetched: seq<Fetch>)

  /** Several lines after rewriting, the counter after the last of them,
      and the downloads made for them, in order. */
  datatype StreamResult = StreamResult(lines: seq<string>, next: nat, fetched: seq<Fetch>)

  /** The downloads `fetched` made so far, followed by what rewriting the
      rest of the line gives: the invariant of both scripts' rewrite loops. */
  function Glue(fetched: seq<Fetch>, r: LineResult): LineResult {
    LineResult(r.text, r.next, fetched + r.fetched)
  }

  /** Moving one download from the rest of the line to those made so far. */
  lemma GlueStep(fetched: seq<Fetch>, x: Fetch, r: LineResult, rest: LineResult)
    requires r == LineResult(rest.text, rest.next, [x] + rest.fetched)
    ensures Glue(fetched, r) == Glue(fetched + [x], rest)
  {
    assert fetched + ([x] + rest.fetched) == (fetched + [x]) + rest.fetched;
  }

  /** Verification aid: two downloads in a row, as one literal. Kept apart
      so that callers do not reason about sequence literals beside the
      recursive rewrite functions. */
  lemma FetchPair(a: Fetch, b: Fetch)
    ensures [a] + [b] == [a, b]
  {
  }

  /** Verification aid: one download and nothing after it (see `FetchPair`). */
  lemma OneFetch(a: Fetch)
    ensures [a] + [] == [a]
  {
  }

  /** Nothing left to rewrite: the downloads are those made so far. */
  lemma GlueEmpty(fetched: seq<Fetch>, line: string, n: nat)
    ensures Glue(fetched, LineResult(line, n, [])) == LineResult(line, n, fetched)
  {
    assert fetched + [] == fetched;
  }

  /** The downloads use consecutive counter values starting at `n`. */
  predicate Numbered(fetched: seq<Fetch>, n: nat)
    decreases |fetched|
  {
    fetched == [] || (fetched[0].counter == n && Numbered(fetched[1..], n + 1))
  }

  /** The `k`-th download of a numbered run uses counter value `n + k`. */
  lemma {:induction false} NumberedAt(fetched: seq<Fetch>, n: nat, k: nat)
    requires Numbered(fetched, n) && k < |fetched|
    ensures fetched[k].counter == n + k
    decreases k
  {
    if k > 0 {
      NumberedAt(fetched[1..], n + 1, k - 1);
    }
  }

  /** Two numbered runs, the second going on where the first stopped, make
      one numbered run. */
  lemma {:induction false} NumberedAppend(a: seq<Fetch>, b: seq<Fetch>, n: nat, m: nat)
    requires Numbered(a, n) && Numbered(b, m) && m == n + |a|
    ensures Numbered(a + b, n)
    decreases |a|
  {
    if a == [] {
      assert a + b == b;
    } else {
      NumberedAppend(a[1..], b, n + 1, m);
      assert (a + b)[1..] == a[1..] + b;
    }
  }

  /** In a numbered run no counter value is used twice. */
  lemma NumberedDistinct(fetched: seq<Fetch>, n: nat, i: nat, j: nat)
    requires Numbered(fetched, n) && i < j < |fetched|
    ensures fetched[i].counter != fetched[j].counter
  {
    NumberedAt(fetched, n, i);
    NumberedAt(fetched, n, j);
  }
}
