/** The one shape of regular expression the three scripts search for:
    a literal head (where an unescaped `.` stands for any character but a
    newline), a greedy run of one or more characters of one class (`\S+` or
    `[^\$]+`), and a literal tail. `Search` is `re.search` for that shape:
    the leftmost start, and at that start the longest run. */
module Scanner {
  import opened Text

  /** One character of a pattern's head: a literal, or `.`. */
  datatype Atom = Lit(c: char) | AnyButNewline

  /** The class of the repeated run: `\S` or `[^\$]`. */
  datatype RunClass = NonSpace | NonDollar

  datatype Pattern = Pattern(head: seq<Atom>, run: RunClass, tail: string)

  /** Where a match lies: `s[start..end]` is the whole match,
      `s[bodyStart..bodyEnd]` the run between head and tail. */
  datatype Match = Match(start: nat, bodyStart: nat, bodyEnd: nat, end: nat)

  /** The atoms of a regex written without escapes: `.` is a wildcard,
      every other character stands for itself. */
  function Atoms(regex: string): (r: seq<Atom>)
    ensures |r| == |regex|
    ensures forall k :: 0 <= k < |r| ==> r[k] == if regex[k] == '.' then AnyButNewline else Lit(regex[k])
  {
    seq(|regex|, k requires 0 <= k < |regex| => if regex[k] == '.' then AnyButNewline else Lit(regex[k]))
  }

  predicate AtomMatches(a: Atom, c: char) {
    match a
    case Lit(x) => c == x
    case AnyButNewline => c != '\n'
  }

  /** A regex without escapes matches its own text. */
  lemma HeadAtLiteral(regex: string, run: RunClass, tail: string, s: string, p: nat)
    requires p + |regex| <= |s| && s[p..p + |regex|] == regex
    ensures HeadAt(Pattern(Atoms(regex), run, tail), s, p)
  {
    var head := Atoms(regex);
    forall k | 0 <= k < |head| ensures AtomMatches(head[k], s[p + k]) {
      assert s[p + k] == s[p..p + |regex|][k];
    }
  }

  predicate InClass(k: RunClass, c: char) {
    match k
    case NonSpace => !IsSpace(c)
    case NonDollar => c != '$'
  }

  predicate HeadAt(pat: Pattern, s: string, p: nat) {
    p + |pat.head| <= |s| && forall k :: 0 <= k < |pat.head| ==> AtomMatches(pat.head[k], s[p + k])
  }

  predicate TailAt(pat: Pattern, s: string, q: nat) {
    q + |pat.tail| <= |s| && s[q..q + |pat.tail|] == pat.tail
  }

  predicate RunBetween(k: RunClass, s: string, b: nat, q: nat) {
    b <= q <= |s| && forall j :: b <= j < q ==> InClass(k, s[j])
  }

  /** A match of `pat` starts at `p` and its run ends at `q`. */
  predicate EndsAt(pat: Pattern, s: string, p: nat, q: nat) {
    HeadAt(pat, s, p) && p + |pat.head| < q && RunBetween(pat.run, s, p + |pat.head|, q) && TailAt(pat, s, q)
  }

  /** `m` describes a match of `pat` in `s`, not necessarily the one reported. */
  predicate Spans(pat: Pattern, s: string, m: Match) {
    m.bodyStart == m.start + |pat.head| && m.end == m.bodyEnd + |pat.tail|
    && EndsAt(pat, s, m.start, m.bodyEnd)
  }

  ghost predicate MatchesAt(pat: Pattern, s: string, p: nat) {
    exists q: nat :: EndsAt(pat, s, p, q)
  }

  ghost predicate HasMatch(pat: Pattern, s: string) {
    exists p: nat :: MatchesAt(pat, s, p)
  }

  /** `m` is what `re.search(pat, s)` reports: a match at the leftmost start
      where there is one, with the longest run possible there. */
  ghost predicate IsLeftmostGreedy(pat: Pattern, s: string, m: Match) {
    Spans(pat, s, m)
    && (forall q: nat :: EndsAt(pat, s, m.start, q) ==> q <= m.bodyEnd)
    && (forall p: nat :: p < m.start ==> !MatchesAt(pat, s, p))
  }

  /** The end of the run of class `k` that begins at `b`. */
  function RunEnd(k: RunClass, s: string, b: nat): (r: nat)
    requires b <= |s|
    ensures b <= r <= |s|
    decreases |s| - b
  {
    if b < |s| && InClass(k, s[b]) then RunEnd(k, s, b + 1) else b
  }

  /** The run found is all of class `k` and cannot be extended. */
  lemma {:induction false} RunEndSpec(k: RunClass, s: string, b: nat)
    requires b <= |s|
    ensures RunBetween(k, s, b, RunEnd(k, s, b))
    ensures RunEnd(k, s, b) == |s| || !InClass(k, s[RunEnd(k, s, b)])
    decreases |s| - b
  {
    if b < |s| && InClass(k, s[b]) {
      RunEndSpec(k, s, b + 1);
    }
  }

  /** The largest `q` in `(b, hi]` at which the tail occurs, if any. */
  function LastTail(pat: Pattern, s: string, b: nat, hi: nat): (r: Option<nat>)
    ensures r.Some? ==> b < r.value <= hi && TailAt(pat, s, r.value)
    decreases hi
  {
    if hi <= b then None
    else if TailAt(pat, s, hi) then Some(hi)
    else LastTail(pat, s, b, hi - 1)
  }

  /** No place in `(b, hi]` where the tail occurs lies beyond the one found. */
  lemma {:induction false} LastTailSpec(pat: Pattern, s: string, b: nat, hi: nat)
    ensures forall q: nat :: b < q <= hi && TailAt(pat, s, q) ==> LastTail(pat, s, b, hi).Some? && q <= LastTail(pat, s, b, hi).value
    decreases hi
  {
    if hi > b && !TailAt(pat, s, hi) {
      LastTailSpec(pat, s, b, hi - 1);
    }
  }

  /** The end of the longest run of a match starting at `p`, if one starts there. */
  function MatchAt(pat: Pattern, s: string, p: nat): Option<nat> {
    if !HeadAt(pat, s, p) then None
    else
      var b := p + |pat.head|;
      LastTail(pat, s, b, RunEnd(pat.run, s, b))
  }

  lemma MatchAtSpec(pat: Pattern, s: string, p: nat)
    ensures var r := MatchAt(pat, s, p);
      (r.Some? ==> EndsAt(pat, s, p, r.value) && forall q: nat :: EndsAt(pat, s, p, q) ==> q <= r.value)
      && (r.None? ==> !MatchesAt(pat, s, p))
  {
    if HeadAt(pat, s, p) {
      var b := p + |pat.head|;
      RunEndSpec(pat.run, s, b);
      LastTailSpec(pat, s, b, RunEnd(pat.run, s, b));
    }
  }

  /** `re.search` from index `p` on. */
  function SearchFrom(pat: Pattern, s: string, p: nat): Option<Match>
    decreases |s| + 1 - p
  {
    if p > |s| then None
    else
      match MatchAt(pat, s, p)
      case Some(q) => Some(Match(p, p + |pat.head|, q, q + |pat.tail|))
      case None => SearchFrom(pat, s, p + 1)
  }

  ghost predicate IsLeftmostGreedyFrom(pat: Pattern, s: string, from: nat, m: Match) {
    Spans(pat, s, m)
    && (forall q: nat :: EndsAt(pat, s, m.start, q) ==> q <= m.bodyEnd)
    && (forall p: nat :: from <= p < m.start ==> !MatchesAt(pat, s, p))
  }

  /** The search from `p` reports the first match at or after `p`, with its
      longest run, and reports none only when there is none. */
  lemma {:induction false} SearchFromSpec(pat: Pattern, s: string, p: nat)
    ensures var r := SearchFrom(pat, s, p);
      (r.Some? ==> p <= r.value.start && IsLeftmostGreedyFrom(pat, s, p, r.value))
      && (r.None? ==> forall p': nat :: p <= p' ==> !MatchesAt(pat, s, p'))
    decreases |s| + 1 - p
  {
    if p > |s| {
      forall p': nat | p <= p' ensures !MatchesAt(pat, s, p') {
        assert !HeadAt(pat, s, p');
      }
    } else {
      MatchAtSpec(pat, s, p);
      if MatchAt(pat, s, p).None? {
        SearchFromSpec(pat, s, p + 1);
        match SearchFrom(pat, s, p + 1)
        case None => NoneFrom(pat, s, p);
        case Some(m) => LaterFrom(pat, s, p, m);
      }
    }
  }

  lemma NoneFrom(pat: Pattern, s: string, p: nat)
    requires !MatchesAt(pat, s, p)
    requires forall p': nat :: p + 1 <= p' ==> !MatchesAt(pat, s, p')
    ensures forall p': nat :: p <= p' ==> !MatchesAt(pat, s, p')
  {
    forall p': nat | p <= p' ensures !MatchesAt(pat, s, p') {
      if p' != p {
        assert p + 1 <= p';
      }
    }
  }

  lemma LaterFrom(pat: Pattern, s: string, p: nat, m: Match)
    requires !MatchesAt(pat, s, p)
    requires p + 1 <= m.start && IsLeftmostGreedyFrom(pat, s, p + 1, m)
    ensures IsLeftmostGreedyFrom(pat, s, p, m)
  {
    forall p': nat | p <= p' < m.start ensures !MatchesAt(pat, s, p') {
      if p' != p {
        assert p + 1 <= p';
      }
    }
  }

  /** `re.search(pat, s)`: the leftmost match with the longest run, or none
      when `pat` matches nowhere in `s`. */
  function Search(pat: Pattern, s: string): (r: Option<Match>)
    ensures r.Some? ==> IsLeftmostGreedy(pat, s, r.value)
    ensures r.None? <==> !HasMatch(pat, s)
  {
    SearchFromSpec(pat, s, 0);
    var r := SearchFrom(pat, s, 0);
    assert r.Some? ==> MatchesAt(pat, s, r.value.start);
    r
  }

  /** A leftmost greedy match is unique: any two descriptions of it agree. */
  lemma LeftmostGreedyUnique(pat: Pattern, s: string, m1: Match, m2: Match)
    requires IsLeftmostGreedy(pat, s, m1) && IsLeftmostGreedy(pat, s, m2)
    ensures m1 == m2
  {
    if m1.start < m2.start {
      assert MatchesAt(pat, s, m1.start);
    } else if m2.start < m1.start {
      assert MatchesAt(pat, s, m2.start);
    }
  }

  /** A match whose run cannot contain the first character of its tail has
      only one possible end: the first place the tail's first character occurs. */
  lemma EndUnique(pat: Pattern, s: string, p: nat, q1: nat, q2: nat)
    requires |pat.tail| > 0 && !InClass(pat.run, pat.tail[0])
    requires EndsAt(pat, s, p, q1) && EndsAt(pat, s, p, q2)
    ensures q1 == q2
  {
  }

  /** For such a pattern, the leftmost match read off declaratively is the one
      `Search` reports. */
  lemma SearchFinds(pat: Pattern, s: string, p: nat, q: nat)
    requires |pat.tail| > 0 && !InClass(pat.run, pat.tail[0])
    requires EndsAt(pat, s, p, q)
    requires forall p': nat :: p' < p ==> !MatchesAt(pat, s, p')
    ensures Search(pat, s) == Some(Match(p, p + |pat.head|, q, q + |pat.tail|))
  {
    assert MatchesAt(pat, s, p);
    var m := Search(pat, s).value;
    assert m.start == p by {
      if m.start < p {
        assert MatchesAt(pat, s, m.start);
      }
    }
    EndUnique(pat, s, p, q, m.bodyEnd);
  }

  /** The same, for a match given by its description. */
  lemma SearchFindsSpan(pat: Pattern, s: string, m: Match)
    requires |pat.tail| > 0 && !InClass(pat.run, pat.tail[0])
    requires Spans(pat, s, m)
    requires forall p': nat :: p' < m.start ==> !MatchesAt(pat, s, p')
    ensures Search(pat, s) == Some(m)
  {
    SearchFinds(pat, s, m.start, m.bodyEnd);
  }

  // ---------------------------------------------------------------------
  // A line holding one directive `head body tail`, for a `\S+` pattern

  /** The line `pre head body tail post`. */
  function AloneLine(head: string, tail: string, pre: string, body: string, post: string): string {
    pre + head + body + tail + post
  }

  /** Where the directive of `AloneLine` lies. */
  function AloneAt(head: string, tail: string, pre: string, body: string): Match {
    var q := |pre| + |head| + |body|;
    Match(|pre|, |pre| + |head|, q, q + |tail|)
  }

  /** The run may not stop inside the tail nor run on past it. */
  predicate TailStops(tail: string) {
    tail != [] && !IsSpace(tail[0]) && forall k :: 0 < k < |tail| ==> tail[k] != tail[0]
  }

  predicate NoSpaceIn(s: string) {
    forall k :: 0 <= k < |s| ==> !IsSpace(s[k])
  }

  /** Where the pieces of `AloneLine` lie. */
  lemma AlonePieces(head: string, tail: string, pre: string, body: string, post: string)
    ensures var line := AloneLine(head, tail, pre, body, post);
            var b := |pre| + |head|;
            var q := b + |body|;
            |line| == q + |tail| + |post| && line[|pre|..b] == head && line[b..q] == body
            && line[q..q + |tail|] == tail && line[q + |tail|..] == post
  {
    var line := AloneLine(head, tail, pre, body, post);
    assert line == (pre + head) + body + tail + post;
  }

  lemma RunOfSlice(s: string, b: nat, q: nat)
    requires b <= q <= |s| && NoSpaceIn(s[b..q])
    ensures RunBetween(NonSpace, s, b, q)
  {
    forall j | b <= j < q ensures !IsSpace(s[j]) {
      assert s[j] == s[b..q][j - b];
    }
  }

  lemma AloneSpans(head: string, tail: string, pre: string, body: string, post: string)
    requires body != [] && NoSpaceIn(body)
    ensures Spans(Pattern(Atoms(head), NonSpace, tail), AloneLine(head, tail, pre, body, post), AloneAt(head, tail, pre, body))
  {
    var line := AloneLine(head, tail, pre, body, post);
    var b := |pre| + |head|;
    AlonePieces(head, tail, pre, body, post);
    HeadAtLiteral(head, NonSpace, tail, line, |pre|);
    RunOfSlice(line, b, b + |body|);
  }

  /** Whitespace or the end of the line after the tail ends the run there. */
  lemma AloneLongest(head: string, tail: string, pre: string, body: string, post: string, q': nat)
    requires TailStops(tail) && (post == [] || IsSpace(post[0]))
    requires EndsAt(Pattern(Atoms(head), NonSpace, tail), AloneLine(head, tail, pre, body, post), |pre|, q')
    ensures q' <= |pre| + |head| + |body|
  {
    var line := AloneLine(head, tail, pre, body, post);
    var q := |pre| + |head| + |body|;
    var e := q + |tail|;
    AlonePieces(head, tail, pre, body, post);
    assert line[q'..q' + |tail|][0] == line[q'] == tail[0];
    if e < |line| {
      assert line[e] == line[e..][0] == post[0];
    }
    forall k | q < k < e ensures line[k] != tail[0] {
      assert line[k] == line[q..e][k - q];
    }
  }

  /** With no match starting before it, `Search` reports the directive of
      `AloneLine`, its run being exactly `body`. */
  lemma FoundAlone(head: string, tail: string, pre: string, body: string, post: string)
    requires TailStops(tail) && (post == [] || IsSpace(post[0]))
    requires body != [] && NoSpaceIn(body)
    requires forall p: nat :: p < |pre| ==> !MatchesAt(Pattern(Atoms(head), NonSpace, tail), AloneLine(head, tail, pre, body, post), p)
    ensures Search(Pattern(Atoms(head), NonSpace, tail), AloneLine(head, tail, pre, body, post)) == Some(AloneAt(head, tail, pre, body))
  {
    var pat := Pattern(Atoms(head), NonSpace, tail);
    var line := AloneLine(head, tail, pre, body, post);
    var m := AloneAt(head, tail, pre, body);
    AloneSpans(head, tail, pre, body, post);
    forall q': nat | EndsAt(pat, line, |pre|, q') ensures q' <= m.bodyEnd {
      AloneLongest(head, tail, pre, body, post, q');
    }
    assert IsLeftmostGreedy(pat, line, m);
    assert MatchesAt(pat, line, |pre|);
    LeftmostGreedyUnique(pat, line, Search(pat, line).value, m);
  }

  /** When the last character of `head` occurs nowhere else in `head` nor
      in `pre`, no match of the pattern starts inside `pre`. */
  lemma NoEarlyHead(head: string, run: RunClass, tail: string, pre: string, rest: string, p: nat)
    requires head != [] && head[|head| - 1] != '.'
    requires forall k :: 0 <= k < |head| - 1 ==> head[k] != head[|head| - 1]
    requires head[|head| - 1] !in pre && p < |pre|
    ensures !MatchesAt(Pattern(Atoms(head), run, tail), pre + head + rest, p)
  {
    var s := pre + head + rest;
    var c := head[|head| - 1];
    var j := p + |head| - 1;
    if j < |s| {
      if j < |pre| {
        assert s[j] == pre[j];
      } else {
        assert s[j] == head[j - |pre|];
      }
      assert !AtomMatches(Atoms(head)[|head| - 1], s[j]);
    }
  }

  /** A pattern whose head ends in a character the string lacks matches nowhere. */
  lemma NoHeadNoMatch(head: string, run: RunClass, tail: string, s: string)
    requires head != [] && head[|head| - 1] != '.' && head[|head| - 1] !in s
    ensures !HasMatch(Pattern(Atoms(head), run, tail), s)
  {
    forall p: nat ensures !MatchesAt(Pattern(Atoms(head), run, tail), s, p) {
      var j := p + |head| - 1;
      if j < |s| {
        assert s[j] != head[|head| - 1];
        assert !AtomMatches(Atoms(head)[|head| - 1], s[j]);
      }
    }
  }
}
