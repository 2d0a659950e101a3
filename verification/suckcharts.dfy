/** suckcharts.py: a filter from standard input to standard output that
    turns every inline TeX span into a Markdown image. Each span `$x$` (or
    `$$x$$`) becomes `![x](tpimg/eqn_NN.png)`, after the chart service has
    rendered `x` into that file. `NN` is a counter that runs across all
    lines. The download itself is not modelled: each is recorded as a
    `Fetch` of a URL into the file its counter names. */
module SuckCharts {
  import opened Text
  import opened Scanner
  import opened Fetches

  const BASE_URL := "http://chart.apis.google.com/chart?cht=tx&chl="

  /** The two spans `process_line` is called for: `$x$`, with the pattern
      `(\$[^\$]+\$)` and slice 1, and `$$x$$`, with `(\$\$[^\$]+\$\$)` and slice 2. */
  datatype Delim = Single | Double

  function MathPattern(d: Delim): Pattern {
    match d
    case Single => Pattern([Lit('$')], NonDollar, "$")
    case Double => Pattern([Lit('$'), Lit('$')], NonDollar, "$$")
  }

  function Slice(d: Delim): nat {
    match d
    case Single => 1
    case Double => 2
  }

  /** One `urllib.urlretrieve(url, filename=...)` is recorded as a `Fetch`:
      the file `File(f)` receives what the chart service returns for `f.url`. */
  function File(f: Fetch): string {
    EqnFile(f.counter)
  }

  /** `"tpimg/eqn_%02d.png" % n`. */
  function EqnFile(n: nat): string {
    "tpimg/eqn_" + Format02(n) + ".png"
  }

  function ImgLink(inner: string, file: string): string {
    "![" + inner + "](" + file + ")"
  }

  /** `mobj.groups()[0][slice:-slice]`: the whole match with `slice`
      characters cut off each end. */
  function InnerTex(line: string, m: Match, slice: nat): string
    requires m.start <= m.end <= |line| && 2 * slice <= m.end - m.start
  {
    line[m.start..m.end][slice..(m.end - m.start) - slice]
  }

  /** Different counters give different file names. */
  lemma EqnFileInjective(a: nat, b: nat)
    ensures EqnFile(a) == EqnFile(b) <==> a == b
  {
    if EqnFile(a) == EqnFile(b) {
      var fa, fb := Format02(a), Format02(b);
      assert |fa| == |fb|;
      assert fa == EqnFile(a)[10..10 + |fa|];
      assert fb == EqnFile(b)[10..10 + |fb|];
    }
  }

  lemma NoDollarInFile(n: nat)
    ensures Count('$', EqnFile(n)) == 0
  {
    var f := Format02(n);
    assert '$' !in f;
    NoCount('$', EqnFile(n));
  }

  /** The head and the tail of a match are `slice` dollar signs each, and
      its run has none. */
  lemma MatchDollars(line: string, d: Delim, m: Match)
    requires Spans(MathPattern(d), line, m)
    ensures Count('$', line[m.start..m.bodyStart]) == Slice(d)
    ensures Count('$', line[m.bodyEnd..m.end]) == Slice(d)
    ensures line[m.bodyStart..m.bodyEnd] != [] && '$' !in line[m.bodyStart..m.bodyEnd]
  {
    var pat := MathPattern(d);
    var inner := line[m.bodyStart..m.bodyEnd];
    forall k | 0 <= k < |inner| ensures inner[k] != '$' {
      assert inner[k] == line[m.bodyStart + k];
    }
    var head := line[m.start..m.bodyStart];
    assert AtomMatches(pat.head[0], line[m.start]);
    assert "$"[..0] == [] && "$$"[..1] == "$";
    if d == Single {
      assert |head| == 1 && head[0] == line[m.start];
      assert head == "$";
      assert line[m.bodyEnd..m.end] == "$";
    } else {
      assert AtomMatches(pat.head[1], line[m.start + 1]);
      assert head == "$$";
      assert line[m.bodyEnd..m.end] == "$$";
    }
  }

  lemma NoDollarInLink(inner: string, n: nat)
    requires '$' !in inner
    ensures Count('$', ImgLink(inner, EqnFile(n))) == 0
  {
    NoDollarInFile(n);
    NoCount('$', EqnFile(n));
    NoCount('$', ImgLink(inner, EqnFile(n)));
  }

  /** `InnerTex` cuts the head and the tail off a match: what is left is its run. */
  lemma InnerTexIsRun(line: string, d: Delim, m: Match)
    requires Spans(MathPattern(d), line, m)
    ensures 2 * Slice(d) <= m.end - m.start && m.end <= |line|
    ensures InnerTex(line, m, Slice(d)) == line[m.bodyStart..m.bodyEnd]
  {
    var w := Slice(d);
    assert |MathPattern(d).head| == w && |MathPattern(d).tail| == w;
    assert line[m.start..m.end][w..(m.end - m.start) - w] == line[m.bodyStart..m.bodyEnd];
  }

  /** The line after one replacement: the match `m` replaced by the image
      link for its inner text, named by counter `n`. */
  function Spliced(line: string, d: Delim, m: Match, n: nat): string
    requires Spans(MathPattern(d), line, m)
  {
    InnerTexIsRun(line, d, m);
    line[..m.start] + ImgLink(InnerTex(line, m, Slice(d)), EqnFile(n)) + line[m.end..]
  }

  /** One step of the loop removes exactly `2 * slice` dollar signs and
      adds none, since the image link holds none. */
  lemma SpliceStep(line: string, d: Delim, m: Match, n: nat)
    requires Spans(MathPattern(d), line, m)
    ensures Count('$', Spliced(line, d, m, n)) + 2 * Slice(d) == Count('$', line)
  {
    InnerTexIsRun(line, d, m);
    MatchDollars(line, d, m);
    var inner := line[m.bodyStart..m.bodyEnd];
    assert Spliced(line, d, m, n) == line[..m.start] + ImgLink(inner, EqnFile(n)) + line[m.end..];
    CountSplice('$', line, m.start, m.end, ImgLink(inner, EqnFile(n)));
    MatchCount(line, d, m);
    NoDollarInLink(inner, n);
  }

  /** A whole match holds exactly `2 * slice` dollar signs. */
  lemma MatchCount(line: string, d: Delim, m: Match)
    requires Spans(MathPattern(d), line, m)
    ensures m.start <= m.end <= |line| && Count('$', line[m.start..m.end]) == 2 * Slice(d)
  {
    var whole := line[m.start..m.end];
    var i, j := m.bodyStart - m.start, m.bodyEnd - m.start;
    SliceOfSlice(line, m.start, m.end, 0, i);
    SliceOfSlice(line, m.start, m.end, i, j);
    SliceOfSlice(line, m.start, m.end, j, |whole|);
    assert whole[..i] == whole[0..i] && whole[j..] == whole[j..|whole|];
    MatchDollars(line, d, m);
    NoCount('$', line[m.bodyStart..m.bodyEnd]);
    CountSplit('$', whole, i, j);
  }

  /** What `process_line(line, pattern, slice, n)` returns, with the
      downloads it makes: repeatedly replace the leftmost match by an image
      link named by the counter, until the pattern no longer matches. */
  function Rewrite(line: string, d: Delim, n: nat): (r: LineResult)
    ensures r.next == n + |r.fetched|
    ensures Numbered(r.fetched, n)
    ensures 2 * |r.fetched| <= Count('$', line)
    decreases Count('$', line)
  {
    match Search(MathPattern(d), line)
    case None => LineResult(line, n, [])
    case Some(m) =>
      SpliceStep(line, d, m, n);
      var rest := Rewrite(Spliced(line, d, m, n), d, n + 1);
      var first := Fetch(BASE_URL + InnerTex(line, m, Slice(d)), n);
      assert ([first] + rest.fetched)[1..] == rest.fetched;
      LineResult(rest.text, rest.next, [first] + rest.fetched)
  }

  /** The loop leaves no match behind; it downloads something exactly when
      the line holds a match, and a line without one is unchanged. */
  lemma {:induction false} RewriteClean(line: string, d: Delim, n: nat)
    ensures !HasMatch(MathPattern(d), Rewrite(line, d, n).text)
    ensures Rewrite(line, d, n).fetched == [] <==> !HasMatch(MathPattern(d), line)
    ensures Rewrite(line, d, n).fetched == [] ==> Rewrite(line, d, n).text == line
    decreases Count('$', line)
  {
    match Search(MathPattern(d), line)
    case None =>
    case Some(m) =>
      SpliceStep(line, d, m, n);
      RewriteClean(Spliced(line, d, m, n), d, n + 1);
  }

  /** When the pattern no longer matches, `process_line` returns. */
  lemma RewriteDone(line: string, d: Delim, n: nat)
    requires Search(MathPattern(d), line).None?
    ensures Rewrite(line, d, n) == LineResult(line, n, [])
  {
  }

  /** One turn of `process_line`'s loop, read off `Rewrite`. */
  lemma RewriteStep(line: string, d: Delim, n: nat, m: Match)
    requires Search(MathPattern(d), line) == Some(m)
    ensures Spans(MathPattern(d), line, m)
    ensures 2 * Slice(d) <= m.end - m.start && m.end <= |line|
    ensures var rest := Rewrite(Spliced(line, d, m, n), d, n + 1);
            Rewrite(line, d, n)
            == LineResult(rest.text, rest.next, [Fetch(BASE_URL + InnerTex(line, m, Slice(d)), n)] + rest.fetched)
  {
    InnerTexIsRun(line, d, m);
  }

  /** `process_line` (suckcharts.py lines 9-22): the `while True` loop that
      searches the current line, downloads the equation image, advances the
      counter and splices the link in, until nothing matches. */
  method ProcessLine(line0: string, d: Delim, seqnum0: nat) returns (line: string, seqnum: nat, fetched: seq<Fetch>)
    ensures LineResult(line, seqnum, fetched) == Rewrite(line0, d, seqnum0)
  {
    line, seqnum, fetched := line0, seqnum0, [];
    while true
      invariant Rewrite(line0, d, seqnum0) == Glue(fetched, Rewrite(line, d, seqnum))
      decreases Count('$', line)
    {
      var mobj := Search(MathPattern(d), line);
      if mobj.None? {
        RewriteDone(line, d, seqnum);
        GlueEmpty(fetched, line, seqnum);
        break;
      }
      var m := mobj.value;
      RewriteStep(line, d, seqnum, m);
      SpliceStep(line, d, m, seqnum);
      var innertex := InnerTex(line, m, Slice(d));
      var remoteurl := BASE_URL + innertex;
      var outfilename := EqnFile(seqnum);
      ghost var next := Spliced(line, d, m, seqnum);
      ghost var rest := Rewrite(next, d, seqnum + 1);
      GlueStep(fetched, Fetch(remoteurl, seqnum), Rewrite(line, d, seqnum), rest);
      fetched := fetched + [Fetch(remoteurl, seqnum)];
      seqnum := seqnum + 1;
      var imglink := ImgLink(innertex, outfilename);
      line := line[..m.start] + imglink + line[m.end..];
    }
  }

  /** Neither pattern can match a line without a `$`. */
  lemma NoDollarNoMatch(line: string, d: Delim)
    requires '$' !in line
    ensures !HasMatch(MathPattern(d), line)
  {
    forall p: nat | p < |line| ensures !HeadAt(MathPattern(d), line, p) {
      assert !AtomMatches(MathPattern(d).head[0], line[p + 0]);
    }
  }

  /** A line with no `$` is left as it is and costs no download. */
  lemma NoDollarUnchanged(line: string, d: Delim, n: nat)
    requires '$' !in line
    ensures Rewrite(line, d, n) == LineResult(line, n, [])
  {
    NoDollarNoMatch(line, d);
  }

  /** The fence around a span: `$` or `$$`, the pattern's tail. */
  function Fence(d: Delim): string {
    MathPattern(d).tail
  }

  /** `pre`, then the span with TeX `x`, then `post`. */
  function SpanLine(pre: string, x: string, post: string, d: Delim): string {
    pre + Fence(d) + x + Fence(d) + post
  }

  /** Where the span lies in `SpanLine(pre, x, post, d)`. */
  function SpanAt(pre: string, x: string, d: Delim): Match {
    var w := Slice(d);
    Match(|pre|, |pre| + w, |pre| + w + |x|, |pre| + 2 * w + |x|)
  }

  /** No match of `pat` starts before index `p` of `s`. */
  ghost predicate NoMatchBefore(pat: Pattern, s: string, p: nat) {
    forall p': nat :: p' < p ==> !MatchesAt(pat, s, p')
  }

  /** A span whose TeX is non-empty and `$`-free is a match of its pattern. */
  lemma SpanMatches(pre: string, x: string, post: string, d: Delim)
    requires x != [] && '$' !in x
    ensures Spans(MathPattern(d), SpanLine(pre, x, post, d), SpanAt(pre, x, d))
  {
    var line := SpanLine(pre, x, post, d);
    var pat := MathPattern(d);
    var w := Slice(d);
    var p, q := |pre|, |pre| + w + |x|;
    assert |pat.head| == w && |Fence(d)| == w;
    forall k | 0 <= k < w ensures AtomMatches(pat.head[k], line[p + k]) {
      assert line[p + k] == Fence(d)[k];
    }
    forall j | p + w <= j < q ensures InClass(NonDollar, line[j]) {
      assert line[j] == x[j - p - w];
    }
    assert line[q..q + w] == Fence(d);
  }

  /** Neither pattern can start inside a `$`-free prefix. */
  lemma NoMatchInPrefix(pre: string, rest: string, d: Delim)
    requires '$' !in pre
    ensures NoMatchBefore(MathPattern(d), pre + rest, |pre|)
  {
    var line := pre + rest;
    forall p': nat | p' < |pre| ensures !HeadAt(MathPattern(d), line, p') {
      assert line[p' + 0] == pre[p'];
      assert !AtomMatches(MathPattern(d).head[0], line[p' + 0]);
    }
  }

  /** `re.search` finds the span when no match starts before it. */
  lemma SpanFound(pre: string, x: string, post: string, d: Delim)
    requires x != [] && '$' !in x
    requires NoMatchBefore(MathPattern(d), SpanLine(pre, x, post, d), |pre|)
    ensures Search(MathPattern(d), SpanLine(pre, x, post, d)) == Some(SpanAt(pre, x, d))
    ensures Spans(MathPattern(d), SpanLine(pre, x, post, d), SpanAt(pre, x, d))
  {
    SpanMatches(pre, x, post, d);
    SearchFindsSpan(MathPattern(d), SpanLine(pre, x, post, d), SpanAt(pre, x, d));
  }

  /** The TeX cut out of the span is `x`, and splicing the link in for the
      span gives `pre![x](file)post`. */
  lemma SpanSpliced(pre: string, x: string, post: string, d: Delim, n: nat)
    requires Spans(MathPattern(d), SpanLine(pre, x, post, d), SpanAt(pre, x, d))
    ensures InnerTex(SpanLine(pre, x, post, d), SpanAt(pre, x, d), Slice(d)) == x
    ensures Spliced(SpanLine(pre, x, post, d), d, SpanAt(pre, x, d), n) == pre + ImgLink(x, EqnFile(n)) + post
  {
    var line := SpanLine(pre, x, post, d);
    var m := SpanAt(pre, x, d);
    InnerTexIsRun(line, d, m);
    assert |Fence(d)| == Slice(d);
    assert line[m.bodyStart..m.bodyEnd] == x;
    assert line[..m.start] == pre && line[m.end..] == post;
  }

  /** The first span found: `x` is downloaded into the file of counter `n`,
      and the rest of the line is rewritten from `pre![x](file)post` on. */
  lemma {:induction false} SpanRewrite(pre: string, x: string, post: string, d: Delim, n: nat)
    requires x != [] && '$' !in x
    requires NoMatchBefore(MathPattern(d), SpanLine(pre, x, post, d), |pre|)
    ensures var rest := Rewrite(pre + ImgLink(x, EqnFile(n)) + post, d, n + 1);
            Rewrite(SpanLine(pre, x, post, d), d, n)
            == LineResult(rest.text, rest.next, [Fetch(BASE_URL + x, n)] + rest.fetched)
  {
    SpanFound(pre, x, post, d);
    SpanSpliced(pre, x, post, d, n);
    RewriteStep(SpanLine(pre, x, post, d), d, n, SpanAt(pre, x, d));
  }

  /** A line whose only `$` signs are those of one span: the span becomes
      `![x](file)` in place and costs exactly one download. */
  lemma {:induction false} SpanAlone(pre: string, x: string, post: string, d: Delim, n: nat)
    requires '$' !in pre && x != [] && '$' !in x && '$' !in post
    ensures Rewrite(SpanLine(pre, x, post, d), d, n)
            == LineResult(pre + ImgLink(x, EqnFile(n)) + post, n + 1, [Fetch(BASE_URL + x, n)])
  {
    NoMatchInPrefix(pre, Fence(d) + x + Fence(d) + post, d);
    assert pre + (Fence(d) + x + Fence(d) + post) == SpanLine(pre, x, post, d);
    SpanRewrite(pre, x, post, d, n);
    var link := ImgLink(x, EqnFile(n));
    NoDollarInLink(x, n);
    NoCount('$', link);
    NoDollarUnchanged(pre + link + post, d, n + 1);
    assert [Fetch(BASE_URL + x, n)] + [] == [Fetch(BASE_URL + x, n)];
  }

  /** The worked case's line is a span with `$`-free text around it. */
  lemma WorkedPieces()
    ensures var pre, x, post := "The value is ", "x+1", " units.";
            '$' !in pre && x != [] && '$' !in x && '$' !in post
            && "The value is $x+1$ units." == SpanLine(pre, x, post, Single)
  {
  }

  /** The worked case's line once the link is spliced in. */
  lemma WorkedLink()
    ensures "The value is " + ImgLink("x+1", EqnFile(0)) + " units." == "The value is ![x+1](tpimg/eqn_00.png) units."
  {
  }

  /** A worked case: with the counter at 0, the one span of
      `The value is $x+1$ units.` becomes an image link to
      `tpimg/eqn_00.png`, `x+1` is fetched, and the counter moves to 1. */
  lemma WorkedExample()
    ensures Rewrite("The value is $x+1$ units.", Single, 0)
            == LineResult("The value is ![x+1](tpimg/eqn_00.png) units.", 1, [Fetch(BASE_URL + "x+1", 0)])
  {
    WorkedPieces();
    WorkedLink();
    SpanAlone("The value is ", "x+1", " units.", Single, 0);
  }

  /** Every `$$x$$` match holds a `$x$` match one character in, so once the
      `$x$` pass is done the `$$x$$` pattern cannot match either. */
  lemma DisplayPassInert(s: string)
    ensures HasMatch(MathPattern(Double), s) ==> HasMatch(MathPattern(Single), s)
  {
    if HasMatch(MathPattern(Double), s) {
      var p: nat :| MatchesAt(MathPattern(Double), s, p);
      var q: nat :| EndsAt(MathPattern(Double), s, p, q);
      assert AtomMatches(MathPattern(Double).head[1], s[p + 1]);
      assert s[q..q + 1] == s[q..q + 2][..1];
      assert EndsAt(MathPattern(Single), s, p + 1, q);
      assert MatchesAt(MathPattern(Single), s, p + 1);
    }
  }

  /** Two passes over one line, the first from counter `n`, the second
      continuing from where the first left the counter. */
  function TwoPasses(line: string, first: Delim, second: Delim, n: nat): (r: LineResult)
    ensures r.next == n + |r.fetched|
    ensures Numbered(r.fetched, n)
    ensures !HasMatch(MathPattern(second), r.text)
  {
    var r1 := Rewrite(line, first, n);
    var r2 := Rewrite(r1.text, second, r1.next);
    RewriteClean(r1.text, second, r1.next);
    NumberedAppend(r1.fetched, r2.fetched, n, r1.next);
    LineResult(r2.text, r2.next, r1.fetched + r2.fetched)
  }

  /** Lines 26-28 as written: strip the line, rewrite `$x$` spans, then
      `$$x$$` spans. The second pass never finds anything. */
  function SuckLineAsWritten(line: string, n: nat): (r: LineResult)
    ensures r == Rewrite(Strip(line), Single, n)
    ensures !HasMatch(MathPattern(Single), r.text) && !HasMatch(MathPattern(Double), r.text)
  {
    var r1 := Rewrite(Strip(line), Single, n);
    RewriteClean(Strip(line), Single, n);
    DisplayPassInert(r1.text);
    RewriteClean(r1.text, Double, r1.next);
    TwoPasses(Strip(line), Single, Double, n)
  }

  /** The lines in the intended order: `$$x$$` spans first, then `$x$`
      spans; afterwards neither pattern matches. */
  function SuckLine(line: string, n: nat): (r: LineResult)
    ensures r.next == n + |r.fetched|
    ensures Numbered(r.fetched, n)
    ensures !HasMatch(MathPattern(Single), r.text) && !HasMatch(MathPattern(Double), r.text)
  {
    var r := TwoPasses(Strip(line), Double, Single, n);
    DisplayPassInert(r.text);
    r
  }

  /** A string that starts and ends with a non-space is its own strip. */
  lemma StripNoSpaceEnds(s: string)
    requires s != [] && !IsSpace(s[0]) && !IsSpace(s[|s| - 1])
    ensures Strip(s) == s
  {
    var r := Strip(s);
    var a: nat :| TrimmedAt(s, r, a);
  }

  /** No `$x$` match starts at a `$` that another `$` follows. */
  lemma NoSingleAtDoubled(s: string)
    requires |s| >= 2 && s[0] == '$' && s[1] == '$'
    ensures NoMatchBefore(MathPattern(Single), s, 1)
  {
    forall q: nat ensures !EndsAt(MathPattern(Single), s, 0, q) {
      assert !InClass(NonDollar, s[1]);
    }
  }

  /** `SuckLine` from the results of its two passes. */
  lemma SuckLineOf(line: string, n: nat, t: string, r1: LineResult, r2: LineResult)
    requires Strip(line) == t && Rewrite(t, Double, n) == r1 && Rewrite(r1.text, Single, r1.next) == r2
    ensures SuckLine(line, n) == LineResult(r2.text, r2.next, r1.fetched + r2.fetched)
  {
  }

  /** `SuckLineAsWritten` from the results of its two passes. */
  lemma AsWrittenPasses(line: string, n: nat, t: string, r1: LineResult, r2: LineResult)
    requires Strip(line) == t && Rewrite(t, Single, n) == r1 && Rewrite(r1.text, Double, r1.next) == r2
    ensures SuckLineAsWritten(line, n) == LineResult(r2.text, r2.next, r1.fetched + r2.fetched)
  {
  }

  /** `SuckLineAsWritten` from the result of its `$x$` pass. */
  lemma AsWrittenOf(line: string, n: nat, t: string, r: LineResult)
    requires Strip(line) == t && Rewrite(t, Single, n) == r
    ensures SuckLineAsWritten(line, n) == r
  {
  }

  /** A display span has no blanks around it to strip. */
  lemma DisplayLineStrip(x: string)
    ensures Strip("$$" + x + "$$") == "$$" + x + "$$"
  {
    var s := "$$" + x + "$$";
    assert s[0] == '$' && s[|s| - 1] == '$';
    StripNoSpaceEnds(s);
  }

  /** A display span reads both as a `$$x$$` span and as a `$x$` span
      between two further `$`, and no `$x$` match starts at its first `$`. */
  lemma DisplayLineSpans(x: string)
    ensures "$$" + x + "$$" == SpanLine([], x, [], Double) == SpanLine("$", x, "$", Single)
    ensures NoMatchBefore(MathPattern(Single), SpanLine("$", x, "$", Single), 1)
  {
    var s := "$$" + x + "$$";
    assert s[0] == '$' && s[1] == '$';
    NoSingleAtDoubled(s);
  }

  /** The `$x$` pass over `$$x$$`: it finds `$x$` one character in, and
      then the `$![x](f0)$` that this leaves. */
  lemma DoubledSingle(x: string, n: nat)
    requires x != [] && '$' !in x
    ensures var link := ImgLink(x, EqnFile(n));
            Rewrite("$$" + x + "$$", Single, n)
            == LineResult(ImgLink(link, EqnFile(n + 1)), n + 2,
                          [Fetch(BASE_URL + x, n), Fetch(BASE_URL + link, n + 1)])
  {
    var link := ImgLink(x, EqnFile(n));
    LinkUnchanged(x, n, Single, n + 1);
    DoubledFirst(x, n);
    LinkBetweenDollars(link, n + 1);
    FetchPair(Fetch(BASE_URL + x, n), Fetch(BASE_URL + link, n + 1));
  }

  /** The first step of the `$x$` pass over `$$x$$`: `x` is fetched, and
      `$![x](f0)$` is left to rewrite. */
  lemma DoubledFirst(x: string, n: nat)
    requires x != [] && '$' !in x
    ensures var rest := Rewrite("$" + ImgLink(x, EqnFile(n)) + "$", Single, n + 1);
            Rewrite("$$" + x + "$$", Single, n)
            == LineResult(rest.text, rest.next, [Fetch(BASE_URL + x, n)] + rest.fetched)
  {
    DisplayLineSpans(x);
    SpanRewrite("$", x, "$", Single, n);
  }

  /** A `$`-free text between two `$` is one `$x$` span. */
  lemma LinkBetweenDollars(link: string, k: nat)
    requires link != [] && '$' !in link
    ensures Rewrite("$" + link + "$", Single, k)
            == LineResult(ImgLink(link, EqnFile(k)), k + 1, [Fetch(BASE_URL + link, k)])
  {
    DollarsAround(link, ImgLink(link, EqnFile(k)));
    SpanAlone([], link, [], Single, k);
  }

  /** Verification aid: `$link$` is a `$x$` span with nothing around it.
      Kept apart so that `LinkBetweenDollars` does not reason about these
      sequence identities beside `Rewrite`. */
  lemma DollarsAround(link: string, repl: string)
    ensures "$" + link + "$" == SpanLine([], link, [], Single)
    ensures [] + repl + [] == repl
  {
  }

  /** The image link for a `$`-free TeX holds no `$`, so neither pass
      changes it. */
  lemma LinkUnchanged(x: string, n: nat, d: Delim, k: nat)
    requires '$' !in x
    ensures '$' !in ImgLink(x, EqnFile(n))
    ensures Rewrite([] + ImgLink(x, EqnFile(n)) + [], d, k) == LineResult(ImgLink(x, EqnFile(n)), k, [])
  {
    var link := ImgLink(x, EqnFile(n));
    NoDollarInLink(x, n);
    NoCount('$', link);
    assert [] + link + [] == link;
    NoDollarUnchanged(link, d, k);
  }

  /** As written, a display span `$$x$$` is first cut down by the `$x$`
      pass to `$![x](f0)$`, which is again a `$x$` match: the line ends up
      as a link inside a link, and two images are downloaded, the second
      for the TeX `![x](f0)`. */
  lemma DisplaySpanAsWritten(x: string, n: nat)
    requires x != [] && '$' !in x
    ensures var link := ImgLink(x, EqnFile(n));
            SuckLineAsWritten("$$" + x + "$$", n)
            == LineResult(ImgLink(link, EqnFile(n + 1)), n + 2,
                          [Fetch(BASE_URL + x, n), Fetch(BASE_URL + link, n + 1)])
  {
    var s := "$$" + x + "$$";
    var link := ImgLink(x, EqnFile(n));
    var r0, r1 := Fetch(BASE_URL + x, n), Fetch(BASE_URL + link, n + 1);
    DisplayLineStrip(x);
    DoubledSingle(x, n);
    AsWrittenOf(s, n, s, LineResult(ImgLink(link, EqnFile(n + 1)), n + 2, [r0, r1]));
  }

  /** In the intended order, a display span `$$x$$` is one occurrence: it
      becomes `![x](file)` and costs exactly one download, of `BASE_URL + x`. */
  lemma DisplaySpanIntended(x: string, n: nat)
    requires x != [] && '$' !in x
    ensures SuckLine("$$" + x + "$$", n)
            == LineResult(ImgLink(x, EqnFile(n)), n + 1, [Fetch(BASE_URL + x, n)])
  {
    var s := "$$" + x + "$$";
    var link := ImgLink(x, EqnFile(n));
    DisplayLineStrip(x);
    DisplayLineSpans(x);
    SpanAlone([], x, [], Double, n);
    LinkUnchanged(x, n, Single, n + 1);
    var r1 := LineResult([] + link + [], n + 1, [Fetch(BASE_URL + x, n)]);
    SuckLineOf(s, n, SpanLine([], x, [], Double), r1, LineResult(link, n + 1, []));
    assert [Fetch(BASE_URL + x, n)] + [] == [Fetch(BASE_URL + x, n)];
  }


  /** A printed line holds no `$x$` or `$$x$$` span any more. */
  ghost predicate Clean(line: string) {
    !HasMatch(MathPattern(Single), line) && !HasMatch(MathPattern(Double), line)
  }

  /** The order of the two passes over a line: as lines 27-28 are written
      (`$x$` first), or as intended (`$$x$$` first). */
  datatype Order = AsWritten | Intended

  /** One stripped input line rewritten in the given order. */
  function LineIn(order: Order, line: string, n: nat): (r: LineResult)
    ensures r.next == n + |r.fetched|
    ensures Numbered(r.fetched, n)
    ensures Clean(r.text)
  {
    match order
    case AsWritten => SuckLineAsWritten(line, n)
    case Intended => SuckLine(line, n)
  }

  /** The filter over the lines `input` read so far, the counter starting
      at 0: each line is stripped and rewritten in the given order, the
      counter carried from line to line. `SuckAll(input, AsWritten)` is
      what the script prints. */
  function SuckAll(input: seq<string>, order: Order): (r: StreamResult)
    ensures |r.lines| == |input|
    ensures r.next == |r.fetched|
    ensures Numbered(r.fetched, 0)
    decreases |input|
  {
    if input == [] then StreamResult([], 0, [])
    else
      var prev := SuckAll(input[..|input| - 1], order);
      var r := LineIn(order, input[|input| - 1], prev.next);
      NumberedAppend(prev.fetched, r.fetched, 0, prev.next);
      StreamResult(prev.lines + [r.text], r.next, prev.fetched + r.fetched)
  }

  /** Every printed line is clean: no `$x$` or `$$x$$` span is left in it,
      in either order. */
  lemma {:induction false} SuckAllClean(input: seq<string>, order: Order)
    ensures forall i :: 0 <= i < |input| ==> Clean(SuckAll(input, order).lines[i])
    decreases |input|
  {
    if input != [] {
      var prefix := input[..|input| - 1];
      SuckAllClean(prefix, order);
      var prev := SuckAll(prefix, order);
      var r := LineIn(order, input[|input| - 1], prev.next);
      assert SuckAll(input, order).lines == prev.lines + [r.text];
      forall i | 0 <= i < |input| ensures Clean(SuckAll(input, order).lines[i]) {
        if i < |prefix| {
          assert SuckAll(input, order).lines[i] == prev.lines[i];
        }
      }
    }
  }

  /** A first line `$$x$$`: the script prints a link inside a link and
      downloads twice; the intended order prints one link. */
  lemma DisplayStream(x: string)
    requires x != [] && '$' !in x
    ensures SuckAll(["$$" + x + "$$"], AsWritten).lines == [ImgLink(ImgLink(x, EqnFile(0)), EqnFile(1))]
    ensures |SuckAll(["$$" + x + "$$"], AsWritten).fetched| == 2
    ensures SuckAll(["$$" + x + "$$"], Intended).lines == [ImgLink(x, EqnFile(0))]
    ensures |SuckAll(["$$" + x + "$$"], Intended).fetched| == 1
  {
    var input := ["$$" + x + "$$"];
    assert input[..0] == [];
    DisplaySpanAsWritten(x, 0);
    DisplaySpanIntended(x, 0);
  }

  /** The downloads are numbered 0, 1, 2, ... in order, so no two of them
      write the same file. */
  lemma DistinctFiles(fetched: seq<Fetch>)
    requires Numbered(fetched, 0)
    ensures forall i, j :: 0 <= i < j < |fetched| ==> File(fetched[i]) != File(fetched[j])
  {
    forall i, j | 0 <= i < j < |fetched| ensures File(fetched[i]) != File(fetched[j]) {
      NumberedDistinct(fetched, 0, i, j);
      EqnFileInjective(fetched[i].counter, fetched[j].counter);
    }
  }

  /** `SuckAll` on the first `i + 1` lines, from its value on the first `i`. */
  lemma SuckAllStep(input: seq<string>, order: Order, i: nat)
    requires i < |input|
    ensures var prev := SuckAll(input[..i], order);
            var r := LineIn(order, input[i], prev.next);
            SuckAll(input[..i + 1], order) == StreamResult(prev.lines + [r.text], r.next, prev.fetched + r.fetched)
  {
    assert input[..i + 1][..i] == input[..i];
  }

  /** The loop over standard input (lines 25-29): strip each line, rewrite
      its `$x$` spans, then its `$$x$$` spans, print it. The counter is never
      reset, so no two downloads go to the same file. */
  method SuckCharts(input: seq<string>) returns (output: seq<string>, fetched: seq<Fetch>)
    ensures output == SuckAll(input, AsWritten).lines && fetched == SuckAll(input, AsWritten).fetched
    ensures forall i, j :: 0 <= i < j < |fetched| ==> File(fetched[i]) != File(fetched[j])
  {
    var seqnum := 0;
    output, fetched := [], [];
    for i := 0 to |input|
      invariant SuckAll(input[..i], AsWritten) == StreamResult(output, seqnum, fetched)
    {
      ghost var n0 := seqnum;
      var line := Strip(input[i]);
      var inlines, displays;
      line, seqnum, inlines := ProcessLine(line, Single, seqnum);
      ghost var r1 := LineResult(line, seqnum, inlines);
      line, seqnum, displays := ProcessLine(line, Double, seqnum);
      AsWrittenPasses(input[i], n0, Strip(input[i]), r1, LineResult(line, seqnum, displays));
      SuckAllStep(input, AsWritten, i);
      output := output + [line];
      fetched := fetched + (inlines + displays);
    }
    assert input[..|input|] == input;
    DistinctFiles(fetched);
  }
}
