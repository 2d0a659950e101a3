/** patchebookfigs.py: rewrites an EPUB archive so that its chart images
    are stored inside it. In every entry whose name contains `.xhtml`, each
    quoted chart-service URL `"http://chart.apis.google.com/..."` is fetched
    into a new entry `images/eqn_NN.png`, and the quoted URL is replaced by
    the quoted entry name; every other entry is copied. `NN` is a counter
    that runs across the whole archive. The fetch is a parameter: a function
    from URL to image bytes. */
module PatchEbookFigs {
  import opened Text
  import opened Scanner
  import opened Fetches
  import opened UrlClean

  /** One archive entry: its name and its bytes. */
  datatype Entry = Entry(name: string, data: string)

  /** `"(http://chart.apis.google.com/\S+)"`; the unescaped dots match any
      character but a newline. */
  const CHART: Pattern := Pattern(Atoms("\"" + CHART_PREFIX), NonSpace, "\"")

  /** The address every chart URL starts with. */
  const CHART_PREFIX: string := "http://chart.apis.google.com/"

  /** `"images/eqn_%02d.png" % n`. */
  function ImageName(n: nat): string {
    "images/eqn_" + Format02(n) + ".png"
  }

  /** Different counters give different entry names. */
  lemma ImageNameInjective(a: nat, b: nat)
    ensures ImageName(a) == ImageName(b) <==> a == b
  {
    if ImageName(a) == ImageName(b) {
      var fa, fb := Format02(a), Format02(b);
      assert |fa| == |fb|;
      assert fa == ImageName(a)[11..11 + |fa|];
      assert fb == ImageName(b)[11..11 + |fb|];
    }
  }

  /** `m` lies inside `line` and leaves room for its opening quote. */
  predicate Inside(line: string, m: Match) {
    m.start + 1 <= m.bodyEnd <= m.end <= |line|
  }

  /** `mobj.groups()[0]`: the match without its two quotes. */
  function Captured(line: string, m: Match): string
    requires Inside(line, m)
  {
    line[m.start + 1..m.bodyEnd]
  }

  /** The name of the image entry for counter `n`, in quotes. */
  function Quoted(n: nat): string {
    "\"" + ImageName(n) + "\""
  }

  /** Line 48: the match, quotes included, replaced by the quoted name of
      the image entry for counter `n`. */
  function Patched(line: string, m: Match, n: nat): string
    requires Inside(line, m)
  {
    line[..m.start] + Quoted(n) + line[m.end..]
  }

  /** The quoted image name holds no `h`. */
  lemma NoHInName(n: nat)
    ensures Count('h', Quoted(n)) == 0
  {
    var f := Format02(n);
    assert 'h' !in f;
    NoCount('h', Quoted(n));
  }

  /** The head of the chart pattern: 30 atoms, with the literal `h` of
      `http` at index 1 and of `chart` at index 9. */
  lemma ChartHead()
    ensures |CHART.head| == 30 && |CHART.tail| == 1
    ensures CHART.head[1] == Lit('h') && CHART.head[9] == Lit('h')
  {
  }

  /** Every chart match holds at least two `h`. */
  lemma MatchHasTwoH(line: string, m: Match)
    requires Spans(CHART, line, m)
    ensures Count('h', line[m.start..m.end]) >= 2
  {
    ChartHead();
    assert AtomMatches(CHART.head[1], line[m.start + 1]);
    assert AtomMatches(CHART.head[9], line[m.start + 9]);
    var whole := line[m.start..m.end];
    assert whole[1] == line[m.start + 1] && whole[9] == line[m.start + 9];
    CountTwo('h', whole, 1, 9);
  }

  /** The loop terminates: a match holds the two `h` of `http` and `chart`,
      and its replacement none, so each step removes at least two `h`. */
  lemma PatchStep(line: string, m: Match, n: nat)
    requires Spans(CHART, line, m)
    ensures Count('h', Patched(line, m, n)) + 2 <= Count('h', line)
  {
    MatchHasTwoH(line, m);
    CountSplice('h', line, m.start, m.end, Quoted(n));
    NoHInName(n);
  }

  /** What the `while True` loop of lines 34-49 makes of one line, with the
      downloads it makes: repeatedly replace the leftmost chart URL by the
      next image name, until none is left. */
  function ChartRewrite(line: string, n: nat): (r: LineResult)
    ensures r.next == n + |r.fetched|
    ensures Numbered(r.fetched, n)
    ensures 2 * |r.fetched| <= Count('h', line)
    decreases Count('h', line)
  {
    match Search(CHART, line)
    case None => LineResult(line, n, [])
    case Some(m) =>
      PatchStep(line, m, n);
      var rest := ChartRewrite(Patched(line, m, n), n + 1);
      var first := Fetch(CleanUrl(Captured(line, m)), n);
      assert ([first] + rest.fetched)[1..] == rest.fetched;
      LineResult(rest.text, rest.next, [first] + rest.fetched)
  }

  /** The loop leaves no chart URL behind; it downloads something exactly
      when the line holds a chart URL, and a line without one is unchanged. */
  lemma {:induction false} ChartRewriteClean(line: string, n: nat)
    ensures !HasMatch(CHART, ChartRewrite(line, n).text)
    ensures ChartRewrite(line, n).fetched == [] <==> !HasMatch(CHART, line)
    ensures ChartRewrite(line, n).fetched == [] ==> ChartRewrite(line, n).text == line
    decreases Count('h', line)
  {
    match Search(CHART, line)
    case None =>
    case Some(m) =>
      PatchStep(line, m, n);
      ChartRewriteClean(Patched(line, m, n), n + 1);
  }

  /** When no chart URL is left, the loop stops. */
  lemma ChartDone(line: string, n: nat)
    requires Search(CHART, line).None?
    ensures ChartRewrite(line, n) == LineResult(line, n, [])
  {
  }

  /** One turn of the loop, read off `ChartRewrite`: the cleaned URL is
      fetched under counter `n`, then the patched line is rewritten. */
  lemma ChartStep(line: string, n: nat, m: Match)
    requires Search(CHART, line) == Some(m)
    ensures Spans(CHART, line, m)
    ensures var rest := ChartRewrite(Patched(line, m, n), n + 1);
            ChartRewrite(line, n)
            == LineResult(rest.text, rest.next, [Fetch(CleanUrl(Captured(line, m)), n)] + rest.fetched)
  {
  }

  /** The replacement leaves the text before the match as it was. */
  lemma PatchedPrefix(line: string, m: Match, n: nat)
    requires Spans(CHART, line, m)
    ensures Patched(line, m, n)[..m.start] == line[..m.start]
    ensures Patched(line, m, n)[m.start..m.start + |Quoted(n)|] == Quoted(n)
  {
  }

  // ---------------------------------------------------------------------
  // One chart URL in a line

  /** A line holding one quoted chart URL whose path is `path`. */
  function ChartLine(pre: string, path: string, post: string): string {
    pre + "\"" + CHART_PREFIX + path + "\"" + post
  }

  /** Where the chart URL of `ChartLine` lies. */
  function ChartAt(pre: string, path: string): Match {
    Match(|pre|, |pre| + 30, |pre| + 30 + |path|, |pre| + 31 + |path|)
  }

  /** Every match starts with a quote followed by `h`. */
  lemma MatchStart(line: string, p: nat, q: nat)
    requires EndsAt(CHART, line, p, q)
    ensures p + 30 < q && line[p] == '"' && line[p + 1] == 'h'
  {
    ChartHead();
    assert CHART.head[0] == Lit('"');
    assert AtomMatches(CHART.head[0], line[p + 0]);
    assert AtomMatches(CHART.head[1], line[p + 1]);
  }

  /** The quoted URL of `ChartLine` is a match when its path is non-empty
      and holds no whitespace. */
  lemma ChartMatches(pre: string, path: string, post: string)
    requires path != [] && forall k :: 0 <= k < |path| ==> !IsSpace(path[k])
    ensures Spans(CHART, ChartLine(pre, path, post), ChartAt(pre, path))
  {
    var line := ChartLine(pre, path, post);
    var lit := "\"" + CHART_PREFIX;
    var p := |pre|;
    assert line == pre + lit + path + "\"" + post;
    assert |lit| == 30;
    assert line[p..p + 30] == lit;
    HeadAtLiteral(lit, NonSpace, "\"", line, p);
    forall j | p + 30 <= j < p + 30 + |path| ensures InClass(NonSpace, line[j]) {
      assert line[j] == path[j - p - 30];
    }
    assert line[p + 30 + |path|..p + 31 + |path|] == "\"";
  }

  /** When whitespace or the end of the line follows the closing quote, the
      greedy run stops right before it. */
  lemma ChartLongest(pre: string, path: string, post: string, q: nat)
    requires post == [] || IsSpace(post[0])
    requires EndsAt(CHART, ChartLine(pre, path, post), |pre|, q)
    ensures q <= |pre| + 30 + |path|
  {
    var line := ChartLine(pre, path, post);
    var e := |pre| + 31 + |path|;
    assert line[..e] == pre + "\"" + CHART_PREFIX + path + "\"" && line[e..] == post;
    assert line[q..q + 1][0] == line[q] == '"';
    if e < |line| {
      assert line[e] == post[0];
    }
  }

  /** No match starts before the first quote. */
  lemma ChartFirst(pre: string, rest: string, p: nat)
    requires '"' !in pre && p < |pre|
    ensures !MatchesAt(CHART, pre + rest, p)
  {
    if MatchesAt(CHART, pre + rest, p) {
      var q: nat :| EndsAt(CHART, pre + rest, p, q);
      MatchStart(pre + rest, p, q);
    }
  }

  /** `re.search` reports the quoted URL of `ChartLine`. */
  lemma ChartFound(pre: string, path: string, post: string)
    requires '"' !in pre
    requires path != [] && forall k :: 0 <= k < |path| ==> !IsSpace(path[k])
    requires post == [] || IsSpace(post[0])
    ensures Search(CHART, ChartLine(pre, path, post)) == Some(ChartAt(pre, path))
  {
    var line := ChartLine(pre, path, post);
    var rest := "\"" + CHART_PREFIX + path + "\"" + post;
    assert line == pre + rest;
    ChartMatches(pre, path, post);
    forall q: nat | EndsAt(CHART, line, |pre|, q) ensures q <= |pre| + 30 + |path| {
      ChartLongest(pre, path, post, q);
    }
    forall p: nat | p < |pre| ensures !MatchesAt(CHART, line, p) {
      ChartFirst(pre, rest, p);
    }
    assert IsLeftmostGreedy(CHART, line, ChartAt(pre, path));
    assert MatchesAt(CHART, line, |pre|);
    LeftmostGreedyUnique(CHART, line, Search(CHART, line).value, ChartAt(pre, path));
  }

  /** What the found URL turns into: the captured text is the URL, and the
      line becomes `pre"images/eqn_NN.png"post`. */
  lemma ChartPatched(pre: string, path: string, post: string, n: nat)
    ensures Inside(ChartLine(pre, path, post), ChartAt(pre, path))
    ensures Captured(ChartLine(pre, path, post), ChartAt(pre, path)) == CHART_PREFIX + path
    ensures Patched(ChartLine(pre, path, post), ChartAt(pre, path), n) == pre + Quoted(n) + post
  {
    var line := ChartLine(pre, path, post);
    assert line == pre + ("\"" + (CHART_PREFIX + path) + "\"") + post;
    assert line[|pre| + 1..|pre| + 30 + |path|] == CHART_PREFIX + path;
    assert line[..|pre|] == pre && line[|pre| + 31 + |path|..] == post;
  }

  /** In a patched line whose two sides hold no quote, no quote is
      followed by an `h`: the name's own quotes are followed by `i` and by
      whitespace or the end of the line. */
  lemma NoQuoteH(pre: string, post: string, n: nat, p: nat)
    requires '"' !in pre && '"' !in post
    requires post == [] || IsSpace(post[0])
    requires p + 1 < |pre + Quoted(n) + post|
    ensures (pre + Quoted(n) + post)[p] != '"' || (pre + Quoted(n) + post)[p + 1] != 'h'
  {
    var name := ImageName(n);
    var q := Quoted(n);
    var line := pre + q + post;
    assert '"' !in name by {
      assert '"' !in Format02(n);
    }
    if p < |pre| {
      assert line[p] == pre[p];
    } else if p == |pre| {
      assert line[p + 1] == name[0] == 'i';
    } else if p < |pre| + |q| - 1 {
      assert line[p] == name[p - |pre| - 1];
    } else if p == |pre| + |q| - 1 {
      assert line[p + 1] == post[0];
    } else {
      assert line[p] == post[p - |pre| - |q|];
    }
  }

  /** A patched line has no chart URL left when its two sides hold no quote. */
  lemma PatchedClean(pre: string, post: string, n: nat)
    requires '"' !in pre && '"' !in post
    requires post == [] || IsSpace(post[0])
    ensures !HasMatch(CHART, pre + Quoted(n) + post)
  {
    var line := pre + Quoted(n) + post;
    forall p: nat | MatchesAt(CHART, line, p) ensures false {
      var q: nat :| EndsAt(CHART, line, p, q);
      MatchStart(line, p, q);
      NoQuoteH(pre, post, n, p);
    }
  }

  /** The first turn of the loop on a line holding one quoted chart URL:
      the URL is fetched under counter `n`, and the line with the quoted
      image name in its place is what is left to rewrite. */
  lemma ChartFirstTurn(pre: string, path: string, post: string, n: nat)
    requires '"' !in pre
    requires path != [] && forall k :: 0 <= k < |path| ==> !IsSpace(path[k])
    requires post == [] || IsSpace(post[0])
    ensures var rest := ChartRewrite(pre + Quoted(n) + post, n + 1);
            ChartRewrite(ChartLine(pre, path, post), n)
            == LineResult(rest.text, rest.next, [Fetch(CleanUrl(CHART_PREFIX + path), n)] + rest.fetched)
  {
    ChartFound(pre, path, post);
    ChartPatched(pre, path, post, n);
    ChartStep(ChartLine(pre, path, post), n, ChartAt(pre, path));
  }

  /** A line whose only quotes are those around one chart URL: the URL
      becomes the quoted name of image `n` in place, it is fetched after
      `&amp;` and `unquote_plus` clean-up, and the counter moves to `n + 1`. */
  lemma ChartAlone(pre: string, path: string, post: string, n: nat)
    requires '"' !in pre && '"' !in post
    requires path != [] && forall k :: 0 <= k < |path| ==> !IsSpace(path[k])
    requires post == [] || IsSpace(post[0])
    ensures ChartRewrite(ChartLine(pre, path, post), n)
            == LineResult(pre + Quoted(n) + post, n + 1, [Fetch(CleanUrl(CHART_PREFIX + path), n)])
  {
    ChartFirstTurn(pre, path, post, n);
    PatchedClean(pre, post, n);
    ChartDone(pre + Quoted(n) + post, n + 1);
    OneFetch(Fetch(CleanUrl(CHART_PREFIX + path), n));
  }

  // ---------------------------------------------------------------------
  // The output archive

  /** The image entries written for the downloads `fs`, in order. */
  function Images(fs: seq<Fetch>, fetch: string -> string): seq<Entry>
    decreases |fs|
  {
    if fs == [] then [] else [Entry(ImageName(fs[0].counter), fetch(fs[0].url))] + Images(fs[1..], fetch)
  }

  lemma {:induction false} ImagesAppend(a: seq<Fetch>, b: seq<Fetch>, fetch: string -> string)
    ensures Images(a + b, fetch) == Images(a, fetch) + Images(b, fetch)
    decreases |a|
  {
    if a == [] {
      assert a + b == b;
    } else {
      assert (a + b)[1..] == a[1..] + b;
      ImagesAppend(a[1..], b, fetch);
    }
  }

  lemma {:induction false} ImagesLength(fs: seq<Fetch>, fetch: string -> string)
    ensures |Images(fs, fetch)| == |fs|
    decreases |fs|
  {
    if fs != [] {
      ImagesLength(fs[1..], fetch);
    }
  }

  /** The same, for the entries written after `base`. */
  lemma ImagesAfter(base: seq<Entry>, a: seq<Fetch>, b: seq<Fetch>, fetch: string -> string)
    ensures base + Images(a + b, fetch) == base + Images(a, fetch) + Images(b, fetch)
  {
    ImagesAppend(a, b, fetch);
    assert base + (Images(a, fetch) + Images(b, fetch)) == base + Images(a, fetch) + Images(b, fetch);
  }

  /** The `k`-th image entry is named by the `k`-th download's counter and
      holds what the fetch returns for its URL. */
  lemma {:induction false} ImagesAt(fs: seq<Fetch>, fetch: string -> string, k: nat)
    requires k < |fs|
    ensures |Images(fs, fetch)| == |fs|
    ensures Images(fs, fetch)[k] == Entry(ImageName(fs[k].counter), fetch(fs[k].url))
    decreases k
  {
    ImagesLength(fs, fetch);
    var first := Entry(ImageName(fs[0].counter), fetch(fs[0].url));
    assert Images(fs, fetch) == [first] + Images(fs[1..], fetch);
    if k > 0 {
      ImagesAt(fs[1..], fetch, k - 1);
      assert fs[1..][k - 1] == fs[k];
    }
  }

  /** One more download, one more image entry at the end of what has been
      written after `base`. */
  lemma ImagesSnoc(base: seq<Entry>, fs: seq<Fetch>, x: Fetch, fetch: string -> string)
    ensures base + Images(fs + [x], fetch) == base + Images(fs, fetch) + [Entry(ImageName(x.counter), fetch(x.url))]
  {
    ImagesAppend(fs, [x], fetch);
    assert Images([x], fetch) == [Entry(ImageName(x.counter), fetch(x.url))] + Images([], fetch);
    assert base + (Images(fs, fetch) + Images([x], fetch)) == base + Images(fs, fetch) + Images([x], fetch);
  }

  /** `zipfile.ZipFile(..., 'w')`: the entries written so far, in order. */
  class ZipOut {
    var entries: seq<Entry>

    constructor ()
      ensures entries == []
    {
      entries := [];
    }

    /** `writestr(name, data)` appends an entry. */
    method WriteStr(name: string, data: string)
      modifies this
      ensures entries == old(entries) + [Entry(name, data)]
    {
      entries := entries + [Entry(name, data)];
    }
  }

  /** `writefile` (lines 19-20). */
  method WriteFile(fname: string, contents: string, zipout: ZipOut)
    modifies zipout
    ensures zipout.entries == old(zipout.entries) + [Entry(fname, contents)]
  {
    zipout.WriteStr(fname, contents);
  }

  /** `ebook.read(name)`: the bytes of the entry called `name`; when several
      entries share the name, the last one wins. */
  function ZipRead(ebook: seq<Entry>, name: string): (r: Option<string>)
    ensures r.None? <==> forall k :: 0 <= k < |ebook| ==> ebook[k].name != name
    ensures r.Some? ==> exists k :: 0 <= k < |ebook| && ebook[k] == Entry(name, r.value)
                                    && forall j :: k < j < |ebook| ==> ebook[j].name != name
    decreases |ebook|
  {
    if ebook == [] then None
    else if ebook[|ebook| - 1].name == name then Some(ebook[|ebook| - 1].data)
    else ZipRead(ebook[..|ebook| - 1], name)
  }

  /** `copyfile` (lines 15-16): the entry is written again under its name. */
  method CopyFile(fname: string, ebook: seq<Entry>, zipout: ZipOut)
    requires ZipRead(ebook, fname).Some?
    modifies zipout
    ensures zipout.entries == old(zipout.entries) + [Entry(fname, ZipRead(ebook, fname).value)]
  {
    var data := ZipRead(ebook, fname).value;
    zipout.WriteStr(fname, data);
  }

  /** One turn of the loop body (lines 35-49): search the line; when a
      chart URL is found, clean its address, fetch it into the image entry
      for `seqnum` and put the entry's quoted name in the URL's place. */
  method PatchFirst(line: string, seqnum: nat, fetch: string -> string, zipout: ZipOut)
    returns (found: bool, patched: string)
    modifies zipout
    ensures found <==> Search(CHART, line).Some?
    ensures !found ==> patched == line && zipout.entries == old(zipout.entries)
    ensures found ==> var m := Search(CHART, line).value;
                      Inside(line, m) && patched == Patched(line, m, seqnum)
                      && zipout.entries == old(zipout.entries) + [Entry(ImageName(seqnum), fetch(CleanUrl(Captured(line, m))))]
  {
    var mobj := Search(CHART, line);
    if mobj.None? {
      return false, line;
    }
    var m := mobj.value;
    var fullurl := Captured(line, m);
    fullurl := UnescapeAmp(fullurl);
    fullurl := UnquotePlus(fullurl);
    var img := fetch(fullurl);
    var outfilename := ImageName(seqnum);
    WriteFile(outfilename, img, zipout);
    var quoted := "\"" + outfilename + "\"";
    patched := line[..m.start] + quoted + line[m.end..];
    found := true;
  }

  /** The `while True` loop of lines 34-49 on one line: each chart URL is
      cleaned, fetched, written as an image entry and replaced by the
      entry's quoted name, until none is left. */
  method PatchLine(line0: string, seqnum0: nat, fetch: string -> string, zipout: ZipOut)
    returns (line: string, seqnum: nat, ghost fetched: seq<Fetch>)
    modifies zipout
    ensures LineResult(line, seqnum, fetched) == ChartRewrite(line0, seqnum0)
    ensures zipout.entries == old(zipout.entries) + Images(fetched, fetch)
  {
    line, seqnum, fetched := line0, seqnum0, [];
    ghost var base := zipout.entries;
    assert Images(fetched, fetch) == [];
    while true
      invariant ChartRewrite(line0, seqnum0) == Glue(fetched, ChartRewrite(line, seqnum))
      invariant zipout.entries == base + Images(fetched, fetch)
      decreases Count('h', line)
    {
      var found, patched := PatchFirst(line, seqnum, fetch, zipout);
      if !found {
        ChartDone(line, seqnum);
        GlueEmpty(fetched, line, seqnum);
        break;
      }
      ghost var m := Search(CHART, line).value;
      ChartStep(line, seqnum, m);
      PatchStep(line, m, seqnum);
      ghost var x := Fetch(CleanUrl(Captured(line, m)), seqnum);
      GlueStep(fetched, x, ChartRewrite(line, seqnum), ChartRewrite(patched, seqnum + 1));
      ImagesSnoc(base, fetched, x, fetch);
      fetched := fetched + [x];
      line, seqnum := patched, seqnum + 1;
    }
  }

  /** The lines of one document rewritten in order, the counter carried from
      each line to the next. */
  function PatchLines(lines: seq<string>, n: nat): (r: StreamResult)
    ensures |r.lines| == |lines|
    ensures r.next == n + |r.fetched|
    ensures Numbered(r.fetched, n)
    decreases |lines|
  {
    if lines == [] then StreamResult([], n, [])
    else
      var prev := PatchLines(lines[..|lines| - 1], n);
      var r := ChartRewrite(lines[|lines| - 1], prev.next);
      NumberedAppend(prev.fetched, r.fetched, n, prev.next);
      StreamResult(prev.lines + [r.text], r.next, prev.fetched + r.fetched)
  }

  /** `PatchLines` on the first `i + 1` lines, from its value on the first `i`. */
  lemma PatchLinesStep(lines: seq<string>, i: nat, n: nat)
    requires i < |lines|
    ensures var prev := PatchLines(lines[..i], n);
            var r := ChartRewrite(lines[i], prev.next);
            PatchLines(lines[..i + 1], n) == StreamResult(prev.lines + [r.text], r.next, prev.fetched + r.fetched)
  {
    assert lines[..i + 1][..i] == lines[..i];
  }

  /** Lines 32-50: each line of the document, as `for line in fp` yields
      it, is rewritten and added to `fullcontents`. */
  method PatchDocument(data: string, seqnum0: nat, fetch: string -> string, zipout: ZipOut)
    returns (fullcontents: string, seqnum: nat, ghost out: seq<string>, ghost fetched: seq<Fetch>)
    modifies zipout
    ensures StreamResult(out, seqnum, fetched) == PatchLines(SplitLines(data), seqnum0)
    ensures fullcontents == Concat(out)
    ensures zipout.entries == old(zipout.entries) + Images(fetched, fetch)
  {
    var lines := SplitLines(data);
    fullcontents, seqnum, out, fetched := "", seqnum0, [], [];
    for i := 0 to |lines|
      invariant PatchLines(lines[..i], seqnum0) == StreamResult(out, seqnum, fetched)
      invariant fullcontents == Concat(out)
      invariant zipout.entries == old(zipout.entries) + Images(fetched, fetch)
    {
      var line;
      ghost var n, more := seqnum, [];
      line, seqnum, more := PatchLine(lines[i], seqnum, fetch, zipout);
      DocumentTurn(lines, i, seqnum0, out, n, fetched, line, seqnum, more, old(zipout.entries), fetch);
      fetched := fetched + more;
      out := out + [line];
      fullcontents := fullcontents + line;
    }
    assert lines[..|lines|] == lines;
  }

  /** What one turn of the loop in `PatchDocument` needs: the rewritten
      line and its downloads extend those of the lines before it, and its
      image entries follow those written before. */
  lemma DocumentTurn(lines: seq<string>, i: nat, n0: nat, out: seq<string>, n: nat, fetched: seq<Fetch>,
                     line: string, next: nat, more: seq<Fetch>, base: seq<Entry>, fetch: string -> string)
    requires i < |lines|
    requires PatchLines(lines[..i], n0) == StreamResult(out, n, fetched)
    requires LineResult(line, next, more) == ChartRewrite(lines[i], n)
    ensures PatchLines(lines[..i + 1], n0) == StreamResult(out + [line], next, fetched + more)
    ensures Concat(out + [line]) == Concat(out) + line
    ensures base + Images(fetched + more, fetch) == base + Images(fetched, fetch) + Images(more, fetch)
  {
    PatchLinesStep(lines, i, n0);
    ImagesAfter(base, fetched, more, fetch);
    assert (out + [line])[..|out|] == out;
  }

  // ---------------------------------------------------------------------
  // The whole archive

  /** Line 29: an entry is a document to rewrite when `.xhtml` occurs in its name. */
  predicate IsDocument(name: string) {
    Contains(name, ".xhtml")
  }

  /** The output archive after the first entries of the input, the counter,
      and the downloads so far. */
  datatype ArchiveResult = ArchiveResult(entries: seq<Entry>, next: nat, fetched: seq<Fetch>)

  /** What the loop of lines 28-54 writes for the first `upto` names of
      `namelist()`: a document's image entries followed by the document
      rewritten, or a copy of any other entry. */
  function PatchAll(ebook: seq<Entry>, upto: nat, fetch: string -> string): (r: ArchiveResult)
    requires upto <= |ebook|
    ensures r.next == |r.fetched|
    ensures Numbered(r.fetched, 0)
    ensures |r.entries| == upto + |r.fetched|
    decreases upto
  {
    if upto == 0 then ArchiveResult([], 0, [])
    else
      var prev := PatchAll(ebook, upto - 1, fetch);
      var name := ebook[upto - 1].name;
      var data := ZipRead(ebook, name).value;
      if IsDocument(name) then
        var r := PatchLines(SplitLines(data), prev.next);
        NumberedAppend(prev.fetched, r.fetched, 0, prev.next);
        ImagesLength(r.fetched, fetch);
        ArchiveResult(prev.entries + Images(r.fetched, fetch) + [Entry(name, Concat(r.lines))],
                      r.next, prev.fetched + r.fetched)
      else
        ArchiveResult(prev.entries + [Entry(name, data)], prev.next, prev.fetched)
  }

  /** `main` (lines 23-56) without the file handling: the entries of the
      new archive, in the order they are written. */
  method PatchEbook(ebook: seq<Entry>, fetch: string -> string) returns (out: seq<Entry>)
    ensures out == PatchAll(ebook, |ebook|, fetch).entries
  {
    var seqnum := 0;
    var zipout := new ZipOut();
    for i := 0 to |ebook|
      invariant zipout.entries == PatchAll(ebook, i, fetch).entries
      invariant seqnum == PatchAll(ebook, i, fetch).next
    {
      var fname := ebook[i].name;
      assert ZipRead(ebook, fname).Some?;
      if Contains(fname, ".xhtml") {
        var data := ZipRead(ebook, fname).value;
        var fullcontents;
        ghost var lines, fetched;
        fullcontents, seqnum, lines, fetched := PatchDocument(data, seqnum, fetch, zipout);
        WriteFile(fname, fullcontents, zipout);
      } else {
        CopyFile(fname, ebook, zipout);
      }
    }
    out := zipout.entries;
  }

  /** The downloads of the whole run use the counters 0, 1, 2, ... in
      order, so no two image entries get the same name. */
  lemma DistinctImageNames(ebook: seq<Entry>, fetch: string -> string)
    ensures var fs := PatchAll(ebook, |ebook|, fetch).fetched;
            forall i, j :: 0 <= i < j < |fs| ==> ImageName(fs[i].counter) != ImageName(fs[j].counter)
  {
    var fs := PatchAll(ebook, |ebook|, fetch).fetched;
    forall i, j | 0 <= i < j < |fs| ensures ImageName(fs[i].counter) != ImageName(fs[j].counter) {
      NumberedDistinct(fs, 0, i, j);
      ImageNameInjective(fs[i].counter, fs[j].counter);
    }
  }

  /** No two entries share a name. */
  ghost predicate DistinctNames(ebook: seq<Entry>) {
    forall a, b :: 0 <= a < b < |ebook| ==> ebook[a].name != ebook[b].name
  }

  /** With distinct names, reading an entry's name gives its own bytes. */
  lemma ZipReadUnique(ebook: seq<Entry>, i: nat)
    requires DistinctNames(ebook) && i < |ebook|
    ensures ZipRead(ebook, ebook[i].name) == Some(ebook[i].data)
  {
    var r := ZipRead(ebook, ebook[i].name);
    assert r.Some?;
    var k :| 0 <= k < |ebook| && ebook[k] == Entry(ebook[i].name, r.value)
             && forall j :: k < j < |ebook| ==> ebook[j].name != ebook[i].name;
    if k < i {
      assert false;
    } else if i < k {
      assert false;
    }
  }

  /** Lines 29 and 53-54: in an archive with distinct names, an entry that
      is not a document is appended with its own name and bytes after
      whatever the entries before it wrote, and nothing is downloaded for it. */
  lemma CopiedEntry(ebook: seq<Entry>, upto: nat, fetch: string -> string)
    requires 0 < upto <= |ebook| && DistinctNames(ebook) && !IsDocument(ebook[upto - 1].name)
    ensures var prev := PatchAll(ebook, upto - 1, fetch);
            PatchAll(ebook, upto, fetch) == ArchiveResult(prev.entries + [ebook[upto - 1]], prev.next, prev.fetched)
  {
    ZipReadUnique(ebook, upto - 1);
  }

  /** Lines 29-52: in an archive with distinct names, a document is read
      from its own bytes; its image entries follow whatever the entries
      before it wrote, then the document rewritten line by line under its
      own name, the counter carried on from the entries before. */
  lemma PatchedEntry(ebook: seq<Entry>, upto: nat, fetch: string -> string)
    requires 0 < upto <= |ebook| && DistinctNames(ebook) && IsDocument(ebook[upto - 1].name)
    ensures var prev := PatchAll(ebook, upto - 1, fetch);
            var r := PatchLines(SplitLines(ebook[upto - 1].data), prev.next);
            PatchAll(ebook, upto, fetch)
            == ArchiveResult(prev.entries + Images(r.fetched, fetch) + [Entry(ebook[upto - 1].name, Concat(r.lines))],
                             r.next, prev.fetched + r.fetched)
  {
    var e := ebook[upto - 1];
    ZipReadUnique(ebook, upto - 1);
    assert ZipRead(ebook, e.name).value == e.data;
  }

  /** The document-free case of `CopiedEntry`, one entry further. */
  lemma CopyStep(ebook: seq<Entry>, upto: nat, fetch: string -> string)
    requires 0 < upto <= |ebook| && DistinctNames(ebook) && !IsDocument(ebook[upto - 1].name)
    requires PatchAll(ebook, upto - 1, fetch) == ArchiveResult(ebook[..upto - 1], 0, [])
    ensures PatchAll(ebook, upto, fetch) == ArchiveResult(ebook[..upto], 0, [])
  {
    CopiedEntry(ebook, upto, fetch);
    assert ebook[..upto] == ebook[..upto - 1] + [ebook[upto - 1]];
  }

  /** An archive with distinct names and no document among them is copied
      entry for entry, and nothing is downloaded. */
  lemma {:induction false} CopiedThrough(ebook: seq<Entry>, upto: nat, fetch: string -> string)
    requires upto <= |ebook| && DistinctNames(ebook)
    requires forall k :: 0 <= k < |ebook| ==> !IsDocument(ebook[k].name)
    ensures PatchAll(ebook, upto, fetch) == ArchiveResult(ebook[..upto], 0, [])
    decreases upto
  {
    if upto > 0 {
      CopiedThrough(ebook, upto - 1, fetch);
      CopyStep(ebook, upto, fetch);
    }
  }
}
