/** `prepandoc.py`: the filter a LaTeX book goes through before pandoc.
    Each input line is looked at once: an `\input{name}` line is replaced
    by the contents of `name.tex`, a `\label{...}` line by a space, an
    `\includegraphics{name.eps}}` line by an HTML `<img>` tag. Then three
    font commands are rewritten to the forms pandoc reads, and the result is
    printed. The file system is a map from file name to contents. */
module PrePandoc {
  import opened Text
  import opened Scanner

  // ---------------------------------------------------------------------
  // `checkinput` (lines 25-39)

  /** `\input{(\S+)}`; Python 2 reads the unknown escape `\i` as the letter
      `i`, so the pattern begins with the word itself. */
  const INPUT := Pattern(Atoms("input{"), NonSpace, "}")
  /** `\label{\S+}`. */
  const LABEL := Pattern(Atoms("label{"), NonSpace, "}")
  /** `\includegraphics{(\S+)\.eps}}`, the dot escaped. */
  const GRAPHICS := Pattern(Atoms("includegraphics{"), NonSpace, ".eps}}")

  /** `spitinput` (lines 15-23): the contents of `name.tex`, or nothing when
      the file cannot be read. */
  function SpitInput(name: string, files: map<string, string>): (r: Option<string>)
    ensures r.Some? <==> name + ".tex" in files
    ensures r.Some? ==> r.value == files[name + ".tex"]
  {
    if name + ".tex" in files then Some(files[name + ".tex"]) else None
  }

  /** Each leftmost greedy match of the three patterns is the one `Search`
      returns. */
  lemma CheckInputCases(s: string)
    ensures forall m :: IsLeftmostGreedy(INPUT, s, m) ==> Search(INPUT, s) == Some(m)
    ensures forall m :: IsLeftmostGreedy(GRAPHICS, s, m) ==> Search(GRAPHICS, s) == Some(m)
  {
    forall m | IsLeftmostGreedy(INPUT, s, m) ensures Search(INPUT, s) == Some(m) {
      assert MatchesAt(INPUT, s, m.start);
      LeftmostGreedyUnique(INPUT, s, m, Search(INPUT, s).value);
    }
    forall m | IsLeftmostGreedy(GRAPHICS, s, m) ensures Search(GRAPHICS, s) == Some(m) {
      assert MatchesAt(GRAPHICS, s, m.start);
      LeftmostGreedyUnique(GRAPHICS, s, m, Search(GRAPHICS, s).value);
    }
  }

  /** The `<img>` tag that stands for the figure `name.eps`. */
  function ImgTag(name: string): string {
    "<img src=\"" + name + ".png\">\n"
  }

  /** The text of a match's run, `mobj.groups()[0]`. */
  function Group(s: string, m: Match): string
    requires m.bodyStart <= m.bodyEnd <= |s|
  {
    s[m.bodyStart..m.bodyEnd]
  }

  /** `checkinput(s)`: the replacement for a directive line, or nothing.
      The first of the three patterns found in the line decides: an
      `input{` match asks for its file, else a `label{` match gives a space,
      else an `includegraphics{` match gives its tag. */
  function CheckInput(s: string, files: map<string, string>): (r: Option<string>)
    ensures forall m :: IsLeftmostGreedy(INPUT, s, m) ==> r == SpitInput(Group(s, m), files)
    ensures !HasMatch(INPUT, s) && HasMatch(LABEL, s) ==> r == Some(" ")
    ensures !HasMatch(INPUT, s) && !HasMatch(LABEL, s) ==>
              forall m :: IsLeftmostGreedy(GRAPHICS, s, m) ==> r == Some(ImgTag(Group(s, m)))
    ensures r.None? ==> HasMatch(INPUT, s) || (!HasMatch(LABEL, s) && !HasMatch(GRAPHICS, s))
    ensures !HasMatch(INPUT, s) && !HasMatch(LABEL, s) && !HasMatch(GRAPHICS, s) ==> r.None?
  {
    CheckInputCases(s);
    match Search(INPUT, s)
    case Some(m) => SpitInput(Group(s, m), files)
    case None =>
      if Search(LABEL, s).Some? then Some(" ")
      else
        match Search(GRAPHICS, s)
        case Some(m) => Some(ImgTag(Group(s, m)))
        case None => None
  }

  /** What `main` appends for one line (lines 59-63): the replacement when
      it is a non-empty string, the line itself when it is `None` or empty. */
  function FilterLine(line: string, files: map<string, string>): (r: string)
    ensures r == line || (CheckInput(line, files) == Some(r) && r != [])
    ensures CheckInput(line, files).None? ==> r == line
    ensures CheckInput(line, files).Some? && CheckInput(line, files).value != [] ==> r == CheckInput(line, files).value
  {
    var x := CheckInput(line, files);
    if x.Some? && x.value != [] then x.value else line
  }

  /** The three directive patterns all end their head with `{`. */
  lemma NoBraceNoDirective(s: string, files: map<string, string>)
    requires '{' !in s
    ensures CheckInput(s, files) == None && FilterLine(s, files) == s
  {
    NoHeadNoMatch("input{", NonSpace, "}", s);
    NoHeadNoMatch("label{", NonSpace, "}", s);
    NoHeadNoMatch("includegraphics{", NonSpace, ".eps}}", s);
  }

  /** A head whose only `{` is its last character. */
  predicate BraceHead(head: string) {
    head != [] && head[|head| - 1] == '{' && forall k :: 0 <= k < |head| - 1 ==> head[k] != '{'
  }

  /** The heads of the three patterns end at their only `{`; the tails `}`
      and `.eps}}` end a `\S+` run where they stand. */
  lemma PatternShapes()
    ensures BraceHead("input{") && BraceHead("label{") && BraceHead("includegraphics{")
    ensures TailStops("}") && TailStops(".eps}}")
  {
  }

  /** No match starts inside a `{`-free prefix. */
  lemma NoEarlyBrace(head: string, tail: string, pre: string, name: string, post: string)
    requires BraceHead(head) && '{' !in pre
    ensures forall p: nat :: p < |pre| ==> !MatchesAt(Pattern(Atoms(head), NonSpace, tail), AloneLine(head, tail, pre, name, post), p)
  {
    assert AloneLine(head, tail, pre, name, post) == pre + head + (name + tail + post);
    forall p: nat | p < |pre| ensures !MatchesAt(Pattern(Atoms(head), NonSpace, tail), pre + head + (name + tail + post), p) {
      NoEarlyHead(head, NonSpace, tail, pre, name + tail + post, p);
    }
  }

  /** Search finds a directive written alone as `pre head name tail post`
      when `pre` holds no `{`. */
  lemma DirectiveFound(head: string, tail: string, pre: string, name: string, post: string)
    requires BraceHead(head) && TailStops(tail)
    requires '{' !in pre && name != [] && NoSpaceIn(name)
    requires post == [] || IsSpace(post[0])
    ensures Search(Pattern(Atoms(head), NonSpace, tail), AloneLine(head, tail, pre, name, post))
            == Some(AloneAt(head, tail, pre, name))
    ensures Group(AloneLine(head, tail, pre, name, post), AloneAt(head, tail, pre, name)) == name
  {
    NoEarlyBrace(head, tail, pre, name, post);
    FoundAlone(head, tail, pre, name, post);
    AlonePieces(head, tail, pre, name, post);
  }

  /** `\input{name}` is replaced by the contents of `name.tex`, whatever
      else the line holds after it, and is kept as it stands when the file
      is missing or empty. */
  lemma InputLine(pre: string, name: string, post: string, files: map<string, string>)
    requires '{' !in pre && name != [] && NoSpaceIn(name)
    requires post == [] || IsSpace(post[0])
    ensures var line := pre + "input{" + name + "}" + post;
            CheckInput(line, files) == SpitInput(name, files)
            && FilterLine(line, files)
               == if name + ".tex" in files && files[name + ".tex"] != [] then files[name + ".tex"] else line
  {
    PatternShapes();
    DirectiveFound("input{", "}", pre, name, post);
  }

  /** A line with a label and no input directive becomes one space: its
      newline goes too. */
  lemma LabelLine(pre: string, x: string, post: string, files: map<string, string>)
    requires x != [] && NoSpaceIn(x)
    requires !HasMatch(INPUT, pre + "label{" + x + "}" + post)
    ensures CheckInput(pre + "label{" + x + "}" + post, files) == Some(" ")
    ensures FilterLine(pre + "label{" + x + "}" + post, files) == " "
  {
    AloneSpans("label{", "}", pre, x, post);
    assert MatchesAt(LABEL, AloneLine("label{", "}", pre, x, post), |pre|);
  }

  /** A figure line with neither an input nor a label directive becomes an
      `<img>` tag naming the PNG of the figure. */
  lemma GraphicsLine(pre: string, name: string, post: string, files: map<string, string>)
    requires '{' !in pre && name != [] && NoSpaceIn(name)
    requires post == [] || IsSpace(post[0])
    requires !HasMatch(INPUT, pre + "includegraphics{" + name + ".eps}}" + post)
    requires !HasMatch(LABEL, pre + "includegraphics{" + name + ".eps}}" + post)
    ensures CheckInput(pre + "includegraphics{" + name + ".eps}}" + post, files) == Some(ImgTag(name))
    ensures FilterLine(pre + "includegraphics{" + name + ".eps}}" + post, files) == ImgTag(name)
  {
    PatternShapes();
    DirectiveFound("includegraphics{", ".eps}}", pre, name, post);
  }

  // ---------------------------------------------------------------------
  // `findreplace` (lines 41-48)

  /** Python's `s[k:]`, empty when `k` is past the end. */
  function From(s: string, k: nat): (r: string)
    ensures |r| == if k <= |s| then |s| - k else 0
  {
    if k <= |s| then s[k..] else []
  }

  /** Pairs for which the loop of `findreplace` ends: the search resumes
      where the replacement was put, so no character of `repl` but its last
      may begin `fstr`, and `fstr` is long enough for the text after the
      match to shrink. */
  predicate SafePair(fstr: string, repl: string) {
    |fstr| >= 2 && repl != [] && forall k :: 0 <= k < |repl| - 1 ==> repl[k] != fstr[0]
  }

  /** What `findreplace(fstr, repl, s)` returns: the text before the first
      occurrence stays; the occurrence and the character after it give way
      to `repl`, all of whose characters but the last are final; the search
      goes on from that last character. */
  function Replaced(fstr: string, repl: string, s: string): string
    requires SafePair(fstr, repl)
    decreases |s|
  {
    var m := Find(fstr, s, 0);
    if m == -1 then s
    else
      s[..m] + repl[..|repl| - 1] + Replaced(fstr, repl, Rest(fstr, repl, s, m))
  }

  /** Where the search goes on after the occurrence at `m`: the last
      character of `repl`, then the text after the dropped character. */
  function Rest(fstr: string, repl: string, s: string, m: nat): (r: string)
    requires SafePair(fstr, repl) && OccursAt(fstr, s, m)
    ensures |r| < |s| - m
  {
    repl[|repl| - 1..] + From(s, m + |fstr| + 1)
  }

  /** Without an occurrence of `fstr`, `findreplace` changes nothing. */
  lemma ReplacedAbsent(fstr: string, repl: string, s: string)
    requires SafePair(fstr, repl) && forall j :: !OccursAt(fstr, s, j)
    ensures Replaced(fstr, repl, s) == s
  {
    FindSpec(fstr, s, 0);
    assert Find(fstr, s, 0) == -1;
  }

  /** The first occurrence at or after `from` is at `m`. */
  lemma FindIs(f: string, s: string, from: nat, m: nat)
    requires from <= m && OccursAt(f, s, m)
    requires forall j :: from <= j < m ==> !OccursAt(f, s, j)
    ensures Find(f, s, from) == m
  {
    var r := Find(f, s, from);
    FindSpec(f, s, from);
    assert r != -1;
    assert !(r < m) && !(m < r);
  }

  lemma OccursShift(f: string, x: string, y: string, j: nat)
    ensures OccursAt(f, x + y, |x| + j) <==> OccursAt(f, y, j)
  {
    if |x| + j + |f| <= |x + y| {
      assert (x + y)[|x| + j..|x| + j + |f|] == y[j..j + |f|];
    }
  }

  /** No occurrence starts in `x`. */
  predicate FreeFront(fstr: string, x: string, y: string) {
    forall j :: 0 <= j < |x| ==> !OccursAt(fstr, x + y, j)
  }

  /** Where the first occurrence in `x + y` lies when none starts in `x`. */
  lemma FindInJoin(fstr: string, x: string, y: string)
    requires FreeFront(fstr, x, y)
    ensures var m := Find(fstr, y, 0);
            if m == -1 then forall j :: !OccursAt(fstr, x + y, j)
            else Find(fstr, x + y, 0) == |x| + m && OccursAt(fstr, y, m)
  {
    var m := Find(fstr, y, 0);
    FindSpec(fstr, y, 0);
    if m == -1 {
      forall j ensures !OccursAt(fstr, x + y, j) {
        if j >= |x| {
          OccursShift(fstr, x, y, j - |x|);
        }
      }
    } else {
      forall j | |x| <= j < |x| + m ensures !OccursAt(fstr, x + y, j) {
        OccursShift(fstr, x, y, j - |x|);
      }
      OccursShift(fstr, x, y, m);
      FindIs(fstr, x + y, 0, |x| + m);
    }
  }

  lemma JoinPieces(fstr: string, repl: string, x: string, y: string, m: nat)
    requires SafePair(fstr, repl) && OccursAt(fstr, y, m)
    ensures OccursAt(fstr, x + y, |x| + m)
    ensures (x + y)[..|x| + m] == x + y[..m]
    ensures Rest(fstr, repl, x + y, |x| + m) == Rest(fstr, repl, y, m)
  {
    OccursShift(fstr, x, y, m);
    assert From(x + y, |x| + m + |fstr| + 1) == From(y, m + |fstr| + 1);
  }

  /** Verification aid: regrouping a concatenation, kept apart from the
      callers' reasoning about `Replaced`. */
  lemma Assoc(a: string, b: string, c: string, d: string)
    ensures a + (b + c + d) == a + b + c + d
  {
  }

  /** Text in which no occurrence starts is left alone, and the rest is
      rewritten as if on its own. */
  lemma ReplacedShift(fstr: string, repl: string, x: string, y: string)
    requires SafePair(fstr, repl) && FreeFront(fstr, x, y)
    ensures Replaced(fstr, repl, x + y) == x + Replaced(fstr, repl, y)
  {
    FindInJoin(fstr, x, y);
    if Find(fstr, y, 0) == -1 {
      ShiftNone(fstr, repl, x, y);
    } else {
      ShiftSome(fstr, repl, x, y, Find(fstr, y, 0));
    }
  }

  lemma ShiftNone(fstr: string, repl: string, x: string, y: string)
    requires SafePair(fstr, repl) && Find(fstr, y, 0) == -1
    requires forall j :: !OccursAt(fstr, x + y, j)
    ensures Replaced(fstr, repl, x + y) == x + Replaced(fstr, repl, y)
  {
    ReplacedAbsent(fstr, repl, x + y);
  }

  lemma ShiftSome(fstr: string, repl: string, x: string, y: string, m: nat)
    requires SafePair(fstr, repl) && Find(fstr, y, 0) == m && OccursAt(fstr, y, m)
    requires Find(fstr, x + y, 0) == |x| + m
    ensures Replaced(fstr, repl, x + y) == x + Replaced(fstr, repl, y)
  {
    JoinPieces(fstr, repl, x, y, m);
    Assoc(x, y[..m], repl[..|repl| - 1], Replaced(fstr, repl, Rest(fstr, repl, y, m)));
  }

  /** An occurrence at the very start is replaced first. */
  lemma ReplacedAtStart(fstr: string, repl: string, y: string)
    requires SafePair(fstr, repl) && OccursAt(fstr, y, 0)
    ensures Replaced(fstr, repl, y) == repl[..|repl| - 1] + Replaced(fstr, repl, Rest(fstr, repl, y, 0))
  {
    FindIs(fstr, y, 0, 0);
    NothingBefore(y, repl[..|repl| - 1]);
  }

  /** Verification aid: an empty prefix adds nothing (see `Assoc`). */
  lemma NothingBefore(y: string, x: string)
    ensures y[..0] + x == x
  {
  }

  /** No character of `repl` but the last begins an occurrence. */
  lemma ReplFrontFree(fstr: string, repl: string, d: string)
    requires SafePair(fstr, repl)
    ensures repl + d == repl[..|repl| - 1] + (repl[|repl| - 1..] + d)
    ensures FreeFront(fstr, repl[..|repl| - 1], repl[|repl| - 1..] + d)
  {
    var x := repl[..|repl| - 1];
    var y := repl[|repl| - 1..] + d;
    assert repl + d == x + y;
    forall j | 0 <= j < |x| ensures !OccursAt(fstr, x + y, j) {
      if j + |fstr| <= |x + y| {
        assert (x + y)[j..j + |fstr|][0] == repl[j];
      }
    }
  }

  /** The replacement text is final but for its last character. */
  lemma ReplFront(fstr: string, repl: string, d: string)
    requires SafePair(fstr, repl)
    ensures Replaced(fstr, repl, repl + d)
            == repl[..|repl| - 1] + Replaced(fstr, repl, repl[|repl| - 1..] + d)
  {
    ReplFrontFree(fstr, repl, d);
    ReplacedShift(fstr, repl, repl[..|repl| - 1], repl[|repl| - 1..] + d);
  }

  /** The strings one turn of the loop deals with. */
  lemma TurnPieces(fstr: string, repl: string, s: string, i: nat, m: nat, lo: nat)
    requires SafePair(fstr, repl)
    requires i <= lo <= |s| && i <= m && OccursAt(fstr, s, m)
    requires forall j :: i <= j < m ==> !OccursAt(fstr, s, j)
    ensures var s' := s[..m] + repl + From(s, m + |fstr| + 1);
            s[i..] == s[i..m] + s[m..] && FreeFront(fstr, s[i..m], s[m..])
            && OccursAt(fstr, s[m..], 0)
            && s'[..m] == s[..m] && s'[m..] == repl + From(s, m + |fstr| + 1)
            && Rest(fstr, repl, s[m..], 0) == repl[|repl| - 1..] + From(s, m + |fstr| + 1)
            && s[..i] + s[i..m] == s[..m]
            && (forall j :: m <= j < m + |repl| - 1 ==> !OccursAt(fstr, s', j))
            && m + |repl| - 1 <= |s'|
  {
    var s' := s[..m] + repl + From(s, m + |fstr| + 1);
    assert s[i..] == s[i..m] + s[m..];
    forall j | 0 <= j < |s[i..m]| ensures !OccursAt(fstr, s[i..m] + s[m..], j) {
      OccursShift(fstr, s[..i], s[i..], j);
      assert s[..i] + s[i..] == s;
    }
    assert s[m..][0..|fstr|] == s[m..m + |fstr|];
    assert From(s[m..], |fstr| + 1) == From(s, m + |fstr| + 1);
    forall j | m <= j < m + |repl| - 1 ensures !OccursAt(fstr, s', j) {
      if j + |fstr| <= |s'| {
        assert s'[j..j + |fstr|][0] == s'[j] == repl[j - m];
      }
    }
  }

  /** One turn of the loop of lines 43-47, against `Replaced`: the text
      before the match is final, and the search restarts at the match,
      where no occurrence starts before the last character of `repl`. */
  lemma FindReplaceTurn(fstr: string, repl: string, s0: string, s: string, i: nat, m: nat, lo: nat)
    requires SafePair(fstr, repl)
    requires i <= lo <= |s| && forall j :: i <= j < lo ==> !OccursAt(fstr, s, j)
    requires Find(fstr, s, i) == m
    requires Replaced(fstr, repl, s0) == s[..i] + Replaced(fstr, repl, s[i..])
    ensures var s' := s[..m] + repl + From(s, m + |fstr| + 1);
            Replaced(fstr, repl, s0) == s'[..m] + Replaced(fstr, repl, s'[m..])
            && m <= m + |repl| - 1 <= |s'|
            && (forall j :: m <= j < m + |repl| - 1 ==> !OccursAt(fstr, s', j))
            && |s'| - (m + |repl| - 1) < |s| - lo
  {
    FindSpec(fstr, s, i);
    TurnPieces(fstr, repl, s, i, m, lo);
    TurnEquation(fstr, repl, s0, s, i, m);
  }

  lemma TurnEquation(fstr: string, repl: string, s0: string, s: string, i: nat, m: nat)
    requires SafePair(fstr, repl)
    requires i <= m && OccursAt(fstr, s, m)
    requires forall j :: i <= j < m ==> !OccursAt(fstr, s, j)
    requires Replaced(fstr, repl, s0) == s[..i] + Replaced(fstr, repl, s[i..])
    ensures var s' := s[..m] + repl + From(s, m + |fstr| + 1);
            Replaced(fstr, repl, s0) == s'[..m] + Replaced(fstr, repl, s'[m..])
  {
    var d := From(s, m + |fstr| + 1);
    var front := repl[..|repl| - 1];
    TurnPieces(fstr, repl, s, i, m, m);
    ReplacedShift(fstr, repl, s[i..m], s[m..]);
    ReplacedAtStart(fstr, repl, s[m..]);
    ReplFront(fstr, repl, d);
    Assoc3(s[..i], s[i..m], front + Replaced(fstr, repl, repl[|repl| - 1..] + d));
  }

  /** Verification aid: regrouping a concatenation (see `Assoc`). */
  lemma Assoc3(a: string, b: string, c: string)
    ensures a + (b + c) == (a + b) + c
  {
  }

  /** `findreplace(fstr, repl, fullstr)`, the loop of lines 41-48. */
  method FindReplace(fstr: string, repl: string, fullstr0: string) returns (fullstr: string)
    requires SafePair(fstr, repl)
    ensures fullstr == Replaced(fstr, repl, fullstr0)
  {
    fullstr := fullstr0;
    var i: int := 0;
    ghost var lo: nat := 0;
    FindReplaceStart(fstr, repl, fullstr0);
    while true
      invariant 0 <= i <= lo <= |fullstr|
      invariant forall j :: i <= j < lo ==> !OccursAt(fstr, fullstr, j)
      invariant Replaced(fstr, repl, fullstr0) == fullstr[..i] + Replaced(fstr, repl, fullstr[i..])
      decreases |fullstr| - lo
    {
      ghost var from := i;
      i := Find(fstr, fullstr, i);
      if i == -1 {
        FindReplaceDone(fstr, repl, fullstr0, fullstr, from);
        break;
      }
      FindReplaceTurn(fstr, repl, fullstr0, fullstr, from, i, lo);
      fullstr := fullstr[..i] + repl + From(fullstr, i + |fstr| + 1);
      lo := i + |repl| - 1;
    }
  }

  lemma FindReplaceStart(fstr: string, repl: string, s: string)
    requires SafePair(fstr, repl)
    ensures Replaced(fstr, repl, s) == s[..0] + Replaced(fstr, repl, s[0..])
  {
    assert s[0..] == s;
    NothingBefore(s, Replaced(fstr, repl, s));
  }

  lemma NoneAfter(fstr: string, s: string, i: nat)
    requires i <= |s| && Find(fstr, s, i) == -1
    ensures forall j :: !OccursAt(fstr, s[i..], j)
    ensures s[..i] + s[i..] == s
  {
    FindSpec(fstr, s, i);
    forall j ensures !OccursAt(fstr, s[i..], j) {
      if j >= 0 {
        OccursShift(fstr, s[..i], s[i..], j);
        assert s[..i] + s[i..] == s;
      }
    }
  }

  /** The search from `i` finds nothing: the text is final. */
  lemma FindReplaceDone(fstr: string, repl: string, s0: string, s: string, i: nat)
    requires SafePair(fstr, repl) && i <= |s|
    requires Find(fstr, s, i) == -1
    requires Replaced(fstr, repl, s0) == s[..i] + Replaced(fstr, repl, s[i..])
    ensures Replaced(fstr, repl, s0) == s
  {
    NoneAfter(fstr, s, i);
    ReplacedAbsent(fstr, repl, s[i..]);
  }

  // ---------------------------------------------------------------------
  // What `findreplace` leaves behind

  /** Pairs after which no occurrence of `fstr` is left: besides `SafePair`,
      no end of `fstr` is a beginning of `repl`, so no occurrence straddles
      the text before a match and its replacement. */
  predicate CleanPair(fstr: string, repl: string) {
    SafePair(fstr, repl) && |fstr| <= |repl|
    && forall d :: 0 < d < |fstr| ==> fstr[d..] != repl[..|fstr| - d]
  }

  /** An occurrence within `a` alone. */
  lemma CleanBefore(fstr: string, a: string, rest: string, j: nat)
    requires j + |fstr| <= |a| && !OccursAt(fstr, a, j)
    ensures !OccursAt(fstr, a + rest, j)
  {
    assert (a + rest)[j..j + |fstr|] == a[j..j + |fstr|];
  }

  /** An occurrence that starts in `a` and ends in the replacement. */
  lemma CleanStraddle(fstr: string, repl: string, a: string, t: string, j: nat)
    requires CleanPair(fstr, repl)
    requires j < |a| < j + |fstr|
    ensures !OccursAt(fstr, a + repl[..|repl| - 1] + t, j)
  {
    var line := a + repl[..|repl| - 1] + t;
    var d := |a| - j;
    if j + |fstr| <= |line| {
      assert line[j..j + |fstr|][d..] == repl[..|fstr| - d];
    }
  }

  /** An occurrence that starts inside the replacement. */
  lemma CleanInRepl(fstr: string, repl: string, a: string, t: string, j: nat)
    requires SafePair(fstr, repl)
    requires |a| <= j < |a| + |repl| - 1
    ensures !OccursAt(fstr, a + repl[..|repl| - 1] + t, j)
  {
    var line := a + repl[..|repl| - 1] + t;
    if j + |fstr| <= |line| {
      assert line[j..j + |fstr|][0] == line[j] == repl[j - |a|];
    }
  }

  /** An occurrence within the text rewritten afterwards. */
  lemma CleanAfter(fstr: string, front: string, t: string, j: nat)
    requires |front| <= j && !OccursAt(fstr, t, j - |front|)
    ensures !OccursAt(fstr, front + t, j)
  {
    if j + |fstr| <= |front + t| {
      assert (front + t)[j..j + |fstr|] == t[j - |front|..j - |front| + |fstr|];
    }
  }

  /** Text free of `fstr`, the replacement but its last character, and
      text free of `fstr`: together still free of `fstr`. */
  lemma CleanJoin(fstr: string, repl: string, a: string, t: string, line: string)
    requires CleanPair(fstr, repl) && line == a + repl[..|repl| - 1] + t
    requires forall j :: !OccursAt(fstr, a, j)
    requires forall j :: !OccursAt(fstr, t, j)
    ensures forall j :: !OccursAt(fstr, line, j)
  {
    var front := repl[..|repl| - 1];
    assert a + front + t == a + (front + t);
    forall j: nat ensures !OccursAt(fstr, line, j) {
      if j + |fstr| <= |a| {
        CleanBefore(fstr, a, front + t, j);
      } else if j < |a| {
        CleanStraddle(fstr, repl, a, t, j);
      } else if j < |a| + |front| {
        CleanInRepl(fstr, repl, a, t, j);
      } else {
        CleanAfter(fstr, front, t, j - |a|);
      }
    }
  }

  /** The text before the first occurrence holds none. */
  lemma FreeBefore(fstr: string, s: string, m: nat)
    requires fstr != [] && m <= |s| && forall j :: 0 <= j < m ==> !OccursAt(fstr, s, j)
    ensures forall j :: !OccursAt(fstr, s[..m], j)
  {
    forall j | 0 <= j && j + |fstr| <= m ensures !OccursAt(fstr, s[..m], j) {
      assert !OccursAt(fstr, s, j);
      assert s[..m][j..j + |fstr|] == s[j..j + |fstr|];
    }
  }

  /** For a `CleanPair`, `findreplace` leaves no occurrence of `fstr`. */
  lemma {:induction false} ReplacedClean(fstr: string, repl: string, s: string)
    requires CleanPair(fstr, repl)
    ensures forall j :: !OccursAt(fstr, Replaced(fstr, repl, s), j)
    decreases |s|
  {
    var m := Find(fstr, s, 0);
    FindSpec(fstr, s, 0);
    if m != -1 {
      var t := Rest(fstr, repl, s, m);
      ReplacedClean(fstr, repl, t);
      FreeBefore(fstr, s, m);
      CleanJoin(fstr, repl, s[..m], Replaced(fstr, repl, t), Replaced(fstr, repl, s));
    }
  }

  // ---------------------------------------------------------------------
  // `cleanotherstuff` (lines 50-54)

  const BF := "{\\bf"
  const TEXTBF := "\\textbf{"
  const TT := "{\\tt"
  const TEXTTT := "\\texttt{"
  const EM := "{\\em"
  const TEXTIT := "\\textit{"

  /** The three pairs `cleanotherstuff` uses are clean: the loop ends, and
      each pass leaves none of its command behind. */
  lemma PairsClean()
    ensures CleanPair(BF, TEXTBF) && CleanPair(TT, TEXTTT) && CleanPair(EM, TEXTIT)
  {
    assert TEXTBF[..3] == "\\te" && TEXTBF[..2] == "\\t" && TEXTBF[..1] == "\\";
    assert TEXTTT[..3] == "\\te" && TEXTTT[..2] == "\\t" && TEXTTT[..1] == "\\";
    assert TEXTIT[..3] == "\\te" && TEXTIT[..2] == "\\t" && TEXTIT[..1] == "\\";
  }

  /** What `cleanotherstuff(s)` returns. */
  function Cleaned(s: string): string {
    PairsClean();
    Replaced(EM, TEXTIT, Replaced(TT, TEXTTT, Replaced(BF, TEXTBF, s)))
  }

  /** `cleanotherstuff(s)`: the three passes, `{\bf`, then `{\tt`, then
      `{\em`. */
  method CleanOtherStuff(s0: string) returns (s: string)
    ensures s == Cleaned(s0)
  {
    PairsClean();
    s := FindReplace(BF, TEXTBF, s0);
    s := FindReplace(TT, TEXTTT, s);
    s := FindReplace(EM, TEXTIT, s);
  }

  /** The last pass leaves no `{\em`; text without `{` goes through untouched. */
  lemma CleanedSpec(s: string)
    ensures forall j :: !OccursAt(EM, Cleaned(s), j)
    ensures '{' !in s ==> Cleaned(s) == s
  {
    PairsClean();
    ReplacedClean(EM, TEXTIT, Replaced(TT, TEXTTT, Replaced(BF, TEXTBF, s)));
    if '{' !in s {
      NoBraceAbsent(BF, s);
      ReplacedAbsent(BF, TEXTBF, s);
      NoBraceAbsent(TT, s);
      ReplacedAbsent(TT, TEXTTT, s);
      NoBraceAbsent(EM, s);
      ReplacedAbsent(EM, TEXTIT, s);
    }
  }

  /** Each font command is rewritten by its own pass, which leaves none
      of it behind. */
  lemma PassesClean(s: string)
    ensures forall j :: !OccursAt(BF, Replaced(BF, TEXTBF, s), j)
    ensures forall j :: !OccursAt(TT, Replaced(TT, TEXTTT, s), j)
  {
    PairsClean();
    ReplacedClean(BF, TEXTBF, s);
    ReplacedClean(TT, TEXTTT, s);
  }

  /** A string that begins with `{` occurs nowhere in text without `{`. */
  lemma NoBraceAbsent(f: string, s: string)
    requires f != [] && f[0] == '{' && '{' !in s
    ensures forall j :: !OccursAt(f, s, j)
  {
    forall j | 0 <= j && j + |f| <= |s| ensures !OccursAt(f, s, j) {
      assert s[j..j + |f|][0] == s[j];
    }
  }

  /** `{\bf foo}` becomes `\textbf{foo}`: the space after the command is the
      character dropped with it. */
  lemma BoldExample()
    ensures Replaced(BF, TEXTBF, "{\\bf foo}") == "\\textbf{foo}"
  {
    PairsClean();
    BoldFirst();
    BoldRest();
    assert TEXTBF[..7] + "{foo}" == "\\textbf{foo}";
  }

  lemma BoldFirst()
    ensures SafePair(BF, TEXTBF) && OccursAt(BF, "{\\bf foo}", 0)
    ensures Rest(BF, TEXTBF, "{\\bf foo}", 0) == "{foo}"
  {
    PairsClean();
    assert "{\\bf foo}"[0..4] == BF;
    assert From("{\\bf foo}", 5) == "foo}";
  }

  lemma BoldRest()
    ensures SafePair(BF, TEXTBF) && Replaced(BF, TEXTBF, "{foo}") == "{foo}"
  {
    PairsClean();
    forall j ensures !OccursAt(BF, "{foo}", j) {
      if 0 <= j && j + 4 <= 5 {
        assert "{foo}"[j..j + 4][1] != BF[1];
      }
    }
    ReplacedAbsent(BF, TEXTBF, "{foo}");
  }

  // ---------------------------------------------------------------------
  // `main` (lines 56-65)

  /** What the loop of lines 58-63 has gathered after `lines`. */
  function Gathered(lines: seq<string>, files: map<string, string>): string {
    if lines == [] then []
    else Gathered(lines[..|lines| - 1], files) + FilterLine(lines[|lines| - 1], files)
  }

  /** `main`: every line of standard input, replaced when it is a directive,
      then `cleanotherstuff`, then `print`, which adds a newline. */
  method Run(input: string, files: map<string, string>) returns (output: string)
    ensures output == Cleaned(Gathered(SplitLines(input), files)) + "\n"
  {
    var lines := SplitLines(input);
    var inptext := "";
    for i := 0 to |lines|
      invariant inptext == Gathered(lines[..i], files)
    {
      var x := CheckInput(lines[i], files);
      if x.Some? && x.value != [] {
        inptext := inptext + x.value;
      } else {
        inptext := inptext + lines[i];
      }
      GatheredStep(lines, i, files);
    }
    GatheredAll(lines, files);
    inptext := CleanOtherStuff(inptext);
    output := inptext + "\n";
  }

  lemma GatheredStep(lines: seq<string>, i: nat, files: map<string, string>)
    requires i < |lines|
    ensures Gathered(lines[..i + 1], files) == Gathered(lines[..i], files) + FilterLine(lines[i], files)
  {
    assert lines[..i + 1][..i] == lines[..i];
  }

  lemma GatheredAll(lines: seq<string>, files: map<string, string>)
    ensures Gathered(lines[..|lines|], files) == Gathered(lines, files)
  {
    assert lines[..|lines|] == lines;
  }

  /** Lines with no directive are gathered as they stand. */
  lemma {:induction false} GatheredPlain(lines: seq<string>, files: map<string, string>)
    requires forall i :: 0 <= i < |lines| ==> '{' !in lines[i]
    ensures Gathered(lines, files) == Concat(lines)
    decreases |lines|
  {
    if lines != [] {
      GatheredPlain(lines[..|lines| - 1], files);
      NoBraceNoDirective(lines[|lines| - 1], files);
    }
  }

  /** Input without a `{` is printed as it came in. */
  lemma PlainInput(input: string, files: map<string, string>)
    requires '{' !in input
    ensures Cleaned(Gathered(SplitLines(input), files)) + "\n" == input + "\n"
  {
    var lines := SplitLines(input);
    forall i | 0 <= i < |lines| ensures '{' !in lines[i] {
      ConcatLacks(lines, i, '{');
    }
    GatheredPlain(lines, files);
    CleanedSpec(input);
  }
}
