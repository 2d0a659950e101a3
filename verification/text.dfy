/** Character-level helpers the three scripts share: Python 2's whitespace,
    `str.find` and `in`, `str.strip`, iteration over the lines of a file,
    and the `%02d` formatting of sequence numbers. */
module Text {

  datatype Option<T> = None | Some(value: T)

  /** Python 2's whitespace (`str.strip()`, regex `\s`): space, tab, newline,
      vertical tab, form feed and carriage return. */
  predicate IsSpace(c: char) {
    c == ' ' || '\t' <= c <= '\r'
  }

  predicate IsDigit(c: char) {
    '0' as int <= c as int <= '9' as int
  }

  // ---------------------------------------------------------------------
  // `str.find(sub, start)` and `sub in s`

  /** `f` occurs in `s` starting at index `j`. */
  predicate OccursAt(f: string, s: string, j: int) {
    0 <= j && j + |f| <= |s| && s[j..j + |f|] == f
  }

  /** Python's `s.find(f, from)`: the least index at or after `from` where
      `f` occurs, or -1 when there is none. */
  function Find(f: string, s: string, from: nat): (r: int)
    ensures r == -1 || (from <= r && OccursAt(f, s, r))
    decreases |s| - from
  {
    if from + |f| > |s| then -1
    else if s[from..from + |f|] == f then from
    else Find(f, s, from + 1)
  }

  /** `find` reports the first occurrence at or after `from`, and -1 only
      when there is none. */
  lemma {:induction false} FindSpec(f: string, s: string, from: nat)
    ensures Find(f, s, from) == -1 ==> forall j :: from <= j ==> !OccursAt(f, s, j)
    ensures Find(f, s, from) != -1 ==> forall j :: from <= j < Find(f, s, from) ==> !OccursAt(f, s, j)
    decreases |s| - from
  {
    if from + |f| <= |s| && s[from..from + |f|] != f {
      FindSpec(f, s, from + 1);
    }
  }

  /** Python's `sub in s`. */
  predicate Contains(s: string, sub: string)
    ensures Contains(s, sub) <==> exists j :: OccursAt(sub, s, j)
  {
    FindSpec(sub, s, 0);
    Find(sub, s, 0) != -1
  }

  /** Python's `s.replace(pat, rep)`: every occurrence of `pat`, found
      from left to right without overlapping, replaced by `rep`. */
  function Replace(s: string, pat: string, rep: string): string
    requires pat != []
    decreases |s|
  {
    if s == [] then []
    else if |pat| <= |s| && s[..|pat|] == pat then rep + Replace(s[|pat|..], pat, rep)
    else [s[0]] + Replace(s[1..], pat, rep)
  }

  /** Without an occurrence of `pat`, `replace` changes nothing. */
  lemma {:induction false} ReplaceAbsent(s: string, pat: string, rep: string)
    requires pat != [] && forall j :: !OccursAt(pat, s, j)
    ensures Replace(s, pat, rep) == s
    decreases |s|
  {
    if s != [] {
      assert !OccursAt(pat, s, 0);
      forall j ensures !OccursAt(pat, s[1..], j) {
        if 0 <= j && j + |pat| <= |s| - 1 {
          assert s[1..][j..j + |pat|] == s[j + 1..j + 1 + |pat|];
          assert !OccursAt(pat, s, j + 1);
        }
      }
      ReplaceAbsent(s[1..], pat, rep);
    }
  }

  /** Replacing a single character distributes over concatenation. */
  lemma {:induction false} ReplaceCharConcat(a: string, b: string, c: char, rep: string)
    ensures Replace(a + b, [c], rep) == Replace(a, [c], rep) + Replace(b, [c], rep)
    decreases |a|
  {
    if a == [] {
      assert a + b == b;
    } else {
      var ab := a + b;
      assert ab[1..] == a[1..] + b;
      assert ab[..1] == a[..1];
      ReplaceCharConcat(a[1..], b, c, rep);
      var head := if a[..1] == [c] then rep else a[..1];
      assert Replace(a, [c], rep) == head + Replace(a[1..], [c], rep);
      assert Replace(ab, [c], rep) == head + Replace(ab[1..], [c], rep);
    }
  }

  // ---------------------------------------------------------------------
  // `str.strip()`

  function LStrip(s: string): (r: string)
    ensures |r| <= |s| && r == s[|s| - |r|..]
    ensures forall k :: 0 <= k < |s| - |r| ==> IsSpace(s[k])
    ensures r == [] || !IsSpace(r[0])
    decreases |s|
  {
    if |s| > 0 && IsSpace(s[0]) then LStrip(s[1..]) else s
  }

  function RStrip(s: string): (r: string)
    ensures |r| <= |s| && r == s[..|r|]
    ensures forall k :: |r| <= k < |s| ==> IsSpace(s[k])
    ensures r == [] || !IsSpace(r[|r| - 1])
    decreases |s|
  {
    if |s| > 0 && IsSpace(s[|s| - 1]) then RStrip(s[..|s| - 1]) else s
  }

  /** `r` is `s` from index `a` on, with only whitespace cut off either end. */
  ghost predicate TrimmedAt(s: string, r: string, a: nat) {
    a + |r| <= |s| && r == s[a..a + |r|]
    && (forall k :: 0 <= k < a ==> IsSpace(s[k]))
    && (forall k :: a + |r| <= k < |s| ==> IsSpace(s[k]))
  }

  /** A slice of a slice is a slice of the whole. */
  lemma SliceOfSlice(s: string, a: nat, b: nat, i: nat, j: nat)
    requires a <= b <= |s| && i <= j <= b - a
    ensures s[a..b][i..j] == s[a + i..a + j]
  {
    forall k | 0 <= k < j - i ensures s[a..b][i..j][k] == s[a + i..a + j][k] {
    }
  }

  /** Whitespace cut off the front of `s` and then off the back of what is
      left leaves `s` trimmed. */
  lemma TrimmedFrom(s: string, l: string, r: string, a: nat)
    requires a <= |s| && l == s[a..] && forall k :: 0 <= k < a ==> IsSpace(s[k])
    requires |r| <= |l| && r == l[..|r|] && forall k :: |r| <= k < |l| ==> IsSpace(l[k])
    ensures TrimmedAt(s, r, a)
  {
    assert r == s[a..a + |r|];
    forall k | a + |r| <= k < |s| ensures IsSpace(s[k]) {
      assert s[k] == l[k - a];
    }
  }

  /** Python's `s.strip()`: `s` without its leading and trailing whitespace. */
  function Strip(s: string): (r: string)
    ensures exists a: nat :: TrimmedAt(s, r, a)
    ensures r == [] || (!IsSpace(r[0]) && !IsSpace(r[|r| - 1]))
  {
    var l := LStrip(s);
    var r := RStrip(l);
    TrimmedFrom(s, l, r, |s| - |l|);
    r
  }

  // ---------------------------------------------------------------------
  // Counting one character

  /** The number of occurrences of `c` in `s`. */
  function Count(c: char, s: string): nat {
    if s == [] then 0 else Count(c, s[..|s| - 1]) + (if s[|s| - 1] == c then 1 else 0)
  }

  lemma {:induction false} CountConcat(c: char, x: string, y: string)
    ensures Count(c, x + y) == Count(c, x) + Count(c, y)
    decreases |y|
  {
    if y == [] {
      assert x + y == x;
    } else {
      CountConcat(c, x, y[..|y| - 1]);
      assert (x + y)[..|x + y| - 1] == x + y[..|y| - 1];
    }
  }

  /** `c` is counted zero times exactly when it does not occur. */
  lemma {:induction false} NoCount(c: char, s: string)
    ensures Count(c, s) == 0 <==> c !in s
    decreases |s|
  {
    if s != [] {
      NoCount(c, s[..|s| - 1]);
      assert s == s[..|s| - 1] + [s[|s| - 1]];
    }
  }

  lemma CountAppend(c: char, x: string, y: string, z: string)
    ensures Count(c, x + y + z) == Count(c, x) + Count(c, y) + Count(c, z)
  {
    CountConcat(c, x + y, z);
    CountConcat(c, x, y);
  }

  /** The occurrences in `s` are those of its three pieces cut at `i` and `j`. */
  lemma CountSplit(c: char, s: string, i: nat, j: nat)
    requires i <= j <= |s|
    ensures Count(c, s) == Count(c, s[..i]) + Count(c, s[i..j]) + Count(c, s[j..])
  {
    assert s == s[..i] + s[i..j] + s[j..];
    CountAppend(c, s[..i], s[i..j], s[j..]);
  }

  /** Two occurrences of `c`, at `i` and at `j`, count at least twice. */
  lemma CountTwo(c: char, s: string, i: nat, j: nat)
    requires i < j < |s| && s[i] == c && s[j] == c
    ensures Count(c, s) >= 2
  {
    CountSplit(c, s, i, j);
    assert s[i..j][0] == c && s[j..][0] == c;
    NoCount(c, s[i..j]);
    NoCount(c, s[j..]);
  }

  /** Replacing `s[a..e]` by `t` trades the occurrences in the one for
      those in the other. */
  lemma CountSplice(c: char, s: string, a: nat, e: nat, t: string)
    requires a <= e <= |s|
    ensures Count(c, s[..a] + t + s[e..]) + Count(c, s[a..e]) == Count(c, s) + Count(c, t)
  {
    CountSplit(c, s, a, e);
    CountAppend(c, s[..a], t, s[e..]);
  }

  // ---------------------------------------------------------------------
  // The lines of a file, as Python's `for line in f` yields them

  /** The lines joined back together, in order. */
  function Concat(ls: seq<string>): string {
    if ls == [] then [] else Concat(ls[..|ls| - 1]) + ls[|ls| - 1]
  }

  /** A character missing from the concatenation is missing from each string. */
  lemma {:induction false} ConcatLacks(ls: seq<string>, i: nat, c: char)
    requires i < |ls| && c !in Concat(ls)
    ensures c !in ls[i]
    decreases |ls|
  {
    if i < |ls| - 1 {
      ConcatLacks(ls[..|ls| - 1], i, c);
    }
  }

  lemma {:induction false} ConcatCons(a: string, ls: seq<string>)
    ensures Concat([a] + ls) == a + Concat(ls)
    decreases |ls|
  {
    if ls == [] {
      assert [a] + ls == [a];
      assert Concat([a]) == Concat([]) + a;
    } else {
      var n := |ls|;
      assert ([a] + ls)[..n] == [a] + ls[..n - 1];
      ConcatCons(a, ls[..n - 1]);
    }
  }

  /** The length of the first line of `s`: up to and including its first
      newline, or all of `s` when it has none. */
  function LineLength(s: string): (n: nat)
    requires s != []
    ensures 0 < n <= |s|
    ensures forall k :: 0 <= k < n - 1 ==> s[k] != '\n'
    ensures n < |s| ==> s[n - 1] == '\n'
    decreases |s|
  {
    if s[0] == '\n' || |s| == 1 then 1 else 1 + LineLength(s[1..])
  }

  /** `s` cut into lines: each ends just after a newline, except possibly the
      last; joined back together they give `s` again. */
  function SplitLines(s: string): (ls: seq<string>)
    ensures Concat(ls) == s
    ensures forall i :: 0 <= i < |ls| ==> ls[i] != [] && forall k :: 0 <= k < |ls[i]| - 1 ==> ls[i][k] != '\n'
    ensures forall i :: 0 <= i < |ls| - 1 ==> ls[i][|ls[i]| - 1] == '\n'
    decreases |s|
  {
    if s == [] then []
    else
      var n := LineLength(s);
      var rest := SplitLines(s[n..]);
      SplitLinesStep(s, n, rest);
      [s[..n]] + rest
  }

  lemma SplitLinesStep(s: string, n: nat, rest: seq<string>)
    requires n <= |s| && Concat(rest) == s[n..]
    ensures Concat([s[..n]] + rest) == s
  {
    ConcatCons(s[..n], rest);
    assert s == s[..n] + s[n..];
  }

  // ---------------------------------------------------------------------
  // `"%02d" % n`

  function DigitChar(d: nat): (c: char)
    requires d < 10
    ensures IsDigit(c) && DigitValue(c) == d
  {
    ('0' as int + d) as char
  }

  /** The value of a string of decimal digits (leading zeros allowed). */
  function DigitsValue(s: string): nat
    requires forall k :: 0 <= k < |s| ==> IsDigit(s[k])
  {
    if s == [] then 0 else DigitsValue(s[..|s| - 1]) * 10 + DigitValue(s[|s| - 1])
  }

  function DigitValue(c: char): (d: nat)
    requires IsDigit(c)
    ensures d < 10
  {
    c as int - '0' as int
  }

  /** `n` in decimal, without leading zeros. */
  function Decimal(n: nat): (r: string)
    ensures |r| >= 1 && forall k :: 0 <= k < |r| ==> IsDigit(r[k])
    ensures n >= 10 ==> |r| >= 2
    ensures n > 0 ==> r[0] != '0'
    decreases n
  {
    if n < 10 then [DigitChar(n)] else Decimal(n / 10) + [DigitChar(n % 10)]
  }

  lemma {:induction false} DecimalValue(n: nat)
    ensures DigitsValue(Decimal(n)) == n
    decreases n
  {
    if n >= 10 {
      DecimalValue(n / 10);
      var d := Decimal(n);
      assert d[..|d| - 1] == Decimal(n / 10);
    }
  }

  /** Python's `"%02d" % n`: decimal digits of `n`, padded with zeros to at
      least two characters; reading the digits back gives `n`, so different
      numbers never share a formatted name. */
  function Format02(n: nat): (r: string)
    ensures |r| >= 2 && forall k :: 0 <= k < |r| ==> IsDigit(r[k])
    ensures DigitsValue(r) == n
    ensures n < 10 ==> |r| == 2 && r[0] == '0'
    ensures n >= 10 ==> r[0] != '0'
  {
    if n < 10 then
      var r := ['0', DigitChar(n)];
      assert r[..1] == ['0'] && ['0'][..0] == [];
      assert DigitsValue(['0']) == 0;
      r
    else
      DecimalValue(n);
      var r := Decimal(n);
      r
  }
}
