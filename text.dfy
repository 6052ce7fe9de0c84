/** The parts of Python's `str` that the parsing of `git diff --name-only`
    output uses: `str.isspace`, `str.strip` and `str.splitlines`, and the list
    comprehension that turns the output into diff entries. */
module Text {
  import opened Common

  /** `c.isspace()`: the characters `str.strip()` removes. */
  predicate IsSpace(c: char) {
    var n := c as int;
    (0x09 <= n <= 0x0D) || (0x1C <= n <= 0x20) || n == 0x85 || n == 0xA0 ||
    n == 0x1680 || (0x2000 <= n <= 0x200A) || n == 0x2028 || n == 0x2029 ||
    n == 0x202F || n == 0x205F || n == 0x3000
  }

  /** The characters at which `str.splitlines` ends a line (`\r\n` counts as
      one break). Every one of them is also white space. */
  predicate IsLineBreak(c: char) {
    var n := c as int;
    (0x0A <= n <= 0x0D) || (0x1C <= n <= 0x1E) || n == 0x85 || n == 0x2028 || n == 0x2029
  }

  predicate AllSpace(s: string) {
    forall i :: 0 <= i < |s| ==> IsSpace(s[i])
  }

  predicate NoBreak(s: string) {
    forall c :: c in s ==> !IsLineBreak(c)
  }

  // ---------------------------------------------------------------------------
  // str.strip

  /** `s.lstrip()`: the suffix left after the longest all-space prefix. */
  function LStrip(s: string): (r: string)
    ensures |r| <= |s| && r == s[|s| - |r|..]
    ensures AllSpace(s[..|s| - |r|])
    ensures r == [] || !IsSpace(r[0])
    decreases |s|
  {
    if s != [] && IsSpace(s[0]) then
      var r := LStrip(s[1..]);
      assert s[..|s| - |r|] == [s[0]] + s[1..][..|s| - 1 - |r|];
      r
    else s
  }

  /** `s.rstrip()`: the prefix left after the longest all-space suffix. */
  function RStrip(s: string): (r: string)
    ensures |r| <= |s| && r == s[..|r|]
    ensures AllSpace(s[|r|..])
    ensures r == [] || !IsSpace(r[|r| - 1])
    decreases |s|
  {
    if s != [] && IsSpace(s[|s| - 1]) then
      var r := RStrip(s[..|s| - 1]);
      assert s[|r|..] == s[..|s| - 1][|r|..] + [s[|s| - 1]];
      r
    else s
  }

  /** `s.strip()`: the part of `s` between an all-space prefix and an
      all-space suffix that neither starts nor ends with white space; empty
      exactly when `s` is all white space. */
  function Strip(s: string): (r: string)
    ensures r == "" <==> AllSpace(s)
    ensures r != "" ==> !IsSpace(r[0]) && !IsSpace(r[|r| - 1])
    ensures forall c :: c in r ==> c in s
  {
    StripBlank(s);
    RStrip(LStrip(s))
  }

  /** `strip()` cuts off an all-space prefix and an all-space suffix and
      nothing else. */
  lemma StripIsMiddle(s: string)
    ensures exists i, j :: 0 <= i <= j <= |s| && Strip(s) == s[i..j] &&
                           AllSpace(s[..i]) && AllSpace(s[j..])
  {
    var l := LStrip(s);
    var r := RStrip(l);
    var i := |s| - |l|;
    assert s[i..] == l;
    assert s[i..i + |r|] == r;
    assert s[i + |r|..] == l[|r|..];
  }

  /** Stripping leaves nothing exactly when there was only white space. */
  lemma StripBlank(s: string)
    ensures RStrip(LStrip(s)) == "" <==> AllSpace(s)
  {
    var l := LStrip(s);
    var r := RStrip(l);
    var i := |s| - |l|;
    assert s[i..] == l;
    if r == "" {
      forall k | 0 <= k < |s| ensures IsSpace(s[k]) {
        if k >= i { assert s[k] == l[k - i]; }
        else { assert s[k] == s[..i][k]; }
      }
    }
  }

  // ---------------------------------------------------------------------------
  // str.splitlines

  /** `splitlines` from the middle of a line: `cur` holds the characters of
      the line read so far. A final line without a break is kept; no empty
      line follows a final break. */
  function LinesFrom(s: string, cur: string): (ls: seq<string>)
    ensures NoBreak(cur) ==> forall l :: l in ls ==> NoBreak(l)
    decreases |s|
  {
    if s == [] then (if cur == [] then [] else [cur])
    else if s[0] == '\r' && |s| > 1 && s[1] == '\n' then [cur] + LinesFrom(s[2..], [])
    else if IsLineBreak(s[0]) then [cur] + LinesFrom(s[1..], [])
    else LinesFrom(s[1..], cur + [s[0]])
  }

  /** `s.splitlines()`: the lines of `s`, without their breaks. */
  function SplitLines(s: string): (ls: seq<string>)
    ensures forall l :: l in ls ==> NoBreak(l)
  {
    LinesFrom(s, [])
  }

  /** The characters of `s` that are not line breaks, in order. */
  function RemoveBreaks(s: string): (r: string)
    ensures forall c :: c in r ==> c in s && !IsLineBreak(c)
    ensures forall c :: c in s && !IsLineBreak(c) ==> c in r
    decreases |s|
  {
    if s == [] then []
    else (if IsLineBreak(s[0]) then [] else [s[0]]) + RemoveBreaks(s[1..])
  }

  /** A text without breaks is left as it is. */
  lemma {:induction false} RemoveBreaksNone(s: string)
    requires NoBreak(s)
    ensures RemoveBreaks(s) == s
    decreases |s|
  {
    if s != [] {
      assert s[0] in s;
      assert forall c :: c in s[1..] ==> c in s;
      RemoveBreaksNone(s[1..]);
      assert s == [s[0]] + s[1..];
    }
  }

  /** All the lines, run together. */
  function Concat(ls: seq<string>): string
    decreases |ls|
  {
    if ls == [] then [] else ls[0] + Concat(ls[1..])
  }

  // ---------------------------------------------------------------------------
  // The diff entries of git.py: [f.strip() for f in out.splitlines() if f.strip()]

  /** A diff entry: not empty, not starting or ending with white space. */
  predicate Trimmed(e: string) {
    e != "" && !IsSpace(e[0]) && !IsSpace(e[|e| - 1])
  }

  /** The stripped lines that are not blank, in order. */
  function ParseLines(ls: seq<string>): (es: seq<string>)
    ensures forall e :: e in es ==> Trimmed(e)
    ensures (forall l :: l in ls ==> NoBreak(l)) ==> forall e :: e in es ==> NoBreak(e)
    decreases |ls|
  {
    if ls == [] then []
    else
      var init := ParseLines(ls[..|ls| - 1]);
      var t := Strip(ls[|ls| - 1]);
      EntryOfLine(ls[|ls| - 1]);
      assert forall l :: l in ls[..|ls| - 1] ==> l in ls;
      if t == "" then init else init + [t]
  }

  lemma EntryOfLine(l: string)
    ensures Strip(l) != "" ==> Trimmed(Strip(l))
    ensures NoBreak(l) ==> NoBreak(Strip(l))
  {
  }

  /** The diff entries of `git diff --name-only` output `out`. */
  function ParseDiff(out: string): (es: seq<string>)
    ensures forall e :: e in es ==> Trimmed(e) && NoBreak(e)
  {
    ParseLines(SplitLines(out))
  }

  /** The lines of `ls`, each stripped. */
  function StripAll(ls: seq<string>): (ts: seq<string>)
    ensures |ts| == |ls| && forall j :: 0 <= j < |ls| ==> ts[j] == Strip(ls[j])
  {
    MapSeq(Strip, ls)
  }

  lemma StripAllSnoc(ls: seq<string>)
    requires ls != []
    ensures StripAll(ls) == StripAll(ls[..|ls| - 1]) + [Strip(ls[|ls| - 1])]
  {
    MapSnoc(Strip, ls);
  }

  // ---------------------------------------------------------------------------
  // Lemmas

  lemma ConcatCons(x: string, rest: seq<string>)
    ensures Concat([x] + rest) == x + Concat(rest)
  {
    assert ([x] + rest)[1..] == rest;
  }

  lemma {:induction false} ConcatLinesFrom(s: string, cur: string)
    ensures Concat(LinesFrom(s, cur)) == cur + RemoveBreaks(s)
    decreases |s|
  {
    if s == [] {
      ConcatCons(cur, []);
    } else if s[0] == '\r' && |s| > 1 && s[1] == '\n' {
      ConcatLinesFrom(s[2..], []);
      ConcatCons(cur, LinesFrom(s[2..], []));
      assert s[1..][1..] == s[2..];
      assert RemoveBreaks(s) == RemoveBreaks(s[1..]);
    } else if IsLineBreak(s[0]) {
      ConcatLinesFrom(s[1..], []);
      ConcatCons(cur, LinesFrom(s[1..], []));
    } else {
      ConcatLinesFrom(s[1..], cur + [s[0]]);
      ConcatAssoc(cur, [s[0]], RemoveBreaks(s[1..]));
    }
  }

  /** Removing the breaks of two texts run together removes them from each:
      with `RemoveBreaksNone` and the membership clause of `RemoveBreaks`
      (nothing is left of a single break), this fixes the result and its
      order. */
  lemma {:induction false} RemoveBreaksConcat(a: string, b: string)
    ensures RemoveBreaks(a + b) == RemoveBreaks(a) + RemoveBreaks(b)
    decreases |a|
  {
    if a == [] {
      assert a + b == b;
    } else {
      var head: string := if IsLineBreak(a[0]) then [] else [a[0]];
      assert (a + b)[0] == a[0] && (a + b)[1..] == a[1..] + b;
      assert RemoveBreaks(a + b) == head + RemoveBreaks(a[1..] + b);
      assert RemoveBreaks(a) == head + RemoveBreaks(a[1..]);
      RemoveBreaksConcat(a[1..], b);
      ConcatAssoc(head, RemoveBreaks(a[1..]), RemoveBreaks(b));
    }
  }

  /** Characters that are not breaks join the line being read. */
  lemma {:induction false} LinesFromText(l: string, t: string, cur: string)
    requires NoBreak(l)
    ensures LinesFrom(l + t, cur) == LinesFrom(t, cur + l)
    decreases |l|
  {
    if l == [] {
      assert l + t == t && cur + l == cur;
    } else {
      assert l[0] in l;
      assert (l + t)[0] == l[0] && (l + t)[1..] == l[1..] + t;
      assert forall c :: c in l[1..] ==> c in l;
      LinesFromText(l[1..], t, cur + [l[0]]);
      assert cur + [l[0]] + l[1..] == cur + l;
    }
  }

  /** A line ended by a single break character (a `\r` not followed by
      `\n`, or any other break) is one line of `splitlines`, and the rest of
      the text is split on its own. */
  lemma SplitLinesBreak(l: string, b: char, rest: string)
    requires NoBreak(l) && IsLineBreak(b) && !(b == '\r' && rest != [] && rest[0] == '\n')
    ensures SplitLines(l + [b] + rest) == [l] + SplitLines(rest)
  {
    assert l + [b] + rest == l + ([b] + rest);
    LinesFromText(l, [b] + rest, []);
    assert ([] + l) == l;
    assert ([b] + rest)[1..] == rest;
  }

  /** A line ended by `\r\n` is one line of `splitlines`: the pair is a
      single break. */
  lemma SplitLinesCrLf(l: string, rest: string)
    requires NoBreak(l)
    ensures SplitLines(l + ['\r', '\n'] + rest) == [l] + SplitLines(rest)
  {
    assert l + ['\r', '\n'] + rest == l + (['\r', '\n'] + rest);
    LinesFromText(l, ['\r', '\n'] + rest, []);
    assert ([] + l) == l;
    assert (['\r', '\n'] + rest)[2..] == rest;
  }

  /** A final line without a break is kept, and an empty text has no lines. */
  lemma SplitLinesLast(l: string)
    requires NoBreak(l) && l != []
    ensures SplitLines(l) == [l]
    ensures SplitLines([]) == []
  {
    assert l + [] == l;
    LinesFromText(l, [], []);
    assert [] + l == l;
  }

  /** `splitlines` loses only the line breaks: run together, the lines are
      `s` with its breaks taken out. */
  lemma SplitLinesKeepsText(s: string)
    ensures Concat(SplitLines(s)) == RemoveBreaks(s)
  {
    ConcatLinesFrom(s, []);
  }

  lemma {:induction false} InConcat(ls: seq<string>, c: char)
    ensures c in Concat(ls) <==> exists j :: 0 <= j < |ls| && c in ls[j]
    decreases |ls|
  {
    if ls != [] {
      InConcat(ls[1..], c);
      if c in Concat(ls[1..]) {
        var j :| 0 <= j < |ls[1..]| && c in ls[1..][j];
        assert c in ls[j + 1];
      }
      if exists j :: 0 <= j < |ls| && c in ls[j] {
        var j :| 0 <= j < |ls| && c in ls[j];
        if j > 0 { assert c in ls[1..][j - 1]; }
      }
    }
  }

  /** Nothing is parsed from lines that are all blank, and something is
      parsed as soon as one line is not. */
  lemma {:induction false} ParseLinesEmpty(ls: seq<string>)
    ensures ParseLines(ls) == [] <==> forall j :: 0 <= j < |ls| ==> AllSpace(ls[j])
    decreases |ls|
  {
    if ls != [] {
      var init := ls[..|ls| - 1];
      ParseLinesEmpty(init);
      if ParseLines(ls) == [] {
        assert ParseLines(init) == [] && Strip(ls[|ls| - 1]) == "";
        forall j | 0 <= j < |ls| ensures AllSpace(ls[j]) {
          if j < |ls| - 1 { assert ls[j] == init[j]; }
        }
      }
    }
  }

  /** The early return of git.py agrees with the general path: the diff
      output is all white space (its `strip()` is empty) exactly when no
      entry is parsed from it. */
  lemma ParseDiffEmptyIffBlank(out: string)
    ensures ParseDiff(out) == [] <==> Strip(out) == ""
  {
    ParseLinesEmpty(SplitLines(out));
    if AllSpace(out) {
      BlankLines(out);
    } else {
      var j := TextLine(out);
    }
  }

  /** White space splits into lines of white space. */
  lemma BlankLines(out: string)
    requires AllSpace(out)
    ensures forall j :: 0 <= j < |SplitLines(out)| ==> AllSpace(SplitLines(out)[j])
  {
    var ls := SplitLines(out);
    SplitLinesKeepsText(out);
    forall j, k | 0 <= j < |ls| && 0 <= k < |ls[j]| ensures IsSpace(ls[j][k]) {
      var c := ls[j][k];
      InConcat(ls, c);
      assert c in RemoveBreaks(out);
    }
  }

  /** A character that is not white space lies on some line, found at index `j`. */
  lemma TextLine(out: string) returns (j: nat)
    requires !AllSpace(out)
    ensures j < |SplitLines(out)| && !AllSpace(SplitLines(out)[j])
  {
    var ls := SplitLines(out);
    SplitLinesKeepsText(out);
    var k :| 0 <= k < |out| && !IsSpace(out[k]);
    var c := out[k];
    assert c in RemoveBreaks(out);
    InConcat(ls, c);
    j :| 0 <= j < |ls| && c in ls[j];
    var m :| 0 <= m < |ls[j]| && ls[j][m] == c;
  }

  /** Entries keep the order of the output's lines: they form a subsequence
      of the stripped lines. */
  lemma {:induction false} ParseLinesOrder(ls: seq<string>)
    ensures IsSubseq(ParseLines(ls), StripAll(ls))
    decreases |ls|
  {
    if ls != [] {
      var init := ls[..|ls| - 1];
      ParseLinesOrder(init);
      StripAllSnoc(ls);
      SubseqSnoc(ParseLines(init), StripAll(init), Strip(ls[|ls| - 1]));
    }
  }

  predicate NotEmpty(e: string) {
    e != ""
  }

  /** The entries are exactly the stripped lines that are not empty, in
      order and with repeats: `[f.strip() for f in lines if f.strip()]`. */
  lemma {:induction false} ParseLinesIsFilter(ls: seq<string>)
    ensures ParseLines(ls) == Filter(NotEmpty, StripAll(ls))
    decreases |ls|
  {
    if ls != [] {
      var init := ls[..|ls| - 1];
      ParseLinesIsFilter(init);
      StripAllSnoc(ls);
      var ts := StripAll(ls);
      assert ts[..|ts| - 1] == StripAll(init);
      assert ts[|ts| - 1] == Strip(ls[|ls| - 1]);
    }
  }

  /** Every line that is not blank gives an entry. */
  lemma {:induction false} ParseLinesComplete(ls: seq<string>)
    ensures forall l :: l in ls && Strip(l) != "" ==> Strip(l) in ParseLines(ls)
    decreases |ls|
  {
    if ls != [] {
      var init := ls[..|ls| - 1];
      ParseLinesComplete(init);
      assert ls == init + [ls[|ls| - 1]];
    }
  }

  lemma ParseDiffOrder(out: string)
    ensures IsSubseq(ParseDiff(out), StripAll(SplitLines(out)))
    ensures forall l :: l in SplitLines(out) && Strip(l) != "" ==> Strip(l) in ParseDiff(out)
  {
    ParseLinesOrder(SplitLines(out));
    ParseLinesComplete(SplitLines(out));
  }

  /** A string that is not empty is an entry exactly when it is the strip
      of some line of the output. */
  lemma EntryIsLine(text: string, p: string)
    requires p != ""
    ensures p in ParseDiff(text) <==> exists l :: l in SplitLines(text) && Strip(l) == p
  {
    if exists l :: l in SplitLines(text) && Strip(l) == p {
      var l :| l in SplitLines(text) && Strip(l) == p;
      LineIsEntry(text, l);
    }
    if p in ParseDiff(text) {
      EntryHasLine(text, p);
    }
  }

  lemma LineIsEntry(text: string, l: string)
    requires l in SplitLines(text) && Strip(l) != ""
    ensures Strip(l) in ParseDiff(text)
  {
    ParseLinesComplete(SplitLines(text));
  }

  lemma EntryHasLine(text: string, p: string)
    requires p in ParseDiff(text)
    ensures exists l :: l in SplitLines(text) && Strip(l) == p
  {
    var ls := SplitLines(text);
    var j := ParseLinesHasLine(ls, p);
    assert ls[j] in ls;
  }

  /** Every entry is the strip of a line, found at index `j`. */
  lemma ParseLinesHasLine(ls: seq<string>, p: string) returns (j: nat)
    requires p in ParseLines(ls)
    ensures j < |ls| && Strip(ls[j]) == p
  {
    ParseLinesOrder(ls);
    SubseqBounds(ParseLines(ls), StripAll(ls));
    j :| 0 <= j < |ls| && StripAll(ls)[j] == p;
  }
}
