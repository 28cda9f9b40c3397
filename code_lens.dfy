/** EndpointCodeLensProvider.ts: a "Tester cet Endpoint" lens above every
    HTTP verb decorator of a document. The provider keeps one global regular
    expression whose `lastIndex` carries the search position between
    successive `exec` calls. */
module CodeLens {
  import opened Wrappers
  import opened Strings
  import opened VerbPattern

  /** A lens at column 0 of `line`, running `api-tester.openPanel` with
      [commandFile, commandLine]. */
  datatype Lens = Lens(line: nat, column: nat, title: string, commandFile: string, commandLine: nat)

  const LensTitle := "Tester cet Endpoint"

  /** A line ends at position p: a "\n", or a "\r" not followed by "\n". */
  predicate LineBreakAt(text: string, p: nat)
    requires p < |text|
  {
    text[p] == '\n' || (text[p] == '\r' && (p + 1 == |text| || text[p + 1] != '\n'))
  }

  /** `document.positionAt(i).line`: the number of line breaks before i. */
  function LineOf(text: string, i: nat): (r: nat)
    requires i <= |text|
    ensures r <= i
  {
    if i == 0 then 0 else LineOf(text, i - 1) + (if LineBreakAt(text, i - 1) then 1 else 0)
  }

  /** Positions on the same line give the same line number. */
  lemma {:induction false} SameLine(text: string, i: nat, j: nat)
    requires i <= j <= |text|
    requires forall p :: i <= p < j ==> !LineBreakAt(text, p)
    ensures LineOf(text, i) == LineOf(text, j)
    decreases j - i
  {
    if i < j {
      SameLine(text, i, j - 1);
    }
  }

  /** The lens for a match starting at position `p`: on the line holding
      the '@'. */
  function LensAt(fileName: string, text: string, p: nat): (l: Lens)
    requires p <= |text|
    ensures l.line == LineOf(text, p) && l.column == 0
    ensures l.commandFile == fileName && l.commandLine == l.line
  {
    Lens(LineOf(text, p), 0, LensTitle, fileName, LineOf(text, p))
  }

  /** The lenses for the match starts `ps`, in the same order. */
  function Lenses(fileName: string, text: string, ps: seq<nat>): (r: seq<Lens>)
    requires forall k :: 0 <= k < |ps| ==> ps[k] <= |text|
    ensures |r| == |ps|
  {
    if |ps| == 0 then []
    else Lenses(fileName, text, ps[..|ps| - 1]) + [LensAt(fileName, text, ps[|ps| - 1])]
  }

  /** The k-th lens belongs to the k-th match start. */
  lemma {:induction false} LensesPointwise(fileName: string, text: string, ps: seq<nat>)
    requires forall k :: 0 <= k < |ps| ==> ps[k] <= |text|
    ensures forall k :: 0 <= k < |ps| ==> Lenses(fileName, text, ps)[k] == LensAt(fileName, text, ps[k])
  {
    if |ps| > 0 {
      LensesPointwise(fileName, text, ps[..|ps| - 1]);
    }
  }

  /** One more match start adds its lens at the end. */
  lemma LensesSnoc(fileName: string, text: string, ps: seq<nat>, p: nat)
    requires forall k :: 0 <= k < |ps| ==> ps[k] <= |text|
    requires p <= |text|
    ensures forall k :: 0 <= k < |ps + [p]| ==> (ps + [p])[k] <= |text|
    ensures Lenses(fileName, text, ps + [p]) == Lenses(fileName, text, ps) + [LensAt(fileName, text, p)]
  {
    assert (ps + [p])[..|ps|] == ps;
  }

  /** What `provideCodeLenses` returns: one lens per match, in text order. */
  function CodeLensesOf(fileName: string, text: string): (r: seq<Lens>)
  {
    Lenses(fileName, text, MatchStarts(text))
  }

  /** Every match start has its lens and every lens comes from a match
      start, each once and in text order. */
  lemma CodeLensesExact(fileName: string, text: string)
    ensures |CodeLensesOf(fileName, text)| == |MatchStarts(text)|
    ensures forall k :: 0 <= k < |MatchStarts(text)| ==>
      CodeLensesOf(fileName, text)[k] == LensAt(fileName, text, MatchStarts(text)[k])
    ensures forall i :: 0 <= i < |text| ==> (i in MatchStarts(text) <==> MatchAt(text, i))
    ensures forall a, b :: 0 <= a < b < |MatchStarts(text)| ==> MatchStarts(text)[a] < MatchStarts(text)[b]
  {
    LensesPointwise(fileName, text, MatchStarts(text));
    MatchStartsExact(text);
  }

  /** Text without a verb decorator gets no lenses. */
  lemma NoMatchNoLens(fileName: string, text: string)
    requires forall i :: 0 <= i < |text| ==> !MatchAt(text, i)
    ensures CodeLensesOf(fileName, text) == []
  {
  }

  /** White space between the verb and '(' may span lines; the lens then
      stays on the decorator's line. */
  lemma ParenOnNextLine(fileName: string)
    ensures MatchAt("@Get\n()", 0)
    ensures LensAt(fileName, "@Get\n()", 0).line == 0
  {
    assert OccursAt("@Get\n()", "Get", 1);
    assert VerbAt("@Get\n()", 0, LensVerbs) == Some(0);
    assert SkipWhitespace("@Get\n()", 5) == 5;
    assert SkipWhitespace("@Get\n()", 4) == 5;
  }

  // ---------------------------------------------------------------------
  // A document made of lines
  // ---------------------------------------------------------------------

  /** A line as `document.lineAt` gives it: no line break inside. */
  predicate PlainLine(l: string) {
    forall p :: 0 <= p < |l| ==> l[p] != '\n' && l[p] != '\r'
  }

  /** The text of a document whose lines end with "\n". */
  function Document(lines: seq<string>): (text: string)
    ensures |lines| == 1 ==> text == lines[0]
  {
    if |lines| == 0 then ""
    else if |lines| == 1 then lines[0]
    else Document(lines[..|lines| - 1]) + "\n" + lines[|lines| - 1]
  }

  /** The offset at which line n starts: each earlier line and its "\n". */
  function LineStart(lines: seq<string>, n: nat): (r: nat)
    requires n < |lines|
    ensures r >= n
  {
    if n == 0 then 0 else LineStart(lines, n - 1) + |lines[n - 1]| + 1
  }

  /** Line n starting offset does not depend on the lines after it. */
  lemma {:induction false} LineStartPrefix(lines: seq<string>, m: nat, n: nat)
    requires n < m <= |lines|
    ensures LineStart(lines[..m], n) == LineStart(lines, n)
  {
    if n > 0 {
      LineStartPrefix(lines, m, n - 1);
      assert lines[..m][n - 1] == lines[n - 1];
    }
  }

  /** Without '\r', a line ends exactly at each "\n", so what comes after
      position s does not change the line of s. */
  lemma {:induction false} LineOfPrefix(a: string, b: string, s: nat)
    requires s <= |a|
    requires forall p :: 0 <= p < |a| ==> a[p] != '\r'
    ensures LineOf(a + b, s) == LineOf(a, s)
  {
    if s > 0 {
      LineOfPrefix(a, b, s - 1);
      assert (a + b)[s - 1] == a[s - 1];
    }
  }

  /** A document is as long as its lines and their separators, and holds
      no '\r'. */
  lemma {:induction false} DocumentShape(lines: seq<string>)
    requires |lines| > 0
    requires forall m :: 0 <= m < |lines| ==> PlainLine(lines[m])
    ensures |Document(lines)| == LineStart(lines, |lines| - 1) + |lines[|lines| - 1]|
    ensures forall p :: 0 <= p < |Document(lines)| ==> Document(lines)[p] != '\r'
  {
    var m := |lines|;
    if m > 1 {
      var init := lines[..m - 1];
      var d := Document(init);
      var last := lines[m - 1];
      var text := Document(lines);
      DocumentShape(init);
      LineStartPrefix(lines, m - 1, m - 2);
      assert init[m - 2] == lines[m - 2];
      forall p | 0 <= p < |text|
        ensures text[p] != '\r'
      {
        if p > |d| {
          assert text[p] == last[p - |d| - 1];
        }
      }
    }
  }

  /** Each line of a document sits at its start offset, on its own line
      number. */
  lemma {:induction false} DocumentLine(lines: seq<string>, n: nat)
    requires n < |lines|
    requires forall m :: 0 <= m < |lines| ==> PlainLine(lines[m])
    ensures LineStart(lines, n) + |lines[n]| <= |Document(lines)|
    ensures Document(lines)[LineStart(lines, n)..LineStart(lines, n) + |lines[n]|] == lines[n]
    ensures LineOf(Document(lines), LineStart(lines, n)) == n
    decreases |lines|, 1
  {
    if |lines| == 1 {
      assert Document(lines)[0..|lines[0]|] == lines[0];
    } else if n < |lines| - 1 {
      EarlierLine(lines, n);
    } else {
      LastLine(lines);
    }
  }

  /** A line before the last keeps its place when the last line is added. */
  lemma {:induction false} EarlierLine(lines: seq<string>, n: nat)
    requires n < |lines| - 1
    requires forall m :: 0 <= m < |lines| ==> PlainLine(lines[m])
    ensures LineStart(lines, n) + |lines[n]| <= |Document(lines)|
    ensures Document(lines)[LineStart(lines, n)..LineStart(lines, n) + |lines[n]|] == lines[n]
    ensures LineOf(Document(lines), LineStart(lines, n)) == n
    decreases |lines|, 0
  {
    var m := |lines|;
    var init := lines[..m - 1];
    var d := Document(init);
    var rest := "\n" + lines[m - 1];
    assert Document(lines) == d + rest;
    DocumentLine(init, n);
    DocumentShape(init);
    LineStartPrefix(lines, m - 1, n);
    assert init[n] == lines[n];
    var s := LineStart(lines, n);
    LineOfPrefix(d, rest, s);
    assert (d + rest)[s..s + |lines[n]|] == d[s..s + |lines[n]|];
  }

  /** The last line starts right after the "\n" that ends the one before. */
  lemma {:induction false} LastLine(lines: seq<string>)
    requires |lines| > 1
    requires forall m :: 0 <= m < |lines| ==> PlainLine(lines[m])
    ensures LineStart(lines, |lines| - 1) + |lines[|lines| - 1]| <= |Document(lines)|
    ensures Document(lines)[LineStart(lines, |lines| - 1)..] == lines[|lines| - 1]
    ensures LineOf(Document(lines), LineStart(lines, |lines| - 1)) == |lines| - 1
    decreases |lines|, 0
  {
    var m := |lines|;
    var init := lines[..m - 1];
    var d := Document(init);
    var last := lines[m - 1];
    var rest := "\n" + last;
    var text := Document(lines);
    assert text == d + rest;
    DocumentLine(init, m - 2);
    DocumentShape(init);
    LineStartPrefix(lines, m - 1, m - 2);
    assert init[m - 2] == lines[m - 2];
    var s := LineStart(lines, m - 2);
    forall p | s <= p < |d|
      ensures !LineBreakAt(d, p)
    {
      assert d[p] == lines[m - 2][p - s];
    }
    SameLine(d, s, |d|);
    LineOfPrefix(d, rest, |d|);
    assert LineBreakAt(text, |d|);
    assert text[|d| + 1..] == last;
  }

  /** A piece of text that holds no line break has none in its first q
      places in the text around it. */
  lemma PlainSliceNoBreak(text: string, o: nat, line: string, q: nat)
    requires o + |line| <= |text| && text[o..o + |line|] == line
    requires PlainLine(line) && q <= |line|
    ensures forall p :: o <= p < o + q ==> !LineBreakAt(text, p)
  {
    forall p | o <= p < o + q
      ensures !LineBreakAt(text, p)
    {
      assert text[p] == line[p - o];
    }
  }

  /** A match in a line of a text gives a match of the text at a position
      p of that line: at or after the line's start o, with no line break
      in between (`MatchInSlice` says p is o plus the match's place in the
      line). */
  lemma MatchOnLine(text: string, o: nat, line: string, i: nat) returns (p: nat)
    requires o + |line| <= |text| && text[o..o + |line|] == line
    requires PlainLine(line)
    requires MatchAt(line, i)
    ensures MatchAt(text, p)
    ensures p < |text|
    ensures forall q :: o <= q < p ==> !LineBreakAt(text, q)
    ensures o <= p
  {
    p := o + i;
    PlainSliceNoBreak(text, o, line, i);
    VerbsAreLetters();
    PatternInSlice(LensVerbs, text, o, line, i);
    assert MatchLength(text, p) == PatternLength(LensVerbs, text, p);
  }

  /** Some lens of `lenses` sits on line n. */
  predicate HasLensOnLine(lenses: seq<Lens>, n: nat) {
    exists k :: 0 <= k < |lenses| && lenses[k].line == n
  }

  /** Every match gets a lens on the line of its '@'. */
  lemma LensOnLineOfMatch(fileName: string, text: string, p: nat, n: nat)
    requires p < |text|
    requires MatchAt(text, p)
    requires LineOf(text, p) == n
    ensures HasLensOnLine(CodeLensesOf(fileName, text), n)
  {
    CodeLensesExact(fileName, text);
    var k :| 0 <= k < |MatchStarts(text)| && MatchStarts(text)[k] == p;
    assert CodeLensesOf(fileName, text)[k].line == LineOf(text, p);
  }

  /** A match at p gets a lens on the line of any position o before it
      with no line break in between. */
  lemma LensOnSameLine(fileName: string, text: string, o: nat, p: nat)
    requires o <= p < |text|
    requires MatchAt(text, p)
    requires forall q :: o <= q < p ==> !LineBreakAt(text, q)
    ensures HasLensOnLine(CodeLensesOf(fileName, text), LineOf(text, o))
  {
    SameLine(text, o, p);
    LensOnLineOfMatch(fileName, text, p, LineOf(text, o));
  }

  /** After the match that ended at `next`, the following `exec` (result
      `m`, new `lastIndex` `last`) either finds the next start of the scan
      or ends it. */
  lemma ScanAdvance(t: seq<Option<nat>>, found: seq<nat>, next: nat, starts: seq<nat>, m: Option<nat>, last: nat)
    requires WellFormed(t)
    requires found + ScanFrom(t, next) == starts
    requires m == NextMatch(t, next)
    requires m.Some? ==> last == m.value + t[m.value].value
    ensures m.None? ==> found == starts
    ensures m.Some? ==> 0 <= m.value < last <= |t| && found + [m.value] + ScanFrom(t, last) == starts
  {
    ScanUnfold(t, next);
    if m.Some? {
      assert found + [m.value] + ScanFrom(t, last) == found + ScanFrom(t, next);
    } else {
      assert found + [] == found;
    }
  }

  class EndpointCodeLensProvider {
    /** The regular expression's `lastIndex`: where the next `exec` starts. */
    var lastIndex: nat

    constructor ()
      ensures lastIndex == 0
    {
      lastIndex := 0;
    }

    /** `methodRegex.exec(text)` with the global flag: search from
        `lastIndex`; on a match move `lastIndex` past it, otherwise reset
        it to 0. */
    method Exec(text: string) returns (m: Option<nat>)
      modifies this
      ensures m == NextMatch(MatchTable(text), old(lastIndex))
      ensures m.Some? ==> lastIndex == m.value + MatchTable(text)[m.value].value
      ensures m.None? ==> lastIndex == 0
    {
      var t := MatchTable(text);
      m := NextMatch(t, lastIndex);
      if m.Some? {
        lastIndex := m.value + t[m.value].value;
      } else {
        lastIndex := 0;
      }
    }

    /** `provideCodeLenses`: `exec` until it fails, one lens per match. The
        scan ends with `lastIndex` back at 0, so the next call starts from
        the top of its document. */
    method ProvideCodeLenses(fileName: string, text: string) returns (lenses: seq<Lens>)
      requires lastIndex == 0
      modifies this
      ensures lastIndex == 0
      ensures lenses == CodeLensesOf(fileName, text)
    {
      var t := MatchTable(text);
      MatchTableWellFormed(text);
      lenses := [];
      ghost var found: seq<nat> := [];
      ghost var starts := ScanFrom(t, 0);
      var m := Exec(text);
      assert found + ScanFrom(t, 0) == starts;
      ScanAdvance(t, found, 0, starts, m, lastIndex);
      while m.Some?
        invariant forall k :: 0 <= k < |found| ==> found[k] < |text|
        invariant lenses == Lenses(fileName, text, found)
        invariant m.Some? ==> 0 <= m.value < lastIndex <= |text| && m.value < |t|
        invariant m.Some? ==> found + [m.value] + ScanFrom(t, lastIndex) == starts
        invariant m.None? ==> found == starts && lastIndex == 0
        decreases if m.Some? then |text| + 1 - lastIndex else 0
      {
        var p := m.value;
        ghost var next := lastIndex;
        LensesSnoc(fileName, text, found, p);
        lenses := lenses + [LensAt(fileName, text, p)];
        found := found + [p];
        m := Exec(text);
        ScanAdvance(t, found, next, starts, m, lastIndex);
      }
      assert starts == MatchStarts(text);
    }
  }
}
