/** EndpointCodeActionProvider.ts: a "Test this Endpoint" quick fix on a
    line holding an HTTP verb decorator. */
module CodeAction {
  import opened Wrappers
  import opened Strings
  import opened VerbPattern
  import opened CodeLens

  datatype ActionKind = QuickFix

  /** A code action whose command runs `api-tester.openPanel` with
      [commandFile, commandLine]. */
  datatype Action = Action(title: string, kind: ActionKind, commandTitle: string, commandFile: string, commandLine: nat)

  /** `provideCodeActions(document, range)`: `lines` are the document's
      lines and `startLine` the line the range starts on. Only that line is
      tested; a match gives one quick fix, otherwise there is none. */
  function ProvideCodeActions(fileName: string, lines: seq<string>, startLine: nat): (r: seq<Action>)
    requires startLine < |lines|
    ensures |r| <= 1
    ensures |r| == 1 <==> exists i :: 0 <= i < |lines[startLine]| && MatchAt(lines[startLine], i)
    ensures |r| == 1 ==> r[0].kind == QuickFix && r[0].commandFile == fileName && r[0].commandLine == startLine
  {
    TestIffSomeMatch(lines[startLine]);
    if !Test(lines[startLine]) then []
    else [Action(" Test this Endpoint", QuickFix, "Test this Endpoint", fileName, startLine)]
  }

  /** Lines other than the start line play no part. */
  lemma OnlyStartLineMatters(fileName: string, lines: seq<string>, other: seq<string>, startLine: nat)
    requires startLine < |lines| && startLine < |other| && lines[startLine] == other[startLine]
    ensures ProvideCodeActions(fileName, lines, startLine) == ProvideCodeActions(fileName, other, startLine)
  {
  }

  /** The action is offered on a line exactly when a global scan of that
      line's own text finds a decorator. */
  lemma ActionIffLens(fileName: string, lines: seq<string>, startLine: nat)
    requires startLine < |lines|
    ensures |ProvideCodeActions(fileName, lines, startLine)| == 1 <==> |MatchStarts(lines[startLine])| > 0
  {
    TestIffScanFinds(lines[startLine]);
  }

  /** Wherever the quick fix is offered, the code lens provider puts a lens
      on the same line: `text` is any document text holding line n at
      offset o (`DocumentLine` shows that every line of a document does). */
  lemma QuickFixHasLens(fileName: string, lines: seq<string>, n: nat, text: string, o: nat)
    requires n < |lines| && PlainLine(lines[n])
    requires o + |lines[n]| <= |text| && text[o..o + |lines[n]|] == lines[n]
    requires LineOf(text, o) == n
    requires |ProvideCodeActions(fileName, lines, n)| == 1
    ensures HasLensOnLine(CodeLensesOf(fileName, text), n)
  {
    LineWithMatchHasLens(fileName, text, o, lines[n], n);
  }

  /** The same for a whole document: a line offered the quick fix has a
      lens. */
  lemma QuickFixHasLensInDocument(fileName: string, lines: seq<string>, n: nat)
    requires n < |lines|
    requires forall m :: 0 <= m < |lines| ==> PlainLine(lines[m])
    requires |ProvideCodeActions(fileName, lines, n)| == 1
    ensures HasLensOnLine(CodeLensesOf(fileName, Document(lines)), n)
  {
    DocumentLine(lines, n);
    QuickFixHasLens(fileName, lines, n, Document(lines), LineStart(lines, n));
  }

  /** A line of a text in which a match starts gets a lens on its line. */
  lemma LineWithMatchHasLens(fileName: string, text: string, o: nat, line: string, n: nat)
    requires o + |line| <= |text| && text[o..o + |line|] == line
    requires PlainLine(line)
    requires LineOf(text, o) == n
    requires exists i :: 0 <= i < |line| && MatchAt(line, i)
    ensures HasLensOnLine(CodeLensesOf(fileName, text), n)
  {
    var i :| 0 <= i < |line| && MatchAt(line, i);
    LineMatchHasLens(fileName, text, o, line, i);
  }

  /** A match in a line of a text gets a lens on that line. */
  lemma LineMatchHasLens(fileName: string, text: string, o: nat, line: string, i: nat)
    requires o + |line| <= |text| && text[o..o + |line|] == line
    requires PlainLine(line)
    requires MatchAt(line, i)
    ensures HasLensOnLine(CodeLensesOf(fileName, text), LineOf(text, o))
  {
    var p := MatchOnLine(text, o, line, i);
    LensOnSameLine(fileName, text, o, p);
  }

  /** The converse fails: white space between the verb and '(' may run
      onto the next line, where the whole-document scan still finds the
      decorator but the test of the decorator's line alone does not. */
  lemma LensWithoutQuickFix(fileName: string)
    ensures Document(["@Get", "()"]) == "@Get\n()"
    ensures ProvideCodeActions(fileName, ["@Get", "()"], 0) == []
    ensures HasLensOnLine(CodeLensesOf(fileName, "@Get\n()"), 0)
  {
    assert Document(["@Get", "()"]) == "@Get\n()" by {
      assert ["@Get", "()"][..1] == ["@Get"];
    }
    assert ProvideCodeActions(fileName, ["@Get", "()"], 0) == [] by {
      GetAloneDoesNotMatch();
    }
    ParenOnNextLine(fileName);
    assert LineOf("@Get\n()", 0) == 0;
    LensOnLineOfMatch(fileName, "@Get\n()", 0, 0);
  }
}
