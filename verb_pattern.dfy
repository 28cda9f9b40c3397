/** The pattern `@(Get|Post|Put|Delete|Patch|Options|Head)\s*\(` that the
    code lens and code action providers look for: an '@', one of seven verb
    names (case-sensitive; "All" is not among them), any whitespace, then
    an opening parenthesis. */
module VerbPattern {
  import opened Wrappers
  import opened Strings

  const LensVerbs: seq<string> := ["Get", "Post", "Put", "Delete", "Patch", "Options", "Head"]

  /** The first position at or after `j` that is not whitespace (`\s*`,
      which consumes as much whitespace as there is). */
  function SkipWhitespace(text: string, j: nat): (r: nat)
    requires j <= |text|
    ensures j <= r <= |text|
    ensures forall k :: j <= k < r ==> IsWhitespace(text[k])
    ensures r == |text| || !IsWhitespace(text[r])
    decreases |text| - j
  {
    if j == |text| || !IsWhitespace(text[j]) then j else SkipWhitespace(text, j + 1)
  }

  predicate IsAsciiLetter(c: char) {
    'A' <= c <= 'Z' || 'a' <= c <= 'z'
  }

  /** Every alternative in `verbs` is spelled with ASCII letters only. */
  predicate AllLetters(verbs: seq<string>) {
    forall k, m :: 0 <= k < |verbs| && 0 <= m < |verbs[k]| ==> IsAsciiLetter(verbs[k][m])
  }

  /** The verbs are spelled with ASCII letters only. */
  lemma VerbsAreLetters()
    ensures AllLetters(LensVerbs)
  {
  }

  /** The first of `verbs` spelled out right after position `i`, if any. */
  function VerbAt(text: string, i: nat, verbs: seq<string>): (r: Option<nat>)
    ensures r.Some? ==> r.value < |verbs| && OccursAt(text, verbs[r.value], i + 1)
    ensures r.Some? ==> forall k :: 0 <= k < r.value ==> !OccursAt(text, verbs[k], i + 1)
    decreases |verbs|
  {
    if |verbs| == 0 then None
    else if OccursAt(text, verbs[0], i + 1) then Some(0)
    else match VerbAt(text, i, verbs[1..])
      case None => None
      case Some(k) => Some(k + 1)
  }

  /** No verb is picked exactly when none of them is spelled there. */
  lemma {:induction false} VerbAtNone(text: string, i: nat, verbs: seq<string>)
    ensures VerbAt(text, i, verbs).None? <==> forall k :: 0 <= k < |verbs| ==> !OccursAt(text, verbs[k], i + 1)
    decreases |verbs|
  {
    if |verbs| > 0 && !OccursAt(text, verbs[0], i + 1) {
      VerbAtNone(text, i, verbs[1..]);
      assert forall k :: 1 <= k < |verbs| ==> verbs[k] == verbs[1..][k - 1];
    }
  }

  /** `a` is the beginning of `b`. */
  predicate IsPrefix(a: string, b: string) {
    |a| <= |b| && b[..|a|] == a
  }

  /** No alternative is the beginning of another. */
  predicate NoPrefix(verbs: seq<string>) {
    forall k, m :: 0 <= k < |verbs| && 0 <= m < |verbs| && k != m ==> !IsPrefix(verbs[k], verbs[m])
  }

  /** None of the providers' verbs begins another. */
  lemma LensVerbsNoPrefix()
    ensures NoPrefix(LensVerbs)
  {
    forall k, m | 0 <= k < |LensVerbs| && 0 <= m < |LensVerbs| && k != m
      ensures !IsPrefix(LensVerbs[k], LensVerbs[m])
    {
      var a, b := LensVerbs[k], LensVerbs[m];
      if |a| <= |b| {
        assert b[..|a|][0] == b[0] && b[..|a|][1] == b[1];
        assert b[..|a|][|a| - 1] == b[|a| - 1];
      }
    }
  }

  /** Two words spelled at the same place: one begins the other. */
  lemma SpelledAtSamePlace(text: string, a: string, b: string, p: nat)
    requires OccursAt(text, a, p) && OccursAt(text, b, p)
    ensures IsPrefix(a, b) || IsPrefix(b, a)
  {
    if |a| <= |b| {
      assert b == text[p..p + |b|];
      assert b[..|a|] == text[p..p + |a|];
    } else {
      assert a == text[p..p + |a|];
      assert a[..|b|] == text[p..p + |b|];
    }
  }

  /** With no alternative beginning another, at most one alternative is
      spelled after an '@', so trying a later alternative after a failure
      (as a backtracking regex engine does) finds nothing `VerbAt` missed. */
  lemma OneVerbSpelled(text: string, i: nat, verbs: seq<string>, k: nat, m: nat)
    requires NoPrefix(verbs) && k < |verbs| && m < |verbs|
    requires OccursAt(text, verbs[k], i + 1) && OccursAt(text, verbs[m], i + 1)
    ensures k == m
  {
    SpelledAtSamePlace(text, verbs[k], verbs[m], i + 1);
  }

  /** The length of the match of `@(v1|...|vn)\s*\(` that starts at `i`, if
      one does, trying the alternatives `verbs` in order and keeping the first
      one spelled. A regex engine would go on to a later alternative when the
      rest fails after the first; that finds nothing more when no alternative
      begins another (`OneVerbSpelled`), which holds for the providers' verbs
      (`LensVerbsNoPrefix`). */
  function PatternLength(verbs: seq<string>, text: string, i: nat): (r: Option<nat>)
    ensures r.Some? ==> 2 <= r.value && i + r.value <= |text|
    ensures r.Some? ==> text[i] == '@' && text[i + r.value - 1] == '('
  {
    if i < |text| && text[i] == '@' then
      match VerbAt(text, i, verbs)
      case None => None
      case Some(k) =>
        var j := SkipWhitespace(text, i + 1 + |verbs[k]|);
        if j < |text| && text[j] == '(' then Some(j + 1 - i) else None
    else None
  }

  /** The length of the match of the providers' pattern that starts at `i`,
      if one does. */
  function MatchLength(text: string, i: nat): (r: Option<nat>)
    ensures r.Some? ==> 2 <= r.value && i + r.value <= |text|
    ensures r.Some? ==> text[i] == '@' && text[i + r.value - 1] == '('
  {
    PatternLength(LensVerbs, text, i)
  }

  predicate MatchAt(text: string, i: nat) {
    MatchLength(text, i).Some?
  }

  /** No character inside a match other than its first is an '@', so two
      matches never overlap. */
  lemma NoAtInsideMatch(text: string, i: nat, k: nat)
    requires MatchAt(text, i) && i < k < i + MatchLength(text, i).value
    ensures text[k] != '@'
  {
    var v := LensVerbs[VerbAt(text, i, LensVerbs).value];
    if k < i + 1 + |v| {
      VerbsAreLetters();
      assert text[k] == v[k - i - 1];
    }
  }

  // ---------------------------------------------------------------------
  // Scanning: a table of match lengths, one entry per text position
  // ---------------------------------------------------------------------

  /** Entry i is the length of the match starting at i, if one does. */
  function MatchTable(text: string): (t: seq<Option<nat>>)
    ensures |t| == |text|
  {
    MatchTableFrom(text, 0)
  }

  /** The entries for positions `i` onwards. */
  function MatchTableFrom(text: string, i: nat): (t: seq<Option<nat>>)
    requires i <= |text|
    ensures |t| == |text| - i
    decreases |text| - i
  {
    if i == |text| then [] else [MatchLength(text, i)] + MatchTableFrom(text, i + 1)
  }

  lemma {:induction false} MatchTableFromAt(text: string, i: nat, k: nat)
    requires i <= k < |text|
    ensures MatchTableFrom(text, i)[k - i] == MatchLength(text, k)
    decreases k - i
  {
    if i < k {
      MatchTableFromAt(text, i + 1, k);
    }
  }

  lemma MatchTableAt(text: string)
    ensures forall k :: 0 <= k < |text| ==> MatchTable(text)[k] == MatchLength(text, k)
  {
    forall k | 0 <= k < |text|
      ensures MatchTable(text)[k] == MatchLength(text, k)
    {
      MatchTableFromAt(text, 0, k);
    }
  }

  /** Every match is non-empty and ends inside the text. */
  predicate WellFormed(t: seq<Option<nat>>) {
    forall i :: 0 <= i < |t| && t[i].Some? ==> 1 <= t[i].value && i + t[i].value <= |t|
  }

  /** No match starts strictly inside another. */
  predicate NoOverlap(t: seq<Option<nat>>) {
    forall i, k :: 0 <= i < k < |t| && t[i].Some? && k < i + t[i].value ==> t[k].None?
  }

  lemma MatchTableWellFormed(text: string)
    ensures WellFormed(MatchTable(text))
  {
    MatchTableAt(text);
  }

  lemma MatchTableNoOverlap(text: string)
    ensures NoOverlap(MatchTable(text))
  {
    var t := MatchTable(text);
    MatchTableAt(text);
    forall i, k | 0 <= i < k < |t| && t[i].Some? && k < i + t[i].value
      ensures t[k].None?
    {
      NoAtInsideMatch(text, i, k);
    }
  }

  /** The first match at or after `from`: what `exec` finds when its search
      starts there. */
  function NextMatch(t: seq<Option<nat>>, from: nat): (r: Option<nat>)
    ensures r.Some? ==> from <= r.value < |t| && t[r.value].Some?
    ensures r.Some? ==> forall k :: from <= k < r.value ==> t[k].None?
    ensures r.None? ==> forall k :: from <= k < |t| ==> t[k].None?
    decreases |t| - from
  {
    if from >= |t| then None
    else if t[from].Some? then Some(from)
    else NextMatch(t, from + 1)
  }

  /** The start of every match a global scan from `from` finds, each search
      resuming where the previous match ended. */
  function ScanFrom(t: seq<Option<nat>>, from: nat): (r: seq<nat>)
    requires WellFormed(t)
    ensures forall k :: 0 <= k < |r| ==> from <= r[k] < |t| && t[r[k]].Some?
    decreases |t| - from
  {
    match NextMatch(t, from)
    case None => []
    case Some(i) => [i] + ScanFrom(t, i + t[i].value)
  }

  /** One step of the scan: the next match, then the scan after it. */
  lemma ScanUnfold(t: seq<Option<nat>>, from: nat)
    requires WellFormed(t)
    ensures NextMatch(t, from).None? ==> ScanFrom(t, from) == []
    ensures NextMatch(t, from).Some? ==>
      var i := NextMatch(t, from).value;
      ScanFrom(t, from) == [i] + ScanFrom(t, i + t[i].value)
  {
  }

  /** The scan reports match starts in increasing order. */
  lemma {:induction false} ScanIncreasing(t: seq<Option<nat>>, from: nat)
    requires WellFormed(t)
    ensures forall a, b :: 0 <= a < b < |ScanFrom(t, from)| ==> ScanFrom(t, from)[a] < ScanFrom(t, from)[b]
    decreases |t| - from
  {
    match NextMatch(t, from)
    case None =>
    case Some(i) =>
      ScanIncreasing(t, i + t[i].value);
  }

  /** Without overlaps the scan misses nothing: every match start at or
      after `from` is reported. */
  lemma {:induction false} ScanComplete(t: seq<Option<nat>>, from: nat, k: nat)
    requires WellFormed(t) && NoOverlap(t)
    requires from <= k < |t| && t[k].Some?
    ensures k in ScanFrom(t, from)
    decreases |t| - from
  {
    var i := NextMatch(t, from).value;
    if k != i {
      ScanComplete(t, i + t[i].value, k);
    }
  }

  /** The starts of all matches in `text`, in text order. */
  function MatchStarts(text: string): (r: seq<nat>)
    ensures forall k :: 0 <= k < |r| ==> r[k] < |text| && MatchAt(text, r[k])
  {
    MatchTableWellFormed(text);
    MatchTableAt(text);
    ScanFrom(MatchTable(text), 0)
  }

  /** `MatchStarts` lists exactly the positions where a match starts, each
      once, in increasing order. */
  lemma MatchStartsExact(text: string)
    ensures forall i :: 0 <= i < |text| ==> (i in MatchStarts(text) <==> MatchAt(text, i))
    ensures forall a, b :: 0 <= a < b < |MatchStarts(text)| ==> MatchStarts(text)[a] < MatchStarts(text)[b]
  {
    var t := MatchTable(text);
    MatchTableWellFormed(text);
    MatchTableNoOverlap(text);
    MatchTableAt(text);
    ScanIncreasing(t, 0);
    forall i | 0 <= i < |text| && MatchAt(text, i)
      ensures i in MatchStarts(text)
    {
      ScanComplete(t, 0, i);
    }
  }

  /** `regex.test(line)` without the global flag: a match anywhere. */
  predicate Test(line: string) {
    NextMatch(MatchTable(line), 0).Some?
  }

  /** A line passes the test exactly when a match starts somewhere in it. */
  lemma TestIffSomeMatch(line: string)
    ensures Test(line) <==> exists i :: 0 <= i < |line| && MatchAt(line, i)
  {
    MatchTableAt(line);
    var t := MatchTable(line);
    if Test(line) {
      assert MatchAt(line, NextMatch(t, 0).value);
    }
  }

  /** A line passes the test exactly when the global scan of that line's
      own text finds a match in it. */
  lemma TestIffScanFinds(line: string)
    ensures Test(line) <==> |MatchStarts(line)| > 0
  {
  }

  // ---------------------------------------------------------------------
  // What the pattern accepts and refuses
  // ---------------------------------------------------------------------

  /** A word cannot occur where the text holds a different first letter. */
  lemma FirstLetterDiffers(text: string, i: nat, word: string)
    requires i < |text| && |word| > 0 && word[0] != text[i]
    ensures !OccursAt(text, word, i)
  {
    if i + |word| <= |text| {
      assert text[i..i + |word|][0] == text[i];
    }
  }

  lemma GetWithSpaceMatches()
    ensures MatchAt("@Get ('list')", 0)
  {
    assert OccursAt("@Get ('list')", "Get", 1);
    assert VerbAt("@Get ('list')", 0, LensVerbs) == Some(0);
    assert SkipWhitespace("@Get ('list')", 5) == 5;
    assert SkipWhitespace("@Get ('list')", 4) == 5;
  }

  /** "All" is a verb for the extractor but not for the pattern. */
  lemma AllDoesNotMatch()
    ensures !MatchAt("@All()", 0)
  {
    forall k | 0 <= k < |LensVerbs|
      ensures !OccursAt("@All()", LensVerbs[k], 1)
    {
      FirstLetterDiffers("@All()", 1, LensVerbs[k]);
    }
    assert VerbAt("@All()", 0, LensVerbs).None?;
  }

  /** Only white space may separate the verb from the parenthesis: in
      "@Headers()" the pattern finds "Head" and then an 'e'. */
  lemma HeadersDoesNotMatch()
    ensures !MatchAt("@Headers()", 0)
  {
    var text := "@Headers()";
    forall k | 0 <= k < 6
      ensures !OccursAt(text, LensVerbs[k], 1)
    {
      FirstLetterDiffers(text, 1, LensVerbs[k]);
    }
    assert OccursAt(text, LensVerbs[6], 1);
    assert |LensVerbs[6]| == 4;
    LetterIsNotWhitespace(text[5]);
    NoParenAfterVerb(text, 0, 6);
  }

  /** A verb with nothing after it is not a match. */
  lemma GetAloneDoesNotMatch()
    ensures forall i :: 0 <= i < |"@Get"| ==> !MatchAt("@Get", i)
  {
    var line := "@Get";
    forall i | 0 <= i < |line|
      ensures !MatchAt(line, i)
    {
      if i == 0 {
        assert OccursAt(line, "Get", 1);
        assert VerbAt(line, 0, LensVerbs) == Some(0);
        assert SkipWhitespace(line, 4) == 4;
      } else {
        assert line[i] != '@';
      }
    }
  }

  lemma LetterIsNotWhitespace(c: char)
    requires IsAsciiLetter(c)
    ensures !IsWhitespace(c) && c != '('
  {
  }

  /** The first verb spelled after '@' followed by a character that is
      neither white space nor '(' is not a match. */
  lemma NoParenAfterVerb(text: string, i: nat, k: nat)
    requires i < |text| && k < |LensVerbs|
    requires OccursAt(text, LensVerbs[k], i + 1)
    requires forall k' :: 0 <= k' < k ==> !OccursAt(text, LensVerbs[k'], i + 1)
    requires i + 1 + |LensVerbs[k]| < |text|
    requires !IsWhitespace(text[i + 1 + |LensVerbs[k]|]) && text[i + 1 + |LensVerbs[k]|] != '('
    ensures !MatchAt(text, i)
  {
    assert VerbAt(text, i, LensVerbs) == Some(k);
    assert SkipWhitespace(text, i + 1 + |LensVerbs[k]|) == i + 1 + |LensVerbs[k]|;
  }

  // ---------------------------------------------------------------------
  // A line inside a larger text
  // ---------------------------------------------------------------------

  /** `\s*` stops at the same place whether it reads a piece of text or the
      text around it, as long as it stops inside the piece. */
  lemma SkipWhitespaceInSlice(text: string, o: nat, line: string, p: nat)
    requires o + |line| <= |text| && text[o..o + |line|] == line
    requires p <= |line| && SkipWhitespace(line, p) < |line|
    ensures SkipWhitespace(text, o + p) == o + SkipWhitespace(line, p)
  {
    var q := SkipWhitespace(line, p);
    var r := SkipWhitespace(text, o + p);
    assert forall k :: o + p <= k < o + q ==> text[k] == line[k - o];
    assert text[o + q] == line[q];
  }

  /** A word spelled in a piece of text is spelled at the same place in the
      text around it. */
  lemma OccursInSlice(text: string, o: nat, line: string, word: string, p: nat)
    requires o + |line| <= |text| && text[o..o + |line|] == line
    requires OccursAt(line, word, p)
    ensures OccursAt(text, word, o + p)
  {
    forall m | 0 <= m < |word|
      ensures text[o + p + m] == word[m]
    {
      assert text[o + p + m] == line[p + m];
      assert line[p..p + |word|][m] == line[p + m];
    }
    assert text[o + p..o + p + |word|] == word;
  }

  /** A word the text around a piece spells at a place inside the piece
      is spelled there in the piece. */
  lemma OccursFromSlice(text: string, o: nat, line: string, word: string, p: nat)
    requires o + |line| <= |text| && text[o..o + |line|] == line
    requires p + |word| <= |line|
    ensures OccursAt(text, word, o + p) ==> OccursAt(line, word, p)
  {
    if OccursAt(text, word, o + p) {
      forall m | 0 <= m < |word|
        ensures line[p + m] == word[m]
      {
        assert text[o + p..o + p + |word|][m] == word[m];
        assert text[o + p + m] == line[p + m];
      }
      assert line[p..p + |word|] == word;
    }
  }

  /** The alternatives that come before `verbs[k]` and are not spelled
      after the '@' inside the piece are not spelled there in the text
      around it either, when the piece goes on after `verbs[k]` with white
      space or '('. */
  lemma EarlierVerbsInSlice(verbs: seq<string>, text: string, o: nat, line: string, i: nat, k: nat)
    requires AllLetters(verbs)
    requires o + |line| <= |text| && text[o..o + |line|] == line
    requires k < |verbs| && i + 1 + |verbs[k]| < |line|
    requires IsWhitespace(line[i + 1 + |verbs[k]|]) || line[i + 1 + |verbs[k]|] == '('
    requires forall k' :: 0 <= k' < k ==> !OccursAt(line, verbs[k'], i + 1)
    ensures forall k' :: 0 <= k' < k ==> !OccursAt(text, verbs[k'], o + i + 1)
  {
    var v := verbs[k];
    forall k' | 0 <= k' < k
      ensures !OccursAt(text, verbs[k'], o + i + 1)
    {
      var w := verbs[k'];
      if i + 1 + |w| <= |line| {
        OccursFromSlice(text, o, line, w, i + 1);
      } else if o + i + 1 + |w| <= |text| {
        // the longer alternative would need a letter where the piece has
        // white space or '('
        assert IsAsciiLetter(w[|v|]);
        LetterIsNotWhitespace(w[|v|]);
        assert text[o + i + 1..o + i + 1 + |w|][|v|] == text[o + i + 1 + |v|];
        assert text[o + i + 1 + |v|] == line[i + 1 + |v|];
      }
    }
  }

  /** A match in a piece of text is a match, of the same length, at the
      same place in the text around it: what follows the piece cannot undo
      it, because the verb is followed inside the piece by white space or
      '(' and no longer verb can continue with either. */
  lemma MatchInSlice(text: string, o: nat, line: string, i: nat)
    requires o + |line| <= |text| && text[o..o + |line|] == line
    requires MatchAt(line, i)
    ensures MatchAt(text, o + i)
    ensures MatchLength(text, o + i).value == MatchLength(line, i).value
  {
    VerbsAreLetters();
    PatternInSlice(LensVerbs, text, o, line, i);
  }

  /** The same for any alternatives spelled in letters. */
  lemma PatternInSlice(verbs: seq<string>, text: string, o: nat, line: string, i: nat)
    requires AllLetters(verbs)
    requires o + |line| <= |text| && text[o..o + |line|] == line
    requires PatternLength(verbs, line, i).Some?
    ensures PatternLength(verbs, text, o + i).Some?
    ensures PatternLength(verbs, text, o + i).value == PatternLength(verbs, line, i).value
  {
    var k, j := PatternParts(verbs, line, i);
    PartsInSlice(verbs, text, o, line, i, k, j);
  }

  /** The parts of a match in a piece of text, read in the text around it,
      make a match there. */
  lemma PartsInSlice(verbs: seq<string>, text: string, o: nat, line: string, i: nat, k: nat, j: nat)
    requires AllLetters(verbs)
    requires o + |line| <= |text| && text[o..o + |line|] == line
    requires i < |line| && line[i] == '@'
    requires k < |verbs| && OccursAt(line, verbs[k], i + 1)
    requires forall k' :: 0 <= k' < k ==> !OccursAt(line, verbs[k'], i + 1)
    requires i + 1 + |verbs[k]| <= j < |line|
    requires SkipWhitespace(line, i + 1 + |verbs[k]|) == j && line[j] == '('
    requires IsWhitespace(line[i + 1 + |verbs[k]|]) || line[i + 1 + |verbs[k]|] == '('
    ensures PatternLength(verbs, text, o + i).Some?
    ensures PatternLength(verbs, text, o + i).value == j + 1 - i
  {
    var v := verbs[k];
    VerbInSlice(verbs, text, o, line, i, k);
    SkipWhitespaceInSlice(text, o, line, i + 1 + |v|);
    assert SkipWhitespace(text, (o + i) + 1 + |v|) == o + j;
    assert text[o + j] == line[j];
    PatternFromFirstVerb(verbs, text, o + i, k, o + j);
  }

  /** '@', the first alternative spelled after it, white space up to j and
      '(' at j make a match ending after j. */
  lemma PatternFromFirstVerb(verbs: seq<string>, text: string, i: nat, k: nat, j: nat)
    requires i < |text| && text[i] == '@'
    requires k < |verbs| && OccursAt(text, verbs[k], i + 1)
    requires forall k' :: 0 <= k' < k ==> !OccursAt(text, verbs[k'], i + 1)
    requires SkipWhitespace(text, i + 1 + |verbs[k]|) == j
    requires j < |text| && text[j] == '('
    ensures PatternLength(verbs, text, i).Some?
    ensures PatternLength(verbs, text, i).value == j + 1 - i
  {
    FirstVerb(verbs, text, i, k);
    PatternFromParts(verbs, text, i, k, j);
  }

  /** '@' and the first alternative spelled after it inside a piece of
      text, when the piece goes on with white space or '(', are '@' and the
      first alternative spelled there in the text around it. */
  lemma VerbInSlice(verbs: seq<string>, text: string, o: nat, line: string, i: nat, k: nat)
    requires AllLetters(verbs)
    requires o + |line| <= |text| && text[o..o + |line|] == line
    requires i < |line| && line[i] == '@'
    requires k < |verbs| && OccursAt(line, verbs[k], i + 1) && i + 1 + |verbs[k]| < |line|
    requires forall k' :: 0 <= k' < k ==> !OccursAt(line, verbs[k'], i + 1)
    requires IsWhitespace(line[i + 1 + |verbs[k]|]) || line[i + 1 + |verbs[k]|] == '('
    ensures o + i < |text| && text[o + i] == '@'
    ensures OccursAt(text, verbs[k], o + i + 1)
    ensures forall k' :: 0 <= k' < k ==> !OccursAt(text, verbs[k'], o + i + 1)
  {
    assert text[o + i] == line[i];
    OccursInSlice(text, o, line, verbs[k], i + 1);
    EarlierVerbsInSlice(verbs, text, o, line, i, k);
  }

  /** What a match is made of: '@', the first alternative `verbs[k]`
      spelled after it, white space up to position j, and '(' at j. */
  lemma PatternParts(verbs: seq<string>, text: string, i: nat) returns (k: nat, j: nat)
    requires PatternLength(verbs, text, i).Some?
    ensures i < |text| && text[i] == '@'
    ensures k < |verbs| && OccursAt(text, verbs[k], i + 1)
    ensures forall k' :: 0 <= k' < k ==> !OccursAt(text, verbs[k'], i + 1)
    ensures i + 1 + |verbs[k]| <= j < |text|
    ensures SkipWhitespace(text, i + 1 + |verbs[k]|) == j && text[j] == '('
    ensures IsWhitespace(text[i + 1 + |verbs[k]|]) || text[i + 1 + |verbs[k]|] == '('
    ensures PatternLength(verbs, text, i).value == j + 1 - i
  {
    k := VerbAt(text, i, verbs).value;
    j := SkipWhitespace(text, i + 1 + |verbs[k]|);
  }

  /** The converse: '@', the alternative picked after it, white space up to
      j and '(' at j make a match ending after j. */
  lemma PatternFromParts(verbs: seq<string>, text: string, i: nat, k: nat, j: nat)
    requires i < |text| && text[i] == '@'
    requires VerbAt(text, i, verbs).Some? && VerbAt(text, i, verbs).value == k
    requires k < |verbs| && SkipWhitespace(text, i + 1 + |verbs[k]|) == j
    requires j < |text| && text[j] == '('
    ensures PatternLength(verbs, text, i).Some?
    ensures PatternLength(verbs, text, i).value == j + 1 - i
  {
  }

  /** The alternative picked is the first one spelled. */
  lemma {:induction false} FirstVerb(verbs: seq<string>, text: string, i: nat, k: nat)
    requires k < |verbs| && OccursAt(text, verbs[k], i + 1)
    requires forall k' :: 0 <= k' < k ==> !OccursAt(text, verbs[k'], i + 1)
    ensures VerbAt(text, i, verbs).Some? && VerbAt(text, i, verbs).value == k
    decreases k
  {
    if k > 0 {
      assert !OccursAt(text, verbs[0], i + 1);
      assert forall k' :: 0 <= k' < k - 1 ==> verbs[1..][k'] == verbs[k' + 1];
      FirstVerb(verbs[1..], text, i, k - 1);
    }
  }
}
