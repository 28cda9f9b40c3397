/** The JavaScript string operations the extension relies on: `trim`,
    `includes`, `replace` of the first occurrence, quote stripping,
    case mapping and decimal rendering of numbers. */
module Strings {
  import opened Wrappers

  /** The characters `String.prototype.trim` and the regex class `\s` treat
      as white space: ECMAScript WhiteSpace and LineTerminator code points. */
  predicate IsWhitespace(c: char) {
    c == ' ' || c == '\t' || c == '\n' || c == '\r' || c == '\U{000B}' || c == '\U{000C}'
    || c == '\U{00A0}' || c == '\U{1680}' || ('\U{2000}' <= c <= '\U{200A}')
    || c == '\U{2028}' || c == '\U{2029}' || c == '\U{202F}' || c == '\U{205F}'
    || c == '\U{3000}' || c == '\U{FEFF}'
  }

  predicate IsBlank(s: string) {
    forall i :: 0 <= i < |s| ==> IsWhitespace(s[i])
  }

  function TrimStart(s: string): (r: string)
    ensures |r| <= |s| && r == s[|s| - |r|..]
    ensures r == [] || !IsWhitespace(r[0])
    ensures forall i :: 0 <= i < |s| - |r| ==> IsWhitespace(s[i])
  {
    if |s| > 0 && IsWhitespace(s[0]) then TrimStart(s[1..]) else s
  }

  function TrimEnd(s: string): (r: string)
    ensures |r| <= |s| && r == s[..|r|]
    ensures r == [] || !IsWhitespace(r[|r| - 1])
    ensures forall i :: |r| <= i < |s| ==> IsWhitespace(s[i])
  {
    if |s| > 0 && IsWhitespace(s[|s| - 1]) then TrimEnd(s[..|s| - 1]) else s
  }

  /** `r` is empty or starts and ends with a non-white-space character. */
  predicate SolidEnds(r: string) {
    r == [] || (!IsWhitespace(r[0]) && !IsWhitespace(r[|r| - 1]))
  }

  /** `r` is `s` with a blank head and a blank tail cut off. */
  predicate IsCore(s: string, r: string) {
    exists i, j :: 0 <= i <= j <= |s| && r == s[i..j] && IsBlank(s[..i]) && IsBlank(s[j..])
  }

  /** `String.prototype.trim`: the part of `s` between a blank head and a
      blank tail, starting and ending with a non-white-space character; the
      result is empty exactly when `s` is blank. */
  function Trim(s: string): (r: string)
    ensures IsCore(s, r)
    ensures SolidEnds(r)
    ensures r == [] <==> IsBlank(s)
    ensures |s| > 0 && !IsWhitespace(s[0]) && !IsWhitespace(s[|s| - 1]) ==> r == s
    ensures forall i :: 0 <= i < |r| ==> r[i] in s
  {
    TrimCore(s);
    TrimMembers(s);
    TrimEnds(s);
    TrimEmpty(s);
    TrimUnpadded(s);
    TrimEnd(TrimStart(s))
  }

  /** The two trimming steps cut off a blank head and a blank tail. */
  lemma TrimCore(s: string)
    ensures IsCore(s, TrimEnd(TrimStart(s)))
  {
    var t := TrimStart(s);
    var r := TrimEnd(t);
    var i := |s| - |t|;
    assert t == s[i..];
    assert r == s[i..i + |r|];
    var tail := s[i + |r|..];
    assert IsBlank(tail) by {
      forall k | 0 <= k < |tail| ensures IsWhitespace(tail[k]) {
        assert tail[k] == t[|r| + k];
      }
    }
    assert IsBlank(s[..i]);
  }

  /** Every character left by trimming comes from the text. */
  lemma TrimMembers(s: string)
    ensures forall i :: 0 <= i < |TrimEnd(TrimStart(s))| ==> TrimEnd(TrimStart(s))[i] in s
  {
    var t := TrimStart(s);
    var r := TrimEnd(t);
    var i := |s| - |t|;
    assert r == s[i..i + |r|];
    forall k | 0 <= k < |r| ensures r[k] in s {
      assert r[k] == s[i + k];
    }
  }

  /** What trimming leaves starts and ends with a non-white-space character. */
  lemma TrimEnds(s: string)
    ensures SolidEnds(TrimEnd(TrimStart(s)))
  {
    var t := TrimStart(s);
    var r := TrimEnd(t);
    assert r != [] ==> r[0] == t[0];
  }

  /** Trimming leaves nothing exactly when the text is blank. */
  lemma TrimEmpty(s: string)
    ensures TrimEnd(TrimStart(s)) == [] <==> IsBlank(s)
  {
    var t := TrimStart(s);
    var r := TrimEnd(t);
    if t != [] {
      assert t[0] == s[|s| - |t|] && !IsWhitespace(t[0]);
      assert r != [];
    }
  }

  /** Text that starts and ends with a non-white-space character is kept. */
  lemma TrimUnpadded(s: string)
    ensures |s| > 0 && !IsWhitespace(s[0]) && !IsWhitespace(s[|s| - 1]) ==> TrimEnd(TrimStart(s)) == s
  {
  }

  /** Trimming drops exactly the blank padding around a word that starts and
      ends with a non-white-space character. */
  lemma TrimPadded(a: string, w: string, b: string)
    requires IsBlank(a) && IsBlank(b)
    requires w != [] && !IsWhitespace(w[0]) && !IsWhitespace(w[|w| - 1])
    ensures Trim(a + w + b) == w
  {
    assert a + w + b == a + (w + b);
    TrimStartBlank(a, w + b);
    TrimEndBlank(w, b);
  }

  lemma {:induction false} TrimStartBlank(a: string, t: string)
    requires IsBlank(a) && (t == [] || !IsWhitespace(t[0]))
    ensures TrimStart(a + t) == t
  {
    if |a| > 0 {
      assert (a + t)[1..] == a[1..] + t;
      TrimStartBlank(a[1..], t);
    } else {
      assert a + t == t;
    }
  }

  lemma {:induction false} TrimEndBlank(t: string, b: string)
    requires IsBlank(b) && (t == [] || !IsWhitespace(t[|t| - 1]))
    ensures TrimEnd(t + b) == t
  {
    if |b| > 0 {
      assert (t + b)[..|t + b| - 1] == t + b[..|b| - 1];
      TrimEndBlank(t, b[..|b| - 1]);
    } else {
      assert t + b == t;
    }
  }

  predicate IsQuote(c: char) {
    c == '\'' || c == '"'
  }

    /** Trimming a text without quotes leaves none. */
  lemma TrimNoQuote(s: string)
    requires forall i :: 0 <= i < |s| ==> !IsQuote(s[i])
    ensures forall i :: 0 <= i < |Trim(s)| ==> !IsQuote(Trim(s)[i])
  {
    forall i | 0 <= i < |Trim(s)| ensures !IsQuote(Trim(s)[i]) {
      var j :| 0 <= j < |s| && s[j] == Trim(s)[i];
    }
  }

/** `text.replace(/['"]/g, "")`: every single and double quote removed. */
  function StripQuotes(s: string): (r: string)
    ensures |r| <= |s|
    ensures forall i :: 0 <= i < |r| ==> !IsQuote(r[i])
    ensures (forall i :: 0 <= i < |s| ==> !IsQuote(s[i])) ==> r == s
  {
    if |s| == 0 then ""
    else (if IsQuote(s[0]) then "" else [s[0]]) + StripQuotes(s[1..])
  }

  /** One character is kept exactly when it is not a quote. */
  lemma StripQuotesChar(c: char)
    ensures StripQuotes([c]) == if IsQuote(c) then "" else [c]
  {
    assert [c][1..] == [];
  }

  /** Quote removal works piece by piece, so the kept characters stay in order. */
  lemma {:induction false} StripQuotesAppend(a: string, b: string)
    ensures StripQuotes(a + b) == StripQuotes(a) + StripQuotes(b)
  {
    if |a| > 0 {
      var head := if IsQuote(a[0]) then "" else [a[0]];
      assert (a + b)[0] == a[0] && (a + b)[1..] == a[1..] + b;
      assert StripQuotes(a + b) == head + StripQuotes(a[1..] + b);
      StripQuotesAppend(a[1..], b);
    } else {
      assert a + b == b;
    }
  }

  predicate OccursAt(s: string, pat: string, i: nat) {
    i + |pat| <= |s| && s[i..i + |pat|] == pat
  }

  /** Position of the first occurrence of `pat` in `s` at or after `from`. */
  function IndexOfFrom(s: string, pat: string, from: nat): (r: Option<nat>)
    ensures r.Some? ==> from <= r.value && OccursAt(s, pat, r.value)
    ensures r.Some? ==> forall j :: from <= j < r.value ==> !OccursAt(s, pat, j)
    ensures r.None? ==> forall j :: from <= j ==> !OccursAt(s, pat, j)
    decreases |s| - from
  {
    if from + |pat| > |s| then None
    else if OccursAt(s, pat, from) then Some(from)
    else IndexOfFrom(s, pat, from + 1)
  }

  /** Position of the first occurrence of `pat` in `s` (`indexOf`). */
  function IndexOf(s: string, pat: string): (r: Option<nat>)
    ensures r.Some? ==> OccursAt(s, pat, r.value)
    ensures r.Some? ==> forall j :: 0 <= j < r.value ==> !OccursAt(s, pat, j)
    ensures r.None? <==> forall j :: 0 <= j ==> !OccursAt(s, pat, j)
  {
    IndexOfFrom(s, pat, 0)
  }

  /** `s.includes(pat)`. */
  predicate Contains(s: string, pat: string) {
    IndexOf(s, pat).Some?
  }

  lemma ContainsAt(s: string, pat: string, i: nat)
    requires OccursAt(s, pat, i)
    ensures Contains(s, pat)
  {
  }

  /** `s.replace(pat, "")` with a string pattern: only the first occurrence goes. */
  function RemoveFirst(s: string, pat: string): (r: string)
    ensures IndexOf(s, pat).None? ==> r == s
    ensures IndexOf(s, pat).Some? ==>
      |r| == |s| - |pat| && r == s[..IndexOf(s, pat).value] + s[IndexOf(s, pat).value + |pat|..]
  {
    match IndexOf(s, pat)
    case None => s
    case Some(i) => s[..i] + s[i + |pat|..]
  }

  /** ASCII case mapping; the letters of the extension's own keywords are ASCII. */
  function UpperChar(c: char): char {
    if 'a' <= c <= 'z' then (c as int - 32) as char else c
  }

  function LowerChar(c: char): char {
    if 'A' <= c <= 'Z' then (c as int + 32) as char else c
  }

  function ToUpper(s: string): (r: string)
    ensures |r| == |s| && forall i :: 0 <= i < |s| ==> r[i] == UpperChar(s[i])
  {
    seq(|s|, i requires 0 <= i < |s| => UpperChar(s[i]))
  }

  function ToLower(s: string): (r: string)
    ensures |r| == |s| && forall i :: 0 <= i < |s| ==> r[i] == LowerChar(s[i])
  {
    seq(|s|, i requires 0 <= i < |s| => LowerChar(s[i]))
  }

  predicate IsDigit(c: char) {
    '0' <= c <= '9'
  }

  function DigitChar(d: nat): char
    requires d < 10
  {
    ('0' as int + d) as char
  }

  /** Decimal rendering of a natural number, as a template literal prints it. */
  function NatString(n: nat): (r: string)
    ensures |r| > 0 && forall i :: 0 <= i < |r| ==> IsDigit(r[i])
    ensures |r| > 1 ==> r[0] != '0'
  {
    if n < 10 then [DigitChar(n)] else NatString(n / 10) + [DigitChar(n % 10)]
  }

  /** Decimal rendering of an integer: a minus sign for negatives, then the
      digits of its magnitude. */
  function IntString(n: int): (r: string)
    ensures n >= 0 ==> r == NatString(n)
    ensures n < 0 ==> r == "-" + NatString(-n)
    ensures forall i :: 0 <= i < |r| ==> r[i] == '-' || IsDigit(r[i])
  {
    if n >= 0 then NatString(n) else "-" + NatString(-n)
  }

  /** JavaScript truthiness of an optional string: defined and non-empty. */
  predicate Truthy(o: Option<string>) {
    o.Some? && o.value != ""
  }
}
