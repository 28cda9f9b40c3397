/** RequestPanel.ts: the webview panel that sends HTTP requests. Modelled
    here: how a "sendRequest" message becomes a request (headers, query
    string, body), the response-size label, and the life cycle of the one
    panel the extension keeps open. */
module Panel {
  import opened Wrappers
  import opened Strings
  import opened JsonValue
  import Extension
  import EnvParser

  // ---------------------------------------------------------------------
  // The "sendRequest" message and the request built from it
  // ---------------------------------------------------------------------

  datatype Auth = Auth(authType: string, user: Option<string>, pass: Option<string>, token: Option<string>)

  /** A header or query-parameter row of the panel's tables. */
  datatype Row = Row(key: Option<string>, value: Option<string>, enabled: Option<bool>)

  datatype SendRequestMessage = SendRequestMessage(
    httpMethod: string,
    url: string,
    body: Option<string>,
    auth: Option<Auth>,
    headers: Option<seq<Row>>,
    queryParams: Option<seq<Row>>)

  datatype RequestData = NoData | JsonData(value: Json) | RawData(text: string)

  /** What is handed to the HTTP client. Header order is not kept. */
  datatype Request = Request(httpMethod: string, url: string, data: RequestData, headers: map<string, string>)

  /** `x || ''` on an optional string. */
  function OrEmpty(o: Option<string>): (r: string)
    ensures Truthy(o) ==> r == o.value
    ensures !Truthy(o) ==> r == ""
  {
    if Truthy(o) then o.value else ""
  }

  /** `message.body && message.body.trim() !== ''`. */
  predicate HasBody(msg: SendRequestMessage) {
    msg.body.Some? && !IsBlank(msg.body.value)
  }

  /** `row.enabled !== false && row.key && row.key.trim()`. */
  predicate RowEnabled(r: Row) {
    r.enabled != Some(false) && r.key.Some? && !IsBlank(r.key.value)
  }

  const ContentType := "Content-Type"
  const Authorization := "Authorization"
  const DataVerbs: seq<string> := ["POST", "PUT", "PATCH"]

  /** The Authorization value: HTTP Basic (section 2 of RFC 7617) when the
      type is "basic" and a user is given, the password defaulting to "";
      a Bearer token (section 2.1 of RFC 6750) when the type is "bearer"
      and a token is given; none otherwise. `base64` is the encoder. */
  function AuthHeader(auth: Option<Auth>, base64: string -> string): (r: Option<string>)
    ensures auth.Some? && auth.value.authType == "basic" && Truthy(auth.value.user) ==>
      r == Some("Basic " + base64(auth.value.user.value + ":" + OrEmpty(auth.value.pass)))
    ensures (auth.Some? && !(auth.value.authType == "basic" && Truthy(auth.value.user))
             && auth.value.authType == "bearer" && Truthy(auth.value.token)) ==>
      r == Some("Bearer " + auth.value.token.value)
    ensures r.Some? <==>
      (auth.Some? && ((auth.value.authType == "basic" && Truthy(auth.value.user))
                      || (auth.value.authType == "bearer" && Truthy(auth.value.token))))
  {
    match auth
    case None => None
    case Some(a) =>
      if a.authType == "basic" && Truthy(a.user) then Some("Basic " + base64(a.user.value + ":" + OrEmpty(a.pass)))
      else if a.authType == "bearer" && Truthy(a.token) then Some("Bearer " + a.token.value)
      else None
  }

  /** The headers set before the custom rows are applied. */
  function AutoHeaders(msg: SendRequestMessage, base64: string -> string): (h: map<string, string>)
    ensures ContentType in h <==> HasBody(msg) && msg.httpMethod != "GET" && msg.httpMethod != "DELETE"
    ensures ContentType in h ==> h[ContentType] == "application/json"
    ensures Authorization in h <==> AuthHeader(msg.auth, base64).Some?
    ensures Authorization in h ==> h[Authorization] == AuthHeader(msg.auth, base64).value
    ensures forall k :: k in h ==> k == ContentType || k == Authorization
  {
    var h0: map<string, string> :=
      if HasBody(msg) && msg.httpMethod != "GET" && msg.httpMethod != "DELETE"
      then map[ContentType := "application/json"] else map[];
    match AuthHeader(msg.auth, base64)
    case None => h0
    case Some(v) => h0[Authorization := v]
  }

  /** The headers after the enabled custom rows have been assigned in order. */
  function ApplyRows(h: map<string, string>, rows: seq<Row>): (r: map<string, string>)
    ensures forall k :: k in r <==> k in h || exists i :: 0 <= i < |rows| && RowEnabled(rows[i]) && rows[i].key.value == k
  {
    if |rows| == 0 then h
    else
      var prefix := rows[..|rows| - 1];
      var last := rows[|rows| - 1];
      assert forall i :: 0 <= i < |prefix| ==> prefix[i] == rows[i];
      var before := ApplyRows(h, prefix);
      if RowEnabled(last) then before[last.key.value := OrEmpty(last.value)] else before
  }

  /** An enabled row wins over earlier rows and over the automatic headers
      when no later enabled row has the same key. */
  lemma {:induction false} LastRowWins(h: map<string, string>, rows: seq<Row>, i: nat)
    requires i < |rows| && RowEnabled(rows[i])
    requires forall j :: i < j < |rows| && RowEnabled(rows[j]) ==> rows[j].key.value != rows[i].key.value
    ensures ApplyRows(h, rows)[rows[i].key.value] == OrEmpty(rows[i].value)
  {
    if i < |rows| - 1 {
      var prefix := rows[..|rows| - 1];
      assert prefix[i] == rows[i];
      LastRowWins(h, prefix, i);
    }
  }

  /** A header no enabled row names keeps its automatic value. */
  lemma {:induction false} UnnamedHeaderKept(h: map<string, string>, rows: seq<Row>, k: string)
    requires k in h
    requires forall j :: 0 <= j < |rows| && RowEnabled(rows[j]) ==> rows[j].key.value != k
    ensures ApplyRows(h, rows)[k] == h[k]
  {
    if |rows| > 0 {
      var prefix := rows[..|rows| - 1];
      assert forall j :: 0 <= j < |prefix| ==> prefix[j] == rows[j];
      UnnamedHeaderKept(h, prefix, k);
    }
  }

  /** `parts.join(sep)`. */
  function Join(parts: seq<string>, sep: string): (r: string)
    ensures |parts| == 0 ==> r == ""
    ensures |parts| == 1 ==> r == parts[0]
    ensures |parts| > 0 ==> |r| >= |parts[0]|
  {
    if |parts| == 0 then ""
    else if |parts| == 1 then parts[0]
    else Join(parts[..|parts| - 1], sep) + sep + parts[|parts| - 1]
  }

  /** The pieces of `s` between the occurrences of `c` (`s.split(c)`):
      joining them back with `c` gives `s`. */
  function SplitOn(s: string, c: char): (r: seq<string>)
    ensures |r| > 0
    ensures forall k :: 0 <= k < |r| ==> c !in r[k]
    ensures Join(r, [c]) == s
    decreases |s|
  {
    match LastWhere(s, (x: char) => x == c)
    case None => [s]
    case Some(i) =>
      var init := SplitOn(s[..i], c);
      var last := s[i + 1..];
      assert forall m :: 0 <= m < |last| ==> last[m] == s[i + 1 + m];
      assert (init + [last])[..|init|] == init;
      assert s == s[..i] + [c] + last;
      init + [last]
  }

  /** Splitting undoes joining when no part holds the separator. */
  lemma {:induction false} SplitJoin(parts: seq<string>, c: char)
    requires |parts| > 0
    requires forall k :: 0 <= k < |parts| ==> c !in parts[k]
    ensures SplitOn(Join(parts, [c]), c) == parts
    decreases |parts|
  {
    if |parts| == 1 {
      var s := parts[0];
      assert forall j :: 0 <= j < |s| ==> s[j] != c;
    } else {
      var init := parts[..|parts| - 1];
      var last := parts[|parts| - 1];
      SplitJoin(init, c);
      assert init + [last] == parts;
      SplitJoinStep(init, last, c);
    }
  }

  /** The step of `SplitJoin`: one more part after a separator. */
  lemma SplitJoinStep(init: seq<string>, last: string, c: char)
    requires |init| > 0 && c !in last
    requires SplitOn(Join(init, [c]), c) == init
    ensures SplitOn(Join(init + [last], [c]), c) == init + [last]
  {
    var parts := init + [last];
    assert parts[..|parts| - 1] == init;
    assert Join(parts, [c]) == Join(init, [c]) + [c] + last;
    SplitLast(Join(init, [c]), c, last);
  }

  /** A last piece without `c`, after a `c`, is split off whole. */
  lemma SplitLast(a: string, c: char, last: string)
    requires c !in last
    ensures SplitOn(a + [c] + last, c) == SplitOn(a, c) + [last]
  {
    var s := a + [c] + last;
    var p := (x: char) => x == c;
    assert p(s[|a|]);
    assert forall j :: |a| < j < |s| ==> s[j] == last[j - |a| - 1];
    assert LastWhere(s, p) == Some(|a|);
    assert s[..|a|] == a && s[|a| + 1..] == last;
  }

  /** One `key=value` pair, each side URI-encoded by `encode`. */
  function QueryPair(r: Row, encode: string -> string): (s: string)
    ensures '=' in s
  {
    var key := if r.key.Some? then r.key.value else "";
    var s := encode(key) + "=" + encode(OrEmpty(r.value));
    assert s[|encode(key)|] == '=';
    s
  }

  /** With an encoder that escapes '=', as `encodeURIComponent` does, a pair
      splits back into the encoded key and the encoded value (or ""). */
  lemma QueryPairSplits(r: Row, encode: string -> string)
    requires forall t :: '=' !in encode(t)
    ensures SplitOn(QueryPair(r, encode), '=')
         == [encode(if r.key.Some? then r.key.value else ""), encode(OrEmpty(r.value))]
  {
    var parts := [encode(if r.key.Some? then r.key.value else ""), encode(OrEmpty(r.value))];
    assert parts[..1] == [parts[0]];
    assert Join(parts, "=") == QueryPair(r, encode);
    SplitJoin(parts, '=');
  }

  /** The query string of the enabled rows, joined with '&'. */
  function QueryString(rows: seq<Row>, encode: string -> string): (q: string)
    ensures q == "" <==> forall i :: 0 <= i < |rows| ==> !RowEnabled(rows[i])
  {
    var enabled := Filter(rows, RowEnabled);
    FilterEmpty(rows, RowEnabled);
    var pairs := Map(enabled, (r: Row) => QueryPair(r, encode));
    assert |pairs| > 0 ==> '=' in pairs[0];
    Join(pairs, "&")
  }

  /** With an encoder that escapes '&', as `encodeURIComponent` does, a
      non-empty query string splits into one pair per enabled row, in row
      order. */
  lemma QueryStringSplits(rows: seq<Row>, encode: string -> string)
    requires forall t :: '&' !in encode(t)
    ensures QueryString(rows, encode) != "" ==>
      SplitOn(QueryString(rows, encode), '&') == Map(Filter(rows, RowEnabled), (r: Row) => QueryPair(r, encode))
  {
    var pairs := Map(Filter(rows, RowEnabled), (r: Row) => QueryPair(r, encode));
    if |pairs| > 0 {
      forall k | 0 <= k < |pairs|
        ensures '&' !in pairs[k]
      {
        var r := Filter(rows, RowEnabled)[k];
        var key := encode(if r.key.Some? then r.key.value else "");
        var value := encode(OrEmpty(r.value));
        assert pairs[k] == key + "=" + value;
      }
      SplitJoin(pairs, '&');
    }
  }

  /** `Filter` keeps nothing exactly when no element qualifies. */
  lemma {:induction false} FilterEmpty<T>(s: seq<T>, p: T -> bool)
    ensures |Filter(s, p)| == 0 <==> forall i :: 0 <= i < |s| ==> !p(s[i])
  {
    if |s| > 0 {
      var prefix := s[..|s| - 1];
      FilterEmpty(prefix, p);
      assert forall i :: 0 <= i < |prefix| ==> prefix[i] == s[i];
    }
  }

  /** The URL with the query string appended after '?' or, when the URL
      already holds a '?', after '&'; unchanged when there is none. */
  function WithQuery(url: string, query: string): (r: string)
    ensures query == "" ==> r == url
    ensures query != "" && !Contains(url, "?") ==> r == url + "?" + query
    ensures query != "" && Contains(url, "?") ==> r == url + "&" + query
  {
    if query == "" then url else url + (if Contains(url, "?") then "&" else "?") + query
  }

  function QueryOf(msg: SendRequestMessage, encode: string -> string): string {
    if msg.queryParams.Some? then QueryString(msg.queryParams.value, encode) else ""
  }

  function RowsOf(rows: Option<seq<Row>>): seq<Row> {
    if rows.Some? then rows.value else []
  }

  /** One more row: an enabled row assigns its key, any other row is
      skipped. */
  lemma ApplyRowsStep(h: map<string, string>, rows: seq<Row>, i: nat)
    requires i < |rows|
    ensures ApplyRows(h, rows[..i + 1]) ==
      if RowEnabled(rows[i]) then ApplyRows(h, rows[..i])[rows[i].key.value := OrEmpty(rows[i].value)]
      else ApplyRows(h, rows[..i])
  {
    assert rows[..i + 1][..i] == rows[..i];
  }

  /** Steps 1 and 2 of `_handleSendRequest`: Content-Type for a body sent
      with a method other than GET and DELETE, then Authorization. */
  method AutomaticHeaders(msg: SendRequestMessage, base64: string -> string) returns (headers: map<string, string>)
    ensures headers == AutoHeaders(msg, base64)
  {
    headers := map[];
    if HasBody(msg) && msg.httpMethod != "GET" && msg.httpMethod != "DELETE" {
      headers := headers[ContentType := "application/json"];
    }
    if msg.auth.Some? {
      var a := msg.auth.value;
      if a.authType == "basic" && Truthy(a.user) {
        headers := headers[Authorization := "Basic " + base64(a.user.value + ":" + OrEmpty(a.pass))];
      } else if a.authType == "bearer" && Truthy(a.token) {
        headers := headers[Authorization := "Bearer " + a.token.value];
      }
    }
  }

  /** Steps 1 to 3 of `_handleSendRequest`: the automatic headers, then the
      custom rows in order. */
  method BuildHeaders(msg: SendRequestMessage, base64: string -> string) returns (headers: map<string, string>)
    ensures headers == ApplyRows(AutoHeaders(msg, base64), RowsOf(msg.headers))
  {
    headers := AutomaticHeaders(msg, base64);
    var rows := RowsOf(msg.headers);
    ghost var auto := headers;
    for i := 0 to |rows|
      invariant headers == ApplyRows(auto, rows[..i])
    {
      ApplyRowsStep(auto, rows, i);
      var row := rows[i];
      if row.key.Some? && !IsBlank(row.key.value) && row.enabled != Some(false) {
        headers := headers[row.key.value := OrEmpty(row.value)];
      }
    }
    assert rows[..|rows|] == rows;
  }

  /** `_handleSendRequest` up to the HTTP call. `base64`, `encode` and
      `parseJson` stand for `Buffer.toString('base64')`,
      `encodeURIComponent` and `JSON.parse` (None when it throws). */
  method PrepareRequest(
    msg: SendRequestMessage,
    base64: string -> string,
    encode: string -> string,
    parseJson: string -> Option<Json>)
    returns (req: Request)
    ensures req.httpMethod == msg.httpMethod
    ensures req.headers == ApplyRows(AutoHeaders(msg, base64), RowsOf(msg.headers))
    ensures req.url == WithQuery(msg.url, QueryOf(msg, encode))
    ensures req.data != NoData <==> HasBody(msg) && msg.httpMethod in DataVerbs
    ensures req.data.JsonData? ==> parseJson(msg.body.value) == Some(req.data.value)
    ensures req.data.RawData? ==> parseJson(msg.body.value).None? && req.data.text == msg.body.value
  {
    var headers := BuildHeaders(msg, base64);

    var url := msg.url;
    var queryParams: Option<string> := None;
    if msg.queryParams.Some? {
      queryParams := Some(QueryString(msg.queryParams.value, encode));
    }
    if queryParams.Some? && queryParams.value != "" {
      url := url + (if Contains(url, "?") then "&" else "?") + queryParams.value;
    }

    var data := NoData;
    if HasBody(msg) && msg.httpMethod in DataVerbs {
      match parseJson(msg.body.value)
      case Some(j) => data := JsonData(j);
      case None => data := RawData(msg.body.value);
    }
    req := Request(msg.httpMethod, url, data, headers);
  }

  /** The Content-Type header and the data follow different verb rules:
      OPTIONS with a body gets the header but sends nothing. */
  lemma OptionsGetsContentTypeWithoutData(msg: SendRequestMessage, base64: string -> string)
    requires msg.httpMethod == "OPTIONS" && HasBody(msg)
    ensures ContentType in AutoHeaders(msg, base64)
    ensures msg.httpMethod !in DataVerbs
  {
  }

  // ---------------------------------------------------------------------
  // The response size label
  // ---------------------------------------------------------------------

  /** `n` below 100 as two decimal digits, with a leading zero below 10. */
  function TwoDigits(n: nat): (r: string)
    requires n < 100
    ensures |r| == 2 && IsDigit(r[0]) && IsDigit(r[1])
    ensures forall i :: 0 <= i < |r| ==> EnvParser.IsRadixDigit(r[i], 10)
    ensures EnvParser.DigitsValue(r, 10) == n
  {
    var r := [DigitChar(n / 10), DigitChar(n % 10)];
    assert r[0] as int - '0' as int == n / 10 && r[1] as int - '0' as int == n % 10;
    assert r[..1][..0] == [];
    assert EnvParser.DigitsValue(r[..1], 10) == n / 10;
    r
  }

  /** The hundredths `(num / den).toFixed(2)` shows: the nearest count of
      hundredths, the larger on a tie. `num / den` is exact here, because
      `den` is a power of two and `num` a string length. */
  function Hundredths(num: nat, den: nat): (h: nat)
    requires den > 0
    ensures 2 * h * den <= 200 * num + den < 2 * (h + 1) * den
  {
    (200 * num + den) / (2 * den)
  }

  /** `h` hundredths written with two decimals: the whole part in decimal
      without leading zeros, a point, then exactly two digits. */
  function Fixed2(h: nat): (r: string)
    ensures |r| >= 4 && r[|r| - 3] == '.'
    ensures forall i :: 0 <= i < |r| && i != |r| - 3 ==> IsDigit(r[i])
    ensures |r| > 4 ==> r[0] != '0'
  {
    NatString(h / 100) + "." + TwoDigits(h % 100)
  }

  /** Reading a `Fixed2` label back: the digits before the point count
      whole units, the two after it hundredths, together `h`. */
  lemma Fixed2Value(h: nat)
    ensures var r := Fixed2(h);
      && (forall i :: 0 <= i < |r| - 3 ==> EnvParser.IsRadixDigit(r[i], 10))
      && (forall i :: |r| - 2 <= i < |r| ==> EnvParser.IsRadixDigit(r[i], 10))
      && 100 * EnvParser.DigitsValue(r[..|r| - 3], 10) + EnvParser.DigitsValue(r[|r| - 2..], 10) == h
  {
    var whole := NatString(h / 100);
    var frac := TwoDigits(h % 100);
    var r := Fixed2(h);
    assert r == whole + "." + frac;
    assert r[..|r| - 3] == whole;
    assert r[|r| - 2..] == frac;
    EnvParser.DigitsValueOfNat(h / 100);
  }

  const KiB: nat := 1024

  /** `_formatSize(bytes)`. */
  function FormatSize(bytes: nat): (r: string)
    ensures bytes < KiB ==> r == NatString(bytes) + " B"
    ensures KiB <= bytes < KiB * KiB ==> r == Fixed2(Hundredths(bytes, KiB)) + " KB"
    ensures KiB * KiB <= bytes ==> r == Fixed2(Hundredths(bytes, KiB * KiB)) + " MB"
  {
    if bytes < KiB then NatString(bytes) + " B"
    else if bytes < KiB * KiB then Fixed2(Hundredths(bytes, KiB)) + " KB"
    else Fixed2(Hundredths(bytes, KiB * KiB)) + " MB"
  }

  /** A KB label shows at least 1.00 and at most 1024.00. */
  lemma KilobyteRange(bytes: nat)
    requires KiB <= bytes < KiB * KiB
    ensures 100 <= Hundredths(bytes, KiB) <= 102400
  {
  }

  // ---------------------------------------------------------------------
  // The panel's life cycle
  // ---------------------------------------------------------------------

  /** The one request panel. `disposables` are the subscriptions it holds,
      by id; `disposedLog` lists the ids disposed so far, in order. Every
      `update` registers one more message listener. */
  class RequestPanel {
    var title: string
    var data: Extension.PanelData
    var listeners: nat
    var disposables: seq<nat>
    var nextId: nat
    var disposedLog: seq<nat>
    var webviewDisposed: bool

    ghost predicate Valid()
      reads this
    {
      forall k :: 0 <= k < |disposables| ==> disposables[k] < nextId
    }

    /** The private constructor followed by the first `update(data)`: the
        dispose subscription, then one message listener. */
    constructor (data: Extension.PanelData)
      ensures Valid()
      ensures title == "Osprey: " + data.httpMethod + " " + data.route
      ensures this.data == data && listeners == 1
      ensures disposables == [0, 1] && nextId == 2
      ensures disposedLog == [] && !webviewDisposed
    {
      title := "Osprey: " + data.httpMethod + " " + data.route;
      this.data := data;
      listeners := 1;
      disposables := [0, 1];
      nextId := 2;
      disposedLog := [];
      webviewDisposed := false;
    }

    /** `update(data)`: new content, and one more message listener. */
    method Update(data: Extension.PanelData)
      requires Valid()
      modifies this
      ensures Valid()
      ensures this.data == data && listeners == old(listeners) + 1
      ensures disposables == old(disposables) + [old(nextId)] && nextId == old(nextId) + 1
      ensures title == old(title) && disposedLog == old(disposedLog) && webviewDisposed == old(webviewDisposed)
    {
      this.data := data;
      listeners := listeners + 1;
      disposables := disposables + [nextId];
      nextId := nextId + 1;
    }

    /** `dispose()`: forget the current panel, dispose the webview, then
        pop and dispose the subscriptions until none is left. */
    method Dispose(host: PanelHost)
      modifies this, host
      ensures Valid()
      ensures host.currentPanel == null
      ensures webviewDisposed && disposables == []
      ensures disposedLog == old(disposedLog) + Reversed(old(disposables))
      ensures title == old(title) && data == old(data) && listeners == old(listeners) && nextId == old(nextId)
    {
      host.currentPanel := null;
      webviewDisposed := true;
      while |disposables| > 0
        invariant disposedLog + Reversed(disposables) == old(disposedLog) + Reversed(old(disposables))
        invariant title == old(title) && data == old(data) && listeners == old(listeners) && nextId == old(nextId)
        invariant webviewDisposed && host.currentPanel == null
        decreases |disposables|
      {
        var last := disposables[|disposables| - 1];
        assert Reversed(disposables) == [last] + Reversed(disposables[..|disposables| - 1]);
        disposables := disposables[..|disposables| - 1];
        disposedLog := disposedLog + [last];
      }
    }
  }

  /** `s` back to front: the order `pop` yields. */
  function Reversed(s: seq<nat>): (r: seq<nat>)
    ensures |r| == |s|
    ensures forall i :: 0 <= i < |s| ==> r[i] == s[|s| - 1 - i]
  {
    if |s| == 0 then [] else [s[|s| - 1]] + Reversed(s[..|s| - 1])
  }

  /** Popping disposes every subscription exactly once. */
  lemma {:induction false} ReversedSameElements(s: seq<nat>)
    ensures multiset(Reversed(s)) == multiset(s)
  {
    if |s| > 0 {
      ReversedSameElements(s[..|s| - 1]);
      assert s == s[..|s| - 1] + [s[|s| - 1]];
    }
  }

  /** The static `RequestPanel.currentPanel`. */
  class PanelHost {
    var currentPanel: RequestPanel?

    constructor ()
      ensures currentPanel == null
    {
      currentPanel := null;
    }

    /** `createOrShow(extensionUri, data)`: an open panel is revealed and
        updated in place; otherwise a new one is created and remembered. */
    method CreateOrShow(data: Extension.PanelData)
      requires currentPanel != null ==> currentPanel.Valid()
      modifies this, currentPanel
      ensures currentPanel != null && currentPanel.Valid() && currentPanel.data == data
      ensures old(currentPanel) != null ==>
        && currentPanel == old(currentPanel)
        && currentPanel.listeners == old(currentPanel.listeners) + 1
        && currentPanel.title == old(currentPanel.title)
        && currentPanel.disposables == old(currentPanel.disposables) + [old(currentPanel.nextId)]
        && currentPanel.nextId == old(currentPanel.nextId) + 1
        && currentPanel.disposedLog == old(currentPanel.disposedLog)
        && currentPanel.webviewDisposed == old(currentPanel.webviewDisposed)
      ensures old(currentPanel) == null ==>
        && fresh(currentPanel)
        && currentPanel.listeners == 1
        && currentPanel.title == "Osprey: " + data.httpMethod + " " + data.route
        && currentPanel.disposables == [0, 1] && currentPanel.nextId == 2
        && currentPanel.disposedLog == [] && !currentPanel.webviewDisposed
    {
      if currentPanel != null {
        currentPanel.Update(data);
        return;
      }
      var panel := new RequestPanel(data);
      currentPanel := panel;
    }
  }
}
