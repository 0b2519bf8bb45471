/** JSONP wrapper handling in the proxy.

    Fetched text may be JSON or JSON wrapped in a JavaScript call
    `name(...)`, optionally followed by whitespace and semicolons; the proxy
    strips such a wrapper before parsing (`JSON_CALLBACK_RE` and `ParseJson`,
    jsonp.py:35 and jsonp.py:81-89). The proxy's own reply wraps its JSON in
    the caller's callback the same way (jsonp.py:215-216). */
module JsonpCallback {
  import opened Base
  import opened JsonValue

  /** `\w` of the pattern, on ASCII characters. */
  predicate IsWordChar(c: char)
  {
    ('a' <= c <= 'z') || ('A' <= c <= 'Z') || ('0' <= c <= '9') || c == '_'
  }

  /** `[\s;]` of the pattern, on ASCII characters. */
  predicate IsTrailerChar(c: char)
  {
    c == ';' || c == ' ' || c == '\t' || c == '\n' || c == '\r'
    || c == '\U{0B}' || c == '\U{0C}' || ('\U{1C}' <= c <= '\U{1F}')
  }

  /** Text matching `\w+`. */
  predicate IsName(s: string)
  {
    |s| > 0 && forall i :: 0 <= i < |s| ==> IsWordChar(s[i])
  }

  /** Text matching `[\s;]*`. */
  predicate IsTrailer(s: string)
  {
    forall i :: 0 <= i < |s| ==> IsTrailerChar(s[i])
  }

  /** Length of the longest run of word characters at the start of `s`. */
  function NameLength(s: string): (n: nat)
    ensures n <= |s|
    ensures forall i :: 0 <= i < n ==> IsWordChar(s[i])
    ensures n < |s| ==> !IsWordChar(s[n])
    decreases |s|
  {
    if |s| == 0 || !IsWordChar(s[0]) then 0 else 1 + NameLength(s[1..])
  }

  /** Where the longest run of trailer characters at the end of `s` begins. */
  function TrailerStart(s: string): (n: nat)
    ensures n <= |s|
    ensures forall i :: n <= i < |s| ==> IsTrailerChar(s[i])
    ensures 0 < n ==> !IsTrailerChar(s[n - 1])
    decreases |s|
  {
    if |s| == 0 || !IsTrailerChar(s[|s| - 1]) then |s| else TrailerStart(s[..|s| - 1])
  }

  /** The three parts of a match of `^\w+\((.*)\)[\s;]*$`; `body` is group 1. */
  datatype CallbackMatch = CallbackMatch(name: string, body: string, trailer: string)

  /** `JSON_CALLBACK_RE.match`. The greedy `\w+` stops at the first non-word
      character, which must be `(`; the greedy `(.*)` extends to the last `)`
      that only trailer characters follow. A match splits the text into a
      name, the body and a trailer. */
  function MatchCallback(s: string): (m: Option<CallbackMatch>)
    ensures m.Some? ==> IsName(m.value.name) && IsTrailer(m.value.trailer)
                        && s == m.value.name + "(" + m.value.body + ")" + m.value.trailer
  {
    var k := NameLength(s);
    var t := TrailerStart(s);
    if 0 < k < |s| && s[k] == '(' && k + 2 <= t && s[t - 1] == ')' then
      var m := CallbackMatch(s[..k], s[k + 1..t - 1], s[t..]);
      assert s == m.name + "(" + m.body + ")" + m.trailer by {
        assert s == s[..k] + [s[k]] + s[k + 1..t - 1] + [s[t - 1]] + s[t..];
      }
      Some(m)
    else
      None
  }

  /** The name run ends exactly at the first non-word character. */
  lemma {:induction false} NameLengthAt(s: string, k: nat)
    requires k < |s| && !IsWordChar(s[k])
    requires forall i :: 0 <= i < k ==> IsWordChar(s[i])
    ensures NameLength(s) == k
  {
  }

  /** The trailer run begins exactly after the last non-trailer character. */
  lemma {:induction false} TrailerStartAt(s: string, t: nat)
    requires 0 < t <= |s| && !IsTrailerChar(s[t - 1])
    requires forall i :: t <= i < |s| ==> IsTrailerChar(s[i])
    ensures TrailerStart(s) == t
  {
  }

  /** Where the wrapped shape puts its name run and its trailer run. */
  lemma {:induction false} WrappedBoundaries(name: string, body: string, trailer: string)
    requires IsName(name) && IsTrailer(trailer)
    ensures NameLength(name + "(" + body + ")" + trailer) == |name|
    ensures TrailerStart(name + "(" + body + ")" + trailer) == |name| + |body| + 2
  {
    var s := name + "(" + body + ")" + trailer;
    var k := |name|;
    var t := |name| + 1 + |body| + 1;
    assert s[k] == '(';
    assert forall i :: 0 <= i < k ==> s[i] == name[i];
    NameLengthAt(s, k);
    assert s[t - 1] == ')';
    assert forall i :: t <= i < |s| ==> s[i] == trailer[i - t];
    TrailerStartAt(s, t);
  }

  /** Every text of the wrapped shape matches, and the match recovers exactly
      the name, the body and the trailer it was built from, whatever the body
      contains (parentheses included). */
  lemma {:induction false} MatchCallbackComplete(name: string, body: string, trailer: string)
    requires IsName(name) && IsTrailer(trailer)
    ensures MatchCallback(name + "(" + body + ")" + trailer)
            == Some(CallbackMatch(name, body, trailer))
  {
    var s := name + "(" + body + ")" + trailer;
    var k := |name|;
    var t := |name| + 1 + |body| + 1;
    WrappedBoundaries(name, body, trailer);
    assert s[..k] == name;
    assert s[k] == '(';
    assert s[k + 1..t - 1] == body;
    assert s[t - 1] == ')';
    assert s[t..] == trailer;
  }

  /** The text handed to the JSON parser: the body of a callback wrapper, or
      the whole text when it is not wrapped. */
  function JsonPayload(text: string): string
  {
    match MatchCallback(text)
    case Some(m) => m.body
    case None => text
  }

  /** `ParseJson`: strips a callback wrapper, then parses; a parse failure is a
      403 Forbidden. `loads` stands for `json.loads`, whose grammar is not
      modelled (None is its ValueError or TypeError). */
  function ParseJson(text: string, loads: string -> Option<Json>): (r: Result<Json>)
    ensures r.Ok? <==> loads(JsonPayload(text)).Some?
    ensures r.Ok? ==> r.value == loads(JsonPayload(text)).value
    ensures r.Err? ==> r.error == HttpError(FORBIDDEN)
  {
    var payload := JsonPayload(text);
    match loads(payload)
    case Some(v) => Ok(v)
    case None => Err(HttpError(FORBIDDEN))
  }

  /** A wrapped text is parsed as its body alone. */
  lemma {:induction false} ParseJsonStripsWrapper(name: string, body: string, trailer: string, loads: string -> Option<Json>)
    requires IsName(name) && IsTrailer(trailer)
    ensures ParseJson(name + "(" + body + ")" + trailer, loads).Ok? <==> loads(body).Some?
    ensures loads(body).Some? ==>
              ParseJson(name + "(" + body + ")" + trailer, loads) == Ok(loads(body).value)
  {
    MatchCallbackComplete(name, body, trailer);
  }

  /** Text that does not start with a word character (every JSON object,
      array or string literal) cannot match and reaches the parser unchanged. */
  lemma {:induction false} PlainJsonPassesUnchanged(text: string, loads: string -> Option<Json>)
    requires |text| == 0 || !IsWordChar(text[0])
    ensures MatchCallback(text) == None
    ensures ParseJson(text, loads).Ok? <==> loads(text).Some?
    ensures ParseJson(text, loads).Ok? ==> ParseJson(text, loads).value == loads(text).value
  {
  }

  /** The body of the proxy's reply: the HTML-safe JSON, wrapped in the
      caller's callback when one was given. */
  function JsonpReply(callback: string, json: string): (out: string)
    ensures callback == "" ==> out == json
    ensures callback != "" ==> |out| == |callback| + |json| + 2
  {
    if callback == "" then json else callback + "(" + json + ")"
  }

  /** A reply wrapped in a word-character callback, fed back through the
      proxy, is stripped to exactly the JSON it wrapped. */
  lemma {:induction false} JsonpReplyRoundTrip(callback: string, json: string)
    requires IsName(callback)
    ensures MatchCallback(JsonpReply(callback, json)) == Some(CallbackMatch(callback, json, ""))
    ensures JsonPayload(JsonpReply(callback, json)) == json
  {
    assert JsonpReply(callback, json) == callback + "(" + json + ")" + "";
    MatchCallbackComplete(callback, json, "");
  }
}
