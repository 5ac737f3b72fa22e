/** The response assembler of the HTTP engine: header lines handed over by the
    transport are folded into the current hop's header multimap, status code and
    status text; the completed response exposes `ok`. */
module FetchResponse {
  import opened Wrappers
  import opened Text

  /** Header name -> every value received under it, in arrival order. */
  type Headers = map<string, seq<string>>

  /** The part of the response that header lines change. */
  datatype Hop = Hop(headers: Headers, status: int, statusText: string)

  /** The values stored under `key`; a missing key reads as no values. */
  function Values(m: Headers, key: string): seq<string> {
    if key in m then m[key] else []
  }

  // ---------------------------------------------------------------------------
  // pieces of one header line
  // ---------------------------------------------------------------------------

  /** The length left once every trailing '\r' and '\n' among s[..n] is dropped. */
  function LineEnd(s: string, n: nat): (j: nat)
    requires n <= |s|
    ensures j <= n
    ensures forall k :: j <= k < n ==> s[k] == '\r' || s[k] == '\n'
    ensures j > 0 ==> s[j - 1] != '\r' && s[j - 1] != '\n'
    decreases n
  {
    if n > 0 && (s[n - 1] == '\r' || s[n - 1] == '\n') then LineEnd(s, n - 1) else n
  }

  /** The line without its trailing CR/LF characters. */
  function StripLineEnd(raw: string): string {
    raw[..LineEnd(raw, |raw|)]
  }

  /** The pop-back loop of the header callback: drops trailing CR and LF
      characters one at a time. */
  method ChopLineEnd(raw: string) returns (line: string)
    ensures line == StripLineEnd(raw)
  {
    line := raw;
    while |line| > 0 && (line[|line| - 1] == '\r' || line[|line| - 1] == '\n')
      invariant |line| <= |raw| && line == raw[..|line|]
      invariant LineEnd(raw, |line|) == LineEnd(raw, |raw|)
    {
      line := line[..|line| - 1];
    }
  }

  /** A status line: one that starts with "HTTP/". */
  predicate IsStatusLine(line: string) {
    |line| >= 5 && line[..5] == "HTTP/"
  }

  /** The index of the first ':' at or after `i`, if any. */
  function FirstColon(s: string, i: nat): (r: Option<nat>)
    requires i <= |s|
    ensures r.Some? ==> i <= r.value < |s| && s[r.value] == ':'
                        && forall k :: i <= k < r.value ==> s[k] != ':'
    ensures r.None? ==> forall k :: i <= k < |s| ==> s[k] != ':'
    decreases |s| - i
  {
    if i == |s| then None else if s[i] == ':' then Some(i) else FirstColon(s, i + 1)
  }

  /** The prefix of `s` before its first '\n' (what std::getline extracts). */
  function UpToNewline(s: string): (r: string)
    ensures '\n' !in s ==> r == s
    ensures |r| <= |s| && r == s[..|r|] && '\n' !in r
  {
    if s == [] then [] else if s[0] == '\n' then [] else [s[0]] + UpToNewline(s[1..])
  }

  /** What reading a status line through a string stream leaves behind: the
      status variable and the remainder of the line. */
  datatype StatusParse = StatusParse(status: int, rest: string)

  /** `iss >> proto; iss >> status; getline(iss, rest)` on `line`, where
      `previous` is the status before the line.  `long` is 64 bits wide:
      * nothing but blanks after the first token: the stream fails before the
        number, so the status is untouched and the rest is empty;
      * no digits: the status becomes 0 and the stream fails;
      * a value outside `long`: the status is clamped and the stream fails;
      * digits up to the end of the line: end of input is reached, so the
        following getline extracts nothing;
      * otherwise the rest is the text after the digits up to a newline. */
  function ParseStatusLine(line: string, previous: int): StatusParse {
    var p := SkipToken(line, 0);
    var q := SkipSpaces(line, p);
    if q == |line| then StatusParse(previous, "")
    else match ScanSigned(line, q)
      case NoDigits => StatusParse(0, "")
      case Scanned(v, e) =>
        if v > Int64Max then StatusParse(Int64Max, "")
        else if v < Int64Min then StatusParse(Int64Min, "")
        else if e == |line| then StatusParse(v, "")
        else StatusParse(v, UpToNewline(line[e..]))
  }

  /** The effect of one raw header line on the current hop. */
  function HeaderStep(h: Hop, raw: string): Hop {
    var line := StripLineEnd(raw);
    if line == [] then h
    else if IsStatusLine(line) then
      var parsed := ParseStatusLine(line, h.status);
      Hop(map[], parsed.status, Trimmed(parsed.rest))
    else match FirstColon(line, 0)
      case None => h
      case Some(i) =>
        var key := Lower(Trimmed(line[..i]));
        if key == [] then h
        else Hop(h.headers[key := Values(h.headers, key) + [Trimmed(line[i + 1..])]], h.status, h.statusText)
  }

  /** The hop after a whole sequence of header lines, in order. */
  function Replay(h: Hop, lines: seq<string>): Hop
    decreases |lines|
  {
    if lines == [] then h else Replay(HeaderStep(h, lines[0]), lines[1..])
  }

  // ---------------------------------------------------------------------------
  // the response being assembled
  // ---------------------------------------------------------------------------

  class ResponseData {
    var body: string
    var headers: Headers
    var status: int
    var url: string
    var statusText: string

    constructor ()
      ensures body == [] && headers == map[] && status == 0 && url == [] && statusText == []
    {
      body := [];
      headers := map[];
      status := 0;
      url := [];
      statusText := [];
    }

    function CurrentHop(): Hop
      reads this
    {
      Hop(headers, status, statusText)
    }

    /** Forgets the headers of the previous hop. */
    method ResetHop()
      modifies this`headers
      ensures headers == map[]
    {
      headers := map[];
    }

    /** Folds one raw header line into the current hop. */
    method AddHeaderLine(raw: string)
      modifies this`headers, this`status, this`statusText
      ensures CurrentHop() == HeaderStep(old(CurrentHop()), raw)
    {
      var line := ChopLineEnd(raw);
      if line == [] {
        return;
      }
      if |line| >= 5 && line[..5] == "HTTP/" {
        ResetHop();
        var parsed := ParseStatusLine(line, status);
        status := parsed.status;
        statusText := Trim(parsed.rest);
        return;
      }
      var pos := FirstColon(line, 0);
      if pos.None? {
        return;
      }
      var rawKey := Trim(line[..pos.value]);
      var key := Lower(rawKey);
      var val := Trim(line[pos.value + 1..]);
      if key != [] {
        headers := headers[key := Values(headers, key) + [val]];
      }
    }
  }

  // ---------------------------------------------------------------------------
  // what a header line does
  // ---------------------------------------------------------------------------

  /** A line that is empty once its CR/LF are stripped, that has no ':', or whose
      key trims to nothing leaves headers, status and status text alone. */
  lemma IgnoredLineLeavesHop(h: Hop, raw: string, i: nat)
    requires var line := StripLineEnd(raw);
             line == []
             || (!IsStatusLine(line) && ':' !in line)
             || (!IsStatusLine(line) && i < |line| && line[i] == ':' && ':' !in line[..i] && AllSpace(line[..i]))
    ensures HeaderStep(h, raw) == h
  {
    var line := StripLineEnd(raw);
    if line != [] && !IsStatusLine(line) {
      var c := FirstColon(line, 0);
      if c.Some? {
        assert c.value == i;
        TrimmedEmptyIffAllSpace(line[..i]);
      }
    }
  }

  /** A status line starts a new hop: the headers collected so far are dropped. */
  lemma StatusLineStartsHop(h: Hop, raw: string)
    requires IsStatusLine(StripLineEnd(raw))
    ensures HeaderStep(h, raw).headers == map[]
    ensures HeaderStep(h, raw).statusText == Trimmed(ParseStatusLine(StripLineEnd(raw), h.status).rest)
  {
  }

  /** SkipToken stops exactly at the first whitespace character. */
  lemma SkipTokenAt(s: string, i: nat, m: nat)
    requires i <= m < |s| && IsSpace(s[m])
    requires forall k :: i <= k < m ==> !IsSpace(s[k])
    ensures SkipToken(s, i) == m
  {
  }

  /** SkipDigits stops exactly at the first non-digit. */
  lemma SkipDigitsAt(s: string, i: nat, m: nat)
    requires i <= m < |s| && !IsDigit(s[m])
    requires forall k :: i <= k < m ==> IsDigit(s[k])
    ensures SkipDigits(s, i) == m
  {
  }

  /** A status line whose first token ends at `p`, followed by one blank and
      the digits line[p + 1..e] and then a blank, yields those digits and the
      text after them. */
  lemma StatusLineAt(line: string, p: nat, e: nat, previous: int)
    requires p + 1 < e < |line|
    requires forall k :: 0 <= k < p ==> !IsSpace(line[k])
    requires line[p] == ' ' && line[e] == ' '
    requires AllDigits(line[p + 1..e]) && DecimalValue(line[p + 1..e]) <= Int64Max
    requires '\n' !in line[e..]
    ensures ParseStatusLine(line, previous) == StatusParse(DecimalValue(line[p + 1..e]), line[e..])
  {
    var d := p + 1;
    SkipTokenAt(line, 0, p);
    assert IsDigit(line[p + 1..e][0]);
    assert SkipSpaces(line, p) == d by { assert SkipSpaces(line, d) == d; }
    assert forall k :: d <= k < e ==> IsDigit(line[k]) by {
      forall k | d <= k < e ensures IsDigit(line[k]) { assert line[k] == line[p + 1..e][k - d]; }
    }
    SkipDigitsAt(line, d, e);
  }

  /** A well-formed status line "HTTP/<version> <code> <reason>" yields the code
      and, as status text, the trimmed reason. */
  lemma WellFormedStatusLine(version: string, code: string, reason: string, previous: int)
    requires forall k :: 0 <= k < |version| ==> !IsSpace(version[k])
    requires code != [] && AllDigits(code) && DecimalValue(code) <= Int64Max
    requires '\n' !in reason
    ensures var parsed := ParseStatusLine("HTTP/" + version + " " + code + " " + reason, previous);
            parsed.status == DecimalValue(code) && Trimmed(parsed.rest) == Trimmed(reason)
  {
    var line := "HTTP/" + version + " " + code + " " + reason;
    var p := 5 + |version|;
    var e := p + 1 + |code|;
    assert forall k :: 0 <= k < p ==> !IsSpace(line[k]) by {
      forall k | 0 <= k < p ensures !IsSpace(line[k]) {
        if k >= 5 { assert line[k] == version[k - 5]; }
      }
    }
    assert line[p] == ' ' && line[e] == ' ';
    assert line[p + 1..e] == code;
    assert line[e..] == " " + reason;
    StatusLineAt(line, p, e, previous);
    TrimmedOfSpacePrefix(reason);
  }

  /** A "key: value" line appends the trimmed value at the end of the values of
      the trimmed, lower-cased key; every other key, the status and the status
      text stay as they were. */
  lemma HeaderLineAppends(h: Hop, raw: string, i: nat)
    requires var line := StripLineEnd(raw);
             !IsStatusLine(line) && i < |line| && line[i] == ':' && ':' !in line[..i]
             && !AllSpace(line[..i])
    ensures var line := StripLineEnd(raw);
            var key := Lower(Trimmed(line[..i]));
            var h' := HeaderStep(h, raw);
            && key in h'.headers
            && h'.headers[key] == Values(h.headers, key) + [Trimmed(line[i + 1..])]
            && (forall k :: k != key ==> Values(h'.headers, k) == Values(h.headers, k))
            && h'.headers.Keys == h.headers.Keys + {key}
            && h'.status == h.status && h'.statusText == h.statusText
  {
    var line := StripLineEnd(raw);
    var key := Lower(Trimmed(line[..i]));
    var v := Trimmed(line[i + 1..]);
    FirstColonAt(line, i);
    TrimmedEmptyIffAllSpace(line[..i]);
    HeaderStepAt(h, raw, line, i, key, v);
    AppendValue(h.headers, key, v);
  }

  /** The colon at `i`, with none before it, is the one the parser finds. */
  lemma FirstColonAt(line: string, i: nat)
    requires i < |line| && line[i] == ':' && ':' !in line[..i]
    ensures FirstColon(line, 0) == Some(i)
  {
    var c := FirstColon(line, 0);
    assert c.Some? by { assert line[i] == ':'; }
  }

  /** A header line with its colon at `i` and a non-empty key is appended. */
  lemma HeaderStepAt(h: Hop, raw: string, line: string, i: nat, key: string, v: string)
    requires line == StripLineEnd(raw) && !IsStatusLine(line)
    requires FirstColon(line, 0) == Some(i) && i < |line|
    requires key == Lower(Trimmed(line[..i])) && Trimmed(line[..i]) != []
    requires v == Trimmed(line[i + 1..])
    ensures HeaderStep(h, raw) == Hop(h.headers[key := Values(h.headers, key) + [v]], h.status, h.statusText)
  {
  }

  /** Appending a value under one key of a header map. */
  lemma AppendValue(m: Headers, key: string, v: string)
    ensures var m' := m[key := Values(m, key) + [v]];
            && key in m' && m'[key] == Values(m, key) + [v]
            && (forall k :: k != key ==> Values(m', k) == Values(m, k))
            && m'.Keys == m.Keys + {key}
  {
  }

  // ---------------------------------------------------------------------------
  // invariants over a whole header stream
  // ---------------------------------------------------------------------------

  predicate KeysLowercase(m: Headers) {
    forall k :: k in m ==> NoUpper(k) && k != []
  }

  /** Every key a header line adds is lower case and non-empty. */
  lemma HeaderStepKeepsKeysLowercase(h: Hop, raw: string)
    requires KeysLowercase(h.headers)
    ensures KeysLowercase(HeaderStep(h, raw).headers)
  {
  }

  /** However many lines arrive, every header name is lower case and non-empty. */
  lemma {:induction false} ReplayKeepsKeysLowercase(h: Hop, lines: seq<string>)
    requires KeysLowercase(h.headers)
    ensures KeysLowercase(Replay(h, lines).headers)
    decreases |lines|
  {
    if lines != [] {
      HeaderStepKeepsKeysLowercase(h, lines[0]);
      ReplayKeepsKeysLowercase(HeaderStep(h, lines[0]), lines[1..]);
    }
  }

  /** Without status lines, the headers collected depend only on the headers
      one starts from. */
  lemma {:induction false} HeadersIndependentOfStatus(h1: Hop, h2: Hop, lines: seq<string>)
    requires h1.headers == h2.headers
    requires forall j :: 0 <= j < |lines| ==> !IsStatusLine(StripLineEnd(lines[j]))
    ensures Replay(h1, lines).headers == Replay(h2, lines).headers
    decreases |lines|
  {
    if lines != [] {
      assert !IsStatusLine(StripLineEnd(lines[0]));
      HeadersIndependentOfStatus(HeaderStep(h1, lines[0]), HeaderStep(h2, lines[0]), lines[1..]);
    }
  }

  /** A status line starts a new hop with no headers. */
  lemma StatusLineClears(h: Hop, raw: string)
    requires IsStatusLine(StripLineEnd(raw))
    ensures HeaderStep(h, raw).headers == map[]
  {
  }

  /** After redirects only the last hop's headers survive: the headers are those
      the lines after the last status line produce from an empty map. */
  lemma {:induction false} LastHopWins(h: Hop, lines: seq<string>, k: nat)
    requires k < |lines| && IsStatusLine(StripLineEnd(lines[k]))
    requires forall j :: k < j < |lines| ==> !IsStatusLine(StripLineEnd(lines[j]))
    ensures Replay(h, lines).headers == Replay(Hop(map[], 0, ""), lines[k + 1..]).headers
    decreases k
  {
    if k == 0 {
      ReplayAfterStatus(h, lines);
    } else {
      LastStatusInTail(lines, k);
      LastHopWins(HeaderStep(h, lines[0]), lines[1..], k - 1);
    }
  }

  /** The last status line at `k > 0` is the last one of the lines after the
      first, at `k - 1`. */
  lemma LastStatusInTail(lines: seq<string>, k: nat)
    requires 0 < k < |lines| && IsStatusLine(StripLineEnd(lines[k]))
    requires forall j :: k < j < |lines| ==> !IsStatusLine(StripLineEnd(lines[j]))
    ensures var rest := lines[1..];
            && IsStatusLine(StripLineEnd(rest[k - 1]))
            && (forall j :: k - 1 < j < |rest| ==> !IsStatusLine(StripLineEnd(rest[j])))
            && rest[k..] == lines[k + 1..]
  {
    var rest := lines[1..];
    assert rest[k - 1] == lines[k];
    forall j | k - 1 < j < |rest| ensures !IsStatusLine(StripLineEnd(rest[j])) {
      assert rest[j] == lines[j + 1];
    }
  }

  /** Replaying from a status line on: the headers are those the lines after it
      produce from an empty map. */
  lemma ReplayAfterStatus(h: Hop, lines: seq<string>)
    requires lines != [] && IsStatusLine(StripLineEnd(lines[0]))
    requires forall j :: 0 < j < |lines| ==> !IsStatusLine(StripLineEnd(lines[j]))
    ensures Replay(h, lines).headers == Replay(Hop(map[], 0, ""), lines[1..]).headers
  {
    var rest := lines[1..];
    StatusLineClears(h, lines[0]);
    forall j | 0 <= j < |rest| ensures !IsStatusLine(StripLineEnd(rest[j])) {
      assert rest[j] == lines[j + 1];
    }
    HeadersIndependentOfStatus(HeaderStep(h, lines[0]), Hop(map[], 0, ""), rest);
  }

  // ---------------------------------------------------------------------------
  // result fields
  // ---------------------------------------------------------------------------

  /** The reason phrase filled in when the server sent none; "" for codes
      outside the table. */
  function DefaultStatusText(status: int): (t: string)
    ensures t != [] <==> status in {200, 201, 204, 301, 302, 400, 401, 403, 404, 500}
  {
    match status
    case 200 => "OK"
    case 201 => "Created"
    case 204 => "No Content"
    case 301 => "Moved Permanently"
    case 302 => "Found"
    case 400 => "Bad Request"
    case 401 => "Unauthorized"
    case 403 => "Forbidden"
    case 404 => "Not Found"
    case 500 => "Internal Server Error"
    case _ => ""
  }

  /** The status text kept at completion: the one received, or the default
      phrase when none was received. */
  function FinalStatusText(received: string, status: int): (t: string)
    ensures received != [] ==> t == received
    ensures received == [] ==> t == DefaultStatusText(status)
  {
    if received == [] then DefaultStatusText(status) else received
  }

  /** The fields of the resolved response. */
  datatype Response = Response(status: int, statusText: string, url: string, ok: bool,
                               headers: Headers, body: string)

  /** The response handed to the caller; `ok` holds exactly for 2xx codes. */
  function ResponseOf(status: int, statusText: string, url: string, headers: Headers, body: string): (r: Response)
    ensures r.ok <==> 200 <= r.status < 300
    ensures r.status == status && r.statusText == statusText && r.url == url
    ensures r.headers == headers && r.body == body
  {
    Response(status, statusText, url, 200 <= status && status < 300, headers, body)
  }
}
