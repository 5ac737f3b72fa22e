/** Request configuration and the transfer callbacks of the HTTP engine: the
    options record with its defaults, the header list and body handed to the
    transport, the body sink with its size guard, the abort flag, and the
    completion step that fills in the response. */
module FetchRequest {
  import opened Wrappers
  import opened Text
  import opened Multipart
  import opened FetchResponse

  /** The options object, each property already coerced the way the engine reads
      it; `None` stands for an absent property.  `headers` lists the properties of
      a headers object in enumeration order with their values coerced to
      strings; `body` holds the bytes of a Buffer body or the coercion of any
      other body; `onData`/`onProgress` say whether a function was supplied. */
  datatype Options = Options(
    verb: Option<string>,
    timeout: Option<int>,
    maxRedirects: Option<int>,
    insecure: Option<bool>,
    decompress: Option<bool>,
    ipResolve: Option<string>,
    cookieFile: Option<string>,
    cookie: Option<string>,
    maxBodySize: Option<int>,
    headers: Option<seq<(string, string)>>,
    body: Option<string>,
    formData: Option<seq<Field>>,
    onData: bool,
    onProgress: bool)

  /** The worker's settings once the options are read. */
  datatype Config = Config(
    verb: string,
    timeoutMs: int,
    maxRedirects: int,
    insecure: bool,
    decompress: bool,
    ipResolve: string,
    cookieFile: string,
    cookie: string,
    maxBodySize: int,
    userHeaders: seq<string>,
    haveUserAgent: bool,
    haveAcceptEncoding: bool,
    haveConnection: bool,
    haveExpect: bool,
    haveContentType: bool,
    body: string,
    useMultipart: bool,
    multipartBody: string,
    boundary: string,
    streaming: bool,
    wantProgress: bool)

  /** Whether the headers object has a property spelled exactly `name`. */
  predicate HasProp(entries: seq<(string, string)>, name: string) {
    exists i :: 0 <= i < |entries| && entries[i].0 == name
  }

  /** `h.Has(a) || h.Has(b)`. */
  predicate HasEither(entries: seq<(string, string)>, a: string, b: string) {
    HasProp(entries, a) || HasProp(entries, b)
  }

  /** "name: value" for every header whose name is not empty, in order. */
  function UserHeaderLines(entries: seq<(string, string)>): (r: seq<string>)
    ensures |r| <= |entries|
    ensures forall i :: 0 <= i < |r| ==>
              exists j :: 0 <= j < |entries| && entries[j].0 != [] && r[i] == entries[j].0 + ": " + entries[j].1
    ensures (forall j :: 0 <= j < |entries| ==> entries[j].0 != []) ==> |r| == |entries|
    decreases |entries|
  {
    if entries == [] then []
    else
      var last := entries[|entries| - 1];
      var r := UserHeaderLines(entries[..|entries| - 1]);
      if last.0 == [] then r else r + [last.0 + ": " + last.1]
  }

  /** The settings the worker derives from the URL, the options and the
      multipart boundary it draws. */
  function ConfigOf(opts: Options, boundary: string): Config {
    var entries := opts.headers.GetOr([]);
    Config(
      opts.verb.GetOr("GET"),
      opts.timeout.GetOr(300000),
      opts.maxRedirects.GetOr(20),
      opts.insecure.GetOr(false),
      opts.decompress.GetOr(true),
      opts.ipResolve.GetOr("auto"),
      opts.cookieFile.GetOr(""),
      opts.cookie.GetOr(""),
      opts.maxBodySize.GetOr(-1),
      UserHeaderLines(entries),
      HasEither(entries, "User-Agent", "user-agent"),
      HasEither(entries, "Accept-Encoding", "accept-encoding"),
      HasEither(entries, "Connection", "connection"),
      HasEither(entries, "Expect", "expect"),
      HasEither(entries, "Content-Type", "content-type"),
      if opts.formData.Some? then [] else opts.body.GetOr([]),
      opts.formData.Some?,
      if opts.formData.Some? then MultipartBody(boundary, opts.formData.value) else [],
      if opts.formData.Some? then boundary else [],
      opts.onData,
      opts.onProgress)
  }

  /** The header loop of the constructor: one "Key: value" line per entry with
      a non-empty key, in order. */
  method CollectHeaderLines(entries: seq<(string, string)>) returns (lines: seq<string>)
    ensures lines == UserHeaderLines(entries)
  {
    lines := [];
    for i := 0 to |entries|
      invariant lines == UserHeaderLines(entries[..i])
    {
      var (k, v) := entries[i];
      if k != [] {
        lines := lines + [k + ": " + v];
      }
      assert entries[..i + 1][..i] == entries[..i];
    }
    assert entries[..|entries|] == entries;
  }

  /** Reads the options the way the worker's constructor does: defaults first,
      the header loop, the body, then the form (which discards the body). */
  method Configure(opts: Options, boundary: string) returns (c: Config)
    ensures c == ConfigOf(opts, boundary)
  {
    var entries := opts.headers.GetOr([]);
    var lines := CollectHeaderLines(entries);
    var body := opts.body.GetOr([]);
    var useMultipart := false;
    var multipartBody: string := [];
    var usedBoundary: string := [];
    if opts.formData.Some? {
      multipartBody := BuildMultipart(boundary, opts.formData.value);
      usedBoundary := boundary;
      useMultipart := true;
      body := [];
    }
    c := Config(
      opts.verb.GetOr("GET"), opts.timeout.GetOr(300000), opts.maxRedirects.GetOr(20),
      opts.insecure.GetOr(false), opts.decompress.GetOr(true), opts.ipResolve.GetOr("auto"),
      opts.cookieFile.GetOr(""), opts.cookie.GetOr(""), opts.maxBodySize.GetOr(-1),
      lines,
      HasEither(entries, "User-Agent", "user-agent"),
      HasEither(entries, "Accept-Encoding", "accept-encoding"),
      HasEither(entries, "Connection", "connection"),
      HasEither(entries, "Expect", "expect"),
      HasEither(entries, "Content-Type", "content-type"),
      body, useMultipart, multipartBody, usedBoundary, opts.onData, opts.onProgress);
  }

  /** The options record of a call that passes no options. */
  const NoOptions := Options(None, None, None, None, None, None, None, None, None, None, None, None, false, false)

  /** Without options the worker sends GET with a 300000 ms timeout, follows at
      most 20 redirects, verifies TLS, asks for compressed bodies, resolves any
      address family, keeps no cookies, sends no body and puts no limit on it. */
  lemma DefaultConfig(boundary: string)
    ensures var c := ConfigOf(NoOptions, boundary);
            c.verb == "GET" && c.timeoutMs == 300000 && c.maxRedirects == 20
            && !c.insecure && c.decompress && c.ipResolve == "auto"
            && c.cookieFile == [] && c.cookie == [] && c.maxBodySize == -1
            && c.userHeaders == [] && c.body == [] && !c.useMultipart
            && !c.haveUserAgent && !c.haveAcceptEncoding && !c.haveConnection
            && !c.haveExpect && !c.haveContentType && !c.streaming
  {
    var none: seq<(string, string)> := [];
    assert !HasProp(none, "User-Agent");
  }

  // ---------------------------------------------------------------------------
  // what the transport is given
  // ---------------------------------------------------------------------------

  const UserAgentLine := "User-Agent: undici/6 naruyaizumi"
  const AcceptEncodingLine := "Accept-Encoding: br, gzip, deflate"
  const ConnectionLine := "Connection: keep-alive"
  const ExpectLine := "Expect:"

  function ContentTypeLine(boundary: string): string {
    "Content-Type: multipart/form-data; boundary=" + boundary
  }

  /** The header lines the engine adds before the user's own. */
  function DefaultHeaders(c: Config): seq<string> {
    When(!c.haveUserAgent, UserAgentLine)
    + When(!c.haveAcceptEncoding && c.decompress, AcceptEncodingLine)
    + When(!c.haveConnection, ConnectionLine)
    + When(!c.haveExpect, ExpectLine)
    + When(c.useMultipart && !c.haveContentType, ContentTypeLine(c.boundary))
  }

  /** The line `x` if `p` holds, else nothing. */
  function When(p: bool, x: string): seq<string> {
    if p then [x] else []
  }

  /** The full header list: the synthesised defaults, then the user's headers. */
  function RequestHeaders(c: Config): (r: seq<string>)
    ensures |r| >= |c.userHeaders| && r[|r| - |c.userHeaders|..] == c.userHeaders
    ensures UserAgentLine in r[..|r| - |c.userHeaders|] <==> !c.haveUserAgent
    ensures AcceptEncodingLine in r[..|r| - |c.userHeaders|] <==> !c.haveAcceptEncoding && c.decompress
    ensures ConnectionLine in r[..|r| - |c.userHeaders|] <==> !c.haveConnection
    ensures ExpectLine in r[..|r| - |c.userHeaders|] <==> !c.haveExpect
    ensures ContentTypeLine(c.boundary) in r[..|r| - |c.userHeaders|] <==> c.useMultipart && !c.haveContentType
    ensures InDefaultOrder(r[..|r| - |c.userHeaders|], c.boundary)
  {
    var d := DefaultHeaders(c);
    DefaultHeadersMembers(c);
    DefaultHeadersOrdered(c);
    assert (d + c.userHeaders)[..|d|] == d;
    d + c.userHeaders
  }

  /** The place of a line in the order the engine writes its defaults:
      User-Agent, Accept-Encoding, Connection, Expect, Content-Type; 5 for
      any other line. */
  function DefaultRank(x: string, boundary: string): (k: int)
    ensures 0 <= k <= 5
  {
    if x == UserAgentLine then 0
    else if x == AcceptEncodingLine then 1
    else if x == ConnectionLine then 2
    else if x == ExpectLine then 3
    else if x == ContentTypeLine(boundary) then 4
    else 5
  }

  /** Only default lines, each at most once, in the engine's order. */
  predicate InDefaultOrder(s: seq<string>, boundary: string) {
    (forall i :: 0 <= i < |s| ==> DefaultRank(s[i], boundary) < 5)
    && (forall i, j :: 0 <= i < j < |s| ==> DefaultRank(s[i], boundary) < DefaultRank(s[j], boundary))
  }

  /** Every line of `s` ranks below `k`. */
  predicate RanksBelow(s: seq<string>, boundary: string, k: int) {
    forall i :: 0 <= i < |s| ==> DefaultRank(s[i], boundary) < k
  }

  /** The defaults hold only the five lines, none twice, in source order. */
  lemma DefaultHeadersOrdered(c: Config)
    ensures InDefaultOrder(DefaultHeaders(c), c.boundary)
  {
    DefaultRanks(c.boundary);
    OrderedFive(c.boundary, UserAgentLine, AcceptEncodingLine, ConnectionLine, ExpectLine, ContentTypeLine(c.boundary),
                !c.haveUserAgent, !c.haveAcceptEncoding && c.decompress, !c.haveConnection, !c.haveExpect,
                c.useMultipart && !c.haveContentType);
  }

  /** Five optional lines of ranks 0 to 4, in that order, are in default order. */
  lemma OrderedFive(boundary: string, a: string, b: string, c: string, d: string, e: string,
                    pa: bool, pb: bool, pc: bool, pd: bool, pe: bool)
    requires DefaultRank(a, boundary) == 0 && DefaultRank(b, boundary) == 1 && DefaultRank(c, boundary) == 2
    requires DefaultRank(d, boundary) == 3 && DefaultRank(e, boundary) == 4
    ensures InDefaultOrder(When(pa, a) + When(pb, b) + When(pc, c) + When(pd, d) + When(pe, e), boundary)
  {
    var s0: seq<string> := [];
    OrderedAppend(s0, boundary, pa, a);
    var s1 := s0 + When(pa, a);
    OrderedAppend(s1, boundary, pb, b);
    var s2 := s1 + When(pb, b);
    OrderedAppend(s2, boundary, pc, c);
    var s3 := s2 + When(pc, c);
    OrderedAppend(s3, boundary, pd, d);
    var s4 := s3 + When(pd, d);
    OrderedAppend(s4, boundary, pe, e);
    assert s1 == When(pa, a);
  }

  /** The five lines rank 0 to 4 in the order they are written. */
  lemma DefaultRanks(boundary: string)
    ensures DefaultRank(UserAgentLine, boundary) == 0
    ensures DefaultRank(AcceptEncodingLine, boundary) == 1
    ensures DefaultRank(ConnectionLine, boundary) == 2
    ensures DefaultRank(ExpectLine, boundary) == 3
    ensures DefaultRank(ContentTypeLine(boundary), boundary) == 4
  {
    DefaultLinesDistinct(boundary);
  }

  /** Appending an optional default line that ranks above everything so far
      keeps the order, and everything then ranks at most that line. */
  lemma OrderedAppend(s: seq<string>, boundary: string, p: bool, y: string)
    requires InDefaultOrder(s, boundary) && DefaultRank(y, boundary) < 5
    requires RanksBelow(s, boundary, DefaultRank(y, boundary))
    ensures InDefaultOrder(s + When(p, y), boundary)
    ensures RanksBelow(s + When(p, y), boundary, DefaultRank(y, boundary) + 1)
  {
  }

  /** Which lines the defaults contain. */
  lemma DefaultHeadersMembers(c: Config)
    ensures UserAgentLine in DefaultHeaders(c) <==> !c.haveUserAgent
    ensures AcceptEncodingLine in DefaultHeaders(c) <==> !c.haveAcceptEncoding && c.decompress
    ensures ConnectionLine in DefaultHeaders(c) <==> !c.haveConnection
    ensures ExpectLine in DefaultHeaders(c) <==> !c.haveExpect
    ensures ContentTypeLine(c.boundary) in DefaultHeaders(c) <==> c.useMultipart && !c.haveContentType
  {
    DefaultLinesDistinct(c.boundary);
    var pa, pb, pc := !c.haveUserAgent, !c.haveAcceptEncoding && c.decompress, !c.haveConnection;
    var pd, pe := !c.haveExpect, c.useMultipart && !c.haveContentType;
    var a, b, d, e := UserAgentLine, AcceptEncodingLine, ExpectLine, ContentTypeLine(c.boundary);
    InOptionalLines(a, a, b, ConnectionLine, d, e, pa, pb, pc, pd, pe);
    InOptionalLines(b, a, b, ConnectionLine, d, e, pa, pb, pc, pd, pe);
    InOptionalLines(ConnectionLine, a, b, ConnectionLine, d, e, pa, pb, pc, pd, pe);
    InOptionalLines(d, a, b, ConnectionLine, d, e, pa, pb, pc, pd, pe);
    InOptionalLines(e, a, b, ConnectionLine, d, e, pa, pb, pc, pd, pe);
  }

  /** A line is among five optional lines when one of the present ones is it. */
  lemma InOptionalLines(x: string, a: string, b: string, c: string, d: string, e: string,
                        pa: bool, pb: bool, pc: bool, pd: bool, pe: bool)
    ensures x in When(pa, a) + When(pb, b) + When(pc, c) + When(pd, d) + When(pe, e)
            <==> (pa && x == a) || (pb && x == b) || (pc && x == c) || (pd && x == d) || (pe && x == e)
  {
    var s2 := When(pa, a) + When(pb, b);
    var s3 := s2 + When(pc, c);
    var s4 := s3 + When(pd, d);
    InWhenAppend(x, When(pa, a), pb, b);
    InWhenAppend(x, s2, pc, c);
    InWhenAppend(x, s3, pd, d);
    InWhenAppend(x, s4, pe, e);
    assert x in When(pa, a) <==> pa && x == a;
  }

  /** Membership in a list followed by one optional line. */
  lemma InWhenAppend(x: string, s: seq<string>, p: bool, y: string)
    ensures x in s + When(p, y) <==> x in s || (p && x == y)
  {
  }

  /** The five default lines are pairwise different. */
  lemma DefaultLinesDistinct(boundary: string)
    ensures UserAgentLine != AcceptEncodingLine && UserAgentLine != ConnectionLine
    ensures UserAgentLine != ExpectLine && UserAgentLine != ContentTypeLine(boundary)
    ensures AcceptEncodingLine != ConnectionLine && AcceptEncodingLine != ExpectLine
    ensures AcceptEncodingLine != ContentTypeLine(boundary)
    ensures ConnectionLine != ExpectLine && ConnectionLine != ContentTypeLine(boundary)
    ensures ExpectLine != ContentTypeLine(boundary)
  {
    assert UserAgentLine[0] != AcceptEncodingLine[0];
    assert UserAgentLine[0] != ConnectionLine[0];
    assert UserAgentLine[0] != ExpectLine[0];
    assert UserAgentLine[0] != ContentTypeLine(boundary)[0];
    assert AcceptEncodingLine[1] != ConnectionLine[1];
    assert AcceptEncodingLine[0] != ExpectLine[0];
    assert AcceptEncodingLine[1] != ContentTypeLine(boundary)[1];
    assert ConnectionLine[0] != ExpectLine[0];
    assert ConnectionLine[3] != ContentTypeLine(boundary)[3];
    assert ExpectLine[0] != ContentTypeLine(boundary)[0];
  }

  /** User headers are recognised only under their two exact spellings: a
      "USER-AGENT" header does not suppress the default User-Agent line, so
      both are sent. */
  lemma UserAgentSpellingNotFolded(boundary: string)
    ensures var opts := NoOptions.(headers := Some([("USER-AGENT", "bot")]));
            var r := RequestHeaders(ConfigOf(opts, boundary));
            UserAgentLine in r && "USER-AGENT: bot" in r
  {
    var entries := [("USER-AGENT", "bot")];
    assert !HasProp(entries, "User-Agent") by { assert entries[0].0[1] != "User-Agent"[1]; }
    assert !HasProp(entries, "user-agent") by { assert entries[0].0[0] != "user-agent"[0]; }
    var none: seq<(string, string)> := [];
    assert entries[..0] == none;
    assert UserHeaderLines(entries) == UserHeaderLines(none) + ["USER-AGENT" + ": " + "bot"];
    assert "USER-AGENT" + ": " + "bot" == "USER-AGENT: bot";
    var c := ConfigOf(NoOptions.(headers := Some(entries)), boundary);
    assert c.userHeaders == UserHeaderLines(entries);
    assert c.userHeaders == ["USER-AGENT: bot"];
    var r := RequestHeaders(c);
    assert r[|r| - 1] == "USER-AGENT: bot";
  }

  /** The body handed to the transport: the multipart body when a form was
      given, otherwise the body when it is not empty, otherwise none. */
  function PostFields(c: Config): (r: Option<string>)
    ensures c.useMultipart ==> r == Some(c.multipartBody)
    ensures !c.useMultipart ==> (r.Some? <==> c.body != []) && (r.Some? ==> r.value == c.body)
  {
    if c.useMultipart then Some(c.multipartBody)
    else if c.body != [] then Some(c.body)
    else None
  }

  /** A form replaces the body: whatever `body` said, the form is sent, with
      its Content-Type unless the caller supplied one. */
  lemma FormDataWins(opts: Options, boundary: string)
    requires opts.formData.Some?
    ensures ConfigOf(opts, boundary).body == []
    ensures PostFields(ConfigOf(opts, boundary)) == Some(MultipartBody(boundary, opts.formData.value))
    ensures ContentTypeLine(boundary) in RequestHeaders(ConfigOf(opts, boundary))
            <== !(HasProp(opts.headers.GetOr([]), "Content-Type") || HasProp(opts.headers.GetOr([]), "content-type"))
  {
    var c := ConfigOf(opts, boundary);
    var r := RequestHeaders(c);
    if !c.haveContentType {
      assert ContentTypeLine(boundary) in r[..|r| - |c.userHeaders|];
    }
  }

  datatype MethodChoice = HttpGet | Post | NoBody | CustomRequest(verb: string)

  /** GET, POST and HEAD are recognised in any letter case; any other method is
      sent as a custom request in the caller's spelling. */
  function MethodSetting(m: string): (r: MethodChoice)
    ensures r.HttpGet? <==> Upper(m) == "GET"
    ensures r.Post? <==> Upper(m) == "POST"
    ensures r.NoBody? <==> Upper(m) == "HEAD"
    ensures r.CustomRequest? ==> r.verb == m
  {
    var up := Upper(m);
    if up == "GET" then HttpGet
    else if up == "POST" then Post
    else if up == "HEAD" then NoBody
    else CustomRequest(m)
  }

  /** Upper-casing twice is upper-casing once. */
  lemma UpperIdempotent(s: string)
    ensures Upper(Upper(s)) == Upper(s)
  {
  }

  /** The standard methods do not depend on letter case. */
  lemma MethodCaseInsensitive(m: string)
    requires Upper(m) in {"GET", "POST", "HEAD"}
    ensures MethodSetting(m) == MethodSetting(Upper(m))
  {
    UpperIdempotent(m);
  }

  datatype AddressFamily = V4 | V6 | AnyFamily

  /** "v4" and "v6" select a family, spelled exactly so; anything else allows both. */
  function IpResolveSetting(s: string): (r: AddressFamily)
    ensures r == V4 <==> s == "v4"
    ensures r == V6 <==> s == "v6"
  {
    if s == "v4" then V4 else if s == "v6" then V6 else AnyFamily
  }

  /** The cookie settings: a non-empty cookie file is both read and written, a
      non-empty cookie string is sent. */
  datatype CookieSetup = CookieSetup(cookieFile: Option<string>, cookieJar: Option<string>, cookie: Option<string>)

  function CookieSettings(c: Config): (r: CookieSetup)
    ensures r.cookieFile == r.cookieJar
    ensures r.cookieFile.Some? <==> c.cookieFile != []
    ensures r.cookie.Some? <==> c.cookie != []
    ensures r.cookieFile.Some? ==> r.cookieFile.value == c.cookieFile
    ensures r.cookie.Some? ==> r.cookie.value == c.cookie
  {
    var file := if c.cookieFile != [] then Some(c.cookieFile) else None;
    CookieSetup(file, file, if c.cookie != [] then Some(c.cookie) else None)
  }

  // ---------------------------------------------------------------------------
  // the worker
  // ---------------------------------------------------------------------------

  /** How a request ends. */
  datatype Outcome = Aborted | TransportError(code: int) | Completed(response: Response)

  class FetchWorker {
    const url: string
    const config: Config
    const resp: ResponseData
    var abort: bool
    var downloaded: nat
    /** The chunks handed to the data callback, in order. */
    var forwarded: seq<string>

    /** A streaming worker keeps no body and counts what it forwarded; a
        buffering one counts what it kept and never exceeds a non-negative
        size limit. */
    predicate Valid()
      reads this, resp
    {
      && (config.streaming ==> resp.body == [] && downloaded == |Concat(forwarded)|)
      && (!config.streaming ==> forwarded == [] && downloaded == |resp.body|)
      && (!config.streaming && config.maxBodySize >= 0 ==> |resp.body| <= config.maxBodySize)
    }

    constructor (url: string, opts: Options, boundary: string)
      ensures this.url == url && config == ConfigOf(opts, boundary)
      ensures !abort && downloaded == 0 && forwarded == []
      ensures fresh(resp) && resp.body == [] && resp.headers == map[] && resp.status == 0
      ensures resp.url == [] && resp.statusText == []
      ensures Valid()
    {
      this.url := url;
      var c := Configure(opts, boundary);
      config := c;
      resp := new ResponseData();
      abort := false;
      downloaded := 0;
      forwarded := [];
    }

    /** The body callback: returns how many bytes were taken; 0 makes the
        transport fail the transfer. */
    method WriteBody(chunk: string) returns (n: nat)
      requires Valid()
      modifies this`downloaded, this`forwarded, resp`body
      ensures Valid()
      ensures old(abort) ==> n == 0 && resp.body == old(resp.body) && forwarded == old(forwarded)
                             && downloaded == old(downloaded)
      ensures !abort && config.streaming ==>
                n == |chunk| && forwarded == old(forwarded) + [chunk] && resp.body == old(resp.body)
      ensures !abort && !config.streaming && config.maxBodySize >= 0
              && |old(resp.body)| + |chunk| > config.maxBodySize ==>
                n == 0 && resp.body == old(resp.body) && downloaded == old(downloaded)
      ensures !abort && !config.streaming
              && !(config.maxBodySize >= 0 && |old(resp.body)| + |chunk| > config.maxBodySize) ==>
                n == |chunk| && resp.body == old(resp.body) + chunk && forwarded == old(forwarded)
    {
      if abort {
        return 0;
      }
      n := |chunk|;
      if config.streaming {
        ConcatAppend(forwarded, [chunk]);
        var none: seq<string> := [];
        assert [chunk][..0] == none;
        forwarded := forwarded + [chunk];
        downloaded := downloaded + n;
        return n;
      }
      if config.maxBodySize >= 0 && |resp.body| + n > config.maxBodySize {
        return 0;
      }
      resp.body := resp.body + chunk;
      downloaded := downloaded + n;
    }

    /** The header callback: every line is taken whole. */
    method WriteHeader(raw: string) returns (n: nat)
      requires Valid()
      modifies resp`headers, resp`status, resp`statusText
      ensures Valid()
      ensures n == |raw|
      ensures resp.CurrentHop() == HeaderStep(old(resp.CurrentHop()), raw)
    {
      resp.AddHeaderLine(raw);
      n := |raw|;
    }

    /** The progress callback: a non-zero answer cancels the transfer. */
    method OnProgress() returns (r: int)
      ensures r == 1 <==> abort
      ensures r == 0 <==> !abort
    {
      r := if abort then 1 else 0;
    }

    /** The abort function handed to the caller; it only ever raises the flag,
        so calling it again changes nothing. */
    method Abort()
      modifies this`abort
      ensures abort
    {
      abort := true;
    }

    /** The end of the transfer, given the transport's return code, the final
        status code and the effective URL if the transport reports one. */
    method Complete(rc: int, httpStatus: int, effectiveUrl: Option<string>) returns (outcome: Outcome)
      requires Valid()
      modifies resp`status, resp`url, resp`statusText
      ensures abort ==> outcome == Aborted && unchanged(resp)
      ensures !abort && rc != 0 ==> outcome == TransportError(rc) && unchanged(resp)
      ensures !abort && rc == 0 ==>
                && resp.status == httpStatus
                && resp.url == (if effectiveUrl.Some? then effectiveUrl.value else old(resp.url))
                && resp.statusText == FinalStatusText(old(resp.statusText), httpStatus)
                && outcome == Completed(ResponseOf(httpStatus, resp.statusText, resp.url, resp.headers, resp.body))
      ensures Valid()
    {
      if abort {
        return Aborted;
      }
      if rc != 0 {
        return TransportError(rc);
      }
      resp.status := httpStatus;
      if effectiveUrl.Some? {
        resp.url := effectiveUrl.value;
      }
      if resp.statusText == [] {
        resp.statusText := DefaultStatusText(resp.status);
      }
      outcome := Completed(ResponseOf(resp.status, resp.statusText, resp.url, resp.headers, resp.body));
    }
  }
}
