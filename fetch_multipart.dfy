/** The multipart/form-data serialiser of the HTTP engine: every form field
    becomes one part, a file part when it carries non-empty bytes and a text
    part otherwise, and the parts are closed by the final delimiter. */
module Multipart {
  import opened Wrappers
  import opened Text

  /** A property of a field object, as far as the serialiser looks at it: absent,
      a Buffer, or any other value (kept as its string coercion). */
  datatype Prop = Absent | Buffer(bytes: string) | Other(coerced: string)

  /** The value of one form field. */
  datatype FieldValue =
    | BufferValue(bytes: string)
      /** An object with its `value`, `data` and `buffer` properties, its
          `filename` and `contentType` coerced to strings when present, and the
          object's own string coercion. */
    | ObjectValue(value: Prop, data: Prop, buffer: Prop,
                  filename: Option<string>, contentType: Option<string>, coerced: string)
      /** Any non-object value, kept as its string coercion. */
    | PlainValue(coerced: string)

  datatype Field = Field(name: string, value: FieldValue)

  /** What one part carries. */
  datatype Payload = FilePart(data: string, filename: string, contentType: string) | TextPart(text: string)

  /** The bytes an object supplies, by precedence: a Buffer `value`, then a
      Buffer `data`, then a Buffer `buffer`. */
  function ObjectBytes(value: Prop, data: Prop, buffer: Prop): Option<string> {
    if value.Buffer? then Some(value.bytes)
    else if data.Buffer? then Some(data.bytes)
    else if buffer.Buffer? then Some(buffer.bytes)
    else None
  }

  /** The text an object supplies when it has no Buffer: its `value` coerced to a
      string if present, otherwise the object's own coercion. */
  function ObjectText(value: Prop, coerced: string): string {
    match value
    case Other(s) => s
    case Buffer(_) => ""
    case Absent => coerced
  }

  /** The filename and content type of a file part, with their defaults. */
  function FileName(f: string): string { if f == [] then "blob" else f }

  function ContentType(c: string): string { if c == [] then "application/octet-stream" else c }

  /** How a field value is serialised. */
  function Classify(v: FieldValue): (p: Payload)
    ensures p.FilePart? ==> p.filename != [] && p.contentType != []
    ensures p.FilePart? <==> v.BufferValue? || (v.ObjectValue? && ObjectBytes(v.value, v.data, v.buffer).GetOr([]) != [])
  {
    match v
    case BufferValue(bytes) => FilePart(bytes, "blob", "application/octet-stream")
    case ObjectValue(value, data, buffer, filename, contentType, coerced) =>
      var bytes := ObjectBytes(value, data, buffer);
      if bytes.Some? && bytes.value != [] then
        FilePart(bytes.value, FileName(filename.GetOr("")), ContentType(contentType.GetOr("")))
      else if bytes.Some? then TextPart("")
      else TextPart(ObjectText(value, coerced))
    case PlainValue(coerced) => TextPart(coerced)
  }

  /** The bytes of a payload. */
  function PayloadBytes(p: Payload): string {
    match p
    case FilePart(data, _, _) => data
    case TextPart(text) => text
  }

  // ---------------------------------------------------------------------------
  // the wire format of a part
  // ---------------------------------------------------------------------------

  function DispositionLine(name: string, p: Payload): string {
    "Content-Disposition: form-data; name=\"" + name + "\""
      + (if p.FilePart? then "; filename=\"" + p.filename + "\"" else "")
  }

  /** The header lines of a part, without their line ends. */
  function HeaderLines(name: string, p: Payload): seq<string> {
    [DispositionLine(name, p)] + (if p.FilePart? then ["Content-Type: " + p.contentType] else [])
  }

  /** Lines joined by CRLF. */
  function JoinCrlf(lines: seq<string>): string
    decreases |lines|
  {
    if lines == [] then []
    else if |lines| == 1 then lines[0]
    else lines[0] + "\r\n" + JoinCrlf(lines[1..])
  }

  /** The header block of a part: its lines, then an empty line. */
  function PartHead(name: string, p: Payload): string {
    JoinCrlf(HeaderLines(name, p)) + "\r\n\r\n"
  }

  function Delimiter(boundary: string): string { "--" + boundary + "\r\n" }

  function CloseDelimiter(boundary: string): string { "--" + boundary + "--\r\n" }

  /** One serialised field. */
  function Part(boundary: string, f: Field): string {
    var p := Classify(f.value);
    Delimiter(boundary) + PartHead(f.name, p) + PayloadBytes(p) + "\r\n"
  }

  /** The strings in `ss`, one after the other. */
  function Concat(ss: seq<string>): string
    decreases |ss|
  {
    if ss == [] then [] else Concat(ss[..|ss| - 1]) + ss[|ss| - 1]
  }

  /** The serialised fields, one string per field. */
  function PartList(boundary: string, fields: seq<Field>): (ps: seq<string>)
    ensures |ps| == |fields|
  {
    seq(|fields|, i requires 0 <= i < |fields| => Part(boundary, fields[i]))
  }

  /** The parts of `fields`, in order. */
  function Parts(boundary: string, fields: seq<Field>): string {
    Concat(PartList(boundary, fields))
  }

  /** The whole request body. */
  function MultipartBody(boundary: string, fields: seq<Field>): string {
    Parts(boundary, fields) + CloseDelimiter(boundary)
  }

  // ---------------------------------------------------------------------------
  // the serialiser
  // ---------------------------------------------------------------------------

  /** Appends the part of one field the way the serialiser does: the delimiter,
      then the header block written piece by piece, the payload and a CRLF. */
  method AppendPart(body: string, boundary: string, f: Field) returns (body': string)
    ensures body' == body + Part(boundary, f)
  {
    body' := body + Delimiter(boundary);
    var p := Classify(f.value);
    PartHeadPieces(f.name, p);
    var head := "Content-Disposition: form-data; name=\"" + f.name + "\"";
    if p.FilePart? {
      head := head + "; filename=\"" + p.filename + "\"\r\n";
      head := head + "Content-Type: " + p.contentType + "\r\n\r\n";
      assert head == PartHead(f.name, p);
      body' := body' + head + p.data + "\r\n";
      Regroup5(body, Delimiter(boundary), head, p.data, "\r\n");
    } else {
      head := head + "\r\n\r\n";
      assert head == PartHead(f.name, p);
      body' := body' + head + p.text + "\r\n";
      Regroup5(body, Delimiter(boundary), head, p.text, "\r\n");
    }
  }

  /** Appending four pieces one by one appends their concatenation. */
  lemma Regroup5(a: string, b: string, c: string, d: string, e: string)
    ensures a + b + c + d + e == a + (b + c + d + e)
  {
  }

  /** The header block equals the concatenation the serialiser writes. */
  lemma PartHeadPieces(name: string, p: Payload)
    ensures p.FilePart? ==> (PartHead(name, p)
      == "Content-Disposition: form-data; name=\"" + name + "\"" + "; filename=\"" + p.filename + "\"\r\n"
         + "Content-Type: " + p.contentType + "\r\n\r\n")
    ensures p.TextPart? ==> (PartHead(name, p)
      == "Content-Disposition: form-data; name=\"" + name + "\"" + "\r\n\r\n")
  {
    var lines := HeaderLines(name, p);
    if p.FilePart? {
      assert |lines| == 2;
      assert JoinCrlf(lines[1..]) == lines[1];
    } else {
      assert |lines| == 1;
    }
  }

  /** Serialises the fields in order and closes the body. */
  method BuildMultipart(boundary: string, fields: seq<Field>) returns (body: string)
    ensures body == MultipartBody(boundary, fields)
  {
    body := [];
    for i := 0 to |fields|
      invariant body == Parts(boundary, fields[..i])
    {
      body := AppendPart(body, boundary, fields[i]);
      assert PartList(boundary, fields[..i + 1])[..i] == PartList(boundary, fields[..i]);
    }
    assert fields[..|fields|] == fields;
    body := body + CloseDelimiter(boundary);
  }

  // ---------------------------------------------------------------------------
  // properties of the serialised body
  // ---------------------------------------------------------------------------

  predicate HasPrefix(line: string, prefix: string) {
    |prefix| <= |line| && line[..|prefix|] == prefix
  }

  /** The number of lines that start with `prefix`. */
  function CountWithPrefix(lines: seq<string>, prefix: string): nat
    decreases |lines|
  {
    if lines == [] then 0
    else CountWithPrefix(lines[..|lines| - 1], prefix) + (if HasPrefix(lines[|lines| - 1], prefix) then 1 else 0)
  }

  /** No carriage return or line feed: text that cannot end a header line. */
  predicate NoLineBreak(s: string) { '\r' !in s && '\n' !in s }

  /** The first index at or after `i` where a CRLF starts, or |s| when no CRLF
      starts there or later. */
  function FindCrlf(s: string, i: nat): (k: nat)
    requires i <= |s|
    ensures i <= k <= |s|
    ensures k < |s| ==> k + 1 < |s| && s[k] == '\r' && s[k + 1] == '\n'
    ensures forall j :: i <= j < k && j + 1 < |s| ==> !(s[j] == '\r' && s[j + 1] == '\n')
    decreases |s| - i
  {
    if i + 1 >= |s| then |s|
    else if s[i] == '\r' && s[i + 1] == '\n' then i
    else FindCrlf(s, i + 1)
  }

  /** The lines a reader sees when it splits `s` at each CRLF; text after the
      last CRLF is one more line, and nothing after it is none. */
  function CrlfLines(s: string): seq<string>
    decreases |s|
  {
    if s == [] then []
    else
      var k := FindCrlf(s, 0);
      if k == |s| then [s] else [s[..k]] + CrlfLines(s[k + 2..])
  }

  /** A line without line breaks, a CRLF and the rest: the line comes first. */
  lemma {:induction false} LineThenRest(x: string, rest: string)
    requires NoLineBreak(x)
    ensures CrlfLines(x + "\r\n" + rest) == [x] + CrlfLines(rest)
  {
    var s := x + "\r\n" + rest;
    var k := FindCrlf(s, 0);
    assert s[|x|] == '\r' && s[|x| + 1] == '\n';
    assert k == |x|;
    assert s[..k] == x;
    assert s[k + 2..] == rest;
  }

  /** Appending the empty line changes no count of a non-empty prefix. */
  lemma CountEmptyLast(lines: seq<string>, prefix: string)
    requires prefix != []
    ensures CountWithPrefix(lines + [""], prefix) == CountWithPrefix(lines, prefix)
  {
    assert (lines + [""])[..|lines|] == lines;
  }

  /** Header values without line breaks: the header block splits back into
      its header lines and the blank line that ends it. */
  lemma PartHeadLines(name: string, p: Payload)
    requires NoLineBreak(name)
    requires p.FilePart? ==> NoLineBreak(p.filename) && NoLineBreak(p.contentType)
    ensures CrlfLines(PartHead(name, p)) == HeaderLines(name, p) + [""]
  {
    var d := DispositionLine(name, p);
    DispositionNoBreak(name, p);
    if p.FilePart? {
      var t := "Content-Type: " + p.contentType;
      assert NoLineBreak(t) by {
        LiteralsNoBreak();
        NoBreakAppend("Content-Type: ", p.contentType);
      }
      assert HeaderLines(name, p) == [d, t];
      assert JoinCrlf([d, t]) == d + "\r\n" + t by {
        assert [d, t][1..] == [t];
      }
      TwoLineHead(d, t);
    } else {
      assert HeaderLines(name, p) == [d];
      OneLineHead(d);
    }
  }

  /** The header block of a text part. */
  lemma OneLineHead(d: string)
    requires NoLineBreak(d)
    ensures CrlfLines(JoinCrlf([d]) + "\r\n\r\n") == [d] + [""]
  {
    assert JoinCrlf([d]) == d;
    EmptyLineOnly();
    LineThenRest(d, "\r\n");
    assert d + "\r\n" + "\r\n" == d + "\r\n\r\n";
  }

  /** A lone CRLF is one empty line. */
  lemma EmptyLineOnly()
    ensures CrlfLines("\r\n") == [""]
  {
    LineThenRest("", []);
    assert "" + "\r\n" + [] == "\r\n";
  }

  /** The header block of a file part. */
  lemma TwoLineHead(d: string, t: string)
    requires NoLineBreak(d) && NoLineBreak(t)
    ensures CrlfLines(d + "\r\n" + t + "\r\n\r\n") == [d, t] + [""]
  {
    EmptyLineOnly();
    LineThenRest(t, "\r\n");
    LineThenRest(d, t + "\r\n" + "\r\n");
    RegroupHead(d, t, "\r\n", "\r\n");
    assert "\r\n" + "\r\n" == "\r\n\r\n";
  }

  /** The Content-Disposition line has no line break when its values have none. */
  lemma DispositionNoBreak(name: string, p: Payload)
    requires NoLineBreak(name)
    requires p.FilePart? ==> NoLineBreak(p.filename)
    ensures NoLineBreak(DispositionLine(name, p))
  {
    var head := "Content-Disposition: form-data; name=\"";
    DispositionStartNoBreak();
    LiteralsNoBreak();
    NoBreakAppend(head, name);
    NoBreakAppend(head + name, "\"");
    if p.FilePart? {
      NoBreakAppend("; filename=\"", p.filename);
      NoBreakAppend("; filename=\"" + p.filename, "\"");
    }
    NoBreakAppend(head + name + "\"", if p.FilePart? then "; filename=\"" + p.filename + "\"" else "");
  }

  /** The fixed pieces of the header lines contain no line break. */
  lemma LiteralsNoBreak()
    ensures NoLineBreak("\"") && NoLineBreak("; filename=\"") && NoLineBreak("Content-Type: ")
  {
  }

  lemma DispositionStartNoBreak()
    ensures NoLineBreak("Content-Disposition: form-data; name=\"")
  {
  }

  /** Text without line breaks stays so under concatenation. */
  lemma NoBreakAppend(a: string, b: string)
    requires NoLineBreak(a) && NoLineBreak(b)
    ensures NoLineBreak(a + b)
  {
  }

  /** Regrouping d + CRLF + t, followed by two more pieces. */
  lemma RegroupHead(d: string, t: string, a: string, b: string)
    ensures d + "\r\n" + t + (a + b) == d + "\r\n" + (t + a + b)
  {
  }

  /** When names, file names and content types carry no line breaks, every
      part's header block has exactly one Content-Disposition line, and a
      Content-Type line exactly when it is a file part. */
  lemma OneDispositionPerPart(name: string, p: Payload)
    requires NoLineBreak(name)
    requires p.FilePart? ==> NoLineBreak(p.filename) && NoLineBreak(p.contentType)
    ensures CountWithPrefix(CrlfLines(PartHead(name, p)), "Content-Disposition:") == 1
    ensures CountWithPrefix(CrlfLines(PartHead(name, p)), "Content-Type:") == (if p.FilePart? then 1 else 0)
  {
    PartHeadLines(name, p);
    HeaderLineCounts(name, p);
    CountEmptyLast(HeaderLines(name, p), "Content-Disposition:");
    CountEmptyLast(HeaderLines(name, p), "Content-Type:");
  }

  /** The field name is written unescaped: a name that carries a CRLF followed
      by "Content-Type: " gives a text part a Content-Type header line of the
      caller's choosing. */
  lemma NameWithLineBreakAddsHeader(x: string, t: string, text: string)
    requires NoLineBreak(x) && NoLineBreak(t)
    ensures var name := x + "\"" + "\r\n" + "Content-Type: " + t;
            CountWithPrefix(CrlfLines(PartHead(name, TextPart(text))), "Content-Type:") == 1
  {
    var l1, l2 := "Content-Disposition: form-data; name=\"" + x + "\"", "Content-Type: " + t + "\"";
    InjectedHeadLines(x, t, text);
    DispositionNotContentType(x + "\"");
    ContentTypePrefix(t + "\"");
    CountOneOfThree(l1, l2, "Content-Type:");
  }

  /** The header block of a text part whose name carries a CRLF splits into
      three lines. */
  lemma InjectedHeadLines(x: string, t: string, text: string)
    requires NoLineBreak(x) && NoLineBreak(t)
    ensures var name := x + "\"" + "\r\n" + "Content-Type: " + t;
            CrlfLines(PartHead(name, TextPart(text)))
              == ["Content-Disposition: form-data; name=\"" + x + "\"", "Content-Type: " + t + "\"", ""]
  {
    var head, q, cr, ct := "Content-Disposition: form-data; name=\"", "\"", "\r\n", "Content-Type: ";
    var name := x + q + cr + ct + t;
    var l1, l2 := head + x + q, ct + t + q;
    PartHeadPieces(name, TextPart(text));
    assert "\r\n\r\n" == cr + cr;
    RegroupInjected(head, x, q, cr, ct, t);
    DispositionStartNoBreak();
    LiteralsNoBreak();
    NoBreakAppend(head, x);
    NoBreakAppend(head + x, q);
    NoBreakAppend(ct, t);
    NoBreakAppend(ct + t, q);
    LineThenRest("", []);
    assert "" + cr + [] == cr;
    LineThenRest(l2, cr);
    LineThenRest(l1, l2 + cr + cr);
  }

  /** A Content-Disposition line does not start with "Content-Type:". */
  lemma DispositionNotContentType(rest: string)
    ensures !HasPrefix("Content-Disposition: form-data; name=\"" + rest, "Content-Type:")
  {
    var l := "Content-Disposition: form-data; name=\"" + rest;
    assert l[8] == 'D';
  }

  /** A Content-Type line starts with "Content-Type:". */
  lemma ContentTypePrefix(rest: string)
    ensures HasPrefix("Content-Type: " + rest, "Content-Type:")
  {
    var l := "Content-Type: " + rest;
    assert l[..13] == "Content-Type:";
  }

  /** Of three lines, only the second starts with `prefix`. */
  lemma CountOneOfThree(l1: string, l2: string, prefix: string)
    requires prefix != [] && !HasPrefix(l1, prefix) && HasPrefix(l2, prefix)
    ensures CountWithPrefix([l1, l2, ""], prefix) == 1
  {
    var lines := [l1, l2, ""];
    var none: seq<string> := [];
    assert [l1][..0] == none;
    assert CountWithPrefix([l1], prefix) == 0;
    assert [l1, l2][..1] == [l1];
    assert CountWithPrefix([l1, l2], prefix) == 1;
    assert lines[..2] == [l1, l2];
  }

  /** Regrouping the injected header block into its three lines. */
  lemma RegroupInjected(h: string, x: string, q: string, cr: string, ct: string, t: string)
    ensures h + (x + q + cr + ct + t) + q + (cr + cr) == (h + x + q) + cr + ((ct + t + q) + cr + cr)
  {
  }

  /** The header lines of a part: one Content-Disposition line, and a
      Content-Type line exactly for a file part. */
  lemma HeaderLineCounts(name: string, p: Payload)
    ensures CountWithPrefix(HeaderLines(name, p), "Content-Disposition:") == 1
    ensures CountWithPrefix(HeaderLines(name, p), "Content-Type:") == (if p.FilePart? then 1 else 0)
  {
    var lines := HeaderLines(name, p);
    var d := DispositionLine(name, p);
    assert HasPrefix(d, "Content-Disposition:");
    assert !HasPrefix(d, "Content-Type:") by { assert d[..13][8] == 'D'; }
    assert lines[..1] == [d];
    var none: seq<string> := [];
    assert [d][..0] == none;
    assert CountWithPrefix([d], "Content-Type:") == 0;
    assert CountWithPrefix([d], "Content-Disposition:") == 1;
    if p.FilePart? {
      var t := "Content-Type: " + p.contentType;
      assert lines == [d, t];
      assert HasPrefix(t, "Content-Type:");
      assert !HasPrefix(t, "Content-Disposition:") by {
        if |t| >= 20 {
          assert t[..20][8] == 'T';
        }
      }
      assert lines[..|lines| - 1] == [d];
    } else {
      assert lines == [d];
    }
  }

  /** Concatenating two lists of strings concatenates their contents. */
  lemma {:induction false} ConcatAppend(a: seq<string>, b: seq<string>)
    ensures Concat(a + b) == Concat(a) + Concat(b)
    decreases |b|
  {
    if b == [] {
      assert a + b == a;
    } else {
      var b', last := b[..|b| - 1], b[|b| - 1];
      assert (a + b)[..|a + b| - 1] == a + b';
      assert (a + b)[|a + b| - 1] == last;
      assert Concat(a + b) == Concat(a + b') + last;
      ConcatAppend(a, b');
      assert Concat(b) == Concat(b') + last;
      Assoc3(Concat(a), Concat(b'), last);
    }
  }

  /** Regrouping three appended pieces. */
  lemma Assoc3(x: string, y: string, z: string)
    ensures x + y + z == x + (y + z)
  {
  }

  /** The offset at which the part of field `i` starts in the body. */
  function PartOffset(boundary: string, fields: seq<Field>, i: nat): nat
    requires i <= |fields|
  {
    |Parts(boundary, fields[..i])|
  }

  /** Element `i` of a list of strings sits in the concatenation right after the
      elements before it. */
  lemma ConcatInPlace(ps: seq<string>, i: nat)
    requires i < |ps|
    ensures var off := |Concat(ps[..i])|;
            off + |ps[i]| <= |Concat(ps)|
            && Concat(ps)[off..off + |ps[i]|] == ps[i]
            && Concat(ps[..i + 1]) == Concat(ps[..i]) + ps[i]
  {
    var pre := ps[..i];
    var post := ps[i + 1..];
    assert ps == pre + [ps[i]] + post;
    assert ps[..i + 1] == pre + [ps[i]];
    ConcatAppend(pre + [ps[i]], post);
    ConcatAppend(pre, [ps[i]]);
    var none: seq<string> := [];
    assert [ps[i]][..0] == none;
    assert Concat([ps[i]]) == ps[i];
    var off := |Concat(pre)|;
    assert Concat(ps) == Concat(pre) + ps[i] + Concat(post);
    assert Concat(ps)[off..off + |ps[i]|] == ps[i];
  }

  /** The parts of a prefix of the fields are a prefix of the parts. */
  lemma PartListPrefix(boundary: string, fields: seq<Field>, i: nat)
    requires i <= |fields|
    ensures PartList(boundary, fields[..i]) == PartList(boundary, fields)[..i]
  {
  }

  /** A slice of a string found inside another sits at the shifted offset. */
  lemma SliceWithin(s: string, t: string, off: nat, k: nat, n: nat)
    requires off + |t| <= |s| && s[off..off + |t|] == t && k + n <= |t|
    ensures s[off + k..off + k + n] == t[k..k + n]
  {
    forall j | off + k <= j < off + k + n
      ensures s[j] == t[j - off]
    {
      assert s[off..off + |t|][j - off] == s[j];
    }
  }

  /** The middle piece of a three-piece concatenation. */
  lemma MiddlePiece(x: string, y: string, z: string)
    ensures (x + y + z)[|x|..|x| + |y|] == y
  {
  }

  /** Field `i` occupies the bytes from its offset on, in field order. */
  lemma PartInPlace(boundary: string, fields: seq<Field>, i: nat)
    requires i < |fields|
    ensures PartOffset(boundary, fields, i + 1) == PartOffset(boundary, fields, i) + |Part(boundary, fields[i])|
    ensures PartOffset(boundary, fields, i + 1) <= |MultipartBody(boundary, fields)|
    ensures MultipartBody(boundary, fields)[PartOffset(boundary, fields, i)..PartOffset(boundary, fields, i + 1)]
            == Part(boundary, fields[i])
  {
    var ps := PartList(boundary, fields);
    PartListPrefix(boundary, fields, i);
    PartListPrefix(boundary, fields, i + 1);
    ClosedConcatInPlace(ps, CloseDelimiter(boundary), i, MultipartBody(boundary, fields),
                        PartOffset(boundary, fields, i), PartOffset(boundary, fields, i + 1));
  }

  /** Element `i` of a list of strings sits in the concatenation, followed by a
      closing string, right after the elements before it. */
  lemma ClosedConcatInPlace(ps: seq<string>, close: string, i: nat, body: string, a: int, b: int)
    requires i < |ps| && body == Concat(ps) + close
    requires a == |Concat(ps[..i])| && b == |Concat(ps[..i + 1])|
    ensures b == a + |ps[i]| && 0 <= a <= b <= |body| && body[a..b] == ps[i]
  {
    ConcatInPlace(ps, i);
    PrefixSlice(Concat(ps), close, a, b);
  }

  /** A slice inside the first of two concatenated strings. */
  lemma PrefixSlice(c: string, d: string, a: nat, b: nat)
    requires a <= b <= |c|
    ensures (c + d)[a..b] == c[a..b]
  {
  }

  /** The body ends with the closing delimiter; with no fields it is only that. */
  lemma BodyClosed(boundary: string, fields: seq<Field>)
    ensures var body := MultipartBody(boundary, fields);
            |body| >= |CloseDelimiter(boundary)|
            && body[|body| - |CloseDelimiter(boundary)|..] == CloseDelimiter(boundary)
            && (fields == [] ==> body == CloseDelimiter(boundary))
  {
  }

  /** A Buffer field is sent as a file part whose bytes are exactly the buffer's,
      named "blob" and typed application/octet-stream. */
  lemma BufferSentVerbatim(boundary: string, fields: seq<Field>, i: nat)
    requires i < |fields| && fields[i].value.BufferValue?
    ensures Classify(fields[i].value) == FilePart(fields[i].value.bytes, "blob", "application/octet-stream")
    ensures var off := PartOffset(boundary, fields, i) + |Delimiter(boundary)|
                       + |PartHead(fields[i].name, Classify(fields[i].value))|;
            off + |fields[i].value.bytes| <= |MultipartBody(boundary, fields)|
            && MultipartBody(boundary, fields)[off..off + |fields[i].value.bytes|] == fields[i].value.bytes
  {
    var bytes := fields[i].value.bytes;
    var p := Classify(fields[i].value);
    assert p == FilePart(bytes, "blob", "application/octet-stream");
    PartInPlace(boundary, fields, i);
    var head := Delimiter(boundary) + PartHead(fields[i].name, p);
    assert Part(boundary, fields[i]) == head + bytes + "\r\n";
    InnerSlice(MultipartBody(boundary, fields), PartOffset(boundary, fields, i), PartOffset(boundary, fields, i + 1),
               head, bytes, "\r\n", PartOffset(boundary, fields, i) + |Delimiter(boundary)| + |PartHead(fields[i].name, p)|);
  }

  /** The middle piece of a three-piece slice of a string. */
  lemma InnerSlice(body: string, a: int, b: int, x: string, y: string, z: string, off: int)
    requires 0 <= a <= b <= |body| && body[a..b] == x + y + z && off == a + |x|
    ensures off + |y| <= |body| && body[off..off + |y|] == y
  {
    MiddlePiece(x, y, z);
    SliceWithin(body, x + y + z, a, |x|, |y|);
  }

  /** The object precedence: a Buffer `value` wins over `data` and `buffer`, a
      Buffer `data` over `buffer`, and text is used only without any Buffer;
      an empty Buffer gives an empty text part. */
  lemma ObjectPrecedence(v: FieldValue)
    requires v.ObjectValue?
    ensures v.value.Buffer? && v.value.bytes != [] ==> Classify(v).FilePart? && Classify(v).data == v.value.bytes
    ensures !v.value.Buffer? && v.data.Buffer? && v.data.bytes != []
            ==> Classify(v).FilePart? && Classify(v).data == v.data.bytes
    ensures !v.value.Buffer? && !v.data.Buffer? && v.buffer.Buffer? && v.buffer.bytes != []
            ==> Classify(v).FilePart? && Classify(v).data == v.buffer.bytes
    ensures ObjectBytes(v.value, v.data, v.buffer) == Some([]) ==> Classify(v) == TextPart("")
    ensures v.value.Other? && !v.data.Buffer? && !v.buffer.Buffer? ==> Classify(v) == TextPart(v.value.coerced)
    ensures v.value.Absent? && !v.data.Buffer? && !v.buffer.Buffer? ==> Classify(v) == TextPart(v.coerced)
  {
  }

  // ---------------------------------------------------------------------------
  // the boundary
  // ---------------------------------------------------------------------------

  /** `x` printed by a stream in std::hex mode: lower-case digits, no padding. */
  function HexDigits(x: nat): (r: string)
    ensures |r| >= 1
    ensures forall k :: 0 <= k < |r| ==> r[k] in HexAlphabet
    decreases x
  {
    if x < 16 then [HexAlphabet[x]] else HexDigits(x / 16) + [HexAlphabet[x % 16]]
  }

  /** The value of a string of hexadecimal digits, most significant first. */
  function HexValue(s: string): nat
    decreases |s|
  {
    if s == [] then 0 else HexValue(s[..|s| - 1]) * 16 + HexDigitValue(s[|s| - 1])
  }

  function Pow16(n: nat): nat {
    if n == 0 then 1 else 16 * Pow16(n - 1)
  }

  /** 16^(a + b) == 16^a * 16^b. */
  lemma {:induction false} Pow16Add(a: nat, b: nat)
    ensures Pow16(a + b) == Pow16(a) * Pow16(b)
    decreases a
  {
    if a > 0 {
      Pow16Add(a - 1, b);
    }
  }

  /** 16^16 is 2^64. */
  lemma Pow16Sixteen()
    ensures Pow16(16) == 0x1_0000_0000_0000_0000
  {
    Pow16Add(8, 8);
    Pow16Add(4, 4);
    assert Pow16(4) == 0x1_0000;
  }

  /** Reading the hexadecimal text back gives the number; a number below 16^n
      takes at most n digits, and a positive one has no leading zero. */
  lemma {:induction false} HexDigitsRoundTrip(x: nat, n: nat)
    requires 1 <= n && x < Pow16(n)
    ensures HexValue(HexDigits(x)) == x
    ensures |HexDigits(x)| <= n
    ensures x > 0 ==> HexDigits(x)[0] != '0'
    decreases x
  {
    var r := HexDigits(x);
    if x >= 16 {
      assert n >= 2;
      assert x / 16 < Pow16(n - 1);
      HexDigitsRoundTrip(x / 16, n - 1);
      HexAlphabetValues(x % 16);
      assert r[..|r| - 1] == HexDigits(x / 16);
      assert r[0] == HexDigits(x / 16)[0];
    } else {
      HexAlphabetValues(x);
    }
  }

  /** The boundary built from three 64-bit random draws: a fixed prefix followed
      by the three draws in lower-case hexadecimal. */
  function Boundary(d1: uint64, d2: uint64, d3: uint64): (b: string)
    ensures 24 <= |b| <= 21 + 48
    ensures b[..21] == "----LioraFormBoundary"
    ensures forall k :: 21 <= k < |b| ==> b[k] in HexAlphabet
  {
    Pow16Sixteen();
    HexDigitsRoundTrip(d1 as nat, 16);
    HexDigitsRoundTrip(d2 as nat, 16);
    HexDigitsRoundTrip(d3 as nat, 16);
    var digits := HexDigits(d1 as nat) + HexDigits(d2 as nat) + HexDigits(d3 as nat);
    assert forall k :: 0 <= k < |digits| ==> digits[k] in HexAlphabet;
    "----LioraFormBoundary" + digits
  }
}
