/** The EXIF block the sticker builder attaches to every WebP image: a fixed
    22-byte little-endian TIFF header whose bytes 14..17 hold the length of a
    JSON payload, followed by that payload, which names the sticker pack. */
module StickerExif {
  import opened Wrappers
  import opened Text

  const TwoTo32: int := 0x1_0000_0000

  // ---------------------------------------------------------------------------
  // little-endian 32-bit fields
  // ---------------------------------------------------------------------------

  /** The four bytes of `x`, least significant first. */
  function Le32(x: int): (b: string)
    requires 0 <= x < TwoTo32
    ensures |b| == 4 && forall i :: 0 <= i < 4 ==> b[i] as int < 256
  {
    [Byte(x), Byte(x / 0x100), Byte(x / 0x1_0000), Byte(x / 0x100_0000)]
  }

  /** The value of four little-endian bytes. */
  function ReadLe32(b: string): (x: int)
    requires |b| == 4
  {
    b[0] as int + 0x100 * b[1] as int + 0x1_0000 * b[2] as int + 0x100_0000 * b[3] as int
  }

  /** Reading back what was written gives the value. */
  lemma Le32RoundTrip(x: int)
    requires 0 <= x < TwoTo32
    ensures ReadLe32(Le32(x)) == x
  {
    var b := Le32(x);
    var q1, q2, q3 := x / 0x100, x / 0x1_0000, x / 0x100_0000;
    assert q1 == 0x100 * (q1 / 0x100) + q1 % 0x100;
    assert q2 == q1 / 0x100;
    assert q2 == 0x100 * (q2 / 0x100) + q2 % 0x100;
    assert q3 == q2 / 0x100;
    assert q3 < 0x100;
    assert x == 0x100 * q1 + b[0] as int;
  }

  /** Writing back what was read gives the same four bytes. */
  lemma Le32OfRead(b: string)
    requires |b| == 4 && forall i :: 0 <= i < 4 ==> b[i] as int < 256
    ensures ReadLe32(b) < TwoTo32 && Le32(ReadLe32(b)) == b
  {
    var x := ReadLe32(b);
    var b0, b1, b2, b3 := b[0] as int, b[1] as int, b[2] as int, b[3] as int;
    assert x / 0x100 == b1 + 0x100 * b2 + 0x1_0000 * b3;
    assert x / 0x1_0000 == b2 + 0x100 * b3;
    assert x / 0x100_0000 == b3;
    ByteOfSplit(b0, b1 + 0x100 * b2 + 0x1_0000 * b3);
    ByteOfSplit(b1, b2 + 0x100 * b3);
    ByteOfSplit(b2, b3);
    ByteOfSplit(b3, 0);
    assert Le32(x) == [b[0], b[1], b[2], b[3]];
  }

  /** The low byte of `lo + 256 * hi` is `lo`. */
  lemma ByteOfSplit(lo: int, hi: int)
    requires 0 <= lo < 256
    ensures Byte(lo + 0x100 * hi) == lo as char
  {
  }

  /** `write_le32`: stores the four bytes of `x` at `d[off..off + 4]`. */
  method WriteLe32(d: array<char>, off: nat, x: int)
    requires off + 4 <= d.Length
    requires 0 <= x < TwoTo32
    modifies d
    ensures d[..] == old(d[..])[..off] + Le32(x) + old(d[..])[off + 4..]
  {
    d[off] := Byte(x);
    d[off + 1] := Byte(x / 0x100);
    d[off + 2] := Byte(x / 0x1_0000);
    d[off + 3] := Byte(x / 0x100_0000);
  }

  // ---------------------------------------------------------------------------
  // the pack id
  // ---------------------------------------------------------------------------

  /** The byte value written as two hex digits at `s[2j..2j + 2]`. */
  function HexByteAt(s: string, j: nat): int
    requires 2 * j + 2 <= |s|
  {
    HexDigitValue(s[2 * j]) * 16 + HexDigitValue(s[2 * j + 1])
  }

  /** The body of the `random_hex` loop: byte `v` as two hex digits at
      `buf[2i]` and `buf[2i + 1]`. */
  method WriteHexPair(buf: array<char>, i: nat, v: int)
    requires 2 * i + 2 <= buf.Length && 0 <= v < 256
    modifies buf
    ensures buf[..] == old(buf[..])[2 * i := buf[2 * i]][2 * i + 1 := buf[2 * i + 1]]
    ensures IsHexDigit(buf[2 * i]) && IsHexDigit(buf[2 * i + 1])
    ensures HexDigitValue(buf[2 * i]) * 16 + HexDigitValue(buf[2 * i + 1]) == v
  {
    var hi, lo := (v / 16) % 16, v % 16;
    HexAlphabetValues(hi);
    HexAlphabetValues(lo);
    assert hi * 16 + lo == v;
    buf[2 * i] := HexAlphabet[hi];
    buf[2 * i + 1] := HexAlphabet[lo];
  }

  /** Writing the pair at `i` sets byte `i` and keeps every byte before it. */
  lemma HexPairWritten(s: string, i: nat, a: char, b: char)
    requires 2 * i + 2 <= |s|
    ensures var t := s[2 * i := a][2 * i + 1 := b];
            && HexByteAt(t, i) == HexDigitValue(a) * 16 + HexDigitValue(b)
            && forall j :: 0 <= j < i ==> HexByteAt(t, j) == HexByteAt(s, j)
  {
  }

  /** A lower-case hexadecimal digit. */
  predicate IsHexDigit(c: char) { '0' <= c <= '9' || 'a' <= c <= 'f' }

  /** `random_hex`: each draw of the random generator, reduced to its low byte,
      written as two lower-case hex digits. */
  method RandomHex(draws: seq<int>) returns (out: string)
    requires forall i :: 0 <= i < |draws| ==> draws[i] >= 0
    ensures |out| == 2 * |draws|
    ensures forall i :: 0 <= i < |out| ==> IsHexDigit(out[i])
    ensures forall j :: 0 <= j < |draws| ==> HexByteAt(out, j) == draws[j] % 256
  {
    var buf := new char[2 * |draws|](_ => '0');
    for i := 0 to |draws|
      invariant forall k :: 0 <= k < buf.Length ==> IsHexDigit(buf[k])
      invariant forall j :: 0 <= j < i ==> HexByteAt(buf[..], j) == draws[j] % 256
    {
      ghost var prev := buf[..];
      WriteHexPair(buf, i, draws[i] % 256);
      HexPairWritten(prev, i, buf[2 * i], buf[2 * i + 1]);
    }
    out := buf[..];
  }

  // ---------------------------------------------------------------------------
  // the JSON payload
  // ---------------------------------------------------------------------------

  const IdKey: string := "{\"sticker-pack-id\":\""
  const NameKey: string := "\",\"sticker-pack-name\":\""
  const PublisherKey: string := "\",\"sticker-pack-publisher\":\""
  const EmojisKey: string := "\",\"emojis\":["
  const JsonEnd: string := "]}"

  function Quoted(s: string): string { "\"" + (s + "\"") }

  /** The emojis, each quoted, separated by commas. */
  function EmojiList(es: seq<string>): string
    decreases |es|, 0
  {
    if es == [] then "" else Quoted(es[0]) + Following(es[1..])
  }

  /** The text after the first emoji: a comma and the rest of the list. */
  function Following(es: seq<string>): string
    decreases |es|, 1
  {
    if es == [] then "" else "," + EmojiList(es)
  }

  /** The payload up to the opening bracket of the emoji list. */
  function JsonHead(id: string, pack: string, author: string): string {
    IdKey + (id + (NameKey + (pack + (PublisherKey + (author + EmojisKey)))))
  }

  /** The payload: pack id, pack name, publisher and emojis, in that order,
      with no escaping of the values. */
  function ExifJson(id: string, pack: string, author: string, emojis: seq<string>): string {
    JsonHead(id, pack, author) + (EmojiList(emojis) + JsonEnd)
  }

  /** Regrouping a right-nested concatenation of seven pieces followed by `x`. */
  lemma Regroup7(a: string, b: string, c: string, d: string, e: string, f: string, g: string, x: string)
    ensures (a + (b + (c + (d + (e + (f + g)))))) + x == a + (b + (c + (d + (e + (f + (g + x))))))
  {
  }

  /** Regrouping a quoted item, what follows it and a tail. */
  lemma Regroup4(a: string, b: string, c: string, f: string, t: string)
    ensures ((a + (b + c)) + f) + t == a + (b + (c + (f + t)))
  {
  }

  /** One more emoji extends the list by a comma and the quoted emoji. */
  lemma {:induction false} EmojiListSnoc(es: seq<string>, e: string)
    ensures EmojiList(es + [e]) == if es == [] then Quoted(e) else EmojiList(es) + ("," + Quoted(e))
    decreases |es|
  {
    if es == [] {
      assert (es + [e])[1..] == [];
    } else {
      assert (es + [e])[0] == es[0];
      assert (es + [e])[1..] == es[1..] + [e];
      EmojiListSnoc(es[1..], e);
    }
  }

  /** The payload as the builder writes it: the fixed keys and the values, then
      each emoji quoted, with a comma before every one but the first. */
  method WriteJson(id: string, pack: string, author: string, emojis: seq<string>) returns (json: string)
    ensures json == ExifJson(id, pack, author, emojis)
  {
    json := JsonHead(id, pack, author);
    var head := json;
    for i := 0 to |emojis|
      invariant json == head + EmojiList(emojis[..i])
    {
      var item := "\"" + (emojis[i] + "\"");
      assert emojis[..i + 1] == emojis[..i] + [emojis[i]];
      JsonItemStep(head, emojis[..i], emojis[i], item);
      if i > 0 {
        json := json + ("," + item);
      } else {
        json := json + item;
      }
    }
    assert emojis[..|emojis|] == emojis;
    AppendEnd(head, EmojiList(emojis), JsonEnd);
    json := json + JsonEnd;
  }

  /** Writing one more quoted emoji extends the payload written so far. */
  lemma JsonItemStep(head: string, es: seq<string>, e: string, item: string)
    requires item == Quoted(e)
    ensures head + EmojiList(es + [e]) == (head + EmojiList(es)) + (if es == [] then item else "," + item)
  {
    EmojiListSnoc(es, e);
  }

  /** Closing the payload: associativity of the last append. */
  lemma AppendEnd(head: string, list: string, end: string)
    ensures (head + list) + end == head + (list + end)
  {
  }

  // --- reading the payload back ---

  /** The index of the first '"' at or after `i`, or |s|. */
  function FindQuote(s: string, i: nat): (j: nat)
    requires i <= |s|
    ensures i <= j <= |s| && (j < |s| ==> s[j] == '"')
    ensures forall k :: i <= k < j ==> s[k] != '"'
    decreases |s| - i
  {
    if i == |s| || s[i] == '"' then i else FindQuote(s, i + 1)
  }

  /** `s` without the prefix `p`, if it starts with `p`. */
  function Expect(p: string, s: string): Option<string> {
    if |p| <= |s| && s[..|p|] == p then Some(s[|p|..]) else None
  }

  /** A quoted string list "\"a\",\"b\"" and what follows it. */
  function ParseItems(s: string): Option<(seq<string>, string)>
    decreases |s|
  {
    if s == [] || s[0] != '"' then Some(([], s))
    else
      var j := FindQuote(s, 1);
      if j == |s| then None
      else
        var e, r := s[1..j], s[j + 1..];
        if r != [] && r[0] == ',' then
          match ParseItems(r[1..])
          case None => None
          case Some(p) => Some(([e] + p.0, p.1))
        else Some(([e], r))
  }

  /** A value up to the next '"' and the text from that quote on. */
  function UntilQuote(s: string): (string, string) {
    var j := FindQuote(s, 0);
    (s[..j], s[j..])
  }

  /** The value after `key`, up to the next quote, and the rest. */
  function ReadField(key: string, s: string): Option<(string, string)> {
    match Expect(key, s)
    case None => None
    case Some(r) => Some(UntilQuote(r))
  }

  datatype PackInfo = PackInfo(id: string, pack: string, author: string, emojis: seq<string>)

  /** Reads a payload back into its four values; None when it does not have
      the builder's layout. */
  function ParseExifJson(json: string): Option<PackInfo> {
    match ReadField(IdKey, json)
    case None => None
    case Some(f0) =>
      match ReadField(NameKey, f0.1)
      case None => None
      case Some(f1) =>
        match ReadField(PublisherKey, f1.1)
        case None => None
        case Some(f2) =>
          match Expect(EmojisKey, f2.1)
          case None => None
          case Some(r) =>
            match ParseItems(r)
            case None => None
            case Some(items) => if items.1 == JsonEnd then Some(PackInfo(f0.0, f1.0, f2.0, items.0)) else None
  }

  predicate QuoteFree(s: string) { '"' !in s }

  /** Expecting `p` in front of `p + t` leaves `t`. */
  lemma ExpectPrefix(p: string, t: string)
    ensures Expect(p, p + t) == Some(t)
  {
    assert (p + t)[..|p|] == p;
    assert (p + t)[|p|..] == t;
  }

  /** A quote-free value followed by text that starts with a quote splits there. */
  lemma UntilQuoteSplits(v: string, t: string)
    requires QuoteFree(v) && t != [] && t[0] == '"'
    ensures UntilQuote(v + t) == (v, t)
  {
    var s := v + t;
    assert s[|v|] == '"';
    var j := FindQuote(s, 0);
    assert j == |v|;
    assert s[..j] == v;
    assert s[j..] == t;
  }

  /** The emoji list reads back, up to text that does not start with a quote
      or a comma. */
  lemma {:induction false} ParseItemsRoundTrip(es: seq<string>, t: string)
    requires forall i :: 0 <= i < |es| ==> QuoteFree(es[i])
    requires t != [] && t[0] != '"' && t[0] != ','
    ensures ParseItems(EmojiList(es) + t) == Some((es, t))
    decreases |es|
  {
    if es == [] {
      assert EmojiList(es) + t == t;
    } else if |es| == 1 {
      ParseLastItem(es[0], t);
      assert es == [es[0]];
    } else {
      assert QuoteFree(es[0]);
      assert forall i :: 0 <= i < |es[1..]| ==> QuoteFree(es[1..][i]) by {
        forall i | 0 <= i < |es[1..]| ensures QuoteFree(es[1..][i]) { assert es[1..][i] == es[i + 1]; }
      }
      ParseItemsRoundTrip(es[1..], t);
      ParseItemsCons(es, t);
    }
  }

  /** The inductive step: a first emoji in front of a list that reads back. */
  lemma ParseItemsCons(es: seq<string>, t: string)
    requires |es| >= 2 && QuoteFree(es[0])
    requires ParseItems(EmojiList(es[1..]) + t) == Some((es[1..], t))
    ensures ParseItems(EmojiList(es) + t) == Some((es, t))
  {
    EmojiListCons(es, t);
    ParseCommaItem(es[0], EmojiList(es[1..]) + t, es[1..], t, EmojiList(es) + t);
    assert [es[0]] + es[1..] == es;
  }

  /** A quoted item followed by a comma and a list that reads back as `rest`. */
  lemma ParseCommaItem(e: string, tail: string, rest: seq<string>, t: string, s: string)
    requires QuoteFree(e)
    requires s == "\"" + (e + ("\"" + ("," + tail)))
    requires ParseItems(tail) == Some((rest, t))
    ensures ParseItems(s) == Some(([e] + rest, t))
  {
    ParseItemsStep(e, "," + tail);
    assert ("," + tail)[1..] == tail;
  }

  /** A list of two or more emojis, followed by `t`, is the first one quoted,
      a comma and the rest of the list. */
  lemma EmojiListCons(es: seq<string>, t: string)
    requires |es| >= 2
    ensures EmojiList(es) + t == "\"" + (es[0] + ("\"" + ("," + (EmojiList(es[1..]) + t))))
  {
    var rest := EmojiList(es[1..]);
    assert Following(es[1..]) == "," + rest;
    assert EmojiList(es) == Quoted(es[0]) + ("," + rest);
    Regroup5("\"", es[0], ",", rest, t);
  }

  /** Regrouping a quoted item, a separator, the rest of a list and a tail. */
  lemma Regroup5(q: string, e: string, c: string, l: string, t: string)
    ensures (q + (e + q)) + (c + l) + t == q + (e + (q + (c + (l + t))))
  {
  }

  /** The last item of a list. */
  lemma ParseLastItem(e: string, t: string)
    requires QuoteFree(e)
    requires t != [] && t[0] != '"' && t[0] != ','
    ensures ParseItems(EmojiList([e]) + t) == Some(([e], t))
  {
    assert [e][1..] == [];
    assert EmojiList([e]) == Quoted(e) + "";
    Regroup4("\"", e, "\"", "", t);
    assert "" + t == t;
    assert EmojiList([e]) + t == "\"" + (e + ("\"" + t));
    ParseItemsStep(e, t);
  }

  /** One item of a list: after a quote-free quoted value, a comma continues
      the list and anything else ends it. */
  lemma ParseItemsStep(e: string, rest: string)
    requires QuoteFree(e)
    ensures var s := "\"" + (e + ("\"" + rest));
            ParseItems(s) == if rest != [] && rest[0] == ',' then
                               (match ParseItems(rest[1..])
                                case None => None
                                case Some(p) => Some(([e] + p.0, p.1)))
                             else Some(([e], rest))
  {
    QuotedItem(e, rest);
  }

  /** A quoted quote-free value is read up to its closing quote. */
  lemma QuotedItem(e: string, rest: string)
    requires QuoteFree(e)
    ensures var s := "\"" + (e + ("\"" + rest));
            var j := FindQuote(s, 1);
            j == 1 + |e| < |s| && s[0] == '"' && s[1..j] == e && s[j + 1..] == rest
  {
    var s := "\"" + (e + ("\"" + rest));
    var v := e + ("\"" + rest);
    assert s[1..] == v;
    var j := FindQuote(s, 1);
    assert s[1 + |e|] == '"';
    assert s[1..1 + |e|] == e;
    assert s[2 + |e|..] == rest;
  }

  /** The payload reads back into the values it was built from, provided no
      value contains a double quote (the builder does not escape them). */
  lemma ExifJsonRoundTrip(id: string, pack: string, author: string, emojis: seq<string>)
    requires QuoteFree(id) && QuoteFree(pack) && QuoteFree(author)
    requires forall i :: 0 <= i < |emojis| ==> QuoteFree(emojis[i])
    ensures ParseExifJson(ExifJson(id, pack, author, emojis)) == Some(PackInfo(id, pack, author, emojis))
  {
    var tail3 := EmojiList(emojis) + JsonEnd;
    var tail2 := EmojisKey + tail3;
    var tail1 := PublisherKey + (author + tail2);
    var tail0 := NameKey + (pack + tail1);
    Regroup7(IdKey, id, NameKey, pack, PublisherKey, author, EmojisKey, tail3);
    ReadFieldOf(IdKey, id, tail0);
    ReadFieldOf(NameKey, pack, tail1);
    ReadFieldOf(PublisherKey, author, tail2);
    ExpectPrefix(EmojisKey, tail3);
    ParseItemsRoundTrip(emojis, JsonEnd);
  }

  /** A key, a quote-free value and text starting with a quote read back as the
      value and that text. */
  lemma ReadFieldOf(key: string, v: string, t: string)
    requires QuoteFree(v) && t != [] && t[0] == '"'
    ensures ReadField(key, key + (v + t)) == Some((v, t))
  {
    ExpectPrefix(key, v + t);
    UntilQuoteSplits(v, t);
  }

  /** The pack id starts right after the 20-byte opening key. */
  lemma PackIdPosition(id: string, pack: string, author: string, emojis: seq<string>)
    ensures var json := ExifJson(id, pack, author, emojis);
            |json| >= 20 + |id| && json[20..20 + |id|] == id
  {
    var json := ExifJson(id, pack, author, emojis);
    assert |IdKey| == 20;
  }

  // ---------------------------------------------------------------------------
  // the EXIF block
  // ---------------------------------------------------------------------------

  /** The TIFF header: "II", 42, first IFD at offset 8, one entry with tag
      0x5741 of type 7 (undefined), a count at bytes 14..17 and the value at
      offset 22. */
  const TiffHeader: string := [
    0x49 as char, 0x49 as char, 0x2A as char, 0x00 as char, 0x08 as char, 0x00 as char,
    0x00 as char, 0x00 as char, 0x01 as char, 0x00 as char, 0x41 as char, 0x57 as char,
    0x07 as char, 0x00 as char, 0x00 as char, 0x00 as char, 0x00 as char, 0x00 as char,
    0x16 as char, 0x00 as char, 0x00 as char, 0x00 as char]

  /** The block for a payload: the header with the payload length (reduced to
      32 bits) in bytes 14..17, then the payload. */
  function ExifBlock(json: string): string {
    TiffHeader[..14] + Le32(|json| % TwoTo32) + TiffHeader[18..] + json
  }

  /** The pieces of a block: the header's fixed bytes around a four-byte field,
      then the payload. */
  lemma BlockPieces(h: string, m: string, json: string)
    requires |h| == 22 && |m| == 4
    ensures var b := h[..14] + m + h[18..] + json;
            |b| == 22 + |json| && b[..14] == h[..14] && b[14..18] == m && b[18..22] == h[18..] && b[22..] == json
  {
    var b := h[..14] + m + h[18..] + json;
    assert b[..14] == h[..14];
    assert b[14..18] == m;
    assert b[18..22] == h[18..];
    assert b[22..] == json;
  }

  /** Where the header, the count field and the payload sit in a block. */
  lemma ExifBlockShape(json: string)
    ensures var b := ExifBlock(json);
            |b| == 22 + |json| && b[..14] == TiffHeader[..14] && b[14..18] == Le32(|json| % TwoTo32)
            && b[18..22] == TiffHeader[18..] && b[22..] == json
  {
    BlockPieces(TiffHeader, Le32(|json| % TwoTo32), json);
  }

  /** Reads a block back: the payload, when the header matches and its count
      field gives the payload's length. */
  function ParseExif(exif: string): Option<string> {
    if |exif| >= 22 && exif[..14] == TiffHeader[..14] && exif[18..22] == TiffHeader[18..]
       && ReadLe32(exif[14..18]) == |exif| - 22
    then Some(exif[22..])
    else None
  }

  /** A block reads back as its payload whenever the payload is shorter than
      4 GiB. */
  lemma ExifRoundTrip(json: string)
    requires |json| < TwoTo32
    ensures ParseExif(ExifBlock(json)) == Some(json)
  {
    ExifBlockShape(json);
    assert |json| % TwoTo32 == |json|;
    Le32RoundTrip(|json|);
  }

  /** Conversely, every block that reads back is the block of its payload. */
  lemma ExifParseSound(exif: string, json: string)
    requires ParseExif(exif) == Some(json)
    requires forall i :: 14 <= i < 18 ==> exif[i] as int < 256
    ensures exif == ExifBlock(json)
  {
    var b := exif[14..18];
    Le32OfRead(b);
    assert |json| == ReadLe32(b) < TwoTo32;
    assert |json| % TwoTo32 == |json|;
    Reassemble(exif, TiffHeader, Le32(|json| % TwoTo32), json);
  }

  /** A 22-byte header with a four-byte field at 14, then a payload, put back
      together from its pieces. */
  lemma Reassemble(exif: string, h: string, m: string, json: string)
    requires |exif| >= 22 && |h| == 22
    requires exif[..14] == h[..14] && exif[14..18] == m && exif[18..22] == h[18..] && exif[22..] == json
    ensures exif == h[..14] + m + h[18..] + json
  {
    assert exif == exif[..14] + exif[14..18] + exif[18..22] + exif[22..];
  }

  /** The buffer work of `BuildWhatsAppExif`: copies the header, patches the
      payload length into it and appends the payload. */
  method AssembleExif(json: string) returns (exif: string)
    ensures exif == ExifBlock(json)
  {
    var header := new char[22](i requires 0 <= i < 22 => TiffHeader[i]);
    assert header[..] == TiffHeader;
    WriteLe32(header, 14, |json| % TwoTo32);
    exif := header[..] + json;
  }

  /** The pack id is the only part of the payload whose length varies with the draws. */
  lemma ExifJsonIdLength(id: string, pack: string, author: string, emojis: seq<string>)
    ensures |ExifJson(id, pack, author, emojis)| == |ExifJson("", pack, author, emojis)| + |id|
  {
  }

  /** `BuildWhatsAppExif`: draws the pack id, writes the payload and assembles
      the block around it. */
  method BuildWhatsAppExif(pack: string, author: string, emojis: seq<string>, draws: seq<int>)
    returns (exif: string)
    requires |draws| == 16 && forall i :: 0 <= i < 16 ==> draws[i] >= 0
    ensures exists id :: |id| == 32 && (forall i :: 0 <= i < 32 ==> IsHexDigit(id[i]))
                         && exif == ExifBlock(ExifJson(id, pack, author, emojis))
    ensures |exif| == 22 + |ExifJson("", pack, author, emojis)| + 32
    ensures exif[..14] == TiffHeader[..14] && exif[18..22] == TiffHeader[18..]
  {
    var id := RandomHex(draws);
    var json := WriteJson(id, pack, author, emojis);
    exif := AssembleExif(json);
    ExifBlockShape(json);
    ExifJsonIdLength(id, pack, author, emojis);
  }
}
