/** The decisions of the audio converter: how the bitrate option is read, which
    muxer and codec a format name selects, and the sample rate, channel count,
    bitrate, sample format and frame size the encoder is opened with. */
module Converter {
  import opened Wrappers
  import opened Text

  // ---------------------------------------------------------------------------
  // the bitrate option
  // ---------------------------------------------------------------------------

  /** A JavaScript value as the bitrate reader distinguishes it. */
  datatype JsValue = JsNumber(x: real) | JsString(s: string) | JsOther

  const TwoTo53: int := 0x20_0000_0000_0000

  /** Conversion of a double to an integer: truncation toward zero. */
  function Trunc(x: real): (n: int)
    ensures x >= 0.0 ==> n as real <= x < n as real + 1.0
    ensures x < 0.0 ==> n as real - 1.0 < x <= n as real
  {
    if x >= 0.0 then x.Floor else -((-x).Floor)
  }

  /** A string ending in "k" or "K" is read as kilobits per second. */
  predicate KSuffixed(s: string) {
    |s| > 0 && (s[|s| - 1] == 'k' || s[|s| - 1] == 'K')
  }

  /** The index just after the optional sign that follows the leading blanks. */
  function NumberStart(p: string): (d: nat)
    ensures d <= |p|
  {
    var i := SkipSpaces(p, 0);
    if i < |p| && (p[i] == '+' || p[i] == '-') then i + 1 else i
  }

  /** The kilobit strings this model covers, read the way std::stod reads the
      text before the suffix: either no number starts there (and the text is not
      a fraction, an infinity or a NaN), so the conversion fails; or a run of
      decimal digits starts there that is not continued as a fraction, an
      exponent or a hexadecimal number, and whose value times 1000 is exactly
      representable as a double. */
  predicate KilobitForm(s: string)
    requires KSuffixed(s)
  {
    var p := s[..|s| - 1];
    var d := NumberStart(p);
    match ScanSigned(p, SkipSpaces(p, 0))
    case NoDigits => d == |p| || p[d] !in ".iInN"
    case Scanned(v, e) => (e == |p| || p[e] !in ".eExX") && -TwoTo53 < v * 1000 < TwoTo53
  }

  /** The bitrate option in bits per second:
      * a number: its truncation when positive, the default otherwise;
      * a string ending in k/K: the number before the suffix times 1000, or
        the default when no number starts there;
      * any other string: its leading decimal integer (after blanks and an
        optional sign), or the default when there is none or it does not fit
        in 64 bits;
      * anything else: the default. */
  function ParseBitrate(v: JsValue, def: int): (r: int)
    requires v.JsNumber? ==> -0x8000_0000_0000_0000 as real < v.x < 0x8000_0000_0000_0000 as real
    requires v.JsString? && KSuffixed(v.s) ==> KilobitForm(v.s)
    ensures v.JsNumber? ==> (r > 0 || r == def)
    ensures v.JsNumber? && v.x >= 1.0 ==> r as real <= v.x < r as real + 1.0
    ensures v.JsNumber? && v.x < 1.0 ==> r == def
    ensures v.JsOther? ==> r == def
  {
    match v
    case JsNumber(x) => if Trunc(x) > 0 then Trunc(x) else def
    case JsString(s) =>
      if KSuffixed(s) then
        var p := s[..|s| - 1];
        (match ScanSigned(p, SkipSpaces(p, 0))
         case NoDigits => def
         case Scanned(n, _) => n * 1000)
      else
        (match ScanSigned(s, SkipSpaces(s, 0))
         case NoDigits => def
         case Scanned(n, _) => if Int64Min <= n <= Int64Max then n else def)
    case JsOther => def
  }

  /** `n` written in decimal. */
  function DecimalString(n: nat): (s: string)
    ensures s != [] && AllDigits(s)
    decreases n
  {
    if n < 10 then [('0' as int + n) as char]
    else DecimalString(n / 10) + [('0' as int + n % 10) as char]
  }

  /** Reading the decimal text of `n` gives `n`. */
  lemma {:induction false} DecimalStringValue(n: nat)
    ensures DecimalValue(DecimalString(n)) == n
    decreases n
  {
    var s := DecimalString(n);
    if n >= 10 {
      DecimalStringValue(n / 10);
      assert s[..|s| - 1] == DecimalString(n / 10);
    }
  }

  /** A run of digits starting at index 0 of an all-digit string is read whole. */
  lemma ScanAllDigits(s: string)
    requires s != [] && AllDigits(s)
    ensures ScanSigned(s, SkipSpaces(s, 0)) == Scanned(DecimalValue(s), |s|)
  {
    assert SkipSpaces(s, 0) == 0 by { assert !IsSpace(s[0]); }
    assert s[0] != '+' && s[0] != '-';
    assert SkipDigits(s, 0) == |s|;
    assert s[0..|s|] == s;
  }

  /** A bitrate given as decimal text reads back as that number. */
  lemma BitrateTextRoundTrip(n: nat, def: int)
    requires n <= Int64Max
    ensures ParseBitrate(JsString(DecimalString(n)), def) == n
  {
    var s := DecimalString(n);
    DecimalStringValue(n);
    ScanAllDigits(s);
    assert !KSuffixed(s) by { assert IsDigit(s[|s| - 1]); }
  }

  /** "<n>k" reads back as n * 1000 bits per second. */
  lemma BitrateKilobitRoundTrip(n: nat, def: int)
    requires n * 1000 < TwoTo53
    ensures KSuffixed(DecimalString(n) + "k") && KilobitForm(DecimalString(n) + "k")
    ensures ParseBitrate(JsString(DecimalString(n) + "k"), def) == n * 1000
  {
    var s := DecimalString(n) + "k";
    assert s[..|s| - 1] == DecimalString(n);
    DecimalStringValue(n);
    ScanAllDigits(DecimalString(n));
  }

  /** A string without digits where a number should start gives the default,
      with or without the kilobit suffix. */
  lemma BitrateUnparsable(s: string, def: int)
    requires var p := if KSuffixed(s) then s[..|s| - 1] else s;
             var d := NumberStart(p);
             (d == |p| || !IsDigit(p[d])) && (KSuffixed(s) ==> d == |p| || p[d] !in ".iInN")
    ensures KSuffixed(s) ==> KilobitForm(s)
    ensures ParseBitrate(JsString(s), def) == def
  {
  }

  /** Text of the form blanks, optional sign, the decimal digits of `n`, and a
      tail that does not continue the number, is read as the signed number
      when it fits in 64 bits and as the default otherwise: leading blanks and
      a "+" are accepted, the tail is ignored, and zero or negative values are
      returned as they are (the converter, not the reader, replaces them). */
  lemma {:induction false} BitrateDecimalText(blanks: string, sign: string, n: nat, tail: string, def: int)
    requires AllSpace(blanks)
    requires sign == "" || sign == "+" || sign == "-"
    requires tail == [] || !IsDigit(tail[0])
    requires tail == [] || !KSuffixed(tail)
    ensures !KSuffixed(blanks + sign + DecimalString(n) + tail)
    ensures var value := if sign == "-" then -(n as int) else n;
            ParseBitrate(JsString(blanks + sign + DecimalString(n) + tail), def)
              == (if Int64Min <= value <= Int64Max then value else def)
  {
    DecimalStringValue(n);
    BitrateDigitText(blanks, sign, DecimalString(n), tail, def);
  }

  /** `BitrateDecimalText` for any non-empty run of decimal digits. */
  lemma {:induction false} BitrateDigitText(blanks: string, sign: string, ds: string, tail: string, def: int)
    requires AllSpace(blanks)
    requires sign == "" || sign == "+" || sign == "-"
    requires ds != [] && AllDigits(ds)
    requires tail == [] || !IsDigit(tail[0])
    requires tail == [] || !KSuffixed(tail)
    ensures !KSuffixed(blanks + sign + ds + tail)
    ensures var value := if sign == "-" then -(DecimalValue(ds) as int) else DecimalValue(ds);
            ParseBitrate(JsString(blanks + sign + ds + tail), def)
              == (if Int64Min <= value <= Int64Max then value else def)
  {
    var s := blanks + sign + ds + tail;
    var b, d := |blanks|, |blanks| + |sign|;
    assert !KSuffixed(ds) by { assert IsDigit(ds[|ds| - 1]); }
    NotKSuffixedAppend(blanks + sign, ds);
    NotKSuffixedAppend(blanks + sign + ds, tail);
    SignedPieces(blanks, sign, ds, tail);
    BitrateDigitsAt(s, b, d, d + |ds|, sign, ds, def);
  }

  /** The kilobit counterpart of `BitrateDigitText`: blanks, an optional sign,
      a run of decimal digits, a tail that does not continue the number as
      more digits, a fraction, an exponent or a hexadecimal number, then "k"
      or "K", read as the signed value times 1000 while that is exactly
      representable as a double. */
  lemma {:induction false} BitrateKilobitText(blanks: string, sign: string, ds: string, tail: string,
                                              suffix: string, def: int)
    requires AllSpace(blanks)
    requires sign == "" || sign == "+" || sign == "-"
    requires ds != [] && AllDigits(ds)
    requires tail == [] || (!IsDigit(tail[0]) && tail[0] !in ".eExX")
    requires suffix == "k" || suffix == "K"
    requires DecimalValue(ds) * 1000 < TwoTo53
    ensures KSuffixed(blanks + sign + ds + tail + suffix)
    ensures KilobitForm(blanks + sign + ds + tail + suffix)
    ensures var value := if sign == "-" then -(DecimalValue(ds) as int) else DecimalValue(ds);
            ParseBitrate(JsString(blanks + sign + ds + tail + suffix), def) == value * 1000
  {
    var p := blanks + sign + ds + tail;
    var s := p + suffix;
    assert s[|s| - 1] == suffix[0];
    assert s[..|s| - 1] == p;
    var d := |blanks| + |sign|;
    SignedPieces(blanks, sign, ds, tail);
    BitrateKilobitAt(s, p, |blanks|, d, d + |ds|, sign, ds, def);
  }

  /** The kilobit reading of a string whose text before the suffix is laid out
      as blanks up to `b`, the sign from `b` to `d` and the digits from `d` to
      `e`. */
  lemma {:induction false} BitrateKilobitAt(s: string, p: string, b: nat, d: nat, e: nat, sign: string,
                                            ds: string, def: int)
    requires KSuffixed(s) && s[..|s| - 1] == p
    requires b <= d <= b + 1 && d < e <= |p|
    requires sign == "" || sign == "+" || sign == "-"
    requires AllSpace(p[..b]) && p[b..d] == sign && p[d..e] == ds && AllDigits(ds)
    requires e == |p| || (!IsDigit(p[e]) && p[e] !in ".eExX")
    requires DecimalValue(ds) * 1000 < TwoTo53
    ensures KilobitForm(s)
    ensures ParseBitrate(JsString(s), def)
              == (if sign == "-" then -(DecimalValue(ds) as int) else DecimalValue(ds)) * 1000
  {
    assert d == b + 1 ==> p[b] == '+' || p[b] == '-' by {
      if d == b + 1 { assert p[b] == p[b..d][0]; }
    }
    assert AllDigits(p[d..e]);
    ScanSignedAt(p, b, d, e);
    SignedRewrite(p, b, d, e, sign, ds);
    assert e == |p| || p[e] !in ".eExX";
    KilobitFromScan(s, p, def, b, if sign == "-" then -(DecimalValue(ds) as int) else DecimalValue(ds), e);
  }

  /** A kilobit string whose number is scanned whole and not continued as a
      fraction, an exponent or a hexadecimal number gives that number times
      1000 when it is exactly representable. */
  lemma {:induction false} KilobitFromScan(s: string, p: string, def: int, b: nat, value: int, e: nat)
    requires KSuffixed(s) && s[..|s| - 1] == p
    requires b <= |p| && SkipSpaces(p, 0) == b && ScanSigned(p, b) == Scanned(value, e)
    requires e == |p| || p[e] !in ".eExX"
    requires -TwoTo53 < value * 1000 < TwoTo53
    ensures KilobitForm(s)
    ensures ParseBitrate(JsString(s), def) == value * 1000
  {
  }

  /** The plain-integer reading of a string laid out as blanks up to `b`, the
      sign from `b` to `d` and the digits from `d` to `e`. */
  lemma {:induction false} BitrateDigitsAt(s: string, b: nat, d: nat, e: nat, sign: string, ds: string, def: int)
    requires b <= d <= b + 1 && d < e <= |s|
    requires sign == "" || sign == "+" || sign == "-"
    requires AllSpace(s[..b]) && s[b..d] == sign && s[d..e] == ds && AllDigits(ds)
    requires e == |s| || !IsDigit(s[e])
    requires !KSuffixed(s)
    ensures var value := if sign == "-" then -(DecimalValue(ds) as int) else DecimalValue(ds);
            ParseBitrate(JsString(s), def) == (if Int64Min <= value <= Int64Max then value else def)
  {
    assert d == b + 1 ==> s[b] == '+' || s[b] == '-' by {
      if d == b + 1 { assert s[b] == s[b..d][0]; }
    }
    assert AllDigits(s[d..e]);
    ScanSignedAt(s, b, d, e);
    SignedRewrite(s, b, d, e, sign, ds);
    BitrateFromScan(s, def, b, if sign == "-" then -(DecimalValue(ds) as int) else DecimalValue(ds), e);
  }

  /** Rewrites the scan of `s` at `b` from the scanned slice to the sign and
      digit string it consists of. */
  lemma {:induction false} SignedRewrite(s: string, b: nat, d: nat, e: nat, sign: string, ds: string)
    requires b <= d <= b + 1 && d < e <= |s| && s[b..d] == sign && s[d..e] == ds && AllDigits(ds)
    requires sign == "" || sign == "+" || sign == "-"
    requires ScanSigned(s, b) == Scanned(if d == b + 1 && s[b] == '-' then -(DecimalValue(s[d..e]) as int)
                                         else DecimalValue(s[d..e]), e)
    ensures ScanSigned(s, b) == Scanned(if sign == "-" then -(DecimalValue(ds) as int) else DecimalValue(ds), e)
  {
    if d == b + 1 {
      assert s[b] == sign[0] by { assert s[b..d][0] == sign[0]; }
    }
  }

  /** A string that is not k-suffixed stays so when a non-k-suffixed
      string, or nothing, is appended. */
  lemma {:induction false} NotKSuffixedAppend(x: string, y: string)
    requires !KSuffixed(x)
    requires y == [] || !KSuffixed(y)
    ensures !KSuffixed(x + y)
  {
    if y == [] {
      assert x + y == x;
    } else {
      assert (x + y)[|x + y| - 1] == y[|y| - 1];
    }
  }

  /** A string read as a plain integer gives the scanned value when it fits
      in 64 bits and the default otherwise. */
  lemma {:induction false} BitrateFromScan(s: string, def: int, b: nat, value: int, e: nat)
    requires !KSuffixed(s) && b <= |s| && SkipSpaces(s, 0) == b && ScanSigned(s, b) == Scanned(value, e)
    ensures ParseBitrate(JsString(s), def) == (if Int64Min <= value <= Int64Max then value else def)
  {
  }

  /** Where the blanks, the sign, the digits and the tail sit in their
      concatenation. */
  lemma {:induction false} SignedPieces(blanks: string, sign: string, ds: string, tail: string)
    ensures var s := blanks + sign + ds + tail;
            var d := |blanks| + |sign|;
            |s| == d + |ds| + |tail| && s[..|blanks|] == blanks && s[|blanks|..d] == sign
            && s[d..d + |ds|] == ds && (tail != [] ==> s[d + |ds|] == tail[0])
  {
  }

  /** Blanks up to `b`, an optional sign, then a run of digits from `d` to
      `e` not followed by a digit, scan as the signed run. */
  lemma {:induction false} ScanSignedAt(s: string, b: nat, d: nat, e: nat)
    requires b <= d <= b + 1 && d < e <= |s|
    requires AllSpace(s[..b])
    requires d == b + 1 ==> s[b] == '+' || s[b] == '-'
    requires AllDigits(s[d..e])
    requires e == |s| || !IsDigit(s[e])
    ensures SkipSpaces(s, 0) == b
    ensures ScanSigned(s, b) == Scanned(if d == b + 1 && s[b] == '-' then -(DecimalValue(s[d..e]) as int)
                                        else DecimalValue(s[d..e]), e)
  {
    assert !IsSpace(s[b]) by {
      if d == b { assert IsDigit(s[d..e][0]); }
    }
    SkipSpacesOver(s, b);
    SkipDigitsOver(s, d, e - d);
    ScanSignedFrom(s, b, d, e);
  }

  /** ScanSigned at `b` once the sign and the digit run are located. */
  lemma {:induction false} ScanSignedFrom(s: string, b: nat, d: nat, e: nat)
    requires b < |s| && d == (if s[b] == '+' || s[b] == '-' then b + 1 else b)
    requires d < e == SkipDigits(s, d)
    ensures ScanSigned(s, b) == Scanned(if s[b] == '-' then -(DecimalValue(s[d..e]) as int) else DecimalValue(s[d..e]), e)
  {
  }

  /** Blanks up to `b` and no blank at `b`: the blanks are skipped. */
  lemma {:induction false} SkipSpacesOver(s: string, b: nat)
    requires b < |s| && AllSpace(s[..b]) && !IsSpace(s[b])
    ensures SkipSpaces(s, 0) == b
  {
  }

  /** Skipping digits over a run of `n` digits followed by a non-digit. */
  lemma {:induction false} SkipDigitsOver(s: string, i: nat, n: nat)
    requires i + n <= |s|
    requires AllDigits(s[i..i + n])
    requires i + n == |s| || !IsDigit(s[i + n])
    ensures SkipDigits(s, i) == i + n
    decreases n
  {
    if n > 0 {
      assert IsDigit(s[i..i + n][0]);
      assert s[i + 1..i + n] == s[i..i + n][1..];
      SkipDigitsOver(s, i + 1, n - 1);
    }
  }

  /** A positive whole number of bits per second is kept; zero and negative
      numbers give the default. */
  lemma BitrateNumber(n: int, def: int)
    requires -0x8000_0000_0000_0000 < n < 0x8000_0000_0000_0000
    ensures n > 0 ==> ParseBitrate(JsNumber(n as real), def) == n
    ensures n <= 0 ==> ParseBitrate(JsNumber(n as real), def) == def
  {
    assert Trunc(n as real) == n;
  }

  // ---------------------------------------------------------------------------
  // encoder choices
  // ---------------------------------------------------------------------------

  /** Sample formats as the media library numbers them. */
  const SampleFmtNone: int := -1
  const SampleFmtS16: int := 1
  const SampleFmtFltp: int := 8

  /** The encoder's sample format: signed 16-bit if the encoder lists it, else
      planar float if listed, else the first listed one; planar float when the
      encoder publishes no list.  An empty list yields its terminator. */
  method PickSampleFmt(fmts: Option<seq<int>>) returns (r: int)
    requires fmts.Some? ==> SampleFmtNone !in fmts.value
    ensures fmts.None? ==> r == SampleFmtFltp
    ensures fmts.Some? && SampleFmtS16 in fmts.value ==> r == SampleFmtS16
    ensures fmts.Some? && SampleFmtS16 !in fmts.value && SampleFmtFltp in fmts.value ==> r == SampleFmtFltp
    ensures fmts.Some? && SampleFmtS16 !in fmts.value && SampleFmtFltp !in fmts.value ==>
              r == (if fmts.value == [] then SampleFmtNone else fmts.value[0])
  {
    if fmts.None? {
      return SampleFmtFltp;
    }
    var list := fmts.value;
    var i := 0;
    while i < |list|
      invariant 0 <= i <= |list|
      invariant SampleFmtS16 !in list[..i]
    {
      if list[i] == SampleFmtS16 {
        return SampleFmtS16;
      }
      i := i + 1;
    }
    assert list[..|list|] == list;
    i := 0;
    while i < |list|
      invariant 0 <= i <= |list|
      invariant SampleFmtFltp !in list[..i]
    {
      if list[i] == SampleFmtFltp {
        return SampleFmtFltp;
      }
      i := i + 1;
    }
    r := if list == [] then SampleFmtNone else list[0];
  }

  /** The output codecs the converter can select. */
  datatype Codec = Mp3 | Opus | PcmS16le | Aac

  /** The number of channels of the default layout: mono up to one channel,
      stereo above. */
  function LayoutChannels(channels: int): (n: int)
    ensures n == 1 || n == 2
    ensures n == 1 <==> channels <= 1
  {
    if channels <= 1 then 1 else 2
  }

  /** The frame size assumed when the encoder reports none. */
  function DefaultFrameSize(codec: Codec): (n: int)
    ensures n > 0
  {
    match codec
    case Opus => 960
    case Mp3 => 1152
    case _ => 1024
  }

  /** The frame size the FIFO is cut into: the encoder's own when it reports a
      positive one, the codec default otherwise; always positive. */
  function EncoderFrameSize(reported: int, codec: Codec): (n: int)
    ensures n > 0
    ensures reported > 0 ==> n == reported
    ensures reported <= 0 ==> n == DefaultFrameSize(codec)
  {
    if reported > 0 then reported else DefaultFrameSize(codec)
  }

  /** The muxer and codec of an output container. */
  datatype OutputChoice = OutputChoice(muxer: string, codec: Codec)

  /** The container table, looked up on the lower-cased format name; unknown
      names fall back to Ogg/Opus. */
  function OutputFormat(format: string): (r: OutputChoice)
    ensures r.codec == Opus <==> r.muxer == "ogg"
    ensures Lower(format) !in {"mp3", "opus", "ogg", "ogg_opus", "opus_ogg", "wav", "aac", "m4a"}
            ==> r == OutputChoice("ogg", Opus)
  {
    var f := Lower(format);
    if f == "mp3" then OutputChoice("mp3", Mp3)
    else if f == "opus" || f == "ogg" || f == "ogg_opus" || f == "opus_ogg" then OutputChoice("ogg", Opus)
    else if f == "wav" then OutputChoice("wav", PcmS16le)
    else if f == "aac" || f == "m4a" then OutputChoice("ipod", Aac)
    else OutputChoice("ogg", Opus)
  }

  /** The table ignores letter case. */
  lemma OutputFormatIgnoresCase(format: string)
    ensures OutputFormat(format) == OutputFormat(Lower(format))
  {
    LowerIdempotent(format);
  }

  /** What the encoder is opened with. */
  datatype EncoderSettings = EncoderSettings(
    sampleRate: int,
    channels: int,
    bitRate: int,
    application: Option<string>,
    vbr: Option<string>)

  /** The bitrate used when the requested one is not positive. */
  function DefaultBitrate(codec: Codec, ptt: bool): (b: int)
    ensures b > 0
    ensures codec == Opus ==> b == (if ptt then 32000 else 64000)
    ensures codec != Opus ==> b == 128000
  {
    if codec == Mp3 then 128000
    else if codec == Opus then (if ptt then 32000 else 64000)
    else if codec == Aac then 128000
    else 128000
  }

  /** The encoder settings for a codec and the caller's request:
      * the sample rate is the requested one if positive, else the decoder's if
        positive, else 48000, and always 48000 for Opus or push-to-talk;
      * mono exactly when one channel or push-to-talk is asked for;
      * a non-positive bitrate is replaced by the codec default;
      * Opus gets the voip application for push-to-talk and audio otherwise,
        and variable bitrate on or off as asked. */
  function ChooseEncoder(codec: Codec, requestedRate: int, decoderRate: int, channels: int,
                         ptt: bool, vbr: bool, bitrate: int): (e: EncoderSettings)
    ensures e.sampleRate > 0 && e.bitRate > 0
    ensures codec == Opus || ptt ==> e.sampleRate == 48000
    ensures !(codec == Opus || ptt) && requestedRate > 0 ==> e.sampleRate == requestedRate
    ensures !(codec == Opus || ptt) && requestedRate <= 0 && decoderRate > 0 ==> e.sampleRate == decoderRate
    ensures requestedRate <= 0 && decoderRate <= 0 ==> e.sampleRate == 48000
    ensures e.channels == 1 <==> channels == 1 || ptt
    ensures e.channels == 1 || e.channels == 2
    ensures bitrate > 0 ==> e.bitRate == bitrate
    ensures bitrate <= 0 ==> e.bitRate == DefaultBitrate(codec, ptt)
    ensures e.application.Some? <==> codec == Opus
    ensures e.vbr.Some? <==> codec == Opus
    ensures codec == Opus ==> e.application.value == (if ptt then "voip" else "audio")
                              && e.vbr.value == (if vbr then "on" else "off")
  {
    var sr := if requestedRate > 0 then requestedRate else if decoderRate > 0 then decoderRate else 48000;
    var sr' := if codec == Opus || ptt then 48000 else sr;
    var ch := if channels == 1 || ptt then 1 else 2;
    var br := if bitrate <= 0 then DefaultBitrate(codec, ptt) else bitrate;
    EncoderSettings(sr', ch, br,
      if codec == Opus then Some(if ptt then "voip" else "audio") else None,
      if codec == Opus then Some(if vbr then "on" else "off") else None)
  }

  // ---------------------------------------------------------------------------
  // the options of a conversion
  // ---------------------------------------------------------------------------

  /** The options object, each property already coerced; None when absent. */
  datatype ConvertOptions = ConvertOptions(
    format: Option<string>,
    sampleRate: Option<int>,
    channels: Option<int>,
    ptt: Option<bool>,
    vbr: Option<bool>,
    bitrate: Option<JsValue>)

  datatype ConvertRequest = ConvertRequest(
    format: string, sampleRate: int, channels: int, ptt: bool, vbr: bool, bitrate: int)

  /** The bitrate option must lie in the domain the model covers. */
  predicate BitrateInDomain(b: Option<JsValue>) {
    b.Some? ==>
      (b.value.JsNumber? ==> -0x8000_0000_0000_0000 as real < b.value.x < 0x8000_0000_0000_0000 as real)
      && (b.value.JsString? && KSuffixed(b.value.s) ==> KilobitForm(b.value.s))
  }

  /** The request built from the options: Opus at 48000 Hz in stereo, no
      push-to-talk, variable bitrate; the bitrate default is 128000 when the
      format is spelled exactly "mp3" and 64000 otherwise. */
  function ReadOptions(o: ConvertOptions): (r: ConvertRequest)
    requires BitrateInDomain(o.bitrate)
    ensures r.format == (if o.format.Some? then o.format.value else "opus")
    ensures r.sampleRate == (if o.sampleRate.Some? then o.sampleRate.value else 48000)
    ensures r.channels == (if o.channels.Some? then o.channels.value else 2)
    ensures r.ptt == (o.ptt.Some? && o.ptt.value)
    ensures r.vbr == (o.vbr.None? || o.vbr.value)
    ensures o.bitrate.None? ==> r.bitrate == (if r.format == "mp3" then 128000 else 64000)
    ensures o.bitrate.Some? ==> r.bitrate == ParseBitrate(o.bitrate.value, if r.format == "mp3" then 128000 else 64000)
  {
    var format := o.format.GetOr("opus");
    var def := if format == "mp3" then 128000 else 64000;
    ConvertRequest(
      format,
      o.sampleRate.GetOr(48000),
      o.channels.GetOr(2),
      o.ptt.GetOr(false),
      o.vbr.GetOr(true),
      ParseBitrate(o.bitrate.GetOr(JsOther), def))
  }

  /** Everything the converter decides before decoding starts, given the input's
      sample rate and the frame size the opened encoder reports. */
  datatype AudioPlan = AudioPlan(output: OutputChoice, encoder: EncoderSettings, frameSize: int)

  function PlanFor(req: ConvertRequest, decoderRate: int, reportedFrameSize: int): (p: AudioPlan)
    ensures p.output == OutputFormat(req.format)
    ensures p.frameSize > 0 && p.encoder.sampleRate > 0 && p.encoder.bitRate > 0
  {
    var out := OutputFormat(req.format);
    AudioPlan(out,
      ChooseEncoder(out.codec, req.sampleRate, decoderRate, req.channels, req.ptt, req.vbr, req.bitrate),
      EncoderFrameSize(reportedFrameSize, out.codec))
  }

  /** With no options the result is Ogg/Opus, 48000 Hz, stereo, 64 kbit/s,
      audio application with variable bitrate. */
  lemma DefaultPlan(decoderRate: int, reportedFrameSize: int)
    ensures var p := PlanFor(ReadOptions(ConvertOptions(None, None, None, None, None, None)), decoderRate, reportedFrameSize);
            p.output == OutputChoice("ogg", Opus)
            && p.encoder == EncoderSettings(48000, 2, 64000, Some("audio"), Some("on"))
  {
    assert Lower("opus") == "opus";
  }

  /** Without a sample-rate option the request carries 48000, so the encoder
      runs at 48000 Hz whatever the input's rate: the decoder's rate is used
      only when the caller passes a non-positive sample rate. */
  lemma AbsentSampleRateIs48000(o: ConvertOptions, decoderRate: int, reportedFrameSize: int)
    requires BitrateInDomain(o.bitrate)
    requires o.sampleRate.None?
    ensures PlanFor(ReadOptions(o), decoderRate, reportedFrameSize).encoder.sampleRate == 48000
  {
  }

  /** The bitrate default is chosen on the format as given, the codec on the
      lower-cased format: "MP3" without a bitrate encodes MP3 at 64000 bit/s,
      where "mp3" gets 128000. */
  lemma UpperCaseMp3Bitrate(decoderRate: int, reportedFrameSize: int)
    ensures var p := PlanFor(ReadOptions(ConvertOptions(Some("MP3"), None, None, None, None, None)),
                             decoderRate, reportedFrameSize);
            p.output.codec == Mp3 && p.encoder.bitRate == 64000
    ensures var p := PlanFor(ReadOptions(ConvertOptions(Some("mp3"), None, None, None, None, None)),
                             decoderRate, reportedFrameSize);
            p.output.codec == Mp3 && p.encoder.bitRate == 128000
  {
    assert Lower("MP3") == "mp3";
    assert Lower("mp3") == "mp3";
    assert "MP3" != "mp3" by { assert "MP3"[0] != "mp3"[0]; }
  }
}
