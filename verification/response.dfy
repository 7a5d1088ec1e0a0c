/** The bytes `handle_client` writes to an accepted connection: a fixed status
    line, three headers, a blank line and the raw payload. Every line ends in a
    bare line feed, not the carriage-return/line-feed pair HTTP/1.1 asks for. */
module Response {
  import opened Bytes
  import opened Options
  import Utf8
  import Decimal

  // Each header line is one literal in the source; the longer ones are written
  // here as short pieces so the verifier does not expand one long literal.
  const StatusLine: string := "HTTP/1.1 200 OK\n"
  const ContentTypeLine: string := "Content-Type: " + "application/octet-stream; " + "charset=utf-8\n"
  const DispositionOpen: string := "Content-Disposition: " + "attachment; " + "filename=\""
  const DispositionClose: string := "\"\n"
  const LengthName: string := "Content-Length: "
  const HeaderEnd: string := "\n\n"

  const Quote: byte := 0x22
  const LineFeed: byte := 0x0A
  const CarriageReturn: byte := 0x0D

  /** Everything up to the file name. */
  const Lead: string := StatusLine + (ContentTypeLine + DispositionOpen)
  /** Everything between the file name and the length digits. */
  const Middle: string := DispositionClose + LengthName

  /** The header text the `format!` call builds, before `as_bytes`. */
  function HeaderText(fileName: string, length: nat): string {
    Lead + fileName + Middle + Decimal.Render(length) + HeaderEnd
  }

  function Header(fileName: string, length: nat): seq<byte> {
    Utf8.Encode(HeaderText(fileName, length))
  }

  /** The two writes of `handle_client`, in order: the header bytes, then the
      payload. */
  function Build(fileName: string, payload: seq<byte>): (r: seq<byte>)
    ensures |r| == |Header(fileName, |payload|)| + |payload|
    ensures r[|r| - |payload|..] == payload
  {
    Header(fileName, |payload|) + payload
  }

  /** What a reader of the response recovers from it. */
  datatype Parsed = Parsed(fileName: string, length: nat, payload: seq<byte>)

  /** The position of the first `b` in `bs`. */
  function IndexOf(bs: seq<byte>, b: byte): (r: Option<nat>)
    ensures r.None? <==> b !in bs
    ensures r.Some? ==> r.value < |bs| && bs[r.value] == b && b !in bs[..r.value]
  {
    if |bs| == 0 then None
    else if bs[0] == b then Some(0)
    else match IndexOf(bs[1..], b)
      case None => None
      case Some(i) =>
        assert bs[..i + 1] == [bs[0]] + bs[1..][..i];
        Some(i + 1)
  }

  /** `bs` without its leading `prefix`, or `None` when it does not start so. */
  function Strip(bs: seq<byte>, prefix: seq<byte>): (r: Option<seq<byte>>)
    ensures r.Some? <==> |prefix| <= |bs| && bs[..|prefix|] == prefix
    ensures r.Some? ==> bs == prefix + r.value
  {
    if |prefix| <= |bs| && bs[..|prefix|] == prefix then Some(bs[|prefix|..]) else None
  }

  /** Reads a response of this server's shape: the fixed lines, the file name up
      to the closing quote, the length digits up to the line feed, the blank
      line, and a body of exactly the announced length. */
  function Parse(bs: seq<byte>): Option<Parsed> {
    ParseFramed(bs, Utf8.Encode(Lead), Utf8.Encode(Middle), Utf8.Encode(HeaderEnd))
  }

  /** `Parse` with the fixed text around the file name and the length passed in
      as bytes: `lead` before the name, `middle` from the closing quote to the
      digits, `end` from the line feed after the digits to the body. */
  function ParseFramed(bs: seq<byte>, lead: seq<byte>, middle: seq<byte>, end: seq<byte>): Option<Parsed> {
    match Strip(bs, lead)
    case None => None
    case Some(afterLead) => ParseNamed(afterLead, middle, end)
  }

  /** From the file name on: the name runs up to the first double quote. */
  function ParseNamed(bs: seq<byte>, middle: seq<byte>, end: seq<byte>): Option<Parsed> {
    match IndexOf(bs, Quote)
    case None => None
    case Some(q) =>
      match Utf8.Decode(bs[..q])
      case None => None
      case Some(name) =>
        match Strip(bs[q..], middle)
        case None => None
        case Some(afterName) =>
          match ParseSized(afterName, end)
          case None => None
          case Some((n, body)) => Some(Parsed(name, n, body))
  }

  /** From the length digits on: the digits run up to the first line feed, and
      the body after `end` must have exactly the announced length. */
  function ParseSized(bs: seq<byte>, end: seq<byte>): Option<(nat, seq<byte>)> {
    match IndexOf(bs, LineFeed)
    case None => None
    case Some(d) =>
      match Utf8.Decode(bs[..d])
      case None => None
      case Some(digits) =>
        match Decimal.Parse(digits)
        case None => None
        case Some(n) =>
          match Strip(bs[d..], end)
          case None => None
          case Some(body) => if |body| == n then Some((n, body)) else None
  }

  lemma IndexOfAfter(a: seq<byte>, b: seq<byte>, x: byte)
    requires x !in a && |b| > 0 && b[0] == x
    ensures IndexOf(a + b, x) == Some(|a|)
  {
    assert (a + b)[|a|] == x;
  }

  /** The header as the encodings of its five pieces. */
  lemma Layout(fileName: string, length: nat)
    ensures Header(fileName, length)
      == Utf8.Encode(Lead) + (Utf8.Encode(fileName) + (Utf8.Encode(Middle)
         + (Utf8.Encode(Decimal.Render(length)) + Utf8.Encode(HeaderEnd))))
  {
    var digits := Decimal.Render(length);
    assert HeaderText(fileName, length) == Lead + (fileName + (Middle + (digits + HeaderEnd)));
    Utf8.EncodeAppend(digits, HeaderEnd);
    Utf8.EncodeAppend(Middle, digits + HeaderEnd);
    Utf8.EncodeAppend(fileName, Middle + (digits + HeaderEnd));
    Utf8.EncodeAppend(Lead, fileName + (Middle + (digits + HeaderEnd)));
  }

  lemma MiddleStartsWithQuote()
    ensures |Utf8.Encode(Middle)| > 0 && Utf8.Encode(Middle)[0] == Quote
  {
    assert Middle == ['"'] + Middle[1..];
    Utf8.EncodeAppend(['"'], Middle[1..]);
  }

  lemma HeaderEndIsBlankLine()
    ensures Utf8.Encode(HeaderEnd) == [LineFeed, LineFeed]
  {
  }

  lemma ParseSizedPieces(eDigits: seq<byte>, digits: string, end: seq<byte>, payload: seq<byte>)
    requires |end| > 0 && end[0] == LineFeed
    requires LineFeed !in eDigits && Utf8.Decode(eDigits) == Some(digits)
    requires Decimal.Parse(digits) == Some(|payload|)
    ensures ParseSized(eDigits + (end + payload), end) == Some((|payload|, payload))
  {
    var bs := eDigits + (end + payload);
    IndexOfAfter(eDigits, end + payload, LineFeed);
    assert bs[..|eDigits|] == eDigits;
    assert bs[|eDigits|..] == end + payload;
    assert Strip(end + payload, end) == Some(payload);
  }

  lemma ParseNamedPieces(eName: seq<byte>, name: string, middle: seq<byte>, rest: seq<byte>, end: seq<byte>)
    requires |middle| > 0 && middle[0] == Quote
    requires Quote !in eName && Utf8.Decode(eName) == Some(name)
    requires ParseSized(rest, end).Some?
    ensures ParseNamed(eName + (middle + rest), middle, end)
      == Some(Parsed(name, ParseSized(rest, end).value.0, ParseSized(rest, end).value.1))
  {
    var bs := eName + (middle + rest);
    IndexOfAfter(eName, middle + rest, Quote);
    assert bs[..|eName|] == eName;
    assert bs[|eName|..] == middle + rest;
    assert Strip(middle + rest, middle) == Some(rest);
  }

  /** The steps of `ParseFramed` over a response cut into its pieces. */
  lemma ParsePieces(lead: seq<byte>, eName: seq<byte>, name: string, middle: seq<byte>,
                    eDigits: seq<byte>, digits: string, end: seq<byte>, payload: seq<byte>)
    requires |middle| > 0 && middle[0] == Quote && |end| > 0 && end[0] == LineFeed
    requires Quote !in eName && Utf8.Decode(eName) == Some(name)
    requires LineFeed !in eDigits && Utf8.Decode(eDigits) == Some(digits)
    requires Decimal.Parse(digits) == Some(|payload|)
    ensures ParseFramed(lead + (eName + (middle + (eDigits + (end + payload)))), lead, middle, end)
      == Some(Parsed(name, |payload|, payload))
  {
    var rest := eDigits + (end + payload);
    ParseSizedPieces(eDigits, digits, end, payload);
    ParseNamedPieces(eName, name, middle, rest, end);
    assert Strip(lead + (eName + (middle + rest)), lead) == Some(eName + (middle + rest));
  }

  lemma Reassociate(a: seq<byte>, b: seq<byte>, c: seq<byte>, d: seq<byte>, e: seq<byte>, f: seq<byte>)
    ensures (a + (b + (c + (d + e)))) + f == a + (b + (c + (d + (e + f))))
  {
  }

  /** A reader recovers the file name, the announced length and the payload
      from every response whose file name holds no double quote; the announced
      length is the payload's length. */
  lemma ParseBuild(fileName: string, payload: seq<byte>)
    requires '"' !in fileName
    ensures Parse(Build(fileName, payload)) == Some(Parsed(fileName, |payload|, payload))
  {
    var digits := Decimal.Render(|payload|);
    var eLead, eName, eMid := Utf8.Encode(Lead), Utf8.Encode(fileName), Utf8.Encode(Middle);
    var eDigits, eEnd := Utf8.Encode(digits), Utf8.Encode(HeaderEnd);
    Layout(fileName, |payload|);
    Reassociate(eLead, eName, eMid, eDigits, eEnd, payload);
    Utf8.AsciiByteIn(fileName, '"');
    Utf8.DecodeEncode(fileName);
    Utf8.AsciiByteIn(digits, '\n');
    Utf8.DecodeEncode(digits);
    Decimal.ParseRender(|payload|);
    MiddleStartsWithQuote();
    HeaderEndIsBlankLine();
    ParsePieces(eLead, eName, fileName, eMid, eDigits, digits, eEnd, payload);
  }

  /** When `ParseNamed` succeeds, the name it reports is the decoding of the
      bytes before the first double quote. */
  lemma ParseNamedReadsToFirstQuote(bs: seq<byte>, middle: seq<byte>, end: seq<byte>) returns (q: nat)
    requires ParseNamed(bs, middle, end).Some?
    ensures IndexOf(bs, Quote) == Some(q)
    ensures Utf8.Decode(bs[..q]) == Some(ParseNamed(bs, middle, end).value.fileName)
  {
    q := IndexOf(bs, Quote).value;
  }

  /** A double quote in the file name is not escaped, so the reader `Parse`,
      which ends the name at the first double quote, does not recover it. */
  lemma QuoteInNameIsUnreadable(fileName: string, payload: seq<byte>)
    requires '"' in fileName
    ensures Parse(Build(fileName, payload)) != Some(Parsed(fileName, |payload|, payload))
  {
    var digits := Decimal.Render(|payload|);
    var eLead, eName, eMid := Utf8.Encode(Lead), Utf8.Encode(fileName), Utf8.Encode(Middle);
    var eDigits, eEnd := Utf8.Encode(digits), Utf8.Encode(HeaderEnd);
    Layout(fileName, |payload|);
    Reassociate(eLead, eName, eMid, eDigits, eEnd, payload);
    var afterLead := eName + (eMid + (eDigits + (eEnd + payload)));
    var bs := Build(fileName, payload);
    assert bs == eLead + afterLead;
    if Parse(bs) == Some(Parsed(fileName, |payload|, payload)) {
      assert Strip(bs, eLead) == Some(afterLead);
      var q := ParseNamedReadsToFirstQuote(afterLead, eMid, eEnd);
      Utf8.AsciiByteIn(fileName, '"');
      var i :| 0 <= i < |eName| && eName[i] == Quote;
      assert afterLead[i] == Quote;
      Utf8.EncodeDecode(afterLead[..q]);
      assert false;
    }
  }

  /** The reader recovers the file name exactly when it holds no double quote. */
  lemma ParseBuildExactlyWithoutQuote(fileName: string, payload: seq<byte>)
    ensures Parse(Build(fileName, payload)) == Some(Parsed(fileName, |payload|, payload))
      <==> '"' !in fileName
  {
    if '"' in fileName {
      QuoteInNameIsUnreadable(fileName, payload);
    } else {
      ParseBuild(fileName, payload);
    }
  }

  /** Because the quote is not escaped, a name can carry a whole forged header
      tail: the response for `name` with a payload that starts with the closing
      quote, a `Content-Length` line and the blank line is byte for byte the
      response for a longer name holding that forged length, with the rest of
      the payload as its body. For example `a` with the payload
      `"\nContent-Length: 0\n\n` gives the same bytes as the name
      `a"\nContent-Length: 21\n\n` with an empty payload. */
  lemma QuoteInNameForgesHeader(name: string, payload: seq<byte>)
    ensures var forged := Utf8.Encode(Middle + Decimal.Render(|payload|) + HeaderEnd) + payload;
      var longName := name + Middle + Decimal.Render(|forged|) + HeaderEnd;
      && longName != name
      && |forged| > |payload|
      && Build(name, forged) == Build(longName, payload)
  {
    var tail := Middle + Decimal.Render(|payload|) + HeaderEnd;
    var forged := Utf8.Encode(tail) + payload;
    var longName := name + Middle + Decimal.Render(|forged|) + HeaderEnd;
    assert HeaderText(name, |forged|) + tail == HeaderText(longName, |payload|);
    Utf8.EncodeAppend(HeaderText(name, |forged|), tail);
    assert Build(name, forged) == (Header(name, |forged|) + Utf8.Encode(tail)) + payload;
  }

  lemma ContentTypeLineHasNoCarriageReturn()
    ensures '\r' !in ContentTypeLine
  {
  }

  lemma DispositionOpenHasNoCarriageReturn()
    ensures '\r' !in DispositionOpen
  {
  }

  lemma FixedTextHasNoCarriageReturn()
    ensures '\r' !in Lead && '\r' !in Middle && '\r' !in HeaderEnd
  {
    ContentTypeLineHasNoCarriageReturn();
    DispositionOpenHasNoCarriageReturn();
    assert '\r' !in StatusLine;
  }

  lemma PrefixOfConcat(a: seq<byte>, b: seq<byte>, c: seq<byte>, d: seq<byte>)
    ensures |(a + b) + c + d| >= |a| && ((a + b) + c + d)[..|a|] == a
  {
    assert (a + b) + c + d == a + (b + c + d);
  }

  /** The response opens with the status line. */
  lemma StartsWithStatusLine(fileName: string, payload: seq<byte>)
    ensures |Build(fileName, payload)| >= |Utf8.Encode(StatusLine)|
    ensures Build(fileName, payload)[..|Utf8.Encode(StatusLine)|] == Utf8.Encode(StatusLine)
  {
    var eStatus := Utf8.Encode(StatusLine);
    var eRest := Utf8.Encode(ContentTypeLine + DispositionOpen);
    var tail := Utf8.Encode(fileName) + (Utf8.Encode(Middle)
      + (Utf8.Encode(Decimal.Render(|payload|)) + Utf8.Encode(HeaderEnd)));
    Layout(fileName, |payload|);
    Utf8.EncodeAppend(StatusLine, ContentTypeLine + DispositionOpen);
    PrefixOfConcat(eStatus, eRest, tail, payload);
    assert Build(fileName, payload) == (eStatus + eRest) + tail + payload;
  }

  /** The header closes with an empty line, immediately followed by the payload. */
  lemma EndsWithBlankLine(fileName: string, payload: seq<byte>)
    ensures var h := Header(fileName, |payload|);
      && |h| >= 2
      && h[|h| - 2..] == [LineFeed, LineFeed]
      && Build(fileName, payload) == h + payload
  {
    var h := Header(fileName, |payload|);
    Layout(fileName, |payload|);
    HeaderEndIsBlankLine();
  }

  /** The header carries a carriage return exactly when the file name does: the
      server's own text never emits one, so each header line ends in a bare
      line feed. */
  lemma CarriageReturnOnlyFromName(fileName: string, length: nat)
    ensures CarriageReturn in Header(fileName, length) <==> '\r' in fileName
  {
    var digits := Decimal.Render(length);
    var text := HeaderText(fileName, length);
    FixedTextHasNoCarriageReturn();
    Utf8.AsciiByteIn(text, '\r');
    assert text == Lead + (fileName + (Middle + (digits + HeaderEnd)));
    assert '\r' !in digits;
  }
}
