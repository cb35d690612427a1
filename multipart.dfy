/** The upload request of Torrent2LS: its URL, its boundary and content type,
    and the multipart/form-data body (RFC 7578) that carries the torrent
    file as a single part named "fileEl". The body is framed by the
    delimiter line of section 5.1.1 of RFC 2046 before AND after the part;
    the program never writes the close-delimiter's trailing "--". */
module Multipart {
  import opened Encoding

  // ---------------------------------------------------------------------
  // Request line and headers

  /** The text of `s` between a leading `lead` and a trailing `tail`, the
      way a reader takes a value back out of a template. */
  function Between<T(==)>(s: seq<T>, lead: seq<T>, tail: seq<T>): Option<seq<T>>
  {
    if |s| < |lead| + |tail| || s[..|lead|] != lead || s[|s| - |tail|..] != tail then None
    else Some(s[|lead|..|s| - |tail|])
  }

  /** A value filled into a template is read back verbatim. */
  lemma BetweenOf<T>(lead: seq<T>, value: seq<T>, tail: seq<T>)
    ensures Between(lead + value + tail, lead, tail) == Some(value)
  {
    var s := lead + value + tail;
    assert s[..|lead|] == lead;
    assert s[|s| - |tail|..] == tail;
    assert s[|lead|..|s| - |tail|] == value;
  }

  const UrlScheme: string := "http://"
  const UrlPath: string := ":8080/api/torrent-add?start=yes"

  /** `http://{address}:8080/api/torrent-add?start=yes`, where `address`
      is the textual form of the parsed device address: the URL names the
      address verbatim, on port 8080 and the torrent-add path. */
  function RequestUrl(address: string): (url: string)
    ensures Between(url, UrlScheme, UrlPath) == Some(address)
  {
    BetweenOf(UrlScheme, address, UrlPath);
    UrlScheme + address + UrlPath
  }

  const BoundaryDashes: string := "----------------------------"

  /** Twenty-eight dashes followed by the tick count in lower-case hex:
      the text after the dashes reads back as the tick count. */
  function Boundary(ticks: nat): (b: string)
    ensures |b| > |BoundaryDashes| && b[..|BoundaryDashes|] == BoundaryDashes
    ensures ParseHex(b[|BoundaryDashes|..]) == Some(ticks)
  {
    var b := BoundaryDashes + Hex(ticks);
    assert b[|BoundaryDashes|..] == Hex(ticks);
    b
  }

  const MediaType: string := "multipart/form-data; boundary="

  /** The Content-Type header's value: multipart/form-data, with the
      boundary parameter naming the boundary verbatim. */
  function ContentType(boundary: string): (value: string)
    ensures Between(value, MediaType, "") == Some(boundary)
  {
    BetweenOf(MediaType, boundary, "");
    assert MediaType + boundary + "" == MediaType + boundary;
    MediaType + boundary
  }

  /** The characters RFC 2046 (section 5.1.1) admits in a boundary. */
  predicate IsBoundaryChar(c: char)
  {
    ('0' <= c <= '9') || ('a' <= c <= 'z') || ('A' <= c <= 'Z')
    || c in "'()+_,-./:=? "
  }

  /** For every tick count a 64-bit `long` can hold, the boundary is a
      legal RFC 2046 boundary: 1 to 70 boundary characters, not ending in
      a space, and all of them ASCII. */
  lemma BoundaryIsLegal(ticks: nat)
    requires ticks < 0x1_0000_0000_0000_0000
    ensures var b := Boundary(ticks);
      1 <= |b| <= 70 && b[|b| - 1] != ' ' && IsAscii(b)
      && forall i :: 0 <= i < |b| ==> IsBoundaryChar(b[i])
  {
    var b := Boundary(ticks);
    Pow16Add(8, 8);
    assert Pow16(8) == 0x1_0000_0000;
    HexLength(ticks, 16);
    forall i | 0 <= i < |b|
      ensures IsBoundaryChar(b[i]) && IsAsciiChar(b[i])
    {
      if i >= |BoundaryDashes| {
        assert b[i] == Hex(ticks)[i - |BoundaryDashes|];
      }
    }
  }

  /** The header template, with the file name between its lead and its
      tail; the tail closes the quote, then holds the content-type line
      (which starts with a space) and the empty line. The lead is written
      in three pieces so that proofs about its characters stay small. */
  const HeaderLead: string := "Content-Disposition:" + " form-data; name=\"fileEl\";" + "filename=\""
  const HeaderMiddle: string := " Content-Type: application/x-bittorrent"
  const HeaderTail: string := "\"\r\n" + HeaderMiddle + "\r\n\r\n"

  /** The part header with the file name substituted into the template:
      a reader finds the name verbatim between the lead and the tail. */
  function PartHeader(fileName: string): (header: string)
    ensures Between(header, HeaderLead, HeaderTail) == Some(fileName)
  {
    BetweenOf(HeaderLead, fileName, HeaderTail);
    HeaderLead + fileName + HeaderTail
  }

  // ---------------------------------------------------------------------
  // Body

  const CR: byte := 13
  const LF: byte := 10
  const Dash: byte := 45

  /** The delimiter line "\r\n--" + boundary + "\r\n", ASCII-encoded: it
      opens with CR LF and two dashes and closes with CR LF, around at
      least one byte per boundary character. */
  function Delimiter(boundary: string): (d: seq<byte>)
    ensures |d| >= |boundary| + 6
    ensures d[0] == CR && d[1] == LF && d[2] == Dash && d[3] == Dash
    ensures d[|d| - 2] == CR && d[|d| - 1] == LF
  {
    AsciiAppend("\r\n--" + boundary, "\r\n");
    AsciiAppend("\r\n--", boundary);
    DelimiterEnds();
    Ascii("\r\n--" + boundary + "\r\n")
  }

  /** The ASCII bytes of the delimiter line's fixed ends. */
  lemma DelimiterEnds()
    ensures Ascii("\r\n") == [CR, LF] && Ascii("\r\n--") == [CR, LF, Dash, Dash]
  {
    assert Ascii("\r\n") == [CR, LF];
  }

  /** The complete request body: delimiter, UTF-8 part header, the file
      bytes, and the same delimiter again. */
  function Body(boundary: string, fileName: string, contents: seq<byte>): seq<byte>
  {
    Delimiter(boundary) + Utf8(PartHeader(fileName)) + contents + Delimiter(boundary)
  }

  /** The body's layout: it opens and closes with byte-identical
      delimiters and carries the file bytes unmodified between the part
      header and the closing delimiter. */
  lemma BodyLayout(boundary: string, fileName: string, contents: seq<byte>)
    ensures var body, d, h := Body(boundary, fileName, contents), Delimiter(boundary), Utf8(PartHeader(fileName));
      |body| == 2 * |d| + |h| + |contents|
      && body[..|d|] == d
      && body[|d|..|d| + |h|] == h
      && body[|d| + |h|..|d| + |h| + |contents|] == contents
      && body[|body| - |d|..] == d
  {
  }

  /** The body ends with the bytes CR LF: the delimiter written last is
      the opening form again, never the close-delimiter ending in "--". */
  lemma BodyEndsWithLineBreak(boundary: string, fileName: string, contents: seq<byte>)
    ensures var body := Body(boundary, fileName, contents);
      |body| >= 2 && body[|body| - 2] == CR && body[|body| - 1] == LF
  {
    var body, d := Body(boundary, fileName, contents), Delimiter(boundary);
    assert body[|body| - 2] == d[|d| - 2] && body[|body| - 1] == d[|d| - 1];
  }

  /** For an ASCII boundary the delimiter is exactly the boundary's text:
      the ASCII encoder drops or replaces nothing, and the bytes are also
      the delimiter's UTF-8 form. */
  lemma DelimiterIsExact(boundary: string)
    requires IsAscii(boundary)
    ensures Delimiter(boundary) == Utf8("\r\n--" + boundary + "\r\n")
    ensures |Delimiter(boundary)| == |boundary| + 6
  {
    var line := "\r\n--" + boundary + "\r\n";
    assert forall i :: 0 <= i < |line| ==> IsAsciiChar(line[i]) by {
      forall i | 0 <= i < |line|
        ensures IsAsciiChar(line[i])
      {
        if 4 <= i < 4 + |boundary| {
          assert line[i] == boundary[i - 4];
        }
      }
    }
    AsciiIsUtf8(line);
    AsciiOfAscii(line);
  }

  // ---------------------------------------------------------------------
  // The request stream and the body writer

  /** The request stream that the body is written into. */
  class RequestStream {
    var written: seq<byte>

    constructor ()
      ensures written == []
    {
      written := [];
    }

    /** BinaryWriter.Write(byte[]): appends the bytes. */
    method Write(data: seq<byte>)
      modifies this
      ensures written == old(written) + data
    {
      written := written + data;
    }
  }

  /** BinaryReader.ReadBytes(count) on a stream holding `data`: a negative
      count throws; otherwise the first `count` bytes, or all of them when
      fewer remain. */
  function ReadBytes(data: seq<byte>, count: int): (r: Option<seq<byte>>)
    ensures r.None? <==> count < 0
    ensures r.Some? ==> |r.value| <= |data| && r.value == data[..|r.value|]
    ensures r.Some? && count <= |data| ==> |r.value| == count
    ensures r.Some? && count > |data| ==> r.value == data
  {
    if count < 0 then None
    else if count <= |data| then Some(data[..count])
    else Some(data)
  }

  /** The number of bytes the program reads from the torrent file: its
      64-bit length narrowed by the `(int)` cast. */
  function ReadCount(contents: seq<byte>): int
  {
    Int32Cast(|contents|)
  }

  /** Writes the body into `stream` step by step. Reading the file fails
      (and the write stops after the part header) exactly when the narrowed
      length is negative; otherwise the body carries the bytes read. */
  method WriteBody(stream: RequestStream, boundary: string, fileName: string, contents: seq<byte>)
    returns (complete: bool)
    modifies stream
    ensures complete <==> ReadCount(contents) >= 0
    ensures complete ==>
      stream.written == old(stream.written) + Body(boundary, fileName, contents[..ReadCount(contents)])
    ensures !complete ==>
      stream.written == old(stream.written) + Delimiter(boundary) + Utf8(PartHeader(fileName))
  {
    var boundaryBytes := Ascii("\r\n--" + boundary + "\r\n");
    stream.Write(boundaryBytes);
    var header := PartHeader(fileName);
    stream.Write(Utf8(header));
    var read := ReadBytes(contents, Int32Cast(|contents|));
    if read.None? {
      complete := false;
      return;
    }
    stream.Write(read.value);
    stream.Write(boundaryBytes);
    complete := true;
  }

  /** Every torrent shorter than 2^31 bytes is read in full, so the body
      carries the whole file, unmodified. */
  lemma BodyCarriesWholeFile(contents: seq<byte>)
    requires |contents| < Int32Limit
    ensures ReadCount(contents) == |contents|
    ensures contents[..ReadCount(contents)] == contents
  {
  }

  /** A file of 2^32 + 5 bytes passes the cast as 5: only its first five
      bytes reach the body. */
  lemma LongFileIsTruncated(contents: seq<byte>)
    requires |contents| == Word32 + 5
    ensures ReadCount(contents) == 5
    ensures ReadBytes(contents, ReadCount(contents)) == Some(contents[..5])
  {
  }

  // ---------------------------------------------------------------------
  // A receiver's view: parsing the body back

  datatype Part = Part(header: seq<byte>, content: seq<byte>)

  /** `pattern` occurs in `s` starting at index `i`. */
  predicate OccursAt(s: seq<byte>, pattern: seq<byte>, i: int)
  {
    0 <= i && i + |pattern| <= |s| && forall k :: 0 <= k < |pattern| ==> s[i + k] == pattern[k]
  }

  /** The first index at or after `from` where `pattern` occurs. */
  function FindFrom(s: seq<byte>, pattern: seq<byte>, from: nat): (r: Option<nat>)
    ensures r.Some? ==> from <= r.value && OccursAt(s, pattern, r.value)
    ensures r.Some? ==> forall j :: from <= j < r.value ==> !OccursAt(s, pattern, j)
    ensures r.None? ==> forall j :: from <= j ==> !OccursAt(s, pattern, j)
    decreases |s| - from
  {
    if from + |pattern| > |s| then None
    else if OccursAt(s, pattern, from) then Some(from)
    else FindFrom(s, pattern, from + 1)
  }

  /** The search from the start finds a pattern no later than any of its
      occurrences. */
  lemma FoundFirst(s: seq<byte>, pattern: seq<byte>, i: int)
    requires OccursAt(s, pattern, i)
    ensures FindFrom(s, pattern, 0).Some? && FindFrom(s, pattern, 0).value <= i
  {
  }

  /** The search from the start finds the first occurrence. */
  lemma FindsFirst(s: seq<byte>, pattern: seq<byte>, i: int)
    requires OccursAt(s, pattern, i) && forall j :: 0 <= j < i ==> !OccursAt(s, pattern, j)
    ensures FindFrom(s, pattern, 0) == Some(i)
  {
  }

  /** The empty line that ends a part's header. */
  const EmptyLine: seq<byte> := [CR, LF, CR, LF]

  /** Reads a single-part body framed by `boundary`'s delimiter line:
      after the opening delimiter line, the header runs up to and including
      the first empty line, and the content ends where the whole delimiter
      line (CR LF "--" boundary CR LF) next occurs. This receiver is more
      lenient than section 5.1.1 of RFC 2046, whose delimiter is CR LF "--"
      boundary alone and may be followed by other text on its line. */
  function ParseBody(body: seq<byte>, boundary: string): (r: Option<Part>)
    ensures r.Some? ==>
      var d, h, c := Delimiter(boundary), r.value.header, r.value.content;
      |d| + |h| + |c| <= |body|
      && body[..|d|] == d && body[|d|..|d| + |h|] == h && body[|d| + |h|..|d| + |h| + |c|] == c
      && OccursAt(body, d, |d| + |h| + |c|)
  {
    var d := Delimiter(boundary);
    if |body| < |d| || body[..|d|] != d then None
    else
      var rest := body[|d|..];
      match FindFrom(rest, EmptyLine, 0)
      case None => None
      case Some(i) =>
        var after := rest[i + 4..];
        match FindFrom(after, d, 0)
        case None => None
        case Some(k) =>
          OccursInSuffix(body, |d| + i + 4, d, k);
          Some(Part(rest[..i + 4], after[..k]))
  }

  /** An occurrence in a suffix is one in the whole, shifted by the
      suffix's start. */
  lemma OccursInSuffix(s: seq<byte>, start: nat, pattern: seq<byte>, k: int)
    requires start <= |s| && OccursAt(s[start..], pattern, k)
    ensures OccursAt(s, pattern, start + k)
  {
    forall j | 0 <= j < |pattern| ensures s[start + k + j] == pattern[j] {
      assert s[start..][k + j] == pattern[j];
    }
  }

  /** The file bytes are clear of the delimiter line: no whole delimiter
      line starts inside them, not even one that runs on into the closing
      delimiter line. */
  predicate ClearOf(contents: seq<byte>, boundary: string)
  {
    forall i :: 0 <= i < |contents| ==> !OccursAt(contents + Delimiter(boundary), Delimiter(boundary), i)
  }

  /** The part header's bytes: the lead and the file name, a quote and a
      line break, the content-type line (which starts with a space), and
      the empty line. */
  lemma HeaderBytes(fileName: string)
    ensures Utf8(PartHeader(fileName))
      == Utf8(HeaderLead + fileName) + [34, CR, LF] + Utf8(HeaderMiddle) + EmptyLine
  {
    var lead := HeaderLead + fileName;
    assert PartHeader(fileName) == lead + "\"\r\n" + HeaderMiddle + "\r\n\r\n";
    Utf8Append(lead + "\"\r\n" + HeaderMiddle, "\r\n\r\n");
    Utf8Append(lead + "\"\r\n", HeaderMiddle);
    Utf8Append(lead, "\"\r\n");
    LineBreakBytes();
  }

  /** The quote with its line break, and the empty line, in UTF-8. */
  lemma LineBreakBytes()
    ensures Utf8("\"\r\n") == [34, CR, LF]
    ensures Utf8("\r\n\r\n") == EmptyLine
  {
  }

  /** The UTF-8 form of a text without carriage returns has no CR byte. */
  lemma {:induction false} NoCRByte(s: string)
    requires '\r' !in s
    ensures forall k :: 0 <= k < |Utf8(s)| ==> Utf8(s)[k] != CR
  {
    forall k | 0 <= k < |Utf8(s)| ensures Utf8(s)[k] != CR {
      Utf8AsciiByte(s, k, '\r');
    }
  }

  /** The template's text has no carriage return outside its line breaks. */
  lemma TemplateHasNoCR()
    ensures '\r' !in HeaderLead && '\r' !in HeaderMiddle && HeaderMiddle[0] == ' '
  {
    assert '\r' !in "Content-Disposition:";
    assert '\r' !in " form-data; name=\"fileEl\";";
    assert '\r' !in "filename=\"";
  }

  /** Outside its line breaks the part header has no CR byte, as long as
      the file name holds no carriage return. */
  lemma HeaderTextHasNoCR(fileName: string)
    requires '\r' !in fileName
    ensures forall k :: 0 <= k < |Utf8(HeaderLead + fileName)| ==> Utf8(HeaderLead + fileName)[k] != CR
    ensures forall k :: 0 <= k < |Utf8(HeaderMiddle)| ==> Utf8(HeaderMiddle)[k] != CR
    ensures |Utf8(HeaderMiddle)| > 0 && Utf8(HeaderMiddle)[0] == 32
  {
    TemplateHasNoCR();
    var lead := HeaderLead + fileName;
    NoCRInConcat(HeaderLead, fileName);
    NoCRByte(lead);
    NoCRByte(HeaderMiddle);
  }

  lemma NoCRInConcat(a: string, b: string)
    requires '\r' !in a && '\r' !in b
    ensures '\r' !in a + b
  {
    forall k | 0 <= k < |a + b| ensures (a + b)[k] != '\r' {
      if k < |a| {
        assert (a + b)[k] == a[k];
      } else {
        assert (a + b)[k] == b[k - |a|];
      }
    }
  }

  /** The search for the empty line stops at the end of a part header's
      byte pattern: text without CR, a quote and a line break, a line that
      starts with a space and holds no CR, and an empty line. */
  lemma FirstEmptyLine(a: seq<byte>, m: seq<byte>, rest: seq<byte>)
    requires forall k :: 0 <= k < |a| ==> a[k] != CR
    requires forall k :: 0 <= k < |m| ==> m[k] != CR
    requires |m| > 0 && m[0] == 32
    ensures var h := a + [34, CR, LF] + m + EmptyLine;
      FindFrom(h + rest, EmptyLine, 0) == Some(|h| - 4)
  {
    var h := a + [34, CR, LF] + m + EmptyLine;
    var s := h + rest;
    forall j | 0 <= j < |h| - 4
      ensures !OccursAt(s, EmptyLine, j)
    {
      if j < |a| {
        assert s[j] == a[j];
        assert s[j + 0] != EmptyLine[0];
      } else if j == |a| {
        assert s[j + 0] != EmptyLine[0];
      } else if j == |a| + 1 {
        assert s[j + 2] == m[0];
        assert s[j + 2] != EmptyLine[2];
      } else if j == |a| + 2 {
        assert s[j + 0] != EmptyLine[0];
      } else {
        assert s[j] == m[j - |a| - 3];
        assert s[j + 0] != EmptyLine[0];
      }
    }
    assert s[|h| - 4] == CR && s[|h| - 3] == LF && s[|h| - 2] == CR && s[|h| - 1] == LF;
    FindsFirst(s, EmptyLine, |h| - 4);
  }

  /** The parser inverts the serialiser exactly when the file bytes are
      clear of the delimiter: then a receiver recovers the part header,
      which decodes to the header text with the file name, and the file
      bytes, unmodified. The boundary comes from the clock, so the program
      relies on it never occurring in the file. */
  lemma ParseBodyRoundTrip(boundary: string, fileName: string, contents: seq<byte>)
    requires '\r' !in fileName
    ensures var r := ParseBody(Body(boundary, fileName, contents), boundary);
      r.Some? && Utf8Decode(r.value.header) == Some(PartHeader(fileName))
      && (r.value.content == contents <==> ClearOf(contents, boundary))
  {
    ParsedBody(boundary, fileName, contents);
    ContentBeforeDelimiter(contents, Delimiter(boundary));
    Utf8RoundTrip(PartHeader(fileName));
  }

  /** Parsing the body gives the part header and what precedes the first
      delimiter after it. */
  lemma ParsedBody(boundary: string, fileName: string, contents: seq<byte>)
    requires '\r' !in fileName
    ensures var d := Delimiter(boundary);
      var k := FindFrom(contents + d, d, 0);
      k.Some? && ParseBody(Body(boundary, fileName, contents), boundary)
        == Some(Part(Utf8(PartHeader(fileName)), (contents + d)[..k.value]))
  {
    BodyNested(boundary, fileName, contents);
    HeaderBytes(fileName);
    HeaderTextHasNoCR(fileName);
    ParseAssembled(Body(boundary, fileName, contents), boundary, Utf8(HeaderLead + fileName), Utf8(HeaderMiddle), contents);
  }

  /** The body as the opening delimiter followed by the rest. */
  lemma BodyNested(boundary: string, fileName: string, contents: seq<byte>)
    ensures var d := Delimiter(boundary);
      Body(boundary, fileName, contents) == d + (Utf8(PartHeader(fileName)) + (contents + d))
  {
  }

  /** ParsedBody for any header of the shape FirstEmptyLine describes. */
  lemma ParseAssembled(body: seq<byte>, boundary: string, a: seq<byte>, m: seq<byte>, contents: seq<byte>)
    requires forall k :: 0 <= k < |a| ==> a[k] != CR
    requires forall k :: 0 <= k < |m| ==> m[k] != CR
    requires |m| > 0 && m[0] == 32
    requires body == Delimiter(boundary) + ((a + [34, CR, LF] + m + EmptyLine) + (contents + Delimiter(boundary)))
    ensures var d, h := Delimiter(boundary), a + [34, CR, LF] + m + EmptyLine;
      var k := FindFrom(contents + d, d, 0);
      k.Some? && ParseBody(body, boundary) == Some(Part(h, (contents + d)[..k.value]))
  {
    var d, h := Delimiter(boundary), a + [34, CR, LF] + m + EmptyLine;
    FirstEmptyLine(a, m, contents + d);
    assert body[|d|..] == h + (contents + d);
    assert OccursAt(contents + d, d, |contents|);
    FoundFirst(contents + d, d, |contents|);
    ParseSteps(body, boundary, h, contents + d);
  }

  /** ParseBody's steps on a body that opens with the delimiter, whose
      first empty line closes the header h, and whose remaining bytes tail
      hold a delimiter. */
  lemma ParseSteps(body: seq<byte>, boundary: string, h: seq<byte>, tail: seq<byte>)
    requires var d := Delimiter(boundary);
      |d| <= |body| && body[..|d|] == d
      && |h| >= 4 && FindFrom(body[|d|..], EmptyLine, 0) == Some(|h| - 4)
      && body[|d|..][..|h|] == h && body[|d|..][|h|..] == tail
      && FindFrom(tail, d, 0).Some?
    ensures ParseBody(body, boundary) == Some(Part(h, tail[..FindFrom(tail, Delimiter(boundary), 0).value]))
  {
  }


  /** The bytes before the first delimiter in `contents + d` are all of
      `contents` exactly when no delimiter starts inside `contents`. */
  lemma ContentBeforeDelimiter(contents: seq<byte>, d: seq<byte>)
    ensures var k := FindFrom(contents + d, d, 0);
      k.Some? && ((contents + d)[..k.value] == contents
                  <==> forall i :: 0 <= i < |contents| ==> !OccursAt(contents + d, d, i))
  {
    var s := contents + d;
    assert OccursAt(s, d, |contents|);
    FoundFirst(s, d, |contents|);
    var k := FindFrom(s, d, 0).value;
    if forall i :: 0 <= i < |contents| ==> !OccursAt(s, d, i) {
      assert k == |contents|;
      assert s[..k] == contents;
    } else {
      var i :| 0 <= i < |contents| && OccursAt(s, d, i);
      FoundFirst(s, d, i);
      assert |s[..k]| != |contents|;
    }
  }
}
