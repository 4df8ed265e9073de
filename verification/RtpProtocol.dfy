/** The RTP fixed header with an optional header extension (sections 5.1 and 5.3.1 of
    RFC 3550), and the latency payload carried in such an extension. */
module RtpProtocol {
  import opened Common
  import opened Bytes

  const RTP_HEADER_SIZE: nat := 12
  const RTP_EXTENSION_HEADER_SIZE: nat := 4
  const RTP_VERSION: Byte := 2
  const LATENCY_PROFILE_ID: bv16 := 0x5353
  const LATENCY_PAYLOAD_SIZE: nat := 16
  const LATENCY_WORD_SIZE: nat := 4

  datatype HeaderFields = HeaderFields(
    marker: bool, payloadType: Byte, sequenceNumber: bv16, timestamp: bv32, ssrc: bv32)

  datatype HeaderExtension = HeaderExtension(profileId: bv16, payload: seq<Byte>)

  datatype LatencyExtension = LatencyExtension(captureNs: bv64, sendNs: bv64)

  // ----- writing -----

  /** A missing extension and one without payload are written alike. */
  predicate Carries(extension: Option<HeaderExtension>) {
    extension.Some? && extension.value.payload != []
  }

  /** Only payloads of whole 32-bit words can be written. */
  predicate Writable(extension: Option<HeaderExtension>) {
    Carries(extension) ==> |extension.value.payload| % 4 == 0
  }

  /** Version, flags, marker and payload type. */
  function FirstBytes(fields: HeaderFields, extended: bool): (r: seq<Byte>)
    ensures |r| == 2
  {
    [(RTP_VERSION << 6) | (if extended then 0x10 else 0x00),
     (if fields.marker then 0x80 else 0x00) | (fields.payloadType & 0x7F)]
  }

  function FixedHeader(fields: HeaderFields, extended: bool): (r: seq<Byte>)
    ensures |r| == RTP_HEADER_SIZE
  {
    FirstBytes(fields, extended) + Be16(fields.sequenceNumber) + Be32(fields.timestamp) + Be32(fields.ssrc)
  }

  function ExtensionBytes(extension: HeaderExtension): (r: seq<Byte>)
    ensures |r| == RTP_EXTENSION_HEADER_SIZE + |extension.payload|
  {
    Be16(extension.profileId) + Be16(Truncate16(|extension.payload| / 4)) + extension.payload
  }

  /** The header as a byte string. */
  function HeaderBytes(fields: HeaderFields, extension: Option<HeaderExtension>): seq<Byte> {
    FixedHeader(fields, Carries(extension)) + if Carries(extension) then ExtensionBytes(extension.value) else []
  }

  method WriteFirstBytes(fields: HeaderFields, extended: bool, data: array<Byte>)
    requires RTP_HEADER_SIZE <= data.Length
    modifies data
    ensures data[..2] == FirstBytes(fields, extended) && data[2..] == old(data[2..])
  {
    var first := (RTP_VERSION << 6) | (if extended then 0x10 else 0x00);
    var second := (if fields.marker then 0x80 else 0x00) | (fields.payloadType & 0x7F);
    data[0] := first;
    data[1] := second;
    assert data[..2] == [first, second];
    assert data[2..] == old(data[2..]);
  }

  method WriteFixedHeader(fields: HeaderFields, extended: bool, data: array<Byte>)
    requires RTP_HEADER_SIZE <= data.Length
    modifies data
    ensures data[..12] == FixedHeader(fields, extended) && data[12..] == old(data[12..])
  {
    hide Be16, Be32, FirstBytes;
    ghost var front, rest := FirstBytes(fields, extended), data[12..];
    WriteFirstBytes(fields, extended, data);
    assert data[12..] == data[2..][10..] == rest;
    WriteBe16(fields.sequenceNumber, data, 2);
    assert data[..4] == front + Be16(fields.sequenceNumber);
    assert data[12..] == data[4..][8..] == rest;
    WriteBe32(fields.timestamp, data, 4);
    assert data[..8] == front + Be16(fields.sequenceNumber) + Be32(fields.timestamp);
    assert data[12..] == data[8..][4..] == rest;
    WriteBe32(fields.ssrc, data, 8);
    assert data[..12] == front + Be16(fields.sequenceNumber) + Be32(fields.timestamp) + Be32(fields.ssrc);
  }

  method WriteExtension(extension: HeaderExtension, data: array<Byte>)
    requires data.Length == RTP_HEADER_SIZE + RTP_EXTENSION_HEADER_SIZE + |extension.payload|
    modifies data
    ensures data[..12] == old(data[..12]) && data[12..] == ExtensionBytes(extension)
  {
    hide Be16, Truncate16;
    ghost var front := data[..12];
    WriteBe16(extension.profileId, data, RTP_HEADER_SIZE);
    assert data[..14] == front + Be16(extension.profileId);
    WriteBe16(Truncate16(|extension.payload| / 4), data, RTP_HEADER_SIZE + 2);
    ghost var header := data[..16];
    assert header == front + Be16(extension.profileId) + Be16(Truncate16(|extension.payload| / 4));
    forall i | 0 <= i < |extension.payload| {
      data[RTP_HEADER_SIZE + 4 + i] := extension.payload[i];
    }
    assert data[..16] == header;
    assert data[16..] == extension.payload;
    assert data[..12] == header[..12] == front;
    assert data[12..] == header[12..] + data[16..];
  }

  /** The packet is replaced by the written header, or left alone on failure. */
  method WriteRtpHeader(fields: HeaderFields, extension: Option<HeaderExtension>, packet: ByteVector?)
    returns (success: bool)
    modifies if packet == null then {} else {packet}
    ensures success == (packet != null && Writable(extension))
    ensures success == (packet != null && (extension.Some? ==> |extension.value.payload| % 4 == 0))
    ensures success ==> packet.Contents() == HeaderBytes(fields, extension)
    ensures packet != null && !success ==>
              packet.data == old(packet.data) && packet.Contents() == old(packet.Contents())
  {
    hide FixedHeader, ExtensionBytes;
    if packet == null {
      return false;
    }
    var hasExtension := extension.Some? && extension.value.payload != [];
    if hasExtension && |extension.value.payload| % 4 != 0 {
      return false;
    }
    var extensionSize := if hasExtension then RTP_EXTENSION_HEADER_SIZE + |extension.value.payload| else 0;
    packet.AssignZeros(RTP_HEADER_SIZE + extensionSize);
    var data := packet.data;
    WriteFixedHeader(fields, hasExtension, data);
    if hasExtension {
      WriteExtension(extension.value, data);
    }
    assert data[..] == data[..12] + data[12..];
    return true;
  }

  // ----- parsing -----

  datatype Parsed = Parsed(fields: HeaderFields, headerSize: nat, extension: HeaderExtension)

  function FieldsOf(data: seq<Byte>): HeaderFields
    requires RTP_HEADER_SIZE <= |data|
  {
    HeaderFields(data[1] & 0x80 != 0, data[1] & 0x7F, ReadBe16(data, 2), ReadBe32(data, 4), ReadBe32(data, 8))
  }

  /** What the first byte says: a supported version without padding, whether there is an
      extension, and how long the header is up to it. */
  predicate Supported(first: Byte) {
    first >> 6 == RTP_VERSION && first & 0x20 == 0
  }

  predicate Extended(first: Byte) {
    first & 0x10 != 0
  }

  function BaseSize(first: Byte): (n: nat)
    ensures RTP_HEADER_SIZE <= n && n % 4 == 0
  {
    RTP_HEADER_SIZE + (first & 0x0F) as int * 4
  }

  /** A word count as a number of bytes. */
  function WordBytes(words: bv16): (n: nat)
    ensures n % 4 == 0
  {
    words as int * 4
  }

  /** The header at the front of a packet, or nothing if the packet is refused. */
  function Parse(data: seq<Byte>): Option<Parsed> {
    if |data| < RTP_HEADER_SIZE || !Supported(data[0]) || |data| < BaseSize(data[0]) then None
    else if !Extended(data[0]) then Some(Parsed(FieldsOf(data), BaseSize(data[0]), HeaderExtension(0, [])))
    else
      var at := BaseSize(data[0]);
      if |data| < at + RTP_EXTENSION_HEADER_SIZE then None
      else
        var size := at + RTP_EXTENSION_HEADER_SIZE + WordBytes(ReadBe16(data, at + 2));
        if |data| < size then None
        else Some(Parsed(FieldsOf(data), size, HeaderExtension(ReadBe16(data, at), data[at + 4..size])))
  }

  lemma WordBytesMeans(words: bv16)
    ensures WordBytes(words) == words as int * 4
  {
  }

  /** Output pointers may be null, except the one for the fields. */
  method ParseRtpHeader(data: array?<Byte>, size: nat, fields: Cell?<HeaderFields>,
                        headerSize: Cell?<nat>, extension: Cell?<HeaderExtension>) returns (success: bool)
    requires data != null ==> size <= data.Length
    modifies if fields == null then {} else {fields}
    modifies if headerSize == null then {} else {headerSize}
    modifies if extension == null then {} else {extension}
    ensures success == (data != null && fields != null && Parse(data[..size]).Some?)
    ensures success ==>
              var p := Parse(data[..size]).value;
              && fields.value == p.fields
              && (headerSize != null ==> headerSize.value == p.headerSize)
              && (extension != null ==> extension.value == p.extension)
    ensures !success ==>
              && (fields != null ==> fields.value == old(fields.value))
              && (headerSize != null ==> headerSize.value == old(headerSize.value))
              && (extension != null ==> extension.value == old(extension.value))
  {
    hide ReadBe16, FieldsOf, Supported, Extended, BaseSize, WordBytes, Parse;
    if data == null || fields == null || size < RTP_HEADER_SIZE {
      ParseRefuses(if data == null then [] else data[..size]);
      return false;
    }
    var bytes := data[..size];
    ParseRefuses(bytes);
    ParseAccepts(bytes);
    var baseHeaderSize := BaseSize(bytes[0]);
    if !Supported(bytes[0]) || size < baseHeaderSize {
      return false;
    }
    var computedHeaderSize := baseHeaderSize;
    if Extended(bytes[0]) {
      if size < baseHeaderSize + RTP_EXTENSION_HEADER_SIZE {
        return false;
      }
      var extensionPayloadSize := WordBytes(ReadBe16(bytes, baseHeaderSize + 2));
      computedHeaderSize := computedHeaderSize + RTP_EXTENSION_HEADER_SIZE + extensionPayloadSize;
      if size < computedHeaderSize {
        return false;
      }
      if extension != null {
        extension.value := HeaderExtension(
          ReadBe16(bytes, baseHeaderSize),
          bytes[baseHeaderSize + RTP_EXTENSION_HEADER_SIZE..
                baseHeaderSize + RTP_EXTENSION_HEADER_SIZE + extensionPayloadSize]);
      }
    } else if extension != null {
      extension.value := HeaderExtension(0, []);
    }
    fields.value := FieldsOf(bytes);
    if headerSize != null {
      headerSize.value := computedHeaderSize;
    }
    return true;
  }

  /** The packet has room for all that its first byte and its word count announce. */
  predicate Complete(data: seq<Byte>) {
    && RTP_HEADER_SIZE <= |data| && Supported(data[0]) && BaseSize(data[0]) <= |data|
    && (Extended(data[0]) ==>
          && BaseSize(data[0]) + RTP_EXTENSION_HEADER_SIZE <= |data|
          && BaseSize(data[0]) + RTP_EXTENSION_HEADER_SIZE + WordBytes(ReadBe16(data, BaseSize(data[0]) + 2)) <= |data|)
  }

  lemma ParseRefuses(data: seq<Byte>)
    ensures !Complete(data) ==> Parse(data) == None
  {
    hide ReadBe16, FieldsOf, Supported, Extended, BaseSize, WordBytes;
  }

  lemma ParseAccepts(data: seq<Byte>)
    ensures Complete(data) ==>
              var at := BaseSize(data[0]);
              Parse(data) == Some(
                if Extended(data[0]) then
                  var size := at + RTP_EXTENSION_HEADER_SIZE + WordBytes(ReadBe16(data, at + 2));
                  Parsed(FieldsOf(data), size, HeaderExtension(ReadBe16(data, at), data[at + 4..size]))
                else Parsed(FieldsOf(data), at, HeaderExtension(0, [])))
  {
    hide ReadBe16, FieldsOf, Supported, Extended, BaseSize, WordBytes;
  }

  // ----- locality -----

  lemma SameFields(data: seq<Byte>, other: seq<Byte>)
    requires RTP_HEADER_SIZE <= |data| && RTP_HEADER_SIZE <= |other|
    requires forall i :: 0 <= i < RTP_HEADER_SIZE ==> other[i] == data[i]
    ensures FieldsOf(other) == FieldsOf(data)
  {
    assert ReadBe16(other, 2) == ReadBe16(data, 2);
    assert ReadBe32(other, 4) == ReadBe32(data, 4);
    assert ReadBe32(other, 8) == ReadBe32(data, 8);
  }

  lemma SameWord(data: seq<Byte>, other: seq<Byte>, at: nat)
    requires at + 2 <= |data| && at + 2 <= |other| && other[at] == data[at] && other[at + 1] == data[at + 1]
    ensures ReadBe16(other, at) == ReadBe16(data, at)
  {
  }

  lemma SamePrefix(data: seq<Byte>, other: seq<Byte>, size: nat)
    requires size <= |data| && data[..size] <= other
    ensures size <= |other| && forall i :: 0 <= i < size ==> other[i] == data[i]
  {
    forall i | 0 <= i < size ensures other[i] == data[i] {
      assert other[i] == data[..size][i];
    }
  }

  lemma SameSlice(data: seq<Byte>, other: seq<Byte>, at: nat, size: nat)
    requires at <= size <= |data| && size <= |other| && forall i :: 0 <= i < size ==> other[i] == data[i]
    ensures other[at..size] == data[at..size]
  {
  }

  lemma HeaderIsInside(data: seq<Byte>)
    requires Parse(data).Some?
    ensures var size := Parse(data).value.headerSize;
            && RTP_HEADER_SIZE <= size <= |data| && size % 4 == 0
            && (Extended(data[0]) ==> BaseSize(data[0]) + 4 <= size)
  {
    hide ReadBe16, FieldsOf, Supported, Extended, BaseSize, WordBytes;
  }

  /** An accepted header is whole words, at least the fixed part, and inside the packet;
      any other packet that begins with the same header bytes is parsed alike. */
  lemma ParseIsLocal(data: seq<Byte>, other: seq<Byte>)
    requires Parse(data).Some?
    ensures var size := Parse(data).value.headerSize;
            && RTP_HEADER_SIZE <= size <= |data| && size % 4 == 0
            && (data[..size] <= other ==> Parse(other) == Parse(data))
  {
    hide ReadBe16, FieldsOf, Supported, Extended, BaseSize, WordBytes;
    HeaderIsInside(data);
    var size := Parse(data).value.headerSize;
    if data[..size] <= other {
      SamePrefix(data, other, size);
      SameFields(data, other);
      var at := BaseSize(data[0]);
      if Extended(data[0]) {
        SameWord(data, other, at);
        SameWord(data, other, at + 2);
        SameSlice(data, other, at + 4, size);
      }
    }
  }

  // ----- round trips -----

  lemma FirstByte(extended: bool)
    ensures var b: Byte := (RTP_VERSION << 6) | (if extended then 0x10 else 0x00);
            Supported(b) && Extended(b) == extended && BaseSize(b) == 12
  {
  }

  lemma SecondByte(marker: bool, payloadType: Byte)
    ensures var b: Byte := (if marker then 0x80 else 0x00) | (payloadType & 0x7F);
            && (b & 0x80 != 0) == marker && b & 0x7F == payloadType & 0x7F
  {
  }

  lemma FixedHeaderFields(fields: HeaderFields, extended: bool, data: seq<Byte>)
    requires FixedHeader(fields, extended) <= data
    ensures FieldsOf(data) == fields.(payloadType := fields.payloadType & 0x7F)
    ensures data[0] == (RTP_VERSION << 6) | (if extended then 0x10 else 0x00)
  {
    var h := FixedHeader(fields, extended);
    assert data[..12] == h;
    assert data[0] == h[0] && data[1] == h[1];
    SecondByte(fields.marker, fields.payloadType);
    assert data[2..4] == h[2..4] == Be16(fields.sequenceNumber);
    assert data[4..8] == h[4..8] == Be32(fields.timestamp);
    assert data[8..12] == h[8..12] == Be32(fields.ssrc);
    Be16RoundTrip(fields.sequenceNumber, data, 2);
    Be32RoundTrip(fields.timestamp, data, 4);
    Be32RoundTrip(fields.ssrc, data, 8);
  }

  /** How many bytes of payload the 16-bit word count on the wire speaks of. */
  function WirePayload(extension: Option<HeaderExtension>): (n: nat)
    ensures Carries(extension) ==> n <= |extension.value.payload|
  {
    if Carries(extension) then (|extension.value.payload| / 4) % 0x1_0000 * 4 else 0
  }

  /** What a parser recovers of a written header. */
  function Recovered(fields: HeaderFields, extension: Option<HeaderExtension>): Parsed {
    Parsed(fields.(payloadType := fields.payloadType & 0x7F),
           if Carries(extension) then 16 + WirePayload(extension) else 12,
           if Carries(extension) then HeaderExtension(extension.value.profileId,
                                                      extension.value.payload[..WirePayload(extension)])
           else HeaderExtension(0, []))
  }

  lemma TruncatedWord(n: nat)
    ensures Truncate16(n) as int == n % 0x1_0000
  {
    WordOfInt(n % 0x1_0000);
  }

  lemma SliceOfSlice(s: seq<Byte>, a: nat, b: nat, i: nat, j: nat)
    requires a <= b <= |s| && i <= j <= b - a
    ensures s[a..b][i..j] == s[a + i..a + j]
  {
    var l, r := s[a..b][i..j], s[a + i..a + j];
    assert |l| == |r| == j - i;
    forall k | 0 <= k < j - i ensures l[k] == r[k] {
      assert l[k] == s[a..b][i + k] == s[a + i + k];
    }
  }

  lemma ExtensionRead(e: HeaderExtension, data: seq<Byte>, n: nat)
    requires n <= |e.payload| && 16 + |e.payload| <= |data| && data[12..16 + |e.payload|] == ExtensionBytes(e)
    ensures ReadBe16(data, 12) == e.profileId
    ensures WordBytes(ReadBe16(data, 14)) == (|e.payload| / 4) % 0x1_0000 * 4
    ensures data[16..16 + n] == e.payload[..n]
  {
    hide ReadBe16, Be16, Truncate16;
    var x, words := data[12..16 + |e.payload|], |e.payload| / 4;
    var profile, count := Be16(e.profileId), Be16(Truncate16(words));
    assert x == profile + count + e.payload;
    SliceOfSlice(data, 12, 16 + |e.payload|, 0, 2);
    SliceOfSlice(data, 12, 16 + |e.payload|, 2, 4);
    SliceOfSlice(data, 12, 16 + |e.payload|, 4, 4 + n);
    assert x[0..2] == profile && x[2..4] == count;
    assert x[4..4 + n] == e.payload[..n];
    Be16RoundTrip(e.profileId, data, 12);
    Be16RoundTrip(Truncate16(words), data, 14);
    TruncatedWord(words);
  }

  lemma ParsePlain(fields: HeaderFields, data: seq<Byte>)
    requires FixedHeader(fields, false) <= data
    ensures Parse(data) == Some(Parsed(fields.(payloadType := fields.payloadType & 0x7F), 12, HeaderExtension(0, [])))
  {
    hide FixedHeader, FieldsOf, ReadBe16, Supported, Extended, BaseSize, WordBytes;
    FixedHeaderFields(fields, false, data);
    FirstByte(false);
  }

  lemma ParseExtended(fields: HeaderFields, e: HeaderExtension, n: nat, data: seq<Byte>)
    requires FixedHeader(fields, true) <= data && 16 + |e.payload| <= |data|
    requires data[12..16 + |e.payload|] == ExtensionBytes(e)
    requires n == (|e.payload| / 4) % 0x1_0000 * 4 && n <= |e.payload|
    ensures Parse(data) == Some(Parsed(fields.(payloadType := fields.payloadType & 0x7F), 16 + n,
                                       HeaderExtension(e.profileId, e.payload[..n])))
  {
    hide FixedHeader, FieldsOf, ReadBe16, ExtensionBytes, Supported, Extended, BaseSize, WordBytes;
    FixedHeaderFields(fields, true, data);
    FirstByte(true);
    ExtensionRead(e, data, n);
  }

  /** Parsing inverts writing for every header that can be written, whatever follows it,
      up to the seventh bit of the payload type and 65536 words of extension. */
  lemma WriteThenParse(fields: HeaderFields, extension: Option<HeaderExtension>, rest: seq<Byte>)
    requires Writable(extension)
    ensures Parse(HeaderBytes(fields, extension) + rest) == Some(Recovered(fields, extension))
  {
    hide FixedHeader, Parse, ExtensionBytes;
    var data := HeaderBytes(fields, extension) + rest;
    assert data[..12] == FixedHeader(fields, Carries(extension));
    if Carries(extension) {
      var e := extension.value;
      assert data[12..16 + |e.payload|] == ExtensionBytes(e);
      ParseExtended(fields, e, WirePayload(extension), data);
    } else {
      ParsePlain(fields, data);
    }
  }

  /** The bounds are exact: the round trip returns fields, extension and length unchanged
      if and only if the payload type has seven bits and the extension fits in 65535 words
      (one without payload comes back as no extension). */
  lemma WriteThenParseExactly(fields: HeaderFields, extension: HeaderExtension, rest: seq<Byte>)
    requires extension.payload != [] && |extension.payload| % 4 == 0
    ensures var written := HeaderBytes(fields, Some(extension));
            Parse(written + rest) == Some(Parsed(fields, |written|, extension))
            <==> fields.payloadType < 0x80 && |extension.payload| / 4 <= 0xFFFF
  {
    hide Parse, FixedHeader, ExtensionBytes;
    WriteThenParse(fields, Some(extension), rest);
    SevenBits(fields.payloadType);
    var n := WirePayload(Some(extension));
    assert n == |extension.payload| <==> |extension.payload| / 4 <= 0xFFFF;
    assert extension.payload[..|extension.payload|] == extension.payload;
  }

  lemma SevenBits(b: Byte)
    ensures b & 0x7F == b <==> b < 0x80
  {
  }

  lemma FirstByteRestored(b: Byte)
    requires Supported(b)
    ensures (RTP_VERSION << 6) | (if Extended(b) then 0x10 else 0x00) == b <==> b & 0x0F == 0
    ensures BaseSize(b) == 12 <==> b & 0x0F == 0
    ensures Extended(b) ==> (RTP_VERSION << 6) | 0x00 != b
    ensures Extended(b) <==> b & 0x10 != 0
  {
  }

  lemma SecondByteRestored(b: Byte)
    ensures (if b & 0x80 != 0 then 0x80 else 0x00) | ((b & 0x7F) & 0x7F) == b
  {
  }

  lemma FieldsRestored(data: seq<Byte>, extended: bool)
    requires RTP_HEADER_SIZE <= |data|
    ensures FixedHeader(FieldsOf(data), extended)[1..] == data[1..12]
  {
    SecondByteRestored(data[1]);
    Be16Restores(data, 2);
    Be32Restores(data, 4);
    Be32Restores(data, 8);
    assert data[1..12] == [data[1]] + data[2..4] + data[4..8] + data[8..12];
  }

  lemma WordsRestored(words: bv16)
    ensures Truncate16(WordBytes(words) / 4) == words
  {
    hide WordBytes, Truncate16;
    WordBytesMeans(words);
    IntOfWord(words);
    QuarterTruncates(words as int);
  }

  lemma QuarterTruncates(n: nat)
    requires n < 0x1_0000
    ensures Truncate16(n * 4 / 4) == n as bv16
  {
    assert n * 4 / 4 == n && n % 0x1_0000 == n;
  }

  lemma PartsOfParse(data: seq<Byte>)
    requires Parse(data).Some?
    ensures var p := Parse(data).value;
            && RTP_HEADER_SIZE <= |data| && p.fields == FieldsOf(data) && Supported(data[0])
            && |p.extension.payload| % 4 == 0
            && (!Extended(data[0]) ==> p.extension.payload == [])
            && (BaseSize(data[0]) == 12 ==>
                  if !Extended(data[0]) then p.headerSize == 12
                  else p.headerSize == 16 + WordBytes(ReadBe16(data, 14)) <= |data|
                       && p.extension == HeaderExtension(ReadBe16(data, 12), data[16..p.headerSize]))
  {
    hide ReadBe16, FieldsOf, Supported, Extended, BaseSize, WordBytes;
  }

  /** Writing inverts parsing exactly for the accepted packets without contributing sources
      whose extension, if any, has a payload. */
  lemma ParseThenWrite(data: seq<Byte>)
    requires Parse(data).Some?
    ensures var p := Parse(data).value;
            && Writable(Some(p.extension))
            && (HeaderBytes(p.fields, Some(p.extension)) == data[..p.headerSize]
                <==> data[0] & 0x0F == 0 && (data[0] & 0x10 == 0 || p.extension.payload != []))
  {
    hide FixedHeader, FieldsOf, ReadBe16, Parse, ExtensionBytes, Supported, Extended, BaseSize, WordBytes;
    var p := Parse(data).value;
    var e := p.extension;
    HeaderIsInside(data);
    PartsOfParse(data);
    FirstByteRestored(data[0]);
    FixedPartRestored(data, Carries(Some(e)));
    if BaseSize(data[0]) == 12 && Extended(data[0]) && e.payload != [] {
      ExtensionRestored(data, p.headerSize, e);
      assert data[..p.headerSize] == data[..12] + data[12..p.headerSize];
    }
    assert HeaderBytes(p.fields, Some(e))[..12] == FixedHeader(p.fields, Carries(Some(e)));
    assert data[..p.headerSize][..12] == data[..12];
  }

  lemma FixedPartRestored(data: seq<Byte>, extended: bool)
    requires RTP_HEADER_SIZE <= |data|
    ensures var h := FixedHeader(FieldsOf(data), extended);
            && h[0] == (RTP_VERSION << 6) | (if extended then 0x10 else 0x00)
            && (h[0] == data[0] <==> h == data[..12])
  {
    hide FieldsOf, FixedHeader;
    var h := FixedHeader(FieldsOf(data), extended);
    FieldsRestored(data, extended);
    FixedHeaderStarts(FieldsOf(data), extended);
    assert h == [h[0]] + h[1..];
    assert data[..12] == [data[0]] + data[1..12];
    assert data[..12][0] == data[0];
  }

  lemma FixedHeaderStarts(fields: HeaderFields, extended: bool)
    ensures FixedHeader(fields, extended)[0] == (RTP_VERSION << 6) | (if extended then 0x10 else 0x00)
  {
  }

  lemma ThreeSlices(s: seq<Byte>, a: nat, b: nat, c: nat, d: nat)
    requires a <= b <= c <= d <= |s|
    ensures s[a..b] + s[b..c] + s[c..d] == s[a..d]
  {
  }

  lemma ExtensionBytesOf(e: HeaderExtension)
    ensures ExtensionBytes(e) == Be16(e.profileId) + Be16(Truncate16(|e.payload| / 4)) + e.payload
  {
  }

  lemma ExtensionRestored(data: seq<Byte>, size: nat, e: HeaderExtension)
    requires 16 <= size <= |data| && size == 16 + WordBytes(ReadBe16(data, 14))
    requires e == HeaderExtension(ReadBe16(data, 12), data[16..size])
    ensures ExtensionBytes(e) == data[12..size]
  {
    hide *;
    ExtensionBytesOf(e);
    assert Be16(e.profileId) == data[12..14] by { Be16Restores(data, 12); }
    assert Be16(Truncate16(|e.payload| / 4)) == data[14..16] by {
      WordsRestored(ReadBe16(data, 14));
      Be16Restores(data, 14);
    }
    ThreeSlices(data, 12, 14, 16, size);
  }

  // ----- the latency extension -----

  function SerializeLatency(extension: LatencyExtension): (r: seq<Byte>)
    ensures |r| == LATENCY_PAYLOAD_SIZE
  {
    Be64(extension.captureNs) + Be64(extension.sendNs)
  }

  method SerializeRtpLatencyExtension(extension: LatencyExtension) returns (payload: array<Byte>)
    ensures fresh(payload) && payload[..] == SerializeLatency(extension)
  {
    payload := new Byte[16](_ => 0);
    WriteBe64(extension.captureNs, payload, 0);
    WriteBe64(extension.sendNs, payload, 8);
    assert payload[..] == payload[..8] + payload[8..];
  }

  method BuildRtpLatencyHeaderExtension(extension: LatencyExtension) returns (built: HeaderExtension)
    ensures built == BuildLatency(extension)
  {
    var payload := SerializeRtpLatencyExtension(extension);
    built := HeaderExtension(LATENCY_PROFILE_ID, payload[..]);
  }

  function BuildLatency(extension: LatencyExtension): HeaderExtension {
    HeaderExtension(LATENCY_PROFILE_ID, SerializeLatency(extension))
  }

  /** Reading the two timestamps needs 16 bytes, whatever length was tested for. */
  datatype LatencyOutcome = Rejected | Read(extension: LatencyExtension) | ReadsPastPayload

  /** The parser, with the payload length that its test asks for as a parameter. */
  function ParseLatency(requiredSize: nat, header: HeaderExtension): LatencyOutcome {
    if header.profileId != LATENCY_PROFILE_ID || |header.payload| != requiredSize then Rejected
    else if |header.payload| < 16 then ReadsPastPayload
    else Read(LatencyExtension(ReadBe64(header.payload, 0), ReadBe64(header.payload, 8)))
  }

  /** The test as it stands in the code compares a byte count with a word count. */
  function ParseLatencyAsWritten(header: HeaderExtension): LatencyOutcome {
    ParseLatency(LATENCY_WORD_SIZE, header)
  }

  /** The test as evidently meant. */
  function ParseLatencyIntended(header: HeaderExtension): LatencyOutcome {
    ParseLatency(LATENCY_PAYLOAD_SIZE, header)
  }

  /** The parser as it stands.  Its caller must not pass a payload of four bytes under the
      latency profile, for which the code has no defined result; then it never succeeds. */
  method ParseRtpLatencyExtension(header: HeaderExtension, extension: Cell?<LatencyExtension>) returns (success: bool)
    requires ParseLatencyAsWritten(header) != ReadsPastPayload
    modifies if extension == null then {} else {extension}
    ensures !success
    ensures extension != null ==> extension.value == old(extension.value)
  {
    if extension == null || header.profileId != LATENCY_PROFILE_ID || |header.payload| != LATENCY_WORD_SIZE {
      return false;
    }
    assert false;
  }

  /** The parser with the length test as meant. */
  method ParseRtpLatencyExtensionIntended(header: HeaderExtension, extension: Cell?<LatencyExtension>)
    returns (success: bool)
    modifies if extension == null then {} else {extension}
    ensures success == (extension != null && ParseLatencyIntended(header).Read?)
    ensures success ==> Read(extension.value) == ParseLatencyIntended(header)
    ensures extension != null && !success ==> extension.value == old(extension.value)
  {
    hide ReadBe64;
    if extension == null || header.profileId != LATENCY_PROFILE_ID || |header.payload| != LATENCY_PAYLOAD_SIZE {
      return false;
    }
    extension.value := LatencyExtension(ReadBe64(header.payload, 0), ReadBe64(header.payload, 8));
    return true;
  }

  lemma LatencyRoundTrip(extension: LatencyExtension)
    ensures ParseLatencyIntended(BuildLatency(extension)) == Read(extension)
  {
    var payload := SerializeLatency(extension);
    assert payload[0..8] == Be64(extension.captureNs);
    assert payload[8..16] == Be64(extension.sendNs);
    Be64RoundTrip(extension.captureNs, payload, 0);
    Be64RoundTrip(extension.sendNs, payload, 8);
  }

  /** End to end: build, write, parse the packet, parse the extension.  With the intended
      test both timestamps arrive; as written the extension is rejected, always. */
  lemma LatencyEndToEnd(fields: HeaderFields, extension: LatencyExtension, rest: seq<Byte>)
    ensures var packet := HeaderBytes(fields, Some(BuildLatency(extension))) + rest;
            && Parse(packet).Some?
            && ParseLatencyIntended(Parse(packet).value.extension) == Read(extension)
            && ParseLatencyAsWritten(Parse(packet).value.extension) == Rejected
  {
    hide Parse, HeaderBytes, SerializeLatency, ReadBe64;
    var built := BuildLatency(extension);
    WriteThenParse(fields, Some(built), rest);
    assert built.payload[..16] == built.payload;
    LatencyRoundTrip(extension);
  }

  /** As written no extension whatever yields timestamps; the only payloads that pass the
      test are the ones too short to hold them. */
  lemma AsWrittenNeverReads(header: HeaderExtension)
    ensures !ParseLatencyAsWritten(header).Read?
    ensures ParseLatencyAsWritten(header) == ReadsPastPayload
            <==> header.profileId == LATENCY_PROFILE_ID && |header.payload| == 4
  {
  }
}
