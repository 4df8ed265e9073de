/** The wire format by position: what each byte of a header says, in integers, and that the
    writer produces and the parser reads exactly that. */
module RtpWireFormat {
  import opened Common
  import opened Bytes
  import opened RtpProtocol

  // ----- numbers -----

  function Int8(b: Byte): (n: nat)
    ensures n < 0x100
  {
    b as int
  }

  function Int16(w: bv16): (n: nat)
    ensures n < 0x1_0000
  {
    w as int
  }

  function Int32(w: bv32): (n: nat)
    ensures n < 0x1_0000_0000
  {
    w as int
  }

  function Int64(w: bv64): (n: nat)
    ensures n < 0x1_0000_0000_0000_0000
  {
    w as int
  }

  lemma IntIsInjective(a: Byte, b: Byte)
    requires Int8(a) == Int8(b)
    ensures a == b
  {
    IntOfByte(a);
    IntOfByte(b);
  }

  /** The numbers that two, four and eight bytes stand for, most significant byte first. */
  function Pair(data: seq<Byte>, at: nat): nat
    requires at + 2 <= |data|
  {
    0x100 * Int8(data[at]) + Int8(data[at + 1])
  }

  function Quad(data: seq<Byte>, at: nat): nat
    requires at + 4 <= |data|
  {
    0x100_0000 * Int8(data[at]) + 0x1_0000 * Int8(data[at + 1]) + 0x100 * Int8(data[at + 2]) + Int8(data[at + 3])
  }

  function Oct(data: seq<Byte>, at: nat): nat
    requires at + 8 <= |data|
  {
    0x100_0000_0000_0000 * Int8(data[at]) + 0x1_0000_0000_0000 * Int8(data[at + 1])
    + 0x100_0000_0000 * Int8(data[at + 2]) + 0x1_0000_0000 * Int8(data[at + 3])
    + 0x100_0000 * Int8(data[at + 4]) + 0x1_0000 * Int8(data[at + 5])
    + 0x100 * Int8(data[at + 6]) + Int8(data[at + 7])
  }

  /** Reading yields these numbers. */
  lemma ReadPair(data: seq<Byte>, at: nat)
    requires at + 2 <= |data|
    ensures Int16(ReadBe16(data, at)) == Pair(data, at)
  {
    Weights16(data[at], data[at + 1]);
  }

  lemma ReadQuad(data: seq<Byte>, at: nat)
    requires at + 4 <= |data|
    ensures Int32(ReadBe32(data, at)) == Quad(data, at)
  {
    Weights32(data[at], data[at + 1], data[at + 2], data[at + 3]);
  }

  lemma ReadOct(data: seq<Byte>, at: nat)
    requires at + 8 <= |data|
    ensures Int64(ReadBe64(data, at)) == Oct(data, at)
  {
    Weights64(data[at], data[at + 1], data[at + 2], data[at + 3],
              data[at + 4], data[at + 5], data[at + 6], data[at + 7]);
  }

  lemma Weights16(a: Byte, b: Byte)
    ensures (((a as bv16) << 8) | (b as bv16)) as int == 0x100 * Int8(a) + Int8(b)
  {
  }

  lemma Weights32(a: Byte, b: Byte, c: Byte, d: Byte)
    ensures (((a as bv32) << 24) | ((b as bv32) << 16) | ((c as bv32) << 8) | (d as bv32)) as int
            == 0x100_0000 * Int8(a) + 0x1_0000 * Int8(b) + 0x100 * Int8(c) + Int8(d)
  {
  }

  lemma Weights64(a: Byte, b: Byte, c: Byte, d: Byte, e: Byte, f: Byte, g: Byte, h: Byte)
    ensures (((a as bv64) << 56) | ((b as bv64) << 48) | ((c as bv64) << 40) | ((d as bv64) << 32)
             | ((e as bv64) << 24) | ((f as bv64) << 16) | ((g as bv64) << 8) | (h as bv64)) as int
            == 0x100_0000_0000_0000 * Int8(a) + 0x1_0000_0000_0000 * Int8(b) + 0x100_0000_0000 * Int8(c)
               + 0x1_0000_0000 * Int8(d) + 0x100_0000 * Int8(e) + 0x1_0000 * Int8(f) + 0x100 * Int8(g) + Int8(h)
  {
  }

  // ----- the numbers determine the bytes -----

  lemma SameDigits(base: nat, a: nat, b: nat, c: nat, d: nat)
    requires base in {0x100, 0x1_0000, 0x1_0000_0000} && b < base && d < base && base * a + b == base * c + d
    ensures a == c && b == d
  {
  }

  lemma SamePair(a: seq<Byte>, b: seq<Byte>, at: nat)
    requires at + 2 <= |a| && at + 2 <= |b| && Pair(a, at) == Pair(b, at)
    ensures a[at] == b[at] && a[at + 1] == b[at + 1]
  {
    hide Int8;
    SameDigits(0x100, Int8(a[at]), Int8(a[at + 1]), Int8(b[at]), Int8(b[at + 1]));
    IntIsInjective(a[at], b[at]);
    IntIsInjective(a[at + 1], b[at + 1]);
  }

  lemma QuadIsTwoPairs(data: seq<Byte>, at: nat)
    requires at + 4 <= |data|
    ensures Quad(data, at) == 0x1_0000 * Pair(data, at) + Pair(data, at + 2)
    ensures Pair(data, at + 2) < 0x1_0000
  {
    hide Int8;
  }

  lemma SameQuad(a: seq<Byte>, b: seq<Byte>, at: nat)
    requires at + 4 <= |a| && at + 4 <= |b| && Quad(a, at) == Quad(b, at)
    ensures a[at] == b[at] && a[at + 1] == b[at + 1] && a[at + 2] == b[at + 2] && a[at + 3] == b[at + 3]
  {
    hide Quad, Pair;
    QuadIsTwoPairs(a, at);
    QuadIsTwoPairs(b, at);
    SameDigits(0x1_0000, Pair(a, at), Pair(a, at + 2), Pair(b, at), Pair(b, at + 2));
    SamePair(a, b, at);
    SamePair(a, b, at + 2);
  }

  lemma OctIsTwoQuads(data: seq<Byte>, at: nat)
    requires at + 8 <= |data|
    ensures Oct(data, at) == 0x1_0000_0000 * Quad(data, at) + Quad(data, at + 4)
    ensures Quad(data, at + 4) < 0x1_0000_0000
  {
    hide Int8;
  }

  lemma SameOct(a: seq<Byte>, b: seq<Byte>, at: nat)
    requires at + 8 <= |a| && at + 8 <= |b| && Oct(a, at) == Oct(b, at)
    ensures a[at..at + 8] == b[at..at + 8]
  {
    hide Oct, Quad;
    OctIsTwoQuads(a, at);
    OctIsTwoQuads(b, at);
    SameDigits(0x1_0000_0000, Quad(a, at), Quad(a, at + 4), Quad(b, at), Quad(b, at + 4));
    SameQuad(a, b, at);
    SameQuad(a, b, at + 4);
  }

  // ----- the format -----

  /** Byte 1 holds the marker and seven bits of payload type; the sequence number, the
      timestamp and the source identifier follow. */
  predicate SaysFields(h: seq<Byte>, fields: HeaderFields)
    requires 12 <= |h|
  {
    && Int8(h[1]) == (if fields.marker then 128 else 0) + Int8(fields.payloadType) % 128
    && Pair(h, 2) == Int16(fields.sequenceNumber)
    && Quad(h, 4) == Int32(fields.timestamp)
    && Quad(h, 8) == Int32(fields.ssrc)
  }

  /** The header that is written: version 2, no padding, no contributing sources. */
  predicate IsHeader(h: seq<Byte>, fields: HeaderFields, extension: Option<HeaderExtension>) {
    if extension.Some? && extension.value.payload != [] then
      var e := extension.value;
      && |h| == 16 + |e.payload| && Int8(h[0]) == 0x90 && SaysFields(h, fields)
      && Pair(h, 12) == Int16(e.profileId)
      && Pair(h, 14) == |e.payload| / 4 % 0x1_0000
      && h[16..] == e.payload
    else
      |h| == 12 && Int8(h[0]) == 0x80 && SaysFields(h, fields)
  }

  /** Version 2, no padding, and everything that is announced is there. */
  predicate Acceptable(data: seq<Byte>) {
    && 12 <= |data| && Int8(data[0]) / 64 == 2 && Int8(data[0]) / 32 % 2 == 0
    && var at := 12 + 4 * (Int8(data[0]) % 16);
       && at <= |data|
       && (Int8(data[0]) / 16 % 2 == 1 ==> at + 4 <= |data| && at + 4 + 4 * Pair(data, at + 2) <= |data|)
  }

  /** What an acceptable packet says. */
  predicate Describes(data: seq<Byte>, p: Parsed)
    requires Acceptable(data)
  {
    && SaysFields(data, p.fields) && Int8(p.fields.payloadType) < 128
    && var at := 12 + 4 * (Int8(data[0]) % 16);
       if Int8(data[0]) / 16 % 2 == 0 then p.headerSize == at && p.extension == HeaderExtension(0, [])
       else
         && p.headerSize == at + 4 + 4 * Pair(data, at + 2)
         && Int16(p.extension.profileId) == Pair(data, at)
         && p.extension.payload == data[at + 4..p.headerSize]
  }

  // ----- the parser -----

  lemma FlagBits(b: Byte)
    ensures Supported(b) <==> Int8(b) / 64 == 2 && Int8(b) / 32 % 2 == 0
    ensures Extended(b) <==> Int8(b) / 16 % 2 == 1
  {
  }

  lemma CountBits(b: Byte)
    ensures BaseSize(b) == 12 + 4 * (Int8(b) % 16)
  {
  }

  lemma TypeBits(b: Byte)
    ensures Int8(b & 0x7F) == Int8(b) % 128
    ensures b & 0x80 != 0 <==> 128 <= Int8(b)
  {
  }

  /** A word is known by its number. */
  lemma WordIsInjective(a: bv16, b: bv16)
    requires Int16(a) == Int16(b)
    ensures a == b
  {
    IntOfWord(a);
    IntOfWord(b);
  }

  lemma IntOfLong(w: bv32)
    ensures (w as int) < 0x1_0000_0000 && (w as int) as bv32 == w
  {
  }

  lemma LongIsInjective(a: bv32, b: bv32)
    requires Int32(a) == Int32(b)
    ensures a == b
  {
    IntOfLong(a);
    IntOfLong(b);
  }

  lemma ParsedFields(data: seq<Byte>, fields: HeaderFields)
    requires 12 <= |data|
    ensures fields == FieldsOf(data) <==> SaysFields(data, fields) && Int8(fields.payloadType) < 128
  {
    hide SaysFields, ReadBe16, ReadBe32, Pair, Quad, Int8, Int16, Int32;
    var f := FieldsOf(data);
    ReadPair(data, 2);
    ReadQuad(data, 4);
    ReadQuad(data, 8);
    TypeBits(data[1]);
    FieldsSaid(data, f);
    if SaysFields(data, fields) && Int8(fields.payloadType) < 128 {
      FieldsSaidOnce(data, f, fields);
    }
  }

  lemma FieldsSaid(data: seq<Byte>, f: HeaderFields)
    requires 12 <= |data|
    requires f.marker == (128 <= Int8(data[1])) && Int8(f.payloadType) == Int8(data[1]) % 128
    requires Int16(f.sequenceNumber) == Pair(data, 2)
    requires Int32(f.timestamp) == Quad(data, 4) && Int32(f.ssrc) == Quad(data, 8)
    ensures SaysFields(data, f) && Int8(f.payloadType) < 128
  {
    hide Pair, Quad, Int8, Int16, Int32;
  }

  lemma FieldsSaidOnce(data: seq<Byte>, f: HeaderFields, g: HeaderFields)
    requires 12 <= |data| && SaysFields(data, f) && SaysFields(data, g)
    requires Int8(f.payloadType) < 128 && Int8(g.payloadType) < 128
    ensures f == g
  {
    hide Pair, Quad, Int8, Int16, Int32;
    IntIsInjective(f.payloadType, g.payloadType);
    WordIsInjective(f.sequenceNumber, g.sequenceNumber);
    LongIsInjective(f.timestamp, g.timestamp);
    LongIsInjective(f.ssrc, g.ssrc);
  }

  lemma WordsAnnounced(data: seq<Byte>, at: nat)
    requires at + 2 <= |data|
    ensures WordBytes(ReadBe16(data, at)) == 4 * Pair(data, at)
  {
    hide Pair, ReadBe16, WordBytes;
    ReadPair(data, at);
    WordBytesMeans(ReadBe16(data, at));
  }

  lemma AcceptsExactly(data: seq<Byte>)
    ensures Complete(data) <==> Acceptable(data)
  {
    hide Supported, Extended, BaseSize, WordBytes, ReadBe16, Pair, Quad, Int8;
    if 12 <= |data| {
      var at := 12 + 4 * (Int8(data[0]) % 16);
      FlagBits(data[0]);
      CountBits(data[0]);
      if at + 4 <= |data| {
        WordsAnnounced(data, at + 2);
      }
    }
  }

  lemma AnswerDescribes(data: seq<Byte>)
    requires Acceptable(data)
    ensures Parse(data).Some? && Describes(data, Parse(data).value)
  {
    hide Supported, Extended, BaseSize, WordBytes, ReadBe16, Pair, Parse, SaysFields, FieldsOf, Int8, Int16;
    AcceptsExactly(data);
    ParseAccepts(data);
    ParsedFields(data, FieldsOf(data));
    FlagBits(data[0]);
    CountBits(data[0]);
    if Int8(data[0]) / 16 % 2 == 1 {
      var at := 12 + 4 * (Int8(data[0]) % 16);
      ReadPair(data, at);
      WordsAnnounced(data, at + 2);
    }
  }

  lemma DescribesOnce(data: seq<Byte>, p: Parsed, q: Parsed)
    requires Acceptable(data) && Describes(data, p) && Describes(data, q)
    ensures p == q
  {
    hide Pair, SaysFields, Int8, Int16;
    FieldsSaidOnce(data, p.fields, q.fields);
    if Int8(data[0]) / 16 % 2 != 0 {
      WordIsInjective(p.extension.profileId, q.extension.profileId);
    }
  }

  /** The parser accepts exactly the acceptable packets, and answers exactly what they say. */
  lemma ParseByPosition(data: seq<Byte>)
    ensures Parse(data).Some? <==> Acceptable(data)
    ensures Acceptable(data) ==> forall p :: Parse(data) == Some(p) <==> Describes(data, p)
  {
    hide Parse, Acceptable, Describes, Complete;
    AcceptsExactly(data);
    ParseRefuses(data);
    ParseAccepts(data);
    if Acceptable(data) {
      AnswerDescribes(data);
      forall p | Describes(data, p) ensures Parse(data) == Some(p) {
        DescribesOnce(data, p, Parse(data).value);
      }
    }
  }

  // ----- the writer -----

  lemma WrittenFirstByte(extended: bool)
    ensures Int8((RTP_VERSION << 6) | (if extended then 0x10 else 0x00)) == if extended then 0x90 else 0x80
  {
  }

  lemma WrittenSecondByte(marker: bool, payloadType: Byte)
    ensures Int8((if marker then 0x80 else 0x00) | (payloadType & 0x7F))
            == (if marker then 128 else 0) + Int8(payloadType) % 128
  {
  }

  lemma FixedPartByPosition(fields: HeaderFields, extended: bool, h: seq<Byte>)
    requires FixedHeader(fields, extended) <= h
    ensures SaysFields(h, fields) && Int8(h[0]) == if extended then 0x90 else 0x80
  {
    hide Pair, Quad, Int8, Int16, Int32, ReadBe16, ReadBe32, FixedHeader;
    FixedHeaderFields(fields, extended, h);
    WrittenFirstByte(extended);
    ReadPair(h, 2);
    ReadQuad(h, 4);
    ReadQuad(h, 8);
    FixedHeaderBegins(fields, extended);
    assert h[1] == FixedHeader(fields, extended)[1];
    WrittenSecondByte(fields.marker, fields.payloadType);
  }

  lemma FixedHeaderBegins(fields: HeaderFields, extended: bool)
    ensures FixedHeader(fields, extended)[1] == (if fields.marker then 0x80 else 0x00) | (fields.payloadType & 0x7F)
  {
  }

  /** The written header has exactly these bytes. */
  lemma HeaderByPosition(h: seq<Byte>, fields: HeaderFields, extension: Option<HeaderExtension>)
    ensures h == HeaderBytes(fields, extension) <==> IsHeader(h, fields, extension)
  {
    hide IsHeader, HeaderBytes;
    HeaderIsHeader(fields, extension);
    if IsHeader(h, fields, extension) {
      HeaderOnce(h, HeaderBytes(fields, extension), fields, extension);
    }
  }

  lemma HeaderIsHeader(fields: HeaderFields, extension: Option<HeaderExtension>)
    ensures IsHeader(HeaderBytes(fields, extension), fields, extension)
  {
    hide Pair, SaysFields, Int8, Int16, FixedHeader, ExtensionBytes, ReadBe16;
    var h := HeaderBytes(fields, extension);
    FixedPartByPosition(fields, Carries(extension), h);
    if Carries(extension) {
      var e := extension.value;
      assert h[12..] == h[12..16 + |e.payload|] == ExtensionBytes(e);
      ExtensionByPosition(e, h);
    }
  }

  lemma ExtensionByPosition(e: HeaderExtension, h: seq<Byte>)
    requires |h| == 16 + |e.payload| && h[12..16 + |e.payload|] == ExtensionBytes(e)
    ensures Pair(h, 12) == Int16(e.profileId) && Pair(h, 14) == |e.payload| / 4 % 0x1_0000 && h[16..] == e.payload
  {
    hide Pair, Int16, ReadBe16, Be16, Truncate16;
    ReadPair(h, 12);
    ReadPair(h, 14);
    ExtensionBytesOf(e);
    SliceOfSlice(h, 12, |h|, 0, 2);
    SliceOfSlice(h, 12, |h|, 2, 4);
    SliceOfSlice(h, 12, |h|, 4, |h| - 12);
    Be16RoundTrip(e.profileId, h, 12);
    Be16RoundTrip(Truncate16(|e.payload| / 4), h, 14);
    Truncated(|e.payload| / 4);
  }

  lemma Truncated(n: nat)
    ensures Int16(Truncate16(n)) == n % 0x1_0000
  {
    TruncatedWord(n);
  }

  lemma HeaderOnce(h: seq<Byte>, g: seq<Byte>, fields: HeaderFields, extension: Option<HeaderExtension>)
    requires IsHeader(h, fields, extension) && IsHeader(g, fields, extension)
    ensures h == g
  {
    hide Pair, Quad, Int8, Int16, Int32;
    IntIsInjective(h[0], g[0]);
    IntIsInjective(h[1], g[1]);
    SamePair(h, g, 2);
    SameQuad(h, g, 4);
    SameQuad(h, g, 8);
    assert h[..12] == g[..12];
    if |h| > 12 {
      SamePair(h, g, 12);
      SamePair(h, g, 14);
      assert h == h[..12] + [h[12], h[13], h[14], h[15]] + h[16..];
      assert g == g[..12] + [g[12], g[13], g[14], g[15]] + g[16..];
    } else {
      assert h == h[..12] && g == g[..12];
    }
  }

  // ----- the latency extension -----

  /** The payload that carries two timestamps, under profile 0x5353. */
  predicate IsLatency(header: HeaderExtension, extension: LatencyExtension) {
    && Int16(header.profileId) == 0x5353 && |header.payload| == 16
    && Oct(header.payload, 0) == Int64(extension.captureNs)
    && Oct(header.payload, 8) == Int64(extension.sendNs)
  }

  lemma IntOfStamp(w: bv64)
    ensures (w as int) < 0x1_0000_0000_0000_0000 && (w as int) as bv64 == w
  {
  }

  lemma StampIsInjective(a: bv64, b: bv64)
    requires Int64(a) == Int64(b)
    ensures a == b
  {
    IntOfStamp(a);
    IntOfStamp(b);
  }

  lemma LatencyProfile(id: bv16)
    ensures id == LATENCY_PROFILE_ID <==> Int16(id) == 0x5353
  {
    if Int16(id) == 0x5353 {
      WordIsInjective(id, LATENCY_PROFILE_ID);
    }
  }

  lemma StampByPosition(data: seq<Byte>, at: nat, stamp: bv64)
    requires at + 8 <= |data|
    ensures ReadBe64(data, at) == stamp <==> Oct(data, at) == Int64(stamp)
  {
    hide Int64, Oct, ReadBe64;
    ReadOct(data, at);
    if Oct(data, at) == Int64(stamp) {
      StampIsInjective(ReadBe64(data, at), stamp);
    }
  }

  /** It is what the parser with the intended test reads, and nothing else is. */
  lemma LatencyReadByPosition(header: HeaderExtension, extension: LatencyExtension)
    ensures ParseLatencyIntended(header) == Read(extension) <==> IsLatency(header, extension)
  {
    hide Int16, Int64, Oct, ReadBe64;
    LatencyProfile(header.profileId);
    if |header.payload| == 16 {
      StampByPosition(header.payload, 0, extension.captureNs);
      StampByPosition(header.payload, 8, extension.sendNs);
    }
  }

  /** It is what is built for those timestamps, and nothing else is. */
  lemma LatencyBuiltByPosition(header: HeaderExtension, extension: LatencyExtension)
    ensures header == BuildLatency(extension) <==> IsLatency(header, extension)
  {
    hide Int16, Int64, Oct, SerializeLatency, ParseLatencyIntended;
    var built := BuildLatency(extension);
    LatencyRoundTrip(extension);
    LatencyReadByPosition(built, extension);
    if IsLatency(header, extension) {
      WordIsInjective(header.profileId, built.profileId);
      SameOct(header.payload, built.payload, 0);
      SameOct(header.payload, built.payload, 8);
      assert header.payload == header.payload[0..8] + header.payload[8..16];
      assert built.payload == built.payload[0..8] + built.payload[8..16];
    }
  }
}
