/** The SILG input-log container codec. */
module InputLogs {
  import opened Base

  const MAGIC: Bytes := [0x53, 0x49, 0x4C, 0x47]  // "SILG"
  const HDR_LEN: nat := 24
  const FOOTER_LEN: nat := 32

  datatype Container = Container(innerVersion: U32, payload: Bytes)

  datatype InputLogError =
    | BadMagic
    | UnsupportedVersion(v: U16)
    | NonZeroFlags(flags: U16)
    | ReservedNonZero
    | PayloadLenMismatch(payloadLen: U64)
    | FooterMismatch
    | TrailingBytes
    | Truncated

  predicate Fits(c: Container) { HDR_LEN + |c.payload| < TWO64 }

  /** magic | container_version = 1 | flags = 0 | inner_format_version | reserved = 0 | payload_len */
  function Header(innerVersion: U32, payloadLen: nat): (b: Bytes)
    ensures |b| == HDR_LEN
  {
    MAGIC + LE(1, 2) + LE(0, 2) + LE(innerVersion, 4) + LE(0, 4) + LE(payloadLen, 8)
  }

  function Encode(blake3: Blake3, c: Container): Bytes {
    var body := Header(c.innerVersion, |c.payload|) + c.payload;
    body + blake3(body)
  }

  function DecodeBody(body: Bytes): Result<Container, InputLogError>
    requires |body| >= HDR_LEN
  {
    if body[0..4] != MAGIC then Err(BadMagic)
    else if U16At(body, 4) != 1 then Err(UnsupportedVersion(U16At(body, 4)))
    else if U16At(body, 6) != 0 then Err(NonZeroFlags(U16At(body, 6)))
    else if U32At(body, 12) != 0 then Err(ReservedNonZero)
    else
      var len := U64At(body, 16);
      if HDR_LEN + len >= TWO64 then Err(Truncated)
      else if |body| < HDR_LEN + len then Err(PayloadLenMismatch(len))
      else if |body| > HDR_LEN + len then Err(TrailingBytes)
      else Ok(Container(U32At(body, 8), body[HDR_LEN..]))
  }

  function Decode(blake3: Blake3, buf: Bytes): Result<Container, InputLogError> {
    if |buf| < HDR_LEN + FOOTER_LEN then Err(Truncated) else
    var body := buf[..|buf| - FOOTER_LEN];
    if blake3(body) != buf[|body|..] then Err(FooterMismatch) else DecodeBody(body)
  }

  lemma HeaderSlices(innerVersion: U32, len: nat, payload: Bytes)
    ensures var b := Header(innerVersion, len) + payload;
            && b[0..4] == MAGIC && b[4..6] == LE(1, 2) && b[6..8] == LE(0, 2) && b[8..12] == LE(innerVersion, 4)
            && b[12..16] == LE(0, 4) && b[16..24] == LE(len, 8) && b[24..] == payload
  {
    SixParts(MAGIC, LE(1, 2), LE(0, 2), LE(innerVersion, 4), LE(0, 4), LE(len, 8), payload);
  }

  lemma SixParts(p0: Bytes, p1: Bytes, p2: Bytes, p3: Bytes, p4: Bytes, p5: Bytes, rest: Bytes)
    requires |p0| == 4 && |p1| == 2 && |p2| == 2 && |p3| == 4 && |p4| == 4 && |p5| == 8
    ensures var b := p0 + p1 + p2 + p3 + p4 + p5 + rest;
            && b[0..4] == p0 && b[4..6] == p1 && b[6..8] == p2 && b[8..12] == p3 && b[12..16] == p4 && b[16..24] == p5
            && b[24..] == rest
  {
  }

  lemma HeaderReadsBack(innerVersion: U32, payload: Bytes)
    requires HDR_LEN + |payload| < TWO64
    ensures DecodeBody(Header(innerVersion, |payload|) + payload) == Ok(Container(innerVersion, payload))
  {
    HeaderSlices(innerVersion, |payload|, payload);
    var b := Header(innerVersion, |payload|) + payload;
    U32AtIsUnLE(b, 8); U32AtIsUnLE(b, 12);
    RoundTrip16(1); RoundTrip16(0); RoundTrip32(innerVersion); RoundTrip32(0); RoundTrip64(|payload|);
  }

  lemma HeaderWritesBack(body: Bytes)
    requires |body| >= HDR_LEN && DecodeBody(body).Ok?
    ensures var c := DecodeBody(body).value; Fits(c) && Header(c.innerVersion, |c.payload|) + c.payload == body
  {
    U32AtIsUnLE(body, 8); U32AtIsUnLE(body, 12);
    LEOfUnLE(body[4..6]); LEOfUnLE(body[6..8]); LEOfUnLE(body[8..12]); LEOfUnLE(body[12..16]); LEOfUnLE(body[16..24]);
    assert body == body[0..4] + body[4..6] + body[6..8] + body[8..12] + body[12..16] + body[16..24] + body[24..];
  }

  /** Canonical both ways: the decoder accepts exactly the encodings and inverts them; it is total on all byte strings. */
  lemma DecodeInvertsEncode(blake3: Blake3, buf: Bytes, c: Container)
    ensures Decode(blake3, buf) == Ok(c) <==> Fits(c) && Encode(blake3, c) == buf
  {
    if Decode(blake3, buf) == Ok(c) {
      var body := buf[..|buf| - FOOTER_LEN];
      HeaderWritesBack(body);
      assert buf == body + buf[|body|..];
    }
    if Fits(c) && Encode(blake3, c) == buf {
      var body := Header(c.innerVersion, |c.payload|) + c.payload;
      HeaderReadsBack(c.innerVersion, c.payload);
      assert buf[..|buf| - FOOTER_LEN] == body && buf[|body|..] == blake3(body);
    }
  }
}
