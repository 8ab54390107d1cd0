/** BER framing of the LDAP StartTLS exchange (`starttls.go`): tag-length-value encoding, its reader, and
    taking one message off a connection that delivers bytes in fragments. */
module BerFraming {
  import opened CertTypes

  // ---------------------------------------------------------------------------------------------
  // Encoding
  // ---------------------------------------------------------------------------------------------

  /** `encodeBERTag`: at most two length bytes, so the length is kept modulo 65536. */
  function EncodeTag(tag: Byte, data: Bytes): Bytes {
    var n: nat := |data|;
    if n < 128 then [tag, n] + data
    else if n <= 0xFF then [tag, 0x81, n] + data
    else [tag, 0x82, n / 256 % 256, n % 256] + data
  }

  // ---------------------------------------------------------------------------------------------
  // Reading a length
  // ---------------------------------------------------------------------------------------------

  const HALF := 0x8000_0000_0000_0000

  const WHOLE := 0x1_0000_0000_0000_0000

  /** A 64-bit `int`. */
  function Wrap(x: int): int {
    (x + HALF) % WHOLE - HALF
  }

  lemma WrapIsExact(x: int)
    requires -HALF <= x < HALF
    ensures Wrap(x) == x
  {}

  /** The length the shift-and-or loop accumulates. */
  function Accumulated(octets: Bytes): int {
    if octets == [] then 0
    else
      var last: int := octets[|octets| - 1];
      Wrap(Accumulated(octets[..|octets| - 1]) * 256 + last)
  }

  /** The unsigned number the octets spell. */
  function BigEndian(octets: Bytes): nat {
    if octets == [] then 0
    else
      var last: int := octets[|octets| - 1];
      BigEndian(octets[..|octets| - 1]) * 256 + last
  }

  function Base(n: nat): (r: nat)
    ensures r > 0
  {
    if n == 0 then 1 else 256 * Base(n - 1)
  }

  lemma {:induction false} BigEndianFits(octets: Bytes)
    ensures BigEndian(octets) < Base(|octets|)
  {
    if octets != [] {
      BigEndianFits(octets[..|octets| - 1]);
    }
  }

  lemma {:induction false} BaseGrows(n: nat, m: nat)
    requires n <= m
    ensures Base(n) <= Base(m)
  {
    if n < m {
      BaseGrows(n, m - 1);
    }
  }

  lemma SevenOctets()
    ensures Base(7) == 0x100_0000_0000_0000
  {
    assert Base(3) == 0x100_0000;
    assert Base(5) == 0x100_0000_0000;
  }

  /** Up to seven octets the loop does not overflow. */
  lemma {:induction false} ShortLengthsAreExact(octets: Bytes)
    requires |octets| <= 7
    ensures Accumulated(octets) == BigEndian(octets) < 0x100_0000_0000_0000
  {
    BigEndianFits(octets);
    BaseGrows(|octets|, 7);
    SevenOctets();
    if octets != [] {
      ShortLengthsAreExact(octets[..|octets| - 1]);
      WrapIsExact(BigEndian(octets));
    }
  }

  // ---------------------------------------------------------------------------------------------
  // berContents
  // ---------------------------------------------------------------------------------------------

  /** `Fault` is a slice out of range, which stops the program. */
  datatype Outcome = Contents(bytes: Bytes) | Malformed | Fault

  function ContentsOf(data: Bytes): Outcome {
    if |data| < 2 then Malformed
    else
      var lenByte: int := data[1];
      if lenByte < 128 then
        if 2 + lenByte > |data| then Malformed else Contents(data[2..2 + lenByte])
      else if |data| < 2 + (lenByte - 128) then Malformed
      else
        var start := 2 + (lenByte - 128);
        var end := Wrap(start + Accumulated(data[2..start]));
        if end > |data| then Malformed else if end < start then Fault else Contents(data[start..end])
  }

  method BerContents(data: Bytes) returns (r: Outcome)
    ensures r == ContentsOf(data)
  {
    if |data| < 2 {
      return Malformed;
    }
    var lenByte: int := data[1];
    if lenByte < 128 {
      var end := 2 + lenByte;
      if end > |data| {
        return Malformed;
      }
      return Contents(data[2..end]);
    }
    var numLenBytes := lenByte - 128;
    if |data| < 2 + numLenBytes {
      return Malformed;
    }
    var length := 0;
    for i := 0 to numLenBytes
      invariant length == Accumulated(data[2..2 + i])
    {
      assert data[2..2 + (i + 1)][..i] == data[2..2 + i];
      var octet: int := data[2 + i];
      length := Wrap(length * 256 + octet);
    }
    var start := 2 + numLenBytes;
    var end := Wrap(start + length);
    if end > |data| {
      return Malformed;
    }
    if end < start {
      return Fault;
    }
    return Contents(data[start..end]);
  }

  /** A definite length in at most seven octets is read exactly, and nothing else is in the way. */
  lemma LongFormContents(data: Bytes, n: nat)
    requires 1 <= n <= 7 && |data| >= 2 + n && data[1] == 128 + n
    ensures var end := 2 + n + BigEndian(data[2..2 + n]);
            ContentsOf(data) == if end > |data| then Malformed else Contents(data[2 + n..end])
  {
    ShortLengthsAreExact(data[2..2 + n]);
    WrapIsExact(2 + n + BigEndian(data[2..2 + n]));
  }

  // Where the 64-bit length goes wrong.

  lemma WrapIgnoresWholes(x: int, k: int)
    ensures Wrap(x + k * WHOLE) == Wrap(x)
  {
    var y := x + HALF;
    var q, r := y / WHOLE, y % WHOLE;
    assert y + k * WHOLE == (q + k) * WHOLE + r;
    assert (y + k * WHOLE) % WHOLE == r;
  }

  lemma WrapOfWrapped(a: int, b: int)
    ensures Wrap(Wrap(a) * 256 + b) == Wrap(a * 256 + b)
  {
    var k := (a + HALF) / WHOLE;
    assert Wrap(a) == a - k * WHOLE;
    assert Wrap(a) * 256 + b == a * 256 + b + (-256 * k) * WHOLE;
    WrapIgnoresWholes(a * 256 + b, -256 * k);
  }

  /** However many octets there are, the loop gives the signed reading of the low 64 bits. */
  lemma {:induction false} LengthIsLowBits(octets: Bytes)
    ensures Accumulated(octets) == Wrap(BigEndian(octets))
  {
    if octets == [] {
      WrapIsExact(0);
    } else {
      var last: int := octets[|octets| - 1];
      LengthIsLowBits(octets[..|octets| - 1]);
      WrapOfWrapped(BigEndian(octets[..|octets| - 1]), last);
    }
  }

  lemma SignedReading(x: nat)
    ensures var low := x % WHOLE; Wrap(x) == if low < HALF then low else low - WHOLE
  {
    var k, low := x / WHOLE, x % WHOLE;
    assert x == low + k * WHOLE;
    WrapIgnoresWholes(low, k);
    if low >= HALF {
      WrapIgnoresWholes(low - WHOLE, 1);
      WrapIsExact(low - WHOLE);
    }
  }

  /** Where the contents of a long-form element start. */
  function LongStart(data: Bytes): int
    requires |data| >= 2 && data[1] >= 128
  {
    var lenByte: int := data[1];
    2 + (lenByte - 128)
  }

  /** At least eight length octets are there, and the low 64 bits of their number put the end of the contents
      past the largest 64-bit integer. */
  predicate Overflows(data: Bytes) {
    && |data| >= 2 && data[1] >= 0x88 && LongStart(data) <= |data|
    && BigEndian(data[2..LongStart(data)]) % WHOLE + LongStart(data) >= HALF
  }

  /** The element is there and says that it is empty. */
  predicate DeclaresNothing(data: Bytes) {
    && |data| >= 2
    && (data[1] == 0 || (data[1] >= 128 && LongStart(data) <= |data|
                         && BigEndian(data[2..LongStart(data)]) % WHOLE == 0))
  }

  lemma LongFormOutcome(data: Bytes)
    requires |data| >= 2 && data[1] >= 128 && LongStart(data) <= |data|
    ensures var start, low := LongStart(data), BigEndian(data[2..LongStart(data)]) % WHOLE;
            ContentsOf(data) == if low + start >= HALF then Fault
                                else if start + low > |data| then Malformed
                                else Contents(data[start..start + low])
  {
    var start, octets := LongStart(data), data[2..LongStart(data)];
    var low := BigEndian(octets) % WHOLE;
    LengthIsLowBits(octets);
    SignedReading(BigEndian(octets));
    if low + start < HALF {
      WrapIsExact(start + low);
    } else if low < HALF {
      WrapIgnoresWholes(start + low - WHOLE, 1);
      WrapIsExact(start + low - WHOLE);
    } else {
      WrapIsExact(start + low - WHOLE);
    }
  }

  /** `berContents` slices backwards, and stops the program, exactly when the length overflows. */
  lemma FaultsExactly(data: Bytes)
    ensures ContentsOf(data) == Fault <==> Overflows(data)
  {
    if |data| >= 2 && data[1] >= 128 && LongStart(data) <= |data| {
      LongFormOutcome(data);
      if data[1] < 0x88 {
        ShortLengthsAreExact(data[2..LongStart(data)]);
      }
    }
  }

  lemma EmptyExactly(data: Bytes)
    ensures ContentsOf(data) == Contents([]) <==> DeclaresNothing(data)
  {
    if |data| >= 2 && data[1] >= 128 && LongStart(data) <= |data| {
      LongFormOutcome(data);
    }
  }

  lemma OneOctet(b: Byte)
    ensures BigEndian([b]) == b
  {
    assert [b][..0] == [];
  }

  lemma TwoOctets(a: Byte, b: Byte)
    ensures var high: int := a; BigEndian([a, b]) == high * 256 + b
  {
    assert [a, b][..1] == [a];
    OneOctet(a);
  }

  lemma ShortContents(tag: Byte, data: Bytes, rest: Bytes)
    requires |data| < 128
    ensures ContentsOf(EncodeTag(tag, data) + rest) == Contents(data)
  {
    var all := EncodeTag(tag, data) + rest;
    assert all[1] == |data|;
    assert all[2..2 + |data|] == data;
  }

  lemma OneOctetContents(tag: Byte, data: Bytes, rest: Bytes)
    requires 128 <= |data| <= 0xFF
    ensures ContentsOf(EncodeTag(tag, data) + rest) == Contents(data)
  {
    var all := EncodeTag(tag, data) + rest;
    assert all[1] == 0x81 && all[2..3] == [|data| as Byte];
    OneOctet(|data|);
    LongFormContents(all, 1);
    assert all[3..3 + |data|] == data;
  }

  lemma LowSixteenBits(n: nat)
    ensures n / 256 % 256 * 256 + n % 256 == n % 0x1_0000
  {
    var q, r := n / 0x1_0000, n % 0x1_0000;
    assert n == q * 0x1_0000 + r;
    assert n / 256 == q * 256 + r / 256 && n % 256 == r % 256;
  }

  lemma TwoOctetLength(tag: Byte, data: Bytes, rest: Bytes)
    requires |data| > 0xFF
    ensures var all := EncodeTag(tag, data) + rest;
            |all| >= 4 + |data| && all[1] == 0x82 && BigEndian(all[2..4]) == |data| % 0x1_0000
            && all[4..4 + |data|] == data
  {
    var all := EncodeTag(tag, data) + rest;
    assert all[2..4] == [|data| / 256 % 256, |data| % 256];
    TwoOctets(|data| / 256 % 256, |data| % 256);
    LowSixteenBits(|data|);
  }

  lemma TwoOctetContents(tag: Byte, data: Bytes, rest: Bytes)
    requires |data| > 0xFF
    ensures ContentsOf(EncodeTag(tag, data) + rest) == Contents(data[..|data| % 0x1_0000])
  {
    var all := EncodeTag(tag, data) + rest;
    var m := |data| % 0x1_0000;
    TwoOctetLength(tag, data, rest);
    LongFormContents(all, 2);
    assert m <= |data|;
    assert all[4..4 + m] == all[4..4 + |data|][..m];
  }

  /** Reading what was encoded gives the first |data| mod 65536 bytes, whatever follows. */
  lemma ContentsOfEncoded(tag: Byte, data: Bytes, rest: Bytes)
    ensures ContentsOf(EncodeTag(tag, data) + rest) == Contents(data[..|data| % 0x1_0000])
  {
    if |data| > 0xFF {
      TwoOctetContents(tag, data, rest);
    } else {
      assert data[..|data| % 0x1_0000] == data;
      if |data| < 128 {
        ShortContents(tag, data, rest);
      } else {
        OneOctetContents(tag, data, rest);
      }
    }
  }

  /** So reading undoes encoding exactly for payloads of at most 65535 bytes (section 8.1.3 of ITU-T X.690). */
  lemma ContentsUndoEncode(tag: Byte, data: Bytes, rest: Bytes)
    ensures ContentsOf(EncodeTag(tag, data) + rest) == Contents(data) <==> |data| <= 65535
  {
    ContentsOfEncoded(tag, data, rest);
    if |data| <= 65535 {
      assert data[..|data| % 0x1_0000] == data;
    } else {
      assert |data[..|data| % 0x1_0000]| < |data|;
    }
  }

  // ---------------------------------------------------------------------------------------------
  // One message off the connection
  // ---------------------------------------------------------------------------------------------

  function Flatten(chunks: seq<Bytes>): Bytes {
    if chunks == [] then [] else chunks[0] + Flatten(chunks[1..])
  }

  /** A connection: the fragments still to be delivered. */
  class Conn {
    var chunks: seq<Bytes>

    constructor (chunks: seq<Bytes>)
      ensures this.chunks == chunks
    {
      this.chunks := chunks;
    }

    ghost function Stream(): Bytes
      reads this
    {
      Flatten(chunks)
    }

    /** One `Read`: up to `limit` bytes of the first fragment; nothing at the end of the stream. */
    method Read(limit: nat) returns (bytes: Bytes)
      requires limit > 0
      modifies this
      ensures bytes + Stream() == old(Stream()) && |bytes| <= limit
      ensures bytes == [] ==> |chunks| < |old(chunks)| || old(chunks) == []
    {
      if chunks == [] {
        return [];
      }
      var first := chunks[0];
      if |first| <= limit {
        bytes := first;
        chunks := chunks[1..];
      } else {
        bytes := first[..limit];
        chunks := [first[limit..]] + chunks[1..];
        assert chunks[1..] == old(chunks)[1..];
        assert first[..limit] + (first[limit..] + Flatten(chunks[1..])) == first + Flatten(chunks[1..]);
      }
    }

    /** `io.ReadFull`: reads until `n` bytes are there, or fails having consumed what there was. */
    method ReadFull(n: nat) returns (ok: bool, bytes: Bytes)
      modifies this
      ensures ok == (|old(Stream())| >= n)
      ensures ok ==> bytes == old(Stream())[..n] && Stream() == old(Stream())[n..]
      ensures !ok ==> Stream() == []
    {
      bytes := [];
      while |bytes| < n && chunks != []
        invariant bytes + Stream() == old(Stream()) && |bytes| <= n
        decreases n - |bytes|, |chunks|
      {
        ghost var before, rest := bytes, Stream();
        var more := Read(n - |bytes|);
        assert before + (more + Stream()) == before + more + Stream();
        bytes := bytes + more;
      }
      ok := |bytes| == n;
    }
  }

  /** The length of the message at the front of a stream, `None` while the stream is too short to tell or
      when the length has no octets or more than four. */
  function MessageLength(stream: Bytes): Option<nat> {
    if |stream| < 2 then None
    else
      var lenByte: int := stream[1];
      if lenByte < 128 then Some(2 + lenByte)
      else
        var n := lenByte - 128;
        if n == 0 || n > 4 || |stream| < 2 + n then None else Some(2 + n + BigEndian(stream[2..2 + n]))
  }

  /** A whole message is there to be read. */
  predicate HasMessage(stream: Bytes) {
    MessageLength(stream).Some? && MessageLength(stream).value <= |stream|
  }

  method DecodeLength(lenOctets: Bytes) returns (length: nat)
    requires |lenOctets| <= 4
    ensures length == BigEndian(lenOctets)
  {
    var acc := 0;
    for i := 0 to |lenOctets|
      invariant acc == Accumulated(lenOctets[..i])
    {
      assert lenOctets[..i + 1][..i] == lenOctets[..i];
      var octet: int := lenOctets[i];
      acc := Wrap(acc * 256 + octet);
    }
    assert lenOctets[..|lenOctets|] == lenOctets;
    ShortLengthsAreExact(lenOctets);
    length := acc;
  }

  lemma ThreeParts(stream: Bytes, n: nat, length: nat)
    requires 2 + n + length <= |stream|
    ensures stream[..2] + stream[2..][..n] + stream[2..][n..][..length] == stream[..2 + n + length]
    ensures stream[2..][n..][length..] == stream[2 + n + length..] && stream[2..][..n] == stream[2..2 + n]
  {}

  /** `readLDAPMessage`. */
  method ReadLDAPMessage(conn: Conn) returns (msg: Option<Bytes>)
    modifies conn
    ensures msg.Some? <==> HasMessage(old(conn.Stream()))
    ensures msg.Some? ==> var n := MessageLength(old(conn.Stream())).value;
                          msg.value == old(conn.Stream())[..n] && conn.Stream() == old(conn.Stream())[n..]
  {
    ghost var stream := conn.Stream();
    var ok, header := conn.ReadFull(2);
    if !ok {
      return None;
    }
    var lenByte: int := header[1];
    if lenByte < 128 {
      var okBody, body := conn.ReadFull(lenByte);
      if !okBody {
        return None;
      }
      assert stream[..2] + stream[2..][..lenByte] == stream[..2 + lenByte];
      return Some(header + body);
    }
    var numLenBytes := lenByte - 128;
    if numLenBytes == 0 || numLenBytes > 4 {
      return None;
    }
    var okLen, lenOctets := conn.ReadFull(numLenBytes);
    if !okLen {
      return None;
    }
    assert lenOctets == stream[2..2 + numLenBytes];
    var length := DecodeLength(lenOctets);
    assert MessageLength(stream) == Some(2 + numLenBytes + length);
    var okRest, rest := conn.ReadFull(length);
    if !okRest {
      return None;
    }
    ThreeParts(stream, numLenBytes, length);
    return Some(header + lenOctets + rest);
  }

  /** What is read is exactly one element: its contents are everything after its own length. */
  lemma MessageIsWhole(stream: Bytes)
    requires HasMessage(stream)
    ensures var msg := stream[..MessageLength(stream).value];
            var start := if stream[1] < 128 then 2 else 2 + (stream[1] - 128);
            start <= |msg| && ContentsOf(msg) == Contents(msg[start..])
  {
    var total := MessageLength(stream).value;
    var msg := stream[..total];
    if stream[1] < 128 {
      assert msg[2..total] == msg[2..];
    } else {
      var n: nat := stream[1] - 128;
      assert msg[2..2 + n] == stream[2..2 + n];
      LongFormContents(msg, n);
    }
  }

  /** An encoded element in front of any stream is the message read: the element is taken whole, the rest
      is left, and reading its contents gives the payload. */
  lemma EncodedIsTaken(tag: Byte, data: Bytes, rest: Bytes)
    requires |data| <= 65535
    ensures var msg := EncodeTag(tag, data);
            && HasMessage(msg + rest) && MessageLength(msg + rest) == Some(|msg|)
            && (msg + rest)[..|msg|] == msg && (msg + rest)[|msg|..] == rest
            && ContentsOf(msg) == Contents(data)
  {
    var msg := EncodeTag(tag, data);
    var n := |data|;
    ContentsUndoEncode(tag, data, []);
    assert msg + [] == msg;
    if 128 <= n <= 0xFF {
      assert (msg + rest)[2..3] == [n as Byte];
      OneOctet(n);
    } else if n > 0xFF {
      TwoOctetLength(tag, data, rest);
    }
  }

  // ---------------------------------------------------------------------------------------------
  // The StartTLS response
  // ---------------------------------------------------------------------------------------------

  datatype Response = Code(code: Byte) | Unreadable | Crash

  /** The result code in an ExtendedResponse: its contents must start with a one-byte ENUMERATED. The error
      text quotes the first byte, which an empty element does not have. */
  function ResultCode(response: Outcome): Response {
    match response
    case Malformed => Unreadable
    case Fault => Crash
    case Contents(ext) =>
      if |ext| == 0 then Crash
      else if |ext| < 2 || ext[0] != 0x0A then Unreadable
      else if ext[1] != 1 || |ext| < 3 then Unreadable
      else Code(ext[2])
  }

  /** The protocol operation after the message ID. */
  function OperationCode(op: Bytes): Response {
    if |op| == 0 then Crash
    else if |op| < 2 || op[0] != 0x78 then Unreadable
    else ResultCode(ContentsOf(op))
  }

  /** `parseLDAPExtendedResponse`. */
  function ParseResponse(data: Bytes): Response {
    if |data| < 2 || data[0] != 0x30 then Unreadable
    else
      match ContentsOf(data)
      case Malformed => Unreadable
      case Fault => Crash
      case Contents(inner) =>
        if |inner| < 2 || inner[0] != 0x02 then Unreadable
        else
          var idLen: int := inner[1];
          if |inner| < 2 + idLen then Unreadable else OperationCode(inner[2 + idLen..])
  }

  /** An LDAPMessage of section 4.1.1 of RFC 4511 holding an ExtendedResponse: message ID, result code and
      whatever fields follow it. */
  function ResponseMessage(id: Bytes, code: Byte, fields: Bytes): Bytes {
    EncodeTag(0x30, EncodeTag(0x02, id) + EncodeTag(0x78, [0x0A, 1, code] + fields))
  }

  lemma OperationReads(code: Byte, fields: Bytes)
    requires |fields| + 3 <= 65535
    ensures OperationCode(EncodeTag(0x78, [0x0A, 1, code] + fields)) == Code(code)
  {
    var op := EncodeTag(0x78, [0x0A, 1, code] + fields);
    ContentsUndoEncode(0x78, [0x0A, 1, code] + fields, []);
    assert op + [] == op;
  }

  /** Reading a response off any stream finds its result code, whatever follows on the connection. */
  lemma ResponseIsRead(id: Bytes, code: Byte, fields: Bytes, rest: Bytes)
    requires |id| < 128 && |EncodeTag(0x02, id) + EncodeTag(0x78, [0x0A, 1, code] + fields)| <= 65535
    ensures var stream := ResponseMessage(id, code, fields) + rest;
            HasMessage(stream) && ParseResponse(stream[..MessageLength(stream).value]) == Code(code)
  {
    var op := EncodeTag(0x78, [0x0A, 1, code] + fields);
    var inner := EncodeTag(0x02, id) + op;
    EncodedIsTaken(0x30, inner, rest);
    assert inner[1] == |id| && inner[2 + |id|..] == op;
    OperationReads(code, fields);
  }

  // ---------------------------------------------------------------------------------------------
  // Answers that stop the program
  // ---------------------------------------------------------------------------------------------

  /** The operations whose reading stops the program: none at all, or an ExtendedResponse that is empty or whose
      length overflows. */
  predicate CrashingOperation(op: Bytes) {
    op == [] || (|op| >= 2 && op[0] == 0x78 && (DeclaresNothing(op) || Overflows(op)))
  }

  lemma OperationCrashesExactly(op: Bytes)
    ensures OperationCode(op) == Crash <==> CrashingOperation(op)
  {
    FaultsExactly(op);
    EmptyExactly(op);
  }

  /** The contents hold a whole message ID, and what follows it stops the program. */
  predicate CrashingContents(inner: Bytes) {
    && |inner| >= 2 && inner[0] == 0x02
    && var afterId: int := inner[1];
       2 + afterId <= |inner| && CrashingOperation(inner[2 + afterId..])
  }

  /** Parsing stops the program exactly on these bytes. */
  lemma ParseCrashesExactly(data: Bytes)
    ensures ParseResponse(data) == Crash <==>
              |data| >= 2 && data[0] == 0x30
              && (Overflows(data) || (ContentsOf(data).Contents? && CrashingContents(ContentsOf(data).bytes)))
  {
    FaultsExactly(data);
    if ContentsOf(data).Contents? {
      var inner := ContentsOf(data).bytes;
      if |inner| >= 2 {
        var afterId: int := inner[1];
        if 2 + afterId <= |inner| {
          OperationCrashesExactly(inner[2 + afterId..]);
        }
      }
    }
  }

  function HeaderLength(msg: Bytes): int
    requires |msg| >= 2
  {
    if msg[1] < 128 then 2 else LongStart(msg)
  }

  /** For a message read off the connection: it is a SEQUENCE, and after its own length come a message ID and
      an operation that stops the program. The message's own length never does. */
  predicate CrashingMessage(msg: Bytes) {
    |msg| >= 2 && msg[0] == 0x30 && HeaderLength(msg) <= |msg| && CrashingContents(msg[HeaderLength(msg)..])
  }

  lemma MessageCrashesExactly(stream: Bytes)
    requires HasMessage(stream)
    ensures var msg := stream[..MessageLength(stream).value];
            ParseResponse(msg) == Crash <==> CrashingMessage(msg)
  {
    var msg := stream[..MessageLength(stream).value];
    MessageIsWhole(stream);
    ParseCrashesExactly(msg);
  }

  /** Two such answers: a message ID and nothing else, and an ExtendedResponse without contents. */
  lemma EmptyAnswersCrash()
    ensures HasMessage([0x30, 3, 2, 1, 1]) && MessageLength([0x30, 3, 2, 1, 1]) == Some(5)
    ensures ParseResponse([0x30, 3, 2, 1, 1]) == Crash
    ensures HasMessage([0x30, 5, 2, 1, 1, 0x78, 0]) && MessageLength([0x30, 5, 2, 1, 1, 0x78, 0]) == Some(7)
    ensures ParseResponse([0x30, 5, 2, 1, 1, 0x78, 0]) == Crash
  {
    var bare: Bytes, empty: Bytes := [0x30, 3, 2, 1, 1], [0x30, 5, 2, 1, 1, 0x78, 0];
    assert bare[2..5] == [2, 1, 1] && [2, 1, 1][3..] == [];
    assert empty[2..7] == [2, 1, 1, 0x78, 0] && [2, 1, 1, 0x78, 0][3..] == [0x78, 0];
    assert CrashingOperation([]) && CrashingOperation([0x78, 0]);
    ParseCrashesExactly(bare);
    ParseCrashesExactly(empty);
  }

  /** And one that makes the slice go backwards: eight length octets that spell 2^63. */
  lemma LongLengthFaults()
    ensures ContentsOf([0x78, 0x88, 0x80, 0, 0, 0, 0, 0, 0, 0]) == Fault
  {
    var data: Bytes := [0x78, 0x88, 0x80, 0, 0, 0, 0, 0, 0, 0];
    assert data[2..10] == [0x80, 0, 0, 0, 0, 0, 0, 0];
    var zero: Bytes := [0];
    var octets: Bytes, value := [0x80], 0x80;
    assert BigEndian(octets) == value by { assert octets[..0] == []; }
    for k := 1 to 8
      invariant octets == data[2..2 + k] && BigEndian(octets) == value && value == 0x80 * Base(k - 1)
    {
      ZeroAppended(octets);
      assert data[2..3 + k] == octets + zero;
      octets, value := octets + zero, value * 256;
    }
    assert Base(7) == 0x100_0000_0000_0000;
    FaultsExactly(data);
  }

  lemma ZeroAppended(octets: Bytes)
    ensures BigEndian(octets + [0]) == BigEndian(octets) * 256
  {
    assert (octets + [0])[..|octets|] == octets;
  }

  datatype Upgrade = Negotiated | Refused | Crashed

  /** `starttlsLDAP` after its request. It negotiates exactly when one whole message is there and its result
      code is 0; it stops the program exactly when that message is one of the crashing ones. */
  method FinishLDAP(conn: Conn) returns (upgrade: Upgrade)
    modifies conn
    ensures var stream := old(conn.Stream());
            && (upgrade == Negotiated <==>
                  HasMessage(stream) && ParseResponse(stream[..MessageLength(stream).value]) == Code(0))
            && (upgrade == Crashed <==>
                  HasMessage(stream) && CrashingMessage(stream[..MessageLength(stream).value]))
  {
    ghost var stream := conn.Stream();
    var msg := ReadLDAPMessage(conn);
    if msg == None {
      return Refused;
    }
    MessageCrashesExactly(stream);
    match ParseResponse(msg.value)
    case Crash => return Crashed;
    case Unreadable => return Refused;
    case Code(code) => return if code == 0 then Negotiated else Refused;
  }
}
