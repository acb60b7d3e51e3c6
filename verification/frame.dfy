/** The WSJT-X UDP frame decoder run by `listen` in main.go: a datagram is
    a big-endian u32 magic number, a u32 schema, a u32 message type, a
    length-prefixed identifier (skipped) and, for message type 12
    ("Logged ADIF"), a length-prefixed ADIF text that becomes the record.

    Go strings are byte strings; a byte `b` is modelled as the character
    with code point `b`, so a record is a `string` all of whose characters
    are below 256. */
module Frame {
  import opened Common

  /** The WSJT-X magic number. */
  const Magic: int := 0xadbc_cbda
  /** Message type of a "Logged ADIF" message. */
  const LoggedAdif: int := 12
  /** 2^32: Go's `uint32` offsets wrap around modulo this. */
  const Two32: int := 0x1_0000_0000

  /** An octet of a datagram. */
  newtype byte = b: int | 0 <= b < 0x100

  /** The size of the buffer `listen` reads every datagram into. */
  const BufferSize: int := 2048

  /** What one read can deliver: the buffer holds at most `BufferSize` bytes,
      and the excess of a longer datagram is discarded by the read. */
  type Payload = bs: seq<byte> | |bs| <= BufferSize

  /** One result of `ReadFromUDP`: an error, or the bytes received. */
  datatype Datagram = ReadFailed | Received(bytes: Payload)

  /** Go's `binary.BigEndian.Uint32(buf[i:])`. */
  function U32At(buf: seq<byte>, i: nat): (v: int)
    requires i + 4 <= |buf|
    ensures 0 <= v < Two32
  {
    buf[i] as int * 0x100_0000 + buf[i + 1] as int * 0x1_0000
      + buf[i + 2] as int * 0x100 + buf[i + 3] as int
  }

  /** A u32 written big-endian, as the broadcasting program encodes it. */
  function U32Bytes(v: int): (bs: seq<byte>)
    requires 0 <= v < Two32
    ensures |bs| == 4 && U32At(bs, 0) == v
  {
    var hi := v / 0x1_0000;
    var lo := v % 0x1_0000;
    assert hi < 0x1_0000;
    var b0, b1 := hi / 0x100, hi % 0x100;
    var b2, b3 := lo / 0x100, lo % 0x100;
    assert hi == b0 * 0x100 + b1 && lo == b2 * 0x100 + b3;
    [b0 as byte, b1 as byte, b2 as byte, b3 as byte]
  }

  /** All characters fit in one byte. */
  predicate IsByteString(s: string)
  {
    forall i :: 0 <= i < |s| ==> s[i] as int < 0x100
  }

  /** Go's `string(bytes)`. */
  function Text(bs: seq<byte>): (s: string)
    ensures |s| == |bs| && IsByteString(s)
    ensures forall i :: 0 <= i < |bs| ==> s[i] as int == bs[i] as int
  {
    seq(|bs|, i requires 0 <= i < |bs| => (bs[i] as int) as char)
  }

  /** Go's `[]byte(s)` for a byte string. */
  function Bytes(s: string): (bs: seq<byte>)
    requires IsByteString(s)
    ensures Text(bs) == s
  {
    seq(|s|, i requires 0 <= i < |s| => (s[i] as int) as byte)
  }

  /** The identifier length field, read at byte 12. */
  function IdLen(buf: seq<byte>): int
    requires 16 <= |buf|
  {
    U32At(buf, 12)
  }

  /** The frames the decoder accepts, stated on absolute offsets: magic,
      type 12, and both declared lengths inside the datagram. */
  ghost predicate WellFormed(buf: seq<byte>)
  {
    && 20 <= |buf|
    && U32At(buf, 0) == Magic
    && U32At(buf, 8) == LoggedAdif
    && 20 + IdLen(buf) <= |buf|
    && 20 + IdLen(buf) + U32At(buf, 16 + IdLen(buf)) <= |buf|
  }

  /** Decodes one datagram into its ADIF record, failing closed: every read
      the Go code makes must lie inside the datagram, and offsets are
      unbounded integers, so a huge identifier length cannot wrap around. */
  function Decode(buf: seq<byte>): (r: Option<string>)
    ensures |buf| < 4 || U32At(buf, 0) != Magic ==> r == None
    ensures 12 <= |buf| && U32At(buf, 8) != LoggedAdif ==> r == None
    ensures r.Some? <==> WellFormed(buf)
    ensures r.Some? ==>
              var start := 20 + IdLen(buf);
              r.value == Text(buf[start..start + U32At(buf, 16 + IdLen(buf))])
  {
    if |buf| < 12 || U32At(buf, 0) != Magic || U32At(buf, 8) != LoggedAdif then None
    else if |buf| < 16 then None
    else
      var idEnd := 16 + U32At(buf, 12);
      if idEnd + 4 > |buf| then None
      else
        var adifLen := U32At(buf, idEnd);
        var start := idEnd + 4;
        if start + adifLen > |buf| then None
        else Some(Text(buf[start..start + adifLen]))
  }

  /** What `listen` makes of one read: read errors and empty datagrams are
      skipped, anything else goes through the decoder, so a record comes out
      exactly when the bytes read form a well-formed frame. */
  function Accept(d: Datagram): (r: Option<string>)
    ensures d.ReadFailed? ==> r == None
    ensures d.Received? && |d.bytes| == 0 ==> r == None
    ensures r.Some? <==> d.Received? && WellFormed(d.bytes)
    ensures d.Received? && WellFormed(d.bytes) ==> r == Decode(d.bytes)
    ensures r.Some? ==> IsByteString(r.value)
  {
    match d
    case ReadFailed => None
    case Received(bytes) => if |bytes| < 1 then None else Decode(bytes)
  }

  /** The records `listen` forwards for a stream of reads, in order; a
      skipped read does not stop the loop. */
  function Listen(ds: seq<Datagram>): (rs: seq<string>)
    ensures |rs| <= |ds|
    decreases |ds|
  {
    if |ds| == 0 then []
    else
      var rest := Listen(ds[1..]);
      match Accept(ds[0])
      case Some(r) => [r] + rest
      case None => rest
  }

  /** Reads concatenate: the records of two streams of reads are the records
      of each, in order, so an error or a rejected frame never affects the
      frames that follow it. */
  lemma {:induction false} ListenAppend(a: seq<Datagram>, b: seq<Datagram>)
    ensures Listen(a + b) == Listen(a) + Listen(b)
    decreases |a|
  {
    if |a| == 0 {
      assert a + b == b;
    } else {
      assert (a + b)[1..] == a[1..] + b;
      ListenAppend(a[1..], b);
    }
  }

  /** A record is forwarded exactly when some read of the stream is accepted
      with it. */
  lemma {:induction false} ListenAccepted(ds: seq<Datagram>, x: string)
    ensures x in Listen(ds) <==> exists i :: 0 <= i < |ds| && Accept(ds[i]) == Some(x)
    decreases |ds|
  {
    if |ds| > 0 {
      ListenAccepted(ds[1..], x);
      if x in Listen(ds[1..]) {
        var i :| 0 <= i < |ds[1..]| && Accept(ds[1..][i]) == Some(x);
        assert Accept(ds[i + 1]) == Some(x);
      }
      if exists i :: 0 <= i < |ds| && Accept(ds[i]) == Some(x) {
        var i :| 0 <= i < |ds| && Accept(ds[i]) == Some(x);
        if i > 0 {
          assert Accept(ds[1..][i - 1]) == Some(x);
        }
      }
    }
  }

  /** One read yields its accepted record, or nothing; with `ListenAppend`
      this fixes the records of every stream of reads: the accepted records
      of its reads, in read order. */
  lemma ListenOne(d: Datagram)
    ensures Listen([d]) == (if Accept(d).Some? then [Accept(d).value] else [])
  {
    assert [d][1..] == [];
  }

  /** Reading a u32 from the front part of a concatenation. */
  lemma U32AtFront(a: seq<byte>, b: seq<byte>, i: nat)
    requires i + 4 <= |a|
    ensures U32At(a + b, i) == U32At(a, i)
  {
    U32AtSame(a + b, a, i);
  }

  /** Reading a u32 from the back part of a concatenation. */
  lemma U32AtBack(a: seq<byte>, b: seq<byte>, i: nat)
    requires i + 4 <= |b|
    ensures U32At(a + b, |a| + i) == U32At(b, i)
  {
    var ab := a + b;
    assert ab[|a| + i] == b[i] && ab[|a| + i + 1] == b[i + 1];
    assert ab[|a| + i + 2] == b[i + 2] && ab[|a| + i + 3] == b[i + 3];
  }

  /** The fixed 16-byte head of a Logged ADIF frame. */
  function FrameHead(schema: int, idLen: int): (h: seq<byte>)
    requires 0 <= schema < Two32 && 0 <= idLen < Two32
    ensures |h| == 16
    ensures U32At(h, 0) == Magic && U32At(h, 4) == schema
    ensures U32At(h, 8) == LoggedAdif && U32At(h, 12) == idLen
  {
    var m, s, t, n := U32Bytes(Magic), U32Bytes(schema), U32Bytes(LoggedAdif), U32Bytes(idLen);
    U32AtFront(m, s, 0);
    U32AtBack(m, s, 0);
    U32AtFront(m + s, t, 0);
    U32AtFront(m + s, t, 4);
    U32AtBack(m + s, t, 0);
    U32AtFront(m + s + t, n, 0);
    U32AtFront(m + s + t, n, 4);
    U32AtFront(m + s + t, n, 8);
    U32AtBack(m + s + t, n, 0);
    m + s + t + n
  }

  /** A frame as WSJT-X broadcasts a Logged ADIF message. */
  function EncodeFrame(schema: int, id: seq<byte>, adif: string): (f: seq<byte>)
    requires 0 <= schema < Two32 && |id| < Two32 && |adif| < Two32
    requires IsByteString(adif)
    ensures |f| == 20 + |id| + |adif|
  {
    FrameHead(schema, |id|) + id + U32Bytes(|adif|) + Bytes(adif)
  }

  /** Round trip: decoding a broadcast frame returns exactly its ADIF text,
      whatever the schema and the identifier. */
  lemma DecodeEncode(schema: int, id: seq<byte>, adif: string)
    requires 0 <= schema < Two32 && |id| < Two32 && |adif| < Two32
    requires IsByteString(adif)
    ensures Decode(EncodeFrame(schema, id, adif)) == Some(adif)
  {
    var f := EncodeFrame(schema, id, adif);
    var start := 20 + |id|;
    EncodedHead(schema, id, adif);
    EncodedBody(schema, id, adif);
    assert Decode(f) == Some(Text(f[start..start + |adif|]));
  }

  /** The head fields of a broadcast frame read back. */
  lemma EncodedHead(schema: int, id: seq<byte>, adif: string)
    requires 0 <= schema < Two32 && |id| < Two32 && |adif| < Two32
    requires IsByteString(adif)
    ensures var f := EncodeFrame(schema, id, adif);
            U32At(f, 0) == Magic && U32At(f, 8) == LoggedAdif && U32At(f, 12) == |id|
  {
    var h := FrameHead(schema, |id|);
    var rest := id + U32Bytes(|adif|) + Bytes(adif);
    assert EncodeFrame(schema, id, adif) == h + rest;
    U32AtFront(h, rest, 0);
    U32AtFront(h, rest, 8);
    U32AtFront(h, rest, 12);
  }

  /** The ADIF length and text of a broadcast frame read back. */
  lemma EncodedBody(schema: int, id: seq<byte>, adif: string)
    requires 0 <= schema < Two32 && |id| < Two32 && |adif| < Two32
    requires IsByteString(adif)
    ensures var f := EncodeFrame(schema, id, adif);
            U32At(f, 16 + |id|) == |adif| && f[20 + |id|..20 + |id| + |adif|] == Bytes(adif)
  {
    var front := FrameHead(schema, |id|) + id;
    var len := U32Bytes(|adif|);
    var body := Bytes(adif);
    assert EncodeFrame(schema, id, adif) == front + (len + body);
    U32AtBack(front, len + body, 0);
    U32AtFront(len, body, 0);
  }

  /** Reading a u32 only depends on the four bytes read. */
  lemma U32AtSame(a: seq<byte>, b: seq<byte>, i: nat)
    requires i + 4 <= |a| && i + 4 <= |b|
    requires a[i] == b[i] && a[i + 1] == b[i + 1] && a[i + 2] == b[i + 2] && a[i + 3] == b[i + 3]
    ensures U32At(a, i) == U32At(b, i)
  {
  }

  /** Bytes 4..8 (the schema) are never consulted: two datagrams that
      differ only there decode alike. */
  lemma SchemaIgnored(buf: seq<byte>, other: seq<byte>)
    requires |other| == |buf|
    requires forall i :: 0 <= i < |buf| && !(4 <= i < 8) ==> other[i] == buf[i]
    ensures Decode(other) == Decode(buf)
  {
    if 12 <= |buf| {
      U32AtSame(buf, other, 0);
      U32AtSame(buf, other, 8);
    }
    if |buf| < 16 || U32At(buf, 0) != Magic || U32At(buf, 8) != LoggedAdif {
      assert Decode(buf) == None && Decode(other) == None;
    } else {
      U32AtSame(buf, other, 12);
      var idEnd := 16 + IdLen(buf);
      if idEnd + 4 > |buf| {
        assert Decode(buf) == None && Decode(other) == None;
      } else {
        U32AtSame(buf, other, idEnd);
        var start := idEnd + 4;
        var len := U32At(buf, idEnd);
        if start + len > |buf| {
          assert Decode(buf) == None && Decode(other) == None;
        } else {
          assert other[start..start + len] == buf[start..start + len];
          assert Decode(other) == Some(Text(buf[start..start + len]));
        }
      }
    }
  }

  /** The decoder of main.go as written: offsets are `uint32`, so
      `offset += idlen` and `offset + adifLen` wrap around modulo 2^32.
      Like `Decode`, reads past the end of the datagram fail closed. */
  function DecodeAsWritten(buf: seq<byte>): (r: Option<string>)
    ensures r.Some? ==> 16 <= |buf| && U32At(buf, 0) == Magic && U32At(buf, 8) == LoggedAdif
  {
    if |buf| < 12 || U32At(buf, 0) != Magic || U32At(buf, 8) != LoggedAdif then None
    else if |buf| < 16 then None
    else
      var idEnd := (16 + U32At(buf, 12)) % Two32;
      if idEnd + 4 > |buf| then None
      else
        var adifLen := U32At(buf, idEnd);
        var start := (idEnd + 4) % Two32;
        var end := (start + adifLen) % Two32;
        if !(start <= end <= |buf|) then None
        else Some(Text(buf[start..end]))
  }

  /** Whenever the identifier length cannot wrap the offset, the code as
      written and the fail-closed decoder agree. */
  lemma AsWrittenAgreesWithoutWrap(buf: seq<byte>)
    requires |buf| < Two32
    requires 16 <= |buf| ==> IdLen(buf) + 16 < Two32
    ensures DecodeAsWritten(buf) == Decode(buf)
  {
    if 16 <= |buf| && U32At(buf, 0) == Magic && U32At(buf, 8) == LoggedAdif {
      var idEnd := 16 + IdLen(buf);
      NoWrap(idEnd);
      if idEnd + 4 <= |buf| {
        var adifLen := U32At(buf, idEnd);
        var start := idEnd + 4;
        NoWrap(start);
        if start + adifLen <= |buf| {
          NoWrap(start + adifLen);
          assert DecodeAsWritten(buf) == Some(Text(buf[start..start + adifLen]));
        } else if start + adifLen < Two32 {
          NoWrap(start + adifLen);
          assert DecodeAsWritten(buf) == None;
        } else {
          Wrap(start + adifLen);
          assert DecodeAsWritten(buf) == None;
        }
      }
    }
  }

  lemma NoWrap(x: int)
    requires 0 <= x < Two32
    ensures x % Two32 == x
  {
  }

  lemma Wrap(x: int)
    requires Two32 <= x < 2 * Two32
    ensures x % Two32 == x - Two32
  {
  }

  /** A Logged ADIF frame with schema 2 and identifier length 0xFFFFFFF4. */
  function WrappingFrame(): (f: seq<byte>)
    ensures |f| == 20
  {
    [0xad, 0xbc, 0xcb, 0xda, 0, 0, 0, 2, 0, 0, 0, 12, 0xff, 0xff, 0xff, 0xf4, 0, 0, 0, 0]
  }

  /** The wrap-around exhibited: the identifier length moves the offset back
      to byte 4, so the schema field is read as the ADIF length and two
      bytes of the header (the message type's high bytes) are relayed as a
      record, while the fail-closed decoder rejects the frame. */
  lemma WrapRelaysHeaderBytes()
    ensures DecodeAsWritten(WrappingFrame()) == Some(Text([0, 0]))
    ensures Decode(WrappingFrame()) == None
  {
    var f := WrappingFrame();
    assert U32At(f, 0) == Magic && U32At(f, 8) == LoggedAdif;
    assert U32At(f, 12) == 0xFFFF_FFF4;
    Wrap(16 + 0xFFFF_FFF4);
    assert U32At(f, 4) == 2;
    NoWrap(8);
    NoWrap(10);
    assert f[8..10] == [0, 0];
  }
}
