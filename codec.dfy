/**
 * The record codec of the store: one record on disk is the frame
 *
 *   [timestamp:4][keySize:4][valueSize:4][key bytes][value bytes]
 *
 * with the three header integers written as unsigned 32-bit little-endian
 * numbers. Keys and values are arbitrary byte strings (empty allowed).
 */
module Codec {

  /** A byte of the data file. */
  type byte = b: nat | b < 0x100

  /** An unsigned 32-bit integer, as the store's timestamps, sizes and offsets are. */
  type u32 = n: nat | n < 0x1_0000_0000

  /** 2^32: every u32 is below it. */
  const U32Limit: nat := 0x1_0000_0000

  /** Length of the fixed record header: three 4-byte integers. */
  const HeaderSize: nat := 12

  datatype Option<T> = None | Some(value: T)

  /** The decoded fixed-size header of a record. */
  datatype Header = Header(timestamp: u32, keySize: u32, valueSize: u32)

  /** The logical content of one record frame. */
  datatype Record = Record(timestamp: u32, key: seq<byte>, value: seq<byte>)

  /** Number of bytes the frame of a record with this key and value occupies. */
  function FrameSize(key: seq<byte>, value: seq<byte>): nat
  {
    HeaderSize + |key| + |value|
  }

  /** The `width` low-order bytes of `n`, least significant first. */
  function EncodeLE(n: nat, width: nat): (b: seq<byte>)
    ensures |b| == width
  {
    if width == 0 then [] else [n % 0x100] + EncodeLE(n / 0x100, width - 1)
  }

  /** Little-endian encoding of a 32-bit unsigned integer. */
  function EncodeU32(n: u32): (b: seq<byte>)
    ensures |b| == 4
  {
    EncodeLE(n, 4)
  }

  lemma EncodeLEFour(n: nat)
    ensures EncodeLE(n, 4)
         == [n % 0x100, (n / 0x100) % 0x100, (n / 0x100 / 0x100) % 0x100, (n / 0x100 / 0x100 / 0x100) % 0x100]
  {
    var n1 := n / 0x100;
    var n2 := n1 / 0x100;
    var n3 := n2 / 0x100;
    assert EncodeLE(n3, 1) == [n3 % 0x100] + EncodeLE(n3 / 0x100, 0);
    assert EncodeLE(n2, 2) == [n2 % 0x100] + EncodeLE(n3, 1);
    assert EncodeLE(n1, 3) == [n1 % 0x100] + EncodeLE(n2, 2);
  }

  /** Little-endian value of a byte string: the first byte is the least significant. */
  function DecodeLE(b: seq<byte>): nat
  {
    if b == [] then 0 else b[0] as nat + 0x100 * DecodeLE(b[1..])
  }

  lemma DecodeLEFour(b: seq<byte>)
    requires |b| == 4
    ensures DecodeLE(b) == b[0] as nat + 0x100 * (b[1] as nat + 0x100 * (b[2] as nat + 0x100 * b[3] as nat))
  {
    assert DecodeLE(b[3..]) == b[3] as nat + 0x100 * DecodeLE(b[4..]);
    assert DecodeLE(b[2..]) == b[2] as nat + 0x100 * DecodeLE(b[2..][1..]);
    assert b[2..][1..] == b[3..];
    assert DecodeLE(b[1..]) == b[1] as nat + 0x100 * DecodeLE(b[1..][1..]);
    assert b[1..][1..] == b[2..];
  }

  /** Little-endian decoding of four bytes into a 32-bit unsigned integer. */
  function DecodeU32(b: seq<byte>): (n: u32)
    requires |b| == 4
  {
    DecodeLEFour(b);
    DecodeLE(b)
  }

  lemma DecodeEncodeU32(n: u32)
    ensures DecodeU32(EncodeU32(n)) == n
  {
    var n1 := n / 0x100;
    var n2 := n1 / 0x100;
    EncodeLEFour(n);
    DecodeLEFour(EncodeU32(n));
    assert n == n % 0x100 + 0x100 * n1;
    assert n1 == n1 % 0x100 + 0x100 * n2;
    assert n2 == n2 % 0x100 + 0x100 * (n2 / 0x100);
  }

  lemma EncodeDecodeU32(b: seq<byte>)
    requires |b| == 4
    ensures EncodeU32(DecodeU32(b)) == b
  {
    DecodeLEFour(b);
    EncodeLEFour(DecodeU32(b));
    var n := DecodeU32(b);
    var n1: nat := b[1] as nat + 0x100 * (b[2] as nat + 0x100 * b[3] as nat);
    var n2: nat := b[2] as nat + 0x100 * b[3] as nat;
    assert n / 0x100 == n1 && n % 0x100 == b[0];
    assert n1 / 0x100 == n2 && n1 % 0x100 == b[1];
    assert n2 / 0x100 == b[3] && n2 % 0x100 == b[2];
  }

  function EncodeHeader(h: Header): (b: seq<byte>)
    ensures |b| == HeaderSize
  {
    EncodeU32(h.timestamp) + EncodeU32(h.keySize) + EncodeU32(h.valueSize)
  }

  /** Parses the three header integers from the first HeaderSize bytes; fails on a shorter input. */
  function DecodeHeader(b: seq<byte>): (r: Option<Header>)
    ensures r.Some? <==> |b| >= HeaderSize
  {
    if |b| < HeaderSize then None
    else Some(Header(DecodeU32(b[0..4]), DecodeU32(b[4..8]), DecodeU32(b[8..12])))
  }

  /** Whatever the header parse accepts re-encodes to the bytes it read. */
  lemma EncodeDecodeHeader(b: seq<byte>)
    requires |b| >= HeaderSize
    ensures EncodeHeader(DecodeHeader(b).value) == b[..HeaderSize]
  {
    EncodeDecodeU32(b[0..4]);
    EncodeDecodeU32(b[4..8]);
    EncodeDecodeU32(b[8..12]);
    assert b[..HeaderSize] == b[0..4] + b[4..8] + b[8..12];
  }

  lemma DecodeEncodeHeader(h: Header, rest: seq<byte>)
    ensures DecodeHeader(EncodeHeader(h) + rest) == Some(h)
  {
    var b := EncodeHeader(h) + rest;
    assert b[0..4] == EncodeU32(h.timestamp);
    assert b[4..8] == EncodeU32(h.keySize);
    assert b[8..12] == EncodeU32(h.valueSize);
    DecodeEncodeU32(h.timestamp);
    DecodeEncodeU32(h.keySize);
    DecodeEncodeU32(h.valueSize);
  }

  /** The header parse looks only at the first HeaderSize bytes. */
  lemma DecodeHeaderPrefix(b: seq<byte>, c: seq<byte>)
    requires |b| >= HeaderSize && |c| >= HeaderSize
    requires b[..HeaderSize] == c[..HeaderSize]
    ensures DecodeHeader(b) == DecodeHeader(c)
  {
    assert b[0..4] == b[..HeaderSize][0..4] == c[0..4];
    assert b[4..8] == b[..HeaderSize][4..8] == c[4..8];
    assert b[8..12] == b[..HeaderSize][8..12] == c[8..12];
  }

  /** encodeKV: the frame of a record, header first, then key, then value. */
  function EncodeKV(timestamp: u32, key: seq<byte>, value: seq<byte>): (frame: seq<byte>)
    requires |key| < U32Limit && |value| < U32Limit
    ensures |frame| == FrameSize(key, value)
  {
    EncodeHeader(Header(timestamp, |key|, |value|)) + key + value
  }

  /**
   * decodeKV: splits a frame back into timestamp, key and value using the sizes
   * in its header. Fails when the input is shorter than the header or than the
   * sizes the header declares; bytes after the declared frame are ignored.
   */
  function DecodeKV(frame: seq<byte>): (r: Option<Record>)
    ensures r.Some? ==> FrameSize(r.value.key, r.value.value) <= |frame|
    ensures r.Some? ==> |r.value.key| < U32Limit && |r.value.value| < U32Limit
  {
    match DecodeHeader(frame)
    case None => None
    case Some(h) =>
      if |frame| < HeaderSize + h.keySize + h.valueSize then None
      else
        var keyEnd := HeaderSize + h.keySize;
        Some(Record(h.timestamp, frame[HeaderSize..keyEnd], frame[keyEnd..keyEnd + h.valueSize]))
  }

  /** Decoding an encoded frame gives back exactly the timestamp, key and value. */
  lemma DecodeEncodeKV(timestamp: u32, key: seq<byte>, value: seq<byte>)
    requires |key| < U32Limit && |value| < U32Limit
    ensures DecodeKV(EncodeKV(timestamp, key, value)) == Some(Record(timestamp, key, value))
  {
    var h := Header(timestamp, |key|, |value|);
    var frame := EncodeKV(timestamp, key, value);
    assert frame == EncodeHeader(h) + (key + value);
    DecodeEncodeHeader(h, key + value);
    assert frame[HeaderSize..HeaderSize + |key|] == key;
    assert frame[HeaderSize + |key|..HeaderSize + |key| + |value|] == value;
  }

  /** Whatever decodes is the encoding of what it decodes to, followed by the ignored rest. */
  lemma EncodeDecodeKV(frame: seq<byte>)
    requires DecodeKV(frame).Some?
    ensures var r := DecodeKV(frame).value;
      EncodeKV(r.timestamp, r.key, r.value) == frame[..FrameSize(r.key, r.value)]
  {
    var r := DecodeKV(frame).value;
    var h := DecodeHeader(frame).value;
    assert h == Header(r.timestamp, |r.key|, |r.value|);
    var n := FrameSize(r.key, r.value);
    EncodeDecodeHeader(frame);
    assert frame[..n] == frame[..HeaderSize] + r.key + r.value;
  }

  /** Decoding depends only on the bytes of the frame it finds. */
  lemma DecodeKVPrefix(frame: seq<byte>, other: seq<byte>)
    requires DecodeKV(frame).Some?
    requires var r := DecodeKV(frame).value;
      var n := FrameSize(r.key, r.value);
      |other| >= n && other[..n] == frame[..n]
    ensures DecodeKV(other) == DecodeKV(frame)
  {
    var r := DecodeKV(frame).value;
    var n := FrameSize(r.key, r.value);
    assert other[..HeaderSize] == other[..n][..HeaderSize];
    assert frame[..HeaderSize] == frame[..n][..HeaderSize];
    DecodeHeaderPrefix(frame, other);
    var keyEnd := HeaderSize + |r.key|;
    assert other[HeaderSize..keyEnd] == other[..n][HeaderSize..keyEnd];
    assert frame[HeaderSize..keyEnd] == frame[..n][HeaderSize..keyEnd];
    assert other[keyEnd..n] == other[..n][keyEnd..n];
    assert frame[keyEnd..n] == frame[..n][keyEnd..n];
  }

  /**
   * A strict prefix of a frame (an append cut short) never decodes: either the
   * header is incomplete or the sizes it declares run past the end.
   */
  lemma TornFrameFails(timestamp: u32, key: seq<byte>, value: seq<byte>, cut: nat)
    requires |key| < U32Limit && |value| < U32Limit
    requires cut < FrameSize(key, value)
    ensures DecodeKV(EncodeKV(timestamp, key, value)[..cut]) == None
  {
    var frame := EncodeKV(timestamp, key, value);
    if cut >= HeaderSize {
      var h := Header(timestamp, |key|, |value|);
      DecodeEncodeHeader(h, key + value);
      assert frame == EncodeHeader(h) + (key + value);
      DecodeHeaderPrefix(frame, frame[..cut]);
    }
  }
}
