/** The wire format of a message (libsllpserver/message.c): command codes,
    the one-byte size field and the framing check. A packet is the command
    code, the encoded payload size, then the payload. */
module Codec {
  import opened SllpTypes

  /** `enum command_code`. */
  const CMD_QUERY_STATUS: byte := 0x00
  const CMD_STATUS: byte := 0x01
  const CMD_QUERY_VARS_LIST: byte := 0x02
  const CMD_VARS_LIST: byte := 0x03
  const CMD_QUERY_GROUPS_LIST: byte := 0x04
  const CMD_GROUPS_LIST: byte := 0x05
  const CMD_QUERY_GROUP: byte := 0x06
  const CMD_GROUP: byte := 0x07
  const CMD_QUERY_CURVES_LIST: byte := 0x08
  const CMD_CURVES_LIST: byte := 0x09
  const CMD_READ_VAR: byte := 0x10
  const CMD_VAR_READING: byte := 0x11
  const CMD_READ_GROUP: byte := 0x12
  const CMD_GROUP_READING: byte := 0x13
  const CMD_WRITE_VAR: byte := 0x20
  const CMD_WRITE_GROUP: byte := 0x22
  const CMD_CREATE_GROUP: byte := 0x30
  const CMD_GROUP_CREATED: byte := 0x31
  const CMD_REMOVE_ALL_GROUPS: byte := 0x32
  const CMD_CURVE_TRANSMIT: byte := 0x40
  const CMD_CURVE_BLOCK: byte := 0x41
  const CMD_CURVE_RECALC_CSUM: byte := 0x42
  const CMD_OK: byte := 0xE0
  const CMD_ERR_MALFORMED_MESSAGE: byte := 0xE1
  const CMD_ERR_OP_NOT_SUPPORTED: byte := 0xE2
  const CMD_ERR_INVALID_ID: byte := 0xE3
  const CMD_ERR_INVALID_VALUE: byte := 0xE4
  const CMD_ERR_INVALID_PAYLOAD_SIZE: byte := 0xE5
  const CMD_ERR_READ_ONLY: byte := 0xE6
  const CMD_ERR_INSUFFICIENT_MEMORY: byte := 0xE7
  const CMD_ERR_INTERNAL: byte := 0xE8

  /** Flag byte for a writable variable or group in list answers. */
  const WRITABLE: byte := 0x80
  const READ_ONLY: byte := 0x00

  /** Payload sizes the size field can express: 0..127 stored literally, and
      `128 * k + 130` for k in 0..127. */
  ghost predicate Representable(n: nat)
  {
    n < 0x80 || (130 <= n <= MAX_MESSAGE && (n - 130) % 128 == 0)
  }

  /** `decode_size`: a byte below 0x80 is the size itself; otherwise the low
      seven bits count blocks of 128 above 130. The result is always a
      representable size, so never 128 or 129. */
  function DecodeSize(b: byte): (n: nat)
    ensures Representable(n)
    ensures b < 0x80 <==> n < 0x80
    ensures n <= MAX_MESSAGE
  {
    if b < 0x80 then b else 128 * (b % 0x80) + 130
  }

  /** `encode_size` on a `uint16_t` size, as written: sizes below 0x80 are
      stored literally; any other size `n` gives `ceil((n - 130) / 128)`
      computed in 16-bit arithmetic and truncated to a byte, with no 0x80 flag. */
  function EncodeSize(n: nat): (b: byte)
    requires n < 0x1_0000
    ensures n < 0x80 ==> b == n
    ensures 130 <= n <= MAX_MESSAGE ==> b < 0x80
  {
    if n < 0x80 then n
    else
      var d := (n - 130) % 0x1_0000;
      (d / 128 + (if d % 128 != 0 then 1 else 0)) % 0x100
  }

  /** `is_size_ok`: the packet holds the header and exactly the payload the
      header announces. */
  function IsSizeOk(packetSize: nat, payloadSize: nat): (ok: bool)
    ensures ok <==> packetSize == payloadSize + HEADER_LEN
  {
    if packetSize < HEADER_LEN then false
    else if packetSize - HEADER_LEN != payloadSize then false
    else true
  }

  /** `is_payload_size_equal_to`, without its side effect on the answer:
      the payload has exactly `size` bytes, or at least `size` when
      `atLeast` holds. */
  predicate PayloadSizeOk(payloadSize: nat, size: nat, atLeast: bool)
  {
    if atLeast then payloadSize >= size else payloadSize == size
  }

  /** The bytes sent for an answer: code, encoded size, payload. */
  function Wire(code: byte, payload: seq<byte>): (w: seq<byte>)
    requires |payload| < 0x1_0000
    ensures |w| == |payload| + HEADER_LEN && w[0] == code && w[HEADER_LEN..] == payload
  {
    [code, EncodeSize(|payload|)] + payload
  }

  // ---------------------------------------------------------------------
  // Properties of the size field

  /** Every representable size is the decoding of exactly one byte. */
  lemma DecodeSizeOnto(n: nat)
    requires Representable(n)
    ensures exists b: byte :: DecodeSize(b) == n
  {
    if n < 0x80 {
      assert DecodeSize(n) == n;
    } else {
      var b: byte := 0x80 + (n - 130) / 128;
      assert DecodeSize(b) == n;
    }
  }

  lemma DecodeSizeInjective(a: byte, b: byte)
    requires DecodeSize(a) == DecodeSize(b)
    ensures a == b
  {
  }

  /** The round trip holds on the literal range. */
  lemma RoundTripSmall(n: nat)
    requires n < 0x80
    ensures DecodeSize(EncodeSize(n)) == n
  {
  }

  /** Encoding a decoded byte gives it back below 0x80 and drops the 0x80
      flag above: the large-size flag is never written. */
  lemma EncodeAfterDecode(b: byte)
    ensures b < 0x80 ==> EncodeSize(DecodeSize(b)) == b
    ensures b >= 0x80 ==> EncodeSize(DecodeSize(b)) == b - 0x80
  {
    if b >= 0x80 {
      var d := DecodeSize(b) - 130;
      assert d == 128 * (b - 0x80);
      assert d / 128 == b - 0x80 && d % 128 == 0;
    }
  }

  /** A full curve block answer (16386 payload bytes) is announced as 127
      bytes, and 130 as 0. */
  lemma LargeSizesDoNotRoundTrip()
    ensures EncodeSize(MAX_MESSAGE) == 127 && DecodeSize(EncodeSize(MAX_MESSAGE)) == 127
    ensures EncodeSize(130) == 0 && DecodeSize(EncodeSize(130)) == 0
  {
  }

  /** The unrepresentable sizes 128 and 129 wrap around in 16 bits and are
      encoded as 0. */
  lemma GapSizesEncodeAsZero()
    ensures EncodeSize(128) == 0 && EncodeSize(129) == 0
  {
  }
}
