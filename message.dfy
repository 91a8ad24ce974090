/** The message record the relay hands to the transport (message_t), seen
    the way ohc.c uses it: a union of raw bytes. The declaration of message_t
    lives in message.h, which is not part of this model, so the byte offsets
    of the fields the dispatcher writes, the size of the record and of its
    crc, and the type tags are parameters gathered in a Layout. */
module Message {
  import opened Bytes
  import Receive

  /** The bytes of a frame that follow the sentinel and the type byte start
      at this index; every relay behaviour reads its payload from there. */
  const PayloadAt: nat := 2

  /** Where the fields of message_t sit in its raw bytes. Every field the
      dispatcher writes one value to is one byte wide; the boot-page data
      words take 6 bytes and the GPS fragment 7. The crc is the last field,
      since FORWARDMSG copies exactly the bytes before it. */
  datatype Layout = Layout(
    size: nat,            // sizeof(message_t)
    crcSize: nat,         // sizeof(msg.crc)
    typeAt: nat,          // msg.type
    pageAddressAt: nat,   // msg.bootmsg.page_address
    bootUnusedAt: nat,    // msg.bootmsg.unused
    pageOffsetAt: nat,    // msg.bootmsg.page_offset
    wordsAt: nat,         // msg.bootmsg.word1, the first of 6 data bytes
    gpsAt: nat,           // msg.gpsmsg, its id byte first, 7 bytes
    gpsUnusedAt: nat,     // msg.gpsmsg.unused
    bootPgmPage: byte,    // BOOTPGM_PAGE
    gps: byte)            // GPS
  {
    /** Offset of the crc field: the record ends with it. */
    function CrcAt(): nat
      requires crcSize <= size
    {
      size - crcSize
    }

    /** The layout a C compiler could give message_t: all fields before the
        crc, the boot-page fields pairwise apart, the GPS fields pairwise
        apart, and the record small enough to be read out of a frame
        payload (FORWARDRAWMSG reads sizeof(message_t) bytes from index 2
        of the 132-byte frame). */
    predicate Valid()
    {
      && crcSize <= size
      && PayloadAt + size <= Receive.PacketSize
      && typeAt < CrcAt() && pageAddressAt < CrcAt() && bootUnusedAt < CrcAt()
      && pageOffsetAt < CrcAt() && wordsAt + 6 <= CrcAt()
      && gpsAt + 7 <= CrcAt() && gpsUnusedAt < CrcAt()
      && typeAt != pageAddressAt && typeAt != bootUnusedAt && typeAt != pageOffsetAt
      && pageAddressAt != bootUnusedAt && pageAddressAt != pageOffsetAt
      && bootUnusedAt != pageOffsetAt
      && !(wordsAt <= typeAt < wordsAt + 6) && !(wordsAt <= pageAddressAt < wordsAt + 6)
      && !(wordsAt <= bootUnusedAt < wordsAt + 6) && !(wordsAt <= pageOffsetAt < wordsAt + 6)
      && typeAt != gpsUnusedAt
      && !(gpsAt <= typeAt < gpsAt + 7) && !(gpsAt <= gpsUnusedAt < gpsAt + 7)
    }
  }

  /** memcpy(s + at, src + from, n) on the record `s`, one byte at a time. */
  function Copy(s: seq<byte>, at: nat, src: seq<byte>, from: nat, n: nat): (r: seq<byte>)
    requires at + n <= |s| && from + n <= |src|
    ensures |r| == |s|
    ensures forall i :: at <= i < at + n ==> r[i] == src[i - at + from]
    ensures forall i :: 0 <= i < |s| && !(at <= i < at + n) ==> r[i] == s[i]
    decreases |src| - from
  {
    if n == 0 then s else Copy(s[at := src[from]], at + 1, src, from + 1, n - 1)
  }

  /** message_crc, an opaque function of the bytes the crc protects (all
      bytes before the crc field), producing exactly a crc field's worth of
      bytes. */
  datatype Crc = Crc(layout: Layout, of: seq<byte> -> seq<byte>)
  {
    ghost predicate Valid()
    {
      && layout.Valid()
      && forall body: seq<byte> :: |of(body)| == layout.crcSize
    }

    /** The crc field of a message carries the crc of the bytes before it. */
    predicate Sealed(m: seq<byte>)
      requires Valid()
    {
      |m| == layout.size && m[layout.CrcAt()..] == of(m[..layout.CrcAt()])
    }

    /** `msg.crc = message_crc(&msg);` */
    function Seal(m: seq<byte>): (r: seq<byte>)
      requires Valid() && |m| == layout.size
      ensures Sealed(r)
      ensures forall j :: 0 <= j < layout.CrcAt() ==> r[j] == m[j]
    {
      var crc := of(m[..layout.CrcAt()]);
      var r := Copy(m, layout.CrcAt(), crc, 0, layout.crcSize);
      assert r[..layout.CrcAt()] == m[..layout.CrcAt()];
      assert r[layout.CrcAt()..] == crc;
      r
    }
  }

  /** A crc function over a layout a C compiler could give message_t. */
  type ValidCrc = c: Crc | c.Valid()
    witness Crc(Layout(16, 2, 0, 1, 2, 3, 4, 1, 9, 0, 1), (body: seq<byte>) => [0, 0])
}
