/** The USART receive handler of ohc.c: a 132-byte circular window over the
    incoming byte stream, a running XOR of the window, and the single-slot
    hand-off of the latest synchronised frame to the main loop. */
module Receive {
  import opened Bytes

  /** PACKET_SIZE: 128 payload bytes plus 4 bytes of header, type and checksum. */
  const PacketSize: nat := 132
  /** PACKET_HEADER, the sync sentinel (binary 01010101). */
  const PacketHeader: byte := 0x55

  /** The synchronisation test, stated on a window listed oldest byte first:
      the oldest byte is the sentinel and the whole window XORs to zero. */
  predicate Detects(w: seq<byte>)
  {
    |w| == PacketSize && w[0] == PacketHeader && XorAll(w) == 0
  }

  /** The window `w` after the bytes `bytes` have arrived, one at a time:
      each arrival drops the oldest byte and appends the new one. */
  function Slide(w: seq<byte>, bytes: seq<byte>): (r: seq<byte>)
    ensures |r| == |w|
    decreases |bytes|
  {
    if |bytes| == 0 then w else Slide((w + [bytes[0]])[1..], bytes[1..])
  }

  /** The window holds the last |w| bytes of the stream w + bytes. */
  lemma {:induction false} SlideKeepsLast(w: seq<byte>, bytes: seq<byte>)
    ensures Slide(w, bytes) == (w + bytes)[|bytes|..]
    decreases |bytes|
  {
    if |bytes| > 0 {
      var w' := (w + [bytes[0]])[1..];
      SlideKeepsLast(w', bytes[1..]);
      assert w' + bytes[1..] == (w + bytes)[1..];
    }
  }

  /** Whatever the window held and whatever came before, once the last
      |w| bytes of the stream are `f` the window is exactly `f`. */
  lemma SlideOntoFrame(w: seq<byte>, prefix: seq<byte>, f: seq<byte>)
    requires |w| == |f|
    ensures Slide(w, prefix + f) == f
  {
    SlideKeepsLast(w, prefix + f);
    LastOfStream(w, prefix, f);
  }

  /** The last |f| bytes of w + prefix + f, when |w| == |f|, are f. */
  lemma LastOfStream(w: seq<byte>, prefix: seq<byte>, f: seq<byte>)
    requires |w| == |f|
    ensures (w + (prefix + f))[|prefix + f|..] == f
  {
  }

  /** One storage step of the handler on the buffer `buf` with cursor `h`:
      once `b` replaces the oldest byte and the cursor moves on, the window
      read oldest-first has lost its oldest byte and gained `b`. */
  lemma RotateStep(buf: seq<byte>, h: nat, b: byte, nh: nat)
    requires h < |buf| && nh == if h + 1 >= |buf| then 0 else h + 1
    ensures buf[h := b][nh..] + buf[h := b][..nh] == (buf[h..] + buf[..h])[1..] + [b]
  {
  }

  /** Reading a buffer from the cursor `h` on, wrapping around, the k-th
      byte is the one at (h + k) mod |buf|. */
  lemma RotatedIndex(buf: seq<byte>, h: nat, k: nat)
    requires h < |buf| && k < |buf|
    ensures (buf[h..] + buf[..h])[k] == buf[(h + k) % |buf|]
  {
    if h + k < |buf| {
      assert (h + k) % |buf| == h + k;
    } else {
      assert (h + k) % |buf| == h + k - |buf|;
    }
  }

  /** The globals the receive interrupt handler owns (packet_buffer,
      packet_head, packet_checksum) and the frame slot it fills for the main
      loop (new_packet, packet_type, has_new_packet). */
  class Receiver {
    const packetBuffer: array<byte>
    var packetHead: nat
    var packetChecksum: sum
    const newPacket: array<byte>
    var packetType: byte
    var hasNewPacket: bool

    /** The window invariant: the cursor is in range and the checksum is the
        XOR of every byte of the buffer. */
    ghost predicate Valid()
      reads this, packetBuffer
    {
      && packetBuffer.Length == PacketSize
      && newPacket.Length == PacketSize
      && packetBuffer != newPacket
      && packetHead < PacketSize
      && packetChecksum == XorAll(packetBuffer[..])
    }

    /** The window read oldest byte first: the cursor points at the oldest
        byte, the next one to be overwritten. */
    ghost function Window(): (w: seq<byte>)
      reads this, packetBuffer
      requires Valid()
      ensures |w| == PacketSize
    {
      packetBuffer[packetHead..] + packetBuffer[..packetHead]
    }

    /** The k-th byte of the window is packet_buffer[(packet_head + k) mod
        PacketSize], the byte the handler's copy loops move to new_packet[k]. */
    lemma WindowWraps()
      requires Valid()
      ensures forall k :: 0 <= k < PacketSize ==>
                Window()[k] == packetBuffer[(packetHead + k) % PacketSize]
    {
      forall k | 0 <= k < PacketSize
        ensures Window()[k] == packetBuffer[(packetHead + k) % PacketSize]
      {
        RotatedIndex(packetBuffer[..], packetHead, k);
      }
    }

    /** The handler's two tests, on the byte at the cursor and on the
        running checksum, decide exactly whether the window read oldest-first
        is a frame. */
    lemma HandlerTest()
      requires Valid()
      ensures Detects(Window()) <==>
                packetBuffer[packetHead] == PacketHeader && packetChecksum == 0
    {
      XorRotate(packetBuffer[..], packetHead);
      assert Window()[0] == packetBuffer[packetHead];
    }

    /** The power-on state: zero-initialised globals. */
    constructor ()
      ensures Valid() && fresh(packetBuffer) && fresh(newPacket)
      ensures packetHead == 0 && packetChecksum == 0
      ensures !hasNewPacket && packetType == 0
      ensures forall i :: 0 <= i < PacketSize ==> packetBuffer[i] == 0 && newPacket[i] == 0
    {
      packetBuffer := new byte[PacketSize](_ => 0);
      newPacket := new byte[PacketSize](_ => 0);
      packetHead := 0;
      packetChecksum := 0;
      packetType := 0;
      hasNewPacket := false;
      new;
      XorZeros(packetBuffer[..]);
    }

    /** ISR(USART_RX_vect) for the received byte `rx`: store it, then test
        the window and, on synchronisation, publish it to the slot. */
    method Feed(rx: byte)
      requires Valid()
      modifies this, packetBuffer, newPacket
      ensures Valid()
      ensures packetBuffer[..] == old(packetBuffer[..])[old(packetHead) := rx]
      ensures packetHead == if old(packetHead) + 1 < PacketSize then old(packetHead) + 1 else 0
      ensures Window() == old(Window())[1..] + [rx]
      ensures Detects(Window()) ==>
                newPacket[..] == Window() && hasNewPacket && packetType == newPacket[1]
      ensures !Detects(Window()) ==>
                && newPacket[..] == old(newPacket[..])
                && hasNewPacket == old(hasNewPacket)
                && packetType == old(packetType)
    {
      ghost var buf, h := packetBuffer[..], packetHead;
      Store(rx);
      RotateStep(buf, h, rx, packetHead);
      HandlerTest();
      if packetBuffer[packetHead] == PacketHeader {
        if packetChecksum == 0 {
          CopyWindow();
          hasNewPacket := true;
          packetType := newPacket[1];
        }
      }
    }

    /** The storage step of the handler: XOR the evicted byte out of the
        checksum, overwrite it with `rx`, XOR `rx` in and advance the cursor
        modulo PacketSize. */
    method Store(rx: byte)
      requires Valid()
      modifies this`packetHead, this`packetChecksum, packetBuffer
      ensures Valid()
      ensures packetBuffer[..] == old(packetBuffer[..])[old(packetHead) := rx]
      ensures packetHead == if old(packetHead) + 1 < PacketSize then old(packetHead) + 1 else 0
    {
      ghost var buf, h := packetBuffer[..], packetHead;
      XorUpdate(buf, h, rx);
      packetChecksum := packetChecksum ^ Bits(packetBuffer[packetHead]);
      packetBuffer[packetHead] := rx;
      assert packetBuffer[..] == buf[h := rx];
      packetChecksum := packetChecksum ^ Bits(rx);
      packetHead := packetHead + 1;
      if packetHead >= PacketSize {
        packetHead := 0;
      }
    }

    /** The two copy loops of the handler: new_packet receives the window
        rotated so that the oldest byte comes first. */
    method CopyWindow()
      requires Valid()
      modifies newPacket
      ensures newPacket[..] == Window()
    {
      var num := PacketSize - packetHead;
      var i := 0;
      while i < num
        invariant 0 <= i <= num
        invariant forall k :: 0 <= k < i ==> newPacket[k] == packetBuffer[k + packetHead]
      {
        newPacket[i] := packetBuffer[i + packetHead];
        i := i + 1;
      }
      while i < PacketSize
        invariant num <= i <= PacketSize
        invariant forall k :: 0 <= k < num ==> newPacket[k] == packetBuffer[k + packetHead]
        invariant forall k :: num <= k < i ==> newPacket[k] == packetBuffer[k - num]
      {
        newPacket[i] := packetBuffer[i - num];
        i := i + 1;
      }
    }

    /** The handler run once per byte of `bytes`, in order. The window slides
        over the stream, and if the last byte completed a synchronised window
        that window is the one left in the slot. */
    method FeedAll(bytes: seq<byte>)
      requires Valid()
      modifies this, packetBuffer, newPacket
      ensures Valid()
      ensures Window() == Slide(old(Window()), bytes)
      ensures |bytes| > 0 && Detects(Window()) ==>
                newPacket[..] == Window() && hasNewPacket && packetType == Window()[1]
    {
      ghost var w0 := Window();
      var i := 0;
      while i < |bytes|
        invariant 0 <= i <= |bytes|
        invariant Valid()
        invariant Slide(Window(), bytes[i..]) == Slide(w0, bytes)
        invariant i > 0 && Detects(Window()) ==>
                    newPacket[..] == Window() && hasNewPacket && packetType == Window()[1]
      {
        ghost var w := Window();
        Feed(bytes[i]);
        assert (w + [bytes[i]])[1..] == Window();
        assert bytes[i..][1..] == bytes[i + 1..];
        i := i + 1;
      }
    }
  }

  /** Round trip and latest-wins: from any valid state, after any stream
      `prefix` (which may itself hold earlier frames), feeding the 132 bytes of
      a frame `f` that starts with the sentinel and XORs to zero leaves exactly
      `f` in the slot, flagged, with its type byte. */
  method RoundTrip(r: Receiver, prefix: seq<byte>, f: seq<byte>)
    requires r.Valid()
    requires Detects(f)
    modifies r, r.packetBuffer, r.newPacket
    ensures r.Valid()
    ensures r.newPacket[..] == f && r.hasNewPacket && r.packetType == f[1]
  {
    ghost var w0 := r.Window();
    r.FeedAll(prefix + f);
    SlideOntoFrame(w0, prefix, f);
  }
}
