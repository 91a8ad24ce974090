/** The main loop of ohc.c once the hardware is set up: the state it owns
    (the record msg, leds_toggle, the blue indicator, the messages handed to
    message_send) and one pass of its while(1) body, each relay behaviour
    written as the loops the source runs and proved to compute what the
    Relay functions say. */
module MainLoop {
  import opened Bytes
  import opened Message
  import opened Relay
  import Receive

  class Dispatcher {
    /** The frame slot the receive handler fills: new_packet, packet_type,
        has_new_packet. */
    const rx: Receive.Receiver
    /** message_crc, together with the layout of message_t. */
    const crc: ValidCrc
    /** SPM_PAGESIZE. */
    const pageSize: nat
    /** msg, seen as its raw bytes. */
    const msg: array<byte>
    var ledsToggle: bool
    /** The blue indicator bit of PORTD. */
    var blueLed: bool
    /** Every record handed to message_send so far, oldest first. */
    var sent: seq<seq<byte>>

    /** The record has the size of message_t and is none of the handler's
        buffers, and the blue indicator shows leds_toggle. */
    ghost predicate Valid()
      reads this
    {
      WellFormed() && blueLed == ledsToggle
    }

    /** The part of Valid that only depends on the constant fields. */
    ghost predicate WellFormed()
    {
      && msg.Length == crc.layout.size
      && rx.newPacket.Length == Receive.PacketSize
      && msg != rx.newPacket && msg != rx.packetBuffer
    }

    /** The state after the power-on flashes: zeroed globals, blue off. */
    constructor (rx: Receive.Receiver, crc: ValidCrc, pageSize: nat)
      requires rx.newPacket.Length == Receive.PacketSize
      ensures Valid() && fresh(msg)
      ensures this.rx == rx && this.crc == crc && this.pageSize == pageSize
      ensures !ledsToggle && sent == []
      ensures forall i :: 0 <= i < msg.Length ==> msg[i] == 0
    {
      this.rx := rx;
      this.crc := crc;
      this.pageSize := pageSize;
      msg := new byte[crc.layout.size](_ => 0);
      ledsToggle := false;
      blueLed := false;
      sent := [];
    }

    /** Copies src[from .. from + n) over msg[at .. at + n), front to back:
        memcpy, the byte-copy loops and the crc field store. */
    method Write(at: nat, src: seq<byte>, from: nat, n: nat)
      requires at + n <= msg.Length && from + n <= |src|
      modifies msg
      ensures msg[..] == Copy(old(msg[..]), at, src, from, n)
    {
      ghost var m0 := msg[..];
      var j := 0;
      while j < n
        invariant 0 <= j <= n
        invariant forall i :: 0 <= i < msg.Length && !(at <= i < at + j) ==> msg[i] == m0[i]
        invariant forall i :: at <= i < at + j ==> msg[i] == src[i - at + from]
      {
        msg[at + j] := src[from + j];
        j := j + 1;
      }
      assert msg[..] == Copy(m0, at, src, from, n);
    }

    /** `msg.crc = message_crc(&msg);` */
    method SealMsg()
      requires WellFormed()
      modifies msg
      ensures msg[..] == crc.Seal(old(msg[..]))
    {
      var n := crc.layout.CrcAt();
      var field := crc.of(msg[..n]);
      assert |field| == crc.layout.crcSize;
      Write(n, field, 0, crc.layout.crcSize);
    }

    /** `message_send(&msg);` hands on the record as it stands. */
    method Send()
      modifies this`sent
      ensures sent == old(sent) + [msg[..]]
    {
      sent := sent + [msg[..]];
    }

    /** `while (!has_new_packet) message_send(&msg);` where the k-th test of
        the flag reads poll(k). */
    method SendUntilPolled(poll: nat -> bool, deadline: nat)
      requires poll(deadline)
      modifies this`sent
      ensures sent == old(sent) + Repeat(msg[..], FirstSeen(poll, 0, deadline))
    {
      var k := 0;
      while !poll(k)
        invariant k <= FirstSeen(poll, 0, deadline)
        invariant sent == old(sent) + Repeat(msg[..], k)
        decreases FirstSeen(poll, 0, deadline) - k
      {
        Send();
        k := k + 1;
      }
    }

    /** case PACKET_FORWARDMSG */
    method RelayForward(poll: nat -> bool, deadline: nat)
      requires WellFormed() && poll(deadline)
      modifies this`sent, msg
      ensures msg[..] == ForwardImage(crc, rx.newPacket[..], old(msg[..]))
      ensures sent == old(sent) + Repeat(msg[..], FirstSeen(poll, 0, deadline))
    {
      Write(0, rx.newPacket[..], PayloadAt, crc.layout.CrcAt());
      SealMsg();
      SendUntilPolled(poll, deadline);
    }

    /** case PACKET_FORWARDRAWMSG */
    method RelayRaw(poll: nat -> bool, deadline: nat)
      requires WellFormed() && poll(deadline)
      modifies this`sent, msg
      ensures msg[..] == RawImage(crc, rx.newPacket[..], old(msg[..]))
      ensures sent == old(sent) + Repeat(msg[..], FirstSeen(poll, 0, deadline))
    {
      Write(0, rx.newPacket[..], PayloadAt, crc.layout.size);
      SendUntilPolled(poll, deadline);
    }

    /** The boot-page loop body at i = 6k: page offset i/2, the six data
        bytes at new_packet + 3 + i, the crc, then the send. */
    method BootGroup(i: nat, k: nat)
      requires WellFormed() && i == 6 * k && GroupInFrame(k)
      modifies this`sent, msg
      ensures msg[..] == BootMessage(crc, rx.newPacket[..], old(msg[..]), k)
      ensures sent == old(sent) + [msg[..]]
    {
      msg[crc.layout.pageOffsetAt] := (i / 2) as byte;
      Write(crc.layout.wordsAt, rx.newPacket[..], 3 + i, 6);
      SealMsg();
      Send();
    }

    /** The loop of case PACKET_BOOTPAGE, the loop counter i = 6k with the
        k-th test of has_new_packet reading poll(k). */
    method BootPages(poll: nat -> bool)
      requires WellFormed() && pageSize <= MaxPageSize
      modifies this`sent, msg
      ensures msg[..] == BootLoop(crc, pageSize, rx.newPacket[..], poll, old(msg[..]), 0).msg
      ensures sent == old(sent) + BootLoop(crc, pageSize, rx.newPacket[..], poll, old(msg[..]), 0).sent
    {
      ghost var frame := rx.newPacket[..];
      ghost var run := BootLoop(crc, pageSize, frame, poll, msg[..], 0);
      ghost var sent0 := sent;
      var i, k := 0, 0;
      while i < pageSize && !poll(k)
        invariant i == 6 * k
        invariant BootResumes(crc, pageSize, frame, poll, run, sent0, msg[..], sent, k)
        decreases pageSize - i
      {
        BootResumesStep(crc, pageSize, frame, poll, run, sent0, msg[..], sent, k);
        BootGroup(i, k);
        i, k := i + 6, k + 1;
      }
      BootResumesEnd(crc, pageSize, frame, poll, run, sent0, msg[..], sent, k);
    }

    /** case PACKET_BOOTPAGE */
    method RelayBootPage(poll: nat -> bool)
      requires WellFormed() && pageSize <= MaxPageSize
      modifies this`sent, msg
      ensures msg[..] == BootPageRun(crc, pageSize, rx.newPacket[..], poll, old(msg[..])).msg
      ensures sent == old(sent) + BootPageRun(crc, pageSize, rx.newPacket[..], poll, old(msg[..])).sent
    {
      msg[crc.layout.typeAt] := crc.layout.bootPgmPage;
      msg[crc.layout.pageAddressAt] := rx.newPacket[PayloadAt];
      msg[crc.layout.bootUnusedAt] := 0;
      assert msg[..] == BootHeader(crc, rx.newPacket[..], old(msg[..]));
      BootPages(poll);
    }

    /** The GPS loop body at i = 2 + 7k: the fragment at new_packet + i
        copied into msg.gpsmsg, then, unless its id is 0 (`stop`), the crc
        and the send. */
    method GpsTurn(i: nat, k: nat) returns (stop: bool)
      requires WellFormed() && i == 2 + 7 * k && k < GpsSlots
      modifies this`sent, msg
      ensures stop == (FragmentId(rx.newPacket[..], k) == 0)
      ensures stop ==> msg[..] == GpsFragment(crc, rx.newPacket[..], old(msg[..]), k) && sent == old(sent)
      ensures !stop ==> && msg[..] == crc.Seal(GpsFragment(crc, rx.newPacket[..], old(msg[..]), k))
                        && sent == old(sent) + [msg[..]]
    {
      Write(crc.layout.gpsAt, rx.newPacket[..], i, 7);
      stop := msg[crc.layout.gpsAt] == 0;
      if !stop {
        SealMsg();
        Send();
      }
    }

    /** The loop of case PACKET_GPSFRAME, the loop counter i = 2 + 7k. */
    method GpsFragments()
      requires WellFormed()
      modifies this`sent, msg
      ensures msg[..] == GpsLoop(crc, rx.newPacket[..], old(msg[..]), 0).msg
      ensures sent == old(sent) + GpsLoop(crc, rx.newPacket[..], old(msg[..]), 0).sent
    {
      ghost var frame := rx.newPacket[..];
      ghost var run := GpsLoop(crc, frame, msg[..], 0);
      ghost var sent0 := sent;
      var i, k := 2, 0;
      while i < GpsEnd
        invariant i == 2 + 7 * k
        invariant GpsResumes(crc, frame, run, sent0, msg[..], sent, k)
        decreases GpsEnd - i
      {
        ghost var m, s := msg[..], sent;
        var stop := GpsTurn(i, k);
        if stop {
          GpsResumesStop(crc, frame, run, sent0, m, s, k);
          break;
        }
        GpsResumesStep(crc, frame, run, sent0, m, s, k);
        i, k := i + 7, k + 1;
      }
      if i >= GpsEnd {
        GpsResumesEnd(crc, frame, run, sent0, msg[..], sent, k);
      }
    }

    /** case PACKET_GPSFRAME */
    method RelayGps()
      requires WellFormed()
      modifies this`sent, msg
      ensures msg[..] == GpsFrameRun(crc, rx.newPacket[..], old(msg[..])).msg
      ensures sent == old(sent) + GpsFrameRun(crc, rx.newPacket[..], old(msg[..])).sent
    {
      msg[crc.layout.typeAt] := crc.layout.gps;
      msg[crc.layout.gpsUnusedAt] := 0;
      assert msg[..] == GpsHeader(crc, old(msg[..]));
      GpsFragments();
    }

    /** One pass of the while(1) body: `if (has_new_packet) { has_new_packet
        = 0; switch (packet_type) { ... } }`. It computes exactly
        Relay.Dispatch and keeps the blue indicator showing leds_toggle. */
    method Step(poll: nat -> bool, deadline: nat)
      requires Valid()
      requires CanDispatch(pageSize, rx.hasNewPacket, rx.packetType, poll, deadline)
      modifies this, msg, rx`hasNewPacket
      ensures Valid() && !rx.hasNewPacket
      ensures ledsToggle == Dispatch(crc, pageSize, old(rx.hasNewPacket), old(rx.packetType),
                                     rx.newPacket[..], old(ledsToggle), old(msg[..]), poll, deadline).leds
      ensures msg[..] == Dispatch(crc, pageSize, old(rx.hasNewPacket), old(rx.packetType),
                                  rx.newPacket[..], old(ledsToggle), old(msg[..]), poll, deadline).msg
      ensures sent == old(sent) + Dispatch(crc, pageSize, old(rx.hasNewPacket), old(rx.packetType),
                                           rx.newPacket[..], old(ledsToggle), old(msg[..]), poll, deadline).sent
    {
      if rx.hasNewPacket {
        rx.hasNewPacket := false;
        var t := rx.packetType;
        if t == Stop {
        } else if t == LedToggle {
          ledsToggle := !ledsToggle;
          blueLed := ledsToggle;
        } else if t == ForwardMsg {
          RelayForward(poll, deadline);
        } else if t == ForwardRawMsg {
          RelayRaw(poll, deadline);
        } else if t == BootPage {
          RelayBootPage(poll);
        } else if t == GpsFrame {
          RelayGps();
        }
      }
    }
  }

  /** A frame `f` arriving on the wire after any stream `prefix`, then the
      next pass of the main loop: the pass dispatches on the frame's type
      byte f[1] over the frame itself. */
  method Deliver(d: Dispatcher, prefix: seq<byte>, f: seq<byte>, poll: nat -> bool, deadline: nat)
    requires d.Valid() && d.rx.Valid() && Receive.Detects(f)
    requires CanDispatch(d.pageSize, true, f[1], poll, deadline)
    modifies d, d.msg, d.rx, d.rx.packetBuffer, d.rx.newPacket
    ensures d.Valid() && d.rx.Valid() && !d.rx.hasNewPacket
    ensures d.ledsToggle == Dispatch(d.crc, d.pageSize, true, f[1], f, old(d.ledsToggle),
                                     old(d.msg[..]), poll, deadline).leds
    ensures d.msg[..] == Dispatch(d.crc, d.pageSize, true, f[1], f, old(d.ledsToggle),
                                  old(d.msg[..]), poll, deadline).msg
    ensures d.sent == old(d.sent) + Dispatch(d.crc, d.pageSize, true, f[1], f, old(d.ledsToggle),
                                             old(d.msg[..]), poll, deadline).sent
  {
    Receive.RoundTrip(d.rx, prefix, f);
    d.Step(poll, deadline);
  }
}
