/** What one pass of the dispatch `switch (packet_type)` in main computes,
    stated as functions of the frame, the message record, the indicator flag
    and the answers of the has_new_packet polls. The imperative dispatcher
    is proved to compute exactly these; the lemmas here state what the
    relay behaviours promise. */
module Relay {
  import opened Bytes
  import opened Message
  import Receive

  /** The packet types (the anonymous enum of ohc.c). */
  const Stop: byte := 0
  const LedToggle: byte := 1
  const ForwardMsg: byte := 2
  const ForwardRawMsg: byte := 3
  const BootPage: byte := 4
  const GpsFrame: byte := 5

  /** The largest SPM_PAGESIZE for which every 6-byte group the boot-page
      loop reads lies inside the 132-byte frame (see BootReadsInFrame). */
  const MaxPageSize: nat := 126
  /** The GPS loop runs while i < PACKET_SIZE - 7. */
  const GpsEnd: nat := 125
  /** The number of 7-byte fragment slots the GPS loop visits. */
  const GpsSlots: nat := 18

  predicate IsFrame(frame: seq<byte>)
  {
    |frame| == Receive.PacketSize
  }

  /** The message record and the messages handed to message_send, in order. */
  datatype Relayed = Relayed(msg: seq<byte>, sent: seq<seq<byte>>)

  /** The result of one pass: leds_toggle, the record msg, the sends. */
  datatype Outcome = Outcome(leds: bool, msg: seq<byte>, sent: seq<seq<byte>>)

  // ---------------------------------------------------------------------
  // has_new_packet polls. The k-th poll of a relay loop answers poll(k):
  // the flag is set asynchronously by the receive handler.

  /** The index of the first poll from `from` on that sees a fresh frame;
      `deadline` is a poll known to see one. */
  function FirstSeen(poll: nat -> bool, from: nat, deadline: nat): (n: nat)
    requires from <= deadline && poll(deadline)
    ensures from <= n <= deadline && poll(n)
    ensures forall k :: from <= k < n ==> !poll(k)
    decreases deadline - from
  {
    if poll(from) then from else FirstSeen(poll, from + 1, deadline)
  }

  /** `n` sends of the same record. */
  function Repeat(m: seq<byte>, n: nat): (r: seq<seq<byte>>)
    ensures |r| == n
    ensures forall k :: 0 <= k < n ==> r[k] == m
  {
    if n == 0 then [] else Repeat(m, n - 1) + [m]
  }

  // ---------------------------------------------------------------------
  // PACKET_FORWARDMSG and PACKET_FORWARDRAWMSG

  /** FORWARDMSG's record: the first sizeof(message_t) - sizeof(crc) payload
      bytes, then a freshly computed crc. Nothing of the previous record
      survives. */
  function ForwardImage(c: ValidCrc, frame: seq<byte>, m: seq<byte>): (r: seq<byte>)
    requires IsFrame(frame) && |m| == c.layout.size
    ensures c.Sealed(r)
    ensures forall j :: 0 <= j < c.layout.CrcAt() ==> r[j] == frame[PayloadAt + j]
  {
    c.Seal(Copy(m, 0, frame, PayloadAt, c.layout.CrcAt()))
  }

  /** FORWARDRAWMSG's record: sizeof(message_t) payload bytes, crc included,
      with no crc computed. */
  function RawImage(c: ValidCrc, frame: seq<byte>, m: seq<byte>): (r: seq<byte>)
    requires IsFrame(frame) && |m| == c.layout.size
    ensures r == frame[PayloadAt..PayloadAt + c.layout.size]
  {
    var r := Copy(m, 0, frame, PayloadAt, c.layout.size);
    assert r == frame[PayloadAt..PayloadAt + c.layout.size];
    r
  }

  /** The raw relay sends the record the recomputing relay would have built
      exactly when the frame already carries a correct crc. */
  lemma ForwardRawAgree(c: ValidCrc, frame: seq<byte>, m: seq<byte>)
    requires IsFrame(frame) && |m| == c.layout.size
    ensures RawImage(c, frame, m) == ForwardImage(c, frame, m)
        <==> c.Sealed(frame[PayloadAt..PayloadAt + c.layout.size])
  {
    var raw, fwd := RawImage(c, frame, m), ForwardImage(c, frame, m);
    var n := c.layout.CrcAt();
    assert raw[..n] == fwd[..n];
    if c.Sealed(raw) {
      assert raw == raw[..n] + raw[n..];
      assert fwd == fwd[..n] + fwd[n..];
    }
  }

  // ---------------------------------------------------------------------
  // PACKET_BOOTPAGE

  /** The number of 6-byte groups for a page of `p` bytes: ceil(p / 6). */
  function Groups(p: nat): nat
  {
    (p + 5) / 6
  }

  /** The loop test i < SPM_PAGESIZE at i = 6k holds for exactly the first
      Groups(p) groups. */
  lemma GroupsBound(p: nat, k: nat)
    ensures 6 * k < p <==> k < Groups(p)
  {
  }

  /** Every group the boot-page loop reads, new_packet[3+i .. 3+i+6) for
      each i = 6k < SPM_PAGESIZE, lies inside the frame if and only if
      SPM_PAGESIZE <= 126. */
  lemma BootReadsInFrame(p: nat)
    ensures (forall k: nat :: 6 * k < p ==> 9 + 6 * k <= Receive.PacketSize) <==> p <= MaxPageSize
  {
    if p > MaxPageSize {
      var k: nat := 21;
      assert 6 * k < p && 9 + 6 * k > Receive.PacketSize;
    }
  }

  /** The k-th 6-byte group, new_packet[3+6k .. 9+6k), lies inside the
      frame. */
  predicate GroupInFrame(k: nat)
  {
    9 + 6 * k <= Receive.PacketSize
  }

  /** The fields set before the boot-page loop: type, page address (the
      first payload byte) and the unused byte. */
  predicate BootReady(c: ValidCrc, frame: seq<byte>, m: seq<byte>)
    requires IsFrame(frame)
  {
    && |m| == c.layout.size
    && m[c.layout.typeAt] == c.layout.bootPgmPage
    && m[c.layout.pageAddressAt] == frame[PayloadAt]
    && m[c.layout.bootUnusedAt] == 0
  }

  /** The k-th boot-page message: a group inside the frame, the header
      fields, word offset 3k, the data bytes new_packet[3+6k .. 9+6k) and a
      valid crc. */
  predicate BootCarries(c: ValidCrc, frame: seq<byte>, m: seq<byte>, k: nat)
    requires IsFrame(frame)
  {
    && GroupInFrame(k)
    && BootReady(c, frame, m)
    && c.Sealed(m)
    && m[c.layout.pageOffsetAt] as int == 3 * k
    && forall j :: c.layout.wordsAt <= j < c.layout.wordsAt + 6 ==>
                     m[j] == frame[j - c.layout.wordsAt + 3 + 6 * k]
  }

  /** The statements before the boot-page loop. */
  function BootHeader(c: ValidCrc, frame: seq<byte>, m: seq<byte>): (r: seq<byte>)
    requires IsFrame(frame) && |m| == c.layout.size
    ensures BootReady(c, frame, r)
    ensures forall j :: (0 <= j < |m| && j != c.layout.typeAt && j != c.layout.pageAddressAt
                         && j != c.layout.bootUnusedAt) ==> r[j] == m[j]
  {
    m[c.layout.typeAt := c.layout.bootPgmPage]
     [c.layout.pageAddressAt := frame[PayloadAt]]
     [c.layout.bootUnusedAt := 0]
  }

  /** The boot-page loop body at i = 6k: page offset i/2, six data bytes
      from new_packet + 3 + i, then the crc. */
  function BootMessage(c: ValidCrc, frame: seq<byte>, m: seq<byte>, k: nat): (r: seq<byte>)
    requires IsFrame(frame) && |m| == c.layout.size
    requires GroupInFrame(k)
    ensures |r| == |m|
    ensures BootReady(c, frame, m) ==> BootCarries(c, frame, r, k)
  {
    var l := c.layout;
    c.Seal(Copy(m[l.pageOffsetAt := (6 * k / 2) as byte], l.wordsAt, frame, 3 + 6 * k, 6))
  }

  /** for (i = 6k; i < SPM_PAGESIZE && !has_new_packet; i += 6) { ... } */
  function BootLoop(c: ValidCrc, p: nat, frame: seq<byte>, poll: nat -> bool, m: seq<byte>, k: nat): (r: Relayed)
    requires IsFrame(frame) && |m| == c.layout.size && p <= MaxPageSize
    ensures |r.msg| == |m|
    decreases p - 6 * k
  {
    if 6 * k < p && !poll(k) then
      var next := BootMessage(c, frame, m, k);
      var rest := BootLoop(c, p, frame, poll, next, k + 1);
      Relayed(rest.msg, [next] + rest.sent)
    else
      Relayed(m, [])
  }

  /** The boot-page loop resumed at group k from the record m, with `sent`
      handed on so far, finishes the run `run` that began with `sent0`
      handed on. */
  ghost predicate BootResumes(c: ValidCrc, p: nat, frame: seq<byte>, poll: nat -> bool, run: Relayed,
                              sent0: seq<seq<byte>>, m: seq<byte>, sent: seq<seq<byte>>, k: nat)
    requires IsFrame(frame) && p <= MaxPageSize
  {
    && |m| == c.layout.size
    && BootLoop(c, p, frame, poll, m, k).msg == run.msg
    && sent + BootLoop(c, p, frame, poll, m, k).sent == sent0 + run.sent
  }

  /** A turn of the boot-page loop whose test passes sends the k-th message
      and resumes from it at group k + 1. */
  lemma BootResumesStep(c: ValidCrc, p: nat, frame: seq<byte>, poll: nat -> bool, run: Relayed,
                        sent0: seq<seq<byte>>, m: seq<byte>, sent: seq<seq<byte>>, k: nat)
    requires IsFrame(frame) && p <= MaxPageSize
    requires BootResumes(c, p, frame, poll, run, sent0, m, sent, k) && 6 * k < p && !poll(k)
    ensures GroupInFrame(k)
    ensures BootResumes(c, p, frame, poll, run, sent0, BootMessage(c, frame, m, k),
                        sent + [BootMessage(c, frame, m, k)], k + 1)
  {
  }

  /** When the boot-page loop test fails the run is complete. */
  lemma BootResumesEnd(c: ValidCrc, p: nat, frame: seq<byte>, poll: nat -> bool, run: Relayed,
                       sent0: seq<seq<byte>>, m: seq<byte>, sent: seq<seq<byte>>, k: nat)
    requires IsFrame(frame) && p <= MaxPageSize
    requires BootResumes(c, p, frame, poll, run, sent0, m, sent, k) && !(6 * k < p && !poll(k))
    ensures m == run.msg && sent == sent0 + run.sent
  {
  }

  /** case PACKET_BOOTPAGE */
  function BootPageRun(c: ValidCrc, p: nat, frame: seq<byte>, poll: nat -> bool, m: seq<byte>): (r: Relayed)
    requires IsFrame(frame) && |m| == c.layout.size && p <= MaxPageSize
    ensures |r.msg| == |m|
  {
    BootLoop(c, p, frame, poll, BootHeader(c, frame, m), 0)
  }

  /** The number of groups from k on the loop gets through: it goes on
      while the page is not done and the poll sees no fresh frame. */
  function BootRun(p: nat, poll: nat -> bool, k: nat): nat
    decreases p - 6 * k
  {
    if 6 * k < p && !poll(k) then 1 + BootRun(p, poll, k + 1) else 0
  }

  /** The run from group k ends when the page is done or at the first poll
      that sees a fresh frame. */
  lemma {:induction false} BootRunPolls(p: nat, poll: nat -> bool, k: nat)
    ensures BootRun(p, poll, k) == 0 || 6 * (k + BootRun(p, poll, k) - 1) < p
    ensures forall j :: k <= j < k + BootRun(p, poll, k) ==> 6 * j < p && !poll(j)
    ensures 6 * (k + BootRun(p, poll, k)) >= p || poll(k + BootRun(p, poll, k))
    decreases p - 6 * k
  {
    if 6 * k < p && !poll(k) {
      BootRunPolls(p, poll, k + 1);
    }
  }

  /** From group k on, the boot-page loop sends one message per group of the
      run. */
  lemma {:induction false} BootLoopCount(c: ValidCrc, p: nat, frame: seq<byte>, poll: nat -> bool, m: seq<byte>, k: nat)
    requires IsFrame(frame) && |m| == c.layout.size && p <= MaxPageSize
    ensures |BootLoop(c, p, frame, poll, m, k).sent| == BootRun(p, poll, k)
    decreases p - 6 * k
  {
    if 6 * k < p && !poll(k) {
      BootLoopCount(c, p, frame, poll, BootMessage(c, frame, m, k), k + 1);
    }
  }

  /** Each message of `sent` carries its group, counting from group k. */
  predicate BootCarriesFrom(c: ValidCrc, frame: seq<byte>, sent: seq<seq<byte>>, k: nat)
    requires IsFrame(frame)
  {
    forall j :: 0 <= j < |sent| ==> BootCarries(c, frame, sent[j], k + j)
  }

  /** A message carrying group k followed by messages carrying the groups
      from k + 1 on carry the groups from k on. */
  lemma BootCarriesCons(c: ValidCrc, frame: seq<byte>, next: seq<byte>, rest: seq<seq<byte>>, k: nat)
    requires IsFrame(frame)
    requires BootCarries(c, frame, next, k) && BootCarriesFrom(c, frame, rest, k + 1)
    ensures BootCarriesFrom(c, frame, [next] + rest, k)
  {
  }

  /** From group k on, the j-th message the loop sends carries group k + j. */
  lemma {:induction false} BootLoopCarries(c: ValidCrc, p: nat, frame: seq<byte>, poll: nat -> bool, m: seq<byte>, k: nat)
    requires IsFrame(frame) && BootReady(c, frame, m) && p <= MaxPageSize
    ensures BootCarriesFrom(c, frame, BootLoop(c, p, frame, poll, m, k).sent, k)
    decreases p - 6 * k
  {
    if 6 * k < p && !poll(k) {
      var next := BootMessage(c, frame, m, k);
      var rest := BootLoop(c, p, frame, poll, next, k + 1);
      BootLoopCarries(c, p, frame, poll, next, k + 1);
      BootCarriesCons(c, frame, next, rest.sent, k);
    }
  }

  /** BOOTPAGE sends at most ceil(SPM_PAGESIZE / 6) messages, none after a
      poll has seen a fresh frame, and stops early only because one did. */
  lemma BootPageSends(c: ValidCrc, p: nat, frame: seq<byte>, poll: nat -> bool, m: seq<byte>)
    requires IsFrame(frame) && |m| == c.layout.size && p <= MaxPageSize
    ensures |BootPageRun(c, p, frame, poll, m).sent| <= Groups(p)
    ensures forall k :: 0 <= k < |BootPageRun(c, p, frame, poll, m).sent| ==> !poll(k)
    ensures |BootPageRun(c, p, frame, poll, m).sent| < Groups(p) ==>
              poll(|BootPageRun(c, p, frame, poll, m).sent|)
  {
    var h := BootHeader(c, frame, m);
    var n := |BootLoop(c, p, frame, poll, h, 0).sent|;
    BootLoopCount(c, p, frame, poll, h, 0);
    BootRunPolls(p, poll, 0);
    GroupsBound(p, n);
    if n > 0 {
      GroupsBound(p, n - 1);
    }
  }

  /** The k-th BOOTPAGE message carries type BOOTPGM_PAGE, page address
      new_packet[2], page offset 3k, data new_packet[3+6k .. 9+6k) and a
      valid crc. */
  lemma BootPageCarries(c: ValidCrc, p: nat, frame: seq<byte>, poll: nat -> bool, m: seq<byte>)
    requires IsFrame(frame) && |m| == c.layout.size && p <= MaxPageSize
    ensures forall k :: 0 <= k < |BootPageRun(c, p, frame, poll, m).sent| ==>
              BootCarries(c, frame, BootPageRun(c, p, frame, poll, m).sent[k], k)
  {
    BootLoopCarries(c, p, frame, poll, BootHeader(c, frame, m), 0);
  }

  // ---------------------------------------------------------------------
  // PACKET_GPSFRAME

  /** The id byte of the fragment in slot k, new_packet[2 + 7k]. */
  function FragmentId(frame: seq<byte>, k: nat): byte
    requires IsFrame(frame) && k < GpsSlots
  {
    frame[2 + 7 * k]
  }

  /** The index range behind GpsLoop's call of GpsFragment: the loop test
      2 + 7k < PACKET_SIZE - 7 holds for exactly the 18 slots, which is
      GpsFragment's requirement k < GpsSlots, and every fragment the loop
      reads, new_packet[2+7k .. 9+7k), ends at index 127 at the latest,
      inside the frame. */
  lemma GpsReadsInFrame(k: nat)
    ensures 2 + 7 * k < GpsEnd <==> k < GpsSlots
    ensures k < GpsSlots ==> 8 + 7 * k <= 127 < Receive.PacketSize
    ensures k == GpsSlots - 1 ==> 8 + 7 * k == 127
  {
  }

  /** The fields set before the GPS loop. */
  predicate GpsReady(c: ValidCrc, m: seq<byte>)
  {
    && |m| == c.layout.size
    && m[c.layout.typeAt] == c.layout.gps
    && m[c.layout.gpsUnusedAt] == 0
  }

  /** The k-th GPS message: one of the 18 slots, type GPS, unused 0, the
      fragment new_packet[2+7k .. 9+7k) whose id byte is not 0, and a
      valid crc. */
  predicate GpsCarries(c: ValidCrc, frame: seq<byte>, m: seq<byte>, k: nat)
    requires IsFrame(frame)
  {
    && k < GpsSlots
    && GpsReady(c, m)
    && c.Sealed(m)
    && (forall j :: c.layout.gpsAt <= j < c.layout.gpsAt + 7 ==>
                      m[j] == frame[j - c.layout.gpsAt + 2 + 7 * k])
    && FragmentId(frame, k) != 0
  }

  /** The statements before the GPS loop. */
  function GpsHeader(c: ValidCrc, m: seq<byte>): (r: seq<byte>)
    requires |m| == c.layout.size
    ensures GpsReady(c, r)
    ensures forall j :: (0 <= j < |m| && j != c.layout.typeAt && j != c.layout.gpsUnusedAt) ==> r[j] == m[j]
  {
    m[c.layout.typeAt := c.layout.gps][c.layout.gpsUnusedAt := 0]
  }

  /** One slot of the GPS loop, i = 2 + 7k: the record with the fragment at
      i copied in. */
  function GpsFragment(c: ValidCrc, frame: seq<byte>, m: seq<byte>, k: nat): (r: seq<byte>)
    requires IsFrame(frame) && |m| == c.layout.size && k < GpsSlots
    ensures |r| == |m|
    ensures r[c.layout.gpsAt] == FragmentId(frame, k)
    ensures GpsReady(c, m) ==> GpsReady(c, r)
    ensures forall j :: c.layout.gpsAt <= j < c.layout.gpsAt + 7 ==>
              r[j] == frame[j - c.layout.gpsAt + 2 + 7 * k]
  {
    Copy(m, c.layout.gpsAt, frame, 2 + 7 * k, 7)
  }

  /** for (i = 2 + 7k; i < PACKET_SIZE - 7; i += 7): copy the fragment at i,
      stop on id 0, otherwise seal and send. The loop does not poll
      has_new_packet. */
  function GpsLoop(c: ValidCrc, frame: seq<byte>, m: seq<byte>, k: nat): (r: Relayed)
    requires IsFrame(frame) && |m| == c.layout.size
    ensures |r.msg| == |m|
    decreases |frame| - 7 * k
  {
    if 2 + 7 * k < GpsEnd then
      var fragment := GpsFragment(c, frame, m, k);
      if fragment[c.layout.gpsAt] == 0 then
        Relayed(fragment, [])
      else
        var next := c.Seal(fragment);
        var rest := GpsLoop(c, frame, next, k + 1);
        Relayed(rest.msg, [next] + rest.sent)
    else
      Relayed(m, [])
  }

  /** The GPS loop resumed at slot k from the record m, with `sent` handed
      on so far, finishes the run `run` that began with `sent0` handed on. */
  ghost predicate GpsResumes(c: ValidCrc, frame: seq<byte>, run: Relayed, sent0: seq<seq<byte>>,
                             m: seq<byte>, sent: seq<seq<byte>>, k: nat)
    requires IsFrame(frame)
  {
    && |m| == c.layout.size
    && GpsLoop(c, frame, m, k).msg == run.msg
    && sent + GpsLoop(c, frame, m, k).sent == sent0 + run.sent
  }

  /** A turn of the GPS loop at a fragment whose id is 0 completes the
      run. */
  lemma GpsResumesStop(c: ValidCrc, frame: seq<byte>, run: Relayed, sent0: seq<seq<byte>>,
                       m: seq<byte>, sent: seq<seq<byte>>, k: nat)
    requires IsFrame(frame) && k < GpsSlots
    requires GpsResumes(c, frame, run, sent0, m, sent, k) && FragmentId(frame, k) == 0
    ensures GpsFragment(c, frame, m, k) == run.msg && sent == sent0 + run.sent
  {
  }

  /** A turn of the GPS loop at a fragment whose id is not 0 seals and
      sends it, and the loop resumes at slot k + 1. */
  lemma GpsResumesStep(c: ValidCrc, frame: seq<byte>, run: Relayed, sent0: seq<seq<byte>>,
                       m: seq<byte>, sent: seq<seq<byte>>, k: nat)
    requires IsFrame(frame) && k < GpsSlots
    requires GpsResumes(c, frame, run, sent0, m, sent, k) && FragmentId(frame, k) != 0
    ensures GpsResumes(c, frame, run, sent0, c.Seal(GpsFragment(c, frame, m, k)),
                       sent + [c.Seal(GpsFragment(c, frame, m, k))], k + 1)
  {
  }

  /** Past the last slot the run is complete. */
  lemma GpsResumesEnd(c: ValidCrc, frame: seq<byte>, run: Relayed, sent0: seq<seq<byte>>,
                      m: seq<byte>, sent: seq<seq<byte>>, k: nat)
    requires IsFrame(frame)
    requires GpsResumes(c, frame, run, sent0, m, sent, k) && 2 + 7 * k >= GpsEnd
    ensures m == run.msg && sent == sent0 + run.sent
  {
  }

  /** case PACKET_GPSFRAME */
  function GpsFrameRun(c: ValidCrc, frame: seq<byte>, m: seq<byte>): (r: Relayed)
    requires IsFrame(frame) && |m| == c.layout.size
    ensures |r.msg| == |m|
  {
    GpsLoop(c, frame, GpsHeader(c, m), 0)
  }

  /** The number of consecutive slots from k on whose fragment id is not 0. */
  function GpsRun(frame: seq<byte>, k: nat): nat
    requires IsFrame(frame) && k <= GpsSlots
    decreases |frame| - 7 * k
  {
    if k < GpsSlots && FragmentId(frame, k) != 0 then 1 + GpsRun(frame, k + 1) else 0
  }

  /** The run from slot k ends at the first slot whose id is 0, or at the
      last slot. */
  lemma {:induction false} GpsRunStops(frame: seq<byte>, k: nat)
    requires IsFrame(frame) && k <= GpsSlots
    ensures k + GpsRun(frame, k) <= GpsSlots
    ensures forall j :: k <= j < k + GpsRun(frame, k) ==> j < GpsSlots && FragmentId(frame, j) != 0
    ensures k + GpsRun(frame, k) < GpsSlots ==> FragmentId(frame, k + GpsRun(frame, k)) == 0
    decreases |frame| - 7 * k
  {
    if k < GpsSlots && FragmentId(frame, k) != 0 {
      GpsRunStops(frame, k + 1);
    }
  }

  /** From slot k on, the GPS loop sends one message per slot of the run. */
  lemma {:induction false} GpsLoopCount(c: ValidCrc, frame: seq<byte>, m: seq<byte>, k: nat)
    requires IsFrame(frame) && |m| == c.layout.size && k <= GpsSlots
    ensures |GpsLoop(c, frame, m, k).sent| == GpsRun(frame, k)
    decreases |frame| - 7 * k
  {
    if 2 + 7 * k < GpsEnd {
      var fragment := GpsFragment(c, frame, m, k);
      if fragment[c.layout.gpsAt] != 0 {
        GpsLoopCount(c, frame, c.Seal(fragment), k + 1);
      }
    }
  }

  /** Each message of `sent` carries its fragment, counting from slot k. */
  predicate GpsCarriesFrom(c: ValidCrc, frame: seq<byte>, sent: seq<seq<byte>>, k: nat)
    requires IsFrame(frame)
  {
    forall j :: 0 <= j < |sent| ==> GpsCarries(c, frame, sent[j], k + j)
  }

  /** A message carrying slot k followed by messages carrying the slots from
      k + 1 on carry the slots from k on. */
  lemma GpsCarriesCons(c: ValidCrc, frame: seq<byte>, next: seq<byte>, rest: seq<seq<byte>>, k: nat)
    requires IsFrame(frame) && k < GpsSlots
    requires GpsCarries(c, frame, next, k) && GpsCarriesFrom(c, frame, rest, k + 1)
    ensures GpsCarriesFrom(c, frame, [next] + rest, k)
  {
  }

  /** A fragment with a nonzero id, sealed, is the k-th GPS message. */
  lemma GpsStep(c: ValidCrc, frame: seq<byte>, m: seq<byte>, k: nat)
    requires IsFrame(frame) && GpsReady(c, m) && k < GpsSlots
    requires FragmentId(frame, k) != 0
    ensures GpsCarries(c, frame, c.Seal(GpsFragment(c, frame, m, k)), k)
  {
  }

  /** From slot k on, the j-th message the GPS loop sends carries the
      fragment of slot k + j. */
  lemma {:induction false} GpsLoopCarries(c: ValidCrc, frame: seq<byte>, m: seq<byte>, k: nat)
    requires IsFrame(frame) && GpsReady(c, m)
    ensures GpsCarriesFrom(c, frame, GpsLoop(c, frame, m, k).sent, k)
    decreases |frame| - 7 * k
  {
    if 2 + 7 * k < GpsEnd {
      var fragment := GpsFragment(c, frame, m, k);
      if fragment[c.layout.gpsAt] != 0 {
        var next := c.Seal(fragment);
        var rest := GpsLoop(c, frame, next, k + 1);
        GpsStep(c, frame, m, k);
        GpsLoopCarries(c, frame, next, k + 1);
        GpsCarriesCons(c, frame, next, rest.sent, k);
      }
    }
  }

  /** GPSFRAME sends one message per fragment, at most 18, and stops at
      the first fragment whose id is 0. */
  lemma GpsFrameSends(c: ValidCrc, frame: seq<byte>, m: seq<byte>)
    requires IsFrame(frame) && |m| == c.layout.size
    ensures |GpsFrameRun(c, frame, m).sent| <= GpsSlots
    ensures forall k :: 0 <= k < |GpsFrameRun(c, frame, m).sent| ==> FragmentId(frame, k) != 0
    ensures |GpsFrameRun(c, frame, m).sent| < GpsSlots ==>
              FragmentId(frame, |GpsFrameRun(c, frame, m).sent|) == 0
  {
    GpsLoopCount(c, frame, GpsHeader(c, m), 0);
    GpsRunStops(frame, 0);
  }

  /** The k-th GPSFRAME message carries type GPS, the fragment
      new_packet[2+7k .. 9+7k) and a valid crc. */
  lemma GpsFrameCarries(c: ValidCrc, frame: seq<byte>, m: seq<byte>)
    requires IsFrame(frame) && |m| == c.layout.size
    ensures forall k :: 0 <= k < |GpsFrameRun(c, frame, m).sent| ==>
              GpsCarries(c, frame, GpsFrameRun(c, frame, m).sent[k], k)
  {
    GpsLoopCarries(c, frame, GpsHeader(c, m), 0);
  }

  // ---------------------------------------------------------------------
  // One pass of main's while(1) body

  /** What a pass asks of its inputs: the forwarding loops end only once a
      poll sees a fresh frame, and the boot-page reads stay in the frame. */
  predicate CanDispatch(p: nat, pending: bool, ptype: byte, poll: nat -> bool, deadline: nat)
  {
    && (pending && (ptype == ForwardMsg || ptype == ForwardRawMsg) ==> poll(deadline))
    && (pending && ptype == BootPage ==> p <= MaxPageSize)
  }

  /** `if (has_new_packet) { has_new_packet = 0; switch (packet_type) ... }` */
  function Dispatch(c: ValidCrc, p: nat, pending: bool, ptype: byte, frame: seq<byte>,
                    leds: bool, m: seq<byte>, poll: nat -> bool, deadline: nat): (o: Outcome)
    requires IsFrame(frame) && |m| == c.layout.size
    requires CanDispatch(p, pending, ptype, poll, deadline)
    ensures |o.msg| == |m|
    ensures o.leds == (if pending && ptype == LedToggle then !leds else leds)
    ensures !pending || ptype == Stop || ptype == LedToggle || ptype > GpsFrame ==>
              o.msg == m && o.sent == []
  {
    if !pending then Outcome(leds, m, [])
    else if ptype == Stop then Outcome(leds, m, [])
    else if ptype == LedToggle then Outcome(!leds, m, [])
    else if ptype == ForwardMsg then
      var r := ForwardImage(c, frame, m);
      Outcome(leds, r, Repeat(r, FirstSeen(poll, 0, deadline)))
    else if ptype == ForwardRawMsg then
      var r := RawImage(c, frame, m);
      Outcome(leds, r, Repeat(r, FirstSeen(poll, 0, deadline)))
    else if ptype == BootPage then
      var r := BootPageRun(c, p, frame, poll, m);
      Outcome(leds, r.msg, r.sent)
    else if ptype == GpsFrame then
      var r := GpsFrameRun(c, frame, m);
      Outcome(leds, r.msg, r.sent)
    else Outcome(leds, m, [])
  }

  /** Dispatching LEDTOGGLE twice restores the indicator and leaves the
      record untouched with nothing sent. */
  lemma ToggleTwice(c: ValidCrc, p: nat, frame: seq<byte>, leds: bool, m: seq<byte>, poll: nat -> bool, deadline: nat)
    requires IsFrame(frame) && |m| == c.layout.size
    ensures Dispatch(c, p, true, LedToggle, frame, leds, m, poll, deadline).leds != leds
    ensures Dispatch(c, p, true, LedToggle, frame,
                     Dispatch(c, p, true, LedToggle, frame, leds, m, poll, deadline).leds,
                     Dispatch(c, p, true, LedToggle, frame, leds, m, poll, deadline).msg,
                     poll, deadline)
            == Outcome(leds, m, [])
  {
  }

  /** The forwarding relays send their one record over and over, once per
      poll that sees no fresh frame, and stop at the first poll that does;
      FORWARDMSG's record always carries a valid crc. */
  lemma ForwardSends(c: ValidCrc, p: nat, ptype: byte, frame: seq<byte>, leds: bool, m: seq<byte>,
                     poll: nat -> bool, deadline: nat)
    requires IsFrame(frame) && |m| == c.layout.size
    requires ptype == ForwardMsg || ptype == ForwardRawMsg
    requires poll(deadline)
    ensures poll(|Dispatch(c, p, true, ptype, frame, leds, m, poll, deadline).sent|)
    ensures forall k :: 0 <= k < |Dispatch(c, p, true, ptype, frame, leds, m, poll, deadline).sent| ==>
              !poll(k)
              && Dispatch(c, p, true, ptype, frame, leds, m, poll, deadline).sent[k]
                 == Dispatch(c, p, true, ptype, frame, leds, m, poll, deadline).msg
    ensures ptype == ForwardMsg ==> c.Sealed(Dispatch(c, p, true, ptype, frame, leds, m, poll, deadline).msg)
  {
  }
}
