/**
 * The two loops mirrorweb registers for an inbound video track: the relay,
 * which rewrites each packet's SSRC (RFC 3550 section 5.1) to the outbound
 * track's and forwards it, and the heartbeat, which sends one Picture Loss
 * Indication (RFC 4585 section 6.3.1) per tick until the relay signals done.
 *
 * Both run on goroutines in the source; here each is a loop over the results
 * its foreign calls return, in the order it receives them.
 */
module Rtp {
  import opened GoTypes

  /** The RTP header fields and payload a packet carries through the relay. */
  datatype RtpPacket = RtpPacket(
    marker: bool,
    payloadType: uint8,
    sequenceNumber: uint16,
    timestamp: uint32,
    ssrc: uint32,
    payload: Bytes)

  /** One result of `track.ReadRTP()`. */
  datatype Read = Got(packet: RtpPacket) | Eof | ReadFailed

  /** How the relay loop ended, or that it is still waiting for its next read. */
  datatype RelayEnd = StreamEnded | ReadPanic | WritePanic | StillReading

  /** The packets the relay wrote to the outbound track, in order, and how it ended. */
  datatype RelayRun = RelayRun(sent: seq<RtpPacket>, end: RelayEnd)

  /** The packet forwarded in place of `p`: only the SSRC changes. */
  function Rewrite(p: RtpPacket, ssrc: uint32): RtpPacket
  {
    p.(ssrc := ssrc)
  }

  /** Whether the `k`-th `WriteRTP` call succeeds; calls past the given results succeed. */
  predicate WriteSucceeds(writes: seq<bool>, k: nat)
  {
    k >= |writes| || writes[k]
  }

  /**
   * Reference definition of the relay from read `from` on: `inbound` holds the
   * results of successive `ReadRTP` calls, `writes` those of successive
   * `WriteRTP` calls.  Read `k` is forwarded by write `k`, since every read
   * before it was forwarded.  EOF ends the stream; any other error panics.
   */
  function Relay(inbound: seq<Read>, writes: seq<bool>, from: nat, ssrc: uint32): RelayRun
    decreases |inbound| - from
  {
    if from >= |inbound| then RelayRun([], StillReading)
    else match inbound[from]
      case Eof => RelayRun([], StreamEnded)
      case ReadFailed => RelayRun([], ReadPanic)
      case Got(p) =>
        if !WriteSucceeds(writes, from) then RelayRun([], WritePanic)
        else
          var rest := Relay(inbound, writes, from + 1, ssrc);
          RelayRun([Rewrite(p, ssrc)] + rest.sent, rest.end)
  }

  /**
   * The `OnTrack` loop.  `doneSignals` counts the sends on `doneChan`: one on
   * EOF, none otherwise.
   */
  method RelayTrack(inbound: seq<Read>, writes: seq<bool>, outSsrc: uint32)
    returns (sent: seq<RtpPacket>, end: RelayEnd, doneSignals: nat)
    ensures RelayRun(sent, end) == Relay(inbound, writes, 0, outSsrc)
    ensures doneSignals == if end == StreamEnded then 1 else 0
  {
    sent, end, doneSignals := [], StillReading, 0;
    var i := 0;
    while i < |inbound|
      invariant 0 <= i <= |inbound|
      invariant doneSignals == 0
      invariant Relay(inbound, writes, 0, outSsrc).sent == sent + Relay(inbound, writes, i, outSsrc).sent
      invariant Relay(inbound, writes, 0, outSsrc).end == Relay(inbound, writes, i, outSsrc).end
    {
      var r := inbound[i];
      if r.Eof? {
        doneSignals := doneSignals + 1;
        end := StreamEnded;
        return;
      }
      if r.ReadFailed? {
        end := ReadPanic;
        return;
      }
      var packet := r.packet.(ssrc := outSsrc);
      var writeOk := i >= |writes| || writes[i];
      if !writeOk {
        end := WritePanic;
        return;
      }
      ghost var rest := Relay(inbound, writes, i + 1, outSsrc).sent;
      assert sent + [packet] + rest == sent + ([packet] + rest);
      sent := sent + [packet];
      i := i + 1;
    }
  }

  /** Packet `p` is what the relay forwards for read `i`. */
  predicate ForwardedFrom(inbound: seq<Read>, i: int, p: RtpPacket, ssrc: uint32)
  {
    0 <= i < |inbound| && inbound[i].Got? && p == Rewrite(inbound[i].packet, ssrc)
  }

  /** The relay from read `from` on forwards read `from + k` as its `k`-th packet. */
  lemma {:induction false} RelayForwardsFrom(inbound: seq<Read>, writes: seq<bool>, from: nat, ssrc: uint32)
    requires from <= |inbound|
    decreases |inbound| - from
    ensures from + |Relay(inbound, writes, from, ssrc).sent| <= |inbound|
    ensures forall k :: 0 <= k < |Relay(inbound, writes, from, ssrc).sent| ==>
      ForwardedFrom(inbound, from + k, Relay(inbound, writes, from, ssrc).sent[k], ssrc)
  {
    if from < |inbound| && inbound[from].Got? && WriteSucceeds(writes, from) {
      RelayForwardsFrom(inbound, writes, from + 1, ssrc);
      var run := Relay(inbound, writes, from, ssrc);
      var rest := Relay(inbound, writes, from + 1, ssrc);
      assert run.sent == [Rewrite(inbound[from].packet, ssrc)] + rest.sent;
      forall k | 0 <= k < |run.sent|
        ensures ForwardedFrom(inbound, from + k, run.sent[k], ssrc)
      {
        if k > 0 {
          assert run.sent[k] == rest.sent[k - 1];
          assert ForwardedFrom(inbound, (from + 1) + (k - 1), rest.sent[k - 1], ssrc);
        }
      }
    }
  }

  /**
   * Every forwarded packet is the inbound packet read at the same position
   * with only its SSRC replaced, so packets go out in read order, one per read.
   */
  lemma RelayForwardsInOrder(inbound: seq<Read>, writes: seq<bool>, ssrc: uint32)
    ensures |Relay(inbound, writes, 0, ssrc).sent| <= |inbound|
    ensures forall k :: 0 <= k < |Relay(inbound, writes, 0, ssrc).sent| ==>
      inbound[k].Got? && Relay(inbound, writes, 0, ssrc).sent[k] == inbound[k].packet.(ssrc := ssrc)
  {
    RelayForwardsFrom(inbound, writes, 0, ssrc);
    var sent := Relay(inbound, writes, 0, ssrc).sent;
    forall k | 0 <= k < |sent|
      ensures inbound[k].Got? && sent[k] == inbound[k].packet.(ssrc := ssrc)
    {
      assert ForwardedFrom(inbound, 0 + k, sent[k], ssrc);
    }
  }

  /** The outbound track never sees an inbound SSRC: every forwarded packet carries `ssrc`. */
  lemma RelayRewritesEverySsrc(inbound: seq<Read>, writes: seq<bool>, ssrc: uint32)
    ensures forall p :: p in Relay(inbound, writes, 0, ssrc).sent ==> p.ssrc == ssrc
  {
    RelayForwardsInOrder(inbound, writes, ssrc);
  }

  /**
   * The relay stops at the first read that is not a packet or the first
   * failing write: EOF ends the stream (and only EOF does), a read error or a
   * write error panics, and running out of reads leaves it waiting.
   */
  lemma {:induction false} RelayEndsAtFirstStop(inbound: seq<Read>, writes: seq<bool>, from: nat, ssrc: uint32)
    requires from <= |inbound|
    decreases |inbound| - from
    ensures var run := Relay(inbound, writes, from, ssrc); var n := from + |run.sent|;
      && n <= |inbound|
      && (forall k :: from <= k < n ==> inbound[k].Got? && (k >= |writes| || writes[k]))
      && (run.end == StillReading <==> n == |inbound|)
      && (run.end == StreamEnded <==> n < |inbound| && inbound[n] == Eof)
      && (run.end == ReadPanic <==> n < |inbound| && inbound[n] == ReadFailed)
      && (run.end == WritePanic <==> n < |inbound| && inbound[n].Got? && n < |writes| && !writes[n])
  {
    if from < |inbound| && inbound[from].Got? && WriteSucceeds(writes, from) {
      RelayEndsAtFirstStop(inbound, writes, from + 1, ssrc);
    }
  }

  /** A keyframe request as `rtcp.PictureLossIndication`; the code sets only MediaSSRC. */
  datatype Pli = Pli(senderSsrc: uint32, mediaSsrc: uint32)

  /** What reaches the heartbeat's `select`: a ticker tick or the relay's done signal. */
  datatype HeartbeatEvent = Tick | Done

  /**
   * Reference definition: one PLI for the inbound SSRC per tick from event
   * `from` on, up to the first done signal.
   */
  function PlisBeforeDone(events: seq<HeartbeatEvent>, from: nat, mediaSsrc: uint32): seq<Pli>
    decreases |events| - from
  {
    if from >= |events| || events[from] == Done then []
    else [Pli(0, mediaSsrc)] + PlisBeforeDone(events, from + 1, mediaSsrc)
  }

  /** How many of the first `n` `WriteRTCP` calls fail, given their results (success once exhausted). */
  function Failures(sendResults: seq<bool>, n: nat): nat
  {
    if n == 0 then 0
    else Failures(sendResults, n - 1) + (if WriteSucceeds(sendResults, n - 1) then 0 else 1)
  }

  /**
   * The heartbeat goroutine's `for`/`select` loop: `plis` are the PLIs passed
   * to `WriteRTCP`, `printed` the send errors it printed, `stopped` whether it
   * left the loop on the done signal.  A failed send does not stop it.
   */
  method Heartbeat(events: seq<HeartbeatEvent>, sendResults: seq<bool>, mediaSsrc: uint32)
    returns (plis: seq<Pli>, printed: nat, stopped: bool)
    ensures plis == PlisBeforeDone(events, 0, mediaSsrc)
    ensures printed == Failures(sendResults, |plis|)
    ensures stopped <==> Done in events
  {
    plis, printed, stopped := [], 0, false;
    var i := 0;
    while i < |events|
      invariant 0 <= i <= |events|
      invariant forall k :: 0 <= k < i ==> events[k] == Tick
      invariant |plis| == i
      invariant PlisBeforeDone(events, 0, mediaSsrc) == plis + PlisBeforeDone(events, i, mediaSsrc)
      invariant printed == Failures(sendResults, i)
    {
      if events[i] == Done {
        stopped := true;
        assert plis + [] == plis;
        return;
      }
      ghost var later := PlisBeforeDone(events, i + 1, mediaSsrc);
      assert plis + [Pli(0, mediaSsrc)] + later == plis + ([Pli(0, mediaSsrc)] + later);
      plis := plis + [Pli(0, mediaSsrc)];
      if i < |sendResults| && !sendResults[i] {
        printed := printed + 1;
      }
      i := i + 1;
    }
    assert plis + [] == plis;
  }

  /** Failures counted over the first `n` sends are the failed results among them. */
  lemma {:induction false} FailuresCountsFailedSends(sendResults: seq<bool>, n: nat)
    requires n <= |sendResults|
    ensures Failures(sendResults, n) == multiset(sendResults[..n])[false]
  {
    if n > 0 {
      FailuresCountsFailedSends(sendResults, n - 1);
      assert sendResults[..n] == sendResults[..n - 1] + [sendResults[n - 1]];
    }
  }

  /** Sends past the given results succeed, so they add no failures. */
  lemma {:induction false} FailuresPastResults(sendResults: seq<bool>, n: nat)
    requires |sendResults| <= n
    ensures Failures(sendResults, n) == Failures(sendResults, |sendResults|)
  {
    if n > |sendResults| {
      FailuresPastResults(sendResults, n - 1);
    }
  }

  /**
   * From event `from` on, when event `d` is the first done signal (or `d` is
   * the end of the events), the heartbeat sends exactly `d - from` PLIs, all
   * addressed to the inbound SSRC, and nothing for any event after `d`.
   */
  lemma {:induction false} HeartbeatStopsAtDone(events: seq<HeartbeatEvent>, from: nat, d: nat, mediaSsrc: uint32)
    requires from <= d <= |events|
    requires forall k :: from <= k < d ==> events[k] == Tick
    requires d < |events| ==> events[d] == Done
    decreases d - from
    ensures PlisBeforeDone(events, from, mediaSsrc) == seq(d - from, _ => Pli(0, mediaSsrc))
  {
    if from < d {
      HeartbeatStopsAtDone(events, from + 1, d, mediaSsrc);
      assert seq(d - from, _ => Pli(0, mediaSsrc)) == [Pli(0, mediaSsrc)] + seq(d - (from + 1), _ => Pli(0, mediaSsrc));
    }
  }
}
