/**
 * mirrorweb's `startWebRTCSession`: refuse when a session exists, take the
 * first advertised video codec, create the connection, and set up the
 * outbound track that echoes the sender's video.  The relay and heartbeat the
 * handler registers are in module Rtp.
 */
module MirrorWeb {
  import opened Wrappers
  import opened GoTypes
  import opened Session

  /**
   * `startWebRTCSession`, with the results of the foreign calls as inputs:
   * `conn` is what `NewPeerConnection` returns (`None` for an error), `ssrc` is
   * `rand.Uint32()`, `failure` is the first setup call that returns an error
   * (if any) and `answer` is the encoded answer written back on success.
   * `track` is the outbound track once `NewTrack` has succeeded.
   *
   * As written, the slot is assigned before `SetRemoteDescription`, so any
   * later failure leaves the new handle in the slot.
   */
  method StartSession(slot: Slot, offer: Offer, conn: Option<Handle>, ssrc: uint32,
                      failure: Option<SetupStep>, answer: string)
    returns (resp: Response, track: Option<Track>)
    modifies slot`peer
    // a second open is refused and the existing session is left untouched
    ensures old(slot.peer).Some? ==>
      resp == Status400(AlreadyStarted) && slot.peer == old(slot.peer) && track == None
    // failures before any connection exists leave the slot empty
    ensures old(slot.peer).None? && offer.Unreadable? ==>
      resp == Panicked(MalformedOffer) && slot.peer == None && track == None
    ensures old(slot.peer).None? && offer.Offer? && offer.videoCodecs == [] ==>
      resp == Panicked(NoVideoCodecs) && slot.peer == None && track == None
    ensures old(slot.peer).None? && offer.Offer? && offer.videoCodecs != [] && conn.None? ==>
      resp == Panicked(ConnectionFailed) && slot.peer == None && track == None
    // once the connection exists the slot holds it, whatever happens next
    ensures old(slot.peer).None? && offer.Offer? && offer.videoCodecs != [] && conn.Some? ==>
      && slot.peer == conn
      && resp == (if failure.Some? then Panicked(StepFailed(failure.value)) else Status200(answer))
      && track == (if failure == Some(SetRemoteDescription) || failure == Some(NewTrack) then None
                   else Some(Track(offer.videoCodecs[0].payloadType, ssrc)))
  {
    track := None;
    if slot.peer.Some? {
      return Status400(AlreadyStarted), None;
    }
    if offer.Unreadable? {
      return Panicked(MalformedOffer), None;
    }
    var videoCodecs := offer.videoCodecs;
    if |videoCodecs| == 0 {
      return Panicked(NoVideoCodecs), None;
    }
    slot.peer := conn;
    if conn.None? {
      return Panicked(ConnectionFailed), None;
    }
    if failure == Some(SetRemoteDescription) {
      return Panicked(StepFailed(SetRemoteDescription)), None;
    }
    if failure == Some(NewTrack) {
      return Panicked(StepFailed(NewTrack)), None;
    }
    track := Some(Track(videoCodecs[0].payloadType, ssrc));
    if failure.Some? {
      // AddTrack, CreateAnswer, SetLocalDescription or writing the answer
      return Panicked(StepFailed(failure.value)), track;
    }
    resp := Status200(answer);
  }

  /**
   * The lifecycle the echo service promises: with a session open, a second
   * open is refused; a successful close then lets a new offer in.
   */
  method CloseThenReopen(slot: Slot, offer: seq<Codec>, conn: Handle, ssrc: uint32, answer: string)
    returns (refused: Response, closed: Response, reopened: Response)
    requires slot.peer.Some? && offer != []
    modifies slot
    ensures refused == Status400(AlreadyStarted)
    ensures closed == Status200("")
    ensures reopened == Status200(answer) && slot.peer == Some(conn)
    ensures slot.closeCalls == old(slot.closeCalls) + [old(slot.peer).value]
  {
    var track;
    refused, track := StartSession(slot, Offer(offer), Some(Handle(0)), ssrc, None, answer);
    closed := slot.Close(true);
    reopened, track := StartSession(slot, Offer(offer), Some(conn), ssrc, None, answer);
  }
}
