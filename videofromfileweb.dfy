/**
 * videoFromFileWeb's `startWebRTCSession`: the same single-session guard as
 * mirrorweb, but the outbound track must be VP8, found by a search of the
 * advertised video codecs that uses payload type 0 to mean "not found".
 */
module VideoFromFileWeb {
  import opened Wrappers
  import opened GoTypes
  import opened Session

  const Vp8Name := "VP8"

  /** Reference definition of the search: the payload type of the first codec named exactly "VP8", or 0. */
  function Vp8PayloadType(codecs: seq<Codec>): uint8
  {
    if codecs == [] then 0
    else if codecs[0].name == Vp8Name then codecs[0].payloadType
    else Vp8PayloadType(codecs[1..])
  }

  /** The `for range` loop that assigns `payloadType` and breaks at the first VP8 codec. */
  method SearchVp8(codecs: seq<Codec>) returns (payloadType: uint8)
    ensures payloadType == Vp8PayloadType(codecs)
  {
    payloadType := 0;
    var i := 0;
    while i < |codecs|
      invariant 0 <= i <= |codecs|
      invariant payloadType == 0
      invariant Vp8PayloadType(codecs) == Vp8PayloadType(codecs[i..])
    {
      assert codecs[i..][1..] == codecs[i + 1..];
      if codecs[i].name == Vp8Name {
        payloadType := codecs[i].payloadType;
        break;
      }
      i := i + 1;
    }
  }

  /** The search returns the payload type of the first codec named "VP8"; earlier codecs are skipped. */
  lemma {:induction false} Vp8PayloadTypeIsFirstMatch(codecs: seq<Codec>, i: nat)
    requires i < |codecs| && codecs[i].name == Vp8Name
    requires forall j :: 0 <= j < i ==> codecs[j].name != Vp8Name
    ensures Vp8PayloadType(codecs) == codecs[i].payloadType
  {
    if i > 0 {
      Vp8PayloadTypeIsFirstMatch(codecs[1..], i - 1);
    }
  }

  /** Without a codec named "VP8" the search yields the sentinel 0. */
  lemma {:induction false} Vp8PayloadTypeNotFound(codecs: seq<Codec>)
    requires forall j :: 0 <= j < |codecs| ==> codecs[j].name != Vp8Name
    ensures Vp8PayloadType(codecs) == 0
  {
    if codecs != [] {
      Vp8PayloadTypeNotFound(codecs[1..]);
    }
  }

  /** A non-zero result is the payload type of a VP8 codec that no other VP8 codec precedes. */
  lemma {:induction false} Vp8PayloadTypeFound(codecs: seq<Codec>)
    requires Vp8PayloadType(codecs) != 0
    ensures exists i ::
              && 0 <= i < |codecs| && codecs[i].name == Vp8Name
              && codecs[i].payloadType == Vp8PayloadType(codecs)
              && forall j :: 0 <= j < i ==> codecs[j].name != Vp8Name
  {
    if codecs[0].name != Vp8Name {
      Vp8PayloadTypeFound(codecs[1..]);
      var i :|
        && 0 <= i < |codecs[1..]| && codecs[1..][i].name == Vp8Name
        && codecs[1..][i].payloadType == Vp8PayloadType(codecs[1..])
        && forall j :: 0 <= j < i ==> codecs[1..][j].name != Vp8Name;
      assert codecs[i + 1] == codecs[1..][i];
      assert forall j :: 0 <= j < i + 1 ==> codecs[j].name != Vp8Name by {
        forall j | 0 <= j < i + 1 ensures codecs[j].name != Vp8Name {
          if j > 0 { assert codecs[j] == codecs[1..][j - 1]; }
        }
      }
    }
  }

  /**
   * A VP8 codec with payload type 0 looks like no VP8 codec at all, and the
   * `break` means it also hides every VP8 codec listed after it.
   */
  lemma {:induction false} Vp8ZeroLooksLikeNotFound(prefix: seq<Codec>, rest: seq<Codec>)
    requires forall j :: 0 <= j < |prefix| ==> prefix[j].name != Vp8Name
    ensures Vp8PayloadType(prefix + [Codec(Vp8Name, 0)] + rest) == 0
  {
    if prefix != [] {
      assert (prefix + [Codec(Vp8Name, 0)] + rest)[1..] == prefix[1..] + [Codec(Vp8Name, 0)] + rest;
      Vp8ZeroLooksLikeNotFound(prefix[1..], rest);
    }
  }

  /**
   * `startWebRTCSession`, with the foreign results as inputs (see
   * MirrorWeb.StartSession).  A zero search result panics before any
   * connection exists; otherwise the slot holds the new connection from then
   * on, and the track is created with exactly the payload type found.
   */
  method StartSession(slot: Slot, offer: Offer, conn: Option<Handle>, ssrc: uint32,
                      failure: Option<SetupStep>, answer: string)
    returns (resp: Response, track: Option<Track>)
    modifies slot`peer
    ensures old(slot.peer).Some? ==>
      resp == Status400(AlreadyStarted) && slot.peer == old(slot.peer) && track == None
    ensures old(slot.peer).None? && offer.Unreadable? ==>
      resp == Panicked(MalformedOffer) && slot.peer == None && track == None
    ensures old(slot.peer).None? && offer.Offer? && Vp8PayloadType(offer.videoCodecs) == 0 ==>
      resp == Panicked(NoVp8) && slot.peer == None && track == None
    ensures old(slot.peer).None? && offer.Offer? && Vp8PayloadType(offer.videoCodecs) != 0 && conn.None? ==>
      resp == Panicked(ConnectionFailed) && slot.peer == None && track == None
    ensures old(slot.peer).None? && offer.Offer? && Vp8PayloadType(offer.videoCodecs) != 0 && conn.Some? ==>
      && slot.peer == conn
      && resp == (if failure.Some? then Panicked(StepFailed(failure.value)) else Status200(answer))
      && track == (if failure == Some(NewTrack) then None
                   else Some(Track(Vp8PayloadType(offer.videoCodecs), ssrc)))
  {
    track := None;
    if slot.peer.Some? {
      return Status400(AlreadyStarted), None;
    }
    if offer.Unreadable? {
      return Panicked(MalformedOffer), None;
    }
    var payloadType := SearchVp8(offer.videoCodecs);
    if payloadType == 0 {
      return Panicked(NoVp8), None;
    }
    slot.peer := conn;
    if conn.None? {
      return Panicked(ConnectionFailed), None;
    }
    if failure == Some(NewTrack) {
      return Panicked(StepFailed(NewTrack)), None;
    }
    track := Some(Track(payloadType, ssrc));
    if failure.Some? {
      // AddTrack, SetRemoteDescription, CreateAnswer, SetLocalDescription or writing the answer
      return Panicked(StepFailed(failure.value)), track;
    }
    resp := Status200(answer);
  }
}
