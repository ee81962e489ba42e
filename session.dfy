/**
 * The single-session slot shared by the two WebRTC servers (mirrorweb and
 * videoFromFileWeb): the package-level `peerConnection` variable and the
 * `closeWebRTCSession` handler, which both programs write identically.
 *
 * A Pion PeerConnection is an opaque handle.  An HTTP handler that panics is
 * recovered by net/http, so a panic is a response of its own (`Panicked`) and
 * the slot keeps whatever value it had been given before the panic.
 */
module Session {
  import opened Wrappers
  import opened GoTypes

  /** An opaque Pion PeerConnection. */
  datatype Handle = Handle(id: nat)

  /** A video codec advertised by the remote offer, as the MediaEngine lists it. */
  datatype Codec = Codec(name: string, payloadType: uint8)

  /**
   * The remote offer after the request body is read, base64- and JSON-decoded
   * and handed to `PopulateFromSDP`: either one of those steps failed, or the
   * offer's video codecs in advertised order.
   */
  datatype Offer = Unreadable | Offer(videoCodecs: seq<Codec>)

  /** The outbound video track: the payload type and SSRC given to `NewTrack`. */
  datatype Track = Track(payloadType: uint8, ssrc: uint32)

  /** The setup calls after `NewPeerConnection`; each one's error reaches `checkNoError` and panics. */
  datatype SetupStep =
    | SetRemoteDescription
    | NewTrack
    | AddTrack
    | CreateAnswer
    | SetLocalDescription
    | WriteAnswer

  datatype PanicCause =
    | MalformedOffer            // reading, decoding or parsing the offer failed
    | NoVideoCodecs             // "Offer contained no video codecs"
    | NoVp8                     // "Remote peer does not support VP8"
    | ConnectionFailed          // NewPeerConnection returned an error
    | StepFailed(step: SetupStep)
    | CloseFailed               // PeerConnection.Close returned an error

  /** What an HTTP handler produced: a status with its body, or a recovered panic. */
  datatype Response = Status200(body: string) | Status400(body: string) | Panicked(cause: PanicCause)

  const AlreadyClosed := "session already closed/never opened"
  const AlreadyStarted := "session already started. Please close before re-opening"

  /** The package-level `peerConnection` variable of one server process. */
  class Slot {
    /** The current connection; `None` is Go's nil. */
    var peer: Option<Handle>
    /** The handles `Close` has been called on, oldest first. */
    ghost var closeCalls: seq<Handle>

    constructor ()
      ensures peer == None && closeCalls == []
    {
      peer := None;
      closeCalls := [];
    }

    /**
     * `closeWebRTCSession`.  `closeOk` is what `PeerConnection.Close` returns.
     * An empty slot is refused with 400 and nothing changes; otherwise the
     * handle is closed and the slot cleared, except that a failing `Close`
     * panics before the slot is cleared.
     */
    method Close(closeOk: bool) returns (resp: Response)
      modifies this
      ensures old(peer).None? ==>
        resp == Status400(AlreadyClosed) && peer == None && closeCalls == old(closeCalls)
      ensures old(peer).Some? ==> closeCalls == old(closeCalls) + [old(peer).value]
      ensures old(peer).Some? && closeOk ==> resp == Status200("") && peer == None
      ensures old(peer).Some? && !closeOk ==> resp == Panicked(CloseFailed) && peer == old(peer)
    {
      if peer.None? {
        return Status400(AlreadyClosed);
      }
      closeCalls := closeCalls + [peer.value];
      if !closeOk {
        return Panicked(CloseFailed);
      }
      peer := None;
      resp := Status200("");
    }
  }
}
