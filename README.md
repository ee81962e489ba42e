# tinygo-webrtc: session slot, RTP relay, GL string and buffer helpers

This project models the sequential logic of the tinygo-webrtc demos in Dafny.

- **The two WebRTC servers** (`mirrorweb`, `videoFromFileWeb`):
  - a single package-level slot holding at most one Pion PeerConnection;
  - the `closeWebRTCSession` and `startWebRTCSession` handlers that empty and fill it;
  - the codec choice for the outbound track: the first video codec, or the first codec named "VP8";
  - the `OnTrack` relay, which rewrites each RTP packet's SSRC (section 5.1 of RFC 3550) and forwards it;
  - the heartbeat, which sends a Picture Loss Indication (section 6.3.1 of RFC 4585) on every tick.
- **The OpenGL helpers**:
  - `goString`, which turns a NUL-terminated info-log buffer into a string;
  - the `shaderLog`/`programLog` readers in their two differing copies;
  - `texInvertY`;
  - `NewDrawer`'s dispatch on `filepath.Ext`;
  - the row flip, error paths and key handler of the viking texture demo.

Foreign calls appear as inputs:

- Pion (`NewPeerConnection`, `ReadRTP`, `WriteRTP`, `WriteRTCP`, the setup steps);
- `rand.Uint32()`;
- the OpenGL queries;
- `png.Decode`.

An HTTP handler's panic is recovered by `net/http`, so it is modelled as the response `Panicked(cause)`. The slot keeps whatever the handler had stored before panicking. The relay and the heartbeat run as goroutines; each is modelled as a loop over the sequence of events it sees.

Modules:

- `Wrappers`, `GoTypes`: Option/Result, and Go's fixed-width integers and byte slices.
- `Session`: the slot.
- `MirrorWeb`, `VideoFromFileWeb`: the two open handlers.
- `Rtp`: the relay and the heartbeat.
- `GlStrings`, `TutorialGlDebug`, `CorecubeGlDebug`: the NUL search and the two gldebug.go copies.
- `Shaders`, `Drawer`, `Viking`: the remaining helpers.

## Model

| member | source | states |
|---|---|---|
| Session.Slot.constructor | mirrorweb/main.go:45 | A server starts with no connection in the slot and no `Close` calls made. |
| Session.Slot.Close | mirrorweb/main.go:48-56 | Empty slot: 400 "session already closed/never opened", and nothing changes. Full slot: `Close` is called on exactly that handle. If `Close` succeeds, the answer is 200 with an empty body and the slot is cleared. If `Close` fails, the handler panics and the handle stays in the slot. Both servers run this same handler (videoFromFileWeb/main.go:50-58). |
| MirrorWeb.StartSession | mirrorweb/main.go:59-172 | Full slot: 400 "session already started…", and the handle is untouched. An unreadable offer or an empty codec list panics with the slot still empty. A failing `NewPeerConnection` also leaves the slot empty. Once a connection exists, the slot holds it whatever fails later. The track uses the first codec's payload type and the random SSRC. It exists unless `SetRemoteDescription` or `NewTrack` failed. A failing step panics with that step; on success the answer is returned with 200. |
| MirrorWeb.CloseThenReopen | mirrorweb/main.go:48-64 | With a session open, a second open is refused with 400. A successful close then returns 200 and closes the old handle. A new open then succeeds and fills the slot with the new connection. |
| VideoFromFileWeb.SearchVp8 | videoFromFileWeb/main.go:89-95 | The loop's result is the reference search: the payload type of the first codec named "VP8", or 0. |
| VideoFromFileWeb.Vp8PayloadTypeIsFirstMatch | videoFromFileWeb/main.go:89-95 | If codec i is the first named exactly "VP8", the search returns codec i's payload type. The codecs before it are skipped. |
| VideoFromFileWeb.Vp8PayloadTypeNotFound | videoFromFileWeb/main.go:89-96 | If no codec is named "VP8", the search returns the sentinel 0. |
| VideoFromFileWeb.Vp8PayloadTypeFound | videoFromFileWeb/main.go:89-96 | A non-zero result is the payload type of some VP8 codec that no other VP8 codec precedes. |
| VideoFromFileWeb.Vp8ZeroLooksLikeNotFound | videoFromFileWeb/main.go:89-98 | A first VP8 codec with payload type 0 makes the search return 0, the "not found" sentinel, whatever follows it. A usable VP8 codec listed after it is hidden by the `break`, and the open panics with "does not support VP8". |
| VideoFromFileWeb.StartSession | videoFromFileWeb/main.go:61-161 | Full slot: 400, and the slot is untouched. A zero search result panics ("does not support VP8") with the slot still empty. So does a failing `NewPeerConnection`. Otherwise the slot holds the new connection from then on. The track is created with exactly the payload type found. Any later failing step panics with that step. |
| Rtp.RelayTrack | mirrorweb/main.go:139-154 | The relay loop's packets and end state equal the reference `Relay` of the reads and write results. Exactly one done signal is sent, and only on EOF. |
| Rtp.RelayForwardsFrom | mirrorweb/main.go:139-154 | From any read onward, the k-th forwarded packet is read `from + k` with its SSRC rewritten. There are never more packets than reads. |
| Rtp.RelayForwardsInOrder | mirrorweb/main.go:148-153 | Packets go out one per read, in read order. Each is the packet read at the same position with only the SSRC replaced; sequence number, timestamp, marker, payload type and payload are unchanged. |
| Rtp.RelayRewritesEverySsrc | mirrorweb/main.go:148-150 | Every forwarded packet carries the outbound track's SSRC. |
| Rtp.RelayEndsAtFirstStop | mirrorweb/main.go:139-153 | The relay forwards a prefix of packet reads, each followed by a successful write. It stops at the first EOF (stream ended, the only case that signals done), at the first read error or at the first write error (both panics). Otherwise it runs out of reads while still reading. Each end state holds if and only if its condition holds. |
| Rtp.Heartbeat | mirrorweb/main.go:122-136 | The PLIs sent are the reference sequence: one per tick before the first done signal. The printed errors are the failed sends among them. The loop stops exactly when a done signal arrives. |
| Rtp.HeartbeatStopsAtDone | mirrorweb/main.go:125-134 | With the first done signal at event d (or none), exactly d PLIs are sent, each addressed to the inbound SSRC. Nothing is sent after done. |
| Rtp.FailuresCountsFailedSends | mirrorweb/main.go:128-131 | The printed-error count over the first n sends equals the number of failed results among them. |
| Rtp.FailuresPastResults | mirrorweb/main.go:128-131 | Sends beyond the known results count as successes and add no printed errors. |
| GlStrings.NulIndex | opengl_go_tutorial/gldebug.go:36-40 | The range loop's stopping index: no 0 byte before it, and a 0 byte at it unless it is the buffer's length. |
| GlStrings.WriteInfoLog | opengl_go_tutorial/gldebug.go:14-15 | After the GL info-log call the zeroed buffer holds the written bytes, cut to its length, followed by zeros. |
| GlStrings.InfoLogBufferKeepsTerminatedWrite | opengl_go_tutorial/gldebug.go:14-15 | A NUL-terminated write that fits the buffer keeps its first 0 byte at the same index. The buffer up to that index is exactly the written bytes up to their terminator. |
| GlStrings.HexUpper | opengl_go_tutorial/gldebug.go:42 | `%X` of a byte slice: byte i becomes characters 2i and 2i+1, its high nibble then its low nibble as upper-case hex digits; the string has two characters per byte and no others. |
| TutorialGlDebug.GoString | opengl_go_tutorial/gldebug.go:35-43 | The result succeeds if and only if the buffer holds a 0 byte. It is then exactly the bytes before the first 0 and contains no 0 byte. Otherwise it panics with the message and the hex dump. |
| TutorialGlDebug.GoStringOfLeadingNul | opengl_go_tutorial/gldebug.go:37-38 | A buffer whose first byte is 0 yields the empty string. |
| TutorialGlDebug.ReadInfoLog | opengl_go_tutorial/gldebug.go:9-20 | A length that is not positive gives "" without calling `goString`. A positive length gives `goString` of the zeroed buffer after GL wrote into it. |
| TutorialGlDebug.ShaderLog | opengl_go_tutorial/gldebug.go:9-20 | `shaderLog`: "" when the reported length is not positive, else `goString` of the filled buffer. |
| TutorialGlDebug.ProgramLog | opengl_go_tutorial/gldebug.go:22-33 | `programLog`: the same for a program object. |
| TutorialGlDebug.InfoLogOfTerminatedWrite | opengl_go_tutorial/gldebug.go:13-17 | When GL writes a NUL-terminated log that fits the length, the log is the written bytes up to their terminator. |
| TutorialGlDebug.InfoLogOfShortWriteNeverPanics | opengl_go_tutorial/gldebug.go:13-17 | A write shorter than the reported length leaves a 0 byte, so `goString` cannot panic. |
| CorecubeGlDebug.GoString | corecube/gldebug.go:33-40 | The result succeeds if and only if a 0 byte is present. It is then the bytes before the first 0, with no 0 byte. Otherwise it panics with "buf is not NUL-terminated". |
| CorecubeGlDebug.ReadInfoLog | corecube/gldebug.go:9-19 | A length that is not positive calls `goString` on the nil buffer and panics. A positive length gives `goString` of the filled buffer. |
| CorecubeGlDebug.ShaderLog | corecube/gldebug.go:9-19 | `shaderLog` as written: a zero length panics. A positive length gives `goString` of the filled buffer. |
| CorecubeGlDebug.ProgramLog | corecube/gldebug.go:21-31 | `programLog` as written: the same for a program object. |
| CorecubeGlDebug.GoStringCopiesAgree | corecube/gldebug.go:33-40 | The two `goString` copies agree on every buffer that holds a 0 byte. |
| Shaders.TexInvertY | opengl_go_tutorial/shaders.go:104-111 | In place, the slice becomes the reference `InvertedY` of its old contents. The length is unchanged. |
| Shaders.InvertedYAt | opengl_go_tutorial/shaders.go:105-109 | In a slice of pairs, odd-index (V) entries become 1 minus their old value and even-index (U) entries are unchanged. An odd-length slice, or one shorter than 2, is unchanged. |
| Shaders.InvertedYInvolution | opengl_go_tutorial/shaders.go:104-111 | Inverting twice restores the coordinates. |
| Drawer.Ext | opengl_go_tutorial/drawer.go:16 | `filepath.Ext`: the result is a suffix of the path. A non-empty result starts with '.' and holds no other '.' and no '/'. An empty result means the final path element has no '.'. |
| Drawer.ExtIsSuffixFromLastDot | opengl_go_tutorial/drawer.go:16 | The extension is exactly the suffix from the last '.' with no '/' after it. |
| Drawer.ExtOfLastElementOnly | opengl_go_tutorial/drawer.go:16 | A final element without '.' has the empty extension, whatever the directories contain. |
| Drawer.NewDrawer | opengl_go_tutorial/drawer.go:15-28 | A drawer is returned if and only if the extension is ".png" or ".jpeg". It is for the unchanged path. Every other extension gives the error "cannot load file with extension: " followed by that extension. |
| Drawer.NewDrawerRefusesUpperCase | opengl_go_tutorial/drawer.go:16-26 | ".PNG" is refused: the comparison is exact. |
| Drawer.NewDrawerRefusesJpg | opengl_go_tutorial/drawer.go:20-26 | ".jpg" is refused: only ".jpeg" is accepted. |
| Drawer.NewDrawerRefusesIvf | opengl_go_tutorial/drawer.go:23-24 | ".ivf" gives the error naming ".ivf" and no drawer. |
| Drawer.NewDrawerUsesLastDot | opengl_go_tutorial/drawer.go:16-22 | Only the last '.' of the final element counts. "b.tar.jpeg" is an image. "png.d/x" has no extension and is refused. |
| Viking.Fit | viking-gl-tutorial/main.go:92 | What `copy` leaves in a zeroed destination row: the row's first bytes in order, at most `lineLen` of them, then zeros. |
| Viking.FlippedLength | viking-gl-tutorial/main.go:88 | The flipped image has exactly width*height*4 bytes. |
| Viking.FlippedRowAt | viking-gl-tutorial/main.go:89-93 | Source row k lands in destination row height-1-k, fitted to `lineLen`. So the first row goes last and row order is reversed. |
| Viking.BottomUpAt | viking-gl-tutorial/main.go:90-93 | Row-by-row placement for any number of rows: the d-th destination row is source row count-1-d. |
| Viking.BottomUpOfEmptyRows | viking-gl-tutorial/main.go:88-91 | With a stride of 0 no row is copied, and the buffer stays all zeros. |
| Viking.CopyRow | viking-gl-tutorial/main.go:92 | `copy` into the zeroed buffer overwrites min(row length, `lineLen`) bytes at `dest` and nothing else. |
| Viking.CopyLine | viking-gl-tutorial/main.go:92-93 | One loop iteration: the buffer gains the next source row just above the rows already placed. |
| Viking.FlipRows | viking-gl-tutorial/main.go:89-94 | The loop from `dest = len(data)-lineLen` down leaves the rows in bottom-up order. |
| Viking.FlipImage | viking-gl-tutorial/main.go:86-94 | The allocated buffer ends up holding the flipped image. |
| Viking.CreateTexture | viking-gl-tutorial/main.go:70-98 | A decode error is returned with texture 0. A non-NRGBA image gives texture 0 and "texture must be an NRGBA image". Neither uploads anything. An NRGBA image uploads the flipped pixels and returns the generated texture. |
| Viking.HandleKey | viking-gl-tutorial/main.go:48-56 | Only Press of Escape sets should-close. Other actions and other keys change nothing, and the flag is never cleared. |

## Left out

- JSON and base64 `encode`/`decode`: the offer arrives already decoded or as `Unreadable`, and the answer is an opaque string.
- Pion internals are inputs: SDP parsing, answer generation, ICE/DTLS/SRTP, and the results of `ReadRTP`, `WriteRTP` and `WriteRTCP`.
- Concurrency is not modelled: goroutines, the 3-second `time.Ticker`, channel blocking and the `sync.Mutex`. The mutex is never locked in either server.
- Relay and heartbeat panics inside the `OnTrack` goroutines would crash the whole process, because only handler panics are recovered. The model reports them as end states of the relay only.
- The heartbeat calls `WriteRTCP` on the package-level `peerConnection` (mirrorweb/main.go:128), not on the connection it was started for. It stops only once the relay reads EOF and signals done (mirrorweb/main.go:132-133, 141-145). If it is still running when a tick fires after a successful close, it calls `WriteRTCP` on a nil `peerConnection` and crashes the process. After a reopen, such a tick sends on the new connection. The model takes the send results as input and captures neither case.
- The `OnICEConnectionStateChange` observer only logs, and `getWeb` and the templates are HTTP plumbing.
- videoFromFileWeb's IVF sender goroutine is not modelled: it reads a file, sleeps, and sends samples through Pion.
- As written, the model follows the code:
  - setup failures panic rather than answering 400;
  - the slot stays full after a failure past `NewPeerConnection`;
  - closing does not wait for the relay or heartbeat goroutines;
  - no lock guards the slot.
- MirrorWeb.StartSession and VideoFromFileWeb.StartSession: a failing `NewPeerConnection` is modelled as leaving the slot empty, since Pion returns nil together with its error.
- Shaders.TexInvertY: coordinates are reals, so float32 rounding of `1 - v` is not modelled.
- Viking.FlipImage: requires `Pix` to hold exactly `height` rows of `Stride` bytes, as `png.Decode`'s NRGBA images do. Other shapes, which can make the Go slicing panic, are not modelled.
- Viking.CreateTexture: requires the same shape of an NRGBA image; the GL texture calls are left out, and `gl.GenTexture`'s result is an input.
- Console output other than the heartbeat's printed send errors is not modelled. This covers the "shader log"/"program log" printouts (opengl_go_tutorial/gldebug.go:16,29; corecube/gldebug.go:16,28), "Track has started" (mirrorweb/main.go:138) and the answer printouts (mirrorweb/main.go:173,176).
- Rtp.RtpPacket holds only marker, payload type, sequence number, timestamp, SSRC and payload. Pion's header also carries version, padding, the extension flag, the CSRC list and header extensions. The relay passes these through unchanged as well, but the model does not represent them.
- Drawer.Ext: only '/' separates path elements. On Windows, Go's `filepath.Ext` also stops at '\\', which is not modelled.
- The GLFW window beyond its should-close flag, the rest of the GL setup, the viewer and streamer programs and the browser scripts are not part of this model.

## Findings

| source | as written | input that shows it | evidently intended | confidence | as-written member | corrected member |
|---|---|---|---|---|---|---|
| corecube/gldebug.go:9-19 | `shaderLog` (and `programLog`, lines 21-31) calls `goString` even when no buffer was allocated. | An INFO_LOG_LENGTH of 0, which OpenGL reports for an object with no log. `goString` of the nil buffer panics. | Return "" for a length that is not positive, as opengl_go_tutorial/gldebug.go:13-19 does. | not executed | CorecubeGlDebug.ShaderLog | TutorialGlDebug.ShaderLog |
