# A model of the Ethernet receiver and the NAPT router

Two independent developments over one small router: a software 10BASE-T receiver that recovers
frames from raw line samples, and the network address and port translation (NAPT) between the LAN
and that Ethernet port. Everything below is proved for all inputs, all runs or all interleavings
that the stated conditions admit.

`dafny verify dfyconfig.toml` checks the project.

## The receiver

The receiver samples the line at 60 MHz, six samples per bit, eight samples per byte. A buffer of
samples is a `seq<bv8>`; `Samples.Sample(buf, i)` is sample i, lowest bit first.

* `Manchester`, `Framing`, `Crc`: what the transmitter emits. The 256-word table is written out
  literally and proved to be the Manchester code of IEEE 802.3 clause 7.3.1. The receiver's input pair is
  wired with its polarity swapped (`hardware/production/netlist.ipc:28-29`), so a bit arrives as
  itself followed by its opposite.
* `Ieee`: the frame check sequence as IEEE 802.3 clause 3.2.9 defines it, by division of
  polynomials over GF(2) on bit strings; the CRC of `Crc` is proved to be it.
* `Line`: a transmission on the line: the emitted half-bits, each sampled any number of times from
  two up, the first preamble bits possibly lost.
* `Dpll`: the decoder. `Decode` is the specification: the bits one sample before each tracked
  edge, packed into bytes, cut at the length the header declares (`Declared`). The per-sample loop and the
  table-driven fast loop are both imperative and both proved to compute it.
* `Drift`: what the decoder makes of a waveform (`Wave`: level, first sample and mid-bit edge of
  each bit). `Shows` says every half-bit lasts at least two samples (one is enough before the
  first mid-bit edge, where a run may begin); `Drifts` says each mid-bit
  edge is within one sample of six after the previous one and, if it comes late, is not preceded
  in the search window by a boundary edge; nothing bounds the sum of these deviations.
* `Runs`, `RxStream`: `poll_into` cuts the stream of DMA halves into images; the runs found
  image by image are those of the stream, less the stretches that outgrew the carry budget.
* `ImageRing`: the ring between interrupt and decode thread, as a state machine whose steps are
  the individual loads and stores of both sides.
* `Receive`, `Inbox`, `Pipeline`: address peek, scan, FCS check, the bounded inbox, and the
  composition of halves, images, ring, scanner, inbox and reader.
* `Delivery`: a whole transmission, end marker and silence included, anywhere in an image and at
  any byte alignment, is found as one run and published as the frame sent, if it is sent to us or
  to a group; otherwise nothing is. At the nominal rate this needs no hypothesis on the channel.
* `Series`: of any number of frames one after the other exactly those for us are published, in
  order, and no transmission is long enough to hit the carry budget.
* `Joint`: ring, thread and inbox in one run, every step interleaved; from the frames sent to the
  reader.

## The translator

* `Checksum`: end-around-carry addition, the incremental update of RFC 1624 section 3 and the full
  computation of RFC 1071.
* `NatTable`, `NatState`: the 64-slot table, as functions on a value and as a class that updates an
  array in place; each method is proved to compute its function.
* `NatRuns`, `NatFlows`, `NatClosing`, `NatCounts`, `NatIds`: runs of outbound, inbound and reap
  operations from power-up.
* `Packets`: TCP, UDP and ICMP echo packets laid out field by field (RFC 791, 793, 768, 792), apart
  from the parser, and what the parser makes of them.
* `Napt`, `NaptChecksum`, `Forward`: the frame rewrites on a byte array, what they do to the L4
  checksum, and the translation of whole frames in both directions.

## What turned out not to hold

Each has its exact condition and an input that fails.

* The ring picks slot `seq % 6` from 32-bit sequence numbers, and 6 does not divide 2^32. A run
  overwrites an unread image if and only if, just after the numbers wrap, an image is begun with
  `2^32 % 6 = 4` or more queued (`ImageRing.NeverOverwritesExactlyWhenRoomy`; the run is
  `ImageRing.DeviceRingWraps`). Rings whose size divides the modulus never do, and no ring does
  before its numbers wrap (`ImageRing.ExclusiveExactlyWhenDivides`, `ImageRing.NoWrapIsRoomy`).
* Close to the end of a run the decoder stops searching and steps six samples. If the last bit came
  early (spacing 5) and fewer than three samples follow its edge, that bit is lost or read inverted;
  it matters exactly when the frame's declared length does not leave out its end
  (`Drift.RoundTripExactlyWhenTailOk`, `Line.EarlyLastEdgeMisreads`).
* A run starts at the byte of its first level change. When the first mid-bit edge of a preamble falls
  exactly between two bytes the decoder does not see it and locks on two bits later;
  `Delivery.Caught` is the wave it follows.
* The incremental checksum differs from the full one on all-zero data. On frames this spoils
  exactly one family: an echo reply whose words are all zero but for checksum and id, renamed to
  id 0 (`NaptChecksum.Spoilt`, `NaptChecksum.SpoiltEchoReply`). It cannot happen outbound, where
  new ids are at least 49152.
* A computed UDP checksum of 0 is not sent as 0xFFFF, as RFC 768 asks, so the datagram leaves
  marked as unchecksummed. It happens exactly when new words less old are congruent to the old
  field modulo 0xFFFF (`NaptChecksum.UdpChecksumVanishes`, `NaptChecksum.UnmarkedDatagram`).
* When an active stretch outgrows the carry buffer it is dropped; samples are conserved exactly
  when that does not happen (`RxStream.ConservedExactlyWithoutCap`, `RxStream.NoiseIsLost`), and
  what is left is the stream without those stretches (`RxStream.SurvivorsArrive`). With
  halves and carry both 16 KB, the second place that counts an overflow
  (`src/eth_rx.rs:415-418`) is never reached (`RxStream.TailFromIsTrail`).
* The inbox loses its oldest frame exactly when more than four were waiting
  (`Inbox.NothingLostExactlyWhenKeptUp`, `Inbox.FifthPutLoses`).
* A closing TCP flow does not stay closing. While it keeps its slot, its state stays `Closing`, and
  its timeout at ten seconds, if and only if every later packet of it carries FIN, SYN or RST
  (`NatClosing.ClosingExactlyWhileMarked`, `NatClosing.TimeoutStaysExactlyWhileMarked`). A FIN and
  then a plain ACK leave it established, under sixty seconds (`NatClosing.PlainAckReopens`).

## Model

| member | source | states |
|---|---|---|
| Manchester.TableIsNibbles | src/manchester.rs:6-24 | all 256 literal words follow one rule: nibble k is 9 if bit k is set, else 6 |
| Manchester.TableIsManchester | src/manchester.rs:1-24 | the sixteen half-bits of a byte's word arrive, through the inverting receiver, as each bit lowest first followed by its opposite |
| Framing.EmitPreamble | src/eth_tx.rs:231-236 | the loop and the SFD write emit the words of seven 0x55 and one 0xD5 |
| Framing.FrameCrc | src/eth_tx.rs:217-222 | whichever CRC routine is chosen, the FCS is the CRC of the body padded to 60 bytes |
| Framing.SendRawFrame | src/eth_tx.rs:216-258 | the words emitted are those of preamble, SFD, padded body and its little-endian FCS, then TP_IDL and twelve idle words |
| Framing.WordsAreManchester | src/eth_tx.rs:230-251 | the emitted words, as received, are the Manchester code of the bytes' bits in order |
| Framing.FramingRoundTrip | src/eth_rx.rs:323-356 | every emitted frame passes the FCS check at full length, and the derived length is the full length if and only if the header is consistent with it |
| Framing.ConsistentFrameAccepted | src/eth_mac.rs:301-323 | a consistent frame is accepted whole, and the decoder's own length cap does not shorten it |
| Framing.JunkIsDropped | src/eth_rx.rs:323-356 | an ARP frame, or an IPv4 frame whose total length is that of its body, is accepted whole and alone, whatever bytes follow it in the run |
| Crc.StepByteLoop | src/crc.rs:20-30 | the eight-shift loop is eight steps of the reflected register |
| Crc.UpdateLoop | src/crc.rs:33-38 | the byte loop folds the step over the data, first byte first |
| Crc.Crc32Loop | src/crc.rs:6-8 | initial value, loop and final complement give the CRC |
| Crc.Crc32Padded | src/crc.rs:11-17 | the padded variant is the CRC of the data extended with real zero bytes |
| Crc.StepByteIsFeed | src/crc.rs:20-30 | a byte step is eight bit-serial steps, lowest bit first, which is wire order |
| Crc.UpdateIsFeed | src/crc.rs:33-38 | the CRC register after a byte string is the bit-serial register after its bits in wire order |
| Crc.ShiftInjective | src/crc.rs:23-27 | the conditional shift never maps two register values to one |
| Crc.AcceptedIsResidue | src/eth_rx.rs:344-356 | a frame is accepted if and only if the register after the whole frame, FCS included, is 0xDEBB20E3 |
| Crc.BurstDetected | src/eth_rx.rs:344-356 | two frames accepted at the same length that differ only within 32 consecutive wire bits, wherever those lie, are identical |
| Crc.OwnFcsAccepted | src/eth_rx.rs:344-356 | after given data exactly one FCS is accepted, the little-endian CRC of that data |
| Ieee.RemainderIsUnique | src/crc.rs:1-3 | division by the generator polynomial has one remainder, the one long division finds |
| Ieee.ComplementsMessage | src/crc.rs:6-8 | from 32 bits on, complementing first and multiplying by x^32 after, or the other way round, is the same |
| Ieee.FeedReduces | src/crc.rs:20-30 | one bit through the register is one step of long division |
| Ieee.CrcIsIeee | src/crc.rs:6-43 | for every byte string the CRC, sent low byte first, is the one frame check sequence of IEEE 802.3: first 32 bits complemented, times x^32, divided by G(x), remainder complemented |
| Ieee.SentWithIeeeFcs | src/eth_tx.rs:216-248 | every frame sent is the body, zeros up to 60 bytes, and the frame check sequence of that |
| Ieee.AcceptsExactlyIeeeFcs | src/eth_rx.rs:344-356 | the receiver accepts exactly the bytes that end in it |
| Line.WaveShows | src/eth_rx_dpll.rs:59-78 | half-bits of the Manchester code sampled two or more times each form a waveform the decoder's theorems apply to |
| Line.NominalTiming | src/eth_rx.rs:24-33 | sampling every half-bit exactly three times meets all timing conditions |
| Line.NominalRoundTrip | src/eth_rx_dpll.rs:83-205 | with no hypothesis on the channel: every non-empty byte sequence, encoded and sampled at the nominal rate, decodes to itself, cut at the declared length |
| Line.SentFrameDecodes | src/eth_rx_dpll.rs:88-205 | a transmitted frame, up to 60 preamble bits lost, sampled with any half-bit widths that meet the timing, decodes to exactly its bytes, cut at the declared length |
| Line.LinkRoundTrip | src/eth_tx.rs:216-251 | of a buffer that ends fewer than 40 samples after the last mid-bit edge, whatever follows it on the line: a transmitted consistent frame is decoded, length-derived, FCS-checked and accepted as exactly the frame sent |
| Line.EarlyLastEdgeMisreads | src/eth_rx_dpll.rs:190-201 | for every frame, a nominal waveform but for a last bit one sample early meets every condition except the last, and does not decode to the frame |
| Dpll.FindF | src/eth_rx_dpll.rs:26-36 | returns the first high-to-low edge, None if there is none |
| Dpll.FindSfd | src/eth_rx_dpll.rs:39-57 | returns the second of the first two consecutive open-loop ones below the limit |
| Dpll.Lock | src/eth_rx_dpll.rs:89-101 | the anchor is the tracked edge nearest five samples past the SFD, or coasted to at the buffer end |
| Dpll.TableIsNearestEdge | src/eth_rx_dpll.rs:59-81 | for every window word the eight-entry table gives the offset that the nearest-edge, ties-low comparison gives |
| Dpll.FastNext | src/eth_rx_dpll.rs:139-153 | the two-byte window and table step to the same edge as the per-sample search, extract the right next bit, and stay inside the buffer |
| Dpll.UpdateCap | src/eth_rx_dpll.rs:125-133 | the cap kept incrementally is the cap the whole prefix implies; `CutIsDeclared` says what cap that is |
| Dpll.CutIsDeclared | src/eth_rx_dpll.rs:125-137 | what is kept of a byte stream is, for EtherType 08 00, the larger of 64 and its IPv4 total length with header and FCS, and never more than 1600 |
| Dpll.PushByte | src/eth_rx_dpll.rs:119-137 | a push never overflows the frame, and decoding stops exactly when the frame is the cut of the full byte stream |
| Dpll.TakeBit | src/eth_rx_dpll.rs:112-137 | the registers after one more bit hold the packed prefix of the bit stream, or the finished frame |
| Dpll.FastLoop | src/eth_rx_dpll.rs:109-154 | from the anchor, the fast loop stops either done with the final frame or at a point from which the per-sample loop can go on |
| Dpll.SimpleLoop | src/eth_rx_dpll.rs:157-202 | from any point and registers, with or without a pending bit, the per-sample loop ends and yields the cut of the whole bit stream |
| Dpll.DecodeSimple | src/eth_rx_dpll.rs:157-204 | the per-sample loop alone computes the specification |
| Dpll.DecodeFrameEdgeTrack | src/eth_rx_dpll.rs:88-205 | fast loop followed by per-sample loop computes the same specification, for every non-empty buffer |
| Dpll.TrackedBitsBound | src/eth_rx_dpll.rs:190-201 | every step advances by at least five samples, so n samples hold at most n/5 bits |
| Dpll.DecodedLengthBound | src/eth_rx_dpll.rs:88-205 | for any samples: the decoded length is at most 1600 and within what its samples can hold, and a frame of EtherType 08 00 is no longer than the larger of 64 and its total length with header and FCS |
| Drift.FindsEdgeExactlyWhenNear | src/eth_rx_dpll.rs:59-78 | the tie-low search finds a mid-bit edge if and only if it is within one sample and, when late, not masked by a boundary edge |
| Drift.FindsPair | src/eth_rx_dpll.rs:39-57 | open-loop search on a preamble of any even length finds exactly the end of the SFD |
| Drift.NoPairBefore | src/eth_rx_dpll.rs:39-57 | before the SFD ends it finds nothing |
| Drift.AnchorIsFirstDataEdge | src/eth_rx_dpll.rs:89-101 | the anchor is the mid-bit edge of the first data bit |
| Drift.TracksExactly | src/eth_rx_dpll.rs:190-201 | one step of tracking goes from one mid-bit edge to exactly the next |
| Drift.TracksAll | src/eth_rx_dpll.rs:109-202 | from any bit on, all remaining bits are read, with no bound on accumulated drift; if the tail condition fails exactly the last bit is lost or inverted |
| Drift.DriftRoundTrip | src/eth_rx_dpll.rs:88-205 | every byte sequence on any waveform within the jitter conditions comes back, cut at its declared length; the tail condition is needed only if that length keeps the whole of it |
| Drift.RoundTripExactlyWhenTailOk | src/eth_rx_dpll.rs:190-201 | every frame comes back, cut at its declared length, if and only if that length leaves out its end, or the last spacing is at least 6, or three samples follow the last edge |
| Runs.FindActiveRunFrom | src/eth_rx.rs:194-219 | returns the next maximal active run that is long enough, whatever comes before it, and nothing else is skipped |
| Runs.RunsConcat | src/eth_rx.rs:192-219 | cutting a stream after an idle byte cuts no run: runs of the parts are the runs of the whole |
| Runs.ScanRuns | src/eth_mac.rs:276-279 | the scan loop finds exactly the long enough maximal runs, in order |
| RxStream.EthRx.constructor | src/eth_rx.rs:117-124 | starts with an empty carry |
| RxStream.EthRx.PollInto | src/eth_rx.rs:372-443 | image, carry, cap count and slot contents after a half are the stated function of the state before, and all copies are in bounds |
| RxStream.EthRx.Stitch | src/eth_rx.rs:426-434 | the slot holds carry then settled bytes, and the new carry is the rest of the half |
| RxStream.EthRx.LeadingActive | src/eth_rx.rs:386-391 | length of the leading active stretch |
| RxStream.EthRx.TailStart | src/eth_rx.rs:408-424 | start of the trailing active stretch, or where the carry budget ran out |
| RxStream.TailFromIsTrail | src/eth_rx.rs:410-424 | when a half fits the carry buffer the walk back stops at the start of the active tail, never on the budget |
| RxStream.PollStep | src/eth_rx.rs:384-443 | one half keeps the carry equal to the stream's trailing active stretch, extends the images by exactly the rest, ends every image idle, and reports how much of it was carried |
| RxStream.SurvivorsArrive | src/eth_rx.rs:368-443 | over any halves: images plus carry are the stream with exactly the over-budget stretches cut out, the carry is its active tail, the counter is the number of cuts modulo 2^32, images end idle, and the runs found image by image are those of that stream |
| RxStream.CutsExactlyAtCaps | src/eth_rx.rs:395-402 | nothing is cut if and only if no half hits the budget, and every hit costs at least one byte |
| RxStream.CapStep | src/eth_rx.rs:392-404 | a half that hits the budget leaves an empty carry, no image, and one more on the counter |
| RxStream.CarriedExactlyIfItFits | src/eth_rx.rs:392-404 | a half without an idle byte that continues an active stretch is carried along exactly if the two fit the carry buffer; otherwise both are dropped and counted |
| RxStream.BoundariesInvisible | src/eth_rx.rs:368-443 | over any halves without a cap hit: images plus carry are the stream, the carry is its active tail, images end idle, and the runs found image by image are those of the uncut stream |
| RxStream.ConservedExactlyWithoutCap | src/eth_rx.rs:395-402 | samples are conserved if and only if no half continues an active stretch past the carry budget |
| RxStream.DeviceCapNeedsLongStretch | src/eth_rx.rs:36-46 | with the device's sizes a cap needs an active stretch longer than one 16 KB half |
| RxStream.NoiseIsLost | src/eth_rx.rs:393-404 | on the device two active halves in a row are both lost, and the overflow is counted once |
| ImageRing.SlotsCollide | src/eth_mac.rs:220-222 | when two sequence numbers, taken modulo 2^32 and then modulo the ring size, share a slot |
| ImageRing.CollidesExactlyWhenCrowded | src/eth_mac.rs:216-222 | a queued image shares the next slot if and only if the numbers have just wrapped and `modulus % slots` or more are queued |
| ImageRing.StepKeepsInv | src/eth_mac.rs:203-272 | every single load or store of either side keeps the ring invariant, as long as no image is begun while crowded |
| ImageRing.DropsOnlyWhenFull | src/eth_mac.rs:203-222 | an image is dropped if and only if every slot was taken when the read index was loaded, and begun otherwise |
| ImageRing.RingIsCorrect | src/eth_mac.rs:203-272 | in every run that never begins an image while crowded, under every interleaving: images consumed in order, each whole and with its own length and carry; never more queued than slots; no write between publication and release; those published are in order among those polled; polled = published + in flight + dropped |
| ImageRing.NeverOverwritesExactlyWhenRoomy | src/eth_mac.rs:216-230 | run by run: no unread image is ever overwritten if and only if none is begun while crowded |
| ImageRing.NoWrapIsRoomy | src/eth_mac.rs:216-222 | fewer images than the modulus, or a ring size that divides it, is enough |
| ImageRing.ExclusiveExactlyWhenDivides | src/eth_mac.rs:220-222 | slot exclusivity over all runs holds if and only if the ring size divides the modulus |
| ImageRing.DeviceRingWraps | src/eth_mac.rs:96-100 | the device's own configuration has a run that overwrites an unread image |
| Receive.Peek | src/eth_rx.rs:223-248 | the bitwise loop reads the six open-loop bytes after the SFD, None if any bit is missing |
| Receive.AcceptsExactlyForUs | src/eth_mac.rs:156-158 | the filter accepts exactly our own address and those whose first bit on the wire is set |
| Receive.LateAddressIsDropped | src/eth_rx.rs:223-248 | a frame whose address ends after bit 200 is not peeked into and not published |
| Receive.PublishedIsChecked | src/eth_mac.rs:276-323 | whatever the samples are, every frame published is at least 18 bytes and ends in its frame check sequence |
| Receive.FilterAgreesWithDecoder | src/eth_mac.rs:281-292 | where the open-loop samples hold through the address, the peek is the first six bytes of the decode, so the filter never discards a frame it should pass |
| Receive.EdgeMakesActive | src/eth_rx.rs:201-210 | a byte with a level change inside it is active |
| Receive.NoEdgeMakesIdle | src/eth_rx.rs:201-210 | a byte without one is idle |
| Receive.WaveIsDense | src/eth_rx.rs:192-219 | a waveform with mid-bit spacing at most seven never goes more than seven samples without a level change |
| Receive.OneFrameOneRun | src/eth_rx.rs:194-219 | such a stretch, quiet around it, is one maximal active run at every byte alignment, ending less than a byte after its last edge |
| Receive.ProcessRun | src/eth_mac.rs:280-323 | peek, filter, decode, length, FCS: what one run publishes |
| Receive.ScanImage | src/eth_mac.rs:276-300 | the frames of an image are those of its runs of at least 100 bytes, in order |
| Receive.PublishedIgnoresBoundaries | src/eth_mac.rs:276-337 | the frames published over any halves are those of what survives the carry budget, which is the uncut stream when no half hits it |
| Receive.RunAnywhere | src/eth_mac.rs:276-279 | a maximal run anywhere in the bytes is found between the runs before it and those after it |
| Receive.FrameInImageIsPublished | src/eth_mac.rs:276-323 | a dense stretch anywhere in an image, whatever else it holds, that carries a frame: exactly that frame is published if it is sent to us or to a group and nothing otherwise, between what is published from before it and from after it |
| Delivery.EndMarker | src/eth_tx.rs:250-251 | TP_IDL arrives as six low half-bits and then ten high ones |
| Delivery.EmissionIsSent | src/eth_tx.rs:230-256 | the half-bits of everything emitted are the frame's, then the end marker's and the idle words' |
| Delivery.EmittedIsCoded | src/eth_tx.rs:230-256 | all the words `send_raw_frame` emits for a frame arrive as the Manchester code of preamble, SFD and frame bits, then the ending |
| Delivery.BurstIsDense | src/eth_rx.rs:194-219 | a sampled transmission after an idle line, its end marker lasting 15 samples or more, is dense from its first mid-bit edge to its last level change and quiet around |
| Delivery.RunConveys | src/eth_rx_dpll.rs:26-57 | its run shows the decoder the same timing, two bits later if the first edge falls between two bytes |
| Delivery.SentFrameIsPublished | src/eth_mac.rs:276-323 | a transmission of a consistent frame, with timing the receiver can follow, anywhere in an image and at any alignment, publishes exactly that frame if it is sent to us or to a group, and nothing if it is sent to another address |
| Delivery.NominalFrameIsPublished | src/eth_mac.rs:276-323 | three samples of every half-bit of the words `send_raw_frame` emits, after 15 idle samples, with anything before and after and at every alignment: they form one run, and exactly that frame is published from it if it is for us |
| Series.PackedRecords | src/eth_rx.rs:24-33 | the samples of a series, packed eight to the byte and followed by any idle samples, are an image the series theorems apply to |
| Series.NothingAfter | src/eth_mac.rs:276-279 | after a frame and the silence behind it the scan finds nothing more: the end of the end marker is a single active byte |
| Series.SeriesIsPublished | src/eth_mac.rs:276-323 | any number of consistent frames, whoever they are sent to, emitted one after the other with any silence between: the scan publishes exactly those sent to us or to a group, in order |
| Series.SeriesHasNoLongStretch | src/eth_rx.rs:36-46 | such a stream nowhere has an active stretch of 9700 bytes |
| Series.SeriesSurvives | src/eth_rx.rs:368-443 | cut into halves of at least that size it never hits the carry budget, leaves nothing in flight, and its frames are exactly those sent to us |
| Pipeline.RingDelivers | src/eth_mac.rs:203-272 | whatever the interleaving and however many images are dropped, the ring accepts images in order and the thread scans each it takes whole |
| Pipeline.AcceptedIsPublished | src/eth_mac.rs:212-272 | dropped images or not, the frames published are, in order, those of the images accepted and taken |
| Pipeline.StreamIsPublished | src/eth_mac.rs:203-337 | with no image dropped and the ring drained, the frames published are those of the stream less what the carry budget cuts out: neither half boundaries nor interleaving show |
| Pipeline.ScanIntoInbox | src/eth_mac.rs:276-337 | the scan pushes the frames of the image's long runs into the inbox, in order, dropping the oldest when full |
| Pipeline.StreamReachesReader | src/eth_mac.rs:203-337 | given what the inbox was handed, frames taken followed by frames waiting are those of the stream if and only if the reader kept up |
| Joint.EventKeeps | src/eth_mac.rs:203-337 | every step of interrupt, thread or reader keeps: what was put into the inbox is what the released images hold, then the frames already published of the image in hand |
| Joint.InboxFollowsRing | src/eth_mac.rs:203-337 | at every moment of every joint run, images dropped or not, the frames put into the inbox are in order those of the images accepted and released, then those of the one in hand |
| Joint.StreamReachesReader | src/eth_mac.rs:203-337 | in every joint run that drains its images, frames taken followed by frames waiting are those of the stream if and only if the reader kept up; nothing is assumed of the inbox |
| Joint.FramesReachReader | src/eth_mac.rs:203-337 | for any series of frames, through halves, images, ring, thread and inbox under any interleaving: the reader gets exactly those sent to us or to a group, in order, if and only if it kept up |
| Joint.AnyImagesCanBeServed | src/eth_mac.rs:203-337 | for any given images there is a joint run that polls exactly these, drains them all, and whose reader keeps up |
| Inbox.RxShared.constructor | src/eth_mac.rs:124-130 | starts empty |
| Inbox.RxShared.PushFrame | src/eth_mac.rs:324-336 | a full inbox loses its oldest frame and counts it, then the frame is queued last |
| Inbox.RxShared.PopFrame | src/eth_mac.rs:446-448 | takes the oldest frame, None when empty |
| Inbox.RxShared.SnapshotStats | src/eth_mac.rs:161-167 | hands out the drop count and the deepest fill, and resets both |
| Inbox.InboxKeepsNewest | src/eth_mac.rs:324-336 | over any run: the inbox is the newest published suffix, at most 4 deep, frames are taken in order and none twice, published = taken + queued + lost |
| Inbox.DropsAreCounted | src/eth_mac.rs:161-167 | over any run, what snapshots reported plus what the counter shows is the number of frames lost, modulo 2^32 |
| Inbox.HighIsDeepest | src/eth_mac.rs:324-336 | the high-water mark is the greatest number of frames waiting just after a put since the last snapshot |
| Inbox.NothingLostExactlyWhenKeptUp | src/eth_mac.rs:324-336 | taken followed by queued is what was published if and only if never more than four frames were waiting |
| Inbox.FifthPutLoses | src/eth_mac.rs:324-330 | five frames with no take between them leave the last four and one drop |
| Checksum.Add1c | src/conntrack.rs:29-32 | is addition folded modulo 0xFFFF with a zero of its own: zero only from two zeros |
| Checksum.FoldWords | tools/conntrack_selftest.rs:31-37 | word-by-word accumulation is the fold of the plain sum |
| Checksum.ChecksumIncr | src/conntrack.rs:36-43 | the loop computes the complement of the fold of old checksum and all word differences |
| Checksum.IncrementalEqualsFull | src/conntrack.rs:34-43 | for any words, edits and true old checksum, incremental equals full if and only if there is nothing to do or the new words are not all zero; otherwise they are 0 and 0xFFFF |
| Checksum.FieldUpdateKeepsValid | src/conntrack.rs:34-43 | updating the field keeps a covered sum folding to 0xFFFF, unless everything became zero |
| NatState.Conntrack.constructor | src/conntrack.rs:143-148 | empty table, cursor at the first id |
| NatState.Conntrack.Position | src/conntrack.rs:246-252 | index of the first slot that matches, else the table size |
| NatState.Conntrack.Outbound | src/conntrack.rs:151-196 | result, table, cursor and counters are the value-level operation on the state before; which slot a new flow takes is `NatRuns.NewFlowTakesExpendable` |
| NatState.Conntrack.Insert | src/conntrack.rs:176-195 | the new entry, its slot and the three counters |
| NatState.Conntrack.Inbound | src/conntrack.rs:200-225 | result, table and counter are the value-level operation on the state before |
| NatState.Conntrack.AllocId | src/conntrack.rs:228-238 | at most one revolution of probing from the cursor |
| NatState.Conntrack.ChooseSlot | src/conntrack.rs:245-263 | the slot is the expendable one: unused, else stale, else the first seen longest ago |
| NatTable.PicksExpendable | src/conntrack.rs:244-263 | the slot chosen is an unused one if there is any, else a stale one if there is any, else one seen no later than any other; the first of its kind |
| NatState.Conntrack.Reap | src/conntrack.rs:266-274 | frees exactly the used, expired slots and counts them |
| NatRuns.AllocNeverFails | src/conntrack.rs:228-238 | pigeonhole: a free id of the range is found within 65 probes, every id skipped being live |
| NatRuns.OutboundKeepsInv | src/conntrack.rs:151-196 | outbound keeps ids and keys distinct, ids in range, counters balanced, and drops nothing |
| NatRuns.ReapKeepsInv | src/conntrack.rs:266-274 | sweeping keeps them too |
| NatRuns.NewFlowTakesExpendable | src/conntrack.rs:167-196 | in every reachable state a new flow takes the expendable slot and leaves the others as they are |
| NatRuns.RunKeepsInv | src/conntrack.rs:151-274 | in every reachable state: distinct ids and keys, cursor in range, NAT_LIVE counts used slots, NAT_NEW = NAT_LIVE + NAT_EVICT, NAT_DROP is 0 |
| NatRuns.OutboundAlwaysTranslates | src/conntrack.rs:167-175 | outbound never returns None in a reachable state |
| NatRuns.OwnIdsNeverMatch | src/wan.rs:20 | an id below the NAT range, such as the router's own ping id 0x42, never matches and changes nothing |
| NatFlows.StepSlot | src/conntrack.rs:151-274 | a used slot after a step is unchanged, or was touched at the step's time by its own flow |
| NatFlows.NoMisdelivery | src/conntrack.rs:198-225 | a reply is delivered only to a client that earlier sent to that remote under that WAN id |
| NatFlows.ReplyInverts | src/conntrack.rs:198-225 | for every live, unexpired entry the reply is translated back to the client that opened it |
| NatFlows.EvictionNeedsPressure | src/conntrack.rs:245-263 | in every reachable state an unexpired flow loses its slot only when every slot is used and none is stale, to a flow not in the table, the 63 others being live, unexpired and seen no earlier |
| NatFlows.LruSurvival | src/conntrack.rs:245-263 | over any run whose times do not go back, an unexpired flow keeps its entry and WAN id unless a new flow comes while 63 others are live, unexpired and seen since |
| NatFlows.FewFlowsNeverPress | src/conntrack.rs:245-263 | that cannot happen while fewer than 64 others have been touched at or after its last touch |
| NatFlows.ReplyReachesSender | src/conntrack.rs:151-225 | under those conditions a timely reply to a translated packet goes to exactly its sender |
| NatFlows.PromptReplyReachesSender | src/conntrack.rs:151-225 | in every reachable state a packet is translated, and a reply with nothing in between reaches its sender exactly until the entry times out |
| NatFlows.SafeForShortestTimeout | src/conntrack.rs:80-84 | for 30 s after a touch for UDP and 10 s for ICMP and TCP, a flow that is not pressed meets those conditions, whatever its TCP state and later touches |
| NatFlows.SafeForItsOwnTimeout | src/conntrack.rs:124-133 | left alone, a flow is safe for exactly the timeout of its own entry: unchanged until then, expired from then on |
| NatClosing.ClosingStep | src/conntrack.rs:284-297 | a closing flow is left closing by FIN, SYN or RST and made established by any other packet |
| NatClosing.TimeoutIsOfLastPacket | src/conntrack.rs:124-133 | after any packet of a flow, in whatever state, it is stale from its timeout on and not before: 60 s for TCP exactly if the packet carried none of FIN, SYN, RST, else 10 s; 30 s for UDP; 10 s for ICMP |
| NatClosing.ClosingOperation | src/conntrack.rs:151-225 | an operation on the table takes a flow out of closing, while it keeps its slot, exactly if it is an unmarked packet of that flow |
| NatClosing.ClosingExactlyWhileMarked | src/conntrack.rs:284-297 | over any run in which it keeps its slot, a closing flow stays closing if and only if each later packet of it, outbound or matched inbound, carries FIN, SYN or RST |
| NatClosing.TimeoutStaysExactlyWhileMarked | src/conntrack.rs:124-133 | for a TCP flow exactly then its timeout stays at that of a closing flow |
| NatClosing.PlainAckReopens | src/conntrack.rs:284-297 | a FIN then a plain ACK: the flow is established and under the long timeout |
| NatCounts.SweepLeavesUnexpired | src/conntrack.rs:266-274 | after a sweep no used slot is stale, every unexpired flow is as it was, and NAT_LIVE is their number |
| NatCounts.CountersCount | src/conntrack.rs:151-225 | in every reachable state NAT_OUT, NAT_IN and NAT_NEW are the packets sent, the replies delivered and the flows opened, modulo 2^32 |
| NatCounts.EvictedAreTheRest | src/conntrack.rs:176-274 | NAT_EVICT and the flows still live make up all flows opened, modulo 2^32 |
| NatIds.HandOutProbes | src/conntrack.rs:228-238 | a hand-out skips live ids only and leaves the cursor just past the id given |
| NatIds.IdReuseDistance | src/conntrack.rs:228-242 | between two hand-outs of one id, at least 16320 different other ids are handed out |
| Napt.NaptRewriteSrc | src/forward.rs:330-355 | the array after the source rewrite, field by field, all accesses in bounds |
| Napt.NaptRewriteDst | src/forward.rs:358-382 | the array after the destination rewrite |
| NaptChecksum.L4Valid | tools/conntrack_selftest.rs:305-325 | the accumulating validator decides whether the covered sum folds to 0xFFFF |
| NaptChecksum.ChecksumFull | tools/conntrack_selftest.rs:31-42 | the full computation over any byte string, an odd last byte included, is the complement of the folded sum |
| NaptChecksum.RewriteIsLocal | src/forward.rs:328-382 | a rewrite changes the address, the id and the checksum field and no other byte |
| NaptChecksum.RewriteReparses | src/forward.rs:282-319 | parsed again, the frame shows the new id and is otherwise the same |
| NaptChecksum.RewriteMovesSum | src/forward.rs:330-382 | the covered sum moves by exactly the words changed and the new field |
| NaptChecksum.RewriteKeepsChecksum | src/forward.rs:330-382 | for every well-formed frame with a valid checksum, any IHL, the rewritten checksum is valid if and only if the frame is not in the one spoilt family |
| NaptChecksum.OutboundRewriteKeepsChecksum | src/forward.rs:330-355 | outbound, it is always valid |
| NaptChecksum.SpoiltEchoReply | src/forward.rs:373-379 | a valid echo reply, addressed anyhow, whose checksum a rewrite to id 0 makes wrong |
| NaptChecksum.UdpChecksumVanishes | src/forward.rs:336-343 | a rewritten UDP checksum comes out as 0 if and only if new words less old are congruent to the old field modulo 0xFFFF and there is anything to add |
| NaptChecksum.UnmarkedDatagram | src/forward.rs:336-343 | a valid datagram that leaves with field 0 |
| Forward.WanDevice.TranslateOut | src/forward.rs:438-468 | frame and table after the NAPT half of egress, and when the frame is dropped |
| Forward.WanDevice.TranslateIn | src/forward.rs:512-546 | frame and table after matching a reply; frames not for us, not parsed or not matched are untouched |
| Packets.PacketParses | src/forward.rs:282-319 | every TCP, UDP and echo packet, laid out by its RFC and with any IP options, parses to exactly its ports or echo id and its TCP flags |
| Packets.OnlyPacketsParse | src/forward.rs:282-319 | nothing else parses |
| Packets.ParsesExactly | src/forward.rs:282-319 | which frames those are, byte by byte: no short ones, no other EtherType or protocol, of ICMP types 0 and 8 only |
| Packets.ValidExactly | tools/conntrack_selftest.rs:305-325 | the checksum is valid if and only if pseudo-header and segment, written out one after the other, add up to a positive multiple of 0xFFFF |
| Packets.SourceRewritten | src/forward.rs:330-355 | the source rewrite yields the same packet from the new address and id, changes no other byte but the checksum, and leaves an unused UDP checksum unused |
| Packets.DestinationRewritten | src/forward.rs:358-382 | the same for the destination |
| Forward.OtherFramesPass | src/forward.rs:442-468 | a frame that is no such packet passes untouched, in either direction |
| Forward.OnlyOursComeIn | src/forward.rs:512-520 | so does an incoming frame for another MAC or IP address, or any while we have no address |
| Forward.EgressAlwaysTranslates | src/forward.rs:442-466 | in every reachable state every such packet is entered under its own flow and flags and leaves with our address and an id of 49152 or more; no other byte changes but the checksum, and a right one stays right |
| Forward.ReplyFrameReachesSender | src/forward.rs:438-546 | whole packets over whole runs: a timely answer, sent to our MAC and IP address, is rewritten for exactly the sender's address and port or echo id, no other byte changed but the checksum, and that right unless spoilt |
| Forward.IngressNeverMisdelivers | src/forward.rs:512-546 | a frame taken as a reply is a packet to us, rewritten for a client that earlier sent to its source under the id it came to |

## Left out

- PIO programs, DMA transfer objects, register access, carrier sense, random back-off and link pulses: hardware. `poll_into` is modelled from the point where a half is complete.
- `RXSTALL_HALVES`, decode statistics, the last-frame snapshot and every other counter not named above: telemetry.
- Receive.ScanImage: does not model the filtered and decode counters and the last-frame snapshot of the same loop; the push into the inbox is in `Pipeline.ScanIntoInbox`.
- Inbox.RxShared.SnapshotStats: does not model the other statistics that the snapshot hands out and resets.
- Pipeline.StreamReachesReader: takes what was put into the inbox as given; `Joint.StreamReachesReader` derives it.
- Series.SeriesIsPublished: frames at the nominal rate; with jitter each frame is covered by `Delivery.SentFrameIsPublished`.
- Line.LinkRoundTrip: takes the end of the buffer as given; `Delivery` derives it from the end marker.
- The memory model under the ring: steps are interleaved one load or store at a time in program order, which is what the acquire and release orderings give two contexts of one core. A slot fill is two steps, begun and finished; in between the slot reads as torn.
- `ImageRing` is a state machine on values, not a class: both sides run at once, and each step changes one shared cell.
- The thread's scan in `Pipeline` and `Joint` reads its image at once, from the first view of the slot; `ImageRing` shows all its views agree. The puts that follow are separate steps.
- `RxStream.EthRx.PollInto`: the two copies in and out of the slot are one copy loop here, and the transfer object that is re-armed is not modelled.
- The module-level atomic counters of the table are fields of the class `NatState.Conntrack`; times are unbounded.
- `Checksum.Add1c`, `Napt.Rewrite` and `NatTable` use integers with explicit bounds; only sample bytes, CRC words and table words are bit-vectors.
- `Dpll.DecodeFrameEdgeTrack`: buffers are sequences, indices unbounded, so the overflow checks of the 32-bit index arithmetic are not modelled; an empty buffer, on which the source would panic, is excluded.
- Fragments: the parser does not look at the fragment offset, and neither does the model; the checksum theorems speak of the bytes of one frame.
- The rest of `egress` and `classify`: TTL, IPv4 header checksum, next hop, neighbour table, L2 rewrite, queues. They are field copies and one full recomputation by a library, not part of this model.
- `receive` and the local stack: a local frame is dropped uncounted when transmission is not ready (`src/forward.rs:603`), so frame conservation does not hold there.
- `build_eth_ipv4_udp_frame`, `ipv4_checksum` and the xorshift generator of the transmitter: straight-line construction.
- The open-loop decoder and the 20 MHz sampler, which are alternative builds; the open-loop reads themselves are covered by `Receive.Peek`.
- The Python reference decoder differs from the Rust one near the buffer end, where it clamps its window instead of coasting (`tools/clock-recovery/harness.py:65-72`); the Rust behaviour is modelled.
- Wi-Fi, DHCP, DNS, USB logging, HTTP, multicore start-up: plumbing over libraries that are not part of this model.
