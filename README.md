# pcap-parse: the packet-to-session pipeline, modelled in Dafny

pcap-parse replays an offline packet capture. For each frame it strips the
link-layer framing (Ethernet, Linux "cooked" SLL, or the netfilter-log
encapsulation, which it parses as a TLV header), resolves the frame's IPv4
five-tuple to a bidirectional session, and feeds the TCP or UDP payload to
that session's protocol decoder, with a direction flag. Before feeding, it
trims capture trailer bytes that lie beyond the IPv4 total-length field
(RFC 791, section 3.1).

This project models that pipeline and proves properties about it:

- `bytes.dfy`: machine integers (`Bytes`). Also the error kinds and the
  `Result`/`Option` wrappers that stand in for the source's panics (`Results`).
- `nflog.dfy` (`Nflog`): the LINKTYPE_NFLOG header decoder, written as pure
  functions over byte sequences that follow nom's `do_parse!`/`take!`/`cond!`/`many0!`
  chain step by step. An encoder is its inverse, and lemmas prove the round
  trip, the failure on truncation, and the selection of the first payload
  record.
- `five_tuple.dfy` (`FiveTuples`): the flow key and its reversal.
- `sessions.dfy` (`Sessions`): the per-packet step on values. It covers session
  resolution (direct key, reverse key, creation), the trailer correction, the
  empty-payload guard, and delivery to the decoder. Lemmas prove the invariant
  "one session per flow, no empty push" and session uniqueness over a whole run
  of packets of one flow.
- `link_layer.dfy` (`LinkLayer`): the fixed-offset demux functions and the
  link-type selection.
- `dispatch.dfy` (`Dispatch`): the `GlobalState` class. Its `Callback` method
  updates the session map in place, reassigning the key, the direction and the
  payload as the source does, and it is proved against `Sessions.Step`. This
  file also holds the per-frame step and the run over a capture's frames,
  stated as functions.

Each decoder instance is modelled as `ParserState`: the name it was created
under and the log of `(bytes, direction)` pushes it has received. The decoder's
internal parsing belongs to an external library and is not modelled.

Fatal conditions are `Err` values of one closed error type. The source's
panics are `NotIpv4`, `UnknownParser`, `ExtraBytesUnderflow`, `ShortFrame`,
`LengthUnderflow`, `Incomplete`, `NoPayloadAttribute` and `UnsupportedLinkType`.

Two behaviours of the code that the model keeps:

- A frame shorter than its 14- or 16-byte fixed header is a fatal error
  (`ShortFrame`), because the source's slice panics. It is not a recoverable
  per-packet skip.
- Session resolution, including creating the session, happens before the
  transport protocol is examined. A packet that is neither TCP nor UDP can
  therefore create a session.

## Model

| member | source | states |
|---|---|---|
| `Nflog.PaddedLen` | src/pcap_nflog.rs:21 | a record of length `l` occupies `l` rounded up to the next multiple of 4 (less than `l + 4`, and exactly `l` when `l % 4 == 0`) |
| `Nflog.ParseTlv` | src/pcap_nflog.rs:16-24 | `l` and `t` are read little-endian from bytes 0..2 and 2..4; the value is bytes `4..l`, with the padding excluded; exactly `PaddedLen(l)` bytes are consumed; it fails exactly when the input is shorter than 4 or than the padded length (`Incomplete`), or `l < 4` (`LengthUnderflow`) |
| `Nflog.LeU8` | src/pcap_nflog.rs:37-38 | `le_u8`: succeeds exactly when a byte is left, returns the first byte and the rest, and otherwise is `Incomplete` |
| `Nflog.LeU16` | src/pcap_nflog.rs:18-19 | `le_u16`: succeeds exactly when two bytes are left, returns their little-endian value and the rest after them, and otherwise is `Incomplete` |
| `Nflog.Take` | src/pcap_nflog.rs:20-21 | `take!(n)`: succeeds exactly when `n` bytes are left, and splits the input into exactly `n` bytes and the rest; otherwise `Incomplete` |
| `Nflog.ParseTlvs` | src/pcap_nflog.rs:40 | `many0!`: on success every record is well formed and all records together occupy exactly the whole input; every failure is `Incomplete` or `LengthUnderflow`; empty input gives no records |
| `Nflog.ParseHeader` | src/pcap_nflog.rs:34-51 | `af` is byte 0, `vers` is byte 1, `res_id` is bytes 2..4 little-endian, and the records are those of bytes `4..`; it succeeds exactly when the input has at least 4 bytes and the records parse; exactly 4 bytes give no records; every failure is `Incomplete` or `LengthUnderflow`, and with 4 or more bytes it is exactly the record list's error |
| `Nflog.FindPayload` | src/pcap_nflog.rs:57 | gives the first record of type 9 (nothing before it has type 9), or nothing exactly when no record has type 9 |
| `Nflog.GetDataNflog` | src/pcap_nflog.rs:54-64 | a header that does not parse gives its parse error; a parsed header gives the value of the first record of type 9 (no earlier record has type 9), and `NoPayloadAttribute` exactly when no record has type 9 |
| `Nflog.ParseEncodeTlv` | src/pcap_nflog.rs:16-24 | one encoded record, with any padding bytes and followed by any bytes, decodes to itself and leaves those bytes |
| `Nflog.ParseTlvsAfterRecord` | src/pcap_nflog.rs:40 | behind one complete record (any padding bytes), the record list parses exactly as the rest does, with that record in front |
| `Nflog.ParseEncodeTlvs` | src/pcap_nflog.rs:16-24 | round trip: well-formed records, encoded with any padding bytes of the right lengths, decode to the same `(l, t, v)` sequence (the padding contents are never looked at) |
| `Nflog.ParseEncodeHeader` | src/pcap_nflog.rs:34-51 | round trip for the whole header, prefix fields and records, whatever the padding bytes |
| `Nflog.EncodeParsedTlv` | src/pcap_nflog.rs:16-24 | converse of the record round trip: a record the decoder accepts is well formed, and re-encoding it with the skipped bytes as padding gives back exactly the bytes it consumed |
| `Nflog.ParseTlvsIsEncoding` | src/pcap_nflog.rs:40 | converse of the list round trip: every input the record list parser accepts is the encoding, for some padding, of the records it returns, so an input holding a record with `l < 4` or a cut record is never accepted |
| `Nflog.TruncatedRecordFails` | src/pcap_nflog.rs:20-21 | a record cut short anywhere in its prefix, value or padding, after any number of complete records, makes record parsing fail |
| `Nflog.ShortHeader` | src/pcap_nflog.rs:37-40 | fewer than 4 bytes fail with `Incomplete` (and so does `get_data_nflog`); exactly 4 bytes parse with no records |
| `Nflog.FindPayloadFirst` | src/pcap_nflog.rs:57 | the first type-9 record is found, whatever records without type 9 come before it and whatever records come after it |
| `Nflog.GetDataNflogOfEncoded` | src/pcap_nflog.rs:54-60 | `get_data_nflog` on an encoded header returns exactly the value of its first payload record |
| `Nflog.NoPayloadFails` | src/pcap_nflog.rs:59 | a header that parses but has no record of type 9 is the error `NoPayloadAttribute`, not an empty slice |
| `Nflog.RoundTripExample` | src/pcap_nflog.rs:16-49 | records of lengths 4, 5, 8 and 9, with any 3-byte paddings, round-trip, and with the prefix they occupy 36 bytes |
| `Nflog.PayloadExample` | src/pcap_nflog.rs:54-60 | a payload record `[0xAA, 0xBB, 0xCC]` between other records is extracted exactly |
| `Bytes.LeBytes16` | src/pcap_nflog.rs:18-19 | the two bytes written little-endian read back, via `le_u16`, as the same 16-bit value |
| `Bytes.LeBytes16Of` | src/pcap_nflog.rs:18-19 | reading a byte pair with `le_u16` and writing the value back gives the same pair |
| `FiveTuples.ReverseInvolutive` | src/main.rs:78 | `Reverse` (`get_reverse`, which swaps source and destination, address and port) undoes itself: reversing a key twice gives the key back |
| `FiveTuples.ReverseFixedPoint` | src/main.rs:78 | a key is its own reverse exactly when source and destination (address and port) coincide |
| `Sessions.Create` | src/main.rs:86 | the registry yields a fresh decoder with an empty log exactly for a registered name, and otherwise the error `UnknownParser` |
| `Sessions.ParseDataAs` | src/main.rs:52-61 | a zero-length payload leaves the decoder unchanged; any other payload is appended to its log with the direction; no empty push is ever recorded |
| `Sessions.Resolve` | src/main.rs:72-90 | the selected key is in the table afterwards; it is the packet's key or its reverse; the direction is 0 exactly when it is the packet's own key; existing entries are kept and at most the packet's key is added, with a fresh decoder of the selected name; it fails only when nothing matches and the name is unregistered |
| `Sessions.ResolveExisting` | src/main.rs:76-89 | a known key gives direction 0 and leaves the table unchanged |
| `Sessions.ResolveReversed` | src/main.rs:78-83 | when only the reverse key is known: direction 1, the reverse key's session is used, and nothing is inserted |
| `Sessions.ResolveCreates` | src/main.rs:84-87 | when neither key is known, exactly one entry is added, under the packet's own key, with an empty decoder and direction 0; every other entry is unchanged |
| `Sessions.ResolvePreservesOnePerFlow` | src/main.rs:76-87 | resolution never leaves a key and its distinct reverse both in the table |
| `Sessions.TrimExtra` | src/main.rs:101-106 | with `actual = header size + segment length`, the result is the prefix of the payload that is `actual - total_length` bytes shorter (so bytes are removed from the tail only); it fails exactly when `actual < total_length` or when there is more trailer than payload |
| `Sessions.TrimExtraNone` | src/main.rs:101 | when `actual == total_length`, the payload is unchanged |
| `Sessions.SegmentPayload` | src/main.rs:92-133 | a TCP or UDP segment hands over exactly its payload corrected by `TrimExtra`, and fails exactly when that correction does (`ExtraBytesUnderflow`); the result is a prefix of the segment payload; other protocols, and segments whose header could not be built, hand over nothing |
| `Sessions.Deliver` | src/main.rs:89-129 | only the resolved session changes: every other entry is kept, the key set is kept, the decoder keeps its name, and its log gains the payload with the packet's direction when the payload is non-empty |
| `Sessions.Step` | src/main.rs:63-69 | a packet without an IPv4 view is the fatal `NotIpv4` (the rest of `callback` is stated by `StepOutcome` and `StepEffect`) |
| `Sessions.StepOutcome` | src/main.rs:63-134 | a packet fails exactly when it is not IPv4 (`NotIpv4`), when resolution fails (`UnknownParser`), or when its correction underflows (`ExtraBytesUnderflow`), checked in that order |
| `Sessions.StepEffect` | src/main.rs:72-134 | a successful packet changes only the session it resolved to: every other entry, old or created, is kept; that session's log gains the packet's non-empty corrected payload with its direction; keys only grow, by at most the packet's key; every new session has the selected decoder's name |
| `Sessions.Steps` | src/main.rs:180-183 | the capture loop over already-demuxed packets, in arrival order, up to the first fatal error; no packets leave the table as it is (`Dispatch.FramesAreSteps` proves it equal to the frame loop) |
| `Sessions.StepPreservesValid` | src/main.rs:63-134 | every successful packet keeps one session per flow and no empty push in any log |
| `Sessions.StepOtherProtocol` | src/main.rs:76-114 | a packet that is neither TCP nor UDP goes through resolution (and so may create a session) but adds nothing to any log |
| `Sessions.StepEmptyPayload` | src/main.rs:54-56 | a payload that is empty after correction reaches no decoder |
| `Sessions.DeliverToOnly` | src/main.rs:89-109 | delivering to the only session of a table appends the packet's push, if it has one |
| `Sessions.StepsWithinFlow` | src/main.rs:72-134 | packets of one flow, applied to a table that holds only that flow, keep the table at that single key and append the expected pushes in order |
| `Sessions.OneFlowOneSession` | src/main.rs:72-90 | session uniqueness: from an empty table, a run of packets of one flow in both orientations (or of a flow whose endpoints coincide) leaves exactly one session, under the first packet's key; its log is every non-empty corrected payload, in order, with direction 0 for the first packet's orientation and 1 for the other |
| `Sessions.TwoPacketScenario` | src/main.rs:76-90 | A→B then B→A (TCP, no trailer) leaves one entry, whose decoder got the two payloads with directions 0 then 1 |
| `LinkLayer.GetDataEthernet` | src/main.rs:136-138 | the result is what follows the first 14 bytes of the frame; a shorter frame is `ShortFrame` |
| `LinkLayer.GetDataLinuxCooked` | src/main.rs:140-143 | the result is what follows the first 16 bytes of the frame; a shorter frame is `ShortFrame` |
| `LinkLayer.GetData` | src/main.rs:173-181 | the selected demux: Ethernet and SLL succeed exactly when the frame holds their fixed header, and give what follows it; NFLOG is `get_data_nflog`; every failure is `ShortFrame`, `Incomplete`, `LengthUnderflow` or `NoPayloadAttribute` |
| `LinkLayer.SelectDecoder` | src/main.rs:172-178 | link type 1 selects Ethernet, 113 selects Linux SLL and 239 selects NFLOG; every other type is `UnsupportedLinkType` |
| `LinkLayer.FixedHeaderStripped` | src/main.rs:136-143 | for any 14-byte (Ethernet) or 16-byte (SLL) header, demux recovers the IP bytes that follow it exactly |
| `Dispatch.GlobalState.constructor` | src/main.rs:43-49 | the state starts with the given registry and an empty session table |
| `Dispatch.GlobalState.Callback` | src/main.rs:63-134 | the in-place update of the session map gives exactly `Sessions.Step` of the old map (an error exactly when the step is an error); a failed callback leaves the table as it was after resolution; the invariant is kept |
| `Dispatch.GlobalState.HandleFrame` | src/main.rs:180-182 | one frame is demuxed and dispatched, as `FrameStep` states; a frame the demux rejects leaves the table unchanged |
| `Dispatch.RemoveExtraBytes` | src/main.rs:99-106 | the imperative trailer correction computes exactly `TrimExtra` |
| `Dispatch.FrameStep` | src/main.rs:180-182 | one turn of the capture loop: a demux failure is fatal with the demux error, otherwise the frame's IP bytes go through `callback` |
| `Dispatch.Frames` | src/main.rs:180-183 | the loop over frames: no frames leave the table as it is; a successful run never removes a session, and every session it creates runs the decoder named on the command line (order and the fatal stop are stated by the three lemmas below) |
| `Dispatch.FramesAreSteps` | src/main.rs:180-183 | when every frame demuxes, the run is exactly the packet fold `Sessions.Steps` over the frames' IPv4 views in capture order, so each frame goes through `callback` in turn and the first fatal packet ends the run |
| `Dispatch.FatalFrameEndsRun` | src/main.rs:180-182 | a frame on which the demux or `callback` fails ends the run with that error; no later frame is processed |
| `Dispatch.FrameThenRest` | src/main.rs:180-182 | a frame that succeeds hands the rest of the run the table it leaves |
| `Dispatch.Demuxed` | src/main.rs:181 | the IPv4 views of the frames, one per frame and in the same order |
| `Dispatch.ReplayOneFlow` | src/main.rs:167-183 | session uniqueness for a whole capture: when every frame demuxes and the packets form one flow in either orientation, the run from an empty table leaves one session, under the first packet's key, whose decoder got every non-empty payload in capture order with its direction |
| `Dispatch.Replay` | src/main.rs:167-183 | the whole run: an unsupported link type is `UnsupportedLinkType`; starting from an empty table, every session of a successful run uses the selected decoder |
| `Dispatch.UnsupportedLinkTypeFails` | src/main.rs:173-178 | an unsupported link type fails the run with `UnsupportedLinkType`, whatever the frames are (none of them is processed) |
| `Dispatch.FramesPreserveValid` | src/main.rs:180-183 | a successful run over any frames keeps one session per flow and no empty push |

## Left out

- Opening the capture file and reading frames from it (`Capture::from_file`, `cap.next()`) are I/O. The frames are a parameter of `Dispatch.Frames`/`Dispatch.Replay`, and a read error simply ends the list.
- Argument parsing, `env_logger`, the `debug!`/`info!` output and `to_hex` are CLI and logging.
- The internals of pnet's `Ipv4Packet`, `TcpPacket` and `UdpPacket` belong to a foreign library. A packet is an abstract `Ipv4View`: the five-tuple, the next-level protocol, `packet_size()`, the total-length field, and the segment's `packet().len()` and `payload()`. `Ipv4Packet::new` returning nothing is the error `NotIpv4`. At frame level the IPv4 view is a function parameter (`ipv4`).
- The internals of the `rusticata` decoders belong to a foreign library. A decoder is represented by the log of pushes it received.
- The five-tuple and registry modules are not part of this model. `FiveTuple` is a datatype whose `Reverse` swaps source and destination, address and port. The registry is the set of names it can create, passed to the constructor.
- Sessions.TrimExtra: the source's unsigned subtractions `actual - total_length` and `payload.len() - extra` panic on underflow in a debug build. The model makes this the explicit error `ExtraBytesUnderflow` and does not model a release build's wrap-around.
- Nflog.ParseTlv: the source's `l - 4` panics for `l < 4` in a debug build. The model makes this the explicit error `LengthUnderflow` and does not model a release build's wrap-around.
- Frames shorter than the fixed Ethernet or SLL header are a fatal `ShortFrame` error. The source panics there.
- After a fatal error the process exits. `Dispatch.GlobalState.Callback` and `Dispatch.GlobalState.HandleFrame` state the table left behind at that point. `Dispatch.Frames`, `Dispatch.Replay` and `Sessions.Steps` return only the error.
