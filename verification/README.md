# Oxisound: a verified model

Oxisound is a Rust audio and MIDI workspace. This project models the parts of it whose correctness is a matter of
exact formats, protocols and arithmetic, and proves what those parts promise:

- **Open Sound Control codec** (`OscPacket`, `OscSpelling`, `OscEncode`, `OscDecode`, `OscReader`, `OscRoundTrip`,
  `OscCanonical`, `OscExact`, `OscErrors`). The encoder appends to one shared buffer, pads by absolute length and patches sizes in
  afterwards; the decoder slices, aligns relative to its slice and rebuilds nested arrays with an explicit stack. Main
  results: the decoder returns a packet exactly when the bytes spell one within the caps, leniencies included; the
  round trip holds exactly for the packets whose text, characters and nesting the format can carry; whatever decodes
  is one re-encoding away from a fixed point; the stack machine inverts the recursive flattening in both directions.
- **Standard MIDI Files** (`SmfFile`, `SmfWriter`, `SmfDecode`, `SmfParser`, `SmfRoundTrip`, `SmfFidelity`,
  `SmfGrammar`, `SmfElision`, `SmfErrors`, `SmfSysEx`). Main results: the parser returns a file exactly when the bytes
  are that file, by a grammar that does not mention it; whichever repeated statuses are left out, the same events come
  back; exactly which events, tracks, divisions and files survive being written; after one parse the written bytes are
  a fixed point; parsing is confined to its chunks.
- **Tempo map and player** (`Tempo`, `TempoOrder`, `Sorting`, `Player`). Main results: the segment walk is the
  tick-by-tick integral of the tempo, which at every tick is that of the latest tempo event; every event plays at the
  integral up to its own tick; the merge of all tracks is a time-ordered permutation that keeps each track's order and
  breaks ties by track.
- **PulseAudio handoff** (`Playback`, `Handoff`, `Discard`, `Chunks`, `Capture`, `SampleFormat`). Main results, over
  every interleaving of the two threads' atomic steps: no wakeup is lost, every byte is accounted for, and exactly
  when a discard request spares what is written after it. What a capture stream hears does not depend on how the
  server cuts its data, and exactly when an overrun spoils what follows it; quantisation costs at most one and a half
  steps and a float stream nothing.
- **Drift-compensating resampler** (`Resampler`, `ResamplerExact`), **SysEx over JACK rings** (`SysEx`,
  `SysExGrammar`: what any stream of bytes and entries turns into), **in-place channel routing** (`Routing`),
  **adaptive buffer sizing** (`AdaptiveSizer`).

Code that works by updating things in place is modelled by classes and methods with loops, each proved against a
specification function; the theorems are about those functions. `Bytes`, `Utf8`, `Numbers` and `Wrappers` hold what
the other modules share. UTF-8 validity is that of section 4 of RFC 3629. The OSC format follows Open Sound Control
1.0, sections "OSC Messages", "OSC Type Tag String", "OSC Arguments" and "OSC Bundles"; the file format follows
Standard MIDI Files 1.0 (RP-001), the sections on chunks, variable-length quantities and meta-events.

Assumptions. Bytes are 0..255 and strings are their UTF-8 bytes. OSC floats and doubles are bit patterns. Seconds,
ratios, phases and the resampler's samples are exact reals, so rounding is not modelled; the samples of the PulseAudio
formats are 32-bit patterns, read as IEEE 754 numbers, infinities and NaNs, and scaled in exact arithmetic. A ring
buffer is a first-in first-out queue of exact capacity with one producer and one consumer. Memory is sequentially
consistent. `usize` is wide enough never to overflow where the source guards against it; those guards collapse into
the length checks beside them. Error values keep their kind and drop their text.

Where code and documentation disagree, the model follows the code. The routing documentation says unrouted slots are
zero-filled; the code keeps their samples, and so does `Routing.RouteFrame`. The writer is documented as lossless for
any conforming parser. `SmfFidelity.FileSurvivesExactly` says exactly which files without SysEx this repository's own
parser gets back, whole or normalised; `SmfFidelity.DivisionSurvivesExactly` leaves, of the frame-based divisions,
only those of 0 and 64 frames. A SysEx message is written without its length: `SmfRoundTrip.SysExOutOfStep` says that,
in any track, the parser never both returns one as it was and stops at its end, and `SmfFidelity.SysExSwallowsTheEnd`
is a track where one does come back and the end of the track is lost. `SmfSysEx.SysExComesBackOutOfStep` is one that
comes back whole, three SysEx messages included, although the parser is out of step from the second event on.
`poll_read` is documented never to park over queued data; `Handoff.SleepsOverDataExactly` gives the one exception, a
poll whose own buffer is empty, and `Handoff.NoLostWakeup` covers all others. A discard is documented never to swallow
audio written after the request; `Discard.LaterAudioSwallowed` is the ordinary case where it does, a poll already past
its swap when the request is made, and `Discard.DiscardSparesExactly` says when the promise holds. The adaptive
sizer's flag is documented to tell whether the last record call changed the size; after a reset it no longer does
(`AdaptiveSizer.FlagIsLastRecordExactly`, `AdaptiveSizer.ResetForgetsTheChange`). Popping whole samples is documented
to keep the capture stream aligned; `Capture.CutIsWholeExactly` says that after an overrun this holds of the server's
samples if and only if the bytes dropped add up to whole ones, and `Capture.CutThroughASample` is the smallest case
where they do not. The resampler is documented to be continuous across calls; `Resampler.CallBalance` says which calls
lose the frame they looked ahead to.

## Model

| member | source | states |
|---|---|---|
| OscEncode.Encode | crates/oxisound-osc/src/encode.rs:20-24 | the encoder's result is the pure format of the packet |
| OscEncode.EncodePacket | crates/oxisound-osc/src/encode.rs:26-31 | at any bundle depth the packet's format is appended and nothing already in the buffer changes |
| OscEncode.EncodeMessage | crates/oxisound-osc/src/encode.rs:33-43 | address, tag string and flat arguments, each padded by absolute length, are the message's format |
| OscEncode.CollectTypeTags | crates/oxisound-osc/src/encode.rs:46-57 | the loop appends the flattened, bracketed tags of the whole argument tree |
| OscEncode.WriteArgs | crates/oxisound-osc/src/encode.rs:60-64 | the loop appends the flat bytes of the whole argument tree |
| OscEncode.EncodeBundle | crates/oxisound-osc/src/encode.rs:90-103 | placeholder, element and patch leave the header followed by each element behind its true size |
| OscEncode.WriteStr | crates/oxisound-osc/src/encode.rs:125-129 | the string, its NUL and zeros up to the buffer's next word, for any buffer length |
| OscEncode.WriteBlob | crates/oxisound-osc/src/encode.rs:140-144 | length, bytes and zeros up to the next word; in an aligned buffer exactly the blob's own format |
| OscEncode.Pad4 | crates/oxisound-osc/src/encode.rs:146-150 | the loop adds exactly the zeros missing to a multiple of four |
| OscEncode.AlignedStr | crates/oxisound-osc/src/encode.rs:146-150 | padding by absolute length is padding by own length once the buffer is word-aligned |
| OscPacket.PacketBytes | crates/oxisound-osc/src/encode.rs:26-103 | every packet's encoding is a whole number of words, whatever it holds |
| OscSpelling.TagsAreLetters | crates/oxisound-osc/src/lib.rs:79-97 | the encoder's flat tags are the standard's letters, arrays between brackets |
| OscRoundTrip.StandardExample | crates/oxisound-osc/src/encode.rs:33-64 | the standard's own worked message, byte for byte |
| OscReader.Cursor.TypedArgs | crates/oxisound-osc/src/decode.rs:120-168 | the loop with its explicit stack gives the tag machine's result, value, cursor and error alike |
| OscReader.Cursor.SingleArg | crates/oxisound-osc/src/decode.rs:170-205 | one argument per tag with the cursor after it, or the error of that tag |
| OscReader.Cursor.Text | crates/oxisound-osc/src/decode.rs:209-230 | the bytes before the first NUL if they are UTF-8, the cursor on the next word, even past the end |
| OscReader.Cursor.Bytes | crates/oxisound-osc/src/decode.rs:232-245 | the counted bytes, the cursor on the next word, an error when they are not all there |
| OscReader.ReadBundle | crates/oxisound-osc/src/decode.rs:55-77 | the element loop with recursion on slices gives the bundle decoder's result |
| OscReader.ReadMessage | crates/oxisound-osc/src/decode.rs:97-112 | address, optional tag string and arguments give the message decoder's result |
| OscReader.ReadPacketAt | crates/oxisound-osc/src/decode.rs:36-51 | depth cap, bundle marker and address test in the source's order |
| OscRoundTrip.ReadsStr | crates/oxisound-osc/src/decode.rs:209-230 | a NUL-free UTF-8 string is read back whatever pads it, and the cursor lands on the next word even past the end |
| OscRoundTrip.EmbeddedNulTruncates | crates/oxisound-osc/src/encode.rs:113-120 | a string with a NUL inside comes back cut at the first one |
| OscRoundTrip.ReadsLeaf | crates/oxisound-osc/src/decode.rs:170-205 | every non-array argument is read back from its letter and its bytes, whatever pads them |
| OscRoundTrip.RunRebuilds | crates/oxisound-osc/src/decode.rs:120-168 | on any further tags and any stack within the cap the machine rebuilds exactly the nested list and consumes exactly its flat bytes |
| OscRoundTrip.PacketRoundTrip | crates/oxisound-osc/src/decode.rs:36-77 | any tree of bundles and arrays within the caps comes back whole |
| OscRoundTrip.SpeltDecodes | crates/oxisound-osc/src/decode.rs:36-168 | whatever spells a packet within the caps decodes to it at any depth |
| OscExact.DecodesExactly | crates/oxisound-osc/src/decode.rs:28-245 | on every input the decoder returns a packet if and only if the bytes spell it and its text, characters and nesting are within bounds |
| OscExact.AddressAlone | crates/oxisound-osc/src/decode.rs:101-108 | an address followed by nothing, or by anything but a comma, is a message without arguments |
| OscExact.TrailingIgnored | crates/oxisound-osc/src/decode.rs:97-112 | bytes after a message's arguments change nothing |
| OscExact.PaddingMayBeMissing | crates/oxisound-osc/src/decode.rs:209-230 | an address or an empty tag string may end the data at its NUL |
| OscErrors.BadStarts | crates/oxisound-osc/src/decode.rs:36-51 | bundles more than 32 deep, and what begins neither a message nor a bundle, are refused before anything else |
| OscErrors.BadAddresses | crates/oxisound-osc/src/decode.rs:209-230 | an address without NUL or not in UTF-8 is an error of its own |
| OscErrors.BadBundles | crates/oxisound-osc/src/decode.rs:55-72 | a time tag or size cut short, and an element longer than what is left |
| OscErrors.BadArguments | crates/oxisound-osc/src/decode.rs:170-245 | strings past the end, unterminated or not UTF-8, blobs longer than the data, codes that are no character |
| OscErrors.StrayClose | crates/oxisound-osc/src/decode.rs:144-153 | after any arguments a bracket that closes nothing |
| OscErrors.StrayLetter | crates/oxisound-osc/src/decode.rs:203 | after any arguments a letter that is none of the standard's |
| OscErrors.MissingBytes | crates/oxisound-osc/src/decode.rs:273-284 | after any arguments one whose bytes are not all there |
| OscErrors.OpenList | crates/oxisound-osc/src/decode.rs:163-165 | a list opened and not closed |
| OscErrors.ManyLists | crates/oxisound-osc/src/decode.rs:131-143 | more than 31 lists open at once |
| Utf8.EncodedIsValid | crates/oxisound-osc/src/decode.rs:224-226 | every sequence of scalar values, encoded, passes the UTF-8 test and gives its characters back |
| Utf8.ValidIsEncoded | crates/oxisound-osc/src/decode.rs:224-226 | nothing else passes: what passes is the encoding of its characters |
| OscCanonical.RunInverts | crates/oxisound-osc/src/decode.rs:120-168 | a run that ends well has arguments whose tags are exactly the tags read, whose bytes take exactly the bytes consumed, nested at most 31 deep |
| OscCanonical.AcceptedTagsBalance | crates/oxisound-osc/src/decode.rs:128-165 | every accepted tag string balances its brackets with at most 31 open |
| OscCanonical.PacketInverts | crates/oxisound-osc/src/decode.rs:36-112 | whatever decodes, padded or not, is in the encoder's domain and re-encodes to at most three times its size plus four |
| OscCanonical.RoundTripExactly | crates/oxisound-osc/src/encode.rs:10-24 | below 4 GiB, decoding the encoding gives the packet back if and only if its text, characters and nesting are within the format's |
| OscCanonical.DecodeCanonicalises | crates/oxisound-osc/src/decode.rs:28-112 | any input below 1 GiB that decodes, decodes to the same packet again after re-encoding |
| SmfWriter.Write | crates/oxisound-smf/src/writer.rs:33-60 | header and chunks in order, each chunk behind its true length |
| SmfWriter.EncodeTrack | crates/oxisound-smf/src/writer.rs:62-136 | all events in order, and an end-of-track event exactly when the track has none |
| SmfWriter.WriteTimed | crates/oxisound-smf/src/writer.rs:66-127 | delta time and event bytes for every kind of event |
| SmfWriter.WriteVlq | crates/oxisound-smf/src/writer.rs:142-159 | groups collected upwards and emitted downwards spell the quantity most significant group first |
| SmfWriter.FourPlacesExactly | crates/oxisound-smf/src/writer.rs:142-152 | a quantity's groups fit the writer's four places if and only if it is below 2^28 |
| SmfParser.ParseFile | crates/oxisound-smf/src/parser.rs:14-32 | header and as many tracks as it announces, or the first error |
| SmfParser.Cursor.HeaderChunk | crates/oxisound-smf/src/parser.rs:35-71 | format, track count and division, or the error of the first field that is wrong |
| SmfParser.Cursor.OneTrack | crates/oxisound-smf/src/parser.rs:73-123 | the event loop with running status, name and early end gives the track function's result and leaves the cursor at the chunk's end |
| SmfParser.Cursor.OneEvent | crates/oxisound-smf/src/parser.rs:129-185 | meta, SysEx, explicit and elided status, in the source's order |
| SmfParser.Cursor.ChannelMessage | crates/oxisound-smf/src/parser.rs:187-228 | one or two data bytes by message type, each bounded by the track |
| SmfParser.Cursor.Vlq | crates/oxisound-smf/src/parser.rs:281-294 | at most four groups, an error at the end of the file and for a fifth |
| SmfDecode.EventConfined | crates/oxisound-smf/src/parser.rs:129-228 | every parsed event moves forward and ends inside its track |
| SmfDecode.DeltaFits | crates/oxisound-smf/src/parser.rs:277-294 | every quantity read is below 2^28 |
| SmfRoundTrip.VlqShape | crates/oxisound-smf/src/writer.rs:138-159 | the exact bytes of every quantity below 2^28 |
| SmfRoundTrip.ReadsVlq | crates/oxisound-smf/src/parser.rs:281-294 | every written quantity is read back with exactly its bytes consumed |
| SmfGrammar.VlqIs | crates/oxisound-smf/src/parser.rs:281-294 | on every input a quantity is read if and only if one to four flagged groups spell it, leading zero groups included |
| SmfGrammar.EventIs | crates/oxisound-smf/src/parser.rs:129-273 | on every input an event is returned if and only if the bytes are that event: SysEx and metas with their lengths, channel messages with their status or the running one |
| SmfGrammar.EventsExactly | crates/oxisound-smf/src/parser.rs:90-116 | on every input the event loop returns the events that stand there and nothing else |
| SmfGrammar.ParsesExactly | crates/oxisound-smf/src/parser.rs:14-123 | on every input the parser returns a file if and only if the bytes are that file |
| SmfErrors.BadHeaders | crates/oxisound-smf/src/parser.rs:35-62 | the first field of the header that is wrong decides the error |
| SmfErrors.BadChunks | crates/oxisound-smf/src/parser.rs:73-84 | a chunk header cut short, of another kind, or longer than the file |
| SmfErrors.BadQuantities | crates/oxisound-smf/src/parser.rs:281-294 | more than four groups, or the file ending before the last |
| SmfErrors.DeltaAlone | crates/oxisound-smf/src/parser.rs:93-97 | a delta time with nothing of its track behind it |
| SmfErrors.BadMessages | crates/oxisound-smf/src/parser.rs:169-218 | data without a status, a status that is none, data the track does not hold |
| SmfErrors.BadSysEx | crates/oxisound-smf/src/parser.rs:150-156 | SysEx longer than its track |
| SmfErrors.BadMetas | crates/oxisound-smf/src/parser.rs:137-147 | metas without a type, longer than their track or too short for their type |
| SmfErrors.ErrorAfter | crates/oxisound-smf/src/parser.rs:92-99 | an error after an event that is there is the error of the track |
| SmfErrors.ErrorAtOnce | crates/oxisound-smf/src/parser.rs:92-99 | an event that cannot be read is the error of the track |
| SmfElision.ElisionIsInvisible | crates/oxisound-smf/src/parser.rs:172-185 | a track with any of its repeated channel statuses left out, metas between them or not, parses to the same events |
| SmfElision.NothingElided | crates/oxisound-smf/src/writer.rs:66-133 | with none left out these are the writer's bytes up to the first end of track |
| SmfRoundTrip.ReadsEvent | crates/oxisound-smf/src/parser.rs:129-273 | in any context and under any running status an event the format can carry is read back from its bytes |
| SmfRoundTrip.EventSurvivesExactly | crates/oxisound-smf/src/writer.rs:69-126 | in any data, at any offset and under any running status, an event's bytes give it back with the parser at their end if and only if it is no SysEx and its data length, tempo, name and meta type fit the format |
| SmfRoundTrip.SysExOutOfStep | crates/oxisound-smf/src/parser.rs:150-157 | in any context the parser never both returns a written SysEx message as it was and stops where it ends |
| SmfRoundTrip.ReadBackIsOk | crates/oxisound-smf/src/parser.rs:129-273 | SysEx apart, an event that comes back at all is one the format can carry |
| SmfFidelity.EventsRoundTrip | crates/oxisound-smf/src/parser.rs:92-114 | a written track parses to its events up to the first end of track, or closed by one of delta 0 |
| SmfFidelity.EventsSurviveExactly | crates/oxisound-smf/src/parser.rs:92-114 | a written track without SysEx before its end parses to its cut if and only if the format can carry every event up to that end |
| SmfFidelity.InStepExactly | crates/oxisound-smf/src/parser.rs:92-114 | with SysEx or without, a written track is read event by event where it was written if and only if the format can carry every event up to its end |
| SmfSysEx.SysExComesBackOutOfStep | crates/oxisound-smf/src/parser.rs:92-114 | a track with SysEx that parses to exactly its cut while its events are read in the wrong places |
| SmfFidelity.SysExSwallowsTheEnd | crates/oxisound-smf/src/writer.rs:70-75 | a track whose SysEx message comes back as it was and takes the end of the track with it |
| SmfFidelity.DivisionSurvivesExactly | crates/oxisound-smf/src/writer.rs:41-49 | beats survive if and only if below 2^15, frame rates if and only if they are 0 or 64 |
| SmfFidelity.FrameRateNegated | crates/oxisound-smf/src/parser.rs:63-68 | a frame rate comes back negated in its seven bits |
| SmfFidelity.WrittenFileParses | crates/oxisound-smf/src/parser.rs:14-123 | a file of carriable events always parses once written, every track cut and renamed, and equals the normalised original if and only if its division survives |
| SmfFidelity.FileSurvivesExactly | crates/oxisound-smf/src/writer.rs:16-32 | a file without SysEx comes back normalised if and only if it has fewer than 2^16 tracks, a division that survives and only carriable events up to each track's end, and unchanged if and only if it is also normal already |
| SmfFidelity.EventsInvert | crates/oxisound-smf/src/parser.rs:92-114 | parsed events without SysEx are all ones the format can carry, and at most five times longer when rewritten |
| SmfFidelity.RewritingIsStable | crates/oxisound-smf/src/writer.rs:17-32 | a parsed file is rewritten without loss, and what its bytes parse to is written as the same bytes again |
| SmfFidelity.ChunksConsumed | crates/oxisound-smf/src/parser.rs:73-123 | a successful parse of chunks ends exactly where their lengths add up, inside the file |
| SmfFidelity.ElidedStatusIsLatest | crates/oxisound-smf/src/parser.rs:90-104 | every channel message carries the status it starts with or, elided, the latest one spelt out before it in its track |
| Tempo.FromFile | crates/oxisound-smf/src/timing.rs:34-85 | the collecting loops, the stable sort, the removal of duplicates and the default entry give the map |
| Tempo.RemoveDuplicates | crates/oxisound-smf/src/timing.rs:61-68 | of each run of equal ticks the last tempo is kept |
| Tempo.MapCarriesTempo | crates/oxisound-smf/src/timing.rs:34-85 | entries rise strictly from tick 0, and at every tick their tempo is the last change in (tick, track, position) order, or the default |
| TempoOrder.TempoIsLatest | crates/oxisound-smf/src/timing.rs:34-85 | the tempo at a tick is that of the greatest tempo event in (tick, track, position) order not after it, its tick being the sum of deltas, or 500000 |
| Tempo.TickToSecs | crates/oxisound-smf/src/timing.rs:90-113 | the segment walk with its early exit is the exact integral of the tempo |
| Tempo.SecondsAreIntegral | crates/oxisound-smf/src/timing.rs:90-128 | the time of a tick is the sum of the file's tempo over every tick before it, and zero without beats |
| Tempo.SecondsMonotone | crates/oxisound-smf/src/timing.rs:90-113 | time never runs backwards |
| Sorting.StableSortSorts | crates/oxisound-smf/src/player.rs:31-32 | sorting permutes and orders |
| Sorting.FilterSorts | crates/oxisound-smf/src/player.rs:31-32 | selecting any of the elements commutes with sorting them, which is stability |
| Player.SmfPlayer.constructor | crates/oxisound-smf/src/player.rs:18-35 | the accumulating loops and the sort give the merged stream |
| Player.MergeIsFaithful | crates/oxisound-smf/src/player.rs:14-35 | a permutation of all tracks' events in non-decreasing time that keeps every track's order and breaks ties by track |
| Player.PlaysOnTime | crates/oxisound-smf/src/player.rs:18-35 | every event of every track plays once, in its track's order, at the integral of the tempo up to the sum of deltas including its own |
| Player.TimelessIsConcatenation | crates/oxisound-smf/src/player.rs:18-35 | for frame-based or zero divisions the stream is one track after the other |
| Playback.Stream.ServeInto | crates/oxisound-pulse/src/linux/stream.rs:128-138 | pops what there is; an empty pop changes nothing |
| Playback.Stream.PollRead | crates/oxisound-pulse/src/linux/stream.rs:154-185 | discard, serve, register, serve again, count: one undisturbed poll, which is never ready with no bytes |
| Playback.PollBringsAllItCan | crates/oxisound-pulse/src/linux/stream.rs:154-185 | a poll brings the oldest bytes left after the discard, as many as there are or fit |
| Playback.Stream.Write | crates/oxisound-pulse/src/linux/stream.rs:506-533 | all or nothing: the encoded samples are queued and the reactor woken, or nothing changes; no partial write |
| Playback.Stream.DiscardBuffered | crates/oxisound-pulse/src/linux/stream.rs:456-462 | the request records the backlog of its own moment and wakes the reactor |
| Playback.DiscardDropsItsSnapshot | crates/oxisound-pulse/src/linux/stream.rs:154-165 | with the request and the next poll each taken as one step, the poll drops exactly the backlog: everything written later is served or still queued, in order |
| Discard.DiscardSparesExactly | crates/oxisound-pulse/src/linux/stream.rs:76-80 | for a request in any reachable state and any interleaving around it, no later-written byte is ever dropped before another request if and only if nothing left the ring between snapshot and store and the reactor stands where nothing can leave it before the next swap |
| Discard.DropsTheBacklogOnly | crates/oxisound-pulse/src/linux/stream.rs:154-161 | under that condition every continuation has dropped nothing yet or exactly the bytes queued at the request |
| Discard.SkipTakesNewerExactly | crates/oxisound-pulse/src/linux/stream.rs:157-161 | a skip of the snapshot's count takes newer bytes if and only if the backlog was not empty, part of it has left the ring since and something newer is in it |
| Discard.LaterAudioSwallowed | crates/oxisound-pulse/src/linux/stream.rs:450-461 | an undisturbed request after which the next byte written is swallowed |
| Handoff.NoLostWakeup | crates/oxisound-pulse/src/linux/stream.rs:153-186 | under every interleaving a reactor parked over data has a wake waiting or in the writer's hand, or its waker in the slot and the writer between push and take |
| Handoff.WriterFinishes | crates/oxisound-pulse/src/linux/stream.rs:329-333 | the rest of a write leaves a wake for a reactor asleep over its data |
| Handoff.EveryByteAccountedFor | crates/oxisound-pulse/src/linux/stream.rs:128-186 | under every interleaving the bytes delivered or dropped, then those queued, are those written; both counters are exact; no write is cut short |
| Handoff.UnderrunsBounded | crates/oxisound-pulse/src/linux/stream.rs:66-73 | in every reachable state the underruns counted are at most the polls that brought data, one fewer while not starved |
| Handoff.PollIsItsSteps | crates/oxisound-pulse/src/linux/stream.rs:154-185 | the reactor's atomic steps in a row are the undisturbed poll |
| Handoff.WriteIsItsSteps | crates/oxisound-pulse/src/linux/stream.rs:506-533 | the handle's atomic steps in a row are the undisturbed write |
| Handoff.SleepsOverDataExactly | crates/oxisound-pulse/src/linux/stream.rs:154-185 | from any state an undisturbed poll parks over queued data with no wake waiting if and only if its buffer is empty and more is queued than is to be discarded |
| Handoff.EmptyBufferSleepsOverData | crates/oxisound-pulse/src/linux/stream.rs:165-184 | such a state is reached by one write and a poll with an empty buffer |
| Capture.Stream.Write | crates/oxisound-pulse/src/linux/stream.rs:200-211 | as much of a chunk as fits is queued, a cut chunk is counted once |
| Capture.Stream.Read | crates/oxisound-pulse/src/linux/stream.rs:752-773 | whole samples are popped and decoded into the front of the output, the rest of it untouched |
| Chunks.DecodeInto | crates/oxisound-pulse/src/format.rs:179-201 | as many samples as there are whole chunks and room for, in order, the rest of the output untouched |
| Capture.HeardThenQueued | crates/oxisound-pulse/src/linux/stream.rs:752-773 | without overruns the samples heard, then those queued, are the samples of all bytes sent, however cut and read |
| Capture.ReadTakesAllItCan | crates/oxisound-pulse/src/linux/stream.rs:752-773 | a read takes as many whole samples as are wanted and there |
| Capture.CountersAreExact | crates/oxisound-pulse/src/linux/stream.rs:200-211 | over any run each cut chunk counts once and each accepted byte counts |
| Capture.ChunkingIsInaudible | crates/oxisound-pulse/src/linux/stream.rs:762-766 | two ways of cutting and reading the same data hear the same samples, one perhaps further than the other |
| Capture.TruncationIsWhole | crates/oxisound-pulse/src/linux/stream.rs:200-211 | whenever a chunk is cut short, everything accepted so far adds up to whole samples |
| Capture.CutIsWholeExactly | crates/oxisound-pulse/src/linux/stream.rs:200-211 | after the first cut chunk, whatever follows is heard as the server's samples with one stretch left out if and only if the bytes dropped add up to whole samples |
| Capture.CutThroughASample | crates/oxisound-pulse/src/linux/stream.rs:200-211 | the smallest cut after which a sample is heard that the server never sent |
| Capture.CapacityIsWholeExactly | crates/oxisound-pulse/src/model.rs:337-348 | the ring holds whole samples if and only if its size did not saturate or samples are one or three bytes wide |
| Capture.CapacityIsLeast | crates/oxisound-pulse/src/model.rs:337-348 | unless it saturates, the ring holds the least whole frames for the seconds asked for, two by default, and eight periods |
| SampleFormat.EncodeSamples | crates/oxisound-pulse/src/format.rs:123-162 | the loop appends every sample's bytes in order |
| SampleFormat.NeverWraps | crates/oxisound-pulse/src/format.rs:113-155 | levels stay within the format's peak, so neither clamp after rounding ever acts |
| SampleFormat.LevelMonotone | crates/oxisound-pulse/src/format.rs:125-155 | a larger sample never gets a smaller level |
| SampleFormat.LevelIs | crates/oxisound-pulse/src/format.rs:125-155 | a NaN is silence, full scale and beyond saturate, anything else is the rounded product with the peak |
| SampleFormat.RoundsToNearest | crates/oxisound-pulse/src/format.rs:125-155 | rounding goes to the nearest whole number, halves away from zero |
| SampleFormat.WireExamples | crates/oxisound-pulse/src/format.rs:123-162 | the bytes of full scale and silence in every format |
| SampleFormat.WireMeaning | crates/oxisound-pulse/src/format.rs:183-197 | every pattern of every integer format decodes to its little-endian two's complement over full scale, bytes offset by 128 |
| SampleFormat.FractionIsLinear | crates/oxisound-pulse/src/format.rs:204-206 | within one exponent the floats a clamp meets are spaced evenly |
| SampleFormat.SubnormalsAreLinear | crates/oxisound-pulse/src/format.rs:204-206 | below the least exponent floats are spaced evenly down to zero |
| SampleFormat.ExponentDoubles | crates/oxisound-pulse/src/format.rs:204-206 | one more in the exponent doubles the value |
| SampleFormat.SignAndSpecials | crates/oxisound-pulse/src/format.rs:204-206 | the top bit negates; infinities and NaNs are the patterns with all exponent bits set |
| SampleFormat.ShiftPairSignExtends | crates/oxisound-pulse/src/format.rs:187-192 | the shift pair gives the two's-complement value of every 24-bit pattern |
| SampleFormat.QuantisationBound | crates/oxisound-pulse/src/format.rs:123-206 | for every integer format and every 32-bit float, NaN as silence, decoding the encoding is within one and a half steps of the clamped sample |
| SampleFormat.FloatsPass | crates/oxisound-pulse/src/format.rs:156-197 | a float stream gives every bit pattern back |
| SampleFormat.BufferRoundTrip | crates/oxisound-pulse/src/format.rs:123-201 | a whole buffer comes back sample by sample in order, a partial tail ignored |
| Resampler.Duplex.UpdateDrift | crates/oxisound-cpal/src/streams.rs:594-599 | one smoothing step towards the clamped ratio, none before the first input frame |
| Resampler.Duplex.Pump | crates/oxisound-cpal/src/streams.rs:614-679 | pops exactly the frames needed, queues exactly the interpolated frames planned and carries the phase |
| Resampler.SmoothedStaysBounded | crates/oxisound-cpal/src/streams.rs:594-599 | the smoothed ratio stays in [0.5, 2] |
| Resampler.CallInterpolates | crates/oxisound-cpal/src/streams.rs:636-672 | never more output than room; every value lies between two samples of its channel among the frames popped, so the silent fallback is never read |
| ResamplerExact.WholePositionIsExact | crates/oxisound-cpal/src/streams.rs:652-668 | at a whole position the output is that input frame's own sample, of the same channel or the last |
| ResamplerExact.RampStaysRamp | crates/oxisound-cpal/src/streams.rs:652-668 | between two popped frames the output is linear in the position |
| ResamplerExact.LastFrameIsHeld | crates/oxisound-cpal/src/streams.rs:655-666 | past the last popped frame its sample is held |
| ResamplerExact.FramesAt | crates/oxisound-cpal/src/streams.rs:650-671 | each output frame is read one step after the one before, starting at the phase |
| ResamplerExact.UnitStepPassesThrough | crates/oxisound-cpal/src/streams.rs:650-671 | at equal clocks, in phase and with equal channels, the input is played unchanged |
| ResamplerExact.PlannedIsMost | crates/oxisound-cpal/src/streams.rs:636-641 | a call makes as many frames as fit and the input reaches |
| ResamplerExact.StepInvertsRatio | crates/oxisound-cpal/src/streams.rs:625 | one output frame moves the input on by the inverse of the smoothed ratio |
| ResamplerExact.DriftDecays | crates/oxisound-cpal/src/streams.rs:594-599 | each measurement takes one twentieth off the distance to the clamped ratio |
| Resampler.CallBalance | crates/oxisound-cpal/src/streams.rs:642-679 | a call takes what it plays and the change of phase, and loses one lookahead frame unless it made nothing or its phase ended past the last frame |
| Resampler.RunStaysBalanced | crates/oxisound-cpal/src/streams.rs:614-679 | over any run of n productive calls, frames popped minus input played lies strictly between -1 and n + 1 |
| SysEx.Reassembler.FeedAll | crates/oxisound-jack/src/midi_util.rs:54-94 | the byte loop gives the reassembler's state and events |
| SysEx.FeedKeepsShape | crates/oxisound-jack/src/midi_util.rs:54-94 | the buffer is empty or the opening byte followed by data bytes, and only well-formed events come out |
| SysEx.FeedSplits | crates/oxisound-jack/src/midi_util.rs:48-54 | feeding two pieces in turn gives the events and state of feeding them as one |
| SysExGrammar.FeedExactly | crates/oxisound-jack/src/midi_util.rs:48-94 | on any stream: 0xF7 completes what began at the last status if that is 0xF0, realtime bytes left out and passed on at once |
| SysEx.CutIsTight | crates/oxisound-jack/src/midi.rs:75-90 | entries of sixteen bytes and one for what is left, zero-filled, all with the message's time |
| SysEx.Output.SendRaw | crates/oxisound-jack/src/midi.rs:75-90 | succeeds if and only if every entry fits, and then queues exactly the message in entries of at most 16 bytes |
| SysEx.Input.RecvWithSysEx | crates/oxisound-jack/src/midi.rs:162-174 | drains the ring, every entry to the reassembler or to the caller, in order |
| SysEx.MessageReassembles | crates/oxisound-jack/src/midi.rs:162-174 | however a message is spread over entries and whatever realtime entries fall between them, it completes exactly once |
| SysEx.OrdinaryEntriesPass | crates/oxisound-jack/src/midi.rs:162-172 | with no message open, entries that open none all reach the caller untouched and in order |
| SysEx.MessageAmongOthers | crates/oxisound-jack/src/midi.rs:162-174 | a message with ordinary entries before and after it completes once between them |
| SysExGrammar.DrainExactly | crates/oxisound-jack/src/midi.rs:162-174 | on any ring an entry reaches the caller if and only if it is empty or is met with no message open and opens none; all other bytes are fed as one stream |
| SysEx.CallsDoNotMatter | crates/oxisound-jack/src/midi.rs:162-174 | draining in any number of calls returns what one call would |
| SysEx.SentAlone | crates/oxisound-jack/src/midi.rs:75-174 | the sender's own entries, with nothing between them, drain to exactly the message |
| SysEx.SysExEndToEnd | crates/oxisound-jack/src/midi.rs:75-174 | a message of any length, cut by the sender, comes out whole exactly once, every realtime byte once and in order, and ordinary entries before and after it untouched |
| Routing.ApplyInterleaved | crates/oxisound-core/src/lib.rs:1145-1166 | the in-place loop routes every whole frame from its original samples and leaves a partial one alone |
| Routing.RoutedAt | crates/oxisound-core/src/lib.rs:1152-1165 | each slot of each frame gets that frame's sample named by the last mapping in range, or keeps its own |
| Routing.SurroundIsIdentity | crates/oxisound-core/src/lib.rs:1016-1027 | the standard surround routing changes no buffer of any width |
| Routing.InverseRestores | crates/oxisound-core/src/lib.rs:1145-1166 | a permutation of slots followed by its inverse restores the whole buffer |
| AdaptiveSizer.Sizer.RecordUnderrun | crates/oxisound-cpal/src/adaptive.rs:89-95 | one underrun step, bounds kept |
| AdaptiveSizer.Sizer.RecordStablePeriod | crates/oxisound-cpal/src/adaptive.rs:101-119 | one stable-period step, bounds kept, the counter never overflowing |
| AdaptiveSizer.ReachableIsValid | crates/oxisound-cpal/src/adaptive.rs:58-126 | in every reachable state 1 <= min <= initial <= current <= max, and the flag says whether the last call was a record call that changed the size |
| AdaptiveSizer.NewPutsRight | crates/oxisound-cpal/src/adaptive.rs:58-72 | bounds that make sense are taken as they are, others put right, and the threshold is the one asked for |
| AdaptiveSizer.UnderrunStartsOver | crates/oxisound-cpal/src/adaptive.rs:89-95 | after an underrun nothing shrinks before a whole threshold of stable periods |
| AdaptiveSizer.FlagIsLastRecordExactly | crates/oxisound-cpal/src/adaptive.rs:76-84 | the flag says what the last record call did if and only if no reset followed one that changed the size |
| AdaptiveSizer.ResetForgetsTheChange | crates/oxisound-cpal/src/adaptive.rs:121-125 | a size doubled and reset, with the flag down although the last record call changed it |
| AdaptiveSizer.UnderrunsDouble | crates/oxisound-cpal/src/adaptive.rs:89-95 | underruns in a row double the size exactly, up to the upper bound |
| AdaptiveSizer.ThresholdHalves | crates/oxisound-cpal/src/adaptive.rs:101-119 | a threshold of stable periods halves the size exactly once, down to the initial one |
| AdaptiveSizer.ConvergesToInitial | crates/oxisound-cpal/src/adaptive.rs:58-126 | after any history with k underruns since its reset, k thresholds of stable periods return to the initial size |

## Left out

- SmfWriter.Write: asks for deltas and 32-bit lengths below 2^28, because the source's group array has four places and a larger quantity is a panic (`SmfWriter.FourPlacesExactly`). The writer's error for an empty message is unreachable and is not modelled.
- SmfFidelity.FileSurvivesExactly: is about files without SysEx before the end of a track and with chunks below 2^32 bytes. The condition on SysEx cannot be dropped: the parser loses step (`SmfFidelity.InStepExactly`) but may still come across the same events in the wrong places (`SmfSysEx.SysExComesBackOutOfStep`). Which tracks with SysEx do so is not characterised.
- SampleFormat.QuantisationBound: scales in exact reals; the rounding of the source's own products and quotients to 32-bit floats is not modelled.
- Capture.CapacityIsWholeExactly: its saturated case exists in arithmetic (`Capture.CapacitySaturates`), but no machine could allocate a ring of that size.
- Capture.CutIsWholeExactly: is about the first cut chunk, with no other one after it.
- Playback.DiscardDropsItsSnapshot: takes the request and the poll each as one step; the module `Discard` covers every interleaving, for one request with no other after it.
- Resampler.RunStaysBalanced: says how far input taken and input played drift apart; the output is not continuous across calls, because the code also pops the lookahead frame it interpolates with, except in the calls `Resampler.CallBalance` names.
- SysEx.SysExEndToEnd: starts from ring entries; the JACK input callback, which keeps only 16 bytes of each event, and the client itself are not part of this model.
- Tempo.FromFile: absolute ticks are unbounded; the 64-bit accumulator of the source would need more than 2^32 events to overflow.
- Stable sorting is the Rust standard library's; the model defines it by insertion and proves the properties the library promises.
- Device, socket, thread and reconnection code of every backend: input and output over libraries that are not part of this model.
- Dropping a playback source, which disconnects the handle and wakes it, and the time-outs of flush and drain.
- Blocking playback in the player, which sleeps between events, and its filtered view of MIDI events: easy members.
- OSC over UDP, MIDI clock, test tones, device selectors, sample-format negotiation, stream configuration and error texts: easy members.
