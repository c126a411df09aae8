# osc2ftdidmx, verified

A Dafny model of osc2ftdidmx, the server that turns OSC messages into frames of DMX data, with proofs of what
its components promise. The model follows one packet all the way: it is written by the OSC writer, framed and
split again by the in-place SLIP coder, passed between two threads through the varchunk ring buffer, unrolled
from its bundles, dispatched by pattern into the table of prioritised channel values (or deferred), and finally
shown in the frame of a beat.

`dafny verify dfyconfig.toml` checks everything.

| file | models |
|---|---|
| `Bytes.dfy` | words in network order, two's complement, bit masks on `size_t`, padding |
| `RingLayout.dfy` | how published chunks and gaps tile the ring's body, what a reservation grants |
| `Ring.dfy` | `varchunk_t` as a class, in the masked arithmetic of the header |
| `RingProtocol.dfy` | all interleavings of one producer and one consumer over stale index snapshots |
| `Slip.dfy`, `SlipInline.dfy` | SLIP frames (RFC 1055) and the two in-place coders |
| `Stream.dfy` | the SLIP branch of the receive loop, from received bytes to ring chunks |
| `Osc.dfy`, `Unambiguous.dfy` | messages and nested bundles (OSC 1.0), their sizes and byte layout |
| `Reference.dfy` | the encoding as OSC 1.0 words it, which that layout is proved to be |
| `Writer.dfy`, `Reader.dfy` | the writer with its back-patched sizes and the iterating reader |
| `Slots.dfy` | one channel: bit mask and values of 32 priorities |
| `Dispatch.dfy`, `State.dfy` | the name trees, the tree walk, its branches, and what a message means |
| `Schedule.dfy`, `App.dfy` | packet handlers, deferred list and beat, and what they mean over whole runs |
| `Pipeline.dfy` | the components put together |

Where the source updates an object in place the model is a class or works on one array; each such method is
proved against a specification function, and the laws are lemmas about those functions.

Conventions. Offsets replace pointers. Ring header words and OSC words share one byte order; for the ring, whose
words are only ever read back by the same machine, the order does not matter. Ring sizes and chunk sizes are
below 2^32, because the pad mask of `varchunk.h:75` has 32 bits; writer buffers are below 2^31, because item
sizes are `int32_t`. Floats and doubles are the words that carry them. The segment matcher is an arbitrary
predicate on pattern and name. The reader's buffer, which it never writes, is a sequence value.

Where code and documentation or comments disagree, the model follows the code:

- `varchunk.h:267` asserts `written <= rsvd`, but `rsvd` also counts header bytes. The ring's invariant needs
  `8 + PAD(written) <= rsvd`: `PublishBoundExact` shows that this is exactly the right bound, and
  `AssertedBoundTooWeak` gives a size within the asserted one after which a full ring looks empty, at the
  program's ring size and the request its UDP loop makes (`stream.h:824`). The `maximum` handed out by a write
  request is the same number.
- `stream.h:958` compares the length before encoding with the transmit buffer and then encodes in place.
  `Transmit` tells exactly which payloads stay inside: those whose length, plus two, plus their END and ESC bytes
  is at most the buffer's size. `GuardTooWeak` gives one the guard admits that does not, and `LengthGuardExact`
  the only bound on the length alone that would do. The program itself stays clear of it: what its transmit ring
  of 8192 bytes can hold always has a frame that fits (`OwnRingNeverOverruns`).
- `stream.h:1088-1092` keeps a partly received frame for the next call, but the decoder has compacted it in place
  by then, and the same happens to a frame whose packet the ring refused (`stream.h:1075-1079`). `Left` is what
  then stands in the buffer. `CutSurvivesIff` shows that the packet is delivered later exactly if those bytes did
  not change, and `OscFrameSurvivesIff` that for OSC this means: exactly if no more than the opening END had come.
- The user documentation clears a slot by a message without arguments; the code also clears the slots visited
  before the first int32 argument.
- `main.c:219` computes the fraction of a due time from `timetag && 32`, which always truncates to 0
  nanoseconds, and the list's comparison (`main.c:177-178`) requires both parts of the time to be greater. So the
  list is a queue in order of arrival (`InsertAllIsQueue`) and a due message can wait behind one that is not due:
  `LateBehindLater` shows two bundles that make it so. `DrainMissesNoneEverIff` and, over whole runs of beats,
  `RunsMissNoneIff` show that this never happens exactly when the time tags, in seconds, arrive in ascending
  order.
- The decoder recovers from starting inside a frame, except when all it got is the closing END:
  `Resynchronise` and `LoneEndLosesNext`.

## Model

| member | source | states |
|---|---|---|
| Bytes.U32Order | osc.lv2/osc.lv2/writer.h:87-98 | network order: a smaller word has earlier bytes |
| Bytes.U32Back | osc.lv2/osc.lv2/reader.h:104-115 | four bytes are read as the word that is written as them |
| Bytes.U64Order | osc.lv2/osc.lv2/writer.h:100-111 | network order for 64 bits |
| Bytes.TwosComplement32 | osc.lv2/osc.lv2/reader.h:104-115 | an int32 and the word that carries it agree modulo 2^32 |
| Bytes.TwosComplement64 | osc.lv2/osc.lv2/reader.h:117-128 | the same for 64 bits |
| Bytes.AndMask | varchunk/varchunk.h:132-171 | masking with size - 1 is reduction modulo a power-of-two size |
| Bytes.AndMaskStep | varchunk/varchunk.h:168-173 | advancing an index under the mask wraps around at most once |
| Bytes.WrapBack | varchunk/varchunk.h:187-192 | index differences that wrap in size_t come out as the distance around the ring |
| Bytes.PadMask | varchunk/varchunk.h:75 | the 32-bit pad mask rounds up to a multiple of 8 for sizes below 2^32 - 7 |
| RingLayout.ReserveClaims | varchunk/varchunk.h:175-254 | a granted reservation holds the request plus two headers and, with its gap, leaves a byte of the ring free |
| RingLayout.RefusedOnlyWhenNothingFits | varchunk/varchunk.h:195-243 | a request is refused exactly when neither at the head nor at the start of the body enough usable bytes lie together |
| RingLayout.EmptyRingGrantsHalf | varchunk/varchunk.h:175-254 | an empty ring grants every request of up to half its size, wherever its indices stand |
| RingLayout.BurstTaken | varchunk/varchunk.h:175-294 | a burst of chunks is granted one after the other, a gap included, while all its requests ask for at most half the ring |
| RingLayout.EmptyRingTakesBurst | varchunk/varchunk.h:175-294 | on an empty ring, wherever its indices stand, every burst asking for up to half its size together is taken whole |
| RingLayout.TakenAppend | varchunk/varchunk.h:175-294 | bursts one after the other are granted as one; a refusal ends both |
| RingLayout.TakenFits | varchunk/varchunk.h:175-294 | chunks granted before any is read fit, headers included, into the ring together |
| RingLayout.WritableIsUnpublished | varchunk/varchunk.h:180-252 | no byte of a reservation or its gap is published and unread, however far the consumer went since |
| RingLayout.WritesKeep | varchunk/varchunk.h:269-289 | writing anywhere in a reservation leaves the published elements intact |
| RingLayout.PublishKeeps | varchunk/varchunk.h:262-294 | publishing within the reservation appends exactly the payload, behind a gap if needed, and never makes head equal tail |
| RingLayout.PublishBoundExact | varchunk/varchunk.h:266-293 | a payload size is safe to publish if and only if 8 plus its padded size is at most rsvd |
| RingLayout.AssertedBoundTooWeak | varchunk/varchunk.h:266-267 | on an 8192-byte ring a request for 1024 bytes and a size within the asserted bound, after which head equals tail on a full ring |
| RingLayout.PendingPayload | varchunk/varchunk.h:335-337 | what is published always contains a chunk, never a gap alone |
| RingLayout.GapSkipped | varchunk/varchunk.h:329-341 | behind a gap a chunk stands at offset 0, and skipping the gap loses no payload |
| RingLayout.LoadedSound | varchunk/varchunk.h:312-322 | the readable space is the size of the published elements, and with a gap at tail it wraps around |
| RingLayout.DropFirst | varchunk/varchunk.h:365-376 | advancing the tail over the first element keeps the layout of the rest |
| Ring.BodySize | varchunk/varchunk.h:108-115 | the body size is the least power of two that is at least the minimum |
| Ring.Varchunk.constructor | varchunk/varchunk.h:117-153 | a new ring is empty and consistent, its size the least power of two that is at least the minimum |
| Ring.Varchunk.WriteRequestMax | varchunk/varchunk.h:175-254 | the masked computation grants exactly the reservation of the unmasked specification, or refuses |
| Ring.Varchunk.Fill | osc.lv2/osc.lv2/stream.h:1065 | copying a payload into a reservation changes reserved bytes only |
| Ring.Varchunk.WriteHeaders | varchunk/varchunk.h:269-289 | gap and element headers are written without touching payload or published bytes |
| Ring.Varchunk.WriteAdvance | varchunk/varchunk.h:262-294 | the ring's contents grow by exactly the written payload |
| Ring.Varchunk.ReadRequest | varchunk/varchunk.h:304-363 | NULL exactly when the ring is empty, otherwise the oldest payload byte for byte, never a gap |
| Ring.Varchunk.ReadAdvance | varchunk/varchunk.h:365-376 | exactly the oldest payload leaves the ring |
| RingProtocol.InitHolds | varchunk/varchunk.h:127-131 | the initial state satisfies the invariant |
| RingProtocol.ProducerKeeps | varchunk/varchunk.h:175-294 | every producer step (request, single store, publication) keeps the layout invariant |
| RingProtocol.ConsumerKeeps | varchunk/varchunk.h:304-376 | every consumer step (load, inspection, gap skip, single read, advance) keeps it |
| RingProtocol.RunHolds | varchunk/varchunk.h:175-376 | the invariant holds in every state of every interleaving |
| RingProtocol.FifoInEveryRun | varchunk/varchunk.h:175-376 | in every interleaving the consumer obtains a prefix of the committed payloads, unchanged and in order; head equals tail exactly when nothing is pending |
| RingProtocol.ReservationNeverTouchesUnread | varchunk/varchunk.h:180-252 | in every interleaving the bytes the producer may write are disjoint from those published and unread |
| RingProtocol.ReadNeverHandsOutGap | varchunk/varchunk.h:318-357 | in every interleaving neither the contiguous branch nor the chunk handed out is a gap, and gaps end at the end of the body |
| RingProtocol.StoresReach | varchunk/varchunk.h:269-289 | any new contents of a reservation are reached by single stores |
| RingProtocol.WriteAdvanceIsSteps | varchunk/varchunk.h:262-294 | the writing operations, as the class specifies them, are runs of protocol steps |
| RingProtocol.ReadRequestIsSteps | varchunk/varchunk.h:304-363 | so is the read request, with and without a gap |
| Slip.FrameShape | osc.lv2/osc.lv2/stream.h:684-732 | a frame has len + 2 + number of END and ESC bytes, at most 2 len + 2, and END only at its two ends |
| Slip.FrameNumerals | osc.lv2/osc.lv2/stream.h:679-732 | in the numbers of RFC 1055: 192 at the ends, 219 220 for 192, 219 221 for 219, all else as it is |
| Slip.FramesOfBytes | osc.lv2/osc.lv2/stream.h:679-732 | the frames of single bytes, in numbers |
| Slip.UnknownEscape | osc.lv2/osc.lv2/stream.h:757-762 | an escape of any other byte is dropped with that byte |
| Slip.DecodeFrame | osc.lv2/osc.lv2/stream.h:734-779 | decoding a frame gives its packet and stops right behind it, whatever follows |
| Slip.SplitFrames | osc.lv2/osc.lv2/stream.h:1054-1086 | whole frames are delivered packet by packet ahead of any other bytes |
| Slip.SplitWholeFrames | osc.lv2/osc.lv2/stream.h:1054-1086 | a buffer of whole frames is delivered and consumed completely |
| Slip.ScanTail | osc.lv2/osc.lv2/stream.h:750-775 | from anywhere inside an escaped packet, even inside a pair, the scan finds the frame's closing END |
| Slip.Resynchronise | osc.lv2/osc.lv2/stream.h:744-779 | a remainder of a frame with a byte before its END is dropped and every following frame delivered |
| Slip.LoneEndLosesNext | osc.lv2/osc.lv2/stream.h:744-770 | a remainder of just the END costs the next packet, and only that |
| Slip.OnlyFrameDelivers | osc.lv2/osc.lv2/stream.h:735-779 | no buffer shorter than a packet's frame delivers the packet, and none of that length but the frame |
| Slip.CutDeliversNothing | osc.lv2/osc.lv2/stream.h:744-779 | the first part of a frame alone is not parsed |
| Slip.CutSurvivesIff | osc.lv2/osc.lv2/stream.h:1054-1092 | a frame decoded in part, or in vain, and kept is delivered later if and only if its bytes did not change |
| Slip.PlainStartSurvivesIff | osc.lv2/osc.lv2/stream.h:1054-1092 | for packets that begin with an unescaped byte: if and only if no more than the opening END was there |
| SlipInline.Estimate | osc.lv2/osc.lv2/stream.h:693-699 | the counting loop computes the frame's size |
| SlipInline.ShiftByOne | osc.lv2/osc.lv2/stream.h:701-709 | the fast track leaves exactly the frame |
| SlipInline.EscapeBackwards | osc.lv2/osc.lv2/stream.h:711-729 | the backward expansion leaves exactly the frame of the original bytes |
| SlipInline.EncodeInline | osc.lv2/osc.lv2/stream.h:685-732 | in-place encoding turns the buffer's bytes into their frame and nothing else; empty input stays as it is |
| SlipInline.ScanInline | osc.lv2/osc.lv2/stream.h:750-775 | the compacting loop computes the scan of the original bytes, writing only behind its read position, and changes nothing but what it unescaped |
| SlipInline.StoreUnescaped | osc.lv2/osc.lv2/stream.h:757-762 | an escape pair becomes the byte it stands for, or nothing if it is unknown, and no unread byte changes |
| SlipInline.DecodeInline | osc.lv2/osc.lv2/stream.h:735-779 | in-place decoding of any bytes reports what their specification reports, and every byte it leaves is specified, whole frame or not |
| Stream.Receiver.Turn | osc.lv2/osc.lv2/stream.h:1056-1086 | one turn decodes one frame and dispatches its packet unless the ring refuses |
| Stream.Receiver.Deliver | osc.lv2/osc.lv2/stream.h:1063-1074 | a dispatched packet becomes one chunk of the ring, and it is refused only when the ring cannot reserve it |
| Stream.Receiver.KeepRemainder | osc.lv2/osc.lv2/stream.h:1088-1092 | what was not parsed moves to the front of the buffer |
| Stream.Receiver.Receive | osc.lv2/osc.lv2/stream.h:1051-1096 | for any received bytes the ring grows by exactly the split packets, in order, up to the first it refuses, told from their sizes and its indices; the bytes kept are those not parsed, as the decoder left them |
| Osc.PacketFrame | osc.lv2/osc.lv2/writer.h:241-296 | whether bytes are a packet depends on the packet's own bytes only, wherever they lie |
| Reference.PacketIsLaidOut | osc.lv2/osc.lv2/writer.h:433-466 | OSC 1.0's own encoding of any packet, nested bundles included, has exactly the size and layout writer and reader are proved against |
| Reference.ArgIsLaidOut | osc.lv2/osc.lv2/writer.h:125-239 | the same for each of the fifteen argument types, with its type tag in letters |
| Reference.EncodedOnce | osc.lv2/osc.lv2/reader.h:264-469 | and nothing else can be read from it |
| Reference.ImmediateTag | main.c:208 | the immediate time tag on the wire |
| Unambiguous.OneMessage | osc.lv2/osc.lv2/reader.h:329-469 | bytes lay out at most one message |
| Unambiguous.OnePacket | osc.lv2/osc.lv2/reader.h:264-327 | bytes lay out at most one readable packet of their size, nesting included |
| Writer.OscWriter.HtoBe32 | osc.lv2/osc.lv2/writer.h:87-98 | a word is written, and the cursor moved, exactly when it ends before the buffer does; nothing else changes |
| Writer.OscWriter.HtoBe64 | osc.lv2/osc.lv2/writer.h:100-111 | the same for 64 bits |
| Writer.OscWriter.AddString | osc.lv2/osc.lv2/writer.h:125-139 | string, NUL and zero padding to a multiple of four |
| Writer.OscWriter.AddFormat | osc.lv2/osc.lv2/writer.h:304-319 | comma, type characters, NUL and zero padding |
| Writer.OscWriter.AddBlob | osc.lv2/osc.lv2/writer.h:165-193 | length and bytes, refused exactly when they with their padding do not fit |
| Writer.OscWriter.AddMidi | osc.lv2/osc.lv2/writer.h:195-218 | refused exactly above four bytes or without room |
| Writer.OscWriter.AddRgba | osc.lv2/osc.lv2/writer.h:220-233 | four bytes in order |
| Writer.OscWriter.ArgVarlist | osc.lv2/osc.lv2/writer.h:321-393 | all arguments are laid out in order, or the writer refuses, exactly by total size |
| Writer.OscWriter.MessageVarlist | osc.lv2/osc.lv2/writer.h:408-418 | a message is written if and only if its MIDI data fits and it ends before the buffer does |
| Writer.OscWriter.PushBundle | osc.lv2/osc.lv2/writer.h:241-253 | tag and time tag |
| Writer.OscWriter.PopBundle | osc.lv2/osc.lv2/writer.h:255-267 | an empty bundle is always rejected with the cursor restored |
| Writer.OscWriter.PushItem | osc.lv2/osc.lv2/writer.h:269-279 | room for the size word |
| Writer.OscWriter.PopItem | osc.lv2/osc.lv2/writer.h:281-296 | the back-patched size is the exact length of the item's body; an empty item is taken back |
| Writer.OscWriter.WriteItem | osc.lv2/osc.lv2/writer.h:452-463 | one item, patched with the size of its packet |
| Writer.OscWriter.WritePacket | osc.lv2/osc.lv2/writer.h:433-466 | a packet tree is written if and only if it has no empty bundle, its MIDI data fits and it ends before the buffer does |
| Reader.OscReader.GetString | osc.lv2/osc.lv2/reader.h:189-201 | the string up to its NUL; NULL exactly when its padded size runs over the end |
| Reader.OscReader.GetBlob | osc.lv2/osc.lv2/reader.h:221-235 | the blob's bytes, for every length word that is not negative; NULL exactly when they run over the end |
| Reader.OscReader.GetMidi | osc.lv2/osc.lv2/reader.h:209-219 | the four bytes at the cursor |
| Reader.OscReader.ArgRaw | osc.lv2/osc.lv2/reader.h:329-433 | for all fifteen types the value read, and its size, is the one laid out; NULL exactly when it does not fit |
| Reader.OscReader.ArgBegin | osc.lv2/osc.lv2/reader.h:435-455 | a message iteration begins at its first argument with its path |
| Reader.OscReader.ArgNext | osc.lv2/osc.lv2/reader.h:463-469 | and moves on to the next argument |
| Reader.ArgCursor.EndsAtEnd | osc.lv2/osc.lv2/reader.h:457-461 | the iteration ends after exactly the last argument, at the message's last byte |
| Reader.ReadMessage | osc.lv2/osc.lv2/reader.h:471-485 | iterating a message gives back its path, types and values and stops at its end |
| Reader.OscReader.ItemRaw | osc.lv2/osc.lv2/reader.h:264-276 | NULL exactly when the size word or the body runs over the end; a negative size does not |
| Reader.OscReader.ItemBegin | osc.lv2/osc.lv2/reader.h:278-297 | a bundle iteration begins at its first item, with the bundle's time tag, or not at all if there is none |
| Reader.OscReader.ItemNext | osc.lv2/osc.lv2/reader.h:305-311 | and moves on exactly while items remain |
| Reader.ReadPacket | osc.lv2/osc.lv2/reader.h:264-327 | the recursive walk recovers the tree, each item being strictly smaller than its bundle |
| Pipeline.Serialise | osc.lv2/osc.lv2/writer.h:433-466 | success exactly by acceptability and size, which is a positive multiple of 4 |
| Pipeline.RoundTrip | osc.lv2/test/osc_test.c:194-304 | reading back a written packet gives that packet, and writing fails exactly when it must |
| Slots.SetAndClear | osc2ftdidmx.c:23-35 | setting or clearing a mask bit changes that priority only |
| Slots.EmptyMask | osc2ftdidmx.c:37-41 | the mask is 0 exactly when no priority is live |
| Slots.LastOperationWins | osc2ftdidmx.c:23-35 | after any history a priority is live exactly when its last operation set it, with that value |
| Slots.ShownAfter | osc2ftdidmx.c:23-60 | the value shown after a history is the one last set on the greatest priority not cleared since, or 0 |
| Slots.History | osc2ftdidmx.c:23-60 | mask and bytes of a slot stand for any history run on it, cleared entries hold 0, and its value is the last one set on the greatest live priority |
| Slots.Slot.SetVal | osc2ftdidmx.c:23-28 | the live priorities gain or overwrite one entry |
| Slots.Slot.ClrVal | osc2ftdidmx.c:30-35 | the live priorities lose one entry, whose byte becomes 0 |
| Slots.Slot.HasVal | osc2ftdidmx.c:37-41 | whether any priority is live |
| Slots.Slot.GetVal | osc2ftdidmx.c:43-60 | the value at the greatest live priority, 0 if none is live |
| Dispatch.MessageMeaning | README.md:90-131 | the pairs addressed, each once and in lexicographic order; the k-th takes the last int32 among the first k+1 arguments or is cleared; all else stays |
| Dispatch.OneNumeral | osc2ftdidmx.c:117-672 | nodes are named by their number's decimal digits without a leading zero, no two alike |
| Dispatch.SegmentsJoin | osc.lv2/osc.lv2/reader.h:588-602 | the segments are what stands between the slashes |
| Dispatch.ExactAddress | README.md:90-105 | /dmx/channel/priority in digits addresses exactly that pair |
| Dispatch.ExactMessage | README.md:90-131 | with one integer it sets that pair to the integer modulo 256, without arguments it clears it |
| Dispatch.LowByteOf | osc2ftdidmx.c:76 | the value taken is congruent to the integer modulo 256 |
| Dispatch.PairsMatch | README.md:90-131 | the pairs are exactly those whose channel and priority names match |
| Dispatch.PairsSorted | README.md:90-131 | they come strictly ordered by channel, then priority |
| Dispatch.LatestNone | osc2ftdidmx.c:70-86 | a value is missing exactly when no int32 came yet |
| Dispatch.LatestIsLast | osc2ftdidmx.c:70-86 | otherwise it is the low byte of the last int32 taken |
| Dispatch.SyncStep | osc2ftdidmx.c:62-106 | after n priorities the hidden cursor took min(n, argument count) arguments and holds the last int32 among them |
| Dispatch.WalkPriorities | osc.lv2/osc.lv2/reader.h:588-607 | the walk over the priorities of one channel assigns its matching pairs in turn |
| Dispatch.WalkTooDeep | osc.lv2/osc.lv2/reader.h:592-602 | paths that go deeper call no priority |
| Dispatch.WalkChannels | osc.lv2/osc.lv2/reader.h:588-607 | the walk over the channels assigns all matching pairs channel by channel |
| Dispatch.WalkIsApply | osc.lv2/osc.lv2/reader.h:578-620 | the recursive walk over the three trees does exactly what the message means, for every path and matcher |
| State.TableChange | osc2ftdidmx.c:88-105 | changing one slot's priority changes one entry of the table |
| State.DmxState.TakeArgument | osc2ftdidmx.c:70-86 | the branch takes one argument if one is left and remembers int32 values |
| State.DmxState.Priority | osc2ftdidmx.c:62-106 | the branch sets or clears exactly its own slot entry |
| State.DmxState.Channel | osc2ftdidmx.c:108-115 | the channel's branch only selects the channel |
| State.DmxState.Visit | osc.lv2/osc.lv2/reader.h:590-607 | one turn of the walk runs the branch and the subtree of a matching node |
| State.DmxState.TreesInternal | osc.lv2/osc.lv2/reader.h:578-609 | the recursive walk makes exactly the specified calls in order |
| State.DmxState.Match | osc.lv2/osc.lv2/reader.h:611-620 | the walk starts behind the address's leading slash |
| State.DmxState.FirstArgument | main.c:150-151 | the dispatch cursor starts at the first argument, with a reader of its own |
| State.DmxState.HandleMessage | main.c:140-154 | handling a message changes the table exactly as the message means |
| Schedule.DueSecOf | main.c:218 | the whole second of the time tag, 70 years and 17 leap days after its origin counting from 0 |
| Schedule.DueInNanoseconds | main.c:460-467 | an element is due exactly if its time in nanoseconds is not after the beat's |
| Schedule.DueNsec | main.c:219 | the stored nanoseconds are 0 for every time tag |
| Schedule.PacketSplits | main.c:196-231 | each message of a packet with an address is run or deferred, never both, by its innermost time tag and in document order |
| Schedule.Insert | main.c:165-194 | insertion adds one element and keeps the rest |
| Schedule.InsertPos | main.c:174-182 | before the first element whose time is greater in both parts |
| Schedule.InsertBefore | main.c:174-182 | in front of others later in both parts only |
| Schedule.InsertKeepsOrder | main.c:165-194 | a list in order stays in order as long as what is later in seconds is later in nanoseconds too |
| Schedule.InsertAllIsQueue | main.c:174-191 | with due times as stored the list is a queue |
| Schedule.HandleCases | main.c:202-230 | a message runs now exactly with the immediate tag and is ignored if its address has no leading slash; a bundle hands its own tag on |
| Schedule.DrainStep | main.c:459-473 | the drain loop's step: the first element runs if it is due, otherwise nothing more happens |
| Schedule.DuePrefix | main.c:459-467 | a beat runs the longest prefix of due elements |
| Schedule.DeferredListConserves | main.c:448-473 | over every run of beats, executed then pending is exactly what was scheduled, in order, and nothing runs before its stored due time |
| Schedule.DeferredListBalances | main.c:448-473 | as multisets, executed plus pending always equals scheduled, whatever the list held at first |
| Schedule.DrainMissesNoneIff | main.c:458-467 | a beat leaves no due message waiting exactly when none stands behind one that is not due |
| Schedule.DrainMissesNoneEverIff | main.c:458-467 | no time of the beat leaves a due message waiting exactly when the list's seconds never go back |
| Schedule.RunsMissNoneIff | main.c:448-473 | over whole runs no clock leaves a due message waiting exactly when the time tags arrive in ascending order of seconds |
| Schedule.LateBehindLater | main.c:219-224 | two bundles received in one beat, the second of which is due at second 5 and still waits at second 7 |
| App.SchedAppend | main.c:165-194 | relinking puts the element at the specified place of the linked list and keeps the order of the rest |
| App.Server.Link | main.c:223 | the list as a value gains the element at its place |
| App.Server.Defer | main.c:213-224 | a deferred message is copied and queued with its stored due time |
| App.Server.HandleBundle | main.c:156-163 | a bundle's items are handled in order with the bundle's tag |
| App.Server.HandlePacket | main.c:196-231 | any packet runs exactly its immediate messages in document order and queues exactly the others; a message without a leading slash changes nothing |
| App.Server.HandleChunk | main.c:453-455 | the oldest chunk is handled as the packet it carries and then leaves the ring |
| App.Server.DrainRing | main.c:448-456 | every chunk in the ring is handled in order and the ring left empty |
| App.Server.RunFirst | main.c:469-472 | the first element runs and leaves the list |
| App.Server.DrainList | main.c:458-473 | draining terminates, re-inserts nothing and runs the due prefix |
| App.Server.FillFrame | main.c:475-481 | every byte of the frame is its channel's value at the greatest live priority, or 0 |
| App.Server.OneBeat | main.c:448-481 | a whole beat: ring, then list, then frame |
| Pipeline.Transmit | osc.lv2/osc.lv2/stream.h:956-966 | a payload is skipped exactly if it is empty or longer than the buffer; its frame stays in the buffer exactly if length, two and escapes do, and then is what is sent |
| Pipeline.GuardTooWeak | osc.lv2/osc.lv2/stream.h:958 | a payload the guard admits whose frame does not fit |
| Pipeline.LengthGuardExact | osc.lv2/osc.lv2/stream.h:958-961 | a bound on the length alone keeps every frame inside exactly if twice the length plus two fits |
| Pipeline.OwnRingNeverOverruns | main.c:388-392 | what an 8192-byte transmit ring can hold has a frame that fits the transmit buffer |
| Pipeline.SendAll | osc.lv2/osc.lv2/stream.h:954-975 | the frames of all packets one after the other, exactly if each stays in the transmit buffer |
| Pipeline.ReceiveGroup | osc.lv2/osc.lv2/stream.h:1051-1096 | of the packets arriving in one receive the ring takes as many as their sizes and its indices say |
| Pipeline.Send | osc.lv2/osc.lv2/stream.h:1024-1096 | after any receives of whole frames the ring holds the bytes of exactly the packets it had room for |
| Pipeline.HalfIsRoom | varchunk/varchunk.h:175-294 | packets that ask for half the ring are all taken |
| Pipeline.RoomDelivers | osc.lv2/osc.lv2/stream.h:1051-1096 | if an 8192-byte ring grants every reservation, every group fits into a receive and all packets are delivered |
| Pipeline.EndToEnd | osc.lv2/osc.lv2/stream.h:1024-1096 | packets written, framed, received in any groups of whole frames, split, buffered and handled at a beat have exactly their meaning, in order, up to the first the ring refuses; with room for all that is all of them, and the frame shows the result |
| Pipeline.Serve | main.c:440-481 | any number of beats, the ring granting every reservation: the state is the one the packets and beats mean |
| Pipeline.ReceiveInTwo | osc.lv2/osc.lv2/stream.h:1024-1096 | a frame cut into two receives: its packet is delivered if and only if it survives the cut and the ring has room |
| Pipeline.OscFrameSurvivesIff | osc.lv2/osc.lv2/stream.h:1054-1092 | the frame of a bundle or addressed message survives only a cut right behind its opening END, and never a refusal |
| Pipeline.MessagesEndToEnd | main.c:448-456 | for plain messages that is the fold of their meanings over the table |

## Left out

- HandlePacket: only bytes that are a readable packet; what the reader does on malformed bytes (missing NUL, negative lengths), or on a message addressed to the bundle tag itself, is not modelled.
- RoundTrip: the same messages are left out, because the reader takes a message addressed to the bundle tag for a bundle.
- Transmit: what happens once the encoder has left the transmit buffer is not modelled.
- EndToEnd: every receive holds whole frames, and it stops at a group longer than the receive buffer, which no receive returns; what a cut frame becomes is stated separately.
- GetBlob: a negative length word, with which the source moves its cursor back, is not modelled.
- ArgRaw: its error path covers values cut off by the reader's end, not malformed ones; the union's bytes for value-less types are not modelled.
- WritePacket: takes a packet tree where the library takes LV2 Atom objects; after a refusal only the bytes before the starting cursor are specified.
- AddBlob: the padding keeps whatever the buffer held, as in the code, so equal blobs need not have equal bytes.
- AddMidi: the same holds for the bytes missing from short MIDI data, so only four-byte data reads back.
- Defer: allocation is assumed to succeed.
- Fill: a reservation's payload is copied whole in the class; single stores are steps of the protocol.
- DrainRing: the chunk is passed on as a value while it stands in the ring.
- The hardware memory model: acquire and release are atomic index steps with stale snapshots.
- `fnmatch` and the brace rewriting in `osc.lv2/osc.lv2/util.h`: foreign matcher, an arbitrary predicate here.
- The clone of the reader handed to each branch: both branches ignore it.
- Sockets, serial ports, poll, URLs, the length-prefixed TCP branch and the UDP loop: input and output.
- FTDI transmission, threads, signals, logging, option parsing and the clock of the beat.
- `osc.lv2/osc.lv2/forge.h`, the hooks in `util.h` and the Atom getters: they depend on LV2 code that is not part of this model, or are not used by this program.
