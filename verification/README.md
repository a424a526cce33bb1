# Verified model of the Trifecta driver core

The driver turns a stream of bytes from an inertial sensor into packets and device settings, queues them, records them as
CSV and replays the recordings. This project models that core in Dafny and proves what it does on every input, every way
of cutting the stream into calls, every run of the queues and every schedule of the two threads that share a queue. The
model follows the code: where a comment or a name promises something else, the code decides, and the difference is stated
as a theorem (an "exactly when", a concrete counterexample, or both).

## What is modelled

**Serial front end** (`Bytes`, `RingView`, `ByteRing`, `Delimiters`, `Base64`, `Packets`, `PacketLayouts`, `Commands`,
`Serial`, `SerialStream`, `BinaryFrames`, `CutFrames`, `WireFormat`, `CommandStream`, `CommandWindows`, `CommandChunks`,
`CommandFooters`, `CommandEffects`, `Termination`, `StaleData`, `Device`). The class
`Device.Device` holds the 512-byte overwriting ring, the packet queue, the command queue, the decode buffer and the
character buffers of the device fields; its methods are the code's loops. They are proved equal to functions on values
(`Serial.Run` for a whole call), and the theorems are about those functions. A stream gives the same result however it is
cut into calls, as long as no call ends with a `;` behind the complete frames it has seen, and a call does what a small
reference parser (`SerialStream.Parse`) says exactly when that parser leaves no `;`. Packets survive encoding, framing,
chunking and decoding; commands are handled repeatedly without harm. The code limits these promises, and each limit has its
exact condition here:

- *Calls that never return.* The Base64 decoder does not advance on `=`. It loops forever exactly when its size check
  passes and the first character of the text that is outside the alphabet is `=` (`Base64.LoopsForeverIff`,
  `Base64.Hangs`), and a call returns exactly when no text between a `:` and a `!` of its window is of that kind
  (`Termination.ReturnsIff`). No packet layout has a length that is a multiple of three, so the padded text that section 4
  of RFC 4648 prescribes hangs the call for every packet (`Termination.PaddedPacketHangs`); `:AA==!` is enough
  (`Termination.ShortStreamHangs`).
- *Unescaped binary frames.* The bytes of a binary frame are not escaped. In one window it delivers its packets exactly when
  none of its bytes is an `@` or a `!`, and it fits (`BinaryFrames.BinaryFrameArrives`). A packet that holds the float 2.0 is
  lost (`BinaryFrames.TwoPointZeroIsLost`). The byte in front of the footer is not part of the payload: a frame whose last
  packet ends right at the footer never delivers that packet (`BinaryFrames.UnpaddedBinaryFrameLosesLast`).
- *Binary frames cut by calls.* While the footer has not come, the bytes of a frame are a window of commands, and a `;` among
  them is popped with everything in front of it. A binary frame that arrives in several calls is recognised as it was sent
  exactly when no `;` came in behind its header before the call with the footer (`CutFrames.FrameAcrossCallsIff`,
  `CutFrames.PacketsAcrossCallsIff`); a packet that arrives whole in one call and is lost in two is
  `CutFrames.SemicolonPacketIsLost`. Encoded packets have no `;` and arrive however they are cut
  (`CutFrames.EncodedAcrossCalls`).
- *Lost commands.* A window is popped through the first `!`, so commands in front of a complete frame are lost
  (`CommandStream.FrameSwallowsCommands` says exactly when that is visible, `CommandStream.NameIsLost` is an example).
  A `!` in a command is taken for the end of a frame exactly when a header comes before it: a single command arrives whole
  exactly when no `:` and no `@` stands in front of its first `!` (`CommandFooters.CommandArrivesWholeIff`), and the password
  `a:b!c` is lost together with the command in front of it (`CommandFooters.PasswordIsLost`). A line break or NUL behind a
  character of a command breaks the scan of the whole window off, and the command is lost
  (`CommandWindows.BrokenCommandIsLost`).
- *The jammed command queue.* A queue that is full stays full, because segmentation fails before the queue is drained
  (`CommandStream.FullQueueIsForever`). `CommandWindows.EveryWindow` is the command part after a call on any window on
  which it returns; `CommandWindows.WindowOutcome` is the exact outcome on any window in which no frame is recognised, and
  `CommandWindows.CommandsDrainedIff` and `CommandWindows.CommandsTakeEffectIff` say when the queue is drained, when it is
  full for good, and which commands take effect. Without a break, more than sixteen commands jam; with one, every pass
  enqueues the rest of the commands once more, and six commands do (`CommandWindows.BrokenTailPilesUp`,
  `CommandWindows.SixCommandsJam`).
- *A stray footer.* A footer without a header before it blocks everything behind it until a `;` follows or the ring overflows
  (`SerialStream.StrayFooterBlocks`).
- *Stale bytes.* A Base64 packet is checked for its type after decoding, not for the decoded length. Its bytes all come
  from its frame exactly when the text decodes to at least the length of the layout (`StaleData.DeliveredBytes`); the empty
  frame `:!` delivers what the decode buffer held (`StaleData.EmptyFrameDeliversStalePacket`), and a frame that is rejected
  in the middle has already written what came before (`StaleData.RejectedFrameLeavesBytes`).

Comments and code differ in two places, and the code is modelled: the scan is announced to return the first index of each
delimiter, but for the two headers it returns the last one before the first footer that has one before it; and the padding
loop of the Base64 encoder never runs, so an encoding has no `=` (unlike section 4 of RFC 4648) and decodes to the data
extended with zeros to a multiple of three.

**Ring buffers** (`RingBuffer`, `SpscRing`, `RingCalls`, `ForcedPush`). Sequentially, a class refines a bounded sequence. Concurrently,
a state machine takes every atomic load, store and fetch-and-add of the C macros as a step of its own and copies slots byte
by byte; `SpscRing.EveryScheduleIsSafe` covers every schedule of one producer (PUSH, and PUSH_FORCE on a ring that is not
full when it starts) and one consumer (POP). Calls that do not overlap, forced pushes on a full ring included, go through
the runs of the sequential ring (`RingCalls.CallsRefineRing`). The guard is exact: from any state of such a run a PUSH_FORCE is safe under
every continuation if and only if the ring is not full, but for rings of a single slot all of whose bytes are already copied
(`ForcedPush.ForcedPushIsSafeIff`). For any ring, any values in it and any width, a PUSH_FORCE into the full ring can make
POP return the first bytes of one value and the rest of another (`ForcedPush.ForcedPushCanTear`).

**Recording and replay** (`Numbers`, `CsvText`, `Columns`, `Rows`, `Readings`, `Saver`, `SavedRows`, `SaveThread`,
`LineReader`, `Replay`, `SavedFiles`). The header parser, the row decoder and the row printer work on real text; integers are printed and read
digit by digit, while `%f`, `strtof` and `strtod` are parameters (`Rows.Floats`), about which the theorems assume only that
reading ignores the line end and that printing writes no comma, line feed or NUL (`Rows.Sane`). The sparse line index is
proved to agree with a linear scan. `fs_replay_read_line` delivers the line it is asked for exactly when it starts from
the anchor at or before it (`Replay.DeliversTheLine`); for a step above two and a file of more than one block some line is
never delivered (`Replay.AllLinesDelivered`), and starting from the earlier anchor always would be right
(`Replay.BackwardAnchorSuffices`). Recorded temperatures do not come back, because the printed column names are not the
ones the reader looks for (`Columns.ColumnIsKnown`). The saver prints no data at all for the packet types with a 64-bit
time: their rows decode, but every member is the reading of an empty text (`Saver.SurvivesIff`), and of the time only the
low half is left (`Saver.WideRowsLoseData`). The saver's line buffer holds 1023 characters and the reader's 511. The saver
writes one row per packet exactly when every row has at most 1023 bytes (`SavedFiles.SavedIsRecordingIff`), and the reader
counts exactly the rows in front of the first one of more than 511, so that the packets behind it are out of reach of
`fs_replay_read_line` (`SavedFiles.SavedFileOpens`). The saver's queue loses packets exactly when one of them finds sixteen
queued (`SaveThread.NothingIsLost`).

**CRC-16 frames** (`Crc16`, `CrcDivision`). The register after any message is the remainder of a long division over the
two-element field, stated on lists of bits (`CrcDivision.CrcIsRemainder`), and so is the validity of a frame
(`CrcDivision.ValidFrameIff`).

**The UDP port table** (`UdpPorts`) gives different addresses the ports 8888 to 8903 in turn (`UdpPorts.PortsInTurn`); an
address of 39 characters or more is never recognised again (`UdpPorts.LongAddressIsNeverKnown`).

## Reading the specifications

`Serial.State` is the abstract state of a device: decode buffer, packet queue, latest packet, the log of all packets ever
enqueued (a history variable), and the command part. `Serial.Grew(st, r, news)` says that the log has grown by `news`, the
queue is the newest sixteen of old queue and `news`, and the latest packet is the last of them. `Delimiters.Classify`
states the frame choice through the bytes up to the first `!`; `Delimiters.Scan` states the scan result delimiter by
delimiter. `SerialStream.Feed` runs one call per chunk. `Replay.LineStart` numbers the lines behind the header line.

The tables of the code are stated twice. The model has them as functions, which the theorems above use; what the tables say
is stated again without these functions, by numbers, literal texts and struct members: type bytes and packet lengths
(`PacketLayouts`, `WireFormat`), the Base64 alphabet (`Base64.CharacterAt`, `Base64.EncodedCharacter`), command letters,
fields and limits (`CommandEffects`), the cells of a row and the names of the header (`SavedRows`), the column names and
ranges that the reader understands (`Readings`), and the limits and characters of the headers (`Limits`).

A queued packet is the sequence of union bytes that its producer defined: a binary packet copies only the bytes of its
layout into an uninitialised union, a Base64 packet takes 185 bytes of the decode buffer. Theorems about packets therefore
speak about the bytes of the layout.

## Model

| member | source | states |
|---|---|---|
| Bytes.SafeStrnlen | include/FS_Trifecta_Defs.h:136-142 | the counting loop returns the length of the C string, at most maxlen |
| Bytes.SafeStrncpy | include/FS_Trifecta_Defs.h:144-156 | the destination then holds, as a C string, the source cut to maxlen - 1 characters |
| ByteRing.ByteRing.PushByte | include/FS_Trifecta_Device_Utils.h:48-61 | one pushed byte is appended; on a full ring the oldest byte goes |
| ByteRing.ByteRing.Push | include/FS_Trifecta_Device_Utils.h:46-62 | the ring ends with the last 512 bytes of old contents followed by the data |
| ByteRing.ByteRing.Peek | include/FS_Trifecta_Device_Utils.h:64-75 | the oldest bytes are copied out, the rest of the output is untouched, nothing is removed |
| ByteRing.ByteRing.Pop | include/FS_Trifecta_Device_Utils.h:77-92 | the oldest bytes are copied out and removed, no others |
| ByteRing.ByteRing.Discard | include/FS_Trifecta_Device_Utils.h:77-92 | with a null output the oldest bytes are removed, no others |
| RingBuffer.Ring.Init | include/FS_Trifecta_Defs_Ringbuffer.h:123-129 | whatever the ring held, it is empty and valid |
| RingBuffer.Ring.Push | include/FS_Trifecta_Defs_Ringbuffer.h:131-144 | appends exactly when fewer than size values are queued, otherwise changes nothing and reports failure |
| RingBuffer.Ring.PushForce | include/FS_Trifecta_Defs_Ringbuffer.h:146-163 | the contents are the last size values of old contents and the new value |
| RingBuffer.Ring.Pop | include/FS_Trifecta_Defs_Ringbuffer.h:165-178 | returns and removes the oldest value; an empty ring stays and leaves the output unwritten |
| RingBuffer.Ring.Peek | include/FS_Trifecta_Defs_Ringbuffer.h:180-191 | returns the oldest value and removes nothing |
| RingBuffer.Ring.PeekAt | include/FS_Trifecta_Defs_Ringbuffer.h:193-205 | returns the index-th oldest value exactly when there are that many |
| RingBuffer.ForcedPushesKeepNewest | include/FS_Trifecta_Defs_Ringbuffer.h:146-163 | over any run of forced pushes the ring is the last n values of old contents followed by the new data |
| RingBuffer.PopsDrop | include/FS_Trifecta_Defs_Ringbuffer.h:165-178 | k pops remove exactly the k oldest values |
| RingBuffer.PeekAgreesWithPop | include/FS_Trifecta_Defs_Ringbuffer.h:165-205 | reading index i returns what the (i+1)-th pop would return, and is refused when that pop would be |
| RingCalls.CallEffect | include/FS_Trifecta_Defs_Ringbuffer.h:131-178 | the atomic steps of one call, made without interruption: PUSH appends if there is room, PUSH_FORCE drops the oldest value if there is none, POP returns and removes the oldest value if there is one |
| RingCalls.CallsRefineRing | include/FS_Trifecta_Defs_Ringbuffer.h:131-178 | over any list of calls that do not overlap the machine of atomic steps holds what the sequential ring holds |
| SpscRing.StepKeepsInvariant | include/FS_Trifecta_Defs_Ringbuffer.h:131-178 | every single atomic step or byte copy of either thread keeps the invariant between slots, counters and program positions |
| SpscRing.EveryScheduleIsSafe | include/FS_Trifecta_Defs_Ringbuffer.h:131-178 | under every schedule the popped values are a prefix of the pushed ones, whole and in order, at most a ring full apart, and no slot is read while it is written |
| SpscRing.QuiescentContents | include/FS_Trifecta_Defs_Ringbuffer.h:131-178 | between calls the ring, read as the sequential model reads it, holds exactly the values pushed and not yet popped |
| SpscRing.EmptyAnswerIsRight | include/FS_Trifecta_Defs_Ringbuffer.h:165-178 | POP reports an empty ring exactly when every counted push has been popped |
| SpscRing.FullAnswerIsRight | include/FS_Trifecta_Defs_Ringbuffer.h:131-144 | PUSH reports a full ring exactly when a ring full of values is pushed and not returned |
| ForcedPush.ForcedPushIsSafeIff | include/FS_Trifecta_Defs_Ringbuffer.h:146-178 | a PUSH_FORCE begun in any state that runs reach, wherever the consumer is, lets no schedule read a slot, with bytes still to be read, while it is written, with bytes still to be written, if and only if the ring is not full, or has one slot all of which is already copied |
| ForcedPush.PopReturnsMixture | include/FS_Trifecta_Defs_Ringbuffer.h:146-178 | from every full ring at rest a POP beside a PUSH_FORCE can return the oldest value up to any byte and the forced one from there on, while nothing further counts as pushed |
| ForcedPush.ForcedPushCanTear | include/FS_Trifecta_Defs_Ringbuffer.h:131-178 | for every number of slots, width, contents, forced value and cut: whole pushes fill the ring, and then POP can return that mixture as its first value |
| Delimiters.FirstClosedSpec | common/FS_Trifecta_Device_Utils.c:501-511 | the position behind a header result is the first footer with such a header before it, and there is no earlier one |
| Delimiters.ScanByte | common/FS_Trifecta_Device_Utils.c:493-515 | the if-chain of the scan loop takes the four results and the two candidates of the first i bytes to those of one byte more, as the declarative scan has them |
| Delimiters.ScanDone | common/FS_Trifecta_Device_Utils.c:517-521 | once all four are found nothing later changes the result, so the early exit is harmless |
| Delimiters.ScanDelimiters | common/FS_Trifecta_Device_Utils.c:485-525 | the one-pass scan returns first footer, first terminator, and for each header the last one before the first footer that has one before it |
| Delimiters.HeaderBeforeFooter | common/FS_Trifecta_Device.c:187-203 | a header index lies before the first footer exactly when that header occurs before it, and is then its last occurrence there |
| Delimiters.ChooseIsClassify | common/FS_Trifecta_Device.c:187-237 | the index comparisons of the loop choose: last '@' before the first '!', else last ':', else first ';', else wait |
| Delimiters.FrameChoiceIsLocal | common/FS_Trifecta_Device.c:184-219 | a frame choice depends only on the bytes through the first footer |
| Base64.AlphabetInverse | common/FS_Trifecta_Device_Utils.c:101-140 | alphabet and lookup table are inverse, and no alphabet character is a framing character |
| Base64.CharacterAt | common/FS_Trifecta_Device_Utils.c:17 | the character of value v is the v-th of the alphabet, written out as a text of 64 characters |
| Base64.PositionIsValue | common/FS_Trifecta_Device_Utils.c:101-140 | the lookup of every byte is its position in that text, and -1 exactly when it does not occur there |
| Base64.ShiftedDigits | common/FS_Trifecta_Device_Utils.c:161-166 | the encoder's shifts and masks yield the four 6-bit digits of three octets |
| Base64.ShiftedOctets | common/FS_Trifecta_Device_Utils.c:220-227 | the decoder's shifts and masks yield the three octets of four digits |
| Base64.Base64Encode | common/FS_Trifecta_Device_Utils.c:143-177 | refuses exactly a buffer that is too small, otherwise writes the encoding and its terminator and nothing behind it |
| Base64.EncodedCharacter | common/FS_Trifecta_Device_Utils.c:155-167 | character k of an encoding is the alphabet's character for the (k mod 4)-th six bits of the (k / 4)-th group of three bytes, the data extended with zeros |
| Base64.EncodeIsFrameless | common/FS_Trifecta_Device_Utils.c:155-173 | an encoding is alphabet characters only, in groups of four: no '=', no framing character |
| Base64.DecodeAfterEncode | common/FS_Trifecta_Device_Utils.c:143-235 | decoding an encoding gives the data, extended with zeros to a multiple of three |
| Base64.EncodeAfterDecode | common/FS_Trifecta_Device_Utils.c:143-235 | encoding what a valid text decodes to gives the text back |
| Base64.LoopsForeverIff | common/FS_Trifecta_Device_Utils.c:200-230 | the decoding loop never ends exactly when the first character outside the alphabet is '=' |
| Base64.AcceptedIffValid | common/FS_Trifecta_Device_Utils.c:200-230 | a text is accepted exactly when it is a whole number of alphabet quartets, and the buffer then starts with the decoded bytes |
| Base64.AcceptedIffFits | common/FS_Trifecta_Device_Utils.c:179-230 | a text of at most 512 characters is accepted exactly when it is valid and three quarters of its length fit the buffer |
| Base64.PaddedTextSticksIff | common/FS_Trifecta_Device_Utils.c:186-230 | alphabet characters followed by at least one '=' make the decoder stick exactly when there are at least four characters and the expected bytes fit the buffer |
| Base64.Base64Decode | common/FS_Trifecta_Device_Utils.c:179-235 | on every text it returns for: return code, decoded length and whole output buffer, also after a rejection |
| Base64.DecodeLoop | common/FS_Trifecta_Device_Utils.c:199-230 | the loop with its in-place writes decodes quartet by quartet and stops at the first that is short or invalid |
| Base64.DecodeOfEncode | common/FS_Trifecta_Device_Utils.c:143-235 | decoding an encoding that fits, into a buffer that held anything, is accepted and leaves the data at the front |
| Packets.PacketLength | common/FS_Trifecta_Device_Utils.c:287-333 | the accepted types are 0-11 and 100-111, with 85 to 185 bytes; the lengths one by one are in the next rows |
| PacketLayouts.LengthIsStructSize | common/FS_Trifecta_Device_Utils.c:287-333 | for every type byte the length is the sum of the member widths of the packed struct that the type stands for, 0 exactly when there is none |
| PacketLayouts.UnionFitsAll | include/FS_Trifecta_Defs_Packets.h:483-494 | every struct fits the union of 185 bytes, and one fills it |
| PacketLayouts.FamiliesSplitOff | common/FS_Trifecta_Device_Utils.c:378-437 | types 0-3, 4-7, 8-11, 100-103, 104-107, 108-111 with 145, 85, 181, 149, 89, 185 bytes are each split off whole, whatever follows |
| WireFormat.BinaryPacketArrives | common/FS_Trifecta_Device.c:187-199 | '@', such a packet without '!' and '@', one more byte, '!': one call queues the packet as it is, as the newest of sixteen, and holds nothing back |
| WireFormat.EncodedPacketIsQueued | common/FS_Trifecta_Device.c:202-215 | ':', such a packet in Base64, '!': one call queues one packet that begins with its bytes, and holds nothing back |
| Packets.SplitRecovers | common/FS_Trifecta_Device_Utils.c:364-437 | packets followed by a tail split into exactly those packets; the return value is their count, 0 for an unknown type, -1 for a partial packet |
| Packets.UniquelyDecodable | common/FS_Trifecta_Device_Utils.c:378-434 | equal byte strings come from equal packet lists and equal tails |
| Packets.SegmentMeaning | common/FS_Trifecta_Device_Utils.c:364-437 | on every input at most six packets, each complete, in order from the front, and the return code tells what is left |
| Commands.FramingRoundTrip | common/FS_Trifecta_Device_Utils.c:40-99 | with room for all, exactly the commands are enqueued in order, each without the breaks in front of it and as its last n mod 256 bytes; with less room exactly as many as fit, and -1 |
| Commands.RoomDecides | common/FS_Trifecta_Device_Utils.c:56-64 | on every input room only cuts off: what is enqueued is the front of what a scan with room for all enqueues, with -1 exactly when something is cut off |
| Commands.BrokenOffIff | common/FS_Trifecta_Device_Utils.c:70-84 | on every input the scan is broken off with 3 exactly by a break behind a character of a command |
| Commands.Kept | common/FS_Trifecta_Device_Utils.c:87-95 | a command below 256 bytes is kept whole; of a longer one n mod 256 bytes remain |
| Commands.HandleIsOverwrite | common/FS_Trifecta_Device.c:76-162 | handling a list of commands is one overwrite by what the list assigns last, field by field |
| Commands.HandleAgain | common/FS_Trifecta_Device.c:221-232 | handling the end of an already handled list again changes nothing |
| Commands.DrainedIff | common/FS_Trifecta_Device.c:68-164 | on every buffer one call handles everything and empties the queue if no command is broken off and all fit, and otherwise handles nothing and keeps those that fit |
| Device.DeviceInfo.HandleCommand | common/FS_Trifecta_Device.c:82-160 | exactly the field that the command names changes, to the parameter cut to the buffer, or to its number; a baud rate that is not positive is refused |
| Device.DeviceInfo.ConfigIs | include/FS_Trifecta_Defs.h:102-110 | each abstract field is the C string of the buffer it is named after, of 32 or 64 bytes, or the stored number |
| CommandEffects.TextCommands | common/FS_Trifecta_Device.c:84-158 | one call on letter, parameter and ';', for I, f, d, p, m, s, 1, 3: the field that the letter stands for becomes the first 30, or 62, characters of the parameter, and nothing else changes |
| CommandEffects.NumberCommands | common/FS_Trifecta_Device.c:90-131 | b with a positive decimal number sets the baud rate, with 0 nothing; t sets the interfaces to any number |
| CommandEffects.NegativeCommands | common/FS_Trifecta_Device.c:90-131 | with a minus sign b sets nothing and t the negative number |
| CommandEffects.OtherCommands | common/FS_Trifecta_Device.c:82-160 | every other letter is ignored, with any parameter |
| CommandEffects.OverlongCommand | common/FS_Trifecta_Device_Utils.c:87-95 | any multiple of 256 characters in front of a command leaves no trace |
| Device.DeviceInfo.CopyParam | common/FS_Trifecta_Device.c:86-87 | the field then holds, as a C string, the parameter cut to size - 2 characters |
| Device.SegmentCommands | common/FS_Trifecta_Device_Utils.c:40-99 | the state machine over the payload array enqueues and returns what the specification of segmentation says |
| Device.DrainCommands | common/FS_Trifecta_Device.c:75-162 | the queue ends empty and the fields end as if its commands had been handled in order |
| Device.Device.EnqueuePacket | common/FS_Trifecta_Device_Utils.c:339-358 | the packet is the newest of the queue's last sixteen and the latest packet |
| Device.Device.SegmentPackets | common/FS_Trifecta_Device_Utils.c:364-437 | enqueues exactly the complete packets in front of the first unknown or partial one and returns the code of the specification |
| Device.Device.Base64ToPacket | common/FS_Trifecta_Device_Utils.c:443-479 | whatever is decoded stays in the decode buffer; it is enqueued, and 0 returned, exactly when decoding succeeds and its first byte is a known type |
| Device.Device.HandleReceivedCommands | common/FS_Trifecta_Device.c:68-164 | segmentation and, if that succeeded, draining and 0, otherwise -1; the packet part is untouched |
| Device.Device.HandleBinaryFrame | common/FS_Trifecta_Device.c:187-199 | the payload given to the splitter, with the subtraction that may wrap |
| Device.Device.HandleBase64Frame | common/FS_Trifecta_Device.c:202-215 | the payload between ':' and '!', terminated in place, is decoded |
| Device.Device.HandleSegment | common/FS_Trifecta_Device.c:187-237 | one pass performs the chosen action and pops what that action consumes |
| Device.Device.ProcessPacketsSerial | common/FS_Trifecta_Device.c:166-240 | a whole call refines the run of the specification: same queue, fields, decode buffer and held bytes; 0 exactly when nothing is held |
| Device.Device.GetPacketAtIndex | common/FS_Trifecta_Device.c:29-61 | index 0 is the oldest packet; a negative or too large index is refused |
| Device.Device.PopRawPacket | common/FS_Trifecta_Device.c:392-397 | removes and returns the oldest packet, refuses on an empty queue, changes nothing else |
| Serial.EnqueueAllMeaning | common/FS_Trifecta_Device_Utils.c:339-348 | after a list of packets the queue is the newest sixteen, the latest packet the last one, the log has them all |
| Termination.ReturnsIff | common/FS_Trifecta_Device.c:171-239 | a call on a window returns if and only if no Base64 text of the window passes the size check and has '=' as its first character outside the alphabet |
| Termination.BodiesAreParsed | common/FS_Trifecta_Device.c:184-219 | on a stream of which the reference parser leaves no ';' these texts are the bodies of the parser |
| Termination.PaddingComesLast | common/FS_Trifecta_Device_Utils.c:200-230 | the padded text of section 4 of RFC 4648 is alphabet characters followed by '=', which is there exactly when the length is no multiple of three |
| Termination.PaddedPacketHangs | common/FS_Trifecta_Device_Utils.c:287-333 | the padded text of any packet, framed, hangs the call, after any garbage without '!' and '@' and whatever follows |
| Termination.ShortStreamHangs | common/FS_Trifecta_Device_Utils.c:200-230 | the six bytes :AA==! hang the call |
| WireFormat.RingKeepsNewest | common/FS_Trifecta_Device.c:166-182 | a call on bytes without '!' and ';' changes nothing, and of more than 512 the last 512 are held |
| StaleData.DeliveredBytes | common/FS_Trifecta_Device_Utils.c:443-479 | the bytes of a delivered packet all come from its text exactly when the text decodes to the length of the layout or more; the bytes behind that are the old ones of the decode buffer |
| StaleData.EmptyFrameDeliversStalePacket | common/FS_Trifecta_Device_Utils.c:443-479 | the frame :! delivers the old decode buffer exactly when that starts with a known type byte, and zero is one |
| StaleData.RejectedFrameLeavesBytes | common/FS_Trifecta_Device_Utils.c:199-230 | a frame whose text is valid up to some quartet and then broken queues nothing, but the decode buffer begins with what the valid part decodes to |
| Serial.RestIsSuffix | common/FS_Trifecta_Device.c:171-239 | what a call leaves is the end of the window and holds no complete segment; there are at most as many passes as bytes popped |
| Serial.QueueFollowsLog | common/FS_Trifecta_Device.c:166-240 | over a whole call queue and latest packet follow what was enqueued, nothing lost but by age, nothing reordered |
| SerialStream.CutIsHarmless | common/FS_Trifecta_Device.c:171-239 | running on a window is running on any front part of it that leaves no ';' behind its complete frames, then on what that leaves and the rest |
| SerialStream.ChunkInvariance | common/FS_Trifecta_Device.c:166-240 | however a stream is cut into calls that do not overflow the ring and do not end with a ';' behind their complete frames, state and held bytes end as after one run over the whole stream |
| SerialStream.NoSemicolonNoCommand | common/FS_Trifecta_Device.c:166-240 | a stream without ';' may be cut anywhere |
| SerialStream.HeldIsEndOfStream | include/FS_Trifecta_Device_Utils.h:46-92 | over any run, overflow included, the ring holds the end of everything fed: bytes leave only at the front |
| SerialStream.RunRefinesParseIff | common/FS_Trifecta_Device.c:184-240 | the loop does what the reference parser does (cut at footers, deliver the body behind the last '@', else the last ':', stop at a piece without header) if and only if the parser leaves no ';' |
| SerialStream.EncodedPacketArrives | common/FS_Trifecta_Device.c:202-219 | after any garbage without '!' and '@' the next encoded packet is delivered with all its bytes |
| SerialStream.RoundTrip | common/FS_Trifecta_Device.c:202-219 | encoded packets sent one after another all arrive in order, each starting with the bytes of its source, and the ring ends empty |
| SerialStream.ChunkedRoundTrip | common/FS_Trifecta_Device.c:166-240 | the same for every cut of the bytes into calls; the queue holds the newest sixteen and the latest packet is the last one sent |
| BinaryFrames.FrameWithin | common/FS_Trifecta_Device.c:187-199 | the frame that is recognised lies inside the binary frame that was sent, and is that one exactly when no body byte is an '@' or a '!' |
| BinaryFrames.BinaryFrameArrives | common/FS_Trifecta_Device.c:187-199 | in one window a binary frame with one byte between its packets and the footer delivers exactly its packets if and only if no body byte is an '@' or a '!' and they fit 512 bytes |
| BinaryFrames.UnpaddedBinaryFrameLosesLast | common/FS_Trifecta_Device.c:190-199 | a binary frame whose last packet ends at the footer never delivers all its packets; with a clean body it delivers all but that one |
| BinaryFrames.TwoPointZeroIsLost | common/FS_Trifecta_Device.c:187-199 | a concrete packet with the float 2.0 in it is lost, and nothing else is delivered |
| CutFrames.FooterlessCalls | common/FS_Trifecta_Device.c:219-237 | any number of calls without overflow in which no footer has come leave what stands behind the last ';' of everything fed, and change the command part only |
| CutFrames.FrameAcrossCallsIff | common/FS_Trifecta_Device.c:166-240 | a clean binary frame that arrives in any number of calls without overflow is recognised as it was sent by the call with the footer if and only if no ';' came in behind its header before; otherwise no binary frame is recognised |
| CutFrames.PacketsAcrossCallsIff | common/FS_Trifecta_Device.c:166-240 | its packets are then delivered if and only if no ';' of them came in before, for bodies without ':' |
| CutFrames.SemicolonPacketIsLost | common/FS_Trifecta_Device.c:166-240 | a concrete packet with a ';' arrives in one call; in two calls it is lost and 138 bytes stay held |
| CutFrames.EncodedAcrossCalls | common/FS_Trifecta_Device.c:166-240 | an encoded packet that arrives in any number of calls without overflow is delivered whole, after any garbage without '!' and '@' |
| SerialStream.StrayFooterBlocks | common/FS_Trifecta_Device.c:184-237 | a call that returns leaves a window whose first footer has no header before it as it is, state and bytes, exactly when the window holds no ';' |
| CommandStream.RehandlingIsHarmless | common/FS_Trifecta_Device.c:221-232 | handling commands again on every later pass of the window changes no field |
| CommandStream.CommandsHandledOnce | common/FS_Trifecta_Device.c:171-239 | one call on at most sixteen commands leaves every field as if each command had been handled once, in order, the queue empty and the unfinished command held |
| CommandStream.FullQueueIsForever | common/FS_Trifecta_Device.c:70-74 | once the command queue is full no later input drains it or changes a field |
| CommandStream.TooManyCommandsJam | common/FS_Trifecta_Device_Utils.c:57-64 | more than sixteen commands in one window: none is handled and the first sixteen fill the queue |
| CommandStream.PlainCommandsDrainedIff | common/FS_Trifecta_Device.c:68-76 | without breaks, and with nothing waiting before, a call drains its commands exactly when at most sixteen terminators share the window |
| CommandWindows.EveryWindow | common/FS_Trifecta_Device.c:166-240 | the command part after a call on any window on which it returns: frames take what is in front of them away, and between frames the passes settle as below |
| CommandWindows.StretchOutcome | common/FS_Trifecta_Device.c:68-240 | the exact effect of the passes up to the next frame, from any state: what piles up in the broken-off passes and what the first unbroken one finds, drained if it fits, otherwise the first sixteen of it |
| CommandWindows.WindowOutcome | common/FS_Trifecta_Device.c:68-240 | so for a whole call on any window in which no frame is recognised: state and held bytes |
| CommandWindows.CommandsDrainedIff | common/FS_Trifecta_Device.c:68-240 | such a call leaves the queue empty exactly when there is nothing to enqueue or all that piles up fits and a command follows the last break; it leaves it full for good exactly when sixteen or more pile up otherwise |
| CommandWindows.CommandsTakeEffectIff | common/FS_Trifecta_Device.c:68-240 | if the window drains, the fields end as if every command that no break runs through had been handled once, in order, after those waiting; if not, no field changes |
| CommandWindows.BrokenBlock | common/FS_Trifecta_Device_Utils.c:54-84 | k commands in front of a break pile up as k lists, each without its predecessor's first command, and are each heard once |
| CommandWindows.BrokenCommandIsLost | common/FS_Trifecta_Device_Utils.c:70-84 | a command that a break runs through is lost, and only it |
| CommandWindows.BrokenTailPilesUp | common/FS_Trifecta_Device.c:68-240 | commands followed by a broken and unterminated one have no effect, and fill an empty queue for good exactly from six on |
| CommandWindows.SixCommandsJam | common/FS_Trifecta_Device.c:68-240 | a concrete 14-byte window with six commands fills the queue for good |
| CommandStream.CommandsOfAppend | common/FS_Trifecta_Device.c:221-232 | the commands of a text are those of its front followed by those of the held rest with what follows |
| CommandChunks.CommandChunkInvariance | common/FS_Trifecta_Device.c:166-240 | however command text is cut into calls, each command of the whole text counts once, in order; the text may have breaks in front of commands, and '!' if it has no header |
| CommandFooters.BehindTheFrames | common/FS_Trifecta_Device.c:184-240 | on any window with frames at its front the command part ends as after a call on what the reference parser leaves of the window |
| CommandFooters.CommandArrivesWholeIff | common/FS_Trifecta_Device.c:184-240 | a single command reaches the handler as what the reference parser leaves of it; whole if and only if no header stands before its first '!' |
| CommandFooters.PasswordIsLost | common/FS_Trifecta_Device.c:184-240 | IX;3a:b!c; changes no field: the ':' and '!' of the password are taken for a frame |
| CommandStream.FrameSwallowsCommands | common/FS_Trifecta_Device.c:199-218 | commands in front of a frame in one window are dropped; a cut between them and the frame matters exactly when they would have changed a field |
| CommandStream.NameIsLost | common/FS_Trifecta_Device.c:199-218 | a concrete name command is lost in front of a frame and effective when it arrives alone |
| LineReader.SafeFgets | include/FS_Trifecta_Defs.h:160-193 | return code, buffer contents and terminator inside the buffer in all cases; the cursor always ends at the next line or the end of the file |
| LineReader.LineEndMeaning | include/FS_Trifecta_Defs.h:169-188 | a line holds a line feed at most at its end, and only the last line may lack it |
| LineReader.LinesPartition | include/FS_Trifecta_Defs.h:160-193 | the lines of a file, put together again, are the file |
| Replay.LineIsScanned | common/FS_Trifecta_Replay.c:951-972 | the k-th line behind the header is entry k + 1 of a linear scan of the file |
| Replay.ReadableLinesAreAll | common/FS_Trifecta_Replay.c:955-974 | without overlong lines the lines counted on opening are all lines behind the header |
| Replay.IndexAgreesWithScan | common/FS_Trifecta_Replay.c:951-976 | without overlong lines the index has ceil(lines / step) entries, entry k being the number of bytes a linear scan reads before line k * step |
| Replay.DeliversTheLine | common/FS_Trifecta_Replay.c:1014-1052 | reading line i delivers line i and leaves the cursor behind it exactly when the next indexed line is not strictly closer; otherwise it delivers the first line of the next block |
| Replay.AnchorIsNearest | common/FS_Trifecta_Replay.c:1021-1038 | reading starts at the indexed line nearest to the wanted one, and of two equally near ones at the one in front |
| Replay.AllLinesDelivered | common/FS_Trifecta_Replay.c:1021-1038 | every line is delivered as asked for exactly when the step is at most two or the file has at most one block |
| Replay.BackwardAnchorSuffices | common/FS_Trifecta_Replay.c:1029-1052 | starting from the anchor at or before it delivers every line |
| Replay.ReplayFile.AppendOffset | common/FS_Trifecta_Replay.c:957-969 | the array is doubled when full, if there is room for that, and keeps its entries; the new one is appended; otherwise nothing changes |
| Replay.GrantedIs | common/FS_Trifecta_Replay.c:957-969 | the number of entries that doubling reaches: the first capacity times the largest power of two for which there is room |
| Replay.ReplayFile.BuildIndex | common/FS_Trifecta_Replay.c:951-978 | the loop counts the lines in front of the first missing or overlong one and indexes every step-th of them, or stops with more readable lines than the array can index |
| Replay.ReplayFile.Open | common/FS_Trifecta_Replay.c:922-983 | each error code exactly for its cause: arguments, fopen, header line, first allocation, growth beyond what the allocator can provide; on success the index is complete, the columns are those of the header, and the cursor stands at the first line |
| Replay.ReplayFile.ReadNext | common/FS_Trifecta_Replay.c:987-999 | the packet or refusal that the next line decodes to, 1 at the end of the file, -2 for an overlong line; the cursor moves by one line |
| Replay.ReplayFile.ChooseAnchor | common/FS_Trifecta_Replay.c:1014-1038 | the anchor chosen, in wrapping 32-bit arithmetic, and that its entry is the position of its line |
| Replay.ReplayFile.ReadFrom | common/FS_Trifecta_Replay.c:1043-1052 | succeeds exactly when all lines from the anchor on are readable, and then delivers the later of anchor and wanted line |
| Replay.ReplayFile.ReadLine | common/FS_Trifecta_Replay.c:1001-1053 | error codes; otherwise what the delivered line decodes to, and the cursor behind it |
| Numbers.AtoiOfDecimal | common/FS_Trifecta_Saver.c:258-269 | a printed unsigned number reads back as itself, whatever follows it that is not a digit |
| Numbers.AtoiReads | common/FS_Trifecta_Replay.c:227-233 | white space, a sign and digits are read as the base-ten value of the digits with the sign, whatever follows that is not a digit |
| Numbers.StrtoulReads | common/FS_Trifecta_Replay.c:254-256 | likewise for the time, a negative number modulo 2^64, and 2^64 - 1 for one that is too large |
| Numbers.LineFeedIgnored | common/FS_Trifecta_Replay.c:227-241 | the line end behind the last token does not change the number read |
| CsvText.FieldsOfJoined | common/FS_Trifecta_Replay.c:206-222 | cutting joined comma-free fields gives the fields back |
| CsvText.JoinedFields | common/FS_Trifecta_Replay.c:206-222 | joining the fields of a line gives the line back, and no field holds a comma |
| CsvText.NormalizeToken | common/FS_Trifecta_Replay.c:36-51 | the token without white space around it, in lower case, cut at a comma and at the buffer |
| CsvText.NormalizedPadded | common/FS_Trifecta_Replay.c:36-51 | white space in front of a name that fits and behind it does not change its normalised form, which is the name in lower case |
| Columns.ColumnIsKnown | common/FS_Trifecta_Replay.c:59-130 | every column name of the saver is found as the same column, except the three temperatures, which are not found at all |
| Columns.ParseHeader | common/FS_Trifecta_Replay.c:132-189 | the first 64 fields are mapped through the table, all other columns to none |
| Columns.HeaderLineFields | common/FS_Trifecta_Saver.c:16-32 | the saver's header fits the reader's buffer and cuts into its 43 names |
| SavedRows.HeaderLineIs | common/FS_Trifecta_Saver.c:16-32 | the header line is the 43 names, written out, joined by commas |
| Columns.HeaderIsUnderstood | common/FS_Trifecta_Replay.c:132-189 | the reader maps each column of the saver's header to its field, the temperatures to none |
| Rows.SplitTokens | common/FS_Trifecta_Replay.c:198-222 | the tokens of the row, at most 64 |
| Rows.FindKind | common/FS_Trifecta_Replay.c:224-233 | the number in the first column mapped to the type, or zero |
| Rows.FirstTypeDecides | common/FS_Trifecta_Replay.c:224-233 | of several type columns the first one counts, and without any the type is 0 |
| Rows.ParsePacket | common/FS_Trifecta_Replay.c:191-906 | refused with -2 exactly for a type outside the four decoded families, otherwise every mapped member of the family has the value of its last column |
| Rows.AssignedKeys | common/FS_Trifecta_Replay.c:248-385 | a member is assigned exactly when the family has it and some column is mapped to it |
| Rows.AssignedValue | common/FS_Trifecta_Replay.c:248-385 | a member whose columns all read alike has that value |
| Rows.LastColumnDecides | common/FS_Trifecta_Replay.c:248-385 | of several columns for one member the last one counts |
| Readings.TimeIsRead | common/FS_Trifecta_Replay.c:254-256 | under "type,time" a decimal number below 2^64 is the time, modulo 2^32 in types 0-2 and 8-10 and whole in 100-102 and 108-110 |
| Readings.TemperatureIsRead | common/FS_Trifecta_Replay.c:358-366 | under "temp0", "temp1", "temp2" every number from -32768 to 32767 is that temperature |
| Readings.FlagIsRead | common/FS_Trifecta_Replay.c:368-370 | under "diagnosticflag" every number from 0 to 255 is the flag |
| Readings.MotionIsRead | common/FS_Trifecta_Replay.c:375-377 | under "devicemotionstatus" and "label" every number from -128 to 127 is the motion status |
| Readings.PressureIsRead | common/FS_Trifecta_Replay.c:371-373 | "baro" and "barometricpressure" are the pressure, through strtof |
| Readings.Sensor0IsRead | common/FS_Trifecta_Replay.c:258-275 | "ax0" to "gz0" are the members of the first sensor, through strtof |
| Readings.Sensor1IsRead | common/FS_Trifecta_Replay.c:277-294 | likewise the second sensor |
| Readings.Sensor2IsRead | common/FS_Trifecta_Replay.c:296-313 | likewise the third sensor |
| Readings.OrientationIsRead | common/FS_Trifecta_Replay.c:315-326 | "q0" to "q3" are the quaternion |
| Readings.RatesAreRead | common/FS_Trifecta_Replay.c:328-336 | "omegax0" to "omegaz0" are the angular velocity |
| Readings.AccelerationIsRead | common/FS_Trifecta_Replay.c:338-346 | "accx" to "accz" are the acceleration |
| Readings.MagnetometerIsRead | common/FS_Trifecta_Replay.c:348-356 | "magx" to "magz" and "mag_x" to "mag_z" are the magnetometer |
| Readings.VelocityIsRead | common/FS_Trifecta_Replay.c:501-509 | "vx" to "vz" are the velocity in types 8-10 and 108-110 and nothing in 0-2 and 100-102 |
| Readings.PositionIsRead | common/FS_Trifecta_Replay.c:511-519 | likewise "rx" to "rz", through strtod |
| Readings.ReservedAreDropped | common/FS_Trifecta_Replay.c:379-386 | "omegax1" to "omegaz1" and "reserved0_1" to "reserved0_3" are known names without a member |
| Readings.OtherKindsAreRefused | common/FS_Trifecta_Replay.c:237-906 | a row of any other type is refused |
| Readings.SpelledDifferently | common/FS_Trifecta_Replay.c:36-51 | " PacketType" and "Time" with white space around it are the same two columns |
| Rows.ColumnOrderDoesNotMatter | common/FS_Trifecta_Replay.c:132-906 | the same permutation of header and row leaves the decoded packet unchanged, for every family and for refused rows, if no two columns select one field |
| Saver.CellsArePlain | common/FS_Trifecta_Saver.c:95-279 | no printed cell holds a comma, a line feed or a NUL |
| SavedRows.CompositeRow | common/FS_Trifecta_Saver.c:140-179 | the row of types 0-3 as an explicit list of 43 texts: type, low half of the time, 31 members by name, six empty cells, the three temperatures in order, the motion status modulo 2^32 |
| SavedRows.RegularRow | common/FS_Trifecta_Saver.c:181-202 | likewise types 4-7, without single sensors, velocity and position |
| SavedRows.Composite2Row | common/FS_Trifecta_Saver.c:204-249 | likewise types 8-11, every column |
| SavedRows.OtherRow | common/FS_Trifecta_Saver.c:134-279 | all other types: type, low half of the time and 41 empty cells |
| SavedRows.WrittenRow | common/FS_Trifecta_Saver.c:253-279 | what lands in the buffer is the first 1023 bytes of the row; the return value is its whole length |
| Saver.SaveThenReplay | common/FS_Trifecta_Replay.c:191-903 | a printed row of any decoded family that fits the reader's 511 bytes, under the printed header, decodes to the packet's type, the low half of its time and every printed member as its text reads; members not printed read as an empty text |
| Saver.SurvivesIff | common/FS_Trifecta_Saver.c:95-279 | a restored member other than the time carries the packet's value exactly in the families with 32-bit time |
| Saver.RestoredMembers | common/FS_Trifecta_Saver.c:134-254 | which members come back: those with a column other than a temperature that the family has |
| Saver.WideRowsLoseData | common/FS_Trifecta_Saver.c:95-279 | two packets of one type with 64-bit time print the same row whenever the low halves of their times agree |
| Saver.OtherTypesAreRefused | common/FS_Trifecta_Replay.c:237-903 | a saved row that fits the reader's 511 bytes comes back as a packet exactly when its type belongs to one of the four decoded families, with or without its data |
| SaveThread.SaveDevice.OnPacket | common/FS_Trifecta_Saver.c:431-446 | refused unless running; otherwise the packet is forced into the ring |
| SaveThread.SaveDevice.DrainOne | common/FS_Trifecta_Saver.c:295-321 | one turn of the loop writes the text of the oldest packet and removes it |
| SaveThread.SaveDevice.Drain | common/FS_Trifecta_Saver.c:295-321 | the loop writes one text per queued packet, in order, and leaves the ring empty |
| SaveThread.NothingIsLost | common/FS_Trifecta_Saver.c:281-325 | over any run of incoming packets and single pops as many texts are written or queued as packets came in if and only if none of them finds sixteen queued, and then in order |
| SavedFiles.SavedIsRecordingIff | common/FS_Trifecta_Saver.c:16-321 | what the saver writes is the header and one whole row per packet if and only if every row has at most 1023 bytes |
| SavedFiles.SavedFileOpens | common/FS_Trifecta_Replay.c:922-983 | of whatever the saver has written the header is the reader's first line, and it counts exactly the packets in front of the first row of more than 511 bytes |
| SavedFiles.LineIsDeliveredIff | common/FS_Trifecta_Replay.c:987-999 | line k, behind whole rows, is read as the row of packet k if that has at most 511 bytes, and is refused as overlong otherwise |
| SavedFiles.SavedFileReplays | common/FS_Trifecta_Replay.c:987-1053 | line k of a saved file, behind whole rows and of at most 511 bytes, decodes, under the header as read, to packet k with what its family restores |
| Crc16.ComputeCrc16 | common/FS_Trifecta_Device_Utils.c:241-260 | the two loops compute the register after all bytes, for every length the eight-bit counter can finish |
| CrcDivision.CrcIsRemainder | common/FS_Trifecta_Device_Utils.c:241-260 | for every message the register is the remainder of a long division by x^16 + x^12 + x^5 + 1 of the message bits and sixteen zeros, the first sixteen bits complemented |
| Crc16.LoopEndsIff | common/FS_Trifecta_Device_Utils.c:244 | these are exactly the lengths below 256 |
| Crc16.BitStepXor | common/FS_Trifecta_Device_Utils.c:249-256 | one turn of the inner loop is additive |
| Crc16.ChecksumsAgreeIff | common/FS_Trifecta_Device_Utils.c:241-260 | two data of one length have the same checksum exactly when their difference drives a zero register to zero |
| Crc16.BurstChangesCrc | common/FS_Trifecta_Device_Utils.c:241-260 | every error confined to sixteen consecutive bits changes the checksum |
| Crc16.FoldParity | common/FS_Trifecta_Device_Utils.c:249-256 | the parity of the register is the parity of the data |
| Crc16.OddErrorChangesCrc | common/FS_Trifecta_Device_Utils.c:241-260 | every error with an odd number of flipped bits changes the checksum |
| Crc16.ValidateCrc16 | common/FS_Trifecta_Device_Utils.c:266-282 | accepts exactly the valid frames of at most 255 bytes, although the expected total is kept in eight bits |
| CrcDivision.ValidFrameIff | common/FS_Trifecta_Device_Utils.c:266-282 | a frame is valid exactly when its second byte counts its payload and that remainder of the payload is its last byte followed by the one in front of it |
| Crc16.WellFormedValidates | common/FS_Trifecta_Device_Utils.c:266-282 | a frame built from its payload is accepted exactly up to 251 payload bytes |
| Crc16.ErrorsDetected | common/FS_Trifecta_Device_Utils.c:266-282 | no burst of up to sixteen bits and no odd number of flipped bits in the payload, change of the length byte or change of the checksum bytes passes |
| Crc16.StartByteUnprotected | common/FS_Trifecta_Device_Utils.c:273-281 | changing the start byte is never noticed |
| UdpPorts.PortMap.GetUdpPort | common/FS_Trifecta_Networked.c:21-42 | search and overwrite of the table, with the comparison over 39 and the copy of 38 characters |
| UdpPorts.LookupFindsKnown | common/FS_Trifecta_Networked.c:24-30 | the search finds an address exactly when it is among the last sixteen assigned, at the slot of its assignment |
| UdpPorts.RequestKeepsInvariant | common/FS_Trifecta_Networked.c:21-42 | a request keeps the table equal to the last sixteen entries of the history of assignments, without duplicates |
| UdpPorts.RunKeepsInvariant | common/FS_Trifecta_Networked.c:21-42 | so does every run of requests |
| UdpPorts.PortsAreDistinct | common/FS_Trifecta_Networked.c:21-42 | after any requests, known addresses have different ports, all within 8888 and the fifteen after it |
| UdpPorts.PortsInTurn | common/FS_Trifecta_Networked.c:21-42 | addresses that all differ get the ports 8888 + n mod 16 in turn |
| UdpPorts.LongAddressIsNeverKnown | common/FS_Trifecta_Networked.c:24-42 | an address of 39 characters or more is given a new slot every time |
| UdpPorts.EmptyAddressMatchesUnused | common/FS_Trifecta_Networked.c:26-31 | the empty address matches the first slot not used yet and takes none of its own |
| UdpPorts.PortIsKept | common/FS_Trifecta_Networked.c:21-42 | through any later requests an address keeps its port while fewer than sixteen further addresses have been assigned |
| UdpPorts.PortIsForgotten | common/FS_Trifecta_Networked.c:33-41 | with the sixteenth it is forgotten, and a request for it is a new assignment |

## Left out

- Device.Device.ProcessPacketsSerial: the windows on which the code never returns are excluded, as a method must end; Termination.ReturnsIff says exactly which they are.
- Device.Device.HandleSegment: likewise, frames whose text makes the decoder loop forever are excluded.
- Device.Device.HandleBase64Frame: likewise.
- Base64.DecodeLoop: likewise, the texts of Base64.LoopsForeverIff are excluded.
- Crc16.ComputeCrc16: likewise, lengths from 256 on, on which the loop never ends (Crc16.LoopEndsIff); the code calls it with a length byte.
- Base64.Base64Decode: the texts on which the loop never ends are excluded (Base64.LoopsForeverIff). A read past the terminator of a short last quartet is modelled as a NUL; the value read there never matters, because the quartet is rejected anyway.
- Numbers.Atoi: the value of the digits, unbounded; `atoi` beyond the range of int is undefined in C. The saver prints a negative motion status as such a number; that it comes back holds for an `atoi` that keeps the low bits.
- CommandEffects.NumberCommands: numbers within the range of int; beyond it `atoi` is undefined in C.
- CommandEffects.NegativeCommands: likewise.
- CommandEffects.TextCommands: a command of more than 255 characters reaches the handler as the collector leaves it (Commands.Kept, CommandEffects.OverlongCommand).
- Readings.PressureIsRead: for texts of at most 400 characters, like the other columns of Readings; the reader's line holds 511.
- Numbers.Strtoul: `unsigned long` has 64 bits, as on the desktop targets.
- Saver.SaveThenReplay: rows of more than 511 bytes never reach the row decoder (SavedFiles.LineIsDeliveredIff).
- Saver.OtherTypesAreRefused: likewise.
- SavedFiles.SavedFileReplays: behind a row of more than 1023 bytes, which loses its line end, the lines of the file are no longer the rows of the packets.
- CutFrames.PacketsAcrossCallsIff: a body with a ':' whose header was popped can be taken for an encoded frame; CutFrames.FrameAcrossCallsIff covers it.
- Device.Device.Base64ToPacket: texts on which the decoder never returns are excluded (Base64.LoopsForeverIff).
- Saver.FormatPacket: a function on values; the static number buffers and the pointers into them are not modelled, only the texts they end with.
- Replay.ReplayFile.Open: whether `fopen` succeeds and how many entries the allocator can provide are parameters; failures of `fseek`, files beyond 2 GB and more than 2^32 - 1 lines are not modelled. The error code for a header that cannot be parsed is never returned, because the header parser does not fail.
- SpscRing.EveryScheduleIsSafe: steps are sequentially consistent, as the C macros' default ordering makes them; the C++ variants with acquire and release ordering are outside, and so is PUSH_FORCE on a full ring beside a POP, where the promise fails (ForcedPush.ForcedPushIsSafeIff).
- UdpPorts.PortMap.GetUdpPort: the assignment counter is unbounded; in C it overflows after 2^31 assignments.
- Device.Device: the decode buffer is static and shared by all devices of a process; the model has one per device. A save context is not attached, so enqueuing a packet does not call the saver; SaveThread models that call on its own.
- fs_device_parse_packet, the network dispatch around the splitter, and the field getters: branching and field copies without further state.
- Packet structs as C structs: rows are decoded into a map from fields to values, members without a column being zero.
- Text-mode translation of line ends, locales that print a decimal comma, and the accuracy of floating-point text.
- Sockets, serial ports, threads, clocks, logging, connection set-up and everything under the platform folders: I/O around the modelled core.
- The exact contents of a binary packet behind its layout: the code copies into an uninitialised union.
