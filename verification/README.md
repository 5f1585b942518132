# Tock bootloader: verified models

These modules model the command stack of the Tock bootloader and of the SAM4L bootloader it replaced, and prove what a
host may rely on. The specification of flash is a flat byte string; everything above it is shown to refine that.

* `Bytes`, `Arithmetic`, `Alignment`: machine integers, little-endian packing, byte memories, division.
* `Framing`, `Commands`, `CommandEncoding`, `CommandDecoding`, `CommandRoundTrip`, `Responses`, `ResponseEncoding`,
  `ResponseDecoding`, `ResponseRoundTrip`, `ResponseLoss`: the wire protocol. Encoders and decoders are classes that
  work a byte at a time, as in the protocol crate; the round trips are about whole streams, and the last module about
  responses that are lost and bytes that do not fit.
* `CrcTable`, `Crc`: the table, its step, the loops, and the bit-at-a-time definition of section 8 of RFC 1952.
* `UartReassembly`: fragments collected until a timeout aborts the receive.
* `FlashAdapter`: 512-byte pages on 4096-byte pages by asynchronous read-modify-write.
* `BootloaderMachine`, `Bootloader`: the split-phase callbacks, first as functions of the cells and of the operations
  they start, then as a class over buffers it passes to a UART and a flash, proved equal to those functions.
* `BootloaderRuns`, `BootloaderCommands`, `BootloaderSafety`, `Stack`, `Host`, `HostInfo`, `HostMemory`, `InfoText`,
  `BootloaderEnterer`: whole runs, from start-up. Ownership of the two buffers, progress, what each command does to a
  flat memory and to the command buffer and what is sent for it, what reaches the bootloader's own code; the same with
  the page adapter and the UART capsule underneath; what a host's decoder makes of the replies, and which addresses
  its commands reach; the information text and how it reads as JSON; where the next reset jumps.
* `FlashController`, `FlashCopy`, `FlashFill`, `GpFuses`: the SAM4L flash driver, whose page buffer and fuses can only
  lose bits between erases.
* `LegacyMachine`, `LegacyBootloader`, `LegacyRuns`, `LegacyBaud`, `LegacyService`, `LegacyHost`, `LegacyMemory`,
  `LegacyFaults`: the polling bootloader with its staging buffers, its negotiation of a new baud rate, its commands,
  what they refuse and reach, and where they fail.

Flash and UART completions are separate steps, so a statement about runs covers every interleaving the hardware can
produce. Polls of the legacy loop carry whether a byte was received and whether the transmitter is ready; nothing is
assumed about their timing.

Where the code and its comments part, the code is modelled:

* The CRC and information replies of the new bootloader are sent without escaping. `Host.CrcReplyArrivesIff` and
  `Host.InfoReplyArrivesIff` say exactly when they arrive; `Host.CrcReplyLost` and `HostInfo.InfoReplyLost` are runs
  in which they do not. One byte of the information reply is not written and keeps what the command buffer held:
  `HostInfo.InfoThroughStack` says which byte of which transfer that is.
* An empty range reply, or one of more than 4223 bytes, never reaches the host's decoder.
* The bootloader stores attribute values the encoder would not send: `HostMemory.AnyAttributeThroughStack` says what
  comes back of them. The version goes into the information text as it is (`InfoText.ReadsAsMeantIff`).
* Decoders keep what an unknown command byte or an unannounced range left behind, and the packet that follows is lost
  (`CommandRoundTrip.UnknownSpoils`, `ResponseLoss.UnannouncedSpoils`).
* The encoder accepts attribute index 16, which its comment excludes; the legacy bootloader refuses it, and the new
  one does not check the index at all.
* The new bootloader erases the page that contains an unaligned address; the header says such an address is refused,
  and the legacy one does refuse it. Its protection of its own code covers addresses, not pages, and page writes only
  (`BootloaderSafety.WriteSparesCodeIff`, `BootloaderSafety.CodeLost`).
* `FlashLargeToSmall` says large pages may be any multiple of 512 bytes, but takes slot and write-back page modulo
  eight: `FlashAdapter.ReadServedIff` and `FlashAdapter.ChangeServedIff` say which requests are served all the same,
  and `FlashAdapter.WrongAnswers` shows two that are not. A request it refuses because another is outstanding can take
  the other one's buffer with it (`FlashAdapter.SecondRequest`).
* A waiting baud rate survives two kinds of refused commands that the header says should end the negotiation
  (`LegacyBaud.WaitingEnds`; `LegacyBaud.KeptAfterRepeat` and `LegacyBaud.KeptAfterReset` are runs that do it).
* The legacy CRC command refuses the flash as a whole and ranges that begin at its last byte, though they lie within
  the flash (`LegacyFaults.CrcRefusedIff`).
* The legacy range check wraps at 32 bits: ranges past the last address are accepted and read other memory
  (`LegacyFaults.RangeRefusedIff`).
* Once its receive buffer is full, the legacy bootloader never recovers, and does not tell the host so, because its
  overflow code is sent without an escape (`LegacyFaults.FullForEver`, `LegacyFaults.OverflowUnseenIff`); 8192 bytes
  after start-up fill it (`LegacyFaults.DeafFromStart`).
* Two Resets do not always resynchronise it, as they do the new decoder: `LegacyFaults.ResetsResynchroniseIff` says
  from which states they do whatever the timing, and `LegacyFaults.UnsynchronisedFromStart` is a run in which they do
  not.
* A fuse byte number above seven clears bits of another byte; a fuse field past bit 63 runs on at bit 0 when it is set
  and reads zeros.

## Model

| member | source | states |
|---|---|---|
| Framing.EscapeConcat | protocol/src/lib.rs:829-842 | Escaping is a homomorphism: a payload may be escaped in pieces and the pieces concatenated |
| Framing.EscapeIsIdentity | protocol/src/lib.rs:829-842 | A payload travels unchanged, and at its own length, if and only if it holds no 0xFC |
| Framing.RenderPending | protocol/src/lib.rs:829-842 | Each rendered byte is exactly the first of the bytes still to come; an escape holds the position until its second half is out |
| CommandEncoding.RenderTakesOne | protocol/src/lib.rs:1019-1049 | Rendering position `count` takes exactly one byte off what is still to come, in the payload, its escapes and the two trailer bytes |
| CommandEncoding.CommandEncoder.New | protocol/src/lib.rs:788-820 | An encoder is made if and only if the page, key and value lengths and the index (up to 16) are accepted; it then has exactly the wire form of the command to send |
| CommandEncoding.CommandEncoder.Reset | protocol/src/lib.rs:824-827 | Starts the same command over: its whole wire form remains to be sent |
| CommandEncoding.CommandEncoder.RenderByte | protocol/src/lib.rs:829-842 | One call sends a byte or the first half of its escape pair and says whether the position moves |
| CommandEncoding.CommandEncoder.RenderU16 | protocol/src/lib.rs:844-850 | Byte `idx` of the little-endian value, escaped; nothing past its end |
| CommandEncoding.CommandEncoder.RenderU32 | protocol/src/lib.rs:852-860 | Byte `idx` of the little-endian value, escaped; nothing past its end |
| CommandEncoding.CommandEncoder.RenderBuffer | protocol/src/lib.rs:862-870 | Byte `idx` of the data, escaped |
| CommandEncoding.CommandEncoder.RenderSetAttr | protocol/src/lib.rs:932-948 | Index, key, length, value and trailer of the packet at each position |
| CommandEncoding.CommandEncoder.RenderChangeBaud | protocol/src/lib.rs:1001-1011 | Mode byte, rate and trailer of the packet at each position |
| CommandEncoding.CommandEncoder.RenderWritePage | protocol/src/lib.rs:888-895 | Address, page and trailer of the packet at each position |
| CommandEncoding.CommandEncoder.RenderCommand | protocol/src/lib.rs:1019-1048 | For every command the position is rendered as the packet layout says |
| CommandEncoding.CommandEncoder.Next | protocol/src/lib.rs:1019-1049 | Each call takes exactly the first byte off what remains of the wire form, and answers None if and only if nothing remains |
| CommandEncoding.CommandEncoder.Write | protocol/src/lib.rs:280-291 | Fills a buffer with as much of the wire form as fits, says how much, and leaves the rest of buffer and stream alone |
| CommandDecoding.CommandDecoder.Reset | protocol/src/lib.rs:326-328 | Empties the packet; the escape state stays |
| CommandDecoding.CommandDecoder.LoadChar | protocol/src/lib.rs:343-348 | A byte is added to the packet unless 4224 are there already |
| CommandDecoding.CommandDecoder.HandleLoading | protocol/src/lib.rs:350-357 | One step of the machine from the loading state, fields updated in place |
| CommandDecoding.CommandDecoder.HandleEscape | protocol/src/lib.rs:359-549 | One step of the machine from the escaped state: a literal escape, a command, an error, or a silently ignored code |
| CommandDecoding.CommandDecoder.Receive | protocol/src/lib.rs:336-341 | The fields and the answer after a byte are those of the transition function the round-trip lemmas are about |
| CommandRoundTrip.DispatchInverts | protocol/src/lib.rs:359-549 | Every well-formed command is read back from its packet |
| CommandRoundTrip.DeliveredReencodes | protocol/src/lib.rs:359-549 | Conversely, a delivered command packs to the packet it came from, or takes no arguments and ignored them |
| CommandRoundTrip.PanicsOnlyOnShortPageWrite | protocol/src/lib.rs:380-384 | Indexing out of range happens exactly when a page write of fewer than four bytes is completed |
| CommandRoundTrip.DispatchIs | protocol/src/lib.rs:359-541 | For every command byte and every packet: bad arguments exactly for the lengths and modes that do not fit, silence exactly for unknown bytes, and otherwise the one command that packs to it or ignores it |
| CommandRoundTrip.PayloadIs | protocol/src/lib.rs:836-1012 | Every command has the command byte and the packet layout of the protocol, stated in numbers, position by position |
| CommandRoundTrip.UnknownSpoils | protocol/src/lib.rs:359-541 | A packet with an unknown command byte stays in the decoder, and the next command of fixed length is refused because of it |
| CommandRoundTrip.FeedLong | protocol/src/lib.rs:336-358 | A packet of any length is cut at 4224 bytes, in silence |
| CommandRoundTrip.FeedWire | protocol/src/lib.rs:336-549 | One encoded command: Ok(None) until its last byte, then the command, and an empty decoder |
| CommandRoundTrip.StreamRoundTrip | protocol/src/lib.rs:336-549 | Every finite sequence of accepted commands, encoded and concatenated, decodes through one decoder into exactly that sequence with Ok(None) on every other byte, for all payloads |
| CommandRoundTrip.ResetsResynchronise | protocol/src/lib.rs:336-549 | From any decoder state two Reset commands are enough for everything after them to be decoded |
| ResponseEncoding.RenderTakesOne | protocol/src/lib.rs:1216-1240 | Rendering position `count` takes exactly one byte off what is still to come of header and body |
| ResponseEncoding.ResponseEncoder.New | protocol/src/lib.rs:1066-1088 | An encoder is made if and only if key, value and information lengths are accepted; it then has exactly the wire form of the response to send |
| ResponseEncoding.ResponseEncoder.RenderGetAttr | protocol/src/lib.rs:1132-1140 | Key, length, value and zero padding to 55 bytes at each position |
| ResponseEncoding.ResponseEncoder.RenderInfo | protocol/src/lib.rs:1158-1165 | Length, text and zero padding to 192 bytes at each position |
| ResponseEncoding.ResponseEncoder.RenderReadRange | protocol/src/lib.rs:1114-1121 | Header and data at each position |
| ResponseEncoding.ResponseEncoder.RenderResponse | protocol/src/lib.rs:1216-1239 | For every response the position is rendered as the layout says |
| ResponseEncoding.ResponseEncoder.Next | protocol/src/lib.rs:1216-1240 | Each call takes exactly the first byte off what remains of the wire form, and answers None if and only if nothing remains |
| ResponseDecoding.ResponseDecoder.SetPayloadLength | protocol/src/lib.rs:603-611 | Refused while a length is set; otherwise one more than the data is expected |
| ResponseDecoding.ResponseDecoder.Load | protocol/src/lib.rs:613-668 | A byte is stored if there is room; the byte that completes the expected length is answered by the interpretation of the buffer |
| ResponseDecoding.ResponseDecoder.HandleLoading | protocol/src/lib.rs:670-677 | One step of the machine from the loading state, fields updated in place |
| ResponseDecoding.ResponseDecoder.HandleEscape | protocol/src/lib.rs:679-780 | One step of the machine from the escaped state, for every response code |
| ResponseDecoding.ResponseDecoder.Receive | protocol/src/lib.rs:594-599 | The fields and the answer after a byte are those of the transition function the round-trip lemmas are about |
| ResponseRoundTrip.FeedPart | protocol/src/lib.rs:613-668 | Short of the expected length bytes are collected in silence, unescaped |
| ResponseRoundTrip.FeedBody | protocol/src/lib.rs:613-668 | The byte that completes the packet brings its interpretation and leaves the decoder idle |
| ResponseRoundTrip.AttributeInverts | protocol/src/lib.rs:633-642 | An attribute body reads back as key and value without the padding |
| ResponseRoundTrip.InfoInverts | protocol/src/lib.rs:651-659 | An information body reads back as the text without the padding |
| ResponseRoundTrip.InterpretInverts | protocol/src/lib.rs:613-668 | Every response with a body is read back from the buffer it was collected in |
| ResponseRoundTrip.FeedWire | protocol/src/lib.rs:594-780 | One encoded response: silence until its last byte, then the response, and an idle decoder |
| ResponseRoundTrip.StreamRoundTrip | protocol/src/lib.rs:594-780 | Every sequence of deliverable responses decodes back to itself through one decoder that is told the length before each range; padding is not part of what is delivered |
| ResponseRoundTrip.RangeArrivesIff | protocol/src/lib.rs:603-668 | A range response arrives if and only if it carries between 1 and 4223 bytes; an empty one is dropped with its header and leaves the decoder idle |
| ResponseRoundTrip.UnescapedArrivesIff | protocol/src/lib.rs:679-780 | A body sent without escaping arrives if and only if it holds no 0xFC |
| ResponseRoundTrip.EscapedArrives | protocol/src/lib.rs:679-780 | An escaped body of the announced length always arrives, whatever its padding |
| ResponseLoss.EscapedIs | protocol/src/lib.rs:679-780 | What a byte after an escape does in every state: delivered and cleared, refused for a missing or an unexpected length with the decoder left as it was, or passed over |
| ResponseLoss.BodyIs | protocol/src/lib.rs:1085-1200 | Every response has the response byte and the layout of the protocol, stated in numbers, position by position |
| ResponseLoss.BareRecovers | protocol/src/lib.rs:679-735 | From every state outside an escape a response without a body is delivered and leaves the decoder idle |
| ResponseLoss.UnannouncedSpoils | protocol/src/lib.rs:741-777 | A range whose length was not announced is an error, its bytes stay in the decoder, and the next shorter response with a body is lost |
| ResponseLoss.AnnouncedRefuses | protocol/src/lib.rs:603-780 | A length announced for a range that does not come makes the next response with a body an error |
| ResponseLoss.StrayBytesRefused | protocol/src/lib.rs:603-668 | Bytes without a header after an announcement are refused as an unknown command when the announced length is reached |
| CrcTable.TableIsRight | bootloader/src/bootloader_crc.rs:1-258 | Each of the 256 entries is eight shift/xor steps of its index with polynomial 0xEDB88320 |
| Crc.EightCommute | legacy/src/crc32.c:95-106 | Eight steps of a register split into low and high parts are the steps of the parts, if the high part never reaches bit 0 |
| Crc.StepsAgree | legacy/src/crc32.c:95-106 | For every register value and byte the table step is the eight shift/xor steps of section 8 of RFC 1952 |
| Crc.FoldsAgree | legacy/src/crc32.c:95-106 | So the table-driven register equals the bit-at-a-time register over every byte string |
| Crc.FoldConcat | bootloader/src/bootloader.rs:655-707 | A register taken over one string and then another is the register taken over the concatenation |
| Crc.Continues | legacy/src/crc32.c:95-106 | A finished CRC passed back in and continued gives the CRC of the concatenation |
| Crc.FastIsCrc32 | bootloader/src/bootloader.rs:669-682 | The all-ones start, the table steps and the last xor of the paged form give the CRC-32 of the data |
| Crc.LegacyCrc32 | legacy/src/crc32.c:95-106 | The loop returns the bit-at-a-time CRC-32 of the buffer continued from any starting value |
| Crc.CrcOf7D | legacy/src/crc32.c:95-106 | The CRC of the single byte 0x7D is 0xFCB6E20C, and 0C E2 B6 FC on the wire |
| Crc.BytesAreRegister | bootloader/src/bootloader.rs:680-695 | The four bytes sent for a CRC, for every register value, are those of the register as a number, least significant first |
| UartReassembly.UartReceiveMultipleTimeout.ReceiveAutomatic | bootloader/src/uart_receive_multiple_timeout.rs:112-145 | Starts a receive with the capsule's own buffer, or reports that it cannot |
| UartReassembly.UartReceiveMultipleTimeout.ReceivedBuffer | bootloader/src/uart_receive_multiple_timeout.rs:171-250 | Copies a fragment behind the ones before it, and on the abort hands the client its buffer and length with the capsule already idle |
| UartReassembly.UartReceiveMultipleTimeout.CopyInto | bootloader/src/uart_receive_multiple_timeout.rs:188-200 | The copy loop stops at the end of the client's buffer |
| UartReassembly.Collecting | bootloader/src/uart_receive_multiple_timeout.rs:171-250 | While fragments come in order nothing is delivered and the client's buffer holds all of them, cut at its length; each sets the alarm, and 50 bytes or half the capsule's buffer are asked for next |
| UartReassembly.DeliversOnce | bootloader/src/uart_receive_multiple_timeout.rs:112-250 | For every fragment sequence ending in the abort the client is called once, at the end, with the concatenation cut at its length, one alarm was set for each fragment before, and a receive started from the callback begins at index 0 |
| UartReassembly.StuckAfterFailure | bootloader/src/uart_receive_multiple_timeout.rs:171-250 | After a receive that fails in another way than by the abort nothing is asked for or delivered any more and no receive can be started |
| FlashAdapter.FlashLargeToSmall.GetLargePageIndexOffset | bootloader/src/flash_large_to_small.rs:75-81 | With as many small pages to a large one as its buffer holds, or eight while the buffer is out, the small page is the one at `offset` in large page `index`, and the offset is within that page |
| FlashAdapter.FlashLargeToSmall.ReadPage | bootloader/src/flash_large_to_small.rs:95-112 | Starts the read of the large page around the small one, or gives the buffer back |
| FlashAdapter.FlashLargeToSmall.WritePage | bootloader/src/flash_large_to_small.rs:114-131 | Keeps the client's page and starts the read of the large page around it |
| FlashAdapter.FlashLargeToSmall.ErasePage | bootloader/src/flash_large_to_small.rs:133-145 | Starts the read of the large page around the small one |
| FlashAdapter.FlashLargeToSmall.ReadComplete | bootloader/src/flash_large_to_small.rs:151-198 | Answers a read with the slot copied out, or starts the write of the large page with the slot replaced |
| FlashAdapter.FlashLargeToSmall.WriteComplete | bootloader/src/flash_large_to_small.rs:200-224 | Gives both buffers back and tells the client which operation is done |
| FlashAdapter.ReadRefines | bootloader/src/flash_large_to_small.rs:95-198 | A read takes one completion, answers the small page and leaves the memory alone |
| FlashAdapter.ChangeRefines | bootloader/src/flash_large_to_small.rs:114-224 | A write or an erase takes two completions: the first tells the client nothing and changes nothing, the second changes just the small page |
| FlashAdapter.SiblingsUnchanged | bootloader/src/flash_large_to_small.rs:151-224 | The seven sibling small pages never change |
| FlashAdapter.RunRefines | bootloader/src/flash_large_to_small.rs:92-224 | For every run of reads, writes and erases issued one at a time the adapter answers as an array of 512-byte pages does and both page buffers are back with their owners |
| FlashAdapter.ReadTakes | bootloader/src/flash_large_to_small.rs:75-198 | On large pages of k small ones a read answers small page n mod 8 of large page n/k, and indexes out of range if the page has no such slot |
| FlashAdapter.ChangePuts | bootloader/src/flash_large_to_small.rs:75-224 | On large pages of k small ones a write or erase changes slot n mod 8 of large page n/k and stores the result as large page n/8 |
| FlashAdapter.ReadServedIff | bootloader/src/flash_large_to_small.rs:75-198 | A read of small page n on large pages of k small ones is answered with it, whatever the flash holds, if and only if n mod k equals n mod 8 |
| FlashAdapter.ChangeServedIff | bootloader/src/flash_large_to_small.rs:75-224 | A write or erase of small page n does to the flash what it should, whatever the flash holds, if and only if k is 8 or n is below both 8 and k |
| FlashAdapter.WrongAnswers | bootloader/src/flash_large_to_small.rs:1-5 | On pages of 8192 bytes a read of small page 8 answers page 0, and a write of small page 128, whose slot is right, lands in page 256 |
| FlashAdapter.OnlyLargeIsServed | bootloader/src/flash_large_to_small.rs:1-5 | Every request on every flash of large pages of 512*k bytes is answered as by an array of small pages if and only if they have 4096 bytes, although the comment allows any multiple |
| FlashAdapter.SecondRequest | bootloader/src/flash_large_to_small.rs:75-224 | A request while another is outstanding is refused; unless one of the two is an erase, the first then never ends and no request is accepted any more |
| FlashAdapter.SecondRequestLate | bootloader/src/flash_large_to_small.rs:75-224 | While a write is being written back the page is still changed, but the client is not told and the adapter is lost as well |
| Bootloader.Bootloader.Start | bootloader/src/bootloader.rs:180-195 | The buffer goes to an armed receive |
| Bootloader.Bootloader.FirstCommand | bootloader/src/bootloader.rs:270-294 | The decoding loop skips Reset and ends with the first other command or error, or with nothing |
| BootloaderCommands.PerformsWellFormed | bootloader/src/bootloader.rs:270-294 | Whatever the loop performs has fields that fit their length bytes |
| Bootloader.Bootloader.LayOutSlot | bootloader/src/bootloader.rs:382-396 | Key, length and value, cut or padded to 55 bytes, at the front of the command buffer |
| Bootloader.Bootloader.WritePageCommand | bootloader/src/bootloader.rs:319-347 | Wrong length, protected address or a page write, with the page buffer handed over |
| Bootloader.Bootloader.ExecuteOnPage | bootloader/src/bootloader.rs:295-415 | The commands that begin by reading a page: new state, kept buffer, page read |
| Bootloader.Bootloader.Execute | bootloader/src/bootloader.rs:283-425 | Every command moves the cells and starts the operation the transition function says |
| Bootloader.Bootloader.ReceivedBuffer | bootloader/src/bootloader.rs:256-447 | The whole callback equals the transition function, on a good receive, an empty one and an error; it panics exactly when the decoding loop does |
| Bootloader.Bootloader.TransmittedBuffer | bootloader/src/bootloader.rs:210-250 | The receive is armed again, or the next page of a range is read |
| Bootloader.Bootloader.FillRange | bootloader/src/bootloader.rs:616-637 | The copy loop takes bytes and their escapes while two are free: exactly the greedy count, and nothing behind it is touched |
| Bootloader.Bootloader.LayOutChunk | bootloader/src/bootloader.rs:592-637 | A buffer of a range reply: header if it is the first, then the escaped bytes that fit |
| Bootloader.Bootloader.SendRange | bootloader/src/bootloader.rs:592-652 | The chunk goes to the UART and the state moves on by what was copied |
| Bootloader.Bootloader.AddCrc | bootloader/src/bootloader.rs:669-674 | The loop adds the page's bytes to the register |
| Bootloader.Bootloader.ContinueCrc | bootloader/src/bootloader.rs:655-707 | The finished CRC is sent, or the next page is read with the register kept |
| Bootloader.Bootloader.LayOutAttribute | bootloader/src/bootloader.rs:527-555 | The 64 bytes of the slot, escaped, behind the header |
| Bootloader.Bootloader.PutVersion | bootloader/src/bootloader.rs:470-482 | The version field up to its first zero |
| Bootloader.VersionIs | bootloader/src/bootloader.rs:470-482 | The version string is the field up to its first zero, and no further |
| Bootloader.Bootloader.PutHex | bootloader/src/bootloader.rs:484-496 | Eight digits of the little-endian word, most significant first |
| Bootloader.Bootloader.LayOutInfo | bootloader/src/bootloader.rs:456-523 | The information reply; the byte behind the text keeps what the buffer held |
| Bootloader.Bootloader.WriteBackPage | bootloader/src/bootloader.rs:559-589 | The page just read is written back with the slot replaced |
| Bootloader.Bootloader.ReadComplete | bootloader/src/bootloader.rs:452-711 | The whole callback equals the transition function, for every state |
| Bootloader.Bootloader.WriteComplete | bootloader/src/bootloader.rs:713-755 | Answers OK and gives the page buffer back, or arms the receive |
| Bootloader.Bootloader.EraseComplete | bootloader/src/bootloader.rs:757-777 | Answers OK, or arms the receive |
| BootloaderMachine.ChunkFits | bootloader/src/bootloader.rs:592-637 | A chunk fits the transmit buffer, stays within page and range, takes at least one byte while one is left, holds the escaped bytes it took, and leaves at most one byte of the buffer unused unless page or range end with it |
| BootloaderRuns.RangeBuffersJoin | bootloader/src/bootloader.rs:592-652 | The buffers of a range join to one header and the escaped bytes of exactly that range, and each fits the transmit buffer, for any page size of at least 1 and any transmit buffer of at least 4 bytes |
| BootloaderRuns.PageSplice | bootloader/src/bootloader.rs:559-589 | Reading a page, replacing part of it and writing it back replaces that part of the memory and nothing else |
| BootloaderRuns.AdvanceKeeps | bootloader/src/bootloader.rs:199-778 | Every completion keeps the ownership of both buffers, arms the receive only when idle, asks only for pages that exist, and brings the armed receive nearer |
| BootloaderRuns.Settle | bootloader/src/bootloader.rs:199-778 | Under that invariant finitely many completions reach an armed receive |
| BootloaderRuns.SentIsTransmissions | bootloader/src/bootloader.rs:199-250 | What is sent until the receive is armed is the buffers transmitted on the way, in order |
| BootloaderCommands.RangeRuns | bootloader/src/bootloader.rs:592-652 | Over a whole run, for any page size of at least 1 and any command buffer of at least 4 bytes, what is sent is one header and the escaped bytes of exactly the range |
| BootloaderCommands.RangeTransmits | bootloader/src/bootloader.rs:210-250 | The buffers the machine transmits over a whole run are exactly those the chunking gives, whatever the page and buffer sizes, and nothing is changed |
| BootloaderCommands.CrcRuns | bootloader/src/bootloader.rs:655-707 | The register accumulated page by page is the register over the whole range, and its complement is what is sent |
| BootloaderCommands.PageServed | bootloader/src/bootloader.rs:319-355 | A page write or erase changes exactly its page and is answered OK |
| BootloaderCommands.SetAttrServed | bootloader/src/bootloader.rs:382-404 | An attribute slot and nothing else is replaced by the read-modify-write |
| BootloaderCommands.SetStartServed | bootloader/src/bootloader.rs:405-415 | The four bytes of the start address and nothing else are replaced |
| BootloaderCommands.InfoServed | bootloader/src/bootloader.rs:456-523 | The information reply is computed from the flags, except for the one byte of the command buffer behind the text, which it keeps |
| BootloaderCommands.GetServed | bootloader/src/bootloader.rs:527-555 | The slot is sent escaped |
| BootloaderCommands.CommandServed | bootloader/src/bootloader.rs:256-778 | Every serviceable command from every armed state: the receive is armed again with what the command leaves in the buffer, the memory is what the flat interpreter says, and exactly its one reply was sent |
| BootloaderCommands.RejectServed | bootloader/src/bootloader.rs:426-447 | A receive that ends in an error is answered with exactly it, one without a command in silence; either way the receive is armed again and the memory unchanged |
| BootloaderCommands.ReceptionServed | bootloader/src/bootloader.rs:256-778 | Whatever a receive brings, a command, an error or nothing, the receive is armed again and memory, buffer and output are the interpreter's |
| BootloaderCommands.BadPacketRejected | bootloader/src/bootloader.rs:270-438 | A packet whose length or mode does not fit its command byte is rejected as bad arguments, whatever follows it |
| BootloaderCommands.OnlyBadArguments | bootloader/src/bootloader.rs:420-438 | No reception is rejected for another reason |
| BootloaderCommands.SkipsTo | bootloader/src/bootloader.rs:270-294 | The loop goes over everything that is not a command other than Reset |
| BootloaderCommands.CommandArrives | bootloader/src/bootloader.rs:270-294 | Any number of Resets, the encoding of an accepted command, then anything: the command is performed |
| Stack.StepSimulates | bootloader/src/flash_large_to_small.rs:92-224 | Every hardware completion below is a completion of the bootloader on a flat flash, or the silent half of a write, and there are finitely many |
| Stack.SettleSimulates | bootloader/src/bootloader.rs:199-778 | Run until the receive is armed, the stack is where the flat machine is |
| Stack.TextArrives | bootloader/src/uart_receive_multiple_timeout.rs:171-250 | The text of a transfer, as much of it as fits, lies at the front of the command buffer however it was fragmented, and what lay behind it is still there |
| Stack.EncodedIsAsked | bootloader/src/bootloader.rs:270-294 | A transfer of Resets, the encoding of an accepted command and anything behind it asks for that command |
| Stack.ReceiveIsDeliver | bootloader/src/bootloader.rs:256-447 | Fragments in, the bootloader is called with what the transfer asks for |
| Stack.JobServed | bootloader/src/bootloader.rs:256-778 | One transfer, whatever its bytes, through UART capsule, bootloader and page adapter is answered as the interpreter says |
| Stack.StackRefines | bootloader/src/bootloader.rs:256-778 | The whole stack refines an interpreter on a flat memory and one command buffer: for every sequence of transfers, whatever bytes they hold, flash and buffer end as the interpreter's, and what was sent is the interpreter's replies in order, refusals of bad packets included |
| Stack.BootRefines | bootloader/src/bootloader.rs:158-195 | The same from start-up, as constructors and `start` leave the stack, whatever the buffers and the flash hold |
| Host.RangeReplyArrivesIff | bootloader/src/bootloader.rs:592-652 | A range reply reaches the host if and only if it has between 1 and 4223 bytes |
| Host.CrcReplyArrivesIff | bootloader/src/bootloader.rs:680-695 | The CRC is sent unescaped: the host's decoder delivers the register as a number, and delivers it alone, if and only if none of its four bytes is 0xFC |
| Host.CrcReplyLost | bootloader/src/bootloader.rs:680-695 | Over the single byte 0x7D the reply is FC 23 0C E2 B6 FC and is lost: of the responses with a body the decoder delivers none |
| Host.InfoReplyArrivesIff | bootloader/src/bootloader.rs:456-523 | The information reply, byte for byte, is sent unescaped: the host's decoder delivers its text, which shows the version and the start address in the flags, if and only if neither the version nor the byte of the command buffer behind the text is 0xFC |
| InfoText.DigitsParse | bootloader/src/bootloader.rs:484-496 | The eight digits of a word parse back to its value |
| InfoText.TextShows | bootloader/src/bootloader.rs:456-510 | The text is, from the first byte to the last, the JSON object with the version and eight lower-case hexadecimal digits that have the value of the start address |
| InfoText.ShowsOneText | bootloader/src/bootloader.rs:456-510 | There is only one such text for a version and an address |
| InfoText.ReadsAsMeantIff | bootloader/src/bootloader.rs:456-510 | A JSON reader finds exactly version, start address and name in it if and only if every byte of the version stands for itself in a JSON string: none is escaped |
| Host.StartAddressShown | bootloader/src/bootloader.rs:405-589 | After SetStartAddress(a) the text shows a and the version as before, and all bytes outside the four are unchanged |
| Host.OrdinaryCommandsSpare | bootloader/src/bootloader.rs:370-415 | Setting other attributes, reading, and setting the start address leave an attribute slot alone |
| Host.RegionSpared | bootloader/src/bootloader.rs:319-415 | A command changes no byte outside its footprint |
| Host.AttributeReadsBack | bootloader/src/bootloader.rs:370-573 | After SetAttr and any commands that spare the slot, GetAttr is answered with bytes that decode to exactly the key and value, including values holding 0xFC |
| Host.PageReadsBack | bootloader/src/bootloader.rs:319-652 | After WritePage and any commands that spare the page, a range within it decodes to what was written |
| Host.LastReply | bootloader/src/bootloader.rs:256-778 | Through the whole stack the last thing sent is the interpreter's reply to the last transfer, from the memory and the command buffer the transfers before it left |
| Host.AttributeThroughStack | bootloader/src/bootloader.rs:370-573 | The attribute property through UART capsule, bootloader and page adapter |
| Host.PageThroughStack | bootloader/src/bootloader.rs:319-652 | The page property through UART capsule, bootloader and page adapter |
| HostInfo.InfoThroughStack | bootloader/src/bootloader.rs:456-523 | After any transfers an Info command is answered with the text that shows the version and the start address in the flags, and the host decodes it if and only if neither the version nor one byte is 0xFC: the byte at the text's end in the command's own transfer if it reaches so far, else what earlier commands left there |
| HostInfo.InfoReplyLost | bootloader/src/bootloader.rs:512-518 | From start-up, an Info command with 72 bytes behind it, the last of them 0xFC, on a flash without a version: the host gets no information text of 64 bytes or more |
| HostInfo.StartAddressThroughStack | bootloader/src/bootloader.rs:405-589 | After SetStartAddress(a) and any commands that spare the flags, Info's reply decodes, under that condition, to the one text with the stored version and the address a |
| HostMemory.WriteThroughStack | bootloader/src/bootloader.rs:319-346 | Through the whole stack, for every address and data: bad arguments if the data is not a page, a bad address with nothing changed if the address is at or behind the bootloader's beginning and before its end, and otherwise exactly the page around the address holds the data; what the encoder lets through has the right length |
| HostMemory.EraseThroughStack | bootloader/src/bootloader.rs:347-355 | Through the whole stack an erase makes exactly the page around the address read ones, whatever the address |
| HostMemory.SetThroughStack | bootloader/src/bootloader.rs:382-404 | Through the whole stack SetAttr changes exactly the 64 bytes at 64 times the index behind the attributes' address: key, length, value cut at or padded to 55 bytes |
| HostMemory.GetThroughStack | bootloader/src/bootloader.rs:370-381 | Through the whole stack GetAttr is answered with the 64 bytes at 64 times the index behind the attributes' address, escaped |
| HostMemory.SlotThroughRange | bootloader/src/bootloader.rs:382-404 | What SetAttr stored, read back as a range at that address after any commands that spare it, is delivered as key, length and padded value |
| HostMemory.AnyAttributeThroughStack | bootloader/src/bootloader.rs:382-404 | A value of any length comes back as it was set if and only if it has at most 55 bytes, which is what the encoder demands; one of 56 comes back with a byte that was never sent, and longer ones are refused by the host's decoder |
| HostMemory.BadPacketThroughStack | bootloader/src/bootloader.rs:420-438 | Through the whole stack a transfer that begins with a bad packet is answered with bad arguments and changes nothing |
| HostMemory.BareThroughStack | bootloader/src/bootloader.rs:270-438 | What every other command is answered with, in numbers; SetStartAddress changes exactly bytes 32 to 35 of the flags, to the address, least significant byte first, and the others change nothing |
| ResponseLoss.UnescapedLost | protocol/src/lib.rs:613-780 | If the body of a response is sent raw and holds 0xFC, then for a CRC only responses without a body can be delivered, and for any other no information text of 64 bytes or more |
| ResponseLoss.UnescapedDeliveredIff | protocol/src/lib.rs:613-780 | A raw CRC, or a raw information text of at least 64 bytes, is delivered if and only if its body holds no 0xFC |
| BootloaderSafety.AlwaysOwned | bootloader/src/bootloader.rs:158-778 | In every state reached from start-up by receptions and completions each of the two buffers has exactly one owner, exactly one operation is outstanding, the receive is armed only when idle, and finitely many completions arm it again |
| BootloaderSafety.RegionUnchangedIff | bootloader/src/bootloader.rs:319-415 | A command leaves a region as it is if and only if every byte it stores there is there already |
| BootloaderSafety.WriteSparesCodeIff | bootloader/src/bootloader.rs:329-334 | An accepted page write misses the code if and only if its address is neither before the code in the page where the code begins nor behind it in the page that holds its end |
| BootloaderSafety.AlignedWriteSparesCode | bootloader/src/bootloader.rs:329-334 | A write to the address of a page reaches the code exactly if it is accepted, lies before the code and the code begins inside that page: never if the code begins on a page |
| BootloaderSafety.CodeKept | bootloader/src/bootloader.rs:256-778 | From start-up, transfers whose commands spare the code leave it as it was |
| BootloaderSafety.CodeStaysIff | bootloader/src/bootloader.rs:319-415 | From start-up, through the whole stack, a transfer with one command leaves the code as it was if and only if every byte the command stores there is there already |
| BootloaderSafety.CodeLost | bootloader/src/bootloader.rs:329-355 | The protection does not suffice: from start-up, through the whole stack, a page write to an unaligned address behind the end of the code changes it, and so does an erase |
| BootloaderEnterer.BootloaderEnterer.EnterKernel | bootloader/src/bootloader.rs:110-139 | Jumps to the stored address or lights the notifier, never both |
| BootloaderEnterer.BootloaderEnterer.Check | bootloader/src/bootloader.rs:99-108 | Staying is decided first; then as for the jump |
| BootloaderEnterer.BootAfterSetStart | bootloader/src/bootloader.rs:99-139 | After SetStartAddress(a) the next jump goes to exactly a if 0x8000 <= a < 0x200000 and the word at a is not 0xFFFFFFFF, and otherwise nowhere |
| BootloaderEnterer.BootAfterSession | bootloader/src/bootloader.rs:99-139 | The same after SetStartAddress(a) through the whole stack and any transfers that spare the stored address |
| FlashController.FlashController.ClearPageBuffer | legacy/src/ASF/sam/drivers/flashcalw/flashcalw.c:1076-1079 | The page buffer is all ones |
| FlashController.FlashController.ErasePage | legacy/src/ASF/sam/drivers/flashcalw/flashcalw.c:1129-1142 | Exactly the page reads as 0xFF |
| FlashController.FlashController.WritePage | legacy/src/ASF/sam/drivers/flashcalw/flashcalw.c:1192-1195 | Each byte of the page becomes itself and the page buffer's: bits are only cleared |
| FlashController.FlashController.EraseUserPage | legacy/src/ASF/sam/drivers/flashcalw/flashcalw.c:1222-1226 | Exactly the user page reads as 0xFF |
| FlashController.FlashController.WriteUserPage | legacy/src/ASF/sam/drivers/flashcalw/flashcalw.c:1238-1241 | Each byte of the user page becomes itself and the page buffer's |
| FlashController.FlashController.QuickPageRead | legacy/src/ASF/sam/drivers/flashcalw/flashcalw.c:1104-1108 | True if and only if the whole page is erased |
| FlashController.FlashController.StoreTwice | legacy/src/ASF/sam/drivers/flashcalw/flashcalw.c:1661-1668 | The workaround of storing ones first does not change what the buffer ends up with |
| FlashController.FlashController.Commit | legacy/src/ASF/sam/drivers/flashcalw/flashcalw.c:1670-1681 | The prepared page, of the array or the user page, is written after an erase or by clearing bits, and every other page is left alone |
| FlashController.ProgrammedIff | legacy/src/ASF/sam/drivers/flashcalw/flashcalw.c:1597-1601 | Without an erase the flash holds the data afterwards if and only if no bit had to be set; with one it always does |
| FlashCopy.UpdatedDword | legacy/src/ASF/sam/drivers/flashcalw/flashcalw.c:1643-1659 | The inner loop takes exactly the source bytes that belong in the double-word |
| FlashCopy.PageFits | legacy/src/ASF/sam/drivers/flashcalw/flashcalw.c:1636-1682 | Each page pass consumes at least one byte and stays within the flash |
| FlashCopy.Memcpy | legacy/src/ASF/sam/drivers/flashcalw/flashcalw.c:1609-1689 | In the flash array or the user page, for any alignment and any number of pages, exactly [dst, dst+n) becomes the source and all other bytes are preserved; with erase off each target byte becomes old and source |
| FlashFill.SourceDword | legacy/src/ASF/sam/drivers/flashcalw/flashcalw.c:1378-1384 | The rotated source double-word has, at every address phase, the pattern byte due there |
| FlashFill.TurnIsBigEndian | legacy/src/ASF/sam/drivers/flashcalw/flashcalw.c:1335-1338 | One turn of the pattern read as a big-endian number is the number |
| FlashFill.SetHead | legacy/src/ASF/sam/drivers/flashcalw/flashcalw.c:1436-1490 | The unaligned beginning of a page: flash data, then a merged double-word unless it is also the last |
| FlashFill.SetMiddle | legacy/src/ASF/sam/drivers/flashcalw/flashcalw.c:1492-1499 | Whole double-words of the pattern |
| FlashFill.SetTail | legacy/src/ASF/sam/drivers/flashcalw/flashcalw.c:1501-1539 | The incomplete end of a page: a merged double-word, then flash data to the page's end |
| FlashFill.SetPage | legacy/src/ASF/sam/drivers/flashcalw/flashcalw.c:1415-1557 | One pass prepares and writes its page and moves on to the end of the destination, to the next page, or from the end of the array to the user page |
| FlashFill.Memset64 | legacy/src/ASF/sam/drivers/flashcalw/flashcalw.c:1359-1577 | For any address, alignment and length, every byte of the destination that lies in the flash array or the user page becomes the one due there of the big-endian pattern repeated from dst, every other byte is unchanged, and the loops end |
| FlashFill.Doubled | legacy/src/ASF/sam/drivers/flashcalw/flashcalw.c:1297-1333 | A number written twice repeats as the number does |
| FlashFill.Memset32 | legacy/src/ASF/sam/drivers/flashcalw/flashcalw.c:1328-1333 | The same for the 32-bit big-endian pattern |
| FlashFill.Memset16 | legacy/src/ASF/sam/drivers/flashcalw/flashcalw.c:1297-1302 | The same for the 16-bit big-endian pattern |
| FlashFill.Memset8 | legacy/src/ASF/sam/drivers/flashcalw/flashcalw.c:1267-1271 | The same for a single byte |
| GpFuses.GpFuses.ReadAll | legacy/src/ASF/sam/drivers/flashcalw/flashcalw.c:666-670 | Bit k of the number is fuse k, and it has no other bits |
| GpFuses.GpFuses.WriteByte | legacy/src/ASF/sam/drivers/flashcalw/flashcalw.c:888-892 | Of the byte's fuses those clear in the value are cleared, no other |
| GpFuses.GpFuses.EraseByte | legacy/src/ASF/sam/drivers/flashcalw/flashcalw.c:757-776 | Erasing everything and writing the others back sets exactly the byte |
| GpFuses.GpFuses.SetBit | legacy/src/ASF/sam/drivers/flashcalw/flashcalw.c:938-945 | Exactly the fuse takes the value |
| GpFuses.GpFuses.SetBitfield | legacy/src/ASF/sam/drivers/flashcalw/flashcalw.c:966-981 | Exactly the field's fuses take the value's bits and every other fuse is as before; a field past fuse 63 runs on at fuse 0 |
| GpFuses.FieldReadsBack | legacy/src/ASF/sam/drivers/flashcalw/flashcalw.c:637-641 | A field that was set and does not run past fuse 63 reads back as the value |
| GpFuses.GpFuses.SetByte | legacy/src/ASF/sam/drivers/flashcalw/flashcalw.c:998-1018 | The byte takes the value and the others are as before; a byte number above seven only clears bits |
| GpFuses.GpFuses.WriteAll | legacy/src/ASF/sam/drivers/flashcalw/flashcalw.c:910-920 | Fuses clear in the value are cleared, byte by byte |
| GpFuses.GpFuses.SetAll | legacy/src/ASF/sam/drivers/flashcalw/flashcalw.c:1034-1058 | All fuses take the value's bits |
| GpFuses.GpFuses.ReadBitfield | legacy/src/ASF/sam/drivers/flashcalw/flashcalw.c:637-641 | Bit k of the number is fuse pos+k, or zero past fuse 63, for the bits of the field, and it has no others |
| LegacyMachine.Stage | legacy/src/bl_commands.c:44-52 | Staging keeps every index within its buffer: the transmit index plus what is left never pass 8192 |
| LegacyMachine.Run | legacy/src/bootloader.c:104-134 | In every run the receive and transmit indices stay within their buffers |
| LegacyBootloader.LegacyBootloader.EscapeCat | legacy/src/bl_commands.c:34-42 | The loop takes exactly the greedy prefix of the data while two bytes are free |
| LegacyBootloader.LegacyBootloader.EscapeSet | legacy/src/bl_commands.c:44-52 | Header and escaped data, staged from the start of the buffer |
| LegacyBootloader.LegacyBootloader.ErasePageCommand | legacy/src/bl_commands.c:107-140 | Length, address and alignment checks, and an erase that is skipped when it would change nothing |
| LegacyBootloader.LegacyBootloader.WritePageCommand | legacy/src/bl_commands.c:142-188 | Length, address and alignment checks, and the page replaced through the page buffer |
| LegacyBootloader.LegacyBootloader.CrcRxCommand | legacy/src/bl_commands.c:190-204 | Length and CRC of the receive buffer |
| LegacyBootloader.LegacyBootloader.ReadRangeCommand | legacy/src/bl_commands.c:206-226 | Length and range checks, the sum wrapping at 32 bits, and the range staged |
| LegacyBootloader.LegacyBootloader.SetAttrCommand | legacy/src/bl_commands.c:228-297 | The page around the slot is read, patched and written back: the flash changes just where key, length and value go |
| LegacyBootloader.LegacyBootloader.GetAttrCommand | legacy/src/bl_commands.c:299-315 | The 64 bytes of the slot staged |
| LegacyBootloader.LegacyBootloader.CrcIfCommand | legacy/src/bl_commands.c:317-339 | Range checks, and the CRC of the range staged |
| LegacyBootloader.LegacyBootloader.WriteUserCommand | legacy/src/bl_commands.c:341-371 | The user page is erased and written through the page buffer: the two words, second one first, and ones behind them; the flash array stays as it is |
| LegacyBootloader.LegacyBootloader.ChangeBaudCommand | legacy/src/bl_commands.c:373-416 | The negotiation's transitions and the answer to each |
| LegacyBootloader.LegacyBootloader.Command | legacy/src/bootloader.c:170-241 | Every command code; while a rate waits for confirmation anything but a change of rate gives it up |
| LegacyBootloader.LegacyBootloader.ReceiveByte | legacy/src/bootloader.c:140-168 | A literal escape, a command, the start of an escape, a failed negotiation, or a stored byte |
| LegacyBootloader.LegacyBootloader.SendPart | legacy/src/bootloader.c:116-133 | A staged byte goes out, or a pending change of rate happens |
| LegacyBootloader.LegacyBootloader.LoopPoll | legacy/src/bootloader.c:104-134 | One iteration equals the transition function the run lemmas are about |
| LegacyRuns.GoesOutAtOneRate | legacy/src/bootloader.c:104-134 | As long as nothing restages it a response goes out byte by byte, in order, all at one rate, however the polls fall; the rate does not change before the last byte |
| LegacyRuns.FinishedWhenDrained | legacy/src/bootloader.c:116-133 | Polls that find the transmitter ready once more than there are bytes send everything and then make the pending change of rate |
| LegacyRuns.StillRun | legacy/src/bootloader.c:104-134 | However polls fall around them, incoming bytes have the same effect |
| LegacyRuns.TakePayload | legacy/src/bootloader.c:140-168 | An escaped payload is stored unescaped |
| LegacyBaud.ChangeBaudSteps | legacy/src/bl_commands.c:373-416 | What a change-of-rate command does in each of the four states |
| LegacyBaud.ExecuteSteps | legacy/src/bootloader.c:170-241 | What any command does to the negotiation, in each of its states |
| LegacyBaud.RunKeepsAnchored | legacy/src/bootloader.c:79-134 | In every run: in IDLE or CHANGING the configured rate is the last confirmed one, in WAITING or RESETTING old_baud_rate holds it |
| LegacyBaud.RateChangesWhenSent | legacy/src/bootloader.c:116-133 | The rate changes only in a poll that finds nothing left to send, and only to the proposed rate or back |
| LegacyBaud.WaitingEnds | legacy/src/bl_commands.c:373-416 | An unconfirmed rate is confirmed if and only if a command names it, is kept if and only if no command or one of two refused ones comes, and is otherwise given up |
| LegacyBaud.ResettingEnds | legacy/src/bootloader.c:126-132 | A rate being given up ends only at the rate before it |
| LegacyBaud.Negotiated | legacy/src/bl_commands.c:373-416 | A whole negotiation with any timing: OK at the old rate, then OK or failure at the new rate, ending at the new rate if the claim matches and at the old one if not |
| LegacyBaud.KeptAfterRepeat | legacy/src/bl_commands.c:373-416 | From a clean station a rate is proposed and put to use, and a second change-of-rate command with nothing before it is refused: the unconfirmed rate stays in use |
| LegacyBaud.KeptAfterReset | legacy/src/bl_commands.c:373-416 | A Reset before the answer to a proposal is out: the answer is never sent, the rate changes all the same, and a bare change-of-rate command leaves it in use |
| LegacyService.AllTakenIff | legacy/src/bl_commands.c:34-42 | Data is staged whole if and only if two bytes are free when its last byte's turn comes |
| LegacyService.RangeNeverTruncated | legacy/src/bl_commands.c:206-226 | For every accepted range length no byte is truncated even if all are 0xFC |
| LegacyService.BoundIsTight | legacy/src/bl_commands.c:213-217 | One byte more would be truncated |
| LegacyService.CommandServes | legacy/src/bootloader.c:170-241 | Every command outside a negotiation does to the flash and the user page what the flat interpreter says and stages its whole reply |
| LegacyService.JobServed | legacy/src/bootloader.c:104-241 | With any timing the reply goes out whole at the current rate, and after a Reset the station is as before |
| LegacyService.SessionServed | legacy/src/bootloader.c:104-241 | The polling bootloader refines the flat interpreter: for every sequence of commands, each followed by Reset, flash, user page and output are the interpreter's |
| LegacyService.BootServes | legacy/src/bootloader.c:53-241 | The same from start-up, all of the output at 115200 baud |
| LegacyService.CrcRxReports | legacy/src/bl_commands.c:190-204 | Asked for after data has come in, length and CRC, as a number, are those of the data received |
| LegacyHost.RangeArrives | legacy/src/bl_commands.c:206-226 | An accepted range of at least one byte decodes to exactly the bytes asked for |
| LegacyHost.CrcArrives | legacy/src/bl_commands.c:317-339 | The CRC is escaped here and always decodes, as the register's number |
| LegacyHost.InfoArrives | legacy/src/bl_commands.c:83-94 | The information text is escaped here and always decodes, whatever its bytes, unless its length byte is over 192 |
| LegacyHost.SetHolds | legacy/src/bl_commands.c:228-297 | Slot i begins at 0x600 + 64 i and holds what was set, and every byte outside the bytes set is preserved |
| LegacyHost.LastAttributeArrives | legacy/src/bl_commands.c:228-315 | The last attribute stored under an index is what GetAttr's reply decodes to, whatever else was done in between |
| LegacyHost.LastReply | legacy/src/bootloader.c:104-241 | Over the loop with any timing, the last thing sent in a session is the interpreter's reply to the last command |
| LegacyHost.AttributeThroughLoop | legacy/src/bl_commands.c:228-315 | Over the loop with any timing, the last attribute stored under an index is what the output decodes to |
| LegacyHost.RangeThroughLoop | legacy/src/bl_commands.c:206-226 | Over the loop with any timing, a range decodes to the bytes the flash holds then |
| LegacyHost.CrcThroughLoop | legacy/src/bl_commands.c:317-339 | Over the loop with any timing, a CRC decodes to that of the range |
| LegacyMemory.RefusedIff | legacy/src/bl_commands.c:79-420 | Whatever the receive buffer holds, a command outside a waiting negotiation is refused, with the code the table gives in numbers and nothing changed, or not refused |
| LegacyMemory.WaitingRefuses | legacy/src/bootloader.c:170-241 | While a rate waits every other command is answered with the failure of the negotiation alone and not done |
| LegacyMemory.BaudAnswered | legacy/src/bl_commands.c:373-416 | What a change-of-rate command is answered with, in every state |
| LegacyMemory.PacketStays | legacy/src/bootloader.c:140-241 | What was received stays in front of the next packet until a Reset; the identifier command does nothing at all |
| LegacyMemory.PageThroughLoop | legacy/src/bl_commands.c:106-175 | Over the loop with any timing, a page command of the right length is done, on exactly that page, if and only if 65280 <= address < 524287 and 512 divides it, and otherwise answered with a bad address and nothing changed |
| LegacyMemory.SlotAnswered | legacy/src/bl_commands.c:299-315 | GetAttr is answered with the 64 bytes at 0x600 + 64 i, escaped, for the sixteen indices, and refused for the others |
| LegacyMemory.AcceptedRefusedIff | legacy/src/bl_commands.c:228-245 | Of the attributes the encoder lets through exactly those of index 16 are refused |
| LegacyMemory.BareReplies | legacy/src/bl_commands.c:79-104 | What the commands without data in their replies are answered with, in numbers |
| LegacyMemory.UserDone | legacy/src/bl_commands.c:341-371 | The second word comes first in the user page, and the rest of it reads ones |
| LegacyMemory.BootloaderKept | legacy/src/bootloader.c:104-241 | In every run, from any state and whatever comes in, of the flash below 65536 nothing but the sixteen attribute slots ever changes |
| LegacyFaults.CrcRefusedIff | legacy/src/bl_commands.c:324-327 | Of the ranges within the flash the CRC command refuses exactly the whole flash and those that begin at its last byte or behind it |
| LegacyFaults.LastByteRefused | legacy/src/bl_commands.c:317-339 | The last byte of the flash can be read but its CRC is refused |
| LegacyFaults.RangeRefusedIff | legacy/src/bl_commands.c:206-226 | A range of a length that can be sent is answered with a bad address if and only if it reaches beyond the flash without running past the last 32-bit address |
| LegacyFaults.WrappedRangeReads | legacy/src/bl_commands.c:206-226 | The reply to a range that wraps holds other memory and then the beginning of the flash |
| LegacyFaults.FullForEver | legacy/src/bootloader.c:104-168 | Once the receive buffer is full nothing is received any more in any run, not even Reset |
| LegacyFaults.DeafRun | legacy/src/bootloader.c:104-115 | From then on, in every run, it sends nothing but overflow codes, without the escape of a response |
| LegacyFaults.OverflowUnseenIff | legacy/src/bootloader.c:104-115 | However long that goes on, a host's decoder never reports the overflow, if and only if it is not inside an escape |
| LegacyFaults.DeafFromStart | legacy/src/bootloader.c:48-168 | From start-up 8192 bytes without an escape do it, with any timing: whatever comes later, flash and user page stay, and the host is not told of an overflow |
| LegacyFaults.ResetsResynchroniseIff | legacy/src/bootloader.c:104-168 | Two Resets, with any timing, and even if bytes are drained when a negotiation fails, bring the station to the beginning of a packet if and only if there is room in the receive buffer and, inside an escape, room for two bytes and no rate that waits for its confirmation or is about to |
| LegacyFaults.ResetsWasted | legacy/src/bootloader.c:104-168 | Inside an escape and with a rate about to change there is a timing in which the first Reset is taken for data and the second is spent on giving the rate up |
| LegacyFaults.ResetsDrained | legacy/src/bootloader.c:154-163 | Inside an escape, with a rate waiting and ten bytes received, there is a timing in which the first Reset makes the negotiation fail and the second is drained with it |
| LegacyFaults.UnsynchronisedFromStart | legacy/src/bootloader.c:48-241 | From start-up, after the proposal of a rate and a stray escape, there is a timing in which two Resets leave seven bytes in the receive buffer |
| CommandEncoding.CommandEncoder.constructor | protocol/src/lib.rs:815-820 | A new encoder has the whole wire form of its command to send |
| CommandEncoding.CommandEncoder.RenderBasicCmd | protocol/src/lib.rs:872-878 | The two trailer bytes and then nothing, whatever the payload before them |
| CommandEncoding.CommandEncoder.RenderErasePage | protocol/src/lib.rs:880-886 | Address and trailer of the packet at each position |
| CommandEncoding.CommandEncoder.RenderEraseExBlock | protocol/src/lib.rs:897-903 | Address and trailer of the packet at each position |
| CommandEncoding.CommandEncoder.RenderWriteExPage | protocol/src/lib.rs:905-912 | Address, page and trailer of the packet at each position |
| CommandEncoding.CommandEncoder.RenderReadRange | protocol/src/lib.rs:914-921 | Address, length and trailer of the packet at each position |
| CommandEncoding.CommandEncoder.RenderExReadRange | protocol/src/lib.rs:923-930 | Address, length and trailer of the packet at each position |
| CommandEncoding.CommandEncoder.RenderGetAttr | protocol/src/lib.rs:950-956 | Index and trailer of the packet at each position |
| CommandEncoding.CommandEncoder.RenderSetStartAddress | protocol/src/lib.rs:958-964 | Address and trailer of the packet at each position |
| CommandEncoding.CommandEncoder.RenderCrcIntFlash | protocol/src/lib.rs:966-973 | Address, length and trailer of the packet at each position |
| CommandEncoding.CommandEncoder.RenderCrcExtFlash | protocol/src/lib.rs:975-982 | Address, length and trailer of the packet at each position |
| CommandEncoding.CommandEncoder.RenderEraseExPage | protocol/src/lib.rs:984-990 | Address and trailer of the packet at each position |
| CommandEncoding.CommandEncoder.RenderWriteFlashUserPages | protocol/src/lib.rs:992-999 | Both words and trailer of the packet at each position |
| ResponseEncoding.ResponseEncoder.RenderByte | protocol/src/lib.rs:1090-1102 | One call sends a byte or the first half of its escape pair and says whether the position moves |
| ResponseEncoding.ResponseEncoder.RenderHeader | protocol/src/lib.rs:1195-1201 | The two header bytes, and nothing behind them |
| ResponseEncoding.ResponseEncoder.RenderU16 | protocol/src/lib.rs:1167-1173 | Byte `idx` of the little-endian value, escaped |
| ResponseEncoding.ResponseEncoder.RenderU32 | protocol/src/lib.rs:1175-1183 | Byte `idx` of the little-endian value, escaped |
| ResponseEncoding.ResponseEncoder.RenderBuffer | protocol/src/lib.rs:1185-1193 | Byte `idx` of the data, padded with zeros to the size given |
| ResponseEncoding.ResponseEncoder.RenderCrcRxBuffer | protocol/src/lib.rs:1104-1112 | Header, length and CRC at each position |
| ResponseEncoding.ResponseEncoder.RenderExReadRange | protocol/src/lib.rs:1123-1130 | Header and data at each position |
| ResponseEncoding.ResponseEncoder.RenderCrc | protocol/src/lib.rs:1142-1148 | Header and CRC at each position, for both flashes |
| ResponseEncoding.ResponseEncoder.Reset | protocol/src/lib.rs:1204-1208 | Starts the same response over: its whole wire form remains to be sent |
| ResponseDecoding.ResponseDecoder.Reset | protocol/src/lib.rs:584-586 | Only the count is cleared: an expected length stays set |
| Bootloader.Bootloader.SendResponse | bootloader/src/bootloader.rs:198-204 | A two-byte response goes out from the buffer, which leaves its cell |
| Bootloader.Bootloader.StartWrite | bootloader/src/bootloader.rs:338-343 | The data is copied into the page and the page handed to the flash |
| Bootloader.Bootloader.SendCrc | bootloader/src/bootloader.rs:683-695 | Header and the four bytes of the register, least significant first, unescaped |
| Bootloader.Bootloader.SendAttribute | bootloader/src/bootloader.rs:527-555 | The attribute reply is laid out and sent, and the page buffer comes home |
| Bootloader.Bootloader.SendInfo | bootloader/src/bootloader.rs:456-523 | The information reply is laid out and 195 bytes of it sent |
| Bootloader.Bootloader.ConfirmOk | bootloader/src/bootloader.rs:718-726 | Back to idle and OK sent from the kept buffer |
| GpFuses.GpFuses.EraseBit | legacy/src/ASF/sam/drivers/flashcalw/flashcalw.c:692-696 | Exactly the fuse is set |
| GpFuses.GpFuses.WriteBit | legacy/src/ASF/sam/drivers/flashcalw/flashcalw.c:825-831 | Exactly the fuse is cleared, or nothing is done |
| GpFuses.GpFuses.EraseAll | legacy/src/ASF/sam/drivers/flashcalw/flashcalw.c:796-805 | Every fuse is set |
| LegacyBootloader.LegacyBootloader.constructor | legacy/src/bootloader.c:53-77 | Nothing staged, nothing received, 115200 baud and no negotiation |
| LegacyBootloader.LegacyBootloader.Reset | legacy/src/bl_commands.c:101-105 | Drops what is staged and what was received; the only command that empties the receive buffer |
| LegacyBootloader.LegacyBootloader.ChangeRate | legacy/src/bootloader.c:79-89 | The old rate is remembered and the proposed one configured |
| LegacyBootloader.LegacyBootloader.ResetRate | legacy/src/bootloader.c:95-102 | The remembered rate is configured again and forgotten |
| LegacyMachine.BytesAt | legacy/src/bl_commands.c:223-225 | Within the flash the bytes at an address are the flash's |
| LegacyBootloader.LegacyBootloader.RxWord | legacy/src/bl_commands.c:54-60 | The word whose little-endian bytes stand there in the receive buffer |
| LegacyBootloader.LegacyBootloader.RxHalf | legacy/src/bl_commands.c:70-74 | The half-word whose little-endian bytes stand there in the receive buffer |

## Left out

- Errors: flash and UART calls are taken to be accepted and to complete; the bootloader discards their results, and buffers lost when they fail are not modelled.
- Stack.StackRefines: transfers that make the decoder index out of range are left out (`CommandRoundTrip.PanicsOnlyOnShortPageWrite` says which), and so are commands whose addresses, attribute slots or flags do not lie in the flash, because the bootloader checks none of these; the command buffer has the size the command and its answer need (195 bytes for the information reply).
- FlashAdapter.RunRefines: large pages have 4096 bytes; for other sizes see `FlashAdapter.ReadServedIff` and `FlashAdapter.ChangeServedIff`.
- LegacyMachine.Run: its events are the bytes the loop looks at; those it drains when a negotiation fails are not among them. `LegacyFaults.Sees` accounts for them where two Resets are concerned.
- LegacyMachine.Stage: the information text is a parameter of 193 bytes, because it is produced by a formatting function over a version field that need not be terminated.
- FlashFill.Memset64: addresses are unbounded numbers; a sum of address and length past 2^32 does not wrap.
- GpFuses.GpFuses.ReadBitfield: a width of 64 is left out, because its shift is not defined.
- GpFuses.GpFuses.SetByte: the error status accumulated over several commands is not modelled, here or elsewhere in the flash driver.
- LegacyBootloader.LegacyBootloader.WriteUserCommand: the erase is taken to succeed, so the error answer that follows a failed check is not modelled.
- BootloaderEnterer.BootloaderEnterer.EnterKernel: the word at the kernel's address is a parameter when it lies beyond the flash; the jump itself is not part of this model.
- UART configuration, alarm ticks and real baud signalling: timing is left open instead.
- `uart_receive_timeout.rs` and `flash_passthrough.rs`: pass-throughs without an algorithm.
- Board files, kernel wiring, LED and entry drivers, the jump assembly, wait states, cache, lock bits and the security bit: configuration and register writes.
- `CommandDecoder::read` and `ResponseDecoder::read`: loops over `receive` that would only restate it.
- External flash and clock-out commands: kept for the wire protocol; both bootloaders answer them with an unknown-command response.
