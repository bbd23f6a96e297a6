# Verified models of the serial, memory and storage code

The repository holds a small circular-buffer tool (`cycle_buff`) and a U-Boot tree (`hfc-boot`). This
project models the parts of both that have an algorithm of their own, in Dafny, and proves what they are
for. `dafny verify dfyconfig.toml` checks all of it.

| file | models |
|---|---|
| `Machine.dfy`, `BitWords.dfy`, `Ring.dfy`, `Numerals.dfy`, `CType.dfy` | 32-bit numbers, masks, big-endian words; words as bits; arrays as rings; numbers as text; classes of characters |
| `KermitCoding.dfy`, `KermitFrame.dfy`, `KermitProtocol.dfy`, `KermitInit.dfy`, `KermitReceiver.dfy` | the Kermit receiver of `cmd_load.c` |
| `KermitDamage.dfy`, `KermitDelivery.dfy`, `KermitTransfer.dfy` | what damage on the line does to a transfer |
| `SRecord.dfy` | the S-record writer of `cmd_load.c` |
| `RamTest.dfy` | the alternative RAM test of `cmd_mem.c` |
| `FlashPlan.dfy`, `FlashCommands.dfy` | flash sector ranges and software protection of `cmd_flash.c` |
| `CircularBuffer.dfy` | the three-pointer buffer of `buff.c` |
| `Floppy.dfy` | the multi-track read of `cmd_fdc.c` |
| `Bootstage.dfy` | stashing boot records, `bootstage.c` |
| `LogText.dfy`, `LogBuffer.dfy` | the log of `cmd_log.c` |
| `Eeprom.dfy` | EEPROM transfers of `cmd_eeprom.c` |
| `FdtText.dfy`, `FdtCommands.dfy` | property values of `cmd_fdt.c` |
| `Ppc.dfy`, `PpcText.dfy` | the PowerPC assembler of `bedbug.c` |
| `PpcStep.dfy` | its single-step logic, against the architecture |
| `PpcListing.dfy`, `PpcRoundTrip.dfy` | its disassembler, and assembling what it prints |

Code that works in place is a class or a method over arrays, proved against functions on values; the
theorems are about those functions. Devices and the outside world are parameters: the Kermit stream is a
sequence of characters, RAM is an arbitrary map from addresses to cells with arbitrary stuck bits, a floppy
drive answers with arbitrary faults, an EEPROM bus leaves an arbitrary set of transfers unacknowledged, and
ctrl-C is an arbitrary set of moments.

Where a promise turned out not to hold of the code, the model keeps the code, a lemma gives an input that
shows the failure, and another says exactly when the promise holds:

- Kermit: a damaged length or sequence character after a data packet that was acknowledged throws that
  packet's data away (`OneLetterOfTwo`, `DamagedHeadDropsPacket`; exact in `DeliveryIff`).
- Kermit: the block check notices every flipped bit of a data character (`OneBitNoticed`), but not every wrong
  character (`NotAllNoticed`); what is refused and what is stored then is exact in `FrameReads`.
- Flash: a range up to the top of the address space takes a later bank at address 0 along
  (`HazardHappens`, `HazardOverruns`; exact in `PlanExactIff`), and "0 +0" selects everything on a flash that
  fills the address space (`ZeroPlusZero`; exact in `SelectsRangeIff`).
- Log: a message in two pieces is tagged differently if a tag lies across the cut (`TagInTwoPieces`; exact in
  `SplitIff`), and a printed line of a message prints all that follows it too (`SecondLineTwice`; exact in
  `ConsoleIff`).
- EEPROM: a device address that shares a bit with a block number puts two blocks into one chip
  (`SharedBit`; exact in `ReadBackIff`), and a write leaves its page if pages are longer than 256 bytes
  (`LeavesPage`; exact in `KeepsPagesIff`).
- Circular buffer: one byte into a full buffer makes it count as empty, and taking one without trial data makes
  it look full of sent bytes (exact in `InByte` and `OutByte`).
- S-records: the records are in ascending order only if the area does not go around the end of the address
  space (`AroundTheEnd`; exact in `AscendingIff`).
- PowerPC: a branch target that is unaligned or out of reach is cut without an error (`TargetsCut`; exact in
  `TargetIff`). A conditional branch with the hint bit `a`, or with one of the ignored bits `z` of its BO field
  set, is never followed by the step logic (`LikelyBranchOverlooked`; exact in `SwitchIff`), which does not drop
  the low bits of the link or count register either (`LinkNotCut`; exact in `StepIsNia`).
- PowerPC: what the disassembler prints is not always what the assembler reads. An offset with its register is
  one word for the assembler, and the names of the special registers are never found because they are put into
  small letters first (`LoadNotReassembled`, `LinkRegisterNotFound`; exact in `Reassembled`).

Where a comment and its code differ, the model follows the code. The comment on address specifications in
`cmd_flash.c` (line 154) writes a half-open interval, but the planner takes the end address as the last one.
The header of `cmd_log.c` says that messages of a low enough level are also output; the code outputs more,
see `ConsoleIff`. `buff_init` takes a buffer, but the length it sets is the global buffer's, which is the one
that is modelled.

Every lemma is marked `{:induction false}`: all inductions are written out, and none is left to the
verifier's own heuristic.

## Model

| member | source | states |
|---|---|---|
| `KermitCoding.DecodeAppend` | hfc-boot/common/cmd_load.c:674-689 | decoding is the same however a text is cut, even between a quote and the character it quotes |
| `KermitCoding.RoundTrip` | hfc-boot/common/cmd_load.c:557-565 | for every byte string and legal quote character, decoding the manual's control-quoted form returns the string |
| `KermitCoding.RoundTripIffLegal` | hfc-boot/common/cmd_load.c:557-565 | among the graphic characters, exactly the quotes 33 to 62 and 96 to 126 let every byte string through |
| `KermitCoding.EncodeIsGraphic` | hfc-boot/common/cmd_load.c:914-919 | no encoded character is taken for a control character by the receiver's test |
| `KermitFrame.ParseConsumes` | hfc-boot/common/cmd_load.c:835-939 | every attempt at a packet uses up characters, so that the main loop ends with the stream |
| `KermitFrame.TypedHasNumber` | hfc-boot/common/cmd_load.c:882-939 | once the sequence number has been read, every outcome carries it |
| `KermitFrame.HeadReads` | hfc-boot/common/cmd_load.c:847-911 | the head of a packet in the short or the long format is read up to its data |
| `KermitFrame.FrameReads` | hfc-boot/common/cmd_load.c:847-945 | a packet of graphic characters is accepted with number, type and data if and only if its block check is right, and nothing behind it is read; otherwise its data is refused |
| `KermitFrame.WholeFrameHeard` | hfc-boot/common/cmd_load.c:847-939 | a packet of the manual, short or long, is accepted |
| `KermitFrame.FrameHeard` | hfc-boot/common/cmd_load.c:835-939 | every legal packet is accepted whatever noise precedes it |
| `KermitDamage.WireIsFrame` | hfc-boot/common/cmd_load.c:847-939 | a damaged frame differs from the frame in exactly the character that is hit |
| `KermitDamage.WireHeard` | hfc-boot/common/cmd_load.c:847-945 | a frame with a damage that shows is heard as one refused attempt, at its own number unless its head was hit |
| `KermitDamage.LeftoverIsNoise` | hfc-boot/common/cmd_load.c:835-846 | what is left of it is passed over before the next packet |
| `KermitDamage.OneBitNoticed` | hfc-boot/common/cmd_load.c:932-936 | one flipped bit in a data character always changes the block check |
| `KermitDamage.NotAllNoticed` | hfc-boot/common/cmd_load.c:932-936 | a wrong character that the block check does not notice |
| `KermitProtocol.FeedAppend` | hfc-boot/common/cmd_load.c:637-689 | data characters can be fed in pieces: memory, cursor and escape flag end up the same |
| `KermitProtocol.OurParamsFit` | hfc-boot/common/cmd_load.c:712-780 | the parameters offered in the reply to an S packet fit the reply buffer |
| `KermitInit.FieldsTaken` | hfc-boot/common/cmd_load.c:697-745 | of an S packet with any number of the manual's fields, the receiver remembers exactly the end of line, the padding count and the quote character that were announced, and CR, 0 and '#' for those left off; the padding character if and only if it is a control character |
| `KermitInit.AnyAnnouncement` | hfc-boot/common/cmd_load.c:697-713 | every S packet is such an announcement |
| `KermitInit.NothingAnnounced` | hfc-boot/common/cmd_load.c:795-798 | before an S packet the same defaults hold |
| `KermitInit.FieldsOffered` | hfc-boot/common/cmd_load.c:714-768 | the reply offers, field for field as far as they were announced, packets of 94 characters, one second, no padding, CR, '#', no eighth-bit and repeat prefixes, check 1, and long packets of 94 * 95 + 94 characters without windows |
| `KermitProtocol.CheckpointIsRunStart` | hfc-boot/common/cmd_load.c:863-880 | in every run the checkpoint is the position at which the current run of equal sequence numbers began |
| `KermitProtocol.RefusalRollsBack` | hfc-boot/common/cmd_load.c:940-945 | whichever character is at fault, a refusal puts cursor and escape flag back to that position and sends a NAK with that number |
| `KermitDelivery.PassageDelivers` | hfc-boot/common/cmd_load.c:818-956 | one packet with all its damaged, repeated and cut attempts is stored exactly once, unless a damaged head follows |
| `KermitDelivery.LeadKeeps` | hfc-boot/common/cmd_load.c:804-859 | damaged heads before any number has been read change nothing |
| `KermitDelivery.RunDelivers` | hfc-boot/common/cmd_load.c:784-958 | for every run, memory from the start address to the cursor is the decoded data of the packets that are kept, in order, and nothing below changes |
| `KermitDelivery.Delivery` | hfc-boot/common/cmd_load.c:784-958 | if no length or sequence character is damaged right after a data packet, everything that was sent is in memory once and in order |
| `KermitDelivery.DeliveryIff` | hfc-boot/common/cmd_load.c:847-945 | for senders that do not cut quoted pairs, the whole file is delivered if and only if every data packet that is followed by a damaged head was empty |
| `KermitDelivery.DamagedHeadDropsPacket` | hfc-boot/common/cmd_load.c:847-859 | in any run a damaged head leaves the receiver, to the end of the run, as if the acknowledged data packet before it had not been sent |
| `KermitDelivery.OneLetterOfTwo` | hfc-boot/common/cmd_load.c:847-859 | the smallest such run: of two letters sent and acknowledged one is in memory |
| `KermitDelivery.PacketBoundariesDoNotMatter` | hfc-boot/common/cmd_load.c:913-930 | the decoded file does not depend on how its text is cut into packets |
| `KermitDelivery.FileArrives` | hfc-boot/common/cmd_load.c:784-958 | a file encoded with the quote character of the QCTL field, or '#' if that was left off, is in memory byte for byte, for every plausible run of attempts |
| `KermitReceiver.CheckIgnoresSign` | hfc-boot/common/cmd_load.c:567-575 | the block check is the same whether `char` is signed or not |
| `KermitReceiver.ReplyWellFormed` | hfc-boot/common/cmd_load.c:585-610 | every ACK, NAK and S reply fits 24 bytes, its length field counts what follows, and this receiver would accept its block check |
| `KermitReceiver.GoodIsAcknowledged` | hfc-boot/common/cmd_load.c:585-610 | a good packet is answered with Y and its number, an S packet also with the offer, with the padding and end of line the sender asked for |
| `KermitReceiver.Receiver.DataChar` | hfc-boot/common/cmd_load.c:637-689 | one data character does to memory, cursor and flag what the specification says |
| `KermitReceiver.Receiver.Chk1` | hfc-boot/common/cmd_load.c:567-575 | the check of the string in the reply buffer |
| `KermitReceiver.Receiver.SendReply` | hfc-boot/common/cmd_load.c:586-610 | an ACK or NAK is transmitted with padding, check and end of line, and nothing else changes |
| `KermitReceiver.Receiver.HandleSendPacket` | hfc-boot/common/cmd_load.c:697-781 | the parameters of the peer are taken and the reply is sent, as `FieldsTaken` and `FieldsOffered` say |
| `KermitReceiver.Receiver.ReceiveBody` | hfc-boot/common/cmd_load.c:913-939 | data, block check and end of line are read as the parser reads them, and the data is stored while it is read |
| `KermitReceiver.Receiver.TakeNumber` | hfc-boot/common/cmd_load.c:863-880 | a repeated number restores the checkpoint and a new one takes it |
| `KermitReceiver.Receiver.Reject` | hfc-boot/common/cmd_load.c:940-945 | the error path is the refusal of the specification |
| `KermitReceiver.Receiver.ReceiveTail` | hfc-boot/common/cmd_load.c:931-956 | block check and end of line decide between acceptance and refusal |
| `KermitReceiver.Receiver.ReceivePacket` | hfc-boot/common/cmd_load.c:818-956 | one pass of the main loop consumes one attempt and applies it |
| `KermitReceiver.Receiver.KRecv` | hfc-boot/common/cmd_load.c:784-958 | for every stream of characters, memory, replies and the returned size are those of the protocol session |
| `KermitReceiver.SessionIsRun` | hfc-boot/common/cmd_load.c:784-958 | a session is the run of the attempts that the stream contains |
| `KermitTransfer.StreamHeard` | hfc-boot/common/cmd_load.c:835-956 | from a stream of frames with repetitions, noticed damage and noise the receiver hears exactly these attempts, up to the B packet |
| `KermitTransfer.HeardFileArrives` | hfc-boot/common/cmd_load.c:784-958 | for every stream of characters in which a plausible run of the packets of a file is heard, none of them lost, the file is in memory byte for byte and its size is returned |
| `KermitTransfer.TransferArrives` | hfc-boot/common/cmd_load.c:784-958 | from characters to memory: a file sent as frames, any of them repeated or damaged in a way that is noticed, is found at the load address and its size is returned |
| `SRecord.SumIs255` | hfc-boot/common/cmd_load.c:355-367 | in every record length, address, data and checksum add up to 0xFF modulo 256 |
| `SRecord.LineReads` | hfc-boot/common/cmd_load.c:326-372 | an independent reader gets address and data of every record back, and the line fits its 48-byte buffer |
| `SRecord.RecordsSized` | hfc-boot/common/cmd_load.c:352-357 | every record holds 1 to 16 bytes |
| `SRecord.RecordsLoad` | hfc-boot/common/cmd_load.c:331-384 | loading the records in order is storing the requested area at its addresses |
| `SRecord.LoadedIsSent` | hfc-boot/common/cmd_load.c:343-352 | a loaded byte is the byte of the memory that was sent, and no other address is touched, also across the end of the address space |
| `SRecord.UploadReads` | hfc-boot/common/cmd_load.c:331-384 | the whole text that is sent, read line by line, stores exactly the requested bytes at their addresses |
| `SRecord.AscendingIff` | hfc-boot/common/cmd_load.c:374-376 | the records are ascending and disjoint if and only if the area does not go around the end of the address space |
| `SRecord.AroundTheEnd` | hfc-boot/common/cmd_load.c:374-376 | an area that goes around, with its second record below the first |
| `SRecord.FormattedIsLine` | hfc-boot/common/cmd_load.c:326-327 | the format string makes of the collected digits the line of the record |
| `SRecord.AddressSum` | hfc-boot/common/cmd_load.c:363-364 | the four shifts add up the bytes of the address |
| `SRecord.Console.SaveSerial` | hfc-boot/common/cmd_load.c:331-384 | start, records and end are sent if ctrl-C is never found pressed, and otherwise a prefix of them; the result says which |
| `SRecord.Console.SendData` | hfc-boot/common/cmd_load.c:342-380 | the collecting loop sends exactly the records of the area |
| `SRecord.Console.WriteRecord` | hfc-boot/common/cmd_load.c:386-399 | a line is sent completely before ctrl-C is looked at |
| `RamTest.SilentThenSound` | hfc-boot/common/cmd_mem.c:842-886 | if the three passes find nothing, every word has its own cell and no bit is stuck |
| `RamTest.SoundThenSilent` | hfc-boot/common/cmd_mem.c:842-886 | on a sound region they find nothing and leave it zero |
| `RamTest.FillVerdict` | hfc-boot/common/cmd_mem.c:837-886 | for any aliasing and any stuck bits, zero errors if and only if the region is sound |
| `RamTest.SharedCellShows` | hfc-boot/common/cmd_mem.c:850-866 | two words in one healthy cell are noticed in the second pass |
| `RamTest.MarkShows` | hfc-boot/common/cmd_mem.c:781-823 | a mark shows at exactly the probes that share its cell |
| `RamTest.DistinctMeaning` | hfc-boot/common/cmd_mem.c:766-823 | the checks over probes say that no two of the offsets 0, 1, 2, 4, ... below len share a cell |
| `RamTest.NextProbe` | hfc-boot/common/cmd_mem.c:777-779 | doubling a probe below the limit does not overflow, so that the loops end |
| `RamTest.Ram.CheckProbes` | hfc-boot/common/cmd_mem.c:787-799 | counts the probes that do not show the pattern |
| `RamTest.Ram.MarkAndCheck` | hfc-boot/common/cmd_mem.c:784-800 | no error if and only if the marked offset shares no cell with another probe, and the pattern is back afterwards |
| `RamTest.Ram.CheckShorted` | hfc-boot/common/cmd_mem.c:806-823 | no error if and only if no two probes share a cell |
| `RamTest.Ram.AddressTest` | hfc-boot/common/cmd_mem.c:766-823 | with sound cells and any address map, zero errors if and only if the offsets 0, 1, 2, 4, ... have different cells |
| `RamTest.Ram.CheckAndInvert` | hfc-boot/common/cmd_mem.c:850-866 | counts the misses of the pattern and leaves its complement |
| `RamTest.Ram.CheckAndZero` | hfc-boot/common/cmd_mem.c:871-886 | counts the misses of the complement and leaves zero |
| `RamTest.Ram.FillTest` | hfc-boot/common/cmd_mem.c:837-886 | the three loops count zero errors if and only if the region is sound, which then is all zero |
| `RamTest.WordIs` | hfc-boot/common/cmd_mem.c:767-848 | a word of the model is the number that is written, modulo 2^32 |
| `RamTest.NotIs` | hfc-boot/common/cmd_mem.c:848-862 | and its complement is what is missing from all ones |
| `RamTest.NumWordsExact` | hfc-boot/common/cmd_mem.c:837 | the i-th word is in the region if and only if i is below `num_words` |
| `RamTest.RegionIs` | hfc-boot/common/cmd_mem.c:837 | for start <= end the region is the addresses start, start + 4, ... up to end |
| `RamTest.RegionSoundIff` | hfc-boot/common/cmd_mem.c:837-886 | the words that are tested are sound exactly if the words at all these addresses have healthy cells of their own |
| `RamTest.DistinctLinesMeaning` | hfc-boot/common/cmd_mem.c:766-823 | the address-line test is about the cells at start and at start + 4, start + 8, start + 16, ... as far as that word and the next begin inside the region |
| `RamTest.Ram.Iteration` | hfc-boot/common/cmd_mem.c:766-886 | for any start and end, one iteration is silent if and only if the words at the addresses start, start + 4, ... up to end have healthy cells of their own, which then are all zero |
| `FlashPlan.DecisionMeans` | hfc-boot/common/cmd_flash.c:239-286 | exactly when a bank is taken, passed over or refused, in terms of the addresses of its sectors, and which sectors are taken |
| `FlashPlan.PlanTiles` | hfc-boot/common/cmd_flash.c:208-289 | a plan that is not refused tiles [first, last] exactly, without gaps and in bank order, if last ends a sector of a known bank |
| `FlashPlan.PlanFinds` | hfc-boot/common/cmd_flash.c:208-289 | whatever can be tiled in bank order is planned, and in that way |
| `FlashPlan.PlanStarts` | hfc-boot/common/cmd_flash.c:239-276 | a plan starts with a sector that starts at the first address |
| `FlashPlan.HazardOverruns` | hfc-boot/common/cmd_flash.c:274-276 | at the top of the address space the whole of a later bank at address 0, which lies below the range, is planned as well |
| `FlashPlan.HazardHappens` | hfc-boot/common/cmd_flash.c:274-276 | two banks for which this happens |
| `FlashPlan.PlanExactIff` | hfc-boot/common/cmd_flash.c:208-289 | a plan is exact if and only if last ends a sector and the range does not run into that wrap-around |
| `FlashPlan.PlannedIffTileable` | hfc-boot/common/cmd_flash.c:208-289 | away from it the planner succeeds exactly on the ranges that can be tiled in bank order |
| `FlashCommands.InOrderTiles` | hfc-boot/common/cmd_flash.c:273-276 | a plan in order is a gapless list of sectors and `s_count` is its length |
| `FlashCommands.NoOverflowGetsThrough` | hfc-boot/common/cmd_flash.c:187-203 | a length that overflows the address, or 0, survives rounding and the check of the caller only for "0 +0" |
| `FlashCommands.StartPlusLength` | hfc-boot/common/cmd_flash.c:187-203 | away from the two exceptions, rounding then planning selects exactly the sectors that meet [start, start + length - 1] |
| `FlashCommands.SelectsRangeIff` | hfc-boot/common/cmd_flash.c:187-289 | a command that gets through selects exactly those sectors if and only if it is not "0 +0" and does not run into the wrap-around |
| `FlashCommands.ZeroPlusZero` | hfc-boot/common/cmd_flash.c:187-203 | a flash on which "0 +0" selects every sector |
| `FlashCommands.ProceedsIff` | hfc-boot/common/cmd_flash.c:112-289 | away from the exceptions a command gets through exactly if its rounded range can be tiled in bank order |
| `FlashCommands.Flash.ScanBank` | hfc-boot/common/cmd_flash.c:239-255 | the sector loop finds the sectors that start and end the range |
| `FlashCommands.Flash.PlanBank` | hfc-boot/common/cmd_flash.c:235-285 | the bank's branches take the planner's decision and advance the address |
| `FlashCommands.Flash.FillSectRanges` | hfc-boot/common/cmd_flash.c:208-289 | refuses exactly when the plan does, and otherwise leaves the plan and its number of sectors |
| `FlashCommands.Flash.SectRoundb` | hfc-boot/common/cmd_flash.c:112-148 | the end of the sector that holds the address, or an error exactly if there is none |
| `FlashCommands.Flash.SectProtect` | hfc-boot/common/cmd_flash.c:635-682 | sets exactly the flags of the planned sectors, and none on a planning error |
| `FlashCommands.Flash.ProtectCommand` | hfc-boot/common/cmd_flash.c:616-632 | for every start and length, "start +length" succeeds exactly if the rounded range is planned, sets exactly the flags of the planned sectors and none if it fails; away from the exceptions it succeeds exactly on the ranges that can be tiled and selects the sectors that meet them |
| `CircularBuffer.StepConserves` | cycle_buff/buff.c:42-117 | what leaves and what stays after an operation is what was there and what came in, in order |
| `CircularBuffer.Fifo` | cycle_buff/buff.c:42-117 | first in, first out, over every sequence of operations |
| `CircularBuffer.NeverOverfull` | cycle_buff/buff.c:30-54 | guarded operations never hold more than len - 1 bytes |
| `CircularBuffer.RetryThenTry` | cycle_buff/buff.c:71-117 | bytes that are rewound come out of `buff_try` again, the same and first, whatever input arrives in between |
| `CircularBuffer.TryAgain` | cycle_buff/buff.c:112-117 | a whole trial can be repeated |
| `CircularBuffer.Advanced` | cycle_buff/buff.c:44-52 | copying in two parts at the masked counter extends the queue, also when the counter wraps |
| `CircularBuffer.OutStep` | cycle_buff/buff.c:90-100 | the masked reads and counter moves of `buff_out` remove the front of the queue |
| `CircularBuffer.TryStep` | cycle_buff/buff.c:73-81 | those of `buff_try` move bytes from unsent to sent |
| `CircularBuffer.CBuff.DLen` | cycle_buff/buff.c:15-17 | the masked, truncated difference is the number of bytes held |
| `CircularBuffer.CBuff.UntriedLen` | cycle_buff/buff.c:20-22 | ... of unsent bytes |
| `CircularBuffer.CBuff.TryLen` | cycle_buff/buff.c:25-27 | ... of bytes sent but not acknowledged; the two add up to the length |
| `CircularBuffer.CBuff.FreeLen` | cycle_buff/buff.c:30-32 | the room that is left of len - 1 |
| `CircularBuffer.CBuff.constructor` | cycle_buff/buff.c:35-38 | an empty queue at any start value |
| `CircularBuffer.CBuff.In` | cycle_buff/buff.c:42-54 | as much as there is room for is appended to the unsent bytes |
| `CircularBuffer.CBuff.InByte` | cycle_buff/buff.c:56-62 | one byte is appended if and only if there is room; a full buffer counts as empty afterwards |
| `CircularBuffer.CBuff.InString` | cycle_buff/buff.c:65-67 | a string, its length cut to 16 bits |
| `CircularBuffer.CBuff.Try` | cycle_buff/buff.c:71-83 | the first unsent bytes, which then count as sent |
| `CircularBuffer.CBuff.Out` | cycle_buff/buff.c:87-102 | the first bytes leave; while unsent data remains all of it counts as unsent again |
| `CircularBuffer.CBuff.OutByte` | cycle_buff/buff.c:104-110 | the first sent byte leaves if and only if there is one; otherwise the buffer seems full of sent bytes afterwards |
| `CircularBuffer.CBuff.Retry` | cycle_buff/buff.c:113-117 | at most the sent bytes become unsent again |
| `CircularBuffer.CBuff.ClearTrial` | cycle_buff/buff.c:10-12 | all bytes become unsent |
| `Floppy.SplitExact` | hfc-boot/common/cmd_fdc.c:277-296 | track, head and sector of a command name exactly the block, both head fields agree and nothing is cut off |
| `Floppy.DeliversBlock` | hfc-boot/common/cmd_fdc.c:277-304 | within a track side a READ delivers the disk from the named block on, if the heads are on its track |
| `Floppy.RequestOnSide` | hfc-boot/common/cmd_fdc.c:459-462 | no request crosses a track side |
| `Floppy.NextChunk` | hfc-boot/common/cmd_fdc.c:520-530 | after a chunk that was not the last one the next block starts a track side |
| `Floppy.Fdc.ReceiveBytes` | hfc-boot/common/cmd_fdc.c:475-516 | the byte loop ends at the fault or with all bytes in the buffer |
| `Floppy.Fdc.CountError` | hfc-boot/common/cmd_fdc.c:490-512 | the two retry counters together count errors: the 25th is fatal |
| `Floppy.Fdc.ReadChunk` | hfc-boot/common/cmd_fdc.c:466-530 | a chunk that went through is in the buffer and the block number has advanced |
| `Floppy.SectorSizes` | hfc-boot/common/cmd_fdc.c:437 | the sizes that the sector codes stand for |
| `Floppy.Fdc.Seek` | hfc-boot/common/cmd_fdc.c:403-412 | a seek that ends puts the heads on the track of the block |
| `Floppy.Fdc.Recover` | hfc-boot/common/cmd_fdc.c:490-516 | after an error it goes on with the heads on the track of the block, or gives up exactly at the 25th |
| `Floppy.Fdc.Turn` | hfc-boot/common/cmd_fdc.c:466-530 | a pass of the loop reads a chunk or counts an error |
| `Floppy.Fdc.ReadData` | hfc-boot/common/cmd_fdc.c:428-549 | it ends, and success means that the buffer holds the blocks asked for, the block number advanced by them, and at most 24 errors were survived; it gives up exactly at the 25th; a drive that does what it is told leaves no other end, and one that also makes no error lets it succeed |
| `Bootstage.PrintNameFits` | hfc-boot/common/bootstage.c:147-158 | a printable name is a C string, and a made-up one fits its 20-byte buffer |
| `Bootstage.PrintNameShows` | hfc-boot/common/bootstage.c:147-158 | a record without a name is shown as "user_" and its number less 171, or as "id=" and its number, in digits that read back as that |
| `Bootstage.Bootstage.AppendData` | hfc-boot/common/bootstage.c:309-318 | the pointer always advances; the bytes are written only if they fit |
| `Bootstage.Bootstage.WriteAll` | hfc-boot/common/bootstage.c:348-362 | a loop over the table appends the pieces of the filled-in records and nothing past the end |
| `Bootstage.Bootstage.CountRecords` | hfc-boot/common/bootstage.c:337-343 | the number of filled-in records |
| `Bootstage.Bootstage.Stash` | hfc-boot/common/bootstage.c:320-375 | success exactly if header, records and names fit; then the area holds them; a later failure leaves size 0; nothing at or past `size` is touched |
| `Bootstage.StashAccepted` | hfc-boot/common/bootstage.c:377-421 | a successful stash is accepted exactly if there are enough free table entries |
| `Bootstage.StashIntact` | hfc-boot/common/bootstage.c:425-436 | and its records and terminated names are where unstashing looks for them |
| `Bootstage.StashRoundTrip` | hfc-boot/common/bootstage.c:320-440 | each stashed record is restored with its fields and printable name |
| `Bootstage.Unstashed` | hfc-boot/common/bootstage.c:425-438 | after unstashing, the entries from the first free one on are the filled-in records of the stashed table, in order |
| `Bootstage.FailedStashRefused` | hfc-boot/common/bootstage.c:401-405 | a stash that failed after its header was written is refused, whatever else is in the area |
| `Bootstage.FailureHasRecords` | hfc-boot/common/bootstage.c:364-368 | such a failure always has records, so that it is always refused |
| `Bootstage.Bootstage.Check` | hfc-boot/common/bootstage.c:385-421 | the tests of the header accept exactly the acceptable areas |
| `Bootstage.Bootstage.Unstash` | hfc-boot/common/bootstage.c:377-443 | refuses and changes nothing, or puts the stashed records into the next free entries and changes no other |
| `Bootstage.Bootstage.ReadNames` | hfc-boot/common/bootstage.c:429-436 | each restored record points to its own string |
| `LogText.EmitTagged` | hfc-boot/common/cmd_log.c:279-324 | every line of the logged text starts with a tag |
| `LogText.TaggedIsKept` | hfc-boot/common/cmd_log.c:281-296 | a text whose lines have tags is logged as it is |
| `LogText.EmitTwice` | hfc-boot/common/cmd_log.c:269-326 | logging what was logged changes nothing |
| `LogText.EmitAddsTagsOnly` | hfc-boot/common/cmd_log.c:269-326 | without its tags the logged text is the message without its tags |
| `LogText.SplitIff` | hfc-boot/common/cmd_log.c:269-326 | logging a text in two pieces is logging it at once if and only if no tag lies across the cut |
| `LogText.CutTag` | hfc-boot/common/cmd_log.c:282-291 | a tag that is cut is not seen and the line gets another one |
| `LogText.TagInTwoPieces` | hfc-boot/common/cmd_log.c:282-291 | the smallest such message |
| `LogText.AppendIsOneMessage` | hfc-boot/common/cmd_log.c:203-210 | the words of "log append" are logged like one message with spaces between them |
| `LogText.LevelOpen` | hfc-boot/common/cmd_log.c:295-323 | the level kept between calls says whether a line has been started |
| `LogText.TagIs` | hfc-boot/common/cmd_log.c:282-287 | a tag is one of <0> to <7> |
| `LogText.DefaultIsFour` | hfc-boot/common/cmd_log.c:288-291 | a line without one gets <4> |
| `LogText.PriorityIsTag` | hfc-boot/common/cmd_log.c:295 | the priority of a line is the digit of the tag that is logged for it |
| `LogText.PriorityKept` | hfc-boot/common/cmd_log.c:279-324 | a line that is not ended keeps that priority for later messages |
| `LogText.FirstLine` | hfc-boot/common/cmd_log.c:279-324 | a reader of the log finds the lines of a message with their priorities and their text |
| `LogText.ConsoleIff` | hfc-boot/common/cmd_log.c:319-321 | the console shows each line whose logged tag is below the limit once if and only if no such line is followed by more text |
| `LogText.SecondLineTwice` | hfc-boot/common/cmd_log.c:319-321 | a message of two such lines shows the second one twice |
| `LogBuffer.PutStep` | hfc-boot/common/cmd_log.c:299-313 | the masked write adds a character, or replaces the oldest of a full ring, across counter wrap |
| `LogBuffer.RunKeepsLast` | hfc-boot/common/cmd_log.c:269-326 | after any run of messages the log holds the last 16384 characters of all that was logged |
| `LogBuffer.AppendLogs` | hfc-boot/common/cmd_log.c:203-210 | the run of "log append" logs its words as one message |
| `LogBuffer.Log.Reset` | hfc-boot/common/cmd_log.c:119-141 | the log is empty; a started line stays started |
| `LogBuffer.Log.Put` | hfc-boot/common/cmd_log.c:299-313 | in both layouts the characters held are the old ones and the new one, at most 16384 |
| `LogBuffer.Log.Show` | hfc-boot/common/cmd_log.c:216-229 | in both layouts exactly the characters held, oldest first |
| `LogBuffer.Log.Mark` | hfc-boot/common/cmd_log.c:280-296 | the tag written over characters that have been logged does not touch the rest of the message |
| `LogBuffer.Log.EmitRest` | hfc-boot/common/cmd_log.c:297-318 | the inner loop logs up to the newline or the end |
| `LogBuffer.Log.Turn` | hfc-boot/common/cmd_log.c:279-324 | a turn of the outer loop logs one line with the tag it needs and prints what its level asks for |
| `LogBuffer.Log.Printk` | hfc-boot/common/cmd_log.c:269-326 | a message does to ring, level and console what the text functions say |
| `LogBuffer.Log.Append` | hfc-boot/common/cmd_log.c:203-210 | the command is the run of its words |
| `Eeprom.InsideWrite` | hfc-boot/common/cmd_eeprom.c:227-247 | a transfer that stays inside a page writes the cells at its flat offsets |
| `Eeprom.InsideRead` | hfc-boot/common/cmd_eeprom.c:141-161 | a read inside a block of 256 reads them |
| `Eeprom.LocatedByBytes` | hfc-boot/common/cmd_eeprom.c:229-247 | a flat offset is the cell that the two or three address bytes name |
| `Eeprom.FirstChip` | hfc-boot/common/cmd_eeprom.c:229-247 | the first offsets are the cells of the chip at the device address |
| `Eeprom.WriteLenFits` | hfc-boot/common/cmd_eeprom.c:249-272 | with pages of at most 256 bytes every transfer length is at least 1 and stays inside page and block |
| `Eeprom.KeepsPagesIff` | hfc-boot/common/cmd_eeprom.c:260-272 | no transfer of any write leaves its page if and only if pages are no longer than 256 bytes |
| `Eeprom.LeavesPage` | hfc-boot/common/cmd_eeprom.c:260-272 | for every longer page size, a transfer that comes round to the start of its page |
| `Eeprom.Bus.Write` | hfc-boot/common/cmd_eeprom.c:200-374 | 0 exactly if all transfers were acknowledged; then, with pages of at most 256 bytes, the chunked writes are one flat write, and no other cell ever changes; an end past 32 bits moves nothing |
| `Eeprom.Bus.Read` | hfc-boot/common/cmd_eeprom.c:126-189 | the same for reading into the buffer |
| `Eeprom.Bus.WriteChunk` | hfc-boot/common/cmd_eeprom.c:222-364 | one turn of the loop |
| `Eeprom.ReadBackIff` | hfc-boot/common/cmd_eeprom.c:126-374 | reading back returns whatever was written if and only if each byte of the range has its own cell |
| `Eeprom.DisjointBits` | hfc-boot/common/cmd_eeprom.c:229-247 | that is so if the device address shares no bit with the block numbers and these fit a byte |
| `Eeprom.SharedBit` | hfc-boot/common/cmd_eeprom.c:229-247 | a device address for which it is not |
| `Numerals.ScanHex` | hfc-boot/lib/vsprintf.c:62-66 | reading hexadecimal digits inverts printing them |
| `Numerals.DigitsRead` | hfc-boot/lib/vsprintf.c:42-72 | a number printed without leading zeros, decimal or hexadecimal, is read back in front of any other text |
| `Numerals.DigitIs` | hfc-boot/lib/vsprintf.c:62-63 | the digits are 0 to 9 and a to f, small or capital |
| `Numerals.NumeralReads` | hfc-boot/lib/vsprintf.c:42-72 | with base 0 a decimal number, an octal one after 0 and a hexadecimal one after 0x are read as their value modulo 2^32 |
| `Numerals.EveryNumberReads` | hfc-boot/lib/vsprintf.c:42-72 | so every 32-bit number is read back from all of these spellings |
| `Numerals.PlainHexReads` | hfc-boot/lib/vsprintf.c:42-72 | with base 16 the prefix may be missing |
| `FdtText.TokenReads` | hfc-boot/lib/vsprintf.c:42-72 | a printed cell or byte is read back, whatever follows it |
| `FdtText.ValuesStored` | hfc-boot/common/cmd_fdt.c:823-838 | the printed values, stored again, are the property |
| `FdtText.ListReads` | hfc-boot/common/cmd_fdt.c:671-724 | a list of values is read as the values, however it is cut at its spaces |
| `FdtText.CellsRead` | hfc-boot/common/cmd_fdt.c:671-703 | decimal, octal and hexadecimal numbers in angle brackets, cut into words anywhere at their spaces, give their big-endian cells |
| `FdtText.BytesRead` | hfc-boot/common/cmd_fdt.c:704-724 | hexadecimal numbers in square brackets give their low bytes |
| `FdtText.UnclosedRefused` | hfc-boot/common/cmd_fdt.c:671-724 | a value whose bracket is never closed is refused, unless the character behind the last word happens to close it |
| `FdtText.RoundTrip` | hfc-boot/common/cmd_fdt.c:660-741 | parsing the printed text of any property, cut into words in any way, gives the property |
| `FdtText.StringsRead` | hfc-boot/common/cmd_fdt.c:725-738 | a value of strings, taken apart at its NULs, gives the words |
| `FdtCommands.SimpleStrtoul` | hfc-boot/lib/vsprintf.c:42-72 | value and end of a number, with prefix, base and 32-bit wrap-around |
| `FdtCommands.ParseCells` | hfc-boot/common/cmd_fdt.c:671-703 | the cell loop over several words stores what the specification reads, and fails when it does, also if no bracket closes the value |
| `FdtCommands.ParseBytes` | hfc-boot/common/cmd_fdt.c:704-724 | the same for the byte loop |
| `FdtCommands.ParseStrings` | hfc-boot/common/cmd_fdt.c:725-738 | the words with their NULs |
| `FdtCommands.ParseProp` | hfc-boot/common/cmd_fdt.c:660-741 | the three formats |
| `FdtCommands.IsPrintableString` | hfc-boot/common/cmd_fdt.c:749-784 | exactly the values of textual characters without two NULs in a row that end with a NUL, or with a newline before a zero byte |
| `FdtCommands.TextualIs` | hfc-boot/lib/ctype.c:32-56 | the characters that count as text, by their codes |
| `FdtCommands.PrintData` | hfc-boot/common/cmd_fdt.c:792-841 | which values are shown as nothing, strings, a summary, or as the text that can be read back |
| `FdtCommands.Print` | hfc-boot/common/cmd_fdt.c:816-840 | the printing loops make that text |
| `Ppc.FieldFilled` | hfc-boot/common/bedbug.c:826 | a clear field holds what is or-ed into it |
| `Ppc.FieldKept` | hfc-boot/common/bedbug.c:826 | no other field is changed |
| `Ppc.OperandsRecovered` | hfc-boot/common/bedbug.c:795-827 | for an opcode whose fields lie apart from each other and from its bits, the assembled word yields every operand's coded value |
| `Ppc.OpcodeKept` | hfc-boot/common/bedbug.c:795-827 | all other bits are those of the opcode |
| `Ppc.RegisterMeans` | hfc-boot/common/bedbug.c:881-895 | a register number below 32 is its own field; a larger one is refused, but not if it is negative as a signed number |
| `Ppc.SpecialMeans` | hfc-boot/common/bedbug.c:897-903 | the swap of the printer finds the number of a special register, cut to ten bits, again; number 0 is refused |
| `Ppc.PlainMeans` | hfc-boot/common/bedbug.c:913-917 | of any other number the low bits are kept |
| `Ppc.SwappedTwice` | hfc-boot/common/bedbug.c:490-556 | swapping the halves of a register number twice gives it back, cut to ten bits |
| `Ppc.TargetIff` | hfc-boot/common/bedbug.c:863-879 | a target is recovered from its field if and only if it is word-aligned with the base and in reach |
| `Ppc.TargetsCut` | hfc-boot/common/bedbug.c:863-879 | an unaligned target and one out of reach, and the targets that are assembled instead |
| `Ppc.BranchPrinted` | hfc-boot/common/bedbug.c:261-271 | the printer shows the target that a relative branch was assembled for exactly in that case |
| `PpcStep.SteppedToTarget` | hfc-boot/common/bedbug.c:1094-1130 | and the step logic goes there |
| `PpcStep.SwitchIff` | hfc-boot/common/bedbug.c:1160-1214 | the switch over BO decides as the architecture does, for all registers, if and only if neither the hint bit `a` nor one of the first two ignored bits is set; otherwise it never branches |
| `PpcStep.LikelyBranchOverlooked` | hfc-boot/common/bedbug.c:1160-1214 | a branch with the hint that it is likely: it is taken, but not by the switch |
| `PpcStep.TakenIsIsa` | hfc-boot/common/bedbug.c:1154-1214 | the branch conditions are those of the Power ISA, read from the numbers of instruction and condition register with bit 0 the most significant |
| `PpcStep.StepIsNia` | hfc-boot/common/bedbug.c:1053-1236 | for every instruction and state a step goes to the next instruction address of the Power ISA, in its own numbering, if and only if it neither overlooks such a branch nor goes to an unaligned register |
| `PpcStep.SteppedOver` | hfc-boot/common/bedbug.c:1216-1234 | stepping over goes to the next word for an instruction that sets the link register, and otherwise where a step goes |
| `PpcStep.SprInWord` | hfc-boot/common/bedbug.c:526-559 | the halves of a special register number are in the bits where the architecture has them |
| `PpcStep.LinkNotCut` | hfc-boot/common/bedbug.c:1141-1151 | a branch to an unaligned link register |
| `PpcStep.FindNextAddress` | hfc-boot/common/bedbug.c:1053-1236 | where execution goes on, for stepping into and over a branch |
| `PpcText.GetWord` | hfc-boot/common/bedbug.c:953-977 | the next word, without blanks in front of it and with one comma behind it |
| `PpcText.NegativeReads` | hfc-boot/common/bedbug.c:990-1014 | a minus sign makes the negative in 32 bits |
| `PpcText.RegisterForms` | hfc-boot/common/bedbug.c:881-888 | r5, R5, %r5, %R5 and 5 are the same register |
| `PpcText.TimeBaseNames` | hfc-boot/common/bedbug.c:611-641 | TBL is 268 and TBU is 269 |
| `PpcText.SprValue` | hfc-boot/common/bedbug.c:526-559 | the number that a word gives, or that of the first register with its name in small letters, or 0 |
| `PpcText.Assemble` | hfc-boot/common/bedbug.c:789-841 | the loop over words and operands assembles what the words mean, with its errors |
| `PpcText.FindOpcodeByName` | hfc-boot/common/bedbug.c:458-472 | the first opcode with the name in small letters |
| `PpcText.Asmppc` | hfc-boot/common/bedbug.c:753-841 | a line assembles to its opcode and operands; an empty line is no error |
| `PpcListing.PrintOperands` | hfc-boot/common/bedbug.c:231-346 | the listing of the operands, with commas, and parentheses around the register of an offset |
| `PpcListing.NamesNotFound` | hfc-boot/common/bedbug.c:543-558 | no special register is found by a name, if every name of the table has a capital letter |
| `PpcListing.NamesRefused` | hfc-boot/common/bedbug.c:897-903 | so a special register is accepted by number only |
| `PpcListing.AddressBack` | hfc-boot/common/bedbug.c:863-879 | from the printed address of a branch its field is found again |
| `PpcListing.OperandReads` | hfc-boot/common/bedbug.c:854-918 | the printed form of every operand is one word; it codes the same field exactly if it is readable, and is refused otherwise |
| `PpcRoundTrip.ArgsAre` | hfc-boot/common/bedbug.c:795-827 | without an offset, the words that are read are the printed operands |
| `PpcRoundTrip.TooFewWords` | hfc-boot/common/bedbug.c:325-338 | with an offset, there are fewer words than operands |
| `PpcRoundTrip.AssembledWord` | hfc-boot/common/bedbug.c:789-840 | operands that code the fields of a word assemble to that word |
| `PpcRoundTrip.Reassembled` | hfc-boot/common/bedbug.c:231-841 | for every opcode and word: the printed operands assemble to the word again if and only if none is an offset, a special register with a name or number 0, or an unknown time base register |
| `PpcRoundTrip.LineReassembled` | hfc-boot/common/bedbug.c:79-841 | the same for whole lines and a table of opcodes |
| `PpcRoundTrip.LoadNotReassembled` | hfc-boot/common/bedbug.c:325-338 | a load with an offset is refused as it is printed |
| `PpcRoundTrip.LinkRegisterNotFound` | hfc-boot/include/bedbug/tables.h:483-486 | so is the link register under its name |

## Left out

- Console, serial, I2C, SPI and floppy registers, delays, watchdog, caches and interrupt flags: parameters or dropped.
- Kermit: `k_state_saved` and the state switch of `bin_data_char`, which have no effect; the cursor running past the top of the address space.
- The RAM test's data-line part, its ctrl-C exits, and the quick test: the first depends on the bus.
- Flash erase and hardware protection drivers, bank names, and parsing the address arguments.
- Floppy: time-outs that never end, and restoring the interrupt flag on the last error path.
- Bootstage.Bootstage.Unstash: assumes, as the source says it does, that the strings of an accepted area end inside memory; pointer arithmetic at the top of the address space is not modelled.
- LogBuffer.Log.Printk: asks for messages that fit the 1024-byte work buffer, as the source does without checking.
- LogBuffer.Log.Append: asks the same of its words.
- Log: the tag word and the first initialisation of the header.
- Eeprom.Bus.Write: a transfer that is not acknowledged is taken to have no effect.
- EEPROM: the X40430 control register, and the FRAM and SPI variants.
- FdtCommands.ParseProp: for a value whose bracket is never closed the source follows the null pointer behind the last word; what it finds there is a parameter.
- FDT: how the shell takes printed strings apart again into words, and libfdt itself.
- PowerPC: the simplified mnemonics, symbols and other radixes of the disassembler, which the command does not ask for; the search for an opcode by its bits; the 20 characters that a word may have. The host is big-endian, so that `htonl` changes nothing.
- The other commands (`bootm`, INI and GPT parsers, ymodem, menus, board information): they would add only easy members.
