# Verification of the device drivers and byte-level codecs

A Dafny model of the parts of the firmware that carry protocol state or lay out bytes: the CDC-EEM network link over
USB, the USB endpoint engine with its control transfers, the bit-banged I2C master with the EEPROM driver above it,
the DHCP option codec, the internal flash, the USART receiver and the flash file system.

`dafny verify dfyconfig.toml` checks everything. There are no axioms and no trusted declarations.

## How it is organised

Each component is there twice. A class has the fields of the C code and methods with its loops, its in-place buffers
and its 32-bit arithmetic. A state machine on values says what those methods do; the contract of each method ties the
fields before and after to one step of it. The lemmas then speak about every run of the state machine.

| file | component |
|---|---|
| `bytes.dfy` | bytes, words, memory copies |
| `eem_codec.dfy`, `eem_spec.dfy`, `eem_host.dfy`, `eem.dfy` | EEM packets; the link as queues under any interleaving at Yield; hosts and the byte order; the driver with its slot rings |
| `usb_fifo.dfy` | words in and out of the packet FIFOs |
| `usb_layout.dfy` | partition of the FIFO memory; packet counts and closing empty packets |
| `usb_device.dfy` | the chapter 9 device state and the history of requests |
| `usb_engine.dfy`, `usb_core.dfy` | transfers, callbacks that start transfers, control stages; the program over its records |
| `swi2c.dfy` | SDA/SCL traces, their decoder, the master |
| `eeprom.dfy` | a chip that wraps inside a page, the address cache, the page-split write |
| `dhcp.dfy` | option writers, walker, readers; rendering and parsing of whole option sets |
| `flash.dfy` | sector table, range erase, cells that only lose bits, comparison |
| `usart.dfy` | the ring between the DMA and the receiving task |
| `ffs.dfy` | handle pool and cursors |

## The environment

Hardware and time are parameters. A FIFO-empty interrupt is given the space it reads; an I2C slave is a function from
clock pulses to levels and stretching; the EEPROM and flash answers, the arrivals before each look at the DMA counter
and the outcomes of the waiting loops (timed out, cancelled, configured) are arguments. Tasks interleave only at
Yield, so a method is what a task does between two Yields, and a run is any sequence of such steps. The
subscribers of the USB request event are one function of what they are shown. In the USART model the DMA also writes
before each of the two copies of one call, where no Yield stands.

## Main results

- **EEM.** What the transmit task packs is split back into the same frames (`EemCodec.PackThenSplit`); under every
  interleaving and any failures the host sees the accepted frames in order, each once (`EemSpec.HostSeesAcceptedPrefix`);
  the receive side conserves frames (`EemSpec.RxConserves`) and delivers those the host meant
  (`EemHost.HostFramesArrive`); byte-order detection is characterised exactly, for one packet
  (`EemCodec.DetectionExact`) and for every batch (`EemHost.ReadRightExact`).
- **USB.** Callbacks run exactly once although they start transfers themselves (`UsbEngine.CallbacksRunOnce`);
  enumeration always recovers (`UsbEngine.EnumerationListens`); a control read of any size, among events of all other
  endpoints, sends exactly its data with one short packet at the end (`UsbEngine.ControlRead`), provided the host reads
  to that packet and the last IN completion is handled before the status packet; the order matters exactly as
  `UsbEngine.EarlyStatusExact` says. A control write takes full packets until the first that is not full and then sends
  the status packet (`UsbEngine.ControlWrite`, `UsbEngine.DataOutStage`). A request without data is acknowledged exactly
  when accepted (`UsbEngine.NoDataRequest`), descriptors arrive as the tables have them (`UsbEngine.DescriptorRead`), and
  the device is what its history of requests makes of it (`UsbEngine.DeviceFollowsRequests`). FIFO words are exact for all space readings (`UsbFifo.FeedIsExact`,
  `UsbFifo.DrainIsExact`). The device state agrees with the history of requests (`UsbDevice.StateAgrees`,
  `UsbDevice.GetStatusReportsHistory`). The FIFO memory is partitioned (`UsbLayout.PlanPartitions`).
- **I2C and EEPROM.** The trace of every successful transfer that finds SDA released at its START decodes to the intended
  message, and to nothing else (`SwI2c.Master.Transfer`); page-split writes refine one flat write
  (`Eeprom.Device.Write`); the address cache agrees with the chip (`Eeprom.RunStaysCoherent`); polls, page writes and
  reads are those messages on the bus, after any call that failed before (`Eeprom.PollOnBus`, `Eeprom.PageWriteOnBus`,
  `Eeprom.ReadOnBus`).
- **DHCP.** Every written list is walked and read back (`Dhcp.WalkVisitsAll`, `Dhcp.GetReturnsWritten`), and whole option
  sets, among records of any other code (`Dhcp.UnknownIsSkipped`), survive rendering and parsing up to a normal form (`Dhcp.RenderThenParse`), to the letter exactly when
  `Dhcp.RoundTripExact` says.
- **Flash, USART, files.** Erase, write and verify succeed and touch nothing else (`Flash.Device.Update`,
  `Flash.UpdateTouches`); the ring delivers the stream (`Usart.ReadsAreTheStream`, `Usart.Port.Recv`); cursors stay in
  their files and handles never alias (`Ffs.NextKeeps`, `Ffs.HeldIsExclusive`), and a file just opened is read from its
  beginning (`Ffs.OpenedReadsFile`).

## Where the code falls short

Each of these is proved: as a concrete input where the code fails, as the exact condition under which it does not, or
as both.

- A little-endian host is missed when the two bytes of its first header are equal (`EemCodec.DetectionExact`,
  `EemCodec.DetectionMissesAnEqualByteHeader`). A batch met before the byte order is known is read right if and only if
  all its packets are safe; one of a big-endian host practically never is (`EemHost.ReadRightExact`,
  `EemHost.BigEndianPair`, `EemHost.BatchMisread`). Reading right is stated of where the packets are cut, because a
  batch cut wrong can yield its own frames by luck (`EemHost.LuckyPair`).
- A zero-length packet inside a transfer loses the frames after it (`EemCodec.ZeroLengthExact`).
- A truncated OUT packet can cost the receive FIFO one word of the next packet (`UsbFifo.DrainIsExact`,
  `UsbFifo.InStepExactly`, `UsbFifo.OutOfStep`).
- A status packet handled before the last IN completion makes the device send stray memory, because starting the SETUP
  stage clears the size but not the offset (`UsbEngine.EarlyStatusExact`).
- The subscribers of a request that brings data are shown the same refusal before the data and after them
  (`UsbEngine.OutAnswer`), and data of a whole number of packets are not passed on before an empty packet follows
  (`UsbEngine.DataOutStage`).
- A device address above 127 is accepted and splits state and register (`UsbDevice.AddressRegisterExact`,
  `UsbDevice.WideAddressSplits`); USB 2.0, section 9.4.6 leaves the behaviour unspecified. A configuration value with a
  zero low byte is accepted and then reported as not configured (`UsbDevice.GetConfigurationReportsHistory`,
  `UsbDevice.WideConfigurationHides`).
- FIFO sizes must be set in ascending order, and only so (`UsbLayout.OrderExact`, `UsbLayout.DescendingOverlaps`).
- After a write that ends on a page boundary, or an empty one away from the cached address, the EEPROM address cache is
  wrong (`Eeprom.CoherenceExact`, `Eeprom.StaleAfterPageEnd`). The last byte of the EEPROM cannot be reached, and a range
  whose 32-bit sum wraps passes the check and is written round the memory (`Eeprom.CheckExact`,
  `Eeprom.WrappedRangeWritesElsewhere`). A failing read releases a semaphore it did not take (`Eeprom.Device.Read`).
- The DNS writer checks only the room for the header, and its pointer is right up to 63 addresses
  (`Dhcp.DnsReturnExact`); a renderer told a size between the two writes past it and reports success
  (`Dhcp.RenderOptions`).
- An address or parameter list of a wrong length empties the list noted before (`Dhcp.ApplyExact`).
- The DHCP option parser reads the byte behind its buffer when the records fill it: an 0xff there passes for the end
  marker, and the server takes the frame as complete (`Dhcp.ParseAtExact`, `Dhcp.UnendedExact`,
  `Dhcp.EndReadBehindTheBuffer`; the caller is `net/dhcp/src/server.c:355`).
- An empty flash range erases a sector, and an unaligned one may erase too few (`Flash.LastErasedExact`,
  `Flash.UnalignedExact`).
- A ring a whole number of times around looks empty (`Usart.WaitingExact`, `Usart.LooksEmptyExact`).
- A seek is signed only within 2^31 bytes of its base (`Ffs.SeekExact`).
- A START on a bus whose SDA is held low is not noticed; the trace then shows no START (`SwI2c.Master.Start`).

Where comments and code disagree the model follows the code: the comment at `dev/src/usb_eem.c:147` says little endian
where the code settles on big endian, the one at `dev/src/usb_core.c:519` says the address is applied after the status
stage where the code applies it at once, and the one at `dev/src/eeprom.c:111` announces a write where the code reads.

## Model

| member | source | states |
|---|---|---|
| EemCodec.HeaderRoundTrip | dev/src/usb_eem.c:75-97 | a header of any data, echo or hint packet, written and read in the same byte order, gives back the type and the length of what follows it |
| EemCodec.HeaderFields | dev/src/usb_eem.c:75-97 | every header: fourteen bits of length for data, whatever the checksum bit; three bits of command and eleven of parameter otherwise, of which only an echo announces a payload |
| EemCodec.SplitInvertsEncode | dev/src/usb_eem.c:125-197 | splitting a transfer of any valid packets (commands in between, any checksum) in the byte order it was written in yields exactly its frames in order and never leaves the transfer |
| EemCodec.PackThenSplit | dev/src/usb_eem.c:220-248 | for every list of frames up to 1518 bytes and either byte order, what the packing loop lays out is split into exactly those frames, consuming the whole transfer |
| EemCodec.PackLength | dev/src/usb_eem.c:225-247 | the packing takes six bytes more per frame than its contents |
| EemCodec.FitIsMaximal | dev/src/usb_eem.c:220-228 | a prefix of the queue fits into a transfer if and only if the packing loop takes all of it |
| EemCodec.DetectionExact | dev/src/usb_eem.c:131-166 | a transfer with one data packet always settles the byte order; a big-endian host is always recognised, a little-endian one if and only if the two header bytes differ, with or without the CRC bit |
| EemCodec.LittleReadAsBig | dev/src/usb_eem.c:75-97 | a little-endian data header read in the wrong order shows its own length only when its two bytes are equal |
| EemCodec.DetectionMissesAnEqualByteHeader | dev/src/usb_eem.c:147-150 | the concrete failure: a 253-byte frame of a little-endian host is taken for big-endian |
| EemCodec.ZeroLengthKeepsUnknown | dev/src/usb_eem.c:140-146 | a zero-length packet alone leaves the byte order unknown and delivers nothing |
| EemCodec.ZeroLengthEndsTransfer | dev/src/usb_eem.c:170-175 | a zero-length packet ends the splitting: the frames before it are delivered and everything after it in the transfer is lost |
| EemCodec.ZeroLengthExact | dev/src/usb_eem.c:170-175 | among other packets it is harmless if and only if no frame follows it |
| EemCodec.WireExamples | dev/src/usb_eem.c:75-97 | the bytes of a data, echo and hint packet: bit 15 of the header for commands, bit 14 for a checksum that counts, bits 13 to 11 for the command, in either byte order |
| EemSpec.TxStepKeepsInv | dev/src/usb_eem.c:202-265 | every step of a sender, the transmit task or the endpoint keeps: at most two pending frames, and the transfer in flight is the packing of a non-empty prefix of them that fits the buffer |
| EemSpec.SendAppends | dev/src/usb_eem.c:313-341 | a send of a frame of at most 1518 bytes while fewer than two wait appends it to the queue and touches nothing else; any other changes nothing |
| EemSpec.OneFrameTravels | dev/src/usb_eem.c:202-341 | one frame: queued, handed to the endpoint, with the host after a success, still queued after a failure |
| EemSpec.TxProgress | dev/src/usb_eem.c:220-255 | an idle transmit task that knows the byte order, has pending frames and finds the endpoint free takes the longest run of frames that fits, packed in that order, and at least one |
| EemSpec.TxIdlePoll | dev/src/usb_eem.c:211-255 | in every other case a poll changes nothing |
| EemSpec.CompletionConsumes | dev/src/usb_eem.c:257-261 | a successful completion takes exactly the frames in flight off the queue, a failed one none; either way the endpoint is free again |
| EemSpec.TxInOrder | dev/src/usb_eem.c:202-265 | over every interleaving, with any mix of failed and successful transfers, the frames of the transfers that reached the host followed by the pending ones are exactly the accepted sends in order; both logs are written from the events |
| EemSpec.HostSeesAcceptedPrefix | dev/src/usb_eem.c:202-265 | end to end: what a host gets by splitting, in its own byte order, the transfers that reached it, plus the pending frames, is exactly what Send accepted |
| EemSpec.HostViewIsDoneFrames | dev/src/usb_eem.c:220-261 | splitting each completed transfer yields each confirmed frame once |
| EemSpec.RxStepKeepsFrames | dev/src/usb_eem.c:125-197 | one step of the splitting loop moves frames from transfer to ring without loss, and advances by at least two bytes unless it waits for room |
| EemSpec.RxRunMore | dev/src/usb_eem.c:100-199 | a run of the receive side goes on with every event that is allowed where it stands, and with no other |
| EemSpec.RxConserves | dev/src/usb_eem.c:100-199 | over every run the frames of the arrived transfers are, in order, those handed to callers, then those in the ring, then those still to be split |
| EemHost.OneDataPacketSafe | dev/src/usb_eem.c:131-166 | a first transfer of one data packet is safe, hence delivered intact, unless the host is little-endian and its header bytes are equal |
| EemHost.ReadRightExact | dev/src/usb_eem.c:125-197 | while the byte order is not known, a transfer of any packets of a host of either byte order is cut where the host meant it, and the byte order not settled wrong, if and only if each packet is safe: little-endian, its header read big-endian does not announce the size of the transfer; big-endian, it fills the transfer or reads the same both ways |
| EemHost.SplitFollowsCuts | dev/src/usb_eem.c:125-197 | the frames delivered are those that lie where the headers cut the transfer |
| EemHost.ModeAfterSteps | dev/src/usb_eem.c:125-197 | every step of the receive task keeps the byte order that the transfer will end with, and at its end has it |
| EemHost.SymmetricData | dev/src/usb_eem.c:75-97 | a data header reads the same both ways if and only if its two bytes are equal |
| EemHost.BigEndianPair | dev/src/usb_eem.c:131-166 | two data packets of a big-endian host are read right if and only if the header bytes of both are equal |
| EemHost.SafeIsDelivered | dev/src/usb_eem.c:125-197 | a safe transfer, or any transfer in the known byte order, with a closing zero-length packet or without, is split into exactly its frames |
| EemHost.HostFramesArrive | dev/src/usb_eem.c:100-199 | end to end: over every run with a host of either byte order, bus resets and closing zero-length packets included, that sends only safe transfers while the byte order is not known and anything valid afterwards, its frames are, in order, those handed to callers, those in the ring and those still to be split |
| EemHost.HostRunIsRxRun | dev/src/usb_eem.c:100-199 | a run with a host that sends to a waiting task is a run of the receive side on the bytes of its packets |
| EemHost.HostRunMore | dev/src/usb_eem.c:100-199 | such a run goes on with every event that is allowed where it stands, and with no other |
| EemHost.BatchMisread | dev/src/usb_eem.c:134-166 | the concrete failure: two empty frames of a big-endian host met in the unknown mode are cut wrong, and other frames delivered |
| EemHost.LuckyPair | dev/src/usb_eem.c:134-166 | a pair of a big-endian host that is cut wrong and whose frames are delivered all the same: the frames alone do not tell |
| Eem.PushSlot | dev/src/usb_eem.c:332-337 | filling the slot under the head counter appends one frame to the ring contents and spoils no other, across the 32-bit wrap |
| Eem.PopSlots | dev/src/usb_eem.c:299-306 | moving the tail counter drops exactly that many frames from the front, across the 32-bit wrap |
| Eem.PackOne | dev/src/usb_eem.c:222-247 | one round of the packing loop turns the packing of n frames into the packing of n + 1 |
| Eem.WaitResult | dev/src/usb_eem.c:286-296 | a waiting loop goes on exactly while time is left, nobody cancels and the interface is up; the first that fails, in that order, gives the code |
| Eem.Driver.Send | dev/src/usb_eem.c:313-341 | refines the send step of the link; too long, full, timed-out, cancelled and unconfigured cases return their codes |
| Eem.Driver.TxPoll | dev/src/usb_eem.c:211-255 | refines the poll step: nothing while the byte order is unknown or the endpoint refuses, otherwise the maximal prefix is in flight |
| Eem.Driver.PackFrames | dev/src/usb_eem.c:220-248 | the in-place packing loop stops after exactly the frames that fit and leaves their encoding in the buffer |
| Eem.Driver.PackNext | dev/src/usb_eem.c:220-248 | one round lays out the next frame or stops because it does not fit |
| Eem.Driver.LayFrame | dev/src/usb_eem.c:230-245 | header, payload and bogus checksum stored at the offset are the encoded packet, and no other byte changes |
| Eem.Driver.TxComplete | dev/src/usb_eem.c:257-261 | refines the completion step: the tail counter moves past the frames in flight on success and stays on failure |
| Eem.Driver.ResetEndian | dev/src/usb_eem.c:48-51 | bus reset forgets the byte order and nothing else, also in the middle of a transfer whose remaining packets lie inside it in the unknown mode |
| Eem.Driver.RxArrive | dev/src/usb_eem.c:112-125 | a completed transfer becomes the unread input of the splitting loop |
| Eem.Driver.RxStep | dev/src/usb_eem.c:125-197 | refines one step of the receive task |
| Eem.Driver.RxParse | dev/src/usb_eem.c:127-175 | parses a header, skips commands, drops the rest after a data packet shorter than its checksum |
| Eem.Driver.RxDeliver | dev/src/usb_eem.c:177-196 | waits while two frames are stored, otherwise appends the payload without its checksum |
| Eem.Driver.DetectOrder | dev/src/usb_eem.c:131-166 | fields and byte order chosen by the in-place detection |
| Eem.Driver.Recv | dev/src/usb_eem.c:283-310 | hands over the oldest frame, cut to the size asked for, and frees its slot; waits, times out or gives up otherwise |
| UsbFifo.Words | dev/src/usb.c:123-144 | packing of n bytes takes ceil(n / 4) words |
| UsbFifo.WordsLane | dev/src/usb.c:130-140 | byte i of the data sits in lane i mod 4 of word i / 4, least significant first |
| UsbFifo.WordsExample | dev/src/usb.c:130-140 | five bytes as two words, the first byte least significant |
| UsbFifo.ReadInvertsWrite | dev/src/usb.c:94-144 | reading the words of a packet gives back the packet, whatever follows it in the FIFO |
| UsbFifo.WordsAppend | dev/src/usb.c:347-356 | chunks cut at word boundaries pack to the packing of the whole |
| UsbFifo.WritePacket | dev/src/usb.c:123-144 | pushes as much as the reported space allows, never more words than that, as the packing of a prefix of the data |
| UsbFifo.ReadPacket | dev/src/usb.c:94-120 | takes ceil(n / 4) words from the FIFO and stores their first n bytes, nothing else |
| UsbFifo.ReadTail | dev/src/usb.c:106-118 | the fall-through switch stores the one to three low lanes of the last word |
| UsbFifo.DumpPacket | dev/src/usb.c:80-91 | removes ceil(n / 4) words |
| UsbFifo.FeedKeeps | dev/src/usb.c:347-356 | one FIFO-empty interrupt keeps the words pushed equal to the packing of the bytes handed over, within the reported space |
| UsbFifo.FeedIsExact | dev/src/usb.c:347-356 | for every sequence of space readings the words pushed are the packing of exactly the bytes the readings allow; once all are allowed the reader gets the whole buffer back |
| UsbFifo.InFeed.OnFifoEmpty | dev/src/usb.c:347-356 | the interrupt branch refines that step and masks itself exactly when all bytes are handed over |
| UsbFifo.InStepExactly | dev/src/usb.c:218-256 | store-then-dump removes ceil(len / 4) words if the cut or the rest is word-aligned or the two remainders together exceed four, and one word more in every other case |
| UsbFifo.OutOfStep | dev/src/usb.c:218-256 | the concrete failure: two bytes into a one-byte buffer cost two words |
| UsbFifo.DrainOne | dev/src/usb.c:218-256 | any packet into any buffer: the buffer becomes a clipped prefix, and the FIFO ends at the next packet or one word past it |
| UsbFifo.DrainIsExact | dev/src/usb.c:218-256 | over any run of packets of any lengths and any buffer size the buffer holds the first min(total, size) bytes of their concatenation; the FIFO is left exactly at what follows if and only if the one truncated packet is cut kindly, and otherwise one word of what follows is lost, or the FIFO runs dry when nothing does |
| UsbFifo.DumpAll | dev/src/usb.c:80-91 | with the buffer full the rest of a run is dumped, and a word lost before stays lost |
| UsbFifo.FittingRunInStep | dev/src/usb.c:218-256 | packets that all fit never put the FIFO out of step |
| UsbFifo.AlignedRunInStep | dev/src/usb.c:218-256 | neither do packets of whole words, all but the last, into a buffer of whole words, truncated or not |
| UsbFifo.OutDrain.OnPacket | dev/src/usb.c:226-250 | the receive branch refines that step and touches no byte past the offset |
| UsbFifo.OutDrain.Consume | dev/src/usb.c:236-248 | stores the first part of a packet and dumps the rest |
| UsbLayout.FifoWords | dev/src/usb.c:588-594 | bytes rounded up to words, at least sixteen |
| UsbLayout.SetTxPlaces | dev/src/usb.c:586-610 | one call places its FIFO behind the lower ones and disturbs no lower one |
| UsbLayout.SetAllPlaces | dev/src/usb.c:586-610 | after configuring endpoints in ascending order every one has its depth and lies where the ones before it end |
| UsbLayout.SetAllKeeps | dev/src/usb.c:586-610 | endpoints that are not configured keep their registers, whatever the order |
| UsbLayout.PlacedAreDisjoint | dev/src/usb.c:586-610 | placed FIFOs never share a word, nor reach into the receive FIFO or past the total |
| UsbLayout.PlacedCover | dev/src/usb.c:586-610 | every word between the receive FIFO and the total has an owner |
| UsbLayout.PlanPartitions | dev/src/usb.c:574-610 | for any ascending plan a word of memory belongs to exactly one transmit FIFO if and only if it lies in [rx, total) |
| UsbLayout.SetAgain | dev/src/usb.c:586-610 | a call that finds its endpoint set changes nothing |
| UsbLayout.SetAllIdempotent | dev/src/usb.c:586-610 | repeating the pass, or any part of it, gives the same layout |
| UsbLayout.DescendingOverlaps | dev/src/usb.c:586-610 | the concrete failure of descending order: two FIFOs share a word |
| UsbLayout.ResizeExact | dev/src/usb.c:586-610 | a call leaves a higher FIFO in its place if and only if it does not change the depth of its own |
| UsbLayout.WrongOrderMisplaces | dev/src/usb.c:586-610 | of two calls in the wrong order the first one ends up out of place |
| UsbLayout.OrderExact | dev/src/usb.c:586-610 | a pass in any order over registers not set before leaves all its FIFOs in place if and only if the order is ascending |
| UsbLayout.Registers.SetRxFifoSize | dev/src/usb.c:574-583 | stores the depth of the receive FIFO |
| UsbLayout.Registers.SetTxFifoSize | dev/src/usb.c:586-610 | the loop over the packed registers computes the start address and stores start and depth |
| UsbLayout.ZlpExact | dev/src/usb.c:661-667 | an empty packet is owed exactly by transfers of a positive whole number of packets |
| UsbLayout.BulkEndsShort | dev/src/usb.c:661-667 | a bulk transfer of any size puts full packets and then exactly one short one on the bus, and carries all of the data |
| UsbLayout.LengthsShape | dev/src/usb.c:661-662 | the programmed packet count carries the whole size, all packets but the last full |
| UsbDevice.StateAgrees | dev/src/usb_core.c:500-563 | over every history of requests and resets: configured if and only if a configuration is set, default if and only if the address is zero, and the address register holds the low seven bits of the address |
| UsbDevice.AddressRegisterExact | dev/src/usb.c:899-903 | the register equals the address if and only if the address is at most 127 |
| UsbDevice.WideAddressSplits | dev/src/usb_core.c:500-534 | the concrete failure: address 200 is accepted and the register holds 72 |
| UsbDevice.HaltIsLastHalt | dev/src/usb_core.c:566-664 | the halt bit of every endpoint direction equals the last accepted SET_FEATURE or CLEAR_FEATURE for it since reset |
| UsbDevice.SetupFields | dev/src/usb_core.c:566-664 | direction, kind and recipient are the bits of the request type, direction and endpoint or interface those of the low byte of the index |
| UsbDevice.GetStatusReportsHistory | dev/src/usb_core.c:309-374 | GET_STATUS answers exactly the addressed device, the interfaces and endpoints of a configured one and endpoint 0 of an addressed one; two zero bytes, but one and zero for an endpoint whose last accepted SET_FEATURE or CLEAR_FEATURE since reset halted it |
| UsbDevice.AlternateIsLast | dev/src/usb_core.c:667-697 | the alternate setting equals the last accepted SET_INTERFACE since reset |
| UsbDevice.GetInterfaceReportsHistory | dev/src/usb_core.c:377-408 | GET_INTERFACE answers exactly the interfaces of a configured device, with that setting |
| UsbDevice.AddressIsLast | dev/src/usb_core.c:500-534 | the address equals the last accepted SET_ADDRESS since reset; it is accepted by every device that is not configured |
| UsbDevice.NoDataSucceedsExactly | dev/src/usb_core.c:700-758 | a request without data succeeds if and only if it is one of those that these histories count; a refused one changes nothing |
| UsbDevice.ConfigurationIsLast | dev/src/usb_core.c:537-563 | the configuration equals the last accepted SET_CONFIGURATION since reset |
| UsbDevice.GetConfigurationReportsHistory | dev/src/usb_core.c:280-306 | GET_CONFIGURATION succeeds exactly in an addressed device; the byte it reports is that value if and only if it is below 256, and tells configured from not configured if and only if the value is zero or its low byte is not |
| UsbDevice.RequestExamples | dev/src/usb_core.c:280-697 | request codes and fields as in section 9.4 of USB 2.0: address, configuration, halt of an IN endpoint and alternate setting of an interface, and what is then reported |
| UsbDevice.WideConfigurationHides | dev/src/usb_core.c:537-563 | the concrete failure: after SET_ADDRESS 7 and SET_CONFIGURATION 0x0100 the device is configured and reports zero |
| UsbDevice.Block.Reset | dev/src/usb_core.c:801-821 | returns the control block and the address register to their initial values |
| UsbDevice.Block.SetDeviceAddress | dev/src/usb.c:899-903 | a byte written to a seven-bit field |
| UsbDevice.Block.ProcessSetAddress | dev/src/usb_core.c:500-534 | refines the request on values, refusals included |
| UsbDevice.Block.ProcessSetConfiguration | dev/src/usb_core.c:537-563 | refines the request on values, refusals included |
| UsbDevice.Block.ProcessFeature | dev/src/usb_core.c:566-664 | refines both feature requests; only halts of endpoints above zero are accepted |
| UsbDevice.Block.ProcessSetInterface | dev/src/usb_core.c:667-697 | refines the request on values, refusals included |
| UsbDevice.Block.ProcessNoData | dev/src/usb_core.c:700-758 | dispatches the standard requests and refuses all others |
| UsbDevice.Block.ProcessGetStatus | dev/src/usb_core.c:309-374 | builds the status reply for device, interface and endpoint |
| UsbDevice.Block.ProcessGetInterface | dev/src/usb_core.c:377-408 | builds the alternate-setting reply |
| UsbEngine.FinishKeeps | dev/src/usb.c:59-77 | ending a transfer keeps the callback invariant although the callback may start transfers |
| UsbEngine.NextKeeps | dev/src/usb.c:147-358 | every event of the engine keeps it |
| UsbEngine.CallbacksRunOnce | dev/src/usb.c:59-77 | over every run a stored callback implies a busy endpoint, and every accepted start with a callback has it run exactly once or still stored and not run |
| UsbEngine.BusyRefuses | dev/src/usb.c:636-705 | a busy endpoint takes no new transfer: nothing changes and nothing is sent |
| UsbEngine.BulkCompletion | dev/src/usb.c:329-345 | whatever goes on elsewhere, a bulk IN endpoint stays busy with its transfer until it has completed twice when an empty packet is owed and once otherwise, and that completion ends it |
| UsbEngine.NextLeaves | dev/src/usb.c:147-358 | no event but its own completion, stop or enumeration touches a busy bulk endpoint, callbacks that start transfers on it included |
| UsbEngine.StopEnds | dev/src/usb.c:725-750 | stopping a transfer nobody waits for stores its code; an idle endpoint is left alone |
| UsbEngine.UserStarts | dev/src/usb.c:636-705 | a start by another user on a free endpoint is stored with its size and callback, and no other endpoint changes |
| UsbEngine.EnumerationListens | dev/src/usb.c:192-215 | whatever transfers and callbacks were pending, enumeration leaves endpoint 0 OUT busy with the SETUP callback and no control data |
| UsbEngine.ResetRestarts | dev/src/usb_core.c:77-155 | a reset takes a control transfer back to listening wherever it stood and sends nothing; a SETUP reception just ends |
| UsbEngine.ResetFinish | dev/src/usb_core.c:98-103 | ending a transfer with the reset code leaves no control stage but SETUP on endpoint 0 OUT |
| UsbEngine.ChunksShape | dev/src/usb_core.c:98-142 | full packets of 64 bytes and one shorter, possibly empty, packet at the end, together the data |
| UsbEngine.DataInFirst | dev/src/usb_core.c:126-142 | starting a data stage, of any size up to the buffer behind it, hands over the first packet and waits for the status packet |
| UsbEngine.DataInNext | dev/src/usb_core.c:98-123 | every completion but the last hands over the next packet |
| UsbEngine.DataInStage | dev/src/usb_core.c:98-142 | for every size up to the length of the buffer, and with anything going on at other endpoints, completions handled before the status packet: exactly the chunks of the first size bytes are sent and the device listens for SETUP again |
| UsbEngine.NextElsewhere | dev/src/usb.c:147-358 | events of other endpoints, with the callbacks they run, leave endpoint 0, the control data and what was sent alone |
| UsbEngine.NoDataRequest | dev/src/usb_core.c:700-758 | a request without data leaves the device that the request makes of it; accepted, exactly one empty packet goes out and its completion, among events elsewhere, leaves the device listening; refused, nothing goes out and the device listens at once |
| UsbEngine.DeviceFollowsRequests | dev/src/usb_core.c:411-798 | over every run of the engine the device is what the requests processed in it, and its resets, make of it, so the results on histories hold of it |
| UsbEngine.NextDev | dev/src/usb_core.c:411-798 | one event changes the device exactly by the reset or the request it stands for |
| UsbEngine.DescriptorAnswer | dev/src/usb_core.c:207-277 | GET_DESCRIPTOR of the device by kind and index: the table entry cut to the length asked for; nothing for a configuration or string the tables do not have; a refusal for other kinds |
| UsbEngine.RequestAnswer | dev/src/usb_core.c:411-455 | the other requests for data by request code: status, configuration and interface as the history has them; anything not standard, or that brings data, is refused |
| UsbEngine.DescriptorRead | dev/src/usb_core.c:207-277 | over the wire: a descriptor request that the subscribers leave alone gets exactly the table entry, cut to the length asked for, and the device listens again |
| UsbEngine.MissingDescriptorRead | dev/src/usb_core.c:226-246 | a descriptor the tables do not have: one empty packet, then the status packet ends the transfer |
| UsbEngine.RefusedRead | dev/src/usb_core.c:464-479 | a request for data that is not accepted: nothing is sent and the device listens at once |
| UsbEngine.ListensAfresh | dev/src/usb_core.c:55-62 | listening begins with a fresh reception of 24 bytes; pointer and size are cleared, the offset is not |
| UsbEngine.SetupArrives | dev/src/usb_core.c:781-798 | of up to three SETUP packets received back to back into a fresh reception the last is the request, the one of before if there is none, and nothing else has changed |
| UsbEngine.SetupStartsDataIn | dev/src/usb_core.c:781-798 | a reception of whole SETUP packets, the last of which is answered, starts the data stage with the reply of the subscribers, cut as they left it |
| UsbEngine.ControlRead | dev/src/usb_core.c:411-497 | a whole control read from SETUP reception to the next, interleaved with other endpoints: the host gets exactly the reply, cut to the size answered |
| UsbEngine.SetupStartsDataOut | dev/src/usb_core.c:781-798 | a reception of whole SETUP packets, the last of which announces data and is accepted by the subscribers, starts a reception into the memory they gave |
| UsbEngine.DataOutStage | dev/src/usb_core.c:145-185 | whatever goes on at other endpoints, after k full packets the stage is still receiving at offset 64 k, also when they are all the data there is; what arrives of the next packet is cut to what is left |
| UsbEngine.OutAnswer | dev/src/usb_core.c:411-497 | the core answers no request that brings data, so the subscribers are shown the same refusal, no memory, no size, before the data and after them |
| UsbEngine.DataOutLast | dev/src/usb_core.c:145-171 | the first packet that is not full ends the stage: the status packet goes out and the offset is the number of bytes taken; subscribers that accept without giving memory have the stage begin anew |
| UsbEngine.ControlWrite | dev/src/usb_core.c:145-185 | a whole control write from SETUP reception to the next, interleaved with other endpoints: nothing is sent before the packet that is not full, then one empty packet, with the offset equal to the bytes taken, and then the device listens |
| UsbEngine.StatusInEnds | dev/src/usb_core.c:77-95 | the completion of the status packet ends the control write |
| UsbEngine.StatusOutEnds | dev/src/usb_core.c:65-75 | the status packet ends the control transfer whatever the IN side is doing |
| UsbEngine.EarlyStatusExact | dev/src/usb_core.c:55-62 | in the other order a packet nobody asked for is sent if and only if the pending completion was not the first of the stage: stray memory, or an empty packet where the offset wraps to zero |
| UsbEngine.NoWrap | dev/src/usb_core.c:98-123 | the 32-bit subtraction of the data stage is exact while data remain |
| UsbCore.Core.StartIN | dev/src/usb.c:636-705 | a busy endpoint refuses; otherwise the record is set up, with the owed empty packet computed for bulk endpoints only |
| UsbCore.Core.StartOUT | dev/src/usb.c:753-854 | a busy endpoint refuses; otherwise the record is set up |
| UsbCore.Core.StartSETUPStage | dev/src/usb_core.c:55-62 | clears pointer and size, keeps the offset, listens |
| UsbCore.Core.StartDataINStage | dev/src/usb_core.c:126-142 | first packet and status OUT stage |
| UsbCore.Core.StartDataOUTStage | dev/src/usb_core.c:174-185 | clears the offset and receives into the buffer |
| UsbCore.Core.DataINCallback | dev/src/usb_core.c:98-123 | next packet, or the end of the stage; back to SETUP on reset |
| UsbCore.Core.DataOUTCallback | dev/src/usb_core.c:145-171 | completes the request with the received data, or back to SETUP on reset |
| UsbCore.Core.SetupCallback | dev/src/usb_core.c:781-798 | picks the last of several SETUP packets and processes it; back to SETUP on error |
| UsbCore.Core.ProcessSetup | dev/src/usb_core.c:761-778 | dispatches by the length field |
| UsbCore.Core.ProcessSetupNoData | dev/src/usb_core.c:700-758 | performs the request, then status stage or abort |
| UsbCore.Core.ProcessSetupData | dev/src/usb_core.c:411-497 | builds the reply, lets subscribers override it, cuts it to the length asked for, then data stage or abort |
| UsbCore.Core.FinishIN | dev/src/usb.c:59-77 | refines the end of an IN transfer and keeps the callback invariant |
| UsbCore.Core.FinishOUT | dev/src/usb.c:59-77 | refines the end of an OUT transfer and keeps the callback invariant |
| UsbCore.Core.OnInComplete | dev/src/usb.c:329-345 | owed empty packet first, then the end of the transfer |
| UsbCore.Core.OnOutComplete | dev/src/usb.c:259-297 | the end of an OUT transfer or SETUP stage |
| UsbCore.Core.AbortAllIN | dev/src/usb.c:192-203 | the loop ends every IN transfer with the reset code |
| UsbCore.Core.AbortAllOUT | dev/src/usb.c:203-209 | the loop ends every OUT transfer with the reset code |
| UsbCore.Core.OnEnumerated | dev/src/usb.c:192-215 | the whole handler leaves the device listening |
| UsbCore.Core.OnBusReset | dev/src/usb.c:147-189 | resets the device record and leaves transfers to the enumeration handler |
| SwI2c.DecoderRules | dev/src/swi2c.c:66-131 | the decoder of line levels: SDA falling while the clock is high is a START, rising a STOP, and a bit is the level of SDA in a high phase |
| SwI2c.BitsRoundTrip | dev/src/swi2c.c:114-131 | the eight bits of a byte, most significant first, give the byte back |
| SwI2c.ShiftOut | dev/src/swi2c.c:114-116 | testing the top bit and shifting left walks through those bits |
| SwI2c.AddressByte | dev/src/swi2c.c:243-243 | the address octet is the seven address bits, most significant first, and a last bit that is low exactly for a write |
| SwI2c.ParseOctetsOfWire | dev/src/swi2c.c:107-191 | octets on the wire, eight data bits and an acknowledge slot each, read back one by one |
| SwI2c.MessageRoundTrip | dev/src/swi2c.c:235-273 | START, any octets and STOP read back as those octets |
| SwI2c.ParseExact | dev/src/swi2c.c:107-191 | a trace reads as a message if and only if it is that message |
| SwI2c.ChainedCallsAreOneMessage | dev/src/swi2c.c:235-273 | a call without STOP followed by a call without address decodes as one message |
| SwI2c.ZeroByte | dev/src/swi2c.c:108-148 | sending the zero byte never loses arbitration: it ends with the acknowledge slot unless the clock is held |
| SwI2c.Master.Start | dev/src/swi2c.c:66-82 | in any state of the lines: SDA falls during a high clock exactly once, unless the others held it low already; a call that follows one which left SDA low shows a STOP first |
| SwI2c.Master.Stop | dev/src/swi2c.c:85-105 | in any state of the lines: SDA rises during a high clock, a line still held is reported, and both lines are released however it ends |
| SwI2c.Master.WriteBit | dev/src/swi2c.c:114-131 | one clocked bit and no START or STOP; stretch timeout and lost arbitration are told apart |
| SwI2c.Master.Sample | dev/src/swi2c.c:133-143 | one clocked bit as sampled from the line |
| SwI2c.Master.WriteByte | dev/src/swi2c.c:108-148 | the decoded trace grows by the byte, most significant bit first, and its acknowledge slot |
| SwI2c.Master.ReadByte | dev/src/swi2c.c:151-191 | returns the eight bits the slave drove and acknowledges as asked |
| SwI2c.Master.Address | dev/src/swi2c.c:235-252 | in any state of the lines: START and the acknowledged address octet; a refused address is followed by the extra byte and STOP and leaves both lines released |
| SwI2c.Master.WriteAll | dev/src/swi2c.c:255-259 | all bytes acknowledged, or the index of the refused one |
| SwI2c.Master.ReadAll | dev/src/swi2c.c:262-265 | the bytes are those of the slave, and only the last is not acknowledged |
| SwI2c.Master.Transfer | dev/src/swi2c.c:229-283 | success if and only if the slave answered every part; then the decoded trace is START, seven address bits most significant first, a bit that is low exactly for a write, the acknowledge, the data octets with their acknowledge slots and STOP, as far as asked for, and reads return the bytes of the slave; a call with an address phase may follow any failed one, and a refused address or STOP leaves both lines released |
| Eeprom.ProgramInPage | dev/src/eeprom.c:154-163 | on a chip whose counter wraps inside a page, a load that stays in one page is a flat overwrite, and the counter wraps exactly at the page end |
| Eeprom.CoherenceExact | dev/src/eeprom.c:173-179 | the cached address stays that of the chip after a write of data if and only if it does not end on a page boundary, after an empty one if and only if it is at the cached address, or with nothing cached where the chip stands; after reads and failures always |
| Eeprom.CoherentRead | dev/src/eeprom.c:98-115 | in step, a read that skips the address phase returns what a random-access read returns |
| Eeprom.StaleAfterPageEnd | dev/src/eeprom.c:173-179 | the failure family: after a write that ends on a page boundary a read from there returns the page just left |
| Eeprom.RunMore | dev/src/eeprom.c:85-184 | a run goes on with every operation that applies and leaves the cache in step, and with no other |
| Eeprom.RunStaysCoherent | dev/src/eeprom.c:85-184 | over every run of successful reads, writes that do not end on a page boundary or are empty ones at the cached address, and failed operations the cache is coherent and every read exact |
| Eeprom.CheckExact | dev/src/eeprom.c:133-138 | the check lets a range through that does not end before the last byte if and only if its 32-bit sum wraps into the capacity; other ranges pass if and only if they do |
| Eeprom.PinExact | dev/src/eeprom.c:150-157 | the chip is addressed at the offset if and only if the offset lies inside it |
| Eeprom.ScatterIsFlat | dev/src/eeprom.c:144-171 | inside the chip the bytes of a write go where a flat overwrite puts them |
| Eeprom.ScatterAt | dev/src/eeprom.c:144-171 | on a chip of whole pages that divides the address space the bytes of a wrapping write go round the memory |
| Eeprom.WrappedRangeWritesElsewhere | dev/src/eeprom.c:130-171 | the concrete failure: 32 bytes at 16 below 2^32 pass the check of a 16 KiB chip and land in its last 16 and first 16 cells |
| Eeprom.Device.Read | dev/src/eeprom.c:85-126 | for every offset and size: rejected, or the bytes from the cached or the sent address on, with counter and cache after them; ranges that do not wrap follow the value model; a failure releases a semaphore the call did not take |
| Eeprom.Device.Write | dev/src/eeprom.c:130-184 | for every offset and data: success leaves memory equal to one flat overwrite, or to the scattered one where the range wraps on a regular chip; failure leaves a prefix written and the cache invalid; write protect is on and the lock released once on every exit past the check |
| Eeprom.Device.WriteAll | dev/src/eeprom.c:144-171 | the page-split loop, with its wrapping offset, writes all chunks or a prefix, with the lock taken before and released after each chunk |
| Eeprom.Device.WriteChunk | dev/src/eeprom.c:144-168 | every chunk is non-empty, contiguous with the last and inside one page |
| Eeprom.Device.PollBusy | dev/src/eeprom.c:31-53 | the polling loop succeeds if and only if some poll within the timeout is answered, or there is no time to ask, and does not reach the memory |
| Eeprom.Device.SendAddress | dev/src/eeprom.c:56-63 | sets the counter of the chip and no memory |
| Eeprom.Device.SendData | dev/src/eeprom.c:56-63 | programs only while write protect is off |
| Eeprom.PollOnce | dev/src/eeprom.c:34-48 | one poll on the bit-level bus: refused, it is a whole message of the refused octet and the extra byte and leaves both lines free; answered, a message of the address octet |
| Eeprom.PollOnBus | dev/src/eeprom.c:31-53 | acknowledge polling on the bit-level bus: a chip busy for k polls of 19 clock pulses each is found ready by the next, and the bus carries k refused messages and an answered one; an answered poll leaves both lines free |
| Eeprom.PageWriteOnBus | dev/src/eeprom.c:147-163 | poll, address call and data call put one message on the bit-level bus behind the polls: device address, two address bytes, the data, all acknowledged |
| Eeprom.ReadOnBus | dev/src/eeprom.c:98-115 | poll, address call if needed and data call put one message each on the bit-level bus: device address and two address bytes; device address and the bytes read, which are those the slave drove |
| Eeprom.ChunkWritten | dev/src/eeprom.c:144-168 | any prefix of a chunk leaves memory as the flat write cut at that byte |
| Eeprom.ChunkScattered | dev/src/eeprom.c:144-168 | a chunk continues the scattered write, wherever the offset has wrapped to |
| Dhcp.Be32 | net/dhcp/frame.h:548-570 | 32-bit values are stored in network order: the bytes, the first weighing most, have that value |
| Dhcp.Be32RoundTrip | net/dhcp/frame.h:548-570 | and read back |
| Dhcp.SetOptionsEnd | net/dhcp/frame.h:489-505 | one end marker if there is room, nothing otherwise |
| Dhcp.SetMessageType | net/dhcp/frame.h:516-537 | the record if three bytes are there, nothing otherwise |
| Dhcp.SetWord | net/dhcp/frame.h:548-570 | the record of a 32-bit option if six bytes are there, nothing otherwise: code, length 4 and the value in network order; by option code for requested address, mask, router, lease time and server |
| Dhcp.SetParameterRequestList | net/dhcp/frame.h:582-607 | the record with the whole list if it fits, nothing otherwise |
| Dhcp.SetDNSServerIP | net/dhcp/frame.h:717-741 | the copy loop writes all addresses in network order, group by group; pointer and length byte keep eight bits |
| Dhcp.DnsReturnExact | net/dhcp/frame.h:717-741 | the pointer returned lands behind the record if and only if there are at most 63 addresses, and the record stays in the size given if and only if that counts the addresses too |
| Dhcp.WalkVisitsAll | net/dhcp/frame.h:785-806 | walking any list of written records visits them in order with type and length, is not stopped by 0xff in a payload, and stops at the end marker |
| Dhcp.GetReturnsWritten | net/dhcp/frame.h:816-1045 | the matching Get returns the value written at every index and nothing past the end; every other Get refuses the record |
| Dhcp.RenderOptions | net/dhcp/src/frame.c:106-150 | succeeds if and only if the set fits the size or its address list overruns it, and then memory holds the records in order and the end marker; a failure leaves whole records within the size |
| Dhcp.ParseOptions | net/dhcp/src/frame.c:155-257 | the parsing loop over memory, which looks at a byte before it looks at the size, for any bytes: the set, and the position behind the end marker if one is met; an empty buffer is refused |
| Dhcp.ParseAtExact | net/dhcp/src/frame.c:163-182 | it agrees with the reading of the bytes inside the buffer, except that records which fill the buffer without end marker are reported complete if and only if the byte behind the buffer is 0xff |
| Dhcp.ApplyExact | net/dhcp/src/frame.c:179-249 | what any whole record does to the set, well formed or not: a value of the right length, in network order, goes into the field of its code and no other; a wrong length changes nothing, but empties an address or parameter list noted before; a record with any other code changes nothing |
| Dhcp.UnknownIsSkipped | net/dhcp/src/frame.c:244-249 | a record with a code that is not read changes nothing but the position behind the end marker, wherever it stands among the others |
| Dhcp.RenderedBytes | net/dhcp/src/frame.c:106-150 | one set with every field byte by byte: option codes, order of the records and network order |
| Dhcp.ApplyIsLearn | net/dhcp/src/frame.c:170-245 | one parsed record sets exactly its own field to the value written |
| Dhcp.ParseLearnsAll | net/dhcp/src/frame.c:155-257 | parsing any written records equals learning their values one after the other, whatever follows the end marker |
| Dhcp.RenderThenParse | net/dhcp/src/frame.c:106-257 | parsing what was rendered gives the set back in normal form and stops behind the end marker, whatever stands behind it in memory |
| Dhcp.UnendedExact | net/dhcp/src/frame.c:163-182 | written records without an end marker are all learnt, and reported complete, one byte past the buffer, if and only if the byte behind the buffer is 0xff |
| Dhcp.EndReadBehindTheBuffer | net/dhcp/src/frame.c:163-182 | the concrete failure: one message type record in a buffer of three bytes, with 0xff behind it, is reported complete at position 4 |
| Dhcp.RoundTripExact | net/dhcp/src/frame.c:106-257 | what was rendered parses back to the very same set, to the last byte, whatever stands behind it, if and only if the end marker was asked for and each list that is present is neither empty nor longer than the parser has room for |
| Flash.SectorsContiguous | dev/src/flash.c:26-36 | the sector table is contiguous and covers 256 KiB: four sectors of 16 KiB, one of 64 KiB, one of 128 KiB |
| Flash.GetSectorIDForAddr | dev/src/flash.c:96-108 | the one sector that holds the address, an error if and only if none does |
| Flash.LastErasedExact | dev/src/flash.c:147-174 | the sectors erased are exactly those that meet the range counted from the start of its first sector; an empty range counts as one byte |
| Flash.ErasedCovers | dev/src/flash.c:147-174 | the erase reports success if and only if that range ends inside the table |
| Flash.UnalignedExact | dev/src/flash.c:147-174 | for an unaligned start the sectors are those the range meets if and only if its last byte and that of the range shifted to the sector start lie in the same sector, addresses past the table counting as the last sector |
| Flash.Device.EraseSector | dev/src/flash.c:124-144 | one sector becomes blank, no other cell changes, the lock is set; a bad number is refused |
| Flash.Device.EraseRange | dev/src/flash.c:147-174 | from the first sector to the last of those, cells are blank and no other cell changes; outside the table nothing happens |
| Flash.Device.EraseFrom | dev/src/flash.c:153-170 | the loop ends, and erases and reports that |
| Flash.Device.Write | dev/src/flash.c:193-236 | bits are cleared as programmed, over a prefix when the hardware reports an error; the lock is set on every exit |
| Flash.Device.Verify | dev/src/flash.c:186-190 | compares byte by byte; EOK if and only if no byte differs, EFATAL otherwise |
| Flash.VerifyAfterWrite | dev/src/flash.c:186-236 | verification after an error-free write succeeds if and only if every bit to be set was still set |
| Flash.Device.Update | dev/src/flash.c:147-236 | erase from a sector start, write without hardware error, verify: EOK, for any non-empty data that fits |
| Flash.UpdateTouches | dev/src/flash.c:147-236 | after that sequence the data is there, the rest of the erased sectors is blank and all other cells are as before |
| Usart.WaitingExact | dev/src/usart.c:192-193 | the number computed from the two ring indices is the true one if and only if the writer is less than one ring ahead |
| Usart.LooksEmptyExact | dev/src/usart.c:184-184 | the ring looks empty if and only if the writer is a whole number of rings ahead |
| Usart.StoredStands | dev/src/usart.c:89-92 | a byte stored by the circular DMA extends the stream the ring stands for and spoils none of the bytes still to be read |
| Usart.LookCounts | dev/src/usart.c:184-193 | a look at the DMA counter tells exactly how much of the stream is waiting, at every wrap position |
| Usart.CopiesStream | dev/src/usart.c:194-201 | the two copies are the next bytes of the stream, although the DMA stores more before each of them |
| Usart.CallTakes | dev/src/usart.c:174-208 | one call on the ring returns the next min(waiting, size) bytes of the stream and leaves the ring standing for the rest |
| Usart.ReadsAreTheStream | dev/src/usart.c:174-208 | over every run on the real ring, indices and counter, with a DMA that is never a whole ring ahead: what the calls return, put together, is the received stream in order without loss or repeat, and the ring holds the rest |
| Usart.FreshRingDelivers | dev/src/usart.c:174-208 | from a fresh ring the calls return exactly a prefix of what was received, less than one ring behind |
| Usart.Port.Store | dev/src/usart.c:86-98 | the circular DMA writer on the array: one byte, counter down or reloaded |
| Usart.Port.Recv | dev/src/usart.c:174-208 | the waiting loop and the call refine one step of that run on the array and its indices, after the bytes that arrived while waiting; a timeout takes nothing |
| Usart.Port.Take | dev/src/usart.c:192-207 | count, copies and tail refine the step, and the log of all bytes given stays a prefix of the stream |
| Usart.Port.CopyOut | dev/src/usart.c:194-201 | the two copies into the destination are those of the step |
| Ffs.Search | ffs/src/ffs.c:48-55 | the first descriptor with the name, none if and only if no descriptor has it |
| Ffs.SearchAppend | ffs/src/ffs.c:48-55 | searching array after array is searching their concatenation |
| Ffs.FirstFree | ffs/src/ffs.c:62-67 | the first unused entry of the pool |
| Ffs.NextKeeps | ffs/src/ffs.c:39-176 | every call keeps: cursors are within their files, also of several handles on a growing file and of closed ones, and a handle has no right its file lacks |
| Ffs.OpenExact | ffs/src/ffs.c:40-74 | an open succeeds if and only if a mode is asked for, the first descriptor with the name offers it and the pool has an unused entry; then the first such entry is on that file, in exactly that mode, at position 0, and nothing else changes |
| Ffs.OpenedReadsFile | ffs/src/ffs.c:57-90 | from a successful open on, undisturbed reads are the file from its beginning, as far as was asked |
| Ffs.ReadExact | ffs/src/ffs.c:77-90 | a read needs the right to read, hands over what is left of the file up to the size asked for, moves the cursor behind it and returns the count in a signed 32-bit type |
| Ffs.WriteExact | ffs/src/ffs.c:93-108 | a write needs the right to write, returns the count in a signed 32-bit type and touches no other file or handle |
| Ffs.SeekPlaces | ffs/src/ffs.c:112-137 | in files below 2^31 bytes a seek goes to the signed offset from the beginning, the cursor or the end, or is refused and changes nothing |
| Ffs.CloseExact | ffs/src/ffs.c:166-176 | closing a handle in use frees it and changes nothing else; any other close is refused |
| Ffs.SeekExact | ffs/src/ffs.c:112-137 | the wrapping seek equals the signed one for every offset if and only if the end of the file is less than 2^31 past the base and the base is at most 2^31 |
| Ffs.SmallFileSeek | ffs/src/ffs.c:118-132 | in files below 2^31 bytes every seek is the signed one, accepting exactly the targets inside the file |
| Ffs.HeldIsExclusive | ffs/src/ffs.c:61-73 | open handles never alias: until it is closed no open returns the handle, and it keeps file and mode |
| Ffs.ReadOnlyKept | ffs/src/ffs.c:57-108 | over every run files never shrink and a file without the write mode keeps its contents |
| Ffs.ReadsConcatenate | ffs/src/ffs.c:77-90 | reads through one handle, interleaved with any calls on other handles and files, concatenate to the file from the cursor on, as far as asked |
| Ffs.WriteIsSplice | ffs/src/ffs.c:93-108 | a write replaces the bytes at the cursor and extends the file where it runs past the end |
| Ffs.WriteBackRead | ffs/src/ffs.c:77-137 | write, step back by the same number, read: the same bytes, and the state is that after the write |
| Ffs.Fs.FindFile | ffs/src/ffs.c:48-55 | the two nested loops find what the search finds |
| Ffs.Fs.Open | ffs/src/ffs.c:40-74 | refines the open call: no mode, no name, no such file, mode not offered, pool exhausted, or the first free entry |
| Ffs.Fs.Read | ffs/src/ffs.c:77-90 | refines the read call in 32-bit arithmetic |
| Ffs.Fs.Write | ffs/src/ffs.c:93-108 | refines the write call in 32-bit arithmetic |
| Ffs.Fs.Seek | ffs/src/ffs.c:112-137 | refines the seek call in 32-bit arithmetic |
| Ffs.Fs.Close | ffs/src/ffs.c:166-176 | refines the close call; a handle not in use is refused |

## Left out

- Eem.Driver.RxArrive: transfers whose packets run past the end are excluded, as the code reads on into old bytes then.
- Eem.Driver.ResetEndian: a reset amid packets that run past the end in the unknown mode is excluded for the same reason.
- EemHost.HostFramesArrive: a host that sends unsafe transfers while the byte order is not known is outside the run; `EemHost.ReadRightExact` says what happens to it.
- Cancellation of the transmit task inside its wait for the endpoint, which would abandon a running transfer.
- Eem.Driver.TxComplete: a failed completion is an input; why the endpoint failed is in the engine model, not here.
- The interrupt dispatch loops of `USB_HandlerTask`, `USB_HandleOutEp` and `USB_HandleInEpIsr` over endpoint bits: each branch is one event.
- UsbCore.Core.SetupCallback: a SETUP reception of one to seven bytes makes the code index before its array; the model keeps the index, and the lemmas on control transfers do not speak of such receptions.
- UsbEngine.ControlWrite: a packet is one reception of the endpoint, as the receive branch of the interrupt delivers it; a new SETUP packet or a reset amid the data is in `UsbEngine.NextKeeps`, not here.
- Stall bits of endpoint 0, isochronous endpoints, remote wakeup, test mode and the endpoint configuration registers.
- UsbEngine.CallbacksRunOnce: transfers that other users start stay off endpoint 0, as the class drivers of the repository do; the type of a user callback is the list of transfers it starts.
- UsbLayout.Registers.SetTxFifoSize: sizes whose start or depth need more than the sixteen bits of their register field.
- SwI2c.Master.Transfer: a call with neither address phase nor data has no defined result in the code, and is not called here; delays are not modelled, stretching is.
- Eeprom.Device.Write: where a range wraps, the memory is stated for chips of whole pages that divide the 64 KiB address space; locks are counted, not scheduled.
- Eeprom.Device.Read: the chip is not larger than 64 KiB, as the devices of the repository.
- Eeprom.Device.SendAddress: what the bus answers is an environment input here; `Eeprom.PollOnBus`, `Eeprom.PageWriteOnBus` and `Eeprom.ReadOnBus` put the same calls on the bit-level master.
- Eeprom.Device.SendData: the same.
- SwI2c.ChainedCallsAreOneMessage: speaks of decoded symbols; `Eeprom.PageWriteOnBus` joins the actual calls.
- Dhcp.SetWord: five writers that differ only in their option code are one member with the code as parameter, and so are their readers.
- Dhcp.ParseOptions: the memory has at least one byte behind the buffer, as the code may read it.
- The DHCP header fields, the client state machine and UDP.
- Flash.Device.Update: the sequence of the three calls is the caller's; it is written out here to state what they do together.
- Busy waiting, error flags of the flash controller and interrupt masking, beyond the answer to each programmed byte.
- USART transmission, and counter readings of zero.
- Usart.Port.Recv: a writer a whole ring ahead overwrites unread bytes and is excluded; `Usart.WaitingExact` and `Usart.LooksEmptyExact` say what the code then computes.
- Ffs.Fs.Write: the memory behind a file must have room for the bytes, as the code does not check it.
- Ffs.Fs.Seek: a handle that was never opened, and seek modes outside the three, which the code asserts away.
- Scheduler, semaphores, queues, heap, events, TCP/IP and the remaining peripherals: no protocol state of their own in the files modelled.
