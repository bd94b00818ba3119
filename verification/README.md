# Verified models of the Kinect driver stack

The repository carries the libfreenect Kinect driver and the libusb library it is built on. This project
models the parts of both that are hard to get right and proves what they are for:

- **Stream reassembly** (`PacketStreams`, `LossyReassembly`): packets with an 8-bit sequence number, some of
  them lost, are put together to frames of any size.
- **Pixel conversion** (`BitUnpacking`, `BayerDemosaic`): the shift-register loops that unpack samples and
  turn a Bayer pattern into colours, against per-sample and per-pixel definitions.
- **Descriptors** (`Descriptors`, `DescriptorInverse`, `DescriptorParser`): the parser of configuration
  descriptors as sections 9.6.3, 9.6.5 and 9.6.6 of the USB 2.0 Specification lay them out, and a printer
  that it inverts.
- **URBs** (`BulkUrbs`, `IsoUrbs`): how one transfer is cut into kernel requests, and how their results come
  together again under success, short data, faults, cancellation and refused submission.
- **Events** (`EventLock`): which of any number of threads polls, closes or sleeps.
- **Timeouts and completion** (`Timeouts`, `IntrusiveList`, `FlyingList`, `Completions`): the clock
  arithmetic, the linked list of flying transfers sorted by deadline, the scans that stop early, and the
  account of submissions and callbacks through timeouts, cancellation and disconnect.
- **Buffers and shutdown** (`TripleBuffer`, `IsoShutdown`): frames handed to the drawing thread without
  tearing, and transfers freed only when none is in flight.
- **Device references** (`DeviceRefs`, `DyingDevices`): who keeps a device alive, call by call and when threads
  interleave within calls.

Code that changes variables, buffers or links step by step is written that way here too, as methods and
classes with loops; each is proved equal to a specification function, and what the code promises is proved
of those functions. Threads are modelled as transition systems that take one shared access, or one section
under a mutex, at a time, in any order. `Bytes`, `Arithmetic`, `Usbfs` and `Wrappers` are small helpers.

`dafny verify dfyconfig.toml` checks everything.

Some expectations turn out to hold only under a condition. These are stated with the exact condition, or with
inputs for which they fail, or both: one packet per frame (`FrameInvIffTwoPackets`); tracking the sender after the
loss of 256 packets or more (`TracksOnIff`, `TracksAllIffHarmless`, `BayerStreamLosses`); a report that is one
frame of the sender (`FullReportIff`, `ReportIsOneFrameIff`, `LostEndMixesFrames`, `TwoPacketFrameReportedAgain`);
a Bayer image of two lines (`BottomIsMirroredIff`); overflow before the last URB (`EarlyOverflowReportsTooSoon`);
bulk data that ends up contiguous (`ContiguousIff`, `DataAfterShortFaultLeavesGap`, `StallAndByte`); isochronous
packets longer than an URB (`AllPlacedIffSmall`, `OversizedPacketIsNotPlaced`); waits of many days
(`PollTimeoutFitsIff`, `LongWaitOverflows`); a carry of exactly one second (`WaitUntilIsValidIff`,
`HalfAndHalfIsRejected`); a failed isochronous submission (`ShutdownEndsIff`); a collection of devices that has
grown when its bus fails (`ScanBuses`, `GetDeviceList`, `SingleBusGrewIff`, `TenthDeviceFails`); and a device that
is looked up while its last reference is given up (`AllSoundIff`, `AliveIffThroughout`, `LateLookup`).

## Model

| member | source | states |
|---|---|---|
| `PacketStreams.SetBitSets` | libfreenect/src/cameras.c:69-71 | the start, middle and end flags are the base flag with their bits set and no other bit changed |
| `PacketStreams.SlotsTileFrame` | libfreenect/src/cameras.c:202-205 | the packet count and last packet size computed by stream_init cut the frame into full slots and one last slot that ends exactly at the frame size |
| `PacketStreams.SlotsDisjoint` | libfreenect/src/cameras.c:110-157 | the destinations of two different packet numbers never overlap |
| `PacketStreams.PacketStream.constructor` | libfreenect/src/cameras.c:179-206 | a stream starts unsynced, with the geometry that belongs to its buffer size |
| `PacketStreams.PacketStream.Process` | libfreenect/src/cameras.c:45-177 | the packet handler computes `Step`, result and whole new state, for any packet of any length, and writes nothing but the stream and its frame buffer |
| `PacketStreams.PacketStream.CountLost` | libfreenect/src/cameras.c:87-108 | the bookkeeping of lost packets: resync on more than five, early report when the end of the frame was among them |
| `PacketStreams.PacketStream.CheckHeader` | libfreenect/src/cameras.c:110-153 | the flag and length checks of both modes, and which of them desynchronise |
| `PacketStreams.PacketStream.Store` | libfreenect/src/cameras.c:155-177 | what accepting a packet does to the counters, the time stamps, the buffer and the result |
| `PacketStreams.PacketStream.CopyIn` | libfreenect/src/cameras.c:155-157 | the payload lands at its slot and every other byte of the buffer stays |
| `PacketStreams.SkippedIsValid` | libfreenect/src/cameras.c:87-108 | after the bookkeeping of lost packets the counters are in range again |
| `PacketStreams.HeaderFields` | libfreenect/src/cameras.c:34-43 | for all field values: the letters R and B, flag, sequence number, little-endian time stamp and payload are read from where a packet has them, byte by byte |
| `PacketStreams.StampIsTime` | libfreenect/src/cameras.c:155-175 | a time of 32 bits is read back from its four bytes |
| `LossyReassembly.StepKeepsFrameInv` | libfreenect/src/cameras.c:45-177 | for an arbitrary packet in fixed mode with at least two packets a frame: got_pkts <= pkt_num < pkts_per_frame while synced, valid_pkts <= pkts_per_frame, and the result is 0 or the frame size |
| `LossyReassembly.OnePacketFramesOverrun` | libfreenect/src/cameras.c:110-160 | with one packet a frame, a concrete packet that makes pkt_num run past the frame |
| `LossyReassembly.FrameInvIffTwoPackets` | libfreenect/src/cameras.c:45-177 | the frame invariant is kept by every packet exactly if a frame has at least two packets |
| `LossyReassembly.StepWritesOneSlot` | libfreenect/src/cameras.c:155-157 | a packet changes at most the bytes of one slot, inside the frame |
| `LossyReassembly.LengthInSequence` | libfreenect/src/cameras.c:125-175 | a packet in sequence that is too long is passed over without a trace; any other is copied and counted, also a short one |
| `LossyReassembly.LosesSync` | libfreenect/src/cameras.c:91-124 | a wrong flag, or a gap of more than five, makes the receiver wait for the next start, and does nothing else |
| `LossyReassembly.FindsSync` | libfreenect/src/cameras.c:55-80 | no packet but a start of frame ends that waiting, and it begins afresh; what is no packet is ignored |
| `LossyReassembly.VariableLosesSync` | libfreenect/src/cameras.c:131-153 | in variable-length mode: exactly which packets in sequence keep the receiver synced, and that any gap does not |
| `LossyReassembly.SkipFindsSlot` | libfreenect/src/cameras.c:85-108 | after a gap of any length the receiver stands at the slot and sequence number that the sequence numbers of the sender point to, both modulo their wrap, or past the frame |
| `LossyReassembly.StepPlaces` | libfreenect/src/cameras.c:45-177 | one packet after a gap of any length: taken exactly if it can be reached or its flag hides that it is another slot's, and into which slot |
| `LossyReassembly.TracksOnIff` | libfreenect/src/cameras.c:45-177 | after one packet the receiver still knows which one comes next exactly if the packet is not misplaced, a condition on the gap and the two slots alone |
| `LossyReassembly.StepTracksSender` | libfreenect/src/cameras.c:45-177 | one packet that is not misplaced: it is taken exactly if it can be reached, and its payload goes to the sender's offset |
| `LossyReassembly.MisplacedPacket` | libfreenect/src/cameras.c:87-108 | a misplaced packet comes after a loss of at least 256 and is written into a slot that is not its own |
| `LossyReassembly.FiveMayBeLost` | libfreenect/src/cameras.c:91-94 | within a frame the receiver bridges a loss exactly if it is of at most five packets |
| `LossyReassembly.LossOf256Misplaces` | libfreenect/src/cameras.c:87-108 | the loss of 256 packets throws the receiver off exactly if it is synced in the middle of a frame and the slot reached is another one, also in the middle |
| `LossyReassembly.BayerStreamLosses` | libfreenect/src/cameras.c:708-711 | for the frame and packet size of the Bayer stream, a concrete loss that misplaces a packet and one that goes unnoticed |
| `LossyReassembly.ShortGapsSuffice` | libfreenect/src/cameras.c:87-108 | on a channel that never drops 256 packets in a row no loss misplaces a packet or goes unnoticed |
| `LossyReassembly.TracksAllIffHarmless` | libfreenect/src/cameras.c:45-177 | over any channel and any run, the receiver tracks the sender all the way exactly if no loss misplaces a packet, and is then synced as the numbers of the packets received decide |
| `LossyReassembly.RunTracksSender` | libfreenect/src/cameras.c:45-177 | over any harmless channel, whenever the receiver is synced its seq and pkt_num are those of the next expected packet |
| `LossyReassembly.TakenIffInSync` | libfreenect/src/cameras.c:45-177 | exactly which received packets are copied into the frame over a whole run, by their numbers alone |
| `LossyReassembly.SlotHoldsNewestPayload` | libfreenect/src/cameras.c:155-177 | over a whole run every slot holds the newest payload accepted for that slot, or what it held before |
| `LossyReassembly.StepKeepsWhole` | libfreenect/src/cameras.c:45-177 | a frame without a gap so far keeps all its payloads in place |
| `LossyReassembly.HoldsIsExact` | libfreenect/src/cameras.c:155-157 | a buffer whose slots hold consecutive packets starts with the sender's bytes |
| `LossyReassembly.LosslessFrameDelivered` | libfreenect/src/cameras.c:45-177 | with no loss the reported frame is the sender's frame byte for byte, with all packets valid |
| `LossyReassembly.StepCounters` | libfreenect/src/cameras.c:87-177 | got_pkts and valid_pkts count a frame as gapless exactly while nothing seems lost |
| `LossyReassembly.StepReportsFullIff` | libfreenect/src/cameras.c:45-177 | a packet completes a report with all packets valid exactly if it is the last of its frame, none of the frame was missed, and nothing, or nothing the sequence number shows, was lost just before it |
| `LossyReassembly.CountersShowUnbroken` | libfreenect/src/cameras.c:45-177 | over a whole run: synced with got_pkts = pkt_num = m exactly if the last m packets that got through were all copied, begin a frame and follow one another as far as the numbers show |
| `LossyReassembly.ReportsFullIffUnbroken` | libfreenect/src/cameras.c:45-177 | over any harmless channel a frame is reported with all its packets valid exactly if the last pkts_per_frame packets received are such a series |
| `LossyReassembly.FullReportIff` | libfreenect/src/cameras.c:45-177 | if moreover no loss goes unnoticed, that report is made exactly if those packets are consecutive numbers of one frame, all copied; and then the buffer is that frame byte for byte |
| `LossyReassembly.FullReportIsExact` | libfreenect/src/cameras.c:45-177 | over any such channel, a frame reported with all its packets valid is the sender's frame byte for byte |
| `LossyReassembly.StepReportsIff` | libfreenect/src/cameras.c:87-177 | a packet makes the receiver report a frame exactly if the end of one seems lost before it, or it is itself the last one of a frame and is taken |
| `LossyReassembly.ReportedIff` | libfreenect/src/cameras.c:87-177 | the same over a whole run, by the numbers of the packets received alone |
| `LossyReassembly.StepStamps` | libfreenect/src/cameras.c:99-105 | what one packet does to the time stamps and to the number of frames |
| `LossyReassembly.StampsAreTimes` | libfreenect/src/cameras.c:99-175 | over every run the time stamp handed out is the sender's time of the packet that ended the frame reported last or, if its end was lost, of the newest packet copied before; and every report is counted |
| `LossyReassembly.CopiedFrameIff` | libfreenect/src/cameras.c:155-177 | when a packet has just been copied, the slots hold one whole frame of the sender exactly if it completes an unbroken series |
| `LossyReassembly.HoldsCurrentFrameIff` | libfreenect/src/cameras.c:155-177 | the slots hold the frame now being received, all of it, exactly if its last packet has just completed an unbroken series |
| `LossyReassembly.ReportIsOneFrameIff` | libfreenect/src/cameras.c:96-177 | what a reported buffer holds is one frame of the sender exactly if the packet completes an unbroken series, or was refused just behind one; with more than five packets a frame exactly in the first case |
| `LossyReassembly.TwoPacketFrameReportedAgain` | libfreenect/src/cameras.c:96-128 | the second case, with two packets a frame: the buffer is reported again unchanged |
| `LossyReassembly.LostEndMixesFrames` | libfreenect/src/cameras.c:96-108 | such a mixture: after the loss of an end packet the reported buffer already holds a packet of the next frame |
| `LossyReassembly.StepCollects` | libfreenect/src/cameras.c:131-175 | variable-length mode: a result n means that the first n bytes of the buffer are the payloads accepted since the frame began |
| `LossyReassembly.RunCollects` | libfreenect/src/cameras.c:131-175 | the same of every size reported on the way of a whole run |
| `BitUnpacking.UnpackInvertsPack` | libfreenect/src/cameras.c:244-272 | unpacking inverts packing for every width and every number of samples |
| `BitUnpacking.PackInvertsUnpack` | libfreenect/src/cameras.c:244-272 | packing inverts unpacking on buffers that hold whole samples |
| `BitUnpacking.TopBytesAreShifted` | libfreenect/src/cameras.c:260-272 | the 8-bit samples are the full ones shifted right by vw - 8 |
| `BitUnpacking.ShiftInKeepsWindow` | libfreenect/src/cameras.c:250-253 | shifting a byte into the 32-bit register never loses an unread bit |
| `BitUnpacking.ReadOut` | libfreenect/src/cameras.c:254-255 | reading a sample out of the register leaves the rest of the window in place |
| `BitUnpacking.Refill` | libfreenect/src/cameras.c:249-253 | one turn of the outer loop reads bytes until the register holds a sample, and no more |
| `BitUnpacking.ConvertPackedTo16Bit` | libfreenect/src/cameras.c:244-257 | for widths 1 to 16 the output is the sequence of samples, and exactly the bytes that hold them are consumed |
| `BitUnpacking.ConvertPackedTo8Bit` | libfreenect/src/cameras.c:260-272 | for widths 8 to 16 the output is the top eight bits of every sample |
| `BayerDemosaic.PixelNearDocumented` | libfreenect/src/cameras.c:344-380 | every channel computed is the documented four-configuration average or one less, and equal where no average of four is involved |
| `BayerDemosaic.UniformColourIsKept` | libfreenect/src/cameras.c:344-380 | a scene of one colour, sensed as G R G R ..., B G B G ..., comes out as that colour everywhere, borders included, each pixel as red, green, blue |
| `BayerDemosaic.NestedAverage` | libfreenect/src/cameras.c:452-459 | an average of truncated averages is at most one below the average of four |
| `BayerDemosaic.LanesShift` | libfreenect/src/cameras.c:469-471 | the 8-bit shift moves the three lanes on without mixing them |
| `BayerDemosaic.LoadNext` | libfreenect/src/cameras.c:434-471 | one step of the registers: what they held, with the next column, gives the pixel and the registers for the next column |
| `BayerDemosaic.InnerPixel` | libfreenect/src/cameras.c:439-467 | the four configurations read out of the two registers |
| `BayerDemosaic.LastPixel` | libfreenect/src/cameras.c:473-500 | the right column with its simplified sums is the same combination |
| `BayerDemosaic.StartRow` | libfreenect/src/cameras.c:421-428 | the registers are loaded for the left column with column 1 mirrored |
| `BayerDemosaic.NextPixel` | libfreenect/src/cameras.c:434-471 | the column loop emits the specified pixel and keeps the registers loaded |
| `BayerDemosaic.OnePixel` | libfreenect/src/cameras.c:434-471 | one turn of the column loop: the specified pixel is appended, what lies behind it stays, and the registers hold the next column |
| `BayerDemosaic.RightColumn` | libfreenect/src/cameras.c:473-500 | the right column is the specified pixel with the last but one column mirrored |
| `BayerDemosaic.ConvertRow` | libfreenect/src/cameras.c:421-500 | a whole row is the row of specified pixels, appended to what was there |
| `BayerDemosaic.BottomIsMirroredIff` | libfreenect/src/cameras.c:411-428 | the bottom line takes its next line from the last but one exactly if there are at least three lines; with two it reads behind the image |
| `BayerDemosaic.ConvertLine` | libfreenect/src/cameras.c:412-502 | one turn of the row loop, with the pointers it leaves for the next |
| `BayerDemosaic.ConvertBayerToRgb` | libfreenect/src/cameras.c:341-503 | for any width from 2 and height from 3 the output is the specified image with mirrored borders, and nothing behind it is written |
| `Descriptors.SkipsPrintedExtra` | libusb-1.0/descriptor.c:112-134 | skipping stops exactly behind a run of class or vendor descriptors |
| `Descriptors.EndpointRoundTrip` | libusb-1.0/descriptor.c:78-156 | a printed endpoint of 7 or 9 bytes parses to itself with its extra descriptors |
| `Descriptors.EndpointsRoundTrip` | libusb-1.0/descriptor.c:272-301 | so does a list of endpoints |
| `Descriptors.AltRoundTrip` | libusb-1.0/descriptor.c:198-309 | an alternate setting parses to itself, and whether another one follows is told right |
| `Descriptors.InterfaceRoundTrip` | libusb-1.0/descriptor.c:183-315 | an interface with all its alternate settings parses to itself |
| `Descriptors.InterfacesRoundTrip` | libusb-1.0/descriptor.c:362-415 | so does a list of interfaces, the first one's leading extra descriptors going to the configuration |
| `Descriptors.ConfigRoundTrip` | libusb-1.0/descriptor.c:330-422 | parsing the serialization of a well-formed tree (interfaces of type 4, endpoints of type 5, extra descriptors of any type but 1, 2, 4 and 5, at most 32 of each) gives the tree back, the same extra descriptors at the same nodes, and 0 bytes left over |
| `Descriptors.TooManyAreRefused` | libusb-1.0/descriptor.c:209-345 | more than 32 interfaces, or endpoints of an alternate setting, are refused |
| `Descriptors.ExampleParses` | libusb-1.0/descriptor.c:330-422 | a configuration given byte for byte, with two alternate settings, a bulk and an audio endpoint and extra descriptors at three levels, parses to the tree given field by field |
| `DescriptorInverse.EndpointSound` | libusb-1.0/descriptor.c:78-156 | a parsed endpoint that is well formed has the bytes consumed as its serialization |
| `DescriptorInverse.InterfaceSound` | libusb-1.0/descriptor.c:183-315 | the same of a well-formed interface |
| `DescriptorInverse.ConfigSound` | libusb-1.0/descriptor.c:330-422 | the same of a well-formed configuration that was parsed with nothing left over |
| `DescriptorInverse.ParsesIffPrinted` | libusb-1.0/descriptor.c:330-422 | on a buffer of the announced length, a well-formed tree is the result with nothing left over exactly if the buffer is its serialization |
| `DescriptorInverse.PrintConfigInjective` | libusb-1.0/descriptor.c:330-422 | two different well-formed trees never have the same bytes |
| `DescriptorParser.SkipExtraAt` | libusb-1.0/descriptor.c:112-134 | the cursor loop skips what the specification function skips |
| `DescriptorParser.ParseEndpointAt` | libusb-1.0/descriptor.c:78-156 | the cursor code computes the endpoint, the bytes parsed and the errors of the specification function |
| `DescriptorParser.ParseEndpointsAt` | libusb-1.0/descriptor.c:282-300 | so does the endpoint loop |
| `DescriptorParser.ParseAltBodyAt` | libusb-1.0/descriptor.c:246-308 | so does the rest of an alternate setting, with its early return and its limit on endpoints |
| `DescriptorParser.ParseAltAt` | libusb-1.0/descriptor.c:198-309 | so does one turn of the loop over alternate settings |
| `DescriptorParser.ParseInterfaceAt` | libusb-1.0/descriptor.c:183-315 | so does the loop |
| `DescriptorParser.ParseConfiguration` | libusb-1.0/descriptor.c:330-422 | the whole parser, on every buffer, returns the specified tree, left-over count or error; that a read passes the end of a short buffer is a result of its own |
| `BulkUrbs.UrbsTile` | libusb-1.0/os/linux_usbfs.c:1366-1405 | the URBs tile the buffer: contiguous, at most 16384 bytes each, full but for the last, as few as possible, one even for an empty transfer |
| `BulkUrbs.CutUrbsTile` | libusb-1.0/os/linux_usbfs.c:1392-1410 | of the URBs handed to the kernel: the first begins at the buffer, each other one where the one before ends, with all of them to its end; all but the last have 16384 bytes; and which have which flags |
| `BulkUrbs.ReportedWithLastUrb` | libusb-1.0/os/linux_usbfs.c:1824-1953 | a transfer is reported with the reaping of its last outstanding URB and not before |
| `BulkUrbs.EarlyOverflowReportsTooSoon` | libusb-1.0/os/linux_usbfs.c:1890-1895 | overflow on an earlier URB would report a transfer with URBs still outstanding |
| `BulkUrbs.ContiguousIff` | libusb-1.0/os/linux_usbfs.c:1843-1857 | for one reaped URB and all buffers that hold the data so far and the URB's own: afterwards the two lie end to end exactly if the mode is not normal, or the URB begins where the data ends, or it is empty |
| `BulkUrbs.DataAfterShortFaultLeavesGap` | libusb-1.0/os/linux_usbfs.c:1881-1889 | a stall or disconnect that cuts an URB short leaves the mode normal, so that the next URB is counted in a wrong place exactly if it has data |
| `BulkUrbs.StallAndByte` | libusb-1.0/os/linux_usbfs.c:1881-1889 | a concrete stall and byte for which the buffer is wrong |
| `BulkUrbs.GapNeedsShortFault` | libusb-1.0/os/linux_usbfs.c:1857-1926 | in every state reached, data is counted behind a gap only after such an URB |
| `BulkUrbs.CompletionKeepsInv` | libusb-1.0/os/linux_usbfs.c:1392-1410 | a completion by the kernel writes its own URB's part of the buffer only |
| `BulkUrbs.ReapKeepsInv` | libusb-1.0/os/linux_usbfs.c:1824-1953 | after every reap that leaves no gap the first `transferred` bytes are the data of the URBs reaped so far in order; no URB still to be reaped is disturbed, and the transfer ends exactly with its last URB |
| `BulkUrbs.ReapedVerdict` | libusb-1.0/os/linux_usbfs.c:1824-1953 | what a transfer is reported as, from the statuses of its URBs: gone before stalled before overflow before error, of those reaped in normal mode; and what ends that mode |
| `BulkUrbs.AbnormalVerdict` | libusb-1.0/os/linux_usbfs.c:1830-1872 | a cancelled transfer stays one; a refused URB ends in an error, but for early completion |
| `BulkUrbs.DiscardsAre` | libusb-1.0/os/linux_usbfs.c:1881-1940 | the URBs discarded at a reap are all later ones, last one first, exactly if the transfer ends early with URBs outstanding that the kernel does not cancel itself |
| `BulkUrbs.BulkTransfer.constructor` | libusb-1.0/os/linux_usbfs.c:1363-1364 | a transfer without URBs is idle |
| `BulkUrbs.BulkTransfer.Submit` | libusb-1.0/os/linux_usbfs.c:1348-1473 | the state after submission for every pattern of refusals, and the URBs submitted: failure only if the first is refused, else the refused ones count as retired and the others are discarded in reverse order, unless the data had ended early; a live transfer is busy |
| `BulkUrbs.BulkTransfer.KernelComplete` | libusb-1.0/os/linux_usbfs.c:1392-1410 | the kernel fills in the next URB in submission order, where that URB points |
| `BulkUrbs.BulkTransfer.Cancel` | libusb-1.0/os/linux_usbfs.c:1724-1746 | cancelling keeps an error mode, discards every URB last one first, and fails on an idle transfer |
| `BulkUrbs.BulkTransfer.Reap` | libusb-1.0/os/linux_usbfs.c:1812-1953 | reaping computes the specified counters, status, data and report; the URBs behind are discarded, last one first, exactly if the transfer ends early in normal mode with URBs outstanding that the kernel does not cancel itself |
| `BulkUrbs.BulkTransfer.CountReaped` | libusb-1.0/os/linux_usbfs.c:1824-1940 | the counters, modes, status and discards of one reap |
| `BulkUrbs.BulkTransfer.Compact` | libusb-1.0/os/linux_usbfs.c:1846-1856 | the overlapping move puts surplus data at the end of the data so far |
| `BulkUrbs.BulkTransfer.DiscardRest` | libusb-1.0/os/linux_usbfs.c:1929-1940 | the URBs without continuation flag behind the reaped one are discarded, last one first |
| `Usbfs.DiscardDown` | libusb-1.0/os/linux_usbfs.c:1738-1743 | the discarding loop goes through the URBs last one first |
| `Usbfs.ErrorCodes` | libusb-1.0/libusb.h:660-700 | the numbers of the error codes |
| `IsoUrbs.CountIsGreedy` | libusb-1.0/os/linux_usbfs.c:1500-1511 | the counting pass counts greedy segments |
| `IsoUrbs.CountUrbs` | libusb-1.0/os/linux_usbfs.c:1500-1511 | the counting loop with its unsigned comparison |
| `IsoUrbs.SwallowPackets` | libusb-1.0/os/linux_usbfs.c:1535-1548 | one URB takes the longest run of packets that fits |
| `IsoUrbs.FillUrbs` | libusb-1.0/os/linux_usbfs.c:1526-1574 | the filling loop computes the specified layout |
| `IsoUrbs.FillRespectsLimit` | libusb-1.0/os/linux_usbfs.c:1526-1574 | every URB holds at most 32768 bytes and starts where the one before ended |
| `IsoUrbs.FillPlacesAll` | libusb-1.0/os/linux_usbfs.c:1500-1574 | for packets of at most 32768 bytes the two passes agree and every packet is placed |
| `IsoUrbs.AllPlacedIffSmall` | libusb-1.0/os/linux_usbfs.c:1500-1574 | every packet is placed exactly if none is longer than 32768 bytes |
| `IsoUrbs.OversizedPacketIsNotPlaced` | libusb-1.0/os/linux_usbfs.c:1500-1574 | one packet of 32769 bytes is not placed |
| `IsoUrbs.CountIsMinimal` | libusb-1.0/os/linux_usbfs.c:1500-1511 | no partition into consecutive segments that fit has fewer URBs |
| `IsoUrbs.PacketPosition` | libusb-1.0/os/linux_usbfs.c:1982-1990 | packet j of URB i is the packet of the transfer that in-order reaping counts it as |
| `IsoUrbs.IsoTransfer.constructor` | libusb-1.0/os/linux_usbfs.c:1492-1493 | a transfer without URBs is idle |
| `IsoUrbs.IsoTransfer.Submit` | libusb-1.0/os/linux_usbfs.c:1475-1629 | the state after submission for every number of accepted URBs, the error of a first refusal, and the discards after a later one; a live transfer is busy |
| `IsoUrbs.IsoTransfer.Cancel` | libusb-1.0/os/linux_usbfs.c:1748-1768 | cancelling a live transfer discards every URB, last one first; an idle one is not found |
| `IsoUrbs.IsoTransfer.Reap` | libusb-1.0/os/linux_usbfs.c:1955-2047 | one reap writes the results of URB i back to its own packets and reports with the last URB |
| `IsoUrbs.IsoTransfer.CountReaped` | libusb-1.0/os/linux_usbfs.c:1992-2042 | the counters and the verdict of one reap |
| `IsoUrbs.IsoTransfer.WriteBack` | libusb-1.0/os/linux_usbfs.c:1982-1990 | the results of an URB go to the descriptors from the running offset on, and to no other |
| `EventLock.StepKeepsInv` | libusb-1.0/io.c:1473-1541 | every shared access of every thread keeps the lock, counter and wakeup invariants |
| `EventLock.BroadcastEndsWaiting` | libusb-1.0/io.c:1529-1541 | a thread stops owing a broadcast only by broadcasting, and then nobody waits |
| `EventLock.DecidingFindsDebtor` | libusb-1.0/io.c:1592-1608 | a thread decides to sleep only because another one is modifying or is the event handler |
| `EventLock.NoLostWakeup` | libusb-1.0/io.c:1940-1983 | in every interleaving of any number of threads: while one sleeps, another holds the events lock, is inside an open or close window, or is on its way to a broadcast |
| `EventLock.PollingExcludesClosing` | libusb-1.0/core.c:1053-1086 | at most one thread is polling or closing |
| `EventLock.CountersAreExact` | libusb-1.0/core.c:861-890 | event_handler_active implies that the events lock is held, pollfd_modify counts the threads in their windows, and the pipe the threads between write and read |
| `EventLock.PipeIsReady` | libusb-1.0/core.c:866-882 | the read of the control pipe under the lock never blocks, and a waiting modifier has a byte in the pipe |
| `EventLock.LooksAreRight` | libusb-1.0/io.c:1473-1608 | in every run, a thread goes from the check of libusb_try_lock_events to the lock exactly if no thread is inside an open or close window, gets it exactly if nobody holds it, and decides to sleep exactly if there is a window or an event handler |
| `EventLock.WindowKeepsHandlersOut` | libusb-1.0/io.c:1473-1490 | while a thread is inside its window nobody newly passes that check: those that get the lock through it are at most those that had passed before |
| `EventLock.SleepersAreServed` | libusb-1.0/io.c:1629-1698 | a sleeper is never part of a deadlock: some thread that holds a lock or owes a broadcast can take a step |
| `EventLock.RunKeepsInv` | libusb-1.0/io.c:1473-1541 | the invariants hold in every reachable state |
| `Timeouts.DeadlineIsDueTime` | libusb-1.0/io.c:1083-1110 | a finite deadline is the due time rounded down to a microsecond, and never all zero |
| `Timeouts.FullSecondIsNotCarried` | libusb-1.0/io.c:1103-1106 | the microsecond part comes to one million exactly if the nanoseconds add up to one second |
| `Timeouts.OrderAgreesWithTime` | libusb-1.0/io.c:1144-1146 | the comparison of seconds and microseconds never contradicts real time, and where it separates equal instants |
| `Timeouts.ExpiryIsExact` | libusb-1.0/io.c:1743-1747 | a deadline has expired exactly if it is not after the clock in whole microseconds |
| `Timeouts.NeverEarlyNeverMissed` | libusb-1.0/io.c:1743-1747 | no transfer is timed out a microsecond or more early, and each is from its due time on |
| `Timeouts.RemainingIsDifference` | libusb-1.0/io.c:2150-2158 | the time reported is the difference to the deadline, and zero exactly if that has expired |
| `Timeouts.TimerSubIsProper` | libusb-1.0/io.c:2150-2158 | of proper times the difference is a proper time, and the comparison is that of the instants |
| `Timeouts.PollMsRoundsUp` | libusb-1.0/io.c:1822-1826 | rounding up to milliseconds costs less than one |
| `Timeouts.Int32Wraps` | libusb-1.0/io.c:1822-1826 | the conversion to int keeps the value modulo 2^32 |
| `Timeouts.SleepReachesDeadline` | libusb-1.0/io.c:1822-1826 | polling for the rounded-up time makes the deadline expired, overshooting by less than a millisecond |
| `Timeouts.PollTimeoutFitsIff` | libusb-1.0/io.c:1822-1826 | the int passed to poll is the wait computed exactly if the timeval is at most 2147483647 milliseconds |
| `Timeouts.LongWaitOverflows` | libusb-1.0/io.c:1822-1826 | a wait of thirty days becomes negative |
| `Timeouts.WaitIsSmaller` | libusb-1.0/io.c:1910-1914 | the wait is the next deadline's or the caller's, whichever is shorter |
| `Timeouts.DefaultWaitFits` | libusb-1.0/io.c:1994-2000 | libusb_handle_events waits for the next deadline or sixty seconds, whichever is shorter, which always fits |
| `Timeouts.WaitUntilIsValidIff` | libusb-1.0/io.c:1688-1693 | the time passed to the condition wait has a nanosecond part below a second exactly if the parts do not add up to one second |
| `Timeouts.HalfAndHalfIsRejected` | libusb-1.0/io.c:1688-1693 | a concrete clock and timeout for which it has not |
| `IntrusiveList.ListInit` | libusb-1.0/libusbi.h:78-81 | an initialised head is a ring of its own |
| `IntrusiveList.ListEmpty` | libusb-1.0/libusbi.h:76 | true exactly for the ring of the head alone |
| `IntrusiveList.ListAdd` | libusb-1.0/libusbi.h:83-90 | the ring with the entry inserted behind the given node, changing three nodes' links only |
| `IntrusiveList.ListAddTail` | libusb-1.0/libusbi.h:92-100 | the ring with the entry inserted before the given node; before the head is the end |
| `IntrusiveList.ListDel` | libusb-1.0/libusbi.h:102-106 | the ring without the entry |
| `IntrusiveList.LinkedAfter` | libusb-1.0/libusbi.h:83-100 | linking one node in between two neighbours makes the bigger ring |
| `IntrusiveList.UnlinkedAt` | libusb-1.0/libusbi.h:102-106 | bypassing one node makes the smaller ring |
| `IntrusiveList.RemoveInverts` | libusb-1.0/libusbi.h:92-106 | taking out what was put in gives the old list back |
| `FlyingList.PlaceIsStable` | libusb-1.0/io.c:1126-1155 | a new transfer goes right behind all those that may stand before it, earlier submitted ones of the same deadline included |
| `FlyingList.InsertKeepsSorted` | libusb-1.0/io.c:1112-1155 | the list stays sorted by deadline with infinite timeouts last |
| `FlyingList.RemoveKeepsSorted` | libusb-1.0/io.c:1397-1400 | taking a transfer out keeps the list sorted |
| `FlyingList.AddToFlyingList` | libusb-1.0/io.c:1115-1159 | on the ring of nodes: the entry is linked in at that place, and the result says that it is finite and first |
| `FlyingList.ScanKeepsSorted` | libusb-1.0/io.c:1730-1751 | marking transfers keeps the list sorted |
| `FlyingList.ScanTimesOutIff` | libusb-1.0/io.c:1713-1753 | a scan marks and cancels exactly the transfers that are finite, not after the clock in whole microseconds, not marked yet and not watched by the system, and changes nothing else |
| `FlyingList.NothingDueBehind` | libusb-1.0/io.c:1735-1746 | behind an infinite or unexpired transfer nothing is due |
| `FlyingList.HandleTimeouts` | libusb-1.0/io.c:1713-1753 | the scan that stops early times out exactly the transfers that are finite, expired, not timed out yet and not handled by the system, as a full scan would |
| `FlyingList.HandleTimeout` | libusb-1.0/io.c:1700-1711 | a transfer is marked and its cancellation asked for |
| `FlyingList.ScansCompose` | libusb-1.0/io.c:1713-1753 | scanning again later is the same as scanning once then: nothing is timed out twice |
| `FlyingList.FirstUnhandledIsNext` | libusb-1.0/io.c:2123-2144 | the first unhandled transfer carries the earliest deadline to be watched |
| `FlyingList.GetNextTimeout` | libusb-1.0/io.c:2101-2161 | the time to the earliest unhandled deadline; none exactly if no unhandled transfer has one |
| `FlyingList.WaitingServesNextDeadline` | libusb-1.0/io.c:2101-2161 | whoever polls for the reported time finds a transfer to time out when poll returns |
| `Completions.StepAccounts` | libusb-1.0/io.c:1245-1285 | every step keeps a transfer's submissions equal to its callbacks plus its flights |
| `Completions.RunAccounts` | libusb-1.0/io.c:1383-1434 | in every run each successful submission is in flight, at most once, or has had exactly one callback |
| `Completions.RunKeepsInv` | libusb-1.0/io.c:1383-1452 | in every run the list is sorted, each transfer is timed out at most once, a timeout is reported only when due to the microsecond, and a short transfer is never reported completed where that is forbidden |
| `Completions.EverySubmissionIsAccountedFor` | libusb-1.0/io.c:1245-1285 | from an empty context: the account of each transfer, and as many submissions altogether as callbacks and transfers in flight |
| `Completions.FreshIsDueLater` | libusb-1.0/io.c:1083-1110 | a transfer starts with nothing received, unmarked, and with a deadline its timeout after the submission, or none |
| `Completions.RunTells` | libusb-1.0/io.c:1410-1452 | over every run the callbacks are told the backend's answers in order; a completed transfer is an error exactly if short data are forbidden and its bytes are not the payload asked for (eight less for control transfers); a cancellation is a timeout exactly if the timeout asked for it |
| `Completions.RunAccountsBytes` | libusb-1.0/io.c:1383-1434 | over every run the bytes received for a transfer are those told to its callbacks and those of its flight |
| `Completions.OnAndOff` | libusb-1.0/io.c:2310-2327 | the transfers of the handle and the others are all there are |
| `Completions.NoDeviceReportAt` | libusb-1.0/io.c:2291-2329 | one NO_DEVICE report for each transfer, in order |
| `Completions.OffInsert` | libusb-1.0/io.c:2310-2327 | inserting a transfer of another handle commutes with taking out those of this one |
| `Completions.RoundKeepsPromise` | libusb-1.0/io.c:2310-2327 | one round of the disconnect loop ends one transfer and keeps the sum of what is done and what remains |
| `Completions.Context.Submit` | libusb-1.0/io.c:1245-1285 | a submission that the backend refuses leaves the list as it was |
| `Completions.Context.HandleCompletion` | libusb-1.0/io.c:1383-1434 | the transfer leaves the list, its callback is made with the final status, and then what the callback submits is done |
| `Completions.Context.HandleCancellation` | libusb-1.0/io.c:1442-1452 | a cancelled transfer is reported timed out exactly if it was marked so |
| `Completions.Context.HandleDisconnect` | libusb-1.0/io.c:2291-2329 | every transfer of the handle gets one NO_DEVICE callback, in list order; the others keep their order; the loop ends if no callback gets a transfer accepted on the dead handle |
| `TripleBuffer.StreamStaysOk` | libfreenect/src/cameras.c:179-241 | starting, stopping and setting buffers keep a running stream delivering into the user's buffer, or its own |
| `TripleBuffer.SetBufTakesEffect` | libfreenect/src/cameras.c:220-241 | a new buffer takes effect at once or at the next start; setting none fails exactly if the running stream has none of its own |
| `TripleBuffer.CanGoBackIff` | libfreenect/src/cameras.c:179-241 | a running stream can be given back its own buffer exactly if it was started without the user's |
| `TripleBuffer.StepKeepsInv` | libfreenect/examples/glview.c:318-331 | the assertion in rgb_cb never fails, and every step of both threads permutes the three video buffers among themselves and the two depth buffers among themselves |
| `TripleBuffer.FrontIsStable` | libfreenect/examples/glview.c:79-115 | the front buffers are never written, and change places only when the scene is drawn |
| `TripleBuffer.DrawShowsNewest` | libfreenect/examples/glview.c:102-113 | after drawing, front is the newest finished frame |
| `TripleBuffer.DrawWaitsForFrames` | libfreenect/examples/glview.c:83-100 | when drawing goes on: in YUV_RGB exactly if there is something new, else always but during a change of format, which waits for both kinds of frames |
| `TripleBuffer.PixelsAreDelivered` | libfreenect/examples/glview.c:318-331 | a pixel written by the running stream is in the back buffer, and in the frame the callback hands over |
| `TripleBuffer.FramesAreCounted` | libfreenect/examples/glview.c:266-331 | between two draws every finished frame is counted |
| `TripleBuffer.RunKeepsInv` | libfreenect/examples/glview.c:333-370 | the same over every interleaving, stops and restarts included: no buffer is lost, shared or passed to the other stream |
| `TripleBuffer.FrontStaysPut` | libfreenect/examples/glview.c:115-140 | between two draws the pixels in front do not change |
| `TripleBuffer.NoTearing` | libfreenect/examples/glview.c:79-140 | whatever the camera thread does while the scene is uploaded, the pixels are those of one finished frame, the newest when drawing began |
| `TripleBuffer.Viewer.constructor` | libfreenect/examples/glview.c:388-392 | five distinct buffers, the back one given to the stream |
| `TripleBuffer.Viewer.SetVideoBuffer` | libfreenect/src/cameras.c:220-241 | stream_setbuf on the variables of the stream |
| `TripleBuffer.Viewer.RgbCallback` | libfreenect/examples/glview.c:318-331 | the rotation of the back and middle buffers, in the stream too |
| `TripleBuffer.Viewer.DepthCallback` | libfreenect/examples/glview.c:266-316 | the middle depth buffer is overwritten whole |
| `TripleBuffer.Viewer.DrawGLScene` | libfreenect/examples/glview.c:95-115 | the rotation of the middle and front buffers |
| `TripleBuffer.Viewer.StopVideo` | libfreenect/src/cameras.c:785-804 | stopping forgets the stream's buffers but not the user's |
| `TripleBuffer.Viewer.InitStream` | libfreenect/src/cameras.c:179-206 | which buffers a starting stream uses |
| `TripleBuffer.Viewer.StartVideo` | libfreenect/src/cameras.c:694-762 | a restarted stream delivers into the back buffer again |
| `IsoShutdown.StepKeepsInv` | libfreenect/src/usb_libusb10.c:196-220 | every transfer is counted dead, in flight, or lost to a failed submission |
| `IsoShutdown.FreedOnlyWhenQuiet` | libfreenect/src/usb_libusb10.c:263-280 | in every run dead and flying transfers never exceed their number, and they are freed only when none is in flight |
| `IsoShutdown.RunCounts` | libfreenect/src/usb_libusb10.c:196-280 | over every run dead_xfers is the number of completions that came after the end or were not successful, and what is lost are the failed submissions |
| `IsoShutdown.PhasesFollow` | libfreenect/src/usb_libusb10.c:196-280 | transfers are started, then the stream is declared dead once; nothing comes after they are freed |
| `IsoShutdown.ShutdownEndsIff` | libfreenect/src/usb_libusb10.c:268-270 | once dead, no more completions follow than transfers are in flight, and after them the loop is left exactly if no submission ever failed |
| `IsoShutdown.FlyingCanComplete` | libfreenect/src/usb_libusb10.c:268-270 | while anything is in flight a completion is possible |
| `IsoShutdown.PacketsDisjoint` | libfreenect/src/usb_libusb10.c:237-252 | the packets of all transfers lie apart and inside the buffer |
| `IsoShutdown.IsoStream.StartIso` | libfreenect/src/usb_libusb10.c:222-256 | all transfers are submitted, each on its own part of the buffer |
| `IsoShutdown.IsoStream.IsoCallback` | libfreenect/src/usb_libusb10.c:196-220 | the packets of a completed transfer are handed on in order from their own places, and the transfer is resubmitted or counted |
| `IsoShutdown.IsoStream.StopIso` | libfreenect/src/usb_libusb10.c:258-280 | the transfers are freed exactly if none was lost and all have come back |
| `DeviceRefs.StepKeepsCounted` | libusb-1.0/core.c:809-847 | one call of any kind changes a count as it changes the references held, and a device stays on the list exactly while there are any |
| `DeviceRefs.HeldDevicesExist` | libusb-1.0/core.c:823-847 | whoever holds a reference holds a device that has not been freed |
| `DeviceRefs.CountIsHolders` | libusb-1.0/core.c:809-847 | in every state reached by whole calls the count of a device is the number of references held by the application, lists, discoveries and handles together, and the device is in usb_devs exactly if that is positive |
| `DeviceRefs.NetOnePerEntry` | libusb-1.0/core.c:620-637 | a new list adds one to a device's count for each time it is listed |
| `DeviceRefs.DiscoveredDevs.constructor` | libusb-1.0/core.c:454-464 | an empty collection of capacity 8 |
| `DeviceRefs.DiscoveredDevs.Grown` | libusb-1.0/core.c:483-486 | a bigger block with the same contents |
| `DeviceRefs.DiscoveredDevs.Store` | libusb-1.0/core.c:468-493 | the device is appended and no entry is lost; the block is left for a bigger one, and freed, exactly if it is full |
| `DeviceRefs.RoomIsEnough` | libusb-1.0/core.c:446-493 | the capacity comes in steps of eight and is never eight more than needed |
| `DeviceRefs.Context.RefDevice` | libusb-1.0/core.c:809-816 | one reference more |
| `DeviceRefs.Context.UnrefDevice` | libusb-1.0/core.c:823-847 | one reference less; after the call that gives up the last one the device is off the list and freed |
| `DeviceRefs.Context.AllocDevice` | libusb-1.0/core.c:507-532 | a new device has one reference and is first on the list |
| `DeviceRefs.Context.Append` | libusb-1.0/core.c:468-493 | the collection, moved or not, has the device and a reference to it |
| `DeviceRefs.Context.Enumerate` | libusb-1.0/os/linux_usbfs.c:799-845 | a device found is appended, a new one on its own reference only, and one that fails its checks is destroyed |
| `DeviceRefs.SingleBusGrewIff` | libusb-1.0/os/linux_usbfs.c:851-891 | with a single bus the collection is lost exactly if more than eight devices come before the one that fails |
| `DeviceRefs.TenthDeviceFails` | libusb-1.0/os/linux_usbfs.c:851-891 | nine new devices and a tenth that fails are such a bus |
| `DeviceRefs.Context.ScanEntries` | libusb-1.0/os/linux_usbfs.c:1006-1037 | enumeration goes on to the first device that is new and fails its checks; the collection handed back is the current one, also after a failure |
| `DeviceRefs.Context.ScanBus` | libusb-1.0/os/linux_usbfs.c:851-891 | the same of a bus directory, but after a failure the caller keeps the pointer it had, which has been freed exactly if the collection grew |
| `DeviceRefs.Context.ScanBuses` | libusb-1.0/os/linux_usbfs.c:893-930 | one bus after another: the collection handed back has been freed exactly if a bus fails on which it has grown |
| `DeviceRefs.Context.CopyOut` | libusb-1.0/core.c:628-632 | one more reference for every entry of the list returned |
| `DeviceRefs.Context.UnrefAll` | libusb-1.0/core.c:495-503 | one reference less for every entry |
| `DeviceRefs.Context.GetDeviceList` | libusb-1.0/core.c:601-638 | on success every device has one reference more for each time it is listed, however often the collection grew; on failure every count is what it was, unless a bus of usbfs fails on which the collection has grown: then, and only then, the code goes on with freed memory |
| `DeviceRefs.Context.Finish` | libusb-1.0/core.c:618-637 | the list returned takes one reference for each entry, and those of the collection are given up |
| `DeviceRefs.Context.FreeDeviceList` | libusb-1.0/core.c:647-661 | the references of the list are given up, or stay with the application |
| `DeviceRefs.Context.Open` | libusb-1.0/core.c:912-957 | an open handle holds one reference, a failed open none |
| `DeviceRefs.Context.Close` | libusb-1.0/core.c:1011-1022 | closing gives the reference of the handle up |
| `DyingDevices.StepKeepsInvIff` | libusb-1.0/core.c:809-847 | when threads interleave between the locked sections, a section keeps counts, holders and list in agreement exactly if it takes no reference, after a lookup, to a device whose count has dropped to zero |
| `DyingDevices.AllSoundIff` | libusb-1.0/core.c:809-847 | the same of every interleaving of any length |
| `DyingDevices.HeldIsAlive` | libusb-1.0/core.c:823-847 | in a sound state whoever holds a reference holds a device that exists and is not being destroyed |
| `DyingDevices.HoldersCanGoOn` | libusb-1.0/core.c:809-830 | whoever holds a reference can pass it on or give it up |
| `DyingDevices.LookFindsDyingIff` | libusb-1.0/core.c:564-579 | a lookup finds a device without references exactly between the two sections in which its last one is given up |
| `DyingDevices.StaysDead` | libusb-1.0/core.c:823-847 | a count that has dropped to zero stays there |
| `DyingDevices.AliveIffThroughout` | libusb-1.0/core.c:564-579 | what a lookup has found can be referenced exactly if the count has not been zero since |
| `DyingDevices.LateReferenceDangles` | libusb-1.0/core.c:832-846 | a reference taken later than that is left with a device that has been freed, or is by the section already due |
| `DyingDevices.LateLookup` | libusb-1.0/core.c:823-847 | a concrete run in which that happens |
| `DyingDevices.SettledInv` | libusb-1.0/core.c:823-847 | apart from devices being destroyed, every sound state agrees with the invariant of whole calls |
| `DyingDevices.StepIsCall` | libusb-1.0/core.c:809-847 | a section that takes no reference too late has the effect of a whole call, or none, on the devices not being destroyed |
| `DyingDevices.RunIsCalls` | libusb-1.0/core.c:809-847 | every such interleaving has the effect of whole calls one after the other |
| `DyingDevices.CountIsHolders` | libusb-1.0/core.c:809-847 | the count is the number of references held in every such interleaving; a device is listed while that is positive, or until its destruction is over |

## Left out

- BayerDemosaic.ConvertBayerToRgb: needs three lines, because with two the code reads behind the image
  (`BottomIsMirroredIff`).
- BitUnpacking.ConvertPackedTo8Bit: widths below 8 are left out, because the code would shift by a negative
  amount; the callers use 10.
- PacketStreams.PacketStream.Process: the frame buffer does not change while a frame is being collected. A
  stream that collects directly in the user's buffer could be given another one in mid-frame.
- DescriptorParser.ParseConfiguration: a read behind the end of a buffer that is shorter than it announces ends
  the parse with an error of its own; what the code would read there is not modelled, nor is the header that
  parse_interface reads at the very end of the buffer and then ignores.
- Completions.Context.HandleDisconnect: requires that the backend refuses what callbacks submit on the dead
  handle; otherwise the loop need not end.
- DeviceRefs.CountIsHolders: speaks of whole calls, one at a time, and so do all members of `DeviceRefs`. Giving up
  a reference, and looking a device up to reference it, are two locked sections each; what may happen between them
  is in `DyingDevices`, with devices that have numbers of their own instead of session numbers.
- DeviceRefs.Context.GetDeviceList: ends where the code would read freed memory, and takes every realloc to move
  the block. Falling back on usbfs after a failed sysfs scan, and entries that fail before they are enumerated,
  are not modelled.
- BulkUrbs, IsoUrbs: the kernel completes URBs in submission order and does not overfill them, and overflow ends
  the last URB only. Submission of all URBs of a transfer is one step with respect to completions.
- EventLock: writes to the control pipe succeed (the code skips the lock and the broadcast if they do not),
  and callbacks do not handle events themselves. Fairness of the scheduler is not modelled: a sleeper's debtor
  can always go on, which is not to say that it is scheduled.
- Resubmitting a transfer that is in flight, and resubmitting with a zero timeout after a finite one (the old
  deadline would be kept), are excluded.
- Descriptor fields that are already in host byte order (host_endian), as some kernels deliver them.
- Memory exhaustion: every allocation succeeds.
- The timerfd code, which config.h switches off.
- Deadlock between flying_transfers_lock and a transfer's own lock, which submission and timeout handling take
  in opposite orders; each locked section is one step here.
- Contents of depth colours, convert_uyvy_to_rgb, tilt, LED, logging, register programming, file replay, OpenGL
  drawing, the Quartz Composer plug-in and its image providers, the Windows and Darwin backends, and ioctl,
  sysfs, poll, clocks and pthreads themselves: input and output, or easy. Clocks, kernel answers and thread
  schedules are arbitrary inputs.
- The frame buffer size asked for IR_10BIT does not match what its converter writes; here a converter is
  given an array that is large enough.
