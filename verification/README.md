# Protocols and ring arithmetic of the netmap NIC drivers

This project models the parts of the e1000, e1000e and virtio-net drivers (with their netmap
patches) that carry real protocols, and proves what they are for: rings shared between driver and
hardware, serial lines to an EEPROM and a PHY, a callback that must not lose an event, pages that
must not be lost, a semaphore shared with firmware, and filters that must let through what is
wanted. `dafny verify dfyconfig.toml` checks everything.

Code that updates state in place is modelled by methods on arrays and fields, proved against
specification functions or predicates about whole tables; agents that run at the same time are
modelled as state machines whose steps are single accesses to shared state, and the results hold in
every state of every run.

| file | what it models |
|---|---|
| `Bits.dfy` | numbers as bits, most significant first; shared by the serial lines and the size arithmetic |
| `Rings.dfy` | slots of a ring counted from a starting slot |
| `TxPacket.dfy` | how a packet is cut into transmit descriptors under four errata rules, and that the number reserved beforehand always suffices |
| `TxRing.dfy` | the e1000 transmit ring in place: mapping, queueing, reclaiming |
| `TxReclaim.dfy` | transmitter, hardware and reclaimer interleaved access by access |
| `TxWake.dfy` | stopping and waking the transmit queue |
| `RxRing.dfy` | the e1000 receive ring with allocations failing anywhere, and the stream of accepted frames |
| `SpiEeprom.dfy` | the SPI EEPROM at pin level, with the chip as an automaton |
| `Mdio.dfy` | the MDIO line at pin level, with the PHY as an automaton |
| `EthtoolEeprom.dfy` | byte access to the EEPROM, and its checksum |
| `VirtioNapi.dfy` | re-arming the receive callback of virtio-net |
| `VirtioPages.dfy` | page chains of big receive buffers |
| `SwFwSync.dfy`, `SwFwAccess.dfy` | the software/firmware semaphores of the 80003ES2LAN: all agents interleaved, and the driver's accessors against arbitrary interference |
| `NetmapSync.dfy` | netmap ring synchronisation for virtio-net and e1000 |
| `TxFifo.dfy` | the transmit FIFO of the 82547 |
| `RxFilter.dfy`, `VlanFilter.dfy` | receive address filters and the VLAN filter table |

## Where the code does not do what one would expect

Each of these is kept in the model as the code has it, with the inputs on which it shows and the
exact condition under which it does not.

- A segmentation packet shorter than the Ethernet minimum is padded after its length was read, so
  too few descriptors may be reserved for it. Such a packet is covered for every segment size,
  address and bus exactly when its linear area had at least 52 bytes
  (`TxPacket.PaddedCoversExactly`, `TxPacket.PaddedFails`). TCP/IP headers are at least 54 bytes
  long.
- On PCI-X the length of the first descriptor is limited in the linear area alone
  (`drivers/e1000/e1000_main.c:2895-2901`). The first descriptor of every packet keeps to the limit
  exactly when the packet has linear data (`TxPacket.FirstShortExactly`, `TxPacket.LongFirst`).
- The end-address test for fragments leaves out the offset of the fragment within its page
  (`drivers/e1000/e1000_main.c:2956-2958`). On a PCI-X 82544, fragments of every size are safe at
  their DMA address exactly when they start at a multiple of eight in their page or segments have
  one byte (`TxPacket.FragmentAlignment`, `TxPacket.UnalignedExample`).
- With an empty linear area the mapping starts one slot later than the queueing: the first queued
  descriptor shows old contents and the last piece is not queued. Whatever the tables held before,
  the packet is shown exactly when its linear area is not empty (`TxRing.TxRing.ShownExactly`,
  `TxRing.TxRing.EmptyHeadShifts`).
- A queue is left running with 19 slots free, while a packet of seventeen whole pages asks for 38
  (`TxPacket.LargeEstimate`): it may come back as busy from a running queue. Even the 19 are sure
  between packets only as long as reclaim, which looks at the room some time before it wakes the
  queue, has not woken it since the last packet (`TxWake.RunningHasRoom`, `TxWake.StaleWake`).
- On an EEPROM with one address byte, address bit 8 of a write is taken from the start of the range
  alone: the write stores every data exactly if and only if the range does not start below word
  128 and end above it (`SpiEeprom.WriteIsExact`, `SpiEeprom.StraddleExample`).
- Setting EEPROM bytes goes on after a failed read of an end word, whose other byte is then lost to
  what the buffer held, and reports what the write returned; and its one write puts a range that
  starts below word 128 and ends above it elsewhere on a chip with one address byte. A reported
  success is exact for every outcome of the reads exactly when the range does not straddle that
  word and keeps no byte of its end words, but for word 0x3F, which is recomputed
  (`EthtoolEeprom.SetIsExact`, with the failing runs `EthtoolEeprom.KeptByteLost`,
  `EthtoolEeprom.FirstByteLost`, `EthtoolEeprom.StraddlingLost` and
  `EthtoolEeprom.StraddleExample`). When updating the checksum fails, which is ignored, the image
  is valid anyway or is as the write left it, with the old checksum word
  (`EthtoolEeprom.Nvm.SetEeprom`).
- A big buffer can hold more bytes than a packet has fragments for. The packet that is built has no
  more than 17 fragments exactly when the reported length plus 6 is at most 17 pages
  (`VirtioPages.FragmentsFit`, `VirtioPages.TooLongExample`).
- When netmap's receive side meets an invalid buffer index, the buffers before it have been posted
  without being taken from the user: the conservation law is off by exactly their number
  (`NetmapSync.VirtioRx.RxSync`).
- Clearing the VLAN table writes its entries from the lowest up and leaves in the even entries of
  an 82544 what the erratum puts there. After a reset the table and the set of active VLANs agree
  again exactly when each bit left over is that of an active VLAN and, if the firmware's cookie asks
  for VLAN support and its VLAN was active, that VLAN's bit is left over. Without the erratum, that
  is exactly when the cookie does not ask for support or its VLAN was not active
  (`VlanFilter.Vlans.Reconfigure`).
- The page select of an 80003ES2LAN PHY access may be reported done before it takes effect. With the
  workaround on, a late one is found out only if the read-back comes through: the driver goes on
  when it fails (`drivers/e1000e/80003es2lan.c:379-402`). Whatever pages were selected before, an
  access the driver goes on to gets to the page asked for exactly when the select reported an
  error, or was late by no more accesses than the workaround allows, or was read back
  (`SwFwAccess.Port.RightPage`). Otherwise there is a write that succeeds on the wrong page
  (`SwFwAccess.Port.WriteGoesAstray`).

## Model

| member | source | states |
|---|---|---|
| TxPacket.LimitVersusPower | drivers/e1000/e1000_main.c:3184-3188 | the per-descriptor limit is 4096, or four segments where that is less; it is a multiple of four in [2^pwr, 2^(pwr+1)), and when it is not a multiple of eight it stays at least 2^pwr after losing a dword |
| TxPacket.Chunk | drivers/e1000/e1000_main.c:2876-2908 | one descriptor takes between one byte and the limit, never more than is left; on PCI-X the first has at most 2015 bytes; under the dword rule one of more than four bytes ends where address bit 2 is set |
| TxPacket.ChopShape | drivers/e1000/e1000_main.c:2874-2929 | the descriptors of one buffer tile it exactly, in order, without gap or overlap, and obey the size and alignment rules |
| TxPacket.ChopBlocks | drivers/e1000/e1000_main.c:2938-2976 | without the dword rule a buffer goes out as full blocks and a last block, which leaves its last four bytes to a sentinel exactly where one is wanted and it has more than eight |
| TxPacket.HeadBlocks | drivers/e1000/e1000_main.c:2874-2929 | without the dword rule the linear area goes out as its first descriptor, short by the trim, the sentinel and the PCI-X limit as they apply, and the blocks of the rest |
| TxPacket.SentinelAtEnd | drivers/e1000/e1000_main.c:2888-2892 | every segmentation packet whose last buffer is not empty ends with a descriptor of at most eight bytes, on every bus and MAC |
| TxPacket.SentinelExactly | drivers/e1000/e1000_main.c:2946-2951 | without the dword rule that descriptor has exactly four bytes, unless the last block of the last buffer has no more than eight, which then is that descriptor |
| TxPacket.TrimmedFirst | drivers/e1000/e1000_main.c:2881-2886 | the first descriptor of a linear packet that is not segmented and follows a segmentation packet is at least four bytes short of what it could take; off PCI-X by exactly that, and no other such first descriptor is short |
| TxPacket.FourSegments | drivers/e1000/e1000_main.c:3177-3188 | no descriptor has more than 4096 bytes, and none of a segmentation packet makes more than four segments |
| TxPacket.PiecesShape | drivers/e1000/e1000_main.c:2874-2977 | the linear area and each fragment are tiled by their own descriptors; the first descriptor of a packet with linear data is short enough on PCI-X; on a PCI-X 82544 the linear area is dword safe at its DMA address and each fragment in the address the code tests |
| TxPacket.FirstShortExactly | drivers/e1000/e1000_main.c:2872-2977 | on PCI-X the first descriptor of every packet with so much linear data is short enough if and only if there is linear data |
| TxPacket.LongFirst | drivers/e1000/e1000_main.c:2931-2977 | a page without linear data goes out as one descriptor of 4096 bytes |
| TxPacket.FragmentAlignment | drivers/e1000/e1000_main.c:2953-2962 | on a PCI-X 82544, fragments of every size are dword safe at their DMA address if and only if they start at a multiple of eight in their page or segments have one byte |
| TxPacket.UnalignedExample | drivers/e1000/e1000_main.c:2953-2962 | eight bytes at offset 4 of a page go out as one descriptor that ends in an evenly aligned dword |
| TxPacket.PlainCount | drivers/e1000/e1000_main.c:2938-2976 | without the dword rule a buffer takes at most len / 2^pwr + 1 descriptors, and one more for the sentinel |
| TxPacket.AlignedChunk | drivers/e1000/e1000_main.c:2959-2962 | with such a limit a chunk that is not the last keeps its full size and the alignment |
| TxPacket.AlignedCount | drivers/e1000/e1000_main.c:2959-2962 | with a limit that is a multiple of eight, a buffer that starts aligned takes no descriptor more than its blocks |
| TxPacket.DwordCount | drivers/e1000/e1000_main.c:2938-2976 | under the dword rule a buffer takes at most one more descriptor than the estimate, for every limit and alignment |
| TxPacket.HeadCount | drivers/e1000/e1000_main.c:2874-2929 | the bound for the linear area with trim, sentinel, PCI-X and dword rules together |
| TxPacket.FragCount | drivers/e1000/e1000_main.c:2931-2977 | the bound for all fragments against the per-fragment estimates |
| TxPacket.EstimateCovers | drivers/e1000/e1000_main.c:3223-3248 | context and data descriptors never exceed the reservation, for any head length, fragments, segment size, alignment, bus and MAC |
| TxPacket.LargeEstimate | drivers/e1000/e1000_main.c:3241-3254 | a packet of seventeen whole pages asks for 38 slots, twice what a queue is sure to have when it is left running |
| TxPacket.Prepare | drivers/e1000/e1000_main.c:3166-3215 | padding takes a short packet to exactly 60 bytes and the 82544 pull moves bytes within one; unless it was padded, its length is unchanged and the length the reservation uses is that of its linear area |
| TxPacket.HeaderStaysWhole | drivers/e1000/e1000_main.c:3190-3215 | where headers fill the linear area of a segmentation packet on an 82544, the pull makes the first descriptor hold them whole, even when the dword rule shortens it |
| TxPacket.EatTotal | drivers/e1000/e1000_main.c:3206-3214 | pulling bytes into the linear area takes exactly that many from the fragments |
| TxPacket.ReservationCovers | drivers/e1000/e1000_main.c:3166-3253 | the reservation covers every packet as prepared, but for padded segmentation packets with less than 52 bytes of linear data |
| TxPacket.PaddedFails | drivers/e1000/e1000_main.c:3170-3231 | below 52 bytes there is a padded segmentation packet whose descriptors exceed its reservation |
| TxPacket.PaddedCoversExactly | drivers/e1000/e1000_main.c:3170-3231 | padded packets are covered for every segment size, address and bus if and only if their length before was at least 52 |
| TxRing.TxRing.MapHead | drivers/e1000/e1000_main.c:2872-2929 | the linear area's pieces, as specified, lie in the next slots, each slot watching itself, and nothing else changed |
| TxRing.TxRing.MapFrags | drivers/e1000/e1000_main.c:2931-2977 | the same for the fragments behind them |
| TxRing.TxRing.TxMap | drivers/e1000/e1000_main.c:2859-2988 | the pieces, whose sizes ChopBlocks, HeadBlocks, the sentinel and the trim results are about, lie in consecutive slots; their number is returned, the last slot holds the skb and the first watches the last |
| TxRing.TxRing.TxQueue | drivers/e1000/e1000_main.c:3039-3065 | exactly the mapped slots are copied to descriptors with clear reports, only the last asks for one, and the tail follows |
| TxRing.TxRing.TxContext | drivers/e1000/e1000_main.c:2778-2798 | the context takes one slot that watches itself; only that slot changes |
| TxRing.TxRing.EmptyHeadShifts | drivers/e1000/e1000_main.c:2924-2942 | with an empty linear area the first queued descriptor shows old contents, the others the pieces one late, and the slot of the last piece is not queued |
| TxRing.TxRing.ShownExactly | drivers/e1000/e1000_main.c:2924-3049 | the queued descriptors show the packet, whatever the tables held before, if and only if its linear area is not empty |
| TxRing.TxRing.CountDescriptors | drivers/e1000/e1000_main.c:3223-3248 | the counting loop computes the reservation that EstimateCovers is about |
| TxRing.TxRing.MaybeStopTx | drivers/e1000/e1000_main.c:3109-3139 | uninterrupted, the queue is stopped exactly when there is too little room |
| TxRing.TxRing.Transmit | drivers/e1000/e1000_main.c:3269-3297 | the descriptors of a packet with a linear area show its pieces; with room in the ring its slots join those in flight, whole, and no slot in flight is touched; with an empty linear area the descriptors are those one late |
| TxRing.TxRing.XmitFrame | drivers/e1000/e1000_main.c:3142-3308 | a packet is sent exactly when it could be changed as needed, the ring has two slots more than its reservation and its headers could be copied, and otherwise the ring is as it was; sent, its descriptors show it, and if the reservation covers it, which it does but for padded segmentation packets with less than 52 bytes of linear data, it goes out whole with exactly the slots it needs and at least two left unused; after a send the queue runs on exactly if it ran before and has room for a packet with every fragment |
| TxRing.TxRing.HardwareFinishes | drivers/e1000/e1000_main.c:3051-3051 | a report appears only on a slot that asks for it, and the ring stays sound |
| TxRing.TxRing.Reported | drivers/e1000/e1000_main.c:3874-3880 | the watched slot reports if and only if the next packet is finished, whatever the tables hold beyond the ring's contents |
| TxRing.TxRing.CleanPacket | drivers/e1000/e1000_main.c:3881-3902 | a packet's slots are cleared up to and including its last, and its skb is freed once |
| TxRing.TxRing.CleanTxIrq | drivers/e1000/e1000_main.c:3863-3928 | exactly the finished packets at the head of the ring are freed, in order of submission, and the queue is woken exactly when enough room is left, the link is up and the adapter is not going down |
| TxReclaim.NextInv | drivers/e1000/e1000_main.c:2778-3065 | each single access of transmitter, hardware and reclaimer keeps the ring sound, reports clear on every unpublished slot included |
| TxReclaim.ReportMeansFinished | drivers/e1000/e1000_main.c:3877-3880 | any report in the ring comes from the last slot of a finished packet that is not yet freed |
| TxReclaim.FreesOnlyFinished | drivers/e1000/e1000_main.c:3879-3902 | in every interleaving reclaim frees only slots the hardware has finished, even when the watched slot was read before it was set |
| TxReclaim.FreedOnceInOrder | drivers/e1000/e1000_main.c:3879-3908 | each packet is freed once, in order of submission: freed and remaining make up what was submitted |
| TxReclaim.FinishedIsSeen | drivers/e1000/e1000_main.c:3904-3905 | a finished packet at the head is never overlooked |
| TxReclaim.FinishedIsFreed | drivers/e1000/e1000_main.c:3873-3908 | from where it reads a watch with the next packet finished, the steps of reclaim alone free that packet, in whatever state the others are |
| TxReclaim.BuildsOnFreeSlots | drivers/e1000/e1000_main.c:2874-3049 | the transmitter never writes a slot that is published and not freed |
| TxWake.NextInv | drivers/e1000/e1000_main.c:3109-3139 | each step of stopping, rechecking, sending, freeing and waking keeps the invariant about who looks at the ring next |
| TxWake.AsleepMeansShort | drivers/e1000/e1000_main.c:3911-3928 | a stopped queue that nobody is about to look at has less room than its packet wants or than the threshold |
| TxWake.NoLostWakeUp | drivers/e1000/e1000_main.c:3109-3139 | such a queue has packets in its ring, so a later reclaim will look again |
| TxWake.RunningHasRoom | drivers/e1000/e1000_main.c:3294-3295 | between two packets a running queue has room for a packet with every fragment, unless reclaim has woken it since the last was queued |
| TxWake.StaleWake | drivers/e1000/e1000_main.c:3912-3922 | a run in which reclaim finds room, a packet takes it and stops the queue, and reclaim then wakes it with nine slots free |
| TxWake.TwoStayFree | drivers/e1000/e1000_main.c:3250-3254 | behind every packet at least two slots stay free |
| RxRing.RxRing.RefillOne | drivers/e1000/e1000_main.c:4606-4687 | one more slot has a mapped buffer whose address its descriptor holds, or, on failure, nothing changed |
| RxRing.RxRing.AllocRxBuffers | drivers/e1000/e1000_main.c:4593-4702 | up to the given number of slots are given to the hardware, fewer only where a slot stayed without a buffer; the tail is one behind |
| RxRing.RxRing.Judge | drivers/e1000/e1000_main.c:4450-4497 | what the stack has been given is what the consumed stream amounts to, and the discarding flag says whether it ends mid-frame; what that means in bytes is StackGets |
| RxRing.RxRing.CleanOne | drivers/e1000/e1000_main.c:4408-4500 | a frame is consumed and its slot cleared, or nothing is consumed because its packet could not be built; the packet is a copy of a short frame or is built around the buffer, which then has left the ring |
| RxRing.RxRing.CleanRxIrq | drivers/e1000/e1000_main.c:4379-4517 | whatever the budget, the arrivals and the failures, the ring stays sound, the stream grows by a prefix of the arrivals and the stack has exactly the accepted frames; with budget left and no request for memory refused nothing is left unseen, and with none refused all slots but one are posted |
| RxRing.RxRing.TailBehind | drivers/e1000/e1000_main.c:4685-4700 | RDT is one slot behind next_to_use |
| RxRing.RxRing.OwnedSlots | drivers/e1000/e1000_main.c:4678-4682 | every slot the hardware owns has a mapped buffer, its address in the descriptor, and a clear report; no packet has been built around that buffer and no other slot has it |
| RxRing.RxRing.NeverOvertaken | drivers/e1000/e1000_main.c:4513-4515 | refilling never overtakes cleaning, and the head is as far ahead as there are unseen frames |
| RxRing.CutAnywhere | drivers/e1000/e1000_main.c:4402-4511 | however a stream is cut by budgets, its parts amount to what one uncut pass accepts |
| RxRing.AcceptedExactly | drivers/e1000/e1000_main.c:4450-4483 | a packet is given to the stack if and only if it is a frame that ends in its buffer, follows one that did, and passes the error rules; PassesMeans and DataExactly say what rules and length are |
| RxRing.PassesMeans | drivers/e1000/e1000_hw.h:2474-2488 | a frame in one buffer passes if and only if it has no error, or errors are wanted, or on a TBI chip a CRC error is its only one, its last byte is the carrier extension and its size without that is one to be expected |
| RxRing.DataExactly | drivers/e1000/e1000_main.c:4466-4488 | the bytes handed over are the payload, with the four CRC bytes exactly when they are wanted, if and only if the frame was extended just when that is forgiven |
| RxRing.StackGets | drivers/e1000/e1000_main.c:4402-4497 | where link partners extend just the frames for which that is forgiven, the stack gets exactly the arrivals that are for it, in order, each with its payload and, if wanted, its CRC bytes; frames in several buffers get it nothing |
| Bits.ValueLow | drivers/e1000/e1000_hw.c:3602-3646 | reading back the low bits sent gives the number modulo the power of two |
| Bits.LowTop | drivers/e1000/e1000_hw.c:3612-3641 | the bits picked with a mask from the top are the low bits, most significant first |
| SpiEeprom.Eeprom.ShiftOut | drivers/e1000/e1000_hw.c:3602-3646 | the chip takes in the low bits of the data, most significant first, for any data and count |
| SpiEeprom.Eeprom.ShiftIn | drivers/e1000/e1000_hw.c:3653-3685 | the result is the value of the bits the chip drives, one for each clock pulse |
| SpiEeprom.Eeprom.Standby | drivers/e1000/e1000_hw.c:3745-3786 | the chip obeys what it has taken in and starts afresh |
| SpiEeprom.Eeprom.Acquire | drivers/e1000/e1000_hw.c:3694-3739 | the chip is selected and untouched exactly when one of the 1001 looks finds access granted; otherwise access is not requested any more |
| SpiEeprom.Eeprom.Release | drivers/e1000/e1000_hw.c:3794-3834 | the chip obeys and is idle, and access is given back |
| SpiEeprom.Eeprom.Ready | drivers/e1000/e1000_hw.c:3840-3873 | it succeeds exactly when the chip is done by the end of the last of the thousand looks at its status; then it is not busy |
| SpiEeprom.WriteObeyed | drivers/e1000/e1000_hw.c:4121-4145 | the bits of a write command make the chip do a page write at the word's address |
| SpiEeprom.SamePage | drivers/e1000/e1000_hw.c:4157-4165 | words up to the page's end have addresses in a row, and the driver's test finds that end |
| SpiEeprom.Eeprom.WriteSpi | drivers/e1000/e1000_hw.c:4114-4170 | it succeeds exactly when the chip is done in time before each page; once the chip is deselected all words are stored where the driver means them to go; on failure a prefix of them that ends with a page |
| SpiEeprom.Eeprom.DoWrite | drivers/e1000/e1000_hw.c:4065-4105 | it succeeds exactly for a range inside the memory, with access granted and the chip done in time before each page, so always when no page write takes too long; then each page has been written once; a range outside the memory, or access not granted, changes nothing |
| SpiEeprom.Eeprom.DoRead | drivers/e1000/e1000_hw.c:3891-3982 | it succeeds exactly for a range inside the memory, with access granted and the chip done in time, and gives the words of the range, wherever it lies |
| SpiEeprom.StoredExactly | drivers/e1000/e1000_hw.c:4136-4145 | a range that does not straddle word 128 is stored exactly and no other word changes |
| SpiEeprom.UpperUntouched | drivers/e1000/e1000_hw.c:4137-4145 | a range that starts below word 128 on a small chip never reaches the words above |
| SpiEeprom.WriteIsExact | drivers/e1000/e1000_hw.c:4114-4170 | every data is stored exactly, and nothing else changed, if and only if the range does not straddle word 128 on a chip with one address byte |
| SpiEeprom.StraddleExample | drivers/e1000/e1000_hw.c:4137-4145 | two words written at word 127 of a small chip: the second lands in word 0 |
| SpiEeprom.Eeprom.WriteThenRead | drivers/e1000/e1000_hw.c:3928-4170 | with access always granted and no page write taking too long both succeed, and then the data comes back, but for straddling ranges |
| Mdio.Mdio.ShiftOut | drivers/e1000/e1000_hw.c:2713-2751 | the PHY sees the low bits of the data at rising edges, most significant first, for any data and count |
| Mdio.CommandBits | drivers/e1000/e1000_hw.c:2930-2933 | the shifted command words are the read header and the write frame of section 22.2.4.5 of IEEE 802.3 |
| Mdio.WriteFrameObeyed | drivers/e1000/e1000_hw.c:3045-3058 | after a preamble, a write frame changes the addressed register of the addressed PHY and nothing else |
| Mdio.ReadHeader | drivers/e1000/e1000_hw.c:2912-2933 | after a preamble the PHY understands the read header |
| Mdio.Mdio.ShiftIn | drivers/e1000/e1000_hw.c:2759-2804 | the register the PHY presents is rebuilt and the frame ends |
| Mdio.Mdio.WritePhyReg | drivers/e1000/e1000_hw.c:3030-3062 | a PHY at address 1 has exactly the register asked for changed, any other PHY none; a register number above 31 is refused |
| Mdio.Mdio.ReadPhyReg | drivers/e1000/e1000_hw.c:2900-2942 | the register asked for is read and none changes |
| EthtoolEeprom.Le16Memory | drivers/e1000/e1000_ethtool.c:477-479 | after conversion the memory holds the low byte first on a host of either byte order, and converting twice changes nothing |
| EthtoolEeprom.Nvm.GetEeprom | drivers/e1000/e1000_ethtool.c:440-485 | success gives the bytes of the image from any offset; it succeeds exactly when there is memory and the one read, or each of the reads, lies in the image and comes through |
| EthtoolEeprom.Nvm.Patch | drivers/e1000/e1000_ethtool.c:503-535 | what is to be written is the words got from the EEPROM, or what the buffer held where none were, with the bytes stored in them, at any offset and length |
| EthtoolEeprom.PlacedOnChip | drivers/e1000/e1000_hw.c:4114-4170 | the image that a write leaves is what the memory of the SPI chip holds after it |
| EthtoolEeprom.Nvm.SetEeprom | drivers/e1000/e1000_ethtool.c:487-547 | it reports success exactly when the write comes through; then each word that was meant, made of the bytes and the end words that were got, is where the part puts it and no other word has changed, but for word 0x3F, which is recomputed for a range that begins at or below it; the image validates or the checksum could not be updated; on failure the first few words have been written |
| EthtoolEeprom.SetIsExact | drivers/e1000/e1000_ethtool.c:514-539 | a reported success stores the bytes and leaves every other byte as it was, whatever reads fail, if and only if the range keeps no byte of its end words but of word 0x3F and does not straddle word 128 of a chip with one address byte |
| EthtoolEeprom.KeptByteLost | drivers/e1000/e1000_ethtool.c:514-539 | for every other range that does not straddle there is a run that reports success and has lost a byte |
| EthtoolEeprom.FirstByteLost | drivers/e1000/e1000_ethtool.c:514-539 | a range begins in the middle of a word whose read fails: the byte before it becomes what the buffer held |
| EthtoolEeprom.StraddlingLost | drivers/e1000/e1000_ethtool.c:533-535 | a range that straddles word 128 of a chip with one address byte leaves that word as it was, whatever the reads do |
| EthtoolEeprom.StraddleExample | drivers/e1000/e1000_ethtool.c:533-535 | eight bytes at offset 252 of a small chip with every access coming through: the last four land at the start of the image |
| EthtoolEeprom.Nvm.SetThenGet | drivers/e1000/e1000_ethtool.c:440-547 | what was set with success is got back, outside word 0x3F and but for a straddling range, whatever reads failed |
| EthtoolEeprom.Nvm.UpdateChecksum | drivers/e1000/e1000_hw.c:4026-4044 | it succeeds exactly when all 64 accesses come through; the image then validates and only word 0x3F differs, and a failure that leaves it invalid has changed nothing |
| EthtoolEeprom.Nvm.ValidateChecksum | drivers/e1000/e1000_hw.c:3992-4017 | it succeeds if and only if every read succeeds and the first 64 words sum to 0xBABA modulo 2^16 |
| VirtioNapi.NextInv | drivers/virtio_net.c:695-798 | each step of device, interrupts, polls, busy polls and the refill worker keeps the invariant that used buffers are noticed |
| VirtioNapi.NoLostEvent | drivers/virtio_net.c:765-798 | used buffers are never pending while NAPI is idle, no interrupt is in flight, the device has made its check and no poll or worker is to look again |
| VirtioNapi.EventLeadsToPoll | drivers/virtio_net.c:783-794 | with used buffers pending, each of the things still under way does schedule a poll |
| VirtioNapi.LettingGo | drivers/virtio_net.c:784-786 | whoever lets go of NAPI has enabled callbacks first and will see buffers used since |
| VirtioNapi.RecheckIsNeeded | drivers/virtio_net.c:786-787 | a run in which only the last look finds a used buffer |
| VirtioPages.Queue.GivePages | drivers/virtio_net.c:195-203 | the whole chain becomes the front of the pool |
| VirtioPages.Queue.GetAPage | drivers/virtio_net.c:205-216 | the first page of the pool, unlinked, or a new one only when the pool is empty; none exactly when memory has none either |
| VirtioPages.Queue.AddRecvbufBig | drivers/virtio_net.c:572-618 | a chain of 18 pages is posted exactly when pool and memory have that many and the queue has room, otherwise none; the ranges for the device to write to are the header and then the chain's pages in its order; no page is lost or shared |
| VirtioPages.Queue.AddFrags | drivers/virtio_net.c:314-321 | the fragments tile the bytes over the chain page by page, and the loop never leaves the chain |
| VirtioPages.BytesArrive | drivers/virtio_net.c:260-321 | byte n of the packet that is built, copied or in a fragment, is byte n of what the device wrote behind the header, wherever the ranges put it |
| VirtioPages.FragmentsFit | drivers/virtio_net.c:309-321 | a packet that is built has at most 17 fragments if and only if the reported length plus 6 is at most 17 pages |
| VirtioPages.TooLongExample | drivers/virtio_net.c:300-321 | a reported length of 17 pages is not dropped and makes eighteen fragments |
| VirtioPages.Queue.PageToSkb | drivers/virtio_net.c:252-326 | the packet has the first bytes copied and the rest in fragments, and the pages it does not need go back to the pool |
| VirtioPages.Queue.ReceiveBuf | drivers/virtio_net.c:338-355 | whatever length the device reports, each page of the chain ends up in the packet or in the pool; the packet is built exactly when there is memory and the length is neither below the headers nor above what can be copied and 17 pages |
| SwFwSync.StepInv | drivers/e1000e/80003es2lan.c:291-348 | each access of any agent keeps every mark that of its holder |
| SwFwSync.MutualExclusion | drivers/e1000e/80003es2lan.c:291-348 | in every interleaving a resource has at most one holder, marked on that holder's side only |
| SwFwSync.NoStrayMark | drivers/e1000e/80003es2lan.c:291-348 | software and firmware marks are never both set, and every mark has a holder |
| SwFwSync.WhoWrites | drivers/e1000e/80003es2lan.c:320-345 | releasing clears exactly the caller's marks, taking sets exactly marks that were clear, and no other step writes the register |
| SwFwSync.FailureLeavesNothing | drivers/e1000e/80003es2lan.c:299-318 | no step of a failed attempt, from its start to its end, has written the register, and it ends without a mark and without the hardware semaphore |
| SwFwSync.OnlyHolderTouches | drivers/e1000e/80003es2lan.c:1208-1263 | while an agent holds the CSR resource no other names or writes a Kumeran register |
| SwFwSync.ReadsItsOwn | drivers/e1000e/80003es2lan.c:1208-1231 | a Kumeran read gets the register it named, as it was when it was named, whatever other agents do in between |
| SwFwAccess.Port.Acquire | drivers/e1000e/80003es2lan.c:291-326 | under arbitrary interference it succeeds exactly when an attempt gets the hardware semaphore and finds the resources free, all attempts before having got it in vain; the resources become the caller's or its marks stay, the marks of the others are as they left them, and the hardware semaphore is put back |
| SwFwAccess.Port.AcquiresExactly | drivers/e1000e/80003es2lan.c:299-318 | the resources are acquired if and only if one of the fifty attempts finds them free, it and all before it having got the hardware semaphore; the first such attempt acquires them |
| SwFwAccess.Port.Mark | drivers/e1000e/80003es2lan.c:320-323 | under the hardware semaphore the caller's marks are added and those of the others do not change |
| SwFwAccess.Port.Unmark | drivers/e1000e/80003es2lan.c:343-345 | under the hardware semaphore the caller's marks are removed and those of the others do not change |
| SwFwAccess.Port.Release | drivers/e1000e/80003es2lan.c:336-348 | exactly the given resources are given up and the marks of the others are as they left them |
| SwFwAccess.Port.AcquireNvm | drivers/e1000e/80003es2lan.c:255-269 | resource and grant together, or neither; it succeeds exactly when the resource is acquired and access granted, and tells the two failures apart |
| SwFwAccess.Port.ReleaseNvm | drivers/e1000e/80003es2lan.c:277-281 | both are given up |
| SwFwAccess.Port.AskKmrn | drivers/e1000e/80003es2lan.c:1216-1226 | with the resource held, the named register is returned as it was and none changes |
| SwFwAccess.Port.TellKmrn | drivers/e1000e/80003es2lan.c:1253-1258 | with the resource held, exactly the named register is written |
| SwFwAccess.Port.ReadKmrn | drivers/e1000e/80003es2lan.c:1208-1231 | it succeeds exactly when the resource is acquired; the register asked for is returned as the others left it then, none is changed, and the resource is given back on every path |
| SwFwAccess.Port.WriteKmrn | drivers/e1000e/80003es2lan.c:1243-1263 | it succeeds exactly when the resource is acquired; exactly the register asked for then differs from what the others left, and the resource is given back |
| SwFwAccess.Port.SelectPage | drivers/e1000e/80003es2lan.c:369-401 | it succeeds exactly when the select reports no error and a read-back that comes through shows the page; the next access then finds that page, or the one selected before if the select is later than that |
| SwFwAccess.Port.RightPage | drivers/e1000e/80003es2lan.c:369-401 | whatever pages were selected before, an access that the driver goes on to finds the page asked for if and only if the select reported an error, or was late by no more accesses than there are in between, or was read back |
| SwFwAccess.Port.ReadPhyReg | drivers/e1000e/80003es2lan.c:358-417 | it succeeds exactly when the resource is acquired, the page select succeeds and the access comes through; it returns the register that this access got to in the PHY as the others left it when the resource was acquired; no register changes, and the resource is given back on every path |
| SwFwAccess.Port.WritePhyReg | drivers/e1000e/80003es2lan.c:427-486 | it succeeds exactly when the resource is acquired, the page select succeeds and the access comes through; exactly the register that this access got to is written, and none if the page select failed |
| SwFwAccess.Port.WriteGoesAstray | drivers/e1000e/80003es2lan.c:427-486 | a page select that comes late and is not found out: the write succeeds and changes the register of that number on the page selected before |
| NetmapSync.HeadAcceptedMeans | drivers/netmap/netmap.c:1510-1535 | the check of a head, with its cases, says that the head is not beyond the tail on the ring |
| NetmapSync.VirtioTx.TxSync | drivers/virtio_netmap.h:334-439 | in flight plus free slots stay N - 1; the slots up to the head are sent, or as many as the queue has room for; the tail moves past exactly the slots that came back, one correction of its wrap being enough; the next round accepts exactly the heads not beyond that tail, and a refused head changes nothing |
| NetmapSync.VirtioRx.constructor | drivers/virtio_netmap.h:611-636 | N - 1 buffers are posted, or as many as the queue holds |
| NetmapSync.VirtioRx.Repost | drivers/virtio_netmap.h:535-563 | adding a buffer never fails, and posting stops exactly at the first invalid buffer index |
| NetmapSync.VirtioRx.RxSync | drivers/virtio_netmap.h:444-579 | posted plus user-held slots stay the initial post, and hwcur is rightly set to the head; on an early end the excess is exactly the slots before the bad one |
| NetmapSync.E1000Tx.HandOver | drivers/e1000/if_e1000_netmap.h:109-155 | exactly the released slots are copied to their descriptors, addresses matching their buffers, and no descriptor of the NIC is written |
| NetmapSync.E1000Tx.HandedMeans | drivers/e1000/if_e1000_netmap.h:109-150 | a slot handed over has a descriptor for its buffer, of its length cut to a buffer, that asks for a report if the user does; every other slot is as it was |
| NetmapSync.E1000Tx.ReportComes | drivers/e1000/if_e1000_netmap.h:118-121 | from every slot on, within half a turn of the ring a report is asked for whatever the user wants |
| NetmapSync.E1000Tx.Reclaim | drivers/e1000/if_e1000_netmap.h:165-170 | flying plus free slots are N - 1 |
| NetmapSync.E1000Tx.TxSync | drivers/e1000/if_e1000_netmap.h:81-174 | what is in flight grows by the slots released and shrinks by those sent, TDH moves past the latter, TDT never catches TDH; the tail is brought up to date exactly when that is forced or the user waits at it; the next round accepts exactly the heads not beyond the tail; nothing changes for a refused head or without a carrier |
| TxFifo.LargestFits | drivers/e1000/e1000_main.c:619-628 | the largest frame fits the FIFO a reset makes for it, so one subtraction is enough |
| TxFifo.Fifo.Workaround | drivers/e1000/e1000_main.c:3083-3107 | the head is the sum of what passed since the reset, each packet with its header in whole 16-byte units, modulo the size, and below it; in half duplex a packet that passes overruns the end by less than 0x3E0; a packet is held back exactly when stalled or too long |
| TxFifo.Fifo.Reset | drivers/e1000/e1000_main.c:619-629 | a new size for the largest frame, with the head at the start and no stall |
| TxFifo.Fifo.StallTask | drivers/e1000/e1000_main.c:2388-2417 | the stall ends exactly when the FIFO has run empty, with the head at the start |
| TxFifo.Fifo.RetryPasses | drivers/e1000/e1000_main.c:2397-2412 | a packet held back passes once the pointers have been reset |
| RxFilter.HashAgrees | drivers/e1000/e1000_hw.c:4325-4357 | the driver's hash is the twelve address bits the hardware selects, for each filter type |
| RxFilter.RarInjective | drivers/e1000/e1000_hw.c:4370-4374 | distinct addresses have distinct register contents, so a register matches no other address |
| RxFilter.Filters.LetsInExactly | drivers/e1000/e1000_main.c:2307-2357 | with the tables loaded, an address is let in if and only if the modes let it in, it is the station's, it has a register, or it is a multicast address with the twelve hash bits of one that found no register |
| RxFilter.Filters.WriteTable | drivers/e1000/e1000_main.c:2348-2359 | written from the top, the table is as meant even when an odd entry spoils the one below |
| RxFilter.Filters.SetRxMode | drivers/e1000/e1000_main.c:2267-2366 | every listed address is let in, however long the lists, and no other but the station's and multicast addresses with the hash bits of one that found no register; only want of memory stops it |
| VlanFilter.Vlans.WriteVfta | drivers/e1000/e1000_hw.c:4413-4427 | exactly one entry changes, erratum or not |
| VlanFilter.Vlans.AddVid | drivers/e1000/e1000_main.c:4975-4999 | the VLAN's bit and its membership are set together, or neither for the firmware's VLAN; other bits stay |
| VlanFilter.Vlans.KillVid | drivers/e1000/e1000_main.c:5001-5025 | both are cleared together and filtering ends with the last VLAN |
| VlanFilter.Vlans.UpdateMngVlan | drivers/e1000/e1000_main.c:329-355 | table and set change together, and only by the cookie's VLAN added and the VLAN that was the firmware's removed; filtering stays on or off |
| VlanFilter.Vlans.AnyChange | drivers/e1000/e1000_main.c:4975-5025 | about each VLAN that table and set agree on they still do after any change, so they agree about all after any sequence of changes |
| VlanFilter.Vlans.ClearVfta | drivers/e1000/e1000_hw.c:4433-4449 | the bits left set are exactly those that the erratum puts into an even entry when the odd one above it is cleared |
| VlanFilter.Vlans.Reconfigure | drivers/e1000/e1000_main.c:5027-5037 | after a reset and restore table and set agree if and only if each bit left over belongs to an active VLAN and, when the cookie asks for VLAN support and its VLAN was active, its bit is left over; without the erratum, if and only if the cookie does not ask for support or its VLAN was not active; filtering is on if a VLAN is active outside promiscuous mode |

## Left out

- TxRing.TxRing.XmitFrame: does not say what happens to packets in flight when a padded segmentation packet exceeds its reservation and the ring; the 82547 FIFO workaround in it is modelled in TxFifo alone.
- TxRing.TxRing.TxMap: assumes that DMA mapping succeeds; the rollback after a failure is not modelled.
- TxRing.TxRing.TxContext: the fields of the offload context, and the offload and VLAN bits of data descriptors, are not modelled.
- TxPacket.ChopShape: states alignment in terms of the address the code tests; FragmentAlignment says when that is the DMA address's.
- TxWake.NextInv: takes the two reads of next_to_clean in the macro that counts free slots as one.
- RxRing.RxRing.CleanRxIrq: the jumbo variant of the receive path, checksum flags and VLAN tags are not modelled; arrivals happen between turns of the loop.
- SpiEeprom.Eeprom.DoWrite: the Microwire chips and the CE4100 flash are not modelled; the time that a page write takes is counted in clock pulses on the line, so that the delays between two looks at the status do not count; what the chip drives while its output is undefined is taken as low.
- SpiEeprom.Eeprom.Acquire: expects the chip deselected, as every release leaves it.
- Mdio.Mdio.ReadPhyReg: the MDIC register of later chips, the CE4100 and IGP page selection are not modelled.
- EthtoolEeprom.Nvm.SetEeprom: expects a range inside the image, which the ethtool core checks before the call; chips with one address byte have 64, 128 or 256 words.
- VirtioNapi.NextInv: the netmap branch of the poll is not modelled.
- VirtioPages.Queue.ReceiveBuf: small and mergeable buffers, and what happens to the packet afterwards, are not modelled; the room in a fresh packet is a parameter below a page.
- SwFwAccess.Port.Release: ends because some later attempt is taken to get the hardware semaphore, as its loop has no bound.
- SwFwAccess.Port.WritePhyReg: a page select that takes effect only after the resource has been given back counts as part of what the others' next turn leaves.
- NetmapSync.VirtioTx.TxSync: notifying the device and asking it for interrupts are not modelled.
- NetmapSync.VirtioRx.RxSync: the check of `cur` and the contents of receive slots are not modelled; which slot's buffer holds a received virtio packet is not claimed.
- TxFifo.Fifo.Workaround: counts packets that pass the workaround, also those dropped afterwards, as the code does; frames are at most the largest frame, since the 82547 has no segmentation offload.
- RxFilter.Filters.SetRxMode: the reset that the 82542 needs around writes is not modelled.
- VlanFilter.Vlans.Reset: what a reset itself does to the bit that turns filtering on is not modelled.
- Interrupt masking, statistics, byte queue limits, hang detection and time stamps are not modelled.
- Memory barriers are taken as the boundaries of sequentially consistent steps.
- Link setup, PHY initialisation, power management, flow control and module parameters are register sequences and finite tables, and would only add easy members.
