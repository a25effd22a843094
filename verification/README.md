# Verified models of a router emulator's devices

This project models the parts of the emulator that are algorithms over unbounded
input, and proves what they are for:

- **ATM.** `Crc`, `Crc16` (the checksum tables), `Hec` (the header check), `AtmCell`,
  `AtmVsar` (AAL5 segmentation and reassembly), `AtmBridge` (Ethernet over ATM, section
  4.2 of RFC 1483), `AtmSwitch` over `HashBuckets` and `NioRegistry` (the cell switch),
  `AtmListeners` (whose inputs the switch hears) and `AtmPath` (bridge, switch, bridge).
  `NetIos` is what a descriptor was handed to send.
- **Am79c971 Ethernet controller.** `PhysMem` (guest memory), `Am79Desc`, `Am79Ring`
  (descriptors and rings), `Am79Rx`, `Am79Tx` (scatter and gather), `Am79Regs` (status
  register and interrupt line), `Am79c971` (the device).
- **Slots and cards.** `CardSlots` (what a slot holds, as values) and `CiscoCard` (the
  cards, their doubly linked NIO lists and the slots).
- **Flash.** `FlashChip` (one chip) and `Bootflash` (chips interleaved over one array).
- **Codecs.** `Eeprom` (byte packing and the format-4 field walk) and `Base64`, whose
  arithmetic `Base64Bits` ties to the shifts and masks of the source.

Code that changes things step by step is a class or a method with loops; each of its
methods is proved against a function of the old state, and the theorems are lemmas about
those functions. Words whose bits matter are wrapped (`Word`, `Reg32`, `UInt`), so that
proofs which only move them around never open them.

## How to read the results

- **ATM, end to end.** `AtmBridge.EndToEnd` says that a bridge emits exactly the frames
  another one was given, whatever noise is mixed in; `AtmBridge.DeliveredIff` says exactly
  which frames and circuits that is true for; `AtmPath.BridgedThroughSwitch` puts a switch
  in between.
- **Noise.** Cells of other circuits and of wrong size never matter. A cell whose payload
  type is "network" is ignored only if it comes while there is room for one more cell:
  `atm_aal5_recv` checks the room before it looks at the payload type. `Signal` counts such
  cells as noise, and `RoomThroughout` is what `NoiseIsTransparent` needs; frames of at
  most 16350 bytes always leave that room.
- **Traffic.** The switch counts every cell in its tables. `AtmSwitch.CountedForwards` says
  that this changes no forwarding, so `AtmPath.BridgedThroughSwitch` speaks of whole runs of
  `atmsw_recv_cell` over all inputs.
- **Publication order.** Guest memory (`PhysMem.Memory`) records every state it goes
  through, so "handed over last" is a statement about all of them. On reception the first
  descriptor stays with the device until the final write, unless the whole ring is the
  device's and its buffers together are too small for the packet (`Am79Rx.PublishedLast`).
- **Reception, all cases.** A number of descriptors is used, or the ring overruns, never both
  (`Am79Rx.UsedOrOverruns`). For every ring, overlapping buffers included,
  `Am79Rx.ReceivedBytes` says what each byte outside the ring is afterwards; and the loop ends
  for every memory, even if the packet is stored over the ring itself (`Am79Rx.LastEnds`).
- **Too small a ring.** In that one case the walk comes back to the first descriptor
  (`Am79Rx.ComesBackIff`), fills its buffer a second time, and in the end puts back the word
  it read at the start: the guest gets every descriptor, a start, but no end and no error
  (`Am79Rx.Overrun`). `Am79Rx.HandedOverEarly` is the smallest such ring.
- **Endless transmission.** The transmit loop goes on for ever exactly on a ring whose
  descriptors are all owned, all start a packet and end none (`Am79Tx.StopsIff`); it then
  changes nothing in guest memory (`Am79Tx.SpinningWalk`), and overruns its packet buffer unless
  all guest buffers are empty (`Am79Tx.FitsIff`). On any other ring it stops within two turns.
  `Am79Tx.NeverStops` is a ring of one that spins.
- **Acknowledging.** RINT and TINT are cleared only by every third CSR0 write
  (`Am79Regs.SlowAcknowledge`); three in a row always do (`Am79Regs.ThreeAcknowledge`).
- **Interrupt flag.** Nothing recomputes INTR when CSR3 is written. `Am79Regs.StepKeepsIntr`
  gives the exact condition under which it stays right, `Am79Regs.StaleIntr` a run in which
  it does not, `Am79Regs.IntrRecovers` when it is right again.
- **Saved slots.** The line printed for a NIO begins with `vm add_nio_binding`
  (common/cisco_card.c:195), while the hypervisor's table has `slot_add_nio_binding`
  (stable/hv_vm.c:1275). Read as the calls they stand for, the printed lines rebuild a slot
  (`CardSlots.ReplayRebuilds`); read through the table they rebuild it exactly when it had
  no NIO (`CardSlots.CommandsLoseNios`); one card and one NIO are enough (`CardSlots.LostNio`).
- **Saved switches.** A VC connection hidden by a later VP connection is refused on replay.
  The tables then differ (`AtmSwitch.ReplayLosesShadowed`), but every cell the replayed switch
  is given is forwarded as before (`AtmSwitch.SaveReplay`).
- **Listeners.** A refused creation releases its input as if the connection had been made,
  and with it one of the input's listeners. The listener counts stay right exactly while no
  creation is refused on an input in use (`AtmListeners.ServeKeepsMatchedIff`), and after a
  replay exactly when no VC connection was hidden (`AtmListeners.ReplayListensIff`); else an
  input can end with connections and no listener (`AtmListeners.ReplayDeaf`).
- **Buffered flash writes.** The first write after the one that completes the window decides,
  whatever it was meant for (`FlashChip.BufferedProgram`): 0xD0 programs the window, anything
  else drops it, so stray writes must come before. Only the low byte of command, count and
  confirmation matters; `Bootflash.WordsProgrammed` is the program a driver performs with
  accesses as wide as the set, polling included.
- **Long rewrites.** Six bytes are burnt whatever the length of the EEPROM field. No address
  disturbs the list of fields exactly if the field has six bytes or is the last one
  (`Eeprom.BurningIff`); `Eeprom.OverlongRewrite` is an address that hides the next field.
- **Empty strings.** The encoding of nothing does not decode (`Base64.RoundTrip` is an
  equivalence), except as a line of its own (`Base64.LineRoundTrip`).
- **Bits and bytes.** What a word or a block of bytes means is said a second time, in numbers
  and apart from the functions that compute it: CSR0 (`Am79Regs.StatusWritten`,
  `Am79Regs.InvariantBits`), descriptors (`Am79Ring.DescriptorBytes`), the initialization block
  (`Am79c971.BlockRings`, `Am79c971.BlockStation`), cell headers (`AtmCell.MadeBytes`,
  `AtmSwitch.ThroughVp`, `AtmSwitch.ThroughVc`), the AAL5 trailer (`AtmVsar.TrailerLength`,
  `AtmVsar.TrailerCrc`), the encapsulation (`AtmBridge.EmittedIff`) and the answers of a flash
  chip (`FlashChip.CommandAnswers`).

Where code and comments differ, the code is followed: the length of a variable EEPROM field
is four bits wide (common/cisco_eeprom.c:652), and of a received packet over 2048 bytes every
byte is stored while the count says 2048 + 4 (common/dev_am79c971.c:643-649).

## Model

| member | source | states |
|---|---|---|
| Crc.ComputeComposes | common/crc.cpp:8-16 | Feeding the complement of one result back as the accumulator composes: computing over a concatenation is computing over its parts, so the incremental CRC equals the one-shot one |
| Crc.TableUpdate | common/crc.c:63-77 | Looking up the low byte of register xor byte does what eight bit shifts do |
| Crc.TableIsBitwise | common/crc.c:63-77 | For inputs of any length the table gives the bitwise reflected CRC |
| Crc.KnownEntries | common/crc.c:63-77 | The table has the polynomial at byte 0x80, and 0x77073096 at byte 1 |
| Crc.Crc32Init | common/crc.c:63-77 | The loops on a 64-bit `unsigned long` leave in every entry the byte pushed through eight 32-bit shifts |
| Crc16.CrcInit | common/crc.c:19-60 | The two-register loops of the CRC-12 and CRC-16 tables leave in every entry the byte pushed through eight shifts of one register |
| Crc16.CrcTables | common/crc.c:80-84 | Both tables, each for its own polynomial |
| Crc16.TurnIsShift | common/crc.c:27-34 | The exclusive or of the two registers moves like the single bitwise register |
| Crc16.TableUpdate | common/crc.c:41-60 | For any 16-bit polynomial the table lookup replaces eight shifts |
| Crc16.KnownEntries | common/crc.c:80-84 | The CRC-12 and CRC-16 tables have their polynomials at byte 0x80, and the CRC-16 one 0xC0C1 at byte 1 |
| Hec.DivisionIdentity | common/atm.c:34-54 | Bits are quotient times generator plus remainder: the remainder is polynomial division |
| Hec.AccumulateIsRemainder | common/atm.c:57-69 | The table-driven accumulator is the remainder of the bytes followed by eight zeros |
| Hec.GenSyndromeTable | common/atm.c:40-54 | Every table entry is its index multiplied by x^8 modulo the generator |
| Hec.ComputeHec | common/atm.c:57-69 | The loop computes the check byte of the first four bytes |
| Hec.InsertHec | common/atm.c:72-74 | The fifth byte becomes the check byte of the first four, every other byte stays |
| Hec.ProtectedRemainder | common/atm.c:57-74 | A header with its check byte leaves the coset leader when divided by the generator |
| Hec.ProtectedOnlyIf | common/atm.c:57-74 | Only the right check byte leaves that remainder |
| Hec.HecLinear | common/atm.c:57-69 | The check byte is linear up to the coset leader |
| Hec.MinimumDistance | common/atm.c:57-74 | Two different headers with their check bytes differ in at least four bits |
| Hec.KnownHeaders | common/atm.c:57-74 | The check byte of a header of zeros is 0x55, that of an idle cell 0x52 |
| AtmCell.CellHeader | common/atm_vsar.c:41-72 | A cell gives its header back, and its header is protected by its check byte |
| AtmCell.MadeBytes | common/atm_vsar.c:124-126 | Where VPI, VCI and payload type lie in the bytes of a header |
| AtmVsar.SegContext.StoreFifo | common/atm_vsar.c:75-92 | No byte is lost or reordered between buffer, FIFO and cells sent; true exactly when a cell went out |
| AtmVsar.SegContext.AddTrailer | common/atm_vsar.c:95-111 | The last eight bytes are the 32-bit length, then the one-shot complemented CRC of everything before; `TrailerLength` and `TrailerCrc` say what numbers these are |
| AtmVsar.Aal5Send | common/atm_vsar.c:114-153 | The cells sent depend only on the concatenated bytes, not on how the packet was split |
| AtmVsar.PacketShape | common/atm_vsar.c:95-153 | (L+55)/48 cells, end-of-packet mark on the last only, packet first, zero padding up to the trailer |
| AtmVsar.TrailerLength | common/atm_vsar.c:100-101 | Control field and length together are the packet length as a 32-bit big-endian number, so the first two bytes are zero below 65536 |
| AtmVsar.TrailerCrc | common/atm_vsar.c:103-107 | The last four bytes are the complemented bitwise CRC, started with all ones, of every byte before them |
| AtmVsar.ReasContext.Recv | common/atm_vsar.c:162-191 | One received cell does to the buffer and answers what the step function says, overflow and bad size included |
| AtmVsar.StatusIs | common/atm_vsar.c:162-191 | For every context and cell: which of the five answers is given, and what the context is then |
| AtmVsar.MiddleCells | common/atm_vsar.c:162-191 | After k middle cells the buffer holds exactly the first k chunks and every answer was 0 |
| AtmVsar.LastCellReceived | common/atm_vsar.c:162-191 | The cell with the end mark yields 1 and the packet's length |
| AtmVsar.Aal5RoundTrip | common/atm_vsar.c:114-191 | Any packet of at most 16360 bytes sent and fed to a reset context: 0 for each cell but the last, then 1, with length and bytes of the input |
| AtmBridge.AtmBridge.RecvCell | common/atm_bridge.c:39-77 | A received cell changes reassembly and the Ethernet side as the step function says |
| AtmBridge.AtmBridge.RecvPkt | common/atm_bridge.c:80-88 | A frame goes out as the cells of its bridged encapsulation |
| AtmBridge.RunKeepsSound | common/atm_bridge.c:39-77 | Under any stream the buffer position is a multiple of 48 and at most 16368 |
| AtmBridge.ClosingCellResets | common/atm_bridge.c:55-72 | A non-network end cell of the circuit leaves the context reset whatever it held |
| AtmBridge.EncapsulationSent | common/atm_vsar.c:194-204 | The payload of every frame's first cell begins with the ten header bytes of bridged Ethernet |
| AtmBridge.EmittedIff | common/atm_bridge.c:39-72 | For every context and cell: a frame is emitted if and only if the cell completes an encapsulated packet no shorter than its trailer says, and then it is what follows the encapsulation up to that length |
| AtmBridge.RefusedIff | common/atm_bridge.c:39-77 | A cell is answered with an error if and only if it is of another size, finds no room, or closes a packet shorter than its trailer says; for the last two the context is given up |
| AtmBridge.NoiseIsTransparent | common/atm_bridge.c:39-72 | A stream does what its signal alone does, as long as there was room |
| AtmBridge.EndToEnd | common/atm_bridge.c:39-88 | A fresh bridge emits exactly the frames sent, once each and in order, with noise anywhere |
| AtmBridge.SentIsSignal | common/atm_vsar.c:194-204 | Nothing a bridge sends is mistaken for noise |
| AtmBridge.Resynchronises | common/atm_bridge.c:55-72 | After any stream at all one closing cell is enough: the frames after it arrive intact |
| AtmBridge.OutOfWidth | common/atm_bridge.c:49-56 | A circuit number that does not fit its field never receives anything |
| AtmBridge.TooLong | common/atm_vsar.c:162-176 | A frame over 16350 bytes does not arrive |
| AtmBridge.DeliveredIff | common/atm_bridge.c:39-88 | One frame arrives if and only if the circuit fits its fields and the frame has 1 to 16350 bytes |
| AtmPath.RoutedFrames | common/atm.c:114-184 | The cells of some frames, forwarded one by one, are the cells of the same frames on the new circuit |
| AtmPath.SwitchedSignal | common/atm.c:150-198 | Over any arrivals on any inputs, every one counted in the tables: what is handed to the output carries on the circuit exactly what the tables make of the circuit's cells on the input |
| AtmPath.BridgedThroughSwitch | common/atm.c:150-198 | Bridge, switch in traffic and bridge: exactly the frames sent are received, in order, whatever else the three ports carry |
| AtmPath.SoleRouteUndisturbed | common/atm.c:114-184 | If no other connection leads to the output circuit, no arrival on any input can disturb it |
| HashBuckets.Inserted | common/atm.c:290-296 | Linking an entry with a new key into its bucket adds exactly that key to the map |
| HashBuckets.Removed | common/atm.c:322-338 | Unlinking an entry removes exactly its key from the map |
| HashBuckets.WalkLists | common/atm.c:470-492 | Walking the buckets lists every entry of the map exactly once |
| NioRegistry.RxList.Add | common/net_io.c:1517-1528 | A descriptor is listened to once more |
| NioRegistry.RxList.Remove | common/net_io.c:1483-1513 | One listener less; the last one leaves the list, and none at all changes nothing |
| NioRegistry.Registry.Acquire | common/registry.c:243-264 | A name that exists is held once more, another one is not found |
| AtmSwitch.Switch.VpLookup | common/atm.c:90-99 | The bucket search finds an entry exactly when the map has its key, and finds that entry |
| AtmSwitch.Switch.VcLookup | common/atm.c:102-111 | The same for VC connections |
| AtmSwitch.Switch.ReleaseConn | common/atm.c:239-266 | The ends that were found lose one reference, and the input one listener |
| AtmSwitch.Switch.CreateVpc | common/atm.c:269-307 | Succeeds exactly for a new key between existing descriptors; then that one key is added and its input listened to once more; else tables and references stay, and an existing input loses a listener; references keep matching endpoints |
| AtmSwitch.Switch.CreateVcc | common/atm.c:347-397 | The same, and refused when a VP connection would hide it |
| AtmSwitch.Switch.DeleteVpc | common/atm.c:310-344 | Removes exactly one key with one listener of its input, and only if its output and output VPI match (`AtmListeners.VpDeletedIff`); references keep matching endpoints |
| AtmSwitch.Switch.DeleteVcc | common/atm.c:400-431 | The same for VC connections, by output, VPI and VCI (`AtmListeners.VcDeletedIff`) |
| AtmSwitch.RefsCreated | common/atm.c:283-288 | References equal endpoints again after a creation |
| AtmSwitch.RefsElsewhere | common/registry.c:243-264 | Another holder's reference, taken or given back, leaves the switch's own matched |
| AtmSwitch.Switch.VpSwitch | common/atm.c:114-128 | Only the VPI field changes (`ThroughVp`), the check byte is right again, the counter ticks |
| AtmSwitch.Switch.VcSwitch | common/atm.c:131-147 | Only VPI and VCI change (`ThroughVc`), the check byte is right again, the counter ticks |
| AtmSwitch.Switch.HandleCell | common/atm.c:150-184 | A cell goes where the map sends it, VP before VC, rewritten; else it is dropped and counted as dropped |
| AtmSwitch.Switch.RecvCell | common/atm.c:187-198 | A packet of another size is ignored; a cell moves tables and output as one step of the traffic function |
| AtmSwitch.ThroughVp | common/atm.c:114-124 | A cell through a VP connection keeps its payload and the low 20 bits of its header, VCI, payload type and loss priority among them; its VPI is the low 12 bits of the connection's |
| AtmSwitch.ThroughVc | common/atm.c:131-143 | Through a VC connection a cell keeps its payload and the low four bits of its header; VCI and VPI are the connection's, a VCI that is too wide spilling into the VPI |
| AtmSwitch.FieldsTaken | common/atm.c:137-139 | A VPI and a VCI that fit their fields are taken as they are |
| AtmSwitch.DroppedIff | common/atm.c:164-183 | A cell is dropped if and only if neither its VPI nor its VPI and VCI are connected at its input |
| AtmSwitch.VpCounts | common/atm.c:126-127 | Over any arrivals the counter of a VP connection goes up by one for each cell on it, modulo 2^64, and nothing else of it changes |
| AtmSwitch.VcCounts | common/atm.c:145-146 | The same for a VC connection, whose cells are not counted while a VP connection takes them |
| AtmSwitch.CountedForwards | common/atm.c:114-147 | Counting a cell changes the forwarding of no cell on no input |
| AtmSwitch.Switch.SaveConfig | common/atm.c:466-493 | One creation command for each entry of each table, none twice |
| AtmSwitch.ReplayRebuilds | common/atm.c:466-493 | Replaying the printed commands into an empty switch gives all VP connections and every VC connection no VP connection hides |
| AtmSwitch.RebuiltForwards | common/atm.c:164-174 | That switch forwards every cell on every input like the saved one |
| AtmSwitch.SaveReplay | common/atm.c:466-493 | Save and replay keep the forwarding of every cell that is received, in every order of printing |
| AtmSwitch.ReplayLosesShadowed | common/atm.c:367-374 | All connections come back if and only if none was hidden |
| AtmListeners.ServeKeepsMatchedIff | common/atm.c:269-431 | A call keeps "listened to once per connection" if and only if it is not a creation refused on an input in use |
| AtmListeners.RunListens | common/atm.c:269-431 | In every run no input is listened to too often, and exactly once per connection if no such creation occurred |
| AtmListeners.MadeVp | common/atm.c:269-307 | An accepted creation adds the connection with the values given and no cell counted, and one listener of its input; nothing else changes |
| AtmListeners.MadeVc | common/atm.c:347-397 | The same for VC connections |
| AtmListeners.VpUndone | common/atm.c:269-344 | Deleting with the values of an accepted creation gives back the tables and the listeners from before it |
| AtmListeners.VcUndone | common/atm.c:347-431 | The same for VC connections |
| AtmListeners.VpDeletedIff | common/atm.c:310-344 | A deletion does something if and only if the connection exists with that output and output VPI; then only it goes, with one listener |
| AtmListeners.VcDeletedIff | common/atm.c:400-431 | The same for VC connections, by output, VPI and VCI |
| AtmListeners.RunCounts | common/net_io.c:1483-1528 | In every run everyone in the list of listeners is counted at least once, so deletions undo creations exactly |
| AtmListeners.ReplayListensIff | common/atm.c:466-493 | After a replay, in any order of printing, the counts are right if and only if no VC connection was hidden |
| AtmListeners.ReplayDeaf | common/atm.c:367-397 | One VP connection and one VC connection it hides: after the replay the input has a connection and no listener |
| PhysMem.BlockStored | common/memory.c:122-189 | A block copied to memory reads back |
| PhysMem.LoadStored32 | common/memory.c:192-210 | A word written big-endian reads back |
| PhysMem.Memory.CopyTo | common/memory.c:158-189 | A copy changes exactly its addresses, and the new state is recorded |
| Am79Desc.BufLenIsComplement | common/dev_am79c971.c:621-622 | The buffer size is the two's complement of the 12-bit field |
| Am79Desc.CountWritten | common/dev_am79c971.c:683-684 | The count written into the word reads back |
| Am79Desc.CountRest | common/dev_am79c971.c:686-687 | The other bits of its word stay |
| Am79Ring.DescriptorBytes | common/dev_am79c971.c:568-601 | A descriptor byte by byte, in both styles: where flags, buffer size, buffer address and byte count lie in the 16 bytes |
| Am79Ring.SlotNext | common/dev_am79c971.c:603-608 | Incrementing and wrapping is addition modulo the ring size |
| Am79Ring.SlotsDistinct | common/dev_am79c971.c:603-613 | One turn of the ring meets no descriptor twice |
| Am79Rx.ScanWords | common/dev_am79c971.c:659-721 | While the loop runs, descriptors only lose OWN, and only those already used after the first |
| Am79Rx.LastEnds | common/dev_am79c971.c:659-721 | For every memory the loop ends, wherever the buffers lie |
| Am79Rx.ScanStops | common/dev_am79c971.c:659-721 | Where no buffer touches the ring, it is over after one turn: each descriptor met again is no longer owned |
| Am79Rx.PassesBounded | common/dev_am79c971.c:659-721 | At most rx_len + 1 passes, and rx_len + 2 on a ring of one |
| Am79Rx.UsedOrOverruns | common/dev_am79c971.c:659-721 | The number of passes is the number of descriptors used, if and only if the ring does not overrun |
| Am79Rx.ReceivedBytes | common/dev_am79c971.c:616-728 | Every byte outside flags and counts: the last pass that fills it decides, else it stays; for overlapping buffers and rings of one too |
| Am79Rx.EnoughRoom | common/dev_am79c971.c:616-634 | If enough owned descriptors can hold the packet, a least number of them can |
| Am79Rx.ChainEnds | common/dev_am79c971.c:671-712 | The loop uses exactly the least number of descriptors that hold the packet, or those before the first the device does not own |
| Am79Rx.ComesBackIff | common/dev_am79c971.c:659-721 | The walk comes back to the first descriptor if and only if every descriptor is owned and all buffers together are too small |
| Am79Rx.Overrun | common/dev_am79c971.c:659-728 | On such a ring every descriptor is handed over, STP on the first, ENP, ERR and BUFF nowhere set; no other word and no byte outside the filled buffers changes |
| Am79Rx.OverrunHolds | common/dev_am79c971.c:659-721 | There, if they do not overlap, the buffers hold the stretches they received last |
| Am79Rx.Scattered | common/dev_am79c971.c:639-731 | Each used descriptor has exactly its final words, no other word of the ring changes; every byte outside is what the used buffers received; if these do not overlap, they hold the packet end to end |
| Am79Rx.ScatteredWhole | common/dev_am79c971.c:639-731 | A packet that fits arrives whole in buffers that do not overlap: STP on the first, ENP and the count on the last, OWN cleared on all; the count is the length, at most 2048, plus 4 |
| Am79Rx.MarkedFlags | common/dev_am79c971.c:667-728 | What the final flags say, and ERR with BUFF when the chain ended too early |
| Am79Rx.MarkedRest | common/dev_am79c971.c:667-728 | The other bits of the word stay |
| Am79Rx.PublishedLast | common/dev_am79c971.c:664-726 | The first descriptor keeps OWN in every state before the final write, if and only if the ring is not wholly owned and too small |
| Am79Rx.HandedOverEarly | common/dev_am79c971.c:659-728 | Two buffers of one byte and a packet of three: handed over before the final write, and without an end |
| Am79Tx.StopsIff | common/dev_am79c971.c:843-881 | The loop stops if and only if some descriptor is not owned, does not start a packet or ends one; then within two turns, at the pass the ring tells |
| Am79Tx.SpinningWalk | common/dev_am79c971.c:843-881 | Where it does not stop, memory never changes and the packet only grows |
| Am79Tx.FitsIff | common/dev_am79c971.c:849-857 | The packet buffer is not overrun if and only if the chain fits it, or, where the loop does not stop, all buffers are empty |
| Am79Tx.SecondTurn | common/dev_am79c971.c:843-881 | All owned and no ENP: the underflow comes at the first descriptor met again without STP |
| Am79Tx.NeverStops | common/dev_am79c971.c:843-881 | A ring of one on which the walk never stops, a byte for each pass |
| Am79Tx.ChainLengthIs | common/dev_am79c971.c:843-881 | The chain the loop walks is the one the flags describe |
| Am79Tx.ScanData | common/dev_am79c971.c:849-857 | Where no buffer touches the ring, the gathered packet is the concatenation of the buffers as they were when the walk began, round the ring or not |
| Am79Tx.Gathered | common/dev_am79c971.c:810-905 | A well-formed chain goes out as one packet, all its descriptors lose OWN, no other changes |
| Am79Tx.SentElsewhere | common/dev_am79c971.c:858-899 | Transmission writes flags words and nothing else |
| Am79Tx.Underflow | common/dev_am79c971.c:873-876 | On underflow the first descriptor stays with the device exactly if it has STP |
| Am79Tx.FirstHeldUntilSent | common/dev_am79c971.c:858-899 | The first descriptor keeps OWN in every state before the final write |
| Am79Regs.OnBitsIs | common/dev_am79c971.c:255-269 | RXON and TXON become STRT without DRX and DTX; pending events and interrupt bits stay |
| Am79Regs.IrqStatusIs | common/dev_am79c971.c:235-252 | INTR is set if and only if an unmasked event is pending, the line is high if and only if INTR and IENA are |
| Am79Regs.StepKeepsOn | common/dev_am79c971.c:342-427 | Every step keeps RXON and TXON right |
| Am79Regs.StepKeepsLine | common/dev_am79c971.c:235-252 | Every step keeps the interrupt line right |
| Am79Regs.StepKeepsIntr | common/dev_am79c971.c:444-449 | A step keeps INTR right, except a CSR3 write, which does exactly when it does not change whether an event is pending |
| Am79Regs.RunIsSound | common/dev_am79c971.c:342-460 | In every reachable state RXON, TXON and the line are right, and INTR too in runs without CSR3 writes |
| Am79Regs.StaleIntr | common/dev_am79c971.c:444-449 | Receive a packet, then mask RINT: INTR stays set |
| Am79Regs.IntrRecovers | common/dev_am79c971.c:411-412 | The next CSR0 write or packet puts INTR right again |
| Am79Regs.SlowAcknowledge | common/dev_am79c971.c:373-383 | A CSR0 write without STOP clears RINT if and only if it has that bit and is the third, and never sets it; the same for TINT |
| Am79Regs.CountsToThree | common/dev_am79c971.c:378-381 | In every reachable state the third write is at most three writes away |
| Am79Regs.ThreeAcknowledge | common/dev_am79c971.c:373-383 | Three such writes in a row clear what they acknowledge |
| Am79Regs.StatusWritten | common/dev_am79c971.c:358-412 | A CSR0 write without STOP, bit by bit: INIT, STRT and IENA are added to, STOP goes with INIT or STRT, IDON comes with a block, and what is acknowledged goes |
| Am79Regs.RestStays | common/dev_am79c971.c:358-427 | The remaining bits of CSR0 stay in every step but a write of STOP |
| Am79Regs.WrittenOther | common/dev_am79c971.c:378-412 | The mode register is that of a block fetched by the write, else it stays; the count of writes starts over at three |
| Am79Regs.Stops | common/dev_am79c971.c:366-371 | A write with STOP leaves CSR0 at 4 and the line low |
| Am79Regs.OtherEvents | common/dev_am79c971.c:235-252 | A packet received sets RINT, one sent TINT, and no other bit that is not derived; writes of CSR3 and CSR15 set none |
| Am79Regs.InvariantBits | common/dev_am79c971.c:235-269 | In bits: RXON and TXON are STRT without DRX and DTX, INTR is an event not masked in CSR3, the line is INTR with IENA |
| Am79Regs.Starting | common/dev_am79c971.c:395-400 | Writing STRT without STOP turns reception and transmission on unless the mode, perhaps of a block fetched by the same write, disables them |
| Am79Regs.StartsUp | common/dev_am79c971.c:395-400 | From reset it leaves CSR0 at 0x32 |
| Am79c971.BlockRings | common/dev_am79c971.c:284-313 | Which bytes of an initialization block are mode, ring sizes and ring addresses |
| Am79c971.BlockStation | common/dev_am79c971.c:318-331 | Which bytes of the block are the six bytes of the station address, and the registers that show it |
| Am79c971.RingSizes | common/dev_am79c971.c:272-282 | A ring has one descriptor, and twice as many for each step of its logarithm, but at most 512 |
| Am79c971.NoBlockIff | common/dev_am79c971.c:288-294 | There is no block if and only if CSR1 and the lower half of CSR2 are zero |
| Am79c971.BlockAddress | common/dev_am79c971.c:288-298 | Else CSR2 and CSR1 are the upper and the lower half of the block's address |
| Am79c971.AcceptsIff | common/dev_am79c971.c:212-231 | A frame is for the station if and only if the mode is promiscuous, its first byte is odd, or its first six bytes are the station address |
| Am79c971.Am79c971.RingsAre | common/dev_am79c971.c:568-613 | Both rings as the registers give them, with the software style from the low byte of BCR20 |
| Am79c971.Am79c971.FetchInitBlock | common/dev_am79c971.c:284-339 | Ring addresses and sizes, mode and station address come from the block; at address zero nothing changes and the call fails |
| Am79c971.Am79c971.WriteRdp | common/dev_am79c971.c:342-460 | A register write is the step of the status machine for that register; ring set-up, positions and every other register change only as an INIT, STOP or length write makes them |
| Am79c971.Am79c971.ReceivePkt | common/dev_am79c971.c:639-731 | Memory, its whole history, position and registers after a packet; nothing changes if the first descriptor is not owned |
| Am79c971.Am79c971.HandleRxRing | common/dev_am79c971.c:734-759 | Taken only when reception is set up and on, and the frame is for the station |
| Am79c971.Am79c971.HandleTxRingSingle | common/dev_am79c971.c:810-905 | At most one packet goes out; memory, position, output and registers for the ready, the underflow and the idle case |
| FlashChip.FlushIs | common/dev_bootflash.c:343-354 | A write with low byte 0xD0 puts the buffer into the window and nothing else |
| FlashChip.BufferedProgram | common/dev_bootflash.c:319-354 | Command, count, a window filled in any order with strays before its last hit, reads anywhere: nothing changes before the next write, which programs exactly the window if its low byte is 0xD0 and else changes nothing; both ways the chip is back in read-array |
| FlashChip.Erasing | common/dev_bootflash.c:383-396 | An erase waits through reads and other writes; confirmed, it leaves the block all ones and every other cell alone |
| FlashChip.OnlyProgramming | common/dev_bootflash.c:260-407 | No other step changes a cell |
| FlashChip.SingleProgram | common/dev_bootflash.c:294-300 | Command 0x40 or 0x10, reads, a datum: nothing changes before the datum, which is stored in its cell and nowhere else |
| FlashChip.CommandAnswers | common/dev_bootflash.c:223-257 | What reads return after each command: the array, the identifiers, zero, or 0x80; an unknown command changes nothing |
| FlashChip.StatusOnce | common/dev_bootflash.c:357-363 | The status reads 0x80 once; the access after its command, be it a write, only leads back to the array |
| FlashChip.BufferAnswers | common/dev_bootflash.c:311-355 | A buffered program answers 0x80 from its count to the decision, and the array after it |
| FlashChip.DoneAnswers | common/dev_bootflash.c:302-404 | A finished program or erase answers 0x80 until the next command |
| FlashChip.CountIs | common/dev_bootflash.c:313 | The window has one cell more than the low five bits of the count say |
| Bootflash.IndexOf | common/dev_bootflash.c:194-206 | Every byte of the array belongs to one cell of one chip |
| Bootflash.InsideIff | common/dev_bootflash.c:209-221 | A cell lies in the array if and only if it lies in its chip |
| Bootflash.InRangeIff | common/dev_bootflash.c:343-396 | An access stays in its chip exactly if a window it confirms, or a block it erases, does |
| Bootflash.ActRefines | common/dev_bootflash.c:260-407 | An access is a step of its chip on its stripe, and no step of any other chip |
| Bootflash.Independent | common/dev_bootflash.c:412-455 | After any interleaved run each chip is where its own accesses alone would have taken it |
| Bootflash.OnlyItsChip | common/dev_bootflash.c:209-221 | A byte changes only through an access to its chip while that chip programs or confirms |
| Bootflash.InterleavedProgram | common/dev_bootflash.c:319-354 | A buffered program on one chip among accesses to the others programs exactly its window, or, not confirmed, nothing of that chip |
| Bootflash.InterleavedSingle | common/dev_bootflash.c:294-300 | A single program on one chip among accesses to the others stores its datum in that cell of that chip; every other chip is where its own accesses take it |
| Bootflash.WordsProject | common/dev_bootflash.c:442-452 | Of device accesses as wide as the set each chip receives one each, a read or a write whose low byte is its own |
| Bootflash.WordsProgrammed | common/dev_bootflash.c:412-455 | Command, count, the window filled once among reads and stray words, reads in both gaps, and one more word: exactly the chips whose byte of it is 0xD0 hold their bytes of the window, every other byte of the array stays |
| Bootflash.ReadsTheArray | common/dev_bootflash.c:430-441 | With all chips in read-array a byte-mode read returns the bytes at its address, most significant first, and changes nothing |
| Bootflash.ReadsTheWords | common/dev_bootflash.c:430-441 | A word-mode read returns the pairs of bytes that hold its address, in order, and changes nothing |
| Bootflash.WordStoredWide | common/dev_bootflash.c:442-452 | A word programmed in word mode lies in the array most significant byte first |
| Bootflash.FlashSet.FlashAccessRead | common/dev_bootflash.c:283-406 | A read answers and moves its chip as the state machine says |
| Bootflash.FlashSet.FlashAccessWrite | common/dev_bootflash.c:283-406 | A write moves its chip and stores exactly the cells the state machine says, which `SingleProgram`, `BufferedProgram`, `Erasing` and `OnlyProgramming` say for every run |
| Bootflash.FlashSet.Read | common/dev_bootflash.c:430-441 | A device read is so many chip accesses in address order, its value their answers |
| Bootflash.FlashSet.Write | common/dev_bootflash.c:442-452 | A device write is so many chip accesses in address order |
| Eeprom.ByteSet | common/cisco_eeprom.c:587-603 | Setting a byte changes that byte of the packed words and no other |
| Eeprom.CiscoEeprom.GetByte | common/cisco_eeprom.c:568-584 | The byte of the unpacked contents; 0xFF and failure past the end |
| Eeprom.CiscoEeprom.SetByte | common/cisco_eeprom.c:587-603 | Exactly that byte of the contents changes; nothing past the end |
| Eeprom.CiscoEeprom.GetRegion | common/cisco_eeprom.c:606-616 | The bytes of the contents, if they are all there |
| Eeprom.CiscoEeprom.SetRegion | common/cisco_eeprom.c:619-629 | The contents overwritten as far as they reach; success exactly if all fit |
| Eeprom.CiscoEeprom.GetField | common/cisco_eeprom.c:632-659 | Error, end marker or field, with type, length and place of the payload |
| Eeprom.CiscoEeprom.FindField | common/cisco_eeprom.c:705-724 | The loop ends on any contents with the result of the search from offset 2 |
| Eeprom.FindIsFirst | common/cisco_eeprom.c:705-724 | The search returns the first field of the type, and fails only if there is none |
| Eeprom.FindEncoded | common/cisco_eeprom.c:632-724 | Any list of fields, encoded and searched: the first payload of the type, or nothing |
| Eeprom.CodeIs | common/cisco_eeprom.c:642-655 | The length code is the upper two bits of the type, a variable length the lower four bits of its byte |
| Eeprom.OverwritingIff | common/cisco_eeprom.c:619-724 | Nothing written to a region disturbs the list of fields if and only if no header byte lies in it |
| Eeprom.RewritingIff | common/cisco_eeprom.c:619-724 | At a payload that is so if and only if the bytes fit it or no field follows |
| Eeprom.Rewriting | common/cisco_eeprom.c:619-629 | Then what is written reads back and no search for any type changes |
| Eeprom.BurningIff | common/dev_c2691.c:217-245 | No address burnt disturbs the list of fields if and only if its field has six bytes or is the last |
| Eeprom.BurningKeepsSearches | common/dev_c2691.c:217-245 | Then the address reads back and no search changes |
| Eeprom.BurntAt | common/dev_c2691.c:217-245 | Every byte of the contents after burning, for each format version |
| Eeprom.OverlongRewrite | common/dev_c2691.c:229-233 | A field of one byte with another behind it, and an address that hides the other one |
| Eeprom.CiscoEeprom.BurnMac | common/dev_c2691.c:217-245 | What is overwritten for each format version |
| Base64Bits.SixesAgree | common/base64.c:36-50 | For all bytes, the encoder's shifts and masks are the arithmetic the model encodes with |
| Base64Bits.EightsAgree | common/base64.c:90-103 | For all digit values, the decoder's shifts and masks are the arithmetic the model decodes with |
| Base64.EncodedLength | common/base64.c:33-55 | 4 * ceil(n / 3) characters |
| Base64.Encode | common/base64.c:33-55 | The buffer gets the encoding and a NUL, and nothing after it changes |
| Base64.DecodeBounded | common/base64.c:63-108 | With a limit, never more than that many bytes |
| Base64.RoundTrip | common/base64.c:33-108 | Decoding an encoding gives the bytes back if and only if there was one and the limit leaves room |
| Base64.LineRoundTrip | common/base64.c:33-108 | Behind `+ ` and up to a carriage return, whatever comes then, an encoding decodes if and only if the limit leaves room, the empty one included |
| Base64.Reencoded | common/base64.c:63-108 | What decodes is an encoding: a line without `=` that decodes is the encoding of the bytes it gives, and ends there |
| Base64.PaddingInside | common/base64.c:80-105 | A `=` in the third place before a digit gives one byte and does not end the line |
| Base64.Alphabet | common/base64.c:14-15 | Capitals, small letters, figures, plus and slash, in that order |
| Base64.DigitsOnly | common/base64.c:19-30 | A character decodes if and only if it is in the alphabet, and then to its place there |
| Base64.EncodedPadding | common/base64.c:43-53 | One `=` behind two last bytes, two behind one, and digits everywhere else |
| Base64.DecodeInto | common/base64.c:63-108 | Count or -1, the bytes written, nothing else written, nothing read past the NUL |
| CardSlots.LocateInjective | common/cisco_card.c:228-282 | Two outside port numbers never lead to the same port of the same card |
| CardSlots.BayPorts | common/cisco_card.c:239-262 | On a module with WIC bays ports 0x10 to 0x8F are those of the bays, sixteen each, the lower ones its own, and there are none above |
| CardSlots.PlainPorts | common/cisco_card.c:263-282 | Every other slot takes port numbers as they are |
| CardSlots.CardAdded | common/cisco_card.c:330-396 | A card goes into an empty place that takes its type, and no other card changes |
| CardSlots.CardRemoved | common/cisco_card.c:399-428 | A card goes if it is there, a main card only with all bays empty; no port of the slot keeps a NIO and no other card goes |
| CardSlots.NioBound | common/cisco_card.c:431-478 | Binding succeeds exactly at a port of a card without a NIO; then that port leads to it, and every other port where it did |
| CardSlots.NioUnbound | common/cisco_card.c:481-518 | Unbinding succeeds exactly at a port with a NIO, releases that NIO, and leaves every other port as it was |
| CardSlots.AllUnboundAt | common/cisco_card.c:521-538 | Unbinding all leaves the cards and no NIO behind any port |
| CardSlots.NoOrphans | common/cisco_card.c:399-428 | A main card is not removed while a bay is in use; a sub-card's removal takes no other card, but every NIO of the slot |
| CardSlots.DoKeepsSound | common/cisco_card.c:330-538 | Every call keeps ports distinct, bindings where their numbers lead, cards where they are allowed, and references matched |
| CardSlots.RunIsSound | common/cisco_card.c:330-538 | So in every reachable state; in particular each NIO is held once per binding |
| CardSlots.ReplayMain | common/cisco_card.c:186-201 | The first lines rebuild the main card |
| CardSlots.ReplayBay | common/cisco_card.c:747-762 | The lines of a bay rebuild its sub-card under the same parent |
| CardSlots.ReplayRebuilds | common/cisco_card.c:747-762 | Saved lines, replayed into an empty slot, give the same cards in the same bays and the same NIO behind every port |
| CardSlots.OnlyCards | stable/hv_vm.c:1225-1284 | The command table has the command printed for a card and lacks the one printed for a NIO |
| CardSlots.CommandsLoseNios | common/cisco_card.c:186-201 | Through the table a slot is rebuilt if and only if it had no NIO |
| CardSlots.LostNio | stable/hv_vm.c:1225-1284 | Two calls reach a slot whose NIO does not come back through the table |
| CiscoCard.SlotCard.FindNioBinding | common/cisco_card.c:75-86 | The first node with the port, or none if there is none |
| CiscoCard.SlotCard.Push | common/cisco_card.c:472-476 | The list stays linked both ways and has the new node in front |
| CiscoCard.SlotCard.Unlink | common/cisco_card.c:504-512 | The list stays linked both ways and has lost exactly that node |
| CiscoCard.SlotCard.RemoveAllNioBindings | common/cisco_card.c:89-106 | The list is empty and every NIO released as often as it was bound |
| CiscoCard.SlotCard.Save | common/cisco_card.c:186-201 | The card's line, then one line for each node in list order |
| CiscoCard.Machine.GetInfo | common/cisco_card.c:228-282 | Place and port of an outside number, or failure, as the numbering says |
| CiscoCard.Machine.AddBinding | common/cisco_card.c:330-396 | Succeeds exactly in an empty place that takes the type; the slot gains that card, the rest stays |
| CiscoCard.Machine.RemoveBinding | common/cisco_card.c:399-428 | Succeeds exactly for an idle card without sub-cards; the slot's NIOs are released |
| CiscoCard.Machine.AddNioBinding | common/cisco_card.c:431-478 | Succeeds exactly for a free port and an existing NIO, which is held once more |
| CiscoCard.Machine.RemoveNioBinding | common/cisco_card.c:481-518 | Removes exactly that binding and releases its NIO |
| CiscoCard.Machine.RemoveAllNioBindings | common/cisco_card.c:521-538 | Main card and all bays lose their bindings, every NIO released as often as it was bound |
| CiscoCard.Machine.SaveConfig | common/cisco_card.c:747-762 | The lines of the main card, then of each bay in order |

## Left out

- Sockets, NIO back ends, threads and locks: each callback is one atomic step, `netio_send` appends to a sequence, and its success where the caller looks at it is a parameter.
- Configuration files, command parsing, logging, and the text of printed lines beyond the command and its arguments.
- VM lifecycle, CPUs, PCI configuration space, the platforms' card and EEPROM tables: which card types a slot or bay takes is a parameter of the model (`CardSlots.Platform`).
- `zlib` is not part of this model: `crc32_z` is the bitwise reflected CRC. No claim is made about the bit order of a published AAL5 CRC; the receiver does not check it.
- The handler a listener calls: all connections of a switch share one, and other users of a descriptor's listener are not modelled. UDP descriptors keep their count in a table of their own (common/net_io_udp.cpp:192-247), by the same rules.
- AtmSwitch.Switch.SaveConfig: states the commands in table order; the lines that create the interfaces are not modelled.
- Am79c971.Am79c971.ReceivePkt: requires software style 2 or 3 (with another one the source uses a descriptor it has not read), the ring below 4 GB and the position inside it; the source does not check these. What the theorems of `Am79Rx` say of the result, except `Am79Rx.LastEnds`, is for buffers that do not overlap the ring.
- Am79c971.Am79c971.HandleRxRing: requires the same of a ring in use, and a packet that holds an Ethernet address.
- Am79c971.Am79c971.HandleTxRingSingle: requires the same of a ring in use, that the walk stops, and that what it gathers fits the packet buffer, which `Am79Tx.StopsIff` and `Am79Tx.FitsIff` decide from the ring. The rewriting of ISL headers is a function parameter, as is `netio_can_transmit`.
- Am79Rx.OverrunHolds: requires buffers that do not overlap each other; `Am79Rx.ReceivedBytes` covers the others.
- The loop that sends up to 16 packets (common/dev_am79c971.c:908-920), reads of registers, BCR and MII registers.
- Bootflash.FlashSet.FlashAccessWrite: requires that no window it confirms and no block it erases reaches past the end of its chip (`Bootflash.InRangeIff`), which is past the end of the array (`Bootflash.InsideIff`).
- Bootflash.FlashSet.Write: requires the same of each chip access; word mode has one chip, as in the models of the source, and no accesses of size 1.
- The flash status register, which is cleared but never read, and the states no command leads to.
- CiscoCard.Machine.AddBinding: the OVERRIDE flag, which only the fixed card of one platform has, is not modelled.
- CiscoCard.Machine.RemoveBinding: whether the driver is running is a parameter.
- Driver callbacks of cards: note that removing a binding passes the outside port number to the driver (common/cisco_card.c:502), enabling it the card's own.
- `vm_slot_save_all_config`, which only repeats the slots in order.
