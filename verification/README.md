# A model of the Arctic Tracker's packet radio stack

The Arctic Tracker is an APRS tracker and digipeater: firmware that builds AX.25 frames, sends them
as audio tones, and receives, checks and repeats the frames of others. This project models that path
in Dafny, from a frame in the buffer pool to the bits on the air and back, with the pool itself, the
queues between threads, the frame rewriting of the digipeater, and a few smaller cores, and proves
what the parts promise each other.

`dafny verify dfyconfig.toml` checks all of it.

| files | what they model |
|---|---|
| `Bits`, `Crc16`, `Wrappers` | octets as bits (section 3.8 of AX.25 v2.2); the FCS (section 3.7); optional values |
| `HdlcFraming`, `HdlcEncoder` | bit stuffing (section 3.6) as a function, and the shift register that does it |
| `HdlcDecoder`, `HdlcLink`, `HdlcDelivery`, `ErrorDetection`, `UnclosedExample` | the receiving state machine, what a transmission does to it, which frames arrive, which damage is detected, and a frame that is lost |
| `AfskTx`, `AfskRx`, `EndToEnd` | the serialiser, NRZI and clock recovery, and the whole way from frame queue to received frames |
| `FbufChains`, `FbufReading`, `FbufCuts`, `Fbuf`, `FcsCheck` | the pool of buffer slots: its accounts, reading it, cutting it, as the program's objects, and the FCS check that reads from it |
| `Fbq` | the bounded queue of buffers over two counting semaphores |
| `Ax25`, `Ax25Codec`, `Digipeater` | headers (section 3.12), their codec on buffers, and the path rewriting |
| `Eeprom`, `Config` | memory written by words, and the checksummed parameter store on it |
| `GuiLine`, `LatLong` | the line rasteriser, and compressed coordinates (chapter 9 of APRS Protocol Reference 1.0.1) |

The code that changes state is modelled by classes (`Encoder`, `Decoder`, `Modulator`, `Demodulator`,
`Fbuf`, `Pool`, `Fbq`, `Memory`, `Screen`) whose methods are proved equal to functions on values; the
laws are proved of those functions. A method that returns part way through a source loop in the
middle of waiting (the decoder, the queue) keeps the place where it waits as part of its state.

## Where the code departs from its intent

The model follows the code in each of these, and the named member says exactly when it happens.

- A frame whose bits end in a positive multiple of five ones is sent without its last stuffed zero
  (hdlc_encoder.c:238 looks ahead only when there is another bit to send). The receiver drops it, and
  the next frame with it: `HdlcDelivery.AllArriveIff`, `HdlcDelivery.UnclosedTakesTheNext`; such a
  frame, with an ordinary header, is given by `UnclosedExample.UnclosedExists`.
- With more frames queued than MAXFRAME, the one after the last is taken off the queue and lost
  (hdlc_encoder.c:211): `HdlcEncoder.Encoder.EncodeFrames`.
- `fbuf_rseek` stops behind the bytes of a slot when the position is the end of one (fbuf.c:159), so
  `crc_match` does not see the FCS of a frame whose length without it is a multiple of 32:
  `FbufPool.Pool.Rseek`, `FcsCheck.CrcMatch`, `HdlcDelivery.OrdinaryLength`.
- `crc_match` takes its length as one octet (hdlc_decoder.c:161), so of a frame of 254 octets or more
  only a prefix is checked: `HdlcDelivery.LongFrame`. Damage behind what is looked at is not detected:
  `ErrorDetection.DamageSeenIff`.
- `get_bit` starts with a window of sixteen ones that the first two octets do not change
  (hdlc_decoder.c:55): `HdlcDecoder.Decoder.GetBit`.
- `fbuf_removeLast` leaves the write position in the slot that it gives back (fbuf.c:420-427):
  the buffer is then no longer writable: `FbufPool.Pool.RemoveLast`.
- `fbuf_newRef` hands on the write position (fbuf.c:138), although slots that are shared should not be
  written to (fbuf.c:57-60): `FbufPool.Pool.NewRef`. A byte written there turns up in the other buffers
  too, exactly if the slot is shared: `FbufPool.PutIsPrivateIff`, `FbufPool.LinkIsPrivateIff`.
- Where `fbuf_connect` cuts at the end of the bytes of a slot it has not walked past, it makes an empty
  slot, and reading never leaves an empty slot (`FbufReading.ReadsToEndIff`); past the bytes of a slot
  it makes up bytes. A cut is right if and only if neither is the case: `FbufCuts.CutIff`. That happens
  when a buffer is cut at the same place twice, as digipeater.c:208 and igate.c:294 do with the slots of
  one frame (`FbufCuts.SecondCut`, `FbufPool.Pool.ConnectTwice`), and when a frame without information
  is cut behind its header (`FbufCuts.CutAtEnd`, `Digipeater.HeaderCut`, `Digipeater.ReceiveAndRepeat`).
- `fbq_full` is false again when a producer waits (fbuf.h:84): `FbqModel.FullIff`.
- `ax25_decode_header` returns eight when none of seven hops is marked as the last (ax25.c:167-172):
  `Ax25.NDigis`, `Ax25Codec.DecodeHeader`. `check_frame` adds a hop in an array of seven
  (digipeater.c:142), so it is modelled for at most six.
- A header without a PID is read as if it had one; when such a frame is repeated, the first octet of
  its information is lost: `Ax25.NoPid`, `Digipeater.FirstOctetLost`.
- The digipeater looks for the SAR alias only if no hop has been used yet (digipeater.c:171), not in
  any path, as the comment at digipeater.c:8 has it: `Digipeater.Spot` follows the code.

## Model

| member | source | states |
|---|---|---|
| Crc16.UpdateIsEightSteps | util/crc16.h:41-48 | for every register and octet the shift-and-xor update is eight steps of the reflected 0x8408 shift register |
| Crc16.FoldIsSteps | hdlc_encoder.c:193-209 | folded over a message it is that register run over the message's bits, low bits first |
| Crc16.MatchesIffResidue | hdlc_encoder.c:193-209 | two octets behind a message are the ones the encoder appends to it exactly when the register over them all is at the residue 0xF0B8 of section 3.7 of AX.25 v2.2 |
| Crc16.OwnFcsMatches | hdlc_encoder.c:208-209 | the two octets that the encoder appends are the FCS of those before |
| Crc16.BurstChangesCrc | util/crc16.h:41-48 | a change inside any sixteen consecutive bits of a message changes its CRC |
| ErrorDetection.DamageSeenIff | hdlc_decoder.c:161-176 | a frame that passes `crc_match`, then changed inside any sixteen consecutive bits, FCS included, passes if and only if the change is behind the octets that are compared: all of them, but for lengths cut to an octet and for an FCS behind a full slot |
| ErrorDetection.AdjacentOctetsSeenIff | hdlc_decoder.c:161-176 | the same for a change of two neighbouring octets, across the FCS boundary too |
| ErrorDetection.DamagedDelivery | hdlc_decoder.c:133-151 | what the decoder does with the damaged frame: it is delivered as it is, or not at all, by that condition |
| ErrorDetection.DamagedFrameDropped | hdlc_decoder.c:133-151 | a frame of 17 to 253 octets, no multiple of 32, sent with its FCS is not delivered with any such damage |
| HdlcFraming.NoFlagInside | hdlc_encoder.c:231-252 | from any run of ones, no flag starts inside stuffed data, not even with bits of what follows |
| HdlcEncoder.StuffTest | hdlc_encoder.c:238 | the mask test on the register holds exactly after five ones |
| HdlcEncoder.Encoder.EncodeByte | hdlc_encoder.c:231-252 | appends to the line exactly the octet's bits, stuffed from the run of ones that the register remembers, or unstuffed for a flag; terminates |
| HdlcEncoder.Encoder.EncodeFrame | hdlc_encoder.c:190-209 | appends the stuffed bits of the frame in the buffer and its FCS |
| HdlcEncoder.Encoder.EncodeFrames | hdlc_encoder.c:176-225 | puts exactly the transmission on the line: flags, frames with one flag between, flags; and takes one frame more than MAXFRAME off the queue if it is there |
| HdlcDecoder.Decoder.GetBit | hdlc_decoder.c:53-75 | takes the next token, a flag or a bit, off the pending bits, reading octets as needed, with the all-ones window at start-up |
| HdlcDecoder.MaskedIsSwallowed | hdlc_decoder.c:55-61 | of the octets that come at power-up the first two, and nothing else, read as ones |
| HdlcDecoder.Decoder.CheckCrc | hdlc_decoder.c:161-176 | compares as `CrcMatch` says, with the length cut to an octet and the read past a full slot |
| HdlcDecoder.Decoder.Resume | hdlc_decoder.c:82-152 | consumes one token and leaves the state that one step of the parser gives, which `FlagLaw` and `SixOnes` describe for flags and aborts |
| HdlcDecoder.Decoder.Decode | hdlc_decoder.c:82-152 | after any input, the place in the goto program, the partial frame and the frames delivered are what the parser makes of the bit stream |
| HdlcLink.Unstuff | hdlc_decoder.c:114-131 | inside a frame the decoder gathers from the stuffed bits exactly the data |
| HdlcLink.FrameDecodes | hdlc_decoder.c:95-152 | any stuffed bits, whole octets or not, and a flag, read between frames, end the frame with exactly those bits |
| HdlcLink.FlagLaw | hdlc_decoder.c:87-131 | one flag puts the decoder at the start of a frame from every state, the middle of an octet included, if and only if it has not just read five ones; it delivers nothing unless it ends a frame of at least nineteen whole octets |
| HdlcLink.OneFlagIsEnough | hdlc_decoder.c:87-152 | from every state one flag, any stuffed bits and their closing flag give what those bits give between frames, and after five ones just the loss of them; nothing delivered is taken back |
| HdlcLink.SixOnes | hdlc_decoder.c:122-124 | six ones in a row throw the decoder, whatever it was doing, back to looking for a flag and deliver nothing |
| HdlcLink.AlwaysPossible | hdlc_decoder.c:114-126 | at no time are more than five ones counted, nor any right after a zero was skipped |
| HdlcLink.TwoFlagsSynchronise | hdlc_decoder.c:87-99 | from every decoder state and after any bits, two flags leave the decoder at the start of a frame, with nothing delivered taken back |
| HdlcLink.TransmissionLine | hdlc_encoder.c:184-221 | a transmission is flags, the frames each closed by a flag, and flags |
| HdlcLink.LinkDelivers | hdlc_decoder.c:82-152 | a decoder between frames has delivered what `Deliver` says as soon as the flag after the last frame is through |
| HdlcLink.LinkSynchronises | hdlc_decoder.c:82-152 | the same from every decoder state and after any junk bits |
| HdlcDelivery.RunLaw | hdlc_encoder.c:231-252 | the run of ones left by stuffing, as a closed form of the ones the data ends with |
| HdlcDelivery.FrameFate | hdlc_decoder.c:95-152 | one frame is delivered, as it was sent, if and only if it arrives |
| HdlcDelivery.AnyBits | hdlc_decoder.c:95-152 | what any bit string sent as a frame comes to: checked if and only if it is 19 to 290 whole octets and does not end in a positive multiple of five ones, and then delivered without its last two octets if and only if they match |
| HdlcDelivery.NextFrameSurvives | hdlc_decoder.c:119-120 | behind a frame that is broken off anywhere, and one flag, the next frame is delivered if and only if it arrives and the broken one did not stop after five ones |
| HdlcDelivery.AllArriveIff | hdlc_decoder.c:82-152 | the frames of a transmission are delivered exactly and in order if and only if each has an acceptable length, passes the check and does not end in a positive multiple of five ones |
| HdlcDelivery.OrdinaryLength | hdlc_decoder.c:133 | a frame of 17 to 253 octets passes the check exactly if its length is no multiple of 32 (or what lies behind the slot happens to be its FCS) |
| HdlcDelivery.LongFrame | hdlc_decoder.c:161-176 | for 254 to 288 octets, exactly which prefix is checked against which two octets |
| HdlcDelivery.BadLength | hdlc_decoder.c:102-133 | shorter and longer frames are never delivered |
| HdlcDelivery.UnclosedTakesTheNext | hdlc_decoder.c:119-126 | a frame without its last stuffed zero is lost together with the next |
| UnclosedExample.UnclosedExists | hdlc_encoder.c:238 | a UI frame of eighteen octets with an ordinary header is of this kind |
| HdlcDelivery.TogglesOften | hdlc_encoder.c:184-221 | no seven ones in a row anywhere in a transmission, so the tone toggles at least every seven bit times |
| AfskTx.NrziReads | afsk_tx.c:104-106 | a bit is one exactly if the level stayed the same |
| AfskTx.NrziPolarity | tone.c:70-71 | starting with the other tone gives the inverse levels |
| AfskTx.Modulator.Tick | afsk_tx.c:93-113 | one clock tick sends the next bit of the queued octets, low bits first, or nothing; what is on the air and what is left is always what was put in |
| AfskTx.Modulator.Put | hdlc_encoder.c:246-249 | the encoder may queue octets at any time between clock ticks |
| AfskRx.SevenToNine | afsk_rx.c:242-290 | for any input the bits come 7 to 9 samples apart |
| AfskRx.OneBit | afsk_rx.c:242-290 | a level held for eight samples gives exactly one bit, from any phase |
| AfskRx.RightValueIff | afsk_rx.c:263-290 | the bit is right exactly unless the level changed with the phase above 56 |
| AfskRx.SampleIs | afsk_rx.c:242-290 | one sample by the numbers: a transition moves the phase by 1 towards 32, a sample by 8, and at 64 the bit has the level of at least two of the last three samples |
| AfskRx.OneGlitch | afsk_rx.c:242-290 | with a phase of 3 to 44, eight samples of a bit of which any one may be wrong give exactly that bit, and move the phase by at most 3 |
| AfskRx.GlitchesDoNoHarm | afsk_rx.c:242-290 | from a locked phase any bits are read right with a wrong sample, wherever it is, in up to five of them |
| AfskRx.TransitionLocks | afsk_rx.c:246-254 | each transition brings the phase one step closer to 31..32, where it stays |
| AfskRx.LockTime | afsk_rx.c:29-37 | 31 transitions lock the phase from anywhere, seven bring it to 56 or below |
| AfskRx.LockedReads | afsk_rx.c:242-290 | from a phase of at most 56 every bit is emitted once and is right |
| AfskRx.LocksOn | afsk_rx.c:242-290 | from any sampler state at all, seven level changes and one more bit, and everything after is right |
| AfskRx.Demodulator.ProcessSample | afsk_rx.c:242-290 | the program's fields after a sample are those of the sampler's step, and a recovered bit is queued |
| AfskRx.Demodulator.AddBit | afsk_rx.c:302-316 | bits are gathered into octets in the order they come; an octet that finds 128 octets in the queue is lost, and nothing else |
| EndToEnd.PhysicalLayer | afsk_rx.c:242-316 | any bits with eight zeros in front, toggled on zeros from either tone and sampled eight times a bit, come back as they were, one for one, from any receiver state |
| EndToEnd.LockedPhysicalLayer | afsk_rx.c:242-316 | a receiver that is locked gets all bits back from the second on, whichever tone was heard last, and the first if that was the one toggled from |
| EndToEnd.FramesCrossTheAir | hdlc_encoder.c:176-252 | from the frame queue over the air, with seven flags or more in front, into a receiver in any state whatever, the one at power-up included: its decoder delivers what `Deliver` says of the frames sent |
| EndToEnd.AllFramesCrossTheAir | hdlc_decoder.c:82-152 | the same with every frame of 17 to 253 octets, no multiple of 32 and not ending in a positive multiple of five ones: exactly those frames, in order |
| EndToEnd.LockedFramesCrossTheAir | hdlc_encoder.c:176-252 | for a receiver that is locked already, three flags in front are enough |
| FbufChains.LinkedIsDistinct | fbuf.c:105-119 | a chain that ends in NILPTR is acyclic |
| FbufChains.TailsAgree | fbuf.c:238-246 | two chains that meet share everything from there on |
| FbufChains.DropInv | fbuf.c:105-119 | one count less on exactly the slots of a chain keeps the accounts, and every buffer's contents |
| FbufChains.ShareInv | fbuf.c:126-140 | one count more on exactly the slots of a chain, likewise |
| FbufChains.ExtendInv | fbuf.c:174-198 | a slot added to an unshared chain keeps the accounts and, slot by slot, what the other buffers hold |
| FbufChains.SplitInv | fbuf.c:277-295 | a slot split under all its sharers, be it at the end of its bytes, keeps the accounts and the bytes of every buffer, and says what each slot holds then |
| FbufChains.JoinInv | fbuf.c:248-273 | an unshared chain linked to a tail of another holds the slots of both, and no other buffer changes |
| FbufReading.ReadsToEndIff | fbuf.c:329-340 | reading from the start of a buffer reaches its end if and only if none of its slots is empty |
| FbufCuts.WalkIsAt | fbuf.c:250-256 | the walk ends at the position: at the end of a slot it has passed, or that far into a slot |
| FbufCuts.CutHolds | fbuf.c:248-273 | a cut that is not past the bytes of its slot leaves the bytes as they were, and the tail holds those from the position on |
| FbufCuts.CutIff | fbuf.c:248-295 | after any cut a buffer that could be read to its end holds the same bytes and can be read to its end, if and only if the walk ends at the end of a slot it has passed or before the end of the bytes of one |
| FbufCuts.WalkFull | fbuf.c:250-256 | in a buffer with all slots before the last full every position can be cut at, and the cut is right before the end, and at the end if that is the end of a full slot |
| FbufCuts.SecondCut | fbuf.c:248-295 | the first cut inside a slot of such a buffer is right, a second at the same place leaves an empty slot in the buffer and in the tail |
| FbufCuts.CutAtEnd | fbuf.c:248-295 | so does the first cut at the very end, unless that is the end of a full slot |
| FbufChains.AllReleased | fbuf.c:105-119 | when all buffers are released all slots are free |
| FbufPool.Pool.New | fbuf.c:93-98 | an empty writable buffer of one slot, or one without slots if none is free |
| FbufPool.Pool.Release | fbuf.c:105-119 | the buffer is empty; every other holds, slot by slot, what it held; counts and free slots are exact |
| FbufPool.Pool.ReleaseAll | fbuf.c:105-119 | releasing all buffers in any order returns every slot |
| FbufPool.Pool.NewRef | fbuf.c:126-140 | a second handle on the same slots; every other buffer as before; counts are exact |
| FbufPool.Pool.PutChar | fbuf.c:174-198 | the byte goes into the last slot or a new one, or is dropped if a slot is needed and none is free or writing is not allowed; slots taken are exact |
| FbufPool.PutIsPrivateIff | fbuf.c:195-197 | a byte put in a last slot that has room changes no other buffer if and only if the slot is counted once |
| FbufPool.LinkIsPrivateIff | fbuf.c:183-191 | a new slot linked to a full last slot leaves all other chains as they are if and only if the full slot is counted once |
| FbufPool.Pool.Write | fbuf.c:302-307 | as many bytes as there is room for are appended, none if writing is not allowed |
| FbufPool.Pool.RemoveLast | fbuf.c:410-429 | the last byte is gone from the last slot; an emptied slot is free again unless it is the only one, and then the buffer is not writable any more; every other buffer as before |
| FbufPool.Pool.GetChar | fbuf.c:329-340 | anywhere in the slots reads what is there and moves on as `NextRead` says; at byte k of a buffer's contents it reads that byte, and goes to byte k+1 if no slot up to it is empty |
| FbufPool.Pool.Rseek | fbuf.c:153-163 | finds every position but the ends of slots, where it stops behind the slot's bytes |
| FbufPool.Pool.Split | fbuf.c:277-295 | anywhere up to the end of the slot's bytes no buffer holds other bytes; those through the slot can be read to their end as before if and only if it is cut before the end of its bytes |
| FbufPool.Pool.Connect | fbuf.c:248-273 | `b` holds its old bytes followed by those of `x` from the position on; `x` and every other buffer hold what they held; those through the slot that is cut, and `b`, can be read to their end if and only if the cut is right; neither can be written to |
| FbufPool.Pool.ConnectTwice | igate.c:286-294 | two buffers connected to two handles on one frame at one place inside a slot: all hold the right bytes, but only the first one connected can be read to its end |
| FbufPool.Pool.ReadableMeans | fbuf.c:329-340 | that no slot of a buffer is empty is what it takes to read it to its end |
| FcsCheck.SlotEndsAreMultiples | fbuf.c:153-163 | in a buffer that was only written to, the positions that are not found are the multiples of 32 |
| FcsCheck.CrcMatch | hdlc_decoder.c:161-176 | on a buffer in the pool the check computes what the decoder's model says |
| FbqModel.UnreadIsNotOverwritten | fbuf.c:477-489 | the next position to write is none of the unread ones |
| FbqModel.NextKeeps | fbuf.c:477-511 | every step of every thread keeps count plus capacity tokens, granted ones included, equal to the size, and puts in last and takes out first |
| FbqModel.NextConserves | fbuf.c:477-511 | every step keeps the buffers handed over: put in, or still with a waiting thread |
| FbqModel.FirstComeFirstServed | fbuf.c:477-511 | no step changes the order of the producers that wait or have been let in |
| FbqModel.AnyInterleaving | fbuf.c:477-511 | under any interleaving what came out and what is still there is what was put in, in that order, and nothing handed over is lost or doubled |
| FbqModel.EofIff | fbuf.h:83 | `fbq_eof` holds exactly if nothing is in the queue and no producer has been let in |
| FbqModel.FullIff | fbuf.h:84 | `fbq_full` holds exactly if all places are taken and nobody waits |
| FbqModel.NoDeadlock | fbuf.c:477-511 | when producers and consumers both wait, some thread can go on |
| FbqModel.Fbq.PutBuffer | fbuf.c:477-489 | `fbq_put` up to its wait is the model's step |
| FbqModel.Fbq.ResumePut | fbuf.c:477-489 | and so is the rest of it |
| FbqModel.Fbq.GetBuffer | fbuf.c:497-511 | `fbq_get` up to its wait is the model's step |
| FbqModel.Fbq.ResumeGet | fbuf.c:497-511 | and so is the rest of it |
| Ax25.AddrRoundTrip | ax25.c:182-222 | an address is read back as written exactly if it has at most six characters, none of them a space, zero or above 127, and an SSID below 16 |
| Ax25.CallOnAir | ax25.c:207-218 | octet i of an address field is the character moved up one bit, or 0x40 behind the end of the callsign |
| Ax25.SsidOnAir | ax25.c:219 | the seventh is 0x60 plus twice the SSID modulo 16, plus 0x80 if used, plus 1 if last |
| Ax25.AddrFromAir | ax25.c:182-199 | what any address field reads as: each octet but 0x40 and 0x41, moved down one bit, at its place among those, up to a zero; and SSID and flags by arithmetic on the seventh |
| Ax25.ReadIsGood | ax25.c:182-199 | whatever octets are read, the address is one that can be written |
| Ax25.HeaderOnAir | ax25.c:135-142 | every octet of every address field of a header, by position: destination, source, hops; used marks on hops only, end mark on the final address |
| Ax25.HeaderEndOnAir | ax25.c:145-148 | behind the addresses the control octet, and the PID if and only if that is even or 0x03 |
| Ax25.LongPath | ax25.c:135 | a path of more than seven hops is left out altogether |
| Ax25.HopsFromAir | ax25.c:164-172 | for any octets, hops are read up to the first end mark behind the destination, at most seven; eight is returned if and only if none of seven has it |
| Ax25.HeaderFromAir | ax25.c:164-171 | and each field of the header is read from its place |
| Ax25.HopsOfEncoded | ax25.c:127-172 | all hops are read back exactly if none but the final one carries the LAST flag |
| Ax25.HeaderRoundTrip | ax25.c:127-173 | addresses, path, used marks, control and PID are read back, LAST is on the final address only, and exactly 16+7n octets are consumed |
| Ax25.NoPid | ax25.c:144-150 | without a PID the header is 15+7n octets, and the octet after it is read as the PID |
| Ax25.DecodedIsGood | ax25.c:158-173 | every header read can be written again |
| Ax25.CallOfText | ax25.c:37-46 | for any text, the callsign is the text up to the first dash, its end or the seventh character, with a to z made A to Z and nothing else changed |
| Ax25.SsidOfText | ax25.c:38-45 | behind the dash one or two digits, up to something else, give the SSID modulo 16 |
| Ax25.AtoiBefore | ax25.c:39 | white space and a sign before the number, or no number |
| Ax25.TextOfAddr | ax25.c:56-63 | the callsign, then, if the SSID is not zero, a dash and its decimal digits without a leading zero |
| Ax25.TextRoundTrip | ax25.c:33-63 | an address written as text is read back exactly if it is in upper case |
| Ax25Codec.EncodeAddr | ax25.c:207-222 | appends the seven octets of the address, the ones of `CallOnAir` and `SsidOnAir`, to the buffer, as far as there is room |
| Ax25Codec.EncodeHeader | ax25.c:127-150 | appends the octets of the header, without a path if that has more than seven hops, as far as there is room |
| Ax25Codec.DecodeAddr | ax25.c:182-199 | reads seven octets at the cursor as the address of `AddrFromAir` |
| Ax25Codec.DecodeHeader | ax25.c:158-173 | reads the header, returns eight for seven unmarked hops, and leaves the cursor behind control and PID; what the slots behind it hold does not matter |
| Digipeater.NamesByLetter | digipeater.c:165-173 | which callsigns are taken for the two aliases, letter by letter in either case |
| Digipeater.RepeatedIff | digipeater.c:153-178 | a frame is repeated if and only if it has an unused hop and either that is WIDE1-1, with WIDE1 on, or it is the first hop and there is a SAR alias anywhere, with SAR on |
| Digipeater.NewPathIs | digipeater.c:180-199 | the new path in both cases: this station and SAR first and the first SAR alias taken out, which goes before the other; or this station and WIDE1 in place of the next hop |
| Digipeater.OneHopUsed | digipeater.c:153-199 | where the used hops come first, the new path is the used hops, this station, the alias, then the other hops in order; it is one hop longer with exactly one unused hop fewer |
| Digipeater.OneRepeatLess | digipeater.c:153-199 | whatever the path, its unused hops, counted once more while the first is unused, get fewer |
| Digipeater.StaysMarked | digipeater.c:180-199 | no hop but the final one is marked as the last, whatever hop was taken out |
| Digipeater.RepeatedDecodes | digipeater.c:138-213 | the sent frame decodes to the old addresses, control and PID, the new path with LAST on its final hop only, and the information unchanged |
| Digipeater.ChainsEnd | digipeater.c:138-213 | along any chain of digipeaters a frame is repeated no more often than that, which is as often as it has unused hops if the used ones come first, and its information comes through unchanged |
| Digipeater.FirstOctetLost | digipeater.c:202-208 | what happens to a frame without a PID |
| Digipeater.AliasIsText | digipeater.c:188-193 | the aliases are what `str2addr` makes of their names |
| Digipeater.RewritePath | digipeater.c:153-199 | the loops over the two arrays compute the path of `RepeatedIff` and `NewPathIs`, or give up where there is none |
| Digipeater.HeaderCut | digipeater.c:205-208 | a frame as it comes from the decoder can be cut behind its header, and what is left can be read if and only if there is some information; a second cut there is never right |
| Digipeater.CheckFrame | digipeater.c:138-213 | the new buffer holds exactly the repeated frame, and the received one and all others hold what they held; it can be read to its end if and only if no slot behind the cut is empty, and the received one if and only if it could be and the cut is right; nothing is sent if and only if the frame is a duplicate or not to be repeated by `RepeatedIff` |
| Digipeater.HandleFrame | digipeater.c:54-64 | after the received buffer is released the one to be sent still holds the frame; frames with no slot in common with it are untouched |
| Digipeater.ReceiveFrame | hdlc_decoder.c:107-140 | put into a new buffer with its FCS, which is taken away again, a frame is there as if it was only written |
| Digipeater.ReceiveAndRepeat | hdlc_decoder.c:107-150 | of a received frame, handed on by reference, the digipeater sends the repeated frame; that and the frame can be read to the end if and only if there is some information |
| Eeprom.WrittenIsByteByByte | util/eeprom.c:228-238 | the specification of a block write is writing its octets one after the other, those beyond the end dropped |
| Eeprom.ReadBack | util/eeprom.c:202-213 | what is read after a write is the data where it went, the old contents elsewhere |
| Eeprom.Octets16ByNumber | util/eeprom.c:255-262 | the two octets of a word, low one first, are its digits to base 256 |
| Eeprom.Octets32ByNumber | util/eeprom.c:267-308 | and so are the four of a double word |
| Eeprom.Memory.WriteWord | util/eeprom.c:240-265 | aligned or not, the low octet first, or nothing if it does not fit; no store leaves its aligned cell |
| Eeprom.Memory.WriteDword | util/eeprom.c:267-308 | likewise for all four alignments |
| Eeprom.Memory.WriteBlock | util/eeprom.c:310-356 | with stores of four, two and one octets, for every offset and length, what writing the octets one by one does; no store leaves its aligned cell |
| Eeprom.Memory.ReadBlock | util/eeprom.c:202-213 | copies what there is up to the end, and leaves the rest of the buffer; nothing if the end of the block wraps around |
| Config.OwnerOf | config.h:58-106 | every cell of a parameter's records belongs to that parameter alone and is inside the memory |
| Config.NoGaps | config.h:58-106 | the table fills the memory from 0 to 816, every size and number of instances included, but for the one cell 111 |
| Config.RecordsDisjoint | config.h:174-175 | no two records overlap, the six instances of WIFIAP included |
| Config.ChecksumParity | config.c:33-43 | bit by bit, the checksum is the parity of the value's octets, with the low four bits inverted |
| Config.SetGet | config.c:31-72 | what was set is got; a record elsewhere is got as before |
| Config.DamageDetected | config.c:54-72 | a record that was intact is not intact after a change of any one octet, the checksum included; then the default is got |
| Config.DamageElsewhere | config.c:54-72 | a change outside a record has no effect on what is got from it |
| Config.StoreIsMap | config.c:31-105 | after any sequence of settings every parameter and instance has the value it was last given, or what it had before |
| Config.SetParam | config.c:31-44 | writes the value and its checksum |
| Config.GetParam | config.c:54-72 | reads the value, or the default with a failure code if the checksum is wrong, for every address |
| Config.SetByteParam | config.c:79-85 | writes the record of a one-octet value |
| Config.GetByteParam | config.c:95-105 | reads it, or the default, for every address |
| Bits.BitByNumber | ui/gui.c:187 | bit k of an octet, the row of a screen octet as well as the k-th bit on the line, is what its quotient by the k-th power of two leaves modulo 2 |
| GuiLine.Ends | ui/gui.c:232-245 | the line starts at the one end point, and its last pixel and no other is the other end point |
| GuiLine.StaysInBox | ui/gui.c:232-245 | no pixel is outside the rectangle that the end points span |
| GuiLine.NearTheLine | ui/gui.c:232-245 | every pixel is within half a pixel of the ideal line |
| GuiLine.RoundedIff | ui/gui.c:237-243 | the rounded quotient is the one offset within half a pixel |
| GuiLine.NextStep | ui/gui.c:241-243 | the two tests on the error term step to the next pixel of the rounded line |
| GuiLine.Screen.SetPixel | ui/gui.c:184-192 | exactly one bit of the packed buffer changes: row y modulo 8, counted from the low end, of the octet at (y / 8, x); and that octet's strip is marked as changed |
| GuiLine.Screen.DrawLine | ui/gui.c:232-245 | terminates after max(\|dx\|, \|dy\|) + 1 pixels; exactly the pixels of the line are set, and their strips marked as changed |
| LatLong.SendScaled | tracker.c:595-601 | four characters that decode to the value exactly |
| LatLong.SendLatLong | tracker.c:592-602 | four characters in 33..123 that decode to less than one step (1/190463 or 1/380926 of a degree) from the position, never east or south of it |

## Left out

- The filters, gain control, converters and tone generation: the receiver's input is the comparator's sample, the transmitter's output the tone's level.
- Threads, timers and locks of ChibiOS: a critical section is one step, semaphores hand tokens to waiting threads, and which thread goes on next is arbitrary.
- `fbuf_insert` (unused, and does not count the tail it shares), `fbq_clear` (releases from the wrong index), `fbuf_read` and `fbuf_streamRead`.
- `heardlist.c`: whether a frame is a duplicate is a parameter of `CheckFrame`.
- Channel access, transmitter keying, radio commands, WiFi, the igate, GPS, menus and the rest of the user interface.
- The out-of-memory handler: without one, `fbuf_putChar` drops the byte, and this is what is modelled.
- HdlcEncoder.Encoder.EncodeFrames: the queue is as it is when the transmission begins; frames queued while it is under way are not modelled, nor are empty frames, nor the monitor queue.
- HdlcDecoder.Decoder.Decode: frames are handed over as values; that the first subscriber may release the buffer before the others take their references, and an exhausted pool, are not modelled.
- AfskTx.Modulator.Tick: a transmission that runs dry half way is not related to the frames in it.
- EndToEnd.FramesCrossTheAir: assumes eight samples to each bit, a preamble of seven flags or more (three for a receiver that is locked), and no octet dropped by a full receiver queue.
- FbufPool.Pool.PutChar: requires that a buffer that can be written to has no slot in common with another, as the source asks of its callers; what happens otherwise is `PutIsPrivateIff` and `LinkIsPrivateIff`. Lengths of buffers are not cut to 16 bits, nor counts to 8.
- FbufPool.Pool.GetChar: requires a read position inside the slots; outside them the source reads other memory.
- FbufPool.Pool.Connect: requires a position inside `x` or at its end and not past the bytes of the slot where the walk ends (there `CutIff` says what goes wrong), a `b` that has a slot and shares none, and a free slot where one is needed.
- FbufPool.Pool.RemoveLast: requires the last slot to be unshared and not empty.
- FbqModel.Fbq.constructor: sizes from 1 to 255 only; the queue's size is an octet.
- Ax25.StrToAddr: a callsign of seven characters overruns its array in the source and is kept whole here; `atoi` has no limit on its digits.
- Digipeater.CheckFrame: requires a whole header in slots that are not empty, at most seven hops, and, if the frame is repeated, at most six hops, four free slots, and slots that are not cut past their bytes behind the header.
- Digipeater.OneHopUsed: for paths in which the used hops come first; for the others there is `OneRepeatLess`.
- Digipeater.ChainsEnd: for I and UI frames; the others lose an octet at each station.
- Digipeater.RepeatedDecodes: the command and response bits of the two addresses are cleared, as the source does.
- Config.GetParam: the default values themselves are a parameter.
- Eeprom.Memory.WriteBlock: the wait for the memory to become ready is not modelled.
- LatLong.SendLatLong: real numbers instead of doubles.
- GuiLine.Screen.DrawLine: end points must be on the screen; integers do not overflow.
- The other variants in `util/crc16.h`, `fifo.h`, smart beaconing and the position rings in `tracker.c`.
