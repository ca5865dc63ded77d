# BLUETTI tool: verified model

A Dafny model of the algorithms and protocols at the heart of the desktop tool for BLUETTI
power stations and of its reference firmware and tools, with proofs of what they are for.
`dafny verify dfyconfig.toml` checks everything.

| module | what it models |
|---|---|
| BlackBox | the circular log file of the communication module, its timestamp search and its incremental reader |
| Crc16, Rtu, Crc32 | the two 16-bit CRCs, the Modbus RTU frames, the image packer's CRC-32 |
| OtaPackets, OtaTrace, OtaDistribution, OtaSender | the Bluetooth firmware transfer as the client runs it, from the start request to the distribution report |
| OtaReceiver, OtaClient, ImageCheck | the device's end of it, up to the check of the finished image |
| OtaDelivery, OtaCompletion | both ends together: what is delivered, and which runs can finish |
| Cbc, Reassembly, BusinessLink | the encrypted business packets, their reassembly from notifications, and what the session lets through to it |
| HandshakeSpec, HandshakeSafety, HandshakePieces, HandshakeSession | authentication and key exchange |
| HandshakeDevice | the same with a device that derives its own keys |
| ScanList, RssiLatch | the scan list with ageing, and its signal-strength filter |
| TabWrap, QueryOrder | tab wrapping, and drag and drop with a selection |
| RegisterRmw | gated read-modify-write of register bits and fields |
| HttpCommand | the JSON of the HTTP upgrade command, and its frame |

Operations that update state in place are methods of classes, proved against functions on values;
what the source promises is proved about those functions, over all inputs and, for protocols, over
all runs. A run is a value of a datatype such as `History`, `Trace` or `Run`, latest event
outermost. Failures of files, links, locks and allocations, the peer's answers and the moment a
user presses stop are arguments or arbitrary choices.

## What a run needs

- The log reader: record times are positive and strictly increase. Whether a read comes in time is
  part of the statement (`InTime`), and it is shown to be necessary as well as sufficient. The log
  object carries its history, and every operation is one of its events. Clearing takes no lock
  (`iot_box_task.c:421-447`), unlike reading and writing: that it never overlaps one is assumed.
- Delivery of an image: the receiver is the XMODEM client of the communication module
  (`OtaReceiver`, `OtaClient`). Unlike the XMODEM protocol (chapters 7 and 8 of Forsberg's
  XMODEM/YMODEM Protocol Reference) it answers NAK to a packet it already has. Delivery is
  equivalent to every acknowledgement having been earned (`Genuine`). Two hypotheses suffice for
  that: `Prompt`, that each acknowledgement taken answers the latest transmission, and `OnceEach`,
  that none is taken that was not sent and none twice, however late. On the channel a frame is
  lost, arrives, is refused, or is damaged: a packet by a burst of at most 16 bits, EOT and ETX in
  any way, a start request so that it fails its own CRC (`Rtu.BurstRejected`). Two kinds of such
  damage make one valid frame of another and are excluded: a packet whose number becomes another
  one with a matching complement, and EOT that becomes ETX. `RenumberingMisleads` and
  `DisguisedEotMisleads` show why, and `DamagedStored` that packets know no other.
- A verdict on the distribution: nothing bounds the polling. A device whose report changes at least
  every 90 seconds keeps the client at it (`EndlessPolls`), and `UnjudgedIff` says when it is still
  polling; a run is therefore allowed to end in that state.
- Encryption: AES is any block permutation, MD5, signatures and key agreement are any functions.
  A generated secret is known by its number, so that one can say it is used once.
- The gate: nothing but the modelled writers changes the register, and every reply taken for the
  answer to a read carries its present word (`Truthful`). Replies carry no register address and the
  client takes the first one that comes, so this does not hold by itself: `LateReplyUndoes` shows
  what a late reply does, and `SerialIffFaithful` with `RightIffAgreeing` when it does no harm.

## What the code does not do

Stated as theorems beside the positive results:

- `SplitPush`, `SplitMatters`: a notification that carries an illegal length drops the whole buffer, so how a
  malformed stream is cut matters.
- `OwnPacketConsumed`: the client's sender pads a message of whole blocks with a spare block which
  the receiving rule does not count.
- `TrimUndoesPad`, `ExchangeAcceptedIff`: padding and trailing zero bytes cannot be told apart; a
  key exchange message whose checksum ends in 00 is refused.
- `KeepsUpIff`, `UnluckyCut`: on an encrypted link a later piece of a business packet that happens
  to begin 2A2A01 or 2A2A03 is taken for an authentication message.
- `DisguisedEotMisleads`: EOT and ETX are one burst of 3 bits apart and get the same answer, so the
  sender can take an aborted transfer for a finished one.
- `EndlessPolls`: a device that keeps changing its report is polled without end.
- `LostAckEndsTransfer`, `EveryAckCounts`: the device does not acknowledge a packet again that it
  has, so one lost acknowledgement ends a transfer; `CanFinishIffOpen` says which ones can still get
  through.
- `CrcsAgree`, `PackedPasses`: the packer puts the last bytes of an image that is not a whole number
  of words at the low end of the last word, the device at the high end; such an image, if it is one
  the module passes on, is refused after delivery unless those bytes are zero.
- `AuthenticatedIffLastStatus`, `FailedAuthHappens`: a failed authentication does not invalidate an
  exchange under way, so an encrypted link need not stand on the latest authentication.
- `CollectingIff`, `Overshoot`: a collected packet that overshoots is handled only when a later piece
  happens to make up for the excess; until then everything that comes is swallowed.
- `AbortAfterEotAnswer`: stop pressed while the EOT acknowledgement is on its way still aborts.
- `LateReplyHappens`: a late reply can undo another writer's bits although both held the gate.
- `BoxLog.Clear`: the counters are reset only if the file opens. `BoxLog.Pop`: when the lock is not
  obtained the log line says that the record is discarded, but it stays queued; the code is followed.
- `ResetKeepsGeneration`: clearing the scan list does not bump the generation.
- `WriteHoldingRegisters`: a write reported as failed may have taken effect, and one reported as done
  may not have: the acknowledgement is checked for its shape only.

## Model

| member | source | states |
|---|---|---|
| BlackBox.WriteAppends | ref/comm/components/black_box/iot_box_task.c:373-389 | Writing the slot at the write index and advancing index and saved count appends to the list of the last N records, before, at and after the wrap. |
| BlackBox.UnrollHolds | ref/comm/components/black_box/iot_box_task.c:555-600 | Record i of that list is the one at (oldest + i) mod N. |
| BlackBox.UnrollSuffix | ref/comm/components/black_box/iot_box_task.c:698-748 | The last `count` records of the list are the range that starts at the computed physical index, whether it is one stretch of the file or two. |
| BlackBox.Search | ref/comm/components/black_box/iot_box_task.c:600-631 | Halving terminates and finds the first newer record; a failed read gives 0. On a log whose times jump, the result still starts at a true crossing. |
| BlackBox.CrossingCounts | ref/comm/components/black_box/iot_box_task.c:539-631 | On a sorted log a crossing is the linear count of newer records; together with the end checks the answer is 0 exactly when neither end is newer. |
| BlackBox.CountedSuffixIsNew | ref/comm/components/black_box/iot_box_task.c:656-763 | On a sorted log the suffix of the counted length is the records newer than the asked time. |
| BlackBox.CopyRange | ref/comm/components/black_box/iot_box_task.c:711-748 | Copying in one or two chunks yields exactly the range, or nothing if a needed chunk fails. |
| BlackBox.BoxLog.Pop | ref/comm/components/black_box/iot_box_task.c:347-412 | Any outcome of lock, queue and write leaves the file holding the last min(N, written) records; a failed write drops the message and reports 2; only device 0 is stored; without the lock the message stays queued. |
| BlackBox.BoxLog.Store | ref/comm/components/black_box/iot_box_task.c:373-389 | A record that has been written: index and count move on round the end of the file, and the list and the history grow by it. |
| BlackBox.BoxLog.HoldsAvailable | ref/comm/components/black_box/iot_box_task.c:347-447 | The file always holds what its history of writes, clears and reads leaves available to a reader. |
| BlackBox.BoxLog.ReadNext | ref/comm/components/black_box/iot_box_task.c:656-763 | The reader's next call, from the newest time it has: its outcome is that of a read of the history, successful exactly if it got what there was to get, and what it holds is complete and in order if and only if it has always read in time. |
| BlackBox.BoxLog.Clear | ref/comm/components/black_box/iot_box_task.c:421-447 | Empties the log, but only if the file can be opened. |
| BlackBox.BoxLog.CountNew | ref/comm/components/black_box/iot_box_task.c:539-632 | At most the saved count; with all reads working, a true crossing on any log and the linear count on a sorted one; with a failing read, 0 or the same. |
| BlackBox.BoxLog.ReadIncremental | ref/comm/components/black_box/iot_box_task.c:656-763 | A successful read hands over exactly the suffix of the counted length; a failing one hands over nothing. |
| BlackBox.ReaderPosition | ref/comm/components/black_box/iot_box_task.c:656-763 | Over any run, the time the reader asks from marks a position with nothing still stored between it and the previous successful read. |
| BlackBox.ReadDelivers | ref/comm/components/black_box/iot_box_task.c:656-763 | Over any run, a successful read delivers exactly the records written since the last successful one that are still stored, in order. |
| BlackBox.ExactlyOnce | ref/comm/components/black_box/iot_box_task.c:347-763 | A reader that starts from 0 and then asks from the newest time it received holds every record once and in order if and only if each read came before more than N records were written and before a clear removed an unread one. |
| Crc16.Compute | src/services/ble/ota.rs:115-128 | The bitwise loop computes the CRC defined by folding bytes; the Modbus variant of the same loop likewise. |
| Crc16.CheckValues | src/services/ble/ota.rs:986-988 | The test message 123456789 has the CRC 0x31C3, and 0x4B37 in the Modbus variant. |
| Crc16.FoldInjective | src/services/ble/ota.rs:115-128 | Different registers stay different over any common suffix. |
| Crc16.FoldIsBits | src/services/ble/ota.rs:115-128 | The byte-wise CRC is the polynomial division of the message fed one bit at a time. |
| Crc16.BurstDetected | src/services/ble/ota.rs:115-128 | Two equally long messages that differ only within 16 consecutive bits have different CRCs, for both variants and every length. |
| Crc16.AdjacentBytes | src/services/ble/ota.rs:115-128 | Messages that differ only in two adjacent bytes are such a pair. |
| Crc16.Residue | src/services/ble/ota.rs:141-143 | A register followed by two bytes becomes 0 exactly if they are its own bytes in transmission order. |
| Crc16.MessageResidue | ref/ble_ident/src/ble/rtu.rs:49-79 | The CRC over a message and two more bytes is 0 exactly if those are its CRC: high byte first for XMODEM, low byte first for Modbus. |
| Rtu.VerifyIsResidue | ref/ble_ident/src/ble/rtu.rs:71-79 | The comparison of the last two bytes accepts exactly the frames of at least 3 bytes whose whole CRC is 0. |
| Rtu.BuiltPasses | ref/ble_ident/src/ble/rtu.rs:5-14 | Every frame with its CRC appended passes the check. |
| Rtu.ReadRequestPasses | ref/ble_ident/src/ble/rtu.rs:5-14 | Every read request passes the check and carries address, function 3, start and count. |
| Rtu.WriteMultipleReads | src/services/ble/modbus/tlv.rs:116-132 | A request to write any number of registers passes the check, and start and values read back; number and byte count are there, cut to 16 and 8 bits. |
| Rtu.BurstRejected | ref/ble_ident/src/ble/rtu.rs:71-79 | No frame that passes can be turned into another one that passes by an error burst of at most 16 bits. |
| Rtu.ParseReadHolding | ref/ble_ident/src/ble/rtu.rs:16-47 | Accepts exactly the replies of the asked device with function 3, the right byte count, room for the registers and a zero CRC over the whole, and returns the big-endian words. |
| Rtu.ReplyRoundTrip | ref/ble_ident/src/ble/rtu.rs:16-47 | A normal reply of function 3 meets that condition and its registers read back. |
| Crc32.WordStepIsByteSteps | ref/dev/add_crc32.py:12-45 | One 32-bit step is four byte steps, most significant byte first. |
| Crc32.WordsAreBytes | ref/dev/add_crc32.py:12-45 | The word-wise CRC-32 is the byte-wise one, on the data itself if its length is a multiple of 4 and otherwise on the data with zero bytes inserted before its last partial word. |
| Crc32.Crc32Calc | ref/dev/add_crc32.py:12-45 | The loops, including the separate handling of the last 1 to 3 bytes, compute that CRC. |
| Crc32.AddCrc32 | ref/dev/add_crc32.py:47-83 | The trailer of 4 + 16 bytes lies within one 1024-byte block, with the least filler that makes it do so and never more than 19 bytes; the CRC covers everything before it. |
| Crc32.Straddles | ref/dev/add_crc32.py:56-68 | With fewer than 20 bytes left in a block no earlier position would do. |
| Crc32.PackedResidue | ref/dev/add_crc32.py:70-78 | For data of whole words the CRC over data and stored CRC is 0. |
| OtaPackets.BuildXmodem1kPacket | src/services/ble/ota.rs:130-145 | Header, block number mod 256 and its complement, 1024 data bytes filled up with 0x1A, CRC high byte first. |
| OtaPackets.TransferHoldsImage | src/services/ble/ota.rs:130-145 | All blocks together have the image as their prefix, followed by fewer than 1024 bytes, all 0x1A. |
| OtaTrace.OneByOne | src/services/ble/ota.rs:733-947 | Packet k + 1 never goes out before packet k was acknowledged, nor EOT before all were; only the latest frame can be waited for, and only while it is not acknowledged. |
| OtaTrace.TotalIsSum | src/services/ble/ota.rs:733-947 | The frames sent are those of start, data and EOT together, each tried at most five times, whether or not the link took it. |
| OtaTrace.Bounds | src/services/ble/ota.rs:733-947 | At most 5 + 5n + 5 frames, at most one of them after stop, and at most two ETX. |
| OtaTrace.AbortWindow | src/services/ble/ota.rs:270-302 | ETX goes out only after stop, after the device's C was acted on and before an EOT acknowledgement was; nothing but ETX follows. |
| OtaDistribution.PickDistributionSlot | src/services/ble/ota.rs:582-643 | A locked slot is reported whatever it holds; otherwise the first best-ranked slot of the right file type, or none; percentage, error and depth are those of its three registers. |
| OtaDistribution.Ranking | src/services/ble/ota.rs:586-621 | No slot of the file type is active unless the one picked is; among slots alike in that, one that distributes is passed over only for at least 100 % more progress, one with an error likewise if they agree on distributing, and if they agree on all that the one picked shows no less progress. |
| OtaSender.OtaRun.Exchange | src/services/ble/ota.rs:735-802 | One frame with up to five tries, each with its own wait: it ends acknowledged exactly if the sender acted on a match, stopped exactly if stop was pressed, cancelled exactly if the device cancelled, and exhausted only after five tries; the trace stays safe and no wait stays open. |
| OtaSender.OtaRun.NotifyDeviceXmodemAbort | src/services/ble/ota.rs:270-302 | One ETX is tried, and a second one exactly if the first went out; done exactly if the first was acknowledged and the second went out. |
| OtaSender.OtaRun.FinishUserStop | src/services/ble/ota.rs:236-268 | The run is over; the device is told exactly if it is in the transfer, and a disconnect is requested exactly if phase and ETX outcome demand it. |
| OtaSender.OtaRun.SendPackets | src/services/ble/ota.rs:811-902 | All packets in order, each until it is acknowledged; it ends early only on stop, on the device's CAN, or with a packet whose five tries were in vain. |
| OtaSender.OtaRun.Transfer | src/services/ble/ota.rs:733-947 | Start request, packets and EOT: through exactly if the sender acted on the EOT acknowledgement; failed only if the device cancelled or five tries of some frame were in vain. |
| OtaPackets.PacketParts | src/services/ble/ota.rs:130-145 | A built packet begins with 0x02, the number k + 1 and its complement, carries block k and ends in its CRC. |
| OtaReceiver.IntactStored | ref/comm/components/iot_xmodem/xmodem_client.c:815-850 | An intact packet is stored and acknowledged exactly if it carries the awaited number, and answered with NAK otherwise, even if it is the one stored last. |
| OtaReceiver.DamagedStored | ref/comm/components/iot_xmodem/xmodem_client.c:815-850 | A packet hit by a burst of at most 16 bits anywhere is acknowledged exactly if the burst has left a consistent header with the awaited number; otherwise nothing is stored. |
| OtaReceiver.SmallStored | ref/comm/components/iot_xmodem/xmodem_client.c:815-850 | A 128-byte packet is stored exactly if number, complement and CRC are right and the buffer has room for it, and answered with NAK otherwise. |
| OtaReceiver.RenumberedTaken | ref/comm/components/iot_xmodem/xmodem_client.c:815-850 | Such a burst exists: number and complement are neighbours, and a device that has the packet stores it a second time as the next one. |
| OtaClient.XmodemClient.CmdCheck | ref/comm/components/iot_xmodem/xmodem_client.c:69-142 | A start request opens a session anew, also after one that was handed over, and is ignored while a session is in use or other updating is under way. |
| OtaClient.XmodemClient.Unpack | ref/comm/components/iot_xmodem/xmodem_client.c:815-850 | Complement, number and CRC are checked; an accepted packet of 1024 or 128 bytes goes to the end of the buffer if it fits, and the awaited number moves on. |
| OtaClient.XmodemClient.Handle | ref/comm/components/iot_xmodem/xmodem_client.c:907-1143 | Packets of both sizes are collected in the 4 KiB buffer, which is written when it is exactly full; flash and buffer together are what has been received, and a handed-over image is in flash. EOT and ETX end the session. |
| OtaClient.XmodemClient.Client | ref/comm/components/iot_xmodem/xmodem_client.c:625-813 | One frame, with the session's end and the limit of 20 errors, counted from the first frame and the last success on: the object answers and changes as the receiver of the transfer theorems does, and gives up exactly on too many errors or on a failing write or check that the frame calls for. |
| OtaClient.XmodemClient.Poll | ref/comm/components/iot_xmodem/xmodem_client.c:660-800 | With nothing to read: what is answered in each state, the call before the first frame and NAK after it; it never acknowledges and loses nothing, and gives up exactly after 20 errors. |
| OtaDelivery.GenuineInStep | src/services/ble/ota.rs:811-902 | If every acknowledgement acted on was earned, the device holds exactly the blocks the sender is done with, or one more, under loss, under bursts of at most 16 bits in packets and under any damage to control bytes, short of the two disguises. |
| OtaDelivery.BehindStays | ref/comm/components/iot_xmodem/xmodem_client.c:815-850 | A device that has fallen behind stays behind, even where packet numbers repeat. |
| OtaDelivery.DeliveredIffGenuine | src/services/ble/ota.rs:811-946 | On that channel, for a sender that acted on the EOT acknowledgement: the device has accepted the transfer and holds exactly the image's blocks if and only if every acknowledgement acted on was earned. |
| OtaDelivery.DeliveredImage | src/services/ble/ota.rs:130-145 | Then the first len bytes are the image and the rest, fewer than 1024, is 0x1A. |
| OtaDelivery.PromptIsGenuine | src/services/ble/ota.rs:853-868 | Acknowledgements that answer the latest transmission are earned. |
| OtaDelivery.OnceEachIsGenuine | src/services/ble/ota.rs:853-868 | So are acknowledgements that come as late as they like, if none is taken that was not sent, and none twice. |
| OtaDelivery.FinishedIsDelivered | src/services/ble/ota.rs:811-946 | Hence under either hypothesis a finished transfer has delivered ceil(len/1024) blocks whose first len bytes are the image. |
| OtaDelivery.EveryAckCounts | ref/comm/components/iot_xmodem/xmodem_client.c:815-850 | If none is taken twice, a sender that gets to act on the EOT acknowledgement has taken all n + 1 that the device ever sent. |
| OtaCompletion.LostAckEndsTransfer | ref/comm/components/iot_xmodem/xmodem_client.c:815-850 | Once a block is stored and its acknowledgement is no longer to be had, because it was lost or the sender has stopped waiting for it, no further packet gets done and EOT is never acknowledged, however the run goes on. |
| OtaCompletion.CanFinishIffOpen | src/services/ble/ota.rs:811-946 | A started, unstopped transfer with prompt answers can still reach the EOT acknowledgement if and only if it has it, or sender and device agree, a try is left and the device has not cancelled, or the sender is waiting for the acknowledgement wanted and it is at hand. |
| OtaCompletion.LostAckHappens | ref/comm/components/iot_xmodem/xmodem_client.c:815-850 | Any packet of any image may be the one whose acknowledgement is lost: it arrives, the sender waits in vain, and the transfer can no longer finish. |
| OtaCompletion.CancelCloses | src/services/ble/ota.rs:870-873 | A CAN taken for the answer ends every transfer that is not through, whatever frame was waited for. |
| OtaCompletion.UnearnedAckMisleads | src/services/ble/ota.rs:853-868 | An acknowledgement that was not earned makes the sender skip a packet, and no continuation of that run that finishes has delivered the image. |
| OtaCompletion.UnearnedAckHappens | src/services/ble/ota.rs:853-868 | The sender's own rules allow such a run for every image and packet. |
| OtaCompletion.RenumberingMisleads | ref/comm/components/iot_xmodem/xmodem_client.c:815-850 | For every image, a burst that renumbers the second try of the last packet, sent after a wait in vain, ends with all packets done, every answer prompt and that block stored twice. |
| OtaCompletion.DisguisedEotMisleads | ref/comm/components/iot_xmodem/xmodem_client.c:1054-1143 | For every image, an EOT that arrives as ETX is acknowledged promptly, and the sender takes for finished what the device has dropped. |
| OtaTrace.AbortAfterEotAnswer | src/services/ble/ota.rs:922-926 | Once the device has acknowledged EOT and no abort has been tried, an ETX can still follow if and only if the sender has not acted on that answer, which is when stop came first. |
| OtaTrace.AbortAfterEotHappens | src/services/ble/ota.rs:922-926 | Such a run exists from wherever the answer to EOT is awaited. |
| ImageCheck.TableStepIsByteStep | ref/comm/components/utilities/crc.c:267-272 | Looking a byte up in the table is shifting eight times. |
| ImageCheck.CalcuCrc32 | ref/comm/components/utilities/crc.c:261-304 | The device's CRC-32 is the byte-wise one of the data with zero bytes behind it up to whole words. |
| ImageCheck.VerifyCrc | ref/comm/components/iot_xmodem/xmodem_client.c:852-905 | The device skips the 0x1A at the end, steps over the 20-byte trailer, computes its CRC over the rest in pieces of 1024 bytes and compares it with the one stored there; after 2048 bytes 0x1A it stops looking and compares with 0. |
| ImageCheck.CrcsAgree | ref/dev/add_crc32.py:12-45 | The packer's and the device's CRC-32 agree if and only if the data is a whole number of words or its bytes beyond that are all zero. |
| ImageCheck.PackedPasses | ref/dev/add_crc32.py:47-83 | A packed image that has been delivered passes the device's check if and only if its body, filler included, is a whole number of words or its bytes beyond that are all zero. |
| OtaDistribution.SuccessWasReported | src/services/ble/ota.rs:487-580 | Success means that some poll in time reported 100 % without an error for the slot locked on. |
| OtaDistribution.PatienceLasts | src/services/ble/ota.rs:496-530 | Patience ends exactly 90 seconds after the last report that changed, and never earlier than 90 seconds after any that did. |
| OtaDistribution.UnjudgedIff | src/services/ble/ota.rs:502-580 | There is no verdict yet if and only if every poll so far began before the deadline then in force and reported neither an error nor 100 %. |
| OtaDistribution.DecisiveDecides | src/services/ble/ota.rs:502-556 | The first poll that is not undecided gives the verdict: success if it began before its deadline and its slot reads 100 % and no error, failure otherwise. |
| OtaDistribution.RenewsIff | src/services/ble/ota.rs:526-536 | A poll renews the patience if and only if it comes in time with the first report, or with one that differs from the one before in percentage, depth or slot. |
| OtaDistribution.EndlessPolls | src/services/ble/ota.rs:502-580 | A device that shows two different reports in turn, free of errors and short of 100 %, is polled for ever. |
| OtaSender.StartRequestReads | src/services/ble/ota.rs:147-169 | The start request exists exactly for images of 1 to 65535 packets, passes the CRC check and reads, from register 700 on: 1, the type, the version with its last two digits 99 in two words, the low one first, the number of packets and the device group. |
| OtaSender.OtaRun.WaitControl | src/services/ble/ota.rs:384-446 | Told from the packets alone, the first of one to four bytes in poll order that begins with the expected byte, CAN or (awaiting an acknowledgement or C) NAK decides: match, NAK or CAN by that byte, and a timeout exactly if there is none; only stop cuts the wait short, and nothing is sent meanwhile. |
| OtaSender.ScanDecides | src/services/ble/ota.rs:98-113 | The scan of the polls gives exactly that answer. |
| OtaSender.ReplyHeard | src/services/ble/ota.rs:98-113 | Every reply of the device, heard alone while an acknowledgement is awaited, is a match if and only if it is ACK, NAK and CAN are what they are, and the call for the first packet is passed over. |
| OtaSender.OtaRun.WaitOtaDistribution | src/services/ble/ota.rs:487-580 | The first poll that is late, shows an error or shows 100 % decides: success exactly if it is in time and its slot reads 100 % and no error, failure otherwise; without one the polling goes on; stop, and only stop, ends it otherwise. None of the transfer's frames is sent. |
| OtaSender.OtaRun.RunBleOta | src/services/ble/ota.rs:646-980 | Whatever the device answers and whenever stop is pressed: the run fails only if the link is not encrypted, the image has no start request, the device cancelled, five tries of a frame were in vain or the distribution failed; once EOT is through the outcome is success for the module itself and else the verdict of the polls, or a stop; with a device that answers each wait, and no stop, EOT gets through with every frame sent once; a stopped run tells the device and asks for a disconnect exactly as demanded; and on the channel above there is delivery if and only if the acknowledgements were earned. |
| OtaSender.CooperativeRuns | src/services/ble/ota.rs:733-947 | In a world where the link takes every frame, the first wait finds C, every other one an acknowledgement, and stop is never pressed, no run fails or tries a frame twice. |
| Cbc.AesCbc | ref/tool/BLUETTI_BLE_Bridge.cs:1466-1474 | The block loop computes CBC encryption or decryption. |
| Cbc.CbcBlock | ref/tool/BLUETTI_BLE_Bridge.cs:1466-1474 | Each ciphertext block is the cipher of its message block combined with the ciphertext block before it, or with the initialisation vector. |
| Cbc.DecryptUndoes | ref/tool/BLUETTI_BLE_Bridge.cs:1466-1474 | CBC decryption inverts encryption for every block permutation (section 6.2 of NIST SP 800-38A). |
| Cbc.DecryptUndoesPrefix | ref/ble_ident/src/ble/crypto/business.rs:25-57 | The first blocks of a ciphertext decrypt to the first blocks of the message, whatever follows. |
| Cbc.TrimTrailingZeros | ref/tool/BLUETTI_BLE_Bridge.cs:1482-1486 | The loop removes exactly the trailing zero bytes. |
| Cbc.TrimUndoesPad | ref/tool/BLUETTI_BLE_Bridge.cs:1476-1486 | Trimming undoes zero padding exactly for messages that do not end in a zero byte. |
| Cbc.PacketDecodes | ref/ble_ident/src/ble/crypto/business.rs:10-57 | The first header + ceil-to-16 bytes of any business packet decode to its message, whatever padding was used. |
| Cbc.PacketLayout | ref/ble_ident/src/ble/crypto/business.rs:10-24 | A packet is the length, high byte first, the nonce, and blocks that decrypt under the hash of the nonce to the message and what fills it up. |
| Reassembly.ModbusRxAssembler.SetEncrypted | ref/ble_ident/src/ble/transport.rs:25-29 | Switching on drops what was collected and keeps the queued responses. |
| Reassembly.ModbusRxAssembler.TakePacket | ref/ble_ident/src/ble/transport.rs:36-66 | Takes the packet at the front of the buffer if it is complete, and drops the buffer on an illegal length. |
| Reassembly.ModbusRxAssembler.PushNotification | ref/ble_ident/src/ble/transport.rs:31-68 | A notification drains all complete packets; an illegal length drops the buffer, reports an error and keeps the packets decoded before it. |
| Reassembly.ModbusRxAssembler.PopResponse | ref/ble_ident/src/ble/transport.rs:70-72 | Responses come out in the order in which they were decoded. |
| Reassembly.DrainInTwo | ref/ble_ident/src/ble/transport.rs:31-68 | Draining a buffer in two goes is draining it in one, if the first part had no illegal length. |
| Reassembly.SplitPush | ref/ble_ident/src/ble/transport.rs:31-68 | push(a); push(b) is push(a + b) if and only if no packet begins with an illegal length in what has arrived before the split, or b is empty or begins with one itself. |
| Reassembly.SplitMatters | ref/ble_ident/src/ble/transport.rs:43-50 | Such a split: after a zero length a byte is kept if it comes in a notification of its own, and dropped if it comes in the same one. |
| Reassembly.PrefixDrained | ref/ble_ident/src/ble/transport.rs:31-68 | Of any prefix of a stream of messages exactly the complete ones are decoded and exactly the unfinished tail is kept. |
| Reassembly.AnyChunking | ref/ble_ident/src/ble/transport.rs:31-68 | The same after every notification, however the stream is cut into notifications. |
| Reassembly.OwnPacketConsumed | ref/tool/BLUETTI_BLE_Bridge.cs:1208-1222 | A packet of the client's own sender is consumed whole by the reassembly rule exactly if the message is not a whole number of blocks. |
| Reassembly.SpareBlock | ref/tool/BLUETTI_BLE_Bridge.cs:1346-1354 | The spare padding block left behind otherwise waits or is an illegal length; it is never taken for a packet. |
| HandshakeSpec.Distinct | src/services/ble/protocol.rs:141-186 | The four kinds of handshake notification exclude one another. |
| HandshakeSession.ProtocolSession.DispatchHandshake | src/services/ble/protocol.rs:188-194 | A complete packet goes to the handler of its kind. |
| HandshakeSession.ProtocolSession.HandleAuthRequest | src/services/ble/protocol.rs:196-235 | A well-formed 2A2A01 yields the keys that a device derives from the random number it sent, the MD5 of its reverse and that combined with the root key, and an answer that shows bytes 8 to 11 of the hash between 2A2A0204 and the byte sum; a short one is an error. |
| HandshakeDevice.RequestDerives | src/services/ble/protocol.rs:196-235 | The keys of the session and those of a device that derives its own satisfy the same law, byte by byte, and the answer is framed by 2A2A and its byte sum. |
| HandshakeDevice.DerivesOne | src/services/ble/protocol.rs:207-213 | That law leaves one key and one hash for each random number. |
| HandshakeDevice.ExchangeVerdict | src/services/ble/protocol.rs:255-307 | Of the exchange messages a device seals under its own keys exactly those of full length with a good signature are accepted, and only after a successful authentication. |
| HandshakeDevice.OutcomeVerdict | src/services/ble/protocol.rs:358-398 | Of its outcome messages exactly those with status 0 complete an agreement there is to complete; any other takes the secret away. |
| HandshakeDevice.ReplyOpens | src/services/ble/protocol.rs:309-356 | The answer to an exchange opens under the device's keys to 2A2A0580, the client's public key, its signature and the byte sum. |
| HandshakeDevice.HonestDevice | src/services/ble/protocol.rs:141-398 | A device that seals its packets under the keys it has derived itself is led to an encrypted link, authenticated, under the key the two agree on. |
| HandshakeSession.ProtocolSession.HandleAuthResult | src/services/ble/protocol.rs:237-253 | Status 0 marks authentication as succeeded and keeps the session key; any other status withdraws both. |
| HandshakeSession.ProtocolSession.HandleKeyExchangeResult | src/services/ble/protocol.rs:358-398 | An accepted 0007 sets the shared key and switches reassembly to it; with session keys at hand the secret is given up whatever the outcome. |
| HandshakeSafety.InvariantHolds | ref/ble_ident/src/ble/protocol.rs:82-296 | The invariant behind the safety results holds after every sequence of notifications. |
| HandshakeSafety.ReadyMeansHandshake | src/services/ble/protocol.rs:358-398 | An encrypted link means that a well-formed 2A2A01, a 2A2A03 with status 0, a 0086 whose signature over the device key holds and an accepted 0007 all occurred, and that the key is the agreement of that device key with the secret answered to it. |
| HandshakeSafety.KeyIsFinal | src/services/ble/protocol.rs:141-186 | After the key exchange no notification changes the shared key or restarts collecting pieces. |
| HandshakeSafety.SecretUsedOnce | src/services/ble/protocol.rs:358-398 | Each ephemeral secret enters at most one key agreement. |
| HandshakeSafety.WrapWhenReady | src/services/ble/protocol.rs:76-99 | A request passes exactly when the link is ready; on an encrypted link it goes out as a packet, laid out as it should be, that decodes to it under the agreed key, and in plaintext mode as it is. |
| HandshakeSafety.PassedOnIff | src/services/ble/protocol.rs:141-186 | On an encrypted link a notification is handed on untouched exactly if it is not empty and does not begin 2A2A01 or 2A2A03. |
| HandshakeSafety.PacketStartPassedOn | ref/ble_ident/src/ble/transport.rs:43-50 | The start of a legal business packet always is, because its length field would exceed 4096. |
| BusinessLink.KeepsUpIff | src/services/ble/protocol.rs:141-186 | On an encrypted link, outside a firmware transfer and however the device's messages are cut into notifications: after every one of these the responses are exactly the complete messages and the buffer the rest, if and only if none begins 2A2A01 or 2A2A03; the session then stays as it is. |
| BusinessLink.UnluckyCut | src/services/ble/protocol.rs:151-158 | Every message can be cut so that this fails: with the nonce 2A2A0100 what follows its length field is taken for an authentication request and never reaches the reassembly. |
| HandshakeSafety.ExchangeAcceptedIff | src/services/ble/protocol.rs:255-307 | A signed 134-byte exchange message is accepted exactly if its last byte is not zero. |
| HandshakeSession.ProtocolSession.OnNotification | src/services/ble/protocol.rs:141-186 | One notification changes the session as specified; on an encrypted link business bytes go to the reassembly, whose complaint is passed on, and nothing else touches it (`BusinessLink.Deliver`). |
| HandshakeSession.ProtocolSession.HandleKeyExchange | src/services/ble/protocol.rs:255-356 | A 0086 whose signature holds is answered with a fresh public key, signed; if signing fails the secret is kept and nothing is sent. Any other 0086 is an error. |
| HandshakeSession.ProtocolSession.MarkPlaintextMode | src/services/ble/protocol.rs:400-405 | Plaintext mode ends encryption and switches the reassembly off, dropping what it had collected and decoded; the handshake's own fields stay. |
| Reassembly.ModbusRxAssembler.SetPlaintext | src/services/ble/transport/mod.rs:111-116 | Switching off drops buffer and queued responses. |
| HandshakeSession.ProtocolSession.WrapModbusRequest | src/services/ble/protocol.rs:85-99 | An encrypted link yields the packet encrypted under the shared key, a plaintext link the request as it is, any other link an error. |
| HandshakeSafety.AuthenticatedIffLastStatus | src/services/ble/protocol.rs:237-253 | After every sequence of notifications the session counts as authenticated if and only if the latest well-formed 2A2A03 taken as one had status 0. |
| HandshakeSafety.StandingAuthentication | src/services/ble/protocol.rs:237-253 | So an encrypted link, which always rests on some authentication, stands on the latest one if and only if that had status 0. |
| HandshakeDevice.FailedAuthHappens | src/services/ble/protocol.rs:237-253 | With any device that derives its own keys, signs and agrees, a run leads from a new connection to an encrypted link whose latest authentication failed. |
| HandshakeSafety.FailedAuthDoesNotStop | src/services/ble/protocol.rs:237-253 | The step that makes it possible: after a failure a new request brings the session keys back and the outcome packet is accepted. |
| HandshakePieces.PiecesCollect | src/services/ble/protocol.rs:146-180 | As long as pieces have not made up a whole packet they are collected and nothing else changes. |
| HandshakePieces.PiecesReassemble | src/services/ble/protocol.rs:146-180 | The piece that first makes up a whole packet has it handled, exactly as if it had come in one notification. |
| HandshakePieces.ShortestReassembles | src/services/ble/protocol.rs:146-180 | A 146-byte 0086 or an 18-byte 0007 before the key exchange, in any pieces of which the first has two bytes, is always handled once and so. |
| HandshakePieces.CollectingIff | src/services/ble/protocol.rs:408-414 | The session is still collecting everything that came if and only if at no piece the bytes so far made up a whole packet. |
| HandshakePieces.Overshoot | src/services/ble/protocol.rs:408-414 | After an overshoot the next piece completes the packet if and only if it makes up for the excess; whole blocks never do. |
| TabWrap.ComputeTabRows | src/pages/modbus_query.rs:446-479 | The loop's rows hold 0..n-1 in order, each row fits or is a single tab, and no proper wrapping has fewer rows. |
| TabWrap.RowsCoverAll | src/pages/modbus_query.rs:450-479 | The rows of a layout joined together are all tabs once and in order. |
| TabWrap.StaysAhead | src/pages/modbus_query.rs:450-479 | Greedy rows reach at least as far as the same number of rows of any proper wrapping. |
| TabWrap.GreedyIsOptimal | src/pages/modbus_query.rs:450-479 | No proper wrapping in order has fewer rows than a greedy one. |
| QueryOrder.RemapFollows | src/pages/modbus_query.rs:541-603 | After a move every card is found at its remapped place. |
| QueryOrder.MoveMeans | src/pages/modbus_query.rs:541-603 | A drop puts the card directly before the one at the insertion point, or last at the end, and the others keep their order. |
| QueryOrder.MoveBack | src/pages/modbus_query.rs:541-603 | A second move undoes the first, on cards and on places; so remapping is a bijection. |
| QueryOrder.RemappedMeans | src/pages/modbus_query.rs:574-583 | Exactly the cards that were selected are selected after the move. |
| QueryOrder.WithoutRemovedMeans | src/pages/modbus_query.rs:132-150 | After a removal exactly the remaining selected cards are selected. |
| QueryOrder.QueryTab.Reorder | src/pages/modbus_query.rs:541-585 | Moves the card, or does nothing on a drop out of range or in place. |
| QueryOrder.QueryTab.Remove | src/pages/modbus_query.rs:132-150 | Removes the card and adjusts the selection. |
| ScanList.BleInner.UpsertAdvertisement | src/services/ble/state.rs:97-147 | The method does what the list specification says; strength and hint follow live advertisements only, the name any that carries one, and a new entry without one gets a placeholder. |
| ScanList.BleInner.PruneStaleScanDevices | src/services/ble/state.rs:149-173 | Drops the stale entries and their times, and reports whether there were any. |
| ScanList.BleInner.ClearScanResults | src/services/ble/state.rs:89-92 | Empties list and times and keeps the generation. |
| ScanList.AlwaysTidy | src/services/ble/state.rs:88-173 | After any history no device is listed twice, all are targets, and the times are kept for exactly the listed addresses. |
| ScanList.AgreesWithHistory | src/services/ble/state.rs:88-173 | After any history with a clock that does not go back, each device is listed, with time, strength and hint of its latest live advertisement, exactly if that was at most the limit old when the list was last aged; cached advertisements play no part. |
| ScanList.ListedAfterAgeing | src/services/ble/state.rs:149-173 | Right after an ageing, listed are exactly the devices whose latest live advertisement since the last reset is at most the limit old, each once. |
| ScanList.UpsertBumps | src/services/ble/state.rs:97-147 | An advertisement bumps the generation by one exactly if it changes the list. |
| ScanList.PruneBumps | src/services/ble/state.rs:149-173 | So does ageing. |
| ScanList.ResetKeepsGeneration | src/services/ble/state.rs:89-92 | Clearing the list does not bump it, although it changes any list that was not empty. |
| RssiLatch.RssiFilterHold.Apply | src/ui/bindings.rs:42-49 | A changed threshold forgets what was held; what is shown is held next. |
| RssiLatch.RssiFilterHold.ApplyRssiLatch | src/ui/bindings.rs:94-98 | Keeps, in order, exactly the devices that are held or strong enough. |
| RssiLatch.RssiFilterHold.PrepareScanDevices | src/ui/bindings.rs:78-127 | One refresh keeps, in order, targets that are free, no favourite and match the name, all of them that meet the threshold or are held, and computes the next hold. |
| RssiLatch.ThresholdRead | src/ui/bindings.rs:78-84 | Every 32-bit threshold is read as it is written, with or without the unit and with blanks anywhere around. |
| RssiLatch.AddressShown | src/ui/bindings.rs:36-127 | Over any run, with the filter on, an address is shown at tick n exactly if at some tick s up to n it met the threshold and from s to n it stayed eligible with the filter on and the threshold unchanged. |
| RssiLatch.EntryShown | src/ui/bindings.rs:86-127 | Entry by entry: an eligible device is shown exactly if its own signal is strong enough now or its address was admitted by the tick before. |
| RssiLatch.OffForgets | src/ui/bindings.rs:120-124 | With the filter off everything eligible is shown, and the next tick starts afresh. |
| RegisterRmw.PatchBits | src/services/ble/poll.rs:1085-1117 | A field or bit patch gives the bits it is about the wanted values and leaves all others as they were. |
| RegisterRmw.TestMerge | ref/tool/BLUETTI_BLE_Bridge.cs:2489-2503 | The mask merge takes the masked bits from the new value and the others from the register. |
| RegisterRmw.OneWrite | src/services/ble/poll.rs:1067-1117 | A delivered patch gives the bits it is about the wanted values and the others those of the word it was told, in the one register it is for. |
| RegisterRmw.Device.WriteHoldingRegisters | src/services/ble/poll.rs:1058-1138 | A write that gets through puts, bit by bit, the field's value (the first given one, else its own) into the field, or else the bit on exactly if the first given value is not zero, everything else as in the word read back; without either the given words; no other register changes. It succeeds exactly if there was something to write, a needed read was answered and a frame of the right shape was taken for the acknowledgement, whether or not the write was delivered. |
| RegisterRmw.AcknowledgesOwn | src/services/ble/poll.rs:1128-1134 | The device's own acknowledgements of both functions pass that check; exceptions and silence do not. |
| RegisterRmw.PatchedAlike | src/services/ble/poll.rs:1085-1117 | Patching two words gives the same if and only if they agree outside the patch. |
| RegisterRmw.AlwaysAlone | src/services/ble/poll.rs:1070-1130 | Under the gate, in every interleaving, only the writer holding it is past it. |
| RegisterRmw.SerialIffFaithful | src/services/ble/poll.rs:1070-1130 | Under the gate, for every interleaving of any number of writers: the register is at every moment the delivered patches one after the other, if and only if every delivered write carried the word its patch makes of the register. |
| RegisterRmw.RightIffAgreeing | src/services/ble/poll.rs:1204-1252 | What a writer makes of a reply is that word if and only if the reply agrees with the register outside the patch. |
| RegisterRmw.Serialised | src/services/ble/poll.rs:1070-1130 | If every reply taken for the answer to a read carries the register's present word, every write is faithful and the run serial. |
| RegisterRmw.NoWriteLost | src/services/ble/poll.rs:1070-1130 | In a faithful run each bit of the register is as the last delivered patch about it wanted, and as it was if there is none. |
| RegisterRmw.LateReplyUndoes | src/services/ble/poll.rs:1204-1252 | A late reply to an earlier read, taken for the answer, puts every bit the patch is not about back to what it was, gate or no gate. |
| RegisterRmw.LateReplyHappens | src/services/ble/poll.rs:1204-1252 | For any register and patches, such a run loses a write that had been delivered. |
| RegisterRmw.TurnsInGateOrder | src/services/ble/poll.rs:1070-1130 | That order is the order in which the writers got through the gate. |
| RegisterRmw.LostWithoutGate | src/services/ble/poll.rs:1070 | Without the gate two overlapping writes can both be delivered and the first one leave no trace. |
| HttpCommand.JsonEscape | src/services/firmware/http_cmd.rs:25-39 | The loop computes the escaped text. |
| HttpCommand.ReadsBack | src/services/firmware/http_cmd.rs:25-39 | A JSON reader (section 7 of RFC 8259) of any escaped text, whatever follows the closing quote, stops at that quote and returns the text. |
| HttpCommand.NoControls | src/services/firmware/http_cmd.rs:25-39 | Escaped text holds no control character. |
| HttpCommand.Unchanged | src/services/firmware/http_cmd.rs:25-39 | A text goes out as it is exactly if it has no quote, backslash or control character. |
| HttpCommand.JsonReadsBack | src/services/firmware/http_cmd.rs:46-85 | A JSON reader gets every value back from its text: strings, whole numbers, flags, lists and objects, whatever texts are in them and whatever follows. |
| HttpCommand.CommandReadsBack | src/services/firmware/http_cmd.rs:46-85 | A JSON reader that knows nothing of the template finds every field under its name in the text of every command: model and serial number joined, texts trimmed, numbers, the flag, and that nothing is encrypted. |
| HttpCommand.SameText | src/services/firmware/http_cmd.rs:46-85 | Commands with the same text have the same fields. |
| HttpCommand.BuildHttpOtaFrame | src/services/firmware/http_cmd.rs:87-102 | Fails exactly for an empty JSON and one over 65535 bytes; otherwise the frame, with anything after it, yields that JSON and the rest. |

## Left out

- ExactlyOnce: failed log writes are taken to leave the file as it was; partial writes are not modelled. Capacity is at most 65535, as the indices are 16 bits wide; only the summary node's log is modelled.
- The queue and lock timeouts of FreeRTOS, and copying device registers into a record: outcomes and values are arguments.
- BusinessLink.KeepsUpIff: starts from an empty reassembly, as it is when the key has just been agreed on.
- OtaSender.OtaRun.RunBleOta: the three send loops are one method (`Exchange`), and within a wait no time passes: it is a finite list of polls. What the link, the device and the user do is played from a given `World`; the queue the sender clears before each try is not kept as state.
- OtaClient.XmodemClient.Handle: the two kinds of storage behind the same calls; erasing, progress and the stage that follows are outcomes.
- OtaDelivery.DeliveredIffGenuine: bursts of more than 16 bits, which any 16-bit CRC can miss. What the device's check of the image finds is an outcome of the EOT frame; `ImageCheck` says what it is for a packed image.
- ImageCheck.VerifyCrc: images that end in fewer than 2048 bytes 0x1A with fewer than 20 bytes in front of them, for which the check reads flash outside the image; failing reads. The 256 table entries in use are taken as the eight-fold shifts they are.
- HandshakeSession.ProtocolSession.OnNotification: reassembly of plaintext Modbus replies and the pass-through of control bytes during a firmware transfer are not modelled; plaintext bytes are only reported. Of `src/services/ble/transport/mod.rs` only the switch to plaintext, and of the modules under `src/services/ble/modbus` only the request to write several registers, are part of this model.
- Reassembly.ModbusRxAssembler.PushNotification: lengths are unbounded integers, since the field holds at most 65535.
- The real AES, MD5, ECDSA and ECDH, and the secrecy they give: only laws the framing needs are used.
- TabWrap.ComputeTabRows: widths are real numbers, so rounding of 32-bit floats is not modelled; a title counts by its length.
- QueryOrder.QueryTab.Reorder: one tab, the one the selection belongs to; saving and redrawing are left out.
- ScanList.AgreesWithHistory: times are integers from 0 on; names are kept by the list but not part of the agreement.
- RssiLatch.AddressShown: the lower-case mapping is an arbitrary function.
- RegisterRmw.PatchBits: field widths from 1 to 15 within the register, as the shifts in the code demand.
- RegisterRmw.LostWithoutGate: the other reads and writes that take the gate are left out; they do not change the register concerned.
- HttpCommand.CommandReadsBack: texts are sequences of Unicode characters and numbers come as their decimal digits; UTF-8 and number printing are not modelled. The JSON reader knows no blanks between tokens and no fractions, which the template does not have.
- HttpCommand.BuildHttpOtaFrame: takes the JSON as bytes.
- HTTP and TCP, Bluetooth scanning and connecting, the user interface, favourites, stored settings, the WiFi page, part numbers and firmware headers.
