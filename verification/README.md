# A Dafny model of the mesh router and of GPSD's decoders

This project models the parts of the repository in which the logic is hard, and proves what they do for all
inputs and over all runs:

- **CRC-24Q** (`crc24q.c`). `BitSeq`, `Gf2` (remainders of binary polynomials), `DoublingTable`, `Crc24qTable`
  (the table as written and as generated), `Words`, `Crc24q` (the table-driven hash, signing, checking),
  `CrcErrors` (bursts and odd errors), `CrcBursts` (how many longer bursts escape), and `Squaring`, `CrcPeriod`,
  `CrcSquares`, `CrcPowers`, `Periods`, `CrcDoubleErrors` (the period of the generator and the double bit errors
  that escape).
- **The NMEA 0183 parser** (`driver_nmea0183.c`). `NmeaCycle` (the end-of-cycle detector as a state machine),
  `NmeaSentence` (splitting into fields), `NmeaChecksum` (adding a checksum, and the sniffer's check of it).
- **NMEA 2000 fast packets** (`driver_nmea2000.c`). `FastPacket` (one frame), `FastPacketRuns` (whole traces).
- **The mesh router** (`IRtestWLAN/ir.cc`). `MeshRouting` (tables, next hop, forwarding), `MeshRuns` (runs of
  beacons and packets).
- **Bit-level decoders**. `Bytes`, `BitExtract` (`bits.c`), `Rtcm2`, `Rtcm3`, `AisType24`.
- **Framing codecs**. `Dle` (TSIP and EverMore stuffing), `DleLexer` (what the packet sniffer makes of such
  frames), `Base64`, `Zodiac`.

`Options` holds the one datatype they share.

Code that updates state is modelled by methods over fields, arrays and maps, each proved equal to a function;
the theorems are about those functions. Addresses, bytes and lengths are integers with their ranges; the CRC
works on 32-bit vectors, with the dirty top byte of the running word kept.

## Where the code and what is said of it disagree

- `crc24q.c:13` claims all double bit errors are detected. This is false beyond a megabyte: two wrong bits escape
  exactly when they are a multiple of 8388607 bits apart (`CrcDoubleErrors.DoubleErrorsAreDetected`). The other
  claims of that header hold, the odds of the last one exactly (`CrcBursts.EscapesAreRare`).
- `driver_nmea0183.c:1533` says detection locks in after one cycle for fixed-cycle devices. It does exactly when
  the last timestamped phrase occurs once in the cycle (`NmeaCycle.FreshLockOn`), which the comment goes on to
  say; phrases 1, 2 and 1 again never lock (`NmeaCycle.RepeatedPhraseDoesNotLock`). Continuation is a one-way
  switch: no code resets it (`NmeaCycle.ContinuationIsForever`).
- `packet.c:1553-1554` compares the checksum digits without regard to case, but the scan at 1546 stops at a
  lower-case digit, so a sentence whose last digit is one is not checked at all
  (`NmeaChecksum.LowerCaseIsUnchecked`).
- `bits.c:6-8` allows fields of up to 64 bits at any position. A field that spans nine bytes loses its part in the
  first one (`BitExtract.FieldIsSlice`).
- `driver_rtcm3.c:402` copies the firmware string with the length of the receiver string, so it is right exactly
  when it is no longer than that one or the bytes left in the array happen to continue it
  (`Rtcm3.FirmwareIsRight`, `Rtcm3.FirmwareIsCutShort`).
- `driver_rtcm3.c:386-404` copies strings of up to 255 bytes into arrays of 32. The offsets are right for every
  length (`Rtcm3.Copies1033`); the copies stay inside the arrays exactly when all four lengths are at most 31
  (`Rtcm3.InsideIffFit`).
- `driver_nmea0183.c:1440` copies 90 of the 91 characters a sentence may have; a star that comes 91st is not seen,
  and the last field is lost (`NmeaSentence.FieldsJoinToBody`). The sniffer ends sentences with a line feed, and
  those lose nothing (`NmeaSentence.FieldsOfLine`); only a binary `$PASHR` packet with a NUL in it can be cut so.
- An AIS part B from MMSI 0 matches slots that are empty or used (`AisType24.ZeroMatchesEmpty`).
- `driver_nmea2000.c:1477` does not compare the group of a continuation frame with that of the first frame; the
  group delivered is the last frame's (`FastPacketRuns.GroupsMayMix`).
- `ir.cc:975` purges what is over 5 in the unit of the clock, milliseconds; nodes that beacon more slowly never
  have a history of more than one point (`MeshRuns.SlowBeaconsHaveNoHistory`).
- `ir.cc:745` looks up a next hop's physical address in a table whose keys are virtual addresses. A route to a live
  neighbour straight ahead is refused unless the neighbour's two addresses are the same number
  (`MeshRuns.OneBeaconDecides`), and a network can use a stored route again exactly when some virtual address is
  also a physical one or the broadcast address (`MeshRuns.ReuseNeedsSharedAddress`).

## Model

| member | source | states |
|---|---|---|
| Crc24qTable.CrcInit | gpsd-3.16/crc24q.c:45-59 | the doubling generator rebuilds exactly the 256 words of the literal table |
| Crc24qTable.LiteralIsTable | gpsd-3.16/crc24q.c:78-142 | the literal table starts with 0 and the polynomial, doubles from each power of two to the next modulo the polynomial, and below twice a power is the sum of that power's entry and a smaller one |
| Crc24q.LiteralIsCorrect | gpsd-3.16/crc24q.c:78-142 | entry i is the one word that is a multiple of the generator and has i as its top byte |
| Crc24q.TableStep | gpsd-3.16/crc24q.c:149-151 | one table step of a word, whatever its dirty top byte, advances the remainder of message times x^24 by one byte |
| Crc24q.Crc24qHash | gpsd-3.16/crc24q.c:144-156 | the hash of every message is the bit-serial remainder of message times x^24 modulo 0x1864CFB, with a clean top byte |
| Crc24q.Crc24qSign | gpsd-3.16/crc24q.c:163-170 | signing yields an accepted buffer, keeps the message and touches the three bytes after it only |
| Crc24q.Crc24qCheck | gpsd-3.16/crc24q.c:173-179 | a buffer is accepted iff its last three bytes are the CRC of the rest, spelled high byte first |
| Crc24q.AcceptsMultiples | gpsd-3.16/crc24q.c:173-179 | the buffers accepted are exactly those whose bits form a multiple of the generator |
| Crc24q.CrcOfXor | gpsd-3.16/crc24q.c:144-156 | the hash of the exclusive or of two equally long messages is the exclusive or of their hashes |
| Crc24q.CrcIgnoresLeadingZeros | gpsd-3.16/crc24q.c:42 | leading zero bytes do not change the hash, the seed being zero |
| Crc24q.CrcOfSigned | gpsd-3.16/crc24q.c:163-170 | a buffer hashes to zero iff it is a message followed by its own CRC |
| Gf2.Division | gpsd-3.16/crc24q.c:6-8 | every polynomial is a multiple of the generator plus the bit-serial remainder: the reference the hash is proved against |
| Gf2.RemZeroIsMultiple | gpsd-3.16/crc24q.c:6-8 | the remainder is zero iff the polynomial is a multiple of the generator |
| CrcErrors.UndetectedIffMultiple | gpsd-3.16/crc24q.c:12-18 | an altered buffer is accepted iff the error pattern is a multiple of the generator |
| CrcErrors.BurstIsDetected | gpsd-3.16/crc24q.c:15-16 | every burst of 1 to 24 bits, anywhere in a signed message of any length, is detected |
| CrcErrors.BurstOf25 | gpsd-3.16/crc24q.c:17-18 | of the bursts spanning 25 bits exactly one pattern escapes: the generator itself |
| CrcBursts.LongBurst | gpsd-3.16/crc24q.c:17-18 | a burst spanning 25 bits or more, anywhere, is accepted iff it is one of the escaping patterns |
| CrcBursts.EscapingAre | gpsd-3.16/crc24q.c:17-18 | the escaping patterns, products of the generator and a factor with both end bits set, are exactly the bursts of their length that are multiples of the generator |
| CrcBursts.EscapesAreRare | gpsd-3.16/crc24q.c:17-18 | of the bursts spanning 25 bits one in 2^23 escapes, of those spanning any larger number of bits one in 2^24 |
| CrcErrors.OddErrorsAreDetected | gpsd-3.16/crc24q.c:14 | any odd number of wrong bits is detected |
| CrcDoubleErrors.PowPeriod | gpsd-3.16/crc24q.c:13 | x^n leaves remainder 1 iff n is a multiple of 8388607 |
| CrcDoubleErrors.DoubleErrorsAreDetected | gpsd-3.16/crc24q.c:13 | two wrong bits are accepted iff their distance is a multiple of 8388607 |
| CrcDoubleErrors.DoubleErrorEscapes | gpsd-3.16/crc24q.c:13 | there are two accepted messages that differ in two bits |
| NmeaCycle.Session.RegisterFractionalTime | gpsd-3.16/driver_nmea0183.c:115-127 | the last registered time becomes the previous one, and the latch is set |
| NmeaCycle.Session.Parse | gpsd-3.16/driver_nmea0183.c:1471-1597 | one sentence moves the detector as the step function does, and raises the start and end signals it prescribes |
| NmeaCycle.TimestampMeans | gpsd-3.16/driver_nmea0183.c:1540-1565 | in every state a timestamp at least a hundredth of a second from the last starts a cycle and makes the phrase stamped before it an ender, unless there is none or there are continuations; one closer than that starts nothing and teaches nothing |
| NmeaCycle.NoTimestampMeans | gpsd-3.16/driver_nmea0183.c:1566-1589 | a sentence without a timestamp starts nothing; after a continuation it replaces the last stamped phrase among the enders and is reported, before one it does neither |
| NmeaCycle.ReliableOnceLearnt | gpsd-3.16/driver_nmea0183.c:1594-1595 | the end of cycle counts as reliable iff some sentence so far left an ender |
| NmeaCycle.OneCycle | gpsd-3.16/driver_nmea0183.c:1540-1591 | through one cycle with one time: what is learnt, and on which sentences starts and ends are signalled |
| NmeaCycle.WholeTrain | gpsd-3.16/driver_nmea0183.c:1540-1595 | after any number of cycles the enders are those first learnt and the last timestamped phrase, and nothing else |
| NmeaCycle.LockOn | gpsd-3.16/driver_nmea0183.c:1529-1539 | with times at least a hundredth of a second apart, from the second cycle on a start is signalled exactly on the first timestamped sentence, and an end exactly on the timestamped sentences whose phrase ends the cycle or was learnt before |
| NmeaCycle.FreshLockOn | gpsd-3.16/driver_nmea0183.c:1529-1539 | a fresh session reports exactly once per cycle, on the last timestamped sentence, iff that phrase is timestamped nowhere else in the cycle |
| NmeaCycle.RepeatedPhraseDoesNotLock | gpsd-3.16/driver_nmea0183.c:1529-1539 | a cycle whose last timestamped phrase also starts it is never locked on to |
| NmeaCycle.FirstCycleIsSilent | gpsd-3.16/driver_nmea0183.c:1559-1589 | nothing is reported in the first cycle |
| NmeaCycle.ContinuationIsForever | gpsd-3.16/driver_nmea0183.c:1568-1589 | a sentence without a timestamp is reported as an end iff a continuation sentence has been seen by then |
| NmeaSentence.SplitSentence | gpsd-3.16/driver_nmea0183.c:1432-1469 | overlong sentences are refused untouched; otherwise field i points at the i-th comma-free part of the text and all later fields at an empty string |
| NmeaSentence.SplitJoins | gpsd-3.16/driver_nmea0183.c:1450-1462 | the parts joined with commas are the text, and none holds a comma |
| NmeaSentence.AllFieldsOfStarred | gpsd-3.16/driver_nmea0183.c:1441-1447 | with the star among the characters copied, the fields are the parts of the body and no more |
| NmeaSentence.LastFieldIsLost | gpsd-3.16/driver_nmea0183.c:1440-1447 | a star that comes 91st leaves the text without its closing comma |
| NmeaSentence.WithoutStar | gpsd-3.16/driver_nmea0183.c:1441-1469 | a sentence without a star is split up to its first unprintable character, and its last part is no field |
| NmeaSentence.FieldsJoinToBody | gpsd-3.16/driver_nmea0183.c:1439-1469 | fields 0 to count-1 joined give back the body iff the star is among the first 90 characters |
| NmeaSentence.FieldsOfLine | gpsd-3.16/driver_nmea0183.c:1439-1469 | of a sentence that ends with a line feed every field is a part of the body, in order, and nothing is lost |
| NmeaChecksum.NmeaAddChecksum | gpsd-3.16/driver_nmea0183.c:1602-1617 | everything up to the star is kept, followed by the exclusive or of the body in two hexadecimal digits and the line end; the rest of the buffer is untouched |
| NmeaChecksum.SummedIs | gpsd-3.16/driver_nmea0183.c:1602-1617 | a sentence without a star gets a star, the two upper-case digits of the exclusive or of all but a leading dollar sign or exclamation mark, and CR LF |
| NmeaChecksum.XorCountsBits | gpsd-3.16/driver_nmea0183.c:1611-1614 | a bit of the exclusive or is set iff it is set in an odd number of bytes |
| NmeaChecksum.SummedTwice | gpsd-3.16/driver_nmea0183.c:1603 | adding the checksum to a sentence that has one changes nothing |
| NmeaChecksum.CheckNmea | gpsd-3.16/packet.c:1537-1555 | the sniffer's backward scan accepts iff there is no star behind the trailing digits and white space, or two characters follow it and are the exclusive or of the body |
| NmeaChecksum.LineAccepted | gpsd-3.16/packet.c:1537-1555 | a line ending in a star, at least two upper-case digits and white space is accepted iff the first two spell the exclusive or of its body |
| NmeaChecksum.LowerCaseIsUnchecked | gpsd-3.16/packet.c:1546-1555 | a line whose last digit is a lower-case letter is accepted whatever it spells |
| NmeaChecksum.SummedIsAccepted | gpsd-3.16/packet.c:1537-1555 | every sentence with an added checksum passes the sniffer's check |
| NmeaChecksum.OneCharacterShows | gpsd-3.16/packet.c:1549-1554 | changing one character of the body changes the checksum |
| FastPacket.SearchPgnList | gpsd-3.16/driver_nmea2000.c:1323-1339 | the first row of the list for the group, or none when no row has it |
| FastPacket.TablesInOrder | gpsd-3.16/driver_nmea2000.c:1426-1441 | an undecided session looks a group up in the GPS, AIS, power and navigation tables in this order |
| FastPacket.Session.StartPacket | gpsd-3.16/driver_nmea2000.c:1457-1476 | a first frame sets the length, the next counter and the first six bytes, whatever was collected |
| FastPacket.Session.Append | gpsd-3.16/driver_nmea2000.c:1480-1484 | a continuation frame's bytes are added up to the declared length |
| FastPacket.Session.CollectFrame | gpsd-3.16/driver_nmea2000.c:1457-1512 | the packet branches: restart, continue and perhaps deliver, or ignore |
| FastPacket.Session.FindRow | gpsd-3.16/driver_nmea2000.c:1423-1445 | which row is used, and when the session's list becomes fixed |
| FastPacket.Session.FindPgn | gpsd-3.16/driver_nmea2000.c:1341-1536 | one frame moves the session and delivers as the step function says, for every frame and state |
| FastPacketRuns.IdIsRead | gpsd-3.16/driver_nmea2000.c:1383-1394 | for every priority, unit and destination the identifier of a frame is read as extended, from that unit, and of that group, the destination byte removed below format 240 and kept in the group from there on |
| FastPacketRuns.SingleFrame | gpsd-3.16/driver_nmea2000.c:1447-1456 | a frame with the identifier of a single-frame row from the session's unit is delivered at once, exactly its dlc bytes |
| FastPacketRuns.NotForUs | gpsd-3.16/driver_nmea2000.c:1353-1421 | frames that are not extended or come from another unit do nothing |
| FastPacketRuns.NotListed | gpsd-3.16/driver_nmea2000.c:1423-1446 | frames of a group the list has no row for do nothing |
| FastPacketRuns.UndecidedSession | gpsd-3.16/driver_nmea2000.c:1400-1457 | a session without a list takes the unit it is listed under or the sender's, uses the first table with a row for the group, and keeps that table iff the row has a type |
| FastPacketRuns.ListedElsewhere | gpsd-3.16/driver_nmea2000.c:1400-1421 | a session listed under another unit takes that unit and not the frame |
| FastPacketRuns.PayloadArrives | gpsd-3.16/driver_nmea2000.c:1341-1512 | for every fast row, every payload of 7 to 223 bytes sent in frames with its identifier is delivered byte for byte under that row at its last frame and not before, whatever passes in between |
| FastPacketRuns.Completeness | gpsd-3.16/driver_nmea2000.c:1421-1517 | through any interleaved harmless traffic a payload of 7 to 223 bytes is delivered byte for byte at its last frame and not before, under that frame's group whatever fast groups the others have; a payload that fits its first frame is not delivered by it |
| FastPacketRuns.OnlyHarmlessIsIgnored | gpsd-3.16/driver_nmea2000.c:1457-1512 | the frames taken into a packet are exactly its own iff all traffic between them is harmless |
| FastPacketRuns.Soundness | gpsd-3.16/driver_nmea2000.c:1457-1512 | in any trace a fast delivery is the latest first frame's bytes and those of frames with consecutive counters, cut to a declared length of 6 to 223, under the last frame's group, and no first frame yields two |
| FastPacketRuns.GroupsMayMix | gpsd-3.16/driver_nmea2000.c:1477-1512 | a continuation frame of any other fast group with the expected counter completes a packet, delivered under that group |
| MeshRouting.Router.CalNexHop | IRtestWLAN/ir.cc:554-612 | expired neighbours go and no others; the answer is the best neighbour's address, or broadcast when there is none |
| MeshRouting.Router.RouteMakeup | IRtestWLAN/ir.cc:613-691 | the same over predicted positions |
| MeshRouting.HopMeans | IRtestWLAN/ir.cc:564-611 | the address is broadcast when nobody is within 200 - 10^-8 of the destination; else that of the nearest to it of those in the cone if one in the cone is within it, and of the nearest of all if not, the lowest key among equals: in distances and angles, and an `ensures` of both searches |
| MeshRouting.BroadcastIffNoneInReach | IRtestWLAN/ir.cc:590-609 | no neighbour having that address, broadcast is answered iff every live neighbour is out of reach |
| MeshRouting.IdentityPredictor | IRtestWLAN/ir.cc:642-690 | with a predictor that leaves everyone in place both searches answer alike |
| MeshRouting.ChoiceIsUnique | IRtestWLAN/ir.cc:564-611 | the description of the next hop admits one answer only |
| MeshRouting.Router.IsLegal | IRtestWLAN/ir.cc:525-553 | true iff the hop is a live neighbour within the cone; an expired one is erased, nothing else |
| MeshRouting.Router.GpsByIp | IRtestWLAN/ir.cc:383-399 | the stored route of a destination, however old |
| MeshRouting.Router.Forwarding | IRtestWLAN/ir.cc:692-766 | both tables and the packet's fate after a call, for unknown, expired, legal and illegal routes |
| MeshRouting.ForwardedMeans | IRtestWLAN/ir.cc:692-766 | a legal stored route is used unchanged; an unknown or expired destination at the pole is flooded to; otherwise the packet goes to the next hop chosen for its own destination over the live predicted positions, or is dropped, and that hop is stored with the time: also an `ensures` of Forwarding |
| MeshRouting.Router.BuildNeighbor | IRtestWLAN/ir.cc:965-1026 | both tables after a beacon: purged, with the sender's route new and its history extended by one point |
| MeshRuns.TablesFollowBeacons | IRtestWLAN/ir.cc:525-766 | in every run each neighbour's entry is what the latest unbroken series of its beacons says, nobody heard within 5 ms is missing, and nothing is newer than the clock |
| MeshRuns.NeighborsAreRoutable | IRtestWLAN/ir.cc:984-1023 | in every run each neighbour has a route at least as fresh |
| MeshRuns.HistoryIsRecent | IRtestWLAN/ir.cc:1008-1021 | the predictor's history is the last min(10, k) of the k >= 1 points of the series, never empty |
| MeshRuns.FreshAfterBeacon | IRtestWLAN/ir.cc:972-995 | after a beacon nothing in either table is over 5 ms old, and the neighbours are exactly the nodes heard since then |
| MeshRuns.SlowBeaconsHaveNoHistory | IRtestWLAN/ir.cc:972-983 | a node whose beacons are over 5 ms apart always has a history of one point |
| MeshRuns.SentToTheLiving | IRtestWLAN/ir.cc:692-766 | whatever a packet is sent to belongs to a node heard at most 3000 ms ago |
| MeshRuns.PacketsAreForwarded | IRtestWLAN/ir.cc:692-766 | that holds of every packet after every run |
| MeshRuns.DroppedIffNoneInReach | IRtestWLAN/ir.cc:697-719 | after every run a packet for an unknown destination away from the pole is dropped iff no live neighbour is predicted within reach of it, and else goes to the neighbour that leads, to which its route is stored |
| MeshRuns.BeaconMakesRoute | IRtestWLAN/ir.cc:1001-1002 | after every run that ends with a beacon its sender's route is its physical address, time and position |
| MeshRuns.RouteIsLastBeacons | IRtestWLAN/ir.cc:984-1002 | until a packet for the node is sent its route is exactly what its last beacon said, and is there iff no beacon came over 5 ms later |
| MeshRuns.PositionIsLastBeacons | IRtestWLAN/ir.cc:692-766 | whatever packets come, a route keeps the position of the node's last beacon while no beacon comes over 5 ms later |
| MeshRuns.RouteOrigin | IRtestWLAN/ir.cc:692-1002 | in every run a route's position is that of the node's last beacon, or was brought by a packet for the node since |
| MeshRuns.ReuseMeans | IRtestWLAN/ir.cc:525-553 | in every run a stored route is legal iff its hop is also the virtual address of a neighbour not dropped, heard at most 3000 ms ago, last in the cone |
| MeshRuns.OneBeaconDecides | IRtestWLAN/ir.cc:745-757 | after one beacon the sender, ahead and alive, is routed by its physical address, and that route is legal iff this is its virtual address |
| MeshRuns.ReuseNeedsSharedAddress | IRtestWLAN/ir.cc:745-757 | for sets of virtual and physical addresses: some run has a legal stored route iff there are beacons at all and a virtual address is a physical one or the broadcast address |
| MeshRuns.StoredRoutesAreNeverLegal | IRtestWLAN/ir.cc:745-757 | if no virtual address is a physical one, no stored route is ever judged legal |
| AisType24.Context.Stash | gpsd-3.16/driver_ais.c:962-972 | a part A goes into the slot the index points at, which moves on around the queue |
| AisType24.Context.Match | gpsd-3.16/driver_ais.c:1006-1024 | a part B takes the name of the lowest slot with its MMSI and empties it, or stays a part B |
| AisType24.QueueHoldsLog | gpsd-3.16/driver_ais.c:957-1024 | after every run the slots are the last eight part As, those used having lost their MMSI |
| AisType24.LogIsSent | gpsd-3.16/driver_ais.c:957-977 | the stashes of the log are the run's part As, in order |
| AisType24.PairsWithinWindow | gpsd-3.16/driver_nmea2000.c:939-979 | a part B completes a report iff one of the last eight stashes is its sender's and unused, and takes such a stash's name |
| AisType24.NoReportTwice | gpsd-3.16/driver_ais.c:1015-1018 | a sender gets no more complete reports than it sent part As |
| AisType24.ZeroMatchesEmpty | gpsd-3.16/driver_ais.c:1007-1016 | for MMSI 0 the rule holds iff a stash from 0 is waiting or all eight slots hold unused stashes |
| AisType24.ZeroAlone | gpsd-3.16/driver_ais.c:1007-1016 | a lone part B from MMSI 0 already counts as complete |
| BitExtract.Ubits | gpsd-3.16/bits.c:21-58 | the number spelled by the field as found in at most eight bytes, its bits reversed on request |
| BitExtract.FieldIsSlice | gpsd-3.16/bits.c:29-40 | it is the number spelled by the bits asked for iff they lie in eight bytes or those in the first of nine are zero |
| BitExtract.FieldsJoin | gpsd-3.16/bits.c:21-40 | fields that meet concatenate |
| BitExtract.WideFieldLosesItsTop | gpsd-3.16/bits.c:29-33 | a concrete 58-bit field that is read wrongly |
| BitExtract.ReversedIsBackward | gpsd-3.16/bits.c:42-55 | the little-endian flag reads the field's bits last first |
| BitExtract.ReversedTwice | gpsd-3.16/bits.c:42-55 | reversal is an involution |
| BitExtract.Sbits | gpsd-3.16/bits.c:60-74 | the same field as a signed number |
| BitExtract.SignedIs | gpsd-3.16/bits.c:70-73 | the sign is two's complement: the first bit counts negatively |
| BitExtract.ShiftLeft | gpsd-3.16/bits.c:137-146 | each byte becomes its shifted self with the next one's top bits, in place |
| BitExtract.ShiftMovesBits | gpsd-3.16/bits.c:137-146 | the buffer's bit string moves to the front, zeros entering behind |
| BitExtract.ShiftMultiplies | gpsd-3.16/bits.c:137-146 | the buffer's number is multiplied by a power of two modulo its size |
| Rtcm2.UnpackGps | gpsd-3.16/driver_rtcm2.c:765-807 | exactly 3*len/5 corrections, the j-th being the j-th 40-bit record of the data bits strung together; no other slot is written |
| Rtcm2.UnpackGlonass | gpsd-3.16/driver_rtcm2.c:921-965 | the same for type 31, with change and time of day |
| Rtcm2.GpsMeans | gpsd-3.16/driver_rtcm2.c:765-807 | satellite, error class and issue of data are bits 3-7, 1-2 and 32-39 of the record; range and rate corrections bits 8-23 and 24-31, signed, in units of 0.32 m and 0.032 m/s if bit 0 is set and of 0.02 and 0.002 if not |
| Rtcm2.GlonassMeans | gpsd-3.16/driver_rtcm2.c:921-965 | the same, with change in bit 32 and time of day in bits 33-39 |
| Rtcm2.GetIsSlice | gpsd-3.16/driver_rtcm2.c:199-244 | a bit field of the overlaid structure is a slice of the word's 24 data bits |
| Rtcm2.FirstFields | gpsd-3.16/driver_rtcm2.c:201-218 | the fields of the first correction of a group are those of a record across w3 and w4 |
| Rtcm2.SecondFields | gpsd-3.16/driver_rtcm2.c:210-235 | those of the second, across w4, w5 and w6 |
| Rtcm2.ThirdFields | gpsd-3.16/driver_rtcm2.c:227-243 | those of the third, with the range correction split between w6 and w7 |
| Rtcm3.Ugrab | gpsd-3.16/driver_rtcm3.c:76 | the number at the cursor, which moves past it |
| Rtcm3.Sgrab | gpsd-3.16/driver_rtcm3.c:77 | the signed number at the cursor, which moves past it |
| Rtcm3.GrabHeader | gpsd-3.16/driver_rtcm3.c:93-96 | the header fields lie at fixed bits, and the satellites start at bit 88 |
| Rtcm3.Unpack1004 | gpsd-3.16/driver_rtcm3.c:167-190 | for every satellite count, satellite i is read from bit 88+125i on, and no other slot is written |
| Rtcm3.SatellitesCoverMessage | gpsd-3.16/driver_rtcm3.c:175-188 | the satellites' fields written out again are the bits they were read from: no gap, no overlap |
| Rtcm3.Copies1007 | gpsd-3.16/driver_rtcm3.c:223-230 | for every length the copy starts at the byte the bit cursor has reached, and it stays in its array iff the length is at most 31 |
| Rtcm3.Copies1008 | gpsd-3.16/driver_rtcm3.c:232-243 | the same for both copies |
| Rtcm3.Copies1033 | gpsd-3.16/driver_rtcm3.c:386-405 | for all four lengths every copy starts at the byte the bit cursor has reached and reads inside the buffer; the last one has the third's length |
| Rtcm3.InsideIffFit | gpsd-3.16/driver_rtcm3.c:386-404 | the four copies stay inside their arrays iff every length is at most 31 |
| Rtcm3.Unpack1007 | gpsd-3.16/driver_rtcm3.c:223-230 | the descriptor announced, ended by a NUL, the station and the setup number |
| Rtcm3.Unpack1008 | gpsd-3.16/driver_rtcm3.c:232-243 | descriptor and serial number, each ended by a NUL |
| Rtcm3.Unpack1033 | gpsd-3.16/driver_rtcm3.c:386-405 | what the four copies leave in the four arrays |
| Rtcm3.StringsAreFound | gpsd-3.16/driver_rtcm3.c:386-405 | in a 1033 laid out string by string every length and every string is where the decoder looks |
| Rtcm3.StringsArrive | gpsd-3.16/driver_rtcm3.c:386-400 | the descriptor, serial and receiver arrays a whole 1033 leaves hold the strings sent, each ended by a NUL |
| Rtcm3.FirmwareIsRight | gpsd-3.16/driver_rtcm3.c:401-403 | the firmware array a whole 1033 leaves holds the string sent iff that is no longer than the receiver string or the array's old bytes continue it |
| Rtcm3.FirmwareIsCutShort | gpsd-3.16/driver_rtcm3.c:401-403 | a receiver string of one character cuts the firmware string BC to its first character |
| Dle.TsipWrite | gpsd-3.16/driver_tsip.c:38-53 | the bytes sent: the identifier and the stuffed payload between DLE and DLE ETX |
| Dle.TsipUnstuff | gpsd-3.16/driver_tsip.c:139-155 | identifier and data of any buffer, and where the scan stops; none if it is not a packet |
| Dle.TsipRoundTrip | gpsd-3.16/driver_tsip.c:38-155 | unstuffing what is written gives back every identifier and payload, and stops only at the closing ETX |
| Dle.EvermoreSend | gpsd-3.16/driver_evermore.c:400-436 | the frame of every payload under 254 bytes, with signed characters summed |
| Dle.EvermoreUnstuff | gpsd-3.16/driver_evermore.c:154-169 | as many unstuffed bytes as the length byte announces |
| Dle.EvermoreRoundTrip | gpsd-3.16/driver_evermore.c:150-169 | every payload is recovered, whatever its length and checksum bytes are |
| DleLexer.Lexer.NextState | gpsd-3.16/packet.c:910-928 | one character moves the sniffer as its transition function does |
| DleLexer.TsipRecognizedAtEnd | gpsd-3.16/packet.c:1281-1297 | for every payload the sniffer recognizes a written TSIP packet at its last byte and no sooner |
| DleLexer.EvermoreRecognizedAtEnd | gpsd-3.16/packet.c:1140-1164 | the same for EverMore, the announced length never running out |
| DleLexer.TsipOnlyFrames | gpsd-3.16/packet.c:1281-1297 | whatever the sniffer first recognizes as TSIP ends with a packet as tsip_write writes it, begun in the ground state |
| DleLexer.EvermoreOnlyFrames | gpsd-3.16/packet.c:1140-1164 | whatever it first recognizes as EverMore ends with stuffed bytes in an EverMore frame, the announced length not having run out |
| DleLexer.TsipNetLength | gpsd-3.16/packet.c:1667-1681 | the length less half the DLEs beyond two |
| DleLexer.NetLengthIsPayload | gpsd-3.16/packet.c:1670-1681 | for a written packet that is the payload's length and four |
| DleLexer.CheckEvermore | gpsd-3.16/packet.c:1968-2013 | every check made of a recognized frame, with each DLE in it required to be doubled and the sum of the payload compared |
| DleLexer.AcceptsExactlyFrames | gpsd-3.16/packet.c:1968-2013 | a buffer is accepted iff it begins with a frame the sender can send |
| Base64.B64Ntop | gpsd-3.16/bsd_base64.c:121-181 | -1 iff targsize is at most 4 times the quanta; otherwise the encoding, its length and a NUL |
| Base64.LetterIs | gpsd-3.16/bsd_base64.c:54-55 | the 64 letters in the order of the table |
| Base64.DigitsSpell | gpsd-3.16/bsd_base64.c:58-118 | the six-bit digits spell the input's bits, padded with zeros to a whole digit |
| Base64.RoundTrip | gpsd-3.16/bsd_base64.c:121-181 | decoding gives back every byte string |
| Base64.OnlyEncodingsDecode | gpsd-3.16/bsd_base64.c:98-118 | a string that decodes is the encoding of what it decodes to |
| Zodiac.ZodiacChecksum | gpsd-3.16/driver_zodiac.c:42-49 | the negated sum of the words |
| Zodiac.ChecksumCompletes | gpsd-3.16/driver_zodiac.c:42-49 | words followed by their checksum sum to zero |
| Zodiac.Session.EndWrite | gpsd-3.16/driver_zodiac.c:51-61 | the words go out low byte first |
| Zodiac.WireAt | gpsd-3.16/driver_zodiac.c:51-61 | byte 2i of the wire is the low byte of word i and byte 2i+1 its high byte |
| Zodiac.Session.Spew | gpsd-3.16/driver_zodiac.c:67-91 | a five-word header with the data's count precedes the data |
| Zodiac.Session.SendRtcm | gpsd-3.16/driver_zodiac.c:105-120 | one message of at most 64 bytes under the next sequence number |
| Zodiac.Session.ZodiacSendRtcm | gpsd-3.16/driver_zodiac.c:122-132 | the messages of a whole buffer, and the sequence number left |
| Zodiac.PartsSumToZero | gpsd-3.16/driver_zodiac.c:74-117 | the header words and the data words of every message sum to zero |
| Zodiac.BufferArrives | gpsd-3.16/driver_zodiac.c:105-132 | read back by a receiver that checks everything, the bytes sent are the buffer in order, in full messages but the last, with at most one pad byte at the end, and each message carries the number after the one before it |

## Left out

- Tunnels, sockets, beacon sending and the select loop (br_select.c, tapudp.c, tunudp.c and the receiving parts of ir.cc): reads and writes over the kernel.
- IR/ir.cc and IRtest/ir.cc: earlier copies of the routing code modelled from IRtestWLAN.
- AdvancedPredict, GPSVec and the Miller projection: floating point and random numbers; they are parameters, and every packet may predict differently. Distances are reals, so rounding near the 200 limit is not modelled.
- The position stored with a new route (IRtestWLAN/ir.cc:713) comes from an iterator past the end; the model takes it as an arbitrary value.
- Hop counts of forwarded packets: what this code re-sends does not bound them.
- The router's clock is an unbounded number of milliseconds; the casts between signed and unsigned at 24 days are not modelled.
- CrcBursts.EscapesAreRare: the odds are a count over all bursts of one span, each taken as equally likely.
- BitExtract.Ubits: covers widths up to 63; a mask by a shift of 64 is undefined in C. Reads past the buffer are excluded.
- BitExtract.ShiftLeft: covers shifts by less than a byte; the other branch (bits.c:131-135) mixes sizes in bits and bytes.
- NmeaCycle.LockOn: is about cycles without DBT sentences; what these do is NmeaCycle.ContinuationIsForever. Timestamps are reals, and the word of cycle enders is the set of its bit positions.
- The NMEA phrase table and the sentence decoders: a sentence enters the detector as its phrase number and the time it registers.
- FastPacket.Session.FindPgn: the table of sessions by network and unit enters as the unit under which the session is listed, if any; announcing new units and refusing network numbers over 3 are left out.
- Decoders of the single groups, and of AIS, SiRF, Navcom, iTalk, GeoStar, SuperStar II, Oncore and Garmin messages: long lists of independent assignments.
- AIS six-bit text: stashed names are taken as strings.
- Rtcm2.UnpackGps: other message types and the word parity are left out; scale factors are exact reals. The bit-field layout is that of the little-endian structures, which the big-endian ones repeat.
- Rtcm3.Unpack1004: raw fields only; resolutions, invalid-range sentinels and the narrowing of lock times are left out, as are message types with the same cursor and simpler fields.
- Rtcm3.Unpack1033: the arrays' contents are stated for string lengths of at most 31; what a longer copy does to the fields behind its array is not modelled, nor by Rtcm3.Unpack1007 and Rtcm3.Unpack1008.
- Rtcm3.Unpack1007: string lengths are at most 31, as for Rtcm3.Unpack1033.
- Rtcm3.Unpack1008: string lengths are at most 31, as for Rtcm3.Unpack1033.
- DleLexer.Lexer.NextState: the states of other protocols are one state, and a character pushed back is not read again; neither occurs on the frames the theorems are about.
- Dle.EvermoreUnstuff: an announced length under 2 wraps around in the source and is excluded.
- DleLexer.CheckEvermore: an announced length under 2 wraps around in the source and is excluded.
- DleLexer.AcceptsExactlyFrames: is about buffers that announce a length of at least 2, as DleLexer.CheckEvermore.
- NmeaChecksum.CheckNmea: PASHR sentences, which are not checked, are left out; a packet with a star is taken to end with a line feed, as the sniffer's states leave it.
- Zodiac on big-endian hosts, where the bytes of each word would be exchanged, and failing writes.
- JSON, D-Bus, displays, device probing, baud rates and logging.
