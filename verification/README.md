# Verified model of the tight transport

A Dafny model of the `tight` reliable datagram protocol and of the endpoint directory that runs beside it,
with machine-checked proofs of what they are for. Every module follows one part of the program:

- **Erasure code** - `Galois`, `FieldTables`, `Linear`, `Vandermonde`, `ReedSolomon`, `Elimination`,
  `Decoder`: GF(2^8) and its tables, encoding, in-place Gaussian elimination, and exactly which losses are
  repaired.
- **Messages** - `WireFormat`, `Fragmenter`, `Reassembler`, `MessageTransfer`, `MessageRuns`: from a message to padded
  fragments with parity and back, over any loss, order and repetition.
- **Sequence numbers** - `OrderedSets`, `SequenceTracking`, `Retransmission`, `ReliableRun`, `DroppedGaps`: the
  receive cursor, the reports, the sender's pruning, whole runs of both sides over a bad network, and exactly when
  a packet that is still wanted is dropped.
- **Pacing** - `Pacing`, `Bandwidth`: the token bucket with loans and the bandwidth estimate.
- **Cryptography** - `Field25519`, `Bytes25519`, `X25519`, `Montgomery`: the limb arithmetic, the ladder, and the
  multiples of a point that it computes;
  `Gf128`, `Ghash`, `Gcm`: authenticated encryption over an arbitrary block cipher.
- **Datagrams** - `Crc32`, `Bursts`, `PacketCodec`, `Tampering`: the checksum, the codec, and what it notices.
- **Commands, files, queue** - `Commands`, `FileTransfer`, `BlockingQueue`.
- **Routing** - `Directory`, `Balancer`: replicas that converge, sessions that stay.

Code that works on arrays and fields in place is a method or a class here, proved against a specification
function; the properties are proved about those functions, for all inputs and all runs. Clocks, bandwidth
readings, hashes and the block cipher are parameters. Whatever the program does under one lock is one step.

Some comments in the program promise more than its code does. The model follows the code, and each case has its
exact condition and an input:

- any p parities repair any p losses (`creek/tight/include/tight/fec.hpp:8`): `Vandermonde.SpacedExact`,
  `Decoder.ConsecutiveDecodable`, `Vandermonde.RowsZeroAndThreeFail`;
- the parities never fall below the late ratio (`creek/tight/src/fragmenter.cpp:19-21`):
  `Fragmenter.ParityCoversLosses`, `Fragmenter.AllLateOneParity`;
- the file or data packet that finds too few tokens stays queued (`creek/tight/src/transport.cpp:2102-2106`), while
  it is lost: `Pacing.EveryPacketsFate`, `Pacing.FilePacketLost`;
- more fragments than the limit come from no proper sender (`creek/tight/src/reassembler.cpp:140-142`), while fragments
  of 64 to 127 bytes with enough parities exceed it: `MessageTransfer.LimitTurnsAwayIff`;
- a gap once asked for is asked for again in every report (`creek/tight/src/report.cpp:80-86`):
  `DroppedGaps.GrowingThresholdLosesIff`, `DroppedGaps.GrowingRttExample`;
- a gap that is given up has been skipped before (`creek/tight/src/report.cpp:76-77`), while the cursor may stand
  before it and the next packet find it anew: `DroppedGaps.ForgottenUnskippedIff`, `DroppedGaps.ForgottenExample`;
- a command is passed when it has not come within three round-trip times (`creek/tight/src/command.cpp:73-75`):
  `Commands.EarlyIff`, `Commands.EarlyExample`.

The cut factors are 0.90, 0.75, 0.65 and 0.50, not those of the overview in
`creek/tight/include/tight/bandwidth.hpp:13-18`.

Many proofs start with a `hide` statement: it keeps definitions out of the solver's sight and assumes nothing.

## Model

| member | source | states |
|---|---|---|
| Galois.MulAssoc | creek/tight/src/fec.cpp:10-36 | shift-and-add multiplication modulo 0x11D is associative on all bytes |
| Galois.MulComm | creek/tight/src/fec.cpp:34-37 | and commutative |
| Galois.MulAddRight | creek/tight/src/fec.cpp:34-37 | and distributes over exclusive or |
| Galois.NoZeroDivisors | creek/tight/src/fec.cpp:34-37 | a product is zero only if a factor is |
| Galois.ExpOrder | creek/tight/src/fec.cpp:17-24 | the powers of the generator return to 1 after 255 steps |
| Galois.ExpDistinct | creek/tight/src/fec.cpp:17-24 | and not before: the first 255 powers are all different |
| Galois.ExpSurjective | creek/tight/src/fec.cpp:17-24 | so every non-zero byte is a power, which the log table relies on |
| Galois.Reduction | creek/tight/src/fec.cpp:18-23 | the modulus of the field: x times x^7 is x^4 + x^3 + x^2 + 1 |
| FieldTables.GfTables.constructor | creek/tight/src/fec.cpp:16-26 | the two tables hold the 512 powers and the logarithm of every non-zero byte |
| FieldTables.GfTables.GfMul | creek/tight/src/fec.cpp:34-37 | the table product is the field product, zero included |
| FieldTables.GfTables.GfPow | creek/tight/src/fec.cpp:40-44 | the table power is the repeated product for every exponent, 0^0 being 1 |
| FieldTables.GfTables.GfInv | creek/tight/src/fec.cpp:47-49 | the table inverse of a non-zero byte multiplies with it to 1 |
| ReedSolomon.Coef | creek/tight/src/fec.cpp:53-56 | the coefficient is the node of the column to the power of the row, the node being the index plus one cut to a byte |
| ReedSolomon.GfMulAdd | creek/tight/src/fec.cpp:60-72 | in place, every byte up to the width gains the product, missing source bytes counting as zero; all fast paths agree |
| ReedSolomon.EncodeInto | creek/tight/src/fec.cpp:95-111 | every parity buffer ends up holding its row's combination of the fragments, reused buffers included; buffers beyond stay |
| Linear.SwapKeeps | creek/tight/src/fec.cpp:151-154 | exchanging two equations keeps the solution set |
| Linear.ScaleKeeps | creek/tight/src/fec.cpp:155-158 | multiplying an equation by a non-zero byte keeps the solution set |
| Linear.AddKeeps | creek/tight/src/fec.cpp:159-166 | adding a multiple of one equation to another keeps the solution set |
| Linear.NoPivotSingular | creek/tight/src/fec.cpp:148-150 | a column without pivot means the original matrix is singular |
| Elimination.Normalize | creek/tight/src/fec.cpp:155-158 | dividing the pivot row keeps the solutions and the unit columns and makes the pivot 1 |
| Elimination.ClearColumn | creek/tight/src/fec.cpp:159-166 | clearing a column keeps the solutions and makes one more unit column |
| Elimination.ReduceColumn | creek/tight/src/fec.cpp:151-166 | one round of the elimination: exchange, divide, clear |
| Elimination.GaussJordan | creek/tight/src/fec.cpp:146-167 | the in-place elimination succeeds exactly when the matrix is invertible, and then the right-hand sides hold the only solution of every byte column |
| Decoder.RowSplits | creek/tight/src/fec.cpp:126-129 | a parity row is the sum of its received part and its missing part |
| Decoder.SentSolves | creek/tight/src/fec.cpp:129-144 | the fragments that were sent solve the system the decoder sets up |
| Decoder.Decode | creek/tight/src/fec.cpp:113-174 | succeeds exactly when nothing is missing or the first parities supplied form an invertible matrix; then every missing fragment is the sent one padded to the width, for every message the received data and parities are consistent with; received fragments are untouched, and a failure changes nothing |
| Vandermonde.PowerSumsVanish | creek/tight/src/fec.cpp:51-56 | if as many power sums of distinct nodes vanish as there are nodes, all weights are zero |
| Vandermonde.SpacedExact | creek/tight/src/fec.cpp:146-150 | rows that lie d apart, in any order, are invertible exactly when the d-th powers of the nodes differ and, unless row 0 is among them, no node is zero |
| Vandermonde.ConsecutiveNonSingular | creek/tight/src/fec.cpp:146-150 | consecutive rows, in any order, are invertible exactly when the nodes differ and, unless row 0 is among them, none is zero |
| Vandermonde.TwoRowsExact | creek/tight/include/tight/fec.hpp:8 | any two different rows and any two nodes: the exact condition, zero nodes included |
| Decoder.ConsecutiveDecodable | creek/tight/src/fec.cpp:122-150 | any number of fragments and consecutive parities in any order: decoding succeeds exactly when no two lost numbers agree modulo 256 and, unless parity 0 is used, none is 255 modulo 256; up to 255 fragments it never fails |
| Decoder.SpacedDecodable | creek/tight/src/fec.cpp:122-150 | parities that lie d apart: decoding succeeds exactly when the d-th powers of the lost nodes differ and, unless parity 0 is used, none is zero |
| Vandermonde.TwoLossesExact | creek/tight/include/tight/fec.hpp:8 | two rows repair two losses exactly when a product of exponent differences is not a multiple of 255 |
| Vandermonde.RowsZeroAndThreeFail | creek/tight/include/tight/fec.hpp:8 | rows 0 and 3 do not repair fragments 0 and 213: not any p parities repair any p losses |
| Decoder.OneLossExact | creek/tight/src/fec.cpp:53-56 | one loss is repaired exactly when the parity is row 0 or the node of the fragment is not zero |
| Decoder.SharedNodeUndecodable | creek/tight/src/fec.cpp:53-56 | two lost numbers that agree modulo 256 are never repaired, whatever else is lost and whichever parities are supplied |
| WireFormat.GetPut16 | creek/tight/src/wire_format.hpp:32-34 | a 16-bit field is big-endian on the wire and is read back |
| WireFormat.GetPut32 | creek/tight/src/wire_format.hpp:35-38 | a 32-bit field is big-endian on the wire and is read back |
| WireFormat.Put64Words | creek/tight/src/wire_format.hpp:39-42 | a 64-bit field is not big-endian: two big-endian words, the low one first |
| WireFormat.GetPut64 | creek/tight/src/packet_codec.cpp:87-91 | the word-wise reader undoes the word-wise swap |
| WireFormat.LengthRoundTrip | creek/tight/src/fragmenter.cpp:60-74 | the four-byte length prefix is read back for every length below 2^32 |
| WireFormat.ReservedRoundTrip | creek/tight/src/transport.cpp:1858-1860 | channel and real size come back from the shared field exactly when they fit four and twelve bits |
| Fragmenter.ParityCountFor | creek/tight/src/fragmenter.cpp:16-38 | no parity in stage 0, one in stage 1, else between 1 and 100 and below a fifth of the data plus one |
| Fragmenter.ParityCoversLosses | creek/tight/src/fragmenter.cpp:19-37 | in stage 2 the parities cover the late share of the data or reach a cap exactly when the late ratio lies between 0.0001 and 0.9999 or one parity is enough for that |
| Fragmenter.AllLateOneParity | creek/tight/src/fragmenter.cpp:25 | when all of a hundred fragments come late there is one parity |
| Fragmenter.ParityTight | creek/tight/src/fragmenter.cpp:28-36 | between the extreme ratios there are as many parities as the late ratio and 1.2 times its entropy call for, or a cap is reached, and never one more |
| Fragmenter.StageKeptIff | creek/tight/src/fragmenter.cpp:90-98 | a stage is kept over any sequence of late ratios exactly when all of them lie in its band |
| Fragmenter.StageHysteresis | creek/tight/src/fragmenter.cpp:90-98 | over any ratios in the overlap of the bands the stage does not change back and forth |
| Fragmenter.FragmentSender.NextMessageId | creek/tight/src/fragmenter.cpp:51-54 | message ids are the counter modulo 2^31, never zero |
| Fragmenter.FragmentSender.ChooseParity | creek/tight/src/fragmenter.cpp:84-105 | the parity count of each of the three states, plus the extras, never above the data count; the stage moves only on reports |
| Fragmenter.Split | creek/tight/src/fragmenter.cpp:113-117 | the spans are the consecutive pieces of the width |
| Fragmenter.FragmentSender.FragmentAndSend | creek/tight/src/fragmenter.cpp:40-146 | the packets are the padded pieces of the framed message and then its parities, with their numbers, counts and sizes |
| Reassembler.BuildMessage | creek/tight/src/reassembler.cpp:214-256 | the message is the declared part of the stream behind its four-byte prefix; empty when the stream is shorter than that or the length above the limit |
| Reassembler.CopyBody | creek/tight/src/reassembler.cpp:241-255 | the copy skips the prefix across fragment boundaries and stops at the declared length |
| Reassembler.TryAssemble | creek/tight/src/reassembler.cpp:199-353 | delivered exactly when complete or repairable, lost exactly when more is missing than there are parities and the wait is over, and what is delivered |
| MessageTransfer.SentPacketsGenuine | creek/tight/src/fragmenter.cpp:135-145 | what the sender emits are the packets of the message |
| MessageTransfer.DatagramFits | creek/tight/src/fragmenter.cpp:45 | with its 48-byte header every packet is a datagram of exactly the size allowed, from 53 bytes on, and of 112 bytes for any smaller size, which then does not fit |
| MessageTransfer.DirectDeliveryExact | creek/tight/src/reassembler.cpp:257-294 | all data fragments give the message back exactly when the fragments are below 4096 bytes or the framed message is: twelve bits of size are kept |
| MessageTransfer.RepairedDelivery | creek/tight/src/reassembler.cpp:344-352 | a repaired message is the one sent, though restored fragments count with the full width |
| MessageTransfer.HeldConsistent | creek/tight/src/reassembler.cpp:331-342 | what is held of a message is consistent with its pieces and parities |
| MessageTransfer.MessageReceiver.DropOld | creek/tight/src/transport.cpp:2240-2256 | the sweep forgets exactly the old entries and verdicts |
| MessageTransfer.MessageReceiver.HandleFragment | creek/tight/src/reassembler.cpp:132-197 | one fragment: ignored, stored once, or ending in one verdict that closes the id; beyond its parity a message is lost with the first fragment after 250 milliseconds and two round trips, or, where lost packets are sent again, after twelve report intervals; anything delivered for a sent message is that message |
| MessageTransfer.LossWaitIs | creek/tight/src/reassembler.cpp:174-189 | where lost packets are sent again the wait is the time after which the receiver gives a gap up; else it is at least 250 milliseconds and two round trips, and equals one of the two |
| MessageTransfer.LimitTurnsAwayIff | creek/tight/src/reassembler.cpp:140-146 | the limit on the fragments of a message turns away some message that is within the size limit and has no more parities than data fragments exactly when its fragments are narrower than 128 bytes |
| MessageRuns.Run | creek/tight/src/reassembler.cpp:132-197 | over any trace of genuine fragments with loss, repetition, any order and sweeps: everything delivered is what was sent, what is lost had waited, two verdicts on an id have a sweep between them that forgets the first; a message not forgotten whose lost pieces differ modulo 256 and are matched by as many first parities gets exactly one verdict, delivery if no fragment comes too late; one of more fragments than the receiver takes gets none |
| MessageRuns.CoveredRepairable | creek/tight/src/reassembler.cpp:317-352 | an entry that lacks no more pieces than first parities it holds, no two of them equal modulo 256, can be repaired |
| MessageRuns.BeyondParityIff | creek/tight/src/reassembler.cpp:296-320 | a message is beyond its parity when all its parities together would not repair what is held, and, if no two missing pieces agree modulo 256, only then |
| Field25519.FeAdd | creek/tight/src/crypto.cpp:249-251 | limb addition does not overflow and adds the values |
| Field25519.FeSub | creek/tight/src/crypto.cpp:253-262 | limb subtraction does not underflow and subtracts, up to twice the modulus |
| Field25519.Carry | creek/tight/src/crypto.cpp:275-284 | the carry chain in 128 and 64 bits changes the value by a multiple of the modulus and leaves tight limbs |
| Field25519.FeMul | creek/tight/src/crypto.cpp:264-284 | limb multiplication never overflows on limbs below 2^54 and is congruent to the product modulo 2^255-19 |
| Field25519.FeMulScalar | creek/tight/src/crypto.cpp:289-306 | multiplication by a small scalar likewise |
| Field25519.FeSqN | creek/tight/src/crypto.cpp:308-311 | n squarings raise to 2^n |
| Field25519.FeInv | creek/tight/src/crypto.cpp:316-331 | the addition chain raises to 2^255-21 |
| Bytes25519.FromBytesValue | creek/tight/src/crypto.cpp:178-186 | the five overlapping loads read the little-endian value without its top bit |
| Bytes25519.PassExact | creek/tight/src/crypto.cpp:191-197 | a carry pass subtracts at most twice the modulus and settles the limbs |
| Bytes25519.LessModulusExact | creek/tight/src/crypto.cpp:198-207 | the borrowing subtraction gives the value less the modulus, and a borrow exactly when it is smaller |
| Bytes25519.CanonicalChoice | creek/tight/src/crypto.cpp:208-213 | of the two the choice is the representative below the modulus |
| Bytes25519.MaskedChoice | creek/tight/src/crypto.cpp:209-213 | the masked selection takes the first operand under an all-one mask and the second under zero |
| Bytes25519.PackValue | creek/tight/src/crypto.cpp:214-246 | the 32 packed bytes stand for the value of the limbs |
| Bytes25519.ToBytes | creek/tight/src/crypto.cpp:188-247 | the bytes written are the least non-negative residue |
| X25519.MaskedExchange | creek/tight/src/crypto.cpp:333-340 | the masked exchange exchanges under an all-one mask and does nothing under zero |
| X25519.ClampedScalar | creek/tight/src/crypto.cpp:360-364 | the clamped scalar is a multiple of 8 between 2^254 and 2^255 |
| X25519.ClampedValue | creek/tight/src/crypto.cpp:360-364 | of the 256 bits of the private key the scalar keeps all but five: bits 0, 1, 2 and 255 are cleared, bit 254 is set |
| X25519.CoordinateValue | creek/tight/src/crypto.cpp:178-186 | the coordinate is that of the peer key without bit 255, modulo the prime |
| X25519.BitOfOctets | creek/tight/src/crypto.cpp:375 | the bit read from an octet is that bit of the scalar |
| X25519.LimbStep | creek/tight/src/crypto.cpp:381-396 | one step on limbs, within its bounds, is the step on residues that `Montgomery.Doubles` and `Montgomery.Adds` are about |
| Montgomery.Doubles | creek/tight/src/crypto.cpp:381-396 | the step takes the first point (x : z) to ((x^2 - z^2)^2 : 4xz(x^2 + 486662xz + z^2)) |
| Montgomery.Adds | creek/tight/src/crypto.cpp:381-396 | and the second to (4(x2 x3 - z2 z3)^2 : 4u(x2 z3 - z2 x3)^2) |
| Montgomery.TangentLaw | creek/tight/src/crypto.cpp:381-396 | the first is the tangent law of the curve y^2 = x^3 + 486662x^2 + x: it gives the coordinate of the double of any point of the curve |
| Montgomery.ChordLaw | creek/tight/src/crypto.cpp:381-396 | the second is its chord law: from the coordinates of two points of the curve and of their difference it gives that of their sum |
| X25519.BitStep | creek/tight/src/crypto.cpp:375-396 | exchanging when a bit differs from the one before is exchanging before and after each step |
| X25519.Ladder | creek/tight/src/crypto.cpp:366-399 | the 255 rounds on limbs compute the ladder on residues for every scalar and coordinate |
| Montgomery.LadderMultiples | creek/tight/src/crypto.cpp:373-399 | after n rounds the two points are the m-th and the next multiple, m being the number made of the n highest bits, for every scalar and coordinate |
| X25519.SharedSecret | creek/tight/src/crypto.cpp:357-408 | the output is the X25519 function of section 5 of RFC 7748, of the clamped key and the coordinate, for every pair of keys, and success means it is not zero |
| Montgomery.FunctionIsMultiple | creek/tight/src/crypto.cpp:366-401 | that function is x z^(p - 2) of the multiple by the scalar, built by doubling and differential addition |
| Gf128.Distributive | creek/tight/src/crypto.cpp:537-553 | multiplication of authentication blocks distributes over addition on both sides |
| Gf128.ProductComm | creek/tight/src/crypto.cpp:537-553 | and is commutative |
| Gf128.ProductAssoc | creek/tight/src/crypto.cpp:537-553 | and associative |
| Gf128.ProductUnit | creek/tight/src/crypto.cpp:541-544 | the block with only its first bit set is its unit |
| Gf128.Modulus | creek/tight/src/crypto.cpp:536-551 | the reduction is by x^128 + x^7 + x^2 + x + 1 (section 6.3 of NIST SP 800-38D) |
| Gf128.ChainIsPolynomial | creek/tight/src/crypto.cpp:555-567 | hashing block by block is the polynomial of section 6.4 of NIST SP 800-38D, for any number of blocks |
| Gf128.ChainDifference | creek/tight/src/crypto.cpp:555-567 | two chains differ by the chain of the differences |
| Ghash.AsElementInjective | creek/tight/src/crypto.cpp:541 | a block of bytes is determined by its field element |
| Ghash.ShiftIsTimesX | creek/tight/src/crypto.cpp:546-551 | the byte-wise shift with 0xE1 folded in is multiplication by x |
| Ghash.GhashMul | creek/tight/src/crypto.cpp:537-553 | the in-place byte loops compute the field product |
| Ghash.GhashUpdate | creek/tight/src/crypto.cpp:555-567 | data of any length is taken in as blocks, the last padded with zeros |
| Gcm.IncrementCounter | creek/tight/src/crypto.cpp:600-603 | the carry loop is the 32-bit increment of the last four bytes |
| Gcm.CounterParts | creek/tight/src/crypto.cpp:596-611 | the k-th counter block keeps the first twelve bytes and has k more, modulo 2^32, in the others |
| Gcm.CountersDistinct | creek/tight/src/crypto.cpp:596-611 | two counter blocks are equal exactly when a multiple of 2^32 apart |
| Gcm.Crypt | creek/tight/src/crypto.cpp:594-612 | every byte meets its place in the key stream, also in place; nothing behind is written |
| Gcm.CryptedTwice | creek/tight/src/crypto.cpp:594-612 | applying the key stream twice restores the data |
| Gcm.LengthBlockValue | creek/tight/src/crypto.cpp:579-585 | the length block holds both lengths in bits, modulo 2^64 |
| Gcm.AuthenticatedIs | creek/tight/src/crypto.cpp:569-592 | block by block, what is hashed: sixteen bytes of additional data each, filled up with zeros, then so the ciphertext, then the two lengths |
| Gcm.HashKeyIs | creek/tight/src/crypto.cpp:571-574 | the hash key is the encryption of sixteen zero bytes |
| Gcm.ComputeTag | creek/tight/src/crypto.cpp:569-592 | the tag is the polynomial of padded additional data, padded ciphertext and lengths, plus the encryption of J0 |
| Gcm.StartNumbered | creek/tight/src/crypto.cpp:623-625 | J0 is the nonce followed by 1, and its k-th counter the nonce followed by k + 1, modulo 2^32 |
| Gcm.Encrypt | creek/tight/src/crypto.cpp:615-629 | byte i meets the encryption of the nonce followed by i/16 + 2, modulo 2^32; the tag is the polynomial of what is hashed plus the encryption of the nonce followed by 1; also in place, over any block cipher (section 7.1 of NIST SP 800-38D) |
| Gcm.MaskApart | creek/tight/src/crypto.cpp:596-611 | below 2^32 - 1 blocks no block of the key stream is the one that masks the tag; beyond, exactly every 2^32-nd is |
| Gcm.SameTag | creek/tight/src/crypto.cpp:643-646 | the comparison without early exit finds exactly equality |
| Gcm.Decrypt | creek/tight/src/crypto.cpp:631-649 | succeeds exactly when the tag is that of `Gcm.Encrypt`, and then every byte meets its numbered block; otherwise nothing is written |
| Gcm.OpenSealed | creek/tight/src/crypto.cpp:615-649 | opening what was sealed restores the plaintext for every key, nonce, additional data and length |
| Gcm.OneTagOpens | creek/tight/src/crypto.cpp:641-646 | exactly one tag is accepted |
| Gcm.SharedTagIsARoot | creek/tight/src/crypto.cpp:569-592 | two ciphertexts of one length share a tag exactly when the hash key is a root of the polynomial of their differences |
| Crc32.CrcTable.constructor | creek/tight/src/crc32.cpp:13-21 | the table holds the remainder of every byte after eight bit steps |
| Crc32.TableStep | creek/tight/src/crc32.cpp:27-29 | a table step is eight bit steps |
| Crc32.CrcTable.Run | creek/tight/src/crc32.cpp:25-31 | the table-driven checksum is the bit-by-bit one for any data |
| Crc32.CheckValue | creek/tight/src/crc32.cpp:13-35 | the checksum of the digits 1 to 9 is the check value of CRC-32, 0xCBF43926 |
| Crc32.Shift8Unshift8 | creek/tight/src/crc32.cpp:16-18 | shifting a byte through loses nothing and can be undone |
| Bursts.UpdateConcat | creek/tight/src/crc32.cpp:25-31 | the checksum of a concatenation continues from the first part |
| Bursts.UpdateXor | creek/tight/src/crc32.cpp:25-31 | the difference of two checksum runs is the run of the differences |
| Bursts.BurstNoticed | creek/tight/src/crc32.cpp:25-35 | strings of equal length that differ only within four consecutive bytes have equal checksums exactly when they are equal |
| Bursts.FiveBytesUnnoticed | creek/tight/src/crc32.cpp:25-35 | five bytes are too many: a concrete difference that is never noticed |
| PacketCodec.EncodeHeaderTo | creek/tight/src/packet_codec.cpp:12-46 | every field at its offset, a zero checksum, nothing written behind the header |
| PacketCodec.FinalizeCrc | creek/tight/src/packet_codec.cpp:48-55 | the checksum over the datagram with its field zeroed goes into the field; a short buffer stays as it is |
| PacketCodec.EncodeTo | creek/tight/src/packet_codec.cpp:57-66 | the buffer holds the datagram of header and payload |
| PacketCodec.Decode | creek/tight/src/packet_codec.cpp:74-127 | accepts exactly by length, magic, version, size field and checksum; the header of the caller is filled in from every datagram with the right magic and version, the payload only on success |
| PacketCodec.ReadsBack | creek/tight/src/packet_codec.cpp:78-114 | every header field is read back from its offset |
| PacketCodec.RoundTrip | creek/tight/src/packet_codec.cpp:57-127 | decoding an encoded datagram gives header and payload back, whatever bytes follow it |
| PacketCodec.DecodesIff | creek/tight/src/packet_codec.cpp:57-127 | only encodings are accepted: a datagram decodes to a header and payload exactly when it is their datagram, or that with other bytes behind it |
| Tampering.AlteredIsRefused | creek/tight/src/packet_codec.cpp:116-123 | a datagram altered within four consecutive bytes, not in the size field and not across the boundary of the checksum field, is refused |
| Tampering.AlteredByteIsRefused | creek/tight/src/packet_codec.cpp:116-123 | so is any with one altered byte outside bytes 36 and 37 |
| Tampering.SizeFieldIsNotProtected | creek/tight/src/packet_codec.cpp:111-123 | bytes 36 and 37 are not protected: for any header, any data and any filler that makes the sizes differ in just one of them, a payload beginning with both whose datagram, with that byte altered, decodes to the data |
| SequenceTracking.PeerSequences.Arrive | creek/tight/src/reassembler.cpp:97-129 | the state after a packet: number 0 untracked, the first number sets the base, gaps marked up to the number, the cursor at the least number not held |
| SequenceTracking.PeerSequences.MarkGaps | creek/tight/src/reassembler.cpp:103-108 | a gap keeps the time it was found at and takes the channel of the last packet that showed it |
| SequenceTracking.PeerSequences.Judge | creek/tight/src/report.cpp:58-91 | one missing number is forgotten and skipped, forgotten, listed and skipped, or left waiting |
| SequenceTracking.ThresholdIs | creek/tight/src/report.cpp:35-37 | the loss threshold is three and a half round-trip times exactly below 613566757 microseconds, from where the 32-bit product wraps; 100 milliseconds below ten, 35 while no round-trip time is known |
| SequenceTracking.CursorStep | creek/tight/src/report.cpp:48-56 | skipping gaps in ascending order leads to the least number neither held nor passable |
| SequenceTracking.PeerSequences.Cap | creek/tight/src/report.cpp:92-96 | above 4096 the oldest entries go |
| SequenceTracking.PeerSequences.Report | creek/tight/src/report.cpp:35-96 | the state after a report, its acknowledgement and its loss list, cut to sixteen bits and 256 |
| SequenceTracking.CappedKeeps | creek/tight/src/report.cpp:92-96 | what stays are the latest 4096 with their times |
| Retransmission.Sender.Handle | creek/tight/src/report.cpp:390-434 | number by number: kept is what is neither acknowledged without being listed nor was sent again ten times; sent again is each listed number of them, once, in ascending order, with the packet stored under it, and counted and timed |
| ReliableRun.EveryRunTracks | creek/tight/src/reassembler.cpp:97-129 | on any events and channels: the cursor is the least number from the first one on neither received nor skipped, and beyond it exactly the received numbers are held |
| ReliableRun.CursorNeverFalls | creek/tight/src/reassembler.cpp:102-128 | the cursor never moves back |
| ReliableRun.Replay | creek/tight/src/report.cpp:35-434 | the objects of both sides, driven by packets, heartbeats, reports and resends, go through exactly the states of the run and put on the wire exactly what it does, so that its theorems are about them |
| ReliableRun.AcknowledgedIsSettled | creek/tight/src/report.cpp:42-91 | all channels reliable, no report over its limits, a round-trip time that changes with heartbeats but keeps what was late late or given up: every number from the first to a reported acknowledgement was received, is in that report's list, or was given up when the cursor had passed it |
| ReliableRun.ListedGoesOut | creek/tight/src/report.cpp:424-433 | on every run that sends no number twice: whenever a report is handled, each number it lists that is kept and was sent again fewer than ten times goes out with the packet sent under it |
| ReliableRun.GoneOut | creek/tight/src/report.cpp:390-434 | a packet still kept has gone out once and once for every resend, an exhausted one eleven times, and nothing goes out but the packet sent under its number |
| ReliableRun.SentByEvent | creek/tight/src/report.cpp:390-434 | which is the packet of an event of the run that sent it |
| ReliableRun.NothingWantedIsDropped | creek/tight/src/report.cpp:399-423 | then no report, however late or repeated, makes the sender drop a packet still wanted, unless it has gone out eleven times |
| DroppedGaps.FreshDroppedIff | creek/tight/src/report.cpp:399-423 | a packet not yet sent again is dropped exactly when the report acknowledges it without listing it |
| DroppedGaps.GapDroppedIff | creek/tight/src/report.cpp:58-96 | in any state of the receiver a gap is dropped exactly when everything up to it can be passed and its channel does not retransmit or too many overdue numbers lie below it |
| DroppedGaps.BurstGapDroppedIff | creek/tight/src/report.cpp:178-179 | of an overdue burst exactly the numbers behind those that are listed are dropped |
| DroppedGaps.LongBurstDropsIff | creek/tight/src/report.cpp:178-179 | an overdue burst loses packets exactly when it is longer than 256 |
| DroppedGaps.ForeignChannelDropsIff | creek/tight/src/reassembler.cpp:104-107 | a gap is dropped, at any time, exactly when the channel of the packet that showed it does not retransmit, whatever the lost packet's own channel |
| DroppedGaps.AskedThenDroppedIff | creek/tight/src/report.cpp:80-90 | in any state: a gap asked for and passed is dropped by the next report exactly when not asked for again, and lost exactly when found too recently for the new threshold and for giving up |
| DroppedGaps.LosesIff | creek/tight/src/transport.cpp:1319-1324 | two reports with different round-trip times lose a gap found at a given time exactly when that time lies between the two horizons |
| DroppedGaps.GrowingThresholdLosesIff | creek/tight/src/transport.cpp:1319-1324 | there is such a time exactly when the condition on runs fails: something late to the first report is neither late to the second nor given up by it |
| DroppedGaps.GrowingRttLosesPacket | creek/tight/src/transport.cpp:1319-1324 | whenever two reports break that condition, a whole run of sender and receiver that makes them drops a packet still wanted |
| DroppedGaps.GrowingRttExample | creek/tight/src/transport.cpp:1319-1324 | for one: a report before any heartbeat, then a heartbeat that says 200 milliseconds |
| DroppedGaps.AskedForIff | creek/tight/src/report.cpp:35-39 | a gap is asked for at some time exactly when the loss threshold is below the give-up time |
| DroppedGaps.SlowLinkNeverSkips | creek/tight/src/report.cpp:75-88 | otherwise nothing is ever listed and the cursor stays before the gap |
| DroppedGaps.ForgottenUnskippedIff | creek/tight/src/report.cpp:75-80 | in any state a report forgets a reliable gap with the cursor still before it exactly when it is older than the give-up time: not asked for, not skipped |
| DroppedGaps.ForgottenFoundAnew | creek/tight/src/reassembler.cpp:102-107 | the next packet beyond such a gap finds it anew, with its own time and channel |
| DroppedGaps.ForgottenExample | creek/tight/src/report.cpp:75-80 | for one: a gap first reported on after 1.3 seconds, with reports due every 100 milliseconds |
| DroppedGaps.FilledGapStaysIff | creek/tight/src/reassembler.cpp:102-119 | a number that arrives stays in the table of gaps exactly when it was in it and at or beyond the cursor |
| DroppedGaps.BeforeFirstIsDropped | creek/tight/src/reassembler.cpp:99-101 | packets sent before the first one to arrive are dropped unheard |
| Pacing.Sender.RefillTokenBucket | creek/tight/src/transport.cpp:1114-1125 | tokens grow with the time passed up to the cap; a clock that does not advance changes nothing |
| Pacing.Sender.ServeQueue | creek/tight/src/transport.cpp:2065-2108 | packets are taken until the queue is empty or one cannot be paid for |
| Pacing.Sender.ServeAudio | creek/tight/src/transport.cpp:2049-2064 | audio goes out in order and without tokens, but for emptied channels and packets without an address |
| Pacing.Sender.Heartbeat | creek/tight/src/transport.cpp:2033-2127 | one heartbeat: refill, reset, audio, the queue with the bandwidth read again for every packet, exhaustion and recovery, with its notices |
| Pacing.ServedSpends | creek/tight/src/transport.cpp:2078-2100 | tokens spent are bytes sent, and no video leaves during the drain |
| Pacing.ServedDebt | creek/tight/src/transport.cpp:2078-2091 | the debt stays within the largest loan in force while the queue is served |
| Pacing.EveryPacketsFate | creek/tight/src/transport.cpp:2067-2108 | the queue is left early exactly when the tokens left by the packets before it do not pay for some packet; the first such packet is lost, those before it are sent unless skipped, those behind it stay |
| Pacing.UnpaidFileLost | creek/tight/src/transport.cpp:2093-2106 | a file or data packet that finds too few tokens is lost, and what is behind it stays |
| Pacing.FilePacketLost | creek/tight/src/transport.cpp:2093-2106 | for one: a packet of a thousand bytes on channel 2 and an empty bucket |
| Pacing.RateBound | creek/tight/src/transport.cpp:1079-1125 | over any heartbeats with bandwidth at most B the bytes sent are at most cap + loan + B times the time + one loan per reset |
| Pacing.IdleFills | creek/tight/src/transport.cpp:1079-1125 | over any heartbeats that send nothing the bucket holds what it held and the bandwidth times the time, however often it was looked at, up to the larger of four packets and twenty milliseconds |
| Pacing.LoneVideoIff | creek/tight/src/transport.cpp:1087-1090 | a lone video packet is sent exactly when the tokens and the bandwidth times the loan seconds pay for it |
| Pacing.DrainSendsNoVideo | creek/tight/src/transport.cpp:2075 | while the loan is drained no packet of channel 0 is sent |
| Pacing.NoticesTakeTurns | creek/tight/src/transport.cpp:2109-2126 | on every run exhausted and cleared notices take turns, resets apart |
| Pacing.ExhaustedApart | creek/tight/src/transport.cpp:2116-2119 | two exhausted notices always have a cleared one or a reset between them |
| Bandwidth.Estimator.constructor | creek/tight/src/bandwidth.cpp:11-15 | the estimate and its ceiling start at the configured value, at least 12500 |
| Bandwidth.Estimator.Hear | creek/tight/src/bandwidth.cpp:30-176 | the state after a report: signals, cut by strength, frozen window, two-step recovery |
| Bandwidth.Estimator.TimeOut | creek/tight/src/bandwidth.cpp:198-211 | the state after a report timeout |
| Bandwidth.Estimator.Calibrate | creek/tight/src/bandwidth.cpp:238-250 | the first measurement caps the estimate, without a lower limit |
| Bandwidth.RunBounded | creek/tight/src/bandwidth.cpp:11-250 | on every run the estimate never exceeds the seed, and stays at 12500 or above unless the calibration measured less than 100 kbit/s |
| Bandwidth.LowProbeSinks | creek/tight/src/bandwidth.cpp:247-249 | a first calibration takes it below the minimum exactly when it measures less |
| Bandwidth.EmptyingFreezes | creek/tight/src/bandwidth.cpp:81-87 | inside the emptying window a report moves the smoothed signals and nothing else |
| Bandwidth.RecoveryNeverLowers | creek/tight/src/bandwidth.cpp:123-175 | a report that does not cut never lowers the estimate, and changes it only on a recovery step |
| Bandwidth.CutMoves | creek/tight/src/bandwidth.cpp:88-122 | a cut lowers it exactly above 12500, raises it exactly below, and never takes more than half |
| Bandwidth.HeavierCutsMore | creek/tight/src/bandwidth.cpp:98-114 | heavier congestion cuts at least as much: to a half exactly from 50 percent on, by a tenth exactly below 5 |
| Bandwidth.SteadyDelayCongestsIff | creek/tight/src/bandwidth.cpp:40-71 | a link that only queues, by a steady excess, counts as congested after n reports exactly when the excess times 1 - 0.7^n is above twenty milliseconds |
| Bandwidth.HalvedOnce | creek/tight/src/bandwidth.cpp:198-211 | between two reports, with any measurements between, the first timeout halves the estimate and no other one changes anything |
| Bandwidth.OneCalibration | creek/tight/src/bandwidth.cpp:238-250 | after any events a measurement has an effect exactly when it is the first that is not zero |
| Bandwidth.RoundClimbs | creek/tight/src/bandwidth.cpp:147-175 | three clear reports bring it back to the seed or multiply it by two and a quarter, less rounding |
| Directory.EndpointDirectory.Merge | creek/src/routing.cpp:17-43 | the state after an endpoint was learned, and whether it changed |
| Directory.EndpointDirectory.ApplyRemoval | creek/src/routing.cpp:91-108 | the state after a removal was learned, and whether an entry went |
| Directory.EndpointDirectory.MergeSnapshot | creek/src/routing.cpp:45-57 | a snapshot is its endpoints and then its removals |
| Directory.EndpointDirectory.UpsertLocal | creek/src/routing.cpp:59-78 | the state after a local registration |
| Directory.EndpointDirectory.RemoveLocal | creek/src/routing.cpp:80-89 | the state after a local removal |
| Directory.EndpointDirectory.TakeSnapshot | creek/src/routing.cpp:128-150 | lists every entry and every tombstone it keeps; on a clock that has not run back a tombstone is kept and listed before sixty seconds after the removal, and from then on forgotten |
| Directory.ExpiredIff | creek/src/routing.cpp:138-142 | on a clock that has run back a tombstone is forgotten at once, unless by nearly the whole range of the clock |
| Directory.RunMatches | creek/src/routing.cpp:17-108 | the entry of an id is the newest endpoint above all its removals and its tombstone the highest removal, whatever the order of events |
| Directory.Convergence | creek/src/routing.cpp:17-108 | replicas that receive the same events in any order and with any repetition hold the same entries and tombstone versions |
| Directory.SnapshotMergeIsJoin | creek/src/routing.cpp:45-57 | merging the snapshot of another replica leads to the state of having received both replicas' events |
| Directory.Exchange | creek/src/routing.cpp:45-150 | two directory objects: when all removals of the one were applied less than sixty seconds before, taking a snapshot changes nothing there, and merging it leaves the other as if it had received the events of both |
| Directory.RemovalReachesIff | creek/src/routing.cpp:128-150 | a removal reaches a replica that only registered the endpoint exactly when the snapshot is taken within sixty seconds |
| Directory.StaysAbove | creek/src/routing.cpp:17-108 | no operation leaves an entry at or below its tombstone |
| Directory.LocalRemovalIsRemoval | creek/src/routing.cpp:80-89 | a local removal is the removal of the version held |
| Directory.AcceptedIff | creek/src/routing.cpp:20-43 | after any events an endpoint is taken up exactly when no removal ever heard reaches it and it is newer than every living endpoint of its id ever heard |
| Directory.ReregisteredAcceptedIff | creek/src/routing.cpp:59-78 | a service removed and registered again is accepted elsewhere exactly when its new version is above the removal; registered without a version it never is |
| Directory.UpdateReaches | creek/src/routing.cpp:71-77 | an update of a registered endpoint is accepted by every replica that is not ahead of its origin |
| Directory.RegistrationsCount | creek/src/routing.cpp:71-77 | n registrations of a registered endpoint count its version up by n, whatever versions they come with |
| Balancer.StickyBalancer.Pick | creek/src/routing.cpp:221-302 | ageing, eviction and choice; which of two equally idle entries goes is left open |
| Balancer.PickRecords | creek/src/routing.cpp:274-302 | whatever endpoint a session is given, the first time or again, it is recorded as served by it, at that time |
| Balancer.EveryTargetPicked | creek/src/routing.cpp:238-272 | as many picks without session and shard in a row as there are endpoints reach every one of them |
| Balancer.StickyBalancer.Evict | creek/src/routing.cpp:236-252 | only idle entries go, the longest idle ones and no more than needed; the loop ends |
| Balancer.IdleBounded | creek/src/routing.cpp:224-252 | on every run, picks on an empty list, invalidations and new times to live included, the idle entries never number more than the capacity |
| Balancer.SessionServedAgain | creek/src/routing.cpp:274-302 | a session last served by an endpoint is served by it again before the time to live is over, whatever other sessions did, while it is alive and not invalidated |
| Balancer.PickKeepsEndpoint | creek/src/routing.cpp:274-287 | and each such pick renews the session |
| Balancer.StickyBalancer.Invalidate | creek/src/routing.cpp:304-314 | exactly the entries of the endpoint go |
| Commands.CommandChannel.Handle | creek/tight/src/command.cpp:11-37 | the state after a command and what is handed over |
| Commands.CommandChannel.Drain | creek/tight/src/command.cpp:56-64 | hands over the held run at the cursor |
| Commands.CommandChannel.Expire | creek/tight/src/command.cpp:66-80 | a due gap is passed and the run behind it handed over |
| Commands.RunOrdered | creek/tight/src/command.cpp:11-80 | on every run the numbers handed over strictly rise, each with a payload it came with, and held ones lie beyond the cursor |
| Commands.DeliveredUpToFirstGap | creek/tight/src/command.cpp:20-32 | as long as no gap is passed exactly the unbroken run from the first number seen is handed over |
| Commands.DueExpiryShrinks | creek/tight/src/command.cpp:66-80 | a due expiry hands over the least held command, strictly shrinks what is held and moves the cursor |
| Commands.DueIff | creek/tight/src/command.cpp:70-73 | anything is given up exactly when three round trips have passed, thirty milliseconds while none is known |
| Commands.RunCounted | creek/tight/src/command.cpp:29-30 | on every run the wait is counted from no later than when the gap showed, and from exactly then unless the gap before it was filled |
| Commands.EarlyIff | creek/tight/src/command.cpp:70-79 | a flush may pass a gap before three round-trip times exactly when the wait is counted from before the gap showed, and never unless the gap before it was filled |
| Commands.EarlyExample | creek/tight/src/command.cpp:22-31 | for one: a command given up half a millisecond after it was first missed |
| FileTransfer.FileSender.SendFile | creek/tight/src/transport.cpp:2613-2643 | the manifest and then every chunk in order, until a message is refused; an empty file has one chunk; too long a name is refused at once |
| FileTransfer.ManifestParses | creek/tight/src/transport.cpp:383-398 | a manifest is read back exactly when it counts at most 65536 chunks |
| FileTransfer.PieceParses | creek/tight/src/transport.cpp:409-415 | a chunk message is read back |
| FileTransfer.SizeLimit | creek/tight/src/transport.cpp:397 | so files up to 4026531840 bytes and no larger are taken |
| FileTransfer.FileReceiver.HandleChunk | creek/tight/src/transport.cpp:409-439 | the state after a chunk and the file it completes |
| FileTransfer.FileArrives | creek/tight/src/transport.cpp:383-439 | after its manifest a file is delivered exactly once and whole, at its last distinct chunk, in any order and repetition and between other files |
| FileTransfer.WholeFile | creek/tight/src/transport.cpp:428-437 | the chunks joined are the file, the empty one included |
| BlockingQueue.Queue.TryPush | creek/tight/include/tight/blocking_queue.hpp:51-59 | fails exactly on a closed or full queue, and else appends; a kept node is reused |
| BlockingQueue.Queue.Push | creek/tight/include/tight/blocking_queue.hpp:35-49 | the blocking push once it may go on |
| BlockingQueue.Queue.Poll | creek/tight/include/tight/blocking_queue.hpp:79-83 | gives the oldest item or nothing |
| BlockingQueue.Queue.Take | creek/tight/include/tight/blocking_queue.hpp:61-68 | the blocking take once it may go on: a closed queue is emptied first |
| BlockingQueue.Queue.ObtainNode | creek/tight/include/tight/blocking_queue.hpp:122-131 | takes a kept node off its list, empty and unlinked, or makes one |
| BlockingQueue.Queue.RecycleNode | creek/tight/include/tight/blocking_queue.hpp:135-144 | keeps at most sixteen nodes, emptied |
| BlockingQueue.Queue.LinkTail | creek/tight/include/tight/blocking_queue.hpp:147-155 | links behind the last node; both lists stay chains without a node in common |
| BlockingQueue.Queue.UnlinkHead | creek/tight/include/tight/blocking_queue.hpp:158-167 | unlinks the first node, gives its item and keeps the node |
| BlockingQueue.FifoConserves | creek/tight/include/tight/blocking_queue.hpp:35-83 | over every run items come out in the order accepted, none lost, none twice, never more than the capacity queued |

## Left out

- Sockets, threads, locks, condition variables, sleeps, logging, metrics, remote procedure calls and media.
- Udp proxying, handshakes, path probing, latency histograms and the video-capacity and emptying heuristics.
- The AES block function and SHA-256 with its derivation: encryption of a block is any function; the primality of 2^255-19 and the associativity of the curve's addition.
- Floating-point rounding: the estimator, the bucket and the parity counts are over real numbers, and the binary entropy is an arbitrary value bounded by the caps.
- Wrap-around of 32-bit sequence numbers, command numbers and file ids, and of 64-bit versions: they are unbounded; message ids and 16-bit counts wrap as in the source.
- MessageTransfer.MessageReceiver.HandleFragment: requires that the packet that opens an entry has a data count not above its fragment count; otherwise the source reads its table of fragments beyond the end, which C++ leaves undefined.
- Fragmenter.ParityCountFor: does not model the conversion of the computed count to sixteen bits before the caps, which C++ leaves undefined for counts of 65536 and more, beyond about 54000 data fragments.
- Bytes25519.ToBytes: the masked selection is a conditional here; that the masks select is proved about the 64-bit words beside it.
- X25519.Ladder: the masked exchange is a conditional here; that the masks exchange is proved about the 64-bit words beside it.
- Gcm.Encrypt: the additional data, the nonce and the tag do not overlap the text; plaintext and ciphertext may be one buffer.
- Pacing.Sender.Heartbeat: the refill reads the bandwidth once, and the queues gain packets only between heartbeats; the single-threaded sender of the lite mode, which keeps the packet it cannot pay for, is not modelled.
- Retransmission.Sender.Send: the size noted after the packet was sent is left out, and with it that an entry settled in between comes back empty.
- ReliableRun.NothingWantedIsDropped: which channels retransmit is fixed for the run, and every channel carrying data does; what a mix of channels drops is stated state by state in `DroppedGaps`.
- Directory.Convergence: no tombstone expires during the run (when one does, and what follows, is `Directory.ExpiredIff` and `Directory.RemovalReachesIff`), and equal id, version and time mean equal content; local registrations, which clear tombstones, are not among the events.
- Directory.EndpointDirectory.MergeSnapshot: the source identifier, version and time of a snapshot are carried but never read, and are left out.
- Balancer.StickyBalancer.Pick: the hash of a shard key is an arbitrary function given with the request.
- FileTransfer.FileArrives: the manifest arrives once; a second one starts the file again.
- BlockingQueue.Queue.Take: waiting is a precondition; the timed variant is the same step once its wait has ended.
- Circuit breaking, hop-limited forwarding, timers and the filter pipeline, which would add easy members.
