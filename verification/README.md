# Verification of libmumble's wire formats and sessions

This project models four parts of libmumble in Dafny and proves properties of them.

* **The UDP crypt session** (`Nonce`, `Receiver`, `Channel`, `Packets`, `User`, `EndToEnd`). The sender counts packets
  with a 128-bit nonce and transmits only its low byte; the receiver rebuilds the rest, filters repeats with 256 bytes
  of history and keeps statistics. The abstract receiver is its start counter and the log of accepted counters, as
  unbounded integers; class `User` holds the bytes and 32-bit counters of the program and is proved to follow it.
  `Channel` and `EndToEnd` put a sender and a channel before it.
* **OCB2** (`GaloisField`, `KeyBlock64`, `KeyBlock32`, `Ocb2`, `CryptOCB2`). The block cipher is any function, with an
  inverse where decryption is involved. `Ocb2` is the mode on byte sequences, once recursively and once by block
  index; `CryptOCB2` is the buffer code, in place where the program works in place; the two `KeyBlock` modules are
  the word arithmetic for 64-bit and 32-bit platforms.
* **PacketDataStream** (`IntCode`, `CodeNumbers`, `BigEndian`, `IntTypes`, `Records`, `PacketDataStream`). The
  variable-length integer code on 64-bit vectors and in arithmetic, the casts around it, records written to a bounded
  buffer and read back, and the class whose cursor moves over an array.
* **Connection** (`Tls`, `Signals`, `Framing`, `Turns`, `Connection`). Handshake, reading, writing and cutting packs
  over a transport that answers as it likes, and what the owner of the connection is told. `Turns` says what the
  answers of a call come to; the class is proved to end every call so.

`Bytes` holds byte strings, exclusive or, spans and writes into a buffer.

Run `dafny verify dfyconfig.toml` to check everything. Dafny's automatic induction is switched off throughout: every
induction is written out, and proofs stay quick.

## Assumptions

* A little-endian host: the program swaps bytes unconditionally.
* The cipher object is usable, keys and nonces have 16 bytes, and the library calls for single blocks succeed.
* Output buffers have room for the result, the output of `User::decrypt` is not empty, and the tag given to
  `CryptOCB2::decrypt` has at most 16 bytes. Encryption needs disjoint buffers; decryption may be in place.
* Where several calls of `next()` stand in one expression they are evaluated from left to right.
* A connection's count of timeouts, which no constructor sets, starts at 0.
* What the surroundings of a connection answer is a finite list of turns, arbitrary otherwise; a loop halts when it is
  used up, so that every finite part of every run is covered. The owner's callbacks do not call back into the
  connection.

## Where the code and its documentation part ways

* `CryptOCB2::decrypt` says it compares all bytes of the last block but the last one with the offset; it compares all
  16. The model does what the code does (`Ocb2.GuardedIff`).
* The history of `User` is meant to recognise repeats. Its entries start at 0, so a packet never seen can be refused:
  `Receiver.RefusedIff` says exactly when, `Receiver.FreshPacketCanBeRefused` gives one. `Receiver.StallsIff` says from
  which counters the loss of the first packet makes the receiver refuse every later one.
* So a message is not delivered on its own merits even over a channel that neither loses nor reorders: after an empty
  message, or one the guard refuses, the next can be refused too (`EndToEnd.EmptyMessageBlocksTheNext`,
  `EndToEnd.UnsentMessageBlocksTheNext`). `EndToEnd.InOrderDeliversIff` says exactly which are delivered.
* The number of lost packets can go below zero: `Receiver.LostIsMissing` says by how much,
  `Receiver.LostCanBeNegative` gives a run, `Receiver.LostIsExactIff` when it is right.
* `undersize()` is meant to be 0 when everything fitted, and also is when the shortfall is a multiple of 2^32:
  `Records.UndersizeIsZeroIff` and `Records.UndersizeCanMislead`.
* `User::encrypt` moves the nonce before it finds that the output has room for the header only, or the message is
  empty (`ExampleServer.User.Encrypt`).

## Model

| member | source | states |
|---|---|---|
| `ExampleServer.User.Decrypt` | examples/ExampleServer/User.cpp:76-174 | The method over the real nonce, history and counters keeps the invariant and does exactly what the abstract receiver does: it accepts, with the counter it takes the packet to carry, or changes nothing but the output buffer; a short, out-of-window or repeated packet leaves that too. |
| `ExampleServer.User.DecryptAt` | examples/ExampleServer/User.cpp:147-173 | Once the nonce is rebuilt: refused repeats and failed decryptions roll the nonce back, an accepted packet is logged and its plaintext is what ends up in the buffer. |
| `ExampleServer.User.Accept` | examples/ExampleServer/User.cpp:163-171 | Accepting a counter extends the log by it, with history, statistics and nonce again those of the log: good + lost is the distance travelled, modulo 2^32. |
| `ExampleServer.User.IsRepeat` | examples/ExampleServer/User.cpp:147 | The table lookup off the in-order path decides the filter as it is defined on the log. |
| `ExampleServer.User.Count` | examples/ExampleServer/User.cpp:169-171 | The three 32-bit counters become those of the log with the accepted counter. |
| `ExampleServer.Statistics` | examples/ExampleServer/User.cpp:168-171 | In every state a user can come to, modulo 2^32: good is the number of packets accepted, good + lost the distance travelled, late the number of packets that came after one with a higher counter or from before the start, lost the number of counters missing less that of packets from before the start. |
| `ExampleServer.User.Encrypt` | examples/ExampleServer/User.cpp:176-209 | The sender's nonce goes up by one and the output is the packet of that counter; the early returns, one of which has already moved the nonce, are kept. |
| `ExampleServer.User.constructor` | examples/ExampleServer/User.cpp:21-36 | A new user starts from the counters its two nonces represent with nothing accepted. |
| `ExampleServer.Rebuild` | examples/ExampleServer/User.cpp:94-145 | The branches on the one transmitted byte leave the 16 bytes of the counter the window assigns to it, together with the statistics of that branch, or reject and leave the nonce alone. |
| `ExampleServer.Carry` | examples/ExampleServer/User.cpp:100-102 | The loop that stops early leaves the multi-byte increment. |
| `ExampleServer.Borrow` | examples/ExampleServer/User.cpp:126-129 | The loop that stops early leaves the multi-byte decrement. |
| `Nonce.IncIsSuccessor` | examples/ExampleServer/User.cpp:183-187 | Incrementing n bytes goes from any integer counter to the next one, through any chain of carries. |
| `Nonce.DecIsPredecessor` | examples/ExampleServer/User.cpp:126-129 | Decrementing n bytes goes to the previous counter, through any chain of borrows. |
| `Nonce.SameNonceIff` | examples/ExampleServer/User.cpp:153 | Two counters give the cipher the same 16 bytes exactly when they agree modulo 2^128. |
| `Nonce.NonceByteIs` | examples/ExampleServer/User.cpp:153 | The i-th of these bytes is the digit of the counter worth 256^i. |
| `Receiver.ReconstructionIff` | examples/ExampleServer/User.cpp:94-145 | A counter is rebuilt from its low byte if and only if it is 29 to 1 behind, 1 to 127 ahead, or 128 ahead without a wrap of the low byte. |
| `Receiver.WindowIsUnambiguous` | examples/ExampleServer/User.cpp:94-145 | No two counters in the window share a low byte. |
| `Receiver.RebuiltIff` | examples/ExampleServer/User.cpp:94-145 | The same condition in numbers alone. |
| `Receiver.OwnerIff` | examples/ExampleServer/User.cpp:147-163 | The owner of a slot is the last counter accepted with that low byte, none if there was none. |
| `Receiver.RecentOwnsSlot` | examples/ExampleServer/User.cpp:147-163 | In every reachable state an accepted counter within 29 of the current one still owns its history slot. |
| `Receiver.AcceptedIsNotAdmitted` | examples/ExampleServer/User.cpp:94-163 | In every reachable state an accepted counter is turned away by window or history. |
| `Receiver.AtMostOnce` | examples/ExampleServer/User.cpp:94-171 | In every run no counter is accepted twice. |
| `Receiver.NoncesAreNotReused` | examples/ExampleServer/User.cpp:94-171 | Hence no 16-byte nonce serves two accepted packets until the receiver's counter has gone once around 2^128. |
| `Receiver.RefusedIff` | examples/ExampleServer/User.cpp:147 | Off the in-order path a packet is refused if and only if it agrees modulo 2^16 with the owner of its slot, or the slot was never written and its second nonce byte is 0. |
| `Receiver.RefusedByLogIff` | examples/ExampleServer/User.cpp:147 | The same condition stated by positions in the log alone. |
| `Receiver.FreshPacketCanBeRefused` | examples/ExampleServer/User.cpp:147 | A concrete packet in the window, never seen, that is refused. |
| `Receiver.StallsIff` | examples/ExampleServer/User.cpp:94-151 | A receiver that missed the first packet and has accepted nothing admits none of the later ones, however many, if and only if the second counter is at most 130 modulo 2^16. |
| `Receiver.LostIsMissing` | examples/ExampleServer/User.cpp:115-171 | In every reachable state the loss statistic is the number of counters skipped and not accepted since, less the packets accepted from before the start. |
| `Receiver.LateCountIs` | examples/ExampleServer/User.cpp:114-146 | The late statistic is the number of packets accepted after one with a higher counter or from before the start. |
| `Receiver.LostIsExactIff` | examples/ExampleServer/User.cpp:115-171 | It is exactly the number of missing packets, so not negative, if and only if nothing from before the start was accepted. |
| `Receiver.LostCanBeNegative` | examples/ExampleServer/User.cpp:118 | A concrete run in which it falls below zero. |
| `EndToEnd.ReceiveIff` | examples/ExampleServer/User.cpp:76-174 | Of arbitrary bytes, forged ones included: a message is delivered if and only if the first byte rebuilds to an admitted counter, the rest is the ciphertext the standard defines for that message under that counter, the three bytes before it begin the tag it defines, and the message is neither empty nor ends, padded, in the last offset. |
| `EndToEnd.PacketCarries` | examples/ExampleServer/User.cpp:176-209 | What the sender makes is such a packet for the message with its documented bit flip. |
| `EndToEnd.PacketArrives` | examples/ExampleServer/User.cpp:76-209 | A packet of any message whose counter is in the receiver's window, or that of the last one again, gives the message with its documented bit flip if it passes the cipher and the history lets it pass, and otherwise nothing. |
| `EndToEnd.SessionDelivers` | examples/ExampleServer/User.cpp:76-209 | The same for a packet of the sender anywhere in a run of arbitrary bytes. |
| `EndToEnd.NothingTwice` | examples/ExampleServer/User.cpp:94-171 | Over any run of arbitrary bytes, forged ones included, no two deliveries are taken to be of the same counter. |
| `EndToEnd.DistinctDeliveries` | examples/ExampleServer/User.cpp:94-171 | The same for any receiver that takes nothing window and history do not admit. |
| `EndToEnd.ReceivingIsSound` | examples/ExampleServer/User.cpp:94-151 | The program's receiver is one of these. |
| `Channel.OnceEachIff` | examples/ExampleServer/User.cpp:94-171 | On counters: over arrivals each within the window of the highest before it, all that would pass are accepted where they first arrive and nothing else is, if and only if every first arrival is next in order or news to the history. |
| `Channel.KeepsUp` | examples/ExampleServer/User.cpp:94-171 | While that is so the receiver has accepted exactly the counters that arrived. |
| `Channel.IsFirstIff` | examples/ExampleServer/User.cpp:94-171 | A first arrival is one that would pass and whose counter no passing packet before it carried. |
| `Channel.HighestIs` | examples/ExampleServer/User.cpp:94-171 | The highest counter so far is the largest of the start and of those of the passing packets. |
| `Channel.InOrderIff` | examples/ExampleServer/User.cpp:94-151 | On counters: with arrivals in order and any gaps that stay in the window, one is accepted if and only if it would pass and either its predecessor was accepted or it is news to the history. |
| `EndToEnd.CarriesFaithfully` | examples/ExampleServer/User.cpp:76-209 | The program's receiver does on the bytes of the sender's packets what the receiver on counters does. |
| `EndToEnd.RunIsTaken` | examples/ExampleServer/User.cpp:94-171 | So its log after any number of them is the same as long as none is further off than its low byte can tell. |
| `EndToEnd.DeliversOnceIff` | examples/ExampleServer/User.cpp:76-209 | Over a channel that loses, repeats and reorders within the window of the highest counter so far, each message that passes the cipher is delivered, flipped as documented, at its first arrival and only there, if and only if every first arrival is next in order or news to the history. |
| `EndToEnd.StandsAtHighest` | examples/ExampleServer/User.cpp:94-171 | And then the receiver's counter is the highest that arrived and its log what arrived. |
| `EndToEnd.InOrderDeliversIff` | examples/ExampleServer/User.cpp:76-209 | In order, with counters missing and messages that do not pass: message k is delivered if and only if it passes and its predecessor was accepted or it is news to the history, while no more counters in a row go unaccepted than the window spans; the receiver stands at the last one accepted. |
| `EndToEnd.EmptyMessageBlocksTheNext` | examples/ExampleServer/User.cpp:94-163 | A message that passes is refused, with nothing lost or reordered, after one that does not. |
| `EndToEnd.UnsentMessageBlocksTheNext` | examples/ExampleServer/User.cpp:176-203 | The same after an empty message, which the sender counts and sends no packet for. |
| `EndToEnd.ConsecutiveDelivers` | examples/ExampleServer/User.cpp:94-105 | With nothing lost or reordered and every message passing, every message is delivered, the receiver's counter equals the sender's and late and lost stay 0. |
| `CryptOCB2.Encrypt` | src/CryptOCB2.cpp:206-307 | The buffer loops write the mode's ciphertext of the flipped message, and its tag, and nothing around them; wrong tag sizes and an empty output span take the early returns. |
| `CryptOCB2.Decrypt` | src/CryptOCB2.cpp:121-204 | The loops write the mode's plaintext, also when input and output are the same storage, and return its length or 0 as the mode accepts or refuses; a refusal by the guard leaves the last block unwritten. |
| `CryptOCB2.NeedsFlip` | src/CryptOCB2.cpp:231-247 | The running or of 15 bytes decides whether the block is to be changed. |
| `CryptOCB2.EncryptBlock` | src/CryptOCB2.cpp:249-267 | One iteration: the offset is doubled, the block encrypted between two exclusive-ors and the checksum extended by the block as encrypted. |
| `CryptOCB2.DecryptBlock` | src/CryptOCB2.cpp:141-151 | One iteration of decryption, whose checksum uses the plaintext just written. |
| `CryptOCB2.EncryptLast` | src/CryptOCB2.cpp:273-304 | The last block, partial or empty, and the tag if one is wanted. |
| `CryptOCB2.DecryptLast` | src/CryptOCB2.cpp:157-173 | The last block, padded with zeros, decrypted and folded into the checksum, and the offset doubled. |
| `Ocb2.OpensLast` | src/CryptOCB2.cpp:157-201 | What decryption does with the last block ends the whole result as the mode defines it. |
| `Ocb2.SealsLast` | src/CryptOCB2.cpp:273-304 | Likewise for encryption. |
| `CryptOCB2.TagMatches` | src/CryptOCB2.cpp:187-201 | An empty tag passes; any other must be a prefix of the one computed. |
| `Ocb2.RoundTrip` | src/CryptOCB2.cpp:121-307 | For every length, nonce and invertible cipher, decrypting an encryption with any prefix of its tag returns the message, or refuses exactly when its padded last block equals the last offset. |
| `Ocb2.AcceptedIffSealed` | src/CryptOCB2.cpp:121-204 | With a whole tag, decryption returns m if and only if ciphertext and tag are the encryption of m without the flip and m is not one of those. |
| `Ocb2.SealIffOcb2` | src/CryptOCB2.cpp:206-307 | Recursive encryption meets the definition of OCB 2.0 by block index (clause 6 of ISO/IEC 19772:2009) and nothing else does. |
| `Ocb2.AcceptedIffOcb2` | src/CryptOCB2.cpp:140-203 | Acceptance characterised by that definition alone. |
| `Ocb2.AcceptedIffTagged` | src/CryptOCB2.cpp:121-204 | With a tag of any length, decryption returns m if and only if the ciphertext is the one the standard defines for m, the tag the beginning of the one it defines, and the padded last block of m is not the last offset. |
| `Ocb2.OpenIffOcb2` | src/CryptOCB2.cpp:140-173 | What decryption computes from any bytes is the one message and tag of which they are the encryption, and its guard compares the padded last block with the last offset. |
| `Ocb2.GuardedIff` | src/CryptOCB2.cpp:175-185 | The guard refuses a message if and only if its padded last block equals the last offset. |
| `Ocb2.OffsetStaysNonZero` | src/CryptOCB2.cpp:157 | A non-zero start offset is never doubled to zero. |
| `Ocb2.FlipIs` | src/CryptOCB2.cpp:227-267 | The countermeasure changes one bit, the lowest of the block before the last, exactly when the first 15 bytes of that block are zero, for messages of any length. |
| `Ocb2.FlipBreaksPattern` | src/CryptOCB2.cpp:227-267 | What is encrypted never ends in that pattern, and flipping is idempotent. |
| `Ocb2.LengthBlockIs` | src/CryptOCB2.cpp:160 | The block that encodes the length of the last block is its number of bits as a 128-bit big-endian number. |
| `Ocb2.FlipIff` | src/CryptOCB2.cpp:227-267 | In bytes of the message: its first byte of the block before the last has its lowest bit changed if and only if that byte and the 14 after it are zero. |
| `Ocb2.NoLengthBlock` | src/CryptOCB2.cpp:209-230 | So the block before the last of what is encrypted is never one that encodes a length, which the attack it counters needs. |
| `GaloisField.DoubleIsTimesX` | src/CryptOCB2.cpp:372-380 | Doubling, read as coefficients, is multiplication by x reduced by x^128 + x^7 + x^2 + x + 1. |
| `GaloisField.TripleIsTimesXPlus1` | src/CryptOCB2.cpp:382-390 | Tripling is multiplication by x + 1. |
| `GaloisField.DoubleIsLinear` | src/CryptOCB2.cpp:372-380 | Doubling distributes over exclusive or. |
| `GaloisField.TripleIsLinear` | src/CryptOCB2.cpp:382-390 | So does tripling. |
| `GaloisField.HalfDouble` | src/CryptOCB2.cpp:372-380 | Doubling can be undone. |
| `GaloisField.DoubleHalf` | src/CryptOCB2.cpp:372-380 | And every block is the double of one. |
| `GaloisField.DoubleIsInjective` | src/CryptOCB2.cpp:372-380 | Distinct blocks have distinct doubles. |
| `KeyBlock64.S2` | src/CryptOCB2.cpp:372-380 | With two 64-bit words in place the result is the double of the block. |
| `KeyBlock64.S3` | src/CryptOCB2.cpp:382-390 | And the triple. |
| `KeyBlock64.XorBlock` | src/CryptOCB2.cpp:366-370 | Word by word into the destination, which may be an operand, gives the exclusive or of the bytes. |
| `KeyBlock32.S2` | src/CryptOCB2.hpp:31-34 | With four 32-bit words the same bytes come out. |
| `KeyBlock32.S3` | src/CryptOCB2.hpp:31-34 | Likewise for the triple. |
| `KeyBlock32.XorBlock` | src/CryptOCB2.hpp:31-34 | Likewise for exclusive or. |
| `IntCode.RoundTrip` | include/mumble/PacketDataStream.hpp:43-135 | For every 64-bit value and whatever follows, decoding an encoding returns the value, leaves what follows and succeeds. |
| `IntCode.DecodeMore` | include/mumble/PacketDataStream.hpp:99-135 | A value read in full does not depend on what follows it. |
| `IntCode.PrefixFree` | include/mumble/PacketDataStream.hpp:43-97 | No encoding is a proper prefix of another, and no two values share one. |
| `IntCode.TruncatedFails` | include/mumble/PacketDataStream.hpp:255-265 | Every proper prefix of an encoding is refused. |
| `IntCode.EncoderIsShortest` | include/mumble/PacketDataStream.hpp:46-118 | Any bytes that decode to a value, chains of complement prefixes included, are at least as many as the encoder uses. |
| `IntCode.ComplementSize` | include/mumble/PacketDataStream.hpp:46-56 | The complement of a value takes at most one byte more, which is what makes chains useless. |
| `IntCode.ComplementChain` | include/mumble/PacketDataStream.hpp:115-118 | k complement prefixes give the k-fold complement of what follows. |
| `IntCode.ComplementsIs` | include/mumble/PacketDataStream.hpp:115-118 | That is the value or its complement as k is even or odd. |
| `IntCode.DecodeAdvances` | include/mumble/PacketDataStream.hpp:99-135 | On any bytes decoding ends, stays inside them, gets ahead unless there are none, and fails only at the end. |
| `CodeNumbers.EncodeIs` | include/mumble/PacketDataStream.hpp:43-97 | The bytes of every value in arithmetic: a prefix by range and the number in network order, where a number 2^64 - 1 - k with k below 2^32 takes one byte if k is below 4 and otherwise a prefix and the bytes of k. |
| `CodeNumbers.DecodeIs` | include/mumble/PacketDataStream.hpp:99-135 | What the decoder makes of any first byte and what follows, in arithmetic, failures included. |
| `CodeNumbers.UnsignedStep` | include/mumble/PacketDataStream.hpp:121-134 | The number of a 64-bit pattern is 256 times that of the pattern shifted by a byte, plus its low byte. |
| `CodeNumbers.UnsignedComplement` | include/mumble/PacketDataStream.hpp:46-56 | Its complement is 2^64 - 1 less that number. |
| `IntTypes.UnsignedOfWiden` | include/mumble/PacketDataStream.hpp:138 | The cast to uint64_t is the value modulo 2^64. |
| `IntTypes.WidenOfUnsigned` | include/mumble/PacketDataStream.hpp:138 | Every 64-bit pattern is the cast of the number it represents. |
| `IntTypes.TypeRoundTrip` | include/mumble/PacketDataStream.hpp:137-151 | For each of the six types, casting to 64 bits and back returns a value if and only if it belongs to the type, so sign extension and truncation cancel. |
| `IntTypes.HasIff` | include/mumble/PacketDataStream.hpp:137-151 | Which integers a type of n bits has, signed or not. |
| `IntTypes.NarrowIff` | include/mumble/PacketDataStream.hpp:139-144 | The cast from 64 bits gives the integer of the type that is congruent modulo 2^n, and no other. |
| `Records.EncodingOfNumber` | include/mumble/PacketDataStream.hpp:137-138 | A narrower integer is written as its value modulo 2^64 is, so that -1 takes one byte. |
| `Records.EncodingOfFlag` | include/mumble/PacketDataStream.hpp:153-156 | A bool is written as one byte, 1 or 0. |
| `Records.EncodingOfBlock` | include/mumble/PacketDataStream.hpp:212-216 | A buffer is written as its size and its bytes. |
| `Records.EncodingOfText` | include/mumble/PacketDataStream.hpp:233-237 | A string is written as its length modulo 2^32 and its bytes. |
| `Records.ReadNumberIff` | include/mumble/PacketDataStream.hpp:139-144 | Any bytes read as an integer of a type if and only if it is the one congruent to what the decoder makes of them. |
| `Records.ReadFlagIs` | include/mumble/PacketDataStream.hpp:158-163 | They read as true if and only if the low 32 bits of that are not zero. |
| `Records.ReadBytesIs` | include/mumble/PacketDataStream.hpp:218-252 | They read as the bytes behind, as many as the low 32 bits of that say or all there are, with success if there are enough. |
| `Records.WriteFits` | include/mumble/PacketDataStream.hpp:212-299 | With room enough an item's encoding is appended, the rest of the buffer is as it was, and flag and count of missing bytes keep their values. |
| `Records.OverflowIs` | include/mumble/PacketDataStream.hpp:279-299 | What ends up in the buffer when an item does not fit: those before it, as many bytes of its header as fit, zeros, whatever is written later. |
| `Records.WriterRefines` | include/mumble/PacketDataStream.hpp:212-299 | After any sequence of writes what is in the buffer and what did not fit add up to the encodings; the flag holds if and only if they fit, and then they are what was written and the rest of the buffer is as it was. |
| `Records.WhatFitsStays` | include/mumble/PacketDataStream.hpp:212-299 | Items that did fit stay as they were written, whatever is written later and whether that fits or not. |
| `Records.UndersizeIs` | include/mumble/PacketDataStream.hpp:279-299 | undersize() is the number of bytes that did not fit, modulo 2^32. |
| `Records.UndersizeIsZeroIff` | include/mumble/PacketDataStream.hpp:279-299 | undersize() is 0 exactly when everything fitted or a multiple of 2^32 bytes did not. |
| `Records.UndersizeCanMislead` | include/mumble/PacketDataStream.hpp:30 | A concrete overflow that undersize() does not show. |
| `Records.ItemRoundTripIff` | include/mumble/PacketDataStream.hpp:137-252 | An integer, flag, buffer or string reads back as itself, with what follows left, if and only if it belongs to its type or is shorter than 2^32. |
| `Records.RecordRoundTripIff` | include/mumble/PacketDataStream.hpp:137-252 | The same for lists of items. |
| `Records.StreamRoundTripIff` | include/mumble/PacketDataStream.hpp:137-299 | Written to a buffer with room enough and read back from what was written, with nothing left over. |
| `PacketDataStream.PacketDataStream.constructor` | include/mumble/PacketDataStream.hpp:17 | A fresh stream stands at the start of its buffer with the flag set. |
| `PacketDataStream.PacketDataStream.PutWide` | include/mumble/PacketDataStream.hpp:43-97 | The appends, in place, put the encoding of the value as far as it fits, count the bytes that do not, and leave the storage around the buffer alone. |
| `PacketDataStream.PacketDataStream.AppendByte` | include/mumble/PacketDataStream.hpp:279-287 | One byte is stored and passed, or counted as missing. |
| `PacketDataStream.PacketDataStream.AppendBlock` | include/mumble/PacketDataStream.hpp:289-299 | All of a buffer, or zeros to the end and its shortfall counted modulo 2^32. |
| `PacketDataStream.PacketDataStream.PutNumber` | include/mumble/PacketDataStream.hpp:138 | Writing a narrower integer is writing that item. |
| `PacketDataStream.PacketDataStream.PutFlag` | include/mumble/PacketDataStream.hpp:153-156 | Writing a bool is writing that item. |
| `PacketDataStream.PacketDataStream.PutBuffer` | include/mumble/PacketDataStream.hpp:212-216 | Header and payload of a buffer. |
| `PacketDataStream.PacketDataStream.PutText` | include/mumble/PacketDataStream.hpp:233-237 | Header and payload of a string, whose length is cut to 32 bits. |
| `PacketDataStream.PacketDataStream.GetWide` | include/mumble/PacketDataStream.hpp:99-135 | The recursive reader moves the cursor and clears the flag as the decoder on byte sequences says; missing bytes read as 0. |
| `PacketDataStream.PacketDataStream.NextByte` | include/mumble/PacketDataStream.hpp:255-265 | The next byte, or 0 and the flag cleared at the end. |
| `PacketDataStream.PacketDataStream.GetNumber` | include/mumble/PacketDataStream.hpp:139-144 | The value read, in the range of the type. |
| `PacketDataStream.PacketDataStream.GetFlag` | include/mumble/PacketDataStream.hpp:158-163 | The flag read. |
| `PacketDataStream.PacketDataStream.GetBuffer` | include/mumble/PacketDataStream.hpp:218-231 | The buffer read, cut to what there is with the flag cleared. |
| `PacketDataStream.PacketDataStream.GetText` | include/mumble/PacketDataStream.hpp:239-252 | The string read, likewise. |
| `PacketDataStream.PacketDataStream.TakeUpTo` | include/mumble/PacketDataStream.hpp:222-228 | As many bytes as asked for, or all there are with the flag cleared. |
| `PacketDataStream.PacketDataStream.Skip` | include/mumble/PacketDataStream.hpp:35-41 | Bytes are passed over, or none and the flag cleared. |
| `PacketDataStream.ReadsToMeans` | include/mumble/PacketDataStream.hpp:99-252 | What every read of the class leaves: the cursor where the read of the item from the bytes ends, and the flag cleared if it fails. |
| `PacketDataStream.PacketDataStream.Data` | include/mumble/PacketDataStream.hpp:24 | What has been written or read so far. |
| `PacketDataStream.PacketDataStream.Undersize` | include/mumble/PacketDataStream.hpp:30 | The overflow counter is the number of missing bytes modulo 2^32. |
| `Connection.Connection.Connect` | src/Connection.cpp:37-61 | A descriptor not yet watched is watched and the handshake run to its end, and opened is told if and only if it succeeds; otherwise nothing is told and no turn used. |
| `Connection.Connection.Process` | src/Connection.cpp:97-130 | The packs told are what the rounds of the call come to, one after another while a header is pending; they are frames, on success exactly the bytes taken from the stream, otherwise a beginning of them; the one end told, if any, is that of the code returned. |
| `Connection.Connection.ReadPack` | src/Connection.cpp:103-124 | One pack: a header, refused if it announces more than 65535 bytes, and its body, for which nothing is read if it announces none. |
| `Connection.Connection.Read` | src/Connection.cpp:152-165 | The span is filled with the next bytes of the stream as far as the turns move them; the call ends with the first turn not to be tried again, with its code, the bytes moved and the timeouts counted until then; success means the span is full. |
| `Connection.Connection.Write` | src/Connection.cpp:132-136 | Likewise a prefix of the data is sent, all of it on success. |
| `Connection.Connection.WriteData` | src/Connection.cpp:167-180 | The loop behind it. |
| `Connection.Connection.HandleCode` | src/Connection.cpp:182-212 | The code that results, the count of timeouts, and the end of the connection told at most once even where a wait has already told it. |
| `Connection.Connection.HandleState` | src/Connection.cpp:225-249 | Disconnected is told as closed, an error as failed, once; nothing else is told. |
| `Connection.Connection.HandleWait` | src/Connection.cpp:214-223 | A wait that reports nothing is a timeout. |
| `Connection.Connection.Report` | src/Connection.cpp:225-249 | The same for a state reported from outside, which keeps the lifecycle in order. |
| `Connection.Connection.Watch` | src/Monitor.cpp:65-102 | A descriptor is added to both monitors once. |
| `Connection.Connection.TlsRead` | src/TLS.cpp:151-160 | As many bytes are read as the library is ready to move, as the span holds and as there are, and the answer depends on whether any were and any are left. |
| `Connection.Connection.TlsWrite` | src/TLS.cpp:162-171 | Likewise for writing. |
| `Turns.SuccessIff` | src/TLS.cpp:173-200 | A call is done if and only if the library is content, something was moved and nothing remains. |
| `Turns.RetryIff` | src/Connection.cpp:182-249 | It goes on if and only if a transfer was partial, a system call interrupted, a wait reports activity and nothing worse, or a wait for nothing leaves the count of timeouts below the limit. |
| `Turns.TimeoutIff` | src/Connection.cpp:186-192 | It gives up with a timeout if and only if a wait for nothing brings the count to the limit. |
| `Turns.BusyIff` | src/Connection.cpp:186-187 | Busy is told if and only if the library waits for the socket and the call may not. |
| `Turns.DisconnectIff` | src/Connection.cpp:182-249 | The peer is gone if and only if it said so, nothing was moved by a content library or a broken system call, or a wait reports it. |
| `Turns.FailureIff` | src/Connection.cpp:182-249 | Failure is the TLS protocol's, a system call's after something was moved, or what a wait reports of a peer not gone. |
| `Turns.UnknownIff` | src/Connection.cpp:182-249 | Unknown is another error of the library or a wait that reports no flag at all. |
| `Turns.EndMeans` | src/Connection.cpp:152-180 | No call ends to be tried again; it is busy only where it may not wait, cancelled only where it was to halt or the answers are used up, and successful only in a turn in which the library is content and all bytes are moved. |
| `Turns.EarlierTurns` | src/Connection.cpp:152-180 | Every turn of a call but the last is one after which it was to be tried again. |
| `Turns.PassingSucceeds` | src/Connection.cpp:152-180 | A transfer of which all bytes are there, or may be sent, succeeds however it is cut up and interrupted, once as many turns have moved something as it has bytes. |
| `Turns.GreetingSucceeds` | src/Connection.cpp:46-60 | A handshake succeeds in the first turn in which the library is content, however often it was to be tried again. |
| `Turns.FrameIsTaken` | src/Connection.cpp:97-128 | A frame that stands in the stream is taken whole by one round, however its bytes come in. |
| `Turns.FramesAreProcessed` | src/Connection.cpp:97-130 | Where frames have arrived process delivers all of them, or the first of them and stops, successfully, when less than a header is pending; no way in which their bytes come in makes it fail before. |
| `Turns.CountIs` | src/Connection.cpp:189-201 | The count of timeouts goes up by the number of waits for nothing, modulo 2^32, over any call, and is back at 0 after a success or a disconnection. |
| `Signals.EndedIs` | src/Connection.cpp:194-211 | The end of a connection is told once, as closed if the peer is gone and as failed with the code otherwise; success, cancelling, retry and busy do not end it. |
| `Signals.DeliveriesAt` | src/Connection.cpp:126 | Packs are told one by one in their order. |
| `Signals.OrderlyMeans` | src/Connection.cpp:37-61 | In the traces every operation keeps, of two entries other than packs the first is opened, the second closed or failed, and there is no third. |
| `Signals.FirstIsOpened` | src/Connection.cpp:182-249 | closed or failed never comes without opened before it. |
| `Signals.OpenIff` | src/Connection.cpp:37-61 | A connection is open exactly when it has been told opened and neither closed nor failed. |
| `Framing.FramingIsUnique` | src/Connection.cpp:97-130 | Of two ways to cut the beginning of a stream into frames one continues the other, so delivery does not depend on fragmentation. |
| `Framing.SentIsDelivered` | src/Connection.cpp:97-180 | Packs sent one after the other and cut out of what arrives are the first of those sent, all of them once all bytes are there. |
| `Connection.WrittenIsDelivered` | src/Connection.cpp:97-180 | So for any two connections, whatever their runs: what one has told of packs is the beginning of what was given to write on the other, all of it once all bytes are taken in. |
| `BigEndian.NumberOfBytes` | src/Pack.cpp:58-59 | A number written in network order reads back modulo 256 to the number of bytes. |
| `BigEndian.BytesOfNumber` | src/Pack.cpp:58-59 | And bytes read in network order are written back as they were. |
| `Framing.PackIsFrameIff` | src/Pack.cpp:45-61 | A pack with its header in network order passes the receiver's check if and only if its body has at most 65535 bytes. |
| `Framing.PackIs` | src/Pack.cpp:45-61 | Its bytes: the type and the size of the body, most significant byte first, and then the body. |
| `Framing.BodySizeIs` | src/Connection.cpp:109 | The size a header announces, read in that order. |

## Left out

* AES itself, key schedules, OpenSSL contexts and random generation: only a function and its inverse are needed.
* Failures of the cipher library in the middle of a message: the model's cipher always answers.
* The message conversions of `Pack.cpp`: only header and body matter here.
* Base64, certificates, keys, Opus, sockets and addresses: thin wrappers over other libraries.
* The system calls of `Monitor`, the threads of `Peer`, and concurrent calls on one connection: a wait is an arbitrary answer, and calls come one after the other.
* `UserManager` and `Node`: small map bookkeeping, which would add easy members only.
* The float and double operators, `rewind` and `truncate` of `PacketDataStream`: representation and trivial cursor moves.
* Packs of a run of `process` that stops in the middle of one: the bytes read so far are gone with the local buffer, so framing across calls is stated while every call succeeds (`intact` in `Connection.Connection.Valid`).
* The flag of `SocketTLS` that decides whether to shut down TLS on destruction: it is never told to the owner.
* The deadline given to a wait: only whether the wait reported something matters.
- PacketDataStream.PacketDataStream.AppendBlock: takes the bytes of the other buffer as a value, so it does not capture a source that overlaps the stream's own buffer.
- PacketDataStream.PacketDataStream.GetWide: the recursion is through a second method for what follows the first byte, and multi-byte values are put together a byte at a time where the source shifts each byte to its place.
- CryptOCB2.Decrypt: takes the tag as a value, so it does not capture a tag inside the output buffer.
- Receiver.NoncesAreNotReused: ends when the receiver has gone 2^128 counters, less the window, past its start, because the 128-bit nonce then comes round.
