# A Dafny model of the OpenBTS SMS queue

This project models the parts of smqueue and its common libraries in which bits, locks, pointers
and parsers are handled, and proves what they promise, for inputs of any length, any number of
threads and any run.

**The bit-level codec stack.** `Fields` has integers as bit fields in both bit orders.
`BitVectors` has the class BitVector, a window on a shared buffer, with its field, reversal and
packing loops. `Gf2`, `Crc` and `Generators` treat the CRC register as division of polynomials over
GF(2). `SmsText` packs text in the GSM 7-bit alphabet; `SmsLayers` and `SmsFrames` write and parse
called party numbers, RP-DATA and CP-DATA, the first as functions on bits, the second as classes that
move a position over a frame. `BaseN` is base64 and hexadecimal text, and `SipBody` an RP-DATA message
sent as such text in the body of a SIP message. `Puncture` leaves out and puts
back positions of a vector. `ValidityPeriod` is the relative validity period octet.

**Threads and ownership.** `LockProtocol` (ScopedLockMultiple), `Interthread` (InterthreadQueue),
`Reporting` (batched counters) and `Pipeline` (reader and acker) are state machines: one step is one
lock operation or one critical section, and runs are all interleavings of the steps of any number of
threads. `PointerFifo` and `RefCnt` are classes over linked nodes and counted objects, with ghost
state that says what the pointers spell.

**State that must agree with something simpler.** `ConfigCache` compares a cache with its database
over all runs. `Toml` is the tree that the TOML parser grows through a cursor, and `TomlLines` says by
the tree's paths which lines it accepts and what each one changes.

Methods with loops are proved against specification functions in the same module, and the lemmas are
about those functions. Where a promise does not hold of the code in general, the code is modelled as
it is, a lemma exhibits a failing run or input, and the promise is proved to hold exactly under a
condition the caller can check: owner masks 0, 1, 3 and 7; no null pointers in a queue; one table per
purge clock; one consumer per queue; a counter created before its first increment; an encoding's name in small letters; a polynomial with
constant term 1; text in the alphabet and short enough for its length octet; no zero octet in a packet
that is sent as it is; whole octets in a CP-DATA message; a count with room in its short; no second
digit behind twenty.

Reading a field past the end of a vector and storing a digit behind its array are checked by nothing
in the code, and undefined in C++. The model stops in front of such an access with an outcome of its
own and says nothing of what comes after; lemmas say exactly for which frames that happens.

Where code and comments differ, the code is followed. In `_lockAll` the comments announce the orders
"0,1,2", "1,0,2" and "2,1,0", but the third attempt tries 0 before 1. A comment on reopening a table
in the TOML parser speaks of any values, but the check looks at scalars only, so a table that holds
nothing but arrays can be reopened. `stringCaseInsensitive` announces a comparison without regard to
case, but its operator takes a string by a reference that is not const, to which a literal does not bind;
the encodings' names are compared character by character, so that "HEX" is unknown.

## Model

| member | source | states |
|---|---|---|
| LockProtocol.SafeMasks | CommonLibs/Threads.cpp:208-265 | For sets of owner masks below 8: no reachable state of any number of threads, steps interleaved between single lock, trylock and unlock calls, has a cycle of threads waiting for each other, if and only if the masks used are among 0, 1, 3 and 7. |
| LockProtocol.NoDeadlock | CommonLibs/Threads.cpp:245-265 | With masks 0, 1, 3 and 7 no reachable state has a wait-for cycle of any length. |
| LockProtocol.BlockedHoldsNothing | CommonLibs/Threads.cpp:245-265 | With those masks a thread that is blocked in a lock call, on its first mutex or inside the object, holds no mutex at all. |
| LockProtocol.HolderIsNotBlocked | CommonLibs/Threads.cpp:245-265 | With those masks the holder of a mutex that somebody waits for is itself not waiting. |
| LockProtocol.BlockedOnlyByHolder | CommonLibs/Threads.cpp:213-265 | A thread inside a lock call, the attempts or the restoring loop can take its next step if and only if it waits for no other thread. |
| LockProtocol.ScopedLifetime | CommonLibs/Threads.h:195-222 | Whatever the other threads do: when the constructor has returned, the thread holds all three mutexes, each once; when the destructor has returned, it holds exactly those it held before the call, each once. |
| LockProtocol.UncontendedAttempt | CommonLibs/Threads.cpp:245-265 | With good masks: an attempt of any round, none of whose three mutexes another thread holds, gets all three in three steps that never wait, and the constructor returns; what other threads hold stays. |
| LockProtocol.TryTakesFree | CommonLibs/Threads.cpp:218-222 | A trylock of an attempt never waits; behind it the thread holds the mutex, the one whose turn it is in the order of that round, if and only if no other thread held it, and then the attempt goes on, else it gives up. |
| LockProtocol.FirstTaken | CommonLibs/Threads.cpp:213-217 | The lock that begins an attempt can be taken if and only if no other thread holds the mutex whose round it is, and then the thread holds it. |
| LockProtocol.GivesUp | CommonLibs/Threads.cpp:252-265 | An attempt that gives up has in two steps, without waiting, nothing any more, and is at the first mutex of the next round. |
| LockProtocol.DestructorReturns | CommonLibs/Threads.cpp:236-243 | The destructor returns after one step and four more, without waiting, with exactly the mutexes of the owner mask, each once. |
| LockProtocol.PlainLockTakes | CommonLibs/Threads.cpp:159-181 | A single lock waits exactly while another thread holds the mutex, and then takes it. |
| LockProtocol.PlainTryTakes | CommonLibs/Threads.cpp:110-121 | A trylock takes the mutex, once more if the thread has it, unless another thread holds it. |
| LockProtocol.PlainUnlockFrees | CommonLibs/Threads.cpp:183-189 | An unlock takes one lock off, and the mutex is free after the last. |
| LockProtocol.StepKeepsInv | CommonLibs/Threads.cpp:208-265 | Every step of any thread keeps the invariant that state[] is exactly what the thread holds and fits the point of the attempt it is at. |
| LockProtocol.Mask5Blocks | CommonLibs/Threads.cpp:249-262 | With mask 5 two threads reach a state in which each waits for the other. |
| LockProtocol.Mask2Blocks | CommonLibs/Threads.cpp:249-250 | With mask 2 two threads reach a state in which each waits for the other. |
| LockProtocol.Mask4Blocks | CommonLibs/Threads.cpp:249-250 | With mask 4 two threads reach a state in which each waits for the other. |
| LockProtocol.Mask6Blocks | CommonLibs/Threads.cpp:249-250 | With mask 6 two threads reach a state in which each waits for the other. |
| Interthread.NoLostWakeups | CommonLibs/Interthread.h:246-321 | Over all interleavings of readers, timed readers, non-blocking readers and writers that signal after unlocking, with timeouts and spurious wake-ups: whenever a reader is asleep, the queued items number at most the pending signals plus the woken readers, if and only if no null pointer is ever written. |
| Interthread.NullLosesWakeup | CommonLibs/Interthread.h:246-255 | If null pointers may be written, a run reaches a sleeping reader with an item queued and nobody on the way to it. |
| Interthread.SomeoneIsOnTheWay | CommonLibs/Interthread.h:246-311 | Without null pointers, while a reader sleeps and something is queued, a signal is pending or a reader is woken, and some thread that is not idle or asleep can move. |
| Interthread.EachItemOnce | CommonLibs/Interthread.h:246-321 | In every reachable state the non-null items written are, as a multiset, those returned plus those queued, and a blocking read has never returned null. |
| Interthread.FirstInFirstOut | CommonLibs/Interthread.h:246-311 | Without write_front the non-null items are returned in the order they were written, and the rest is queued in that order. |
| Interthread.StepKeepsInv | CommonLibs/Interthread.h:246-321 | Every step of any thread keeps mutual exclusion, conservation of items, their order and the wake-up bound. |
| Interthread.ReadGives | CommonLibs/Interthread.h:246-290 | A read that holds the mutex returns the first item if it is not null; on an empty queue it sleeps, or returns null when it does not block or its time is up; a null at the front is taken off. |
| Interthread.WritePuts | CommonLibs/Interthread.h:293-321 | A write puts its item behind all others, write_front before them, and signals. |
| Interthread.FrontComesNext | CommonLibs/Interthread.h:313-321 | An item written in front is the next one returned, whatever the threads do meanwhile, if nobody writes in front once more. |
| Interthread.WriteCall | CommonLibs/Interthread.h:293-321 | A whole write while the mutex is free leaves the item in the queue and the writer before its signal. |
| Interthread.ReadCall | CommonLibs/Interthread.h:246-290 | A whole read of any kind while the mutex is free and an item is first returns that item. |
| Interthread.SignalledReads | CommonLibs/Interthread.h:246-311 | A signal to a sleeping reader with an item in the queue: the reader takes the mutex and returns the item. |
| Interthread.TimedReadEnds | CommonLibs/Interthread.h:269-282 | A timed read whose time is up returns null if the queue is empty then. |
| Crc.SyndromeIsRemainder | CommonLibs/BitVector.cpp:198-204 | For data of any length the syndrome is the remainder of the data polynomial divided by the generator polynomial over GF(2). |
| Crc.ParityIsRemainder | CommonLibs/BitVector.cpp:207-213 | For data of any length the parity is the remainder of the data polynomial times x^mLen. |
| Gf2.RemainderUnique | CommonLibs/BitVector.h:72-88 | A polynomial has one remainder only, so the two statements determine the shift loops' results. |
| Crc.CodewordSyndrome | CommonLibs/BitVector.cpp:261-272 | The syndrome of data followed by its parity word is 0, or all ones when the word is written inverted. |
| Crc.SyndromeLinear | CommonLibs/BitVector.h:72-77 | The syndrome of a sum of two words is the sum of their syndromes. |
| Crc.BurstDetected | CommonLibs/BitVector.h:72-77 | If the polynomial's constant term is 1, any word altered by a nonzero pattern confined to mLen consecutive bits has another syndrome than the word. |
| Crc.BurstDetectionExact | CommonLibs/BitVector.h:72-77 | All such bursts are detected in words of all lengths if and only if the constant term is 1. |
| Generators.Generator.constructor | CommonLibs/BitVector.h:54-58 | Every length below 64 is taken, with a zero state and the mask of the length; from 1 on, it is a generator whose polynomial is the coefficients with x^mLen on top and whose register is zero. |
| Generators.Generator.SyndromeShift | CommonLibs/BitVector.h:72-77 | On the 64-bit word, the low mLen bits make one step of the division register. |
| Generators.Generator.EncoderShift | CommonLibs/BitVector.h:83-88 | On the 64-bit word, the low mLen bits make one step of the encoder register. |
| Generators.Generator.SyndromeOf | CommonLibs/BitVector.cpp:198-204 | The loop returns the syndrome of the vector in the low bits and zeros above. |
| Generators.Generator.ParityOf | CommonLibs/BitVector.cpp:207-213 | The loop returns the parity of the vector in the low bits and zeros above. |
| Generators.Generator.WriteParityWord | CommonLibs/BitVector.cpp:267-272 | The parity word, maybe inverted, goes over the start of the target, high bit first, and nothing else changes. |
| Generators.WriteThenCheck | CommonLibs/BitVector.cpp:261-272 | Writing the parity segment of a buffer and computing the syndrome of the whole gives 0, or the mask word when inverted. |
| Fields.MsbValueOfBits | CommonLibs/BitVector.cpp:59-118 | A field written and read back is the value modulo two to its length. |
| Fields.LsbIsReversedMsb | CommonLibs/BitVector.cpp:73-132 | The reversed field of a value is the reverse of its field. |
| Fields.LsbValueOfBits | CommonLibs/BitVector.cpp:73-132 | A reversed field written and read back is the value modulo two to its length. |
| Fields.MsbBitsOfValue | CommonLibs/BitVector.cpp:59-118 | Writing what was read from a field restores its bits. |
| Fields.MsbBitAt | CommonLibs/BitVector.cpp:107-118 | Bit i of a field of n is the bit of the value with the weight of its place, 2^(n-1-i). |
| Fields.MsbValueConcat | CommonLibs/BitVector.cpp:59-68 | The value of two fields one after the other is the first times two to the length of the second, plus the second. |
| BitVectors.BitVector.PeekField | CommonLibs/BitVector.cpp:59-68 | The bits at the index as an integer, first bit most significant, modulo 2^64. |
| BitVectors.BitVector.PeekFieldReversed | CommonLibs/BitVector.cpp:73-82 | The bits at the index as an integer, first bit least significant, modulo 2^64. |
| BitVectors.BitVector.ReadField | CommonLibs/BitVector.cpp:87-92 | The field's value, and the index moved behind it. |
| BitVectors.BitVector.FillField | CommonLibs/BitVector.cpp:107-118 | The field's bits, most significant first, over the window, and nothing else in the buffer changes. |
| BitVectors.BitVector.FillFieldReversed | CommonLibs/BitVector.cpp:121-132 | The field's bits, least significant first, over the window, and nothing else in the buffer changes. |
| BitVectors.BitVector.WriteField | CommonLibs/BitVector.cpp:137-143 | As fillField, and the index moved behind the field. |
| BitVectors.BitVector.WriteFieldReversed | CommonLibs/BitVector.cpp:146-152 | As fillFieldReversed, and the index moved behind the field. |
| BitVectors.BitVector.Reverse8 | CommonLibs/BitVector.cpp:165-184 | The four swaps reverse the first eight bits of the window and leave the rest of the buffer. |
| BitVectors.BitVector.LSB8MSB | CommonLibs/BitVector.cpp:188-194 | Every whole octet of the window is reversed, a partial one and the rest of the buffer stay. |
| BitVectors.ReverseOctetsInvolution | CommonLibs/BitVector.cpp:188-194 | Reversing every whole octet twice restores the bits. |
| BitVectors.BitVector.Pack | CommonLibs/BitVector.cpp:365-376 | The octets of the bits, the last one filled with zeros, and nothing behind them. |
| BitVectors.BitVector.Unpack | CommonLibs/BitVector.cpp:395-406 | The first bits of the octets, most significant first, over the window only. |
| BitVectors.UnpackPacked | CommonLibs/BitVector.cpp:365-406 | unpack after pack restores any bits, with a partial last octet too. |
| BitVectors.PackUnpacked | CommonLibs/BitVector.cpp:365-406 | pack after unpack restores any octets. |
| SmsText.PackingIdentity | SMS/SMSMessages.cpp:543-565 | For a text of any length, the octets that encode7bit, the per-octet reversal of write and pack produce, read as a little-endian number to base 256, equal the septets read as a little-endian number to base 128. |
| SmsText.WireIsPacked | SMS/SMSMessages.cpp:703-713 | What goes on the wire for a text is the octet of its length and octets that are the number of its septets, least significant first. |
| SmsText.PackingFiller | SMS/SMSMessages.cpp:551-564 | Fewer than eight filler bits follow the septets, and all are zero. |
| SmsText.TextRoundTrip | SMS/SMSMessages.cpp:543-621 | For any alphabet of 128 characters with '@' first, decode after encode7bit gives the text with every other character shown as '@'; it is the text itself if and only if all its characters are in the alphabet. |
| SmsText.WireRoundTrip | SMS/SMSMessages.cpp:653-713 | Through write and parse too, behind any bits, the text comes back cut to its length modulo 256; it is the text itself if and only if it has at most 255 characters, all in the alphabet. |
| SmsText.TextBehindHeader | SMS/SMSMessages.cpp:567-621 | Under each of the five coding schemes: behind any header, of udhl octets and the octet that says so, and fewer than seven fill bits up to a whole septet, any text decodes as without a header, whatever follows, with a length that counts the septets of both. |
| SmsText.TextWithoutHeader | SMS/SMSMessages.cpp:567-621 | Under each of the five coding schemes a text without a header decodes to itself, other characters as '@', whatever follows. |
| SmsText.DecodeEnds | SMS/SMSMessages.cpp:567-621 | Decoding is a read error if and only if the scheme is none of the five or the data are shorter than the length; with a header it aborts if and only if the header's own length is missing or the header is longer than the length. |
| SmsText.CharRoundTrip | GSM/GSMCommon.cpp:37-53 | Every character gets a code below 128; it decodes to the character if it is in the alphabet and to '@' if not. |
| SmsText.CodeIsPlace | GSM/GSMCommon.cpp:37-53 | The code of a character is a place at which it stands in the alphabet, or 0; a code is read as the character at its place. |
| SmsText.ReverseTableIsLastIndex | GSM/GSMCommon.cpp:45-48 | The table's entry for a character is the last index at which it stands in the alphabet. |
| SmsText.GsmAlphabetIsAlphabet | GSM/GSMCommon.h:60 | The GSM alphabet has 128 characters, '@' first, none of them zero, and the ending zero. |
| SmsText.BuildReverseTable | GSM/GSMCommon.cpp:43-48 | The loop on first use fills the table that the specification function describes. |
| SmsText.TLUserData.Encode7bit | SMS/SMSMessages.cpp:543-565 | The object then holds DCS 0, the number of characters, and the septets with zero filler up to a whole octet. |
| SmsText.TLUserData.DecodeText | SMS/SMSMessages.cpp:567-621 | The text, the read error for another DCS or too few bits, or the failing assertion of a user data header longer than the data. |
| SmsText.TLUserData.Length | SMS/SMSMessages.cpp:623-649 | One octet more than the octets of the data; for whole octets, eight times it is the number of bits written. |
| SmsText.TLUserData.Write | SMS/SMSMessages.cpp:703-713 | The length octet at the position, then the data, every octet of the rest of the frame reversed. |
| SmsText.TLUserData.Parse | SMS/SMSMessages.cpp:653-663 | The length octet, then the rest of the frame with every octet reversed back, as an own copy. |
| SmsLayers.LayeredRoundTrip | SMS/SMSMessages.cpp:200-356 | RP-DATA written into a CP-DATA frame comes back whole through both parsers if and only if TI < 16, the reference is below 256, both addresses fit, the TPDU is whole octets and the RPDU has at most 255 octets; the CP frame is always as long as its length function says. |
| SmsLayers.LengthsAgree | SMS/SMSMessages.h:488-575 | bitsNeeded() of RP-DATA is the number of bits written if and only if the user data is whole octets, and exceeds it by fewer than eight bits otherwise. |
| SmsLayers.CPFallsShort | SMS/SMSMessages.h:752 | bitsNeeded() of CP-DATA, whose length rounds down, falls short of the bits written by the bits of a partial octet, so the message fits its frame if and only if the RPDU is whole octets or has fewer than eight bits, of which none are written. |
| SmsLayers.RPLayout | SMS/SMSMessages.cpp:316-356 | An RP-DATA frame is the octet 1, the reference, the originator, the destination, the octets of the user data modulo 256 and the user data, in this order. |
| SmsLayers.CPLayout | SMS/SMSMessages.cpp:200-221 | A CP-DATA frame is the TI in the upper and 9 in the lower half of an octet, the octet 1, the whole octets of the RPDU modulo 256, and the RPDU unless there are none. |
| SmsLayers.AddressLayout | GSM/GSML3CCElements.cpp:61-122 | A number is an octet of its length, one of 128, the type times 16 and the plan, and then its digits; without digits the octet 0 alone. |
| SmsLayers.RPRoundTrip | SMS/SMSMessages.cpp:284-356 | An RP-DATA frame of the length given, whatever stood in its unwritten bits, parses back to the message if and only if reference, addresses and user data fit. |
| SmsLayers.CPRoundTrip | SMS/SMSMessages.cpp:70-256 | A CP-DATA message is written without a failing assertion and parses back to the TI and the RPDU if and only if TI < 16 and the RPDU is whole octets, at most 255 of them. |
| SmsLayers.AddressRoundTrip | GSM/GSML3CCElements.cpp:97-122 | A called party number written as an LV element and read back in front of any bits is the same if and only if it is the default one or has, after an optional '+', at least one character, all of 0-9*#, and the '+' exactly when its type is international. |
| SmsLayers.AddressReadBack | GSM/GSML3CCElements.cpp:29-122 | What any such number reads back as: invalid characters as 0, and a read error if more than 20 digits result. |
| SmsLayers.FromStringFits | GSM/GSML3CCElements.h:139-144 | A number built from a string of at most 20 characters fits if and only if at least one valid character follows an optional '+', and all are valid. |
| SmsLayers.FromStringIs | GSM/GSML3CCElements.h:139-144 | International exactly with a '+', national otherwise, in plan 1, with the first 20 characters. |
| SmsLayers.ParseBcdBits | GSM/GSML3CCElements.cpp:29-77 | BCD digits written and parsed behind what was read before come back, invalid ones as 0; with 21 or more characters they are a read error, or overrun the digit array if there are 22 or more behind an even number. |
| SmsLayers.BcdSpells | GSM/GSML3CCElements.cpp:61-77 | The nibbles written for a string of decimal characters, the low one of each octet first, are the decimal places of the number that it spells. |
| SmsLayers.ParsedSpells | GSM/GSML3CCElements.cpp:29-44 | Octets of decimal nibbles parse to the string that spells the number with these places. |
| SmsLayers.BcdIsKeyed | GSM/GSML3CCElements.cpp:47-77 | The nibble of each character is its place in '0123456789*#', 0 for any other, and 15 behind an odd number of them. |
| SmsLayers.ParsedKeys | GSM/GSML3CCElements.cpp:29-44 | Digits that parse are, behind the '+', the characters of '0123456789*#<=>?' at the places of the nibbles: the low one of each octet, and the high one unless it is 15. |
| SmsLayers.ParseBcdEnds | GSM/GSML3CCElements.cpp:29-44 | For all bits: the digits parse if and only if the octets are there and the digits have room; the parse reads past the frame if and only if octets are missing and those before have room; it stores a digit behind the 21 bytes of the array if and only if some octet has a second digit when 20 characters are there. |
| SmsLayers.AddressEnds | GSM/GSML3Message.cpp:125-135 | For all bits: from length octet, extension bit, type and digits, exactly when a called party number parses, reads past the frame, or overruns the digit array; when it parses, the rest stands behind the announced octets. |
| SmsLayers.RPUndefined | SMS/SMSMessages.cpp:307-348 | Exactly the frames for which the parse of RP-DATA reads past their end, those under 16 bits and those in which a number or the length octet of the user data is cut off behind numbers that parse; and exactly those for which a number stores a digit behind its array. |
| SmsLayers.CPUndefined | SMS/SMSMessages.cpp:70-87 | parseSMS reads past the end of exactly the frames under 16 bits and the CP-DATA frames under 24. |
| SmsLayers.CPKinds | SMS/SMSMessages.cpp:54-87 | Message type 1 is CP-DATA, 4 a CP-ACK, 16 the failing assertion, and all others no message; the TI is the upper half of the first octet. |
| SmsLayers.ParseAddressVTakes | GSM/GSML3Message.cpp:125-135 | A called party number that parses takes exactly the octets its length octet announced, so the check behind it never fails. |
| SmsLayers.DataReadBack | SMS/SMSMessages.cpp:284-302 | RP user data at the end of a frame comes back with the unwritten bits of its last octet, up to 255 octets; beyond that, shorter data comes back. |
| SmsLayers.LastOctetMatters | SMS/SMSMessages.cpp:307-348 | A frame that differs from that of a message that fits in its last octet alone never parses to the same message. |
| SmsFrames.WriteDigits | GSM/GSML3CCElements.cpp:61-77 | The loop over the array, up to its terminator, writes the nibbles of the characters two to an octet, the second of a pair first, 15 for a missing one, and nothing else. |
| SmsFrames.ParseDigits | GSM/GSML3CCElements.cpp:29-44 | The loop over the 21 bytes of mDigits stores the characters of the nibbles and the terminator, or ends with a read error at 21; every store is inside of the array and every read inside of the frame unless the specification's outcome is undefined. |
| SmsFrames.CalledPartyBCDNumber.WriteLV | GSM/GSML3Message.cpp:171-176 | The length octet and, unless it is 0, type, plan and digits, over the frame from the position on. |
| SmsFrames.CalledPartyBCDNumber.ParseLV | GSM/GSML3Message.cpp:125-135 | The number read from the position on; a length of 0 leaves the object as it was. |
| SmsFrames.RPUserData.WriteLV | SMS/SMSMessages.cpp:297-302 | The rounded-up length octet and the bits, over the frame from the position on. |
| SmsFrames.RPUserData.ParseLV | SMS/SMSMessages.cpp:284-295 | The announced octets as an own copy, or the error of a length beyond the frame; a length of 0 leaves the object as it was. |
| SmsFrames.CPUserData.WriteLV | SMS/SMSMessages.cpp:251-256 | The rounded-down length octet and, unless it is 0, all bits, over the frame from the position on; the assertion of the copy fails exactly when they do not fit. |
| SmsFrames.CPUserData.ParseLV | SMS/SMSMessages.cpp:236-249 | The announced octets as an own copy, or the error of a length beyond the frame; a length of 0 leaves the object as it was. |
| SmsFrames.RPDataMessage.Write | SMS/SMSMessages.cpp:316-328 | The frame has the size of bitsNeeded() and starts with header, both addresses and user data. |
| SmsFrames.RPDataMessage.Parse | SMS/SMSMessages.cpp:307-313 | A fresh object ends up with the message that the bits of the frame stand for, or the parse ends as the bits say: a read error, a read past the frame, or a store behind a digit array. |
| SmsFrames.CPDataMessage.Write | SMS/SMSMessages.cpp:200-210 | The write ends if and only if the RPDU is whole octets or has fewer than eight bits; the frame is then TI, protocol discriminator, message type and RPDU and nothing else. Else the copy's assertion fails. |
| SmsFrames.ParseSMS | SMS/SMSMessages.cpp:70-87 | CP-DATA and CP-ACK frames give the message, CP-ERROR the failing assertion, other types no message, a length beyond the frame the read error; a frame too short for header or length octet is read past its end, which is undefined. |
| SipBody.PacketGetsThrough | smqueue/smsc.cpp:204-208 | Any octets encoded, copied into a body with strcpy over arbitrary junk and decoded are the same octets, whatever the junk, if and only if the encoding's name is one of binary, hex, base16 and base64, in small letters, and, for binary, no octet before the last is zero; or there are none. |
| SipBody.MessageGetsThrough | smqueue/smsc.cpp:175-212 | For every message and encoding name: decodeRPData returns the message for every junk behind strcpy's copy if and only if the name is one of the four in small letters, a binary packet has no zero octet before its last, and reference, addresses and TPDU fit the frame. |
| SipBody.CapitalsLoseAll | smqueue/smsc.cpp:190-208 | With the name HEX, as a header may have it, the body is empty and no message gets through. |
| SipBody.CopiedIffCopyable | smqueue/smsc.cpp:206-208 | The body is the text for every junk if and only if the text has no zero byte before its last. |
| SipBody.PackToString | CommonLibs/BitVector.cpp:378-392 | The loop gives the octets of the bits, the last one filled with zeros, as a string. |
| SipBody.PackTpdu | smqueue/smsc.cpp:175-212 | The body is the encoded packet of a frame of the size of bitsNeeded() that starts with the message. |
| SipBody.DecodeRPDataText | SMS/SMSMessages.cpp:91-131 | A fresh message of the decoded and unpacked bits, or none for empty text and read errors; a decoded packet that is read past its end, or whose digits overrun their array, has no defined outcome. |
| SipBody.ErrorsIgnored | SMS/SMSMessages.cpp:91-131 | Texts that decode to the same data are received alike, whether decoding them reported an error or not. |
| PointerFifo.PointerFIFO.Put | CommonLibs/LinkedLists.cpp:45-54 | The abstract queue gains the item at the back; the nodes from mHead still spell it and end at mTail, and with the free list they are all nodes ever allocated, each in one place. |
| PointerFifo.PointerFIFO.PushFront | CommonLibs/LinkedLists.cpp:33-43 | The abstract queue gains the item at the front, the rest as for put. |
| PointerFifo.PointerFIFO.Get | CommonLibs/LinkedLists.cpp:57-69 | The first item or none; its node moves to the free list and no node is lost. |
| PointerFifo.PointerFIFO.Allocate | CommonLibs/LinkedLists.cpp:72-78 | The first free node, or a new one exactly when none is free. |
| PointerFifo.PointerFIFO.Release | CommonLibs/LinkedLists.cpp:80-84 | The node becomes the first of the free list. |
| PointerFifo.PointerFIFO.PeakIsEnough | CommonLibs/LinkedLists.cpp:72-84 | The nodes ever allocated number exactly the greatest length the queue has had. |
| PointerFifo.Replay | CommonLibs/LinkedLists.cpp:33-84 | Any run of put, push_front and get on a real list delivers the items and leaves the queue and the node count of the abstract run. |
| PointerFifo.FirstInFirstOut | CommonLibs/LinkedLists.cpp:45-69 | In runs without push_front, what was delivered and what remains are the items put, in order. |
| RefCnt.World.CountsAreDesignators | CommonLibs/Utils.h:235-277 | Between operations each object's count is the number of pointers that designate it; it has been deleted once if it was designated and is no more, else never; no pointer designates a deleted object. |
| RefCnt.Counted.IncRefCnt | CommonLibs/Utils.cpp:60-67 | From a right count the assertion holds; the count is right again if and only if it was below 32767, and otherwise wraps around to -32768. |
| RefCnt.Counted.DecRefCnt | CommonLibs/Utils.cpp:41-59 | The assertion fails exactly for a negative count; a right count stays right, with one deletion when none is left. |
| RefCnt.RefCntPointer.FromRaw | CommonLibs/Utils.h:245 | A pointer constructed from a live object or NULL: all counts are right if and only if that object's count was below 32767, whatever other objects have. |
| RefCnt.RefCntPointer.Copy | CommonLibs/Utils.h:243-244 | A copy designates the same object: all counts are right if and only if that object's count was below 32767. |
| RefCnt.RefCntPointer.Assign | CommonLibs/Utils.h:257 | Assignment through a copied argument, to itself too: no assertion fails if and only if the source is NULL or its object's count was below 32766; then it ends with the source's object and all counts right. |
| RefCnt.RefCntPointer.AssignRaw | CommonLibs/Utils.h:259 | Assignment of a live object or NULL, the present one too: it ends with all counts right and no failing assertion if and only if that object's count was below 32767. |
| RefCnt.RefCntPointer.Free | CommonLibs/Utils.h:269-275 | The pointer is NULL and all counts are right. |
| RefCnt.RefCntPointer.Destroy | CommonLibs/Utils.h:248-252 | The pointer is gone; from right counts no assertion fails and all are right. |
| RefCnt.OneTooMany | CommonLibs/Utils.cpp:60-67 | An object that 32767 pointers designate gets the count -32768 with one pointer more. |
| BaseN.DecodeOfEncode | CommonLibs/Utils.cpp:729-766 | Under each of the four names in small letters, decoding what was encoded gives the data back without an error; under any other name, one in other letter case too, both report the unknown name. |
| BaseN.RoundTrip64 | CommonLibs/Utils.cpp:632-687 | Base64 of any bytes, with white space inserted anywhere, decodes to them with no error message, for all three paddings. |
| BaseN.RoundTripHex | CommonLibs/Utils.cpp:691-717 | Hexadecimal of any bytes, with white space inserted anywhere, decodes to them with no error message. |
| BaseN.ErrorFree64 | CommonLibs/Utils.cpp:653-687 | Base64 decoding leaves the error message empty if and only if the text is characters of the map followed by '=' only, white space aside. |
| BaseN.ErrorFreeHex | CommonLibs/Utils.cpp:691-717 | Hex decoding leaves the error message empty if and only if the text is an even number of hex digits, white space aside; encoding the result gives the text in upper case. |
| BaseN.Encode64IsChangeOfBase | CommonLibs/Utils.cpp:632-649 | Base64 of any whole number of three-byte groups, read as a number to base 64 by the positions in the map, is the bytes read as a number to base 256, both most significant first. |
| BaseN.Base64Number | CommonLibs/Utils.cpp:632-649 | For data of any length: four characters for three bytes or a last one or two, then two or one '='; the others are characters of the map, and as a number to base 64 they are the bytes, followed by four or two zero bits in a last group. |
| BaseN.HexNumber | CommonLibs/Utils.cpp:752-759 | Two of the digits 0-9A-F for each byte, which are the same number. |
| BaseN.Map64 | CommonLibs/Utils.cpp:610-630 | The map is A-Z, a-z, 0-9, '+', '/' in this order, and the reverse map takes each character to its place. |
| BaseN.DecodedValue | CommonLibs/Utils.cpp:653-687 | Characters of the map in groups of four and up to three more, with any '=' behind them and white space inserted, decode to three bytes a group and the bytes of the rest, as the same number less the bits that fill no byte. |
| BaseN.Spaces | CommonLibs/Utils.cpp:663 | White space is tab, newline, vertical tab, form feed, carriage return and space. |
| BaseN.SpacesIgnored64 | CommonLibs/Utils.cpp:663 | White space makes no difference to the base64 decoder in any state. |
| BaseN.SpacesIgnoredHex | CommonLibs/Utils.cpp:701 | White space makes no difference to the hex decoder in any state. |
| BaseN.EncodeBase64 | CommonLibs/Utils.cpp:632-649 | The loop over groups of three bytes builds the base64 text. |
| BaseN.DecodeBase64 | CommonLibs/Utils.cpp:653-687 | The nested loops give the bytes and the last error of the character-by-character decoder, for every text. |
| BaseN.EncodeHexString | CommonLibs/Utils.cpp:752-759 | The loop builds two upper-case digits per byte. |
| BaseN.DecodeHexString | CommonLibs/Utils.cpp:691-717 | The nested loops give the bytes and the last error of the character-by-character decoder, for every text. |
| BaseN.EncodeToString | CommonLibs/Utils.cpp:747-766 | Under binary the data; under hex and base16 two of 0-9A-F for each byte, as the same number; under base64 the characters of the map and '=' that are the same number; under any other name nothing and the error. |
| BaseN.DecodeToString | CommonLibs/Utils.cpp:729-742 | Under binary the text; under hex and base16 no error if and only if the text is, but for white space, an even number of hex digits, whose number the data then are; under base64 no error if and only if it is characters of the map and then '=', and the data are their number; under any other name nothing and the error. |
| BaseN.CapitalIsUnknown | CommonLibs/Utils.cpp:31-36 | A name with a capital letter is unknown to encoder and decoder, which give the empty string and the error. |
| Toml.ParseGrows | include/cpptoml.h:1892-1919 | A parse ends with a tree or an exception and never takes back() of an empty table array; every table array in the tree has an element; the tree after any prefix of the lines has grown into the final tree. |
| Toml.BoundForever | include/cpptoml.h:2135-2175 | A scalar or an array once bound at a path stands there unchanged in every later tree; a table or table array there has only grown. |
| Toml.AcceptedIsKept | include/cpptoml.h:2135-2175 | An accepted key-value line bound its value where nothing was bound, and it is there at the end of the parse. |
| Toml.ArrayHeaderAppends | include/cpptoml.h:2034-2133 | An accepted array header appends one new, empty table to the table array of its name, or makes the array with it, and leaves the cursor there. |
| Toml.HeaderOpens | include/cpptoml.h:1945-2032 | An accepted table header leaves the cursor at a table without scalars: an empty one exactly when it made a table on its way, else one with something in it. |
| TomlLines.HeaderLine | include/cpptoml.h:1945-2032 | A table header is accepted if and only if it has names, none empty, no value or plain array stands at a prefix of them, and a table that they lead to already has entries and no scalar among them. Then the cursor goes by the names and by last elements; the entries on its way have the shapes they had, or are new tables, and all others are as before. |
| TomlLines.ArrayLine | include/cpptoml.h:2034-2133 | An array header is accepted if and only if it has names, none empty, no value or plain array stands at a proper prefix of them, and at the last there is nothing or a table array not written inline. |
| TomlLines.ArrayLineAppends | include/cpptoml.h:2034-2133 | The array at the end of the names then is what it was and one empty table, or that alone; the cursor is there, and no entry off its way has changed. |
| TomlLines.KeyLine | include/cpptoml.h:2135-2175 | A key-value line is accepted if and only if it has names, nothing but tables stands at those before the last, nothing at the last, and the value is accepted. |
| TomlLines.KeyLineBinds | include/cpptoml.h:2135-2175 | Its value then stands at the end of the names below the cursor, where nothing stood; the cursor stays, and no other entry has changed. |
| TomlLines.NewSection | include/cpptoml.h:1986-1989 | A section whose name is not bound under the root is always accepted, and adds one empty table there. |
| Toml.LineStep | include/cpptoml.h:1905-1917 | From a well-formed tree with a good cursor, a line ends in such a state with a grown tree, or in an exception. |
| Toml.SingleParts | include/cpptoml.h:1957-1992 | Walking a table name, making tables and descending into last elements of table arrays, grows the tree and keeps the cursor good. |
| Toml.LastArrayPartKeeps | include/cpptoml.h:2044-2120 | Appending to a table array, or making one with its first element, grows the tree and keeps the cursor good; an array written inline is refused. |
| Toml.KeyParts | include/cpptoml.h:2140-2163 | Walking the tables of a dotted key grows the tree and keeps the cursor good. |
| Toml.Bind | include/cpptoml.h:2135-2175 | A key-value pair grows the tree, and leaves the caller's cursor good. |
| Toml.Build | include/cpptoml.h:2991-3121 | A value builds a well-formed node or is refused; an array of inline tables becomes a table array that is not empty. |
| Toml.ScalarArray | include/cpptoml.h:2355-3065 | An array of scalars is accepted if and only if every element, the first too, reads as the kind that the first one's beginning announces, integers reading as floating-point numbers; elements keep their kinds. |
| Toml.MixedNumbers | include/cpptoml.h:695-715 | Integers may follow a fraction, a fraction may not follow an integer, and a first number with an exponent and no fraction is refused. |
| TomlLines.ArrayAccepted | include/cpptoml.h:2991-3094 | An array is accepted if and only if it is empty, or every element is accepted and all are scalars that read as the announced kind, or all arrays, or all inline tables; it is the nodes of its elements in order. |
| TomlLines.InlineAccepted | include/cpptoml.h:3096-3121 | An inline table is what its pairs make of an empty table, one key-value line after the other, and is refused with any of them. |
| Toml.TableGrows | include/cpptoml.h:1537-1540 | Growing the table under a cursor grows the whole tree, which stays well formed, and the cursor finds the new table. |
| Toml.PointsStays | include/cpptoml.h:1896-1916 | A cursor into a tree stays good, and its table only grows, while the tree grows. |
| Toml.Parser.SingleTablePart | include/cpptoml.h:1957-1990 | The handler moves the cursor and grows the tree as specified, and tells whether it made a table. |
| Toml.Parser.TableArrayEnd | include/cpptoml.h:2044-2120 | The handler at the end of an array name appends or makes the array as specified. |
| Toml.Parser.SingleTableParts | include/cpptoml.h:2179-2209 | The loop over the parts of a name is the walk as specified. |
| Toml.Parser.ParseSingleTable | include/cpptoml.h:1945-2032 | A header moves the cursor from the root, and is refused if it made no table and reopens one that is empty or holds a scalar. |
| Toml.Parser.ParseTableArray | include/cpptoml.h:2034-2133 | An array header moves the cursor from the root to the new element. |
| Toml.ParseKeyValue | include/cpptoml.h:2135-2175 | The loop and the insertion give the tree of the specification, or are refused where it is. |
| Toml.ParseArray | include/cpptoml.h:2991-3094 | The loop gives the node of the specification, or refuses an element that does not read as what the first one announces. |
| Toml.ParseInlineTable | include/cpptoml.h:3096-3121 | The loop gives the table of the specification, or refuses a key bound twice. |
| Toml.Parser.ParseLines | include/cpptoml.h:1892-1919 | The loop over all lines ends with the tree and the cursor of the specification, or with its exception. |
| ConfigCache.BoundIffOneTable | CommonLibs/Configuration.cpp:658-697 | In all runs of n tables over one database with outside writers and a clock that does not go back: every lookup returns what the database resolved to less than 3 seconds before if n is at most 1; some bound in seconds holds if and only if n is at most 1, because the time of the last purge is shared. |
| ConfigCache.BoundExact | CommonLibs/Configuration.cpp:916-933 | For one table a bound in seconds holds in all runs if and only if it is at least 3. |
| ConfigCache.AgreesIffOneTable | CommonLibs/Configuration.cpp:658-697 | In all runs of n tables without outside writers every lookup returns database value, else schema default, else not found, if and only if n is at most 1. |
| ConfigCache.OneTableRecent | CommonLibs/Configuration.cpp:916-933 | From any state in which each cached record was right since the last purge, every lookup of a single table is less than 3 seconds old. |
| ConfigCache.TwoTablesStale | CommonLibs/Configuration.cpp:916-925 | With two tables, for every number of seconds some run has a lookup that returns an older value. |
| ConfigCache.OneTableExact | CommonLibs/Configuration.cpp:658-697 | From any coherent state, every lookup of a single table without outside writers is exact. |
| ConfigCache.NextCoherent | CommonLibs/Configuration.cpp:658-944 | With one table, every lookup, set, remove and purge, at any time, keeps each cached record equal to what the database, else the schema, gives for its key. |
| ConfigCache.LookupReturns | CommonLibs/Configuration.cpp:658-697 | The cached record while the last purge is less than 3 seconds ago and there is one; else the row, else the schema's default, else nothing. |
| ConfigCache.SetIsFound | CommonLibs/Configuration.cpp:892-907 | What a command that succeeds has set is in the database, and is what the table's next lookup of the key returns, at any time and beside any number of tables. |
| ConfigCache.RemovedIsDefault | CommonLibs/Configuration.cpp:827-838 | After a remove the next lookup returns the schema's default or nothing, or the row that could not be removed. |
| ConfigCache.PurgedIsExact | CommonLibs/Configuration.cpp:935-944 | After a purge the next lookup of any key returns what the database, else the schema has. |
| ConfigCache.ConfigurationTable.Lookup | CommonLibs/Configuration.cpp:658-697 | The record in the cache after ageing and, on a miss, filling from database, schema or the knowledge of absence. |
| ConfigCache.ConfigurationTable.CheckCacheAge | CommonLibs/Configuration.cpp:916-933 | The cache is emptied and the shared time set when three seconds have passed, else nothing changes. |
| ConfigCache.ConfigurationTable.Purge | CommonLibs/Configuration.cpp:935-944 | The loop empties the cache. |
| ConfigCache.ConfigurationTable.Defines | CommonLibs/Configuration.cpp:344-354 | Whether a lookup finds a value. |
| Puncture.PunctureRoundTrips | CommonLibs/BitVector.cpp:455-503 | For positions in strict order and in range: puncturing an unpunctured vector restores it, and unpuncturing a punctured one restores every other position and has the unknown value at exactly the listed ones. |
| Puncture.KeptInOrder | CommonLibs/BitVector.cpp:455-478 | Every element that is not punctured moves forward by the number of positions before it. |
| Puncture.CopyPunctured | CommonLibs/BitVector.cpp:455-478 | All assertions hold if and only if the sizes match and the positions are in strict order and in range; then the target is the source without them. |
| Puncture.CopyUnPunctured | CommonLibs/BitVector.cpp:480-503 | All assertions hold if and only if the sizes match and the positions are in strict order and in range; then the target is the source with 0.5 put in at them. |
| Reporting.ConservedIffCreated | CommonLibs/Reporting.cpp:65-206 | In all interleavings of increments, creations and any number of committers, row plus taken but unwritten plus batch is the first value plus the increments in every state of every run, if and only if the row is there at the start. |
| Reporting.ConservedOnceCreated | CommonLibs/Reporting.cpp:65-206 | The same holds in every run in which the row is created before the name's first increment, whatever is committed, incremented and created besides: row, taken and batch are the first value and one for each increment of the run. |
| Reporting.StepKeepsBalance | CommonLibs/Reporting.cpp:168-206 | Every step keeps, for every counter, row plus taken plus batch plus what went to a missing row equal to the increments. |
| Reporting.UnlockedTookAll | CommonLibs/Reporting.cpp:174-184 | In every run, when a committer gives the lock up, every count is out of the batch. |
| Reporting.WriteAdds | CommonLibs/Reporting.cpp:186-206 | One update adds what was taken to its row, if there is one, and to no other. |
| Reporting.EarlyIsLost | CommonLibs/Reporting.cpp:86-93 | An increment that is committed before its row exists is lost. |
| Reporting.QuietRowIsTotal | CommonLibs/Reporting.cpp:168-206 | When the row was there or was created before the first increment, the batch is empty and the committers are idle, the row has every increment. |
| Reporting.ReportingTable.Create | CommonLibs/Reporting.cpp:65-82 | The name is in batch and table, with the counts they had. |
| Reporting.ReportingTable.Incr | CommonLibs/Reporting.cpp:86-93 | One more in the batch for the name, no other count changes. |
| Reporting.ReportingTable.TakeOut | CommonLibs/Reporting.cpp:174-184 | The locked loop takes every count out of the batch. |
| Reporting.ReportingTable.Commit | CommonLibs/Reporting.cpp:168-206 | Every row gains its batched count and the batch is all zero. |
| Pipeline.DeliveredIffOneConsumer | smqueue/smqthreadsafequeue.h:12-30 | In all interleavings of pushes and n consumers with front, the copy through its reference and pop as separate steps: a message is always copied while in the queue, pop always removes the message read and never meets an empty queue, messages are handled at most once and in arrival order with none skipped, and the second queue gets exactly the valid ones, if and only if n is at most 1. |
| Pipeline.StepKeepsOne | smqueue/smqacker.cpp:44-87 | Every step of a reader or of the single acker keeps delivery right, at each point between front, copy and pop. |
| Pipeline.OneRound | smqueue/smqacker.cpp:44-87 | The five steps of a single consumer handle exactly the first message, and pass it on exactly if it is valid. |
| Pipeline.TwoConsumersClash | smqueue/smqthreadsafequeue.h:20-30 | Two consumers that read the same message reach a pop of an empty queue. |
| Pipeline.TwoConsumersDangle | smqueue/smqthreadsafequeue.h:20-30 | With two consumers, one reaches the copy of a message that the other has popped. |
| Pipeline.SmqAcker.ProcessMessage | smqueue/smqacker.cpp:44-87 | The first message leaves the reader's queue, and goes to the acker's own if its result code is 0. |
| Pipeline.SmqAcker.Drain | smqueue/smqacker.cpp:21-27 | The loop handles everything queued, and its queue gains exactly the messages with result code 0, in order. |
| ValidityPeriod.NearestPeriod | SMS/SMSMessages.cpp:476-526 | From 1 to 720 minutes the encoded period decodes to the least representable one not below, from 720 minutes up to the greatest not above. |
| ValidityPeriod.OctetRoundTrip | SMS/SMSMessages.cpp:476-526 | Encoding the minutes of any octet gives the octet. |
| ValidityPeriod.OctetMonotone | SMS/SMSMessages.cpp:518-526 | More minutes never give a smaller octet. |
| ValidityPeriod.MinutesGrow | SMS/SMSMessages.cpp:479-486 | A larger octet is a longer period, across all four formulas. |
| ValidityPeriod.Octet | SMS/SMSMessages.cpp:518-526 | The result is an octet for every number of minutes. |
| ValidityPeriod.KeptIffInSteps | SMS/SMSMessages.cpp:476-526 | A period survives encoding and decoding if and only if it is 5 to 720 minutes in steps of 5, up to 1440 in steps of 30, 2 to 30 days in whole days, or 5 to 63 weeks in whole weeks; these are all that octets stand for. |
| ValidityPeriod.LessAMinute | SMS/SMSMessages.cpp:518-526 | Of the minutes an octet stands for, 1 to 60 seconds less are encoded as the same octet if and only if it counts in steps of five minutes. |

## Left out

- LockProtocol: the retry loop need not end, so it is a step relation and not a method; that some thread gets through in the end is not claimed. The three mutexes are taken as distinct, masks as below 8, and a caller takes a first mutex holding none, or with trylock.
- Interthread: queues connected to share a signal, `wait` over two queues, and the lengths of timeouts; a timeout may come at any time.
- PointerFifo: mSize is unbounded; queued items may be any value, so that a NULL that was put is told apart from the NULL of an empty queue.
- RefCnt: counting by several threads at once is not modelled: each operation is one step. Assignment to a pointer is described up to the first failing assertion.
- RefCnt: a raw pointer to an object that is already deleted is not passed in; deletion is a counter on the object.
- BitVectors.BitVector.Resize: the contents after a resize are arbitrary; `Vector` ownership, text and hex forms, `map` and `unmap` are not modelled.
- Generators.Generator.SyndromeShift: requires a length of at least 1, like the other operations on the register: for 0 the source shifts by the greatest unsigned number of places, which is undefined. Words are 64 bits as a sequence.
- SmsText: texts long enough to overflow the integer arithmetic of the length; what a user data header holds. Decoding with a header is modelled, the round trips are for text without one.
- SmsLayers.LayeredRoundTrip: addresses have at most 20 characters, a type below 8 and a plan below 16, as their C++ types allow.
- SmsFrames.RPDataMessage.Parse: after an error the object's fields are not described, because the exception discards it; RP-ACK, RP-ERROR and RP-SMMA are left out, as is CP-ERROR's cause.
- TLAddress with a leading '+', whose length function counts the '+'; TLMessage header bits; L3TimeZoneAndTime; the dispatch on the validity period format, whose numbers differ between parse and write.
- ValidityPeriod.OctetOfSeconds: takes the seconds left as an argument; clocks are not modelled.
- BaseN: text is a sequence of characters below 256; the reverse tables are given by their ranges.
- SipBody.PackTpdu: the body that osip allocates holds arbitrary bytes, given as a function; how the encoding's name is found in the SIP text is left out.
- Puncture.CopyPunctured: works on whole arrays, not on windows of a shared buffer; vector sizes are unbounded.
- Toml: lines come as tokens, a scalar with its kind and the kind that its first characters announce; scanning of characters, strings, numbers, dates and comments, multi-line values and the writer are left out. The tree is a value and the cursor a path in it, so sharing of nodes is not modelled: the parser puts every node it makes in one place.
- ConfigCache: SQL and the schema's other fields; database reads do not fail, and the mutex around each call makes it one step. The value's conversions to numbers and lists are left out.
- Reporting: `max` and `clear`; counters are unbounded and updates succeed.
- Pipeline: `validate_msg` is an arbitrary function to result codes; sockets, the stop flag and the waiting on the condition variable are left out.
- Sockets, polling, SIP parsing and printing, SQLite, logging, the pending-message timeout tables, node manager and command line tools.
