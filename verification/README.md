# Models of the vendored protocol libraries

The app in this repository ships two C and C++ libraries under `Pascal/Pods`: nanopb, a small protocol buffer
codec, and BoringSSL, the TLS and DTLS library behind gRPC. This project models the parts of them where most of the
state, branching and arithmetic lies, and proves what they promise. `dafny verify dfyconfig.toml` checks all of it.

## What is modelled

**nanopb** (`PbWire`, `PbSchema`, `PbCodec`, `PbIter`, `PbDecoder`, `PbEncoder`, `PbRoundTrip`; for inputs that no encoder
made `PbRequired`, `PbBounds`, `PbFixed`, `PbMerge` and `PbEntries`; for the wire format `PbFormat`). Descriptors and
message structs are datatypes. `PbCodec` defines the encoding of a message and the decoding of bytes as functions;
the streams, the field iterator and the message loops are classes and methods over byte arrays that are proved to
compute them. The sizes are those of the build the project configures: 32-bit field sizes, so that the length word
before a byte payload has four bytes. The round trips hold for every descriptor without callbacks or extensions,
and for every struct that fits it.

**DTLS handshake transport** (`DtlsFragment`, `DtlsReceive`, `DtlsRecord`, `DtlsSend`, `DtlsSender`, `DtlsReliable`,
`DtlsSystem`, `DtlsEpochs`, with `SslAead` for nonces, additional data and lengths; against any sender `DtlsOpen`, `DtlsPeer`
and `DtlsReader`). Fragments, records and datagrams are byte strings. A message
under reassembly is an object with its byte buffer and bitmask, the ring of seven partial messages an object with an
array of slots. The sender is an object with its flight, its cursor and the two live write epochs. `DtlsReliable`
feeds the receiver honest fragments in any order; `DtlsSystem` joins both ends, the record layer and a network that
delivers any datagram ever written, at any time and any number of times; the reader takes it record by record, and
messages, the ChangeCipherSpec and epoch switches in between. `DtlsEpochs` runs it across a cipher change. `DtlsOpen`,
`DtlsPeer` and `DtlsReader` give records, fragments and datagrams of any content to the three layers of the receiver. The cipher is a pair of functions of which
opening undoes sealing; whether it succeeds (the null cipher does), what the BIO takes and what the allocator leaves in a buffer are
inputs of every step.

**TLS 1.0 to 1.2 handshake** (`TlsHandshake`, `TlsClient`, `TlsServer`, `TlsClientMachine`, `TlsServerMachine`,
`TlsAlone`, `TlsClientRefusals`, `TlsServerRefusals`, `TlsTranscripts`, `TlsDriver`, `TlsProduct`, `TlsProgress`). The two state machines decide, for a state, a message at hand and the
answers of callbacks, a move; applying it hashes, takes, sends and switches keys. The `do_` functions and the loops
around them are methods that change the fields of an object and are proved to do exactly such a move. The MAC of a
Finished message is any function of the transcript and the role. `TlsAlone` runs one end against any input, and
compares its transcript with the traffic that passes by it; the refusal modules say from the inputs alone when a step goes on,
waits or fails, and that nothing makes up for a failure; `TlsTranscripts` says which messages have been hashed by an end that
is done; `TlsDriver` makes a call of the outer loop such a run. `TlsProduct` and `TlsProgress` join two honest ends of one configuration by channels that keep their order.

**TLS stream** (`TlsMessages`, `TlsWrites`). Splitting, buffering and parsing of handshake messages, and the retryable
writes of application data.

**Smaller pieces**: the cipher suite choice with equal-preference groups (`CipherChoice`), the lock-free reference
count against the locked one (`RefCount`), and the branch-free RSA premaster check with its mask functions
(`Premaster`). Machine words are naturals with explicit bits (`Bits`) except in `Premaster`, which uses bit-vectors.

## What the proofs show about the code

Some expectations hold under a condition only. The model follows the code, and the exact condition is proved:

- A string that fills its buffer is encoded but not decoded (`PbRoundTrip.StringRoundTripExactly`).
- The 32-bit varint reader ignores some bits of long encodings; on what the encoder emits it is exact
  (`PbWire.Varint32OfEncoded`).
- What a DTLS receiver releases is a prefix of what was sent exactly when fewer than 2^16 messages are sent
  (`DtlsReliable.ReleasedIsPrefix`).
- A fragment seven messages ahead is fatal although it passes the test for the far future, in DTLS
  (`DtlsReceive.SevenAheadIsFatal`).
- A flight is written without gaps exactly when no packet breaks, that is, has a first record that can be sealed and a
  later one that cannot, for a failing cipher, a dead epoch, a spent counter or its length; the cursor is rewound for a
  failed write but not for that error (`DtlsSend.FlightTilesExactly`). It happens to the last flight of a handshake when
  its ChangeCipherSpec is sealed and its Finished is not (`DtlsSend.DropOccurs`, `DtlsEpochs.ChangeIsLost`). With a working cipher and
  counters that last there are no gaps whichever writes fail (`DtlsSend.FragmentsTile`).
- At most n seals and k epoch switches never use a record number twice exactly when n is at most 1, or n is at most 2^48
  and k below 2^16 (`DtlsRecord.NumbersUniqueExactly`).
- A struct is read back up to the values of its absent optionals, and two structs are told apart by their encodings'
  readings exactly when they differ in something else (`PbRoundTrip.DecodeEncode`, `PbRoundTrip.NormalizeExactly`).
- A union member ends before the field after the union exactly when the last member and the gap after it leave room for it: the
  walk over the descriptor adds the size of the last member, not of the largest (`PbIter.ApartExactly`).
- A message is refused for a missing required field exactly when it is one of the first 64 (`PbRequired.RequiredExactly`).
- When sealing application data fails while handshake data is unflushed, that data stays in the write buffer and every later
  application write is refused (`TlsWrites.SealFailureSticks`).
- A retried application write keeps its place exactly when its length is not below what is already behind; a shorter
  one is refused but forgets the place, and data may then be sealed twice (`TlsWrites.PlaceKeptExactly`,
  `TlsWrites.ShrinkingSealsTwice`).
- A cipher preference list whose last group flag is set would hide the ciphers of that group (`CipherChoice.Choose`,
  `CipherChoice.OpenGroupHides`), so the choice relies on that flag being clear (`CipherChoice.ChooseClosed`). The rule
  parser builds no other list: it clears the flag of the last member of a group and refuses deletions once there is a
  group (`ssl_cipher.cc`, lines 1043-1048 and 1085-1090).

## Model

| member | source | states |
|---|---|---|
| PbWire.VarintRoundTrip | Pascal/Pods/nanopb/pb_encode.c:574-594 | every uint64 written as a varint is read back by the 64-bit reader, which stops exactly at its end, whatever follows |
| PbWire.VarintAtMostTenBytes | Pascal/Pods/nanopb/pb_encode.c:574-594 | the ten-byte buffer of the encoder is large enough for every uint64 |
| PbWire.VarintShortest | Pascal/Pods/nanopb/pb_encode.c:574-594 | no byte string that the 64-bit reader accepts for a value is shorter than the emitted one |
| PbWire.DecodeVarint | Pascal/Pods/nanopb/pb_decode.c:250-271 | an accepted value fits 64 bits and the rest is a proper suffix of the input |
| PbWire.Varint32OfEncoded | Pascal/Pods/nanopb/pb_decode.c:182-247 | what the 32-bit reader makes of the encoding of any uint64: the value below 2^32, the value modulo 2^32 exactly for the patterns it takes for a sign extension, an error for all others |
| PbWire.Varint32Extremes | Pascal/Pods/nanopb/pb_decode.c:182-247 | every sign-extended negative int32 is accepted modulo 2^32 and every value in [2^32, 2^63) is rejected |
| PbWire.ZigZagRoundTrip | Pascal/Pods/nanopb/pb_encode.c:596-605 | decoding undoes the zigzag of every int64, and the zigzag is 2x or -2x-1, so small magnitudes stay small |
| PbWire.UnZigZagRoundTrip | Pascal/Pods/nanopb/pb_decode.c:1240-1252 | encoding undoes the decoding of every uint64 |
| PbWire.FixedRoundTrip | Pascal/Pods/nanopb/pb_encode.c:607-633 | fixed-width little-endian words are read back |
| PbFormat.DecodeVarintMeans | Pascal/Pods/nanopb/pb_decode.c:250-271 | what the 64-bit reader makes of any bytes: the base-128 number they spell modulo 2^64, and which inputs it refuses |
| PbFormat.EncodeVarintMeans | Pascal/Pods/nanopb/pb_encode.c:574-594 | the bytes written spell the number in base 128, least significant group first, with no group to spare |
| PbFormat.FixedMeans | Pascal/Pods/nanopb/pb_encode.c:607-633 | byte by byte, a fixed word is little-endian |
| PbFormat.NestedMessage | Pascal/Pods/nanopb/pb_encode.c:682-730 | the nested example of the encoding documentation comes out byte for byte |
| PbFormat.PackedNumbers | Pascal/Pods/nanopb/pb_encode.c:126-211 | the packed example of the encoding documentation comes out byte for byte |
| PbIter.FieldIter.Begin | Pascal/Pods/nanopb/pb_common.c:8-18 | the walk starts at the first field, with no required field counted |
| PbIter.WalkFindsLayout | Pascal/Pods/nanopb/pb_common.c:27-76 | the walk finds every field, and its size field, where a compiler puts them that lays elements of an array side by side and members of a union over each other |
| PbIter.Apart | Pascal/Pods/nanopb/pb_common.c:27-76 | no element of a field reaches into a later field, unless the two share a union; stated without the storage size that the walk uses |
| PbIter.ApartExactly | Pascal/Pods/nanopb/pb_common.c:44-58 | a union member ends before the field after the union if and only if the last member and the gap after it leave room for it |
| PbIter.FieldIter.Next | Pascal/Pods/nanopb/pb_common.c:20-76 | after every step data pointer, size pointer and required-field index are those of a fresh walk to that position, through unions and across the wrap-around; the data pointer is past every element of the fields before it, and where its union began |
| PbIter.FieldIter.Find | Pascal/Pods/nanopb/pb_common.c:78-95 | from any position the search terminates, succeeds exactly when a field has the tag, stops on the first one when tags are distinct, and otherwise comes back to where it started, always with the data pointer past every element of the fields before it |
| PbDecoder.HoldsMore | Pascal/Pods/nanopb/pb_decode.c:988-993 | setting a bit of the two-word record adds exactly that required field |
| PbDecoder.AllSeen | Pascal/Pods/nanopb/pb_decode.c:1027-1046 | the final test of the record passes exactly when each of the first n required fields has been seen |
| PbDecoder.CountRequired | Pascal/Pods/nanopb/pb_decode.c:1012-1025 | the number of required fields found by walking the iterator |
| PbDecoder.IStream.Read | Pascal/Pods/nanopb/pb_decode.c:100-134 | a read yields exactly the next bytes and moves the stream past them, or fails when they are missing |
| PbDecoder.IStream.GetVarint | Pascal/Pods/nanopb/pb_decode.c:250-271 | the byte loop over the stream computes the 64-bit reader and leaves its suffix |
| PbDecoder.IStream.GetVarint32 | Pascal/Pods/nanopb/pb_decode.c:182-247 | the byte loop, with its wrapping bit position, computes the 32-bit reader and reports the end of input |
| PbDecoder.IStream.PassField | Pascal/Pods/nanopb/pb_decode.c:316-326 | skipping by wire type consumes exactly what the skipping function says |
| PbDecoder.IStream.MakeSubstream | Pascal/Pods/nanopb/pb_decode.c:367-380 | a substream is a view of exactly the announced bytes |
| PbDecoder.IStream.CloseSubstream | Pascal/Pods/nanopb/pb_decode.c:382-394 | closing moves the parent past the whole substream |
| PbDecoder.GetValue | Pascal/Pods/nanopb/pb_decode.c:1289-1508 | the per-type decoders compute the value function on the stream, nested messages included |
| PbDecoder.GetField | Pascal/Pods/nanopb/pb_decode.c:401-475 | decoding into a slot: required, optional, packed and unpacked arrays, and unions |
| PbDecoder.DecodeNoInit | Pascal/Pods/nanopb/pb_decode.c:901-1049 | the whole message loop accepts exactly the inputs the decoding function accepts and yields its slots, with the required-field record kept in two words; which inputs those are is PbRequired.RequiredExactly |
| PbDecoder.DecodeFromBuffer | Pascal/Pods/nanopb/pb_decode.c:1051-1063 | decoding a buffer, defaults first: accepted inputs and result are those of the decoding function |
| PbRequired.RequiredExactly | Pascal/Pods/nanopb/pb_decode.c:1012-1046 | on any bytes: a message is accepted if and only if it would be with its required fields optional and each of the first 64 required fields has its tag among the entries found by walking keys and skipping values; the struct is the same |
| PbRequired.MissingIsRefused | Pascal/Pods/nanopb/pb_decode.c:1027-1042 | a message without an entry of one of the first 64 required fields is refused |
| PbBounds.DecodedWithinBounds | Pascal/Pods/nanopb/pb_decode.c:1289-1508 | whatever bytes are accepted, every number fits its width, every payload and string its storage with length or terminator, every array its size, and a union holds one member at most, at any depth |
| PbBounds.AcceptedIsReencoded | Pascal/Pods/nanopb/pb_decode.c:901-1049 | what has been accepted can be encoded again |
| PbFixed.FilledOrEmpty | Pascal/Pods/nanopb/pb_decode.c:965-986 | on any bytes: an array without a count is filled if the message has an entry for it and is empty otherwise; a message that fills one partly is refused |
| PbMerge.AbsentHasDefault | Pascal/Pods/nanopb/pb_decode.c:812-895 | on any bytes: a field without an entry has its declared default, an absent has-flag, no elements, or is not the member of its union |
| PbMerge.UntouchedKept | Pascal/Pods/nanopb/pb_decode.c:401-475 | on any bytes: entries change no field but their own and the members of their union |
| PbMerge.SubmessageMerges | Pascal/Pods/nanopb/pb_decode.c:1463-1486 | a submessage that comes again is merged into the one that is there; a new array element and a newly selected union member start from the defaults |
| PbEntries.LastOneWins | Pascal/Pods/nanopb/pb_decode.c:401-424 | a later entry of a singular field replaces the value, in any state of the decoder |
| PbEntries.MemberIsSelected | Pascal/Pods/nanopb/pb_decode.c:461-470 | an entry of a union member selects it and drops what the union held |
| PbEntries.ElementIsAppended | Pascal/Pods/nanopb/pb_decode.c:425-460 | an element by itself is appended to a counted array, packable or not, and one too many is an error |
| PbEntries.FixedElementIsStored | Pascal/Pods/nanopb/pb_decode.c:965-986 | an element of an array without a count goes to the place after the last one read; going over to another such array is an error while one is not full, and coming back begins again |
| PbEntries.UnknownIsPassedOver | Pascal/Pods/nanopb/pb_decode.c:316-326 | an entry with an unknown tag is passed over whatever its value, and one of a wire type that does not exist is an error |
| PbEntries.ZeroEnds | Pascal/Pods/nanopb/pb_decode.c:293-314 | a key of zero ends the message |
| PbEntries.SignedBecomes | Pascal/Pods/nanopb/pb_decode.c:1289-1325 | a signed field takes any varint by its low 32 or 64 bits, in two's complement, and refuses what its width does not hold |
| PbEntries.OthersBecome | Pascal/Pods/nanopb/pb_decode.c:1326-1372 | an unsigned field takes exactly the numbers of its width, a zigzag field those whose zigzag it reads |
| PbEntries.EmptyFixedBytes | Pascal/Pods/nanopb/pb_decode.c:1488-1508 | a payload of fixed size that is sent empty stands for zeros |
| PbEncoder.VarintBytes | Pascal/Pods/nanopb/pb_encode.c:574-594 | the loop that fills the varint buffer produces the encoding function of the value |
| PbEncoder.OStream.Write | Pascal/Pods/nanopb/pb_encode.c:101-119 | a write succeeds exactly when it fits, counts its bytes, and changes nothing but the bytes it covers; a sizing stream only counts |
| PbEncoder.PutArray | Pascal/Pods/nanopb/pb_encode.c:126-211 | arrays go out packed or as repeated fields, with a length prefix computed by a sizing pass |
| PbEncoder.PutSubmessage | Pascal/Pods/nanopb/pb_encode.c:682-730 | sizing pass, length prefix and writing pass agree at every depth, so that the nested message is never reported to have changed size |
| PbEncoder.PutMessage | Pascal/Pods/nanopb/pb_encode.c:494-516 | the field walk writes exactly the encoding function of the message |
| PbEncoder.EncodedSize | Pascal/Pods/nanopb/pb_encode.c:533-542 | the sizing pass succeeds for the same messages as the writing pass and counts exactly the bytes of the encoding |
| PbEncoder.EncodeToBuffer | Pascal/Pods/nanopb/pb_encode.c:494-516 | encoding succeeds exactly when the whole message fits, writes it, and touches nothing after it |
| PbBounds.OmittedExactly | Pascal/Pods/nanopb/pb_encode.c:215-392 | nothing is written for a field exactly when it is an absent optional, a field without a has-flag that is zero through and through, an empty array, or not the member of its union |
| PbBounds.OverrunIsRefused | Pascal/Pods/nanopb/pb_encode.c:126-145 | a struct with a count or a payload length past the end of its storage is not encoded, at any depth |
| PbRoundTrip.StringRoundTripExactly | Pascal/Pods/nanopb/pb_decode.c:1428-1461 | a string without interior NULs survives exactly when it leaves room for the terminator, although the encoder accepts one that fills its buffer |
| PbRoundTrip.SkipEncodedValue | Pascal/Pods/nanopb/pb_decode.c:316-326 | skipping consumes precisely the bytes each encoder wrote after its tag |
| PbRoundTrip.SlotSkipped | Pascal/Pods/nanopb/pb_decode.c:919-997 | everything written for a field the reader does not know leaves the reader as it was |
| PbRoundTrip.DecodeProjects | Pascal/Pods/nanopb/pb_decode.c:901-1049 | a message written under a descriptor and read under one that lacks some of its fields, at any depth, comes back as exactly the projection onto the kept fields |
| PbRoundTrip.DecodeEncode | Pascal/Pods/nanopb/pb_decode.c:1051-1063 | decoding an encoded message returns its normal form, which is the message up to the values of absent optionals, at any depth: nested messages, unions, packed and unpacked arrays, strings and bytes |
| PbRoundTrip.NormalizeExactly | Pascal/Pods/nanopb/pb_encode.c:307-392 | two structs have one normal form, and so decode alike, exactly when they are the same up to the values of optionals absent in both |
| PbSchema.DefaultSlots | Pascal/Pods/nanopb/pb_decode.c:884-895 | a struct of defaults has one slot for each field |
| DtlsFragment.ParseRoundTrip | Pascal/Pods/BoringSSL-GRPC/ssl/d1_both.cc:459-473 | a fragment header and body written out are parsed back, leaving what follows |
| DtlsFragment.ParseExactly | Pascal/Pods/BoringSSL-GRPC/ssl/d1_both.cc:459-473 | on any bytes: what is parsed is the fragment they spell, and only bytes that spell none are refused |
| DtlsFragment.FragmentLayout | Pascal/Pods/BoringSSL-GRPC/ssl/d1_both.cc:459-473 | where each part of a fragment stands in its bytes |
| DtlsFragment.BitRangeBits | Pascal/Pods/BoringSSL-GRPC/ssl/d1_both.cc:201-205 | the complement-and-mask expression sets exactly the bits of the range |
| DtlsFragment.LastByteComplete | Pascal/Pods/BoringSSL-GRPC/ssl/d1_both.cc:244-247 | the comparison of the last mask byte holds exactly when the last bytes of the body have all arrived |
| DtlsFragment.WholeByteComplete | Pascal/Pods/BoringSSL-GRPC/ssl/d1_both.cc:239-243 | a mask byte is 0xff exactly when its eight body bytes have arrived |
| DtlsFragment.HmFragment.New | Pascal/Pods/BoringSSL-GRPC/ssl/d1_both.cc:152-199 | a new message has its unfragmented 12-byte header, an unwritten body, and a mask exactly when it is not empty |
| DtlsFragment.HmFragment.MarkBits | Pascal/Pods/BoringSSL-GRPC/ssl/d1_both.cc:226-236 | the stores add exactly the bits of the range to the mask |
| DtlsFragment.HmFragment.AllMarked | Pascal/Pods/BoringSSL-GRPC/ssl/d1_both.cc:238-247 | the scan finds the message complete exactly when every body byte has arrived |
| DtlsFragment.HmFragment.Mark | Pascal/Pods/BoringSSL-GRPC/ssl/d1_both.cc:207-251 | after marking, the mask is the set of the bytes received with no bit past the length, and is dropped exactly when the message is complete |
| DtlsFragment.HmFragment.Receive | Pascal/Pods/BoringSSL-GRPC/ssl/d1_both.cc:393-402 | a fragment body is copied to its place and marked, and nothing else changes |
| DtlsReceive.RecordKeepsWindow | Pascal/Pods/BoringSSL-GRPC/ssl/d1_both.cc:348-405 | whatever a record holds, each slot of the ring keeps a message of the window whose number is the slot modulo 7 |
| DtlsReceive.NextKeepsWindow | Pascal/Pods/BoringSSL-GRPC/ssl/d1_both.cc:426-438 | stepping to the next message keeps the window, also where the 16-bit counter wraps |
| DtlsReceive.SevenAheadIsFatal | Pascal/Pods/BoringSSL-GRPC/ssl/d1_both.cc:265-271 | a fragment exactly seven messages ahead passes the test for the far future and is then a fatal error; those past or further ahead are ignored |
| DtlsReceive.Incoming.OpenHandshake | Pascal/Pods/BoringSSL-GRPC/ssl/d1_both.cc:348-405 | the loop over the fragments of a record leaves the ring and returns the alert of the receiving function |
| DtlsReceive.Incoming.GetSlot | Pascal/Pods/BoringSSL-GRPC/ssl/d1_both.cc:273-295 | a slot holds the message of its fragments, created by the first one |
| DtlsReceive.Incoming.GetMessage | Pascal/Pods/BoringSSL-GRPC/ssl/d1_both.cc:408-424 | the current message is handed out with its unfragmented header exactly when it is complete |
| DtlsReceive.Incoming.NextMessage | Pascal/Pods/BoringSSL-GRPC/ssl/d1_both.cc:426-438 | the current slot is emptied and the counter advanced |
| DtlsPeer.AcceptsExactly | Pascal/Pods/BoringSSL-GRPC/ssl/d1_both.cc:356-402 | whatever fragment comes: with which alert it is fatal and when, and that only one in the window changes anything, and only its slot |
| DtlsPeer.ReleasedIsWhatArrived | Pascal/Pods/BoringSSL-GRPC/ssl/d1_both.cc:297-438 | over every run of arbitrary fragments, each message released is complete, no longer than accepted, of the one type and length its fragments name, and each of its bytes is one that arrived for it |
| DtlsPeer.RecordIsFragments | Pascal/Pods/BoringSSL-GRPC/ssl/d1_both.cc:348-405 | any record is taken fragment by fragment up to the first fatal one, and a rest that begins no fragment is fatal |
| SslAead.NonceInjective | Pascal/Pods/BoringSSL-GRPC/ssl/ssl_aead_ctx.cc:325-369 | under one context two sequence numbers give the same nonce exactly when they are equal, prepended or XORed |
| SslAead.NonceBytes | Pascal/Pods/BoringSSL-GRPC/ssl/ssl_aead_ctx.cc:325-369 | the nonce byte by byte: the fixed part before the sequence number, or the sequence number XORed into its last eight bytes |
| SslAead.SealedLayout | Pascal/Pods/BoringSSL-GRPC/ssl/ssl_aead_ctx.cc:77-149 | cipher by cipher what goes on the wire: a random explicit IV, the sequence number as explicit nonce, or none |
| SslAead.AdditionalDataInjective | Pascal/Pods/BoringSSL-GRPC/ssl/ssl_aead_ctx.cc:203-223 | the additional data tell apart sequence numbers, types, versions and, where it is part of them, lengths |
| SslAead.AdditionalDataBytes | Pascal/Pods/BoringSSL-GRPC/ssl/ssl_aead_ctx.cc:203-223 | their layout: sequence number, type, version, and the length unless it is left out |
| SslAead.BoundToHeader | Pascal/Pods/BoringSSL-GRPC/ssl/ssl_aead_ctx.cc:225-295 | with a cipher that authenticates, a sealed record opens only under its own sequence number, type and version |
| SslAead.OpensOnlySealed | Pascal/Pods/BoringSSL-GRPC/ssl/ssl_aead_ctx.cc:225-295 | with such a cipher, what opens is what was sealed under the header at hand |
| SslAead.AdditionalDataAgrees | Pascal/Pods/BoringSSL-GRPC/ssl/ssl_aead_ctx.cc:203-247 | the reader rebuilds the writer's additional data exactly when the length is left out of it or the tag has its maximal length |
| SslAead.OpenSeal | Pascal/Pods/BoringSSL-GRPC/ssl/ssl_aead_ctx.cc:225-403 | opening undoes sealing, explicit nonce included |
| SslAead.Context.Seal | Pascal/Pods/BoringSSL-GRPC/ssl/ssl_aead_ctx.cc:379-403 | sealing succeeds exactly when nonce, text and tag fit, and its length is their sum |
| SslAead.AssembleNonce | Pascal/Pods/BoringSSL-GRPC/ssl/ssl_aead_ctx.cc:248-285 | the buffer loops produce the nonce function |
| DtlsRecord.DiscardExactly | Pascal/Pods/BoringSSL-GRPC/ssl/dtls_record.cc:138-149 | the 64-bit window discards exactly the numbers seen and those 64 or more behind the newest |
| DtlsRecord.RecordTracks | Pascal/Pods/BoringSSL-GRPC/ssl/dtls_record.cc:152-175 | recording a number keeps the window an exact image of the set of numbers seen |
| DtlsRecord.WindowRefinesSet | Pascal/Pods/BoringSSL-GRPC/ssl/dtls_record.cc:128-175 | over every run of arrivals the window accepts what the plain set of numbers would |
| DtlsRecord.AcceptedAtMostOnce | Pascal/Pods/BoringSSL-GRPC/ssl/dtls_record.cc:225-259 | a window that starts empty accepts no number twice, whatever arrives; DtlsOpen.OpenedAtMostOnce carries it over to the operation |
| DtlsRecord.ReplayWindow.ShouldDiscard | Pascal/Pods/BoringSSL-GRPC/ssl/dtls_record.cc:138-149 | the test in place answers for the set of numbers seen |
| DtlsRecord.ReplayWindow.Record | Pascal/Pods/BoringSSL-GRPC/ssl/dtls_record.cc:152-175 | the update in place adds the number to the set |
| DtlsRecord.SealRecord | Pascal/Pods/BoringSSL-GRPC/ssl/dtls_record.cc:294-353 | a sealed record has the length announced and fits; the counter moves by one, and a wrapped counter fails the call |
| DtlsRecord.SealedHeader | Pascal/Pods/BoringSSL-GRPC/ssl/dtls_record.cc:294-353 | the header of a sealed record holds its type, version, epoch, number and length |
| DtlsRecord.SpendsExactly | Pascal/Pods/BoringSSL-GRPC/ssl/dtls_record.cc:316-336 | a number is spent exactly when the record fits and the cipher works |
| DtlsRecord.OpenSealed | Pascal/Pods/BoringSSL-GRPC/ssl/dtls_record.cc:177-273 | what a reader with the same keys makes of a sealed record: its text, a discard for a wrong epoch, version or replay, or an overflow, in exactly these cases; for records from anyone see DtlsOpen.OpensExactly |
| DtlsOpen.OpensExactly | Pascal/Pods/BoringSSL-GRPC/ssl/dtls_record.cc:177-273 | on any record, whoever made it: the outcome, the state and what is left of the datagram, case by case; a record that does not authenticate leaves the window as it was |
| DtlsOpen.ChangesOnlyWhenOpened | Pascal/Pods/BoringSSL-GRPC/ssl/dtls_record.cc:225-259 | on any bytes: the read state changes only when a record is opened, and then by exactly its number, which was fresh |
| DtlsOpen.OpensWhatWindowAccepts | Pascal/Pods/BoringSSL-GRPC/ssl/dtls_record.cc:177-273 | over any sequence of datagrams from anyone, the numbers opened are those the window accepts of the records that arrive, where whether a record opens depends on keys and bytes alone |
| DtlsOpen.OpenedAtMostOnce | Pascal/Pods/BoringSSL-GRPC/ssl/dtls_record.cc:225-259 | over any such sequence the operation opens no number twice in an epoch |
| DtlsOpen.ForgedChangesNothing | Pascal/Pods/BoringSSL-GRPC/ssl/dtls_record.cc:237-259 | records that do not open make no difference to which of the others are accepted |
| DtlsRecord.SeqBytesValue | Pascal/Pods/BoringSSL-GRPC/ssl/dtls_record.cc:126-137 | the eight sequence bytes stand for the epoch and the 48-bit number |
| DtlsRecord.NumbersUnique | Pascal/Pods/BoringSSL-GRPC/ssl/dtls_record.cc:304-336 | over every run of seals, epoch switches and previous-epoch seals, no epoch and number are used twice, until a wraparound is reported or 2^16 epochs have passed |
| DtlsRecord.NumbersUniqueExactly | Pascal/Pods/BoringSSL-GRPC/ssl/dtls_record.cc:304-336 | runs of at most n seals and k epoch switches from unused counters never use an epoch and number twice if and only if n is at most 1, or n is at most 2^48 and k below 2^16 |
| DtlsRecord.WraparoundRepeats | Pascal/Pods/BoringSSL-GRPC/ssl/dtls_record.cc:331-336 | a run of 2^48 + 1 seals, past a reported wraparound, uses a number again |
| DtlsRecord.EpochsRepeat | Pascal/Pods/BoringSSL-GRPC/ssl/dtls_method.cc:97-108 | a run of two seals with 2^16 epoch switches between them uses a number again without any report |
| DtlsRecord.NoncesUnique | Pascal/Pods/BoringSSL-GRPC/ssl/ssl_aead_ctx.cc:346-351 | over every run of at most 2^48 seals and fewer than 2^16 epoch switches, the nonces that a context draws from the record numbers of the run are all different, across epochs too |
| DtlsSend.UpdateMtu | Pascal/Pods/BoringSSL-GRPC/ssl/d1_both.cc:613-632 | an MTU of at least 228 is kept; below it, unless asking is forbidden, the answer is taken when it is between 228 and 2^30, and 1472 otherwise |
| DtlsSend.MtuSettles | Pascal/Pods/BoringSSL-GRPC/ssl/d1_both.cc:613-632 | over any calls the MTU is the answer to the first one that may ask, and never asked for again |
| DtlsSend.FlightCollects | Pascal/Pods/BoringSSL-GRPC/ssl/d1_both.cc:555-594 | over any additions: the flight is what was added since the last flush, in order, under the epoch at hand and with consecutive numbers; exactly the eighth message or one too long is refused |
| DtlsSend.WholeExactly | Pascal/Pods/BoringSSL-GRPC/ssl/d1_both.cc:693-708 | exactly the messages that are one whole fragment reaching past the cursor can be sent, and as that fragment |
| DtlsSend.SealedUnderItsEpoch | Pascal/Pods/BoringSSL-GRPC/ssl/d1_both.cc:644-691 | a record goes out under the epoch its message was queued in, and not at all once that is neither the current nor the previous one |
| DtlsSend.NextFragment | Pascal/Pods/BoringSSL-GRPC/ssl/d1_both.cc:693-716 | the next fragment starts at the cursor and is cut short only when it fills the room |
| DtlsSend.SealMessage | Pascal/Pods/BoringSSL-GRPC/ssl/d1_both.cc:644-733 | a sealed record fits the room left; a partial one moves the offset forward within the message, a complete one resets it |
| DtlsSend.SealPacket | Pascal/Pods/BoringSSL-GRPC/ssl/d1_both.cc:739-780 | a packet fits the MTU, and the cursor rises lexicographically with every packet built, so that the sending loop ends |
| DtlsSend.PacketsFitMtu | Pascal/Pods/BoringSSL-GRPC/ssl/d1_both.cc:782-827 | every packet that a call writes fits the MTU |
| DtlsSend.PackLoopPlanned | Pascal/Pods/BoringSSL-GRPC/ssl/d1_both.cc:739-780 | the packing loop follows a plan made from sizes, epochs and counters alone: it ends without error exactly when no record of the plan is blocked and the cipher seals each that is not in the clear, and otherwise has packed something exactly when the first record could be sealed |
| DtlsSend.FlightTilesExactly | Pascal/Pods/BoringSSL-GRPC/ssl/d1_both.cc:782-827 | what a call writes continues where the flight stood and stops where the cursor is left, whichever writes fail, if and only if no packet of the plan made before the call breaks, that is, has a first record that can be sealed and a later one that cannot |
| DtlsSend.FragmentsTile | Pascal/Pods/BoringSSL-GRPC/ssl/d1_both.cc:782-834 | over any number of resumed calls, MTUs and failing writes, with a working cipher and counters that last, the written fragments of each message carry its body up to the cursor, once and in order; all of it once a call succeeds |
| DtlsSend.DropOccurs | Pascal/Pods/BoringSSL-GRPC/ssl/d1_both.cc:801-804 | for every key that is not the null cipher, every message and every MTU with room for a byte of it: when the message cannot be sealed under the new key, the ChangeCipherSpec packed before it, in the clear, is never written although the cursor has passed it |
| DtlsEpochs.ChangeIsLost | Pascal/Pods/BoringSSL-GRPC/ssl/d1_both.cc:782-827 | a run of the system reaches this: nothing is on the wire, and the cursor stands past the ChangeCipherSpec |
| DtlsSend.SealRecordFails | Pascal/Pods/BoringSSL-GRPC/ssl/d1_both.cc:657-691 | given room for the overhead, sealing fails exactly for a failing cipher that is not the null one, a counter at its end or a text too long for the length field |
| DtlsSend.FlightIsSent | Pascal/Pods/BoringSSL-GRPC/ssl/d1_both.cc:782-827 | with writes that go through, a working cipher and room for one byte of body, the whole flight is written |
| DtlsSender.Outgoing.AddOutgoing | Pascal/Pods/BoringSSL-GRPC/ssl/d1_both.cc:555-594 | a message is queued under the current epoch, after clearing a flight already sent |
| DtlsSender.Outgoing.SealNextMessage | Pascal/Pods/BoringSSL-GRPC/ssl/d1_both.cc:644-733 | in place: the record is written at its offset of the packet and everything before it is kept |
| DtlsSender.Outgoing.SealNextPacket | Pascal/Pods/BoringSSL-GRPC/ssl/d1_both.cc:739-780 | the packing loop fills the packet with exactly the records of the packing function |
| DtlsSender.Outgoing.SetMtu | Pascal/Pods/BoringSSL-GRPC/ssl/ssl_lib.cc:1676-1682 | an MTU below the minimum is refused and changes nothing |
| DtlsSender.Outgoing.SendFlight | Pascal/Pods/BoringSSL-GRPC/ssl/d1_both.cc:782-827 | when the MTU was below 228 and may be asked for, it becomes the answer between 228 and 2^30, or 1472, and otherwise stays; every datagram written is no longer than it; the loop writes exactly the packets of the sending function and rewinds the cursor on a failed write |
| DtlsSender.Outgoing.FlushFlight | Pascal/Pods/BoringSSL-GRPC/ssl/d1_both.cc:829-834 | flushing marks the flight complete and sends it, with the same promises about MTU and datagrams |
| DtlsSender.Outgoing.Retransmit | Pascal/Pods/BoringSSL-GRPC/ssl/d1_both.cc:836-845 | retransmission rewinds to the start and sends the flight again, with the same promises about MTU and datagrams |
| DtlsReliable.CompleteIsRaw | Pascal/Pods/BoringSSL-GRPC/ssl/d1_both.cc:408-424 | a complete reassembled message equals the sent one byte for byte, header included |
| DtlsReliable.AcceptFollows | Pascal/Pods/BoringSSL-GRPC/ssl/d1_both.cc:350-402 | an honest fragment, early, late or repeated, keeps the receiver a faithful image of the messages sent |
| DtlsReliable.ReleaseFollows | Pascal/Pods/BoringSSL-GRPC/ssl/d1_both.cc:408-438 | the message released next is the sender's next one |
| DtlsReliable.LateCopyIsReleased | Pascal/Pods/BoringSSL-GRPC/ssl/d1_both.cc:426-438 | with 2^16 messages or more a late copy is released once too often |
| DtlsReliable.ReleasedIsPrefix | Pascal/Pods/BoringSSL-GRPC/ssl/d1_both.cc:350-438 | over every schedule of honest fragments, lost, repeated or reordered, the messages released are a prefix of those sent, headers included, if and only if fewer than 2^16 are sent |
| DtlsReliable.CoveredIsReleased | Pascal/Pods/BoringSSL-GRPC/ssl/d1_both.cc:348-438 | deliveries in any order, overlap and mixture that the receiver does not fail over complete the message waited for if and only if it has been begun and each byte was there or is carried by one of them; then it is the next one released |
| DtlsReliable.AllReleased | Pascal/Pods/BoringSSL-GRPC/ssl/d1_both.cc:348-438 | deliveries that cover the messages one after the other, with a message taken after each block, release all of them |
| DtlsSystem.SendFlightTruthful | Pascal/Pods/BoringSSL-GRPC/ssl/d1_both.cc:644-845 | every record a flight puts on the wire opens to its own text or to nothing, and the text is part of a message sent |
| DtlsSystem.ReadFollows | Pascal/Pods/BoringSSL-GRPC/ssl/d1_both.cc:297-406 | reading one record of what is left of a datagram, cut short by the buffer or not, with epochs, replay window and fatal errors, keeps the receiver an image of what was sent |
| DtlsReader.ReadFailsExactly | Pascal/Pods/BoringSSL-GRPC/ssl/d1_both.cc:297-405 | whatever record is read: exactly which are fatal, which set the flag for the ChangeCipherSpec, and which reach the ring |
| DtlsReader.LoadsExactly | Pascal/Pods/BoringSSL-GRPC/ssl/d1_both.cc:297-302 | a datagram is taken only when the one before has been read to its end, up to the size of the buffer |
| DtlsReader.SwitchExactly | Pascal/Pods/BoringSSL-GRPC/ssl/dtls_method.cc:80-95 | the keys change exactly after a ChangeCipherSpec was taken and when nothing of the old epoch is left but the message handed out; when something is, it is fatal |
| DtlsReader.HandedOutOnce | Pascal/Pods/BoringSSL-GRPC/ssl/d1_both.cc:408-438 | a message is handed out once until it is released |
| DtlsReader.ChangesKeysOnce | Pascal/Pods/BoringSSL-GRPC/ssl/d1_both.cc:318-337 | over any run of arbitrary datagrams the read keys change at most once, and only after a ChangeCipherSpec was read in the clear |
| DtlsSystem.ActInv | Pascal/Pods/BoringSSL-GRPC/ssl/d1_both.cc:152-845 | every step of the two ends and of the network keeps the invariant of the whole system: among them reading one record, taking the ChangeCipherSpec and switching the read epoch after it |
| DtlsSystem.ReleasedIsPrefixOfSent | Pascal/Pods/BoringSSL-GRPC/ssl/d1_both.cc:152-845 | in every run of a sender that adds, fragments, seals, flushes with failing writes, switches epochs and retransmits, and of a receiver that is given any datagram at any time, reads it record by record, takes the ChangeCipherSpec and switches epochs, the messages released are a prefix of those sent |
| DtlsEpochs.NewEpochIsReleased | Pascal/Pods/BoringSSL-GRPC/ssl/d1_both.cc:475-490 | such runs get across the cipher change: for any keys and any message that fits a packet, the ChangeCipherSpec is read and taken, the read epoch becomes 1, and the message sealed under the new keys is released |
| DtlsSystem.RecordNumbersUnique | Pascal/Pods/BoringSSL-GRPC/ssl/dtls_method.cc:97-108 | in every such run no two records are sealed with the same epoch and number before a wraparound is reported |
| TlsHandshake.ApplyKeeps | Pascal/Pods/BoringSSL-GRPC/ssl/handshake.cc:491-628 | a step adds exactly the milestones of what it decided, and the epochs stay the number of key switches |
| TlsHandshake.ApplyHashes | Pascal/Pods/BoringSSL-GRPC/ssl/handshake.cc:215-222 | the transcript grows by the message a step takes and by the messages it adds to the outgoing flight, in this order; after a HelloVerifyRequest only the latter are left |
| TlsHandshake.ApplyChecked | Pascal/Pods/BoringSSL-GRPC/ssl/handshake.cc:380-476 | a step keeps it true that the Finished messages of the transcript are those sent and checked, in order, each with the MAC of what precedes it for its role |
| TlsHandshake.AddAllSends | Pascal/Pods/BoringSSL-GRPC/ssl/handshake.cc:431-476 | messages sent are queued under the current keys and hashed, and a Finished carries the MAC of everything before it |
| TlsHandshake.GetFinished | Pascal/Pods/BoringSSL-GRPC/ssl/handshake.cc:380-429 | the message taken is a Finished whose body is the expected MAC, and nothing else is taken |
| TlsClient.DecideLeads | Pascal/Pods/BoringSSL-GRPC/ssl/handshake_client.cc:1707-1789 | each state has one successor for a configuration; a step goes there and does exactly its irreversible part, or waits or fails; when it does which is TlsClientRefusals.Decides |
| TlsClient.RankFalls | Pascal/Pods/BoringSSL-GRPC/ssl/handshake_client.cc:1707-1789 | a measure that depends on resumption falls along every transition, the backward jumps of the enumeration included |
| TlsClient.StepInv | Pascal/Pods/BoringSSL-GRPC/ssl/handshake_client.cc:1707-1789 | whatever the server sends, a step keeps what is known of the client; one that blocks changes only the wait, any other lowers the measure |
| TlsClient.MilestonesAtDone | Pascal/Pods/BoringSSL-GRPC/ssl/handshake_client.cc:1674-1705 | the irreversible steps on the way to done, each once: certificate before key exchange, own Finished after the write switch, peer's after the read switch |
| TlsClient.DecideFollows | Pascal/Pods/BoringSSL-GRPC/ssl/handshake_client.cc:535-1672 | on the next message of the script a step takes and sends exactly its segment, or waits, or fails for a reason of its own |
| TlsClient.StepFollows | Pascal/Pods/BoringSSL-GRPC/ssl/handshake_client.cc:535-1672 | the same for the end as a whole: records queued, transcript and genuineness |
| TlsClient.ScriptOfClient | Pascal/Pods/BoringSSL-GRPC/ssl/handshake_client.cc:385-1705 | the client's transitions unfold to the message sequence of a full or resumed handshake |
| TlsClient.WaitsOnly | Pascal/Pods/BoringSSL-GRPC/ssl/handshake_client.cc:871-889 | a step that waits for a callback or a message has changed nothing else |
| TlsClient.FinishedIsChecked | Pascal/Pods/BoringSSL-GRPC/ssl/handshake.cc:380-429 | the client takes a Finished in one state only, only with the MAC of its transcript for the server role, and notes just then that it was checked |
| TlsClient.RestartsOn | Pascal/Pods/BoringSSL-GRPC/ssl/handshake_client.cc:491-533 | taking a HelloVerifyRequest starts the transcript again, and nothing else does |
| TlsServer.FinishedIsChecked | Pascal/Pods/BoringSSL-GRPC/ssl/handshake.cc:380-429 | the server takes a Finished in one state only, only with the MAC of its transcript for the client role, and notes just then that it was checked |
| TlsServer.HelloStaysAtHand | Pascal/Pods/BoringSSL-GRPC/ssl/handshake_server.cc:432-684 | from the check of its type to its taking two steps later, the ClientHello stays at the head of the input |
| TlsServer.DecideLeads | Pascal/Pods/BoringSSL-GRPC/ssl/handshake_server.cc:1539-1621 | each state has one successor for a configuration; a step goes there and does exactly its irreversible part, or waits or fails; when it does which is TlsServerRefusals.Decides |
| TlsServer.RankFalls | Pascal/Pods/BoringSSL-GRPC/ssl/handshake_server.cc:1539-1621 | a measure that depends on resumption falls along every transition |
| TlsServer.StepInv | Pascal/Pods/BoringSSL-GRPC/ssl/handshake_server.cc:1539-1621 | whatever the client sends, a step keeps what is known of the server; one that blocks changes only the wait, any other lowers the measure |
| TlsServer.MilestonesAtDone | Pascal/Pods/BoringSSL-GRPC/ssl/handshake_server.cc:1511-1537 | the irreversible steps on the way to done, each once and in order |
| TlsServer.DecideFollows | Pascal/Pods/BoringSSL-GRPC/ssl/handshake_server.cc:572-1509 | on the next message of the script a step takes and sends exactly its segment, or waits, or fails for a reason of its own |
| TlsServer.StepFollows | Pascal/Pods/BoringSSL-GRPC/ssl/handshake_server.cc:572-1509 | the same for the end as a whole |
| TlsServer.ScriptOfServer | Pascal/Pods/BoringSSL-GRPC/ssl/handshake_server.cc:426-1537 | the server's transitions unfold to the same message sequence as the client's |
| TlsServer.WaitsOnly | Pascal/Pods/BoringSSL-GRPC/ssl/handshake_server.cc:1042-1056 | a step that waits for a callback or a message has changed nothing else |
| TlsAlone.ClientHashesTraffic | Pascal/Pods/BoringSSL-GRPC/ssl/handshake.cc:215-222 | in every run against any server, the transcript is exactly the traffic, told from inbox and outgoing flight alone: the messages that left the one and were added to the other, since the last HelloVerifyRequest |
| TlsAlone.ServerHashesTraffic | Pascal/Pods/BoringSSL-GRPC/ssl/handshake.cc:215-222 | the same for a server against any client |
| TlsAlone.ClientDone | Pascal/Pods/BoringSSL-GRPC/ssl/handshake_client.cc:1457-1705 | against any server, a client that is done has switched each key once, noted the certificate as verified before its key exchange, sent its Finished after the write switch and checked the server's after the read switch, in this order and once each; its transcript is the traffic that passed it, with exactly two Finished, in the order of the handshake, each the MAC of all before it |
| TlsAlone.ServerDone | Pascal/Pods/BoringSSL-GRPC/ssl/handshake_server.cc:1365-1621 | the same for a server against any client |
| TlsClientRefusals.Decides | Pascal/Pods/BoringSSL-GRPC/ssl/handshake_client.cc:385-1705 | a step goes on if and only if the message at hand is one its state admits, the callback it asks says so, and what it has to check or make is right; otherwise it waits or fails as a table of the inputs says |
| TlsClientRefusals.RefusalIsFinal | Pascal/Pods/BoringSSL-GRPC/ssl/handshake_client.cc:1707-1789 | against any server: a turn that is not approved, but for a message or an answer still to come, ends the handshake in that state for good |
| TlsClientRefusals.RefusedCertificate | Pascal/Pods/BoringSSL-GRPC/ssl/handshake_client.cc:871-889 | against any server: once the callback has refused the server's certificate the client has failed, stays where it is, and has not noted it as verified |
| TlsClientRefusals.VerifiedByCallback | Pascal/Pods/BoringSSL-GRPC/ssl/handshake_client.cc:871-889 | against any server: the certificate is noted as verified only if the callback said so in a turn there |
| TlsClientRefusals.DonePassed | Pascal/Pods/BoringSSL-GRPC/ssl/handshake_client.cc:385-1705 | against any server: a client that is done has been through an approved turn in every state of its path |
| TlsClientRefusals.SwitchedAfterChange | Pascal/Pods/BoringSSL-GRPC/ssl/handshake.cc:519-532 | against any server: a client that is done took a ChangeCipherSpec under the first epoch before it switched its read keys |
| TlsServerRefusals.Decides | Pascal/Pods/BoringSSL-GRPC/ssl/handshake_server.cc:426-1537 | the same for the server: exactly when a step goes on, waits or fails |
| TlsServerRefusals.RefusalIsFinal | Pascal/Pods/BoringSSL-GRPC/ssl/handshake_server.cc:1539-1621 | against any client: a turn that is not approved, but for a message or an answer still to come, ends the handshake in that state for good |
| TlsServerRefusals.RefusedCertificate | Pascal/Pods/BoringSSL-GRPC/ssl/handshake_server.cc:1042-1056 | against any client: once the callback has refused the client's certificate the server has failed and has not noted it as verified |
| TlsServerRefusals.VerifiedByCallback | Pascal/Pods/BoringSSL-GRPC/ssl/handshake_server.cc:1042-1056 | against any client: its certificate is noted as verified only if the callback said so of it |
| TlsServerRefusals.RequiredCertificate | Pascal/Pods/BoringSSL-GRPC/ssl/handshake_server.cc:970-1040 | against any client: where a certificate is required, a full handshake is done only with one that is not empty and was accepted |
| TlsServerRefusals.CertificateNoted | Pascal/Pods/BoringSSL-GRPC/ssl/handshake_server.cc:970-1040 | an approved turn on the client's Certificate message notes that there is one exactly when it is not empty |
| TlsServerRefusals.DonePassed | Pascal/Pods/BoringSSL-GRPC/ssl/handshake_server.cc:426-1537 | against any client: a server that is done has been through an approved turn in every state of its path |
| TlsServerRefusals.SwitchedAfterChange | Pascal/Pods/BoringSSL-GRPC/ssl/handshake.cc:519-532 | against any client: a server that is done took a ChangeCipherSpec under the first epoch before it switched its read keys |
| TlsTranscripts.ClientHasHashed | Pascal/Pods/BoringSSL-GRPC/ssl/handshake_client.cc:385-1705 | against any server: a client that is done has hashed exactly the messages of a full or resumed handshake in their order; only an offered stapled status, a certificate request and a ServerKeyExchange may be there or not, the last as the cipher demands |
| TlsTranscripts.ServerHasHashed | Pascal/Pods/BoringSSL-GRPC/ssl/handshake_server.cc:426-1537 | against any client: a server that is done has hashed exactly the messages of a full or resumed handshake in their order, a CertificateVerify after every client certificate that is not empty |
| TlsAlone.RetryRepeatsNothing | Pascal/Pods/BoringSSL-GRPC/ssl/handshake.cc:491-628 | a turn that asks to be tried again has done nothing, and trying again starts from the same state |
| TlsProduct.ActInv | Pascal/Pods/BoringSSL-GRPC/ssl/handshake.cc:491-628 | every turn of either end and every resolved wait keeps one end ahead of the other by exactly what is on its way |
| TlsProduct.HandshakeIsSafe | Pascal/Pods/BoringSSL-GRPC/ssl/handshake.cc:380-476 | in every run of an honest client and server of one configuration neither ever fails over a message, record or Finished of the other; the transcripts differ by what is on its way and are equal when both are done; at an end that is done the two Finished stand in the order of the handshake, each with the MAC of what precedes it in the transcript |
| TlsProgress.NoDeadlock | Pascal/Pods/BoringSSL-GRPC/ssl/handshake.cc:491-628 | when both ends are idle both are done: neither waits with something unflushed, and never each for the other |
| TlsProgress.HandshakeCompletes | Pascal/Pods/BoringSSL-GRPC/ssl/handshake.cc:491-628 | from wherever a run without failures has got to it can be continued until both ends are done with equal transcripts |
| TlsClientMachine.ClientHandshake.DoSendClientFinished | Pascal/Pods/BoringSSL-GRPC/ssl/handshake_client.cc:1457-1512 | in place: Channel ID first, then ChangeCipherSpec, key switch, optional messages and Finished |
| TlsClientMachine.ClientHandshake.DoReadSessionTicket | Pascal/Pods/BoringSSL-GRPC/ssl/handshake_client.cc:1566-1647 | in place: the ticket is read when expected, then the ChangeCipherSpec awaited |
| TlsClientMachine.ClientHandshake.DoReadServerFinished | Pascal/Pods/BoringSSL-GRPC/ssl/handshake_client.cc:1658-1672 | in place: the MAC is computed before the message is hashed |
| TlsClientMachine.ClientHandshake.Handshake | Pascal/Pods/BoringSSL-GRPC/ssl/handshake_client.cc:1707-1789 | the loop runs the steps in place until one has to wait, and ends because the measure falls |
| TlsServerMachine.ServerHandshake.DoReadClientKeyExchange | Pascal/Pods/BoringSSL-GRPC/ssl/handshake_server.cc:1058-1267 | in place: a decryption to be retried comes before the message is hashed |
| TlsServerMachine.ServerHandshake.DoSendServerFinished | Pascal/Pods/BoringSSL-GRPC/ssl/handshake_server.cc:1463-1509 | in place: ticket, ChangeCipherSpec, key switch and Finished |
| TlsServerMachine.ServerHandshake.Handshake | Pascal/Pods/BoringSSL-GRPC/ssl/handshake_server.cc:1539-1621 | the loop runs the steps in place until one has to wait, and ends because the measure falls |
| TlsClientMachine.ClientHandshake.RunHandshake | Pascal/Pods/BoringSSL-GRPC/ssl/handshake.cc:491-628 | the outer loop, in place: each round resolves what is waited for and runs the steps until one has to wait again; it always returns |
| TlsServerMachine.ServerHandshake.RunHandshake | Pascal/Pods/BoringSSL-GRPC/ssl/handshake.cc:491-628 | the same around the server's steps |
| TlsDriver.ClientCallIsRun | Pascal/Pods/BoringSSL-GRPC/ssl/handshake.cc:491-628 | a call of the outer loop is a run of the client's own events, so that what holds of every run holds of every call; it reports completion only when the handshake is done and an error exactly when it has failed |
| TlsDriver.ServerCallIsRun | Pascal/Pods/BoringSSL-GRPC/ssl/handshake.cc:491-628 | the same for the server |
| TlsClientMachine.TurnsProgress | Pascal/Pods/BoringSSL-GRPC/ssl/handshake.cc:491-628 | running the steps never goes back, and when it gets nowhere the first step had to wait, for a message only if none had come |
| TlsMessages.SplitCovers | Pascal/Pods/BoringSSL-GRPC/ssl/s3_both.cc:184-196 | splitting a message at any positive size loses nothing and makes no empty or oversized record |
| TlsMessages.AddMessage | Pascal/Pods/BoringSSL-GRPC/ssl/s3_both.cc:184-205 | the do-while loop appends exactly the records of the split |
| TlsMessages.ParseRaw | Pascal/Pods/BoringSSL-GRPC/ssl/s3_both.cc:399-425 | a buffer that holds the beginning of a message parses to it exactly when it holds all of it |
| TlsMessages.MessagesInOrder | Pascal/Pods/BoringSSL-GRPC/ssl/s3_both.cc:399-583 | however the stream is cut into records and whenever messages are taken, they are the first ones sent and the buffer is exactly the unread rest of what has arrived |
| TlsMessages.SplitRoundTrip | Pascal/Pods/BoringSSL-GRPC/ssl/s3_both.cc:184-205 | messages split at any positive sizes, each its own, are read back as sent |
| TlsMessages.NeverRefused | Pascal/Pods/BoringSSL-GRPC/ssl/s3_both.cc:441-459 | a reader that takes every complete message before asking for more never refuses a record |
| TlsMessages.ParseExactly | Pascal/Pods/BoringSSL-GRPC/ssl/s3_both.cc:399-425 | whatever the buffer holds: the message at its head is parsed exactly when all its announced bytes are there |
| TlsMessages.AcceptsExactly | Pascal/Pods/BoringSSL-GRPC/ssl/s3_both.cc:441-459 | whatever the buffer holds: a record is accepted exactly when the message at hand is incomplete and announces no more than is accepted |
| TlsMessages.BufferBounded | Pascal/Pods/BoringSSL-GRPC/ssl/s3_both.cc:441-559 | whatever a peer sends, the buffer never holds more than one accepted message and one record |
| TlsMessages.HandshakeBuffer.OpenHandshake | Pascal/Pods/BoringSSL-GRPC/ssl/s3_both.cc:474-559 | a handshake record is appended whole, or refused, exactly as the acceptance test says |
| TlsMessages.HandshakeBuffer.NextMessage | Pascal/Pods/BoringSSL-GRPC/ssl/s3_both.cc:561-582 | the message at hand is removed and the rest moved to the front |
| TlsMessages.HandshakeBuffer.HasUnprocessed | Pascal/Pods/BoringSSL-GRPC/ssl/s3_both.cc:461-472 | there is unprocessed data exactly when the buffer holds more than the message at hand |
| TlsWrites.RetryContinues | Pascal/Pods/BoringSSL-GRPC/ssl/s3_pkt.cc:129-200 | a call that presents the same bytes again either succeeds with k and has sealed and flushed exactly the first k, or leaves everything consistent for the next retry |
| TlsWrites.PlaceKeptExactly | Pascal/Pods/BoringSSL-GRPC/ssl/s3_pkt.cc:143-157 | the call succeeds having sealed just the bytes it reports, or the place in the buffer is kept, if and only if the length is not below what is already behind |
| TlsWrites.ShrinkingSealsTwice | Pascal/Pods/BoringSSL-GRPC/ssl/s3_pkt.cc:143-157 | concrete calls with a shrinking length in between that seal a byte twice |
| TlsWrites.DoInOrder | Pascal/Pods/BoringSSL-GRPC/ssl/s3_pkt.cc:221-289 | every operation keeps all bytes in the order produced: unflushed handshake data precedes the records sealed after it |
| TlsWrites.ScheduleSealsOnce | Pascal/Pods/BoringSSL-GRPC/ssl/s3_pkt.cc:129-289 | over every schedule of retries with bytes that agree and no fewer than are behind, shrinking or growing, mixed with handshake data, the records sealed are consecutive slices, nothing resealed or skipped |
| TlsWrites.BadRetryRefused | Pascal/Pods/BoringSSL-GRPC/ssl/s3_pkt.cc:202-219 | a retry that is shorter than the pending record, or at another place where the buffer may not move, is refused and leaves everything as it was |
| TlsWrites.GoodRetryFlushes | Pascal/Pods/BoringSSL-GRPC/ssl/s3_pkt.cc:202-219 | any other retry first flushes what is pending, as much as the BIO takes |
| TlsWrites.SameCallIsTakenUp | Pascal/Pods/BoringSSL-GRPC/ssl/s3_pkt.cc:129-200 | a call that has to be made again is taken up when made again with the same arguments |
| TlsWrites.CallCompletes | Pascal/Pods/BoringSSL-GRPC/ssl/s3_pkt.cc:129-200 | once the BIO takes everything, a call reports all its data, or a part where that is allowed, with nothing pending |
| TlsWrites.ZeroExactly | Pascal/Pods/BoringSSL-GRPC/ssl/s3_pkt.cc:129-289 | zero is reported exactly when there is nothing to write; failures are negative |
| TlsWrites.SealFailureSticks | Pascal/Pods/BoringSSL-GRPC/ssl/s3_pkt.cc:253-270 | when sealing fails after unflushed handshake data was moved into the write buffer, no application data is written any more, even once sealing would work; exactly when there was such data |
| TlsWrites.FlightFlushedExactly | Pascal/Pods/BoringSSL-GRPC/ssl/s3_both.cc:231-280 | flushing the handshake succeeds exactly when none was left or the BIO took the write buffer and all of the flight, in this order |
| TlsWrites.WriteSide.WriteRecord | Pascal/Pods/BoringSSL-GRPC/ssl/s3_pkt.cc:221-289 | in place: flight, record and pending bookkeeping |
| TlsWrites.WriteSide.WriteApplicationData | Pascal/Pods/BoringSSL-GRPC/ssl/s3_pkt.cc:129-200 | the loop in place computes the writing function |
| CipherChoice.Choose | Pascal/Pods/BoringSSL-GRPC/ssl/handshake_server.cc:357-424 | the choice is the eligible member with the least index in the other list of the first group with any eligible member; nothing is chosen exactly when every eligible entry is in a group left open at the end |
| CipherChoice.ChooseClosed | Pascal/Pods/BoringSSL-GRPC/ssl/handshake_server.cc:357-424 | on lists whose last flag is clear nothing is chosen if and only if no cipher is shared |
| CipherChoice.NoGroups | Pascal/Pods/BoringSSL-GRPC/ssl/handshake_server.cc:381-385 | under client preference the choice is the first eligible cipher |
| CipherChoice.OpenGroupHides | Pascal/Pods/BoringSSL-GRPC/ssl/handshake_server.cc:416-423 | on a list whose last flag is set nothing is chosen although a cipher is shared |
| RefCount.LockedCount.Inc | Pascal/Pods/BoringSSL-GRPC/crypto/refcount_lock.c:29-35 | the locked increment saturates |
| RefCount.LockedCount.DecAndTestZero | Pascal/Pods/BoringSSL-GRPC/crypto/refcount_lock.c:37-51 | the locked decrement aborts at zero, sticks at the maximum and reports zero |
| RefCount.RunRefinesLocked | Pascal/Pods/BoringSSL-GRPC/crypto/refcount_c11.c:37-65 | the operations seen of any run, interleaved, spuriously failing or saturated, are a run of the locked count one at a time with the same results and final count, and an abort exactly where that aborts |
| RefCount.NeverWraps | Pascal/Pods/BoringSSL-GRPC/crypto/refcount_c11.c:37-65 | the count moves by at most one, never wraps and stays where it saturates |
| RefCount.StepBalanced | Pascal/Pods/BoringSSL-GRPC/crypto/refcount_c11.c:37-65 | the count stays the number of references owned, and zero has been reported exactly when it is none |
| RefCount.StepMovesReferences | Pascal/Pods/BoringSSL-GRPC/crypto/refcount_c11.c:37-65 | an increment makes one reference, a decrement takes one, nothing else does, and a spurious failure leaves the count |
| RefCount.StepCovers | Pascal/Pods/BoringSSL-GRPC/crypto/refcount_c11.c:37-65 | saturated or not, the count is the number of references or its maximum, no decrement aborts, and zero is reported only when the last reference is gone |
| RefCount.ZeroIsLast | Pascal/Pods/BoringSSL-GRPC/crypto/refcount_c11.c:49-65 | after zero has been reported no thread has a step left |
| RefCount.ExactlyOneZero | Pascal/Pods/BoringSSL-GRPC/crypto/refcount_c11.c:37-65 | under every interleaving and spurious failure no balanced decrement aborts, exactly one reports zero when the references run out, and it is the last step |
| Premaster.IsZeroW | Pascal/Pods/BoringSSL-GRPC/crypto/internal.h:303-316 | the mask is all ones for zero and zero otherwise |
| Premaster.EqW | Pascal/Pods/BoringSSL-GRPC/crypto/internal.h:325-328 | the mask is all ones exactly for equal words |
| Premaster.LtW | Pascal/Pods/BoringSSL-GRPC/crypto/internal.h:244-280 | the mask is all ones exactly when the first word is below the second |
| Premaster.Select8 | Pascal/Pods/BoringSSL-GRPC/crypto/internal.h:351-362 | an all-ones mask selects the first byte and a zero mask the second |
| Premaster.Mask | Pascal/Pods/BoringSSL-GRPC/ssl/handshake_server.cc:1157-1171 | the accumulated mask is all ones exactly for a well padded buffer with the client's version |
| Premaster.SelectPremaster | Pascal/Pods/BoringSSL-GRPC/ssl/handshake_server.cc:1143-1178 | for every buffer length the branch-free selection is the decrypted tail when padding and version are right and the random premaster otherwise |

## Left out

- DecodeEncode: for encodings below 2^32 bytes, since nested lengths are read as 32-bit varints; larger ones are not modelled.
- DecodeProjects: the same limit; the kept fields keep their layout and types, as in a descriptor with fields removed.
- DecodeNoInit: nested structs are values, not memory; reading past a struct through a wrong descriptor is not modelled.
- EncodedSize: the byte counters are unbounded, so an overflow of `size_t` is not modelled.
- HandshakeIsSafe: the two ends agree on one configuration; how extensions, versions and ciphers are negotiated into it, and what ssl3_choose_cipher contributes, is not part of it.
- HandshakeIsSafe: parsing of message bodies, signatures and key shares succeed or fail as inputs of a step.
- ClientDone: False Start and the early return after it are a wait; application data during it is not modelled.
- RetryRepeatsNothing: session state filled in before a retry, such as a PSK identity, is not modelled.
- RunHandshake: records that arrive during the call are not modelled, the input is what had arrived when it started; renegotiation does not occur.
- ReleasedIsPrefixOfSent: the handshake machine on top is reduced to reading, taking messages and the ChangeCipherSpec, and switching the read epoch after it, at any time.
- OpenRecord: alerts and close_notify are fatal to the reader; their processing is not modelled.
- RecordNumbersUnique: records of application data and alerts are sealed by the same function but are no action of the system.
- FlightIsSent: retransmission timers, and when to retransmit, are left to the caller.
- ScheduleSealsOnce: the error codes behind -1, early data limits and write shutdown are not modelled.
- MessagesInOrder: V2ClientHello and the protocol mix-up errors before the first record are not modelled.
- RunRefinesLocked: the memory is sequentially consistent, as the default order of the C11 operations is.
- SelectPremaster: timing itself is not modelled; only the value computed is.
- nanopb callbacks, extensions, pointer fields, delimited and null-terminated decoding: user code or other entry points.
- TLS 1.3, SSL 3.0, early data and handoff: separate machines or special cases.
- Certificate chains, sessions, tickets and caches: contents are opaque.
- DTLS timers, the fallback MTU after timeouts, and `SSL_OP_NO_QUERY_MTU` set together with a small MTU: the assertion there is not part of this model.
- Memory allocation failures, error queues, alerts as side effects, info and message callbacks: glue.
- The Swift app, Firebase, SRTP, platform wrappers and generated tables: no logic of this kind.
