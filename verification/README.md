# Verified models of the nanopb codec and of the DTLS handshake transport

Two cores of the vendored C and C++ under `inclass/miles/Pods` are modelled here in Dafny, and the
properties they are for are proved.

## The nanopb codec

nanopb prints and parses the Protocol Buffers wire format (Protocol Buffers Encoding: "Base 128
Varints", "Signed Integers", "Message Structure", "Packed Repeated Fields") from descriptor tables.

* `bits`, `varint`: machine words as naturals, the varint encoder, the 64-bit decoder and the 32-bit
  decoder with its 8-bit shift position.
* `descriptor`, `wire`, `encoder`, `decoder`: descriptor tables, message values, and what the encoder
  writes and the decoder makes of a byte string, as functions. A message is a sequence of slots, one
  per field; the fields of a oneof share one.
* `input_stream`, `field_iter`, `message_decoder`, `output_stream`, `message_encoder`: the code as it
  runs, with streams, iterator, bitmap and the two encoding passes updated in place, each method proved
  against those functions.
* `roundtrip`, `streams`, `ordering`, `packing`: what is proved about them - round trip, merging,
  unknown fields, reordering, packing.
* `codec`: encoder and decoder as they run, one after the other.
* `required`, `contents`: what a byte string must hold to be decoded, and what the decoded message holds.
* `presence`, `skipping`: which members are written and which messages refused, and that what is written can be
  skipped by a reader that does not know it.

Facts of the code worth knowing, all part of the model:

* A zero key ends a message. For a message type without fields, tag 0 is *found* (it is the terminating
  table entry) and decoding it is an error.
* The wire type of a known field that cannot be packed is not checked.
* The documented merge of two messages does not hold for fixed-count arrays; `Streams.MergeExactly` says
  exactly when. Reordering fields is safe exactly with at most one such array (`Ordering.OrderDecided`).
* A default is not sent for proto3 singular members, unless it holds fixed-length bytes or required fields
  (`Presence.ZeroExactly`).
* A oneof whose stored tag names no field of the message is an error when one of its members arrives.
* The 32-bit varint decoder accepts some numbers that do not fit; `Varint.Read32Exactly` says which.
* The build sets 32-bit field descriptors, so sizes are limited by 2^32 - 1 and a bytes array has a
  four-byte header. Lengths are cast to 64 bits when written.
* The proto3 zero test reads a count where a fixed-count array has none: it takes the first four bytes of
  the array. A proto3 singular submessage whose arrays begin with zeros, and which holds nothing else, is
  not sent (`RoundTrip.LostMessage`); `RoundTrip.RoundTripExactly` says exactly when that happens.
* A static descriptor is finite, so recursion over submessage types is well founded.

## The DTLS handshake transport

The BoringSSL code implements RFC 6347: records with epochs and sequence numbers (section 4.1), the
anti-replay window (4.1.2.6), handshake messages cut into fragments and put together again (4.2.2,
4.2.3), transcript bytes (4.2.6), timeout and retransmission (4.2.4).

* `network_order`, `handshake_format`: header integers and the twelve-byte handshake header.
* `replay_window`, `record_reader`: the 64-bit replay map against the set of numbers it stands for, and
  opening a record.
* `record_writer`: the byte-wise sequence counter, sealing a record, and the uniqueness of
  (epoch, number) pairs over whole runs.
* `reassembly`: one message under assembly and its bitmask.
* `handshake_receiver` (a value-level specification) and `handshake_ring` (the class that refines it):
  the ring of seven messages, delivery, and cipher changes.
* `flight` (cursor, pieces, tiling), `flight_pass` (a pass as a list of datagram attempts), `clean_pass`
  (when everything can be sealed), `sender_history` (what was submitted and the keys of each epoch, and
  that queue, transcript and wire hold nothing else) and `flight_sender` (the class): queueing, sealing,
  packing into datagrams, blocked writes, retransmission.
* `transport`: sender, network and receiver as one transition system, through all epochs.
* `change_cipher`: ChangeCipherSpecs and cipher changes over whole runs.
* `flight_delivery`: from a finished pass to the messages handed out; `record_delivery`: the same from the bytes of
  its datagrams, read record by record.
* `sender_state`, `endpoint`: a sender and a whole endpoint as values, and what each step does to them.
* `connection`: record layer, ring and sender put together, each step proved against `endpoint`;
  `authenticity`: what opens was sealed by the peer, and what was sealed opens; `session`: two endpoints and a network,
  over every run.
* `timer`: the retransmission timer.

Facts of the code worth knowing, all part of the model:

* A fragment with sequence number exactly read_seq + 7 passes the filter for messages too far ahead and
  then becomes an error, since the ring has seven slots.
* A sequence counter that runs over wraps to zero. The sealing call that does it reports failure, but
  nothing stops a later one, which then reuses number 0 (`RecordWriter.PairReused`);
  `RecordWriter.NoPairReused` gives the exact limit.
* A blocked write puts the cursor back; a failed sealing does not. Pieces sealed into the abandoned
  datagram are then never written in that pass (`FlightPass.DroppedPiece`); `FlightPass.TilesExactly`
  says exactly when that happens.
* Doubling the timer is done in 32 bits before the cap, so a very large initial duration can overflow
  below it (`RetransmitTimer.FirstDoubling`).

AEAD sealing and opening are function-valued parameters (with the stated bound on the growth of what is sealed);
clock readings, MTU answers, further failures of sealing and the outcome of every write and flush are parameters.

## Model

| member | source | states |
|---|---|---|
| RoundTrip.MessageRoundTrip | inclass/miles/Pods/nanopb/pb_decode.c:901-1063 | For every well-formed static descriptor (distinct nonzero tags; required, has-flag optional, proto3 singular, packed and unpacked repeated, fixed-count, oneof and nested submessage fields) and every message in normal form, encoding succeeds and decoding the result from scratch gives what arrives of the message - all of it but proto3 singular members that pass the zero test - provided the payload of each submessage and packed array is below 4 GiB |
| RoundTrip.RoundTripExactly | inclass/miles/Pods/nanopb/pb_encode.c:215-303 | The same message comes back exactly when at no level a proto3 singular submessage that holds a nonempty fixed-count array passes the zero test, which looks only at the first four bytes of such an array |
| RoundTrip.AlwaysKept | inclass/miles/Pods/nanopb/pb_encode.c:215-303 | So every message comes back for descriptors without fixed-count arrays in proto3 singular submessages |
| RoundTrip.LostMessage | inclass/miles/Pods/nanopb/pb_encode.c:225-229 | A message that does not: an array of two whose first element is zero is encoded as nothing |
| RoundTrip.ShortReadable | inclass/miles/Pods/nanopb/pb_decode.c:367-380 | That proviso holds for every message whose whole encoding is below 4 GiB |
| RoundTrip.EncodeTotal | inclass/miles/Pods/nanopb/pb_encode.c:494-516 | Every normal message of a well-formed descriptor has an encoding: no encoder error is reachable |
| RoundTrip.ZeroMessage | inclass/miles/Pods/nanopb/pb_encode.c:215-303 | A submessage that passes the proto3 zero test, and is therefore left out by the encoder, is the default submessage the decoder starts from exactly when it cannot hold a nonempty fixed-count array |
| RoundTrip.PackedRead | inclass/miles/Pods/nanopb/pb_decode.c:419-448 | A packed run decodes to exactly its elements, appended to what the array held, whenever they fit |
| Skipping.EncodingSkipped | inclass/miles/Pods/nanopb/pb_encode.c:641-672 | Everything the encoder writes for a normal message can be skipped: a reader with any descriptor that lacks its tags splits it at the same places into fields with the same tags and wire types |
| Skipping.EncodingDelimits | inclass/miles/Pods/nanopb/pb_encode.c:641-672 | It is a list of fields in the order of the table, each with the key 8 * tag + wire type, where that number is 0 for varints, 1 for eight bytes, 5 for four and 2 for all else, and each as long as that number says: up to the end of a varint, 8, 4, or a length and so many bytes |
| Skipping.UnknownSkipped | inclass/miles/Pods/nanopb/pb_decode.c:316-326 | An unknown field is skipped exactly when the number of its wire type is 0, 1, 2 or 5 and the payload is there, and takes just that payload |
| Skipping.KnownTaken | inclass/miles/Pods/nanopb/pb_decode.c:401-459 | A known field is read exactly when the payload its type calls for is there, and takes just that payload |
| Skipping.WireTypeIgnored | inclass/miles/Pods/nanopb/pb_decode.c:401-417 | A known field that is not a packable array is read and stored in the same way whatever its wire type |
| Skipping.ZeroKeyEnds | inclass/miles/Pods/nanopb/pb_decode.c:293-314 | A zero key ends the message, whatever follows |
| Skipping.BadKeyRefused | inclass/miles/Pods/nanopb/pb_decode.c:293-303 | A key that is cut off or too long is an error, not the end of the message |
| RequiredFields.DecodesExactly | inclass/miles/Pods/nanopb/pb_decode.c:1000-1049 | A stream whose records can all be stored decodes exactly when each of the first 64 required fields has a record with its tag and the fixed-count array met last is full |
| RequiredFields.RequiredOccur | inclass/miles/Pods/nanopb/pb_decode.c:1007-1046 | So whatever decodes had a record for each of the first 64 required fields |
| Contents.MessageFits | inclass/miles/Pods/nanopb/pb_decode.c:397-475 | From contents that fit, every accepted byte string leads to contents that fit, at every level: numbers in range of their members, no bytes, string or array longer than its member has room for, and unions holding the member their tag names |
| Contents.DecodedFits | inclass/miles/Pods/nanopb/pb_decode.c:1051-1063 | The same from scratch, for every descriptor whose members have room for their defaults |
| Contents.ArraysFull | inclass/miles/Pods/nanopb/pb_decode.c:964-1004 | In whatever decodes, a fixed-count array of which anything came is full |
| Contents.DecodedUntouched | inclass/miles/Pods/nanopb/pb_decode.c:919-997 | A member keeps what it held unless some record is for it or for another member of its union |
| Contents.NumberExactly | inclass/miles/Pods/nanopb/pb_decode.c:1289-1374 | A varint is accepted exactly when the number it stands for - zig-zag, unsigned, or two's complement of 64 or of the low 32 bits - fits its member, and is stored as that number |
| Contents.BlobExactly | inclass/miles/Pods/nanopb/pb_decode.c:1393-1461 | Bytes, strings and fixed-length bytes are accepted exactly when they fit with their length or terminator, or are as long as the member; empty fixed-length bytes stand for zeros |
| Contents.UnionReplaced | inclass/miles/Pods/nanopb/pb_decode.c:1104-1128 | A used union is replaced like an empty one when its tag names a field, and refused otherwise |
| Contents.EmptyMessage | inclass/miles/Pods/nanopb/pb_decode.c:812-899 | Nothing at all decodes exactly when none of the first 64 required fields is asked for, and then to initial values: those of the descriptor, zeros, empty arrays, absent optional members and unused unions |
| Presence.WrittenExactly | inclass/miles/Pods/nanopb/pb_encode.c:307-392 | A normal message has bytes for exactly its required fields, set has_ flags, nonempty arrays, selected union members, and proto3 singular members that hold something else than a default that can be left out |
| Presence.ZeroExactly | inclass/miles/Pods/nanopb/pb_encode.c:215-303 | Where no fixed-count array is, the zero test passes exactly on a default without required fields and without fixed-length bytes, at every level |
| Presence.OverlongRefused | inclass/miles/Pods/nanopb/pb_encode.c:126-135 | A message with more elements than an array has room for, or with a present byte string that does not fit, is not encoded at all |
| Presence.ValueAccepted | inclass/miles/Pods/nanopb/pb_encode.c:734-868 | A number is written exactly when it is in range of its member, and a byte string exactly when it fits; a string that fills its buffer is written without a terminator |
| Presence.StringCut | inclass/miles/Pods/nanopb/pb_encode.c:831-855 | A string is cut at its first NUL |
| Presence.CountLiteral | inclass/miles/Pods/nanopb/pb_encode.c:225-229 | What the zero test reads as the count of a fixed-count array is its first four bytes in memory, byte by byte: of numbers in two's complement, of fixed-length bytes, or of the length a bytes array begins with |
| Streams.MergeExactly | inclass/miles/Pods/nanopb/pb_decode.c:901-1049 | If decoding e1 takes m to m1 and decoding e2 takes m1 to m2, decoding e1 followed by e2 takes m to m2, for every descriptor, except exactly when the last fixed-count array in e1 is nonempty and also the first in e2: then it is an error (the merge promise of pb_decode.h:74-75) |
| Streams.MergeFails | inclass/miles/Pods/nanopb/pb_decode.c:964-1004 | A concrete two-byte message for which the documented merge is refused |
| Streams.SubmessageParts | inclass/miles/Pods/nanopb/pb_decode.c:1463-1485 | The same holds of a submessage that comes in two parts: it is the one whose payload is both parts, one after the other |
| Streams.UnknownFieldTransparent | inclass/miles/Pods/nanopb/pb_decode.c:933-962 | One well-formed field with a tag the descriptor lacks, inserted at any field boundary of any stream, changes neither success nor the decoded message |
| Streams.LexConcat | inclass/miles/Pods/nanopb/pb_decode.c:919-962 | Whole fields, put one after the other in any order and before anything, split into just these fields again |
| Streams.FieldOrderIrrelevant | inclass/miles/Pods/nanopb/pb_decode.c:919-997 | Whole fields in any two orders that agree within every field and every oneof, with any rest after them, decode with the same success and to the same message, for descriptors with at most one fixed-count array (the case the comment at lines 908-911 is about) |
| Streams.SwapMatters | inclass/miles/Pods/nanopb/pb_decode.c:964-1004 | After any accepted message that ends in a full nonempty fixed-count array j, fields that fill another such array i and then fields that fill j are accepted, and the other way round refused |
| Streams.OrderFreeExactly | inclass/miles/Pods/nanopb/pb_decode.c:964-1004 | For every descriptor some message of which decodes and whose fixed-count arrays can be filled, order within the members is all that matters exactly when there is at most one fixed-count array |
| Ordering.OrderDecided | inclass/miles/Pods/nanopb/pb_decode.c:908-1004 | The same for every well-formed descriptor of which some message can be sent and whose fixed-count arrays are nonempty: decodability and filling are derived |
| Streams.Slotwise | inclass/miles/Pods/nanopb/pb_decode.c:919-997 | The decoding loop acts on each member of the struct independently: its final contents are a fold over the records of that member alone |
| Packing.PackingIrrelevant | inclass/miles/Pods/nanopb/pb_decode.c:419-459 | Any two splits of the same elements into packed runs and single unpacked elements leave the decoder in the same state, or both fail, whatever follows |
| Packing.ChunksRead | inclass/miles/Pods/nanopb/pb_decode.c:419-459 | Such a split appends exactly its elements when they fit array_size, and fails when they do not |
| Packing.PackedSplits | inclass/miles/Pods/nanopb/pb_decode.c:419-448 | Every packed run that is accepted, whatever its bytes, is a row of whole elements and nothing else, and their values are what the array gains |
| Varint.RoundTrip64 | inclass/miles/Pods/nanopb/pb_decode.c:250-270 | For every 64-bit v the decoder takes exactly the 1 to 10 bytes of the encoding of v and returns v, whatever follows |
| Varint.EncodeGroups | inclass/miles/Pods/nanopb/pb_encode.c:574-594 | Byte i of an encoding holds bits 7i to 7i + 6, and a flag that says whether more follow |
| Varint.EncodeSize | inclass/miles/Pods/nanopb/pb_encode.c:574-594 | There are just as many bytes as the number needs |
| Varint.Read64LoopCorrect | inclass/miles/Pods/nanopb/pb_decode.c:250-270 | The shifting loop computes the number the groups denote, modulo 2^64, and gives up on an eleventh byte |
| Varint.RoundTrip32 | inclass/miles/Pods/nanopb/pb_decode.c:182-240 | The 32-bit decoder returns every v below 2^32 |
| Varint.SignExtendedRoundTrip | inclass/miles/Pods/nanopb/pb_decode.c:216-224 | A negative int32, sign-extended to ten bytes, comes out as its low 32 bits |
| Varint.Read32Exactly | inclass/miles/Pods/nanopb/pb_decode.c:208-236 | Of the 64-bit numbers that do not fit, the 32-bit decoder accepts in canonical form exactly those with bits 31 and 63 set and each 7-bit group from bit 35 to 62 all zeros or all ones |
| Varint.OversizedAccepted | inclass/miles/Pods/nanopb/pb_decode.c:218-224 | So it does not refuse every number that does not fit |
| Varint.DecodersAgree | inclass/miles/Pods/nanopb/pb_decode.c:182-270 | On every encoding of at most ten bytes that the 32-bit decoder accepts, both decoders take the same bytes and agree modulo 2^32 |
| Varint.Read32Local | inclass/miles/Pods/nanopb/pb_decode.c:182-240 | The 32-bit decoder looks at no byte past the end of the encoding |
| Descriptor.ZigZagRoundTrip | inclass/miles/Pods/nanopb/pb_encode.c:596-605 | Zig-zag coding inverts for every int64 |
| Descriptor.ZigZagCode | inclass/miles/Pods/nanopb/pb_encode.c:596-605 | The code of n is 2n, and of a negative n -2n - 1 |
| Descriptor.LittleEndianRoundTrip | inclass/miles/Pods/nanopb/pb_encode.c:607-633 | Fixed-width words invert |
| Wire.LexAppend | inclass/miles/Pods/nanopb/pb_decode.c:919-962 | A stream of whole fields splits into the same records whatever is appended to it |
| Wire.ReadRecordLocal | inclass/miles/Pods/nanopb/pb_decode.c:933-962 | Reading a field depends on, and takes, exactly its own bytes |
| InputStream.IStream.Read | inclass/miles/Pods/nanopb/pb_decode.c:100-133 | Reads exactly count bytes or fails, never past bytes_left, and moves by what it read |
| InputStream.IStream.DecodeVarint | inclass/miles/Pods/nanopb/pb_decode.c:250-270 | The loop over the stream is the declarative 64-bit decoder on the bytes left |
| InputStream.IStream.DecodeVarint32 | inclass/miles/Pods/nanopb/pb_decode.c:182-242 | The loop over the stream, with its 8-bit bit position, is the 32-bit decoder on the bytes left; eof is reported exactly on an empty stream |
| InputStream.IStream.DecodeTag | inclass/miles/Pods/nanopb/pb_decode.c:293-314 | Splits the key into tag and wire type; a zero key reads as the end of the message |
| InputStream.IStream.SkipField | inclass/miles/Pods/nanopb/pb_decode.c:316-326 | Takes exactly the payload the wire type prescribes |
| InputStream.IStream.MakeStringSubstream | inclass/miles/Pods/nanopb/pb_decode.c:367-380 | The substream covers exactly the payload and no more |
| InputStream.IStream.CloseStringSubstream | inclass/miles/Pods/nanopb/pb_decode.c:382-395 | The parent ends exactly past the payload however much of it the inner decoder took |
| FieldIter.Iter.Next | inclass/miles/Pods/nanopb/pb_common.c:20-76 | After any mix of steps and searches the data offset, size offset and required index equal folds over the fields before the position; the walk wraps at the end |
| FieldIter.Iter.Find | inclass/miles/Pods/nanopb/pb_common.c:78-95 | Succeeds exactly when some field has the tag, and stands on the first one met going round from where it stood; a failed search returns to where it started |
| FieldIter.FieldsDisjoint | inclass/miles/Pods/nanopb/pb_common.c:34-69 | Members of any two fields that are not of the same oneof occupy disjoint bytes of the struct, exactly when the field after each oneof is padded past its largest member |
| FieldIter.SizeRelative | inclass/miles/Pods/nanopb/pb_common.c:70-73 | Flag, count or tag of a field lie at the stated distance from its data, and members of a union share those of the first |
| MessageDecoder.DecScalar | inclass/miles/Pods/nanopb/pb_decode.c:1289-1461 | The field decoders agree with the specification on success, value and bytes taken, including the width check of integers and the size checks of strings and bytes |
| MessageDecoder.DecSubmessage | inclass/miles/Pods/nanopb/pb_decode.c:1463-1485 | A submessage decodes on top of the old contents within its own length, and the outer stream ends just past it |
| MessageDecoder.DecPacked | inclass/miles/Pods/nanopb/pb_decode.c:421-448 | A packed run is decoded to its end or refused when it overflows the array; its length is deducted either way, and after a refusal the stream stands at one end of the payload |
| MessageDecoder.DecodeStaticField | inclass/miles/Pods/nanopb/pb_decode.c:401-475 | Storing the payload of a known field in required, optional, repeated or oneof storage is what the specification says, for every wire type |
| MessageDecoder.ReleaseUnionField | inclass/miles/Pods/nanopb/pb_decode.c:1104-1128 | Releasing a used oneof fails exactly when its stored tag names no field, and otherwise comes back to the field at hand |
| MessageDecoder.SetToDefaults | inclass/miles/Pods/nanopb/pb_decode.c:812-899 | Walking the iterator sets every member to its default, recursively |
| MessageDecoder.AllSeen | inclass/miles/Pods/nanopb/pb_decode.c:1024-1046 | The word-wise bitmap test passes exactly when each of the first 64 required indices is marked |
| MessageDecoder.RequiredSeenMarks | inclass/miles/Pods/nanopb/pb_decode.c:988-1046 | Testing the marked indices is testing the fields: required indices and required fields are in bijection |
| MessageDecoder.CountRequired | inclass/miles/Pods/nanopb/pb_decode.c:1012-1023 | Walking to the end of the table counts the required fields |
| MessageDecoder.DecodeLoop | inclass/miles/Pods/nanopb/pb_decode.c:919-997 | The loop with its iterator, bitmap and fixed-count bookkeeping is the fold over the records of the bytes left; it ends on every input with bytes_left as the measure |
| MessageDecoder.DecodeNoinit | inclass/miles/Pods/nanopb/pb_decode.c:901-1049 | The decoder as it runs succeeds exactly when the specification does, with the same message, and never reads past the stream |
| MessageDecoder.Decode | inclass/miles/Pods/nanopb/pb_decode.c:1051-1063 | The same for decoding from defaults |
| OutputStream.OStream.Write | inclass/miles/Pods/nanopb/pb_encode.c:101-119 | Succeeds exactly when the bytes fit, and then has appended exactly them, or only counted them on a sizing stream |
| OutputStream.OStream.EncodeVarint | inclass/miles/Pods/nanopb/pb_encode.c:574-594 | The shifting loop over the ten-byte buffer writes the varint bytes |
| OutputStream.OStream.EncodeSvarint | inclass/miles/Pods/nanopb/pb_encode.c:596-605 | Writes the varint of the zig-zag code |
| MessageEncoder.CheckProto3Default | inclass/miles/Pods/nanopb/pb_encode.c:215-303 | The iterative test is the recursive zero test, in which the first four bytes of an array without a count member stand for its count |
| Encoder.CountDetermined | inclass/miles/Pods/nanopb/pb_encode.c:225-229 | For the element types in scope the elements determine these four bytes |
| MessageEncoder.MeasureString | inclass/miles/Pods/nanopb/pb_encode.c:831-855 | The measured prefix is the C string in the buffer |
| MessageEncoder.EncodeSubmessage | inclass/miles/Pods/nanopb/pb_encode.c:682-730 | Sizing and then writing a submessage emits its length and its bytes; the check that the size has not changed never fires |
| MessageEncoder.WriteSized | inclass/miles/Pods/nanopb/pb_encode.c:704-729 | The second pass writes exactly as many bytes as the first one counted |
| MessageEncoder.SizePacked | inclass/miles/Pods/nanopb/pb_encode.c:145-165 | The product for fixed-width elements and the counting pass for the others both give the true length of the packed data |
| MessageEncoder.EncodePacked | inclass/miles/Pods/nanopb/pb_encode.c:139-181 | Key, length and elements of a packed array, or their count |
| MessageEncoder.EncodeStaticArray | inclass/miles/Pods/nanopb/pb_encode.c:126-211 | An array that is longer than array_size is refused; any other is written as the specification says |
| MessageEncoder.EncodeBasicField | inclass/miles/Pods/nanopb/pb_encode.c:307-392 | Presence, oneof selection and the proto3 zero test decide what is written |
| MessageEncoder.EncodeMessage | inclass/miles/Pods/nanopb/pb_encode.c:494-516 | Into a buffer, encoding succeeds exactly when the message has an encoding and it fits, and then has written exactly that; on a sizing stream it counts exactly its length |
| MessageEncoder.GetEncodedSize | inclass/miles/Pods/nanopb/pb_encode.c:533-542 | The reported size is the length of the encoding |
| Codec.NormalShaped | inclass/miles/Pods/nanopb/pb_encode.c:494-516 | Every normal message of a well-formed descriptor is a struct the running encoder handles, whatever stands in absent members |
| Codec.EncodeAndDecode | inclass/miles/Pods/nanopb/pb_encode.c:494-516 | The running encoder writes a normal message into a buffer exactly when it fits, and the running decoder makes of the bytes written what arrives of it: the same message exactly when it is kept |
| Codec.EncodeToFit | inclass/miles/Pods/nanopb/pb_encode.c:533-542 | A buffer of the reported size takes the encoding, and is filled by it |
| NetworkOrder.BigEndianRoundTrip | inclass/miles/Pods/BoringSSL-GRPC/ssl/d1_both.cc:171-177 | Big-endian header integers invert |
| ReplayWindow.ToU64 | inclass/miles/Pods/BoringSSL-GRPC/ssl/dtls_record.cc:128-136 | Shifting eight bytes together gives the big-endian number |
| ReplayWindow.Window.ShouldDiscard | inclass/miles/Pods/BoringSSL-GRPC/ssl/dtls_record.cc:140-150 | Against the set of all numbers recorded since the last reset: a number is discarded exactly when it was recorded before or is at least 64 below a recorded one |
| ReplayWindow.Window.Record | inclass/miles/Pods/BoringSSL-GRPC/ssl/dtls_record.cc:155-175 | Recording adds exactly that number to the set, however far the 64-bit map has to be shifted |
| RecordReader.Reader.Open | inclass/miles/Pods/BoringSSL-GRPC/ssl/dtls_record.cc:177-272 | A record is accepted exactly when it is well formed, of the read epoch, not a replay and authentic; only then is its number recorded; and how many bytes are consumed |
| Authenticity.FrontAccepted | inclass/miles/Pods/BoringSSL-GRPC/ssl/dtls_record.cc:196-271 | Every record of the read epoch made with matching keys, standing in front of any datagram, with version 0xfe00 to 0xfeff before encryption or the negotiated one after, a ciphertext of at most 16704 and a plaintext of at most 16384 bytes, and a number that is neither recorded nor 64 or more below a recorded one, is accepted as its type, number and plaintext, and takes just its own bytes |
| Authenticity.OtherVersionDropped | inclass/miles/Pods/BoringSSL-GRPC/ssl/dtls_record.cc:207-220 | Any other version is dropped with the whole datagram: before encryption, any whose first byte is not 0xfe |
| Authenticity.StaleDropped | inclass/miles/Pods/BoringSSL-GRPC/ssl/dtls_record.cc:225-236 | A record of another epoch, a replay, and one 64 or more below a recorded number are dropped |
| Authenticity.LongPlainRefused | inclass/miles/Pods/BoringSSL-GRPC/ssl/dtls_record.cc:254-259 | A record that opens to more than 16384 bytes is an error |
| Authenticity.BrokenDropped | inclass/miles/Pods/BoringSSL-GRPC/ssl/dtls_record.cc:196-203 | A datagram too short for its header or its length field is dropped, and so is a record that does not open |
| RecordReader.NoReplay | inclass/miles/Pods/BoringSSL-GRPC/ssl/dtls_record.cc:225-259 | Over every run of datagrams and cipher changes, while the 16-bit epoch does not wrap, no record number is accepted twice |
| RecordWriter.SequenceUpdate | inclass/miles/Pods/BoringSSL-GRPC/ssl/tls_record.cc:154-163 | The byte-wise carry counts the big-endian number up, wrapping all ones to zero and reporting that |
| RecordWriter.IncrementAdds | inclass/miles/Pods/BoringSSL-GRPC/ssl/tls_record.cc:154-163 | The carry adds one, and fails exactly at the largest number |
| RecordWriter.Writer.SealRecord | inclass/miles/Pods/BoringSSL-GRPC/ssl/dtls_record.cc:294-346 | Succeeds exactly when there is room, the AEAD does not fail, the counter does not wrap and the ciphertext fits its length field; what the record consists of, its bound, and that exactly an AEAD sealing uses up the pair |
| RecordWriter.Writer.SetWriteState | inclass/miles/Pods/BoringSSL-GRPC/ssl/dtls_method.cc:97-107 | A key change starts the next epoch at number zero and keeps the old counter for retransmissions |
| RecordWriter.NoPairReused | inclass/miles/Pods/BoringSSL-GRPC/ssl/dtls_record.cc:294-335 | Over every run of new records, previous-epoch records, failures and key changes (epoch not wrapping), no two sealings use the same (epoch, number) pair exactly when no epoch seals more than 2^48 records |
| RecordWriter.PairReused | inclass/miles/Pods/BoringSSL-GRPC/ssl/dtls_record.cc:294-335 | The limit can be passed: 2^48 + 1 sealings in one epoch are a legal run that uses a pair twice |
| RecordWriter.PairAt | inclass/miles/Pods/BoringSSL-GRPC/ssl/dtls_record.cc:302-328 | The pair of a record is its epoch and the number of records that epoch had sealed before, modulo 2^48 |
| RecordWriter.RecordParses | inclass/miles/Pods/BoringSSL-GRPC/ssl/dtls_record.cc:314-340 | The receiver parses a sealed record, whatever follows it, into what went into it, with epoch and counter as its number |
| RecordWriter.RecordLiteral | inclass/miles/Pods/BoringSSL-GRPC/ssl/dtls_record.cc:314-340 | The thirteen header bytes of a sealed record, one by one |
| RecordWriter.RecordTooLong | inclass/miles/Pods/BoringSSL-GRPC/ssl/dtls_record.cc:196-203 | A record with a ciphertext over the limit is not parsed |
| HandshakeFormat.FragmentRoundTrip | inclass/miles/Pods/BoringSSL-GRPC/ssl/d1_both.cc:459-473 | Parsing a fragment gives back the header and body that were written, whatever follows |
| HandshakeFormat.HeaderLiteral | inclass/miles/Pods/BoringSSL-GRPC/ssl/d1_both.cc:701-720 | The twelve header bytes of a fragment, one by one |
| Reassembly.BitRangeBits | inclass/miles/Pods/BoringSSL-GRPC/ssl/d1_both.cc:203-205 | Computed in 32 bits and truncated, the byte has exactly the bits from start to end |
| Reassembly.HmFragment.constructor | inclass/miles/Pods/BoringSSL-GRPC/ssl/d1_both.cc:152-199 | A new message has its header in place and nothing received |
| Reassembly.HmFragment.SetBits | inclass/miles/Pods/BoringSSL-GRPC/ssl/d1_both.cc:227-238 | The bits set afterwards are those set before and exactly the marked range |
| Reassembly.HmFragment.AllReceived | inclass/miles/Pods/BoringSSL-GRPC/ssl/d1_both.cc:240-250 | The byte-wise test passes exactly when every byte of the message is marked |
| Reassembly.HmFragment.Mark | inclass/miles/Pods/BoringSSL-GRPC/ssl/d1_both.cc:211-251 | The mask denotes the union of the marked ranges, no bit at or past the length is ever set, and it is dropped exactly when the union is the whole message |
| Reassembly.HmFragment.Take | inclass/miles/Pods/BoringSSL-GRPC/ssl/d1_both.cc:393-402 | A fragment puts its bytes in place; a complete message ignores it |
| Reassembly.SlicesAssemble | inclass/miles/Pods/BoringSSL-GRPC/ssl/d1_both.cc:393-402 | Any slices of one message, in any order, overlapping and repeated, complete it exactly when they cover it, and then it is that message |
| Reassembly.LaterStays | inclass/miles/Pods/BoringSSL-GRPC/ssl/d1_both.cc:393-402 | Of bytes that come twice the later ones stay, until the message is complete; then it ignores what arrives |
| HandshakeRing.Ring.GetIncoming | inclass/miles/Pods/BoringSSL-GRPC/ssl/d1_both.cc:265-295 | The slot for a fragment, begun when there is none; refused exactly outside the ring or when type or length contradict earlier fragments |
| HandshakeRing.Ring.AcceptFragment | inclass/miles/Pods/BoringSSL-GRPC/ssl/d1_both.cc:362-402 | One fragment, with the bounds checks, the single-message rule of epoch 1, and the filter that lets read_seq plus the ring size through to an error |
| HandshakeRing.Ring.OpenHandshake | inclass/miles/Pods/BoringSSL-GRPC/ssl/d1_both.cc:297-406 | An opened record is handled as the specification says; on an error the fragments before it have taken effect |
| HandshakeRing.Ring.GetMessage | inclass/miles/Pods/BoringSSL-GRPC/ssl/d1_both.cc:408-424 | The next message in sequence with its body and raw bytes, exactly when it is complete |
| HandshakeRing.Ring.NextMessage | inclass/miles/Pods/BoringSSL-GRPC/ssl/d1_both.cc:426-432 | The ring frees the slot and moves to the next number |
| Connection.Connection.NextMessage | inclass/miles/Pods/BoringSSL-GRPC/ssl/d1_both.cc:426-438 | The same on the connection: a flight that was sent is marked as replied to |
| HandshakeRing.Ring.HasUnprocessedData | inclass/miles/Pods/BoringSSL-GRPC/ssl/d1_both.cc:440-457 | True exactly when a ChangeCipherSpec or a message besides the one being processed is left |
| HandshakeRing.Ring.SetReadState | inclass/miles/Pods/BoringSSL-GRPC/ssl/dtls_method.cc:81-89 | The ring moves to the next epoch exactly when nothing is left over |
| Connection.Connection.SetReadState | inclass/miles/Pods/BoringSSL-GRPC/ssl/dtls_method.cc:81-95 | The same on the connection: epoch, replay window and keys of the record layer change together with it, or not at all |
| Connection.Connection.OpenHandshake | inclass/miles/Pods/BoringSSL-GRPC/ssl/d1_both.cc:297-406 | What the record layer accepts, and nothing else, reaches the ring; what the receiving side holds stays faithful to the peer as long as handshake records are the peer's |
| Connection.Connection.OpenChangeCipherSpec | inclass/miles/Pods/BoringSSL-GRPC/ssl/d1_both.cc:475-495 | A flagged ChangeCipherSpec is taken without a record; otherwise a record is opened and handled first |
| Authenticity.FrontOpens | inclass/miles/Pods/BoringSSL-GRPC/ssl/dtls_record.cc:177-272 | From a datagram that begins with one of the peer's records the record layer takes what the peer put into it, under the matching keys |
| Authenticity.AcceptedSealed | inclass/miles/Pods/BoringSSL-GRPC/ssl/dtls_record.cc:177-272 | What the record layer accepts from a datagram that is not forged, the peer has sealed |
| Connection.Connection.AuthenticFromPeer | inclass/miles/Pods/BoringSSL-GRPC/ssl/d1_both.cc:297-406 | So a handshake record accepted from such a datagram is a slice of a message the peer submitted |
| Connection.Connection.GetMessage | inclass/miles/Pods/BoringSSL-GRPC/ssl/d1_both.cc:408-424 | The message handed out is the next one the peer submitted, with its transcript bytes |
| Session.Exchange | inclass/miles/Pods/BoringSSL-GRPC/ssl/d1_both.cc:297-438 | Two running endpoints, with any keys, and any steps of either in any order, on any datagrams and with any clock, go through the states these steps prescribe. If no datagram that was opened was forged, no side sent 2^16 messages and no epoch wrapped, each side has delivered a prefix of what the other has sent, and its raw bytes are the front of the other's transcript |
| Session.Act | inclass/miles/Pods/BoringSSL-GRPC/ssl/d1_both.cc:297-602 | Any step of one endpoint - submitting, sending, timeouts, opening a datagram in either way, taking and finishing messages, new keys - does to it exactly what the step prescribes for its state as a value, and nothing to the other; a regular step keeps both sides faithful to each other |
| ChangeCipher.TakenExactly | inclass/miles/Pods/BoringSSL-GRPC/ssl/d1_both.cc:475-495 | Over every run of records, deliveries and cipher changes: waiting for a ChangeCipherSpec succeeds exactly when an unencrypted record of type 20 holding one byte 1 has come since the last such wait, whatever came in between, or is the record at hand; and after the wait none is pending |
| ChangeCipher.FlagPending | inclass/miles/Pods/BoringSSL-GRPC/ssl/d1_both.cc:319-338 | The flag says exactly that at any moment of any run |
| ChangeCipher.RekeyExactly | inclass/miles/Pods/BoringSSL-GRPC/ssl/dtls_method.cc:81-95 | The read keys change exactly when no ChangeCipherSpec is pending and no message is left besides the one being processed; only the epoch changes, to the next |
| ChangeCipher.OtherRecords | inclass/miles/Pods/BoringSSL-GRPC/ssl/d1_both.cc:306-345 | Application data is an error before encryption and discarded after; an encrypted or malformed ChangeCipherSpec and any unknown type are errors; none of them changes anything |
| HandshakeReceiver.RingInvariant | inclass/miles/Pods/BoringSSL-GRPC/ssl/d1_both.cc:265-457 | In every reachable state the message in slot i has a number congruent to i modulo the ring size, inside the window, and belongs to the current epoch unless it is complete and being processed |
| HandshakeReceiver.StepKeeps | inclass/miles/Pods/BoringSSL-GRPC/ssl/d1_both.cc:265-457 | Every step keeps that, and only messages begun in the current epoch ever take bytes, so none is assembled from two epochs |
| HandshakeReceiver.CurrentSeq | inclass/miles/Pods/BoringSSL-GRPC/ssl/d1_both.cc:255-259 | The slot a message is delivered from holds the next number in sequence |
| Transport.EndToEnd | inclass/miles/Pods/BoringSSL-GRPC/ssl/d1_both.cc:297-457 | Over every run of submitting, transmitting any slices, and any steps of the receiver on anything ever transmitted (lost, duplicated, reordered), with ChangeCipherSpecs and cipher changes, for fewer than 2^16 messages, what is delivered is a prefix of what was sent and its raw bytes are the sender's transcript bytes (RFC 6347, sections 4.2.3 and 4.2.6) |
| Transport.StepFollows | inclass/miles/Pods/BoringSSL-GRPC/ssl/d1_both.cc:297-457 | Each step of the receiver keeps what it holds and has delivered faithful to the sender |
| Transport.GenuineFragment | inclass/miles/Pods/BoringSSL-GRPC/ssl/d1_both.cc:362-391 | A genuine fragment is refused exactly when its message exceeds the length limit, when epoch 1 sees another message than the next, or when its number is read_seq plus the ring size |
| Transport.AnyFragment | inclass/miles/Pods/BoringSSL-GRPC/ssl/d1_both.cc:362-391 | What becomes of any fragment: exactly when it is an error, and when it is ignored |
| Transport.ManyFragments | inclass/miles/Pods/BoringSSL-GRPC/ssl/d1_both.cc:350-404 | A record may hold any number of fragments, which are taken one by one up to the first error; a rest that is too short for a header or its length is an error after them |
| Transport.Progress | inclass/miles/Pods/BoringSSL-GRPC/ssl/d1_both.cc:362-438 | Once records covering the next message have arrived, among any others and in any order, it can be delivered |
| Transport.FlightProgress | inclass/miles/Pods/BoringSSL-GRPC/ssl/d1_both.cc:362-438 | Once records covering the next n messages (seven at most) have arrived, they are handed out in turn |
| FlightDelivery.FlightDelivered | inclass/miles/Pods/BoringSSL-GRPC/ssl/d1_both.cc:362-845 | Once the records of a finished pass in which no sealing failed in mid datagram have arrived, in any order and any number of times among other acceptable ones, the receiver hands out in turn the messages of the flight that are next |
| RecordDelivery.FlightRead | inclass/miles/Pods/BoringSSL-GRPC/ssl/dtls_record.cc:177-272 | The same from the bytes on the wire: once the datagrams of such a pass have arrived, in any order and any number of times, a receiver that reads them record by record with the keys of its epoch has met no error and hands out in turn the next messages, as far as they are in the flight and of that epoch, and has its ChangeCipherSpec - for records within the length limits, of an accepted version, with different numbers within 64 of each other that are not recorded yet |
| RecordDelivery.RecordRead | inclass/miles/Pods/BoringSSL-GRPC/ssl/dtls_record.cc:177-272 | One record of the pass at the front of a datagram: it is taken up, or dropped because it was before or is of another epoch, and reading goes on just past it |
| RecordDelivery.AlertsAside | inclass/miles/Pods/BoringSSL-GRPC/ssl/dtls_record.cc:258-266 | An alert that is accepted enters the replay window and does not reach the handshake |
| Flight.FlightTiled | inclass/miles/Pods/BoringSSL-GRPC/ssl/d1_both.cc:644-780 | The pieces of a finished pass carry every byte of every message exactly once, make up each message in order, and include one piece for each empty message and ChangeCipherSpec |
| Flight.PassTiles | inclass/miles/Pods/BoringSSL-GRPC/ssl/d1_both.cc:644-780 | At any moment of a pass the pieces so far carry exactly the bytes before the cursor |
| Flight.PassInOrder | inclass/miles/Pods/BoringSSL-GRPC/ssl/d1_both.cc:644-780 | Pieces come in message order and byte order |
| FlightSender.Sender.BuildMessage | inclass/miles/Pods/BoringSSL-GRPC/ssl/d1_both.cc:511-537 | A built message is one unfragmented handshake message with the next write number; a body of 2^24 bytes or more is refused |
| FlightSender.Sender.AddOutgoing | inclass/miles/Pods/BoringSSL-GRPC/ssl/d1_both.cc:555-602 | Starts a new flight after a completed one, refuses an eighth message, adds messages but not ChangeCipherSpecs to transcript and numbering |
| FlightSender.Sender.AddMessage | inclass/miles/Pods/BoringSSL-GRPC/ssl/handshake.cc:176-184 | Building a message and adding it succeeds exactly when its body fits 24 bits and the flight has fewer than seven messages, after dropping a completed flight; then queue, transcript, numbering and history have grown by just that message, and otherwise nothing changes but that drop |
| FlightSender.Sender.AddChangeCipherSpec | inclass/miles/Pods/BoringSSL-GRPC/ssl/d1_both.cc:600-602 | The same for a ChangeCipherSpec, which has no number and no place in the transcript |
| FlightSender.Sender.SealNextMessage | inclass/miles/Pods/BoringSSL-GRPC/ssl/d1_both.cc:644-734 | Makes no progress exactly for want of room, fails exactly when the message cannot be sealed or the AEAD, the counter or the length field refuse, and otherwise seals the slice from the cursor on that is as long as the room allows, under the epoch of its message, and moves the cursor past it |
| CleanPass.ReadySeals | inclass/miles/Pods/BoringSSL-GRPC/ssl/d1_both.cc:644-734 | A message whose epoch has keys is sealed, given room, an AEAD with an answer, a number to spare and a datagram within the length of a record |
| CleanPass.PieceFills | inclass/miles/Pods/BoringSSL-GRPC/ssl/d1_both.cc:644-724 | What room a piece needs, and that one that does not finish its message fills the room there is to the last byte |
| FlightSender.Sender.HonestReady | inclass/miles/Pods/BoringSSL-GRPC/ssl/d1_both.cc:511-734 | Conditions a caller can check under which the whole queue of a sender of its own messages can be sealed |
| FlightSender.Sender.SealNextPacket | inclass/miles/Pods/BoringSSL-GRPC/ssl/d1_both.cc:739-780 | A datagram is a series of consecutive pieces, each a protected record, no longer than allowed; sealing it succeeds exactly when there is a piece in it and it takes no more: the flight is at its end, the last piece did not finish its message, or the next message could be sealed but lacks room |
| FlightSender.Sender.SendFlight | inclass/miles/Pods/BoringSSL-GRPC/ssl/d1_both.cc:782-827 | With any MTU and any pattern of blocked writes and failed sealings the datagrams tried continue the pass, one after the other, and sending stops exactly after a shutdown, at a datagram the transport refused, at a failed sealing, or at the end of the flight, where the result is that of flushing; when the queue can be sealed no sealing fails in mid datagram, nor at all in datagrams with room for progress |
| SenderState.AllSent | inclass/miles/Pods/BoringSSL-GRPC/ssl/d1_both.cc:797-821 | So with a transport that takes everything and no failed sealing the flight is written to its end and flushed |
| FlightSender.Sender.UpdateMtu | inclass/miles/Pods/BoringSSL-GRPC/ssl/d1_both.cc:615-632 | An MTU below 228 is replaced by the one the transport offers if that is from 228 to 2^30, and by 1472 otherwise |
| FlightSender.Sender.FlushFlight | inclass/miles/Pods/BoringSSL-GRPC/ssl/d1_both.cc:829-834 | Marks the flight complete, arms the timer, and continues the pass: the attempts it adds, that none drops pieces when the queue can be sealed, and where and why it stops |
| FlightSender.Sender.OnHandshakeComplete | inclass/miles/Pods/BoringSSL-GRPC/ssl/dtls_method.cc:71-79 | Stops the timer, and drops the flight exactly when it had a reply |
| FlightSender.Sender.Retransmit | inclass/miles/Pods/BoringSSL-GRPC/ssl/d1_both.cc:836-845 | Starts a new pass over the same flight, whose attempts begin with the datagrams written now |
| FlightSender.Sender.HandleTimeout | inclass/miles/Pods/BoringSSL-GRPC/ssl/d1_lib.cc:247-267 | Does what the timer says: a new pass exactly when it retransmits, with the new deadline and the attempts of that pass; after two timeouts an acceptable fallback MTU is the one it uses |
| FlightSender.Sender.WholePass | inclass/miles/Pods/BoringSSL-GRPC/ssl/d1_both.cc:782-845 | Once a pass is finished, however many calls it took, the datagrams accepted since it began carry the flight whole exactly when no sealing failed in the middle of a datagram |
| FlightSender.Sender.PassFits | inclass/miles/Pods/BoringSSL-GRPC/ssl/d1_both.cc:798-812 | Each datagram of the pass fitted the MTU it was made for |
| FlightSender.Sender.WireHonest | inclass/miles/Pods/BoringSSL-GRPC/ssl/d1_both.cc:511-734 | Everything a sender of its own messages has put on the wire is a ChangeCipherSpec or a slice of a message it submitted, and its transcript is theirs |
| FlightPass.TilesExactly | inclass/miles/Pods/BoringSSL-GRPC/ssl/d1_both.cc:739-805 | For every list of datagram attempts that finishes the flight, the accepted ones carry it whole exactly when no attempt was a sealing that failed after other pieces |
| FlightPass.FailedSealingDrops | inclass/miles/Pods/BoringSSL-GRPC/ssl/d1_both.cc:760-805 | Any pass whose first pieces were sealed before a sealing failed, and whose rest got out, finishes without having carried the flight: the cursor is not put back |
| FlightPass.DroppedPiece | inclass/miles/Pods/BoringSSL-GRPC/ssl/d1_both.cc:760-805 | Such passes exist, with records as the sender protects them |
| SenderHistory.CarriesSlice | inclass/miles/Pods/BoringSSL-GRPC/ssl/d1_both.cc:701-724 | The plaintext of a record of a queued message is a slice of the message submitted |
| SenderHistory.WireGenuine | inclass/miles/Pods/BoringSSL-GRPC/ssl/d1_both.cc:701-724 | Such a plaintext is a record the end-to-end result lets its sender transmit |
| SenderHistory.DeliveredTranscript | inclass/miles/Pods/BoringSSL-GRPC/ssl/d1_both.cc:574-582 | The raw bytes of what was delivered are the front of the sender's transcript |
| RetransmitTimer.Timer.Start | inclass/miles/Pods/BoringSSL-GRPC/ssl/d1_lib.cc:120-136 | The deadline is exactly the duration after now, normalised; a timer at rest starts from the initial duration |
| RetransmitTimer.Timer.GetTimeout | inclass/miles/Pods/BoringSSL-GRPC/ssl/d1_lib.cc:197-245 | The time left is exactly deadline minus now, zero when expired or under 15 ms, with the seconds clamped to an int |
| RetransmitTimer.Timer.HandleTimeout | inclass/miles/Pods/BoringSSL-GRPC/ssl/d1_lib.cc:247-267 | The new timer value is the function the run results are about; the k-th consecutive expiry arms the k-times doubled duration from now |
| RetransmitTimer.Timer.CheckTimeoutNum | inclass/miles/Pods/BoringSSL-GRPC/ssl/d1_lib.cc:168-187 | Counts, gives up after twelve, and takes an acceptable fallback MTU after two |
| RetransmitTimer.BackoffDoubles | inclass/miles/Pods/BoringSSL-GRPC/ssl/d1_lib.cc:155-160 | For an initial duration of at most a minute the k-th duration is min(60000, initial * 2^k) |
| RetransmitTimer.FirstDoubling | inclass/miles/Pods/BoringSSL-GRPC/ssl/d1_lib.cc:155-160 | For any 32-bit initial duration the first doubling is right exactly when it does not overflow, or overflows to the cap or above |
| RetransmitTimer.BackoffExactly | inclass/miles/Pods/BoringSSL-GRPC/ssl/d1_lib.cc:155-160 | For every initial duration the k-th later one is the first doubling modulo 2^32, doubled k-1 times more and capped at a minute |
| RetransmitTimer.TwelveRetransmissions | inclass/miles/Pods/BoringSSL-GRPC/ssl/d1_lib.cc:168-187 | Over every run of flushes and timeout handling after a stop, with fewer than 2^32 expiries, the calls that retransmit are exactly the first twelve that find the timer expired |
| RetransmitTimer.CountsExpiries | inclass/miles/Pods/BoringSSL-GRPC/ssl/d1_lib.cc:168-187 | Over every such run the count is the number of expiries modulo 2^32 |
| RetransmitTimer.BacksOffPerRetransmission | inclass/miles/Pods/BoringSSL-GRPC/ssl/d1_lib.cc:155-160 | Over every such run a running timer has the initial duration, backed off once for each retransmission since it was last at rest |
| RetransmitTimer.SinceStop | inclass/miles/Pods/BoringSSL-GRPC/ssl/d1_lib.cc:120-136 | These are all retransmissions since the stop, for a clock that never reads zero, the value that stands for no deadline |

## Left out

- The Swift applications: views, property lists, JSON and Firebase calls.
- nanopb pointer fields and their allocation and release, user callbacks, extensions, custom streams, the delimited and null-terminated wrappers, and the build without 64-bit integers. (The build enables `malloc`; for static descriptors all that remains of it is the check of a used oneof, which is modelled.)
- Layout of C structs beyond the offsets of the iterator; destination structs are values that the decoder returns, so partial contents after a failed decode are not described, and neither are bytes of a string buffer after its terminator.
- Sizes are unbounded naturals except where the code casts or compares them to a width: in-memory sizes near the width of `size_t` are not modelled.
- RoundTrip.MessageRoundTrip: assumes length-delimited payloads below 4 GiB, because the decoder reads their lengths with the 32-bit decoder (Packing.PackingIrrelevant likewise), and NUL-terminated strings.
- MessageEncoder.CheckProto3Default: for a fixed-count array inside a proto3 singular submessage, elements must be numbers, bytes or fixed-length bytes that fill four bytes; for strings, submessages and shorter arrays the four bytes read as a count depend on what else the struct holds in memory. Numbers are taken to be stored least significant byte first.
- Streams.OrderFreeExactly: assumes fixed-count arrays that can be filled, since one of size zero, or one no element of which decodes, never makes the order matter.
- FieldIter.FieldsDisjoint: is about the members; that has_ flags, counts and which_ tags lie apart from them is up to the offsets in the descriptor.
- Transport.EndToEnd: covers fewer than 2^16 messages; with more, 16-bit sequence numbers repeat.
- RecordDelivery.FlightRead: that no two records of the pass share a number is assumed of them; RecordWriter.NoPairReused says when that holds. Alerts and fatal errors are only told apart from other records.
- Session.Exchange: that no datagram is forged is an assumption about each one that is opened (in the epoch without encryption, that the network made nothing up; later, that what opens was sealed by the peer), since the strength of an AEAD is not modelled; messages are submitted during the handshake, and the results of flushes and reads go unused.
- RetransmitTimer.TwelveRetransmissions: stops at 2^32 expiries, where the count wraps; RetransmitTimer.RetransmitsAgain shows that the next one is not refused.
- RecordReader.NoReplay: assumes that the 16-bit epoch does not wrap; RecordWriter.NoPairReused likewise.
- FlightSender.Sender.SealNextMessage: records are built as values rather than in place in the packet buffer, so the aliasing check of the sealing function is not modelled.
- RetransmitTimer.Timer.Start: seconds are unbounded, the 64-bit counter of the platform is not.
- Cryptography, key schedules, certificates; processing of alerts after they are authenticated; application data, including the retransmission a repeated Finished message triggers.
- BIO and socket calls, message and info callbacks, the error queue, allocation failure.
- TLS over streams, the handshake state machine, CPU features, locking.
