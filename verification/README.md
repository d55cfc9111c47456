# A verified model of the mcpack codec and the NPC protocol

This project models, in Dafny, the two libraries of the repository and proves what they promise.

* **mcpack** is a tagged, length-prefixed binary format. The encoder appends items to a growable
  byte array and patches the length slot of every container after its members. The decoder moves a
  cursor over the bytes in three ways: without a target type, into a target of a known type, and
  skipping.
* **npc** is a framing protocol: a 36-byte header and a body, a serial server loop for each
  connection, and a client that keeps idle connections per address for reuse.

Go types are numbered descriptors (`Values.Kind`), so that a type can refer to itself; Go values are
finite trees (`Values.Value`); `Values.Lower` gives the wire tree (`Wire.Item`) that a value is
encoded as, and `Wire.Enc` its bytes. Go's errors and run-time panics are both failures
(`Decode.Fault`).

## How the files fit together

| files | what they hold |
|---|---|
| `Bytes`, `Wire`, `Vectors` | little-endian numbers, the wire format as a pure function from trees to bytes, and both wire formats in literal bytes |
| `Values`, `Encoder`, `Memo` | types, values, what a value is encoded as, the growable buffer written in place, and the encoders cached per type, on cyclic type graphs, that run on it |
| `Domain`, `Lossless` | the bounds a value must keep, and which values are written whole |
| `Decode`, `Decoder`, `Generic`, `Laws` | what decoding computes at each position, the cursor that computes it, the untyped round trip, and laws of the code itself |
| `Typed`, `TypedTrip`, `TypedIff`, `MapOrder`, `Codec` | decoding into targets, its round trip, exactly when it succeeds, map order, and the codec as a whole |
| `Meaning`, `Restoring`, `Storing` | without the wire trees: the bytes and the meaning of a value of every kind, what it comes back as, and what every target makes of every item |
| `Fold`, `Lookup` | matching field names up to case, with UTF-8 (section 3 of RFC 3629) and simple case folding (section 3.13 of the Unicode Standard); the field a key goes to, and what becomes of every field |
| `Embedding`, `WalkOrder`, `Fields`, `Dominance`, `Listing` | the breadth-first walk over embedded structs, the field that each name stands for, and the rule about declarations that this amounts to |
| `Frames`, `Server`, `Pool` | frames, the server loop, and many clients over pooled connections |
| `Samples`, `Records` | concrete values that cannot be read back, runs of client and server, and struct types with tags and ambiguous fields |

Each method that changes state is proved against a pure function of the old state; the lemmas are
about those functions. `dafny verify dfyconfig.toml` checks everything.

## Main results

* The cached encoder of a type appends exactly `Enc` of the value, or fails on a key longer than 254
  bytes, whatever was written before, however often the buffer moves while a container is open, and
  in whatever order types were cached (`Memo.EncoderCache.Run`, `Memo.EncoderCache.Marshal`); all
  copying together stays within the capacity, and the capacity within 2 * (length + 5).
* What is marshalled has the tag, the width and the content that its kind calls for, in literal bytes
  (`Meaning.MarshalForms`). Decoding it without a target type gives what the value stands for, which
  is defined by its kind alone and is one thing (`Meaning.UntypedMeans`, `Meaning.MeansOne`); decoding
  it into a variable of its type gives the value back, up to nil maps and slices, unlisted fields and
  what interfaces hold (`Restoring.TypedRestores`).
* No two wire trees have the same encoding under any keys (`Laws.EncInjective`), and none is a prefix
  of another (`Laws.PrefixFree`).
* Untyped decoding of an encoding succeeds if and only if the encoder left out no announced member
  and every object member has a key (`Generic.DecodesIff`). For the value this means that every listed
  field of every struct in it can be reached, is not an empty `omitempty` field and has an encoder, that
  elements and entries have one too (`Lossless.WholeIff`), and that no map has an empty key
  (`Lossless.KeyedIff`).
* Typed decoding into a fresh variable of the same type succeeds if and only if, besides, every
  interface in the value holds an object or nothing, and no listed field lies behind an embedded
  pointer (`TypedIff.TypedDecodesIff`). `Codec.ThereAndBack` puts this together for `Marshal` and
  `Unmarshal`.
* `typeFields` ends on every embedding graph, and every struct type has one field list, however the
  library sorts ties (`Dominance.FieldListUnique`). The list holds a declared field if and only if
  every other declaration of its name that can be reached through embedded structs lies deeper, or has
  no tag while this one has, or is the same declaration reached later through the same embedding
  (`Listing.ListedIff`).
* The fields of a struct are decoded independently of each other: each holds what decoding the members
  that go to it gives, and decoding fails if and only if one of these does (`Lookup.StructDecodes`). A
  member goes to the first field of exactly its name, else to the first that matches up to case
  (`Lookup.FindIs`).
* In every interleaving of callers, failures and closes, a response that a caller reads is the
  server's reply to that caller's own request (`Pool.NoCrossedResponses`), and every dialled
  connection is held once, idle once or closed (`Pool.Conservation`). The response has the body that
  the handler wrote first, and the header of the request unless the handler set another
  (`Pool.HeaderComesBack`). Handlers may do anything but write 2^32 bytes or more
  (`Pool.HandlersFitIf`). The one step that can break this is a request
  without a body: after it a response can cross if and only if its connection is kept in step and the
  server answers the header with a response that can be read (`Pool.CrossesIff`). It leaves a header
  in the connection's write buffer if and only if the connection is kept (`Pool.SyncStep`).

## Where the code does less than one might expect

* A struct announces all its fields before it skips omitted and unreachable ones
  (`mcpack/encode.go:424-431`). What it writes can then be skipped but not decoded, typed or untyped
  (`Samples.ZeroFieldLost`). Values of unsupported kinds inside containers have the same effect
  (`mcpack/encode.go:183-187`).
* A map entry with an empty key is encoded, and cannot be decoded (`mcpack/decode.go:967-970`;
  `Samples.EmptyKeyLost`).
* Fields behind an embedded struct pointer are encoded, and decoding them into a fresh struct always
  fails, because the pointer is not allocated (`mcpack/decode.go:841-845`;
  `Samples.BehindPointerLost`).
* A name that two embedded structs provide at the same depth is dropped, as the Go language would have
  it, if the two ways part right above the struct that declares it; if they part further above, the
  earlier one is listed all the same, because the walk enters that struct once and counts it once
  (`mcpack/encode.go:613-616`, `mcpack/encode.go:653-662`; `Records.AmbiguousListed`).
* An interface target takes objects and null only (`mcpack/decode.go:789-792`;
  `Samples.HoldsIntLost`).
* Negative zero counts as empty (`mcpack/encode.go:737-738`). An unknown tag does not advance the
  cursor (`mcpack/decode.go:744-784`).
* A request without a body makes `Do` panic after its header was buffered, and the deferred release
  puts the connection back (`npc/client.go:154-165`). If the server answers the header, whichever
  caller takes that connection next receives the answer (`Pool.NilBodyCrosses`, `Samples.SecondGetsFirst`).
* A reply of 2^32 bytes or more announces a shorter body than it sends (`Server.ReplyConsumedIff`).

## Model

| member | source | states |
|---|---|---|
| `Bytes.PutUint32` | mcpack/number.go:29-34 | four byte stores write the little-endian form of the low 32 bits and change nothing around it |
| `Bytes.PutUint64` | mcpack/number.go:41-50 | eight byte stores write the little-endian form of the low 64 bits and change nothing around it |
| `Bytes.FromLEofLE` | mcpack/number.go:69-83 | reading a stored number gives it back if it fits the width |
| `Bytes.LEofFromLE` | mcpack/number.go:25-50 | storing a number that was read gives the same bytes back |
| `Bytes.Width.WrapSignedIdentity` | mcpack/number.go:25-50 | a signed number survives conversion to the unsigned type of its width and back |
| `Wire.FrameAt` | mcpack/decode.go:240-251 | where tag, key length, content length, key and content of an item lie in the data, for every header layout |
| `Wire.EncIsFrame` | mcpack/decode.go:786-787 | every item is such a frame, whose length field holds the length of its content |
| `Vectors.NullBytes` | mcpack/encode.go:189-197 | null in literal bytes, with and without a key |
| `Vectors.BoolBytes` | mcpack/encode.go:199-211 | bools in literal bytes |
| `Vectors.Int32Bytes` | mcpack/encode.go:242-249 | signed 32-bit numbers in literal bytes, in two's complement, lowest byte first |
| `Vectors.Int64Bytes` | mcpack/encode.go:253-260 | signed 64-bit numbers likewise |
| `Vectors.Uint32Bytes` | mcpack/const.go:15 | unsigned 32-bit numbers and 32-bit floats in literal bytes |
| `Vectors.Uint64Bytes` | mcpack/const.go:16 | unsigned 64-bit numbers and 64-bit floats likewise |
| `Vectors.ShortString` | mcpack/encode.go:327-343 | strings of up to 253 bytes in the short form, in literal bytes |
| `Vectors.LongString` | mcpack/encode.go:344-361 | longer strings in the long form |
| `Vectors.ShortBinary` | mcpack/encode.go:363-379 | binaries of up to 255 bytes in the short form |
| `Vectors.LongBinary` | mcpack/encode.go:380-394 | longer binaries in the long form |
| `Vectors.Thresholds` | mcpack/const.go:26-31 | both sides of both thresholds in literal bytes |
| `Vectors.ObjectBytes` | mcpack/const.go:5-6 | objects and arrays in literal bytes: tag, length of what follows the key, count, members |
| `Vectors.StructVector` | mcpack/encode_test.go:60-67 | the bytes that the test of a struct with a bool, a string and an int expects |
| `Vectors.ArrayVector` | mcpack/encode_test.go:124-127 | the bytes that the test of an array of two negative numbers under a key expects |
| `Vectors.KeyVector` | mcpack/const.go:29 | keys fit up to 254 bytes; the longest in literal bytes |
| `Vectors.UnknownTags` | mcpack/decode.go:744-784 | under every tag that the encoder does not write, untyped decoding gives nil and does not move; skipping takes the content to be empty; the key is found under the four small integer tags |
| `Vectors.TruncatedVectors` | mcpack/decode.go:259-276 | data that ends too early, and a string of length zero, in literal bytes |
| `Vectors.UnreadBytes` | mcpack/decode.go:259-276 | bytes that are not looked at: the terminator of a string, the content of null |
| `Vectors.HeaderVector` | npc/header.go:38-50 | order, widths and byte order of the header's fields, and the magic number, in literal bytes |
| `Vectors.WellFormedIs` | npc/request.go:39-59 | what a request is, field by field, with the magic number written out |
| `Vectors.RequestVector` | npc/request.go:17-24 | the frame of a request in literal bytes, and that it is read back |
| `Encoder.EncodeState.ResizeIfNeeded` | mcpack/encode.go:63-70 | makes room for n bytes and keeps what was written; adds the old length to the bytes copied exactly when it moves the buffer, copies in all no more than the capacity, and keeps that linear in the output |
| `Encoder.EncodeState.SetType` | mcpack/encode.go:36-39 | appends the tag |
| `Encoder.EncodeState.SetKeyLen` | mcpack/encode.go:41-53 | appends the key's length with its terminator, 0 for no key; fails exactly on keys over 254 bytes |
| `Encoder.EncodeState.SetKey` | mcpack/encode.go:55-61 | appends the key and a zero byte, or nothing for the empty key |
| `Encoder.EncodeState.LeafEncoder` | mcpack/encode.go:189-394 | every leaf encoder appends exactly its item, or fails on a long key; keeps the growth bound |
| `Encoder.ReserveCovers` | mcpack/encode.go:190-366 | what each leaf encoder reserves is enough for what it writes, and at most five bytes more |
| `Encoder.EncodeState.OpenContainer` | mcpack/encode.go:409-425 | appends a container's header and count around a length slot of any content |
| `Encoder.OpenGrows` | mcpack/encode.go:427-433 | what is appended while a container is open becomes part of its content |
| `Encoder.Patched` | mcpack/encode.go:434-435 | overwriting only the length slot turns the open container into its complete frame |
| `Encoder.EncodeState.CloseContainer` | mcpack/encode.go:434-435 | patches the slot in the current buffer, so that earlier output followed by the whole frame stands in it |
| `Domain.WellTyped` | mcpack/encode.go:134-181 | the well-typed values of every kind, whose lengths fit the 32-bit counts |
| `Domain.LowerRanged` | mcpack/encode.go:242-325 | whatever a well-typed value is encoded as keeps to 32-bit counts and to the ranges of its tags |
| `Domain.InDomainFits` | mcpack/encode.go:434-435 | a well-typed value with an encoding shorter than 2^32 bytes meets the bounds of the round trips |
| `Lossless.SupportedIff` | mcpack/encode.go:134-187 | a well-typed value writes an item if and only if the kind at the end of its pointers and interfaces has an encoder |
| `Lossless.EmptyIs` | mcpack/encode.go:727-743 | which values count as empty, by kind: zero numbers, negative zero included, false, nil pointers and interfaces, and strings, maps, slices and arrays of no length |
| `Lossless.OmittedIff` | mcpack/encode.go:427-431 | a listed field writes no member if and only if it cannot be reached, is marked and empty, or has no encoder |
| `Lossless.WholeIff` | mcpack/encode.go:424-431 | every announced member is written, at all levels and through interfaces, if and only if every listed field can be reached, is not an empty omitempty field and has an encoder, and every element and entry has one |
| `Lossless.KeyedIff` | mcpack/decode.go:967-970 | every object member that is written has a key if and only if no entry that is written has an empty one |
| `Decode.Count` | mcpack/decode.go:862-874 | members of a container start at least ten bytes after it, and within the data |
| `Decode.Skip` | mcpack/decode.go:183-238 | skipping moves the cursor on by at least two bytes and stays within the data |
| `Decode.AnyAt` | mcpack/decode.go:744-784 | on any bytes, untyped decoding ends, and the cursor never moves back |
| `Decoder.DecodeState.Next` | mcpack/decode.go:183-238 | the skipper's steps return the item at the cursor and move past it, or fail where reading runs over the end |
| `Decoder.DecodeState.Key` | mcpack/decode.go:955-972 | returns the key of the item at the cursor, which it does not move; fails on an empty key |
| `Decoder.DecodeState.ReadVariable` | mcpack/decode.go:240-382 | reads strings and binaries in short and long form |
| `Decoder.DecodeState.ReadFixed` | mcpack/decode.go:505-742 | reads integers, floats, bool and null |
| `Decoder.DecodeState.ContainerHeader` | mcpack/decode.go:862-874 | reads past a container's header and gives its announced count |
| `Decoder.DecodeState.ValueInterface` | mcpack/decode.go:744-784 | the cursor machine computes what untyped decoding is at its starting position, and ends there |
| `Decoder.DecodeState.ObjectInterface` | mcpack/decode.go:862-883 | the loop over members fills the map of all members read in order |
| `Decoder.DecodeState.ArrayInterface` | mcpack/decode.go:933-953 | the loop over elements fills the list of all elements read in order |
| `Decoder.DecodeState.FindField` | mcpack/decode.go:826-837 | the loop finds the first field with exactly the key's name, else the first that matches up to case, or that there is none, using the comparison chosen for each name |
| `Decoder.DecodeState.Value` | mcpack/decode.go:127-181 | the cursor machine computes what typed decoding is at its starting position, and ends there |
| `Decoder.DecodeState.Pointer` | mcpack/decode.go:90-124 | a nil pointer stays nil on null and is allocated for anything else |
| `Decoder.DecodeState.ObjectValue` | mcpack/decode.go:788-860 | chooses by target kind: interface, map, struct, or failure on the first member |
| `Decoder.DecodeState.Members` | mcpack/decode.go:813-852 | stores members into the fields they match, skips members that match none |
| `Decoder.DecodeState.MapEntries` | mcpack/decode.go:813-858 | decodes each entry into a zeroed element and stores it under its key |
| `Decoder.DecodeState.ArrayValue` | mcpack/decode.go:888-931 | resizes slices, zero-fills fixed arrays beyond the decoded elements, and takes array items for strings, maps and channels where the source does not panic |
| `Decoder.DecodeState.Elements` | mcpack/decode.go:911-917 | stores elements that fit the target and skips the others |
| `Decoder.DecodeState.StringElements` | mcpack/decode.go:911-917 | bytes of a string cannot be set, so only items that set nothing pass; elements beyond the string are skipped |
| `Decoder.DecodeState.Unmarshal` | mcpack/decode.go:49-72 | fails on a target that is not a non-nil pointer, and when data is left over |
| `Generic.StoredInverts` | mcpack/decode.go:505-742 | every fixed-width scalar is read back from the number it is stored as |
| `Generic.ScalarRoundTrip` | mcpack/decode.go:240-742 | at any place in any data, reading an encoded scalar gives it back and stops at its end, in short and long form |
| `Generic.CountRoundTrip` | mcpack/decode.go:862-874 | a container's header gives back the announced count and leads to its members |
| `Generic.KeyRoundTrip` | mcpack/decode.go:955-972 | the key is found at the front of any item in all three header layouts; no key is an error |
| `Generic.SkipRoundTrip` | mcpack/decode.go:183-238 | skipping returns exactly the encoded item, also when fields were omitted |
| `Generic.AnyRoundTrip` | mcpack/decode.go:744-784 | wherever a complete, named item lies, untyped decoding gives its normal form and stops at its end |
| `Generic.AnyPays` | mcpack/decode.go:862-883 | successful decoding of arbitrary bytes reads items in the order of a single count of items still owed |
| `Generic.MissingStaysOwed` | mcpack/encode.go:424-431 | after all items the encoder wrote are read, exactly the omitted ones are still owed |
| `Generic.UnnamedFails` | mcpack/decode.go:967-970 | a complete item with a member without a key fails with the empty-key error |
| `Generic.DecodesIff` | mcpack/encode.go:424-431 | decoding an encoding succeeds if and only if nothing was left out and every member has a key, and then gives the normal form at the end of the data |
| `Laws.DepthBound` | mcpack/decode.go:862-883 | on any bytes, a value nested d deep needs more than 10 * (d - 1) bytes |
| `Laws.DepthReached` | mcpack/decode.go:933-953 | that bound is met: n lists around null take 10 * n + 3 bytes |
| `Laws.EncInjective` | mcpack/encode.go:41-61 | equal encodings have equal keys and equal trees, announced counts included, also when members were left out |
| `Laws.SelfDelimiting` | mcpack/encode.go:41-61 | two items at one place are the same tree under the same key |
| `Laws.PrefixFree` | mcpack/encode.go:41-61 | no encoding is a proper prefix of another: items in front of equal data are the same, and so is what follows |
| `Laws.AnyOrder` | mcpack/encode.go:467-474 | every order of an object's members is a shuffle of them |
| `Laws.OrderIndependent` | mcpack/encode.go:467-474 | reordering the members of objects at any depth changes neither the length nor the decoded value |
| `MapOrder.AnyMapOrder` | mcpack/encode.go:467-474 | every order of a map's entries is a reordering of it |
| `MapOrder.MapOrderIrrelevant` | mcpack/encode.go:470-472 | for Go values: the order in which map keys are yielded changes neither the length nor the untyped decoded value |
| `MapOrder.MapOrderTyped` | mcpack/encode.go:470-472 | typed decoding succeeds for both orders or for neither, and gives values that differ in the order of map entries only |
| `Fold.DecodeEncoded` | mcpack/fold.go:83 | decoding a rune inverts UTF-8 encoding, whatever follows |
| `Fold.EncodeDecoded` | mcpack/fold.go:83 | what is decoded is what the front of the data encodes; if it encodes nothing, one byte is read as U+FFFD |
| `Fold.ToLowerFolds` | mcpack/fold.go:13-17 | the orbits assumed of case folding, with K and S having three members, are met by an actual folding |
| `Fold.FoldsRunes` | mcpack/fold.go:38 | strings in UTF-8 are equal up to case if and only if they have as many runes, which fold to the same one by one |
| `Fold.AsciiFolding` | mcpack/fold.go:33-55 | ASCII strings are equal up to case if and only if they have the same letters in either case and otherwise the same bytes |
| `Fold.SpecialFolding` | mcpack/fold.go:26-28 | the only other runes that match an ASCII character are the Kelvin sign and the long s, in literal bytes |
| `Fold.RuneVectors` | mcpack/fold.go:83 | runes of one to four bytes, and bytes that are no UTF-8, in literal bytes |
| `Fold.FoldFunc` | mcpack/fold.go:33-55 | which routine is chosen, by the bytes of the name alone |
| `Fold.EqualFoldRight` | mcpack/fold.go:61-103 | on names in ASCII it decides full folded equality, for every other string, valid UTF-8 or not |
| `Fold.PlainLength` | mcpack/fold.go:109-112 | a name without k and s only matches strings of its own length |
| `Fold.MaskDecides` | mcpack/fold.go:118-121 | for the other letters, comparing bytes with the case bit masked decides folded equality |
| `Fold.AsciiEqualFold` | mcpack/fold.go:109-128 | on names in ASCII without k and s it decides full folded equality |
| `Fold.SimpleLetterEqualFold` | mcpack/fold.go:133-143 | on names of letters without k and s it decides full folded equality |
| `Fold.GeneralEqualFold` | mcpack/fold.go:37-39 | comparing rune by rune decides equality of the folded rune sequences |
| `Fold.NameMatches` | mcpack/fold.go:33-55 | for every name and every string, the routine chosen for the name decides folded equality |
| `Lookup.FindIs` | mcpack/decode.go:826-837 | a key goes to the first field of exactly that name, else to the first that matches up to case, and to none if and only if none matches |
| `Lookup.FieldsIndependent` | mcpack/decode.go:813-852 | storing members into a struct succeeds if and only if for every field storing those that go to it does; each field then holds what that gives, and the rest is left alone |
| `Lookup.StructDecodes` | mcpack/decode.go:788-860 | the same of decoding the bytes of an object, which ends at its end |
| `Lookup.OneMemberDecodes` | mcpack/decode.go:826-850 | a single member, in any case of its key, is stored at the place of the field it goes to |
| `Storing.ScalarStores` | mcpack/decode.go:240-742 | what every kind of target makes of every scalar: integers wrap around to its width, null gives zero, and decoding fails on any other kind |
| `Storing.PointerStores` | mcpack/decode.go:90-124 | what a pointer points to is decoded in place; a nil pointer stays nil on null and points to a new variable otherwise |
| `Storing.ZeroIs` | mcpack/decode.go:622-634 | the zero value of every kind |
| `Storing.SliceStores` | mcpack/decode.go:888-931 | a slice holds exactly the decoded elements, decoded into its own if it has enough, else into new ones |
| `Storing.MapStores` | mcpack/decode.go:813-858 | a map holds under each key what the last member with that key gives in a new element, and otherwise what it held |
| `Storing.ObjectElsewhere` | mcpack/decode.go:788-812 | other kinds take objects without members only, without effect |
| `Storing.ArrayElsewhere` | mcpack/decode.go:888-931 | what strings, maps and channels make of arrays, and that nothing else takes one |
| `Storing.RangesAre` | mcpack/encode.go:242-260 | the well-typed integers are those in the range of their Go type |
| `Typed.TypedAgrees` | mcpack/decode.go:127-181 | for every type, target and complete item, typed decoding of the bytes is what the wire tree stored into the target gives, ending at the item's end, or both fail |
| `TypedTrip.FindsOwnName` | mcpack/decode.go:826-837 | the lookup takes each listed field's name to that field |
| `TypedTrip.IntoLower` | mcpack/decode.go:788-931 | storing what a well-typed value is encoded as into a fresh target gives its normal form if the target can take it back, and fails otherwise |
| `TypedTrip.TypedRoundTrip` | mcpack/decode.go:64-71 | the same on bytes, at any place in any data, stopping at the item's end |
| `TypedTrip.GivesObjectIff` | mcpack/decode.go:789-792 | a value is encoded as an object or null if and only if its pointers and interfaces end in a struct, a map or nil |
| `TypedTrip.StructNorm` | mcpack/decode.go:838-852 | in a struct's normal form every listed field is the normal form of the original, and everything else is zero |
| `TypedTrip.MapNorm` | mcpack/decode.go:817-858 | in a map's normal form each entry has its value in normal form, in place |
| `TypedTrip.IntoStructIgnores` | mcpack/decode.go:826-852 | members that match no field do not affect the result |
| `TypedTrip.Projection` | mcpack/decode.go:813-852 | decoding into a struct equals decoding the object without the members that match no field, each ending at its own end |
| `TypedTrip.FreshReaches` | mcpack/decode.go:838-849 | in a fresh struct exactly the fields not behind a pointer can be reached |
| `TypedTrip.UnreachableFails` | mcpack/decode.go:841-845 | a member for an unreachable field makes decoding fail, wherever it stands |
| `TypedTrip.EmbeddedPointerFails` | mcpack/decode.go:841-845 | so decoding bytes with a member for a field behind an embedded pointer into a fresh struct fails |
| `TypedTrip.InterfaceTakes` | mcpack/decode.go:789-792 | an interface target takes objects and null and nothing else |
| `TypedTrip.ArrayTruncates` | mcpack/decode.go:911-926 | a fixed array takes an array item if and only if each element that has a place can be stored there; it keeps those, skips extra ones and has zeros for missing ones |
| `TypedIff.TypedUses` | mcpack/decode.go:788-931 | typed decoding into any target that succeeds ends between two of the encoded items and uses up at least one |
| `TypedIff.TypedBad` | mcpack/encode.go:424-431 | if the item of any well-typed value with members left out or without keys is decoded all the same, an item after it was used up |
| `TypedIff.TypedDecodesIff` | mcpack/decode.go:64-71 | decoding what any well-typed value was encoded as into a fresh target of its type succeeds if and only if nothing was left out, every member has a key, interfaces hold objects or nothing and no field lies behind an embedded pointer, at all levels; it then gives the normal form at the end of the data |
| `Codec.ReadableIff` | mcpack/encode.go:424-431 | for programs with the field lists of typeFields: an item is complete and named if and only if the value is whole and keyed |
| `Codec.ThereAndBack` | mcpack/decode.go:49-72 | what Marshal writes for any well-typed value is read back untyped if and only if the value is whole and keyed, and typed if and only if the target can take it back as well; skipping always works; all end at the end of the data |
| `Meaning.MarshalForms` | mcpack/encode.go:134-187 | for every type and well-typed value: tag, width and content of what Marshal returns, in literal tags, by kind; nothing for unsupported kinds |
| `Meaning.NormMeans` | mcpack/decode.go:744-784 | the tree that a value is encoded as decodes to what the value stands for |
| `Meaning.UntypedMeans` | mcpack/decode.go:744-784 | what Marshal returns decodes, without a target type, to what the value stands for, or fails, exactly as it can be read back or not |
| `Meaning.MeansOne` | mcpack/decode.go:744-784 | a value stands for one thing |
| `Restoring.NormRestored` | mcpack/decode.go:127-181 | normal forms are the values again, by kind |
| `Restoring.TypedRestores` | mcpack/decode.go:49-72 | what Marshal returns decodes into a fresh variable as the value again, by kind, or fails, exactly as it can be read back and taken or not |
| `Embedding.LexIs` | mcpack/encode.go:815-825 | index sequences and names are compared at the first difference, or by length |
| `Embedding.FirstUnique` | mcpack/encode.go:608-665 | the path under which a struct type's fields are collected is determined by the types alone |
| `Embedding.CollectionUnique` | mcpack/encode.go:608-665 | so are the collected fields, with their multiplicities |
| `WalkOrder.OrderVisit` | mcpack/encode.go:612-664 | expanding a node keeps the queue in path order and every type's path the earliest of the shortest |
| `WalkOrder.CountedTwice` | mcpack/encode.go:653-659 | the count kept for a type exceeds one if and only if two declarations on the level above embed it |
| `Fields.Enqueue` | mcpack/encode.go:659-662 | a type is queued once per level, early enough, and counted every time |
| `Fields.ExpandNode` | mcpack/encode.go:618-664 | expanding a type lists its own fields once or twice and queues and counts what it embeds |
| `Fields.ExpandStep` | mcpack/encode.go:612-664 | what has been collected so far stays exact when one more type is expanded |
| `Fields.AllReached` | mcpack/encode.go:608-667 | when the queue is empty every struct type on any embedding path has been expanded |
| `Fields.Collect` | mcpack/encode.go:597-667 | the walk ends on every embedding graph, cyclic or not, having collected the fields of every reachable struct type under its first path |
| `Dominance.IndexLess` | mcpack/encode.go:815-825 | byIndex compares index sequences lexicographically |
| `Dominance.NameOrder` | mcpack/encode.go:795-806 | byName is a strict weak order whose ties agree in name, tag and index |
| `Dominance.IndexOrder` | mcpack/encode.go:815-825 | byIndex is a strict weak order whose ties agree in index |
| `Dominance.TiesAreCopies` | mcpack/encode.go:795-825 | collected fields that either order does not tell apart are copies of one declaration |
| `Dominance.DominantField` | mcpack/encode.go:695-725 | among fields of one name by depth, returns the one that is alone, or alone tagged, at the least depth; none if there is no such field |
| `Dominance.ChosenByPosition` | mcpack/encode.go:702-724 | being dominant, in terms of positions: every other field of the name is deeper, or is an untagged one beside a tagged one |
| `Dominance.ChosenUnique` | mcpack/encode.go:695-725 | a name has at most one dominant field |
| `Dominance.GroupEnd` | mcpack/encode.go:673-678 | finds the end of the group of equal names |
| `Dominance.Compact` | mcpack/encode.go:668-687 | writing kept fields over the front of the array being read leaves exactly the dominant fields, names increasing |
| `Dominance.TypeFields` | mcpack/encode.go:597-693 | the result is the type's field list: exactly the dominant ones of the collected fields, in index order, each name once |
| `Dominance.Deterministic` | mcpack/encode.go:668-692 | the result depends on the collected fields only up to order, so not on how ties are sorted |
| `Dominance.FieldListUnique` | mcpack/encode.go:597-693 | a struct type has one field list |
| `Dominance.CandidatesApart` | mcpack/encode.go:640-656 | no field lies at or inside the place of another |
| `Dominance.FieldListResolved` | mcpack/encode.go:597-693 | listed fields have unique names and lie apart |
| `Dominance.FieldListNamed` | mcpack/encode.go:641-646 | listed fields have names if declarations have |
| `Dominance.FieldCache.CachedTypeFields` | mcpack/encode.go:575-595 | every caller gets the type's one field list, and the cache holds nothing else |
| `Listing.ListedIff` | mcpack/encode.go:597-693 | a field list holds, in the order of declaration, for exactly the paths that no other path of the same name beats, what is declared at their ends: the tag's name or else the declared one, whether there is a tag, and omitempty |
| `Listing.CandidateIs` | mcpack/encode.go:615-657 | candidates are the exported declarations that are not ignored, and not untagged embedded structs, at the end of paths through such |
| `Listing.EarliestGiven` | mcpack/encode.go:612-616 | a struct type is expanded under the earliest of its shortest paths |
| `Listing.PromotedType` | mcpack/encode.go:757-765 | the type of a field at the end of its path is the declared one |
| `Memo.EncoderCache.TypeEncoder` | mcpack/encode.go:106-132 | ends on every type graph, keeps earlier entries, and returns an encoder for the type up to cached placeholders |
| `Memo.EncoderCache.NewTypeEncoder` | mcpack/encode.go:134-181 | builds an encoder for the type's kind, never a placeholder |
| `Memo.EncoderCache.NewStructEncoder` | mcpack/encode.go:438-448 | builds an encoder for every listed field |
| `Memo.EncoderCache.Run` | mcpack/encode.go:88-132 | for every type, value, key, earlier output and finished cache: a built encoder, through placeholders and dynamic types, appends exactly the encoding of the value, nothing for unsupported kinds, and fails exactly when a key in it is too long; the bytes copied only grow, within the capacity |
| `Memo.EncoderCache.RunMember` | mcpack/encode.go:427-433 | a member encoded into an open container extends its content by exactly the member's encoding |
| `Memo.EncoderCache.RunField` | mcpack/encode.go:427-433 | a field extends it by its member, or by nothing if it is unreachable or omitted |
| `Memo.EncoderCache.StructEncoder` | mcpack/encode.go:409-436 | appends an object that announces all fields and holds those not omitted and reachable |
| `Memo.EncoderCache.MapEncoder` | mcpack/encode.go:454-475 | appends an object with the entries in the order they are yielded, empty for a nil map |
| `Memo.EncoderCache.ArrayEncoder` | mcpack/encode.go:505-529 | appends an array of the elements without keys, empty for a nil slice |
| `Memo.EncoderCache.EncodeValue` | mcpack/encode.go:88-104 | so does encoding any value, whose type's encoder is cached or built |
| `Memo.EncoderCache.Marshal` | mcpack/encode.go:13-20 | returns exactly the encoding of the argument under the empty key, no bytes for nil, an error exactly when a key is too long |
| `Frames.HeaderRoundTrip` | npc/header.go:24-50 | a header takes 36 bytes and is read back from them |
| `Frames.HeaderParseInverse` | npc/header.go:24-50 | any 36 bytes are the bytes of the header read from them |
| `Frames.HeaderFields.Unmarshal` | npc/header.go:24-36 | sets the fields from the first 36 bytes, or fails and changes nothing on fewer |
| `Frames.HeaderFields.Marshal` | npc/header.go:38-50 | writes the header's bytes to the front of the buffer and nothing behind it, or fails and changes nothing |
| `Frames.ResponseRoundTrip` | npc/response.go:13-28 | a well-formed frame is read back whole, whatever follows it |
| `Frames.FrameHeader` | npc/request.go:26-37 | the header of a frame is read back and its body follows |
| `Server.Conn.ReadRequest` | npc/request.go:26-37 | reads a header with the magic number and limits the body reader to what it announces |
| `Server.Conn.ReadBody` | npc/request.go:35 | reads as much as is asked for, but not past the end of the request's body |
| `Server.Conn.ServeRequest` | npc/server.go:70-87 | whatever the handler does, the next read starts after the announced body, and the output grows by the reply: the frame of the message that answers the request |
| `Server.Conn.Serve` | npc/server.go:57-88 | the loop makes the calls and writes the output that its input determines |
| `Server.Response.Write` | npc/server.go:210-224 | the first write sends one frame, or nothing if it is empty; later ones are refused |
| `Server.Response.Run` | npc/server.go:206-224 | a handler that reads, sets the header and writes in any order sends what its first write determines |
| `Server.InStepThen` | npc/server.go:70-87 | well-formed requests in front of anything else: the first calls and replies are theirs, in order, and the rest is served from their end on |
| `Server.InStep` | npc/server.go:70-87 | for every handler and all well-formed requests, call i gets exactly header i and body i, and the output is the replies in order |
| `Server.OutputOfFrames` | npc/server.go:70-87 | the same for the whole input of a connection |
| `Server.RepliesConcat` | npc/server.go:70-87 | more requests add their replies at the end and change nothing before them |
| `Server.ActsGiveFit` | npc/server.go:105-110 | the reply of a handler that leaves the request's header alone, or sets any that Go's types allow, and writes less than 2^32 bytes keeps to those bounds |
| `Server.ReplyIsFrame` | npc/server.go:210-224 | a reply is the frame of the message the handler sends |
| `Server.ReplyToIs` | npc/server.go:105-224 | the message sent in reply has for body what the handler wrote first, if that is not empty, and for header the request's, or the one set last before it, with that length |
| `Server.HeaderLeft` | npc/server.go:105-110 | a header that is left alone is the request's |
| `Server.HeaderSet` | npc/server.go:206-208 | else the one set last counts |
| `Server.OutputAnswers` | npc/server.go:70-87 | for one more request the output grows by exactly the frame of the message that answers it, or by nothing if there is none |
| `Server.CutOff` | npc/request.go:35 | a connection that ends within a body makes one call, with what there is of it |
| `Server.ResponseIsReply` | npc/response.go:13-28 | a complete response found at the start of a reply, of which any part has arrived, is that reply |
| `Server.ReplyConsumedIff` | npc/server.go:218 | what a client reads of a reply ends where the reply ends if and only if its body is shorter than 2^32 bytes |
| `Server.ClientReads` | npc/response.go:13-28 | clients read exactly what handlers sent, in order, if and only if handlers keep the magic number and that bound |
| `Pool.Client.GetFreeConn` | npc/client.go:67-80 | takes the most recently released connection of the address and leaves the other lists alone |
| `Pool.Client.PutFreeConn` | npc/client.go:53-65 | adds the connection to its address's list, or closes it if two are idle |
| `Pool.Client.CondRelease` | npc/client.go:111-117 | closes the connection after any error, else releases it |
| `Pool.PutThenTake` | npc/client.go:53-80 | a connection put back is the next to be taken, the other idle ones staying as they are; beyond two it is closed instead |
| `Pool.GivenUp` | npc/client.go:108-117 | after a success the next caller can take the connection, unless two are idle; after any failure it is closed and not idle |
| `Pool.AtAnyTime` | npc/client.go:133-184 | which steps a caller can take at any time, and which with an open connection |
| `Pool.ClosesIdle` | npc/client.go:175-184 | Close closes exactly the idle connections, and leaves them listed |
| `Pool.OwnedStep` | npc/client.go:30-80 | every step keeps each connection with one holder, in one slot of its own address, or closed |
| `Pool.Conservation` | npc/client.go:53-80 | in every run without Close: dialled = held + idle + closed, the three are disjoint, and no address has more than two idle |
| `Pool.HandlersFitIf` | npc/server.go:105-110 | handlers that write less than 2^32 bytes meet the condition of the following results, also if they leave the request's header alone |
| `Pool.SendInSync` | npc/client.go:133-140 | after a whole request, exactly its reply is outstanding, also behind headers that the server does not answer |
| `Pool.ReceiveInSync` | npc/client.go:141-145 | a response read then is the reply to that request and leaves nothing unread |
| `Pool.OtherMagicDead` | npc/request.go:32-34 | behind a header under another magic number no response will ever be read |
| `Pool.OtherReplyDead` | npc/response.go:13-28 | nor behind one that is answered under another magic number |
| `Pool.SyncStep` | npc/client.go:133-165 | every step keeps all open connections on frame boundaries, except for the one reply a caller waits for, if and only if it is not a request without a body on an address whose idle list has room; and up to dead connections and unanswered headers, unless the header of such a request will be answered |
| `Pool.BodiesAreHarmless` | npc/request.go:39-59 | runs in which every request has a body meet the condition of the following results |
| `Pool.StaysInSync` | npc/client.go:133-165 | so does everything stay after any run of harmless steps |
| `Pool.NoCrossedResponses` | npc/client.go:133-165 | in every interleaving in which no header without body is kept that the server answers: when a caller has read a response, the server's last call on the connection was on that caller's request, the response is its reply, and all output has been read |
| `Pool.HeaderComesBack` | npc/server.go:105-110 | in such runs, if the handler leaves the header alone, the response has the request's id, version, log id, provider, magic number and reserved field |
| `Pool.IdleOnBoundary` | npc/client.go:111-117 | where no header is kept at all, an open idle connection has been read to the end of all the server has written, and nothing waits in its write buffer |
| `Pool.NilBodyStains` | npc/client.go:111-117 | a request without a body leaves its header in the write buffer of the connection that is taken next |
| `Pool.StainStays` | npc/client.go:30-80 | nothing but a write to that connection changes this |
| `Pool.StaleHeaderAnswered` | npc/server.go:70-87 | the server answers a header that precedes a frame as a request of its own, before the frame |
| `Pool.NilBodyCrosses` | npc/client.go:154-165 | from any state in step in which the connection is kept and the server answers the header, whatever happens then, whichever caller takes it can complete a Do that returns the reply to that header |
| `Pool.CrossesIff` | npc/client.go:154-165 | after a request without a body, some further harmless run leads to a crossed response if and only if the connection is kept in step and the server answers the header with a response that can be read |
| `Samples.IsProgram` | mcpack/encode.go:597-693 | a concrete program with structs, maps, an embedded pointer and interfaces has the field lists it should have |
| `Samples.ZeroFieldLost` | mcpack/encode.go:427-431 | a struct whose omitempty field is zero is encoded and cannot be read back, typed or untyped |
| `Samples.EmptyKeyLost` | mcpack/decode.go:967-970 | nor can a map with an empty key |
| `Samples.BehindPointerLost` | mcpack/decode.go:841-845 | a field behind an embedded pointer is read back untyped and not typed |
| `Samples.HoldsIntLost` | mcpack/decode.go:789-792 | so is an interface that holds an int |
| `Samples.HandlersOk` | npc/all_test.go:23-32 | handlers that write a fixed body, or send the request's body back, meet the condition on handlers |
| `Records.RecordListed` | mcpack/encode.go:640-657 | a struct with a tagged, an ignored and an unexported field: its field list |
| `Records.RecordBytes` | mcpack/encode_test.go:70-82 | what it is marshalled as, in literal bytes: the 32-bit field in four bytes under its tag, the 64-bit one in eight |
| `Records.OtherCase` | mcpack/decode.go:834-836 | literal bytes with a key in another case are decoded into the field; the declared name of a tagged field matches nothing |
| `Records.AmbiguousListed` | mcpack/encode.go:653-662 | a name provided twice at one depth is dropped in one program and listed in another |
| `Samples.ExchangeRuns` | npc/client.go:133-165 | a run of a whole exchange: the response carries the request's log id, and the connection is taken again |
| `Samples.SecondGetsFirst` | npc/client.go:154-165 | a run from the empty pool in which the second caller gets the reply to call 0 and not to its own call 1 |

## Left out

- Sockets, dialling, deadlines, buffer pools, logging and the accept loop: a connection is the bytes written and read; any of its failures is a step that a caller may take at any time.
- `closeNotify` and its pipe: not modelled.
- Pool.SendInSync: a request is written in one step; an interrupted write is a step of its own, after which the connection is closed.
- Server.Response.Write: errors of the buffered connection are not modelled; to the client, output that is lost is output that never arrives.
- Pool.CrossesIff: a header that announces a body which does not follow is covered only where its connection is closed, because the server takes later frames for that body and waits for the rest.
- Pool.NilBodyCrosses: a write buffer that fills up with stale headers and is flushed early is not modelled.
- Requests sent a second time, whose body reader is used up: requests in the model are fresh, as the ones `NewRequest` returns.
- Server.Conn.Serve: a handler's acts are given by the call number, the header and the body, so a panicking handler and handlers that keep their writer after returning are not modelled.
- `npc/selector.go`, `mcpacknpc` and `npc/npctest`: random choice of a server, reflection glue and a server for tests.
- Reflection: types are descriptors. `uintptr` and the `Unmarshaler` interface (`UnmarshalMCPACK`) are not modelled.
- Interfaces with methods: `Values.KInterface` stands for `interface{}`.
- Targets that already hold something: slices are taken to have no capacity beyond their length, and interfaces in a target to be nil.
- Types such as `type P *P`, on which decoding would allocate pointers for ever: `Values.Ranked` excludes them.
- Running out of memory on a large announced count.
- Decoder.DecodeState.ReadFixed: a float stored into a target of the other width is kept as an unevaluated conversion; floats are bit patterns otherwise.
- Memo.EncoderCache.TypeEncoder: one caller at a time; waiting for an encoder that another goroutine builds is not modelled.
- Struct tags are taken as parsed: `mcpack/tags.go` and `isValidTag` are not modelled.
- 8- and 16-bit wire items and the date tag: the encoder never writes them and the decoder has no case for them.
- The library's sort: an insertion sort stands in for it, and `Dominance.Deterministic` shows that the choice does not matter.
- Case folding beyond comparisons with ASCII: `Fold.UnicodeFold` states what is assumed of it, and any folding that meets it is allowed.
