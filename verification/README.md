# MessagePack for Python: a verified model

The library implements MessagePack twice. `msgpack/fallback.py` is a recursive decoder over a buffer that is
rolled back when data runs short, and a recursive packer. The C extension (`unpack_template.h`, `unpack.h`,
`_unpacker.pyx`, `pack_template.h`, `pack.h`, `_packer.pyx`) decodes with a goto-driven automaton whose whole
continuation is saved between calls, in front of a sliding window, and packs through differently shaped decision
trees into a buffer that doubles. This project models both and proves how they relate.

## How the files fit together

| file | models |
|---|---|
| `ByteStrings`, `Timestamps`, `Floats`, `Values` | big-endian loads and stores; `ext.py` and its C counterpart; which floats are integers, for dict keys; values, dicts, options, exceptions |
| `Decoder` | `_read_header` and `_unpack` of `fallback.py` as functions of the whole input and a position: the specification of all decoders here |
| `WireFormat` | what every format denotes, byte by byte, and which format is written for which value |
| `Attempts` | how far into its input one attempt of `_unpack` asks |
| `Machine` | the C automaton as a transition system over its saved state (`cs`, `trail`, the open frames) |
| `Refinement`, `Skipping` | the machine computes the recursive decoder; `construct` does not interfere with control |
| `UnpackContext` | `unpack_execute` itself: loops over an array of 1024 frames updated in place |
| `CUnpacker` | the C `Unpacker`: sliding window, file refill, resumption, `unpackb` |
| `FallbackUnpacker` | the Python `Unpacker`: `feed`, `_reserve`, rollback, `__next__`, `skip`, `read_bytes`, `unpackb` |
| `Streams` | whole runs: any interleaving of `feed` and `next`; containers read piece by piece |
| `Encoder`, `Nesting` | what the two packers write, in the shape of each source; which values each accepts |
| `FallbackPacker`, `CPacker` | the two `Packer` classes, and the growth of the C buffer over whole runs |
| `OtherLimits`, `Limits` | what other length limits can change; the limits `unpackb` derives from its input |
| `RoundTrips`, `Repacking` | decoding what was packed, and packing what was decoded |
| `WholeInputs` | the two `unpackb`, on whole, extended and cut off packed values |
| `Keys`, `Refusals` | the rules for dict keys; which input ends in which exception |
| `Shortest`, `StackSafety` | shortest encoding; nesting against the C stack |

`dafny verify dfyconfig.toml` checks everything.

## Main results

1. *Chunk invariance.* However the input is cut, re-entering the C machine with its saved state ends with the
   result, object and position of one run over the whole input (`Machine.ChunkInvariance`).
2. *Refinement.* For every option setting the machine returns exactly the objects, with their ends, that the
   recursive decoder decodes within 1024 open containers when it does not check the nanoseconds of integer
   timestamps, which the C code does not (`Refinement.MachineIsTheUncheckedDecoder`). When that makes it differ
   from the fallback decoder is stated exactly (`Refinement.AgreementCondition`). Where the recursive decoder waits
   for bytes the machine suspends (`Refinement.MachineWaits`), and skipping is covered on every input
   (`Refinement.MachineSkipsAsDecode`), both but for the longest ext, see below.
   `UnpackContext.Context.Execute` shows that the in-place loop runs that machine.
3. *Streaming.* The buffer from the checkpoint on is the stream from the offset on, through every feed, strip,
   refill, consume and rollback; every interleaving of `feed` and `next` delivers a prefix of the decoding of the
   concatenated input, and all of it when drained (`FallbackUnpacker.Drive`, `Streams.AnyInterleaving`).
   The C `Unpacker` ends in the same session over a window that is moved and reallocated, and raises nothing but
   BufferFull when complete objects are to come (`CUnpacker.Drive`).
   BufferFull from a file is raised only where the fallback would have to read further than `max_buffer_size`, and
   where the C window is full and the machine, run over all of it, still waits. Neither reads its file while the
   bytes there are suffice (`FallbackUnpacker.Unpacker.Next`, `CUnpacker.Unpacker.Unpack`).
4. *Round trip both ways.* What is packed is decoded to what it was, by both `unpackb`, with ExtraData for anything
   behind it (`RoundTrips.ValueRoundTrip`, `WholeInputs.PackbThenUnpackb`). Whatever is decoded, from whoever's
   bytes, packs and decodes to itself again, on every input exactly under two conditions on the options: no timestamp
   with 64-bit seconds is decoded as an integer, and raw bodies decoded as bytes fit the limit for bin
   (`Repacking.RepackingCondition`). The values that can be decoded are characterised exactly, for every option
   setting of the fallback decoder (`Repacking.DecoderImage`).
   *Prefix-freeness.* On a beginning of a packed value both streaming decoders wait for more, and both `unpackb`
   raise ValueError and nothing else, although limits derived from the beginning may meet the value first
   (`WholeInputs.ProperPrefixNeedsMore`, `WholeInputs.UnpackbRefusesPrefixes`).
   *Shortest encoding*, exactly (`Shortest.ShortestCondition`).
5. *The packers agree* byte for byte on what the fallback packer accepts, and differ exactly where its nesting
   count, two per map, exceeds the limit (`Encoder.PackersAgree`, `Nesting.WhereThePackersDiffer`).
6. *Bounds.* Packer output never exhausts the C stack, and skipping ends exactly behind it unless it holds an ext of
   2^32 - 1 bytes (`StackSafety.PackerOutputFitsTheStack`); buffers stay within
   their limits, and reallocation is amortised (`CPacker.AmortisedGrowth`, `CUnpacker.GrowthStep`).
7. *What bytes mean, and what they are refused for.* Every format denotes the value its bytes spell, in formats wider
   than necessary too (`WireFormat.SignedDenotes` and its neighbours). FormatError is raised exactly where the reserved
   byte stands when a header is due, StackError exactly where a container begins that is one too many, for both
   decoders and both `unpackb` (`Refusals.UnpackbRefusalsC`, `Refusals.UnpackbRefusalsF`). A dict whose parts decode
   is accepted exactly if its keys pass (`Keys.MapAcceptance`, `Refusals.UnpackbKeys`), keys are the same exactly if
   Python finds them equal (`Keys.SameKeyIsEquality`), and `strict_map_key` holds at every depth
   (`Keys.DecodedKeysObey`).

## What the code does differently from what one may expect

- With `timestamp=2` the C decoder does not check that nanoseconds are below 10^9; the fallback decoder does. Between
  the modelled modes 0 and 2 the decoders therefore agree on every input if and only if the mode is 0 or
  `max_ext_len < 8` (`Refinement.SameTimestamps`); `Refinement.OverlongNanoseconds` is an input on which they differ.
  Modes 1 and 3, which are not part of this model, lack the check in the C code as well.
- The type byte of an ext 32 is counted into a 32-bit `trail`, so a length of 2^32 - 1 wraps to 0. The model wraps
  too; its C theorems assume `max_ext_len < 2^32 - 1` (`Machine.Modelled`), under which the wrapped header fails.
  When skipping it does not fail: `skip` stops behind the length of such an ext, before its type and data
  (`StackSafety.SkippingLosesTheLongestExt`). And on the five bytes of such a header alone the C decoder raises
  ValueError where the recursive decoder still waits for the type byte (`Refinement.MachineRefusesTheLongestExt`);
  nowhere else does the recursive decoder wait and the machine not.
- With `timestamp=2` a timestamp with 64-bit seconds can decode to an integer that no packer accepts
  (`Repacking.EncodableCondition`).
- With `raw=True` and `max_bin_len < max_str_len`, a raw body longer than `max_bin_len` decodes to bytes, which pack as
  bin and then do not decode (`Repacking.LongRawBody`).
- Shortest encoding holds on every input if and only if strings and timestamps are decoded as such: with `raw=True`
  the one byte 0xa0 decodes to `b""`, which packs to two, and with `timestamp=2` six bytes of timestamp decode to an
  integer that packs to nine (`Shortest.ShortestCondition`). Floats are left out of the claim: a 5-byte float 32
  decodes to a float that packs to nine.
- A map costs two nesting levels in the fallback packer and one in the C packer, so the fallback packs 255 dicts around
  a list and the C packer 511 (`Nesting.DeepestNest`).
- The fallback decoder refuses a key that is not allowed as soon as it has read it, the C decoder once the value is
  there (`Keys.KeyWithoutValue`).
- `read_bytes` of a fed fallback unpacker raises OutOfData when the buffer is too short, although it passes
  `raise_outofdata=False`; only a file-backed one returns fewer bytes.
- A `max_buffer_size` of 0 means 2^31 - 1 in the code; the class documentation says 2^32 - 1.
- `pack_ext_type` of the fallback packer never resets the buffer, whatever `autoreset` says.
- `skip` of the C decoder ignores all length limits and key rules; `skip` of the fallback keeps the length limits.

## Model

| member | source | states |
|---|---|---|
| ByteStrings.LoadStore | msgpack/sysdep.h:129-182 | reading back what the store macros wrote gives the number, for every width and every number that fits |
| ByteStrings.StoreLoad | msgpack/sysdep.h:129-182 | storing what was loaded gives the bytes: loads lose nothing |
| ByteStrings.LoadPositional | msgpack/sysdep.h:129-147 | the recursive load is the shift-and-or of one, two, four and eight bytes |
| ByteStrings.SignedUnsigned | msgpack/unpack_template.h:268-276 | the two's complement pattern of a negative integer reads back as that integer |
| Timestamps.RoundTrip | msgpack/ext.py:71-116 | `to_bytes` fails exactly on seconds outside 64 bits, and otherwise `from_bytes` gives the timestamp back |
| Timestamps.ShortestPayload | msgpack/ext.py:71-116 | any payload that decodes to a timestamp is at least as long as the one `to_bytes` picks for it |
| Timestamps.UnixNanoInverse | msgpack/ext.py:138-152 | the nanosecond conversions are mutually inverse on all integers and timestamps, before the epoch too |
| Timestamps.PackersAgree | msgpack/pack_template.h:552-581 | the C packer's payload, computed modulo 2^64, is that of `to_bytes` for every 64-bit number of seconds |
| Timestamps.ReadersAgree | msgpack/unpack.h:274-296 | the C reader is `from_bytes` without the check of the nanoseconds |
| Floats.IntegerOfIsTheValue | msgpack/fallback.py:526-534 | a float is the same dict key as an integer exactly if its value, by the binary64 format, is that integer |
| Values.DictSetLookup | msgpack/fallback.py:526-534 | `d[k] = v` keeps the keys distinct, maps `k` to `v` and changes no other entry |
| Decoder.DecodeIsLocal | msgpack/fallback.py:488-560 | once the decoder has a value or an exception, bytes that arrive later do not change it: a rolled back attempt may be repeated |
| Decoder.DecodeErrors | msgpack/fallback.py:392-560 | every exception of the decoder other than OutOfData is a FormatError, ValueError, TypeError or exhausted recursion |
| Decoder.SkipConsumesTheSame | msgpack/fallback.py:500-519 | on every input `unpack` accepts, `skip` ends at the same byte |
| WireFormat.UnsignedDenotes | msgpack/fallback.py:444-451 | 0xcc to 0xcf and a field that spells n, minimal or not, decode to n |
| WireFormat.SignedDenotes | msgpack/unpack_template.h:268-276 | 0xd0 to 0xd3 and a field that spells i in two's complement decode to i, for every i of the width, positive ones too |
| WireFormat.FloatsDenote | msgpack/fallback.py:444-451 | a float 64 is the image in the field, a float 32 that image widened |
| WireFormat.SingleBytesDenote | msgpack/fallback.py:399-424 | the formats of one byte: small integers, nil and the booleans |
| WireFormat.OnlyTheReservedByteIsNoFormat | msgpack/fallback.py:484-485 | the header reader fails with FormatError exactly on the byte 0xc1 |
| WireFormat.StrDenotes | msgpack/fallback.py:459-469 | each of the four str formats: ValueError beyond the limit, more bytes needed, or the body, which is a ValueError if it is not UTF-8; skipping looks at the length only |
| WireFormat.BinDenotes | msgpack/fallback.py:425-435 | each of the three bin formats, unpacked and skipped |
| WireFormat.ExtDenotes | msgpack/fallback.py:436-458 | each of the eight ext formats: codes 0 to 127 are ExtType, -1 is a timestamp, -128 to -2 are a ValueError; skipping accepts every code |
| WireFormat.TimestampDenotes | msgpack/ext.py:71-95 | payloads of 4, 8 and 12 bytes denote the seconds and nanoseconds their fields spell; too many nanoseconds are a ValueError where they are checked |
| WireFormat.OtherPayloadsDenoteNothing | msgpack/ext.py:91-94 | timestamp payloads of other lengths are a ValueError |
| WireFormat.ArrayHeaderDenotes | msgpack/fallback.py:470-476 | each array header announces the count it spells, or is a ValueError beyond the limit |
| WireFormat.MapHeaderDenotes | msgpack/fallback.py:477-483 | each map header likewise |
| WireFormat.IntegerFormats | msgpack/fallback.py:698-723 | every integer is written in the first of the ten formats that holds it, spelled out, or refused outside 64 bits |
| WireFormat.LengthFormats | msgpack/fallback.py:889-911 | str and bin headers of every length, with and without bin types |
| WireFormat.CountFormats | msgpack/fallback.py:865-881 | array and map headers of every count |
| WireFormat.ExtFormats | msgpack/fallback.py:756-772 | ext headers of every length |
| WireFormat.TimestampFormats | msgpack/ext.py:97-116 | a timestamp is written with 32, 64 or 96 bits that spell it, and refused exactly outside 64-bit seconds |
| WireFormat.ScalarFormats | msgpack/fallback.py:692-775 | which header and body every value that is no container gets, and the one exception each may raise in the C packer |
| WireFormat.TooDeepIsRefused | msgpack/fallback.py:690-691 | beyond the nesting limit both packers raise ValueError for any value |
| Attempts.ReachFits | msgpack/fallback.py:358-560 | an attempt asks beyond the input exactly if it needs more, inside it if it fails, and an object ends where it has asked last |
| Attempts.ReachAhead | msgpack/fallback.py:358-560 | an attempt asks further and further: what its header needs comes first |
| Attempts.PairsFromPair | msgpack/fallback.py:526-534 | one turn of the loop over a map takes one pair and leaves the rest of the loop, in value, exception and in how far it asks |
| Machine.HeaderActionIsLegal | msgpack/unpack_template.h:153-224 | every header byte leads to a state whose `trail` is the exact byte need of its `cs`, and never to a map that starts with a value |
| Machine.TrailActionIsLegal | msgpack/unpack_template.h:227-317 | the same for every trailing field of every state |
| Machine.PushValue | msgpack/unpack_template.h:319-351 | closing completed containers leaves only frames with 0 <= count < size and a legal `ct`, and never more frames |
| Machine.Tick | msgpack/unpack_template.h:151-357 | every transition consumes at least one byte, stays within the input and keeps the state legal, so `top <= 1024` always; the only errors are those of the recursive decoder |
| Machine.Run | msgpack/unpack_template.h:78-386 | the loop terminates from every legal state, and a suspended run leaves a legal state |
| Machine.Resume | msgpack/unpack_template.h:378-384 | continuing a suspended run with more bytes is one run over all of them |
| Machine.SuspendedOnPrefix | msgpack/unpack_template.h:227-232 | the bytes a suspended run left over have not influenced its state |
| Machine.ChunkInvariance | msgpack/unpack_template.h:78-386 | for every input and every way of cutting it, re-entry per chunk gives the result, object and position of a single run |
| Machine.RunMoved | msgpack/unpack_template.h:78-97 | the machine depends only on the bytes from its offset on, so the window may be moved between calls |
| Machine.ContainerHeaderInWindow | msgpack/unpack_container_header.h:1-50 | a container header found in a window is the header of the stream behind it; only a short window hides it |
| Refinement.HeaderFollows | msgpack/unpack_template.h:151-317 | one header read by the recursive decoder, of any of the wire formats, is what the machine does from CS_HEADER, with any frames open |
| Refinement.ObjectSimulates | msgpack/unpack_template.h:124-134 | from CS_HEADER with any frames open, the machine decodes or skips one object as the recursive decoder does, then pushes it; or waits, or fails |
| Refinement.ItemsSimulate | msgpack/unpack_template.h:324-329 | the rest of an array, from any partly filled frame |
| Refinement.PairsSimulate | msgpack/unpack_template.h:330-347 | the rest of a map, from any partly filled frame, with the key rules checked after the value |
| Refinement.MachineComputesDecode | msgpack/unpack_template.h:78-386 | the machine returns every object the recursive decoder decodes within 1024 containers, after the same bytes; and nothing else where timestamps are refused alike |
| Refinement.MachineIsTheUncheckedDecoder | msgpack/unpack_template.h:78-386 | for every option setting the machine returns exactly what the recursive decoder without the nanosecond check decodes, so in particular all that the fallback decodes with any recursion limit up to 1024 |
| Refinement.MachineWaits | msgpack/unpack_template.h:114-122 | where the recursive decoder needs more bytes the machine suspends, unless the input ends in the header of the longest ext, which it refuses with ValueError |
| Refinement.MachineRefusesTheLongestExt | msgpack/unpack_template.h:240-243 | that exception is real: on those five bytes one waits and the other raises ValueError |
| Refinement.MachineSkipsAsDecode | msgpack/unpack_template.h:400-405 | on every input, C `skip` ends where the recursive `skip` ends that knows no length limit but that of the longest ext, and otherwise waits or returns nothing |
| Refinement.OverlongNanoseconds | msgpack/unpack.h:315-345 | an input the fallback decoder refuses and the C decoder accepts, for all options outside `SameTimestamps` |
| Refinement.AgreementCondition | msgpack/unpack.h:300-389 | between timestamp modes 0 and 2, the decoders agree on every input if and only if the mode is 0 or ext bodies are shorter than 8 |
| Skipping.PushKeepsShape | msgpack/unpack_template.h:319-351 | `_push` moves `size`, `count` and `ct` of every frame alike with `construct` on and off |
| Skipping.TickKeepsControl | msgpack/unpack_template.h:100-134 | every transition moves `p`, `cs`, `trail` and the frames alike, unless a callback fails |
| Skipping.SkipFollowsUnpack | msgpack/unpack_template.h:400-405 | whole runs do, also when both are resumed in the middle of an object |
| Skipping.SkipEndsWhereUnpackDoes | msgpack/_unpacker.pyx:509-514 | both implementations of `skip` end where `unpack` does, on every input it accepts |
| UnpackContext.ReadAction | msgpack/unpack_template.h:151-317 | one turn of the loop, up to the stack operation, is a run of machine transitions; starving saves the state the machine suspends in |
| UnpackContext.Context.StoreTop | msgpack/unpack_template.h:319-351 | the switch under `_push` updates the top frame as the machine does and no other |
| UnpackContext.Context.PushObject | msgpack/unpack_template.h:319-351 | the `_push` loop over the array of frames is the recursive closing of containers |
| UnpackContext.Context.StartContainer | msgpack/unpack_template.h:124-134 | a frame is pushed, an empty container completed at once, or -1 or -3 returned, with the frames below untouched |
| UnpackContext.Context.Execute | msgpack/unpack_template.h:78-386 | return code, offset, object, saved context and the exception left by a callback are those of the machine's run; the input is not written to |
| UnpackContext.Context.Init | msgpack/unpack_template.h:47-57 | the context is the initial state again, for building and for skipping |
| UnpackContext.Context.ReadContainerHeader | msgpack/unpack_container_header.h:1-50 | size, return code and offset of a container header read on its own |
| Encoder.IntegersAgree | msgpack/pack_template.h:83-240 | the sign split with two decision trees writes what the fallback's list of ranges writes, and refuses the same integers |
| Encoder.HeadersAgree | msgpack/pack_template.h:403-484 | array, map, raw and bin headers agree for every 32-bit length |
| Encoder.ExtHeadersAgree | msgpack/pack_template.h:495-547 | ext headers with their type byte agree for every 32-bit length |
| Encoder.PackersAgree | msgpack/_packer.pyx:152-269 | whatever the fallback packer accepts, the C packer accepts with identical bytes, under at least the same limit |
| Nesting.AcceptedF | msgpack/fallback.py:676-798 | the fallback packer accepts a value if and only if all of it has a wire format and its height, two per map, is within the limit |
| Nesting.AcceptedC | msgpack/_packer.pyx:152-269 | the C packer accepts it if and only if all of it has a wire format and its height, one per container, is within the limit |
| Nesting.WhereThePackersDiffer | msgpack/fallback.py:782-887 | on what the C packer accepts the two agree if and only if the height counted with two per map is within 511 |
| Nesting.PackedDepth | msgpack/_packer.pyx:41 | an accepted value has at most 512 nested containers, half the frames of the decoder |
| Nesting.DeepestNest | msgpack/fallback.py:55 | in numbers: 511 lists around a list are packed and no more by both, 511 dicts by the C packer, 255 by the fallback |
| RoundTrips.IntRead | msgpack/fallback.py:444-451 | every packed integer is read back by its header, all ten formats |
| RoundTrips.ExtRead | msgpack/fallback.py:436-458 | every packed ext body is read back with its type code, fixed or sized |
| RoundTrips.ScalarRoundTrip | msgpack/fallback.py:698-775 | every packed value that is not a container reads and converts back, in whatever it stands |
| RoundTrips.ValueRoundTrip | msgpack/fallback.py:488-560 | wherever packed bytes stand, with anything behind them, the decoder returns the value as the options show it and stops at their end; in legacy mode str and bytes merge, keys staying distinct |
| RoundTrips.SeenIsIdentity | msgpack/fallback.py:549-557 | with bin types, without `raw` and integer timestamps, what the options show is the value itself |
| RoundTrips.PackThenDecode | msgpack/fallback.py:800-809 | `pack(v)` followed by any `rest` decodes to `v` and leaves exactly `rest` |
| Repacking.DecodedIsBuilt | msgpack/fallback.py:488-560 | whatever is decoded is within the limits and the wire format, no deeper than allowed, and every dict in it, at every depth, has distinct, hashable and allowed keys |
| Repacking.SourceFits | msgpack/fallback.py:392-560 | for every value within the limits there is a packable one, itself unless it holds integers over 64 bits, whose packing decodes to it under the same limits |
| Repacking.DecodedThenPacked | msgpack/fallback.py:800-809 | unless large integers or too long raw bodies are decoded, whatever was decoded from any bytes is packed by each packer up to its nesting limit, and decodes to itself again with anything behind it |
| Repacking.DecoderImage | msgpack/fallback.py:392-560 | the values that some input decodes to are exactly the built ones, for all options of the fallback decoder, and of the C one unless integers over 64 bits are decoded |
| Repacking.LongRawBody | msgpack/fallback.py:425-435 | every raw body longer than `max_bin_len` decodes with `raw`, packs as bin, and is then refused |
| Repacking.RepackingCondition | msgpack/fallback.py:425-469 | what is decoded packs and decodes to itself, on every input, if and only if no timestamp with 64-bit seconds is decoded as an integer and raw bodies decoded as bytes fit the limit for bin |
| Repacking.EncodableCondition | msgpack/ext.py:146-152 | everything decodable has a wire format if and only if no timestamp with 64-bit seconds is decoded as an integer |
| OtherLimits.DecodeUnderOtherLimits | msgpack/fallback.py:463-485 | under other limits a decoding that succeeds or waits does the same or is a ValueError, at any depth, unpacking or skipping |
| OtherLimits.RunUnderOtherLimits | msgpack/unpack.h:139-264 | the same for runs of the machine from any legal state |
| WholeInputs.UnpackbAgree | msgpack/_unpacker.pyx:141-208 | what the fallback `unpackb` returns, ExtraData included, the C one returns, for every recursion limit up to 1024; and with that limit they refuse the same inputs where timestamps are refused alike |
| WholeInputs.PackbThenUnpackb | msgpack/fallback.py:72-94 | both `unpackb` return what was packed, as the options show it, with ExtraData for exactly what is behind, whichever limits are derived from the input |
| WholeInputs.ProperPrefixNeedsMore | msgpack/fallback.py:358-390 | on every proper prefix of a packed value the recursive decoder asks for more data and the machine suspends: no value, no FormatError |
| WholeInputs.UnpackbRefusesPrefixes | msgpack/fallback.py:84-94 | both `unpackb` raise ValueError on every proper prefix of a packed value, never an object, ExtraData or FormatError, with limits derived from the prefix |
| Shortest.PackedSize | msgpack/fallback.py:698-782 | what is packed for a float-free value has the least size computed from its parts |
| Shortest.DecodedSize | msgpack/fallback.py:392-560 | no accepted encoding is smaller than that size, through every nesting and with duplicate keys |
| Shortest.NoEncodingIsShorter | msgpack/fallback.py:698-911 | every decoded float-free value within the nesting limit of either packer is packed by it, and no byte string that decodes to it is shorter |
| Shortest.ShortestCondition | msgpack/fallback.py:549-557 | this holds on every input if and only if `raw` is off and timestamps are not decoded as integers (or `max_ext_len` lets none through) |
| Limits.AutomaticLimitsLoseNothing | msgpack/fallback.py:272-283 | whatever decoding accepts, it accepts with the same value when any of the limits are derived from the input's length |
| Limits.PushMeetsOneNeed | msgpack/unpack_template.h:319-351 | an object handed to the stack meets exactly one of the needs of its open frames, however many containers it closes |
| Limits.ObjectsNeedBytes | msgpack/unpack_template.h:151-357 | a run that returns has consumed a byte for everything its open frames still waited for |
| Limits.AutomaticLimitsLoseNothingC | msgpack/_unpacker.pyx:177-186 | the same for the C machine from any legal state, for all option settings |
| Keys.SameKeyIsEquality | msgpack/fallback.py:526-534 | two keys are one exactly if both equal the same integer (True is 1, a float with integral value is its integer) or they are the same value and no NaN |
| Keys.DecodedKeysObey | msgpack/fallback.py:526-534 | with `strict_map_key` every key at every depth of a decoded value is str or bytes; without, none is a container |
| Keys.MapAcceptance | msgpack/fallback.py:520-540 | a map whose keys and values decode is the dict of these exactly if every key is str or bytes, or without `strict_map_key` hashable; else it is a ValueError or a TypeError |
| Keys.ArrayAcceptance | msgpack/fallback.py:504-519 | a list whose elements decode is the list of these |
| Keys.TooDeepIsStackError | msgpack/fallback.py:500-540 | a container beyond the recursion limit fails for that, whatever is in it |
| Keys.MachineMapAcceptance | msgpack/unpack.h:193-217 | the machine accepts the same maps with the same dict and refuses the others with the same exception |
| Keys.KeyWithoutValue | msgpack/unpack_template.h:330-347 | after a key and before its value, with any frames open, the fallback has refused a key that is not allowed while the machine waits whatever the key is |
| Refusals.MachineFormatError | msgpack/unpack_template.h:153-224 | a run of the machine ends in FormatError at q if and only if the byte at q is 0xc1 and a header is due there |
| Refusals.MachineStackError | msgpack/unpack_template.h:124-134 | it ends in StackError if and only if a container header ends there that began where a header was due with 1024 containers open |
| Refusals.DecoderRefusals | msgpack/fallback.py:488-560 | the recursive decoder fails with FormatError or StackError if and only if it comes to the reserved byte, or to a container with no level left |
| Refusals.UnpackbRefusalsC | msgpack/_unpacker.pyx:186-208 | the C `unpackb` raises FormatError and StackError exactly on these inputs |
| Refusals.UnpackbRefusalsF | msgpack/fallback.py:72-94 | so does the fallback `unpackb` |
| Refusals.UnpackbRefusesCounts | msgpack/fallback.py:272-283 | with derived limits a list announced with more elements than bytes, or a dict with more than half as many pairs, is a ValueError of both `unpackb` whatever is in it |
| Refusals.UnpackbKeys | msgpack/_unpacker.pyx:186-208 | on a map at the start of an input whose keys and values decode, both `unpackb` give the dict, with ExtraData for what is behind, or the exception for its keys |
| StackSafety.LimitsRefuse | msgpack/fallback.py:463-485 | a tighter length limit refuses a header or leaves it as it was |
| StackSafety.ValueIsSafe | msgpack/unpack_template.h:124-134 | with any frames open around it, a packed value that fits below 1024 frames is skipped in full, and unpacked or refused for another reason than the stack |
| StackSafety.SkippingLosesTheLongestExt | msgpack/unpack_template.h:240-243 | skipping an ext of 2^32 - 1 bytes ends after five bytes, whatever follows |
| StackSafety.PackerOutputFitsTheStack | msgpack/unpack.h:19 | the C decoder never returns -3 on packer output, unpacking or skipping, with anything behind it and under any options; skipping ends exactly behind it, unless it holds an ext of that length |
| Streams.AnyInterleaving | msgpack/fallback.py:562-576 | for any interleaving of `feed` and `next`, what was delivered is a prefix of the decoding of all that was fed, and all of it once `next` is rejected |
| Streams.WellFormedNeverRaises | msgpack/fallback.py:565-574 | on a well-formed stream nothing but StopIteration is raised, however it is cut and interleaved |
| Streams.CuttingDoesNotMatter | msgpack/fallback.py:318-332 | two drained runs over the same bytes delivered the same objects |
| Streams.ArrayPieceByPiece | msgpack/fallback.py:590-593 | `read_array_header` then n times `unpack` gives the elements of the array and ends where it ends |
| Streams.MapPieceByPiece | msgpack/fallback.py:595-598 | `read_map_header` then 2n times `unpack` gives the entries of the dict and ends where the map ends |
| Streams.ContainerHeadersAgree | msgpack/unpack_template.h:407-421 | the C header readers find the sizes `_read_header` finds; only the fallback checks them against its limits |
| FallbackUnpacker.Unpacker.Feed | msgpack/fallback.py:318-332 | the stream grows by the data and the read position stays, or BufferFull and nothing changes; the buffer stays within its maximum |
| FallbackUnpacker.Unpacker.Refill | msgpack/fallback.py:373-384 | the refill loop ends with the bytes asked for or at the end of the file, reads only while some are missing, each time for `read_size` bytes or all that are missing, and never exceeds `max_buffer_size + read_size - 1` |
| FallbackUnpacker.Unpacker.Reserve | msgpack/fallback.py:358-390 | each outcome exactly: the bytes are there at an unmoved position; OutOfData, with the position back at the checkpoint, if feeding, or if asked to where the file ends before them; BufferFull if they end more than `max_buffer_size` behind the checkpoint |
| FallbackUnpacker.Unpacker.Read | msgpack/fallback.py:350-356 | the bytes returned are those of the stream at the read position |
| FallbackUnpacker.Unpacker.ReadToken | msgpack/fallback.py:392-486 | header, position and exception are those of the recursive decoder on the whole stream; BufferFull only, and always, where a file would have to be read too far for it |
| FallbackUnpacker.Unpacker.Unpack | msgpack/fallback.py:488-560 | so are object, position and exception of `_unpack`; OutOfData rolls back, BufferFull is raised exactly where the attempt asks further than the buffer may hold, and the file is read only for bytes the attempt needs |
| FallbackUnpacker.Unpacker.Consume | msgpack/fallback.py:334-337 | the offset becomes the read position, so `tell()` is the end of the object |
| FallbackUnpacker.Unpacker.UnpackOne | msgpack/fallback.py:582-588 | one more object is delivered and the offset is its end, or nothing has moved on OutOfData |
| FallbackUnpacker.Unpacker.Next | msgpack/fallback.py:565-574 | one step of the abstract session; StopIteration exactly where the decoder needs more than the stream has, changing nothing; BufferFull only from a file and only for an attempt that asks too far; no read while the object is in the buffer |
| FallbackUnpacker.Unpacker.Skip | msgpack/fallback.py:578-580 | the offset moves to the end the skipping decoder finds, so to that of the object wherever `unpack` accepts one, and stays on an exception, which is the decoder's, OutOfData where it needs more, or BufferFull where it asks too far |
| FallbackUnpacker.Unpacker.ReadBytes | msgpack/fallback.py:345-348 | exactly the next bytes of the stream; fewer only at the end of a file, OutOfData when feeding, BufferFull exactly for more from a file than the buffer may hold |
| FallbackUnpacker.Unpacker.ReadContainerHeader | msgpack/fallback.py:590-598 | a header of the wanted kind is consumed and its size returned; ValueError only for another object or a refused header, OutOfData for a short one, BufferFull where a file would have to be read too far; the offset stays on each |
| FallbackUnpacker.Drive | msgpack/fallback.py:562-576 | a whole run of `feed` and `next` calls in any order ends where the abstract session does, and a fresh unpacker has delivered a prefix of the decoding of all it was fed; BufferFull only from a `feed` too large for what the calls before it left unread, and they are undisturbed |
| FallbackUnpacker.Unpackb | msgpack/fallback.py:72-94 | feeding a fresh unpacker and unpacking once is decoding the whole input: the object, ExtraData, ValueError for incomplete input, or the decoder's exception |
| FallbackPacker.Packer.PackValue | msgpack/fallback.py:676-798 | exactly the encoding is appended, or its exception raised behind exactly the headers and elements before the refused one |
| FallbackPacker.Packer.Pack | msgpack/fallback.py:800-809 | returned and cleared with `autoreset`, kept without, cleared on an exception |
| FallbackPacker.Packer.PackMapPairs | msgpack/fallback.py:811-816 | the encoding of a map of these pairs; an exception leaves the header and exactly what precedes the refused value |
| FallbackPacker.Packer.PackExtType | msgpack/fallback.py:836-863 | codes 0 to 127 and 32-bit lengths only, and never a reset |
| CPacker.MeterStep | msgpack/pack.h:39-60 | one write or reset keeps the bounds on capacity and on bytes moved |
| CPacker.AmortisedGrowth | msgpack/pack.h:39-60 | over any writes and resets the capacity is at most max(initial, twice the peak demand), and all reallocations together move fewer bytes than twice that peak |
| CPacker.PackBuffer.Write | msgpack/pack.h:39-60 | the contents grow by exactly the data, and the sizes move as the meter says |
| CPacker.PackBuffer.PackValue | msgpack/_packer.pyx:152-269 | exactly the encoding is appended to the growable buffer, or its exception raised behind exactly the headers and elements before the refused one |
| CPacker.PackBuffer.Pack | msgpack/_packer.pyx:272-285 | returned and cleared with `autoreset`, kept without, cleared on an exception |
| CUnpacker.GrowthStep | msgpack/_unpacker.pyx:403-441 | one reallocation keeps 2^(k-1) * read_size <= max_buffer_size for k reallocations |
| CUnpacker.Unpacker.AppendBuffer | msgpack/_unpacker.pyx:403-441 | the unread window w becomes w followed by the data, or BufferFull and nothing changes; 0 <= head <= tail <= size <= max |
| CUnpacker.Unpacker.ReadFromFile | msgpack/_unpacker.pyx:443-453 | one read for `read_size` bytes or what the window has room for; it never overflows the window, loses nothing, and brings the end of the file nearer |
| CUnpacker.Unpacker.Feed | msgpack/_unpacker.pyx:387-401 | the stream grows by the data, and a half decoded object goes on |
| CUnpacker.Unpacker.RunOverWindow | msgpack/_unpacker.pyx:455-464 | running the saved state over the window is running the object from its first byte over everything that has arrived |
| CUnpacker.Unpacker.UnpackWith | msgpack/_unpacker.pyx:455-485 | the retry loop terminates with the object or exception that one run over the whole stream gives, whatever arrived when; running out of data loses nothing; BufferFull only with the machine starved over a full window; the file is read only while the machine, run over all there is, waits |
| CUnpacker.Unpacker.Unpack | msgpack/_unpacker.pyx:501-547 | an object comes back exactly where the recursive decoder finds one at the end of the last, and the offset is its end; when the data runs out, every object of the stream has been delivered; BufferFull and reads of the file as for `UnpackWith` |
| CUnpacker.Unpacker.Skip | msgpack/_unpacker.pyx:509-514 | the offset moves to the end of the object wherever a recursive `skip` without length limits finds one, the longest ext apart, and so wherever `unpack` accepts one; exceptions are those of one run over the stream, BufferFull as for `UnpackWith` |
| CUnpacker.Unpacker.ReadBytes | msgpack/_unpacker.pyx:488-498 | exactly the next bytes of the stream: from the window if it has them all, else the whole window and what one read of the file for exactly the missing bytes gives |
| CUnpacker.Unpacker.ReadContainerHeader | msgpack/_unpacker.pyx:517-532 | the size found at the offset of the stream, however it arrived, or OutOfData or ValueError with nothing moved; BufferFull and reads of the file only while the bytes there do not hold the header |
| CUnpacker.Drive | msgpack/_unpacker.pyx:387-547 | a whole run of `feed` and `next` calls in any order ends where the abstract session does wherever that goes through, the longest ext at the end apart; if complete objects are to come nothing but BufferFull is raised, and that only from a `feed` that does not fit behind what the calls before it left; other exceptions are those of one run of the machine; what was delivered is a prefix of the decoding of the stream |
| CUnpacker.Unpackb | msgpack/_unpacker.pyx:141-208 | one run of the machine over the whole input, with the object, ExtraData, FormatError, StackError or the callback's own exception |

## Left out

- User hooks (`object_hook`, `object_pairs_hook`, `list_hook`, `ext_hook`, `default`) and `use_list=False`: arbitrary callbacks; tuples as keys are therefore not modelled, and a list or map as a key is always unhashable.
- Floats: a float is its opaque 8-byte image but for its equality with integers, the widening of a 4-byte image is an arbitrary function, and `use_single_float` is off.
- UTF-8 and `unicode_errors`: a Python string is its encoded form, and which byte strings decode is an arbitrary predicate of the options.
- Timestamp output modes 1 and 3, `to_unix`, `from_unix` and the datetime conversions: floating point and the datetime library.
- Type dispatch (`strict_types`, subclasses, memoryview, bytearray): the value already says which case applies.
- Reference counts, interning, the buffer protocol, export counting and critical sections: they concern CPython, not the format.
- Memory exhaustion and overflow of `size_t`, `Py_ssize_t` and the 64-bit `stream_offset`: allocation succeeds and sums do not overflow.
- Platform branches of `sysdep.h` and of the integer conversions: only the 64-bit meaning is modelled, with shifts and masks written as arithmetic.
- The interpreter's recursion limit: the fallback decoder takes the number of containers it may still open as a parameter, and beyond it fails with StackError.
- Argument defaults and validation of the two `Unpacker` constructors (`read_size`, the five limits of -1): limits are given, and 0 < read_size <= max_buffer_size. For the two `unpackb` any of the five limits may be -1.
- Equality of the exceptions when both decoders refuse an input: the two check limits and keys at different moments, and each one's FormatError and StackError are characterised on their own.
- The state of an unpacker after FormatError or a limit error.
- `pack_array_header` and `pack_map_header` of both packers and `pack_map_pairs`, `pack_ext_type` and `pack_timestamp` of the C packer: they write the headers and loops already modelled.
- Slots of a C list that are still NULL hold Nil here; no result contains one.
- `copied` in the C packer counts the live bytes of the old buffer; what realloc really moves may be less.
- CUnpacker.Unpacker.Skip: mixing `unpack` and `skip` (or `read_bytes` and header reads) in the middle of an object is excluded by a precondition; the C code permits it and then continues a half built object with the wrong callbacks.
- CUnpacker.Unpackb: an ext limit of 2^32 - 1 and more is excluded, given or derived from an input that long, since it would let the 32-bit wrap of the ext length through.
- Shortest.NoEncodingIsShorter: is about float-free values, since a float 32 on the wire packs back as a float 64.
