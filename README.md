# Slime.Networking in Dafny

Slime.Networking generates C# packet classes for the Minecraft protocol. It
has two parts:

- **The generator** (`Program` and `Generator`). It reads `protocol.json` into
  two nested dictionaries:
  - `PacketMappings`: namespace → direction → id → packet name;
  - `Packets`: namespace → direction → packet name → field name → type tag.

  It then writes one mapping file, plus one class file per packet, through an
  output buffer `Out` and an indentation depth `Tabs`.
- **The streams** the generated classes use (`RawStream` and
  `MinecraftStream`). They read and write VarInt and VarLong values,
  big-endian integers, booleans and length-prefixed strings.

This project models both parts and proves what they do.

| file | module | what it holds |
|---|---|---|
| `results.dfy` | `Results` | `Option` and `Result`, with early return (`:-`) |
| `alist.dfy` | `AssocList` | a .NET `Dictionary` as an association list. It keeps insertion order, which the generator relies on. |
| `json.dfy` | `JsonTree` | the parsed `JToken` tree: strings, arrays, and objects whose members stay in document order. Also the token operations the parser uses (`token[key]`, `array[i]`, `Children()` with their casts) and the exceptions they raise. |
| `names.dfy` | `Names` | `FormatName` as a `while` loop, proved against a recursive definition |
| `schema.dfy` | `Schema` | the parse of `protocol.json` as functions, with lemmas about order, shape and failure |
| `emit.dfy` | `Emit` | the output. Each `Write*` helper is a script of `Write`/`AddTab`/`RemoveTab` calls. Also the lines and depths a script produces, and the files a run saves, with lemmas on layout, line counts, brace balance, order and paths. |
| `generator.dfy` | `Generation` | the class `Generator`. Its dictionaries, `Out`, `Tabs` and the list of saved files are fields that its methods update in place. Every method is proved against `Schema` and `Emit`. `Program` is the same class built with the tab indentation and the fixed settings of Program.cs. |
| `wire.dfy` | `Wire` | the byte codecs as functions on two's-complement bit patterns: LEB128 (VarInt, VarLong), network-order `int`/`short`/`long`, `ushort`, `bool`. Includes the round-trip lemmas. |
| `transport.dfy` | `Transport` | the wrapped stream's read side: the bytes, a cursor, and a list of caps. A cap is the most one primitive read hands over, since a network stream delivers data in pieces. |
| `raw_stream.dfy` | `RawStreams` | the class `RawStream`. It holds that read side, the cancellation answers, and every byte written. Its readers and writers are methods with loops. |
| `minecraft_stream.dfy` | `MinecraftStreams` | the class `MinecraftStream`: the synchronous readers, the `Write` over a slice, and the two type tables |

Modelling choices:

- **Exceptions.** An exception becomes a `Failure` value. `Schema` uses
  `SchemaError` for invalid casts, missing indexes, null tokens and duplicate
  keys. The streams use `Fault`.
- **Cancellation.** The cancellation token is the list of answers its
  successive `IsCancellationRequested` checks get.
- **Loops that never end.** Two loops in the C# code never end on some inputs:
  - `ReadAsync(int)` with no data left and no cancellation coming;
  - `WriteVarLongAsync` on a negative value.

  The model ends both with an explicit `Diverges` outcome and states when that
  happens.

## Model

| member | source | states |
|---|---|---|
| `JsonTree.Member` | Slime.Networking/Program.cs:188-189 | `token[key]` succeeds exactly on an object, and then gives the member or null (`None`) |
| `JsonTree.At` | Slime.Networking/Program.cs:208-209 | `((JArray)v)[i]` succeeds exactly on an array with more than `i` elements, and gives element `i` |
| `JsonTree.PropertyChildren` | Slime.Networking/Program.cs:219-221 | the children cast to `JProperty` are an object's members in order; a plain value has none; a non-empty array fails the cast |
| `JsonTree.ItemChildren` | Slime.Networking/Program.cs:234-237 | the children used as field descriptors are an array's elements; a non-empty object fails |
| `Schema.AddAllDistinct` | Slime.Networking/Program.cs:225 | successive `Dictionary.Add` calls succeed exactly when all keys are distinct, and then append the entries in call order (over a parsed object the ids are always distinct; see Left out) |
| `Schema.ParseFieldsSpec` | Slime.Networking/Program.cs:234-240 | a packet's fields come from its descriptors by position (first value is the name, second is the type tag, which is not checked), in order. Parsing fails exactly when a descriptor is malformed or a field name repeats. |
| `Schema.ParseEntryMapping` | Slime.Networking/Program.cs:211-227 | the `packet` entry appends its `mappings` (id, name) pairs in document order and leaves the packets alone |
| `Schema.ParseEntryPacket` | Slime.Networking/Program.cs:228-241 | any other entry adds one packet, last, under a name not yet present, with its fields read by position; the ids are left alone |
| `Schema.ParseEntriesPackets` | Slime.Networking/Program.cs:205-242 | a direction's packets are the non-`packet` entries, in document order, under distinct names, and no id is mapped twice |
| `Schema.ParseEntriesMappings` | Slime.Networking/Program.cs:205-227 | a direction's id table is the concatenation of the `packet` entries' pairs, in document order |
| `Schema.ParseRootNames` | Slime.Networking/Program.cs:61-90 | a root property named `types` adds no namespace; every other adds exactly one, in document order |
| `Schema.ParseRootShaped` | Slime.Networking/Program.cs:186-199 | both dictionaries keep the same namespaces, and each namespace has exactly the directions "Client" then "Server" |
| `Schema.ParseSpec` | Slime.Networking/Program.cs:59-90 | a successful parse has that shape and lists the namespaces in document order. On a tree with a repeated namespace the parse fails as `Dictionary.Add` would; `JObject.Parse` never builds such a tree (see Left out). |
| `Schema.ParseNamespaceNeedsBoth` | Slime.Networking/Program.cs:188-198 | a namespace parses exactly when it is an object with both `toClient` and `toServer`, and both directions parse |
| `Names.FirstIndex` | Slime.Networking/Program.cs:365 | `IndexOf("_")` is the first position of `_` |
| `Names.ReplaceShrinks` | Slime.Networking/Program.cs:368 | replacing an occurring `"_" + c` by one character shortens the string, so the loop ends |
| `Names.FormatName` | Slime.Networking/Program.cs:357-372 | the `while` loop computes `Formatted(input)`, the recursive definition the lemmas below are about; `None` is the exception |
| `Names.FormattedIgnoresPacketPrefix` | Slime.Networking/Program.cs:359 | `FormatName("packet_" + s) == FormatName(s)` |
| `Names.FormattedHead` | Slime.Networking/Program.cs:361 | after stripping, a first character other than `_` is upper-cased and stays first; a name without `_` keeps the rest as it is |
| `Names.FormattedHasNoUnderscore` | Slime.Networking/Program.cs:363-369 | a result contains no `_` |
| `Names.FormattedFailsIff` | Slime.Networking/Program.cs:361-366 | `FormatName` throws exactly when nothing is left after stripping `packet_`, or when that string ends in `_` |
| `Names.FormattedKeepAlive` | Slime.Networking/Program.cs:357-372 | `packet_keep_alive` becomes `KeepAlive` |
| `Names.FormattedSpawnEntity` | Slime.Networking/Generator/Generator.cs:359-374 | `spawn_entity` becomes `SpawnEntity` |
| `Names.FormattedShortExamples` | Slime.Networking/Program.cs:359-363 | `x` becomes `X`; `packet_` throws |
| `Names.FormattedNotInjective` | Slime.Networking/Generator/Generator.cs:365-371 | `spawnEntity` and `spawn_entity` format to the same name |
| `Emit.PadShape` | Slime.Networking/Generator/Generator.cs:259-264 | the padding is `Tabs` times four spaces (Generator.cs), or `Tabs + 1` tab characters (the `i <= Tabs` loop of Program.cs) |
| `Emit.RunTab` | Slime.Networking/Generator/Generator.cs:247-255 | `AddTab`/`RemoveTab` write nothing and move the depth by one |
| `Emit.MappingHeaderRun` | Slime.Networking/Generator/Generator.cs:280-295 | the header writes the four-line prelude, then opens the namespace, the class and `AddClientPackets`, one level deeper each, and leaves depth + 3 |
| `Emit.MappingMiddleRun` | Slime.Networking/Generator/Generator.cs:297-305 | the middle closes `AddClientPackets` and opens `AddServerPackets` at the same depth |
| `Emit.ClosingRun` | Slime.Networking/Generator/Generator.cs:307-315 | `WriteMappingEnd` (and the identical `WritePacketEnd`) writes three closing braces, each one level less |
| `Emit.PacketHeaderRun` | Slime.Networking/Generator/Generator.cs:317-329 | the packet header writes the prelude, the namespace `...{CodeName}.{ns}.{dir}` and the class, and leaves depth + 2 |
| `Emit.PacketEncodeRun` | Slime.Networking/Generator/Generator.cs:331-337 | `WritePacketEncode` writes a blank line and opens `Encode`, one level deeper |
| `Emit.PacketDecodeRun` | Slime.Networking/Generator/Generator.cs:339-347 | `WritePacketDecode` closes `Encode` and opens `Decode` at the same depth |
| `Emit.ScriptDepths` | Slime.Networking/Generator/Generator.cs:280-357 | tab balance: the mapping helpers go 0 → 3 → 3 → 0, and the packet helpers 0 → 2 → 3 → 3 → 0 |
| `Emit.MappingLayout` | Slime.Networking/Generator/Generator.cs:102-135 | the mapping file, line by line with depths: the openings, each Client line at depth 3, the switch to `AddServerPackets`, each Server line at depth 3, and the closings |
| `Emit.MappingLength` | Slime.Networking/Generator/Generator.cs:280-315 | the mapping file has 17 + (Client lines) + (Server lines) lines |
| `Emit.MappingNested` | Slime.Networking/Generator/Generator.cs:286-314 | with registration lines that are not braces, every line sits at the depth of the braces open before it (a closing brace one level less), and the braces balance back to 0 |
| `Emit.RegistrationLinesNoBrace` | Slime.Networking/Generator/Generator.cs:105-133 | no registration line the loops over namespaces, directions and ids write is a brace |
| `Emit.MappingFileNested` | Slime.Networking/Generator/Generator.cs:286-314 | so every mapping file whose names all format is properly nested and balanced |
| `Emit.PacketLayout` | Slime.Networking/Generator/Generator.cs:151-174 | a packet file: prelude and openings, one property per field at depth 2, `Encode` with one `ms.Write<tag>(<field>);` per field, `Decode` with one `<field> = ms.Read<tag>();` per field, all in field order, then the closings |
| `Emit.PacketLength` | Slime.Networking/Generator/Generator.cs:317-357 | a packet file has 18 + 3·(fields) lines |
| `Emit.PacketNested` | Slime.Networking/Generator/Generator.cs:323-356 | every packet file is properly nested and balanced, whatever its fields |
| `Emit.MappingFileIs` | Slime.Networking/Generator/Generator.cs:135-137 | when every registration formats, the mapping file is saved at `{OutputFolder}{CodeName}Mapping.g.cs` with the text of the lines written since `New()` |
| `Emit.PacketFileIs` | Slime.Networking/Generator/Generator.cs:174-177 | when both names format, a packet file is saved at `{OutputFolder}{CodeName}/{FormatName(ns)}/{dir}/{FormatName(name)}.g.cs` with the text of the lines written since `New()` |
| `Emit.RegistrationOrder` | Slime.Networking/Generator/Generator.cs:105-133 | the registrations of one side come in namespace, then direction, then id order, one `pr.Add` line each. They exist exactly when every name involved can be formatted. |
| `Emit.RegistrationsShaped` | Slime.Networking/Generator/Generator.cs:107-125 | with the parsed shape, the Client block lists each namespace's "Client" table and the Server block its "Server" table |
| `Emit.SaveAllSpec` | Slime.Networking/Generator/Generator.cs:145-178 | the packet files saved are those of the longest prefix of packets whose names format, in loop order. The run gets to the end exactly when that prefix is all of them. |
| `Emit.GeneratedSpec` | Slime.Networking/Generator/Generator.cs:102-178 | if the mapping file cannot be formatted, nothing is saved; otherwise the mapping file (`{OutputFolder}{CodeName}Mapping.g.cs`) is saved first, then the packet files as above |
| `Emit.PacketPathsCollide` | Slime.Networking/Generator/Generator.cs:177 | `spawn_entity` and `spawnEntity` in one direction are saved to the same path |
| `Generation.Generator.constructor` | Slime.Networking/Generator/Generator.cs:21-26 | the settings are exactly the three arguments with the four-space indentation; everything else starts empty |
| `Generation.Generator.Program` | Slime.Networking/Program.cs:17-33 | the static state of `Program`: tab indentation, `Lena`, `1.18.2`, `out/`, and everything else empty |
| `Generation.Generator.AddTab` | Slime.Networking/Generator/Generator.cs:247-250 | `Tabs` goes up by one |
| `Generation.Generator.RemoveTab` | Slime.Networking/Generator/Generator.cs:252-255 | `Tabs` goes down by one |
| `Generation.Generator.Write` | Slime.Networking/Generator/Generator.cs:257-267 | `Out` gains the padding, the text and `"\n"`, and nothing else changes |
| `Generation.Generator.New` | Slime.Networking/Generator/Generator.cs:269-273 | `Out` is empty and `Tabs` is 0 |
| `Generation.Generator.Save` | Slime.Networking/Generator/Generator.cs:275-278 | the file (path, `Out`) is appended to the saved files |
| `Generation.Generator.Perform` | Slime.Networking/Generator/Generator.cs:247-267 | a script of `Write`/`AddTab`/`RemoveTab` calls writes exactly the lines of `Run(script)` and leaves `Tabs` at `Depth(script)` |
| `Generation.Generator.WriteMappingHeader` | Slime.Networking/Generator/Generator.cs:280-295 | writes the mapping header script and raises `Tabs` by 3 |
| `Generation.Generator.WriteMappingMiddle` | Slime.Networking/Generator/Generator.cs:297-305 | writes the middle script and leaves `Tabs` as it was |
| `Generation.Generator.WriteEnd` | Slime.Networking/Generator/Generator.cs:307-315 | writes the three closings and lowers `Tabs` by 3 |
| `Generation.Generator.WritePacketHeader` | Slime.Networking/Generator/Generator.cs:317-329 | writes the packet header script and raises `Tabs` by 2 |
| `Generation.Generator.WritePacketEncode` | Slime.Networking/Generator/Generator.cs:331-337 | writes the `Encode` opening and raises `Tabs` by 1 |
| `Generation.Generator.WritePacketDecode` | Slime.Networking/Generator/Generator.cs:339-347 | writes the switch to `Decode` and leaves `Tabs` as it was |
| `Generation.Generator.ScanTypes` | Slime.Networking/Generator/Generator.cs:67-81 | the scan of the root `types` only logs, and throws exactly when an array child reads "native" first |
| `Generation.Generator.ParsePackets` | Slime.Networking/Generator/Generator.cs:203-245 | the nested loops produce exactly the tables the `Schema` parse of the direction gives, or its error |
| `Generation.Generator.ParseNamespace` | Slime.Networking/Generator/Generator.cs:188-201 | the current namespace gets "Client" then "Server" with their tables; `currentDirection` ends at "Server"; failures are the parse's |
| `Generation.Generator.Load` | Slime.Networking/Generator/Generator.cs:57-92 | after the root loop the two dictionaries are exactly the parsed model, or the run fails with the parse's error |
| `Generation.Generator.WriteRegistration` | Slime.Networking/Generator/Generator.cs:113 | one `pr.Add(<id>, "<FormatName(ns)>", <FormatName(name)>);` line, with two spaces on the Client side, at the current depth; a failing `FormatName` writes nothing |
| `Generation.Generator.WriteIdRegistrations` | Slime.Networking/Generator/Generator.cs:111-114 | one line per id, in table order, at the current depth |
| `Generation.Generator.WriteDirRegistrations` | Slime.Networking/Generator/Generator.cs:107-116 | only the direction named "Client" (or "Server") is written |
| `Generation.Generator.WriteRegistrations` | Slime.Networking/Generator/Generator.cs:105-117 | all registrations of one side, in namespace order |
| `Generation.Generator.WriteMappingBody` | Slime.Networking/Generator/Generator.cs:102-133 | the header, the Client lines at depth 3, the middle and the Server lines at depth 3, when every name formats |
| `Generation.Generator.GenerateMapping` | Slime.Networking/Generator/Generator.cs:98-139 | saves exactly the mapping file `MappingFile(settings, PacketMappings)`, or nothing when a name fails to format |
| `Generation.Generator.WriteDeclarations` | Slime.Networking/Generator/Generator.cs:155-158 | one `public <tag> <field> { get; set; }` per field, in order |
| `Generation.Generator.WriteEncoders` | Slime.Networking/Generator/Generator.cs:162-165 | one `ms.Write<tag>(<field>);` per field, in order |
| `Generation.Generator.WriteDecoders` | Slime.Networking/Generator/Generator.cs:169-172 | one `<field> = ms.Read<tag>();` per field, in order |
| `Generation.Generator.WritePacketBody` | Slime.Networking/Generator/Generator.cs:153-174 | header, declarations at depth 2, encoders and decoders at depth 3, and the closings, ending at depth 0 |
| `Generation.Generator.GeneratePacket` | Slime.Networking/Generator/Generator.cs:151-177 | saves exactly `PacketFile(...)` at `{OutputFolder}{CodeName}/{FormatName(ns)}/{dir}/{FormatName(name)}.g.cs`, or nothing when a name fails |
| `Generation.Generator.GenerateNamePackets` | Slime.Networking/Generator/Generator.cs:149-178 | the files of one direction's packets, in table order, until a name fails |
| `Generation.Generator.GenerateDirPackets` | Slime.Networking/Generator/Generator.cs:147-179 | the files of one namespace's directions, in order |
| `Generation.Generator.GeneratePackets` | Slime.Networking/Generator/Generator.cs:141-182 | the files of every packet, in namespace, direction and table order, until a name fails |
| `Generation.Generator.GenerateCode` | Slime.Networking/Generator/Generator.cs:40-186 | a failing parse saves nothing; otherwise the saved files are exactly `Generated(settings, parsed model)`, so the three settings and the parsed model fix all output, with arrays and objects rendered compactly (see Left out) |
| `Wire.Leb128Length` | Slime.Networking/RawStream.cs:301-305 | an encoding is at most `n` bytes long exactly when the value fits in `7n` bits |
| `Wire.Leb128Bounds` | Slime.Networking/RawStream.cs:297-311 | a `uint` takes 1 to 5 bytes, a `ulong` 1 to 10 |
| `Wire.Leb128Bits` | Slime.Networking/RawStream.cs:303-308 | every byte but the last has 0x80 set; the last is below 0x80 |
| `Wire.VarIntRoundTrip` | Slime.Networking/RawStream.cs:313-316 | the VarInt loop reads back the bytes `WriteVarIntAsync(v)` writes as `v`, for every 32-bit `v`, consuming exactly them (1 to 5 bytes, 5 for every negative `v`) |
| `Wire.VarIntTooBigIff` | Slime.Networking/RawStream.cs:205-222 | the VarInt loop fails ("VarInt is too big") exactly when the first five bytes all have 0x80 set, and otherwise reads 1 to 5 bytes |
| `Wire.VarLongRoundTrip` | Slime.Networking/RawStream.cs:225-246 | the VarLong loop as written reads back `v` for every `v` in 0 .. 2^31 - 1 |
| `Wire.VarLongShiftBreaks` | Slime.Networking/RawStream.cs:232-233 | 2^31 is written as `[128,128,128,128,8]` and read back as -2^31 |
| `Wire.VarLongIsInt` | Slime.Networking/RawStream.cs:225-246 | whatever the bytes, the VarLong loop as written only returns values of an `int` (-2^31 .. 2^31 - 1) |
| `Wire.VarLongRoundTripIff` | Slime.Networking/RawStream.cs:225-246 | a non-negative `long` reads back from its own bytes exactly when it is below 2^31 |
| `Wire.VarLongTooBigIff` | Slime.Networking/RawStream.cs:225-246 | the VarLong loop fails ("VarLong is too big") exactly when the first ten bytes all have 0x80 set, and otherwise reads 1 to 10 bytes |
| `Wire.WideVarLongRoundTrip` | Slime.Networking/RawStream.cs:229-240 | with a `long` shift and the value's unsigned bits written, every `long` reads back, in 1 to 10 bytes |
| `Wire.BigEndianRoundTrip` | Slime.Networking/RawStream.cs:156-159 | `n` network-order bytes read back any value below 256^n |
| `Wire.FromBigEndianRoundTrip` | Slime.Networking/RawStream.cs:181-184 | bytes read as a number are written back as the same bytes |
| `Wire.Int32RoundTrip` | Slime.Networking/RawStream.cs:339-342 | an `int` written in network order reads back through `ToInt` |
| `Wire.Int32BytesOf` | Slime.Networking/MinecraftStream.cs:149-152 | four bytes read as an `int` are written back as the same bytes |
| `Wire.Int16RoundTrip` | Slime.Networking/RawStream.cs:351-354 | a `short` written in network order reads back through `ReadShortAsync` |
| `Wire.Int16BytesOf` | Slime.Networking/RawStream.cs:248-251 | two bytes read as a `short` are written back as the same bytes |
| `Wire.Int64RoundTrip` | Slime.Networking/RawStream.cs:376-379 | a `long` written in network order reads back through `ReadLongAsync` |
| `Wire.Int64BytesOf` | Slime.Networking/RawStream.cs:263-266 | eight bytes read as a `long` are written back as the same bytes |
| `Wire.UShortRoundTrip` | Slime.Networking/RawStream.cs:356-359 | a `ushort` written with no swap reads back through `ToUInt16`, and through `ToInt16` as its `short` |
| `Wire.UShortIsSwapped` | Slime.Networking/RawStream.cs:351-359 | the bytes `WriteUShortAsync` writes are those of `WriteShortAsync` in reverse order |
| `Wire.BoolRoundTrip` | Slime.Networking/RawStream.cs:361-364 | a written `bool` reads back through `ReadBoolAsync` |
| `Transport.Deliver` | Slime.Networking/RawStream.cs:107-122 | a primitive read hands over at most what was asked and what is there, and at most the next cap while caps remain |
| `Transport.YieldsUncapped` | Slime.Networking/RawStream.cs:173-179 | with no caps, successive one-byte reads yield the unread bytes in order, then zeros |
| `Transport.Received` | Slime.Networking/RawStream.cs:140-153 | the buffer `ReadAsync(length)` returns always has `length` bytes |
| `RawStreams.RawStream.constructor` | Slime.Networking/RawStream.cs:25-29 | wraps a stream and a token: cursor 0, no answers used, nothing written |
| `RawStreams.RawStream.FromBuffer` | Slime.Networking/RawStream.cs:36-39 | wraps a `MemoryStream` over the buffer |
| `RawStreams.RawStream.Read` | Slime.Networking/RawStream.cs:85-88 | one primitive read: the bytes between the old and new cursor, at most `count` of them |
| `RawStreams.RawStream.IsCancellationRequested` | Slime.Networking/RawStream.cs:151 | each check takes the next answer; once the answers are used up, the answer is "no" |
| `RawStreams.RawStream.ReadAsync` | Slime.Networking/RawStream.cs:138-154 | a negative length fails. The result has exactly `length` bytes: what was read, then zeros. Every cancellation answer asked was "no" except possibly the last, which stopped a short read. With no cancellation the bytes are exactly the next `length`. With no caps it succeeds exactly when `length` bytes are there or the token is cancelled, and when they are there it returns them without asking the token. It loops forever (`Diverges`) exactly when it needs more and nothing can come. |
| `RawStreams.RawStream.ReadUnsignedByte` | Slime.Networking/RawStream.cs:165-171 | one primitive read of one byte; the next byte, or 0 at the end of the stream |
| `RawStreams.RawStream.ReadUnsignedByteAsync` | Slime.Networking/RawStream.cs:173-179 | the same through `ReadAsync(byte[])` |
| `RawStreams.RawStream.ReadSignedByte` | Slime.Networking/RawStream.cs:161 | that byte as an `sbyte` |
| `RawStreams.RawStream.ReadByteAsync` | Slime.Networking/RawStream.cs:163 | that byte as an `sbyte`, through the async read |
| `RawStreams.RawStream.ReadBoolAsync` | Slime.Networking/RawStream.cs:191-194 | `true` exactly for the byte 1 |
| `RawStreams.RawStream.ReadVarIntAsync` | Slime.Networking/RawStream.cs:201-223 | the loop gives what `DecodeVarInt` gives for the bytes its one-byte reads yield, and stops right after the bytes it used |
| `RawStreams.RawStream.ReadVarLongAsync` | Slime.Networking/RawStream.cs:225-246 | the same with up to ten bytes and the `int` shift of the C# code (`DecodeVarLong`) |
| `RawStreams.RawStream.ReadIntAsync` | Slime.Networking/RawStream.cs:181-184 | the `int` of the four bytes `ReadAsync(4)` returns; with no cancellation, of the next four bytes. With no caps it succeeds exactly when four bytes are there or the token is cancelled. |
| `RawStreams.RawStream.ReadShortAsync` | Slime.Networking/RawStream.cs:248-251 | the same for two bytes and a `short` |
| `RawStreams.RawStream.ReadLongAsync` | Slime.Networking/RawStream.cs:263-266 | the same for eight bytes and a `long` |
| `RawStreams.RawStream.ReadStringAsync` | Slime.Networking/RawStream.cs:258-261 | a VarInt `n` (its failure, or a negative `n`, fails), then `n` bytes. After a good prefix it fails only by waiting forever (`Diverges`). With no cancellation, or with no caps and `n` bytes there, the result is exactly the `n` bytes after the prefix. With no caps it succeeds exactly when they are there or the token is cancelled. |
| `RawStreams.RawStream.WriteAsync` | Slime.Networking/RawStream.cs:287-290 | the bytes are appended to the output |
| `RawStreams.RawStream.Write` | Slime.Networking/RawStream.cs:282-285 | `buffer[offset..offset+count]` is appended exactly when the range is valid; a negative offset or count, or a range past the end, fails and writes nothing |
| `RawStreams.RawStream.WriteByteAsync` | Slime.Networking/RawStream.cs:292-295 | one byte is appended |
| `RawStreams.RawStream.WriteRawVarInt32Async` | Slime.Networking/RawStream.cs:297-311 | appends the LEB128 bytes of the `uint`: 1 to 5 bytes, 0x80 on all but the last, the last below 0x80. It always returns 1. |
| `RawStreams.RawStream.WriteLeb128Async` | Slime.Networking/RawStream.cs:299-310 | the same loop returning the number of bytes it wrote |
| `RawStreams.RawStream.WriteVarIntAsync` | Slime.Networking/RawStream.cs:313-316 | appends the LEB128 bytes of `(uint)value` and returns 1 |
| `RawStreams.RawStream.WriteVarLongAsync` | Slime.Networking/RawStream.cs:318-337 | for `value >= 0`, appends the LEB128 bytes (1 to 10) and returns their count. It runs forever (`Diverges`) exactly for `value < 0`, after appending bytes that all carry 0x80. |
| `RawStreams.RawStream.WriteVarLongUnsignedAsync` | Slime.Networking/RawStream.cs:320-336 | appends the LEB128 bytes of `(ulong)value`, 1 to 10 of them, and returns their count |
| `RawStreams.RawStream.WriteIntAsync` | Slime.Networking/RawStream.cs:339-342 | appends the four network-order bytes |
| `RawStreams.RawStream.WriteShortAsync` | Slime.Networking/RawStream.cs:351-354 | appends the two network-order bytes |
| `RawStreams.RawStream.WriteUShortAsync` | Slime.Networking/RawStream.cs:356-359 | appends the two bytes low first, with no swap |
| `RawStreams.RawStream.WriteLongAsync` | Slime.Networking/RawStream.cs:376-379 | appends the eight network-order bytes |
| `RawStreams.RawStream.WriteBoolAsync` | Slime.Networking/RawStream.cs:361-364 | appends 1 or 0 |
| `RawStreams.RawStream.WriteStringAsync` | Slime.Networking/RawStream.cs:344-349 | appends the VarInt byte count, then the bytes |
| `RawStreams.VarIntThroughStream` | Slime.Networking/RawStream.cs:201-223 | over a stream starting with what `WriteVarIntAsync(v)` wrote, the reads give back `v` and stop right after those bytes |
| `RawStreams.VarLongThroughStream` | Slime.Networking/RawStream.cs:225-246 | the same for `ReadVarLongAsync` after `WriteVarLongAsync(v)`, for `v` in 0 .. 2^31 - 1 |
| `RawStreams.StringRoundTrip` | Slime.Networking/RawStream.cs:258-261 | what `WriteStringAsync(d)` writes, followed by anything, read back by `ReadStringAsync` from a stream that hands over everything at once is `d`, whatever the token answers |
| `RawStreams.StringThroughStream` | Slime.Networking/RawStream.cs:258-261 | over a stream starting with what `WriteStringAsync(d)` wrote, the prefix reads back as the length of `d`, and the bytes after it are `d` |
| `RawStreams.ShiftSeven` | Slime.Networking/RawStream.cs:324-325 | `& 127` and `>>= 7` on a `long`: a non-negative value shrinks to 0; a negative value stays negative and shrinks until it is -1, which shifts to itself |
| `MinecraftStreams.TablesShareKeys` | Slime.Networking/MinecraftStream.cs:16-86 | both tables have exactly the eight distinct keys varint, buffer, pstring, u8, u16, u32, u64, i8, in that order |
| `MinecraftStreams.TablesOnU32` | Slime.Networking/MinecraftStream.cs:19-76 | `u32` declares an `int` property but is written and read with `VarInt`; `varint` maps to `int` in both tables |
| `MinecraftStreams.MinecraftStream.constructor` | Slime.Networking/MinecraftStream.cs:88-90 | wraps the stream and token |
| `MinecraftStreams.MinecraftStream.Empty` | Slime.Networking/MinecraftStream.cs:92-94 | wraps a new, empty `MemoryStream` |
| `MinecraftStreams.MinecraftStream.Read` | Slime.Networking/MinecraftStream.cs:110-146 | a negative length fails. Over a `MemoryStream` there is one read, always `Ok`: the unread bytes padded with zeros to `length` (`Pad`), and the cursor moves by `length` or up to the end. Otherwise it returns exactly the next `length` bytes, or fails with `EndOfStream` (a read handed over nothing, or cancellation came first), `Disposed` (cancellation right after a read) or `IOError` (the synchronous base read threw, which it does exactly when it hands over nothing while bytes remain, and then nothing is consumed). A cancellation already set fails every `length > 0` without reading. With no cancellation and no caps it succeeds exactly when `length` bytes are there. Whenever they are there, there are no caps, and the stream is a `MemoryStream` or is never cancelled, the result is exactly those bytes. |
| `MinecraftStreams.MinecraftStream.ReadChunks` | Slime.Networking/MinecraftStream.cs:121-145 | the non-`MemoryStream` loop, with the facts above for other streams |
| `MinecraftStreams.MinecraftStream.ReadTurn` | Slime.Networking/MinecraftStream.cs:123-144 | one turn of that loop: a cancellation first stops it with `EndOfStream` and reads nothing; a throwing read stops it with `IOError` and consumes nothing; otherwise one primitive read of at most what is still wanted, then `EndOfStream` if it handed over nothing, `Disposed` if cancellation comes right after, else the turn goes on with exactly the bytes read |
| `MinecraftStreams.MinecraftStream.ReadUnsignedByte` | Slime.Networking/RawStream.cs:165-171 | the inherited one-byte read |
| `MinecraftStreams.MinecraftStream.ReadBool` | Slime.Networking/MinecraftStream.cs:159-162 | `true` exactly for the byte 1 |
| `MinecraftStreams.MinecraftStream.ReadVarIntCounted` | Slime.Networking/MinecraftStream.cs:174-199 | the value and the byte count are what `DecodeVarInt` gives: 1 to 5 bytes, or "VarInt is too big" exactly when the first five bytes all have 0x80 set |
| `MinecraftStreams.MinecraftStream.ReadVarInt` | Slime.Networking/MinecraftStream.cs:169-172 | the same value without the count |
| `MinecraftStreams.MinecraftStream.ReadVarLong` | Slime.Networking/MinecraftStream.cs:201-222 | `DecodeVarLong`, with its `int` shift |
| `MinecraftStreams.MinecraftStream.ReadInt` | Slime.Networking/MinecraftStream.cs:149-152 | the `int` of what `Read(4)` returns. Over a `MemoryStream` it is always `Ok`: the `int` of the next four bytes padded with zeros, the cursor moving by four or up to the end. Over other streams, on success it is the `int` of the next four bytes. |
| `MinecraftStreams.MinecraftStream.ReadShort` | Slime.Networking/MinecraftStream.cs:224-227 | the same for two bytes and a `short` |
| `MinecraftStreams.MinecraftStream.ReadLong` | Slime.Networking/MinecraftStream.cs:281-284 | the same for eight bytes and a `long` |
| `MinecraftStreams.MinecraftStream.ReadString` | Slime.Networking/MinecraftStream.cs:276-279 | a VarInt `n`, then `n` bytes. After a good prefix a `MemoryStream` always succeeds with the `n` bytes after the prefix padded with zeros, and other streams fail only with `EndOfStream`, `Disposed` or `IOError`. On success over other streams, or with `n` bytes there, the result is exactly the `n` bytes after the prefix. With no caps and no cancellation, other streams succeed exactly when they are there. |
| `MinecraftStreams.StringRoundTrip` | Slime.Networking/MinecraftStream.cs:276-279 | what `WriteStringAsync(d)` writes, followed by anything, read back by `ReadString` from a stream that hands over everything at once is `d`: over a `MemoryStream` whatever the token answers, otherwise when it is never cancelled |
| `MinecraftStreams.ReadBack` | Slime.Networking/MinecraftStream.cs:276-279 | over a stream with no caps whose VarInt prefix decodes to the length of `d` and is followed by `d`, `ReadString` returns `d`: always over a `MemoryStream`, otherwise when the token is never cancelled |
| `MinecraftStreams.MinecraftStream.ReadUShortLocal` | Slime.Networking/MinecraftStream.cs:248-260 | a negative count fails. The result has `count` values below 2^16. Over a `MemoryStream` it always succeeds: the values are the byte pairs, low byte first, of the unread bytes padded with zeros to `2·count`, and the cursor moves `2·count` or up to the end. Over other streams, on success they are the byte pairs from the cursor and the cursor moves `2·count`; a failure is that of a `Read(2)`. |
| `MinecraftStreams.MinecraftStream.ReadShortLocal` | Slime.Networking/MinecraftStream.cs:262-274 | the same as `short` values |
| `MinecraftStreams.MinecraftStream.Write` | Slime.Networking/MinecraftStream.cs:103-108 | as written, it succeeds exactly when `offset == 0`, then writes `buffer[..len]`. A positive offset over a valid slice fails; a bad slice fails; a failure writes nothing. |
| `MinecraftStreams.MinecraftStream.WriteSlice` | Slime.Networking/MinecraftStream.cs:105-107 | the slice `buffer[offset..offset+len]` is written exactly when it is valid |

## Left out

- **I/O and logging.** The HTTP download of `protocol.json`, the logger,
  `AnsiConsole`, `Directory.CreateDirectory` and `Console.ReadLine` are left
  out. `File.WriteAllText` is a file appended to a list, and the model starts
  from the parsed JSON tree.
- **The JSON parser.** `JObject.Parse` is left out. The `Json` tree has
  strings, arrays and objects only: numbers, booleans and `null` have no
  leaf, so a protocol file holding one (say as a mapping value or inside a
  type tag) is not a model input, and `Render` has no form for them. `JToken.ToString()` of an
  array or an object is rendered compactly (`Render`); Newtonsoft indents it,
  with line breaks and spaces. This matters wherever such a value is turned
  into text:
  - a mapping value that is not a string;
  - a field's type tag (`type.Value.ToString()`, Program.cs:239 and
    Generator/Generator.cs:241). Array tags such as `["option","varint"]` are common, and
    for every such field the `public <tag> <field>`, `ms.Write<tag>(...)` and
    `ms.Read<tag>()` lines of `PacketFile`, and so `Generated`, differ from the
    real output in that whitespace.
- **Duplicate member names.** `JObject.Parse` keeps one property per name
  (the last one), so every object it builds has distinct member names. The
  model accepts any tree. Its failures on a repeated namespace
  (Program.cs:85-86), mapping id (Program.cs:225) or packet name
  (Program.cs:232) come only from trees `JObject.Parse` never builds. Only a
  repeated field name, which comes from two array elements (Program.cs:239),
  reaches `Dictionary.Add` in a real run.
- **Characters and strings.**
  - `ToUpper` is ASCII only; culture rules are left out.
  - Strings on the wire are byte sequences; the UTF-8 encoding and decoding
    are left out.
- **Unseen code.** Floats and doubles, and everything that goes through
  `EndianUtils`, are not part of this model: `ReadFloat(Async)`,
  `ReadDouble(Async)`, `ReadUShort(Async)`, `ReadUShort(int)`,
  `ReadULong(Async)`, `WriteFloatAsync`, `WriteDoubleAsync` and
  `WriteULongAsync`. EndianUtils is not part of this model.
- **Thin wrappers.** Left out:
  - `IsDataAvailable`/`DataAvailable`, which dispatches on stream types the
    model does not have;
  - the pass-through members `CanRead`, `CanSeek`, `CanWrite`, `Length`,
    `Position`, `Seek`, `SetLength` and `Flush`;
  - `MinecraftStream.Read(Span<byte>, int)`, which copies one primitive read
    into a span;
  - the overridden `WriteAsync(byte[], int, int, CancellationToken)`, which
    behaves as `RawStreams.RawStream.Write`.
- **Async and cancellation.**
  - Awaits are sequential calls.
  - A cancellation token is a fixed list of answers. The token cannot be
    cancelled between two checks by another thread beyond what that list
    says.
  - The two `ReadAsync(byte[] ...)` overloads and the synchronous
    `Read(byte[], int, int)` are the same primitive read
    (`RawStreams.RawStream.Read`). A stream hands over nothing only at its
    end, so a primitive read that hands over nothing while bytes remain is
    one that failed (`Transport.Fails`). The `catch` blocks of the async
    overloads turn it into a 0-byte read. `MinecraftStream.Read(int)` over
    other streams uses the synchronous read, which has no `catch`; there the
    failure is the `IOError` outcome.
- **Synchronous one-byte reads.** `BaseStream.Read(Span)` has no `catch`
  either, but the one-byte readers below return a plain value, so for them a
  failing read is one that hands over nothing (the byte 0):
  - `RawStreams.RawStream.ReadUnsignedByte` and `RawStreams.RawStream.ReadSignedByte`
    do not model the exception of a failing read.
  - `MinecraftStreams.MinecraftStream.ReadUnsignedByte` and
    `MinecraftStreams.MinecraftStream.ReadBool` do not model it either.
  - `MinecraftStreams.MinecraftStream.ReadVarIntCounted`,
    `MinecraftStreams.MinecraftStream.ReadVarInt` and
    `MinecraftStreams.MinecraftStream.ReadVarLong` read such a failure as a 0
    byte, which ends the number.
  - `MinecraftStreams.MinecraftStream.ReadString` reads its length prefix the
    same way.
- **MemoryStream sharing.** A `MemoryStream` reads and writes one buffer at
  one position. The model keeps what is read and what is written apart, so a
  write does not move the read cursor.
- **Inheritance.** `MinecraftStream` derives from `RawStream`; the model
  holds one as `base`.
- **Loops that never end.** A loop that never ends is the `Diverges` outcome.
  For `ReadAsync` it is detected when no byte, no cap and no cancellation
  answer is left.
- **`RawStreams.RawStream.ReadStringAsync`** and
  **`RawStreams.RawStream.ReadIntAsync`/`ReadShortAsync`/`ReadLongAsync`**:
  when a cancellation cuts a read short, the contract states only the
  length or the zero-padded buffer (`Received`), not which bytes came.
- **`FormatName` and its description.** A description that rewrites only the
  `_` just found differs from the code, which replaces every `"_" + c`: for
  `a_b_b`, both `_b` become `B` in one pass. The model follows the code.

## Findings

| source | as written | input that shows it | evidently intended | confidence | as-written member | corrected member |
|---|---|---|---|---|---|---|
| Slime.Networking/RawStream.cs:232-233 | `value << (7 * numRead)` shifts an `int`: the count is taken mod 32 and the result is sign-extended into the `long` | 2^31, written as `[128,128,128,128,8]`, reads back as -2^31 | shift a `long`, so that every value `WriteVarLongAsync` writes reads back | high (not executed) | `Wire.VarLongShiftBreaks` | `Wire.WideVarLongRoundTrip` |
| Slime.Networking/RawStream.cs:318-337 | `value >>= 7` on a negative `long` never reaches 0 | -1: every turn writes 0xFF and leaves -1 | shift the unsigned bits, so a negative value takes 10 bytes | high (not executed) | `RawStreams.RawStream.WriteVarLongAsync` | `RawStreams.RawStream.WriteVarLongUnsignedAsync` |
| Slime.Networking/RawStream.cs:297-311 | `written` is only incremented after the loop, so it is always 1 | 300 writes two bytes and returns 1 | count every byte written | high (not executed) | `RawStreams.RawStream.WriteRawVarInt32Async` | `RawStreams.RawStream.WriteLeb128Async` |
| Slime.Networking/MinecraftStream.cs:103-108 | the slice taken at `offset` is written from `offset` again | buffer `[1,2,3]`, offset 1, length 2: the base stream refuses offset 1 with 2 bytes out of a 2-byte array | write the whole slice from 0 | high (not executed) | `MinecraftStreams.MinecraftStream.Write` | `MinecraftStreams.MinecraftStream.WriteSlice` |
