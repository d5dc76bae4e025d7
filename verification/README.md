# ZeDMD link, 4-bit colorizer, passthrough de-duplication and DmdDevice.ini configuration, in Dafny

This project models four pieces of the DMD extensions for Visual PinMAME:

- **ZeDMD serial link** (`zedmd.dfy`, module `ZeDMD`). It covers:
  - the discovery handshake, which sends the `5A 65 64 72 75 6D` signature plus query byte 12 and reads the panel's dimensions back;
  - the first-answering-port scan in `Open`;
  - chunked streaming with the device's `R` (ready), `A` (acknowledge) and `E` (error) flow control;
  - `Close`.

  The serial port is a finite sequence of bytes the device sends plus a log of what the host wrote or discarded. Running out of input is the read timeout.
- **4-bit colorizer** (`gray4_colorizer.dfy`, module `Gray4Colorizer`). Each frame is split into bit planes. Planes 0, 1 and 2 are checksummed in order, and the first checksum with a palette in the palette file switches the active palette. The whole frame is then colorized into the colorizer's one output buffer. Palettes can also be loaded by index through a side channel.
- **Colored 4-bit passthrough source** (`passthrough.dfy`, module `Passthrough`). It forwards pushed frames and drops a frame that repeats the last one while the shared last-format subject says `ColoredGray4`.
- **Configuration** (`configuration.dfy`, module `Configuration`). An INI document is shared by the sections `virtualdmd`, `pindmd1`, `pindmd2`, `pindmd3` and `pin2dmd`. The module covers:
  - typed getters with fallbacks;
  - setters that create the section and save the file unless `DoWrite` is off;
  - `VirtualDmdConfig.SetPosition`, which batches four writes into one save.

  It relies on `dotnet_text.dfy` (module `DotNetText`), which models `bool.Parse`, `int.Parse` and `Int32.ToString`.

`common.dfy` (module `Common`) holds the shared vocabulary:
- the .NET `byte`, `int` and `uint` ranges;
- option and result wrappers, used for `null` and for exceptions;
- 32-bit wrap-around;
- colours.

Helpers whose source is not part of this model are passed in as function values, and a lemma's `requires` states all it relies on about them. These helpers are:
- `FrameUtil`;
- `ColorUtil`;
- the palette file `Coloring`;
- `ColoredFrame` equality;
- `double.Parse` and `double.ToString`.

The model follows the code as written. Where the code evidently does not do what was meant, the as-written behaviour is the model, and the corrected behaviour sits beside it with its property proved (see Findings). The code as written differs from a plain reading of its intent in these places:
- `Open` never clears `Opened` when no port answers. After a successful `Open`, a failed re-`Open` that tried at least one port leaves `Opened` true with a closed port object, and a later `Close` throws instead of returning true. The model states this (`ZeDMD.Open`, `ZeDMD.CloseAfterFailedReopenThrows`).
- `ResetPalettes` does not compile as written: it fills an undeclared `tempbuf`. The model uses its evident meaning, `StreamBytes` of the signature followed by command byte 6.
- `Close` closes the port before it resets the palettes. The reset therefore finds the port closed and writes nothing.
- `GetBoolean` returns its fallback only when the section is missing. A missing key hands `null` to `bool.Parse`, and the resulting `ArgumentNullException` is not caught.

## Model

| member | source | states |
|---|---|---|
| ZeDMD.Connect | LibDmd/Output/ZeDMD/ZeDMDComm.cs:27-64 | The handshake succeeds exactly when the port opens and the reply's first four bytes echo 5A 65 64 72. On success, width and height are reply bytes 4-5 and 6-7 little-endian, so both lie in 0..65535. On failure they are 0 and the port is left closed. The signature plus byte 12 is sent whenever the port opens. |
| ZeDMD.EchoCheck | LibDmd/Output/ZeDMD/ZeDMDComm.cs:41-44 | The zero-initialised 8-byte reply buffer matches the signature prefix exactly when the device actually sent those four bytes. |
| ZeDMD.WaitFor | LibDmd/Output/ZeDMD/ZeDMDComm.cs:77-80 | A polling loop reads nothing when the signal already holds the target. Otherwise it stops at the first target byte or the first 'E', with no target or 'E' before it, or it times out on an input that holds neither. |
| ZeDMD.StreamWith | LibDmd/Output/ZeDMD/ZeDMDComm.cs:69-110 | On a closed port the transfer returns false, writes nothing and reads nothing, and only a closed port does that. It never reads past the device's input. A timeout has read all of it, and like an out-of-range write it ends by discarding the output buffer. An 'E' is the last byte read. A success or an 'E' leaves only writes in the log. A success has read an 'R' with no 'R' before it. |
| ZeDMD.StreamBytes | LibDmd/Output/ZeDMD/ZeDMDComm.cs:69-110 | StreamBytes as written, with the acknowledge wait not re-armed, ends in one of the ways StreamWith's contract lists. |
| ZeDMD.StreamBytesAcked | LibDmd/Output/ZeDMD/ZeDMDComm.cs:69-110 | The variant that awaits an acknowledge after every chunk ends in the same ways. |
| ZeDMD.SendRest | LibDmd/Output/ZeDMD/ZeDMDComm.cs:88-97 | The chunk loop reads only forward from its start and never past the input. A timeout has read everything, an 'E' is the last byte read, and the loop never reports a closed port. |
| ZeDMD.StreamSentWrites | LibDmd/Output/ZeDMD/ZeDMDComm.cs:76-97 | A successful transfer contains only writes. The first write is the 6-byte signature and the second is payload[0..min(nBytes,250)). The payload writes concatenate to exactly payload[0..nBytes), and the later chunks are 256 bytes each except a shorter last one. |
| ZeDMD.SendRestSent | LibDmd/Output/ZeDMD/ZeDMDComm.cs:88-97 | A successful chunk loop appends only writes. They cover the payload from offset nBytes - remaining to nBytes contiguously, in full 256-byte chunks with a shorter last one. |
| ZeDMD.SendRestWithoutRearmNeverReads | LibDmd/Output/ZeDMD/ZeDMDComm.cs:88-96 | Once the signal holds 'A', the chunk loop reads no byte and never sees an 'E'. It succeeds exactly when the payload range is valid, and otherwise fails on the out-of-range write. |
| ZeDMD.StreamSentNeedsReadyAndAck | LibDmd/Output/ZeDMD/ZeDMDComm.cs:71-98 | A successful transfer needs an open port, a valid payload range, and an 'R' followed by an 'A', each before any 'E'. It consumes exactly up to that first 'A'. |
| ZeDMD.StreamSendsOnReadyAndAck | LibDmd/Output/ZeDMD/ZeDMDComm.cs:71-98 | Conversely, an open port, a valid range and an 'R' then 'A' always make the transfer succeed, whatever follows in the input. |
| ZeDMD.StreamErrorOnlyWhilePolling | LibDmd/Output/ZeDMD/ZeDMDComm.cs:77-96 | An 'E' ends a transfer only while it waits for 'R', with nothing written, or for the first 'A', after the signature and first chunk. |
| ZeDMD.StreamAbortsBeforeReady | LibDmd/Output/ZeDMD/ZeDMDComm.cs:77-80 | An 'E' before any 'R' returns false with nothing written. |
| ZeDMD.StreamAbortsBeforeFirstAck | LibDmd/Output/ZeDMD/ZeDMDComm.cs:81-86 | An 'E' between the 'R' and the first 'A' returns false after exactly the signature and the first chunk. |
| ZeDMD.StreamWritesFollowReady | LibDmd/Output/ZeDMD/ZeDMDComm.cs:76-82 | Nothing is written before an 'R' has been read. The first write is the signature and the second is the first payload chunk. |
| ZeDMD.SendRestEnds | LibDmd/Output/ZeDMD/ZeDMDComm.cs:88-107 | The chunk loop keeps the log it is given as a prefix. After a success or an 'E' it has appended only writes. After a timeout or an out-of-range write, the last event is the discard of the output buffer. |
| ZeDMD.SentTailShape | LibDmd/Output/ZeDMD/ZeDMDComm.cs:88-97 | By induction over the chunks: a successful loop appends only writes, none exactly when nothing remains. They concatenate to the payload from offset nBytes - remaining to nBytes, in 256-byte chunks with a shorter last one. |
| ZeDMD.ChunkLoopEnded | LibDmd/Output/ZeDMD/ZeDMDComm.cs:81-98 | Once the signature and first chunk are written after an 'R', the rest of the transfer ends as StreamWith's contract describes. |
| ZeDMD.StreamSixHundredBytes | LibDmd/Output/ZeDMD/ZeDMDComm.cs:83-97 | As written, 600 bytes go out as 250, 256 and 94 after the signature, having read only "RA". After the 'R', fewer acknowledges are read than payload chunks are written. |
| ZeDMD.AckedStreamSixHundredBytes | LibDmd/Output/ZeDMD/ZeDMDComm.cs:88-97 | With the acknowledge wait re-armed per chunk, "RA" times out on the 600-byte transfer, while "RAAA" completes it. |
| ZeDMD.AckedStreamCountsAcks | LibDmd/Output/ZeDMD/ZeDMDComm.cs:88-97 | With the acknowledge wait re-armed, a successful transfer has read an 'R' with no 'R' before it. After that 'R' it has read at least one 'A' per payload chunk. |
| ZeDMD.Open | LibDmd/Output/ZeDMD/ZeDMDComm.cs:119-135 | Open returns 1 exactly when some port answers the handshake. It stops at the first one, takes its dimensions, records it in nCOM, resets palettes there and sets Opened. Otherwise it returns 0 with zero dimensions after trying every port, with Opened and nCOM unchanged and the last tried port's closed object kept. |
| ZeDMD.LinkStream | LibDmd/Output/ZeDMD/ZeDMDComm.cs:69-71 | StreamBytes on the link throws a null reference with no port object, and returns false without writing on a closed one. |
| ZeDMD.ResetPalettes | LibDmd/Output/ZeDMD/ZeDMDComm.cs:111-118 | A palette reset throws a null reference exactly when there is no port object, and otherwise ends as StreamBytes does. It reports a closed port exactly when the port is closed. A successful reset writes the signature and then the signature followed by command byte 6. |
| ZeDMD.ResetFitsFirstChunk | LibDmd/Output/ZeDMD/ZeDMDComm.cs:111-118 | The 7-byte reset command fits in the first chunk, so a successful reset writes exactly two blocks. |
| ZeDMD.ResetPalettesWrites | LibDmd/Output/ZeDMD/ZeDMDComm.cs:111-118 | On an open port answering "RA", a palette reset writes the signature and then the signature followed by command byte 6. |
| ZeDMD.Close | LibDmd/Output/ZeDMD/ZeDMDComm.cs:137-147 | When Close returns, it returns true, Opened is false and an opened link's port is closed. A link that was not opened is returned unchanged. |
| ZeDMD.CloseAlwaysCloses | LibDmd/Output/ZeDMD/ZeDMDComm.cs:137-147 | On a link whose Opened flag implies an open port, Close always returns true. It leaves the link closed and consistent, and its palette reset writes nothing. |
| ZeDMD.CloseAfterFailedReopenThrows | LibDmd/Output/ZeDMD/ZeDMDComm.cs:19-26 | With Opened still set and the port object already closed, Close throws instead of returning true. |
| Gray4Colorizer.New | LibDmd/Converter/Gray4Colorizer.cs:28-37 | Construction succeeds exactly when width·height·3 in wrapping 32-bit arithmetic is not negative, and the buffer has exactly width·height·3 bytes when that fits. The buffer is zeroed, and the palette is GetPalette([Black, DarkOrchid], 16). |
| Gray4Colorizer.SetPalette | LibDmd/Converter/Gray4Colorizer.cs:39-45 | The active palette becomes the given colours expanded to 16 entries. Nothing else changes. |
| Gray4Colorizer.FirstMatch | LibDmd/Converter/Gray4Colorizer.cs:54-68 | The probe returns the lowest of planes i..2 whose checksum has a palette, with no hit before it. It returns none exactly when none of them has one. |
| Gray4Colorizer.Convert | LibDmd/Converter/Gray4Colorizer.cs:47-76 | The returned array is the colorizer's own buffer, colorized from the frame with the palette then active. That palette is the lowest-numbered matching plane's palette, or the previous palette when planes 0-2 all miss. |
| Gray4Colorizer.LoadPalette | LibDmd/Converter/Gray4Colorizer.cs:78-88 | A palette found at the index replaces the active one, and nothing else changes. A miss leaves the colorizer as it was. |
| Gray4Colorizer.ConvertIgnoresPlane3 | LibDmd/Converter/Gray4Colorizer.cs:54-58 | Convert's result does not depend on plane 3. |
| Gray4Colorizer.FirstPlaneWins | LibDmd/Converter/Gray4Colorizer.cs:58-67 | When plane 0 matches, its palette is installed whatever planes 1 and 2 would match. |
| Gray4Colorizer.ConvertKeepsValid | LibDmd/Converter/Gray4Colorizer.cs:47-76 | Convert keeps the buffer size width·height·3 and returns an array of that size. Every palette it installs is GetPalette of some colours. |
| Gray4Colorizer.PaletteChangesKeepValid | LibDmd/Converter/Gray4Colorizer.cs:78-88 | LoadPalette and SetPalette keep the buffer size, and every palette they install is GetPalette of some colours. |
| Passthrough.New | LibDmd/Input/Passthrough/PassthroughColoredGray4Source.cs:18-30 | A new source has forwarded nothing and emitted no pause or resume. It holds the blank frame and the shared subject's current format. |
| Passthrough.Step | LibDmd/Input/Passthrough/PassthroughColoredGray4Source.cs:32-41 | A frame is dropped exactly when the last format is ColoredGray4 and it equals the last frame, and a dropped call changes nothing. Otherwise the frame is forwarded once and becomes the last frame, and the recorded format is published. Pause and resume never emit. |
| Passthrough.NextFrame | LibDmd/Input/Passthrough/PassthroughColoredGray4Source.cs:32-41 | As written, a forwarded frame leaves ColoredGray6 as the last format. |
| Passthrough.PublishFormat | LibDmd/Input/Passthrough/PassthroughColoredGray4Source.cs:24-28 | Another publisher on the shared format subject changes the last format and nothing that was forwarded. |
| Passthrough.Run | LibDmd/Input/Passthrough/PassthroughColoredGray4Source.cs:32-41 | Over a run of pushes, forwarded frames keep everything forwarded before and only append input frames, at most one per push. One format is published per forwarded frame. A run that forwards nothing changes nothing; otherwise the last frame forwarded is retained and the recorded format is the last format. Pause and resume never emit. |
| Passthrough.RunForwardsSubsequence | LibDmd/Input/Passthrough/PassthroughColoredGray4Source.cs:32-41 | Over any run, what is forwarded is an order-preserving subsequence of the inputs, appended to what was forwarded before. Pause and resume counts are unchanged. |
| Passthrough.RunForwardsEverything | LibDmd/Input/Passthrough/PassthroughColoredGray4Source.cs:35-39 | As written, starting from any last format other than ColoredGray4, every input frame is forwarded, repeats included. |
| Passthrough.RepeatForwardedTwice | LibDmd/Input/Passthrough/PassthroughColoredGray4Source.cs:35-40 | As written, a frame pushed twice in a row after being forwarded is forwarded twice. |
| Passthrough.NextFrameIntended | LibDmd/Input/Passthrough/PassthroughColoredGray4Source.cs:35-39 | Corrected: a forwarded frame leaves ColoredGray4 as the last format. |
| Passthrough.IntendedRunDeduplicates | LibDmd/Input/Passthrough/PassthroughColoredGray4Source.cs:34-40 | With the corrected format, no two consecutive forwarded frames are equal over any run. |
| Passthrough.IntendedDropsRepeat | LibDmd/Input/Passthrough/PassthroughColoredGray4Source.cs:34-40 | With the corrected format, an immediate repeat is dropped. |
| DotNetText.Skip | PinMameDevice/Configuration.cs:226 | The scan stops at the first character outside the class, and everything it passed is inside the class. |
| DotNetText.Trim | PinMameDevice/Configuration.cs:202 | The trimmed string is a contiguous slice with only padding removed at both ends, and it neither starts nor ends with padding. |
| DotNetText.ParseBoolean | PinMameDevice/Configuration.cs:202 | null throws ArgumentNullException. Otherwise the result is true or false exactly when the padding-trimmed text is "True" or "False" ignoring case, and anything else is a format error. |
| DotNetText.BooleanRoundTrip | PinMameDevice/Configuration.cs:189-202 | The "true" and "false" the setter writes parse back to the same boolean. |
| DotNetText.ParseBooleanExamples | PinMameDevice/Configuration.cs:202 | " TRUE\0" parses as true, while "yes" and "" are format errors. |
| DotNetText.ParseInt32 | PinMameDevice/Configuration.cs:226 | int.Parse never throws ArgumentNullException on a string. A value is returned only for a string laid out as white space, an optional sign, digits, white space and NULs, and the value is the one those digits and sign denote. OverflowException comes only from such a layout whose value is outside the 32-bit range. |
| DotNetText.ParseInt32Complete | PinMameDevice/Configuration.cs:226 | Conversely, every string in that layout parses to the value it denotes, or throws OverflowException when the value is outside the 32-bit range. So FormatException is thrown exactly for strings with no such layout. |
| DotNetText.FormatInt32 | PinMameDevice/Configuration.cs:213 | Int32.ToString is non-empty and starts with a minus sign exactly for negative values, or otherwise with a digit, never with white space. Every later character is a digit, and the digits never start with a zero unless the value is 0. |
| DotNetText.DigitsRoundTrip | PinMameDevice/Configuration.cs:213-226 | The decimal digits of n read back as n. |
| DotNetText.FormatParseRoundTrip | PinMameDevice/Configuration.cs:208-230 | Every 32-bit integer formatted by Int32.ToString parses back as itself. |
| DotNetText.ParseInt32Examples | PinMameDevice/Configuration.cs:226 | " +42 " parses as 42, while "4 2" and "-" are format errors. |
| DotNetText.ParseInt32Overflows | PinMameDevice/Configuration.cs:225-229 | A digit string beyond the 32-bit range throws OverflowException rather than FormatException. So does its negation below -2^31, while -2^31 itself parses. |
| DotNetText.ParsesDigits | PinMameDevice/Configuration.cs:226 | The decimal digits of any n parse to n when n fits in 32 bits, and throw OverflowException otherwise. |
| DotNetText.ParsesNegatedDigits | PinMameDevice/Configuration.cs:226 | A minus sign followed by the digits of n parses to -n down to -2^31, and throws OverflowException below it. |
| Configuration.Load | PinMameDevice/Configuration.cs:29-41 | The configuration starts from the document read, with no saves. |
| Configuration.NewSection | PinMameDevice/Configuration.cs:171-177 | A section starts with DoWrite on. |
| Configuration.Save | PinMameDevice/Configuration.cs:179-183 | A section's Save writes the document exactly once and turns DoWrite back on. |
| Configuration.SetValue | PinMameDevice/Configuration.cs:184-193 | A set creates the section if missing and stores the value under the key. It changes no other section and no other key, adds only that section and key, and saves exactly once when DoWrite is on and never when it is off. |
| Configuration.SetString | PinMameDevice/Configuration.cs:256-265 | Set(key, string) creates the section if missing and stores the text under the key. It adds only that section and key, changes no other section or key, and saves exactly once when DoWrite is on and never when it is off. |
| Configuration.SetBoolean | PinMameDevice/Configuration.cs:184-193 | A boolean is stored as "true" or "false", with one save when DoWrite is on. |
| Configuration.SetInt | PinMameDevice/Configuration.cs:208-217 | An integer is stored as its Int32.ToString text, with one save when DoWrite is on. |
| Configuration.SetDouble | PinMameDevice/Configuration.cs:232-241 | A double is stored as its ToString text, with one save when DoWrite is on. |
| Configuration.GetString | PinMameDevice/Configuration.cs:267-273 | GetString returns the stored text, or the fallback exactly when the section or the key is absent. |
| Configuration.GetBoolean | PinMameDevice/Configuration.cs:195-206 | As written, GetBoolean returns the fallback only when the section is absent. A missing key throws ArgumentNullException, and a non-literal throws InvalidIniValueException naming the value, key and section. |
| Configuration.GetBooleanIntended | PinMameDevice/Configuration.cs:195-206 | Corrected: the fallback is returned when the section or the key is absent, and ArgumentNullException is never thrown. |
| Configuration.GetInt | PinMameDevice/Configuration.cs:219-230 | GetInt returns the fallback when the section or the key is absent, and otherwise the parsed value. A format error becomes InvalidIniValueException, and an overflow escapes. |
| Configuration.GetDouble | PinMameDevice/Configuration.cs:243-254 | GetDouble returns the fallback when the section or the key is absent, and otherwise the parsed value. A parse failure becomes InvalidIniValueException. |
| Configuration.Enabled | PinMameDevice/Configuration.cs:54-58 | Every section's Enabled defaults to true when its section is absent. |
| Configuration.PinDmd3Port | PinMameDevice/Configuration.cs:90-94 | The PinDmd3 port defaults to "". |
| Configuration.VirtualDmdPosition | PinMameDevice/Configuration.cs:126-148 | Each coordinate whose key is missing reads as its default: left 0, top 0, width 1024, height 256. Each present key reads as its parsed double, or throws InvalidIniValueException naming the value, key and section. |
| Configuration.SetPosition | PinMameDevice/Configuration.cs:154-162 | SetPosition stores all four coordinates with exactly one save, whatever DoWrite was, and leaves DoWrite on. It adds only the virtualdmd section and those four keys, and leaves everything else unchanged. |
| Configuration.StringRoundTrip | PinMameDevice/Configuration.cs:256-273 | A string set under a key reads back unchanged. |
| Configuration.BooleanSetGet | PinMameDevice/Configuration.cs:184-206 | A boolean set under a key reads back unchanged. |
| Configuration.IntSetGet | PinMameDevice/Configuration.cs:208-230 | An integer set under a key reads back unchanged. |
| Configuration.PositionRoundTrip | PinMameDevice/Configuration.cs:126-162 | The position written by SetPosition reads back, given that double.Parse inverts double.ToString. |
| Configuration.SetLeavesOthers | PinMameDevice/Configuration.cs:184-193 | A set changes neither the stored text nor the GetString and GetInt results of any other section or key. |
| Configuration.SetBreaksOtherBoolean | PinMameDevice/Configuration.cs:184-206 | As written, writing one key into a missing section makes every other boolean of that section throw instead of returning its fallback. |
| Configuration.PortOnlyBreaksEnabled | PinMameDevice/Configuration.cs:195-206 | Setting only the PinDmd3 port on an empty document turns PinDmd3's Enabled from true into an ArgumentNullException. |
| Configuration.IntendedBooleanLeavesOthers | PinMameDevice/Configuration.cs:195-206 | The corrected GetBoolean is unaffected by sets of other keys. |
| Configuration.InvalidBooleanReported | PinMameDevice/Configuration.cs:201-205 | A stored "yes" makes GetBoolean throw InvalidIniValueException with the exact message naming the value, key and section. |
| Configuration.IntOverflowEscapes | PinMameDevice/Configuration.cs:219-230 | A stored integer literal beyond the 32-bit range, or its negation below -2^31, makes GetInt throw OverflowException. GetInt's handler catches only FormatException, so the exception escapes. |
| Configuration.OverflowEscapes | PinMameDevice/Configuration.cs:219-230 | Any stored text on which int.Parse overflows makes GetInt throw OverflowException, because only FormatException is caught. |
| Configuration.Defaults | PinMameDevice/Configuration.cs:54-148 | On an empty document, all five Enabled flags are true, the PinDmd3 port is "", and the virtual DMD sits at 0,0 with size 1024 by 256. |
| Configuration.SetAllSaves | PinMameDevice/Configuration.cs:190-192 | A run of sets on one section saves once per set when DoWrite is on, and never when it is off. |

## Left out

- Serial I/O timing (`Thread.Sleep`, `ReadTimeout = 100`, baud rate and buffer sizes) is not modelled. A read either gets the next byte the device sent or times out when there is none.
- `SerialPort.GetPortNames` and the ports' behaviour are inputs: each port either opens or not and delivers a given reply.
- `Disconnect` with a null port object is modelled only through `Close`. `Close` can reach it only with Opened set, which only a successful `Open` sets.
- The handshake's `Read` is assumed to return all the bytes delivered, up to eight. A real read can return fewer bytes than are available.
- ZeDMD.StreamWith: exceptions other than the read timeout and an out-of-range `Write` are not modelled. An I/O error during a write cannot happen in the model.
- The 32-bit overflow of `nBytes - remainingBytes` and similar arithmetic in `StreamBytes` is not modelled. Payloads are sequences whose length fits easily.
- The port settings `Connect` applies (baud rate, parity, stop bits, read timeout) are abstracted away. A port either opens or not. The `pBytes2` buffer is declared but never used.
- Gray4Colorizer.Convert: the returned array is the colorizer's own `_coloredFrame`, so the next `Convert` overwrites what an earlier caller holds. The model has values, not references: it states that the output equals the new buffer, but not that earlier results change later.
- Logging (NLog) and the `From`/`To` render bit lengths of the colorizer are not modelled.
- Gray4Colorizer.New: the palette file is loaded by a constructor this model does not include. It is an input (`Coloring`).
- `FrameUtil.Split4Bit`, `FrameUtil.Checksum`, `ColorUtil.GetPalette`, `ColorUtil.ColorizeFrame` and the palette file's lookups are not part of this model. They are function parameters, and what a lemma needs of them (for example that `ColorizeFrame` writes in place) is stated in its `requires`.
- Passthrough: `ColoredFrame` and its `==` are not part of this model. The source is generic in the frame type, and `==` is a parameter. If `==` is reference equality, the retained `_lastFrame` object never equals an incoming frame and nothing is ever dropped. The model covers that case with a `same` that is always false.
- Passthrough: the Reactive subjects are modelled as the sequences of values pushed to them. Subscribers, scheduling and the `Name` property are not modelled.
- Configuration: the INI file read in the constructor and the write in `Configuration.Save` are not modelled. The document is an in-memory map, and a save is a counter.
- Configuration: `double.Parse` and `double.ToString` are not modelled. Doubles are an opaque type with the parse and format passed in, and `GetDouble` treats a failed parse as its `FormatException`.
- Configuration.PositionRoundTrip: the round trip assumes that `double.Parse` inverts `double.ToString`. That holds for .NET Core 3.0 and later, where ToString gives the shortest round-trippable text. On .NET Framework the default ToString keeps 15 significant digits, so some positions do not read back exactly.
- Configuration: a null string passed to `Set(key, string)` is not modelled. Strings are never null.
- DotNetText: strings are sequences of Unicode scalar values, not UTF-16 code units. Case-insensitive comparison is modelled for ASCII letters only, which covers "True" and "False". Culture-specific number formats are not modelled; the invariant culture is used.

## Findings

| source | as written | input that shows it | evidently intended | confidence | as-written member | corrected member |
|---|---|---|---|---|---|---|
| LibDmd/Output/ZeDMD/ZeDMDComm.cs:83-96 | `signal` still holds 'A' after the first acknowledge, so the wait after every later chunk reads nothing | a 600-byte transfer with the device sending "RA": all three chunks go out and the call returns true | wait for a fresh 'A' after each chunk, as the loop's shape suggests | medium, not executed | ZeDMD.StreamSixHundredBytes | ZeDMD.AckedStreamCountsAcks |
| LibDmd/Input/Passthrough/PassthroughColoredGray4Source.cs:35,39 | the check compares against ColoredGray4, but the method publishes ColoredGray6, so its own check never fires again | the same frame pushed twice in a row is forwarded twice | publish ColoredGray4, the format this source forwards, so immediate repeats are dropped | medium, not executed | Passthrough.RunForwardsEverything | Passthrough.IntendedRunDeduplicates |
| PinMameDevice/Configuration.cs:197-205 | only a missing section returns the fallback; a missing key passes null to bool.Parse, and the ArgumentNullException is not caught | an empty document after setting only the PinDmd3 port: `PinDmd3.Enabled` throws | return the fallback when the key is missing, as GetInt and GetString do | high, not executed | Configuration.GetBoolean | Configuration.GetBooleanIntended |
