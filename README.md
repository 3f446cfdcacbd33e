# GamePadRawInput — a Dafny model

GamePadRawInput is a small C# library that receives Bluetooth gamepad reports
through the Win32 Raw Input API. It registers a hidden message window for the
generic-desktop gamepad collection (usage page 0x01, usage 0x05). It keeps the
handles of the HID devices whose device name carries the Bluetooth HID service
UUID `{00001812-0000-1000-8000-00805f9b34fb}`. On every `WM_INPUT` from one of
those devices, it copies the HID report into a caller-owned buffer and raises
`OnRawInput`.

This project models that core:

- `Bytes`: little-endian, two's-complement helpers. They include the `int32`
  wrap-around of C# unchecked multiplication.
- `Text`: ordinal `IndexOf` and the `X2` hexadecimal format.
- `DataType`: the structures, enums, flags and `HidUsageAndPage` of `DataType.cs`.
  The explicit `RID_DEVICE_INFO` layout is a 32-byte image read at its field
  offsets.
- `Win32Host`: the operating system, as one immutable `Host` value. It holds:
  - the device-list count and the entries;
  - the device-info records and device names per handle;
  - the `RAWINPUT` payload per `WM_INPUT` lParam;
  - whether `RegisterRawInputDevices` succeeds.

  Every P/Invoke of the source reads this value.
- `DeviceFilter`: `GetAllInputDevices` and `SelectTargetDevicesHandle`, as functions.
  They come with the trace of device queries the filter makes.
- `ReportDecoder`: `ParseWindowMessage` and `GetHeaderFromWMInputLParam`. The method
  copies in place into the caller's `array<byte>`; its part after the membership
  check is the method `CopyReport`. Both are proved against the specification
  functions `Decode` and `DecodePayload`.
- `GamePadRawInput`: the two classes, `GamePadRaw` and `EmptyWindow`. Two ghost logs
  record what leaves the library:
  - `Requests` holds every `RegisterRawInputDevices` request.
  - `Raised` records every time the library raises `OnRawInput`, with the buffer contents passed.

Several things the C# code does are undefined or throw. Each becomes a `Fault`:

- a null `deviceHandles` array before the first `WM_INPUT_DEVICE_CHANGE`;
- `fixed` on an empty array, which yields a null pointer;
- a pointer read past the fetched payload;
- a negative `Marshal.Copy` length.

The window procedure reports these as `Crashed`.

Four behaviours of the code are easy to miss, and the model keeps each of them:

- The device list is not truncated to the entries the second `GetRawInputDeviceList` call wrote.
  The array keeps the first call's count, and unwritten entries stay zero.
  `PaddingNeverSelected` shows that these entries are never selected when handle 0
  has no device info. The padded array can hold handle 0 several times
  (`PaddingRepeatsZero`), so the target set's freedom from repeats is proved from
  the OS list instead (`ListedNoDuplicates`).
- A negative or overflowing `dwSizeHid * dwCount` is not clamped to zero. A negative
  product makes `Marshal.Copy` throw (`ProductWraps`).
- A failed filling `GetRawInputData` call does not fail the event. Its result is
  ignored, and the event still returns true with zero bytes copied
  (`FailedFillStillAccepted`).
- The payload size is not checked against the claimed report size (`ShortPayloadOverreads`).

## Model

| member | source | states |
|---|---|---|
| Bytes.WrapInt32 | GamePadRawInput/GamePadRaw.cs:172 | the unchecked int32 product equals the exact product when that fits in an int32 |
| Bytes.WrapInt32Congruent | GamePadRawInput/GamePadRaw.cs:172 | the unchecked int32 product is congruent to the exact product modulo 2^32 |
| Text.IndexOf | GamePadRawInput/GamePadRaw.cs:138 | ordinal substring search: the result is the first index of a match, and -1 exactly when there is no match anywhere |
| Text.FirstSeparator | GamePadRawInput/DataType.cs:308-309 | the first ':' of PAGE:USAGE is the one after the page digits, since hex digits hold none |
| Text.ContainsInContext | GamePadRawInput/GamePadRaw.cs:138 | a name that embeds the pattern anywhere contains it |
| Text.Hex | GamePadRawInput/DataType.cs:308-309 | the shortest hexadecimal rendering: empty exactly for 0, and never a leading '0' |
| Text.FormatHex | GamePadRawInput/DataType.cs:308-309 | `X2`-style output: at least `width` (and at least one) upper-case hex digits, no ':', no leading '0' beyond the width, denoting exactly the number |
| Text.HexRoundTrip | GamePadRawInput/DataType.cs:308-309 | reading back the hexadecimal rendering gives the number |
| DataType.FlagValues | GamePadRawInput/DataType.cs:34-78 | NoLegacy is Exclude\|PageOnly; CaptureMouse and NoHotKeys share 0x200; InputSink\|DevNotify is 0x2100 and shares no bit with Remove |
| DataType.TypeOfCode | GamePadRawInput/DataType.cs:86-91 | an int32 names a device type exactly when it is 0, 1 or 2, and then that type's code is the int32 |
| DataType.TypeCodeRoundTrip | GamePadRawInput/DataType.cs:86-91 | decoding a device type's code gives back the type |
| DataType.RawInputHidInfo.UsageAndPage | GamePadRawInput/DataType.cs:259 | the pair is built from the HID info's usUsagePage and usUsage |
| DataType.RawInputDeviceInfo.HeaderFieldBytes | GamePadRawInput/DataType.cs:118-131 | the size field is exactly the four bytes at offset 0, and `Type` exactly the four bytes at offset 4 |
| DataType.RawInputDeviceInfo.MouseFieldBytes | GamePadRawInput/DataType.cs:122-137 | `Mouse` is exactly the three int32s at 8, 12 and 16, and its wheel flag is set iff the four bytes at 20 are not zero |
| DataType.RawInputDeviceInfo.KeyboardFieldBytes | GamePadRawInput/DataType.cs:124-142 | `Keyboard` is exactly the six int32s at offsets 8 to 28 |
| DataType.RawInputDeviceInfo.HidFieldBytes | GamePadRawInput/DataType.cs:126-147 | `Hid` is exactly the three int32s at 8, 12, 16 and the two ushorts at 20 and 22 |
| DataType.ZeroDeviceInfoIsMouse | GamePadRawInput/DataType.cs:115-132 | a zeroed `RID_DEVICE_INFO` (a stale handle's answer) reads as Mouse and never as Hid |
| DataType.VariantsOverlay | GamePadRawInput/DataType.cs:115-127 | the mouse, keyboard and HID views share offset 8: Id = KeyboardType = VendorId, and so on for the next two fields |
| DataType.EncodeHidDeviceInfo | GamePadRawInput/DataType.cs:115-148 | a HID record laid out at offsets 0/4/8/12/16/20/22 reads back its size, the Hid type and every HID field |
| DataType.HeaderSize | GamePadRawInput/DataType.cs:312-318 | `Marshal.SizeOf<RawInputHeader>()` is 16 bytes on x86 and 24 on x64 |
| DataType.DecodeHeader | GamePadRawInput/DataType.cs:312-323 | a header read through a pointer cast has handles that fit the architecture's IntPtr |
| DataType.EncodeHeader | GamePadRawInput/DataType.cs:312-326 | a header laid out for the architecture decodes back to itself |
| DataType.HeaderBytesRoundTrip | GamePadRawInput/DataType.cs:312-318 | a header read from bytes and laid out again gives the same bytes: reading loses nothing |
| DataType.OpEquality | GamePadRawInput/DataType.cs:289-291 | `==` holds iff both page and usage agree |
| DataType.OpInequality | GamePadRawInput/DataType.cs:293-295 | `!=` is exactly the negation of `==` |
| DataType.GetHashCode | GamePadRawInput/DataType.cs:303-306 | the hash xor the type hash is the page hash xor the usage hash, and its upper 16 bits are the type hash's, so values can only differ in the low 16 bits |
| DataType.HashSplits | GamePadRawInput/DataType.cs:303-306 | GetHashCode is the type hash xor the page and usage hashes |
| DataType.EqualsByHash | GamePadRawInput/DataType.cs:297-298 | Equals holds iff the xor of the two fields' hashes agree (the type hash cancels) |
| DataType.EqualsByHashIsWeaker | GamePadRawInput/DataType.cs:297-306 | `==` implies Equals, but (01,02) and (02,01) are Equals without being `==` |
| DataType.EqualsByFields | GamePadRawInput/DataType.cs:289-298 | the corrected Equals: iff `==`, and equal values have equal hash codes |
| DataType.EqualsObject | GamePadRawInput/DataType.cs:300-301 | Equals(object) can hold only for a boxed HidUsageAndPage, and then it is the typed Equals |
| DataType.ToString | GamePadRawInput/DataType.cs:308-309 | X2 upper-case page (at least two digits, no leading zero beyond two, denoting the page), ':', X2 upper-case usage; the first ':' is the separator |
| DataType.ToStringRoundTrip | GamePadRawInput/DataType.cs:308-309 | `"X2:X2"` is parsed back to the same page and usage |
| DataType.GamePadToString | GamePadRawInput/DataType.cs:308-309 | the GamePad constant prints as "01:05" |
| DataType.GamePadMatchesRegistration | GamePadRawInput/DataType.cs:265-271 | the GamePad constant is the page/usage pair the registration uses |
| Win32Host.ListWritten | GamePadRawInput/GamePadRaw.cs:84-89 | the filling call writes at most the sized count, and it writes the whole list whenever the list fits that count |
| Win32Host.InputFilled | GamePadRawInput/GamePadRaw.cs:156-163 | the scratch array keeps the size the sizing call reported |
| DeviceFilter.HidServiceUuidIsBluetoothHid | GamePadRawInput/GamePadRaw.cs:138 | the searched string is the Bluetooth base UUID with short id 0x1812 (HID service) |
| DeviceFilter.AllInputDevices | GamePadRawInput/GamePadRaw.cs:79-92 | the array has the first call's count, starts with what the second call wrote, and is zero after it |
| DeviceFilter.Handles | GamePadRawInput/GamePadRaw.cs:124 | the handles of the list, position by position |
| DeviceFilter.WhereHid | GamePadRawInput/GamePadRaw.cs:125-131 | keeps exactly the given handles whose device-info type is Hid |
| DeviceFilter.WhereNamed | GamePadRawInput/GamePadRaw.cs:132-139 | keeps exactly the given handles whose device name contains the HID service UUID |
| DeviceFilter.SelectTargetDevicesHandle | GamePadRawInput/GamePadRaw.cs:122-140 | a handle is selected iff it is listed and is a target, and the selection keeps list order |
| DeviceFilter.EmbeddedUuidSelected | GamePadRawInput/GamePadRaw.cs:125-139 | a listed Hid device whose name embeds the UUID anywhere is selected |
| DeviceFilter.FilterTargetsUnfold | GamePadRawInput/GamePadRaw.cs:124-139 | the two Where stages fuse: a handle is kept iff it is Hid and has the HID-service name |
| DeviceFilter.FilterTargetsMembers | GamePadRawInput/GamePadRaw.cs:122-140 | a handle is selected iff it was listed and is a target |
| DeviceFilter.FilterTargetsSubsequence | GamePadRawInput/GamePadRaw.cs:122-140 | selection keeps the list order |
| DeviceFilter.FilterTargetsNoDuplicates | GamePadRawInput/GamePadRaw.cs:122-140 | a list without repeats gives a target set without repeats |
| DeviceFilter.FilterTargetsIdempotent | GamePadRawInput/GamePadRaw.cs:122-140 | filtering the selection again changes nothing |
| DeviceFilter.WhereHidAppend | GamePadRawInput/GamePadRaw.cs:125-131 | the Hid stage distributes over concatenation |
| DeviceFilter.FilterTargetsAppend | GamePadRawInput/GamePadRaw.cs:122-140 | the filter distributes over concatenation of device lists |
| DeviceFilter.WhereNamedAppend | GamePadRawInput/GamePadRaw.cs:132-139 | the name stage distributes over concatenation |
| DeviceFilter.PaddingNeverSelected | GamePadRawInput/GamePadRaw.cs:122-131 | zero-handle padding entries are never selected when handle 0 has no device info |
| DeviceFilter.QueryTraceContents | GamePadRawInput/GamePadRaw.cs:125-139 | every listed handle has its info queried; its name is queried iff it is Hid |
| DeviceFilter.NameQueryFollowsInfo | GamePadRawInput/GamePadRaw.cs:125-139 | each name query comes right after that handle's info query and only for a Hid device |
| ReportDecoder.GetHeaderFromWMInputLParam | GamePadRawInput/GamePadRaw.cs:178-185 | the header's handles fit an IntPtr, and an lParam without a header-sized packet gives the zeroed header |
| ReportDecoder.HeaderFetchLosesNothing | GamePadRawInput/GamePadRaw.cs:178-185 | for an lParam with a packet, the fetched header lays out to exactly the packet's first header-size bytes |
| ReportDecoder.CopyLength | GamePadRawInput/GamePadRaw.cs:172 | at most the capacity; negative exactly when the wrapped product is; min(product, capacity) when the product fits an int32 |
| ReportDecoder.Decode | GamePadRawInput/GamePadRaw.cs:147-176 | an accepted report never holds more bytes than the destination capacity |
| ReportDecoder.DecodePayload | GamePadRawInput/GamePadRaw.cs:154-172 | the decoding after the membership check: an accepted report never holds more bytes than the capacity |
| ReportDecoder.FillInput | GamePadRawInput/GamePadRaw.cs:158-163 | the zeroed scratch array becomes the packet, or stays zero when the fill fails |
| ReportDecoder.MarshalCopy | GamePadRawInput/GamePadRaw.cs:172 | the first `length` destination bytes become the source bytes from `start`; the rest are unchanged |
| ReportDecoder.ParseWindowMessage | GamePadRawInput/GamePadRaw.cs:147-176 | returns/throws as `Decode` says and leaves the buffer as `BufferAfter` says (copied prefix, untouched tail) |
| ReportDecoder.CopyReport | GamePadRawInput/GamePadRaw.cs:154-175 | the fetch, header read, int32 reads and copy after the membership check: returns/throws as `DecodePayload` says and leaves the buffer as `BufferAfter` says |
| ReportDecoder.IgnoredIffNotTarget | GamePadRawInput/GamePadRaw.cs:149-152 | an event is ignored iff the target set is empty or the header's device is not in it |
| ReportDecoder.AcceptedCopy | GamePadRawInput/GamePadRaw.cs:154-172 | on acceptance the copied bytes follow the two int32s, and their number is min(max(product, 0), capacity) |
| ReportDecoder.EncodeInput | GamePadRawInput/DataType.cs:328-333 | the payload Windows delivers is header, dwSizeHid, dwCount, report |
| ReportDecoder.DecodeEncodedPayload | GamePadRawInput/GamePadRaw.cs:165-172 | a well-formed payload yields its two int32s and the first min(product, capacity) report bytes |
| ReportDecoder.DecodeEncodedInput | GamePadRawInput/GamePadRaw.cs:147-176 | a well-formed report from a target device decodes to its two int32s and the first min(product, capacity) report bytes |
| ReportDecoder.FailedFillStillAccepted | GamePadRawInput/GamePadRaw.cs:163-175 | a failed fill still returns true, with zero bytes copied |
| ReportDecoder.DecodeZeroPayload | GamePadRawInput/GamePadRaw.cs:158-172 | an all-zero payload (the unfilled scratch array) reads as a report of zero bytes |
| ReportDecoder.ProductWraps | GamePadRawInput/GamePadRaw.cs:172 | 0x10000*0x10000 copies nothing; 0x8000*0x10000 gives a negative length |
| ReportDecoder.ShortPayloadOverreads | GamePadRawInput/GamePadRaw.cs:147-172 | a target device's payload that claims more report bytes than it carries is read past its end |
| GamePadRawInput.RegisterRequest | GamePadRawInput/GamePadRaw.cs:101-105 | one entry: page 0x01, usage 0x05 (the GamePad pair), flags 0x2100, the given window |
| GamePadRawInput.UnregisterRequest | GamePadRawInput/GamePadRaw.cs:113-117 | one entry: the GamePad pair, flags 0x1 (remove), no window |
| GamePadRawInput.TargetDevicesAreTargets | GamePadRawInput/GamePadRaw.cs:94-97 | the found targets are exactly the listed target devices, in list order |
| GamePadRawInput.TargetDevicesNoDuplicates | GamePadRawInput/GamePadRaw.cs:79-97 | no repeated target when the padded array has no repeated handle |
| GamePadRawInput.ListedNoDuplicates | GamePadRawInput/GamePadRaw.cs:79-97 | no repeated target when the OS list has no repeated handle and handle 0 has no device info, even though the padding may repeat handle 0 |
| GamePadRawInput.PaddingRepeatsZero | GamePadRawInput/GamePadRaw.cs:84-91 | when the list shrinks from three entries to none between the sizing and the filling call, the array is three zero entries, so handle 0 repeats |
| GamePadRawInput.InitializeRequestCounts | GamePadRawInput/GamePadRaw.cs:57-72 | Initialize sends one removal first exactly when it was registered, then its one registration, and ends with a removal only when the registration succeeded but no target was found |
| GamePadRawInput.GamePadRaw.constructor | GamePadRawInput/GamePadRaw.cs:50-55 | the window is created on the caller's buffer with null handles, then Initialize runs once |
| GamePadRawInput.GamePadRaw.Initialize | GamePadRawInput/GamePadRaw.cs:57-72 | registered iff the registration succeeded and a target exists; the exact requests sent |
| GamePadRawInput.GamePadRaw.Finalize | GamePadRawInput/GamePadRaw.cs:74-77 | the finaliser sends one removal iff registered |
| GamePadRawInput.GamePadRaw.GetAllInputDevices | GamePadRawInput/GamePadRaw.cs:79-92 | a fresh array equal to `AllInputDevices` |
| GamePadRawInput.GamePadRaw.FindTargetDevices | GamePadRawInput/GamePadRaw.cs:94-97 | the selected target handles of the current device list |
| GamePadRawInput.GamePadRaw.RegistJoystickDevice | GamePadRawInput/GamePadRaw.cs:99-108 | sends the registration request and returns what the OS answers |
| GamePadRawInput.GamePadRaw.UnregistJoystickDevice | GamePadRawInput/GamePadRaw.cs:111-120 | sends the removal request and returns what the OS answers |
| GamePadRawInput.GamePadRaw.InputParsedData | GamePadRawInput/GamePadRaw.cs:142-145 | raises the event once, with the buffer's contents |
| GamePadRawInput.InputEvent | GamePadRawInput/EmptyWindow.cs:29-34 | a WM_INPUT accepts at most the buffer's capacity |
| GamePadRawInput.InputEventCases | GamePadRawInput/EmptyWindow.cs:29-34 | null handles fault, empty handles skip parsing, and the callback fires iff ParseWindowMessage returned true |
| GamePadRawInput.EmptyWindow.constructor | GamePadRawInput/EmptyWindow.cs:14-20 | keeps the owner and the caller's buffer; handles start null |
| GamePadRawInput.EmptyWindow.WndProc | GamePadRawInput/EmptyWindow.cs:25-42 | device change replaces the handles with the current targets; WM_INPUT decodes, copies, and raises iff accepted; other messages change nothing |

## Left out

- `GetLastError`, `GetRawInputBuffer` and the `RIDI_PREPARSEDDATA` behaviour are declared but never used by the core. They are not modelled.
- The window handle that `CreateHandle` produces is a constructor parameter. The window style and `base.WndProc` (default processing, which changes no field here) are not modelled.
- The `Console.WriteLine("change")` trace in `WndProc` is not modelled.
- The finaliser's timing under the garbage collector is not modelled; `Finalize` is an ordinary method.
- GamePadRawInput.GamePadRaw.constructor: the buffer is taken by `ref`. A subscriber that rebinds its `ref` parameter to a new array is not modelled; the window always keeps the original array.
- GamePadRawInput.EmptyWindow.WndProc: an exception that escapes (the faults above) ends the call as `Crashed`. What the message loop then does is not modelled.
- ReportDecoder.Decode: pointer reads past the fetched payload are undefined in C#. The model reports them as `Overread` instead of predicting memory contents. A read through the null pointer of an empty array raises a `NullReferenceException`, which the model reports as `NullPayload`.
- A null caller buffer is not modelled (`array<byte>` is never null).
- `Text.IndexOf` is ordinal. .NET's `string.IndexOf(string)` is culture-sensitive, but the UUID is plain ASCII.
- GamePadRawInput.GamePadRaw.InputParsedData: `OnRawInput?.Invoke` calls nothing when there is no subscriber. The `Raised` log records the raise either way; subscribers are not modelled.
- `typeof(HidUsageAndPage).GetHashCode()` is a runtime value. It is a parameter (`typeHash`).
- `RawInputHeader.ToString` is diagnostics only and is not modelled.

## Findings

| source | as written | input that shows it | evidently intended | confidence | as-written member | corrected member |
|---|---|---|---|---|---|---|
| GamePadRawInput/DataType.cs:297-306 | `Equals(HidUsageAndPage)` compares `GetHashCode()`, which xors page and usage | (page 0x01, usage 0x02) and (page 0x02, usage 0x01) are Equals but not `==` | Equals agrees with `==` (both fields equal) | not executed | DataType.EqualsByHashIsWeaker | DataType.EqualsByFields |
