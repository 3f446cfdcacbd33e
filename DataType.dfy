/** The Win32 raw-input value types of DataType.cs: the registration record and
    its enums and flags, the device-list entry, the RID_DEVICE_INFO overlay, the
    RAWINPUTHEADER and RAWHID layouts, and the HidUsageAndPage value struct. */
module DataType {
  import opened Bytes
  import opened Text

  datatype Option<T> = None | Some(value: T)

  /** An `IntPtr`: a device handle, window handle or message parameter. */
  type Handle = int

  /** The process architecture, which fixes the width of an `IntPtr`. */
  datatype Arch = X86 | X64
  {
    function PointerSize(): (n: nat)
      ensures n == 4 || n == 8
    {
      if X86? then 4 else 8
    }
  }

  // ---------------------------------------------------------------------------
  // Registration record (RAWINPUTDEVICE) and its enums

  datatype RawInputDeviceUsagePage = GenericDesktopControls | GameControls | LEDs | Button
  {
    function Value(): uint16
    {
      match this
      case GenericDesktopControls => 0x01
      case GameControls => 0x05
      case LEDs => 0x08
      case Button => 0x09
    }
  }

  datatype RawInputDeviceUsageId = Pointer | Mouse | Joystick | GamePad | Keyboard | Keypad | MultiAxisController
  {
    function Value(): uint16
    {
      match this
      case Pointer => 0x01
      case Mouse => 0x02
      case Joystick => 0x04
      case GamePad => 0x05
      case Keyboard => 0x06
      case Keypad => 0x07
      case MultiAxisController => 0x08
    }
  }

  /** The RIDEV_* flags: a [Flags] enum, so a 32-bit pattern combined with `|`. */
  datatype RawInputDeviceFlags = RawInputDeviceFlags(bits: bv32)
  {
    static const None := RawInputDeviceFlags(0)
    static const Remove := RawInputDeviceFlags(0x1)
    static const Exclude := RawInputDeviceFlags(0x10)
    static const PageOnly := RawInputDeviceFlags(0x20)
    static const NoLegacy := RawInputDeviceFlags(0x30)
    static const InputSink := RawInputDeviceFlags(0x100)
    static const CaptureMouse := RawInputDeviceFlags(0x200)
    static const NoHotKeys := RawInputDeviceFlags(0x200)
    static const AppKeys := RawInputDeviceFlags(0x400)
    static const ExInputSink := RawInputDeviceFlags(0x1000)
    static const DevNotify := RawInputDeviceFlags(0x2000)

    function Or(other: RawInputDeviceFlags): (r: RawInputDeviceFlags)
    {
      RawInputDeviceFlags(bits | other.bits)
    }
  }

  datatype RawInputDevice = RawInputDevice(
    usUsagePage: RawInputDeviceUsagePage,
    usUsage: RawInputDeviceUsageId,
    dwFlags: RawInputDeviceFlags,
    hWnd: Handle)

  /** The flag values the enum fixes: NoLegacy is the union of Exclude and PageOnly,
      CaptureMouse and NoHotKeys are one bit, and a registration with InputSink and
      DevNotify sends 0x2100. */
  lemma FlagValues()
    ensures RawInputDeviceFlags.NoLegacy == RawInputDeviceFlags.Exclude.Or(RawInputDeviceFlags.PageOnly)
    ensures RawInputDeviceFlags.CaptureMouse == RawInputDeviceFlags.NoHotKeys
    ensures RawInputDeviceFlags.InputSink.Or(RawInputDeviceFlags.DevNotify).bits == 0x2100
    ensures RawInputDeviceFlags.Remove.bits & RawInputDeviceFlags.InputSink.Or(RawInputDeviceFlags.DevNotify).bits == 0
  {
  }

  // ---------------------------------------------------------------------------
  // Device list entry and device type

  datatype RawInputDeviceType = Mouse | Keyboard | Hid
  {
    /** The RIM_TYPE* code the native struct stores. */
    function Code(): int32
    {
      match this
      case Mouse => 0
      case Keyboard => 1
      case Hid => 2
    }
  }

  /** The enum member a stored code names, if any (a C# enum field may hold any int). */
  function TypeOfCode(code: int32): (t: Option<RawInputDeviceType>)
    ensures t.Some? <==> 0 <= code <= 2
    ensures t.Some? ==> t.value.Code() == code
  {
    if code == 0 then Some(RawInputDeviceType.Mouse)
    else if code == 1 then Some(RawInputDeviceType.Keyboard)
    else if code == 2 then Some(RawInputDeviceType.Hid)
    else None
  }

  lemma TypeCodeRoundTrip(t: RawInputDeviceType)
    ensures TypeOfCode(t.Code()) == Some(t)
  {
  }

  /** RAWINPUTDEVICELIST: a handle and the stored type code. */
  datatype RawInputDeviceListItem = RawInputDeviceListItem(handle: Handle, dwType: int32)

  /** A freshly allocated (zeroed) list entry. */
  const ZeroListItem := RawInputDeviceListItem(0, 0)

  // ---------------------------------------------------------------------------
  // RID_DEVICE_INFO: cbSize at 0, dwType at 4, and three variants overlaid at 8

  /** The struct is as large as its largest variant: 8 + the keyboard's six int32s. */
  const DeviceInfoSize: nat := 32

  type DeviceInfoBytes = b: seq<byte> | |b| == DeviceInfoSize witness Zeros(DeviceInfoSize)

  datatype RawInputMouseInfo = RawInputMouseInfo(Id: int32, ButtonCount: int32, SampleRate: int32, HasHorizontalWheel: bool)

  datatype RawInputKeyboardInfo = RawInputKeyboardInfo(
    KeyboardType: int32, KeyboardSubType: int32, KeyboardMode: int32,
    FunctionKeyCount: int32, IndicatorCount: int32, TotalKeyCount: int32)

  datatype RawInputHidInfo = RawInputHidInfo(VendorId: int32, ProductId: int32, VersionNumber: int32, usUsagePage: uint16, usUsage: uint16)
  {
    function UsageAndPage(): (h: HidUsageAndPage)
      ensures h.UsagePage == usUsagePage && h.Usage == usUsage
    {
      HidUsageAndPage(usUsagePage, usUsage)
    }
  }

  /** The native struct as the bytes Windows wrote; every accessor reads its own
      offsets, whichever variant the type tag names. */
  datatype RawInputDeviceInfo = RawInputDeviceInfo(raw: DeviceInfoBytes)
  {
    /** cbSize, at offset 0. */
    function Size(): int32
    {
      ReadInt32(raw, 0)
    }

    /** dwType, at offset 4. */
    function Type(): int32
    {
      ReadInt32(raw, 4)
    }

    /** The mouse view: three int32s at 8, 12 and 16, and a BOOL at 20. */
    function Mouse(): RawInputMouseInfo
    {
      RawInputMouseInfo(ReadInt32(raw, 8), ReadInt32(raw, 12), ReadInt32(raw, 16), ReadInt32(raw, 20) != 0)
    }

    /** The keyboard view: six int32s at 8 through 28. */
    function Keyboard(): RawInputKeyboardInfo
    {
      RawInputKeyboardInfo(ReadInt32(raw, 8), ReadInt32(raw, 12), ReadInt32(raw, 16),
                           ReadInt32(raw, 20), ReadInt32(raw, 24), ReadInt32(raw, 28))
    }

    /** The HID view: three int32s at 8, 12 and 16, and two ushorts at 20 and 22. */
    function Hid(): RawInputHidInfo
    {
      RawInputHidInfo(ReadInt32(raw, 8), ReadInt32(raw, 12), ReadInt32(raw, 16), ReadUInt16(raw, 20), ReadUInt16(raw, 22))
    }

    /** cbSize and dwType are exactly the bytes at 0 and 4: encoding them again gives those bytes back. */
    lemma HeaderFieldBytes()
      ensures Int32Bytes(Size()) == raw[0..4]
      ensures Int32Bytes(Type()) == raw[4..8]
    {
      Int32BytesOfRead(raw, 0);
      Int32BytesOfRead(raw, 4);
    }

    /** Each mouse field is exactly its own four bytes; the BOOL is true unless its bytes are all zero. */
    lemma MouseFieldBytes()
      ensures Int32Bytes(Mouse().Id) == raw[8..12] && Int32Bytes(Mouse().ButtonCount) == raw[12..16]
      ensures Int32Bytes(Mouse().SampleRate) == raw[16..20]
      ensures Mouse().HasHorizontalWheel <==> raw[20..24] != Int32Bytes(0)
    {
      Int32BytesOfRead(raw, 8);
      Int32BytesOfRead(raw, 12);
      Int32BytesOfRead(raw, 16);
      Int32BytesOfRead(raw, 20);
      if raw[20..24] == Int32Bytes(0) {
        ReadInt32Slice(raw, 20, 0);
      }
    }

    /** Each keyboard field is exactly its own four bytes. */
    lemma KeyboardFieldBytes()
      ensures Int32Bytes(Keyboard().KeyboardType) == raw[8..12] && Int32Bytes(Keyboard().KeyboardSubType) == raw[12..16]
      ensures Int32Bytes(Keyboard().KeyboardMode) == raw[16..20] && Int32Bytes(Keyboard().FunctionKeyCount) == raw[20..24]
      ensures Int32Bytes(Keyboard().IndicatorCount) == raw[24..28] && Int32Bytes(Keyboard().TotalKeyCount) == raw[28..32]
    {
      Int32BytesOfRead(raw, 8);
      Int32BytesOfRead(raw, 12);
      Int32BytesOfRead(raw, 16);
      Int32BytesOfRead(raw, 20);
      Int32BytesOfRead(raw, 24);
      Int32BytesOfRead(raw, 28);
    }

    /** Each HID field is exactly its own bytes: four for the ids, two for the usage page and usage. */
    lemma HidFieldBytes()
      ensures Int32Bytes(Hid().VendorId) == raw[8..12] && Int32Bytes(Hid().ProductId) == raw[12..16]
      ensures Int32Bytes(Hid().VersionNumber) == raw[16..20]
      ensures UInt16Bytes(Hid().usUsagePage) == raw[20..22] && UInt16Bytes(Hid().usUsage) == raw[22..24]
    {
      Int32BytesOfRead(raw, 8);
      Int32BytesOfRead(raw, 12);
      Int32BytesOfRead(raw, 16);
      UInt16BytesOfRead(raw, 20);
      UInt16BytesOfRead(raw, 22);
    }
  }

  /** A zero-initialised struct: what an `out` argument holds when the query writes nothing. */
  const ZeroDeviceInfo := RawInputDeviceInfo(Zeros(DeviceInfoSize))

  /** A zeroed struct reads as a Mouse entry, so it never passes a Hid test. */
  lemma ZeroDeviceInfoIsMouse()
    ensures ZeroDeviceInfo.Type() == RawInputDeviceType.Mouse.Code()
    ensures ZeroDeviceInfo.Type() != RawInputDeviceType.Hid.Code()
    ensures TypeOfCode(ZeroDeviceInfo.Type()) == Some(RawInputDeviceType.Mouse)
  {
    var z := Zeros(DeviceInfoSize);
    assert z[4..8] == Zeros(4);
    FromLEZeros(4);
  }

  /** The three variants overlay one another: their first fields are the same four bytes. */
  lemma VariantsOverlay(info: RawInputDeviceInfo)
    ensures info.Mouse().Id == info.Keyboard().KeyboardType == info.Hid().VendorId
    ensures info.Mouse().ButtonCount == info.Keyboard().KeyboardSubType == info.Hid().ProductId
    ensures info.Mouse().SampleRate == info.Keyboard().KeyboardMode == info.Hid().VersionNumber
  {
  }

  /** The bytes of a HID device's RID_DEVICE_INFO, as Windows lays them out. */
  function EncodeHidDeviceInfo(cbSize: int32, hid: RawInputHidInfo): (info: RawInputDeviceInfo)
    ensures info.Size() == cbSize && info.Type() == RawInputDeviceType.Hid.Code()
    ensures info.Hid() == hid
  {
    var head := Int32Bytes(cbSize) + Int32Bytes(RawInputDeviceType.Hid.Code());
    var body := Int32Bytes(hid.VendorId) + Int32Bytes(hid.ProductId) + Int32Bytes(hid.VersionNumber);
    var usage := UInt16Bytes(hid.usUsagePage) + UInt16Bytes(hid.usUsage);
    var b := head + body + usage + Zeros(8);
    assert |b| == DeviceInfoSize;
    assert b[0..4] == Int32Bytes(cbSize);
    assert b[4..8] == Int32Bytes(RawInputDeviceType.Hid.Code());
    assert b[8..12] == Int32Bytes(hid.VendorId);
    assert b[12..16] == Int32Bytes(hid.ProductId);
    assert b[16..20] == Int32Bytes(hid.VersionNumber);
    assert b[20..22] == UInt16Bytes(hid.usUsagePage);
    assert b[22..24] == UInt16Bytes(hid.usUsage);
    ReadInt32Slice(b, 0, cbSize);
    ReadInt32Slice(b, 4, RawInputDeviceType.Hid.Code());
    ReadInt32Slice(b, 8, hid.VendorId);
    ReadInt32Slice(b, 12, hid.ProductId);
    ReadInt32Slice(b, 16, hid.VersionNumber);
    ReadUInt16Slice(b, 20, hid.usUsagePage);
    ReadUInt16Slice(b, 22, hid.usUsage);
    RawInputDeviceInfo(b)
  }

  // ---------------------------------------------------------------------------
  // RAWINPUTHEADER and RAWHID

  datatype RawInputHeader = RawInputHeader(dwType: int32, dwSize: int32, hDevice: Handle, wParam: Handle)

  const ZeroHeader := RawInputHeader(0, 0, 0, 0)

  /** Marshal.SizeOf<RawInputHeader>(): two int32s and two IntPtrs (16 on x86, 24 on x64). */
  function HeaderSize(arch: Arch): (n: nat)
    ensures arch.X86? ==> n == 16
    ensures arch.X64? ==> n == 24
  {
    8 + 2 * arch.PointerSize()
  }

  /** The header read through a pointer cast: its handles always fit the IntPtr. */
  function DecodeHeader(b: seq<byte>, arch: Arch): (h: RawInputHeader)
    requires |b| >= HeaderSize(arch)
    ensures HeaderFits(h, arch)
  {
    var p := arch.PointerSize();
    RawInputHeader(ReadInt32(b, 0), ReadInt32(b, 4), ReadSigned(b, 8, p), ReadSigned(b, 8 + p, p))
  }

  /** The handles of a header fit the architecture's IntPtr. */
  predicate HeaderFits(h: RawInputHeader, arch: Arch)
  {
    FitsSigned(h.hDevice, arch.PointerSize()) && FitsSigned(h.wParam, arch.PointerSize())
  }

  function EncodeHeader(h: RawInputHeader, arch: Arch): (b: seq<byte>)
    requires HeaderFits(h, arch)
    ensures |b| == HeaderSize(arch)
    ensures DecodeHeader(b, arch) == h
  {
    var p := arch.PointerSize();
    var b := Int32Bytes(h.dwType) + Int32Bytes(h.dwSize) + SignedBytes(h.hDevice, p) + SignedBytes(h.wParam, p);
    assert b[0..4] == Int32Bytes(h.dwType);
    assert b[4..8] == Int32Bytes(h.dwSize);
    assert b[8..8 + p] == SignedBytes(h.hDevice, p);
    assert b[8 + p..8 + 2 * p] == SignedBytes(h.wParam, p);
    ReadInt32Slice(b, 0, h.dwType);
    ReadInt32Slice(b, 4, h.dwSize);
    ReadSignedSlice(b, 8, p, h.hDevice);
    ReadSignedSlice(b, 8 + p, p, h.wParam);
    b
  }

  /** Reading a header and writing it back gives the same bytes: DecodeHeader loses nothing. */
  lemma HeaderBytesRoundTrip(b: seq<byte>, arch: Arch)
    requires |b| == HeaderSize(arch)
    ensures EncodeHeader(DecodeHeader(b, arch), arch) == b
  {
    var p := arch.PointerSize();
    var h := DecodeHeader(b, arch);
    assert Int32Bytes(h.dwType) == b[0..4] by { Int32BytesOfRead(b, 0); }
    assert Int32Bytes(h.dwSize) == b[4..8] by { Int32BytesOfRead(b, 4); }
    assert SignedBytes(h.hDevice, p) == b[8..8 + p] by { SignedBytesOfRead(b, 8, p); }
    assert SignedBytes(h.wParam, p) == b[8 + p..8 + 2 * p] by { SignedBytesOfRead(b, 8 + p, p); }
    SplitFourFields(b, p);
  }

  /** A header image is its four fields side by side. */
  lemma SplitFourFields(b: seq<byte>, p: nat)
    requires |b| == 8 + 2 * p
    ensures b == b[0..4] + b[4..8] + b[8..8 + p] + b[8 + p..8 + 2 * p]
  {
    assert b[0..8] == b[0..4] + b[4..8];
    assert b[0..8 + p] == b[0..8] + b[8..8 + p];
    assert b == b[0..8 + p] + b[8 + p..8 + 2 * p];
  }

  /** RAWHID: the report unit size and count, and the bytes taken from the report. */
  datatype RawHid = RawHid(dwSizeHid: int32, dwCount: int32, rawData: seq<byte>)

  // ---------------------------------------------------------------------------
  // HidUsageAndPage

  datatype HidUsageAndPage = HidUsageAndPage(UsagePage: uint16, Usage: uint16)
  {
    static const Mouse := HidUsageAndPage(0x01, 0x02)
    static const Joystick := HidUsageAndPage(0x01, 0x04)
    static const GamePad := HidUsageAndPage(0x01, 0x05)
    static const Keyboard := HidUsageAndPage(0x01, 0x06)
    static const Pen := HidUsageAndPage(0x0D, 0x02)
    static const TouchScreen := HidUsageAndPage(0x0D, 0x04)
    static const TouchPad := HidUsageAndPage(0x0D, 0x05)
  }

  /** `operator ==`: both fields equal. */
  function OpEquality(a: HidUsageAndPage, b: HidUsageAndPage): (r: bool)
    ensures r <==> a == b
  {
    a.UsagePage == b.UsagePage && a.Usage == b.Usage
  }

  /** `operator !=`: some field differs. */
  function OpInequality(a: HidUsageAndPage, b: HidUsageAndPage): (r: bool)
    ensures r <==> !OpEquality(a, b)
  {
    a.UsagePage != b.UsagePage || a.Usage != b.Usage
  }

  /** `UInt16.GetHashCode()`: the value itself, as an int32 bit pattern. */
  function UInt16Hash(x: uint16): bv32
  {
    (x as bv16) as bv32
  }

  /** `GetHashCode()`: the hash of the type object XOR the two field hashes.
      The type's hash is a runtime value, so it is a parameter. */
  function GetHashCode(h: HidUsageAndPage, typeHash: bv32): (r: bv32)
    ensures r ^ typeHash == FieldHash(h)
    ensures r & 0xFFFF_0000 == typeHash & 0xFFFF_0000
  {
    typeHash ^ UInt16Hash(h.UsagePage) ^ UInt16Hash(h.Usage)
  }

  /** `Equals(HidUsageAndPage)` as written: equal hash codes. */
  function EqualsByHash(a: HidUsageAndPage, b: HidUsageAndPage, typeHash: bv32): (r: bool)
    ensures r <==> FieldHash(a) == FieldHash(b)
  {
    HashSplits(a, typeHash);
    HashSplits(b, typeHash);
    XorCancels(typeHash, FieldHash(a), FieldHash(b));
    GetHashCode(a, typeHash) == GetHashCode(b, typeHash)
  }

  /** The part of the hash that depends on the value: the type's hash cancels out. */
  function FieldHash(h: HidUsageAndPage): bv32
  {
    UInt16Hash(h.UsagePage) ^ UInt16Hash(h.Usage)
  }

  lemma HashSplits(h: HidUsageAndPage, typeHash: bv32)
    ensures GetHashCode(h, typeHash) == typeHash ^ FieldHash(h)
  {
    var p, u := UInt16Hash(h.UsagePage), UInt16Hash(h.Usage);
    assert typeHash ^ p ^ u == typeHash ^ (p ^ u);
  }

  lemma XorCancels(t: bv32, x: bv32, y: bv32)
    ensures (t ^ x == t ^ y) <==> x == y
  {
    assert t ^ (t ^ x) == x && t ^ (t ^ y) == y;
  }

  /** The operator implies Equals, but not the other way: (1,2) and (2,1) have one hash. */
  lemma EqualsByHashIsWeaker(typeHash: bv32)
    ensures forall a, b :: OpEquality(a, b) ==> EqualsByHash(a, b, typeHash)
    ensures EqualsByHash(HidUsageAndPage(1, 2), HidUsageAndPage(2, 1), typeHash)
    ensures !OpEquality(HidUsageAndPage(1, 2), HidUsageAndPage(2, 1))
  {
    assert (1 as bv32) ^ (2 as bv32) == (2 as bv32) ^ (1 as bv32);
  }

  /** Equals as IEquatable intends it: agrees with `==` and with GetHashCode. */
  function EqualsByFields(a: HidUsageAndPage, b: HidUsageAndPage): (r: bool)
    ensures r <==> a == b
    ensures forall typeHash :: r ==> GetHashCode(a, typeHash) == GetHashCode(b, typeHash)
  {
    OpEquality(a, b)
  }

  /** An `object` argument: a boxed HidUsageAndPage, some other object, or null. */
  datatype Object = Boxed(value: HidUsageAndPage) | OtherObject | Null

  /** `Equals(object)`: a boxed HidUsageAndPage is compared by Equals(HidUsageAndPage);
      anything else fails ValueType.Equals's type test. */
  function EqualsObject(a: HidUsageAndPage, obj: Object, typeHash: bv32): (r: bool)
    ensures r ==> obj.Boxed?
    ensures obj.Boxed? ==> r == EqualsByHash(a, obj.value, typeHash)
  {
    match obj
    case Boxed(huap) => EqualsByHash(a, huap, typeHash)
    case _ => false
  }

  /** `ToString()`: `{UsagePage:X2}:{Usage:X2}`: the page in `X2` form (upper case, at
      least two digits, no leading zero beyond two), the first ':', then the usage in `X2` form. */
  function ToString(h: HidUsageAndPage): (s: string)
    ensures var i := IndexOf(s, ":");
            && 2 <= i && i + 3 <= |s|
            && AllHex(s[..i]) && HexValue(s[..i]) == h.UsagePage
            && AllHex(s[i + 1..]) && HexValue(s[i + 1..]) == h.Usage
            && s[..i] == FormatHex(h.UsagePage, 2, true) && s[i + 1..] == FormatHex(h.Usage, 2, true)
  {
    var p, u := FormatHex(h.UsagePage, 2, true), FormatHex(h.Usage, 2, true);
    var s := p + ":" + u;
    FirstSeparator(p, ':', u);
    assert s[..|p|] == p && s[|p| + 1..] == u;
    s
  }

  /** Reads "PAGE:USAGE" back; the partner of ToString. */
  function ParseUsageAndPage(s: string): Option<HidUsageAndPage>
  {
    var i := IndexOf(s, ":");
    if i < 0 then None
    else
      var page, usage := s[..i], s[i + 1..];
      if AllHex(page) && AllHex(usage) && HexValue(page) < 0x1_0000 && HexValue(usage) < 0x1_0000
      then Some(HidUsageAndPage(HexValue(page), HexValue(usage)))
      else None
  }

  /** ToString loses nothing: its output reads back as the same value. */
  lemma ToStringRoundTrip(h: HidUsageAndPage)
    ensures ParseUsageAndPage(ToString(h)) == Some(h)
  {
  }

  lemma GamePadToString()
    ensures ToString(HidUsageAndPage.GamePad) == "01:05"
  {
    OneDigitX2(1);
    OneDigitX2(5);
    assert ['0', '1'] + ":" + ['0', '5'] == "01:05";
  }

  /** A one-digit value prints as "0" and its digit under X2. */
  lemma OneDigitX2(d: nat)
    requires 0 < d < 10
    ensures FormatHex(d, 2, true) == ['0', '0' + d as char]
  {
    assert Hex(d, true) == [HexDigit(d, true)] by { assert Hex(0, true) == []; }
  }

  /** The GamePad constant is the page and usage the registration uses. */
  lemma GamePadMatchesRegistration()
    ensures HidUsageAndPage(RawInputDeviceUsagePage.GenericDesktopControls.Value(),
                            RawInputDeviceUsageId.GamePad.Value()) == HidUsageAndPage.GamePad
  {
  }
}
