/** The report decoder of GamePadRaw.cs: ParseWindowMessage and
    GetHeaderFromWMInputLParam. A WM_INPUT payload is a RAWINPUTHEADER followed
    by a RAWHID body (dwSizeHid, dwCount, then the report bytes); the decoder
    copies min(dwSizeHid * dwCount, buffer.Length) report bytes into the
    caller's buffer. */
module ReportDecoder {
  import opened Bytes
  import opened DataType
  import opened Win32Host

  /** What the C# code does that the model does not define or that throws:
      - NullDeviceHandles: WM_INPUT before any device change dereferences a null array;
      - NullPayload: `fixed` on a zero-length scratch array yields a null pointer,
        which the header read dereferences;
      - Overread: a pointer read past the end of the fetched payload;
      - NegativeCopyLength: Marshal.Copy throws on a negative length. */
  datatype Fault = NullDeviceHandles | NullPayload | Overread | NegativeCopyLength

  /** The fate of one WM_INPUT event. */
  datatype Decoded = Ignored | Accepted(raw: RawHid) | Faulted(fault: Fault)

  /** What ParseWindowMessage hands back to its caller: a bool, or an exception. */
  datatype Outcome = Returned(value: bool) | Threw(fault: Fault)

  function OutcomeOf(d: Decoded): (o: Outcome)
    ensures o == Returned(true) <==> d.Accepted?
    ensures o == Returned(false) <==> d == Ignored
  {
    match d
    case Ignored => Returned(false)
    case Accepted(_) => Returned(true)
    case Faulted(f) => Threw(f)
  }

  /** GetHeaderFromWMInputLParam: the header-only fetch. A handle the OS knows gives the
      header at the front of its packet; any other gives the zeroed `out` header. */
  function GetHeaderFromWMInputLParam(host: Host, lParam: Handle, arch: Arch): (h: RawInputHeader)
    ensures HeaderFits(h, arch)
    ensures !(lParam in host.packets && |host.packets[lParam].data| >= HeaderSize(arch)) ==> h == ZeroHeader
  {
    HeaderOf(host, lParam, arch)
  }

  /** The fetched header is exactly the bytes at the front of the packet: encoding it
      again gives them back. */
  lemma HeaderFetchLosesNothing(host: Host, lParam: Handle, arch: Arch)
    requires lParam in host.packets && |host.packets[lParam].data| >= HeaderSize(arch)
    ensures EncodeHeader(GetHeaderFromWMInputLParam(host, lParam, arch), arch)
         == host.packets[lParam].data[..HeaderSize(arch)]
  {
    HeaderBytesRoundTrip(host.packets[lParam].data[..HeaderSize(arch)], arch);
  }

  /** The number of report bytes copied: Math.Min of the unchecked int32 product and
      the buffer length. */
  function CopyLength(dwSizeHid: int32, dwCount: int32, capacity: nat): (n: int)
    ensures n <= capacity
    ensures n < 0 <==> WrapInt32(dwSizeHid * dwCount) < 0
    ensures 0 <= dwSizeHid * dwCount < 0x8000_0000 ==> n == Min(dwSizeHid * dwCount, capacity)
  {
    Min(WrapInt32(dwSizeHid * dwCount), capacity)
  }

  /** ParseWindowMessage, step by step, as a function of the host and the buffer length. */
  function Decode(lParam: Handle, targetHandles: seq<Handle>, capacity: nat, host: Host, arch: Arch): (d: Decoded)
    ensures d.Accepted? ==> |d.raw.rawData| <= capacity
  {
    if |targetHandles| == 0 then Ignored
    else if GetHeaderFromWMInputLParam(host, lParam, arch).hDevice !in targetHandles then Ignored
    else DecodePayload(InputFilled(host, lParam), HeaderSize(arch), capacity)
  }

  /** The part of ParseWindowMessage after the membership check, on the fetched
      payload `bytes` (whose length is the size the sizing call reported). */
  function DecodePayload(bytes: seq<byte>, headerSize: nat, capacity: nat): (d: Decoded)
    ensures d.Accepted? ==> |d.raw.rawData| <= capacity
  {
    if |bytes| == 0 then Faulted(NullPayload)
    else if |bytes| < headerSize + 8 then Faulted(Overread)
    else
      var dwSizeHid := ReadInt32(bytes, headerSize);
      var dwCount := ReadInt32(bytes, headerSize + 4);
      var n := CopyLength(dwSizeHid, dwCount, capacity);
      if n < 0 then Faulted(NegativeCopyLength)
      else if headerSize + 8 + n > |bytes| then Faulted(Overread)
      else Accepted(RawHid(dwSizeHid, dwCount, bytes[headerSize + 8..headerSize + 8 + n]))
  }

  /** The caller's buffer after the event: the copied bytes at the front, the rest as it was. */
  function BufferAfter(before: seq<byte>, d: Decoded): (b: seq<byte>)
    requires d.Accepted? ==> |d.raw.rawData| <= |before|
    ensures |b| == |before|
  {
    if d.Accepted? then d.raw.rawData + before[|d.raw.rawData|..] else before
  }

  // ---------------------------------------------------------------------------
  // The imperative decoder

  /** The filling GetRawInputData(RID_INPUT) call: the OS writes the packet into the
      scratch array, or writes nothing when it fails (its result is not looked at). */
  method FillInput(host: Host, lParam: Handle, bytes: array<byte>)
    requires bytes.Length == InputSize(host, lParam)
    requires forall i :: 0 <= i < bytes.Length ==> bytes[i] == 0
    modifies bytes
    ensures bytes[..] == InputFilled(host, lParam)
  {
    if lParam in host.packets && host.packets[lParam].fillSucceeds {
      var data := host.packets[lParam].data;
      forall i | 0 <= i < bytes.Length {
        bytes[i] := data[i];
      }
    }
  }

  /** Marshal.Copy(source + start, destination, 0, length). */
  method MarshalCopy(source: array<byte>, start: nat, destination: array<byte>, length: nat)
    requires source != destination
    requires start + length <= source.Length && length <= destination.Length
    modifies destination
    ensures destination[..] == source[start..start + length] + old(destination[..])[length..]
  {
    var i := 0;
    while i < length
      invariant 0 <= i <= length
      invariant destination[..i] == source[start..start + i]
      invariant destination[i..] == old(destination[..])[i..]
    {
      destination[i] := source[start + i];
      i := i + 1;
      assert destination[..i] == destination[..i - 1] + [source[start + i - 1]];
    }
  }

  /** The accepting path of DecodePayload, on its own. */
  lemma DecodePayloadAccepts(bytes: seq<byte>, headerSize: nat, capacity: nat)
    requires |bytes| >= headerSize + 8
    requires var n := CopyLength(ReadInt32(bytes, headerSize), ReadInt32(bytes, headerSize + 4), capacity);
             0 <= n && headerSize + 8 + n <= |bytes|
    ensures var s, c := ReadInt32(bytes, headerSize), ReadInt32(bytes, headerSize + 4);
            var n := CopyLength(s, c, capacity);
            DecodePayload(bytes, headerSize, capacity) == Accepted(RawHid(s, c, bytes[headerSize + 8..headerSize + 8 + n]))
  {
  }

  /** ParseWindowMessage: accepts the event only from a target device, then copies
      the report into `buffer` in place. */
  method ParseWindowMessage(wmLParam: Handle, targetHandles: seq<Handle>, buffer: array<byte>, host: Host, arch: Arch)
    returns (result: Outcome)
    modifies buffer
    ensures result == OutcomeOf(Decode(wmLParam, targetHandles, buffer.Length, host, arch))
    ensures buffer[..] == BufferAfter(old(buffer[..]), Decode(wmLParam, targetHandles, buffer.Length, host, arch))
  {
    if |targetHandles| == 0 {
      return Returned(false);
    }
    var header := GetHeaderFromWMInputLParam(host, wmLParam, arch);
    if header.hDevice !in targetHandles {
      return Returned(false);
    }
    result := CopyReport(wmLParam, buffer, host, arch);
  }

  /** The part of ParseWindowMessage after the membership check: fetch the payload
      into a scratch array, read the RAWHID counts behind the header, and copy the
      report into `buffer`. */
  method CopyReport(wmLParam: Handle, buffer: array<byte>, host: Host, arch: Arch) returns (result: Outcome)
    modifies buffer
    ensures result == OutcomeOf(DecodePayload(InputFilled(host, wmLParam), HeaderSize(arch), buffer.Length))
    ensures buffer[..] == BufferAfter(old(buffer[..]), DecodePayload(InputFilled(host, wmLParam), HeaderSize(arch), buffer.Length))
  {
    var headerSize := HeaderSize(arch);
    var size := InputSize(host, wmLParam);
    ghost var d := DecodePayload(InputFilled(host, wmLParam), headerSize, buffer.Length);
    var bytes := new byte[size](_ => 0);
    if size == 0 {
      return Threw(NullPayload);
    }
    FillInput(host, wmLParam, bytes);
    ghost var filled := bytes[..];

    if size < headerSize {
      return Threw(Overread);
    }
    var header := DecodeHeader(bytes[..headerSize], arch);
    if size < headerSize + 8 {
      return Threw(Overread);
    }
    var raw := RawHid(ReadInt32(bytes[..], headerSize), ReadInt32(bytes[..], headerSize + 4), []);
    var n := CopyLength(raw.dwSizeHid, raw.dwCount, buffer.Length);
    if n < 0 {
      return Threw(NegativeCopyLength);
    }
    if headerSize + 8 + n > size {
      return Threw(Overread);
    }
    DecodePayloadAccepts(filled, headerSize, buffer.Length);
    assert d == Accepted(RawHid(raw.dwSizeHid, raw.dwCount, filled[headerSize + 8..headerSize + 8 + n]));
    MarshalCopy(bytes, headerSize + 8, buffer, n);
    assert buffer[..] == filled[headerSize + 8..headerSize + 8 + n] + old(buffer[..])[n..];
    return Returned(true);
  }

  // ---------------------------------------------------------------------------
  // Properties

  /** An event is ignored (false, buffer untouched) exactly when there are no targets
      or its header's device is not one of them. */
  lemma IgnoredIffNotTarget(lParam: Handle, targetHandles: seq<Handle>, capacity: nat, host: Host, arch: Arch)
    ensures Decode(lParam, targetHandles, capacity, host, arch) == Ignored
        <==> |targetHandles| == 0 || HeaderOf(host, lParam, arch).hDevice !in targetHandles
  {
  }

  /** On acceptance the copy length is Math.Min(product, capacity) of the two header
      integers, which is then also min(max(product, 0), capacity); the bytes are those
      right after the two integers. */
  lemma AcceptedCopy(lParam: Handle, targetHandles: seq<Handle>, capacity: nat, host: Host, arch: Arch)
    requires Decode(lParam, targetHandles, capacity, host, arch).Accepted?
    ensures var raw := Decode(lParam, targetHandles, capacity, host, arch).raw;
            var product := WrapInt32(raw.dwSizeHid * raw.dwCount);
            var bytes := InputFilled(host, lParam);
            var start := HeaderSize(arch) + 8;
            && |raw.rawData| == CopyLength(raw.dwSizeHid, raw.dwCount, capacity)
            && |raw.rawData| == Min(if product < 0 then 0 else product, capacity)
            && start + |raw.rawData| <= |bytes|
            && raw.rawData == bytes[start..start + |raw.rawData|]
            && raw.dwSizeHid == ReadInt32(bytes, HeaderSize(arch))
            && raw.dwCount == ReadInt32(bytes, HeaderSize(arch) + 4)
  {
  }

  /** The payload Windows delivers for a HID report: header, the two integers, report. */
  function EncodeInput(header: RawInputHeader, dwSizeHid: int32, dwCount: int32, report: seq<byte>, arch: Arch): (b: seq<byte>)
    requires HeaderFits(header, arch)
    ensures |b| == HeaderSize(arch) + 8 + |report|
  {
    EncodeHeader(header, arch) + Int32Bytes(dwSizeHid) + Int32Bytes(dwCount) + report
  }

  /** The fields the decoder reads back from an encoded payload. */
  lemma EncodedInputFields(header: RawInputHeader, dwSizeHid: int32, dwCount: int32, report: seq<byte>, arch: Arch, n: nat)
    requires HeaderFits(header, arch) && n <= |report|
    ensures var b, hs := EncodeInput(header, dwSizeHid, dwCount, report, arch), HeaderSize(arch);
            && DecodeHeader(b[..hs], arch) == header
            && ReadInt32(b, hs) == dwSizeHid
            && ReadInt32(b, hs + 4) == dwCount
            && b[hs + 8..hs + 8 + n] == report[..n]
  {
    var eh, sb, cb := EncodeHeader(header, arch), Int32Bytes(dwSizeHid), Int32Bytes(dwCount);
    var b := EncodeInput(header, dwSizeHid, dwCount, report, arch);
    EncodedParts(eh, sb, cb, report);
    ReadInt32At(eh, dwSizeHid, cb + report);
    ReadInt32At(eh + sb, dwCount, report);
  }

  /** Where the pieces of a concatenated payload sit. */
  lemma EncodedParts(eh: seq<byte>, sb: seq<byte>, cb: seq<byte>, report: seq<byte>)
    requires |sb| == 4 && |cb| == 4
    ensures var b := eh + sb + cb + report;
            && b == eh + sb + (cb + report)
            && b == (eh + sb) + cb + report
            && b[..|eh|] == eh
            && b[|eh| + 8..] == report
  {
  }

  /** A well-formed payload decodes to its two integers and the first
      min(dwSizeHid * dwCount, capacity) report bytes. */
  lemma DecodeEncodedPayload(header: RawInputHeader, dwSizeHid: int32, dwCount: int32, report: seq<byte>, arch: Arch,
                             capacity: nat)
    requires HeaderFits(header, arch)
    requires 0 <= dwSizeHid * dwCount < 0x8000_0000
    requires Min(dwSizeHid * dwCount, capacity) <= |report|
    ensures DecodePayload(EncodeInput(header, dwSizeHid, dwCount, report, arch), HeaderSize(arch), capacity)
         == Accepted(RawHid(dwSizeHid, dwCount, report[..Min(dwSizeHid * dwCount, capacity)]))
  {
    var n := Min(dwSizeHid * dwCount, capacity);
    var b, hs := EncodeInput(header, dwSizeHid, dwCount, report, arch), HeaderSize(arch);
    assert ReadInt32(b, hs) == dwSizeHid && ReadInt32(b, hs + 4) == dwCount && b[hs + 8..hs + 8 + n] == report[..n] by {
      EncodedInputFields(header, dwSizeHid, dwCount, report, arch, n);
    }
    assert CopyLength(dwSizeHid, dwCount, capacity) == n;
  }

  /** A well-formed report from a target device is decoded: the first
      min(dwSizeHid * dwCount, capacity) report bytes are copied. */
  lemma DecodeEncodedInput(lParam: Handle, targetHandles: seq<Handle>, capacity: nat, host: Host, arch: Arch,
                           header: RawInputHeader, dwSizeHid: int32, dwCount: int32, report: seq<byte>)
    requires HeaderFits(header, arch) && header.hDevice in targetHandles
    requires lParam in host.packets
    requires host.packets[lParam] == Packet(EncodeInput(header, dwSizeHid, dwCount, report, arch), true)
    requires 0 <= dwSizeHid * dwCount < 0x8000_0000
    requires Min(dwSizeHid * dwCount, capacity) <= |report|
    ensures Decode(lParam, targetHandles, capacity, host, arch)
         == Accepted(RawHid(dwSizeHid, dwCount, report[..Min(dwSizeHid * dwCount, capacity)]))
  {
    EncodedInputFields(header, dwSizeHid, dwCount, report, arch, 0);
    DecodeEncodedPayload(header, dwSizeHid, dwCount, report, arch, capacity);
  }

  /** The result of the filling call is ignored: when it fails, the zeroed scratch
      array reads as a zero-length report and the event still counts as decoded. */
  lemma FailedFillStillAccepted(lParam: Handle, targetHandles: seq<Handle>, capacity: nat, host: Host, arch: Arch)
    requires targetHandles != [] && HeaderOf(host, lParam, arch).hDevice in targetHandles
    requires lParam in host.packets && !host.packets[lParam].fillSucceeds
    requires |host.packets[lParam].data| >= HeaderSize(arch) + 8
    ensures Decode(lParam, targetHandles, capacity, host, arch) == Accepted(RawHid(0, 0, []))
    ensures OutcomeOf(Decode(lParam, targetHandles, capacity, host, arch)) == Returned(true)
  {
    var z := InputFilled(host, lParam);
    assert z == Zeros(|z|);
    DecodeZeroPayload(|z|, HeaderSize(arch), capacity);
  }

  /** An all-zero payload long enough for the two integers claims an empty report. */
  lemma DecodeZeroPayload(size: nat, headerSize: nat, capacity: nat)
    requires size >= headerSize + 8
    ensures DecodePayload(Zeros(size), headerSize, capacity) == Accepted(RawHid(0, 0, []))
  {
    var z := Zeros(size);
    assert ReadInt32(z, headerSize) == 0 && ReadInt32(z, headerSize + 4) == 0 by {
      assert z[headerSize..headerSize + 4] == Zeros(4) && z[headerSize + 4..headerSize + 8] == Zeros(4);
      FromLEZeros(4);
    }
    assert CopyLength(0, 0, capacity) == 0;
  }

  /** The int32 product is unchecked: 0x10000 * 0x10000 wraps to 0 (nothing is copied
      although the report claims 4 GiB), and 0x8000 * 0x10000 wraps to a negative
      length, on which Marshal.Copy throws. */
  lemma ProductWraps(capacity: nat)
    ensures CopyLength(0x1_0000, 0x1_0000, capacity) == 0
    ensures CopyLength(0x8000, 0x1_0000, capacity) < 0
  {
  }

  /** Nothing checks the payload length against the claimed report size: a payload
      that claims more bytes than it carries is read past its end. */
  lemma ShortPayloadOverreads(lParam: Handle, targetHandles: seq<Handle>, capacity: nat, host: Host, arch: Arch,
                              header: RawInputHeader, dwCount: int32, report: seq<byte>)
    requires HeaderFits(header, arch) && header.hDevice in targetHandles
    requires |report| < dwCount <= capacity
    requires lParam in host.packets
    requires host.packets[lParam] == Packet(EncodeInput(header, 1, dwCount, report, arch), true)
    ensures Decode(lParam, targetHandles, capacity, host, arch) == Faulted(Overread)
  {
    EncodedInputFields(header, 1, dwCount, report, arch, 0);
    ShortPayloadFaults(header, dwCount, report, arch, capacity);
  }

  /** The payload half of ShortPayloadOverreads: the decoder faults on the bytes alone. */
  lemma ShortPayloadFaults(header: RawInputHeader, dwCount: int32, report: seq<byte>, arch: Arch, capacity: nat)
    requires HeaderFits(header, arch)
    requires |report| < dwCount <= capacity
    ensures DecodePayload(EncodeInput(header, 1, dwCount, report, arch), HeaderSize(arch), capacity) == Faulted(Overread)
  {
    var b, hs := EncodeInput(header, 1, dwCount, report, arch), HeaderSize(arch);
    assert ReadInt32(b, hs) == 1 && ReadInt32(b, hs + 4) == dwCount by {
      EncodedInputFields(header, 1, dwCount, report, arch, 0);
    }
    assert CopyLength(1, dwCount, capacity) == dwCount;
  }
}
