/** Device discovery and the target-device filter of GamePadRaw.cs:
    GetAllInputDevices (the two-call list protocol) and SelectTargetDevicesHandle
    (the LINQ pipeline that keeps Bluetooth HID-service devices). */
module DeviceFilter {
  import opened Bytes
  import opened Text
  import opened DataType
  import opened Win32Host

  /** The Bluetooth HID service UUID (16-bit 0x1812) in the form Windows puts in
      device interface paths: "{00001812-0000-1000-8000-00805f9b34fb}", written
      here in three pieces so that its structure can be checked. */
  const HidServiceUuid: string := "{0000" + "1812" + BaseUuidTail

  const BaseUuidTail: string := "-0000-1000-8000-00805f9b34fb}"

  /** A 16-bit Bluetooth SIG UUID expanded with the Bluetooth Base UUID
      0000xxxx-0000-1000-8000-00805F9B34FB (Bluetooth Core Specification,
      Vol 3, Part B, section 2.5.1), lower case and braced. */
  function BluetoothBaseUuid(short: uint16): (s: string)
    ensures |s| == 38
  {
    var digits := FormatHex(short, 4, false);
    assert |digits| == 4 by { HexWidth(short, false); }
    "{0000" + digits + BaseUuidTail
  }

  /** A value below 16^4 needs at most four hex digits. */
  lemma HexWidth(n: uint16, upper: bool)
    ensures |FormatHex(n, 4, upper)| == 4
  {
    var d := Hex(n, upper);
    assert |Hex(n / 0x1000 / 16, upper)| == 0;
    assert |Hex(n / 0x100 / 16, upper)| <= 1;
    assert |Hex(n / 0x10 / 16, upper)| <= 2;
    assert |Hex(n / 16, upper)| <= 3;
  }

  lemma HidServiceUuidIsBluetoothHid()
    ensures HidServiceUuid == BluetoothBaseUuid(0x1812)
  {
    assert Hex(0x1, false) == "1" by { assert Hex(0, false) == ""; }
    assert Hex(0x18, false) == Hex(0x1, false) + [HexDigit(8, false)];
    assert Hex(0x181, false) == Hex(0x18, false) + [HexDigit(1, false)];
    assert Hex(0x1812, false) == Hex(0x181, false) + [HexDigit(2, false)];
    assert Hex(0x1812, false) == "1812";
    assert FormatHex(0x1812, 4, false) == "1812";
  }

  // ---------------------------------------------------------------------------
  // GetAllInputDevices

  /** The array GetAllInputDevices returns: `listCount` entries (the count of the
      sizing call), the written entries first and zeroed entries after them. */
  function AllInputDevices(host: Host): (devices: seq<RawInputDeviceListItem>)
    ensures |devices| == host.listCount
    ensures devices[..|ListWritten(host)|] == ListWritten(host)
    ensures forall i :: |ListWritten(host)| <= i < |devices| ==> devices[i] == ZeroListItem
  {
    var w := ListWritten(host);
    w + seq(host.listCount - |w|, _ => ZeroListItem)
  }

  // ---------------------------------------------------------------------------
  // SelectTargetDevicesHandle

  /** `devices.Select(device => device.handle)`. */
  function Handles(devices: seq<RawInputDeviceListItem>): (hs: seq<Handle>)
    ensures |hs| == |devices|
    ensures forall i :: 0 <= i < |devices| ==> hs[i] == devices[i].handle
  {
    seq(|devices|, i requires 0 <= i < |devices| => devices[i].handle)
  }

  /** First predicate: the RIDI_DEVICEINFO type is Hid. */
  predicate IsHidDevice(host: Host, h: Handle)
  {
    DeviceInfoOf(host, h).Type() == RawInputDeviceType.Hid.Code()
  }

  /** Second predicate: the device name contains the HID service UUID. */
  predicate HasHidServiceName(host: Host, h: Handle)
  {
    Contains(DeviceNameOf(host, h), HidServiceUuid)
  }

  predicate IsTarget(host: Host, h: Handle)
  {
    IsHidDevice(host, h) && HasHidServiceName(host, h)
  }

  /** `.Where(handle => type is Hid)`. */
  function WhereHid(hs: seq<Handle>, host: Host): (r: seq<Handle>)
    ensures |r| <= |hs|
    ensures forall i :: 0 <= i < |r| ==> r[i] in hs && IsHidDevice(host, r[i])
    ensures forall i :: 0 <= i < |hs| && IsHidDevice(host, hs[i]) ==> hs[i] in r
  {
    if hs == [] then []
    else
      var rest := WhereHid(hs[1..], host);
      assert forall h :: h in rest ==> h in hs;
      (if IsHidDevice(host, hs[0]) then [hs[0]] else []) + rest
  }

  /** `.Where(handle => name contains the UUID)`. */
  function WhereNamed(hs: seq<Handle>, host: Host): (r: seq<Handle>)
    ensures |r| <= |hs|
    ensures forall i :: 0 <= i < |r| ==> r[i] in hs && HasHidServiceName(host, r[i])
    ensures forall i :: 0 <= i < |hs| && HasHidServiceName(host, hs[i]) ==> hs[i] in r
  {
    if hs == [] then []
    else
      var rest := WhereNamed(hs[1..], host);
      assert forall h :: h in rest ==> h in hs;
      (if HasHidServiceName(host, hs[0]) then [hs[0]] else []) + rest
  }

  /** The two Where stages applied to a handle sequence. */
  function FilterTargets(hs: seq<Handle>, host: Host): seq<Handle>
  {
    WhereNamed(WhereHid(hs, host), host)
  }

  /** The whole pipeline, `.ToArray()` included. */
  function SelectTargetDevicesHandle(devices: seq<RawInputDeviceListItem>, host: Host): (r: seq<Handle>)
    ensures forall i :: 0 <= i < |r| ==> r[i] in Handles(devices) && IsTarget(host, r[i])
    ensures forall i :: 0 <= i < |devices| && IsTarget(host, devices[i].handle) ==> devices[i].handle in r
    ensures IsSubsequence(r, Handles(devices))
  {
    FilterTargetsSubsequence(Handles(devices), host);
    FilterTargets(Handles(devices), host)
  }

  /** A listed HID device whose interface path embeds the Bluetooth HID service
      UUID anywhere is selected. */
  lemma EmbeddedUuidSelected(devices: seq<RawInputDeviceListItem>, host: Host, h: Handle, pre: string, post: string)
    requires h in Handles(devices) && IsHidDevice(host, h)
    requires DeviceNameOf(host, h) == pre + HidServiceUuid + post
    ensures h in SelectTargetDevicesHandle(devices, host)
  {
    ContainsInContext(pre, HidServiceUuid, post);
  }

  /** `a` is `b` with some elements dropped, order kept. */
  predicate IsSubsequence(a: seq<Handle>, b: seq<Handle>)
    decreases |b|
  {
    if a == [] then true
    else if b == [] then false
    else (a[0] == b[0] && IsSubsequence(a[1..], b[1..])) || IsSubsequence(a, b[1..])
  }

  predicate NoDuplicates(hs: seq<Handle>)
  {
    forall i, j :: 0 <= i < j < |hs| ==> hs[i] != hs[j]
  }

  /** The two stages compose into one filter on the conjunction. */
  lemma {:induction false} FilterTargetsUnfold(hs: seq<Handle>, host: Host)
    ensures hs == [] ==> FilterTargets(hs, host) == []
    ensures hs != [] ==>
              FilterTargets(hs, host) == (if IsTarget(host, hs[0]) then [hs[0]] else []) + FilterTargets(hs[1..], host)
  {
    if hs != [] {
      var head := if IsHidDevice(host, hs[0]) then [hs[0]] else [];
      WhereNamedAppend(head, WhereHid(hs[1..], host), host);
      if IsHidDevice(host, hs[0]) {
        assert WhereNamed(head, host) == (if HasHidServiceName(host, hs[0]) then [hs[0]] else []) + WhereNamed([], host);
      }
    }
  }

  /** Proof helper, not a model of the library: associativity, proved outside the filter lemmas' contexts. */
  lemma ConcatAssoc(h: seq<Handle>, x: seq<Handle>, y: seq<Handle>)
    ensures h + (x + y) == (h + x) + y
  {
  }

  lemma {:induction false} WhereNamedAppend(a: seq<Handle>, b: seq<Handle>, host: Host)
    ensures WhereNamed(a + b, host) == WhereNamed(a, host) + WhereNamed(b, host)
  {
    if a == [] {
      assert a + b == b;
    } else {
      var head := if HasHidServiceName(host, a[0]) then [a[0]] else [];
      var x, y := WhereNamed(a[1..], host), WhereNamed(b, host);
      WhereNamedUnfold(a, b, host);
      WhereNamedAppend(a[1..], b, host);
      ConcatAssoc(head, x, y);
    }
  }

  lemma WhereNamedUnfold(a: seq<Handle>, b: seq<Handle>, host: Host)
    requires a != []
    ensures WhereNamed(a + b, host) == (if HasHidServiceName(host, a[0]) then [a[0]] else []) + WhereNamed(a[1..] + b, host)
  {
    assert (a + b)[0] == a[0];
    assert (a + b)[1..] == a[1..] + b;
  }

  /** Exactly the listed handles that pass both tests are selected. */
  lemma {:induction false} FilterTargetsMembers(hs: seq<Handle>, host: Host, h: Handle)
    ensures h in FilterTargets(hs, host) <==> h in hs && IsTarget(host, h)
  {
    FilterTargetsUnfold(hs, host);
    if hs != [] {
      FilterTargetsMembers(hs[1..], host, h);
      assert hs == [hs[0]] + hs[1..];
    }
  }

  /** The selection keeps the input order: it is a subsequence of the handles. */
  lemma {:induction false} FilterTargetsSubsequence(hs: seq<Handle>, host: Host)
    ensures IsSubsequence(FilterTargets(hs, host), hs)
  {
    FilterTargetsUnfold(hs, host);
    if hs != [] {
      FilterTargetsSubsequence(hs[1..], host);
      var rest := FilterTargets(hs[1..], host);
      if IsTarget(host, hs[0]) {
        var r := [hs[0]] + rest;
        assert r[0] == hs[0] && r[1..] == rest;
        assert IsSubsequence(r, hs);
      } else {
        assert FilterTargets(hs, host) == rest;
        if rest != [] {
          assert IsSubsequence(rest, hs[1..]);
        }
      }
    }
  }

  /** Distinct input handles give distinct selected handles. */
  lemma {:induction false} FilterTargetsNoDuplicates(hs: seq<Handle>, host: Host)
    requires NoDuplicates(hs)
    ensures NoDuplicates(FilterTargets(hs, host))
  {
    FilterTargetsUnfold(hs, host);
    if hs != [] {
      assert NoDuplicates(hs[1..]);
      FilterTargetsNoDuplicates(hs[1..], host);
      if IsTarget(host, hs[0]) {
        FilterTargetsMembers(hs[1..], host, hs[0]);
        assert hs[0] !in hs[1..];
        ConsNoDuplicates(hs[0], FilterTargets(hs[1..], host));
      }
    }
  }

  lemma ConsNoDuplicates(x: Handle, rest: seq<Handle>)
    requires NoDuplicates(rest) && x !in rest
    ensures NoDuplicates([x] + rest)
  {
    var r := [x] + rest;
    forall i, j | 0 <= i < j < |r| ensures r[i] != r[j] {
      if i == 0 {
        assert r[j] in rest;
      } else {
        assert r[i] == rest[i - 1] && r[j] == rest[j - 1];
      }
    }
  }

  /** Filtering a selection again changes nothing. */
  lemma {:induction false} FilterTargetsIdempotent(hs: seq<Handle>, host: Host)
    ensures FilterTargets(FilterTargets(hs, host), host) == FilterTargets(hs, host)
  {
    FilterTargetsUnfold(hs, host);
    if hs != [] {
      FilterTargetsIdempotent(hs[1..], host);
      var rest := FilterTargets(hs[1..], host);
      if IsTarget(host, hs[0]) {
        var r := [hs[0]] + rest;
        FilterTargetsUnfold(r, host);
        assert r[0] == hs[0] && r[1..] == rest;
        assert FilterTargets(r, host) == [hs[0]] + FilterTargets(rest, host);
      } else {
        assert FilterTargets(hs, host) == rest;
      }
    }
  }

  lemma {:induction false} WhereHidAppend(a: seq<Handle>, b: seq<Handle>, host: Host)
    ensures WhereHid(a + b, host) == WhereHid(a, host) + WhereHid(b, host)
  {
    if a == [] {
      assert a + b == b;
    } else {
      var head := if IsHidDevice(host, a[0]) then [a[0]] else [];
      var x, y := WhereHid(a[1..], host), WhereHid(b, host);
      WhereHidUnfold(a, b, host);
      WhereHidAppend(a[1..], b, host);
      ConcatAssoc(head, x, y);
    }
  }

  lemma WhereHidUnfold(a: seq<Handle>, b: seq<Handle>, host: Host)
    requires a != []
    ensures WhereHid(a + b, host) == (if IsHidDevice(host, a[0]) then [a[0]] else []) + WhereHid(a[1..] + b, host)
  {
    assert (a + b)[0] == a[0];
    assert (a + b)[1..] == a[1..] + b;
  }

  lemma FilterTargetsAppend(a: seq<Handle>, b: seq<Handle>, host: Host)
    ensures FilterTargets(a + b, host) == FilterTargets(a, host) + FilterTargets(b, host)
  {
    WhereHidAppend(a, b, host);
    WhereNamedAppend(WhereHid(a, host), WhereHid(b, host), host);
  }

  /** The zeroed entries of a short list carry handle 0; unless the directory knows
      a device with handle 0 they are dropped by the Hid test, so only the written
      entries can be selected. */
  lemma PaddingNeverSelected(host: Host)
    requires 0 !in host.infos
    ensures SelectTargetDevicesHandle(AllInputDevices(host), host)
         == SelectTargetDevicesHandle(ListWritten(host), host)
  {
    var w := ListWritten(host);
    var all := AllInputDevices(host);
    var pad := Handles(all)[|w|..];
    assert Handles(all) == Handles(w) + pad;
    FilterTargetsAppend(Handles(w), pad, host);
    assert !IsHidDevice(host, 0) by { ZeroDeviceInfoIsMouse(); }
    NothingHidSelected(pad, host);
  }

  /** The Hid stage drops a run of non-Hid handles entirely. */
  lemma {:induction false} NothingHidSelected(hs: seq<Handle>, host: Host)
    requires forall i :: 0 <= i < |hs| ==> !IsHidDevice(host, hs[i])
    ensures WhereHid(hs, host) == []
  {
    if hs != [] {
      assert !IsHidDevice(host, hs[0]);
      NothingHidSelected(hs[1..], host);
    }
  }

  // ---------------------------------------------------------------------------
  // The device queries the pipeline makes

  /** One device query: RIDI_DEVICEINFO, or the two RIDI_DEVICENAME calls. */
  datatype Query = InfoQuery(handle: Handle) | NameQuery(handle: Handle)

  /** The queries in the order LINQ's lazy pipeline makes them: each handle is
      pulled through both Where stages before the next one is read. */
  function QueryTrace(hs: seq<Handle>, host: Host): seq<Query>
  {
    if hs == [] then []
    else [InfoQuery(hs[0])] + (if IsHidDevice(host, hs[0]) then [NameQuery(hs[0])] else [])
         + QueryTrace(hs[1..], host)
  }

  /** Every listed handle gets its info query; only Hid devices get their name queried. */
  lemma {:induction false} QueryTraceContents(hs: seq<Handle>, host: Host, h: Handle)
    ensures InfoQuery(h) in QueryTrace(hs, host) <==> h in hs
    ensures NameQuery(h) in QueryTrace(hs, host) <==> h in hs && IsHidDevice(host, h)
  {
    if hs != [] {
      QueryTraceContents(hs[1..], host, h);
      assert hs == [hs[0]] + hs[1..];
    }
  }

  /** A name query comes right after the info query of the same handle. */
  lemma {:induction false} NameQueryFollowsInfo(hs: seq<Handle>, host: Host, i: nat)
    requires i < |QueryTrace(hs, host)| && QueryTrace(hs, host)[i].NameQuery?
    ensures i > 0 && QueryTrace(hs, host)[i - 1] == InfoQuery(QueryTrace(hs, host)[i].handle)
    ensures IsHidDevice(host, QueryTrace(hs, host)[i].handle)
  {
    var t := QueryTrace(hs, host);
    var head := [InfoQuery(hs[0])] + (if IsHidDevice(host, hs[0]) then [NameQuery(hs[0])] else []);
    var rest := QueryTrace(hs[1..], host);
    assert t == head + rest;
    if i >= |head| {
      NameQueryFollowsInfo(hs[1..], host, i - |head|);
      assert t[i] == rest[i - |head|];
      if i - |head| > 0 {
        assert t[i - 1] == rest[i - |head| - 1];
      }
    }
  }
}
