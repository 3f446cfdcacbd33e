/** The stateful half of the library: GamePadRaw (registration state, device
    discovery, the OnRawInput event) and EmptyWindow (the message window that
    keeps the current target handles and the caller's report buffer). The two
    classes point at each other, so they share this module. */
module GamePadRawInput {
  import opened Bytes
  import opened DataType
  import opened Win32Host
  import opened DeviceFilter
  import opened ReportDecoder

  const WM_INPUT: int := 0x00ff
  const WM_INPUT_DEVICE_CHANGE: int := 0xfe

  /** A window message: its kind and its lParam (for WM_INPUT, the RAWINPUT handle). */
  datatype Message = Message(Msg: int, LParam: Handle)

  /** How WndProc ends: normally, or by an exception escaping it. */
  datatype Dispatch = Handled | Crashed(fault: Fault)

  /** The one-entry RAWINPUTDEVICE array RegistJoystickDevice sends: the generic-desktop
      gamepad collection (0x01, 0x05), background delivery and arrival/removal
      notices (0x2100), to the given window. */
  function RegisterRequest(hwnd: Handle): (r: seq<RawInputDevice>)
    ensures |r| == 1
    ensures HidUsageAndPage(r[0].usUsagePage.Value(), r[0].usUsage.Value()) == HidUsageAndPage.GamePad
    ensures r[0].dwFlags.bits == 0x2100 && r[0].hWnd == hwnd
  {
    [RawInputDevice(RawInputDeviceUsagePage.GenericDesktopControls, RawInputDeviceUsageId.GamePad,
                    RawInputDeviceFlags.InputSink.Or(RawInputDeviceFlags.DevNotify), hwnd)]
  }

  /** The one-entry array UnregistJoystickDevice sends: the same collection with
      RIDEV_REMOVE (0x1) and no window. */
  function UnregisterRequest(): (r: seq<RawInputDevice>)
    ensures |r| == 1
    ensures HidUsageAndPage(r[0].usUsagePage.Value(), r[0].usUsage.Value()) == HidUsageAndPage.GamePad
    ensures r[0].dwFlags.bits == 0x1 && r[0].hWnd == 0
  {
    [RawInputDevice(RawInputDeviceUsagePage.GenericDesktopControls, RawInputDeviceUsageId.GamePad,
                    RawInputDeviceFlags.Remove, 0)]
  }

  /** The handles FindTargetDevices and Initialize compute from the host. */
  function TargetDevices(host: Host): seq<Handle>
  {
    SelectTargetDevicesHandle(AllInputDevices(host), host)
  }

  /** The target set holds exactly the listed devices that are Bluetooth HID-service
      HID devices, in list order. */
  lemma TargetDevicesAreTargets(host: Host, h: Handle)
    ensures h in TargetDevices(host) <==> h in Handles(AllInputDevices(host)) && IsTarget(host, h)
    ensures IsSubsequence(TargetDevices(host), Handles(AllInputDevices(host)))
  {
    FilterTargetsMembers(Handles(AllInputDevices(host)), host, h);
  }

  /** The target set has no repeats when the padded array has none. */
  lemma TargetDevicesNoDuplicates(host: Host)
    requires NoDuplicates(Handles(AllInputDevices(host)))
    ensures NoDuplicates(TargetDevices(host))
  {
    FilterTargetsNoDuplicates(Handles(AllInputDevices(host)), host);
  }

  /** The padded array itself may repeat handle 0 (PaddingRepeatsZero), so the
      lemma above does not cover a list that shrank. The target set still has no
      repeats when the OS list has none and handle 0 carries no device info. */
  lemma ListedNoDuplicates(host: Host)
    requires NoDuplicates(Handles(host.listed)) && 0 !in host.infos
    ensures NoDuplicates(TargetDevices(host))
  {
    var w := Handles(ListWritten(host));
    assert NoDuplicates(w) by {
      if ListWritten(host) == [] {
        assert w == [];
      }
    }
    FilterTargetsNoDuplicates(w, host);
    PaddingNeverSelected(host);
  }

  /** The padded array can repeat handle 0: when the list shrinks from three entries
      to none between the two calls, all three entries stay zeroed. */
  lemma PaddingRepeatsZero()
    ensures var host := Host(3, [], map[], map[], map[], true);
            Handles(AllInputDevices(host)) == [0, 0, 0] && !NoDuplicates(Handles(AllInputDevices(host)))
  {
    var host := Host(3, [], map[], map[], map[], true);
    var hs := Handles(AllInputDevices(host));
    assert hs[0] == 0 && hs[1] == 0;
  }

  /** The requests Initialize sends: a removal first when registered, the registration,
      and a removal when the registration succeeded but found no target device. */
  function InitializeRequests(wasRegistered: bool, hwnd: Handle, host: Host): seq<seq<RawInputDevice>>
  {
    (if wasRegistered then [UnregisterRequest()] else [])
    + [RegisterRequest(hwnd)]
    + (if host.accepts && TargetDevices(host) == [] then [UnregisterRequest()] else [])
  }

  /** Proof helper, not a model of the library: appending one call's requests one at a time
      builds the same log as appending them at once, proved outside Initialize's larger context. */
  lemma AppendRequests(log: seq<seq<RawInputDevice>>, sent: seq<seq<RawInputDevice>>, last: seq<RawInputDevice>)
    ensures log + sent + [last] == log + (sent + [last])
  {
  }

  /** Initialize leaves the library registered exactly when the registration succeeded
      and a target device was found, and it never removes more than it registered. */
  lemma InitializeRequestCounts(wasRegistered: bool, hwnd: Handle, host: Host)
    ensures var rs := InitializeRequests(wasRegistered, hwnd, host);
            && |rs| == (if wasRegistered then 1 else 0) + 1 + (if host.accepts && TargetDevices(host) == [] then 1 else 0)
            && rs[if wasRegistered then 1 else 0] == RegisterRequest(hwnd)
            && (wasRegistered ==> rs[0] == UnregisterRequest())
            && rs[|rs| - 1] == (if host.accepts && TargetDevices(host) == [] then UnregisterRequest() else RegisterRequest(hwnd))
  {
  }

  class GamePadRaw {
    var registered: bool
    var window: EmptyWindow?

    /** Every RegisterRawInputDevices call made, oldest first. */
    ghost var Requests: seq<seq<RawInputDevice>>

    /** Every OnRawInput invocation, with the buffer contents it was given. */
    ghost var Raised: seq<seq<byte>>

    /** `new GamePadRaw(ref buffer)`: create the message window, then Initialize. */
    constructor (buffer: array<byte>, hwnd: Handle, arch: Arch, host: Host)
      ensures window != null && fresh(window)
      ensures window.joystickRaw == this && window.buffer == buffer
      ensures window.hwnd == hwnd && window.arch == arch && window.deviceHandles == None
      ensures registered == (host.accepts && TargetDevices(host) != [])
      ensures Requests == InitializeRequests(false, hwnd, host)
      ensures Raised == []
    {
      registered := false;
      window := null;
      Requests := [];
      Raised := [];
      new;
      window := new EmptyWindow(this, buffer, hwnd, arch);
      Initialize(window.hwnd, host);
    }

    method Initialize(windowHandle: Handle, host: Host)
      modifies this`registered, this`Requests
      ensures registered == (host.accepts && TargetDevices(host) != [])
      ensures Requests == old(Requests) + InitializeRequests(old(registered), windowHandle, host)
    {
      ghost var removal: seq<seq<RawInputDevice>> := if registered then [UnregisterRequest()] else [];
      ghost var sent := removal + [RegisterRequest(windowHandle)];
      if registered {
        var _ := UnregistJoystickDevice(host);
      }

      registered := false;
      var ok := RegistJoystickDevice(windowHandle, host);
      assert Requests == old(Requests) + sent by {
        AppendRequests(old(Requests), removal, RegisterRequest(windowHandle));
      }
      if !ok {
        return;
      }
      registered := true;

      var devices := GetAllInputDevices(host);
      var deviceHandle := SelectTargetDevicesHandle(devices[..], host);
      assert deviceHandle == TargetDevices(host);
      if |deviceHandle| == 0 {
        assert TargetDevices(host) == [];
        var _ := UnregistJoystickDevice(host);
        registered := false;
        AppendRequests(old(Requests), sent, UnregisterRequest());
        return;
      }
      assert Requests == old(Requests) + sent;
      assert InitializeRequests(old(registered), windowHandle, host) == sent;
    }

    /** The finaliser: removes the registration only if it is live. */
    method Finalize(host: Host)
      modifies this`Requests
      ensures Requests == old(Requests) + (if registered then [UnregisterRequest()] else [])
    {
      if registered {
        var _ := UnregistJoystickDevice(host);
      }
    }

    /** The sizing call gives the count, the array is allocated zeroed, and the filling
        call writes into it; neither its return value nor its updated count is used. */
    method GetAllInputDevices(host: Host) returns (devices: array<RawInputDeviceListItem>)
      ensures fresh(devices) && devices[..] == AllInputDevices(host)
    {
      var deviceCount := host.listCount;
      devices := new RawInputDeviceListItem[deviceCount](_ => ZeroListItem);
      var written := ListWritten(host);
      forall i | 0 <= i < |written| {
        devices[i] := written[i];
      }
    }

    method FindTargetDevices(host: Host) returns (handles: seq<Handle>)
      ensures handles == TargetDevices(host)
    {
      var devices := GetAllInputDevices(host);
      handles := SelectTargetDevicesHandle(devices[..], host);
    }

    method RegistJoystickDevice(handle: Handle, host: Host) returns (ok: bool)
      modifies this`Requests
      ensures ok == host.accepts
      ensures Requests == old(Requests) + [RegisterRequest(handle)]
    {
      Requests := Requests + [RegisterRequest(handle)];
      ok := host.accepts;
    }

    method UnregistJoystickDevice(host: Host) returns (ok: bool)
      modifies this`Requests
      ensures ok == host.accepts
      ensures Requests == old(Requests) + [UnregisterRequest()]
    {
      Requests := Requests + [UnregisterRequest()];
      ok := host.accepts;
    }

    /** Raises OnRawInput with the caller's buffer. */
    method InputParsedData(buffer: array<byte>)
      modifies this`Raised
      ensures Raised == old(Raised) + [buffer[..]]
    {
      Raised := Raised + [buffer[..]];
    }
  }

  /** What a WM_INPUT does with the current handles: a null array faults, an empty
      one skips parsing, otherwise the report decoder runs. */
  function InputEvent(deviceHandles: Option<seq<Handle>>, lParam: Handle, capacity: nat, host: Host, arch: Arch): (d: Decoded)
    ensures d.Accepted? ==> |d.raw.rawData| <= capacity
  {
    match deviceHandles
    case None => Faulted(NullDeviceHandles)
    case Some(handles) => if |handles| == 0 then Ignored else Decode(lParam, handles, capacity, host, arch)
  }

  function DispatchOf(d: Decoded): Dispatch
  {
    if d.Faulted? then Crashed(d.fault) else Handled
  }

  /** The callback fires exactly when ParseWindowMessage returned true; nothing is
      parsed without handles, and before the first device change the null handle
      array faults. */
  lemma InputEventCases(deviceHandles: Option<seq<Handle>>, lParam: Handle, capacity: nat, host: Host, arch: Arch)
    ensures deviceHandles == None ==> InputEvent(deviceHandles, lParam, capacity, host, arch) == Faulted(NullDeviceHandles)
    ensures deviceHandles == Some([]) ==> InputEvent(deviceHandles, lParam, capacity, host, arch) == Ignored
    ensures InputEvent(deviceHandles, lParam, capacity, host, arch).Accepted?
        <==> deviceHandles.Some? && deviceHandles.value != []
             && OutcomeOf(Decode(lParam, deviceHandles.value, capacity, host, arch)) == Returned(true)
  {
  }

  class EmptyWindow {
    /** Null until the first WM_INPUT_DEVICE_CHANGE. */
    var deviceHandles: Option<seq<Handle>>
    var joystickRaw: GamePadRaw
    var buffer: array<byte>

    /** The window handle CreateHandle produced. */
    const hwnd: Handle
    const arch: Arch

    constructor (joystickRaw: GamePadRaw, buffer: array<byte>, handle: Handle, arch: Arch)
      ensures this.joystickRaw == joystickRaw && this.buffer == buffer
      ensures hwnd == handle && this.arch == arch
      ensures deviceHandles == None
    {
      this.joystickRaw := joystickRaw;
      this.buffer := buffer;
      hwnd := handle;
      this.arch := arch;
      deviceHandles := None;
    }

    method WndProc(m: Message, host: Host) returns (outcome: Dispatch)
      modifies this`deviceHandles, buffer, joystickRaw`Raised
      ensures deviceHandles == (if m.Msg == WM_INPUT_DEVICE_CHANGE then Some(TargetDevices(host)) else old(deviceHandles))
      ensures var d := if m.Msg == WM_INPUT then InputEvent(old(deviceHandles), m.LParam, buffer.Length, host, arch) else Ignored;
              && outcome == DispatchOf(d)
              && buffer[..] == BufferAfter(old(buffer[..]), d)
              && joystickRaw.Raised == old(joystickRaw.Raised) + (if d.Accepted? then [buffer[..]] else [])
    {
      outcome := Handled;
      if m.Msg == WM_INPUT {
        match deviceHandles {
          case None =>
            outcome := Crashed(NullDeviceHandles);
          case Some(handles) =>
            if |handles| != 0 {
              var n := ParseWindowMessage(m.LParam, handles, buffer, host, arch);
              if n.Threw? {
                outcome := Crashed(n.fault);
              } else if n.value {
                joystickRaw.InputParsedData(buffer);
              }
            }
        }
      } else if m.Msg == WM_INPUT_DEVICE_CHANGE {
        var handles := joystickRaw.FindTargetDevices(host);
        deviceHandles := Some(handles);
      }
    }
  }
}
