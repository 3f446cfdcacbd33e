/** The operating system as seen by the core: one snapshot of what the User32
    raw-input calls answer. Every P/Invoke the C# code makes is read off this
    value, so the model's operations take a `Host` where the source calls out. */
module Win32Host {
  import opened Bytes
  import opened DataType

  /** What GetRawInputData knows about one WM_INPUT lParam: the RAWINPUT bytes, and
      whether the filling call (the one whose return value is ignored) succeeds. */
  datatype Packet = Packet(data: seq<byte>, fillSucceeds: bool)

  datatype Host = Host(
    listCount: nat,                        // count the sizing GetRawInputDeviceList call reports
    listed: seq<RawInputDeviceListItem>,   // devices present at the filling call
    infos: map<Handle, RawInputDeviceInfo>,// RIDI_DEVICEINFO per live handle
    names: map<Handle, string>,            // RIDI_DEVICENAME per live handle
    packets: map<Handle, Packet>,          // RAWINPUT per live lParam
    accepts: bool)                         // what RegisterRawInputDevices reports

  /** Entries the filling GetRawInputDeviceList call writes into an array of
      `listCount` entries: all of them when they fit, none when the list grew. */
  function ListWritten(host: Host): (w: seq<RawInputDeviceListItem>)
    ensures |w| <= host.listCount
    ensures w == host.listed || w == []
    ensures |host.listed| <= host.listCount ==> w == host.listed
  {
    if |host.listed| <= host.listCount then host.listed else []
  }

  /** GetRawInputDeviceInfo(RIDI_DEVICEINFO) into a zeroed `out` struct: a stale
      handle leaves it zeroed. */
  function DeviceInfoOf(host: Host, h: Handle): RawInputDeviceInfo
  {
    if h in host.infos then host.infos[h] else ZeroDeviceInfo
  }

  /** The size query and the StringBuilder fetch of RIDI_DEVICENAME: a stale
      handle reports size 0 and leaves the builder empty. */
  function DeviceNameOf(host: Host, h: Handle): string
  {
    if h in host.names then host.names[h] else ""
  }

  /** GetRawInputData(RID_HEADER) into a zeroed `out` header. */
  function HeaderOf(host: Host, lParam: Handle, arch: Arch): RawInputHeader
  {
    if lParam in host.packets && |host.packets[lParam].data| >= HeaderSize(arch)
    then DecodeHeader(host.packets[lParam].data[..HeaderSize(arch)], arch)
    else ZeroHeader
  }

  /** GetRawInputData(RID_INPUT) with a null buffer: the size it stores (0 on failure). */
  function InputSize(host: Host, lParam: Handle): nat
  {
    if lParam in host.packets then |host.packets[lParam].data| else 0
  }

  /** The scratch array after GetRawInputData(RID_INPUT) fills it: the packet when
      the call succeeds, the array's initial zeros when it fails. */
  function InputFilled(host: Host, lParam: Handle): (b: seq<byte>)
    ensures |b| == InputSize(host, lParam)
  {
    if lParam in host.packets && host.packets[lParam].fillSucceeds
    then host.packets[lParam].data
    else Zeros(InputSize(host, lParam))
  }
}
