/** Client runs of the plugin, checked only against the contracts of its commands and receivers:
    a full open/transfer/close cycle, the fate of an open whose pending slot is overwritten, and
    a detach while open. */
module Scenarios {
  import opened Usb
  import opened Device
  import opened Plugin

  const InReport := Endpoint(1, In, Interrupt, 64)
  const OutReport := Endpoint(2, Out, Interrupt, 64)

  /** An unauthorised device is enumerated, opened (which asks for permission), granted, written
      to, read from and closed; a read after the close finds the device not open. */
  method Lifecycle(report: seq<Byte>) returns (listed: InvokeState, readBack: InvokeState, afterClose: InvokeState)
    requires 0 < |report| <= 64
    ensures listed == Resolved(Devices([DeviceInfo("usb:1-1", 0x1C40, 0x05B8, None, 0, None, None)]))
    ensures readBack == Resolved(Data(report))
    ensures afterClose == Rejected(NotOpen, None)
  {
    var dev := UsbDevice("usb:1-1", 0x1C40, 0x05B8, None, None, [UsbInterface(0, [InReport, OutReport])]);
    var platform := Platform([dev], {});
    var plugin := new HidPlugin();

    var e := new Invoke();
    plugin.Enumerate(e, platform);
    assert plugin.connectedDevices.Keys == {};
    assert [dev][..0] == [];
    assert Visible([dev], {}) == [Info(dev)];
    listed := e.state;

    var o := new Invoke();
    var requested := plugin.Open(o, Some("usb:1-1"), platform, true, Claimed);
    assert requested == Some(dev) && o.state == Pending;
    plugin.OnPermissionResult(Some(dev), true, true, Claimed);
    assert o.state == Resolved(NoData);
    var eps := [InReport, OutReport];
    assert eps[..1] == [InReport] && eps[..1][..0] == [];
    assert LastMatching(eps, In) == Some(InReport) && LastMatching(eps, Out) == Some(OutReport);
    assert plugin.connectedDevices["usb:1-1"].usbInEndpoint == Some(InReport);

    var w := new Invoke();
    var issued := plugin.Write(w, Some("usb:1-1"), Some([4, 2]), 2);
    assert issued == Some(Transfer(OutReport, [4, 2], 2, WriteTimeout));
    assert w.state == Resolved(NoData);

    var r := new Invoke();
    issued := plugin.Read(r, Some("usb:1-1"), 100, |report|, report);
    ReadWithinPacket(64, report, |report|);
    assert report[..|report|] == report;
    readBack := r.state;

    var c := new Invoke();
    plugin.Close(c, Some("usb:1-1"), false);
    assert c.state == Resolved(NoData);

    var r2 := new Invoke();
    issued := plugin.Read(r2, Some("usb:1-1"), 100, |report|, report);
    assert issued == None;
    afterClose := r2.state;
  }

  /** Two opens of unauthorised devices: the second overwrites the pending slot, so a grant for
      the first device rejects the second open and the first is never answered. */
  method OverwrittenOpen(a: UsbDevice, b: UsbDevice) returns (first: InvokeState, second: InvokeState)
    requires a.deviceName != b.deviceName
    ensures first == Pending
    ensures second == Rejected(PermissionDenied, None)
  {
    var platform := Platform([a, b], {});
    var plugin := new HidPlugin();
    var oa := new Invoke();
    var _ := plugin.Open(oa, Some(a.deviceName), platform, true, Claimed);
    var ob := new Invoke();
    var _ := plugin.Open(ob, Some(b.deviceName), platform, true, Claimed);
    plugin.OnPermissionResult(Some(a), true, true, Claimed);
    first, second := oa.state, ob.state;
  }

  /** A device that is open and then detached (twice) is no longer open: the table is empty and a
      write is rejected without a transfer. */
  method DetachWhileOpen(dev: UsbDevice, data: seq<Byte>) returns (afterDetach: InvokeState, remaining: set<string>)
    requires dev.interfaces != []
    ensures afterDetach == Rejected(NotOpen, None)
    ensures remaining == {}
  {
    var platform := Platform([dev], {dev.deviceName});
    var plugin := new HidPlugin();
    var o := new Invoke();
    var _ := plugin.Open(o, Some(dev.deviceName), platform, true, Claimed);
    assert dev.deviceName in plugin.connectedDevices;
    var closed := plugin.OnDetach(Some(dev), false);
    assert closed.Some?;
    closed := plugin.OnDetach(Some(dev), false);
    assert closed == None;
    var w := new Invoke();
    var issued := plugin.Write(w, Some(dev.deviceName), Some(data), |data|);
    assert issued == None;
    afterDetach, remaining := w.state, plugin.connectedDevices.Keys;
  }

  /** A device asks for permission, is then opened directly once permission exists, and the late
      grant connects it a second time: the first HidDevice is replaced in the table without
      being closed. */
  method LateGrant(dev: UsbDevice) returns (first: HidDevice, table: map<string, HidDevice>, answered: InvokeState)
    requires dev.interfaces != []
    ensures dev.deviceName in table && table[dev.deviceName] != first
    ensures first !in table.Values
    ensures answered == Resolved(NoData)
  {
    var plugin := new HidPlugin();
    var o1 := new Invoke();
    var _ := plugin.Open(o1, Some(dev.deviceName), Platform([dev], {}), true, Claimed);
    var o2 := new Invoke();
    var _ := plugin.Open(o2, Some(dev.deviceName), Platform([dev], {dev.deviceName}), true, Claimed);
    first := plugin.connectedDevices[dev.deviceName];
    plugin.OnPermissionResult(Some(dev), true, true, Claimed);
    table, answered := plugin.connectedDevices, o1.state;
  }
}
