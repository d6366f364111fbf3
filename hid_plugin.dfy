/** HidPlugin: the table of open devices, the single pending-permission record, the two
    broadcast receivers and the commands enumerate, open, close, read and write. Each command
    and each receiver callback runs as one atomic step. */
module Plugin {
  import opened Usb
  import opened Device

  const Tag := "HidPlugin"
  const PathRequired := "Path is required"
  const PathAndDataRequired := "Path and data are required"
  const PathNotFound := "Path not found in device list"
  const NotOpen := "Device not open"
  const OpenFailed := "Failed to open connection to device"
  const CreateFailedPrefix := "Failed to create HidDevice: "
  const PermissionDenied := "Permission denied for USB device"
  const CloseFailed := "Failed to close device"
  const ReadFailedPrefix := "Failed to read from device: "
  const WriteFailedPrefix := "Failed to write to device: "

  /** One device of the enumerate answer (the fields the plugin fills in). */
  datatype DeviceInfo = DeviceInfo(
    path: string,
    vendorId: U16,
    productId: U16,
    serialNumber: Option<string>,
    releaseNumber: nat,
    manufacturerString: Option<string>,
    productString: Option<string>)

  /** What a command resolves with. */
  datatype Payload = NoData | Devices(devices: seq<DeviceInfo>) | Data(data: seq<Byte>)

  /** Where a command's invoke stands: not answered yet, resolved, or rejected with a message
      and an optional error code. */
  datatype InvokeState = Pending | Resolved(payload: Payload) | Rejected(message: string, code: Option<string>)

  /** The handle through which a command answers its caller. */
  class Invoke {
    var state: InvokeState

    constructor ()
      ensures state == Pending
    {
      state := Pending;
    }

    method Resolve(payload: Payload)
      modifies this
      ensures state == Resolved(payload)
    {
      state := Resolved(payload);
    }

    method Reject(message: string, code: Option<string>)
      modifies this
      ensures state == Rejected(message, code)
    {
      state := Rejected(message, code);
    }
  }

  /** The entry enumerate emits for a device: the serial number is left out (it cannot be read
      without permission) and the release number is always 0. */
  function Info(d: UsbDevice): DeviceInfo
  {
    DeviceInfo(d.deviceName, d.vendorId, d.productId, None, 0, d.manufacturerName, d.productName)
  }

  /** The enumerate answer: the devices of the list, in order, whose names are not open. */
  function Visible(devices: seq<UsbDevice>, open: set<string>): seq<DeviceInfo>
  {
    if devices == [] then []
    else
      var rest := Visible(devices[..|devices| - 1], open);
      var d := devices[|devices| - 1];
      if d.deviceName in open then rest else rest + [Info(d)]
  }

  /** Enumerate emits an entry exactly for each listed device whose name is not open. */
  lemma {:induction false} VisibleExactly(devices: seq<UsbDevice>, open: set<string>)
    ensures forall x :: x in Visible(devices, open) <==>
      exists i :: 0 <= i < |devices| && devices[i].deviceName !in open && x == Info(devices[i])
  {
    if devices != [] {
      var n := |devices| - 1;
      var init := devices[..n];
      VisibleExactly(init, open);
      assert forall i :: 0 <= i < n ==> init[i] == devices[i];
      forall x
        ensures x in Visible(devices, open) <==>
          exists i :: 0 <= i < |devices| && devices[i].deviceName !in open && x == Info(devices[i])
      {
        if x in Visible(devices, open) && x !in Visible(init, open) {
          assert devices[n].deviceName !in open && x == Info(devices[n]);
        }
        if exists i :: 0 <= i < |devices| && devices[i].deviceName !in open && x == Info(devices[i]) {
          var i :| 0 <= i < |devices| && devices[i].deviceName !in open && x == Info(devices[i]);
          if i < n {
            assert init[i] == devices[i];
          }
        }
      }
    }
  }

  /** No open device is ever presented as available, and every entry has release number 0. */
  lemma {:induction false} VisibleHidesOpen(devices: seq<UsbDevice>, open: set<string>)
    ensures forall x :: x in Visible(devices, open) ==> x.path !in open && x.releaseNumber == 0
  {
    VisibleExactly(devices, open);
  }

  class HidPlugin {
    var connectedDevices: map<string, HidDevice>
    var pendingDevicePath: Option<string>
    var pendingUsbDevice: Option<UsbDevice>
    var pendingInvoke: Invoke?

    /** Every open device has claimed its interface and is recorded under one path only, and the
        three pending fields are either all set, to one device and its name, or all empty. */
    ghost predicate Valid()
      reads this, connectedDevices.Values
    {
      && (forall p | p in connectedDevices :: connectedDevices[p].usbInterface.Some?)
      && (forall p, q | p in connectedDevices && q in connectedDevices && p != q ::
            connectedDevices[p] != connectedDevices[q])
      && (pendingDevicePath.Some? <==> pendingUsbDevice.Some?)
      && (pendingUsbDevice.Some? <==> pendingInvoke != null)
      && (pendingUsbDevice.Some? ==> pendingUsbDevice.value.deviceName == pendingDevicePath.value)
    }

    twostate predicate PendingUnchanged()
      reads this
    {
      && pendingDevicePath == old(pendingDevicePath)
      && pendingUsbDevice == old(pendingUsbDevice)
      && pendingInvoke == old(pendingInvoke)
    }

    ghost predicate NoPending()
      reads this
    {
      pendingDevicePath == None && pendingUsbDevice == None && pendingInvoke == null
    }

    constructor ()
      ensures Valid() && NoPending() && connectedDevices == map[]
    {
      connectedDevices := map[];
      pendingDevicePath, pendingUsbDevice, pendingInvoke := None, None, null;
    }

    /** What createAndConnectDevice leaves behind. */
    twostate predicate ConnectOutcome(device: UsbDevice, path: string, invoke: Invoke, gotConnection: bool, setup: InterfaceSetup)
      reads this, invoke, connectedDevices.Values
    {
      if !gotConnection then
        connectedDevices == old(connectedDevices) && invoke.state == Rejected(OpenFailed, None)
      else if InitResult(device, setup).Error? then
        && connectedDevices == old(connectedDevices)
        && invoke.state == Rejected(Tag, Some(CreateFailedPrefix + InitResult(device, setup).message))
      else
        && path in connectedDevices
        && var d := connectedDevices[path];
        && fresh(d)
        && connectedDevices == old(connectedDevices)[path := d]
        && d.usbDevice == device
        && d.usbInterface == Some(device.interfaces[0])
        && d.usbInEndpoint == LastMatching(device.interfaces[0].endpoints, In)
        && d.usbOutEndpoint == LastMatching(device.interfaces[0].endpoints, Out)
        && invoke.state == Resolved(NoData)
    }

    /** Opens the device (`gotConnection` says whether openDevice returned a connection), creates a
        HidDevice, initializes it and records it under `path` only if that succeeds. */
    method CreateAndConnectDevice(device: UsbDevice, path: string, invoke: Invoke, gotConnection: bool, setup: InterfaceSetup)
      requires Valid()
      modifies this, invoke
      ensures Valid()
      ensures ConnectOutcome(device, path, invoke, gotConnection, setup)
      ensures PendingUnchanged()
    {
      if !gotConnection {
        invoke.Reject(OpenFailed, None);
        return;
      }
      var hidDevice := new HidDevice(device);
      var result := hidDevice.Initialize(setup);
      match result {
        case Success(_) =>
          connectedDevices := connectedDevices[path := hidDevice];
          invoke.Resolve(NoData);
        case Error(message) =>
          invoke.Reject(Tag, Some(CreateFailedPrefix + message));
      }
    }

    /** The permission receiver: a granted decision for the pending device connects it; any
        other decision rejects the pending invoke, if there is one. The slot is emptied either way. */
    method OnPermissionResult(device: Option<UsbDevice>, granted: bool, gotConnection: bool, setup: InterfaceSetup)
      requires Valid()
      modifies this, pendingInvoke
      ensures Valid() && NoPending()
      ensures
        var matched := granted && device.Some? && old(pendingUsbDevice).Some?
                       && old(pendingUsbDevice).value.deviceName == device.value.deviceName;
        && (matched ==>
              old(pendingInvoke) != null &&
              ConnectOutcome(old(pendingUsbDevice).value, old(pendingDevicePath).value, old(pendingInvoke), gotConnection, setup))
        && (!matched ==>
              && connectedDevices == old(connectedDevices)
              && (old(pendingInvoke) != null ==> old(pendingInvoke).state == Rejected(PermissionDenied, None)))
    {
      if granted && device.Some? && pendingUsbDevice.Some? && pendingUsbDevice.value.deviceName == device.value.deviceName {
        CreateAndConnectDevice(pendingUsbDevice.value, pendingDevicePath.value, pendingInvoke, gotConnection, setup);
      } else if pendingInvoke != null {
        pendingInvoke.Reject(PermissionDenied, None);
      }
      pendingInvoke := null;
      pendingUsbDevice := None;
      pendingDevicePath := None;
    }

    /** The detach receiver: a detached open device is closed, whatever closing returns, and
        dropped from the table; `threw` is the closing outcome, which is ignored. */
    method OnDetach(device: Option<UsbDevice>, threw: bool) returns (closed: Option<HidDevice>)
      requires Valid()
      modifies this
      ensures Valid()
      ensures device.None? ==> connectedDevices == old(connectedDevices) && closed == None
      ensures device.Some? ==>
        && connectedDevices == old(connectedDevices) - {device.value.deviceName}
        && closed == (if device.value.deviceName in old(connectedDevices)
                      then Some(old(connectedDevices)[device.value.deviceName]) else None)
      ensures PendingUnchanged()
    {
      closed := None;
      if device.Some? && device.value.deviceName in connectedDevices {
        var name := device.value.deviceName;
        var d := connectedDevices[name];
        var _ := d.CloseConnection(threw);
        connectedDevices := connectedDevices - {name};
        closed := Some(d);
      }
    }

    /** Closes every open device (the outcomes are discarded) and empties the table. `closed`
        lists the devices in the order they were closed. */
    method Cleanup() returns (closed: seq<HidDevice>)
      requires Valid()
      modifies this
      ensures Valid()
      ensures connectedDevices == map[]
      ensures forall d :: d in closed <==> d in old(connectedDevices).Values
      ensures forall i, j :: 0 <= i < j < |closed| ==> closed[i] != closed[j]
      ensures PendingUnchanged()
    {
      var remaining := connectedDevices.Values;
      closed := [];
      while remaining != {}
        modifies {}
        invariant remaining <= connectedDevices.Values
        invariant forall d :: d in closed <==> d in connectedDevices.Values && d !in remaining
        invariant forall i, j :: 0 <= i < j < |closed| ==> closed[i] != closed[j]
        decreases remaining
      {
        var d :| d in remaining;
        var _ := d.CloseConnection(false);
        closed := closed + [d];
        remaining := remaining - {d};
      }
      connectedDevices := map[];
    }

    /** The loop of enumerate: the listed devices that are not open, as enumerate reports them. */
    method VisibleDevices(devices: seq<UsbDevice>) returns (r: seq<DeviceInfo>)
      ensures r == Visible(devices, connectedDevices.Keys)
    {
      r := [];
      for i := 0 to |devices|
        invariant r == Visible(devices[..i], connectedDevices.Keys)
      {
        assert devices[..i + 1][..i] == devices[..i];
        var dev := devices[i];
        if dev.deviceName !in connectedDevices {
          r := r + [Info(dev)];
        }
      }
      assert devices[..|devices|] == devices;
    }

    method Enumerate(invoke: Invoke, platform: Platform)
      modifies invoke
      ensures invoke.state == Resolved(Devices(Visible(platform.devices, connectedDevices.Keys)))
    {
      var devices := VisibleDevices(platform.devices);
      invoke.Resolve(Devices(devices));
    }

    /** The open command. `gotConnection` and `setup` are the platform's answers should the device be
        connected at once; `requested` is the device permission was requested for, if any. */
    method Open(invoke: Invoke, path: Option<string>, platform: Platform, gotConnection: bool, setup: InterfaceSetup)
      returns (requested: Option<UsbDevice>)
      requires Valid()
      modifies this, invoke
      ensures Valid()
      ensures path.None? ==>
        && invoke.state == Rejected(PathRequired, None) && requested == None
        && connectedDevices == old(connectedDevices) && PendingUnchanged()
      ensures path.Some? && Lookup(platform.devices, path.value).None? ==>
        && invoke.state == Rejected(PathNotFound, None) && requested == None
        && connectedDevices == old(connectedDevices) && PendingUnchanged()
      ensures path.Some? && path.value in old(connectedDevices) && Lookup(platform.devices, path.value).Some? ==>
        && invoke.state == Resolved(NoData) && requested == None
        && connectedDevices == old(connectedDevices) && PendingUnchanged()
      ensures path.Some? && path.value !in old(connectedDevices) && Lookup(platform.devices, path.value).Some? ==>
        var device := Lookup(platform.devices, path.value).value;
        && (device.deviceName in platform.permitted ==>
              requested == None && PendingUnchanged() && ConnectOutcome(device, path.value, invoke, gotConnection, setup))
        && (device.deviceName !in platform.permitted ==>
              && requested == Some(device)
              && pendingDevicePath == path && pendingUsbDevice == Some(device) && pendingInvoke == invoke
              && connectedDevices == old(connectedDevices) && invoke.state == old(invoke.state))
    {
      requested := None;
      if path.None? {
        invoke.Reject(PathRequired, None);
        return;
      }
      var p := path.value;
      var found := Lookup(platform.devices, p);
      if found.None? {
        invoke.Reject(PathNotFound, None);
        return;
      }
      var device := found.value;
      if p in connectedDevices {
        invoke.Resolve(NoData);
        return;
      }
      if device.deviceName in platform.permitted {
        CreateAndConnectDevice(device, p, invoke, gotConnection, setup);
      } else {
        pendingDevicePath := Some(p);
        pendingUsbDevice := Some(device);
        pendingInvoke := invoke;
        requested := Some(device);
      }
    }

    /** The close command; `threw` says whether releasing or closing threw. */
    method Close(invoke: Invoke, path: Option<string>, threw: bool)
      requires Valid()
      modifies this, invoke
      ensures Valid() && PendingUnchanged()
      ensures path.None? ==> invoke.state == Rejected(PathRequired, None) && connectedDevices == old(connectedDevices)
      ensures path.Some? && path.value !in old(connectedDevices) ==>
        invoke.state == Rejected(NotOpen, None) && connectedDevices == old(connectedDevices)
      ensures path.Some? && path.value in old(connectedDevices) && threw ==>
        invoke.state == Rejected(CloseFailed, None) && connectedDevices == old(connectedDevices)
      ensures path.Some? && path.value in old(connectedDevices) && !threw ==>
        invoke.state == Resolved(NoData) && connectedDevices == old(connectedDevices) - {path.value}
    {
      if path.None? {
        invoke.Reject(PathRequired, None);
        return;
      }
      var p := path.value;
      if p !in connectedDevices {
        invoke.Reject(NotOpen, None);
        return;
      }
      var result := connectedDevices[p].CloseConnection(threw);
      if result.Error? {
        invoke.Reject(CloseFailed, None);
        return;
      }
      connectedDevices := connectedDevices - {p};
      invoke.Resolve(NoData);
    }

    /** The read command; `bytesRead` and `report` are what the transfer returns and delivers.
        `issued` is the transfer made, if any. */
    method Read(invoke: Invoke, path: Option<string>, timeout: int, bytesRead: int, report: seq<Byte>)
      returns (issued: Option<Transfer>)
      modifies invoke
      ensures path.None? ==> invoke.state == Rejected(PathRequired, None) && issued == None
      ensures path.Some? && path.value !in connectedDevices ==>
        invoke.state == Rejected(NotOpen, None) && issued == None
      ensures path.Some? && path.value in connectedDevices ==>
        var endpoint := connectedDevices[path.value].usbInEndpoint;
        && (endpoint.None? ==> invoke.state == Rejected(ReadFailedPrefix + NoInEndpoint, None) && issued == None)
        && (endpoint.Some? ==>
              var max := endpoint.value.maxPacketSize;
              && issued == Some(Transfer(endpoint.value, Zeros(max), max, timeout))
              && invoke.state == Resolved(Data(ReadResult(Delivered(max, report), bytesRead).data)))
    {
      issued := None;
      if path.None? {
        invoke.Reject(PathRequired, None);
        return;
      }
      var p := path.value;
      if p !in connectedDevices {
        invoke.Reject(NotOpen, None);
        return;
      }
      var result;
      result, issued := connectedDevices[p].Read(timeout, bytesRead, report);
      match result {
        case Success(data) => invoke.Resolve(Data(data));
        case Error(message) => invoke.Reject(ReadFailedPrefix + message, None);
      }
    }

    /** The write command; `bytesWritten` is what the transfer returns. */
    method Write(invoke: Invoke, path: Option<string>, data: Option<seq<Byte>>, bytesWritten: int)
      returns (issued: Option<Transfer>)
      modifies invoke
      ensures path.None? || data.None? ==> invoke.state == Rejected(PathAndDataRequired, None) && issued == None
      ensures path.Some? && data.Some? && path.value !in connectedDevices ==>
        invoke.state == Rejected(NotOpen, None) && issued == None
      ensures path.Some? && data.Some? && path.value in connectedDevices ==>
        var endpoint := connectedDevices[path.value].usbOutEndpoint;
        && (endpoint.None? ==> invoke.state == Rejected(WriteFailedPrefix + NoOutEndpoint, None) && issued == None)
        && (endpoint.Some? ==>
              && issued == Some(Transfer(endpoint.value, data.value, |data.value|, WriteTimeout))
              && invoke.state == (if bytesWritten > 0 then Resolved(NoData)
                                  else Rejected(WriteFailedPrefix + Device.WriteFailed, None)))
    {
      issued := None;
      if path.None? || data.None? {
        invoke.Reject(PathAndDataRequired, None);
        return;
      }
      var p := path.value;
      if p !in connectedDevices {
        invoke.Reject(NotOpen, None);
        return;
      }
      var result;
      result, issued := connectedDevices[p].Write(data.value, bytesWritten);
      match result {
        case Success(_) => invoke.Resolve(NoData);
        case Error(message) => invoke.Reject(WriteFailedPrefix + message, None);
      }
    }
  }
}
