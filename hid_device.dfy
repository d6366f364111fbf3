/** HidDevice: one opened USB device, its interface 0 and the two interrupt endpoints
    found on it, with the read, write and close operations built on them. */
module Device {
  import opened Usb

  const InitErrorPrefix := "Error initializing device: "
  const NoInEndpoint := "Cannot read: IN endpoint not available"
  const NoOutEndpoint := "Cannot write: OUT endpoint not available"
  const WriteFailed := "Failed to write data"
  const NoInterface := "Cannot close: Interface not available"
  const CloseErrorPrefix := "Error closing device: "

  /** The fixed timeout, in milliseconds, of every write. */
  const WriteTimeout := 1000

  /** The endpoint scan's test: this endpoint has the given direction and is an interrupt endpoint. */
  predicate Selects(e: Endpoint, dir: Direction)
  {
    e.direction == dir && e.kind == Interrupt
  }

  /** The value the scan leaves behind: the last endpoint of `eps` the scan selects for `dir`. */
  function LastMatching(eps: seq<Endpoint>, dir: Direction): Option<Endpoint>
  {
    if eps == [] then None
    else if Selects(eps[|eps| - 1], dir) then Some(eps[|eps| - 1])
    else LastMatching(eps[..|eps| - 1], dir)
  }

  /** The scan finds nothing exactly when no endpoint matches; otherwise it finds an endpoint
      that matches and that no later endpoint of the list matches as well. */
  lemma {:induction false} LastMatchingIsLast(eps: seq<Endpoint>, dir: Direction)
    ensures LastMatching(eps, dir).None? <==> forall i :: 0 <= i < |eps| ==> !Selects(eps[i], dir)
    ensures LastMatching(eps, dir).Some? ==>
      exists i :: 0 <= i < |eps| && eps[i] == LastMatching(eps, dir).value && Selects(eps[i], dir) &&
        forall j :: i < j < |eps| ==> !Selects(eps[j], dir)
  {
    if eps != [] {
      var n := |eps| - 1;
      if !Selects(eps[n], dir) {
        LastMatchingIsLast(eps[..n], dir);
        assert forall i :: 0 <= i < n ==> eps[..n][i] == eps[i];
        if LastMatching(eps[..n], dir).Some? {
          var i :| 0 <= i < n && eps[..n][i] == LastMatching(eps[..n], dir).value && Selects(eps[..n][i], dir) &&
            forall j :: i < j < n ==> !Selects(eps[..n][j], dir);
          assert eps[i] == LastMatching(eps, dir).value;
        }
      } else {
        assert eps[n] == LastMatching(eps, dir).value;
      }
    }
  }

  /** Only an interrupt endpoint of the requested direction is ever selected. */
  lemma {:induction false} LastMatchingSelects(eps: seq<Endpoint>, dir: Direction)
    ensures LastMatching(eps, dir).Some? ==>
      LastMatching(eps, dir).value in eps && Selects(LastMatching(eps, dir).value, dir)
  {
    if eps != [] && !Selects(eps[|eps| - 1], dir) {
      LastMatchingSelects(eps[..|eps| - 1], dir);
    }
  }

  /** Two interrupt IN endpoints: the scan keeps the second, not the first. */
  lemma ScanKeepsLast(a: Endpoint, b: Endpoint)
    requires Selects(a, In) && Selects(b, In) && a != b
    ensures LastMatching([a, b], In) == Some(b) != Some(a)
  {
  }

  /** `n` zero bytes: a freshly allocated ByteArray(n). */
  function Zeros(n: nat): (r: seq<Byte>)
    ensures |r| == n && forall i :: 0 <= i < n ==> r[i] == 0
  {
    seq(n, _ => 0)
  }

  /** The read buffer of `size` bytes after the platform has placed the `report` it received
      at its start; the platform cannot write past the buffer's end. */
  function Delivered(size: nat, report: seq<Byte>): (r: seq<Byte>)
    ensures |r| == size
    ensures forall i :: 0 <= i < size ==> r[i] == if i < |report| then report[i] else 0
  {
    seq(size, i requires 0 <= i < size => if i < |report| then report[i] else 0)
  }

  /** Kotlin's ByteArray.copyOf(n): the first n bytes, padded with zeros when n exceeds the size. */
  function CopyOf(buffer: seq<Byte>, n: nat): (r: seq<Byte>)
    ensures |r| == n
    ensures forall i :: 0 <= i < n ==> r[i] == if i < |buffer| then buffer[i] else 0
  {
    if n <= |buffer| then buffer[..n] else buffer + Zeros(n - |buffer|)
  }

  /** How HidDevice.read turns the transfer count into a result: a count of zero or less (-1 on
      timeout) is an empty success, never an error; otherwise exactly `bytesRead` bytes come back,
      read from the start of the buffer. */
  function ReadResult(buffer: seq<Byte>, bytesRead: int): (r: HidResult<seq<Byte>>)
    ensures r.Success?
    ensures bytesRead <= 0 ==> r.data == []
    ensures bytesRead > 0 ==> |r.data| == bytesRead
    ensures forall i :: 0 <= i < |r.data| && i < |buffer| ==> r.data[i] == buffer[i]
    ensures forall i :: |buffer| <= i < |r.data| ==> r.data[i] == 0
  {
    if bytesRead <= 0 then Success([]) else Success(CopyOf(buffer, bytesRead))
  }

  /** When the platform keeps its promise not to report more bytes than were asked for, a read
      returns no more than one packet and it is exactly a prefix of the received report. */
  lemma ReadWithinPacket(max: nat, report: seq<Byte>, bytesRead: int)
    requires bytesRead <= max
    ensures |ReadResult(Delivered(max, report), bytesRead).data| <= max
    ensures 0 < bytesRead <= |report| ==> ReadResult(Delivered(max, report), bytesRead).data == report[..bytesRead]
  {
    var r := ReadResult(Delivered(max, report), bytesRead).data;
    if 0 < bytesRead <= |report| {
      assert forall i :: 0 <= i < bytesRead ==> r[i] == report[i];
    }
  }

  /** How HidDevice.write turns the transfer count into a result: success exactly when at least
      one byte was written. */
  function WriteResult(bytesWritten: int): (r: HidResult<()>)
    ensures r.Success? <==> bytesWritten > 0
    ensures r.Error? ==> r.message == WriteFailed
  {
    if bytesWritten > 0 then Success(()) else Error(WriteFailed)
  }

  /** What initialize returns: getInterface(0) throws when the device has no interface; otherwise
      the outcome is decided by claiming the interface alone, whatever endpoints were found. */
  function InitResult(device: UsbDevice, setup: InterfaceSetup): (r: HidResult<()>)
    ensures r.Success? <==> device.interfaces != [] && setup == Claimed
  {
    if device.interfaces == [] then Error(InitErrorPrefix)
    else match setup
      case Claimed => Success(())
      case ClaimRefused => Error("Failed to claim interface")
      case SetupThrew => Error(InitErrorPrefix)
  }

  class HidDevice {
    const usbDevice: UsbDevice
    var usbInEndpoint: Option<Endpoint>
    var usbOutEndpoint: Option<Endpoint>
    var usbInterface: Option<UsbInterface>

    constructor (usbDevice: UsbDevice)
      ensures this.usbDevice == usbDevice
      ensures usbInEndpoint == None && usbOutEndpoint == None && usbInterface == None
    {
      this.usbDevice := usbDevice;
      usbInEndpoint, usbOutEndpoint, usbInterface := None, None, None;
    }

    /** Takes interface 0, scans its endpoints (each match overwrites the one before), then
        claims the interface. */
    method Initialize(setup: InterfaceSetup) returns (r: HidResult<()>)
      modifies this
      ensures r == InitResult(usbDevice, setup)
      ensures usbDevice.interfaces == [] ==>
        usbInterface == old(usbInterface) && usbInEndpoint == old(usbInEndpoint) && usbOutEndpoint == old(usbOutEndpoint)
      ensures usbDevice.interfaces != [] ==>
        var eps := usbDevice.interfaces[0].endpoints;
        && usbInterface == Some(usbDevice.interfaces[0])
        && usbInEndpoint == (if LastMatching(eps, In).Some? then LastMatching(eps, In) else old(usbInEndpoint))
        && usbOutEndpoint == (if LastMatching(eps, Out).Some? then LastMatching(eps, Out) else old(usbOutEndpoint))
    {
      if usbDevice.interfaces == [] {
        return Error(InitErrorPrefix);
      }
      var intf := usbDevice.interfaces[0];
      usbInterface := Some(intf);
      var eps := intf.endpoints;
      for i := 0 to |eps|
        invariant usbInterface == Some(intf)
        invariant usbInEndpoint == (if LastMatching(eps[..i], In).Some? then LastMatching(eps[..i], In) else old(usbInEndpoint))
        invariant usbOutEndpoint == (if LastMatching(eps[..i], Out).Some? then LastMatching(eps[..i], Out) else old(usbOutEndpoint))
      {
        assert eps[..i + 1][..i] == eps[..i];
        var endpoint := eps[i];
        if endpoint.direction == In && endpoint.kind == Interrupt {
          usbInEndpoint := Some(endpoint);
        }
        if endpoint.direction == Out && endpoint.kind == Interrupt {
          usbOutEndpoint := Some(endpoint);
        }
      }
      assert eps[..|eps|] == eps;
      match setup {
        case Claimed => r := Success(());
        case ClaimRefused => r := Error("Failed to claim interface");
        case SetupThrew => r := Error(InitErrorPrefix);
      }
    }

    /** One interrupt read of up to maxPacketSize bytes. `bytesRead` is what bulkTransfer
        returns and `report` the bytes it placed in the buffer. */
    method Read(timeout: int, bytesRead: int, report: seq<Byte>) returns (r: HidResult<seq<Byte>>, issued: Option<Transfer>)
      ensures usbInEndpoint.None? ==> r == Error(NoInEndpoint) && issued == None
      ensures usbInEndpoint.Some? ==>
        var max := usbInEndpoint.value.maxPacketSize;
        && issued == Some(Transfer(usbInEndpoint.value, Zeros(max), max, timeout))
        && r == ReadResult(Delivered(max, report), bytesRead)
    {
      if usbInEndpoint.None? {
        return Error(NoInEndpoint), None;
      }
      var endpoint := usbInEndpoint.value;
      var buffer := Zeros(endpoint.maxPacketSize);
      issued := Some(Transfer(endpoint, buffer, |buffer|, timeout));
      buffer := Delivered(|buffer|, report);
      if bytesRead <= 0 {
        r := Success([]);
      } else {
        r := Success(CopyOf(buffer, bytesRead));
      }
    }

    /** Writes all of `data` to the OUT endpoint with the fixed timeout; `bytesWritten` is what
        bulkTransfer returns. */
    method Write(data: seq<Byte>, bytesWritten: int) returns (r: HidResult<()>, issued: Option<Transfer>)
      ensures usbOutEndpoint.None? ==> r == Error(NoOutEndpoint) && issued == None
      ensures usbOutEndpoint.Some? ==>
        issued == Some(Transfer(usbOutEndpoint.value, data, |data|, WriteTimeout)) && r == WriteResult(bytesWritten)
    {
      if usbOutEndpoint.None? {
        return Error(NoOutEndpoint), None;
      }
      issued := Some(Transfer(usbOutEndpoint.value, data, |data|, WriteTimeout));
      r := if bytesWritten > 0 then Success(()) else Error(WriteFailed);
    }

    /** Releases the interface and closes the connection; `threw` says whether either platform
        call threw. */
    method CloseConnection(threw: bool) returns (r: HidResult<()>)
      ensures r.Success? <==> usbInterface.Some? && !threw
      ensures usbInterface.None? ==> r == Error(NoInterface)
      ensures usbInterface.Some? && threw ==> r == Error(CloseErrorPrefix)
    {
      if usbInterface.None? {
        return Error(NoInterface);
      }
      if threw {
        return Error(CloseErrorPrefix);
      }
      r := Success(());
    }
  }
}
