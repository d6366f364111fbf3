/** The part of the Android USB host API that the HID plugin relies on, as plain values.
    Every call into the platform whose outcome the plugin only observes (opening a device,
    claiming an interface, a bulk transfer, closing) is not modelled here: its result is an
    input of the operation that makes the call. */
module Usb {

  datatype Option<+T> = None | Some(value: T)

  /** Outcome of an operation of HidDevice: the Kotlin sealed class HidResult. */
  datatype HidResult<+T> = Success(data: T) | Error(message: string)

  /** A Kotlin `Byte`, which is signed. */
  newtype Byte = x: int | -128 <= x < 128

  /** A 16-bit USB identifier (vendor or product id). */
  type U16 = x: int | 0 <= x < 0x1_0000

  /** UsbConstants.USB_DIR_IN / USB_DIR_OUT. */
  datatype Direction = In | Out

  /** UsbConstants.USB_ENDPOINT_XFER_CONTROL / _ISOC / _BULK / _INT. */
  datatype TransferType = Control | Isochronous | Bulk | Interrupt

  datatype Endpoint = Endpoint(number: nat, direction: Direction, kind: TransferType, maxPacketSize: nat)

  datatype UsbInterface = UsbInterface(id: nat, endpoints: seq<Endpoint>)

  /** A UsbDevice handle as the platform's device list hands it out. */
  datatype UsbDevice = UsbDevice(
    deviceName: string,
    vendorId: U16,
    productId: U16,
    manufacturerName: Option<string>,
    productName: Option<string>,
    interfaces: seq<UsbInterface>)

  /** What UsbManager knows at the moment a command runs: its device list, given as the
      values of UsbManager.getDeviceList() in iteration order, and the names of the devices
      the user has granted access to (UsbManager.hasPermission). */
  datatype Platform = Platform(devices: seq<UsbDevice>, permitted: set<string>)

  /** A bulkTransfer call as the plugin issues it: endpoint, buffer, length and timeout. */
  datatype Transfer = Transfer(endpoint: Endpoint, buffer: seq<Byte>, length: int, timeout: int)

  /** How claiming interface 0 goes: claimInterface succeeds, claimInterface returns false,
      or claimInterface/setInterface throws. */
  datatype InterfaceSetup = Claimed | ClaimRefused | SetupThrew

  /** UsbManager.getDeviceList()[path]: the device list is keyed by deviceName, so the entry
      for `path` is the device of that name. */
  function Lookup(devices: seq<UsbDevice>, path: string): (r: Option<UsbDevice>)
    ensures r.Some? <==> exists i :: 0 <= i < |devices| && devices[i].deviceName == path
    ensures r.Some? ==> r.value.deviceName == path && r.value in devices
  {
    if devices == [] then None
    else if devices[0].deviceName == path then Some(devices[0])
    else Lookup(devices[1..], path)
  }
}
