# HID plugin for Android: device connection state machine

A Dafny model of the Android side of a Tauri plugin that gives an application access to USB
HID devices (`android/src/main/java/HidPlugin.kt`). The plugin keeps a table of open devices
(`connectedDevices`, keyed by path) and a single pending-permission record (path, device and the
suspended invoke). It answers five commands: `enumerate`, `open`, `close`, `read` and `write`. It
also reacts to two platform broadcasts, the permission decision and a device detach. A `HidDevice`
holds one opened device. Its `initialize` scans interface 0 for an IN and an OUT interrupt
endpoint and then claims the interface. Its `read`, `write` and `closeConnection` turn the
platform's return values into a `HidResult`.

Files:

- `usb.dfy` (module `Usb`): the platform as values. It has devices, interfaces, endpoints,
  signed bytes, the device list with its permission set, the transfers the plugin issues, and the
  device-list lookup.
- `hid_device.dfy` (module `Device`): the endpoint scan, specified by `LastMatching`; how
  transfer counts map to results; the class `HidDevice`.
- `hid_plugin.dfy` (module `Plugin`): the invoke handle, the enumerate filter `Visible`, and the
  class `HidPlugin` with its table, its pending slot, both receivers and the commands.
- `scenarios.dfy` (module `Scenarios`): client runs proved from the commands' contracts alone.

The platform is an input. Each command receives the device list (the values of
`UsbManager.getDeviceList()` in iteration order) and the set of device names that have
permission. Each foreign call becomes a parameter carrying its result:

- `openDevice`: whether it returned a connection;
- `claimInterface`/`setInterface`: claimed, refused, or threw;
- `bulkTransfer`: the count it returns and the bytes it places in the read buffer;
- `releaseInterface`/`close`: whether either threw.

The transfers the plugin issues are returned as `Transfer` values (endpoint, buffer, length and
timeout). This lets the contracts say which transfer happens, and when none does. An invoke is an
object whose state is `Pending`, `Resolved(payload)` or `Rejected(message, code)`.

The model follows the code as written, including these behaviours that an idealised design would
handle differently:

- The endpoint scan keeps the *last* matching endpoint, not the first (`Device.ScanKeepsLast`).
- Missing endpoints do not fail `initialize`. A later `read` or `write` fails instead.
- A second `open` of an unauthorised device overwrites the pending slot. It does not fail fast.
  The earlier invoke is then never answered (`Scenarios.OverwrittenOpen`).
- A permission broadcast for another device rejects the pending invoke instead of being ignored.
- A failed `closeConnection` in `close` keeps the table entry.
- A detach does not touch the pending slot.
- No operation checks whether a path is already open before a late grant arrives. Such a grant
  connects the device again, and the open `HidDevice` is replaced in the table without being
  closed (`Scenarios.LateGrant`).
- On an initialisation failure `createAndConnectDevice` calls `invoke.reject(TAG, msg)`. The
  rejection message is therefore `"HidPlugin"`, and the failure text is the error code.

## Model

| member | source | states |
|---|---|---|
| `Usb.Lookup` | android/src/main/java/HidPlugin.kt:338-342 | the device-list entry for a path exists exactly when some listed device has that name, and it is a listed device of that name |
| `Device.LastMatchingIsLast` | android/src/main/java/HidPlugin.kt:59-75 | the scan finds nothing iff no endpoint is an interrupt endpoint of that direction; otherwise it finds a matching endpoint with no matching endpoint after it |
| `Device.LastMatchingSelects` | android/src/main/java/HidPlugin.kt:67-74 | only an interrupt endpoint of the requested direction, taken from the interface's list, is ever selected |
| `Device.ScanKeepsLast` | android/src/main/java/HidPlugin.kt:67-70 | with two interrupt IN endpoints, the second one is kept and the first is not |
| `Device.InitResult` | android/src/main/java/HidPlugin.kt:77-86 | initialize succeeds iff the device has an interface and claiming it succeeds; the endpoints found play no part |
| `Device.HidDevice.Initialize` | android/src/main/java/HidPlugin.kt:45-88 | sets the interface to interface 0 and each endpoint field to the last matching endpoint (unchanged if none); the result is `InitResult` |
| `Device.ReadResult` | android/src/main/java/HidPlugin.kt:101-105 | always a success; a count of zero or less gives no bytes; otherwise exactly `bytesRead` bytes taken from the start of the buffer (zero-padded past it, as `copyOf` does) |
| `Device.ReadWithinPacket` | android/src/main/java/HidPlugin.kt:98-105 | if the platform reports no more than the requested length, the result is at most one packet long and is exactly the first `bytesRead` bytes received |
| `Device.WriteResult` | android/src/main/java/HidPlugin.kt:116-121 | a write succeeds iff more than zero bytes were written; a failure carries "Failed to write data" |
| `Device.HidDevice.Read` | android/src/main/java/HidPlugin.kt:91-106 | no IN endpoint gives an error and no transfer; otherwise one transfer of `maxPacketSize` bytes on the IN endpoint with the caller's timeout, whose count maps to the result by `ReadResult` |
| `Device.HidDevice.Write` | android/src/main/java/HidPlugin.kt:109-122 | no OUT endpoint gives an error and no transfer; otherwise one transfer of all of `data` on the OUT endpoint with the fixed 1000 ms timeout, whose count maps to the result by `WriteResult` |
| `Device.HidDevice.CloseConnection` | android/src/main/java/HidPlugin.kt:125-141 | closing succeeds iff the interface was taken and neither release nor close threw |
| `Plugin.VisibleExactly` | android/src/main/java/HidPlugin.kt:310-323 | enumerate lists an entry exactly for each device of the list whose name is not open, built from that device |
| `Plugin.VisibleHidesOpen` | android/src/main/java/HidPlugin.kt:311-314 | no listed entry has the path of an open device, and every entry has release number 0 |
| `Plugin.HidPlugin.VisibleDevices` | android/src/main/java/HidPlugin.kt:310-323 | the enumerate loop produces `Visible` of the device list and the open paths |
| `Plugin.HidPlugin.Enumerate` | android/src/main/java/HidPlugin.kt:304-327 | enumerate always resolves, with the visible devices |
| `Plugin.HidPlugin.constructor` | android/src/main/java/HidPlugin.kt:174-181 | a new plugin has no open device and no pending request |
| `Plugin.HidPlugin.CreateAndConnectDevice` | android/src/main/java/HidPlugin.kt:260-285 | no connection rejects; a failed initialize rejects with the plugin tag and the failure as code; in both cases the table is unchanged; otherwise a fresh device with the scanned endpoints is recorded under the path and the invoke resolves |
| `Plugin.HidPlugin.OnPermissionResult` | android/src/main/java/HidPlugin.kt:213-231 | a granted decision for the pending device connects it as `CreateAndConnectDevice` does; any other decision rejects the pending invoke, if any, and leaves the table unchanged; the pending slot is empty afterwards in every case |
| `Plugin.HidPlugin.OnDetach` | android/src/main/java/HidPlugin.kt:190-200 | a detached device's name is removed from the table, whatever closing returns; the device closed is reported; an absent name leaves the table unchanged; the pending slot is untouched |
| `Plugin.HidPlugin.Cleanup` | android/src/main/java/HidPlugin.kt:290-301 | every open device is closed exactly once and the table ends empty; the pending slot is untouched |
| `Plugin.HidPlugin.Open` | android/src/main/java/HidPlugin.kt:330-372 | no path or an unlisted path rejects and changes nothing; an already-open path resolves without touching table or slot or asking permission; a permitted device is connected; otherwise the slot is overwritten with this request, permission is asked once, and the invoke stays pending |
| `Plugin.HidPlugin.Close` | android/src/main/java/HidPlugin.kt:375-403 | no path, or a path not open, rejects with the table unchanged; a failed close rejects and keeps the entry; a successful close removes the entry and resolves |
| `Plugin.HidPlugin.Read` | android/src/main/java/HidPlugin.kt:406-433 | a path not open rejects with "Device not open" and no transfer; otherwise the device's read result is resolved as data, or its error rejected with the read prefix |
| `Plugin.HidPlugin.Write` | android/src/main/java/HidPlugin.kt:436-461 | a missing path or data rejects; a path not open rejects with "Device not open" and no transfer; otherwise it resolves iff more than zero bytes were written |
| `Scenarios.Lifecycle` | android/src/main/java/HidPlugin.kt:304-433 | enumerate, an open that asks for permission, a grant, a write, a read returning the report, and a close; a read after the close finds the device not open |
| `Scenarios.OverwrittenOpen` | android/src/main/java/HidPlugin.kt:358-362 | after two unauthorised opens, a grant for the first device rejects the second open and leaves the first pending for good |
| `Scenarios.LateGrant` | android/src/main/java/HidPlugin.kt:221-222 | a grant arriving after the same device was opened directly records a second device under the path; the first one leaves the table unclosed |
| `Scenarios.DetachWhileOpen` | android/src/main/java/HidPlugin.kt:191-199 | after a detach (repeated) of an open device the table is empty and a write is rejected with "Device not open" |

## Left out

- Android plumbing is not modelled: receiver registration and unregistration, intent filtering
  on the action, `PendingIntent` construction and its SDK-version branches, and logging
  (including the log call in `HidResult.Error`'s initializer).
- Argument parsing is not modelled. Each argument is an `Option`, and `None` stands for a null
  field. A missing `timeout` defaults to 0 in the source; here the timeout is an input.
- Concurrency is not modelled. The `synchronized` blocks are dropped: each command and each
  receiver callback is one atomic step.
- Actual USB I/O is not modelled. The foreign calls (`openDevice`, `claimInterface`,
  `setInterface`, `bulkTransfer`, `releaseInterface`, `close`, `requestPermission`) are
  represented by their results, passed in as parameters, or by the `Transfer` and device they
  are given, returned as outputs.
- The text of a caught exception (`e.message`) is not modelled. Such errors carry only their
  fixed prefix ("Error initializing device: ", "Error closing device: ").
- `Plugin.HidPlugin.Cleanup`: closing outcomes are discarded by the source, so the model takes
  no input for them.
- Three dead branches are not modelled, because the source's types rule them out:
  - `deviceConnection == null` in `closeConnection`, since the field is non-nullable;
  - the "Device not found" branch of `open`, since a device list holds no null values;
  - the `else -> "Unknown error"` arms, since `HidResult` is sealed.
- The device list is modelled as its sequence of values. A lookup by path finds the device of
  that name, because Android keys this list by device name.
- `Plugin.HidPlugin.Cleanup` does not model the iteration order of `HashMap.values`. It states
  only that each open device is closed once.
