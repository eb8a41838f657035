# BematechDrv: a verified model of the Bematech USB printer driver

This project models `BematechDrv`, the class that drives a Bematech receipt
printer through libusb-0.1 (`usbdriver.h`, `usbdriver.cpp`), and proves what
its member functions do.

libusb is modelled as an oracle, a value of type `Usb.UsbState`. It holds:

- the bus topology, a tree of descriptors, and a script of the trees later
  enumerations find: each `usb_find_devices` (called by every `open`) takes
  the next tree, so a printer can vanish, come back at another position or
  be plugged in between two opens; once that script is used up the tree stays
  as it was;
- one script of answers for each kind of call whose result the driver
  inspects (`usb_open`, `usb_set_configuration`, `usb_claim_interface`,
  `usb_set_altinterface`, `usb_bulk_write`, `usb_bulk_read`,
  `usb_control_msg`);
- `errno`;
- the trace of every call the driver has issued.

Each library call takes the next answer of its script and appends itself to
the trace. Apart from the enumeration, a call made after its script is used
up fails: a write or a control request times out, a read reports an error,
`usb_open` gives NULL, a claim fails with a non-busy errno.

The modules:

- `Usb` holds the descriptors, the calls and the oracle.
- `Scanner` is the descriptor search of `open`. `Select` is a recursive
  first-match search, and `Scan` is the nested loop the driver runs; `Scan`
  is proved to compute `Select`. `SelectFindsFirst` characterises the
  result: it is the first qualifying alternate setting in bus, device,
  configuration, interface and alternate-setting order, or nothing when none
  qualifies.
- `Transport` is the chunked write of `sendCommand`, `readData` and
  `sendControlMessage`. `Chunked` describes the writes `sendCommand` issues
  for a script of answers, and the lemmas state their sizes, their order,
  the bytes taken, and the result.
- `Lifecycle` describes each member function as a function on the
  driver's five fields (`Session`) and the library. Its lemmas state the
  session properties: handshake and teardown order, what `open` stores,
  the busy retries, and the query results.
- `Driver` is the class `BematechDrv`. Its fields are those of usbdriver.h,
  plus the library state. Each method follows its source statement by
  statement, and its `ensures` says the result, the new fields and the new
  library state are what the matching `Lifecycle` or `Transport` function
  gives.

Quirks of the source are kept as written:

- `open` stores the interface ordinal, not its `bInterfaceNumber`, as the
  interface id.
- A failure after `usb_open` keeps the handle, so the next `open` reports
  success at once.
- `close` never resets the interface id.
- When the chosen alternate setting has no bulk-IN endpoint, `open` reads
  `endpoint[-1]`. The model stores `Indeterminate` as the read endpoint.
- The scanner saves its match inside the endpoint loop, so the saved
  endpoint indices are those after the last endpoint. The model states this
  as the last bulk-OUT and the last bulk-IN endpoint.

## Model

| member | source | states |
|---|---|---|
| Scanner.SearchAlts | usbdriver.cpp:106-143 | definition, no contract: the first alternate setting from an ordinal on with the class and a bulk-OUT endpoint; characterised by `Scanner.SearchAltsFindsFirst` |
| Scanner.SearchIfaces | usbdriver.cpp:103-145 | definition, no contract: the first interface from an ordinal on with an accepted alternate setting; characterised by `Scanner.SearchIfacesFindsFirst` |
| Scanner.SearchConfigs | usbdriver.cpp:100-147 | definition, no contract: the same over configurations; characterised by `Scanner.SearchConfigsFindsFirst` |
| Scanner.SearchDevices | usbdriver.cpp:95-149 | definition, no contract: the same over devices, skipping those whose vendor or product differ; characterised by `Scanner.SearchDevicesFindsFirst` |
| Scanner.SearchBusses | usbdriver.cpp:94-151 | definition, no contract: the same over busses; characterised by `Scanner.SearchBussesFindsFirst` |
| Scanner.Select | usbdriver.cpp:94-151 | definition, no contract: the search over the whole tree; characterised by `Scanner.SelectFindsFirst` and `Scanner.SelectEndpointKinds` |
| Scanner.LastBulk | usbdriver.cpp:113-126 | the index is the last bulk endpoint of the direction among the first n, or -1 when there is none |
| Scanner.ScanEndpoints | usbdriver.cpp:113-127 | the endpoint loop yields the last bulk-IN and the last bulk-OUT endpoint index, -1 for none |
| Scanner.ScanDevice | usbdriver.cpp:100-147 | the configuration, interface and alternate-setting loops with their breaks compute the recursive search over the device's configurations |
| Scanner.Scan | usbdriver.cpp:68-151 | the bus and device loops, with vendor and product filter and breaks, compute `Select` |
| Scanner.SearchAltsFindsFirst | usbdriver.cpp:106-143 | nothing is found exactly when no later alternate setting has the class and a bulk-OUT endpoint; otherwise the first such one is picked |
| Scanner.SearchIfacesFindsFirst | usbdriver.cpp:103-145 | nothing is found exactly when no later interface has an accepted alternate setting; otherwise the search stops at the first one |
| Scanner.SearchConfigsFindsFirst | usbdriver.cpp:100-147 | the same, one level up, over configurations |
| Scanner.SearchDevicesFindsFirst | usbdriver.cpp:95-149 | the same over devices; only a device with vendor 0x0B1B and the product id can be chosen |
| Scanner.SearchBussesFindsFirst | usbdriver.cpp:94-151 | the same over busses |
| Scanner.SelectFindsFirst | usbdriver.cpp:94-151 | not found exactly when no path qualifies; otherwise the path qualifies, comes first in scan order, and records the last bulk-OUT and last bulk-IN endpoints |
| Scanner.SelectEndpointKinds | usbdriver.cpp:90-135 | the chosen alternate setting has class 255 for product 1 and the data class otherwise; the write endpoint is bulk OUT; a read endpoint is bulk IN; it is -1 exactly when there is no bulk-IN endpoint |
| Transport.Chunked | usbdriver.cpp:291-303 | definition, no contract: the writes of the loop for a script of answers and whether it ends without error; characterised by the `Transport.Chunked*` lemmas |
| Transport.SendCommandStep | usbdriver.cpp:286-311 | definition, no contract: the result of `sendCommand` and the library after it, the writes of `Chunked` added to the trace |
| Transport.ChunkedShape | usbdriver.cpp:291-303 | every write has 1 to 1024 bytes; empty data gives no write and success; at most one write more than there are answers |
| Transport.ChunkedResult | usbdriver.cpp:288-310 | success exactly when no write was answered negatively; every write but the last was answered non-negatively, so nothing follows a failure |
| Transport.ChunkedInOrder | usbdriver.cpp:291-303 | for a device that never reports more than 1024 bytes taken, the bytes it took, concatenated in order, are a prefix of the data, and all of it on success |
| Transport.ChunkedPositions | usbdriver.cpp:291-303 | for a device that never reports more than 1024 bytes taken, each write starts at the offset given by the bytes taken before it |
| Transport.ChunkedWhole | usbdriver.cpp:291-303 | when every write is taken whole, the data goes out in ceil(n/1024) writes of consecutive 1024-byte slices, and the call succeeds |
| Transport.TwoThousandBytes | usbdriver.cpp:291-303 | 2000 bytes go out as 1024 bytes, then 976 |
| Transport.ZeroAnswerRepeats | usbdriver.cpp:300-302 | an answer of 0 takes nothing, and the same bytes are written again |
| Transport.ShortCommand | usbdriver.cpp:291-303 | a command of at most 1024 bytes goes out whole first; a negative answer ends in failure, and an answer covering it ends in success |
| Transport.ReadDataStep | usbdriver.cpp:416-427 | at most 1024 bytes; empty on a read error; the device's bytes otherwise; exactly one read is issued |
| Transport.ControlMessageStep | usbdriver.cpp:380-398 | -1 exactly when the library answers negatively, 0 otherwise; one vendor request to the device whose index is the interface id |
| Lifecycle.PreCommandStep | usbdriver.cpp:259-274 | definition, no contract: set-mode, then the reset only if set-mode succeeded |
| Lifecycle.PostCommandStep | usbdriver.cpp:276-284 | definition, no contract: the restore-mode command |
| Lifecycle.PreCommandOrder | usbdriver.cpp:259-274 | success exactly when the set-mode writes and then the reset writes succeed; a failed set-mode, after any answers, ends in false with no reset write; the reset run starts with the whole reset command; set-mode is written first; two writes taken whole complete it |
| Lifecycle.PreCommandResult | usbdriver.cpp:259-274 | success exactly when no write of set-mode and no write of the reset that follows was answered negatively |
| Lifecycle.InitializeStep | usbdriver.cpp:238-257 | definition, no contract: `initialize` branch by branch as written |
| Lifecycle.HandshakeOrder | usbdriver.cpp:242-254 | control requests are sent in order up to and including the first failure; the handshake passes exactly when none fails |
| Lifecycle.InitializeIsHandshake | usbdriver.cpp:238-257 | `initialize` runs its product's requests, (0x00,0xFFFF),(0x01,0x0007) for 1, (0x22,0x0003) for 3, none otherwise, then the pre-command only if they passed |
| Lifecycle.InitializeOrder | usbdriver.cpp:238-257 | a failed request returns false with nothing sent after it; when all pass the result is the pre-command's |
| Lifecycle.CloseStep | usbdriver.cpp:198-228 | definition, no contract: `close` as written; characterised by `Lifecycle.CloseSkips` and `Lifecycle.CloseTearsDown` |
| Lifecycle.CloseSkips | usbdriver.cpp:198-204 | `close` changes nothing without an interface id or without a handle |
| Lifecycle.CloseTearsDown | usbdriver.cpp:206-227 | restore mode, then reset for product 3, then clear halt on read, write and 0x83, release, close, whatever the writes answered; only the handle is cleared |
| Lifecycle.CloseTwice | usbdriver.cpp:198-227 | a second `close` changes nothing |
| Lifecycle.ResetStep | usbdriver.cpp:230-236 | definition, no contract: close, the wait for product 3, open |
| Lifecycle.ResetReopens | usbdriver.cpp:230-236 | `reset` of an open session closes it, waits 7 seconds only for product 3, then runs `open` on the closed session, which scans afresh |
| Lifecycle.ResetWithoutInterface | usbdriver.cpp:230-236 | with a handle but no interface id, `close` does nothing and `reset` reports success without a call, apart from the wait for product 3 |
| Lifecycle.RetryWhileBusy | usbdriver.cpp:172-186 | definition, no contract: one busy-retry loop; characterised by `Lifecycle.RetryOutcome` |
| Lifecycle.AcquireInterface | usbdriver.cpp:172-186 | definition, no contract: the claim loop, then the alternate-setting loop if the claim succeeded |
| Lifecycle.RetryOutcome | usbdriver.cpp:172-186 | one call per leading EBUSY answer and one more; success exactly when the answer after the busy ones is 0; the script is used up that far |
| Lifecycle.AcquireOutcome | usbdriver.cpp:172-186 | claims bInterfaceNumber once per leading EBUSY answer and once more; only after a successful claim sets bAlternateSetting the same way; success exactly when the answers after the busy ones are both 0 |
| Lifecycle.Discover | usbdriver.cpp:64-66 | definition, no contract: init, find busses, and find devices, which enumerates the tree afresh |
| Lifecycle.OpenStep | usbdriver.cpp:59-196 | definition, no contract: `open` as written; characterised by the `Lifecycle.Open*` lemmas |
| Lifecycle.OpenSelected | usbdriver.cpp:161-192 | definition, no contract: open, configure and set up the chosen alternate setting, store the fields, initialize |
| Lifecycle.OpenWhenOpen | usbdriver.cpp:59-62 | `open` with a handle returns true and changes nothing |
| Lifecycle.OpenScans | usbdriver.cpp:64-66 | `open` without a handle starts with init, find busses and find devices, and keeps the product id |
| Lifecycle.OpenFound | usbdriver.cpp:94-192 | the discovery finds the enumerated tree; nothing found gives false; otherwise `open` goes on with the scan's choice, whose write endpoint is bulk OUT |
| Lifecycle.OpenSelectedShape | usbdriver.cpp:161-192 | the handle is what `usb_open` gave, kept whatever fails later; success means open, set configuration, the claims and the alternate-setting calls after their busy answers, in that order, both answered 0, and the interface ordinal and endpoint addresses stored |
| Lifecycle.OpenNotFound | usbdriver.cpp:153-195 | when no path of the enumerated tree qualifies, `open` returns false after the discovery calls and changes no field |
| Lifecycle.OpenSucceeds | usbdriver.cpp:153-192 | a successful `open` used the first qualifying alternate setting of the enumerated tree; it stores the handle, the interface ordinal, the bulk-OUT address and the bulk-IN address or `Indeterminate`; it issued open, set configuration, the claims and then the alternate-setting calls, the answers after the busy ones being 0 |
| Lifecycle.OpenKeepsHandle | usbdriver.cpp:59-186 | once `usb_open` gave a handle the session keeps it, so after a failed `open` the next one returns true at once |
| Lifecycle.Ask | usbdriver.cpp:329-335 | definition, no contract: one query block, the reply when the write succeeded and the read was not empty |
| Lifecycle.AskOutcome | usbdriver.cpp:329-335 | one query writes its command whole first; a failed write issues no read; otherwise one read follows; a reply is given exactly when it is not empty |
| Lifecycle.CommandSetStep | usbdriver.cpp:314-323 | definition, no contract: `getCommandSet` as written |
| Lifecycle.CommandSetSentinel | usbdriver.cpp:314-323 | -1 when the write fails (and no read is issued) or the reply is empty; otherwise `toInt` of the reply |
| Lifecycle.AskAll | usbdriver.cpp:325-378 | definition, no contract: the queries in order, each non-empty reply recorded under its key |
| Lifecycle.ProductInfoStep | usbdriver.cpp:325-378 | definition, no contract: the six queries from an empty map |
| Lifecycle.ProductInfoOrder | usbdriver.cpp:325-378 | all six queries are issued in order, whatever each answered, each starting with its command written whole |
| Lifecycle.ProductInfoCollects | usbdriver.cpp:325-378 | a key is present exactly when its query gave a non-empty reply, and it maps to that reply; no other key appears |
| Lifecycle.AskAllCollects | usbdriver.cpp:325-378 | from an empty map, queries with distinct keys record exactly the non-empty replies |
| Driver.BematechDrv.constructor | usbdriver.cpp:42-51 | no handle, interface id -1, write endpoint 0x01, read endpoint 0x82, the given product id; the library is initialised |
| Driver.BematechDrv.Destroy | usbdriver.cpp:53-57 | closes when there is a handle, otherwise changes nothing |
| Driver.BematechDrv.SetProductId | usbdriver.h:38 | sets the product id and changes no other field |
| Driver.BematechDrv.ProductId | usbdriver.h:39 | returns the product id and changes nothing |
| Driver.BematechDrv.SendCommand | usbdriver.cpp:286-311 | the write loop issues exactly the writes `Chunked` describes and returns its success |
| Driver.BematechDrv.ReadData | usbdriver.cpp:416-427 | returns and records what `ReadDataStep` says |
| Driver.BematechDrv.SendControlMessage | usbdriver.cpp:380-398 | returns and records what `ControlMessageStep` says, with the interface id as index |
| Driver.BematechDrv.SendPreCommand | usbdriver.cpp:259-274 | ends as `PreCommandStep` says |
| Driver.BematechDrv.SendPostCommand | usbdriver.cpp:276-284 | writes the restore-mode command and returns its success |
| Driver.BematechDrv.Initialize | usbdriver.cpp:238-257 | ends as `InitializeStep` says |
| Driver.BematechDrv.SetUpInterface | usbdriver.cpp:172-186 | the two busy-retry loops end as `AcquireInterface` says |
| Driver.BematechDrv.Open | usbdriver.cpp:59-196 | result, fields and library end as `OpenStep` says |
| Driver.BematechDrv.OpenBest | usbdriver.cpp:161-192 | result, fields and library end as `OpenSelected` says |
| Driver.BematechDrv.Close | usbdriver.cpp:198-228 | fields and library end as `CloseStep` says |
| Driver.BematechDrv.Reset | usbdriver.cpp:230-236 | result, fields and library end as `ResetStep` says |
| Driver.BematechDrv.GetCommandSet | usbdriver.cpp:314-323 | ends as `CommandSetStep` says |
| Driver.BematechDrv.AskFor | usbdriver.cpp:329-335 | one `productInfo` block: the library after the query, and the reply recorded under the key when it is not empty |
| Driver.BematechDrv.ProductInfo | usbdriver.cpp:325-378 | the map and the library end as `ProductInfoStep` says |

## Left out

- main.cpp, the interactive menu around the driver, is not part of this model.
- `isOpen` (usbdriver.h:33) is declared but never defined, so it has no behaviour to model.
- `sendInterruptlMessage` (usbdriver.cpp:400-414) is not modelled: nothing calls it, and it only wraps `usb_interrupt_read`.
- Logging (`qDebug`, `qWarning`, `printf`, `usb_strerror`) is not modelled; it changes no state the driver reads.
- `sleep(7)` in `reset` and the Windows `sleep` macro (usbdriver.cpp:24-29, 234) are recorded as a `Sleep(7)` entry in the trace; the time itself is not modelled.
- The libusb primitives are oracle scripts with a call trace, not models of their behaviour. The driver only logs what `usb_clear_halt` returns and ignores what `usb_release_interface` and `usb_close` return, so these three are not scripted.
- `errno` is a field of the oracle, set only by the claim and alternate-setting calls, which are the only calls whose errno the driver reads.
- Driver.BematechDrv.SetUpInterface: on a device that answers EBUSY forever the source spins forever. Scripts are finite, so the model ends the spin in a failure when the script is used up; the endless spin is not modelled.
- Driver.BematechDrv.SendCommand: on a device that answers 0 forever the source loops forever. The model ends the loop in a timeout when the script is used up; the endless loop is not modelled (`Transport.ZeroAnswerRepeats` shows the repetition).
- `QByteArray::toInt` in `getCommandSet` is a function parameter `toInt`; its Qt semantics (0 for input that is not a number) are not modelled.
- Calls on a NULL handle follow the scripts like any other call; libusb's own checks of a NULL handle are not modelled.
- The static variable `initlialized` (usbdriver.cpp:40) is never read or written, and is not modelled.
- The `#else` branch of `sendCommand` (usbdriver.cpp:304-308) is disabled by `#if 1`, and is not modelled.
- The first-match scan is modelled on descriptor sequences; the library's linked lists of busses and devices and the pointer walks over descriptor arrays are sequences indexed by ordinal.
