/** Option, used for "found / not found" and "reply / no reply". */
module Wrappers {
  datatype Option<+T> = None | Some(value: T)
}

/**
 * The part of libusb-0.1 the printer driver talks to, modelled as an oracle.
 *
 * The bus topology is a read-only tree of descriptors. Every libusb call the
 * driver issues is a function on a `UsbState`: it takes the next answer from
 * the script kept for that kind of call and appends the call to `trace`.
 * A call issued after its script is used up fails, which is what a silent
 * device does: a transfer times out, `usb_open` gives NULL, a claim fails.
 * Calls whose return value the driver only logs (clear halt) or ignores
 * (release, close) have no script; they are only recorded. The bus tree is
 * enumerated afresh by each `usb_find_devices`: the next tree comes from a
 * script too, and once that script is used up the tree stays as it was.
 */
module Usb {
  import opened Wrappers

  type byte = x: int | 0 <= x < 256

  // Constants of libusb-0.1's usb.h and of Linux errno.h.
  const USB_CLASS_DATA: byte := 10
  const USB_ENDPOINT_TYPE_MASK: bv8 := 0x03
  const USB_ENDPOINT_TYPE_BULK: bv8 := 0x02
  const USB_ENDPOINT_DIR_MASK: bv8 := 0x80
  const USB_TYPE_VENDOR := 0x40
  const USB_RECIP_DEVICE := 0x00
  const USB_ENDPOINT_OUT := 0x00
  const EBUSY := 16
  const ENODEV := 19
  const ETIMEDOUT := 110

  // ---------------------------------------------------------------------
  // Descriptor tree: bus -> device -> configuration -> interface ->
  // alternate setting -> endpoint. Each descriptor count (bNumEndpoints,
  // num_altsetting, bNumInterfaces, bNumConfigurations) is the length of
  // the corresponding sequence.

  datatype EndpointDesc = EndpointDesc(address: byte, attributes: byte)

  datatype AltSettingDesc = AltSettingDesc(
    interfaceNumber: byte,
    alternateSetting: byte,
    interfaceClass: byte,
    interfaceProtocol: byte,
    endpoints: seq<EndpointDesc>)

  datatype InterfaceDesc = InterfaceDesc(altSettings: seq<AltSettingDesc>)

  datatype ConfigDesc = ConfigDesc(configurationValue: byte, interfaces: seq<InterfaceDesc>)

  datatype DeviceDesc = DeviceDesc(vendor: int, product: int, configs: seq<ConfigDesc>)

  datatype BusDesc = BusDesc(devices: seq<DeviceDesc>)

  /** The transfer type in bmAttributes is bulk. */
  predicate IsBulk(e: EndpointDesc) {
    (e.attributes as bv8) & USB_ENDPOINT_TYPE_MASK == USB_ENDPOINT_TYPE_BULK
  }

  /** The direction bit of bEndpointAddress is set: device to host. */
  predicate IsIn(e: EndpointDesc) {
    (e.address as bv8) & USB_ENDPOINT_DIR_MASK != 0
  }

  /**
   * An endpoint address as the driver holds it. `Indeterminate` is what
   * the driver reads when it indexes an endpoint array at -1.
   */
  datatype EpAddr = Ep(address: int) | Indeterminate

  // ---------------------------------------------------------------------
  // Calls issued to the library (and the one call to `sleep`).

  datatype Call =
    | Init
    | FindBusses
    | FindDevices
    | Open(bus: nat, device: nat)
    | SetConfiguration(handle: int, value: int)
    | ClaimInterface(handle: int, number: int)
    | SetAltInterface(handle: int, alternate: int)
    | BulkWrite(handle: int, endpoint: int, bytes: seq<byte>, timeout: int)
    | BulkRead(handle: int, readEndpoint: EpAddr, size: int, timeout: int)
    | ControlMsg(handle: int, requestType: int, request: int, value: int, index: int,
                 bytes: seq<byte>, timeout: int)
    | ClearHalt(handle: int, haltedEndpoint: EpAddr)
    | ReleaseInterface(handle: int, iface: int)
    | Close(handle: int)
    | Sleep(seconds: nat)

  /**
   * The library and bus as the driver sees them. `busses` is the tree the
   * last enumeration found and `enumerations` the trees later enumerations
   * will find (a printer unplugged, plugged in or moved). The other scripts
   * hold the answers still to come: a handle (0 is NULL) for `usb_open`, a return
   * code for `usb_set_configuration`, an errno (0 is success) for
   * `usb_claim_interface` and `usb_set_altinterface`, a return value for
   * `usb_bulk_write` and `usb_control_msg`, and for `usb_bulk_read` either
   * the bytes the device sends or `None` for an error.
   */
  datatype UsbState = UsbState(
    busses: seq<BusDesc>,
    enumerations: seq<seq<BusDesc>>,
    opens: seq<int>,
    configs: seq<int>,
    claims: seq<int>,
    altSettings: seq<int>,
    writes: seq<int>,
    replies: seq<Option<seq<byte>>>,
    controls: seq<int>,
    errno: int,
    trace: seq<Call>)

  /** A library call's result together with the library state after it. */
  datatype Step<+T> = Step(result: T, usb: UsbState)

  /** The k-th answer still to come, or `missing` once the script is used up. */
  function AnswerAt(script: seq<int>, k: nat, missing: int): int {
    if k < |script| then script[k] else missing
  }

  /** The script after one answer is taken. */
  function Rest<T>(script: seq<T>): (r: seq<T>)
    ensures |r| == if |script| > 0 then |script| - 1 else 0
  {
    if |script| > 0 then script[1..] else []
  }

  /** The script after n answers are taken. */
  function Drop<T>(script: seq<T>, n: nat): (r: seq<T>)
    ensures |r| == if n <= |script| then |script| - n else 0
  {
    if n <= |script| then script[n..] else []
  }

  function Record(u: UsbState, c: Call): UsbState {
    u.(trace := u.trace + [c])
  }

  /**
   * `usb_find_devices`, after `usb_find_busses`: the tree of the next
   * enumeration, or the same tree once no change is scripted.
   */
  function UsbFindDevices(u: UsbState): UsbState {
    u.(busses := if |u.enumerations| > 0 then u.enumerations[0] else u.busses,
       enumerations := Rest(u.enumerations), trace := u.trace + [FindDevices])
  }

  /** `usb_open`: a handle, 0 standing for NULL. */
  function UsbOpen(u: UsbState, bus: nat, device: nat): Step<int> {
    Step(AnswerAt(u.opens, 0, 0),
         u.(opens := Rest(u.opens), trace := u.trace + [Open(bus, device)]))
  }

  /** `usb_set_configuration`: 0 on success. */
  function UsbSetConfiguration(u: UsbState, h: int, value: int): Step<int> {
    Step(AnswerAt(u.configs, 0, -1),
         u.(configs := Rest(u.configs), trace := u.trace + [SetConfiguration(h, value)]))
  }

  /** Result of a call that answers with an errno: 0, or -errno with errno set. */
  function ErrnoStep(u: UsbState, e: int): Step<int> {
    if e == 0 then Step(0, u) else Step(-e, u.(errno := e))
  }

  /** `usb_claim_interface`: 0 on success, otherwise non-zero with errno set. */
  function UsbClaimInterface(u: UsbState, h: int, number: int): (r: Step<int>)
    ensures r.result != 0 && r.usb.errno == EBUSY ==> |r.usb.claims| < |u.claims|
  {
    ErrnoStep(u.(claims := Rest(u.claims), trace := u.trace + [ClaimInterface(h, number)]),
              AnswerAt(u.claims, 0, ENODEV))
  }

  /** `usb_set_altinterface`: 0 on success, otherwise non-zero with errno set. */
  function UsbSetAltInterface(u: UsbState, h: int, alternate: int): (r: Step<int>)
    ensures r.result != 0 && r.usb.errno == EBUSY ==> |r.usb.altSettings| < |u.altSettings|
  {
    ErrnoStep(u.(altSettings := Rest(u.altSettings), trace := u.trace + [SetAltInterface(h, alternate)]),
              AnswerAt(u.altSettings, 0, ENODEV))
  }

  /** `usb_bulk_write`: bytes accepted, or negative on error or timeout. */
  function UsbBulkWrite(u: UsbState, h: int, ep: int, bytes: seq<byte>, timeout: int): (r: Step<int>)
    ensures r.result >= 0 ==> |u.writes| > 0 && r.usb.writes == u.writes[1..]
  {
    Step(AnswerAt(u.writes, 0, -ETIMEDOUT),
         u.(writes := Rest(u.writes), trace := u.trace + [BulkWrite(h, ep, bytes, timeout)]))
  }

  /** `usb_bulk_read` into a buffer of `size` bytes: what arrived, or `None`. */
  function UsbBulkRead(u: UsbState, h: int, ep: EpAddr, size: nat, timeout: int): (r: Step<Option<seq<byte>>>)
    ensures r.result.Some? ==> |r.result.value| <= size
  {
    var answer := if |u.replies| > 0 then u.replies[0] else None;
    var received := match answer
      case Some(bytes) => Some(if |bytes| <= size then bytes else bytes[..size])
      case None => None;
    Step(received, u.(replies := Rest(u.replies), trace := u.trace + [BulkRead(h, ep, size, timeout)]))
  }

  /** `usb_control_msg`: negative on error. */
  function UsbControlMsg(u: UsbState, h: int, requestType: int, request: int, value: int, index: int,
                         bytes: seq<byte>, timeout: int): Step<int>
  {
    Step(AnswerAt(u.controls, 0, -ETIMEDOUT),
         u.(controls := Rest(u.controls),
            trace := u.trace + [ControlMsg(h, requestType, request, value, index, bytes, timeout)]))
  }

  /** `usb_clear_halt`; its result is only logged by the driver. */
  function UsbClearHalt(u: UsbState, h: int, ep: EpAddr): UsbState {
    Record(u, ClearHalt(h, ep))
  }

  /** `usb_release_interface`; its result is ignored by the driver. */
  function UsbReleaseInterface(u: UsbState, h: int, iface: int): UsbState {
    Record(u, ReleaseInterface(h, iface))
  }

  /** `usb_close`; its result is ignored by the driver. */
  function UsbClose(u: UsbState, h: int): UsbState {
    Record(u, Close(h))
  }
}
