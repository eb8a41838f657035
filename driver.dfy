/**
 * The class `BematechDrv` (usbdriver.h:28-61): the five fields of the
 * driver and the library it talks to, with one method per member function
 * of usbdriver.cpp. Each method does what its source does, step by step,
 * and ends in the state the matching function of module Lifecycle or
 * Transport describes; the properties proved of those functions are the
 * properties of the driver.
 */
module Driver {
  import opened Wrappers
  import opened Usb
  import opened Scanner
  import opened Transport
  import opened Lifecycle

  class BematechDrv {
    var dev: int
    var productId: int
    var interfaceId: int
    var endPointWrite: int
    var endPointRead: EpAddr
    /** The library and the bus, as the driver's calls see them. */
    var usb: UsbState

    /** The fields as a value. */
    function State(): Session
      reads this`dev, this`productId, this`interfaceId, this`endPointWrite, this`endPointRead
    {
      Session(dev, productId, interfaceId, endPointWrite, endPointRead)
    }

    /** usbdriver.cpp:42-51: no handle, no interface, the default endpoints; the library is initialised. */
    constructor (productId: int, usb: UsbState)
      ensures State() == Session(0, productId, -1, EP_OUT, Ep(EP_IN))
      ensures this.usb == usb.(trace := usb.trace + [Init])
    {
      dev := 0;
      this.productId := productId;
      interfaceId := -1;
      endPointRead := Ep(EP_IN);
      endPointWrite := EP_OUT;
      this.usb := Record(usb, Init);
    }

    /** The destructor (usbdriver.cpp:53-57): close when there is a handle. */
    method Destroy()
      modifies this
      ensures Transition(State(), usb) ==
        if old(dev) != 0 then CloseStep(old(State()), old(usb)) else Transition(old(State()), old(usb))
    {
      if dev != 0 {
        Close();
      }
    }

    /** `setProductId` (usbdriver.h:38): only the product id changes. */
    method SetProductId(id: int)
      modifies this`productId
      ensures productId == id
    {
      productId := id;
    }

    /** `productId` (usbdriver.h:39): nothing changes. */
    method ProductId() returns (id: int)
      ensures id == productId
    {
      id := productId;
    }

    /** `sendCommand` (usbdriver.cpp:286-311). */
    method SendCommand(data: seq<byte>) returns (ok: bool)
      modifies this`usb
      ensures Step(ok, usb) == SendCommandStep(old(usb), dev, endPointWrite, data)
    {
      var error := false;
      var buffer := data;
      ghost var sent: seq<seq<byte>> := [];
      while |buffer| > 0
        invariant Chunked(data, old(usb).writes) ==
          WriteRun(sent + Chunked(buffer, usb.writes).chunks, Chunked(buffer, usb.writes).ok)
        invariant usb == old(usb).(writes := Drop(old(usb).writes, |sent|),
                                   trace := old(usb).trace + WriteCalls(dev, endPointWrite, sent))
        decreases |usb.writes|
      {
        var size := if |buffer| > DEVICE_BUFFER_SIZE then DEVICE_BUFFER_SIZE else |buffer|;
        var chunk := buffer[..size];
        ghost var before := usb;
        var written := UsbBulkWrite(usb, dev, endPointWrite, chunk, TRANSFER_TIMEOUT);
        usb := written.usb;
        ChunkedStep(data, old(usb).writes, sent, buffer, before.writes);
        BulkWriteStep(old(usb), dev, endPointWrite, sent, chunk);
        sent := sent + [chunk];
        if written.result < 0 {
          error := true;
          buffer := [];
          break;
        } else {
          buffer := buffer[Min(written.result, |buffer|)..];
        }
      }
      ok := !error;
    }

    /** `readData` (usbdriver.cpp:416-427). */
    method ReadData(ep: EpAddr) returns (data: seq<byte>)
      modifies this`usb
      ensures Step(data, usb) == ReadDataStep(old(usb), dev, ep)
    {
      var read := UsbBulkRead(usb, dev, ep, DEVICE_BUFFER_SIZE, TRANSFER_TIMEOUT);
      usb := read.usb;
      if read.result.None? {
        data := [];
      } else {
        data := read.result.value;
      }
    }

    /** `sendControlMessage` (usbdriver.cpp:380-398). */
    method SendControlMessage(request: int, value: int, data: seq<byte>) returns (r: int)
      modifies this`usb
      ensures Step(r, usb) == ControlMessageStep(old(usb), dev, request, value, interfaceId, data)
    {
      var sent := UsbControlMsg(usb, dev, CONTROL_REQUEST_TYPE, request, value, interfaceId, data, TRANSFER_TIMEOUT);
      usb := sent.usb;
      if sent.result < 0 {
        r := -1;
      } else {
        r := 0;
      }
    }

    /** `sendPreCommand` (usbdriver.cpp:259-274). */
    method SendPreCommand() returns (ok: bool)
      modifies this`usb
      ensures Step(ok, usb) == PreCommandStep(State(), old(usb))
    {
      ok := SendCommand(SET_MODE);
      if !ok {
        return false;
      }
      ok := SendCommand(RESET_PRINTER);
      if !ok {
        return false;
      }
      return true;
    }

    /** `sendPostCommand` (usbdriver.cpp:276-284). */
    method SendPostCommand() returns (ok: bool)
      modifies this`usb
      ensures Step(ok, usb) == PostCommandStep(State(), old(usb))
    {
      ok := SendCommand(RESTORE_MODE);
      if !ok {
        return false;
      }
      return true;
    }

    /** `initialize` (usbdriver.cpp:238-257). */
    method Initialize() returns (ok: bool)
      modifies this`usb
      ensures Step(ok, usb) == InitializeStep(State(), old(usb))
    {
      var ret := 0;
      if productId == 1 {
        ret := SendControlMessage(0x0000, 0xFFFF, []);
        if ret < 0 {
          return false;
        }
        ret := SendControlMessage(0x01, 0x0007, []);
        if ret < 0 {
          return false;
        }
      } else if productId == 3 {
        ret := SendControlMessage(0x22, 0x0003, []);
        if ret < 0 {
          return false;
        }
      }
      ok := SendPreCommand();
    }

    /** The two busy-retry loops of `open` (usbdriver.cpp:172-186). */
    method SetUpInterface(alt: AltSettingDesc) returns (ok: bool)
      modifies this`usb
      ensures Step(ok, usb) == AcquireInterface(old(usb), dev, alt)
    {
      var number := alt.interfaceNumber;
      var claim := UsbClaimInterface(usb, dev, number);
      usb := claim.usb;
      while claim.result != 0
        invariant usb == claim.usb
        invariant RetryWhileBusy(old(usb), dev, Claim, number) ==
          if claim.result == 0 then Step(true, usb)
          else if usb.errno != EBUSY then Step(false, usb)
          else RetryWhileBusy(usb, dev, Claim, number)
        decreases |usb.claims| + (if usb.errno == EBUSY then 1 else 0)
      {
        if usb.errno != EBUSY {
          return false;
        }
        claim := UsbClaimInterface(usb, dev, number);
        usb := claim.usb;
      }
      ghost var claimed := usb;
      number := alt.alternateSetting;
      var alternate := UsbSetAltInterface(usb, dev, number);
      usb := alternate.usb;
      while alternate.result != 0
        invariant usb == alternate.usb
        invariant RetryWhileBusy(claimed, dev, AltSetting, number) ==
          if alternate.result == 0 then Step(true, usb)
          else if usb.errno != EBUSY then Step(false, usb)
          else RetryWhileBusy(usb, dev, AltSetting, number)
        decreases |usb.altSettings| + (if usb.errno == EBUSY then 1 else 0)
      {
        if usb.errno != EBUSY {
          return false;
        }
        alternate := UsbSetAltInterface(usb, dev, number);
        usb := alternate.usb;
      }
      return true;
    }

    /** `open` (usbdriver.cpp:59-196). */
    method Open() returns (ok: bool)
      modifies this
      ensures Outcome(ok, State(), usb) == OpenStep(old(State()), old(usb))
    {
      if dev != 0 {
        return true;
      }
      usb := Record(usb, Init);
      usb := Record(usb, FindBusses);
      usb := UsbFindDevices(usb);
      var found := Scan(usb.busses, productId);
      if found.None? {
        return false;
      }
      var best := found.value;
      SelectEndpointKinds(usb.busses, productId);
      var p := best.path;
      var bestDev := usb.busses[p.bus].devices[p.device];
      var alt := bestDev.configs[p.config].interfaces[p.iface].altSettings[p.altSetting];
      ok := OpenBest(p, bestDev.configs[p.config].configurationValue, alt, best.writeEp, best.readEp);
    }

    /** usbdriver.cpp:161-192: open, configure and set up the chosen alternate setting. */
    method OpenBest(p: Path, configValue: int, alt: AltSettingDesc, writeEp: int, readEp: int)
      returns (ok: bool)
      requires 0 <= writeEp < |alt.endpoints| && -1 <= readEp < |alt.endpoints|
      modifies this
      ensures Outcome(ok, State(), usb) == OpenSelected(old(State()), old(usb), p, configValue, alt, writeEp, readEp)
    {
      var openCall := UsbOpen(usb, p.bus, p.device);
      usb := openCall.usb;
      dev := openCall.result;
      if dev == 0 {
        return false;
      }
      var configured := UsbSetConfiguration(usb, dev, configValue);
      usb := configured.usb;
      if configured.result != 0 {
        return false;
      }
      var acquired := SetUpInterface(alt);
      if !acquired {
        return false;
      }
      interfaceId := p.iface;
      endPointWrite := alt.endpoints[writeEp].address;
      endPointRead := if readEp >= 0 then Ep(alt.endpoints[readEp].address) else Indeterminate;
      ok := Initialize();
    }

    /** `close` (usbdriver.cpp:198-228). */
    method Close()
      modifies this
      ensures Transition(State(), usb) == CloseStep(old(State()), old(usb))
    {
      if interfaceId == -1 {
        return;
      }
      if dev == 0 {
        return;
      }
      var restored := SendPostCommand();
      if productId == 3 {
        var reset := SendCommand(PRODUCT_RESET);
      }
      usb := UsbClearHalt(usb, dev, endPointRead);
      usb := UsbClearHalt(usb, dev, Ep(endPointWrite));
      usb := UsbClearHalt(usb, dev, Ep(EP_AUX));
      if dev != 0 {
        usb := UsbReleaseInterface(usb, dev, interfaceId);
      }
      if dev != 0 {
        usb := UsbClose(usb, dev);
      }
      dev := 0;
    }

    /** `reset` (usbdriver.cpp:230-236). */
    method Reset() returns (ok: bool)
      modifies this
      ensures Outcome(ok, State(), usb) == ResetStep(old(State()), old(usb))
    {
      Close();
      if productId == 3 {
        usb := Record(usb, Sleep(RESET_WAIT));
      }
      ok := Open();
    }

    /** `getCommandSet` (usbdriver.cpp:314-323); `toInt` stands for QByteArray::toInt. */
    method GetCommandSet(toInt: seq<byte> -> int) returns (r: int)
      modifies this`usb
      ensures Step(r, usb) == CommandSetStep(State(), old(usb), toInt)
    {
      var sent := SendCommand(GET_COMMAND_SET);
      if sent {
        var result := ReadData(endPointRead);
        if |result| > 0 {
          return toInt(result);
        }
      }
      return -1;
    }

    /** One block of `productInfo`: ask, and record a non-empty reply under the key. */
    method AskFor(info: map<string, seq<byte>>, key: string, command: seq<byte>,
                  ghost s: Session, ghost queries: seq<Query>, ghost i: nat)
      returns (result: map<string, seq<byte>>)
      requires s == State() && i < |queries| && queries[i] == Query(key, command)
      modifies this`usb
      ensures var a := Ask(s, old(usb), command);
        usb == a.usb && result == if a.result.Some? then info[key := a.result.value] else info
      ensures AskAll(s, old(usb), queries[i..], info) == AskAll(s, usb, queries[i + 1..], result)
    {
      result := info;
      var sent := SendCommand(command);
      if sent {
        var read := ReadData(endPointRead);
        if |read| > 0 {
          result := result[key := read];
        }
      }
      AskAllStep(s, old(usb), queries, i, info);
    }

    /** `productInfo` (usbdriver.cpp:325-378). */
    method ProductInfo() returns (result: map<string, seq<byte>>)
      modifies this`usb
      ensures Step(result, usb) == ProductInfoStep(State(), old(usb))
    {
      var qs := PRODUCT_INFO_QUERIES;
      ghost var s := State();
      assert qs[0..] == qs;
      result := map[];
      result := AskFor(result, qs[0].key, qs[0].command, s, qs, 0);
      result := AskFor(result, qs[1].key, qs[1].command, s, qs, 1);
      result := AskFor(result, qs[2].key, qs[2].command, s, qs, 2);
      result := AskFor(result, qs[3].key, qs[3].command, s, qs, 3);
      result := AskFor(result, qs[4].key, qs[4].command, s, qs, 4);
      result := AskFor(result, qs[5].key, qs[5].command, s, qs, 5);
      assert qs[6..] == [];
    }
  }
}
