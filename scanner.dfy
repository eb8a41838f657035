/**
 * The descriptor scan at the start of `BematechDrv::open`: a first-match
 * search over bus -> device -> configuration -> interface -> alternate
 * setting -> endpoint. `Select` is the search as a recursive specification
 * and `Scan` is the nested loop the driver runs; `Scan` is proved to
 * compute `Select`, and `SelectFindsFirst` says what `Select` finds.
 */
module Scanner {
  import opened Wrappers
  import opened Usb

  const BEMATECH_ID_VENDOR := 0x0B1B

  /** Descriptor ordinals of an alternate setting in the tree. */
  datatype Path = Path(bus: nat, device: nat, config: nat, iface: nat, altSetting: nat)

  /**
   * What the scan records: the chosen alternate setting, the index of its
   * write endpoint, the index of its read endpoint (-1 when it has no
   * bulk-IN endpoint) and its interface protocol.
   */
  datatype Selection = Selection(path: Path, writeEp: int, readEp: int, protocol: int)

  /** Product 1 uses the vendor class 255; every other product the data class. */
  function InterfaceClassFor(productId: int): byte {
    if productId == 1 then 255 else USB_CLASS_DATA
  }

  /** A bulk endpoint of the given direction. */
  predicate BulkOf(e: EndpointDesc, dirIn: bool) {
    IsBulk(e) && IsIn(e) == dirIn
  }

  /** Index of the last bulk endpoint of direction `dirIn` among the first n, or -1. */
  function LastBulk(eps: seq<EndpointDesc>, n: nat, dirIn: bool): (k: int)
    requires n <= |eps|
    ensures -1 <= k < n
    ensures k >= 0 ==> BulkOf(eps[k], dirIn)
    ensures forall j :: k < j < n ==> !BulkOf(eps[j], dirIn)
  {
    if n == 0 then -1
    else if BulkOf(eps[n - 1], dirIn) then n - 1
    else LastBulk(eps, n - 1, dirIn)
  }

  lemma LastBulkStep(eps: seq<EndpointDesc>, n: nat, dirIn: bool)
    requires n < |eps|
    ensures LastBulk(eps, n + 1, dirIn) == if BulkOf(eps[n], dirIn) then n else LastBulk(eps, n, dirIn)
  {
  }

  /** An alternate setting the driver accepts: right class, some bulk-OUT endpoint. */
  predicate AltOk(alt: AltSettingDesc, cls: byte) {
    alt.interfaceClass == cls && LastBulk(alt.endpoints, |alt.endpoints|, false) >= 0
  }

  /** The selection recorded for an accepted alternate setting at path p. */
  function Pick(alt: AltSettingDesc, p: Path): Selection {
    Selection(p, LastBulk(alt.endpoints, |alt.endpoints|, false),
              LastBulk(alt.endpoints, |alt.endpoints|, true), alt.interfaceProtocol)
  }

  predicate IfaceOk(iface: InterfaceDesc, cls: byte) {
    exists k :: 0 <= k < |iface.altSettings| && AltOk(iface.altSettings[k], cls)
  }

  predicate ConfigOk(conf: ConfigDesc, cls: byte) {
    exists k :: 0 <= k < |conf.interfaces| && IfaceOk(conf.interfaces[k], cls)
  }

  predicate DeviceMatches(dev: DeviceDesc, productId: int) {
    dev.vendor == BEMATECH_ID_VENDOR && dev.product == productId
  }

  predicate DeviceOk(dev: DeviceDesc, productId: int) {
    DeviceMatches(dev, productId) &&
    exists k :: 0 <= k < |dev.configs| && ConfigOk(dev.configs[k], InterfaceClassFor(productId))
  }

  predicate BusOk(bus: BusDesc, productId: int) {
    exists k :: 0 <= k < |bus.devices| && DeviceOk(bus.devices[k], productId)
  }

  /** First accepted alternate setting at ordinal a or later. */
  function SearchAlts(alts: seq<AltSettingDesc>, cls: byte, b: nat, d: nat, c: nat, i: nat, a: nat)
    : Option<Selection>
    decreases |alts| - a
  {
    if a >= |alts| then None
    else if AltOk(alts[a], cls) then Some(Pick(alts[a], Path(b, d, c, i, a)))
    else SearchAlts(alts, cls, b, d, c, i, a + 1)
  }

  /** First interface, at ordinal i or later, with an accepted alternate setting. */
  function SearchIfaces(ifaces: seq<InterfaceDesc>, cls: byte, b: nat, d: nat, c: nat, i: nat)
    : Option<Selection>
    decreases |ifaces| - i
  {
    if i >= |ifaces| then None
    else
      var r := SearchAlts(ifaces[i].altSettings, cls, b, d, c, i, 0);
      if r.Some? then r else SearchIfaces(ifaces, cls, b, d, c, i + 1)
  }

  /** First configuration, at ordinal c or later, with an accepted alternate setting. */
  function SearchConfigs(configs: seq<ConfigDesc>, cls: byte, b: nat, d: nat, c: nat)
    : Option<Selection>
    decreases |configs| - c
  {
    if c >= |configs| then None
    else
      var r := SearchIfaces(configs[c].interfaces, cls, b, d, c, 0);
      if r.Some? then r else SearchConfigs(configs, cls, b, d, c + 1)
  }

  /** First matching device, at position d or later on bus b, with an accepted alternate setting. */
  function SearchDevices(devices: seq<DeviceDesc>, productId: int, b: nat, d: nat): Option<Selection>
    decreases |devices| - d
  {
    if d >= |devices| then None
    else if !DeviceMatches(devices[d], productId) then SearchDevices(devices, productId, b, d + 1)
    else
      var r := SearchConfigs(devices[d].configs, InterfaceClassFor(productId), b, d, 0);
      if r.Some? then r else SearchDevices(devices, productId, b, d + 1)
  }

  /** First bus, at position b or later, holding a device the driver accepts. */
  function SearchBusses(busses: seq<BusDesc>, productId: int, b: nat): Option<Selection>
    decreases |busses| - b
  {
    if b >= |busses| then None
    else
      var r := SearchDevices(busses[b].devices, productId, b, 0);
      if r.Some? then r else SearchBusses(busses, productId, b + 1)
  }

  /**
   * The alternate-setting search finds nothing exactly when no alternate
   * setting from a on is accepted, and otherwise the first accepted one.
   */
  lemma {:induction false} SearchAltsFindsFirst(alts: seq<AltSettingDesc>, cls: byte,
                                                b: nat, d: nat, c: nat, i: nat, a: nat)
    ensures var r := SearchAlts(alts, cls, b, d, c, i, a);
      (r.None? <==> forall k :: a <= k < |alts| ==> !AltOk(alts[k], cls)) &&
      (r.Some? ==>
        var k := r.value.path.altSetting;
        a <= k < |alts| && AltOk(alts[k], cls) && r.value == Pick(alts[k], Path(b, d, c, i, k)) &&
        forall j :: a <= j < k ==> !AltOk(alts[j], cls))
    decreases |alts| - a
  {
    if a < |alts| && !AltOk(alts[a], cls) {
      SearchAltsFindsFirst(alts, cls, b, d, c, i, a + 1);
    }
  }

  /** The interface search finds nothing exactly when no interface from i on has an accepted setting. */
  lemma {:induction false} SearchIfacesFindsFirst(ifaces: seq<InterfaceDesc>, cls: byte,
                                                  b: nat, d: nat, c: nat, i: nat)
    ensures var r := SearchIfaces(ifaces, cls, b, d, c, i);
      (r.None? <==> forall k :: i <= k < |ifaces| ==> !IfaceOk(ifaces[k], cls)) &&
      (r.Some? ==>
        var k := r.value.path.iface;
        i <= k < |ifaces| && r == SearchAlts(ifaces[k].altSettings, cls, b, d, c, k, 0) &&
        forall j :: i <= j < k ==> !IfaceOk(ifaces[j], cls))
    decreases |ifaces| - i
  {
    if i < |ifaces| {
      var r := SearchAlts(ifaces[i].altSettings, cls, b, d, c, i, 0);
      SearchAltsFindsFirst(ifaces[i].altSettings, cls, b, d, c, i, 0);
      assert r.Some? <==> IfaceOk(ifaces[i], cls);
      if r.None? {
        SearchIfacesFindsFirst(ifaces, cls, b, d, c, i + 1);
      }
    }
  }

  /** The configuration search finds nothing exactly when no configuration from c on has one. */
  lemma {:induction false} SearchConfigsFindsFirst(configs: seq<ConfigDesc>, cls: byte, b: nat, d: nat, c: nat)
    ensures var r := SearchConfigs(configs, cls, b, d, c);
      (r.None? <==> forall k :: c <= k < |configs| ==> !ConfigOk(configs[k], cls)) &&
      (r.Some? ==>
        var k := r.value.path.config;
        c <= k < |configs| && r == SearchIfaces(configs[k].interfaces, cls, b, d, k, 0) &&
        forall j :: c <= j < k ==> !ConfigOk(configs[j], cls))
    decreases |configs| - c
  {
    if c < |configs| {
      var r := SearchIfaces(configs[c].interfaces, cls, b, d, c, 0);
      SearchIfacesFindsFirst(configs[c].interfaces, cls, b, d, c, 0);
      if r.Some? {
        SearchAltsFindsFirst(configs[c].interfaces[r.value.path.iface].altSettings, cls, b, d, c,
                             r.value.path.iface, 0);
      }
      assert r.Some? <==> ConfigOk(configs[c], cls);
      if r.None? {
        SearchConfigsFindsFirst(configs, cls, b, d, c + 1);
      }
    }
  }

  /** The path a configuration search reports lies in that device, at its own configuration. */
  lemma SearchConfigsPath(configs: seq<ConfigDesc>, cls: byte, b: nat, d: nat, c: nat)
    requires SearchConfigs(configs, cls, b, d, c).Some?
    ensures var p := SearchConfigs(configs, cls, b, d, c).value.path;
      p.bus == b && p.device == d
  {
    SearchConfigsFindsFirst(configs, cls, b, d, c);
    var r := SearchConfigs(configs, cls, b, d, c);
    var k := r.value.path.config;
    SearchIfacesFindsFirst(configs[k].interfaces, cls, b, d, k, 0);
    var i := r.value.path.iface;
    SearchAltsFindsFirst(configs[k].interfaces[i].altSettings, cls, b, d, k, i, 0);
  }

  /** The device search finds nothing exactly when no device from d on is accepted. */
  lemma {:induction false} SearchDevicesFindsFirst(devices: seq<DeviceDesc>, productId: int, b: nat, d: nat)
    ensures var r := SearchDevices(devices, productId, b, d);
      (r.None? <==> forall k :: d <= k < |devices| ==> !DeviceOk(devices[k], productId)) &&
      (r.Some? ==>
        var k := r.value.path.device;
        d <= k < |devices| && DeviceMatches(devices[k], productId) &&
        r == SearchConfigs(devices[k].configs, InterfaceClassFor(productId), b, k, 0) &&
        forall j :: d <= j < k ==> !DeviceOk(devices[j], productId))
    decreases |devices| - d
  {
    if d < |devices| {
      if !DeviceMatches(devices[d], productId) {
        SearchDevicesFindsFirst(devices, productId, b, d + 1);
      } else {
        var cls := InterfaceClassFor(productId);
        var r := SearchConfigs(devices[d].configs, cls, b, d, 0);
        SearchConfigsFindsFirst(devices[d].configs, cls, b, d, 0);
        assert r.Some? <==> DeviceOk(devices[d], productId);
        if r.Some? {
          SearchConfigsPath(devices[d].configs, cls, b, d, 0);
        } else {
          SearchDevicesFindsFirst(devices, productId, b, d + 1);
        }
      }
    }
  }

  /** The path a device search reports lies on that bus. */
  lemma SearchDevicesPath(devices: seq<DeviceDesc>, productId: int, b: nat, d: nat)
    requires SearchDevices(devices, productId, b, d).Some?
    ensures SearchDevices(devices, productId, b, d).value.path.bus == b
  {
    SearchDevicesFindsFirst(devices, productId, b, d);
    var r := SearchDevices(devices, productId, b, d);
    SearchConfigsPath(devices[r.value.path.device].configs, InterfaceClassFor(productId), b,
                      r.value.path.device, 0);
  }

  /** The bus search finds nothing exactly when no bus from b on holds an accepted device. */
  lemma {:induction false} SearchBussesFindsFirst(busses: seq<BusDesc>, productId: int, b: nat)
    ensures var r := SearchBusses(busses, productId, b);
      (r.None? <==> forall k :: b <= k < |busses| ==> !BusOk(busses[k], productId)) &&
      (r.Some? ==>
        var k := r.value.path.bus;
        b <= k < |busses| && r == SearchDevices(busses[k].devices, productId, k, 0) &&
        forall j :: b <= j < k ==> !BusOk(busses[j], productId))
    decreases |busses| - b
  {
    if b < |busses| {
      var r := SearchDevices(busses[b].devices, productId, b, 0);
      SearchDevicesFindsFirst(busses[b].devices, productId, b, 0);
      assert r.Some? <==> BusOk(busses[b], productId);
      if r.Some? {
        SearchDevicesPath(busses[b].devices, productId, b, 0);
      } else {
        SearchBussesFindsFirst(busses, productId, b + 1);
      }
    }
  }

  /** The scan's result for the whole bus list. */
  function Select(busses: seq<BusDesc>, productId: int): Option<Selection> {
    SearchBusses(busses, productId, 0)
  }

  // ---------------------------------------------------------------------
  // What the search finds, stated over paths into the whole tree.

  predicate InTree(busses: seq<BusDesc>, p: Path) {
    p.bus < |busses| && p.device < |busses[p.bus].devices| &&
    p.config < |busses[p.bus].devices[p.device].configs| &&
    p.iface < |busses[p.bus].devices[p.device].configs[p.config].interfaces| &&
    p.altSetting < |busses[p.bus].devices[p.device].configs[p.config].interfaces[p.iface].altSettings|
  }

  function DeviceAt(busses: seq<BusDesc>, p: Path): DeviceDesc
    requires InTree(busses, p)
  {
    busses[p.bus].devices[p.device]
  }

  function AltAt(busses: seq<BusDesc>, p: Path): AltSettingDesc
    requires InTree(busses, p)
  {
    busses[p.bus].devices[p.device].configs[p.config].interfaces[p.iface].altSettings[p.altSetting]
  }

  /** Path p leads to an alternate setting the driver would accept for this product. */
  predicate Qualifies(busses: seq<BusDesc>, productId: int, p: Path) {
    InTree(busses, p) && DeviceMatches(DeviceAt(busses, p), productId) &&
    AltOk(AltAt(busses, p), InterfaceClassFor(productId))
  }

  /** Lexicographic order of paths: the order in which the scan visits them. */
  predicate PathLe(p: Path, q: Path) {
    p.bus < q.bus || (p.bus == q.bus &&
    (p.device < q.device || (p.device == q.device &&
    (p.config < q.config || (p.config == q.config &&
    (p.iface < q.iface || (p.iface == q.iface && p.altSetting <= q.altSetting)))))))
  }

  lemma QualifiesLifts(busses: seq<BusDesc>, productId: int, p: Path)
    requires Qualifies(busses, productId, p)
    ensures var cls := InterfaceClassFor(productId);
      var conf := DeviceAt(busses, p).configs[p.config];
      IfaceOk(conf.interfaces[p.iface], cls) && ConfigOk(conf, cls) &&
      DeviceOk(DeviceAt(busses, p), productId) && BusOk(busses[p.bus], productId)
  {
    var cls := InterfaceClassFor(productId);
    var dev := DeviceAt(busses, p);
    var conf := dev.configs[p.config];
    var iface := conf.interfaces[p.iface];
    assert AltOk(iface.altSettings[p.altSetting], cls);
    assert IfaceOk(iface, cls);
    assert ConfigOk(conf, cls);
    assert DeviceOk(dev, productId);
    assert DeviceOk(busses[p.bus].devices[p.device], productId);
  }

  /**
   * The scan finds nothing exactly when no path qualifies; otherwise it
   * finds the first qualifying path in scan order, whose alternate setting
   * has the product's class, and it records the last bulk-OUT endpoint as
   * the write endpoint and the last bulk-IN endpoint (or -1) as the read
   * endpoint.
   */
  lemma SelectFindsFirst(busses: seq<BusDesc>, productId: int)
    ensures Select(busses, productId).None? <==> forall p :: !Qualifies(busses, productId, p)
    ensures Select(busses, productId).Some? ==>
      var s := Select(busses, productId).value;
      Qualifies(busses, productId, s.path) &&
      s == Pick(AltAt(busses, s.path), s.path) &&
      forall p :: Qualifies(busses, productId, p) ==> PathLe(s.path, p)
  {
    var cls := InterfaceClassFor(productId);
    var r := Select(busses, productId);
    SearchBussesFindsFirst(busses, productId, 0);
    if r.None? {
      forall p | Qualifies(busses, productId, p) ensures false {
        QualifiesLifts(busses, productId, p);
      }
    } else {
      var b := r.value.path.bus;
      SearchDevicesFindsFirst(busses[b].devices, productId, b, 0);
      var d := r.value.path.device;
      var dev := busses[b].devices[d];
      SearchConfigsFindsFirst(dev.configs, cls, b, d, 0);
      var c := r.value.path.config;
      var conf := dev.configs[c];
      SearchIfacesFindsFirst(conf.interfaces, cls, b, d, c, 0);
      var i := r.value.path.iface;
      var iface := conf.interfaces[i];
      SearchAltsFindsFirst(iface.altSettings, cls, b, d, c, i, 0);
      var s := r.value;
      assert InTree(busses, s.path);
      assert Qualifies(busses, productId, s.path);
      forall p | Qualifies(busses, productId, p) ensures PathLe(s.path, p) {
        QualifiesLifts(busses, productId, p);
        if p.bus == b && p.device == d && p.config == c && p.iface == i {
          assert AltOk(iface.altSettings[p.altSetting], cls);
        }
      }
    }
  }

  lemma SelectEndpointKinds(busses: seq<BusDesc>, productId: int)
    requires Select(busses, productId).Some?
    ensures var s := Select(busses, productId).value;
      InTree(busses, s.path) &&
      var alt := AltAt(busses, s.path);
      alt.interfaceClass == (if productId == 1 then 255 else USB_CLASS_DATA) &&
      0 <= s.writeEp < |alt.endpoints| && IsBulk(alt.endpoints[s.writeEp]) &&
      !IsIn(alt.endpoints[s.writeEp]) &&
      -1 <= s.readEp < |alt.endpoints| &&
      (s.readEp >= 0 ==> IsBulk(alt.endpoints[s.readEp]) && IsIn(alt.endpoints[s.readEp])) &&
      (s.readEp == -1 <==> forall k :: 0 <= k < |alt.endpoints| ==> !BulkOf(alt.endpoints[k], true))
  {
    SelectFindsFirst(busses, productId);
  }

  // ---------------------------------------------------------------------

  /**
   * The innermost loop of the scan (usbdriver.cpp:113-127): the last bulk-IN
   * and the last bulk-OUT endpoint of one alternate setting, -1 for none.
   */
  method ScanEndpoints(eps: seq<EndpointDesc>) returns (readEndp: int, writeEndp: int)
    ensures readEndp == LastBulk(eps, |eps|, true)
    ensures writeEndp == LastBulk(eps, |eps|, false)
  {
    readEndp, writeEndp := -1, -1;
    for e := 0 to |eps|
      invariant readEndp == LastBulk(eps, e, true)
      invariant writeEndp == LastBulk(eps, e, false)
    {
      var endp := eps[e];
      LastBulkStep(eps, e, true);
      LastBulkStep(eps, e, false);
      if IsBulk(endp) {
        if IsIn(endp) {
          readEndp := e;
        } else {
          writeEndp := e;
        }
      }
    }
  }

  /**
   * The configuration, interface and alternate-setting loops for one device
   * whose vendor and product match (usbdriver.cpp:100-147).
   */
  method ScanDevice(dev: DeviceDesc, interfaceClass: byte, b: nat, d: nat) returns (found: Option<Selection>)
    ensures found == SearchConfigs(dev.configs, interfaceClass, b, d, 0)
  {
    found := None;
    for c := 0 to |dev.configs|
      invariant found == None
      invariant SearchConfigs(dev.configs, interfaceClass, b, d, 0) ==
                SearchConfigs(dev.configs, interfaceClass, b, d, c)
    {
      var ifaces := dev.configs[c].interfaces;
      for i := 0 to |ifaces|
        invariant found == None
        invariant SearchIfaces(ifaces, interfaceClass, b, d, c, 0) ==
                  SearchIfaces(ifaces, interfaceClass, b, d, c, i)
      {
        var alts := ifaces[i].altSettings;
        for a := 0 to |alts|
          invariant found == None
          invariant SearchAlts(alts, interfaceClass, b, d, c, i, 0) ==
                    SearchAlts(alts, interfaceClass, b, d, c, i, a)
        {
          var alt := alts[a];
          if alt.interfaceClass != interfaceClass {
            continue;
          }
          var readEndp, writeEndp := ScanEndpoints(alt.endpoints);
          // The first accepted alternate setting ends the scan.
          if writeEndp > -1 {
            found := Some(Selection(Path(b, d, c, i, a), writeEndp, readEndp, alt.interfaceProtocol));
            assert found == SearchAlts(alts, interfaceClass, b, d, c, i, 0);
            break;
          }
        }
        if found.Some? {
          assert found == SearchIfaces(ifaces, interfaceClass, b, d, c, 0);
          break;
        }
      }
      if found.Some? {
        assert found == SearchConfigs(dev.configs, interfaceClass, b, d, 0);
        break;
      }
    }
  }

  /** The bus and device loops of `open` that look for the printer (usbdriver.cpp:68-151). */
  method Scan(busses: seq<BusDesc>, productId: int) returns (found: Option<Selection>)
    ensures found == Select(busses, productId)
  {
    found := None;
    // The interface class depends on the product.
    var interfaceClass := InterfaceClassFor(productId);
    for b := 0 to |busses|
      invariant found == None
      invariant SearchBusses(busses, productId, 0) == SearchBusses(busses, productId, b)
    {
      var devices := busses[b].devices;
      for d := 0 to |devices|
        invariant found == None
        invariant SearchDevices(devices, productId, b, 0) == SearchDevices(devices, productId, b, d)
      {
        var dev := devices[d];
        if dev.vendor != BEMATECH_ID_VENDOR || dev.product != productId {
          continue;
        }
        found := ScanDevice(dev, interfaceClass, b, d);
        if found.Some? {
          assert found == SearchDevices(devices, productId, b, 0);
          break;
        }
      }
      if found.Some? {
        assert found == SearchBusses(busses, productId, 0);
        break;
      }
    }
  }
}
