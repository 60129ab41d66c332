/**
 The Update controller's work on one device: rename the vendor's remote board interface, set platform and
 out-of-band IP, delete the vmk interfaces with their addresses, and copy the hostname to the BMC.
 */
module DeviceUpdate {
  import opened Wrappers
  import opened Netbox

  const REMOTEBOARD := "remoteboard"

  const VENDOR_NAMES := ["iLO", "iDRAC", "imm", "XClarity", "cimc"]

  /** An interface name, classified the way the controller tests it. */
  datatype PortName = Vendor(index: nat) | Remoteboard | Vmk(rest: string) | OtherName(name: string)

  /** The controller's tests on a name: listed among the vendor names, equal to the board's name, prefixed with "vmk". */
  function Classify(name: string): PortName {
    if name == VENDOR_NAMES[0] then Vendor(0)
    else if name == VENDOR_NAMES[1] then Vendor(1)
    else if name == VENDOR_NAMES[2] then Vendor(2)
    else if name == VENDOR_NAMES[3] then Vendor(3)
    else if name == VENDOR_NAMES[4] then Vendor(4)
    else if name == REMOTEBOARD then Remoteboard
    else if "vmk" <= name then Vmk(name[3..])
    else OtherName(name)
  }

  /** Nothing is lost by working with classified names: each test is answered by the class, and distinct names stay distinct. */
  lemma ClassifyExact(name: string, other: string)
    ensures Classify(name).Vendor? <==> name in VENDOR_NAMES
    ensures Classify(name).Remoteboard? <==> name == REMOTEBOARD
    ensures Classify(name).Vmk? <==> "vmk" <= name
    ensures Classify(name) == Classify(other) <==> name == other
  {
    assert forall v | v in VENDOR_NAMES :: v[0] == 'i' || v[0] == 'X' || v[0] == 'c';
    assert "vmk"[0] == 'v' && REMOTEBOARD[0] == 'r';
    if Classify(name).Vmk? && Classify(name) == Classify(other) {
      assert name == "vmk" + name[3..] && other == "vmk" + other[3..];
    }
  }

  datatype Port = Port(id: Id, device: Id, name: PortName)

  /** NetBox with the DNS names of its address records, and the hostname field of each BMC resource. */
  datatype Store = Store(
    ifaces: map<Id, Port>, ips: IpTable, dns: map<Id, string>,
    devices: map<Id, Device>, bmcs: map<string, Option<string>>)

  predicate IsVmk(x: Port, dev: Id) { x.device == dev && x.name.Vmk? }

  predicate IsVendor(x: Port, dev: Id) { x.device == dev && x.name.Vendor? }

  predicate NoVendor(s: Store, dev: Id) { forall i | i in s.ifaces :: !IsVendor(s.ifaces[i], dev) }

  predicate NoVmk(s: Store, dev: Id) { forall i | i in s.ifaces :: !IsVmk(s.ifaces[i], dev) }

  predicate IsBoard(x: Port, dev: Id) { x.device == dev && x.name.Remoteboard? }

  // ---------- what the stores guarantee ----------

  /** Every address record's interface exists. */
  predicate ReferencesHold(s: Store) { forall i | i in s.ips :: s.ips[i].iface in s.ifaces }

  predicate Consistent(s: Store) {
    && (forall i | i in s.ifaces :: s.ifaces[i].id == i)
    && (forall i | i in s.devices :: s.devices[i].id == i)
    && (forall i, j | i in s.ifaces && j in s.ifaces && s.ifaces[i].device == s.ifaces[j].device
                      && s.ifaces[i].name == s.ifaces[j].name :: i == j)
    && ReferencesHold(s)
  }

  lemma ConsistentIds(s: Store, dev: Id)
    requires Consistent(s) && dev in s.devices
    ensures s.devices[dev].id == dev
  {
  }

  // ---------- the desired store ----------

  function Renamed(x: Port, dev: Id): Port { if IsVendor(x, dev) then x.(name := Remoteboard) else x }

  function FinalIfaces(ifaces: map<Id, Port>, dev: Id): map<Id, Port> {
    map i | i in ifaces && !IsVmk(ifaces[i], dev) :: Renamed(ifaces[i], dev)
  }

  predicate OnVmk(ifaces: map<Id, Port>, iface: Id, dev: Id) { iface in ifaces && IsVmk(ifaces[iface], dev) }

  function FinalIps(s: Store, dev: Id): IpTable {
    map i | i in s.ips && !OnVmk(s.ifaces, s.ips[i].iface, dev) :: s.ips[i]
  }

  function Boards(ifaces: map<Id, Port>, dev: Id): set<Id> { set i | i in ifaces && IsBoard(ifaces[i], dev) }

  /** The records of one interface, as the ipam service lists them; ids are positive, so the filter is really there. */
  function IpsOn(ips: IpTable, iface: Id): (r: set<Id>)
    ensures forall i :: i in r <==> i in ips && ips[i].iface == iface
  {
    ListIPAddresses(ips, IpRequest(iface, None))
  }

  ghost predicate IsOobIp(ifaces: map<Id, Port>, ips: IpTable, dev: Id, ip: Id) {
    exists b :: Boards(ifaces, dev) == {b} && IpsOn(ips, b) == {ip}
  }

  ghost function OobIp(ifaces: map<Id, Port>, ips: IpTable, dev: Id): (r: Option<Id>)
    ensures r.Some? ==> IsOobIp(ifaces, ips, dev, r.value)
    ensures r.None? ==> forall ip :: !IsOobIp(ifaces, ips, dev, ip)
  {
    if exists ip :: IsOobIp(ifaces, ips, dev, ip) then
      var ip :| IsOobIp(ifaces, ips, dev, ip);
      Some(ip)
    else None
  }

  function HostnameOf(dns: map<Id, string>, ip: Id): string { if ip in dns then dns[ip] else "" }

  function WithHostname(bmcs: map<string, Option<string>>, name: string, host: string): map<string, Option<string>> {
    if name in bmcs then bmcs[name := Some(host)] else bmcs
  }

  ghost function Desired(s: Store, dev: Id, platform: int): Store {
    var ifaces, ips := FinalIfaces(s.ifaces, dev), FinalIps(s, dev);
    var ip := OobIp(ifaces, ips, dev);
    var s' := s.(ifaces := ifaces, ips := ips);
    if ip.None? || dev !in s.devices then s' else
    var d := s.devices[dev];
    var host := HostnameOf(s.dns, ip.value);
    s'.(devices := s.devices[dev := d.(platform := platform, oob := ip.value)],
        bmcs := if host != "" then WithHostname(s.bmcs, d.name, host) else s.bmcs)
  }

  /** The desired store has no vendor-named and no vmk interface on the device. */
  lemma DesiredIsClean(s: Store, dev: Id, platform: int)
    ensures forall i | i in Desired(s, dev, platform).ifaces ::
              !IsVendor(Desired(s, dev, platform).ifaces[i], dev) && !IsVmk(Desired(s, dev, platform).ifaces[i], dev)
    ensures forall i :: i in Desired(s, dev, platform).ifaces <==> i in s.ifaces && !IsVmk(s.ifaces[i], dev)
  {
  }

  // ---------- what the desired store is, table by table ----------

  /** The one interface of the device that has a vendor's name or the remote board's, and the one address on it. */
  predicate SoleBoard(s: Store, dev: Id, b: Id, ip: Id) {
    && b in s.ifaces && s.ifaces[b].device == dev && (s.ifaces[b].name.Vendor? || s.ifaces[b].name.Remoteboard?)
    && (forall i | i in s.ifaces && s.ifaces[i].device == dev && (s.ifaces[i].name.Vendor? || s.ifaces[i].name.Remoteboard?) :: i == b)
    && ip in s.ips && s.ips[ip].iface == b && forall i | i in s.ips && s.ips[i].iface == b :: i == ip
  }

  /** The vmk interfaces of the device are gone, vendor-named ones are called remote board, all others are as before. */
  ghost predicate IfacesDone(s: Store, t: Store, dev: Id) {
    && (forall i :: i in t.ifaces <==> i in s.ifaces && !(s.ifaces[i].device == dev && s.ifaces[i].name.Vmk?))
    && (forall i | i in t.ifaces ::
          t.ifaces[i] == if s.ifaces[i].device == dev && s.ifaces[i].name.Vendor? then s.ifaces[i].(name := Remoteboard)
                         else s.ifaces[i])
  }

  /** The records on the device's vmk interfaces are gone, all others are as before. */
  ghost predicate IpsDone(s: Store, t: Store, dev: Id) {
    && (forall i :: i in t.ips <==>
          && i in s.ips
          && !(s.ips[i].iface in s.ifaces && s.ifaces[s.ips[i].iface].device == dev && s.ifaces[s.ips[i].iface].name.Vmk?))
    && (forall i | i in t.ips :: t.ips[i] == s.ips[i])
  }

  /** The BMC of the device's name has the DNS name of the address, if there is both; all other BMCs are as before. */
  predicate HostnameDone(s: Store, t: Store, dev: Id, ip: Id)
    requires dev in s.devices
  {
    var n := s.devices[dev].name;
    && t.bmcs.Keys == s.bmcs.Keys
    && (forall m | m in s.bmcs && m != n :: t.bmcs[m] == s.bmcs[m])
    && (n in s.bmcs ==> t.bmcs[n] == if ip in s.dns && s.dns[ip] != "" then Some(s.dns[ip]) else s.bmcs[n])
  }

  /** Interfaces and addresses are cleaned up, the device has platform and out-of-band address, and nothing else changed. */
  ghost predicate NetboxDone(s: Store, t: Store, dev: Id, platform: int, ip: Id)
    requires dev in s.devices
  {
    && IfacesDone(s, t, dev) && IpsDone(s, t, dev) && t.dns == s.dns
    && t.devices == s.devices[dev := s.devices[dev].(platform := platform, oob := ip)]
  }

  lemma BoardIpsOf(s: Store, dev: Id, b: Id, ip: Id)
    ensures SoleBoard(s, dev, b, ip) <==> IsOnly(BoardIps(s, dev), b, ip)
  {
    var m := BoardIps(s, dev);
    if SoleBoard(s, dev, b, ip) {
      assert m.Keys == {b} && m[b] == {ip};
    }
    if IsOnly(m, b, ip) {
      assert b in m && m[b] == {ip} && ip in m[b];
      assert forall i | i in s.ips && s.ips[i].iface == b :: i in m[b];
      assert forall i | i in s.ifaces && IsBoardlike(s.ifaces[i], dev) :: i in m;
    }
  }

  lemma FinalOobIp(s: Store, dev: Id, b: Id, ip: Id)
    requires SoleBoard(s, dev, b, ip)
    ensures OobIp(FinalIfaces(s.ifaces, dev), FinalIps(s, dev), dev) == Some(ip)
  {
    var ifaces, ips := FinalIfaces(s.ifaces, dev), FinalIps(s, dev);
    assert Boards(ifaces, dev) == {b};
    assert IpsOn(ips, b) == {ip};
    assert IsOobIp(ifaces, ips, dev, ip);
    var r := OobIp(ifaces, ips, dev);
    var b' :| Boards(ifaces, dev) == {b'} && IpsOn(ips, b') == {r.value};
    assert b' in {b} && r.value in {ip};
  }

  lemma CleanedUp(s: Store, t: Store, dev: Id)
    requires t.ifaces == FinalIfaces(s.ifaces, dev) && t.ips == FinalIps(s, dev)
    ensures IfacesDone(s, t, dev) && IpsDone(s, t, dev)
  {
  }

  /** For a device that can pass, the desired store is this. */
  lemma DesiredMeaning(s: Store, dev: Id, platform: int, b: Id, ip: Id)
    requires SoleBoard(s, dev, b, ip) && dev in s.devices
    ensures NetboxDone(s, Desired(s, dev, platform), dev, platform, ip)
    ensures HostnameDone(s, Desired(s, dev, platform), dev, ip)
  {
    FinalOobIp(s, dev, b, ip);
    CleanedUp(s, Desired(s, dev, platform), dev);
    hide SoleBoard, FinalIfaces, FinalIps, OobIp, IfacesDone, IpsDone;
  }

  lemma FinalTwice(s: Store, t: Store, dev: Id)
    requires t.ifaces == FinalIfaces(s.ifaces, dev) && t.ips == FinalIps(s, dev)
    ensures FinalIfaces(t.ifaces, dev) == t.ifaces && FinalIps(t, dev) == t.ips
  {
    assert forall i | i in t.ifaces :: !IsVmk(t.ifaces[i], dev) && !IsVendor(t.ifaces[i], dev);
  }

  /** What is desired stays desired. */
  lemma DesiredTwice(s: Store, dev: Id, platform: int)
    ensures Desired(Desired(s, dev, platform), dev, platform) == Desired(s, dev, platform)
  {
    FinalTwice(s, Desired(s, dev, platform), dev);
  }

  // ---------- what each stage may do, completely or cut short, and that it leaves the desired store as it is ----------

  /** Some vendor-named interfaces of the device got the remote board name, and nothing else happened. */
  predicate OnlyBoardRenamed(s: Store, t: Store, dev: Id) {
    && t == s.(ifaces := t.ifaces) && t.ifaces.Keys == s.ifaces.Keys
    && forall i | i in s.ifaces :: t.ifaces[i] == s.ifaces[i] || t.ifaces[i] == Renamed(s.ifaces[i], dev)
  }

  /** Some vmk interfaces of the device and some addresses on its vmk interfaces are gone, and nothing else happened. */
  predicate OnlyVmkRemoved(s: Store, t: Store, dev: Id) {
    && t == s.(ifaces := t.ifaces, ips := t.ips)
    && (forall i | i in t.ifaces :: i in s.ifaces && t.ifaces[i] == s.ifaces[i])
    && (forall i | i in s.ifaces && i !in t.ifaces :: IsVmk(s.ifaces[i], dev))
    && (forall i | i in t.ips :: i in s.ips && t.ips[i] == s.ips[i])
    && (forall i | i in s.ips && i !in t.ips :: OnVmk(s.ifaces, s.ips[i].iface, dev))
  }

  /** The device got the platform and the address of its remote board, or nothing happened. */
  ghost predicate OnlyDataWritten(s: Store, t: Store, dev: Id, platform: int) {
    || t == s
    || (&& dev in s.devices && OobIp(FinalIfaces(s.ifaces, dev), FinalIps(s, dev), dev).Some?
        && t == s.(devices := s.devices[dev := WithData(s, dev, platform)]))
  }

  ghost function WithData(s: Store, dev: Id, platform: int): Device
    requires dev in s.devices && OobIp(FinalIfaces(s.ifaces, dev), FinalIps(s, dev), dev).Some?
  {
    s.devices[dev].(platform := platform, oob := OobIp(FinalIfaces(s.ifaces, dev), FinalIps(s, dev), dev).value)
  }

  /** Some addresses on this interface are gone, and nothing else happened. */
  predicate OnlyIpsRemoved(s: Store, t: Store, f: Id) {
    && t == s.(ips := t.ips)
    && (forall i | i in t.ips :: i in s.ips && t.ips[i] == s.ips[i])
    && (forall i | i in s.ips && i !in t.ips :: s.ips[i].iface == f)
  }

  lemma IpsRemoved(s: Store, t: Store, f: Id, dev: Id)
    requires OnlyIpsRemoved(s, t, f) && OnVmk(s.ifaces, f, dev)
    ensures OnlyVmkRemoved(s, t, dev)
  {
  }

  lemma RemovedThenRemoved(s: Store, t: Store, u: Store, dev: Id)
    requires OnlyVmkRemoved(s, t, dev) && OnlyVmkRemoved(t, u, dev)
    ensures OnlyVmkRemoved(s, u, dev)
  {
  }

  lemma IpRemoved(s: Store, t: Store, i: Id, f: Id)
    requires OnlyIpsRemoved(s, t, f) && i in t.ips && t.ips[i].iface == f
    ensures OnlyIpsRemoved(s, t.(ips := t.ips - {i}), f)
    ensures IpsOn(t.ips - {i}, f) == IpsOn(t.ips, f) - {i}
  {
  }

  lemma AllIpsRemoved(s: Store, t: Store, f: Id)
    requires OnlyIpsRemoved(s, t, f) && IpsOn(t.ips, f) == {}
    ensures t == s.(ips := s.ips - IpsOn(s.ips, f))
  {
    assert forall i | i in t.ips :: i !in IpsOn(t.ips, f);
  }

  lemma NoIpsRemoved(s: Store, f: Id)
    ensures OnlyIpsRemoved(s, s, f)
  {
  }

  lemma IpsStay(s: Store, t: Store, f: Id)
    requires OnlyIpsRemoved(s, t, f)
    ensures t.ifaces == s.ifaces
  {
  }

  lemma IfaceRemoved(s: Store, f: Id, dev: Id)
    requires f in s.ifaces && IsVmk(s.ifaces[f], dev)
    ensures OnlyVmkRemoved(s, s.(ifaces := s.ifaces - {f}), dev)
  {
  }

  /** The goal depends on interfaces and addresses only through their final form. */
  lemma SameGoal(s: Store, t: Store, dev: Id, platform: int)
    requires FinalIfaces(t.ifaces, dev) == FinalIfaces(s.ifaces, dev) && FinalIps(t, dev) == FinalIps(s, dev)
    requires t.dns == s.dns && t.devices == s.devices && t.bmcs == s.bmcs
    ensures Desired(t, dev, platform) == Desired(s, dev, platform)
  {
  }

  /** One more interface got its new name. */
  lemma OneRenamed(s: Store, t: Store, i: Id, dev: Id)
    requires OnlyBoardRenamed(s, t, dev) && i in t.ifaces && IsVendor(t.ifaces[i], dev)
    ensures OnlyBoardRenamed(s, t.(ifaces := t.ifaces[i := Renamed(t.ifaces[i], dev)]), dev)
    ensures !NoVendor(s, dev)
  {
    assert IsVendor(s.ifaces[i], dev);
  }

  lemma RenamedLeaves(s: Store, t: Store, dev: Id, platform: int)
    requires OnlyBoardRenamed(s, t, dev)
    ensures PassLeaves(s, t, dev, platform)
  {
    assert FinalIfaces(t.ifaces, dev) == FinalIfaces(s.ifaces, dev);
    assert FinalIps(t, dev) == FinalIps(s, dev);
    RenamedKeepsBoardIps(s, t, dev);
  }

  lemma RemovedKeepsFinalIfaces(s: Store, t: Store, dev: Id)
    requires OnlyVmkRemoved(s, t, dev)
    ensures FinalIfaces(t.ifaces, dev) == FinalIfaces(s.ifaces, dev)
  {
  }

  lemma RemovedKeepsFinalIps(s: Store, t: Store, dev: Id)
    requires OnlyVmkRemoved(s, t, dev) && ReferencesHold(t)
    ensures FinalIps(t, dev) == FinalIps(s, dev)
  {
    forall i | i in t.ips ensures OnVmk(t.ifaces, t.ips[i].iface, dev) <==> OnVmk(s.ifaces, s.ips[i].iface, dev) {
      assert t.ips[i].iface in t.ifaces;
    }
  }

  lemma {:induction false} RemovedLeaves(s: Store, t: Store, dev: Id, platform: int)
    requires OnlyVmkRemoved(s, t, dev) && ReferencesHold(t)
    ensures PassLeaves(s, t, dev, platform)
  {
    RemovedKeepsFinalIfaces(s, t, dev);
    RemovedKeepsFinalIps(s, t, dev);
    SameGoal(s, t, dev, platform);
    RemovedKeepsBoardIps(s, t, dev);
  }

  lemma WrittenLeaves(s: Store, t: Store, dev: Id, platform: int)
    requires OnlyDataWritten(s, t, dev, platform)
    ensures PassLeaves(s, t, dev, platform)
  {
    assert BoardIps(t, dev) == BoardIps(s, dev);
    assert FinalIps(t, dev) == FinalIps(s, dev);
  }

  lemma PatchedLeaves(s: Store, t: Store, dev: Id, platform: int)
    requires t == s.(bmcs := s.bmcs) || t == s.(bmcs := Desired(s, dev, platform).bmcs)
    ensures PassLeaves(s, t, dev, platform)
  {
    assert BoardIps(t, dev) == BoardIps(s, dev);
    assert FinalIps(t, dev) == FinalIps(s, dev);
  }

  /** The remote board's address is the same before and after the vmk interfaces go. */
  lemma BoardIpIsOobIp(s: Store, dev: Id, b: Id, ip: Id)
    requires NoVendor(s, dev)
    requires Boards(s.ifaces, dev) == {b} && IpsOn(s.ips, b) == {ip}
    ensures OobIp(FinalIfaces(s.ifaces, dev), FinalIps(s, dev), dev) == Some(ip)
  {
    var ifaces, ips := FinalIfaces(s.ifaces, dev), FinalIps(s, dev);
    assert b in Boards(s.ifaces, dev) && ip in IpsOn(s.ips, b);
    assert Boards(ifaces, dev) == {b};
    assert IpsOn(ips, b) == {ip};
    assert IsOobIp(ifaces, ips, dev, ip);
    var r := OobIp(ifaces, ips, dev);
    var b' :| Boards(ifaces, dev) == {b'} && IpsOn(ips, b') == {r.value};
    assert b' in {b} && r.value in {ip};
  }

  // ---------- which devices can pass ----------

  /** The interface has the remote board's name or is about to get it. */
  predicate IsBoardlike(x: Port, dev: Id) { IsVendor(x, dev) || IsBoard(x, dev) }

  /** These interfaces, each with its addresses. */
  function BoardIps(s: Store, dev: Id): map<Id, set<Id>> {
    map i | i in s.ifaces && IsBoardlike(s.ifaces[i], dev) :: IpsOn(s.ips, i)
  }

  predicate IsOnly(m: map<Id, set<Id>>, b: Id, ip: Id) { m == map[b := {ip}] }

  /** Exactly one interface is named as the remote board or by a vendor, and exactly one address is on it (`BoardIpsOf`). */
  ghost predicate Passable(s: Store, dev: Id) { exists b, ip :: IsOnly(BoardIps(s, dev), b, ip) }

  /** The same with the remote board alone, once nothing is left to rename. */
  ghost predicate BoardReady(s: Store, dev: Id) { exists b, ip :: IsBoardAddress(s, dev, b, ip) }

  predicate IsBoardAddress(s: Store, dev: Id, b: Id, ip: Id) { Boards(s.ifaces, dev) == {b} && IpsOn(s.ips, b) == {ip} }

  /** An interface to be renamed is alone: no second one, and no remote board beside it. */
  predicate Renameable(s: Store, dev: Id) {
    forall i | i in s.ifaces && IsVendor(s.ifaces[i], dev) :: BoardIps(s, dev).Keys == {i}
  }

  /** An interface is still to be renamed, but the name is taken. */
  predicate Blocked(s: Store, dev: Id) { !NoVendor(s, dev) && Boards(s.ifaces, dev) != {} }

  lemma PassableMeaning(s: Store, dev: Id)
    ensures Passable(s, dev) <==> exists b, ip :: SoleBoard(s, dev, b, ip)
  {
    hide SoleBoard, IsOnly, BoardIps;
    forall b, ip ensures SoleBoard(s, dev, b, ip) <==> IsOnly(BoardIps(s, dev), b, ip) { BoardIpsOf(s, dev, b, ip); }
  }

  lemma PassableIsRenameable(s: Store, dev: Id)
    requires Passable(s, dev)
    ensures Renameable(s, dev)
  {
    var b, ip :| IsOnly(BoardIps(s, dev), b, ip);
    forall i | i in s.ifaces && IsVendor(s.ifaces[i], dev) ensures i == b { assert i in BoardIps(s, dev); }
  }

  lemma RenamedConsistent(s: Store, i: Id, dev: Id)
    requires Consistent(s) && i in s.ifaces && IsVendor(s.ifaces[i], dev) && Boards(s.ifaces, dev) == {}
    ensures Consistent(s.(ifaces := s.ifaces[i := s.ifaces[i].(name := Remoteboard)]))
  {
    assert forall j | j in s.ifaces && IsBoard(s.ifaces[j], dev) :: j in Boards(s.ifaces, dev);
  }

  /** The interfaces still to be looked at are of this device, and no vendor-named one is missing among them. */
  predicate StillToDo(s: Store, dev: Id, rest: set<Id>) {
    && (forall i | i in rest :: i in s.ifaces && s.ifaces[i].device == dev)
    && (forall i | i in s.ifaces && IsVendor(s.ifaces[i], dev) :: i in rest)
  }

  lemma OneLess(s: Store, dev: Id, rest: set<Id>, i: Id)
    requires StillToDo(s, dev, rest) && i in rest
    ensures i in s.ifaces && s.ifaces[i].device == dev
    ensures var t := s.(ifaces := s.ifaces[i := Renamed(s.ifaces[i], dev)]);
            StillToDo(t, dev, rest - {i}) && (!s.ifaces[i].name.Vendor? ==> StillToDo(s, dev, rest - {i}))
  {
  }

  lemma AllDone(s: Store, dev: Id)
    requires StillToDo(s, dev, {})
    ensures NoVendor(s, dev)
  {
  }

  lemma NothingDone(s: Store, dev: Id)
    ensures OnlyBoardRenamed(s, s, dev) && OnlyVmkRemoved(s, s, dev)
  {
  }

  lemma RenamedKeepsBoardIps(s: Store, t: Store, dev: Id)
    requires OnlyBoardRenamed(s, t, dev)
    ensures BoardIps(t, dev) == BoardIps(s, dev)
  {
  }

  lemma RemovedKeepsBoardIps(s: Store, t: Store, dev: Id)
    requires OnlyVmkRemoved(s, t, dev)
    ensures BoardIps(t, dev) == BoardIps(s, dev)
  {
    forall i | i in s.ifaces && IsBoardlike(s.ifaces[i], dev) ensures i in t.ifaces && IpsOn(t.ips, i) == IpsOn(s.ips, i) {
    }
  }

  /** Renaming is over only on a device that it could be done on. */
  lemma RenamedWasRenameable(s: Store, t: Store, dev: Id)
    requires OnlyBoardRenamed(s, t, dev) && Consistent(t) && NoVendor(t, dev)
    ensures Renameable(s, dev)
  {
    RenamedKeepsBoardIps(s, t, dev);
    forall i | i in s.ifaces && IsVendor(s.ifaces[i], dev) ensures BoardIps(s, dev).Keys == {i} {
      assert i in BoardIps(t, dev);
      assert forall j | j in BoardIps(t, dev) :: t.ifaces[j].name == t.ifaces[i].name;
    }
  }

  /** A name that is taken when one more interface is to get it was taken, or wanted twice, from the beginning. */
  lemma BlockedWasNotRenameable(s: Store, t: Store, dev: Id)
    requires OnlyBoardRenamed(s, t, dev) && Blocked(t, dev)
    ensures !Renameable(s, dev)
  {
    RenamedKeepsBoardIps(s, t, dev);
    var i :| i in t.ifaces && IsVendor(t.ifaces[i], dev);
    var j :| j in Boards(t.ifaces, dev);
    assert i in BoardIps(t, dev) && j in BoardIps(t, dev);
    assert IsVendor(s.ifaces[i], dev);
  }

  lemma CleanPassable(s: Store, dev: Id)
    requires NoVendor(s, dev)
    ensures Passable(s, dev) <==> BoardReady(s, dev)
  {
    var m := BoardIps(s, dev);
    assert forall i | i in m :: m[i] == IpsOn(s.ips, i);
    assert m.Keys == Boards(s.ifaces, dev);
    if BoardReady(s, dev) {
      var b, ip :| IsBoardAddress(s, dev, b, ip);
      assert b in m.Keys;
      assert IsOnly(m, b, ip);
    }
    if Passable(s, dev) {
      var b: Id, ip: Id :| IsOnly(m, b, ip);
      assert b in m && m[b] == {ip};
      assert IsBoardAddress(s, dev, b, ip);
    }
  }

  /** Two interfaces with such names, of vendors or of a vendor and the remote board, shut a device out. */
  lemma TwoBoardsDoNotPass(s: Store, dev: Id, i: Id, j: Id)
    requires i in s.ifaces && IsBoardlike(s.ifaces[i], dev) && j in s.ifaces && IsBoardlike(s.ifaces[j], dev) && i != j
    ensures !Passable(s, dev)
  {
    assert i in BoardIps(s, dev) && j in BoardIps(s, dev);
  }

  // ---------- how many calls the work in NetBox takes ----------

  function VendorIfaces(s: Store, dev: Id): set<Id> { set i | i in s.ifaces && IsVendor(s.ifaces[i], dev) }

  function VmkIfaces(s: Store, dev: Id): set<Id> { set i | i in s.ifaces && IsVmk(s.ifaces[i], dev) }

  function VmkIps(s: Store, dev: Id): set<Id> { set i | i in s.ips && OnVmk(s.ifaces, s.ips[i].iface, dev) }

  /** Two calls for each vmk interface, to list its addresses and to delete it, and one for each address on one. */
  function VmkCalls(s: Store, dev: Id): nat { 2 * |VmkIfaces(s, dev)| + |VmkIps(s, dev)| }

  /**
   The first three stages: two lists of the interfaces, the reads of the remote board, its address and the platform, the
   renames, the write of the device if it is not as desired, and the removal of the vmk interfaces.
   */
  ghost function NetboxCalls(s: Store, dev: Id, platform: int): nat {
    1 + |VendorIfaces(s, dev)| + DataCalls(s, dev, platform) + 1 + VmkCalls(s, dev)
  }

  ghost function DataCalls(s: Store, dev: Id, platform: int): nat {
    if Desired(s, dev, platform).devices == s.devices then 3 else 4
  }

  lemma OneVendorLess(s: Store, i: Id, dev: Id)
    requires i in s.ifaces && IsVendor(s.ifaces[i], dev)
    ensures var t := s.(ifaces := s.ifaces[i := Renamed(s.ifaces[i], dev)]);
            |VendorIfaces(t, dev)| + 1 == |VendorIfaces(s, dev)|
  {
    var t := s.(ifaces := s.ifaces[i := Renamed(s.ifaces[i], dev)]);
    assert VendorIfaces(t, dev) == VendorIfaces(s, dev) - {i};
  }

  lemma NoVendorIfaces(s: Store, dev: Id)
    requires NoVendor(s, dev)
    ensures VendorIfaces(s, dev) == {}
  {
  }

  lemma NoVmkCalls(s: Store, dev: Id)
    requires NoVmk(s, dev)
    ensures VmkCalls(s, dev) == 0
  {
    assert VmkIfaces(s, dev) == {} && VmkIps(s, dev) == {};
  }

  lemma OneVmkLess(s: Store, f: Id, dev: Id)
    requires OnVmk(s.ifaces, f, dev)
    ensures var t := s.(ifaces := s.ifaces - {f}, ips := s.ips - IpsOn(s.ips, f));
            VmkCalls(t, dev) + 2 + |IpsOn(s.ips, f)| == VmkCalls(s, dev)
  {
    var t := s.(ifaces := s.ifaces - {f}, ips := s.ips - IpsOn(s.ips, f));
    assert VmkIfaces(t, dev) == VmkIfaces(s, dev) - {f};
    assert VmkIps(t, dev) == VmkIps(s, dev) - IpsOn(s.ips, f);
    assert IpsOn(s.ips, f) <= VmkIps(s, dev);
  }

  lemma RenamedKeepsCalls(s: Store, t: Store, dev: Id)
    requires OnlyBoardRenamed(s, t, dev)
    ensures VmkCalls(t, dev) == VmkCalls(s, dev)
  {
    assert VmkIfaces(t, dev) == VmkIfaces(s, dev) && VmkIps(t, dev) == VmkIps(s, dev);
  }

  lemma WrittenKeepsCalls(s: Store, t: Store, dev: Id, platform: int)
    requires OnlyDataWritten(s, t, dev, platform)
    ensures VmkCalls(t, dev) == VmkCalls(s, dev)
  {
    assert VmkIfaces(t, dev) == VmkIfaces(s, dev) && VmkIps(t, dev) == VmkIps(s, dev);
  }

  /** Whether the device has to be written. */
  lemma DataNeeded(s: Store, dev: Id, platform: int, ip: Id)
    requires dev in s.devices && OobIp(FinalIfaces(s.ifaces, dev), FinalIps(s, dev), dev) == Some(ip)
    ensures DataCalls(s, dev, platform) == if s.devices[dev].platform != platform || s.devices[dev].oob != ip then 4 else 3
  {
    var d := s.devices[dev].(platform := platform, oob := ip);
    assert Desired(s, dev, platform).devices == s.devices[dev := d];
    if d == s.devices[dev] { assert s.devices[dev := d] == s.devices; }
  }

  /**
   Exactly when a pass that begins with call c skips the hostname and reports success: the device can pass, no call of the
   work in NetBox fails, and then one of the two reads for the hostname does.
   */
  ghost predicate Skips(s: Store, dev: Id, platform: int, replies: Replies, c: nat) {
    var h := c + NetboxCalls(s, dev, platform);
    Passable(s, dev) && Answered(replies, c, h) && !(replies[h].Done? && replies[h + 1].Done?)
  }

  /** Some pass that began at a store left by earlier passes skipped the hostname. */
  ghost predicate SkippedSome(before: Store, dev: Id, platform: int, replies: Replies, from: nat, end: nat) {
    exists t, c: nat :: from <= c <= end && PassLeaves(before, t, dev, platform) && Skips(t, dev, platform, replies, c)
  }

  // ---------- retry ----------

  /** How many of the calls with these numbers failed. */
  function Failures(replies: Replies, from: nat, end: nat): nat
    decreases end
  {
    if end <= from then 0 else Failures(replies, from, end - 1) + if replies[end - 1].Done? then 0 else 1
  }

  lemma {:induction false} FailuresParts(replies: Replies, from: nat, mid: nat, end: nat)
    requires from <= mid <= end
    ensures Failures(replies, from, end) == Failures(replies, from, mid) + Failures(replies, mid, end)
    decreases end
  {
    if mid < end { FailuresParts(replies, from, mid, end - 1); }
  }

  lemma {:induction false} NoFailures(replies: Replies, from: nat, end: nat)
    ensures Failures(replies, from, end) == 0 <==> Answered(replies, from, end)
    decreases end
  {
    if from < end { NoFailures(replies, from, end - 1); }
  }

  /** What one pass may leave: a store with the same goal, on which a pass can succeed if it could before. */
  ghost predicate PassLeaves(before: Store, after: Store, dev: Id, platform: int) {
    Desired(after, dev, platform) == Desired(before, dev, platform) && BoardIps(after, dev) == BoardIps(before, dev)
  }

  lemma PassableStays(before: Store, after: Store, dev: Id, platform: int)
    requires PassLeaves(before, after, dev, platform)
    ensures Passable(after, dev) <==> Passable(before, dev)
  {
  }

  /** One stage of a pass, complete or cut short anywhere. */
  ghost predicate StageDone(s: Store, t: Store, dev: Id, platform: int) {
    || OnlyBoardRenamed(s, t, dev)
    || OnlyDataWritten(s, t, dev, platform)
    || (OnlyVmkRemoved(s, t, dev) && ReferencesHold(t))
    || t == s.(bmcs := Desired(s, dev, platform).bmcs)
  }

  lemma StageLeaves(s: Store, t: Store, dev: Id, platform: int)
    requires StageDone(s, t, dev, platform)
    ensures PassLeaves(s, t, dev, platform)
  {
    if OnlyBoardRenamed(s, t, dev) {
      RenamedLeaves(s, t, dev, platform);
    } else if OnlyDataWritten(s, t, dev, platform) {
      WrittenLeaves(s, t, dev, platform);
    } else if OnlyVmkRemoved(s, t, dev) && ReferencesHold(t) {
      RemovedLeaves(s, t, dev, platform);
    } else {
      PatchedLeaves(s, t, dev, platform);
    }
  }

  /**
   However many stages of however many passes were done or cut short, in whatever order: the goal is still that of the
   first store, and the device can pass if and only if it could at first.
   */
  lemma {:induction false} RetriesConverge(runs: seq<Store>, dev: Id, platform: int)
    requires |runs| > 0 && forall i | 0 <= i < |runs| - 1 :: StageDone(runs[i], runs[i + 1], dev, platform)
    ensures Desired(runs[|runs| - 1], dev, platform) == Desired(runs[0], dev, platform)
    ensures Passable(runs[|runs| - 1], dev) <==> Passable(runs[0], dev)
  {
    if |runs| > 1 {
      RetriesConverge(runs[..|runs| - 1], dev, platform);
      assert StageDone(runs[|runs| - 2], runs[|runs| - 1], dev, platform);
      StageLeaves(runs[|runs| - 2], runs[|runs| - 1], dev, platform);
    }
  }

  // ---------- the controller ----------

  class Updater {
    var s: Store
    const platform: int
    const replies: Replies
    /** The number of calls made so far. */
    var calls: nat
    ghost var writes: nat

    constructor (s: Store, platform: int, replies: Replies)
      ensures this.s == s && this.platform == platform && this.replies == replies && calls == 0 && writes == 0
    {
      this.s := s;
      this.platform := platform;
      this.replies := replies;
      this.calls := 0;
      this.writes := 0;
    }

    ghost predicate Valid()
      reads this
    {
      Consistent(s)
    }

    // ---------- API calls; every state the stores go through is the result of one of them ----------

    method Call() returns (reply: Reply)
      modifies `calls
      ensures calls == old(calls) + 1 && reply == replies[old(calls)]
    {
      reply := replies[calls];
      calls := calls + 1;
    }

    /** The lists NetBox returns are worked off in whatever order they come, so they are sets here. */
    method GetInterfaces(dev: Id) returns (r: Option<set<Id>>)
      modifies `calls
      ensures calls == old(calls) + 1 && (r.Some? <==> replies[old(calls)].Done?)
      ensures r.Some? ==> forall i :: i in r.value <==> i in s.ifaces && s.ifaces[i].device == dev
    {
      var reply := Call();
      r := if reply.Done? then Some(set i | i in s.ifaces && s.ifaces[i].device == dev) else None;
    }

    /** The interface of that name, the first one NetBox lists; an error if there is none. */
    method GetBoard(dev: Id) returns (r: Option<Id>)
      requires Valid()
      modifies `calls
      ensures calls == old(calls) + 1 && (r.Some? <==> replies[old(calls)].Done? && Boards(s.ifaces, dev) != {})
      ensures r.Some? ==> Boards(s.ifaces, dev) == {r.value}
    {
      var reply := Call();
      var ids := Boards(s.ifaces, dev);
      if reply != Done || ids == {} { return None; }
      var i :| i in ids;
      r := Some(i);
      assert forall j | j in ids :: j == i;
    }

    method GetIPs(iface: Id) returns (r: Option<set<Id>>)
      modifies `calls
      ensures calls == old(calls) + 1
      ensures r == if replies[old(calls)].Done? then Some(IpsOn(s.ips, iface)) else None
    {
      var reply := Call();
      r := if reply.Done? then Some(IpsOn(s.ips, iface)) else None;
    }

    /** `GetIPAddressForInterface`: an error unless there is exactly one. */
    method GetOneIP(iface: Id) returns (r: Option<Id>)
      modifies `calls
      ensures calls == old(calls) + 1 && (r.Some? <==> replies[old(calls)].Done? && |IpsOn(s.ips, iface)| == 1)
      ensures r.Some? ==> IpsOn(s.ips, iface) == {r.value}
    {
      var ids := GetIPs(iface);
      if ids.None? || |ids.value| != 1 { return None; }
      var i :| i in ids.value;
      SingletonSet(ids.value, i);
      r := Some(i);
    }

    /** NetBox refuses a name that another interface of the device has. */
    method RenameInterface(i: Id, dev: Id) returns (ok: bool)
      requires Valid() && i in s.ifaces && IsVendor(s.ifaces[i], dev)
      modifies this
      ensures Valid() && writes == old(writes) + 1 && calls == old(calls) + 1
      ensures ok <==> replies[old(calls)].Done? && Boards(old(s).ifaces, dev) == {}
      ensures s == if replies[old(calls)].Refused? || Boards(old(s).ifaces, dev) != {} then old(s)
                   else old(s).(ifaces := old(s).ifaces[i := Renamed(old(s).ifaces[i], dev)])
    {
      writes := writes + 1;
      var reply := Call();
      if reply.Refused? || Boards(s.ifaces, dev) != {} { return false; }
      RenamedConsistent(s, i, dev);
      hide Consistent;
      s := s.(ifaces := s.ifaces[i := s.ifaces[i].(name := Remoteboard)]);
      return reply.Done?;
    }

    method UpdateDevice(d: Device) returns (ok: bool)
      requires Valid() && d.id in s.devices
      modifies this
      ensures Valid() && writes == old(writes) + 1 && calls == old(calls) + 1 && (ok <==> replies[old(calls)].Done?)
      ensures s == if replies[old(calls)].Refused? then old(s) else old(s).(devices := old(s).devices[d.id := d])
    {
      writes := writes + 1;
      var reply := Call();
      if reply.Refused? { return false; }
      s := s.(devices := s.devices[d.id := d]);
      return reply.Done?;
    }

    method DeleteIP(i: Id) returns (ok: bool)
      requires Valid() && i in s.ips
      modifies this
      ensures Valid() && writes == old(writes) + 1 && calls == old(calls) + 1 && (ok <==> replies[old(calls)].Done?)
      ensures s == if replies[old(calls)].Refused? then old(s) else old(s).(ips := old(s).ips - {i})
    {
      writes := writes + 1;
      var reply := Call();
      if reply.Refused? { return false; }
      s := s.(ips := s.ips - {i});
      return reply.Done?;
    }

    /** The controller may delete an interface only when no address record refers to it. */
    method DeleteInterface(i: Id) returns (ok: bool)
      requires Valid() && i in s.ifaces && IpsOn(s.ips, i) == {}
      modifies this
      ensures Valid() && writes == old(writes) + 1 && calls == old(calls) + 1 && (ok <==> replies[old(calls)].Done?)
      ensures s == if replies[old(calls)].Refused? then old(s) else old(s).(ifaces := old(s).ifaces - {i})
    {
      writes := writes + 1;
      var reply := Call();
      if reply.Refused? { return false; }
      assert forall k | k in s.ips :: s.ips[k].iface != i;
      s := s.(ifaces := s.ifaces - {i});
      return reply.Done?;
    }

    method PatchBmc(name: string, host: string) returns (ok: bool)
      requires Valid() && name in s.bmcs
      modifies this
      ensures Valid() && writes == old(writes) + 1 && calls == old(calls) + 1 && (ok <==> replies[old(calls)].Done?)
      ensures s == if replies[old(calls)].Refused? then old(s) else old(s).(bmcs := old(s).bmcs[name := Some(host)])
    {
      writes := writes + 1;
      var reply := Call();
      if reply.Refused? { return false; }
      s := s.(bmcs := s.bmcs[name := Some(host)]);
      return reply.Done?;
    }

    // ---------- the four stages ----------

    /** The loop over the interfaces. */
    method RenameEach(ids: set<Id>, dev: Id) returns (ok: bool)
      requires Valid() && StillToDo(s, dev, ids)
      modifies this
      ensures Valid() && old(calls) <= calls && OnlyBoardRenamed(old(s), s, dev)
      ensures if ok then NoVendor(s, dev) && Answered(replies, old(calls), calls)
              else old(calls) < calls && (replies[calls - 1].Done? ==> Blocked(s, dev))
      ensures NoVendor(old(s), dev) ==> s == old(s) && writes == old(writes)
      ensures calls <= old(calls) + |VendorIfaces(old(s), dev)| && (ok ==> calls == old(calls) + |VendorIfaces(old(s), dev)|)
    {
      hide Consistent, StillToDo, OnlyBoardRenamed, VendorIfaces;
      var rest := ids;
      NothingDone(s, dev);
      while rest != {}
        invariant Valid() && old(calls) <= calls && Answered(replies, old(calls), calls)
        invariant OnlyBoardRenamed(old(s), s, dev) && StillToDo(s, dev, rest)
        invariant NoVendor(old(s), dev) ==> s == old(s) && writes == old(writes)
        invariant calls + |VendorIfaces(s, dev)| == old(calls) + |VendorIfaces(old(s), dev)|
        decreases rest
      {
        var i :| i in rest;
        OneLess(s, dev, rest, i);
        rest := rest - {i};
        if s.ifaces[i].name.Vendor? {
          OneRenamed(old(s), s, i, dev);
          OneVendorLess(s, i, dev);
          ok := RenameInterface(i, dev);
          if !ok { return; }
        }
      }
      AllDone(s, dev);
      NoVendorIfaces(s, dev);
      return true;
    }

    /**
     `renameRemoteboardInterface`.  An interface can be renamed only if it is alone: beside a second one to be renamed, or
     beside a remote board, the name is taken.
     */
    method RenameBoard(dev: Id) returns (ok: bool)
      requires Valid()
      modifies this
      ensures Valid() && old(calls) < calls && OnlyBoardRenamed(old(s), s, dev)
      ensures ok ==> NoVendor(s, dev)
      ensures ok <==> Renameable(old(s), dev) && Answered(replies, old(calls), calls)
      ensures NoVendor(old(s), dev) ==> s == old(s) && writes == old(writes)
      ensures calls <= old(calls) + 1 + |VendorIfaces(old(s), dev)|
      ensures ok ==> calls == old(calls) + 1 + |VendorIfaces(old(s), dev)|
    {
      hide VendorIfaces;
      var list := GetInterfaces(dev);
      if list.None? { return false; }
      ghost var c := calls;
      ok := RenameEach(list.value, dev);
      AnsweredParts(replies, old(calls), c, calls);
      if ok {
        RenamedWasRenameable(old(s), s, dev);
      } else {
        if Blocked(s, dev) { BlockedWasNotRenameable(old(s), s, dev); }
      }
    }

    /** The remote board and the one address on it: found exactly when both reads are answered and both exist once. */
    method BoardAddress(dev: Id) returns (ip: Option<Id>)
      requires Valid() && NoVendor(s, dev)
      modifies `calls
      ensures old(calls) < calls <= old(calls) + 2
      ensures ip.Some? <==> replies[old(calls)].Done? && replies[old(calls) + 1].Done? && BoardReady(s, dev)
      ensures ip.Some? <==> Answered(replies, old(calls), calls) && BoardReady(s, dev)
      ensures ip.Some? ==> calls == old(calls) + 2 && OobIp(FinalIfaces(s.ifaces, dev), FinalIps(s, dev), dev) == ip
    {
      hide Consistent, FinalIfaces, FinalIps, OobIp;
      ghost var c := calls;
      ip := None;
      var board := GetBoard(dev);
      if board.None? { return; }
      ip := GetOneIP(board.value);
      AnsweredParts(replies, c, c + 1, c + 2);
      AnsweredMeaning(replies, c, c + 2);
      if ip.Some? {
        BoardIpIsOobIp(s, dev, board.value, ip.value);
        assert IsBoardAddress(s, dev, board.value, ip.value);
      } else if BoardReady(s, dev) {
        var b, a :| IsBoardAddress(s, dev, b, a);
        assert b in Boards(s.ifaces, dev) && b == board.value;
      }
    }

    /** `updateDeviceData`, on the copy of the device that was read. */
    method UpdateData(device: Device) returns (ok: bool)
      requires Valid() && device.id in s.devices && s.devices[device.id] == device && NoVendor(s, device.id)
      modifies this
      ensures Valid() && old(calls) < calls && OnlyDataWritten(old(s), s, device.id, platform)
      ensures ok ==> && OobIp(FinalIfaces(s.ifaces, device.id), FinalIps(s, device.id), device.id).Some?
                     && device.id in s.devices && s.devices[device.id] == WithData(s, device.id, platform)
      ensures ok <==> BoardReady(old(s), device.id) && Answered(replies, old(calls), calls)
      ensures Desired(old(s), device.id, platform).devices == old(s).devices ==> s == old(s) && writes == old(writes)
      ensures calls <= old(calls) + DataCalls(old(s), device.id, platform)
      ensures ok ==> calls == old(calls) + DataCalls(old(s), device.id, platform)
    {
      hide Consistent, FinalIfaces, OobIp, BoardReady;
      ghost var c, before := calls, s;
      var ip := BoardAddress(device.id);
      if ip.None? { return false; }
      DataNeeded(s, device.id, platform, ip.value);
      hide DataCalls;
      ghost var c' := calls;
      var reply := Call();
      AnsweredParts(replies, c, c', calls);
      if reply != Done { return false; }
      if device.platform != platform || device.oob != ip.value {
        ok := UpdateDevice(device.(platform := platform, oob := ip.value));
        AnsweredParts(replies, c, calls - 1, calls);
        assert FinalIps(s, device.id) == FinalIps(before, device.id);
      } else {
        ok := true;
      }
    }

    /** The loop over the addresses of one vmk interface. */
    method RemoveIPs(f: Id, dev: Id) returns (ok: bool)
      requires Valid() && f in s.ifaces && IsVmk(s.ifaces[f], dev)
      modifies this
      ensures Valid() && old(calls) < calls && OnlyIpsRemoved(old(s), s, f)
      ensures ok ==> s == old(s).(ips := old(s).ips - IpsOn(old(s).ips, f)) && IpsOn(s.ips, f) == {}
      ensures ok <==> Answered(replies, old(calls), calls)
      ensures calls <= old(calls) + 1 + |IpsOn(old(s).ips, f)| && (ok ==> calls == old(calls) + 1 + |IpsOn(old(s).ips, f)|)
    {
      hide Consistent, OnlyIpsRemoved, IsVmk;
      NoIpsRemoved(s, f);
      var list := GetIPs(f);
      if list.None? { return false; }
      var rest := list.value;
      while rest != {}
        invariant Valid() && old(calls) < calls && OnlyIpsRemoved(old(s), s, f)
        invariant Answered(replies, old(calls), calls)
        invariant rest == IpsOn(s.ips, f) && calls + |rest| == old(calls) + 1 + |IpsOn(old(s).ips, f)|
        decreases rest
      {
        var i :| i in rest;
        rest := rest - {i};
        IpRemoved(old(s), s, i, f);
        ok := DeleteIP(i);
        if !ok { return; }
      }
      AllIpsRemoved(old(s), s, f);
      return true;
    }

    /** The inner part of `removeVMKInterfacesAndIPs`: all addresses of one vmk interface, then the interface. */
    method RemoveInterface(f: Id, dev: Id) returns (ok: bool)
      requires Valid() && f in s.ifaces && IsVmk(s.ifaces[f], dev)
      modifies this
      ensures Valid() && old(calls) < calls && OnlyVmkRemoved(old(s), s, dev)
      ensures s.ifaces == old(s).ifaces || s.ifaces == old(s).ifaces - {f}
      ensures OnlyIpsRemoved(old(s), s.(ifaces := old(s).ifaces), f)
      ensures ok ==> s == old(s).(ifaces := old(s).ifaces - {f}, ips := old(s).ips - IpsOn(old(s).ips, f))
      ensures ok <==> Answered(replies, old(calls), calls)
      ensures calls <= old(calls) + 2 + |IpsOn(old(s).ips, f)| && (ok ==> calls == old(calls) + 2 + |IpsOn(old(s).ips, f)|)
    {
      hide Consistent, OnlyVmkRemoved, OnlyIpsRemoved, IsVmk;
      ghost var c := calls;
      ok := RemoveIPs(f, dev);
      IpsRemoved(old(s), s, f, dev);
      assert s.ifaces == old(s).ifaces by { IpsStay(old(s), s, f); }
      if !ok { return; }
      IfaceRemoved(s, f, dev);
      RemovedThenRemoved(old(s), s, s.(ifaces := s.ifaces - {f}), dev);
      ok := DeleteInterface(f);
      AnsweredParts(replies, c, calls - 1, calls);
    }

    /** `removeVMKInterfacesAndIPs`. */
    method RemoveVmk(dev: Id) returns (ok: bool)
      requires Valid()
      modifies this
      ensures Valid() && old(calls) < calls && OnlyVmkRemoved(old(s), s, dev)
      ensures ok ==> NoVmk(s, dev)
      ensures ok <==> Answered(replies, old(calls), calls)
      ensures NoVmk(old(s), dev) ==> s == old(s) && writes == old(writes)
      ensures calls <= old(calls) + 1 + VmkCalls(old(s), dev) && (ok ==> calls == old(calls) + 1 + VmkCalls(old(s), dev))
    {
      hide Consistent, OnVmk, OnlyVmkRemoved, VmkCalls, OnlyIpsRemoved;
      NothingDone(s, dev);
      var list := GetInterfaces(dev);
      if list.None? { return false; }
      var rest := list.value;
      var hasVmkInterfaces := false;
      while rest != {}
        invariant Valid() && old(calls) < calls && OnlyVmkRemoved(old(s), s, dev)
        invariant rest <= s.ifaces.Keys && forall i | i in s.ifaces && IsVmk(s.ifaces[i], dev) :: i in rest
        invariant forall i | i in rest :: s.ifaces[i].device == dev
        invariant Answered(replies, old(calls), calls)
        invariant !hasVmkInterfaces ==> s == old(s) && writes == old(writes)
        invariant NoVmk(old(s), dev) ==> !hasVmkInterfaces
        invariant calls + VmkCalls(s, dev) == old(calls) + 1 + VmkCalls(old(s), dev)
        decreases rest
      {
        var i :| i in rest;
        rest := rest - {i};
        if s.ifaces[i].name.Vmk? {
          hasVmkInterfaces := true;
          ghost var before, c := s, calls;
          OneVmkLess(s, i, dev);
          ok := RemoveInterface(i, dev);
          RemovedThenRemoved(old(s), before, s, dev);
          AnsweredParts(replies, old(calls), c, calls);
          if !ok { return; }
        }
      }
      NoVmkCalls(s, dev);
      return true;
    }

    /**
     `updateBMCHostname`: a hostname that cannot be read is skipped, and the call is still a success.  That is so exactly
     when one of its two reads fails or does not find the one address of the remote board.
     */
    method UpdateHostname(device: Device) returns (ok: bool, ghost skipped: bool)
      requires Valid() && device.id in s.devices && s.devices[device.id].name == device.name && NoVendor(s, device.id)
      modifies this
      ensures Valid() && old(calls) < calls
      ensures s == old(s) || s == old(s).(bmcs := Desired(old(s), device.id, platform).bmcs)
      ensures ok && !skipped ==> s == old(s).(bmcs := Desired(old(s), device.id, platform).bmcs)
      ensures skipped ==> ok && s == old(s)
      ensures skipped <==> !(&& replies[old(calls)].Done? && replies[old(calls) + 1].Done?
                             && BoardReady(old(s), device.id))
      ensures ok && !skipped ==> forall b, ip | SoleBoard(old(s), device.id, b, ip) :: HostnameDone(old(s), s, device.id, ip)
      ensures BoardReady(old(s), device.id) ==> (ok && !skipped <==> Answered(replies, old(calls), calls))
      ensures Desired(old(s), device.id, platform).bmcs == old(s).bmcs ==> s == old(s) && writes == old(writes)
    {
      HostnameMeaning(s, device.id, platform);
      hide SoleBoard, HostnameDone;
      hide Consistent, FinalIfaces, FinalIps, OobIp, BoardReady, WithHostname;
      ghost var c := calls;
      var ip := BoardAddress(device.id);
      if ip.None? { return true, true; }
      skipped := false;
      var host := HostnameOf(s.dns, ip.value);
      if host == "" { return true, false; }
      ghost var c' := calls;
      ok := SetHostname(device.name, host);
      AnsweredParts(replies, c, c', calls);
    }

    /** The part of it that reads the BMC, and patches it if it has another hostname. */
    method SetHostname(name: string, host: string) returns (ok: bool)
      requires Valid()
      modifies this
      ensures Valid() && old(calls) < calls
      ensures s == old(s) || s == old(s).(bmcs := WithHostname(old(s).bmcs, name, host))
      ensures ok ==> s == old(s).(bmcs := WithHostname(old(s).bmcs, name, host))
      ensures ok <==> Answered(replies, old(calls), calls)
      ensures WithHostname(old(s).bmcs, name, host) == old(s).bmcs ==> s == old(s) && writes == old(writes)
    {
      ghost var c := calls;
      AnsweredOne(replies, c);
      AnsweredOne(replies, c + 1);
      AnsweredParts(replies, c, c + 1, c + 2);
      var reply := Call();
      if reply != Done { return false; }
      if name !in s.bmcs { return true; }
      if s.bmcs[name] == Some(host) {
        assert s.bmcs[name := Some(host)] == s.bmcs;
        return true;
      }
      assert s.bmcs[name := Some(host)][name] != s.bmcs[name];
      ok := PatchBmc(name, host);
    }

    /** The three stages in NetBox. */
    method ReconcileNetbox(device: Device) returns (ok: bool)
      requires Valid() && device.id in s.devices && s.devices[device.id] == device
      modifies this
      ensures Valid() && old(calls) < calls && PassLeaves(old(s), s, device.id, platform) && s.bmcs == old(s).bmcs
      ensures ok ==> && NoVendor(s, device.id) && s == Desired(s, device.id, platform).(bmcs := s.bmcs)
                     && device.id in s.devices && s.devices[device.id].name == device.name
      ensures ok <==> Passable(old(s), device.id) && Answered(replies, old(calls), calls)
      ensures ok <==> Passable(old(s), device.id)
                      && Answered(replies, old(calls), old(calls) + NetboxCalls(old(s), device.id, platform))
      ensures ok ==> calls == old(calls) + NetboxCalls(old(s), device.id, platform)
      ensures Desired(old(s), device.id, platform) == old(s) ==> s == old(s) && writes == old(writes)
    {
      hide Consistent, ReferencesHold, Desired, WithData, BoardReady, Passable, Renameable, BoardIps, NoVendor, NoVmk;
      hide FinalIfaces, FinalIps, OobIp, VendorIfaces, DataCalls, VmkCalls, OnlyBoardRenamed, OnlyVmkRemoved, OnlyDataWritten;
      var dev := device.id;
      ghost var s0, c0, h := s, calls, calls + NetboxCalls(s, dev, platform);
      GoalIsClean(s0, dev, platform);
      ok := RenameBoard(dev);
      AfterRename(s0, s, dev, platform);
      AnsweredParts(replies, c0, calls, h);
      if !ok { return; }
      ghost var s1, c1 := s, calls;
      ok := UpdateData(device);
      AfterWrite(s1, s, dev, platform);
      AnsweredParts(replies, c0, c1, calls);
      AnsweredParts(replies, c0, calls, h);
      if !ok { return; }
      ghost var s2, c2 := s, calls;
      ok := RemoveVmk(dev);
      AfterRemoval(s2, s, dev, platform);
      AnsweredParts(replies, c0, c2, calls);
      AnsweredParts(replies, c0, calls, h);
      if !ok { return; }
      DataStays(s2, s, dev, platform);
    }

    /**
     `reconcileDevice`, called with a freshly read copy.  Without a failed call it succeeds exactly on a device that can
     pass, and reaches the goal.  Success always means that the device could pass; it leaves the goal, except that a
     hostname whose read failed is skipped silently, exactly when `Skips` says so.  Failure anywhere leaves a store with
     the same goal, and on a store that is the goal nothing is written.
     */
    method ReconcileDevice(device: Device, status: string) returns (ok: bool, ghost skipped: bool)
      requires Valid() && device.id in s.devices && s.devices[device.id] == device
      modifies this
      ensures Valid() && old(calls) <= calls && PassLeaves(old(s), s, device.id, platform)
      ensures status !in {"active", "staged"} ==> ok && !skipped && s == old(s) && writes == old(writes) && calls == old(calls)
      ensures skipped ==> ok
      ensures status in {"active", "staged"} && ok ==>
                && Passable(old(s), device.id)
                && var goal := Desired(old(s), device.id, platform);
                   s == if skipped then goal.(bmcs := old(s).bmcs) else goal
      ensures status in {"active", "staged"} ==>
                (ok && !skipped <==> Passable(old(s), device.id) && Answered(replies, old(calls), calls))
      ensures status in {"active", "staged"} ==>
                (skipped <==> Skips(old(s), device.id, platform, replies, old(calls)))
      ensures status in {"active", "staged"} && ok ==> forall b, ip | SoleBoard(old(s), device.id, b, ip) ::
                && NetboxDone(old(s), s, device.id, platform, ip)
                && if skipped then s.bmcs == old(s).bmcs else HostnameDone(old(s), s, device.id, ip)
      ensures Desired(old(s), device.id, platform) == old(s) ==> s == old(s) && writes == old(writes)
    {
      hide Consistent, FinalIfaces, FinalIps, OobIp, BoardReady, Passable, BoardIps, NetboxCalls;
      skipped := false;
      if status !in {"active", "staged"} { return true, false; }
      ghost var s0, c0 := s, calls;
      ok := ReconcileNetbox(device);
      if !ok { return; }
      ghost var s1, c1 := s, calls;
      PassableStays(s0, s1, device.id, platform);
      CleanPassable(s1, device.id);
      ok, skipped := UpdateHostname(device);
      AnsweredParts(replies, c0, c1, calls);
      PatchedLeaves(s1, s, device.id, platform);
      if ok { GoalMeaning(s0, s, device.id, platform, skipped); }
    }

    /**
     The queue calls again after every failure, with the device as it then is, until a pass succeeds or it gives up.
     Whatever fails in between, success ends at the goal of the first store; a device that could not pass at first never
     does; and one that could is given up on only after as many failed calls as attempts.
     */
    method Requeue(dev: Id, status: string, attempts: nat) returns (ok: bool, ghost skipped: bool)
      requires Valid() && dev in s.devices && status in {"active", "staged"}
      modifies this
      ensures Valid() && old(calls) <= calls && PassLeaves(old(s), s, dev, platform)
      ensures dev in s.devices
      ensures ok ==> Passable(old(s), dev)
      ensures ok && !skipped ==> s == Desired(old(s), dev, platform)
      ensures ok && skipped ==> s == Desired(old(s), dev, platform).(bmcs := s.bmcs)
      ensures ok && !skipped ==> forall b, ip | SoleBoard(old(s), dev, b, ip) ::
                NetboxDone(old(s), s, dev, platform, ip) && HostnameDone(old(s), s, dev, ip)
      ensures attempts > 0 && Answered(replies, old(calls), calls) ==> (ok <==> Passable(old(s), dev)) && !skipped
      ensures Passable(old(s), dev) && Failures(replies, old(calls), calls) < attempts ==> ok
      ensures skipped ==> SkippedSome(old(s), dev, platform, replies, old(calls), calls)
    {
      hide Consistent, Desired, Passable, BoardIps, Skips, SkippedSome;
      ok, skipped := false, false;
      var left := attempts;
      while left > 0 && !ok
        invariant Valid() && old(calls) <= calls && dev in s.devices && PassLeaves(old(s), s, dev, platform)
        invariant ok ==> Passable(old(s), dev)
        invariant ok && !skipped ==> s == Desired(old(s), dev, platform)
        invariant ok && skipped ==> s == Desired(old(s), dev, platform).(bmcs := s.bmcs)
        invariant left < attempts && Answered(replies, old(calls), calls) ==> (ok <==> Passable(old(s), dev)) && !skipped
        invariant left <= attempts && (left == attempts ==> !ok && !skipped)
        invariant Passable(old(s), dev) && !ok ==> Failures(replies, old(calls), calls) >= attempts - left
        invariant skipped ==> ok && SkippedSome(old(s), dev, platform, replies, old(calls), calls)
      {
        ghost var before, c := s, calls;
        PassableStays(old(s), before, dev, platform);
        ConsistentIds(before, dev);
        ok, skipped := ReconcileDevice(s.devices[dev], status);
        DeviceStays(before, s, dev, platform);
        AnsweredParts(replies, old(calls), c, calls);
        FailuresParts(replies, old(calls), c, calls);
        NoFailures(replies, c, calls);
        if skipped { SkippedAt(old(s), before, dev, platform, replies, old(calls), c, calls); }
        left := left - 1;
      }
      if ok && !skipped { GoalMeaning(old(s), s, dev, platform, false); }
    }
  }

  lemma HostnameMeaning(s: Store, dev: Id, platform: int)
    requires dev in s.devices
    ensures forall b, ip | SoleBoard(s, dev, b, ip) :: HostnameDone(s, s.(bmcs := Desired(s, dev, platform).bmcs), dev, ip)
  {
    hide Desired, SoleBoard;
    forall b, ip | SoleBoard(s, dev, b, ip)
      ensures HostnameDone(s, s.(bmcs := Desired(s, dev, platform).bmcs), dev, ip)
    {
      DesiredMeaning(s, dev, platform, b, ip);
    }
  }

  lemma GoalMeaning(s: Store, t: Store, dev: Id, platform: int, skipped: bool)
    requires dev in s.devices && var goal := Desired(s, dev, platform); t == if skipped then goal.(bmcs := s.bmcs) else goal
    ensures forall b, ip | SoleBoard(s, dev, b, ip) ::
              NetboxDone(s, t, dev, platform, ip) && (skipped || HostnameDone(s, t, dev, ip))
  {
    hide Desired, SoleBoard;
    forall b, ip | SoleBoard(s, dev, b, ip)
      ensures NetboxDone(s, t, dev, platform, ip) && (skipped || HostnameDone(s, t, dev, ip))
    {
      DesiredMeaning(s, dev, platform, b, ip);
    }
  }

  lemma DeviceStays(s: Store, t: Store, dev: Id, platform: int)
    requires PassLeaves(s, t, dev, platform)
    ensures dev in t.devices <==> dev in s.devices
  {
    assert dev in Desired(t, dev, platform).devices <==> dev in t.devices;
  }

  lemma SkippedAt(s: Store, t: Store, dev: Id, platform: int, replies: Replies, from: nat, c: nat, end: nat)
    requires PassLeaves(s, t, dev, platform) && Skips(t, dev, platform, replies, c) && from <= c <= end
    ensures SkippedSome(s, dev, platform, replies, from, end)
  {
  }

  lemma GoalIsClean(s: Store, dev: Id, platform: int)
    ensures Desired(s, dev, platform) == s ==> NoVendor(s, dev) && NoVmk(s, dev)
  {
    DesiredIsClean(s, dev, platform);
  }

  lemma AfterRename(s: Store, t: Store, dev: Id, platform: int)
    requires OnlyBoardRenamed(s, t, dev)
    ensures PassLeaves(s, t, dev, platform) && t.devices == s.devices && t.bmcs == s.bmcs
    ensures VmkCalls(t, dev) == VmkCalls(s, dev) && DataCalls(t, dev, platform) == DataCalls(s, dev, platform)
    ensures Passable(s, dev) ==> Renameable(s, dev)
    ensures NoVendor(t, dev) ==> (BoardReady(t, dev) <==> Passable(s, dev))
  {
    hide Desired, BoardIps, Renameable, Passable, BoardReady, VmkCalls;
    RenamedLeaves(s, t, dev, platform);
    RenamedKeepsCalls(s, t, dev);
    PassableStays(s, t, dev, platform);
    if Passable(s, dev) { PassableIsRenameable(s, dev); }
    if NoVendor(t, dev) { CleanPassable(t, dev); }
  }

  lemma AfterWrite(s: Store, t: Store, dev: Id, platform: int)
    requires OnlyDataWritten(s, t, dev, platform)
    ensures PassLeaves(s, t, dev, platform) && t.bmcs == s.bmcs && VmkCalls(t, dev) == VmkCalls(s, dev)
    ensures NoVendor(s, dev) ==> NoVendor(t, dev)
    ensures dev in s.devices ==> dev in t.devices && t.devices[dev].name == s.devices[dev].name
  {
    WrittenLeaves(s, t, dev, platform);
    WrittenKeepsCalls(s, t, dev, platform);
  }

  lemma AfterRemoval(s: Store, t: Store, dev: Id, platform: int)
    requires OnlyVmkRemoved(s, t, dev) && Consistent(t)
    ensures PassLeaves(s, t, dev, platform) && t.bmcs == s.bmcs && t.devices == s.devices && ReferencesHold(t)
  {
    RemovedLeaves(s, t, dev, platform);
  }

  /** After the third stage everything but the BMC is as desired. */
  lemma DataStays(s: Store, t: Store, dev: Id, platform: int)
    requires OnlyVmkRemoved(s, t, dev) && NoVendor(s, dev) && NoVmk(t, dev) && ReferencesHold(t)
    requires OobIp(FinalIfaces(s.ifaces, dev), FinalIps(s, dev), dev).Some? && dev in s.devices
    requires s.devices[dev] == WithData(s, dev, platform)
    ensures NoVendor(t, dev) && t == Desired(t, dev, platform).(bmcs := t.bmcs)
  {
    RemovedLeaves(s, t, dev, platform);
    CleanIsFinal(t, dev, platform);
    assert s.devices == s.devices[dev := s.devices[dev]];
  }

  /** With no vendor-named and no vmk interface left, interfaces and addresses are as desired. */
  lemma CleanIsFinal(s: Store, dev: Id, platform: int)
    requires NoVendor(s, dev) && NoVmk(s, dev)
    ensures Desired(s, dev, platform).ifaces == s.ifaces && Desired(s, dev, platform).ips == s.ips
  {
    assert FinalIfaces(s.ifaces, dev) == s.ifaces;
    assert FinalIps(s, dev) == s.ips;
  }
}
