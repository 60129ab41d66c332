/** The NetBox records the controllers work on, and the lookups of the ipam and dcim services. */
module Netbox {
  import opened Wrappers
  import opened Decimal

  /** NetBox ids: positive, and small enough for an int. */
  type Id = i: int | 1 <= i <= MAX_INT witness 1

  datatype Address = V4(value: nat) | V6(value: nat)

  /** An address with its prefix length, the way its text is used as a lookup key. */
  datatype Cidr = Cidr(addr: Address, bits: int) | InvalidPrefix

  datatype Spec = Spec(address: Option<Address>, prefix: Option<int>)

  /**
   `getPrefix`: None when the address text does not parse.  A missing prefix length means 32 for both families;
   an impossible one yields the invalid prefix, which has one text whatever the address was.
   */
  function GetPrefix(spec: Spec): Option<Cidr> {
    if spec.address.None? then None else
    var bits := if spec.prefix.Some? then spec.prefix.value else 32;
    if 0 <= bits <= (if spec.address.value.V4? then 32 else 128) then Some(Cidr(spec.address.value, bits))
    else Some(InvalidPrefix)
  }

  /** The key of an address by its text and prefix length, both families, with 32 for a missing length. */
  lemma PrefixMeaning(spec: Spec, a: Address, bits: int)
    ensures GetPrefix(spec) == Some(Cidr(a, bits)) <==>
            && spec.address == Some(a) && (spec.prefix == Some(bits) || (spec.prefix.None? && bits == 32))
            && 0 <= bits && (a.V4? ==> bits <= 32) && (a.V6? ==> bits <= 128)
    ensures GetPrefix(spec).None? <==> spec.address.None?
  {
  }

  datatype IpRecord = IpRecord(cidr: Cidr, iface: Id, tenant: int, vrf: int)

  datatype Interface = Interface(id: Id, device: Id, name: string, isLag: bool)

  /** `rest` stands for all fields that neither controller changes. */
  datatype Device = Device(id: Id, name: string, tenant: int, platform: int, oob: int, primary4: int, rest: int)

  type IpTable = map<Id, IpRecord>

  // ---------- request building ----------

  /** A request for IP addresses; 0 and the empty text mean "no filter", as `BuildRequest` drops them. */
  datatype IpRequest = IpRequest(interfaceID: int, address: Option<Cidr>)

  predicate Selects(req: IpRequest, rec: IpRecord) {
    (req.interfaceID != 0 ==> rec.iface == req.interfaceID) && (req.address.Some? ==> rec.cidr == req.address.value)
  }

  function ListIPAddresses(ips: IpTable, req: IpRequest): set<Id> { set i | i in ips && Selects(req, ips[i]) }

  // ---------- lookup by address ----------

  /** The records carrying exactly this address and prefix length. */
  function Matching(ips: IpTable, c: Cidr): set<Id> { set i | i in ips && ips[i].cidr == c }

  datatype Found = NoneFound | OneFound(id: Id, rec: IpRecord) | ManyFound

  lemma SingletonSet<T>(s: set<T>, x: T)
    requires |s| == 1 && x in s
    ensures s == {x}
  {
    assert |s - {x}| == 0;
  }

  /** `GetIPAddressByAddress`: none, one, or an error because there are several. */
  function GetIPAddressByAddress(ips: IpTable, c: Cidr): (f: Found)
    ensures f.NoneFound? <==> Matching(ips, c) == {}
    ensures f.OneFound? ==> Matching(ips, c) == {f.id} && f.rec == ips[f.id]
    ensures f.ManyFound? <==> |Matching(ips, c)| >= 2
  {
    var m := ListIPAddresses(ips, IpRequest(0, Some(c)));
    assert m == Matching(ips, c);
    if m == {} then NoneFound
    else if |m| == 1 then
      assert forall i, j | i in m && j in m :: i == j by {
        forall i, j | i in m && j in m ensures i == j { SingletonSet(m, i); }
      }
      var i :| i in m;
      SingletonSet(m, i);
      OneFound(i, ips[i])
    else ManyFound
  }

  /** The lookup by address decides exactly between none, one and several records. */
  lemma LookupExact(ips: IpTable, c: Cidr, i: Id)
    ensures Matching(ips, c) == {i} <==> GetIPAddressByAddress(ips, c).OneFound? && GetIPAddressByAddress(ips, c).id == i
  {
    if Matching(ips, c) == {i} { assert |Matching(ips, c)| == 1; }
  }

  /** A lookup for interface id 0 has no filter at all and selects every record: callers rely on ids starting at 1. */
  lemma ZeroSelectsAll(ips: IpTable)
    ensures ListIPAddresses(ips, IpRequest(0, None)) == ips.Keys
  {
  }

  // ---------- target interface ----------

  /** The digit of a name of the form LAG<digit>. */
  function LagDigit(iface: Interface): Option<char> {
    if iface.isLag && |iface.name| == 4 && iface.name[..3] == "LAG" && IsDigit(iface.name[3]) then Some(iface.name[3])
    else None
  }

  /** Exactly the interfaces of type lag that are named LAG and one digit count. */
  lemma LagMeaning(x: Interface)
    ensures LagDigit(x).Some? <==> x.isLag && exists d :: IsDigit(d) && x.name == ['L', 'A', 'G', d]
    ensures forall d | x.isLag && IsDigit(d) && x.name == ['L', 'A', 'G', d] :: LagDigit(x) == Some(d)
  {
    if LagDigit(x).Some? {
      assert x.name == x.name[..3] + [x.name[3]];
      assert x.name == ['L', 'A', 'G', x.name[3]];
    }
  }

  /** The first interface with the highest LAG digit. */
  function BestLag(ifaces: seq<Interface>): Option<Interface> {
    if ifaces == [] then None else
    var best, last := BestLag(ifaces[..|ifaces| - 1]), ifaces[|ifaces| - 1];
    match LagDigit(last)
    case None => best
    case Some(d) =>
      if best.None? || LagDigit(best.value).None? || d > LagDigit(best.value).value then Some(last) else best
  }

  /** No interface earlier in the list has the digit of this one. */
  predicate NoneBefore(ifaces: seq<Interface>, i: nat)
    requires i < |ifaces|
  {
    forall j | 0 <= j < i :: LagDigit(ifaces[j]) != LagDigit(ifaces[i])
  }

  /** The chosen interface is a LAG of the list with the greatest digit; none is chosen only when the list has no LAG. */
  lemma {:induction false} BestLagMeaning(ifaces: seq<Interface>)
    ensures var best := BestLag(ifaces);
            if best.None? then forall x | x in ifaces :: LagDigit(x).None?
            else && best.value in ifaces && LagDigit(best.value).Some?
                 && forall x | x in ifaces && LagDigit(x).Some? :: LagDigit(x).value <= LagDigit(best.value).value
  {
    if ifaces != [] {
      var front, last := ifaces[..|ifaces| - 1], ifaces[|ifaces| - 1];
      BestLagMeaning(front);
      assert ifaces == front + [last];
      assert forall x | x in ifaces :: x in front || x == last;
    }
  }

  /** Of several with that digit the first one is chosen. */
  lemma {:induction false} BestLagFirst(ifaces: seq<Interface>)
    requires BestLag(ifaces).Some?
    ensures exists i :: 0 <= i < |ifaces| && ifaces[i] == BestLag(ifaces).value && NoneBefore(ifaces, i)
  {
    var front, last := ifaces[..|ifaces| - 1], ifaces[|ifaces| - 1];
    BestLagMeaning(front);
    hide LagDigit;
    if BestLag(front).Some? && BestLag(ifaces) == BestLag(front) {
      BestLagFirst(front);
      var i :| 0 <= i < |front| && front[i] == BestLag(front).value && NoneBefore(front, i);
      assert forall j | 0 <= j <= i :: ifaces[j] == front[j];
      assert NoneBefore(ifaces, i);
    } else {
      assert forall j | 0 <= j < |front| :: ifaces[j] in front;
      assert NoneBefore(ifaces, |front|);
    }
  }

  lemma LagName(x: Interface, y: Interface)
    requires LagDigit(x).Some? && LagDigit(x) == LagDigit(y)
    ensures x.name == y.name
  {
    assert x.name == x.name[..3] + [x.name[3]] && y.name == y.name[..3] + [y.name[3]];
  }

  lemma BestLagUnique(ifaces: seq<Interface>, t: Interface)
    requires t in ifaces && LagDigit(t).Some?
    requires forall x | x in ifaces && LagDigit(x).Some? :: LagDigit(x).value <= LagDigit(t).value
    requires forall x | x in ifaces && x.name == t.name :: x == t
    ensures BestLag(ifaces) == Some(t)
  {
    BestLagMeaning(ifaces);
    assert LagDigit(BestLag(ifaces).value) == LagDigit(t);
    LagName(BestLag(ifaces).value, t);
  }

  /** With interface names unique on the device, the choice does not depend on the order of the list. */
  lemma BestLagOrderIndependent(a: seq<Interface>, b: seq<Interface>)
    requires forall x :: x in a <==> x in b
    requires forall x, y | x in a && y in a && x.name == y.name :: x == y
    ensures BestLag(a) == BestLag(b)
  {
    BestLagMeaning(a);
    if BestLag(a).Some? {
      BestLagUnique(b, BestLag(a).value);
    } else {
      BestLagMeaning(b);
    }
  }

  /** `findTargetInterface`. */
  method FindTargetInterface(ifaces: seq<Interface>) returns (target: Option<Interface>)
    ensures target == BestLag(ifaces)
  {
    target := None;
    var maxLag: Option<char> := None;
    for i := 0 to |ifaces|
      invariant target == BestLag(ifaces[..i])
      invariant maxLag == if target.Some? then LagDigit(target.value) else None
      invariant target.Some? ==> maxLag.Some?
    {
      assert ifaces[..i + 1][..i] == ifaces[..i];
      var lag := LagDigit(ifaces[i]);
      if lag.None? { continue; }
      if maxLag.None? || lag.value > maxLag.value {
        maxLag := lag;
        target := Some(ifaces[i]);
      }
    }
    assert ifaces[..|ifaces|] == ifaces;
  }

  // ---------- devices and interfaces ----------

  /** `GetInterfacesForDevice`: the interfaces of one device, in the order NetBox lists them. */
  function InterfacesOf(ifaces: seq<Interface>, device: Id): (r: seq<Interface>)
    ensures forall x :: x in r <==> x in ifaces && x.device == device
  {
    if ifaces == [] then []
    else InterfacesOf(ifaces[..|ifaces| - 1], device) +
         (if ifaces[|ifaces| - 1].device == device then [ifaces[|ifaces| - 1]] else [])
  }

  function NamedDevices(devices: map<Id, Device>, name: string): set<Id> {
    set i | i in devices && devices[i].name == name
  }

  /** `GetDeviceByName`: an error unless exactly one device has the name. */
  function GetDeviceByName(devices: map<Id, Device>, name: string): (d: Option<Device>)
    ensures d.Some? ==> exists i :: NamedDevices(devices, name) == {i} && devices[i] == d.value
    ensures d.None? ==> |NamedDevices(devices, name)| != 1
  {
    var m := NamedDevices(devices, name);
    if |m| == 1 then
      assert forall i, j | i in m && j in m :: i == j by {
        forall i, j | i in m && j in m ensures i == j { SingletonSet(m, i); }
      }
      var i :| i in m;
      SingletonSet(m, i);
      assert m == {i};
      Some(devices[i])
    else None
  }

  predicate OnlyNamed(devices: map<Id, Device>, name: string, i: Id) {
    i in devices && devices[i].name == name && forall j | j in devices && devices[j].name == name :: j == i
  }

  /** A device is found exactly when it is the only one of that name. */
  lemma DeviceByNameMeaning(devices: map<Id, Device>, name: string)
    ensures GetDeviceByName(devices, name).Some? <==> exists i :: OnlyNamed(devices, name, i)
    ensures forall i | OnlyNamed(devices, name, i) :: GetDeviceByName(devices, name) == Some(devices[i])
  {
    var m := NamedDevices(devices, name);
    forall i: Id ensures OnlyNamed(devices, name, i) <==> m == {i} {
      if m == {i} { assert i in m && forall j | j in devices && devices[j].name == name :: j in m; }
      if OnlyNamed(devices, name, i) { assert i in m && forall j | j in m :: j == i; }
    }
    if GetDeviceByName(devices, name).Some? {
      var i :| m == {i} && devices[i] == GetDeviceByName(devices, name).value;
      assert OnlyNamed(devices, name, i);
    }
  }
}
