/** Building a request for IP addresses: options assign fields one after the other, and unset fields are not sent. */
module IpamRequests {
  import opened Wrappers
  import opened Netbox

  datatype RequestOption = WithInterfaceID(interfaceID: int) | WithAddress(address: Option<Cidr>)

  /** What is sent to NetBox; a filter that is not set selects everything. */
  datatype Filter = Filter(interfaceID: Option<int>, address: Option<Cidr>)

  predicate Passes(f: Filter, rec: IpRecord) {
    (f.interfaceID.Some? ==> rec.iface == f.interfaceID.value) && (f.address.Some? ==> rec.cidr == f.address.value)
  }

  function WithOption(req: IpRequest, opt: RequestOption): IpRequest {
    match opt
    case WithInterfaceID(id) => req.(interfaceID := id)
    case WithAddress(a) => req.(address := a)
  }

  function Applied(opts: seq<RequestOption>): IpRequest {
    if opts == [] then IpRequest(0, None) else WithOption(Applied(opts[..|opts| - 1]), opts[|opts| - 1])
  }

  /** The last option of each kind counts, whatever stands before, between and after. */
  lemma {:induction false} LastOptionCounts(opts: seq<RequestOption>, i: nat)
    requires i < |opts|
    ensures opts[i].WithInterfaceID? && (forall j | i < j < |opts| :: opts[j].WithAddress?) ==>
              Applied(opts).interfaceID == opts[i].interfaceID
    ensures opts[i].WithAddress? && (forall j | i < j < |opts| :: opts[j].WithInterfaceID?) ==>
              Applied(opts).address == opts[i].address
  {
    if i < |opts| - 1 {
      var front := opts[..|opts| - 1];
      LastOptionCounts(front, i);
      assert forall j | i < j < |front| :: front[j] == opts[j];
    }
  }

  class ListIPAddressesRequest {
    var interfaceID: int
    var address: Option<Cidr>

    function Value(): IpRequest
      reads this
    {
      IpRequest(interfaceID, address)
    }

    constructor (opts: seq<RequestOption>)
      ensures Value() == Applied(opts)
    {
      interfaceID := 0;
      address := None;
      new;
      for i := 0 to |opts|
        invariant Value() == Applied(opts[..i])
      {
        assert opts[..i + 1][..i] == opts[..i];
        match opts[i] {
          case WithInterfaceID(id) => interfaceID := id;
          case WithAddress(a) => address := a;
        }
      }
      assert opts[..|opts|] == opts;
    }

    /** A record passes the built filter exactly when the request selects it, where 0 and the empty text select all. */
    method BuildRequest() returns (f: Filter)
      ensures forall rec :: Passes(f, rec) <==> Selects(Value(), rec)
    {
      f := Filter(None, None);
      if interfaceID != 0 {
        f := f.(interfaceID := Some(interfaceID));
      }
      if address.Some? {
        f := f.(address := address);
      }
    }
  }

  /** `GetIPAddressesForInterface` over a table: exactly the records of that interface. */
  method GetIPAddressesForInterface(ips: IpTable, interfaceID: Id) returns (ids: set<Id>)
    ensures forall i :: i in ids <==> i in ips && ips[i].iface == interfaceID
  {
    var req := new ListIPAddressesRequest([WithInterfaceID(interfaceID)]);
    LastOptionCounts([WithInterfaceID(interfaceID)], 0);
    assert Applied([WithInterfaceID(interfaceID)]).address == None by {
      assert [WithInterfaceID(interfaceID)][..0] == [];
    }
    var f := req.BuildRequest();
    ids := set i | i in ips && Passes(f, ips[i]);
  }
}
