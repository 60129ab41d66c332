/**
 What runs of the IPUpdate controller do to the set of NetBox records: at most one record per address,
 and no write at all while an address is ambiguous.
 */
module IPUpdateRecords {
  import opened Wrappers
  import opened Decimal
  import opened Netbox
  import opened MergePatch
  import opened IPUpdate
  import opened IPUpdateSafety

  // ---------- crash-safe single creation ----------

  /** No two records carry the same address and prefix length. */
  ghost predicate AtMostOne(ips: IpTable) {
    forall i, j | i in ips && j in ips && ips[i].cidr == ips[j].cidr :: i == j
  }

  /** Nobody outside creates a record or gives an existing one another address. */
  predicate NoOutsideAddresses(acts: seq<Action>) {
    forall i | 0 <= i < |acts| :: acts[i].Other? ==> !acts[i].e.AddRecord? && !acts[i].e.ReaddressRecord?
  }

  lemma NoneMatch(ips: IpTable, c: Cidr)
    requires Matching(ips, c) == {}
    ensures forall id | id in ips :: ips[id].cidr != c
  {
    assert forall id | id in ips && ips[id].cidr == c :: id in Matching(ips, c);
  }

  ghost predicate SingleInv(s: State) {
    && AtMostOne(s.w.ips) && IdsAllocated(s.w)
    && (s.pc.GetVrf? || s.pc.CreateRecord? ==> Matching(s.w.ips, KeyOf(s.pc.o)) == {})
  }

  lemma SingleInterfere(s: State, e: Env)
    requires SingleInv(s) && !e.AddRecord? && !e.ReaddressRecord?
    ensures SingleInv(s.(w := Interfere(s.w, e)))
  {
    var w' := Interfere(s.w, e);
    if s.pc.GetVrf? || s.pc.CreateRecord? {
      assert forall i | i in w'.ips :: i in s.w.ips && w'.ips[i].cidr == s.w.ips[i].cidr;
      assert forall i | i in s.w.ips && s.w.ips[i].cidr == KeyOf(s.pc.o) :: i in Matching(s.w.ips, KeyOf(s.pc.o));
    }
  }

  lemma SingleCreate(s: State)
    requires SingleInv(s) && s.pc.CreateRecord?
    ensures AtMostOne(Effect(s.w, s.pc).ips) && IdsAllocated(Effect(s.w, s.pc))
  {
    assert forall i | i in s.w.ips && s.w.ips[i].cidr == KeyOf(s.pc.o) :: i in Matching(s.w.ips, KeyOf(s.pc.o));
  }

  /** Only the two record calls change the records. */
  lemma RecordsFrame(w: World, pc: Pc)
    requires !pc.CreateRecord? && !pc.DeleteRecord?
    ensures Effect(w, pc).ips == w.ips && Effect(w, pc).nextIp == w.nextIp
  {
  }

  lemma SingleEffect(s: State)
    requires SingleInv(s)
    ensures AtMostOne(Effect(s.w, s.pc).ips) && IdsAllocated(Effect(s.w, s.pc))
  {
    if s.pc.CreateRecord? {
      SingleCreate(s);
    } else if !s.pc.DeleteRecord? {
      RecordsFrame(s.w, s.pc);
    }
  }

  /** A reconcile gets to the creation only by finding no record. */
  lemma CreatesOnlyMissing(s: State)
    requires Then(s).GetVrf? || Then(s).CreateRecord?
    requires s.pc.GetVrf? ==> Matching(s.w.ips, KeyOf(s.pc.o)) == {}
    ensures Matching(s.w.ips, KeyOf(Then(s).o)) == {} && (s.pc.GetVrf? || s.pc.FindRecord?)
  {
  }

  lemma SingleCall(s: State, r: Reply)
    requires SingleInv(s)
    ensures SingleInv(Call(s, r))
  {
    SingleEffect(s);
    if Call(s, r).pc.GetVrf? || Call(s, r).pc.CreateRecord? {
      CreatesOnlyMissing(s);
      RecordsFrame(s.w, s.pc);
    }
  }

  lemma {:induction false} SingleRun(s: State, acts: seq<Action>)
    requires SingleInv(s) && NoOutsideAddresses(acts)
    ensures SingleInv(Run(s, acts))
  {
    if acts != [] {
      SingleRun(s, acts[..|acts| - 1]);
      var before, a := Run(s, acts[..|acts| - 1]), acts[|acts| - 1];
      match a {
        case Other(e) => SingleInterfere(before, e);
        case Answer(r) => SingleCall(before, r);
        case _ =>
      }
    }
  }

  /**
   Starting with at most one record per address and with no creation from outside, no sequence of reconciles, lost
   replies and crashes ever makes two records for one address; and whenever a record is about to be created, the object
   it is for is stored with this controller's finalizer.
   */
  lemma SingleCreation(s0: State, acts: seq<Action>)
    requires Fresh(s0) && AtMostOne(s0.w.ips) && IdsAllocated(s0.w)
    requires SpecsImmutable(acts) && NoOutsideAddresses(acts)
    ensures var s := Run(s0, acts);
            && AtMostOne(s.w.ips)
            && (s.pc.CreateRecord? ==>
                  && s.pc.n in s.w.objs && s.w.objs[s.pc.n].uid == s.pc.o.uid
                  && Ours in s.w.objs[s.pc.n].finalizers && s.w.objs[s.pc.n].spec == s.pc.o.spec
                  && forall id | id in s.w.ips :: s.w.ips[id].cidr != KeyOf(s.pc.o))
  {
    SingleRun(s0, acts);
    RunInv(s0, acts);
    var s := Run(s0, acts);
    if s.pc.CreateRecord? { NoneMatch(s.w.ips, KeyOf(s.pc.o)); }
  }

  /** The proviso is needed: a record added from outside between the lookup and the creation gets a double. */
  lemma OutsideCreationDoubles(s: State, rec: IpRecord)
    requires s.pc.CreateRecord? && GetPrefix(s.pc.o.spec) == Some(rec.cidr)
    requires IdsAllocated(s.w) && s.w.nextIp + 1 < MAX_INT
    ensures !AtMostOne(Step(Step(s, Other(AddRecord(rec))), Answer(Done)).w.ips)
  {
    var s2 := Step(Step(s, Other(AddRecord(rec))), Answer(Done));
    assert s.w.nextIp in s2.w.ips && s.w.nextIp + 1 in s2.w.ips;
    assert s2.w.ips[s.w.nextIp].cidr == s2.w.ips[s.w.nextIp + 1].cidr;
  }

  // ---------- ambiguity freeze ----------

  /** The calls a reconcile can be at while its address is ambiguous: reads, and the first finalizer patch. */
  predicate Harmless(pc: Pc) {
    pc.Idle? || pc.GetObject? || pc.AddFinalizer? || pc.FindForDelete? || pc.FindDeviceName? || pc.GetDevice?
    || pc.GetInterfaces? || pc.FindRecord?
  }

  ghost predicate Frozen(pc: Pc, c: Cidr) { HasCopy(pc) && KeyOf(pc.o) == c ==> Harmless(pc) }

  ghost predicate AmbiguousThroughout(s: State, acts: seq<Action>, c: Cidr) {
    forall j | 0 <= j <= |acts| :: |Matching(Run(s, acts[..j]).w.ips, c)| >= 2
  }

  lemma FrozenStep(s: State, a: Action, c: Cidr)
    requires Frozen(s.pc, c) && |Matching(s.w.ips, c)| >= 2
    ensures Frozen(Step(s, a).pc, c)
    ensures a.Answer? && HasCopy(s.pc) && KeyOf(s.pc.o) == c ==>
              Step(s, a).w.ips == s.w.ips && Step(s, a).w.devices == s.w.devices && Step(s, a).w.ifaces == s.w.ifaces
  {
    hide WithMetadata, WithConflict, Diff, Apply, BestLag, InterfacesOf, DeviceOf, VrfFor;
  }

  lemma FinalizerStays(s: State, a: Action, c: Cidr, n: string)
    requires Inv(s) && Frozen(s.pc, c) && !(a.Other? && a.e.EditSpec?)
    requires n in s.w.objs && KeyOf(s.w.objs[n]) == c && Ours in s.w.objs[n].finalizers
    ensures var objs := Step(s, a).w.objs;
            n in objs && objs[n].uid == s.w.objs[n].uid && KeyOf(objs[n]) == c && Ours in objs[n].finalizers
  {
    match a {
      case Other(e) => InterfereHeld(s.w, e, n, s.w.objs[n]);
      case Answer(r) => EffectKeepsFinalizer(s, c, n);
      case _ =>
    }
  }

  lemma EffectKeepsFinalizer(s: State, c: Cidr, n: string)
    requires Inv(s) && Frozen(s.pc, c)
    requires n in s.w.objs && KeyOf(s.w.objs[n]) == c && Ours in s.w.objs[n].finalizers
    ensures var objs := Effect(s.w, s.pc).objs;
            n in objs && objs[n].uid == s.w.objs[n].uid && KeyOf(objs[n]) == c && Ours in objs[n].finalizers
  {
    if s.pc.RemoveFinalizer? {
      assert s.pc.n != n;
    } else {
      FinalizerFrame(s.w, s.pc, n);
    }
  }

  /** Only the call that removes it takes the finalizer off an object. */
  lemma FinalizerFrame(w: World, pc: Pc, n: string)
    requires !pc.RemoveFinalizer? && n in w.objs && Ours in w.objs[n].finalizers
    ensures var objs := Effect(w, pc).objs;
            n in objs && objs[n].uid == w.objs[n].uid && objs[n].spec == w.objs[n].spec && Ours in objs[n].finalizers
  {
    hide WithMetadata, WithConflict, Diff, Apply, NewRecord, GetPrefix;
  }

  lemma {:induction false} FrozenRun(s: State, acts: seq<Action>, c: Cidr)
    requires Frozen(s.pc, c) && AmbiguousThroughout(s, acts, c)
    ensures Frozen(Run(s, acts).pc, c)
  {
    if acts != [] {
      var front := acts[..|acts| - 1];
      assert forall j | 0 <= j <= |front| :: front[..j] == acts[..j];
      FrozenRun(s, front, c);
      assert acts[..|front|] == front;
      FrozenStep(Run(s, front), acts[|acts| - 1], c);
    }
  }

  lemma {:induction false} FinalizerRun(s: State, acts: seq<Action>, c: Cidr, n: string)
    requires Inv(s) && SpecsImmutable(acts) && Frozen(s.pc, c) && AmbiguousThroughout(s, acts, c)
    requires n in s.w.objs && KeyOf(s.w.objs[n]) == c && Ours in s.w.objs[n].finalizers
    ensures var objs := Run(s, acts).w.objs;
            n in objs && objs[n].uid == s.w.objs[n].uid && KeyOf(objs[n]) == c && Ours in objs[n].finalizers
  {
    if acts != [] {
      var front := acts[..|acts| - 1];
      assert forall j | 0 <= j <= |front| :: front[..j] == acts[..j];
      FinalizerRun(s, front, c, n);
      FrozenRun(s, front, c);
      RunInv(s, front);
      FinalizerStays(Run(s, front), acts[|acts| - 1], c, n);
    }
  }

  /**
   While two or more records carry an address: no call of a reconcile for that address changes a NetBox record or a
   device, and an object of that address that has the finalizer keeps it, so it cannot go away either.
   */
  lemma AmbiguityFreeze(s: State, acts: seq<Action>, c: Cidr, n: string, j: nat)
    requires Inv(s) && s.pc.Idle? && SpecsImmutable(acts) && AmbiguousThroughout(s, acts, c)
    requires n in s.w.objs && KeyOf(s.w.objs[n]) == c && Ours in s.w.objs[n].finalizers
    requires j < |acts|
    ensures var before, after := Run(s, acts[..j]), Run(s, acts[..j + 1]);
            && (acts[j].Answer? && HasCopy(before.pc) && KeyOf(before.pc.o) == c ==>
                  after.w.ips == before.w.ips && after.w.devices == before.w.devices && after.w.ifaces == before.w.ifaces)
            && n in after.w.objs && after.w.objs[n].uid == s.w.objs[n].uid && Ours in after.w.objs[n].finalizers
  {
    var front, next := acts[..j], acts[..j + 1];
    assert forall k | 0 <= k <= |front| :: front[..k] == acts[..k];
    assert forall k | 0 <= k <= |next| :: next[..k] == acts[..k];
    FrozenRun(s, front, c);
    assert acts[..j] == front;
    FrozenStep(Run(s, front), acts[j], c);
    StepPrefix(s, acts, j);
    FinalizerRun(s, next, c, n);
  }
}
