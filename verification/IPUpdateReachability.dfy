/**
 The situations in which the provisos of the safety results fail can be reached from a fresh start by runs in which the
 controller only does clean work.  They are built here: two records of one address, deletes of foreign records, and the
 second delete of an object that is kept, each for every object that can get there.
 */
module IPUpdateReachability {
  import opened Wrappers
  import opened Decimal
  import opened Netbox
  import opened IPUpdate
  import opened IPUpdateSafety
  import opened IPUpdateRecords
  import opened IPUpdateConvergence

  // ---------- clean reconciles as parts of runs ----------

  /** The reconcile is about this object, and the history knows nothing else of it than this address. */
  ghost predicate Only(s: State, n: string, u: nat, c: Cidr) {
    && (forall f | f in s.facts :: f.uid == u && f.cidr == c)
    && (s.pc.GetObject? ==> s.pc.n == n && n in s.w.objs && s.w.objs[n].uid == u && KeyOf(s.w.objs[n]) == c)
    && (HasCopy(s.pc) ==> s.pc.o.uid == u && KeyOf(s.pc.o) == c)
  }

  lemma LearnedOnly(s: State, n: string, u: nat, c: Cidr)
    requires Only(s, n, u, c)
    ensures forall f | f in Learned(s) :: f.uid == u && f.cidr == c
  {
    hide Effect, Then, BestLag, InterfacesOf;
  }

  lemma ThenOnly(s: State, n: string, u: nat, c: Cidr)
    requires Only(s, n, u, c)
    ensures var pc := Then(s); !pc.GetObject? && (HasCopy(pc) ==> pc.o.uid == u && KeyOf(pc.o) == c)
  {
    hide Effect, Learned, BestLag, InterfacesOf;
  }

  lemma CallOnly(s: State, n: string, u: nat, c: Cidr)
    requires Only(s, n, u, c)
    ensures Only(Call(s, Done), n, u, c)
  {
    hide Effect, Learned, Then;
    LearnedOnly(s, n, u, c);
    ThenOnly(s, n, u, c);
  }

  lemma {:induction false} FinishOnly(s: State, n: string, u: nat, c: Cidr)
    requires Only(s, n, u, c)
    ensures Only(Finish(s), n, u, c)
    decreases Rank(s.pc)
  {
    hide Call, Only;
    if !s.pc.Idle? {
      CallsRunOut(s, Done);
      CallOnly(s, n, u, c);
      FinishOnly(Call(s, Done), n, u, c);
    }
  }

  predicate NobodyElse(acts: seq<Action>) { forall i | 0 <= i < |acts| :: !acts[i].Other? }

  /** A clean reconcile of n as a part of a run. */
  lemma CleanPart(s: State, n: string, u: nat, c: Cidr) returns (acts: seq<Action>)
    requires s.pc.Idle? && Only(s, n, u, c) && n in s.w.objs && s.w.objs[n].uid == u && KeyOf(s.w.objs[n]) == c
    ensures NobodyElse(acts)
    ensures var t := Run(s, acts); t.pc.Idle? && t.w == Reconcile(s.w, n) && Only(t, n, u, c)
  {
    var s' := Step(s, Begin(n));
    assert s' == State(s.w, GetObject(n), s.facts);
    hide Call;
    var calls := FinishIsRun(s');
    acts := [Begin(n)] + calls;
    RunAppend(s, [Begin(n)], calls);
    assert [Begin(n)][..0] == [];
    assert Run(s, [Begin(n)]) == s';
    FinishOnly(s', n, u, c);
    FinishIgnoresFacts(s.w, GetObject(n), s.facts, {});
  }

  // ---------- an object in sync ----------

  /** What two clean reconciles of a new object leave, besides being in sync. */
  ghost predicate SyncedFrom(w: World, w': World, n: string, dev: Device, iface: Interface) {
    && InSync(w', n, dev, iface)
    && n in w.objs && w'.objs[n].uid == w.objs[n].uid && w'.objs[n].spec == w.objs[n].spec && !w'.objs[n].deleting
    && IdsAllocated(w') && w'.nextIp <= w.nextIp + 1
    && (forall i | i in w'.ips && w'.ips[i].cidr != KeyOf(w.objs[n]) :: i in w.ips && w.ips[i] == w'.ips[i])
  }

  lemma FirstReconcile(w: World, n: string, dev: Device, iface: Interface)
    requires Resolvable(w, n, dev, iface) && Ours !in w.objs[n].finalizers
    ensures var o, w1 := w.objs[n], Reconcile(w, n);
            && w1 == w.(objs := w.objs[n := o.(finalizers := o.finalizers + [Ours])])
            && Resolvable(w1, n, dev, iface) && LookedUpIn(w1, n) == LookedUpIn(w, n)
  {
    ReconcileAddsFinalizer(w, n);
  }

  lemma PassKeepsRest(w: World, n: string, dev: Device, iface: Interface)
    requires Resolvable(w, n, dev, iface) && w.nextIp + 1 < MAX_INT
    ensures var w' := PassResult(w, n, dev, iface);
            && n in w'.objs && w'.objs[n].uid == w.objs[n].uid && w'.objs[n].spec == w.objs[n].spec && !w'.objs[n].deleting
            && IdsAllocated(w') && w'.nextIp <= w.nextIp + 1
            && (forall i | i in w'.ips && w'.ips[i].cidr != KeyOf(w.objs[n]) :: i in w.ips && w.ips[i] == w'.ips[i])
  {
    hide WithMetadata, WithConflict, VrfFor, InventoryConsistent, GetDeviceByName, BestLag, InterfacesOf;
    if LookedUpIn(w, n).NoneFound? {
      SyncedKeepsRest(Insert(w, NewRecord(w.objs[n], dev, iface, VrfFor(w, w.objs[n]))), n, dev, iface, w.nextIp);
    } else if LookedUpIn(w, n).rec.iface == iface.id {
      SyncedKeepsRest(w, n, dev, iface, LookedUpIn(w, n).id);
    }
    hide Synced, LookedUpIn;
  }

  lemma SyncedKeepsRest(w: World, n: string, dev: Device, iface: Interface, id: Id)
    requires n in w.objs
    ensures var w' := Synced(w, n, dev, iface, id);
            && w'.ips == w.ips && w'.nextIp == w.nextIp && n in w'.objs
            && w'.objs[n] == w.objs[n].(ann := w'.objs[n].ann)
  {
  }

  lemma SecondReconcile(w: World, n: string, dev: Device, iface: Interface)
    requires Resolvable(w, n, dev, iface) && Ours in w.objs[n].finalizers && w.nextIp + 1 < MAX_INT
    requires LookedUpIn(w, n).OneFound? ==> LookedUpIn(w, n).rec.iface == iface.id
    ensures SyncedFrom(w, Reconcile(w, n), n, dev, iface)
  {
    ReconcileIsPass(w, n, dev, iface);
    PassReachesGoal(w, n, dev, iface);
    PassKeepsRest(w, n, dev, iface);
    hide Reconcile, InSync, PassResult;
  }

  /** From a fresh start, two clean reconciles bring an object in sync with its target. */
  lemma ReachesSync(s0: State, n: string, dev: Device, iface: Interface) returns (acts: seq<Action>)
    requires Fresh(s0) && Resolvable(s0.w, n, dev, iface) && s0.w.nextIp + 1 < MAX_INT
    requires LookedUpIn(s0.w, n).OneFound? ==> LookedUpIn(s0.w, n).rec.iface == iface.id
    ensures NobodyElse(acts)
    ensures var s, o := Run(s0, acts), s0.w.objs[n];
            s.pc.Idle? && SyncedFrom(s0.w, s.w, n, dev, iface) && Only(s, n, o.uid, KeyOf(o))
  {
    var o, w1 := s0.w.objs[n], Reconcile(s0.w, n);
    FirstReconcile(s0.w, n, dev, iface);
    SecondReconcile(w1, n, dev, iface);
    FreshKnowsNothing(s0, n);
    hide Reconcile, InSync, Only, Call, Fresh;
    var first := CleanPart(s0, n, o.uid, KeyOf(o));
    var second := CleanPart(Run(s0, first), n, o.uid, KeyOf(o));
    acts := first + second;
    RunAppend(s0, first, second);
  }

  lemma FreshKnowsNothing(s0: State, n: string)
    requires Fresh(s0) && n in s0.w.objs
    ensures Only(s0, n, s0.w.objs[n].uid, KeyOf(s0.w.objs[n]))
    ensures s0.pc.Idle? && Ours !in s0.w.objs[n].finalizers
  {
  }

  // ---------- deletes of foreign records ----------

  /** The deletion of a synced object gets to the delete of its record. */
  lemma SyncedDeletes(s: State, n: string, dev: Device, iface: Interface)
    requires s.pc.Idle? && InSync(s.w, n, dev, iface) && !s.w.objs[n].deleting && GetPrefix(s.w.objs[n].spec).Some?
    ensures var t := Run(s, [Other(DeleteObject(n)), Begin(n), Answer(Done), Answer(Done)]);
            t.pc.DeleteRecord? && t.pc.o.uid == s.w.objs[n].uid && KeyOf(t.pc.o) == KeyOf(s.w.objs[n]) && t.pc.id in t.w.ips
  {
    var a := Other(DeleteObject(n));
    Run4(s, a, Begin(n), Answer(Done), Answer(Done));
    var s1 := Step(s, a);
    var o := s1.w.objs[n];
    AtoiItoa(dev.id);
    AtoiItoa(iface.id);
    assert AnnotatedInterface(o.ann) == Some(iface.id);
    var s3 := State(s1.w, FindForDelete(n, o), s1.facts);
    assert Step(Step(s1, Begin(n)), Answer(Done)) == s3;
    assert LookedUp(s3, o).id in Matching(s3.w.ips, KeyOf(o));
  }

  /**
   From a fresh start, for every object that can be synced, every other address and every interface: a run in which an
   administrator gives the record that address and that interface after the lookup of the object's deletion, and the
   record is deleted nevertheless.
   */
  lemma ForeignRecordIsDeleted(s0: State, n: string, dev: Device, iface: Interface, other: Cidr, moved: Id)
    returns (acts: seq<Action>, id: Id)
    requires Fresh(s0) && Resolvable(s0.w, n, dev, iface) && s0.w.nextIp + 1 < MAX_INT
    requires LookedUpIn(s0.w, n).OneFound? ==> LookedUpIn(s0.w, n).rec.iface == iface.id
    ensures SpecsImmutable(acts)
    ensures var s, o := Run(s0, acts), s0.w.objs[n];
            && s.pc.DeleteRecord? && s.pc.o.uid == o.uid && s.pc.id == id
            && id in s.w.ips && s.w.ips[id].cidr == other && s.w.ips[id].iface == moved
            && Step(s, Answer(Done)).w.ips == s.w.ips - {id}
  {
    hide Step, Only, Fresh, InSync;
    var sync := ReachesSync(s0, n, dev, iface);
    var delete := [Other(DeleteObject(n)), Begin(n), Answer(Done), Answer(Done)];
    SyncedDeletes(Run(s0, sync), n, dev, iface);
    RunAppend(s0, sync, delete);
    var t := Run(s0, sync + delete);
    id := t.pc.id;
    var readdress, move := Other(ReaddressRecord(id, other)), Other(MoveRecord(id, moved));
    EditedTwice(t, other, moved);
    acts := sync + delete + [readdress, move];
    RunAppend(s0, sync + delete, [readdress, move]);
  }

  lemma EditedTwice(s: State, other: Cidr, moved: Id)
    requires s.pc.DeleteRecord? && s.pc.id in s.w.ips
    ensures var id := s.pc.id;
            var t := Run(s, [Other(ReaddressRecord(id, other)), Other(MoveRecord(id, moved))]);
            && t.pc == s.pc && id in t.w.ips && t.w.ips[id].cidr == other && t.w.ips[id].iface == moved
            && Step(t, Answer(Done)).w.ips == t.w.ips - {id}
  {
    hide Call;
    var a, b := Other(ReaddressRecord(s.pc.id, other)), Other(MoveRecord(s.pc.id, moved));
    DeleteEffect(Step(Step(s, a), b), Done);
    assert [a, b][..1] == [a] && [a][..0] == [];
    assert Run(s, [a]) == Step(s, a);
    assert Run(s, [a, b]) == Step(Step(s, a), b);
  }

  /**
   From a fresh start, for every object that can be synced: were its address edited to that of a foreign record on the same
   interface before its deletion, that record would be deleted, though no reconcile of the object ever had that address.
   */
  lemma ForeignAddressIsDeleted(s0: State, n: string, dev: Device, iface: Interface, spec: Spec, rec: IpRecord)
    returns (acts: seq<Action>)
    requires Fresh(s0) && Resolvable(s0.w, n, dev, iface) && s0.w.nextIp + 2 < MAX_INT
    requires LookedUpIn(s0.w, n).OneFound? ==> LookedUpIn(s0.w, n).rec.iface == iface.id
    requires GetPrefix(spec) == Some(rec.cidr) && rec.cidr != KeyOf(s0.w.objs[n]) && rec.iface == iface.id
    requires forall i | i in s0.w.ips :: s0.w.ips[i].cidr != rec.cidr
    ensures var s, o := Run(s0, acts), s0.w.objs[n];
            && s.pc.DeleteRecord? && s.pc.o.uid == o.uid && s.pc.id in s.w.ips && s.w.ips[s.pc.id] == rec
            && Assigned(o.uid, rec.cidr, rec.iface) !in s.facts
  {
    var sync := ReachesSync(s0, n, dev, iface);
    var s := Run(s0, sync);
    var a, b := Other(AddRecord(rec)), Other(DeleteObject(n));
    var t := Step(Step(s, a), b);
    assert [a, b][..1] == [a] && [a][..0] == [];
    assert Run(s, [a]) == Step(s, a);
    assert Run(s, [a, b]) == t;
    RunAppend(s0, sync, [a, b]);
    var delete := [Other(EditSpec(n, spec)), Begin(n), Answer(Done), Answer(Done)];
    AddedAndDeleted(s, n, dev, iface, rec, t);
    EditedAddressDeletes(t, n, spec, s.w.nextIp);
    EditedRunKeeps(t, n, spec);
    RunAppend(s0, sync + [a, b], delete);
    acts := sync + [a, b] + delete;
  }

  lemma AddedAndDeleted(s: State, n: string, dev: Device, iface: Interface, rec: IpRecord, t: State)
    requires s.pc.Idle? && InSync(s.w, n, dev, iface) && !s.w.objs[n].deleting && IdsAllocated(s.w) && s.w.nextIp < MAX_INT
    requires rec.iface == iface.id && forall i | i in s.w.ips :: s.w.ips[i].cidr != rec.cidr
    requires t == Step(Step(s, Other(AddRecord(rec))), Other(DeleteObject(n)))
    ensures t.pc.Idle? && t.facts == s.facts && n in t.w.objs && t.w.objs[n] == s.w.objs[n].(deleting := true)
    ensures Ours in t.w.objs[n].finalizers && AnnotatedInterface(t.w.objs[n].ann) == Some(rec.iface)
    ensures s.w.nextIp in t.w.ips && t.w.ips[s.w.nextIp] == rec && Matching(t.w.ips, rec.cidr) == {s.w.nextIp}
  {
    AtoiItoa(dev.id);
    AtoiItoa(iface.id);
  }

  lemma EditedRunKeeps(t: State, n: string, spec: Spec)
    requires t.pc.Idle? && n in t.w.objs && t.w.objs[n].deleting && Ours in t.w.objs[n].finalizers
    requires GetPrefix(spec).Some?
    ensures var s := Run(t, [Other(EditSpec(n, spec)), Begin(n), Answer(Done), Answer(Done)]);
            s.w.ips == t.w.ips && s.facts == t.facts
  {
    var a := Other(EditSpec(n, spec));
    Run4(t, a, Begin(n), Answer(Done), Answer(Done));
    var s1 := Step(t, a);
    assert Step(Step(s1, Begin(n)), Answer(Done)) == State(s1.w, FindForDelete(n, s1.w.objs[n]), t.facts);
  }

  // ---------- a double record ----------

  lemma ToInterfaces(s: State, n: string, dev: Device, iface: Interface)
    requires s.pc.Idle? && Resolvable(s.w, n, dev, iface) && Ours in s.w.objs[n].finalizers
    ensures Run(s, [Begin(n), Answer(Done), Answer(Done), Answer(Done)]) ==
              State(s.w, GetInterfaces(n, s.w.objs[n], dev), s.facts)
  {
    hide InventoryConsistent, GetDeviceByName, BestLag, InterfacesOf, GetIPAddressByAddress, Run;
    Run4(s, Begin(n), Answer(Done), Answer(Done), Answer(Done));
    var s1 := State(s.w, FindDeviceName(n, s.w.objs[n]), s.facts);
    assert Step(Step(s, Begin(n)), Answer(Done)) == s1;
  }

  lemma FromInterfaces(s: State, n: string, dev: Device, iface: Interface, e: Env)
    requires Resolvable(s.w, n, dev, iface) && LookedUpIn(s.w, n).NoneFound?
    requires s.pc == GetInterfaces(n, s.w.objs[n], dev)
    ensures Run(s, [Answer(Done), Answer(Done), Answer(Done), Other(e)]) ==
              Step(s.(pc := CreateRecord(n, s.w.objs[n], dev, iface, VrfFor(s.w, s.w.objs[n]))), Other(e))
  {
    hide InventoryConsistent, GetDeviceByName, BestLag, InterfacesOf, VrfFor, GetIPAddressByAddress, Interfere, Run;
    hide PatchFinalizers, PatchAnnotations, Insert, NewRecord, WithMetadata, WithConflict, DeviceOf, AfterGet, AfterDelete;
    Run4(s, Answer(Done), Answer(Done), Answer(Done), Other(e));
    var s1 := s.(pc := FindRecord(n, s.w.objs[n], dev, iface));
    assert Step(s, Answer(Done)) == s1;
    assert Step(s1, Answer(Done)) == s1.(pc := GetVrf(n, s.w.objs[n], dev, iface));
  }

  /** With the finalizer stored and no record of the address, six answered calls lead to the creation. */
  lemma ToCreation(s: State, n: string, dev: Device, iface: Interface, e: Env)
    requires s.pc.Idle? && Resolvable(s.w, n, dev, iface) && Ours in s.w.objs[n].finalizers && LookedUpIn(s.w, n).NoneFound?
    ensures var done := Answer(Done);
            Run(s, [Begin(n), done, done, done] + [done, done, done, Other(e)]) ==
              Step(s.(pc := CreateRecord(n, s.w.objs[n], dev, iface, VrfFor(s.w, s.w.objs[n]))), Other(e))
  {
    var done := Answer(Done);
    ToInterfaces(s, n, dev, iface);
    FromInterfaces(Run(s, [Begin(n), done, done, done]), n, dev, iface, e);
    RunAppend(s, [Begin(n), done, done, done], [done, done, done, Other(e)]);
  }

  lemma DoublesFrom(s: State, n: string, dev: Device, iface: Interface, rec: IpRecord) returns (calls: seq<Action>)
    requires s.pc.Idle? && Resolvable(s.w, n, dev, iface) && Ours in s.w.objs[n].finalizers && LookedUpIn(s.w, n).NoneFound?
    requires GetPrefix(s.w.objs[n].spec) == Some(rec.cidr) && IdsAllocated(s.w) && s.w.nextIp + 1 < MAX_INT
    ensures NobodyElse(calls) && !AtMostOne(Step(Run(s, calls + [Other(AddRecord(rec))]), Answer(Done)).w.ips)
  {
    var e, done := Other(AddRecord(rec)), Answer(Done);
    OutsideCreationDoubles(s.(pc := CreateRecord(n, s.w.objs[n], dev, iface, VrfFor(s.w, s.w.objs[n]))), rec);
    ToCreation(s, n, dev, iface, AddRecord(rec));
    hide Resolvable, AtMostOne, Run, Step;
    calls := [Begin(n), done, done, done, done, done, done];
    assert [Begin(n), done, done, done] + [done, done, done, e] == calls + [e];
  }

  /**
   From a fresh start with at most one record per address, for every object whose target can be resolved and whose address
   has no record: a run of clean reconciles in which somebody adds a record of the address just before the creation,
   so that there are two.
   */
  lemma DoubleIsCreated(s0: State, n: string, dev: Device, iface: Interface, rec: IpRecord)
    returns (before: seq<Action>, after: seq<Action>)
    requires Fresh(s0) && Resolvable(s0.w, n, dev, iface) && s0.w.nextIp + 1 < MAX_INT
    requires AtMostOne(s0.w.ips) && LookedUpIn(s0.w, n).NoneFound? && GetPrefix(s0.w.objs[n].spec) == Some(rec.cidr)
    ensures NobodyElse(before) && NobodyElse(after)
    ensures AtMostOne(Run(s0, before).w.ips) && !AtMostOne(Run(s0, before + [Other(AddRecord(rec))] + after).w.ips)
  {
    var e, o := Other(AddRecord(rec)), s0.w.objs[n];
    FreshKnowsNothing(s0, n);
    ResolvableObject(s0.w, n, dev, iface);
    FirstReconcile(s0.w, n, dev, iface);
    hide Resolvable, Fresh, AtMostOne, Run, Step, Only, Reconcile, LookedUpIn, KeyOf, IdsAllocated;
    var first := CleanPart(s0, n, o.uid, KeyOf(o));
    var s := Run(s0, first);
    assert o.finalizers + [Ours] == s.w.objs[n].finalizers && Ours in s.w.objs[n].finalizers;
    var calls := DoublesFrom(s, n, dev, iface, rec);
    RunAppend(s0, first, calls + [e]);
    before, after := first + calls, [Answer(Done)];
    StillNobodyElse(first, calls);
    assert NobodyElse(after);
    UndisturbedIsSingle(s0, before);
    assert before + [e] == first + (calls + [e]);
    RunAppend(s0, before + [e], after);
    RunOne(Run(s0, before + [e]), Answer(Done));
  }

  lemma ResolvableObject(w: World, n: string, dev: Device, iface: Interface)
    requires Resolvable(w, n, dev, iface)
    ensures n in w.objs && !w.objs[n].deleting && IdsAllocated(w)
  {
  }

  lemma RunAround(s: State, a: seq<Action>, e: Action, b: seq<Action>)
    ensures Run(s, a + [e]) == Step(Run(s, a), e) && Run(s, a + [e] + b) == Run(Step(Run(s, a), e), b)
  {
    RunAppend(s, a, [e]);
    RunOne(Run(s, a), e);
    RunAppend(s, a + [e], b);
  }

  lemma NobodyEdits(acts: seq<Action>)
    requires NobodyElse(acts)
    ensures SpecsImmutable(acts)
  {
  }

  lemma UndisturbedIsSingle(s0: State, acts: seq<Action>)
    requires Fresh(s0) && AtMostOne(s0.w.ips) && IdsAllocated(s0.w) && NobodyElse(acts)
    ensures AtMostOne(Run(s0, acts).w.ips)
  {
    SingleCreation(s0, acts);
  }

  lemma StillNobodyElse(a: seq<Action>, b: seq<Action>)
    requires NobodyElse(a) && NobodyElse(b)
    ensures NobodyElse(a + b)
  {
  }

  lemma SpecsStillImmutable(a: seq<Action>, b: seq<Action>)
    requires SpecsImmutable(a) && SpecsImmutable(b)
    ensures SpecsImmutable(a + b)
  {
  }

  lemma RunOne(s: State, a: Action)
    ensures Run(s, [a]) == Step(s, a)
  {
    assert [a][..0] == [];
  }

  // ---------- a kept object ----------

  /** Another controller adds its finalizer to a synced object, and the object is deleted. */
  lemma KeptByForeign(s: State, n: string, dev: Device, iface: Interface, f: string)
    requires s.pc.Idle? && InSync(s.w, n, dev, iface) && !s.w.objs[n].deleting
    ensures var fs := s.w.objs[n].finalizers + [Foreign(f)];
            var t := Run(s, [Other(SetFinalizers(n, fs)), Other(DeleteObject(n))]);
            && t.pc.Idle? && t.facts == s.facts && t.w == s.w.(objs := t.w.objs)
            && n in t.w.objs && t.w.objs[n] == s.w.objs[n].(finalizers := fs, deleting := true)
            && Foreign(f) in t.w.objs[n].finalizers
            && LookedUpIn(t.w, n) == LookedUpIn(s.w, n) && AnnotatedInterface(t.w.objs[n].ann) == Some(iface.id)
  {
    hide GetIPAddressByAddress;
    AtoiItoa(dev.id);
    AtoiItoa(iface.id);
    var fs := s.w.objs[n].finalizers + [Foreign(f)];
    var a, b := Other(SetFinalizers(n, fs)), Other(DeleteObject(n));
    RunAppend(s, [a], [b]);
    assert [a] + [b] == [a, b];
    RunOne(s, a);
    RunOne(Step(s, a), b);
    assert fs[|fs| - 1] == Foreign(f);
    assert Ours in fs;
  }

  /** The object is being deleted, somebody else's finalizer is on it, and its one record is where the annotations say. */
  ghost predicate KeptForDeletion(s: State, n: string, u: nat, rec: IpRecord) {
    && s.pc.Idle? && Only(s, n, u, rec.cidr) && IdsAllocated(s.w) && s.w.nextIp < MAX_INT
    && n in s.w.objs && s.w.objs[n].uid == u && s.w.objs[n].deleting && GetPrefix(s.w.objs[n].spec) == Some(rec.cidr)
    && (exists f :: f in s.w.objs[n].finalizers && f != Ours)
    && LookedUpIn(s.w, n).OneFound? && LookedUpIn(s.w, n).rec.iface == rec.iface
    && AnnotatedInterface(s.w.objs[n].ann) == Some(rec.iface)
  }

  lemma KeptFromSync(w: World, s: State, n: string, dev: Device, iface: Interface, u: nat, f: string, rec: IpRecord)
    returns (acts: seq<Action>)
    requires s.pc.Idle? && SyncedFrom(w, s.w, n, dev, iface) && w.nextIp + 1 < MAX_INT
    requires w.objs[n].uid == u && GetPrefix(w.objs[n].spec) == Some(rec.cidr) && rec.iface == iface.id
    requires Only(s, n, u, KeyOf(w.objs[n]))
    ensures SpecsImmutable(acts) && KeptForDeletion(Run(s, acts), n, u, rec)
  {
    acts := [Other(SetFinalizers(n, s.w.objs[n].finalizers + [Foreign(f)])), Other(DeleteObject(n))];
    KeptByForeign(s, n, dev, iface, f);
    IdleOnly(s, Run(s, acts), n, u, rec.cidr);
    SyncedCanBeKept(s.w, Run(s, acts).w, n, dev, iface);
    hide Run, Only, InSync, LookedUpIn;
  }

  /** Such a deletion, then the new record, then one more reconcile. */
  lemma KeptDeletes(s: State, n: string, u: nat, rec: IpRecord) returns (delete: seq<Action>, after: seq<Action>)
    requires KeptForDeletion(s, n, u, rec)
    ensures NobodyElse(delete) && NobodyElse(after)
    ensures var s' := Run(s, delete);
            && s'.pc.Idle? && n in s'.w.objs && s'.w.objs[n].uid == u && Ours !in s'.w.objs[n].finalizers
            && var t := Step(s', Other(AddRecord(rec)));
               && s'.w.nextIp in t.w.ips && t.w.ips[s'.w.nextIp] == rec && t.w.ips - {s'.w.nextIp} == s'.w.ips
               && Run(t, after).w.ips == s'.w.ips
  {
    KeptAfterDeletion(s.w, n);
    KeptObjectDeletesAgain(s.w, n, rec);
    hide Run, Only, Reconcile, LookedUpIn;
    delete := CleanPart(s, n, u, rec.cidr);
    var s' := Run(s, delete);
    var t := Step(s', Other(AddRecord(rec)));
    AddedToIdle(s', rec);
    IdleOnly(s', t, n, u, rec.cidr);
    after := CleanPart(t, n, u, rec.cidr);
  }

  /**
   From a fresh start, for every object that can be synced: another controller's finalizer keeps it after its deletion was
   reconciled; then somebody gives its address to a new record on its interface, and the next reconcile deletes that
   record.
   */
  lemma KeptObjectIsReached(s0: State, n: string, dev: Device, iface: Interface, f: string, rec: IpRecord)
    returns (before: seq<Action>, after: seq<Action>)
    requires Fresh(s0) && Resolvable(s0.w, n, dev, iface) && s0.w.nextIp + 2 < MAX_INT
    requires LookedUpIn(s0.w, n).OneFound? ==> LookedUpIn(s0.w, n).rec.iface == iface.id
    requires GetPrefix(s0.w.objs[n].spec) == Some(rec.cidr) && rec.iface == iface.id
    ensures SpecsImmutable(before) && NobodyElse(after)
    ensures var s := Run(s0, before);
            && s.pc.Idle? && n in s.w.objs && s.w.objs[n].uid == s0.w.objs[n].uid && Ours !in s.w.objs[n].finalizers
            && var t := Run(s0, before + [Other(AddRecord(rec))]);
               && s.w.nextIp in t.w.ips && t.w.ips[s.w.nextIp] == rec && t.w.ips - {s.w.nextIp} == s.w.ips
               && Run(s0, before + [Other(AddRecord(rec))] + after).w.ips == s.w.ips
  {
    var u, e := s0.w.objs[n].uid, Other(AddRecord(rec));
    hide Run, Step, Fresh, Only, SyncedFrom, Resolvable, LookedUpIn, KeptForDeletion, KeyOf, SpecsImmutable, NobodyElse;
    var sync := ReachesSync(s0, n, dev, iface);
    var kept := KeptFromSync(s0.w, Run(s0, sync), n, dev, iface, u, f, rec);
    var delete;
    RunAppend(s0, sync, kept);
    delete, after := KeptDeletes(Run(s0, sync + kept), n, u, rec);
    before := sync + kept + delete;
    RunAppend(s0, sync + kept, delete);
    RunAround(s0, before, e, after);
    NobodyEdits(sync);
    NobodyEdits(delete);
    SpecsStillImmutable(sync, kept);
    SpecsStillImmutable(sync + kept, delete);
  }

  lemma SyncedCanBeKept(w: World, w': World, n: string, dev: Device, iface: Interface)
    requires InSync(w, n, dev, iface) && n in w'.objs && LookedUpIn(w', n) == LookedUpIn(w, n)
    ensures LookedUpIn(w', n).OneFound? && LookedUpIn(w', n).rec.iface == iface.id
  {
  }

  lemma IdleOnly(s: State, t: State, n: string, u: nat, c: Cidr)
    requires Only(s, n, u, c) && t.pc.Idle? && t.facts == s.facts
    ensures Only(t, n, u, c)
  {
  }

  lemma AddedToIdle(s: State, rec: IpRecord)
    requires s.pc.Idle? && s.w.nextIp < MAX_INT && IdsAllocated(s.w)
    ensures var t := Step(s, Other(AddRecord(rec)));
            t.pc.Idle? && t.facts == s.facts && t.w == Insert(s.w, rec) && t.w.ips - {s.w.nextIp} == s.w.ips
  {
  }
}
