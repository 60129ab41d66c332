/**
 The IPUpdate controller in its own form: methods that call the two API servers and branch on the answers.
 Before every call anybody else may have acted, and every call may be refused or lose its reply.
 Each execution is proved to be a run of the step machine, so what is proved about runs holds of these methods.
 */
module IPUpdateController {
  import opened Wrappers
  import opened Decimal
  import opened Netbox
  import opened MergePatch
  import opened IPUpdate
  import opened IPUpdateSafety
  import opened IPUpdateRecords
  import opened IPUpdateOutcome
  import Clean = IPUpdateConvergence

  /** What `reconcileNetboxAddressIP` returns: the record's id, the conflict error, or another error. */
  datatype AddressResult = Settled(id: Id) | Conflict(kind: string) | AddressError

  datatype LookupReply = LookupReply(found: Found, device: int)

  /** What everybody else does, before each call. */
  type Schedule = r: imap<nat, seq<Env>> | forall k: nat :: k in r ghost witness imap k: nat :: []

  /** None of the calls with these numbers failed, and nobody else acted before any of them. */
  predicate Undisturbed(replies: Replies, others: Schedule, from: nat, end: nat)
    decreases end
  {
    end <= from || (replies[end - 1] == Done && others[end - 1] == [] && Undisturbed(replies, others, from, end - 1))
  }

  lemma {:induction false} UndisturbedParts(replies: Replies, others: Schedule, from: nat, mid: nat, end: nat)
    requires from <= mid <= end && Undisturbed(replies, others, from, end)
    ensures Undisturbed(replies, others, from, mid) && Undisturbed(replies, others, mid, end)
    decreases end
  {
    if mid < end { UndisturbedParts(replies, others, from, mid, end - 1); }
  }

  lemma {:induction false} UndisturbedMeaning(replies: Replies, others: Schedule, from: nat, end: nat)
    ensures Undisturbed(replies, others, from, end) <==> forall k: nat | from <= k < end :: replies[k] == Done && others[k] == []
    decreases end
  {
    if from < end { UndisturbedMeaning(replies, others, from, end - 1); }
  }

  /** Why a deletion that went through can drop the finalizer. */
  function WhyDone(found: Found, ann: Annotations): Why {
    if found.NoneFound? then NotFound
    else if AnnotatedInterface(ann).None? then Unannotated
    else if found.OneFound? && found.rec.iface != AnnotatedInterface(ann).value then OtherInterface
    else Deleted
  }

  lemma FinalizerCall(s: State, r: Reply, fs: seq<Finalizer>)
    requires s.pc.AddFinalizer? || s.pc.RemoveFinalizer?
    requires fs == if s.pc.AddFinalizer? then s.pc.o.finalizers + [Ours] else Without(s.pc.o.finalizers)
    ensures var t := Call(s, r);
            t.pc.Idle? && t.facts == s.facts && t.w == if r == Refused then s.w else PatchFinalizers(s.w, s.pc.n, fs)
    ensures OutcomeOf(s, r) == if r != Done || s.pc.n !in s.w.objs then Failed
                               else if s.pc.AddFinalizer? then FinalizerAdded else FinalizerDropped
  {
  }

  lemma FindCall(s: State, r: Reply)
    requires s.pc.FindForDelete? || s.pc.FindRecord?
    ensures var t, pc, found := Call(s, r), s.pc, LookedUp(s, s.pc.o);
            && t.w == s.w
            && t.pc == if r != Done then Idle
                       else if pc.FindForDelete? then AfterFindForDelete(pc.n, pc.o, found)
                       else AfterFindRecord(pc.n, pc.o, pc.dev, pc.iface, found, DeviceOf(s.w.ifaces, pc.iface.id))
    ensures OutcomeOf(s, r) == if r == Done && s.pc.FindForDelete? && !LookedUp(s, s.pc.o).ManyFound? then NothingToDo else Failed
  {
    hide AfterFindForDelete, AfterFindRecord, Learned;
  }

  lemma PrimaryCall(s: State, r: Reply)
    requires s.pc.SetPrimary?
    ensures var t, pc, d := Call(s, r), s.pc, s.pc.dev;
            && t.w == (if r == Refused || d.id !in s.w.devices then s.w
                       else s.w.(devices := s.w.devices[d.id := d.(primary4 := pc.id)]))
            && t.pc == if r == Done && d.id in s.w.devices then PatchMetadata(pc.n, pc.o, d, pc.iface) else Idle
    ensures OutcomeOf(s, r) == Failed
  {
    hide Learned;
  }

  lemma CreateCall(s: State, r: Reply)
    requires s.pc.CreateRecord? && GetPrefix(s.pc.o.spec).Some?
    ensures var t, pc := Call(s, r), s.pc;
            && t.w == (if r == Refused || s.w.nextIp >= MAX_INT then s.w
                       else Insert(s.w, NewRecord(pc.o, pc.dev, pc.iface, pc.vrf)))
            && t.pc == if r == Done && s.w.nextIp < MAX_INT then AfterAddress(pc.n, pc.o, pc.dev, pc.iface, s.w.nextIp) else Idle
    ensures OutcomeOf(s, r) == Failed
  {
    hide Learned, AfterAddress, NewRecord;
  }

  lemma MetadataCall(s: State, r: Reply)
    requires s.pc.PatchMetadata?
    ensures var t, pc := Call(s, r), s.pc;
            && t.w == (if r == Refused then s.w
                       else PatchAnnotations(s.w, pc.n, pc.o.ann, WithMetadata(pc.o.ann, pc.dev, pc.iface)))
            && t.pc.Idle?
            && (r == Done && pc.n in s.w.objs ==> Annotated(pc.o.uid, KeyOf(pc.o), pc.iface.id) in t.facts)
    ensures OutcomeOf(s, r) == if r == Done && s.pc.n in s.w.objs then Updated(s.pc.o, s.pc.iface) else Failed
  {
  }

  lemma MetadataStored(w: World, n: string, base: Annotations, dev: Device, iface: Interface)
    requires n in w.objs && OursUnchanged(base, w.objs[n].ann)
    ensures var t := PatchAnnotations(w, n, base, WithMetadata(base, dev, iface));
            n in t.objs ==> Names(t.objs[n].ann, dev.id, iface.id) && OthersKept(w.objs[n].ann, t.objs[n].ann)
  {
    MetadataPatched(base, w.objs[n].ann, dev, iface);
    hide WithMetadata, Apply, Diff, Names, OthersKept;
  }

  lemma ConflictStored(w: World, n: string, base: Annotations, kind: string)
    requires n in w.objs && OursUnchanged(base, w.objs[n].ann)
    ensures var t := PatchAnnotations(w, n, base, WithConflict(base, kind));
            n in t.objs ==> NamesConflict(w.objs[n].ann, t.objs[n].ann, kind) && OthersKept(w.objs[n].ann, t.objs[n].ann)
  {
    ConflictPatched(base, w.objs[n].ann, kind);
    hide WithConflict, Apply, Diff, NamesConflict, OthersKept;
  }

  lemma InterfacesCall(s: State, r: Reply)
    requires s.pc.GetInterfaces?
    ensures var t, best := Call(s, r), BestLag(InterfacesOf(s.w.ifaces, s.pc.dev.id));
            && t.w == s.w
            && t.pc == if r == Done && best.Some? then FindRecord(s.pc.n, s.pc.o, s.pc.dev, best.value) else Idle
    ensures OutcomeOf(s, r) == Failed
  {
  }

  class Reconciler {
    var w: World
    const replies: Replies
    const others: Schedule
    /** The number of calls made so far. */
    var calls: nat
    ghost const start: State
    ghost var trace: seq<Action>
    /** Where the current reconcile began, in the trace and in the calls. */
    ghost var mark: nat
    ghost var first: nat

    ghost function Now(): State
      reads `trace
    {
      Run(start, trace)
    }

    /** What the last call of the trace makes a reconcile return that ends with it. */
    ghost function Verdict(): Outcome
      reads `trace
    {
      if trace != [] && trace[|trace| - 1].Answer? then OutcomeOf(Run(start, trace[..|trace| - 1]), trace[|trace| - 1].r)
      else Failed
    }

    /** The last thing that happened is that a pending call was answered. */
    ghost predicate JustAnswered()
      reads `trace
    {
      trace != [] && trace[|trace| - 1].Answer? && !Run(start, trace[..|trace| - 1]).pc.Idle?
    }

    ghost predicate Valid()
      reads this
    {
      Now().w == w && Tidy()
    }

    /** In an undisturbed reconcile the trace consists of answered calls. */
    ghost predicate Tidy()
      reads `trace, `calls, `mark, `first
    {
      && mark <= |trace| && first <= calls
      && (Undisturbed(replies, others, first, calls) ==> forall i | mark <= i < |trace| :: trace[i] == Answer(Done))
    }

    constructor (ghost start: State, w: World, replies: Replies, others: Schedule)
      requires start.w == w
      ensures this.start == start && this.w == w && this.replies == replies && this.others == others
      ensures trace == [] && calls == 0 && Valid()
    {
      this.start := start;
      this.w := w;
      this.replies, this.others := replies, others;
      this.calls := 0;
      this.trace := [];
      this.mark, this.first := 0, 0;
    }

    ghost method Log(a: Action)
      modifies `trace
      ensures trace == old(trace) + [a] && Now() == Step(old(Now()), a)
    {
      trace := trace + [a];
      assert trace[..|trace| - 1] == old(trace);
    }

    // ---------- the environment and the API calls ----------

    /** Before a call takes effect users, administrators and other controllers may act; then it is answered. */
    method Others() returns (r: Reply)
      requires Valid()
      modifies `w, `trace, `calls
      ensures Valid() && old(trace) <= trace && calls == old(calls) + 1 && first < calls && r == replies[old(calls)]
      ensures Now().pc == old(Now().pc) && Now().facts == old(Now().facts)
      ensures others[old(calls)] == [] ==> w == old(w)
    {
      hide Interfere, Call, Run;
      var es := others[calls];
      r := replies[calls];
      calls := calls + 1;
      for i := 0 to |es|
        invariant Valid() && old(trace) <= trace && calls == old(calls) + 1 && first < calls && es == others[old(calls)]
        invariant Now().pc == old(Now().pc) && Now().facts == old(Now().facts)
        invariant es == [] ==> w == old(w)
      {
        w := Interfere(w, es[i]);
        Log(Other(es[i]));
      }
    }

    /** The server answers the pending call with r. */
    ghost method Answers(r: Reply)
      requires !Now().pc.Idle? && Tidy() && first < calls && r == replies[calls - 1]
      modifies `trace
      ensures old(trace) <= trace && Now() == Call(old(Now()), r) && Tidy() && Verdict() == OutcomeOf(old(Now()), r) && JustAnswered()
    {
      hide Call, OutcomeOf;
      Log(Answer(r));
      assert trace[..|trace| - 1] == old(trace);
    }

    method Get(n: string) returns (ok: bool, o: Option<Obj>)
      requires Valid() && Now().pc == GetObject(n)
      modifies `w, `trace, `calls
      ensures ok <==> replies[old(calls)].Done?
      ensures Valid() && JustAnswered() && old(trace) <= trace && calls == old(calls) + 1
      ensures Now().pc == if o.Some? then AfterGet(n, o.value) else Idle
      ensures ok ==> o == if n in w.objs then Some(w.objs[n]) else None
      ensures (o.Some? ==> ok) && (Now().pc.Idle? ==> Verdict() == if ok && o.None? then NothingToDo else Failed)
    {
      hide JustAnswered, Tidy, Undisturbed, Run, Interfere, Apply, Diff, StoreObj;
      var r := Others();
      Answers(r);
      ok := r.Done?;
      o := if ok && n in w.objs then Some(w.objs[n]) else None;
    }

    /** The finalizer patch, adding or removing. */
    method PatchFinalizerList(n: string, fs: seq<Finalizer>) returns (ok: bool)
      requires Valid() && (Now().pc.AddFinalizer? || Now().pc.RemoveFinalizer?) && Now().pc.n == n
      requires fs == if Now().pc.AddFinalizer? then Now().pc.o.finalizers + [Ours] else Without(Now().pc.o.finalizers)
      modifies `w, `trace, `calls
      ensures ok ==> replies[old(calls)].Done?
      ensures Valid() && JustAnswered() && old(trace) <= trace && calls == old(calls) + 1 && Now().pc.Idle?
      ensures Verdict() == if !ok then Failed else if old(Now().pc.AddFinalizer?) then FinalizerAdded else FinalizerDropped
    {
      hide JustAnswered, OutcomeOf, Call, Tidy, Undisturbed, Run, Interfere, Apply, Diff, StoreObj;
      var r := Others();
      ok := r.Done? && n in w.objs;
      if r != Refused { w := PatchFinalizers(w, n, fs); }
      FinalizerCall(Now(), r, fs);
      Answers(r);
    }

    /** `updateIPAddressMetadata`: the patch is computed against the annotations that were read. */
    method UpdateMetadata(n: string, o: Obj, dev: Device, iface: Interface) returns (ok: bool)
      requires Valid() && Now().pc == PatchMetadata(n, o, dev, iface)
      modifies `w, `trace, `calls
      ensures ok ==> replies[old(calls)].Done?
      ensures Valid() && JustAnswered() && old(trace) <= trace && calls == old(calls) + 1 && Now().pc.Idle?
      ensures Verdict() == if ok then Updated(o, iface) else Failed
      ensures ok ==> Annotated(o.uid, KeyOf(o), iface.id) in Now().facts
      ensures others[old(calls)] == [] && !replies[old(calls)].Refused? && n in old(w).objs && n in w.objs
              && OursUnchanged(o.ann, old(w).objs[n].ann) ==>
                Names(w.objs[n].ann, dev.id, iface.id) && OthersKept(old(w).objs[n].ann, w.objs[n].ann)
    {
      hide JustAnswered, OursUnchanged, Names, OthersKept, OutcomeOf, Call, PatchAnnotations, WithMetadata, Tidy, Undisturbed, Run, Interfere, Apply, Diff, StoreObj;
      var r := Others();
      if n in w.objs && OursUnchanged(o.ann, w.objs[n].ann) {
        MetadataStored(w, n, o.ann, dev, iface);
      }
      ok := r.Done? && n in w.objs;
      if r != Refused { w := PatchAnnotations(w, n, o.ann, WithMetadata(o.ann, dev, iface)); }
      MetadataCall(Now(), r);
      Answers(r);
    }

    /** `setConflictAnnotation`. */
    method SetConflict(n: string, o: Obj, kind: string) returns (ok: bool)
      requires Valid() && Now().pc == PatchConflict(n, o, kind)
      modifies `w, `trace, `calls
      ensures ok ==> replies[old(calls)].Done?
      ensures Valid() && JustAnswered() && old(trace) <= trace && calls == old(calls) + 1 && Now().pc.Idle?
      ensures Verdict() == if ok then Conflicted else Failed
      ensures others[old(calls)] == [] && !replies[old(calls)].Refused? && n in old(w).objs && n in w.objs
              && OursUnchanged(o.ann, old(w).objs[n].ann) ==>
                NamesConflict(old(w).objs[n].ann, w.objs[n].ann, kind) && OthersKept(old(w).objs[n].ann, w.objs[n].ann)
    {
      hide JustAnswered, OursUnchanged, NamesConflict, OthersKept, PatchAnnotations, WithConflict, Tidy, Undisturbed, Run, Interfere, Apply, Diff, StoreObj;
      var r := Others();
      if n in w.objs && OursUnchanged(o.ann, w.objs[n].ann) {
        ConflictStored(w, n, o.ann, kind);
      }
      ok := r.Done? && n in w.objs;
      if r != Refused { w := PatchAnnotations(w, n, o.ann, WithConflict(o.ann, kind)); }
      Answers(r);
    }

    /** The lookup of the object's address; the reply carries the device of the found record's interface. */
    method FindByAddress(c: Cidr, iface: Id) returns (reply: Option<LookupReply>)
      requires Valid() && (Now().pc.FindForDelete? || (Now().pc.FindRecord? && Now().pc.iface.id == iface)) && KeyOf(Now().pc.o) == c
      modifies `w, `trace, `calls
      ensures reply.Some? <==> replies[old(calls)].Done?
      ensures Valid() && JustAnswered() && old(trace) <= trace && calls == old(calls) + 1
      ensures var pc := old(Now().pc);
              Now().pc ==
                if reply.None? then Idle
                else if pc.FindForDelete? then AfterFindForDelete(pc.n, pc.o, reply.value.found)
                else AfterFindRecord(pc.n, pc.o, pc.dev, pc.iface, reply.value.found, reply.value.device)
      ensures Now().pc.Idle? ==>
                Verdict() == if reply.Some? && old(Now().pc.FindForDelete?) && !reply.value.found.ManyFound? then NothingToDo
                             else Failed
      ensures reply.Some? ==> reply.value.found == GetIPAddressByAddress(w.ips, c)
      ensures others[old(calls)] == [] ==> w == old(w)
    {
      hide JustAnswered, OutcomeOf, Call, AfterFindForDelete, AfterFindRecord, GetIPAddressByAddress, DeviceOf, Tidy, Undisturbed, Run, Interfere, Apply, Diff, StoreObj;
      var r := Others();
      FindCall(Now(), r);
      Answers(r);
      reply := if r.Done? then Some(LookupReply(GetIPAddressByAddress(w.ips, c), DeviceOf(w.ifaces, iface))) else None;
    }

    method DeleteIPAddress(id: Id) returns (ok: bool)
      requires Valid() && Now().pc.DeleteRecord? && Now().pc.id == id
      modifies `w, `trace, `calls
      ensures ok ==> replies[old(calls)].Done?
      ensures Valid() && JustAnswered() && old(trace) <= trace && calls == old(calls) + 1
      ensures Now().pc == if ok then AfterDelete(old(Now().pc.n), old(Now().pc.o), Deleted) else Idle
      ensures Now().pc.Idle? ==> Verdict() == if ok then NothingToDo else Failed
    {
      hide JustAnswered, Tidy, Undisturbed, Run, Interfere, Apply, Diff, StoreObj;
      var r := Others();
      ok := r.Done? && id in w.ips;
      if r != Refused { w := w.(ips := w.ips - {id}); }
      Answers(r);
    }

    method GetDeviceName(n: string) returns (name: Option<string>)
      requires Valid() && Now().pc.FindDeviceName? && Now().pc.n == n
      modifies `w, `trace, `calls
      ensures name.Some? ==> replies[old(calls)].Done?
      ensures Valid() && JustAnswered() && old(trace) <= trace && calls == old(calls) + 1 && (Now().pc.Idle? ==> Verdict() == Failed)
      ensures Now().pc == if name.Some? then GetDevice(n, old(Now().pc.o), name.value) else Idle
    {
      hide JustAnswered, Tidy, Undisturbed, Run, Interfere, Apply, Diff, StoreObj;
      var r := Others();
      Answers(r);
      name := if r.Done? && n in w.bmcOf then Some(w.bmcOf[n]) else None;
    }

    method DeviceByName(name: string) returns (dev: Option<Device>)
      requires Valid() && Now().pc.GetDevice? && Now().pc.name == name
      modifies `w, `trace, `calls
      ensures dev.Some? ==> replies[old(calls)].Done?
      ensures Valid() && JustAnswered() && old(trace) <= trace && calls == old(calls) + 1 && (Now().pc.Idle? ==> Verdict() == Failed)
      ensures Now().pc == if dev.Some? then GetInterfaces(old(Now().pc.n), old(Now().pc.o), dev.value) else Idle
    {
      hide JustAnswered, Tidy, Undisturbed, Run, Interfere, Apply, Diff, StoreObj;
      var r := Others();
      Answers(r);
      dev := if r.Done? then GetDeviceByName(w.devices, name) else None;
    }

    method InterfacesForDevice(dev: Device) returns (ifaces: Option<seq<Interface>>)
      requires Valid() && Now().pc.GetInterfaces? && Now().pc.dev == dev
      modifies `w, `trace, `calls
      ensures ifaces.Some? <==> replies[old(calls)].Done?
      ensures Valid() && JustAnswered() && old(trace) <= trace && calls == old(calls) + 1 && (Now().pc.Idle? ==> Verdict() == Failed)
      ensures Now().pc ==
                if ifaces.Some? && BestLag(ifaces.value).Some?
                then FindRecord(old(Now().pc.n), old(Now().pc.o), dev, BestLag(ifaces.value).value) else Idle
    {
      hide JustAnswered, OutcomeOf, Call, BestLag, InterfacesOf, Tidy, Undisturbed, Run, Interfere, Apply, Diff, StoreObj;
      var r := Others();
      InterfacesCall(Now(), r);
      Answers(r);
      ifaces := if r.Done? then Some(InterfacesOf(w.ifaces, dev.id)) else None;
    }

    method PrefixVrfs(c: Cidr) returns (vrfs: Option<seq<int>>)
      requires Valid() && Now().pc.GetVrf? && KeyOf(Now().pc.o) == c
      modifies `w, `trace, `calls
      ensures vrfs.Some? <==> replies[old(calls)].Done?
      ensures Valid() && JustAnswered() && old(trace) <= trace && calls == old(calls) + 1 && (Now().pc.Idle? ==> Verdict() == Failed)
      ensures var pc := old(Now().pc);
              Now().pc == if vrfs.None? then Idle
                          else CreateRecord(pc.n, pc.o, pc.dev, pc.iface, UniqueVrf(vrfs.value))
      ensures others[old(calls)] == [] && vrfs.Some? ==> UniqueVrf(vrfs.value) == VrfFor(old(w), old(Now().pc.o))
    {
      hide JustAnswered, Tidy, Undisturbed, Run, Interfere, Apply, Diff, StoreObj;
      var r := Others();
      Answers(r);
      vrfs := if r.Done? then Some(if c in w.vrfs then w.vrfs[c] else []) else None;
    }

    method CreateIPAddress(rec: IpRecord) returns (id: Option<Id>)
      requires Valid() && Now().pc.CreateRecord? && GetPrefix(Now().pc.o.spec).Some?
      requires rec == NewRecord(Now().pc.o, Now().pc.dev, Now().pc.iface, Now().pc.vrf)
      modifies `w, `trace, `calls
      ensures id.Some? ==> replies[old(calls)].Done?
      ensures Valid() && JustAnswered() && old(trace) <= trace && calls == old(calls) + 1 && (Now().pc.Idle? ==> Verdict() == Failed)
      ensures var pc := old(Now().pc);
              Now().pc == if id.Some? then AfterAddress(pc.n, pc.o, pc.dev, pc.iface, id.value) else Idle
      ensures id.Some? ==> id.value in w.ips && w.ips[id.value] == rec
    {
      hide JustAnswered, OutcomeOf, Call, AfterAddress, NewRecord, Tidy, Undisturbed, Run, Interfere, Apply, Diff, StoreObj;
      var r := Others();
      id := if r.Done? && w.nextIp < MAX_INT then Some(w.nextIp) else None;
      if r != Refused && w.nextIp < MAX_INT { w := Insert(w, rec); }
      CreateCall(Now(), r);
      Answers(r);
    }

    /** A write of all fields of a device, as built from the copy that was read. */
    method UpdateDevice(d: Device) returns (ok: bool)
      requires Valid() && Now().pc.SetPrimary? && d == Now().pc.dev.(primary4 := Now().pc.id)
      modifies `w, `trace, `calls
      ensures ok ==> replies[old(calls)].Done?
      ensures Valid() && JustAnswered() && old(trace) <= trace && calls == old(calls) + 1 && (Now().pc.Idle? ==> Verdict() == Failed)
      ensures var pc := old(Now().pc); Now().pc == if ok then PatchMetadata(pc.n, pc.o, pc.dev, pc.iface) else Idle
    {
      hide JustAnswered, OutcomeOf, Call, Tidy, Undisturbed, Run, Interfere, Apply, Diff, StoreObj;
      var r := Others();
      ok := r.Done? && d.id in w.devices;
      if r != Refused && d.id in w.devices { w := w.(devices := w.devices[d.id := d]); }
      PrimaryCall(Now(), r);
      Answers(r);
    }

    // ---------- the controller ----------

    /** `reconcileDelete`. */
    method ReconcileDelete(n: string, o: Obj, c: Cidr) returns (ok: bool, ghost found: Found)
      requires Valid() && Now().pc == FindForDelete(n, o) && KeyOf(o) == c
      modifies `w, `trace, `calls
      ensures ok ==> Answered(replies, old(calls), calls)
      ensures Valid() && JustAnswered() && old(trace) <= trace && old(calls) < calls
      ensures !ok ==> Now().pc.Idle? && Verdict() == Failed
      ensures ok && Now().pc.Idle? ==> Verdict() == NothingToDo
      ensures ok ==> (found.NoneFound? || found.OneFound?) && Now().pc == AfterDelete(n, o, WhyDone(found, o.ann))
      ensures others[old(calls)] == [] ==> found == GetIPAddressByAddress(old(w).ips, c)
    {
      hide JustAnswered, Answered, OutcomeOf, Tidy, Undisturbed, Run, Interfere;
      ghost var k := calls;
      AnsweredOne(replies, k);
      AnsweredOne(replies, k + 1);
      AnsweredParts(replies, k, k + 1, k + 2);
      var reply := FindByAddress(c, 1);
      found := GetIPAddressByAddress(w.ips, c);
      if reply.None? { return false, found; }
      var nbIP := reply.value.found;
      if nbIP.NoneFound? { return true, found; }
      if nbIP.ManyFound? { return false, found; }
      var interfaceID := AnnotatedInterface(o.ann);
      if interfaceID.None? { return true, found; }
      if nbIP.rec.iface != interfaceID.value { return true, found; }
      ok := DeleteIPAddress(nbIP.id);
    }

    /** `createIPAddress`. */
    method CreateAddress(c: Cidr, ghost n: string, ghost o: Obj, dev: Device, iface: Interface) returns (id: Option<Id>)
      requires Valid() && Now().pc == GetVrf(n, o, dev, iface) && GetPrefix(o.spec) == Some(c)
      modifies `w, `trace, `calls
      ensures id.Some? ==> Answered(replies, old(calls), calls)
      ensures Valid() && JustAnswered() && old(trace) <= trace && old(calls) < calls
      ensures Now().pc == if id.Some? then AfterAddress(n, o, dev, iface, id.value) else Idle
      ensures id.None? ==> Verdict() == Failed
      ensures id.Some? ==> id.value in w.ips && exists vrfs :: w.ips[id.value] == IpRecord(c, iface.id, dev.tenant, UniqueVrf(vrfs))
      ensures others[old(calls)] == [] && id.Some? ==> w.ips[id.value] == NewRecord(o, dev, iface, VrfFor(old(w), o))
    {
      hide JustAnswered, Answered, OutcomeOf, Tidy, Undisturbed, Run, Interfere;
      ghost var k := calls;
      AnsweredOne(replies, k);
      AnsweredOne(replies, k + 1);
      AnsweredParts(replies, k, k + 1, k + 2);
      var vrfs := PrefixVrfs(c);
      if vrfs.None? { return None; }
      var vrfID := 0;
      if |vrfs.value| == 1 { vrfID := vrfs.value[0]; }
      assert vrfID == UniqueVrf(vrfs.value);
      id := CreateIPAddress(IpRecord(c, iface.id, dev.tenant, vrfID));
    }

    /** `reconcileNetboxAddressIP`. */
    method ReconcileAddress(c: Cidr, ghost n: string, ghost o: Obj, dev: Device, iface: Interface) returns (res: AddressResult)
      requires Valid() && Now().pc == FindRecord(n, o, dev, iface) && GetPrefix(o.spec) == Some(c)
      modifies `w, `trace, `calls
      ensures !res.AddressError? ==> Answered(replies, old(calls), calls)
      ensures Valid() && JustAnswered() && old(trace) <= trace && old(calls) < calls
      ensures match res
              case Settled(id) => Now().pc == AfterAddress(n, o, dev, iface, id)
              case Conflict(kind) => Now().pc == PatchConflict(n, o, kind)
              case AddressError => Now().pc.Idle? && Verdict() == Failed
    {
      hide JustAnswered, Answered, OutcomeOf, Tidy, Undisturbed, Run, Interfere;
      ghost var k := calls;
      AnsweredOne(replies, k);
      var reply := FindByAddress(c, iface.id);
      if reply.None? { return AddressError; }
      match reply.value.found {
        case NoneFound =>
          var id := CreateAddress(c, n, o, dev, iface);
          AnsweredParts(replies, k, k + 1, calls);
          return if id.Some? then Settled(id.value) else AddressError;
        case ManyFound => return AddressError;
        case OneFound(id, rec) =>
          if rec.iface != iface.id { return Conflict("interface"); }
          if dev.id != reply.value.device { return Conflict("device"); }
          return Settled(id);
      }
    }

    /** `reconcileDevicePrimaryIP`. */
    method ReconcilePrimary(id: Id, ghost n: string, ghost o: Obj, dev: Device, ghost iface: Interface) returns (ok: bool)
      requires Valid() && JustAnswered() && Now().pc == AfterAddress(n, o, dev, iface, id)
      modifies `w, `trace, `calls
      ensures ok ==> Answered(replies, old(calls), calls)
      ensures Valid() && JustAnswered() && old(trace) <= trace && old(calls) <= calls
      ensures Now().pc == if ok then PatchMetadata(n, o, dev, iface) else Idle
      ensures !ok ==> Verdict() == Failed
    {
      hide JustAnswered, OutcomeOf, Tidy, Undisturbed, Run, Interfere;
      AnsweredOne(replies, calls);
      if dev.primary4 == id { return true; }
      ok := UpdateDevice(dev.(primary4 := id));
    }

    /** `findNetboxTarget`. */
    method FindTarget(n: string, ghost o: Obj) returns (dev: Option<Device>, iface: Option<Interface>)
      requires Valid() && Now().pc == FindDeviceName(n, o)
      modifies `w, `trace, `calls
      ensures dev.Some? && iface.Some? ==> Answered(replies, old(calls), calls)
      ensures Valid() && JustAnswered() && old(trace) <= trace && old(calls) < calls
      ensures Now().pc == if dev.Some? && iface.Some? then FindRecord(n, o, dev.value, iface.value) else Idle
      ensures Now().pc.Idle? ==> Verdict() == Failed
    {
      hide JustAnswered, Answered, OutcomeOf, Tidy, Undisturbed, Run, Interfere;
      ghost var k := calls;
      AnsweredOne(replies, k);
      AnsweredOne(replies, k + 1);
      AnsweredOne(replies, k + 2);
      AnsweredParts(replies, k, k + 1, k + 2);
      AnsweredParts(replies, k, k + 2, k + 3);
      iface := None;
      dev := None;
      var name := GetDeviceName(n);
      if name.None? { return; }
      dev := DeviceByName(name.value);
      if dev.None? { return; }
      var ifaces := InterfacesForDevice(dev.value);
      if ifaces.None? { return; }
      iface := FindTargetInterface(ifaces.value);
    }

    /** The part of `Reconcile` for an object that is not being deleted and has the finalizer. */
    method Sync(n: string, o: Obj, c: Cidr) returns (out: Outcome)
      requires Valid() && Now().pc == FindDeviceName(n, o) && GetPrefix(o.spec) == Some(c)
      modifies `w, `trace, `calls
      ensures !out.Failed? ==> Answered(replies, old(calls), calls)
      ensures Valid() && JustAnswered() && old(trace) <= trace && old(calls) < calls && Now().pc.Idle?
      ensures out == Verdict()
      ensures out.Updated? ==> Annotated(out.o.uid, KeyOf(out.o), out.iface.id) in Now().facts
    {
      hide JustAnswered, Answered, OutcomeOf, Tidy, Undisturbed, Run, Interfere;
      ghost var k := calls;
      var dev, iface := FindTarget(n, o);
      if dev.None? || iface.None? { return Failed; }
      ghost var k1 := calls;
      var res := ReconcileAddress(c, n, o, dev.value, iface.value);
      ghost var k2 := calls;
      AnsweredParts(replies, k, k1, k2);
      match res {
        case AddressError => return Failed;
        case Conflict(kind) =>
          AnsweredOne(replies, k2);
          AnsweredParts(replies, k, k2, k2 + 1);
          var ok := SetConflict(n, o, kind);
          return if ok then Conflicted else Failed;
        case Settled(id) =>
          out := Record(n, o, dev.value, iface.value, id);
          AnsweredParts(replies, k, k2, calls);
      }
    }

    /** The last two steps of the sync: the primary IP, then the annotations. */
    method Record(n: string, o: Obj, dev: Device, iface: Interface, id: Id) returns (out: Outcome)
      requires Valid() && JustAnswered() && Now().pc == AfterAddress(n, o, dev, iface, id)
      modifies `w, `trace, `calls
      ensures !out.Failed? ==> Answered(replies, old(calls), calls)
      ensures Valid() && JustAnswered() && old(trace) <= trace && old(calls) <= calls && Now().pc.Idle?
      ensures out == Verdict()
      ensures out.Updated? ==> Annotated(out.o.uid, KeyOf(out.o), out.iface.id) in Now().facts
    {
      hide JustAnswered, Answered, OutcomeOf, Tidy, Undisturbed, Run, Interfere;
      ghost var k := calls;
      var ok := ReconcilePrimary(id, n, o, dev, iface);
      if !ok { return Failed; }
      AnsweredOne(replies, calls);
      AnsweredParts(replies, k, calls, calls + 1);
      ok := UpdateMetadata(n, o, dev, iface);
      return if ok then Updated(o, iface) else Failed;
    }

    /** The part of `Reconcile` for an object that is being deleted. */
    method Delete(n: string, o: Obj, c: Cidr) returns (out: Outcome)
      requires Valid() && Now().pc == FindForDelete(n, o) && KeyOf(o) == c
      modifies `w, `trace, `calls
      ensures !out.Failed? ==> Answered(replies, old(calls), calls)
      ensures Valid() && JustAnswered() && old(trace) <= trace && old(calls) < calls && Now().pc.Idle?
      ensures out == Verdict() && !out.Updated?
    {
      hide JustAnswered, Answered, OutcomeOf, Tidy, Undisturbed, Run, Interfere;
      ghost var k := calls;
      var ok, found := ReconcileDelete(n, o, c);
      if !ok { return Failed; }
      if Ours in o.finalizers {
        AnsweredOne(replies, calls);
        AnsweredParts(replies, k, calls, calls + 1);
        ok := PatchFinalizerList(n, Without(o.finalizers));
        return if ok then FinalizerDropped else Failed;
      }
      return NothingToDo;
    }

    /**
     `Reconcile`: whatever happens around it and whichever calls fail, the execution extends the run of the step
     machine; success is reported only once the history has the interface as assigned and recorded.  If no call fails and
     nobody else acts, what it does is the clean reconcile, which is proved to converge.
     */
    method Reconcile(n: string) returns (out: Outcome)
      requires Valid() && Now().pc.Idle?
      modifies this
      ensures Valid() && old(trace) <= trace && old(calls) < calls && Now().pc.Idle?
      ensures out == Verdict()
      ensures !out.Failed? ==> Answered(replies, old(calls), calls)
      ensures Undisturbed(replies, others, old(calls), calls) ==> out == CleanOutcome(old(w), n)
      ensures out.Updated? ==> Annotated(out.o.uid, KeyOf(out.o), out.iface.id) in Now().facts
      ensures Undisturbed(replies, others, old(calls), calls) ==> w == Clean.Reconcile(old(w), n)
    {
      hide Answered, CleanOutcome, Call, Interfere, Undisturbed, OutcomeOf, Clean.Reconcile;
      ghost var before := Now();
      Log(Begin(n));
      mark, first := |trace|, calls;
      ghost var begun := trace;
      out := Begun(n);
      if Undisturbed(replies, others, old(calls), calls) { CleanEnd(start, before, n, begun, trace); }
    }

    method Begun(n: string) returns (out: Outcome)
      requires Valid() && Now().pc == GetObject(n)
      modifies `w, `trace, `calls
      ensures !out.Failed? ==> Answered(replies, old(calls), calls)
      ensures Valid() && JustAnswered() && old(trace) <= trace && old(calls) < calls && Now().pc.Idle?
      ensures out == Verdict()
      ensures out.Updated? ==> Annotated(out.o.uid, KeyOf(out.o), out.iface.id) in Now().facts
    {
      hide JustAnswered, Answered, OutcomeOf, Tidy, Undisturbed, Run, Interfere;
      ghost var k := calls;
      AnsweredOne(replies, k);
      AnsweredOne(replies, k + 1);
      AnsweredParts(replies, k, k + 1, k + 2);
      var read, got := Get(n);
      if got.None? { return if read then NothingToDo else Failed; }
      var o := got.value;
      var prefix := GetPrefix(o.spec);
      if prefix.None? { return Failed; }
      if o.deleting {
        out := Delete(n, o, prefix.value);
        AnsweredParts(replies, k, k + 1, calls);
        return;
      }
      if Ours !in o.finalizers {
        var ok := PatchFinalizerList(n, o.finalizers + [Ours]);
        return if ok then FinalizerAdded else Failed;
      }
      out := Sync(n, o, prefix.value);
      AnsweredParts(replies, k, k + 1, calls);
    }
  }

  /** A reconcile all of whose calls were answered, with nobody acting in between, leaves and reports what a clean one does. */
  lemma CleanEnd(start: State, before: State, n: string, begun: seq<Action>, all: seq<Action>)
    requires before.pc.Idle? && Run(start, begun) == Step(before, Begin(n)) && begun != [] && begun[|begun| - 1] == Begin(n)
    requires begun <= all && all[|all| - 1].Answer? && forall i | |begun| <= i < |all| :: all[i] == Answer(Done)
    requires !Run(start, all[..|all| - 1]).pc.Idle? && Run(start, all).pc.Idle?
    ensures Run(start, all).w == Clean.Reconcile(before.w, n)
    ensures all[|all| - 1] == Answer(Done) && OutcomeOf(Run(start, all[..|all| - 1]), Done) == CleanOutcome(before.w, n)
  {
    hide Call, OutcomeOf, CleanOutcome, Clean.Reconcile;
    var acts := all[|begun|..];
    assert acts != [] && all == begun + acts;
    assert all[..|all| - 1] == begun + acts[..|acts| - 1];
    RunAppend(start, begun, acts);
    RunAppend(start, begun, acts[..|acts| - 1]);
    RunOutcome(Step(before, Begin(n)), acts);
    FinishOutcomeMeaning(before.w, n, before.facts);
    Clean.UndisturbedIsClean(before, n, acts);
  }

  function CleanReconciles(w: World, names: seq<string>): World {
    if names == [] then w else Clean.Reconcile(CleanReconciles(w, names[..|names| - 1]), names[|names| - 1])
  }

  /**
   The controller at work, one reconcile after the other: from a fresh start with at most one record per address, and as
   long as nobody outside adds or re-addresses records and specs stay as they are, there is at most one record per
   address after any number of reconciles, with whatever failures and interference.  Without failures and interference
   the reconciles are the clean ones.
   */
  method Serve(ghost start: State, w: World, names: seq<string>, replies: Replies, others: Schedule) returns (c: Reconciler)
    requires Fresh(start) && start.w == w && AtMostOne(w.ips) && IdsAllocated(w)
    ensures fresh(c) && c.start == start && c.replies == replies && c.others == others && c.Valid() && c.Now().pc.Idle?
    ensures SpecsImmutable(c.trace) && NoOutsideAddresses(c.trace) ==> AtMostOne(c.w.ips)
    ensures Undisturbed(replies, others, 0, c.calls) ==> c.w == CleanReconciles(w, names)
  {
    c := new Reconciler(start, w, replies, others);
    assert names[..0] == [];
    for i := 0 to |names|
      invariant fresh(c) && c.start == start && c.replies == replies && c.others == others
      invariant c.Valid() && c.Now().pc.Idle?
      invariant Undisturbed(replies, others, 0, c.calls) ==> c.w == CleanReconciles(w, names[..i])
    {
      ghost var before := c.calls;
      var _ := c.Reconcile(names[i]);
      assert names[..i + 1][..i] == names[..i];
      if Undisturbed(replies, others, 0, c.calls) { UndisturbedParts(replies, others, 0, before, c.calls); }
    }
    assert names[..|names|] == names;
    if SpecsImmutable(c.trace) && NoOutsideAddresses(c.trace) { SingleCreation(start, c.trace); }
  }
}
