/**
 The status of the three custom resources: conditions are changed in place in memory, and written back in a retry
 loop against a server that refuses writes to an older version.
 */
module Status {
  import opened Wrappers

  const READY_TYPE := "Ready"

  datatype State = Unset | Ready | Error

  datatype Truth = True | False | Unknown

  /** `since` is the time of the last change of `status`. */
  datatype Condition = Condition(kind: string, status: Truth, reason: string, message: string, generation: int, since: int)

  datatype Status = Status(state: State, description: string, conditions: Option<seq<Condition>>)

  // ---------- reasons ----------

  datatype Controller = UpdateController | ClusterImportController | IPPoolImportController

  function Succeeded(c: Controller): string {
    match c
    case UpdateController => "UpdateSucceeded"
    case ClusterImportController => "ClusterImportSucceeded"
    case IPPoolImportController => "IPPoolImportSucceeded"
  }

  function Failed(c: Controller): string {
    match c
    case UpdateController => "UpdateFailed"
    case ClusterImportController => "ClusterImportFailed"
    case IPPoolImportController => "IPPoolImportFailed"
  }

  function DefaultMessage(reason: string): Option<(Truth, string)> {
    if reason == "UpdateSucceeded" then Some((True, "Update succeeded"))
    else if reason == "UpdateFailed" then Some((False, "Update failed"))
    else if reason == "ClusterImportSucceeded" then Some((True, "ClusterImport succeeded"))
    else if reason == "ClusterImportFailed" then Some((False, "ClusterImport failed"))
    else if reason == "IPPoolImportSucceeded" then Some((True, "IPPoolImport succeeded"))
    else if reason == "IPPoolImportFailed" then Some((False, "IPPoolImport failed"))
    else None
  }

  /** `ConditionFromReason`: every known reason is about the Ready condition; an own message replaces the default one. */
  function ConditionFromReason(reason: string, message: string): Option<Condition> {
    var m := DefaultMessage(reason);
    if m.None? then None
    else Some(Condition(READY_TYPE, m.value.0, reason, if message != "" then message else m.value.1, 0, 0))
  }

  /** The reasons of each controller are known, and mean what their names say. */
  lemma ReasonsKnown(c: Controller)
    ensures DefaultMessage(Succeeded(c)).Some? && DefaultMessage(Succeeded(c)).value.0 == True
    ensures DefaultMessage(Failed(c)).Some? && DefaultMessage(Failed(c)).value.0 == False
  {
    assert |"UpdateSucceeded"| == 15 && |"UpdateFailed"| == 12;
    assert |"ClusterImportSucceeded"| == 22 && |"ClusterImportFailed"| == 19;
    assert |"IPPoolImportSucceeded"| == 21 && |"IPPoolImportFailed"| == 18;
  }

  // ---------- conditions ----------

  function Merged(old_: Condition, c: Condition, now: int): Condition {
    c.(since := if old_.status != c.status then now else old_.since)
  }

  /** `meta.SetStatusCondition`: the first entry of that type is changed, or a new one is appended. */
  function WithCondition(cs: seq<Condition>, c: Condition, now: int): seq<Condition> {
    if cs == [] then [c.(since := now)]
    else if cs[0].kind == c.kind then [Merged(cs[0], c, now)] + cs[1..]
    else [cs[0]] + WithCondition(cs[1..], c, now)
  }

  lemma {:induction false} FirstOfKind(cs: seq<Condition>, i: nat, c: Condition, now: int)
    requires i < |cs| && cs[i].kind == c.kind && forall j | 0 <= j < i :: cs[j].kind != c.kind
    ensures WithCondition(cs, c, now) == cs[..i] + [Merged(cs[i], c, now)] + cs[i + 1..]
  {
    hide Merged;
    if i > 0 {
      FirstOfKind(cs[1..], i - 1, c, now);
      assert cs[..i] == [cs[0]] + cs[1..][..i - 1] && cs[1..][i..] == cs[i + 1..];
    }
  }

  lemma {:induction false} NoneOfKind(cs: seq<Condition>, c: Condition, now: int)
    requires forall j | 0 <= j < |cs| :: cs[j].kind != c.kind
    ensures WithCondition(cs, c, now) == cs + [c.(since := now)]
  {
    if cs != [] { NoneOfKind(cs[1..], c, now); }
  }

  method SetStatusCondition(conditions: seq<Condition>, c: Condition, now: int) returns (r: seq<Condition>)
    ensures r == WithCondition(conditions, c, now)
  {
    hide WithCondition;
    var i := 0;
    while i < |conditions|
      invariant 0 <= i <= |conditions|
      invariant forall j | 0 <= j < i :: conditions[j].kind != c.kind
    {
      if conditions[i].kind == c.kind {
        FirstOfKind(conditions, i, c, now);
        var e := conditions[i];
        if e.status != c.status { e := e.(status := c.status, since := now); }
        return conditions[..i] + [e.(reason := c.reason, message := c.message, generation := c.generation)] + conditions[i + 1..];
      }
      i := i + 1;
    }
    NoneOfKind(conditions, c, now);
    return conditions + [c.(since := now)];
  }

  function OfKind(cs: seq<Condition>, kind: string): seq<Condition> {
    if cs == [] then [] else (if cs[0].kind == kind then [cs[0]] else []) + OfKind(cs[1..], kind)
  }

  lemma {:induction false} WithConditionMerged(cs: seq<Condition>, c: Condition, now: int)
    ensures var was, now_ := OfKind(cs, c.kind), OfKind(WithCondition(cs, c, now), c.kind);
            now_ == if was == [] then [c.(since := now)] else [Merged(was[0], c, now)] + was[1..]
  {
    hide Merged;
    if cs != [] {
      var r := WithCondition(cs, c, now);
      if cs[0].kind == c.kind {
        assert Merged(cs[0], c, now).kind == c.kind by { MergedMeaning(cs[0], c, now); }
        assert r[1..] == cs[1..];
      } else {
        assert r[1..] == WithCondition(cs[1..], c, now);
        WithConditionMerged(cs[1..], c, now);
      }
    }
  }

  lemma MergedMeaning(was: Condition, c: Condition, now: int)
    ensures Merged(was, c, now).(since := c.since) == c
    ensures Merged(was, c, now).since == if was.status != c.status then now else was.since
  {
  }

  lemma {:induction false} OthersUntouched(cs: seq<Condition>, c: Condition, now: int, kind: string)
    requires kind != c.kind
    ensures OfKind(WithCondition(cs, c, now), kind) == OfKind(cs, kind)
  {
    if cs != [] {
      var r := WithCondition(cs, c, now);
      if cs[0].kind == c.kind {
        assert r[1..] == cs[1..];
      } else {
        assert r[1..] == WithCondition(cs[1..], c, now);
        OthersUntouched(cs[1..], c, now, kind);
      }
    }
  }

  /**
   Setting a condition leaves the entries of all other types alone, and makes the first entry of its own type say
   what was set, at a new time only if its status changes; when there was at most one such entry there is exactly one
   afterwards.
   */
  lemma WithConditionMeaning(cs: seq<Condition>, c: Condition, now: int, kind: string)
    ensures kind != c.kind ==> OfKind(WithCondition(cs, c, now), kind) == OfKind(cs, kind)
    ensures var was, now_ := OfKind(cs, c.kind), OfKind(WithCondition(cs, c, now), c.kind);
            if was == [] then now_ == [c.(since := now)]
            else && |now_| == |was| && now_[1..] == was[1..]
                 && now_[0].(since := c.since) == c
                 && now_[0].since == if was[0].status != c.status then now else was[0].since
  {
    hide WithCondition, OfKind, Merged;
    WithConditionMerged(cs, c, now);
    var was := OfKind(cs, c.kind);
    if was != [] { MergedMeaning(was[0], c, now); }
    if kind != c.kind { OthersUntouched(cs, c, now, kind); }
  }

  function Conditions(s: Status): seq<Condition> { if s.conditions.Some? then s.conditions.value else [] }

  predicate AtMostOneReady(s: Status) { |OfKind(Conditions(s), READY_TYPE)| <= 1 }

  /** The state and the one Ready condition say the same. */
  predicate Agrees(s: Status) {
    var ready := OfKind(Conditions(s), READY_TYPE);
    |ready| == 1 && (s.state.Ready? <==> ready[0].status.True?) && (s.state.Error? <==> ready[0].status.False?)
  }

  /** `SetCondition` in memory; an unknown reason changes nothing but that a missing list becomes an empty one. */
  function WithReason(s: Status, reason: string, message: string, now: int): Status {
    var c := ConditionFromReason(reason, message);
    s.(conditions := Some(if c.Some? then WithCondition(Conditions(s), c.value, now) else Conditions(s)))
  }

  /** After setting a condition and a state the two agree exactly when they were chosen to. */
  lemma AgreesIff(s: Status, reason: string, message: string, now: int, state: State, description: string)
    requires AtMostOneReady(s) && DefaultMessage(reason).Some?
    ensures var t := WithReason(s, reason, message, now).(state := state, description := description);
            && AtMostOneReady(t) && AtMostOneReady(WithReason(s, reason, message, now))
            && (Agrees(t) <==> state == if DefaultMessage(reason).value.0 == True then Ready else Error)
  {
    var c := ConditionFromReason(reason, message).value;
    WithConditionMeaning(Conditions(s), c, now, READY_TYPE);
  }

  // ---------- what a reconcile reports ----------

  /** The reason and the message of the Ready condition. */
  predicate Says(ready: Condition, c: Controller, good: bool) {
    match c
    case UpdateController =>
      ready.reason == (if good then "UpdateSucceeded" else "UpdateFailed")
      && ready.message == (if good then "Update succeeded" else "Update failed")
    case ClusterImportController =>
      ready.reason == (if good then "ClusterImportSucceeded" else "ClusterImportFailed")
      && ready.message == (if good then "ClusterImport succeeded" else "ClusterImport failed")
    case IPPoolImportController =>
      ready.reason == (if good then "IPPoolImportSucceeded" else "IPPoolImportFailed")
      && ready.message == (if good then "IPPoolImport succeeded" else "IPPoolImport failed")
  }

  /**
   The state, the description and the one Ready condition report the outcome; the time of the condition is that of its last
   change of truth; and the conditions of all other types are as before.
   */
  ghost predicate Reports(before: Status, after: Status, c: Controller, good: bool, err: string, now: int) {
    var was, ready := OfKind(Conditions(before), "Ready"), OfKind(Conditions(after), "Ready");
    && after.state == (if good then Ready else Error) && after.description == (if good then "" else err)
    && |ready| == 1 && ready[0].status == (if good then True else False) && Says(ready[0], c, good)
    && ready[0].since == (if was != [] && was[0].status == ready[0].status then was[0].since else now)
    && forall kind | kind != "Ready" :: OfKind(Conditions(after), kind) == OfKind(Conditions(before), kind)
  }

  function ReasonFor(c: Controller, good: bool): string { if good then Succeeded(c) else Failed(c) }

  lemma ReasonSays(c: Controller, good: bool)
    ensures var condition := ConditionFromReason(ReasonFor(c, good), "");
            && condition.Some? && condition.value.kind == "Ready"
            && condition.value.status == (if good then True else False) && Says(condition.value, c, good)
  {
    ReasonsKnown(c);
  }

  lemma ReportMeaning(s: Status, c: Controller, good: bool, err: string, now: int)
    requires AtMostOneReady(s)
    ensures var t := WithReason(s, ReasonFor(c, good), "", now);
            Reports(s, t.(state := if good then Ready else Error, description := if good then "" else err), c, good, err, now)
  {
    ReasonSays(c, good);
    hide ReasonFor, ConditionFromReason, Says, OfKind, WithCondition;
    var condition := ConditionFromReason(ReasonFor(c, good), "").value;
    WithConditionMeaning(Conditions(s), condition, now, READY_TYPE);
    forall kind | kind != "Ready" ensures OfKind(WithCondition(Conditions(s), condition, now), kind) == OfKind(Conditions(s), kind) {
      WithConditionMeaning(Conditions(s), condition, now, kind);
    }
    SaysOnly(condition, OfKind(WithCondition(Conditions(s), condition, now), READY_TYPE)[0], c, good);
  }

  lemma SaysOnly(a: Condition, b: Condition, c: Controller, good: bool)
    requires Says(a, c, good) && b.reason == a.reason && b.message == a.message
    ensures Says(b, c, good)
  {
  }

  // ---------- the server and the handler ----------

  /** `rest` stands for the spec and the metadata. */
  datatype Resource = Resource(version: nat, rest: int, status: Status)

  datatype WriteResult = Updated | Conflict | OtherError

  const RETRY_STEPS := 5

  /** What others do before a call: nothing, a new spec or new metadata, or a deletion. */
  datatype Edit = Nothing | NewRest(rest: int) | Deletion

  type Schedule = r: imap<nat, Edit> | forall k: nat :: k in r ghost witness imap k: nat :: Nothing

  /** None of the calls with these numbers failed, and nobody edited the resource before any of them. */
  predicate Undisturbed(replies: Replies, edits: Schedule, from: nat, end: nat)
    decreases end
  {
    end <= from || (replies[end - 1] == Done && edits[end - 1] == Nothing && Undisturbed(replies, edits, from, end - 1))
  }

  lemma {:induction false} UndisturbedParts(replies: Replies, edits: Schedule, from: nat, mid: nat, end: nat)
    requires from <= mid <= end && Undisturbed(replies, edits, from, end)
    ensures Undisturbed(replies, edits, from, mid) && Undisturbed(replies, edits, mid, end)
    decreases end
  {
    if mid < end { UndisturbedParts(replies, edits, from, mid, end - 1); }
  }

  /** None of these calls failed, and nobody deleted the resource before any of them. */
  predicate Unfailing(replies: Replies, edits: Schedule, from: nat, end: nat)
    decreases end
  {
    end <= from || (replies[end - 1] == Done && !edits[end - 1].Deletion? && Unfailing(replies, edits, from, end - 1))
  }

  lemma {:induction false} UnfailingParts(replies: Replies, edits: Schedule, from: nat, mid: nat, end: nat)
    requires from <= mid <= end && Unfailing(replies, edits, from, end)
    ensures Unfailing(replies, edits, from, mid) && Unfailing(replies, edits, mid, end)
    decreases end
  {
    if mid < end { UnfailingParts(replies, edits, from, mid, end - 1); }
  }

  lemma {:induction false} UndisturbedMeaning(replies: Replies, edits: Schedule, from: nat, end: nat)
    ensures Undisturbed(replies, edits, from, end) <==> forall k: nat | from <= k < end :: replies[k] == Done && edits[k] == Nothing
    decreases end
  {
    if from < end { UndisturbedMeaning(replies, edits, from, end - 1); }
  }

  lemma {:induction false} UnfailingMeaning(replies: Replies, edits: Schedule, from: nat, end: nat)
    ensures Unfailing(replies, edits, from, end) <==> forall k: nat | from <= k < end :: replies[k] == Done && !edits[k].Deletion?
    decreases end
  {
    if from < end { UnfailingMeaning(replies, edits, from, end - 1); }
  }

  function RestAfter(rest: int, edit: Edit): int { if edit.NewRest? then edit.rest else rest }

  /**
   How many read-write pairs in a row, the first of at most `steps` beginning with call k, have an edit between the read
   and the write; `rest` is what is stored before.
   */
  function Clashes(edits: Schedule, k: nat, rest: int, steps: nat): (n: nat)
    ensures n <= steps
    decreases steps
  {
    var read := RestAfter(rest, edits[k]);
    var edited := RestAfter(read, edits[k + 1]);
    if steps == 0 || edited == read then 0 else 1 + Clashes(edits, k + 2, edited, steps - 1)
  }

  class Handler {
    var stored: Option<Resource>
    var cr: Resource
    const controller: Controller
    /** Whether the server keeps the spec apart from the status; nothing here depends on it. */
    const statusSubresource: bool
    const replies: Replies
    const edits: Schedule
    /** The number of calls made so far. */
    var calls: nat
    /** The spec and metadata that users and other controllers wrote last. */
    ghost var written: int
    ghost var statusWrites: nat
    ghost var conflicts: nat

    constructor (stored: Resource, controller: Controller, statusSubresource: bool, replies: Replies, edits: Schedule)
      requires AtMostOneReady(stored.status)
      ensures this.stored == Some(stored) && this.controller == controller && Valid() && statusWrites == 0
      ensures this.replies == replies && this.edits == edits && calls == 0 && written == stored.rest
    {
      this.stored, this.cr := Some(stored), stored;
      this.controller, this.statusSubresource := controller, statusSubresource;
      this.replies, this.edits, this.calls := replies, edits, 0;
      this.written := stored.rest;
      this.statusWrites, this.conflicts := 0, 0;
    }

    /** The copy in memory is not newer than the stored resource, and equal versions have equal contents. */
    ghost predicate Valid()
      reads this
    {
      && (stored.Some? ==> stored.value.rest == written && AtMostOneReady(stored.value.status))
      && (stored.Some? ==> cr.version <= stored.value.version)
      && (stored.Some? && cr.version == stored.value.version ==> cr.rest == stored.value.rest)
    }

    ghost predicate Calm(from: nat)
      reads `calls
    {
      Undisturbed(replies, edits, from, calls)
    }

    ghost predicate Smooth(from: nat)
      reads `calls
    {
      Unfailing(replies, edits, from, calls)
    }

    // ---------- API calls ----------

    /** Before a call takes effect others may edit the spec or the metadata, or delete; nobody else writes the status. */
    method Others() returns (reply: Reply)
      requires Valid()
      modifies `stored, `written, `calls
      ensures Valid() && (stored.Some? ==> old(stored).Some? && stored.value.status == old(stored).value.status)
      ensures calls == old(calls) + 1 && reply == replies[old(calls)]
      ensures edits[old(calls)] == Nothing ==> stored == old(stored)
      ensures old(stored).Some? && !edits[old(calls)].Deletion? ==>
                && stored.Some? && stored.value.rest == RestAfter(old(stored).value.rest, edits[old(calls)])
                && (stored.value.rest == old(stored).value.rest <==> stored.value.version == old(stored).value.version)
    {
      var edit := edits[calls];
      reply := replies[calls];
      calls := calls + 1;
      if stored.Some? {
        match edit {
          case Nothing =>
          case Deletion => stored := None;
          case NewRest(rest) =>
            if rest != stored.value.rest {
              stored := Some(stored.value.(version := stored.value.version + 1, rest := rest));
              written := rest;
            }
        }
      }
    }

    /** A read from the cache replaces the whole copy in memory. */
    method Get() returns (ok: bool)
      requires Valid()
      modifies `stored, `written, `calls, `cr
      ensures Valid() && (stored.Some? ==> old(stored).Some? && stored.value.status == old(stored).value.status)
      ensures if ok then stored == Some(cr) else cr == old(cr)
      ensures calls == old(calls) + 1 && (Calm(old(calls)) ==> stored == old(stored) && (ok <==> stored.Some?))
      ensures old(stored).Some? && Smooth(old(calls)) ==>
                ok && stored.value.rest == RestAfter(old(stored).value.rest, edits[old(calls)])
    {
      var reply := Others();
      ok := reply.Done? && stored.Some?;
      if ok { cr := stored.value; }
    }

    /** The status write is refused unless it is made from the stored version. */
    method StatusUpdate() returns (r: WriteResult)
      requires Valid() && AtMostOneReady(cr.status)
      modifies `stored, `written, `calls, `cr, `statusWrites, `conflicts
      ensures Valid() && cr.status == old(cr).status && calls == old(calls) + 1
      ensures stored.Some? ==>
                && old(stored).Some?
                && stored.value.status == if statusWrites == old(statusWrites) then old(stored).value.status else cr.status
      ensures r.Updated? ==> stored.Some? && stored.value.status == cr.status
      ensures r.Conflict? ==> statusWrites == old(statusWrites)
      ensures conflicts == old(conflicts) + (if r.Conflict? then 1 else 0)
      ensures old(statusWrites) <= statusWrites <= old(statusWrites) + 1
      ensures Calm(old(calls)) && old(stored).Some? && old(cr).version == old(stored).value.version ==> r.Updated?
      ensures Smooth(old(calls)) && old(stored).Some? && old(cr).version == old(stored).value.version ==>
                && stored.Some? && (r.Updated? || r.Conflict?)
                && var rest := RestAfter(old(stored).value.rest, edits[old(calls)]);
                   (r.Updated? <==> rest == old(stored).value.rest) && (r.Conflict? ==> stored.value.rest == rest)
    {
      var reply := Others();
      if reply.Refused? || stored.None? { return OtherError; }
      if cr.version != stored.value.version {
        conflicts := conflicts + 1;
        return Conflict;
      }
      var rest := if statusSubresource then stored.value.rest else cr.rest;
      stored := Some(Resource(cr.version + 1, rest, cr.status));
      statusWrites := statusWrites + 1;
      if reply.Lost? { return OtherError; }
      cr := stored.value;
      return Updated;
    }

    // ---------- the handler ----------

    /** The conflicts that the edits cause to an update that begins with call k, of which five are too many. */
    ghost function ClashesFrom(k: nat, rest: int): nat { Clashes(edits, k, rest, RETRY_STEPS) }

    /** What `update` retries: a fresh copy is read, given the wanted status, and written. */
    method Attempt(status: Status) returns (r: WriteResult)
      requires Valid() && AtMostOneReady(status)
      modifies this
      ensures Valid() && old(calls) < calls
      ensures stored.Some? ==>
                && old(stored).Some?
                && stored.value.status == if statusWrites == old(statusWrites) then old(stored).value.status else status
      ensures r.Updated? ==> stored.Some? && stored.value.status == status
      ensures r.Conflict? ==> statusWrites == old(statusWrites)
      ensures conflicts == old(conflicts) + (if r.Conflict? then 1 else 0)
      ensures old(statusWrites) <= statusWrites <= old(statusWrites) + 1
      ensures Calm(old(calls)) && old(stored).Some? ==> r.Updated?
      ensures Smooth(old(calls)) && old(stored).Some? ==>
                && calls == old(calls) + 2 && stored.Some? && (r.Updated? || r.Conflict?)
                && var read := RestAfter(old(stored).value.rest, edits[old(calls)]);
                   var edited := RestAfter(read, edits[old(calls) + 1]);
                   (r.Updated? <==> edited == read) && (r.Conflict? ==> stored.value.rest == edited)
    {
      hide RestAfter, AtMostOneReady, Undisturbed, Unfailing;
      ghost var c := calls;
      var got := Get();
      ghost var c' := calls;
      if got {
        cr := cr.(status := status);
        r := StatusUpdate();
      } else {
        r := OtherError;
      }
      if Calm(c) { UndisturbedParts(replies, edits, c, c', calls); }
      if Smooth(c) { UnfailingParts(replies, edits, c, c', calls); }
    }

    /** `update`: only a conflict is tried again, each time from a fresh copy, and only the fifth one in a row is an error. */
    method Update() returns (r: WriteResult)
      requires Valid() && AtMostOneReady(cr.status)
      modifies this
      ensures Valid() && old(calls) < calls
      ensures stored.Some? ==> old(stored).Some? && stored.value.status in {old(stored).value.status, old(cr).status}
      ensures r.Updated? ==> stored.Some? && stored.value.status == old(cr).status
      ensures r.Conflict? ==> statusWrites == old(statusWrites)
      ensures r.Conflict? <==> conflicts == old(conflicts) + RETRY_STEPS
      ensures statusWrites <= old(statusWrites) + 1
      ensures Calm(old(calls)) && old(stored).Some? ==> r.Updated?
      ensures Smooth(old(calls)) && old(stored).Some? ==>
                && stored.Some? && conflicts == old(conflicts) + ClashesFrom(old(calls), old(stored).value.rest)
                && (r.Updated? <==> ClashesFrom(old(calls), old(stored).value.rest) < RETRY_STEPS)
                && (!r.Updated? ==> stored.value.status == old(stored).value.status)
    {
      hide RestAfter, AtMostOneReady, Undisturbed, Unfailing;
      var newStatus := cr.status;
      var steps := RETRY_STEPS;
      while steps > 0
        invariant Valid() && statusWrites == old(statusWrites) && conflicts == old(conflicts) + (RETRY_STEPS - steps)
        invariant 0 <= steps <= RETRY_STEPS && old(calls) <= calls && (steps < RETRY_STEPS ==> old(calls) < calls)
        invariant stored.Some? ==> old(stored).Some? && stored.value.status == old(stored).value.status
        invariant steps < RETRY_STEPS && old(stored).Some? ==> !Calm(old(calls))
        invariant steps == RETRY_STEPS ==> stored == old(stored)
        invariant Smooth(old(calls)) && old(stored).Some? ==>
                    && stored.Some?
                    && ClashesFrom(old(calls), old(stored).value.rest) ==
                       RETRY_STEPS - steps + Clashes(edits, calls, stored.value.rest, steps)
      {
        ghost var c := calls;
        r := Attempt(newStatus);
        if Calm(old(calls)) { UndisturbedParts(replies, edits, old(calls), c, calls); }
        if Smooth(old(calls)) { UnfailingParts(replies, edits, old(calls), c, calls); }
        if r != Conflict { return; }
        steps := steps - 1;
      }
      return Conflict;
    }

    method SetCondition(reason: string, message: string, now: int)
      requires Valid()
      modifies this`cr
      ensures Valid() && cr == old(cr).(status := WithReason(old(cr).status, reason, message, now))
    {
      var conditions := if cr.status.conditions.Some? then cr.status.conditions.value else [];
      var c := ConditionFromReason(reason, message);
      if c.Some? {
        conditions := SetStatusCondition(conditions, c.value, now);
      }
      cr := cr.(status := cr.status.(conditions := Some(conditions)));
    }

    method UpdateToReady() returns (ok: bool)
      requires Valid() && AtMostOneReady(cr.status)
      modifies this
      ensures Valid() && old(calls) < calls
      ensures var s := old(cr).status.(state := Ready, description := "");
              && (stored.Some? ==> old(stored).Some? && stored.value.status in {old(stored).value.status, s})
              && (ok ==> stored.Some? && stored.value.status == s)
      ensures statusWrites <= old(statusWrites) + 1
      ensures Calm(old(calls)) && old(stored).Some? ==> ok
      ensures Smooth(old(calls)) && old(stored).Some? ==>
                && stored.Some? && (ok <==> ClashesFrom(old(calls), old(stored).value.rest) < RETRY_STEPS)
                && (!ok ==> stored.value.status == old(stored).value.status)
    {
      cr := cr.(status := cr.status.(state := Ready, description := ""));
      var r := Update();
      ok := r.Updated?;
    }

    method UpdateToError(err: string) returns (ok: bool)
      requires Valid() && AtMostOneReady(cr.status)
      modifies this
      ensures Valid() && old(calls) < calls
      ensures var s := old(cr).status.(state := Error, description := err);
              && (stored.Some? ==> old(stored).Some? && stored.value.status in {old(stored).value.status, s})
              && (ok ==> stored.Some? && stored.value.status == s)
      ensures statusWrites <= old(statusWrites) + 1
      ensures Calm(old(calls)) && old(stored).Some? ==> ok
      ensures Smooth(old(calls)) && old(stored).Some? ==>
                && stored.Some? && (ok <==> ClashesFrom(old(calls), old(stored).value.rest) < RETRY_STEPS)
                && (!ok ==> stored.value.status == old(stored).value.status)
    {
      cr := cr.(status := cr.status.(state := Error, description := err));
      var r := Update();
      ok := r.Updated?;
    }

    // ---------- reconciles ----------

    /**
     `Reconcile` around the real work: the two reloads and the selectors succeed or fail as given.  Whatever happens
     in between, edits by others survive, a status that is written has state and condition agree with the outcome,
     and success is reported only when Ready is stored.  Undisturbed, it succeeds exactly when the work did, and the
     stored status then agrees with the outcome either way; without failed calls and deletions that takes five tries in a
     row, at most four of them disturbed.
     */
    method Reconcile(outcomes: seq<bool>, err: string, now: int) returns (ok: bool)
      requires Valid()
      modifies this
      ensures Valid() && old(calls) < calls
      ensures stored.Some? ==> old(stored).Some? && (stored.value.status == old(stored).value.status || Agrees(stored.value.status))
      ensures stored.Some? && stored.value.status != old(stored).value.status ==>
                && (stored.value.status.state.Ready? <==> false !in outcomes)
                && Reports(old(stored).value.status, stored.value.status, controller, false !in outcomes, err, now)
      ensures ok ==> stored.Some? && stored.value.status.state.Ready? && Agrees(stored.value.status) && false !in outcomes
                     && old(stored).Some? && Reports(old(stored).value.status, stored.value.status, controller, true, err, now)
      ensures statusWrites <= old(statusWrites) + 1
      ensures Calm(old(calls)) && old(stored).Some? ==>
                && (ok <==> false !in outcomes)
                && stored.Some? && Agrees(stored.value.status)
                && (stored.value.status.state.Ready? <==> false !in outcomes)
      ensures Smooth(old(calls)) && old(stored).Some? ==>
                && stored.Some?
                && var rest := RestAfter(old(stored).value.rest, edits[old(calls)]);
                   var written := ClashesFrom(old(calls) + 1, rest) < RETRY_STEPS;
                   && (ok <==> false !in outcomes && written)
                   && (if written then && Agrees(stored.value.status) && (stored.value.status.state.Ready? <==> false !in outcomes)
                                       && Reports(old(stored).value.status, stored.value.status, controller, false !in outcomes, err, now)
                       else stored.value.status == old(stored).value.status)
    {
      hide DefaultMessage, Succeeded, Failed, WithReason, OfKind, Agrees, AtMostOneReady, Reports;
      var got := Get();
      ghost var c := calls;
      if !got { return false; }
      ReasonsKnown(controller);
      for i := 0 to |outcomes|
        invariant Valid() && got && AtMostOneReady(cr.status) && statusWrites == old(statusWrites)
        invariant stored == Some(cr) && old(stored).Some? && stored.value.status == old(stored).value.status
        invariant false !in outcomes[..i] && calls == c
      {
        if !outcomes[i] {
          AgreesIff(cr.status, Failed(controller), "", now, Error, err);
          ReportMeaning(cr.status, controller, false, err, now);
          SetCondition(Failed(controller), "", now);
          var updated := UpdateToError(err);
          if Calm(old(calls)) { UndisturbedParts(replies, edits, old(calls), c, calls); }
          if Smooth(old(calls)) { UnfailingParts(replies, edits, old(calls), c, calls); }
          return false;
        }
      }
      assert outcomes[..|outcomes|] == outcomes;
      AgreesIff(cr.status, Succeeded(controller), "", now, Ready, "");
      ReportMeaning(cr.status, controller, true, err, now);
      SetCondition(Succeeded(controller), "", now);
      ok := UpdateToReady();
      if Calm(old(calls)) { UndisturbedParts(replies, edits, old(calls), c, calls); }
      if Smooth(old(calls)) { UnfailingParts(replies, edits, old(calls), c, calls); }
    }

    /** Any number of reconciles: the stored status is the first one or an agreeing one, and no outside edit is lost. */
    method Serve(passes: seq<seq<bool>>, err: string, now: int)
      requires Valid()
      modifies this
      ensures Valid()
      ensures stored.Some? ==> old(stored).Some? && (stored.value.status == old(stored).value.status || Agrees(stored.value.status))
      ensures statusWrites <= old(statusWrites) + |passes|
    {
      for i := 0 to |passes|
        invariant Valid() && statusWrites <= old(statusWrites) + i
        invariant stored.Some? ==>
                    old(stored).Some? && (stored.value.status == old(stored).value.status || Agrees(stored.value.status))
      {
        var ok := Reconcile(passes[i], err, now + i);
      }
    }
  }
}
