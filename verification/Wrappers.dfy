/** Small types every module uses. */
module Wrappers {
  datatype Option<+T> = None | Some(value: T)

  /**
   What an API call reports, and whether it took effect: done, refused without effect, or done with
   the reply lost.  A controller that crashes after a call's effect never sees the reply, so a crash is
   Lost or Refused followed by no further call.
   */
  datatype Reply = Done | Refused | Lost

  /**
   What the servers will answer, call by call.  A class that makes calls is given its answers in advance and counts the
   calls it has made, so what it does under which answers can be stated; the theorems hold for all of them.
   */
  type Replies = r: imap<nat, Reply> | forall k: nat :: k in r ghost witness imap k: nat :: Done

  /** None of the calls with these numbers failed. */
  predicate Answered(replies: Replies, from: nat, end: nat)
    decreases end
  {
    end <= from || (replies[end - 1] == Done && Answered(replies, from, end - 1))
  }

  lemma {:induction false} AnsweredParts(replies: Replies, from: nat, mid: nat, end: nat)
    requires from <= mid <= end
    ensures Answered(replies, from, end) <==> Answered(replies, from, mid) && Answered(replies, mid, end)
    decreases end
  {
    if mid < end { AnsweredParts(replies, from, mid, end - 1); }
  }

  lemma AnsweredOne(replies: Replies, k: nat)
    ensures Answered(replies, k, k + 1) <==> replies[k] == Done
  {
    assert Answered(replies, k, k);
  }

  /** What the predicate says, call by call. */
  lemma {:induction false} AnsweredMeaning(replies: Replies, from: nat, end: nat)
    ensures Answered(replies, from, end) <==> forall k: nat | from <= k < end :: replies[k] == Done
    decreases end
  {
    if from < end { AnsweredMeaning(replies, from, end - 1); }
  }
}
