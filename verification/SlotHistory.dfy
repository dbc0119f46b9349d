/** The history of one socket slot: openings and reads settle it, announcements add to what is
    pending for its modem id. */
module SlotHistory {

  datatype Effect = Settle | Announce(id: int, bytes: nat) | Nothing

  /** The bytes pending for the id after the first n effects. */
  function Pending(history: seq<Effect>, n: nat, id: int): nat
    requires n <= |history|
  {
    if n == 0 || history[n - 1] == Settle then 0
    else
      Pending(history, n - 1, id) +
      (if history[n - 1].Announce? && history[n - 1].id == id then history[n - 1].bytes else 0)
  }

  /** Of the first n effects, the k-th is the last to settle the slot. */
  predicate LastSettled(history: seq<Effect>, k: nat, n: nat) {
    && 0 < k <= n <= |history|
    && history[k - 1] == Settle
    && forall m :: k <= m < n ==> history[m] != Settle
  }

  /** The bytes announced for the id between the k-th and the n-th effect. */
  function Announced(history: seq<Effect>, k: nat, n: nat, id: int): nat
    requires k <= n <= |history|
    decreases n - k
  {
    if k == n then 0
    else
      Announced(history, k, n - 1, id) +
      (if history[n - 1].Announce? && history[n - 1].id == id then history[n - 1].bytes else 0)
  }

  lemma PendingNext(history: seq<Effect>, n: nat, id: int)
    requires n < |history|
    ensures Pending(history, n + 1, id) ==
            match history[n]
            case Settle => 0
            case Announce(i, bytes) => Pending(history, n, id) + (if i == id then bytes else 0)
            case Nothing => Pending(history, n, id)
  {
  }

  /** What is pending is what was announced since the slot was last settled. */
  lemma {:induction false} PendingIsAnnounced(history: seq<Effect>, k: nat, n: nat, id: int)
    requires LastSettled(history, k, n)
    ensures Pending(history, n, id) == Announced(history, k, n, id)
    decreases n
  {
    if k < n {
      PendingIsAnnounced(history, k, n - 1, id);
    }
  }

  /** If something that does not hold at first can come to hold only by settling, and holds
      after n effects, then the slot has been settled. */
  lemma {:induction false} WasSettled(history: seq<Effect>, open: seq<bool>, n: nat) returns (k: nat)
    requires n <= |history| && |open| == |history| + 1 && !open[0] && open[n]
    requires forall m :: 0 <= m < |history| && open[m + 1] && history[m] != Settle ==> open[m]
    ensures LastSettled(history, k, n)
    decreases n
  {
    k := n;
    if history[n - 1] != Settle {
      k := WasSettled(history, open, n - 1);
    }
  }
}
