/** Splitting a submission under a task quota and draining what was parked
    (src/core/envelope.cpp, src/backends/envelope_stage.cpp). */
module Envelopes {
  import opened Ir
  import opened ArenaStore
  import opened Wrappers

  datatype Disposition = NoOverflow | Rejected | Deferred

  datatype Overflow = Overflow(count: U32, disposition: Disposition, token: U64) {
    predicate Valid() {
      match disposition
      case NoOverflow => count == 0 && token == 0
      case Rejected => token == 0
      case Deferred => count != 0 && token != 0
    }
  }

  datatype TableState = TableState(next: U64, parked: map<U64, seq<nat>>)

  /** What one submission asks for: its sealed order, a quota, and a leftover it wants to drain. */
  datatype Envelope = Envelope(order: seq<nat>, taskCount: nat, quota: Option<U32>, pending: Option<Overflow>)

  datatype Outcome =
    | Refused
    | Whole(publish: seq<nat>)
    | Split(publish: seq<nat>, overflow: Overflow)
    | Drained(publish: seq<nat>)

  // ------------------------------------------------------------ the table

  class EnvelopeContinuationTable {
    var next: U64
    var parked: map<U64, seq<nat>>

    constructor ()
      ensures State() == TableState(1, map[])
    {
      next, parked := 1, map[];
    }

    function State(): TableState
      reads this
    {
      TableState(next, parked)
    }

    /** Parks a non-empty list under a token that is never zero. */
    method Mint(leftover: seq<nat>) returns (token: U64)
      modifies this
      ensures leftover == [] ==> token == 0 && State() == old(State())
      ensures leftover != [] ==>
                && token == (if old(next) == 0 then 1 else old(next)) && next == Bump64(token)
                && parked == (if token in old(parked) then old(parked) else old(parked)[token := leftover])
    {
      if leftover == [] {
        return 0;
      }
      token := next;
      next := Bump64(next);
      if token == 0 {
        token := next;
        next := Bump64(next);
      }
      if token !in parked {
        parked := parked[token := leftover];
      }
    }

    method Lookup(token: U64) returns (leftover: Option<seq<nat>>)
      ensures leftover == if token != 0 && token in parked then Some(parked[token]) else None
    {
      if token == 0 || token !in parked {
        return None;
      }
      leftover := Some(parked[token]);
    }

    method Take(token: U64) returns (leftover: Option<seq<nat>>)
      modifies this
      ensures leftover == if token != 0 && token in old(parked) then Some(old(parked)[token]) else None
      ensures next == old(next) && parked == if leftover.Some? then old(parked) - {token} else old(parked)
    {
      leftover := Lookup(token);
      if leftover.Some? {
        parked := parked - {token};
      }
    }
  }

  // ------------------------------------------------------------ one submission

  predicate IsSuffix(tail: seq<nat>, order: seq<nat>) {
    |tail| <= |order| && order[|order| - |tail|..] == tail
  }

  method LeftoverMatchesSchedule(e: Envelope, leftover: seq<nat>) returns (ok: bool)
    ensures ok <==> IsSuffix(leftover, e.order) && forall t | t in leftover :: t < e.taskCount
  {
    for k := 0 to |leftover|
      invariant forall t | t in leftover[..k] :: t < e.taskCount
    {
      assert leftover[..k + 1] == leftover[..k] + [leftover[k]];
      if leftover[k] >= e.taskCount {
        assert leftover[k] in leftover;
        return false;
      }
    }
    assert leftover[..|leftover|] == leftover;
    ok := |leftover| <= |e.order| && e.order[|e.order| - |leftover|..] == leftover;
  }

  predicate Drainable(e: Envelope, s: TableState) {
    && e.pending.Some? && e.pending.value.disposition.Deferred? && e.pending.value.count > 0 && e.pending.value.token > 0
    && e.pending.value.token in s.parked
    && var leftover := s.parked[e.pending.value.token];
       && |leftover| == e.pending.value.count
       && IsSuffix(leftover, e.order) && forall t | t in leftover :: t < e.taskCount
  }

  /** Anything pending but a clean record of no overflow. */
  predicate AsksToDrain(e: Envelope) {
    && e.pending.Some?
    && !(e.pending.value.disposition.NoOverflow? && e.pending.value.count == 0 && e.pending.value.token == 0)
  }

  predicate OverQuota(e: Envelope) {
    e.quota.Some? && |e.order| > e.quota.value
  }

  /** Which of the four things happens, and what becomes of the table. */
  ghost predicate Applied(e: Envelope, s: TableState, hasTable: bool, outcome: Outcome, s': TableState) {
    match outcome
    case Refused =>
      s' == s && (if AsksToDrain(e) then !hasTable || !Drainable(e, s) else OverQuota(e) && !hasTable)
    case Whole(publish) =>
      s' == s && publish == e.order && !AsksToDrain(e) && !OverQuota(e)
    case Split(publish, overflow) =>
      && hasTable && !AsksToDrain(e) && OverQuota(e)
      && var token: U64 := if s.next == 0 then 1 else s.next;
         var leftover := e.order[e.quota.value..];
         && publish == e.order[..e.quota.value]
         && overflow.disposition.Deferred? && overflow.count == |leftover| && overflow.token == token
         && s' == TableState(Bump64(token), if token in s.parked then s.parked else s.parked[token := leftover])
    case Drained(publish) =>
      && hasTable && Drainable(e, s)
      && publish == s.parked[e.pending.value.token]
      && s' == s.(parked := s.parked - {e.pending.value.token})
  }

  method ApplyEnvelopeContinuation(e: Envelope, table: EnvelopeContinuationTable?) returns (outcome: Outcome)
    requires |e.order| <= U32_MAX
    modifies table
    ensures table != null ==> Applied(e, old(table.State()), true, outcome, table.State())
    ensures table == null ==> Applied(e, TableState(1, map[]), false, outcome, TableState(1, map[]))
  {
    if e.pending.Some? && !e.pending.value.Valid() {
      return Refused;
    }
    if e.pending.Some? && e.pending.value.disposition.Rejected? {
      return Refused;
    }
    if e.pending.Some? && e.pending.value.disposition.Deferred? {
      if table == null {
        return Refused;
      }
      var pending := e.pending.value;
      var leftover := table.Lookup(pending.token);
      if leftover.None? || |leftover.value| != pending.count {
        return Refused;
      }
      var matches := LeftoverMatchesSchedule(e, leftover.value);
      if !matches {
        return Refused;
      }
      leftover := table.Take(pending.token);
      return Drained(leftover.value);
    }
    if e.quota.None? || |e.order| <= e.quota.value {
      return Whole(e.order);
    }
    if table == null {
      return Refused;
    }
    var publish, leftover := e.order[..e.quota.value], e.order[e.quota.value..];
    var token := table.Mint(leftover);
    outcome := Split(publish, Overflow(|leftover|, Deferred, token));
  }

  // ------------------------------------------------------------ conservation

  /** A split followed by a drain with the same order publishes exactly that order, whatever happened to the table
      in between, as long as the parked list is still there. */
  lemma SplitThenDrain(e: Envelope, s: TableState, split: Outcome, s1: TableState, later: TableState, drain: Outcome, s2: TableState)
    requires Applied(e, s, true, split, s1) && split.Split? && s.next < U64_MAX && TableValid(s)
    requires split.overflow.token in later.parked && later.parked[split.overflow.token] == s1.parked[split.overflow.token]
    requires Applied(e.(pending := Some(split.overflow)), later, true, drain, s2)
    requires forall t | t in e.order :: t < e.taskCount
    ensures drain.Drained? && split.publish + drain.publish == e.order
    ensures split.publish != e.order && split.overflow.Valid()
    ensures split.overflow.token !in s.parked && split.overflow.token !in s2.parked
  {
    var leftover := e.order[e.quota.value..];
    assert s1.parked[split.overflow.token] == leftover;
    assert e.order[|e.order| - |leftover|..] == leftover;
    assert forall t | t in leftover :: t in e.order;
    assert e.order[..e.quota.value] + leftover == e.order;
  }

  /** A drained list is a suffix of the presenting plan's order. */
  lemma DrainedIsSuffix(e: Envelope, s: TableState, outcome: Outcome, s': TableState)
    requires Applied(e, s, true, outcome, s') && outcome.Drained?
    ensures IsSuffix(outcome.publish, e.order) && outcome.publish == s.parked[e.pending.value.token]
  {}

  /** Tokens in the table are non-zero and below the next one. */
  ghost predicate TableValid(s: TableState) {
    s.next != 0 && forall t | t in s.parked :: 0 < t < s.next && s.parked[t] != []
  }

  /** The table after a history of submissions: everything parked so far, less what has been drained. */
  datatype History = History(table: TableState, minted: map<U64, seq<nat>>, drained: set<U64>)

  const NEW_HISTORY := History(TableState(1, map[]), map[], {})

  ghost predicate HistoryValid(h: History) {
    && TableValid(h.table)
    && h.drained <= h.minted.Keys
    && h.table.parked == h.minted - h.drained
    && (forall t | t in h.minted :: 0 < t < h.table.next)
  }

  ghost predicate Submitted(h: History, e: Envelope, outcome: Outcome, h': History) {
    && Applied(e, h.table, true, outcome, h'.table)
    && h'.minted == (if outcome.Split? then h.minted[outcome.overflow.token := e.order[e.quota.value..]] else h.minted)
    && h'.drained == (if outcome.Drained? then h.drained + {e.pending.value.token} else h.drained)
  }

  /** Every submission keeps the books: a split parks under a token never used before, a drain hands out a list
      parked by one split and not handed out before. */
  lemma SubmissionKeepsBooks(h: History, e: Envelope, outcome: Outcome, h': History)
    requires HistoryValid(h) && Submitted(h, e, outcome, h') && h.table.next < U64_MAX
    ensures HistoryValid(h')
    ensures outcome.Split? ==> outcome.overflow.token !in h.minted && outcome.overflow.token != 0
    ensures outcome.Drained? ==>
              var t := e.pending.value.token;
              t in h.minted && t !in h.drained && outcome.publish == h.minted[t] && IsSuffix(outcome.publish, e.order)
    ensures h.drained <= h'.drained && forall t | t in h.minted :: t in h'.minted && h'.minted[t] == h.minted[t]
  {}

  ghost predicate IsHistory(h: seq<History>, envelopes: seq<Envelope>, outcomes: seq<Outcome>) {
    && |h| == |envelopes| + 1 && |outcomes| == |envelopes| && h[0] == NEW_HISTORY
    && (forall k | 0 <= k < |h| :: h[k].table.next < U64_MAX)
    && (forall k: nat | k < |envelopes| :: SubmittedAt(h, envelopes, outcomes, k))
  }

  ghost predicate SubmittedAt(h: seq<History>, envelopes: seq<Envelope>, outcomes: seq<Outcome>, k: nat) {
    k + 1 < |h| && k < |envelopes| && k < |outcomes| && Submitted(h[k], envelopes[k], outcomes[k], h[k + 1])
  }

  lemma {:induction false} HistoriesAreValid(h: seq<History>, envelopes: seq<Envelope>, outcomes: seq<Outcome>, k: nat)
    requires IsHistory(h, envelopes, outcomes) && k < |h|
    ensures HistoryValid(h[k])
  {
    if k > 0 {
      HistoriesAreValid(h, envelopes, outcomes, k - 1);
      assert SubmittedAt(h, envelopes, outcomes, k - 1);
      SubmissionKeepsBooks(h[k - 1], envelopes[k - 1], outcomes[k - 1], h[k]);
    }
  }

  lemma {:induction false} DrainedStays(h: seq<History>, envelopes: seq<Envelope>, outcomes: seq<Outcome>, j: nat, k: nat)
    requires IsHistory(h, envelopes, outcomes) && j <= k < |h|
    ensures h[j].drained <= h[k].drained
  {
    if j < k {
      DrainedStays(h, envelopes, outcomes, j, k - 1);
      assert SubmittedAt(h, envelopes, outcomes, k - 1);
    }
  }

  /** Below wrap-around, no token is drained twice. */
  lemma DrainedAtMostOnce(h: seq<History>, envelopes: seq<Envelope>, outcomes: seq<Outcome>, j: nat, k: nat)
    requires IsHistory(h, envelopes, outcomes) && j < k < |envelopes|
    requires outcomes[j].Drained? && outcomes[k].Drained?
    ensures envelopes[j].pending.Some? && envelopes[k].pending.Some?
    ensures envelopes[j].pending.value.token != envelopes[k].pending.value.token
  {
    HistoriesAreValid(h, envelopes, outcomes, j);
    HistoriesAreValid(h, envelopes, outcomes, k);
    DrainedStays(h, envelopes, outcomes, j + 1, k);
    assert SubmittedAt(h, envelopes, outcomes, j) && SubmittedAt(h, envelopes, outcomes, k);
  }
}
