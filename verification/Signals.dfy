/** What a connection tells its owner, and the order in which it may. */
module Signals {
  import opened Bytes

  // mumble::Code, as far as a connection returns it.
  datatype Code = Success | Cancel | Retry | Busy | Disconnect | Timeout | Memory | Failure | Unknown | Invalid

  // A call of the owner's feedback.
  datatype Event = Opened | Closed | Failed(code: Code) | Delivered(pack: seq<byte>)

  // The codes that put an end to a connection, and what its owner is told then.
  predicate Ends(c: Code) {
    c !in {Success, Cancel, Retry, Busy}
  }

  function Ending(c: Code): Event {
    if c == Disconnect then Closed else Failed(c)
  }

  // What has been told by the end of a call, or of a wait, that comes to this code.
  function Ended(trace: seq<Event>, closed: bool, c: Code): seq<Event> {
    if Ends(c) && !closed then trace + [Ending(c)] else trace
  }

  // Where a connection is in its life by what its owner has been told, packs apart.
  datatype Phase = Fresh | Live | Over | Broken

  function After(p: Phase, e: Event): Phase {
    match e
    case Delivered(_) => p
    case Opened => if p == Fresh then Live else Broken
    case Closed => if p == Live then Over else Broken
    case Failed(_) => if p == Live then Over else Broken
  }

  function PhaseOf(trace: seq<Event>): Phase {
    if trace == [] then Fresh else After(PhaseOf(trace[..|trace| - 1]), trace[|trace| - 1])
  }

  function Packs(trace: seq<Event>): seq<seq<byte>> {
    if trace == [] then []
    else
      var n := |trace| - 1;
      if trace[n].Delivered? then Packs(trace[..n]) + [trace[n].pack] else Packs(trace[..n])
  }

  lemma {:induction false} OneEventMore(trace: seq<Event>, e: Event)
    ensures PhaseOf(trace + [e]) == After(PhaseOf(trace), e)
    ensures Packs(trace + [e]) == if e.Delivered? then Packs(trace) + [e.pack] else Packs(trace)
  {
    assert (trace + [e])[..|trace|] == trace;
  }

  function Deliveries(packs: seq<seq<byte>>): seq<Event> {
    if packs == [] then [] else Deliveries(packs[..|packs| - 1]) + [Delivered(packs[|packs| - 1])]
  }

  lemma {:induction false} OneDelivered(before: seq<Event>, packs: seq<seq<byte>>, p: seq<byte>)
    ensures var t, u := before + Deliveries(packs), before + Deliveries(packs + [p]);
            u == t + [Delivered(p)] && PhaseOf(u) == PhaseOf(t) && Packs(u) == Packs(t) + [p]
  {
    assert (packs + [p])[..|packs|] == packs;
    OneEventMore(before + Deliveries(packs), Delivered(p));
  }

  lemma {:induction false} NoneDelivered(trace: seq<Event>)
    ensures trace + Deliveries([]) == trace && Packs(trace) + [] == Packs(trace)
  {
  }

  // Deliveries tells the packs one by one.
  lemma {:induction false} DeliveriesAt(packs: seq<seq<byte>>, i: nat)
    requires i < |packs|
    ensures |Deliveries(packs)| == |packs| && Deliveries(packs)[i] == Delivered(packs[i])
  {
    var n := |packs| - 1;
    if i < n {
      DeliveriesAt(packs[..n], i);
    } else if n > 0 {
      DeliveriesAt(packs[..n], 0);
    }
  }

  // What ends a connection is told once, as closed if the peer is gone and as failed with the code otherwise, and a
  // success, a cancelled call and one to be tried again do not end it.
  lemma {:induction false} EndedIs(trace: seq<Event>, closed: bool, c: Code)
    ensures Ended(trace, closed, c) ==
            if closed || c == Success || c == Cancel || c == Retry || c == Busy then trace
            else if c == Disconnect then trace + [Closed]
            else trace + [Failed(c)]
  {
  }

  // The connection opens, and then it closes or fails.
  ghost predicate Orderly(trace: seq<Event>) {
    PhaseOf(trace) != Broken
  }

  // Open and not yet closed or failed.
  ghost predicate Open(trace: seq<Event>) {
    PhaseOf(trace) == Live
  }

  // How far a connection is in its life.
  function Rank(p: Phase): nat {
    match p
    case Fresh => 0
    case Live => 1
    case Over => 2
    case Broken => 3
  }

  // Each entry but a pack takes an orderly trace one phase further.
  lemma {:induction false} OnePhaseOn(trace: seq<Event>, i: nat)
    requires i < |trace| && Orderly(trace[..i + 1])
    ensures var p, q := PhaseOf(trace[..i]), PhaseOf(trace[..i + 1]);
            && q == After(p, trace[i]) && p != Broken && Rank(q) == Rank(p) + if trace[i].Delivered? then 0 else 1
  {
    assert trace[..i + 1] == trace[..i] + [trace[i]];
    OneEventMore(trace[..i], trace[i]);
  }

  lemma {:induction false} PhaseGrows(trace: seq<Event>, n: nat, m: nat)
    requires n <= m <= |trace| && Orderly(trace[..m])
    ensures Orderly(trace[..n]) && Rank(PhaseOf(trace[..n])) <= Rank(PhaseOf(trace[..m])) <= 2
    decreases m
  {
    if n < m {
      OnePhaseOn(trace, m - 1);
      PhaseGrows(trace, n, m - 1);
    }
  }

  // In an orderly trace `opened` is told at most once, nothing but packs before it, and at most one of `closed` and
  // `failed` after it.
  lemma {:induction false} OrderlyMeans(trace: seq<Event>, i: nat, j: nat)
    requires Orderly(trace) && i < j < |trace| && !trace[i].Delivered? && !trace[j].Delivered?
    ensures trace[i] == Opened && (trace[j].Closed? || trace[j].Failed?)
    ensures forall k :: 0 <= k < |trace| && k != i && k != j ==> trace[k].Delivered?
  {
    PhasesAre(trace, i, j);
    forall k | 0 <= k < |trace| && k != i && k != j ensures trace[k].Delivered? {
      if !trace[k].Delivered? {
        if k < i {
          PhasesAre(trace, k, i);
        } else if k < j {
          PhasesAre(trace, i, k);
          PhasesAre(trace, k, j);
        } else {
          PhasesAre(trace, j, k);
        }
      }
    }
  }

  // Of two entries other than packs the former comes first of all, the latter in a connection that is open.
  lemma {:induction false} PhasesAre(trace: seq<Event>, i: nat, j: nat)
    requires Orderly(trace) && i < j < |trace| && !trace[i].Delivered? && !trace[j].Delivered?
    ensures PhaseOf(trace[..i]) == Fresh && PhaseOf(trace[..j]) == Live
    ensures trace[i] == Opened && (trace[j].Closed? || trace[j].Failed?)
  {
    assert trace[..|trace|] == trace;
    PhaseGrows(trace, j + 1, |trace|);
    OnePhaseOn(trace, j);
    PhaseGrows(trace, i + 1, j);
    OnePhaseOn(trace, i);
  }

  // And the first of them is `opened`.
  lemma {:induction false} FirstIsOpened(trace: seq<Event>, i: nat)
    requires Orderly(trace) && i < |trace| && (trace[i].Closed? || trace[i].Failed?)
    ensures exists k :: 0 <= k < i && trace[k] == Opened
  {
    assert trace[..|trace|] == trace;
    PhaseGrows(trace, i + 1, |trace|);
    OnePhaseOn(trace, i);
    WasOpened(trace, i);
  }

  lemma {:induction false} WasOpened(trace: seq<Event>, n: nat)
    requires n <= |trace| && PhaseOf(trace[..n]) == Live
    ensures exists k :: 0 <= k < n && trace[k] == Opened
  {
    OnePhaseOn(trace, n - 1);
    if trace[n - 1].Delivered? {
      WasOpened(trace, n - 1);
    }
  }

  // The connection is open when it has been told so and no end.
  lemma {:induction false} OpenIff(trace: seq<Event>)
    requires Orderly(trace)
    ensures Open(trace) <==> Opened in trace && forall k :: 0 <= k < |trace| ==> !trace[k].Closed? && !trace[k].Failed?
  {
    if trace != [] {
      var n := |trace| - 1;
      assert trace == trace[..n] + [trace[n]];
      assert trace[..n + 1] == trace;
      OnePhaseOn(trace, n);
      OpenIff(trace[..n]);
      forall k | 0 <= k < n ensures trace[..n][k] == trace[k] {
      }
      FreshIff(trace[..n]);
    }
  }

  lemma {:induction false} FreshIff(trace: seq<Event>)
    ensures PhaseOf(trace) == Fresh <==> forall k :: 0 <= k < |trace| ==> trace[k].Delivered?
  {
    if trace != [] {
      var n := |trace| - 1;
      FreshIff(trace[..n]);
      forall k | 0 <= k < n ensures trace[..n][k] == trace[k] {
      }
    }
  }
}
