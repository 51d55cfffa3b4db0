/**
 What a receiver accepts of packets that some channel loses, repeats and reorders, in terms of the counters that
 arrive: no nonce bytes and no cipher, only whether each packet would pass the cipher.
 */
module Channel {
  import opened Bytes
  import opened Receiver

  datatype Arrival = Arrival(counter: int, passes: bool)

  ghost predicate Takes(start: int, log: seq<int>, p: Arrival) {
    var n := Peak(start, log);
    p.passes && InWindow(n, p.counter) && !Refused(n, log, p.counter)
  }

  ghost function Logged(start: int, log: seq<int>, p: Arrival): seq<int> {
    if Takes(start, log, p) then log + [p.counter] else log
  }

  // The counters accepted of the first n arrivals by a receiver that is told counters in full.
  ghost function Taken(start: int, a: seq<Arrival>, n: nat): seq<int>
    requires n <= |a|
  {
    if n == 0 then [] else Logged(start, Taken(start, a, n - 1), a[n - 1])
  }

  // An arrival no further off than its low byte can tell, or once more that of the receiver's own counter.
  ghost predicate Near(start: int, n: int, p: Arrival) {
    InWindow(n, p.counter) || start < p.counter == n
  }

  // Every one of the first n arrivals is near what the receiver has come to.
  ghost predicate AllNear(start: int, a: seq<Arrival>, n: nat)
    requires n <= |a|
  {
    n > 0 ==> AllNear(start, a, n - 1) && Near(start, Peak(start, Taken(start, a, n - 1)), a[n - 1])
  }

  lemma {:induction false} NearBefore(start: int, a: seq<Arrival>, k: nat, n: nat)
    requires k <= n <= |a| && AllNear(start, a, n)
    ensures AllNear(start, a, k)
  {
    if k < n {
      NearBefore(start, a, k, n - 1);
    }
  }

  lemma {:induction false} TakesIsAdmits(start: int, log: seq<int>, p: Arrival)
    ensures Takes(start, log, p) <==> p.passes && Admits(start, log, p.counter)
  {
    ReconstructionIff(Peak(start, log), p.counter % 256, p.counter);
  }

  lemma {:induction false} TakenIsReachable(start: int, a: seq<Arrival>, n: nat)
    requires n <= |a|
    ensures Reachable(start, Taken(start, a, n))
  {
    if n > 0 {
      var log := Taken(start, a, n - 1);
      TakenIsReachable(start, a, n - 1);
      TakesIsAdmits(start, log, a[n - 1]);
      Appended(start, log, a[n - 1].counter);
    }
  }

  //////////////////////////////////////////////////////////////////////////////
  // Loss, repetition and reordering within the window
  //////////////////////////////////////////////////////////////////////////////

  // The counters of the first n arrivals that would pass, each where it first arrived.
  function Seen(a: seq<Arrival>, n: nat): seq<int>
    requires n <= |a|
  {
    if n == 0 then []
    else
      var s := Seen(a, n - 1);
      if a[n - 1].passes && a[n - 1].counter !in s then s + [a[n - 1].counter] else s
  }

  predicate IsFirst(a: seq<Arrival>, k: nat)
    requires k < |a|
  {
    a[k].passes && a[k].counter !in Seen(a, k)
  }

  // The highest of the start and those counters.
  function Highest(start: int, a: seq<Arrival>, n: nat): int
    requires n <= |a|
  {
    if n == 0 then start
    else
      var h := Highest(start, a, n - 1);
      if a[n - 1].passes && a[n - 1].counter > h then a[n - 1].counter else h
  }

  lemma {:induction false} SeenIff(a: seq<Arrival>, n: nat, c: int)
    requires n <= |a|
    ensures c in Seen(a, n) <==> exists j :: 0 <= j < n && a[j].passes && a[j].counter == c
  {
    if n > 0 {
      SeenIff(a, n - 1, c);
    }
  }

  // A packet that would pass and whose counter no earlier one of these carried.
  lemma {:induction false} IsFirstIff(a: seq<Arrival>, k: nat)
    requires k < |a|
    ensures IsFirst(a, k) <==> a[k].passes && forall j :: 0 <= j < k && a[j].passes ==> a[j].counter != a[k].counter
  {
    SeenIff(a, k, a[k].counter);
  }

  lemma {:induction false} HighestIs(start: int, a: seq<Arrival>, n: nat)
    requires n <= |a|
    ensures var h := Highest(start, a, n);
            && start <= h && (forall j :: 0 <= j < n && a[j].passes ==> a[j].counter <= h)
            && (h == start || exists j :: 0 <= j < n && a[j].passes && a[j].counter == h)
  {
    if n > 0 {
      HighestIs(start, a, n - 1);
    }
  }

  // The counter differs modulo 2^16 from the last one before it with its low byte, or, if there is none, has another
  // second byte than 0.
  ghost predicate IsNews(before: seq<int>, s: int) {
    match Owner(before, s % 256)
    case Some(t) => t % 0x1_0000 != s % 0x1_0000
    case None => s % 0x1_0000 >= 256
  }

  // Only what is next in order gets past the history without being news to it.
  ghost predicate Clear(n: int, before: seq<int>, s: int) {
    s == n + 1 || IsNews(before, s)
  }

  lemma {:induction false} ClearIff(n: int, log: seq<int>, s: int)
    ensures Clear(n, log, s) <==> !Refused(n, log, s)
  {
    if s != n + 1 {
      RefusedIff(n, log, s);
    }
  }

  // Every arrival is 29 behind to 127 ahead of the highest counter that came before it, or repeats that one.
  ghost predicate WithinWindow(start: int, a: seq<Arrival>) {
    forall k :: 0 <= k < |a| ==> Near(start, Highest(start, a, k), a[k])
  }

  ghost predicate ClearUpTo(start: int, a: seq<Arrival>, n: nat)
    requires n <= |a|
  {
    forall k :: 0 <= k < n && IsFirst(a, k) ==> Clear(Highest(start, a, k), Seen(a, k), a[k].counter)
  }

  lemma {:induction false} TakesFirst(start: int, a: seq<Arrival>, k: nat, log: seq<int>)
    requires k < |a| && Near(start, Peak(start, log), a[k]) && Reachable(start, log)
    requires log == Seen(a, k)
    ensures Takes(start, log, a[k]) <==> IsFirst(a, k) && Clear(Peak(start, log), log, a[k].counter)
  {
    var s := a[k].counter;
    TakesIsAdmits(start, log, a[k]);
    ClearIff(Peak(start, log), log, s);
    PeakIsMax(start, log);
    if s in log {
      AcceptedIsNotAdmitted(start, log, s);
    }
  }

  lemma {:induction false} SeenPeak(start: int, a: seq<Arrival>, n: nat)
    requires n <= |a|
    ensures Peak(start, Seen(a, n)) == Highest(start, a, n)
  {
    if n > 0 {
      var s, c := Seen(a, n - 1), a[n - 1].counter;
      SeenPeak(start, a, n - 1);
      Appended(start, s, c);
      PeakIsMax(start, s);
    }
  }

  lemma {:induction false} KeepsUpOnce(start: int, a: seq<Arrival>, k: nat)
    requires k < |a| && Near(start, Highest(start, a, k), a[k]) && Taken(start, a, k) == Seen(a, k)
    ensures Takes(start, Seen(a, k), a[k]) <==>
            IsFirst(a, k) && Clear(Highest(start, a, k), Seen(a, k), a[k].counter)
  {
    TakenIsReachable(start, a, k);
    SeenPeak(start, a, k);
    TakesFirst(start, a, k, Seen(a, k));
  }

  // While the history lets first arrivals pass, the receiver has accepted exactly those that arrived.
  lemma {:induction false} KeepsUp(start: int, a: seq<Arrival>, n: nat)
    requires WithinWindow(start, a) && n <= |a| && ClearUpTo(start, a, n)
    ensures Taken(start, a, n) == Seen(a, n)
  {
    if n > 0 {
      KeepsUp(start, a, n - 1);
      KeepsUpOnce(start, a, n - 1);
      SeenNext(start, a, n - 1);
    }
  }

  lemma {:induction false} AllTaken(start: int, a: seq<Arrival>, n: nat)
    requires n <= |a| && forall k :: 0 <= k < n ==> (Takes(start, Taken(start, a, k), a[k]) <==> IsFirst(a, k))
    ensures Taken(start, a, n) == Seen(a, n)
  {
    if n > 0 {
      AllTaken(start, a, n - 1);
    }
  }

  // Over a channel that stays within the window, every packet that would pass is accepted where it first arrives and
  // nothing else is, if and only if the history lets every first arrival pass.
  lemma {:induction false} OnceEachIff(start: int, a: seq<Arrival>)
    requires WithinWindow(start, a)
    ensures ClearUpTo(start, a, |a|) <==>
            forall k :: 0 <= k < |a| ==> (Takes(start, Taken(start, a, k), a[k]) <==> IsFirst(a, k))
  {
    if ClearUpTo(start, a, |a|) {
      forall k | 0 <= k < |a| ensures Takes(start, Taken(start, a, k), a[k]) <==> IsFirst(a, k) {
        KeepsUp(start, a, k);
        KeepsUpOnce(start, a, k);
      }
    }
    if forall k :: 0 <= k < |a| ==> (Takes(start, Taken(start, a, k), a[k]) <==> IsFirst(a, k)) {
      forall k | 0 <= k < |a| && IsFirst(a, k)
        ensures Clear(Highest(start, a, k), Seen(a, k), a[k].counter)
      {
        AllTaken(start, a, k);
        KeepsUpOnce(start, a, k);
      }
    }
  }

  lemma {:induction false} SeenNext(start: int, a: seq<Arrival>, k: nat)
    requires k < |a| && Taken(start, a, k) == Seen(a, k)
    requires Takes(start, Taken(start, a, k), a[k]) <==> IsFirst(a, k)
    ensures Taken(start, a, k + 1) == Seen(a, k + 1)
  {
  }

  lemma {:induction false} SeenIsNear(start: int, a: seq<Arrival>, n: nat)
    requires WithinWindow(start, a) && n <= |a| && ClearUpTo(start, a, n)
    ensures AllNear(start, a, n)
  {
    if n > 0 {
      SeenIsNear(start, a, n - 1);
      KeepsUp(start, a, n - 1);
      SeenPeak(start, a, n - 1);
    }
  }

  //////////////////////////////////////////////////////////////////////////////
  // In order, with gaps
  //////////////////////////////////////////////////////////////////////////////

  // Later packets carry higher counters. Some may be missing: lost, or never sent for an empty message.
  ghost predicate Increasing(start: int, a: seq<Arrival>) {
    && (forall k :: 0 <= k < |a| ==> start < a[k].counter)
    && (forall j, k :: 0 <= j < k < |a| ==> a[j].counter < a[k].counter)
  }

  // The counter before s was accepted, or s is the first one.
  predicate FollowsOn(start: int, log: seq<int>, s: int) {
    s - 1 == start || s - 1 in log
  }

  lemma {:induction false} TakenIsBelow(start: int, a: seq<Arrival>, k: nat)
    requires Increasing(start, a) && k < |a|
    ensures forall c :: c in Taken(start, a, k) ==> start < c < a[k].counter
    ensures start < a[k].counter
  {
    if k > 0 {
      TakenIsBelow(start, a, k - 1);
    }
  }

  // None of the first n counters is further ahead of the last one accepted than the window reaches.
  ghost predicate ShortGaps(start: int, a: seq<Arrival>, n: nat)
    requires n <= |a|
  {
    n > 0 ==> ShortGaps(start, a, n - 1) && InWindow(Peak(start, Taken(start, a, n - 1)), a[n - 1].counter)
  }

  lemma {:induction false} ShortGapsAreNear(start: int, a: seq<Arrival>, n: nat)
    requires n <= |a| && ShortGaps(start, a, n)
    ensures AllNear(start, a, n)
  {
    if n > 0 {
      ShortGapsAreNear(start, a, n - 1);
    }
  }

  // As long as a counter is in the window of the last one accepted, its packet is accepted if and only if it would
  // pass and either the one before it was accepted or the history lets it pass.
  lemma {:induction false} InOrderIff(start: int, a: seq<Arrival>, k: nat)
    requires Increasing(start, a) && k < |a| && InWindow(Peak(start, Taken(start, a, k)), a[k].counter)
    ensures var log, s := Taken(start, a, k), a[k].counter;
            Takes(start, log, a[k]) <==> a[k].passes && (FollowsOn(start, log, s) || IsNews(log, s))
  {
    var log, s := Taken(start, a, k), a[k].counter;
    TakenIsBelow(start, a, k);
    PeakIsMax(start, log);
    ClearIff(Peak(start, log), log, s);
  }

  // And the receiver stands at the last counter it accepted.
  lemma {:induction false} InOrderPeak(start: int, a: seq<Arrival>, n: nat)
    requires Increasing(start, a) && n <= |a|
    ensures var log := Taken(start, a, n); Peak(start, log) == if log == [] then start else log[|log| - 1]
  {
    if n > 0 {
      var log := Taken(start, a, n - 1);
      InOrderPeak(start, a, n - 1);
      TakenIsBelow(start, a, n - 1);
      PeakIsMax(start, log);
      Appended(start, log, a[n - 1].counter);
    }
  }

  // A packet that would pass and is not taken, though nothing was lost and none before it would pass.
  lemma {:induction false} BlockedByAnother(a: seq<Arrival>)
    requires a == [Arrival(1, false), Arrival(2, true)]
    ensures Increasing(0, a) && AllNear(0, a, 2) && !Takes(0, Taken(0, a, 0), a[0]) && !Takes(0, Taken(0, a, 1), a[1])
  {
    assert Taken(0, a, 0) == [] && Taken(0, a, 1) == [];
  }

  lemma {:induction false} BlockedByAGap(a: seq<Arrival>)
    requires a == [Arrival(2, true)]
    ensures Increasing(0, a) && AllNear(0, a, 1) && !Takes(0, Taken(0, a, 0), a[0])
  {
    assert Taken(0, a, 0) == [];
  }

  //////////////////////////////////////////////////////////////////////////////
  // In order, without gaps
  //////////////////////////////////////////////////////////////////////////////

  // The i-th packet, from 0, carries the counter i + 1 past the start.
  ghost predicate Consecutive(start: int, a: seq<Arrival>) {
    forall i :: 0 <= i < |a| ==> a[i].counter == start + i + 1 && a[i].passes
  }

  // The receiver's counter is the sender's and nothing counts as late or lost.
  ghost predicate InStep(start: int, log: seq<int>, n: nat) {
    |log| == n && Peak(start, log) == start + n && LostCount(start, log) == LateCount(start, log) == 0
  }

  lemma {:induction false} InStepNext(start: int, log: seq<int>, n: nat)
    requires InStep(start, log, n)
    ensures Takes(start, log, Arrival(start + n + 1, true)) && InStep(start, log + [start + n + 1], n + 1)
  {
    Appended(start, log, start + n + 1);
  }

  lemma {:induction false} StaysInStep(start: int, a: seq<Arrival>, n: nat)
    requires Consecutive(start, a) && n <= |a|
    ensures InStep(start, Taken(start, a, n), n) && AllNear(start, a, n)
    ensures n < |a| ==> Takes(start, Taken(start, a, n), a[n])
  {
    if n > 0 {
      StaysInStep(start, a, n - 1);
    }
    InStepNext(start, Taken(start, a, n), n);
    assert n < |a| ==> a[n] == Arrival(start + n + 1, true);
  }
}
