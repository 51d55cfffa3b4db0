/**
 The receiving half of the UDP crypt session over unbounded counters. Its whole state is the counter it
 started from and the log of the counters it accepted, oldest first; the nonce, the history table and the
 statistics that `User` stores are functions of these two (see `User.Valid`).
 */
module Receiver {
  import opened Bytes
  import opened Nonce

  //////////////////////////////////////////////////////////////////////////////
  // What one packet does
  //////////////////////////////////////////////////////////////////////////////

  // The counter the receiver stands at: the highest of its start and everything it accepted.
  function Peak(start: int, log: seq<int>): int {
    if log == [] then start
    else
      var p := Peak(start, log[..|log| - 1]);
      if log[|log| - 1] > p then log[|log| - 1] else p
  }

  // The counters a receiver standing at n can rebuild: 29 back, 127 ahead, and 128 ahead
  // if adding 128 does not wrap the low byte.
  predicate InWindow(n: int, s: int) {
    || -29 <= s - n <= -1
    || 1 <= s - n <= 127
    || (s - n == 128 && n % 256 < 128)
  }

  // The counter rebuilt from the one nonce byte that is transmitted.
  function Candidate(n: int, b: uint8): Option<int> {
    var d := (b - n) % 256;
    if 1 <= d <= 127 || (d == 128 && n % 256 < 128) then Some(n + d)
    else if d >= 227 then Some(n + d - 256)
    else None
  }

  function SecondByte(s: int): uint8 {
    (s / 256) % 256
  }

  // The last accepted counter with low byte b, which owns history slot b.
  function Owner(log: seq<int>, b: uint8): Option<int> {
    if log == [] then None
    else if log[|log| - 1] % 256 == b then Some(log[|log| - 1])
    else Owner(log[..|log| - 1], b)
  }

  function Slot(log: seq<int>, b: uint8): uint8 {
    match Owner(log, b)
    case None => 0
    case Some(s) => SecondByte(s)
  }

  // Only packets off the in-order path are looked up in the history.
  predicate Refused(n: int, log: seq<int>, s: int) {
    s != n + 1 && Slot(log, s % 256) == SecondByte(s)
  }

  function LateCount(start: int, log: seq<int>): nat {
    if log == [] then 0
    else
      var front := log[..|log| - 1];
      LateCount(start, front) + (if log[|log| - 1] < Peak(start, front) then 1 else 0)
  }

  function LostCount(start: int, log: seq<int>): int {
    Peak(start, log) - start - |log|
  }

  // Nothing but the window and the history restricts what may be accepted: the packets and the
  // cipher's verdicts are arbitrary.
  ghost predicate Admits(start: int, log: seq<int>, s: int) {
    var n := Peak(start, log);
    Candidate(n, s % 256) == Some(s) && !Refused(n, log, s)
  }

  // The logs some sequence of packets can produce.
  ghost predicate Reachable(start: int, log: seq<int>) {
    log != [] ==>
      && Reachable(start, log[..|log| - 1])
      && Admits(start, log[..|log| - 1], log[|log| - 1])
  }

  //////////////////////////////////////////////////////////////////////////////
  // Nonce reconstruction
  //////////////////////////////////////////////////////////////////////////////

  // A counter is rebuilt from its low byte exactly when it is in the window, and nothing
  // outside the window is ever rebuilt.
  lemma {:induction false} ReconstructionIff(n: int, b: uint8, s: int)
    ensures Candidate(n, b) == Some(s) <==> InWindow(n, s) && s % 256 == b
  {
  }

  // The receiver's own low byte is that of no counter it can take.
  lemma {:induction false} OwnByteIsRejected(n: int)
    ensures Candidate(n, n % 256) == None
  {
  }

  // In numbers: 29 to 1 behind, 1 to 127 ahead, or 128 ahead without a wrap of the low byte.
  lemma {:induction false} RebuiltIff(n: int, b: uint8, s: int)
    ensures Candidate(n, b) == Some(s) <==>
            s % 256 == b && (-29 <= s - n <= -1 || 1 <= s - n <= 127 || (s - n == 128 && n % 256 < 128))
  {
    ReconstructionIff(n, b, s);
  }

  // The window holds at most one counter with a given low byte.
  lemma {:induction false} WindowIsUnambiguous(n: int, s: int, t: int)
    requires InWindow(n, s) && InWindow(n, t) && s % 256 == t % 256
    ensures s == t
  {
  }

  //////////////////////////////////////////////////////////////////////////////
  // At most once
  //////////////////////////////////////////////////////////////////////////////

  lemma {:induction false} PeakIsMax(start: int, log: seq<int>)
    ensures start <= Peak(start, log)
    ensures forall k :: 0 <= k < |log| ==> log[k] <= Peak(start, log)
    ensures Peak(start, log) == start || Peak(start, log) in log
  {
    if log != [] {
      PeakIsMax(start, log[..|log| - 1]);
    }
  }

  lemma {:induction false} OwnerIsLast(log: seq<int>, b: uint8)
    ensures Owner(log, b).None? ==> forall k :: 0 <= k < |log| ==> log[k] % 256 != b
    ensures Owner(log, b).Some? ==> Owner(log, b).value in log && Owner(log, b).value % 256 == b
  {
    if log != [] {
      OwnerIsLast(log[..|log| - 1], b);
    }
  }

  // An accepted counter within 29 of the current one still owns its history slot.
  lemma {:induction false} RecentOwnsSlot(start: int, log: seq<int>, s: int)
    requires Reachable(start, log)
    requires s in log && Peak(start, log) - 29 <= s
    ensures Owner(log, s % 256) == Some(s)
  {
    var front, last := log[..|log| - 1], log[|log| - 1];
    if last != s {
      assert s in front;
      PeakIsMax(start, front);
      RecentOwnsSlot(start, front, s);
      ReconstructionIff(Peak(start, front), last % 256, last);
      LowBytesDiffer(last, s);
    }
  }

  lemma {:induction false} LowBytesDiffer(s: int, t: int)
    requires s != t && -256 < s - t < 256
    ensures s % 256 != t % 256
  {
  }

  ghost predicate Distinct(log: seq<int>) {
    forall i, j :: 0 <= i < j < |log| ==> log[i] != log[j]
  }

  // A counter that was accepted is not admitted again.
  lemma {:induction false} AcceptedIsNotAdmitted(start: int, log: seq<int>, s: int)
    requires Reachable(start, log) && s in log
    ensures !Admits(start, log, s)
  {
    var n := Peak(start, log);
    PeakIsMax(start, log);
    ReconstructionIff(n, s % 256, s);
    if InWindow(n, s) {
      RecentOwnsSlot(start, log, s);
    }
  }

  // In every run, whatever the packets and the cipher's verdicts, no counter is accepted twice.
  lemma {:induction false} AtMostOnce(start: int, log: seq<int>)
    requires Reachable(start, log)
    ensures Distinct(log)
  {
    if log != [] {
      var front, last := log[..|log| - 1], log[|log| - 1];
      AtMostOnce(start, front);
      if last in front {
        AcceptedIsNotAdmitted(start, front, last);
      }
      assert forall i :: 0 <= i < |front| ==> log[i] == front[i];
    }
  }

  lemma {:induction false} AcceptedIsBounded(start: int, log: seq<int>)
    requires Reachable(start, log)
    ensures forall k :: 0 <= k < |log| ==> start - 29 <= log[k]
    ensures Peak(start, log) <= start + 128 * |log|
  {
    if log != [] {
      var front, last := log[..|log| - 1], log[|log| - 1];
      AcceptedIsBounded(start, front);
      PeakIsMax(start, front);
      ReconstructionIff(Peak(start, front), last % 256, last);
    }
  }

  // Hence no 16-byte nonce is used for two accepted packets until the receiver's counter has gone once around.
  lemma {:induction false} NoncesAreNotReused(start: int, log: seq<int>, i: nat, j: nat)
    requires Reachable(start, log) && i < j < |log| && Peak(start, log) - start < MODULUS - 29
    ensures NonceBlock(log[i]) != NonceBlock(log[j])
  {
    AtMostOnce(start, log);
    AcceptedIsBounded(start, log);
    PeakIsMax(start, log);
    SameNonceIff(log[i], log[j]);
    NearIsNotCongruent(log[i], log[j], MODULUS);
  }

  // The history is a filter, not a record: off the in-order path a packet is refused exactly when the
  // last accepted counter with its low byte agrees with it modulo 2^16, or when no such counter exists and
  // its second byte is 0, the value the table starts with.
  lemma {:induction false} RefusedIff(n: int, log: seq<int>, s: int)
    requires s != n + 1
    ensures Refused(n, log, s) <==>
              match Owner(log, s % 256)
              case Some(t) => t % 0x1_0000 == s % 0x1_0000
              case None => s % 0x1_0000 < 256
  {
    OwnerIsLast(log, s % 256);
    LowSixteenBits(s);
    if Owner(log, s % 256).Some? {
      LowSixteenBits(Owner(log, s % 256).value);
    }
  }

  lemma {:induction false} LowSixteenBits(s: int)
    ensures s % 0x1_0000 == 256 * SecondByte(s) + s % 256
  {
  }

  // A counter of the log with low byte b that no later one shares.
  ghost predicate LastWithLowByte(log: seq<int>, b: uint8, k: nat) {
    k < |log| && log[k] % 256 == b && forall j :: k < j < |log| ==> log[j] % 256 != b
  }

  lemma {:induction false} OwnerIff(log: seq<int>, b: uint8, t: int)
    ensures Owner(log, b) == Some(t) <==> exists k: nat :: LastWithLowByte(log, b, k) && log[k] == t
    ensures Owner(log, b) == None <==> forall k :: 0 <= k < |log| ==> log[k] % 256 != b
  {
    if log != [] {
      var n := |log| - 1;
      var front := log[..n];
      OwnerIff(front, b, t);
      LastNext(log, front, b, n);
      if log[n] % 256 == b {
        assert LastWithLowByte(log, b, n);
      } else {
        assert forall k :: 0 <= k < n ==> log[k] == front[k];
      }
    }
  }

  lemma {:induction false} LastNext(log: seq<int>, front: seq<int>, b: uint8, n: nat)
    requires |log| == n + 1 && front == log[..n]
    ensures log[n] % 256 == b ==> forall k: nat :: LastWithLowByte(log, b, k) <==> k == n
    ensures log[n] % 256 != b ==> forall k: nat :: LastWithLowByte(log, b, k) <==> LastWithLowByte(front, b, k)
  {
    forall k: nat | LastWithLowByte(log, b, k) || LastWithLowByte(front, b, k)
      ensures log[n] % 256 == b ==> (LastWithLowByte(log, b, k) <==> k == n)
      ensures log[n] % 256 != b ==> (LastWithLowByte(log, b, k) <==> LastWithLowByte(front, b, k))
    {
      assert forall j :: 0 <= j < n ==> log[j] == front[j];
    }
  }

  // In terms of the log: off the in-order path a packet is refused exactly when the last accepted counter with its low
  // byte agrees with it modulo 2^16, or when there is none and its own second byte is 0.
  lemma {:induction false} RefusedByLogIff(n: int, log: seq<int>, s: int)
    requires s != n + 1
    ensures Refused(n, log, s) <==>
            || (exists k: nat :: LastWithLowByte(log, s % 256, k) && log[k] % 0x1_0000 == s % 0x1_0000)
            || ((forall k :: 0 <= k < |log| ==> log[k] % 256 != s % 256) && s % 0x1_0000 < 256)
  {
    var b := s % 256;
    RefusedIff(n, log, s);
    var t := match Owner(log, b) case Some(t) => t case None => 0;
    OwnerIff(log, b, t);
    forall k: nat, j: nat | LastWithLowByte(log, b, k) && LastWithLowByte(log, b, j) ensures k == j {
    }
    if k: nat :| LastWithLowByte(log, b, k) {
      OwnerIff(log, b, log[k]);
    }
  }

  // A packet never seen before can therefore be refused: the second packet ever sent, if the first was lost
  // and the sender started from counter 0.
  lemma {:induction false} FreshPacketCanBeRefused()
    ensures Reachable(0, []) && InWindow(0, 2) && !Admits(0, [], 2)
  {
  }

  lemma {:induction false} FreshAdmits(start: int, s: int)
    requires s > start + 1
    ensures Admits(start, [], s) <==> InWindow(start, s) && s % 0x1_0000 >= 256
  {
    ReconstructionIff(start, s % 256, s);
    RefusedIff(start, [], s);
  }

  lemma {:induction false} Ahead(x: int, d: nat)
    requires x % 0x1_0000 + d < 0x1_0000
    ensures (x + d) % 0x1_0000 == x % 0x1_0000 + d
  {
  }

  lemma {:induction false} LastInWindow(start: int)
    requires (start + 2) % 0x1_0000 == 130
    ensures start % 256 == 128
  {
    LowSixteenBits(start + 2);
    assert start == 256 * ((start + 2) / 256) + 128;
  }

  lemma {:induction false} StalledBy(start: int, s: int)
    requires (start + 2) % 0x1_0000 <= 130 && start + 1 < s && InWindow(start, s)
    ensures s % 0x1_0000 < 256
  {
    var d := s - start - 2;
    if d == 126 && (start + 2) % 0x1_0000 == 130 {
      LastInWindow(start);
    }
    Ahead(start + 2, d);
  }

  // A receiver that missed the first packet can even be unable to take any later one. That is so exactly when its
  // whole window after that packet lies among the counters with second byte 0.
  lemma {:induction false} StallsIff(start: int)
    ensures (forall s :: s > start + 1 ==> !Admits(start, [], s)) <==> (start + 2) % 0x1_0000 <= 130
  {
    var r := (start + 2) % 0x1_0000;
    if r <= 130 {
      forall s | s > start + 1 ensures !Admits(start, [], s) {
        FreshAdmits(start, s);
        if InWindow(start, s) {
          StalledBy(start, s);
        }
      }
    } else if r < 256 {
      Ahead(start + 2, 125);
      FreshAdmits(start, start + 127);
    } else {
      FreshAdmits(start, start + 2);
    }
  }

  //////////////////////////////////////////////////////////////////////////////
  // Loss accounting
  //////////////////////////////////////////////////////////////////////////////

  // The counters after `start` up to the current one that were not accepted.
  ghost function Missing(start: int, log: seq<int>): set<int> {
    set k | start < k <= Peak(start, log) && k !in log
  }

  // How many accepted packets carried a counter from before the session began.
  function EarlyCount(start: int, log: seq<int>): nat {
    if log == [] then 0
    else EarlyCount(start, log[..|log| - 1]) + (if log[|log| - 1] <= start then 1 else 0)
  }

  // The counters after lo up to hi.
  ghost function Range(lo: int, hi: int): (r: set<int>)
    ensures forall k :: k in r <==> lo < k <= hi
    ensures lo <= hi ==> |r| == hi - lo
    decreases hi - lo
  {
    if hi <= lo then {} else Range(lo, hi - 1) + {hi}
  }

  // Appending to a log, in terms of the functions of the log.
  lemma {:induction false} Appended(start: int, log: seq<int>, s: int)
    ensures Peak(start, log + [s]) == (if s > Peak(start, log) then s else Peak(start, log))
    ensures forall b :: Owner(log + [s], b) == if s % 256 == b then Some(s) else Owner(log, b)
    ensures LateCount(start, log + [s]) == LateCount(start, log) + (if s < Peak(start, log) then 1 else 0)
    ensures EarlyCount(start, log + [s]) == EarlyCount(start, log) + (if s <= start then 1 else 0)
    ensures Reachable(start, log + [s]) <==> Reachable(start, log) && Admits(start, log, s)
  {
  }

  // What accepting s does to the set of missing counters.
  lemma {:induction false} MissingStep(start: int, log: seq<int>, s: int)
    ensures var n, before, after := Peak(start, log), Missing(start, log), Missing(start, log + [s]);
            after == if s > n then before + Range(n, s - 1) else before - {s}
  {
    Appended(start, log, s);
    PeakIsMax(start, log);
    MissingGrows(log, start, Peak(start, log), Peak(start, log + [s]), s);
  }

  lemma {:induction false} MissingGrows(log: seq<int>, start: int, n: int, n': int, s: int)
    requires start <= n && n' == (if s > n then s else n)
    requires forall k :: 0 <= k < |log| ==> log[k] <= n
    ensures var before := set k | start < k <= n && k !in log;
            var after := set k | start < k <= n' && k !in log + [s];
            after == if s > n then before + Range(n, s - 1) else before - {s}
  {
  }

  // In every reachable state the loss statistic is the number of counters skipped so far less the number of
  // packets accepted from before the start.
  lemma {:induction false} LostIsMissing(start: int, log: seq<int>)
    requires Reachable(start, log)
    ensures LostCount(start, log) == |Missing(start, log)| - EarlyCount(start, log)
  {
    if log == [] {
      assert Missing(start, log) == {};
    } else {
      var front, last := log[..|log| - 1], log[|log| - 1];
      assert log == front + [last];
      LostIsMissing(start, front);
      PeakIsMax(start, front);
      if last in front {
        AcceptedIsNotAdmitted(start, front, last);
      }
      ReconstructionIff(Peak(start, front), last % 256, last);
      MissingStep(start, front, last);
      var n := Peak(start, front);
      if last > n {
        assert Missing(start, front) !! Range(n, last - 1);
      } else if last <= start {
        assert Missing(start, log) == Missing(start, front);
      } else {
        assert last in Missing(start, front);
      }
    }
  }

  // The accepted packets, by position, that came after one with a higher counter or from before the start.
  ghost function LateOnes(start: int, log: seq<int>): set<nat> {
    set k: nat | k < |log| && (log[k] < start || exists j :: 0 <= j < k && log[k] < log[j])
  }

  ghost function EarlyOnes(start: int, log: seq<int>): set<nat> {
    set k: nat | k < |log| && log[k] <= start
  }

  lemma {:induction false} LateCountIs(start: int, log: seq<int>)
    ensures LateCount(start, log) == |LateOnes(start, log)|
  {
    if log == [] {
      assert LateOnes(start, log) == {};
    } else {
      var n := |log| - 1;
      var front := log[..n];
      LateCountIs(start, front);
      LateOnesNext(start, log, front, n);
    }
  }

  lemma {:induction false} LateOnesNext(start: int, log: seq<int>, front: seq<int>, n: nat)
    requires |log| == n + 1 && front == log[..n]
    ensures n !in LateOnes(start, front)
    ensures LateOnes(start, log) == LateOnes(start, front) + if log[n] < Peak(start, front) then {n} else {}
  {
    LateIff(start, front, log[n]);
    forall k: nat | k < n
      ensures k in LateOnes(start, log) <==> k in LateOnes(start, front)
    {
      assert forall j :: 0 <= j < k ==> log[j] == front[j];
    }
    assert n in LateOnes(start, log) <==> log[n] < Peak(start, front) by {
      assert forall j :: 0 <= j < n ==> log[j] == front[j];
    }
  }

  lemma {:induction false} LateIff(start: int, log: seq<int>, s: int)
    ensures s < Peak(start, log) <==> s < start || exists j :: 0 <= j < |log| && s < log[j]
  {
    PeakIsMax(start, log);
  }

  lemma {:induction false} EarlyCountIs(start: int, log: seq<int>)
    ensures EarlyCount(start, log) == |EarlyOnes(start, log)|
  {
    if log == [] {
      assert EarlyOnes(start, log) == {};
    } else {
      var n := |log| - 1;
      EarlyCountIs(start, log[..n]);
      assert EarlyOnes(start, log) == EarlyOnes(start, log[..n]) + if log[n] <= start then {n} else {};
    }
  }

  lemma {:induction false} EarlyCountIsZeroIff(start: int, log: seq<int>)
    ensures EarlyCount(start, log) == 0 <==> forall k :: 0 <= k < |log| ==> log[k] > start
  {
    if log != [] {
      var front, last := log[..|log| - 1], log[|log| - 1];
      EarlyCountIsZeroIff(start, front);
      assert forall k :: 0 <= k < |front| ==> log[k] == front[k];
    }
  }

  // The statistic is exactly the number of missing packets if and only if nothing from before the start was accepted.
  lemma {:induction false} LostIsExactIff(start: int, log: seq<int>)
    requires Reachable(start, log)
    ensures LostCount(start, log) == |Missing(start, log)| <==> forall k :: 0 <= k < |log| ==> log[k] > start
  {
    LostIsMissing(start, log);
    EarlyCountIsZeroIff(start, log);
  }

  // Otherwise it can drop below zero, that is, to 2^32 - 1 in the 32-bit counter.
  lemma {:induction false} LostCanBeNegative()
    ensures Reachable(257, [256]) && LostCount(257, [256]) == -1
  {
  }
}
