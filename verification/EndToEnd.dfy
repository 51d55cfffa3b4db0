/**
 A sender and a receiver with the same key and start nonce, and between them a channel that loses, repeats and
 reorders packets, and from which anything else may come as well.
 */
module EndToEnd {
  import opened Bytes
  import opened Casts
  import opened Nonce
  import opened Ocb2
  import opened Packets
  import opened Receiver
  import opened Channel

  // What a receiver with some log makes of the bytes that arrive.
  type Reception = (seq<int>, seq<byte>) -> Option<Delivery>

  function Receiving(enc: Cipher, dec: Cipher, start: int): Reception {
    (log: seq<int>, packet: seq<byte>) => Receive(enc, dec, start, log, packet)
  }

  // The log of the receiver and what each packet that arrived gave.
  datatype Run = Run(log: seq<int>, got: seq<Option<Delivery>>)

  function Arrive(receive: Reception, before: Run, packet: seq<byte>): Run {
    var d := receive(before.log, packet);
    Run(if d.Some? then before.log + [d.value.counter] else before.log, before.got + [d])
  }

  // The receiver's run when the first n of these packets have arrived, in this order.
  function Deliver(receive: Reception, wire: seq<seq<byte>>, n: nat): (r: Run)
    requires n <= |wire|
    ensures |r.got| == n
  {
    if n == 0 then Run([], []) else Arrive(receive, Deliver(receive, wire, n - 1), wire[n - 1])
  }

  // What a packet gave does not change as more arrive.
  lemma {:induction false} GotStays(receive: Reception, wire: seq<seq<byte>>, k: nat, n: nat)
    requires k < n <= |wire|
    ensures Deliver(receive, wire, n).got[k] == receive(Deliver(receive, wire, k).log, wire[k])
  {
    if k < n - 1 {
      GotStays(receive, wire, k, n - 1);
    }
  }

  //////////////////////////////////////////////////////////////////////////////
  // Whatever arrives
  //////////////////////////////////////////////////////////////////////////////

  // What is received has been admitted by the window and the history.
  ghost predicate Sound(receive: Reception, start: int) {
    forall log: seq<int>, packet: seq<byte> :: Reachable(start, log) && receive(log, packet).Some? ==>
      Admits(start, log, receive(log, packet).value.counter)
  }

  lemma {:induction false} ReceivingIsSound(enc: Cipher, dec: Cipher, start: int)
    ensures Sound(Receiving(enc, dec, start), start)
  {
    forall log: seq<int>, packet: seq<byte> | Reachable(start, log) && Receive(enc, dec, start, log, packet).Some?
      ensures Admits(start, log, Receive(enc, dec, start, log, packet).value.counter)
    {
      ReceivedIsAdmitted(enc, dec, start, log, packet);
    }
  }

  lemma {:induction false} ReceivedIsAdmitted(enc: Cipher, dec: Cipher, start: int, log: seq<int>, packet: seq<byte>)
    requires Receive(enc, dec, start, log, packet).Some?
    ensures Admits(start, log, Receive(enc, dec, start, log, packet).value.counter)
  {
    var s := Receive(enc, dec, start, log, packet).value.counter;
    assert Admitted(start, log, packet) == Some(s);
    ReconstructionIff(Peak(start, log), packet[0] as int, s);
  }

  lemma {:induction false} RunIsReachable(receive: Reception, start: int, wire: seq<seq<byte>>, n: nat)
    requires Sound(receive, start) && n <= |wire|
    ensures Reachable(start, Deliver(receive, wire, n).log)
  {
    if n > 0 {
      RunIsReachable(receive, start, wire, n - 1);
      var log, packet := Deliver(receive, wire, n - 1).log, wire[n - 1];
      if receive(log, packet).Some? {
        Appended(start, log, receive(log, packet).value.counter);
      }
    }
  }

  lemma {:induction false} DeliveredIsLogged(receive: Reception, wire: seq<seq<byte>>, k: nat, n: nat)
    requires k < n <= |wire| && Deliver(receive, wire, n).got[k].Some?
    ensures Deliver(receive, wire, n).got[k].value.counter in Deliver(receive, wire, n).log
  {
    if k < n - 1 {
      DeliveredIsLogged(receive, wire, k, n - 1);
    }
  }

  lemma {:induction false} DistinctDeliveries(receive: Reception, start: int, wire: seq<seq<byte>>, j: nat, k: nat,
                                              n: nat)
    requires Sound(receive, start) && j < k < n <= |wire|
    ensures var got := Deliver(receive, wire, n).got;
            got[j].Some? && got[k].Some? ==> got[j].value.counter != got[k].value.counter
  {
    var before := Deliver(receive, wire, n - 1);
    if k < n - 1 {
      DistinctDeliveries(receive, start, wire, j, k, n - 1);
    } else {
      var d := receive(before.log, wire[k]);
      if before.got[j].Some? && d.Some? && before.got[j].value.counter == d.value.counter {
        RunIsReachable(receive, start, wire, k);
        DeliveredIsLogged(receive, wire, j, k);
        AcceptedIsNotAdmitted(start, before.log, d.value.counter);
      }
    }
  }

  // Whatever bytes arrive, however often, in whatever order and however late, no two of those delivered are taken to
  // be of the same counter.
  lemma {:induction false} NothingTwice(enc: Cipher, dec: Cipher, start: int, wire: seq<seq<byte>>, j: nat, k: nat)
    requires j < k < |wire|
    ensures var got := Deliver(Receiving(enc, dec, start), wire, |wire|).got;
            got[j].Some? && got[k].Some? ==> got[j].value.counter != got[k].value.counter
  {
    ReceivingIsSound(enc, dec, start);
    DistinctDeliveries(Receiving(enc, dec, start), start, wire, j, k, |wire|);
  }

  // A packet of these bytes carries message m under counter s: the counter's low byte, three bytes of the tag and the
  // ciphertext, both as the standard defines them for the message under the counter's 16 bytes.
  ghost predicate CarriesMessage(enc: Cipher, packet: seq<byte>, s: int, m: seq<byte>) {
    && |packet| >= 4 && packet[0] as int == s % 256
    && IsTagged(enc, NonceBlock(s), m, packet[4..], packet[1..4])
  }

  // Of any bytes whatever, a message is received if and only if they carry it under a counter that window and history
  // admit, it is not empty and its last block, padded, is not the last offset.
  lemma {:induction false} ReceiveIff(enc: Cipher, dec: Cipher, start: int, log: seq<int>, packet: seq<byte>, s: int,
                                      m: seq<byte>)
    requires Inverse(enc, dec)
    ensures Receive(enc, dec, start, log, packet) == Some(Delivery(s, m)) <==>
            && CarriesMessage(enc, packet, s, m) && Admits(start, log, s)
            && m != [] && !EndsInOffset(enc, NonceBlock(s), m)
  {
    if |packet| >= 4 {
      ReconstructionIff(Peak(start, log), packet[0] as int, s);
      ReconstructionIff(Peak(start, log), s % 256, s);
      UnsealIff(enc, dec, s, packet, m);
    }
  }

  lemma {:induction false} UnsealIff(enc: Cipher, dec: Cipher, s: int, packet: seq<byte>, m: seq<byte>)
    requires Inverse(enc, dec) && |packet| >= 4
    ensures Unseal(enc, dec, s, packet) == Some(m) <==>
            && IsTagged(enc, NonceBlock(s), m, packet[4..], packet[1..4])
            && m != [] && !EndsInOffset(enc, NonceBlock(s), m)
  {
    AcceptedIffTagged(enc, dec, NonceBlock(s), packet[4..], packet[1..4], m);
  }

  // The packet the sender makes carries the message with its bit flipped where the pattern required it.
  lemma {:induction false} PacketCarries(enc: Cipher, s: int, m: seq<byte>)
    ensures CarriesMessage(enc, Packet(enc, s, m), s, Flip(m))
  {
    PacketParts(enc, s, m);
    SealIsOcb2(enc, NonceBlock(s), Flip(m));
  }

  //////////////////////////////////////////////////////////////////////////////
  // The sender's packets
  //////////////////////////////////////////////////////////////////////////////

  // A packet the sender made: the counter it was encrypted under and the message in it.
  datatype Sent = Sent(counter: int, message: seq<byte>)

  // Neither empty nor refused by the guard.
  ghost predicate Passes(enc: Cipher, p: Sent) {
    p.message != [] && !EndsInOffset(enc, NonceBlock(p.counter), Flip(p.message))
  }

  ghost function Seems(enc: Cipher, p: Sent): Arrival {
    Arrival(p.counter, Passes(enc, p))
  }

  // What the packet gives when it is taken.
  function Given(p: Sent): Delivery {
    Delivery(p.counter, Flip(p.message))
  }

  lemma {:induction false} PacketParts(enc: Cipher, s: int, m: seq<byte>)
    ensures var p, sealed := Packet(enc, s, m), Seal(enc, NonceBlock(s), Flip(m));
            |p| == |m| + 4 && p[0] as int == s % 256 && p[1..4] == sealed.tag[..3] && p[4..] == sealed.text
  {
    CastRoundTrip(s % 256);
  }

  lemma {:induction false} UnsealsPacket(enc: Cipher, dec: Cipher, p: Sent)
    requires Inverse(enc, dec)
    ensures var packet := Packet(enc, p.counter, p.message);
            && |packet| >= 4
            && Unseal(enc, dec, p.counter, packet) == if Passes(enc, p) then Some(Flip(p.message)) else None
  {
    PacketParts(enc, p.counter, p.message);
    RoundTrip(enc, dec, NonceBlock(p.counter), Flip(p.message), 3);
    GuardedIff(enc, NonceBlock(p.counter), Flip(p.message));
  }

  lemma {:induction false} AdmitsPacket(enc: Cipher, start: int, log: seq<int>, p: Sent)
    requires Near(start, Peak(start, log), Seems(enc, p))
    ensures Admitted(start, log, Packet(enc, p.counter, p.message)) ==
            if Admits(start, log, p.counter) then Some(p.counter) else None
  {
    PacketParts(enc, p.counter, p.message);
    CandidateOf(Peak(start, log), p.counter);
    if p.counter == Peak(start, log) {
      OwnByteIsRejected(p.counter);
    }
  }

  lemma {:induction false} CandidateOf(n: int, s: int)
    requires InWindow(n, s) || s == n
    ensures Candidate(n, s % 256) == if s == n then None else Some(s)
  {
    if s == n {
      OwnByteIsRejected(n);
    } else {
      ReconstructionIff(n, s % 256, s);
    }
  }

  // A packet of the sender that arrives 29 behind to 127 ahead of the receiver (or 128, short of a wrap), or repeats
  // the last one, gives its message with the bit flipped where the pattern required it, unless it does not pass the
  // cipher or the history refuses it; then it gives nothing.
  lemma {:induction false} PacketArrives(enc: Cipher, dec: Cipher, start: int, log: seq<int>, p: Sent)
    requires Inverse(enc, dec) && Near(start, Peak(start, log), Seems(enc, p))
    ensures Receive(enc, dec, start, log, Packet(enc, p.counter, p.message)) ==
            if Takes(start, log, Seems(enc, p)) then Some(Given(p)) else None
  {
    AdmitsPacket(enc, start, log, p);
    UnsealsPacket(enc, dec, p);
    TakesIsAdmits(start, log, Seems(enc, p));
  }

  // The same in every run, whatever else arrives.
  lemma {:induction false} SessionDelivers(enc: Cipher, dec: Cipher, start: int, wire: seq<seq<byte>>, k: nat, p: Sent)
    requires Inverse(enc, dec) && k < |wire| && wire[k] == Packet(enc, p.counter, p.message)
    requires Near(start, Peak(start, Deliver(Receiving(enc, dec, start), wire, k).log), Seems(enc, p))
    ensures var receive := Receiving(enc, dec, start);
            Deliver(receive, wire, |wire|).got[k] ==
            if Takes(start, Deliver(receive, wire, k).log, Seems(enc, p)) then Some(Given(p)) else None
  {
    var receive := Receiving(enc, dec, start);
    GotStays(receive, wire, k, |wire|);
    PacketArrives(enc, dec, start, Deliver(receive, wire, k).log, p);
  }

  //////////////////////////////////////////////////////////////////////////////
  // A channel between the two
  //////////////////////////////////////////////////////////////////////////////

  // The receiver makes of these packets what it should, as long as they are no further off than their low byte can
  // tell: what is due to each when it is taken, and nothing otherwise.
  ghost predicate Faithful(receive: Reception, start: int, wire: seq<seq<byte>>, a: seq<Arrival>, due: seq<Delivery>)
    requires |wire| == |a| == |due|
  {
    forall log: seq<int>, k {:trigger receive(log, wire[k])} :: 0 <= k < |a| && Near(start, Peak(start, log), a[k]) ==>
      receive(log, wire[k]) == if Takes(start, log, a[k]) then Some(due[k]) else None
  }

  ghost predicate SameCounters(a: seq<Arrival>, due: seq<Delivery>) {
    |a| == |due| && forall k :: 0 <= k < |a| ==> due[k].counter == a[k].counter
  }

  lemma {:induction false} ArriveTakes(receive: Reception, start: int, wire: seq<seq<byte>>, a: seq<Arrival>,
                                       due: seq<Delivery>, k: nat, r: Run)
    requires SameCounters(a, due) && |wire| == |a| && Faithful(receive, start, wire, a, due)
    requires k < |a| && Near(start, Peak(start, r.log), a[k])
    ensures Arrive(receive, r, wire[k]).log == Logged(start, r.log, a[k])
  {
  }

  // Such a receiver does with low bytes what it would do with whole counters.
  lemma {:induction false} RunIsTaken(receive: Reception, start: int, wire: seq<seq<byte>>, a: seq<Arrival>,
                                      due: seq<Delivery>, n: nat)
    requires SameCounters(a, due) && |wire| == |a| && Faithful(receive, start, wire, a, due)
    requires n <= |a| && AllNear(start, a, n)
    ensures Deliver(receive, wire, n).log == Taken(start, a, n)
  {
    if n > 0 {
      RunIsTaken(receive, start, wire, a, due, n - 1);
      ArriveTakes(receive, start, wire, a, due, n - 1, Deliver(receive, wire, n - 1));
    }
  }

  lemma {:induction false} GivesItsDue(receive: Reception, start: int, wire: seq<seq<byte>>, a: seq<Arrival>,
                                       due: seq<Delivery>, k: nat)
    requires SameCounters(a, due) && |wire| == |a| && Faithful(receive, start, wire, a, due)
    requires k < |a| && AllNear(start, a, k + 1)
    ensures Deliver(receive, wire, |wire|).got[k] ==
            if Takes(start, Taken(start, a, k), a[k]) then Some(due[k]) else None
  {
    RunIsTaken(receive, start, wire, a, due, k);
    GotStays(receive, wire, k, |wire|);
  }

  // The packets of some messages, what they look like to a receiver and what they give when they are taken.
  ghost predicate Carries(enc: Cipher, sent: seq<Sent>, wire: seq<seq<byte>>, a: seq<Arrival>, due: seq<Delivery>) {
    && |wire| == |a| == |due| == |sent|
    && forall i :: 0 <= i < |sent| ==>
         && wire[i] == Packet(enc, sent[i].counter, sent[i].message)
         && a[i] == Seems(enc, sent[i]) && due[i] == Given(sent[i])
  }

  lemma {:induction false} CarriesFaithfully(enc: Cipher, dec: Cipher, start: int, sent: seq<Sent>,
                                             wire: seq<seq<byte>>, a: seq<Arrival>, due: seq<Delivery>)
    requires Inverse(enc, dec) && Carries(enc, sent, wire, a, due)
    ensures SameCounters(a, due) && Faithful(Receiving(enc, dec, start), start, wire, a, due)
  {
    forall log: seq<int>, k | 0 <= k < |a| && Near(start, Peak(start, log), a[k])
      ensures Receiving(enc, dec, start)(log, wire[k]) == if Takes(start, log, a[k]) then Some(due[k]) else None
    {
      PacketArrives(enc, dec, start, log, sent[k]);
    }
  }

  //////////////////////////////////////////////////////////////////////////////
  // Loss, repetition and reordering within the window
  //////////////////////////////////////////////////////////////////////////////

  // Each packet that passes is delivered where it first arrives, and nothing else is.
  ghost predicate OnceEach(got: seq<Option<Delivery>>, a: seq<Arrival>, due: seq<Delivery>)
    requires |got| == |a| == |due|
  {
    forall k :: 0 <= k < |a| ==> got[k] == if IsFirst(a, k) then Some(due[k]) else None
  }

  lemma {:induction false} DeliversSeen(receive: Reception, start: int, wire: seq<seq<byte>>, a: seq<Arrival>,
                                        due: seq<Delivery>)
    requires SameCounters(a, due) && |wire| == |a| && Faithful(receive, start, wire, a, due)
    requires WithinWindow(start, a) && ClearUpTo(start, a, |a|)
    ensures OnceEach(Deliver(receive, wire, |wire|).got, a, due)
    ensures Deliver(receive, wire, |wire|).log == Seen(a, |a|)
  {
    SeenIsNear(start, a, |a|);
    OnceEachIff(start, a);
    forall k | 0 <= k < |a|
      ensures Deliver(receive, wire, |wire|).got[k] == if IsFirst(a, k) then Some(due[k]) else None
    {
      NearBefore(start, a, k + 1, |a|);
      GivesItsDue(receive, start, wire, a, due, k);
    }
    RunIsTaken(receive, start, wire, a, due, |a|);
    KeepsUp(start, a, |a|);
  }

  lemma {:induction false} SeenIsTakenNext(receive: Reception, start: int, wire: seq<seq<byte>>, a: seq<Arrival>,
                                           due: seq<Delivery>, k: nat)
    requires SameCounters(a, due) && |wire| == |a| && Faithful(receive, start, wire, a, due)
    requires WithinWindow(start, a) && k < |a| && OnceEach(Deliver(receive, wire, |wire|).got, a, due)
    requires AllNear(start, a, k) && Taken(start, a, k) == Seen(a, k)
    ensures AllNear(start, a, k + 1) && (Takes(start, Taken(start, a, k), a[k]) <==> IsFirst(a, k))
  {
    SeenPeak(start, a, k);
    GivesItsDue(receive, start, wire, a, due, k);
  }

  lemma {:induction false} SeenIsTaken(receive: Reception, start: int, wire: seq<seq<byte>>, a: seq<Arrival>,
                                       due: seq<Delivery>, n: nat)
    requires SameCounters(a, due) && |wire| == |a| && Faithful(receive, start, wire, a, due)
    requires WithinWindow(start, a) && n <= |a| && OnceEach(Deliver(receive, wire, |wire|).got, a, due)
    ensures AllNear(start, a, n) && Taken(start, a, n) == Seen(a, n)
  {
    if n > 0 {
      SeenIsTaken(receive, start, wire, a, due, n - 1);
      SeenIsTakenNext(receive, start, wire, a, due, n - 1);
      SeenNext(start, a, n - 1);
    }
  }

  // Over a channel that loses, repeats and reorders the sender's packets within the window, each is delivered where it
  // first arrives and nowhere else if and only if every first arrival is next in order or news to the history.
  lemma {:induction false} DeliversOnceIff(enc: Cipher, dec: Cipher, start: int, sent: seq<Sent>,
                                           wire: seq<seq<byte>>, a: seq<Arrival>, due: seq<Delivery>)
    requires Inverse(enc, dec) && Carries(enc, sent, wire, a, due) && WithinWindow(start, a)
    ensures OnceEach(Deliver(Receiving(enc, dec, start), wire, |wire|).got, a, due) <==> ClearUpTo(start, a, |a|)
  {
    var receive := Receiving(enc, dec, start);
    CarriesFaithfully(enc, dec, start, sent, wire, a, due);
    OnceEachIff(start, a);
    if ClearUpTo(start, a, |a|) {
      DeliversSeen(receive, start, wire, a, due);
    }
    if OnceEach(Deliver(receive, wire, |wire|).got, a, due) {
      forall k | 0 <= k < |a| ensures Takes(start, Taken(start, a, k), a[k]) <==> IsFirst(a, k) {
        SeenIsTaken(receive, start, wire, a, due, k);
        SeenIsTakenNext(receive, start, wire, a, due, k);
      }
    }
  }

  // And then the receiver has logged what arrived and stands at the highest counter of it.
  lemma {:induction false} StandsAtHighest(enc: Cipher, dec: Cipher, start: int, sent: seq<Sent>,
                                           wire: seq<seq<byte>>, a: seq<Arrival>, due: seq<Delivery>)
    requires Inverse(enc, dec) && Carries(enc, sent, wire, a, due)
    requires WithinWindow(start, a) && ClearUpTo(start, a, |a|)
    ensures var log := Deliver(Receiving(enc, dec, start), wire, |wire|).log;
            log == Seen(a, |a|) && Peak(start, log) == Highest(start, a, |a|)
  {
    CarriesFaithfully(enc, dec, start, sent, wire, a, due);
    DeliversSeen(Receiving(enc, dec, start), start, wire, a, due);
    SeenPeak(start, a, |a|);
  }

  //////////////////////////////////////////////////////////////////////////////
  // In order
  //////////////////////////////////////////////////////////////////////////////

  // With the packets in order, and some perhaps missing, the k-th is delivered if and only if it passes and either the
  // one before it was accepted or it is news to the history, as long as no more than 126 counters in a row (127 short
  // of a wrap) go unaccepted. The receiver stands at the last counter it accepted.
  lemma {:induction false} InOrderDeliversIff(enc: Cipher, dec: Cipher, start: int, sent: seq<Sent>,
                                              wire: seq<seq<byte>>, a: seq<Arrival>, due: seq<Delivery>, k: nat)
    requires Inverse(enc, dec) && Carries(enc, sent, wire, a, due)
    requires Increasing(start, a) && k < |a| && ShortGaps(start, a, k + 1)
    ensures var receive := Receiving(enc, dec, start);
            var log, s := Deliver(receive, wire, k).log, sent[k].counter;
            && Deliver(receive, wire, |wire|).got[k] ==
               (if Passes(enc, sent[k]) && (FollowsOn(start, log, s) || IsNews(log, s)) then Some(Given(sent[k]))
                else None)
            && Peak(start, log) == if log == [] then start else log[|log| - 1]
  {
    var receive := Receiving(enc, dec, start);
    CarriesFaithfully(enc, dec, start, sent, wire, a, due);
    ShortGapsAreNear(start, a, k + 1);
    RunIsTaken(receive, start, wire, a, due, k);
    GivesItsDue(receive, start, wire, a, due, k);
    InOrderIff(start, a, k);
    InOrderPeak(start, a, k);
  }

  // So a message is not delivered on its own merits: after an empty message, which passes nowhere, the next one is
  // refused if the session has just begun at counter 0.
  lemma {:induction false} EmptyMessageBlocksTheNext(enc: Cipher, dec: Cipher, m: seq<byte>, wire: seq<seq<byte>>)
    requires Inverse(enc, dec) && Passes(enc, Sent(2, m)) && wire == [Packet(enc, 1, []), Packet(enc, 2, m)]
    ensures var got := Deliver(Receiving(enc, dec, 0), wire, |wire|).got; got[0] == got[1] == None
  {
    var sent, a := [Sent(1, []), Sent(2, m)], [Arrival(1, false), Arrival(2, true)];
    var due := [Given(sent[0]), Given(sent[1])];
    CarriesFaithfully(enc, dec, 0, sent, wire, a, due);
    BlockedByAnother(a);
    GivesItsDue(Receiving(enc, dec, 0), 0, wire, a, due, 0);
    GivesItsDue(Receiving(enc, dec, 0), 0, wire, a, due, 1);
  }

  // The same when the sender counts an empty message and, as it does, sends no packet for it.
  lemma {:induction false} UnsentMessageBlocksTheNext(enc: Cipher, dec: Cipher, m: seq<byte>, wire: seq<seq<byte>>)
    requires Inverse(enc, dec) && Passes(enc, Sent(2, m)) && wire == [Packet(enc, 2, m)]
    ensures Deliver(Receiving(enc, dec, 0), wire, |wire|).got[0] == None
  {
    var sent, a, due := [Sent(2, m)], [Arrival(2, true)], [Given(Sent(2, m))];
    CarriesFaithfully(enc, dec, 0, sent, wire, a, due);
    BlockedByAGap(a);
    GivesItsDue(Receiving(enc, dec, 0), 0, wire, a, due, 0);
  }

  // Neither lost nor out of order nor failing to pass, every message is delivered, and nothing counts as late or lost.
  lemma {:induction false} ConsecutiveDelivers(enc: Cipher, dec: Cipher, start: int, sent: seq<Sent>,
                                               wire: seq<seq<byte>>, a: seq<Arrival>, due: seq<Delivery>, k: nat)
    requires Inverse(enc, dec) && Carries(enc, sent, wire, a, due) && Consecutive(start, a) && k < |a|
    ensures var r := Deliver(Receiving(enc, dec, start), wire, |wire|);
            r.got[k] == Some(Given(sent[k])) && InStep(start, r.log, |wire|)
  {
    var receive := Receiving(enc, dec, start);
    CarriesFaithfully(enc, dec, start, sent, wire, a, due);
    StaysInStep(start, a, k);
    StaysInStep(start, a, |a|);
    NearBefore(start, a, k + 1, |a|);
    GivesItsDue(receive, start, wire, a, due, k);
    RunIsTaken(receive, start, wire, a, due, |a|);
  }
}
