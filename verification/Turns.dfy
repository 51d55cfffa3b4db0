/** What the turns of a call to the TLS library come to: its code, the bytes it moves and the timeouts it counts. */
module Turns {
  import opened Bytes
  import opened Framing
  import opened Signals
  import opened TLS

  // The flags of Monitor::Event::State.
  datatype State = State(triggered: bool, inReady: bool, outReady: bool, disconnected: bool, error: bool)

  // What the surroundings answer in one round of a loop: whether to halt, what the TLS library makes of a call and
  // how many bytes it is ready to move, what a wait reports if one is needed (nothing when it times out), how many
  // timeouts the owner puts up with, and how much decrypted data the library then holds.
  datatype Turn = Turn(halt: bool, error: SslError, again: bool, count: nat, event: Option<State>, timeouts: nat,
                       pending: nat)

  function InterpretTlsCode(code: TlsCode): Code {
    match code
    case TlsMemory => Memory
    case TlsFailure => Failure
    case TlsUnknown => Unknown
    case TlsSuccess => Success
    case TlsRetry => Retry
    case TlsShutdown => Disconnect
    case WaitIn => Busy
    case WaitOut => Busy
  }

  function StateCode(state: State): Code {
    if state.disconnected then Disconnect
    else if state.error then Failure
    else if state.triggered || state.inReady || state.outReady then Retry
    else Unknown
  }

  predicate TimesOut(code: TlsCode, wait: bool, turn: Turn) {
    InterpretTlsCode(code) == Busy && wait && turn.event == None
  }

  // What a library result comes to, where `timeouts` counts a wait that it ends in for nothing.
  function Outcome(code: TlsCode, wait: bool, turn: Turn, timeouts: int): Code {
    var c := InterpretTlsCode(code);
    if c == Busy && wait then
      match turn.event
      case None => if timeouts < turn.timeouts then Retry else Timeout
      case Some(state) => StateCode(state)
    else c
  }

  type uint32 = x: int | 0 <= x < 0x1_0000_0000

  // ++ on a uint32_t.
  function Plus1(n: int): uint32 {
    (n + 1) % 0x1_0000_0000
  }

  //////////////////////////////////////////////////////////////////////////////
  // One turn
  //////////////////////////////////////////////////////////////////////////////

  // The library cannot go on before the socket is ready.
  predicate Blocked(turn: Turn) {
    turn.error == ErrorWantRead || turn.error == ErrorWantWrite
  }

  // A turn that is a wait for nothing.
  predicate EmptyWait(turn: Turn, wait: bool) {
    wait && !turn.halt && Blocked(turn) && turn.event == None
  }

  // The count of timeouts after a turn that does not halt, unless it is reset.
  function CountAfter(turn: Turn, wait: bool, n: int): int {
    if EmptyWait(turn, wait) then Plus1(n) else n
  }

  // The code of a turn in which bytes were moved or not and remain to be moved or not, with n timeouts before it.
  function Verdict(turn: Turn, done: bool, left: bool, wait: bool, n: int): Code {
    Outcome(InterpretLibCode(turn.error, turn.again, done, left), wait, turn, CountAfter(turn, wait, n))
  }

  // A call is done when it moved something, nothing remains and the library is content.
  lemma {:induction false} SuccessIff(turn: Turn, done: bool, left: bool, wait: bool, n: int)
    ensures Verdict(turn, done, left, wait, n) == Success <==> turn.error == ErrorNone && done && !left
  {
  }

  // It goes on after a partial transfer, an interrupted system call, a wait that reports activity and nothing worse,
  // and a wait for nothing that does not bring the count to the limit.
  lemma {:induction false} RetryIff(turn: Turn, done: bool, left: bool, wait: bool, n: int)
    requires !turn.halt
    ensures Verdict(turn, done, left, wait, n) == Retry <==>
            || (turn.error == ErrorNone && done && left)
            || (turn.error == ErrorSyscall && turn.again)
            || (turn.error in {ErrorWantRead, ErrorWantWrite} && wait &&
                match turn.event
                case None => (n + 1) % 0x1_0000_0000 < turn.timeouts
                case Some(s) => !s.disconnected && !s.error && (s.triggered || s.inReady || s.outReady))
  {
  }

  // It gives up after a wait for nothing that does.
  lemma {:induction false} TimeoutIff(turn: Turn, done: bool, left: bool, wait: bool, n: int)
    requires !turn.halt
    ensures Verdict(turn, done, left, wait, n) == Timeout <==>
            && turn.error in {ErrorWantRead, ErrorWantWrite} && wait && turn.event == None
            && (n + 1) % 0x1_0000_0000 >= turn.timeouts
  {
  }

  // Where it may not wait it is told that the connection is busy.
  lemma {:induction false} BusyIff(turn: Turn, done: bool, left: bool, wait: bool, n: int)
    ensures Verdict(turn, done, left, wait, n) == Busy <==> turn.error in {ErrorWantRead, ErrorWantWrite} && !wait
  {
  }

  // The peer is gone: it said so, nothing was moved, a wait reports it.
  lemma {:induction false} DisconnectIff(turn: Turn, done: bool, left: bool, wait: bool, n: int)
    ensures Verdict(turn, done, left, wait, n) == Disconnect <==>
            || turn.error == ErrorZeroReturn
            || (turn.error == ErrorNone && !done)
            || (turn.error == ErrorSyscall && !turn.again && !done)
            || (turn.error in {ErrorWantRead, ErrorWantWrite} && wait &&
                turn.event.Some? && turn.event.value.disconnected)
  {
  }

  lemma {:induction false} FailureIff(turn: Turn, done: bool, left: bool, wait: bool, n: int)
    ensures Verdict(turn, done, left, wait, n) == Failure <==>
            || turn.error == ErrorSsl
            || (turn.error == ErrorSyscall && !turn.again && done)
            || (turn.error in {ErrorWantRead, ErrorWantWrite} && wait &&
                turn.event.Some? && turn.event.value.error && !turn.event.value.disconnected)
  {
  }

  lemma {:induction false} UnknownIff(turn: Turn, done: bool, left: bool, wait: bool, n: int)
    ensures Verdict(turn, done, left, wait, n) == Unknown <==>
            || turn.error == ErrorOther
            || (turn.error in {ErrorWantRead, ErrorWantWrite} && wait &&
                turn.event == Some(State(false, false, false, false, false)))
  {
  }

  // And there is no other code.
  lemma {:induction false} VerdictIs(turn: Turn, done: bool, left: bool, wait: bool, n: int)
    ensures Verdict(turn, done, left, wait, n) in
            {Success, Retry, Timeout, Busy, Disconnect, Failure, Unknown}
  {
  }

  //////////////////////////////////////////////////////////////////////////////
  // A call
  //////////////////////////////////////////////////////////////////////////////

  // A handshake, or a transfer of `size` bytes of which there are `room`.
  datatype Call = Greeting | Transfer(size: nat, room: nat)

  function Least(a: nat, b: nat): nat {
    if a < b then a else b
  }

  // Reading `size` bytes of a stream from byte c on.
  function Fill(s: seq<byte>, c: nat, size: nat): Call {
    Transfer(size, if c <= |s| then |s| - c else 0)
  }

  // What the library moves in a turn, and what is then left of the call.
  function Portion(call: Call, turn: Turn): nat {
    if call.Greeting? then 0 else Least(turn.count, Least(call.size, call.room))
  }

  function Remainder(call: Call, m: nat): Call {
    if call.Transfer? && m <= call.size && m <= call.room then Transfer(call.size - m, call.room - m) else call
  }

  // Whether a call that has moved so many bytes has done something, and whether something is left of it.
  predicate Done(call: Call, m: nat) {
    call.Greeting? || m > 0
  }

  predicate Left(call: Call, m: nat) {
    call.Transfer? && m < call.size
  }

  // The answer of the library in a turn: how many bytes it moves, and its code.
  ghost predicate Answers(call: Call, turn: Turn, m: nat, code: TlsCode) {
    && m == Portion(call, turn)
    && code == InterpretLibCode(turn.error, turn.again, Done(call, m), Left(call, m))
  }

  // A stage of a call: the turns used, the bytes moved and the timeouts counted.
  datatype Stage = Stage(turn: nat, byte: nat, count: int)

  datatype Result = Result(stage: Stage, code: Code)

  // The stage after a turn in which m bytes were moved and which has this code.
  function Next(a: Stage, turn: Turn, wait: bool, m: nat, code: Code): Stage {
    Stage(a.turn + 1, a.byte + m, if code in {Success, Disconnect} then 0 else CountAfter(turn, wait, a.count))
  }

  // The end that a call comes to from stage a on: with the code of the first turn after which it is not tried again, or
  // cancelled where it is to halt or there are no more turns.
  function ResultOf(call: Call, turns: seq<Turn>, wait: bool, a: Stage): (r: Result)
    requires a.turn <= |turns|
    ensures a.turn <= r.stage.turn <= |turns| && a.byte <= r.stage.byte
    ensures r.code == Success ==> a.turn < r.stage.turn
    ensures r.code == Success && call.Transfer? ==> call.size <= call.room && r.stage.byte == a.byte + call.size
    decreases |turns| - a.turn, 1
  {
    if a.turn == |turns| then Result(a, Cancel)
    else if turns[a.turn].halt then Result(a.(turn := a.turn + 1), Cancel)
    else FromTurn(call, turns, wait, a)
  }

  // The same from a turn on in which it is not to halt.
  function FromTurn(call: Call, turns: seq<Turn>, wait: bool, a: Stage): (r: Result)
    requires a.turn < |turns|
    ensures a.turn < r.stage.turn <= |turns| && a.byte <= r.stage.byte
    ensures r.code == Success && call.Transfer? ==> call.size <= call.room && r.stage.byte == a.byte + call.size
    decreases |turns| - a.turn, 0
  {
    var turn := turns[a.turn];
    var m := Portion(call, turn);
    var code := Verdict(turn, Done(call, m), Left(call, m), wait, a.count);
    var b := Next(a, turn, wait, m, code);
    if code == Retry then ResultOf(Remainder(call, m), turns, wait, b) else Result(b, code)
  }

  // A turn is what its code and its count of timeouts say.
  lemma {:induction false} TurnIs(call: Call, turns: seq<Turn>, wait: bool, a: Stage, b: Stage, m: nat, tls: TlsCode,
                                  code: Code)
    requires a.turn < |turns| && !turns[a.turn].halt && Answers(call, turns[a.turn], m, tls)
    requires code == Outcome(tls, wait, turns[a.turn], Plus1(a.count))
    requires b.turn == a.turn + 1 && b.byte == a.byte + m
    requires b.count == if code == Success || code == Disconnect then 0
                        else if TimesOut(tls, wait, turns[a.turn]) then Plus1(a.count)
                        else a.count
    ensures ResultOf(call, turns, wait, a) == if code == Retry then ResultOf(Remainder(call, m), turns, wait, b)
                                           else Result(b, code)
  {
  }

  // A call is never given back to be tried again, nor for a size it was not told of, and is only cancelled where it is
  // to halt or no turn is left.
  lemma {:induction false} EndMeans(call: Call, turns: seq<Turn>, wait: bool, a: Stage, r: Result)
    requires a.turn <= |turns| && r == ResultOf(call, turns, wait, a)
    ensures r.code != Retry && r.code != Invalid && (r.code == Busy ==> !wait)
    ensures a.turn <= r.stage.turn <= |turns| && (r.code == Success ==> a.turn < r.stage.turn)
    ensures r.code == Cancel ==> Halted(turns, r.stage.turn)
    ensures r.code == Success ==>
              Content(turns, r.stage.turn) && (call.Transfer? ==> r.stage.byte == a.byte + call.size)
    ensures r.stage.byte <= a.byte + if call.Greeting? then 0 else Least(call.size, call.room)
    decreases |turns| - a.turn
  {
    if a.turn < |turns| && !turns[a.turn].halt {
      var turn := turns[a.turn];
      var m := Portion(call, turn);
      var done, left := Done(call, m), Left(call, m);
      var code := Verdict(turn, done, left, wait, a.count);
      VerdictIs(turn, done, left, wait, a.count);
      BusyIff(turn, done, left, wait, a.count);
      SuccessIff(turn, done, left, wait, a.count);
      if code == Retry {
        EndMeans(Remainder(call, m), turns, wait, Next(a, turn, wait, m, code), r);
      }
    }
  }

  // The turns are used up or the last one said to halt.
  ghost predicate Halted(turns: seq<Turn>, at: nat) {
    at >= |turns| || (at > 0 && turns[at - 1].halt)
  }

  // The library was content in the last turn.
  ghost predicate Content(turns: seq<Turn>, at: nat) {
    0 < at <= |turns| && !turns[at - 1].halt && turns[at - 1].error == ErrorNone
  }

  // Every turn of a call but the last is one after which it was to be tried again.
  lemma {:induction false} EarlierTurns(call: Call, turns: seq<Turn>, wait: bool, a: Stage, k: nat)
    requires a.turn <= |turns| && a.turn <= k < ResultOf(call, turns, wait, a).stage.turn - 1
    ensures !turns[k].halt && exists done, left, n :: Verdict(turns[k], done, left, wait, n) == Retry
    decreases |turns| - a.turn
  {
    var turn := turns[a.turn];
    var m := Portion(call, turn);
    var code := Verdict(turn, Done(call, m), Left(call, m), wait, a.count);
    if a.turn < k {
      EarlierTurns(Remainder(call, m), turns, wait, Next(a, turn, wait, m, code), k);
    }
  }

  function EmptyWaits(turns: seq<Turn>, i: nat, j: nat, wait: bool): set<nat>
    requires i <= j <= |turns|
  {
    set k: nat | i <= k < j && EmptyWait(turns[k], wait)
  }

  // The count of timeouts goes up by the number of empty waits, modulo 2^32, where it is not reset.
  lemma {:induction false} CountIs(call: Call, turns: seq<Turn>, wait: bool, a: Stage)
    requires a.turn <= |turns| && 0 <= a.count < 0x1_0000_0000
    ensures var r := ResultOf(call, turns, wait, a);
            r.stage.count == if r.code in {Success, Disconnect} then 0
                             else (a.count + |EmptyWaits(turns, a.turn, r.stage.turn, wait)|) % 0x1_0000_0000
    decreases |turns| - a.turn
  {
    if a.turn < |turns| {
      var turn, e := turns[a.turn], ResultOf(call, turns, wait, a).stage.turn;
      OneTurnMore(turns, a.turn, e, wait);
      if !turn.halt {
        var m := Portion(call, turn);
        var code := Verdict(turn, Done(call, m), Left(call, m), wait, a.count);
        PlusOne(a.count, |EmptyWaits(turns, a.turn + 1, e, wait)|);
        if code == Retry {
          CountIs(Remainder(call, m), turns, wait, Next(a, turn, wait, m, code));
        } else {
          assert EmptyWaits(turns, e, e, wait) == {};
        }
      } else {
        assert EmptyWaits(turns, e, e, wait) == {};
      }
    } else {
      assert EmptyWaits(turns, a.turn, a.turn, wait) == {};
    }
  }

  lemma {:induction false} OneTurnMore(turns: seq<Turn>, i: nat, j: nat, wait: bool)
    requires i < j <= |turns|
    ensures |EmptyWaits(turns, i, j, wait)| ==
            |EmptyWaits(turns, i + 1, j, wait)| + if EmptyWait(turns[i], wait) then 1 else 0
  {
    var a, b := EmptyWaits(turns, i + 1, j, wait), EmptyWaits(turns, i, j, wait);
    assert b == if EmptyWait(turns[i], wait) then a + {i} else a;
  }

  lemma {:induction false} PlusOne(n: int, k: nat)
    ensures (Plus1(n) + k) % 0x1_0000_0000 == (n + k + 1) % 0x1_0000_0000
  {
  }

  //////////////////////////////////////////////////////////////////////////////
  // When a call succeeds
  //////////////////////////////////////////////////////////////////////////////

  // The library moves something.
  predicate Moves(turn: Turn) {
    !turn.halt && turn.error == ErrorNone && turn.count > 0
  }

  // The call is tried again: a system call was interrupted, or a wait reports activity and nothing worse.
  predicate Resumes(turn: Turn, wait: bool) {
    && !turn.halt
    && ((turn.error == ErrorSyscall && turn.again) ||
        (turn.error in {ErrorWantRead, ErrorWantWrite} && wait && turn.event.Some? &&
         !turn.event.value.disconnected && !turn.event.value.error &&
         (turn.event.value.triggered || turn.event.value.inReady || turn.event.value.outReady)))
  }

  // The library moves something, or nothing for a reason that passes.
  predicate Passing(turn: Turn, wait: bool) {
    Moves(turn) || (turn.count == 0 && Resumes(turn, wait))
  }

  ghost predicate AllPassing(turns: seq<Turn>, wait: bool, i: nat, j: nat)
    requires j <= |turns|
  {
    forall k :: i <= k < j ==> Passing(turns[k], wait)
  }

  // How many of the turns i to j move something.
  function Moving(turns: seq<Turn>, i: nat, j: nat): nat
    requires i <= j <= |turns|
    decreases j - i
  {
    if i == j then 0 else (if Moves(turns[i]) then 1 else 0) + Moving(turns, i + 1, j)
  }

  // A turn that passes moves a byte at least or nothing, and the call goes on or has moved everything.
  lemma {:induction false} PassingCode(size: nat, room: nat, turn: Turn, wait: bool, n: int)
    requires Passing(turn, wait) && 0 < size <= room
    ensures var call := Transfer(size, room);
            var m := Portion(call, turn);
            && m <= size && (m > 0 <==> Moves(turn))
            && Verdict(turn, Done(call, m), Left(call, m), wait, n) == if m < size then Retry else Success
  {
    var call := Transfer(size, room);
    var m := Portion(call, turn);
    RetryIff(turn, Done(call, m), Left(call, m), wait, n);
    SuccessIff(turn, Done(call, m), Left(call, m), wait, n);
  }

  // A transfer of which all bytes are there, or may be sent, succeeds however it is cut up and interrupted: it is
  // enough that as many turns move something as there are bytes, and that the others pass. It leaves the turns that it
  // does not need.
  lemma {:induction false} PassingSucceeds(size: nat, room: nat, turns: seq<Turn>, wait: bool, a: Stage, j: nat)
    requires a.turn <= j <= |turns| && 0 < size <= room && size <= Moving(turns, a.turn, j)
    requires AllPassing(turns, wait, a.turn, j)
    ensures var r := ResultOf(Transfer(size, room), turns, wait, a);
            && r.code == Success && a.turn < r.stage.turn <= j
            && r.stage.byte == a.byte + size && r.stage.count == 0
            && Moving(turns, r.stage.turn, j) >= Moving(turns, a.turn, j) - size
    decreases |turns| - a.turn
  {
    var call, turn := Transfer(size, room), turns[a.turn];
    var m := Portion(call, turn);
    PassingCode(size, room, turn, wait, a.count);
    if m < size {
      PassingSucceeds(size - m, room - m, turns, wait, Next(a, turn, wait, m, Retry), j);
    }
  }

  // A handshake succeeds in the first turn in which the library is content, however often it was to be tried again.
  lemma {:induction false} GreetingSucceeds(turns: seq<Turn>, wait: bool, a: Stage, j: nat)
    requires a.turn <= j < |turns| && forall k :: a.turn <= k < j ==> Resumes(turns[k], wait)
    requires turns[j].error == ErrorNone && !turns[j].halt
    ensures ResultOf(Greeting, turns, wait, a) == Result(Stage(j + 1, a.byte, 0), Success)
    decreases j - a.turn
  {
    RetryIff(turns[a.turn], true, false, wait, a.count);
    SuccessIff(turns[a.turn], true, false, wait, a.count);
    if a.turn < j {
      GreetingSucceeds(turns, wait, Next(a, turns[a.turn], wait, 0, Retry), j);
    }
  }

  //////////////////////////////////////////////////////////////////////////////
  // The rounds of process
  //////////////////////////////////////////////////////////////////////////////

  // The end of one round: a header, which is refused for the size it announces or followed by that many bytes.
  function RoundResult(turns: seq<Turn>, s: seq<byte>, wait: bool, a: Stage): (r: Result)
    requires a.turn <= |turns|
    ensures a.turn <= r.stage.turn <= |turns| && a.byte <= r.stage.byte
    ensures r.code == Success ==> a.turn < r.stage.turn && r.stage.byte <= |s|
  {
    var h := ResultOf(Fill(s, a.byte, HEADER), turns, wait, a);
    if h.code != Success then h
    else
      var size := BodySize(s[a.byte..h.stage.byte]);
      if size > 65535 then Result(h.stage, Invalid)
      else if size == 0 then h
      else ResultOf(Fill(s, h.stage.byte, size), turns, wait, h.stage)
  }

  // Another header is there when a round ends with this turn.
  predicate More(turns: seq<Turn>, at: nat) {
    0 < at <= |turns| && turns[at - 1].pending >= HEADER
  }

  // What process delivers and the end it comes to.
  datatype Run = Run(packs: seq<seq<byte>>, result: Result)

  // One round after the other, until one fails or nothing more is there.
  function Processing(turns: seq<Turn>, s: seq<byte>, wait: bool, a: Stage): Run
    requires a.turn <= |turns|
    decreases |turns| - a.turn
  {
    var r := RoundResult(turns, s, wait, a);
    if r.code != Success then Run([], r)
    else if !More(turns, r.stage.turn) then Run([s[a.byte..r.stage.byte]], r)
    else
      var rest := Processing(turns, s, wait, r.stage);
      Run([s[a.byte..r.stage.byte]] + rest.packs, rest.result)
  }

  // A frame stands in the stream from stage a on, and as many turns up to j move something as it has bytes; the others
  // pass.
  ghost predicate Comes(turns: seq<Turn>, s: seq<byte>, wait: bool, a: Stage, j: nat, e: nat) {
    && a.byte <= e <= |s| && IsFrame(s[a.byte..e]) && a.turn <= j <= |turns|
    && Moving(turns, a.turn, j) >= e - a.byte && AllPassing(turns, wait, a.turn, j)
  }

  lemma {:induction false} SameSize(s: seq<byte>, c: nat, d: nat, e: nat)
    requires d == c + HEADER <= e <= |s|
    ensures BodySize(s[c..e]) == BodySize(s[c..d])
  {
    SliceOfSlice(s, c, e - c, 2, 4);
    SliceOfSlice(s, c, HEADER, 2, 4);
    assert s[c..c + (e - c)] == s[c..e];
  }

  // A round takes a frame that comes, however its bytes come in.
  lemma {:induction false} FrameIsTaken(turns: seq<Turn>, s: seq<byte>, wait: bool, a: Stage, j: nat, e: nat)
    requires Comes(turns, s, wait, a, j, e)
    ensures var r := RoundResult(turns, s, wait, a);
            && r.code == Success && a.turn < r.stage.turn <= j && r.stage.byte == e
            && Moving(turns, r.stage.turn, j) >= Moving(turns, a.turn, j) - (e - a.byte)
  {
    SameSize(s, a.byte, a.byte + HEADER, e);
    BytesAreTaken(turns, s, wait, a, j, e - a.byte - HEADER);
  }

  lemma {:induction false} BytesAreTaken(turns: seq<Turn>, s: seq<byte>, wait: bool, a: Stage, j: nat, size: nat)
    requires a.byte + HEADER + size <= |s| && size == BodySize(s[a.byte..a.byte + HEADER]) <= 65535
    requires a.turn <= j <= |turns| && Moving(turns, a.turn, j) >= HEADER + size && AllPassing(turns, wait, a.turn, j)
    ensures var r := RoundResult(turns, s, wait, a);
            && r.code == Success && a.turn < r.stage.turn <= j && r.stage.byte == a.byte + HEADER + size
            && Moving(turns, r.stage.turn, j) >= Moving(turns, a.turn, j) - HEADER - size
  {
    PassingFills(s, HEADER, turns, wait, a, j);
    if size > 0 {
      PassingFills(s, size, turns, wait, ResultOf(Fill(s, a.byte, HEADER), turns, wait, a).stage, j);
    }
  }

  lemma {:induction false} PassingFills(s: seq<byte>, size: nat, turns: seq<Turn>, wait: bool, a: Stage, j: nat)
    requires a.turn <= j <= |turns| && 0 < size <= |s| - a.byte && size <= Moving(turns, a.turn, j)
    requires AllPassing(turns, wait, a.turn, j)
    ensures var r := ResultOf(Fill(s, a.byte, size), turns, wait, a);
            && r.code == Success && a.turn < r.stage.turn <= j && r.stage.byte == a.byte + size
            && Moving(turns, r.stage.turn, j) >= Moving(turns, a.turn, j) - size
            && AllPassing(turns, wait, r.stage.turn, j)
  {
    PassingSucceeds(size, |s| - a.byte, turns, wait, a, j);
  }

  // These frames stand in the stream from byte c on.
  ghost predicate Stand(s: seq<byte>, c: nat, frames: seq<seq<byte>>) {
    AreFrames(frames) && c + |Concat(frames)| <= |s| && s[c..c + |Concat(frames)|] == Concat(frames)
  }

  lemma {:induction false} FirstStands(s: seq<byte>, c: nat, frames: seq<seq<byte>>)
    requires frames != [] && Stand(s, c, frames)
    ensures var e := c + |frames[0]|;
            e <= |s| && s[c..e] == frames[0] && IsFrame(frames[0]) && Stand(s, e, frames[1..])
    ensures |Concat(frames)| == |frames[0]| + |Concat(frames[1..])|
  {
    var p, q := frames[0], Concat(frames[1..]);
    ConcatFirst(frames);
    var e := c + |p|;
    var t := p + q;
    assert t[0..|p|] == p && t[|p|..|p| + |q|] == q;
    SliceOfSlice(s, c, |t|, 0, |p|);
    SliceOfSlice(s, c, |t|, |p|, |q|);
  }

  // All of these frames come.
  ghost predicate AllCome(turns: seq<Turn>, s: seq<byte>, wait: bool, a: Stage, j: nat, frames: seq<seq<byte>>) {
    && Stand(s, a.byte, frames) && a.turn <= j <= |turns|
    && Moving(turns, a.turn, j) >= |Concat(frames)| && AllPassing(turns, wait, a.turn, j)
  }

  lemma {:induction false} FirstIsTaken(turns: seq<Turn>, s: seq<byte>, wait: bool, a: Stage, j: nat,
                                        frames: seq<seq<byte>>)
    requires frames != [] && AllCome(turns, s, wait, a, j, frames)
    ensures var r := RoundResult(turns, s, wait, a);
            && r.code == Success && 0 < r.stage.turn <= |turns| && s[a.byte..r.stage.byte] == frames[0]
            && AllCome(turns, s, wait, r.stage, j, frames[1..])
  {
    FirstStands(s, a.byte, frames);
    FrameIsTaken(turns, s, wait, a, j, a.byte + |frames[0]|);
  }

  // Where these frames come process delivers all of them, or the first of them and then stops, successfully, for want
  // of a header that is known to be there. No way in which their bytes come in makes it fail before.
  lemma {:induction false} FramesAreProcessed(turns: seq<Turn>, s: seq<byte>, wait: bool, a: Stage, j: nat,
                                              frames: seq<seq<byte>>)
    requires AllCome(turns, s, wait, a, j, frames)
    ensures var r := Processing(turns, s, wait, a);
            || frames <= r.packs
            || (r.result.code == Success && [] < r.packs <= frames &&
                0 < r.result.stage.turn <= |turns| && turns[r.result.stage.turn - 1].pending < HEADER)
    decreases |frames|
  {
    if frames != [] {
      var r := RoundResult(turns, s, wait, a);
      FirstIsTaken(turns, s, wait, a, j, frames);
      assert frames == [frames[0]] + frames[1..];
      if More(turns, r.stage.turn) {
        FramesAreProcessed(turns, s, wait, r.stage, j, frames[1..]);
      }
    }
  }
}
