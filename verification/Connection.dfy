/**
 A TCP connection over TLS: reading and writing across partial transfers and waits, cutting packs, and telling the
 owner.
 */
module Connection {
  import opened Bytes
  import opened Framing
  import opened Signals
  import opened TLS
  import opened Turns

  class Connection {
    const handle: int
    // What the surroundings will answer; a loop halts when they answer no more.
    const turns: seq<Turn>
    // What the peer sends.
    const incoming: seq<byte>

    var at: nat
    var consumed: nat
    var sent: seq<byte>
    var monitorIn: set<int>
    var monitorOut: set<int>
    // Set unless the connection is open and its owner still to be told of its end.
    var closed: bool
    var timeouts: uint32
    // What the owner has been told.
    var trace: seq<Event>
    // Every call of process so far succeeded.
    ghost var intact: bool
    // What was written, and whether every call of write so far succeeded.
    ghost var written: seq<seq<byte>>
    ghost var whole: bool

    ghost predicate Valid()
      reads this
    {
      && at <= |turns| && consumed <= |incoming|
      && Orderly(trace) && (closed <==> !Open(trace))
      && (PhaseOf(trace) != Fresh ==> handle in monitorIn && handle in monitorOut)
      && AreFrames(Packs(trace))
      && (intact ==> Concat(Packs(trace)) == incoming[..consumed])
      && (whole ==> Concat(written) == sent)
    }

    constructor (handle: int, turns: seq<Turn>, incoming: seq<byte>)
      ensures Valid() && intact && whole
      ensures this.handle == handle && this.turns == turns && this.incoming == incoming
      ensures trace == [] && consumed == 0 && sent == [] && written == [] && at == 0
    {
      this.handle, this.turns, this.incoming := handle, turns, incoming;
      at, consumed, sent := 0, 0, [];
      monitorIn, monitorOut := {}, {};
      closed, timeouts, trace := true, 0, [];
      intact, written, whole := true, [], true;
    }

    // The stage of what is under way, of which so many bytes have been moved.
    ghost function Now(byte: nat): Stage
      reads this`at, this`timeouts
    {
      Stage(at, byte, timeouts)
    }

    ghost function Here(): Stage
      reads this`at, this`consumed, this`timeouts
    {
      Stage(at, consumed, timeouts)
    }

    // halt() said so, or there are no more answers.
    method Halt(ghost call: Call, ghost wait: bool, ghost byte: nat)
      requires at <= |turns| && (at == |turns| || turns[at].halt)
      modifies this`at
      ensures at <= |turns| && ResultOf(call, turns, wait, old(Now(byte))) == Result(Now(byte), Cancel)
    {
      if at < |turns| {
        at := at + 1;
      }
    }

    // The next answer.
    method NextTurn() returns (turn: Turn)
      requires at < |turns|
      modifies this`at
      ensures at == old(at) + 1 && turn == turns[at - 1]
    {
      turn := turns[at];
      at := at + 1;
    }

    // Tells the owner of the end of the connection, once.
    method End(c: Code)
      requires Ends(c)
      modifies this`closed, this`trace
      ensures closed && trace == Ended(old(trace), old(closed), c)
    {
      if !closed {
        closed := true;
        trace := trace + [Ending(c)];
      }
    }

    method HandleState(state: State) returns (c: Code)
      modifies this`closed, this`trace
      ensures c == StateCode(state)
      ensures closed == (old(closed) || state.disconnected || state.error)
      ensures trace == if old(closed) then old(trace)
                       else if state.disconnected then old(trace) + [Closed]
                       else if state.error then old(trace) + [Failed(Failure)]
                       else old(trace)
    {
      if state.disconnected {
        End(Disconnect);
        return Disconnect;
      }
      if state.error {
        End(Failure);
        return Failure;
      }
      if state.triggered || state.inReady || state.outReady {
        return Retry;
      }
      return Unknown;
    }

    method HandleWait(turn: Turn) returns (c: Code)
      modifies this`closed, this`trace
      ensures c == match turn.event case None => Timeout case Some(state) => StateCode(state)
      ensures c in {Timeout, Disconnect, Failure, Retry, Unknown}
      ensures c != Unknown && c != Timeout ==>
                trace == Ended(old(trace), old(closed), c) && closed == (old(closed) || Ends(c))
      ensures c == Unknown || c == Timeout ==> trace == old(trace) && closed == old(closed)
    {
      match turn.event
      case None => c := Timeout;
      case Some(state) => c := HandleState(state);
    }

    method HandleCode(code: TlsCode, wait: bool, turn: Turn) returns (ret: Code)
      modifies this`closed, this`trace, this`timeouts
      ensures ret == Outcome(code, wait, turn, Plus1(old(timeouts)))
      ensures trace == Ended(old(trace), old(closed), ret) && closed == (old(closed) || Ends(ret))
      ensures timeouts == if ret == Success || ret == Disconnect then 0
                          else if TimesOut(code, wait, turn) then Plus1(old(timeouts))
                          else old(timeouts)
    {
      ret := InterpretTlsCode(code);
      if ret == Busy && wait {
        ret := HandleWait(turn);
        if ret == Timeout {
          timeouts := Plus1(timeouts);
          if timeouts < turn.timeouts {
            ret := Retry;
          }
        }
      }
      if ret == Disconnect {
        End(Disconnect);
        timeouts := 0;
      } else if ret == Success {
        timeouts := 0;
      } else if ret != Retry && ret != Busy {
        End(ret);
      }
    }

    // The same for a turn of a call, in which it has moved m bytes.
    method HandleTurn(ghost call: Call, ghost byte: nat, ghost m: nat, code: TlsCode, wait: bool, turn: Turn)
      returns (ret: Code)
      requires 0 < at <= |turns| && turn == turns[at - 1] && !turn.halt && Answers(call, turn, m, code)
      modifies this`closed, this`trace, this`timeouts
      ensures ResultOf(call, turns, wait, Stage(at - 1, byte, old(timeouts))) ==
              if ret == Retry then ResultOf(Remainder(call, m), turns, wait, Now(byte + m))
              else Result(Now(byte + m), ret)
      ensures trace == Ended(old(trace), old(closed), ret) && closed == (old(closed) || Ends(ret))
    {
      ghost var a := Stage(at - 1, byte, timeouts);
      ret := HandleCode(code, wait, turn);
      TurnIs(call, turns, wait, a, Now(byte + m), m, code, ret);
    }

    //////////////////////////////////////////////////////////////////////////////
    // Opening
    //////////////////////////////////////////////////////////////////////////////

    // The handshake: SSL_accept or SSL_connect until it is done.
    method Handshake() returns (code: Code)
      requires at <= |turns| && closed
      modifies this`at, this`closed, this`trace, this`timeouts
      ensures at <= |turns| && Result(Now(0), code) == ResultOf(Greeting, turns, true, old(Now(0)))
      ensures trace == old(trace) && closed
    {
      ghost var result := ResultOf(Greeting, turns, true, Now(0));
      while at < |turns| && !turns[at].halt
        invariant at <= |turns| && result == ResultOf(Greeting, turns, true, Now(0))
        invariant trace == old(trace) && closed
      {
        var turn := NextTurn();
        var tls := InterpretLibCode(turn.error, turn.again, true, false);
        code := HandleTurn(Greeting, 0, 0, tls, true, turn);
        if code != Retry {
          return;
        }
      }
      Halt(Greeting, true, 0);
      return Cancel;
    }

    // The handshake, after which the connection is open and its owner told so.
    method Establish() returns (code: Code)
      requires at <= |turns| && closed && PhaseOf(trace) == Fresh
      modifies this`at, this`closed, this`trace, this`timeouts
      ensures at <= |turns| && Result(Now(0), code) == ResultOf(Greeting, turns, true, old(Now(0)))
      ensures trace == if code == Success then old(trace) + [Opened] else old(trace)
      ensures Keeps(old(trace), trace, closed)
      ensures code == Success ==> at > old(at) && Content(turns, at)
      ensures code == Cancel ==> Halted(turns, at)
    {
      ghost var a := Now(0);
      code := Handshake();
      EndMeans(Greeting, turns, true, a, Result(Now(0), code));
      ghost var before := trace;
      if code == Success {
        closed := false;
        trace := trace + [Opened];
      }
      OpensOnce(before, trace, closed);
    }

    // Monitor::add on both monitors, which refuses a descriptor already there; inAdded and outAdded tell whether the
    // system lets it be monitored.
    method Watch(inAdded: bool, outAdded: bool) returns (ok: bool)
      modifies this`monitorIn, this`monitorOut
      ensures old(monitorIn) <= monitorIn && old(monitorOut) <= monitorOut
      ensures ok ==> handle !in old(monitorIn) && handle in monitorIn && handle in monitorOut
      ensures ok <==> handle !in old(monitorIn) && handle !in old(monitorOut) && inAdded && outAdded
      ensures handle in monitorIn || !inAdded
    {
      if handle in monitorIn || !inAdded {
        return false;
      }
      monitorIn := monitorIn + {handle};
      if handle in monitorOut || !outAdded {
        return false;
      }
      monitorOut := monitorOut + {handle};
      return true;
    }

    // operator()
    method Connect(inAdded: bool, outAdded: bool) returns (code: Code)
      requires Valid()
      modifies this`at, this`closed, this`trace, this`timeouts, this`monitorIn, this`monitorOut
      ensures Valid()
      ensures trace == if code == Success then old(trace) + [Opened] else old(trace)
      ensures if old(handle !in monitorIn && handle !in monitorOut) && inAdded && outAdded then
                Result(Now(0), code) == ResultOf(Greeting, turns, true, old(Now(0)))
              else code == Failure && Now(0) == old(Now(0))
      ensures code == Success ==> at > old(at) && Content(turns, at)
      ensures code == Cancel ==> Halted(turns, at)
      ensures handle in monitorIn || (!inAdded && code == Failure)
    {
      var ok := Watch(inAdded, outAdded);
      if !ok {
        return Failure;
      }
      code := Establish();
    }

    //////////////////////////////////////////////////////////////////////////////
    // Reading and writing
    //////////////////////////////////////////////////////////////////////////////

    // SocketTLS::read, which leaves the span that is still to be filled.
    method TlsRead(buf: Span, turn: Turn) returns (rest: Span, code: TlsCode)
      requires consumed <= |incoming| && buf.Valid()
      modifies this`consumed, buf.buf
      ensures old(consumed) <= consumed <= |incoming|
      ensures Answers(Fill(incoming, old(consumed), buf.len), turn, consumed - old(consumed), code)
      ensures rest == buf.Drop(consumed - old(consumed))
      ensures buf.buf[..] == Splice(old(buf.buf[..]), buf.at, incoming[old(consumed)..consumed])
      ensures code == TlsSuccess ==> rest.len == 0
    {
      var n := turn.count;
      if n > buf.len {
        n := buf.len;
      }
      if n > |incoming| - consumed {
        n := |incoming| - consumed;
      }
      Copy(buf.buf, buf.at, incoming[consumed..consumed + n]);
      consumed := consumed + n;
      rest := buf.Drop(n);
      code := InterpretLibCode(turn.error, turn.again, n != 0, rest.len != 0);
    }

    // So many bytes have been read into a span since the storage was b and c bytes were consumed.
    ghost predicate Reads(buf: Span, b: seq<byte>, c: nat, rest: Span)
      reads this`consumed, buf.buf
    {
      && c <= consumed <= |incoming| && consumed - c <= buf.len && |b| == buf.buf.Length && buf.Valid()
      && rest == buf.Drop(consumed - c) && buf.buf[..] == Splice(b, buf.at, incoming[c..consumed])
    }

    // The library's part in a round of P::read.
    method ReadTurn(buf: Span, ghost b: seq<byte>, ghost c: nat, span: Span, turn: Turn)
      returns (rest: Span, code: TlsCode, ghost m: nat)
      requires Reads(buf, b, c, span)
      modifies this`consumed, buf.buf
      ensures Reads(buf, b, c, rest) && consumed == old(consumed) + m
      ensures Answers(Fill(incoming, old(consumed), span.len), turn, m, code)
      ensures Fill(incoming, consumed, rest.len) == Remainder(Fill(incoming, old(consumed), span.len), m)
    {
      ghost var d := consumed;
      rest, code := TlsRead(span, turn);
      m := consumed - d;
      ReadMore(b, buf.at, incoming, c, d, consumed);
    }

    // One round of it.
    method ReadStep(buf: Span, ghost b: seq<byte>, ghost c: nat, span: Span, wait: bool)
      returns (rest: Span, code: Code)
      requires Reads(buf, b, c, span) && at < |turns| && !turns[at].halt
      modifies this`at, this`consumed, this`closed, this`trace, this`timeouts, buf.buf
      ensures at == old(at) + 1 && Reads(buf, b, c, rest)
      ensures ResultOf(Fill(incoming, old(consumed), span.len), turns, wait, old(Here())) ==
              if code == Retry then ResultOf(Fill(incoming, consumed, rest.len), turns, wait, Here())
              else Result(Here(), code)
      ensures trace == Ended(old(trace), old(closed), code) && closed == (old(closed) || Ends(code))
    {
      var turn := NextTurn();
      var tls;
      ghost var d, m := consumed, 0;
      rest, tls, m := ReadTurn(buf, b, c, span, turn);
      code := HandleTurn(Fill(incoming, d, span.len), d, m, tls, wait, turn);
    }

    // P::read
    method Read(buf: Span, wait: bool) returns (code: Code)
      requires at <= |turns| && consumed <= |incoming| && buf.Valid()
      modifies this`at, this`consumed, this`closed, this`trace, this`timeouts, buf.buf
      ensures Result(Here(), code) == ResultOf(Fill(incoming, old(consumed), buf.len), turns, wait, old(Here()))
      ensures old(at) <= at <= |turns|
      ensures old(consumed) <= consumed <= |incoming| && consumed - old(consumed) <= buf.len
      ensures buf.buf[..] == Splice(old(buf.buf[..]), buf.at, incoming[old(consumed)..consumed])
      ensures code == Success ==> consumed == old(consumed) + buf.len && at > old(at)
      ensures code != Retry && code != Invalid && (code == Busy ==> !wait)
      ensures code == Cancel ==> Halted(turns, at)
      ensures trace == Ended(old(trace), old(closed), code) && closed == (old(closed) || Ends(code))
    {
      var rest := buf;
      ghost var c, b, a, call := consumed, buf.buf[..], Here(), Fill(incoming, consumed, buf.len);
      while at < |turns| && !turns[at].halt
        invariant at <= |turns| && Reads(buf, b, c, rest)
        invariant ResultOf(call, turns, wait, a) == ResultOf(Fill(incoming, consumed, rest.len), turns, wait, Here())
        invariant trace == old(trace) && closed == old(closed)
      {
        rest, code := ReadStep(buf, b, c, rest, wait);
        if code != Retry {
          EndMeans(call, turns, wait, a, Result(Here(), code));
          return;
        }
      }
      Halt(Fill(incoming, consumed, rest.len), wait, consumed);
      EndMeans(call, turns, wait, a, Result(Here(), Cancel));
      return Cancel;
    }

    // SocketTLS::write, which leaves what is still to be written.
    method TlsWrite(buf: seq<byte>, turn: Turn) returns (rest: seq<byte>, code: TlsCode, ghost done: seq<byte>)
      modifies this`sent
      ensures Answers(Transfer(|buf|, |buf|), turn, |done|, code)
      ensures buf == done + rest && sent == old(sent) + done
      ensures code == TlsSuccess ==> rest == []
    {
      var n := if turn.count <= |buf| then turn.count else |buf|;
      done := buf[..n];
      sent := sent + buf[..n];
      rest := buf[n..];
      code := InterpretLibCode(turn.error, turn.again, n != 0, rest != []);
    }

    // The data consists of what has been sent since `sent` was `before` and of the rest.
    ghost predicate Writes(data: seq<byte>, before: seq<byte>, done: seq<byte>, rest: seq<byte>)
      reads this`sent
    {
      data == done + rest && sent == before + done
    }

    // The library's part in a round of P::write.
    method WriteTurn(ghost data: seq<byte>, ghost before: seq<byte>, ghost done: seq<byte>, buf: seq<byte>, turn: Turn)
      returns (rest: seq<byte>, code: TlsCode, ghost now: seq<byte>, ghost m: nat)
      requires Writes(data, before, done, buf)
      modifies this`sent
      ensures Writes(data, before, now, rest) && |now| == |done| + m
      ensures Answers(Transfer(|buf|, |buf|), turn, m, code)
      ensures Transfer(|rest|, |rest|) == Remainder(Transfer(|buf|, |buf|), m)
    {
      ghost var more;
      rest, code, more := TlsWrite(buf, turn);
      now, m := done + more, |more|;
      Regroup(done, more, rest);
      Regroup(before, done, more);
    }

    // One round of it.
    method WriteStep(ghost data: seq<byte>, ghost before: seq<byte>, ghost done: seq<byte>, buf: seq<byte>,
                     wait: bool)
      returns (rest: seq<byte>, code: Code, ghost now: seq<byte>)
      requires Writes(data, before, done, buf) && at < |turns| && !turns[at].halt
      modifies this`at, this`sent, this`closed, this`trace, this`timeouts
      ensures at == old(at) + 1 && Writes(data, before, now, rest)
      ensures ResultOf(Transfer(|buf|, |buf|), turns, wait, old(Now(|done|))) ==
              if code == Retry then ResultOf(Transfer(|rest|, |rest|), turns, wait, Now(|now|))
              else Result(Now(|now|), code)
      ensures trace == Ended(old(trace), old(closed), code) && closed == (old(closed) || Ends(code))
    {
      var turn := NextTurn();
      var tls;
      ghost var m;
      rest, tls, now, m := WriteTurn(data, before, done, buf, turn);
      code := HandleTurn(Transfer(|buf|, |buf|), |done|, m, tls, wait, turn);
    }

    // P::write. A prefix of the data is sent, and all of it on success.
    method WriteData(data: seq<byte>, wait: bool) returns (code: Code, ghost done: seq<byte>)
      requires at <= |turns|
      modifies this`at, this`sent, this`closed, this`trace, this`timeouts
      ensures Result(Now(|done|), code) == ResultOf(Transfer(|data|, |data|), turns, wait, old(Now(0)))
      ensures old(at) <= at <= |turns|
      ensures sent == old(sent) + done && done <= data && (code == Success ==> done == data)
      ensures code != Retry && (code == Busy ==> !wait)
      ensures code == Cancel ==> Halted(turns, at)
      ensures trace == Ended(old(trace), old(closed), code) && closed == (old(closed) || Ends(code))
    {
      var rest := data;
      ghost var before := sent;
      done := [];
      ghost var call, a := Transfer(|data|, |data|), Now(0);
      while at < |turns| && !turns[at].halt
        invariant at <= |turns| && Writes(data, before, done, rest)
        invariant ResultOf(call, turns, wait, a) == ResultOf(Transfer(|rest|, |rest|), turns, wait, Now(|done|))
        invariant trace == old(trace) && closed == old(closed)
      {
        rest, code, done := WriteStep(data, before, done, rest, wait);
        if code != Retry {
          EndMeans(call, turns, wait, a, Result(Now(|done|), code));
          return;
        }
      }
      Halt(Transfer(|rest|, |rest|), wait, |done|);
      EndMeans(call, turns, wait, a, Result(Now(|done|), Cancel));
      code := Cancel;
    }

    method Write(data: seq<byte>, wait: bool) returns (code: Code)
      requires Valid()
      modifies this`at, this`sent, this`closed, this`trace, this`timeouts, this`written, this`whole
      ensures Valid()
      ensures old(sent) <= sent <= old(sent) + data
      ensures Result(Now(|sent| - |old(sent)|), code) == ResultOf(Transfer(|data|, |data|), turns, wait, old(Now(0)))
      ensures code == Success ==> sent == old(sent) + data
      ensures written == if code == Success then old(written) + [data] else old(written)
      ensures whole == (old(whole) && code == Success)
      ensures code != Retry && (code == Busy ==> !wait)
      ensures code == Cancel ==> Halted(turns, at)
      ensures trace == Ended(old(trace), old(closed), code)
    {
      ghost var done, was, told, shut := [], written, trace, closed;
      code, done := WriteData(data, wait);
      EndedKeeps(told, shut, trace, closed, code);
      whole := whole && code == Success;
      written := if code == Success then was + [data] else was;
      ConcatLast(was, data);
    }

    // A change of state that a monitor reports from outside.
    method Report(state: State) returns (code: Code)
      requires Valid()
      modifies this`closed, this`trace
      ensures Valid()
      ensures code == StateCode(state)
      ensures trace == if old(closed) then old(trace)
                       else if state.disconnected then old(trace) + [Closed]
                       else if state.error then old(trace) + [Failed(Failure)]
                       else old(trace)
    {
      EndedStays(trace, closed);
      code := HandleState(state);
    }

    //////////////////////////////////////////////////////////////////////////////
    // Packs
    //////////////////////////////////////////////////////////////////////////////

    method ReadHeader(wait: bool) returns (code: Code, h: seq<byte>)
      requires at <= |turns| && consumed <= |incoming|
      modifies this`at, this`consumed, this`closed, this`trace, this`timeouts
      ensures Result(Here(), code) == ResultOf(Fill(incoming, old(consumed), HEADER), turns, wait, old(Here()))
      ensures old(at) <= at <= |turns|
      ensures old(consumed) <= consumed <= |incoming|
      ensures |h| == HEADER
      ensures code == Success ==>
                at > old(at) && consumed == old(consumed) + HEADER && h == incoming[old(consumed)..consumed]
      ensures code != Retry && code != Invalid && (code == Busy ==> !wait)
      ensures code == Cancel ==> Halted(turns, at)
      ensures trace == Ended(old(trace), old(closed), code) && closed == (old(closed) || Ends(code))
    {
      ghost var c := consumed;
      var header := new byte[HEADER];
      ghost var blank := header[..];
      code := Read(Span(header, 0, HEADER), wait);
      h := header[..];
      if code == Success {
        HeaderIsRead(blank, incoming[c..consumed]);
      }
    }

    // Pack(header)
    method NewPack(h: seq<byte>, size: nat) returns (buf: array<byte>)
      requires |h| == HEADER
      ensures fresh(buf) && buf.Length == HEADER + size && buf[..HEADER] == h
    {
      buf := new byte[HEADER + size];
      ghost var blank := buf[..];
      Copy(buf, 0, h);
      SpliceIs(blank, 0, h);
    }

    // The body behind a header just read.
    method ReadBody(h: seq<byte>, wait: bool) returns (code: Code, pack: seq<byte>)
      requires at <= |turns| && HEADER <= consumed <= |incoming|
      requires |h| == HEADER && h == incoming[consumed - HEADER..consumed] && BodySize(h) <= 65535
      modifies this`at, this`consumed, this`closed, this`trace, this`timeouts
      ensures if BodySize(h) == 0 then code == Success && Here() == old(Here())
              else
                Result(Here(), code) == ResultOf(Fill(incoming, old(consumed), BodySize(h)), turns, wait, old(Here()))
      ensures old(at) <= at <= |turns|
      ensures old(consumed) <= consumed <= |incoming|
      ensures code == Success ==> IsFrame(pack) && pack == incoming[old(consumed) - HEADER..consumed]
      ensures code != Retry && code != Invalid && (code == Busy ==> !wait)
      ensures code == Cancel ==> Halted(turns, at)
      ensures trace == Ended(old(trace), old(closed), code) && closed == (old(closed) || Ends(code))
    {
      ghost var c := consumed - HEADER;
      var size := BodySize(h);
      var buf := NewPack(h, size);
      ghost var b := buf[..];
      code := Success;
      if size != 0 {
        code := Read(Span(buf, HEADER, size), wait);
      }
      pack := buf[..];
      if code == Success {
        PackIsRead(incoming, c, consumed, b);
      }
    }

    // One round of process: a header and the body it announces.
    method ReadPack(wait: bool) returns (code: Code, pack: seq<byte>)
      requires at <= |turns| && consumed <= |incoming|
      modifies this`at, this`consumed, this`closed, this`trace, this`timeouts
      ensures Result(Here(), code) == RoundResult(turns, incoming, wait, old(Here()))
      ensures old(at) <= at <= |turns|
      ensures old(consumed) <= consumed <= |incoming|
      ensures code == Success ==> IsFrame(pack) && pack == incoming[old(consumed)..consumed] && at > old(at)
      ensures code != Retry && (code == Busy ==> !wait)
      ensures code == Invalid ==> consumed == old(consumed) + HEADER
                                  && BodySize(incoming[old(consumed)..consumed]) > 65535
      ensures code == Cancel ==> Halted(turns, at)
      ensures trace == Ended(old(trace), old(closed), code) && closed == (old(closed) || Ends(code))
    {
      var h;
      code, h := ReadHeader(wait);
      if code != Success {
        return code, [];
      }
      if BodySize(h) > 65535 {
        End(Invalid);
        return Invalid, [];
      }
      code, pack := ReadBody(h, wait);
    }

    // One round of process, in which these packs have been delivered since the trace was `before`.
    method Round(wait: bool, ghost before: seq<Event>, ghost c: nat, ghost packs: seq<seq<byte>>)
      returns (code: Code, ghost now: seq<seq<byte>>)
      requires at <= |turns| && c <= consumed <= |incoming|
      requires Since(before, packs, trace, incoming[c..consumed])
      requires Orderly(before) && (closed <==> !Open(before)) && AreFrames(Packs(before))
      modifies this`at, this`consumed, this`closed, this`trace, this`timeouts
      ensures Result(Here(), code) == RoundResult(turns, incoming, wait, old(Here()))
      ensures old(at) <= at <= |turns| && old(consumed) <= consumed <= |incoming|
      ensures now == packs + if code == Success then [incoming[old(consumed)..consumed]] else []
      ensures code == Cancel ==> Halted(turns, at)
      ensures code == Success ==>
                Since(before, now, trace, incoming[c..consumed]) && at > old(at) && closed == old(closed)
      ensures code != Success ==>
                && Concat(packs) <= incoming[c..consumed] && Settled(before, packs, trace, closed)
                && trace == Ended(old(trace), old(closed), code) && code != Retry && (code == Busy ==> !wait)
    {
      ghost var d := consumed;
      SinceStays(before, packs, trace, incoming[c..d], closed);
      var pack;
      code, pack := ReadPack(wait);
      JoinSlices(incoming, c, d, consumed);
      now := packs;
      if code == Success {
        SinceMore(before, packs, trace, incoming[c..d], pack);
        trace := trace + [Delivered(pack)];
        now := packs + [pack];
      }
    }

    // The same in a run of process, and whether it goes on.
    method RoundOn(wait: bool, ghost run: Run, ghost before: seq<Event>, ghost c: nat, ghost packs: seq<seq<byte>>)
      returns (code: Code, more: bool, ghost now: seq<seq<byte>>)
      requires at <= |turns| && c <= consumed <= |incoming|
      requires Since(before, packs, trace, incoming[c..consumed])
      requires Orderly(before) && (closed <==> !Open(before)) && AreFrames(Packs(before))
      requires GoesOn(run, packs, Processing(turns, incoming, wait, Here()))
      modifies this`at, this`consumed, this`closed, this`trace, this`timeouts
      ensures old(at) <= at <= |turns| && old(consumed) <= consumed <= |incoming|
      ensures if more then code == Success && GoesOn(run, now, Processing(turns, incoming, wait, Here()))
              else run == Run(now, Result(Here(), code))
      ensures code == Cancel ==> Halted(turns, at)
      ensures code == Success ==>
                && Since(before, now, trace, incoming[c..consumed]) && at > old(at) && closed == old(closed)
                && now != []
      ensures code != Success ==>
                && now == packs && Concat(packs) <= incoming[c..consumed]
                && Settled(before, packs, trace, closed)
                && trace == Ended(old(trace), old(closed), code) && code != Retry && (code == Busy ==> !wait)
    {
      ghost var a := Here();
      code, now := Round(wait, before, c, packs);
      more := code == Success && turns[at - 1].pending >= HEADER;
      RunsOn(run, packs, now, turns, incoming, wait, a, Result(Here(), code));
    }

    // The loop of process.
    method Rounds(wait: bool, ghost before: seq<Event>, ghost c: nat) returns (code: Code, ghost packs: seq<seq<byte>>)
      requires at <= |turns| && c == consumed <= |incoming| && before == trace
      requires Orderly(before) && (closed <==> !Open(before)) && AreFrames(Packs(before))
      modifies this`at, this`consumed, this`closed, this`trace, this`timeouts
      ensures old(at) <= at <= |turns| && c <= consumed <= |incoming|
      ensures Run(packs, Result(Here(), code)) == Processing(turns, incoming, wait, old(Here()))
      ensures code == Cancel ==> Halted(turns, at)
      ensures code == Success ==> packs != [] && Concat(packs) == incoming[c..consumed]
      ensures Settled(before, packs, trace, closed) && AreFrames(packs) && Concat(packs) <= incoming[c..consumed]
      ensures trace == Ended(before + Deliveries(packs), old(closed), code)
      ensures code != Retry && (code == Busy ==> !wait)
    {
      packs := [];
      ghost var run := Processing(turns, incoming, wait, Here());
      SinceNothing(before, incoming, c);
      var more := true;
      code := Success;
      while more
        invariant old(at) <= at <= |turns| && c <= consumed <= |incoming|
        invariant if more then code == Success && GoesOn(run, packs, Processing(turns, incoming, wait, Here()))
                  else run == Run(packs, Result(Here(), code))
        invariant code == Success ==> Since(before, packs, trace, incoming[c..consumed]) && closed == old(closed)
        invariant code == Success && !more ==> packs != []
        invariant code != Success ==>
                    && Settled(before, packs, trace, closed) && AreFrames(packs)
                    && Concat(packs) <= incoming[c..consumed]
                    && trace == Ended(before + Deliveries(packs), old(closed), code)
                    && code != Retry && (code == Busy ==> !wait) && (code == Cancel ==> Halted(turns, at))
        decreases |turns| - at, more
      {
        code, more, packs := RoundOn(wait, run, before, c, packs);
      }
      if code == Success {
        SinceStays(before, packs, trace, incoming[c..consumed], closed);
      }
    }

    // The packs delivered are frames; on success they are exactly the bytes taken from the stream, and otherwise
    // those bytes begin with them.
    method Process(wait: bool) returns (code: Code, ghost packs: seq<seq<byte>>)
      requires Valid()
      modifies this`at, this`consumed, this`closed, this`trace, this`timeouts, this`intact
      ensures Valid() && intact == (old(intact) && code == Success)
      ensures Run(packs, Result(Here(), code)) == Processing(turns, incoming, wait, old(Here()))
      ensures AreFrames(packs) && Packs(trace) == old(Packs(trace)) + packs
      ensures old(consumed) <= consumed && Concat(packs) <= incoming[old(consumed)..consumed]
      ensures code == Success ==> packs != [] && Concat(packs) == incoming[old(consumed)..consumed]
      ensures code != Retry && (code == Busy ==> !wait)
      ensures code == Cancel ==> Halted(turns, at)
      ensures trace == Ended(old(trace) + Deliveries(packs), old(closed), code)
    {
      ghost var c, told, was := consumed, Packs(trace), intact;
      code, packs := Rounds(wait, trace, c);
      intact := was && code == Success;
      TakenIntact(told, packs, incoming, c, consumed, was, code == Success);
    }
  }

  // These packs have been delivered in a run, and it goes on with the rest.
  ghost predicate GoesOn(run: Run, packs: seq<seq<byte>>, rest: Run) {
    run == Run(packs + rest.packs, rest.result)
  }

  lemma {:induction false} RunsOn(run: Run, packs: seq<seq<byte>>, now: seq<seq<byte>>, turns: seq<Turn>, s: seq<byte>,
                                  wait: bool, a: Stage, r: Result)
    requires a.turn <= |turns| && r == RoundResult(turns, s, wait, a)
    requires GoesOn(run, packs, Processing(turns, s, wait, a))
    requires now == packs + if r.code == Success then [s[a.byte..r.stage.byte]] else []
    ensures if r.code == Success && More(turns, r.stage.turn) then
              GoesOn(run, now, Processing(turns, s, wait, r.stage))
            else run == Run(now, r)
  {
    if r.code == Success && More(turns, r.stage.turn) {
      var p, rest := [s[a.byte..r.stage.byte]], Processing(turns, s, wait, r.stage);
      assert packs + (p + rest.packs) == packs + p + rest.packs;
    }
  }

  // What one connection wrote is what another delivers, when what the latter has taken in was sent by the former: the
  // first of the packs written, and all of them once all bytes are taken in.
  lemma {:induction false} WrittenIsDelivered(sender: Connection, receiver: Connection)
    requires sender.Valid() && sender.whole && receiver.Valid() && receiver.intact
    requires AreFrames(sender.written) && receiver.incoming[..receiver.consumed] <= sender.sent
    ensures Packs(receiver.trace) <= sender.written
    ensures receiver.consumed == |sender.sent| ==> Packs(receiver.trace) == sender.written
  {
    SentIsDelivered(sender.written, receiver.consumed, Packs(receiver.trace));
  }

  lemma {:induction false} ReadMore(b: seq<byte>, at: nat, s: seq<byte>, c: nat, d: nat, e: nat)
    requires c <= d <= e <= |s| && at + e - c <= |b|
    ensures Splice(Splice(b, at, s[c..d]), at + (d - c), s[d..e]) == Splice(b, at, s[c..e])
  {
    var r := s[c..e];
    assert r[..d - c] == s[c..d] && r[d - c..] == s[d..e];
    SpliceRest(b, at, r, d - c);
  }

  lemma {:induction false} HeaderIsRead(blank: seq<byte>, h: seq<byte>)
    requires |blank| == |h| == HEADER
    ensures Splice(blank, 0, h) == h
  {
    SpliceToEnd(blank, 0, h);
    assert blank[..0] + h == h;
  }

  // The bytes c to e of the stream are a pack once the body is read behind its header in b.
  lemma {:induction false} PackIsRead(s: seq<byte>, c: nat, e: nat, b: seq<byte>)
    requires c + HEADER <= e <= |s| && |b| == e - c && b[..HEADER] == s[c..c + HEADER]
    requires BodySize(b[..HEADER]) <= 65535 && |b| == HEADER + BodySize(b[..HEADER])
    ensures Splice(b, HEADER, s[c + HEADER..e]) == s[c..e] && IsFrame(s[c..e])
  {
    SpliceToEnd(b, HEADER, s[c + HEADER..e]);
    assert s[c..e] == s[c..c + HEADER] + s[c + HEADER..e];
    assert s[c..e][2..6] == b[..HEADER][2..6];
  }

  // The end of a connection keeps its trace in order and its packs.
  ghost predicate Stays(trace: seq<Event>, t: seq<Event>) {
    Orderly(t) && !Open(t) && Packs(t) == Packs(trace) && (PhaseOf(trace) == Fresh <==> PhaseOf(t) == Fresh)
  }

  lemma {:induction false} EndedStays(trace: seq<Event>, closed: bool)
    requires Orderly(trace) && (closed <==> !Open(trace))
    ensures forall c: Code :: Ends(c) ==> Stays(trace, Ended(trace, closed, c))
  {
  }

  lemma {:induction false} EndedKeeps(before: seq<Event>, shut: bool, trace: seq<Event>, closed: bool, c: Code)
    requires Orderly(before) && (shut <==> !Open(before))
    requires trace == Ended(before, shut, c) && closed == (shut || Ends(c))
    ensures Orderly(trace) && (closed <==> !Open(trace)) && Packs(trace) == Packs(before)
    ensures PhaseOf(before) == Fresh ==> PhaseOf(trace) == Fresh
  {
    EndedStays(before, shut);
  }

  // A trace in order, with the flag that goes with it and the packs there were before.
  ghost predicate Keeps(before: seq<Event>, trace: seq<Event>, closed: bool) {
    Orderly(trace) && (closed <==> !Open(trace)) && Packs(trace) == Packs(before)
  }

  lemma {:induction false} OpensOnce(before: seq<Event>, trace: seq<Event>, closed: bool)
    requires PhaseOf(before) == Fresh && trace == if closed then before else before + [Opened]
    ensures Keeps(before, trace, closed)
  {
    OneEventMore(before, Opened);
  }

  // These packs have been delivered since the trace was `before`, and nothing else; they are these bytes.
  ghost predicate Since(before: seq<Event>, packs: seq<seq<byte>>, trace: seq<Event>, bytes: seq<byte>) {
    && trace == before + Deliveries(packs)
    && PhaseOf(trace) == PhaseOf(before) && Packs(trace) == Packs(before) + packs
    && AreFrames(packs) && Concat(packs) == bytes
  }

  // A trace in order and the flag that goes with it.
  ghost predicate Settled(before: seq<Event>, packs: seq<seq<byte>>, trace: seq<Event>, closed: bool) {
    && Orderly(trace) && (closed <==> !Open(trace))
    && (PhaseOf(before) == Fresh ==> PhaseOf(trace) == Fresh)
    && Packs(trace) == Packs(before) + packs && AreFrames(Packs(trace))
  }

  lemma {:induction false} SinceMore(before: seq<Event>, packs: seq<seq<byte>>, trace: seq<Event>, bytes: seq<byte>,
                                     pack: seq<byte>)
    requires Since(before, packs, trace, bytes) && IsFrame(pack)
    ensures Since(before, packs + [pack], trace + [Delivered(pack)], bytes + pack)
  {
    OneDelivered(before, packs, pack);
    ConcatLast(packs, pack);
  }

  lemma {:induction false} SinceNothing(before: seq<Event>, s: seq<byte>, c: nat)
    requires c <= |s|
    ensures Since(before, [], before, s[c..c])
  {
    NoneDelivered(before);
  }

  lemma {:induction false} TakenIntact(before: seq<seq<byte>>, packs: seq<seq<byte>>, s: seq<byte>, c: nat, e: nat,
                                       was: bool, done: bool)
    requires c <= e <= |s| && (was ==> Concat(before) == s[..c]) && (done ==> Concat(packs) == s[c..e])
    ensures was && done ==> Concat(before + packs) == s[..e]
  {
    ConcatBoth(before, packs);
    assert s[..e] == s[..c] + s[c..e];
  }

  lemma {:induction false} SinceStays(before: seq<Event>, packs: seq<seq<byte>>, trace: seq<Event>, bytes: seq<byte>,
                                      closed: bool)
    requires Orderly(before) && (closed <==> !Open(before)) && AreFrames(Packs(before))
    requires Since(before, packs, trace, bytes)
    ensures Settled(before, packs, trace, closed)
    ensures forall c: Code :: Ends(c) ==> Stays(trace, Ended(trace, closed, c))
  {
  }

  lemma {:induction false} JoinSlices(s: seq<byte>, c: nat, d: nat, e: nat)
    requires c <= d <= e <= |s|
    ensures s[c..e] == s[c..d] + s[d..e] && s[..d] <= s[..e]
  {
  }
}
