/** The protocol server of socket/socket_server: the blocking version (sequential-server.c), and the event-driven one
    (select-server.c) that refines it for every peer, however the input is cut into pieces and however little of the
    output the sockets take at a time.

    The sockets are a nondeterministic environment that records what each peer has sent and been sent. Where a program
    dies, the methods return `false`. */
module EchoServer {
  import opened Integers

  const STAR: byte := 42    // '*'
  const HAT: byte := 94     // '^'
  const DOLLAR: byte := 36  // '$'

  const MAXFDS: nat := 1000
  const FD_SETSIZE: nat := 1024
  const SENDBUF_SIZE: nat := 1024

  /** The sizes of the tables and buffers. */
  lemma Limits()
    ensures SENDBUF_SIZE == 1024 && MAXFDS == 1000 && FD_SETSIZE == 1024
  {
  }

  // ---- the protocol ----

  datatype Phase = WaitForMsg | InMsg

  function Next(s: Phase, input: seq<byte>): Phase
    decreases |input|
  {
    if input == [] then s
    else Next(if s.WaitForMsg? then (if input[0] == HAT then InMsg else s)
              else if input[0] == DOLLAR then WaitForMsg else s,
              input[1..])
  }

  /** The next byte value, as uint8_t counts. */
  function Inc(b: byte): byte {
    if b == 255 then 0 else b + 1
  }

  /** What the server answers to `input`. */
  function Output(s: Phase, input: seq<byte>): (o: seq<byte>)
    ensures |o| <= |input|
    decreases |input|
  {
    if input == [] then []
    else if s.WaitForMsg? then Output(if input[0] == HAT then InMsg else s, input[1..])
    else if input[0] == DOLLAR then Output(WaitForMsg, input[1..])
    else [Inc(input[0])] + Output(s, input[1..])
  }

  lemma {:induction false} Continued(s: Phase, a: seq<byte>, b: seq<byte>)
    ensures Next(s, a + b) == Next(Next(s, a), b)
    ensures Output(s, a + b) == Output(s, a) + Output(Next(s, a), b)
    decreases |a|
  {
    if a == [] {
      assert a + b == b;
    } else {
      assert (a + b)[1..] == a[1..] + b;
      if s.WaitForMsg? {
        Continued(if a[0] == HAT then InMsg else s, a[1..], b);
      } else if a[0] == DOLLAR {
        Continued(WaitForMsg, a[1..], b);
      } else {
        Continued(s, a[1..], b);
      }
    }
  }

  /** The bytes of a message, each counted up by one; 255 becomes 0. */
  function Incremented(m: seq<byte>): (r: seq<byte>)
    ensures |r| == |m|
  {
    seq(|m|, i requires 0 <= i < |m| => var b: int := m[i]; (b + 1) % 0x100)
  }

  lemma IncrementedFirst(m: seq<byte>)
    requires m != []
    ensures Incremented(m) == [Inc(m[0])] + Incremented(m[1..])
  {
  }

  /** Each message between '^' and '$' is answered with its bytes incremented; bytes between messages are skipped. */
  lemma Answered(noise: seq<byte>, m: seq<byte>, rest: seq<byte>)
    requires Ascii('^') !in noise && Ascii('$') !in m
    ensures Output(WaitForMsg, noise + [Ascii('^')] + m + [Ascii('$')] + rest)
         == Incremented(m) + Output(WaitForMsg, rest)
  {
    Markers();
    AnsweredBetween(noise, m, rest);
  }

  /** The markers of the protocol. */
  lemma Markers()
    ensures HAT == Ascii('^') && DOLLAR == Ascii('$') && STAR == Ascii('*')
  {
  }

  lemma {:induction false} AnsweredBetween(noise: seq<byte>, m: seq<byte>, rest: seq<byte>)
    requires HAT !in noise && DOLLAR !in m
    ensures Output(WaitForMsg, noise + [HAT] + m + [DOLLAR] + rest) == Incremented(m) + Output(WaitForMsg, rest)
    decreases |noise|
  {
    var all := noise + [HAT] + m + [DOLLAR] + rest;
    if noise != [] {
      assert all[1..] == noise[1..] + [HAT] + m + [DOLLAR] + rest;
      AnsweredBetween(noise[1..], m, rest);
    } else {
      assert all[1..] == m + [DOLLAR] + rest;
      InMessage(m, rest);
    }
  }

  lemma {:induction false} InMessage(m: seq<byte>, rest: seq<byte>)
    requires DOLLAR !in m
    ensures Output(InMsg, m + [DOLLAR] + rest) == Incremented(m) + Output(WaitForMsg, rest)
  {
    var all := m + [DOLLAR] + rest;
    if m == [] {
      assert all[1..] == rest;
    } else {
      assert all[1..] == m[1..] + [DOLLAR] + rest;
      InMessage(m[1..], rest);
      IncrementedFirst(m);
    }
  }

  /** Without a message, a peer is owed a star and nothing else. */
  lemma {:induction false} OnlyStar(noise: seq<byte>)
    requires Ascii('^') !in noise
    ensures Owed(noise) == [Ascii('*')]
  {
    Markers();
    NoAnswer(noise);
  }

  lemma {:induction false} NoAnswer(noise: seq<byte>)
    requires HAT !in noise
    ensures Output(WaitForMsg, noise) == []
  {
    if noise != [] {
      NoAnswer(noise[1..]);
    }
  }

  /** All that a peer is owed for what it has sent. */
  function Owed(received: seq<byte>): seq<byte> {
    [STAR] + Output(WaitForMsg, received)
  }

  // ---- sockets ----

  datatype Received = Data(bytes: seq<byte>) | Disconnected | ReadLater | ReadFailed

  datatype SendResult = Sent(n: nat) | SendLater | SendFailed

  datatype Accepted = Peer(fd: nat) | AcceptLater | AcceptFailed

  /** The counters say how often the network was asked for something, how many calls failed, how many would have blocked
      or took only a part of the bytes, and how often a peer had hung up. */
  class Network {
    /** The peers, what they have sent to the server, and what the server has sent to them. */
    var open: set<nat>
    ghost var received: map<nat, seq<byte>>
    ghost var sent: map<nat, seq<byte>>
    ghost var calls: nat
    ghost var errors: nat
    ghost var delays: nat
    ghost var hangups: nat

    ghost predicate Valid()
      reads this
    {
      open <= received.Keys && open <= sent.Keys
    }

    method Accept(listener: nat) returns (r: Accepted)
      requires Valid() && listener !in open
      modifies this
      ensures Valid()
      ensures r.Peer? ==> r.fd !in old(open) && r.fd != listener && open == old(open) + {r.fd}
                          && received == old(received)[r.fd := []] && sent == old(sent)[r.fd := []]
      ensures !r.Peer? ==> open == old(open) && received == old(received) && sent == old(sent)
      ensures calls == old(calls) + 1 && errors == old(errors) + (if r.AcceptFailed? then 1 else 0)
    {
      calls := calls + 1;
      var fd: nat := *;
      var later: bool := *;
      var busy: bool;
      busy :| fd in open || fd == listener ==> busy;
      if later || busy {
        var failed: bool := *;
        if failed {
          errors := errors + 1;
          return AcceptFailed;
        }
        return AcceptLater;
      }
      open, received, sent := open + {fd}, received[fd := []], sent[fd := []];
      r := Peer(fd);
    }

    /** recv into a buffer of 1024 bytes. */
    method Recv(fd: nat) returns (r: Received)
      requires Valid() && fd in open
      modifies this`received, this`calls, this`errors, this`delays, this`hangups
      ensures Valid()
      ensures calls == old(calls) + 1 && errors == old(errors) + (if r.ReadFailed? then 1 else 0)
      ensures delays == old(delays) + (if r.ReadLater? then 1 else 0)
      ensures hangups == old(hangups) + (if r.Disconnected? then 1 else 0)
      ensures r.Data? ==> 0 < |r.bytes| <= 1024 && received == old(received)[fd := old(received)[fd] + r.bytes]
      ensures !r.Data? ==> received == old(received)
    {
      r := *;
      if r.Data? && !(0 < |r.bytes| <= 1024) {
        r := Disconnected;
      }
      calls := calls + 1;
      match r
      case Data(bytes) => received := received[fd := received[fd] + bytes];
      case Disconnected => hangups := hangups + 1;
      case ReadLater => delays := delays + 1;
      case ReadFailed => errors := errors + 1;
    }

    method Send(fd: nat, bytes: seq<byte>) returns (r: SendResult)
      requires Valid() && fd in open
      modifies this`sent, this`calls, this`errors, this`delays
      ensures Valid()
      ensures calls == old(calls) + 1 && errors == old(errors) + (if r.SendFailed? then 1 else 0)
      ensures delays == old(delays) + (if r.SendLater? || (r.Sent? && r.n < |bytes|) then 1 else 0)
      ensures r.Sent? ==> r.n <= |bytes| && sent == old(sent)[fd := old(sent)[fd] + bytes[..r.n]]
      ensures !r.Sent? ==> sent == old(sent)
    {
      var n :| 0 <= n <= |bytes|;
      var taken: bool := *;
      calls := calls + 1;
      if taken {
        delays := delays + if n < |bytes| then 1 else 0;
        sent := sent[fd := sent[fd] + bytes[..n]];
        return Sent(n);
      }
      var later: bool := *;
      if later {
        delays := delays + 1;
        return SendLater;
      }
      errors := errors + 1;
      r := SendFailed;
    }

    /** select: some of the descriptors that are waited for. */
    method Select(reading: set<nat>, writing: set<nat>) returns (ok: bool, readable: set<nat>, writable: set<nat>)
      modifies this`errors
      ensures readable <= reading && writable <= writing
      ensures errors == old(errors) + (if ok then 0 else 1)
    {
      var r: set<nat>, w: set<nat> := *, *;
      readable, writable := reading * r, writing * w;
      ok := *;
      if !ok {
        errors := errors + 1;
      }
    }

    method Close(fd: nat)
      requires Valid()
      modifies this`open
      ensures Valid() && open == old(open) - {fd}
    {
      open := open - {fd};
    }
  }

  // ---- the blocking server ----

  predicate Prefix(a: seq<byte>, b: seq<byte>) {
    |a| <= |b| && a == b[..|a|]
  }

  /** The loop over one buffer: on success, the peer has been sent what the protocol answers to the whole buffer. */
  method AnswerBuffer(net: Network, fd: nat, bytes: seq<byte>, before: Phase) returns (ok: bool, state: Phase)
    requires net.Valid() && fd in net.open
    modifies net`sent, net`calls, net`errors, net`delays
    ensures net.Valid() && old(net.errors) <= net.errors && old(net.delays) <= net.delays
    ensures ok <==> net.errors == old(net.errors) && net.delays == old(net.delays)
    ensures ok ==> net.sent[fd] == old(net.sent[fd]) + Output(before, bytes) && state == Next(before, bytes)
    ensures !ok ==> exists i | 0 <= i <= |bytes| :: net.sent[fd] == old(net.sent[fd]) + Output(before, bytes[..i])
  {
    state := before;
    var i := 0;
    while i < |bytes|
      invariant i <= |bytes| && net.Valid() && net.errors == old(net.errors) && net.delays == old(net.delays)
      invariant net.sent[fd] == old(net.sent[fd]) + Output(before, bytes[..i]) && state == Next(before, bytes[..i])
    {
      Continued(before, bytes[..i], [bytes[i]]);
      assert bytes[..i] + [bytes[i]] == bytes[..i + 1];
      var b := bytes[i];
      match state {
        case WaitForMsg =>
          if b == HAT {
            state := InMsg;
          }
        case InMsg =>
          if b == DOLLAR {
            state := WaitForMsg;
          } else {
            var s := net.Send(fd, [Inc(b)]);
            if !s.Sent? || s.n < 1 {
              return false, state;
            }
          }
      }
      i := i + 1;
    }
    assert bytes[..i] == bytes;
    ok := true;
  }

  /** serve_connection, for up to `rounds` calls of recv. While all goes well, the peer has been sent all that it is
      owed when recv is called, and it is never sent anything else. */
  method ServeConnection(net: Network, fd: nat, rounds: nat) returns (ok: bool)
    requires net.Valid() && fd in net.open && net.received[fd] == [] && net.sent[fd] == []
    modifies net
    ensures fd in net.received && fd in net.sent
    ensures Prefix(net.sent[fd], Owed(net.received[fd]))
    ensures ok ==> net.sent[fd] == Owed(net.received[fd])
    ensures ok <==> net.errors == old(net.errors) && net.delays == old(net.delays)
    ensures ok ==> net.hangups == old(net.hangups) + 1 || |net.received[fd]| >= rounds
  {
    var s := net.Send(fd, [STAR]);
    if !s.Sent? || s.n < 1 {
      return false;
    }
    var state := WaitForMsg;
    var k := 0;
    while k < rounds
      invariant net.Valid() && fd in net.open && k <= rounds && k <= |net.received[fd]|
      invariant net.errors == old(net.errors) && net.delays == old(net.delays) && net.hangups == old(net.hangups)
      invariant net.sent[fd] == Owed(net.received[fd]) && state == Next(WaitForMsg, net.received[fd])
    {
      ghost var before, was := net.received[fd], state;
      var r := net.Recv(fd);
      if r.ReadLater? || r.ReadFailed? {
        return false;
      }
      if r.Disconnected? {
        break;
      }
      OwedMore(before, r.bytes);
      hide Output, Next;
      ok, state := AnswerBuffer(net, fd, r.bytes, state);
      if !ok {
        ghost var i :| 0 <= i <= |r.bytes| && net.sent[fd] == Owed(before) + Output(was, r.bytes[..i]);
        SentPart(was, before, r.bytes, i);
        net.Close(fd);
        return;
      }
      k := k + 1;
    }
    net.Close(fd);
    ok := true;
  }

  lemma OwedMore(before: seq<byte>, bytes: seq<byte>)
    ensures Owed(before + bytes) == Owed(before) + Output(Next(WaitForMsg, before), bytes)
    ensures Next(WaitForMsg, before + bytes) == Next(Next(WaitForMsg, before), bytes)
  {
    Continued(WaitForMsg, before, bytes);
    PrefixPart([STAR], Output(WaitForMsg, before), Output(Next(WaitForMsg, before), bytes));
    hide Output, Next;
  }

  lemma SentPart(s: Phase, before: seq<byte>, bytes: seq<byte>, i: nat)
    requires i <= |bytes| && s == Next(WaitForMsg, before)
    ensures Prefix(Owed(before) + Output(s, bytes[..i]), Owed(before + bytes))
  {
    hide Output, Owed, Next, Prefix;
    OwedMore(before, bytes);
    Continued(s, bytes[..i], bytes[i..]);
    assert bytes == bytes[..i] + bytes[i..];
    PrefixPart(Owed(before), Output(s, bytes[..i]), Output(Next(s, bytes[..i]), bytes[i..]));
  }

  lemma PrefixPart(a: seq<byte>, b: seq<byte>, c: seq<byte>)
    ensures a + (b + c) == a + b + c && Prefix(a + b, a + (b + c))
  {
    assert a + (b + c) == a + b + c;
  }

  // ---- the event-driven server ----

  datatype ProcessingState = InitialAck | Waiting(phase: Phase)

  datatype PeerState = PeerState(state: ProcessingState, sendbuf: seq<byte>, sendbufEnd: int, sendptr: int)

  datatype FdStatus = FdStatus(wantRead: bool, wantWrite: bool)

  const FD_STATUS_R := FdStatus(true, false)
  const FD_STATUS_W := FdStatus(false, true)
  const FD_STATUS_RW := FdStatus(true, true)
  const FD_STATUS_NORW := FdStatus(false, false)

  ghost predicate Buffered(p: PeerState) {
    && |p.sendbuf| == SENDBUF_SIZE && 0 <= p.sendptr <= p.sendbufEnd <= SENDBUF_SIZE
    && (p.sendptr == p.sendbufEnd ==> p.sendbufEnd == 0)
  }

  ghost function Unsent(p: PeerState): seq<byte>
    requires Buffered(p)
  {
    p.sendbuf[p.sendptr..p.sendbufEnd]
  }

  /** What has been sent and what is buffered is what the peer is owed; before the first '*' is out, nothing has been
      read. */
  ghost predicate PeerOk(p: PeerState, received: seq<byte>, sent: seq<byte>) {
    && Buffered(p)
    && sent + Unsent(p) == Owed(received)
    && (match p.state
        case InitialAck => received == [] && Unsent(p) != []
        case Waiting(phase) => phase == Next(WaitForMsg, received))
  }

  /** The loop of on_peer_ready_recv over one buffer, with an empty send queue: the answers always fit. */
  method ProcessBuffer(peer: PeerState, bytes: seq<byte>) returns (p: PeerState, readyToSend: bool)
    requires Buffered(peer) && peer.sendbufEnd == 0 && peer.state.Waiting? && |bytes| <= 1024
    ensures Buffered(p) && Unsent(p) == Output(peer.state.phase, bytes)
    ensures p.state == Waiting(Next(peer.state.phase, bytes))
    ensures readyToSend <==> Unsent(p) != []
  {
    p, readyToSend := peer, false;
    ghost var was := peer.state.phase;
    var i := 0;
    while i < |bytes|
      invariant i <= |bytes| && p.sendptr == 0 && 0 <= p.sendbufEnd <= i && |p.sendbuf| == SENDBUF_SIZE
      invariant p.state == Waiting(Next(was, bytes[..i]))
      invariant p.sendbuf[..p.sendbufEnd] == Output(was, bytes[..i])
      invariant readyToSend <==> p.sendbufEnd > 0
    {
      Continued(was, bytes[..i], [bytes[i]]);
      assert bytes[..i] + [bytes[i]] == bytes[..i + 1];
      match p.state {
        case InitialAck =>
          assert false;
        case Waiting(WaitForMsg) =>
          if bytes[i] == HAT {
            p := p.(state := Waiting(InMsg));
          }
        case Waiting(InMsg) =>
          if bytes[i] == DOLLAR {
            p := p.(state := Waiting(WaitForMsg));
          } else {
            assert p.sendbufEnd < SENDBUF_SIZE;
            p := p.(sendbuf := p.sendbuf[p.sendbufEnd := Inc(bytes[i])], sendbufEnd := p.sendbufEnd + 1);
            readyToSend := true;
          }
      }
      i := i + 1;
    }
    assert bytes[..i] == bytes;
  }

  /** The events of `all` below `fd` have been seen, and the others are still monitored. */
  ghost predicate Ahead(all: set<nat>, seen: set<nat>, fd: nat, monitored: set<nat>) {
    forall f | f in all :: (f in seen <==> f < fd) && (fd <= f ==> f in monitored)
  }

  lemma SeenNothing(all: set<nat>, monitored: set<nat>)
    requires all <= monitored
    ensures Ahead(all, {}, 0, monitored)
  {
  }

  /** The next descriptor, if it is one of those that were reported, has not been seen yet. */
  lemma AheadHere(all: set<nat>, seen: set<nat>, fd: nat, monitored: set<nat>)
    requires Ahead(all, seen, fd, monitored)
    ensures fd in all ==> fd !in seen && fd in monitored
  {
  }

  lemma NextAhead(all: set<nat>, seen: set<nat>, seen': set<nat>, fd: nat, m: set<nat>, m': set<nat>)
    requires Ahead(all, seen, fd, m) && seen' == if fd in all then seen + {fd} else seen
    requires forall f | f in m && f != fd :: f in m'
    ensures Ahead(all, seen', fd + 1, m')
  {
  }

  lemma Counted(all: set<nat>, seen: set<nat>, x: nat) returns (seen': set<nat>)
    requires x in all - seen && seen <= all
    ensures seen' == seen + {x} && |all - seen'| == |all - seen| - 1
  {
    seen' := seen + {x};
    assert all - seen' == (all - seen) - {x};
  }

  class Server {
    const net: Network
    const listener: nat
    const globalState: array<PeerState>
    var readfds: set<nat>
    var writefds: set<nat>
    var fdsetMax: nat

    ghost predicate PeerValid(fd: nat)
      reads this, net, globalState
    {
      && net.Valid() && fd in net.open && fd < globalState.Length
      && PeerOk(globalState[fd], net.received[fd], net.sent[fd])
    }

    /** Every peer has been sent what it is owed up to what is buffered, and it is monitored in one direction: for
        writing exactly when something is buffered for it. */
    ghost predicate PeerServed(fd: nat)
      reads this, net, globalState
    {
      && PeerValid(fd) && fd <= fdsetMax
      && (fd in writefds <==> Unsent(globalState[fd]) != [])
      && (fd in readfds <==> Unsent(globalState[fd]) == [])
    }

    ghost predicate Valid()
      reads this, net, globalState
    {
      && net.Valid() && globalState.Length == MAXFDS
      && (forall i | 0 <= i < globalState.Length :: |globalState[i].sendbuf| == SENDBUF_SIZE)
      && (fdsetMax < FD_SETSIZE || fdsetMax == listener) && listener !in net.open && listener in readfds
      && listener !in writefds && listener <= fdsetMax
      && (forall fd | fd in net.open :: PeerServed(fd))
      && (forall fd | fd in readfds && fd != listener :: fd in net.open)
      && (forall fd | fd in writefds :: fd in net.open)
    }

    /** To every peer, the server looks like the blocking one: it has been sent a beginning of what it is owed, and all
        of it when the server waits for more input. It is waited for in exactly one direction. */
    lemma LooksBlocking(fd: nat)
      requires Valid() && fd in net.open
      ensures Prefix(net.sent[fd], Owed(net.received[fd]))
      ensures fd in readfds <==> net.sent[fd] == Owed(net.received[fd])
      ensures fd in readfds <==> fd !in writefds
    {
      assert PeerServed(fd);
      assert Owed(net.received[fd]) == net.sent[fd] + Unsent(globalState[fd]);
    }

    /** The declarations of main, with a socket that listens. */
    constructor (net: Network, listener: nat)
      requires net.Valid() && net.open == {}
      ensures Valid() && this.net == net && this.listener == listener && fresh(globalState)
    {
      this.net, this.listener := net, listener;
      readfds, writefds, fdsetMax := {listener}, {}, listener;
      globalState := new PeerState[MAXFDS](_ => PeerState(InitialAck, seq(SENDBUF_SIZE, _ => 0), 0, 0));
    }

    /** on_peer_connected */
    method OnPeerConnected(fd: nat) returns (status: FdStatus)
      requires net.Valid() && fd in net.open && net.received[fd] == [] && net.sent[fd] == []
      requires fd < globalState.Length && |globalState[fd].sendbuf| == SENDBUF_SIZE
      modifies globalState
      ensures PeerValid(fd) && Unsent(globalState[fd]) != [] && status == FD_STATUS_W
      ensures forall f | 0 <= f < globalState.Length && f != fd :: globalState[f] == old(globalState[f])
    {
      var p := globalState[fd];
      globalState[fd] := PeerState(InitialAck, p.sendbuf[0 := STAR], 1, 0);
      status := FD_STATUS_W;
    }

    /** on_peer_ready_recv; `ok` is false when recv fails and the program dies. */
    method OnPeerReadyRecv(fd: nat) returns (ok: bool, status: FdStatus)
      requires PeerValid(fd)
      modifies globalState, net`received, net`calls, net`errors, net`delays, net`hangups
      ensures ok ==> PeerValid(fd) && status != FD_STATUS_RW
      ensures ok && status == FD_STATUS_NORW ==> Unsent(globalState[fd]) == []
      ensures ok <==> net.errors == old(net.errors)
      ensures old(net.errors) <= net.errors
      ensures net.calls == old(net.calls) + if old(Unsent(globalState[fd])) == [] then 1 else 0
      ensures ok ==> (status == FD_STATUS_NORW <==> net.hangups != old(net.hangups))
      ensures ok && status != FD_STATUS_NORW ==> (status == FD_STATUS_W <==> Unsent(globalState[fd]) != [])
      ensures net.Valid() && net.open == old(net.open)
      ensures forall f | f in net.open && f != fd :: net.received[f] == old(net.received)[f]
      ensures forall f | 0 <= f < globalState.Length && f != fd :: globalState[f] == old(globalState[f])
    {
      ok, status := true, FD_STATUS_W;
      var p := globalState[fd];
      if p.state == InitialAck || p.sendptr < p.sendbufEnd {
        return;
      }
      var r := net.Recv(fd);
      match r {
        case Disconnected => return true, FD_STATUS_NORW;
        case ReadLater => return true, FD_STATUS_R;
        case ReadFailed => return false, FD_STATUS_NORW;
        case Data(_) =>
      }
      ghost var before, was := old(net.received[fd]), p.state.phase;
      var readyToSend;
      p, readyToSend := ProcessBuffer(p, r.bytes);
      OwedMore(before, r.bytes);
      assert net.sent[fd] + [] == net.sent[fd];
      globalState[fd] := p;
      status := FdStatus(!readyToSend, readyToSend);
    }

    /** on_peer_ready_send */
    method OnPeerReadySend(fd: nat) returns (ok: bool, status: FdStatus)
      requires PeerValid(fd)
      modifies globalState, net`sent, net`calls, net`errors, net`delays
      ensures ok ==> PeerValid(fd)
      ensures ok <==> net.errors == old(net.errors)
      ensures old(net.errors) <= net.errors
      ensures net.calls == old(net.calls) + if old(Unsent(globalState[fd])) == [] then 0 else 1
      ensures ok ==> (status == FD_STATUS_RW <==> old(Unsent(globalState[fd])) == [])
      ensures ok ==> status == if old(Unsent(globalState[fd])) == [] then FD_STATUS_RW
                               else if Unsent(globalState[fd]) == [] then FD_STATUS_R else FD_STATUS_W
      ensures net.Valid() && net.open == old(net.open)
      ensures forall f | f in net.open && f != fd :: net.sent[f] == old(net.sent)[f]
      ensures forall f | 0 <= f < globalState.Length && f != fd :: globalState[f] == old(globalState[f])
    {
      ok := true;
      var p := globalState[fd];
      if p.sendptr >= p.sendbufEnd {
        return true, FD_STATUS_RW;
      }
      var sendlen := p.sendbufEnd - p.sendptr;
      var s := net.Send(fd, p.sendbuf[p.sendptr..p.sendbufEnd]);
      match s {
        case SendLater => return true, FD_STATUS_W;
        case SendFailed => return false, FD_STATUS_NORW;
        case Sent(n) =>
          if n < sendlen {
            globalState[fd] := p.(sendptr := p.sendptr + n);
            status := FD_STATUS_W;
          } else {
            p := p.(sendptr := 0, sendbufEnd := 0);
            if p.state == InitialAck {
              p := p.(state := Waiting(WaitForMsg));
            }
            globalState[fd] := p;
            status := FD_STATUS_R;
          }
      }
    }

    /** The updates of the two sets after a callback. */
    method Monitor(fd: nat, status: FdStatus)
      modifies this`readfds, this`writefds
      ensures readfds == if status.wantRead then old(readfds) + {fd} else old(readfds) - {fd}
      ensures writefds == if status.wantWrite then old(writefds) + {fd} else old(writefds) - {fd}
    {
      readfds := if status.wantRead then readfds + {fd} else readfds - {fd};
      writefds := if status.wantWrite then writefds + {fd} else writefds - {fd};
    }

    /** The listening socket is ready. */
    method AcceptPeer() returns (ok: bool)
      requires Valid()
      modifies this, net, globalState
      ensures ok ==> Valid() && old(net.open) <= net.open && old(readfds) <= readfds && old(writefds) <= writefds
      ensures net.calls == old(net.calls) + 1 && old(net.errors) <= net.errors
      ensures ok <==> net.errors == old(net.errors) && !Crowded()
    {
      var r := net.Accept(listener);
      match r {
        case AcceptLater => return true;
        case AcceptFailed => return false;
        case Peer(fd) =>
          Elsewhere(fd);
          ok := Welcome(fd);
      }
    }

    /** All is well with every peer but a new one. */
    lemma Elsewhere(fd: nat)
      requires ValidBut(fd) && fd in net.open
      ensures Crowded() <==> MAXFDS <= fd
    {
      assert forall f | f in net.open && f != fd :: PeerServed(f);
    }

    /** A new peer has been accepted. */
    method Welcome(fd: nat) returns (ok: bool)
      requires ValidBut(fd) && fd in net.open && net.received[fd] == [] && net.sent[fd] == []
      requires fd !in readfds && fd !in writefds
      modifies this, globalState
      ensures ok ==> Valid() && old(readfds) <= readfds && old(writefds) <= writefds
      ensures ok <==> fd < MAXFDS
    {
      if fd > fdsetMax {
        if fd >= FD_SETSIZE {
          return false;
        }
        fdsetMax := fd;
      }
      if fd >= MAXFDS {
        return false;
      }
      var status := OnPeerConnected(fd);
      Monitor(fd, status);
      ok := true;
    }

    /** A peer has come for whom the table has no place. */
    ghost predicate Crowded()
      reads net
    {
      exists fd | fd in net.open :: MAXFDS <= fd
    }

    /** All is well with every peer but `fd`. */
    ghost predicate ValidBut(fd: nat)
      reads this, net, globalState
    {
      && net.Valid() && globalState.Length == MAXFDS
      && (forall i | 0 <= i < globalState.Length :: |globalState[i].sendbuf| == SENDBUF_SIZE)
      && (fdsetMax < FD_SETSIZE || fdsetMax == listener) && listener !in net.open && listener in readfds
      && listener !in writefds && listener <= fdsetMax
      && (forall f | f in net.open && f != fd :: PeerServed(f))
      && (forall f | f in readfds && f != listener :: f in net.open)
      && (forall f | f in writefds :: f in net.open)
    }

    /** What main does with the status of a callback: the sets are updated, and a peer that is waited for in neither
        direction is closed. */
    method Heed(fd: nat, status: FdStatus)
      requires ValidBut(fd) && PeerValid(fd) && fd <= fdsetMax && status != FD_STATUS_RW
      requires status != FD_STATUS_NORW ==> (status.wantWrite <==> Unsent(globalState[fd]) != [])
      modifies this`readfds, this`writefds, net`open
      ensures Valid()
      ensures forall f | f != fd :: (f in readfds <==> f in old(readfds)) && (f in writefds <==> f in old(writefds))
    {
      Monitor(fd, status);
      if !status.wantRead && !status.wantWrite {
        net.Close(fd);
      }
    }

    /** A monitored peer is readable. */
    method ReadPeer(fd: nat) returns (ok: bool)
      requires Valid() && fd in readfds && fd != listener
      modifies this, net, globalState
      ensures ok ==> Valid()
      ensures net.calls == old(net.calls) + 1 && old(net.errors) <= net.errors
      ensures ok <==> net.errors == old(net.errors)
      ensures forall f | f != fd :: (f in readfds <==> f in old(readfds)) && (f in writefds <==> f in old(writefds))
    {
      var status;
      ok, status := OnPeerReadyRecv(fd);
      if ok {
        Heed(fd, status);
      }
    }

    /** A monitored peer is writable. */
    method WritePeer(fd: nat) returns (ok: bool)
      requires Valid() && fd in writefds
      modifies this, net, globalState
      ensures ok ==> Valid()
      ensures net.calls == old(net.calls) + 1 && old(net.errors) <= net.errors
      ensures ok <==> net.errors == old(net.errors)
      ensures forall f | f != fd :: (f in readfds <==> f in old(readfds)) && (f in writefds <==> f in old(writefds))
    {
      var status;
      ok, status := OnPeerReadySend(fd);
      if ok {
        Heed(fd, status);
      }
    }

    /** The loop over what select() reports. It stops early when `nready` events have been seen, and then none is
        left. */
    method Pass(readable: set<nat>, writable: set<nat>)
      returns (ok: bool, ghost read: set<nat>, ghost written: set<nat>)
      requires Valid() && readable <= readfds && writable <= writefds
      modifies this, net, globalState
      ensures ok ==> Valid() && read == readable && written == writable
      ensures ok ==> net.calls == old(net.calls) + |readable| + |writable|
      ensures old(net.errors) <= net.errors && (ok <==> net.errors == old(net.errors) && !Crowded())
    {
      hide PeerServed, PeerValid, PeerOk, Buffered, Crowded, Ahead;
      read, written := {}, {};
      SeenNothing(readable, readfds);
      SeenNothing(writable, writefds);
      var nready := |readable| + |writable|;
      var fd := 0;
      assert readable - read == readable && writable - written == writable;
      while fd <= fdsetMax && nready > 0
        invariant Valid() && read <= readable && written <= writable
        invariant Ahead(readable, read, fd, readfds) && Ahead(writable, written, fd, writefds)
        invariant nready == |readable - read| + |writable - written|
        invariant net.calls == old(net.calls) + |readable| + |writable| - nready && net.errors == old(net.errors)
        decreases FD_SETSIZE + listener + 1 - fd
      {
        OneDirection(fd);
        AheadHere(readable, read, fd, readfds);
        AheadHere(writable, written, fd, writefds);
        ghost var r0, w0, read0, written0 := readfds, writefds, read, written;
        if fd in readable {
          nready := nready - 1;
          read := Counted(readable, read, fd);
          if fd == listener {
            ok := AcceptPeer();
          } else {
            ok := ReadPeer(fd);
          }
          if !ok {
            return;
          }
        }
        if fd in writable {
          nready := nready - 1;
          written := Counted(writable, written, fd);
          ok := WritePeer(fd);
          if !ok {
            return;
          }
        }
        NextAhead(readable, read0, read, fd, r0, readfds);
        NextAhead(writable, written0, written, fd, w0, writefds);
        fd := fd + 1;
      }
      NothingLeft(readable, writable, read, written, fd, nready);
      NotCrowded();
      ok := true;
    }

    lemma NotCrowded()
      requires Valid()
      ensures !Crowded()
    {
      assert forall fd | fd in net.open :: PeerServed(fd);
    }

    lemma OneDirection(fd: nat)
      requires Valid()
      ensures !(fd in readfds && fd in writefds)
    {
      if fd in net.open {
        LooksBlocking(fd);
      }
    }

    lemma NothingLeft(readable: set<nat>, writable: set<nat>, read: set<nat>, written: set<nat>, fd: nat, nready: int)
      requires Valid() && read <= readable && written <= writable && (fd > fdsetMax || nready <= 0)
      requires nready == |readable - read| + |writable - written|
      requires Ahead(readable, read, fd, readfds) && Ahead(writable, written, fd, writefds)
      ensures read == readable && written == writable
    {
      if fd > fdsetMax {
        assert forall f | f in readfds || f in writefds :: f == listener || PeerServed(f);
      } else {
        assert readable - read == {} && writable - written == {};
        assert readable == read + (readable - read) && writable == written + (writable - written);
      }
    }

    /** The loop of main, for any number of passes and any answers of select(): when the program waits in select(),
        every peer is served as it should be. */
    method Serve(passes: nat) returns (ok: bool)
      requires Valid()
      modifies this, net, globalState
      ensures ok ==> Valid()
      ensures ok <==> net.errors == old(net.errors) && !Crowded()
    {
      var k := 0;
      while k < passes
        invariant Valid() && net.errors == old(net.errors)
      {
        var readable, writable;
        ok, readable, writable := net.Select(readfds, writefds);
        if !ok {
          return;
        }
        ghost var read, written;
        ok, read, written := Pass(readable, writable);
        if !ok {
          return;
        }
        k := k + 1;
      }
      NotCrowded();
      ok := true;
    }
  }
}
