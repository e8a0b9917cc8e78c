/** How the Connection constructor establishes its socket: create a socket,
    try to connect to the given address, and otherwise listen and accept
    peers until one passes the strict-mode filter.

    The operating system is an input: the descriptor socket() returns, whether
    the address parses (inet_pton), whether connect succeeds, and the peers
    accept() hands out, in order. The socket calls made are recorded so that
    properties can say which calls happen. */
module Establishment {

  datatype Option<T> = None | Some(value: T)

  /** The size of the buffer inet_ntop prints a peer's address into, and the
      number of characters the strict filter compares. */
  const INET6_ADDRSTRLEN: nat := 46

  /** An address as inet_ntop prints it into the INET6_ADDRSTRLEN-byte
      buffer: at most 45 characters before the terminating NUL. */
  type PrintedAddress = s: string | |s| < INET6_ADDRSTRLEN

  /** A peer returned by accept(): its new descriptor and its printed address. */
  datatype Peer = Peer(fd: int, name: PrintedAddress)

  /** What the operating system answers to each step of the cascade. */
  datatype Env = Env(socketFd: int, parses: bool, connects: bool, peers: seq<Peer>)

  /** The socket calls the constructor makes. Accept stands for accept()
      followed by inet_ntop; closing a rejected peer names its descriptor. */
  datatype SocketCall =
    | CreateSocket
    | Connect(addr: string, port: int)
    | Bind(port: int)
    | Listen
    | Accept
    | Close(fd: int)

  datatype Phase = Init | Connecting | Listening | Accepting | Connected | Failed

  /** The state of the cascade: the phase, the connection's descriptor and
      remote address (None is unset or INADDR_ANY), the calls made so far and
      the peers accept() has still to return. */
  datatype Machine = Machine(phase: Phase, fd: int, remote: Option<string>, calls: seq<SocketCall>, pending: seq<Peer>)

  /** The first count characters of s: what strncmp looks at. */
  function Bounded(s: string, count: nat): (p: string)
    ensures |p| <= count && |p| <= |s| && p == s[..|p|]
    ensures |s| <= count ==> p == s
    ensures |s| > count ==> |p| == count
  {
    if |s| <= count then s else s[..count]
  }

  /** strncmp(name, addr, INET6_ADDRSTRLEN) == 0, for strings without a NUL:
      a name shorter than INET6_ADDRSTRLEN matches exactly the equal string,
      and two longer strings match when their first INET6_ADDRSTRLEN
      characters agree. */
  function SameAddress(name: string, addr: string): (same: bool)
    ensures |name| < INET6_ADDRSTRLEN ==> (same <==> name == addr)
    ensures |name| >= INET6_ADDRSTRLEN && |addr| >= INET6_ADDRSTRLEN ==>
      (same <==> name[..INET6_ADDRSTRLEN] == addr[..INET6_ADDRSTRLEN])
  {
    Bounded(name, INET6_ADDRSTRLEN) == Bounded(addr, INET6_ADDRSTRLEN)
  }

  /** The filter of the accept loop: a strict connection with an address only
      takes the peer at that address. */
  function Adopts(strict: bool, addr: Option<string>, name: string): (adopted: bool)
    ensures !strict || addr.None? ==> adopted
    ensures strict && addr.Some? ==> (adopted <==> SameAddress(name, addr.value))
  {
    !(strict && addr.Some? && !SameAddress(name, addr.value))
  }

  /** A measure that every step of the cascade decreases. */
  function Rank(m: Machine): nat
  {
    match m.phase
    case Init => |m.pending| + 4
    case Connecting => |m.pending| + 3
    case Listening => |m.pending| + 2
    case Accepting => |m.pending| + 1
    case Connected => 0
    case Failed => 0
  }

  /** The cascade rests once connected or failed, or when accept() has no
      more peers to return (the source would block there). */
  predicate Settled(m: Machine)
  {
    m.phase == Connected || m.phase == Failed || (m.phase == Accepting && m.pending == [])
  }

  /** One step of the constructor. */
  function Next(m: Machine, addr: Option<string>, port: int, strict: bool, env: Env): (n: Machine)
    requires !Settled(m)
    ensures Rank(n) < Rank(m)
    ensures |m.calls| <= |n.calls| && n.calls[..|m.calls|] == m.calls
  {
    match m.phase
    case Init =>
      var calls := m.calls + [CreateSocket];
      if env.socketFd < 0 then m.(phase := Failed, fd := env.socketFd, calls := calls)
      else if addr.None? then m.(phase := Listening, fd := env.socketFd, calls := calls)
      else m.(phase := Connecting, fd := env.socketFd, calls := calls)
    case Connecting =>
      if addr.None? || !env.parses then m.(phase := Listening)
      else
        var calls := m.calls + [Connect(addr.value, port)];
        if env.connects then m.(phase := Connected, remote := addr, calls := calls)
        else m.(phase := Listening, remote := addr, calls := calls)
    case Listening =>
      m.(phase := Accepting, remote := None, calls := m.calls + [Bind(port), Listen])
    case Accepting =>
      var peer := m.pending[0];
      if Adopts(strict, addr, peer.name) then
        m.(phase := Connected, fd := peer.fd, remote := Option<string>.Some(peer.name), calls := m.calls + [Accept], pending := m.pending[1..])
      else
        m.(calls := m.calls + [Accept, Close(peer.fd)], pending := m.pending[1..])
  }

  /** Steps of the constructor until it settles. */
  function Run(m: Machine, addr: Option<string>, port: int, strict: bool, env: Env): (n: Machine)
    ensures Settled(n)
    ensures |m.calls| <= |n.calls| && n.calls[..|m.calls|] == m.calls
    decreases Rank(m)
  {
    if Settled(m) then m
    else
      var next := Next(m, addr, port, strict, env);
      var n := Run(next, addr, port, strict, env);
      assert n.calls[..|m.calls|] == n.calls[..|next.calls|][..|m.calls|];
      n
  }

  function Start(env: Env): Machine
  {
    Machine(Init, 0, None, [], env.peers)
  }

  /** What the constructor leaves behind: a settled cascade whose first call
      is socket(). */
  function Establish(addr: Option<string>, port: int, strict: bool, env: Env): (m: Machine)
    ensures Settled(m)
    ensures |m.calls| >= 1 && m.calls[0] == CreateSocket
  {
    var first := Next(Start(env), addr, port, strict, env);
    RunStep(Start(env), addr, port, strict, env);
    assert first.calls == [CreateSocket];
    Run(Start(env), addr, port, strict, env)
  }

  // ---------------------------------------------------------------------------
  // The strict-mode filter

  /** A peer is turned away only by a strict connection with an address, and
      then exactly when its printed address differs from that address. As the
      printed address ends before the INET6_ADDRSTRLEN characters strncmp
      compares, a longer address never matches. */
  lemma AdoptsExactly(strict: bool, addr: Option<string>, name: PrintedAddress)
    ensures !strict || addr.None? ==> Adopts(strict, addr, name)
    ensures strict && addr.Some? ==> (Adopts(strict, addr, name) <==> name == addr.value)
  {
  }

  // ---------------------------------------------------------------------------
  // The accept loop

  /** Index of the first peer the filter takes. */
  function FirstAdopted(strict: bool, addr: Option<string>, peers: seq<Peer>): (k: Option<nat>)
    ensures k.Some? ==> k.value < |peers| && Adopts(strict, addr, peers[k.value].name)
    ensures k.Some? ==> forall j :: 0 <= j < k.value ==> !Adopts(strict, addr, peers[j].name)
    ensures k.None? ==> forall j :: 0 <= j < |peers| ==> !Adopts(strict, addr, peers[j].name)
  {
    if peers == [] then None
    else if Adopts(strict, addr, peers[0].name) then Some(0)
    else
      match FirstAdopted(strict, addr, peers[1..])
      case None => None
      case Some(k) => Some(k + 1)
  }

  /** The calls made for peers the filter turns away. */
  function Rejections(peers: seq<Peer>): (calls: seq<SocketCall>)
    ensures |calls| == 2 * |peers|
  {
    if peers == [] then [] else [Accept, Close(peers[0].fd)] + Rejections(peers[1..])
  }

  /** Each turned-away peer is accepted and then closed, in the order accept()
      returned them. */
  lemma {:induction false} RejectionsAt(peers: seq<Peer>, j: nat)
    requires j < |peers|
    ensures Rejections(peers)[2 * j] == Accept && Rejections(peers)[2 * j + 1] == Close(peers[j].fd)
  {
    if j > 0 {
      RejectionsAt(peers[1..], j - 1);
    }
  }

  /** One step of a cascade that has not settled. */
  lemma RunStep(m: Machine, addr: Option<string>, port: int, strict: bool, env: Env)
    requires !Settled(m)
    ensures Run(m, addr, port, strict, env) == Run(Next(m, addr, port, strict, env), addr, port, strict, env)
  {
  }

  /** What the accept loop leaves, given where the filter first takes a peer. */
  function AcceptOutcome(m: Machine, k: Option<nat>): Machine
    requires k.Some? ==> k.value < |m.pending|
  {
    var peers := m.pending;
    match k
    case Some(i) =>
      Machine(Connected, peers[i].fd, Option<string>.Some(peers[i].name), m.calls + Rejections(peers[..i]) + [Accept], peers[i + 1..])
    case None =>
      m.(calls := m.calls + Rejections(peers), pending := [])
  }

  /** A rejected first peer: the loop goes on with the others. */
  lemma AcceptRejects(m: Machine, next: Machine, k: Option<nat>)
    requires m.pending != [] && next == m.(calls := m.calls + [Accept, Close(m.pending[0].fd)], pending := m.pending[1..])
    requires k.Some? ==> k.value < |next.pending|
    ensures AcceptOutcome(next, k) == AcceptOutcome(m, match k case Some(i) => Some(i + 1) case None => None)
  {
    var peers := m.pending;
    assert Rejections(peers) == [Accept, Close(peers[0].fd)] + Rejections(peers[1..]);
    match k
    case Some(i) =>
      assert peers[1..][..i] == peers[1..i + 1];
      assert peers[..i + 1] == [peers[0]] + peers[1..i + 1];
      assert Rejections(peers[..i + 1]) == [Accept, Close(peers[0].fd)] + Rejections(peers[1..i + 1]);
      assert peers[1..][i + 1..] == peers[i + 2..];
    case None =>
  }

  /** The accept loop adopts the first peer that passes the filter, after
      accepting and closing each one before it; when none passes it has closed
      them all and the descriptor and remote address are those it started with. */
  lemma {:induction false} AcceptLoop(m: Machine, addr: Option<string>, port: int, strict: bool, env: Env)
    requires m.phase == Accepting
    ensures Run(m, addr, port, strict, env) == AcceptOutcome(m, FirstAdopted(strict, addr, m.pending))
    decreases |m.pending|
  {
    var peers := m.pending;
    if peers != [] {
      RunStep(m, addr, port, strict, env);
      var next := Next(m, addr, port, strict, env);
      if Adopts(strict, addr, peers[0].name) {
        assert peers[..0] == [];
      } else {
        AcceptLoop(next, addr, port, strict, env);
        AcceptRejects(m, next, FirstAdopted(strict, addr, peers[1..]));
      }
    }
  }

  /** The calls of the cascade before the accept loop: socket(), connect()
      when the address parsed, then bind() and listen(). */
  function ListenCalls(addr: Option<string>, port: int, env: Env): seq<SocketCall>
  {
    [CreateSocket] + (if addr.Some? && env.parses then [Connect(addr.value, port)] else []) + [Bind(port), Listen]
  }

  /** The state in which the cascade enters the accept loop. */
  function AcceptStart(addr: Option<string>, port: int, env: Env): Machine
  {
    Machine(Accepting, env.socketFd, None, ListenCalls(addr, port, env), env.peers)
  }

  // ---------------------------------------------------------------------------
  // The cascade

  /** If socket() fails the constructor gives up at once: that one call, and
      no connect, bind or listen. The connection fails exactly then. */
  lemma SocketFailure(addr: Option<string>, port: int, strict: bool, env: Env)
    ensures Establish(addr, port, strict, env).phase == Failed <==> env.socketFd < 0
    ensures env.socketFd < 0 ==> Establish(addr, port, strict, env).calls == [CreateSocket]
  {
    RunStep(Start(env), addr, port, strict, env);
    if env.socketFd >= 0 {
      if addr.Some? && env.parses && env.connects {
        EstablishConnects(addr, port, strict, env);
      } else {
        EstablishAccepts(addr, port, strict, env);
      }
    }
  }

  /** With an address that parses and a connect that succeeds, the
      connection is to that address on the socket it created, after exactly
      socket() and connect(). */
  lemma EstablishConnects(addr: Option<string>, port: int, strict: bool, env: Env)
    requires env.socketFd >= 0 && addr.Some? && env.parses && env.connects
    ensures Establish(addr, port, strict, env) ==
      Machine(Connected, env.socketFd, addr, [CreateSocket, Connect(addr.value, port)], env.peers)
  {
    RunStep(Start(env), addr, port, strict, env);
    var m1 := Next(Start(env), addr, port, strict, env);
    RunStep(m1, addr, port, strict, env);
  }

  /** Without an address, with one that does not parse, or with a connect that
      fails, the constructor falls back to listening: the run is that of the
      accept loop after ListenCalls. Without an address, or with one that does
      not parse, connect() is never called. */
  lemma EstablishListens(addr: Option<string>, port: int, strict: bool, env: Env)
    requires env.socketFd >= 0 && !(addr.Some? && env.parses && env.connects)
    ensures Establish(addr, port, strict, env) == Run(AcceptStart(addr, port, env), addr, port, strict, env)
    ensures addr.None? || !env.parses ==> forall i :: 0 <= i < |ListenCalls(addr, port, env)| ==> !ListenCalls(addr, port, env)[i].Connect?
  {
    RunStep(Start(env), addr, port, strict, env);
    var m1 := Next(Start(env), addr, port, strict, env);
    var m3 := m1;
    if addr.Some? {
      RunStep(m1, addr, port, strict, env);
      m3 := Next(m1, addr, port, strict, env);
    }
    assert m3.phase == Listening;
    RunStep(m3, addr, port, strict, env);
    assert Next(m3, addr, port, strict, env) == AcceptStart(addr, port, env);
  }

  /** The whole cascade once it listens: it connects to the first peer the
      filter takes, and otherwise it is still accepting, on the socket it
      created, with every peer accepted and closed. */
  lemma EstablishAccepts(addr: Option<string>, port: int, strict: bool, env: Env)
    requires env.socketFd >= 0 && !(addr.Some? && env.parses && env.connects)
    ensures var n := Establish(addr, port, strict, env);
      var peers := env.peers;
      match FirstAdopted(strict, addr, peers)
      case Some(k) =>
        n == Machine(Connected, peers[k].fd, Option<string>.Some(peers[k].name), ListenCalls(addr, port, env) + Rejections(peers[..k]) + [Accept], peers[k + 1..])
      case None =>
        n == Machine(Accepting, env.socketFd, None, ListenCalls(addr, port, env) + Rejections(peers), [])
  {
    EstablishListens(addr, port, strict, env);
    AcceptLoop(AcceptStart(addr, port, env), addr, port, strict, env);
  }

  /** A connection that is not strict, or that has no address, takes the first
      peer whatever its address. */
  lemma LooseAdoptsFirst(addr: Option<string>, port: int, strict: bool, env: Env)
    requires env.socketFd >= 0 && !(addr.Some? && env.parses && env.connects)
    requires !strict || addr.None?
    requires env.peers != []
    ensures var n := Establish(addr, port, strict, env);
      n.phase == Connected && n.fd == env.peers[0].fd && n.remote == Option<string>.Some(env.peers[0].name)
  {
    EstablishAccepts(addr, port, strict, env);
    assert Adopts(strict, addr, env.peers[0].name);
  }
}
