/**
 * The JSON-RPC server: four connections whose requests are put together from arbitrary reads, and
 * their registration with the main loop.
 */
module JsonServer {
  import opened CText
  import opened FdRegistry
  import opened JsonFraming
  import opened Sequences

  const FD_FREE: int := -1
  const CON_MAX: nat := 4

  datatype Outcome = Waiting | Answered | Failed

  class Connection {
    var fd: int
    var len: nat
    var rxCnt: nat
    var msg: array?<byte>
    // All bytes read since the connection was accepted, and all requests handed on
    ghost var received: Octets
    ghost var delivered: seq<Octets>
    // No header was taken from a read that failed
    ghost var sound: bool
    // The header of the present request was the first one taken from a read that failed, and what was
    // received before it
    ghost var mistaken: bool
    ghost var base: Octets

    ghost function Buffer(): set<array<byte>>
      reads this
    {
      if msg == null then {} else {msg}
    }

    ghost function Part(): Octets
      reads this, Buffer()
    {
      if msg == null || rxCnt > msg.Length then [] else msg[..rxCnt]
    }

    /** The buffer has room for the request and its terminator; what was read is what was handed on and what is kept. */
    ghost predicate Valid()
      reads this, Buffer()
    {
      && (len == 0 ==> rxCnt == 0 && msg == null)
      && (len > 0 ==> LegalLength(len) && rxCnt < len && msg != null && msg.Length == len + 1)
      && (fd == FD_FREE ==> len == 0)
      && (fd != FD_FREE && sound ==> Deframe(received) == Deframed(delivered, Pending(len, Part())))
      && (mistaken ==> len > 0 && Deframe(base) == Deframed(delivered, []) && received == base + Part())
    }

    /** Not in use. */
    ghost predicate Free()
      reads this
    {
      fd == FD_FREE && len == 0 && rxCnt == 0 && msg == null && !mistaken
    }

    constructor ()
      ensures Free()
    {
      fd, len, rxCnt, msg := FD_FREE, 0, 0, null;
      received, delivered, sound, mistaken := [], [], true, false;
    }

    /** Takes a descriptor into use. */
    method Open(newFd: int)
      requires Valid() && fd == FD_FREE && newFd != FD_FREE
      modifies `fd, `received, `delivered, `sound, `mistaken
      ensures Valid() && fd == newFd && received == [] && delivered == [] && sound && !mistaken
    {
      hide Length;
      fd := newFd;
      received, delivered, sound, mistaken := [], [], true, false;
    }

    /** How many bytes are asked for. */
    function Requested(): nat
      reads this
    {
      if len == 0 then HDR_LEN else if rxCnt < len then len - rxCnt else 0
    }

    /**
     * One read of a connection: `n` is its result, and `bytes` starts with what it got. Whether memory
     * is left and whether a complete request is accepted is up to the environment.
     */
    method Receive(n: int, bytes: Octets, memory: bool, accepted: bool) returns (outcome: Outcome)
      requires Valid() && fd != FD_FREE && -1 <= n <= |bytes| == Requested()
      modifies this, Buffer()
      ensures Valid() && (msg == old(msg) || msg == null || fresh(msg))
      ensures fd == if outcome == Failed then FD_FREE else old(fd)
      ensures received == old(received) + (if n > 0 then bytes[..n] else [])
      ensures sound == (old(sound) && !(old(len) == 0 && n < 0 && outcome == Waiting))
      ensures mistaken == (outcome == Waiting && if old(len) == 0 then old(sound) && n < 0 else old(mistaken))
      ensures sound ==> delivered == Deframe(received).requests
      ensures old(len) > 0 && n > 0 && old(rxCnt) + n == old(len) && (old(sound) || old(mistaken)) ==>
                (delivered == Deframe(received).requests <==> old(sound))
      // A header is refused after too few octets, though not after a failed read, and for an illegal length
      ensures old(len) == 0 ==>
                && |bytes| == 4
                && var b0: int, b1: int, b2: int, b3: int := bytes[0], bytes[1], bytes[2], bytes[3];
                && var length := ((b0 * 256 + b1) * 256 + b2) * 256 + b3;
                && (outcome == Failed <==> 0 <= n < 4 || length == 0 || length > 102400 || !memory)
                && (outcome == Waiting ==> len == length && rxCnt == 0)
      ensures old(len) > 0 && outcome == Waiting ==> len == old(len) && rxCnt == old(rxCnt) + n
      ensures outcome != Waiting ==> len == rxCnt == 0
      ensures var complete := old(len) > 0 && n > 0 && old(rxCnt) + n == old(len);
              && (outcome == Answered <==> complete && accepted)
              && (old(len) > 0 ==> (outcome == Failed <==> n <= 0 || (complete && !accepted)))
              && delivered == old(delivered) + (if complete then [old(Part()) + bytes[..n]] else [])
    {
      hide Deframe, Length, Pending, Valid;
      if len == 0 {
        LengthMeans(bytes);
      }
      outcome := Take(n, bytes, memory, accepted);
    }

    /** The read itself. */
    method Take(n: int, bytes: Octets, memory: bool, accepted: bool) returns (outcome: Outcome)
      requires Valid() && fd != FD_FREE && -1 <= n <= |bytes| == Requested()
      modifies this, Buffer()
      ensures Valid() && (msg == old(msg) || msg == null || fresh(msg))
      ensures fd == if outcome == Failed then FD_FREE else old(fd)
      ensures received == old(received) + (if n > 0 then bytes[..n] else [])
      ensures sound == (old(sound) && !(old(len) == 0 && n < 0 && outcome == Waiting))
      ensures mistaken == (outcome == Waiting && if old(len) == 0 then old(sound) && n < 0 else old(mistaken))
      ensures sound ==> delivered == Deframe(received).requests
      ensures old(len) > 0 && n > 0 && old(rxCnt) + n == old(len) && (old(sound) || old(mistaken)) ==>
                (delivered == Deframe(received).requests <==> old(sound))
      ensures old(len) == 0 ==>
                && (outcome == Failed <==> 0 <= n < HDR_LEN || !LegalLength(Length(bytes)) || !memory)
                && (outcome == Waiting ==> len == Length(bytes) && rxCnt == 0)
      ensures old(len) > 0 && outcome == Waiting ==> len == old(len) && rxCnt == old(rxCnt) + n
      ensures outcome != Waiting ==> len == rxCnt == 0
      ensures var complete := old(len) > 0 && n > 0 && old(rxCnt) + n == old(len);
              && (outcome == Answered <==> complete && accepted)
              && (old(len) > 0 ==> (outcome == Failed <==> n <= 0 || (complete && !accepted)))
              && delivered == old(delivered) + (if complete then [old(Part()) + bytes[..n]] else [])
    {
      hide Deframe, Length, Pending;
      ghost var before, part := received, Part();
      if n > 0 {
        received := received + bytes[..n];
      }
      if len == 0 {
        assert n == HDR_LEN ==> bytes[..n] == bytes;
        HeaderFacts(before, delivered, n, bytes);
        if 0 <= n < HDR_LEN || !LegalLength(Length(bytes)) || !memory {
          outcome := Failed;
        } else {
          if n < 0 {
            assert before + [] == before;
            NothingPending(part);
            mistaken, base, sound := sound, before, false;
          }
          len := Length(bytes);
          msg := new byte[len + 1](_ => 0);
          assert msg[..0] == [];
          return Waiting;
        }
      } else if n <= 0 {
        PendingFacts(before, delivered, len, part, []);
        outcome := Failed;
      } else {
        PendingFacts(before, delivered, len, part, bytes[..n]);
        Regroup(base, part, bytes[..n]);
        MistakenFacts(base, delivered, part + bytes[..n]);
        forall i | 0 <= i < n {
          msg[rxCnt + i] := bytes[i];
        }
        rxCnt := rxCnt + n;
        assert msg[..rxCnt] == part + bytes[..n];
        if rxCnt != len {
          return Waiting;
        }
        msg[len] := 0;
        delivered := delivered + [msg[..len]];
        outcome := if accepted then Answered else Failed;
      }
      len, rxCnt, msg, mistaken := 0, 0, null, false;
      if outcome == Failed {
        fd := FD_FREE;
      }
    }
  }

  lemma NothingPending(part: Octets)
    ensures Pending(0, part) == []
  {
  }

  lemma MistakenFacts(stream: Octets, requests: seq<Octets>, x: Octets)
    requires x != []
    ensures Deframe(stream) == Deframed(requests, []) ==> Deframe(stream + x).requests != requests + [x]
  {
    hide Deframe;
    if Deframe(stream) == Deframed(requests, []) {
      RequestIsWrong(stream, requests, x);
    }
  }

  lemma HeaderFacts(stream: Octets, requests: seq<Octets>, n: int, bytes: Octets)
    requires |bytes| == HDR_LEN && -1 <= n <= HDR_LEN
    ensures Deframe(stream) == Deframed(requests, Pending(0, [])) ==> Deframe(stream).requests == requests
    ensures Deframe(stream) == Deframed(requests, Pending(0, [])) && n >= 0 ==>
              var now := Deframe(stream + if n > 0 then bytes[..n] else []);
              && now.requests == requests
              && (n == HDR_LEN && LegalLength(Length(bytes)) ==> now.rest == Pending(Length(bytes), []))
  {
    hide Deframe, Length;
    if Deframe(stream) == Deframed(requests, Pending(0, [])) && n >= 0 {
      assert stream + [] == stream;
      assert n == HDR_LEN ==> bytes[..n] == bytes;
      if n == HDR_LEN && LegalLength(Length(bytes)) {
        HeaderArrives(stream, requests, bytes);
      } else {
        NoHeaderArrives(stream, requests, bytes[..n]);
      }
    }
  }

  lemma PendingFacts(stream: Octets, requests: seq<Octets>, len: nat, part: Octets, x: Octets)
    requires LegalLength(len) && |part| < len && |part| + |x| <= len
    ensures Deframe(stream) == Deframed(requests, Pending(len, part)) ==>
              Deframe(stream + x) == (if |part| + |x| < len then Deframed(requests, Pending(len, part + x))
                                      else Deframed(requests + [part + x], Pending(0, [])))
    ensures stream + [] == stream
  {
    hide Deframe;
    if Deframe(stream) == Deframed(requests, Pending(len, part)) {
      BytesArrive(stream, requests, len, part, x);
    }
  }

  // ---------------------------------------------------------------------------------------
  // The connection table and the registry
  // ---------------------------------------------------------------------------------------

  ghost predicate Distinct(cons: seq<Connection>)
    reads cons
  {
    forall i, j :: 0 <= i < j < |cons| ==> cons[i] != cons[j] && cons[i].Buffer() !! cons[j].Buffer()
  }

  ghost function BuffersOf(cons: seq<Connection>): set<array<byte>>
    reads cons
  {
    set c, b | c in cons && b in c.Buffer() :: b
  }

  ghost predicate AllValid(cons: seq<Connection>)
    reads cons, BuffersOf(cons)
  {
    Distinct(cons) && forall i :: 0 <= i < |cons| ==> cons[i].Valid()
  }

  /** No descriptor is used twice, and those in use are the ones registered for the connection callback. */
  ghost predicate Agrees(fds: seq<int>, entries: map<int, Entry>) {
    && (forall i, j :: 0 <= i < j < |fds| && fds[i] != FD_FREE ==> fds[i] != fds[j])
    && (forall i :: 0 <= i < |fds| && fds[i] != FD_FREE ==> Registered(fds[i], entries))
    && (forall fd :: Registered(fd, entries) ==> fd in fds)
  }

  ghost predicate Registered(fd: int, entries: map<int, Entry>) {
    fd > 0 && fd in entries && entries[fd].cb == Some(JsonConnection)
  }

  method FreeConnections() returns (cons: seq<Connection>)
    ensures |cons| == CON_MAX && fresh(set c | c in cons)
    ensures forall i :: 0 <= i < |cons| ==> cons[i].Free()
    ensures forall i, j :: 0 <= i < j < |cons| ==> cons[i] != cons[j]
  {
    hide Connection.Free;
    var c0 := new Connection();
    var c1 := new Connection();
    var c2 := new Connection();
    var c3 := new Connection();
    cons := [c0, c1, c2, c3];
  }

  class Server {
    const registry: Registry
    const cons: seq<Connection>

    ghost function Fds(): (fds: seq<int>)
      reads this, cons
      ensures |fds| == |cons| && forall i :: 0 <= i < |cons| ==> fds[i] == cons[i].fd
    {
      FdsOf(cons)
    }

    ghost predicate Valid()
      reads this, registry, registry.slots, cons, BuffersOf(cons)
    {
      && |cons| == CON_MAX && AllValid(cons) && registry.Valid()
      && Agrees(Fds(), registry.Contents())
    }

    /** Four free connections; the registry may already hold descriptors of others. */
    constructor (registry: Registry)
      requires registry.Valid() && forall fd :: !Registered(fd, registry.Contents())
      ensures Valid() && this.registry == registry && forall fd :: fd in Fds() ==> fd == FD_FREE
    {
      hide AllValid, Entries, NoDuplicates, Agrees;
      var four := FreeConnections();
      this.registry := registry;
      cons := four;
      new;
      AllFree(cons);
      NoneRegistered(Fds(), registry.Contents());
    }

    /** The first connection with the given descriptor. */
    method Lookup(fd: int) returns (r: Option<nat>)
      requires Valid()
      ensures Valid() && Fds() == old(Fds()) && registry.Contents() == old(registry.Contents())
      ensures forall i :: 0 <= i < |cons| ==> unchanged(cons[i])
      ensures match r
              case None => fd !in Fds()
              case Some(i) => i < |cons| && cons[i].fd == fd && forall j :: 0 <= j < i ==> cons[j].fd != fd
    {
      for i := 0 to |cons|
        invariant forall j :: 0 <= j < i ==> cons[j].fd != fd
      {
        if cons[i].fd == fd {
          return Some(i);
        }
      }
      r := None;
    }

    /** One read of connection `i`; nothing else changes. */
    method ReceiveAt(i: nat, n: int, bytes: Octets, memory: bool, accepted: bool) returns (outcome: Outcome)
      requires AllValid(cons) && i < |cons| && cons[i].fd != FD_FREE && -1 <= n <= |bytes| == cons[i].Requested()
      modifies cons[i], cons[i].Buffer()
      ensures AllValid(cons)
      ensures Fds() == if outcome == Failed then old(Fds())[i := FD_FREE] else old(Fds())
      ensures Received(cons[i], if n > 0 then bytes[..n] else [])
      ensures forall j :: 0 <= j < |cons| && j != i ==> unchanged(cons[j])
    {
      hide Deframe, Length, Pending;
      outcome := cons[i].Receive(n, bytes, memory, accepted);
    }

    /**
     * The callback of a connection that is ready for reading. If the connection fails, it is closed,
     * deregistered and its place becomes free.
     */
    method OnReadable(fd: int, n: int, bytes: Octets, memory: bool, accepted: bool) returns (outcome: Option<Outcome>)
      requires Valid() && fd != FD_FREE
      requires forall c :: c in cons && c.fd == fd ==> -1 <= n <= |bytes| == c.Requested()
      modifies cons, BuffersOf(cons), registry.slots
      ensures Valid()
      ensures outcome == None <==> !old(Registered(fd, registry.Contents()))
      ensures registry.Contents() ==
              if outcome == Some(Failed) then old(registry.Contents()) - {fd} else old(registry.Contents())
      ensures forall i :: 0 <= i < |cons| ==>
                if old(cons[i].fd) != fd then unchanged(cons[i])
                else Received(cons[i], if n > 0 then bytes[..n] else [])
                     && cons[i].fd == if outcome == Some(Failed) then FD_FREE else fd
    {
      hide Entries, NoDuplicates, Agrees, AllValid, Deframe;
      ghost var fds, entries := Fds(), registry.Contents();
      UsedIsRegistered(fds, entries, fd);
      var con := Lookup(fd);
      if con == None {
        return None;
      }
      var i := con.value;
      UsedOnce(fds, entries, i);
      var result := ReceiveAt(i, n, bytes, memory, accepted);
      if result == Failed {
        var r := Registration(fd, None);
        assert r == 0;
        ConnectionClosed(fds, entries, i);
      }
      outcome := Some(result);
    }

    /** `fd_read_register`, which does not touch the connections. */
    method Registration(fd: int, cb: Option<Callback>) returns (r: int)
      requires AllValid(cons) && registry.Valid()
      modifies registry.slots
      ensures AllValid(cons) && registry.Valid() && Fds() == old(Fds())
      ensures forall i :: 0 <= i < |cons| ==> unchanged(cons[i])
      ensures var room := fd in old(registry.Contents()) || (cb.Some? && |old(registry.Contents())| < FD_REG_MAX);
              r == if fd > 0 && room then 0 else -1
      ensures registry.Contents() == if r != 0 then old(registry.Contents())
                                     else if cb == None then old(registry.Contents()) - {fd}
                                     else old(registry.Contents())[fd := Entry(cb, 0)]
    {
      hide Deframe, Pending, Registry.Contents, Registry.Valid;
      r := registry.Register(fd, cb, 0);
    }

    method OpenAt(i: nat, newFd: int)
      requires AllValid(cons) && i < |cons| && cons[i].fd == FD_FREE && newFd != FD_FREE
      modifies cons[i]
      ensures AllValid(cons) && Fds() == old(Fds())[i := newFd]
    {
      cons[i].Open(newFd);
    }

    /**
     * The callback of the listening socket; `newFd` is what accept() returns: -1 or a descriptor that
     * no open connection has.
     */
    method OnAccept(newFd: int) returns (accepted: bool)
      requires Valid() && (newFd < 0 || newFd !in Fds())
      modifies cons, registry.slots
      ensures Valid()
      ensures accepted == (newFd > 0 && FD_FREE in old(Fds())
                           && (newFd in old(registry.Contents()) || |old(registry.Contents())| < 32))
      ensures |cons| == 4
      ensures registry.Contents() == if accepted then old(registry.Contents())[newFd := Entry(Some(JsonConnection), 0)]
                                     else old(registry.Contents())
      ensures multiset(Fds()) ==
              if accepted then old(multiset(Fds())) - multiset{FD_FREE} + multiset{newFd} else old(multiset(Fds()))
      ensures forall i :: 0 <= i < |cons| && old(cons[i].fd) != FD_FREE ==> unchanged(cons[i])
    {
      hide Entries, NoDuplicates, Agrees, AllValid;
      ghost var fds, entries := Fds(), registry.Contents();
      var con := Lookup(FD_FREE);
      if con == None || newFd < 0 {
        return false;
      }
      var r := Registration(newFd, Some(JsonConnection));
      if r < 0 {
        return false;
      }
      var i := con.value;
      ConnectionAccepted(fds, entries, i, newFd);
      OpenAt(i, newFd);
      accepted := true;
    }
  }

  /** The history of a connection goes on by what was read; what was handed on is what it decodes to. */
  twostate predicate Received(c: Connection, data: Octets)
    reads c
  {
    && c.received == old(c.received) + data
    && (c.sound ==> old(c.sound) && c.delivered == Deframe(c.received).requests)
  }

  ghost function FdsOf(cons: seq<Connection>): (fds: seq<int>)
    reads cons
    ensures |fds| == |cons| && forall i :: 0 <= i < |cons| ==> fds[i] == cons[i].fd
  {
    if cons == [] then [] else FdsOf(cons[..|cons| - 1]) + [cons[|cons| - 1].fd]
  }

  lemma UsedOnce(fds: seq<int>, entries: map<int, Entry>, i: nat)
    requires Agrees(fds, entries) && i < |fds| && fds[i] != FD_FREE
    ensures forall j :: 0 <= j < |fds| && fds[j] == fds[i] ==> j == i
  {
  }

  lemma UsedIsRegistered(fds: seq<int>, entries: map<int, Entry>, fd: int)
    requires Agrees(fds, entries) && fd != FD_FREE
    ensures fd in fds <==> Registered(fd, entries)
  {
  }

  lemma AllFree(cons: seq<Connection>)
    requires forall i :: 0 <= i < |cons| ==> cons[i].Free()
    requires forall i, j :: 0 <= i < j < |cons| ==> cons[i] != cons[j]
    ensures AllValid(cons)
  {
  }

  lemma NoneRegistered(fds: seq<int>, entries: map<int, Entry>)
    requires (forall i :: 0 <= i < |fds| ==> fds[i] == FD_FREE) && forall fd :: !Registered(fd, entries)
    ensures Agrees(fds, entries)
  {
  }

  /** What another module registers or deregisters keeps the agreement exactly if it is no connection's descriptor. */
  lemma OthersKeepAgreement(fds: seq<int>, entries: map<int, Entry>, fd: int, entry: Option<Entry>)
    requires Agrees(fds, entries) && fd > 0 && (entry.Some? ==> entry.value.cb != Some(JsonConnection))
    ensures Agrees(fds, if entry == None then entries - {fd} else entries[fd := entry.value]) <==> fd !in fds
  {
    var now := if entry == None then entries - {fd} else entries[fd := entry.value];
    if fd in fds {
      assert !Registered(fd, now);
    } else {
      assert forall g :: Registered(g, now) <==> Registered(g, entries) && g != fd;
    }
  }

  lemma ConnectionClosed(fds: seq<int>, entries: map<int, Entry>, i: nat)
    requires i < |fds| && Agrees(fds, entries) && fds[i] != FD_FREE
    ensures Agrees(fds[i := FD_FREE], entries - {fds[i]})
  {
    var now := fds[i := FD_FREE];
    forall fd | Registered(fd, entries - {fds[i]})
      ensures fd in now
    {
      assert Registered(fd, entries);
      var j :| 0 <= j < |fds| && fds[j] == fd;
      assert now[j] == fd;
    }
  }

  lemma ConnectionAccepted(fds: seq<int>, entries: map<int, Entry>, i: nat, fd: int)
    requires i < |fds| && Agrees(fds, entries) && fds[i] == FD_FREE && fd > 0 && fd !in fds
    ensures var now := fds[i := fd];
            && Agrees(now, entries[fd := Entry(Some(JsonConnection), 0)])
            && multiset(now) == multiset(fds) - multiset{FD_FREE} + multiset{fd}
  {
    var now, entries' := fds[i := fd], entries[fd := Entry(Some(JsonConnection), 0)];
    assert now[i] == fd;
    forall g | Registered(g, entries')
      ensures g in now
    {
      if g != fd {
        assert Registered(g, entries);
        var j :| 0 <= j < |fds| && fds[j] == g;
        assert now[j] == g;
      }
    }
  }
}
