/** A stream of requests: each a big-endian 32-bit length and as many bytes. */
module JsonFraming {
  import opened Sequences

  const HDR_LEN: nat := 4
  const MAX_LEN: int := 100 * 1024

  function Be32(n: nat): (d: Octets)
    ensures |d| == HDR_LEN
  {
    [n / 0x100_0000 % 256, n / 0x1_0000 % 256, n / 0x100 % 256, n % 256]
  }

  /** `ntohl` of the header. */
  function Length(hdr: Octets): (n: nat)
    requires |hdr| == HDR_LEN
  {
    var b0: int, b1: int, b2: int, b3: int := hdr[0], hdr[1], hdr[2], hdr[3];
    b0 * 0x100_0000 + b1 * 0x1_0000 + b2 * 0x100 + b3
  }

  predicate LegalLength(n: int) {
    0 < n <= MAX_LEN
  }

  /** The complete requests at the front of a stream, and what follows them. */
  datatype Deframed = Deframed(requests: seq<Octets>, rest: Octets)

  /** A request is complete at the front of `d`. */
  predicate Complete(d: Octets) {
    |d| >= HDR_LEN && LegalLength(Length(d[..HDR_LEN])) && |d| >= HDR_LEN + Length(d[..HDR_LEN])
  }

  function Deframe(d: Octets): Deframed
    decreases |d|
  {
    if !Complete(d) then Deframed([], d)
    else
      var n := HDR_LEN + Length(d[..HDR_LEN]);
      var more := Deframe(d[n..]);
      Deframed([d[HDR_LEN..n]] + more.requests, more.rest)
  }

  function Frames(requests: seq<Octets>): Octets {
    if requests == [] then [] else Be32(|requests[0]|) + requests[0] + Frames(requests[1..])
  }

  lemma LengthOfBe32(n: nat)
    requires n < 0x1_0000_0000
    ensures Length(Be32(n)) == n
  {
    assert n / 0x100 / 0x100 == n / 0x1_0000;
    assert n / 0x1_0000 / 0x100 == n / 0x100_0000;
  }

  lemma Be32OfLength(hdr: Octets)
    requires |hdr| == HDR_LEN
    ensures Be32(Length(hdr)) == hdr
  {
    var n := Length(hdr);
    var b0: int, b1: int, b2: int := hdr[0], hdr[1], hdr[2];
    assert n / 0x100 == b0 * 0x1_0000 + b1 * 0x100 + b2;
    assert n / 0x1_0000 == b0 * 0x100 + b1;
    assert n / 0x100_0000 == b0;
  }

  /** The header of a request: its length, most significant octet first. */
  lemma HeaderOctets(n: nat)
    requires n < 0x1_0000_0000
    ensures |Be32(n)| == 4
    ensures var h0: int, h1: int, h2: int, h3: int := Be32(n)[0], Be32(n)[1], Be32(n)[2], Be32(n)[3];
            ((h0 * 256 + h1) * 256 + h2) * 256 + h3 == n
    ensures n < 256 ==> Be32(n) == [0, 0, 0, n]
  {
    LengthOfBe32(n);
  }

  /** A short request is framed by three zero octets and its length. */
  lemma ShortFrame(m: Octets, more: seq<Octets>)
    requires |m| < 256
    ensures Frames([m] + more) == [0, 0, 0, |m|] + m + Frames(more)
  {
    hide Be32;
    HeaderOctets(|m|);
    assert ([m] + more)[1..] == more;
  }

  lemma LengthMeans(hdr: Octets)
    requires |hdr| == HDR_LEN
    ensures var h0: int, h1: int, h2: int, h3: int := hdr[0], hdr[1], hdr[2], hdr[3];
            Length(hdr) == ((h0 * 256 + h1) * 256 + h2) * 256 + h3
  {
  }

  /** Deframing undoes framing, whatever incomplete request follows. */
  lemma {:induction false} DeframeOfFrames(requests: seq<Octets>, rest: Octets)
    requires forall m :: m in requests ==> 0 < |m| <= 102400
    requires !Complete(rest)
    ensures Deframe(Frames(requests) + rest) == Deframed(requests, rest)
    decreases |requests|
  {
    hide Deframe, Be32;
    if requests == [] {
      assert [] + rest == rest;
      Undecoded(rest);
    } else {
      var tail := Frames(requests[1..]) + rest;
      DeframeOfFrames(requests[1..], rest);
      DeframeOne(requests[0], tail);
      Regroup(Be32(|requests[0]|) + requests[0], Frames(requests[1..]), rest);
    }
  }

  lemma Undecoded(d: Octets)
    requires !Complete(d)
    ensures Deframe(d) == Deframed([], d)
  {
  }

  lemma DeframeOne(m: Octets, tail: Octets)
    requires LegalLength(|m|)
    ensures Deframe(Be32(|m|) + m + tail) == Deframed([m] + Deframe(tail).requests, Deframe(tail).rest)
  {
    hide Length, Be32;
    var d := Be32(|m|) + m + tail;
    LengthOfBe32(|m|);
    assert d[..HDR_LEN] == Be32(|m|) && d[HDR_LEN..HDR_LEN + |m|] == m && d[HDR_LEN + |m|..] == tail;
  }

  /** Nothing gets lost: requests framed again, and the rest, make up the stream. */
  lemma {:induction false} FramesOfDeframe(d: Octets)
    ensures Frames(Deframe(d).requests) + Deframe(d).rest == d && !Complete(Deframe(d).rest)
    ensures forall m :: m in Deframe(d).requests ==> LegalLength(|m|)
    decreases |d|
  {
    hide Length, Be32;
    if !Complete(d) {
      assert [] + d == d;
    } else {
      var n := HDR_LEN + Length(d[..HDR_LEN]);
      var m, more := d[HDR_LEN..n], Deframe(d[n..]);
      FramesOfDeframe(d[n..]);
      Be32OfLength(d[..HDR_LEN]);
      assert d == d[..HDR_LEN] + m + d[n..];
      assert ([m] + more.requests)[1..] == more.requests;
      Regroup(Be32(|m|) + m, Frames(more.requests), more.rest);
    }
  }

  /** Deframing works piece by piece: what is left over meets what comes next. */
  lemma {:induction false} DeframeContinues(d: Octets, x: Octets)
    ensures var one := Deframe(d);
            var two := Deframe(one.rest + x);
            Deframe(d + x) == Deframed(one.requests + two.requests, two.rest)
    decreases |d|
  {
    hide Length;
    if !Complete(d) {
      assert [] + Deframe(d + x).requests == Deframe(d + x).requests;
    } else {
      var n := HDR_LEN + Length(d[..HDR_LEN]);
      DeframeContinues(d[n..], x);
      assert (d + x)[..HDR_LEN] == d[..HDR_LEN] && (d + x)[HDR_LEN..n] == d[HDR_LEN..n] && (d + x)[n..] == d[n..] + x;
      var more := Deframe(d[n..]);
      assert [d[HDR_LEN..n]] + (more.requests + Deframe(more.rest + x).requests)
          == [d[HDR_LEN..n]] + more.requests + Deframe(more.rest + x).requests;
    }
  }

  /** The receiver's view of an unfinished request: nothing, or a header and fewer bytes than it says. */
  function Pending(len: nat, part: Octets): Octets {
    if len == 0 then [] else Be32(len) + part
  }

  /** A legal header, after complete requests. */
  lemma HeaderArrives(stream: Octets, requests: seq<Octets>, hdr: Octets)
    requires Deframe(stream) == Deframed(requests, []) && |hdr| == HDR_LEN && LegalLength(Length(hdr))
    ensures Deframe(stream + hdr) == Deframed(requests, Pending(Length(hdr), []))
  {
    hide Length, Be32;
    DeframeContinues(stream, hdr);
    Be32OfLength(hdr);
    assert [] + hdr == hdr && hdr + [] == hdr && hdr[..HDR_LEN] == hdr && requests + [] == requests;
  }

  /** Something that is no legal header, after complete requests. */
  lemma NoHeaderArrives(stream: Octets, requests: seq<Octets>, bytes: Octets)
    requires Deframe(stream) == Deframed(requests, [])
    requires |bytes| < HDR_LEN || (|bytes| == HDR_LEN && !LegalLength(Length(bytes)))
    ensures Deframe(stream + bytes).requests == requests
  {
    hide Length;
    DeframeContinues(stream, bytes);
    assert [] + bytes == bytes && requests + [] == requests;
    assert |bytes| == HDR_LEN ==> bytes[..HDR_LEN] == bytes;
  }

  /** More bytes of a request, which they may complete. */
  lemma BytesArrive(stream: Octets, requests: seq<Octets>, len: nat, part: Octets, x: Octets)
    requires LegalLength(len) && Deframe(stream) == Deframed(requests, Pending(len, part)) && |part| + |x| <= len
    ensures Deframe(stream + x) == if |part| + |x| < len then Deframed(requests, Pending(len, part + x))
                                   else Deframed(requests + [part + x], [])
  {
    hide Length, Be32;
    DeframeContinues(stream, x);
    LengthOfBe32(len);
    var p := Pending(len, part) + x;
    assert p == Be32(len) + (part + x) && p[..HDR_LEN] == Be32(len);
    if |part| + |x| == len {
      assert p[HDR_LEN..HDR_LEN + len] == part + x && p[HDR_LEN + len..] == [];
      assert [part + x] + [] == [part + x];
    } else {
      assert requests + [] == requests;
    }
  }

  lemma {:induction false} FramesSnoc(requests: seq<Octets>, m: Octets)
    ensures Frames(requests + [m]) == Frames(requests) + (Be32(|m|) + m)
    decreases |requests|
  {
    hide Be32;
    if requests == [] {
      assert requests + [m] == [m] && Frames([m]) == Be32(|m|) + m + Frames([]);
    } else {
      FramesSnoc(requests[1..], m);
      assert (requests + [m])[1..] == requests[1..] + [m];
      Regroup(Be32(|requests[0]|) + requests[0], Frames(requests[1..]), Be32(|m|) + m);
    }
  }

  /** Bytes that follow complete requests are never a request by themselves: a header must come first. */
  lemma RequestIsWrong(stream: Octets, requests: seq<Octets>, x: Octets)
    requires Deframe(stream) == Deframed(requests, []) && x != []
    ensures Deframe(stream + x).requests != requests + [x]
  {
    hide Deframe, Be32;
    FramesOfDeframe(stream);
    FramesOfDeframe(stream + x);
    FramesSnoc(requests, x);
    assert |Frames(requests)| == |stream|;
  }
}
