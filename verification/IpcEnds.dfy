/**
 * The two ends of the command socket. Reads and writes take any number of bytes at a time; the
 * blocks, messages, requests and replies built from them do not depend on it.
 */
module IpcEnds {
  import opened CText
  import opened Sequences
  import opened MfiOctets
  import opened IpcWire

  /** `b` with `piece` written over it from `at` on. */
  function Splice(b: Octets, at: nat, piece: Octets): (r: Octets)
    requires at + |piece| <= |b|
    ensures |r| == |b|
  {
    b[..at] + piece + b[at + |piece|..]
  }

  /** Where bytes come from: all that the other end will send before it closes. */
  class Source {
    var data: Octets
    // A read has failed
    var broken: bool

    constructor (data: Octets)
      ensures this.data == data && !broken
    {
      this.data, broken := data, false;
    }

    /** `read`: any number of the available bytes, none only at the end, or -1. */
    method Read(buf: array<byte>, at: nat, n: nat) returns (res: int)
      requires 0 < n && at + n <= buf.Length
      modifies this, buf
      ensures -1 <= res <= n && broken == (old(broken) || res == -1)
      ensures res >= 0 ==> res <= |old(data)| && data == old(data)[res..] && (res == 0 <==> old(data) == [])
      ensures res >= 0 ==> buf[..] == Splice(old(buf[..]), at, old(data)[..res])
      ensures res < 0 ==> data == old(data)
    {
      var k :| -1 <= k <= n && k <= |data| && (k == 0 <==> data == []);
      if k < 0 {
        broken := true;
        return -1;
      }
      forall i | 0 <= i < k {
        buf[at + i] := data[i];
      }
      assert buf[..] == Splice(old(buf[..]), at, data[..k]);
      data := data[k..];
      res := k;
    }
  }

  class Sink {
    var written: Octets
    // A write has failed
    var broken: bool

    constructor ()
      ensures written == [] && !broken
    {
      written, broken := [], false;
    }

    /** `write`: at least one of the bytes, or -1. */
    method Write(b: Octets) returns (res: int)
      requires b != []
      modifies this
      ensures res == -1 || 0 < res <= |b|
      ensures broken == (old(broken) || res < 0)
      ensures written == old(written) + (if res < 0 then [] else b[..res])
    {
      var k: int := *;
      if k <= 0 || k > |b| {
        broken := true;
        return -1;
      }
      written := written + b[..k];
      res := k;
    }
  }

  /** Reads `s` bytes, or fewer at the end of the data. */
  method ReadBlock(src: Source, buf: array<byte>, s: nat) returns (c: int)
    requires s <= buf.Length
    modifies src, buf
    ensures src.broken <==> old(src.broken) || c < 0
    ensures c >= 0 ==> c == Min(s, |old(src.data)|) && src.data == old(src.data)[c..]
    ensures c >= 0 ==> buf[..] == Splice(old(buf[..]), 0, old(src.data)[..c])
  {
    hide Filled, Splice;
    ghost var d, was := src.data, buf[..];
    var left := s;
    c := 0;
    NothingFilled(d, was);
    while left > 0
      invariant 0 <= c <= s && left == s - c
      invariant Filled(d, was, c, src.data, buf[..])
      invariant src.broken == old(src.broken)
      modifies src, buf
    {
      FilledSoFar(d, was, c, src.data, buf[..]);
      ghost var before, rest := buf[..], src.data;
      var res := src.Read(buf, c, left);
      if res < 0 {
        return -1;
      }
      MoreFilled(d, was, c, rest, before, res);
      if res == 0 {
        FilledSoFar(d, was, c, src.data, buf[..]);
        return c;
      }
      c := c + res;
      left := left - res;
    }
    FilledSoFar(d, was, c, src.data, buf[..]);
  }

  /** The first `c` bytes of the data `d` are in the buffer, and the others are still to come. */
  ghost predicate Filled(d: Octets, was: Octets, c: nat, left: Octets, buf: Octets) {
    c <= |d| && c <= |was| && left == d[c..] && buf == Splice(was, 0, d[..c])
  }

  lemma NothingFilled(d: Octets, was: Octets)
    ensures Filled(d, was, 0, d, was)
  {
  }

  lemma FilledSoFar(d: Octets, was: Octets, c: nat, left: Octets, buf: Octets)
    requires Filled(d, was, c, left, buf)
    ensures c <= |d| && c <= |was| && left == d[c..] && |left| == |d| - c && buf == Splice(was, 0, d[..c])
  {
    hide Splice;
  }

  lemma MoreFilled(d: Octets, was: Octets, c: nat, left: Octets, buf: Octets, n: nat)
    requires Filled(d, was, c, left, buf) && n <= |left| && c + n <= |was|
    ensures |buf| == |was| && Filled(d, was, c + n, left[n..], Splice(buf, c, left[..n]))
  {
    var now := Splice(buf, c, left[..n]);
    assert d[..c] + left[..n] == d[..c + n];
    assert forall i :: 0 <= i < |was| ==> now[i] == Splice(was, 0, d[..c + n])[i];
  }

  /** Writes all of `b`, unless a write fails. */
  method WriteBlock(sink: Sink, b: Octets) returns (c: int)
    modifies sink
    ensures c == |b| || c == -1
    ensures sink.broken <==> old(sink.broken) || c < 0
    ensures c >= 0 ==> sink.written == old(sink.written) + b
    ensures old(sink.written) <= sink.written
  {
    ghost var was := sink.written;
    var rest := b;
    c := 0;
    while rest != []
      invariant 0 <= c <= |b| && rest == b[c..] && sink.written == was + b[..c]
      invariant sink.broken == old(sink.broken)
      decreases |rest|
      modifies sink
    {
      var res := sink.Write(rest);
      if res < 0 {
        return -1;
      }
      assert b[..c] + b[c..][..res] == b[..c + res];
      rest := rest[res..];
      c := c + res;
    }
  }

  // ---------------------------------------------------------------------------------------
  // The server
  // ---------------------------------------------------------------------------------------

  // Whether the k-th allocation succeeds
  type Memory = nat -> bool

  /** Reads a request; None if it is refused, or if memory runs out. */
  method ReadRequest(src: Source, memory: Memory) returns (argv: Option<seq<Octets>>)
    requires !src.broken
    modifies src
    ensures src.broken ==> argv == None
    ensures !src.broken ==> argv == ParseRequest(old(src.data)) || (argv == None && exists k :: !memory(k))
  {
    hide U32, ParseArguments;
    ghost var d := src.data;
    var m := new byte[HDR](_ => 0);
    var res := ReadBlock(src, m, HDR);
    if res != HDR {
      return None;
    }
    SameNumbers(m[..], d);
    if U32(m[..], 0) != IPC_ARG_CNT || U32(m[..], 4) != 4 {
      return None;
    }
    var number := new byte[4](_ => 0);
    res := ReadBlock(src, number, 4);
    if res != 4 {
      return None;
    }
    var argc := U32(number[..], 0);
    NumberBehind(number[..], d);
    if Signed(argc) < 0 || !memory(0) {
      return None;
    }
    assert d[HDR..][4..] == d[HDR + 4..];
    argv := ReadArguments(src, argc, memory);
  }

  lemma SameNumbers(m: Octets, d: Octets)
    requires |m| == HDR <= |d| && m == d[..HDR]
    ensures U32(m, 0) == U32(d, 0) && U32(m, 4) == U32(d, 4)
  {
    hide Le32;
    assert forall i :: 0 <= i < HDR ==> m[i] == d[i];
  }

  lemma NumberBehind(number: Octets, d: Octets)
    requires |d| >= HDR + 4 && number == d[HDR..][..4]
    ensures U32(number, 0) == U32(d, HDR)
  {
    assert forall i :: 0 <= i < 4 ==> number[i] == d[HDR + i];
  }

  method ReadArguments(src: Source, argc: nat, memory: Memory) returns (argv: Option<seq<Octets>>)
    requires !src.broken
    modifies src
    ensures src.broken ==> argv == None
    ensures !src.broken ==> argv == ParseArguments(old(src.data), argc) || (argv == None && exists k :: !memory(k))
  {
    hide U32, ParseArguments;
    ghost var d := src.data;
    var args: seq<Octets> := [];
    NothingBefore(ParseArguments(d, argc));
    for i := 0 to argc
      invariant !src.broken
      invariant ParseArguments(d, argc) == Behind(args, ParseArguments(src.data, argc - i))
      modifies src
    {
      ghost var all := ParseArguments(src.data, argc - i);
      var one := ReadArgument(src, argc - i, memory(i + 1));
      if one == None {
        return None;
      }
      OneMore(args, one.value, all, ParseArguments(src.data, argc - i - 1));
      args := args + [one.value];
    }
    NoArguments(src.data);
    assert args + [] == args;
    argv := Some(args);
  }

  ghost function Behind(done: seq<Octets>, more: Option<seq<Octets>>): Option<seq<Octets>> {
    if more == None then None else Some(done + more.value)
  }

  lemma NothingBefore(more: Option<seq<Octets>>)
    ensures Behind([], more) == more
  {
    if more.Some? {
      assert [] + more.value == more.value;
    }
  }

  lemma OneMore(done: seq<Octets>, p: Octets, all: Option<seq<Octets>>, more: Option<seq<Octets>>)
    requires all == Behind([p], more)
    ensures Behind(done, all) == Behind(done + [p], more)
  {
    if more.Some? {
      assert done + ([p] + more.value) == done + [p] + more.value;
    }
  }

  /** One argument, when `n` are left. */
  method ReadArgument(src: Source, n: nat, memory: bool) returns (one: Option<Octets>)
    requires !src.broken && n > 0
    modifies src
    ensures src.broken ==> one == None
    ensures !src.broken ==>
              match one
              case None => !memory || ParseArguments(old(src.data), n) == None
              case Some(p) => ParseArguments(old(src.data), n) == Behind([p], ParseArguments(src.data, n - 1))
  {
    hide U32;
    ghost var d := src.data;
    var m := new byte[HDR](_ => 0);
    var res := ReadBlock(src, m, HDR);
    if res != HDR {
      return None;
    }
    SameNumbers(m[..], d);
    var len := U32(m[..], 4);
    if U32(m[..], 0) != IPC_ARG || len <= 0 || !memory {
      return None;
    }
    var arg := new byte[len](_ => 0);
    res := ReadBlock(src, arg, len);
    if res != len {
      return None;
    }
    assert arg[..] == d[HDR..][..len] == d[HDR..HDR + len];
    assert arg[len - 1] == d[HDR + len - 1];
    assert d[HDR..][len..] == d[HDR + len..];
    if arg[len - 1] != 0 {
      return None;
    }
    one := Some(arg[..]);
  }

  /** Prints a text on the client's side. */
  method Print(sink: Sink, text: Octets) returns (c: int)
    requires !sink.broken
    modifies sink
    ensures !sink.broken ==> sink.written == old(sink.written) + Message(IPC_STDOUT, text)
    ensures old(sink.written) <= sink.written
  {
    c := WriteBlock(sink, Message(IPC_STDOUT, text));
  }

  /** Sends what a command prints and its return value. */
  method SendReply(sink: Sink, texts: seq<Octets>, value: int)
    requires !sink.broken
    modifies sink
    ensures !sink.broken ==> sink.written == old(sink.written) + Reply(texts, value)
  {
    hide Message, Le32;
    ghost var was := sink.written;
    NothingPrinted();
    for i := 0 to |texts|
      invariant !sink.broken ==> sink.written == was + Printed(texts[..i])
      modifies sink
    {
      assert texts[..i + 1] == texts[..i] + [texts[i]];
      PrintedMore(texts[..i], texts[i]);
      Regroup(was, Printed(texts[..i]), Message(IPC_STDOUT, texts[i]));
      if !sink.broken {
        var c := Print(sink, texts[i]);
      }
    }
    assert texts[..|texts|] == texts;
    Regroup(was, Printed(texts), Message(IPC_RETURN, Le32(value)));
    if !sink.broken {
      MessageParts(IPC_RETURN, Le32(value));
      Regroup(sink.written, Le32(IPC_RETURN) + Le32(4), Le32(value));
      var c := WriteBlock(sink, Le32(IPC_RETURN) + Le32(4));
      if c < 0 {
        return;
      }
      c := WriteBlock(sink, Le32(value));
    }
  }

  lemma NothingPrinted()
    ensures Printed([]) == []
  {
  }

  lemma {:induction false} PrintedMore(texts: seq<Octets>, text: Octets)
    ensures Printed(texts + [text]) == Printed(texts) + Message(IPC_STDOUT, text)
  {
    hide Message;
    if texts == [] {
      assert Printed([text]) == Message(IPC_STDOUT, text) + Printed([]);
      assert texts + [text] == [text];
    } else {
      PrintedMore(texts[1..], text);
      assert (texts + [text])[1..] == texts[1..] + [text];
      Regroup(Message(IPC_STDOUT, texts[0]), Printed(texts[1..]), Message(IPC_STDOUT, text));
    }
  }

  lemma MessageParts(t: nat, p: Octets)
    ensures Message(t, p) == (Le32(t) + Le32(|p|)) + p
  {
  }

  // ---------------------------------------------------------------------------------------
  // The client
  // ---------------------------------------------------------------------------------------

  method WriteTlv(sink: Sink, b: Octets, t: nat) returns (ok: bool)
    requires !sink.broken
    modifies sink
    ensures ok == !sink.broken
    ensures ok ==> sink.written == old(sink.written) + Message(t, b)
  {
    hide Le32;
    MessageParts(t, b);
    Regroup(sink.written, Le32(t) + Le32(|b|), b);
    var c := WriteBlock(sink, Le32(t) + Le32(|b|));
    if c < 0 {
      return false;
    }
    c := WriteBlock(sink, b);
    ok := c >= 0;
  }

  const INPUT_STEP: nat := 1024

  /** A larger buffer with the same contents. */
  method Grow(b: array<byte>) returns (larger: array<byte>)
    ensures fresh(larger) && larger.Length == b.Length + INPUT_STEP && larger[..b.Length] == b[..]
  {
    larger := new byte[b.Length + INPUT_STEP](_ => 0);
    forall i | 0 <= i < b.Length {
      larger[i] := b[i];
    }
  }

  /** Reads all of standard input into a buffer that grows as needed, and terminates it. */
  method ReadInput(src: Source) returns (ok: bool, text: Octets)
    requires !src.broken
    modifies src
    ensures ok == !src.broken
    ensures ok ==> text == old(src.data) + [0]
  {
    hide Splice;
    ghost var d := src.data;
    var b := new byte[INPUT_STEP](_ => 0);
    var valid := 0;
    while true
      invariant fresh(b) && valid <= b.Length && valid <= |d|
      invariant b[..valid] == d[..valid] && src.data == d[valid..] && !src.broken
      decreases |src.data|
      modifies src, b
    {
      if valid == b.Length {
        b := Grow(b);
      }
      ghost var before, rest := b[..], src.data;
      var res := src.Read(b, valid, b.Length - valid);
      if res < 0 {
        return false, [];
      }
      InputGrows(d, before, valid, res);
      if res == 0 {
        break;
      }
      valid := valid + res;
    }
    if valid == b.Length {
      b := Grow(b);
    }
    b[valid] := 0;
    ok, text := true, b[..valid + 1];
  }

  lemma InputGrows(d: Octets, before: Octets, valid: nat, n: nat)
    requires valid + n <= |d| && valid + n <= |before| && before[..valid] == d[..valid]
    ensures d[valid..][n..] == d[valid + n..]
    ensures Splice(before, valid, d[valid..][..n])[..valid + n] == d[..valid + n]
    ensures d[valid..] == [] ==> d[..valid] == d
  {
    assert d[..valid] + d[valid..][..n] == d[..valid + n];
  }

  /** Sends the arguments, and what standard input holds as one more if there is one to read. */
  method SendRequest(sink: Sink, args: seq<Octets>, input: Source?) returns (ok: bool)
    requires !sink.broken && (input != null ==> !input.broken)
    modifies sink, if input == null then {} else {input}
    ensures ok == (!sink.broken && (input != null ==> !input.broken))
    ensures ok ==> sink.written == old(sink.written) + Request(args + if input == null then [] else [old(input.data)])
  {
    hide Message, Le32;
    ghost var all := args + if input == null then [] else [input.data];
    ghost var was := sink.written;
    var count := |args| + if input == null then 0 else 1;
    ok := WriteTlv(sink, Le32(count), IPC_ARG_CNT);
    if !ok {
      return;
    }
    ghost var opening := sink.written;
    NoneSent();
    for i := 0 to |args|
      invariant !sink.broken && sink.written == opening + Arguments(args[..i])
      modifies sink
    {
      assert args[..i + 1] == args[..i] + [args[i]];
      OneSent(args[..i], args[i]);
      Regroup(opening, Arguments(args[..i]), Message(IPC_ARG, args[i] + [0]));
      ok := WriteTlv(sink, args[i] + [0], IPC_ARG);
      if !ok {
        return;
      }
    }
    assert args[..|args|] == args;
    if input != null {
      OneSent(args, input.data);
      Regroup(opening, Arguments(args), Message(IPC_ARG, input.data + [0]));
      var text;
      ok, text := ReadInput(input);
      if !ok {
        return;
      }
      ok := WriteTlv(sink, text, IPC_ARG);
      if !ok {
        return;
      }
    } else {
      assert all == args;
    }
    Regroup(was, Message(IPC_ARG_CNT, Le32(|all|)), Arguments(all));
    ok := true;
  }

  lemma NoneSent()
    ensures Arguments([]) == []
  {
  }

  lemma {:induction false} OneSent(args: seq<Octets>, a: Octets)
    ensures Arguments(args + [a]) == Arguments(args) + Message(IPC_ARG, a + [0])
  {
    hide Message;
    if args == [] {
      assert Arguments([a]) == Message(IPC_ARG, a + [0]) + Arguments([]);
      assert args + [a] == [a];
    } else {
      OneSent(args[1..], a);
      assert (args + [a])[1..] == args[1..] + [a];
      Regroup(Message(IPC_ARG, args[0] + [0]), Arguments(args[1..]), Message(IPC_ARG, a + [0]));
    }
  }

  const COPY_BUF: nat := 1024

  /** Copies `cnt` bytes, or fewer at the end of the data. */
  method CopyTo(src: Source, sink: Sink, cnt: int)
    requires !src.broken
    modifies src, sink
    ensures !src.broken ==> var k := if cnt <= 0 then 0 else Min(cnt, |old(src.data)|);
                            && src.data == old(src.data)[k..]
                            && (!sink.broken ==> sink.written == old(sink.written) + old(src.data)[..k])
    ensures old(sink.broken) ==> sink.broken
  {
    ghost var d, was, done := src.data, sink.written, 0;
    var left := cnt;
    var buf := new byte[COPY_BUF](_ => 0);
    NothingCopied(was, d);
    while left > 0
      invariant 0 <= done <= |d| && left == cnt - done && (left >= 0 || done == 0)
      invariant src.data == d[done..] && !src.broken
      invariant !sink.broken ==> sink.written == was + d[..done]
      invariant old(sink.broken) ==> sink.broken
      modifies src, sink, buf
    {
      var res := src.Read(buf, 0, Min(COPY_BUF, left));
      if res < 0 {
        return;
      }
      if res == 0 {
        return;
      }
      MoreCopied(was, d, done, res);
      assert buf[..res] == d[done..][..res];
      var c := WriteBlock(sink, buf[..res]);
      left := left - res;
      done := done + res;
    }
  }

  lemma NothingCopied(was: Octets, d: Octets)
    ensures was + d[..0] == was && d[0..] == d
  {
  }

  lemma MoreCopied(was: Octets, d: Octets, done: nat, n: nat)
    requires done + n <= |d|
    ensures was + d[..done] + d[done..][..n] == was + d[..done + n] && d[done..][n..] == d[done + n..]
  {
  }

  /** The loop over the server's replies; the four bytes of the exit code. */
  method ShowReplies(src: Source, out: Sink, err: Sink) returns (code: Octets)
    requires !src.broken && out != err
    modifies src, out, err
    ensures !src.broken ==>
              var shown := Shown(old(src.data), FAILURE);
              && code == shown.code
              && (!out.broken ==> out.written == old(out.written) + shown.out)
              && (!err.broken ==> err.written == old(err.written) + shown.err)
  {
    hide U32, Shown;
    ghost var all := Shown(src.data, FAILURE);
    ghost var outWas, errWas := out.written, err.written;
    ghost var shownOut, shownErr: Octets := [], [];
    code := FAILURE;
    ShownNothing(all, outWas);
    ShownNothing(all, errWas);
    while true
      invariant !src.broken && |code| == 4
      invariant all == Joined(shownOut, shownErr, Shown(src.data, code))
      invariant !out.broken ==> out.written == outWas + shownOut
      invariant !err.broken ==> err.written == errWas + shownErr
      decreases |src.data|
      modifies src, out, err
    {
      ghost var d := src.data;
      var m := new byte[HDR](_ => 0);
      ShownStart(d, code);
      ShownNothing(all, shownOut);
      ShownNothing(all, shownErr);
      var res := ReadBlock(src, m, HDR);
      if res == 0 {
        return;
      } else if res != HDR {
        return FAILURE;
      }
      SameNumbers(m[..], d);
      ghost var outNow, errNow := out.written, err.written;
      var ok; ghost var text; ghost var error;
      code, ok, text, error := ShowOne(src, out, err, U32(m[..], 0), U32(m[..], 4), code, d);
      if !ok {
        return;
      }
      Twice(shownOut, shownErr, text, error, Shown(src.data, code));
      Regroup(outWas, shownOut, text);
      Regroup(errWas, shownErr, error);
      shownOut, shownErr := shownOut + text, shownErr + error;
    }
  }

  /** One reply, with type `t` and length `len`, after its header: adds to both outputs and may set the exit code. */
  method ShowOne(src: Source, out: Sink, err: Sink, t: nat, len: nat, code: Octets, ghost d: Octets)
    returns (now: Octets, ok: bool, ghost text: Octets, ghost error: Octets)
    requires !src.broken && out != err && |code| == 4
    requires |d| >= HDR && t == U32(d, 0) && len == U32(d, 4) && src.data == d[HDR..]
    modifies src, out, err
    ensures |now| == 4 && (ok ==> !src.broken && |src.data| < |d|)
    ensures ok ==> Shown(d, code) == Joined(text, error, Shown(src.data, now))
    ensures !ok && !src.broken ==> Shown(d, code) == Output([], [], now) && text == error == []
    ensures !src.broken && !out.broken ==> !old(out.broken) && out.written == old(out.written) + text
    ensures !src.broken && !err.broken ==> !old(err.broken) && err.written == old(err.written) + error
  {
    hide U32, Shown, Splice;
    now, ok, text, error := code, true, [], [];
    ghost var n := CopyCount(d, len);
    ShownStep(d, code);
    MoreShown(d, n, out.written, err.written);
    if t == IPC_STDOUT {
      CopyTo(src, out, Signed(len));
      text := d[HDR..HDR + n];
    } else if t == IPC_STDERR {
      CopyTo(src, err, Signed(len));
      error := d[HDR..HDR + n];
    } else if t == IPC_RETURN {
      var value := new byte[4](i requires 0 <= i < 4 => code[i]);
      CodeRead(d, code, value[..]);
      var res := ReadBlock(src, value, 4);
      now := value[..];
    } else {
      return FAILURE, false, [], [];
    }
    if src.broken {
      return FAILURE, false, [], [];
    }
  }

  lemma Twice(a: Octets, b: Octets, c: Octets, d: Octets, more: Output)
    ensures Joined(a, b, Joined(c, d, more)) == Joined(a + c, b + d, more)
  {
    Regroup(a, c, more.out);
    Regroup(b, d, more.err);
  }

  lemma ShownNothing(more: Output, x: Octets)
    ensures x + [] == x && Joined([], [], more) == more
  {
    assert [] + more.out == more.out && [] + more.err == more.err;
  }

  lemma ShownStart(d: Octets, code: Octets)
    requires |code| == 4
    ensures d == [] ==> Shown(d, code) == Output([], [], code)
    ensures 0 < |d| < HDR ==> Shown(d, code) == Output([], [], FAILURE)
  {
  }

  lemma ShownStep(d: Octets, code: Octets)
    requires |code| == 4 && |d| >= HDR
    ensures var t, n := U32(d, 0), CopyCount(d, U32(d, 4));
            var text, k := d[HDR..HDR + n], Min(4, |d| - HDR);
            Shown(d, code) ==
            if t == IPC_STDOUT then Joined(text, [], Shown(d[HDR + n..], code))
            else if t == IPC_STDERR then Joined([], text, Shown(d[HDR + n..], code))
            else if t == IPC_RETURN then Joined([], [], Shown(d[HDR + k..], d[HDR..HDR + k] + code[k..]))
            else Output([], [], FAILURE)
  {
    hide U32;
    var n, k := CopyCount(d, U32(d, 4)), Min(4, |d| - HDR);
    ShownNothing(Shown(d[HDR + n..], code), []);
    ShownNothing(Shown(d[HDR + k..], d[HDR..HDR + k] + code[k..]), []);
    var more := Shown(d[HDR + n..], code);
    assert [] + more.out == more.out && [] + more.err == more.err;
  }

  lemma MoreShown(d: Octets, n: nat, out: Octets, err: Octets)
    requires HDR + n <= |d|
    ensures out + [] == out && err + [] == err
    ensures d[HDR..][..n] == d[HDR..HDR + n] && d[HDR..][n..] == d[HDR + n..]
  {
  }

  lemma CodeRead(d: Octets, code: Octets, value: Octets)
    requires |d| >= HDR && |code| == |value| == 4 && forall i :: 0 <= i < 4 ==> value[i] == code[i]
    ensures var k := Min(4, |d| - HDR);
            Splice(value, 0, d[HDR..][..k]) == d[HDR..HDR + k] + code[k..] && d[HDR..][k..] == d[HDR + k..]
  {
    assert value == code;
  }

  ghost function Joined(out: Octets, err: Octets, more: Output): Output {
    Output(out + more.out, err + more.err, more.code)
  }

  // ---------------------------------------------------------------------------------------
  // Both ends together
  // ---------------------------------------------------------------------------------------

  /** The two directions of a connection, each with the end that writes and the end that reads. */
  datatype Connection = Connection(request: Sink, requestIn: Source, reply: Sink, replyIn: Source)

  ghost predicate Works(con: Connection)
    reads con.request, con.requestIn, con.reply, con.replyIn
  {
    !con.request.broken && !con.requestIn.broken && !con.reply.broken && !con.replyIn.broken
  }

  /**
   * A whole exchange, in any number of reads and writes: unless one of them fails or memory runs out,
   * the client shows what the command does for the client's own arguments, and exits with its value.
   */
  method RunCommand(args: seq<Octets>, input: Source?, command: seq<Octets> -> Behaviour, memory: Memory,
                    out: Sink, err: Sink)
    returns (con: Connection, code: Octets)
    requires out != err && !out.broken && !err.broken && (input != null ==> !input.broken)
    modifies out, err, if input == null then {} else {input}
    ensures fresh({con.request, con.requestIn, con.reply, con.replyIn})
    ensures var all := args + if input == null then [] else [old(input.data)];
            var b := command(Terminated(all));
            && Sendable(all) && (forall t :: t in b.texts ==> |t| < 0x8000_0000) && (forall k :: memory(k))
            && Works(con) && (input != null ==> !input.broken) && !out.broken && !err.broken ==>
              && out.written == old(out.written) + Concat(b.texts) && err.written == old(err.written)
              && code == Le32(b.value)
  {
    hide ParseRequest, Request, Reply, Shown, Le32, Terminated;
    ghost var all := args + if input == null then [] else [input.data];
    var request := new Sink();
    var reply := new Sink();
    var requestIn := new Source([]);
    var replyIn := new Source([]);
    con, code := Connection(request, requestIn, reply, replyIn), FAILURE;
    var sent := SendRequest(request, args, input);
    if !sent {
      return;
    }
    requestIn.data := request.written;
    assert request.written == Request(all) by { assert [] + Request(all) == Request(all); }
    var argv := ReadRequest(requestIn, memory);
    Accepted(all);
    if argv == None {
      return;
    }
    var b := command(argv.value);
    SendReply(reply, b.texts, b.value);
    if reply.broken {
      return;
    }
    replyIn.data := reply.written;
    assert reply.written == Reply(b.texts, b.value) by {
      assert [] + Reply(b.texts, b.value) == Reply(b.texts, b.value);
    }
    code := ShowReplies(replyIn, out, err);
    Answered(b);
  }

  lemma Accepted(all: seq<Octets>)
    ensures Sendable(all) ==> ParseRequest(Request(all)) == Some(Terminated(all))
  {
    hide ParseRequest, Request;
    if Sendable(all) {
      RequestRoundTrip(all, []);
      assert Request(all) + [] == Request(all);
    }
  }

  lemma Answered(b: Behaviour)
    ensures (forall t :: t in b.texts ==> |t| < 0x8000_0000) ==>
              Shown(Reply(b.texts, b.value), FAILURE) == Output(Concat(b.texts), [], Le32(b.value))
    ensures forall was: Octets :: was + [] == was
  {
    hide Shown, Reply, Le32;
    if forall t :: t in b.texts ==> |t| < 0x8000_0000 {
      ReplyRoundTrip(b.texts, b.value, FAILURE);
    }
  }
}
