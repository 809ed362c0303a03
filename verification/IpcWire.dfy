/**
 * What the command client and the CLI server say to each other: messages of type, length and
 * value, in the byte order of the machine (little-endian).
 */
module IpcWire {
  import opened CText
  import opened Sequences
  import opened MfiOctets
  import opened MfiStage1

  const IPC_STDOUT: nat := 0
  const IPC_STDERR: nat := 1
  const IPC_RETURN: nat := 2
  const IPC_ARG_CNT: nat := 3
  const IPC_ARG: nat := 4
  const HDR: nat := 8

  function Message(t: nat, p: Octets): (d: Octets)
    ensures |d| == HDR + |p|
  {
    Le32(t) + Le32(|p|) + p
  }

  lemma MessageFields(t: nat, p: Octets, rest: Octets)
    requires t < UINT32_MODULUS && |p| < UINT32_MODULUS
    ensures var d := Message(t, p) + rest;
            U32(d, 0) == t && U32(d, 4) == |p| && d[HDR..HDR + |p|] == p && d[HDR + |p|..] == rest
  {
    hide U32, Le32;
    var d := Message(t, p) + rest;
    Field(d, 0, t);
    Field(d, 4, |p|);
  }

  /** A 32-bit number as a C `int`. */
  function Signed(n: nat): int
    requires n < UINT32_MODULUS
  {
    if n < 0x8000_0000 then n else n - UINT32_MODULUS
  }

  // ---------------------------------------------------------------------------------------
  // Requests
  // ---------------------------------------------------------------------------------------

  function Arguments(args: seq<Octets>): Octets {
    if args == [] then [] else Message(IPC_ARG, args[0] + [0]) + Arguments(args[1..])
  }

  function Request(args: seq<Octets>): Octets {
    Message(IPC_ARG_CNT, Le32(|args|)) + Arguments(args)
  }

  /** `n` arguments, each with its terminator. */
  function ParseArguments(d: Octets, n: nat): Option<seq<Octets>> {
    if n == 0 then Some([])
    else if |d| < HDR || U32(d, 0) != IPC_ARG || U32(d, 4) == 0 then None
    else
      var end := HDR + U32(d, 4);
      if |d| < end || d[end - 1] != 0 then None
      else
        match ParseArguments(d[end..], n - 1)
        case None => None
        case Some(more) => Some([d[HDR..end]] + more)
  }

  /** The arguments of a request; None if it is not accepted. */
  function ParseRequest(d: Octets): Option<seq<Octets>> {
    if |d| < HDR + 4 || U32(d, 0) != IPC_ARG_CNT || U32(d, 4) != 4 || Signed(U32(d, HDR)) < 0 then None
    else ParseArguments(d[HDR + 4..], U32(d, HDR))
  }

  function Terminated(args: seq<Octets>): (r: seq<Octets>)
    ensures |r| == |args| && forall i :: 0 <= i < |args| ==> r[i] == args[i] + [0]
  {
    seq(|args|, i requires 0 <= i < |args| => args[i] + [0])
  }

  ghost predicate Sendable(args: seq<Octets>) {
    |args| < 0x8000_0000 && forall a :: a in args ==> |a| + 1 < 0x8000_0000
  }

  lemma OneArgument(p: Octets, more: Octets, n: nat)
    requires 0 < |p| < UINT32_MODULUS && p[|p| - 1] == 0
    ensures ParseArguments(Message(IPC_ARG, p) + more, n + 1) ==
            match ParseArguments(more, n)
            case None => None
            case Some(rest) => Some([p] + rest)
  {
    hide Message, U32;
    MessageFields(IPC_ARG, p, more);
    var d := Message(IPC_ARG, p) + more;
    assert d[HDR + |p| - 1] == d[HDR..HDR + |p|][|p| - 1];
  }

  lemma {:induction false} ArgumentsParse(args: seq<Octets>, rest: Octets)
    requires forall a :: a in args ==> |a| + 1 < UINT32_MODULUS
    ensures ParseArguments(Arguments(args) + rest, |args|) == Some(Terminated(args))
    decreases |args|
  {
    hide Message, ParseArguments;
    if args == [] {
      NoArguments(rest);
      assert Arguments(args) + rest == rest;
      assert Terminated(args) == [];
    } else {
      var p, more := args[0] + [0], Arguments(args[1..]) + rest;
      ArgumentsParse(args[1..], rest);
      OneArgument(p, more, |args| - 1);
      assert Arguments(args) + rest == Message(IPC_ARG, p) + more;
      assert Terminated(args) == [p] + Terminated(args[1..]);
    }
  }

  lemma NoArguments(d: Octets)
    ensures ParseArguments(d, 0) == Some([])
  {
  }

  /** The server gets exactly the client's arguments. */
  lemma RequestRoundTrip(args: seq<Octets>, rest: Octets)
    requires Sendable(args)
    ensures ParseRequest(Request(args) + rest) == Some(Terminated(args))
  {
    hide Message, U32, Le32, ParseArguments;
    var n := Le32(|args|);
    var more := Arguments(args) + rest;
    MessageFields(IPC_ARG_CNT, n, more);
    var d := Message(IPC_ARG_CNT, n) + more;
    assert Request(args) + rest == d;
    Field(d, HDR, |args|);
    assert d[HDR + 4..] == more;
    ArgumentsParse(args, rest);
  }

  // ---------------------------------------------------------------------------------------
  // Octets
  // ---------------------------------------------------------------------------------------

  /** Type and length of a message in four octets each, the least significant first. */
  lemma MessageOctets(t: nat, p: Octets)
    requires t < 256 && |p| < UINT32_MODULUS
    ensures var d := Message(t, p); d[..4] == [t, 0, 0, 0] && U32(d, 4) == |p| && d[8..] == p
  {
    hide U32, Le32;
    SmallNumber(t);
    MessageFields(t, p, []);
    assert Message(t, p) + [] == Message(t, p);
  }

  /** A request starts with a message of type 3 that holds the number of arguments. */
  lemma RequestOctets(args: seq<Octets>)
    ensures Request(args) == [3, 0, 0, 0] + [4, 0, 0, 0] + Le32(|args|) + Arguments(args)
  {
    hide Le32, Arguments;
    SmallNumber(3);
    SmallNumber(4);
  }

  /** Each argument with its terminator is a message of type 4. */
  lemma ArgumentOctets(args: seq<Octets>, a: Octets)
    ensures Arguments([]) == []
    ensures Arguments([a] + args) == [4, 0, 0, 0] + Le32(|a| + 1) + (a + [0]) + Arguments(args)
  {
    hide Le32;
    SmallNumber(4);
    assert ([a] + args)[1..] == args && ([a] + args)[0] == a;
  }

  /** A reply is a message of type 0 for each text, and one of type 2 with the return value. */
  lemma ReplyOctets(texts: seq<Octets>, text: Octets, value: int)
    ensures Reply([text] + texts, value) == [0, 0, 0, 0] + Le32(|text|) + text + Reply(texts, value)
    ensures Reply([], value) == [2, 0, 0, 0, 4, 0, 0, 0] + Le32(value)
  {
    hide Le32;
    SmallNumber(0);
    SmallNumber(2);
    SmallNumber(4);
    assert ([text] + texts)[1..] == texts;
    var m, more, last := Message(IPC_STDOUT, text), Printed(texts), Message(IPC_RETURN, Le32(value));
    Regroup(m, more, last);
    assert [] + last == last;
  }

  /** The arguments without their terminators. */
  function Unterminated(argv: seq<Octets>): (r: seq<Octets>)
    requires forall i :: 0 <= i < |argv| ==> argv[i] != []
    ensures |r| == |argv| && forall i :: 0 <= i < |argv| ==> r[i] == argv[i][..|argv[i]| - 1]
  {
    if argv == [] then [] else [argv[0][..|argv[0]| - 1]] + Unterminated(argv[1..])
  }

  ghost predicate AllTerminated(argv: seq<Octets>) {
    forall i :: 0 <= i < |argv| ==> argv[i] != [] && argv[i][|argv[i]| - 1] == 0
  }

  /** One argument, and what follows it. */
  lemma ArgumentIsThere(d: Octets, a: Octets)
    requires |d| >= HDR && U32(d, 0) == IPC_ARG && U32(d, 4) == |a| && |d| >= HDR + |a| && a == d[HDR..HDR + |a|]
    ensures d == Message(IPC_ARG, a) + d[HDR + |a|..]
  {
    hide U32, Le32;
    Le32OfU32(d, 0);
    Le32OfU32(d, 4);
    assert d == d[0..4] + d[4..8] + a + d[HDR + |a|..];
  }

  lemma {:induction false} ArgumentsAreThere(d: Octets, n: nat)
    requires ParseArguments(d, n).Some?
    ensures var argv := ParseArguments(d, n).value;
            |argv| == n && AllTerminated(argv) && Arguments(Unterminated(argv)) <= d
    decreases n
  {
    hide U32, Le32, Message;
    if n > 0 {
      var end := HDR + U32(d, 4);
      var a, more := d[HDR..end], ParseArguments(d[end..], n - 1).value;
      ArgumentsAreThere(d[end..], n - 1);
      assert a[|a| - 1] == d[end - 1];
      var argv := [a] + more;
      assert argv[1..] == more;
      assert a[..|a| - 1] + [0] == a;
      ArgumentIsThere(d, a);
      FirstTerminated(a, more);
    }
  }

  lemma FirstTerminated(a: Octets, more: seq<Octets>)
    requires a != [] && a[|a| - 1] == 0 && AllTerminated(more)
    ensures AllTerminated([a] + more)
    ensures Arguments(Unterminated([a] + more)) == Message(IPC_ARG, a) + Arguments(Unterminated(more))
  {
    hide Message;
    var argv := [a] + more;
    assert argv[1..] == more;
    var u := Unterminated(argv);
    assert u[0] + [0] == a && u[1..] == Unterminated(more);
  }

  /** Only what starts with the request of some arguments is accepted, and as those. */
  lemma AcceptedRequest(d: Octets)
    requires ParseRequest(d).Some?
    ensures var argv := ParseRequest(d).value;
            && |argv| < 0x8000_0000 && AllTerminated(argv)
            && Request(Unterminated(argv)) <= d
  {
    hide U32, Le32, ParseArguments;
    var n := U32(d, HDR);
    ArgumentsAreThere(d[HDR + 4..], n);
    var argv := ParseRequest(d).value;
    Le32OfU32(d, 0);
    Le32OfU32(d, 4);
    Le32OfU32(d, HDR);
    var u := Unterminated(argv);
    assert d == d[0..4] + d[4..8] + d[8..12] + d[12..];
    assert Request(u) == d[0..4] + d[4..8] + d[8..12] + Arguments(u);
  }

  lemma Le32OfU32(d: Octets, i: nat)
    requires i + 4 <= |d|
    ensures Le32(U32(d, i)) == d[i..i + 4]
  {
    var b0: int, b1: int, b2: int, b3: int := d[i], d[i + 1], d[i + 2], d[i + 3];
    var n := U32(d, i);
    assert n / 0x100 == b1 + 0x100 * (b2 + 0x100 * b3);
    assert n / 0x1_0000 == b2 + 0x100 * b3;
    assert n / 0x100_0000 == b3;
  }

  // ---------------------------------------------------------------------------------------
  // Replies
  // ---------------------------------------------------------------------------------------

  function Concat(texts: seq<Octets>): Octets {
    if texts == [] then [] else texts[0] + Concat(texts[1..])
  }

  function Printed(texts: seq<Octets>): Octets {
    if texts == [] then [] else Message(IPC_STDOUT, texts[0]) + Printed(texts[1..])
  }

  /** What the server sends for a command that prints `texts` and returns `value`. */
  function Reply(texts: seq<Octets>, value: int): Octets {
    Printed(texts) + Message(IPC_RETURN, Le32(value))
  }

  // What the client shows, and the four bytes of its exit code
  datatype Output = Output(out: Octets, err: Octets, code: Octets)

  const FAILURE: Octets := [255, 255, 255, 255]

  /** How many bytes of a message of length `len` are copied from `d`. */
  function CopyCount(d: Octets, len: nat): (n: nat)
    requires |d| >= HDR && len < UINT32_MODULUS
    ensures n <= |d| - HDR
  {
    if Signed(len) <= 0 then 0 else if len < |d| - HDR then len else |d| - HDR
  }

  /** What the client makes of a stream of replies, if its exit code so far is `code`. */
  function Shown(d: Octets, code: Octets): Output
    requires |code| == 4
    decreases |d|
  {
    if d == [] then Output([], [], code)
    else if |d| < HDR then Output([], [], FAILURE)
    else
      var t, n := U32(d, 0), CopyCount(d, U32(d, 4));
      if t == IPC_STDOUT || t == IPC_STDERR then
        var more := Shown(d[HDR + n..], code);
        var text := d[HDR..HDR + n];
        if t == IPC_STDOUT then more.(out := text + more.out) else more.(err := text + more.err)
      else if t == IPC_RETURN then
        var k := Min(4, |d| - HDR);
        Shown(d[HDR + k..], d[HDR..HDR + k] + code[k..])
      else Output([], [], FAILURE)
  }

  /**
   * The client shows messages of type 0 on its output and of type 1 on its error output, takes its exit code from
   * messages of type 2, and gives up at any other, with exit code -1. Without any reply, the code is -1, too.
   */
  lemma ShownMeans(t: nat, p: Octets, rest: Octets, code: Octets)
    requires t < 256 && |code| == 4 && |p| < 0x8000_0000
    ensures var d, more := [t, 0, 0, 0] + Le32(|p|) + p + rest, Shown(rest, code);
            && (t == 0 ==> Shown(d, code) == Output(p + more.out, more.err, more.code))
            && (t == 1 ==> Shown(d, code) == Output(more.out, p + more.err, more.code))
            && (t == 2 && |p| == 4 ==> Shown(d, code) == Shown(rest, p))
            && (t > 2 ==> Shown(d, code) == Output([], [], [255, 255, 255, 255]))
    ensures Shown([], FAILURE) == Output([], [], [255, 255, 255, 255])
  {
    hide U32, Le32;
    SmallNumber(t);
    var d := Message(t, p) + rest;
    MessageFields(t, p, rest);
    assert d == [t, 0, 0, 0] + Le32(|p|) + p + rest;
    assert p + code[|code|..] == p;
  }

  lemma ShownMessage(p: Octets, rest: Octets, code: Octets)
    requires |code| == 4 && |p| < 0x8000_0000
    ensures var more := Shown(rest, code);
            Shown(Message(IPC_STDOUT, p) + rest, code) == more.(out := p + more.out)
  {
    hide Message, U32;
    MessageFields(IPC_STDOUT, p, rest);
  }

  lemma ShownReturn(value: int, code: Octets)
    requires |code| == 4
    ensures Shown(Message(IPC_RETURN, Le32(value)), code) == Output([], [], Le32(value))
  {
    hide Message, U32, Le32;
    var p := Le32(value);
    MessageFields(IPC_RETURN, p, []);
    var d := Message(IPC_RETURN, p);
    assert d + [] == d;
    assert p + code[4..] == p;
    assert d[HDR + 4..] == [];
  }

  /** The client shows everything the command printed, in order, and exits with its value. */
  lemma {:induction false} ReplyRoundTrip(texts: seq<Octets>, value: int, code: Octets)
    requires |code| == 4 && forall t :: t in texts ==> |t| < 0x8000_0000
    ensures Shown(Reply(texts, value), code) == Output(Concat(texts), [], Le32(value))
    decreases |texts|
  {
    hide Message, Le32, Shown;
    var last := Message(IPC_RETURN, Le32(value));
    if texts == [] {
      ShownReturn(value, code);
      assert Reply(texts, value) == last;
    } else {
      ReplyRoundTrip(texts[1..], value, code);
      ShownMessage(texts[0], Reply(texts[1..], value), code);
      assert Message(IPC_STDOUT, texts[0]) + Printed(texts[1..]) + last
          == Message(IPC_STDOUT, texts[0]) + (Printed(texts[1..]) + last);
    }
  }

  // What a command does with its arguments: the texts it prints, and its return value
  datatype Behaviour = Behaviour(texts: seq<Octets>, value: int)

  /** A whole exchange: the client shows what the command does for the client's own arguments. */
  lemma Exchange(args: seq<Octets>, command: seq<Octets> -> Behaviour)
    requires Sendable(args) && forall t :: t in command(Terminated(args)).texts ==> |t| < 0x8000_0000
    ensures ParseRequest(Request(args)).Some?
    ensures var b := command(ParseRequest(Request(args)).value);
            && b == command(Terminated(args))
            && Shown(Reply(b.texts, b.value), FAILURE) == Output(Concat(b.texts), [], Le32(b.value))
  {
    hide Shown, ParseRequest, Request;
    RequestRoundTrip(args, []);
    assert Request(args) + [] == Request(args);
    var b := command(Terminated(args));
    ReplyRoundTrip(b.texts, b.value, FAILURE);
  }
}
