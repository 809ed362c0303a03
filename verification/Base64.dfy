/**
 * The in-place base64 decoder: one loop drops everything outside the alphabet, a second one
 * decodes groups of four characters into the front of the same buffer. Section 4 of RFC 4648.
 */
module Base64 {
  import opened Sequences

  const PAD: byte := 61
  const INVALID: byte := 255

  /** The value of a character; the table's -1 is an unsigned 255. */
  function Value(c: byte): (v: byte)
    ensures v < 64 || v == INVALID
  {
    if 65 <= c <= 90 then c - 65
    else if 97 <= c <= 122 then c - 97 + 26
    else if 48 <= c <= 57 then c - 48 + 52
    else if c == 43 then 62
    else if c == 47 then 63
    else INVALID
  }

  /** A character of the alphabet, or padding. */
  predicate Kept(c: byte) {
    c == PAD || Value(c) != INVALID
  }

  function Compact(s: Octets): (c: Octets)
    ensures |c| <= |s|
    ensures forall i :: 0 <= i < |c| ==> Kept(c[i])
  {
    if s == [] then [] else (if Kept(s[0]) then [s[0]] else []) + Compact(s[1..])
  }

  /** Four values as one number; without padding it has 24 bits. */
  function Word(x0: byte, x1: byte, x2: byte, x3: byte): nat {
    x0 * 0x4_0000 + x1 * 0x1000 + x2 * 0x40 + x3
  }

  function High(xx: nat): byte { xx / 0x1_0000 % 0x100 }
  function Middle(xx: nat): byte { xx / 0x100 % 0x100 }
  function Low(xx: nat): byte { xx % 0x100 }

  /** How many of the last two characters are padding, counted from the end. */
  function Padding(c: Octets): (n: nat)
    requires |c| >= 2
    ensures n <= 2
  {
    if c[|c| - 1] != PAD then 0 else if c[|c| - 2] != PAD then 1 else 2
  }

  predicate Aligned(c: Octets) {
    |c| % 4 == 0
  }

  function Output(xx: nat, short1: bool, short2: bool): (d: Octets)
    ensures |d| <= 3
  {
    [High(xx)] + (if short1 then [] else [Middle(xx)]) + (if short2 then [] else [Low(xx)])
  }

  /**
   * The bytes of the first group; one padding character at the end suppresses the middle byte, two also
   * the low one.
   */
  function Head(c: Octets): (d: Octets)
    requires |c| >= 4
    ensures |d| <= 3
  {
    var short1 := |c| == 4 && c[3] == PAD;
    var short2 := short1 && c[2] == PAD;
    Output(Word(Value(c[0]), Value(c[1]), if short2 then 0 else Value(c[2]), if short1 then 0 else Value(c[3])),
        short1, short2)
  }

  function Groups(c: Octets): (d: Octets)
    requires Aligned(c)
  {
    if c == [] then [] else Head(c) + Groups(c[4..])
  }

  datatype Decoded = BadSize | Bytes(bytes: Octets)

  function Decode(s: Octets): Decoded {
    var c := Compact(s);
    if !Aligned(c) then BadSize else Bytes(Groups(c))
  }

  /** The result takes three quarters of the compacted input, less the padding. */
  lemma {:induction false} GroupsLength(c: Octets)
    requires Aligned(c)
    ensures |Groups(c)| == if c == [] then 0 else |c| / 4 * 3 - Padding(c)
    decreases |c|
  {
    hide Word, High, Middle, Low, Value;
    if |c| > 4 {
      GroupsLength(c[4..]);
    }
  }

  // ---------------------------------------------------------------------------------------
  // The two loops
  // ---------------------------------------------------------------------------------------

  lemma {:induction false} CompactStep(s: Octets, i: nat)
    requires i < |s|
    ensures Compact(s[..i + 1]) == Compact(s[..i]) + if Kept(s[i]) then [s[i]] else []
  {
    CompactConcat(s[..i], [s[i]]);
    assert s[..i + 1] == s[..i] + [s[i]];
    assert Compact([s[i]]) == if Kept(s[i]) then [s[i]] else [];
  }

  lemma {:induction false} CompactConcat(s: Octets, t: Octets)
    ensures Compact(s + t) == Compact(s) + Compact(t)
    decreases |s|
  {
    hide Kept;
    if s == [] {
      assert s + t == t && [] + Compact(t) == Compact(t);
    } else {
      CompactConcat(s[1..], t);
      assert (s + t)[1..] == s[1..] + t && (s + t)[0] == s[0];
      Regroup(if Kept(s[0]) then [s[0]] else [], Compact(s[1..]), Compact(t));
    }
  }

  /** The kept characters move to the front; behind them the buffer is as it was. */
  method CompactInPlace(buf: array<byte>, n: nat) returns (j: nat)
    requires n <= buf.Length
    modifies buf
    ensures j == |Compact(old(buf[..n]))|
    ensures buf[..] == Compact(old(buf[..n])) + old(buf[j..])
  {
    hide Kept, Compacting;
    ghost var was := buf[..];
    ghost var done: Octets := [];
    var i := 0;
    j := 0;
    assert Compacting(buf[..], was, done, 0) by { CompactNothing(was); }
    while i < n
      invariant j == |done| <= i <= n && Compacting(buf[..], was, done, i)
      modifies buf
    {
      ghost var before := buf[..];
      KeepOne(before, was, done, i);
      if Kept(buf[i]) {
        buf[j] := buf[i];
        assert buf[..] == before[j := was[i]];
        done := done + [was[i]];
        j := j + 1;
      }
      i := i + 1;
    }
    Compacted(buf[..], was, done, n);
  }

  /** Of the first `i` bytes, the kept ones are in `done`, which has replaced the front of the buffer. */
  ghost predicate Compacting(now: Octets, was: Octets, done: Octets, i: nat) {
    |done| <= i <= |was| && done == Compact(was[..i]) && now == done + was[|done|..]
  }

  lemma CompactNothing(was: Octets)
    ensures Compacting(was, was, [], 0)
  {
  }

  lemma KeepOne(before: Octets, was: Octets, done: Octets, i: nat)
    requires i < |was| && Compacting(before, was, done, i)
    ensures |done| <= i && |before| == |was| && before[i] == was[i]
    ensures if Kept(was[i]) then Compacting(before[|done| := was[i]], was, done + [was[i]], i + 1)
            else Compacting(before, was, done, i + 1)
  {
    hide Kept, Compact;
    CompactStep(was, i);
    assert before[|done| := was[i]] == (done + [was[i]]) + was[|done| + 1..];
    assert done + [] == done;
  }

  lemma Compacted(now: Octets, was: Octets, done: Octets, n: nat)
    requires n <= |was| && Compacting(now, was, done, n)
    ensures done == Compact(was[..n]) && now == done + was[|done|..]
  {
  }

  /**
   * Decodes the first `n` bytes of the buffer in place and returns the length of the result, or -1.
   * Nothing that is still to be read is overwritten, and behind the result the compacted input and
   * the rest of the buffer are still there.
   */
  method DecodeInPlace(buf: array?<byte>, srcLen: int) returns (r: int)
    requires buf != null ==> srcLen <= buf.Length
    modifies if buf == null then {} else {buf}
    ensures buf == null || srcLen <= 0 ==> r == 0
    ensures buf != null && srcLen <= 0 ==> buf[..] == old(buf[..])
    ensures buf != null && srcLen > 0 ==>
              var s := old(buf[..srcLen]);
              match Decode(s)
              case BadSize => r == -1 && buf[..] == Compact(s) + old(buf[|Compact(s)|..])
              case Bytes(d) => r == |d| <= |Compact(s)| && buf[..] == d + Compact(s)[r..] + old(buf[|Compact(s)|..])
  {
    if buf == null || srcLen <= 0 {
      return 0;
    }
    ghost var tail := buf[|Compact(buf[..srcLen])|..];
    ghost var c := Compact(buf[..srcLen]);
    var n := CompactInPlace(buf, srcLen);
    if n % 4 != 0 {
      return -1;
    }
    assert buf[..n] == c && buf[n..] == tail;
    r := DecodeGroups(buf, n);
  }

  method DecodeGroups(buf: array<byte>, n: nat) returns (j: nat)
    requires n <= buf.Length && Aligned(buf[..n])
    modifies buf
    ensures j == |Groups(old(buf[..n]))| <= n
    ensures buf[..] == Groups(old(buf[..n])) + old(buf[j..n]) + old(buf[n..])
  {
    hide Groups, Word, Value, Output, Aligned, Decoding;
    ghost var was := buf[..];
    ghost var c := buf[..n];
    ghost var done: Octets := [];
    var i := 0;
    j := 0;
    StartDecoding(was, c);
    while i < n
      invariant i <= n && j == |done| && Decoding(buf[..], was, c, done, i)
      modifies buf
    {
      ghost var before := buf[..];
      NextGroup(before, was, c, done, i);
      var x0, x1, x2, x3 := Value(buf[i]), Value(buf[i + 1]), Value(buf[i + 2]), Value(buf[i + 3]);
      i := i + 4;
      var short1, short2 := false, false;
      if i == n && buf[n - 1] == PAD {
        short1, x3 := true, 0;
        if buf[n - 2] == PAD {
          short2, x2 := true, 0;
        }
      }
      ghost var out := Head(c[i - 4..]);
      j := WriteGroup(buf, j, Word(x0, x1, x2, x3), short1, short2);
      GroupDone(before, buf[..], was, c, done, i - 4);
      done := done + out;
    }
    EndDecoding(buf[..], was, c, done);
  }

  /** The groups before `i` are decoded into `done`, which has replaced the front of the buffer. */
  ghost predicate Decoding(now: Octets, was: Octets, c: Octets, done: Octets, i: nat) {
    && |done| <= i <= |c| <= |was| && c == was[..|c|] && Aligned(c) && Aligned(c[i..])
    && now == done + was[|done|..]
    && Groups(c) == done + Groups(c[i..])
  }

  lemma StartDecoding(was: Octets, c: Octets)
    requires |c| <= |was| && c == was[..|c|] && Aligned(c)
    ensures Decoding(was, was, c, [], 0)
  {
    hide Groups;
    assert c[0..] == c && [] + was[0..] == was && [] + Groups(c) == Groups(c);
  }

  /** The next group is still in the buffer, and there is room for its bytes. */
  lemma NextGroup(now: Octets, was: Octets, c: Octets, done: Octets, i: nat)
    requires i < |c| && Decoding(now, was, c, done, i)
    ensures |done| <= i && i + 4 <= |c| <= |now|
    ensures now[|c| - 2] == c[|c| - 2] && now[|c| - 1] == c[|c| - 1]
    ensures var short1 := i + 4 == |c| && now[|c| - 1] == PAD;
            var short2 := short1 && now[|c| - 2] == PAD;
            Head(c[i..]) == Output(Word(Value(now[i]), Value(now[i + 1]), if short2 then 0 else Value(now[i + 2]),
                                        if short1 then 0 else Value(now[i + 3])), short1, short2)
  {
    hide Groups, Word, Value, Output;
  }

  lemma GroupDone(before: Octets, now: Octets, was: Octets, c: Octets, done: Octets, i: nat)
    requires i < |c| && Decoding(before, was, c, done, i)
    requires |c[i..]| >= 4 && |done| + 3 <= |before|
    requires var j := |done| + |Head(c[i..])|; now == before[..|done|] + Head(c[i..]) + before[j..]
    ensures i + 4 <= |c| && Decoding(now, was, c, done + Head(c[i..]), i + 4)
  {
    hide Head;
    var out := Head(c[i..]);
    assert c[i..][4..] == c[i + 4..];
    assert Groups(c[i..]) == out + Groups(c[i + 4..]);
    assert done + (out + Groups(c[i + 4..])) == (done + out) + Groups(c[i + 4..]);
  }

  lemma EndDecoding(now: Octets, was: Octets, c: Octets, done: Octets)
    requires Decoding(now, was, c, done, |c|)
    ensures Groups(c) == done && |done| <= |c| && now == done + was[|done|..|c|] + was[|c|..]
  {
    hide Groups, Head, Aligned;
    assert c[|c|..] == [];
    GroupsOf([]);
    assert done + [] == done;
    Behind(done, was, |c|);
  }

  lemma Behind(done: Octets, was: Octets, n: nat)
    requires |done| <= n <= |was|
    ensures done + was[|done|..] == done + was[|done|..n] + was[n..]
  {
    assert was[|done|..] == was[|done|..n] + was[n..];
  }

  method WriteGroup(buf: array<byte>, at: nat, xx: nat, short1: bool, short2: bool) returns (j: nat)
    requires at + 3 <= buf.Length
    modifies buf
    ensures j == at + |Output(xx, short1, short2)|
    ensures buf[..] == old(buf[..at]) + Output(xx, short1, short2) + old(buf[j..])
  {
    hide High, Middle, Low;
    j := at;
    buf[j] := High(xx);
    j := j + 1;
    if !short1 {
      buf[j] := Middle(xx);
      j := j + 1;
    }
    if !short2 {
      buf[j] := Low(xx);
      j := j + 1;
    }
  }

  lemma GroupsOf(c: Octets)
    requires Aligned(c)
    ensures Groups(c) == if c == [] then [] else Head(c) + Groups(c[4..])
  {
  }

  // ---------------------------------------------------------------------------------------
  // Against the encoding of RFC 4648
  // ---------------------------------------------------------------------------------------

  /** Table 1 of RFC 4648. */
  function Alpha(v: nat): (c: byte)
    requires v < 64
  {
    if v < 26 then 65 + v
    else if v < 52 then 97 + v - 26
    else if v < 62 then 48 + v - 52
    else if v == 62 then 43
    else 47
  }

  /** Capital letters, small letters, digits, plus and slash; and the padding character. */
  lemma AlphabetIs(v: nat)
    requires v < 64
    ensures v < 26 ==> Alpha(v) == 'A' as int + v
    ensures 26 <= v < 52 ==> Alpha(v) == 'a' as int + v - 26
    ensures 52 <= v < 62 ==> Alpha(v) == '0' as int + v - 52
    ensures Alpha(62) == '+' as int && Alpha(63) == '/' as int && PAD == '=' as int
  {
  }

  /** Three bytes are one number of 24 bits, encoded six bits at a time, the highest first. */
  lemma EncodeMeans(b0: byte, b1: byte, b2: byte, more: Octets)
    ensures var n: nat := b0 as nat * 0x1_0000 + b1 as nat * 0x100 + b2;
            Encode([b0, b1, b2] + more) ==
            [Alpha(n / 0x4_0000 % 64), Alpha(n / 0x1000 % 64), Alpha(n / 0x40 % 64), Alpha(n % 64)] + Encode(more)
    ensures var n: nat := b0 as nat * 0x1_0000 + b1 as nat * 0x100;
            Encode([b0, b1]) == [Alpha(n / 0x4_0000 % 64), Alpha(n / 0x1000 % 64), Alpha(n / 0x40 % 64), PAD]
    ensures var n: nat := b0 as nat * 0x1_0000;
            Encode([b0]) == [Alpha(n / 0x4_0000 % 64), Alpha(n / 0x1000 % 64), PAD, PAD]
    ensures Encode([]) == []
  {
    hide Alpha;
    SixBits(b0, b1, b2);
    SixBits(b0, b1, 0);
    SixBits(b0, 0, 0);
    assert ([b0, b1, b2] + more)[3..] == more;
  }

  lemma SixBits(b0: int, b1: int, b2: int)
    requires 0 <= b0 < 256 && 0 <= b1 < 256 && 0 <= b2 < 256
    ensures var n := b0 * 0x1_0000 + b1 * 0x100 + b2;
            && n / 0x4_0000 % 64 == b0 / 4 && n / 0x1000 % 64 == b0 % 4 * 16 + b1 / 16
            && n / 0x40 % 64 == b1 % 16 * 4 + b2 / 64 && n % 64 == b2 % 64
  {
    var n := b0 * 0x1_0000 + b1 * 0x100 + b2;
    assert n / 0x40 == b0 * 0x400 + b1 * 4 + b2 / 64;
    assert n / 0x1000 == b0 * 16 + b1 / 16;
    assert n / 0x4_0000 == b0 / 4;
  }

  lemma AlphabetIsTable()
    ensures forall v: nat :: v < 64 ==> Value(Alpha(v)) == v && Alpha(v) != PAD
    ensures forall c: byte :: Value(c) != INVALID ==> Alpha(Value(c)) == c
  {
  }

  function Encode(b: Octets): Octets {
    if b == [] then []
    else if |b| == 1 then [Alpha(b[0] / 4), Alpha(b[0] % 4 * 16), PAD, PAD]
    else if |b| == 2 then [Alpha(b[0] / 4), Alpha(b[0] % 4 * 16 + b[1] / 16), Alpha(b[1] % 16 * 4), PAD]
    else [Alpha(b[0] / 4), Alpha(b[0] % 4 * 16 + b[1] / 16), Alpha(b[1] % 16 * 4 + b[2] / 64), Alpha(b[2] % 64)]
         + Encode(b[3..])
  }

  lemma {:induction false} EncodeLength(b: Octets)
    ensures |Encode(b)| == (|b| + 2) / 3 * 4 && Aligned(Encode(b))
    decreases |b|
  {
    hide Alpha;
    if |b| > 2 {
      EncodeLength(b[3..]);
    }
  }

  lemma {:induction false} EncodeIsCompact(b: Octets)
    ensures Compact(Encode(b)) == Encode(b)
    decreases |b|
  {
    hide Compact, Alpha, Kept;
    AlphabetIsKept();
    if |b| == 1 || |b| == 2 {
      CompactFour(Encode(b), []);
      assert Encode(b) + [] == Encode(b);
    } else if |b| > 2 {
      EncodeIsCompact(b[3..]);
      CompactFour(Encode(b)[..4], Encode(b[3..]));
      assert Encode(b) == Encode(b)[..4] + Encode(b[3..]);
    } else {
      CompactFour([PAD, PAD, PAD, PAD], []);
    }
  }

  lemma AlphabetIsKept()
    ensures Kept(PAD) && forall v: nat :: v < 64 ==> Kept(Alpha(v))
  {
  }

  lemma CompactFour(q: Octets, rest: Octets)
    requires |q| == 4 && forall i :: 0 <= i < 4 ==> Kept(q[i])
    ensures Compact(q + rest) == q + Compact(rest) && Compact([]) == []
  {
    CompactConcat(q, rest);
    AllKept(q);
  }

  lemma {:induction false} AllKept(q: Octets)
    requires forall i :: 0 <= i < |q| ==> Kept(q[i])
    ensures Compact(q) == q
  {
    hide Kept;
    if q != [] {
      AllKept(q[1..]);
    }
  }

  /** Characters outside the alphabet make no difference, wherever they stand. */
  lemma NoiseIsIgnored(s: Octets, k: nat, noise: Octets)
    requires k <= |s| && forall i :: 0 <= i < |noise| ==> !Kept(noise[i])
    ensures Decode(s[..k] + noise + s[k..]) == Decode(s)
  {
    hide Groups, Compact, Kept;
    CompactConcat(s[..k] + noise, s[k..]);
    assert Compact(s[..k]) + [] == Compact(s[..k]);
    CompactConcat(s[..k], noise);
    CompactConcat(s[..k], s[k..]);
    assert s == s[..k] + s[k..];
    OnlyNoise(noise);
  }

  lemma {:induction false} OnlyNoise(noise: Octets)
    requires forall i :: 0 <= i < |noise| ==> !Kept(noise[i])
    ensures Compact(noise) == []
  {
    if noise != [] {
      OnlyNoise(noise[1..]);
    }
  }

  /** Three bytes through four values and back. */
  lemma WordOfBytes(b0: byte, b1: byte, b2: byte)
    ensures var xx := Word(b0 / 4, b0 % 4 * 16 + b1 / 16, b1 % 16 * 4 + b2 / 64, b2 % 64);
            xx == b0 * 0x1_0000 + b1 * 0x100 + b2 && High(xx) == b0 && Middle(xx) == b1 && Low(xx) == b2
  {
    var xx := Word(b0 / 4, b0 % 4 * 16 + b1 / 16, b1 % 16 * 4 + b2 / 64, b2 % 64);
    ThreeBytes(xx, b0, b1, b2);
  }

  lemma ThreeBytes(xx: nat, b0: byte, b1: byte, b2: byte)
    requires xx == b0 * 0x1_0000 + b1 * 0x100 + b2
    ensures High(xx) == b0 && Middle(xx) == b1 && Low(xx) == b2
  {
    assert xx / 0x100 == b0 * 0x100 + b1;
    assert xx / 0x1_0000 == b0;
  }

  lemma FullGroup(c: Octets, b0: byte, b1: byte, b2: byte)
    requires c != [] && Aligned(c) && c[0] == Alpha(b0 / 4) && c[1] == Alpha(b0 % 4 * 16 + b1 / 16)
    requires c[2] == Alpha(b1 % 16 * 4 + b2 / 64) && c[3] == Alpha(b2 % 64)
    ensures Groups(c) == [b0, b1, b2] + Groups(c[4..])
  {
    hide Word, High, Middle, Low, Value, Alpha, Groups;
    AlphabetIsTable();
    GroupsOf(c);
    WordOfBytes(b0, b1, b2);
  }

  lemma LastGroup(c: Octets, b0: byte, b1: byte)
    requires |c| == 4 && c[0] == Alpha(b0 / 4) && c[1] == Alpha(b0 % 4 * 16 + b1 / 16) && c[3] == PAD
    requires c[2] == PAD || c[2] == Alpha(b1 % 16 * 4)
    ensures Groups(c) == if c[2] == PAD then [b0] else [b0, 0]
  {
    hide Word, High, Middle, Low, Value, Alpha, Groups;
    AlphabetIsTable();
    GroupsOf(c);
    GroupsOf(c[4..]);
    assert Groups(c[4..]) == [];
    WordOfBytes(b0, b1, 0);
    WordOfBytes(b0, b1 / 16 * 16, 0);
  }

  /** Decoding an encoding gives the bytes back, but a last group of two bytes loses its second byte. */
  lemma {:induction false} GroupsOfEncode(b: Octets)
    ensures Aligned(Encode(b)) && Groups(Encode(b)) == Recovered(b)
    decreases |b|
  {
    hide Value, Alpha, Groups, Recovered, Aligned;
    EncodeLength(b);
    RecoveredShort(b);
    if b == [] {
      GroupsOf([]);
    } else if |b| == 1 {
      LastGroup(Encode(b), b[0], 0);
    } else if |b| == 2 {
      NotPadded(b[1] % 16 * 4);
      LastGroup(Encode(b), b[0], b[1]);
    } else {
      FullGroup(Encode(b), b[0], b[1], b[2]);
      GroupsOfEncode(b[3..]);
      assert Encode(b)[4..] == Encode(b[3..]);
      RecoveredTail(b);
    }
  }

  function Recovered(b: Octets): Octets {
    if |b| % 3 == 2 then b[..|b| - 1] + [0] else b
  }

  lemma RecoveredShort(b: Octets)
    ensures |b| <= 1 ==> Recovered(b) == b
    ensures |b| == 2 ==> Recovered(b) == [b[0], 0]
  {
  }

  lemma RecoveredTail(b: Octets)
    requires |b| > 2
    ensures Recovered(b) == [b[0], b[1], b[2]] + Recovered(b[3..])
  {
    assert |b[3..]| % 3 == |b| % 3;
    assert b == [b[0], b[1], b[2]] + b[3..];
  }

  lemma NotPadded(v: nat)
    requires v < 64
    ensures Alpha(v) != PAD
  {
  }

  /** The decoder undoes the encoding exactly if it did not end in one padding character, or in a zero byte. */
  lemma DecodeOfEncode(b: Octets)
    ensures Decode(Encode(b)).Bytes? && |Decode(Encode(b)).bytes| == |b|
    ensures Decode(Encode(b)) == Bytes(b) <==> |b| % 3 != 2 || b[|b| - 1] == 0
  {
    hide Encode, Compact, Groups;
    EncodeIsCompact(b);
    EncodeLength(b);
    GroupsOfEncode(b);
  }

  /** Text without padding is the only encoding of what it decodes to. */
  lemma {:induction false} EncodeOfGroups(c: Octets)
    requires Aligned(c) && forall i :: 0 <= i < |c| ==> Value(c[i]) != INVALID
    ensures Encode(Groups(c)) == c
    decreases |c|
  {
    hide Word, High, Middle, Low, Value, Alpha, Groups;
    AlphabetIsTable();
    GroupsOf(c);
    if c != [] {
      assert Value(PAD) == INVALID by { PadHasNoValue(); }
      var xx := Word(Value(c[0]), Value(c[1]), Value(c[2]), Value(c[3]));
      BytesOfWord(Value(c[0]), Value(c[1]), Value(c[2]), Value(c[3]));
      EncodeOfGroups(c[4..]);
      var d := Groups(c);
      assert d == [High(xx), Middle(xx), Low(xx)] + Groups(c[4..]);
      assert d[3..] == Groups(c[4..]);
    }
  }

  lemma PadHasNoValue()
    ensures Value(PAD) == INVALID
  {
  }

  lemma BytesOfWord(x0: byte, x1: byte, x2: byte, x3: byte)
    requires x0 < 64 && x1 < 64 && x2 < 64 && x3 < 64
    ensures var xx := Word(x0, x1, x2, x3);
            && High(xx) / 4 == x0 && High(xx) % 4 * 16 + Middle(xx) / 16 == x1
            && Middle(xx) % 16 * 4 + Low(xx) / 64 == x2 && Low(xx) % 64 == x3
  {
    var xx := Word(x0, x1, x2, x3);
    var b0, b1, b2 := x0 * 4 + x1 / 16, x1 % 16 * 16 + x2 / 4, x2 % 4 * 64 + x3;
    assert x1 == x1 / 16 * 16 + x1 % 16 && x2 == x2 / 4 * 4 + x2 % 4;
    ThreeBytes(xx, b0, b1, b2);
  }
}
