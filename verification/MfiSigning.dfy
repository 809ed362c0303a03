/**
 * Signatures over values: which bytes they cover, when a written image validates, and which changes
 * keep the signed bytes.
 */
module MfiSigning {
  import opened CText
  import opened Sequences
  import opened MfiOctets
  import opened MfiStage1
  import opened MfiStage2
  import opened MfiImage

  function Verdict2(c: Crypto, public: Option<Key>, p: Parsed2): Verdict {
    Validate(c, public, p.v.sigType, p.v.fingerprint, p.signed)
  }

  ghost predicate CoversVal(c: Crypto, public: Option<Key>, v: Stage2Val) {
    Covers(c, public, v.sigType, v.fingerprint, Signed2(v.tlvType, v.payload, v.sigType))
  }

  function VerdictList(c: Crypto, public: Option<Key>, ps: seq<Parsed2>): (r: seq<Verdict>)
    ensures |r| == |ps| && forall i :: 0 <= i < |ps| ==> r[i] == Verdict2(c, public, ps[i])
  {
    if ps == [] then [] else [Verdict2(c, public, ps[0])] + VerdictList(c, public, ps[1..])
  }

  function Verdicts(c: Crypto, public: Option<Key>, p: ParsedImage): seq<Verdict> {
    [Validate(c, public, p.stage1.v.sigType, p.stage1.fingerprint, p.stage1.hashed)] + VerdictList(c, public, p.stage2)
  }

  lemma VerdictListAppend(c: Crypto, public: Option<Key>, ps: seq<Parsed2>, p: Parsed2)
    ensures VerdictList(c, public, ps + [p]) == VerdictList(c, public, ps) + [Verdict2(c, public, p)]
  {
  }

  function Prepended(ps: seq<Parsed2>, rest: Result<seq<Parsed2>>): Result<seq<Parsed2>> {
    if rest.Err? then rest else Ok(ps + rest.value)
  }

  lemma PrependOne(ps: seq<Parsed2>, p: Parsed2, all: Result<seq<Parsed2>>, rest: Result<seq<Parsed2>>)
    requires all == Prepended([p], rest)
    ensures Prepended(ps, all) == Prepended(ps + [p], rest)
  {
    if rest.Ok? {
      assert ps + ([p] + rest.value) == ps + [p] + rest.value;
    }
  }

  lemma NothingWritten(d: Octets)
    ensures d + ListBytes([]) == d
  {
  }

  lemma NothingRead(c: Crypto, public: Option<Key>, r: Result<seq<Parsed2>>)
    ensures VerdictList(c, public, []) == [] && ParseList([]) == Ok([])
    ensures Prepended([], r) == r && (r.Ok? ==> Prepended(r.value, ParseList([])) == r)
  {
    if r.Ok? {
      assert [] + r.value == r.value && r.value + [] == r.value;
    }
  }

  lemma {:induction false} ListAppend(vs: seq<Stage2Val>, v: Stage2Val)
    ensures ListBytes(vs + [v]) == ListBytes(vs) + Stage2Bytes(v)
    decreases |vs|
  {
    hide Stage2Bytes;
    if vs == [] {
      assert vs + [v] == [v];
      assert ListBytes([v]) == Stage2Bytes(v) + ListBytes([]);
    } else {
      ListAppend(vs[1..], v);
      assert (vs + [v])[1..] == vs[1..] + [v];
      Regroup(Stage2Bytes(vs[0]), ListBytes(vs[1..]), Stage2Bytes(v));
    }
  }

  // ---------------------------------------------------------------------------------------
  // Written images validate
  // ---------------------------------------------------------------------------------------

  /** A written image whose fingerprints cover what they sign is accepted throughout when it is read. */
  lemma WrittenValidates(c: Crypto, public: Option<Key>, v: Stage1Val, fingerprint: Octets, vs: seq<Stage2Val>)
    requires KnownTlvs(v.tlvs) && |Stage1Bytes(v, fingerprint)| < UINT32_MODULUS
    requires Covers(c, public, v.sigType, fingerprint, SignedBytes(v))
    requires forall s :: s in vs ==> Writable2(s) && CoversVal(c, public, s)
    ensures var d := Stage1Bytes(v, fingerprint) + ListBytes(vs);
            && ParseImage(d).Ok?
            && var verdicts := Verdicts(c, public, ParseImage(d).value);
               |verdicts| == 1 + |vs| && forall i :: 0 <= i <= |vs| ==> verdicts[i] == Validated
  {
    hide ParseImage, Validate, Writable2, SignedBytes, Stage1Bytes, Signed2, ListBytes;
    ImageRoundTrip(v, fingerprint, vs);
    var p := ParseImage(Stage1Bytes(v, fingerprint) + ListBytes(vs)).value;
    forall i | 0 < i <= |vs|
      ensures Verdicts(c, public, p)[i] == Validated
    {
      assert vs[i - 1] in vs;
      assert CoversVal(c, public, vs[i - 1]);
    }
  }

  /** A TLV with an empty payload is written, but makes the file unreadable; nothing else does. */
  lemma {:induction false} ListReadable(vs: seq<Stage2Val>)
    requires forall s :: s in vs ==> WritableOrEmpty(s)
    ensures ParseList(ListBytes(vs)).Ok? <==> forall s :: s in vs ==> s.payload != []
    decreases |vs|
  {
    hide ParseStage2, Stage2Bytes, Signed2, ParseSubTlvs, Writable2;
    if vs != [] {
      assert WritableOrEmpty(vs[0]);
      ListReadable(vs[1..]);
      NotEmpty(vs[0]);
      assert forall s :: s in vs <==> s == vs[0] || s in vs[1..];
      if vs[0].payload == [] {
        EmptyPayloadUnreadable(vs[0], ListBytes(vs[1..]));
      } else {
        Stage2RoundTrip(vs[0], ListBytes(vs[1..]));
      }
    }
  }

  /** Any TLV object's value that fits into 32-bit lengths, with an empty payload or a readable one. */
  ghost predicate WritableOrEmpty(v: Stage2Val) {
    v.payload != [] ==> Writable2(v)
  }

  lemma EmptyPayloadUnreadable(v: Stage2Val, rest: Octets)
    requires v.payload == []
    ensures ParseStage2(Stage2Bytes(v) + rest) == Err(EmptyData)
  {
    hide U32, ParseSubTlvs, Le32;
    Stage2Fields(v, rest);
  }

  // ---------------------------------------------------------------------------------------
  // Which changes of a parsed image are noticed
  // ---------------------------------------------------------------------------------------

  /** One fingerprint validates two different byte strings. */
  ghost predicate Collide(c: Crypto, public: Option<Key>, sigType: int, fingerprint: Octets, d: Octets, e: Octets) {
    && d != e
    && Validate(c, public, sigType, fingerprint, d) == Validated
    && Validate(c, public, sigType, fingerprint, e) == Validated
  }

  lemma SignedPayload(tlvType: int, p: Octets, q: Octets, sigType: int)
    requires Signed2(tlvType, p, sigType) == Signed2(tlvType, q, sigType)
    ensures p == q
  {
    assert Signed2(tlvType, p, sigType)[STAGE2_DATA_OFFSET..] == p;
    assert Signed2(tlvType, q, sigType)[STAGE2_DATA_OFFSET..] == q;
  }

  ghost predicate CanonicalPayload(d: Octets) {
    ParseSubTlvs(d, map[]).Ok? && Serialize(ParseSubTlvs(d, map[]).value) == d
  }

  /** Reading and serialising again keeps the payload. */
  ghost predicate CanonicalTlv(v: Stage2Val) {
    v.tlvType == ROOTFS_TLV ==> CanonicalPayload(v.payload)
  }

  /** The canonical payloads are those that this tool writes. */
  lemma CanonicalIsWritten(d: Octets)
    requires |d| < UINT32_MODULUS
    ensures CanonicalPayload(d) <==> exists a :: KnownAttributes(a) && Serialize(a) == d
  {
    hide Serialize, ParseSubTlvs;
    if CanonicalPayload(d) {
      SubTlvsKnown(d, map[]);
      assert KnownAttributes(ParseSubTlvs(d, map[]).value);
    }
    if a :| KnownAttributes(a) && Serialize(a) == d {
      AttributesRoundTrip(a);
    }
  }

  /** A version in front of a name is accepted, but not canonical. */
  lemma NonCanonicalOrder()
    ensures ParseSubTlvs(SubTlvBytes(2, []) + SubTlvBytes(1, []), map[]) == Ok(map[1 := [], 2 := []])
    ensures !CanonicalPayload(SubTlvBytes(2, []) + SubTlvBytes(1, []))
  {
    hide SubTlvBytes, ParseSubTlvs, Le32, U32;
    var d := SubTlvBytes(2, []) + SubTlvBytes(1, []);
    var a: Attributes := map[];
    ParseOneSubTlv(2, [], SubTlvBytes(1, []), a);
    ParseOneSubTlv(1, [], [], a[2 := []]);
    assert SubTlvBytes(1, []) + [] == SubTlvBytes(1, []);
    ParseNoSubTlvs(a[2 := []][1 := []]);
    assert a[2 := []][1 := []] == map[1 := [], 2 := []];
    FirstByte(2, SubTlvBytes(1, []));
    FirstByte(1, SerializeFrom(map[1 := [], 2 := []], 1));
  }

  lemma FirstByte(t: int, rest: Octets)
    ensures (SubTlvBytes(t, []) + rest)[0] == t % 256
  {
  }

  /** Storing a TLV of stage 1 leaves the signed bytes alone exactly for the signature TLV or the same data. */
  lemma SetTlvSigned(v: Stage1Val, t: nat, data: Octets)
    requires t <= MAX_TLV
    ensures SignedBytes(v.(tlvs := v.tlvs[t := data])) == SignedBytes(v)
       <==> t == SIGNATURE_TLV || (t in v.tlvs && v.tlvs[t] == data)
  {
    hide TlvBytes, TlvsBytes, Zeros;
    var w := v.(tlvs := v.tlvs[t := data]);
    TlvsDiffer(v.tlvs, t, data, 0);
    SignedTail(v);
    SignedTail(w);
  }

  lemma SignedTail(v: Stage1Val)
    ensures var at := HDR_LEN + |TlvBytes(SIGNATURE_TLV, Zeros(SigSize(v.sigType)))|;
            |SignedBytes(v)| >= at && SignedBytes(v)[at..] == TlvsBytes(v.tlvs, 0)
  {
    hide TlvBytes, TlvsBytes, Zeros, HeaderBytes;
  }

  lemma {:induction false} TlvsDiffer(tlvs: map<nat, Octets>, t: nat, data: Octets, from: nat)
    requires t <= MAX_TLV && from <= MAX_TLV + 1
    ensures TlvsBytes(tlvs[t := data], from) == TlvsBytes(tlvs, from)
       <==> from > t || t == SIGNATURE_TLV || (t in tlvs && tlvs[t] == data)
    decreases MAX_TLV + 1 - from
  {
    hide TlvBytes, TlvsBytes;
    TlvsBytesStep(tlvs, from);
    TlvsBytesStep(tlvs[t := data], from);
    if from <= MAX_TLV {
      TlvsDiffer(tlvs, t, data, from + 1);
      var head := if from in tlvs && from != SIGNATURE_TLV then TlvBytes(from, tlvs[from]) else [];
      var rest, rest' := TlvsBytes(tlvs, from + 1), TlvsBytes(tlvs[t := data], from + 1);
      if from != t || t == SIGNATURE_TLV {
        SameHead(head, rest, rest');
      } else {
        SameTail(head, TlvBytes(t, data), rest);
        if t in tlvs && TlvBytes(t, tlvs[t]) == TlvBytes(t, data) {
          TlvInjective(t, tlvs[t], data);
        }
      }
    }
  }

  lemma SameHead(a: Octets, b: Octets, c: Octets)
    ensures a + b == a + c <==> b == c
  {
    assert (a + b)[|a|..] == b && (a + c)[|a|..] == c;
  }

  lemma SameTail(a: Octets, b: Octets, c: Octets)
    ensures a + c == b + c <==> a == b
  {
    if a + c == b + c {
      assert |a| == |b|;
      assert (a + c)[..|a|] == a && (b + c)[..|b|] == b;
    }
  }

  lemma TlvInjective(t: nat, p: Octets, q: Octets)
    requires TlvBytes(t, p) == TlvBytes(t, q)
    ensures p == q
  {
    hide Le32;
    assert TlvBytes(t, p)[8..12] == Le32(|p|) && TlvBytes(t, q)[8..12] == Le32(|q|);
    SameLength(|p|, |q|);
    assert TlvBytes(t, p)[12..12 + |p|] == p && TlvBytes(t, q)[12..12 + |q|] == q;
  }

  lemma SameLength(m: nat, n: nat)
    requires Le32(m) == Le32(n) && m + (4 - m % 4) == n + (4 - n % 4)
    ensures m == n
  {
    assert Le32(m)[0] == m % 256 && Le32(n)[0] == n % 256;
  }

  /**
   * Reading a TLV of stage 1 from a file does not ask for a new signature. In a valid image the
   * stored fingerprint still covers the contents exactly if the file had been stored before, unless
   * it happens to validate two byte strings.
   */
  lemma ReadTlvCovered(c: Crypto, public: Option<Key>, v: Stage1Val, fingerprint: Octets, t: nat, data: Octets)
    requires t <= MAX_TLV && Covers(c, public, v.sigType, fingerprint, SignedBytes(v))
    ensures var now := SignedBytes(v.(tlvs := v.tlvs[t := data]));
            Covers(c, public, v.sigType, fingerprint, now) <==>
            || t == SIGNATURE_TLV || (t in v.tlvs && v.tlvs[t] == data)
            || Collide(c, public, v.sigType, fingerprint, SignedBytes(v), now)
  {
    hide SignedBytes, Validate;
    SetTlvSigned(v, t, data);
  }

  // ---------------------------------------------------------------------------------------
  // Images that are read as they would be written
  // ---------------------------------------------------------------------------------------

  lemma Le32Wraps(n: int)
    ensures Le32(n % UINT32_MODULUS) == Le32(n)
  {
    var r, q := n % UINT32_MODULUS, n / UINT32_MODULUS;
    assert n == r + 0x1_0000_0000 * q;
    assert n / 0x100 == r / 0x100 + 0x100_0000 * q;
    assert n / 0x1_0000 == r / 0x1_0000 + 0x1_0000 * q;
    assert n / 0x100_0000 == r / 0x100_0000 + 0x100 * q;
    LowByte(r, 0x100_0000 * q);
    LowByte(r / 0x100, 0x1_0000 * q);
    LowByte(r / 0x1_0000, 0x100 * q);
    LowByte(r / 0x100_0000, q);
  }

  lemma LowByte(s: int, q: int)
    ensures (s + 0x100 * q) % 256 == s % 256
  {
  }

  /** Stage 1 as it is parsed is written like stage 1 as it was. */
  lemma CanonicalBytes(v: Stage1Val, stored: Octets, fingerprint: Octets)
    ensures Stage1Bytes(Canonical(v, stored), fingerprint) == Stage1Bytes(v, fingerprint)
    ensures SignedBytes(Canonical(v, stored)) == SignedBytes(v)
  {
    hide Le32, TlvBytes, TlvsBytes, Fixed;
    Le32Wraps(v.version);
    Le32Wraps(v.socNo);
    FixedTwice(v.machine, NAME_LEN);
    FixedTwice(v.socName, NAME_LEN);
    TlvsDiffer(v.tlvs, SIGNATURE_TLV, stored, 0);
  }

  lemma {:induction false} SubTlvsKnown(d: Octets, a: Attributes)
    requires KnownAttributes(a)
    ensures ParseSubTlvs(d, a).Ok? ==> KnownAttributes(ParseSubTlvs(d, a).value)
    decreases |d|
  {
    hide U32;
    if |d| >= SUB_TLV_HDR_LEN {
      var t, length := U32(d, 0), U32(d, 4);
      if 1 <= t <= 8 && 0 < length <= |d| {
        SubTlvsKnown(d[length..], if length < SUB_TLV_HDR_LEN then a - {t} else a[t := d[SUB_TLV_HDR_LEN..length]]);
      }
    }
  }

  function RewrittenVal(v: Stage2Val): Stage2Val {
    if v.tlvType != ROOTFS_TLV then v
    else
      match ParseSubTlvs(v.payload, map[])
      case Ok(a) => v.(payload := Serialize(a))
      case Err(_) => v
  }

  function RewrittenVals(ps: seq<Parsed2>): (vs: seq<Stage2Val>)
    ensures |vs| == |ps| && forall i :: 0 <= i < |ps| ==> vs[i] == RewrittenVal(ps[i].v)
  {
    seq(|ps|, i requires 0 <= i < |ps| => RewrittenVal(ps[i].v))
  }

  /** The file with its parsed contents, each under its stored fingerprint. */
  function Rewritten(p: ParsedImage): Octets {
    Stage1Bytes(p.stage1.v, p.stage1.fingerprint) + ListBytes(RewrittenVals(p.stage2))
  }

  ghost predicate FullFingerprints(p: ParsedImage) {
    && KnownHash(p.stage1.v.sigType) && |p.stage1.fingerprint| == SigSize(p.stage1.v.sigType)
    && forall i :: 0 <= i < |p.stage2| ==>
         KnownHash(p.stage2[i].v.sigType) && |p.stage2[i].v.fingerprint| == SigSize(p.stage2[i].v.sigType)
  }

  /** Reading the file and writing it again gives the same file, with fingerprints of full length. */
  ghost predicate CanonicalImage(d: Octets) {
    && ParseImage(d).Ok? && FullFingerprints(ParseImage(d).value)
    && Rewritten(ParseImage(d).value) == d
  }

  /** What the parser checks is what would be signed now. */
  ghost predicate SignsNow(p: Parsed2) {
    && KnownHash(p.v.sigType) && |p.v.fingerprint| == SigSize(p.v.sigType)
    && p.signed == Signed2(p.v.tlvType, p.v.payload, p.v.sigType) && CanonicalTlv(p.v)
  }

  lemma {:induction false} ParsedTlvs(d: Octets, acc: map<nat, Octets>)
    requires KnownTlvs(acc)
    ensures ParseTlvs(d, acc).Ok? ==> KnownTlvs(ParseTlvs(d, acc).value)
    decreases |d|
  {
    hide U32;
    if |d| >= 12 {
      var t, total, size := U32(d, 0), U32(d, 4), U32(d, 8);
      if t <= MAX_TLV && 0 < total <= |d| {
        ParsedTlvs(d[total..], acc[t := d[12..Min(12 + size, |d|)]]);
      }
    }
  }

  lemma ParsedStage1(d: Octets)
    ensures ParseStage1(d).Ok? ==> KnownTlvs(ParseStage1(d).value.v.tlvs)
  {
    hide ParseTlvs, ZeroAt, U32;
    if |d| >= HDR_LEN && HDR_LEN <= U32(d, 12) <= |d| {
      var hdrLen, imgLen := U32(d, 12), U32(d, 16);
      var end := if imgLen == 0 then |d| else Min(imgLen, |d|);
      ParsedTlvs(if end <= hdrLen then [] else d[hdrLen..end], map[]);
    }
  }

  /** What every parsed TLV is. */
  ghost predicate Readable(v: Stage2Val) {
    && 0 <= v.tlvType < UINT32_MODULUS && v.payload != []
    && (v.tlvType == ROOTFS_TLV ==> ParseSubTlvs(v.payload, map[]).Ok?)
  }

  lemma {:induction false} ParsedTypes(d: Octets)
    ensures ParseList(d).Ok? ==> forall i :: 0 <= i < |ParseList(d).value| ==> Readable(ParseList(d).value[i].v)
    decreases |d|
  {
    hide ParseStage2, Readable;
    if d != [] && ParseStage2(d).Ok? {
      ParsedType(d);
      ParsedTypes(ParseStage2(d).value.rest);
    }
  }

  lemma ParsedType(d: Octets)
    ensures ParseStage2(d).Ok? ==> Readable(ParseStage2(d).value.v)
  {
    hide U32, ParseSubTlvs;
  }

  lemma {:induction false} PartsFit(vs: seq<Stage2Val>, v: Stage2Val)
    requires v in vs
    ensures |Stage2Bytes(v)| <= |ListBytes(vs)|
  {
    hide Stage2Bytes;
    if vs[0] != v {
      PartsFit(vs[1..], v);
    }
  }

  /** In a canonical image, all checked bytes are those that would be signed now. */
  lemma CanonicalSigns(d: Octets)
    requires CanonicalImage(d) && |d| < UINT32_MODULUS
    ensures var p := ParseImage(d).value;
            && p.stage1.hashed == SignedBytes(p.stage1.v)
            && forall i :: 0 <= i < |p.stage2| ==> SignsNow(p.stage2[i])
  {
    hide ParseStage1, ParseList, Stage1Bytes, SignedBytes, ListBytes, Signed2, Stage2Bytes, RewrittenVal, Readable;
    var p := ParseImage(d).value;
    var v, fingerprint, ws := p.stage1.v, p.stage1.fingerprint, RewrittenVals(p.stage2);
    ParsedStage1(d);
    Stage1RoundTrip(v, fingerprint, ListBytes(ws));
    assert p.stage1.rest == ListBytes(ws);
    ParsedTypes(ListBytes(ws));
    forall w | w in ws
      ensures WritableOrEmpty(w)
    {
      PartsFit(ws, w);
      var i :| 0 <= i < |ws| && ws[i] == w;
      RewrittenWritable(p.stage2[i].v);
    }
    ListReadable(ws);
    ListRoundTrip(ws);
    forall i | 0 <= i < |p.stage2|
      ensures SignsNow(p.stage2[i])
    {
      assert p.stage2[i].v == ws[i];
      RewrittenIsCanonical(p.stage2[i].v);
    }
  }

  lemma RewrittenWritable(v: Stage2Val)
    requires Readable(v) && KnownHash(v.sigType) && |v.fingerprint| == SigSize(v.sigType)
    requires |Stage2Bytes(RewrittenVal(v))| < UINT32_MODULUS
    ensures WritableOrEmpty(RewrittenVal(v))
  {
    hide ParseSubTlvs, Serialize;
    if v.tlvType == ROOTFS_TLV {
      SubTlvsKnown(v.payload, map[]);
      AttributesRoundTrip(ParseSubTlvs(v.payload, map[]).value);
    }
  }

  lemma RewrittenIsCanonical(v: Stage2Val)
    requires Readable(v)
    ensures RewrittenVal(v) == v <==> CanonicalTlv(v)
  {
    hide ParseSubTlvs, Serialize;
  }

  /** Contents that fit the format's 32-bit lengths, with fingerprints of full length. */
  ghost predicate Fits(v: Stage1Val, fingerprint: Octets, vs: seq<Stage2Val>) {
    && KnownHash(v.sigType) && KnownTlvs(v.tlvs) && |fingerprint| == SigSize(v.sigType)
    && |Stage1Bytes(v, fingerprint)| < UINT32_MODULUS
    && forall s :: s in vs ==> Writable2(s) && CanonicalTlv(s)
  }

  /** Every file that this tool writes is canonical, if it can be read at all. */
  lemma WrittenIsCanonical(v: Stage1Val, fingerprint: Octets, vs: seq<Stage2Val>)
    requires Fits(v, fingerprint, vs)
    ensures CanonicalImage(Stage1Bytes(v, fingerprint) + ListBytes(vs))
  {
    hide ParseImage, Stage1Bytes, SignedBytes, ListBytes, Signed2, Stage2Bytes, RewrittenVal, ParseSubTlvs,
        CanonicalTlv, Canonical;
    ImageRoundTrip(v, fingerprint, vs);
    CanonicalBytes(v, fingerprint, fingerprint);
    SameSigType(v, fingerprint);
    var p := ParseImage(Stage1Bytes(v, fingerprint) + ListBytes(vs)).value;
    forall i | 0 <= i < |vs|
      ensures p.stage2[i].v == vs[i] && RewrittenVal(vs[i]) == vs[i]
      ensures KnownHash(vs[i].sigType) && |vs[i].fingerprint| == SigSize(vs[i].sigType)
    {
      assert vs[i] in vs;
      RewrittenIsCanonical(vs[i]);
    }
    assert RewrittenVals(p.stage2) == vs;
  }

  lemma SameSigType(v: Stage1Val, stored: Octets)
    ensures Canonical(v, stored).sigType == v.sigType
  {
  }
}
