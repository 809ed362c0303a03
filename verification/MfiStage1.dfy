/**
 * Stage 1 of a firmware image: a header with back-patched lengths, a signature TLV, and the
 * other TLVs in the order of their types.
 */
module MfiStage1 {
  import opened CText
  import opened Sequences
  import opened MfiOctets

  const MAGIC1: int := 0xedd4d5de
  const MAGIC2: int := 0x987b4c4d
  const NAME_LEN: nat := 32
  const HDR_LEN: nat := 92
  const SIGNATURE_TLV: nat := 1
  const MAX_TLV: nat := 7

  const SIGNATURE_MD5: int := 1
  const SIGNATURE_SHA256: int := 2
  const SIGNATURE_SHA512: int := 3

  predicate KnownHash(sigType: int) {
    sigType == SIGNATURE_MD5 || sigType == SIGNATURE_SHA256 || sigType == SIGNATURE_SHA512
  }

  /** The length of a fingerprint of a known type. */
  function SigSize(sigType: int): nat {
    if sigType == SIGNATURE_MD5 then 16 else 256
  }

  datatype Stage1Val = Stage1Val(version: int, machine: Octets, socName: Octets, socNo: int, sigType: int,
                                 tlvs: map<nat, Octets>)

  ghost predicate KnownTlvs(tlvs: map<nat, Octets>) {
    forall t :: t in tlvs ==> t <= MAX_TLV
  }

  // ---------------------------------------------------------------------------------------
  // The bytes
  // ---------------------------------------------------------------------------------------

  function Padding(p: Octets): nat {
    4 - |p| % 4
  }

  /** One TLV: type, total length, data length, data, and one to four NUL bytes. */
  function TlvBytes(t: nat, p: Octets): (d: Octets)
    ensures |d| == 12 + |p| + Padding(p)
  {
    Le32(t) + Le32(12 + |p| + Padding(p)) + Le32(|p|) + p + Zeros(Padding(p))
  }

  /** All TLVs of type `from` or higher but the signature. */
  function TlvsBytes(tlvs: map<nat, Octets>, from: nat): Octets
    decreases MAX_TLV + 1 - from
  {
    if from > MAX_TLV then []
    else (if from in tlvs && from != SIGNATURE_TLV then TlvBytes(from, tlvs[from]) else []) + TlvsBytes(tlvs, from + 1)
  }

  function HeaderBytes(v: Stage1Val, hdrLen: int, imgLen: int): (d: Octets)
    ensures |d| == HDR_LEN
  {
    Le32(MAGIC1) + Le32(MAGIC2) + Le32(v.version) + Le32(hdrLen) + Le32(imgLen)
    + Fixed(v.machine, NAME_LEN) + Fixed(v.socName, NAME_LEN) + Le32(v.socNo) + Le32(v.sigType)
  }

  function BodyBytes(v: Stage1Val, fingerprint: Octets): Octets {
    TlvBytes(SIGNATURE_TLV, fingerprint) + TlvsBytes(v.tlvs, 0)
  }

  /** The finished stage 1 with the given fingerprint; both lengths in the header are those of the parts. */
  function Stage1Bytes(v: Stage1Val, fingerprint: Octets): Octets {
    HeaderBytes(v, HDR_LEN, HDR_LEN + |BodyBytes(v, fingerprint)|) + BodyBytes(v, fingerprint)
  }

  /** The bytes that are signed: stage 1 with its fingerprint zeroed. */
  function SignedBytes(v: Stage1Val): Octets {
    Stage1Bytes(v, Zeros(SigSize(v.sigType)))
  }

  // ---------------------------------------------------------------------------------------
  // Parsing
  // ---------------------------------------------------------------------------------------

  /** The TLVs in `d`, later ones replacing earlier ones of the same type. */
  function ParseTlvs(d: Octets, tlvs: map<nat, Octets>): Result<map<nat, Octets>>
    decreases |d|
  {
    if d == [] then Ok(tlvs)
    else if |d| < 12 then Err(Malformed)
    else
      var t, total, size := U32(d, 0), U32(d, 4), U32(d, 8);
      if t > MAX_TLV then Err(InvalidTlv)
      else if total > |d| then Err(Malformed)
      else if total == 0 then Err(Diverges)
      else ParseTlvs(d[total..], tlvs[t := d[12..Min(12 + size, |d|)]])
  }

  /** A parsed stage 1, its stored fingerprint, the bytes its signature is checked against, and what follows it. */
  datatype Parsed1 = Parsed1(v: Stage1Val, fingerprint: Octets, hashed: Octets, rest: Octets)

  /** `d[at, n]` replaced by NUL bytes. */
  function ZeroAt(d: Octets, at: nat, n: nat): Octets
    requires at <= |d|
  {
    d[..at] + Zeros(n) + d[Min(at + n, |d|)..]
  }

  function ParseStage1(d: Octets): Result<Parsed1> {
    if (|d| < 4 || U32(d, 0) != MAGIC1) && (|d| < 8 || U32(d, 4) != MAGIC2) then Err(NoStage1)
    else if |d| < HDR_LEN then Err(Malformed)
    else
      var hdrLen, imgLen := U32(d, 12), U32(d, 16);
      if hdrLen < HDR_LEN || hdrLen > |d| then Err(Malformed)
      else
        var sigType := U32(d, 88);
        var end := if imgLen == 0 then |d| else Min(imgLen, |d|);
        var tlvs := ParseTlvs(if end <= hdrLen then [] else d[hdrLen..end], map[]);
        if tlvs.Err? then Err(tlvs.fault)
        else if SIGNATURE_TLV !in tlvs.value then Err(NoSignature)
        else if !KnownHash(sigType) then Err(UnknownHash)
        else
          var image := d[..Min(imgLen, |d|)];
          if hdrLen + 12 > |image| || imgLen > |d| then Err(Malformed)
          else Ok(Parsed1(Stage1Val(U32(d, 8), d[20..52], d[52..84], U32(d, 84), sigType, tlvs.value),
                          tlvs.value[SIGNATURE_TLV], ZeroAt(image, hdrLen + 12, SigSize(sigType)),
                          d[imgLen..]))
  }

  // ---------------------------------------------------------------------------------------
  // Round trip
  // ---------------------------------------------------------------------------------------

  lemma Field(d: Octets, i: nat, n: int)
    requires i + 4 <= |d| && d[i..i + 4] == Le32(n)
    ensures U32(d, i) == n % UINT32_MODULUS
  {
    U32At(d[..i], n, d[i + 4..]);
    assert d == d[..i] + Le32(n) + d[i + 4..];
  }

  lemma TlvFields(t: nat, p: Octets, rest: Octets)
    requires t < UINT32_MODULUS && 12 + |p| + Padding(p) < UINT32_MODULUS
    ensures var d := TlvBytes(t, p) + rest;
            var total := 12 + |p| + Padding(p);
            && U32(d, 0) == t && U32(d, 4) == total && U32(d, 8) == |p|
            && d[total..] == rest && d[12..12 + |p|] == p
  {
    hide U32, Le32;
    var d := TlvBytes(t, p) + rest;
    Field(d, 0, t);
    Field(d, 4, 12 + |p| + Padding(p));
    Field(d, 8, |p|);
  }

  lemma ParseOneTlv(t: nat, p: Octets, rest: Octets, tlvs: map<nat, Octets>)
    requires t <= MAX_TLV && 12 + |p| + Padding(p) < UINT32_MODULUS
    ensures ParseTlvs(TlvBytes(t, p) + rest, tlvs) == ParseTlvs(rest, tlvs[t := p])
  {
    hide U32, TlvBytes, Padding;
    TlvFields(t, p, rest);
    var d := TlvBytes(t, p) + rest;
    assert |d| >= 12 + |p| && Min(12 + |p|, |d|) == 12 + |p|;
  }

  /** What parsing the TLVs from `from` on adds. */
  function Merged(acc: map<nat, Octets>, tlvs: map<nat, Octets>, from: nat): map<nat, Octets>
    decreases MAX_TLV + 1 - from
  {
    if from > MAX_TLV then acc
    else Merged(if from in tlvs && from != SIGNATURE_TLV then acc[from := tlvs[from]] else acc, tlvs, from + 1)
  }

  lemma {:induction false} MergedIsUpdate(acc: map<nat, Octets>, tlvs: map<nat, Octets>, from: nat)
    requires KnownTlvs(tlvs)
    ensures forall t: nat :: t in Merged(acc, tlvs, from) <==>
                             t in acc || (t in tlvs && t >= from && t != SIGNATURE_TLV)
    ensures forall t: nat :: t in Merged(acc, tlvs, from) ==>
                             Merged(acc, tlvs, from)[t] ==
                             if t in tlvs && t >= from && t != SIGNATURE_TLV then tlvs[t] else acc[t]
    decreases MAX_TLV + 1 - from
  {
    if from <= MAX_TLV {
      MergedIsUpdate(if from in tlvs && from != SIGNATURE_TLV then acc[from := tlvs[from]] else acc, tlvs, from + 1);
    }
  }

  lemma {:induction false} ParseAllTlvs(tlvs: map<nat, Octets>, from: nat, acc: map<nat, Octets>)
    requires |TlvsBytes(tlvs, from)| < UINT32_MODULUS
    ensures ParseTlvs(TlvsBytes(tlvs, from), acc) == Ok(Merged(acc, tlvs, from))
    decreases MAX_TLV + 1 - from
  {
    hide ParseTlvs, TlvBytes;
    if from > MAX_TLV {
      ParseNoTlvs(acc);
    } else if from in tlvs && from != SIGNATURE_TLV {
      var rest := TlvsBytes(tlvs, from + 1);
      ParseOneTlv(from, tlvs[from], rest, acc);
      ParseAllTlvs(tlvs, from + 1, acc[from := tlvs[from]]);
    } else {
      assert TlvsBytes(tlvs, from) == TlvsBytes(tlvs, from + 1);
      ParseAllTlvs(tlvs, from + 1, acc);
    }
  }

  lemma ParseNoTlvs(acc: map<nat, Octets>)
    ensures ParseTlvs([], acc) == Ok(acc)
  {
  }

  /** The parsed form of `v`: names of fixed length, and the fingerprint among the TLVs. */
  function Canonical(v: Stage1Val, fingerprint: Octets): Stage1Val {
    v.(machine := Fixed(v.machine, NAME_LEN), socName := Fixed(v.socName, NAME_LEN),
       version := v.version % UINT32_MODULUS, socNo := v.socNo % UINT32_MODULUS,
       tlvs := v.tlvs[SIGNATURE_TLV := fingerprint])
  }

  /** The header fields, by position. */
  lemma HeaderFields(v: Stage1Val, hdrLen: int, imgLen: int, rest: Octets)
    ensures var d := HeaderBytes(v, hdrLen, imgLen) + rest;
            && U32(d, 0) == MAGIC1 && U32(d, 4) == MAGIC2 && U32(d, 8) == v.version % UINT32_MODULUS
            && U32(d, 12) == hdrLen % UINT32_MODULUS && U32(d, 16) == imgLen % UINT32_MODULUS
            && d[20..52] == Fixed(v.machine, NAME_LEN) && d[52..84] == Fixed(v.socName, NAME_LEN)
            && U32(d, 84) == v.socNo % UINT32_MODULUS && U32(d, 88) == v.sigType % UINT32_MODULUS
  {
    hide Fixed, U32;
    var d := HeaderBytes(v, hdrLen, imgLen) + rest;
    Field(d, 0, MAGIC1);
    Field(d, 4, MAGIC2);
    Field(d, 8, v.version);
    Field(d, 12, hdrLen);
    Field(d, 16, imgLen);
    Field(d, 84, v.socNo);
    Field(d, 88, v.sigType);
  }

  /** What stands before and behind the fingerprint does not depend on it. */
  function BeforeFingerprint(v: Stage1Val, n: nat): (d: Octets)
    ensures |d| == HDR_LEN + 12
  {
    var pad := 4 - n % 4;
    HeaderBytes(v, HDR_LEN, HDR_LEN + 12 + n + pad + |TlvsBytes(v.tlvs, 0)|)
    + (Le32(SIGNATURE_TLV) + Le32(12 + n + pad) + Le32(n))
  }

  function BehindFingerprint(v: Stage1Val, n: nat): Octets {
    Zeros(4 - n % 4) + TlvsBytes(v.tlvs, 0)
  }

  lemma AroundFingerprint(v: Stage1Val, fingerprint: Octets)
    ensures var n := |fingerprint|;
            Stage1Bytes(v, fingerprint) == BeforeFingerprint(v, n) + (fingerprint + BehindFingerprint(v, n))
  {
    hide HeaderBytes, TlvsBytes, Le32;
    var n := |fingerprint|;
    var lead, pad, tlvs :=
        Le32(SIGNATURE_TLV) + Le32(12 + n + (4 - n % 4)) + Le32(n), Zeros(4 - n % 4), TlvsBytes(v.tlvs, 0);
    RegroupFour(lead, fingerprint, pad, tlvs);
    var header := HeaderBytes(v, HDR_LEN, HDR_LEN + |BodyBytes(v, fingerprint)|);
    assert header + (lead + (fingerprint + (pad + tlvs))) == header + lead + (fingerprint + (pad + tlvs));
  }

  lemma RegroupFour(a: Octets, b: Octets, c: Octets, d: Octets)
    ensures a + b + c + d == a + (b + (c + d))
  {
  }

  lemma ReplaceMiddle(a: Octets, b: Octets, c: Octets)
    ensures ZeroAt(a + (b + c), |a|, |b|) == a + (Zeros(|b|) + c)
  {
    var d := a + (b + c);
    assert d[..|a|] == a && d[Min(|a| + |b|, |d|)..] == c;
  }

  /** Zeroing the fingerprint of a written image gives the bytes that were signed. */
  lemma ZeroedIsSigned(v: Stage1Val, fingerprint: Octets)
    requires |fingerprint| == SigSize(v.sigType)
    ensures |Stage1Bytes(v, fingerprint)| >= HDR_LEN + 12
    ensures ZeroAt(Stage1Bytes(v, fingerprint), HDR_LEN + 12, SigSize(v.sigType)) == SignedBytes(v)
  {
    hide Stage1Bytes, BeforeFingerprint, BehindFingerprint, ZeroAt, Zeros;
    var n := SigSize(v.sigType);
    AroundFingerprint(v, fingerprint);
    AroundFingerprint(v, Zeros(n));
    ReplaceMiddle(BeforeFingerprint(v, n), fingerprint, BehindFingerprint(v, n));
  }

  /** Parsing a written stage 1 gives it back, wherever it ends, and checks exactly the signed bytes. */
  lemma Stage1RoundTrip(v: Stage1Val, fingerprint: Octets, rest: Octets)
    requires KnownHash(v.sigType) && KnownTlvs(v.tlvs) && |fingerprint| == SigSize(v.sigType)
    requires |Stage1Bytes(v, fingerprint)| < UINT32_MODULUS
    ensures ParseStage1(Stage1Bytes(v, fingerprint) + rest) ==
            Ok(Parsed1(Canonical(v, fingerprint), fingerprint, SignedBytes(v), rest))
  {
    hide HeaderBytes, TlvBytes, TlvsBytes, ParseTlvs, SignedBytes, ZeroAt, U32, Fixed;
    var body := BodyBytes(v, fingerprint);
    var imgLen := HDR_LEN + |body|;
    var d := Stage1Bytes(v, fingerprint) + rest;
    assert d == HeaderBytes(v, HDR_LEN, imgLen) + (body + rest);
    HeaderFields(v, HDR_LEN, imgLen, body + rest);
    assert d[HDR_LEN..imgLen] == body && d[..imgLen] == Stage1Bytes(v, fingerprint) && d[imgLen..] == rest;
    ParseOneTlv(SIGNATURE_TLV, fingerprint, TlvsBytes(v.tlvs, 0), map[]);
    ParseAllTlvs(v.tlvs, 0, map[SIGNATURE_TLV := fingerprint]);
    MergedIsUpdate(map[SIGNATURE_TLV := fingerprint], v.tlvs, 0);
    assert Merged(map[SIGNATURE_TLV := fingerprint], v.tlvs, 0) == v.tlvs[SIGNATURE_TLV := fingerprint];
    ZeroedIsSigned(v, fingerprint);
  }
}
