/** The octets of the image format, by position, as the boot loader reads them. */
module MfiFormat {
  import opened CText
  import opened Sequences
  import opened MfiOctets
  import opened MfiStage1
  import opened MfiStage2

  /** The three magic numbers, as octets of a file. */
  lemma MagicOctets(d: Octets, i: nat)
    requires i + 4 <= |d|
    ensures U32(d, i) == MAGIC1 <==> d[i..i + 4] == [0xde, 0xd5, 0xd4, 0xed]
    ensures U32(d, i) == MAGIC2 <==> d[i..i + 4] == [0x4d, 0x4c, 0x7b, 0x98]
    ensures U32(d, i) == STAGE2_MAGIC <==> d[i..i + 4] == [0xfe, 0x63, 0xb2, 0xa7]
  {
    var q := d[i..i + 4];
    assert q == [d[i], d[i + 1], d[i + 2], d[i + 3]];
  }

  /** Hash types and the lengths of their fingerprints. */
  lemma HashTypes(sigType: int)
    ensures KnownHash(sigType) <==> sigType == 1 || sigType == 2 || sigType == 3
    ensures KnownHash(sigType) ==> SigSize(sigType) == if sigType == 1 then 16 else 256
  {
  }

  /** A TLV of stage 1: type, total length, data length, data, and NUL bytes up to the next multiple of four. */
  lemma TlvLayout(t: nat, p: Octets)
    requires t < 256 && |p| + 16 < UINT32_MODULUS
    ensures var d := TlvBytes(t, p);
            && |d| % 4 == 0 && 13 + |p| <= |d| <= 16 + |p|
            && d[..4] == [t, 0, 0, 0] && U32(d, 4) == |d| && U32(d, 8) == |p|
            && d[12..12 + |p|] == p && forall i :: 12 + |p| <= i < |d| ==> d[i] == 0
  {
    hide U32, Le32;
    var d := TlvBytes(t, p);
    SmallNumber(t);
    Field(d, 4, |d|);
    Field(d, 8, |p|);
  }

  /** What is there of a TLV. */
  function Present(tlvs: map<nat, Octets>, t: nat): Octets {
    if t in tlvs then TlvBytes(t, tlvs[t]) else []
  }

  lemma TlvStep(tlvs: map<nat, Octets>, t: nat)
    requires t <= 8
    ensures TlvsBytes(tlvs, t) == if t == 8 then [] else if t == 1 then TlvsBytes(tlvs, 2)
                                  else Present(tlvs, t) + TlvsBytes(tlvs, t + 1)
  {
    hide TlvBytes;
    if t == 1 {
      assert [] + TlvsBytes(tlvs, 2) == TlvsBytes(tlvs, 2);
    }
  }

  /** The TLVs other than the signature follow in the order of their types. */
  lemma TlvOrder(tlvs: map<nat, Octets>)
    ensures TlvsBytes(tlvs, 0) ==
            Present(tlvs, 0) + (Present(tlvs, 2) + (Present(tlvs, 3) + (Present(tlvs, 4)
            + (Present(tlvs, 5) + (Present(tlvs, 6) + (Present(tlvs, 7) + []))))))
  {
    hide TlvsBytes, Present;
    TlvStep(tlvs, 0);
    TlvStep(tlvs, 1);
    TlvStep(tlvs, 2);
    TlvStep(tlvs, 3);
    TlvStep(tlvs, 4);
    TlvStep(tlvs, 5);
    TlvStep(tlvs, 6);
    TlvStep(tlvs, 7);
    TlvStep(tlvs, 8);
  }

  /** A name of the header: cut or filled with NUL to 32 octets. */
  ghost predicate IsName(d: Octets, at: nat, name: Octets) {
    at + 32 <= |d| && forall i :: 0 <= i < 32 ==> d[at + i] == if i < |name| then name[i] else 0
  }

  /** The header of stage 1, with both magic numbers, the lengths of header and stage 1, and the signature behind it. */
  lemma Stage1Layout(v: Stage1Val, fingerprint: Octets)
    ensures var d, n := Stage1Bytes(v, fingerprint), |fingerprint|;
            && |d| >= 105 + n
            && d[..8] == [0xde, 0xd5, 0xd4, 0xed, 0x4d, 0x4c, 0x7b, 0x98]
            && U32(d, 8) == v.version % 0x1_0000_0000
            && d[12..16] == [92, 0, 0, 0] && U32(d, 16) == |d| % 0x1_0000_0000
            && IsName(d, 20, v.machine) && IsName(d, 52, v.socName)
            && U32(d, 84) == v.socNo % 0x1_0000_0000 && U32(d, 88) == v.sigType % 0x1_0000_0000
            && d[92..] == TlvBytes(1, fingerprint) + TlvsBytes(v.tlvs, 0)
            && d[104..104 + n] == fingerprint
  {
    hide U32, TlvsBytes, Fixed, TlvBytes, HeaderBytes, BodyBytes, Stage1Bytes, IsName;
    var body := BodyBytes(v, fingerprint);
    var d := Stage1Bytes(v, fingerprint);
    HeaderFields(v, HDR_LEN, HDR_LEN + |body|, body);
    BodyBehindHeader(v, fingerprint);
    NamesAreFixed(v, d);
    MagicOctets(d, 0);
    MagicOctets(d, 4);
    assert d[..8] == d[0..4] + d[4..8];
    NumberOctets(d, 12);
  }

  lemma BodyBehindHeader(v: Stage1Val, fingerprint: Octets)
    ensures var d, body, n := Stage1Bytes(v, fingerprint), BodyBytes(v, fingerprint), |fingerprint|;
            && d == HeaderBytes(v, HDR_LEN, HDR_LEN + |body|) + body
            && |d| == 92 + |body| >= 105 + n && d[92..] == body == TlvBytes(1, fingerprint) + TlvsBytes(v.tlvs, 0)
            && d[104..104 + n] == fingerprint
  {
    hide U32, TlvsBytes, Fixed, HeaderBytes, Le32;
    var d, body, n := Stage1Bytes(v, fingerprint), BodyBytes(v, fingerprint), |fingerprint|;
    assert d[104..104 + n] == body[12..12 + n] == TlvBytes(1, fingerprint)[12..12 + n] == fingerprint;
  }

  lemma NamesAreFixed(v: Stage1Val, d: Octets)
    requires |d| >= 84 && d[20..52] == Fixed(v.machine, NAME_LEN) && d[52..84] == Fixed(v.socName, NAME_LEN)
    ensures IsName(d, 20, v.machine) && IsName(d, 52, v.socName)
  {
    forall i | 0 <= i < 32
      ensures d[20 + i] == if i < |v.machine| then v.machine[i] else 0
      ensures d[52 + i] == if i < |v.socName| then v.socName[i] else 0
    {
      assert d[20 + i] == d[20..52][i] && d[52 + i] == d[52..84][i];
    }
  }

  /** A TLV of stage 2: magic number, type, total length, data length, hash type, data and fingerprint. */
  lemma Stage2Layout(v: Stage2Val)
    requires KnownHash(v.sigType) && |v.fingerprint| == SigSize(v.sigType) && |v.payload| + 276 < UINT32_MODULUS
    ensures var d, n := Stage2Bytes(v), |v.payload|;
            && |d| == 20 + n + (if v.sigType == 1 then 16 else 256)
            && d[..4] == [0xfe, 0x63, 0xb2, 0xa7] && U32(d, 4) == v.tlvType % 0x1_0000_0000
            && U32(d, 8) == |d| && U32(d, 12) == n && d[16..20] == [v.sigType, 0, 0, 0]
            && d[20..20 + n] == v.payload && d[20 + n..] == v.fingerprint
            && Signed2(v.tlvType, v.payload, v.sigType) == d[..20 + n]
  {
    hide U32, Le32;
    var d := Stage2Bytes(v);
    Stage2Fields(v, []);
    assert d + [] == d;
    MagicOctets(d, 0);
    assert d[0..4] == d[..4];
    NumberOctets(d, 16);
  }

  /** A sub-TLV: type, length with its header, and data. */
  lemma SubTlvLayout(t: nat, p: Octets)
    requires t < 256 && |p| + 8 < UINT32_MODULUS
    ensures var d := SubTlvBytes(t, p);
            && |d| == 8 + |p| && d[..4] == [t, 0, 0, 0] && U32(d, 4) == |d| && d[8..] == p
  {
    hide U32, Le32;
    SmallNumber(t);
    Field(SubTlvBytes(t, p), 4, |p| + 8);
  }

  /** What is there of an attribute. */
  function Attribute(a: Attributes, t: int): Octets {
    if t in a then SubTlvBytes(t, a[t]) else []
  }

  lemma AttributeStep(a: Attributes, k: nat, t: int)
    requires k < 8 && SUB_TLV_ORDER[k] == t
    ensures SerializeFrom(a, k) == Attribute(a, t) + SerializeFrom(a, k + 1)
    ensures SerializeFrom(a, 8) == []
  {
    hide SubTlvBytes;
  }

  /** Name, version, license, preexec and tar content; then squashfs content, postexec and file name. */
  lemma AttributeOrder(a: Attributes)
    ensures Serialize(a) ==
            Attribute(a, 1) + (Attribute(a, 2) + (Attribute(a, 3) + (Attribute(a, 4) + (Attribute(a, 5)
            + (Attribute(a, 8) + (Attribute(a, 6) + (Attribute(a, 7) + [])))))))
  {
    hide SerializeFrom, Attribute;
    AttributeStep(a, 0, 1);
    AttributeStep(a, 1, 2);
    AttributeStep(a, 2, 3);
    AttributeStep(a, 3, 4);
    AttributeStep(a, 4, 5);
    AttributeStep(a, 5, 8);
    AttributeStep(a, 6, 6);
    AttributeStep(a, 7, 7);
  }

  /** Data without a stage 1 are those that start with neither magic number at its place. */
  lemma NoStage1Octets(d: Octets)
    ensures ParseStage1(d) == Err(NoStage1) <==>
            && (|d| < 4 || d[..4] != [0xde, 0xd5, 0xd4, 0xed]) && (|d| < 8 || d[4..8] != [0x4d, 0x4c, 0x7b, 0x98])
  {
    hide U32, ParseTlvs;
    if |d| >= 4 {
      MagicOctets(d, 0);
      assert d[0..4] == d[..4];
    }
    if |d| >= 8 {
      MagicOctets(d, 4);
    }
    OtherFaults(if |d| >= HDR_LEN then d else [], map[]);
    forall x: Octets
      ensures ParseTlvs(x, map[]) != Err(NoStage1)
    {
      OtherFaults(x, map[]);
    }
  }

  lemma {:induction false} OtherFaults(d: Octets, tlvs: map<nat, Octets>)
    ensures ParseTlvs(d, tlvs) != Err(NoStage1)
    decreases |d|
  {
    hide U32;
    if |d| >= 12 && U32(d, 0) <= MAX_TLV && 0 < U32(d, 4) <= |d| {
      OtherFaults(d[U32(d, 4)..], tlvs[U32(d, 0) := d[12..Min(12 + U32(d, 8), |d|)]]);
    }
  }

  /** A stage 2 TLV with data is refused for its magic number exactly if it starts with other octets. */
  lemma BadMagicOctets(d: Octets)
    requires |d| >= 20 && d[12..16] != [0, 0, 0, 0]
    ensures ParseStage2(d) == Err(BadMagic) <==> d[..4] != [0xfe, 0x63, 0xb2, 0xa7]
  {
    hide U32, ParseSubTlvs;
    MagicOctets(d, 0);
    assert d[0..4] == d[..4];
    NumberOctets(d, 12);
    forall x: Octets
      ensures ParseSubTlvs(x, map[]) != Err(BadMagic)
    {
      OtherSubFaults(x, map[]);
    }
  }

  lemma {:induction false} OtherSubFaults(d: Octets, a: Attributes)
    ensures ParseSubTlvs(d, a) != Err(BadMagic)
    decreases |d|
  {
    hide U32;
    if |d| >= SUB_TLV_HDR_LEN && 1 <= U32(d, 0) <= 8 && 0 < U32(d, 4) <= |d| {
      var t, length := U32(d, 0), U32(d, 4);
      OtherSubFaults(d[length..], if length < SUB_TLV_HDR_LEN then a - {t} else a[t := d[SUB_TLV_HDR_LEN..length]]);
    }
  }
}
