/**
 * Stage 2 of a firmware image: a list of signed TLVs. The payload of a root file system TLV is
 * itself a list of sub-TLVs, one for each attribute that is set.
 */
module MfiStage2 {
  import opened CText
  import opened Sequences
  import opened MfiOctets
  import opened MfiStage1

  const STAGE2_MAGIC: int := 0xa7b263fe
  const STAGE2_DATA_OFFSET: nat := 20
  const ROOTFS_TLV: int := 2
  const SUB_TLV_HDR_LEN: nat := 8

  /** The attributes of a root file system, by sub-TLV type; an attribute that is not set is absent. */
  type Attributes = map<int, Octets>

  // Name, version, license, preexec, tar content, squashfs content, postexec, file name
  const SUB_TLV_ORDER: seq<int> := [1, 2, 3, 4, 5, 8, 6, 7]

  ghost predicate KnownAttributes(a: Attributes) {
    forall t :: t in a ==> 1 <= t <= 8
  }

  function SubTlvBytes(t: int, p: Octets): (d: Octets)
    ensures |d| == SUB_TLV_HDR_LEN + |p|
  {
    Le32(t) + Le32(|p| + SUB_TLV_HDR_LEN) + p
  }

  /** The sub-TLVs from position `k` of the writing order on. */
  function SerializeFrom(a: Attributes, k: nat): Octets
    requires k <= |SUB_TLV_ORDER|
    decreases |SUB_TLV_ORDER| - k
  {
    if k == |SUB_TLV_ORDER| then []
    else
      var t := SUB_TLV_ORDER[k];
      (if t in a then SubTlvBytes(t, a[t]) else []) + SerializeFrom(a, k + 1)
  }

  function Serialize(a: Attributes): Octets {
    SerializeFrom(a, 0)
  }

  /** The attributes in `d`; a sub-TLV shorter than its header unsets its attribute. */
  function ParseSubTlvs(d: Octets, a: Attributes): Result<Attributes>
    decreases |d|
  {
    if d == [] then Ok(a)
    else if |d| < SUB_TLV_HDR_LEN then Err(Malformed)
    else
      var t, length := U32(d, 0), U32(d, 4);
      if t < 1 || t > 8 then Err(UnknownSubTlv)
      else if length > |d| then Err(Malformed)
      else if length == 0 then Err(Diverges)
      else ParseSubTlvs(d[length..], if length < SUB_TLV_HDR_LEN then a - {t} else a[t := d[SUB_TLV_HDR_LEN..length]])
  }

  lemma ParseOneSubTlv(t: int, p: Octets, rest: Octets, a: Attributes)
    requires 1 <= t <= 8 && SUB_TLV_HDR_LEN + |p| < UINT32_MODULUS
    ensures ParseSubTlvs(SubTlvBytes(t, p) + rest, a) == ParseSubTlvs(rest, a[t := p])
  {
    hide U32, Le32;
    var d := SubTlvBytes(t, p) + rest;
    var length := SUB_TLV_HDR_LEN + |p|;
    Field(d, 0, t);
    Field(d, 4, length);
    assert d[length..] == rest && d[SUB_TLV_HDR_LEN..length] == p;
  }

  /** What parsing the sub-TLVs from position `k` on adds. */
  function Gathered(acc: Attributes, a: Attributes, k: nat): Attributes
    requires k <= |SUB_TLV_ORDER|
    decreases |SUB_TLV_ORDER| - k
  {
    if k == |SUB_TLV_ORDER| then acc
    else Gathered(if SUB_TLV_ORDER[k] in a then acc[SUB_TLV_ORDER[k] := a[SUB_TLV_ORDER[k]]] else acc, a, k + 1)
  }

  lemma {:induction false} GatheredIsUpdate(acc: Attributes, a: Attributes, k: nat)
    requires k <= |SUB_TLV_ORDER|
    ensures var g := Gathered(acc, a, k);
            && (forall t :: t in g <==> t in acc || (t in a && t in SUB_TLV_ORDER[k..]))
            && (forall t :: t in g ==> g[t] == if t in a && t in SUB_TLV_ORDER[k..] then a[t] else acc[t])
    decreases |SUB_TLV_ORDER| - k
  {
    if k < |SUB_TLV_ORDER| {
      assert SUB_TLV_ORDER[k..] == [SUB_TLV_ORDER[k]] + SUB_TLV_ORDER[k + 1..];
      GatheredIsUpdate(if SUB_TLV_ORDER[k] in a then acc[SUB_TLV_ORDER[k] := a[SUB_TLV_ORDER[k]]] else acc, a, k + 1);
    }
  }

  lemma {:induction false} ParseAllSubTlvs(a: Attributes, k: nat, acc: Attributes)
    requires k <= |SUB_TLV_ORDER| && |SerializeFrom(a, k)| < UINT32_MODULUS
    ensures ParseSubTlvs(SerializeFrom(a, k), acc) == Ok(Gathered(acc, a, k))
    decreases |SUB_TLV_ORDER| - k
  {
    hide ParseSubTlvs, SubTlvBytes;
    if k == |SUB_TLV_ORDER| {
      ParseNoSubTlvs(acc);
    } else {
      var t, rest := SUB_TLV_ORDER[k], SerializeFrom(a, k + 1);
      if t in a {
        ParseOneSubTlv(t, a[t], rest, acc);
        ParseAllSubTlvs(a, k + 1, acc[t := a[t]]);
      } else {
        assert SerializeFrom(a, k) == rest;
        ParseAllSubTlvs(a, k + 1, acc);
      }
    }
  }

  lemma ParseNoSubTlvs(acc: Attributes)
    ensures ParseSubTlvs([], acc) == Ok(acc)
  {
  }

  lemma OrderIsComplete()
    ensures forall t: int :: t in SUB_TLV_ORDER <==> 1 <= t <= 8
    ensures SUB_TLV_ORDER[0..] == SUB_TLV_ORDER
  {
    var o := SUB_TLV_ORDER;
    assert o[0] == 1 && o[1] == 2 && o[2] == 3 && o[3] == 4 && o[4] == 5 && o[6] == 6 && o[7] == 7 && o[5] == 8;
  }

  /** Parsing a serialised root file system gives its attributes back. */
  lemma AttributesRoundTrip(a: Attributes)
    requires KnownAttributes(a) && |Serialize(a)| < UINT32_MODULUS
    ensures ParseSubTlvs(Serialize(a), map[]) == Ok(a)
  {
    hide ParseSubTlvs, SerializeFrom, Gathered;
    ParseAllSubTlvs(a, 0, map[]);
    GatheredIsUpdate(map[], a, 0);
    OrderIsComplete();
    var g := Gathered(map[], a, 0);
    forall t: int
      ensures t in g <==> t in a
      ensures t in g ==> g[t] == a[t]
    {
    }
    assert g == a;
  }

  // ---------------------------------------------------------------------------------------
  // Signed TLVs
  // ---------------------------------------------------------------------------------------

  datatype Stage2Val = Stage2Val(tlvType: int, payload: Octets, sigType: int, fingerprint: Octets)

  /** Header and payload: the bytes that are signed. */
  function Signed2(tlvType: int, payload: Octets, sigType: int): (d: Octets)
    ensures |d| == STAGE2_DATA_OFFSET + |payload|
  {
    Le32(STAGE2_MAGIC) + Le32(tlvType) + Le32(|payload| + STAGE2_DATA_OFFSET + SigSize(sigType)) + Le32(|payload|)
    + Le32(sigType) + payload
  }

  function Stage2Bytes(v: Stage2Val): Octets {
    Signed2(v.tlvType, v.payload, v.sigType) + v.fingerprint
  }

  /** A parsed TLV, the bytes its signature is checked against, and what follows it. */
  datatype Parsed2 = Parsed2(v: Stage2Val, signed: Octets, rest: Octets)

  function ParseStage2(d: Octets): (r: Result<Parsed2>)
    ensures r.Ok? ==> |r.value.rest| < |d|
  {
    if |d| < STAGE2_DATA_OFFSET then Err(Malformed)
    else
      var length, dataLength, sigType := U32(d, 8), U32(d, 12), U32(d, 16);
      if dataLength == 0 then Err(EmptyData)
      else if U32(d, 0) != STAGE2_MAGIC then Err(BadMagic)
      else
        var data := d[STAGE2_DATA_OFFSET..Min(STAGE2_DATA_OFFSET + dataLength, |d|)];
        var attributes := if U32(d, 4) == ROOTFS_TLV then ParseSubTlvs(data, map[]) else Ok(map[]);
        if attributes.Err? then Err(attributes.fault)
        else if !KnownHash(sigType) then Err(UnknownHash)
        else
          var sigOff := STAGE2_DATA_OFFSET + dataLength;
          if length < SigSize(sigType) || length < sigOff || sigOff > |d| then Err(Malformed)
          else Ok(Parsed2(Stage2Val(U32(d, 4), data, sigType, d[sigOff..Min(length, |d|)]),
                          d[..Min(length - SigSize(sigType), |d|)], d[Min(length, |d|)..]))
  }

  ghost predicate Writable2(v: Stage2Val) {
    && 0 <= v.tlvType < UINT32_MODULUS && KnownHash(v.sigType) && |v.fingerprint| == SigSize(v.sigType)
    && v.payload != [] && |Stage2Bytes(v)| < UINT32_MODULUS
    && (v.tlvType == ROOTFS_TLV ==> ParseSubTlvs(v.payload, map[]).Ok?)
  }

  lemma Stage2RoundTrip(v: Stage2Val, rest: Octets)
    requires Writable2(v)
    ensures ParseStage2(Stage2Bytes(v) + rest) == Ok(Parsed2(v, Signed2(v.tlvType, v.payload, v.sigType), rest))
  {
    hide U32, Le32, ParseSubTlvs;
    var d := Stage2Bytes(v) + rest;
    var signed := Signed2(v.tlvType, v.payload, v.sigType);
    var sigOff := STAGE2_DATA_OFFSET + |v.payload|;
    var length := sigOff + SigSize(v.sigType);
    Stage2Fields(v, rest);
    assert d[STAGE2_DATA_OFFSET..sigOff] == v.payload && d[sigOff..length] == v.fingerprint;
    assert d[..sigOff] == signed && d[length..] == rest;
  }

  lemma Stage2Fields(v: Stage2Val, rest: Octets)
    ensures var d := Stage2Bytes(v) + rest;
            && U32(d, 0) == STAGE2_MAGIC && U32(d, 4) == v.tlvType % UINT32_MODULUS
            && U32(d, 8) == (|v.payload| + STAGE2_DATA_OFFSET + SigSize(v.sigType)) % UINT32_MODULUS
            && U32(d, 12) == |v.payload| % UINT32_MODULUS && U32(d, 16) == v.sigType % UINT32_MODULUS
  {
    hide U32, Le32;
    var d := Stage2Bytes(v) + rest;
    Field(d, 0, STAGE2_MAGIC);
    Field(d, 4, v.tlvType);
    Field(d, 8, |v.payload| + STAGE2_DATA_OFFSET + SigSize(v.sigType));
    Field(d, 12, |v.payload|);
    Field(d, 16, v.sigType);
  }

  // ---------------------------------------------------------------------------------------
  // Whole images
  // ---------------------------------------------------------------------------------------

  function ListBytes(vs: seq<Stage2Val>): Octets {
    if vs == [] then [] else Stage2Bytes(vs[0]) + ListBytes(vs[1..])
  }

  function ParseList(d: Octets): Result<seq<Parsed2>>
    decreases |d|
  {
    if d == [] then Ok([])
    else
      match ParseStage2(d)
      case Err(fault) => Err(fault)
      case Ok(one) =>
        match ParseList(one.rest)
        case Err(fault) => Err(fault)
        case Ok(more) => Ok([one] + more)
  }

  datatype ParsedImage = ParsedImage(stage1: Parsed1, stage2: seq<Parsed2>)

  function ParseImage(d: Octets): Result<ParsedImage> {
    match ParseStage1(d)
    case Err(fault) => Err(fault)
    case Ok(one) =>
      match ParseList(one.rest)
      case Err(fault) => Err(fault)
      case Ok(list) => Ok(ParsedImage(one, list))
  }

  /** The parsed list is the written one, in order, each checked against its signed bytes. */
  ghost predicate SameList(ps: seq<Parsed2>, vs: seq<Stage2Val>) {
    && |ps| == |vs|
    && forall i :: 0 <= i < |vs| ==>
        ps[i].v == vs[i] && ps[i].signed == Signed2(vs[i].tlvType, vs[i].payload, vs[i].sigType)
  }

  lemma {:induction false} ListRoundTrip(vs: seq<Stage2Val>)
    requires forall v :: v in vs ==> Writable2(v)
    ensures ParseList(ListBytes(vs)).Ok? && SameList(ParseList(ListBytes(vs)).value, vs)
    decreases |vs|
  {
    hide ParseStage2, Writable2, Signed2;
    if vs != [] {
      assert vs[0] in vs;
      ListRoundTrip(vs[1..]);
      Stage2RoundTrip(vs[0], ListBytes(vs[1..]));
      assert ListBytes(vs) != [] by { NotEmpty(vs[0]); }
      var ps := ParseList(ListBytes(vs)).value;
      forall i | 0 <= i < |vs|
        ensures ps[i].v == vs[i] && ps[i].signed == Signed2(vs[i].tlvType, vs[i].payload, vs[i].sigType)
      {
        if i > 0 {
          assert vs[1..][i - 1] == vs[i];
        }
      }
    }
  }

  lemma NotEmpty(v: Stage2Val)
    ensures |Stage2Bytes(v)| > 0
  {
  }

  /**
   * Parsing a written image returns it: stage 1 with names of fixed length and the fingerprint
   * among its TLVs, and every stage 2 TLV in order. Both are checked against the bytes that were
   * signed.
   */
  lemma ImageRoundTrip(v: Stage1Val, fingerprint: Octets, vs: seq<Stage2Val>)
    requires KnownHash(v.sigType) && KnownTlvs(v.tlvs) && |fingerprint| == SigSize(v.sigType)
    requires |Stage1Bytes(v, fingerprint)| < UINT32_MODULUS
    requires forall s :: s in vs ==> Writable2(s)
    ensures var r := ParseImage(Stage1Bytes(v, fingerprint) + ListBytes(vs));
            && r.Ok?
            && r.value.stage1 == Parsed1(Canonical(v, fingerprint), fingerprint, SignedBytes(v), ListBytes(vs))
            && SameList(r.value.stage2, vs)
  {
    hide ParseStage1, ParseList, Stage1Bytes, Writable2;
    Stage1RoundTrip(v, fingerprint, ListBytes(vs));
    ListRoundTrip(vs);
  }
}
