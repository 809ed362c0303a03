/**
 * Whole images: the list of stage 2 TLVs behind stage 1, reading an image back with its verdicts,
 * and which changes of a signed image are noticed.
 */
module MfiTool {
  import opened CText
  import opened Sequences
  import opened MfiOctets
  import opened MfiStage1
  import opened MfiStage2
  import opened MfiImage
  import opened MfiSigning

  datatype Stage2Read = Stage2Read(tlv: Stage2Tlv, verdict: Verdict, rest: Octets)

  /** What a TLV object holds after parsing; the payload of a root file system is serialised afresh. */
  ghost predicate Holds(tlv: Stage2Tlv, p: Parsed2)
    reads tlv
  {
    && tlv.tlvType == p.v.tlvType && !tlv.needsUpdate && KnownAttributes(tlv.attributes)
    && tlv.sig == Signature(p.v.sigType, p.v.fingerprint, None)
    && (if p.v.tlvType == ROOTFS_TLV
        then ParseSubTlvs(p.v.payload, map[]) == Ok(tlv.attributes) && tlv.p == Serialize(tlv.attributes)
        else tlv.attributes == map[] && tlv.p == p.v.payload)
  }

  ghost predicate AllHold(tlvs: seq<Stage2Tlv>, ps: seq<Parsed2>)
    reads tlvs
  {
    |tlvs| == |ps| && forall i :: 0 <= i < |ps| ==> Holds(tlvs[i], ps[i])
  }

  method ParseStage2Tlv(c: Crypto, public: Option<Key>, d: Octets) returns (r: Result<Stage2Read>)
    ensures match ParseStage2(d)
            case Err(fault) => r == Err(fault)
            case Ok(p) => r.Ok? && fresh(r.value.tlv) && Holds(r.value.tlv, p) && r.value.rest == p.rest
                          && r.value.verdict == Verdict2(c, public, p)
  {
    hide U32, Serialize, Validate, ParseSubTlvs;
    if |d| < STAGE2_DATA_OFFSET {
      return Err(Malformed);
    }
    var magic, tlvType, length, dataLength, sigType := U32(d, 0), U32(d, 4), U32(d, 8), U32(d, 12), U32(d, 16);
    if dataLength == 0 {
      return Err(EmptyData);
    }
    if magic != STAGE2_MAGIC {
      return Err(BadMagic);
    }
    var p := d[STAGE2_DATA_OFFSET..Min(STAGE2_DATA_OFFSET + dataLength, |d|)];
    var tlv := new Stage2Tlv(tlvType);
    if tlvType == ROOTFS_TLV {
      var read := ReadSubTlvs(p);
      if read.Err? {
        return Err(read.fault);
      }
      SubTlvsKnown(p, map[]);
      tlv.attributes := read.value;
      tlv.PayloadSet(Serialize(tlv.attributes), c, public);
    } else {
      tlv.PayloadSet(p, c, public);
    }
    if !KnownHash(sigType) {
      return Err(UnknownHash);
    }
    var sigOff := STAGE2_DATA_OFFSET + dataLength;
    if length < SigSize(sigType) || length < sigOff || sigOff > |d| {
      return Err(Malformed);
    }
    tlv.ForceSignature(sigType, d[sigOff..Min(length, |d|)]);
    var verdict := Validate(c, public, sigType, tlv.sig.fingerprint, d[..Min(length - SigSize(sigType), |d|)]);
    r := Ok(Stage2Read(tlv, verdict, d[Min(length, |d|)..]));
  }

  /** What writing keeps: the attributes, the payload that is written, and how it is signed. */
  datatype Content = Content(attributes: Attributes, payload: Octets, sigType: int, key: Option<Key>)

  ghost function ContentOf(tlv: Stage2Tlv): Content
    reads tlv
  {
    Content(tlv.attributes, if tlv.tlvType == ROOTFS_TLV then Serialize(tlv.attributes) else tlv.p,
            tlv.sig.sigType, tlv.sig.key)
  }

  ghost predicate Tracked(c: Crypto, public: Option<Key>, tlv: Stage2Tlv)
    reads tlv
  {
    tlv.UpToDate(c, public) && Keyed(tlv.sig, public)
  }

  ghost predicate AllTracked(c: Crypto, public: Option<Key>, tlvs: seq<Stage2Tlv>)
    reads tlvs
  {
    forall i :: 0 <= i < |tlvs| ==> Tracked(c, public, tlvs[i])
  }

  /** A known type, and a fingerprint of its length. */
  ghost predicate Full(s: Signature) {
    KnownHash(s.sigType) && |s.fingerprint| == SigSize(s.sigType)
  }

  /** The payload in memory is the one that is written. */
  ghost predicate Serialized(tlv: Stage2Tlv)
    reads tlv
  {
    tlv.p == ContentOf(tlv).payload
  }

  class Image {
    const stage1: Stage1
    var stage2: seq<Stage2Tlv>

    ghost predicate Valid()
      reads this, stage1
    {
      stage1.Valid() && forall i, j :: 0 <= i < j < |stage2| ==> stage2[i] != stage2[j]
    }

    ghost function Vals(n: nat): (vs: seq<Stage2Val>)
      requires n <= |stage2|
      reads this, stage2
      ensures |vs| == n && forall i :: 0 <= i < n ==> vs[i] == stage2[i].Val()
    {
      if n == 0 then [] else Vals(n - 1) + [stage2[n - 1].Val()]
    }

    /** The stored fingerprints of stage 1 and of the first `n` TLVs of stage 2 cover what they sign. */
    ghost predicate Covered(c: Crypto, public: Option<Key>, n: nat)
      requires n <= |stage2|
      reads this, stage1, stage2
    {
      && Covers(c, public, stage1.sig.sigType, stage1.sig.fingerprint, SignedBytes(stage1.Val()))
      && forall i :: 0 <= i < n ==> CoversVal(c, public, stage2[i].Val())
    }

    ghost predicate UpToDate(c: Crypto, public: Option<Key>)
      reads this, stage1, stage2
    {
      && stage1.UpToDate(c, public) && Keyed(stage1.sig, public)
      && AllTracked(c, public, stage2)
    }

    constructor ()
      ensures Valid() && stage2 == [] && fresh(stage1) && stage1.needsUpdate && stage1.sig.key == None
    {
      stage1 := new Stage1();
      stage2 := [];
    }

    /** What is written to the output file. */
    method Write(c: Crypto, ghost public: Option<Key>) returns (r: Result<Octets>)
      requires Valid()
      modifies stage1`sig, stage2
      ensures Valid() && stage1.Val() == old(stage1.Val())
      ensures r.Ok? ==> forall i :: 0 <= i < |stage2| ==>
                Serialized(stage2[i]) && ContentOf(stage2[i]) == old(ContentOf(stage2[i]))
      ensures r.Ok? ==> r.value == Stage1Bytes(stage1.Val(), stage1.sig.fingerprint) + ListBytes(Vals(|stage2|))
      ensures r.Ok? ==> Full(stage1.sig) && forall i :: 0 <= i < |stage2| ==> Full(stage2[i].sig)
      ensures r.Ok? && Lawful(c) && old(UpToDate(c, public)) ==> Covered(c, public, |stage2|)
    {
      hide Lawful, Covers, Keyed, KnownTlvs, Stage1Bytes, SignedBytes, CoversVal;
      hide Update, Vals, Stage1.Val, ListBytes, Stage2Tlv.UpToDate, ContentOf, Serialized, Tracked;
      var one := stage1.Write(c, public);
      if one.Err? {
        return Err(one.fault);
      }
      assert old(UpToDate(c, public)) ==> AllTracked(c, public, stage2);
      var more := WriteStage2(c, public);
      if more.Err? {
        return Err(more.fault);
      }
      r := Ok(one.value + more.value);
    }

    method WriteStage2(c: Crypto, ghost public: Option<Key>) returns (r: Result<Octets>)
      requires Valid()
      modifies stage2
      ensures Valid()
      ensures r.Ok? ==> forall i :: 0 <= i < |stage2| ==>
                Serialized(stage2[i]) && ContentOf(stage2[i]) == old(ContentOf(stage2[i]))
      ensures r.Ok? ==> r.value == ListBytes(Vals(|stage2|))
      ensures r.Ok? ==> forall i :: 0 <= i < |stage2| ==> Full(stage2[i].sig)
      ensures r.Ok? && Lawful(c) && old(AllTracked(c, public, stage2)) ==>
                forall i :: 0 <= i < |stage2| ==> CoversVal(c, public, stage2[i].Val())
    {
      hide Lawful, Covers, Keyed, KnownTlvs, Stage2Bytes, Signed2, Stage2Tlv.UpToDate, Stage2Tlv.Val;
      hide Update, Serialize, ListBytes, CoversVal, ContentOf, Serialized, Tracked, Vals, Full;
      var written: Octets := [];
      var k := 0;
      NothingWritten(written);
      while k < |stage2|
        invariant 0 <= k <= |stage2|
        invariant written == ListBytes(Vals(k))
        invariant forall i :: 0 <= i < k ==> Full(stage2[i].sig)
        invariant forall i :: 0 <= i < k ==> Serialized(stage2[i]) && ContentOf(stage2[i]) == old(ContentOf(stage2[i]))
        invariant forall j :: k <= j < |stage2| ==> unchanged(stage2[j])
        invariant Lawful(c) && old(AllTracked(c, public, stage2)) ==>
                    forall i :: 0 <= i < k ==> CoversVal(c, public, stage2[i].Val())
        modifies stage2
      {
        ghost var before := Vals(k);
        var next := WriteOne(c, public, k);
        if next.Err? {
          return Err(next.fault);
        }
        ListAppend(before, stage2[k].Val());
        written := written + next.value;
        k := k + 1;
      }
      r := Ok(written);
    }

    method WriteOne(c: Crypto, ghost public: Option<Key>, k: nat) returns (r: Result<Octets>)
      requires Valid() && k < |stage2|
      modifies stage2[k]
      ensures r.Ok? ==> r.value == Stage2Bytes(stage2[k].Val()) && Serialized(stage2[k]) && Full(stage2[k].sig)
      ensures ContentOf(stage2[k]) == old(ContentOf(stage2[k]))
      ensures r.Ok? && Lawful(c) && old(Tracked(c, public, stage2[k])) ==> CoversVal(c, public, stage2[k].Val())
      ensures Vals(k + 1) == old(Vals(k)) + [stage2[k].Val()]
    {
      hide Lawful, Covers, Keyed, KnownTlvs, Stage2Bytes, Signed2, Update, Serialize;
      ghost var before := Vals(k);
      r := stage2[k].Write(c, public);
      assert Vals(k) == before;
    }

    /** Reads stage 1, then stage 2 TLVs until nothing is left; gives the verdicts on all signatures. */
    method Parse(c: Crypto, public: Option<Key>, d: Octets) returns (r: Result<seq<Verdict>>)
      requires Valid()
      modifies this`stage2, stage1
      ensures Valid() && stage1.sig.key == old(stage1.sig.key)
      ensures old(stage2) <= stage2 && fresh(set s | s in stage2[|old(stage2)|..])
      ensures match ParseImage(d)
              case Err(fault) => r == Err(fault)
              case Ok(p) =>
                && r == Ok(Verdicts(c, public, p))
                && stage1.Val() == p.stage1.v && stage1.sig.fingerprint == p.stage1.fingerprint
                && stage1.needsUpdate == (stage1.sig.key.Some? && old(stage1.needsUpdate))
                && AllHold(stage2[|old(stage2)|..], p.stage2)
      ensures var valid := r.Ok? && CanonicalImage(d) && |d| < UINT32_MODULUS
                           && forall v :: v in r.value ==> v == Validated;
              valid && Keyed(stage1.sig, public) && old(AllTracked(c, public, stage2)) ==> UpToDate(c, public)
    {
      hide ParseStage1, ParseList, AllHold, VerdictList, Validate, KnownTlvs, Stage1.Val, AllTracked, CanonicalImage,
          Keyed;
      hide UpToDate;
      var one, verdict := stage1.Parse(c, public, d);
      if one.Err? {
        return Err(one.fault);
      }
      var list := ParseStage2s(c, public, one.value);
      if list.Err? {
        return Err(list.fault);
      }
      r := Ok([verdict] + list.value);
      if CanonicalImage(d) && |d| < UINT32_MODULUS && (forall v :: v in r.value ==> v == Validated)
         && Keyed(stage1.sig, public) && old(AllTracked(c, public, stage2)) {
        assert stage2[..|old(stage2)|] == old(stage2);
        assert AllTracked(c, public, old(stage2));
        ParsedIsUpToDate(c, public, this, d, |old(stage2)|);
      }
    }

    method ParseStage2s(c: Crypto, public: Option<Key>, d: Octets) returns (r: Result<seq<Verdict>>)
      requires Valid()
      modifies this`stage2
      ensures Valid() && old(stage2) <= stage2 && fresh(set s | s in stage2[|old(stage2)|..])
      ensures match ParseList(d)
              case Err(fault) => r == Err(fault)
              case Ok(ps) => r == Ok(VerdictList(c, public, ps)) && AllHold(stage2[|old(stage2)|..], ps)
    {
      hide ParseStage2, Holds, Verdict2, KnownTlvs, VerdictList;
      var data := d;
      var verdicts: seq<Verdict> := [];
      ghost var ps: seq<Parsed2> := [];
      ghost var added: seq<Stage2Tlv> := [];
      NothingRead(c, public, ParseList(data));
      while data != []
        invariant stage2 == old(stage2) + added && Valid() && fresh(set s | s in added)
        invariant AllHold(added, ps) && verdicts == VerdictList(c, public, ps)
        invariant ParseList(d) == Prepended(ps, ParseList(data))
        decreases |data|
        modifies `stage2
      {
        ghost var all := ParseList(data);
        var next := ParseStage2Tlv(c, public, data);
        if next.Err? {
          return Err(next.fault);
        }
        ghost var p := ParseStage2(data).value;
        PrependOne(ps, p, all, ParseList(p.rest));
        VerdictListAppend(c, public, ps, p);
        stage2 := stage2 + [next.value.tlv];
        added := added + [next.value.tlv];
        verdicts := verdicts + [next.value.verdict];
        ps := ps + [p];
        data := next.value.rest;
      }
      assert stage2[|old(stage2)|..] == added;
      NothingRead(c, public, Ok(ps));
      r := Ok(verdicts);
    }
  }

  /**
   * A TLV read from a valid image would sign the bytes that were signed exactly if serialising its
   * attributes gives the payload that was read. In that case it is up to date; otherwise it is not,
   * unless its fingerprint happens to validate two byte strings: the flag is not set when the order
   * of the sub-TLVs changes.
   */
  lemma ParsedUpToDate(c: Crypto, public: Option<Key>, tlv: Stage2Tlv, p: Parsed2)
    requires Holds(tlv, p) && Verdict2(c, public, p) == Validated && KnownHash(p.v.sigType)
    requires |p.v.fingerprint| == SigSize(p.v.sigType) && p.signed == Signed2(p.v.tlvType, p.v.payload, p.v.sigType)
    ensures var now := Signed2(p.v.tlvType, tlv.p, p.v.sigType);
            && (now == p.signed <==> CanonicalTlv(p.v))
            && (tlv.UpToDate(c, public) <==>
                CanonicalTlv(p.v) || Collide(c, public, p.v.sigType, p.v.fingerprint, p.signed, now))
  {
    hide Serialize, ParseSubTlvs, Validate;
    if Signed2(p.v.tlvType, tlv.p, p.v.sigType) == p.signed {
      SignedPayload(p.v.tlvType, tlv.p, p.v.payload, p.v.sigType);
    }
  }

  /** TLVs that have been read with what they would sign now, and validated, are up to date. */
  lemma ReadAreTracked(c: Crypto, public: Option<Key>, tlvs: seq<Stage2Tlv>, ps: seq<Parsed2>)
    requires AllHold(tlvs, ps)
    requires forall i :: 0 <= i < |ps| ==> SignsNow(ps[i]) && Verdict2(c, public, ps[i]) == Validated
    ensures AllTracked(c, public, tlvs)
  {
    hide Holds, Verdict2, Stage2Tlv.UpToDate, CanonicalTlv, Signed2, Collide;
    forall i | 0 <= i < |tlvs|
      ensures Tracked(c, public, tlvs[i])
    {
      ParsedUpToDate(c, public, tlvs[i], ps[i]);
      NoKey(tlvs[i], ps[i], public);
    }
  }

  lemma NoKey(tlv: Stage2Tlv, p: Parsed2, public: Option<Key>)
    requires Holds(tlv, p)
    ensures Keyed(tlv.sig, public)
  {
  }

  /** An image read from a canonical file with valid signatures is up to date. */
  lemma ParsedIsUpToDate(c: Crypto, public: Option<Key>, image: Image, d: Octets, from: nat)
    requires CanonicalImage(d) && |d| < UINT32_MODULUS && from <= |image.stage2|
    requires forall v :: v in Verdicts(c, public, ParseImage(d).value) ==> v == Validated
    requires AllTracked(c, public, image.stage2[..from]) && Keyed(image.stage1.sig, public)
    requires var p := ParseImage(d).value;
             && image.stage1.Val() == p.stage1.v && image.stage1.sig.fingerprint == p.stage1.fingerprint
             && AllHold(image.stage2[from..], p.stage2)
    ensures image.UpToDate(c, public)
  {
    hide ParseImage, Validate, AllHold, SignsNow, Verdict2, Tracked, SignedBytes, Rewritten;
    var p := ParseImage(d).value;
    CanonicalSigns(d);
    var verdicts := Verdicts(c, public, p);
    assert verdicts[0] in verdicts;
    forall i | 0 <= i < |p.stage2|
      ensures Verdict2(c, public, p.stage2[i]) == Validated
    {
      assert verdicts[i + 1] in verdicts;
    }
    ReadAreTracked(c, public, image.stage2[from..], p.stage2);
    forall i | 0 <= i < |image.stage2|
      ensures Tracked(c, public, image.stage2[i])
    {
      assert i < from ==> image.stage2[..from][i] == image.stage2[i];
      assert i >= from ==> image.stage2[from..][i - from] == image.stage2[i];
    }
  }

  // ---------------------------------------------------------------------------------------
  // Writing an image and reading it back
  // ---------------------------------------------------------------------------------------

  /** A type that fits its field, and attributes of the known types. */
  ghost predicate Sound(tlv: Stage2Tlv)
    reads tlv
  {
    0 <= tlv.tlvType < UINT32_MODULUS && KnownAttributes(tlv.attributes)
  }

  lemma WrittenFits(image: Image, n: nat, d: Octets)
    requires image.Valid() && n == |image.stage2|
    requires Full(image.stage1.sig)
    requires forall i :: 0 <= i < n ==>
              Sound(image.stage2[i]) && Serialized(image.stage2[i]) && Full(image.stage2[i].sig)
    requires d == Stage1Bytes(image.stage1.Val(), image.stage1.sig.fingerprint) + ListBytes(image.Vals(n))
              && |d| < UINT32_MODULUS
    ensures forall s :: s in image.Vals(n) ==> WritableOrEmpty(s) && CanonicalTlv(s)
    ensures KnownHash(image.stage1.Val().sigType) && KnownTlvs(image.stage1.Val().tlvs)
    ensures |image.stage1.sig.fingerprint| == SigSize(image.stage1.Val().sigType)
    ensures |Stage1Bytes(image.stage1.Val(), image.stage1.sig.fingerprint)| < UINT32_MODULUS
    ensures (forall s :: s in image.Vals(n) ==> s.payload != []) ==>
              Fits(image.stage1.Val(), image.stage1.sig.fingerprint, image.Vals(n))
  {
    hide Stage1Bytes, ListBytes, Stage2Bytes, Serialize, ParseSubTlvs;
    var vs := image.Vals(n);
    forall s | s in vs
      ensures WritableOrEmpty(s) && CanonicalTlv(s)
    {
      PartsFit(vs, s);
      var i :| 0 <= i < n && vs[i] == s;
      TlvFits(image.stage2[i]);
    }
  }

  lemma TlvFits(tlv: Stage2Tlv)
    requires Sound(tlv) && Serialized(tlv) && Full(tlv.sig) && |Stage2Bytes(tlv.Val())| < UINT32_MODULUS
    ensures WritableOrEmpty(tlv.Val()) && CanonicalTlv(tlv.Val())
  {
    hide Serialize, ParseSubTlvs;
    if tlv.tlvType == ROOTFS_TLV {
      AttributesRoundTrip(tlv.attributes);
    }
  }

  /** An image with an empty payload cannot be read. */
  lemma EmptyUnreadable(v: Stage1Val, fingerprint: Octets, vs: seq<Stage2Val>)
    requires KnownHash(v.sigType) && KnownTlvs(v.tlvs) && |fingerprint| == SigSize(v.sigType)
    requires |Stage1Bytes(v, fingerprint)| < UINT32_MODULUS
    requires (forall s :: s in vs ==> WritableOrEmpty(s)) && exists s :: s in vs && s.payload == []
    ensures ParseImage(Stage1Bytes(v, fingerprint) + ListBytes(vs)).Err?
  {
    hide ParseStage1, Stage1Bytes, WritableOrEmpty;
    Stage1RoundTrip(v, fingerprint, ListBytes(vs));
    ListReadable(vs);
  }

  /** A TLV that has been read with a canonical payload holds what was read. */
  lemma HeldVal(tlv: Stage2Tlv, p: Parsed2)
    requires Holds(tlv, p) && CanonicalTlv(p.v)
    ensures tlv.Val() == p.v
  {
    hide ParseSubTlvs, Serialize;
  }

  lemma CopiedVals(copy: Image, ps: seq<Parsed2>, vs: seq<Stage2Val>)
    requires AllHold(copy.stage2, ps) && |ps| == |vs|
    requires forall i :: 0 <= i < |vs| ==> ps[i].v == vs[i] && CanonicalTlv(vs[i])
    ensures copy.Vals(|copy.stage2|) == vs
  {
    hide Holds, CanonicalTlv, Stage2Tlv.Val;
    forall i | 0 <= i < |vs|
      ensures copy.stage2[i].Val() == vs[i]
    {
      HeldVal(copy.stage2[i], ps[i]);
    }
  }

  /** What reading a written file gives, in terms of the written values. */
  ghost predicate ReadsBack(c: Crypto, public: Option<Key>, v: Stage1Val, fingerprint: Octets, vs: seq<Stage2Val>,
      d: Octets) {
    && ParseImage(d).Ok? && CanonicalImage(d)
    && var p := ParseImage(d).value;
       && p.stage1.v == Canonical(v, fingerprint)
       && |p.stage2| == |vs| && (forall i :: 0 <= i < |vs| ==> p.stage2[i].v == vs[i])
       && |Verdicts(c, public, p)| == 1 + |vs| && forall w :: w in Verdicts(c, public, p) ==> w == Validated
  }

  lemma WrittenReadsBack(c: Crypto, public: Option<Key>, v: Stage1Val, fingerprint: Octets, vs: seq<Stage2Val>,
      d: Octets)
    requires Fits(v, fingerprint, vs) && Covers(c, public, v.sigType, fingerprint, SignedBytes(v))
    requires forall s :: s in vs ==> CoversVal(c, public, s)
    requires d == Stage1Bytes(v, fingerprint) + ListBytes(vs)
    ensures ReadsBack(c, public, v, fingerprint, vs, d)
  {
    hide ParseImage, Stage1Bytes, ListBytes, Covers, CoversVal, Verdicts, Canonical, SignedBytes, Writable2,
        CanonicalTlv;
    hide CanonicalImage, Signed2;
    WrittenValidates(c, public, v, fingerprint, vs);
    WrittenIsCanonical(v, fingerprint, vs);
    ImageRoundTrip(v, fingerprint, vs);
  }

  lemma UpToDateCovers(image: Image, c: Crypto, public: Option<Key>, n: nat)
    requires n == |image.stage2| && image.Covered(c, public, n)
    ensures forall s :: s in image.Vals(n) ==> CoversVal(c, public, s)
    ensures Covers(c, public, image.stage1.Val().sigType, image.stage1.sig.fingerprint, SignedBytes(image.stage1.Val()))
  {
    hide Covers, CoversVal, SignedBytes;
  }

  lemma NothingTracked(c: Crypto, public: Option<Key>)
    ensures AllTracked(c, public, [])
  {
  }

  /** Reads a file into a new image. */
  method ReadImage(c: Crypto, public: Option<Key>, d: Octets, ghost v: Stage1Val, ghost fingerprint: Octets,
      ghost vs: seq<Stage2Val>)
    returns (image: Image, verdicts: Result<seq<Verdict>>)
    requires ParseImage(d).Ok? && |d| < UINT32_MODULUS ==>
               ReadsBack(c, public, v, fingerprint, vs, d) && forall s :: s in vs ==> CanonicalTlv(s)
    ensures fresh(image) && fresh(image.stage1) && image.Valid()
    ensures fresh(set s | s in image.stage2)
    ensures verdicts.Ok? <==> ParseImage(d).Ok?
    ensures verdicts.Ok? && |d| < UINT32_MODULUS ==>
              && |verdicts.value| == 1 + |vs| && (forall w :: w in verdicts.value ==> w == Validated)
              && image.stage1.Val() == Canonical(v, fingerprint) && image.Vals(|image.stage2|) == vs
              && image.UpToDate(c, public)
  {
    hide ParseImage, Canonical, CanonicalTlv, Image.Vals, Image.UpToDate, Stage1.Val, AllTracked, Verdicts, AllHold,
        CanonicalImage;
    image := new Image();
    NothingTracked(c, public);
    verdicts := image.Parse(c, public, d);
    if verdicts.Ok? && |d| < UINT32_MODULUS {
      assert image.stage2[0..] == image.stage2;
      CopiedVals(image, ParseImage(d).value.stage2, vs);
    }
  }

  /**
   * Writes an image that is up to date and reads the file into a new one. This works exactly if no
   * payload is empty. Then all signatures are valid, the new image has the same contents, and it is up
   * to date again.
   */
  method WriteAndRead(image: Image, c: Crypto, public: Option<Key>)
    returns (d: Result<Octets>, copy: Image, verdicts: Result<seq<Verdict>>)
    requires image.Valid() && Lawful(c) && image.UpToDate(c, public)
    requires forall i :: 0 <= i < |image.stage2| ==> Sound(image.stage2[i])
    modifies image.stage1`sig, image.stage2
    ensures fresh(copy) && fresh(copy.stage1) && copy.Valid() && image.Valid()
    ensures image.stage1.Val() == old(image.stage1.Val())
    ensures d.Ok? ==> forall i :: 0 <= i < |image.stage2| ==>
              Serialized(image.stage2[i]) && ContentOf(image.stage2[i]) == old(ContentOf(image.stage2[i]))
    ensures d.Ok? && |d.value| < UINT32_MODULUS ==>
              var vs := image.Vals(|image.stage2|);
              && (verdicts.Ok? <==> forall s :: s in vs ==> s.payload != [])
              && (verdicts.Ok? ==>
                    && |verdicts.value| == 1 + |vs| && (forall w :: w in verdicts.value ==> w == Validated)
                    && copy.stage1.Val() == Canonical(image.stage1.Val(), image.stage1.sig.fingerprint)
                    && copy.Vals(|copy.stage2|) == vs
                    && copy.UpToDate(c, public))
  {
    hide Stage1Bytes, ListBytes, ParseImage, Stage1.Val, Lawful, Canonical, CoversVal, Image.Vals, Image.Covered,
        ReadsBack;
    hide Covers, AllTracked, Stage1.UpToDate, Verdicts, AllHold, Fits, CanonicalImage, WritableOrEmpty, CanonicalTlv;
    hide Image.UpToDate, Image.Valid, Stage1.Valid;
    d := image.Write(c, public);
    verdicts := Err(Malformed);
    if d.Err? {
      copy := new Image();
      return;
    }
    ghost var v, fingerprint, vs := image.stage1.Val(), image.stage1.sig.fingerprint, image.Vals(|image.stage2|);
    ghost var readable := forall s :: s in vs ==> s.payload != [];
    if |d.value| < UINT32_MODULUS {
      UpToDateCovers(image, c, public, |image.stage2|);
      WrittenFits(image, |image.stage2|, d.value);
      if readable {
        WrittenReadsBack(c, public, v, fingerprint, vs, d.value);
        assert ParseImage(d.value).Ok? by { ReadsOk(c, public, v, fingerprint, vs, d.value); }
      } else {
        EmptyUnreadable(v, fingerprint, vs);
      }
    }
    copy, verdicts := ReadImage(c, public, d.value, v, fingerprint, vs);
  }

  lemma ReadsOk(c: Crypto, public: Option<Key>, v: Stage1Val, fingerprint: Octets, vs: seq<Stage2Val>, d: Octets)
    requires ReadsBack(c, public, v, fingerprint, vs, d)
    ensures ParseImage(d).Ok?
  {
  }
}
