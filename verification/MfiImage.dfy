/**
 * The image tool: stage 1, stage 2 TLVs and whole images as objects that are changed, written
 * with signatures brought up to date where needed, and parsed again.
 */
module MfiImage {
  import opened CText
  import opened Sequences
  import opened MfiOctets
  import opened MfiStage1
  import opened MfiStage2
  import MfiFormat

  datatype Key = Key(id: int)

  /** Digest, signing and verification; a public key is named like its private key. */
  datatype Crypto = Crypto(md5: Octets -> Octets, sign: (Key, int, Octets) -> Octets,
      verify: (Key, int, Octets, Octets) -> bool)

  ghost predicate Lawful(c: Crypto) {
    && (forall d :: |c.md5(d)| == 16)
    && (forall k, t, d :: c.verify(k, t, c.sign(k, t, d), d))
  }

  datatype Signature = Signature(sigType: int, fingerprint: Octets, key: Option<Key>)

  datatype Verdict = NotValidated | Validated | Invalid

  /** The fingerprint of `d` by the signature's type, which needs a key for all types but MD5. */
  function Update(c: Crypto, s: Signature, d: Octets): Result<Signature> {
    if s.sigType == SIGNATURE_MD5 then Ok(s.(fingerprint := c.md5(d)))
    else if !KnownHash(s.sigType) then Err(UnknownHash)
    else if s.key == None then Err(NoKey)
    else Ok(s.(fingerprint := c.sign(s.key.value, s.sigType, d)))
  }

  function Validate(c: Crypto, public: Option<Key>, sigType: int, fingerprint: Octets, d: Octets): Verdict {
    if sigType == SIGNATURE_MD5 then (if c.md5(d) == fingerprint then Validated else Invalid)
    else if public == None then NotValidated
    else if c.verify(public.value, sigType, fingerprint, d) then Validated
    else Invalid
  }

  /** MD5 is a digest; both other types are signed, which takes a key. */
  lemma UpdateMeans(c: Crypto, s: Signature, d: Octets)
    ensures s.sigType == 1 ==> Update(c, s, d) == Ok(s.(fingerprint := c.md5(d)))
    ensures (s.sigType == 2 || s.sigType == 3) && s.key.Some? ==>
              Update(c, s, d) == Ok(s.(fingerprint := c.sign(s.key.value, s.sigType, d)))
    ensures (s.sigType == 2 || s.sigType == 3) && s.key == None ==> Update(c, s, d) == Err(NoKey)
    ensures s.sigType < 1 || s.sigType > 3 ==> Update(c, s, d) == Err(UnknownHash)
  {
  }

  lemma ValidateMeans(c: Crypto, public: Option<Key>, sigType: int, fingerprint: Octets, d: Octets)
    ensures var verdict := Validate(c, public, sigType, fingerprint, d);
            && (verdict == Validated <==> if sigType == 1 then c.md5(d) == fingerprint
                                          else public.Some? && c.verify(public.value, sigType, fingerprint, d))
            && (verdict == NotValidated <==> sigType != 1 && public == None)
  {
  }

  /** `fingerprint` is a full-length fingerprint that validates `d`. */
  ghost predicate Covers(c: Crypto, public: Option<Key>, sigType: int, fingerprint: Octets, d: Octets) {
    && KnownHash(sigType) && |fingerprint| == SigSize(sigType)
    && Validate(c, public, sigType, fingerprint, d) == Validated
  }

  /** A private key that is used is the one of `public`. */
  ghost predicate Keyed(s: Signature, public: Option<Key>) {
    s.sigType != SIGNATURE_MD5 && s.key.Some? ==> s.key == public
  }

  /** A signature made with the private key of `public` covers what was signed. */
  lemma UpdateCovers(c: Crypto, public: Option<Key>, s: Signature, d: Octets)
    ensures var u := Update(c, s, d);
            Lawful(c) && Keyed(s, public) && u.Ok? && |u.value.fingerprint| == SigSize(s.sigType) ==>
              Covers(c, public, s.sigType, u.value.fingerprint, d)
  {
  }

  /** `d[at, |bytes|] = bytes` */
  function Patch(d: Octets, at: nat, bytes: Octets): (r: Octets)
    requires at + |bytes| <= |d|
    ensures |r| == |d|
  {
    d[..at] + bytes + d[at + |bytes|..]
  }

  class Stage1 {
    var version: int
    var machine: Octets
    var socName: Octets
    var socNo: int
    var sig: Signature
    var tlvs: map<nat, Octets>
    var needsUpdate: bool

    ghost predicate Valid()
      reads this
    {
      KnownTlvs(tlvs)
    }

    ghost function Val(): Stage1Val
      reads this
    {
      Stage1Val(version, machine, socName, socNo, sig.sigType, tlvs)
    }

    /** The stored fingerprint covers the present contents, or it will be renewed when writing. */
    ghost predicate UpToDate(c: Crypto, public: Option<Key>)
      reads this
    {
      needsUpdate || Covers(c, public, sig.sigType, sig.fingerprint, SignedBytes(Val()))
    }

    constructor ()
      ensures Valid() && needsUpdate && Val() == Stage1Val(2, [], [], 0, 1, map[]) && sig == Signature(1, [], None)
    {
      version, machine, socName, socNo := 2, [], [], 0;
      sig := Signature(SIGNATURE_MD5, [], None);
      tlvs, needsUpdate := map[], true;
    }

    method SocNoSet(i: int)
      requires Valid()
      modifies `socNo, `needsUpdate
      ensures Valid() && Val() == old(Val()).(socNo := i) && needsUpdate
    {
      socNo := i;
      needsUpdate := true;
    }

    /** A name that is too long ends the tool. */
    method NameSet(isMachine: bool, name: Octets) returns (ok: bool)
      requires Valid()
      modifies `machine, `socName, `needsUpdate
      ensures Valid() && (ok <==> |name| <= NAME_LEN)
      ensures needsUpdate == (ok || old(needsUpdate))
      ensures Val() == if !ok then old(Val())
                       else if isMachine then old(Val()).(machine := name)
                       else old(Val()).(socName := name)
    {
      if |name| > NAME_LEN {
        return false;
      }
      if isMachine {
        machine := name;
      } else {
        socName := name;
      }
      needsUpdate := true;
      ok := true;
    }

    method SetTlv(t: nat, data: Octets)
      requires Valid() && t <= MAX_TLV
      modifies `tlvs, `needsUpdate
      ensures Valid() && Val() == old(Val()).(tlvs := old(tlvs)[t := data]) && needsUpdate
    {
      tlvs := tlvs[t := data];
      needsUpdate := true;
    }

    /** Like SetTlv with the contents of a file, but without asking for a new signature. */
    method ReadTlv(t: nat, data: Octets)
      requires Valid() && t <= MAX_TLV
      modifies `tlvs
      ensures Valid() && Val() == old(Val()).(tlvs := old(tlvs)[t := data])
    {
      tlvs := tlvs[t := data];
    }

    method SetKey(sigType: int, key: Key)
      requires Valid()
      modifies `sig, `needsUpdate
      ensures Valid() && Val() == old(Val()).(sigType := sigType) && sig == Signature(sigType, [], Some(key))
                && needsUpdate
    {
      sig := Signature(sigType, [], Some(key));
      needsUpdate := true;
    }

    /** Builds the header with empty lengths and fingerprint, and patches them in when they are known. */
    method Write(c: Crypto, ghost public: Option<Key>) returns (r: Result<Octets>)
      requires Valid()
      modifies `sig
      ensures Valid() && Val() == old(Val()) && sig.key == old(sig.key)
      ensures r.Ok? <==> && KnownHash(sig.sigType)
                         && (old(needsUpdate) ==> Update(c, old(sig), SignedBytes(Val())).Ok?)
                         && |sig.fingerprint| == SigSize(sig.sigType)
      ensures sig == if old(needsUpdate) && KnownHash(old(sig.sigType)) && Update(c, old(sig), SignedBytes(Val())).Ok?
                     then Update(c, old(sig), SignedBytes(Val())).value else old(sig)
      ensures r.Ok? ==> r.value == Stage1Bytes(Val(), sig.fingerprint)
      ensures r.Ok? ==> |r.value| >= 105 && r.value[..8] == [0xde, 0xd5, 0xd4, 0xed, 0x4d, 0x4c, 0x7b, 0x98]
      ensures r.Ok? ==> && |sig.fingerprint| == (if sig.sigType == 1 then 16 else 256)
                        && 104 + |sig.fingerprint| <= |r.value|
                        && r.value[104..104 + |sig.fingerprint|] == sig.fingerprint
      ensures r.Ok? && Lawful(c) && Keyed(old(sig), public) && old(UpToDate(c, public)) ==>
                Covers(c, public, sig.sigType, sig.fingerprint, SignedBytes(Val()))
    {
      hide HeaderBytes, TlvBytes, TlvsBytes, Update, Lawful, Validate;
      ghost var v := Val();
      if !KnownHash(sig.sigType) {
        return Err(UnknownHash);
      }
      var d := Le32(MAGIC1) + Le32(MAGIC2) + Le32(version) + Le32(0) + Le32(0)
               + Fixed(machine, NAME_LEN) + Fixed(socName, NAME_LEN) + Le32(socNo) + Le32(sig.sigType);
      HeaderPatched(v, d);
      d := Patch(d, 12, Le32(|d|));
      var sigOff := |d|;
      d := d + TlvBytes(SIGNATURE_TLV, Zeros(SigSize(sig.sigType)));
      assert HeaderBytes(v, HDR_LEN, 0) + (TlvBytes(SIGNATURE_TLV, Zeros(SigSize(sig.sigType))) + TlvsBytes(tlvs, 0))
          == d + TlvsBytes(tlvs, 0);
      d := AppendTlvs(d, tlvs);
      assert d == HeaderBytes(v, HDR_LEN, 0) + BodyBytes(v, Zeros(SigSize(sig.sigType)));
      LengthPatched(v, d);
      d := Patch(d, 16, Le32(|d|));
      assert d == SignedBytes(v);
      if needsUpdate {
        var updated := Update(c, sig, d);
        if updated.Err? {
          return Err(updated.fault);
        }
        UpdateKeeps(c, sig, d);
        UpdateCovers(c, public, sig, d);
        sig := updated.value;
      }
      if |sig.fingerprint| != SigSize(sig.sigType) {
        return Err(BadSignatureLength);
      }
      FingerprintPatched(v, sig.fingerprint);
      WrittenOctets(v, sig.fingerprint);
      r := Ok(Patch(d, sigOff + 12, sig.fingerprint));
    }

    /**
     * Reads header and TLVs, takes over the stored fingerprint and checks it. Without a key, the
     * stored fingerprint counts as up to date.
     */
    method Parse(c: Crypto, public: Option<Key>, d: Octets) returns (r: Result<Octets>, verdict: Verdict)
      requires Valid()
      modifies `version, `machine, `socName, `socNo, `sig, `tlvs, `needsUpdate
      ensures Valid() && sig.key == old(sig.key)
      ensures match ParseStage1(d)
              case Err(fault) => r == Err(fault)
              case Ok(p) =>
                && r == Ok(p.rest) && Val() == p.v && sig.fingerprint == p.fingerprint
                && verdict == Validate(c, public, p.v.sigType, p.fingerprint, p.hashed)
                && needsUpdate == (sig.key.Some? && old(needsUpdate))
      ensures r == Err(NoStage1) <==>
                && (|d| < 4 || d[..4] != [0xde, 0xd5, 0xd4, 0xed]) && (|d| < 8 || d[4..8] != [0x4d, 0x4c, 0x7b, 0x98])
    {
      hide Validate, ZeroAt, U32;
      MfiFormat.NoStage1Octets(d);
      verdict := NotValidated;
      if (|d| < 4 || U32(d, 0) != MAGIC1) && (|d| < 8 || U32(d, 4) != MAGIC2) {
        return Err(NoStage1), verdict;
      }
      if |d| < HDR_LEN {
        return Err(Malformed), verdict;
      }
      var hdrLen, imgLen := U32(d, 12), U32(d, 16);
      if hdrLen < HDR_LEN || hdrLen > |d| {
        return Err(Malformed), verdict;
      }
      version, machine, socName, socNo := U32(d, 8), d[20..52], d[52..84], U32(d, 84);
      sig := sig.(sigType := U32(d, 88));
      tlvs := map[];
      if sig.key == None {
        needsUpdate := false;
      }
      var end := if imgLen == 0 then |d| else Min(imgLen, |d|);
      var found := ReadTlvs(if end <= hdrLen then [] else d[hdrLen..end]);
      if found.Err? {
        return Err(found.fault), verdict;
      }
      tlvs := found.value;
      if SIGNATURE_TLV !in tlvs {
        return Err(NoSignature), verdict;
      }
      sig := sig.(fingerprint := tlvs[SIGNATURE_TLV]);
      if !KnownHash(sig.sigType) {
        return Err(UnknownHash), verdict;
      }
      var image := d[..Min(imgLen, |d|)];
      if hdrLen + 12 > |image| {
        return Err(Malformed), verdict;
      }
      verdict := Validate(c, public, sig.sigType, sig.fingerprint, ZeroAt(image, hdrLen + 12, SigSize(sig.sigType)));
      if imgLen > |d| {
        return Err(Malformed), verdict;
      }
      r := Ok(d[imgLen..]);
    }
  }

  /** The TLVs that there are, other than the signature, behind what is written already. */
  method AppendTlvs(start: Octets, tlvs: map<nat, Octets>) returns (d: Octets)
    ensures d == start + TlvsBytes(tlvs, 0)
  {
    hide TlvBytes, TlvsBytes;
    d := start;
    var t: nat := 0;
    while t <= MAX_TLV
      invariant 0 <= t <= MAX_TLV + 1
      invariant d + TlvsBytes(tlvs, t) == start + TlvsBytes(tlvs, 0)
      decreases MAX_TLV + 1 - t
    {
      TlvsBytesStep(tlvs, t);
      if t in tlvs && t != SIGNATURE_TLV {
        Regroup(d, TlvBytes(t, tlvs[t]), TlvsBytes(tlvs, t + 1));
        d := d + TlvBytes(t, tlvs[t]);
      } else {
        assert [] + TlvsBytes(tlvs, t + 1) == TlvsBytes(tlvs, t + 1);
      }
      t := t + 1;
    }
    TlvsBytesStep(tlvs, t);
    assert d + [] == d;
  }

  /** The loop over the TLVs of stage 1; a TLV of length zero would keep it from ending. */
  method ReadTlvs(d: Octets) returns (r: Result<map<nat, Octets>>)
    ensures r == ParseTlvs(d, map[])
    ensures r.Ok? ==> KnownTlvs(r.value)
  {
    hide U32;
    var tdata := d;
    var tlvs: map<nat, Octets> := map[];
    while tdata != []
      invariant ParseTlvs(d, map[]) == ParseTlvs(tdata, tlvs) && KnownTlvs(tlvs)
      decreases |tdata|
    {
      if |tdata| < 12 {
        return Err(Malformed);
      }
      var t, total, size := U32(tdata, 0), U32(tdata, 4), U32(tdata, 8);
      if t > MAX_TLV {
        return Err(InvalidTlv);
      }
      if total > |tdata| {
        return Err(Malformed);
      }
      if total == 0 {
        return Err(Diverges);
      }
      tlvs := tlvs[t := tdata[12..Min(12 + size, |tdata|)]];
      tdata := tdata[total..];
    }
    r := Ok(tlvs);
  }

  /** The loop over the sub-TLVs of a root file system. */
  method ReadSubTlvs(d: Octets) returns (r: Result<Attributes>)
    ensures r == ParseSubTlvs(d, map[])
  {
    hide U32;
    var rest := d;
    var a: Attributes := map[];
    while rest != []
      invariant ParseSubTlvs(d, map[]) == ParseSubTlvs(rest, a)
      decreases |rest|
    {
      if |rest| < SUB_TLV_HDR_LEN {
        return Err(Malformed);
      }
      var t, length := U32(rest, 0), U32(rest, 4);
      if t < 1 || t > 8 {
        return Err(UnknownSubTlv);
      }
      if length > |rest| {
        return Err(Malformed);
      }
      if length == 0 {
        return Err(Diverges);
      }
      a := if length < SUB_TLV_HDR_LEN then a - {t} else a[t := rest[SUB_TLV_HDR_LEN..length]];
      rest := rest[length..];
    }
    r := Ok(a);
  }

  class Stage2Tlv {
    const tlvType: int
    var p: Octets
    var sig: Signature
    var needsUpdate: bool
    // The attributes of a root file system
    var attributes: Attributes

    ghost function Val(): Stage2Val
      reads this
    {
      Stage2Val(tlvType, p, sig.sigType, sig.fingerprint)
    }

    /** The stored fingerprint covers the present payload, or it will be renewed when writing. */
    ghost predicate UpToDate(c: Crypto, public: Option<Key>)
      reads this
    {
      needsUpdate || Covers(c, public, sig.sigType, sig.fingerprint, Signed2(tlvType, p, sig.sigType))
    }

    constructor (tlvType: int)
      ensures this.tlvType == tlvType && p == [] && needsUpdate && attributes == map[]
      ensures sig == Signature(SIGNATURE_MD5, [], None)
    {
      this.tlvType := tlvType;
      p, needsUpdate, attributes := [], true, map[];
      sig := Signature(SIGNATURE_MD5, [], None);
    }

    method PayloadSet(d: Octets, ghost c: Crypto, ghost public: Option<Key>)
      modifies `p, `needsUpdate
      ensures p == d && needsUpdate == (old(needsUpdate) || d != old(p))
      ensures old(UpToDate(c, public)) ==> UpToDate(c, public)
    {
      if p != d {
        p := d;
        needsUpdate := true;
      }
    }

    method SigSet(sigType: int, key: Key)
      modifies `sig, `needsUpdate
      ensures sig == Signature(sigType, [], Some(key)) && needsUpdate
    {
      sig := Signature(sigType, [], Some(key));
      needsUpdate := true;
    }

    method ForceSignature(sigType: int, data: Octets)
      modifies `sig, `needsUpdate
      ensures sig == Signature(sigType, data, old(sig.key)) && needsUpdate == (old(sig.key).Some? && old(needsUpdate))
    {
      sig := sig.(sigType := sigType, fingerprint := data);
      if sig.key == None {
        needsUpdate := false;
      }
    }

    /** Sets or unsets an attribute; the payload follows when the TLV is written. */
    method SetAttribute(t: int, data: Option<Octets>, ghost c: Crypto, ghost public: Option<Key>)
      requires 1 <= t <= 8 && KnownAttributes(attributes)
      modifies `attributes
      ensures KnownAttributes(attributes)
      ensures attributes == if data == None then old(attributes) - {t} else old(attributes)[t := data.value]
      ensures old(UpToDate(c, public)) ==> UpToDate(c, public)
    {
      attributes := if data == None then attributes - {t} else attributes[t := data.value];
    }

    /** Header, payload and a fingerprint that is renewed if necessary. */
    method Write(c: Crypto, ghost public: Option<Key>) returns (r: Result<Octets>)
      modifies `p, `sig, `needsUpdate
      ensures p == (if tlvType == 2 then Serialize(attributes) else old(p))
      ensures sig.sigType == old(sig.sigType) && sig.key == old(sig.key)
      ensures var renew := old(needsUpdate) || p != old(p);
              var updated := Update(c, old(sig), Signed2(tlvType, p, sig.sigType));
              && (r.Ok? <==>
                  KnownHash(sig.sigType) && (renew ==> updated.Ok?) && |sig.fingerprint| == SigSize(sig.sigType))
              && sig == (if KnownHash(sig.sigType) && renew && updated.Ok? then updated.value else old(sig))
              && needsUpdate == renew
      ensures r.Ok? ==> r.value == Stage2Bytes(Val())
      ensures r.Ok? && Lawful(c) && Keyed(old(sig), public) && old(UpToDate(c, public)) ==>
                Covers(c, public, sig.sigType, sig.fingerprint, Signed2(tlvType, p, sig.sigType))
    {
      hide Serialize, Update, Signed2, Lawful, Validate;
      if tlvType == ROOTFS_TLV {
        PayloadSet(Serialize(attributes), c, public);
      }
      if !KnownHash(sig.sigType) {
        return Err(UnknownHash);
      }
      var d := Signed2(tlvType, p, sig.sigType);
      if needsUpdate {
        UpdateKeeps(c, sig, d);
        UpdateCovers(c, public, sig, d);
        var updated := Update(c, sig, d);
        if updated.Err? {
          return Err(updated.fault);
        }
        sig := updated.value;
      }
      if |sig.fingerprint| != SigSize(sig.sigType) {
        return Err(BadSignatureLength);
      }
      r := Ok(d + sig.fingerprint);
    }
  }

  lemma UpdateKeeps(c: Crypto, s: Signature, d: Octets)
    ensures Update(c, s, d).Ok? ==> Update(c, s, d).value.sigType == s.sigType && Update(c, s, d).value.key == s.key
  {
  }

  lemma TlvsBytesStep(tlvs: map<nat, Octets>, t: nat)
    ensures t <= MAX_TLV ==>
              TlvsBytes(tlvs, t) ==
              (if t in tlvs && t != SIGNATURE_TLV then TlvBytes(t, tlvs[t]) else []) + TlvsBytes(tlvs, t + 1)
    ensures t > MAX_TLV ==> TlvsBytes(tlvs, t) == []
  {
  }

  /** The header length goes to offset 12. */
  lemma HeaderPatched(v: Stage1Val, d: Octets)
    requires d == Le32(MAGIC1) + Le32(MAGIC2) + Le32(v.version) + Le32(0) + Le32(0)
                  + Fixed(v.machine, NAME_LEN) + Fixed(v.socName, NAME_LEN) + Le32(v.socNo) + Le32(v.sigType)
    ensures |d| == HDR_LEN && Patch(d, 12, Le32(HDR_LEN)) == HeaderBytes(v, HDR_LEN, 0)
  {
    hide Le32, Fixed;
  }

  lemma WrittenOctets(v: Stage1Val, fingerprint: Octets)
    requires KnownHash(v.sigType) && |fingerprint| == SigSize(v.sigType)
    ensures |fingerprint| == if v.sigType == 1 then 16 else 256
    ensures var d := Stage1Bytes(v, fingerprint);
            && |d| >= 105 + |fingerprint| && d[104..104 + |fingerprint|] == fingerprint
            && d[..8] == [0xde, 0xd5, 0xd4, 0xed, 0x4d, 0x4c, 0x7b, 0x98]
  {
    hide Stage1Bytes;
    MfiFormat.Stage1Layout(v, fingerprint);
    MfiFormat.HashTypes(v.sigType);
  }

  /** The image length goes to offset 16. */
  lemma LengthPatched(v: Stage1Val, d: Octets)
    requires d == HeaderBytes(v, HDR_LEN, 0) + BodyBytes(v, Zeros(SigSize(v.sigType)))
    ensures Patch(d, 16, Le32(|d|)) == SignedBytes(v)
  {
    hide Le32, Fixed, BodyBytes;
    var body := BodyBytes(v, Zeros(SigSize(v.sigType)));
    assert Patch(HeaderBytes(v, HDR_LEN, 0), 16, Le32(|d|)) == HeaderBytes(v, HDR_LEN, |d|);
    assert Patch(HeaderBytes(v, HDR_LEN, 0) + body, 16, Le32(|d|))
        == Patch(HeaderBytes(v, HDR_LEN, 0), 16, Le32(|d|)) + body;
  }

  /** The fingerprint goes behind the header and the signature TLV's own header. */
  lemma FingerprintPatched(v: Stage1Val, fingerprint: Octets)
    requires |fingerprint| == SigSize(v.sigType)
    ensures |SignedBytes(v)| >= HDR_LEN + 12 + |fingerprint|
    ensures Patch(SignedBytes(v), HDR_LEN + 12, fingerprint) == Stage1Bytes(v, fingerprint)
  {
    hide Stage1Bytes, BeforeFingerprint, BehindFingerprint;
    var n := SigSize(v.sigType);
    AroundFingerprint(v, fingerprint);
    AroundFingerprint(v, Zeros(n));
    var a, c := BeforeFingerprint(v, n), BehindFingerprint(v, n);
    var d := a + (Zeros(n) + c);
    assert d[..|a|] == a && d[|a| + n..] == c;
    assert a + fingerprint + c == a + (fingerprint + c);
  }
}
