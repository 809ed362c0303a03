/**
 * Replication lists: text such as `0,2-5,7` converted to a list of members and back. The list
 * is one byte array that is used either as a bit field or with one byte per member.
 */
module ReplList {
  import opened CText

  /** Bit fields of the register query hold this many replications. */
  const SYMREG_REPL_CNT_MAX: nat := 8192

  datatype Rc = Ok | Error

  /** All numbers from `first` to `last`. */
  datatype Span = Span(first: nat, last: nat)

  // ---------------------------------------------------------------------------------------
  // The two list representations
  // ---------------------------------------------------------------------------------------

  function BitFieldSize(n: nat): nat {
    (n + 7) / 8
  }

  /** `list` has room for the members 0..max. */
  predicate Room(length: nat, max: nat, bf: bool) {
    if bf then BitFieldSize(max + 1) <= length else max < length
  }

  function Mask(k: nat): bv8
    requires k < 8
  {
    1 << k
  }

  predicate Member(list: seq<bv8>, i: nat, bf: bool)
    requires Room(|list|, i, bf)
  {
    if bf then list[i / 8] & Mask(i % 8) != 0 else list[i] != 0
  }

  /** The members within [min, max]. */
  ghost function Contents(list: seq<bv8>, min: nat, max: nat, bf: bool): set<nat>
    requires Room(|list|, max, bf)
  {
    set i: nat | min <= i <= max && Member(list, i, bf)
  }

  lemma MaskBits(b: bv8, j: nat, k: nat)
    requires j < 8 && k < 8
    ensures (b | Mask(k)) & Mask(j) != 0 <==> j == k || b & Mask(j) != 0
    ensures 0xFF & Mask(j) != 0
  {
  }

  method SetMember(list: array<bv8>, i: nat, ghost max: nat, bf: bool)
    requires i <= max && Room(list.Length, max, bf)
    modifies list
    ensures forall k: nat :: k <= max ==> (Member(list[..], k, bf) <==> k == i || Member(old(list[..]), k, bf))
  {
    if bf {
      list[i / 8] := list[i / 8] | Mask(i % 8);
      forall k: nat | k <= max
        ensures Member(list[..], k, bf) <==> k == i || Member(old(list[..]), k, bf)
      {
        if k / 8 == i / 8 {
          MaskBits(old(list[i / 8]), k % 8, i % 8);
        }
      }
    } else {
      list[i] := 1;
    }
  }

  /** The list without members, or with every number up to `max` as a member. */
  method FillMembers(list: array<bv8>, min: nat, max: nat, value: bool, bf: bool)
    requires Room(list.Length, max, bf)
    modifies list
    ensures forall k: nat :: min <= k <= max ==> Member(list[..], k, bf) == value
  {
    if bf {
      var byte: bv8 := if value then 0xFF else 0x00;
      forall i | 0 <= i < BitFieldSize(max + 1) {
        list[i] := byte;
      }
      forall k: nat | min <= k <= max
        ensures Member(list[..], k, bf) == value
      {
        MaskBits(0, k % 8, 0);
      }
    } else {
      var i := min;
      while i <= max
        invariant min <= i
        invariant forall k: nat :: min <= k < i && k <= max ==> (list[k] != 0) == value
      {
        list[i] := if value then 1 else 0;
        i := i + 1;
      }
    }
  }

  // ---------------------------------------------------------------------------------------
  // Text to list
  // ---------------------------------------------------------------------------------------

  ghost predicate Covers(spans: seq<Span>, i: int) {
    exists s :: s in spans && s.first <= i <= s.last
  }

  /** The spans written in `text` from offset `p`; None when the rest is not a list. */
  function Items(text: CString, p: nat, min: nat, max: nat): (r: Option<seq<Span>>)
    requires p <= |text|
    decreases |text| - p, 1
  {
    if p == |text| then Some([])
    else
      var n := Strtoul(text, p);
      if n.end == p || n.value < min || n.value > max then None
      else if At(text, n.end) == '-' then AfterDash(text, n.value, n.end + 1, min, max)
      else Prepend(Span(n.value, n.value), NextItems(text, n.end, min, max))
  }

  function AfterDash(text: CString, start: nat, p: nat, min: nat, max: nat): Option<seq<Span>>
    requires p <= |text|
    decreases |text| - p, 0
  {
    if p == |text| then None
    else
      var n := Strtoul(text, p);
      if n.end == p || n.value < min || n.value > max || n.value < start then None
      else Prepend(Span(start, n.value), NextItems(text, n.end, min, max))
  }

  /** A comma must be followed by an item; without a comma, another item may follow directly. */
  function NextItems(text: CString, p: nat, min: nat, max: nat): Option<seq<Span>>
    requires p <= |text|
    decreases |text| - p, 2
  {
    if At(text, p) == ','
    then (if p + 1 == |text| then None else Items(text, p + 1, min, max))
    else Items(text, p, min, max)
  }

  function Prepend(s: Span, r: Option<seq<Span>>): Option<seq<Span>> {
    match r
    case None => None
    case Some(spans) => Some([s] + spans)
  }

  ghost function Append(done: seq<Span>, r: Option<seq<Span>>): Option<seq<Span>> {
    match r
    case None => None
    case Some(spans) => Some(done + spans)
  }

  lemma AppendNothing(r: Option<seq<Span>>)
    ensures Append([], r) == r
  {
    if r.Some? {
      assert [] + r.value == r.value;
    }
  }

  lemma AppendPrepend(done: seq<Span>, s: Span, r: Option<seq<Span>>)
    ensures Append(done, Prepend(s, r)) == Append(done + [s], r)
  {
    match r
    case None =>
    case Some(spans) => assert done + ([s] + spans) == done + [s] + spans;
  }

  /** What is left to read, by the two flags of the parser. */
  ghost function Remaining(text: CString, p: nat, range: bool, comma: bool, start: nat,
                           min: nat, max: nat): Option<seq<Span>>
    requires p <= |text|
  {
    if range then AfterDash(text, start, p, min, max)
    else if comma && p == |text| then None
    else Items(text, p, min, max)
  }

  method Txt2ListBf(buf: Option<CString>, list: array<bv8>, min: nat, max: nat, def: bool, bf: bool)
    returns (rc: Rc)
    requires max < UINT32_MODULUS - 1 && Room(list.Length, max, bf)
    modifies list
    ensures rc == Ok <==> buf.Some? && Items(buf.value, 0, min, max).Some?
    ensures forall i: nat :: min <= i <= max ==>
              Member(list[..], i, bf) ==
              if rc == Ok then Covers(Items(buf.value, 0, min, max).value, i) else def
  {
    hide Strtoul, Member;
    FillMembers(list, min, max, false, bf);
    var error := buf == None;
    if buf.Some? {
      var text := buf.value;
      var p, start := 0, 0;
      var range, comma := false, false;
      ghost var done: seq<Span> := [];
      AppendNothing(Items(text, 0, min, max));
      while p < |text|
        invariant 0 <= p <= |text| && start >= 0 && !(range && comma)
        invariant Items(text, 0, min, max) == Append(done, Remaining(text, p, range, comma, start, min, max))
        invariant forall i: nat :: min <= i <= max ==> Member(list[..], i, bf) == Covers(done, i)
        invariant range ==> min <= start <= max
        invariant !error
      {
        var n := Strtoul(text, p);
        if n.end == p || n.value < min || n.value > max {
          error := true;
          break;
        }
        p := n.end;
        if range {
          if n.value < start {
            error := true;
            break;
          }
          SetSpan(list, Span(start, n.value), done, min, max, bf);
          AppendPrepend(done, Span(start, n.value), NextItems(text, p, min, max));
          done := done + [Span(start, n.value)];
          range := false;
        } else if At(text, p) == '-' {
          start := n.value;
          range := true;
          p := p + 1;
        } else {
          SetSpan(list, Span(n.value, n.value), done, min, max, bf);
          AppendPrepend(done, Span(n.value, n.value), NextItems(text, p, min, max));
          done := done + [Span(n.value, n.value)];
        }
        comma := false;
        if !range && At(text, p) == ',' {
          comma := true;
          p := p + 1;
        }
      }
      if comma || range {
        error := true;
      }
    }
    if error {
      FillMembers(list, min, max, def, bf);
    }
    rc := if error then Error else Ok;
  }

  /** The loop over one range of members, also used for a single member. */
  method SetSpan(list: array<bv8>, s: Span, ghost done: seq<Span>, ghost min: nat, ghost max: nat, bf: bool)
    requires s.first <= s.last <= max && Room(list.Length, max, bf)
    requires forall k: nat :: min <= k <= max ==> Member(list[..], k, bf) == Covers(done, k)
    modifies list
    ensures forall k: nat :: min <= k <= max ==> Member(list[..], k, bf) == Covers(done + [s], k)
  {
    var i := s.first;
    while i <= s.last
      invariant s.first <= i <= s.last + 1
      invariant forall k: nat :: min <= k <= max ==>
                  (Member(list[..], k, bf) <==> Covers(done, k) || s.first <= k < i)
    {
      SetMember(list, i, max, bf);
      i := i + 1;
    }
    forall k: nat | min <= k <= max
      ensures Covers(done + [s], k) <==> Covers(done, k) || s.first <= k <= s.last
    {
      CoversSnoc(done, s, k);
    }
  }

  lemma CoversSnoc(done: seq<Span>, s: Span, i: nat)
    ensures Covers(done + [s], i) <==> Covers(done, i) || s.first <= i <= s.last
  {
    if Covers(done, i) {
      var d :| d in done && d.first <= i <= d.last;
      assert d in done + [s];
    }
    assert s in done + [s];
  }

  /** Both representations read the same list from every text, also when defaults are restored. */
  method ReadBothForms(buf: Option<CString>, bits: array<bv8>, bytes: array<bv8>, min: nat, max: nat, def: bool)
    returns (rc: Rc)
    requires max < UINT32_MODULUS - 1 && bits != bytes
    requires Room(bits.Length, max, true) && Room(bytes.Length, max, false)
    modifies bits, bytes
    ensures Contents(bits[..], min, max, true) == Contents(bytes[..], min, max, false)
  {
    rc := Txt2ListBf(buf, bits, min, max, def, true);
    var rc' := Txt2ListBf(buf, bytes, min, max, def, false);
  }
}
