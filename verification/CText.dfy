/**
 * C strings and the two library conversions the list code relies on: `strtoul` with base 0
 * and `sprintf` with `%d` for non-negative numbers.
 */
module CText {
  datatype Option<+T> = None | Some(value: T)

  /** A NUL-terminated array, given by the characters before the NUL. */
  type CString = s: seq<char> | '\0' !in s witness []

  const ULONG_MODULUS: nat := 0x1_0000_0000_0000_0000
  const UINT32_MODULUS: nat := 0x1_0000_0000

  /** The character a C pointer into `s` sees at offset `i`; the terminator at the end. */
  function At(s: CString, i: nat): char
    requires i <= |s|
  {
    if i < |s| then s[i] else '\0'
  }

  predicate IsDigit(c: char) {
    '0' <= c <= '9'
  }

  predicate IsSpace(c: char) {
    c == ' ' || '\t' <= c <= '\r'
  }

  predicate IsAlnum(c: char) {
    IsDigit(c) || 'a' <= c <= 'z' || 'A' <= c <= 'Z'
  }

  /** Decimal notation without leading zeros. */
  function Dec(n: nat): (s: CString)
    ensures |s| > 0 && forall c :: c in s ==> IsDigit(c)
    ensures s[0] == '0' <==> n == 0
  {
    if n < 10 then ['0' + n as char] else Dec(n / 10) + ['0' + (n % 10) as char]
  }

  /** The value of a digit in any base up to 16; 16 for every other character. */
  function DigitValue(c: char): (v: nat)
    ensures v <= 16
  {
    if IsDigit(c) then (c - '0') as nat
    else if 'a' <= c <= 'f' then (c - 'a') as nat + 10
    else if 'A' <= c <= 'F' then (c - 'A') as nat + 10
    else 16
  }

  datatype Scan = Scan(value: nat, end: nat)

  /** Reads digits of `base` greedily from offset `p`. */
  function ScanDigits(s: CString, p: nat, base: nat, acc: nat): (r: Scan)
    requires p <= |s| && 1 <= base <= 16
    ensures p <= r.end <= |s|
    ensures forall i :: p <= i < r.end ==> DigitValue(s[i]) < base
    ensures r.end < |s| ==> DigitValue(s[r.end]) >= base
    ensures r.end == p ==> r.value == acc
    decreases |s| - p
  {
    if p < |s| && DigitValue(s[p]) < base
    then ScanDigits(s, p + 1, base, acc * base + DigitValue(s[p]))
    else Scan(acc, p)
  }

  function SkipSpace(s: CString, p: nat): (q: nat)
    requires p <= |s|
    ensures p <= q <= |s|
    ensures forall i :: p <= i < q ==> IsSpace(s[i])
    ensures q < |s| ==> !IsSpace(s[q])
    decreases |s| - p
  {
    if p < |s| && IsSpace(s[p]) then SkipSpace(s, p + 1) else p
  }

  /** Where the digits start, after white space and one optional sign. */
  function DigitStart(s: CString, p: nat): (q: nat)
    requires p <= |s|
    ensures p <= q <= |s|
    ensures forall i :: p <= i < q ==> !IsAlnum(s[i])
  {
    var a := SkipSpace(s, p);
    if At(s, a) == '+' || At(s, a) == '-' then a + 1 else a
  }

  /** The base that a base-0 conversion infers from the prefix at `q`. */
  function InferredBase(s: CString, q: nat): (base: nat)
    requires q <= |s|
    ensures base in {8, 10, 16}
  {
    if At(s, q) != '0' then 10
    else if q + 2 < |s| && s[q + 1] in {'x', 'X'} && DigitValue(s[q + 2]) < 16 then 16
    else 8
  }

  /**
   * `(uint32_t) strtoul(s + p, &end, 0)`: white space, sign, inferred base, clamping at
   * ULONG_MAX (64 bits), negation modulo 2^64, truncation to 32 bits. `end == p` when there
   * is no number.
   */
  function Strtoul(s: CString, p: nat): (r: Scan)
    requires p <= |s|
    ensures p <= r.end <= |s| && r.value < UINT32_MODULUS
    ensures r.end > p ==> DigitValue(s[r.end - 1]) < 16
    ensures r.end > p ==> DigitStart(s, p) < r.end && IsDigit(s[DigitStart(s, p)])
  {
    var a := SkipSpace(s, p);
    var q := DigitStart(s, p);
    var base := InferredBase(s, q);
    var d := ScanDigits(s, if base == 16 then q + 2 else q, base, 0);
    if d.end == q then Scan(0, p)
    else
      var v := if d.value >= ULONG_MODULUS then ULONG_MODULUS - 1
               else if At(s, a) == '-' then (ULONG_MODULUS - d.value) % ULONG_MODULUS
               else d.value;
      Scan(v % UINT32_MODULUS, d.end)
  }

  /** Scanning goes on into what is appended, from the value reached so far. */
  lemma {:induction false} ScanDigitsAppend(s: CString, more: CString, p: nat, base: nat, acc: nat)
    requires p <= |s| && 1 <= base <= 16
    requires forall i :: p <= i < |s| ==> DigitValue(s[i]) < base
    ensures ScanDigits(s + more, p, base, acc)
            == ScanDigits(s + more, |s|, base, ScanDigits(s, p, base, acc).value)
    decreases |s| - p
  {
    if p < |s| {
      assert (s + more)[p] == s[p];
      ScanDigitsAppend(s, more, p + 1, base, acc * base + DigitValue(s[p]));
    }
  }

  lemma {:induction false} ScanDec(before: CString, n: nat)
    ensures ScanDigits(before + Dec(n), |before|, 10, 0) == Scan(n, |before + Dec(n)|)
  {
    var s := before + Dec(n);
    if n < 10 {
      assert s[|before|] == '0' + n as char;
      assert ScanDigits(s, |before| + 1, 10, n) == Scan(n, |s|);
    } else {
      var init := before + Dec(n / 10);
      var last: CString := ['0' + (n % 10) as char];
      assert s == init + last;
      ScanDec(before, n / 10);
      ScanDigitsAppend(init, last, |before|, 10, 0);
      assert DigitValue(s[|init|]) == n % 10;
      assert ScanDigits(s, |init| + 1, 10, n) == Scan(n, |s|);
    }
  }

  /** Reading back a printed number, whatever the text before it and the non-alphanumeric text after it. */
  lemma StrtoulDec(before: CString, n: nat, after: CString)
    requires n < UINT32_MODULUS
    requires after == [] || !IsAlnum(after[0])
    ensures Strtoul(before + Dec(n) + after, |before|) == Scan(n, |before + Dec(n)|)
  {
    hide Dec, Strtoul, ScanDigits, DigitValue;
    var s := before + Dec(n) + after;
    var p, m := |before|, |before + Dec(n)|;
    assert forall i :: p <= i < m ==> s[i] == Dec(n)[i - p];
    assert s[p] == Dec(n)[0] && IsDigit(s[p]);
    assert m < |s| ==> s[m] == after[0];
    if n == 0 {
      DecZero();
      ScanZero(s, p);
    } else {
      ScanDec(before, n);
      assert forall i :: p <= i < m ==> (before + Dec(n))[i] == Dec(n)[i - p];
      AllDigits(before + Dec(n), p);
      ScanDigitsAppend(before + Dec(n), after, p, 10, 0);
      ScanEnds(s, m, n);
    }
    StrtoulDigits(s, p, n, m);
  }

  lemma AllDigits(s: CString, p: nat)
    requires p <= |s| && forall i :: p <= i < |s| ==> IsDigit(s[i])
    ensures forall i :: p <= i < |s| ==> DigitValue(s[i]) < 10
  {
  }

  lemma ScanEnds(s: CString, m: nat, n: nat)
    requires m <= |s| && (m == |s| || !IsAlnum(s[m]))
    ensures ScanDigits(s, m, 10, n) == Scan(n, m)
  {
  }

  /** A zero without other digits is an octal one. */
  lemma ScanZero(s: CString, p: nat)
    requires p < |s| && s[p] == '0' && (p + 1 == |s| || !IsAlnum(s[p + 1]))
    ensures ScanDigits(s, p, 8, 0) == Scan(0, p + 1)
  {
    assert ScanDigits(s, p + 1, 8, 0) == Scan(0, p + 1);
  }

  /** What `strtoul` makes of digits that it finds at once, in the base that it infers. */
  lemma StrtoulDigits(s: CString, p: nat, n: nat, m: nat)
    requires p < m <= |s| && n < UINT32_MODULUS && IsDigit(s[p])
    requires if n == 0 then s[p] == '0' && m == p + 1 && (m == |s| || !IsAlnum(s[m])) else s[p] != '0'
    requires ScanDigits(s, p, if n == 0 then 8 else 10, 0) == Scan(n, m)
    ensures Strtoul(s, p) == Scan(n, m)
  {
    hide ScanDigits, DigitValue;
    assert SkipSpace(s, p) == p;
    assert DigitStart(s, p) == p;
    InferredFor(s, p);
  }

  lemma InferredFor(s: CString, p: nat)
    requires p < |s|
    ensures s[p] != '0' ==> InferredBase(s, p) == 10
    ensures s[p] == '0' && (p + 1 == |s| || !IsAlnum(s[p + 1])) ==> InferredBase(s, p) == 8
  {
  }

  // ---------------------------------------------------------------------------------------
  // Notations
  // ---------------------------------------------------------------------------------------

  function Pow10(k: nat): (p: nat)
    ensures p > 0
  {
    if k == 0 then 1 else 10 * Pow10(k - 1)
  }

  /** Digit `k` from the right stands for that many times 10 to the power of `k`; there are no more than needed. */
  lemma {:induction false} DecDigits(n: nat, k: nat)
    requires k < |Dec(n)|
    ensures Dec(n)[|Dec(n)| - 1 - k] == "0123456789"[n / Pow10(k) % 10]
    ensures n < Pow10(|Dec(n)|) && (n >= 10 ==> Pow10(|Dec(n)| - 1) <= n)
    decreases n
  {
    if n >= 10 {
      var m := |Dec(n / 10)|;
      DecDigits(n / 10, if k == 0 then 0 else k - 1);
      assert Pow10(m + 1) == 10 * Pow10(m);
      if k > 0 {
        DividedTwice(n, Pow10(k - 1));
      }
    } else {
      assert Pow10(0) == 1 && Pow10(1) == 10;
    }
  }

  lemma DividedTwice(n: nat, p: nat)
    requires p > 0
    ensures n / 10 / p == n / (10 * p)
  {
    var q := n / 10 / p;
    assert n / 10 == q * p + n / 10 % p;
    assert n == 10 * (q * p + n / 10 % p) + n % 10;
    QuotientIs(n, 10 * p, q, 10 * (n / 10 % p) + n % 10);
  }

  lemma QuotientIs(n: nat, d: nat, q: nat, r: nat)
    requires n == q * d + r && r < d
    ensures n / d == q
  {
    var e := n / d - q;
    assert e * d == r - n % d;
    assert e >= 1 ==> e * d >= d;
    assert e <= -1 ==> e * d + d <= 0;
  }

  /** Digits in both cases. */
  lemma DigitValues(v: nat)
    requires v < 16
    ensures DigitValue("0123456789abcdef"[v]) == DigitValue("0123456789ABCDEF"[v]) == v
    ensures forall c: char :: DigitValue(c) == v ==> c == "0123456789abcdef"[v] || c == "0123456789ABCDEF"[v]
  {
  }

  /** What is read from digits that are followed by the end or something else. */
  lemma NumeralIs(s: CString, p: nat, a: nat, q: nat, d: Scan)
    requires p <= a <= q <= |s| && SkipSpace(s, p) == a && DigitStart(s, p) == q
    requires ScanDigits(s, if InferredBase(s, q) == 16 then q + 2 else q, InferredBase(s, q), 0) == d
    requires q < d.end && d.value < UINT32_MODULUS
    ensures Strtoul(s, p) == Scan(if At(s, a) == '-' && d.value > 0 then UINT32_MODULUS - d.value else d.value, d.end)
  {
    hide ScanDigits, SkipSpace, DigitStart, InferredBase, DigitValue;
    if At(s, a) == '-' {
      Negated(d.value);
    }
  }

  lemma Negated(v: nat)
    requires v < UINT32_MODULUS
    ensures (ULONG_MODULUS - v) % ULONG_MODULUS % UINT32_MODULUS == if v > 0 then UINT32_MODULUS - v else 0
  {
    if v > 0 {
      assert ULONG_MODULUS - v == (UINT32_MODULUS - v) + (UINT32_MODULUS - 1) * UINT32_MODULUS;
    }
  }

  /** Base 8 behind a zero. */
  lemma OctalExample(s: CString)
    requires s == "017"
    ensures Strtoul(s, 0) == Scan(15, 3)
  {
    assert ScanDigits(s, 3, 8, 15) == Scan(15, 3);
    assert ScanDigits(s, 2, 8, 1) == Scan(15, 3);
    assert ScanDigits(s, 0, 8, 0) == ScanDigits(s, 1, 8, 0) == Scan(15, 3);
    NumeralIs(s, 0, 0, 0, Scan(15, 3));
  }

  /** Base 16 behind `0x`. */
  lemma HexadecimalExample(s: CString)
    requires s == "0x1F"
    ensures Strtoul(s, 0) == Scan(31, 4)
  {
    assert ScanDigits(s, 4, 16, 31) == Scan(31, 4);
    assert ScanDigits(s, 2, 16, 0) == ScanDigits(s, 3, 16, 1) == Scan(31, 4);
    NumeralIs(s, 0, 0, 0, Scan(31, 4));
  }

  /** White space and a sign in front; negative numbers wrap. */
  lemma SignExample(s: CString)
    requires s == " -4,"
    ensures Strtoul(s, 0) == Scan(0xFFFF_FFFC, 3)
  {
    assert SkipSpace(s, 0) == SkipSpace(s, 1) == 1;
    assert ScanDigits(s, 2, 10, 0) == ScanDigits(s, 3, 10, 4) == Scan(4, 3);
    NumeralIs(s, 0, 1, 2, Scan(4, 3));
  }

  lemma DecZero()
    ensures Dec(0) == "0"
  {
  }
}
