/** Byte strings and the little-endian 32-bit numbers of the image format. */
module MfiOctets {
  import opened CText
  import opened Sequences

  /** `[n].pack("V")`: the low 32 bits. */
  function Le32(n: int): (d: Octets)
    ensures |d| == 4
  {
    [n % 256, n / 0x100 % 256, n / 0x1_0000 % 256, n / 0x100_0000 % 256]
  }

  /** `unpack("V")` at offset `i`. */
  function U32(d: Octets, i: nat): (n: int)
    requires i + 4 <= |d|
    ensures 0 <= n < UINT32_MODULUS
  {
    var b0: int, b1: int, b2: int, b3: int := d[i], d[i + 1], d[i + 2], d[i + 3];
    b0 + 0x100 * b1 + 0x1_0000 * b2 + 0x100_0000 * b3
  }

  /** A number in a file or message: four octets, least significant first. */
  lemma NumberOctets(d: Octets, i: nat)
    requires i + 4 <= |d|
    ensures var b0: int, b1: int, b2: int, b3: int := d[i], d[i + 1], d[i + 2], d[i + 3];
            U32(d, i) == b0 + 256 * (b1 + 256 * (b2 + 256 * b3))
    ensures forall n: byte :: U32(d, i) == n <==> d[i..i + 4] == [n, 0, 0, 0]
  {
  }

  lemma SmallNumber(n: nat)
    requires n < 256
    ensures Le32(n) == [n, 0, 0, 0]
  {
  }

  datatype Result<+T> = Ok(value: T) | Err(fault: Fault)

  /** Why a tool run ends: a fatal message, an exception, or a loop that never ends. */
  datatype Fault = NoStage1 | Malformed | InvalidTlv | NoSignature | UnknownHash | BadMagic | EmptyData
                 | UnknownSubTlv | NoKey | BadSignatureLength | Diverges

  function Zeros(n: nat): (d: Octets)
    ensures |d| == n && forall i :: 0 <= i < n ==> d[i] == 0
  {
    seq(n, _ => 0)
  }

  /** `pack("a<n>")`: cut or filled with NUL to `n` bytes. */
  function Fixed(s: Octets, n: nat): (d: Octets)
    ensures |d| == n
  {
    if |s| >= n then s[..n] else s + Zeros(n - |s|)
  }

  lemma FixedTwice(s: Octets, n: nat)
    ensures Fixed(Fixed(s, n), n) == Fixed(s, n)
  {
  }

  lemma U32OfLe32(n: int)
    ensures U32(Le32(n), 0) == n % UINT32_MODULUS
  {
    var b0, b1, b2, b3 := n % 256, n / 0x100 % 256, n / 0x1_0000 % 256, n / 0x100_0000 % 256;
    assert n / 0x1_0000 == n / 0x100 / 0x100;
    assert n / 0x100_0000 == n / 0x1_0000 / 0x100;
    var top := n / 0x100_0000 / 0x100;
    assert n == U32(Le32(n), 0) + UINT32_MODULUS * top;
    Remainder(n, U32(Le32(n), 0), top);
  }

  lemma Remainder(n: int, r: int, q: int)
    requires n == r + UINT32_MODULUS * q && 0 <= r < UINT32_MODULUS
    ensures n % UINT32_MODULUS == r
  {
  }

  /** Reading a number back from where it was packed. */
  lemma U32At(before: Octets, n: int, after: Octets)
    ensures U32(before + Le32(n) + after, |before|) == n % UINT32_MODULUS
  {
    var d := before + Le32(n) + after;
    U32OfLe32(n);
    assert forall i :: 0 <= i < 4 ==> d[|before| + i] == Le32(n)[i];
  }
}
