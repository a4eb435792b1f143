/**
 Octets and the digit encoders of the dump engine: the two-digit hex encoder,
 the eight-digit binary encoder, their decoders, and the all-zero test that
 autoskip applies to a line buffer.

 Go writes both encoders into a caller-supplied `dst` slice; here `dst` is a
 sequence and the encoder returns the updated sequence, so "writes position k"
 becomes "position k of the result differs only where the encoder wrote".
 */
module Encoding {

  /** One octet, as Go's `byte`. */
  type Byte = b: int | 0 <= b < 256

  /** The two hex digit tables of the dump: lower-case and (`-u`) upper-case. */
  const LowerDigits: string := "0123456789abcdef"
  const UpperDigits: string := "0123456789ABCDEF"

  /** The value every element of a freshly made Go byte slice holds. */
  const Nul: char := '\0'

  /** The character c repeated k times; Repeat(Nul, k) is a freshly made
      `[]byte` of length k seen as output characters. */
  function Repeat(c: char, k: nat): (s: string)
    ensures |s| == k
    ensures forall i :: 0 <= i < k ==> s[i] == c
  {
    seq(k, _ => c)
  }

  /** A freshly made `[]byte` of length k, seen as input octets. */
  function Zeros(k: nat): (s: seq<Byte>)
    ensures |s| == k
    ensures forall i :: 0 <= i < k ==> s[i] == 0
  {
    seq(k, _ => 0)
  }

  /** A table of sixteen pairwise distinct digits. */
  predicate IsDigitTable(t: string) {
    && |t| == 16
    && forall i, j :: 0 <= i < j < 16 ==> t[i] != t[j]
  }

  lemma DigitTablesAreTables()
    ensures IsDigitTable(LowerDigits)
    ensures IsDigitTable(UpperDigits)
  {
    AscendingDistinct(LowerDigits);
    AscendingDistinct(UpperDigits);
  }

  /** Characters in strictly ascending order are pairwise distinct. */
  lemma {:induction false} AscendingDistinct(t: string)
    requires forall i :: 0 <= i < |t| - 1 ==> t[i] < t[i + 1]
    ensures forall i, j :: 0 <= i < j < |t| ==> t[i] < t[j]
  {
    if 1 < |t| {
      var u := t[1..];
      assert forall i :: 0 <= i < |u| ==> u[i] == t[i + 1];
      AscendingDistinct(u);
      forall i, j | 0 <= i < j < |t| ensures t[i] < t[j] {
        if 0 < i {
          assert t[i] == u[i - 1] && t[j] == u[j - 1];
        } else if 1 < j {
          assert t[1] == u[0] && t[j] == u[j - 1];
        }
      }
    }
  }

  /** Position of `c` in `t`, or -1 when `c` does not occur in `t`. */
  function IndexOf(t: string, c: char): (k: int)
    ensures -1 <= k < |t|
    ensures k == -1 <==> c !in t
    ensures 0 <= k ==> t[k] == c
    ensures forall j :: 0 <= j < k ==> t[j] != c
  {
    if |t| == 0 then -1
    else if t[0] == c then 0
    else
      var k := IndexOf(t[1..], c);
      if k == -1 then -1 else k + 1
  }

  /** In a table of distinct digits the digit at position d decodes to d. */
  lemma IndexOfDigit(t: string, d: int)
    requires IsDigitTable(t)
    requires 0 <= d < 16
    ensures IndexOf(t, t[d]) == d
  {
  }

  /**
   hexEncode: for each source octet v at index i, writes the digit for the
   high nibble (v >> 4) at dst[2i] and the digit for the low nibble (v & 0x0f)
   at dst[2i+1]; every other position of dst keeps its old content.
   */
  function HexEncode(dst: string, src: seq<Byte>, table: string): (r: string)
    requires |table| == 16
    requires 2 * |src| <= |dst|
    ensures |r| == |dst|
    ensures forall i :: 0 <= i < |src| ==>
              r[2 * i] == table[src[i] / 16] && r[2 * i + 1] == table[src[i] % 16]
    ensures forall k :: 2 * |src| <= k < |dst| ==> r[k] == dst[k]
    decreases |src|
  {
    if |src| == 0 then dst
    else
      var i := |src| - 1;
      var d := HexEncode(dst, src[..i], table);
      d[2 * i := table[src[i] / 16]][2 * i + 1 := table[src[i] % 16]]
  }

  /** Reading the two digits written for src[i] back through the table gives src[i]. */
  lemma HexEncodeRoundTrip(dst: string, src: seq<Byte>, table: string)
    requires IsDigitTable(table)
    requires 2 * |src| <= |dst|
    ensures var r := HexEncode(dst, src, table);
            forall i :: 0 <= i < |src| ==>
              IndexOf(table, r[2 * i]) * 16 + IndexOf(table, r[2 * i + 1]) == src[i]
  {
    var r := HexEncode(dst, src, table);
    forall i | 0 <= i < |src|
      ensures IndexOf(table, r[2 * i]) * 16 + IndexOf(table, r[2 * i + 1]) == src[i]
    {
      IndexOfDigit(table, src[i] / 16);
      IndexOfDigit(table, src[i] % 16);
    }
  }

  /** 2 to the power d. */
  function Pow2(d: nat): (p: nat)
    ensures p >= 1
  {
    if d == 0 then 1 else 2 * Pow2(d - 1)
  }

  /** v shifted right by d bits, Go's `v >> d`. */
  function Shr(v: Byte, d: nat): Byte {
    if d == 0 then v else Shr(v, d - 1) / 2
  }

  /** Whether bit d of v is set, Go's `v & (1 << d) != 0`. */
  predicate BitSet(v: Byte, d: nat) {
    Shr(v, d) % 2 == 1
  }

  /** The character binaryEncode writes for one bit. */
  function BitChar(on: bool): char {
    if on then '1' else '0'
  }

  /**
   The loop of binaryEncode from step d on: at step d it writes bit d of v to
   position 7 - d, so steps d..7 write positions 7 - d down to 0.
   */
  function BinaryDigits(dst: string, v: Byte, d: nat): (r: string)
    requires d <= 8 <= |dst|
    ensures |r| == |dst|
    ensures forall k :: 0 <= k < 8 - d ==> r[k] == BitChar(BitSet(v, 7 - k))
    ensures forall k :: 8 - d <= k < |dst| ==> r[k] == dst[k]
    decreases 8 - d
  {
    if d == 8 then dst
    else BinaryDigits(dst[7 - d := BitChar(BitSet(v, d))], v, d + 1)
  }

  /**
   binaryEncode: reads src[0] only and writes its eight bits to dst[0..8],
   most significant bit first; every other position of dst keeps its content.
   */
  function BinaryEncode(dst: string, src: seq<Byte>): (r: string)
    requires 1 <= |src|
    requires 8 <= |dst|
    ensures |r| == |dst|
    ensures forall k :: 0 <= k < 8 ==> r[k] == BitChar(BitSet(src[0], 7 - k))
    ensures forall k :: 8 <= k < |dst| ==> r[k] == dst[k]
  {
    BinaryDigits(dst, src[0], 0)
  }

  /** The value of a most-significant-first string of '0'/'1' digits. */
  function BitsValue(s: string): nat {
    if |s| == 0 then 0
    else 2 * BitsValue(s[..|s| - 1]) + (if s[|s| - 1] == '1' then 1 else 0)
  }

  /** An octet shifted right by d bits is below 2^(8 - d). */
  lemma {:induction false} ShrBound(v: Byte, d: nat)
    requires d <= 8
    ensures Shr(v, d) < Pow2(8 - d)
  {
    if d > 0 {
      ShrBound(v, d - 1);
      assert Pow2(8 - (d - 1)) == 2 * Pow2(8 - d);
    }
  }

  /** The first m digits binaryEncode writes for v read back as v >> (8 - m). */
  lemma {:induction false} BinaryPrefixValue(r: string, v: Byte, m: nat)
    requires m <= 8 <= |r|
    requires forall k :: 0 <= k < 8 ==> r[k] == BitChar(BitSet(v, 7 - k))
    ensures BitsValue(r[..m]) == Shr(v, 8 - m)
  {
    if m == 0 {
      ShrBound(v, 8);
    } else {
      BinaryPrefixValue(r, v, m - 1);
      assert r[..m][..m - 1] == r[..m - 1];
      assert Shr(v, 8 - (m - 1)) == Shr(v, 8 - m) / 2;
    }
  }

  /** Reading the eight digits binaryEncode writes as a binary number gives back src[0]. */
  lemma BinaryEncodeRoundTrip(dst: string, src: seq<Byte>)
    requires 1 <= |src|
    requires 8 <= |dst|
    ensures BitsValue(BinaryEncode(dst, src)[..8]) == src[0]
  {
    BinaryPrefixValue(BinaryEncode(dst, src), src[0], 8);
  }

  /** empty: true exactly when every octet of the buffer is zero. */
  function Empty(b: seq<Byte>): (r: bool)
    ensures r <==> forall i :: 0 <= i < |b| ==> b[i] == 0
  {
    if |b| == 0 then true
    else if b[0] != 0 then false
    else
      assert forall i :: 1 <= i < |b| ==> b[i] == b[1..][i - 1];
      Empty(b[1..])
  }
}
