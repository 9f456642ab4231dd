/** Values shared by the NEX decoder: bytes, the JavaScript number results the
    viewer computes from them (including `undefined` and `NaN`, which appear
    whenever a read runs past the end of the buffer), and little-endian sums. */
module Values {

  /** One element of the immutable data buffer. */
  type Byte = b: int | 0 <= b < 256

  /** The result of a JavaScript expression over buffer elements: a missing
      element (`undefined`), arithmetic on a missing element (`NaN`), or a
      non-negative integer. */
  datatype Num = Undefined | NaN | Int(n: nat)

  function Max(a: int, b: int): int { if a < b then b else a }

  function Min(a: int, b: int): int { if a < b then a else b }

  /** `dataBuffer[i]`: the element, or `undefined` past the end. */
  function ByteNum(buf: seq<Byte>, i: nat): (r: Num)
    ensures r.Int? <==> i < |buf|
    ensures i < |buf| ==> r == Int(buf[i])
  {
    if i < |buf| then Int(buf[i]) else Undefined
  }

  /** The operand a JavaScript shift or mask sees for `dataBuffer[i]`:
      `undefined` converts to 0 under ToInt32. */
  function ByteOrZero(buf: seq<Byte>, i: nat): (r: Byte)
    ensures i < |buf| ==> r == buf[i]
    ensures i >= |buf| ==> r == 0
  {
    if i < |buf| then buf[i] else 0
  }

  /** `a + b` on JavaScript numbers. */
  function AddNum(a: Num, b: Num): Num {
    if a.Int? && b.Int? then Int(a.n + b.n) else NaN
  }

  /** `f * b` on JavaScript numbers, for a plain integer factor. */
  function ScaleNum(f: nat, b: Num): Num {
    if b.Int? then Int(f * b.n) else NaN
  }

  function Pow256(k: nat): (r: nat)
    ensures r >= 1
  {
    if k == 0 then 1 else 256 * Pow256(k - 1)
  }

  /** The little-endian unsigned integer of a byte sequence: the sum of
      `s[i] * 256^i`, built by adding the most significant byte last. */
  function LittleEndian(s: seq<Byte>): nat {
    if s == [] then 0 else LittleEndian(s[..|s| - 1]) + s[|s| - 1] * Pow256(|s| - 1)
  }

  /** The `width` least significant bytes of `n`, least significant first. */
  function ToLittleEndian(n: nat, width: nat): (r: seq<Byte>)
    ensures |r| == width
  {
    if width == 0 then [] else [n % 256] + ToLittleEndian(n / 256, width - 1)
  }

  /** A little-endian value of `k` bytes always fits in `k` bytes. */
  lemma {:induction false} LittleEndianBound(s: seq<Byte>)
    ensures LittleEndian(s) < Pow256(|s|)
  {
    if s != [] {
      var k := |s| - 1;
      var p := Pow256(k);
      LittleEndianBound(s[..k]);
      assert s[k] * p <= 255 * p by { MulMonotone(s[k], 255, p); }
      assert LittleEndian(s) <= (p - 1) + 255 * p;
    }
  }

  lemma MulMonotone(a: nat, b: nat, p: nat)
    requires a <= b
    ensures a * p <= b * p
  {}

  /** Prepending a byte shifts the rest one byte up. */
  lemma {:induction false} LittleEndianCons(b: Byte, s: seq<Byte>)
    ensures LittleEndian([b] + s) == b + 256 * LittleEndian(s)
    decreases |s|
  {
    if s == [] {
      assert [b] + s == [b];
      assert [b][..0] == [];
    } else {
      var k := |s| - 1;
      assert ([b] + s)[..k + 1] == [b] + s[..k];
      LittleEndianCons(b, s[..k]);
      calc {
        LittleEndian([b] + s);
        LittleEndian([b] + s[..k]) + s[k] * Pow256(k + 1);
        b + 256 * LittleEndian(s[..k]) + s[k] * (256 * Pow256(k));
        b + 256 * (LittleEndian(s[..k]) + s[k] * Pow256(k));
      }
    }
  }

  /** Encoding a value that fits and decoding it again gives it back. */
  lemma {:induction false} LittleEndianRoundTrip(n: nat, width: nat)
    requires n < Pow256(width)
    ensures LittleEndian(ToLittleEndian(n, width)) == n
  {
    if width > 0 {
      LittleEndianRoundTrip(n / 256, width - 1);
      LittleEndianCons(n % 256, ToLittleEndian(n / 256, width - 1));
    }
  }

  /** Decoding bytes and encoding the value again gives the bytes back. */
  lemma {:induction false} ToLittleEndianOfDecode(s: seq<Byte>)
    ensures ToLittleEndian(LittleEndian(s), |s|) == s
    decreases |s|
  {
    if s != [] {
      assert s == [s[0]] + s[1..];
      LittleEndianCons(s[0], s[1..]);
      ToLittleEndianOfDecode(s[1..]);
    }
  }
}
