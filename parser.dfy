/** The read cursor of the viewer (src/html/parser.ts): the data buffer and the
    two globals `lastOffset` and `lastSize`, the scalar decoders that view the
    current window, the hex dump and the deferred-details bookkeeping. */
module Parser {
  import opened Values
  import opened Format
  import opened MemDumpPlan

  /** A cursor state: the start of the last read and its length. */
  datatype Window = Window(offset: nat, size: nat)

  /** The effect of `read(size)` on a cursor state. */
  function Advance(w: Window, size: nat): Window {
    Window(w.offset + w.size, size)
  }

  /** The cursor state after the reads `sizes`, in order. */
  function ReadAll(w: Window, sizes: seq<nat>): Window
    decreases |sizes|
  {
    if sizes == [] then w else ReadAll(Advance(w, sizes[0]), sizes[1..])
  }

  function Sum(s: seq<nat>): nat
    decreases |s|
  {
    if s == [] then 0 else s[0] + Sum(s[1..])
  }

  lemma {:induction false} SumSnoc(s: seq<nat>, x: nat)
    ensures Sum(s + [x]) == Sum(s) + x
    decreases |s|
  {
    if s == [] {
      assert [] + [x] == [x];
    } else {
      assert (s + [x])[1..] == s[1..] + [x];
      SumSnoc(s[1..], x);
    }
  }

  /** Reads from any state: the last window starts where the state's window
      ends plus all earlier sizes, and has the last size. */
  lemma {:induction false} ReadAllWindow(w: Window, sizes: seq<nat>)
    requires |sizes| > 0
    ensures ReadAll(w, sizes) == Window(w.offset + w.size + Sum(sizes[..|sizes| - 1]), sizes[|sizes| - 1])
    decreases |sizes|
  {
    var rest := sizes[1..];
    if rest != [] {
      ReadAllWindow(Advance(w, sizes[0]), rest);
      assert sizes[..|sizes| - 1] == [sizes[0]] + rest[..|rest| - 1];
      assert ([sizes[0]] + rest[..|rest| - 1])[1..] == rest[..|rest| - 1];
    }
  }

  /** From the initial state (0, 0), after reads s1..sn the cursor is at
      s1 + ... + s(n-1) with size sn. */
  lemma ReadsFromStart(sizes: seq<nat>)
    requires |sizes| > 0
    ensures ReadAll(Window(0, 0), sizes) == Window(Sum(sizes[..|sizes| - 1]), sizes[|sizes| - 1])
  {
    ReadAllWindow(Window(0, 0), sizes);
  }

  /** Consecutive fields are contiguous: field k+1 starts where field k ends,
      so fields never overlap and leave no gaps. */
  lemma FieldsContiguous(sizes: seq<nat>, k: nat)
    requires k + 1 < |sizes|
    ensures var field := ReadAll(Window(0, 0), sizes[..k + 1]);
      ReadAll(Window(0, 0), sizes[..k + 2]) == Window(field.offset + field.size, sizes[k + 1])
  {
    var a, b := sizes[..k + 1], sizes[..k + 2];
    ReadsFromStart(a);
    ReadsFromStart(b);
    assert a[..|a| - 1] == sizes[..k];
    assert b[..|b| - 1] == sizes[..k] + [sizes[k]];
    SumSnoc(sizes[..k], sizes[k]);
  }

  /** What `getValue()` returns for window `w`: the little-endian value of
      its `max(size, 1)` bytes; `undefined` when the single byte is missing,
      `NaN` when a byte of a longer window is missing. */
  function WindowValue(buf: seq<Byte>, w: Window): Num {
    var width := Max(w.size, 1);
    if w.offset + width <= |buf| then Int(LittleEndian(buf[w.offset..w.offset + width]))
    else if w.size <= 1 then Undefined
    else NaN
  }

  /** Extending the window by one byte adds that byte times `256^size`. */
  lemma ValueStep(buf: seq<Byte>, off: nat, i: nat)
    requires i >= 1
    ensures WindowValue(buf, Window(off, i + 1))
         == AddNum(WindowValue(buf, Window(off, i)), ScaleNum(Pow256(i), ByteNum(buf, off + i)))
  {
    if off + i + 1 <= |buf| {
      var s := buf[off..off + i + 1];
      assert s[..i] == buf[off..off + i];
      assert s[i] == buf[off + i];
    }
  }

  /** The character `String.fromCharCode` gives for a buffer element;
      `undefined` converts to NUL. */
  function CharOf(v: Num): char {
    if v.Int? && v.n < 256 then v.n as char else '\0'
  }

  /** Whether bit `k` of `x` is set. */
  predicate BitSet(x: nat, k: nat) {
    (x / Pow2(k)) % 2 == 1
  }

  /** JavaScript bitwise operators work on the value modulo 2^32. */
  const UINT32_RANGE: nat := 0x1_0000_0000

  lemma SmallMod(x: nat, m: nat)
    requires x < m
    ensures x % m == x
  {}

  function Pow2(k: nat): (r: nat)
    ensures r >= 1
  {
    if k == 0 then 1 else 2 * Pow2(k - 1)
  }

  /** The read cursor over the immutable data buffer. */
  class Cursor {
    const buf: seq<Byte>
    var lastOffset: nat
    var lastSize: nat

    function Current(): Window
      reads this
    {
      Window(lastOffset, lastSize)
    }

    /** The state set when the data arrives: offset and size 0. */
    constructor (data: seq<Byte>)
      ensures buf == data && lastOffset == 0 && lastSize == 0
    {
      buf := data;
      lastOffset := 0;
      lastSize := 0;
    }

    /** `read(size)`: the next field starts where the last one ended. */
    method Read(size: nat)
      modifies this
      ensures lastOffset == old(lastOffset) + old(lastSize) && lastSize == size
      ensures Current() == Advance(old(Current()), size)
    {
      lastOffset := lastOffset + lastSize;
      lastSize := size;
    }

    /** `getValue()`: the little-endian value of the current window; the
        cursor does not move. */
    method GetValue() returns (v: Num)
      ensures v == WindowValue(buf, Current())
      ensures v.Int? ==> v.n < Pow256(Max(lastSize, 1))
      ensures lastSize <= 1 ==> v == ByteNum(buf, lastOffset)
    {
      v := ByteNum(buf, lastOffset);
      if lastOffset < |buf| {
        var one := buf[lastOffset..lastOffset + 1];
        assert one[..0] == [];
        assert LittleEndian(one) == buf[lastOffset];
      }
      var factor := 1;
      var i := 1;
      while i < lastSize
        invariant 1 <= i <= Max(lastSize, 1)
        invariant factor == Pow256(i - 1)
        invariant v == WindowValue(buf, Window(lastOffset, i))
      {
        factor := factor * 256;
        ValueStep(buf, lastOffset, i);
        v := AddNum(v, ScaleNum(factor, ByteNum(buf, lastOffset + i)));
        i := i + 1;
      }
      if v.Int? {
        LittleEndianBound(buf[lastOffset..lastOffset + Max(lastSize, 1)]);
      }
    }

    /** `decimalValue()`: the value in decimal; "NaN" for NaN, a TypeError
        for `undefined`. */
    method DecimalValue() returns (r: Rendered)
      ensures var v := WindowValue(buf, Current());
        && (v.Int? ==> r.Shown? && IsNumeral(r.text, 10) && ParseNumeral(r.text, 10) == v.n)
        && (v.Int? ==> r.text == DecimalString(v.n))
        && (v.Int? && v.n > 0 ==> r.text[0] != '0')
        && (v == Int(0) ==> r.text == "0")
        && (v.NaN? ==> r == Shown("NaN"))
        && (v.Undefined? ==> r == Throws)
    {
      var v := GetValue();
      match v
      case Int(n) =>
        NumeralDigits(n, 10);
        NumeralRoundTrip(n, 10);
        NumeralCanonical(n, 10);
        r := Shown(DecimalString(n));
      case NaN => r := Shown("NaN");
      case Undefined => r := Throws;
    }

    /** `hexValue()`: the value in unpadded upper-case hex; "NAN" for NaN
        (upper-cased), a TypeError for `undefined`. */
    method HexValue() returns (r: Rendered)
      ensures var v := WindowValue(buf, Current());
        && (v.Int? ==> r.Shown? && IsNumeral(r.text, 16) && ParseNumeral(r.text, 16) == v.n)
        && (v.Int? ==> r.text == HexString(v.n))
        && (v.Int? && v.n > 0 ==> r.text[0] != '0')
        && (v == Int(0) ==> r.text == "0")
        && (v.NaN? ==> r == Shown("NAN"))
        && (v.Undefined? ==> r == Throws)
    {
      var v := GetValue();
      match v
      case Int(n) =>
        NumeralDigits(n, 16);
        NumeralRoundTrip(n, 16);
        NumeralCanonical(n, 16);
        r := Shown(HexString(n));
      case NaN => r := Shown("NAN");
      case Undefined => r := Throws;
    }

    /** `bitValue(bit)`: "1" iff the bit is set in the value as a 32-bit
        integer (JavaScript shifts use the bit number modulo 32); a missing
        value reads as 0. */
    method BitValue(bit: nat) returns (s: string)
      ensures s == "1" || s == "0"
      ensures var v := WindowValue(buf, Current());
        s == "1" <==> v.Int? && BitSet(v.n % UINT32_RANGE, bit % 32)
      ensures var v := WindowValue(buf, Current());
        v.Int? && v.n < UINT32_RANGE && bit < 32 ==> (s == "1" <==> BitSet(v.n, bit))
    {
      var v := GetValue();
      s := if v.Int? && BitSet(v.n % UINT32_RANGE, bit % 32) then "1" else "0";
      if v.Int? && v.n < UINT32_RANGE && bit < 32 {
        SmallMod(v.n, UINT32_RANGE);
        SmallMod(bit, 32);
      }
    }

    /** `stringValue()`: one character per byte of the window, with the
        byte as its code; the cursor does not move. */
    method StringValue() returns (s: string)
      ensures |s| == lastSize
      ensures forall i :: 0 <= i < lastSize ==> s[i] == CharOf(ByteNum(buf, lastOffset + i))
      ensures forall i :: 0 <= i < lastSize && lastOffset + i < |buf| ==> s[i] as int == buf[lastOffset + i]
    {
      s := "";
      var i := 0;
      while i < lastSize
        invariant 0 <= i <= lastSize
        invariant |s| == i
        invariant forall k :: 0 <= k < i ==> s[k] == CharOf(ByteNum(buf, lastOffset + k))
      {
        s := s + [CharOf(ByteNum(buf, lastOffset + i))];
        i := i + 1;
      }
    }

    /** The scan of `htmlMemDump` for equal values after index `i`: the first
        later index of the block whose byte differs from `val` or is missing. */
    method ScanRun(i: nat, size: nat, val: Byte) returns (l: nat)
      requires i < size
      ensures l == RunEnd(buf, lastOffset, size, val, i + 1)
      ensures i < l <= size
      ensures forall p :: lastOffset + i < p < lastOffset + l ==> buf[p] == val
    {
      l := i + 1;
      while l < size && lastOffset + l < |buf| && buf[lastOffset + l] == val
        invariant i < l <= size
        invariant RunEnd(buf, lastOffset, size, val, l) == RunEnd(buf, lastOffset, size, val, i + 1)
        decreases size - l
      {
        l := l + 1;
      }
    }

    /** One step of `htmlMemDump` at index `i`: at a row start, the scan for
        equal values and, when it reaches more than one row further, the
        collapsed range up to the last row boundary; a single cell otherwise.
        `next` is the index the loop goes on with. */
    method DumpElement(i: nat, size: nat, offset: nat) returns (item: DumpItem, next: nat)
      requires i < size && lastOffset + i < |buf|
      ensures item == NextItem(buf, lastOffset, size, offset, i)
      ensures next == NextIndex(buf, lastOffset, size, i)
    {
      var val := buf[lastOffset + i];
      if i % ROW == 0 {
        var l := ScanRun(i, size, val);
        var l16 := l - l % ROW;
        RowStartStep(buf, lastOffset, size, offset, i, l);
        if l16 > i + ROW {
          return Run(i, l16 - 1, offset + i, offset + l16 - 1, val), l16;
        }
      } else {
        InRowStep(buf, lastOffset, size, offset, i);
      }
      item, next := Cell(i, offset + i, val), i + 1;
    }

    /** `htmlMemDump(size, offset)`: the dump of `size` bytes at the cursor,
        displayed from address `offset`. Afterwards the cursor offset has
        advanced by exactly `size`, also when the dump stopped with an error. */
    method MemDump(size: nat, offset: nat) returns (d: Dump)
      modifies this
      ensures d == DumpOf(buf, old(lastOffset), size, offset)
      ensures lastOffset == old(lastOffset) + size && lastSize == old(lastSize)
    {
      ghost var base := lastOffset;
      var items: seq<DumpItem> := [];
      var failed := false;
      var i := 0;
      while i < size && !failed
        invariant 0 <= i <= size && lastOffset == base && lastSize == old(lastSize)
        invariant !failed ==> DumpOf(buf, base, size, offset) == Join(items, DumpFrom(buf, base, size, offset, i))
        invariant failed ==> DumpOf(buf, base, size, offset) == Dump(items, true)
        decreases size - i, if failed then 0 else 1
      {
        if lastOffset + i >= |buf| {
          // `val.toString()` on a missing byte throws
          assert items + [] == items;
          failed := true;
        } else {
          DumpStep(items, buf, base, size, offset, i);
          var item, next := DumpElement(i, size, offset);
          items := items + [item];
          i := next;
        }
      }
      d := Dump(items, failed);
      lastOffset := lastOffset + size;
    }

    /** `htmlDetails(title, size)`: records the current offset as the node's
        `data-index` attribute (its decimal string) and skips the block. */
    method Details(size: nat) returns (dataIndex: string)
      modifies this
      ensures IsNumeral(dataIndex, 10) && ParseNumeral(dataIndex, 10) == old(lastOffset)
      ensures lastOffset == old(lastOffset) + size && lastSize == old(lastSize)
    {
      dataIndex := DecimalString(lastOffset);
      NumeralDigits(lastOffset, 10);
      NumeralRoundTrip(lastOffset, 10);
      lastOffset := lastOffset + size;
    }

    /** The toggle handler: before the deferred decoding runs, the cursor
        offset is reset to the recorded `data-index`. */
    method Toggle(dataIndex: string)
      requires IsNumeral(dataIndex, 10)
      modifies this
      ensures lastOffset == ParseNumeral(dataIndex, 10) && lastSize == old(lastSize)
    {
      lastOffset := ParseNumeral(dataIndex, 10);
    }
  }

}
