/** The ZX Spectrum Next specific part of the viewer (src/html/zxspecific.ts):
    the storage order of the 16K banks, the small field renderers, the 9-bit
    palette codec with its default palette, and the size guards in front of the
    image conversions. Each renderer reads the cursor of `Parser`. */
module ZxSpecific {
  import opened Values
  import opened Format
  import opened Parser

  // ---------------------------------------------------------------------------
  // Bank order

  /** The number of 16K banks a NEX file can hold. */
  const BANK_COUNT: nat := 112

  /** The storage order of the first six banks. */
  const FIRST_BANKS: seq<nat> := [5, 2, 0, 1, 3, 4]

  /** The position at which bank `b` is stored: the inverse of the permutation. */
  function BankPosition(b: nat): (i: nat)
    ensures b >= 6 ==> i == b
    ensures i < 6 <==> b < 6
  {
    if b >= 6 then b else [2, 3, 1, 4, 5, 0][b]
  }

  /** `getMemBankPermutation(i)`: the bank stored at position `i`; banks
      5, 2, 0, 1, 3, 4 first, then the others in their own order. */
  function GetMemBankPermutation(i: nat): (b: nat)
    ensures i < 6 ==> b == FIRST_BANKS[i]
    ensures i >= 6 ==> b == i
    ensures b < BANK_COUNT <==> i < BANK_COUNT
  {
    if i >= 6 then i else FIRST_BANKS[i]
  }

  /** The position of a bank and the bank at a position undo each other. */
  lemma BankPermutationInverse(i: nat, b: nat)
    ensures BankPosition(GetMemBankPermutation(i)) == i
    ensures GetMemBankPermutation(BankPosition(b)) == b
  {}

  /** Restricted to the 112 positions, the permutation is a bijection onto
      the 112 banks: every bank is stored at exactly one position. */
  lemma BankPermutationBijective()
    ensures forall b: nat :: b < BANK_COUNT ==> BankPosition(b) < BANK_COUNT && GetMemBankPermutation(BankPosition(b)) == b
    ensures forall i: nat, j: nat :: i < j < BANK_COUNT ==> GetMemBankPermutation(i) != GetMemBankPermutation(j)
  {
    forall b: nat | b < BANK_COUNT
      ensures BankPosition(b) < BANK_COUNT && GetMemBankPermutation(BankPosition(b)) == b
    {
      BankPermutationInverse(0, b);
    }
    forall i: nat, j: nat | i < j < BANK_COUNT
      ensures GetMemBankPermutation(i) != GetMemBankPermutation(j)
    {
      BankPermutationInverse(i, 0);
      BankPermutationInverse(j, 0);
    }
  }

  // ---------------------------------------------------------------------------
  // Colour names

  /** The colour names of the ZX Spectrum, by colour number 0..7. */
  const ZX_COLORS: seq<string> := ["BLACK", "BLUE", "RED", "MAGENTA", "GREEN", "CYAN", "YELLOW", "WHITE"]

  /** The name `zxColorValue` gives as written: every case label is 0, so only
      the first case can match. */
  function ZxColorAsWritten(v: Num): (name: string)
    ensures name == "BLACK" <==> v == Int(0)
    ensures name != "BLACK" ==> name == "UNKNOWN"
  {
    if v == Int(0) then "BLACK" else "UNKNOWN"
  }

  /** The colour number a name stands for, if any. */
  function ColorNumber(name: string): Option<nat> {
    if name == "BLACK" then Some(0)
    else if name == "BLUE" then Some(1)
    else if name == "RED" then Some(2)
    else if name == "MAGENTA" then Some(3)
    else if name == "GREEN" then Some(4)
    else if name == "CYAN" then Some(5)
    else if name == "YELLOW" then Some(6)
    else if name == "WHITE" then Some(7)
    else None
  }

  datatype Option<T> = None | Some(value: T)

  /** The intended table: the colour name for 0..7, "UNKNOWN" otherwise. */
  function ZxColorName(v: Num): (name: string)
    ensures v.Int? && v.n < 8 <==> ColorNumber(name).Some?
    ensures v.Int? && v.n < 8 ==> ColorNumber(name) == Some(v.n)
    ensures !(v.Int? && v.n < 8) ==> name == "UNKNOWN"
  {
    if v.Int? && v.n < 8 then ZX_COLORS[v.n] else "UNKNOWN"
  }

  /** The code as written and the intended table agree on 0 and on everything
      outside 0..7, and differ exactly on the colours 1..7. */
  lemma ZxColorDiscrepancy(v: Num)
    ensures ZxColorAsWritten(v) != ZxColorName(v) <==> v.Int? && 1 <= v.n < 8
  {
    if v.Int? && 1 <= v.n < 8 {
      assert ColorNumber(ZxColorName(v)) == Some(v.n);
    }
  }

  /** `zxColorValue()` as written. */
  method ZxColorValue(c: Cursor) returns (name: string)
    ensures name == ZxColorAsWritten(WindowValue(c.buf, c.Current()))
    ensures name == "BLACK" <==> WindowValue(c.buf, c.Current()) == Int(0)
  {
    var v := c.GetValue();
    name := ZxColorAsWritten(v);
  }

  /** `zxColorValue()` with one case label per colour number. */
  method ZxColorValueCorrected(c: Cursor) returns (name: string)
    ensures name == ZxColorName(WindowValue(c.buf, c.Current()))
    ensures var v := WindowValue(c.buf, c.Current());
      v.Int? && v.n < 8 ==> ColorNumber(name) == Some(v.n)
  {
    var v := c.GetValue();
    name := ZxColorName(v);
  }

  // ---------------------------------------------------------------------------
  // Core version

  /** `String.fromCharCode('0'.charCodeAt(0) + dataBuffer[i])`: a missing
      byte makes the code NaN, which converts to NUL. */
  function VersionChar(buf: seq<Byte>, i: nat): char {
    if i < |buf| then ('0' as int + buf[i]) as char else '\0'
  }

  /** `c` shows the version component stored at `i`: the byte counted up
      from '0', a decimal digit of the same value for components below 10. */
  predicate ShowsComponent(c: char, buf: seq<Byte>, i: nat) {
    && (i < |buf| ==> c as int - '0' as int == buf[i])
    && (i < |buf| && buf[i] < 10 ==> IsDigit(c, 10) && DigitValue(c) == buf[i])
    && (i >= |buf| ==> c == '\0')
  }

  lemma VersionCharShows(buf: seq<Byte>, i: nat)
    ensures ShowsComponent(VersionChar(buf, i), buf, i)
  {}

  /** `coreVersionValue()`: the three bytes at the cursor as "a.b.c". */
  method CoreVersionValue(c: Cursor) returns (s: string)
    ensures |s| == 5 && s[1] == '.' && s[3] == '.'
    ensures ShowsComponent(s[0], c.buf, c.lastOffset)
    ensures ShowsComponent(s[2], c.buf, c.lastOffset + 1)
    ensures ShowsComponent(s[4], c.buf, c.lastOffset + 2)
  {
    VersionCharShows(c.buf, c.lastOffset);
    VersionCharShows(c.buf, c.lastOffset + 1);
    VersionCharShows(c.buf, c.lastOffset + 2);
    s := [VersionChar(c.buf, c.lastOffset)] + ".";
    s := s + [VersionChar(c.buf, c.lastOffset + 1)] + ".";
    s := s + [VersionChar(c.buf, c.lastOffset + 2)];
  }

  // ---------------------------------------------------------------------------
  // Included banks

  /** Whether the inclusion byte at `i` marks a bank as present (`val == 1`). */
  predicate BankFlag(buf: seq<Byte>, i: nat) {
    i < |buf| && buf[i] == 1
  }

  /** The indices below `n` whose inclusion byte at `off` is exactly 1, in
      increasing order. */
  function IncludedBanks(buf: seq<Byte>, off: nat, n: nat): seq<nat>
    decreases n
  {
    if n == 0 then []
    else IncludedBanks(buf, off, n - 1) + (if BankFlag(buf, off + n - 1) then [n - 1] else [])
  }

  /** Every element is below `n`, and the elements strictly increase. */
  predicate IncreasingBelow(r: seq<nat>, n: nat) {
    && (forall k :: 0 <= k < |r| ==> r[k] < n)
    && (forall a, b :: 0 <= a < b < |r| ==> r[a] < r[b])
  }

  /** The listed indices are below `n` and strictly increasing. */
  lemma {:induction false} IncludedBanksIncreasing(buf: seq<Byte>, off: nat, n: nat)
    ensures IncreasingBelow(IncludedBanks(buf, off, n), n)
    decreases n
  {
    if n > 0 {
      var r, prev := IncludedBanks(buf, off, n), IncludedBanks(buf, off, n - 1);
      IncludedBanksIncreasing(buf, off, n - 1);
      forall k | 0 <= k < |r| ensures r[k] < n {
        if k < |prev| { assert r[k] == prev[k]; }
      }
      forall a, b | 0 <= a < b < |r| ensures r[a] < r[b] {
        assert r[a] == prev[a] && prev[a] < n - 1;
        if b < |prev| { assert r[b] == prev[b]; } else { assert r[b] == n - 1; }
      }
    }
  }

  /** Exactly the flagged indices are listed. */
  lemma {:induction false} IncludedBanksMembers(buf: seq<Byte>, off: nat, n: nat, x: nat)
    ensures x in IncludedBanks(buf, off, n) <==> x < n && BankFlag(buf, off + x)
    decreases n
  {
    if n > 0 {
      IncludedBanksMembers(buf, off, n - 1, x);
    }
  }

  /** Each listed index in decimal, followed by a space. */
  function BankListText(banks: seq<nat>): string
    decreases |banks|
  {
    if banks == [] then ""
    else BankListText(banks[..|banks| - 1]) + DecimalString(banks[|banks| - 1]) + " "
  }

  /** A non-empty list text ends with a space. */
  lemma BankListTextEnd(banks: seq<nat>)
    ensures var t := BankListText(banks); t == "" || t[|t| - 1] == ' '
  {}

  lemma BankListTextSnoc(banks: seq<nat>, x: nat)
    ensures BankListText(banks + [x]) == BankListText(banks) + DecimalString(x) + " "
  {
    assert (banks + [x])[..|banks|] == banks;
  }

  /** Scanning one more inclusion byte appends its index when it is flagged. */
  lemma BankListTextStep(buf: seq<Byte>, off: nat, i: nat)
    ensures BankListText(IncludedBanks(buf, off, i + 1))
         == BankListText(IncludedBanks(buf, off, i)) + (if BankFlag(buf, off + i) then DecimalString(i) + " " else "")
  {
    if BankFlag(buf, off + i) {
      BankListTextSnoc(IncludedBanks(buf, off, i), i);
    } else {
      assert IncludedBanks(buf, off, i + 1) == IncludedBanks(buf, off, i);
    }
  }

  /** The list text only grows as more inclusion bytes are scanned. */
  lemma {:induction false} BankListTextGrows(buf: seq<Byte>, off: nat, i: nat, n: nat)
    requires i <= n
    ensures |BankListText(IncludedBanks(buf, off, i))| <= |BankListText(IncludedBanks(buf, off, n))|
    decreases n - i
  {
    if i < n {
      BankListTextGrows(buf, off, i + 1, n);
      BankListTextStep(buf, off, i);
    }
  }

  /** `banksValue()`: the included banks below `lastSize` as a space-terminated
      list, or "..." once that list gets longer than 15 characters. */
  method BanksValue(c: Cursor) returns (s: string)
    ensures var text := BankListText(IncludedBanks(c.buf, c.lastOffset, c.lastSize));
      && (s == "..." <==> |text| > 15)
      && (s != "..." ==> s == text && |s| <= 15)
  {
    s := "";
    var i := 0;
    while i < c.lastSize
      invariant 0 <= i <= c.lastSize
      invariant s == BankListText(IncludedBanks(c.buf, c.lastOffset, i))
      invariant |s| <= 15
    {
      var iIndex := c.lastOffset + i;
      BankListTextStep(c.buf, c.lastOffset, i);
      if iIndex < |c.buf| && c.buf[iIndex] == 1 {
        s := s + DecimalString(i) + " ";
        if |s| > 15 {
          BankListTextGrows(c.buf, c.lastOffset, i + 1, c.lastSize);
          return "...";
        }
      }
      i := i + 1;
    }
    BankListTextEnd(IncludedBanks(c.buf, c.lastOffset, c.lastSize));
  }

  // ---------------------------------------------------------------------------
  // Palette entries

  /** One palette entry of the ZX Spectrum Next: 3-bit channels and the
      Layer 2 priority bit. */
  datatype Color9 = Color9(red: nat, green: nat, blue: nat, priority: nat)

  predicate ValidColor(c: Color9) {
    c.red < 8 && c.green < 8 && c.blue < 8 && c.priority < 2
  }

  /** The decode of the byte pair RRRGGGBB P000000B: red `b0 >> 5`, green
      `(b0 >> 2) & 7`, blue `((b0 << 1) & 6) + (b1 & 1)`, priority `b1 >> 7`. */
  function Decode9(b0: Byte, b1: Byte): (c: Color9)
    ensures ValidColor(c)
  {
    Color9(b0 / 32, (b0 / 4) % 8, 2 * (b0 % 4) + b1 % 2, b1 / 128)
  }

  /** The byte pair that stores a colour. */
  function Encode9(c: Color9): (Byte, Byte)
    requires ValidColor(c)
  {
    (c.red * 32 + c.green * 4 + c.blue / 2, c.priority * 128 + c.blue % 2)
  }

  /** Every colour is stored by exactly the pair `Encode9` gives. */
  lemma DecodeEncode(c: Color9)
    requires ValidColor(c)
    ensures Decode9(Encode9(c).0, Encode9(c).1) == c
  {
    var (b0, b1) := Encode9(c);
    DivModOf(b0, 32, c.red, c.green * 4 + c.blue / 2);
    DivModOf(b0, 4, c.red * 8 + c.green, c.blue / 2);
    DivModOf(c.red * 8 + c.green, 8, c.red, c.green);
    DivModOf(b1, 128, c.priority, c.blue % 2);
    DivModOf(b1, 2, c.priority * 64, c.blue % 2);
  }

  /** Division by one of the field widths of the entry format recovers
      quotient and remainder. */
  lemma DivModOf(n: nat, d: nat, q: nat, r: nat)
    requires d == 2 || d == 4 || d == 8 || d == 32 || d == 128 || d == 256
    requires r < d && n == q * d + r
    ensures n / d == q && n % d == r
  {
    // One empty branch per divisor: the solver proves each case with `d` a constant.
    if d == 2 {
    } else if d == 4 {
    } else if d == 8 {
    } else if d == 32 {
    } else if d == 128 {
    } else {
    }
  }

  /** Decoding loses only the six unused bits 1..6 of the second byte. */
  lemma EncodeDecode(b0: Byte, b1: Byte)
    ensures Encode9(Decode9(b0, b1)) == (b0, (b1 / 128) * 128 + b1 % 2)
  {
    var c := Decode9(b0, b1);
    FirstByteFields(b0);
    DivModOf(c.blue, 2, b0 % 4, b1 % 2);
  }

  /** The first byte splits into its 3, 3 and 2 bit fields. */
  lemma FirstByteFields(b0: Byte)
    ensures b0 == 32 * (b0 / 32) + 4 * ((b0 / 4) % 8) + b0 % 4
  {
    var q, r := b0 / 4, b0 % 4;
    var hq, lq := q / 8, q % 8;
    assert b0 == 32 * hq + 4 * lq + r;
    DivModOf(b0, 32, hq, 4 * lq + r);
  }

  /** On 32-bit words holding bytes, the shifts and masks of the viewer are
      the divisions and remainders of `Decode9`. */
  lemma Decode9BitOps(b0: bv32, b1: bv32)
    requires b0 < 256 && b1 < 256
    ensures b0 >> 5 == b0 / 32
    ensures (b0 >> 2) & 7 == (b0 / 4) % 8
    ensures ((b0 << 1) & 6) + (b1 & 1) == 2 * (b0 % 4) + b1 % 2
    ensures b1 >> 7 == b1 / 128
  {}

  /** The two palette entries given as examples of the format. */
  lemma Decode9Examples()
    ensures Decode9(0xFF, 0x01) == Color9(7, 7, 7, 0)
    ensures Decode9(0x00, 0x80) == Color9(0, 0, 0, 1)
  {}

  /** Channel `k` of a colour: red, green, blue for 0, 1, 2. */
  function Channel(c: Color9, k: nat): nat {
    if k == 0 then c.red else if k == 1 then c.green else c.blue
  }

  /** The entry stored by the byte pair `e` of a palette block at `off`; a
      missing byte counts as 0, as the shifts and masks convert it. */
  function EntryAt(buf: seq<Byte>, off: nat, e: nat): Color9 {
    Decode9(ByteOrZero(buf, off + 2 * e), ByteOrZero(buf, off + 2 * e + 1))
  }

  // ---------------------------------------------------------------------------
  // Palette arrays (R, G, B, R, G, B, ...)

  /** The number of entries `getPalette` decodes: the loop runs while
      `i < lastSize / 2`, that is for `ceil(lastSize / 2)` values of `i`. */
  function PaletteEntries(size: nat): nat {
    (size + 1) / 2
  }

  /** The length of the array `getPalette` returns: 768 slots are allocated,
      and writing past the end of a JavaScript array extends it. */
  function PaletteLength(size: nat): nat {
    Max(768, 3 * PaletteEntries(size))
  }

  /** Slot `j` of `getPalette`'s array: a channel scaled by 32, or a hole
      (`undefined`) where no entry was decoded. */
  function PaletteSlot(buf: seq<Byte>, off: nat, size: nat, j: nat): Num {
    if j < 3 * PaletteEntries(size) then Int(32 * Channel(EntryAt(buf, off, j / 3), j % 3))
    else Undefined
  }

  /** Slots `3e`, `3e + 1`, `3e + 2` hold entry `e`'s red, green and blue. */
  lemma SlotOfEntry(buf: seq<Byte>, off: nat, size: nat, e: nat, k: nat)
    requires e < PaletteEntries(size) && k < 3
    ensures PaletteSlot(buf, off, size, 3 * e + k) == Int(32 * Channel(EntryAt(buf, off, e), k))
  {
    assert (3 * e + k) / 3 == e && (3 * e + k) % 3 == k;
  }

  /** `p` holds the first `i` entries, then holes up to slot 768. */
  ghost predicate PaletteUpTo(p: seq<Num>, buf: seq<Byte>, off: nat, size: nat, i: nat) {
    && |p| == Max(768, 3 * i)
    && forall j :: 0 <= j < |p| ==> p[j] == if j < 3 * i then PaletteSlot(buf, off, size, j) else Undefined
  }

  /** Storing entry `i`'s three channels extends the decoded part by one entry. */
  lemma PaletteStoreEntry(p: seq<Num>, buf: seq<Byte>, off: nat, size: nat, i: nat, red: nat, green: nat, blue: nat)
    requires i < PaletteEntries(size) && PaletteUpTo(p, buf, off, size, i)
    requires var e := EntryAt(buf, off, i); red == 32 * e.red && green == 32 * e.green && blue == 32 * e.blue
    ensures PaletteUpTo(Store(Store(Store(p, 3 * i, Int(red)), 3 * i + 1, Int(green)), 3 * i + 2, Int(blue)), buf, off, size, i + 1)
  {
    var q := Store(Store(Store(p, 3 * i, Int(red)), 3 * i + 1, Int(green)), 3 * i + 2, Int(blue));
    forall j | 0 <= j < |q|
      ensures q[j] == if j < 3 * (i + 1) then PaletteSlot(buf, off, size, j) else Undefined
    {
      if 3 * i <= j < 3 * i + 3 {
        SlotOfEntry(buf, off, size, i, j - 3 * i);
      } else {
        assert q[j] == p[j];
      }
    }
  }

  /** `a[k] = v` on a JavaScript array, for `k` at most one past the end. */
  function Store(a: seq<Num>, k: nat, v: Num): (r: seq<Num>)
    requires k <= |a|
    ensures |r| == Max(|a|, k + 1)
    ensures r[k] == v
    ensures forall j :: 0 <= j < |a| && j != k ==> r[j] == a[j]
  {
    if k < |a| then a[k := v] else a + [v]
  }

  /** `getPalette()`: the palette block at the cursor decoded into R, G, B
      slots scaled by 32. */
  method GetPalette(c: Cursor) returns (p: seq<Num>)
    ensures |p| == PaletteLength(c.lastSize)
    ensures forall j :: 0 <= j < |p| ==> p[j] == PaletteSlot(c.buf, c.lastOffset, c.lastSize, j)
  {
    p := seq(768, _ => Undefined);
    var i := 0;
    while 2 * i < c.lastSize
      invariant i <= PaletteEntries(c.lastSize)
      invariant PaletteUpTo(p, c.buf, c.lastOffset, c.lastSize, i)
    {
      var iOffset := c.lastOffset + 2 * i;
      var val0 := ByteOrZero(c.buf, iOffset);
      var val1 := ByteOrZero(c.buf, iOffset + 1);
      var red := (val0 / 32) * 32;
      var green := ((val0 / 4) % 8) * 32;
      var blue := (2 * (val0 % 4) + val1 % 2) * 32;
      var k := 3 * i;
      assert EntryAt(c.buf, c.lastOffset, i) == Decode9(val0, val1);
      PaletteStoreEntry(p, c.buf, c.lastOffset, c.lastSize, i, red, green, blue);
      p := Store(p, k, Int(red));
      p := Store(p, k + 1, Int(green));
      p := Store(p, k + 2, Int(blue));
      i := i + 1;
    }
    PaletteComplete(p, c.buf, c.lastOffset, c.lastSize, i);
  }

  lemma PaletteComplete(p: seq<Num>, buf: seq<Byte>, off: nat, size: nat, i: nat)
    requires 2 * i >= size && i <= PaletteEntries(size) && PaletteUpTo(p, buf, off, size, i)
    ensures |p| == PaletteLength(size)
    ensures forall j :: 0 <= j < |p| ==> p[j] == PaletteSlot(buf, off, size, j)
  {}

  /** Every decoded channel is a multiple of 32 between 0 and 224. */
  lemma PaletteSlotRange(buf: seq<Byte>, off: nat, size: nat, j: nat)
    ensures var v := PaletteSlot(buf, off, size, j);
      v.Int? ==> v.n % 32 == 0 && v.n <= 224
    ensures PaletteSlot(buf, off, size, j).Int? <==> j < 3 * PaletteEntries(size)
  {}

  /** A 512-byte palette block gives exactly 768 slots, all of them set. */
  lemma FullPaletteBlock(buf: seq<Byte>, off: nat)
    ensures PaletteLength(512) == 768
    ensures forall j :: 0 <= j < 768 ==> PaletteSlot(buf, off, 512, j).Int?
  {}

  // ---------------------------------------------------------------------------
  // Default palette

  /** Slot `j` of the default palette: entry `j / 3` decoded as the byte pair
      `(j / 3, 0)`, so its blue never has the low bit set. */
  function DefaultSlot(j: nat): Num
    requires j < 768
  {
    Int(32 * Channel(Decode9(j / 3, 0), j % 3))
  }

  ghost predicate DefaultUpTo(p: seq<Num>, i: nat) {
    && |p| == 768
    && forall j :: 0 <= j < 768 ==> p[j] == if j < 3 * i then DefaultSlot(j) else Undefined
  }

  lemma DefaultSlotOfEntry(e: nat, k: nat)
    requires e < 256 && k < 3
    ensures DefaultSlot(3 * e + k) == Int(32 * Channel(Decode9(e, 0), k))
  {
    assert (3 * e + k) / 3 == e && (3 * e + k) % 3 == k;
  }

  lemma DefaultStoreEntry(p: seq<Num>, i: nat, red: nat, green: nat, blue: nat)
    requires i < 256 && DefaultUpTo(p, i)
    requires var e := Decode9(i, 0); red == 32 * e.red && green == 32 * e.green && blue == 32 * e.blue
    ensures DefaultUpTo(Store(Store(Store(p, 3 * i, Int(red)), 3 * i + 1, Int(green)), 3 * i + 2, Int(blue)), i + 1)
  {
    var q := Store(Store(Store(p, 3 * i, Int(red)), 3 * i + 1, Int(green)), 3 * i + 2, Int(blue));
    forall j | 0 <= j < 768
      ensures q[j] == if j < 3 * (i + 1) then DefaultSlot(j) else Undefined
    {
      if 3 * i <= j < 3 * i + 3 {
        DefaultSlotOfEntry(i, j - 3 * i);
      } else {
        assert q[j] == p[j];
      }
    }
  }

  /** `getZxNextDefaultPalette()`: 256 entries computed from the index alone. */
  method DefaultPalette() returns (p: seq<Num>)
    ensures |p| == 768
    ensures forall j :: 0 <= j < 768 ==> p[j] == DefaultSlot(j)
  {
    p := seq(768, _ => Undefined);
    var i := 0;
    while i < 256
      invariant i <= 256
      invariant DefaultUpTo(p, i)
    {
      var red := (i / 32) * 32;
      var green := ((i / 4) % 8) * 32;
      var blue := (2 * (i % 4)) * 32;
      var k := 3 * i;
      DefaultStoreEntry(p, i, red, green, blue);
      p := Store(p, k, Int(red));
      p := Store(p, k + 1, Int(green));
      p := Store(p, k + 2, Int(blue));
      i := i + 1;
    }
  }

  /** Every slot of the default palette is set, a multiple of 32 up to 224,
      and every blue slot is one of 0, 64, 128, 192. */
  lemma DefaultSlotRange(j: nat)
    requires j < 768
    ensures DefaultSlot(j).Int? && DefaultSlot(j).n % 32 == 0 && DefaultSlot(j).n <= 224
    ensures j % 3 == 2 ==> DefaultSlot(j).n in {0, 64, 128, 192}
  {
    var e := j / 3;
    if j % 3 == 2 {
      assert Channel(Decode9(e, 0), 2) == 2 * (e % 4);
    }
  }

  /** The palette block that stores entry `i` as the byte pair `(i, 0)`. */
  function PairBlock(): (block: seq<Byte>)
    ensures |block| == 512
  {
    seq(512, p => if p % 2 == 0 then p / 2 else 0)
  }

  /** The default palette is what `getPalette` decodes from the block of byte
      pairs `(i, 0)`. */
  lemma DefaultIsPairBlock()
    ensures PaletteLength(512) == 768
    ensures forall j :: 0 <= j < 768 ==> PaletteSlot(PairBlock(), 0, 512, j) == DefaultSlot(j)
  {
    var block := PairBlock();
    forall j | 0 <= j < 768
      ensures PaletteSlot(block, 0, 512, j) == DefaultSlot(j)
    {
      var e := j / 3;
      assert block[2 * e] == e && block[2 * e + 1] == 0;
      assert EntryAt(block, 0, e) == Decode9(e, 0);
    }
  }

  // ---------------------------------------------------------------------------
  // Palette listing (`createPalette`)

  /** The values one row of the palette listing shows: the offset, the entry
      number, the 16-bit word with its hex digits, the decoded entry and the
      swatch colour as six hex digits. */
  datatype PaletteRow = PaletteRow(offset: nat, entry: nat, word: Num, wordHex: string, color: Color9, swatch: string)

  /** `256 * val1 + val0` for the pair at `i`: NaN when a byte is missing. */
  function WordAt(buf: seq<Byte>, i: nat): Num {
    AddNum(ScaleNum(256, ByteNum(buf, i + 1)), ByteNum(buf, i))
  }

  /** The swatch colour: each channel scaled by 32 as two hex digits. */
  function Swatch(color: Color9): string {
    GetHexString(Int(32 * color.red), 2) + GetHexString(Int(32 * color.green), 2) + GetHexString(Int(32 * color.blue), 2)
  }

  /** Row `e` of the listing of the palette block at `off`. */
  function PaletteRowAt(buf: seq<Byte>, off: nat, e: nat): PaletteRow {
    var word := WordAt(buf, off + 2 * e);
    var color := EntryAt(buf, off, e);
    PaletteRow(off + 2 * e, e, word, GetHexString(word, 4), color, Swatch(color))
  }

  /** `rows` is the start of the listing of the block at `off`. */
  ghost predicate RowsFrom(rows: seq<PaletteRow>, buf: seq<Byte>, off: nat) {
    forall e :: 0 <= e < |rows| ==> rows[e] == PaletteRowAt(buf, off, e)
  }

  lemma RowsFromSnoc(rows: seq<PaletteRow>, buf: seq<Byte>, off: nat, row: PaletteRow)
    requires RowsFrom(rows, buf, off) && row == PaletteRowAt(buf, off, |rows|)
    ensures RowsFrom(rows + [row], buf, off)
  {}

  /** `createPalette()`: one row per byte pair of the block at the cursor. */
  method CreatePalette(c: Cursor) returns (rows: seq<PaletteRow>)
    ensures |rows| == PaletteEntries(c.lastSize)
    ensures forall e :: 0 <= e < |rows| ==> rows[e] == PaletteRowAt(c.buf, c.lastOffset, e)
  {
    rows := [];
    var i := 0;
    while i < c.lastSize
      invariant i == 2 * |rows| && |rows| <= PaletteEntries(c.lastSize)
      invariant RowsFrom(rows, c.buf, c.lastOffset)
    {
      var iOffset := c.lastOffset + i;
      var iRelOffset := i / 2;
      var color := Decode9(ByteOrZero(c.buf, iOffset), ByteOrZero(c.buf, iOffset + 1));
      var val := WordAt(c.buf, iOffset);
      var row := PaletteRow(iOffset, iRelOffset, val, GetHexString(val, 4), color, Swatch(color));
      assert iRelOffset == |rows| && iOffset == c.lastOffset + 2 * |rows|;
      RowsFromSnoc(rows, c.buf, c.lastOffset, row);
      rows := rows + [row];
      i := i + 2;
    }
  }

  /** A channel scaled by 32 fits in two hex digits. */
  lemma SwatchPart(x: nat)
    requires x < 256
    ensures |GetHexString(Int(x), 2)| == 2
    ensures ParseNumeral(GetHexString(Int(x), 2), 16) == x
  {
    if x >= 16 {
      assert HexString(x) == HexString(x / 16) + [DigitChar(x % 16)];
    }
  }

  /** The word is the 2-byte little-endian value at `i`, as `getValue` reads
      it for a window of size 2: NaN when a byte is missing. */
  lemma WordIsWindowValue(buf: seq<Byte>, i: nat)
    ensures WordAt(buf, i) == WindowValue(buf, Window(i, 2))
    ensures WordAt(buf, i).Int? ==>
      && WordAt(buf, i).n < 0x1_0000
      && WordAt(buf, i).n % 256 == buf[i]
      && WordAt(buf, i).n / 256 == buf[i + 1]
  {
    if i + 2 <= |buf| {
      var s := buf[i..i + 2];
      var lo, hi: nat := buf[i], buf[i + 1];
      assert s[..1][..0] == [];
      assert s[..1] == [buf[i]];
      assert Pow256(1) == 256;
      assert LittleEndian(s[..1]) == lo;
      assert LittleEndian(s) == lo + 256 * hi;
      DivModOf(lo + 256 * hi, 256, hi, lo);
    }
  }

  /** The swatch is six hex digits; the pair for channel `k` reads back as
      the channel scaled by 32. */
  lemma SwatchDigits(color: Color9, k: nat)
    requires ValidColor(color) && k < 3
    ensures var sw := Swatch(color);
      && |sw| == 6 && IsNumeral(sw, 16)
      && ParseNumeral(sw[2 * k..2 * k + 2], 16) == 32 * Channel(color, k)
  {
    var r, g, b := GetHexString(Int(32 * color.red), 2), GetHexString(Int(32 * color.green), 2), GetHexString(Int(32 * color.blue), 2);
    SwatchPart(32 * color.red);
    SwatchPart(32 * color.green);
    SwatchPart(32 * color.blue);
    ThreePairs(r, g, b);
    NumeralAppend(r, g, 16);
    NumeralAppend(r + g, b, 16);
  }

  lemma ThreePairs(r: string, g: string, b: string)
    requires |r| == 2 && |g| == 2 && |b| == 2
    ensures var sw := r + g + b;
      |sw| == 6 && sw[0..2] == r && sw[2..4] == g && sw[4..6] == b
  {}

  /** What a row of the listing shows about its entry: the offset and entry
      number, the word as the 2-byte little-endian value at the entry (NaN
      when a byte is missing), and the colour as the decode of the word's low
      and high byte. */
  lemma PaletteRowWord(buf: seq<Byte>, off: nat, e: nat)
    ensures var row := PaletteRowAt(buf, off, e);
      && row.offset == off + 2 * e && row.entry == e
      && row.word == WindowValue(buf, Window(off + 2 * e, 2))
      && (row.word.Int? ==> row.word.n < 0x1_0000 && row.color == Decode9(row.word.n % 256, row.word.n / 256))
      && ValidColor(row.color)
  {
    WordIsWindowValue(buf, off + 2 * e);
  }

  /** The swatch of a row shows the colour `getPalette` gives for the entry:
      the pair of hex digits for channel `k` reads back as that entry's slot. */
  lemma PaletteRowSwatch(buf: seq<Byte>, off: nat, size: nat, e: nat, k: nat)
    requires e < PaletteEntries(size) && k < 3
    ensures var sw := Swatch(EntryAt(buf, off, e));
      |sw| == 6 && Int(ParseNumeral(sw[2 * k..2 * k + 2], 16)) == PaletteSlot(buf, off, size, 3 * e + k)
  {
    SwatchDigits(EntryAt(buf, off, e), k);
    SlotOfEntry(buf, off, size, e, k);
  }

  // ---------------------------------------------------------------------------
  // Image conversions: what is handed to the image decoders

  /** The size of a ULA screen: 6144 bytes of pixels and 768 of attributes.
      The guard compares against `UlaScreen.SCREEN_SIZE`, taken to be this size. */
  const ULA_SCREEN_SIZE: nat := 6912

  /** The size of a Layer 2 screen of 256 x 192 bytes. */
  const LAYER2_SCREEN_SIZE: nat := 49152

  /** The number of palette entries, one pixel each in the palette image. */
  const PALETTE_IMAGE_PIXELS: nat := 256

  /** The outcome of an image conversion: the "Error converting image."
      marker, a failed `assert` (thrown out of the function), or the data
      handed to the screen decoder or to the GIF encoder. */
  datatype Conversion =
    | ConversionError
    | AssertionFailed
    | UlaScreenData(screen: seq<Byte>)
    | GifRequest(width: nat, height: nat, pixels: seq<nat>, palette: seq<Num>)

  /** `createUlaScreen()`: the screen at the cursor if all of it is in the
      buffer, the error marker otherwise. */
  method CreateUlaScreen(c: Cursor) returns (r: Conversion)
    ensures r == ConversionError <==> c.lastOffset + ULA_SCREEN_SIZE > |c.buf|
    ensures r != ConversionError ==> r.UlaScreenData? && |r.screen| == ULA_SCREEN_SIZE
    ensures r != ConversionError ==> forall k :: 0 <= k < ULA_SCREEN_SIZE ==> r.screen[k] == c.buf[c.lastOffset + k]
  {
    if c.lastOffset + ULA_SCREEN_SIZE > |c.buf| {
      return ConversionError;
    }
    r := UlaScreenData(c.buf[c.lastOffset..c.lastOffset + ULA_SCREEN_SIZE]);
  }

  /** `createLayer2Screen(palette)`: fails unless a full Layer 2 screen lies in
      the buffer; otherwise the `lastSize` bytes at the cursor (as far as the
      buffer goes) are handed on with the palette, as a 16 x 16 image. */
  method CreateLayer2Screen(c: Cursor, palette: seq<Num>) returns (r: Conversion)
    ensures r == ConversionError <==> c.lastOffset + LAYER2_SCREEN_SIZE > |c.buf|
    ensures r != ConversionError ==> r.GifRequest? && r.width == 16 && r.height == 16 && r.palette == palette
    ensures r != ConversionError ==> |r.pixels| == Min(c.lastSize, |c.buf| - c.lastOffset)
    ensures r != ConversionError ==> forall k :: 0 <= k < |r.pixels| ==> r.pixels[k] == c.buf[c.lastOffset + k]
  {
    if c.lastOffset + LAYER2_SCREEN_SIZE > |c.buf| {
      return ConversionError;
    }
    var pixels := c.buf[c.lastOffset..Min(c.lastOffset + c.lastSize, |c.buf|)];
    r := GifRequest(16, 16, pixels, palette);
  }

  /** `createPaletteImage()`: only for a 512-byte palette block; one pixel per
      entry, pixel `i` showing entry `i` of the decoded palette. */
  method CreatePaletteImage(c: Cursor) returns (r: Conversion)
    ensures r == AssertionFailed <==> c.lastSize != 512
    ensures r != AssertionFailed ==>
      && r.GifRequest? && r.width == 16 && r.height == 16
      && |r.pixels| == PALETTE_IMAGE_PIXELS
      && (forall i :: 0 <= i < PALETTE_IMAGE_PIXELS ==> r.pixels[i] == i)
      && |r.palette| == 768
      && (forall j :: 0 <= j < 768 ==> r.palette[j] == PaletteSlot(c.buf, c.lastOffset, 512, j))
  {
    if c.lastSize != 512 {
      return AssertionFailed;
    }
    var pixels: seq<nat> := [];
    var i := 0;
    while i < PALETTE_IMAGE_PIXELS
      invariant i <= PALETTE_IMAGE_PIXELS && |pixels| == i
      invariant forall k :: 0 <= k < i ==> pixels[k] == k
    {
      pixels := pixels + [i];
      i := i + 1;
    }
    var palette := GetPalette(c);
    r := GifRequest(16, 16, pixels, palette);
  }
}
