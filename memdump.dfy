/** The layout decisions of the hex dump (`htmlMemDump`): which bytes are shown
    as single cells and which runs of equal bytes are collapsed into one
    "contain all" line, independent of the markup that presents them. */
module MemDumpPlan {
  import opened Values

  /** Bytes per row of the dump. */
  const ROW: nat := 16

  /** One line element of the dump. Indices are relative to the dumped block
      (data is read at the cursor offset plus the index); addresses are what is
      displayed (the display offset plus the index). */
  datatype DumpItem =
    | Cell(index: nat, address: nat, value: Byte)
    | Run(first: nat, last: nat, fromAddress: nat, toAddress: nat, value: Byte)

  /** The dump of a block; `failed` when reading stopped at a missing byte
      (the "Error while parsing." line). */
  datatype Dump = Dump(items: seq<DumpItem>, failed: bool)

  function Prepend(item: DumpItem, d: Dump): Dump {
    Dump([item] + d.items, d.failed)
  }

  /** The scan for equal values: the first `l` from `from` on where the block
      ends or the byte differs from `v` (a missing byte always differs). */
  function RunEnd(buf: seq<Byte>, base: nat, size: nat, v: Byte, from: nat): (l: nat)
    requires from <= size
    ensures from <= l <= size
    ensures from < l ==> base + l <= |buf|
    ensures forall p :: base + from <= p < base + l ==> buf[p] == v
    ensures l < size ==> base + l >= |buf| || buf[base + l] != v
    decreases size - from
  {
    if from < size && base + from < |buf| && buf[base + from] == v then RunEnd(buf, base, size, v, from + 1)
    else from
  }

  /** The end of the run of bytes equal to the one at `i`, cut back to a row boundary. */
  function CollapseEnd(buf: seq<Byte>, base: nat, size: nat, i: nat): nat
    requires i < size && base + i < |buf|
  {
    var l := RunEnd(buf, base, size, buf[base + i], i + 1);
    l - l % ROW
  }

  /** The collapse rule: at a row start, when at least two complete rows hold
      the same value. */
  predicate Collapses(buf: seq<Byte>, base: nat, size: nat, i: nat)
    requires i < size && base + i < |buf|
  {
    i % ROW == 0 && CollapseEnd(buf, base, size, i) > i + ROW
  }

  /** Where the dump goes on after index `i`: past the collapsed range, or to
      the next byte. */
  function NextIndex(buf: seq<Byte>, base: nat, size: nat, i: nat): (next: nat)
    requires i < size && base + i < |buf|
    ensures i < next <= size
  {
    if Collapses(buf, base, size, i) then CollapseEnd(buf, base, size, i) else i + 1
  }

  /** The element emitted at index `i`: a collapsed range or a single cell. */
  function NextItem(buf: seq<Byte>, base: nat, size: nat, offset: nat, i: nat): DumpItem
    requires i < size && base + i < |buf|
  {
    if Collapses(buf, base, size, i) then
      var e := CollapseEnd(buf, base, size, i);
      Run(i, e - 1, offset + i, offset + e - 1, buf[base + i])
    else Cell(i, offset + i, buf[base + i])
  }

  /** At a row start, the scan result `l` decides the element: a collapsed
      range up to the row boundary below `l` when that is more than one row
      away, a single cell otherwise. */
  lemma RowStartStep(buf: seq<Byte>, base: nat, size: nat, offset: nat, i: nat, l: nat)
    requires i < size && base + i < |buf| && i % ROW == 0
    requires l == RunEnd(buf, base, size, buf[base + i], i + 1)
    ensures var l16 := l - l % ROW;
      && (l16 > i + ROW ==>
           && NextIndex(buf, base, size, i) == l16
           && NextItem(buf, base, size, offset, i) == Run(i, l16 - 1, offset + i, offset + l16 - 1, buf[base + i]))
      && (l16 <= i + ROW ==>
           && NextIndex(buf, base, size, i) == i + 1
           && NextItem(buf, base, size, offset, i) == Cell(i, offset + i, buf[base + i]))
  {
    assert CollapseEnd(buf, base, size, i) == l - l % ROW;
  }

  /** Inside a row, the element is always a single cell. */
  lemma InRowStep(buf: seq<Byte>, base: nat, size: nat, offset: nat, i: nat)
    requires i < size && base + i < |buf| && i % ROW != 0
    ensures NextIndex(buf, base, size, i) == i + 1
    ensures NextItem(buf, base, size, offset, i) == Cell(i, offset + i, buf[base + i])
  {}

  /** The dump of the block from index `i` on. */
  function DumpFrom(buf: seq<Byte>, base: nat, size: nat, offset: nat, i: nat): Dump
    decreases size - i
  {
    if i >= size then Dump([], false)
    else if base + i >= |buf| then Dump([], true)
    else Prepend(NextItem(buf, base, size, offset, i), DumpFrom(buf, base, size, offset, NextIndex(buf, base, size, i)))
  }

  /** The dump of `size` bytes read at `base`, displayed from address `offset`. */
  function DumpOf(buf: seq<Byte>, base: nat, size: nat, offset: nat): Dump {
    DumpFrom(buf, base, size, offset, 0)
  }

  /** `items` followed by the dump `d`. */
  function Join(items: seq<DumpItem>, d: Dump): Dump {
    Dump(items + d.items, d.failed)
  }

  lemma JoinPrepend(items: seq<DumpItem>, item: DumpItem, d: Dump)
    ensures Join(items, Prepend(item, d)) == Join(items + [item], d)
  {
    assert items + ([item] + d.items) == (items + [item]) + d.items;
  }

  /** One step of the dump: the element at `i` joins the finished part. */
  lemma DumpStep(items: seq<DumpItem>, buf: seq<Byte>, base: nat, size: nat, offset: nat, i: nat)
    requires i < size && base + i < |buf|
    ensures Join(items, DumpFrom(buf, base, size, offset, i))
         == Join(items + [NextItem(buf, base, size, offset, i)],
                 DumpFrom(buf, base, size, offset, NextIndex(buf, base, size, i)))
  {
    JoinPrepend(items, NextItem(buf, base, size, offset, i),
                DumpFrom(buf, base, size, offset, NextIndex(buf, base, size, i)));
  }

  /** What each element of the dump promises about the bytes it stands for. */
  predicate ItemOk(item: DumpItem, buf: seq<Byte>, base: nat, size: nat, offset: nat) {
    match item
    case Cell(i, addr, v) =>
      && i < size && addr == offset + i
      && base + i < |buf| && v == buf[base + i]
      && (i % ROW == 0 ==> !Collapses(buf, base, size, i))
    case Run(first, last, fromAddr, toAddr, v) =>
      && first % ROW == 0
      && (last + 1 - first) % ROW == 0
      && last + 1 - first >= 2 * ROW
      && last < size
      && fromAddr == offset + first && toAddr == offset + last
      && base + last < |buf|
      && (forall p :: base + first <= p <= base + last ==> buf[p] == v)
  }

  predicate AllItemsOk(items: seq<DumpItem>, buf: seq<Byte>, base: nat, size: nat, offset: nat) {
    forall j :: 0 <= j < |items| ==> ItemOk(items[j], buf, base, size, offset)
  }

  /** The element at `i` keeps its promise. */
  lemma NextItemOk(buf: seq<Byte>, base: nat, size: nat, offset: nat, i: nat)
    requires i < size && base + i < |buf|
    ensures ItemOk(NextItem(buf, base, size, offset, i), buf, base, size, offset)
  {
    if Collapses(buf, base, size, i) {
      var l := RunEnd(buf, base, size, buf[base + i], i + 1);
      assert CollapseEnd(buf, base, size, i) <= l;
    }
  }

  lemma AllItemsOkCons(item: DumpItem, items: seq<DumpItem>, buf: seq<Byte>, base: nat, size: nat, offset: nat)
    requires ItemOk(item, buf, base, size, offset) && AllItemsOk(items, buf, base, size, offset)
    ensures AllItemsOk([item] + items, buf, base, size, offset)
  {
    var all := [item] + items;
    forall j | 0 <= j < |all| ensures ItemOk(all[j], buf, base, size, offset) {
      if j > 0 { assert all[j] == items[j - 1]; }
    }
  }

  /** Every cell shows the byte at its index and its display address; every
      collapsed range starts at a row start, spans whole rows, at least two of
      them, and holds only its value. */
  lemma {:induction false} DumpItemsOk(buf: seq<Byte>, base: nat, size: nat, offset: nat, i: nat)
    ensures AllItemsOk(DumpFrom(buf, base, size, offset, i).items, buf, base, size, offset)
    decreases size - i
  {
    if i < size && base + i < |buf| {
      var next := NextIndex(buf, base, size, i);
      DumpItemsOk(buf, base, size, offset, next);
      NextItemOk(buf, base, size, offset, i);
      AllItemsOkCons(NextItem(buf, base, size, offset, i), DumpFrom(buf, base, size, offset, next).items, buf, base, size, offset);
    }
  }

  /** `[a, a+1, ..., b-1]`. */
  function Range(a: nat, b: nat): (r: seq<nat>)
    ensures |r| == if a <= b then b - a else 0
    decreases b - a
  {
    if a >= b then [] else [a] + Range(a + 1, b)
  }

  lemma {:induction false} RangeSplit(a: nat, m: nat, b: nat)
    requires a <= m <= b
    ensures Range(a, m) + Range(m, b) == Range(a, b)
    decreases m - a
  {
    if a < m {
      RangeSplit(a + 1, m, b);
    }
  }

  /** The block indices an element stands for. */
  function ItemIndices(item: DumpItem): seq<nat> {
    match item
    case Cell(i, _, _) => [i]
    case Run(first, last, _, _, _) => Range(first, last + 1)
  }

  /** The block indices of a dump, in the order the elements appear. */
  function Indices(items: seq<DumpItem>): seq<nat> {
    if items == [] then [] else ItemIndices(items[0]) + Indices(items[1..])
  }

  /** How many leading bytes of the block exist in the buffer. */
  function Covered(bufLength: nat, base: nat, size: nat): nat {
    if base + size <= bufLength then size else if base <= bufLength then bufLength - base else 0
  }

  /** Coverage: the elements stand for the indices `i, i+1, ...` up to the
      first missing byte, each exactly once and in increasing order; the dump
      fails exactly when a byte of the block is missing. */
  lemma {:induction false} DumpCoverage(buf: seq<Byte>, base: nat, size: nat, offset: nat, i: nat)
    requires i <= Covered(|buf|, base, size)
    ensures var d := DumpFrom(buf, base, size, offset, i);
      && Indices(d.items) == Range(i, Covered(|buf|, base, size))
      && (d.failed <==> Covered(|buf|, base, size) < size)
    decreases size - i
  {
    var c := Covered(|buf|, base, size);
    var d := DumpFrom(buf, base, size, offset, i);
    if i < size && base + i < |buf| {
      var next := if Collapses(buf, base, size, i) then CollapseEnd(buf, base, size, i) else i + 1;
      var item := d.items[0];
      var rest := DumpFrom(buf, base, size, offset, next);
      assert d.items == [item] + rest.items;
      assert d.items[1..] == rest.items;
      assert ItemIndices(item) == Range(i, next);
      if next > i + 1 {
        var l := RunEnd(buf, base, size, buf[base + i], i + 1);
        assert next <= l;
      }
      DumpCoverage(buf, base, size, offset, next);
      RangeSplit(i, next, c);
    }
  }

  /** The whole dump: every index of the block in exactly one element, in
      increasing order, unless a byte is missing, where it stops with an error. */
  lemma DumpOfCoverage(buf: seq<Byte>, base: nat, size: nat, offset: nat)
    ensures var d := DumpOf(buf, base, size, offset);
      && (base + size <= |buf| ==> Indices(d.items) == Range(0, size) && !d.failed)
      && (base + size > |buf| && size > 0 ==> d.failed)
      && AllItemsOk(d.items, buf, base, size, offset)
  {
    DumpCoverage(buf, base, size, offset, 0);
    DumpItemsOk(buf, base, size, offset, 0);
  }
}
