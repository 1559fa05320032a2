/** The headers of an ELF core file as bytes, in both classes and both byte orders, and how a
    reader finds the program headers again (include/elf.h, the header writers of dump.c). */
module ElfFormat {
  import opened Arithmetic
  import opened Options

  newtype byte = x: int | 0 <= x < 256

  type Data = seq<byte>

  // ---- numbers ----

  function Pow256(w: nat): (p: nat)
    ensures p > 0
  {
    if w == 0 then 1 else 256 * Pow256(w - 1)
  }

  // A number in w bytes; what does not fit is cut off.
  function Field(n: nat, w: nat, big: bool): (d: Data)
    ensures |d| == w
  {
    if w == 0 then []
    else
      var low: Data := [(n % 256) as byte];
      var high := Field(n / 256, w - 1, big);
      if big then high + low else low + high
  }

  function Value(d: Data, big: bool): nat {
    if d == [] then 0
    else if big then d[|d| - 1] as nat + 256 * Value(d[..|d| - 1], big)
    else d[0] as nat + 256 * Value(d[1..], big)
  }

  lemma SplitMod(n: nat, p: nat)
    requires p > 0
    ensures n % (256 * p) == n % 256 + 256 * (n / 256 % p)
  {
    var q, r := n / 256 / p, n / 256 % p;
    assert n == 256 * (q * p + r) + n % 256;
    assert 256 * (q * p) == q * (256 * p);
    DivModUnique(n, 256 * p, q, 256 * r + n % 256);
  }

  lemma {:induction false} FieldValue(n: nat, w: nat, big: bool)
    ensures Value(Field(n, w, big), big) == n % Pow256(w)
  {
    if w > 0 {
      FieldValue(n / 256, w - 1, big);
      SplitMod(n, Pow256(w - 1));
      var d, high := Field(n, w, big), Field(n / 256, w - 1, big);
      assert if big then d[..|d| - 1] == high else d[1..] == high;
    }
  }

  // ---- records ----

  datatype Item = Item(value: nat, width: nat)

  function Width(items: seq<Item>): nat {
    if items == [] then 0 else Width(items[..|items| - 1]) + items[|items| - 1].width
  }

  function Record(items: seq<Item>, big: bool): (d: Data)
    ensures |d| == Width(items)
  {
    if items == [] then []
    else
      var last := items[|items| - 1];
      Record(items[..|items| - 1], big) + Field(last.value, last.width, big)
  }

  // Where item k begins.
  function Off(items: seq<Item>, k: nat): nat
    requires k <= |items|
  {
    Width(items[..k])
  }

  lemma Offsets(items: seq<Item>)
    ensures Off(items, 0) == 0 && Off(items, |items|) == Width(items)
    ensures forall k: nat | k < |items| :: Off(items, k + 1) == Off(items, k) + items[k].width
  {
    assert items[..|items|] == items;
    forall k: nat | k < |items|
      ensures Off(items, k + 1) == Off(items, k) + items[k].width
    {
      assert items[..k + 1][..k] == items[..k];
    }
  }

  lemma {:induction false} RecordAt(items: seq<Item>, k: nat, big: bool)
    requires k < |items|
    ensures Off(items, k) + items[k].width <= Width(items)
    ensures Record(items, big)[Off(items, k)..Off(items, k) + items[k].width] ==
            Field(items[k].value, items[k].width, big)
  {
    var n := |items| - 1;
    if k < n {
      RecordAt(items[..n], k, big);
      assert items[..n][..k] == items[..k];
    }
  }

  function ReadAt(file: Data, at: nat, w: nat, big: bool): nat {
    if at + w <= |file| then Value(file[at..at + w], big) else 0
  }

  // The record is in the file.
  predicate Holds(file: Data, at: nat, items: seq<Item>, big: bool) {
    at + Width(items) <= |file| && file[at..at + Width(items)] == Record(items, big)
  }

  // An item is read back, cut to its width.
  lemma ReadItem(file: Data, at: nat, items: seq<Item>, k: nat, big: bool)
    requires Holds(file, at, items, big) && k < |items|
    ensures ReadAt(file, at + Off(items, k), items[k].width, big) == items[k].value % Pow256(items[k].width)
  {
    RecordAt(items, k, big);
    FieldValue(items[k].value, items[k].width, big);
    Slice(file, at, Width(items), Off(items, k), items[k].width);
  }

  lemma Slice(file: Data, at: nat, n: nat, o: nat, w: nat)
    requires o + w <= n && at + n <= |file|
    ensures file[at + o..at + o + w] == file[at..at + n][o..o + w]
  {
    var part := file[at..at + n];
    assert forall k | 0 <= k < n :: part[k] == file[at + k];
  }

  lemma ReadItems(file: Data, at: nat, items: seq<Item>, big: bool)
    requires Holds(file, at, items, big)
    ensures forall k: nat | k < |items| ::
              ReadAt(file, at + Off(items, k), items[k].width, big) == items[k].value % Pow256(items[k].width)
  {
    forall k: nat | k < |items|
      ensures ReadAt(file, at + Off(items, k), items[k].width, big) == items[k].value % Pow256(items[k].width)
    {
      ReadItem(file, at, items, k, big);
    }
  }

  lemma HoldsLater(file: Data, more: Data, at: nat, items: seq<Item>, big: bool)
    requires Holds(file, at, items, big) && file <= more
    ensures Holds(more, at, items, big)
  {
    assert more[at..at + Width(items)] == file[at..at + Width(items)];
  }

  lemma HoldsEnd(file: Data, items: seq<Item>, big: bool)
    ensures Holds(file + Record(items, big), |file|, items, big)
  {
  }

  // ---- program headers ----

  const PT_LOAD: nat := 1
  const PT_NOTE: nat := 4
  const PN_XNUM: nat := 0xffff

  /** Sizes of the ELF header, a program header and a section header. */
  function EhdrSize(class64: bool): nat {
    if class64 then 64 else 52
  }

  function PhdrSize(class64: bool): nat {
    if class64 then 56 else 32
  }

  function ShdrSize(class64: bool): nat {
    if class64 then 64 else 40
  }

  // The width of an address or offset.
  function AddrWidth(class64: bool): nat {
    if class64 then 8 else 4
  }

  function Limit(class64: bool): nat {
    if class64 then 0x1_0000_0000_0000_0000 else 0x1_0000_0000
  }

  // p_type, p_offset, p_vaddr, p_paddr, p_filesz, p_memsz
  datatype Phdr = Phdr(kind: nat, offset: nat, virt: nat, phys: nat, filesz: nat, memsz: nat)

  function PhdrItems(class64: bool, p: Phdr): seq<Item> {
    if class64 then
      [Item(p.kind, 4), Item(0, 4), Item(p.offset, 8), Item(p.virt, 8), Item(p.phys, 8), Item(p.filesz, 8),
       Item(p.memsz, 8), Item(0, 8)]
    else
      [Item(p.kind, 4), Item(p.offset, 4), Item(p.virt, 4), Item(p.phys, 4), Item(p.filesz, 4), Item(p.memsz, 4),
       Item(0, 4), Item(0, 4)]
  }

  function ReadPhdr(file: Data, at: nat, class64: bool, big: bool): Phdr {
    if class64 then
      Phdr(ReadAt(file, at, 4, big), ReadAt(file, at + 8, 8, big), ReadAt(file, at + 16, 8, big),
           ReadAt(file, at + 24, 8, big), ReadAt(file, at + 32, 8, big), ReadAt(file, at + 40, 8, big))
    else
      Phdr(ReadAt(file, at, 4, big), ReadAt(file, at + 4, 4, big), ReadAt(file, at + 8, 4, big),
           ReadAt(file, at + 12, 4, big), ReadAt(file, at + 16, 4, big), ReadAt(file, at + 20, 4, big))
  }

  // What the fields of the class can hold.
  function Narrow(class64: bool, p: Phdr): Phdr {
    var m := Limit(class64);
    Phdr(p.kind % 0x1_0000_0000, p.offset % m, p.virt % m, p.phys % m, p.filesz % m, p.memsz % m)
  }

  predicate Fits(class64: bool, p: Phdr) {
    var m := Limit(class64);
    p.kind < 0x1_0000_0000 && p.offset < m && p.virt < m && p.phys < m && p.filesz < m && p.memsz < m
  }

  lemma NarrowExact(class64: bool, p: Phdr)
    ensures Narrow(class64, p) == p <==> Fits(class64, p)
  {
  }

  lemma Powers()
    ensures Pow256(1) == 0x100 && Pow256(2) == 0x1_0000 && Pow256(4) == 0x1_0000_0000 &&
            Pow256(8) == 0x1_0000_0000_0000_0000
  {
    assert Pow256(3) == 0x100_0000;
    assert Pow256(5) == 0x100_0000_0000;
    assert Pow256(6) == 0x1_0000_0000_0000;
    assert Pow256(7) == 0x100_0000_0000_0000;
  }

  lemma PhdrOffsets(class64: bool, p: Phdr)
    ensures var items := PhdrItems(class64, p);
            && Off(items, 0) == 0 && Off(items, 1) == 4 && Width(items) == PhdrSize(class64)
            && if class64 then
                 Off(items, 2) == 8 && Off(items, 3) == 16 && Off(items, 4) == 24 && Off(items, 5) == 32 &&
                     Off(items, 6) == 40
               else
                 Off(items, 2) == 8 && Off(items, 3) == 12 && Off(items, 4) == 16 && Off(items, 5) == 20
  {
    var items := PhdrItems(class64, p);
    Offsets(items);
    hide Off, Width;
    assert Off(items, 1) == 4 && Off(items, 2) == 8;
    assert Off(items, 3) == if class64 then 16 else 12;
    assert Off(items, 4) == if class64 then 24 else 16;
    assert Off(items, 5) == if class64 then 32 else 20;
    assert Off(items, 6) == if class64 then 40 else 24;
    assert Off(items, 7) == if class64 then 48 else 28;
  }

  /** A program header read back is the one that was written, cut to the fields of its class. */
  lemma PhdrRoundTrip(file: Data, at: nat, class64: bool, big: bool, p: Phdr)
    requires Holds(file, at, PhdrItems(class64, p), big)
    ensures ReadPhdr(file, at, class64, big) == Narrow(class64, p)
  {
    var items := PhdrItems(class64, p);
    PhdrOffsets(class64, p);
    Powers();
    ReadItems(file, at, items, big);
    hide Off, Width, ReadAt, Pow256, Holds;
    assert items[0].width == 4 && items[1].width == 4;
    assert items[2].width == AddrWidth(class64) && items[3].width == AddrWidth(class64);
    assert items[4].width == AddrWidth(class64) && items[5].width == AddrWidth(class64);
    if class64 {
      assert items[6].width == 8;
    }
  }

  // ---- the ELF header and the section header ----

  const ET_CORE: nat := 4
  const EV_CURRENT: nat := 1

  /** The ELF header: e_ident, e_type, e_machine, e_version, e_entry, e_phoff, e_shoff, e_flags,
      e_ehsize, e_phentsize, e_phnum, e_shentsize, e_shnum, e_shstrndx. */
  function EhdrItems(class64: bool, big: bool, machine: nat, phnum: nat, shoff: Option<nat>): seq<Item> {
    var a := AddrWidth(class64);
    [Item(0x7f, 1), Item(0x45, 1), Item(0x4c, 1), Item(0x46, 1),
     Item(if class64 then 2 else 1, 1), Item(if big then 2 else 1, 1), Item(EV_CURRENT, 1), Item(0, 9),
     Item(ET_CORE, 2), Item(machine, 2), Item(EV_CURRENT, 4), Item(0, a), Item(EhdrSize(class64), a),
     Item(if shoff.Some? then shoff.value else 0, a), Item(0, 4), Item(EhdrSize(class64), 2),
     Item(PhdrSize(class64), 2), Item(phnum, 2), Item(if shoff.Some? then ShdrSize(class64) else 0, 2),
     Item(if shoff.Some? then 1 else 0, 2), Item(0, 2)]
  }

  // What a reader makes of a file.
  function ClassOf(file: Data): bool {
    ReadAt(file, 4, 1, false) == 2
  }

  function BigOf(file: Data): bool {
    ReadAt(file, 5, 1, false) == 2
  }

  function PhOff(file: Data): nat {
    ReadAt(file, if ClassOf(file) then 32 else 28, AddrWidth(ClassOf(file)), BigOf(file))
  }

  function ShOff(file: Data): nat {
    ReadAt(file, if ClassOf(file) then 40 else 32, AddrWidth(ClassOf(file)), BigOf(file))
  }

  function PhNum(file: Data): nat {
    ReadAt(file, if ClassOf(file) then 56 else 44, 2, BigOf(file))
  }

  // The number of program headers is in the section header if it is too large for its own field.
  function PhCount(file: Data): nat {
    if PhNum(file) == PN_XNUM then ReadAt(file, ShOff(file) + InfoOff(ClassOf(file)), 4, BigOf(file))
    else PhNum(file)
  }

  function PhdrAt(file: Data, k: nat): Phdr {
    ReadPhdr(file, PhOff(file) + k * PhdrSize(ClassOf(file)), ClassOf(file), BigOf(file))
  }

  // e_ident, e_type, e_machine and e_version
  lemma EhdrFront(items: seq<Item>)
    requires |items| == 21 && items[7].width == 9 && items[8].width == items[9].width == 2 && items[10].width == 4
    requires forall k | 0 <= k < 7 :: items[k].width == 1
    ensures Off(items, 4) == 4 && Off(items, 5) == 5 && Off(items, 11) == 24
  {
    Offsets(items);
    hide Off, Width;
    assert Off(items, 1) == 1 && Off(items, 2) == 2 && Off(items, 3) == 3 && Off(items, 4) == 4;
    assert Off(items, 5) == 5 && Off(items, 6) == 6 && Off(items, 7) == 7 && Off(items, 8) == 16;
    assert Off(items, 9) == 18 && Off(items, 10) == 20;
  }

  // e_entry and what follows
  lemma EhdrBack(items: seq<Item>, a: nat)
    requires |items| == 21 && items[11].width == items[12].width == items[13].width == a && items[14].width == 4
    requires Off(items, 11) == 24 && forall k | 15 <= k < 21 :: items[k].width == 2
    ensures Off(items, 12) == 24 + a && Off(items, 13) == 24 + 2 * a && Off(items, 17) == 32 + 3 * a &&
            Width(items) == 40 + 3 * a
  {
    Offsets(items);
    hide Off, Width;
    assert Off(items, 12) == 24 + a && Off(items, 13) == 24 + 2 * a && Off(items, 14) == 24 + 3 * a;
    assert Off(items, 15) == 28 + 3 * a && Off(items, 16) == 30 + 3 * a && Off(items, 17) == 32 + 3 * a;
    assert Off(items, 18) == 34 + 3 * a && Off(items, 19) == 36 + 3 * a && Off(items, 20) == 38 + 3 * a;
  }

  lemma EhdrOffsets(class64: bool, big: bool, machine: nat, phnum: nat, shoff: Option<nat>)
    ensures var items := EhdrItems(class64, big, machine, phnum, shoff);
            && Width(items) == EhdrSize(class64) && Off(items, 4) == 4 && Off(items, 5) == 5
            && Off(items, 12) == (if class64 then 32 else 28) && Off(items, 13) == (if class64 then 40 else 32)
            && Off(items, 17) == if class64 then 56 else 44
  {
    hide Off, Width;
    var items := EhdrItems(class64, big, machine, phnum, shoff);
    EhdrFront(items);
    EhdrBack(items, AddrWidth(class64));
  }

  lemma OneByte(file: Data, at: nat)
    ensures ReadAt(file, at, 1, true) == ReadAt(file, at, 1, false)
  {
    if at + 1 <= |file| {
      var d := file[at..at + 1];
      assert d[1..] == [] && d[..0] == [] && Value([], true) == 0 && Value([], false) == 0;
    }
  }

  /** A reader finds the class, the byte order and the tables that the header names. */
  lemma EhdrRoundTrip(file: Data, class64: bool, big: bool, machine: nat, phnum: nat, shoff: Option<nat>)
    requires Holds(file, 0, EhdrItems(class64, big, machine, phnum, shoff), big)
    ensures ClassOf(file) == class64 && BigOf(file) == big && PhOff(file) == EhdrSize(class64)
    ensures PhNum(file) == phnum % 0x1_0000 && (shoff.Some? ==> ShOff(file) == shoff.value % Limit(class64))
  {
    var items := EhdrItems(class64, big, machine, phnum, shoff);
    EhdrOffsets(class64, big, machine, phnum, shoff);
    Powers();
    OneByte(file, 4);
    OneByte(file, 5);
    ReadItem(file, 0, items, 4, big);
    ReadItem(file, 0, items, 5, big);
    ReadItem(file, 0, items, 12, big);
    ReadItem(file, 0, items, 13, big);
    ReadItem(file, 0, items, 17, big);
    hide Off, Width, ReadAt, Pow256, Holds;
  }

  // ---- the section header ----

  // Where sh_info is in a section header.
  function InfoOff(class64: bool): nat {
    if class64 then 44 else 28
  }

  // sh_info, as a reader takes it from the bytes in the place of the section header.
  function InfoOf(class64: bool, big: bool, shdr: Data): nat {
    ReadAt(shdr, InfoOff(class64), 4, big)
  }

  lemma ReadInfo(file: Data, at: nat, class64: bool, big: bool, shdr: Data)
    requires |shdr| == ShdrSize(class64) && at + |shdr| <= |file| && file[at..at + |shdr|] == shdr
    ensures ReadAt(file, at + InfoOff(class64), 4, big) == InfoOf(class64, big, shdr)
  {
    Slice(file, at, |shdr|, InfoOff(class64), 4);
  }

  lemma {:induction false} ZeroValue(d: Data, big: bool)
    requires forall i | 0 <= i < |d| :: d[i] == 0
    ensures Value(d, big) == 0
  {
    if d != [] {
      if big {
        ZeroValue(d[..|d| - 1], big);
      } else {
        ZeroValue(d[1..], big);
      }
    }
  }

  lemma ZeroInfo(class64: bool, big: bool, shdr: Data)
    requires |shdr| == ShdrSize(class64) && forall i | 0 <= i < |shdr| :: shdr[i] == 0
    ensures InfoOf(class64, big, shdr) == 0
  {
    ZeroValue(shdr[InfoOff(class64)..InfoOff(class64) + 4], big);
  }

  // The last field of a 32-bit program header is zero.
  lemma LastOfPhdr(file: Data, at: nat, big: bool, p: Phdr)
    requires Holds(file, at, PhdrItems(false, p), big)
    ensures ReadAt(file, at + 28, 4, big) == 0
  {
    var items := PhdrItems(false, p);
    Offsets(items);
    PhdrOffsets(false, p);
    assert Off(items, 7) == 28;
    ReadItem(file, at, items, 7, big);
  }

  // The last two fields of a 32-bit ELF header with a section table, read as one number.
  lemma LastOfEhdr(file: Data, big: bool, machine: nat, phnum: nat, shoff: nat)
    requires Holds(file, 0, EhdrItems(false, big, machine, phnum, Some(shoff)), big)
    ensures ReadAt(file, 48, 4, big) == if big then 0x1_0000 else 1
  {
    var items := EhdrItems(false, big, machine, phnum, Some(shoff));
    EhdrOffsets(false, big, machine, phnum, Some(shoff));
    Offsets(items);
    assert Off(items, 19) == 48 && Off(items, 20) == 50 by {
      hide Off, Width;
      assert Off(items, 18) == 46;
    }
    RecordAt(items, 19, big);
    RecordAt(items, 20, big);
    var record := Record(items, big);
    assert record[48..50] == Field(1, 2, big) && record[50..52] == Field(0, 2, big);
    TwoBytes(1, big);
    TwoBytes(0, big);
    assert file[48..52] == record[48..52] by { Slice(file, 0, 52, 48, 4); }
    assert record[48..52] == record[48..50] + record[50..52];
    FourBytes(file[48..52], big);
  }

  lemma TwoBytes(n: nat, big: bool)
    requires n < 256
    ensures Field(n, 2, big) == if big then [0, n as byte] else [n as byte, 0]
  {
    assert Field(0, 0, big) == [];
    assert Field(0, 1, big) == [0];
  }

  lemma FourBytes(d: Data, big: bool)
    requires d == if big then [0, 1, 0, 0] else [1, 0, 0, 0]
    ensures Value(d, big) == if big then 0x1_0000 else 1
  {
    assert Value([], big) == 0;
    if big {
      assert Value([0], big) == 0 by { assert [0][..0] == []; }
      assert Value([0, 1], big) == 1 by { assert [0, 1][..1] == [0]; }
      assert Value([0, 1, 0], big) == 256 by { assert [0, 1, 0][..2] == [0, 1]; }
      assert d[..3] == [0, 1, 0];
    } else {
      ZeroValue(d[1..], big);
    }
  }
}
