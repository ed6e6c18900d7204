/** machine/translate.cc and userprog/addrspace.cc: page tables, address translation, and the
    ownership of physical frames by address spaces. */
module Memory {
  import opened Words
  import opened BitMaps
  import opened Collections
  import opened Ownerships

  const PAGE_SIZE := 512
  const NUM_PHYS_PAGES := 128
  const MEMORY_SIZE := NUM_PHYS_PAGES * PAGE_SIZE

  datatype ExceptionType = Syscall | PageFault | ReadOnlyFault | BusError | AddressError | Overflow | IllegalInstr

  datatype TranslationEntry = TranslationEntry(
    virtualPage: int, physicalPage: int32, valid: bool, readOnly: bool, use: bool, dirty: bool)

  datatype Translation = Fault(exception: ExceptionType) | Physical(address: int)

  /** The size of a memory access. */
  type Width = n: int | n == 1 || n == 2 || n == 4 witness 1

  // ---------------------------------------------------------------- translation

  /** Machine::Translate over a linear page table, apart from the use and dirty bits. */
  function Translate(table: seq<TranslationEntry>, virtAddr: int32, size: Width, writing: bool): (t: Translation) {
    var addr := ToWord(virtAddr);
    if (size == 4 && addr % 4 != 0) || (size == 2 && addr % 2 != 0) then Fault(AddressError)
    else
      var vpn, offset := addr / PAGE_SIZE, addr % PAGE_SIZE;
      if vpn >= |table| then Fault(AddressError)
      else if !table[vpn].valid then Fault(PageFault)
      else if table[vpn].readOnly && writing then Fault(ReadOnlyFault)
      else if ToWord(table[vpn].physicalPage) >= NUM_PHYS_PAGES then Fault(BusError)
      else Physical(ToWord(table[vpn].physicalPage) * PAGE_SIZE + offset)
  }

  /** The entry a translation uses, with its use and dirty bits set. */
  function Touched(table: seq<TranslationEntry>, virtAddr: int32, writing: bool): (r: seq<TranslationEntry>)
    ensures |r| == |table|
  {
    var vpn := ToWord(virtAddr) / PAGE_SIZE;
    if vpn < |table| then table[vpn := table[vpn].(use := true, dirty := table[vpn].dirty || writing)] else table
  }

  /** A successful access stays inside one frame of physical memory: the assertion at the end
      of Translate holds, whatever the page table says. */
  lemma AccessStaysInFrame(table: seq<TranslationEntry>, virtAddr: int32, size: Width, writing: bool)
    requires Translate(table, virtAddr, size, writing).Physical?
    ensures var a := Translate(table, virtAddr, size, writing).address;
      && 0 <= a && a + size <= MEMORY_SIZE && a / PAGE_SIZE == (a + size - 1) / PAGE_SIZE
      && ToWord(virtAddr) / PAGE_SIZE < |table|
      && a / PAGE_SIZE == table[ToWord(virtAddr) / PAGE_SIZE].physicalPage
      && a % PAGE_SIZE == ToWord(virtAddr) % PAGE_SIZE
  {
    var w := ToWord(virtAddr);
    var vpn, offset := w / PAGE_SIZE, w % PAGE_SIZE;
    var frame := ToWord(table[vpn].physicalPage);
    assert table[vpn].physicalPage == frame && Translate(table, virtAddr, size, writing).address == frame * PAGE_SIZE + offset;
    assert frame < NUM_PHYS_PAGES && (size == 4 ==> w % 4 == 0) && (size == 2 ==> w % 2 == 0);
    hide Translate, ToWord;
    OffsetLeavesRoom(w, size);
    InOneFrame(frame, offset, size);
  }

  /** An aligned access does not cross the end of its page. */
  lemma OffsetLeavesRoom(w: word, size: Width)
    requires (size == 4 ==> w % 4 == 0) && (size == 2 ==> w % 2 == 0)
    ensures w % 512 + size <= 512
  {
    var q, r := w / 512, w % 512;
    assert w == 512 * q + r;
    if size == 4 {
      assert w == 4 * (w / 4);
      MultipleOfFour(q, r, w / 4);
    } else if size == 2 {
      assert w == 2 * (w / 2);
      MultipleOfTwo(q, r, w / 2);
    }
  }

  lemma MultipleOfFour(q: int, r: int, k: int)
    requires 512 * q + r == 4 * k && r < 512
    ensures r + 4 <= 512
  {
    assert r == 4 * (k - 128 * q);
  }

  lemma MultipleOfTwo(q: int, r: int, k: int)
    requires 512 * q + r == 2 * k && r < 512
    ensures r + 2 <= 512
  {
    assert r == 2 * (k - 256 * q);
  }

  lemma InOneFrame(frame: nat, offset: nat, size: Width)
    requires frame < 128 && offset + size <= 512
    ensures var a := frame * 512 + offset;
      a + size <= 65536 && a / 512 == frame && (a + size - 1) / 512 == frame && a % 512 == offset
  {
  }

  /** Which exception a translation ends in: a misaligned address or one beyond the table, a page
      that is not there, a write to a page that may only be read, a frame that does not exist. */
  lemma FaultsAre(table: seq<TranslationEntry>, virtAddr: int32, size: Width, writing: bool)
    ensures var t, page := Translate(table, virtAddr, size, writing), ToWord(virtAddr) / PAGE_SIZE;
      var reached := virtAddr as int % size == 0 && page < |table|;
      && (t == Fault(AddressError) <==> !reached)
      && (t == Fault(PageFault) <==> reached && !table[page].valid)
      && (t == Fault(ReadOnlyFault) <==> reached && table[page].valid && writing && table[page].readOnly)
      && (t == Fault(BusError) <==>
            reached && table[page].valid && !(writing && table[page].readOnly) && !(0 <= table[page].physicalPage < NUM_PHYS_PAGES))
      && (t.Physical? <==>
            reached && table[page].valid && !(writing && table[page].readOnly) && 0 <= table[page].physicalPage < NUM_PHYS_PAGES)
  {
    SameResidue(virtAddr);
  }

  lemma SameResidue(x: int32)
    ensures ToWord(x) % 2 == x as int % 2 && ToWord(x) % 4 == x as int % 4
  {
  }

  // ---------------------------------------------------------------- memory accesses, as values

  /** What ReadMem makes of the bytes at an address: a signed char, or an unsigned short or
      word, little end first. */
  function Load(memory: seq<byte>, a: nat, size: Width): (v: int32)
    requires a + size <= |memory|
  {
    if size == 1 then (if memory[a] < 128 then memory[a] as int else memory[a] as int - 256)
    else if size == 2 then memory[a] as int + 256 * (memory[a + 1] as int)
    else ToInt(BytesToWord(memory[a..a + 4]))
  }

  /** What WriteMem leaves in memory. */
  function Store(memory: seq<byte>, a: nat, size: Width, value: int32): (r: seq<byte>)
    requires a + size <= |memory|
    ensures |r| == |memory|
    ensures forall i | 0 <= i < |memory| && !(a <= i < a + size) :: r[i] == memory[i]
  {
    var b := WordToBytes(ToWord(value))[..size];
    memory[..a] + b + memory[a + size..]
  }

  lemma StoredBytes(memory: seq<byte>, a: nat, size: Width, value: int32, i: nat)
    requires a + size <= |memory| && i < size
    ensures Store(memory, a, size, value)[a + i] == WordToBytes(ToWord(value))[i]
  {
  }

  lemma LoadAfterStoreWord(memory: seq<byte>, a: nat, value: int32)
    requires a + 4 <= |memory|
    ensures Load(Store(memory, a, 4, value), a, 4) == value
  {
    var w, r := ToWord(value), Store(memory, a, 4, value);
    forall i | 0 <= i < 4 ensures r[a + i] == WordToBytes(w)[i] { StoredBytes(memory, a, 4, value, i); }
    hide Store, WordToBytes;
    assert r[a..a + 4] == WordToBytes(w);
    WordRoundTrip(w);
  }

  lemma LoadAfterStoreShort(memory: seq<byte>, a: nat, value: int32)
    requires a + 2 <= |memory|
    ensures Load(Store(memory, a, 2, value), a, 2) == ToWord(value) % 65536
  {
    StoredBytes(memory, a, 2, value, 0);
    StoredBytes(memory, a, 2, value, 1);
    hide Store, ToWord;
    LowHalf(ToWord(value));
  }

  lemma LowHalf(w: word)
    ensures WordToBytes(w)[0] as int + 256 * (WordToBytes(w)[1] as int) == w % 65536
  {
    var q := w / 65536;
    var r := w - q * 65536;
    assert w / 256 == q * 256 + r / 256;
    assert w / 256 % 256 == r / 256;
    assert w % 256 == r % 256;
  }

  lemma LoadAfterStoreByte(memory: seq<byte>, a: nat, value: int32)
    requires a + 1 <= |memory|
    ensures var v := Load(Store(memory, a, 1, value), a, 1); -128 <= v < 128 && ToWord(v) % 256 == ToWord(value) % 256
  {
    StoredBytes(memory, a, 1, value, 0);
  }

  /** A load reads back what the last store put there: the whole word, or its low part. */
  lemma LoadAfterStore(memory: seq<byte>, a: nat, size: Width, value: int32)
    requires a + size <= |memory|
    ensures var v := Load(Store(memory, a, size, value), a, size);
      && (size == 4 ==> v == value)
      && (size == 2 ==> v == ToWord(value) % 65536)
      && (size == 1 ==> ToWord(v) % 256 == ToWord(value) % 256 && -128 <= v < 128)
  {
    hide Load, Store, ToWord;
    if size == 4 { LoadAfterStoreWord(memory, a, value); }
    else if size == 2 { LoadAfterStoreShort(memory, a, value); }
    else { LoadAfterStoreByte(memory, a, value); }
  }

  /** A load does not see a store to another frame. */
  lemma LoadFromOtherFrame(memory: seq<byte>, a: nat, size: Width, value: int32, b: nat, size': Width)
    requires |memory| == MEMORY_SIZE && a + size <= MEMORY_SIZE && b + size' <= MEMORY_SIZE
    requires a / PAGE_SIZE == (a + size - 1) / PAGE_SIZE && b / PAGE_SIZE == (b + size' - 1) / PAGE_SIZE
    requires a / PAGE_SIZE != b / PAGE_SIZE
    ensures Load(Store(memory, a, size, value), b, size') == Load(memory, b, size')
  {
    var r := Store(memory, a, size, value);
    assert forall i | b <= i < b + size' :: r[i] == memory[i] by {
      assert b + size' <= a || a + size <= b;
    }
    if size' == 4 { assert r[b..b + 4] == memory[b..b + 4]; }
  }

  datatype Access = Trapped(exception: ExceptionType) | Done(value: int32)

  function ReadResult(table: seq<TranslationEntry>, memory: seq<byte>, addr: int32, size: Width): (r: Access)
    requires |memory| == MEMORY_SIZE
  {
    match Translate(table, addr, size, false)
    case Fault(e) => Trapped(e)
    case Physical(a) => AccessStaysInFrame(table, addr, size, false); Done(Load(memory, a, size))
  }

  function WriteResult(table: seq<TranslationEntry>, memory: seq<byte>, addr: int32, size: Width, value: int32): (r: seq<byte>)
    requires |memory| == MEMORY_SIZE
    ensures |r| == |memory|
  {
    match Translate(table, addr, size, true)
    case Fault(e) => memory
    case Physical(a) => AccessStaysInFrame(table, addr, size, true); Store(memory, a, size, value)
  }

  /** No frame is used by both tables. */
  ghost predicate Separate(ta: seq<TranslationEntry>, tb: seq<TranslationEntry>) {
    forall i, j | 0 <= i < |ta| && 0 <= j < |tb| :: ta[i].physicalPage != tb[j].physicalPage
  }

  /** Isolation: whatever a program writes through its page table, no read through a table
      that shares no frame with it gives another result. */
  lemma Isolation(ta: seq<TranslationEntry>, tb: seq<TranslationEntry>, memory: seq<byte>,
                  addrA: int32, sizeA: Width, value: int32, addrB: int32, sizeB: Width)
    requires |memory| == MEMORY_SIZE && Separate(ta, tb)
    ensures ReadResult(tb, WriteResult(ta, memory, addrA, sizeA, value), addrB, sizeB) == ReadResult(tb, memory, addrB, sizeB)
  {
    var w, r := Translate(ta, addrA, sizeA, true), Translate(tb, addrB, sizeB, false);
    if w.Physical? && r.Physical? {
      AccessStaysInFrame(ta, addrA, sizeA, true);
      AccessStaysInFrame(tb, addrB, sizeB, false);
      LoadFromOtherFrame(memory, w.address, sizeA, value, r.address, sizeB);
    }
  }

  /** No frame is used for two pages. */
  ghost predicate OneToOne(table: seq<TranslationEntry>) {
    forall i, j | 0 <= i < j < |table| :: table[i].physicalPage != table[j].physicalPage
  }

  /** Two accesses that have no byte in common. */
  predicate Apart(x: int, n: Width, y: int, m: Width) { x + n <= y || y + m <= x }

  /** Accesses to different virtual addresses reach different bytes of physical memory. */
  lemma PlacesDiffer(table: seq<TranslationEntry>, x: int32, n: Width, writing: bool, y: int32, m: Width)
    requires OneToOne(table) && Translate(table, x, n, writing).Physical? && Translate(table, y, m, false).Physical?
    requires Apart(ToWord(x), n, ToWord(y), m)
    ensures Apart(Translate(table, x, n, writing).address, n, Translate(table, y, m, false).address, m)
  {
    AccessStaysInFrame(table, x, n, writing);
    AccessStaysInFrame(table, y, m, false);
    var a, b := Translate(table, x, n, writing).address, Translate(table, y, m, false).address;
    var i, j := ToWord(x) / PAGE_SIZE, ToWord(y) / PAGE_SIZE;
    hide Translate, ToWord;
    if i == j {
      SamePage(a, b, ToWord(x), ToWord(y));
    } else {
      assert table[if i < j then i else j].physicalPage != table[if i < j then j else i].physicalPage;
      OtherFrame(a, n, b, m);
    }
  }

  lemma SamePage(a: int, b: int, x: int, y: int)
    requires a / 512 == b / 512 && x / 512 == y / 512 && a % 512 == x % 512 && b % 512 == y % 512
    ensures a - b == x - y
  {
  }

  lemma OtherFrame(a: nat, n: Width, b: nat, m: Width)
    requires a / 512 == (a + n - 1) / 512 && b / 512 == (b + m - 1) / 512 && a / 512 != b / 512
    ensures Apart(a, n, b, m)
  {
  }

  lemma LoadFromElsewhere(memory: seq<byte>, a: nat, size: Width, value: int32, b: nat, size': Width)
    requires a + size <= |memory| && b + size' <= |memory| && Apart(a, size, b, size')
    ensures Load(Store(memory, a, size, value), b, size') == Load(memory, b, size')
  {
    var r := Store(memory, a, size, value);
    assert forall i | b <= i < b + size' :: r[i] == memory[i];
    if size' == 4 { assert r[b..b + 4] == memory[b..b + 4]; }
  }

  /** A write through a page table leaves every read at another address alone, in the same space. */
  lemma WriteLeavesRest(table: seq<TranslationEntry>, memory: seq<byte>, x: int32, n: Width, value: int32, y: int32, m: Width)
    requires |memory| == MEMORY_SIZE && OneToOne(table) && Apart(ToWord(x), n, ToWord(y), m)
    ensures ReadResult(table, WriteResult(table, memory, x, n, value), y, m) == ReadResult(table, memory, y, m)
  {
    hide Load, Store, ToWord, Apart, OneToOne;
    var w, r := Translate(table, x, n, true), Translate(table, y, m, false);
    if w.Physical? && r.Physical? {
      AccessStaysInFrame(table, x, n, true);
      AccessStaysInFrame(table, y, m, false);
      PlacesDiffer(table, x, n, true, y, m);
      LoadFromElsewhere(memory, w.address, n, value, r.address, m);
    }
  }

  /** And a program reads back what it wrote. */
  lemma ReadYourWrite(table: seq<TranslationEntry>, memory: seq<byte>, addr: int32, value: int32)
    requires |memory| == MEMORY_SIZE && Translate(table, addr, 4, true).Physical?
    ensures ReadResult(table, WriteResult(table, memory, addr, 4, value), addr, 4) == Done(value)
  {
    AccessStaysInFrame(table, addr, 4, true);
    LoadAfterStore(memory, Translate(table, addr, 4, true).address, 4, value);
  }

  // ---------------------------------------------------------------- address spaces

  /** The entry that a new page table holds for a page. */
  predicate IsFreshEntry(e: TranslationEntry, page: int, frame: int) {
    e.virtualPage == page && e.physicalPage == frame && e.valid && !e.readOnly && !e.use && !e.dirty
  }

  class AddrSpace {
    const numPages: nat
    const pageTable: array<TranslationEntry>
    /** The frames of the space, page by page; fixed when it is created. */
    ghost const frames: seq<int>

    ghost predicate Valid()
      reads pageTable
    {
      && pageTable.Length == numPages == |frames|
      && forall i | 0 <= i < numPages ::
           pageTable[i].virtualPage == i && pageTable[i].physicalPage == frames[i]
           && pageTable[i].valid && !pageTable[i].readOnly
    }

    constructor (table: array<TranslationEntry>, ghost frames: seq<int>)
      ensures pageTable == table && numPages == table.Length && this.frames == frames
    {
      pageTable, numPages, this.frames := table, table.Length, frames;
    }
  }

  ghost function FramesOf(live: seq<AddrSpace>): (own: Ownership)
    ensures |own| == |live|
  {
    seq(|live|, i requires 0 <= i < |live| => live[i].frames)
  }

  /** Every read through the table gives the same result from both memories. */
  ghost predicate SameReads(table: seq<TranslationEntry>, m: seq<byte>, m': seq<byte>)
    requires |m| == |m'| == MEMORY_SIZE
  {
    forall addr: int32, size: Width :: ReadResult(table, m', addr, size) == ReadResult(table, m, addr, size)
  }

  /** What happens to memory: a space is created, the k-th live space is deleted, or its
      program writes. */
  datatype Op = Arrive(size: nat) | Leave(k: nat) | Write(k: nat, addr: int32, width: Width, value: int32) {

    /** It is not the doing of the space at position j, of n. */
    predicate Allowed(n: nat, j: nat) {
      Arrive? || (k < n && k != j)
    }

    function Count(n: nat): int {
      if Arrive? then n + 1 else if Leave? then n - 1 else n
    }

    /** Where the space at position j is afterwards. */
    function Place(j: nat): nat {
      if Leave? && k < j then j - 1 else j
    }
  }

  predicate AllAllowed(ops: seq<Op>, n: nat, j: nat) {
    ops == [] || (ops[0].Allowed(n, j) && ops[0].Count(n) >= 0 && AllAllowed(ops[1..], ops[0].Count(n), ops[0].Place(j)))
  }

  /** Physical memory, the bitmap of its frames, and the address spaces alive in it. */
  class PhysicalMemory {
    const frames: BitMap
    const mainMemory: array<byte>
    ghost var live: seq<AddrSpace>

    ghost predicate Valid()
      reads this, frames.words, set s | s in live :: s.pageTable
    {
      && frames.Valid() && frames.numBits == NUM_PHYS_PAGES && mainMemory.Length == MEMORY_SIZE
      && mainMemory as object != frames.words
      && (forall i | 0 <= i < |live| :: live[i].Valid())
      && (forall i, j | 0 <= i < j < |live| :: live[i] != live[j] && live[i].pageTable != live[j].pageTable)
      && Partition(FramesOf(live), frames.Bits())
    }

    constructor ()
      ensures Valid() && live == [] && fresh(frames) && fresh(frames.words) && fresh(mainMemory)
    {
      frames := new BitMap(NUM_PHYS_PAGES);
      mainMemory := new byte[MEMORY_SIZE](_ => 0);
      live := [];
      new;
      forall s | 0 <= s < NUM_PHYS_PAGES ensures !HasOwner(FramesOf(live), s) {}
    }

    /** Sets up the page table of a new address space of that many bytes. When there are too
        few free frames the space is created empty, and no frame is taken. */
    method Create(size: nat) returns (space: AddrSpace)
      requires Valid()
      modifies this, frames.words
      ensures Valid() && fresh(space) && fresh(space.pageTable) && live == old(live) + [space]
      ensures var pages := size / PAGE_SIZE + (if size % PAGE_SIZE > 0 then 1 else 0);
        space.numPages == if pages <= CountClear(old(frames.Bits())) then pages else 0
      ensures TakenFrom(old(frames.Bits()), space.frames)
      ensures frames.Bits() == Marked(old(frames.Bits()), space.frames)
    {
      var numPages := size / PAGE_SIZE + if size % PAGE_SIZE > 0 then 1 else 0;
      var clear := frames.NumClear();
      if numPages > clear {
        numPages := 0;
      }
      hide Partition, CountClear, BitsOf;
      ghost var bits := frames.Bits();
      var table; ghost var taken;
      table, taken := FillTable(numPages);
      space := new AddrSpace(table, taken);
      assert space.Valid();
      hide AddrSpace.Valid, Marked, TakenFrom;
      live := live + [space];
      PartitionAdd(FramesOf(old(live)), bits);
      PartitionGrow(FramesOf(old(live)) + [[]], bits, |old(live)|, taken);
      assert FramesOf(live) == (FramesOf(old(live)) + [[]])[|old(live)| := taken];
    }

    /** The loop that takes one frame per page. */
    method FillTable(numPages: nat) returns (table: array<TranslationEntry>, ghost taken: seq<int>)
      requires frames.Valid() && frames.numBits == NUM_PHYS_PAGES && numPages <= CountClear(frames.Bits())
      modifies frames.words
      ensures fresh(table) && table.Length == numPages == |taken|
      ensures forall i | 0 <= i < numPages :: IsFreshEntry(table[i], i, taken[i])
      ensures TakenFrom(old(frames.Bits()), taken) && frames.Bits() == Marked(old(frames.Bits()), taken)
    {
      table := new TranslationEntry[numPages](_ => TranslationEntry(0, 0, false, false, false, false));
      ghost var bits := frames.Bits();
      taken := [];
      assert bits == Marked(bits, []);
      for i := 0 to numPages
        invariant |taken| == i && TakenFrom(bits, taken) && frames.Bits() == Marked(bits, taken)
        invariant CountClear(frames.Bits()) == CountClear(bits) - i
        invariant forall j | 0 <= j < i :: IsFreshEntry(table[j], j, taken[j])
      {
        var f := frames.Find();
        TakeOneMore(bits, taken, f);
        taken := taken + [f];
        table[i] := TranslationEntry(i, f, true, false, false, false);
      }
    }

    /** The destructor: exactly the frames of that space become free. */
    method Delete(space: AddrSpace, ghost k: nat)
      requires Valid() && k < |live| && live[k] == space
      modifies this, frames.words
      ensures Valid() && live == old(live)[..k] + old(live)[k + 1..]
      ensures frames.Bits() == Cleared(old(frames.Bits()), space.frames)
    {
      ghost var own, bits := FramesOf(live), frames.Bits();
      assert own[k] == space.frames;
      assert bits == Cleared(bits, []);
      for i := 0 to space.numPages
        invariant space.Valid() && frames.Bits() == Cleared(bits, space.frames[..i])
        invariant live == old(live) && forall j | 0 <= j < |live| :: live[j].Valid()
      {
        assert space.frames[i] in own[k];
        frames.Clear(space.pageTable[i].physicalPage);
        assert space.frames[..i + 1] == space.frames[..i] + [space.frames[i]];
      }
      assert space.frames[..space.numPages] == space.frames;
      PartitionShrink(own, bits, k);
      PartitionDrop(own[k := []], Cleared(bits, own[k]), k);
      live := live[..k] + live[k + 1..];
      assert forall i | 0 <= i < |live| :: live[i] == old(live)[if i < k then i else i + 1];
      assert FramesOf(live) == own[k := []][..k] + own[k := []][k + 1..];
    }

    /** Reads through the page table of a live space. */
    method ReadMem(space: AddrSpace, addr: int32, size: Width) returns (r: Access)
      requires Valid() && space in live
      modifies space.pageTable
      ensures Valid() && r == ReadResult(old(space.pageTable[..]), mainMemory[..], addr, size)
      ensures space.pageTable[..] == if r.Trapped? then old(space.pageTable[..]) else Touched(old(space.pageTable[..]), addr, false)
    {
      var t := Translate(space.pageTable[..], addr, size, false);
      if t.Fault? {
        return Trapped(t.exception);
      }
      AccessStaysInFrame(space.pageTable[..], addr, size, false);
      Touch(space, addr, false);
      r := Done(Load(mainMemory[..], t.address, size));
    }

    /** Writes through the page table of a live space. */
    method WriteMem(space: AddrSpace, addr: int32, size: Width, value: int32) returns (r: Access)
      requires Valid() && space in live
      modifies space.pageTable, mainMemory
      ensures Valid()
      ensures mainMemory[..] == WriteResult(old(space.pageTable[..]), old(mainMemory[..]), addr, size, value)
      ensures r == match Translate(old(space.pageTable[..]), addr, size, true)
                   case Fault(e) => Trapped(e) case Physical(_) => Done(value)
      ensures space.pageTable[..] == if r.Trapped? then old(space.pageTable[..]) else Touched(old(space.pageTable[..]), addr, true)
    {
      var t := Translate(space.pageTable[..], addr, size, true);
      if t.Fault? {
        return Trapped(t.exception);
      }
      AccessStaysInFrame(space.pageTable[..], addr, size, true);
      Touch(space, addr, true);
      var image := Store(mainMemory[..], t.address, size, value);
      forall i | t.address <= i < t.address + size { mainMemory[i] := image[i]; }
      assert mainMemory[..] == image;
      r := Done(value);
    }

    method Touch(space: AddrSpace, addr: int32, writing: bool)
      requires Valid() && space in live && ToWord(addr) / PAGE_SIZE < space.numPages
      modifies space.pageTable
      ensures Valid() && space.pageTable[..] == Touched(old(space.pageTable[..]), addr, writing)
    {
      var vpn := ToWord(addr) / PAGE_SIZE;
      space.pageTable[vpn] := space.pageTable[vpn].(use := true, dirty := space.pageTable[vpn].dirty || writing);
    }

    lemma LiveSpacesAreSeparate(a: AddrSpace, b: AddrSpace)
      requires Valid() && a in live && b in live && a != b
      ensures a.Valid() && b.Valid() && a.pageTable != b.pageTable && Separate(a.pageTable[..], b.pageTable[..])
    {
      var i :| 0 <= i < |live| && live[i] == a;
      var j :| 0 <= j < |live| && live[j] == b;
      var own := FramesOf(live);
      assert own[i] == a.frames && own[j] == b.frames;
      forall x, y | 0 <= x < |a.frames| && 0 <= y < |b.frames| ensures a.frames[x] != b.frames[y] {
        assert a.frames[x] in own[i] && b.frames[y] in own[j];
      }
    }

    /** No live address space uses a frame for two of its pages. */
    lemma LiveSpacesAreOneToOne(a: AddrSpace)
      requires Valid() && a in live
      ensures a.Valid() && OneToOne(a.pageTable[..])
    {
      var i :| 0 <= i < |live| && live[i] == a;
      var own := FramesOf(live);
      assert own[i] == a.frames && NoDuplicates(own[i]);
    }

    /** A write by one live process changes nothing that another one reads, at any address. */
    lemma WriteIsInvisible(a: AddrSpace, b: AddrSpace, addrA: int32, sizeA: Width, value: int32)
      requires Valid() && a in live && b in live && a != b
      ensures a.pageTable != b.pageTable
      ensures SameReads(b.pageTable[..], mainMemory[..],
                        WriteResult(a.pageTable[..], mainMemory[..], addrA, sizeA, value))
    {
      LiveSpacesAreSeparate(a, b);
      hide Valid, WriteResult, ReadResult;
      forall addr: int32, size: Width
        ensures ReadResult(b.pageTable[..], WriteResult(a.pageTable[..], mainMemory[..], addrA, sizeA, value), addr, size)
                == ReadResult(b.pageTable[..], mainMemory[..], addr, size)
      {
        Isolation(a.pageTable[..], b.pageTable[..], mainMemory[..], addrA, sizeA, value, addr, size);
      }
    }

    /** One such step; spaces are the live address spaces, in the order of their creation, and
        the one at position j only looks on. */
    method Other(spaces: seq<AddrSpace>, op: Op, ghost j: nat) returns (spaces': seq<AddrSpace>)
      requires Valid() && spaces == live && j < |live| && op.Allowed(|live|, j)
      modifies this, frames.words, mainMemory, set s | s in live && s != live[j] :: s.pageTable
      ensures Valid() && spaces' == live && |live| == op.Count(old(|live|))
      ensures op.Place(j) < |live| && live[op.Place(j)] == spaces[j]
      ensures forall s | s in live :: s in spaces || fresh(s.pageTable)
      ensures spaces[j].pageTable[..] == old(spaces[j].pageTable[..])
      ensures SameReads(spaces[j].pageTable[..], old(mainMemory[..]), mainMemory[..])
    {
      match op
      case Arrive(size) =>
        var space := Create(size);
        spaces' := spaces + [space];
      case Leave(k) =>
        Delete(spaces[k], k);
        spaces' := spaces[..k] + spaces[k + 1..];
      case Write(k, addr, size, value) =>
        WriteIsInvisible(spaces[k], spaces[j], addr, size, value);
        var _ := WriteMem(spaces[k], addr, size, value);
        spaces' := spaces;
    }

    /** However address spaces come and go and write, one that only looks on keeps its frames,
        and every read through it, at any address, has the result it had at the start. */
    method Run(spaces: seq<AddrSpace>, ops: seq<Op>, ghost j: nat) returns (spaces': seq<AddrSpace>)
      requires Valid() && spaces == live && j < |live| && AllAllowed(ops, |live|, j)
      modifies this, frames.words, mainMemory, set s | s in live && s != live[j] :: s.pageTable
      ensures Valid() && spaces' == live && spaces[j] in live
      ensures spaces[j].pageTable[..] == old(spaces[j].pageTable[..])
      ensures SameReads(spaces[j].pageTable[..], old(mainMemory[..]), mainMemory[..])
    {
      spaces' := spaces;
      ghost var place: nat := j;
      for i := 0 to |ops|
        invariant Valid() && spaces' == live && place < |live| && live[place] == spaces[j]
        invariant AllAllowed(ops[i..], |live|, place)
        invariant forall s | s in live :: s in spaces || fresh(s.pageTable)
        invariant spaces[j].pageTable[..] == old(spaces[j].pageTable[..])
        invariant SameReads(spaces[j].pageTable[..], old(mainMemory[..]), mainMemory[..])
      {
        assert ops[i..][0] == ops[i] && ops[i..][1..] == ops[i + 1..];
        spaces' := Other(spaces', ops[i], place);
        place := ops[i].Place(place);
      }
    }
  }
}
