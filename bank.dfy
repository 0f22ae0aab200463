/** The driver's per-bank state (struct efr32x_flash_bank together with the
    fields of struct flash_bank the driver sets) and the operations that
    change it: probe and auto_probe, protect, protect_check, the lock-bits
    page transfer and the debuglock command. */
module Bank {
  import opened Efr32Defs
  import opened Target
  import opened Msc
  import opened FlashWrite
  import opened LockBits
  import opened LockData
  import opened DeviceInfo
  import FlashErase

  /** struct flash_sector, without is_erased. */
  datatype Sector = Sector(offset: nat, size: nat, isProtected: bool)

  /** The mirror as the bank command and probe leave it: every byte 0xff. */
  function Erased(): (r: seq<Word>)
    ensures |r| == LB_WORDS
  {
    seq(LB_WORDS, _ => ERASED_WORD)
  }

  /** The mirror as filled at creation and at probe reports every page
      unlocked. */
  lemma ErasedAllUnlocked(p: nat)
    requires WordOf(p) < LB_WORDS
    ensures !PageLocked(Erased(), p)
  {
    ErasedUnlocked(Erased(), p);
  }

  /** The most sectors whose page-lock words fit the 128-word lb_page.
      Above 4000 sectors the page-lock words reach the control words MLW,
      ULW and DLW (125 .. 127), which read_lock_data then reads again. */
  const MAX_PAGES: nat := LB_WORDS * 32

  /** The sector count efr32x_probe derives, as written: decode_info into a
      256-byte buffer must succeed, the page size must not be 0 and the
      count flash_sz_kib * 1024 / page_size must not be 0 (both C
      asserts), and nothing bounds the count from above. */
  function ProbeGeometryAsWritten(info: Info): (r: Result<nat>)
    ensures r.Success? ==> r.value > 0
  {
    var d := DecodeInfo(info, 256);
    if d.Failure? then Failure(d.error)
    else if info.pageSize == 0 then Failure(Aborted)
    else
      var n := info.flashKib * 1024 / info.pageSize;
      if n == 0 then Failure(Aborted) else Success(n)
  }

  /** A device-information page that read_info and decode_info accept, with
      FLASH_SZ = 8194 KiB, gives 4097 sectors, whose page-lock words number
      129: read_lock_data then stores word 128, one past the end of the
      128-word lb_page. */
  lemma GeometryOverrun()
    ensures var info := Info(8194, 0, 0, FAMILY_MIGHTY_GECKO, 0, SUPPORTED_PAGE_SIZE);
      ProbeGeometryAsWritten(info) == Success(4097) && DataWordCount(4097) == LB_WORDS + 1
  {
    var info := Info(8194, 0, 0, FAMILY_MIGHTY_GECKO, 0, SUPPORTED_PAGE_SIZE);
    ProbeBufferFits(info);
  }

  /** The sector count of probe with the bound the lock-bits page needs: a
      count whose page-lock words would not fit lb_page (more than 4096
      sectors, where the code as written stores past the array) fails with
      ERROR_FAIL instead. Every other count is the one written. */
  function ProbeGeometry(info: Info): (r: Result<nat>)
    ensures r.Success? ==> 0 < r.value <= MAX_PAGES && DataWordCount(r.value) <= LB_WORDS
  {
    var g := ProbeGeometryAsWritten(info);
    if g.Success? && g.value > MAX_PAGES then Failure(Fail) else g
  }

  /** Between 4001 and 4096 sectors probe goes on as written, with page-lock
      bits in the control words: a part of 8100 KiB has 4050 sectors, whose
      127 page-lock words include MLW (125) and ULW (126), and page 4000's
      bit lies in MLW. */
  lemma GeometrySharesControl()
    ensures var info := Info(8100, 0, 0, FAMILY_BLUE_GECKO, 0, SUPPORTED_PAGE_SIZE);
      ProbeGeometry(info) == ProbeGeometryAsWritten(info) == Success(4050) &&
      DataWordCount(4050) == LB_WORDS - 1 && WordOf(4000) == MLW_INDEX
  {
    var info := Info(8100, 0, 0, FAMILY_BLUE_GECKO, 0, SUPPORTED_PAGE_SIZE);
    ProbeBufferFits(info);
  }

  /** The bound changes probe only where the as-written code overruns
      lb_page. */
  lemma GeometryAgrees(info: Info)
    ensures ProbeGeometry(info) != ProbeGeometryAsWritten(info) <==>
      ProbeGeometryAsWritten(info).Success? && ProbeGeometryAsWritten(info).value > MAX_PAGES
  {
  }

  /** A 2 KiB-page part of `kib` KiB with a byte-sized revision has kib / 2
      sectors, up to 8193 KiB. */
  lemma GeometryPages(info: Info)
    requires info.pageSize == SUPPORTED_PAGE_SIZE && info.prodRev < 0x100
    requires 2 <= info.flashKib <= 2 * MAX_PAGES + 1
    ensures ProbeGeometry(info) == Success(info.flashKib / 2)
  {
    ProbeBufferFits(info);
    var k := info.flashKib;
    assert k * 1024 == (k / 2) * 2048 + (k % 2) * 1024;
  }

  /** probe's sector table: sector i at offset i * page_size, page_size
      long, marked protected. */
  function SectorTable(n: nat, pageSize: nat): (r: seq<Sector>)
    ensures |r| == n
  {
    seq(n, i requires 0 <= i < n => Sector(i * pageSize, pageSize, true))
  }

  /** The loop of probe that fills the sector table. */
  method BuildTable(n: nat, pageSize: nat) returns (table: seq<Sector>)
    ensures table == SectorTable(n, pageSize)
  {
    table := [];
    var i := 0;
    while i < n
      invariant 0 <= i <= n && |table| == i
      invariant forall j | 0 <= j < i :: table[j] == Sector(j * pageSize, pageSize, true)
    {
      table := table + [Sector(i * pageSize, pageSize, true)];
      i := i + 1;
    }
  }

  /** The sectors tile the bank from offset 0 to n * page_size without gap
      or overlap, and all are protected. */
  lemma SectorsTile(n: nat, pageSize: nat, i: nat)
    requires i < n
    ensures SectorTable(n, pageSize)[i].isProtected && SectorTable(n, pageSize)[i].size == pageSize
    ensures i == 0 ==> SectorTable(n, pageSize)[i].offset == 0
    ensures i + 1 < n ==>
      SectorTable(n, pageSize)[i].offset + pageSize == SectorTable(n, pageSize)[i + 1].offset
    ensures i + 1 == n ==> SectorTable(n, pageSize)[i].offset + pageSize == n * pageSize
  {
  }

  /** protect_check's loop: each sector's is_protected from get_page_lock on
      the mirror; nothing else about the sectors changes. */
  function Marked(sectors: seq<Sector>, words: seq<Word>): (r: seq<Sector>)
    requires |sectors| <= 32 * |words|
    ensures |r| == |sectors|
  {
    seq(|sectors|, i requires 0 <= i < |sectors| => sectors[i].(isProtected := PageLocked(words, i)))
  }

  /** After a successful read_lock_data, a sector reads as protected
      exactly when its bit in the device's lock-bits page is clear. */
  lemma ProtectionReported(b: Bus, words: seq<Word>, n: nat, i: nat)
    requires 0 < n <= MAX_PAGES && |words| == LB_WORDS && i < n
    requires ReadLockWords(b, words, LockIndexes(n)).status == Ok
    ensures PageLocked(ReadLockWords(b, words, LockIndexes(n)).words, i) ==
      Clear(Cell(b, LockAddr(WordOf(i))), Mask(i))
  {
    LockIndexesIn(n);
    assert LockIndexes(n)[WordOf(i)] == WordOf(i);
    ReadLockValues(b, words, LockIndexes(n), WordOf(i));
  }

  /** The page addresses erase passes to erase_page: each sector's offset,
      as the uint32 it is stored in. */
  function Offsets(sectors: seq<Sector>): (r: seq<Word>)
    ensures |r| == |sectors|
  {
    seq(|sectors|, i requires 0 <= i < |sectors| => AsWord(sectors[i].offset))
  }

  /** Erasing sectors first..last of the table probe builds loads ADDRB with
      those sectors' offsets i * page_size, in order, and nothing else; the
      MSC is unlocked once and relocked once. */
  lemma EraseSectorTable(b: Bus, n: nat, pageSize: nat, first: int, last: int)
    requires 0 <= first && last < n && b.halted && EnablesWren(b)
    ensures var t := FlashErase.EraseSpec(b, Offsets(SectorTable(n, pageSize)), first, last).1.trace;
      WritesTo(t, MSC_ADDRB) == WritesTo(b.trace, MSC_ADDRB) +
        seq(if first <= last then last - first + 1 else 0, k => AsWord((first + k) * pageSize)) &&
      WritesTo(t, MSC_LOCK) == WritesTo(b.trace, MSC_LOCK) + [MSC_LOCK_LOCKKEY, 0]
  {
    FlashErase.EraseEnabled(b, Offsets(SectorTable(n, pageSize)), first, last);
    TablePages(n, pageSize, first, last);
  }

  lemma TablePages(n: nat, pageSize: nat, first: int, last: int)
    requires 0 <= first && last < n
    ensures FlashErase.Range(Offsets(SectorTable(n, pageSize)), first, last) ==
      seq(if first <= last then last - first + 1 else 0, k => AsWord((first + k) * pageSize))
  {
    var offsets := Offsets(SectorTable(n, pageSize));
    var pages := FlashErase.Range(offsets, first, last);
    var want := seq(if first <= last then last - first + 1 else 0, k => AsWord((first + k) * pageSize));
    assert |pages| == |want|;
    forall k | 0 <= k < |want|
      ensures pages[k] == want[k]
    {
      assert pages[k] == offsets[first + k];
    }
  }

  datatype Geometry = Geometry(base: nat, size: nat, numSectors: nat)

  /** What probe leaves behind: its status and the target, the mirror, and
      the geometry and sector table it set (None: left as they were). */
  datatype ProbeOutcome = ProbeOutcome(status: Status, bus: Bus, words: seq<Word>,
                                       geometry: Option<Geometry>, sectors: Option<seq<Sector>>)

  /** efr32x_probe as a specification: the mirror is refilled first; the
      geometry is set before read_lock_data and kept if it fails, with the
      old sector table already freed; the table is built only on success. */
  function ProbeSpec(b: Bus): ProbeOutcome
  {
    ProbeAfterInfo(ReadInfo(b).0, ReadInfo(b).1)
  }

  /** probe once read_info has returned `ri`, leaving the target `b1`. */
  function ProbeAfterInfo(ri: Result<Info>, b1: Bus): ProbeOutcome
  {
    if ri.Failure? then ProbeOutcome(Err(ri.error), b1, Erased(), None, None)
    else
      var g := ProbeGeometry(ri.value);
      if g.Failure? then ProbeOutcome(Err(g.error), b1, Erased(), None, None)
      else ProbeLayout(b1, g.value, ri.value.pageSize)
  }

  /** probe once the bank has n sectors of pageSize bytes. */
  function ProbeLayout(b1: Bus, n: nat, pageSize: nat): ProbeOutcome
    requires 0 < n <= MAX_PAGES
  {
    LockIndexesIn(n);
    var r := ReadLockWords(b1, Erased(), LockIndexes(n));
    ProbeOutcome(r.status, r.bus, r.words, Some(Geometry(0, n * pageSize, n)),
                 Some(if r.status.Err? then [] else SectorTable(n, pageSize)))
  }

  /** On a target whose reads succeed, a device read_info rejects fails the
      probe and changes only the mirror. */
  lemma ProbeUnsupported(b: Bus)
    requires Clean(b, 7) && !Supported(b)
    ensures ProbeSpec(b).status == Err(Fail)
    ensures ProbeSpec(b).geometry.None? && ProbeSpec(b).sectors.None? && ProbeSpec(b).words == Erased()
  {
    ReadInfoClean(b);
  }

  /** On a target whose reads succeed, a supported part of 2 .. 8193 KiB is
      probed as flash_sz_kib / 2 sectors of 2 KiB from address 0. */
  lemma ProbeSupported(b: Bus)
    requires Clean(b, 7) && Supported(b)
    requires 2 <= Low16(Cell(b, DI_FLASH_SZ)) <= 2 * MAX_PAGES + 1
    ensures var n := Low16(Cell(b, DI_FLASH_SZ)) / 2;
      ProbeSpec(b).geometry == Some(Geometry(0, n * SUPPORTED_PAGE_SIZE, n)) &&
      0 < n <= MAX_PAGES && ProbeSpec(b) == ProbeLayout(AfterReads(b), n, SUPPORTED_PAGE_SIZE)
  {
    ReadInfoClean(b);
    PageSizeAccepted(1);
    GeometryPages(DeviceInfoOf(b));
  }

  /** Once the geometry is set, the sector table is built exactly when every
      lock-data read succeeds, and then each page-lock word of the mirror
      holds the device's word. */
  lemma ProbeLayoutOutcome(b1: Bus, n: nat, pageSize: nat, k: nat)
    requires 0 < n <= MAX_PAGES
    ensures ProbeLayout(b1, n, pageSize).status == Ok <==>
      ProbeLayout(b1, n, pageSize).sectors == Some(SectorTable(n, pageSize))
    ensures ProbeLayout(b1, n, pageSize).status == Ok && k < DataWordCount(n) ==>
      ProbeLayout(b1, n, pageSize).words[k] == Cell(b1, LockAddr(k))
  {
    LockIndexesIn(n);
    var r := ReadLockWords(b1, Erased(), LockIndexes(n));
    if r.status == Ok && k < DataWordCount(n) {
      ReadLockValues(b1, Erased(), LockIndexes(n), k);
    }
  }

  class FlashBank {
    /** efr32x_flash_bank.probed */
    var probed: bool
    /** efr32x_flash_bank.lb_page, updated in place. */
    const lbPage: array<Word>
    /** flash_bank.base, size, num_sectors and sectors. */
    var base: nat
    var size: nat
    var numSectors: nat
    var sectors: seq<Sector>

    /** The mirror has 128 words, the sector count fits the lock-bits page,
        and the sector table is absent or one entry per sector. */
    predicate Valid()
      reads this
    {
      lbPage.Length == LB_WORDS && numSectors <= MAX_PAGES && (sectors == [] || |sectors| == numSectors)
    }

    /** The bank command: not probed, every mirror byte 0xff. */
    constructor (base: nat, size: nat)
      ensures Valid() && fresh(lbPage)
      ensures !probed && lbPage[..] == Erased()
      ensures this.base == base && this.size == size && numSectors == 0 && sectors == []
    {
      this.base := base;
      this.size := size;
      numSectors := 0;
      sectors := [];
      probed := false;
      lbPage := new Word[LB_WORDS](_ => ERASED_WORD);
      new;
      assert lbPage[..] == Erased();
    }

    /** efr32x_set_page_lock. */
    method SetPageLock(page: nat, lock: bool)
      requires Valid() && WordOf(page) < LB_WORDS
      modifies lbPage
      ensures lbPage[..] == WithLock(old(lbPage[..]), page, lock)
    {
      var i := WordOf(page);
      lbPage[i] := LockWord(lbPage[i], page, lock);
    }

    /** One target_read_u32 into mirror word i: the word read, or 0 when the
        read fails. */
    method ReadLockWord(b: Bus, i: nat) returns (r: Result<Word>, b': Bus)
      requires Valid() && i < LB_WORDS
      modifies lbPage
      ensures (r, b') == Read32(b, LockAddr(i))
      ensures lbPage[..] == old(lbPage[..])[i := if r.Success? then r.value else 0]
    {
      var (v, b1) := Read32(b, LockAddr(i));
      r, b' := v, b1;
      lbPage[i] := if v.Success? then v.value else 0;
    }

    /** efr32x_read_lock_data; the assert on num_sectors is an Aborted
        error. */
    method ReadLockData(b: Bus) returns (s: Status, b': Bus)
      requires Valid()
      modifies lbPage
      ensures numSectors == 0 ==> s == Err(Aborted) && b' == b && lbPage[..] == old(lbPage[..])
      ensures numSectors > 0 ==> IndexesIn(LockIndexes(numSectors), LB_WORDS)
      ensures numSectors > 0 ==>
        LockRead(s, b', lbPage[..]) == ReadLockWords(b, old(lbPage[..]), LockIndexes(numSectors))
    {
      if numSectors == 0 {
        return Err(Aborted), b;
      }
      ghost var idx := LockIndexes(numSectors);
      LockIndexesIn(numSectors);
      var dataSize := (numSectors + 31) / 32;
      var cur := b;
      var i := 0;
      while i < dataSize
        invariant 0 <= i <= dataSize
        invariant ReadLockWords(cur, lbPage[..], idx[i..]) == ReadLockWords(b, old(lbPage[..]), idx)
      {
        var r;
        r, cur := ReadLockWord(cur, i);
        if r.Failure? {
          return Err(r.error), cur;
        }
        i := i + 1;
      }
      assert idx[i..] == [ULW_INDEX, DLW_INDEX, MLW_INDEX];
      s, cur := ReadControlWord(cur, [ULW_INDEX, DLW_INDEX, MLW_INDEX]);
      if s.Err? {
        return s, cur;
      }
      s, cur := ReadControlWord(cur, [DLW_INDEX, MLW_INDEX]);
      if s.Err? {
        return s, cur;
      }
      s, cur := ReadControlWord(cur, [MLW_INDEX]);
      return s, cur;
    }

    /** The read of the first of the control words `rest` still to read. */
    method ReadControlWord(b: Bus, rest: seq<nat>) returns (s: Status, b': Bus)
      requires Valid() && |rest| > 0 && IndexesIn(rest, LB_WORDS)
      modifies lbPage
      ensures s.Err? ==> LockRead(s, b', lbPage[..]) == ReadLockWords(b, old(lbPage[..]), rest)
      ensures s.Ok? ==> ReadLockWords(b', lbPage[..], rest[1..]) == ReadLockWords(b, old(lbPage[..]), rest)
    {
      var r;
      r, b' := ReadLockWord(b, rest[0]);
      s := if r.Failure? then Err(r.error) else Ok;
    }

    /** efr32x_erase on this bank: the pages erased are the offsets of
        sectors first..last of the sector table. */
    method Erase(b: Bus, first: int, last: int) returns (s: Status, b': Bus)
      requires Valid() && 0 <= first && last < |sectors|
      ensures (s, b') == FlashErase.EraseSpec(b, Offsets(sectors), first, last)
    {
      s, b' := FlashErase.Erase(b, Offsets(sectors), first, last);
    }

    /** efr32x_write_lock_data: erase the lock-bits page, then write the
        mirror's 512 bytes back with efr32x_write. */
    method WriteLockData(b: Bus) returns (s: Status, b': Bus)
      requires Valid()
      ensures (s, b') == LockPageWrite(b, base, lbPage[..])
    {
      var (e, b1) := ErasePage(b, AsWord(MSC_LOCK_BITS));
      if e.Err? {
        return e, b1;
      }
      s, b' := FlashWrite.Write(b1, base, Bytes(lbPage[..]), MSC_LOCK_BITS, false);
    }

    /** efr32x_protect: unprotecting fails before anything is touched; on a
        halted target the pages first..last are locked in the mirror, which
        is then written back whatever the outcome. */
    method Protect(b: Bus, lock: bool, first: int, last: int) returns (s: Status, b': Bus)
      requires Valid() && 0 <= first && last < numSectors
      modifies lbPage
      ensures !lock ==> s == Err(Fail) && b' == b && lbPage[..] == old(lbPage[..])
      ensures lock && !b.halted ==> s == Err(NotHalted) && b' == b && lbPage[..] == old(lbPage[..])
      ensures lock && b.halted ==> lbPage[..] == LockRange(old(lbPage[..]), first, last)
      ensures lock && b.halted ==> (s, b') == LockPageWrite(b, base, lbPage[..])
    {
      if !lock {
        return Err(Fail), b;
      }
      if !b.halted {
        return Err(NotHalted), b;
      }
      var i := first;
      while i <= last
        invariant first <= i && (i <= last + 1 || i == first)
        invariant LockRange(lbPage[..], i, last) == LockRange(old(lbPage[..]), first, last)
        decreases last - i
      {
        SetPageLock(i, true);
        i := i + 1;
      }
      s, b' := WriteLockData(b);
    }

    /** efr32x_handle_debuglock_command: DLW (word 127) cleared in the
        mirror, then the page written back. */
    method DebugLock(b: Bus) returns (s: Status, b': Bus)
      requires Valid()
      modifies lbPage
      ensures !b.halted ==> s == Err(NotHalted) && b' == b && lbPage[..] == old(lbPage[..])
      ensures b.halted ==> lbPage[..] == old(lbPage[..])[DLW_INDEX := 0]
      ensures b.halted ==> (s, b') == LockPageWrite(b, base, lbPage[..])
    {
      if !b.halted {
        return Err(NotHalted), b;
      }
      lbPage[DLW_INDEX] := 0;
      s, b' := WriteLockData(b);
    }

    /** efr32x_protect_check: read the lock data, then mark each sector from
        the mirror. The assert on the sector table is an Aborted error. */
    method ProtectCheck(b: Bus) returns (s: Status, b': Bus)
      requires Valid()
      modifies this, lbPage
      ensures Valid() && probed == old(probed) && base == old(base) && size == old(size)
      ensures numSectors == old(numSectors)
      ensures !b.halted ==> s == Err(NotHalted) && b' == b && lbPage[..] == old(lbPage[..]) && sectors == old(sectors)
      ensures b.halted && numSectors == 0 ==>
        s == Err(Aborted) && b' == b && lbPage[..] == old(lbPage[..]) && sectors == old(sectors)
      ensures b.halted && numSectors > 0 ==> IndexesIn(LockIndexes(numSectors), LB_WORDS)
      ensures b.halted && numSectors > 0 ==>
        var r := ReadLockWords(b, old(lbPage[..]), LockIndexes(numSectors));
        b' == r.bus && lbPage[..] == r.words &&
        (r.status.Err? ==> s == r.status && sectors == old(sectors)) &&
        (r.status.Ok? && old(sectors) == [] ==> s == Err(Aborted) && sectors == []) &&
        (r.status.Ok? && old(sectors) != [] ==> s == Ok && sectors == Marked(old(sectors), r.words))
    {
      if !b.halted {
        return Err(NotHalted), b;
      }
      s, b' := ReadLockData(b);
      if s.Err? {
        return;
      }
      if sectors == [] {
        return Err(Aborted), b';
      }
      MarkSectors();
    }

    /** The loop of protect_check: is_protected of sector i := get_page_lock(i)
        for every sector. */
    method MarkSectors()
      requires Valid() && |sectors| == numSectors
      modifies this
      ensures Valid() && probed == old(probed) && base == old(base) && size == old(size)
      ensures numSectors == old(numSectors) && sectors == Marked(old(sectors), lbPage[..])
    {
      var i := 0;
      while i < numSectors
        invariant 0 <= i <= numSectors == |sectors| == old(|sectors|)
        invariant probed == old(probed) && base == old(base) && size == old(size) && numSectors == old(numSectors)
        invariant forall j | 0 <= j < i :: sectors[j] == old(sectors)[j].(isProtected := PageLocked(lbPage[..], j))
        invariant forall j | i <= j < |sectors| :: sectors[j] == old(sectors)[j]
      {
        sectors := sectors[i := sectors[i].(isProtected := PageLocked(lbPage[..], i))];
        i := i + 1;
      }
      assert sectors == Marked(old(sectors), lbPage[..]);
    }

    /** The bank is in the state probe outcome `o` describes, with status
        `s` and target `b'`. */
    twostate predicate Became(o: ProbeOutcome, s: Status, b': Bus)
      reads this, lbPage
    {
      s == o.status && b' == o.bus && lbPage[..] == o.words && probed == (s == Ok) &&
      (base, size, numSectors) ==
        (if o.geometry.Some? then (o.geometry.value.base, o.geometry.value.size, o.geometry.value.numSectors)
         else old((base, size, numSectors))) &&
      sectors == if o.sectors.Some? then o.sectors.value else old(sectors)
    }

    /** efr32x_probe. */
    method Probe(b: Bus) returns (s: Status, b': Bus)
      requires Valid()
      modifies this, lbPage
      ensures Valid() && Became(ProbeSpec(b), s, b')
    {
      probed := false;
      Refill();
      var (ri, b1) := ReadInfo(b);
      s, b' := ProbeInfo(ri, b1);
    }

    /** probe after read_info. */
    method ProbeInfo(ri: Result<Info>, b1: Bus) returns (s: Status, b': Bus)
      requires Valid() && !probed && lbPage[..] == Erased()
      modifies this, lbPage
      ensures Valid() && Became(ProbeAfterInfo(ri, b1), s, b')
    {
      if ri.Failure? {
        return Err(ri.error), b1;
      }
      var g := ProbeGeometry(ri.value);
      if g.Failure? {
        return Err(g.error), b1;
      }
      s, b' := Layout(b1, g.value, ri.value.pageSize);
    }

    /** probe's geometry, lock data and sector table. */
    method Layout(b1: Bus, n: nat, ps: nat) returns (s: Status, b': Bus)
      requires Valid() && !probed && lbPage[..] == Erased() && 0 < n <= MAX_PAGES
      modifies this, lbPage
      ensures Valid() && Became(ProbeLayout(b1, n, ps), s, b')
    {
      sectors := [];
      base := 0;
      size := n * ps;
      numSectors := n;
      s, b' := ReadLockData(b1);
      if s.Err? {
        return;
      }
      sectors := BuildTable(n, ps);
      probed := true;
    }

    /** The memset of the mirror to 0xff. */
    method Refill()
      requires Valid()
      modifies lbPage
      ensures lbPage[..] == Erased()
    {
      forall i | 0 <= i < lbPage.Length {
        lbPage[i] := ERASED_WORD;
      }
      assert lbPage[..] == Erased();
    }

    /** efr32x_auto_probe: a probed bank is left as it is. */
    method AutoProbe(b: Bus) returns (s: Status, b': Bus)
      requires Valid()
      modifies this, lbPage
      ensures Valid()
      ensures old(probed) ==> s == Ok && b' == b && unchanged(this, lbPage)
      ensures !old(probed) ==> Became(ProbeSpec(b), s, b')
    {
      if probed {
        return Ok, b;
      }
      s, b' := Probe(b);
    }
  }
}
