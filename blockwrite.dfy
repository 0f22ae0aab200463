/** efr32x_write_block: the block-write path, which uploads a small flash
    loader to target RAM, allocates a ring buffer beside it and lets the
    loader program the words streamed through the ring. Only the host's side
    of the setup and teardown is modelled here; the run of the loader is the
    `runs` oracle of the bus. */
module BlockWrite {
  import opened Efr32Defs
  import opened Target
  import opened Msc

  /** What the driver reports when the loader stops with
      ERROR_FLASH_OPERATION_FAILED: the flash address the loader had
      reached (r4) and the LOCKED and INVADDR bits of the MSC status the
      loader left in r0. */
  datatype Diagnosis = Diagnosis(failedAt: Word, writeProtected: bool, invalidAddress: bool)

  function Diagnose(reply: RunReply): (d: Option<Diagnosis>)
  {
    if reply.status == Err(OperationFailed) then
      Some(Diagnosis(reply.r4, reply.r0 & STATUS_LOCKED != 0, reply.r0 & STATUS_INVADDR != 0))
    else None
  }

  /** One step of the ring-size loop: `buffer_size /= 2` then `&= ~3`. */
  function Halve(size: nat): (r: nat)
    ensures r % 4 == 0 && r <= size / 2 && size / 2 - r < 4
  {
    size / 2 - (size / 2) % 4
  }

  /** The number of ring sizes the allocation loop requests, and the i-th
      of them: 16384 halved i times. */
  const RING_TRIES: nat := 6

  function RingSize(i: nat): (size: nat)
    ensures size > RING_FLOOR
  {
    if i == 0 then 16384 else if i == 1 then 8192 else if i == 2 then 4096
    else if i == 3 then 2048 else if i == 4 then 1024 else 512
  }

  /** The ring-buffer allocation loop from `size` on: request `size`; on a
      refusal halve it and retry, giving up once the halved size is at most
      RING_FLOOR. The result is the granted area and its size. */
  function AllocRing(b: Bus, size: nat): (r: (Option<(nat, nat)>, Bus))
    ensures r.1.live == if r.0.Some? then b.live + multiset{r.0.value.0} else b.live
    ensures r.1.runs == b.runs
    decreases size
  {
    var (g, b1) := AllocArea(b, size);
    if g.Some? then (Some((g.value, size)), b1)
    else if Halve(size) <= RING_FLOOR then (None, b1)
    else AllocRing(b1, Halve(size))
  }

  /** The allocation requests for the k ring sizes from the i-th on. */
  function RingAllocs(i: nat, k: nat): (r: seq<Event>)
    ensures |r| == k && forall j | 0 <= j < k :: r[j] == Alloc(RingSize(i + j))
  {
    seq(k, j requires 0 <= j < k => Alloc(RingSize(i + j)))
  }

  /** The answer the j-th coming allocation request gets. */
  function GrantAt(b: Bus, j: nat): Option<nat>
  {
    if j < |b.grants| then b.grants[j] else None
  }

  /** The allocation loop requested exactly the k ring sizes from the i-th
      on, in order; the last request is the first that was granted, or none
      was and every size down to the last was tried. */
  predicate TriedFrom(b: Bus, i: nat, k: nat, r: (Option<(nat, nat)>, Bus))
  {
    k >= 1 && i + k <= RING_TRIES &&
    r.1.trace == b.trace + RingAllocs(i, k) &&
    (forall j | 0 <= j < k - 1 :: GrantAt(b, j).None?) &&
    (r.0.Some? ==> GrantAt(b, k - 1) == Some(r.0.value.0) && r.0.value.1 == RingSize(i + k - 1)) &&
    (r.0.None? ==> GrantAt(b, k - 1).None? && i + k == RING_TRIES)
  }

  lemma HalveSizes(i: nat)
    requires i < RING_TRIES
    ensures Halve(RingSize(i)) == if i + 1 < RING_TRIES then RingSize(i + 1) else RING_FLOOR
  {
  }

  lemma AllocRingUnfold(b: Bus, size: nat)
    ensures var b1 := AllocArea(b, size).1;
      AllocRing(b, size) ==
        if GrantAt(b, 0).Some? then (Some((GrantAt(b, 0).value, size)), b1)
        else if Halve(size) <= RING_FLOOR then (None, b1)
        else AllocRing(b1, Halve(size))
  {
  }

  /** A refused request in front of a run of the loop from the next size. */
  lemma TriedCons(b: Bus, i: nat, k: nat, r: (Option<(nat, nat)>, Bus))
    requires GrantAt(b, 0).None?
    requires TriedFrom(AllocArea(b, RingSize(i)).1, i + 1, k, r)
    ensures TriedFrom(b, i, k + 1, r)
  {
    var b1 := AllocArea(b, RingSize(i)).1;
    assert RingAllocs(i, k + 1) == [Alloc(RingSize(i))] + RingAllocs(i + 1, k);
    assert b.trace + RingAllocs(i, k + 1) == b1.trace + RingAllocs(i + 1, k);
    forall j | 1 <= j < k + 1
      ensures GrantAt(b, j) == GrantAt(b1, j - 1)
    {
    }
  }

  /** The first request granted, or the last size refused. */
  lemma TriedOne(b: Bus, i: nat, r: (Option<(nat, nat)>, Bus))
    requires i < RING_TRIES
    requires r.1 == AllocArea(b, RingSize(i)).1
    requires r.0.Some? ==> GrantAt(b, 0).Some? && r.0 == Some((GrantAt(b, 0).value, RingSize(i)))
    requires r.0.None? ==> GrantAt(b, 0).None? && i + 1 == RING_TRIES
    ensures TriedFrom(b, i, 1, r)
  {
    assert RingAllocs(i, 1) == [Alloc(RingSize(i))];
  }

  lemma {:induction false} AllocRingFrom(b: Bus, i: nat)
    requires i < RING_TRIES
    ensures exists k: nat :: TriedFrom(b, i, k, AllocRing(b, RingSize(i)))
    decreases RING_TRIES - i
  {
    var r := AllocRing(b, RingSize(i));
    var b1 := AllocArea(b, RingSize(i)).1;
    if GrantAt(b, 0).Some? || i == RING_TRIES - 1 {
      AllocRingUnfold(b, RingSize(i));
      HalveSizes(i);
      TriedOne(b, i, r);
    } else {
      RefusedStep(b, i);
      AllocRingFrom(b1, i + 1);
      var k: nat :| TriedFrom(b1, i + 1, k, r);
      TriedCons(b, i, k, r);
    }
  }

  /** A refused request below the last size moves the loop on to the next. */
  lemma RefusedStep(b: Bus, i: nat)
    requires GrantAt(b, 0).None? && i + 1 < RING_TRIES
    ensures AllocRing(b, RingSize(i)) == AllocRing(AllocArea(b, RingSize(i)).1, RingSize(i + 1))
  {
    AllocRingUnfold(b, RingSize(i));
    HalveSizes(i);
  }

  /** The sizes the loop tries are 16384, 8192, ..., 512 in that order, as
      far as the first granted one; 256 is never requested. */
  lemma AllocRingSizes(b: Bus)
    ensures exists k: nat :: TriedFrom(b, 0, k, AllocRing(b, RING_FIRST_SIZE))
  {
    AllocRingFrom(b, 0);
  }

  /** The register file handed to the loader: r0 the MSC register base,
      r1 the number of words, r2 and r3 the start and end of the ring, r4
      the flash address of the first word. */
  function LoaderRegs(count: nat, ring: nat, ringSize: nat, address: nat): (regs: seq<Word>)
  {
    [AsWord(MSC_REGBASE), AsWord(count), AsWord(ring), AsWord(ring + ringSize), AsWord(address)]
  }

  /** efr32x_write_block as a specification, for `count` words of `buf` at
      `offset` in a bank based at `base`. The C code returns without
      releasing the loader's working area when uploading the loader fails;
      `freeOnUploadFailure` false describes that code, true the release the
      other early return performs. The result is the status, the
      diagnosis of an OPERATION_FAILED run and the target afterwards. */
  function BlockWriteWith(b: Bus, base: nat, buf: seq<Byte>, offset: nat, count: nat, freeOnUploadFailure: bool)
    : (Status, Option<Diagnosis>, Bus)
  {
    var (code, b1) := AllocArea(b, LOADER_SIZE);
    if code.None? then (Err(ResourceNotAvailable), None, b1)
    else
      var loader := code.value;
      var (up, b2) := WriteBuf(b1, loader, LOADER_SIZE);
      if up.Err? then (up, None, if freeOnUploadFailure then FreeArea(b2, loader) else b2)
      else AfterUpload(b2, loader, base + offset, buf, count)
  }

  /** The rest of the block write once the loader is in place: allocate
      the ring, then run the loader on it; without a ring, release the
      loader and report RESOURCE_NOT_AVAILABLE. */
  function AfterUpload(b: Bus, loader: nat, address: nat, buf: seq<Byte>, count: nat): (Status, Option<Diagnosis>, Bus)
  {
    var (ring, b3) := AllocRing(b, RING_FIRST_SIZE);
    if ring.None? then (Err(ResourceNotAvailable), None, FreeArea(b3, loader))
    else RunOnRing(b3, loader, ring.value.0, ring.value.1, address, buf, count)
  }

  lemma AfterUploadRing(b: Bus, loader: nat, address: nat, buf: seq<Byte>, count: nat, r: (Option<(nat, nat)>, Bus))
    requires r == AllocRing(b, RING_FIRST_SIZE) && r.0.Some?
    ensures AfterUpload(b, loader, address, buf, count) == RunOnRing(r.1, loader, r.0.value.0, r.0.value.1, address, buf, count)
  {
  }

  /** Once the loader is allocated and uploaded, the block write is the
      rest of it. */
  lemma BlockWriteSplit(b: Bus, base: nat, buf: seq<Byte>, offset: nat, count: nat, b2: Bus)
    requires GrantAt(b, 0).Some? && !FaultsNext(Log(b, Alloc(LOADER_SIZE)))
    requires b2 == WriteBuf(AllocArea(b, LOADER_SIZE).1, GrantAt(b, 0).value, LOADER_SIZE).1
    ensures b2.trace == b.trace + [Alloc(LOADER_SIZE), WriteBuffer(GrantAt(b, 0).value, LOADER_SIZE)]
    ensures b2.grants == (if |b.grants| > 0 then b.grants[1..] else []) && b2.runs == b.runs
    ensures BlockWriteSpec(b, base, buf, offset, count) == AfterUpload(b2, GrantAt(b, 0).value, base + offset, buf, count)
  {
  }

  /** Run the loader on the ring at `start`, then release the ring and the
      loader, returning the run's status and its diagnosis. */
  function RunOnRing(b: Bus, loader: nat, start: nat, size: nat, address: nat, buf: seq<Byte>, count: nat)
    : (Status, Option<Diagnosis>, Bus)
  {
    var (reply, b4) := RunLoader(b, loader, start, size, LoaderRegs(count, start, size, address), count, buf);
    (reply.status, Diagnose(reply), FreeArea(FreeArea(b4, start), loader))
  }

  /** The block write the rest of the model uses: every working area it
      allocates is released on every path. */
  function BlockWriteSpec(b: Bus, base: nat, buf: seq<Byte>, offset: nat, count: nat): (Status, Option<Diagnosis>, Bus)
  {
    BlockWriteWith(b, base, buf, offset, count, true)
  }

  /** efr32x_write_block, with the ring-size loop. */
  method WriteBlock(b: Bus, base: nat, buf: seq<Byte>, offset: nat, count: nat)
    returns (s: Status, diag: Option<Diagnosis>, b': Bus)
    ensures (s, diag, b') == BlockWriteSpec(b, base, buf, offset, count)
  {
    var (code, b1) := AllocArea(b, LOADER_SIZE);
    if code.None? {
      return Err(ResourceNotAvailable), None, b1;
    }
    var loader := code.value;
    var (up, b2) := WriteBuf(b1, loader, LOADER_SIZE);
    if up.Err? {
      return up, None, FreeArea(b2, loader);
    }
    var size: nat := RING_FIRST_SIZE;
    var cur := b2;
    while true
      invariant AllocRing(cur, size) == AllocRing(b2, RING_FIRST_SIZE)
      decreases size
    {
      var (g, next) := AllocArea(cur, size);
      if g.Some? {
        var (s4, d4, b4) := RunOnRing(next, loader, g.value, size, base + offset, buf, count);
        return s4, d4, b4;
      }
      size := Halve(size);
      cur := next;
      if size <= RING_FLOOR {
        return Err(ResourceNotAvailable), None, FreeArea(cur, loader);
      }
    }
  }

  /** The corrected block write holds no working area afterwards that it
      did not hold before, on every path. */
  lemma BlockWriteReleases(b: Bus, base: nat, buf: seq<Byte>, offset: nat, count: nat)
    ensures BlockWriteSpec(b, base, buf, offset, count).2.live == b.live
  {
  }

  /** The block write issues no register or memory write of its own: the
      words are programmed by the loader, so the host's trace shows no
      write to any MSC register and no WRITEONCE command. */
  lemma BlockWriteSilent(b: Bus, base: nat, buf: seq<Byte>, offset: nat, count: nat)
    ensures SilentAfter(b.trace, BlockWriteSpec(b, base, buf, offset, count).2.trace)
  {
    var (code, b1) := AllocArea(b, LOADER_SIZE);
    assert SilentAfter(b.trace, b.trace);
    SilentStep(b.trace, b.trace, Alloc(LOADER_SIZE));
    if code.Some? {
      var loader := code.value;
      var (up, b2) := WriteBuf(b1, loader, LOADER_SIZE);
      SilentStep(b.trace, b1.trace, Issued(b1, WriteBuffer(loader, LOADER_SIZE)));
      if up.Err? {
        SilentStep(b.trace, b2.trace, Free(loader));
      } else {
        AfterUploadSilent(b2, loader, base + offset, buf, count);
        SilentTrans(b.trace, b2.trace, AfterUpload(b2, loader, base + offset, buf, count).2.trace);
      }
    }
  }

  lemma {:induction false} AllocRingSilent(b: Bus, size: nat)
    ensures SilentAfter(b.trace, AllocRing(b, size).1.trace)
    decreases size
  {
    var b1 := AllocArea(b, size).1;
    assert SilentAfter(b.trace, b.trace);
    SilentStep(b.trace, b.trace, Alloc(size));
    if GrantAt(b, 0).None? && Halve(size) > RING_FLOOR {
      AllocRingSilent(b1, Halve(size));
      SilentTrans(b.trace, b1.trace, AllocRing(b1, Halve(size)).1.trace);
    }
  }

  lemma AfterUploadSilent(b: Bus, loader: nat, address: nat, buf: seq<Byte>, count: nat)
    ensures SilentAfter(b.trace, AfterUpload(b, loader, address, buf, count).2.trace)
  {
    var (ring, b3) := AllocRing(b, RING_FIRST_SIZE);
    AllocRingSilent(b, RING_FIRST_SIZE);
    if ring.None? {
      SilentStep(b.trace, b3.trace, Free(loader));
    } else {
      var (start, size) := ring.value;
      var regs := LoaderRegs(count, start, size, address);
      var b4 := RunLoader(b3, loader, start, size, regs, count, buf).1;
      SilentStep(b.trace, b3.trace, Run(loader, start, size, regs, count, buf));
      SilentStep(b.trace, b4.trace, Free(start));
      SilentStep(b.trace, b4.trace + [Free(start)], Free(loader));
    }
  }

  /** Hence the block path leaves every MSC register's write history, and
      the words the host commanded to be programmed, as they were. */
  lemma BlockWriteQuiet(b: Bus, base: nat, buf: seq<Byte>, offset: nat, count: nat, a: nat)
    ensures var t := BlockWriteSpec(b, base, buf, offset, count).2.trace;
      WritesTo(t, a) == WritesTo(b.trace, a) && Commits(t) == Commits(b.trace)
  {
    var t := BlockWriteSpec(b, base, buf, offset, count).2.trace;
    BlockWriteSilent(b, base, buf, offset, count);
    SilentWrites(b.trace, t, a);
    SilentCommits(b.trace, t);
  }

  /** The loader ran once, on the ring it was granted at the k-th size,
      with the register file bound to that ring, the word count and the
      flash address; the loader had been allocated and uploaded before, and
      the ring then the loader were released after; the result is the
      run's, with a diagnosis exactly when it is OPERATION_FAILED. */
  predicate RanOnce(b: Bus, base: nat, buf: seq<Byte>, offset: nat, count: nat, k: nat, r: (Status, Option<Diagnosis>, Bus))
    requires 1 <= k <= RING_TRIES && GrantAt(b, 0).Some?
  {
    GrantAt(b, k).Some? &&
    var start := GrantAt(b, k).value;
    var (s, d, b') := r;
    var loader := GrantAt(b, 0).value;
    var size := RingSize(k - 1);
    var reply := if |b.runs| > 0 then b.runs[0] else RunReply(Err(Fail), 0, 0);
    b'.trace == b.trace + [Alloc(LOADER_SIZE), WriteBuffer(loader, LOADER_SIZE)] + RingAllocs(0, k) +
      [Run(loader, start, size, LoaderRegs(count, start, size, base + offset), count, buf), Free(start), Free(loader)] &&
    s == reply.status &&
    (d.Some? <==> s == Err(OperationFailed)) &&
    (d.Some? ==> d.value.failedAt == reply.r4 &&
                 (d.value.writeProtected <==> reply.r0 & STATUS_LOCKED != 0) &&
                 (d.value.invalidAddress <==> reply.r0 & STATUS_INVADDR != 0))
  }

  lemma RunOnRingEffect(b: Bus, loader: nat, start: nat, size: nat, address: nat, buf: seq<Byte>, count: nat)
    ensures var (s, d, b') := RunOnRing(b, loader, start, size, address, buf, count);
      var reply := if |b.runs| > 0 then b.runs[0] else RunReply(Err(Fail), 0, 0);
      b'.trace == b.trace + [Run(loader, start, size, LoaderRegs(count, start, size, address), count, buf), Free(start), Free(loader)] &&
      s == reply.status && d == Diagnose(reply)
  {
  }

  /** When a ring of some tried size is granted, the loader runs once. */
  lemma BlockWriteRuns(b: Bus, base: nat, buf: seq<Byte>, offset: nat, count: nat, j: nat)
    requires GrantAt(b, 0).Some? && !FaultsNext(Log(b, Alloc(LOADER_SIZE)))
    requires 1 <= j <= RING_TRIES && GrantAt(b, j).Some?
    ensures exists k: nat | 1 <= k <= RING_TRIES :: RanOnce(b, base, buf, offset, count, k, BlockWriteSpec(b, base, buf, offset, count))
  {
    var b2 := WriteBuf(AllocArea(b, LOADER_SIZE).1, GrantAt(b, 0).value, LOADER_SIZE).1;
    BlockWriteSplit(b, base, buf, offset, count, b2);
    RunsAfterUpload(b, b2, base, buf, offset, count, BlockWriteSpec(b, base, buf, offset, count), j);
  }

  lemma RunsAfterUpload(b: Bus, b2: Bus, base: nat, buf: seq<Byte>, offset: nat, count: nat, res: (Status, Option<Diagnosis>, Bus), j: nat)
    requires GrantAt(b, 0).Some?
    requires 1 <= j <= RING_TRIES && GrantAt(b, j).Some?
    requires b2.trace == b.trace + [Alloc(LOADER_SIZE), WriteBuffer(GrantAt(b, 0).value, LOADER_SIZE)]
    requires b2.grants == (if |b.grants| > 0 then b.grants[1..] else []) && b2.runs == b.runs
    requires res == AfterUpload(b2, GrantAt(b, 0).value, base + offset, buf, count)
    ensures exists k: nat | 1 <= k <= RING_TRIES :: RanOnce(b, base, buf, offset, count, k, res)
  {
    var r := AllocRing(b2, RING_FIRST_SIZE);
    var k := RingGranted(b, b2, r, j);
    AfterUploadRing(b2, GrantAt(b, 0).value, base + offset, buf, count, r);
    RanOnceAfter(b, b2, r.1, base, buf, offset, count, k, r.0.value.0, res);
  }

  /** Some tried size is granted: the k-th. */
  lemma RingGranted(b: Bus, b2: Bus, r: (Option<(nat, nat)>, Bus), j: nat) returns (k: nat)
    requires 1 <= j <= RING_TRIES && GrantAt(b, j).Some?
    requires b2.grants == (if |b.grants| > 0 then b.grants[1..] else []) && b2.runs == b.runs
    requires r == AllocRing(b2, RING_FIRST_SIZE)
    ensures 1 <= k <= RING_TRIES && r.0.Some? && GrantAt(b, k) == Some(r.0.value.0)
    ensures r.0.value.1 == RingSize(k - 1) && r.1.runs == b.runs
    ensures r.1.trace == b2.trace + RingAllocs(0, k)
  {
    AllocRingSizes(b2);
    k :| TriedFrom(b2, 0, k, r);
    GrantShift(b, b2, j - 1);
    if r.0.None? {
      TriedNone(b2, k, r, j - 1);
      assert false;
    }
    GrantShift(b, b2, k - 1);
  }

  /** A loop that was granted nothing was refused at every size. */
  lemma TriedNone(b: Bus, k: nat, r: (Option<(nat, nat)>, Bus), j: nat)
    requires TriedFrom(b, 0, k, r) && r.0.None? && j < RING_TRIES
    ensures GrantAt(b, j).None?
  {
    if j < k - 1 {
    } else {
      assert j == k - 1;
    }
  }

  lemma GrantShift(b: Bus, b2: Bus, j: nat)
    requires b2.grants == (if |b.grants| > 0 then b.grants[1..] else [])
    ensures GrantAt(b2, j) == GrantAt(b, j + 1)
  {
  }

  lemma RanOnceAfter(b: Bus, b2: Bus, b3: Bus, base: nat, buf: seq<Byte>, offset: nat, count: nat, k: nat, start: nat,
                     res: (Status, Option<Diagnosis>, Bus))
    requires 1 <= k <= RING_TRIES && GrantAt(b, 0).Some? && GrantAt(b, k) == Some(start)
    requires b2.trace == b.trace + [Alloc(LOADER_SIZE), WriteBuffer(GrantAt(b, 0).value, LOADER_SIZE)]
    requires b3.trace == b2.trace + RingAllocs(0, k) && b3.runs == b.runs
    requires res == RunOnRing(b3, GrantAt(b, 0).value, start, RingSize(k - 1), base + offset, buf, count)
    ensures RanOnce(b, base, buf, offset, count, k, res)
  {
    RunOnRingEffect(b3, GrantAt(b, 0).value, start, RingSize(k - 1), base + offset, buf, count);
  }

  /** When no ring of any tried size is granted, the loader is released
      and the block write reports RESOURCE_NOT_AVAILABLE without running
      it, which is what makes the dispatcher fall back to word writes. */
  lemma BlockWriteNoRing(b: Bus, base: nat, buf: seq<Byte>, offset: nat, count: nat)
    requires GrantAt(b, 0).Some? && !FaultsNext(Log(b, Alloc(LOADER_SIZE)))
    requires forall j | 1 <= j <= RING_TRIES :: GrantAt(b, j).None?
    ensures var (s, d, b') := BlockWriteSpec(b, base, buf, offset, count);
      var loader := GrantAt(b, 0).value;
      s == Err(ResourceNotAvailable) && d.None? &&
      b'.trace == b.trace + [Alloc(LOADER_SIZE), WriteBuffer(loader, LOADER_SIZE)] + RingAllocs(0, RING_TRIES) + [Free(loader)]
  {
    var b2 := WriteBuf(AllocArea(b, LOADER_SIZE).1, GrantAt(b, 0).value, LOADER_SIZE).1;
    BlockWriteSplit(b, base, buf, offset, count, b2);
    NoRingAfterUpload(b, b2, base + offset, buf, count);
  }

  lemma NoRingAfterUpload(b: Bus, b2: Bus, address: nat, buf: seq<Byte>, count: nat)
    requires GrantAt(b, 0).Some?
    requires forall j | 1 <= j <= RING_TRIES :: GrantAt(b, j).None?
    requires b2.trace == b.trace + [Alloc(LOADER_SIZE), WriteBuffer(GrantAt(b, 0).value, LOADER_SIZE)]
    requires b2.grants == (if |b.grants| > 0 then b.grants[1..] else [])
    ensures var loader := GrantAt(b, 0).value;
      var (s, d, b') := AfterUpload(b2, loader, address, buf, count);
      s == Err(ResourceNotAvailable) && d.None? &&
      b'.trace == b2.trace + RingAllocs(0, RING_TRIES) + [Free(loader)]
  {
    AllocRingSizes(b2);
    var r := AllocRing(b2, RING_FIRST_SIZE);
    var k: nat :| TriedFrom(b2, 0, k, r);
    if r.0.Some? {
      GrantShift(b, b2, k - 1);
      assert false;
    }
  }

  /** Without any working area for the loader, nothing is uploaded. */
  lemma BlockWriteNoLoader(b: Bus, base: nat, buf: seq<Byte>, offset: nat, count: nat, free: bool)
    requires GrantAt(b, 0).None?
    ensures BlockWriteWith(b, base, buf, offset, count, free) ==
      (Err(ResourceNotAvailable), None, AllocArea(b, LOADER_SIZE).1)
  {
  }

  /** The code as written: when the upload of the loader fails, the block
      write returns the upload's error still holding the loader's working
      area, whereas the corrected version releases it. */
  lemma UploadFailureLeaks(b: Bus, base: nat, buf: seq<Byte>, offset: nat, count: nat)
    requires GrantAt(b, 0).Some? && FaultsNext(Log(b, Alloc(LOADER_SIZE)))
    ensures var loader := GrantAt(b, 0).value;
      BlockWriteWith(b, base, buf, offset, count, false).2.live == b.live + multiset{loader} &&
      BlockWriteWith(b, base, buf, offset, count, true).2.live == b.live &&
      BlockWriteWith(b, base, buf, offset, count, false).0 == BlockWriteWith(b, base, buf, offset, count, true).0
  {
  }

  /** A concrete instance: one area granted, the upload rejected. */
  lemma UploadFailureLeaksExample()
    ensures var b := Bus(true, map[], [], map[1 := Fail], [Some(0x2000_0000)], [], multiset{}, []);
      BlockWriteWith(b, 0, [], 0, 0, false).2.live == multiset{0x2000_0000}
  {
    var b := Bus(true, map[], [], map[1 := Fail], [Some(0x2000_0000)], [], multiset{}, []);
    UploadFailureLeaks(b, 0, [], 0, 0);
  }
}
