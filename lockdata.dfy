/** efr32x_read_lock_data and efr32x_write_lock_data as specifications:
    the transfer of the lock-bits page between the device and the driver's
    128-word mirror. */
module LockData {
  import opened Efr32Defs
  import opened Target
  import opened Msc
  import opened FlashWrite

  /** The number of page-lock words of a bank of n sectors: (n + 31) / 32,
      one bit per sector. */
  function DataWordCount(n: nat): nat
  {
    (n + 31) / 32
  }

  /** The mirror words read_lock_data fills, in order: the page-lock words
      0 .. DataWordCount(n) - 1, then ULW (126), DLW (127) and MLW (125). */
  function LockIndexes(n: nat): (r: seq<nat>)
    ensures |r| == DataWordCount(n) + 3
    ensures forall k | 0 <= k < DataWordCount(n) :: r[k] == k
    ensures r[DataWordCount(n)..] == [ULW_INDEX, DLW_INDEX, MLW_INDEX]
  {
    seq(DataWordCount(n), k => k) + [ULW_INDEX, DLW_INDEX, MLW_INDEX]
  }

  /** Every index of the list lies in a mirror of `len` words. */
  predicate IndexesIn(idx: seq<nat>, len: nat)
  {
    forall k | 0 <= k < |idx| :: idx[k] < len
  }

  /** Once the page-lock words fit the 128-word mirror, every word read
      lies in it. */
  lemma LockIndexesIn(n: nat)
    requires DataWordCount(n) <= LB_WORDS
    ensures IndexesIn(LockIndexes(n), LB_WORDS)
  {
  }

  /** The device address of mirror word i. */
  function LockAddr(i: nat): nat
  {
    MSC_LOCK_BITS + 4 * i
  }

  /** The outcome of a run of lock-word reads: the status, the target and
      the mirror. */
  datatype LockRead = LockRead(status: Status, bus: Bus, words: seq<Word>)

  /** The reads of read_lock_data over the index list `idx`: target_read_u32
      of each word into the mirror, in order, returning at the first failed
      read. target_read_u32 stores 0 in its destination when the read
      fails, so the mirror word of the failed read becomes 0. */
  function ReadLockWords(b: Bus, words: seq<Word>, idx: seq<nat>): (r: LockRead)
    requires IndexesIn(idx, |words|)
    ensures |r.words| == |words|
    decreases |idx|
  {
    if idx == [] then LockRead(Ok, b, words)
    else
      var (v, b1) := Read32(b, LockAddr(idx[0]));
      if v.Failure? then LockRead(Err(v.error), b1, words[idx[0] := 0])
      else ReadLockWords(b1, words[idx[0] := v.value], idx[1..])
  }

  /** The calls a run of reads over `idx` makes when none fails. */
  function LockReads(idx: seq<nat>): (r: seq<Event>)
    ensures |r| == |idx|
  {
    if idx == [] then [] else [Read(LockAddr(idx[0]), 32)] + LockReads(idx[1..])
  }

  /** A word outside the index list is never written. */
  lemma {:induction false} ReadLockScope(b: Bus, words: seq<Word>, idx: seq<nat>, j: nat)
    requires IndexesIn(idx, |words|) && j < |words|
    requires forall k | 0 <= k < |idx| :: idx[k] != j
    ensures ReadLockWords(b, words, idx).words[j] == words[j]
    decreases |idx|
  {
    if idx != [] {
      var (v, b1) := Read32(b, LockAddr(idx[0]));
      if v.Success? {
        ReadLockScope(b1, words[idx[0] := v.value], idx[1..], j);
      }
    }
  }

  /** A read that reaches the target returns the device's word and leaves
      the device as it was. */
  lemma LockReadValue(b: Bus, i: nat)
    requires !FaultsNext(b) && i < LB_WORDS
    ensures Read32(b, LockAddr(i)).0 == Success(Cell(b, LockAddr(i)))
    ensures Read32(b, LockAddr(i)).1 == Log(b, Read(LockAddr(i), 32))
  {
  }

  /** When every read succeeds, each listed word of the mirror holds the
      device's lock-bits word at that index. */
  lemma {:induction false} ReadLockValues(b: Bus, words: seq<Word>, idx: seq<nat>, k: nat)
    requires IndexesIn(idx, |words|) && IndexesIn(idx, LB_WORDS) && k < |idx|
    requires ReadLockWords(b, words, idx).status == Ok
    ensures ReadLockWords(b, words, idx).words[idx[k]] == Cell(b, LockAddr(idx[k]))
    decreases |idx|
  {
    var (v, b1) := Read32(b, LockAddr(idx[0]));
    LockReadValue(b, idx[0]);
    var w1 := words[idx[0] := v.value];
    if k > 0 {
      ReadLockValues(b1, w1, idx[1..], k - 1);
    } else if m :| 0 <= m < |idx| - 1 && idx[1..][m] == idx[0] {
      ReadLockValues(b1, w1, idx[1..], m);
    } else {
      ReadLockScope(b1, w1, idx[1..], idx[0]);
    }
  }

  /** The reads go in order and stop at the first that fails: `k` reads
      succeed, then either the list is done and the status is Ok, or read k
      fails and its error is returned. The device is never changed. */
  lemma {:induction false} ReadLockTrace(b: Bus, words: seq<Word>, idx: seq<nat>) returns (k: nat)
    requires IndexesIn(idx, |words|)
    ensures k <= |idx|
    ensures ReadLockWords(b, words, idx).bus.trace ==
      b.trace + LockReads(idx[..k]) + (if k < |idx| then [Failed(Read(LockAddr(idx[k]), 32))] else [])
    ensures k < |idx| ==>
      |b.trace| + k in b.faults && ReadLockWords(b, words, idx).status == Err(b.faults[|b.trace| + k])
    ensures k == |idx| ==> ReadLockWords(b, words, idx).status == Ok
    ensures ReadLockWords(b, words, idx).bus.mem == b.mem
    ensures ReadLockWords(b, words, idx).bus.faults == b.faults
    decreases |idx|
  {
    if idx == [] {
      k := 0;
    } else {
      var (v, b1) := Read32(b, LockAddr(idx[0]));
      if v.Failure? {
        k := 0;
      } else {
        var j := ReadLockTrace(b1, words[idx[0] := v.value], idx[1..]);
        k := j + 1;
        ReadsPrefix(idx, j);
      }
    }
  }

  lemma ReadsPrefix(idx: seq<nat>, j: nat)
    requires j < |idx|
    ensures LockReads(idx[..j + 1]) == [Read(LockAddr(idx[0]), 32)] + LockReads(idx[1..][..j])
  {
    assert idx[..j + 1][1..] == idx[1..][..j];
  }

  /** efr32x_write_lock_data as a specification: erase the lock-bits page
      (no unlock and no WREN, as written), then write the whole mirror back
      as 512 bytes at the page's address. */
  function LockPageWrite(b: Bus, base: nat, words: seq<Word>): (Status, Bus)
  {
    var (e, b1) := ErasePage(b, AsWord(MSC_LOCK_BITS));
    if e.Err? then (e, b1) else WriteSpec(b1, base, Bytes(words), MSC_LOCK_BITS, false)
  }

  /** The image written back is exactly the mirror: 512 bytes, a whole number
      of words, so no padding, and decoding it gives the mirror again. */
  lemma LockImage(words: seq<Word>)
    requires |words| == LB_WORDS
    ensures |Bytes(words)| == LOCKBITS_PAGE_SZ
    ensures Padded(Bytes(words)) == Bytes(words)
    ensures Words(Padded(Bytes(words))) == words
  {
    WordsBytes(words);
  }

  /** Once the erase succeeds, the write is accepted by write's prechecks
      on a halted target: the address is word-aligned and no padding is
      needed. */
  lemma LockPageAccepted(b: Bus, words: seq<Word>)
    requires |words| == LB_WORDS && b.halted
    ensures Precheck(b, Bytes(words), MSC_LOCK_BITS, false) == Ok
  {
  }
}
