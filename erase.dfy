/** efr32x_erase: unlock the MSC, enable writes, erase a range of pages,
    then disable writes and relock. */
module FlashErase {
  import opened Efr32Defs
  import opened Target
  import opened Msc

  /** The page loop of efr32x_erase: erase_page on the offset of every
      sector first..last in turn. A failed page is only logged; the loop
      goes on. */
  function ErasePages(b: Bus, offsets: seq<Word>, first: int, last: int): Bus
    requires 0 <= first && last < |offsets|
    decreases last - first + 1
  {
    if first > last then b else ErasePages(ErasePage(b, offsets[first]).1, offsets, first + 1, last)
  }

  /** efr32x_erase as a specification. The result of the unlock is ignored;
      a failure to enable WREN returns at once, without relocking; after the
      loop the result is that of clearing WREN, whatever happened to the
      pages. */
  function EraseSpec(b: Bus, offsets: seq<Word>, first: int, last: int): (Status, Bus)
    requires 0 <= first && last < |offsets|
  {
    if !b.halted then (Err(NotHalted), b)
    else
      var (en, b2) := Unlock(b);
      if en.Err? then (en, b2)
      else Relock(ErasePages(b2, offsets, first, last))
  }

  /** efr32x_erase. */
  method Erase(b: Bus, offsets: seq<Word>, first: int, last: int) returns (s: Status, b': Bus)
    requires 0 <= first && last < |offsets|
    ensures (s, b') == EraseSpec(b, offsets, first, last)
  {
    if !b.halted {
      return Err(NotHalted), b;
    }
    var (en, b2) := Unlock(b);
    if en.Err? {
      return en, b2;
    }
    var cur := b2;
    var i := first;
    while i <= last
      invariant first <= i && (i <= last + 1 || i == first)
      invariant ErasePages(cur, offsets, i, last) == ErasePages(b2, offsets, first, last)
      decreases last - i
    {
      var (_, next) := ErasePage(cur, offsets[i]);
      cur := next;
      i := i + 1;
    }
    var (s4, b4) := Relock(cur);
    return s4, b4;
  }

  /** The offsets the page loop erases, in order. */
  function Range(offsets: seq<Word>, first: int, last: int): seq<Word>
    requires 0 <= first && last < |offsets|
  {
    if first <= last then offsets[first..last + 1] else []
  }

  lemma RangeStep(offsets: seq<Word>, first: int, last: int)
    requires 0 <= first <= last < |offsets|
    ensures Range(offsets, first, last) == [offsets[first]] + Range(offsets, first + 1, last)
  {
  }

  /** The loop attempts every page first..last, in order, even after pages
      that failed, and writes no register other than ADDRB and WRITECMD. */
  lemma {:induction false} ErasePagesWrites(b: Bus, offsets: seq<Word>, first: int, last: int, a: nat)
    requires 0 <= first && last < |offsets| && a != MSC_WRITECMD
    ensures WritesTo(ErasePages(b, offsets, first, last).trace, a)
         == WritesTo(b.trace, a) + (if a == MSC_ADDRB then Range(offsets, first, last) else [])
    decreases last - first + 1
  {
    if first <= last {
      var b1 := ErasePage(b, offsets[first]).1;
      ErasePageWrites(b, offsets[first], a);
      ErasePagesWrites(b1, offsets, first + 1, last, a);
      RangeStep(offsets, first, last);
    }
  }

  /** Past the prologue, erase is the page loop followed by the epilogue. */
  lemma EraseSplit(b: Bus, offsets: seq<Word>, first: int, last: int)
    requires 0 <= first && last < |offsets|
    requires b.halted && EnablesWren(b)
    ensures EraseSpec(b, offsets, first, last) == Relock(ErasePages(Unlock(b).1, offsets, first, last))
  {
    UnlockResult(b);
  }

  /** What erase promises once WREN is enabled: every page first..last
      loaded into ADDRB in order, one unlock and one relock of the MSC, and
      Ok exactly when the final WRITECTRL write that clears WREN reached
      the target. */
  predicate ErasedAll(b: Bus, offsets: seq<Word>, first: int, last: int, r: (Status, Bus))
    requires 0 <= first && last < |offsets|
  {
    var t := r.1.trace;
    WritesTo(t, MSC_ADDRB) == WritesTo(b.trace, MSC_ADDRB) + Range(offsets, first, last) &&
    WritesTo(t, MSC_LOCK) == WritesTo(b.trace, MSC_LOCK) + [MSC_LOCK_LOCKKEY, 0] &&
    |t| >= 2 &&
    (r.0 == Ok <==> (t[|t| - 2].Write? && t[|t| - 2].addr == MSC_WRITECTRL))
  }

  lemma RelockAfterPages(b: Bus, b3: Bus, offsets: seq<Word>, first: int, last: int)
    requires 0 <= first && last < |offsets|
    requires WritesTo(b3.trace, MSC_ADDRB) == WritesTo(b.trace, MSC_ADDRB) + Range(offsets, first, last)
    requires WritesTo(b3.trace, MSC_LOCK) == WritesTo(b.trace, MSC_LOCK) + [MSC_LOCK_LOCKKEY]
    ensures ErasedAll(b, offsets, first, last, Relock(b3))
  {
    RelockEffect(b3, MSC_ADDRB);
    RelockEffect(b3, MSC_LOCK);
  }

  /** Erase on a halted target whose WREN enable succeeds attempts every
      page, whatever the pages' outcomes, and its result is that of the
      epilogue. */
  lemma EraseEnabled(b: Bus, offsets: seq<Word>, first: int, last: int)
    requires 0 <= first && last < |offsets|
    requires b.halted && EnablesWren(b)
    ensures ErasedAll(b, offsets, first, last, EraseSpec(b, offsets, first, last))
  {
    EraseSplit(b, offsets, first, last);
    var b2 := Unlock(b).1;
    UnlockEffect(b, MSC_ADDRB);
    UnlockEffect(b, MSC_LOCK);
    PagesThenRelock(b, b2, offsets, first, last);
  }

  lemma PagesThenRelock(b: Bus, b2: Bus, offsets: seq<Word>, first: int, last: int)
    requires 0 <= first && last < |offsets|
    requires WritesTo(b2.trace, MSC_ADDRB) == WritesTo(b.trace, MSC_ADDRB)
    requires WritesTo(b2.trace, MSC_LOCK) == WritesTo(b.trace, MSC_LOCK) + [MSC_LOCK_LOCKKEY]
    ensures ErasedAll(b, offsets, first, last, Relock(ErasePages(b2, offsets, first, last)))
  {
    var b3 := ErasePages(b2, offsets, first, last);
    ErasePagesWrites(b2, offsets, first, last, MSC_ADDRB);
    ErasePagesWrites(b2, offsets, first, last, MSC_LOCK);
    RelockAfterPages(b, b3, offsets, first, last);
  }

  /** When enabling WREN fails, erase returns that error having unlocked the
      MSC and never relocked it, and erases no page. */
  lemma EraseEnableFails(b: Bus, offsets: seq<Word>, first: int, last: int)
    requires 0 <= first && last < |offsets|
    requires b.halted && !EnablesWren(b)
    ensures var (s, b') := EraseSpec(b, offsets, first, last);
      s == Err(if |b.trace| + 1 in b.faults then b.faults[|b.trace| + 1] else b.faults[|b.trace| + 2]) &&
      WritesTo(b'.trace, MSC_LOCK) == WritesTo(b.trace, MSC_LOCK) + [MSC_LOCK_LOCKKEY] &&
      WritesTo(b'.trace, MSC_ADDRB) == WritesTo(b.trace, MSC_ADDRB)
  {
    UnlockResult(b);
    UnlockEffect(b, MSC_ADDRB);
    UnlockEffect(b, MSC_LOCK);
  }

  /** On a target that is not halted, erase fails before any call. */
  lemma EraseNotHalted(b: Bus, offsets: seq<Word>, first: int, last: int)
    requires 0 <= first && last < |offsets| && !b.halted
    ensures EraseSpec(b, offsets, first, last) == (Err(NotHalted), b)
  {
  }
}
