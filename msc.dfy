/** The register protocols the driver runs against the memory system
    controller: read-modify-write of a register, the MSC lock, status
    polling, and the erase-page and write-word command sequences. */
module Msc {
  import opened Efr32Defs
  import opened Target

  /** The value efr32x_set_reg_bits writes back: `mask` set (on) or cleared in
      `v`, every other bit kept. */
  function WithBits(v: Word, mask: Word, on: bool): Word
  {
    if on then v | mask else v & !mask
  }

  /** The bits of `mask` end up all set (on) or all clear, and every other
      bit of `v` is kept. */
  lemma WithBitsMask(v: Word, mask: Word, on: bool)
    ensures on ==> WithBits(v, mask, on) & mask == mask
    ensures !on ==> WithBits(v, mask, on) & mask == 0
    ensures WithBits(v, mask, on) & !mask == v & !mask
  {
    if on { SetBits(v, mask); } else { ClearBits(v, mask); }
  }

  lemma SetBits(v: Word, mask: Word)
    ensures WithBits(v, mask, true) & mask == mask
    ensures WithBits(v, mask, true) & !mask == v & !mask
  {
  }

  lemma ClearBits(v: Word, mask: Word)
    ensures WithBits(v, mask, false) & mask == 0
    ensures WithBits(v, mask, false) & !mask == v & !mask
  {
  }

  /** efr32x_set_reg_bits: a read of `reg` followed, when the read
      succeeded, by a write of the updated value. */
  function SetRegBits(b: Bus, reg: nat, mask: Word, on: bool): (r: (Status, Bus))
    ensures FaultsNext(b) ==> r == (Err(b.faults[|b.trace|]), Log(b, Failed(Read(reg, 32))))
    ensures !FaultsNext(b) ==>
      var w := Write(reg, WithBits(Peek(b, reg), mask, on));
      r.1.trace == b.trace + [Read(reg, 32), Issued(Log(b, Read(reg, 32)), w)] &&
      (r.0 == Ok <==> |b.trace| + 1 !in b.faults)
    ensures r.1.faults == b.faults && r.1.halted == b.halted && r.1.grants == b.grants
    ensures r.1.runs == b.runs && r.1.live == b.live
    ensures reg != MSC_STATUS ==> r.1.status == b.status
    ensures r.1.mem == if r.0 == Ok then b.mem[reg := WithBits(Peek(b, reg), mask, on)] else b.mem
  {
    var (v, b1) := Read32(b, reg);
    if v.Failure? then (Err(v.error), b1) else Write32(b1, reg, WithBits(v.value, mask, on))
  }

  /** The value efr32x_msc_lock stores in MSC_LOCK: 0 locks the MSC
      registers, the key unlocks them. */
  function LockValue(lock: bool): (v: Word)
    ensures (v == 0) == lock
    ensures !lock ==> v == MSC_LOCK_LOCKKEY
  {
    if lock then 0 else MSC_LOCK_LOCKKEY
  }

  function MscLock(b: Bus, lock: bool): (Status, Bus)
  {
    Write32(b, MSC_LOCK, LockValue(lock))
  }

  /** efr32x_set_wren: set or clear WREN in MSC_WRITECTRL. */
  function SetWren(b: Bus, enable: bool): (Status, Bus)
  {
    SetRegBits(b, MSC_WRITECTRL, WRITECTRL_WREN, enable)
  }

  lemma AppendOne(t: seq<Event>, e: Event, a: nat)
    ensures WritesTo(t + [e], a) == WritesTo(t, a) + (if WritesAt(e, a) then [Attempt(e).value] else [])
  {
    assert (t + [e])[..|t|] == t;
  }

  /** set_reg_bits writes to no register but its own. */
  lemma SetRegBitsWrites(b: Bus, reg: nat, mask: Word, on: bool, a: nat)
    requires a != reg
    ensures WritesTo(SetRegBits(b, reg, mask, on).1.trace, a) == WritesTo(b.trace, a)
  {
    var t := SetRegBits(b, reg, mask, on).1.trace;
    var e := Issued(b, Read(reg, 32));
    AppendOne(b.trace, e, a);
    if FaultsNext(b) {
      assert t == b.trace + [e];
    } else {
      var b1 := Log(b, Read(reg, 32));
      var w := Issued(b1, Write(reg, WithBits(Peek(b, reg), mask, on)));
      AppendOne(b1.trace, w, a);
      assert b1.trace == b.trace + [e];
      assert t == b1.trace + [w];
    }
  }

  /** The unlock and the WREN read-modify-write that start an erase or a
      write reach the target. */
  predicate EnablesWren(b: Bus)
  {
    |b.trace| + 1 !in b.faults && |b.trace| + 2 !in b.faults
  }

  /** The prologue of efr32x_erase and efr32x_write: unlock the MSC (its
      result is ignored), then set WREN. */
  function Unlock(b: Bus): (Status, Bus)
  {
    var (_, b1) := MscLock(b, false);
    SetWren(b1, true)
  }

  /** The epilogue of efr32x_erase and efr32x_write: clear WREN, then relock
      the MSC (its result is ignored); the result is that of clearing WREN. */
  function Relock(b: Bus): (Status, Bus)
  {
    var (s, b1) := SetWren(b, false);
    var (_, b2) := MscLock(b1, true);
    (s, b2)
  }

  /** The prologue writes the unlock key to MSC_LOCK and, besides WRITECTRL,
      no other register. */
  lemma UnlockEffect(b: Bus, a: nat)
    requires a != MSC_WRITECTRL
    ensures WritesTo(Unlock(b).1.trace, a)
         == WritesTo(b.trace, a) + (if a == MSC_LOCK then [MSC_LOCK_LOCKKEY] else [])
  {
    var b1 := MscLock(b, false).1;
    var e := Issued(b, Write(MSC_LOCK, MSC_LOCK_LOCKKEY));
    assert b1.trace == b.trace + [e];
    AppendOne(b.trace, e, a);
    SetRegBitsWrites(b1, MSC_WRITECTRL, WRITECTRL_WREN, true, a);
  }

  /** The prologue succeeds exactly when its WRITECTRL read and write reach
      the target, and otherwise returns the first of their errors. */
  lemma UnlockResult(b: Bus)
    ensures Unlock(b).0 == Ok <==> EnablesWren(b)
    ensures !EnablesWren(b) ==>
      Unlock(b).0 == Err(if |b.trace| + 1 in b.faults then b.faults[|b.trace| + 1] else b.faults[|b.trace| + 2])
  {
    var b1 := MscLock(b, false).1;
    assert |b1.trace| == |b.trace| + 1 && b1.faults == b.faults;
  }

  /** The epilogue writes 0 (lock) to MSC_LOCK and, besides WRITECTRL, no
      other register; it returns Ok exactly when the WRITECTRL write that
      clears WREN, its second-to-last call, reached the target. */
  lemma RelockEffect(b: Bus, a: nat)
    requires a != MSC_WRITECTRL
    ensures WritesTo(Relock(b).1.trace, a)
         == WritesTo(b.trace, a) + (if a == MSC_LOCK then [0] else [])
    ensures var t := Relock(b).1.trace;
      |t| >= 2 && (Relock(b).0 == Ok <==> (t[|t| - 2].Write? && t[|t| - 2].addr == MSC_WRITECTRL))
  {
    var (s, b1) := SetWren(b, false);
    SetRegBitsWrites(b, MSC_WRITECTRL, WRITECTRL_WREN, false, a);
    AppendOne(b1.trace, Issued(b1, Write(MSC_LOCK, 0)), a);
  }

  /** The condition efr32x_wait_status waits for. */
  predicate Hit(v: Word, mask: Word, wantSet: bool)
  {
    ((v & mask) != 0) == wantSet
  }

  /** The most status reads wait_status issues for a timeout: the countdown
      `timeout-- <= 0` gives up after timeout + 1 reads (one when the
      timeout is not positive). */
  function Budget(timeout: int): nat
  {
    if timeout < 0 then 1 else timeout + 1
  }

  /** The bus after n successful reads of MSC_STATUS. */
  function Polled(b: Bus, n: nat): Bus
  {
    b.(trace := b.trace + Reads(MSC_STATUS, n), status := Drop(b.status, n))
  }

  /** efr32x_wait_status as a specification: read the status until the
      condition holds, a read fails, or the countdown runs out. */
  function PollStatus(b: Bus, timeout: int, mask: Word, wantSet: bool): (r: (Status, Bus))
    ensures SameDevice(b, r.1)
    decreases if timeout < 0 then 0 else timeout
  {
    var (v, b1) := Read32(b, MSC_STATUS);
    if v.Failure? then (Err(v.error), b1)
    else if Hit(v.value, mask, wantSet) then (Ok, b1)
    else if timeout <= 0 then (Err(Fail), b1)
    else PollStatus(b1, timeout - 1, mask, wantSet)
  }

  /** Every call of t from index k on is a status read. */
  predicate StatusReadsFrom(t: seq<Event>, k: nat)
  {
    forall i | k <= i < |t| :: Attempt(t[i]) == Read(MSC_STATUS, 32)
  }

  /** wait_status only reads MSC_STATUS, at most Budget(timeout) times,
      and a failed read is its last call. */
  lemma {:induction false} PollTrace(b: Bus, timeout: int, mask: Word, wantSet: bool)
    ensures var t := PollStatus(b, timeout, mask, wantSet).1.trace;
      |b.trace| < |t| <= |b.trace| + Budget(timeout) && t[..|b.trace|] == b.trace &&
      StatusReadsFrom(t, |b.trace|) && StopsAtFailure(t, |b.trace|)
    decreases if timeout < 0 then 0 else timeout
  {
    var (v, b1) := Read32(b, MSC_STATUS);
    if v.Success? && !Hit(v.value, mask, wantSet) && timeout > 0 {
      PollTrace(b1, timeout - 1, mask, wantSet);
      var t := PollStatus(b1, timeout - 1, mask, wantSet).1.trace;
      assert b1.trace == b.trace + [Read(MSC_STATUS, 32)];
      ReadPrefix(b.trace, t);
    }
  }

  /** One more clean status read in front of a poll's trace. */
  lemma ReadPrefix(t0: seq<Event>, t: seq<Event>)
    requires |t0| + 1 <= |t| && t[..|t0| + 1] == t0 + [Read(MSC_STATUS, 32)]
    requires StatusReadsFrom(t, |t0| + 1) && StopsAtFailure(t, |t0| + 1)
    ensures t[..|t0|] == t0 && StatusReadsFrom(t, |t0|) && StopsAtFailure(t, |t0|)
  {
    assert t[|t0|] == (t0 + [Read(MSC_STATUS, 32)])[|t0|];
    assert t[..|t0|] == t[..|t0| + 1][..|t0|];
  }

  /** wait_status writes to no register. */
  lemma PollWrites(b: Bus, timeout: int, mask: Word, wantSet: bool, a: nat)
    ensures WritesTo(PollStatus(b, timeout, mask, wantSet).1.trace, a) == WritesTo(b.trace, a)
  {
    var t := PollStatus(b, timeout, mask, wantSet).1.trace;
    PollTrace(b, timeout, mask, wantSet);
    var rest := t[|b.trace|..];
    assert t == b.trace + rest;
    forall i | 0 <= i < |rest|
      ensures !WritesAt(rest[i], a)
    {
      assert Attempt(t[|b.trace| + i]) == Read(MSC_STATUS, 32);
    }
    NoWritesTo(b.trace, rest, a);
  }

  /** efr32x_wait_status: the countdown loop. */
  method WaitStatus(b: Bus, timeout: int, mask: Word, wantSet: bool) returns (s: Status, b': Bus)
    ensures (s, b') == PollStatus(b, timeout, mask, wantSet)
  {
    var t := timeout;
    b' := b;
    while true
      invariant PollStatus(b', t, mask, wantSet) == PollStatus(b, timeout, mask, wantSet)
      decreases if t < 0 then 0 else t
    {
      var (v, next) := Read32(b', MSC_STATUS);
      if v.Failure? {
        return Err(v.error), next;
      }
      if Hit(v.value, mask, wantSet) {
        return Ok, next;
      }
      if t <= 0 {
        return Err(Fail), next;
      }
      t := t - 1;
      b' := next;
    }
  }

  lemma ReadsStep(t: seq<Event>, k: nat)
    ensures t + [Read(MSC_STATUS, 32)] + Reads(MSC_STATUS, k) == t + Reads(MSC_STATUS, k + 1)
  {
    assert [Read(MSC_STATUS, 32)] + Reads(MSC_STATUS, k) == Reads(MSC_STATUS, k + 1);
  }

  lemma PolledStep(b: Bus, k: nat)
    requires !FaultsNext(b)
    ensures Read32(b, MSC_STATUS) == (Success(StatusAt(b, 0)), Polled(b, 1))
    ensures Polled(Polled(b, 1), k) == Polled(b, k + 1)
    ensures forall j: nat :: StatusAt(Polled(b, 1), j) == StatusAt(b, j + 1)
  {
    assert Reads(MSC_STATUS, 1) == [Read(MSC_STATUS, 32)];
    ReadsStep(b.trace, k);
  }

  /** wait_status succeeds on the first read that meets the condition. */
  lemma {:induction false} PollFirstHit(b: Bus, timeout: int, mask: Word, wantSet: bool, k: nat)
    requires k < Budget(timeout) && Clean(b, k + 1)
    requires forall j | 0 <= j < k :: !Hit(StatusAt(b, j), mask, wantSet)
    requires Hit(StatusAt(b, k), mask, wantSet)
    ensures PollStatus(b, timeout, mask, wantSet) == (Ok, Polled(b, k + 1))
    decreases k
  {
    PolledStep(b, k);
    if k > 0 {
      var b1 := Polled(b, 1);
      assert !Hit(StatusAt(b, 0), mask, wantSet);
      forall j | 0 <= j < k - 1
        ensures !Hit(StatusAt(b1, j), mask, wantSet)
      {
        assert StatusAt(b1, j) == StatusAt(b, j + 1);
      }
      PollFirstHit(b1, timeout - 1, mask, wantSet, k - 1);
    }
  }

  /** When the condition never holds, wait_status fails after exactly
      Budget(timeout) status reads. */
  lemma {:induction false} PollTimeout(b: Bus, timeout: int, mask: Word, wantSet: bool)
    requires Clean(b, Budget(timeout))
    requires forall j | 0 <= j < Budget(timeout) :: !Hit(StatusAt(b, j), mask, wantSet)
    ensures PollStatus(b, timeout, mask, wantSet) == (Err(Fail), Polled(b, Budget(timeout)))
    decreases if timeout < 0 then 0 else timeout
  {
    var k := Budget(timeout) - 1;
    PolledStep(b, k);
    assert !Hit(StatusAt(b, 0), mask, wantSet);
    if timeout > 0 {
      var b1 := Polled(b, 1);
      forall j | 0 <= j < Budget(timeout - 1)
        ensures !Hit(StatusAt(b1, j), mask, wantSet)
      {
        assert StatusAt(b1, j) == StatusAt(b, j + 1);
      }
      PollTimeout(b1, timeout - 1, mask, wantSet);
    }
  }

  /** A failed status read ends wait_status at once with its error. */
  lemma {:induction false} PollFault(b: Bus, timeout: int, mask: Word, wantSet: bool, k: nat)
    requires k < Budget(timeout) && Clean(b, k) && |b.trace| + k in b.faults
    requires forall j | 0 <= j < k :: !Hit(StatusAt(b, j), mask, wantSet)
    ensures PollStatus(b, timeout, mask, wantSet)
         == (Err(b.faults[|b.trace| + k]), Log(Polled(b, k), Failed(Read(MSC_STATUS, 32))))
    decreases k
  {
    if k > 0 {
      PolledStep(b, k - 1);
      var b1 := Polled(b, 1);
      assert !Hit(StatusAt(b, 0), mask, wantSet);
      forall j | 0 <= j < k - 1
        ensures !Hit(StatusAt(b1, j), mask, wantSet)
      {
        assert StatusAt(b1, j) == StatusAt(b, j + 1);
      }
      PollFault(b1, timeout - 1, mask, wantSet, k - 1);
    } else {
      assert Polled(b, 0) == b;
    }
  }

  /** wait_status met its condition on read n (counting from 0) after n
      reads that did not, all n + 1 of them clean. */
  ghost predicate HitAt(b: Bus, timeout: int, mask: Word, wantSet: bool, n: nat, b': Bus)
  {
    n < Budget(timeout) && Clean(b, n + 1) && b' == Polled(b, n + 1) &&
    Hit(StatusAt(b, n), mask, wantSet) &&
    (forall j | 0 <= j < n :: !Hit(StatusAt(b, j), mask, wantSet))
  }

  lemma HitShift(b: Bus, timeout: int, mask: Word, wantSet: bool, n: nat, b': Bus)
    requires timeout > 0 && !FaultsNext(b) && !Hit(StatusAt(b, 0), mask, wantSet)
    requires HitAt(Polled(b, 1), timeout - 1, mask, wantSet, n, b')
    ensures HitAt(b, timeout, mask, wantSet, n + 1, b')
  {
    var b1 := Polled(b, 1);
    PolledStep(b, n + 1);
    forall j | 0 <= j < n + 1
      ensures !Hit(StatusAt(b, j), mask, wantSet)
    {
      if j > 0 {
        assert StatusAt(b, j) == StatusAt(b1, j - 1);
      }
    }
  }

  /** Conversely, a successful wait_status consumed n + 1 clean reads of
      which only the last met the condition. */
  lemma {:induction false} PollOk(b: Bus, timeout: int, mask: Word, wantSet: bool)
    requires PollStatus(b, timeout, mask, wantSet).0 == Ok
    ensures exists n: nat :: HitAt(b, timeout, mask, wantSet, n, PollStatus(b, timeout, mask, wantSet).1)
    decreases if timeout < 0 then 0 else timeout
  {
    assert !FaultsNext(b);
    PolledStep(b, 0);
    if Hit(StatusAt(b, 0), mask, wantSet) {
      assert HitAt(b, timeout, mask, wantSet, 0, Polled(b, 1));
    } else {
      var b1 := Polled(b, 1);
      PollOk(b1, timeout - 1, mask, wantSet);
      var n: nat :| HitAt(b1, timeout - 1, mask, wantSet, n, PollStatus(b1, timeout - 1, mask, wantSet).1);
      HitShift(b, timeout, mask, wantSet, n, PollStatus(b1, timeout - 1, mask, wantSet).1);
    }
  }

  /** The calls of steps 1-3 of erase_page and write_word when none fails:
      ADDRB, the LADDRIM read-modify-write, one status read. */
  function LatchEvents(addr: Word): seq<Event>
  {
    [Write(MSC_ADDRB, addr), Read(MSC_WRITECMD, 32), Write(MSC_WRITECMD, WRITECMD_LADDRIM), Read(MSC_STATUS, 32)]
  }

  /** A status word with which the MSC refuses the latched address. */
  predicate Rejected(v: Word)
  {
    v & STATUS_LOCKED != 0 || v & STATUS_INVADDR != 0
  }

  /** The bus after the four calls of LatchEvents succeeded. */
  function Latched(b: Bus, addr: Word): Bus
  {
    b.(mem := b.mem[MSC_ADDRB := addr][MSC_WRITECMD := WRITECMD_LADDRIM],
       trace := b.trace + LatchEvents(addr), status := Drop(b.status, 1))
  }

  /** The registers erase_page and write_word touch after ADDRB. */
  const CMD_REGS: set<nat> := {MSC_WRITECMD, MSC_STATUS, MSC_WDATA}

  /** Steps 1-3 shared by efr32x_erase_page and efr32x_write_word: load the
      address into ADDRB, latch it with LADDRIM, and check the status; a
      locked page is reported before an invalid address, both as Fail. */
  function LatchAddress(b: Bus, addr: Word): (r: (Status, Bus))
    ensures r.1.faults == b.faults && r.1.halted == b.halted && r.1.grants == b.grants
    ensures r.1.runs == b.runs && r.1.live == b.live
  {
    var (s1, b1) := Write32(b, MSC_ADDRB, addr);
    if s1.Err? then (s1, b1) else LatchCheck(b1)
  }

  /** Steps 2-3: set LADDRIM in WRITECMD, then read the status and refuse a
      locked page or an invalid address. */
  function LatchCheck(b: Bus): (r: (Status, Bus))
    ensures r.1.faults == b.faults && r.1.halted == b.halted && r.1.grants == b.grants
    ensures r.1.runs == b.runs && r.1.live == b.live
  {
    var (s2, b2) := SetRegBits(b, MSC_WRITECMD, WRITECMD_LADDRIM, true);
    if s2.Err? then (s2, b2)
    else
      var (v, b3) := Read32(b2, MSC_STATUS);
      if v.Failure? then (Err(v.error), b3)
      else if v.value & STATUS_LOCKED != 0 then (Err(Fail), b3)
      else if v.value & STATUS_INVADDR != 0 then (Err(Fail), b3)
      else (Ok, b3)
  }

  /** With four clean calls the latch succeeds exactly when the status read
      does not report LOCKED or INVADDR. */
  lemma LatchClean(b: Bus, addr: Word)
    requires Clean(b, 4)
    ensures LatchAddress(b, addr) == (if Rejected(StatusAt(b, 0)) then Err(Fail) else Ok, Latched(b, addr))
  {
    assert |b.trace| !in b.faults && |b.trace| + 1 !in b.faults;
    assert |b.trace| + 2 !in b.faults && |b.trace| + 3 !in b.faults;
    var (s1, b1) := Write32(b, MSC_ADDRB, addr);
    assert s1 == Ok && b1.mem == b.mem[MSC_ADDRB := addr];
    assert b1.trace == b.trace + [Write(MSC_ADDRB, addr)];
    var (s2, b2) := SetRegBits(b1, MSC_WRITECMD, WRITECMD_LADDRIM, true);
    assert Peek(b1, MSC_WRITECMD) == 0;
    assert WithBits(0, WRITECMD_LADDRIM, true) == WRITECMD_LADDRIM;
    assert s2 == Ok;
    assert b2.mem == b.mem[MSC_ADDRB := addr][MSC_WRITECMD := WRITECMD_LADDRIM];
    assert b2.trace == b.trace + [Write(MSC_ADDRB, addr), Read(MSC_WRITECMD, 32), Write(MSC_WRITECMD, WRITECMD_LADDRIM)];
    assert b2.status == b.status;
    var (v, b3) := Read32(b2, MSC_STATUS);
    assert v == Success(StatusAt(b, 0));
    assert b3.trace == b.trace + LatchEvents(addr);
    assert b3 == Latched(b, addr);
  }

  /** Conversely, a latch that succeeded issued its four calls cleanly and
      saw a status that is neither LOCKED nor INVADDR. */
  lemma LatchOk(b: Bus, addr: Word)
    requires LatchAddress(b, addr).0 == Ok
    ensures Clean(b, 4) && !Rejected(StatusAt(b, 0))
    ensures LatchAddress(b, addr).1 == Latched(b, addr)
  {
    assert |b.trace| !in b.faults;
    var (s1, b1) := Write32(b, MSC_ADDRB, addr);
    assert |b.trace| + 1 !in b.faults;
    var (s2, b2) := SetRegBits(b1, MSC_WRITECMD, WRITECMD_LADDRIM, true);
    assert |b.trace| + 2 !in b.faults;
    assert |b.trace| + 3 !in b.faults;
    LatchClean(b, addr);
  }

  /** efr32x_erase_page; WREN must already be set by the caller. */
  function ErasePage(b: Bus, addr: Word): (r: (Status, Bus))
    ensures r.1.faults == b.faults && r.1.halted == b.halted && r.1.grants == b.grants
    ensures r.1.runs == b.runs && r.1.live == b.live
  {
    var (s, b1) := LatchAddress(b, addr);
    if s.Err? then (s, b1)
    else
      var (s2, b2) := SetRegBits(b1, MSC_WRITECMD, WRITECMD_ERASEPAGE, true);
      if s2.Err? then (s2, b2)
      else PollStatus(b2, ERASE_TMO, STATUS_BUSY, false)
  }

  /** A locked page or an invalid address ends erase_page right after the
      status read: no ERASEPAGE command is issued. */
  lemma ErasePageRejected(b: Bus, addr: Word)
    requires Clean(b, 4) && Rejected(StatusAt(b, 0))
    ensures ErasePage(b, addr).0 == Err(Fail)
    ensures ErasePage(b, addr).1.trace == b.trace + LatchEvents(addr)
  {
    LatchClean(b, addr);
  }

  /** The calls of a successful erase_page before it polls for BUSY. */
  function EraseEvents(addr: Word): seq<Event>
  {
    LatchEvents(addr) + [Read(MSC_WRITECMD, 32), Write(MSC_WRITECMD, WRITECMD_ERASEPAGE)]
  }

  /** The bus after a clean latch and ERASEPAGE read-modify-write. */
  function EraseIssued(b: Bus, addr: Word): Bus
  {
    b.(mem := b.mem[MSC_ADDRB := addr][MSC_WRITECMD := WRITECMD_ERASEPAGE],
       trace := b.trace + EraseEvents(addr), status := Drop(b.status, 1))
  }

  /** A successful erase_page got through its first six calls cleanly. */
  lemma ErasePageSplit(b: Bus, addr: Word)
    requires ErasePage(b, addr).0 == Ok
    ensures !Rejected(StatusAt(b, 0))
    ensures ErasePage(b, addr) == PollStatus(EraseIssued(b, addr), ERASE_TMO, STATUS_BUSY, false)
  {
    LatchOk(b, addr);
    EraseCommand(b, Latched(b, addr), addr);
  }

  /** The ERASEPAGE read-modify-write after a clean latch: WRITECMD reads
      as 0, so ERASEPAGE alone is written. */
  lemma EraseCommand(b: Bus, b1: Bus, addr: Word)
    requires b1 == Latched(b, addr)
    requires SetRegBits(b1, MSC_WRITECMD, WRITECMD_ERASEPAGE, true).0 == Ok
    ensures SetRegBits(b1, MSC_WRITECMD, WRITECMD_ERASEPAGE, true).1 == EraseIssued(b, addr)
  {
    assert WithBits(0, WRITECMD_ERASEPAGE, true) == WRITECMD_ERASEPAGE;
    assert b1.trace + [Read(MSC_WRITECMD, 32), Write(MSC_WRITECMD, WRITECMD_ERASEPAGE)] == b.trace + EraseEvents(addr);
  }

  /** The trace of an erase of `addr` whose BUSY poll ended on the n-th
      status read after the latch (feed index n; index 0 is the latch's). */
  predicate ErasedAfter(b: Bus, addr: Word, n: nat, t: seq<Event>)
  {
    1 <= n <= Budget(ERASE_TMO) &&
    t == b.trace + EraseEvents(addr) + Reads(MSC_STATUS, n) &&
    StatusAt(b, n) & STATUS_BUSY == 0 &&
    (forall j | 1 <= j < n :: StatusAt(b, j) & STATUS_BUSY != 0)
  }

  /** A successful erase: the latch was accepted, ERASEPAGE issued, and the
      status then polled until BUSY read clear, within the erase timeout. */
  lemma ErasePageOk(b: Bus, addr: Word)
    requires ErasePage(b, addr).0 == Ok
    ensures !Rejected(StatusAt(b, 0))
    ensures exists n: nat :: ErasedAfter(b, addr, n, ErasePage(b, addr).1.trace)
  {
    ErasePageSplit(b, addr);
    var b2 := EraseIssued(b, addr);
    PollOk(b2, ERASE_TMO, STATUS_BUSY, false);
    var r := PollStatus(b2, ERASE_TMO, STATUS_BUSY, false).1;
    var n: nat :| HitAt(b2, ERASE_TMO, STATUS_BUSY, false, n, r);
    ErasedFromHit(b, addr, n, r);
  }

  lemma ErasedFromHit(b: Bus, addr: Word, n: nat, r: Bus)
    requires HitAt(EraseIssued(b, addr), ERASE_TMO, STATUS_BUSY, false, n, r)
    ensures ErasedAfter(b, addr, n + 1, r.trace)
  {
    var b2 := EraseIssued(b, addr);
    StatusShift(b, 1, n);
    forall j | 1 <= j < n + 1
      ensures StatusAt(b, j) & STATUS_BUSY != 0
    {
      StatusShift(b, 1, j - 1);
      assert !Hit(StatusAt(b2, j - 1), STATUS_BUSY, false);
    }
  }

  /** The latch writes ADDRB once, with its address, whatever its outcome;
      apart from WRITECMD it writes no other register. */
  lemma LatchWrites(b: Bus, addr: Word, a: nat)
    requires a != MSC_WRITECMD
    ensures WritesTo(LatchAddress(b, addr).1.trace, a)
         == WritesTo(b.trace, a) + (if a == MSC_ADDRB then [addr] else [])
  {
    var (s1, b1) := Write32(b, MSC_ADDRB, addr);
    AppendOne(b.trace, Issued(b, Write(MSC_ADDRB, addr)), a);
    if s1.Ok? {
      LatchCheckWrites(b1, a);
    }
  }

  lemma LatchCheckWrites(b: Bus, a: nat)
    requires a != MSC_WRITECMD
    ensures WritesTo(LatchCheck(b).1.trace, a) == WritesTo(b.trace, a)
  {
    var (s2, b2) := SetRegBits(b, MSC_WRITECMD, WRITECMD_LADDRIM, true);
    SetRegBitsWrites(b, MSC_WRITECMD, WRITECMD_LADDRIM, true, a);
    if s2.Ok? {
      AppendOne(b2.trace, Issued(b2, Read(MSC_STATUS, 32)), a);
    }
  }

  /** Every erase_page writes ADDRB once, with its address, whatever its
      outcome; apart from WRITECMD it writes no other register. */
  lemma ErasePageWrites(b: Bus, addr: Word, a: nat)
    requires a != MSC_WRITECMD
    ensures WritesTo(ErasePage(b, addr).1.trace, a)
         == WritesTo(b.trace, a) + (if a == MSC_ADDRB then [addr] else [])
  {
    var (s, b1) := LatchAddress(b, addr);
    LatchWrites(b, addr, a);
    if s.Ok? {
      var (s2, b2) := SetRegBits(b1, MSC_WRITECMD, WRITECMD_ERASEPAGE, true);
      SetRegBitsWrites(b1, MSC_WRITECMD, WRITECMD_ERASEPAGE, true, a);
      if s2.Ok? {
        PollWrites(b2, ERASE_TMO, STATUS_BUSY, false, a);
      }
    }
  }

  /** Steps 4-7 of efr32x_write_word, after the address was latched: wait
      for WDATAREADY, write the data, write WRITEONCE straight to WRITECMD
      (no read-modify-write) and wait for BUSY to clear. */
  function WriteData(b: Bus, val: Word): (r: (Status, Bus))
    ensures r.1.faults == b.faults && r.1.halted == b.halted && r.1.grants == b.grants
    ensures r.1.runs == b.runs && r.1.live == b.live
  {
    var (s2, b2) := PollStatus(b, WDATAREADY_TMO, STATUS_WDATAREADY, true);
    if s2.Err? then (s2, b2)
    else
      var (s3, b3) := Write32(b2, MSC_WDATA, val);
      if s3.Err? then (s3, b3)
      else
        var (s4, b4) := Write32(b3, MSC_WRITECMD, WRITECMD_WRITEONCE);
        if s4.Err? then (s4, b4)
        else PollStatus(b4, WRITE_TMO, STATUS_BUSY, false)
  }

  /** efr32x_write_word: program one 32-bit word; WREN must already be set
      by the caller. */
  function WriteWord(b: Bus, addr: Word, val: Word): (r: (Status, Bus))
    ensures r.1.faults == b.faults && r.1.halted == b.halted && r.1.grants == b.grants
    ensures r.1.runs == b.runs && r.1.live == b.live
  {
    var (s, b1) := LatchAddress(b, addr);
    if s.Err? then (s, b1) else WriteData(b1, val)
  }

  /** A locked page or an invalid address ends write_word right after the
      status read: neither WDATA nor WRITEONCE is written. */
  lemma WriteWordRejected(b: Bus, addr: Word, val: Word)
    requires Clean(b, 4) && Rejected(StatusAt(b, 0))
    ensures WriteWord(b, addr, val).0 == Err(Fail)
    ensures WriteWord(b, addr, val).1.trace == b.trace + LatchEvents(addr)
  {
    LatchClean(b, addr);
  }

  /** The calls of a successful WriteData: n status reads of which only the
      last shows WDATAREADY, the data and the command, then m status reads
      of which only the last shows BUSY clear. */
  predicate DataWrittenAfter(b: Bus, val: Word, n: nat, m: nat, t: seq<Event>)
  {
    1 <= n <= Budget(WDATAREADY_TMO) && 1 <= m <= Budget(WRITE_TMO) &&
    t == b.trace + Reads(MSC_STATUS, n) +
         [Write(MSC_WDATA, val), Write(MSC_WRITECMD, WRITECMD_WRITEONCE)] + Reads(MSC_STATUS, m) &&
    StatusAt(b, n - 1) & STATUS_WDATAREADY != 0 &&
    (forall j | 0 <= j < n - 1 :: StatusAt(b, j) & STATUS_WDATAREADY == 0) &&
    StatusAt(b, n + m - 1) & STATUS_BUSY == 0 &&
    (forall j | n - 1 < j < n + m - 1 :: StatusAt(b, j) & STATUS_BUSY != 0)
  }

  /** The bus after a clean WDATAREADY poll of n reads and the two command
      writes. */
  function DataIssued(b: Bus, val: Word, n: nat): Bus
  {
    var b2 := Polled(b, n);
    b2.(mem := b2.mem[MSC_WDATA := val][MSC_WRITECMD := WRITECMD_WRITEONCE],
        trace := b2.trace + [Write(MSC_WDATA, val), Write(MSC_WRITECMD, WRITECMD_WRITEONCE)])
  }

  /** WriteData's WDATAREADY poll ended cleanly on its n-th read and the
      rest of the call is the final BUSY poll. */
  ghost predicate WaitedReady(b: Bus, val: Word, n: nat)
  {
    1 <= n && HitAt(b, WDATAREADY_TMO, STATUS_WDATAREADY, true, n - 1, Polled(b, n)) &&
    WriteData(b, val) == PollStatus(DataIssued(b, val, n), WRITE_TMO, STATUS_BUSY, false)
  }

  lemma WriteDataSplit(b: Bus, val: Word)
    requires WriteData(b, val).0 == Ok
    ensures exists n: nat :: WaitedReady(b, val, n)
  {
    var (s2, b2) := PollStatus(b, WDATAREADY_TMO, STATUS_WDATAREADY, true);
    PollOk(b, WDATAREADY_TMO, STATUS_WDATAREADY, true);
    var n: nat :| HitAt(b, WDATAREADY_TMO, STATUS_WDATAREADY, true, n, b2);
    var (s3, b3) := Write32(b2, MSC_WDATA, val);
    var (s4, b4) := Write32(b3, MSC_WRITECMD, WRITECMD_WRITEONCE);
    assert b4 == DataIssued(b, val, n + 1);
    assert WaitedReady(b, val, n + 1);
  }

  lemma BusyStatuses(b: Bus, val: Word, n: nat, m: nat, b': Bus)
    requires 1 <= m && HitAt(DataIssued(b, val, n), WRITE_TMO, STATUS_BUSY, false, m - 1, b')
    ensures StatusAt(b, n + m - 1) & STATUS_BUSY == 0
    ensures forall j | n - 1 < j < n + m - 1 :: StatusAt(b, j) & STATUS_BUSY != 0
  {
    var b4 := DataIssued(b, val, n);
    StatusShift(b, n, m - 1);
    forall j | n - 1 < j < n + m - 1
      ensures StatusAt(b, j) & STATUS_BUSY != 0
    {
      StatusShift(b, n, j - n);
      assert !Hit(StatusAt(b4, j - n), STATUS_BUSY, false);
    }
  }

  lemma WriteDataOk(b: Bus, val: Word)
    requires WriteData(b, val).0 == Ok
    ensures exists n: nat, m: nat :: DataWrittenAfter(b, val, n, m, WriteData(b, val).1.trace)
  {
    WriteDataSplit(b, val);
    var n: nat :| WaitedReady(b, val, n);
    var b4 := DataIssued(b, val, n);
    PollOk(b4, WRITE_TMO, STATUS_BUSY, false);
    var r := PollStatus(b4, WRITE_TMO, STATUS_BUSY, false).1;
    var m: nat :| HitAt(b4, WRITE_TMO, STATUS_BUSY, false, m, r);
    DataFromHits(b, val, n, m, r);
  }

  lemma DataFromHits(b: Bus, val: Word, n: nat, m: nat, r: Bus)
    requires 1 <= n && HitAt(b, WDATAREADY_TMO, STATUS_WDATAREADY, true, n - 1, Polled(b, n))
    requires HitAt(DataIssued(b, val, n), WRITE_TMO, STATUS_BUSY, false, m, r)
    ensures DataWrittenAfter(b, val, n, m + 1, r.trace)
  {
    BusyStatuses(b, val, n, m + 1, r);
  }

  /** The trace of a successful write_word: the latch, then n status reads
      of which only the last shows WDATAREADY, the data and the command,
      then m status reads of which only the last shows BUSY clear. */
  predicate WordWrittenAfter(b: Bus, addr: Word, val: Word, n: nat, m: nat, t: seq<Event>)
  {
    1 <= n <= Budget(WDATAREADY_TMO) && 1 <= m <= Budget(WRITE_TMO) &&
    t == b.trace + LatchEvents(addr) + Reads(MSC_STATUS, n) +
         [Write(MSC_WDATA, val), Write(MSC_WRITECMD, WRITECMD_WRITEONCE)] + Reads(MSC_STATUS, m) &&
    StatusAt(b, n) & STATUS_WDATAREADY != 0 &&
    (forall j | 1 <= j < n :: StatusAt(b, j) & STATUS_WDATAREADY == 0) &&
    StatusAt(b, n + m) & STATUS_BUSY == 0 &&
    (forall j | n < j < n + m :: StatusAt(b, j) & STATUS_BUSY != 0)
  }

  lemma DataToWord(b: Bus, b1: Bus, addr: Word, val: Word, n: nat, m: nat, t: seq<Event>)
    requires b1.trace == b.trace + LatchEvents(addr) && b1.status == Drop(b.status, 1)
    requires DataWrittenAfter(b1, val, n, m, t)
    ensures WordWrittenAfter(b, addr, val, n, m, t)
  {
    forall j | 1 <= j < n
      ensures StatusAt(b, j) & STATUS_WDATAREADY == 0
    {
      StatusShift(b, 1, j - 1);
      assert StatusAt(b1, j - 1) & STATUS_WDATAREADY == 0;
    }
    forall j | n < j < n + m
      ensures StatusAt(b, j) & STATUS_BUSY != 0
    {
      StatusShift(b, 1, j - 1);
      assert StatusAt(b1, j - 1) & STATUS_BUSY != 0;
    }
    StatusShift(b, 1, n - 1);
    StatusShift(b, 1, n + m - 1);
  }

  /** A successful write_word: the latch was accepted, WDATA was written
      only once WDATAREADY had been seen, and BUSY was then seen clear. */
  lemma WriteWordOk(b: Bus, addr: Word, val: Word)
    requires WriteWord(b, addr, val).0 == Ok
    ensures !Rejected(StatusAt(b, 0))
    ensures exists n: nat, m: nat :: WordWrittenAfter(b, addr, val, n, m, WriteWord(b, addr, val).1.trace)
  {
    LatchOk(b, addr);
    var b1 := Latched(b, addr);
    var t := WriteWord(b, addr, val).1.trace;
    assert WriteData(b1, val).0 == Ok && WriteData(b1, val).1.trace == t;
    WriteDataOk(b1, val);
    var n: nat, m: nat :| DataWrittenAfter(b1, val, n, m, t);
    DataToWord(b, b1, addr, val, n, m, t);
  }

  /** e is a WRITEONCE command that reached the MSC. */
  predicate Programs(e: Event)
  {
    e.Write? && e.addr == MSC_WRITECMD && e.value & WRITECMD_WRITEONCE != 0
  }

  /** The value of the last write to `a` that reached the target (0 when
      there is none). */
  function LastWrite(t: seq<Event>, a: nat): Word
  {
    if t == [] then 0
    else if t[|t| - 1].Write? && t[|t| - 1].addr == a then t[|t| - 1].value
    else LastWrite(t[..|t| - 1], a)
  }

  /** The flash words the MSC was commanded to program in t, in order: for
      each WRITEONCE command that reached it, the address then held in
      ADDRB and the data then held in WDATA. */
  function Commits(t: seq<Event>): seq<(Word, Word)>
  {
    if t == [] then []
    else
      var t' := t[..|t| - 1];
      Commits(t') + (if Programs(t[|t| - 1]) then [(LastWrite(t', MSC_ADDRB), LastWrite(t', MSC_WDATA))] else [])
  }

  lemma {:induction false} CommitsSkip(t: seq<Event>, s: seq<Event>)
    requires forall i | 0 <= i < |s| :: !Programs(s[i])
    ensures Commits(t + s) == Commits(t)
    decreases |s|
  {
    if s == [] {
      assert t + s == t;
    } else {
      var s' := s[..|s| - 1];
      assert (t + s)[..|t + s| - 1] == t + s';
      CommitsSkip(t, s');
    }
  }

  lemma {:induction false} LastWriteSkip(t: seq<Event>, s: seq<Event>, a: nat)
    requires forall i | 0 <= i < |s| :: !(s[i].Write? && s[i].addr == a)
    ensures LastWrite(t + s, a) == LastWrite(t, a)
    decreases |s|
  {
    if s == [] {
      assert t + s == t;
    } else {
      var s' := s[..|s| - 1];
      assert (t + s)[..|t + s| - 1] == t + s';
      LastWriteSkip(t, s', a);
    }
  }

  lemma CommitsStep(t: seq<Event>, e: Event)
    ensures Commits(t + [e]) ==
      Commits(t) + (if Programs(e) then [(LastWrite(t, MSC_ADDRB), LastWrite(t, MSC_WDATA))] else [])
    ensures forall a: nat :: LastWrite(t + [e], a) == if e.Write? && e.addr == a then e.value else LastWrite(t, a)
  {
    assert (t + [e])[..|t|] == t;
  }

  /** Status reads neither program nor change what ADDRB and WDATA hold. */
  lemma ReadsQuiet(t: seq<Event>, n: nat)
    ensures Commits(t + Reads(MSC_STATUS, n)) == Commits(t)
    ensures LastWrite(t + Reads(MSC_STATUS, n), MSC_ADDRB) == LastWrite(t, MSC_ADDRB)
    ensures LastWrite(t + Reads(MSC_STATUS, n), MSC_WDATA) == LastWrite(t, MSC_WDATA)
  {
    CommitsSkip(t, Reads(MSC_STATUS, n));
    LastWriteSkip(t, Reads(MSC_STATUS, n), MSC_ADDRB);
    LastWriteSkip(t, Reads(MSC_STATUS, n), MSC_WDATA);
  }

  /** The latch programs nothing and leaves its address in ADDRB. */
  lemma LatchCommitsNothing(tb: seq<Event>, addr: Word)
    ensures Commits(tb + LatchEvents(addr)) == Commits(tb)
    ensures LastWrite(tb + LatchEvents(addr), MSC_ADDRB) == addr
  {
    var l := LatchEvents(addr);
    var t1 := tb + [l[0]];
    var t2 := t1 + [l[1]];
    var t3 := t2 + [l[2]];
    CommitsStep(tb, l[0]);
    CommitsStep(t1, l[1]);
    CommitsStep(t2, l[2]);
    CommitsStep(t3, l[3]);
    assert t3 + [l[3]] == tb + l;
  }

  /** After a latch of `addr`, the data phase programs exactly `val` there. */
  lemma DataCommits(t: seq<Event>, addr: Word, val: Word, n: nat, m: nat)
    requires LastWrite(t, MSC_ADDRB) == addr
    ensures Commits(t + Reads(MSC_STATUS, n) +
      [Write(MSC_WDATA, val), Write(MSC_WRITECMD, WRITECMD_WRITEONCE)] + Reads(MSC_STATUS, m))
      == Commits(t) + [(addr, val)]
  {
    var t5 := t + Reads(MSC_STATUS, n);
    ReadsQuiet(t, n);
    var t7 := t5 + [Write(MSC_WDATA, val), Write(MSC_WRITECMD, WRITECMD_WRITEONCE)];
    ProgramOnce(t5, val);
    ReadsQuiet(t7, m);
  }

  /** A WDATA write followed by WRITEONCE programs that data at the address
      ADDRB holds. */
  lemma ProgramOnce(t: seq<Event>, val: Word)
    ensures Commits(t + [Write(MSC_WDATA, val), Write(MSC_WRITECMD, WRITECMD_WRITEONCE)])
      == Commits(t) + [(LastWrite(t, MSC_ADDRB), val)]
  {
    var t6 := t + [Write(MSC_WDATA, val)];
    CommitsStep(t, Write(MSC_WDATA, val));
    CommitsStep(t6, Write(MSC_WRITECMD, WRITECMD_WRITEONCE));
    assert t6 + [Write(MSC_WRITECMD, WRITECMD_WRITEONCE)]
        == t + [Write(MSC_WDATA, val), Write(MSC_WRITECMD, WRITECMD_WRITEONCE)];
  }

  /** A successful write_word commands the MSC to program exactly one word:
      `val` at `addr`. */
  lemma WriteWordCommits(b: Bus, addr: Word, val: Word)
    requires WriteWord(b, addr, val).0 == Ok
    ensures Commits(WriteWord(b, addr, val).1.trace) == Commits(b.trace) + [(addr, val)]
  {
    WriteWordOk(b, addr, val);
    var t := WriteWord(b, addr, val).1.trace;
    var n: nat, m: nat :| WordWrittenAfter(b, addr, val, n, m, t);
    LatchCommitsNothing(b.trace, addr);
    DataCommits(b.trace + LatchEvents(addr), addr, val, n, m);
  }

  /** A single call that is not a WRITEONCE command programs nothing, and
      leaves what ADDRB and WDATA hold unless it is a write to them. */
  lemma QuietStep(t: seq<Event>, e: Event)
    requires !Programs(e)
    ensures Commits(t + [e]) == Commits(t)
    ensures forall a: nat :: !(e.Write? && e.addr == a) ==> LastWrite(t + [e], a) == LastWrite(t, a)
  {
    CommitsStep(t, e);
  }

  /** set_reg_bits on a register other than WRITECMD, or setting a mask
      without WRITEONCE in WRITECMD (which reads as 0), programs nothing. */
  lemma SetRegBitsQuiet(b: Bus, reg: nat, mask: Word, on: bool, a: nat)
    requires reg != MSC_WRITECMD || mask & WRITECMD_WRITEONCE == 0
    requires a != reg
    ensures Commits(SetRegBits(b, reg, mask, on).1.trace) == Commits(b.trace)
    ensures LastWrite(SetRegBits(b, reg, mask, on).1.trace, a) == LastWrite(b.trace, a)
  {
    var t := SetRegBits(b, reg, mask, on).1.trace;
    if FaultsNext(b) {
      QuietStep(b.trace, Failed(Read(reg, 32)));
    } else {
      var t1 := b.trace + [Read(reg, 32)];
      QuietStep(b.trace, Read(reg, 32));
      var v := WithBits(Peek(b, reg), mask, on);
      assert reg == MSC_WRITECMD ==> v & WRITECMD_WRITEONCE == 0;
      var w := Write(reg, v);
      var e := if |b.trace| + 1 in b.faults then Failed(w) else w;
      assert t == t1 + [e];
      QuietStep(t1, e);
    }
  }

  /** wait_status programs nothing and changes no register's last write. */
  lemma PollQuiet(b: Bus, timeout: int, mask: Word, wantSet: bool)
    ensures Commits(PollStatus(b, timeout, mask, wantSet).1.trace) == Commits(b.trace)
    ensures forall a: nat :: LastWrite(PollStatus(b, timeout, mask, wantSet).1.trace, a) == LastWrite(b.trace, a)
  {
    var t := PollStatus(b, timeout, mask, wantSet).1.trace;
    PollTrace(b, timeout, mask, wantSet);
    var rest := t[|b.trace|..];
    assert t == b.trace + rest;
    forall i | 0 <= i < |rest|
      ensures !Programs(rest[i]) && !rest[i].Write?
    {
      assert Attempt(t[|b.trace| + i]) == Read(MSC_STATUS, 32);
    }
    CommitsSkip(b.trace, rest);
    forall a: nat
      ensures LastWrite(t, a) == LastWrite(b.trace, a)
    {
      LastWriteSkip(b.trace, rest, a);
    }
  }

  /** The latch programs nothing, whatever its outcome; when it succeeds
      ADDRB holds its address and WDATA is unchanged. */
  lemma LatchQuiet(b: Bus, addr: Word)
    ensures Commits(LatchAddress(b, addr).1.trace) == Commits(b.trace)
    ensures LatchAddress(b, addr).0 == Ok ==> LastWrite(LatchAddress(b, addr).1.trace, MSC_ADDRB) == addr
    ensures LatchAddress(b, addr).0 == Ok ==>
      LastWrite(LatchAddress(b, addr).1.trace, MSC_WDATA) == LastWrite(b.trace, MSC_WDATA)
  {
    var (s1, b1) := Write32(b, MSC_ADDRB, addr);
    CommitsStep(b.trace, Issued(b, Write(MSC_ADDRB, addr)));
    if s1.Ok? {
      LatchCheckQuiet(b1);
    }
  }

  lemma LatchCheckQuiet(b: Bus)
    ensures Commits(LatchCheck(b).1.trace) == Commits(b.trace)
    ensures LastWrite(LatchCheck(b).1.trace, MSC_ADDRB) == LastWrite(b.trace, MSC_ADDRB)
    ensures LastWrite(LatchCheck(b).1.trace, MSC_WDATA) == LastWrite(b.trace, MSC_WDATA)
  {
    var (s2, b2) := SetRegBits(b, MSC_WRITECMD, WRITECMD_LADDRIM, true);
    SetRegBitsQuiet(b, MSC_WRITECMD, WRITECMD_LADDRIM, true, MSC_ADDRB);
    SetRegBitsQuiet(b, MSC_WRITECMD, WRITECMD_LADDRIM, true, MSC_WDATA);
    if s2.Ok? {
      QuietStep(b2.trace, Issued(b2, Read(MSC_STATUS, 32)));
    }
  }

  /** The data phase programs nothing unless its WRITEONCE command reaches
      the MSC, and then exactly the word held in ADDRB with `val`. */
  lemma WriteDataPartial(b: Bus, val: Word)
    ensures var t := WriteData(b, val).1.trace;
      Commits(t) == Commits(b.trace) ||
      Commits(t) == Commits(b.trace) + [(LastWrite(b.trace, MSC_ADDRB), val)]
  {
    var (s2, b2) := PollStatus(b, WDATAREADY_TMO, STATUS_WDATAREADY, true);
    PollQuiet(b, WDATAREADY_TMO, STATUS_WDATAREADY, true);
    if s2.Ok? {
      var (s3, b3) := Write32(b2, MSC_WDATA, val);
      QuietStep(b2.trace, Issued(b2, Write(MSC_WDATA, val)));
      if s3.Ok? {
        var (s4, b4) := Write32(b3, MSC_WRITECMD, WRITECMD_WRITEONCE);
        CommitsStep(b3.trace, Issued(b3, Write(MSC_WRITECMD, WRITECMD_WRITEONCE)));
        if s4.Ok? {
          PollQuiet(b4, WRITE_TMO, STATUS_BUSY, false);
        }
      }
    }
  }

  /** Whatever its outcome, write_word commands the MSC to program at most
      one word, and that word is `val` at `addr`. */
  lemma WriteWordPartial(b: Bus, addr: Word, val: Word)
    ensures var t := WriteWord(b, addr, val).1.trace;
      Commits(t) == Commits(b.trace) || Commits(t) == Commits(b.trace) + [(addr, val)]
  {
    var (s, b1) := LatchAddress(b, addr);
    LatchQuiet(b, addr);
    if s.Ok? {
      WriteDataPartial(b1, val);
    }
  }

  /** Calls that write nothing program nothing and leave every register's
      last value alone. */
  lemma SilentCommits(t: seq<Event>, t': seq<Event>)
    requires SilentAfter(t, t')
    ensures Commits(t') == Commits(t)
    ensures forall a: nat :: LastWrite(t', a) == LastWrite(t, a)
  {
    var s := t'[|t|..];
    assert t' == t + s;
    forall i | 0 <= i < |s|
      ensures !Programs(s[i]) && !s[i].Write?
    {
      assert s[i] == t'[|t| + i];
    }
    CommitsSkip(t, s);
    forall a: nat
      ensures LastWrite(t', a) == LastWrite(t, a)
    {
      LastWriteSkip(t, s, a);
    }
  }

  /** The data phase writes WDATA and WRITECMD and no other register. */
  lemma WriteDataWrites(b: Bus, val: Word, a: nat)
    requires a != MSC_WDATA && a != MSC_WRITECMD
    ensures WritesTo(WriteData(b, val).1.trace, a) == WritesTo(b.trace, a)
  {
    var (s2, b2) := PollStatus(b, WDATAREADY_TMO, STATUS_WDATAREADY, true);
    PollWrites(b, WDATAREADY_TMO, STATUS_WDATAREADY, true, a);
    if s2.Ok? {
      var (s3, b3) := Write32(b2, MSC_WDATA, val);
      AppendOne(b2.trace, Issued(b2, Write(MSC_WDATA, val)), a);
      if s3.Ok? {
        var (s4, b4) := Write32(b3, MSC_WRITECMD, WRITECMD_WRITEONCE);
        AppendOne(b3.trace, Issued(b3, Write(MSC_WRITECMD, WRITECMD_WRITEONCE)), a);
        if s4.Ok? {
          PollWrites(b4, WRITE_TMO, STATUS_BUSY, false, a);
        }
      }
    }
  }

  /** write_word writes ADDRB once, with its address, whatever its outcome;
      apart from WRITECMD and WDATA it writes no other register. */
  lemma WriteWordWrites(b: Bus, addr: Word, val: Word, a: nat)
    requires a != MSC_WDATA && a != MSC_WRITECMD
    ensures WritesTo(WriteWord(b, addr, val).1.trace, a)
         == WritesTo(b.trace, a) + (if a == MSC_ADDRB then [addr] else [])
  {
    var (s, b1) := LatchAddress(b, addr);
    LatchWrites(b, addr, a);
    if s.Ok? {
      WriteDataWrites(b1, val, a);
    }
  }

  /** The prologue programs no flash word. */
  lemma UnlockQuiet(b: Bus)
    ensures Commits(Unlock(b).1.trace) == Commits(b.trace)
  {
    var b1 := MscLock(b, false).1;
    QuietStep(b.trace, Issued(b, Write(MSC_LOCK, MSC_LOCK_LOCKKEY)));
    SetRegBitsQuiet(b1, MSC_WRITECTRL, WRITECTRL_WREN, true, MSC_ADDRB);
  }

  /** The epilogue programs no flash word. */
  lemma RelockQuiet(b: Bus)
    ensures Commits(Relock(b).1.trace) == Commits(b.trace)
  {
    var b1 := SetWren(b, false).1;
    SetRegBitsQuiet(b, MSC_WRITECTRL, WRITECTRL_WREN, false, MSC_ADDRB);
    QuietStep(b1.trace, Issued(b1, Write(MSC_LOCK, 0)));
  }
}
