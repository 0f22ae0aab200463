/** The debug target as the driver sees it: a simulated memory system
    controller behind a transport that can fail. The target is a value, the
    `Bus`, threaded through every operation:

    - `mem` holds what reads return for ordinary registers and memory
      (device information, lock-bits page, WRITECTRL, ...); writes update it;
    - MSC_STATUS is not stored: successive successful reads of it return the
      successive values of the `status` feed (0 once it is exhausted);
    - MSC_WRITECMD is a command register and reads as 0;
    - `faults` decides which transport calls fail: the call issued when
      the trace has length k fails with `faults[k]` when k is a key;
    - `grants` answers working-area allocations in order (an exhausted
      oracle refuses), `runs` answers runs of the on-target loader;
    - `live` is the multiset of working-area addresses currently held;
    - `trace` records every call the driver issues, in order; a transport
      call that failed is recorded wrapped in `Failed`. */
module Target {
  import opened Efr32Defs

  /** Error codes the driver returns (the C ERROR_* values). `Transport`
      stands for any other code a transport call may return; `Aborted`
      stands for a failed C `assert`, which ends the process. */
  datatype Error =
    | Fail
    | NotHalted
    | ResourceNotAvailable
    | DstBreaksAlignment
    | BufTooSmall
    | OperationFailed
    | Aborted
    | Transport(code: int)

  datatype Status = Ok | Err(error: Error)

  datatype Result<T> = Success(value: T) | Failure(error: Error)

  datatype Option<T> = None | Some(value: T)

  /** What one run of the on-target loader reports: the run's status and the
      final values of r0 (the last MSC status seen) and r4 (flash address). */
  datatype RunReply = RunReply(status: Status, r0: Word, r4: Word)

  datatype Event =
    | Read(addr: nat, width: nat)
    | Write(addr: nat, value: Word)
    | WriteBuffer(addr: nat, size: nat)
    | Alloc(size: nat)
    | Free(addr: nat)
    | Run(entry: nat, ringStart: nat, ringSize: nat, regs: seq<Word>, blocks: nat, data: seq<Byte>)
      /** A transport call that returned an error. */
    | Failed(call: Event)

  datatype Bus = Bus(
    halted: bool,
    mem: map<nat, Word>,
    status: seq<Word>,
    faults: map<nat, Error>,
    grants: seq<Option<nat>>,
    runs: seq<RunReply>,
    live: multiset<nat>,
    trace: seq<Event>)

  /** What a read of an ordinary address returns. */
  function Cell(b: Bus, a: nat): Word
  {
    if a == MSC_WRITECMD then 0 else if a in b.mem then b.mem[a] else 0
  }

  /** The value the next successful read of MSC_STATUS returns. */
  function StatusNow(b: Bus): Word
  {
    if |b.status| > 0 then b.status[0] else 0
  }

  /** The i-th value (from now) of the status feed. */
  function StatusAt(b: Bus, i: nat): Word
  {
    if i < |b.status| then b.status[i] else 0
  }

  function Log(b: Bus, e: Event): Bus
  {
    b.(trace := b.trace + [e])
  }

  /** The transport call issued next fails. */
  predicate FaultsNext(b: Bus)
  {
    |b.trace| in b.faults
  }

  /** How the next transport call `e` is recorded. */
  function Issued(b: Bus, e: Event): Event
  {
    if FaultsNext(b) then Failed(e) else e
  }

  /** A read of `width` bits at `a`; the value is the low `width` bits. */
  function ReadAt(b: Bus, a: nat, width: nat): (r: (Result<Word>, Bus))
    ensures r.1.trace == b.trace + [Issued(b, Read(a, width))]
    ensures r.1.mem == b.mem && r.1.faults == b.faults && r.1.halted == b.halted
    ensures r.1.grants == b.grants && r.1.runs == b.runs && r.1.live == b.live
    ensures r.0.Failure? <==> FaultsNext(b)
  {
    var b1 := Log(b, Issued(b, Read(a, width)));
    if FaultsNext(b) then (Failure(b.faults[|b.trace|]), b1)
    else if a == MSC_STATUS then (Success(StatusNow(b)), b1.(status := if |b.status| > 0 then b.status[1..] else []))
    else
      var v := Cell(b, a);
      (Success(if width == 8 then v & 0xff else if width == 16 then v & 0xffff else v), b1)
  }

  function Read32(b: Bus, a: nat): (Result<Word>, Bus)
  {
    ReadAt(b, a, 32)
  }

  function Read16(b: Bus, a: nat): (r: (Result<nat>, Bus))
    ensures r.0.Success? ==> r.0.value < 0x1_0000
  {
    var (v, b1) := ReadAt(b, a, 16);
    if v.Failure? then (Failure(v.error), b1) else (Success(((v.value & 0xffff) as bv16) as int), b1)
  }

  function Read8(b: Bus, a: nat): (r: (Result<nat>, Bus))
    ensures r.0.Success? ==> r.0.value < 0x100
  {
    var (v, b1) := ReadAt(b, a, 8);
    if v.Failure? then (Failure(v.error), b1) else (Success(((v.value & 0xff) as bv8) as int), b1)
  }

  function Write32(b: Bus, a: nat, v: Word): (r: (Status, Bus))
    ensures r.1.trace == b.trace + [Issued(b, Write(a, v))]
    ensures r.1.status == b.status && r.1.faults == b.faults && r.1.halted == b.halted
    ensures r.1.grants == b.grants && r.1.runs == b.runs && r.1.live == b.live
    ensures r.0.Err? <==> FaultsNext(b)
  {
    var b1 := Log(b, Issued(b, Write(a, v)));
    if FaultsNext(b) then (Err(b.faults[|b.trace|]), b1) else (Ok, b1.(mem := b.mem[a := v]))
  }

  /** target_write_buffer: upload `size` bytes to target memory at `a`. */
  function WriteBuf(b: Bus, a: nat, size: nat): (r: (Status, Bus))
    ensures r.1.trace == b.trace + [Issued(b, WriteBuffer(a, size))]
    ensures r.1.live == b.live && r.1.grants == b.grants
    ensures r.0.Err? <==> FaultsNext(b)
  {
    var b1 := Log(b, Issued(b, WriteBuffer(a, size)));
    if FaultsNext(b) then (Err(b.faults[|b.trace|]), b1) else (Ok, b1)
  }

  /** target_alloc_working_area: answered by the next grant. */
  function AllocArea(b: Bus, size: nat): (r: (Option<nat>, Bus))
    ensures r.1.trace == b.trace + [Alloc(size)]
    ensures r.1.live == (if r.0.Some? then b.live + multiset{r.0.value} else b.live)
    ensures r.1.grants == (if |b.grants| > 0 then b.grants[1..] else [])
    ensures r.0 == (if |b.grants| > 0 then b.grants[0] else None)
    ensures r.1.runs == b.runs
  {
    var g := if |b.grants| > 0 then b.grants[0] else None;
    var b1 := Log(b, Alloc(size)).(grants := if |b.grants| > 0 then b.grants[1..] else []);
    if g.Some? then (g, b1.(live := b.live + multiset{g.value})) else (None, b1)
  }

  /** target_free_working_area. */
  function FreeArea(b: Bus, a: nat): (r: Bus)
    ensures r.trace == b.trace + [Free(a)]
    ensures r.live == b.live - multiset{a}
  {
    Log(b, Free(a)).(live := b.live - multiset{a})
  }

  /** target_run_flash_async_algorithm: answered by the next run reply (an
      exhausted oracle reports failure). */
  function RunLoader(b: Bus, entry: nat, ring: nat, ringSize: nat, regs: seq<Word>, blocks: nat, data: seq<Byte>): (r: (RunReply, Bus))
    ensures r.1.trace == b.trace + [Run(entry, ring, ringSize, regs, blocks, data)]
    ensures r.1.live == b.live
  {
    var reply := if |b.runs| > 0 then b.runs[0] else RunReply(Err(Fail), 0, 0);
    (reply, Log(b, Run(entry, ring, ringSize, regs, blocks, data)).(runs := if |b.runs| > 0 then b.runs[1..] else []))
  }

  /** What a read of `a` would return now. */
  function Peek(b: Bus, a: nat): Word
  {
    if a == MSC_STATUS then StatusNow(b) else Cell(b, a)
  }

  /** The next n transport calls succeed. */
  predicate Clean(b: Bus, n: nat)
  {
    forall k | k in b.faults :: k < |b.trace| || |b.trace| + n <= k
  }

  /** The call an event stands for, whether it succeeded or failed. */
  function Attempt(e: Event): Event
  {
    if e.Failed? then e.call else e
  }

  /** The values the driver tried to write to `a`, in order (a write the
      transport rejected included). */
  function WritesTo(t: seq<Event>, a: nat): (r: seq<Word>)
    ensures |r| <= |t|
  {
    if t == [] then []
    else
      var e := Attempt(t[|t| - 1]);
      WritesTo(t[..|t| - 1], a) + (if e.Write? && e.addr == a then [e.value] else [])
  }

  lemma {:induction false} WritesToAppend(t: seq<Event>, s: seq<Event>, a: nat)
    ensures WritesTo(t + s, a) == WritesTo(t, a) + WritesTo(s, a)
    decreases |s|
  {
    if s != [] {
      var s' := s[..|s| - 1];
      assert (t + s)[..|t + s| - 1] == t + s';
      WritesToAppend(t, s', a);
    } else {
      assert t + s == t;
    }
  }

  /** The status feed after n values have been consumed. */
  function Drop(s: seq<Word>, n: nat): seq<Word>
  {
    if n <= |s| then s[n..] else []
  }

  /** b' differs from b at most in its trace and its status feed. */
  predicate SameDevice(b: Bus, b': Bus)
  {
    b'.halted == b.halted && b'.mem == b.mem && b'.faults == b.faults &&
    b'.grants == b.grants && b'.runs == b.runs && b'.live == b.live
  }

  /** No call issued from position `from` of t on failed, except possibly
      the last one: a failure ends the operation. */
  predicate StopsAtFailure(t: seq<Event>, from: nat)
  {
    forall i | from <= i < |t| - 1 :: !t[i].Failed?
  }

  lemma StatusShift(b: Bus, k: nat, j: nat)
    ensures StatusAt(b.(status := Drop(b.status, k)), j) == StatusAt(b, k + j)
  {
  }

  /** e is a read or a write (successful or not) of one of `regs`. */
  predicate Touches(e: Event, regs: set<nat>)
  {
    var c := Attempt(e);
    (c.Read? || c.Write?) && c.addr in regs
  }

  /** e is a write (successful or not) to `a`. */
  predicate WritesAt(e: Event, a: nat)
  {
    Attempt(e).Write? && Attempt(e).addr == a
  }

  lemma {:induction false} NoWritesTo(t: seq<Event>, s: seq<Event>, a: nat)
    requires forall i | 0 <= i < |s| :: !WritesAt(s[i], a)
    ensures WritesTo(t + s, a) == WritesTo(t, a)
    decreases |s|
  {
    if s == [] {
      assert t + s == t;
    } else {
      var s' := s[..|s| - 1];
      assert (t + s)[..|t + s| - 1] == t + s';
      NoWritesTo(t, s', a);
    }
  }

  /** n successive 32-bit reads of address a. */
  function Reads(a: nat, n: nat): (r: seq<Event>)
    ensures |r| == n && forall i | 0 <= i < n :: r[i] == Read(a, 32)
  {
    if n == 0 then [] else Reads(a, n - 1) + [Read(a, 32)]
  }

  /** t' extends t with calls none of which is a write to a register or to
      memory (allocations, uploads, runs, frees and reads). */
  predicate SilentAfter(t: seq<Event>, t': seq<Event>)
  {
    |t| <= |t'| && t'[..|t|] == t && forall i | |t| <= i < |t'| :: !Attempt(t'[i]).Write?
  }

  lemma SilentStep(t: seq<Event>, t': seq<Event>, e: Event)
    requires SilentAfter(t, t') && !Attempt(e).Write?
    ensures SilentAfter(t, t' + [e])
  {
    assert (t' + [e])[..|t|] == t'[..|t|];
  }

  lemma SilentTrans(t: seq<Event>, t': seq<Event>, t'': seq<Event>)
    requires SilentAfter(t, t') && SilentAfter(t', t'')
    ensures SilentAfter(t, t'')
  {
    assert t''[..|t|] == t''[..|t'|][..|t|];
  }

  /** Calls that write nothing leave every register's write history alone. */
  lemma SilentWrites(t: seq<Event>, t': seq<Event>, a: nat)
    requires SilentAfter(t, t')
    ensures WritesTo(t', a) == WritesTo(t, a)
  {
    var s := t'[|t|..];
    assert t' == t + s;
    forall i | 0 <= i < |s|
      ensures !WritesAt(s[i], a)
    {
      assert s[i] == t'[|t| + i];
    }
    NoWritesTo(t, s, a);
  }
}
