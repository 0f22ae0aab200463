/** The flash loader efr32x_write_block runs on the target (the Thumb
    listing in its comments): unlock the MSC, set WREN, then drain the ring
    buffer word by word. Each word's flash address is latched into ADDRB,
    the word is written through WDATA with WRITEONCE, and the read pointer
    advances with a wrap to the start of the data area. The model runs the
    loader alone, on a snapshot of target RAM. The host's concurrent refill
    of the ring is not part of it. A write pointer that the loader catches
    up with is reported as Stalled (the real loader would wait for the
    host), and a wait that the supplied status reads never satisfy is
    reported as Hung. */
module Loader {
  import opened Efr32Defs
  import opened Target
  import opened Msc
  import BlockWrite

  const TWO32: nat := 0x1_0000_0000

  /** `a + k` in a 32-bit register. */
  function Reg(a: nat, k: nat): (r: nat)
    ensures r < TWO32
  {
    (a + k) % TWO32
  }

  /** The MSC register offsets the loader stores through r0, as its own
      defines give them. The loader's LOCK offset is 0x03c, and the host's
      MSC_LOCK is at 0x040. */
  const WRITECTRL_OFFSET: nat := 0x008
  const WRITECMD_OFFSET: nat := 0x00c
  const ADDRB_OFFSET: nat := 0x010
  const WDATA_OFFSET: nat := 0x018
  const STATUS_OFFSET: nat := 0x01c
  const LOCK_OFFSET_AS_WRITTEN: nat := 0x03c
  /** The offset of the MSC_LOCK register the host driver unlocks. */
  const LOCK_OFFSET: nat := 0x040

  /** With r0 bound to the MSC base, the offsets reach the host's registers,
      and the loader's own LOCK offset does not reach MSC_LOCK. */
  lemma OffsetsMatch()
    ensures Reg(MSC_REGBASE, WRITECTRL_OFFSET) == MSC_WRITECTRL
    ensures Reg(MSC_REGBASE, WRITECMD_OFFSET) == MSC_WRITECMD
    ensures Reg(MSC_REGBASE, ADDRB_OFFSET) == MSC_ADDRB
    ensures Reg(MSC_REGBASE, WDATA_OFFSET) == MSC_WDATA
    ensures Reg(MSC_REGBASE, STATUS_OFFSET) == MSC_STATUS
    ensures Reg(MSC_REGBASE, LOCK_OFFSET) == MSC_LOCK
    ensures Reg(MSC_REGBASE, LOCK_OFFSET_AS_WRITTEN) != MSC_LOCK
  {
  }

  /** A 32-bit word of target RAM; a word never stored reads as 0. */
  function Load(ram: map<nat, nat>, a: nat): (v: nat)
    ensures v < TWO32
  {
    if a in ram then ram[a] % TWO32 else 0
  }

  /** The loader's changing state: the count r1, the flash address r4,
      the read pointer r5, target RAM, the status words the MSC will
      return, and the MSC accesses made so far. */
  datatype Machine = Machine(r1: nat, r4: nat, r5: nat, ram: map<nat, nat>, feed: seq<Word>, io: seq<Event>)

  /** How the run ends: at `exit` because the count reached zero (Done)
      or the write pointer was zero (HostAbort); at `error` on a LOCKED or
      INVADDR status (Refused); or not at all (Stalled, Hung). */
  datatype Stop = Done | HostAbort | Refused | Stalled | Hung

  /** The end of a run: why, the final r0, and the state. */
  datatype Halt = Halt(stop: Stop, r0: Word, m: Machine)

  /** The MSC status word that makes the loader leave through `error`:
      `tst r6, #6`, LOCKED or INVADDR. */
  predicate Refuses(st: Word)
  {
    st & 6 != 0
  }

  lemma RefusesRejected(st: Word)
    requires Refuses(st)
    ensures Rejected(st)
  {
  }

  lemma AcceptsNotRejected(st: Word)
    requires !Refuses(st)
    ensures !Rejected(st)
  {
  }

  /** The prologue: LOCKKEY stored to the MSC lock register, then 1 (WREN)
      stored to WRITECTRL. This is the version with the host's MSC_LOCK
      offset; the run uses it. */
  function Prologue(r0: nat, m: Machine): (r: Machine)
    ensures r == m.(io := r.io)
  {
    m.(io := m.io + [Write(Reg(r0, LOCK_OFFSET), MSC_LOCK_LOCKKEY), Write(Reg(r0, WRITECTRL_OFFSET), WRITECTRL_WREN)])
  }

  /** The prologue as the listing encodes it (`str r6, [r0, #0x3c]`). */
  function PrologueAsWritten(r0: nat, m: Machine): (r: Machine)
    ensures r == m.(io := r.io)
  {
    m.(io := m.io + [Write(Reg(r0, LOCK_OFFSET_AS_WRITTEN), MSC_LOCK_LOCKKEY), Write(Reg(r0, WRITECTRL_OFFSET), WRITECTRL_WREN)])
  }

  /** As written, the loader's prologue never stores the key to the host's
      MSC_LOCK. Instead it stores it to the register at offset 0x3c. */
  lemma PrologueMissesLock(m: Machine)
    ensures WritesTo(PrologueAsWritten(MSC_REGBASE, m).io, MSC_LOCK) == WritesTo(m.io, MSC_LOCK)
    ensures WritesTo(PrologueAsWritten(MSC_REGBASE, m).io, MSC_REGBASE + LOCK_OFFSET_AS_WRITTEN)
         == WritesTo(m.io, MSC_REGBASE + LOCK_OFFSET_AS_WRITTEN) + [MSC_LOCK_LOCKKEY]
  {
    var e1 := Write(MSC_REGBASE + LOCK_OFFSET_AS_WRITTEN, MSC_LOCK_LOCKKEY);
    var e2 := Write(MSC_WRITECTRL, WRITECTRL_WREN);
    AppendOne(m.io, e1, MSC_LOCK);
    AppendOne(m.io + [e1], e2, MSC_LOCK);
    AppendOne(m.io, e1, MSC_REGBASE + LOCK_OFFSET_AS_WRITTEN);
    AppendOne(m.io + [e1], e2, MSC_REGBASE + LOCK_OFFSET_AS_WRITTEN);
    assert m.io + [e1] + [e2] == PrologueAsWritten(MSC_REGBASE, m).io;
  }

  /** The corrected prologue unlocks the MSC through MSC_LOCK with the key,
      then sets WREN, and writes no other register. */
  lemma PrologueUnlocks(m: Machine, a: nat)
    ensures WritesTo(Prologue(MSC_REGBASE, m).io, a) == WritesTo(m.io, a) +
      (if a == MSC_LOCK then [MSC_LOCK_LOCKKEY] else []) + (if a == MSC_WRITECTRL then [WRITECTRL_WREN] else [])
    ensures Commits(Prologue(MSC_REGBASE, m).io) == Commits(m.io)
  {
    var e1 := Write(MSC_LOCK, MSC_LOCK_LOCKKEY);
    var e2 := Write(MSC_WRITECTRL, WRITECTRL_WREN);
    AppendOne(m.io, e1, a);
    AppendOne(m.io + [e1], e2, a);
    QuietStep(m.io, e1);
    QuietStep(m.io + [e1], e2);
    assert m.io + [e1] + [e2] == Prologue(MSC_REGBASE, m).io;
  }

  /** A busy-wait on the MSC status (`wait_wdataready`, `busy`): read the
      status until the condition holds; None when the supplied reads run out
      first. */
  function Spin(r0: nat, m: Machine, mask: Word, wantSet: bool): (r: (Option<Word>, Machine))
    ensures r.1 == m.(feed := r.1.feed, io := r.1.io)
    ensures |r.1.feed| <= |m.feed|
    decreases |m.feed|
  {
    if m.feed == [] then (None, m)
    else
      var st := m.feed[0];
      var m1 := m.(feed := m.feed[1..], io := m.io + [Read(Reg(r0, STATUS_OFFSET), 32)]);
      if Hit(st, mask, wantSet) then (Some(st), m1) else Spin(r0, m1, mask, wantSet)
  }

  /** A busy-wait reads the status k times, and only the k-th read (if it
      completes) meets the condition; with no hit it reads every supplied
      status. */
  lemma {:induction false} SpinTrace(r0: nat, m: Machine, mask: Word, wantSet: bool) returns (k: nat)
    ensures k <= |m.feed|
    ensures Spin(r0, m, mask, wantSet).1 == m.(feed := m.feed[k..], io := m.io + Reads(Reg(r0, STATUS_OFFSET), k))
    ensures forall j | 0 <= j < k - 1 :: !Hit(m.feed[j], mask, wantSet)
    ensures Spin(r0, m, mask, wantSet).0.Some? ==>
      k >= 1 && Hit(m.feed[k - 1], mask, wantSet) && Spin(r0, m, mask, wantSet).0.value == m.feed[k - 1]
    ensures Spin(r0, m, mask, wantSet).0.None? ==> k == |m.feed| && (k == 0 || !Hit(m.feed[k - 1], mask, wantSet))
    decreases |m.feed|
  {
    if m.feed == [] {
      k := 0;
    } else {
      var st := m.feed[0];
      var a := Reg(r0, STATUS_OFFSET);
      var m1 := m.(feed := m.feed[1..], io := m.io + [Read(a, 32)]);
      if Hit(st, mask, wantSet) {
        k := 1;
        assert Reads(a, 1) == [Read(a, 32)];
      } else {
        var j := SpinTrace(r0, m1, mask, wantSet);
        k := j + 1;
        ReadsFront(m.io, a, j);
        assert m.feed[1..][j..] == m.feed[k..];
        forall i | 0 <= i < k - 1
          ensures !Hit(m.feed[i], mask, wantSet)
        {
          if i > 0 {
            assert m.feed[i] == m1.feed[i - 1];
          }
        }
      }
    }
  }

  lemma ReadsFront(t: seq<Event>, a: nat, k: nat)
    ensures t + [Read(a, 32)] + Reads(a, k) == t + Reads(a, k + 1)
  {
    assert [Read(a, 32)] + Reads(a, k) == Reads(a, k + 1);
  }

  /** The read pointer after one word: `adds r5, #4`, and back to r2 + 8
      (`mov r5, r2; adds r5, #8`) once it reaches r3 (the `bcc` is an
      unsigned comparison). */
  function Next(r2: nat, r3: nat, p: nat): (q: nat)
    ensures q < TWO32
  {
    if Reg(p, 4) >= r3 then Reg(r2, 8) else Reg(p, 4)
  }

  /** The loop from `wait_fifo`: stop on a zero write pointer, stall when
      the read pointer equals it, else latch the flash address and program
      the word at the read pointer. */
  function Drain(r0: nat, r2: nat, r3: nat, m: Machine): (h: Halt)
    decreases |m.feed|, 1
  {
    var wp := Load(m.ram, r2);
    if wp == 0 then Halt(HostAbort, 0, m)
    else
      var rp := Load(m.ram, Reg(r2, 4));
      if rp == wp then Halt(Stalled, AsWord(r0), m.(r5 := rp))
      else Program(r0, r2, r3, m.(r5 := rp, io := m.io + [Write(Reg(r0, ADDRB_OFFSET), AsWord(m.r4)),
                                                         Write(Reg(r0, WRITECMD_OFFSET), WRITECMD_LADDRIM)]))
  }

  /** From the status check after LADDRIM: on LOCKED or INVADDR clear the
      read-pointer word (telling the host) and stop; else wait for
      WDATAREADY. */
  function Program(r0: nat, r2: nat, r3: nat, m: Machine): (h: Halt)
    decreases |m.feed|, 0
  {
    if m.feed == [] then Halt(Hung, AsWord(r0), m)
    else
      var st := m.feed[0];
      var m1 := m.(feed := m.feed[1..], io := m.io + [Read(Reg(r0, STATUS_OFFSET), 32)]);
      if Refuses(st) then Halt(Refused, st, m1.(ram := m1.ram[Reg(r2, 4) := 0]))
      else
        var (ready, m2) := Spin(r0, m1, STATUS_WDATAREADY, true);
        Ready(r0, r2, r3, ready, m2)
  }

  /** Once WDATAREADY was seen: write the word at the read pointer to
      WDATA and WRITEONCE to WRITECMD, step r5 and r4 by 4, and wait for
      BUSY to clear. */
  function Ready(r0: nat, r2: nat, r3: nat, ready: Option<Word>, m: Machine): (h: Halt)
    decreases |m.feed|, 3
  {
    if ready.None? then Halt(Hung, AsWord(r0), m)
    else
      var m3 := m.(io := m.io + [Write(Reg(r0, WDATA_OFFSET), AsWord(Load(m.ram, m.r5))),
                                 Write(Reg(r0, WRITECMD_OFFSET), WRITECMD_WRITEONCE)],
                   r5 := Reg(m.r5, 4), r4 := Reg(m.r4, 4));
      var (idle, m4) := Spin(r0, m3, STATUS_BUSY, false);
      Advance(r0, r2, r3, idle, m4)
  }

  /** Once BUSY cleared: wrap r5 to r2 + 8 at r3, publish it in the
      read-pointer word, count r1 down and leave at zero. */
  function Advance(r0: nat, r2: nat, r3: nat, idle: Option<Word>, m: Machine): (h: Halt)
    decreases |m.feed|, 2
  {
    if idle.None? then Halt(Hung, AsWord(r0), m)
    else
      var p := if m.r5 >= r3 then Reg(r2, 8) else m.r5;
      var m5 := m.(r5 := p, ram := m.ram[Reg(r2, 4) := p], r1 := (m.r1 - 1) % TWO32);
      if m5.r1 == 0 then Halt(Done, idle.value, m5) else Drain(r0, r2, r3, m5)
  }

  /** The whole loader run on the registers efr32x_write_block binds (r0
      the MSC base, r1 the count, r2 and r3 the ring, r4 the flash address). */
  function LoaderRun(r0: nat, r1: nat, r2: nat, r3: nat, r4: nat, ram: map<nat, nat>, feed: seq<Word>): Halt
  {
    Drain(r0, r2, r3, Prologue(r0, Machine(r1, r4, 0, ram, feed, [])))
  }

  /** The `wait_wdataready` and `busy` loops. */
  method SpinWait(r0: nat, m: Machine, mask: Word, wantSet: bool) returns (st: Option<Word>, m': Machine)
    ensures (st, m') == Spin(r0, m, mask, wantSet)
  {
    m' := m;
    while m'.feed != []
      invariant Spin(r0, m', mask, wantSet) == Spin(r0, m, mask, wantSet)
      decreases |m'.feed|
    {
      var v := m'.feed[0];
      m' := m'.(feed := m'.feed[1..], io := m'.io + [Read(Reg(r0, STATUS_OFFSET), 32)]);
      if Hit(v, mask, wantSet) {
        return Some(v), m';
      }
    }
    return None, m';
  }

  /** The drain loop from `wait_fifo` to `exit`. */
  method Run(r0: nat, r2: nat, r3: nat, m0: Machine) returns (h: Halt)
    ensures h == Drain(r0, r2, r3, m0)
  {
    var m := m0;
    while true
      invariant Drain(r0, r2, r3, m) == Drain(r0, r2, r3, m0)
      decreases |m.feed|
    {
      var wp := Load(m.ram, r2);
      if wp == 0 {
        return Halt(HostAbort, 0, m);
      }
      var rp := Load(m.ram, Reg(r2, 4));
      if rp == wp {
        return Halt(Stalled, AsWord(r0), m.(r5 := rp));
      }
      m := m.(r5 := rp, io := m.io + [Write(Reg(r0, ADDRB_OFFSET), AsWord(m.r4)),
                                      Write(Reg(r0, WRITECMD_OFFSET), WRITECMD_LADDRIM)]);
      ghost var latched := m;
      assert Drain(r0, r2, r3, m0) == Program(r0, r2, r3, latched);
      if m.feed == [] {
        return Halt(Hung, AsWord(r0), m);
      }
      var st := m.feed[0];
      m := m.(feed := m.feed[1..], io := m.io + [Read(Reg(r0, STATUS_OFFSET), 32)]);
      if Refuses(st) {
        return Halt(Refused, st, m.(ram := m.ram[Reg(r2, 4) := 0]));
      }
      var ready;
      ready, m := SpinWait(r0, m, STATUS_WDATAREADY, true);
      assert Program(r0, r2, r3, latched) == Ready(r0, r2, r3, ready, m);
      ghost var waited := m;
      if ready.None? {
        return Halt(Hung, AsWord(r0), m);
      }
      m := m.(io := m.io + [Write(Reg(r0, WDATA_OFFSET), AsWord(Load(m.ram, m.r5))),
                            Write(Reg(r0, WRITECMD_OFFSET), WRITECMD_WRITEONCE)],
              r5 := Reg(m.r5, 4), r4 := Reg(m.r4, 4));
      var idle;
      idle, m := SpinWait(r0, m, STATUS_BUSY, false);
      assert Ready(r0, r2, r3, ready, waited) == Advance(r0, r2, r3, idle, m);
      ghost var idled := m;
      if idle.None? {
        return Halt(Hung, AsWord(r0), m);
      }
      var p := if m.r5 >= r3 then Reg(r2, 8) else m.r5;
      m := m.(r5 := p, ram := m.ram[Reg(r2, 4) := p], r1 := (m.r1 - 1) % TWO32);
      if m.r1 == 0 {
        return Halt(Done, idle.value, m);
      }
      assert Advance(r0, r2, r3, idle, idled) == Drain(r0, r2, r3, m);
    }
  }

  /** The ring efr32x_write_block hands over: word-aligned, with room for
      the write and read pointers and at least one data word, inside the
      32-bit address space. */
  predicate RingOk(r2: nat, r3: nat)
  {
    r2 % 4 == 0 && r3 % 4 == 0 && r2 + 8 < r3 < TWO32
  }

  /** A read pointer into the data area of the ring. */
  predicate InRing(r2: nat, r3: nat, p: nat)
  {
    r2 + 8 <= p < r3 && p % 4 == 0
  }

  /** The registers the loader counts in hold 32-bit values. */
  predicate Regs32(m: Machine)
  {
    m.r1 < TWO32 && m.r4 < TWO32
  }

  /** The read pointer never leaves the data area: it steps by 4 and wraps
      to r2 + 8 at the end, without 32-bit overflow. */
  lemma NextInRing(r2: nat, r3: nat, p: nat)
    requires RingOk(r2, r3) && InRing(r2, r3, p)
    ensures InRing(r2, r3, Next(r2, r3, p))
    ensures Next(r2, r3, p) == if p + 4 >= r3 then r2 + 8 else p + 4
  {
  }

  /** The read pointer after k words from p. */
  function Pos(r2: nat, r3: nat, p: nat, k: nat): nat
  {
    if k == 0 then p else Next(r2, r3, Pos(r2, r3, p, k - 1))
  }

  lemma {:induction false} PosInRing(r2: nat, r3: nat, p: nat, k: nat)
    requires RingOk(r2, r3) && InRing(r2, r3, p)
    ensures InRing(r2, r3, Pos(r2, r3, p, k))
  {
    if k > 0 {
      PosInRing(r2, r3, p, k - 1);
      NextInRing(r2, r3, Pos(r2, r3, p, k - 1));
    }
  }

  lemma {:induction false} PosShift(r2: nat, r3: nat, p: nat, k: nat)
    ensures Pos(r2, r3, Next(r2, r3, p), k) == Pos(r2, r3, p, k + 1)
  {
    if k > 0 {
      PosShift(r2, r3, p, k - 1);
    }
  }

  /** The (flash address, data word) pairs of n words drained from read
      pointer p, programming from flash address a on. */
  function Stream(ram: map<nat, nat>, r2: nat, r3: nat, a: nat, p: nat, n: nat): (s: seq<(Word, Word)>)
    ensures |s| == n
    decreases n
  {
    if n == 0 then []
    else [(AsWord(a), AsWord(Load(ram, p)))] + Stream(ram, r2, r3, Reg(a, 4), Next(r2, r3, p), n - 1)
  }

  lemma AddrStep(a: nat, k: nat)
    ensures (Reg(a, 4) + 4 * k) % TWO32 == (a + 4 * (k + 1)) % TWO32
  {
    var q := (a + 4) / TWO32;
    assert Reg(a, 4) == a + 4 - q * TWO32;
    assert Reg(a, 4) + 4 * k == a + 4 * (k + 1) - q * TWO32;
  }

  lemma AsWordSame(x: int, y: int)
    requires x % TWO32 == y % TWO32
    ensures AsWord(x) == AsWord(y)
  {
  }

  /** The address programmed k words on from a is the one k - 1 words on
      from a + 4, modulo 2^32. */
  lemma AddrWord(a: nat, k: nat)
    requires k > 0
    ensures AsWord(Reg(a, 4) + 4 * (k - 1)) == AsWord(a + 4 * k)
  {
    AddrStep(a, k - 1);
    AsWordSame(Reg(a, 4) + 4 * (k - 1), a + 4 * k);
  }

  lemma StreamHead(ram: map<nat, nat>, r2: nat, r3: nat, a: nat, p: nat, n: nat)
    requires 0 < n
    ensures Stream(ram, r2, r3, a, p, n)[0] == (AsWord(a), AsWord(Load(ram, p)))
    ensures Pos(r2, r3, p, 0) == p && a + 4 * 0 == a
  {
  }

  lemma LoadSame(ram: map<nat, nat>, x: nat, y: nat)
    requires x == y
    ensures AsWord(Load(ram, x)) == AsWord(Load(ram, y))
  {
  }

  lemma StreamTail(ram: map<nat, nat>, r2: nat, r3: nat, a: nat, p: nat, n: nat, k: nat)
    requires 0 < k < n
    ensures Stream(ram, r2, r3, a, p, n)[k] == Stream(ram, r2, r3, Reg(a, 4), Next(r2, r3, p), n - 1)[k - 1]
  {
  }

  /** Word k of the stream is the ring word k steps on from p, programmed
      at a + 4k (modulo 2^32). */
  lemma StreamAt(ram: map<nat, nat>, r2: nat, r3: nat, a: nat, p: nat, n: nat, k: nat)
    requires k < n
    ensures Stream(ram, r2, r3, a, p, n)[k].0 == AsWord(a + 4 * k)
    ensures Stream(ram, r2, r3, a, p, n)[k].1 == AsWord(Load(ram, Pos(r2, r3, p, k)))
  {
    StreamAddrAt(ram, r2, r3, a, p, n, k);
    StreamWordAt(ram, r2, r3, a, p, n, k);
  }

  lemma {:induction false} StreamAddrAt(ram: map<nat, nat>, r2: nat, r3: nat, a: nat, p: nat, n: nat, k: nat)
    requires k < n
    ensures Stream(ram, r2, r3, a, p, n)[k].0 == AsWord(a + 4 * k)
    decreases n
  {
    if k == 0 {
      StreamHead(ram, r2, r3, a, p, n);
    } else {
      StreamAddrAt(ram, r2, r3, Reg(a, 4), Next(r2, r3, p), n - 1, k - 1);
      StreamAddrStep(ram, r2, r3, a, p, n, k);
    }
  }

  lemma StreamAddrStep(ram: map<nat, nat>, r2: nat, r3: nat, a: nat, p: nat, n: nat, k: nat)
    requires 0 < k < n
    requires Stream(ram, r2, r3, Reg(a, 4), Next(r2, r3, p), n - 1)[k - 1].0 == AsWord(Reg(a, 4) + 4 * (k - 1))
    ensures Stream(ram, r2, r3, a, p, n)[k].0 == AsWord(a + 4 * k)
  {
    StreamTail(ram, r2, r3, a, p, n, k);
    AddrWord(a, k);
  }

  lemma {:induction false} StreamWordAt(ram: map<nat, nat>, r2: nat, r3: nat, a: nat, p: nat, n: nat, k: nat)
    requires k < n
    ensures Stream(ram, r2, r3, a, p, n)[k].1 == AsWord(Load(ram, Pos(r2, r3, p, k)))
    decreases n
  {
    if k == 0 {
      StreamHead(ram, r2, r3, a, p, n);
    } else {
      StreamWordAt(ram, r2, r3, Reg(a, 4), Next(r2, r3, p), n - 1, k - 1);
      StreamWordStep(ram, r2, r3, a, p, n, k);
    }
  }

  lemma StreamWordStep(ram: map<nat, nat>, r2: nat, r3: nat, a: nat, p: nat, n: nat, k: nat)
    requires 0 < k < n
    requires Stream(ram, r2, r3, Reg(a, 4), Next(r2, r3, p), n - 1)[k - 1].1 ==
      AsWord(Load(ram, Pos(r2, r3, Next(r2, r3, p), k - 1)))
    ensures Stream(ram, r2, r3, a, p, n)[k].1 == AsWord(Load(ram, Pos(r2, r3, p, k)))
  {
    StreamTail(ram, r2, r3, a, p, n, k);
    PosShift(r2, r3, p, k - 1);
    LoadSame(ram, Pos(r2, r3, Next(r2, r3, p), k - 1), Pos(r2, r3, p, k));
  }

  lemma LoadFrame(ram: map<nat, nat>, a: nat, x: nat, b: nat)
    requires a != b
    ensures Load(ram[a := x], b) == Load(ram, b)
  {
  }

  /** Storing the read pointer does not change the data words drained. */
  lemma {:induction false} StreamFrame(ram: map<nat, nat>, x: nat, r2: nat, r3: nat, a: nat, p: nat, n: nat)
    requires RingOk(r2, r3) && InRing(r2, r3, p)
    ensures Stream(ram[Reg(r2, 4) := x], r2, r3, a, p, n) == Stream(ram, r2, r3, a, p, n)
    decreases n
  {
    if n > 0 {
      assert Reg(r2, 4) == r2 + 4;
      LoadFrame(ram, Reg(r2, 4), x, p);
      NextInRing(r2, r3, p);
      StreamFrame(ram, x, r2, r3, Reg(a, 4), Next(r2, r3, p), n - 1);
    }
  }

  /** What a drain from state m that consumed n words leaves in h, in
      four parts: the registers, the words programmed, RAM, and why it
      stopped. */
  ghost predicate Drained(r2: nat, r3: nat, m: Machine, h: Halt, n: nat)
  {
    DrainedRegs(m, h, n) && DrainedCommits(r2, r3, m, h, n) &&
    DrainedRam(r2, r3, m, h, n) && DrainedStops(r2, r3, m, h, n)
  }

  /** r1 counted down by n (modulo 2^32), and r4 stepped by 4n unless the
      run hung; Done only once n matches the count modulo 2^32. */
  ghost predicate DrainedRegs(m: Machine, h: Halt, n: nat)
  {
    h.m.r1 == (m.r1 - n) % TWO32 &&
    (h.stop != Hung ==> h.m.r4 == (m.r4 + 4 * n) % TWO32) &&
    (h.stop == Done ==> (m.r1 - n) % TWO32 == 0)
  }

  /** The MSC was commanded to program exactly the n words of the stream,
      in order, or, for a run that hung waiting for BUSY, possibly one
      more. */
  ghost predicate DrainedCommits(r2: nat, r3: nat, m: Machine, h: Halt, n: nat)
  {
    var s := Stream(m.ram, r2, r3, m.r4, Load(m.ram, Reg(r2, 4)), n);
    (h.stop != Hung ==> Commits(h.m.io) == Commits(m.io) + s) &&
    (h.stop == Hung ==>
       Commits(h.m.io) == Commits(m.io) + s ||
       Commits(h.m.io) == Commits(m.io) + Stream(m.ram, r2, r3, m.r4, Load(m.ram, Reg(r2, 4)), n + 1))
  }

  /** No RAM word changed but the read-pointer word, which holds the read
      pointer n words on, or 0 after a refused word. */
  ghost predicate DrainedRam(r2: nat, r3: nat, m: Machine, h: Halt, n: nat)
  {
    (forall a | a != Reg(r2, 4) :: Load(h.m.ram, a) == Load(m.ram, a)) &&
    (h.stop == Refused ==> Load(h.m.ram, Reg(r2, 4)) == 0) &&
    (h.stop != Refused ==> Load(h.m.ram, Reg(r2, 4)) == Pos(r2, r3, Load(m.ram, Reg(r2, 4)), n))
  }

  /** A refused word stopped on a LOCKED or INVADDR status; a zero write
      pointer, and only that, gives HostAbort; a stall happens where the
      read pointer meets the write pointer, and no word at the write
      pointer is ever drained. */
  ghost predicate DrainedStops(r2: nat, r3: nat, m: Machine, h: Halt, n: nat)
  {
    var wp := Load(m.ram, r2);
    (h.stop == Refused ==> Rejected(h.r0)) &&
    (h.stop == HostAbort <==> wp == 0) &&
    (h.stop == Stalled ==> Pos(r2, r3, Load(m.ram, Reg(r2, 4)), n) == wp) &&
    (forall j | 0 <= j < n :: Pos(r2, r3, Load(m.ram, Reg(r2, 4)), j) != wp)
  }

  lemma CountStep(a: int, n: nat)
    ensures ((a - 1) % TWO32 - n) % TWO32 == (a - (n + 1)) % TWO32
  {
    var q := (a - 1) / TWO32;
    assert (a - 1) % TWO32 == a - 1 - q * TWO32;
    assert (a - 1) % TWO32 - n == a - (n + 1) - q * TWO32;
  }

  /** The latch stores program nothing and leave the flash address in ADDRB. */
  lemma LatchIo(t: seq<Event>, a: Word)
    ensures Commits(t + [Write(MSC_ADDRB, a), Write(MSC_WRITECMD, WRITECMD_LADDRIM)]) == Commits(t)
    ensures LastWrite(t + [Write(MSC_ADDRB, a), Write(MSC_WRITECMD, WRITECMD_LADDRIM)], MSC_ADDRB) == a
  {
    var t1 := t + [Write(MSC_ADDRB, a)];
    CommitsStep(t, Write(MSC_ADDRB, a));
    CommitsStep(t1, Write(MSC_WRITECMD, WRITECMD_LADDRIM));
    assert t1 + [Write(MSC_WRITECMD, WRITECMD_LADDRIM)] == t + [Write(MSC_ADDRB, a), Write(MSC_WRITECMD, WRITECMD_LADDRIM)];
  }

  /** The facts one drained word establishes between the state m at
      `wait_fifo` and the state m5 at the next `wait_fifo`. */
  ghost predicate OneWord(r2: nat, r3: nat, m: Machine, m5: Machine)
  {
    var p0 := Load(m.ram, Reg(r2, 4));
    RingOk(r2, r3) && InRing(r2, r3, p0) && Regs32(m) &&
    Load(m.ram, r2) != 0 && p0 != Load(m.ram, r2) &&
    m5.ram == m.ram[Reg(r2, 4) := Next(r2, r3, p0)] &&
    m5.r4 == Reg(m.r4, 4) && m5.r1 == (m.r1 - 1) % TWO32 &&
    Commits(m5.io) == Commits(m.io) + [(AsWord(m.r4), AsWord(Load(m.ram, p0)))]
  }

  lemma ConsRegs(m: Machine, m5: Machine, h: Halt, n: nat)
    requires Regs32(m) && m5.r4 == Reg(m.r4, 4) && m5.r1 == (m.r1 - 1) % TWO32
    requires DrainedRegs(m5, h, n)
    ensures DrainedRegs(m, h, n + 1)
  {
    CountStep(m.r1, n);
    AddrStep(m.r4, n);
  }

  lemma PointerStored(r2: nat, r3: nat, m: Machine, m5: Machine)
    requires OneWord(r2, r3, m, m5)
    ensures Load(m5.ram, Reg(r2, 4)) == Next(r2, r3, Load(m.ram, Reg(r2, 4)))
    ensures InRing(r2, r3, Load(m5.ram, Reg(r2, 4)))
    ensures Load(m5.ram, r2) == Load(m.ram, r2)
    ensures forall a | a != Reg(r2, 4) :: Load(m5.ram, a) == Load(m.ram, a)
  {
    NextInRing(r2, r3, Load(m.ram, Reg(r2, 4)));
  }

  lemma ConsCommits(r2: nat, r3: nat, m: Machine, m5: Machine, h: Halt, n: nat)
    requires OneWord(r2, r3, m, m5)
    requires DrainedCommits(r2, r3, m5, h, n)
    ensures DrainedCommits(r2, r3, m, h, n + 1)
  {
    var p0 := Load(m.ram, Reg(r2, 4));
    var p1 := Next(r2, r3, p0);
    PointerStored(r2, r3, m, m5);
    NextInRing(r2, r3, p0);
    var w := (AsWord(m.r4), AsWord(Load(m.ram, p0)));
    StreamCons(m.ram, p1, r2, r3, m.r4, p0, n, w);
    StreamCons(m.ram, p1, r2, r3, m.r4, p0, n + 1, w);
    CommitsCons(Commits(h.m.io), Commits(m5.io), Commits(m.io), w,
      Stream(m.ram, r2, r3, Reg(m.r4, 4), p1, n), Stream(m.ram, r2, r3, Reg(m.r4, 4), p1, n + 1));
  }

  lemma CommitsCons<T>(c: seq<T>, c5: seq<T>, c0: seq<T>, w: T, s: seq<T>, s': seq<T>)
    requires c5 == c0 + [w]
    ensures c == c5 + s ==> c == c0 + ([w] + s)
    ensures c == c5 + s' ==> c == c0 + ([w] + s')
  {
  }

  /** The stream from the next state, with the read pointer stored, is the
      tail of the stream from this one. */
  lemma StreamCons(ram: map<nat, nat>, p1: nat, r2: nat, r3: nat, a: nat, p0: nat, n: nat, w: (Word, Word))
    requires RingOk(r2, r3) && InRing(r2, r3, p0) && p1 == Next(r2, r3, p0)
    requires w == (AsWord(a), AsWord(Load(ram, p0)))
    ensures Stream(ram[Reg(r2, 4) := p1], r2, r3, Reg(a, 4), p1, n) == Stream(ram, r2, r3, Reg(a, 4), p1, n)
    ensures Stream(ram, r2, r3, a, p0, n + 1) == [w] + Stream(ram, r2, r3, Reg(a, 4), p1, n)
  {
    NextInRing(r2, r3, p0);
    StreamFrame(ram, p1, r2, r3, Reg(a, 4), p1, n);
  }

  lemma ConsRam(r2: nat, r3: nat, m: Machine, m5: Machine, h: Halt, n: nat)
    requires OneWord(r2, r3, m, m5)
    requires DrainedRam(r2, r3, m5, h, n)
    ensures DrainedRam(r2, r3, m, h, n + 1)
  {
    PointerStored(r2, r3, m, m5);
    PosShift(r2, r3, Load(m.ram, Reg(r2, 4)), n);
  }

  lemma ConsStops(r2: nat, r3: nat, m: Machine, m5: Machine, h: Halt, n: nat)
    requires OneWord(r2, r3, m, m5)
    requires DrainedStops(r2, r3, m5, h, n)
    ensures DrainedStops(r2, r3, m, h, n + 1)
  {
    var p0 := Load(m.ram, Reg(r2, 4));
    var wp := Load(m.ram, r2);
    PointerStored(r2, r3, m, m5);
    PosShift(r2, r3, p0, n);
    forall j | 0 <= j < n + 1
      ensures Pos(r2, r3, p0, j) != wp
    {
      if j > 0 {
        PosShift(r2, r3, p0, j - 1);
      }
    }
  }

  /** One word drained in front of a drain of n words from the next state
      is a drain of n + 1 words. */
  lemma DrainedCons(r2: nat, r3: nat, m: Machine, m5: Machine, h: Halt, n: nat)
    requires OneWord(r2, r3, m, m5)
    requires Drained(r2, r3, m5, h, n)
    ensures Drained(r2, r3, m, h, n + 1)
  {
    ConsRegs(m, m5, h, n);
    ConsCommits(r2, r3, m, m5, h, n);
    ConsRam(r2, r3, m, m5, h, n);
    ConsStops(r2, r3, m, m5, h, n);
  }

  /** A run that stopped at `wait_fifo`, on a zero write pointer or on
      an empty ring, drained no word. */
  lemma DrainedAtFifo(r2: nat, r3: nat, m: Machine, h: Halt)
    requires RingOk(r2, r3) && InRing(r2, r3, Load(m.ram, Reg(r2, 4))) && Regs32(m)
    requires h.stop == HostAbort || h.stop == Stalled
    requires h.stop == HostAbort ==> Load(m.ram, r2) == 0 && h.m == m
    requires h.stop == Stalled ==>
      Load(m.ram, r2) != 0 && Load(m.ram, Reg(r2, 4)) == Load(m.ram, r2) && h.m == m.(r5 := h.m.r5)
    ensures Drained(r2, r3, m, h, 0)
  {
    assert Commits(m.io) + Stream(m.ram, r2, r3, m.r4, Load(m.ram, Reg(r2, 4)), 0) == Commits(m.io);
  }

  /** A run that left at `exit` with the count at zero drained no further
      word. */
  lemma DrainedDone(r2: nat, r3: nat, m: Machine, h: Halt)
    requires RingOk(r2, r3) && Regs32(m) && Load(m.ram, r2) != 0
    requires h.stop == Done && h.m == m && m.r1 == 0
    ensures Drained(r2, r3, m, h, 0)
  {
    assert Commits(m.io) + Stream(m.ram, r2, r3, m.r4, Load(m.ram, Reg(r2, 4)), 0) == Commits(m.io);
  }

  /** The state after `no_wrap` is one word on from the state at
      `wait_fifo`. */
  lemma AdvanceOneWord(r2: nat, r3: nat, m: Machine, m4: Machine, m5: Machine)
    requires HasWord(r2, r3, m)
    requires m4.ram == m.ram && m4.r1 == m.r1 && m4.r4 == Reg(m.r4, 4) && m4.r5 == Reg(Load(m.ram, Reg(r2, 4)), 4)
    requires Commits(m4.io) == Commits(m.io) + [(AsWord(m.r4), AsWord(Load(m.ram, Load(m.ram, Reg(r2, 4)))))]
    requires m5 == m4.(r5 := Next(r2, r3, Load(m.ram, Reg(r2, 4))),
                       ram := m4.ram[Reg(r2, 4) := Next(r2, r3, Load(m.ram, Reg(r2, 4)))],
                       r1 := (m4.r1 - 1) % TWO32)
    ensures OneWord(r2, r3, m, m5) && Regs32(m5)
    ensures InRing(r2, r3, Load(m5.ram, Reg(r2, 4))) && Load(m5.ram, r2) != 0
  {
    PointerStored(r2, r3, m, m5);
  }

  /** A drain from a state with the ring in place is described by Drained
      for some number of words. */
  lemma {:induction false} DrainStream(r2: nat, r3: nat, m: Machine) returns (n: nat)
    requires RingOk(r2, r3) && InRing(r2, r3, Load(m.ram, Reg(r2, 4))) && Regs32(m)
    ensures Drained(r2, r3, m, Drain(MSC_REGBASE, r2, r3, m), n)
    decreases |m.feed|, 1
  {
    var wp := Load(m.ram, r2);
    var p0 := Load(m.ram, Reg(r2, 4));
    OffsetsMatch();
    if wp == 0 || p0 == wp {
      n := 0;
      DrainedAtFifo(r2, r3, m, Drain(MSC_REGBASE, r2, r3, m));
    } else {
      var ml := m.(r5 := p0, io := m.io + [Write(MSC_ADDRB, AsWord(m.r4)), Write(MSC_WRITECMD, WRITECMD_LADDRIM)]);
      assert Drain(MSC_REGBASE, r2, r3, m) == Program(MSC_REGBASE, r2, r3, ml);
      LatchIo(m.io, AsWord(m.r4));
      n := ProgramStream(r2, r3, m, ml);
    }
  }

  /** The state m at `wait_fifo` has a word to drain. */
  predicate HasWord(r2: nat, r3: nat, m: Machine)
  {
    RingOk(r2, r3) && InRing(r2, r3, Load(m.ram, Reg(r2, 4))) && Regs32(m) &&
    Load(m.ram, r2) != 0 && Load(m.ram, Reg(r2, 4)) != Load(m.ram, r2)
  }

  /** A run that hung or was refused on the first word drained none. */
  lemma DrainedNone(r2: nat, r3: nat, m: Machine, h: Halt)
    requires HasWord(r2, r3, m)
    requires h.stop == Hung || h.stop == Refused
    requires h.m.r1 == m.r1
    requires h.stop == Refused ==>
      h.m.r4 == m.r4 && Rejected(h.r0) && Commits(h.m.io) == Commits(m.io) && h.m.ram == m.ram[Reg(r2, 4) := 0]
    requires h.stop == Hung ==> h.m.ram == m.ram
    requires h.stop == Hung ==>
      Commits(h.m.io) == Commits(m.io) ||
      Commits(h.m.io) == Commits(m.io) + [(AsWord(m.r4), AsWord(Load(m.ram, Load(m.ram, Reg(r2, 4)))))]
    ensures Drained(r2, r3, m, h, 0)
  {
    var p0 := Load(m.ram, Reg(r2, 4));
    assert Commits(m.io) + Stream(m.ram, r2, r3, m.r4, p0, 0) == Commits(m.io);
    if h.stop == Hung {
      assert Stream(m.ram, r2, r3, m.r4, p0, 1) == [(AsWord(m.r4), AsWord(Load(m.ram, p0)))];
      assert DrainedCommits(r2, r3, m, h, 0);
      assert DrainedRam(r2, r3, m, h, 0);
    } else {
      assert DrainedRam(r2, r3, m, h, 0) by {
        RamAfterRefusal(m.ram, Reg(r2, 4), h.m.ram);
      }
    }
  }

  lemma RamAfterRefusal(ram: map<nat, nat>, a: nat, ram': map<nat, nat>)
    requires ram' == ram[a := 0]
    ensures forall b | b != a :: Load(ram', b) == Load(ram, b)
    ensures Load(ram', a) == 0
  {
  }

  lemma {:induction false} ProgramStream(r2: nat, r3: nat, m: Machine, ml: Machine) returns (n: nat)
    requires HasWord(r2, r3, m)
    requires ml.ram == m.ram && ml.r1 == m.r1 && ml.r4 == m.r4 && ml.r5 == Load(m.ram, Reg(r2, 4))
    requires Commits(ml.io) == Commits(m.io) && LastWrite(ml.io, MSC_ADDRB) == AsWord(m.r4)
    ensures Drained(r2, r3, m, Program(MSC_REGBASE, r2, r3, ml), n)
    decreases |ml.feed|, 0
  {
    OffsetsMatch();
    var h := Program(MSC_REGBASE, r2, r3, ml);
    if ml.feed == [] {
      n := 0;
      DrainedNone(r2, r3, m, h);
    } else {
      var st := ml.feed[0];
      var m1 := ml.(feed := ml.feed[1..], io := ml.io + [Read(MSC_STATUS, 32)]);
      QuietStep(ml.io, Read(MSC_STATUS, 32));
      if Refuses(st) {
        n := 0;
        RefusesRejected(st);
        assert h == Halt(Refused, st, m1.(ram := m1.ram[Reg(r2, 4) := 0]));
        DrainedNone(r2, r3, m, h);
      } else {
        var r := Spin(MSC_REGBASE, m1, STATUS_WDATAREADY, true);
        assert h == Ready(MSC_REGBASE, r2, r3, r.0, r.1);
        var k1 := SpinTrace(MSC_REGBASE, m1, STATUS_WDATAREADY, true);
        ReadsQuiet(m1.io, k1);
        n := ReadyStream(r2, r3, m, r.0, r.1);
      }
    }
  }

  lemma {:induction false} ReadyStream(r2: nat, r3: nat, m: Machine, ready: Option<Word>, m2: Machine) returns (n: nat)
    requires HasWord(r2, r3, m)
    requires m2.ram == m.ram && m2.r1 == m.r1 && m2.r4 == m.r4 && m2.r5 == Load(m.ram, Reg(r2, 4))
    requires Commits(m2.io) == Commits(m.io) && LastWrite(m2.io, MSC_ADDRB) == AsWord(m.r4)
    ensures Drained(r2, r3, m, Ready(MSC_REGBASE, r2, r3, ready, m2), n)
    decreases |m2.feed|, 3
  {
    OffsetsMatch();
    var h := Ready(MSC_REGBASE, r2, r3, ready, m2);
    if ready.None? {
      n := 0;
      DrainedNone(r2, r3, m, h);
    } else {
      var d := AsWord(Load(m2.ram, m2.r5));
      var m3 := m2.(io := m2.io + [Write(MSC_WDATA, d), Write(MSC_WRITECMD, WRITECMD_WRITEONCE)],
                    r5 := Reg(m2.r5, 4), r4 := Reg(m2.r4, 4));
      ProgramOnce(m2.io, d);
      var r := Spin(MSC_REGBASE, m3, STATUS_BUSY, false);
      assert h == Advance(MSC_REGBASE, r2, r3, r.0, r.1);
      var k2 := SpinTrace(MSC_REGBASE, m3, STATUS_BUSY, false);
      ReadsQuiet(m3.io, k2);
      n := AdvanceStream(r2, r3, m, r.0, r.1);
    }
  }

  lemma {:induction false} AdvanceStream(r2: nat, r3: nat, m: Machine, idle: Option<Word>, m4: Machine) returns (n: nat)
    requires HasWord(r2, r3, m)
    requires m4.ram == m.ram && m4.r1 == m.r1 && m4.r4 == Reg(m.r4, 4) && m4.r5 == Reg(Load(m.ram, Reg(r2, 4)), 4)
    requires Commits(m4.io) == Commits(m.io) + [(AsWord(m.r4), AsWord(Load(m.ram, Load(m.ram, Reg(r2, 4)))))]
    ensures Drained(r2, r3, m, Advance(MSC_REGBASE, r2, r3, idle, m4), n)
    decreases |m4.feed|, 2
  {
    var h := Advance(MSC_REGBASE, r2, r3, idle, m4);
    if idle.None? {
      n := 0;
      DrainedNone(r2, r3, m, h);
    } else {
      var p1 := Next(r2, r3, Load(m.ram, Reg(r2, 4)));
      var m5 := m4.(r5 := p1, ram := m4.ram[Reg(r2, 4) := p1], r1 := (m4.r1 - 1) % TWO32);
      assert h == if m5.r1 == 0 then Halt(Done, idle.value, m5) else Drain(MSC_REGBASE, r2, r3, m5);
      AdvanceOneWord(r2, r3, m, m4, m5);
      if m5.r1 == 0 {
        n := 1;
        DrainedDone(r2, r3, m5, h);
        DrainedCons(r2, r3, m, m5, h, 0);
      } else {
        var n' := DrainStream(r2, r3, m5);
        n := n' + 1;
        DrainedCons(r2, r3, m, m5, h, n');
      }
    }
  }

  /** Drained reads only the count, the flash address, RAM and the words
      programmed so far of the state a drain starts from. */
  lemma DrainedSame(r2: nat, r3: nat, m: Machine, m': Machine, h: Halt, n: nat)
    requires m'.r1 == m.r1 && m'.r4 == m.r4 && m'.ram == m.ram && Commits(m'.io) == Commits(m.io)
    requires Drained(r2, r3, m', h, n)
    ensures Drained(r2, r3, m, h, n)
  {
  }

  /** The whole loader run on the registers write_block binds: every word
      programmed is the next word of the ring, at the next flash address,
      so the MSC programs exactly Stream(ram, r2, r3, r4, rp, n), where rp
      is the read pointer the run starts from. The run leaves through
      `exit` after a zero write pointer and only then, and through `exit`
      with Done only once n words match the count. */
  lemma LoaderRunStream(r1: nat, r2: nat, r3: nat, r4: nat, ram: map<nat, nat>, feed: seq<Word>) returns (n: nat)
    requires RingOk(r2, r3) && InRing(r2, r3, Load(ram, Reg(r2, 4))) && r1 < TWO32 && r4 < TWO32
    ensures Drained(r2, r3, Machine(r1, r4, 0, ram, feed, []), LoaderRun(MSC_REGBASE, r1, r2, r3, r4, ram, feed), n)
  {
    var m := Machine(r1, r4, 0, ram, feed, []);
    var m' := Prologue(MSC_REGBASE, m);
    PrologueUnlocks(m, MSC_LOCK);
    n := DrainStream(r2, r3, m');
    DrainedSame(r2, r3, m, m', LoaderRun(MSC_REGBASE, r1, r2, r3, r4, ram, feed), n);
  }

  /** The run as the listing encodes it: the key goes to MSC + 0x3c. */
  function LoaderRunAsWritten(r0: nat, r1: nat, r2: nat, r3: nat, r4: nat, ram: map<nat, nat>, feed: seq<Word>): Halt
  {
    Drain(r0, r2, r3, PrologueAsWritten(r0, Machine(r1, r4, 0, ram, feed, [])))
  }

  /** The loader as written drains the ring exactly as the corrected one
      does: its prologue differs only in the register the key is stored to,
      and programs nothing, so the stream, the counts and the stops of
      LoaderRunStream hold for it too. */
  lemma LoaderRunAsWrittenStream(r1: nat, r2: nat, r3: nat, r4: nat, ram: map<nat, nat>, feed: seq<Word>) returns (n: nat)
    requires RingOk(r2, r3) && InRing(r2, r3, Load(ram, Reg(r2, 4))) && r1 < TWO32 && r4 < TWO32
    ensures Drained(r2, r3, Machine(r1, r4, 0, ram, feed, []), LoaderRunAsWritten(MSC_REGBASE, r1, r2, r3, r4, ram, feed), n)
  {
    var m := Machine(r1, r4, 0, ram, feed, []);
    var m' := PrologueAsWritten(MSC_REGBASE, m);
    var e1 := Write(Reg(MSC_REGBASE, LOCK_OFFSET_AS_WRITTEN), MSC_LOCK_LOCKKEY);
    var e2 := Write(Reg(MSC_REGBASE, WRITECTRL_OFFSET), WRITECTRL_WREN);
    QuietStep(m.io, e1);
    QuietStep(m.io + [e1], e2);
    assert m.io + [e1] + [e2] == m'.io;
    n := DrainStream(r2, r3, m');
    DrainedSame(r2, r3, m, m', LoaderRunAsWritten(MSC_REGBASE, r1, r2, r3, r4, ram, feed), n);
  }

  /** A loader run that leaves through `error` hands back r0 holding the
      MSC status and r4 the flash address it had reached. When the target
      reports that as ERROR_FLASH_OPERATION_FAILED, efr32x_write_block
      reports the address and at least one of write protection and an
      invalid address. */
  lemma RefusalDiagnosed(r1: nat, r2: nat, r3: nat, r4: nat, ram: map<nat, nat>, feed: seq<Word>)
    requires RingOk(r2, r3) && InRing(r2, r3, Load(ram, Reg(r2, 4))) && r1 < TWO32 && r4 < TWO32
    requires LoaderRun(MSC_REGBASE, r1, r2, r3, r4, ram, feed).stop == Refused
    ensures var h := LoaderRun(MSC_REGBASE, r1, r2, r3, r4, ram, feed);
      var d := BlockWrite.Diagnose(RunReply(Err(OperationFailed), h.r0, AsWord(h.m.r4)));
      d.Some? && d.value.failedAt == AsWord(h.m.r4) && (d.value.writeProtected || d.value.invalidAddress)
  {
    var n := LoaderRunStream(r1, r2, r3, r4, ram, feed);
  }
}
