/** efr32x_write: pad the data to whole words, unlock the MSC, enable writes,
    try the block write through the on-target loader, fall back to
    word-by-word programming when no working area is available, then disable
    writes and relock. */
module FlashWrite {
  import opened Efr32Defs
  import opened Target
  import opened Msc
  import opened BlockWrite

  /** The range of a C uint32. */
  const WORD_RANGE: nat := 0x1_0000_0000

  /** The padded length as efr32x_write computes it: a count that is not a
      multiple of four becomes (count | 3) + 1, evaluated in uint32, which
      wraps to 0 for the three largest counts. */
  function PaddedCountAsWritten(count: nat): nat
    requires count < WORD_RANGE
  {
    if count % 4 == 0 then count else (count - count % 4 + 4) % WORD_RANGE
  }

  /** For every count below 2^32 - 3 the uint32 computation is the round-up
      to whole words. */
  lemma PaddedCountAgrees(count: nat)
    requires count < WORD_RANGE - 3
    ensures PaddedCountAsWritten(count) == PaddedCount(count)
  {
  }

  /** For a count of 2^32 - 3 the padded length wraps to 0: the padding
      buffer is allocated with size 0 and the count bytes are copied into
      it. */
  lemma PaddedCountWraps()
    ensures PaddedCountAsWritten(0xFFFF_FFFD) == 0
    ensures PaddedCountAsWritten(0xFFFF_FFFD) < PaddedCount(0xFFFF_FFFD)
  {
  }

  /** The length of the data rounded up to whole 32-bit words, without
      wrap-around. */
  function PaddedCount(count: nat): (r: nat)
    ensures r % 4 == 0 && count <= r < count + 4
    ensures count % 4 == 0 ==> r == count
  {
    if count % 4 == 0 then count else count - count % 4 + 4
  }

  /** The buffer efr32x_write programs: the data followed by 0xFF bytes up to
      the next word boundary. */
  function Padded(data: seq<Byte>): (r: seq<Byte>)
    ensures |r| == PaddedCount(|data|) && r[..|data|] == data
    ensures forall i | |data| <= i < |r| :: r[i] == 0xFF
  {
    data + seq(PaddedCount(|data|) - |data|, _ => 0xFF)
  }

  /** The word memcpy reads from four bytes on a little-endian host. */
  function LeWord(b0: Byte, b1: Byte, b2: Byte, b3: Byte): Word
  {
    ((b3 as Word) << 24) | ((b2 as Word) << 16) | ((b1 as Word) << 8) | (b0 as Word)
  }

  /** The four bytes of a word in little-endian order. */
  function WordBytes(w: Word): (r: seq<Byte>)
    ensures |r| == 4
  {
    [(w & 0xFF) as Byte, ((w >> 8) & 0xFF) as Byte, ((w >> 16) & 0xFF) as Byte, ((w >> 24) & 0xFF) as Byte]
  }

  lemma LeWordBytes(b0: Byte, b1: Byte, b2: Byte, b3: Byte)
    ensures WordBytes(LeWord(b0, b1, b2, b3)) == [b0, b1, b2, b3]
  {
  }

  lemma WordBytesLe(w: Word)
    ensures var r := WordBytes(w); LeWord(r[0], r[1], r[2], r[3]) == w
  {
  }

  /** The words of a buffer of whole words, in order. */
  function Words(buf: seq<Byte>): (r: seq<Word>)
    requires |buf| % 4 == 0
    ensures |r| == |buf| / 4
  {
    if buf == [] then [] else [LeWord(buf[0], buf[1], buf[2], buf[3])] + Words(buf[4..])
  }

  /** The bytes of a sequence of words. */
  function Bytes(ws: seq<Word>): (r: seq<Byte>)
    ensures |r| == 4 * |ws|
  {
    if ws == [] then [] else WordBytes(ws[0]) + Bytes(ws[1..])
  }

  /** Decoding the words of a buffer loses nothing. */
  lemma {:induction false} BytesWords(buf: seq<Byte>)
    requires |buf| % 4 == 0
    ensures Bytes(Words(buf)) == buf
    decreases |buf|
  {
    if buf != [] {
      LeWordBytes(buf[0], buf[1], buf[2], buf[3]);
      BytesWords(buf[4..]);
      assert buf == buf[..4] + buf[4..];
    }
  }

  /** And encoding words as bytes loses nothing either. */
  lemma {:induction false} WordsBytes(ws: seq<Word>)
    ensures Words(Bytes(ws)) == ws
    decreases |ws|
  {
    if ws != [] {
      var bs := Bytes(ws);
      WordBytesLe(ws[0]);
      assert bs[4..] == Bytes(ws[1..]);
      WordsBytes(ws[1..]);
    }
  }

  /** The single-word fallback of efr32x_write: write_word on each word in
      turn at offset, offset + 4, ... (a uint32, so the address wraps),
      stopping at the first failure. */
  function WriteWords(b: Bus, offset: Word, words: seq<Word>): (Status, Bus)
    decreases |words|
  {
    if words == [] then (Ok, b)
    else
      var (s, b1) := WriteWord(b, offset, words[0]);
      if s.Err? then (s, b1) else WriteWords(b1, offset + 4, words[1..])
  }

  /** The address and value of each word the fallback programs: the words
      in order, at consecutive word addresses from `offset` (wrapping as a
      uint32). */
  function Pairs(offset: Word, words: seq<Word>): (r: seq<(Word, Word)>)
    ensures |r| == |words|
    decreases |words|
  {
    if words == [] then [] else [(offset, words[0])] + Pairs(offset + 4, words[1..])
  }

  /** The address of the i-th word of the fallback: `offset` advanced by
      i words, wrapping as a uint32. */
  function Addr(offset: Word, i: nat): Word
  {
    if i == 0 then offset else Addr(offset, i - 1) + 4
  }

  lemma {:induction false} AddrShift(offset: Word, i: nat)
    ensures Addr(offset + 4, i) == Addr(offset, i) + 4
  {
    if i > 0 {
      AddrShift(offset, i - 1);
    }
  }

  /** Word i of the fallback is words[i], programmed at Addr(offset, i). */
  lemma {:induction false} PairAt(offset: Word, words: seq<Word>, i: nat)
    requires i < |words|
    ensures Pairs(offset, words)[i] == (Addr(offset, i), words[i])
    decreases i
  {
    if i > 0 {
      PairAt(offset + 4, words[1..], i - 1);
      AddrShift(offset, i - 1);
      assert Pairs(offset, words)[i] == Pairs(offset + 4, words[1..])[i - 1];
    }
  }

  lemma {:induction false} PairsPrefix(offset: Word, words: seq<Word>, k: nat)
    requires k <= |words|
    ensures Pairs(offset, words)[..k] == Pairs(offset, words[..k])
    decreases k
  {
    if k > 0 {
      PairsPrefix(offset + 4, words[1..], k - 1);
      assert words[..k][1..] == words[1..][..k - 1];
    }
  }

  /** A fallback that succeeds programs every word, in order, at its
      address, and nothing else. */
  lemma {:induction false} WriteWordsOk(b: Bus, offset: Word, words: seq<Word>)
    requires WriteWords(b, offset, words).0 == Ok
    ensures Commits(WriteWords(b, offset, words).1.trace) == Commits(b.trace) + Pairs(offset, words)
    decreases |words|
  {
    if words != [] {
      var r := WriteWord(b, offset, words[0]);
      WriteWordsCons(b, offset, words, r);
      WriteWordCommits(b, offset, words[0]);
      WriteWordsOk(r.1, offset + 4, words[1..]);
      AppendAssoc(Commits(b.trace), [(offset, words[0])], Pairs(offset + 4, words[1..]));
    }
  }

  /** The commits a fallback that failed on word k leaves after `c0`: the
      words before k, in order at their addresses, and word k at most (its
      WRITEONCE may have reached the MSC before the BUSY wait failed). */
  predicate FailedOn(c0: seq<(Word, Word)>, c: seq<(Word, Word)>, offset: Word, words: seq<Word>, k: nat)
    requires k < |words|
  {
    c == c0 + Pairs(offset, words[..k]) || c == c0 + Pairs(offset, words[..k + 1])
  }

  /** A fallback that fails does so on some word k, having programmed the
      words before it and nothing after it. */
  lemma {:induction false} WriteWordsErr(b: Bus, offset: Word, words: seq<Word>) returns (k: nat)
    requires WriteWords(b, offset, words).0.Err?
    ensures k < |words|
    ensures FailedOn(Commits(b.trace), Commits(WriteWords(b, offset, words).1.trace), offset, words, k)
    decreases |words|
  {
    var r := WriteWord(b, offset, words[0]);
    WriteWordsCons(b, offset, words, r);
    if r.0.Err? {
      FirstWordFails(b, offset, words, r);
      k := 0;
    } else {
      var j := WriteWordsErr(r.1, offset + 4, words[1..]);
      LaterWordFails(b, offset, words, r, j);
      k := j + 1;
    }
  }

  lemma FirstWordFails(b: Bus, offset: Word, words: seq<Word>, r: (Status, Bus))
    requires words != [] && r == WriteWord(b, offset, words[0]) && r.0.Err?
    ensures FailedOn(Commits(b.trace), Commits(WriteWords(b, offset, words).1.trace), offset, words, 0)
  {
    WriteWordsCons(b, offset, words, r);
    WriteWordPartial(b, offset, words[0]);
    assert Pairs(offset, words[..0]) == [];
    assert Pairs(offset, words[..1]) == [(offset, words[0])];
  }

  lemma LaterWordFails(b: Bus, offset: Word, words: seq<Word>, r: (Status, Bus), j: nat)
    requires words != [] && r == WriteWord(b, offset, words[0]) && r.0 == Ok
    requires j < |words| - 1
    requires FailedOn(Commits(r.1.trace), Commits(WriteWords(r.1, offset + 4, words[1..]).1.trace),
                      offset + 4, words[1..], j)
    ensures FailedOn(Commits(b.trace), Commits(WriteWords(b, offset, words).1.trace), offset, words, j + 1)
  {
    WriteWordsCons(b, offset, words, r);
    WriteWordCommits(b, offset, words[0]);
    var c := Commits(WriteWords(r.1, offset + 4, words[1..]).1.trace);
    PrefixAfterFirst(Commits(b.trace), Commits(r.1.trace), c, offset, words, j);
  }

  lemma AppendAssoc<T>(a: seq<T>, b: seq<T>, c: seq<T>)
    ensures a + b + c == a + (b + c)
  {
  }

  lemma PrefixAfterFirst(c0: seq<(Word, Word)>, c1: seq<(Word, Word)>, c: seq<(Word, Word)>,
                         offset: Word, words: seq<Word>, j: nat)
    requires j < |words| - 1 && c1 == c0 + [(offset, words[0])]
    requires FailedOn(c1, c, offset + 4, words[1..], j)
    ensures FailedOn(c0, c, offset, words, j + 1)
  {
    WordsPrefixCons(offset, words, j);
  }

  lemma WordsPrefixCons(offset: Word, words: seq<Word>, j: nat)
    requires j < |words|
    ensures [(offset, words[0])] + Pairs(offset + 4, words[1..][..j]) == Pairs(offset, words[..j + 1])
    ensures j + 2 <= |words| ==>
      [(offset, words[0])] + Pairs(offset + 4, words[1..][..j + 1]) == Pairs(offset, words[..j + 2])
  {
    PairsTake(offset, words, j + 1);
    if j + 2 <= |words| {
      PairsTake(offset, words, j + 2);
    }
  }

  lemma PairsTake(offset: Word, words: seq<Word>, n: nat)
    requires 1 <= n <= |words|
    ensures Pairs(offset, words[..n]) == [(offset, words[0])] + Pairs(offset + 4, words[1..][..n - 1])
  {
    assert words[..n][1..] == words[1..][..n - 1];
  }

  /** The fallback writes ADDRB once per attempted word and otherwise only
      WRITECMD and WDATA. */
  lemma {:induction false} WriteWordsWrites(b: Bus, offset: Word, words: seq<Word>, a: nat)
    requires a != MSC_ADDRB && a != MSC_WDATA && a != MSC_WRITECMD
    ensures WritesTo(WriteWords(b, offset, words).1.trace, a) == WritesTo(b.trace, a)
    decreases |words|
  {
    if words != [] {
      var r := WriteWord(b, offset, words[0]);
      WriteWordsCons(b, offset, words, r);
      WriteWordWrites(b, offset, words[0], a);
      if r.0.Ok? {
        WriteWordsWrites(r.1, offset + 4, words[1..], a);
      }
    }
  }

  /** The checks efr32x_write makes before it touches the target: a running
      target, a word-aligned offset, and (for a count that is not a whole
      number of words) a padding buffer. `paddingAvailable` is the outcome
      of the host's malloc. */
  function Precheck(b: Bus, data: seq<Byte>, offset: nat, paddingAvailable: bool): Status
  {
    if !b.halted then Err(NotHalted)
    else if offset % 4 != 0 then Err(DstBreaksAlignment)
    else if |data| % 4 != 0 && !paddingAvailable then Err(Fail)
    else Ok
  }

  /** The data phase once WREN is set: the block write, and the fallback
      when it reports RESOURCE_NOT_AVAILABLE. */
  function Program(b: Bus, base: nat, buf: seq<Byte>, offset: nat): (Status, Bus)
    requires |buf| % 4 == 0
  {
    var (r, _, b3) := BlockWriteSpec(b, base, buf, offset, |buf| / 4);
    if r == Err(ResourceNotAvailable) then WriteWords(b3, AsWord(offset), Words(buf)) else (r, b3)
  }

  /** efr32x_write as a specification. A failure to set WREN returns at
      once, without relocking; otherwise the epilogue always runs and its
      status is the result only when the data phase succeeded. */
  function WriteSpec(b: Bus, base: nat, data: seq<Byte>, offset: nat, paddingAvailable: bool): (Status, Bus)
  {
    var pre := Precheck(b, data, offset, paddingAvailable);
    if pre.Err? then (pre, b)
    else
      var buf := Padded(data);
      var (en, b2) := Unlock(b);
      if en.Err? then (en, b2)
      else
        var (r, b4) := Program(b2, base, buf, offset);
        var (r2, b5) := Relock(b4);
        (if r.Err? then r else r2, b5)
  }

  /** efr32x_write, with the word-by-word fallback loop. */
  method Write(b: Bus, base: nat, data: seq<Byte>, offset: nat, paddingAvailable: bool)
    returns (s: Status, b': Bus)
    ensures (s, b') == WriteSpec(b, base, data, offset, paddingAvailable)
  {
    if !b.halted {
      return Err(NotHalted), b;
    }
    if offset % 4 != 0 {
      return Err(DstBreaksAlignment), b;
    }
    var buf := data;
    if |data| % 4 != 0 {
      if !paddingAvailable {
        return Err(Fail), b;
      }
      buf := Padded(data);
    } else {
      assert Padded(data) == data;
    }
    var remaining := |buf| / 4;
    var (en, b2) := Unlock(b);
    if en.Err? {
      return en, b2;
    }
    var retval, diag, cur := WriteBlock(b2, base, buf, offset, remaining);
    if retval == Err(ResourceNotAvailable) {
      retval, cur := WriteFallback(cur, AsWord(offset), buf);
    }
    var (retval2, b5) := Relock(cur);
    if retval.Ok? {
      retval := retval2;
    }
    return retval, b5;
  }

  /** The single-word loop of efr32x_write: one write_word per word of the
      buffer, advancing the buffer and the offset by four, until the words
      run out or one fails. */
  method WriteFallback(b: Bus, offset: Word, buf: seq<Byte>) returns (s: Status, b': Bus)
    requires |buf| % 4 == 0
    ensures (s, b') == WriteWords(b, offset, Words(buf))
  {
    var remaining := |buf| / 4;
    var rest := buf;
    var off := offset;
    b' := b;
    while remaining > 0
      invariant |rest| % 4 == 0 && remaining == |rest| / 4
      invariant WriteWords(b', off, Words(rest)) == WriteWords(b, offset, Words(buf))
      decreases remaining
    {
      var w, next := FallbackWord(b', off, rest);
      if w.Err? {
        return w, next;
      }
      b' := next;
      remaining := remaining - 1;
      rest := rest[4..];
      off := off + 4;
    }
    return Ok, b';
  }

  /** One turn of the fallback loop: memcpy the next four bytes into a word
      and write_word it at the current offset. */
  method FallbackWord(b: Bus, offset: Word, rest: seq<Byte>) returns (s: Status, b': Bus)
    requires |rest| % 4 == 0 && rest != []
    ensures s.Err? ==> WriteWords(b, offset, Words(rest)) == (s, b')
    ensures s.Ok? ==> WriteWords(b, offset, Words(rest)) == WriteWords(b', offset + 4, Words(rest[4..]))
  {
    var value := LeWord(rest[0], rest[1], rest[2], rest[3]);
    var r := WriteWord(b, offset, value);
    if r.0.Err? {
      WordFails(b, offset, rest, r);
    } else {
      WordDone(b, offset, rest, r);
    }
    return r.0, r.1;
  }

  lemma WordFails(b: Bus, offset: Word, rest: seq<Byte>, r: (Status, Bus))
    requires |rest| % 4 == 0 && rest != []
    requires r == WriteWord(b, offset, LeWord(rest[0], rest[1], rest[2], rest[3])) && r.0.Err?
    ensures WriteWords(b, offset, Words(rest)) == r
  {
    WordsCons(rest);
    WriteWordsCons(b, offset, Words(rest), r);
  }

  lemma WordDone(b: Bus, offset: Word, rest: seq<Byte>, r: (Status, Bus))
    requires |rest| % 4 == 0 && rest != []
    requires r == WriteWord(b, offset, LeWord(rest[0], rest[1], rest[2], rest[3])) && r.0.Ok?
    ensures WriteWords(b, offset, Words(rest)) == WriteWords(r.1, offset + 4, Words(rest[4..]))
  {
    WordsCons(rest);
    WriteWordsCons(b, offset, Words(rest), r);
  }

  lemma WordsCons(rest: seq<Byte>)
    requires |rest| % 4 == 0 && rest != []
    ensures Words(rest) != [] && Words(rest)[0] == LeWord(rest[0], rest[1], rest[2], rest[3])
    ensures Words(rest)[1..] == Words(rest[4..])
  {
  }

  lemma WriteWordsCons(b: Bus, offset: Word, ws: seq<Word>, r: (Status, Bus))
    requires ws != [] && r == WriteWord(b, offset, ws[0])
    ensures r.0.Err? ==> WriteWords(b, offset, ws) == r
    ensures r.0.Ok? ==> WriteWords(b, offset, ws) == WriteWords(r.1, offset + 4, ws[1..])
  {
  }

  /** Rejected writes issue no call: a running target, a misaligned offset
      and a missing padding buffer are each reported before the MSC is
      touched. */
  lemma WriteRejected(b: Bus, base: nat, data: seq<Byte>, offset: nat, paddingAvailable: bool)
    requires Precheck(b, data, offset, paddingAvailable).Err?
    ensures WriteSpec(b, base, data, offset, paddingAvailable).1 == b
    ensures !b.halted ==> WriteSpec(b, base, data, offset, paddingAvailable).0 == Err(NotHalted)
    ensures b.halted && offset % 4 != 0 ==>
      WriteSpec(b, base, data, offset, paddingAvailable).0 == Err(DstBreaksAlignment)
    ensures b.halted && offset % 4 == 0 ==>
      |data| % 4 != 0 && !paddingAvailable && WriteSpec(b, base, data, offset, paddingAvailable).0 == Err(Fail)
  {
  }

  /** When WREN cannot be set, write returns that error with the MSC left
      unlocked and nothing programmed. */
  lemma WriteEnableFails(b: Bus, base: nat, data: seq<Byte>, offset: nat, paddingAvailable: bool)
    requires Precheck(b, data, offset, paddingAvailable) == Ok && !EnablesWren(b)
    ensures var (s, b') := WriteSpec(b, base, data, offset, paddingAvailable);
      s == Unlock(b).0 && s.Err? &&
      WritesTo(b'.trace, MSC_LOCK) == WritesTo(b.trace, MSC_LOCK) + [MSC_LOCK_LOCKKEY] &&
      Commits(b'.trace) == Commits(b.trace)
  {
    UnlockResult(b);
    UnlockEffect(b, MSC_LOCK);
    UnlockQuiet(b);
  }

  /** The data phase writes MSC_LOCK never: neither the block write nor the
      fallback touches it. */
  lemma ProgramKeepsLock(b: Bus, base: nat, buf: seq<Byte>, offset: nat)
    requires |buf| % 4 == 0
    ensures WritesTo(Program(b, base, buf, offset).1.trace, MSC_LOCK) == WritesTo(b.trace, MSC_LOCK)
  {
    var (r, _, b3) := BlockWriteSpec(b, base, buf, offset, |buf| / 4);
    BlockWriteQuiet(b, base, buf, offset, |buf| / 4, MSC_LOCK);
    if r == Err(ResourceNotAvailable) {
      WriteWordsWrites(b3, AsWord(offset), Words(buf), MSC_LOCK);
    }
  }

  /** Once WREN is set, write always relocks: MSC_LOCK receives the key and
      then 0, and nothing else. */
  lemma WriteRelocks(b: Bus, base: nat, data: seq<Byte>, offset: nat, paddingAvailable: bool)
    requires Precheck(b, data, offset, paddingAvailable) == Ok && EnablesWren(b)
    ensures WritesTo(WriteSpec(b, base, data, offset, paddingAvailable).1.trace, MSC_LOCK)
         == WritesTo(b.trace, MSC_LOCK) + [MSC_LOCK_LOCKKEY, 0]
  {
    var b2 := Unlock(b).1;
    UnlockResult(b);
    UnlockEffect(b, MSC_LOCK);
    var b4 := Program(b2, base, Padded(data), offset).1;
    ProgramKeepsLock(b2, base, Padded(data), offset);
    RelockEffect(b4, MSC_LOCK);
  }

  /** The data phase as the host sees it: a block write programs no word
      through the MSC registers (the loader does), and a fallback that
      succeeds programs every word of the buffer at offset, offset + 4, ...
      in order. */
  lemma ProgramCommits(b: Bus, base: nat, buf: seq<Byte>, offset: nat)
    requires |buf| % 4 == 0
    ensures var (r, _, b3) := BlockWriteSpec(b, base, buf, offset, |buf| / 4);
      var (s, b') := Program(b, base, buf, offset);
      (r != Err(ResourceNotAvailable) ==> s == r && Commits(b'.trace) == Commits(b.trace)) &&
      (r == Err(ResourceNotAvailable) && s == Ok ==>
        Commits(b'.trace) == Commits(b.trace) + Pairs(AsWord(offset), Words(buf)))
  {
    var (r, _, b3) := BlockWriteSpec(b, base, buf, offset, |buf| / 4);
    BlockWriteQuiet(b, base, buf, offset, |buf| / 4, MSC_LOCK);
    if r == Err(ResourceNotAvailable) && WriteWords(b3, AsWord(offset), Words(buf)).0 == Ok {
      WriteWordsOk(b3, AsWord(offset), Words(buf));
    }
  }

  /** A write that falls back to single words and succeeds has programmed
      exactly the padded data, word by word from `offset`, and the result is
      that of clearing WREN. */
  lemma WriteFallbackCommits(b: Bus, base: nat, data: seq<Byte>, offset: nat, paddingAvailable: bool)
    requires Precheck(b, data, offset, paddingAvailable) == Ok && EnablesWren(b)
    requires BlockWriteSpec(Unlock(b).1, base, Padded(data), offset, |Padded(data)| / 4).0 == Err(ResourceNotAvailable)
    requires WriteSpec(b, base, data, offset, paddingAvailable).0 == Ok
    ensures Commits(WriteSpec(b, base, data, offset, paddingAvailable).1.trace)
         == Commits(b.trace) + Pairs(AsWord(offset), Words(Padded(data)))
  {
    var b2 := Unlock(b).1;
    UnlockResult(b);
    UnlockQuiet(b);
    var (r, b4) := Program(b2, base, Padded(data), offset);
    ProgramCommits(b2, base, Padded(data), offset);
    RelockQuiet(b4);
  }

  /** A write whose block write succeeds or fails for any reason other than
      a missing working area programs nothing through the MSC registers
      itself, and reports the block write's error if there was one. */
  lemma WriteBlockPath(b: Bus, base: nat, data: seq<Byte>, offset: nat, paddingAvailable: bool)
    requires Precheck(b, data, offset, paddingAvailable) == Ok && EnablesWren(b)
    requires BlockWriteSpec(Unlock(b).1, base, Padded(data), offset, |Padded(data)| / 4).0 != Err(ResourceNotAvailable)
    ensures var r := BlockWriteSpec(Unlock(b).1, base, Padded(data), offset, |Padded(data)| / 4).0;
      var (s, b') := WriteSpec(b, base, data, offset, paddingAvailable);
      Commits(b'.trace) == Commits(b.trace) && (r.Err? ==> s == r)
  {
    var b2 := Unlock(b).1;
    UnlockResult(b);
    UnlockQuiet(b);
    var (r, b4) := Program(b2, base, Padded(data), offset);
    ProgramCommits(b2, base, Padded(data), offset);
    RelockQuiet(b4);
  }
}
