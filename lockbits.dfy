/** The driver's mirror of the lock-bits page: 128 words, one protection
    bit per flash page with inverted polarity (a clear bit means the page is
    locked), and the control words ULW, DLW and MLW at the end. */
module LockBits {
  import opened Efr32Defs
  import opened Msc

  /** The mirror word that holds page `page`'s bit: page >> 5. */
  function WordOf(page: nat): nat
  {
    page / 32
  }

  /** The bit of page `page` within its word: page & 0x1f, the low five
      bits of the page number. */
  function BitOf(page: nat): bv5
  {
    if page == 0 then 0 else BitOf(page - 1) + 1
  }

  /** 1 << (page & 0x1f). */
  function Mask(page: nat): Word
  {
    (1 as Word) << BitOf(page)
  }

  lemma BitSucc(x: bv5, n: nat)
    requires x as int == n % 32
    ensures (x + 1) as int == (n + 1) % 32
  {
  }

  /** BitOf is the page number modulo 32. */
  lemma {:induction false} BitValue(p: nat)
    ensures BitOf(p) as int == p % 32
  {
    if p > 0 {
      BitValue(p - 1);
      BitSucc(BitOf(p - 1), p - 1);
    }
  }

  /** Two pages of the same word have different bits. */
  lemma BitsDiffer(p: nat, q: nat)
    requires WordOf(p) == WordOf(q) && p != q
    ensures BitOf(p) != BitOf(q)
  {
    BitValue(p);
    BitValue(q);
  }

  lemma ShiftNonzero(k: bv5)
    ensures (1 as Word) << k != 0
  {
  }

  lemma ShiftsDisjoint(a: bv5, b: bv5)
    requires a != b
    ensures ((1 as Word) << a) & ((1 as Word) << b) == 0
  {
  }

  /** No mask is zero. */
  lemma MaskNonzero(p: nat)
    ensures Mask(p) != 0
  {
    ShiftNonzero(BitOf(p));
  }

  /** The masks of two different pages of the same word share no bit. */
  lemma MaskDisjoint(p: nat, q: nat)
    requires WordOf(p) == WordOf(q) && p != q
    ensures Mask(p) & Mask(q) == 0
  {
    BitsDiffer(p, q);
    ShiftsDisjoint(BitOf(p), BitOf(q));
  }

  /** The bits of `m` are all clear in `w`. */
  predicate Clear(w: Word, m: Word)
  {
    w & m == 0
  }

  lemma MaskedAgree(r: Word, v: Word, m: Word, mq: Word)
    requires r & !m == v & !m && mq & m == 0
    ensures r & mq == v & mq
  {
  }

  lemma ClearAgree(r: Word, v: Word, mq: Word)
    requires r & mq == v & mq
    ensures Clear(r, mq) == Clear(v, mq)
  {
  }

  /** Two words that agree outside `m` agree on whether the bits of a mask
      disjoint from `m` are clear. */
  lemma AgreeOutside(r: Word, v: Word, m: Word, mq: Word)
    requires r & !m == v & !m && mq & m == 0
    ensures Clear(r, mq) == Clear(v, mq)
  {
    MaskedAgree(r, v, m, mq);
    ClearAgree(r, v, mq);
  }

  /** Setting a nonzero mask leaves it not clear; clearing it leaves it
      clear. */
  lemma ClearWithBits(dw: Word, m: Word, on: bool)
    requires m != 0
    ensures Clear(WithBits(dw, m, on), m) == !on
  {
  }

  /** The all-ones word the mirror is filled with at creation and at probe. */
  const ERASED_WORD: Word := 0xffff_ffff

  /** efr32x_get_page_lock: true (1, locked) when the page's bit is clear. */
  predicate PageLocked(words: seq<Word>, page: nat)
    requires WordOf(page) < |words|
  {
    Clear(words[WordOf(page)], Mask(page))
  }

  /** The word efr32x_set_page_lock stores: the page's bit cleared to lock
      it, set to unlock it; the set/clear is the same read-modify-write
      formula as efr32x_set_reg_bits, with the polarity inverted. */
  function LockWord(dw: Word, page: nat, lock: bool): (r: Word)
    ensures r & !Mask(page) == dw & !Mask(page)
  {
    WithBitsMask(dw, Mask(page), !lock);
    WithBits(dw, Mask(page), !lock)
  }

  /** The mirror after efr32x_set_page_lock(page, lock). */
  function WithLock(words: seq<Word>, page: nat, lock: bool): (r: seq<Word>)
    requires WordOf(page) < |words|
    ensures |r| == |words|
  {
    words[WordOf(page) := LockWord(words[WordOf(page)], page, lock)]
  }

  /** The mirror word at index j after set_page_lock(page, lock). */
  lemma WithLockAt(words: seq<Word>, page: nat, lock: bool, j: nat)
    requires WordOf(page) < |words| && j < |words|
    ensures WithLock(words, page, lock)[j] ==
      if j == WordOf(page) then LockWord(words[WordOf(page)], page, lock) else words[j]
  {
  }

  /** The page's bit in the stored word is clear exactly when locking. */
  lemma LockWordBit(dw: Word, page: nat, lock: bool)
    ensures Clear(LockWord(dw, page, lock), Mask(page)) == lock
  {
    MaskNonzero(page);
    ClearWithBits(dw, Mask(page), !lock);
  }

  /** Setting a page's lock and reading it back gives the value set. */
  lemma LockRoundTrip(words: seq<Word>, page: nat, lock: bool)
    requires WordOf(page) < |words|
    ensures PageLocked(WithLock(words, page, lock), page) == lock
  {
    WithLockAt(words, page, lock, WordOf(page));
    LockWordBit(words[WordOf(page)], page, lock);
  }

  /** Setting a page's lock leaves the lock of every other page as it was. */
  lemma LockOthers(words: seq<Word>, page: nat, lock: bool, q: nat)
    requires WordOf(page) < |words| && WordOf(q) < |words| && q != page
    ensures PageLocked(WithLock(words, page, lock), q) == PageLocked(words, q)
  {
    var j := WordOf(q);
    var nw := WithLock(words, page, lock)[j];
    WithLockAt(words, page, lock, j);
    if j == WordOf(page) {
      MaskDisjoint(q, page);
      OtherBit(words[j], nw, page, q, lock);
    }
  }

  /** In the stored word, the bit of another page of the same word is as
      it was. */
  lemma OtherBit(dw: Word, nw: Word, page: nat, q: nat, lock: bool)
    requires nw == LockWord(dw, page, lock) && Mask(q) & Mask(page) == 0
    ensures Clear(nw, Mask(q)) == Clear(dw, Mask(q))
  {
    AgreeOutside(nw, dw, Mask(page), Mask(q));
  }

  /** Only the page's own word changes, and in it only the page's bit. */
  lemma LockScope(words: seq<Word>, page: nat, lock: bool)
    requires WordOf(page) < |words|
    ensures forall i | 0 <= i < |words| && i != WordOf(page) :: WithLock(words, page, lock)[i] == words[i]
    ensures WithLock(words, page, lock)[WordOf(page)] & !Mask(page) == words[WordOf(page)] & !Mask(page)
  {
  }

  lemma OnesNotClear(m: Word)
    requires m != 0
    ensures !Clear(ERASED_WORD, m)
  {
  }

  /** A freshly filled mirror reports every page unlocked. */
  lemma ErasedUnlocked(words: seq<Word>, page: nat)
    requires WordOf(page) < |words| && words[WordOf(page)] == ERASED_WORD
    ensures !PageLocked(words, page)
  {
    MaskNonzero(page);
    OnesNotClear(Mask(page));
  }

  /** The mirror after the loop of efr32x_protect: set_page_lock(i, 1) for
      i = first..last in turn. */
  function LockRange(words: seq<Word>, first: nat, last: int): (r: seq<Word>)
    requires last < 32 * |words|
    ensures |r| == |words|
    decreases last - first + 1
  {
    if first > last then words else LockRange(WithLock(words, first, true), first + 1, last)
  }

  /** efr32x_protect's loop locks exactly the pages first..last and leaves
      the lock of every other page of the mirror as it was. */
  lemma {:induction false} LockRangeLocks(words: seq<Word>, first: nat, last: int, q: nat)
    requires last < 32 * |words| && WordOf(q) < |words|
    ensures PageLocked(LockRange(words, first, last), q) == ((first <= q <= last) || PageLocked(words, q))
    decreases last - first + 1
  {
    if first <= last {
      var w1 := WithLock(words, first, true);
      LockRangeLocks(w1, first + 1, last, q);
      if q == first {
        LockRoundTrip(words, first, true);
      } else {
        LockOthers(words, first, true, q);
      }
    }
  }
}
