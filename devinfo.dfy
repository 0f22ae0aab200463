/** efr32x_read_info and efr32x_decode_info: identify the core from CPUID,
    read the device-information page, accept only the Mighty and Blue Gecko
    families with 2 KiB pages, and describe the part as text. */
module DeviceInfo {
  import opened Efr32Defs
  import opened Target

  /** struct efr32_info: the fields read from the device-information page
      and the decoded page size. */
  datatype Info = Info(flashKib: nat, ramKib: nat, partNum: nat, family: nat, prodRev: nat, pageSize: nat)

  /** The part-number field of CPUID: (cpuid >> 4) & 0xfff. */
  function CorePart(cpuid: Word): Word
  {
    (cpuid >> 4) & 0xfff
  }

  /** Cortex-M3 (0xc23), Cortex-M4 (0xc24) or Cortex-M0+ (0xc60). */
  predicate KnownCore(cpuid: Word)
  {
    var p := CorePart(cpuid);
    p == 0xc23 || p == 0xc24 || p == 0xc60
  }

  predicate KnownFamily(family: nat)
  {
    family == FAMILY_BLUE_GECKO || family == FAMILY_MIGHTY_GECKO
  }

  function Pow2(k: nat): (r: nat)
    ensures r > 0
  {
    if k == 0 then 1 else 2 * Pow2(k - 1)
  }

  lemma {:induction false} Pow2Grows(a: nat, b: nat)
    requires a < b
    ensures Pow2(a) < Pow2(b)
    decreases b
  {
    if a < b - 1 {
      Pow2Grows(a, b - 1);
    }
  }

  /** The page size read_info derives from the PAGE_SIZE byte `pg`:
      1 << ((pg + 10) & 0xff) stored in a uint16. Shift counts from 16 to 31
      move the one out of the 16 bits; counts of 32 and more are undefined
      in C and are taken as 0 here too. */
  function PageSizeOf(pg: nat): nat
    requires pg < 0x100
  {
    var sh := (pg + 10) % 0x100;
    if sh < 16 then Pow2(sh) else 0
  }

  /** The only PAGE_SIZE byte read_info accepts is 1. */
  lemma PageSizeAccepted(pg: nat)
    requires pg < 0x100
    ensures PageSizeOf(pg) == SUPPORTED_PAGE_SIZE <==> pg == 1
  {
    var sh := (pg + 10) % 0x100;
    assert Pow2(11) == SUPPORTED_PAGE_SIZE;
    if sh < 11 {
      Pow2Grows(sh, 11);
    } else if 11 < sh < 16 {
      Pow2Grows(11, sh);
    }
  }

  /** The value of a 16-bit and of an 8-bit read of a device word. */
  function Low16(w: Word): (r: nat)
    ensures r < 0x1_0000
  {
    ((w & 0xffff) as bv16) as int
  }

  function Low8(w: Word): (r: nat)
    ensures r < 0x100
  {
    ((w & 0xff) as bv8) as int
  }

  /** efr32x_read_info: the info is zeroed, CPUID is read and an unknown
      core fails before the device-information page is read; the fields are
      then read one by one, each failure returned at once. */
  function ReadInfo(b: Bus): (Result<Info>, Bus)
  {
    var (c, b1) := Read32(b, CPUID_ADDR);
    if c.Failure? then (Failure(c.error), b1)
    else if !KnownCore(c.value) then (Failure(Fail), b1)
    else ReadFlashSize(b1, Info(0, 0, 0, 0, 0, 0))
  }

  function ReadFlashSize(b: Bus, info: Info): (Result<Info>, Bus)
  {
    var (v, b1) := Read16(b, DI_FLASH_SZ);
    if v.Failure? then (Failure(v.error), b1) else ReadRamSize(b1, info.(flashKib := v.value))
  }

  function ReadRamSize(b: Bus, info: Info): (Result<Info>, Bus)
  {
    var (v, b1) := Read16(b, DI_RAM_SZ);
    if v.Failure? then (Failure(v.error), b1) else ReadPartNum(b1, info.(ramKib := v.value))
  }

  function ReadPartNum(b: Bus, info: Info): (Result<Info>, Bus)
  {
    var (v, b1) := Read16(b, DI_PART_NUM);
    if v.Failure? then (Failure(v.error), b1) else ReadFamily(b1, info.(partNum := v.value))
  }

  function ReadFamily(b: Bus, info: Info): (Result<Info>, Bus)
  {
    var (v, b1) := Read8(b, DI_PART_FAMILY);
    if v.Failure? then (Failure(v.error), b1) else ReadRevision(b1, info.(family := v.value))
  }

  /** The production revision; then a family other than Mighty or Blue
      Gecko fails before PAGE_SIZE is read. */
  function ReadRevision(b: Bus, info: Info): (Result<Info>, Bus)
  {
    var (v, b1) := Read8(b, DI_PROD_REV);
    if v.Failure? then (Failure(v.error), b1)
    else if !KnownFamily(info.family) then (Failure(Fail), b1)
    else ReadPageSize(b1, info.(prodRev := v.value))
  }

  /** The PAGE_SIZE byte, decoded; any page size but 2048 fails. */
  function ReadPageSize(b: Bus, info: Info): (Result<Info>, Bus)
  {
    var (v, b1) := Read8(b, DI_PAGE_SIZE);
    if v.Failure? then (Failure(v.error), b1)
    else
      var size := PageSizeOf(v.value);
      if size != SUPPORTED_PAGE_SIZE then (Failure(Fail), b1)
      else (Success(info.(pageSize := size)), b1)
  }

  /** The calls of a complete read_info, in order. */
  function InfoReads(): seq<Event>
  {
    [Read(CPUID_ADDR, 32), Read(DI_FLASH_SZ, 16), Read(DI_RAM_SZ, 16), Read(DI_PART_NUM, 16),
     Read(DI_PART_FAMILY, 8), Read(DI_PROD_REV, 8), Read(DI_PAGE_SIZE, 8)]
  }

  /** The Info a device describes: the fields of its device-information
      page with the page size decoded. */
  function DeviceInfoOf(b: Bus): Info
  {
    Info(Low16(Cell(b, DI_FLASH_SZ)), Low16(Cell(b, DI_RAM_SZ)), Low16(Cell(b, DI_PART_NUM)),
         Low8(Cell(b, DI_PART_FAMILY)), Low8(Cell(b, DI_PROD_REV)), PageSizeOf(Low8(Cell(b, DI_PAGE_SIZE))))
  }

  /** A device read_info accepts: a known core and family and a PAGE_SIZE
      byte of 1. */
  predicate Supported(b: Bus)
  {
    KnownCore(Cell(b, CPUID_ADDR)) && KnownFamily(Low8(Cell(b, DI_PART_FAMILY))) &&
    Low8(Cell(b, DI_PAGE_SIZE)) == 1
  }

  /** A read of a device word that reaches the target returns the word's
      low bits and logs the call. */
  lemma Read16Clean(b: Bus, a: nat)
    requires !FaultsNext(b) && a != MSC_STATUS
    ensures Read16(b, a) == (Success(Low16(Cell(b, a))), Log(b, Read(a, 16)))
  {
  }

  lemma Read8Clean(b: Bus, a: nat)
    requires !FaultsNext(b) && a != MSC_STATUS
    ensures Read8(b, a) == (Success(Low8(Cell(b, a))), Log(b, Read(a, 8)))
  {
  }

  /** The read steps of read_info on a call that reaches the target: each
      stores the field read and hands on to the next step. */
  lemma FlashSizeStep(d: Bus, b: Bus, info: Info, b': Bus, info': Info)
    requires !FaultsNext(b) && b.mem == d.mem && b' == Log(b, Read(DI_FLASH_SZ, 16))
    requires info' == info.(flashKib := Low16(Cell(d, DI_FLASH_SZ)))
    ensures ReadFlashSize(b, info) == ReadRamSize(b', info')
  {
    Read16Clean(b, DI_FLASH_SZ);
  }

  lemma RamSizeStep(d: Bus, b: Bus, info: Info, b': Bus, info': Info)
    requires !FaultsNext(b) && b.mem == d.mem && b' == Log(b, Read(DI_RAM_SZ, 16))
    requires info' == info.(ramKib := Low16(Cell(d, DI_RAM_SZ)))
    ensures ReadRamSize(b, info) == ReadPartNum(b', info')
  {
    Read16Clean(b, DI_RAM_SZ);
  }

  lemma PartNumStep(d: Bus, b: Bus, info: Info, b': Bus, info': Info)
    requires !FaultsNext(b) && b.mem == d.mem && b' == Log(b, Read(DI_PART_NUM, 16))
    requires info' == info.(partNum := Low16(Cell(d, DI_PART_NUM)))
    ensures ReadPartNum(b, info) == ReadFamily(b', info')
  {
    Read16Clean(b, DI_PART_NUM);
  }

  lemma FamilyStep(d: Bus, b: Bus, info: Info, b': Bus, info': Info)
    requires !FaultsNext(b) && b.mem == d.mem && b' == Log(b, Read(DI_PART_FAMILY, 8))
    requires info' == info.(family := Low8(Cell(d, DI_PART_FAMILY)))
    ensures ReadFamily(b, info) == ReadRevision(b', info')
  {
    Read8Clean(b, DI_PART_FAMILY);
  }

  /** An unknown family fails once the revision is read: PAGE_SIZE is never
      read. */
  lemma RevisionStep(d: Bus, b: Bus, info: Info, b': Bus, info': Info)
    requires !FaultsNext(b) && b.mem == d.mem && b' == Log(b, Read(DI_PROD_REV, 8))
    requires info' == info.(prodRev := Low8(Cell(d, DI_PROD_REV)))
    ensures ReadRevision(b, info) ==
      if !KnownFamily(info.family) then (Failure(Fail), b') else ReadPageSize(b', info')
  {
    Read8Clean(b, DI_PROD_REV);
  }

  /** A PAGE_SIZE byte other than 1 fails. */
  lemma PageSizeStep(d: Bus, b: Bus, info: Info, b': Bus, info': Info)
    requires !FaultsNext(b) && b.mem == d.mem && b' == Log(b, Read(DI_PAGE_SIZE, 8))
    requires info' == info.(pageSize := SUPPORTED_PAGE_SIZE)
    ensures ReadPageSize(b, info) ==
      (if Low8(Cell(d, DI_PAGE_SIZE)) == 1 then Success(info') else Failure(Fail), b')
  {
    Read8Clean(b, DI_PAGE_SIZE);
    PageSizeAccepted(Low8(Cell(b, DI_PAGE_SIZE)));
  }

  /** The CPUID read of read_info on a call that reaches the target. */
  lemma CoreStep(b: Bus, b': Bus)
    requires !FaultsNext(b) && b' == Log(b, Read(CPUID_ADDR, 32))
    ensures ReadInfo(b) ==
      if !KnownCore(Cell(b, CPUID_ADDR)) then (Failure(Fail), b')
      else ReadFlashSize(b', Info(0, 0, 0, 0, 0, 0))
  {
    assert Read32(b, CPUID_ADDR) == (Success(Cell(b, CPUID_ADDR)), b');
  }

  /** The bus after the seven calls of a complete read_info. */
  function AfterReads(b: Bus): Bus
  {
    b.(trace := b.trace + InfoReads())
  }

  lemma LogsThenLog(b: Bus, es: seq<Event>, e: Event)
    ensures Log(b.(trace := b.trace + es), e) == b.(trace := b.trace + (es + [e]))
  {
    assert b.trace + es + [e] == b.trace + (es + [e]);
  }

  /** The k-th call of a clean run reaches the target. */
  lemma CleanAt(b: Bus, c: Bus, n: nat, k: nat)
    requires Clean(b, n) && k < n && c.faults == b.faults && |c.trace| == |b.trace| + k
    ensures !FaultsNext(c)
  {
  }

  /** On a target whose seven reads all succeed, read_info succeeds exactly
      on a supported device, and then returns that device's description
      having made the seven reads in order. */
  lemma ReadInfoClean(b: Bus)
    requires Clean(b, 7)
    ensures ReadInfo(b).0.Success? <==> Supported(b)
    ensures !Supported(b) ==> ReadInfo(b).0 == Failure(Fail)
    ensures ReadInfo(b).0.Success? ==> ReadInfo(b) == (Success(DeviceInfoOf(b)), AfterReads(b))
  {
    var e := InfoReads();
    var b1 := Log(b, e[0]);
    CleanAt(b, b, 7, 0);
    CoreStep(b, b1);
    if KnownCore(Cell(b, CPUID_ADDR)) {
      var b2 := Log(b1, e[1]);
      var b3 := Log(b2, e[2]);
      var fl, ra := Low16(Cell(b, DI_FLASH_SZ)), Low16(Cell(b, DI_RAM_SZ));
      CleanAt(b, b1, 7, 1);
      FlashSizeStep(b, b1, Info(0, 0, 0, 0, 0, 0), b2, Info(fl, 0, 0, 0, 0, 0));
      CleanAt(b, b2, 7, 2);
      RamSizeStep(b, b2, Info(fl, 0, 0, 0, 0, 0), b3, Info(fl, ra, 0, 0, 0, 0));
      ReadInfoTail(b, b1, b2, b3);
      assert ReadInfo(b) == ReadPartNum(b3, Info(fl, ra, 0, 0, 0, 0));
    }
  }

  /** The last five reads of a clean read_info. */
  lemma ReadInfoTail(b: Bus, b1: Bus, b2: Bus, b3: Bus)
    requires Clean(b, 7)
    requires b1 == Log(b, InfoReads()[0]) && b2 == Log(b1, InfoReads()[1]) && b3 == Log(b2, InfoReads()[2])
    ensures var r := ReadPartNum(b3, Info(Low16(Cell(b, DI_FLASH_SZ)), Low16(Cell(b, DI_RAM_SZ)), 0, 0, 0, 0));
      (r.0.Success? <==> KnownFamily(Low8(Cell(b, DI_PART_FAMILY))) && Low8(Cell(b, DI_PAGE_SIZE)) == 1) &&
      (!r.0.Success? ==> r.0 == Failure(Fail)) &&
      (r.0.Success? ==> r == (Success(DeviceInfoOf(b)), AfterReads(b)))
  {
    var e := InfoReads();
    var fl, ra, pn := Low16(Cell(b, DI_FLASH_SZ)), Low16(Cell(b, DI_RAM_SZ)), Low16(Cell(b, DI_PART_NUM));
    var fa, rv := Low8(Cell(b, DI_PART_FAMILY)), Low8(Cell(b, DI_PROD_REV));
    var b4 := Log(b3, e[3]);
    var b5 := Log(b4, e[4]);
    var b6 := Log(b5, e[5]);
    var b7 := Log(b6, e[6]);
    CleanAt(b, b3, 7, 3);
    PartNumStep(b, b3, Info(fl, ra, 0, 0, 0, 0), b4, Info(fl, ra, pn, 0, 0, 0));
    CleanAt(b, b4, 7, 4);
    FamilyStep(b, b4, Info(fl, ra, pn, 0, 0, 0), b5, Info(fl, ra, pn, fa, 0, 0));
    CleanAt(b, b5, 7, 5);
    RevisionStep(b, b5, Info(fl, ra, pn, fa, 0, 0), b6, Info(fl, ra, pn, fa, rv, 0));
    if KnownFamily(fa) {
      CleanAt(b, b6, 7, 6);
      PageSizeStep(b, b6, Info(fl, ra, pn, fa, rv, 0), b7, Info(fl, ra, pn, fa, rv, SUPPORTED_PAGE_SIZE));
      PageSizeAccepted(1);
      AfterSeven(b, b1, b2, b3, b4, b5, b6);
    }
  }

  lemma AfterSeven(b: Bus, b1: Bus, b2: Bus, b3: Bus, b4: Bus, b5: Bus, b6: Bus)
    requires b1 == Log(b, InfoReads()[0]) && b2 == Log(b1, InfoReads()[1]) && b3 == Log(b2, InfoReads()[2])
    requires b4 == Log(b3, InfoReads()[3]) && b5 == Log(b4, InfoReads()[4]) && b6 == Log(b5, InfoReads()[5])
    ensures Log(b6, InfoReads()[6]) == AfterReads(b)
  {
    var e := InfoReads();
    LogsThenLog(b, e[..1], e[1]);
    assert e[..1] + [e[1]] == e[..2];
    LogsThenLog(b, e[..2], e[2]);
    assert e[..2] + [e[2]] == e[..3];
    LogsThenLog(b, e[..3], e[3]);
    assert e[..3] + [e[3]] == e[..4];
    LogsThenLog(b, e[..4], e[4]);
    assert e[..4] + [e[4]] == e[..5];
    LogsThenLog(b, e[..5], e[5]);
    assert e[..5] + [e[5]] == e[..6];
    LogsThenLog(b, e[..6], e[6]);
    assert e[..6] + [e[6]] == e;
  }

  /** An unknown core fails read_info after the CPUID read alone. */
  lemma UnknownCoreFails(b: Bus)
    requires !FaultsNext(b) && !KnownCore(Cell(b, CPUID_ADDR))
    ensures ReadInfo(b) == (Failure(Fail), Log(b, Read(CPUID_ADDR, 32)))
  {
    assert Read32(b, CPUID_ADDR) == (Success(Cell(b, CPUID_ADDR)), Log(b, Read(CPUID_ADDR, 32)));
  }

  /** A failed transport call ends read_info with that call's error. */
  lemma ReadInfoTransport(b: Bus)
    requires FaultsNext(b)
    ensures ReadInfo(b) == (Failure(b.faults[|b.trace|]), Log(b, Failed(Read(CPUID_ADDR, 32))))
  {
  }

  /** The family names of efr32x_decode_info. */
  function FamilyName(family: nat): string
  {
    if family == FAMILY_MIGHTY_GECKO then "Mighty Gecko"
    else if family == FAMILY_BLUE_GECKO then "Blue Gecko"
    else "Unknown Gecko"
  }

  function Digit(d: nat): (c: char)
    requires d < 10
    ensures '0' <= c <= '9'
  {
    "0123456789"[d]
  }

  function DigitValue(c: char): nat
    requires '0' <= c <= '9'
  {
    (c as int) - ('0' as int)
  }

  predicate IsDigits(s: string)
  {
    forall i | 0 <= i < |s| :: '0' <= s[i] <= '9'
  }

  /** "%d" of a non-negative number. */
  function Decimal(n: nat): (r: string)
    ensures r != [] && IsDigits(r)
    ensures n >= 10 ==> r[0] != '0'
  {
    if n < 10 then [Digit(n)] else Decimal(n / 10) + [Digit(n % 10)]
  }

  /** The number a string of decimal digits denotes. */
  function DecimalValue(s: string): nat
    requires IsDigits(s)
  {
    if s == [] then 0 else 10 * DecimalValue(s[..|s| - 1]) + DigitValue(s[|s| - 1])
  }

  /** Printing a number in decimal and reading it back gives the number. */
  lemma {:induction false} DecimalRoundTrip(n: nat)
    ensures DecimalValue(Decimal(n)) == n
  {
    var r := Decimal(n);
    if n < 10 {
      assert DigitValue(Digit(n)) == n;
    } else {
      DecimalRoundTrip(n / 10);
      assert r[..|r| - 1] == Decimal(n / 10);
      assert DigitValue(Digit(n % 10)) == n % 10;
    }
  }

  /** A revision byte prints in at most three digits. */
  lemma {:induction false} DecimalLength(n: nat)
    requires n < 1000
    ensures |Decimal(n)| <= 3
  {
    if n >= 10 {
      DecimalLength(n / 10);
      if n < 100 {
        assert n / 10 < 10;
      }
    }
  }

  /** The text decode_info composes. */
  function Description(info: Info): string
  {
    "EFR32 " + FamilyName(info.family) + " - Rev: " + Decimal(info.prodRev)
  }

  /** efr32x_decode_info: the three pieces are printed in turn, and after
      each the space left (buf_size less what snprintf reports printed) must
      stay positive, or BUF_TOO_SMALL is returned. */
  function DecodeInfo(info: Info, bufSize: int): Result<string>
  {
    var left1 := bufSize - |"EFR32 "|;
    if left1 <= 0 then Failure(BufTooSmall)
    else
      var left2 := left1 - |FamilyName(info.family)|;
      if left2 <= 0 then Failure(BufTooSmall)
      else
        var left3 := left2 - |" - Rev: " + Decimal(info.prodRev)|;
        if left3 <= 0 then Failure(BufTooSmall)
        else Success(Description(info))
  }

  /** decode_info succeeds exactly when the buffer has room for the whole
      text and its terminating NUL, and then yields that text. */
  lemma DecodeFits(info: Info, bufSize: int)
    ensures DecodeInfo(info, bufSize).Success? <==> bufSize > |Description(info)|
    ensures DecodeInfo(info, bufSize).Success? ==> DecodeInfo(info, bufSize).value == Description(info)
  {
  }

  /** The 256-byte buffer of efr32x_probe always suffices for a revision
      read as a byte. */
  lemma ProbeBufferFits(info: Info)
    requires info.prodRev < 0x100
    ensures DecodeInfo(info, 256).Success?
  {
    DecimalLength(info.prodRev);
    DecodeFits(info, 256);
  }

  /** get_efr32x_info: read_info, then decode_info into the caller's
      buffer. */
  function GetInfo(b: Bus, bufSize: int): (Result<string>, Bus)
  {
    var (i, b1) := ReadInfo(b);
    if i.Failure? then (Failure(i.error), b1) else (DecodeInfo(i.value, bufSize), b1)
  }

  /** On a target whose reads succeed, get_info yields the description of a
      supported device when the buffer is large enough, and fails
      otherwise. */
  lemma GetInfoClean(b: Bus, bufSize: int)
    requires Clean(b, 7)
    ensures GetInfo(b, bufSize).0.Success? <==> Supported(b) && bufSize > |Description(DeviceInfoOf(b))|
    ensures GetInfo(b, bufSize).0.Success? ==> GetInfo(b, bufSize).0.value == Description(DeviceInfoOf(b))
  {
    ReadInfoClean(b);
    if Supported(b) {
      DecodeFits(DeviceInfoOf(b), bufSize);
    }
  }
}
