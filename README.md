# EFR32 flash driver, modelled in Dafny

This project models `src/flash/nor/efr32.c`, the OpenOCD flash driver for the
Silicon Labs EFR32 Mighty Gecko and Blue Gecko parts, and proves properties of
the model. The driver does several jobs:

- It reads the device-information page to classify the part.
- It lays out the flash bank as 2 KiB sectors.
- It keeps a 128-word mirror of the lock-bits page, one inverted protection
  bit per sector.
- It drives the memory system controller (MSC) one register access at a time,
  to erase pages and program words.
- It can also upload a small Thumb loader that drains a ring buffer into
  flash.

## How the target is modelled

The debug target is a value, `Target.Bus`. It has these parts:

- a halted flag;
- a register and memory map;
- the sequence of values successive reads of MSC_STATUS return (the status
  feed);
- the transport failures, keyed by the position of the access in the trace;
- the answers the working-area allocator gives, in order;
- the replies of loader runs;
- the multiset of working areas currently held;
- the trace of every access made, failed accesses included.

Each transport call (`target_read_u32` and the others) appends one event to
the trace. The call fails with the recorded error when the next trace position
is marked as a fault. Writes to memory are applied to the map. Reads of
MSC_STATUS come from the status feed. MSC_WRITECMD is a command register and
reads as 0, so the read-modify-write that issues a command writes the command
mask alone. A failed `target_read_u32` into the lock-bits mirror leaves 0 in
the mirror word, as OpenOCD's `target_read_u32` stores 0 in its destination
when the read fails.

Straight-line register protocols are functions from a `Bus` to a status and a
new `Bus`; this covers set_reg_bits, msc_lock, set_wren, erase_page,
write_word, read_info and write_lock_data. Each source loop is a `method` with
a `while` loop, proved equal to a recursive specification function:

- wait_status;
- the page loop of erase;
- the word-at-a-time fallback of write;
- the ring-size loop of write_block;
- the read loops of read_lock_data;
- the sector-table loop of probe;
- the on-target drain loop.

The driver's per-bank state is the class `Bank.FlashBank`. Its `lbPage` is an
`array` of 128 words, updated in place as the C code updates `lb_page`. Its
other fields are `probed` and the bank geometry and sector table that the
driver stores in `struct flash_bank`.

What the MSC does with the register protocol is stated through two views of
the trace:

- `WritesTo(t, a)` is the sequence of values written to address `a`.
- `Commits(t)` is the sequence of (flash address, data word) pairs the MSC was
  commanded to program. Each pair is one WRITEONCE command, paired with the
  address last latched through ADDRB and the data last written to WDATA.

The on-target loader is modelled separately (`Loader`) as a sequential
machine over registers r0..r5, a RAM snapshot and its own status feed. It
follows the commented listing in write_block. Its stops are:

- `Done`: the count reached zero;
- `HostAbort`: the write pointer is zero;
- `Refused`: a LOCKED or INVADDR status;
- `Stalled`: the read pointer reached the write pointer;
- `Hung`: a status poll ran out of feed.

The last two stand for the points where the real loader waits on the host or
on the MSC forever.

## Model

| member | source | states |
|---|---|---|
| DeviceInfo.PageSizeAccepted | src/flash/nor/efr32.c:172-182 | the page-size byte decodes to 2048 exactly when it is 1 |
| DeviceInfo.ReadInfoClean | src/flash/nor/efr32.c:127-189 | with no transport failure, read_info succeeds exactly on a known CPUID part, known family and page-size byte 1; a rejected part gives ERROR_FAIL; success returns the fields decoded from the device-information page after exactly the seven reads |
| DeviceInfo.UnknownCoreFails | src/flash/nor/efr32.c:135-148 | a CPUID part other than 0xc23, 0xc24 or 0xc60 fails after the CPUID read alone |
| DeviceInfo.ReadInfoTransport | src/flash/nor/efr32.c:135-137 | a failed CPUID read returns its own error and nothing else is read |
| DeviceInfo.CoreStep | src/flash/nor/efr32.c:135-148 | after a clean CPUID read, an unknown part fails and a known part goes on to the flash-size read |
| DeviceInfo.FlashSizeStep | src/flash/nor/efr32.c:150-152 | a clean 16-bit read of DI_FLASH_SZ stores its low 16 bits and goes on to the RAM-size read |
| DeviceInfo.RamSizeStep | src/flash/nor/efr32.c:154-156 | a clean read of DI_RAM_SZ stores its low 16 bits and goes on to the part-number read |
| DeviceInfo.PartNumStep | src/flash/nor/efr32.c:158-160 | a clean read of DI_PART_NUM stores its low 16 bits and goes on to the family read |
| DeviceInfo.FamilyStep | src/flash/nor/efr32.c:162-164 | a clean 8-bit read of DI_PART_FAMILY stores its low byte and goes on to the revision read |
| DeviceInfo.RevisionStep | src/flash/nor/efr32.c:166-186 | after the revision read, a family other than 20 or 28 fails, otherwise the page-size read follows |
| DeviceInfo.PageSizeStep | src/flash/nor/efr32.c:172-182 | the page-size read succeeds with page size 2048 exactly when its byte is 1, else ERROR_FAIL |
| DeviceInfo.Read16Clean | src/flash/nor/efr32.c:102-115 | a 16-bit read that reaches the target returns the low 16 bits of the word and logs one read |
| DeviceInfo.Read8Clean | src/flash/nor/efr32.c:117-125 | an 8-bit read that reaches the target returns the low byte and logs one read |
| DeviceInfo.DecimalRoundTrip | src/flash/nor/efr32.c:231 | the decimal digits printed for the revision read back as the same number |
| DeviceInfo.DecimalLength | src/flash/nor/efr32.c:231 | a number below 1000, which includes any revision byte, prints in at most three digits |
| DeviceInfo.DecodeFits | src/flash/nor/efr32.c:194-239 | decode_info succeeds exactly when the buffer is longer than "EFR32 " + family name + " - Rev: N", and then returns that string |
| DeviceInfo.ProbeBufferFits | src/flash/nor/efr32.c:855-857 | probe's 256-byte buffer always holds the description |
| DeviceInfo.GetInfoClean | src/flash/nor/efr32.c:932-944 | with no transport failure, info succeeds exactly on a supported part whose description fits, and returns the description |
| Msc.WithBitsMask | src/flash/nor/efr32.c:270-273 | set_reg_bits' new value has the mask bits all set (set) or all clear (reset) and every other bit as read |
| Msc.SetRegBits | src/flash/nor/efr32.c:260-276 | a failed read returns its error with no write; otherwise one read then one write of the updated value, Ok exactly when that write reaches the target, and only on success is the register updated |
| Msc.SetRegBitsWrites | src/flash/nor/efr32.c:260-276 | set_reg_bits writes nothing to any other address |
| Msc.LockValue | src/flash/nor/efr32.c:284-288 | the MSC lock value is 0 exactly when locking, and the key 0x1b71 when unlocking |
| Msc.UnlockEffect | src/flash/nor/efr32.c:379-384 | the unlock and WREN enable write the key once to MSC_LOCK and nothing to any other register but WRITECTRL |
| Msc.UnlockResult | src/flash/nor/efr32.c:379-384 | the unlock and WREN enable succeed exactly when the WRITECTRL read and write both reach the target, the lock write's own result being ignored; otherwise the first of those two failures' error is returned |
| Msc.RelockEffect | src/flash/nor/efr32.c:392-395 | the cleanup writes 0 to MSC_LOCK once and nothing to any other register but WRITECTRL; it reports Ok exactly when its final WRITECTRL write reached the target |
| Msc.PollStatus | src/flash/nor/efr32.c:290-320 | wait_status changes nothing on the target: memory, faults, allocator, loader replies and halted state are kept |
| Msc.WaitStatus | src/flash/nor/efr32.c:290-320 | the countdown loop returns exactly what the recursive wait_status specification gives |
| Msc.PollTrace | src/flash/nor/efr32.c:296-311 | wait_status issues between 1 and timeout + 1 accesses, all of them MSC_STATUS reads, and stops at the first failed read |
| Msc.PollFirstHit | src/flash/nor/efr32.c:303-306 | when read k is the first, within the budget, whose masked value matches wait_for_set, wait_status returns Ok after exactly k + 1 reads |
| Msc.PollTimeout | src/flash/nor/efr32.c:308-311 | when the condition never holds, wait_status returns ERROR_FAIL after exactly timeout + 1 reads |
| Msc.PollFault | src/flash/nor/efr32.c:297-299 | a failed status read before the condition holds returns that read's error at once |
| Msc.PollOk | src/flash/nor/efr32.c:296-306 | an Ok result means some read within the budget was the first to meet the condition, all reads up to it clean |
| Msc.PollWrites | src/flash/nor/efr32.c:290-320 | wait_status writes nothing |
| Msc.LatchClean | src/flash/nor/efr32.c:336-357 | with no failure, the ADDRB write, the LADDRIM set and one status read are issued, and they fail exactly when that status shows LOCKED or INVADDR |
| Msc.LatchOk | src/flash/nor/efr32.c:336-357 | a successful latch had four clean accesses and a status free of LOCKED and INVADDR |
| Msc.ErasePageRejected | src/flash/nor/efr32.c:351-357 | a LOCKED or INVADDR status fails erase_page with ERROR_FAIL before any ERASEPAGE command |
| Msc.ErasePageSplit | src/flash/nor/efr32.c:359-365 | a successful erase_page is the latch, then ERASEPAGE, then the BUSY wait |
| Msc.ErasePageOk | src/flash/nor/efr32.c:322-366 | a successful erase_page's trace is the latch, ERASEPAGE and n status reads of which only the last shows BUSY clear |
| Msc.ErasePageWrites | src/flash/nor/efr32.c:336-341 | erase_page writes only the page address to ADDRB, and nothing to any other register but WRITECMD |
| Msc.WriteWordRejected | src/flash/nor/efr32.c:724-730 | a LOCKED or INVADDR status fails write_word before WDATA or WRITEONCE |
| Msc.WriteDataSplit | src/flash/nor/efr32.c:732-737 | a successful word write waited cleanly for WDATAREADY, and the rest is the final BUSY wait |
| Msc.WriteDataOk | src/flash/nor/efr32.c:732-757 | a successful data phase is n status reads of which only the last shows WDATAREADY, then WDATA, then WRITECMD = WRITEONCE written directly, then m reads of which only the last shows BUSY clear |
| Msc.WriteWordOk | src/flash/nor/efr32.c:687-760 | a successful write_word is the latch, the WDATAREADY wait, WDATA, WRITEONCE and the BUSY wait, in that order |
| Msc.WriteWordCommits | src/flash/nor/efr32.c:739-750 | a successful write_word programs exactly the pair (address, value) |
| Msc.WriteWordPartial | src/flash/nor/efr32.c:739-757 | any write_word, failed or not, programs nothing or exactly (address, value) |
| Msc.WriteWordWrites | src/flash/nor/efr32.c:709-750 | write_word writes only its address to ADDRB and nothing to any other register but WDATA and WRITECMD |
| Msc.WriteDataWrites | src/flash/nor/efr32.c:732-757 | the data phase writes nothing but WDATA and WRITECMD |
| Msc.UnlockQuiet | src/flash/nor/efr32.c:379-380 | unlocking and enabling WREN programs nothing |
| Msc.RelockQuiet | src/flash/nor/efr32.c:392-393 | clearing WREN and relocking programs nothing |
| FlashErase.Erase | src/flash/nor/efr32.c:368-396 | the erase loop returns exactly what the erase specification gives |
| FlashErase.ErasePagesWrites | src/flash/nor/efr32.c:386-390 | the page loop writes to ADDRB exactly the offsets first..last in order, whatever each page's outcome, and nothing to any other register but WRITECMD |
| FlashErase.EraseSplit | src/flash/nor/efr32.c:379-395 | on a halted target whose enable succeeds, erase is unlock, the page loop, then the relock |
| FlashErase.EraseEnabled | src/flash/nor/efr32.c:379-395 | then every page first..last is attempted in order, the MSC is unlocked and relocked once each, and the result comes from the relock, not from the pages |
| FlashErase.EraseEnableFails | src/flash/nor/efr32.c:379-384 | a failed enable returns its error with no page attempted and no relock |
| FlashErase.EraseNotHalted | src/flash/nor/efr32.c:374-377 | a target not halted fails with ERROR_TARGET_NOT_HALTED and no access |
| FlashWrite.PaddedCountAgrees | src/flash/nor/efr32.c:779-781 | `(count|3)+1` as written equals the padded count while it fits in 32 bits |
| FlashWrite.PaddedCountWraps | src/flash/nor/efr32.c:781 | for count 0xFFFFFFFD the 32-bit `(count|3)+1` wraps to 0, below the count |
| FlashWrite.PaddedCount | src/flash/nor/efr32.c:781 | the padded count is the smallest multiple of 4 not below the count, and an aligned count is kept |
| FlashWrite.Padded | src/flash/nor/efr32.c:779-792 | the padded buffer has the caller's bytes as its prefix and 0xFF in the tail |
| FlashWrite.LeWordBytes | src/flash/nor/efr32.c:814 | the four bytes of a little-endian word are the bytes it was built from |
| FlashWrite.WordBytesLe | src/flash/nor/efr32.c:814 | building a word from its four little-endian bytes gives the word back |
| FlashWrite.BytesWords | src/flash/nor/efr32.c:812-822 | splitting a word-aligned buffer into words and back gives the buffer |
| FlashWrite.WordsBytes | src/flash/nor/efr32.c:812-822 | turning words into bytes and back gives the words |
| FlashWrite.PairAt | src/flash/nor/efr32.c:812-823 | fallback word i goes to offset + 4i |
| FlashWrite.WriteWordsOk | src/flash/nor/efr32.c:812-823 | a successful fallback programs exactly the words of the buffer, in order, at offset + 4i |
| FlashWrite.WriteWordsErr | src/flash/nor/efr32.c:816-818 | a failed fallback stopped at some word k: words 0..k-1 were programmed in order, then word k at most |
| FlashWrite.WriteWordsWrites | src/flash/nor/efr32.c:812-823 | the fallback writes nothing but ADDRB, WDATA and WRITECMD |
| FlashWrite.Write | src/flash/nor/efr32.c:762-837 | the write method returns exactly what the write specification gives |
| FlashWrite.WriteFallback | src/flash/nor/efr32.c:812-823 | the fallback loop over buffer, offset and words_remaining returns exactly what the word-by-word specification gives |
| FlashWrite.FallbackWord | src/flash/nor/efr32.c:813-822 | one iteration either fails as the whole fallback fails, or leaves the rest of the fallback at offset + 4 |
| FlashWrite.WriteRejected | src/flash/nor/efr32.c:768-792 | a failed precheck leaves the target untouched. NOT_HALTED comes first, then DST_BREAKS_ALIGNMENT for a misaligned offset, then ERROR_FAIL when an unaligned count cannot be padded |
| FlashWrite.WriteEnableFails | src/flash/nor/efr32.c:798-801 | a failed enable returns its error with no relock and nothing programmed |
| FlashWrite.ProgramKeepsLock | src/flash/nor/efr32.c:803-824 | the programming phase writes nothing to MSC_LOCK |
| FlashWrite.WriteRelocks | src/flash/nor/efr32.c:797-830 | once enabling succeeds, write unlocks the MSC once and relocks it once, whatever the programming outcome |
| FlashWrite.ProgramCommits | src/flash/nor/efr32.c:803-824 | the block path's result is kept unless it is RESOURCE_NOT_AVAILABLE, and the host programs nothing itself; after that error, a successful fallback programs the padded buffer word by word |
| FlashWrite.WriteFallbackCommits | src/flash/nor/efr32.c:803-830 | when the block path is unavailable and write succeeds, the padded buffer's words are programmed in order at offset + 4i |
| FlashWrite.WriteBlockPath | src/flash/nor/efr32.c:803-830 | when the block path is taken, the host programs nothing, and its error wins over the cleanup's result |
| BlockWrite.Halve | src/flash/nor/efr32.c:626-627 | one step of the size loop halves the size, rounds it down to a multiple of 4, and loses less than 4 |
| BlockWrite.RingSize | src/flash/nor/efr32.c:625-628 | every ring size tried is above the 256-byte floor |
| BlockWrite.HalveSizes | src/flash/nor/efr32.c:625-635 | halving each tried size gives the next one, and after 512 comes the floor 256, which is never tried |
| BlockWrite.AllocRingSizes | src/flash/nor/efr32.c:625-636 | the ring allocation asks for 16384, 8192, ... in order, stops at the first size granted and returns it, or gives up after 512 |
| BlockWrite.AllocRingFrom | src/flash/nor/efr32.c:625-636 | the same from any size in the sequence on |
| BlockWrite.WriteBlock | src/flash/nor/efr32.c:526-685 | the write_block method, with its size-halving loop, returns exactly what the block-write specification gives |
| BlockWrite.BlockWriteReleases | src/flash/nor/efr32.c:612-676 | (corrected) every working area the block write takes is released on every path |
| BlockWrite.BlockWriteSilent | src/flash/nor/efr32.c:612-676 | the host makes no register write itself during a block write |
| BlockWrite.BlockWriteQuiet | src/flash/nor/efr32.c:612-676 | so no register's written values and no programmed pair change on the host side |
| BlockWrite.BlockWriteRuns | src/flash/nor/efr32.c:638-658 | when the loader is allocated and uploaded and some ring size is granted, the loader runs once on the first granted ring with r0 = MSC base, r1 = count, r2/r3 = ring start/end, r4 = flash address; the ring then the loader are freed; the result is the run's, with a diagnosis exactly on OPERATION_FAILED |
| BlockWrite.RunOnRingEffect | src/flash/nor/efr32.c:638-676 | one run is the run, then freeing the ring, then the loader; the status is the run's, and the diagnosis is its decoded r0 and r4 |
| BlockWrite.BlockWriteNoRing | src/flash/nor/efr32.c:625-635 | when no ring size is granted, RESOURCE_NOT_AVAILABLE is returned after all six sizes were tried and the loader was freed |
| BlockWrite.BlockWriteNoLoader | src/flash/nor/efr32.c:613-617 | when the loader area cannot be allocated, RESOURCE_NOT_AVAILABLE is returned at once |
| BlockWrite.UploadFailureLeaks | src/flash/nor/efr32.c:619-622 | (as written) a failed loader upload keeps the loader area, where freeing it is the only difference with the same result |
| BlockWrite.UploadFailureLeaksExample | src/flash/nor/efr32.c:619-622 | a concrete target on which the upload fails and the area at 0x20000000 stays held |
| Loader.OffsetsMatch | src/flash/nor/efr32.c:540-545 | the loader's register offsets from r0 reach the host's WRITECTRL, WRITECMD, ADDRB, WDATA, STATUS and LOCK, and the offset 0x3c it uses for the key does not reach MSC_LOCK |
| Loader.PrologueMissesLock | src/flash/nor/efr32.c:545-548 | (as written) the loader's prologue stores the key at MSC+0x3c and never writes MSC_LOCK |
| Loader.PrologueUnlocks | src/flash/nor/efr32.c:547-550 | (corrected) the prologue writes the key to MSC_LOCK and WREN to WRITECTRL, nothing else, and programs nothing |
| Loader.RefusesRejected | src/flash/nor/efr32.c:563-566 | a status the loader's `status & 6` test refuses is one the host's LOCKED/INVADDR check rejects |
| Loader.AcceptsNotRejected | src/flash/nor/efr32.c:563-566 | and a status the loader accepts is one the host accepts |
| Loader.SpinWait | src/flash/nor/efr32.c:568-586 | the loader's busy loop returns exactly what the spin specification gives |
| Loader.SpinTrace | src/flash/nor/efr32.c:568-586 | a spin consumes k status words, issuing k STATUS reads; it returns the first matching one, or runs out of feed |
| Loader.Run | src/flash/nor/efr32.c:552-606 | the loader's main loop returns exactly what the drain specification gives |
| Loader.NextInRing | src/flash/nor/efr32.c:588-594 | advancing the read pointer adds 4 and wraps to start + 8 at the end, staying in the ring |
| Loader.PosInRing | src/flash/nor/efr32.c:588-594 | any number of advances stays in the ring |
| Loader.StreamAt | src/flash/nor/efr32.c:560-580 | word k of the drained stream goes to flash address r4 + 4k and holds the RAM word k advances from the read pointer |
| Loader.StreamFrame | src/flash/nor/efr32.c:594 | storing the read pointer does not change the data words in the ring |
| Loader.DrainStream | src/flash/nor/efr32.c:552-606 | from any state of a well-formed ring, a drain consumes some n words, with these outcomes: r1 counted down by n; r4 stepped by 4n; exactly the n stream words programmed in order (one more at most after a hung BUSY wait); only the read-pointer word of RAM changed; Done only when the count is spent; HostAbort exactly on a zero write pointer; no word at the write pointer drained |
| Loader.LoaderRunStream | src/flash/nor/efr32.c:547-606 | the same for a whole loader run from its entry, prologue included |
| Loader.LoaderRunAsWrittenStream | src/flash/nor/efr32.c:545-606 | a run with the listing's prologue, key stored at +0x3c, drains the ring exactly as LoaderRunStream states |
| Loader.RefusalDiagnosed | src/flash/nor/efr32.c:660-673 | a run the loader refused is diagnosed by the host as write-protected or invalid address, at the loader's last flash address |
| LockBits.BitValue | src/flash/nor/efr32.c:472 | the bit index of page p is p & 31 |
| LockBits.MaskDisjoint | src/flash/nor/efr32.c:483 | the masks of two pages of the same word share no bit |
| LockBits.LockWord | src/flash/nor/efr32.c:477-491 | set_page_lock changes no bit of the word but the page's own |
| LockBits.WithLock | src/flash/nor/efr32.c:477-491 | set_page_lock keeps the mirror's length |
| LockBits.LockRoundTrip | src/flash/nor/efr32.c:466-491 | after set_page_lock(p, lock), get_page_lock(p) returns lock |
| LockBits.LockOthers | src/flash/nor/efr32.c:466-491 | set_page_lock(p, ...) leaves get_page_lock of every other page unchanged |
| LockBits.LockScope | src/flash/nor/efr32.c:477-491 | set_page_lock changes only word p >> 5, and in it only bit p & 31 |
| LockBits.ErasedUnlocked | src/flash/nor/efr32.c:466-475 | a page whose word is all ones reads as unlocked |
| LockBits.LockRangeLocks | src/flash/nor/efr32.c:509-515 | protect's loop locks exactly pages first..last and leaves every other page's lock as it was |
| LockData.LockIndexes | src/flash/nor/efr32.c:410-446 | read_lock_data fills words 0..(n+31)/32-1 in order, then 126, 127, 125 |
| LockData.LockIndexesIn | src/flash/nor/efr32.c:410-446 | while the page-lock words number at most 128, every word read lies in the 128-word mirror |
| LockData.ReadLockScope | src/flash/nor/efr32.c:414-446 | a mirror word outside the list is never written |
| LockData.ReadLockValues | src/flash/nor/efr32.c:414-446 | after a successful read_lock_data, each listed mirror word holds the device's lock-bits word at that index |
| LockData.ReadLockTrace | src/flash/nor/efr32.c:414-448 | the reads go in list order and stop at the first failure, whose error is returned; the device is not changed |
| LockData.LockImage | src/flash/nor/efr32.c:462-463 | the image written back is the 512 bytes of the mirror, needs no padding, and decodes to the mirror |
| LockData.LockPageAccepted | src/flash/nor/efr32.c:462-463 | on a halted target, write's prechecks accept the lock-page write |
| Bank.Erased | src/flash/nor/efr32.c:254 | the filled mirror has 128 words |
| Bank.ErasedAllUnlocked | src/flash/nor/efr32.c:254 | the mirror as filled at creation and at probe reports every page unlocked |
| Bank.GeometryOverrun | src/flash/nor/efr32.c:865-879 | (as written) a part reporting 8194 KiB gives 4097 sectors, which need 129 lock words, one more than the mirror holds |
| Bank.ProbeGeometry | src/flash/nor/efr32.c:863-868 | (corrected) an accepted sector count is positive, at most 4096, and its page-lock words fit the 128-word mirror |
| Bank.GeometryAgrees | src/flash/nor/efr32.c:863-868 | the corrected geometry differs from the one as written exactly when that one exceeds 4096 sectors, where read_lock_data as written stores past lb_page |
| Bank.GeometrySharesControl | src/flash/nor/efr32.c:863-879 | a part of 8100 KiB is probed as written with 4050 sectors, whose 127 page-lock words reach the control words, page 4000's bit lying in MLW |
| Bank.GeometryPages | src/flash/nor/efr32.c:865-868 | a 2 KiB-page part of 2..8193 KiB gets flash_kib / 2 sectors |
| Bank.SectorTable | src/flash/nor/efr32.c:885-892 | the table has one entry per sector |
| Bank.BuildTable | src/flash/nor/efr32.c:887-892 | the table loop builds exactly that table |
| Bank.SectorsTile | src/flash/nor/efr32.c:887-892 | sector i has size page_size and is marked protected; sectors start at 0, follow each other without gap, and end at num_pages * page_size |
| Bank.Marked | src/flash/nor/efr32.c:926-927 | protect_check's marking keeps the number of sectors |
| Bank.ProtectionReported | src/flash/nor/efr32.c:918-927 | after a successful read_lock_data, a sector reads as protected exactly when its bit is clear in the device's lock word |
| Bank.ProbeUnsupported | src/flash/nor/efr32.c:848-853 | with clean reads, an unsupported part fails probe with ERROR_FAIL, with no geometry, no new sector table and the mirror all ones |
| Bank.ProbeSupported | src/flash/nor/efr32.c:848-897 | with clean reads, a supported part of 2..8193 KiB gets flash_kib / 2 sectors of 2 KiB from address 0, and the rest of probe is the lock-data read and table of that geometry |
| Bank.EraseSectorTable | src/flash/nor/efr32.c:386-390 | erasing sectors first..last of probe's table loads ADDRB with their offsets i * page_size in order, and unlocks and relocks the MSC once |
| Bank.ProbeLayoutOutcome | src/flash/nor/efr32.c:863-892 | once the geometry is set, the sector table is built exactly when read_lock_data succeeds, and then each page-lock word of the mirror holds the device's word |
| Bank.FlashBank.constructor | src/flash/nor/efr32.c:250-256 | a new bank is not probed, has an all-ones mirror, and has neither sectors nor table |
| Bank.FlashBank.SetPageLock | src/flash/nor/efr32.c:477-491 | the mirror is updated in place to set_page_lock's value |
| Bank.FlashBank.ReadLockWord | src/flash/nor/efr32.c:415-419 | one read into the mirror word: the device's word when the read succeeds, 0 when it fails |
| Bank.FlashBank.ReadLockData | src/flash/nor/efr32.c:398-449 | with no sectors it fails (the C assert) untouched; otherwise status, target and mirror are exactly those of the read-lock specification |
| Bank.FlashBank.ReadControlWord | src/flash/nor/efr32.c:424-446 | one control-word read advances the read-lock specification by one word, or ends it with its error |
| Bank.FlashBank.Erase | src/flash/nor/efr32.c:368-396 | erase on the bank erases the pages at the offsets of sectors first..last of its sector table, as the erase specification says |
| Bank.FlashBank.WriteLockData | src/flash/nor/efr32.c:451-464 | write_lock_data erases the lock page and writes the mirror back, as the lock-page specification says |
| Bank.FlashBank.Protect | src/flash/nor/efr32.c:493-524 | unlocking fails with ERROR_FAIL with no access or mirror change; a target not halted fails likewise; otherwise pages first..last are locked in the mirror and the lock page is rewritten |
| Bank.FlashBank.DebugLock | src/flash/nor/efr32.c:958-975 | on a halted target only word 127 becomes 0 and the page is rewritten; otherwise NOT_HALTED with nothing changed |
| Bank.FlashBank.ProtectCheck | src/flash/nor/efr32.c:907-930 | NOT_HALTED first; then the lock data is read; on success each sector's protection is set from its bit in the mirror; the geometry and probed flag are untouched |
| Bank.FlashBank.MarkSectors | src/flash/nor/efr32.c:926-927 | each sector's protection comes from get_page_lock on the mirror |
| Bank.FlashBank.Probe | src/flash/nor/efr32.c:839-897 | the bank ends in the state the probe specification describes: mirror, geometry and table, and probed set exactly on success |
| Bank.FlashBank.ProbeInfo | src/flash/nor/efr32.c:851-897 | the part of probe after read_info, as specified |
| Bank.FlashBank.Layout | src/flash/nor/efr32.c:863-897 | the part of probe after the geometry, as specified |
| Bank.FlashBank.Refill | src/flash/nor/efr32.c:849 | probe refills the mirror with all ones |
| Bank.FlashBank.AutoProbe | src/flash/nor/efr32.c:899-905 | a probed bank returns Ok with nothing changed; otherwise auto_probe is probe |

## Left out

- Logging (`LOG_*`), `alive_sleep`, `keep_alive` and the erase-aborted warning. They only report or pace.
- The transport itself: `target.c` is not part of this model. Reads, writes, buffer uploads and their failures are the `Bus` oracle.
- `target_state`, modelled only as the `halted` flag.
- The working-area allocator and `malloc`, modelled as oracles. The allocator's answers are `grants`. A failed padding-buffer `malloc` is the `paddingAvailable` flag of write.
- The sector-array `malloc` in probe, which is assumed to succeed.
- The host-endian `memcpy` of the padding buffer. Words are assembled little-endian, as on the host the driver targets.
- `target_run_flash_async_algorithm` and the host's concurrent refill of the ring. In the block write, one run is an oracle reply: status, r0 and r4. The loader's drain loop is modelled alone, on a RAM snapshot.
- Loader.DrainStream: where the real loader would wait for the host (`Stalled`) or for the MSC (`Hung`) forever, the model stops instead.
- The Thumb machine-code bytes. The loader model follows the commented listing.
- Command registration, argument parsing, `command_print`, `flash_command_get_bank`, the `flash_driver` table, and the default read and blank-check routines.
- `is_erased` and the erased value of sectors.
- The exact bytes `snprintf` writes. decode_info is modelled by the composed string and its length check.
- C `assert` failures, modelled as the error `Aborted`.
- Bank.FlashBank.WriteLockData: the erase of the lock page runs with neither the MSC unlocked nor WREN set, as written.
- Bank.FlashBank.Probe: above 4096 sectors (8194 KiB or more with 2 KiB pages) read_lock_data as written stores past the end of lb_page, which is undefined behaviour. The model does not follow it there: probe fails with ERROR_FAIL and sets no geometry, as the corrected ProbeGeometry of the findings. Up to 4096 sectors probe is as written, control words shared with page-lock bits included.
- Bank.FlashBank.ProbeInfo: the same 4096-sector bound as Probe.
- Bank.FlashBank.AutoProbe: an unprobed bank runs Probe, with the same 4096-sector bound.
- Bank.FlashBank.ReadLockWord: follows `target_read_u32` on an examined target, which stores 0 when the read fails. On a target not yet examined it returns ERROR_FAIL and stores nothing; the model does not distinguish the two.
- BlockWrite.WriteBlock: a failed loader upload frees the loader area, as the corrected block write of the findings does. The code as written returns with the area still held (UploadFailureLeaks shows that version). The status and the rest of the trace are the same.
- FlashWrite.Write: uses WriteBlock, so it does not model the leak of the loader area either. It pads with the non-wrapping PaddedCount. For the three counts 0xFFFFFFFD..0xFFFFFFFF the code as written allocates a zero-byte buffer and copies the data past it, which is undefined behaviour; the model pads those counts to whole words instead.
- FlashWrite.WriteSpec: the same two corrections as Write.
- FlashWrite.Program: uses the corrected block write, as WriteBlock.
- Bank.FlashBank.WriteLockData: writes through FlashWrite.Write, so a failed loader upload frees the loader area here too. Protect and DebugLock write through it as well.
- Bank.FlashBank.Protect: the same block-write correction as WriteLockData.
- Bank.FlashBank.DebugLock: the same block-write correction as WriteLockData.
- Loader.LoaderRunStream: states the run with the corrected prologue, which stores the key at MSC_LOCK (+0x40); the listing stores it at +0x3c. LoaderRunAsWrittenStream proves the same drained stream for the listing's prologue, because neither prologue programs flash. Neither states what the store to +0x3c does to the MSC.
- Loader.LoaderRun: the run with the corrected prologue; LoaderRunAsWritten is the listing's.
- Target.Cell: reads of MSC_WRITECMD return 0. The register's real read value is not modelled, so every set_reg_bits on WRITECMD (LADDRIM, ERASEPAGE) writes exactly the mask.
- DeviceInfo.PageSizeOf: a shift count of 32 or more, from a PAGE_SIZE byte of 22..245, is undefined in C. The model takes the result as 0, where an x86 host masks the count to five bits: the byte 33, for example, shifts by 43 % 32 = 11 and gives 2048. read_info then accepts the part as written on such a host; the model rejects it.
- DeviceInfo.ReadInfoClean: stated only for targets whose reads all reach it. Read faults are covered step by step by the `*Step` lemmas and ReadInfoTransport.

## Findings

| source | as written | input that shows it | evidently intended | confidence | as-written member | corrected member |
|---|---|---|---|---|---|---|
| src/flash/nor/efr32.c:619-622 | when `target_write_buffer` of the loader fails, write_block returns without freeing the loader's working area | a target whose loader upload faults | free the loader area on that path as on every other | high, not executed | BlockWrite.UploadFailureLeaks | BlockWrite.BlockWriteReleases |
| src/flash/nor/efr32.c:781 | `(count \| 3) + 1` in 32 bits wraps to 0 | count 0xFFFFFFFD | the smallest multiple of 4 not below the count | medium, not executed | FlashWrite.PaddedCountWraps | FlashWrite.PaddedCount |
| src/flash/nor/efr32.c:865-879 | num_pages has no upper bound, yet read_lock_data writes (num_pages + 31) / 32 words into the 128-word `lb_page` | flash_sz_kib 8194 gives 4097 sectors and 129 words | reject a geometry whose page-lock words would not fit `lb_page` | medium, not executed | Bank.GeometryOverrun | Bank.ProbeGeometry |
| src/flash/nor/efr32.c:545-548 | the loader stores LOCKKEY at MSC base + 0x3c, where MSC_LOCK is at + 0x40 | any loader run | store the key at MSC_LOCK; harmless as written, because the host has unlocked the MSC first | medium, not executed | Loader.PrologueMissesLock | Loader.PrologueUnlocks |
