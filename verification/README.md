# Verified models of the Bluetooth audio firmware's cores

This project models seven parts of the firmware and proves what they promise, for all inputs,
all runs and all interruptions. `dafny verify dfyconfig.toml` checks it.

**Configuration store.** Records of an 8-byte header (byte sum, length) and a body, found through
a table of 3-byte index entries, read and written through a list of cached 4 KB blocks, and
written back to flash through a backup area.

- `CacheMem`, `CacheLaws`: the walk over the list of cached blocks. One pass meets every node
  once, so a range that crosses into a block cached *earlier* in the list misses it. The exact
  condition is `Ordered`. Reads are exact for all contents if and only if it holds. A complete
  write that changes the byte at every block boundary of its range shows if and only if it holds.
  A complete write leaves every block cached once if and only if each was before and it holds.
- `CfgMain`, `CfgLaws`, `CfgCrossing`: lookup, checked reads and updates by index. An update can be
  read back from every state of cache and flash, lists that hold a block twice included, if and
  only if neither header nor body of the record crosses a 4 KB boundary.
- `CfgInterleave`, `CfgCacheRuns`: any number of setters that read their header before they take
  the lock, first on the visible memory, then on the block cache, which refines it. Whenever the
  lock is free every byte of every body is what the last setter that wrote it had for it. A setter
  that runs alone is exactly one update as `CfgMain` has it.
- `BackupWrite`, `BackupLaws`, `BackupExact`: the write back. Any flash operation may be cut off, and
  so may any number of restores after it. The chip erases whole sectors, one after the other. A
  block write survives all of this if and only if three things hold. The block is not the one
  that holds the index entry of the backup area, since the restore looks that entry up in flash.
  The backup area begins with a sector; otherwise its erase takes neighbours with it (with the
  area at 8200, byte 16500). A restore that is due when the write starts concerns another block
  than the index block and has nothing left to do. The area begins 8 bytes behind the address in
  its index entry, so it begins with a sector if and only if the entry points 8 bytes in front of
  one, and with an entry that points to a sector no block write survives every interruption.
- `Flush`, `FlushLaws`, `Session`: flushing. Readers see of each block the first copy left in the
  list or else the last one written back. A complete flush goes unnoticed if and only if first
  and last copy of each block agree; a flush that may stop anywhere, if and only if all copies
  agree; a failed write back, if and only if a restore that was due concerns a cached block.
  Every flush, failed or not, leaves what the next one needs, unless the index block is hit. In
  every session of one-block writes outside the index block and of flushes, whatever fails, the
  store is a plain memory to its readers.
- `PowerLoss`: power is lost anywhere in a flush of several blocks, the cache is gone, and restores
  are cut off any number of times before one completes. Every block is then whole: as last
  written back, as it was being written back, or as a restore due before the flush left it.

**HCI transport** (`H4`, `H4Laws`). The reassembler of the serial path and the packet splitter of
the host path, for the H4 packet format of the Bluetooth Core Specification, Volume 4, Part A,
section 2. Every packet is collected from the first cell of the receive buffer on, and the model
counts the cells that are written. They stay within the 1024 of the buffer if and only if no ACL
head at a packet boundary announces 1020 to 1024 bytes with more than 1024 bytes of stream from
that head on.

**Mini printf and memory stream** (`Ltoa`, `Printf`, `MemStream`). **Shell** (`Shell`): the in-place
tokenizer and the line editor. **SBC arithmetic** (`Sbc`). **Player** (`Player`): creation and teardown
with a failure possible at every step; every action on a resource is logged and the log is
judged by a monitor that does not know the player. Every run is accepted if and only if no big
volume step meets a source other than the music player, since those two handlers test one
function pointer and call another. **Power-off countdown** (`AutoPowerOff`): stated over the history of
events. A deadline has its charging listener if and only if there was one right after it was
set, because a failed registration is ignored.

`Bytes` holds bytes, byte sums and little-endian words.

What the models take as given:

- `int`, `long` and pointers are 32 bits wide, plain `char` is signed, and `|` of words without
  common bits is addition.
- Flash accesses stay inside the flash; the 28-bit address mask is the identity on them.
- Flash sectors have 4 KB and pages 256 bytes, as in the driver's table. Sectors are erased and
  pages written in ascending order, each waited for. An interruption may leave anything in the
  cells of the sector or page it hits, except in the 16 bytes of the backup header, which are
  processed in ascending order. Programming only clears bits.
- Allocation outcomes, read schedules, refusals of the controller, keys, events and interruptions
  are parameters, and every statement is for all of them.
- A printf argument that is missing or of the wrong kind reads as 0 or as a null string.

Where code and comments differ, the code is followed. `*` in a format is documented as a width or
precision taken from the arguments; the code narrows it to `char` first and lets digits follow.
The number `chsnprintf` returns is documented as the full length; it is that length wrapped to
32 bits.

## Model

| member | source | states |
|---|---|---|
| CacheMem.Cache.SearchHit | lib/config/base/cfg_cachemem.c:119-137 | A node is hit exactly when it caches the block of the address, and the hit ends at the range or at the block, whichever is first |
| CacheMem.Cache.ReadPass | lib/config/base/cfg_cachemem.c:235-246 | One pass over the list returns the first bytes of the walk and leaves the rest of the walk, from the end of the list, to do |
| CacheMem.Cache.ReadRound | lib/config/base/cfg_cachemem.c:232-257 | One turn of the outer loop returns at least one byte of the walk, unless none is asked for, and leaves the rest of the walk, from the start of the list, to do |
| CacheMem.Cache.ReadS | lib/config/base/cfg_cachemem.c:222-261 | The passes and flash reads together return what the walk specifies, for every list, address and length |
| CacheMem.EmptyRead | lib/config/base/cfg_cachemem.c:228-229 | With an empty list the walk is a plain flash read, so the shortcut changes nothing |
| CacheMem.Cache.WritePass | lib/config/base/cfg_cachemem.c:149-160 | One pass over the list does the first part of the write walk and adds no node |
| CacheMem.Cache.WriteS | lib/config/base/cfg_cachemem.c:139-187 | New list and number of bytes taken are those of the write walk, also when no node can be allocated |
| CacheLaws.ReadExact | lib/config/base/cfg_cachemem.c:222-261 | If the cached blocks of a range are in order, a read returns every byte as cached, or as in flash where not cached |
| CacheLaws.StaleByte | lib/config/base/cfg_cachemem.c:235-257 | At the first boundary out of order a read misses the cached byte: it returns the flash byte or that of a later copy of the block |
| CacheLaws.ReadExactIffOrdered | lib/config/base/cfg_cachemem.c:222-261 | A list shape, blocks cached twice included, reads exactly for all contents of cache and flash if and only if the blocks of the range are in order |
| CacheLaws.WriteExact | lib/config/base/cfg_cachemem.c:139-187 | In order, a write into any list changes exactly the visible bytes it took, keeps every block cached once if it was, and falls short only when all nodes that could be allocated were |
| CacheLaws.LostByte | lib/config/base/cfg_cachemem.c:149-183 | Out of order, the block above the boundary is cached a second time and the byte written there stays invisible |
| CacheLaws.WriteShowsIffOrdered | lib/config/base/cfg_cachemem.c:139-187 | A complete write that changes the byte at every block boundary of its range shows as written if and only if the range was in order |
| CacheLaws.WriteDistinctIffOrdered | lib/config/base/cfg_cachemem.c:139-187 | A complete write into any list leaves every block cached once if and only if each was cached once before and the range was in order |
| CfgMain.HeaderRoundTrip | lib/config/cfg_main.c:22-26 | The eight bytes written for a header read back as the same tag and length |
| CfgMain.Config.ReadLocked | lib/config/base/cfg_cachemem.c:274-283 | Returns the bytes of the walk and gives the lock back |
| CfgMain.Config.GetOffsetByIndex | lib/config/cfg_main.c:33-77 | Returns what the three bytes of the entry say, those in flash for the backup area and those read through the cache for all others: distance in words from the base, plus the body offset behind the backup area, and the attributes; or no entry |
| CfgMain.Config.AddBytes | lib/config/cfg_main.c:146-147 | The inner loop adds the byte sum of the buffer modulo 2^32 |
| CfgMain.Config.SumBody | lib/config/cfg_main.c:136-151 | The 1 KB loop ends and returns the flat byte sum of what it fetched, modulo 2^32, for every length |
| CfgMain.Config.ChkData | lib/config/cfg_main.c:121-158 | Succeeds exactly when the buffer could be allocated and the tag is that sum |
| CfgMain.Config.SetChkData | lib/config/cfg_main.c:160-195 | Puts that sum into the tag and keeps the length; without a buffer the header is unchanged |
| CfgMain.Config.GetPartDataByIndex | lib/config/cfg_main.c:319-364 | No entry, wrong sum and success are told apart; the data come from behind the header; the sound data skip the sum; the lock is given back |
| CfgMain.Config.SetDataByIndex | lib/config/cfg_main.c:376-425 | No entry, read-only, out of range and failed allocation are told apart with the cache each leaves; otherwise data, then tag over the new body; the lock is given back |
| CfgLaws.EntryFromBytes | lib/config/cfg_main.c:33-77 | The visible little-endian word 16 d + attr in an entry gives the record 4 d bytes behind the base, plus the body offset behind the backup area, with those attributes; an odd word, or a store that is not valid, gives none |
| CfgLaws.FetchExact | lib/config/cfg_main.c:136-151 | The chunks put together are exactly the visible body when its blocks are in order |
| CfgLaws.ChecksumExact | lib/config/cfg_main.c:121-195 | Check and set path both compute the byte sum of the visible body modulo 2^32, for every length |
| CfgLaws.SetThenGet | lib/config/cfg_main.c:376-417 | After a successful update of a compact record a checked read of the range returns exactly the bytes written, and all other visible bytes except the tag are unchanged |
| CfgLaws.SetSucceedsIff | lib/config/cfg_main.c:388-417 | For every record: an update is refused for its range if and only if it reaches behind the record, and succeeds if and only if it does not, the buffer is available and each of the two writes gets the nodes it needs |
| CfgLaws.CompactSucceedsIff | lib/config/cfg_main.c:388-417 | For a compact record the nodes needed are one for the data unless their block is cached and one for the header unless its block is cached by then |
| CfgLaws.OtherRangesKept | lib/config/cfg_main.c:398-416 | A range that shares no byte with the updated record and whose cached blocks are in order before and after reads and sums as before |
| CfgLaws.OthersReadAsBefore | lib/config/cfg_main.c:319-417 | Every checked read of every other compact record answers as before the update, and so does every index entry outside the record whose cached blocks are in order before and after, as those of an entry inside one block always are |
| CfgLaws.CutOffUpdate | lib/config/cfg_main.c:401-413 | After an update cut off in or behind its data write, checked reads answer if and only if the byte sum of the body is unchanged modulo 2^32 |
| CfgLaws.OneByteShows | lib/config/cfg_main.c:146-147 | Changing one byte of a body always changes its sum |
| CfgLaws.CutOffByteRejected | lib/config/cfg_main.c:401-413 | An update of any length that changes one byte, cut off behind that byte and before the header, is rejected by every checked read |
| CfgLaws.CrossingFails | lib/config/cfg_main.c:376-417 | A body over a block boundary: from some state a successful update cannot be read back |
| CfgLaws.RoundTripsIffOneBlock | lib/config/cfg_main.c:319-417 | With the header inside one block, updates can be read back from every state if and only if the body is inside one block |
| CfgCrossing.HeaderCrossingFails | lib/config/cfg_main.c:337-356 | A header over a block boundary: from some state even an update that writes no data cannot be read back |
| CfgCrossing.RoundTripsIffCompact | lib/config/cfg_main.c:319-417 | For every record: updates can be read back from every state of cache and flash if and only if neither header nor body crosses a block boundary |
| CfgInterleave.EffectElsewhere | lib/config/cfg_main.c:398-416 | A setter, complete or cut off, leaves the bytes of all other records alone |
| CfgInterleave.EffectLen | lib/config/cfg_main.c:408-415 | No setter, complete or cut off, changes the length of its record |
| CfgInterleave.EffectData | lib/config/cfg_main.c:398-416 | A setter, complete or cut off, puts the bytes it took at its offset in the body and leaves every other byte outside the header as it was |
| CfgInterleave.CompletedBody | lib/config/cfg_main.c:398-416 | A completed setter leaves its data at its offset and the body before and behind them unchanged |
| CfgInterleave.CommitOk | lib/config/cfg_main.c:401-415 | A setter that completes leaves its record with a correct tag |
| CfgInterleave.SerialData | lib/config/cfg_main.c:376-417 | After any sequence of setters every byte of a body is what its last writer had for it, or what it was at the start |
| CfgInterleave.SoundIff | lib/config/cfg_main.c:398-416 | A record counts as intact if and only if the last setter on it completed, or there was none and it was intact at the start |
| CfgInterleave.SerialSound | lib/config/cfg_main.c:376-417 | After any sequence of setters a record has a correct tag if it had one or was completed, and was not cut off since |
| CfgInterleave.NextKeepsInv | lib/config/cfg_main.c:391-417 | Every step of every setter keeps the invariant: outside the lock the memory is the serial one, and a length read before the lock is still right |
| CfgInterleave.RunKeepsTied | lib/config/cfg_main.c:391-417 | In every interleaving the log has exactly one entry for each setter that let the lock go, with its request and outcome, and no other entry |
| CfgInterleave.EveryInterleaving | lib/config/cfg_main.c:376-417 | In every interleaving of any number of setters, whenever the lock is free the memory is that of the logged setters one after the other, the log has exactly one entry for each setter that took the lock, every byte of a body is what its last writer had for it, lengths are unchanged, and every record that was intact or completed and not cut off since has a correct tag |
| CfgInterleave.MutualExclusion | lib/config/cfg_main.c:398-416 | In every interleaving at most one setter is between taking and releasing the lock |
| CfgCacheRuns.StepRefines | lib/config/cfg_main.c:391-417 | Every step of a setter on cache and flash is a step on the visible memory, for compact records and any outcome of its allocations |
| CfgCacheRuns.RunRefines | lib/config/cfg_main.c:376-417 | Every interleaving on cache and flash is one on the visible memory |
| CfgCacheRuns.SoloRun | lib/config/cfg_main.c:376-417 | A setter that runs alone, whatever allocation fails, ends with the result and the cache of one update, a failed range test included; nothing else changes. No record needs to be compact |
| CfgCacheRuns.SoloRunExists | lib/config/cfg_main.c:376-417 | Every update, with every outcome of its allocations, is such a run |
| CfgCacheRuns.RecordReads | lib/config/cfg_main.c:319-356 | A compact record with a correct visible tag passes its check and reads as it shows |
| CfgCacheRuns.EveryCachedInterleaving | lib/config/cfg_main.c:319-417 | In every interleaving of any number of setters on the cached store, whenever the lock is free readers see the logged setters one after the other, one entry for each setter that took the lock, every byte of a body as its last writer had it, and a record intact or completed and not cut off since passes its check and reads as it shows |
| BackupWrite.Device.SectorCount | os/hal/ports/Huntersun/lld/sf_lld.c:940-961 | The number of sectors erased reaches from the sector of the address to the end of the range rounded up; below a sector it is one |
| BackupWrite.Device.HalErase | os/hal/ports/Huntersun/lld/sf_lld.c:922-970 | Exactly the sectors that the range touches are erased, the one of the address for less than a sector, the chip for length 0 |
| BackupWrite.Device.CutOffErase | os/hal/ports/Huntersun/lld/sf_lld.c:963-966 | The sector loop stopped in any sector, with anything left in it: sectors before it are erased, those behind it and all cells outside the range untouched |
| BackupWrite.Device.PagedWrite | os/hal/ports/Huntersun/lld/sf_lld.c:1029-1088 | Writing page by page, from any address, is programming the whole range once |
| BackupWrite.Device.HalWrite | lib/config/base/cfg_hal.c:50-87 | Writing in pieces of 256 bytes is programming the whole range once |
| BackupWrite.InfoLayout | lib/include/config/base/cfg_cachemem.h:40-46 | The backup header byte by byte: flag, address, length 4096, and the sum of these twelve bytes |
| BackupWrite.LookUpArea | lib/config/cfg_main.c:247-254 | The backup area that block writes and restores use is where the lookup of its entry puts the record, with the 8 header bytes skipped |
| BackupWrite.AreaFromBytes | lib/config/cfg_main.c:33-77 | From the three entry bytes: the area begins 4 d + 8 bytes behind the base |
| BackupWrite.Device.BlockWrite | lib/config/base/cfg_cachemem.c:82-117 | Does the six flash operations in order up to the first failure, or nothing without a backup area |
| BackupWrite.Device.RestoreBlock | lib/config/base/cfg_cachemem.c:40-80 | Does nothing unless the backup header checks out; then the four operations in order up to the first failure |
| BackupLaws.UnfinishedInfo | lib/config/base/cfg_cachemem.c:53-57 | A backup header whose last byte is still erased never checks out |
| BackupLaws.SavedIntact | lib/config/base/cfg_cachemem.c:97-98 | Wherever the first erase is cut off: while the backup header still checks out it is the one from before, and the saved block is intact |
| BackupLaws.BlockWriteInterrupted | lib/config/base/cfg_cachemem.c:82-117 | Wherever a block write is cut off, and from every state, flash holds the old block, or a due restore of the new one, or the new block; a restore due before may still be due after a cut-off first erase, with header and saved block intact; outside the sectors of the backup area nothing else changed |
| BackupLaws.RestoreSettled | lib/config/base/cfg_cachemem.c:47-57 | With no restore due a restore changes nothing |
| BackupLaws.RestorePending | lib/config/base/cfg_cachemem.c:59-79 | A due restore that is cut off is still due or done; one that completes leaves the new block and is no longer due |
| BackupLaws.RecoverPending | lib/config/base/cfg_cachemem.c:40-80 | After any number of cut-off restores one that completes leaves the new block |
| BackupLaws.AtomicBlockWrite | lib/config/base/cfg_cachemem.c:40-117 | With no restore due before: a block write cut off anywhere, any number of cut-off restores, one complete restore, and the block is wholly the old or the new one, the backup header decides which, nothing else changed outside the sectors of the backup area |
| BackupExact.IndexBlockLost | lib/config/base/cfg_cachemem.c:47-48 | A cut-off erase of the block of the index entry: no restore finds the backup area and the block stays neither old nor new |
| BackupExact.NotYetRestored | lib/config/base/cfg_cachemem.c:40-117 | If a restore is due that would still change its block, to something other than the new data where it is the block being written, a write cut off before its first step does not survive: the restore takes place |
| BackupExact.IndexRestoreLost | lib/config/base/cfg_cachemem.c:47-72 | A due restore of the index block that is itself cut off loses that block |
| BackupExact.SpillTorn | lib/config/base/cfg_cachemem.c:97-98 | With a backup area that does not begin with a sector, from every state, a cut-off first erase may change a byte in front of it for good |
| BackupExact.SpillErased | lib/config/base/cfg_cachemem.c:97-98 | Even an uninterrupted block write erases every byte that shares a sector with the backup area |
| BackupExact.SectorEntryFails | lib/config/base/cfg_cachemem.c:94-98 | The area begins with a sector if and only if its entry points 8 bytes in front of one; with an entry that points to a sector a block write does not survive every interruption |
| BackupExact.AtomicIff | lib/config/base/cfg_cachemem.c:40-117 | The block ends up wholly old or new and every byte outside block and backup area is kept, under all interruptions of write and restores, if and only if the block is not the index block, the backup area begins with a sector, and a due restore concerns another block than the index block that already holds the saved bytes, or saved the very data being written |
| BackupExact.WriteKeepsPlausible | lib/config/base/cfg_cachemem.c:82-117 | Wherever a block write is cut off, a backup header that checks out names a block |
| BackupExact.RestoreKeepsPlausible | lib/config/base/cfg_cachemem.c:40-80 | So does every restore leave it, complete or not |
| Flush.FailedWrite | lib/config/base/cfg_cachemem.c:189-207 | A failed write back changes the flash of cached blocks and the backup sectors only, and a restore then due concerns a cached block |
| Flush.AnyRestore | lib/config/base/cfg_cachemem.c:40-80 | So does every restore, complete or not; a complete one leaves none due |
| Flush.CompleteWrite | lib/config/base/cfg_cachemem.c:198-203 | After a complete write back the block is in flash, none is due and the rest of the list can be flushed, the index block with its entry kept included |
| Flush.ShowsNext | lib/config/base/cfg_cachemem.c:199-203 | Dropping a written block shows, of each block, the first copy left or else the last one dropped |
| Flush.CleanUnit | lib/config/base/cfg_cachemem.c:189-207 | The first block is dropped exactly when its write back succeeded and is then in flash; otherwise the list is unchanged and readers notice nothing |
| Flush.CleanAll | lib/config/base/cfg_cachemem.c:209-220 | Exactly the blocks before the first failing write back are dropped and are in flash, the last copy of each, before that write back begins; readers see the copies that leaves |
| Flush.FlushCache | lib/config/base/cfg_cachemem.c:312-328 | A flush of one block or of all, with failures of write back, allocation and restore: how many blocks are dropped, what readers then see, and that the next flush finds what it needs; if no write back fails a flush of all leaves an empty list and one of a single block drops the first node; a complete restore leaves none due |
| FlushLaws.UnnoticedIffCopiesAgree | lib/config/base/cfg_cachemem.c:189-220 | Writing back the first blocks goes unnoticed if and only if the copies shown have the data of the first copies; for a complete flush these are the last copies |
| FlushLaws.AlwaysUnnoticedIff | lib/config/base/cfg_cachemem.c:209-220 | A flush goes unnoticed wherever it stops if and only if all copies of each block agree |
| FlushLaws.TwoCopies | lib/config/base/cfg_cachemem.c:189-220 | A block cached twice with different data shows the older copy before the flush and the other one after it |
| FlushLaws.FailuresUnnoticedIff | lib/config/base/cfg_cachemem.c:189-207 | All failures of the write back of a block other than the index block go unnoticed if and only if a restore due before concerns a cached block |
| Session.AllOrNothing | lib/config/base/cfg_cachemem.c:139-187 | A write inside one block is taken whole, or not at all when no node can be allocated |
| Session.Run | lib/config/base/cfg_cachemem.c:139-328 | In every session of one-block writes and flushes, whatever operation, restore or allocation fails, readers see the plain memory that the accepted writes produce |
| PowerLoss.CutOffSettles | lib/config/base/cfg_cachemem.c:40-117 | A write back cut off anywhere, also with a restore due before, and restores until one completes: one block has its old or its new content, or that of the restore due before; nothing else changed and no restore is due |
| PowerLoss.BlockIsWhole | lib/config/base/cfg_cachemem.c:40-117 | After write back number n was cut off and the restores ran, every block outside the backup area is as last written back, as being written back, or as a restore due before the flush left it |
| PowerLoss.Restart | lib/config/base/cfg_cachemem.c:40-80 | The restores at start-up, any number of them cut off, leave the flash that repeated recovery specifies |
| PowerLoss.LosePower | lib/config/base/cfg_cachemem.c:40-220 | Power lost anywhere in a flush of all blocks, the cache gone, restores cut off any number of times and then complete: every block outside the backup area is whole, blocks before the one hit as last written back, and no restore is due |
| H4.SerialPort.ReadTimeout | lib/bt/libhal/bt_vhci_usb.c:53-61 | A read delivers the next bytes of the input, any number up to the one asked for, behind those already in the buffer |
| H4.Fill | lib/bt/libhal/bt_vhci_usb.c:83-138 | For every schedule of short reads the loop never exceeds its target and leaves exactly the next input bytes in the buffer |
| H4.ParseConcat | lib/bt/libhal/bt_vhci_usb.c:51-148 | Cutting a stream anywhere and parsing the unfinished rest with the second part gives the same packets |
| H4.CollectPayload | lib/bt/libhal/bt_vhci_usb.c:92-147 | After a head: an over-long announcement drops the head only, otherwise the packet with its payload is offered exactly once; the cells written are those of the bytes read |
| H4.Deliver | lib/bt/libhal/bt_vhci_usb.c:140-147 | The controller is asked once, with the size that counts the command header in; the payload is committed if and only if it gave a buffer |
| H4.Round | lib/bt/libhal/bt_vhci_usb.c:51-148 | One round consumes the bytes of one packet or one byte that is no indicator, offers exactly the packets in them, and writes exactly the cells they fill |
| H4.Process | lib/bt/libhal/bt_vhci_usb.c:51-148 | For every schedule of short reads and timeouts and every buffer size that the stream does not overrun, the packets offered are those of the bytes read, in order, and exactly the cells they fill are written; with as many productive reads as bytes all are read |
| H4.Submit | lib/bt/libhal/bt_vhci_cl.c:171-201 | Repeats the same request until it is accepted or 21 refusals (one for SCO); commits exactly once or not at all |
| H4.Send | lib/bt/libhal/bt_vhci_cl.c:137-202 | Splits the packet its bytes encode, submits it and returns its size, or commits nothing and returns 0; unknown kinds are not submitted |
| H4Laws.PacketParses | lib/bt/libhal/bt_vhci_usb.c:63-119 | The bytes of a well-formed packet parse to that packet and nothing else |
| H4Laws.LayoutParses | lib/bt/libhal/bt_vhci_usb.c:63-119 | Commands, ACL data, SCO data and events written field by field parse to exactly the packet with those fields; the request counts the three header bytes of a command in |
| H4Laws.StreamParses | lib/bt/libhal/bt_vhci_usb.c:51-148 | Every concatenation of well-formed packets and bytes that are no indicators parses to exactly those packets in order |
| H4Laws.WireParses | lib/bt/libhal/bt_vhci_usb.c:51-148 | Any sequence of such packets and of bytes that are no indicators parses to exactly those packets in order and fits the receive buffer |
| H4Laws.TooLongDropsHead | lib/bt/libhal/bt_vhci_usb.c:121-127 | ACL data that announce more than 1024 bytes lose their five head bytes and nothing else |
| H4Laws.StreamFits | lib/bt/libhal/bt_vhci_usb.c:121-127 | Such a stream fills at most the 1024 cells of the receive buffer |
| H4Laws.PartOfStream | lib/bt/libhal/bt_vhci_usb.c:51-148 | After any number of bytes the packets so far are the first of the stream's packets |
| H4Laws.CellsIff | lib/bt/libhal/bt_vhci_usb.c:121-138 | A stream fills at most 1024 cells if and only if no head at a packet boundary passes the length test with head and payload longer than the buffer and more than 1024 bytes of stream from it on |
| H4Laws.OverlongIs | lib/bt/libhal/bt_vhci_usb.c:100-123 | Those heads are the ACL heads that announce 1020 to 1024 bytes |
| H4Laws.OverrunByOne | lib/bt/libhal/bt_vhci_usb.c:121-138 | An ACL packet of 1020 bytes fills one cell more than the buffer has; its head alone does not |
| H4Laws.TakenCount | lib/bt/libhal/bt_vhci_usb.c:142-147 | As many packets are delivered as requests were accepted |
| H4Laws.TakenAreAccepted | lib/bt/libhal/bt_vhci_usb.c:142-147 | Each accepted packet is delivered whole, at the position given by the accepted packets before it |
| H4Laws.PathsAgree | lib/bt/libhal/bt_vhci_cl.c:145-174 | The host path splits the bytes of every well-formed command, ACL or SCO packet into the packet the serial path parses from them |
| H4Laws.ProcessStream | lib/bt/libhal/bt_vhci_usb.c:51-148 | On a stream of packets, whatever the schedule and the refusals, requests and deliveries come from its front; a schedule with as many productive reads as bytes reads it all, and then they are exactly its packets |
| H4Laws.ProcessWire | lib/bt/libhal/bt_vhci_usb.c:51-148 | On such a sequence, whatever the schedule and the refusals, requests come from its front, and once all is read requests and deliveries are exactly those of its packets |
| H4Laws.SendWire | lib/bt/libhal/bt_vhci_cl.c:137-202 | The host path submits the packet meant by the fields until it is first accepted, at most 21 times and SCO data once; then it is committed whole, otherwise not at all |
| MemStream.MemoryStream.constructor | lib/shell/memstreams.c:103-111 | A fresh stream with nothing read, whose offsets are in order |
| MemStream.MemoryStream.Writes | lib/shell/memstreams.c:46-54 | Takes what fits behind the contents, returns how much, touches nothing behind it |
| MemStream.MemoryStream.Reads | lib/shell/memstreams.c:56-64 | Returns the next contents, as many as there are |
| MemStream.MemoryStream.Put | lib/shell/memstreams.c:66-74 | Takes one byte if there is room and says so |
| MemStream.MemoryStream.Get | lib/shell/memstreams.c:76-85 | Returns the next byte or reports the end |
| MemStream.StepKeepsFifo | lib/shell/memstreams.c:46-85 | Every operation keeps the contents equal to what was accepted and what was returned equal to its beginning |
| MemStream.RunKeepsFifo | lib/shell/memstreams.c:46-85 | So does every sequence of operations |
| MemStream.EveryRunIsFifo | lib/shell/memstreams.c:46-111 | On an empty stream, over every interleaving, offsets stay in order, the bytes accepted are the first of the bytes given, as many as fit, and the bytes returned are the first of those |
| MemStream.Replay | lib/shell/memstreams.c:46-111 | The stream object accepts and returns exactly the bytes of that run |
| Ltoa.PutDigits | lib/shell/chprintf.c:52-60 | The digits end up at the end of the scratch area, all other cells unchanged |
| Ltoa.MoveDown | lib/shell/chprintf.c:62-65 | The overlapping forward copy preserves the digits |
| Ltoa.LongToString | lib/shell/chprintf.c:37-68 | Prints the low digits of the number at the given place, within 11 cells, and touches nothing outside them |
| Ltoa.DigitsValue | lib/shell/chprintf.c:37-73 | The digits printed for a number parse back to it, in radix 8, 10 and 16 |
| Ltoa.Canonical | lib/shell/chprintf.c:53-60 | No leading zero except for zero itself; only digits of the radix |
| Ltoa.DigitsInOrder | lib/shell/chprintf.c:53-58 | The sixteen digits are 0 to 9 and A to F |
| Ltoa.DigitsUnique | lib/shell/chprintf.c:53-60 | Every digit string without leading zero is what is printed for its value |
| Ltoa.ElevenDigits | lib/shell/chprintf.c:52-60 | A 32-bit number needs at most 11 digits |
| Printf.ScanNumber | lib/shell/chprintf.c:155-165 | Reads a width or precision, 32-bit wrap-around and narrowed arguments included |
| Printf.DirectiveScansBack | lib/shell/chprintf.c:143-187 | A directive written from flags, width, precision and conversion scans back as those, and scanning stops right behind it |
| Printf.LongScansBack | lib/shell/chprintf.c:180-186 | So does one with the long modifier |
| Printf.StarScans | lib/shell/chprintf.c:158-165 | A star stands for the next argument, narrowed to a signed char |
| Printf.TextEnd | lib/shell/chprintf.c:199-202 | The end of a string argument, limited by a precision that is not 0 |
| Printf.Convert | lib/shell/chprintf.c:190-249 | The characters of one conversion; numbers stay inside the scratch area, also behind a minus sign |
| Printf.EmitPadded | lib/shell/chprintf.c:250-275 | Puts the conversion padded on the right side, zeros behind the sign, and counts every character |
| Printf.Vprintf | lib/shell/chprintf.c:121-277 | The stream receives what fits of the full output and nothing behind it changes; the result is the full length wrapped to 32 bits |
| Printf.Snprintf | lib/shell/chprintf.c:307-335 | The buffer receives the first size - 1 bytes of the output and a NUL, bytes behind are untouched, size 0 writes nothing, the full length is returned |
| Printf.SignedReadsBack | lib/shell/chprintf.c:204-217 | A signed conversion reads back as its argument over the whole 32-bit range, also padded with zeros |
| Printf.UnsignedReadsBack | lib/shell/chprintf.c:228-245 | x and X read back in radix 16, u and U in radix 10, o and O in radix 8 as the argument modulo 2^32, without leading zeros of their own, and also padded with zeros |
| Printf.TextPrints | lib/shell/chprintf.c:191-202 | A string prints up to its precision, a null pointer as (null), a character as the low byte; a character that is no conversion prints itself |
| Printf.FieldIs | lib/shell/chprintf.c:250-275 | A left-aligned field begins with its conversion, a right-aligned one ends with it; the rest is blanks, or zeros behind the sign, never zeros for strings and characters |
| Printf.DirectivePrints | lib/shell/chprintf.c:130-275 | A directive in a format prints its field and uses up one argument if it is a conversion, else none |
| Printf.NumbersPrint | lib/shell/chprintf.c:121-277 | The whole output of a zero-padded d, x, u or o directive of any width reads back as the number |
| Printf.FieldWidth | lib/shell/chprintf.c:250-275 | A conversion is as long as the larger of its width and its own length, for every width whose 32-bit difference does not wrap, and what it is when it wraps |
| Shell.WordsAreTheLine | lib/shell/shell.c:149-159 | Words are non-empty and free of blanks, and together they are the line without its blanks |
| Shell.SplitJoin | lib/shell/shell.c:149-159 | Splitting words written one after the other gives them back |
| Shell.SplitAtBlank | lib/shell/shell.c:149-159 | At every blank or tab a line is split into the words before and those behind it |
| Shell.FindSpan | lib/shell/shell.c:38-39 | Finds the next stretch of characters that are no delimiters |
| Shell.Strtok | lib/shell/shell.c:29-44 | Returns the first word, terminated in place, and leaves the rest to split; without a word the line is unchanged |
| Shell.NextToken | lib/shell/shell.c:152-158 | A further call finds the next word and leaves every earlier token spelling its word |
| Shell.SplitLine | lib/shell/shell.c:149-160 | Command and arguments are the words of the line, all still spelled after the last cut; no index leaves the array; with too many words there is no command |
| Shell.GetLine | lib/shell/shell.c:202-238 | After return the buffer spells the keys folded over a stack bounded by size - 1; when input ends first it spells the line exactly when no deleted character is left behind it; nothing behind the buffer changes |
| Shell.TypedLine | lib/shell/shell.c:202-238 | Printable keys and return enter the keys, as many as there is room for |
| Shell.UndoneKeys | lib/shell/shell.c:211-235 | At any point a printable key that fits, followed by backspace or delete, is as if neither was typed; keys without effect are named |
| Sbc.Accumulator.Mlo | lib/bt/inc/sbc.h:301-306 | The word pair holds the exact product |
| Sbc.Accumulator.Mla | lib/bt/inc/sbc.h:274-280 | The word pair gains the exact product, modulo 2^64 |
| Sbc.Accumulator.Mln | lib/bt/inc/sbc.h:294-299 | The word pair is negated, modulo 2^64 |
| Sbc.Accumulator.Mlz | lib/bt/inc/sbc.h:282-286 | The low word is the value over 2^16 rounded half up, modulo 2^32, for every value |
| Sbc.Accumulator.MlzD | lib/bt/inc/sbc.h:288-292 | The low word is the value over 2^30 rounded half up, modulo 2^32, for every value |
| Sbc.Accumulate | lib/bt/inc/sbc.h:274-306 | For any number of terms the pair holds the exact, possibly negated, sum of products when that fits 64 bits |
| Sbc.RoundingExists | lib/bt/inc/sbc.h:282-292 | The rounded value exists and is unique |
| Sbc.AsmShift | lib/bt/inc/sbc.h:167-196 | Joining the shifted words is an arithmetic shift of the whole product |
| Sbc.Dct1Exact | lib/bt/inc/sbc.h:268 | For factors below 2^30 the C form does not overflow and errs by at most half a unit |
| Sbc.Dct2Exact | lib/bt/inc/sbc.h:269 | For factors below 2^28 the C form does not overflow and errs by at most half a unit |
| Sbc.DctDifference | lib/bt/inc/sbc.h:167-182 | C minus assembler form is 0 or 1, and 1 exactly when the part cut off is half a unit or more |
| Sbc.DctAsmFloors | lib/bt/inc/sbc.h:167-182 | The assembler forms are the product over 2^30 and 2^28 rounded down wherever that fits |
| Sbc.MulQSame | lib/bt/inc/sbc.h:184-196 | Both forms of the quantiser product agree for all inputs under wrapping addition |
| Sbc.MulQValue | lib/bt/inc/sbc.h:184-196 | If the sum of the first two factors fits, the quantiser product is the exact product over 2^31 rounded down if and only if not both factors are the least integer |
| Player.GoodLogsBalance | lib/player/player.c:50-82 | In a log the monitor accepts each resource is created at most once and freed exactly once unless it still exists |
| Player.GoodLogsAlternate | lib/player/player.c:155-217 | In a log the monitor accepts waits and signals of a semaphore alternate |
| Player.GoodCalls | lib/player/player.c:155-217 | In such a log every operation is called on an existing source that offers it, and nothing through a null pointer |
| Player.PlayerModule.constructor | lib/player/player.c:49 | At first there is no player and nothing exists |
| Player.PlayerModule.CreatePlayer | lib/player/player.c:64-82 | A player with a free semaphore and an empty table, or nothing at all |
| Player.PlayerModule.Handle | lib/player/player.c:155-217 | Under the semaphore the source hears of the operation exactly when it offers it; nothing is created or freed |
| Player.PlayerModule.Volume | lib/player/player.c:219-293 | Calls through a null pointer exactly for a big step on a source other than the music player; otherwise clears the mute flag and the source hears of it |
| Player.PlayerModule.Mute | lib/player/player.c:342-359 | Toggles the mute flag and the sound with it |
| Player.MuteKeys | lib/player/player.c:219-359 | Two mute keys bring the flag back and leave the sound as the flag says; a volume key clears the flag and does not touch the sound |
| Player.PlayerModule.DestroySource | lib/player/player.c:483-501 | A source that exists is freed and its pointer cleared; a null one is left alone |
| Player.PlayerModule.DestroyOutput | lib/player/player.c:503-504 | The output is freed after the source |
| Player.PlayerModule.FreePlayer | lib/player/player.c:50-62 | The free semaphore and the player are freed and nothing is left |
| Player.PlayerModule.DestroyPlayer | lib/player/player.c:473-513 | From every stage of a creation: the source is stopped if it was wired, the sound is off, everything is freed, the configuration is flushed once |
| Player.PlayerEnds | lib/player/player.c:361-513 | When a player ends its source is stopped if it can be, the sound goes off and the configuration is flushed once, before anything of the next player; the next source is started if it can be |
| Player.PlayerModule.InitOper | lib/player/player.c:84-153 | Table and argument belong to the source of the mode, with exactly the operations it offers |
| Player.Offered | lib/player/player.c:84-153 | Which sources offer each operation |
| Player.PlayerModule.StartSource | lib/player/player.c:387-447 | The new source is started if it can be, line-in without the semaphore |
| Player.PlayerModule.CreateMode | lib/player/player.c:361-471 | The old player is taken down first; with a failure at any step there is no player and nothing is left, otherwise a complete one of the mode |
| Player.PlayerModule.Step | lib/player/player.c:155-513 | Every event leaves no player or a complete one, the semaphore free, and what exists equal to what the player points to, unless it crashes |
| Player.PlayerModule.Run | lib/player/player.c:155-513 | Every run: the monitor rejects it if and only if a big volume step meets a source other than the music player; otherwise exactly the resources of the one remaining player exist, and sources, sound and configuration were told exactly what the events ask for |
| Player.RunCrashesIff | lib/player/player.c:257-293 | A run crashes if and only if one of its events does in the mode left by the events before it |
| Player.BigStepOnRadio | lib/player/player.c:257-274 | The radio with a big volume step is such a run |
| AutoPowerOff.Drvhal.constructor | lib/drvhal/drvhal.c:117-120 | Counter, deadline and listener agree with the empty history |
| AutoPowerOff.Drvhal.DoScan | lib/drvhal/drvhal.c:61-74 | Requests the power-off, after audio stop and notice, exactly when the history makes it due; every 20th count ticks |
| AutoPowerOff.Drvhal.DoNearEmpty | lib/drvhal/drvhal.c:86-93 | Deadline and listener follow the history, also when the registration fails |
| AutoPowerOff.Drvhal.DoCharging | lib/drvhal/drvhal.c:77-84 | Clears deadline and listener exactly when the message is listened to |
| AutoPowerOff.Drvhal.Run | lib/drvhal/drvhal.c:61-120 | In every run the power-off is requested at exactly the scans that are due by the history, counter wrap-around included |
| AutoPowerOff.ListeningKeeps | lib/drvhal/drvhal.c:77-93 | Without a new near-empty event the listener stays until the first charging message |
| AutoPowerOff.UnheardIff | lib/drvhal/drvhal.c:77-93 | No charging message was heard since the deadline was set if and only if none came or nobody listened then |
| AutoPowerOff.ArmedListens | lib/drvhal/drvhal.c:86-93 | An armed deadline has its listener if and only if there was one right after it was set |
| AutoPowerOff.DeafArming | lib/drvhal/drvhal.c:91-92 | With a failed registration a deadline is armed, nobody listens, and the charger does not clear it |
| AutoPowerOff.CountdownLaw | lib/drvhal/drvhal.c:61-93 | Until the counter wraps, a scan requests the power-off if and only if the latest near-empty event was 10 times the delay scans before and no charging message since was heard |
| AutoPowerOff.CountdownRegistered | lib/drvhal/drvhal.c:61-93 | If the latest registration succeeded: exactly when the latest near-empty event was 10 times the delay scans before, with no charging message since |
| AutoPowerOff.OncePerArming | lib/drvhal/drvhal.c:65-73 | Two requests of one arming are at least a whole turn of the 32-bit counter apart |

## Left out

- Loading the store's parameters and the order of loading and restoring at start (lib/config/cfg_main.c:79-119, 207-237): the validity flag and body offset are fields with any value.
- CfgMain.Config.SetDataByIndex: takes the sum of offset and length as not wrapping 32 bits, as the length test assumes.
- CfgMain.Config.GetPartDataByIndex: the length is any number, not only a 16-bit one; hs_cfg_getDataByIndex is the same without offset and without the exception for sound data.
- CfgCacheRuns.EveryCachedInterleaving: flushes between the steps of setters are not part of it; fairness and timeouts are not modelled.
- BackupLaws.AtomicBlockWrite: for writes that start with no restore due, where the header decides which block results; BackupExact.AtomicIff and PowerLoss.CutOffSettles cover the writes that start with one.
- BackupExact.AtomicIff: for backup headers that do not check out or name a block, which block writes and restores keep (WriteKeepsPlausible, RestoreKeepsPlausible); headers that come about by other means are not covered.
- Flush.FlushCache: a failure in the write back of the index block is excluded, since BackupExact.IndexBlockLost shows what it does; blocks that meet the backup area are not cached. The next pointer is read from a node just freed; the model takes the value it had.
- Session.Run: writes stay inside one block other than the index block; a loss of power is not one of its events, PowerLoss.LosePower treats it.
- PowerLoss.LosePower: power lost in the write back of the index block, or with a restore of the index block due, is excluded, since BackupExact.IndexBlockLost and BackupExact.IndexRestoreLost show what it does.
- H4.Process: for streams that do not overrun the buffer it is given (H4Laws.CellsIff says which those are for 1024 cells); what the firmware does once memory behind the buffer is overwritten is not modelled. Switching to the USB serial device and the delays are not modelled; the run ends when the read schedule does.
- H4.CollectPayload: the same limit.
- H4.Round: the same limit.
- H4.Send: for packets that hold the bytes their head announces. Statistics counters and the packet dump are not modelled.
- Printf.Snprintf: for the same formats as Printf.Vprintf.
- Printf.Vprintf: for formats whose conversions end before the terminator and that do not use `%f`; floating-point printing is not modelled.
- Shell.GetLine: the echo to the terminal is not modelled. Command execution, help and the prompt are left out as well.
- The assembler forms for the other two compilers in lib/bt/inc/sbc.h: the same computation in other syntax.
- Player.PlayerModule.Run: events are handled one after the other; handlers of several threads at once, and what the sources do inside an operation, are not modelled.
- AutoPowerOff.Drvhal.DoScan: the device scans before the counter are not modelled; the list of listeners is one flag for the charging handler, and listening for the near-empty event is taken to succeed.
- Bluetooth stack headers and glue, kernel wrappers, tones, recorder, speaker and file system: declarations, driver calls and small toggles that would only add easy members.
