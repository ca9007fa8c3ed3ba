# éterOS kernel: verified models

Dafny models of the parts of the éterOS kernel with the most state or arithmetic, with proofs.
`dafny verify dfyconfig.toml` checks the whole project.

- **FAT32 over the block cache.** `BlockCache` is the 128-entry write-through cache, `CacheTheory` its
  runs and `CachedDevice` the calls that take their steps. `Fat32Layout` says what the sectors mean
  and `Fat32Format` what that comes to in sector numbers and byte offsets,
  `Fat32Chain` and `Fat32Grow` what chains hold, `Fat32Directory`, `Fat32Names` and `Fat32Tree` what
  names stand for, `Fat32Store` how chains and byte strings correspond. `Fat32Volume` and
  `Fat32FileSystem` are the driver: imperative code on sectors, read and written through the cache,
  proved to implement a map from names to byte strings. `Fat32Runs` are arbitrary runs of commands by path, each a trace of that map, and
  `Fat32Reach` says which directories paths still lead to.
- **Scheduler, futex, semaphore.** `LinkedQueue`, `SchedulerQueues` and `SchedulerLists` are the linked
  lists in the task table, `Scheduler` the operations, `SchedulerRuns` every interleaving of their
  lock-held regions on any number of CPUs. `Futex` and `Semaphore` call the scheduler; `FutexRuns` and
  `SemaphoreRuns` interleave them with all of its steps and with stores to memory.
- **Curve25519, Ed25519 scalars, SHA-2.** `Radix` is positional arithmetic; `Field25519` and
  `Scalar25519` work in place on limb arrays, with every 64-bit bound proved. `Sha512` and `TweetHash`
  are the two SHA-512 implementations, both proved equal to the recursive definition in
  `Sha512Core`; `Sha256` is the third hash, `ShaPadding` the padding rule;
  the constants are not copied into the definition but derived from the primes in `ShaConstants`, and each
  implementation's tables are proved to be those.
- **ELF loader.** `ElfImage` gives the memory image and the page permissions after the PT_LOAD loop
  exactly, for every header table, and derives what disjoint segments are promised; `ElfLoader` is the
  loop, and `ElfHeaders` states all of it about the program headers.
- **Strings and formatting.** `WordStrings` are the eight-bytes-at-a-time functions, `BoundedFormat`
  is vsnprintf and `FormatMeaning` what formats mean.

Values and widths: words of 8, 32 and 64 bits are integers with explicit wrap-around; the bit tricks
of the string functions are on bit-vectors, those of SHA-2, sel25519 and the futex bit sets on sequences
of bits (`Bits`). Locks are taken to exclude each other, so an operation under one lock is one step. Sector I/O and small allocations succeed; a full table, a
missing stack, no memory for a page and no node are modelled.

Where the code does not do what its callers may expect, the proofs say when it does:
`sha512_final` pads correctly if and only if the tail is at most 111 bytes (`FedIsPadding`); a FAT32
write of n bytes past the end of a chain of R bytes lands at that end, and leaves a length within the
chain if and only if offset + n is at most R plus n rounded up to clusters, one at least (`Write`,
`WholeStep`, `Overshoot`); a directory renamed into itself or below is lost, and one renamed elsewhere
is not, unless its new name starts with 0xE5 (`MovedReachable`); entries with the read-only, hidden or
system bit are never found, so a create under the name of one succeeds beside it (`Plain`); a rename
onto the same 8.3 name keeps the file if and only if a deleted slot comes first (`Renamed`); a created name
whose first byte is 0xE5 is never found; an empty PT_LOAD header inside a page changes that page's
permissions (`IntrudedPage`); a stored 8.3 name survives its text form if and only if it is canonical
(`NameRoundTrip`); a kill of a reaped task's group succeeds (`KillReaped`); a semaphore waiter woken by
anything but a signal keeps its mark and can strand another (`Strand`), and a CPU's fallback task goes
on while it is blocked; `NotStranded` says exactly which runs are fair to all waiters (`Calm`).

## Model

| member | source | states |
|---|---|---|
| Field25519.Car25519 | kernel/crypto/tweetnacl.c:281-291 | one carry pass leaves the base-2^16 digits of the value mod 2^256 with 38 times the overflow added to limb 0, and no 64-bit step overflows for limbs up to 2^62 |
| Field25519.CarryWrap | kernel/crypto/tweetnacl.c:285-290 | the carry out of limb 15 is the value div 2^256, and folding it in as 38 keeps the residue mod 2^255-19 |
| Field25519.OverflowBound | kernel/crypto/tweetnacl.c:281-291 | limbs of magnitude at most m overflow by at most m div 65535 + 1 |
| Field25519.SecondCarry | kernel/crypto/tweetnacl.c:281-291 | after one pass the overflow of the second is -1, 0 or 1 |
| Field25519.ThirdCarry | kernel/crypto/tweetnacl.c:281-291 | after two such passes a third leaves plain digits |
| Field25519.Schoolbook | kernel/crypto/tweetnacl.c:364-366 | the 31 digits of the product have exactly the value a*b, within 64 bits |
| Field25519.Fold | kernel/crypto/tweetnacl.c:367-368 | folding digits 16..30 back with factor 38 keeps the residue and the bounds |
| Field25519.CarryTwice | kernel/crypto/tweetnacl.c:369-370 | two passes bring folded limbs into [-38, 2^16+38) |
| Field25519.FieldMul | kernel/crypto/tweetnacl.c:362-371 | for limbs in (-2^26, 2^26) the result is congruent to a*b mod 2^255-19 with limbs in [-38, 2^16+38), no overflow, operands may alias the result |
| Field25519.FieldSquare | kernel/crypto/tweetnacl.c:373-376 | squaring, same closure |
| Field25519.FieldAdd | kernel/crypto/tweetnacl.c:350-354 | limb-wise sum: the values add exactly, without overflow, and sums of multiplication results can be multiplied again |
| Field25519.FieldSub | kernel/crypto/tweetnacl.c:356-360 | limb-wise difference, likewise |
| Field25519.PowerStep | kernel/crypto/tweetnacl.c:383-385 | one square-and-multiply step doubles the exponent and adds the bit |
| Field25519.Inv25519 | kernel/crypto/tweetnacl.c:378-388 | the loop computes x^(2^255-21) mod 2^255-19 |
| Field25519.Pow2523 | kernel/crypto/tweetnacl.c:390-400 | the loop computes x^(2^252-3) mod 2^255-19 |
| Field25519.WordRoundTrip | kernel/crypto/tweetnacl.c:293-301 | a limb is recovered from its 64-bit two's complement pattern |
| Field25519.MaskWord | kernel/crypto/tweetnacl.c:295-295 | ~(b-1) is all zeros for 0 and all ones for 1 |
| Field25519.SelWord | kernel/crypto/tweetnacl.c:297-299 | the masked exclusive-or keeps both words or swaps them, bit by bit |
| Field25519.Sel25519 | kernel/crypto/tweetnacl.c:293-301 | done on the limbs' bit patterns, it exchanges the two elements exactly when the bit is set |
| Field25519.CarryThrice | kernel/crypto/tweetnacl.c:307-310 | three passes reach the canonical digits of a number below 2^256 |
| Field25519.SubtractP | kernel/crypto/tweetnacl.c:312-319 | the borrow chain computes t - P and its sign |
| Field25519.Pack25519 | kernel/crypto/tweetnacl.c:303-326 | for limbs up to 2^62 the 32 bytes are the unique encoding in [0, P) of the represented residue |
| Field25519.Unpack25519 | kernel/crypto/tweetnacl.c:343-348 | the limbs hold the little-endian value without the top bit |
| Field25519.PackUnpack | kernel/crypto/tweetnacl.c:303-348 | packing what was unpacked gives back every canonical string |
| Field25519.Neq25519 | kernel/crypto/tweetnacl.c:328-334 | elements compare equal exactly when they are congruent mod P |
| Scalar25519.OrderIs | kernel/crypto/tweetnacl.c:683-683 | L is 2^252 + 27742317777372353535851937790883648493 |
| Scalar25519.EliminateLimb | kernel/crypto/tweetnacl.c:689-696 | one row subtracts exactly 16*x[i]*256^(i-32)*L from the value, with bounded signed limbs |
| Scalar25519.EliminateHigh | kernel/crypto/tweetnacl.c:688-697 | limbs 63..32 become zero and the residue mod L is kept |
| Scalar25519.SubtractQuotient | kernel/crypto/tweetnacl.c:698-703 | the value loses q*L with q = x[31] >> 4 and is normalised to bytes |
| Scalar25519.QuotientEstimate | kernel/crypto/tweetnacl.c:698-704 | the estimate is off by at most one |
| Scalar25519.EstimateOffByOne | kernel/crypto/tweetnacl.c:698-704 | the value less (q + carry) times L lies in [0, L), with carry -1 or 0 |
| Scalar25519.AddBack | kernel/crypto/tweetnacl.c:704-704 | the value loses exactly carry times L, with bounded limbs |
| Scalar25519.EmitBytes | kernel/crypto/tweetnacl.c:705-708 | the last loop emits the bytes of the value mod 2^256 |
| Scalar25519.ModL | kernel/crypto/tweetnacl.c:685-709 | for limbs of magnitude up to 2^21 the 32 bytes are the value mod L, fully reduced |
| Scalar25519.Reduce | kernel/crypto/tweetnacl.c:711-717 | every 64-byte string becomes its value mod L |
| Scalar25519.SignScalar | kernel/crypto/tweetnacl.c:743-746 | the signature scalar is (r + h*d) mod L |
| ShaConstants.PrimesListed | kernel/crypto/sha512.c:8-29 | the list begins with 2 and each entry is the next prime after the one before: the first eighty primes |
| Sha512.TableRight | kernel/crypto/sha512.c:8-29 | entry t of the table is the first 64 bits of the fractional part of the cube root of the t-th prime (section 4.2.3 of FIPS 180-4) |
| Sha512.StartRight | kernel/crypto/sha512.c:66-73 | the initial state is 64 bits of the fractional parts of the square roots of the first eight primes (section 5.3.5) |
| Sha512Core.ChooseMajority | kernel/crypto/sha512.c:32-33 | Ch is the choice and Maj the majority, bit by bit |
| Sha512Core.Sigmas | kernel/crypto/sha512.c:34-37 | the four sigma functions bit by bit: each bit is an odd number of the three at the given distances |
| Sha512Core.PlusWraps | kernel/crypto/sha512.c:39-60 | words are added modulo 2^64 |
| ShaPadding.PadMeans | kernel/crypto/sha512.c:87-106 | padding is the byte 0x80, the least number of zeros, and the length in bits as a big-endian number that ends a block |
| Sha512.Expand | kernel/crypto/sha512.c:43-50 | the 80-word schedule is the recursive one of section 6.4.2 of FIPS 180-4 |
| Sha512.Transform | kernel/crypto/sha512.c:39-64 | one block is folded in by the compression function |
| Sha512.Context.Add | kernel/crypto/sha512.c:78-83 | the buffer, the state and the bit count stay those of the bytes absorbed so far |
| Sha512.Context.Update | kernel/crypto/sha512.c:75-85 | any split of a message into updates absorbs its concatenation |
| Sha512.Context.Final | kernel/crypto/sha512.c:87-112 | the digest is the fold over exactly the bytes Fed describes, at every length |
| Sha512.FedIsPadding | kernel/crypto/sha512.c:87-106 | those bytes are the FIPS 180-4 padding if and only if the length mod 128 is at most 111 |
| Sha512.Sha512Hash | kernel/crypto/sha512.c:114-119 | sha512 is SHA-512 on such messages below 2^61 bytes |
| Sha512Core.WordRoundTrip | kernel/crypto/tweetnacl.c:43-60 | a word written big-endian is read back |
| Sha512Core.AbsorbConcat | kernel/crypto/sha512.c:75-85 | absorbing block-aligned pieces one after the other is absorbing them at once |
| TweetHash.LoadWord | kernel/crypto/tweetnacl.c:43-48 | dl64 reads a big-endian word |
| TweetHash.StoreWord | kernel/crypto/tweetnacl.c:56-60 | ts64 writes one and touches nothing else |
| TweetHash.TableRight | kernel/crypto/tweetnacl.c:503-525 | this implementation's own table holds the same constants of the standard |
| TweetHash.RotateRound | kernel/crypto/tweetnacl.c:538-542 | copying through b and rotating a performs one round of the compression function |
| TweetHash.Slide | kernel/crypto/tweetnacl.c:543-545 | the in-place update of 16 words moves the schedule window on by 16, although later words read updated ones |
| TweetHash.OneBlock | kernel/crypto/tweetnacl.c:535-548 | the 16-word schedule and the rotating state compute the same compression as the 80-word one |
| TweetHash.HashBlocks | kernel/crypto/tweetnacl.c:527-557 | the stored state is the fold over the whole blocks, and the rest length is returned |
| TweetHash.LoadDigest | kernel/crypto/tweetnacl.c:532-554 | the state survives being stored and loaded between two calls |
| TweetHash.IvIsInitial | kernel/crypto/tweetnacl.c:559-568 | the byte table is the initial hash value |
| TweetHash.LastBlocks | kernel/crypto/tweetnacl.c:582-588 | the last one or two blocks are the padded tail with the 128-bit length |
| TweetHash.CryptoHash | kernel/crypto/tweetnacl.c:570-594 | crypto_hash is SHA-512 of every message whose length fits 64 bits |
| TweetHash.HashesAgree | kernel/crypto/sha512.c:87-119 | sha512 returns the digest of the bytes Fed, crypto_hash that of the padded message, and below 2^61 bytes with length mod 128 at most 111 they are the same |
| Sha256.TableRight | kernel/crypto/sha256.c:10-19 | entry t of the table is the first 32 bits of the fractional part of the cube root of the t-th prime (section 4.2.2 of FIPS 180-4) |
| Sha256.StartRight | kernel/crypto/sha256.c:78-90 | the initial state is 32 bits of the fractional parts of the square roots of the first eight primes (section 5.3.3) |
| Sha256.ChooseMajority | kernel/crypto/sha256.c:26-27 | Ch is the choice and Maj the majority, bit by bit |
| Sha256.Sigmas | kernel/crypto/sha256.c:28-31 | the four sigma functions bit by bit |
| Sha256.PlusWraps | kernel/crypto/sha256.c:37-76 | words are added modulo 2^32 |
| Sha256.WordRoundTrip | kernel/crypto/sha256.c:41-42 | a word written big-endian is read back |
| Sha256.Expand | kernel/crypto/sha256.c:41-44 | the 64-word schedule of section 6.2.2 of FIPS 180-4 |
| Sha256.Transform | kernel/crypto/sha256.c:37-76 | one block is folded in by the compression function |
| Sha256.Context.Add | kernel/crypto/sha256.c:98-106 | the context stays that of the bytes absorbed so far |
| Sha256.Context.Update | kernel/crypto/sha256.c:92-107 | any split of a message absorbs its concatenation |
| Sha256.Context.PadTail | kernel/crypto/sha256.c:118-128 | the tail is padded in place or through a block of its own |
| Sha256.Context.Final | kernel/crypto/sha256.c:109-153 | the digest is the fold over the FIPS 180-4 padding at every length |
| Sha256.PaddedFold | kernel/crypto/sha256.c:115-140 | the padded message is the whole blocks, the filled tail and a last block ending in the length |
| Sha256.Emit | kernel/crypto/sha256.c:142-152 | writing byte i of all words side by side gives the digest in word order |
| Sha256.Sha256Hash | kernel/crypto/sha256.c:155-161 | sha256 is SHA-256 |
| BlockCache.Cache.Read | kernel/fs/bcache.c:30-44 | a hit returns the entry's bytes and restamps it, a miss changes nothing |
| BlockCache.Cache.Write | kernel/fs/bcache.c:46-85 | the sector is stored in its own entry, else in a free one, else over the least stamp |
| BlockCache.Cache.ChooseVictim | kernel/fs/bcache.c:61-74 | the scan returns a free entry or one with the least stamp |
| BlockCache.Cache.Invalidate | kernel/fs/bcache.c:87-98 | exactly the entry of that sector is dropped |
| BlockCache.Cache.InvalidateAll | kernel/fs/bcache.c:100-109 | every entry is dropped |
| CacheTheory.StoredCoherent | kernel/fs/bcache.c:46-85 | a store keeps at most one entry per sector and coherence, whichever slot it takes |
| CacheTheory.StoreRefines | kernel/fs/bcache.c:46-85 | a store moves the key to the front of the recency list and keeps its 128 most recent |
| CacheTheory.HitRefines | kernel/fs/bcache.c:30-44 | a hit moves the key to the front |
| CacheTheory.MissRefines | kernel/fs/bcache.c:61-84 | a store of a new key drops exactly the least recent one when full |
| CacheTheory.InvalidateRefines | kernel/fs/bcache.c:87-98 | an invalidation takes the key out of the list |
| CacheTheory.EveryRunCoherent | kernel/fs/fat32.c:13-24 | in every run of the steps the calls take, at every moment, each sector has at most one valid entry, it equals the disk, and a read returns the disk's sector |
| CachedDevice.CachedRead | kernel/fs/fat32.c:13-18 | a cached read, hit, miss or failed, is a step of the device of CacheTheory |
| CachedDevice.CachedWrite | kernel/fs/fat32.c:20-24 | a cached write is a step: the disk changes, and the cache only when the disk did |
| CachedDevice.Uncache | kernel/fs/bcache.c:87-98 | dropping one sector is a step |
| CachedDevice.UncacheAll | kernel/fs/bcache.c:100-109 | dropping everything is a step |
| CachedDevice.Serve | kernel/fs/bcache.c:30-109 | any sequence of these calls on any volumes is a run of the device, so each read that succeeds returns what the disk holds then, and the cache stays coherent |
| CachedDevice.StepAmong | kernel/fs/fat32.c:13-24 | a step seen from one volume's disk is one among any other disks |
| CacheTheory.EveryRunLru | kernel/fs/bcache.c:30-98 | over every run of those steps, until the counter wraps, the stamped array is the least-recently-used list |
| Fat32Format.DataRegion | kernel/fs/fat32.c:155-158 | clusters 2 to n - 1, end to end, are the sectors from the start of the data area on |
| Fat32Format.SectorOnDisk | kernel/fs/fat32.c:155-158 | sector i of cluster c is sector (c - 2) * sectors-per-cluster + i of the data area |
| Fat32Format.TableEntry | kernel/fs/fat32.c:128-153 | entry c of the table is the low 28 bits of the little-endian number in its bytes 4c to 4c + 3 |
| Fat32Format.ContentOnDisk | kernel/fs/fat32.c:437-486 | each byte of a chain's content is a byte of a given sector of the disk |
| Fat32Format.ChainMeans | kernel/fs/fat32.c:128-153 | a chain is distinct clusters linked by the table, the last marked from 0x0FFFFFF8 on |
| Fat32Format.EntryMeans | kernel/fs/fat32.c:359-380 | where a directory entry has its name and attributes, and which first bytes and attributes hide it |
| Fat32Format.EntryNumbers | kernel/fs/fat32.c:257-275 | the first cluster and the length of an entry as little-endian numbers of its bytes |
| Fat32Format.EntryWrites | kernel/fs/fat32.c:257-275 | which bytes of an entry change with each field |
| Fat32Layout.WriteFatSector | kernel/fs/fat32.c:160-187 | rewriting four bytes of a table sector changes that table entry and nothing else of the volume |
| Fat32Layout.WriteDataSector | kernel/fs/fat32.c:155-158 | rewriting a data sector changes that sector of that cluster and nothing else |
| Fat32Chain.ContentWrite | kernel/fs/fat32.c:557-570 | rewriting part of a cluster rewrites that slice of the chain's bytes |
| Fat32Chain.ChainAppend | kernel/fs/fat32.c:530-531 | linking a free cluster behind the last extends the chain and keeps it acyclic |
| Fat32Chain.FreeNotInChain | kernel/fs/fat32.c:190-244 | a free cluster is in no chain |
| Fat32Chain.FreedDecreases | kernel/fs/fat32.c:247-254 | a step that zeroes a nonzero entry leaves fewer of them, so the freeing loop ends even on a cyclic table |
| Fat32Grow.GrownAppend | kernel/fs/fat32.c:574-580 | growing a chain takes the lowest free clusters and leaves other chains and their bytes alone |
| Fat32Grow.ContentAppend | kernel/fs/fat32.c:224-233 | a new cluster adds a cluster of zeros to the bytes |
| Fat32Grow.GrownCount | kernel/fs/fat32.c:574-580 | every cluster a chain has gained was one of the free ones, and there are that many fewer |
| Fat32Grow.GrownSize | kernel/fs/fat32.c:522-580 | the size of a grown chain as a function of its size before, the offset and the byte count |
| Fat32Grow.WritingCluster | kernel/fs/fat32.c:550-584 | a write in progress over several clusters is a splice of the bytes so far |
| Fat32Directory.InsertName | kernel/fs/fat32.c:257-275 | filling a free slot adds exactly its name to the directory's map |
| Fat32Directory.RemoveName | kernel/fs/fat32.c:804-816 | marking a slot deleted removes exactly its name |
| Fat32Directory.ReplaceEntry | kernel/fs/fat32.c:257-275 | rewriting other fields changes what the name stands for and no other name |
| Fat32Directory.GrowNames | kernel/fs/fat32.c:344-354 | a zeroed cluster appended to a directory changes no name |
| Fat32Names.ToDosName | kernel/fs/fat32.c:46-72 | the 11 bytes are the upper-case base and extension filled with spaces |
| Fat32Names.DosNameMeans | kernel/fs/fat32.c:46-72 | the character at each of the 11 places: from before or behind the first dot, in upper case, or a space |
| Fat32Names.DosNameProper | kernel/fs/fat32.c:46-72 | no path component is written as a dot entry or an end marker |
| Fat32Names.GetName | kernel/fs/fat32.c:27-44 | the name shown is the trimmed base, a dot and the trimmed extension |
| Fat32Names.NameRoundTrip | kernel/fs/fat32.c:27-72 | converting a stored name to text and back is the identity if and only if the name is canonical |
| Fat32Volume.Volume.ReadSector | kernel/fs/fat32.c:13-18 | a read through the cache is a step of CacheTheory, returns the disk's sector and keeps coherence |
| Fat32Volume.Volume.WriteSector | kernel/fs/fat32.c:20-24 | a write through the cache is a step of CacheTheory, changes the disk's sector and keeps coherence |
| Fat32Volume.Volume.GetNext | kernel/fs/fat32.c:128-153 | the table entry of the cluster |
| Fat32Volume.Volume.FatSet | kernel/fs/fat32.c:160-187 | exactly one table entry changes |
| Fat32Volume.Volume.AllocCluster | kernel/fs/fat32.c:190-244 | the lowest free cluster is taken and zeroed, failure only when none is free |
| Fat32Volume.Volume.FreeChain | kernel/fs/fat32.c:247-254 | what following and zeroing entries leaves, wherever the walk from the start stays inside the table, cycles included |
| Fat32Volume.Volume.Seek | kernel/fs/fat32.c:412-423 | the cluster of the chain that holds the offset, or its end |
| Fat32Volume.Volume.ReadFile | kernel/fs/fat32.c:437-486 | exactly the bytes [offset, offset+size) of the chain up to the length, across clusters and partial sectors |
| Fat32Volume.Volume.WriteFile | kernel/fs/fat32.c:518-585 | at any offset the bytes written are spliced into the chain's bytes, at the chain's end when it is shorter; how many, how far the chain grows and whether the write stalls are functions of the chain's size and the number of free clusters |
| Fat32Volume.WrittenSize | kernel/fs/fat32.c:518-585 | a write stops short only when it has filled its chain and taken every free cluster |
| Fat32Volume.Volume.IterateDir | kernel/fs/fat32.c:281-317 | the scan stops at the first slot its callback does not pass over, in chain order |
| Fat32Volume.Volume.UpdateDirent | kernel/fs/fat32.c:257-275 | 32 bytes of one sector are replaced |
| Fat32FileSystem.FileSystem.FindDirent | kernel/fs/fat32.c:382-393 | the slot of the visible entry with that name, or none exists |
| Fat32FileSystem.FileSystem.FindFreeDirent | kernel/fs/fat32.c:336-354 | the first free slot, on a new zeroed cluster if all are in use; names unchanged |
| Fat32FileSystem.FileSystem.Create | kernel/fs/fat32.c:717-735 | an empty file under a free name, every other name and file unchanged; a name starting with the deleted marker is written but never found |
| Fat32FileSystem.FileSystem.Write | kernel/fs/fat32.c:496-605 | at any offset: whether it stalls, the byte count n, the chain's bytes and the length max(old, offset+n) are functions of the state before; within the length the file becomes its old bytes with buf[..n] over them; a length within the chain stays so if and only if offset <= R or offset+n <= R + n rounded up to clusters (one at least), R being the chain's size before; every other name unchanged |
| Fat32FileSystem.LengthReached | kernel/fs/fat32.c:522-590 | that condition, as arithmetic on sizes known before the write and the count |
| Fat32FileSystem.FileSystem.Read | kernel/fs/fat32.c:437-486 | exactly that slice of the file's bytes |
| Fat32FileSystem.FileSystem.WriteThenRead | kernel/fs/fat32.c:437-605 | a read after a write returns the slice of the spliced bytes, at every offset |
| Fat32FileSystem.FileSystem.Mkdir | kernel/fs/fat32.c:745-794 | an empty directory on a fresh cluster under a free name, with '.' for that cluster and '..' for its parent's, 0 for the root; other names unchanged |
| Fat32FileSystem.FileSystem.Unlink | kernel/fs/fat32.c:804-816 | the name is gone, exactly the clusters of its chain are free again, other names and chains unchanged; a directory that holds its own entry goes with it |
| Fat32FileSystem.FileSystem.Rename | kernel/fs/fat32.c:819-846 | between distinct names the node moves, into itself too, and replaces any target, whose chain stays allocated; onto the same name it survives if and only if a deleted slot precedes its own |
| Fat32FileSystem.FileSystem.Open | kernel/fs/fat32.c:661-707 | a node exactly for a name that is a file, with its first cluster, length and slot |
| Fat32FileSystem.CreateEffect | kernel/fs/fat32.c:717-735 | what create does to every name of every directory |
| Fat32FileSystem.WriteEffect | kernel/fs/fat32.c:496-605 | what a write does to every name: the file's own shows its chain up to the new length, every other stays |
| Fat32FileSystem.WriteDone | kernel/fs/fat32.c:496-605 | the file-level law of a write at every offset |
| Fat32FileSystem.MkdirEffect | kernel/fs/fat32.c:745-794 | what mkdir does to every name |
| Fat32FileSystem.MkdirUnseen | kernel/fs/fat32.c:745-794 | a directory name that starts with the deleted marker is never found |
| Fat32FileSystem.UnlinkEffect | kernel/fs/fat32.c:804-816 | what unlink does to every name |
| Fat32FileSystem.RenameDistinct | kernel/fs/fat32.c:819-846 | the move between different names |
| Fat32FileSystem.RenameSame | kernel/fs/fat32.c:829-843 | the rename onto itself: the old slot is deleted last |
| Fat32Store.StoreGrown | kernel/fs/fat32.c:496-605 | growing and writing one chain leaves all other chains and bytes alone |
| Fat32Store.StoreTaken | kernel/fs/fat32.c:190-244 | a taken cluster becomes a chain disjoint from all others |
| Fat32Store.StoreElsewhere | kernel/fs/fat32.c:804-816 | rewriting a cluster in no chain, as an unlink may, changes no file |
| Fat32Store.StoreFreed | kernel/fs/fat32.c:247-254 | freeing a chain returns exactly its clusters |
| Fat32Runs.Run | kernel/fs/fat32.c:496-846 | every run of create, write, mkdir, unlink and rename by path, writes past the end and directories put into themselves included, is a trace in which each command has the effect that the state before it determines; chains are acyclic and disjoint and the tree well formed at every moment; a name no command was about, in a directory none dropped, stands for what it did; and lengths stay within chains unless a write overshoots |
| Fat32Runs.WholeStep | kernel/fs/fat32.c:496-846 | on a volume where every file has as many bytes as its length says, a command leaves one such exactly when it is no overshooting write |
| Fat32Runs.WholeRun | kernel/fs/fat32.c:496-846 | so every file keeps as many bytes as its length in every run without such a write |
| Fat32Runs.Overshoot | kernel/fs/fat32.c:522-590 | a write of no bytes more than a cluster past the chain leaves a length the chain does not reach |
| Fat32Reach.MovedReachable | kernel/fs/fat32.c:819-846 | after a rename a directory can be reached from the root if and only if the directory it was put into could be reached without it, and its new name does not start with the deleted marker |
| Fat32Reach.RenameReachable | kernel/fs/fat32.c:819-846 | so it is for every rename command of a run, on a volume that is not full |
| Fat32Reach.IntoItself | kernel/fs/fat32.c:819-846 | a directory put into itself is on no path any more |
| Fat32Runs.EffectFrame | kernel/fs/fat32.c:496-846 | one command leaves every directory it does not drop and every name it is not about |
| Fat32Runs.SparedSame | kernel/fs/fat32.c:496-846 | so does any run of them |
| LinkedQueue.InsertLinked | kernel/task.c:122-136 | linking an element between its neighbours inserts it into the list |
| LinkedQueue.RemoveLinked | kernel/task.c:147-158 | unlinking it takes it out, the rest in order |
| SchedulerLists.ReadyLists.Enqueue | kernel/task.c:161-201 | the task joins the end of its CPU's list; one already listed stays where it is |
| SchedulerLists.ReadyLists.Dequeue | kernel/task.c:203-231 | the task leaves its CPU's list; one not listed changes nothing; the count follows |
| SchedulerLists.SleepQueue.Enqueue | kernel/task.c:115-137 | the task goes before the first sleeper that wakes no earlier, so the list stays sorted |
| SchedulerLists.SleepQueue.FindPlace | kernel/task.c:122-131 | the walk finds that place |
| SchedulerLists.SleepQueue.Dequeue | kernel/task.c:139-159 | the task leaves the list; one not listed changes nothing |
| SchedulerLists.SleepQueue.Listed | kernel/task.c:143-145 | null links and not being the head say exactly that a task is not listed |
| Selection.SweepIsScan | kernel/task.c:874-894 | on a sorted queue, stopping at the first later tick selects what a full scan would |
| SmpScheduler.Scheduler.constructor | kernel/task.c:317-478 | after boot the invariant holds |
| SmpScheduler.Scheduler.IsActive | kernel/task.c:910-916 | the scan over the CPUs finds whether one runs the task |
| SmpScheduler.Scheduler.Resume | kernel/task.c:906-925 | a waiting task leaves the sleep queue and joins its ready list unless a CPU still runs it; invariant kept |
| SmpScheduler.Scheduler.Schedule | kernel/task.c:632-777 | the head of the list, else the current task, else the fallback runs next; a preempted task goes to the end; the turn lasts 10 calls; invariant kept |
| SmpScheduler.Scheduler.Yield | kernel/task.c:788-797 | the head of a nonempty ready list runs at once |
| SmpScheduler.Scheduler.Block | kernel/task.c:820-838 | the running task is blocked, or stays ready when a signal is pending |
| SmpScheduler.Scheduler.BlockUntil | kernel/task.c:799-857 | blocked or asleep until a tick, in the sleep queue at its place |
| SmpScheduler.Scheduler.Wakeup | kernel/task.c:897-947 | a waiting task becomes ready, any other is left alone |
| SmpScheduler.Scheduler.WakeExpired | kernel/task.c:869-895 | exactly the sleepers with wake tick <= now become ready, in order; the others stay |
| SmpScheduler.Scheduler.WakeParentWaiter | kernel/task.c:955-980 | exactly the waiting tasks with the parent's id become ready |
| SmpScheduler.Scheduler.Exit | kernel/task.c:982-1014 | the task is dead, its children belong to task 0, its waiting parent is ready |
| SmpScheduler.Scheduler.Leave | kernel/task.c:1030-1040 | the running task stops |
| SmpScheduler.Scheduler.Kill | kernel/task.c:1070-1123 | every slot below the mark with that tgid and not dead is signalled and none stays waiting; 0 exactly when there is such a slot, a reaped one with a stale tgid included |
| SmpScheduler.Scheduler.KillReaped | kernel/task.c:1070-1123 | so killing a group whose threads have all been reaped returns 0 and signals the free slot |
| SmpScheduler.Scheduler.Reap | kernel/task.c:1517-1558 | the slot of a dead task no CPU runs is free |
| SmpScheduler.Scheduler.FindFreeSlot | kernel/task.c:241-270 | the lowest free slot, else the lowest dead child of task 0, else none |
| SmpScheduler.Scheduler.Create | kernel/task.c:499-626 | fails exactly when the mark is at the number of slots, there is no stack, or every slot is in use and none by a dead child of task 0 that no CPU runs; else a new task with its own id, group and parent 0 at the end of its CPU's ready list, and the mark moves past it |
| SmpScheduler.Scheduler.Begin | kernel/task.c:1165-1201 | fails in the same cases; else a slot under construction with a fresh id, the caller's id as parent, and a group of its own or the caller's |
| SmpScheduler.Scheduler.Finish | kernel/task.c:1295-1299 | the slot joins its ready list and is no longer under construction, and the mark is past it |
| SmpScheduler.Scheduler.RunsOnce | kernel/task.c:699-741 | no task is current on two CPUs |
| SmpScheduler.Scheduler.QueuedOnce | kernel/task.c:161-231 | a queued task is queued once, on its target, ready, and current nowhere |
| SmpScheduler.Scheduler.ListsFormed | kernel/task.c:161-231 | each ready list is well formed and as long as local_task_count |
| SmpScheduler.Scheduler.NothingLost | kernel/task.c:632-980 | every built runnable task is queued or current |
| SmpScheduler.Scheduler.SleepersKept | kernel/task.c:115-159 | the sleep queue is sorted, holds only blocked or sleeping tasks, and every sleeper but the fallbacks |
| SchedulerRuns.Perform | kernel/task.c:632-1123 | one step keeps the invariant and changes the table, the CPUs and the queues exactly as its operation does; a task becomes blocked or goes to sleep only in a step of its own, and a blocked one comes back only in a step that reaches it |
| SchedulerRuns.Run | kernel/task.c:632-1123 | every interleaving is a trace of such steps, and all of that holds after it: schedule, yield, block, sleep, wake, expire, kill, stop, exit, create, fork and reap on any number of CPUs |
| FutexLists.TakenPrefix | kernel/futex.c:178-203 | a walk takes exactly the first min(count, matches) matching nodes |
| FutexLists.LeftRest | kernel/futex.c:178-203 | and leaves the others in order |
| Futex.CommonBit | kernel/futex.c:182-182 | the mask is nonzero exactly when some bit number below 32 is set in both sets |
| Futex.AllBits | kernel/futex.c:182-182 | a wake with all bits reaches every node of its key whose set is not empty |
| Futex.FutexTable.WaitBegin | kernel/futex.c:61-115 | the node is queued and the task blocked in one step exactly when the word of memory has the expected value then; else nothing changes |
| Futex.FutexTable.WaitEnd | kernel/futex.c:122-160 | success exactly when a wake unlinked the node; the node is unlinked if it was not, and freed |
| Futex.FutexTable.Search | kernel/futex.c:132-146 | the walk finds the node and what leads to it |
| Futex.FutexTable.Unlink | kernel/futex.c:141-141 | the pointer that led to a node leads past it |
| Futex.FutexTable.TakeNode | kernel/futex.c:180-194 | a taken node's task is no longer blocked and the node stays allocated |
| Futex.FutexTable.Wake | kernel/futex.c:163-209 | the first min(count, matches) nodes of the bucket are taken, each of them for the same address, the same address space unless shared, and a common bit; none of their tasks is blocked; and if fewer than count were taken no waiter of that key, flag and a common bit remains |
| Futex.NotMissed | kernel/futex.c:34-40 | a waiter queued under the same key and flag is in the bucket a wake walks |
| FutexRuns.Run | kernel/futex.c:61-209 | after every interleaving: each waiter owns one allocated node, linked in its bucket exactly until a wake takes it; a taken waiter is not blocked; no freed node is linked; what a signal settled stays settled until another value is stored |
| FutexRuns.WakeThenRun | kernel/futex.c:61-209 | no wake-up is lost: after a store and a wake that took fewer than its count, no waiter of that key on another value of the word is ever blocked, in every run that stores nothing else there |
| Semaphore.Sem.WaitTurn | kernel/sem.c:24-35 | one turn takes a unit if there is one and else blocks |
| Semaphore.Sem.Signal | kernel/sem.c:45-71 | one more unit, and exactly the first blocked waiter in slot order is woken |
| SemaphoreRuns.Conserved | kernel/sem.c:12-71 | in every run count = initial + signals - turns that took a unit, and it stays >= 0 |
| SemaphoreRuns.FairStep | kernel/sem.c:12-71 | from a moment at which every unit has a woken waiter on its way to it while any waiter is blocked, the next is such a moment exactly when the act is calm: it takes no unit for a marked task, blocks none with a pending signal, and is no other step that unblocks a marked one |
| SemaphoreRuns.QuietIsCalm | kernel/sem.c:12-71 | which acts are calm in any case, as can be seen before them |
| SemaphoreRuns.NotStranded | kernel/sem.c:12-71 | so a run that starts with nobody waiting is that way at every moment if and only if all its acts are calm |
| SemaphoreRuns.Run | kernel/sem.c:12-71 | every sequence of waits, signals and scheduler steps is a trace of those steps, so both hold of it |
| SemaphoreRuns.Strand | kernel/sem.c:12-71 | a run in which something else wakes a waiter and a later waiter is blocked for good next to a free unit |
| ElfHeaders.CheckMeans | kernel/fs/elf.c:247-309 | a header passes exactly when filesz <= memsz, offset and filesz fit 32 bits, and its segment lies in user space without wrapping; the segment has the header's flags, offset and sizes, at vaddr + base mod 2^64 |
| ElfHeaders.AcceptedMeans | kernel/fs/elf.c:236-304 | so for the whole table of headers |
| ElfHeaders.SegmentOf | kernel/fs/elf.c:236-309 | the k-th segment is the k-th PT_LOAD header's |
| ElfHeaders.RangeMeans | kernel/fs/elf.c:312-314 | a segment ranges over the pages that hold a byte of it, and without memory over the page it points inside |
| ElfHeaders.TightenedMeans | kernel/fs/elf.c:345-360 | such a page gets the segment's exec bit, and write if the segment has it or does not fill the page |
| ElfHeaders.LastDecides | kernel/fs/elf.c:345-366 | the last segment to range over a page decides |
| ElfHeaders.HeaderImage | kernel/fs/elf.c:315-342 | each of a table of disjoint PT_LOAD headers has its bytes of the file at its address, and zeros behind them |
| ElfHeaders.HeaderWritable | kernel/fs/elf.c:353-365 | a page with bytes of a PF_W header is writable |
| ElfHeaders.HeaderFills | kernel/fs/elf.c:345-366 | a page a header fills has exactly its PF_W and PF_X, unless a later empty header points inside it |
| ElfHeaders.HeaderExec | kernel/fs/elf.c:345-366 | the last header over a page gives it its PF_X, whether or not it fills the page |
| ElfLoader.Loader.MapPages | kernel/fs/elf.c:312-333 | succeeds exactly when there is a frame for each missing page; those are mapped writable and zeroed, mapped ones and their bytes kept |
| ElfLoader.Loader.Copy | kernel/fs/elf.c:336-342 | the file bytes land in the segment and nowhere else, or the read was short |
| ElfLoader.Loader.Tighten | kernel/fs/elf.c:345-366 | each page of the segment gets the header's permissions, with write where the segment begins or ends inside it |
| ElfLoader.Loader.Load | kernel/fs/elf.c:236-368 | succeeds exactly when every header is accepted, the file holds every segment's bytes and there is a frame for each page some segment ranges over; then memory is Image and permissions are PermAt; with disjoint headers each one's bytes are in place, and no copy went through a page without write |
| ElfImage.SegmentImage | kernel/fs/elf.c:315-342 | each of the disjoint segments holds its file bytes, then zeros, even on shared pages |
| ElfImage.WritableBefore | kernel/fs/elf.c:353-365 | where a disjoint segment meets a page mapped before it, that page is writable |
| ElfImage.WriteKept | kernel/fs/elf.c:353-365 | a page with bytes of a writable segment stays writable |
| ElfImage.FilledPage | kernel/fs/elf.c:345-366 | a page one segment fills has exactly the header's permissions unless a later empty header points inside it |
| ElfImage.IntrudedPage | kernel/fs/elf.c:345-366 | such a header leaves the page writable with its own exec bit |
| WordStrings.ZeroTrick | kernel/string.c:325-331 | the mask is nonzero exactly when one of the eight bytes is zero |
| WordStrings.StrLen | kernel/string.c:311-342 | the distance to the first NUL, at every alignment |
| WordStrings.StrNLen | kernel/string.c:395-437 | the same, at most max |
| WordStrings.SameWord | kernel/string.c:504-512 | words are equal exactly when their bytes are |
| WordStrings.StrCmp | kernel/string.c:481-531 | the difference of the bytes at the first place that decides |
| WordStrings.DecidesOnce | kernel/string.c:526-530 | there is only one such place |
| WordStrings.HasByte | kernel/string.c:552-562 | the match mask is nonzero exactly when some byte is the one sought |
| WordStrings.StrChr | kernel/string.c:533-590 | the first occurrence, the NUL included, or none before the NUL |
| WordStrings.StrNCmp | kernel/string.c:601-657 | zero when the first n bytes agree, else the difference at the place that decides |
| BoundedFormat.Output.Append | kernel/stdio.c:8-13 | the text grows by one character and its first size-1 are in the buffer |
| BoundedFormat.Output.Fill | kernel/stdio.c:58-65 | a block fill does what appending one by one does |
| BoundedFormat.Output.Copy | kernel/stdio.c:79-85 | a block copy does what appending one by one does |
| BoundedFormat.Backwards | kernel/stdio.c:31-53 | the digits written backwards are the numeral |
| BoundedFormat.NumeralDenotes | kernel/stdio.c:31-53 | a numeral denotes its number and has no leading zero |
| BoundedFormat.SignedPrints | kernel/stdio.c:26-29 | signed numbers print as sign and absolute value, the smallest included |
| BoundedFormat.Output.FormatInt | kernel/stdio.c:21-95 | the text grows by the padded field |
| BoundedFormat.ReadDirective | kernel/stdio.c:111-150 | flags, width, precision and length are read as the grammar says |
| BoundedFormat.Print | kernel/stdio.c:153-217 | the text grows by what the directive prints |
| FormatMeaning.DigitIs | kernel/stdio.c:17-19 | the sixteen digits in both cases, and the characters a width is read from |
| FormatMeaning.FieldMeans | kernel/stdio.c:21-95 | a number fills its width with spaces before it, zeros behind its sign, or spaces behind it, and is never cut |
| FormatMeaning.TextMeans | kernel/stdio.c:180-194 | a string likewise, cut at the precision |
| FormatMeaning.PieceMeans | kernel/stdio.c:153-217 | what each letter reads, in 32 bits or behind an l in 64, signed or not, and in which base and case it shows it |
| FormatMeaning.SpellParts | kernel/stdio.c:111-150 | a directive is read back from its own text |
| FormatMeaning.FormatMeans | kernel/stdio.c:97-228 | text, then a directive, then the rest of a format: each is expanded on its own, the rest with the next argument if one was taken |
| BoundedFormat.Vsnprintf | kernel/stdio.c:97-228 | the length of the unbounded expansion is returned and its first min(size-1, length) characters and a NUL are in the buffer; bytes from size on untouched |

## Left out

- Fat32FileSystem.FileSystem.Write: offset plus size is below 2^32, the width of the driver's offsets and lengths; so are those of the commands of a run.
- Fat32FileSystem.FileSystem.Read: is about a node that still describes its entry; stale or several nodes of one file are not modelled.
- Fat32Volume.Volume.WriteFile: leaves out the branch at kernel/fs/fat32.c:541-548, which its own loop never reaches.
- Fat32: parsing of the boot sector in fat32_init, directory listing, the second table copy, FSInfo, dates, errors of the device, and writes that go around the cache.
- CacheTheory.EveryRunLru: is stated until the 64-bit stamp counter reaches its maximum; coherence holds beyond it.
- Field25519.Inv25519: states the power computed; that it is the inverse needs Fermat's theorem and the primality of 2^255-19.
- Edwards group law, point compression, key generation, Salsa20, Poly1305, crypto_box.
- SmpScheduler.Scheduler.Exit: is not taken by task 0 or a CPU's idle task, whose loop (kernel/arch/x86_64/smp.c:193-196) and kernel code never call it; block, sleep, stop and exit are steps of a task that is not in the sleep queue, which holds whenever it runs its own code.
- SmpScheduler.Scheduler.constructor: starts after all CPUs came up in order; the choice of a least loaded CPU for a task without a valid target is left out, since targets are always valid then.
- Scheduler: context switching, address spaces, inter-processor interrupts, load figures, wait statuses, the polling loops of waitpid and waitid, and shared address spaces when a slot is reaped.
- Futex: the conversion of timeouts to ticks and faults on user memory; the unlocked first read of the word is an arbitrary value, and the address returned by the allocator an argument.
- FutexRuns.Run: a slot keeps its address space for the whole run, so reuse of a slot by a task in another one is not covered.
- Sha256.Context.Update: requires fewer than 2^32 bytes, the width of its loop counter.
- Sha512.Context.Final: leaves out the transform inside the first padding loop, whose condition cannot hold there.
- ElfLoader.Loader.Load: reads headers as a list and starts from an empty user space; header checks before the loop, PT_DYNAMIC, PT_TLS and needed libraries are not modelled; frames for page tables are not counted.
- WordStrings: memory is made of whole aligned words, so a word read at an aligned address of a string never leaves it; the fallbacks for other machines are left out.
- BoundedFormat.Vsnprintf: widths, precisions and the result are unbounded integers; arguments of the wrong kind, undefined in C, read as zero or the null string.
- BoundedFormat.Output.FormatInt: is never called with both zero padding and left justification, as in the code.
- User interface, shells, network, device drivers, memory managers and the VFS above the driver.
