# Verified models of opuntiaOS core algorithms

This project models nine pieces of opuntiaOS in Dafny 4.11 and proves what they promise. Imperative C becomes
methods over arrays and class fields; each method is proved against a specification function, and the theorems
are lemmas about those functions.

| files | what they model |
|---|---|
| `Arithmetic`, `Machine`, `Bytes`, `Limbs` | nonlinear facts, machine integers, byte strings as numbers, limb sequences as numbers |
| `Uint2048Spec`, `Uint2048` | the boot loader's fixed-width numbers: carries, schoolbook product, long division by binary search, square-and-multiply |
| `Sha256`, `Sha256Facts` | SHA-256 on a whole message (FIPS 180-4, sections 5.1.1 and 6.2) and the streaming context; what its functions and constants are, and the published digest of "abc" |
| `Ext2Lite`, `Validate` | ext2 reads through up to three levels of indirect blocks; the signature check that uses all of the above |
| `LibcMalloc` | malloc, free and realloc of the C library over doubly linked chunk headers in memory |
| `PageTables` | the x86_64 prekernel's three-level page tables over the boot bump allocator |
| `SchedModel`, `Sched` | per-CPU run queues: a step machine on sequences, and the intrusive linked lists that take its steps |
| `Bits`, `Bitmap`, `BlockRanges`, `Kmalloc`, `Pmm` | the word-at-a-time bitmap search and the two allocators on it |
| `DynamicArray`, `Memzone` | the bucket list, and address-space zones with wrapping size arithmetic |
| `RwLock` | the reader/writer spinlock as interleaved atomic steps of any number of threads |
| `Strtol`, `NumberText`, `Qsort` | numerals, integer printing and scanning, sorting |

Modelling choices that matter to a reader:

* C integer widths are written out where they matter: 32-bit limbs and 64-bit carries, the 64-bit bit counter,
  32-bit disk offsets, the 32-bit mask in malloc's rounding, `size_t` sums of zones that wrap around, the `int`
  into which `kmalloc` squeezes a size, 32-bit values in printf and scanf. Elsewhere numbers are unbounded.
* The register width of `Uint2048` is the length of the arrays; the program's is 64 limbs, and `Validate` fixes it.
* Memory that C code reaches by address (chunk headers, page tables, thread links, the words in the kernel heap)
  is a map from addresses, so that links are real addresses and not object references.
* What comes from outside is a parameter: the address `mmap` returns, the disk, the key and the signature bytes,
  the initial contents of RAM descriptors, and the schedule of threads.

## Where the code and the obvious claim part ways

Each of these is stated as a theorem with the exact condition.

* Division is right for every dividend exactly when no product of the divisor with a 32-bit digit is cut
  (`DivRightIffDivisorFits`); dividing by zero ends and leaves the dividend as remainder (`DivByZero`).
* The modular power returns 1, not 0, for modulus 1 and exponent 0, and is right otherwise, for base and modulus of
  half the width (`PowCorrect`). Beyond that: a base is right for all exponents and moduli exactly when it has half
  the width (`PowBaseRightIff`), a modulus for all bases exactly when it has half the width or divides the
  register's size (`PowModulusIff`), and modulus 0 gives the power modulo the register (`PowModulusZero`).
* Big-endian input whose length is not a multiple of four reads its odd bytes from the wrong end
  (`BeReadRightIff`).
* The raw ext2 read moves on by what is left instead of by what it read, which is right exactly for the requests
  named by `GoodSpan` that end within 2^32 bytes (`RawReadRightIff`). Blocks are always such requests. A file read
  that ends beyond 2^32 is cut short (`ReadInode`).
* malloc masks the rounded size to 32 bits, so it covers the request exactly up to 0xFFFFFFFC (`RoundedCovers`). On
  32-bit machines the sum with the header wraps around for 0xFFFFFFED to 0xFFFFFFFC: no pointer returned is to an
  allocation of that size, and from 0xFFFFFFF1 on the heap is broken as well (`Malloc`); malloc(0xFFFFFFF0) and a following malloc(16) return the
  same chunk (`SameTwice`).
* With kernel addresses off a 2 MiB boundary nothing of the kernel is mapped, and all of RAM translates to itself
  exactly when rounding its base down costs no more than rounding its size up gains (`VmSetup`).
* A bitmap search from a position inside an empty word begins at the word, and one from behind the last whole word
  begins right behind that word (`NextRangeRightIff`).
* The kernel heap's bitmap is told its length in bytes as if it were a number of bits: a request is served by an empty
  heap exactly when it fits in an eighth of the heap (`FreshServesIff`), and larger ones never are (`NeverServed`),
  room or not (`RoomUnused`).
* `kmalloc` computes in `int`: the blocks cover the request exactly while the sum stays an `int` (`BlocksCoverIff`); a
  sum that wraps around to no blocks puts the header over the bitmap, which survives exactly when the header is all
  ones (`Kmalloc.Alloc`).
* Marking a region of RAM as used lowers the counter of used blocks, so that it stays in step with the map only for
  an empty region (`MarkUsedDriftIff`), and may leave the last block of the region unmarked (`RegionUsedIff`).
* Aligned physical blocks are aligned addresses exactly when RAM begins at one (`AlignedAddressesIff`).
* A dynamic array made with no capacity never gets any (`DynArray.Push`).
* `memzone_new` makes empty zones for length 0, and a length that rounds to zero makes
  `memzone_new_random_backward` create one above user space unless a zone ends there (`NothingAtEndIff`). An empty zone
  hides the space beside it (`EmptyZoneHidesSpace`): a search is right exactly when the best place touches no empty zone
  (`LowRightIff`, `HighRightIff`).

## Model

| member | source | states |
|---|---|---|
| `Uint2048.Init` | boot/libboot/crypto/uint2048.c:15-23 | the register's number is the word, all higher limbs zero |
| `Uint2048.InitBytes` | boot/libboot/crypto/uint2048.c:25-33 | the register's number is the little-endian value of the bytes; longer input is rejected and changes nothing |
| `Bytes.ByteOf` | boot/libboot/crypto/uint2048.c:35-38 | the byte of a char is congruent to it modulo 256, whatever its sign |
| `Uint2048.InitBytesBe` | boot/libboot/crypto/uint2048.c:40-70 | the register's number is `BeRead` of the bytes; longer input is rejected; the flag tells exactly when a word is stored past the last limb |
| `Uint2048.BeReadRightIff` | boot/libboot/crypto/uint2048.c:46-63 | that number is the big-endian value exactly when the odd bytes at the end, backwards, are the first ones; always for lengths divisible by four |
| `Uint2048.RestWord` | boot/libboot/crypto/uint2048.c:59-63 | the leftover bytes are taken least significant first |
| `Uint2048.Copy` | boot/libboot/crypto/uint2048.c:72-76 | the destination holds the source's limbs |
| `Uint2048.Add` | boot/libboot/crypto/uint2048.c:78-96 | the sum modulo the register, -EOVERFLOW exactly on a lost carry, also when the result register is an operand |
| `Uint2048.Sub` | boot/libboot/crypto/uint2048.c:98-120 | the difference, or zero with -EOVERFLOW exactly on a borrow, also in place |
| `Uint2048.Shl` | boot/libboot/crypto/uint2048.c:122-134 | limbs move up, zeros enter below |
| `Uint2048.ShiftVal` | boot/libboot/crypto/uint2048.c:122-134 | moving limbs is multiplying by a power of the base, kept to the register |
| `Uint2048.MultByDigit` | boot/libboot/crypto/uint2048.c:149-168 | the product with a digit kept to the register, -EOVERFLOW exactly when it does not fit |
| `Uint2048.ProductFits` | boot/libboot/crypto/uint2048.c:156-159 | the 64-bit product with carry never wraps and its high half is a 32-bit carry |
| `Uint2048.Mult` | boot/libboot/crypto/uint2048.c:170-185 | the product modulo the register, through shifted partial products added in place |
| `Uint2048.PartialProduct` | boot/libboot/crypto/uint2048.c:179-181 | adding one cut, shifted partial product to the cut sum gives the cut product of one limb more |
| `Uint2048.Less` | boot/libboot/crypto/uint2048.c:249-260 | limb comparison decides less-than of the numbers |
| `Uint2048.LessEqual` | boot/libboot/crypto/uint2048.c:262-273 | limb comparison decides at-most of the numbers |
| `Uint2048.Equal` | boot/libboot/crypto/uint2048.c:275-283 | equal limbs exactly for equal numbers |
| `Uint2048.IsNotZero` | boot/libboot/crypto/uint2048.c:285-293 | true exactly for numbers other than zero |
| `Uint2048.IsOdd` | boot/libboot/crypto/uint2048.c:295-298 | true exactly for odd numbers |
| `Uint2048.FindDigit` | boot/libboot/crypto/uint2048.c:198-207 | the in-place binary search finds the digit of the specification, for every divisor |
| `Uint2048.BringDown` | boot/libboot/crypto/uint2048.c:196-197 | the one-limb shift of the remainder loses no limb |
| `Uint2048.Div` | boot/libboot/crypto/uint2048.c:187-217 | remainder and optional quotient are those of `DivR` and `DivQ`; a NULL quotient changes nothing else |
| `Uint2048.Pow` | boot/libboot/crypto/uint2048.c:219-247 | the loop ends and computes `PowLoop` for every exponent, with aliased operands allowed |
| `Uint2048.Turn` | boot/libboot/crypto/uint2048.c:233-243 | one turn of the loop, in place on base, exponent and answer |
| `Uint2048.MultReduceInto` | boot/libboot/crypto/uint2048.c:234-240 | multiply, reduce and copy is one step of `PowLoop` |
| `Uint2048.Halve` | boot/libboot/crypto/uint2048.c:242-243 | dividing the exponent by the register holding 2 halves it exactly |
| `Uint2048Spec.SearchFits` | boot/libboot/crypto/uint2048.c:198-213 | whatever the divisor, the digit's cut product never exceeds the remainder, so the subtraction cannot borrow |
| `Uint2048Spec.SearchExact` | boot/libboot/crypto/uint2048.c:198-207 | b*l <= rem < b*r is kept and the digit is the floor of rem / b |
| `Uint2048Spec.RemainderBound` | boot/libboot/crypto/uint2048.c:195-214 | the remainder never outgrows the limbs brought down |
| `Uint2048Spec.DivInvariant` | boot/libboot/crypto/uint2048.c:195-214 | for every divisor a = q*b + r modulo the register |
| `Uint2048Spec.DivExact` | boot/libboot/crypto/uint2048.c:187-217 | with no product cut, a = q*b + r and r < b after every limb |
| `Uint2048Spec.DivMeetsDivision` | boot/libboot/crypto/uint2048.c:187-217 | quotient and remainder are those of integer division |
| `Uint2048Spec.TopLimbZeroFits` | boot/libboot/crypto/uint2048.c:187-217 | a positive divisor with top limb 0 has no product cut |
| `Uint2048Spec.DivByZero` | boot/libboot/crypto/uint2048.c:187-217 | division by zero ends with the dividend as remainder and a quotient of all ones |
| `Uint2048Spec.WideDivisorFails` | boot/libboot/crypto/uint2048.c:199-213 | every divisor whose products may be cut has a dividend with a wrong quotient |
| `Uint2048Spec.DivRightIffDivisorFits` | boot/libboot/crypto/uint2048.c:187-217 | division is right for all dividends exactly when no digit product is cut |
| `Uint2048Spec.MulRemExact` | boot/libboot/crypto/uint2048.c:234-235 | factors below half the width are multiplied without truncation and reduced exactly |
| `Uint2048Spec.PowTurn` | boot/libboot/crypto/uint2048.c:232-244 | one turn keeps ans * a^p modulo the modulus |
| `Uint2048Spec.PowLoopExact` | boot/libboot/crypto/uint2048.c:232-244 | the loop multiplies a^p into the answer, for every exponent |
| `Uint2048Spec.PowCorrect` | boot/libboot/crypto/uint2048.c:219-247 | for base and modulus of half the width the result is base^exp mod modulus exactly unless modulus is 1 and exponent 0 |
| `Uint2048Spec.PowCutAboveBound` | boot/libboot/crypto/uint2048.c:238-240 | with the first base beyond that bound, exponent 2 and modulus 3 the result is 0 instead of 1 |
| `Uint2048Spec.PowBaseRightIff` | boot/libboot/crypto/uint2048.c:219-247 | for a base of any width: right for every exponent and every modulus of half the width exactly when the base has half the width |
| `Uint2048Spec.PowModulusIff` | boot/libboot/crypto/uint2048.c:219-247 | for a modulus that division can handle: right for every reduced base and every exponent exactly when the modulus has half the width or divides the register's size |
| `Uint2048Spec.PowModulusZero` | boot/libboot/crypto/uint2048.c:219-247 | modulus 0 gives the power modulo the register's size |
| `Uint2048Spec.NoticingModulus` | boot/libboot/crypto/uint2048.c:238-240 | whatever is cut off a square, some odd modulus of half the width does not divide it |
| `Sha256.PaddingIsFips` | boot/libboot/crypto/sha256.c:119-144 | a 1 bit, the fewest zero bits up to 448 modulo 512, and the 64-bit length, as section 5.1.1 of FIPS 180-4 asks |
| `Sha256.BeRoundTrip` | boot/libboot/crypto/sha256.c:135-142 | the length bytes read back as the length |
| `Sha256.HoldsMore` | boot/libboot/crypto/sha256.c:100-113 | a byte that does not fill the buffer keeps buffer, state and counter in step with the message |
| `Sha256.HoldsBlock` | boot/libboot/crypto/sha256.c:107-111 | so does the byte that fills it |
| `Sha256.Ctx.constructor` | boot/libboot/crypto/sha256.c:93-98 | a fresh context holds the empty message |
| `Sha256.Ctx.Schedule` | boot/libboot/crypto/sha256.c:50-59 | the message schedule of section 6.2.2 of FIPS 180-4 |
| `Sha256.Ctx.Transform` | boot/libboot/crypto/sha256.c:47-91 | the state becomes the compression of the old state with the buffered block; `Sha256Facts` says what the compression is |
| `Sha256.Ctx.Update` | boot/libboot/crypto/sha256.c:100-113 | the message absorbed grows by exactly the data, however it is split |
| `Sha256.Ctx.FlushTail` | boot/libboot/crypto/sha256.c:121-128 | the long-tail branch compresses the tail, 0x80 and zeros |
| `Sha256.Ctx.LastBlock` | boot/libboot/crypto/sha256.c:130-144 | the last block ends in the length and goes into the state |
| `Sha256.Ctx.Hash` | boot/libboot/crypto/sha256.c:115-157 | the digest of everything absorbed, for all lengths and both padding branches; `Sha256Facts` says what the digest is |
| `Sha256.PaddingShort` | boot/libboot/crypto/sha256.c:119-144 | with fewer than 56 bytes buffered one more block ends the padded message |
| `Sha256.PaddingLong` | boot/libboot/crypto/sha256.c:121-144 | with 56 or more, two more blocks do |
| `Sha256.WriteLength` | boot/libboot/crypto/sha256.c:135-142 | the last eight buffer bytes are the counter, most significant first |
| `Sha256.Output` | boot/libboot/crypto/sha256.c:147-156 | the state's words, each most significant byte first |
| `Sha256Facts.ChChooses` | boot/libboot/crypto/sha256.c:40 | where x has a one Ch has the bit of y, elsewhere that of z |
| `Sha256Facts.MajVotes` | boot/libboot/crypto/sha256.c:41 | where two of the three words agree Maj has their bit |
| `Sha256Facts.SigmaBits` | boot/libboot/crypto/sha256.c:42-45 | the places to which each of the four sums of rotations and shifts takes a single bit |
| `Sha256Facts.InitialWords` | boot/libboot/crypto/sha256.c:32-35 | word i of the initial state is the first 32 bits of the fraction of the square root of prime i |
| `Sha256Facts.RoundConstants` | boot/libboot/crypto/sha256.c:13-30 | constant t is the first 32 bits of the fraction of the cube root of prime t |
| `Sha256Facts.BeWordIsNumber` | boot/libboot/crypto/sha256.c:54 | four bytes make the word with their big-endian value |
| `Sha256Facts.WordBytesAreNumber` | boot/libboot/crypto/sha256.c:147-156 | the four bytes of a word are its big-endian digits and make it up again |
| `Sha256Facts.DigestWords` | boot/libboot/crypto/sha256.c:146-157 | the digest is the eight state words one after the other as big-endian numbers |
| `Sha256Facts.ExampleDigest` | boot/libboot/crypto/sha256.c:47-157 | the digest of "abc" is ba7816bf 8f01cfea 414140de 5dae2223 b00361a3 96177a9c b410ff61 f20015ad, as the examples of FIPS 180-4 publish it, through all 48 expanded words and 64 rounds |
| `Ext2Lite.Reader.ReadRaw` | boot/libboot/fs/ext2_lite.c:27-41 | what the sector loop delivers for every request, right or not, and nothing else of the buffer changes |
| `Ext2Lite.GoodSpanReads` | boot/libboot/fs/ext2_lite.c:27-41 | a request of the good kind delivers exactly the disk bytes asked for |
| `Ext2Lite.RawReadRightIff` | boot/libboot/fs/ext2_lite.c:38-39 | a raw read of any start and length is right on every disk exactly for the good requests that end within 2^32 bytes |
| `Ext2Lite.Reader.ReadBlock` | boot/libboot/fs/ext2_lite.c:167-167 | the shared buffer holds the whole block |
| `Ext2Lite.Reader.Lev0` | boot/libboot/fs/ext2_lite.c:165-170 | entry of an indirect block |
| `Ext2Lite.Reader.Lev1` | boot/libboot/fs/ext2_lite.c:172-182 | entry through two levels, although both use one buffer |
| `Ext2Lite.Reader.Lev2` | boot/libboot/fs/ext2_lite.c:184-195 | entry through three levels |
| `Ext2Lite.Reader.GetBlockOfFile` | boot/libboot/fs/ext2_lite.c:198-210 | the block that holds each block of the file, by `BlockOfIsFileOrder` the one at that place of the file order |
| `Ext2Lite.BlockOfIsFileOrder` | boot/libboot/fs/ext2_lite.c:160-210 | block k of a file is element k of its file order: the twelve direct blocks, then the leaves of the trees of depth 1, 2 and 3 from left to right |
| `Ext2Lite.WordIsLe` | boot/libboot/fs/ext2_lite.c:160-170 | an entry of an indirect block is the little-endian number of its four bytes |
| `Ext2Lite.OffsetOfBlock` | boot/libboot/fs/ext2_lite.c:160-170 | a block lies at its number times the block size, of which only 22 bits of the number survive 32-bit arithmetic |
| `Ext2Lite.Reader.ReadPiece` | boot/libboot/fs/ext2_lite.c:224-229 | one turn of the loop appends the file bytes of one block |
| `Ext2Lite.Reader.ReadInode` | boot/libboot/fs/ext2_lite.c:213-233 | the bytes written are the file bytes asked for, all of them exactly when the request ends within 2^32 bytes, and nothing else of the caller's buffer changes |
| `Validate.CalcElfHash` | boot/libboot/crypto/validate.c:48-76 | the one-shot digest of all loadable bytes, whatever the 4096-byte chunks |
| `Validate.KeyWidth` | boot/libboot/crypto/validate.c:93-106 | 128 bytes are a number of half the register's width |
| `Validate.HashRead` | boot/libboot/crypto/validate.c:100-101 | the 32 hash bytes are read as their big-endian number |
| `Validate.ValidateElf` | boot/libboot/crypto/validate.c:78-111 | accepted exactly when signature^e mod n is the digest of the loadable bytes (RSAVP1, section 5.2.2 of RFC 8017), for signatures of n or more too, which that primitive rejects and the program does not |
| `LibcMalloc.RoundedCovers` | libs/libc/malloc/malloc.c:57-58 | the rounded size covers the request exactly up to 0xFFFFFFFC |
| `LibcMalloc.CanFitMeans` | libs/libc/malloc/malloc.c:41-50 | the fit test, in size_t, is right for every request that does not wrap with its header; one that does passes for any chunk of a few bytes and is then divided |
| `LibcMalloc.ChosenIsFit` | libs/libc/malloc/malloc.c:65-76 | for requests that do not wrap the search finds a chunk exactly when one fits |
| `LibcMalloc.LiveDisjoint` | libs/libc/malloc/malloc.c:52-134 | live allocations, headers and payloads, never overlap |
| `LibcMalloc.BytesConserved` | libs/libc/malloc/malloc.c:52-134 | the headers and payloads of a block's chunks add up to the mapped block |
| `LibcMalloc.SplitKeeps` | libs/libc/malloc/malloc.c:90-103 | cutting a chunk keeps the tiling and both directions of links |
| `LibcMalloc.MergeKeeps` | libs/libc/malloc/malloc.c:126-133 | swallowing a neighbour keeps them too |
| `LibcMalloc.SplitCoalesced` | libs/libc/malloc/malloc.c:90-103 | after a cut still no two neighbours are free |
| `LibcMalloc.Heap.FindFirstFit` | libs/libc/malloc/malloc.c:65-76 | the first chunk in block and chain order that passes the test, or none does, for every request |
| `LibcMalloc.Heap.AllocNewBlock` | libs/libc/malloc/malloc.c:19-39 | a new block of one free chunk that fits; live allocations stay |
| `LibcMalloc.MapLenHolds` | libs/libc/malloc/malloc.c:22-25 | a new block has the default length or just holds the request and its header, which it holds exactly when the sum does not wrap |
| `LibcMalloc.Heap.Take` | libs/libc/malloc/malloc.c:86-105 | the chunk becomes one live allocation of at least the request and less than 32 bytes more |
| `LibcMalloc.Heap.TakeWrapped` | libs/libc/malloc/malloc.c:86-105 | the same statements word by word when the new header falls onto the chunk's own, and exactly when their stores stay on links of chunks: for the greatest sizes the heap is then left as it was, or the chunk claims more than the address space |
| `LibcMalloc.OverstatedUnsound` | libs/libc/malloc/malloc.c:89-98 | a chunk that claims so much fits no description of the heap |
| `LibcMalloc.Heap.Malloc` | libs/libc/malloc/malloc.c:52-106 | exactly one live allocation is added in the first chunk that fits, a block is mapped only when none does, failure changes nothing and comes exactly when no chunk passes and none can be mapped; a pointer is to a live allocation as large as asked exactly when rounded size and header do not wrap, and the heap stays well formed exactly when they do not exceed 2^32 or 2^64 |
| `LibcMalloc.Heap.SameTwice` | libs/libc/malloc/malloc.c:52-106 | on 32 bits malloc(0xFFFFFFF0) returns a pointer, with no block to map, exactly when the first chunk that passes is not the last of its block, and malloc(16) returns the same one next |
| `LibcMalloc.WrappedRequestPasses` | libs/libc/malloc/malloc.c:41-50 | a heap whose free chunk of 16 bytes passes the test for 0xFFFFFFF0 |
| `LibcMalloc.Heap.WalkBack` | libs/libc/malloc/malloc.c:121-123 | the first chunk of the free run is found |
| `LibcMalloc.Heap.Glue` | libs/libc/malloc/malloc.c:126-133 | the free run becomes one chunk; taken chunks stay |
| `LibcMalloc.Heap.Free` | libs/libc/malloc/malloc.c:108-134 | exactly the one live allocation goes, no two neighbours stay free, mapped regions stay |
| `LibcMalloc.Heap.Realloc` | libs/libc/malloc/malloc.c:147-167 | an allocation of that size already is kept; else it succeeds exactly when malloc does, and the new allocation begins with the old bytes as far as both go while every other live one keeps size and bytes; failure changes nothing; of a size beyond the 32-bit mask either the copy fits or it is reported to leave the allocation |
| `LibcMalloc.OutOfTheWay` | libs/libc/malloc/malloc.c:163-163 | copying into a new allocation disturbs no other |
| `PageTables.Palloc.Alloc` | boot/libboot/mem/alloc.c:70-86 | the next address, moved on by the size in 16-byte units |
| `PageTables.Palloc.AllocPage` | boot/libboot/mem/alloc.c:88-94 | the first page boundary behind everything handed out |
| `PageTables.WalkAgrees` | boot/x86_64/prekernel/vm.c:31-66 | in every well-built set of tables the hardware walk gives exactly the intended page of every address |
| `PageTables.MiddleStep` | boot/x86_64/prekernel/vm.c:40-49 | entering a new second-level table keeps the tables well built |
| `PageTables.LeafStep` | boot/x86_64/prekernel/vm.c:52-60 | entering a new bottom table does too |
| `PageTables.PageStep` | boot/x86_64/prekernel/vm.c:62-65 | writing one page entry changes the mapping of that frame alone |
| `PageTables.Vm.NewPtable` | boot/x86_64/prekernel/vm.c:21-29 | a zeroed table in a page of its own |
| `PageTables.Vm.Level3` | boot/x86_64/prekernel/vm.c:40-52 | the second-level table of the window, made when missing, no mapping changed |
| `PageTables.Vm.Level2` | boot/x86_64/prekernel/vm.c:53-62 | the bottom table of the window, made when missing, no mapping changed |
| `PageTables.Vm.Map2mb` | boot/x86_64/prekernel/vm.c:31-66 | the frame leads to the physical address, every other frame where it did; unaligned addresses are ignored |
| `PageTables.Vm.MapPages` | boot/x86_64/prekernel/vm.c:96-101 | consecutive frames lead to consecutive pages |
| `PageTables.Vm.Map1gb` | boot/x86_64/prekernel/vm.c:69-83 | 512 pages, or nothing off a GiB boundary |
| `PageTables.Vm.MapAll` | boot/x86_64/prekernel/vm.c:93-112 | the kernel's run of pages and RAM's, in that order |
| `PageTables.PagesAreIntended` | boot/x86_64/prekernel/vm.c:93-112 | those pages are the intended address map |
| `PageTables.RamAlone` | boot/x86_64/prekernel/vm.c:36-38 | off a 2 MiB boundary nothing of the kernel is mapped and RAM is mapped as intended |
| `PageTables.RamCoveredIff` | boot/x86_64/prekernel/vm.c:104-106 | in the intended map every RAM address leads to itself exactly under this condition on base and size |
| `PageTables.PiecesFit` | boot/x86_64/prekernel/vm.c:95-106 | the number of pages covers the length, and one less would not |
| `PageTables.IntendedLow` | boot/x86_64/prekernel/vm.c:103-111 | with that number an address leads to itself exactly if its GiB begins within RAM |
| `PageTables.IntendedHigh` | boot/x86_64/prekernel/vm.c:94-101 | with that number an address leads to its place in the kernel exactly if its 2 MiB begin within what is to be mapped |
| `PageTables.VmSetup` | boot/x86_64/prekernel/vm.c:85-116 | after setup a walk of the built tables gives: below, each address v in a GiB that begins within RAM, counted from its rounded base, to itself, and no other; above, with aligned kernel addresses, each address in one of the 2 MiB pages that begin within the kernel and its shadow area to v - vaddr + paddr, and no other; all of RAM translates to itself exactly under the condition on its base and size |
| `SchedModel.StepKeepsInv` | kernel/kernel/tasking/sched.c:110-174 | every step keeps each thread in at most one place and the queues already read empty |
| `SchedModel.RunKeepsInv` | kernel/kernel/tasking/sched.c:296-336 | so does every run |
| `SchedModel.TasksStep` | kernel/kernel/tasking/sched.c:140-174 | only a fresh enqueue and a dequeue change the number of enqueued threads |
| `SchedModel.TakeFlatten` | kernel/kernel/tasking/sched.c:317-325 | the thread picked is the first in reading order |
| `SchedModel.PickOrder` | kernel/kernel/tasking/sched.c:296-336 | between swaps, what was picked and then what waits is the master array by priority and list order, minus the dequeued |
| `SchedModel.RoundPicks` | kernel/kernel/tasking/sched.c:305-325 | from swap to swap exactly the threads of the slave queues at the first swap are picked, in order, each once, minus the dequeued |
| `SchedModel.BoundedWaiting` | kernel/kernel/tasking/sched.c:305-325 | no queued thread waits past the second following swap unless it is dequeued |
| `SchedModel.SlaveStays` | kernel/kernel/tasking/sched.c:305-325 | before the swap a thread leaves the slave queues only by being dequeued |
| `SchedModel.DrainedAtSwap` | kernel/kernel/tasking/sched.c:306-315 | buffers are swapped only when the master array is empty |
| `Sched.Sched.constructor` | kernel/kernel/tasking/sched.c:97-102 | empty queues, nothing enqueued |
| `Sched.Sched.AddToStart` | kernel/kernel/tasking/sched.c:118-127 | the links after pushing at the head |
| `Sched.FrontLinks` | kernel/kernel/tasking/sched.c:118-127 | those links spell out the queue with the thread in front, other threads untouched |
| `Sched.Sched.AddToEnd` | kernel/kernel/tasking/sched.c:129-138 | the links after pushing at the tail |
| `Sched.BackLinks` | kernel/kernel/tasking/sched.c:129-138 | those links spell out the queue with the thread at the back |
| `Sched.UnlinkQueue` | kernel/kernel/tasking/sched.c:148-172 | the queue closes over the gap of a thread at any position, heads and tails follow |
| `Sched.Sched.EnqueueImpl` | kernel/kernel/tasking/sched.c:140-144 | one Enqueue step of the machine, lists well formed, counter equal to queued plus running |
| `Sched.Sched.SchedEnqueue` | kernel/kernel/tasking/sched.c:246-265 | an out-of-range priority becomes the last one, then one Enqueue step |
| `Sched.Sched.Requeued` | kernel/kernel/tasking/sched.c:232-240 | one Requeue step for the running thread, counter unchanged |
| `Sched.Sched.DequeueImpl` | kernel/kernel/tasking/sched.c:146-174 | one Dequeue step from any queue of either buffer, any position, or from running |
| `Sched.DequeueQueues` | kernel/kernel/tasking/sched.c:148-172 | the tests of all four ends leave the queues that do not hold the thread alone |
| `Sched.Sched.SwapBuffers` | kernel/kernel/tasking/sched.c:110-116 | one Swap step |
| `Sched.Sched.TakeHead` | kernel/kernel/tasking/sched.c:317-325 | one Take step: the head of the queue, unlinked |
| `Sched.Sched.Unblock` | kernel/kernel/tasking/sched.c:202-220 | every woken thread takes exactly one Enqueue step, in order, with its priority lowered to the last one if beyond it, and then waits in the slave queues; the master array is left alone |
| `Sched.Sched.PickNext` | kernel/kernel/tasking/sched.c:305-325 | the search ends whenever a thread is queued or woken on the way, and takes one thread; it only moves on until the first swap, right before which CPU 0 wakes all threads to be woken, and nobody is woken otherwise |
| `Sched.FindCpuWithLessLoad` | kernel/kernel/tasking/sched.c:176-187 | the first CPU with the fewest tasks |
| `Bits.Ctz` | kernel/include/libkern/platform.h:14-19 | the index of the lowest set bit |
| `Bitmap.FullWord` | kernel/kernel/algo/bitmap.c:49-69 | comparing a word with all ones or zero decides all of its 32 bits |
| `Bitmap.RestZeroes` | kernel/kernel/algo/bitmap.c:86-93 | the trailing zeros of the shifted word are the clear bits up to the next set one |
| `Bitmap.RestOnes` | kernel/kernel/algo/bitmap.c:99-103 | the trailing ones are set bits |
| `Bitmap.ScanBucket` | kernel/kernel/algo/bitmap.c:71-105 | the loop over one mixed word advances the bit-by-bit search over it |
| `Bitmap.ScanTail` | kernel/kernel/algo/bitmap.c:108-124 | the bits behind the last whole word are searched one by one |
| `Bitmap.NextRangeOfUnsetBits` | kernel/kernel/algo/bitmap.c:37-127 | the least start of enough clear bits from where the search begins, failure exactly when there is none, for every word pattern; from the caller's position itself under `SearchGuard` |
| `Bitmap.SearchRightIff` | kernel/kernel/algo/bitmap.c:43-69 | starting early gives the same answers for all requests exactly when the bits looked at too early are set |
| `Bitmap.NextRangeRightIff` | kernel/kernel/algo/bitmap.c:43-69 | the search is right from the caller's position, for all requests, exactly when that is a word boundary, in a word that is not empty, or behind the last word with no clear bit in between |
| `Bitmap.UnalignedSearchFails` | kernel/kernel/algo/bitmap.c:58-69 | from position 1 of an empty map the answer is 0 |
| `Bitmap.FindSpace` | kernel/kernel/algo/bitmap.c:129-142 | the least start of req clear bits, -ENODATA exactly when there is none, -EINVAL without a map |
| `Bitmap.FindSpaceAligned` | kernel/kernel/algo/bitmap.c:144-174 | the least aligned start in the whole-byte prefix, -ENODATA exactly when there is none |
| `Bitmap.Set` | kernel/kernel/algo/bitmap.c:176-191 | exactly that bit becomes set, -EFAULT outside |
| `Bitmap.Unset` | kernel/kernel/algo/bitmap.c:193-208 | exactly that bit becomes clear |
| `Bitmap.SetRange` | kernel/kernel/algo/bitmap.c:210-242 | exactly the bits of the range become set; -EFAULT, without change, exactly when the range leaves the map or ends at 0; a start up to seven bits before the map is tolerated |
| `Bitmap.UnsetRange` | kernel/kernel/algo/bitmap.c:244-276 | the same for clearing |
| `Bitmap.WriteBit` | kernel/kernel/algo/bitmap.c:186-188 | the byte with one bit or-ed in or masked out differs in that bit of the map only |
| `BlockRanges.TrackAlloc` | kernel/kernel/mem/kmalloc.c:73-80 | after setting a clear run, set bits are again reserved ones plus disjoint live ranges |
| `BlockRanges.TrackFree` | kernel/kernel/mem/kmalloc.c:126-136 | after clearing a live range they are too |
| `BlockRanges.CountUpdated` | kernel/kernel/mem/pmm.c:122-149 | turning n equal bits changes the count of set bits by n |
| `BlockRanges.CountReplaced` | kernel/kernel/mem/pmm.c:33-62 | giving a range one value replaces the count of its bits, whatever they were |
| `Kmalloc.BlocksCoverIff` | kernel/kernel/mem/kmalloc.c:69-71 | the block count covers the request exactly while the sum stays an int |
| `Kmalloc.HeaderIsLength` | kernel/kernel/mem/kmalloc.c:69-88 | the stored length is the requested one with its header while that is an int, and else the same number modulo 2^32 extended with its sign |
| `Kmalloc.FreshServesIff` | kernel/kernel/mem/kmalloc.c:42-45 | an empty heap can serve n blocks exactly when they fit in the 16384 bits the map is told, less its own 512 |
| `Kmalloc.NeverServed` | kernel/kernel/mem/kmalloc.c:42-45 | what an empty heap cannot serve no heap can |
| `Kmalloc.RoomUnused` | kernel/kernel/mem/kmalloc.c:42-45 | half a megabyte is refused although the heap has seven times as many blocks |
| `Kmalloc.OverBitmap` | kernel/kernel/mem/kmalloc.c:79-88 | a header stored over the first bytes of the map leaves it intact exactly when all its bits are set |
| `Kmalloc.Kmalloc.constructor` | kernel/kernel/mem/kmalloc.c:39-51 | exactly the bitmap's own 512 blocks are set |
| `Kmalloc.Kmalloc.Alloc` | kernel/kernel/mem/kmalloc.c:60-98 | for every size: a positive number of blocks is the least free run, as large as asked exactly while the sum stays an int; none left or a negative number stops the program; no blocks at all puts the header over the bitmap |
| `Kmalloc.Kmalloc.Serve` | kernel/kernel/mem/kmalloc.c:73-97 | the least run of free blocks becomes a live allocation; bits and headers stay in step; refused exactly when nothing fits |
| `Kmalloc.Kmalloc.StoreHeader` | kernel/kernel/mem/kmalloc.c:88-88 | the eight bytes are the length |
| `Kmalloc.Kmalloc.Free` | kernel/kernel/mem/kmalloc.c:114-138 | the block count recomputed from the header is the allocated one: exactly that allocation goes |
| `Kmalloc.Kmalloc.AllocAligned` | kernel/kernel/mem/kmalloc.c:100-107 | fails exactly when no run of the blocks needed is free, on a fresh heap exactly for more blocks than it has; else the least such run becomes live and the answer is the last aligned address that leaves the room asked for, the stored pointer in front of it inside the run |
| `Kmalloc.Kmalloc.FreeAligned` | kernel/kernel/mem/kmalloc.c:140-148 | the stored pointer still leads to the right allocation, which goes with all aligned pointers into it, and no other |
| `Kmalloc.HeaderStored` | kernel/kernel/mem/kmalloc.c:88-88 | a new header overwrites no word of another live allocation |
| `Kmalloc.PointerStored` | kernel/kernel/mem/kmalloc.c:105-105 | nor does the pointer in front of an aligned one |
| `Pmm.IdRoundTrip` | kernel/kernel/mem/pmm.c:23-31 | block to address to block is the identity |
| `Pmm.PtrRoundTrip` | kernel/kernel/mem/pmm.c:23-31 | address to block to address is the identity exactly for block-aligned addresses |
| `Pmm.SameDrift` | kernel/kernel/mem/pmm.c:129-147 | moving the wrapping counter with the set bits keeps their difference |
| `Pmm.Pmm.TakeBlocks` | kernel/kernel/mem/pmm.c:128-130 | a live range more, used_blocks minus set bits unchanged |
| `Pmm.Pmm.Alloc` | kernel/kernel/mem/pmm.c:151-155 | the lowest free run, NULL exactly when none exists or block 0 of RAM at address 0 is given out |
| `Pmm.Pmm.AllocAligned` | kernel/kernel/mem/pmm.c:157-165 | the lowest run that starts at an aligned block; its address is as far from an aligned one as RAM is |
| `Pmm.Pmm.TakeAligned` | kernel/kernel/mem/pmm.c:133-143 | the same for a number of blocks |
| `Pmm.AlignedAddressesIff` | kernel/kernel/mem/pmm.c:133-143 | aligned blocks are aligned addresses exactly when RAM begins at one |
| `Pmm.Pmm.Free` | kernel/kernel/mem/pmm.c:167-172 | exactly the live range goes, used_blocks minus set bits unchanged |
| `Pmm.LiveAddressesDisjoint` | kernel/kernel/mem/pmm.c:122-172 | live ranges are disjoint ranges of addresses |
| `Pmm.Pmm.MarkUsedRegion` | kernel/kernel/mem/pmm.c:48-62 | exactly the region's blocks are set, or none if it leaves the map, while the counter goes down; every block of a free region ends up set exactly when it lies in the map and its start fits the padding of its length |
| `Pmm.Pmm.MarkAvailRegion` | kernel/kernel/mem/pmm.c:33-46 | exactly the whole blocks are cleared, or none if they leave the map, and the counter goes down; in step exactly when they lay in the map and were all in use |
| `Pmm.MarkedDrift` | kernel/kernel/mem/pmm.c:44-61 | by how much marking any region, in or out of the map, moves the counter away from the map |
| `Pmm.MarkUsedDriftIff` | kernel/kernel/mem/pmm.c:59-59 | marking any region as used keeps the counter in step exactly when it is empty |
| `Pmm.MarkAvailDriftIff` | kernel/kernel/mem/pmm.c:44-45 | marking one as available does exactly when it is empty, or lies in the map and was all in use |
| `Pmm.RegionUsedIff` | kernel/kernel/mem/pmm.c:50-61 | all blocks that meet a free region are set afterwards exactly when the marked ones lie in the map and the start fits the padding of the length |
| `DynamicArray.PlaceStable` | kernel/kernel/algo/dynamic_array.c:15-55 | an index has one slot, and it stays there however many buckets are added |
| `DynamicArray.HeldGrows` | kernel/kernel/algo/dynamic_array.c:115-142 | one more element makes exactly the bucket of its slot hold one more |
| `DynamicArray.DynArray.constructor` | kernel/kernel/algo/dynamic_array.c:79-88 | an empty array of one bucket |
| `DynamicArray.DynArray.FindBucket` | kernel/kernel/algo/dynamic_array.c:15-35 | the bucket and slot of an index, NULL exactly past the capacity |
| `DynamicArray.DynArray.Grow` | kernel/kernel/algo/dynamic_array.c:66-77 | one bucket more of twice the last capacity, or of 8; the elements stay |
| `DynamicArray.DynArray.Push` | kernel/kernel/algo/dynamic_array.c:115-129 | the sequence grows by the element, which is in the slot of its index; buckets stay where they are, and one of twice the last capacity, or of 8, is added exactly when no slot is left; the assertion fails exactly when the last bucket was made without room |
| `DynamicArray.DynArray.NoRoom` | kernel/kernel/algo/dynamic_array.c:66-76 | after a bucket without room all are |
| `DynamicArray.DynArray.Pop` | kernel/kernel/algo/dynamic_array.c:131-142 | the last element goes, or -1 when there is none |
| `DynamicArray.DynArray.Get` | kernel/kernel/algo/dynamic_array.c:103-113 | the slot holds the element; NULL only past the capacity |
| `DynamicArray.DynArray.Store` | kernel/kernel/algo/dynamic_array.c:103-113 | a store through the slot changes that element alone |
| `DynamicArray.DynArray.Clear` | kernel/kernel/algo/dynamic_array.c:144-148 | no elements, no buckets |
| `Memzone.IntersectIff` | kernel/kernel/mem/memzone.c:24-29 | exactly what the wrapping intersection test answers, for empty zones and ranges too |
| `Memzone.IntersectSafe` | kernel/kernel/mem/memzone.c:24-29 | it misses no overlap, empty or not |
| `Memzone.AddableIff` | kernel/kernel/mem/memzone.c:56-71 | the test succeeds exactly when the range fits and touches no empty zone, for all 64-bit starts and lengths |
| `Memzone.WantedCoversIff` | kernel/kernel/mem/memzone.c:114-118 | the rounded zone covers the request exactly when its end does not wrap |
| `Memzone.WantedIsLeast` | kernel/kernel/mem/memzone.c:114-118 | every zone of whole pages that covers the request covers that zone |
| `Memzone.WantedWraps` | kernel/kernel/mem/memzone.c:114-118 | where the rounded length wraps, the zone is empty or one page |
| `Memzone.SlideDown` | kernel/kernel/mem/memzone.c:138-167 | any fit slides down to address 0 or the end of a zone |
| `Memzone.SlideUp` | kernel/kernel/mem/memzone.c:169-199 | any fit slides up to the end of user space or the start of a zone |
| `Memzone.FirstEndIsAnswer` | kernel/kernel/mem/memzone.c:145-166 | the loop over the ends gives the least of them, or address 0, that passes |
| `Memzone.LastStartIsAnswer` | kernel/kernel/mem/memzone.c:176-198 | the loop over the starts gives the greatest place below one, or below the end, that passes |
| `Memzone.LowAnswerIff` | kernel/kernel/mem/memzone.c:138-167 | the forward search answers the lowest fit exactly when that touches no empty zone |
| `Memzone.HighAnswerIff` | kernel/kernel/mem/memzone.c:169-199 | the backward search answers the highest fit exactly when that touches no empty zone |
| `Memzone.LowRightIff` | kernel/kernel/mem/memzone.c:138-167 | the forward answer, NULL included, is right exactly when the lowest fit, if any, touches no empty zone |
| `Memzone.HighRightIff` | kernel/kernel/mem/memzone.c:169-199 | the same for the backward answer |
| `Memzone.NothingAtEndIff` | kernel/kernel/mem/memzone.c:177-181 | an empty zone above user space passes the test exactly when no zone ends there and no empty one lies at 0 |
| `Memzone.HighNothing` | kernel/kernel/mem/memzone.c:176-198 | with no empty zone yet, a backward search for nothing makes one there unless a zone ends there |
| `Memzone.EmptyZoneHidesSpace` | kernel/kernel/mem/memzone.c:145-166 | beside an empty zone the forward search answers NULL although the length fits there |
| `Memzone.AddressSpace.CanAddZone` | kernel/kernel/mem/memzone.c:56-71 | decides the test |
| `Memzone.AddressSpace.New` | kernel/kernel/mem/memzone.c:112-136 | the rounded zone is added exactly when it passes; zones stay page-aligned, in user space and disjoint |
| `Memzone.AddressSpace.NewRandom` | kernel/kernel/mem/memzone.c:138-167 | the lowest address where the length fits exactly when that touches no empty zone; right, NULL included, exactly under that condition; always right while no zone is empty |
| `Memzone.AddressSpace.NewRandomBackward` | kernel/kernel/mem/memzone.c:169-199 | the highest address where the length fits exactly when that touches no empty zone; right, NULL included, exactly under that condition; what happens for a length that rounds to zero |
| `Memzone.AddressSpace.Find` | kernel/kernel/mem/memzone.c:201-221 | the one zone that holds the address, NULL exactly when none does |
| `Memzone.AddressSpace.Free` | kernel/kernel/mem/memzone.c:223-245 | exactly that zone goes, the last takes its place and the others keep theirs; -EALREADY exactly for a stranger |
| `Memzone.Freed` | kernel/kernel/mem/memzone.c:73-78 | swapping with the last and popping removes just the one zone |
| `Memzone.AddressSpace.CopyFrom` | kernel/kernel/mem/memzone.c:247-258 | the zones are appended; an empty space becomes a well-formed copy |
| `RwLock.Safety` | kernel/include/libkern/rwlock.h:32-61 | in every run no ASSERT fails, a writer excludes all other readers and writers, and readers counts the read holders whenever the inner lock is free |
| `RwLock.StepKeepsInv` | kernel/include/libkern/lock.h:32-55 | every atomic step of every thread keeps the lock word, the count and the locals consistent |
| `RwLock.OwnStep` | kernel/include/libkern/rwlock.h:32-61 | what a step does to the thread that takes it |
| `RwLock.OtherStep` | kernel/include/libkern/rwlock.h:32-61 | what it leaves alone for every other thread, the unprotected load and store of readers included |
| `RwLock.FreeCount` | kernel/include/libkern/rwlock.h:32-45 | with the inner lock free the counted threads are the read holders |
| `RwLock.OwnerMoves` | kernel/include/libkern/lock.h:46-50 | the owner of the inner lock is never blocked and nobody else changes lock word or count |
| `RwLock.WriterEntersIff` | kernel/include/libkern/rwlock.h:47-56 | two steps let a waiting writer in exactly when the lock is free and nobody reads |
| `RwLock.InnerLock` | kernel/include/libkern/rwlock.h:32-61 | whoever tries for the inner lock has it after its next step exactly if it is free, and the owner hands it back after at most five steps of its own |
| `RwLock.NothingGivenUp` | kernel/include/libkern/rwlock.h:32-61 | a step of a thread that acquires for reading or writing leads on to having it or back into acquiring, a releasing one to being idle only by the unlock |
| `Numerals.ValueGrows` | libs/libc/stdlib/tools.c:67-96 | a longer digit string stands for no smaller number, so an overflow cannot be undone |
| `Numerals.DigitAlphabet` | libs/libc/stdlib/tools.c:68-76 | the character of each digit of base 36 is the one at its place in the two alphabets |
| `Strtol.SpaceCharacters` | libs/libc/include/ctype.h:27 | the six characters that are skipped in front |
| `Strtol.PlanRight` | libs/libc/stdlib/tools.c:41-62 | sign, prefix and base detection lead to the longest numeral and its value, for every base |
| `Strtol.CutIff` | libs/libc/stdlib/tools.c:64-95 | the cutoff test is exactly that the next value exceeds the limit |
| `Strtol.ReadDigits` | libs/libc/stdlib/tools.c:64-100 | overflow exactly when the whole digit string exceeds the limit, else its value; the end is past the last digit |
| `Strtol.Prefix` | libs/libc/stdlib/tools.c:37-62 | where the digits begin, in which base, and what is accepted so far |
| `Strtol.Strtol` | libs/libc/stdlib/tools.c:24-107 | the signed value of the longest numeral clamped to long, ERANGE exactly when clamped, EINVAL exactly for a bad base, the end pointer past the last character used |
| `NumberText.TextReads` | kernel/kernel/libkern/printf.c:82-100 | what is written reads back as the number, with no leading zero |
| `NumberText.TextOfAlphabet` | kernel/kernel/libkern/printf.c:15-16 | %x writes only lower-case letters and %X only upper-case ones |
| `NumberText.PutDigits` | kernel/kernel/libkern/printf.c:87-98 | the digits come out most significant first |
| `NumberText.FillDigits` | kernel/kernel/libkern/printf.c:87-90 | the buffer holds the digits last first, in at most 11 of its 16 places |
| `NumberText.PrintU32` | kernel/kernel/libkern/printf.c:82-100 | appends the decimal text of the number |
| `NumberText.PrintHex32` | kernel/kernel/libkern/printf.c:18-38 | appends 0x and the hexadecimal text in either alphabet |
| `NumberText.PrintI32` | kernel/kernel/libkern/printf.c:122-129 | sign and magnitude, INT_MIN included |
| `NumberText.ScanU32` | kernel/kernel/libkern/scanf.c:9-21 | all digits are consumed, and the value is theirs modulo 2^32 |
| `NumberText.ScanI32` | kernel/kernel/libkern/scanf.c:23-47 | the signed value wrapped once, or nothing stored without digits |
| `NumberText.PrintScanI32` | kernel/kernel/libkern/scanf.c:23-47 | every 32-bit integer printed is scanned back, whatever non-digit follows |
| `NumberText.PrintScanU32` | kernel/kernel/libkern/scanf.c:9-21 | the same for unsigned |
| `NumberText.PrintStrtolI32` | libs/libc/stdlib/tools.c:24-107 | what the kernel prints in decimal is what strtol means in base 10 |
| `NumberText.PrintStrtolHex` | libs/libc/stdlib/tools.c:48-62 | what it prints in hexadecimal is what strtol means in base 16 and in base 0 |
| `Qsort.Partition` | libs/libc/stdlib/tools.c:128-135 | smaller elements before the pivot, the others behind, nothing lost, nothing outside the range touched |
| `Qsort.Qsortimpl` | libs/libc/stdlib/tools.c:120-139 | the range is sorted and a rearrangement of itself, the rest untouched |
| `Qsort.Qsort` | libs/libc/stdlib/tools.c:141-144 | the array is sorted and a rearrangement of itself |
| `Qsort.Combined` | libs/libc/stdlib/tools.c:137-138 | two sorted sides around the pivot are a sorted range |

## Left out

- Uint2048: `uint2048_shr` and `uint2048_dump`, which nothing modelled here uses.
- Validate.ValidateElf: the ELF header and section lookup is not part of this model; headers, signature and key bytes are parameters, with a 1024-bit modulus above 1 as the shipped key has.
- Ext2Lite: the superblock, group and inode lookup and the directory walk, and block sizes other than 1 KiB; holes are not treated as zeros, as in the source.
- LibcMalloc.Heap.Malloc: the slab allocator in front of it (its chain-building loop does not advance) and calloc; what happens after a store through a stray link.
- LibcMalloc.Heap.Free: is stated for pointers that are NULL or to a chunk of the heap; slab pointers are not part of this model.
- LibcMalloc.Heap.Realloc: what a copy that leaves its allocation overwrites is not modelled, only that there is one.
- PageTables.Palloc.Alloc: the source loops forever when the area is used up; here having room is the precondition.
- PageTables.VmSetup: loading CR3, KASAN's shadow mapping by other code, and the page tables of other architectures.
- Sched.Sched.PickNext: context switching, statistics and the removal of dying threads that CPU 0 does before a swap; which threads are woken is a parameter, for the first swap of a search.
- Sched.Sched.Unblock: the blocker callbacks that decide who is woken, and threads woken on another CPU.
- Sched.Sched.SchedEnqueue: priorities belong to threads here and to processes in the source, so lowering one thread's priority does not touch another's; choosing the CPU is `FindCpuWithLessLoad` on its own.
- Sched.Sched.DequeueImpl: is stated for threads that are queued or running with a valid priority; a queued thread keeps its priority.
- Bitmap.SetRange: accepted calls with a start of -8 or less, which write before the map, and with a negative length, which counts down until it wraps.
- Bitmap.UnsetRange: the same.
- Bitmap.FindSpaceAligned: for a request of zero blocks only what an answer can be is stated.
- Kmalloc.Kmalloc.Alloc: locking, KASAN red zones and page faults on first use are not part of this model.
- Kmalloc.Kmalloc.AllocAligned: is stated for sums that stay an `int`; payload bytes are not modelled, only headers and stored pointers.
- Kmalloc: `krealloc`, which copies the larger of both sizes.
- Pmm.Pmm.Free: is stated for whole live allocations given back with their own size.
- Pmm.Pmm.constructor: starts where setup left off; the order in which boot code marks regions is a parameter.
- DynamicArray.DynArray.Push: the bytes of an element are one value, and kmalloc never returns NULL, as in the source.
- Memzone: `memzone_split`, `_proc_can_fixup_zone` and the fields of a zone other than address and length; zones are a sequence, which `DynamicArray` refines; page size and user space are those of x86_64.
- Memzone.AddressSpace.Free: a zone is named by its index, which stands for its address.
- RwLock.Safety: the reader count is unbounded, so fewer than 2^31 readers are assumed; memory is sequentially consistent; preemption inside the spin loop is only more waiting; fairness and liveness under contention are not claimed.
- Strtol.Strtol: `long` has 64 bits, and characters are a string that ends at its length or at a NUL.
- NumberText: format parsing, widths, 64-bit and string conversions.
- NumberText.PrintI32: the negation of INT_MIN wraps around, which C leaves undefined.
- Qsort.Qsort: elements are values and not byte ranges, and the comparison is a consistent order.
- Device drivers, the VFS, signals, processes, IPC, user interface libraries and applications.
