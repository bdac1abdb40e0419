# Verified models of kernel drivers and protocols

This project models the parts of a small multi-architecture kernel that hold algorithms and protocols,
and proves what they are for: that decryption undoes encryption, that the boot check detects every
burst of damage it can, that a lock excludes on hardware with store buffers, that rings neither lose
nor reorder bytes, that a loader leaves the image the file describes. Each module keeps the shape of
the code it models. Drivers that update their variables are classes whose methods are proved against
specification functions; code that runs on several processors or beside hardware is a state machine
over single memory accesses, and its theorems are about every run.

| module | what it models |
|---|---|
| `GaloisField`, `Fips197` | arithmetic of GF(2^8), and the AES definition of FIPS 197 with the proof that the inverse cipher inverts the cipher |
| `AesDriver` | the AES-NI driver: key expansion, block encryption and decryption on the architectural meaning of the instructions |
| `Sha256Stream` | the streaming SHA-256 context, for an arbitrary block function |
| `Crc32`, `FlashQspi` | the table-driven CRC-32, the NOR flash writer on a device that can only clear bits, and the boot validator |
| `SpinlockTso` | the spinlock on x86-TSO |
| `AtomicWord` | 64-bit loads and stores made from compare-exchange |
| `Mailbox` | the inter-core ring buffer, sender and receiver interleaved |
| `EnetTx` | the Ethernet transmit ring shared with the hardware |
| `HwTransactional` | retry and fallback around hardware transactions that may abort |
| `ElfLoader` | the ELF loader on a flat 32-bit memory |
| `Madt`, `IoApicDriver` | the table walkers, and the I/O APIC driver with its copy of the redirection tables |
| `Mtrr` | variable-range memory type registers: mask arithmetic and the driver's copy |
| `WifiElements`, `WifiAp` | information elements, the scan parser, the beacon, and the access point's station table |
| `MachineTypes` | types the modules share |

Findings about the code, each stated exactly in the project:

- The boot checksum does not cover the entry point. Damage inside a 32-bit window that leaves the size
  field alone goes unnoticed exactly when it only touches the entry point (`FlashQspi.DamageDetected`).
  32 bits is the limit: the 33-bit generator pattern is missed everywhere (`Crc32.Burst33Missed`).
  A damaged size field passes exactly when the bytes gained or lost change the checksum register just as
  the checksum field changed (`FlashQspi.HeaderDamageIff`), and that happens (`FlashQspi.DamageAccepted`).
- Programming reads back as the data exactly when no bit has to be set (`FlashQspi.ReadsBackIff`), which is
  why the sectors must be erased first.
- The memory type mask has no bits above bit 31, so every programmed range repeats at each 4 GiB
  (`Mtrr.CoverageRepeats`); below 4 GiB it is exact.
- A delivery mode above 7 spills into other fields of a redirection entry, and up to 7 it never does
  (`IoApicDriver.DeliveryModeIsolated`).
- Initialization accepts a table with two I/O APICs at one address and leaves the copy right. After that,
  every possible call keeps the copy right exactly when no I/O APIC that owns an interrupt shares its
  address with another (`IoApicDriver.CallsKeepCopyIff`); `IoApicDriver.SharedAddressDiverges` is a table
  and a call that break it. Overlapping interrupt ranges do no harm.
- A network name longer than 32 bytes is cut by the scanner but recorded with its full length
  (`WifiElements.BeaconNameReadBack`), and the scanner takes probe responses only, so it never takes the
  access point's beacon itself (`WifiElements.ScanFindsAccessPoint`).
- The transactional runtime divides by a count that can be zero: by the fallback count when it has wrapped,
  or when a missing transaction function did not raise it, and by the commit count when that has wrapped
  (`HwTransactional.Runtime.ExecuteWithFallback` says exactly when, `HwTransactional.CanTrapIff` what a caller
  can tell before the call; `HwTransactional.TrapsWithoutTransaction`, `HwTransactional.TrapsOnWrap` and
  `HwTransactional.TrapsOnCommit` are calls that do).
- The ELF loader steps through program headers 32 bytes at a time and never reads `e_phentsize`, which is
  right exactly when the file gives 32 or has at most one header (`ElfLoader.HeadersReadIff`,
  `ElfLoader.WideHeadersMissed`). It reads the header again on every turn, which makes no difference as
  long as no segment is placed over the file (`ElfLoader.LoopIsFold`).
- A table record of length zero that a walk reaches keeps it from ever ending, and nothing else does
  (`Madt.WalkEndsIff`, `Madt.ZeroLengthNeverEnds`).
- A send leaves the mailbox with its bytes behind the earlier ones exactly when the free space was enough
  (`Mailbox.SendFitsIff`); the driver leaves that check to its callers.
- With the largest retry limit there is no limit: the loop ends exactly when some attempt is not retried
  (`HwTransactional.EndsIff`, `HwTransactional.RetriedForever`).

## Model

| member | source | states |
|---|---|---|
| GaloisField.XTimeReduces | src/drivers/hwcrypto.c:117-180 | doubling is multiplication by x modulo the AES polynomial |
| GaloisField.TimesIsMul | src/drivers/hwcrypto.c:256-308 | the chains of doublings for 3, 9, 11, 13 and 14 are products in GF(2^8) |
| GaloisField.SquareIsProduct | src/drivers/hwcrypto.c:210-308 | the squaring map behind the S-box is multiplication of a byte by itself |
| GaloisField.InverseIsInverse | src/drivers/hwcrypto.c:210-308 | the power a^254 behind the S-box is the multiplicative inverse of every non-zero byte and inverts itself |
| GaloisField.SubByteInverse | src/drivers/hwcrypto.c:210-308 | the S-box and the inverse S-box undo each other on every byte, in both orders |
| GaloisField.AffineBits | src/drivers/hwcrypto.c:210-308 | each bit of the S-box is the sum of five bits of the inverse and a bit of 0x63, as section 5.1.1 of FIPS 197 says |
| GaloisField.InvMixCoefficients | src/drivers/hwcrypto.c:256-308 | the coefficients of InvMixColumns times those of MixColumns give the identity |
| Fips197.MixColumnsInverse | src/drivers/hwcrypto.c:210-308 | MixColumns and InvMixColumns undo each other on every block, in both orders |
| Fips197.InvMixColumnsLinear | src/drivers/hwcrypto.c:256-308 | InvMixColumns distributes over adding a round key, which is what lets aesimc be applied to the key instead |
| Fips197.SubBytesInverse | src/drivers/hwcrypto.c:210-308 | SubBytes and InvSubBytes undo each other on every block |
| Fips197.ShiftRowsInverse | src/drivers/hwcrypto.c:210-308 | ShiftRows and InvShiftRows undo each other on every block |
| Fips197.ShiftSubCommute | src/drivers/hwcrypto.c:210-308 | shifting rows and substituting bytes commute, forwards and inverse |
| Fips197.StepBytes | src/drivers/hwcrypto.c:210-254 | on byte (r, c) of the state: SubBytes substitutes it, ShiftRows takes it from r columns further on, AddRoundKey adds the key's byte |
| Fips197.MixColumnsBytes | src/drivers/hwcrypto.c:210-254 | each byte of a mixed column is twice its own row's byte, three times the next row's, and the other two |
| Fips197.KeyWordBytes | src/drivers/hwcrypto.c:117-180 | the recurrence of section 5.2 of FIPS 197 said byte by byte, with the place each substituted byte comes from |
| Fips197.ExampleSchedule | src/drivers/hwcrypto.c:117-180 | the first and the last computed word for the example key of appendix A.1 of FIPS 197 |
| Fips197.InvRoundsUndoRounds | src/drivers/hwcrypto.c:210-308 | round by round, n inverse rounds cancel the last n of ten encryption rounds |
| Fips197.EqInvCipherIsInvCipher | src/drivers/hwcrypto.c:256-308 | the equivalent inverse cipher of section 5.3.5 of FIPS 197 on the transformed round keys is the inverse cipher of section 5.3, for every block and schedule |
| Fips197.InvCipherUndoesCipher | src/drivers/hwcrypto.c:210-308 | for every schedule of round keys and every block, the inverse cipher undoes the cipher |
| Fips197.RoundsRedoInvRounds | src/drivers/hwcrypto.c:210-308 | round by round, n encryption rounds cancel the inverse rounds that remain |
| Fips197.CipherUndoesInvCipher | src/drivers/hwcrypto.c:210-308 | the other order: encrypting a decryption gives the block back, so both are bijections |
| AesDriver.RconTable | src/drivers/hwcrypto.c:18-20 | the ten round constants are repeated doublings of 1 in GF(2^8) |
| AesDriver.KeyExpandAssist | src/drivers/hwcrypto.c:163-173 | three shifted exclusive ors and the broadcast word compute the chained sums of the next round key |
| AesDriver.PrefixXor | src/drivers/hwcrypto.c:163-173 | the shift-and-xor trick equals the word-by-word chain, for every register value |
| AesDriver.AssistIsRecurrence | src/drivers/hwcrypto.c:117-180 | one assist step advances the recurrence of section 5.2 of FIPS 197 by four words |
| AesDriver.ExpandRound | src/drivers/hwcrypto.c:122-166 | after round r the first 4r + 4 words are those of the recurrence |
| AesDriver.MemoryLayout | src/drivers/hwcrypto.c:215-245 | byte r + 4c in memory is byte (r, c) of the state, when loading and when storing |
| AesDriver.AesKeyExpand128 | src/drivers/hwcrypto.c:117-180 | for every key the expansion stores exactly the 44 words of the recurrence: the bytes of the key, and then each byte as the sum of the bytes the standard names, with the constants of the source |
| AesDriver.AesEncIsRound | src/drivers/hwcrypto.c:218-239 | aesenc and aesenclast are the middle and last rounds of section 5.1 of FIPS 197, in its order of steps |
| AesDriver.AesDecIsInvRound | src/drivers/hwcrypto.c:256-308 | aesdec with an aesimc key is one round of the inverse cipher of section 5.3 of FIPS 197 |
| AesDriver.AesContext.Init | src/drivers/hwcrypto.c:182-208 | succeeds exactly for 128-bit keys with AES-NI present, leaves the key schedule of the key, and zero-fills the stored key; failures leave the schedule alone |
| AesDriver.AesContext.EncryptBlock | src/drivers/hwcrypto.c:210-254 | the sixteen output bytes are the cipher of the input under the context's round keys; nothing beyond them changes |
| AesDriver.AesContext.DecryptBlock | src/drivers/hwcrypto.c:256-308 | the sixteen output bytes are the inverse cipher of the input under the context's round keys, and so the equivalent inverse cipher under the transformed ones; nothing beyond them changes |
| AesDriver.EncryptThenDecrypt | src/drivers/hwcrypto.c:210-308 | through memory, and also in place, decrypting what was encrypted restores the block |
| Sha256Stream.ZeroCount | src/drivers/hwcrypto.c:513-535 | the zero bytes bring the message to 56 modulo 64 with fewer than a block of them |
| Sha256Stream.PaddedInjective | src/drivers/hwcrypto.c:513-541 | padding is unambiguous: different messages below the length limit never pad to the same blocks |
| Sha256Stream.BigEndianRoundTrip | src/drivers/hwcrypto.c:537-541 | the length bytes read back as the length |
| Sha256Stream.HashBytesReadBack | src/drivers/hwcrypto.c:549-555 | every four digest bytes read back, most significant first, as their word of the hash value |
| Sha256Stream.InitialHashIsRoots | src/drivers/hwcrypto.c:417-434 | the initial words are the first 32 fraction bits of the square roots of the first eight primes |
| Sha256Stream.FoldAppend | src/drivers/hwcrypto.c:471-508 | folding the block function over a concatenation is folding over its parts in turn |
| Sha256Stream.TracksBlock | src/drivers/hwcrypto.c:490-499 | processing a full buffer moves its block into the hash value without changing the message both stand for |
| Sha256Stream.Sha256Context.Init | src/drivers/hwcrypto.c:417-434 | the context stands for the empty message |
| Sha256Stream.Sha256Context.Update | src/drivers/hwcrypto.c:471-508 | the message grows by exactly the bytes given and less than a block stays buffered; it fails exactly when a block fills up without SHA extensions |
| Sha256Stream.Sha256Context.Pad | src/drivers/hwcrypto.c:513-535 | the buffer is filled to 56 bytes with 0x80 and the zeros of section 5.1.1 of FIPS 180-4, through a further block if needed |
| Sha256Stream.Sha256Context.PutBitLength | src/drivers/hwcrypto.c:537-541 | the last eight bytes are the 64-bit big-endian bit length |
| Sha256Stream.Sha256Context.PutHash | src/drivers/hwcrypto.c:549-555 | the array holds eight numbers of four bytes, most significant first, that are the words of the hash value |
| Sha256Stream.Sha256Context.Final | src/drivers/hwcrypto.c:510-560 | the digest is the fold of the block function over the padded message, and its bytes read back as the words of that fold |
| Sha256Stream.BitLength | src/drivers/hwcrypto.c:538-541 | a byte counter that wraps at 2^64 still gives the right bit length modulo 2^64 |
| Sha256Stream.Oneshot | src/drivers/hwcrypto.c:562-570 | one call gives the digest of the data |
| Sha256Stream.HashInPieces | src/drivers/hwcrypto.c:417-560 | any split into update calls gives the digest of the whole message |
| Crc32.StepLinear | arch/rp2040/flash_qspi.c:255-262 | one register step is linear over exclusive or |
| Crc32.StepInjective | arch/rp2040/flash_qspi.c:255-262 | one register step loses nothing |
| Crc32.FeedInjective | arch/rp2040/flash_qspi.c:267-275 | feeding the same bits into different registers leaves them different |
| Crc32.FeedIsSteps | arch/rp2040/flash_qspi.c:267-275 | up to 32 bits can be added to the register first and stepped through afterwards |
| Crc32.TableStep | arch/rp2040/flash_qspi.c:267-275 | one table look-up does the work of eight single-bit steps, for every register and byte |
| Crc32.CrcEngine.GenerateTable | arch/rp2040/flash_qspi.c:252-265 | the table holds eight steps of every byte |
| Crc32.CrcEngine.Calc | arch/rp2040/flash_qspi.c:267-275 | the table-driven checksum equals the bit-at-a-time division, for every byte sequence |
| Crc32.BurstDetected | arch/rp2040/flash_qspi.c:267-290 | messages that differ only within 32 consecutive bits have different checksums |
| Crc32.FeedLinear | arch/rp2040/flash_qspi.c:267-275 | the checksum of a difference is the difference of the checksums |
| Crc32.SameCrcIffDivides | arch/rp2040/flash_qspi.c:267-275 | two messages of one length collide exactly when their difference is some polynomial times the generator |
| Crc32.ProductRemainder | arch/rp2040/flash_qspi.c:267-275 | every multiple of the generator leaves no remainder |
| Crc32.Quotient | arch/rp2040/flash_qspi.c:267-275 | a message without remainder has a quotient: long division finds it |
| Crc32.ReachesIffDivides | arch/rp2040/flash_qspi.c:267-275 | a message takes the register from one value to another exactly when the generator divides the sum of the message followed by the new value and of the old value moved in front of as many zeros |
| Crc32.CrcChange | arch/rp2040/flash_qspi.c:267-275 | appended bytes change a checksum exactly as they change the register |
| Crc32.Burst33Missed | arch/rp2040/flash_qspi.c:267-290 | a difference that is the 33-bit generator, anywhere, is never detected |
| FlashQspi.NoWrap | arch/rp2040/flash_qspi.c:186-222 | a chunk that stays in its page is programmed where it was meant to go, on a device that wraps inside pages |
| FlashQspi.ProgrammedInSteps | arch/rp2040/flash_qspi.c:210-222 | programming two adjacent stretches is programming both at once |
| FlashQspi.ReadsBackIff | arch/rp2040/flash_qspi.c:160-222 | what was programmed reads back as the data exactly when no bit of it had to be set |
| FlashQspi.RangeErasedAt | arch/rp2040/flash_qspi.c:168-184 | erasing sector by sector sets exactly the sectors under the range to ones |
| FlashQspi.EraseWriteRead | arch/rp2040/demo_tasks.c:160-176 | erase, write, read returns the data and leaves every byte outside the erased sectors |
| FlashQspi.Flash.EraseWriteReadBack | arch/rp2040/demo_tasks.c:160-176 | the driver's own calls in sequence: erasing every sector under the range, writing and reading back gives the data and leaves every byte outside those sectors |
| FlashQspi.Flash.Read | arch/rp2040/flash_qspi.c:160-166 | the bytes at the address, and no other byte of the caller's buffer |
| FlashQspi.Flash.PageProgram | arch/rp2040/flash_qspi.c:186-208 | at most 256 bytes arrive, each and-ed into its own cell of the page, the address wrapping inside the page; no other cell changes |
| FlashQspi.PageWraps | arch/rp2040/flash_qspi.c:186-208 | byte k of a command goes k cells on inside the 256-byte page, past its end to its start; other pages keep their cells |
| FlashQspi.ProgramBits | arch/rp2040/flash_qspi.c:186-208 | a bit is set after programming exactly if it was set and is set in the data |
| FlashQspi.Flash.Write | arch/rp2040/flash_qspi.c:210-222 | splitting at page boundaries programs every byte at its own address, and terminates |
| FlashQspi.DamagedCrc | arch/rp2040/flash_qspi.c:267-290 | different images that agree outside 32 consecutive bits have different checksums |
| FlashQspi.DamageDetected | arch/rp2040/flash_qspi.c:277-290 | an accepted image damaged inside a 32-bit window of header and image, size field apart, is accepted exactly when only the entry point changed |
| FlashQspi.HeaderDamageIff | arch/rp2040/flash_qspi.c:277-290 | an accepted image with any damage to its header stays accepted exactly when the magic is intact, the size within the limit, and the checksum field changed just as the bytes gained or lost change the checksum register |
| FlashQspi.SizeDamageIff | arch/rp2040/flash_qspi.c:277-290 | with damage to the size field alone, exactly when the size is within the limit and the generator divides the polynomial that the bytes gained or lost form with the checksum register |
| FlashQspi.WindowDamageIff | arch/rp2040/flash_qspi.c:277-290 | for any damage inside a 32-bit window of header and image, the size field included, exactly which damaged images are accepted |
| FlashQspi.DamageAccepted | arch/rp2040/flash_qspi.c:277-290 | an accepted image that is still accepted with another size, and with another entry point |
| FlashQspi.Flash.BootValidate | arch/rp2040/flash_qspi.c:277-290 | accepts exactly when magic, size limit and checksum hold, and changes no flash byte |
| SpinlockTso.StepInv | src/drivers/atomic.c:288-315 | every step of every CPU keeps the invariant: one holder or one pending release, lock word to match, buffers that hide nothing |
| SpinlockTso.MutualExclusion | src/drivers/atomic.c:288-315 | over every run of any number of CPUs at most one is in the critical section |
| SpinlockTso.HolderReadsLastWrite | src/drivers/atomic.c:288-315 | inside the critical section a load returns the last value stored by any holder, even while the earlier release was still in a store buffer |
| SpinlockTso.LatestIsLastWrite | src/drivers/atomic.c:288-315 | the recorded last value is the one of the last store in execution order |
| SpinlockTso.HeldLockLooksTaken | src/drivers/atomic.c:296-319 | while the lock is held every CPU reads the lock word as taken |
| SpinlockTso.ReleasedLockIsFree | src/drivers/atomic.c:312-315 | with no holder and empty buffers the lock word is zero again |
| SpinlockTso.CallsEnd | src/drivers/atomic.c:288-315 | over every run, from a CPU's own events: it is outside exactly if it made no call, released the lock since its latest call, or that was a try_acquire that failed; it is in the lock exactly if its compare-exchange found the word free and it has not released; it spins exactly if its latest call is an acquire that last saw the word taken |
| SpinlockTso.SpinningTakesFreeLock | src/drivers/atomic.c:288-301 | a CPU spinning on a word that has become zero reads zero, tries again and takes the lock |
| SpinlockTso.CodeCanGoOn | src/drivers/atomic.c:288-315 | with its buffer drained a CPU can take the next step of the lock code from every phase, so the theorems are about every schedule |
| SpinlockTso.HandOverHappens | src/drivers/atomic.c:288-315 | a run in which one CPU stores under the lock and releases while another spins, which then takes the lock and reads the value |
| AtomicWord.Cell.Load | src/drivers/atomic.c:94-107 | reads the word and leaves it as it was: by comparing with zero and storing zero, or plainly where the instruction is missing |
| AtomicWord.Cell.CompareExchange | src/drivers/atomic.c:152-171 | on the whole 64-bit word: succeeds exactly on a match, stores exactly then, reports what was there; without the instruction it fails and changes nothing |
| AtomicWord.Halves | src/drivers/atomic.c:155-169 | splitting into halves and joining undo each other |
| AtomicWord.StaleMoved | src/drivers/atomic.c:114-123 | how the number of CPUs with an outdated expectation changes when one CPU moves |
| AtomicWord.StepKeeps | src/drivers/atomic.c:114-123 | every step of every storing CPU keeps the accounting of successes and failures |
| AtomicWord.EachCallStoresOnce | src/drivers/atomic.c:114-123 | in every interleaving the values each CPU stored are exactly those of the calls made on it, in order and once each, without the call in progress |
| AtomicWord.StoresOverWhatItLoaded | src/drivers/atomic.c:114-123 | in every interleaving a compare-exchange stores exactly when the word is the one the CPU's own last load saw, and fails otherwise |
| AtomicWord.LoadsReadTheLastStore | src/drivers/atomic.c:94-123 | in every interleaving the word, and so what a load reads, is the value stored last |
| AtomicWord.FailuresArePaidFor | src/drivers/atomic.c:114-123 | in every interleaving of n CPUs each successful store lets at most n - 1 attempts fail, so some call always gets through |
| Mailbox.UsedAndFree | arch/stm32h/ipc_mailbox.c:25-31 | in wrapping 32-bit arithmetic used and free add up to 255, and the head is where the content ends |
| Mailbox.StepKeeps | arch/stm32h/ipc_mailbox.c:33-54 | every single memory access of either side keeps the invariant |
| Mailbox.StreamPreserved | arch/stm32h/ipc_mailbox.c:33-54 | in every interleaving the received bytes are a prefix of the sent ones and delivered plus ring content is exactly what was sent |
| Mailbox.SenderWritesOutsideContent | arch/stm32h/ipc_mailbox.c:33-41 | the sender never writes a slot that holds an unread byte |
| Mailbox.MailboxRing.FreeSpace | arch/stm32h/ipc_mailbox.c:25-27 | what the content leaves of 255 |
| Mailbox.MailboxRing.UsedSpace | arch/stm32h/ipc_mailbox.c:29-31 | the number of bytes sent and not yet delivered |
| Mailbox.SendFitsIff | arch/stm32h/ipc_mailbox.c:33-41 | a send of any length leaves the content followed by its bytes exactly when the free space was enough |
| Mailbox.MailboxRing.Send | arch/stm32h/ipc_mailbox.c:33-41 | for any length, the ring with the bytes copied in and the head moved; if the free space was enough, by steps of the interleaved model, the bytes go behind the content, whatever the receiver is in the middle of |
| Mailbox.MailboxRing.Recv | arch/stm32h/ipc_mailbox.c:43-54 | by steps of the interleaved model, returns the oldest bytes, as many as there are and fit, and leaves the rest |
| EnetTx.StepKeeps | arch/rt1170/enet.c:83-94 | every step of sender and hardware keeps the invariant of the ring |
| EnetTx.FramesInOrder | arch/rt1170/enet.c:87-94 | in every interleaving the frames on the wire are the first packets submitted, whole and in call order |
| EnetTx.NoWriteWhileOwned | arch/rt1170/enet.c:87-94 | no buffer byte is written while the hardware owns the descriptor |
| EnetTx.OwnedSlotsAreARun | arch/rt1170/enet.c:83-94 | the owned slots are one cyclic run that ends where the next packet goes |
| EnetTx.BlockedByFirst | arch/rt1170/enet.c:89 | a caller waits only when the hardware owns all 32 descriptors, and for the frame it is sending |
| EnetTx.EnetRing.constructor | arch/rt1170/enet.c:57-72 | after initialization the driver owns every descriptor |
| EnetTx.EnetRing.HardwareStep | arch/rt1170/enet.c:83-85 | the hardware sends one more byte of its frame or hands its descriptor back |
| EnetTx.EnetRing.WaitForSlot | arch/rt1170/enet.c:89 | the wait ends if the hardware keeps stepping |
| EnetTx.EnetRing.CopyPacket | arch/rt1170/enet.c:90 | the packet is copied by steps of the interleaved model |
| EnetTx.DescriptorBits | arch/rt1170/enet.c:84-91 | ownership is bit 15 of the word and the length is below it |
| EnetTx.EnetRing.Tx | arch/rt1170/enet.c:87-94 | the packet is handed over behind all earlier ones: copied to its buffer, the descriptor 0x8000 plus its length, and the index moved on by one of 32 |
| HwTransactional.Runtime.Begin | src/drivers/hw_transactional.c:98-132 | started, aborted with its code, or unsupported, with attempts and nesting counted accordingly |
| HwTransactional.Runtime.End | src/drivers/hw_transactional.c:134-147 | leaving the outermost level counts one commit; without transactions or outside of one nothing changes; it traps exactly when the 32-bit count wraps |
| HwTransactional.Runtime.Execute | src/drivers/hw_transactional.c:175-207 | against every sequence of aborts, the operation takes effect exactly when an attempt that is made commits, and then once; at most retries + 1 attempts below the largest limit; the counters are 32 bits wide |
| HwTransactional.Runtime.ExecuteWithFallback | src/drivers/hw_transactional.c:209-227 | exactly one of transaction and fallback takes effect, exactly once; at most retries + 1 attempts, and at most nine without retry hints; it divides by zero exactly when it falls back with the fallback count at 2^32 - 1 and a transaction function, or at 0 and none, or commits with the commit count at 2^32 - 1 |
| HwTransactional.TrapsWithoutTransaction | src/drivers/hw_transactional.c:209-227 | the first call of a fresh runtime with a fallback and no transaction function divides by zero |
| HwTransactional.TrapsOnWrap | src/drivers/hw_transactional.c:205-222 | with both functions given, the fallback that wraps the count divides by zero |
| HwTransactional.TrapsOnCommit | src/drivers/hw_transactional.c:134-147 | on hardware that always commits, the commit that wraps its count divides by zero |
| HwTransactional.CanTrapIff | src/drivers/hw_transactional.c:209-227 | what a caller can check beforehand: some hardware makes the call divide by zero exactly when a counter has the value that wraps and its function is given, or when the fallback is given without a transaction and its count is zero |
| HwTransactional.EndsIff | src/drivers/hw_transactional.c:179-203 | the retry loop, with its 32-bit counter, ends exactly when the limit is below 2^32 - 1 or some attempt is not retried |
| HwTransactional.RetriedForever | src/drivers/hw_transactional.c:179-203 | hardware for which it never ends |
| HwTransactional.NoCommitAfterLast | src/drivers/hw_transactional.c:175-207 | after the last attempt no later commit is reachable |
| HwTransactional.AtMostNine | src/drivers/hw_transactional.c:410-427 | without retry hints the ninth attempt is the last |
| HwTransactional.RetriedIff | src/drivers/hw_transactional.c:410-427 | an attempt is retried exactly if it aborts with a code worth more retries than were made, by the bits of the code: explicit 0, retry hint unlimited, conflict 8, capacity or debug 0, otherwise 3 |
| HwTransactional.LastAttemptAgainst | src/drivers/hw_transactional.c:175-207 | against hardware that always aborts with one code, the number of the last attempt, for every code and limit |
| HwTransactional.ExecuteAgainst | src/drivers/hw_transactional.c:175-207 | the driver makes exactly so many attempts and then reports failure |
| HwTransactional.BoundsAreTight | src/drivers/hw_transactional.c:410-427 | both bounds are reached |
| ElfLoader.Machine.Memcpy | src/kernel/elf.c:10-15 | byte by byte in ascending order, overlapping or not |
| ElfLoader.Machine.Memset | src/kernel/elf.c:60-64 | the range is filled and nothing else changes |
| ElfLoader.Machine.Load | src/kernel/elf.c:23-58 | accepts exactly ARM executables, returns their entry, and leaves the memory of the loop over the program headers, re-read each turn; a refused file changes nothing |
| ElfLoader.CopiedAt | src/kernel/elf.c:10-15 | a copy from a disjoint source puts each byte in its place |
| ElfLoader.LoadIsImage | src/kernel/elf.c:40-52 | for every well-placed file, overlapping segments included, each byte is the one the last covering segment specifies |
| ElfLoader.LoopIsFold | src/kernel/elf.c:40-52 | reading the headers again on every turn changes nothing when no segment covers the file |
| ElfLoader.LoadResult | src/kernel/elf.c:23-58 | after a load every byte of memory is the specified one |
| ElfLoader.DisjointImage | src/kernel/elf.c:40-52 | for disjoint segments: file bytes, then zeros to the memory size, and no other byte changed |
| ElfLoader.HeadersReadIff | src/kernel/elf.c:38-41 | every program header is read from where the file says it is exactly when the file gives their size as 32 or has at most one |
| ElfLoader.FileHeaderReadsBack | src/kernel/elf.c:23-40 | the loader reads back the fields of every file header laid out by the standard, and accepts exactly the ELF magic with type 2 and machine 40 |
| ElfLoader.ProgramHeaderReadsBack | src/kernel/elf.c:40-50 | the loader reads back every program header laid out by the standard |
| ElfLoader.WideHeadersMissed | src/kernel/elf.c:38-52 | an accepted file with 40-byte headers whose segment the load leaves out |
| Madt.WalkEndsIff | src/drivers/acpi.c:325-332 | on arbitrary bytes the walk comes to the end of the table exactly when no record it reaches before the end has length zero |
| Madt.ZeroLengthNeverEnds | src/drivers/acpi.c:325-332 | a table whose record of length zero holds the walker forever |
| Madt.EnumerateIoApics | src/drivers/acpi.c:319-333 | wherever the walk ends, even with a last record that overruns the table, it reports exactly the I/O APIC records, in order |
| Madt.EnumerateOverrides | src/drivers/acpi.c:335-349 | likewise for interrupt source overrides |
| Madt.CountCpus | src/drivers/acpi.c:214-225 | the number of enabled processors, in an 8-bit counter |
| Madt.RecordsReadBack | src/drivers/acpi.c:319-333 | over any records laid out one after the other the walk ends and reports the I/O APICs among them |
| Madt.TableReadsBack | src/drivers/acpi.c:192-349 | over the bytes of any table built from processor, I/O APIC, override and other records, the walks report exactly these records, field by field, and the processors whose lowest flag is set |
| Madt.FirstOfAll | src/drivers/ioapic.c:98-114 | a walk that stops at a number of I/O APICs ends wherever the whole walk does, with the first of what that reports |
| IoApicDriver.Detected | src/drivers/ioapic.c:81-127 | between one and eight controllers are found, whatever the table |
| IoApicDriver.DetectedAreFirstEight | src/drivers/ioapic.c:81-127 | exactly the first eight I/O APICs that the enumeration of the table reports, and the default one exactly when it reports none |
| IoApicDriver.IoApicInfo.DetectControllers | src/drivers/ioapic.c:81-127 | records those controllers, for every table on which its loop ends, and the default one without a table |
| IoApicDriver.IoApicInfo.InitializeController | src/drivers/ioapic.c:129-146 | every pin is masked with its default vector, in the registers and in the copy, and no other register changes |
| IoApicDriver.IoApicInfo.Init | src/drivers/ioapic.c:148-159 | every pin of every detected controller is masked, in the registers and in the copy, also where controllers share an address; an interrupt is routed exactly if it is in the range that a detected base and the pin count in the version register there give |
| IoApicDriver.MeaningInjective | src/drivers/ioapic.c:17-35 | an entry is determined by its fields |
| IoApicDriver.DeliveryMeaning | src/drivers/ioapic.c:300 | what the delivery mode update does to each field, for every mode of eight bits |
| IoApicDriver.DeliveryModeIsolated | src/drivers/ioapic.c:287-304 | the update leaves the other fields of every entry alone exactly when the mode is at most 7 |
| IoApicDriver.IrqMeaning | src/drivers/ioapic.c:213-227 | the fields of the entry built for an interrupt |
| IoApicDriver.MaskedMeaning | src/drivers/ioapic.c:233-269 | masking and unmasking change the mask field only |
| IoApicDriver.DestinationModeMeaning | src/drivers/ioapic.c:306-327 | the destination mode update changes that field only |
| IoApicDriver.EntryRegisters | src/drivers/ioapic.c:71-79 | pin p is registers 0x10 + 2p and 0x11 + 2p, low word first, for reading and writing |
| IoApicDriver.EntryCountIs | src/drivers/ioapic.c:129-135 | bits 16 to 23 of the version register plus one |
| IoApicDriver.FitsWhen | src/drivers/ioapic.c:129-135 | every controller whose version register says up to 24 pins meets what initialization requires |
| IoApicDriver.Locate | src/drivers/ioapic.c:189-201 | the first controller that owns the interrupt, with the 32-bit end of its range |
| IoApicDriver.OwnedPin | src/drivers/ioapic.c:189-201 | the pin of an owner is one of its entries, even where its range would wrap |
| IoApicDriver.OwnsExactly | src/drivers/ioapic.c:189-201 | a controller owns exactly the interrupts from its base on, as many as it has pins, and none if its range passes 2^32 |
| IoApicDriver.LocateExactly | src/drivers/ioapic.c:189-201 | the search finds the first controller whose range the interrupt is in |
| IoApicDriver.StoreKeepsShadowsIff | src/drivers/ioapic.c:76-79 | writing an entry to registers and copy keeps all copies right exactly when every other controller at the same address already holds it |
| IoApicDriver.EveryStoreKeepsIff | src/drivers/ioapic.c:76-79 | whatever is written to a pin, the copies stay right, exactly when no other controller at that address has the pin |
| IoApicDriver.CallsKeepCopyIff | src/drivers/ioapic.c:203-327 | from a right copy every possible call leaves a right copy exactly when no controller that owns an interrupt shares its address |
| IoApicDriver.SharedAddressDiverges | src/drivers/ioapic.c:81-340 | an accepted table with two controllers at one address, and one call after which the driver reports another vector than the hardware delivers |
| IoApicDriver.StoreRoutes | src/drivers/ioapic.c:203-231 | it changes the routing of the one interrupt and of no other |
| IoApicDriver.IoApicInfo.FindControllerForGsi | src/drivers/ioapic.c:189-201 | the loop finds the first controller whose range the interrupt is in, and its pin, and reports none exactly if there is none |
| IoApicDriver.IoApicInfo.SetIrq | src/drivers/ioapic.c:203-231 | this interrupt is re-routed as asked and unmasked, in the registers and in its owner's copy; with controllers at addresses of their own nothing else changes and copy and registers stay equal |
| IoApicDriver.IoApicInfo.MaskIrq | src/drivers/ioapic.c:233-250 | the mask bit of this interrupt is set, in the registers and in its owner's copy; with controllers at addresses of their own nothing else changes and copy and registers stay equal |
| IoApicDriver.IoApicInfo.UnmaskIrq | src/drivers/ioapic.c:252-269 | the mask bit of this interrupt is cleared, in the registers and in its owner's copy; with controllers at addresses of their own nothing else changes and copy and registers stay equal |
| IoApicDriver.IoApicInfo.SetDeliveryMode | src/drivers/ioapic.c:287-304 | this interrupt's entry changes as stated by the fields, in the registers and in its owner's copy; with controllers at addresses of their own nothing else changes and copy and registers stay equal |
| IoApicDriver.IoApicInfo.SetDestinationMode | src/drivers/ioapic.c:306-327 | the destination mode of this interrupt changes, in the registers and in its owner's copy; with controllers at addresses of their own nothing else changes and copy and registers stay equal |
| IoApicDriver.IoApicInfo.IsIrqMasked | src/drivers/ioapic.c:271-285 | the mask bit of the hardware, and masked when nothing owns the interrupt |
| IoApicDriver.IoApicInfo.GetVector | src/drivers/ioapic.c:329-340 | the vector of the copy; where the copy is right, the vector the hardware uses |
| IoApicDriver.IoApicInfo.GetDestination | src/drivers/ioapic.c:342-353 | the destination of the copy; where the copy is right, the one the hardware uses |
| IoApicDriver.IoApicInfo.SetupLegacyIrqs | src/drivers/ioapic.c:364-378 | the ten legacy interrupts end up unmasked with vector 0x20 + number where they are owned, all others as they were |
| IoApicDriver.RouteAfterCalls | src/drivers/ioapic.c:203-327 | after any calls on any interrupts, each group of fields comes from the last call that sets it for that interrupt |
| IoApicDriver.IoApicInfo.Serve | src/drivers/ioapic.c:203-327 | any sequence of the five public calls routes every interrupt as the fold of the requests says, and keeps copy and registers equal |
| IoApicDriver.InitAndServe | src/drivers/ioapic.c:148-327 | from initialization on, after any calls with delivery modes of at most 7, every owned interrupt is routed by the last calls for it and no other is routed |
| Mtrr.MaskPages | src/drivers/cache.c:206-234 | for every power-of-two size of at least a page the programmed mask has ones exactly from the size bit up to bit 31 |
| Mtrr.CoverageExact | src/drivers/cache.c:206-234 | an address matches the programmed pair exactly when its low 32 bits lie in the range |
| Mtrr.CoverageBelow4G | src/drivers/cache.c:206-234 | below 4 GiB an address matches exactly when it lies in the range |
| Mtrr.CoverageRepeats | src/drivers/cache.c:206-234 | above 4 GiB the range matches again |
| Mtrr.MtrrDriver.Init | src/drivers/cache.c:125-142 | the copy agrees with the registers, whatever the firmware left in them |
| Mtrr.MtrrDriver.Setup | src/drivers/cache.c:206-234 | writes disable, pair, restore in that order; default type restored, other pairs untouched, copy and registers agree |
| Mtrr.MtrrDriver.Clear | src/drivers/cache.c:236-256 | likewise for clearing a pair; the copy loses its valid flag |
| Mtrr.DisabledBits | src/drivers/cache.c:206-256 | the default-type value written first has bit 11 clear and every other bit as it was |
| Mtrr.MtrrDriver.Get | src/drivers/cache.c:315-333 | valid exactly when bit 11 of the mask register is set, and then the register's range and type |
| WifiElements.VisitedSerialized | arch/esp32s3/wifi_sta.c:101-127 | on any serialized list the parser visits exactly that list, in order |
| WifiElements.VisitedIsPrefix | arch/esp32s3/wifi_sta.c:101-127 | on arbitrary bytes what is visited is the serialization of a prefix, and the rest holds no whole element |
| WifiElements.CopySsid | arch/esp32s3/wifi_sta.c:112-116 | at most 32 bytes are copied over the field, the rest of it is kept |
| WifiElements.ParseElements | arch/esp32s3/wifi_sta.c:101-127 | the loop terminates inside the frame and applies the visited elements in order |
| WifiElements.LastWordCounts | arch/esp32s3/wifi_sta.c:101-127 | of any elements the last network name and the last security element decide: RSN gives 2, the vendor element 00 50 F2 gives 1; nothing else in the result changes |
| WifiElements.Scanner.ProcessFrame | arch/esp32s3/wifi_sta.c:83-130 | a probe response adds one result at the next free place, up to sixteen; other frames change nothing |
| WifiElements.BeaconVisited | arch/esp32s3/wifi_ap.c:80-111 | the beacon's elements are read back as built |
| WifiElements.BeaconNameReadBack | arch/esp32s3/wifi_ap.c:80-111 | the name is read back for every name of up to 32 bytes, and longer ones are recorded with a length beyond what is stored |
| WifiElements.ScanFindsAccessPoint | arch/esp32s3/wifi_sta.c:83-130 | the contents sent as a probe response give a result with the name, address and channel; the beacon itself is skipped |
| WifiAp.StepKeeps | arch/esp32s3/wifi_ap.c:116-272 | every received frame keeps the invariant of table and responses |
| WifiAp.TableSound | arch/esp32s3/wifi_ap.c:116-272 | after any frames: occupied slots are a prefix of the count's length, addresses distinct, numbers slot + 1, and each association answered once, after authentication |
| WifiAp.StepLater | arch/esp32s3/wifi_ap.c:148-251 | one frame raises a slot's state by at most one |
| WifiAp.RunLater | arch/esp32s3/wifi_ap.c:148-251 | over any frames states never go down, slots keep their stations, answers stay |
| WifiAp.RequestFields | arch/esp32s3/wifi_ap.c:148-272 | which frames are requests, by the bytes of type, algorithm and transaction |
| WifiAp.AnsweredIff | arch/esp32s3/wifi_ap.c:148-272 | after any frames, an authentication request is answered exactly if its sender was answered before or a slot is free, an association request exactly if its sender was authenticated and not yet associated, with the number of its slot; nothing else is answered |
| WifiAp.AuthFrameFields | arch/esp32s3/wifi_ap.c:165-200 | the answer's destination, source, BSSID, algorithm 0, transaction 2 and status 0 at their places |
| WifiAp.AssocFrameFields | arch/esp32s3/wifi_ap.c:215-250 | the answer's addresses, capabilities, status and association number with its two top bits |
| WifiAp.AccessPoint.Init | arch/esp32s3/wifi_ap.c:25-42 | an empty table, and the name cut to 32 bytes |
| WifiAp.AccessPoint.FindStation | arch/esp32s3/wifi_ap.c:116-130 | the first active slot with the address, if any |
| WifiAp.AccessPoint.AddStation | arch/esp32s3/wifi_ap.c:132-146 | the first free slot gets the station with number slot + 1; a full table is left alone |
| WifiAp.AccessPoint.HandleAuth | arch/esp32s3/wifi_ap.c:148-201 | one step of the table, and the answer sent exactly when the step gives one |
| WifiAp.AccessPoint.HandleAssoc | arch/esp32s3/wifi_ap.c:203-251 | likewise for association |
| WifiAp.AccessPoint.ProcessFrame | arch/esp32s3/wifi_ap.c:253-272 | every frame, of any length and type, is one step of the table |
| WifiAp.AccessPoint.SendBeacon | arch/esp32s3/wifi_ap.c:44-114 | the frame is header and serialized elements, within the 128-byte buffer |

## Left out

- Register access that carries no algorithm: port I/O, delays, interrupt enabling, PHY and clock setup, chip select and write-enable sequencing of the flash, XIP switching, chip erase, `flash_boot_jump`.
- Statistics and cycle counters of the crypto driver, and null pointer checks at its entries: arrays here are never null.
- AES with 192- and 256-bit keys, which the driver refuses, and random numbers and carry-less multiplication in the same file.
- Each AES instruction is its architectural definition as a function on sixteen bytes; machine registers and alignment are not modelled.
- The body of the SHA-256 block function: the source says it is a shortened round sequence, so it is a parameter and no digest is claimed to be that of the standard.
- Sha256Stream.Sha256Context.Final: requires a buffer that is not full, which only a failed update without SHA extensions leaves behind.
- FlashQspi.Flash.Write: requires the range to be on the device; addresses that wrap at 24 bits are not modelled.
- FlashQspi.DamageDetected: leaves the size field out; `FlashQspi.WindowDamageIff` does not.
- FlashQspi.Flash.BootValidate: requires header and image to be on the device, as the source reads them without a check.
- SpinlockTso.MutualExclusion: only CPUs that hold the lock release it; fairness, the owner and recursion fields (which the code never uses) and the pause and monitor instructions are not modelled.
- AtomicWord.Cell.Load: among several CPUs the plain 64-bit access of a machine without cmpxchg8b, which the source itself calls possibly not atomic, is not modelled, nor are the other read-modify-write helpers.
- Mailbox.StreamPreserved: every send fits the free space seen when it starts; what a send does that does not fit is stated for `Mailbox.MailboxRing.Send` only. Interrupt triggers, and the order in which senders obtain their lock, are not modelled.
- Memory ordering between the cores in the mailbox and between CPU and hardware in the Ethernet ring: steps take effect in program order.
- EnetTx.EnetRing.Tx: packets of at most 1536 bytes, the size of the buffers, which the source does not check; the receive path is left out because its length field includes the ready bit.
- HwTransactional.Runtime.Execute: requires that the loop ends, and no running transaction around the call. The XBEGIN encoding, the backoff delay, cycle counts and abort statistics are not modelled; an aborted attempt has its effects undone by the hardware. Lock elision is left out.
- ElfLoader.LoadIsImage: files with segments placed over themselves or wrapping at 4 GiB are covered by `ElfLoader.Machine.Load` only. Serial output is left out.
- Madt.EnumerateIoApics: requires a walk that ends, and twelve readable bytes behind the table; addresses do not wrap. Table search, checksums and the rest of ACPI are left out.
- IoApicDriver.IoApicInfo.Init: requires one to 24 pins per controller, which is what the driver's tables hold. Select and window registers are one indexed access, and the read-only status bits behave like storage. Plain getters of the controller list and the legacy PIC are left out.
- Mtrr.MtrrDriver.Init: requires at most 16 variable ranges, the size of the copy. Fixed ranges, the page attribute table, and cache flushing are left out.
- WifiAp.AccessPoint.ProcessFrame: deauthentication is not handled by the source; timestamps and radio transmission are left out, as are connecting as a station and the security stand-ins.
- Interrupt routing registers, feature detection drivers, scheduler, message queues and transports: detection flags, getters and headers only.
