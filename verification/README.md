# Verified model of the TikuOS Ambiq port and its numeric kernels

TikuOS runs on Ambiq parts with a small set of drivers that hold real algorithms: a kernel tick that is credited
from a wrapping counter, a BLE UART host on top of a framed byte stream, nested atomic sections, a durable mirror in
MRAM, a core frequency switch that must keep voltage ahead of frequency, an eMMC driver, a trust-store generator, and a
few numeric kernels. This project models them in Dafny and proves what they are for. The hardware is a second party
that may do anything its rules allow: counters only move forward, a controller holds packets and acknowledges each at
most once, a card follows its transition table, interrupts come wherever they are enabled.

Most components come in two layers. A value layer has a state datatype, a step function and lemmas over every run; it
is where the protocol properties are stated. A class layer has the source's statics and buffers, changed in place by
methods with the source's branches; each method says which steps of the value layer it took, so that the theorems about
runs are theorems about the code. Where the source is made of expressions, the model is functions and lemmas.

| file | component |
|---|---|
| `Words.dfy` | machine words, little-endian words in bytes |
| `Stimer.dfy` | kernel tick and tickless idle (`arch/ambiq/tiku_htimer_arch.c`; `tiku_htimer_apollo4l.c` has the same accounting, less the counting check) |
| `BleStream.dfy` | reassembly of HCI packets from radio frames |
| `BleHost.dfy` | the host's flow control and notification queue beside the controller |
| `BleCredits.dfy` | when a connection falls silent for good, and short descriptor writes |
| `BleUart.dfy` | the host as code over its buffers and over `tiku_em9305_send`/`_recv` |
| `Atomic.dfy` | nested atomic sections against interrupts |
| `Crc.dfy`, `CrcBytes.dfy` | CRC-32: table, chunks, detection |
| `NvmMirror.dfy`, `NvmDamage.dfy` | durable mirror (`arch/ambiq/tiku_mem_arch.c`; `tiku_mem_apollo4l.c` restores and flushes the same way) |
| `CpuFreq.dfy` | LP/HP voltage and frequency sequencing |
| `EmmcCard.dfy`, `EmmcXfer.dfy`, `EmmcStage.dfy` | eMMC: card states, chunks and deadlines, extent staging |
| `Der.dfy`, `TrustStore.dfy`, `TrustPack.dfy` | trust-store generator: DER walk, table, packed file |
| `Rle.dfy` | one-bit run-length coding of icons |
| `RoundRect.dfy` | integer square root, rounded rectangles and circles |
| `Simd.dfy` | vector kernels against their scalar twins |

## Where the code and its documentation differ

The model follows the code. Each difference is a proved statement: the exact condition and, where that alone does not
show that it happens, an input or a run that does.

- **Tick.** Accounting points less than 2^32 counts apart are not enough for an exact clock: what must stay under 2^32
  is each gap plus the part of a tick outstanding at its start (`Stimer.RunExactIffShortGaps`). For every period but 1
  there is a run of the driver with shorter gaps that loses a turn (`Stimer.ShortGapCanLose`), and a lost turn is never
  recovered. A compare-B handler may run with nothing to credit: outside a stretch one can run next if and only if a
  compare write came too late to cancel the match before it and the next boundary is still ahead
  (`Stimer.IdleHandlerCanRunIff`), which an ordinary tickless end brings about (`Stimer.TicklessEndLeavesIdleRun`).
- **Stream.** The length computed modulo 2^16 makes packets above 560 bytes undeliverable in three ways; the one of
  65536 bytes stops the stream without clearing it (`BleStream.LongPacketIsNotDelivered`).
- **Credits.** Responses are sent without regard to credits. A response the controller had no buffer for costs its credit
  for the connection. With no disconnect on the way the host can still come to notify exactly while fewer
  are lost than there are buffers (`BleCredits.CanNotifyIff`, `BleHost.LostCreditsSilence`), with one on the way exactly
  if a credit is there before it (`BleCredits.EndingCanNotifyIff`), and requests alone can lose them all
  (`BleCredits.SilenceIsReachable`).
- **Disconnect.** Handling one clears the stream buffer, which cuts a partly read packet in two: the next
  connection is in step if and only if the buffer ended on a packet boundary (`BleHost.DisconnectRealigns`), and one
  frame can end anywhere in the packet behind a disconnect (`BleCredits.FrameBehindDisconnect`).
- **CCCD.** What a write of the configuration descriptor leaves is the value written if and only if the request carries
  both its bytes; missing ones come from the packet before (`BleCredits.CccdWriteIff`). A data byte and then a write
  without a value can switch notifications on (`BleCredits.DataByteSubscribes`).
- **Mirror.** The dirty check skips the checksum word, so a flush that returns 0 is durable exactly when it programmed or
  the stored checksum was right (`NvmMirror.FlushDurableIff`, and over runs `NvmMirror.RunFlushDurableIff`). After a
  program that failed between image and header the retry returns 0 and every boot starts from zeros
  (`NvmMirror.RetryAfterTornProgramLoses`, for any change within four bytes `NvmDamage.SmallChangeIsLost`). The
  bench's guard looks at the running build only: a waiting image is safe from it exactly when the bench refuses or that
  image, too, ends below the upper half (`NvmMirror.BenchSparesIff`).
- **Frequency.** A refused request stays in LP, but not always "at LP voltages": while the buck stays down, VDDF stays at
  the state-7 trim. The voltage is kept whenever, before the call, the buck is active, the plan is refused, or that trim
  is the LP one or the one in place; in every other state where the trims load, a buck that stays down takes it off
  (`CpuFreq.Core.RequestHp`, and `CpuFreq.Core.RequestLp` where the build wants the buck in LP too). A part with such
  trims: `CpuFreq.PartIsUsable`, `CpuFreq.Core.RefusedOffLp`.
- **eMMC.** Initialising again while the card is up, on a host without power while it sleeps, or on one that gets stuck
  behind its own reset, which takes the bus power away, leaves the driver believing the card awake, and letting transfers
  through that it cannot take (`EmmcCard.Emmc.Make`, `EmmcCard.Emmc.ReinitOnDeadHost`). The range check adds in 32 bits, and is exact only where that does not wrap to a
  block on the card (`EmmcCard.RangeCheckExactIff`).
- **Trust store.** A certificate with a supported key is not always dropped when its subject cannot be found: when its
  bytes run out under the walk, an IndexError that `parse_pem` does not catch ends the run (`Der.IndexErrorIff`,
  `TrustStore.ParsePem`, `TrustStore.RsaStumpIsStarved`). Of a certificate as issued, cut short, these are the cuts
  before the contents of its signature; one cut later is packed like a whole root (`TrustStore.CutRootEndsRun`).
  `find_subject_dn` walks a SET where `verify` wants a SEQUENCE (`TrustStore.BuiltIsCleanIff`): a root that is one is
  packed and not clean (`TrustStore.SetRootIsPackedUnclean`, `TrustStore.SetRootExists`). `unpack` checks neither
  the gap before the table nor its bytes (`TrustPack.RepackIff`): any four-byte gap is accepted (`TrustPack.GapIsAccepted`).
- **Circles.** `tiku_gpu_fill_circle` takes any 16-bit radius; the square overflows 32 bits above 46340
  (`RoundRect.RadiusBound`).
- **Inner product.** It is exact up to 66051 elements, one more than documented, and not beyond (`Simd.DotExactIff`).

## Model

| member | source | states |
|---|---|---|
| Stimer.RunExactIffFresh | arch/ambiq/tiku_htimer_arch.c:151-159 | Over every legal run of compare-A and compare-B interrupts, tickless begins and ends and one-shots, of any length and across any number of 32-bit wraps, the ticks credited at every accounting point are floor((true count - start) / period) if and only if no accounting point is a whole counter turn after the last accounted boundary |
| Stimer.FreshIffGap | arch/ambiq/tiku_htimer_arch.c:48-55 | That condition in terms of an earlier exact point: the gap plus the part of a tick then outstanding is under 2^32 |
| Stimer.RunExactIffShortGaps | arch/ambiq/tiku_htimer_arch.c:151-159 | The same in the times of the events alone: over every run from an exact clock, the clock is exact at all accounting points if and only if each gap between consecutive ones plus the part of a tick outstanding at its start is under 2^32 |
| Stimer.ShortGapCanLose | arch/ambiq/tiku_htimer_arch.c:151-159 | For every period from 2 on, a legal run from a started clock whose two accounting points are 2^32 - 1 counts apart and that loses a turn |
| Stimer.LostTurnIsNeverRecovered | arch/ambiq/tiku_htimer_arch.c:151-159 | From a clock a whole turn behind, no run makes the clock exact again |
| Stimer.RunValidAndSpaced | arch/ambiq/tiku_htimer_arch.c:115-139 | Over every run all invariants hold (anchor, count, compare-B aimed no earlier than its boundary) and every compare write, on either register, falls two or more counts after the one before it, unless its spacing loop gave up with the counter still within one count of the last read-back |
| Stimer.CompareBReachesGoal | arch/ambiq/tiku_htimer_arch.c:300-305 | With the flag clear at the last write, the compare-B handler brings the clock at least to the tick it was aimed at: one more after a re-arm, k more after a stretch of k |
| Stimer.StaleFlagCreditsNothing | arch/ambiq/tiku_htimer_arch.c:300-305 | A handler run before the next boundary credits nothing, and can only come from a flag left over or within a stretch |
| Stimer.IdleHandlerRuns | arch/ambiq/tiku_htimer_arch.c:300-305 | Over every run from a clear flag: a compare-B handler credits nothing if and only if less than a period, modulo 2^32, has passed since the last boundary, and outside a stretch, within a turn, only after an earlier compare write of the run came too late, with no handler between |
| Stimer.IdleHandlerCanRunIff | arch/ambiq/tiku_htimer_arch.c:300-305 | At the end of every run from a clear flag, out of a stretch: a handler that credits nothing, within a turn, can run next if and only if such a late write is left over and the next boundary is still ahead |
| Stimer.TicklessEndLeavesIdleRun | arch/ambiq/tiku_htimer_arch.c:487-494 | For every period from 8 to 2^32 - 5, a legal run from a started clock (a stretch of one tick, its end four counts after the match, the compare-B handler) whose handler credits nothing |
| Stimer.LongStretchFiresEarly | arch/ambiq/tiku_htimer_arch.c:451-478 | A stretch whose span is 2^32 or more, written without delay, matches before the boundary asked for |
| Stimer.AdjustedReaches | arch/ambiq/tiku_htimer_arch.c:206-236 | The adjusted one-shot delta matches no more than the three counts of latency before the target |
| Stimer.DeltaHits | arch/ambiq/tiku_htimer_arch.c:206-236 | The 16-bit difference leads from any true count to one that ends in the 16-bit target (one later when it is the current count) |
| Stimer.Timer.StimerCounter | arch/ambiq/tiku_htimer_arch.c:83-88 | With at most one of three reads caught in a ripple, and no count between the first two when it is the third, the vote returns the low word of the counter at some time within the call |
| Stimer.Timer.StimerArm | arch/ambiq/tiku_htimer_arch.c:115-139 | The compare matches max(delta, 1) counts after its write; the write comes after a poll that passed the previous write, or after a million polls; the read back is the new s_last_cmpr |
| Stimer.Timer.TickStart | arch/ambiq/tiku_htimer_arch.c:274-291 | Establishes every invariant with no tick credited; a period of 0 becomes 1; the rate is 32768 over the period, at least 1 |
| Stimer.Timer.TickAccount | arch/ambiq/tiku_htimer_arch.c:151-159 | The quotient in 32-bit arithmetic credits the kernel clock and moves the anchor exactly as the step function, which counts one period at a time |
| Stimer.Timer.RearmBoundary | arch/ambiq/tiku_htimer_arch.c:168-172 | Compare-B is aimed at the boundary after the anchor, as the step function says |
| Stimer.Timer.Cmpr0Isr | arch/ambiq/tiku_htimer_arch.c:257-263 | Takes one legal compare-A step and keeps every invariant |
| Stimer.Timer.Cmpr1Isr | arch/ambiq/tiku_htimer_arch.c:300-305 | Takes one legal compare-B step and keeps every invariant |
| Stimer.Timer.TicklessBegin | arch/ambiq/tiku_htimer_arch.c:451-478 | Either takes one legal stretch step, having seen the counter move, or refuses, having looked four million times in vain, and leaves the tick alone |
| Stimer.Timer.TicklessEnd | arch/ambiq/tiku_htimer_arch.c:487-494 | Takes one legal end step; nothing when no stretch is open |
| Stimer.Timer.Schedule | arch/ambiq/tiku_htimer_arch.c:206-236 | Compare-A's match is at most three counts before the first count after the call that ends in the target, later only by the counts between last poll and write or when the target is too near; the tick's invariants survive |
| BleStream.ExtractFirst | arch/ambiq/tiku_ble_uart.c:261-308 | Wherever the byte stream is cut, an extraction gives the first undelivered packet, cut to the caller's buffer, exactly when all of it is buffered, and else changes nothing |
| BleStream.LongPacketIsNotDelivered | arch/ambiq/tiku_ble_uart.c:284-294 | The 560-byte bound is exact: what happens to every longer packet, with the wrap of the length |
| BleStream.ReassemblyIgnoresFraming | arch/ambiq/tiku_ble_uart.c:236-308 | Under every schedule of packets, frames and extractions the packets come out in order, and the buffer with the radio holds exactly the bytes of the others |
| BleStream.NeverWedges | arch/ambiq/tiku_ble_uart.c:236-308 | A full buffer, or one with all the radio has, yields the next packet at once |
| BleStream.EverythingArrives | arch/ambiq/tiku_ble_uart.c:236-308 | From every reachable state some schedule delivers every packet produced |
| BleHost.RunKeepsInv | arch/ambiq/tiku_ble_uart.c:945-985 | Over every run of both parties: packets in flight = held + acknowledgements on the way + lost; bytes accepted since the last drop = notified + queued; every notification finds a controller buffer free and fits MTU, ACL length and LL payload |
| BleHost.StepKeepsInv | arch/ambiq/tiku_ble_uart.c:745-886 | Every single step of either party keeps that invariant |
| BleHost.NotificationHasBuffer | arch/ambiq/tiku_ble_uart.c:956-958 | A notification is only handed over while the controller holds fewer packets than it has buffers, although responses are ungated |
| BleHost.NotificationFits | arch/ambiq/tiku_ble_uart.c:962-975 | A notification fits the MTU, the ACL length and the LL payload, is never cut by the send routine, and carries the whole queue or at least 20 bytes |
| BleHost.SubscribedBytesInOrder | arch/ambiq/tiku_ble_uart.c:945-1002 | While the central stays subscribed, what was notified and then the queue is what was queued and then every byte putc stored, in order |
| BleHost.LostCreditsSilence | arch/ambiq/tiku_ble_uart.c:517-548 | Once as many packets are lost as the controller has buffers, no run on the connection hands over another notification |
| BleCredits.SilenceIsReachable | arch/ambiq/tiku_ble_uart.c:517-548 | From the state after the start, for any number of buffers, a legal run of requests gets there |
| BleCredits.CanNotifyIff | arch/ambiq/tiku_ble_uart.c:945-985 | On a connection with no disconnect on the way, whatever else is pending, owed or queued, some legal run brings the host to notify if and only if fewer packets were lost than there are buffers |
| BleCredits.EndingCanNotifyIff | arch/ambiq/tiku_ble_uart.c:945-985 | With a disconnect at any place among the pending packets: if and only if at some point before it, by the packets received up to there alone, the central is subscribed and a credit is there |
| BleCredits.CccdWriteIff | arch/ambiq/tiku_ble_uart.c:702-730 | What a write leaves in the descriptor is the same for every content of the packet buffer, and then the value written, if and only if the request has at least five bytes |
| BleCredits.DataByteSubscribes | arch/ambiq/tiku_ble_uart.c:702-730 | A write command of one odd data byte and then a descriptor write without a value: a legal run that switches notifications on |
| BleHost.CreditsComeBack | arch/ambiq/tiku_ble_uart.c:753-766 | With everything received and nothing held, only lost packets are still counted in flight |
| BleHost.DisconnectRealigns | arch/ambiq/tiku_ble_uart.c:768-788 | After a disconnect reassembly is in step for the packets to come if and only if the buffer ended on a packet boundary |
| BleCredits.FrameBehindDisconnect | arch/ambiq/tiku_ble_uart.c:768-788 | A legal run in which one frame holds a disconnect and any k bytes of the packet behind it: those are gone, and reassembly is in step neither for the rest of that packet nor behind it |
| BleHost.NextConnectionBalances | arch/ambiq/tiku_ble_uart.c:768-788 | Once the controller has dropped what it held, the whole invariant holds again for the next connection if and only if the buffer ended on a packet boundary and no packet to come acknowledges an old one |
| BleUart.AclPacketReadsBack | arch/ambiq/tiku_ble_uart.c:517-548 | The packet built around a PDU is one whole packet by the reassembler's own rules, and handle, length, channel and PDU read back |
| BleUart.RingPush | arch/ambiq/tiku_ble_uart.c:155-165 | The ring is full at 255 bytes exactly when the next head would meet the tail; otherwise a byte stored at the head is appended |
| BleUart.RingPop | arch/ambiq/tiku_ble_uart.c:931-939 | Taking the byte at the tail removes the oldest, across the wrap |
| BleUart.Uart.constructor | arch/ambiq/tiku_ble_uart.c:466-499 | The state after the start is the start state of the value layer and satisfies the invariant |
| BleUart.Uart.Recv | arch/ambiq/tiku_em9305.c:243-276 | A framed read is a frame step: the radio's first bytes, as many as its status byte and the room allow, go behind those buffered |
| BleUart.Uart.Slurp | arch/ambiq/tiku_ble_uart.c:236-250 | Takes only frame steps, until the radio is not ready, the buffer is full or sixteen reads are done, and changes none of the host's other statics |
| BleUart.Uart.StreamExtract | arch/ambiq/tiku_ble_uart.c:261-308 | In place, byte-wise resynchronisation, copy and close-up give exactly the extraction of the stream as it was, and leave the packet buffer's tail |
| BleUart.Uart.Send | arch/ambiq/tiku_em9305.c:217-241 | Success writes all of the data in order in as many frames as needed; failure, only when a transfer fails, a prefix |
| BleUart.Uart.L2capSend | arch/ambiq/tiku_ble_uart.c:517-548 | After slurping, the packet on the air is the built one and the packet is counted in flight exactly when the transport took it |
| BleUart.Uart.RxPush | arch/ambiq/tiku_ble_uart.c:155-165 | The ring's content becomes the old content and as much of the data as fits 255 bytes |
| BleUart.Uart.AttHandle | arch/ambiq/tiku_ble_uart.c:580-738 | The requests' effect on MTU, CCCD and RX ring, and a response exactly when one is due, sent after it |
| BleUart.Uart.OnEvent | arch/ambiq/tiku_ble_uart.c:745-818 | The statics after an event are those of the step function: acknowledgement loop, disconnect, data length, connection |
| BleUart.Uart.OnAcl | arch/ambiq/tiku_ble_uart.c:855-886 | The same for an ACL packet, with its response |
| BleUart.Uart.Poll | arch/ambiq/tiku_ble_uart.c:888-909 | One poll is a legal run: all the frames a slurp takes, one receive, at most one response; the invariant holds after it |
| BleUart.Uart.Notify | arch/ambiq/tiku_ble_uart.c:962-985 | The packet written is the notification of the head of the queue, and only once it is out does the queue lose exactly those bytes |
| BleUart.Uart.FlushTx | arch/ambiq/tiku_ble_uart.c:945-985 | A flush is a legal run ending in a flush step; when a notification is due it goes out unless the transport fails |
| BleUart.Uart.Putc | arch/ambiq/tiku_ble_uart.c:987-1002 | With room the byte is stored at once; else polls and flushes run first, and it is dropped only after two million of them; nothing else is stored |
| BleUart.Uart.Getc | arch/ambiq/tiku_ble_uart.c:931-939 | The oldest received byte, or -1 with nothing changed |
| Atomic.SectionsAreAtomic | hal/tiku_cpu.c:79-136 | In every interleaving of thread and ISR accesses, on each kind of port: interrupts are off whenever the nesting count is above zero, and every outermost exit restores the enable state its own enter read |
| Atomic.IsrIsTransparent | hal/tiku_cpu.c:95-122 | Wherever an ISR comes, between read and disable too, and whatever it does, its return finds all the interrupted code relies on as it was, but for the saved bit |
| Atomic.IsrOverwritesSavedBit | hal/tiku_cpu.c:95-122 | Why the local copy is needed: on a port that masks in ISRs an ISR with a section leaves the saved bit "disabled" |
| Atomic.StepKeepsInv | hal/tiku_cpu.c:95-136 | Every single access keeps the invariant behind both |
| Atomic.Cpu.AtomicEnter | hal/tiku_cpu.c:95-122 | With interrupts running at every point that can find them enabled, the saved bit of an outermost enter is the bit at its start; an inner one keeps it |
| Atomic.Cpu.AtomicExit | hal/tiku_cpu.c:124-136 | Only the outermost exit enables, and only what was saved |
| Atomic.Cpu.Section | hal/tiku_cpu.c:79-136 | Any balanced nest of sections and interrupts leaves enable bit and count as they were |
| Crc.LookupIsFourBits | kernel/memory/tiku_nvm_mirror.h:72-90 | One nibble-table step is four steps of the bitwise CRC, for every 32-bit state |
| Crc.CrcUpdate | kernel/memory/tiku_nvm_mirror.h:72-90 | The table loop computes the bitwise CRC of any data |
| Crc.Crc32Of | kernel/memory/tiku_nvm_mirror.h:98-101 | The same with the initial and final inversion |
| Crc.UpdateInChunks | kernel/memory/tiku_nvm_mirror.h:66-90 | A payload may be summed in chunks |
| Crc.BurstIsDetected | kernel/memory/tiku_nvm_mirror.h:66-101 | Any change within four consecutive bytes, anywhere, changes the CRC |
| CrcBytes.BurstChangesCrc | kernel/memory/tiku_nvm_mirror.h:66-101 | The same over bytes as numbers |
| NvmMirror.BootRestoresLastFlush | arch/ambiq/tiku_mem_arch.c:107-153 | From a page without V2 magic, after any run of writes, flushes whose programs may fail and tear the page, boots of builds of any size and benches (with no larger image waiting), with no torn page left over: a boot restores the last flushed bytes on the common prefix and zeros beyond |
| NvmMirror.RunFlushDurableIff | arch/ambiq/tiku_mem_arch.c:244-320 | At the end of any such run, torn page or not: a flush that returns 0 has made the content durable if and only if the page was not torn, or it programmed, or the checksum word was right |
| NvmMirror.RetryAfterTornProgramLoses | arch/ambiq/tiku_mem_arch.c:244-320 | For every image and every next content of its length and another checksum: a legal run of four steps, the last a flush that returns 0, after which every boot gives zeros and the checksum status |
| NvmMirror.FlushProgramsIffChanged | arch/ambiq/tiku_mem_arch.c:244-320 | In such a run, with no torn page left over, a flush programs if and only if the content is not the one last flushed |
| NvmMirror.FlushAfterBootIsIdle | arch/ambiq/tiku_mem_arch.c:244-320 | Flush, boot of the same build, flush: the second programs nothing |
| NvmMirror.FlushDurableIff | arch/ambiq/tiku_mem_arch.c:244-320 | On any page a flush that returns 0 is durable if and only if it programmed or the stored checksum was right |
| NvmMirror.HoldsRestores | kernel/memory/tiku_nvm_mirror.h:111-125 | A programmed page is accepted and its image is what was programmed |
| NvmMirror.HoldsIsUnchanged | arch/ambiq/tiku_mem_arch.c:244-320 | The dirty check finds exactly the contents that differ from the page's image |
| NvmMirror.BenchKeepsLowImage | arch/ambiq/tiku_mem_arch.c:340-403 | The bench spares every image below the upper half, whichever build left it |
| NvmMirror.BenchSparesIff | arch/ambiq/tiku_mem_arch.c:340-403 | A waiting image survives the bench, whatever it programs, if and only if the bench refuses or that image ends below the upper half |
| NvmMirror.BenchOverLargeImage | arch/ambiq/tiku_mem_arch.c:340-403 | What a boot makes of an image the bench wrote into: the image only if its bytes are unchanged, zeros and the checksum status when the checksum differs |
| NvmMirror.RunKeepsInv | arch/ambiq/tiku_mem_arch.c:244-320 | Over every run the page, unless a failed program tore it, holds the last flushed content, header and padding included |
| NvmMirror.Mirror.MirrorImage | kernel/memory/tiku_nvm_mirror.h:111-125 | The length of the accepted image, or -1 exactly when magic, length or checksum refuse |
| NvmMirror.Mirror.Init | arch/ambiq/tiku_mem_arch.c:107-153 | .uninit and status after a boot, for V2, V1, damaged and virgin pages |
| NvmMirror.Mirror.FlushStatus | arch/ambiq/tiku_mem_arch.c:244-320 | Return value, page and program counter after a flush, with a program helper that may fail and tear; it fails only for that or for size, never on unchanged content |
| NvmMirror.Mirror.Bench | arch/ambiq/tiku_mem_arch.c:340-403 | Four programs for each of the sizes that fit, all within the first 4096 bytes of the upper half, and nothing when its own image reaches there |
| NvmDamage.DecayedImageIsRefused | arch/ambiq/tiku_mem_arch.c:107-153 | With the mirror's CRC, an image changed within four consecutive bytes is not restored: zeros and the checksum status |
| NvmDamage.SmallChangeIsLost | arch/ambiq/tiku_mem_arch.c:244-320 | With the mirror's CRC such a run exists for every change within four consecutive bytes of the content |
| CpuFreq.PlanIsUsable | arch/ambiq/tiku_cpu_freq_boot_arch.c:232-347 | A plan not refused has all trims in [0x8, 0x7F] and HP not below LP |
| CpuFreq.HpBelowLpIff | arch/ambiq/tiku_cpu_freq_boot_arch.c:330-346 | Exactly when the last check refuses, given the clamp and the boost |
| CpuFreq.PartIsUsable | arch/ambiq/tiku_cpu_freq_boot_arch.c:232-347 | INFO1 words whose plan is accepted with a state-7 trim that is not the LP trim |
| CpuFreq.BoostCoversTarget | arch/ambiq/tiku_cpu_freq_boot_arch.c:456-462 | The double boost does not wrap, never undershoots the HP trim, and equals it only with no step or no room |
| CpuFreq.Core.TrimsLoad | arch/ambiq/tiku_cpu_freq_boot_arch.c:232-347 | 0 if and only if the plan is loaded, once; no write to the rails |
| CpuFreq.Core.SimobuckEnable | arch/ambiq/tiku_cpu_freq_boot_arch.c:353-416 | 0 if and only if the buck is active; the state-7 trims stay written either way; nothing when it was active |
| CpuFreq.Core.RaiseVoltage | arch/ambiq/tiku_cpu_freq_boot_arch.c:441-463 | On-times, then VDDF by way of the double boost, reach the HP values, every instant on the way safe |
| CpuFreq.Core.HpEnter | arch/ambiq/tiku_cpu_freq_boot_arch.c:441-503 | 0 if and only if in HP at the HP trim and on-times on the active buck; otherwise LP trim and default on-times; the switch is requested once unless the oscillator is not ready; its force is given back |
| CpuFreq.Core.HpExit | arch/ambiq/tiku_cpu_freq_boot_arch.c:506-528 | The switch is requested first; VDDF and on-times come down if and only if the core is then seen in LP |
| CpuFreq.Core.BuckEnable | arch/ambiq/tiku_cpu_freq_boot_arch.c:642-650 | 0 only with the buck active; VDDF changes to the state-7 trim or not at all |
| CpuFreq.Core.RequestHp | arch/ambiq/tiku_cpu_freq_boot_arch.c:541-585 | Mode and VDDF for each of the five ways a request can end; an active buck is never missed; a refused request leaves the LP voltages if and only if the refusal is not the buck's or the state-7 trim is one of them; always when, before the call, the buck was active, the plan refused or that trim the LP one or the one in place, and in every other state where the trims load never with a buck that stays down |
| CpuFreq.Core.RequestLp | arch/ambiq/tiku_cpu_freq_boot_arch.c:541-585 | Of a request of at most 96 MHz: from HP, VDDF comes down exactly with the mode; out of HP it moves, to the state-7 trim, exactly where the build wants the buck, the buck is not active and the trims load; the same condition before the call keeps it at the LP voltages, and without it a buck that stays down takes it off |
| CpuFreq.Core.FreqInit | arch/ambiq/tiku_cpu_freq_boot_arch.c:541-585 | Keeps the state between calls consistent (clock recorded, HP at its trim); a high request never leaves HP and, with trims and buck, enters it or tried once; a low one never enters it; the same condition for either kind of request |
| CpuFreq.Core.RefusedOffLp | arch/ambiq/tiku_cpu_freq_boot_arch.c:541-585 | A run on such a part: the buck stays down, and a request of either kind ends out of HP with VDDF neither at the LP trim nor where it was |
| CpuFreq.Core.Drive | arch/ambiq/tiku_cpu_freq_boot_arch.c:353-585 | Over every sequence of requests and buck enables, with any timeouts, at every recorded instant HP implies active buck, HP trim or more and HP on-times, and every VDDF trim in the list of those written is in [0x8, 0x7F] |
| EmmcCard.LegalRecord | arch/ambiq/tiku_emmc_arch.c:1187-1248 | In an allowed record data commands and switches go out in TRAN, CMD5 sleep in STBY, awake in SLP, and nothing else reaches a sleeping card but a reset |
| EmmcCard.Emmc.Drive | arch/ambiq/tiku_emmc_arch.c:922-1471 | Over every sequence of init, sleep, wake, read, write and deinit calls, whatever the host does, up to the first that initialises with the card up on a host that has no power while the card sleeps or gets stuck: the record of commands is one the card's transition table allows, and s_asleep is 1 exactly when the card sleeps |
| EmmcCard.Emmc.Make | arch/ambiq/tiku_emmc_arch.c:922-1471 | Any one call keeps flags and card together if and only if it is not such an initialisation |
| EmmcCard.Emmc.ReinitOnDeadHost | arch/ambiq/tiku_emmc_arch.c:922-994 | After such an initialisation every transfer in range is let through, and a read, a write or a status request sent then is one the card, asleep or without power, cannot take |
| EmmcCard.RangeCheckExactIff | arch/ambiq/tiku_emmc_arch.c:1441-1443 | On a card of known size the check lets through exactly the ranges on the card if and only if the sum does not wrap, or wraps to beyond the card |
| EmmcCard.Emmc.InitAt | arch/ambiq/tiku_emmc_arch.c:922-1133 | Up means the card is in TRAN, with every fallback path of the optional upgrade; it fails only for a refused switch, clock, check or width, or CMD1 unanswered a thousand times; on a host without power it touches neither card nor s_up, on one stuck behind the reset that takes the bus power away it leaves s_up and a card that is off, and either way it has cleared s_asleep |
| EmmcCard.Emmc.SleepCard | arch/ambiq/tiku_emmc_arch.c:1187-1218 | The last commands are status, deselect, CMD5; already asleep or down sends nothing |
| EmmcCard.Emmc.WakeCard | arch/ambiq/tiku_emmc_arch.c:1220-1248 | CMD5 then select, back in TRAN; already awake or down sends nothing |
| EmmcCard.Emmc.Xfer | arch/ambiq/tiku_emmc_arch.c:1344-1366 | One data command per chunk, each legal though a write's next chunk meets a card still programming |
| EmmcCard.Emmc.ReadBlocks | arch/ambiq/tiku_emmc_arch.c:1435-1445 | The refusals in order; a refused call sends nothing, an accepted one a command per chunk |
| EmmcCard.Emmc.WriteBlocks | arch/ambiq/tiku_emmc_arch.c:1447-1471 | The same with the scratch-region guard, back in TRAN at the end |
| EmmcCard.Emmc.Shutdown | arch/ambiq/tiku_emmc_arch.c:1257-1267 | Down, awake, card off |
| EmmcXfer.Media.Xfer | arch/ambiq/tiku_emmc_arch.c:1344-1366 | Succeeds exactly when all the blocks are on the card, also where lba + n wraps; then the chunks cover [lba, lba+n) without gap or overlap, in order, none longer than the limit, and move what one command would |
| EmmcXfer.EachBlockOnce | arch/ambiq/tiku_emmc_arch.c:1344-1366 | Such chunks transfer every block of the range exactly once and no other |
| EmmcXfer.WriteIsSingles | arch/ambiq/tiku_emmc_arch.c:1344-1366 | The card after a chunked write equals the card after n single-block writes |
| EmmcXfer.ReadIsSingles | arch/ambiq/tiku_emmc_arch.c:1344-1366 | The buffer after a chunked read equals the buffer after n single-block reads |
| EmmcXfer.SinglesPlace | arch/ambiq/tiku_emmc_arch.c:1344-1366 | What n single-block writes leave: the data at lba, the rest unchanged |
| EmmcXfer.ChunkFitsTime | arch/ambiq/tiku_emmc_arch.c:303-312 | At 2048 bit/s or more every chunk within the limit has at most 2 s of wire time |
| EmmcXfer.ForcedIff | arch/ambiq/tiku_emmc_arch.c:303-312 | The chunk is forced to one block, and over 2 s, exactly below 2048 bit/s |
| EmmcXfer.DeadlineCoversWire | arch/ambiq/tiku_emmc_arch.c:284-294 | The capped deadline covers the wire time and stays under 2^31 cycles |
| EmmcXfer.NoOverflow64 | arch/ambiq/tiku_emmc_arch.c:274-312 | No 64-bit intermediate overflows, for any block count, clock and width |
| EmmcStage.Stager.StageFile | arch/ambiq/tiku_emmc_arch.c:1854-1944 | For every list of extents: on success the PSRAM holds their concatenation, source and destination hash agree, and the mapping is as before; it fails only when the workspace or a transfer does |
| EmmcStage.PiecesDoNotMatter | arch/ambiq/tiku_emmc_arch.c:1832-1840 | The hash is the same however the data is cut into pieces of whole words |
| EmmcStage.HashAppend | arch/ambiq/tiku_emmc_arch.c:1832-1840 | A piece of whole words may be hashed ahead of the rest |
| EmmcStage.StageHash | arch/ambiq/tiku_emmc_arch.c:1832-1840 | The word loop computes the recursive hash |
| EmmcStage.SegmentDivides | arch/ambiq/tiku_emmc_arch.c:1868-1910 | The command queue's segment always divides the transfer |
| EmmcStage.Stager.Open | arch/ambiq/tiku_emmc_arch.c:1854-1866 | Starts an empty image with the mapping given up and remembered, or refuses with the mapping as it was |
| EmmcStage.Stager.StageChunk | arch/ambiq/tiku_emmc_arch.c:1868-1910 | Success appends the extent to image, PSRAM and source hash; without a workspace nothing happens |
| EmmcStage.Stager.HashBack | arch/ambiq/tiku_emmc_arch.c:1912-1944 | The 512 KB read-back pieces hash to the hash of the whole |
| EmmcStage.Stager.Close | arch/ambiq/tiku_emmc_arch.c:1912-1944 | With the total of what was staged, both hashes are the image's; the mapping is given back |
| Der.SubjectFoundIff | tools/gen_roots.py:118-146 | For every certificate of definite-length DER, lengths short or long, version present or not, with anything behind it: offset and length of the subject's whole TLV, and a ValueError if and only if there is no subject |
| Der.WalkOfCert | tools/gen_roots.py:103-115 | The walk over an encoded certificate yields exactly its parts and its fields, with offsets |
| Der.FoundIsInside | tools/gen_roots.py:118-146 | For any bytes at all, a subject found is inside the buffer, starts with a SEQUENCE tag and has at least two bytes |
| Der.ListChildren | tools/gen_roots.py:103-115 | The generator's loop, run to its end, is the recursive walk, IndexError included |
| Der.IndexErrorIff | tools/gen_roots.py:94-146 | On any bytes at all: an IndexError if and only if there are none, or a SEQUENCE has no length byte, or the walk over its elements or the one over the first element's stands at a header of which a byte is missing; else a subject or a ValueError |
| Der.CutCertificate | tools/gen_roots.py:94-146 | The outcome for the first n bytes of any well-formed certificate, for every n |
| Der.CutIssued | tools/gen_roots.py:94-146 | For one as issued: an IndexError exactly for the cuts before the signature's contents, but one right behind a long length's first byte, which is a ValueError; from there on the stump is found as if it were whole |
| TrustStore.ParsePem | tools/gen_roots.py:149-183 | The store describes exactly the certificates with a supported key and a subject, in order; the uncaught error ends it if and only if the bytes of one with a supported key run out under the walk |
| TrustStore.CutRootEndsRun | tools/gen_roots.py:149-183 | A certificate as issued, cut short but still with a supported key, ends the run if and only if it was cut before its signature's contents; cut later it is packed like a whole one |
| TrustStore.RsaStumpIsStarved | tools/gen_roots.py:149-183 | Thirteen bytes with the RSA key's identifier that end it |
| TrustStore.BuiltIsCleanIff | tools/gen_roots.py:227-244 | Every table built covers the blob exactly with each subject in its certificate, and verify is clean if and only if every certificate starts with a SEQUENCE tag |
| TrustStore.SetRootIsPackedUnclean | tools/gen_roots.py:227-244 | Every well-formed root that is a SET, with a subject and a supported key, is packed, and verify then finds a problem |
| TrustStore.SetRootExists | tools/gen_roots.py:118-146 | There is such a root |
| TrustStore.DescribedIsInside | tools/gen_roots.py:155-183 | Each entry cuts its own certificate out of the blob |
| TrustStore.Verify | tools/gen_roots.py:227-244 | The loop finds no problem exactly when the table is clean |
| TrustPack.RoundTrip | tools/gen_roots.py:190-225 | unpack(pack(store)) is the store, for every store whose fields fit 32 bits |
| TrustPack.TableEndsFile | tools/gen_roots.py:190-200 | The table starts on a multiple of four and ends with the file |
| TrustPack.RepackIff | tools/gen_roots.py:203-225 | pack(unpack(file)) is the file if and only if the file has pack's layout: table right behind zero padding |
| TrustPack.GapIsAccepted | tools/gen_roots.py:203-225 | For every packable store and any four bytes before the table, a file that unpack accepts as that store and pack does not give back |
| TrustPack.DamageIsRefused | tools/gen_roots.py:203-225 | A packed file changed within four consecutive payload bytes is refused for its CRC |
| TrustPack.ReadTable | tools/gen_roots.py:203-225 | The table loop reads the recursive table |
| Rle.Encode | tools/icon_bake.py:97-109 | The nested loops compute the greedy code, or fail exactly when there are too few pixels |
| Rle.RoundTrip | tools/icon_bake.py:97-109 | The greedy code decodes to the pixels |
| Rle.GreedyIsOptimal | tools/icon_bake.py:97-109 | No byte sequence that decodes to the same pixels is shorter |
| Rle.SuffixIsNoLonger | tools/icon_bake.py:97-109 | The greedy code of a suffix is never longer |
| RoundRect.Isqrt | arch/ambiq/tiku_gpu_arch.c:770-781 | r*r <= v < (r+1)*(r+1) for every 32-bit v, all arithmetic within 32 bits |
| RoundRect.PaintedOnce | arch/ambiq/tiku_gpu_arch.c:806-840 | Every pixel of the shape (within the radius of the box between the corner centres) is painted exactly once and no other pixel at all |
| RoundRect.InsideBox | arch/ambiq/tiku_gpu_arch.c:806-840 | The shape stays in its rectangle |
| RoundRect.Symmetric | arch/ambiq/tiku_gpu_arch.c:806-840 | It is mirror-symmetric on both axes |
| RoundRect.RowIsOneRun | arch/ambiq/tiku_gpu_arch.c:806-840 | Each row is one run of pixels |
| RoundRect.NeverWidens | arch/ambiq/tiku_gpu_arch.c:806-840 | What a row covers, every row at most as far from the band covers |
| RoundRect.RadiusBound | arch/ambiq/tiku_gpu_arch.c:857-862 | The square fits a signed 32-bit number exactly up to 46340 |
| RoundRect.RoundedRect | arch/ambiq/tiku_gpu_arch.c:806-840 | Draws exactly the shape's rectangles in order, and stops after the first draw whose wait fails |
| RoundRect.FillRoundedRect | arch/ambiq/tiku_gpu_arch.c:843-854 | The clamped radius always makes a drawable shape; without one a plain fill |
| RoundRect.FillCircle | arch/ambiq/tiku_gpu_arch.c:857-862 | The circle is the rounded square of its radius |
| Simd.DivShiftIsDiv | hal/tiku_simd.c:55-60 | For v up to 65025 the shift form is floor(v/255) and its sum stays within 65280 |
| Simd.VMulDivLanes | hal/tiku_simd.c:63-73 | Every one of the sixteen lanes is the scalar product over 255, through the even and odd halves |
| Simd.LanesAreElements | hal/tiku_simd.c:81-269 | Every lane of every element-wise kernel is the scalar element |
| Simd.Vectored | hal/tiku_simd.c:81-269 | The tail-predicated loop writes exactly the scalar result, nothing past n, also in place |
| Simd.IndexReachesIff | hal/tiku_simd.c:81-269 | The 32-bit loop index ever reaches n if and only if n <= 2^32 - 16 |
| Simd.Scalar | hal/tiku_simd.c:81-269 | The scalar loop's result |
| Simd.DotVectored | hal/tiku_simd.c:214-252 | The vector sums are the true sum modulo 2^32 |
| Simd.DotScalar | hal/tiku_simd.c:214-252 | And so are the scalar ones |
| Simd.DotExactIff | hal/tiku_simd.h:55-59 | The inner product is exact for all contents if and only if n <= 66051 |
| Simd.SumExactIff | hal/tiku_simd.h:52-53 | The plain sum if and only if n <= 16843009 |

## Left out

- Stimer.Timer.TickStart: oscillator and interrupt-controller set-up, the reclock to the low-frequency oscillator and its calibration; a stopped counter only shows as a refused stretch.
- Stimer.Timer.Cmpr0Isr: the one-shot callback it ends with.
- Stimer.Timer.Schedule: a spacing loop that outlasts 2^32 - 3 counts gives no bound on the match.
- BleUart.Uart.constructor: the start-up commands and advertising before it; of `tiku_ble_uart_start` only the state it leaves.
- BleUart.Uart.AttHandle: the contents of responses, which are not limited by the negotiated MTU.
- BleUart.Uart.Recv: a bus transfer that fails behind the header (`arch/ambiq/tiku_em9305.c:267-272`), after which the radio's bytes of that frame may be gone.
- BleUart.Uart.Send: what the controller makes of a packet the transport failed on half-way; such a packet counts as not handed over.
- BleUart.Uart.OnEvent: re-advertising after a disconnect, during which `tiku_em9305_hci_cmd` reads frames of its own; connection parameters kept for display.
- `tiku_ble_uart_tx_credit_reset`, `_stop`, traces and counters for display: they reset or report.
- BleHost.RunKeepsInv: the credit balance is for one connection; after a Disconnection Complete only the bounds and the queue's order are kept, and BleHost.NextConnectionBalances says when the balance starts anew.
- Atomic.Cpu.AtomicEnter: the width of the nesting counter, and ISRs that switch interrupts on or off themselves.
- NvmMirror.Mirror.FlushStatus: a power loss during a program is no event of its own: a failed program leaves any bytes in its range, and a boot may follow it. The second size check, which cannot fail after the first, is not repeated.
- NvmMirror.Mirror.Bench: timings, and the patterns it programs.
- CpuFreq.Core.TrimsLoad: the floating-point formula of the boost; any non-negative boost is allowed. Diagnostic copies are not kept.
- CpuFreq.Core.SimobuckEnable: the fixed override writes and the LDO trims, which no decision reads.
- CpuFreq.Core.Drive: a mode switch that completes after the final status read.
- EmmcCard.Emmc.InitAt: register set-up, HS200 tuning, and the fields read from the card besides its size; the refusal of a switch is reported with the card back in TRAN. Without its bus power the card counts as off at once.
- EmmcCard.Emmc.Drive: runs after a failed command or a wait that times out, after which the driver no longer knows the card's state; `tiku_emmc_read_start`/`_wait`.
- EmmcXfer.Media.Xfer: what a chunk that runs past the card's end moves before it fails.
- EmmcStage.Stager.StageFile: the benchmark and the self-check around staging (`tiku_emmc_stage_run`, `tiku_emmc_bench_run`).
- TrustStore.ParsePem: PEM text, base64 and the regular expressions; the generated C table (`to_inl`).
- TrustPack.RoundTrip: a field of 2^32 or more, for which Python's struct module raises an error.
- RoundRect.RoundedRect: wrap of 16-bit register coordinates and what the GPU does with a rectangle.
- RoundRect.FillCircle: radii above 46340, whose square overflows.
- Simd.Vectored: buffers that overlap in part; n above 2^32 - 16, where the loop does not end.
- Scheduler, VFS, shell, boot code, GPIO, watchdog, display drivers, font and image packing, and the other ports: plumbing or easy members.
