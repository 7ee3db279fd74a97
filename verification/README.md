# STM32F7 support code: a verified model

This project models the algorithms in the board's support code and proves what they are for.
The centre is the Cortex-M7 data cache: the CMSIS routines that enable, disable, clean and
invalidate it, run against a cache that fills and evicts lines whenever it likes. Around it stand
the MPU region loader, the HAL handle lock, the NVIC and SysTick, the software forms of a few
instructions, the core clock computation, and the DMA flag and ADC sequence packing.

| file | models |
|---|---|
| `Words.dfy` | `uint32_t` arithmetic and bits: what each C operator does to every bit |
| `CacheModel.dfy` | the L1 data cache as a (set, way) table over a flat memory, driven by events |
| `CacheCoherence.dfy` | the invariant that makes the cache invisible, kept by each line operation |
| `CacheCommands.dfy` | the words the cache routines write, and what they enumerate |
| `CacheRuns.dfy`, `CachePrograms.dfy` | what a reader observes along a run; operations as event traces; the effect of a sweep |
| `CacheTransparency.dfy`, `CacheOutcomes.dfy` | whole-run transparency; what each routine leaves behind |
| `CacheRanges.dfy` | what the by-address routines do for any range, aligned or not |
| `CacheInterleaving.dfy` | accesses falling between a routine's register writes, and what they cannot undo |
| `CacheOwnership.dfy` | buffers shared with DMA devices: who has them and what is permitted |
| `CacheHandover.dfy` | whole runs with interrupts and devices active throughout |
| `CacheDriver.dfy` | the routines as register-writing code, proved against all of the above |
| `Mpu.dfy`, `HalLock.dfy`, `Nvic.dfy`, `SysTick.dfy` | region loader, handle lock, interrupt controller, system timer |
| `Intrinsics.dfy`, `Clock.dfy`, `DmaFlags.dfy`, `AdcSequence.dfy` | bit reversal, leading zeros, saturation; core clock; DMA flags; ADC sequences |

How the cache proof is built. A run is a sequence of events: CPU loads and stores, command-register
and CCR writes, device accesses, and line fills and evictions of the hardware's own choosing. A first layer
takes every interleaving of a routine's register writes with fills and evictions and says what the routine
leaves behind. A second layer lets interrupt handlers and devices access memory between any two register
writes as well. It tracks who has each DMA buffer event by event: the CPU keeps off what a device has, a
device keeps to what the CPU has given up, and when a call returns, the buffers it reached and nobody wrote
meanwhile change hands. `Faithful` says that along a run each load and device read returns the byte a flat
memory would hold, and that no block sits in two ways while the cache is on. The class `Core` issues the
routines' register writes with arbitrary asynchronous events in between and logs all of them; each routine's
contract says that its log is its trace with only asynchronous events between.

Hardware behaviour follows the ARMv7-M Architecture Reference Manual: cache maintenance (section B2.2),
SysTick (B3.3), NVIC (B3.4) and MPU (B3.5). Set/way words are read as the header's field masks define
them: way in bits 31:30, set in bits 13:5, so the cache theorems hold for up to 512 sets and 4 ways
(the Cortex-M7 data cache has 4); `SetWayEnumeration` shows these are exactly the sizes for which the
loops name each line once. Every register write takes effect in program order.

Where properties turned out to need a condition, it is exact:

* Transparency from a cache that is off needs its lines to hold nothing dirty, unless the program
  enables or invalidates the cache before it cleans it (`TrustExact`).
* A store made at any point while `SCB_DisableDCache` is sweeping survives exactly when no dirty line that
  holds its block is left, or it stores the byte that was there (`StoreWhileDisabling`).
* `SCB_InvalidateDCache`, and `SCB_EnableDCache` with the cache on, keep the program's view under every
  interleaving exactly when memory already held it (`DiscardExact`).
* `SCB_CleanDCache_by_Addr` reaches the whole range exactly when its end offsets do not carry into one more
  line (`CleanRangeExact`), and `SCB_InvalidateDCache_by_Addr` spares its neighbours exactly when the range is
  whole lines (`NeighboursExact`), on every geometry.
* The handle lock excludes under a schedule exactly when its sets and unlocks alternate, with no foreign unlock
  between them (`ExclusionExact`); nesting ensures it when each context unlocks only what it locked (`MutualExclusion`).
* `SysTick_Config(1)` reports success but its timer never fires; every larger accepted period is exact (`Period`).
* The injected ADC call accepts a rank above the length; one just above overwrites the length field, which
  survives only if the channel's two low bits happen to match (`InjectedLengthExact`).
* The PLL product overflows 32 bits only with an undivided input and a large multiplier (`OverflowExact`).

Where code and comments disagree the code is followed: the comment in `system_stm32f7xx.c` gives the
HSE crystal as 25 MHz, the constant is 12 MHz.

## Model

| member | source | states |
|---|---|---|
| `CacheCommands.CcsidrFields` | cmsis/core_cm7.h:2221-2222 | The CCSIDR macros read NumSets and Associativity from the bits the register defines. |
| `CacheCommands.PackValue` | cmsis/core_cm7.h:2298-2299 | The masks, shifts and or build the word with the way in bits 31:30 and the set in bits 13:5, each cut to its field. |
| `CacheCommands.WordDecodes` | cmsis/core_cm7.h:816-834 | Within the field widths a set/way word names exactly the set and way it was built from. |
| `CacheCommands.SetWayEnumeration` | cmsis/core_cm7.h:2294-2304 | The nested do-while loops write (NumSets+1)*(Associativity+1) words covering every line; none repeats iff the geometry fits the masks. |
| `CacheCommands.AddrCoverage` | cmsis/core_cm7.h:2473-2477 | A by-address loop issues ceil(dsize/32) commands on consecutive lines; a line of the range is missed iff the end offsets carry, and then only the last. |
| `CacheCommands.AddrContained` | cmsis/core_cm7.h:2500-2504 | The commands stay inside the range iff it starts and ends on line boundaries. |
| `CacheCoherence.StoreSynced` | cmsis/core_cm7.h:2281-2455 | A CPU store through the cache changes one byte of the coherent view and keeps it equal to a flat memory. |
| `CacheRuns.QuietRun` | cmsis/core_cm7.h:2392-2455 | Fills, evictions, cleans and clean-invalidates in any order change no reader's view and dirty nothing. |
| `CachePrograms.SweepEffect` | cmsis/core_cm7.h:2294-2304 | After a full loop nest no line is dirty, and after an invalidating one none is valid but what the enabled hardware refilled, under every interleaving. |
| `CachePrograms.EnableBit` | cmsis/core_cm7.h:2307 | Setting and clearing the DC bit of CCR changes that bit only. |
| `CacheTransparency.Transparency` | cmsis/core_cm7.h:2281-2455 | From a cache that is off, any legal run reads what a flat memory would return at every load, never caches a block in two ways, and if it leaves the cache on leaves it coherent. |
| `CacheTransparency.DisableOn` | cmsis/core_cm7.h:2319-2350 | Disabling drains the cache: off, empty, memory equal to the view, other CCR bits unchanged. |
| `CacheRuns.FaithfulAt` | cmsis/core_cm7.h:2281-2455 | What faithfulness means at each position of a run. |
| `CacheOutcomes.CleanOutcome` | cmsis/core_cm7.h:2392-2419 | Cleaning leaves nothing dirty, the same view, and memory equal to it, whatever the write-back order. |
| `CacheOutcomes.CleanInvalidateOutcome` | cmsis/core_cm7.h:2427-2455 | Clean and invalidate also leaves nothing valid, unless the hardware refilled lines meanwhile. |
| `CacheOutcomes.DisableOutcome` | cmsis/core_cm7.h:2319-2350 | Disabling leaves the cache off and empty and memory equal to the old coherent view. |
| `CacheOutcomes.InvalidateOutcome` | cmsis/core_cm7.h:2357-2384 | Invalidating a cache in use leaves each block with its old cached or old memory contents; undisturbed, the view survives iff memory was up to date. |
| `CacheOutcomes.EnableWhileOnOutcome` | cmsis/core_cm7.h:2281-2312 | Enabling a cache that is already on leaves each block with its old cached or old memory contents and memory equal to the view; undisturbed by the hardware, memory is unchanged, so all that was not written back is lost. |
| `CacheOutcomes.DiscardExact` | cmsis/core_cm7.h:2281-2384 | Enabling (on or off) or invalidating keeps the program's view under every interleaving iff memory already held all of it. |
| `CacheOutcomes.StoreWhileDisabling` | cmsis/core_cm7.h:2329-2346 | A store after any part of the disabling sweep survives iff no dirty line that holds its block is left (or it changes nothing). |
| `CacheOutcomes.DirtyLineWins` | cmsis/core_cm7.h:2335-2346 | A dirty line still to be written back decides its block's memory, whatever was stored beneath it. |
| `CacheOutcomes.TrustExact` | cmsis/core_cm7.h:2281-2455 | Lines found with the cache off may be trusted iff none is dirty. |
| `CacheHandover.Handover` | cmsis/core_cm7.h:2281-2536 | For any program of the routines, from on or off, and any disjoint aligned buffers: with CPU, interrupt and device accesses anywhere between and inside the routines, each permitted when it happens, every CPU load and every device read returns the last byte written by either side. |
| `CacheHandover.InterruptTransparency` | cmsis/core_cm7.h:2281-2536 | Without devices, from off, any legal program is transparent with interrupt handlers' loads and stores at any position of any routine; only while a cache in use is being disabled must they keep off blocks a dirty line still holds. |
| `CacheHandover.CallSettled` | cmsis/core_cm7.h:2281-2536 | Each of the routines, begun with the cache on or off and with permitted accesses inside it, shows every reader the flat memory and ends settled: on and coherent, or off with memory equal to it. |
| `CacheHandover.DisableCall` | cmsis/core_cm7.h:2319-2350 | Disabling a cache in use, with accesses inside the sweep, ends off with memory equal to the flat memory they all wrote, and nothing dirty. |
| `CacheHandover.EnableCall` | cmsis/core_cm7.h:2281-2312 | Enabling a cache that is off, with accesses inside it, ends on and coherent, whoever has the buffers. |
| `CacheHandover.CallCcr` | cmsis/core_cm7.h:2281-2536 | With any accesses inside, enabling sets and disabling clears the DC bit of CCR, changing no other bit, and no other routine changes CCR. |
| `CacheHandover.CleanKeepsLines` | cmsis/core_cm7.h:2392-2509 | A clean, whole or by address, takes no line out of the cache: without fills and evictions every line stays, and without stores with its data. |
| `CacheHandover.CallHeld` | cmsis/core_cm7.h:2392-2536 | A clean, invalidate or clean and invalidate of a cache in use, by address or whole, hands over exactly the buffers it reached and nobody wrote meanwhile; the others stay with whoever has them. |
| `CacheOwnership.EventHeld` | cmsis/core_cm7.h:2464-2536 | Any single permitted event, a device's included, keeps the invariant and shows its reader the flat memory. |
| `CacheInterleaving.StaysFresh` | cmsis/core_cm7.h:2427-2455 | Once a line is dropped, no refill makes its block stale again while nobody writes it. |
| `CacheRanges.CleanWords` | cmsis/core_cm7.h:2491-2536 | A by-address clean of any range, under every interleaving, changes no reader's view and puts every line it names into memory; clean and invalidate also leaves none of them cached but by a refill. |
| `CacheRanges.InvalidateWords` | cmsis/core_cm7.h:2464-2482 | A by-address invalidate of any range leaves its lines with their old cached or old memory contents, undisturbed the latter, and every other line's view alone. |
| `CacheRanges.CleanRangeExact` | cmsis/core_cm7.h:2491-2509 | For every geometry, a by-address clean gets the whole range into memory on all coherent caches and interleavings iff the end offsets do not carry into one more line. |
| `CacheRanges.NeighboursExact` | cmsis/core_cm7.h:2457-2482 | For every geometry, invalidating a range keeps every byte outside it in the CPU's view, on all coherent caches and interleavings, iff the range is whole lines. |
| `CacheDriver.Core.SetWayLoops` | cmsis/core_cm7.h:2294-2304 | The loops, wrapping decrement included, terminate and issue exactly the enumeration. |
| `CacheDriver.Core.WayLoop` | cmsis/core_cm7.h:2296-2303 | The inner loop issues its set's words and leaves the rest of the enumeration. |
| `CacheDriver.Core.AddressLoop` | cmsis/core_cm7.h:2473-2477 | The by-address loop issues exactly its words. |
| `CacheDriver.Core.EnableDCache` | cmsis/core_cm7.h:2281-2312 | Selects the data cache, invalidates it and turns it on; from off the view is then memory; from on, undisturbed, the view becomes the old memory, so dirty data is lost. Sets the DC bit of CCR and no other. With permitted accesses inside, every reader sees the flat memory and the state ends settled. |
| `CacheDriver.Core.DisableDCache` | cmsis/core_cm7.h:2319-2350 | Turns the cache off, then writes it back and empties it. Clears the DC bit of CCR and no other. With permitted accesses inside, every reader sees the flat memory and the state ends settled. |
| `CacheDriver.Core.InvalidateDCache` | cmsis/core_cm7.h:2357-2384 | Issues the invalidate sweep; each block keeps its old cached or memory contents, undisturbed always the latter. With permitted accesses inside, every reader sees the flat memory and the state ends settled. |
| `CacheDriver.Core.CleanDCache` | cmsis/core_cm7.h:2392-2419 | Issues the clean sweep; nothing dirty, view unchanged, memory equal to it. Lines stay cached with their data but for the hardware's evictions. With permitted accesses inside, every reader sees the flat memory and the state ends settled. |
| `CacheDriver.Core.CleanInvalidateDCache` | cmsis/core_cm7.h:2427-2455 | Issues the clean and invalidate sweep, with the same effect and nothing valid but refills. With permitted accesses inside, every reader sees the flat memory and the state ends settled. |
| `CacheDriver.Core.InvalidateDCacheByAddr` | cmsis/core_cm7.h:2464-2482 | Issues the by-address invalidate commands; the named lines lose what was not written back, all others keep their view. With permitted accesses inside, every reader sees the flat memory and the state ends settled. |
| `CacheDriver.Core.CleanDCacheByAddr` | cmsis/core_cm7.h:2491-2509 | Issues the by-address clean commands; no view changes, and the whole range is in memory unless its offsets carry. Lines stay cached with their data but for the hardware's evictions. With permitted accesses inside, every reader sees the flat memory and the state ends settled. |
| `CacheDriver.Core.CleanInvalidateDCacheByAddr` | cmsis/core_cm7.h:2518-2536 | Issues the by-address clean and invalidate commands; no view changes, the named lines are in memory and cached no longer but by a refill. With permitted accesses inside, every reader sees the flat memory and the state ends settled. |
| `CacheDriver.Core.Perform` | cmsis/core_cm7.h:2281-2536 | One call or access, with anything asynchronous inside: its register writes in order, and if the call is allowed and what happens meanwhile is permitted, the outcome of `CallSettled`. |
| `CacheDriver.Core.Execute` | cmsis/core_cm7.h:2281-2536 | Any program made of these routines and accesses, with asynchronous accesses anywhere: every reader sees one flat memory if the run is disciplined; without devices, from off, if it is legal and disables with care. |
| `Mpu.RowsMeaning` | cmsis/mpu_armv7.h:223-227 | A table leaves each region as its last row says, other regions alone, and RNR at the last row's region; rows without VALID included. |
| `Mpu.ReloadIsIdempotent` | cmsis/mpu_armv7.h:259-268 | Loading any table a second time changes nothing, rows without VALID included. |
| `Mpu.RbarSelects` | cmsis/mpu_armv7.h:75-78 | A row built with ARM_MPU_RBAR configures the region with the aligned base as SetRegionEx would iff the region number, as RNR keeps it, has four bits. |
| `Mpu.BatchIsRows` | cmsis/mpu_armv7.h:246-253 | A batch written through the alias window equals its rows set one at a time. |
| `Mpu.Unit.OrderedCpy` | cmsis/mpu_armv7.h:246-253 | Copies the words in order into a stretch of the window and nowhere else. |
| `Mpu.Unit.Load` | cmsis/mpu_armv7.h:259-268 | Ends in exactly the state of SetRegion on each row in order, for every count; the words written are the table's words in order. |
| `Mpu.Unit.SetRegion` | cmsis/mpu_armv7.h:223-227 | The region the RBAR word names, or else the selected one, gets the base and attributes and stays selected; no other region changes. |
| `Mpu.Unit.SetRegionEx` | cmsis/mpu_armv7.h:234-239 | Sets region rnr and no other, unless the RBAR word names one. |
| `Mpu.Unit.ClrRegion` | cmsis/mpu_armv7.h:213-217 | Clears one region's attributes, disabling it, and nothing else. |
| `HalLock.MutualExclusion` | drivers/inc/stm32f7xx_hal_def.h:88-107 | Under nested preemption of any depth, with each context unlocking only what it locked, at every moment at most one is in its locked section and Lock is taken exactly when one is. |
| `HalLock.ExclusionExact` | drivers/inc/stm32f7xx_hal_def.h:92-107 | Under any schedule, nested or not, exclusion holds throughout iff sets and unlocks alternate in it and no foreign unlock falls between a set and its unlock: a condition on the order of the actions alone. |
| `HalLock.NestedKeepsInv` | drivers/inc/stm32f7xx_hal_def.h:92-107 | Nesting ensures that condition along the whole run. |
| `HalLock.ForeignUnlockExact` | drivers/src/stm32f7xx_hal_dma.c:868-869 | A handler that unlocks a handle it did not lock and then takes it breaks exclusion iff a context below was inside. |
| `HalLock.TestStillHolds` | drivers/inc/stm32f7xx_hal_def.h:92-102 | When a context is about to set the lock, the test it made is still true. |
| `HalLock.PreemptionIsInvisible` | drivers/inc/stm32f7xx_hal_def.h:92-107 | Once everything that preempted a context has returned, the lock and all waiting contexts are as before. |
| `HalLock.SchedulingBreaksExclusion` | drivers/inc/stm32f7xx_hal_def.h:88-90 | Scheduled as by an RTOS, two contexts can both be inside: the condition of `ExclusionExact` can fail without nesting. |
| `HalLock.Handle.Acquire` | drivers/inc/stm32f7xx_hal_def.h:92-102 | Taking the lock, interrupted anywhere, is refused iff Lock is taken; otherwise Lock is taken afterwards and this context alone is inside. |
| `HalLock.Handle.Release` | drivers/inc/stm32f7xx_hal_def.h:104-107 | Frees Lock and leaves the section. |
| `HalLock.Handle.Interrupt` | drivers/inc/stm32f7xx_hal_def.h:92-107 | Whatever HAL calls an interrupt makes, to any depth, Lock and all contexts are as before; while Lock is taken all of them are refused and the peripheral is untouched. |
| `HalLock.Handle.Call` | drivers/inc/stm32f7xx_hal_def.h:92-107 | A HAL call, interrupted anywhere and to any depth, returns busy and touches nothing iff Lock was taken; otherwise its protected work is done in one piece, nobody else's inside it, and Lock is free again. |
| `Nvic.Controller.EnableIRQ` | cmsis/core_cm7.h:1896-1902 | Adds one interrupt to the enabled set; system exceptions change nothing. |
| `Nvic.Controller.DisableIRQ` | cmsis/core_cm7.h:1932-1940 | Removes one interrupt from the enabled set. |
| `Nvic.Controller.SetPendingIRQ` | cmsis/core_cm7.h:1970-1976 | Adds one interrupt to the pending set. |
| `Nvic.Controller.ClearPendingIRQ` | cmsis/core_cm7.h:1985-1991 | Removes one interrupt from the pending set. |
| `Nvic.Controller.GetEnableIRQ` | cmsis/core_cm7.h:1913-1923 | Reads membership of the enabled set. |
| `Nvic.Controller.GetPendingIRQ` | cmsis/core_cm7.h:1951-1961 | Reads membership of the pending set. |
| `Nvic.Controller.GetActive` | cmsis/core_cm7.h:2002-2012 | Reads membership of the active set. |
| `Nvic.Controller.Execute` | cmsis/core_cm7.h:1896-1991 | Over any run of the four operations the register banks agree with the two abstract sets. |
| `Nvic.LastEnableWins` | cmsis/core_cm7.h:1896-1940 | After any run any interrupt is enabled iff an enable of it, or its being enabled at the start, is followed by no disable of it. |
| `Nvic.LastPendWins` | cmsis/core_cm7.h:1970-1991 | The same for the pending bits. |
| `Nvic.WidthsSum` | cmsis/core_cm7.h:2077-2078 | For every priority-bit count and group the two field widths sum to the implemented bits. |
| `Nvic.DecodeEncode` | cmsis/core_cm7.h:2071-2108 | Decoding undoes encoding up to field truncation. |
| `Nvic.EncodeDecode` | cmsis/core_cm7.h:2071-2108 | Encoding undoes decoding, up to truncation of the priority to the implemented bits. |
| `Nvic.EncodeOrder` | cmsis/core_cm7.h:2071-2084 | Encoded priorities order lexicographically as (preempt, sub), each cut to its width. |
| `Nvic.PriorityReadBack` | cmsis/core_cm7.h:2024-2057 | The priority byte holds the priority truncated to the implemented bits at its top, zeros below, and reads back as that. |
| `Nvic.Controller.SetPriority` | cmsis/core_cm7.h:2024-2034 | Stores one interrupt's priority at the top of IP[irq], or one exception's at the top of SHPR[irq + 12], and disturbs no other register. |
| `Nvic.Controller.GetPriority` | cmsis/core_cm7.h:2046-2057 | Reads the priority back from the right register. |
| `Nvic.Controller.PriorityRoundTrip` | cmsis/core_cm7.h:2024-2108 | Encode, set, get and decode returns the two fields, leaving every other priority alone. |
| `Nvic.Controller.SetPriorityGrouping` | cmsis/core_cm7.h:1865-1877 | The group reads back modulo 8 and no other writable field of AIRCR changes. |
| `Nvic.GroupingReadsBack` | cmsis/core_cm7.h:1865-1887 | The word written carries the key, so the write takes effect, and keeps the other fields. |
| `SysTick.Period` | cmsis/core_cm7.h:2564-2578 | A timer started for ticks fires floor(n/ticks) times in n clocks for every n, iff ticks is at least 2. |
| `SysTick.CounterAfter` | cmsis/core_cm7.h:2571-2576 | Where the counter stands and how often it fired after n clocks. |
| `SysTick.Device.Config` | cmsis/core_cm7.h:2564-2578 | Rejects 0 and more than 2^24 without changing anything; otherwise starts the timer at lowest priority. |
| `Intrinsics.ReverseBit` | cmsis/cmsis_armcc.h:516-530 | The reversed word's bit i is the input's bit 31-i. |
| `Intrinsics.ReverseInvolution` | cmsis/cmsis_armcc.h:516-530 | Reversing twice gives the word back. |
| `Intrinsics.RbitIccarm` | cmsis/cmsis_iccarm.h:511-522 | The early-stopping loop that starts from the whole word still returns the reverse; its counter never underflows. |
| `Intrinsics.RbitArmcc` | cmsis/cmsis_armcc.h:516-530 | The same for the other compiler's loop. |
| `Intrinsics.Clz` | cmsis/cmsis_iccarm.h:496-509 | Counts the leading zeros, 32 for zero. |
| `Intrinsics.ClzOfReverse` | cmsis/cmsis_iccarm.h:496-522 | The leading zeros of the reverse are the trailing zeros of the word. |
| `Intrinsics.SsatNearest` | cmsis/cmsis_armcc.h:736-752 | Signed saturation is the nearest-point projection onto the signed range; a width outside 1..32 changes nothing. |
| `Intrinsics.UsatNearest` | cmsis/cmsis_armcc.h:761-776 | Unsigned saturation is the nearest-point projection onto the unsigned range; a width above 31 leaves the 32 bits. |
| `Intrinsics.SsatNested` | cmsis/cmsis_iccarm.h:768-784 | Signed saturation is monotone, and nesting equals saturating once to the smaller width. |
| `Intrinsics.UsatNested` | cmsis/cmsis_iccarm.h:786-801 | The same for unsigned saturation. |
| `Clock.System.SystemCoreClockUpdate` | app/system_stm32f7xx.c:185-231 | Stores the frequency that the bits of CFGR and PLLCFGR mean: HSI, HSE, or F*N/(M*P) from the PLL with its truncations and their bounds, divided by 1, 2, 4, 8, 16, 64, 128, 256 or 512 as HPRE says. |
| `Clock.TableIsDivisor` | app/system_stm32f7xx.c:108 | The prescaler table's shifts are those divisors. |
| `Clock.OverflowExact` | app/system_stm32f7xx.c:205-217 | The PLL product overflows 32 bits iff PLLM is 1 and PLLN exceeds a bound for the source; never for PLLM of 2 or more. |
| `Clock.ErrorFormula` | app/system_stm32f7xx.c:205-230 | What the three truncating divisions lose, exactly. |
| `Clock.HclkBounds` | app/system_stm32f7xx.c:205-230 | HCLK never exceeds the exact rational, falls short by less than the bound, and is exact iff no division truncates. |
| `Clock.HclkError` | app/system_stm32f7xx.c:205-230 | The same bounds over the reals: shortfall below (N/P + 1)/2^k + 1. |
| `DmaFlags.MacrosFindHome` | drivers/inc/stm32f7xx_hal_dma.h:408-501 | The address comparisons select exactly the stream's status register and flag bit. |
| `DmaFlags.SelectionInjective` | drivers/inc/stm32f7xx_hal_dma.h:337-356 | No two (stream, kind) pairs share a register bit. |
| `DmaFlags.ClearedPending` | drivers/inc/stm32f7xx_hal_dma.h:534-537 | A flag word clears exactly the flags of the selected register whose bits it contains. |
| `DmaFlags.ClearedOwn` | drivers/inc/stm32f7xx_hal_dma.h:534-537 | Clearing by a stream's own flag index clears that flag and no other. |
| `DmaFlags.Controllers.ClearFlag` | drivers/inc/stm32f7xx_hal_dma.h:534-537 | The macro writes the right clear register. |
| `DmaFlags.Controllers.GetFlag` | drivers/inc/stm32f7xx_hal_dma.h:516-519 | For any flag word the macro returns the pending ones of the flags it names, nonzero iff there is one. |
| `DmaFlags.Controllers.Execute` | drivers/inc/stm32f7xx_hal_dma.h:516-537 | Over any run of raises and clears, each with any combination of flags, the registers hold exactly the pending set. |
| `AdcSequence.RankSet` | drivers/src/stm32f7xx_hal_adc.c:1662-1688 | Configuring a rank sets that rank to the low half of the channel constant and leaves every other rank and the length alone. |
| `AdcSequence.LengthSet` | drivers/inc/stm32f7xx_hal_adc.h:847 | The sequence length reads back and no rank changes. |
| `AdcSequence.InjectedSet` | drivers/inc/stm32f7xx_hal_adc_ex.h:327 | An injected rank within the length gets the low half of the channel constant, in its slot among the last ones; the rest is kept. |
| `AdcSequence.OtherInjectedKept` | drivers/src/stm32f7xx_hal_adc_ex.c:803-813 | No other rank of the injected sequence changes, for a rank past the length either. |
| `AdcSequence.InjectedLengthExact` | drivers/src/stm32f7xx_hal_adc_ex.c:803-813 | For every accepted call the length read back is the one given, except for a rank one past it, where it is the channel's two low bits plus one; so when exactly it survives. |
| `AdcSequence.Adc.ConfigChannel` | drivers/src/stm32f7xx_hal_adc.c:1662-1688 | The read-modify-write of SQR1, SQR2 or SQR3 sets one rank, to the channel itself for channels 0 to 18. |
| `AdcSequence.Adc.SetLength` | drivers/src/stm32f7xx_hal_adc.c:1928-1929 | The read-modify-write of SQR1 sets the length. |
| `AdcSequence.Adc.InjectedConfigChannel` | drivers/src/stm32f7xx_hal_adc_ex.c:803-813 | The read-modify-writes of JSQR set the length and one slot, to the channel itself for channels 0 to 18, and keep the other ranks. |
| `AdcSequence.Adc.ProgramSequence` | drivers/inc/stm32f7xx_hal_adc.h:847-887 | A whole regular sequence of 1 to 16 channels decodes back to the same length and channels in order, whatever the registers held. |
| `AdcSequence.Adc.ProgramInjected` | drivers/inc/stm32f7xx_hal_adc_ex.h:327 | The same for an injected sequence of 1 to 4 channels. |

## Left out

- Barriers, exclusive accesses, embedded assembly and SIMD intrinsics: foreign instructions; register writes are taken in program order.
- Memory attributes: every address is write-back memory; device memory, write-through regions and tightly coupled memory are not modelled.
- The instruction cache routines: they write one command and one enable bit.
- CacheDriver.Core: the hardware state is one value in a field, because the registers and line store are not C objects; the five loop nests, alike but for the command register, are one method with a parameter.
- By-address ranges that run past the end of the address space: op_addr wraps as in C, but the coverage theorems are for ranges that end within it.
- Mpu.Unit.Load: regions beyond the implemented count are kept like any other, where the hardware is unpredictable.
- ARM_MPU_RASR_EX, ARM_MPU_ACCESS_NORMAL and the MPU enable and disable calls: table rows are arbitrary words.
- HalLock.Handle.Call: the protected work is a first and a last access to the peripheral with interrupts around them, and every call that takes the lock gives it back before it returns. The HAL's DMA interrupt handler instead unlocks a handle that another context locked; that protocol rests on the handle's State field, which is not modelled, and only its effect on exclusion is stated (`ForeignUnlockExact`).
- Clock.System.SystemCoreClockUpdate: requires a nonzero PLLM when the PLL is selected, since the C code divides by it.
- Pending bits set by the interrupt lines themselves, and the vector table and reset calls.
- AdcSequence.Adc.ConfigChannel: sample times and the internal channels' enable bits are not modelled; channels are those the parameter checks accept.
- __ROR, __PKHBT, __PKHTB, __SMMLA: one-line expressions.
- The operating system, network stack, allocator and board drivers, and the remaining HAL headers, which declare constants and prototypes.
