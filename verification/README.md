# cargo-dfu in Dafny

`cargo dfu` builds an embedded Rust project with `cargo build`. It then waits for a
microcontroller in DFU bootloader mode to appear on the USB bus. It converts the built
ELF executable into a flat binary image and downloads that image to the device over
USB DFU.

This project models the core of that command and proves properties of the model:

- **ELF to flat binary** (`ElfImage`, elf.dfy; `elf_to_bin`).
  - The converter keeps only loadable, non-empty, readable program headers whose file
    offset lies past the ELF header.
  - It lays their file bytes out in a growing buffer and fills each address gap with
    zero bytes.
  - It returns the buffer and the first segment's physical address. That address must
    fit in 32 bits.
  - The loop is an imperative method. It is proved against the reference layout `Layout`.
  - Lemmas about `Layout` give the output length, where each segment lands, that the
    gaps are zero, and that contiguous segments get no padding.
- **Chip table** (`ChipTable`, chips.dfy; `vendor_map`). This is the constant map from
  a chip family to the (vendor id, product id) pairs its bootloader uses.
- **Device search** (`DeviceSearch`, device_search.dfy; `find_device`).
  - There are three strategies:
    - an explicit id pair;
    - the pairs of a named chip, where the first pair that opens wins;
    - any known pair among the enumerated devices, where the last match wins because
      the `break` only leaves the inner loop.
  - The search runs inside a fixed-delay retry.
  - USB is an oracle indexed by the attempt number.
  - The retry is an explicit loop that records the sleeps it makes.
- **Flashing** (`Flash`, flash.dfy; `flash_bin` and the classification of its result
  in `main`). The DFU library is an oracle.
- **Command-line helpers** (`Cli`, cli.dfy).
  - `parse_hex_16` is modelled with the `u16::from_str_radix` it calls. A lowercase `0x`
    prefix selects base 16; anything else is base 10. Empty, invalid-digit and overflow
    errors are all modelled.
  - The removal of `--pid`, `--vid` and `--chip` and their values from the arguments
    passed to `cargo build`. When a flag's first occurrence is the last argument, the
    second `remove` panics; the model returns `None` for that case.
- **The command** (`CargoDfu`, main_flow.dfy; `main`).
  - A run is a sequence of observable events (listing lines, the build, sleeps, the
    flash call, the error report, "Finished") followed by how the process ends: return,
    `exit(code)` or panic.
  - `Run` is proved equal to the reference `Expected`. Lemmas about `Expected` state:
    - the `--list-chips` early return;
    - exit with the build's status when the build fails;
    - exit 101 when no device is found;
    - only the image bytes are flashed, and the start address is dropped;
    - a flash error never aborts the run.

Everything outside the core is a parameter: the USB bus, the DFU transport, the outcome of
`cargo build`, and the parsed ELF file.

Because the `break` at src/utils.rs:129 leaves only the loop over the table, the
any-known-pair search returns the last known device that opens
(`DeviceSearch.LastKnownOpenedIsLast`). `DeviceSearch.AnyKnownYieldsLastMatch` shows this on
two attached devices.

## Model

| member | source | states |
|---|---|---|
| ElfImage.ElfToBin | src/utils.rs:19-62 | With no qualifying header the result is `Ok(([], 0))`. The result is `Ok` exactly when the first selected segment's address fits in 32 bits. It is then the flat layout of the selected segments and that address. Otherwise it is `Err(Elf(Malformed))`, never a truncated address. |
| ElfImage.ImageStep | src/utils.rs:41-54 | One loop iteration extends the image of the first `i` segments by the zero gap after the previous segment's end, then by the segment's file bytes. The first segment gets no gap. |
| ElfImage.SelectedMembers | src/utils.rs:30-39 | A header is selected iff it is in the table and satisfies all four conditions: `PT_LOAD`, non-empty, offset at or after `e_ehsize`, readable. |
| ElfImage.ExcludedHeaderIsIgnored | src/utils.rs:30-39 | Inserting a non-qualifying header anywhere in the table leaves the selection unchanged. So it affects neither the bytes, nor the gaps, nor the start address. |
| ElfImage.LayoutLength | src/utils.rs:47-54 | The output length is the last segment's `paddr + filesz` minus the start address. |
| ElfImage.LayoutPlacesSegment | src/utils.rs:47-54 | Each segment's bytes `file[offset .. offset+filesz]` appear at output offset `paddr - start`. |
| ElfImage.LayoutGapIsZero | src/utils.rs:47-50 | Every output byte between the end of one segment and the start of the next is 0. |
| ElfImage.LayoutContiguous | src/utils.rs:47-54 | When each segment starts where the previous one ends, the output is the plain concatenation of the segments' bytes. |
| ChipTable.VendorMap | src/utils.rs:78-83 | The map has exactly the keys `"stm32"` and `"gd32vf103"`, mapped to their pair lists. |
| ChipTable.Lookup | src/utils.rs:98-100 | Lookup succeeds exactly for the two table keys. `"stm32"` gives `[(0x0483,0xdf11)]` and `"gd32vf103"` gives `[(0x28e9,0x0189)]`. |
| ChipTable.KnownPairs | src/utils.rs:125-126 | A pair is listed by some table entry iff it is `(0x0483,0xdf11)` or `(0x28e9,0x0189)`. |
| ChipTable.LookupIsCaseSensitive | src/utils.rs:100 | Keys are matched exactly: `"STM32"` and `"GD32VF103"` are not found. |
| DeviceSearch.CriteriaOf | src/utils.rs:91-110 | The explicit branch runs iff both vid and pid are given. Otherwise the chip branch runs iff a chip is given. Otherwise the any-known branch runs. |
| DeviceSearch.LoneIdIgnored | src/utils.rs:91-93 | A lone vid or pid selects the same strategy as giving neither. |
| DeviceSearch.FirstOpened | src/utils.rs:101-106 | The chip branch finds nothing iff none of the chip's pairs opens. |
| DeviceSearch.FirstOpenedIsFirst | src/utils.rs:101-106 | The handle found is one a listed pair opened, and every pair listed before it failed to open. |
| DeviceSearch.LastKnownOpened | src/utils.rs:124-133 | The any-known branch finds nothing iff no enumerated device is both in the table and opens. |
| DeviceSearch.LastKnownOpenedIsLast | src/utils.rs:124-135 | The handle found is that of a known device that opened, and no known device enumerated after it opened. The last match wins. |
| DeviceSearch.UnknownChipNeverFound | src/utils.rs:96-109 | A chip name not in the table yields the retryable "no device found" on every attempt, never an abort. |
| DeviceSearch.ProbeChip | src/utils.rs:93-109 | The chip loop with its `break` returns the first opening pair of the chip's list, or nothing for an unknown chip. |
| DeviceSearch.MatchTable | src/utils.rs:125-131 | The inner loop over the table yields the device's handle iff the device is known and opens. Otherwise it yields nothing, and the current result is kept. |
| DeviceSearch.ProbeAny | src/utils.rs:110-136 | A failed enumeration is an abort. Otherwise the result is the last known device that opened, or "no device found". |
| DeviceSearch.ProbeOnce | src/utils.rs:90-136 | One attempt of the retried closure returns what the selected strategy yields for that attempt. |
| DeviceSearch.FirstAnswer | src/utils.rs:86-89 | Gives the first attempt up to `retries` whose probe is not "no device found", with all earlier probes empty. It gives none iff every probe is empty. |
| DeviceSearch.DefaultSearchWaitsThirtySeconds | src/main.rs:188-191 | With no search flag, the any-known strategy runs, and the search waits at most the default 60 delays of 500 ms, 30 s in total. |
| DeviceSearch.NotFoundIffAllProbesEmpty | src/utils.rs:89-138 | The search returns `None` iff all `retries + 1` probes find nothing. It then slept exactly `retries` times. |
| DeviceSearch.FindDevice | src/utils.rs:85-139 | At most `retries` sleeps, each of `delay` ms. Every probe before the last was empty. The result is the last probe's handle, its abort, or `NotFound` once the delays run out. No further probe or sleep follows a success. |
| DeviceSearch.ProbeSatisfiesCriteria | src/utils.rs:91-136 | If the USB oracle opens only the requested ids, a selected device has the explicit pair, one of the named chip's pairs, or some table pair, depending on the strategy. |
| DeviceSearch.AnyKnownYieldsLastMatch | src/utils.rs:124-135 | With an STM32 and a GD32VF103 bootloader attached and both opening, the any-known search yields the second one enumerated. |
| Flash.SessionFor | src/utils.rs:64-71 | The DFU session uses the device's vendor and product ids, interface 0 and alternate setting 0. |
| Flash.FlashBin | src/utils.rs:64-76 | The result is `Ok` iff opening the session and downloading the whole binary both succeed. The first failure is returned as `UtilError::Dfu`, and the download is skipped when opening fails. |
| Flash.Classify | src/main.rs:119-125 | `Ok` reports nothing. `Err(Dfu(LibUsb(NoDevice)))`, and only that error, is silently ignored. Every other error is reported unchanged. |
| Flash.OnlyDisconnectIsIgnored | src/main.rs:119-123 | An ignored flash result comes from `NoDevice` in the open step or in the download step. |
| Cli.Accumulate | src/main.rs:149-154 | A failure of the digit loop is never `Empty`. |
| Cli.AccumulateValue | src/main.rs:149-154 | The digit loop succeeds iff every character is a digit of the radix and the numeral's value is at most 65535. It then returns that value. |
| Cli.FromStrRadix | src/main.rs:150-152 | `Empty` iff the input is empty. A lone `+` or `-` is `InvalidDigit`. |
| Cli.FromStrRadixValue | src/main.rs:150-152 | Parsing yields `v` iff the input, after one optional `+`, is a non-empty numeral denoting `v` and `v <= 65535`. |
| Cli.ParseHex16 | src/main.rs:149-154 | `Empty` iff the input is `""` or `"0x"`. |
| Cli.ParseHex16Value | src/main.rs:149-154 | The result is `v` iff either the input is lowercase `0x` followed by a hexadecimal numeral for `v`, or, without that prefix, a decimal numeral for `v`. In both cases `v <= 65535`. |
| Cli.ParseHex16Examples | src/main.rs:149-154 | `"0x1f"` gives 31, `"0xDF11"` gives 0xdf11, `"1155"` gives 1155. `"0X10"` and `"-1"` give `InvalidDigit`, and `"65536"` gives `PosOverflow`. |
| Cli.Position | src/main.rs:65 | Gives the index of the first occurrence of the flag, with no occurrence before it. It gives none iff the flag is absent. |
| Cli.RemoveFlag | src/main.rs:64-68 | An absent flag leaves the arguments unchanged. A found flag shortens them by two. The round panics iff the flag's first occurrence is the last argument. |
| Cli.RemoveFlagTakesPairOnly | src/main.rs:65-68 | Exactly the flag's first occurrence and the element after it are removed, as a multiset. All other elements keep their relative order. |
| Cli.RemoveFlagShrinks | src/main.rs:65-68 | A round removes nothing or exactly two elements, and adds none. |
| Cli.LaterOccurrenceKept | src/main.rs:65-68 | An occurrence of the flag other than the first, and not the value right after it, stays in the arguments. |
| Cli.PanicIsFinal | src/main.rs:66-67 | Once a round has panicked, no later round produces arguments. |
| Cli.StripOne | src/main.rs:65-68 | One loop body, `position` then two `remove`s, computes `RemoveFlag`, including the panic. |
| Cli.StripFlags | src/main.rs:63-69 | The loop over the flags, in the order given, composes one round per flag and stops at a panic. |
| Cli.NoFlagsUnchanged | src/main.rs:63-69 | Arguments without any of the flags are handed on unchanged. |
| Cli.StripOnlyRemoves | src/main.rs:63-69 | The stripped arguments are a sub-multiset of the originals, shorter by at most two per flag. |
| Cli.StripExamples | src/main.rs:63-69 | `--chip stm32 --release --delay 100` becomes `--release --delay 100`. `--release --pid` panics. |
| CargoDfu.Listing | src/main.rs:21-23 | The listing has one line per table entry, carrying the entry's name. |
| CargoDfu.ListChips | src/main.rs:20-25 | The listing loop prints exactly the listing. |
| CargoDfu.ListingNamesEachChipOnce | src/main.rs:20-24 | The listed names are exactly the keys of `vendor_map()`, each printed once, stated as a set. |
| CargoDfu.ListChipsReturnsEarly | src/main.rs:20-25 | With `--list-chips` the run is the listing and a return. There is no build, search or flash. |
| CargoDfu.FlashDevice | src/main.rs:108-133 | After a device is found, a missing or malformed artifact panics. Otherwise the run flashes the image, reports a non-ignored error, prints "Finished" and returns. |
| CargoDfu.SearchAndFlash | src/main.rs:85-133 | After the build, the run sleeps as the search did. It then exits 101 when nothing is found, panics on an aborted enumeration, or flashes the found device. |
| CargoDfu.Run | src/main.rs:12-134 | `main` produces exactly the events and the exit of the reference run `Expected`. |
| CargoDfu.BuildFailureExitsWithStatus | src/main.rs:71-83 | A failed build ends the run with the build's own status, before any search. |
| CargoDfu.BuildSeesStrippedArguments | src/main.rs:59-79 | `cargo build` receives the arguments with the tool's flags stripped. A panic in stripping ends the run before the build. |
| CargoDfu.NoDeviceExits101 | src/main.rs:91-97 | When every probe is empty, the run sleeps `retries` times and exits with 101. Nothing is converted or flashed. |
| CargoDfu.FlashedBinaryIsLayout | src/main.rs:110-119 | What is flashed is the flat layout of the selected segments. The start address is only checked and then dropped. The device flashed is the one opened by the probe after the last sleep. |
| CargoDfu.FlashErrorDoesNotAbort | src/main.rs:119-133 | After the flash call, the run prints the error only when it is reported, then prints "Finished" and returns. |

## Left out

- Reading the artifact and parsing the ELF with goblin (src/utils.rs:20-24): the parsed
  header size, file bytes and program headers are an input record. A read or parse
  failure is an input `Err`, which `main` turns into a panic with `unwrap`.
- Which artifact and profile `cargo_project` selects, and its path lookup
  (src/main.rs:27-56): they are process and file-system plumbing. The run is given the
  parsed artifact directly.
- ElfImage.ElfToBin: requires the selected segments to be in increasing,
  non-overlapping address order, to lie inside the file, and to end below 2^64. Out of
  order, the `u64` subtraction underflows; a range outside the file makes the slice
  panic; an end past 2^64 overflows. Those panics and wrap-arounds are not modelled.
- CargoDfu.Run: carries the same condition on the parsed artifact
  (`env.artifact.Ok? ==> Convertible(...)`), and so do `Expected`, `FlashDevice`,
  `SearchAndFlash` and every `CargoDfu` lemma, including runs that never convert the
  artifact (`--list-chips`, a failed build, no device found). Runs on an artifact whose
  selected segments are out of order, outside the file or end past 2^64 are not modelled.
- Spawning `cargo build` and the two `unwrap`s on spawning and waiting for it
  (src/main.rs:71-79): the build is a function from arguments to the exit status that
  `exit_with_process_status` would use, 0 meaning success.
- The `retry` crate is not part of this model. The loop follows its published
  behaviour: one probe without delay, then one sleep and one probe per delay of
  `take(retries)`, and the first successful probe ends it. Sleeps are recorded as
  events; no clock is modelled.
- USB and DFU I/O (`open_device_with_vid_pid`, `rusb::devices()`, `DfuLibusb::open`,
  `download_from_slice`): these are oracles. An opened device's handle is one value,
  and its descriptor ids are fields of it. Whether a device opens may change from one
  attempt to the next, but not within one attempt.
- The `unwrap`s on device descriptors and on `rusb::Context::new()`
  (src/utils.rs:66-68, 119; src/main.rs:102-105): reading descriptors and strings is
  I/O. Those panics are not modelled.
- `HashMap` iteration order of `vendor_map()`: the table fixes declaration order. The
  listing property is stated as a set with a count, and membership in the table does
  not depend on order.
- Argument parsing by clap (src/main.rs:156-192): the options are a record. Of the
  build flags, only `--bin`/`--example` (src/main.rs:31-37), `--release` (40-44) and
  `--target` (51-53) feed the artifact path, which is not modelled. `main` never reads
  `--package`, `--manifest-path` or the feature flags, and `Project::query(".")`
  (src/main.rs:28) ignores `--manifest-path`. Every build flag reaches `cargo build`
  only through the raw arguments, and those are modelled by `Cli.StripFlags`. Flags are
  matched as whole arguments, as the source does; `--pid=...` is not recognised.
- Console output: colours, the "Searching", "Looping" and "Found" lines (including the
  `retries * delay` product printed there), the logger, and the elapsed time printed
  with `f32` (src/main.rs:85-90, 99-108, 112-133). These are output and floating point.
  Only the events listed in `CargoDfu.Event` are modelled.
- `retries` (`usize` in the source) is an unbounded `nat`; `delay` keeps its `u64`
  range. The product `opt.retries as u64 * opt.delay` computed for the "Looping" line (src/main.rs:88) is
  not modelled: in a release build it wraps and is only printed, but in a debug build an
  overflow there panics before the search starts, and the model does not capture that panic.
