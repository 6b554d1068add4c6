# titan core: register operands, CPU faults, ELF bootstrap

A Dafny model of three small pieces of the titan MIPS emulator and assembler,
with proofs about them.

- **Register operands** (`registers.dfy`, module `Registers`). This covers the
  32 register slots and their discriminants. It also covers the derived
  `from_u32`, the `"$name"` lookup table `from_string`, and the nom-based
  operand parser `register`. The parser's combinators are written out as
  functions on strings: `char`, `alpha1`, `digit1`, `map_opt`, `alt` and
  `preceded`. `u32::from_str` on a digit run is written out too.
- **CPU faults** (`faults.dfy`, module `Faults`). This covers the five-variant
  `Error` enum and its `Display` text, including the `{:08x}` rendering of
  addresses and instruction words. An inverse, `Parse`, is defined on
  messages. The proofs show that rendering and parsing are mutually inverse,
  so distinct faults give distinct messages.
- **ELF bootstrap** (`setup.dfy`, module `Setup`). This covers
  `create_simple_state`:
  - one memory region is mounted per program header, in order;
  - then a zero-filled heap is mounted, ending at `0x7FFFFFFC`;
  - the program counter is the entry point;
  - register 29 (`$sp`) holds the heap end.

`wrappers.dfy` holds `Option`. `words.dfy` holds the `u32` and `u8` ranges.

The most notable fact is that the operand parser, as written, never accepts a
symbolic register name. `preceded(char('$'), …)` consumes the sigil before
`register_named` runs. But every key of `from_string` still starts with `$`,
and `alpha1` cannot return a `$`. So only `$<decimal digits>` operands parse.
The code itself shows that names were meant to parse:
- `register` tries `register_named` first, inside `alt((register_named, register_numbered))` (`src/assembler/registers.rs:99-102`);
- the table at `src/assembler/registers.rs:49-80` lists every symbolic name.

See "Findings" for both the as-written behaviour and the corrected behaviour.

## Model

| member | source | states |
|---|---|---|
| Registers.Index | src/assembler/registers.rs:10-44 | each slot's discriminant is below 32 |
| Registers.FromU32 | src/assembler/registers.rs:94 | `from_u32(n)` is Some exactly when n < 32, and the slot it returns has discriminant n |
| Registers.FromU32Index | src/assembler/registers.rs:10-44 | every slot is recovered from its own discriminant (from_u32 inverts the discriminant) |
| Registers.IndexInjective | src/assembler/registers.rs:10-44 | two slots have the same discriminant if and only if they are the same slot |
| Registers.FromString | src/assembler/registers.rs:47-84 | `from_string` is an exact lookup in the `$`-keyed table. It has no contract of its own; its meaning is stated by FromStringExactly and FromStringSound |
| Registers.NameHasSigil | src/assembler/registers.rs:49-80 | every key of the name table starts with `$` and has at least two more characters |
| Registers.NameBodyIsAlphanumeric | src/assembler/registers.rs:49-80 | after the sigil, every key is a letter followed by letters and digits |
| Registers.FromStringName | src/assembler/registers.rs:47-84 | looking up a slot's key gives that slot |
| Registers.FromStringSound | src/assembler/registers.rs:47-84 | any string the lookup accepts is the key of the slot it returns |
| Registers.FromStringExactly | src/assembler/registers.rs:47-84 | the lookup returns `slot` if and only if the input is that slot's key; every other string, including names without `$`, gives None |
| Registers.TakeWhile1 | src/assembler/registers.rs:88 | the shared core of `alpha1`/`digit1`: fails if and only if the input is empty or does not start with a matching character; otherwise it splits the input into a non-empty matching run and a rest that does not start with a matching character |
| Registers.Alpha1 | src/assembler/registers.rs:88 | `alpha1` fails if and only if the input is empty or does not start with an ASCII letter; otherwise it splits off the maximal non-empty run of letters |
| Registers.Digit1 | src/assembler/registers.rs:92 | `digit1` fails if and only if the input is empty or does not start with an ASCII digit; otherwise it splits off the maximal non-empty run of digits |
| Registers.Char | src/assembler/registers.rs:99 | `char('$')` succeeds if and only if the input starts with `$`, and consumes exactly that character |
| Registers.ParseU32 | src/assembler/registers.rs:93 | `u32::from_str` on a non-empty digit run (all `digit1` hands it) is Some if and only if the decimal value is below 2^32, and is then that value |
| Registers.RegisterNamed | src/assembler/registers.rs:87-89 | on success, what remains is what `alpha1` left |
| Registers.RegisterNumbered | src/assembler/registers.rs:91-96 | on success, what remains is what `digit1` left |
| Registers.Register | src/assembler/registers.rs:98-103 | on success, the remainder is a suffix of the input that is at least two characters shorter (sigil plus a token) |
| Registers.RegisterNamedNeverSucceeds | src/assembler/registers.rs:87-89 | the named branch fails on every input, because `alpha1` never returns a `$`-prefixed key |
| Registers.RegisterIsNumbered | src/assembler/registers.rs:98-103 | `register(input)` equals: the sigil, then `register_numbered` on the rest; otherwise None |
| Registers.SpanOfRun | src/assembler/registers.rs:92 | a maximal run of matching characters followed by a non-matching rest is matched exactly |
| Registers.TakeWhile1Splits | src/assembler/registers.rs:92 | `alpha1`/`digit1` split a run followed by a non-matching rest exactly at the run's end |
| Registers.Digit1Splits | src/assembler/registers.rs:92 | `digit1` splits a digit run followed by a non-digit rest exactly at the run's end |
| Registers.RegisterNumberedDigits | src/assembler/registers.rs:91-96 | `register_numbered(d + rest)` succeeds if and only if `d` is non-empty with value at most 31; it then gives the slot with that discriminant and leaves `rest` |
| Registers.RegisterDigits | src/assembler/registers.rs:98-103 | `register("$" + d + rest)` succeeds if and only if the digit run `d` is non-empty with value below 32; it then gives slot number `d` and leaves `rest` |
| Registers.RegisterNeedsSigilAndDigit | src/assembler/registers.rs:98-103 | input that is not `$` followed by a digit is rejected |
| Registers.RegisterRejectsNames | src/assembler/registers.rs:98-103 | `$` followed by letters (e.g. `$sp`) is rejected |
| Registers.RegisterLeadingZeros | src/assembler/registers.rs:91-96 | leading zeros are accepted: `$007` is `$a3` (slot 7) |
| Registers.RegisterLeavesRemainder | src/assembler/registers.rs:98-103 | `$29` followed by non-digit text is the stack pointer and leaves that text |
| Registers.RegisterRejectsLongRun | src/assembler/registers.rs:92-94 | the digit run is taken whole with no backtracking: `$123` is rejected, not read as `$1` or `$12` |
| Registers.RegisterRejectsThirtyTwo | src/assembler/registers.rs:94 | `$32`, one past the last discriminant, is rejected |
| Registers.RegisterRejectsEveryName | src/assembler/registers.rs:87-89 | no key of the name table parses, whatever follows it |
| Registers.RegisterCorrected | src/assembler/registers.rs:98-103 | the corrected parser keeps the as-written guarantee: on success the remainder is a suffix that is at least two characters shorter |
| Registers.RegisterCorrectedReadsKey | src/assembler/registers.rs:87-89 | with the corrected named branch, a `$`-key of the table followed by a non-alphanumeric rest parses as its slot |
| Registers.RegisterCorrectedReadsNames | src/assembler/registers.rs:47-89 | with the corrected named branch, every slot's key parses as that slot and leaves what follows |
| Registers.NoNameStartsWithDigit | src/assembler/registers.rs:49-80 | no key has a digit right after the sigil, so the two branches never compete |
| Registers.RegisterCorrectedDigits | src/assembler/registers.rs:91-103 | on `$` followed by digits, the corrected parser agrees with the as-written one |
| Registers.RegisterCorrectedNameAndIndexAgree | src/assembler/registers.rs:47-103 | with the correction, a slot's name and its decimal discriminant both parse to that slot |
| Faults.HexDigitRoundTrip | src/cpu/error.rs:16 | the digit-to-character map for hex and its inverse round-trip both ways |
| Faults.LowerHex | src/cpu/error.rs:16 | `{:x}` gives lowercase hex digits whose base-16 value is the number, with no leading zero; zero is exactly `"0"` |
| Faults.LowerHexLength | src/cpu/error.rs:16 | a number below 16^k has at most k hex digits |
| Faults.ZeroPad | src/cpu/error.rs:16 | the `0` fill with a width keeps the digits as a suffix and pads with `'0'` up to the width |
| Faults.HexValueLeadingZeros | src/cpu/error.rs:16 | leading zero digits do not change the value |
| Faults.Hex8 | src/cpu/error.rs:16 | `{:08x}` of a u32 is exactly eight lowercase hex digits whose value is the number |
| Faults.HexValueInjective | src/cpu/error.rs:16 | two hex strings of equal length with equal value are equal |
| Faults.Hex8OfValue | src/cpu/error.rs:16 | every eight-digit lowercase hex string is the `{:08x}` of its value |
| Faults.Hex8Injective | src/cpu/error.rs:16 | `{:08x}` renders distinct u32 values distinctly |
| Faults.RendersUnique | src/cpu/error.rs:15-22 | exactly one message shows value v after a given prefix |
| Faults.Display | src/cpu/error.rs:13-27 | each payload variant shows its fixed prefix (ending in `0x`) and then eight hex digits of the payload; trap and syscall show their fixed sentences |
| Faults.StripHex8 | src/cpu/error.rs:15-22 | the payload is recovered exactly when the message is the prefix followed by eight hex digits |
| Faults.Parse | src/cpu/error.rs:13-27 | the inverse of `fmt` accepts exactly the five message shapes |
| Faults.DisplayParse | src/cpu/error.rs:13-27 | every message that parses is the rendering of the fault it parses to |
| Faults.ParseDisplay | src/cpu/error.rs:13-27 | every fault is recovered from its message |
| Faults.DisplayInjective | src/cpu/error.rs:3-27 | two faults have the same message if and only if they are equal (the derived `PartialEq`) |
| Faults.ErrorEquality | src/cpu/error.rs:3-10 | derived equality is structural: same variant and same payload |
| Faults.DisplayZeroPadded | src/cpu/error.rs:18-19 | `MemoryUnmapped(0x1f)` renders with the address padded to `0000001f` |
| Setup.NewMemory | src/debug/elf/setup.rs:8 | `Memory::new()` starts with no region mounted |
| Setup.Mount | src/debug/elf/setup.rs:16 | mounting adds the region after every earlier region and leaves those unchanged |
| Setup.SegmentRegion | src/debug/elf/setup.rs:11-14 | a segment's region starts at the header's virtual address and holds a copy of its data |
| Setup.MountSegments | src/debug/elf/setup.rs:10-17 | the loop mounts one region per header, in header order, after the regions already present |
| Setup.HeapRegion | src/debug/elf/setup.rs:19-24 | the heap starts at `0x7FFFFFFC - heap_size`, holds `heap_size` bytes, so it ends exactly at `0x7FFFFFFC`, and every byte is zero |
| Setup.HeapRegionUnique | src/debug/elf/setup.rs:19-24 | the heap is the only region of `heap_size` zero bytes ending at `0x7FFFFFFC` |
| Setup.CreateSimpleState | src/debug/elf/setup.rs:7-32 | the regions are the segments in order, then a heap of `heap_size` zero bytes starting at `0x7FFFFFFC - heap_size`; the program counter is the entry point; register 29 holds the heap end; the other registers are untouched |
| Setup.CreateSimpleStateRegions | src/debug/elf/setup.rs:8-26 | the state's memory equals, as an independent definition, the list of segment regions followed by the heap |
| Setup.StackPointerIsRegister29 | src/debug/elf/setup.rs:29 | register 29 is the `$sp` slot, and it holds the heap end |
| Setup.HeapIsLastRegion | src/debug/elf/setup.rs:19-26 | the last mounted region is the heap, with `heap_size` bytes, ending at `0x7FFFFFFC` |
| Setup.SmallHeapLayout | src/debug/elf/setup.rs:5 | with `SMALL_HEAP_SIZE` (64 KiB) the heap covers `[0x7FFEFFFC, 0x7FFFFFFC)` |

## Left out

- `Memory`, `Region`, `State` and `State::new` live in `src/cpu`, which is not part of this model. Memory is a list of regions in mount order. The model does not cover:
  - region overlap checks;
  - address translation;
  - reads and writes.
- `Setup.NewState`: the register file that `State::new` starts from is taken to be all zero. The proofs use only its length and the fact that entry and memory pass through unchanged. The other registers are stated as "equal to `State::new`'s".
- `Setup.CreateSimpleState`: requires `heapSize <= 0x7FFFFFFC`. Above that, `heap_end - heap_size` on `u32` panics in a debug build and wraps in a release build; neither behaviour is modelled.
- The ELF parser that produces `Elf` is not part of this model. An ELF image is reduced to its entry point and, per program header, a virtual address and data.
- The `heap_size as usize` conversion is the identity, because usize is at least 32 bits on supported targets.
- nom's error values are not modelled: which `ErrorKind`, and which position. A failed parse is `None`, and a successful one is the value plus the remaining input.
- `Formatter`, `write!` and `fmt::Result` are not modelled. `Display` returns the message string, and a formatter write error cannot occur in the model.
- The empty `std::error::Error` impl and the `Result<T>` alias (`src/cpu/error.rs:30-32`) carry no behaviour.
- `Clone`, `Copy`, `Debug` and `ToPrimitive` derives are not modelled. Derived `PartialEq` is Dafny's structural equality.
- The character classes are ASCII, as in nom's `alpha1`/`digit1` on `&str`.

## Findings

| source | as written | input that shows it | evidently intended | confidence | as-written member | corrected member |
|---|---|---|---|---|---|---|
| src/assembler/registers.rs:87-89 | `register` strips `$`, then `register_named` looks the `alpha1` run up in a table whose keys all start with `$`. `alpha1` also stops at the digit in names like `t0`. | `$sp` (also `$zero`, `$t0`, `$ra`) is rejected | a symbolic register name parses as its slot, like its numeric discriminant | high (not executed) | Registers.RegisterRejectsEveryName | Registers.RegisterCorrectedNameAndIndexAgree |
