/**
 The CPU fault taxonomy and its `Display` rendering: five variants, three of
 which carry a 32-bit address or instruction word rendered as `0x` followed by
 eight zero-padded lowercase hex digits (Rust's `{:08x}`).

 Besides the renderer, the module defines its inverse on messages, `Parse`,
 and proves the two are mutually inverse, so rendering is injective.
 */
module Faults {
  import opened Wrappers
  import opened Words

  /** A fault raised by the address space or the execution core. */
  datatype Error =
    | MemoryAlign(address: u32)
    | MemoryUnmapped(address: u32)
    | CpuInvalid(instruction: u32)
    | CpuTrap
    | CpuSyscall  // meant to be caught and serviced by a higher layer

  // ---------------------------------------------------------------------
  // Lowercase hexadecimal.
  // ---------------------------------------------------------------------

  predicate IsHexDigit(c: char) {
    '0' <= c <= '9' || 'a' <= c <= 'f'
  }

  predicate IsHexString(s: string) {
    forall i :: 0 <= i < |s| ==> IsHexDigit(s[i])
  }

  /** 16^k. */
  function Pow16(k: nat): (p: nat)
    ensures p >= 1
  {
    if k == 0 then 1 else 16 * Pow16(k - 1)
  }

  /** The lowercase hex digit for a value below 16. */
  function HexDigit(v: nat): (c: char)
    requires v < 16
    ensures IsHexDigit(c)
  {
    if v < 10 then ('0' as int + v) as char else ('a' as int + v - 10) as char
  }

  /** The value of a lowercase hex digit. */
  function HexDigitValue(c: char): (v: nat)
    requires IsHexDigit(c)
    ensures v < 16
  {
    if c <= '9' then c as int - '0' as int else c as int - 'a' as int + 10
  }

  /** `HexDigit` and `HexDigitValue` are inverse to each other, in both directions. */
  lemma HexDigitRoundTrip(v: nat, c: char)
    requires v < 16 && IsHexDigit(c)
    ensures HexDigitValue(HexDigit(v)) == v
    ensures HexDigit(HexDigitValue(c)) == c
  {
  }

  /** Base-16 value of a string of hex digits, most significant first. */
  function HexValue(s: string): (v: nat)
    requires IsHexString(s)
    ensures v < Pow16(|s|)
  {
    if s == [] then 0 else HexValue(s[..|s| - 1]) * 16 + HexDigitValue(s[|s| - 1])
  }

  /** Rust's `{:x}` of a non-negative number: its hex digits with no leading zeros (`"0"` for zero). */
  function LowerHex(x: nat): (s: string)
    ensures |s| >= 1 && IsHexString(s)
    ensures HexValue(s) == x
    ensures x > 0 ==> s[0] != '0'
    ensures x == 0 ==> s == "0"
    decreases x
  {
    if x < 16 then [HexDigit(x)]
    else
      var s := LowerHex(x / 16) + [HexDigit(x % 16)];
      assert s[..|s| - 1] == LowerHex(x / 16);
      HexDigitRoundTrip(x % 16, '0');
      s
  }

  /** A number below 16^k has at most k hex digits. */
  lemma {:induction false} LowerHexLength(x: nat, k: nat)
    requires 1 <= k && x < Pow16(k)
    ensures |LowerHex(x)| <= k
    decreases k
  {
    if x >= 16 {
      LowerHexLength(x / 16, k - 1);
    }
  }

  /** The `0` flag with a width: left-pad with `'0'` up to `width` characters. */
  function ZeroPad(s: string, width: nat): (t: string)
    ensures |t| == if |s| >= width then |s| else width
    ensures t[|t| - |s|..] == s
    ensures forall i :: 0 <= i < |t| - |s| ==> t[i] == '0'
  {
    if |s| >= width then s else seq(width - |s|, _ => '0') + s
  }

  /** Leading zero digits do not change a hex value. */
  lemma {:induction false} HexValueLeadingZeros(z: string, s: string)
    requires forall i :: 0 <= i < |z| ==> z[i] == '0'
    requires IsHexString(s)
    ensures IsHexString(z + s)
    ensures HexValue(z + s) == HexValue(s)
    decreases |s|
  {
    if s == [] {
      assert z + s == z;
      AllZerosValue(z);
    } else {
      var init := s[..|s| - 1];
      assert (z + s)[..|z + s| - 1] == z + init;
      HexValueLeadingZeros(z, init);
    }
  }

  /** A string of `'0'` digits has value 0. */
  lemma {:induction false} AllZerosValue(z: string)
    requires forall i :: 0 <= i < |z| ==> z[i] == '0'
    ensures IsHexString(z) && HexValue(z) == 0
  {
    if z != [] {
      AllZerosValue(z[..|z| - 1]);
    }
  }

  /** Rust's `{:08x}`: lowercase hex, zero-padded to 8 digits. */
  function Hex8(x: u32): (s: string)
    ensures |s| == 8 && IsHexString(s)
    ensures HexValue(s) == x
  {
    var digits := LowerHex(x);
    Pow16Eight();
    LowerHexLength(x, 8);
    var s := ZeroPad(digits, 8);
    assert s == s[..8 - |digits|] + digits;
    HexValueLeadingZeros(s[..8 - |digits|], digits);
    s
  }

  /** Base-16 place value: a number has one way of being written as `q * 16 + d` with `d < 16`. */
  lemma UniqueLastDigit(q1: nat, d1: nat, q2: nat, d2: nat)
    requires d1 < 16 && d2 < 16
    requires q1 * 16 + d1 == q2 * 16 + d2
    ensures q1 == q2 && d1 == d2
  {
  }

  /** Two hex strings of one length with one value are the same string. */
  lemma {:induction false} HexValueInjective(s: string, t: string)
    requires IsHexString(s) && IsHexString(t) && |s| == |t|
    requires HexValue(s) == HexValue(t)
    ensures s == t
  {
    if s != [] {
      var n := |s| - 1;
      UniqueLastDigit(HexValue(s[..n]), HexDigitValue(s[n]), HexValue(t[..n]), HexDigitValue(t[n]));
      HexDigitRoundTrip(HexDigitValue(s[n]), s[n]);
      HexDigitRoundTrip(HexDigitValue(t[n]), t[n]);
      HexValueInjective(s[..n], t[..n]);
      assert s == s[..n] + [s[n]] && t == t[..n] + [t[n]];
    }
  }

  /** Eight hex digits span exactly the 32-bit range. */
  lemma Pow16Eight()
    ensures Pow16(8) == U32_LIMIT
  {
    assert Pow16(4) == 0x1_0000;
  }

  /** Every 8-digit lowercase hex string is the rendering of its value. */
  lemma Hex8OfValue(s: string)
    requires |s| == 8 && IsHexString(s)
    ensures HexValue(s) < U32_LIMIT
    ensures Hex8(HexValue(s)) == s
  {
    Pow16Eight();
    HexValueInjective(Hex8(HexValue(s)), s);
  }

  /** `Hex8` is injective. */
  lemma Hex8Injective(x: u32, y: u32)
    ensures Hex8(x) == Hex8(y) <==> x == y
  {
  }

  // ---------------------------------------------------------------------
  // Messages.
  // ---------------------------------------------------------------------

  const ALIGN_PREFIX: string := "Invalid memory alignment for address 0x"
  const UNMAPPED_PREFIX: string := "Unmapped memory region for address 0x"
  const INVALID_PREFIX: string := "Invalid CPU instruction 0x"
  const TRAP_MESSAGE: string := "CPU Trap was thrown"
  const SYSCALL_MESSAGE: string := "CPU Syscall was not handled"

  /** `m` is `prefix` followed by exactly eight lowercase hex digits. */
  predicate HasHex8(m: string, prefix: string) {
    |m| == |prefix| + 8 && m[..|prefix|] == prefix && IsHexString(m[|prefix|..])
  }

  /** `m` is `prefix` followed by eight lowercase hex digits whose value is `v`. */
  predicate Renders(m: string, prefix: string, v: nat) {
    HasHex8(m, prefix) && HexValue(m[|prefix|..]) == v
  }

  /** A prefix followed by `Hex8(v)` renders `v`. */
  lemma RendersHex8(prefix: string, v: u32)
    ensures Renders(prefix + Hex8(v), prefix, v)
  {
    var m := prefix + Hex8(v);
    assert m[..|prefix|] == prefix && m[|prefix|..] == Hex8(v);
  }

  /** There is exactly one message rendering `v` after `prefix`. */
  lemma RendersUnique(m: string, prefix: string, v: nat)
    requires Renders(m, prefix, v)
    ensures v < U32_LIMIT && m == prefix + Hex8(v)
  {
    var digits := m[|prefix|..];
    Hex8OfValue(digits);
    assert m == m[..|prefix|] + digits;
  }

  /**
   `Display::fmt`: the message text of a fault. The three payload-carrying
   variants render as their fixed prefix, `0x` included, then the payload in
   eight lowercase hex digits; the other two are fixed sentences.
   */
  function Display(e: Error): (m: string)
    ensures e.MemoryAlign? ==> Renders(m, ALIGN_PREFIX, e.address)
    ensures e.MemoryUnmapped? ==> Renders(m, UNMAPPED_PREFIX, e.address)
    ensures e.CpuInvalid? ==> Renders(m, INVALID_PREFIX, e.instruction)
    ensures e.CpuTrap? ==> m == TRAP_MESSAGE
    ensures e.CpuSyscall? ==> m == SYSCALL_MESSAGE
  {
    match e
    case MemoryAlign(address) =>
      RendersHex8(ALIGN_PREFIX, address);
      ALIGN_PREFIX + Hex8(address)
    case MemoryUnmapped(address) =>
      RendersHex8(UNMAPPED_PREFIX, address);
      UNMAPPED_PREFIX + Hex8(address)
    case CpuInvalid(instruction) =>
      RendersHex8(INVALID_PREFIX, instruction);
      INVALID_PREFIX + Hex8(instruction)
    case CpuTrap => TRAP_MESSAGE
    case CpuSyscall => SYSCALL_MESSAGE
  }

  /** The value rendered after `prefix` in `m`, when `m` has that shape. */
  function StripHex8(m: string, prefix: string): (r: Option<u32>)
    ensures r.Some? <==> HasHex8(m, prefix)
    ensures r.Some? ==> Renders(m, prefix, r.value)
  {
    if HasHex8(m, prefix) then
      var digits := m[|prefix|..];
      Pow16Eight();
      Some(HexValue(digits))
    else
      None
  }

  /** Recovers the fault a message was rendered from; `None` for any other text. */
  function Parse(m: string): (r: Option<Error>)
    ensures r.Some? <==>
      || m == TRAP_MESSAGE || m == SYSCALL_MESSAGE
      || HasHex8(m, ALIGN_PREFIX) || HasHex8(m, UNMAPPED_PREFIX) || HasHex8(m, INVALID_PREFIX)
  {
    if m == TRAP_MESSAGE then Some(CpuTrap)
    else if m == SYSCALL_MESSAGE then Some(CpuSyscall)
    else
      match StripHex8(m, ALIGN_PREFIX)
      case Some(a) => Some(MemoryAlign(a))
      case None =>
        match StripHex8(m, UNMAPPED_PREFIX)
        case Some(a) => Some(MemoryUnmapped(a))
        case None =>
          match StripHex8(m, INVALID_PREFIX)
          case Some(w) => Some(CpuInvalid(w))
          case None => None
  }

  /** Whatever `Parse` recovers renders back to the very same message. */
  lemma DisplayParse(m: string)
    ensures Parse(m).Some? ==> Display(Parse(m).value) == m
  {
    match Parse(m)
    case None =>
    case Some(e) =>
      match e
      case MemoryAlign(a) => RendersUnique(m, ALIGN_PREFIX, a);
      case MemoryUnmapped(a) => RendersUnique(m, UNMAPPED_PREFIX, a);
      case CpuInvalid(w) => RendersUnique(m, INVALID_PREFIX, w);
      case CpuTrap =>
      case CpuSyscall =>
  }

  /** Every fault is recovered from its message. */
  lemma ParseDisplay(e: Error)
    ensures Parse(Display(e)) == Some(e)
  {
    // The five messages have pairwise distinct lengths: 47, 45, 34, 19 and 27.
  }

  /** Distinct faults render as distinct messages. */
  lemma DisplayInjective(e1: Error, e2: Error)
    ensures Display(e1) == Display(e2) <==> e1 == e2
  {
    ParseDisplay(e1);
    ParseDisplay(e2);
  }

  /** Equality of faults is structural: same variant and same payload. */
  lemma ErrorEquality(e1: Error, e2: Error)
    ensures e1 == e2 <==>
      || (e1.MemoryAlign? && e2.MemoryAlign? && e1.address == e2.address)
      || (e1.MemoryUnmapped? && e2.MemoryUnmapped? && e1.address == e2.address)
      || (e1.CpuInvalid? && e2.CpuInvalid? && e1.instruction == e2.instruction)
      || (e1.CpuTrap? && e2.CpuTrap?)
      || (e1.CpuSyscall? && e2.CpuSyscall?)
  {
  }

  /** A concrete rendering: a small address is zero-padded to eight digits. */
  lemma DisplayZeroPadded()
    ensures Display(MemoryUnmapped(0x1f)) == "Unmapped memory region for address 0x0000001f"
  {
    assert LowerHex(0x1f) == "1f";
    assert Hex8(0x1f) == "0000001f";
  }
}
