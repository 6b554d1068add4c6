/**
 Register operands of the assembler: the 32 register slots, their numeric
 discriminants, the `"$name"` lookup table, and the `register` operand parser
 with its `alpha1` / `digit1` / `char` / `map_opt` / `alt` / `preceded`
 combinators written out as functions on strings.

 The parser strips the `$` sigil before the named branch looks the alphabetic
 run up, while every key of the name table still carries the sigil, so the
 named branch never succeeds: only `$<decimal digits>` operands parse.
 */
module Registers {
  import opened Wrappers
  import opened Words

  /** The 32 general-purpose register slots, in discriminant order. */
  datatype RegisterSlot =
    | Zero | AssemblerTemporary | Value0 | Value1
    | Parameter0 | Parameter1 | Parameter2 | Parameter3
    | Temporary0 | Temporary1 | Temporary2 | Temporary3
    | Temporary4 | Temporary5 | Temporary6 | Temporary7
    | Saved0 | Saved1 | Saved2 | Saved3
    | Saved4 | Saved5 | Saved6 | Saved7
    | Temporary8 | Temporary9 | Kernel0 | Kernel1
    | GeneralPointer | StackPointer | FramePointer | ReturnAddress

  /** Number of register slots. */
  const SLOT_COUNT: nat := 32

  /** The enum discriminant of a slot. */
  function Index(slot: RegisterSlot): (n: nat)
    ensures n < SLOT_COUNT
  {
    match slot
    case Zero => 0
    case AssemblerTemporary => 1
    case Value0 => 2
    case Value1 => 3
    case Parameter0 => 4
    case Parameter1 => 5
    case Parameter2 => 6
    case Parameter3 => 7
    case Temporary0 => 8
    case Temporary1 => 9
    case Temporary2 => 10
    case Temporary3 => 11
    case Temporary4 => 12
    case Temporary5 => 13
    case Temporary6 => 14
    case Temporary7 => 15
    case Saved0 => 16
    case Saved1 => 17
    case Saved2 => 18
    case Saved3 => 19
    case Saved4 => 20
    case Saved5 => 21
    case Saved6 => 22
    case Saved7 => 23
    case Temporary8 => 24
    case Temporary9 => 25
    case Kernel0 => 26
    case Kernel1 => 27
    case GeneralPointer => 28
    case StackPointer => 29
    case FramePointer => 30
    case ReturnAddress => 31
  }

  /** All slots, listed in discriminant order. */
  const SLOTS: seq<RegisterSlot> := [
    Zero, AssemblerTemporary, Value0, Value1,
    Parameter0, Parameter1, Parameter2, Parameter3,
    Temporary0, Temporary1, Temporary2, Temporary3,
    Temporary4, Temporary5, Temporary6, Temporary7,
    Saved0, Saved1, Saved2, Saved3,
    Saved4, Saved5, Saved6, Saved7,
    Temporary8, Temporary9, Kernel0, Kernel1,
    GeneralPointer, StackPointer, FramePointer, ReturnAddress
  ]

  // The correspondence is stated in groups of eight slots: one 32-case fact is too costly for the solver.

  /** Positions 0 to 7 of the slot list (`$zero` to `$a3`) hold the slots with those discriminants. */
  lemma IndexOfValueSlots(n: nat)
    requires 0 <= n < 8
    ensures Index(SLOTS[n]) == n
  {
  }

  /** Positions 8 to 15 of the slot list (`$t0` to `$t7`) hold the slots with those discriminants. */
  lemma IndexOfTemporarySlots(n: nat)
    requires 8 <= n < 16
    ensures Index(SLOTS[n]) == n
  {
  }

  /** Positions 16 to 23 of the slot list (`$s0` to `$s7`) hold the slots with those discriminants. */
  lemma IndexOfSavedSlots(n: nat)
    requires 16 <= n < 24
    ensures Index(SLOTS[n]) == n
  {
  }

  /** Positions 24 to 31 of the slot list (`$t8` to `$ra`) hold the slots with those discriminants. */
  lemma IndexOfUpperSlots(n: nat)
    requires 24 <= n < 32
    ensures Index(SLOTS[n]) == n
  {
  }

  /** Position `n` of the slot list holds the slot whose discriminant is `n`. */
  lemma IndexOfSlot(n: nat)
    requires n < |SLOTS|
    ensures Index(SLOTS[n]) == n
  {
    if n < 8 {
      IndexOfValueSlots(n);
    } else if n < 16 {
      IndexOfTemporarySlots(n);
    } else if n < 24 {
      IndexOfSavedSlots(n);
    } else {
      IndexOfUpperSlots(n);
    }
  }

  /** The derived `FromPrimitive::from_u32`: the slot whose discriminant is `n`, if any. */
  function FromU32(n: u32): (r: Option<RegisterSlot>)
    ensures r.Some? <==> n < SLOT_COUNT
    ensures r.Some? ==> Index(r.value) == n
  {
    if n < |SLOTS| then IndexOfSlot(n); Some(SLOTS[n]) else None
  }

  /** Every slot is recovered from its discriminant, so discriminants are distinct. */
  lemma FromU32Index(slot: RegisterSlot)
    ensures FromU32(Index(slot)) == Some(slot)
  {
  }

  /** Discriminants are distinct: `Index` is injective. */
  lemma IndexInjective(a: RegisterSlot, b: RegisterSlot)
    ensures Index(a) == Index(b) <==> a == b
  {
    FromU32Index(a);
    FromU32Index(b);
  }

  /** The key under which the name table lists a slot. */
  function Name(slot: RegisterSlot): string
  {
    match slot
    case Zero => "$zero"
    case AssemblerTemporary => "$at"
    case Value0 => "$v0"
    case Value1 => "$v1"
    case Parameter0 => "$a0"
    case Parameter1 => "$a1"
    case Parameter2 => "$a2"
    case Parameter3 => "$a3"
    case Temporary0 => "$t0"
    case Temporary1 => "$t1"
    case Temporary2 => "$t2"
    case Temporary3 => "$t3"
    case Temporary4 => "$t4"
    case Temporary5 => "$t5"
    case Temporary6 => "$t6"
    case Temporary7 => "$t7"
    case Saved0 => "$s0"
    case Saved1 => "$s1"
    case Saved2 => "$s2"
    case Saved3 => "$s3"
    case Saved4 => "$s4"
    case Saved5 => "$s5"
    case Saved6 => "$s6"
    case Saved7 => "$s7"
    case Temporary8 => "$t8"
    case Temporary9 => "$t9"
    case Kernel0 => "$k0"
    case Kernel1 => "$k1"
    case GeneralPointer => "$gp"
    case StackPointer => "$sp"
    case FramePointer => "$fp"
    case ReturnAddress => "$ra"
  }

  /**
   `RegisterSlot::from_string`: exact lookup in the name table; any other
   string, including a name without its sigil, yields `None`.
   */
  function FromString(input: string): Option<RegisterSlot>
  {
    match input
    case "$zero" => Some(Zero)
    case "$at" => Some(AssemblerTemporary)
    case "$v0" => Some(Value0)
    case "$v1" => Some(Value1)
    case "$a0" => Some(Parameter0)
    case "$a1" => Some(Parameter1)
    case "$a2" => Some(Parameter2)
    case "$a3" => Some(Parameter3)
    case "$t0" => Some(Temporary0)
    case "$t1" => Some(Temporary1)
    case "$t2" => Some(Temporary2)
    case "$t3" => Some(Temporary3)
    case "$t4" => Some(Temporary4)
    case "$t5" => Some(Temporary5)
    case "$t6" => Some(Temporary6)
    case "$t7" => Some(Temporary7)
    case "$s0" => Some(Saved0)
    case "$s1" => Some(Saved1)
    case "$s2" => Some(Saved2)
    case "$s3" => Some(Saved3)
    case "$s4" => Some(Saved4)
    case "$s5" => Some(Saved5)
    case "$s6" => Some(Saved6)
    case "$s7" => Some(Saved7)
    case "$t8" => Some(Temporary8)
    case "$t9" => Some(Temporary9)
    case "$k0" => Some(Kernel0)
    case "$k1" => Some(Kernel1)
    case "$gp" => Some(GeneralPointer)
    case "$sp" => Some(StackPointer)
    case "$fp" => Some(FramePointer)
    case "$ra" => Some(ReturnAddress)
    case _ => None
  }

  /** Every key of the name table is the sigil `$` followed by at least two characters. */
  lemma NameHasSigil(slot: RegisterSlot)
    ensures |Name(slot)| >= 3 && Name(slot)[0] == '$'
  {
  }

  /** After the sigil, every key is a letter followed by letters and digits. */
  lemma NameBodyIsAlphanumeric(slot: RegisterSlot)
    ensures |Name(slot)| >= 2 && IsAlpha(Name(slot)[1])
    ensures forall i :: 1 <= i < |Name(slot)| ==> IsAlphanumeric(Name(slot)[i])
  {
  }

  /** Every slot's table name looks that slot up; with `FromStringSound`, a bijection. */
  lemma FromStringName(slot: RegisterSlot)
    ensures FromString(Name(slot)) == Some(slot)
  {
  }

  /** Whatever `FromString` returns, the input was that slot's table name. */
  lemma FromStringSound(input: string)
    ensures FromString(input).Some? ==> Name(FromString(input).value) == input
  {
  }

  /**
   `FromString` answers `slot` for exactly one string, the slot's table name:
   together with `Name` it is a bijection between the 32 keys and the slots,
   and every other string yields `None`.
   */
  lemma FromStringExactly(input: string, slot: RegisterSlot)
    ensures FromString(input) == Some(slot) <==> input == Name(slot)
  {
    FromStringSound(input);
    if input == Name(slot) {
      FromStringName(slot);
    }
  }

  // ---------------------------------------------------------------------
  // Character classes and the string combinators the parser is built from.
  // ---------------------------------------------------------------------

  /** `char::is_ascii_alphabetic`, the class `alpha1` matches on `&str`: ASCII letters only. */
  predicate IsAlpha(c: char) {
    'A' <= c <= 'Z' || 'a' <= c <= 'z'
  }

  /** `char::is_ascii_digit`, the class `digit1` matches on `&str`: ASCII decimal digits only. */
  predicate IsDigit(c: char) {
    '0' <= c <= '9'
  }

  /** ASCII letters and digits, the class `alphanumeric1` matches on `&str`. */
  predicate IsAlphanumeric(c: char) {
    IsAlpha(c) || IsDigit(c)
  }

  /** Every character of `s` is a decimal digit. */
  predicate AllDigits(s: string) {
    forall i :: 0 <= i < |s| ==> IsDigit(s[i])
  }

  /** A parse result: the recognised value and the unconsumed remainder. */
  datatype Parsed<T> = Parsed(value: T, rest: string)

  /** Length of the longest prefix of `s` whose characters all satisfy `p`. */
  function Span(s: string, p: char -> bool): (n: nat)
    ensures n <= |s|
    ensures forall i :: 0 <= i < n ==> p(s[i])
    ensures n < |s| ==> !p(s[n])
  {
    if s == [] || !p(s[0]) then 0 else 1 + Span(s[1..], p)
  }

  /**
   The shape of nom's complete `alpha1` and `digit1`: the longest non-empty
   prefix whose characters satisfy `p`, or failure when there is none.
   */
  function TakeWhile1(s: string, p: char -> bool): (r: Option<Parsed<string>>)
    ensures r.None? <==> (s == [] || !p(s[0]))
    ensures r.Some? ==> r.value.value + r.value.rest == s
    ensures r.Some? ==> |r.value.value| > 0 && forall i :: 0 <= i < |r.value.value| ==> p(r.value.value[i])
    ensures r.Some? && r.value.rest != [] ==> !p(r.value.rest[0])
  {
    var n := Span(s, p);
    if n == 0 then None else Some(Parsed(s[..n], s[n..]))
  }

  /** nom's `alpha1`: the maximal non-empty run of ASCII letters, or failure. */
  function Alpha1(s: string): (r: Option<Parsed<string>>)
    ensures r.None? <==> (s == [] || !IsAlpha(s[0]))
    ensures r.Some? ==> r.value.value + r.value.rest == s
    ensures r.Some? ==> |r.value.value| > 0 && forall i :: 0 <= i < |r.value.value| ==> IsAlpha(r.value.value[i])
    ensures r.Some? && r.value.rest != [] ==> !IsAlpha(r.value.rest[0])
  {
    TakeWhile1(s, IsAlpha)
  }

  /** nom's `digit1`: the maximal non-empty run of ASCII digits, or failure. */
  function Digit1(s: string): (r: Option<Parsed<string>>)
    ensures r.None? <==> (s == [] || !IsDigit(s[0]))
    ensures r.Some? ==> r.value.value + r.value.rest == s
    ensures r.Some? ==> |r.value.value| > 0 && AllDigits(r.value.value)
    ensures r.Some? && r.value.rest != [] ==> !IsDigit(r.value.rest[0])
  {
    TakeWhile1(s, IsDigit)
  }

  /** nom's `char(c)`: consumes exactly one leading `c`. */
  function Char(c: char, s: string): (r: Option<Parsed<char>>)
    ensures r.Some? <==> |s| > 0 && s[0] == c
    ensures r.Some? ==> r.value.value == c && r.value.rest == s[1..]
  {
    if |s| > 0 && s[0] == c then Some(Parsed(c, s[1..])) else None
  }

  /** Value of one decimal digit character. */
  function DecimalDigitValue(c: char): (v: nat)
    requires IsDigit(c)
    ensures v < 10
  {
    c as int - '0' as int
  }

  /** Numeric value of a string of decimal digits (most significant first). */
  function DecimalValue(digits: string): nat
    requires AllDigits(digits)
  {
    if digits == [] then 0
    else DecimalValue(digits[..|digits| - 1]) * 10 + DecimalDigitValue(digits[|digits| - 1])
  }

  /**
   `u32::from_str` applied to a non-empty run of decimal digits: the value,
   unless it does not fit in 32 bits.
   */
  function ParseU32(digits: string): (r: Option<u32>)
    requires AllDigits(digits) && |digits| > 0
    ensures r.Some? <==> DecimalValue(digits) < U32_LIMIT
    ensures r.Some? ==> r.value == DecimalValue(digits)
  {
    var v := DecimalValue(digits);
    if v < U32_LIMIT then Some(v) else None
  }

  // ---------------------------------------------------------------------
  // The operand parser.
  // ---------------------------------------------------------------------

  /** `register_named`: `map_opt(alpha1, from_string)`. */
  function RegisterNamed(input: string): (r: Option<Parsed<RegisterSlot>>)
    ensures r.Some? ==> Alpha1(input).Some? && r.value.rest == Alpha1(input).value.rest
  {
    match Alpha1(input)
    case None => None
    case Some(Parsed(text, rest)) =>
      match FromString(text)
      case None => None
      case Some(slot) => Some(Parsed(slot, rest))
  }

  /** `register_numbered`: `map_opt(digit1, from_str then from_u32)`. */
  function RegisterNumbered(input: string): (r: Option<Parsed<RegisterSlot>>)
    ensures r.Some? ==> Digit1(input).Some? && r.value.rest == Digit1(input).value.rest
  {
    match Digit1(input)
    case None => None
    case Some(Parsed(text, rest)) =>
      match ParseU32(text)
      case None => None
      case Some(n) =>
        match FromU32(n)
        case None => None
        case Some(slot) => Some(Parsed(slot, rest))
  }

  /**
   `register`: `preceded(char('$'), alt((register_named, register_numbered)))`.
   On success the remainder is a suffix of the input at least two characters
   shorter (the sigil and at least one token character).
   */
  function Register(input: string): (r: Option<Parsed<RegisterSlot>>)
    ensures r.Some? ==> |r.value.rest| + 2 <= |input|
    ensures r.Some? ==> input[|input| - |r.value.rest|..] == r.value.rest
  {
    match Char('$', input)
    case None => None
    case Some(Parsed(_, afterSigil)) =>
      match RegisterNamed(afterSigil)
      case Some(named) => Some(named)
      case None => RegisterNumbered(afterSigil)
  }

  // ---------------------------------------------------------------------
  // What the parser actually accepts.
  // ---------------------------------------------------------------------

  /**
   The named branch can never succeed: `alpha1` hands `from_string` a run of
   letters, and every key of the name table starts with the sigil `$`.
   */
  lemma RegisterNamedNeverSucceeds(input: string)
    ensures RegisterNamed(input) == None
  {
    match Alpha1(input)
    case None =>
    case Some(Parsed(text, _)) =>
      match FromString(text)
      case None =>
      case Some(slot) =>
        FromStringExactly(text, slot);
        NameHasSigil(slot);
  }

  /** Since the named branch always fails, `register` is the sigil followed by `register_numbered`. */
  lemma RegisterIsNumbered(input: string)
    ensures Register(input) == if |input| > 0 && input[0] == '$' then RegisterNumbered(input[1..]) else None
  {
    if |input| > 0 && input[0] == '$' {
      RegisterNamedNeverSucceeds(input[1..]);
    }
  }

  /** On a run of `p`-characters followed by a remainder not starting with one, the span is exactly the run. */
  lemma {:induction false} SpanOfRun(d: string, rest: string, p: char -> bool)
    requires forall i :: 0 <= i < |d| ==> p(d[i])
    requires rest == [] || !p(rest[0])
    ensures Span(d + rest, p) == |d|
  {
    if d == [] {
      assert d + rest == rest;
    } else {
      assert (d + rest)[0] == d[0];
      assert (d + rest)[1..] == d[1..] + rest;
      SpanOfRun(d[1..], rest, p);
    }
  }

  /** `TakeWhile1` on a run of `p`-characters followed by a remainder not starting with one splits exactly there. */
  lemma TakeWhile1Splits(d: string, rest: string, p: char -> bool)
    requires forall i :: 0 <= i < |d| ==> p(d[i])
    requires rest == [] || !p(rest[0])
    ensures TakeWhile1(d + rest, p) == if d == [] then None else Some(Parsed(d, rest))
  {
    SpanOfRun(d, rest, p);
    assert (d + rest)[..|d|] == d && (d + rest)[|d|..] == rest;
  }

  /** `digit1` on a digit run followed by a non-digit remainder splits exactly there. */
  lemma Digit1Splits(d: string, rest: string)
    requires AllDigits(d)
    requires rest == [] || !IsDigit(rest[0])
    ensures Digit1(d + rest) == if d == [] then None else Some(Parsed(d, rest))
  {
    TakeWhile1Splits(d, rest, IsDigit);
  }

  /**
   `register_numbered` on a digit run followed by a non-digit remainder
   succeeds exactly when the run is non-empty and its value is at most 31.
   */
  lemma RegisterNumberedDigits(d: string, rest: string)
    requires AllDigits(d)
    requires rest == [] || !IsDigit(rest[0])
    ensures RegisterNumbered(d + rest).Some? <==> |d| > 0 && DecimalValue(d) < SLOT_COUNT
    ensures RegisterNumbered(d + rest).Some? ==>
              && RegisterNumbered(d + rest).value.value == SLOTS[DecimalValue(d)]
              && Index(RegisterNumbered(d + rest).value.value) == DecimalValue(d)
              && RegisterNumbered(d + rest).value.rest == rest
  {
    Digit1Splits(d, rest);
    if d != [] {
      var n := DecimalValue(d);
      assert RegisterNumbered(d + rest) == match ParseU32(d)
        case None => None
        case Some(v) => match FromU32(v) case None => None case Some(slot) => Some(Parsed(slot, rest));
      if n < SLOT_COUNT {
        assert ParseU32(d) == Some(n);
        assert FromU32(n) == Some(SLOTS[n]);
      }
    }
  }

  /** Dropping the sigil of `"$" + d + rest` gives back `d + rest`. */
  lemma DropSigil(d: string, rest: string)
    ensures |"$" + d + rest| > 0 && ("$" + d + rest)[0] == '$' && ("$" + d + rest)[1..] == d + rest
  {
  }

  /**
   `register("$" + d + rest)`, where `d` is the maximal leading run of digits,
   succeeds exactly when `d` is non-empty and its decimal value is at most 31;
   it then yields the slot with that discriminant and leaves `rest`.
   */
  lemma RegisterDigits(d: string, rest: string)
    requires AllDigits(d)
    requires rest == [] || !IsDigit(rest[0])
    ensures var r := Register("$" + d + rest);
      && (r.Some? <==> |d| > 0 && DecimalValue(d) < SLOT_COUNT)
      && (r.Some? ==> r.value.value == SLOTS[DecimalValue(d)] && Index(r.value.value) == DecimalValue(d))
      && (r.Some? ==> r.value.rest == rest)
  {
    DropSigil(d, rest);
    RegisterIsNumbered("$" + d + rest);
    RegisterNumberedDigits(d, rest);
  }

  /** Input that does not start with `$` followed by a digit is rejected. */
  lemma RegisterNeedsSigilAndDigit(input: string)
    requires |input| < 2 || input[0] != '$' || !IsDigit(input[1])
    ensures Register(input) == None
  {
    RegisterIsNumbered(input);
  }

  /** Symbolic operands such as `$sp` or `$zero` are rejected. */
  lemma RegisterRejectsNames(name: string)
    requires |name| > 0 && forall i :: 0 <= i < |name| ==> IsAlpha(name[i])
    ensures Register("$" + name) == None
  {
    var input := "$" + name;
    assert input[1] == name[0];
    RegisterNeedsSigilAndDigit(input);
  }

  /** Decimal values of the digit runs used in the examples below. */
  lemma DecimalValueOfLiterals()
    ensures DecimalValue("007") == 7
    ensures DecimalValue("29") == 29
    ensures DecimalValue("123") == 123
    ensures DecimalValue("32") == 32
  {
    assert "007"[..2] == "00" && "00"[..1] == "0" && "0"[..0] == "";
    assert "29"[..1] == "2" && "2"[..0] == "";
    assert "123"[..2] == "12" && "12"[..1] == "1" && "1"[..0] == "";
    assert "32"[..1] == "3" && "3"[..0] == "";
  }

  /** Leading zeros are accepted: `$007` is slot 7, whatever non-digit text follows. */
  lemma RegisterLeadingZeros(rest: string)
    requires rest == [] || !IsDigit(rest[0])
    ensures Register("$" + "007" + rest) == Some(Parsed(Parameter3, rest))
  {
    DecimalValueOfLiterals();
    RegisterDigits("007", rest);
  }

  /** The remainder after the digit run is handed back: `$29` followed by `rest` is the stack pointer, leaving `rest`. */
  lemma RegisterLeavesRemainder(rest: string)
    requires rest == [] || !IsDigit(rest[0])
    ensures Register("$" + "29" + rest) == Some(Parsed(StackPointer, rest))
  {
    DecimalValueOfLiterals();
    RegisterDigits("29", rest);
  }

  /** The digit run is maximal, with no backtracking: `$123` is rejected, not read as slot 1 or 12. */
  lemma RegisterRejectsLongRun(rest: string)
    requires rest == [] || !IsDigit(rest[0])
    ensures Register("$" + "123" + rest) == None
  {
    DecimalValueOfLiterals();
    RegisterDigits("123", rest);
  }

  /** One past the last discriminant is rejected: `$32`. */
  lemma RegisterRejectsThirtyTwo(rest: string)
    requires rest == [] || !IsDigit(rest[0])
    ensures Register("$" + "32" + rest) == None
  {
    DecimalValueOfLiterals();
    RegisterDigits("32", rest);
  }

  /** No key of the name table parses, whatever follows it: `$sp` and `$zero` are rejected. */
  lemma RegisterRejectsEveryName(slot: RegisterSlot, rest: string)
    ensures Register(Name(slot) + rest) == None
  {
    NameBodyIsAlphanumeric(slot);
    var input := Name(slot) + rest;
    assert input[1] == Name(slot)[1];
    RegisterNeedsSigilAndDigit(input);
  }

  // ---------------------------------------------------------------------
  // The evidently intended named branch, for comparison.
  // ---------------------------------------------------------------------

  /** nom's `alphanumeric1`: the maximal non-empty run of ASCII letters and digits, or failure. */
  function Alphanumeric1(s: string): (r: Option<Parsed<string>>)
    ensures r.None? <==> (s == [] || !IsAlphanumeric(s[0]))
    ensures r.Some? ==> r.value.value + r.value.rest == s
    ensures r.Some? ==> |r.value.value| > 0 && forall i :: 0 <= i < |r.value.value| ==> IsAlphanumeric(r.value.value[i])
    ensures r.Some? && r.value.rest != [] ==> !IsAlphanumeric(r.value.rest[0])
  {
    TakeWhile1(s, IsAlphanumeric)
  }

  /**
   A named branch that can succeed: it reads the whole alphanumeric token, so
   that `$t0` is not cut at the digit, and puts the sigil back before the lookup.
   */
  function RegisterNamedCorrected(input: string): (r: Option<Parsed<RegisterSlot>>)
    ensures r.Some? ==> Alphanumeric1(input).Some? && r.value.rest == Alphanumeric1(input).value.rest
  {
    match Alphanumeric1(input)
    case None => None
    case Some(Parsed(text, rest)) =>
      match FromString("$" + text)
      case None => None
      case Some(slot) => Some(Parsed(slot, rest))
  }

  /** `register` with the corrected named branch; the numbered branch is unchanged. */
  function RegisterCorrected(input: string): (r: Option<Parsed<RegisterSlot>>)
    ensures r.Some? ==> |r.value.rest| + 2 <= |input|
    ensures r.Some? ==> input[|input| - |r.value.rest|..] == r.value.rest
  {
    match Char('$', input)
    case None => None
    case Some(Parsed(_, afterSigil)) =>
      match RegisterNamedCorrected(afterSigil)
      case Some(named) => Some(named)
      case None => RegisterNumbered(afterSigil)
  }

  /** The corrected parser reads a sigil, an alphanumeric token and what follows, looking the whole key up. */
  lemma RegisterCorrectedReadsKey(key: string, rest: string, slot: RegisterSlot)
    requires |key| >= 2 && key[0] == '$'
    requires forall i :: 1 <= i < |key| ==> IsAlphanumeric(key[i])
    requires FromString(key) == Some(slot)
    requires rest == [] || !IsAlphanumeric(rest[0])
    ensures RegisterCorrected(key + rest) == Some(Parsed(slot, rest))
  {
    var body := key[1..];
    var input := key + rest;
    assert input[0] == '$' && input[1..] == body + rest;
    assert "$" + body == key;
    TakeWhile1Splits(body, rest, IsAlphanumeric);
    assert RegisterNamedCorrected(body + rest) == Some(Parsed(slot, rest));
  }

  /** The corrected parser reads every key of the name table as its slot, leaving what follows the token. */
  lemma RegisterCorrectedReadsNames(slot: RegisterSlot, rest: string)
    requires rest == [] || !IsAlphanumeric(rest[0])
    ensures RegisterCorrected(Name(slot) + rest) == Some(Parsed(slot, rest))
  {
    NameHasSigil(slot);
    NameBodyIsAlphanumeric(slot);
    FromStringName(slot);
    RegisterCorrectedReadsKey(Name(slot), rest, slot);
  }

  /** A key of the name table never has a digit right after the sigil. */
  lemma NoNameStartsWithDigit(text: string)
    requires |text| > 0 && IsDigit(text[0])
    ensures FromString("$" + text) == None
  {
    var key := "$" + text;
    assert key[1] == text[0];
    FromStringSound(key);
    if FromString(key).Some? {
      NameBodyIsAlphanumeric(FromString(key).value);
    }
  }

  /** On digits the corrected parser behaves exactly as the code: the numbered branch decides. */
  lemma RegisterCorrectedDigits(d: string, rest: string)
    requires AllDigits(d) && |d| > 0
    requires rest == [] || !IsDigit(rest[0])
    ensures RegisterCorrected("$" + d + rest) == Register("$" + d + rest)
  {
    DropSigil(d, rest);
    RegisterIsNumbered("$" + d + rest);
    var after := d + rest;
    assert after[0] == d[0];
    match Alphanumeric1(after)
    case None =>
    case Some(Parsed(text, _)) =>
      assert text[0] == after[0];
      NoNameStartsWithDigit(text);
  }

  /** With the corrected branch, a slot's name and its decimal index parse to that same slot. */
  lemma RegisterCorrectedNameAndIndexAgree(slot: RegisterSlot, d: string)
    requires AllDigits(d) && |d| > 0 && DecimalValue(d) == Index(slot)
    ensures RegisterCorrected(Name(slot)) == Some(Parsed(slot, ""))
    ensures RegisterCorrected("$" + d) == Some(Parsed(slot, ""))
  {
    RegisterCorrectedReadsNames(slot, "");
    assert Name(slot) + "" == Name(slot);
    RegisterCorrectedDigits(d, "");
    RegisterDigits(d, "");
    assert "$" + d + "" == "$" + d;
    FromU32Index(slot);
  }
}
