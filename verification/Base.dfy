/** Shared vocabulary: bytes, machine-width counters, results and the configured limits. */
module Base {
  type byte = b: int | 0 <= b < 256
  type bytes = seq<byte>

  const U64_MAX: nat := 0xFFFF_FFFF_FFFF_FFFF
  type u64 = n: int | 0 <= n <= 0xFFFF_FFFF_FFFF_FFFF

  const U32_MAX: nat := 0xFFFF_FFFF
  type u32 = n: int | 0 <= n <= 0xFFFF_FFFF

  datatype Option<+T> = None | Some(value: T)

  datatype Result<+T, +E> = Ok(value: T) | Err(error: E)

  /** Terminal states of a reduction; `Applicable` is the only success. */
  datatype ReductionStatus =
    | Applicable
    | ReductionNotApplicable
    | ReductionNoImprovement
    | ReductionResourceLimit
    | ReductionInvalidInput
    | ReductionInternalError

  datatype TransformError = NotApplicable | ResourceLimit | InvalidInput | Internal

  /** The bounds of one evaluation; the wall-clock bound is a parameter of the members that read it. */
  datatype Limits = Limits(
    maxInput: u64,
    maxOutput: u64,
    maxCandidates: u32,
    maxWork: u64,
    maxMemory: u64)

  /** `u64::try_from(len).unwrap_or(u64::MAX)`. */
  function Len64(n: nat): u64 {
    if n <= U64_MAX then n else U64_MAX
  }

  /** `u32::try_from(len).unwrap_or(u32::MAX)`. */
  function Len32(n: nat): u32 {
    if n <= U32_MAX then n else U32_MAX
  }

  function SatAdd(a: u64, b: u64): u64 {
    if a + b <= U64_MAX then a + b else U64_MAX
  }

  const QUOTE: byte := 0x22
  const BACKSLASH: byte := 0x5C
  const COMMA: byte := 0x2C
  const COLON: byte := 0x3A
  const NEWLINE: byte := 0x0A

  /** White space of RFC 8259, section 2. */
  predicate JsonWs(b: byte) {
    b == 0x20 || b == 0x09 || b == 0x0A || b == 0x0D
  }

  /** `u8::is_ascii_whitespace`: the JSON white space and form feed. */
  predicate AsciiWs(b: byte) {
    JsonWs(b) || b == 0x0C
  }

  predicate AllWs(s: bytes) {
    forall i :: 0 <= i < |s| ==> JsonWs(s[i])
  }

  /** Byte-wise order of strings. */
  predicate Less(a: bytes, b: bytes) {
    b != [] && (a == [] || a[0] < b[0] || (a[0] == b[0] && Less(a[1..], b[1..])))
  }

  lemma {:induction false} LessTotal(a: bytes, b: bytes)
    ensures Less(a, b) || Less(b, a) || a == b
    ensures !(Less(a, b) && Less(b, a))
    ensures a == b ==> !Less(a, b)
  {
    if a != [] && b != [] {
      LessTotal(a[1..], b[1..]);
      assert a == [a[0]] + a[1..] && b == [b[0]] + b[1..];
    }
  }

  lemma {:induction false} LessTransitive(a: bytes, b: bytes, c: bytes)
    requires Less(a, b) && Less(b, c)
    ensures Less(a, c)
  {
    if a != [] && a[0] == b[0] && b[0] == c[0] {
      LessTransitive(a[1..], b[1..], c[1..]);
    }
  }

  /** Position of the first `b`. */
  function Find(s: bytes, b: byte): (r: Option<nat>)
    ensures r.Some? ==> r.value < |s| && s[r.value] == b && forall i :: 0 <= i < r.value ==> s[i] != b
    ensures r.None? ==> forall i :: 0 <= i < |s| ==> s[i] != b
  {
    if s == [] then None
    else if s[0] == b then Some(0)
    else
      match Find(s[1..], b)
      case None =>
        assert forall i :: 1 <= i < |s| ==> s[i] == s[1..][i - 1];
        None
      case Some(n) =>
        assert forall i :: 1 <= i < n + 1 ==> s[i] == s[1..][i - 1];
        Some(n + 1)
  }

  lemma FindAppend(a: bytes, b: bytes, x: byte)
    ensures Find(a + b, x).None? <==> Find(a, x).None? && Find(b, x).None?
    ensures Find(a, x).Some? ==> Find(a + b, x) == Find(a, x)
    ensures Find(a, x).None? && Find(b, x).Some? ==> Find(a + b, x) == Some(|a| + Find(b, x).value)
  {
    var s := a + b;
    assert forall i :: 0 <= i < |a| ==> s[i] == a[i];
    assert forall i :: 0 <= i < |b| ==> s[|a| + i] == b[i];
    assert forall i :: |a| <= i < |s| ==> s[i] == b[i - |a|];
    match Find(s, x) {
      case None =>
      case Some(n) =>
        if n >= |a| { assert b[n - |a|] == x; } else { assert a[n] == x; }
    }
  }

  lemma FindOne(b: byte, x: byte)
    ensures Find([b], x) == if b == x then Some(0) else None
  {
    assert [b][1..] == [];
  }

  /** A product, kept opaque to the solver where only its steps matter. */
  function Times(n: nat, m: nat): nat {
    n * m
  }

  lemma TimesStep(i: nat, n: nat, m: nat)
    ensures Times(0, m) == 0 && Times(i, m) + m == Times(i + 1, m)
    ensures i < n ==> Times(i + 1, m) <= Times(n, m)
  {
    if i < n {
      assert (n - (i + 1)) * m >= 0;
    }
  }
}
