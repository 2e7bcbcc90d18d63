/** The 7-bit little-endian integers of the recovery stream. */
module Varint {
  import opened Base

  /** The 7-bit groups of a value, low group first; every group but the last carries the high bit. */
  function Encode(value: nat): bytes
    decreases value
  {
    if value < 128 then [value]
    else [value % 128 + 128] + Encode(value / 128)
  }

  function Pow128(k: nat): nat {
    if k == 0 then 1 else 128 * Pow128(k - 1)
  }

  /** What reading from group `k` on yields: the value of the remaining groups, not yet shifted, and the rest. */
  function DecodeFrom(input: bytes, k: nat): (r: Result<(nat, bytes), TransformError>)
    decreases |input|
    ensures r.Ok? ==> |r.value.1| < |input| && r.value.1 == input[|input| - |r.value.1|..]
  {
    if k > 9 || input == [] then Err(InvalidInput)
    else if k == 9 && input[0] % 128 > 1 then Err(InvalidInput)
    else if input[0] < 128 then Ok((input[0], input[1..]))
    else
      match DecodeFrom(input[1..], k + 1)
      case Err(e) => Err(e)
      case Ok((high, rest)) => Ok((input[0] % 128 + 128 * high, rest))
  }

  function Decode(input: bytes): (r: Result<(nat, bytes), TransformError>)
    ensures r.Ok? ==> |r.value.1| < |input| && r.value.1 == input[|input| - |r.value.1|..]
  {
    DecodeFrom(input, 0)
  }

  /** Whether a value has at most `k` groups and one further bit. */
  predicate Fits(value: nat, k: nat) {
    if k == 0 then value < 2 else Fits(value / 128, k - 1)
  }

  lemma {:induction false} DecodeFromEncode(value: nat, rest: bytes, k: nat)
    requires k <= 9 && Fits(value, 9 - k)
    ensures DecodeFrom(Encode(value) + rest, k) == Ok((value, rest))
    decreases value
  {
    var s := Encode(value) + rest;
    if value < 128 {
      assert s[1..] == rest;
    } else {
      assert k < 9;
      assert s[1..] == Encode(value / 128) + rest;
      DecodeFromEncode(value / 128, rest, k + 1);
    }
  }

  lemma {:induction false} FitsBound(value: nat, k: nat)
    ensures Fits(value, k) <==> value < 2 * Pow128(k)
  {
    if k > 0 {
      FitsBound(value / 128, k - 1);
    }
  }

  lemma FitsU64(value: nat)
    ensures Fits(value, 9) <==> value <= U64_MAX
  {
    FitsBound(value, 9);
    assert Pow128(3) == 0x20_0000;
    assert Pow128(6) == 0x400_0000_0000;
  }

  lemma {:induction false} EncodeLength(value: nat, k: nat)
    requires Fits(value, k)
    ensures 0 < |Encode(value)| <= k + 1
    decreases k
  {
    if k > 0 && value >= 128 {
      EncodeLength(value / 128, k - 1);
    }
  }

  lemma EncodeLength64(value: u64)
    ensures 0 < |Encode(value)| <= 10
  {
    FitsU64(value);
    EncodeLength(value, 9);
  }

  /** Every 64-bit value is read back, whatever follows it in the stream. */
  lemma RoundTrip(value: u64, rest: bytes)
    ensures Decode(Encode(value) + rest) == Ok((value, rest))
  {
    FitsU64(value);
    DecodeFromEncode(value, rest, 0);
  }

  lemma {:induction false} DecodeFromFits(input: bytes, k: nat)
    requires k <= 9 && DecodeFrom(input, k).Ok?
    ensures Fits(DecodeFrom(input, k).value.0, 9 - k)
    decreases |input|
  {
    if k < 9 && input[0] >= 128 {
      DecodeFromFits(input[1..], k + 1);
    } else if k < 9 {
      FitsZero(8 - k);
    }
  }

  lemma {:induction false} FitsZero(k: nat)
    ensures Fits(0, k)
  {
    if k > 0 {
      FitsZero(k - 1);
    }
  }

  /** Nothing that overflows 64 bits is ever accepted. */
  lemma DecodedFits(input: bytes)
    requires Decode(input).Ok?
    ensures Decode(input).value.0 <= U64_MAX
  {
    DecodeFromFits(input, 0);
    FitsU64(Decode(input).value.0);
  }

  method WriteVarint(output: bytes, value: u64) returns (r: bytes)
    ensures r == output + Encode(value)
  {
    r := output;
    var left := value;
    while left >= 128
      invariant 0 <= left <= value
      invariant r + Encode(left) == output + Encode(value)
    {
      assert Encode(left) == [left % 128 + 128] + Encode(left / 128);
      r := r + [left % 128 + 128];
      left := left / 128;
    }
    r := r + [left];
  }

  /** `value << 7 * k`. */
  function Shl(value: nat, k: nat): nat
    decreases k
  {
    if k == 0 then value else 128 * Shl(value, k - 1)
  }

  lemma {:induction false} ShlSplit(low: nat, high: nat, k: nat)
    ensures Shl(low + 128 * high, k) == Shl(low, k) + Shl(high, k + 1)
  {
    if k > 0 {
      ShlSplit(low, high, k - 1);
    }
  }

  /** Reads one value at `cursor`; `next` is the advanced cursor. */
  method ReadVarint(input: bytes, cursor: nat) returns (r: Result<u64, TransformError>, next: nat)
    requires cursor <= |input|
    ensures cursor <= next <= |input|
    ensures Delivers(Decode(input[cursor..]), r, input[next..])
  {
    next := cursor;
    var value: nat := 0;
    var k := 0;
    ghost var whole := Decode(input[cursor..]);
    if whole.Ok? {
      DecodedFits(input[cursor..]);
    }
    while k < 10
      invariant 0 <= k <= 10 && cursor <= next <= |input|
      invariant Continues(whole, input, next, value, k)
    {
      Resume(whole, input, next, value, k);
      if next == |input| {
        return Err(InvalidInput), next;
      }
      var b := input[next];
      next := next + 1;
      if k == 9 && b % 128 > 1 {
        return Err(InvalidInput), next;
      }
      value := value + Shl(b % 128, k);
      if b < 128 {
        assert whole == Ok((value, input[next..]));
        return Ok(value), next;
      }
      k := k + 1;
    }
    return Err(InvalidInput), next;
  }

  /** What one byte does to a read in progress. */
  lemma Resume(whole: Result<(nat, bytes), TransformError>, input: bytes, next: nat, value: nat, k: nat)
    requires next <= |input| && k < 10 && Continues(whole, input, next, value, k)
    ensures next == |input| || (k == 9 && input[next] % 128 > 1) ==> whole == Err(InvalidInput)
    ensures next < |input| && !(k == 9 && input[next] % 128 > 1) ==>
              if input[next] < 128 then whole == Ok((value + Shl(input[next] % 128, k), input[next + 1..]))
              else Continues(whole, input, next + 1, value + Shl(input[next] % 128, k), k + 1)
  {
    if next < |input| {
      var s := input[next..];
      assert s[1..] == input[next + 1..];
      if s[0] >= 128 && DecodeFrom(s[1..], k + 1).Ok? {
        ShlSplit(s[0] % 128, DecodeFrom(s[1..], k + 1).value.0, k);
      }
    }
  }

  /** `r` is what `whole` promises, and on success `rest` is what is left to read. */
  ghost predicate Delivers(whole: Result<(nat, bytes), TransformError>, r: Result<int, TransformError>, rest: bytes) {
    match whole
    case Err(e) => r == Err(e)
    case Ok((value, left)) => r == Ok(value) && rest == left
  }

  ghost predicate Continues(whole: Result<(nat, bytes), TransformError>, input: bytes, next: nat, value: nat, k: nat)
    requires next <= |input|
  {
    match DecodeFrom(input[next..], k)
    case Err(e) => whole == Err(e)
    case Ok((high, rest)) => whole == Ok((value + Shl(high, k), rest))
  }
}
