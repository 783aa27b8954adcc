/** Base-128 varints of Go's encoding/binary, which frame the concat object. */
module Varints {
  import opened Basics

  const MAX_LEN := 10

  /** PutUvarint: seven bits per byte, lowest first, the high bit set on all but the last. */
  function PutUvarint(x: nat): (s: Bytes)
    ensures 1 <= |s|
  {
    if x < 128 then [x] else [128 + x % 128] + PutUvarint(x / 128)
  }

  /** PutVarint: a signed integer is zig-zagged first. */
  function PutVarint(x: int): Bytes {
    PutUvarint(if x >= 0 then 2 * x else -2 * x - 1)
  }

  datatype Decoded = Decoded(value: int, next: nat) | Bad

  function Pow128(i: nat): (p: nat)
    ensures p > 0
  {
    if i == 0 then 1 else 128 * Pow128(i - 1)
  }

  /** A group of seven bits at place `i`. */
  function Digit(b: nat, i: nat): nat {
    b * Pow128(i)
  }

  /**
    ReadUvarint at byte `j` of the number that starts at `at`, with `x` decoded so far: the tenth byte
    may only be 0 or 1, and the input may not end inside the number.
   */
  function UvarintFrom(s: Bytes, at: nat, j: nat, x: nat): (d: Decoded)
    requires at <= j
    ensures d.Decoded? ==> x <= d.value && j < d.next <= |s|
    decreases at + MAX_LEN - j
  {
    if j - at >= MAX_LEN || j >= |s| then Bad
    else
      var b := s[j];
      if b < 128 then
        if j - at == MAX_LEN - 1 && b > 1 then Bad else Decoded(x + Digit(b, j - at), j + 1)
      else UvarintFrom(s, at, j + 1, x + Digit(b - 128, j - at))
  }

  function GetUvarint(s: Bytes, at: nat): Decoded {
    UvarintFrom(s, at, at, 0)
  }

  function GetVarint(s: Bytes, at: nat): (d: Decoded)
    ensures d.Decoded? ==> at < d.next <= |s|
  {
    match GetUvarint(s, at)
    case Bad => Bad
    case Decoded(u, next) => Decoded(if u % 2 == 0 then u / 2 else -(u / 2) - 1, next)
  }

  /** The loop of ReadUvarint. */
  method ReadUvarint(s: Bytes, at: nat) returns (d: Decoded)
    ensures d == GetUvarint(s, at)
  {
    var x: nat, j: nat := 0, at;
    while j - at < MAX_LEN
      invariant at <= j <= at + MAX_LEN
      invariant GetUvarint(s, at) == UvarintFrom(s, at, j, x)
    {
      if j >= |s| {
        return Bad;
      }
      var b: int := s[j];
      if b < 128 {
        if j - at == MAX_LEN - 1 && b > 1 {
          return Bad;
        }
        return Decoded(x + Digit(b, j - at), j + 1);
      }
      x, j := x + Digit(b - 128, j - at), j + 1;
    }
    return Bad;
  }

  method ReadVarint(s: Bytes, at: nat) returns (d: Decoded)
    ensures d == GetVarint(s, at)
  {
    var u := ReadUvarint(s, at);
    if u == Bad {
      return Bad;
    }
    return Decoded(if u.value % 2 == 0 then u.value / 2 else -(u.value / 2) - 1, u.next);
  }

  lemma {:induction false} UvarintLength(x: nat, i: nat)
    requires x < Pow128(i) && 1 <= i
    ensures |PutUvarint(x)| <= i
  {
    if x >= 128 {
      UvarintLength(x / 128, i - 1);
    }
  }

  /** What a number of `i` bytes less can still hold: 64 bits are nine groups of seven and one of one. */
  function Room(i: nat): nat
    requires i < MAX_LEN
  {
    2 * Pow128(MAX_LEN - 1 - i)
  }

  lemma {:induction false} DecodeEncoded(s: Bytes, at: nat, j: nat, x: nat, y: nat)
    requires at <= j < at + MAX_LEN && y < Room(j - at)
    requires j + |PutUvarint(y)| <= |s| && s[j..j + |PutUvarint(y)|] == PutUvarint(y)
    ensures UvarintFrom(s, at, j, x) == Decoded(x + Digit(y, j - at), j + |PutUvarint(y)|)
    decreases at + MAX_LEN - j
  {
    var code := PutUvarint(y);
    assert s[j] == code[0];
    if y >= 128 {
      assert code[1..] == PutUvarint(y / 128);
      assert s[j + 1..j + |code|] == s[j..j + |code|][1..];
      DecodeEncoded(s, at, j + 1, x + Digit(y % 128, j - at), y / 128);
      Regroup(y, Pow128(j - at));
    }
  }

  lemma Regroup(y: nat, w: nat)
    ensures (y % 128) * w + (y / 128) * (128 * w) == y * w
  {
    calc {
      (y % 128) * w + (y / 128) * (128 * w);
      (y % 128 + (y / 128) * 128) * w;
      y * w;
    }
  }

  /** A cut-off number is an error, never another number. */
  lemma {:induction false} DecodeCutOff(s: Bytes, at: nat, j: nat, x: nat, y: nat)
    requires at <= j <= |s| < j + |PutUvarint(y)|
    requires s[j..] == PutUvarint(y)[..|s| - j]
    ensures UvarintFrom(s, at, j, x) == Bad
    decreases |s| - j
  {
    if j - at < MAX_LEN && j < |s| {
      var code := PutUvarint(y);
      assert s[j] == s[j..][0] == code[0];
      assert s[j + 1..] == s[j..][1..] == code[1..][..|s| - j - 1];
      DecodeCutOff(s, at, j + 1, x + Digit(y % 128, j - at), y / 128);
    }
  }

  /** Every 64-bit number fits ten bytes. */
  lemma UvarintFits(y: nat)
    requires y < TWO_64
    ensures |PutUvarint(y)| <= MAX_LEN
  {
    PowersOf128();
    UvarintLength(y, MAX_LEN);
  }

  /** Unsigned round trip for every 64-bit number, wherever it stands. */
  lemma UvarintRoundTrip(s: Bytes, at: nat, y: nat)
    requires y < TWO_64 && at + |PutUvarint(y)| <= |s| && s[at..at + |PutUvarint(y)|] == PutUvarint(y)
    ensures GetUvarint(s, at) == Decoded(y, at + |PutUvarint(y)|)
  {
    assert y < Room(0) by { PowersOf128(); }
    DecodeEncoded(s, at, at, 0, y);
  }

  lemma PowersOf128()
    ensures Pow128(9) == TWO_64 / 2 && Pow128(10) == 64 * TWO_64
  {
    assert Pow128(3) == 128 * 128 * 128;
    assert Pow128(6) == 128 * 128 * 128 * Pow128(3);
    assert Pow128(9) == 128 * 128 * 128 * Pow128(6);
  }

  /** Signed round trip for every int64. */
  lemma VarintRoundTrip(s: Bytes, at: nat, x: int)
    requires -MAX_INT64 - 1 <= x <= MAX_INT64
    requires at + |PutVarint(x)| <= |s| && s[at..at + |PutVarint(x)|] == PutVarint(x)
    ensures GetVarint(s, at) == Decoded(x, at + |PutVarint(x)|)
  {
    UvarintRoundTrip(s, at, if x >= 0 then 2 * x else -2 * x - 1);
  }

  /** The number that groups of seven bits stand for, lowest first. */
  function ValueOf(s: Bytes): nat {
    if s == [] then 0 else s[0] % 128 + 128 * ValueOf(s[1..])
  }

  /** The format: the high bit is set on all bytes but the last one, and the groups make up the number. */
  lemma {:induction false} UvarintFormat(x: nat)
    ensures var s := PutUvarint(x);
            && ValueOf(s) == x && s[|s| - 1] < 128 && forall i :: 0 <= i < |s| - 1 ==> s[i] >= 128
  {
    var s := PutUvarint(x);
    if x >= 128 {
      UvarintFormat(x / 128);
      assert s[1..] == PutUvarint(x / 128);
    } else {
      assert s[1..] == [];
    }
  }

  /** No number beyond 64 bits is ever read. */
  lemma {:induction false} DecodedFits(s: Bytes, at: nat, j: nat, x: nat)
    requires at <= j <= at + MAX_LEN && (j < at + MAX_LEN ==> x < Pow128(j - at))
    ensures UvarintFrom(s, at, j, x).Decoded? ==> UvarintFrom(s, at, j, x).value < TWO_64
    decreases at + MAX_LEN - j
  {
    if j - at < MAX_LEN && j < |s| {
      var b: int, i := s[j], j - at;
      if b >= 128 {
        if i + 1 < MAX_LEN {
          DigitFits(b - 128, i, x);
        }
        DecodedFits(s, at, j + 1, x + Digit(b - 128, i));
      } else if i < MAX_LEN - 1 {
        DigitFits(b, i, x);
        PowersGrow(i + 1, MAX_LEN - 1);
        PowersOf128();
      } else if b <= 1 {
        PowersOf128();
        assert Digit(b, i) == b * Pow128(9);
      }
    }
  }

  lemma Monotone(a: nat, b: nat, w: nat)
    requires a <= b
    ensures a * w <= b * w
  {}

  lemma DigitFits(b: nat, i: nat, x: nat)
    requires b < 128 && x < Pow128(i)
    ensures x + Digit(b, i) < Pow128(i + 1)
  {
    Monotone(b, 127, Pow128(i));
  }

  lemma {:induction false} PowersGrow(i: nat, j: nat)
    requires i <= j
    ensures Pow128(i) <= Pow128(j)
    decreases j - i
  {
    if i < j {
      PowersGrow(i + 1, j);
    }
  }

  lemma GetUvarintFits(s: Bytes, at: nat)
    ensures GetUvarint(s, at).Decoded? ==> GetUvarint(s, at).value < TWO_64
  {
    DecodedFits(s, at, at, 0);
  }
}
