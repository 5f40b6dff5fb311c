/**
 Bytes and the handful of byte-level notions the wire formats share: positions,
 UTF-8 validity, big-endian integers and decimal text.
 */
module Bytes {
  type byte = x: int | 0 <= x < 256

  type bytes = seq<byte>

  type i64 = x: int | -0x8000_0000_0000_0000 <= x < 0x8000_0000_0000_0000

  datatype Option<+T> = Nothing | Just(value: T)

  /** What an operation that can fail answers. */
  datatype Fallible<+T, +E> = Ok(value: T) | Err(error: E)
  {
    predicate IsFailure() {
      Err?
    }

    function PropagateFailure<U>(): Fallible<U, E>
      requires Err?
    {
      Err(error)
    }

    function Extract(): T
      requires Ok?
    {
      value
    }
  }

  lemma Regrouped<T>(x: seq<T>, y: seq<T>, z: seq<T>)
    ensures x + (y + z) == (x + y) + z
  {
  }

  lemma RegroupedThree<T>(w: seq<T>, x: seq<T>, y: seq<T>, z: seq<T>)
    ensures ((w + x) + y) + z == w + ((x + y) + z)
  {
  }

  // ------------------------------------------------------------ searching

  /** The first position of `wanted` at or after `from`. */
  function Find(wanted: byte, s: bytes, from: nat): (r: Option<nat>)
    requires from <= |s|
    ensures r.Just? ==> from <= r.value < |s| && s[r.value] == wanted
    ensures r.Just? ==> forall i | from <= i < r.value :: s[i] != wanted
    ensures r.Nothing? ==> forall i | from <= i < |s| :: s[i] != wanted
    decreases |s| - from
  {
    if from == |s| then Nothing
    else if s[from] == wanted then Just(from)
    else Find(wanted, s, from + 1)
  }

  /** `part` stands in `s` at offset `at`. */
  predicate Stands(s: bytes, at: nat, part: bytes) {
    at + |part| <= |s| && s[at..at + |part|] == part
  }

  /** What stands somewhere has its pieces standing where they belong. */
  lemma StandsApart(s: bytes, at: nat, a: bytes, b: bytes)
    requires Stands(s, at, a + b)
    ensures Stands(s, at, a) && Stands(s, at + |a|, b)
  {
    var whole := s[at..at + |a + b|];
    assert whole[..|a|] == a && whole[|a|..] == b;
  }

  lemma StartsWith(s: bytes, at: nat, part: bytes)
    requires part != [] && Stands(s, at, part)
    ensures at < |s| && s[at] == part[0] && at + |part| <= |s| && s[at..at + |part|] == part
  {
    assert s[at] == s[at..at + |part|][0];
  }

  /** ASCII white space as `u8::is_ascii_whitespace` has it: the vertical tab is not among it. */
  predicate IsBlank(b: byte) {
    b in {9, 10, 12, 13, 32}
  }

  // ---------------------------------------------------------------- UTF-8

  predicate Continues(b: byte) {
    0x80 <= b <= 0xBF
  }

  /** The length of the well-formed UTF-8 sequence `s` starts with, or 0 (Unicode, table 3-7). */
  function Utf8Step(s: bytes): (n: nat)
    requires s != []
    ensures n <= |s|
  {
    if s[0] <= 0x7F then 1
    else if 0xC2 <= s[0] <= 0xDF && |s| >= 2 && Continues(s[1]) then 2
    else if 0xE0 <= s[0] <= 0xEF && |s| >= 3 && Continues(s[1]) && Continues(s[2])
            && (s[0] == 0xE0 ==> 0xA0 <= s[1]) && (s[0] == 0xED ==> s[1] <= 0x9F) then 3
    else if 0xF0 <= s[0] <= 0xF4 && |s| >= 4 && Continues(s[1]) && Continues(s[2]) && Continues(s[3])
            && (s[0] == 0xF0 ==> 0x90 <= s[1]) && (s[0] == 0xF4 ==> s[1] <= 0x8F) then 4
    else 0
  }

  predicate IsUtf8(s: bytes) {
    s == [] || (Utf8Step(s) > 0 && IsUtf8(s[Utf8Step(s)..]))
  }

  /** A Rust `String`: bytes that are valid UTF-8. */
  type text = s: bytes | IsUtf8(s)

  lemma {:induction false} AsciiIsUtf8(s: bytes)
    requires forall i | 0 <= i < |s| :: s[i] <= 0x7F
    ensures IsUtf8(s)
  {
    if s != [] {
      AsciiIsUtf8(s[1..]);
    }
  }

  // ----------------------------------------------------------- big-endian

  function Pow256(width: nat): (p: nat)
    ensures p > 0
  {
    if width == 0 then 1 else 256 * Pow256(width - 1)
  }

  function BigEndian(n: nat, width: nat): (s: bytes)
    ensures |s| == width
  {
    if width == 0 then [] else BigEndian(n / 256, width - 1) + [n % 256]
  }

  function FromBigEndian(s: bytes): (n: nat)
    ensures n < Pow256(|s|)
  {
    if s == [] then 0 else FromBigEndian(s[..|s| - 1]) * 256 + s[|s| - 1]
  }

  lemma {:induction false} BigEndianInverts(n: nat, width: nat)
    requires n < Pow256(width)
    ensures FromBigEndian(BigEndian(n, width)) == n
  {
    if width > 0 {
      BigEndianInverts(n / 256, width - 1);
      assert BigEndian(n, width)[..width - 1] == BigEndian(n / 256, width - 1);
    }
  }

  lemma {:induction false} FromBigEndianInverts(s: bytes)
    ensures BigEndian(FromBigEndian(s), |s|) == s
  {
    if s != [] {
      var front := s[..|s| - 1];
      FromBigEndianInverts(front);
      assert FromBigEndian(s) / 256 == FromBigEndian(front);
      assert s == front + [s[|s| - 1]];
    }
  }

  // -------------------------------------------------------------- decimal

  predicate IsDigit(b: byte) {
    48 <= b <= 57
  }

  predicate AllDigits(s: bytes) {
    forall i | 0 <= i < |s| :: IsDigit(s[i])
  }

  function Digits(n: nat): (s: bytes)
    ensures s != [] && AllDigits(s)
  {
    if n < 10 then [48 + n] else Digits(n / 10) + [48 + n % 10]
  }

  function Number(s: bytes): nat
    requires AllDigits(s)
  {
    if s == [] then 0 else 10 * Number(s[..|s| - 1]) + (s[|s| - 1] - 48)
  }

  lemma {:induction false} NumberOfDigits(n: nat)
    ensures Number(Digits(n)) == n
  {
    if n >= 10 {
      NumberOfDigits(n / 10);
      assert Digits(n)[..|Digits(n)| - 1] == Digits(n / 10);
    }
  }

  /** No digit string for a number is shorter than the one printed, and only that one is as short. */
  lemma {:induction false} DigitsAreShortest(s: bytes)
    requires s != [] && AllDigits(s)
    ensures |Digits(Number(s))| <= |s|
    ensures |Digits(Number(s))| == |s| ==> Digits(Number(s)) == s
  {
    var front := s[..|s| - 1];
    assert s == front + [s[|s| - 1]];
    if front == [] {
      assert Number(front) == 0;
    } else {
      DigitsAreShortest(front);
      if Number(front) > 0 {
        assert Number(s) / 10 == Number(front) && Number(s) % 10 == s[|s| - 1] - 48;
      }
    }
  }

  function Pow10(k: nat): (p: nat)
    ensures p > 0
  {
    if k == 0 then 1 else 10 * Pow10(k - 1)
  }

  /** Below ten to the `k` a number prints in at most `k` digits. */
  lemma {:induction false} DigitsBound(n: nat, k: nat)
    requires 0 < k && n < Pow10(k)
    ensures |Digits(n)| <= k
  {
    if n >= 10 {
      DigitsBound(n / 10, k - 1);
    }
  }

  /** A digit string of length `k` stays below ten to the `k`. */
  lemma {:induction false} NumberBound(s: bytes)
    requires AllDigits(s)
    ensures Number(s) < Pow10(|s|)
  {
    if s != [] {
      NumberBound(s[..|s| - 1]);
    }
  }
}
