/** Reading base64 text (RFC 4648, section 4) through a 32-bit buffer that is never masked. */
module Base64 {
  import opened Bytes

  const EQUALS: byte := 61

  /** What the lookup table holds for a byte that is no letter of the alphabet. */
  const UNKNOWN: byte := 255

  type sextet = x: int | 0 <= x < 64

  // ------------------------------------------------------------ the alphabet

  /** The alphabet: A-Z, a-z, 0-9, plus and slash. */
  function Letter(v: sextet): byte {
    if v < 26 then 65 + v else if v < 52 then 71 + v else if v < 62 then v - 4 else if v == 62 then 43 else 47
  }

  function Value(b: byte): (v: byte)
    ensures v == UNKNOWN || (v < 64 && Letter(v) == b)
    ensures v == UNKNOWN ==> forall w: sextet :: Letter(w) != b
  {
    if 65 <= b <= 90 then b - 65
    else if 97 <= b <= 122 then b - 71
    else if 48 <= b <= 57 then b + 4
    else if b == 43 then 62
    else if b == 47 then 63
    else UNKNOWN
  }

  method Lookup() returns (lookup: array<byte>)
    ensures fresh(lookup) && lookup.Length == 256
    ensures forall b: byte :: lookup[b] == Value(b)
  {
    lookup := new byte[256](_ => UNKNOWN);
    for index := 0 to 64
      invariant forall b: byte :: lookup[b] == if Value(b) < index then Value(b) else UNKNOWN
    {
      assert Value(Letter(index)) == index;
      lookup[Letter(index)] := index;
    }
  }

  // ------------------------------------------------------------- the meaning

  /** What the reader passes over: padding and white space. */
  predicate IsSkipped(b: byte) {
    b == EQUALS || IsBlank(b)
  }

  function Letters(text: bytes): (r: bytes)
    ensures forall b | b in r :: !IsSkipped(b)
  {
    if text == [] then []
    else Letters(text[..|text| - 1]) + if IsSkipped(text[|text| - 1]) then [] else [text[|text| - 1]]
  }

  predicate AllKnown(letters: bytes) {
    forall b | b in letters :: Value(b) != UNKNOWN
  }

  function Sextets(letters: bytes): (r: seq<sextet>)
    requires AllKnown(letters)
    ensures |r| == |letters|
  {
    seq(|letters|, i requires 0 <= i < |letters| => Value(letters[i]))
  }

  /** The byte a sextet completes, behind a sextet of which `left` bits are not delivered yet. */
  function ByteOf(last: sextet, next: sextet, left: nat): byte
    requires left == 2 || left == 4 || left == 6
  {
    if left == 6 then 4 * (last as int) + next / 16
    else if left == 4 then 16 * (last % 16 as int) + next / 4
    else 64 * (last % 4 as int) + next
  }

  function FirstQuantum(v: seq<sextet>): bytes
    requires |v| >= 4
  {
    [ByteOf(v[0], v[1], 6), ByteOf(v[1], v[2], 4), ByteOf(v[2], v[3], 2)]
  }

  /** The bytes in a run of sextets, four sextets to three bytes; bits that fill no byte are left. */
  function Quanta(v: seq<sextet>): bytes {
    if |v| < 2 then []
    else if |v| == 2 then [ByteOf(v[0], v[1], 6)]
    else if |v| == 3 then [ByteOf(v[0], v[1], 6), ByteOf(v[1], v[2], 4)]
    else FirstQuantum(v) + Quanta(v[4..])
  }

  function Decoded(text: bytes): Option<bytes> {
    if AllKnown(Letters(text)) then Just(Quanta(Sextets(Letters(text)))) else Nothing
  }

  /** How many bits of the last sextet fill no byte yet. */
  function Left(count: nat): nat {
    if count % 4 == 0 then 0 else if count % 4 == 1 then 6 else if count % 4 == 2 then 4 else 2
  }

  function Pow2(k: nat): (p: nat)
    ensures p > 0
  {
    if k == 0 then 1 else 2 * Pow2(k - 1)
  }

  lemma SmallPowers()
    ensures Pow2(0) == 1 && Pow2(2) == 4 && Pow2(4) == 16 && Pow2(6) == 64
  {
    assert Pow2(3) == 8 && Pow2(5) == 32;
  }

  /** What one sextet more adds behind a run of sextets: a byte unless it opens a quantum. */
  function Added(v: seq<sextet>, next: sextet): bytes {
    if |v| % 4 == 0 then [] else [ByteOf(v[|v| - 1], next, Left(|v|))]
  }

  lemma SameQuarter(v: seq<sextet>, next: sextet)
    requires |v| >= 4
    ensures Added(v, next) == Added(v[4..], next)
  {
    assert Left(|v|) == Left(|v| - 4) && |v| % 4 == (|v| - 4) % 4;
    hide Left, ByteOf;
  }

  lemma QuantaPastFirst(v: seq<sextet>)
    requires |v| >= 4
    ensures Quanta(v) == FirstQuantum(v) + Quanta(v[4..])
  {
    hide FirstQuantum;
  }

  lemma SameFirstQuantum(v: seq<sextet>, next: sextet)
    requires |v| >= 4
    ensures FirstQuantum(v + [next]) == FirstQuantum(v) && (v + [next])[4..] == v[4..] + [next]
  {
    hide ByteOf;
  }

  lemma PastFirstQuantum(v: seq<sextet>, next: sextet)
    requires |v| >= 4
    ensures Quanta(v) == FirstQuantum(v) + Quanta(v[4..])
    ensures Quanta(v + [next]) == FirstQuantum(v) + Quanta(v[4..] + [next])
  {
    hide *;
    QuantaPastFirst(v);
    QuantaPastFirst(v + [next]);
    SameFirstQuantum(v, next);
  }

  lemma AddedWithinQuantum(v: seq<sextet>, next: sextet)
    requires |v| < 4
    ensures |v| == 0 ==> Added(v, next) == []
    ensures |v| == 1 ==> Added(v, next) == [ByteOf(v[0], next, 6)]
    ensures |v| == 2 ==> Added(v, next) == [ByteOf(v[1], next, 4)]
    ensures |v| == 3 ==> Added(v, next) == [ByteOf(v[2], next, 2)]
  {
    hide ByteOf;
  }

  lemma QuantumOf(a: sextet, b: sextet, c: sextet, d: sextet)
    ensures Quanta([]) == [] && Quanta([a]) == []
    ensures Quanta([a, b]) == [ByteOf(a, b, 6)]
    ensures Quanta([a, b, c]) == [ByteOf(a, b, 6), ByteOf(b, c, 4)]
    ensures Quanta([a, b, c, d]) == [ByteOf(a, b, 6), ByteOf(b, c, 4), ByteOf(c, d, 2)]
  {
    hide ByteOf;
    assert [a, b, c, d][4..] == [];
  }

  lemma SecondOfQuantum(a: sextet, next: sextet)
    ensures Quanta([a] + [next]) == Quanta([a]) + Added([a], next)
  {
    AddedWithinQuantum([a], next);
    QuantumOf(a, next, next, next);
    hide *;
    assert [a] + [next] == [a, next];
  }

  lemma ThirdOfQuantum(a: sextet, b: sextet, next: sextet)
    ensures Quanta([a, b] + [next]) == Quanta([a, b]) + Added([a, b], next)
  {
    AddedWithinQuantum([a, b], next);
    QuantumOf(a, b, next, next);
    hide *;
    assert [a, b] + [next] == [a, b, next];
  }

  lemma FourthOfQuantum(a: sextet, b: sextet, c: sextet, next: sextet)
    ensures Quanta([a, b, c] + [next]) == Quanta([a, b, c]) + Added([a, b, c], next)
  {
    AddedWithinQuantum([a, b, c], next);
    QuantumOf(a, b, c, next);
    hide *;
    assert [a, b, c] + [next] == [a, b, c, next];
  }

  lemma FirstOfQuantum(next: sextet)
    ensures Quanta([] + [next]) == Quanta([]) + Added([], next)
  {
    assert [] + [next] == [next];
  }

  lemma {:induction false} OneMore(v: seq<sextet>, next: sextet)
    ensures Quanta(v + [next]) == Quanta(v) + Added(v, next)
  {
    hide *;
    if |v| >= 4 {
      PastFirstQuantum(v, next);
      SameQuarter(v, next);
      OneMore(v[4..], next);
      Regrouped(FirstQuantum(v), Quanta(v[4..]), Added(v[4..], next));
    } else {
      if |v| == 0 {
        assert v == [];
        FirstOfQuantum(next);
      } else if |v| == 1 {
        assert v == [v[0]];
        SecondOfQuantum(v[0], next);
      } else if |v| == 2 {
        assert v == [v[0], v[1]];
        ThirdOfQuantum(v[0], v[1], next);
      } else {
        assert v == [v[0], v[1], v[2]];
        FourthOfQuantum(v[0], v[1], v[2], next);
      }
    }
  }

  /** Skipped bytes aside, a text is the letters of its parts. */
  lemma {:induction false} LettersInParts(a: bytes, b: bytes)
    ensures Letters(a + b) == Letters(a) + Letters(b)
  {
    if b == [] {
      assert a + b == a;
    } else {
      assert (a + b)[..|a + b| - 1] == a + b[..|b| - 1];
      LettersInParts(a, b[..|b| - 1]);
    }
  }

  /** What is shifted out of 32 bits is shifted out at the top. */
  lemma ShiftedOut(buffer: nat)
    ensures buffer * 64 % 0x1_0000_0000 == 64 * (buffer % 0x400_0000)
    ensures buffer % 0x400_0000 % 64 == buffer % 64
  {
    var q, kept := buffer / 0x400_0000, buffer % 0x400_0000;
    assert buffer == 0x400_0000 * q + kept;
    LowThirtyTwo(q, 64 * kept);
    LowSix(kept / 64, kept % 64);
    LowSix(0x10_0000 * q + kept / 64, kept % 64);
  }

  lemma LowThirtyTwo(above: nat, below: nat)
    requires below < 0x1_0000_0000
    ensures (0x1_0000_0000 * above + below) % 0x1_0000_0000 == below
  {
  }

  lemma LowSix(above: nat, below: nat)
    requires below < 64
    ensures (64 * above + below) % 64 == below
  {
  }

  /** The byte delivered is in the low bits of the last sextet and the next, whatever else the buffer holds. */
  lemma Delivered(kept: nat, last: sextet, value: sextet)
    requires kept % 64 == last
    ensures (64 * kept + value) / 16 % 256 == ByteOf(last, value, 6)
    ensures (64 * kept + value) / 4 % 256 == ByteOf(last, value, 4)
    ensures (64 * kept + value) % 256 == ByteOf(last, value, 2)
  {
    var d, l, n := kept / 64, last as int, value as int;
    assert kept == 64 * d + l;
    hide ByteOf;
    assert (64 * kept + n) / 16 == 256 * d + 4 * l + n / 16;
    assert (64 * kept + n) / 4 == 256 * (4 * d + l / 16) + 16 * (l % 16) + n / 4;
    assert 64 * kept + n == 256 * (16 * d + l / 4) + 64 * (l % 4) + n;
    Delivers(4 * l + n / 16, d);
    Delivers(16 * (l % 16) + n / 4, 4 * d + l / 16);
    Delivers(64 * (l % 4) + n, 16 * d + l / 4);
    Bytes3(last, value);
  }

  lemma Bytes3(last: sextet, value: sextet)
    ensures ByteOf(last, value, 6) == 4 * (last as int) + value / 16
    ensures ByteOf(last, value, 4) == 16 * (last % 16 as int) + value / 4
    ensures ByteOf(last, value, 2) == 64 * (last % 4 as int) + value
  {
  }

  lemma Delivers(b: nat, above: nat)
    requires b < 256
    ensures (256 * above + b) % 256 == b
  {
  }

  // -------------------------------------------------------------- the reader

  /** The buffer after one sextet more: its low bits, and the byte that leaves it. */
  lemma Shifted(buffer: nat, v: seq<sextet>, value: sextet)
    requires v != [] ==> buffer % 64 == v[|v| - 1]
    ensures var after, bits := buffer * 64 % 0x1_0000_0000 + value, Left(|v|) + 6;
            && after < 0x1_0000_0000 && after % 64 == value
            && Left(|v| + 1) == (if bits >= 8 then bits - 8 else bits)
            && Added(v, value) == if bits >= 8 then [after / Pow2(bits - 8) % 256] else []
  {
    ShiftedOut(buffer);
    SmallPowers();
    hide Pow2, ByteOf;
    if |v| % 4 != 0 {
      Delivered(buffer % 0x400_0000, v[|v| - 1], value);
    }
  }

  lemma OneMoreLetter(text: bytes, index: nat)
    requires index < |text| && !IsSkipped(text[index])
    ensures Letters(text[..index + 1]) == Letters(text[..index]) + [text[index]]
    ensures Value(text[index]) == UNKNOWN ==> Decoded(text) == Nothing
  {
    assert text[..index + 1][..index] == text[..index];
    assert text[index] in Letters(text[..index + 1]);
    LettersInParts(text[..index + 1], text[index + 1..]);
    assert text == text[..index + 1] + text[index + 1..];
    assert text[index] in Letters(text);
  }

  method Decode(text: bytes) returns (result: Option<bytes>)
    ensures result == Decoded(text)
  {
    hide Letters, Quanta, Added, Pow2, Value, ByteOf, IsSkipped, Left;
    var lookup := Lookup();
    var out := [];
    var buffer: nat := 0;
    var bits: nat := 0;
    ghost var v: seq<sextet> := [];
    NothingYet(text);
    for index := 0 to |text|
      invariant forall b: byte :: lookup[b] == Value(b)
      invariant AllKnown(Letters(text[..index])) && v == Sextets(Letters(text[..index]))
      invariant out == Quanta(v) && bits == Left(|v|) && buffer < 0x1_0000_0000
      invariant v != [] ==> buffer % 64 == v[|v| - 1]
    {
      var b := text[index];
      if IsSkipped(b) {
        OneSkipped(text, index);
        continue;
      }
      OneMoreLetter(text, index);
      var value := lookup[b];
      if value == UNKNOWN {
        return Nothing;
      }
      OneMore(v, value);
      Shifted(buffer, v, value);
      v := v + [value];
      buffer := buffer * 64 % 0x1_0000_0000 + value;
      bits := bits + 6;
      if bits >= 8 {
        bits := bits - 8;
        out := out + [buffer / Pow2(bits) % 256];
      }
    }
    assert text[..|text|] == text;
    return Just(out);
  }

  lemma NothingYet(text: bytes)
    ensures Letters(text[..0]) == [] && Quanta([]) == [] && Left(0) == 0
  {
  }

  lemma OneSkipped(text: bytes, index: nat)
    requires index < |text| && IsSkipped(text[index])
    ensures Letters(text[..index + 1]) == Letters(text[..index])
  {
    assert text[..index + 1][..index] == text[..index];
  }
}
