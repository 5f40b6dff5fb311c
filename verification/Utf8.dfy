/** UTF-8 validity, checked byte by byte, against what UTF-8 is: the spelling of code points in section 3 of RFC 3629. */
module Utf8 {
  import opened Bytes

  /** A code point that is no surrogate. */
  type scalar = c: int | 0 <= c < 0x11_0000 && !(0xD800 <= c < 0xE000)

  function Spelled(c: scalar): (s: bytes)
    ensures s != []
  {
    if c < 0x80 then [c]
    else if c < 0x800 then [192 + c / 64, 128 + c % 64]
    else if c < 0x1_0000 then [224 + c / 4096, 128 + c / 64 % 64, 128 + c % 64]
    else [240 + c / 262_144, 128 + c / 4096 % 64, 128 + c / 64 % 64, 128 + c % 64]
  }

  function SpelledAll(points: seq<scalar>): bytes {
    if points == [] then [] else Spelled(points[0]) + SpelledAll(points[1..])
  }

  lemma StepOver(c: scalar, rest: bytes)
    ensures Utf8Step(Spelled(c) + rest) == |Spelled(c)|
  {
    if c < 0x80 {
    } else if c < 0x800 {
      assert 2 <= c / 64 < 32;
    } else if c < 0x1_0000 {
      StepOverThree(c, rest);
    } else {
      StepOverFour(c, rest);
    }
  }

  lemma StepOverThree(c: scalar, rest: bytes)
    requires 0x800 <= c < 0x1_0000
    ensures Utf8Step(Spelled(c) + rest) == 3
  {
    var x, y := c / 4096, c / 64 % 64;
    assert x < 16 && c == 4096 * x + 64 * y + c % 64;
    assert x == 0 ==> y >= 32;
    assert x == 13 ==> y < 32;
  }

  lemma StepOverFour(c: scalar, rest: bytes)
    requires 0x1_0000 <= c
    ensures Utf8Step(Spelled(c) + rest) == 4
  {
    var x, y := c / 262_144, c / 4096 % 64;
    assert x <= 4 && c / 4096 == 64 * x + y;
    assert x == 0 ==> y >= 16;
    assert x == 4 ==> y < 16;
  }

  lemma LowSix(q: nat, r: nat)
    requires r < 64
    ensures (64 * q + r) / 64 == q && (64 * q + r) % 64 == r
  {
  }

  lemma Sixes(a: nat, b: nat, c: nat)
    requires b < 64 && c < 64
    ensures var n := 4096 * a + 64 * b + c; n / 4096 == a && n / 64 % 64 == b && n % 64 == c
  {
    var n := 4096 * a + 64 * b + c;
    LowSix(64 * a + b, c);
    LowSix(a, b);
    assert n == 64 * (64 * a + b) + c;
    assert n / 4096 == n / 64 / 64;
  }

  lemma OnePoint(s: bytes) returns (c: scalar)
    requires s != [] && Utf8Step(s) > 0
    ensures Spelled(c) == s[..Utf8Step(s)]
  {
    var n := Utf8Step(s);
    if n == 1 {
      c := s[0];
    } else if n == 2 {
      c := 64 * ((s[0] as int) - 192) + ((s[1] as int) - 128);
    } else if n == 3 {
      c := ThreeBytes(s);
    } else {
      c := FourBytes(s);
    }
  }

  lemma ThreeBytes(s: bytes) returns (c: scalar)
    requires s != [] && Utf8Step(s) == 3
    ensures Spelled(c) == s[..3]
  {
    var x: int, y: int, z: int := s[0], s[1], s[2];
    Sixes(x - 224, y - 128, z - 128);
    c := 4096 * (x - 224) + 64 * (y - 128) + (z - 128);
  }

  lemma FourBytes(s: bytes) returns (c: scalar)
    requires s != [] && Utf8Step(s) == 4
    ensures Spelled(c) == s[..4]
  {
    var w: int, x: int, y: int, z: int := s[0], s[1], s[2], s[3];
    var high := 64 * (w - 240) + (x - 128);
    Sixes(high, y - 128, z - 128);
    c := 4096 * high + 64 * (y - 128) + (z - 128);
    assert c / 262_144 == high / 64;
  }

  lemma {:induction false} PointsOf(s: bytes) returns (points: seq<scalar>)
    requires IsUtf8(s)
    ensures SpelledAll(points) == s
  {
    if s == [] {
      points := [];
    } else {
      var n := Utf8Step(s);
      var c := OnePoint(s);
      var rest := PointsOf(s[n..]);
      points := [c] + rest;
      assert points[1..] == rest && s[..n] + s[n..] == s;
    }
  }

  lemma {:induction false} SpelledIsUtf8(points: seq<scalar>)
    ensures IsUtf8(SpelledAll(points))
  {
    if points != [] {
      var rest := SpelledAll(points[1..]);
      SpelledIsUtf8(points[1..]);
      StepOver(points[0], rest);
      assert (Spelled(points[0]) + rest)[|Spelled(points[0])|..] == rest;
    }
  }

  /** The bytes taken for UTF-8 are exactly the spellings of code points. */
  lemma IsUtf8Iff(s: bytes)
    ensures IsUtf8(s) <==> exists points :: SpelledAll(points) == s
  {
    if IsUtf8(s) {
      var points := PointsOf(s);
    }
    forall points | SpelledAll(points) == s
      ensures IsUtf8(s)
    {
      SpelledIsUtf8(points);
    }
  }
}
