/** Decoding undoes the encoding of RFC 4648, section 4, however the text is broken up, and reads a plain bit stream. */
module Base64Laws {
  import opened Bytes
  import opened Base64

  // ------------------------------------------------------------ the encoding

  /** The letters are A to Z, a to z, 0 to 9, plus and slash, in this order, and padding is an equals sign. */
  lemma LettersInOrder(v: sextet)
    ensures v < 26 ==> Letter(v) == 'A' as int + v
    ensures 26 <= v < 52 ==> Letter(v) == 'a' as int + (v - 26)
    ensures 52 <= v < 62 ==> Letter(v) == '0' as int + (v - 52)
    ensures Letter(62) == '+' as int && Letter(63) == '/' as int && EQUALS == '=' as int
  {
  }

  function Quantum(x: byte, y: byte, z: byte): seq<sextet> {
    [x / 4, 16 * (x % 4) + y / 16, 4 * (y % 16) + z / 64, z % 64]
  }

  /** The sextets of a text, the last one filled up with zero bits. */
  function Units(s: bytes): seq<sextet> {
    if |s| == 0 then []
    else if |s| == 1 then Quantum(s[0], 0, 0)[..2]
    else if |s| == 2 then Quantum(s[0], s[1], 0)[..3]
    else Quantum(s[0], s[1], s[2]) + Units(s[3..])
  }

  function Written(v: seq<sextet>): (r: bytes)
    ensures |r| == |v|
  {
    seq(|v|, i requires 0 <= i < |v| => Letter(v[i]))
  }

  function Padding(s: bytes): bytes {
    if |s| % 3 == 0 then [] else if |s| % 3 == 1 then [EQUALS, EQUALS] else [EQUALS]
  }

  function Encode(s: bytes): bytes {
    Written(Units(s)) + Padding(s)
  }

  // -------------------------------------------------------------- round trip

  lemma LetterIsKnown(v: sextet)
    ensures Value(Letter(v)) == v && !IsSkipped(Letter(v))
  {
  }

  lemma {:induction false} WrittenAreLetters(v: seq<sextet>)
    ensures Letters(Written(v)) == Written(v)
    ensures AllKnown(Written(v)) && Sextets(Written(v)) == v
  {
    forall i | 0 <= i < |v| ensures Value(Written(v)[i]) == v[i] && !IsSkipped(Written(v)[i]) {
      LetterIsKnown(v[i]);
    }
    AllAreLetters(Written(v));
  }

  lemma {:induction false} AllAreLetters(text: bytes)
    requires forall i | 0 <= i < |text| :: !IsSkipped(text[i])
    ensures Letters(text) == text
  {
    if text != [] {
      AllAreLetters(text[..|text| - 1]);
      assert text == text[..|text| - 1] + [text[|text| - 1]];
    }
  }

  lemma PaddingIsSkipped(s: bytes)
    ensures Letters(Padding(s)) == []
  {
    assert Letters([EQUALS]) == [] by {
      assert [EQUALS][..0] == [];
    }
    assert [EQUALS, EQUALS][..1] == [EQUALS];
  }

  lemma LettersOfEncoding(s: bytes)
    ensures Letters(Encode(s)) == Written(Units(s))
  {
    WrittenAreLetters(Units(s));
    PaddingIsSkipped(s);
    LettersInParts(Written(Units(s)), Padding(s));
  }

  lemma QuantumIsThreeBytes(x: byte, y: byte, z: byte)
    ensures var q := Quantum(x, y, z);
            ByteOf(q[0], q[1], 6) == x && ByteOf(q[1], q[2], 4) == y && ByteOf(q[2], q[3], 2) == z
  {
    assert (16 * (x % 4) + y / 16) / 16 == x % 4 && (16 * (x % 4) + y / 16) % 16 == y / 16;
    assert (4 * (y % 16) + z / 64) / 4 == y % 16 && (4 * (y % 16) + z / 64) % 4 == z / 64;
  }

  lemma {:induction false} UnitsComeBack(s: bytes)
    ensures Quanta(Units(s)) == s
  {
    if |s| >= 3 {
      QuantumIsThreeBytes(s[0], s[1], s[2]);
      UnitsComeBack(s[3..]);
      var q := Quantum(s[0], s[1], s[2]);
      assert (q + Units(s[3..]))[4..] == Units(s[3..]);
      assert s == [s[0], s[1], s[2]] + s[3..];
      hide ByteOf, Quantum;
    } else if |s| == 2 {
      QuantumIsThreeBytes(s[0], s[1], 0);
    } else if |s| == 1 {
      QuantumIsThreeBytes(s[0], 0, 0);
    }
  }

  /** Any text whose letters are those of the encoding decodes to the bytes encoded: blanks and padding may lie anywhere. */
  lemma RoundTrip(s: bytes, text: bytes)
    requires Letters(text) == Letters(Encode(s))
    ensures Decoded(text) == Just(s)
  {
    hide Encode, Letters, Quanta, Units;
    LettersOfEncoding(s);
    WrittenAreLetters(Units(s));
    UnitsComeBack(s);
  }

  // ------------------------------------------- which texts are encodings

  /** No sextet on its own behind the last quantum, and no bit set that fills no byte. */
  predicate Canonical(v: seq<sextet>) {
    && |v| % 4 != 1
    && (|v| % 4 == 2 ==> v[|v| - 1] % 16 == 0)
    && (|v| % 4 == 3 ==> v[|v| - 1] % 4 == 0)
  }

  lemma QuantumComesBack(a: sextet, b: sextet, c: sextet, d: sextet)
    ensures Quantum(ByteOf(a, b, 6), ByteOf(b, c, 4), ByteOf(c, d, 2)) == [a, b, c, d]
    ensures Units([ByteOf(a, b, 6)]) == [a, b - b % 16]
    ensures Units([ByteOf(a, b, 6), ByteOf(b, c, 4)]) == [a, b, c - c % 4]
  {
    var x, y, z := ByteOf(a, b, 6), ByteOf(b, c, 4), ByteOf(c, d, 2);
    assert x / 4 == a && x % 4 == b / 16 && y / 16 == b % 16 && y % 16 == c / 4 && z / 64 == c % 4 && z % 64 == d;
    assert 16 * (b / 16) + b % 16 == b && 4 * (c / 4) + c % 4 == c;
    hide ByteOf;
  }

  lemma CanonicalPastQuantum(v: seq<sextet>)
    requires |v| >= 4
    ensures Canonical(v) <==> Canonical(v[4..])
  {
    assert |v| % 4 == |v[4..]| % 4;
  }

  lemma QuantaPastQuantum(v: seq<sextet>)
    requires |v| >= 4
    ensures Units(Quanta(v)) == [v[0], v[1], v[2], v[3]] + Units(Quanta(v[4..]))
  {
    QuantumComesBack(v[0], v[1], v[2], v[3]);
    hide ByteOf, Quantum;
    assert Quanta(v)[3..] == Quanta(v[4..]);
  }

  lemma LastOfTwo(a: sextet, b: sextet)
    ensures Units(Quanta([a, b])) == [a, b] <==> Canonical([a, b])
  {
    QuantumComesBack(a, b, 0, 0);
    QuantumOf(a, b, 0, 0);
    hide ByteOf, Units, Quanta;
    assert [a, b - b % 16] == [a, b] <==> b % 16 == 0;
  }

  lemma LastOfThree(a: sextet, b: sextet, c: sextet)
    ensures Units(Quanta([a, b, c])) == [a, b, c] <==> Canonical([a, b, c])
  {
    QuantumComesBack(a, b, c, 0);
    QuantumOf(a, b, c, 0);
    hide ByteOf, Units, Quanta;
    assert [a, b, c - c % 4] == [a, b, c] <==> c % 4 == 0;
  }

  lemma NoneOrOne(a: sextet)
    ensures Units(Quanta([])) == [] && Canonical([])
    ensures Units(Quanta([a])) == [] && !Canonical([a])
  {
  }

  lemma {:induction false} QuantaComeBack(v: seq<sextet>)
    ensures Units(Quanta(v)) == v <==> Canonical(v)
  {
    hide *;
    if |v| >= 4 {
      QuantaComeBack(v[4..]);
      CanonicalPastQuantum(v);
      QuantaPastQuantum(v);
      SameBehind([v[0], v[1], v[2], v[3]], Units(Quanta(v[4..])), v[4..]);
      assert v == [v[0], v[1], v[2], v[3]] + v[4..];
    } else if |v| == 3 {
      assert v == [v[0], v[1], v[2]];
      LastOfThree(v[0], v[1], v[2]);
    } else if |v| == 2 {
      assert v == [v[0], v[1]];
      LastOfTwo(v[0], v[1]);
    } else {
      assert v == [] || v == [v[0]];
      NoneOrOne(if v == [] then 0 else v[0]);
    }
  }

  lemma SameBehind<T>(front: seq<T>, a: seq<T>, b: seq<T>)
    ensures front + a == front + b <==> a == b
  {
    assert (front + a)[|front|..] == a && (front + b)[|front|..] == b;
  }

  lemma KnownAreWritten(letters: bytes)
    requires AllKnown(letters)
    ensures Written(Sextets(letters)) == letters
  {
    forall i | 0 <= i < |letters| ensures Letter(Value(letters[i])) == letters[i] {
      assert letters[i] in letters;
    }
  }

  /** A text that decodes is an encoding, blanks and padding aside, exactly when its last letter is canonical. */
  lemma EncodingIffCanonical(text: bytes)
    requires Decoded(text).Just?
    ensures Letters(Encode(Decoded(text).value)) == Letters(text) <==> Canonical(Sextets(Letters(text)))
  {
    var v := Sextets(Letters(text));
    hide Letters, Quanta, Units, Encode, Canonical;
    LettersOfEncoding(Quanta(v));
    QuantaComeBack(v);
    KnownAreWritten(Letters(text));
    WrittenAreLetters(v);
    WrittenAreLetters(Units(Quanta(v)));
  }

  // -------------------------------------------------------------- bit stream

  function Num64(v: seq<sextet>): nat {
    if v == [] then 0 else 64 * Num64(v[..|v| - 1]) + v[|v| - 1]
  }

  /** The bits of the last sextet that fill no byte. */
  function Undelivered(v: seq<sextet>): nat {
    if v == [] then 0 else v[|v| - 1] % Pow2(Left(|v|))
  }

  ghost predicate Streams(v: seq<sextet>) {
    && 8 * |Quanta(v)| + Left(|v|) == 6 * |v|
    && FromBigEndian(Quanta(v)) * Pow2(Left(|v|)) + Undelivered(v) == Num64(v)
  }

  lemma LeftTakesTurns(n: nat)
    ensures n % 4 == 0 ==> Left(n) == 0 && Left(n + 1) == 6
    ensures n % 4 == 1 ==> Left(n) == 6 && Left(n + 1) == 4
    ensures n % 4 == 2 ==> Left(n) == 4 && Left(n + 1) == 2
    ensures n % 4 == 3 ==> Left(n) == 2 && Left(n + 1) == 0
  {
  }

  /** Six bits more behind a number of which some bits are delivered, in bytes, and the rest are not. */
  lemma SixBitsMore(f: nat, last: sextet, next: sextet)
    ensures (256 * f + ByteOf(last, next, 6)) * 16 + next % 16 == 64 * (f * 64 + last % 64) + next
    ensures (256 * f + ByteOf(last, next, 4)) * 4 + next % 4 == 64 * (f * 16 + last % 16) + next
    ensures 256 * f + ByteOf(last, next, 2) == 64 * (f * 4 + last % 4) + next
  {
    Bytes3(last, next);
    hide ByteOf;
    assert next == 16 * (next / 16) + next % 16 == 4 * (next / 4) + next % 4;
  }

  lemma NextByte(front: seq<sextet>, next: sextet)
    ensures var f, v, n := Quanta(front), Quanta(front + [next]), |front|;
            && (n % 4 == 0 ==> v == f)
            && (n % 4 != 0 ==> |v| == |f| + 1)
            && (n % 4 == 1 ==> FromBigEndian(v) == 256 * FromBigEndian(f) + ByteOf(front[n - 1], next, 6))
            && (n % 4 == 2 ==> FromBigEndian(v) == 256 * FromBigEndian(f) + ByteOf(front[n - 1], next, 4))
            && (n % 4 == 3 ==> FromBigEndian(v) == 256 * FromBigEndian(f) + ByteOf(front[n - 1], next, 2))
  {
    OneMore(front, next);
    LeftTakesTurns(|front|);
    var f, added := Quanta(front), Added(front, next);
    hide Quanta, ByteOf, Left;
    if |front| % 4 != 0 {
      assert (f + added)[..|f|] == f;
    }
  }

  /** The law with the powers written out. */
  lemma StreamsByTurn(v: seq<sextet>)
    ensures var f, n := FromBigEndian(Quanta(v)), |v|;
            && (n % 4 == 0 ==> (Streams(v) <==> 8 * |Quanta(v)| == 6 * n && f == Num64(v)))
            && (n % 4 == 1 ==> (Streams(v) <==> 8 * |Quanta(v)| + 6 == 6 * n && f * 64 + v[n - 1] % 64 == Num64(v)))
            && (n % 4 == 2 ==> (Streams(v) <==> 8 * |Quanta(v)| + 4 == 6 * n && f * 16 + v[n - 1] % 16 == Num64(v)))
            && (n % 4 == 3 ==> (Streams(v) <==> 8 * |Quanta(v)| + 2 == 6 * n && f * 4 + v[n - 1] % 4 == Num64(v)))
  {
    SmallPowers();
    LeftTakesTurns(|v|);
    hide Pow2, Left, Quanta, Num64, FromBigEndian;
  }

  lemma TurnAround(n: nat)
    ensures n % 4 == 3 ==> (n + 1) % 4 == 0
    ensures n % 4 < 3 ==> (n + 1) % 4 == n % 4 + 1
  {
  }

  lemma NextStreams(front: seq<sextet>, next: sextet)
    requires Streams(front)
    ensures Streams(front + [next])
  {
    hide *;
    var v, n := front + [next], |front|;
    StreamsByTurn(front);
    StreamsByTurn(v);
    TurnAround(n);
    NextByte(front, next);
    NumOfNext(front, next);
    if n % 4 != 0 {
      SixBitsMore(FromBigEndian(Quanta(front)), front[n - 1], next);
    }
  }

  lemma NumOfNext(front: seq<sextet>, next: sextet)
    ensures Num64(front + [next]) == 64 * Num64(front) + next
  {
    assert (front + [next])[..|front|] == front;
  }

  /** The bytes are the front of the bit stream the sextets are, and what is left of it is less than a byte. */
  lemma {:induction false} BitStream(v: seq<sextet>)
    ensures 8 * |Quanta(v)| + Left(|v|) == 6 * |v|
    ensures FromBigEndian(Quanta(v)) * Pow2(Left(|v|)) + Undelivered(v) == Num64(v)
  {
    if v == [] {
      assert Quanta(v) == [];
    } else {
      BitStream(v[..|v| - 1]);
      NextStreams(v[..|v| - 1], v[|v| - 1]);
      assert v == v[..|v| - 1] + [v[|v| - 1]];
    }
  }

  // ---------------------------------------------------------------- refusals

  /** A letter, a digit, plus or slash; an equals sign; or a tab, a line break of either kind, a form feed or a blank. */
  predicate MayStand(b: byte) {
    || 'A' as int <= b <= 'Z' as int || 'a' as int <= b <= 'z' as int || '0' as int <= b <= '9' as int
    || b == '+' as int || b == '/' as int || b == '=' as int
    || b == 9 || b == 10 || b == 12 || b == 13 || b == 32
  }

  lemma {:induction false} LettersAre(text: bytes, b: byte)
    ensures b in Letters(text) <==> b in text && !IsSkipped(b)
  {
    if text != [] {
      var front, last := text[..|text| - 1], text[|text| - 1];
      LettersAre(front, b);
      assert text == front + [last];
    }
  }

  /** A text is refused exactly when something else stands in it, wherever. */
  lemma RefusedIff(text: bytes)
    ensures Decoded(text).Nothing? <==> exists b | b in text :: !MayStand(b)
  {
    forall b: byte
      ensures b in Letters(text) <==> b in text && !IsSkipped(b)
      ensures MayStand(b) <==> IsSkipped(b) || Value(b) != UNKNOWN
    {
      LettersAre(text, b);
    }
    hide Letters, Value, IsSkipped, MayStand;
  }
}
