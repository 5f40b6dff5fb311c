/** The one form of the wire the encoder gives each value. */
module RencodeWritten {
  import opened Bytes
  import opened RencodeValue
  import opened RencodeEncode
  import opened RencodeDecode
  import opened RencodeWire

  lemma ByteLayout(n: nat)
    ensures BigEndian(n, 1) == [n % 256]
    ensures BigEndian(n, 2) == [n / 256 % 256, n % 256]
  {
    assert BigEndian(n / 256, 1) == BigEndian(n / 256 / 256, 0) + [n / 256 % 256];
    assert BigEndian(n, 1) == BigEndian(n / 256, 0) + [n % 256];
  }

  lemma FourByteLayout(n: nat)
    ensures BigEndian(n, 4) == [n / 16_777_216 % 256, n / 65_536 % 256, n / 256 % 256, n % 256]
  {
    ByteLayout(n / 65_536);
    assert n / 256 / 256 == n / 65_536;
    assert BigEndian(n / 256, 3) == BigEndian(n / 65_536, 2) + [n / 256 % 256];
  }

  lemma EightByteLayout(n: nat)
    ensures BigEndian(n, 8)
         == BigEndian(n / 4_294_967_296, 4) + [n / 16_777_216 % 256, n / 65_536 % 256, n / 256 % 256, n % 256]
  {
    var a := n / 256;
    var b := a / 256;
    var c := b / 256;
    var d := c / 256;
    assert b == n / 65_536 && c == n / 16_777_216 && d == n / 4_294_967_296;
    assert BigEndian(n, 8) == BigEndian(a, 7) + [n % 256];
    assert BigEndian(a, 7) == BigEndian(b, 6) + [a % 256];
    assert BigEndian(b, 6) == BigEndian(c, 5) + [b % 256];
    assert BigEndian(c, 5) == BigEndian(d, 4) + [c % 256];
    hide BigEndian;
  }

  /** The four low bytes, most significant first, of a number of either sign. */
  function LowerHalf(number: int): bytes {
    [number / 16_777_216 % 256, number / 65_536 % 256, number / 256 % 256, number % 256]
  }

  /** The form an integer is given: the first of these that holds it. */
  function FormOfInt(n: i64): Form {
    var number: int := n;
    if 0 <= number < 44 then Plain(number)
    else if -32 <= number < 0 then Plain(69 - number)
    else if -128 <= number < 128 then Fixed(62, [number % 256])
    else if -32_768 <= number < 32_768 then Fixed(63, [number / 256 % 256, number % 256])
    else if -2_147_483_648 <= number < 2_147_483_648 then Fixed(64, LowerHalf(number))
    else Fixed(65, LowerHalf(number / 4_294_967_296) + LowerHalf(number))
  }

  function FormOfString(raw: bytes): Form {
    if |raw| < 64 then Fixed(128 + |raw|, raw) else Prefixed(Digits(|raw|), raw)
  }

  /** The form every value is given. */
  function FormOf(v: Value): Form
    decreases v, 0
  {
    match v
    case None => Plain(69)
    case Bool(flag) => Plain(if flag then 67 else 68)
    case Int(number) => FormOfInt(number)
    case BigInt(digits) => Decimal(digits)
    case Float32(single) => Fixed(66, single)
    case Float64(double) => Fixed(44, double)
    case Bytes(raw) => FormOfString(raw)
    case Str(text) => FormOfString(text)
    case List(items) => if |items| < 64 then Counted(192 + |items|, FormsOf(items)) else Open(59, FormsOf(items))
    case Dict(entries) =>
      if |entries| < 25 then Counted(102 + |entries|, FormsOfEntries(entries)) else Open(60, FormsOfEntries(entries))
  }

  function FormsOf(items: seq<Value>): seq<Form>
    decreases items, 1
  {
    if items == [] then [] else [FormOf(items[0])] + FormsOf(items[1..])
  }

  function FormsOfEntries(entries: seq<Entry>): seq<Form>
    decreases entries, 1
  {
    if entries == [] then []
    else
      assert entries decreases to entries[0];
      [FormOf(entries[0].key), FormOf(entries[0].value)] + FormsOfEntries(entries[1..])
  }

  /** Adding whole bytes on top leaves the bytes below as they are. */
  lemma LowBytes(n: int, k: int)
    ensures (n + 256 * k) % 256 == n % 256 && (n + 256 * k) / 256 == n / 256 + k
  {
  }

  lemma LowFour(n: int, k: int)
    ensures var m := n + 4_294_967_296 * k;
            && m % 256 == n % 256 && m / 256 % 256 == n / 256 % 256
            && m / 65_536 % 256 == n / 65_536 % 256 && m / 16_777_216 % 256 == n / 16_777_216 % 256
            && m / 4_294_967_296 == n / 4_294_967_296 + k
  {
    LowBytes(n, 16_777_216 * k);
    LowBytes(n / 256, 65_536 * k);
    LowBytes(n / 256 / 256, 256 * k);
    LowBytes(n / 256 / 256 / 256, k);
    Quarters(n);
    Quarters(n + 4_294_967_296 * k);
  }

  lemma Quarters(n: int)
    ensures n / 256 / 256 == n / 65_536 && n / 256 / 256 / 256 == n / 16_777_216
    ensures n / 256 / 256 / 256 / 256 == n / 4_294_967_296
  {
  }

  lemma NarrowIsWritten(n: i64)
    requires -32_768 <= n < 32_768
    ensures -128 <= n < 128 ==> Signed(n, 1) == [(n as int) % 256]
    ensures Signed(n, 2) == [(n as int) / 256 % 256, (n as int) % 256]
  {
    Pow256Values();
    var number: int := n;
    LowBytes(number, 1);
    LowBytes(number, 256);
    LowBytes(number / 256, 1);
    if -128 <= number < 128 {
      ByteLayout(if number < 0 then number + 256 else number);
    }
    ByteLayout(if number < 0 then number + 65_536 else number);
    hide Pow256, BigEndian;
  }

  lemma FourAreWritten(n: i64)
    requires -2_147_483_648 <= n < 2_147_483_648
    ensures Signed(n, 4) == LowerHalf(n)
  {
    Pow256Values();
    var number: int := n;
    LowFour(number, 1);
    FourByteLayout(if number < 0 then number + 4_294_967_296 else number);
    hide Pow256, BigEndian;
  }

  lemma EightAreWritten(n: i64)
    ensures Signed(n, 8) == LowerHalf((n as int) / 4_294_967_296) + LowerHalf(n)
  {
    Pow256Values();
    var number: int := n;
    var unsigned := if number < 0 then number + 18_446_744_073_709_551_616 else number;
    assert Signed(n, 8) == BigEndian(unsigned, 8);
    hide Pow256, BigEndian, Signed;
    LowFour(number, 4_294_967_296);
    LowFour(number / 4_294_967_296, 1);
    EightByteLayout(unsigned);
    FourByteLayout(unsigned / 4_294_967_296);
  }

  lemma FormOfIntIsWritten(n: i64)
    ensures EncodedInt(n) == Wire(FormOfInt(n))
  {
    hide Signed, LowerHalf;
    if -32 <= n < 44 {
    } else if -32_768 <= n < 32_768 {
      NarrowIsWritten(n);
    } else if -2_147_483_648 <= n < 2_147_483_648 {
      FourAreWritten(n);
    } else {
      EightAreWritten(n);
    }
  }

  lemma FormOfStringIsWritten(raw: bytes)
    ensures EncodedString(raw) == Wire(FormOfString(raw))
  {
    assert Digits(|raw|) + [58] + raw == Digits(|raw|) + ([58] + raw);
  }

  /** What is written of any value at all is its form on the wire. */
  lemma {:induction false} EncodedIsForm(v: Value)
    ensures Encoded(v) == Wire(FormOf(v))
    decreases v, 0
  {
    hide EncodedInt, EncodedString, FormOfInt, FormOfString, EncodedItems, EncodedEntries, WireAll, FormsOf, FormsOfEntries;
    match v
    case Int(number) => FormOfIntIsWritten(number);
    case Bytes(raw) => FormOfStringIsWritten(raw);
    case Str(text) => FormOfStringIsWritten(text);
    case BigInt(digits) => Regrouped([61], digits, [127]);
    case List(items) =>
      FormsAreWritten(items);
      Regrouped([59], EncodedItems(items), [127]);
    case Dict(entries) =>
      EntryFormsAreWritten(entries);
      Regrouped([60], EncodedEntries(entries), [127]);
    case _ =>
  }

  lemma {:induction false} FormsAreWritten(items: seq<Value>)
    ensures EncodedItems(items) == WireAll(FormsOf(items))
    decreases items, 1
  {
    hide Encoded, Wire, FormOf;
    if items != [] {
      EncodedIsForm(items[0]);
      FormsAreWritten(items[1..]);
      assert FormsOf(items)[1..] == FormsOf(items[1..]);
    }
  }

  lemma {:induction false} EntryFormsAreWritten(entries: seq<Entry>)
    ensures EncodedEntries(entries) == WireAll(FormsOfEntries(entries))
    decreases entries, 1
  {
    hide Encoded, Wire, FormOf;
    if entries != [] {
      assert entries decreases to entries[0];
      EncodedIsForm(entries[0].key);
      EncodedIsForm(entries[0].value);
      EntryFormsAreWritten(entries[1..]);
      var parts := FormsOfEntries(entries);
      assert parts[2..] == FormsOfEntries(entries[1..]);
      PairFirst(parts, Raw);
      Regrouped(Wire(parts[0]), Wire(parts[1]), WireAll(parts[2..]));
    }
  }

  /** In bytes: what a Deluge peer sees of the plainest values. */
  lemma PlainestBytes(n: i64, raw: bytes)
    ensures Encoded(Value.None) == [69] && Encoded(Bool(true)) == [67] && Encoded(Bool(false)) == [68]
    ensures 0 <= n < 44 ==> Encoded(Int(n)) == [n]
    ensures -32 <= n < 0 ==> Encoded(Int(n)) == [69 - n]
    ensures |raw| < 64 ==> Encoded(Value.Bytes(raw)) == [128 + |raw|] + raw
    ensures Encoded(List([])) == [192] && Encoded(Dict([])) == [102]
  {
    hide Signed, Digits;
  }

  /** Decimal lengths, digit by digit, as far as a string may be long. */
  lemma LengthLayout(n: nat)
    ensures n < 10 ==> Digits(n) == [48 + n]
    ensures 10 <= n < 100 ==> Digits(n) == [48 + n / 10, 48 + n % 10]
    ensures 100 <= n < 1000 ==> Digits(n) == [48 + n / 100, 48 + n / 10 % 10, 48 + n % 10]
  {
    if n >= 10 {
      assert Digits(n) == Digits(n / 10) + [48 + n % 10];
    }
    if n >= 100 {
      assert n / 10 / 10 == n / 100;
      assert Digits(n / 10) == Digits(n / 10 / 10) + [48 + n / 10 % 10];
    }
  }
}
