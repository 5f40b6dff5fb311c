/** `core.conf`: two JSON objects behind one another, printed, split apart and read back. */
module ConfigFile {
  import opened Bytes

  // ------------------------------------------------------------ the splitter

  datatype Quote = Outside | Inside | Escaping

  /** Where a reader of the text stands: how many braces are open, and whether it is in a string. */
  datatype Scan = Scan(depth: nat, quote: Quote)

  const TopLevel := Scan(0, Outside)

  function Next(s: Scan, c: char): Scan {
    match s.quote
    case Escaping => s.(quote := Inside)
    case Inside => s.(quote := if c == '\\' then Escaping else if c == '"' then Outside else Inside)
    case Outside =>
      if c == '"' then s.(quote := Inside)
      else if c == '{' then s.(depth := s.depth + 1)
      else if c == '}' then s.(depth := if s.depth == 0 then 0 else s.depth - 1)
      else s
  }

  /** The objects completed in a text, `held` being what is there already of the one that is open. */
  function Split(s: Scan, held: string, text: string): seq<string>
    decreases |text|
  {
    if text == "" then []
    else
      var next := Next(s, text[0]);
      if s.depth > 0 && next.depth == 0 then [held + text[..1]] + Split(next, "", text[1..])
      else Split(next, if s.depth == 0 && next.depth == 0 then "" else held + text[..1], text[1..])
  }

  function Pieces(text: string): seq<string> {
    Split(TopLevel, "", text)
  }

  function Standing(depth: nat, inString: bool, escaped: bool): Scan {
    Scan(depth, if !inString then Outside else if escaped then Escaping else Inside)
  }

  function Held(text: string, start: Option<nat>, index: nat): string
    requires start.Just? ==> start.value <= index
    requires index <= |text|
  {
    if start.Just? then text[start.value..index] else ""
  }

  /** One character read: what is split off by it, and what the rest of the text gives. */
  lemma SplitStep(s: Scan, held: string, text: string, index: nat)
    requires index < |text|
    ensures var c, next, rest := text[index], Next(s, text[index]), text[index + 1..];
            Split(s, held, text[index..])
            == if s.depth > 0 && next.depth == 0 then [held + [c]] + Split(next, "", rest)
               else Split(next, if s.depth == 0 && next.depth == 0 then "" else held + [c], rest)
  {
    assert text[index..][1..] == text[index + 1..] && text[index..][..1] == [text[index]];
  }

  lemma HeldGrows(text: string, start: Option<nat>, index: nat)
    requires start.Just? ==> start.value <= index
    requires index < |text|
    ensures start.Just? ==> Held(text, start, index + 1) == Held(text, start, index) + [text[index]]
    ensures Held(text, Just(index), index + 1) == [text[index]]
    ensures Held(text, Nothing, index) == "" && Held(text, Nothing, index + 1) == ""
    ensures start.Just? ==> Held(text, start, index + 1) == text[start.value..index + 1]
  {
  }

  method SplitJsonObjects(text: string) returns (objects: seq<string>)
    ensures objects == Pieces(text)
  {
    hide Split, Held;
    objects := [];
    var depth: nat := 0;
    var start: Option<nat> := Nothing;
    var inString, escaped := false, false;
    NothingHeld(text);
    for index := 0 to |text|
      invariant start.Just? <==> depth > 0
      invariant start.Just? ==> start.value <= index
      invariant escaped ==> inString
      invariant objects + Split(Standing(depth, inString, escaped), Held(text, start, index), text[index..]) == Pieces(text)
    {
      var character := text[index];
      SplitStep(Standing(depth, inString, escaped), Held(text, start, index), text, index);
      HeldGrows(text, start, index);
      ghost var s, next := Standing(depth, inString, escaped), Next(Standing(depth, inString, escaped), character);
      ghost var held := Held(text, start, index);
      if inString {
        if escaped {
          escaped := false;
        } else if character == '\\' {
          escaped := true;
        } else if character == '"' {
          inString := false;
        }
        assert Standing(depth, inString, escaped) == next;
        continue;
      }
      match character {
        case '"' =>
          inString := true;
        case '{' =>
          if depth == 0 {
            start := Just(index);
          }
          depth := depth + 1;
        case '}' =>
          depth := if depth == 0 then 0 else depth - 1;
          if depth == 0 {
            if start.Just? {
              var begin := start.value;
              start := Nothing;
              Regrouped(objects, [text[begin..index + 1]], Split(TopLevel, "", text[index + 1..]));
              objects := objects + [text[begin..index + 1]];
            }
          }
        case _ =>
      }
      assert Standing(depth, inString, escaped) == next;
      assert next.depth > 0 ==> Held(text, start, index + 1) == held + [character];
    }
    NothingLeft(Standing(depth, inString, escaped), Held(text, start, |text|), text);
    assert objects + [] == objects;
  }

  lemma NothingLeft(s: Scan, held: string, text: string)
    ensures Split(s, held, text[|text|..]) == []
  {
  }

  lemma NothingHeld(text: string)
    ensures Held(text, Nothing, 0) == "" && text[0..] == text && Split(TopLevel, "", "") == []
  {
  }

  // ------------------------------------------------------------- the printer

  predicate IsDecimal(c: char) {
    '0' <= c <= '9'
  }

  predicate AllDecimal(s: string) {
    s != "" && forall c | c in s :: IsDecimal(c)
  }

  /** An exponent or none. */
  predicate IsExponent(s: string) {
    s == "" || ((s[0] == 'e' || s[0] == 'E')
                && (AllDecimal(s[1..]) || (|s| > 1 && (s[1] == '+' || s[1] == '-') && AllDecimal(s[2..]))))
  }

  /** A number as JSON writes it (RFC 8259, section 6): where the integer, the fraction and the exponent end. */
  predicate IsNumber(s: string) {
    exists i, j | 0 <= i <= j <= |s| :: NumberParts(s, i, j)
  }

  predicate NumberParts(s: string, i: nat, j: nat)
    requires i <= j <= |s|
  {
    var whole := if i > 0 && s[0] == '-' then s[1..i] else s[..i];
    && AllDecimal(whole) && (whole[0] == '0' ==> |whole| == 1)
    && (i == j || (s[i] == '.' && AllDecimal(s[i + 1..j])))
    && IsExponent(s[j..])
  }

  lemma ZeroIsNumber()
    ensures IsNumber("0")
  {
    assert NumberParts("0", 1, 1);
  }

  /** A JSON number, as the text it is printed as. */
  type numeral = s: string | IsNumber(s) witness (ZeroIsNumber(); "0")

  datatype Entry = Entry(key: string, value: Json)

  /** A JSON value; the entries of an object stand in the order of its map, by key. */
  datatype Json =
    | Null
    | Bool(value: bool)
    | Number(text: numeral)
    | Str(content: string)
    | List(items: seq<Json>)
    | Dict(entries: seq<Entry>)

  function Hex(d: nat): char
    requires d < 16
  {
    "0123456789abcdef"[d]
  }

  /** A character in a JSON string (RFC 8259, section 7). */
  function Escaped(c: char): string {
    if c == '"' then "\\\""
    else if c == '\\' then "\\\\"
    else if c as int == 8 then "\\b"
    else if c as int == 9 then "\\t"
    else if c as int == 10 then "\\n"
    else if c as int == 12 then "\\f"
    else if c as int == 13 then "\\r"
    else if c < ' ' then "\\u00" + [Hex(c as int / 16), Hex(c as int % 16)]
    else [c]
  }

  function AllEscaped(s: string): string {
    if s == "" then "" else Escaped(s[0]) + AllEscaped(s[1..])
  }

  function Quoted(s: string): string {
    "\"" + AllEscaped(s) + "\""
  }

  /** A new line, two blanks in for every level. */
  function Break(level: nat): string {
    if level == 0 then "\n" else Break(level - 1) + "  "
  }

  /** A value pretty-printed: one item or entry on a line, nested ones further in. */
  function Print(j: Json, level: nat): string
    decreases j, 1
  {
    match j
    case Null => "null"
    case Bool(value) => if value then "true" else "false"
    case Number(text) => text
    case Str(content) => Quoted(content)
    case List(items) => if items == [] then "[]" else "[" + (PrintItems(items, level + 1) + (Break(level) + "]"))
    case Dict(entries) => if entries == [] then "{}" else "{" + (PrintEntries(entries, level + 1) + (Break(level) + "}"))
  }

  function PrintItems(items: seq<Json>, level: nat): string
    decreases items, 0
  {
    if items == [] then ""
    else Break(level) + (Print(items[0], level) + ((if |items| == 1 then "" else ",") + PrintItems(items[1..], level)))
  }

  function PrintEntry(entry: Entry, level: nat): string
    decreases entry, 0
  {
    Quoted(entry.key) + (": " + Print(entry.value, level))
  }

  function PrintEntries(entries: seq<Entry>, level: nat): string
    decreases entries, 0
  {
    if entries == [] then ""
    else
      assert entries decreases to entries[0];
      Break(level) + (PrintEntry(entries[0], level)
                      + ((if |entries| == 1 then "" else ",") + PrintEntries(entries[1..], level)))
  }

  // ------------------------------------------------------- saving and reading

  datatype Kind = NullKind | BoolKind | NumberKind | StringKind | ListKind | DictKind

  function KindOf(j: Json): Kind {
    match j
    case Null => NullKind
    case Bool(_) => BoolKind
    case Number(_) => NumberKind
    case Str(_) => StringKind
    case List(_) => ListKind
    case Dict(_) => DictKind
  }

  datatype Parsed =
    | Settings(version: seq<Entry>, values: seq<Entry>)
    | NoObject
    | TooMany(count: nat)
    | NotADict(found: Kind)
    | Unreadable

  /** What a file's text says, given what reads one piece of it. */
  function Parse(text: string, read: string -> Option<Json>): Parsed {
    var pieces := Pieces(text);
    if |pieces| == 1 then
      match read(pieces[0])
      case Just(Dict(values)) => Settings([], values)
      case Just(other) => NotADict(KindOf(other))
      case Nothing => Unreadable
    else if |pieces| == 2 then
      match read(pieces[0])
      case Just(Dict(version)) =>
        (match read(pieces[1])
         case Just(Dict(values)) => Settings(version, values)
         case Just(other) => NotADict(KindOf(other))
         case Nothing => Unreadable)
      case Just(other) => NotADict(KindOf(other))
      case Nothing => Unreadable
    else if |pieces| == 0 then NoObject
    else TooMany(|pieces|)
  }

  function One(): numeral {
    assert NumberParts("1", 1, 1);
    "1"
  }

  const FirstVersion: seq<Entry> := [Entry("file", Number(One())), Entry("format", Number(One()))]

  function VersionOf(version: seq<Entry>): seq<Entry> {
    if version == [] then FirstVersion else version
  }

  /** The text a configuration is saved as. */
  function Body(version: seq<Entry>, values: seq<Entry>): string {
    Print(Dict(VersionOf(version)), 0) + Print(Dict(values), 0)
  }

  /** Where a key stands among entries, or past the end. */
  function Place(entries: seq<Entry>, key: string): (k: nat)
    ensures k <= |entries|
    ensures k < |entries| ==> entries[k].key == key
    ensures forall i | 0 <= i < k :: entries[i].key != key
  {
    if entries == [] then 0
    else
      var k := Place(entries[..|entries| - 1], key);
      if k < |entries| - 1 || entries[|entries| - 1].key == key then k else |entries|
  }

  datatype Outcome = Done | UnknownKey | WrongType(expected: Kind, found: Kind)

  class Config {
    var version: seq<Entry>
    var values: seq<Entry>
    var dirty: bool

    /** Refuses a key that is not there and a change of type, and notes nothing when nothing changes. */
    method Set(key: string, value: Json) returns (outcome: Outcome)
      modifies this`values, this`dirty
      ensures outcome == UnknownKey <==> forall e | e in old(values) :: e.key != key
      ensures outcome != Done ==> values == old(values)
      ensures outcome.WrongType? ==>
                var current := old(values)[Place(old(values), key)].value;
                && value != Null && current != Null && KindOf(current) != KindOf(value)
                && outcome == WrongType(KindOf(current), KindOf(value))
      ensures outcome == Done ==>
                var k := Place(old(values), key);
                && k < |old(values)| && values == old(values)[k := Entry(key, value)]
                && (KindOf(old(values)[k].value) == KindOf(value) || value == Null || old(values)[k].value == Null)
      ensures dirty == (old(dirty) || values != old(values))
    {
      var k := Place(values, key);
      if k == |values| {
        return UnknownKey;
      }
      var current := values[k].value;
      var expected, found := KindOf(current), KindOf(value);
      var compatible := expected == found || (expected == NumberKind && found == NumberKind) || current == Null || value == Null;
      if !compatible {
        return WrongType(expected, found);
      }
      if values[k].value == value {
        assert values[k := Entry(key, value)] == values;
        return Done;
      }
      values := values[k := Entry(key, value)];
      dirty := true;
      return Done;
    }

    /** What is written, if anything changed since the last time; `writes` is what the disk makes of it. */
    method Save(writes: bool) returns (written: Option<string>, ok: bool)
      modifies this`dirty
      ensures written == if old(dirty) then Just(Body(version, values)) else Nothing
      ensures ok == (!old(dirty) || writes) && dirty == !ok
    {
      if !dirty {
        return Nothing, true;
      }
      var header := if version == [] then FirstVersion else version;
      var body := Print(Dict(header), 0) + Print(Dict(values), 0);
      if !writes {
        return Just(body), false;
      }
      dirty := false;
      return Just(body), true;
    }
  }
}
