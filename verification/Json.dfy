/** A reader of JSON as RFC 8259 has it, and that it reads back whatever the printer writes. */
module Json {
  import opened Bytes
  import opened ConfigFile
  import opened ConfigLaws

  // -------------------------------------------------------------- the reader

  function Skip(s: string, at: nat): (next: nat)
    requires at <= |s|
    ensures at <= next <= |s|
    decreases |s| - at
  {
    if at < |s| && (s[at] == ' ' || s[at] == '\t' || s[at] == '\n' || s[at] == '\r') then Skip(s, at + 1) else at
  }

  function HexOf(c: char): Option<nat> {
    if '0' <= c <= '9' then Just(c as int - '0' as int)
    else if 'a' <= c <= 'f' then Just(c as int - 'a' as int + 10)
    else if 'A' <= c <= 'F' then Just(c as int - 'A' as int + 10)
    else Nothing
  }

  /** Four hexadecimal digits. */
  function Unit(s: string, at: nat): (u: Option<nat>)
    ensures u.Just? ==> u.value < 0x1_0000
  {
    if at + 4 > |s| then Nothing
    else
      match (HexOf(s[at]), HexOf(s[at + 1]), HexOf(s[at + 2]), HexOf(s[at + 3]))
      case (Just(a), Just(b), Just(c), Just(d)) =>
        if a < 16 && b < 16 && c < 16 && d < 16 then Just(4096 * a + 256 * b + 16 * c + d) else Nothing
      case _ => Nothing
  }

  /** The character an escape stands for, and how long it is: two surrogates make one. */
  function Escape(s: string, at: nat): (r: Option<(char, nat)>)
    requires at < |s|
    ensures r.Just? ==> r.value.1 > 0
  {
    if at + 1 == |s| then Nothing
    else
      match s[at + 1]
      case '"' => Just(('"', 2))
      case '\\' => Just(('\\', 2))
      case '/' => Just(('/', 2))
      case 'b' => Just((8 as char, 2))
      case 't' => Just((9 as char, 2))
      case 'n' => Just((10 as char, 2))
      case 'f' => Just((12 as char, 2))
      case 'r' => Just((13 as char, 2))
      case 'u' =>
        (match Unit(s, at + 2)
         case Nothing => Nothing
         case Just(high) =>
           if high < 0xD800 || high >= 0xE000 then Just((high as char, 6))
           else if high >= 0xDC00 || at + 8 > |s| || s[at + 6] != '\\' || s[at + 7] != 'u' then Nothing
           else
             match Unit(s, at + 8)
             case Just(low) =>
               if 0xDC00 <= low < 0xE000 then Just(((0x1_0000 + (high - 0xD800) * 0x400 + (low - 0xDC00)) as char, 12))
               else Nothing
             case Nothing => Nothing)
      case _ => Nothing
  }

  /** A string behind its opening quote, behind what is read of it already. */
  function ReadString(s: string, at: nat, read: string): (r: Option<(string, nat)>)
    requires at <= |s|
    ensures r.Just? ==> at < r.value.1 <= |s|
    decreases |s| - at
  {
    if at == |s| || s[at] < ' ' then Nothing
    else if s[at] == '"' then Just((read, at + 1))
    else if s[at] == '\\' then
      match Escape(s, at)
      case Just((c, width)) => if at + width <= |s| then ReadString(s, at + width, read + [c]) else Nothing
      case Nothing => Nothing
    else ReadString(s, at + 1, read + [s[at]])
  }

  predicate InNumber(c: char) {
    IsDecimal(c) || c == '-' || c == '+' || c == '.' || c == 'e' || c == 'E'
  }

  function NumberEnd(s: string, at: nat): (end: nat)
    requires at <= |s|
    ensures at <= end <= |s|
    decreases |s| - at
  {
    if at < |s| && InNumber(s[at]) then NumberEnd(s, at + 1) else at
  }

  predicate Has(s: string, at: nat, part: string) {
    at + |part| <= |s| && s[at..at + |part|] == part
  }

  /** A value and the offset just behind it. */
  function ReadValue(s: string, at: nat): (r: Option<(Json, nat)>)
    requires at <= |s|
    ensures r.Just? ==> at < r.value.1 <= |s|
    decreases |s| - at, 0
  {
    if at == |s| then Nothing
    else if s[at] == '"' then
      match ReadString(s, at + 1, "")
      case Just((content, next)) => Just((Str(content), next))
      case Nothing => Nothing
    else if s[at] == '[' then
      var first := Skip(s, at + 1);
      if first < |s| && s[first] == ']' then Just((List([]), first + 1)) else ReadItems(s, first, [])
    else if s[at] == '{' then
      var first := Skip(s, at + 1);
      if first < |s| && s[first] == '}' then Just((Dict([]), first + 1)) else ReadEntries(s, first, [])
    else if Has(s, at, "null") then Just((Null, at + 4))
    else if Has(s, at, "true") then Just((Bool(true), at + 4))
    else if Has(s, at, "false") then Just((Bool(false), at + 5))
    else
      var end := NumberEnd(s, at);
      if end > at && IsNumber(s[at..end]) then Just((Number(s[at..end]), end)) else Nothing
  }

  function ReadItems(s: string, at: nat, read: seq<Json>): (r: Option<(Json, nat)>)
    requires at <= |s|
    ensures r.Just? ==> at < r.value.1 <= |s|
    decreases |s| - at, 1
  {
    match ReadValue(s, at)
    case Nothing => Nothing
    case Just((item, next)) =>
      var sep := Skip(s, next);
      if sep == |s| then Nothing
      else if s[sep] == ']' then Just((List(read + [item]), sep + 1))
      else if s[sep] == ',' then ReadItems(s, Skip(s, sep + 1), read + [item])
      else Nothing
  }

  function ReadEntry(s: string, at: nat): (r: Option<(Entry, nat)>)
    requires at <= |s|
    ensures r.Just? ==> at < r.value.1 <= |s|
    decreases |s| - at, 1
  {
    if at == |s| || s[at] != '"' then Nothing
    else
      match ReadString(s, at + 1, "")
      case Nothing => Nothing
      case Just((key, next)) =>
        var colon := Skip(s, next);
        if colon == |s| || s[colon] != ':' then Nothing
        else
          match ReadValue(s, Skip(s, colon + 1))
          case Just((value, end)) => Just((Entry(key, value), end))
          case Nothing => Nothing
  }

  function ReadEntries(s: string, at: nat, read: seq<Entry>): (r: Option<(Json, nat)>)
    requires at <= |s|
    ensures r.Just? ==> at < r.value.1 <= |s|
    decreases |s| - at, 2
  {
    match ReadEntry(s, at)
    case Nothing => Nothing
    case Just((entry, next)) =>
      var sep := Skip(s, next);
      if sep == |s| then Nothing
      else if s[sep] == '}' then Just((Dict(read + [entry]), sep + 1))
      else if s[sep] == ',' then ReadEntries(s, Skip(s, sep + 1), read + [entry])
      else Nothing
  }

  /** A text that is one value, white space aside. */
  function Read(text: string): Option<Json> {
    match ReadValue(text, Skip(text, 0))
    case Just((j, next)) => if Skip(text, next) == |text| then Just(j) else Nothing
    case Nothing => Nothing
  }

  // ------------------------------------------------------- it reads it back

  lemma HasApart(s: string, at: nat, a: string, b: string)
    requires Has(s, at, a + b)
    ensures Has(s, at, a) && Has(s, at + |a|, b)
  {
    var whole := s[at..at + |a + b|];
    assert whole[..|a|] == a && whole[|a|..] == b;
  }

  lemma HasFirst(s: string, at: nat, part: string)
    requires Has(s, at, part) && part != ""
    ensures at < |s| && s[at] == part[0] && Has(s, at + 1, part[1..])
  {
    assert part == part[..1] + part[1..];
    HasApart(s, at, part[..1], part[1..]);
    assert s[at] == s[at..at + |part|][0];
  }

  lemma {:induction false} BreakIsSkipped(s: string, at: nat, level: nat)
    requires Has(s, at, Break(level)) && at + |Break(level)| <= |s|
    ensures Skip(s, at) == Skip(s, at + |Break(level)|)
  {
    if level == 0 {
      HasFirst(s, at, "\n");
    } else {
      HasApart(s, at, Break(level - 1), "  ");
      BreakIsSkipped(s, at, level - 1);
      var two := at + |Break(level - 1)|;
      HasFirst(s, two, "  ");
      HasFirst(s, two + 1, " ");
    }
  }

  lemma HasNth(s: string, at: nat, part: string, i: nat)
    requires Has(s, at, part) && i < |part|
    ensures at + |part| <= |s| && s[at + i] == part[i]
  {
    assert s[at + i] == s[at..at + |part|][i];
  }

  lemma HexReadsBack(d: nat)
    requires d < 16
    ensures HexOf(Hex(d)) == Just(d)
  {
  }

  lemma EscapeReadsBack(s: string, at: nat, c: char)
    requires Has(s, at, Escaped(c)) && (c < ' ' || c == '"' || c == '\\')
    ensures at < |s| && s[at] == '\\' && Escape(s, at) == Just((c, |Escaped(c)|))
  {
    if c == '"' || c == '\\' || c as int in {8, 9, 10, 12, 13} {
      HasNth(s, at, Escaped(c), 0);
      HasNth(s, at, Escaped(c), 1);
    } else {
      CodeReadsBack(s, at, c as int);
    }
  }

  lemma CodeReadsBack(s: string, at: nat, n: nat)
    requires n < 32 && Has(s, at, "\\u00" + [Hex(n / 16), Hex(n % 16)])
    ensures at < |s| && s[at] == '\\' && Escape(s, at) == Just((n as char, 6))
  {
    var e := "\\u00" + [Hex(n / 16), Hex(n % 16)];
    HasNth(s, at, e, 0);
    HasNth(s, at, e, 1);
    HasNth(s, at, e, 2);
    HasNth(s, at, e, 3);
    HasNth(s, at, e, 4);
    HasNth(s, at, e, 5);
    HexReadsBack(n / 16);
    HexReadsBack(n % 16);
    hide Has, Hex;
    assert Unit(s, at + 2) == Just(n);
  }

  lemma CharacterReadsBack(s: string, at: nat, c: char, read: string)
    requires Has(s, at, Escaped(c))
    ensures ReadString(s, at, read) == ReadString(s, at + |Escaped(c)|, read + [c])
  {
    if c < ' ' || c == '"' || c == '\\' {
      EscapeReadsBack(s, at, c);
      hide Escape, Escaped;
    } else {
      HasFirst(s, at, [c]);
    }
  }

  lemma {:induction false} StringReadsBack(s: string, at: nat, content: string, read: string)
    requires Has(s, at, AllEscaped(content) + "\"")
    ensures ReadString(s, at, read) == Just((read + content, at + |AllEscaped(content)| + 1))
    decreases |content|
  {
    hide Escaped;
    if content == "" {
      assert "" + "\"" == "\"" && read + "" == read;
      HasFirst(s, at, "\"");
    } else {
      var c, rest := content[0], AllEscaped(content[1..]);
      Regrouped(Escaped(c), rest, "\"");
      HasApart(s, at, Escaped(c), rest + "\"");
      CharacterReadsBack(s, at, c, read);
      StringReadsBack(s, at + |Escaped(c)|, content[1..], read + [c]);
      assert read + [c] + content[1..] == read + content;
    }
  }

  lemma QuotedReadsBack(s: string, at: nat, content: string)
    requires Has(s, at, Quoted(content))
    ensures at < |s| && s[at] == '"' && ReadString(s, at + 1, "") == Just((content, at + |Quoted(content)|))
  {
    var rest := AllEscaped(content) + "\"";
    Regrouped("\"", AllEscaped(content), "\"");
    hide AllEscaped, Escaped, ReadString;
    HasApart(s, at, "\"", rest);
    HasFirst(s, at, "\"");
    StringReadsBack(s, at + 1, content, "");
    assert "" + content == content;
  }

  /** What stands behind a printed value: the end, or nothing a number could go on with. */
  predicate Ends(s: string, at: nat) {
    at < |s| ==> !InNumber(s[at])
  }

  lemma {:induction false} NumberIsWhole(s: string, at: nat, end: nat)
    requires at <= end <= |s| && Ends(s, end) && forall i | at <= i < end :: InNumber(s[i])
    ensures NumberEnd(s, at) == end
    decreases end - at
  {
    if at < end {
      NumberIsWhole(s, at + 1, end);
    }
  }

  lemma ExponentInNumber(s: string)
    requires IsExponent(s)
    ensures forall c | c in s :: InNumber(c)
  {
    if s != "" {
      assert s == [s[0]] + s[1..];
      if |s| > 1 {
        assert s[1..] == [s[1]] + s[2..];
      }
    }
  }

  lemma NumeralInNumber(text: numeral)
    ensures text != "" && (IsDecimal(text[0]) || text[0] == '-') && forall c | c in text :: InNumber(c)
  {
    var i, j :| 0 <= i <= j <= |text| && NumberParts(text, i, j);
    ExponentInNumber(text[j..]);
    assert text == text[..i] + text[i..j] + text[j..];
    assert i > 0 ==> text[..i] == [text[0]] + text[1..i];
    assert i < j ==> text[i..j] == [text[i]] + text[i + 1..j];
    hide IsExponent;
    assert i > 0 && text[0] != '-' ==> text[..i][0] in text[..i];
  }

  lemma NumberReadsBack(s: string, at: nat, text: numeral)
    requires Has(s, at, text) && Ends(s, at + |text|)
    ensures ReadValue(s, at) == Just((Number(text), at + |text|))
  {
    NumeralInNumber(text);
    HasFirst(s, at, text);
    forall i | at <= i < at + |text|
      ensures InNumber(s[i])
    {
      assert s[i] == s[at..at + |text|][i - at] && text[i - at] in text;
    }
    NumberIsWhole(s, at, at + |text|);
    NotAWord(s, at);
    hide IsNumber, InNumber;
  }

  lemma NotAWord(s: string, at: nat)
    requires at < |s| && (IsDecimal(s[at]) || s[at] == '-')
    ensures !Has(s, at, "null") && !Has(s, at, "true") && !Has(s, at, "false")
  {
    if Has(s, at, "null") {
      HasFirst(s, at, "null");
    }
    if Has(s, at, "true") {
      HasFirst(s, at, "true");
    }
    if Has(s, at, "false") {
      HasFirst(s, at, "false");
    }
  }

  lemma WordReadsBack(s: string, at: nat)
    ensures Has(s, at, "null") ==> ReadValue(s, at) == Just((Null, at + 4))
    ensures Has(s, at, "true") ==> ReadValue(s, at) == Just((Bool(true), at + 4))
    ensures Has(s, at, "false") ==> ReadValue(s, at) == Just((Bool(false), at + 5))
  {
    if Has(s, at, "null") {
      HasFirst(s, at, "null");
    }
    if Has(s, at, "true") {
      HasFirst(s, at, "true");
    }
    if Has(s, at, "false") {
      HasFirst(s, at, "false");
    }
  }

  predicate IsSpace(c: char) {
    c == ' ' || c == '\t' || c == '\n' || c == '\r'
  }

  lemma NotSpace()
    ensures !IsSpace(']') && !IsSpace('}') && !IsSpace('"')
  {
  }

  lemma NothingToSkip(s: string, at: nat)
    requires at < |s| && !IsSpace(s[at])
    ensures Skip(s, at) == at
  {
  }

  lemma {:induction false} BreakStarts(level: nat)
    ensures Break(level) != "" && Break(level)[0] == '\n'
  {
    if level > 0 {
      BreakStarts(level - 1);
    }
  }

  /** Nothing printed starts with white space, a separator or a closing bracket. */
  lemma PrintStarts(j: Json, level: nat)
    ensures var p := Print(j, level);
            p != "" && !IsSpace(p[0]) && p[0] != ']' && p[0] != '}'
  {
    hide PrintItems, PrintEntries, Break, AllEscaped, InNumber, IsNumber;
    if j.Number? {
      NumeralInNumber(j.text);
    }
  }

  /** Behind a line break and its indentation, the reader is at what was printed. */
  lemma BreakThen(s: string, at: nat, level: nat, rest: string)
    requires Has(s, at, Break(level) + rest) && rest != "" && !IsSpace(rest[0])
    ensures Skip(s, at) == at + |Break(level)| && Has(s, at + |Break(level)|, rest)
    ensures at < |s| && s[at] == '\n'
  {
    hide Break, Skip;
    HasApart(s, at, Break(level), rest);
    BreakIsSkipped(s, at, level);
    HasFirst(s, at + |Break(level)|, rest);
    NothingToSkip(s, at + |Break(level)|);
    BreakStarts(level);
    HasFirst(s, at, Break(level));
  }

  /** A printed value, wherever it stands, is read as itself. */
  lemma {:induction false} ValueReadsBack(s: string, at: nat, j: Json, level: nat)
    requires Has(s, at, Print(j, level)) && Ends(s, at + |Print(j, level)|)
    ensures ReadValue(s, at) == Just((j, at + |Print(j, level)|))
    decreases j, 1
  {
    hide ReadItems, ReadEntries, PrintItems, PrintEntries, Break, Quoted, ReadString, IsNumber, Ends, ReadValue, Has;
    match j
    case Null => WordReadsBack(s, at);
    case Bool(_) => WordReadsBack(s, at);
    case Number(text) => NumberReadsBack(s, at, text);
    case Str(content) => StringIsRead(s, at, content);
    case List(items) =>
      if items == [] {
        EmptyReadsBack(s, at);
      } else {
        ListReadsBack(s, at, items, level);
      }
    case Dict(entries) =>
      if entries == [] {
        EmptyReadsBack(s, at);
      } else {
        DictReadsBack(s, at, entries, level);
      }
  }

  lemma StringIsRead(s: string, at: nat, content: string)
    requires Has(s, at, Quoted(content))
    ensures ReadValue(s, at) == Just((Str(content), at + |Quoted(content)|))
  {
    QuotedReadsBack(s, at, content);
    hide Quoted, ReadString, Has;
  }

  lemma EmptyReadsBack(s: string, at: nat)
    ensures Has(s, at, "[]") ==> ReadValue(s, at) == Just((List([]), at + 2))
    ensures Has(s, at, "{}") ==> ReadValue(s, at) == Just((Dict([]), at + 2))
  {
    if Has(s, at, "[]") {
      HasNth(s, at, "[]", 0);
      HasNth(s, at, "[]", 1);
    }
    if Has(s, at, "{}") {
      HasNth(s, at, "{}", 0);
      HasNth(s, at, "{}", 1);
    }
  }

  lemma ListIsRead(s: string, at: nat)
    requires at < |s| && s[at] == '[' && Skip(s, at + 1) < |s| && s[Skip(s, at + 1)] != ']'
    ensures ReadValue(s, at) == ReadItems(s, Skip(s, at + 1), [])
  {
    hide ReadItems, Skip;
  }

  lemma DictIsRead(s: string, at: nat)
    requires at < |s| && s[at] == '{' && Skip(s, at + 1) < |s| && s[Skip(s, at + 1)] != '}'
    ensures ReadValue(s, at) == ReadEntries(s, Skip(s, at + 1), [])
  {
    hide ReadEntries, Skip;
  }

  lemma {:induction false} ListReadsBack(s: string, at: nat, items: seq<Json>, level: nat)
    requires items != [] && Has(s, at, "[" + (PrintItems(items, level + 1) + (Break(level) + "]")))
    ensures ReadValue(s, at) == Just((List(items), at + 1 + |PrintItems(items, level + 1)| + |Break(level)| + 1))
    decreases items, 1
  {
    hide *;
    var rest := PrintItems(items, level + 1) + (Break(level) + "]");
    HasApart(s, at, "[", rest);
    HasFirst(s, at, "[");
    ItemsReadBack(s, at + 1, items, level + 1, level, []);
    ListIsRead(s, at);
    assert [] + items == items;
  }

  lemma {:induction false} DictReadsBack(s: string, at: nat, entries: seq<Entry>, level: nat)
    requires entries != [] && Has(s, at, "{" + (PrintEntries(entries, level + 1) + (Break(level) + "}")))
    ensures ReadValue(s, at) == Just((Dict(entries), at + 1 + |PrintEntries(entries, level + 1)| + |Break(level)| + 1))
    decreases entries, 1
  {
    hide *;
    var rest := PrintEntries(entries, level + 1) + (Break(level) + "}");
    HasApart(s, at, "{", rest);
    HasFirst(s, at, "{");
    EntriesReadBack(s, at + 1, entries, level + 1, level, []);
    DictIsRead(s, at);
    assert [] + entries == entries;
  }

  lemma CommaEnds(s: string, at: nat)
    requires at < |s| && (s[at] == ',' || s[at] == '\n')
    ensures Ends(s, at) && (s[at] == ',' ==> Skip(s, at) == at)
  {
  }

  lemma ItemsStep(s: string, at: nat, read: seq<Json>, item: Json, next: nat)
    requires at <= |s| && ReadValue(s, at) == Just((item, next)) && next <= |s|
    ensures var sep := Skip(s, next);
            && (sep < |s| && s[sep] == ']' ==> ReadItems(s, at, read) == Just((List(read + [item]), sep + 1)))
            && (sep < |s| && s[sep] == ',' ==> ReadItems(s, at, read) == ReadItems(s, Skip(s, sep + 1), read + [item]))
  {
    hide ReadValue, Skip;
  }

  /** Where the first item stands, what is behind it, and what is behind the last. */
  lemma ItemsApart(s: string, at: nat, items: seq<Json>, level: nat, end: string)
    requires items != [] && Has(s, at, PrintItems(items, level) + end)
    ensures var begin := at + |Break(level)|;
            var next := begin + |Print(items[0], level)|;
            && Skip(s, at) == begin < |s| && s[begin] != ']' && Has(s, begin, Print(items[0], level))
            && (if |items| == 1 then Has(s, next, end) && |PrintItems(items, level)| == next - at
                else Has(s, next, "," + (PrintItems(items[1..], level) + end))
                     && |PrintItems(items, level)| == next - at + 1 + |PrintItems(items[1..], level)|)
  {
    hide *;
    FirstItem(items, level);
    var first := Print(items[0], level);
    var rest := (if |items| == 1 then "" else ",") + PrintItems(items[1..], level);
    Regrouped(Break(level), first + rest, end);
    Regrouped(first, rest, end);
    PrintStarts(items[0], level);
    BreakThen(s, at, level, first + (rest + end));
    HasApart(s, at + |Break(level)|, first, rest + end);
    HasFirst(s, at + |Break(level)|, first);
    if |items| == 1 {
      NothingPrinted(level);
      assert items[1..] == [] && rest + end == end;
    } else {
      Regrouped(",", PrintItems(items[1..], level), end);
    }
  }

  lemma {:induction false} ItemsReadBack(s: string, at: nat, items: seq<Json>, level: nat, outer: nat, read: seq<Json>)
    requires items != [] && Has(s, at, PrintItems(items, level) + (Break(outer) + "]"))
    ensures Skip(s, at) < |s| && s[Skip(s, at)] != ']'
    ensures (ReadItems(s, Skip(s, at), read)
             == Just((List(read + items), at + |PrintItems(items, level)| + |Break(outer)| + 1)))
    decreases items, 0
  {
    hide *;
    var end := Break(outer) + "]";
    ItemsApart(s, at, items, level, end);
    var begin := at + |Break(level)|;
    var next := begin + |Print(items[0], level)|;
    if |items| == 1 {
      NotSpace();
      BreakThen(s, next, outer, "]");
      CommaEnds(s, next);
      ValueReadsBack(s, begin, items[0], level);
      HasFirst(s, next + |Break(outer)|, "]");
      ItemsStep(s, begin, read, items[0], next);
      assert read + [items[0]] == read + items;
    } else {
      HasApart(s, next, ",", PrintItems(items[1..], level) + end);
      HasFirst(s, next, ",");
      CommaEnds(s, next);
      ValueReadsBack(s, begin, items[0], level);
      ItemsStep(s, begin, read, items[0], next);
      ItemsReadBack(s, next + 1, items[1..], level, outer, read + [items[0]]);
      assert read + [items[0]] + items[1..] == read + items;
    }
  }

  lemma EntryIsRead(s: string, at: nat, key: string, next: nat, value: Json, end: nat)
    requires at < |s| && s[at] == '"' && ReadString(s, at + 1, "") == Just((key, next)) && next <= |s|
    requires Skip(s, next) == next < |s| && s[next] == ':' && ReadValue(s, Skip(s, next + 1)) == Just((value, end))
    ensures ReadEntry(s, at) == Just((Entry(key, value), end))
  {
    hide ReadValue, Skip, ReadString;
  }

  lemma {:induction false} EntryReadsBack(s: string, at: nat, entry: Entry, level: nat)
    requires Has(s, at, PrintEntry(entry, level)) && Ends(s, at + |PrintEntry(entry, level)|)
    ensures at < |s| && s[at] == '"' && ReadEntry(s, at) == Just((entry, at + |PrintEntry(entry, level)|))
    decreases entry, 0
  {
    hide Print, Quoted, ReadEntry, ReadValue, ReadString, Skip, Ends, Has;
    var key, value := Quoted(entry.key), Print(entry.value, level);
    var next := at + |key|;
    HasApart(s, at, key, ": " + value);
    QuotedReadsBack(s, at, entry.key);
    HasApart(s, next, ": ", value);
    HasFirst(s, next, ": ");
    HasFirst(s, next + 1, " ");
    NothingToSkip(s, next);
    PrintStarts(entry.value, level);
    HasFirst(s, next + 2, value);
    OneSpace(s, next + 1);
    ValueReadsBack(s, next + 2, entry.value, level);
    EntryIsRead(s, at, entry.key, next, entry.value, next + 2 + |value|);
  }

  lemma OneSpace(s: string, at: nat)
    requires at + 1 < |s| && s[at] == ' ' && !IsSpace(s[at + 1])
    ensures Skip(s, at) == at + 1
  {
  }

  lemma EntriesStep(s: string, at: nat, read: seq<Entry>, entry: Entry, next: nat)
    requires at <= |s| && ReadEntry(s, at) == Just((entry, next)) && next <= |s|
    ensures var sep := Skip(s, next);
            && (sep < |s| && s[sep] == '}' ==> ReadEntries(s, at, read) == Just((Dict(read + [entry]), sep + 1)))
            && (sep < |s| && s[sep] == ',' ==> ReadEntries(s, at, read) == ReadEntries(s, Skip(s, sep + 1), read + [entry]))
  {
    hide ReadEntry, Skip;
  }

  lemma EntryStarts(entry: Entry, level: nat)
    ensures PrintEntry(entry, level) != "" && PrintEntry(entry, level)[0] == '"'
  {
  }

  lemma EntriesApart(s: string, at: nat, entries: seq<Entry>, level: nat, end: string)
    requires entries != [] && Has(s, at, PrintEntries(entries, level) + end)
    ensures var begin := at + |Break(level)|;
            var next := begin + |PrintEntry(entries[0], level)|;
            && Skip(s, at) == begin < |s| && s[begin] != '}' && Has(s, begin, PrintEntry(entries[0], level))
            && (if |entries| == 1 then Has(s, next, end) && |PrintEntries(entries, level)| == next - at
                else Has(s, next, "," + (PrintEntries(entries[1..], level) + end))
                     && |PrintEntries(entries, level)| == next - at + 1 + |PrintEntries(entries[1..], level)|)
  {
    hide *;
    FirstEntry(entries, level);
    var first := PrintEntry(entries[0], level);
    var rest := (if |entries| == 1 then "" else ",") + PrintEntries(entries[1..], level);
    Regrouped(Break(level), first + rest, end);
    Regrouped(first, rest, end);
    EntryStarts(entries[0], level);
    NotSpace();
    BreakThen(s, at, level, first + (rest + end));
    HasApart(s, at + |Break(level)|, first, rest + end);
    HasFirst(s, at + |Break(level)|, first);
    if |entries| == 1 {
      NothingPrinted(level);
      assert entries[1..] == [] && rest + end == end;
    } else {
      Regrouped(",", PrintEntries(entries[1..], level), end);
    }
  }

  lemma {:induction false} EntriesReadBack(s: string, at: nat, entries: seq<Entry>, level: nat, outer: nat, read: seq<Entry>)
    requires entries != [] && Has(s, at, PrintEntries(entries, level) + (Break(outer) + "}"))
    ensures Skip(s, at) < |s| && s[Skip(s, at)] != '}'
    ensures (ReadEntries(s, Skip(s, at), read)
             == Just((Dict(read + entries), at + |PrintEntries(entries, level)| + |Break(outer)| + 1)))
    decreases entries, 0
  {
    hide *;
    FirstEntry(entries, level);
    var end := Break(outer) + "}";
    EntriesApart(s, at, entries, level, end);
    var begin := at + |Break(level)|;
    var next := begin + |PrintEntry(entries[0], level)|;
    if |entries| == 1 {
      NotSpace();
      BreakThen(s, next, outer, "}");
      CommaEnds(s, next);
      EntryReadsBack(s, begin, entries[0], level);
      HasFirst(s, next + |Break(outer)|, "}");
      EntriesStep(s, begin, read, entries[0], next);
      assert read + [entries[0]] == read + entries;
    } else {
      HasApart(s, next, ",", PrintEntries(entries[1..], level) + end);
      HasFirst(s, next, ",");
      CommaEnds(s, next);
      EntryReadsBack(s, begin, entries[0], level);
      EntriesStep(s, begin, read, entries[0], next);
      EntriesReadBack(s, next + 1, entries[1..], level, outer, read + [entries[0]]);
      assert read + [entries[0]] + entries[1..] == read + entries;
    }
  }

  // ------------------------------------------------------------ main results

  /** Whatever value is printed, its text reads as that value. */
  lemma PrintReadsBack(j: Json)
    ensures Read(Print(j, 0)) == Just(j)
  {
    var text := Print(j, 0);
    PrintStarts(j, 0);
    NothingToSkip(text, 0);
    assert Has(text, 0, text) && Ends(text, |text|);
    hide Print, ReadValue;
    ValueReadsBack(text, 0, j, 0);
  }

  /** No two values are printed alike. */
  lemma PrintIsInjective(a: Json, b: Json)
    requires Print(a, 0) == Print(b, 0)
    ensures a == b
  {
    PrintReadsBack(a);
    PrintReadsBack(b);
  }

  /** What is saved is what is loaded; one without a version gets the first one. */
  lemma SavedReadsBack(version: seq<Entry>, values: seq<Entry>)
    ensures Parse(Body(version, values), Read) == Settings(VersionOf(version), values)
  {
    hide Print, Parse, Body, VersionOf, Read;
    SavedIsLoaded(version, values, Read) by {
      PrintReadsBack(Dict(VersionOf(version)));
      PrintReadsBack(Dict(values));
    }
    PrintReadsBack(Dict(VersionOf(version)));
    PrintReadsBack(Dict(values));
  }

  /** What settings a text has, from the objects that lie in it: one or two, the first of two being the version. */
  lemma LoadedIff(text: string, version: seq<Entry>, values: seq<Entry>)
    ensures Parse(text, Read) == Settings(version, values)
       <==> || (exists only :: Laid(text, [only]) && version == [] && Read(only) == Just(Dict(values)))
            || (exists first, second :: Laid(text, [first, second]) && Read(first) == Just(Dict(version))
                                        && Read(second) == Just(Dict(values)))
  {
    hide Laid, Pieces, Read;
    var pieces := Pieces(text);
    forall some
      ensures Laid(text, some) <==> some == pieces
    {
      LaidIffPieces(text, some);
    }
    if |pieces| == 1 {
      assert pieces == [pieces[0]];
    } else if |pieces| == 2 {
      assert pieces == [pieces[0], pieces[1]];
    }
  }

  /** A file that has no version yet is given two ones. */
  lemma FirstHeader(values: seq<Entry>)
    ensures var loaded := Parse(Body([], values), Read);
            && loaded.Settings? && loaded.values == values && |loaded.version| == 2
            && loaded.version[0].key == "file" && loaded.version[0].value.Number? && loaded.version[0].value.text == "1"
            && loaded.version[1].key == "format" && loaded.version[1].value.Number? && loaded.version[1].value.text == "1"
  {
    hide Parse, Body, Read;
    SavedReadsBack([], values);
  }
}
