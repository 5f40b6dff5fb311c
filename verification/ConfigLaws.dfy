/** The splitter finds exactly the objects a text holds, and undoes the printer whatever the values are. */
module ConfigLaws {
  import opened Bytes
  import opened ConfigFile

  // ------------------------------------------------------ reading in parts

  function After(s: Scan, text: string): Scan
    decreases |text|
  {
    if text == "" then s else After(Next(s, text[0]), text[1..])
  }

  /** No brace outside a string takes the reader below this many open ones. */
  predicate Above(s: Scan, floor: nat, text: string)
    decreases |text|
  {
    text != "" ==> Next(s, text[0]).depth >= floor && Above(Next(s, text[0]), floor, text[1..])
  }

  /** No brace outside a string opens. */
  predicate Flat(s: Scan, text: string)
    decreases |text|
  {
    text != "" ==> Next(s, text[0]).depth == 0 && Flat(Next(s, text[0]), text[1..])
  }

  lemma {:induction false} InParts(s: Scan, floor: nat, a: string, b: string)
    ensures After(s, a + b) == After(After(s, a), b)
    ensures Above(s, floor, a + b) <==> Above(s, floor, a) && Above(After(s, a), floor, b)
    decreases |a|
  {
    if a == "" {
      assert a + b == b;
    } else {
      assert (a + b)[1..] == a[1..] + b;
      InParts(Next(s, a[0]), floor, a[1..], b);
    }
  }

  // -------------------------------------------------- what is an object

  const OneOpen := Scan(1, Outside)

  /** A text from an opening brace to the one that closes it, braces in strings aside. */
  predicate IsObject(p: string) {
    && |p| >= 2 && p[0] == '{' && p[|p| - 1] == '}'
    && After(OneOpen, p[1..|p| - 1]) == OneOpen && Above(OneOpen, 1, p[1..|p| - 1])
  }

  /** What may stand between objects: nothing opens in it, and no string is left open. */
  predicate IsGap(g: string) {
    Flat(TopLevel, g) && After(TopLevel, g) == TopLevel
  }

  /** Nowhere in the text is there a gap with an object behind it. */
  ghost predicate NoObject(text: string) {
    forall i, j | 0 <= i <= j <= |text| :: IsGap(text[..i]) ==> !IsObject(text[i..j])
  }

  /** The pieces lie in the text one behind the other with only gaps between, and nothing is left of it that holds one more. */
  ghost predicate Laid(text: string, pieces: seq<string>)
    decreases |pieces|
  {
    if pieces == [] then NoObject(text)
    else exists i, j | 0 <= i <= j <= |text| ::
      IsGap(text[..i]) && IsObject(text[i..j]) && text[i..j] == pieces[0] && Laid(text[j..], pieces[1..])
  }

  // --------------------------------------------------- finding what is there

  lemma {:induction false} PastGap(s: Scan, g: string, rest: string)
    requires s.depth == 0 && Flat(s, g)
    ensures Split(s, "", g + rest) == Split(After(s, g), "", rest)
    decreases |g|
  {
    if g == "" {
      assert g + rest == rest;
    } else {
      assert (g + rest)[1..] == g[1..] + rest;
      PastGap(Next(s, g[0]), g[1..], rest);
    }
  }

  lemma {:induction false} PastBody(s: Scan, held: string, body: string, rest: string)
    requires s.depth > 0 && Above(s, 1, body)
    ensures Split(s, held, body + rest) == Split(After(s, body), held + body, rest)
    decreases |body|
  {
    if body == "" {
      assert body + rest == rest && held + body == held;
    } else {
      assert (body + rest)[1..] == body[1..] + rest && (body + rest)[..1] == body[..1];
      assert held + body[..1] + body[1..] == held + body by {
        Regrouped(held, body[..1], body[1..]);
      }
      PastBody(Next(s, body[0]), held + body[..1], body[1..], rest);
    }
  }

  /** An object behind a gap is found, whole, and the search goes on behind it. */
  lemma ObjectIsFound(g: string, p: string, rest: string)
    requires IsGap(g) && IsObject(p)
    ensures Pieces(g + (p + rest)) == [p] + Pieces(rest)
  {
    PastGap(TopLevel, g, p + rest);
    var body := p[1..|p| - 1];
    assert p == "{" + body + "}" && p + rest == "{" + (body + ("}" + rest));
    assert (p + rest)[1..] == body + ("}" + rest) && (p + rest)[..1] == "{";
    assert "" + (p + rest)[..1] == "{";
    assert Split(TopLevel, "", p + rest) == Split(OneOpen, "{", body + ("}" + rest));
    PastBody(OneOpen, "{", body, "}" + rest);
    assert ("}" + rest)[1..] == rest && ("}" + rest)[..1] == "}";
    assert "{" + body + "}" == p;
  }

  lemma {:induction false} GapOrBrace(s: Scan, text: string) returns (i: nat)
    requires s.depth == 0 && Split(s, "", text) != []
    ensures i < |text| && Flat(s, text[..i]) && After(s, text[..i]) == TopLevel && text[i] == '{'
    ensures Split(s, "", text) == Split(OneOpen, "{", text[i + 1..])
    decreases |text|
  {
    var next := Next(s, text[0]);
    if next.depth > 0 {
      i := 0;
      assert text[..1] == "{" && "" + text[..1] == "{";
    } else {
      var k := GapOrBrace(next, text[1..]);
      i := k + 1;
      assert text[..i][1..] == text[1..][..k] && text[i + 1..] == text[1..][k + 1..];
    }
  }

  lemma {:induction false} BodyAndBrace(s: Scan, held: string, text: string) returns (k: nat)
    requires s.depth > 0 && Split(s, held, text) != []
    ensures k < |text| && Above(s, 1, text[..k]) && After(s, text[..k]) == OneOpen && text[k] == '}'
    ensures Split(s, held, text) == [held + text[..k + 1]] + Pieces(text[k + 1..])
    decreases |text|
  {
    var next := Next(s, text[0]);
    if next.depth == 0 {
      k := 0;
    } else {
      var m := BodyAndBrace(next, held + text[..1], text[1..]);
      k := m + 1;
      assert text[..k][1..] == text[1..][..m] && text[k + 1..] == text[1..][m + 1..];
      assert text[..k + 1] == text[..1] + text[1..][..m + 1];
      Regrouped(held, text[..1], text[1..][..m + 1]);
    }
  }

  /** What is found first is an object behind a gap, and the rest is what the rest of the text gives. */
  lemma FoundIsObject(text: string) returns (i: nat, j: nat)
    requires Pieces(text) != []
    ensures i <= j <= |text| && IsGap(text[..i]) && IsObject(text[i..j])
    ensures Pieces(text) == [text[i..j]] + Pieces(text[j..])
  {
    i := GapOrBrace(TopLevel, text);
    var k := BodyAndBrace(OneOpen, "{", text[i + 1..]);
    j := i + 1 + k + 1;
    var p := text[i..j];
    assert p == "{" + text[i + 1..][..k + 1] && p[1..|p| - 1] == text[i + 1..][..k];
    assert text[j..] == text[i + 1..][k + 1..];
  }

  lemma NothingFound(text: string)
    requires Pieces(text) == []
    ensures NoObject(text)
  {
    forall i, j | 0 <= i <= j <= |text| && IsGap(text[..i]) ensures !IsObject(text[i..j]) {
      assert text == text[..i] + (text[i..j] + text[j..]);
      if IsObject(text[i..j]) {
        ObjectIsFound(text[..i], text[i..j], text[j..]);
      }
    }
  }

  lemma {:induction false} PiecesAreLaid(text: string)
    ensures Laid(text, Pieces(text))
    decreases |text|
  {
    if Pieces(text) == [] {
      NothingFound(text);
    } else {
      var i, j := FoundIsObject(text);
      PiecesAreLaid(text[j..]);
      assert Pieces(text)[1..] == Pieces(text[j..]) && text[i..j] == Pieces(text)[0];
    }
  }

  lemma LaidFront(text: string, pieces: seq<string>) returns (j: nat)
    requires Laid(text, pieces) && pieces != []
    ensures j <= |text| && Laid(text[j..], pieces[1..])
    ensures Pieces(text) == [pieces[0]] + Pieces(text[j..])
  {
    hide IsGap, IsObject, Pieces;
    var i, k :| 0 <= i <= k <= |text| && IsGap(text[..i]) && IsObject(text[i..k]) && text[i..k] == pieces[0] && Laid(text[k..], pieces[1..]);
    hide Laid;
    assert text == text[..i] + (text[i..k] + text[k..]);
    ObjectIsFound(text[..i], text[i..k], text[k..]);
    j := k;
  }

  lemma {:induction false} LaidArePieces(text: string, pieces: seq<string>)
    requires Laid(text, pieces)
    ensures pieces == Pieces(text)
    decreases |pieces|
  {
    if pieces == [] {
      if Pieces(text) != [] {
        var i, j := FoundIsObject(text);
      }
    } else {
      hide *;
      var j := LaidFront(text, pieces);
      LaidArePieces(text[j..], pieces[1..]);
      assert pieces == [pieces[0]] + pieces[1..];
    }
  }

  /** The pieces lie in the text in order and apart, each a whole object, and nothing is left out: they and no other list do. */
  lemma LaidIffPieces(text: string, pieces: seq<string>)
    ensures Laid(text, pieces) <==> pieces == Pieces(text)
  {
    PiecesAreLaid(text);
    if Laid(text, pieces) {
      LaidArePieces(text, pieces);
    }
  }

  // ---------------------------------------------------------- the printer

  /** Whether a text reads as though it were not there: from outside strings back, and never below where it began. */
  ghost predicate Neutral(text: string) {
    forall depth: nat :: After(Scan(depth, Outside), text) == Scan(depth, Outside) && Above(Scan(depth, Outside), depth, text)
  }

  lemma NeutralJoin(a: string, b: string)
    requires Neutral(a) && Neutral(b)
    ensures Neutral(a + b)
  {
    forall depth: nat
      ensures After(Scan(depth, Outside), a + b) == Scan(depth, Outside) && Above(Scan(depth, Outside), depth, a + b)
    {
      InParts(Scan(depth, Outside), depth, a, b);
    }
  }

  predicate IsPlain(c: char) {
    c != '"' && c != '{' && c != '}'
  }

  lemma {:induction false} PlainIsNeutral(text: string)
    requires forall c | c in text :: IsPlain(c)
    ensures Neutral(text)
  {
    if text != "" {
      PlainIsNeutral(text[1..]);
      assert IsPlain(text[0]);
    }
  }

  ghost predicate StaysInside(text: string) {
    forall depth: nat :: After(Scan(depth, Inside), text) == Scan(depth, Inside) && Above(Scan(depth, Inside), depth, text)
  }

  lemma {:induction false} OrdinaryStaysInside(text: string)
    requires forall c | c in text :: c != '"' && c != '\\'
    ensures StaysInside(text)
  {
    if text != "" {
      assert text[0] in text && forall c | c in text[1..] :: c in text;
      OrdinaryStaysInside(text[1..]);
    }
  }

  lemma EscapeStaysInside(text: string)
    requires |text| >= 2 && text[0] == '\\' && forall c | c in text[2..] :: c != '"' && c != '\\'
    ensures StaysInside(text)
  {
    OrdinaryStaysInside(text[2..]);
    assert text[1..][1..] == text[2..];
    forall depth: nat
      ensures After(Scan(depth, Inside), text) == Scan(depth, Inside) && Above(Scan(depth, Inside), depth, text)
    {
      var s := Scan(depth, Inside);
      assert Next(s, text[0]) == Scan(depth, Escaping) && Next(Scan(depth, Escaping), text[1]) == s;
      assert After(s, text) == After(Scan(depth, Escaping), text[1..]) == After(s, text[2..]);
    }
  }

  /** An escaped character never ends the string it is in. */
  lemma EscapedStaysInside(c: char)
    ensures StaysInside(Escaped(c))
  {
    if |Escaped(c)| == 1 {
      OrdinaryStaysInside(Escaped(c));
    } else {
      EscapeStaysInside(Escaped(c));
    }
  }

  lemma {:induction false} AllEscapedStaysInside(s: string)
    ensures StaysInside(AllEscaped(s))
  {
    if s != "" {
      EscapedStaysInside(s[0]);
      AllEscapedStaysInside(s[1..]);
      forall depth: nat
        ensures After(Scan(depth, Inside), AllEscaped(s)) == Scan(depth, Inside) && Above(Scan(depth, Inside), depth, AllEscaped(s))
      {
        InParts(Scan(depth, Inside), depth, Escaped(s[0]), AllEscaped(s[1..]));
      }
    }
  }

  lemma QuotedIsNeutral(s: string)
    ensures Neutral(Quoted(s))
  {
    AllEscapedStaysInside(s);
    var inside := AllEscaped(s);
    assert Quoted(s) == "\"" + (inside + "\"");
    forall depth: nat
      ensures After(Scan(depth, Outside), Quoted(s)) == Scan(depth, Outside) && Above(Scan(depth, Outside), depth, Quoted(s))
    {
      InParts(Scan(depth, Inside), depth, inside, "\"");
      assert Quoted(s)[0] == '"' && Quoted(s)[1..] == inside + "\"";
      assert "\""[1..] == "";
    }
  }

  lemma {:induction false} BreakIsPlain(level: nat)
    ensures forall c | c in Break(level) :: IsPlain(c)
  {
    if level > 0 {
      BreakIsPlain(level - 1);
    }
  }

  /** A line break and two blanks for every level. */
  lemma {:induction false} BreakIndents(level: nat)
    ensures |Break(level)| == 1 + 2 * level && Break(level)[0] == '\n'
    ensures forall i | 1 <= i < |Break(level)| :: Break(level)[i] == ' '
  {
    if level > 0 {
      BreakIndents(level - 1);
    }
  }

  lemma BreakIsNeutral(level: nat)
    ensures Neutral(Break(level)) && Neutral(",") && Neutral(": ") && Neutral("")
  {
    BreakIsPlain(level);
    PlainIsNeutral(Break(level));
    PlainIsNeutral(",");
    PlainIsNeutral(": ");
    PlainIsNeutral("");
  }

  lemma BracedReads(body: string, depth: nat)
    requires Neutral(body)
    ensures After(Scan(depth, Outside), "{" + (body + "}")) == Scan(depth, Outside)
    ensures Above(Scan(depth, Outside), depth, "{" + (body + "}"))
  {
    var inside := Scan(depth + 1, Outside);
    assert After(inside, body) == inside && Above(inside, depth + 1, body);
    InParts(inside, depth, body, "}");
    AboveLower(inside, depth + 1, depth, body);
    assert After(inside, "}") == Scan(depth, Outside) && Above(inside, depth, "}") by {
      assert "}"[1..] == "";
    }
    hide Neutral;
    assert ("{" + (body + "}"))[1..] == body + "}";
  }

  lemma BracedIsNeutral(body: string)
    requires Neutral(body)
    ensures Neutral("{" + body + "}") && IsObject("{" + body + "}")
  {
    assert "{" + body + "}" == "{" + (body + "}");
    forall depth: nat
      ensures After(Scan(depth, Outside), "{" + (body + "}")) == Scan(depth, Outside)
      ensures Above(Scan(depth, Outside), depth, "{" + (body + "}"))
    {
      BracedReads(body, depth);
    }
    BracedIsObject(body);
  }

  lemma BracedIsObject(body: string)
    requires Neutral(body)
    ensures IsObject("{" + body + "}")
  {
    var p := "{" + body + "}";
    assert p[1..|p| - 1] == body;
    hide After, Above;
  }

  lemma {:induction false} AboveLower(s: Scan, floor: nat, lower: nat, text: string)
    requires lower <= floor && Above(s, floor, text)
    ensures Above(s, lower, text)
    decreases |text|
  {
    if text != "" {
      AboveLower(Next(s, text[0]), floor, lower, text[1..]);
    }
  }

  lemma BracketedIsNeutral(body: string)
    requires Neutral(body)
    ensures Neutral("[" + body + "]")
  {
    PlainIsNeutral("[");
    PlainIsNeutral("]");
    NeutralJoin("[", body);
    NeutralJoin("[" + body, "]");
  }

  function ItemsBody(items: seq<Json>, level: nat): string {
    PrintItems(items, level + 1) + Break(level)
  }

  function EntriesBody(entries: seq<Entry>, level: nat): string {
    PrintEntries(entries, level + 1) + Break(level)
  }

  lemma ListText(j: Json, level: nat)
    requires j.List?
    ensures Print(j, level) == if j.items == [] then "[" + "" + "]" else "[" + ItemsBody(j.items, level) + "]"
  {
    hide PrintItems, Break;
    RegroupedBraces("[", PrintItems(j.items, level + 1), Break(level), "]");
  }

  lemma DictText(j: Json, level: nat)
    requires j.Dict?
    ensures Print(j, level) == if j.entries == [] then "{" + "" + "}" else "{" + EntriesBody(j.entries, level) + "}"
  {
    hide PrintEntries, Break;
    RegroupedBraces("{", PrintEntries(j.entries, level + 1), Break(level), "}");
  }

  lemma RegroupedBraces(open: string, body: string, end: string, close: string)
    ensures open + (body + (end + close)) == open + (body + end) + close
  {
  }

  lemma WordsAreNeutral()
    ensures Neutral("null") && Neutral("true") && Neutral("false")
  {
    PlainIsNeutral("null");
    PlainIsNeutral("true");
    PlainIsNeutral("false");
  }

  lemma ExponentIsPlain(s: string)
    requires IsExponent(s)
    ensures forall c | c in s :: IsPlain(c)
  {
    if s != "" {
      assert s == [s[0]] + s[1..];
      if |s| > 1 {
        assert s[1..] == [s[1]] + s[2..];
      }
    }
  }

  lemma NumeralIsPlain(text: numeral)
    ensures forall c | c in text :: IsPlain(c)
  {
    var i, j :| 0 <= i <= j <= |text| && NumberParts(text, i, j);
    ExponentIsPlain(text[j..]);
    assert text == text[..i] + text[i..j] + text[j..];
    assert i > 0 ==> text[..i] == [text[0]] + text[1..i];
    assert i < j ==> text[i..j] == [text[i]] + text[i + 1..j];
    hide IsExponent;
  }

  lemma NumeralIsNeutral(text: numeral)
    ensures Neutral(text)
  {
    hide Neutral;
    NumeralIsPlain(text);
    PlainIsNeutral(text);
  }

  lemma LeafIsNeutral(j: Json, level: nat)
    requires !j.List? && !j.Dict?
    ensures Neutral(Print(j, level))
  {
    hide Neutral, Quoted, Break;
    WordsAreNeutral();
    if j.Number? {
      NumeralIsNeutral(j.text);
    } else if j.Str? {
      QuotedIsNeutral(j.content);
    }
  }

  /** Whatever is in a value, its text opens and closes the same braces, strings aside. */
  lemma {:induction false} PrintIsNeutral(j: Json, level: nat)
    ensures Neutral(Print(j, level))
    ensures j.Dict? ==> IsObject(Print(j, level))
    decreases j, 1
  {
    hide Neutral, Print, PrintItems, PrintEntries, Break, IsObject;
    BreakIsNeutral(level);
    if j.List? {
      ListText(j, level);
      ItemsAreNeutral(j.items, level + 1);
      NeutralJoin(PrintItems(j.items, level + 1), Break(level));
      BracketedIsNeutral(if j.items == [] then "" else ItemsBody(j.items, level));
    } else if j.Dict? {
      DictText(j, level);
      EntriesAreNeutral(j.entries, level + 1);
      NeutralJoin(PrintEntries(j.entries, level + 1), Break(level));
      BracedIsNeutral(if j.entries == [] then "" else EntriesBody(j.entries, level));
    } else {
      LeafIsNeutral(j, level);
    }
  }

  lemma NothingPrinted(level: nat)
    ensures PrintItems([], level) == "" && PrintEntries([], level) == ""
  {
  }

  lemma FirstItem(items: seq<Json>, level: nat)
    requires items != []
    ensures (PrintItems(items, level)
             == Break(level) + (Print(items[0], level) + ((if |items| == 1 then "" else ",") + PrintItems(items[1..], level))))
  {
    hide Print, Break;
  }

  lemma {:induction false} ItemsAreNeutral(items: seq<Json>, level: nat)
    ensures Neutral(PrintItems(items, level))
    decreases items, 0
  {
    hide *;
    BreakIsNeutral(level);
    if items == [] {
      NothingPrinted(level);
    } else {
      FirstItem(items, level);
      PrintIsNeutral(items[0], level);
      ItemsAreNeutral(items[1..], level);
      var rest, comma := PrintItems(items[1..], level), if |items| == 1 then "" else ",";
      NeutralJoin(comma, rest);
      NeutralJoin(Print(items[0], level), comma + rest);
      NeutralJoin(Break(level), Print(items[0], level) + (comma + rest));
    }
  }

  lemma FirstEntry(entries: seq<Entry>, level: nat)
    requires entries != []
    ensures entries decreases to entries[0]
    ensures (PrintEntries(entries, level)
             == Break(level) + (PrintEntry(entries[0], level)
                                + ((if |entries| == 1 then "" else ",") + PrintEntries(entries[1..], level))))
  {
    assert entries decreases to entries[0];
    hide PrintEntry, Break;
  }

  lemma {:induction false} EntryIsNeutral(entry: Entry, level: nat)
    ensures Neutral(PrintEntry(entry, level))
    decreases entry, 0
  {
    hide Neutral, Print, Quoted;
    BreakIsNeutral(level);
    QuotedIsNeutral(entry.key);
    PrintIsNeutral(entry.value, level);
    NeutralJoin(": ", Print(entry.value, level));
    NeutralJoin(Quoted(entry.key), ": " + Print(entry.value, level));
  }

  lemma {:induction false} EntriesAreNeutral(entries: seq<Entry>, level: nat)
    ensures Neutral(PrintEntries(entries, level))
    decreases entries, 0
  {
    hide *;
    BreakIsNeutral(level);
    if entries == [] {
      NothingPrinted(level);
    } else {
      FirstEntry(entries, level);
      EntryIsNeutral(entries[0], level);
      EntriesAreNeutral(entries[1..], level);
      var rest, comma := PrintEntries(entries[1..], level), if |entries| == 1 then "" else ",";
      NeutralJoin(comma, rest);
      NeutralJoin(PrintEntry(entries[0], level), comma + rest);
      NeutralJoin(Break(level), PrintEntry(entries[0], level) + (comma + rest));
    }
  }

  /** Two objects printed behind one another are split into the two, whatever strings and nested objects they hold. */
  lemma SplitUndoesPrint(a: seq<Entry>, b: seq<Entry>)
    ensures Pieces(Print(Dict(a), 0) + Print(Dict(b), 0)) == [Print(Dict(a), 0), Print(Dict(b), 0)]
    ensures Pieces(Print(Dict(b), 0)) == [Print(Dict(b), 0)]
  {
    hide *;
    PrintIsNeutral(Dict(a), 0);
    PrintIsNeutral(Dict(b), 0);
    ObjectsAreSplit(Print(Dict(a), 0), Print(Dict(b), 0));
  }

  lemma ObjectsAreSplit(x: string, y: string)
    requires IsObject(x) && IsObject(y)
    ensures Pieces(x + y) == [x, y] && Pieces(y) == [y]
  {
    NothingSplit();
    hide *;
    ObjectIsFound("", x, y);
    ObjectIsFound("", y, "");
    assert "" + (x + y) == x + y && "" + (y + "") == y;
  }

  lemma NothingSplit()
    ensures Pieces("") == [] && IsGap("")
  {
  }

  /** What is saved is what is loaded, by a reader that reads the two objects back; one without a version gets the first one. */
  lemma SavedIsLoaded(version: seq<Entry>, values: seq<Entry>, read: string -> Option<Json>)
    requires read(Print(Dict(VersionOf(version)), 0)) == Just(Dict(VersionOf(version)))
    requires read(Print(Dict(values), 0)) == Just(Dict(values))
    ensures Parse(Body(version, values), read) == Settings(VersionOf(version), values)
  {
    SplitUndoesPrint(VersionOf(version), values);
    hide Print, Pieces, VersionOf;
  }
}
