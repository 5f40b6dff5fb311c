/** Stripping comments and indentation from JavaScript without a parser. */
module Minify {
  import opened Bytes

  const NEWLINE: byte := 10
  const SLASH: byte := 47
  const STAR: byte := 42
  const DOUBLE_QUOTE: byte := 34
  const SINGLE_QUOTE: byte := 39
  const BACKSLASH: byte := 92

  type mark = b: byte | b == DOUBLE_QUOTE || b == SINGLE_QUOTE witness DOUBLE_QUOTE

  datatype Mode = Code | LineComment | BlockComment | Quoted(quote: mark) | Regex
  {
    predicate Comment() {
      LineComment? || BlockComment?
    }

    predicate Literal() {
      Quoted? || Regex?
    }
  }

  /** `previous` is what came before, for telling a regular expression from a division. */
  datatype State = State(mode: Mode, escaped: bool, previous: byte)

  const Begin := State(Code, false, 0)

  /** ASCII white space as the trimmer cuts it: the vertical tab as well. */
  predicate IsTrimmed(b: byte) {
    9 <= b <= 13 || b == 32
  }

  /** Whether a slash behind this byte opens a regular expression rather than dividing. */
  predicate StartsRegex(previous: byte) {
    previous in {0, 40, 44, 61, 58, 91, 33, 38, 124, 63, 123, 125, 59, 43, 45, 42, 60, 62, 126, 94, 37}
  }

  // ------------------------------------------------------------ the scanner

  /** What the scanner makes of the front of a text: the state behind it, its width, whether it is kept. */
  datatype Move = Move(state: State, width: nat, kept: bool)

  function Noting(state: State, b: byte): State {
    if !IsBlank(b) && !state.mode.Comment() then state.(previous := b) else state
  }

  function InLiteral(state: State, b: byte, closes: bool): State {
    if state.escaped then state.(escaped := false)
    else if b == BACKSLASH then state.(escaped := true)
    else if closes then state.(mode := Code)
    else state
  }

  function Step(state: State, s: bytes): (m: Move)
    requires s != []
    ensures 1 <= m.width <= |s|
  {
    var b := s[0];
    var next := if |s| > 1 then s[1] else 0;
    match state.mode
    case Code =>
      if b == SLASH && next == SLASH then Move(state.(mode := LineComment), 2, false)
      else if b == SLASH && next == STAR then Move(state.(mode := BlockComment), 2, false)
      else if b == SLASH && StartsRegex(state.previous) then Move(Noting(state.(mode := Regex), b), 1, true)
      else if b == DOUBLE_QUOTE || b == SINGLE_QUOTE then Move(Noting(state.(mode := Quoted(b)), b), 1, true)
      else Move(Noting(state, b), 1, true)
    case LineComment =>
      if b == NEWLINE then Move(Noting(state.(mode := Code), b), 1, true) else Move(state, 1, false)
    case BlockComment =>
      if b == STAR && next == SLASH then Move(state.(mode := Code), 2, false) else Move(state, 1, b == NEWLINE)
    case Quoted(quote) => Move(Noting(InLiteral(state, b, b == quote), b), 1, true)
    case Regex => Move(Noting(InLiteral(state, b, b == SLASH || b == NEWLINE), b), 1, true)
  }

  /** The text without its comments. */
  function Stripped(state: State, s: bytes): bytes
    decreases |s|
  {
    if s == [] then []
    else
      var m := Step(state, s);
      (if m.kept then [s[0]] else []) + Stripped(m.state, s[m.width..])
  }

  // ------------------------------------------------------------ the trimmer

  function TrimmedStart(line: bytes): bytes {
    if line != [] && IsTrimmed(line[0]) then TrimmedStart(line[1..]) else line
  }

  function TrimmedEnd(line: bytes): bytes {
    if line != [] && IsTrimmed(line[|line| - 1]) then TrimmedEnd(line[..|line| - 1]) else line
  }

  function Trimmed(line: bytes): bytes {
    TrimmedEnd(TrimmedStart(line))
  }

  /** The first line of a text and what is behind it. */
  function Line(s: bytes): (r: (bytes, bytes))
    requires s != []
    ensures |r.1| < |s| && |r.0| <= |s|
  {
    match Find(NEWLINE, s, 0)
    case Nothing => (s, [])
    case Just(end) => (s[..end], s[end + 1..])
  }

  /** The lines that are left when indentation and empty lines go. */
  function Tidied(s: bytes): bytes
    decreases |s|
  {
    if s == [] then []
    else
      var line := Trimmed(Line(s).0);
      (if line == [] then [] else line + [NEWLINE]) + Tidied(Line(s).1)
  }

  function Minified(source: bytes): bytes {
    Tidied(Stripped(Begin, source))
  }

  lemma StrippedStep(state: State, s: bytes)
    requires s != []
    ensures var m := Step(state, s);
            Stripped(state, s) == if m.kept then [s[0]] + Stripped(m.state, s[m.width..]) else Stripped(m.state, s[m.width..])
  {
  }

  lemma StrippedDone(state: State)
    ensures Stripped(state, []) == []
  {
  }

  method Minify(source: bytes) returns (result: bytes)
    ensures result == Minified(source)
  {
    hide Tidied, Stripped;
    hide IsBlank, StartsRegex;
    var out := [];
    var mode := Code;
    var escaped := false;
    var previous: byte := 0;
    var index := 0;
    assert source[0..] == source;
    while index < |source|
      invariant index <= |source|
      invariant out + Stripped(State(mode, escaped, previous), source[index..]) == Stripped(Begin, source)
    {
      ghost var before := State(mode, escaped, previous);
      ghost var sofar := out;
      ghost var rest := source[index..];
      var b := source[index];
      var next := if index + 1 < |source| then source[index + 1] else 0;
      ghost var m := Step(before, rest);
      assert rest[m.width..] == source[index + m.width..];
      StrippedStep(before, rest);
      match mode {
        case Code =>
          if b == SLASH && next == SLASH {
            assert m == Move(before.(mode := LineComment), 2, false);
            mode := LineComment;
            index := index + 2;
            continue;
          }
          if b == SLASH && next == STAR {
            assert m == Move(before.(mode := BlockComment), 2, false);
            mode := BlockComment;
            index := index + 2;
            continue;
          }
          if b == SLASH && StartsRegex(previous) {
            mode := Regex;
          } else if b == DOUBLE_QUOTE || b == SINGLE_QUOTE {
            mode := Quoted(b);
          }
          out := out + [b];
        case LineComment =>
          if b == NEWLINE {
            mode := Code;
            out := out + [b];
          }
        case BlockComment =>
          if b == STAR && next == SLASH {
            mode := Code;
            index := index + 2;
            continue;
          }
          if b == NEWLINE {
            out := out + [b];
          }
        case Quoted(quote) =>
          out := out + [b];
          if escaped {
            escaped := false;
          } else if b == BACKSLASH {
            escaped := true;
          } else if b == quote {
            mode := Code;
          }
        case Regex =>
          out := out + [b];
          if escaped {
            escaped := false;
          } else if b == BACKSLASH {
            escaped := true;
          } else if b == SLASH || b == NEWLINE {
            mode := Code;
          }
      }
      if !IsBlank(b) && !mode.Comment() {
        previous := b;
      }
      index := index + 1;
      assert State(mode, escaped, previous) == m.state && m.width == 1;
      assert sofar + [b] + Stripped(m.state, source[index..]) == sofar + ([b] + Stripped(m.state, source[index..]));
    }
    assert source[index..] == [];
    StrippedDone(State(mode, escaped, previous));
    assert out + [] == out;
    result := Tidy(out);
  }

  method Tidy(text: bytes) returns (result: bytes)
    ensures result == Tidied(text)
  {
    result := [];
    var left := text;
    while left != []
      invariant result + Tidied(left) == Tidied(text)
      decreases |left|
    {
      var (line, behind) := Line(left);
      var trimmed := Trimmed(line);
      if trimmed != [] {
        result := result + trimmed;
        result := result + [NEWLINE];
      }
      left := behind;
    }
  }
}
