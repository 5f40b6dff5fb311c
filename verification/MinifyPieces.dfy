/**
 What stripping does, piece by piece and in literal bytes: every text is code, comments and
 literals in a row, the comments go but for the line breaks of block comments, and all else stays.
 */
module MinifyPieces {
  import opened Bytes
  import opened Minify

  /**
   `close` is what ends a literal: its mark, a line break for a regular expression, or nothing where
   the text ends first.
   */
  datatype Piece =
    | Plain(b: byte)
    | Line(body: bytes)
    | Block(body: bytes, closed: bool)
    | Literal(open: byte, body: bytes, close: bytes)

  function Spelled(p: Piece): (s: bytes)
    ensures s != []
  {
    match p
    case Plain(b) => [b]
    case Line(body) => [47, 47] + body
    case Block(body, closed) => [47, 42] + (body + if closed then [42, 47] else [])
    case Literal(open, body, close) => [open] + (body + close)
  }

  function SpelledAll(pieces: seq<Piece>): bytes {
    if pieces == [] then [] else Spelled(pieces[0]) + SpelledAll(pieces[1..])
  }

  function Breaks(body: bytes): bytes {
    if body == [] then [] else (if body[0] == 10 then [10] else []) + Breaks(body[1..])
  }

  /** What is left of a piece. */
  function Left(p: Piece): bytes {
    match p
    case Line(_) => []
    case Block(body, _) => Breaks(body)
    case _ => Spelled(p)
  }

  function LeftAll(pieces: seq<Piece>): bytes {
    if pieces == [] then [] else Left(pieces[0]) + LeftAll(pieces[1..])
  }

  // ------------------------------------------------------- which piece is which

  const OPERATORS: string := "(,=:[!&|?{};+-*<>~^%"

  /** Behind these, or at the start, a slash opens a regular expression. */
  predicate Operator(previous: byte) {
    previous == 0 || previous as char in OPERATORS
  }

  /** The last byte that is not white space, of a text or of what was before it. */
  function LastSolid(previous: byte, s: bytes): byte
    decreases |s|
  {
    if s == [] then previous
    else LastSolid(if s[0] in {9, 10, 12, 13, 32} then previous else s[0], s[1..])
  }

  function Behind(previous: byte, p: Piece): byte {
    if p.Line? || p.Block? then previous else LastSolid(previous, Spelled(p))
  }

  /** The inside of a literal: what a backslash stands before is part of it, whatever it is. */
  predicate Inside(open: byte, body: bytes) {
    if body == [] then true
    else if body[0] == 92 then |body| > 1 && Inside(open, body[2..])
    else body[0] != open && (open == 47 ==> body[0] != 10) && Inside(open, body[1..])
  }

  /** The same, cut off by the end of the text, behind a backslash perhaps. */
  predicate CutInside(open: byte, body: bytes) {
    Inside(open, body) || (body != [] && body[|body| - 1] == 92 && Inside(open, body[..|body| - 1]))
  }

  predicate HasEnd(body: bytes) {
    |body| > 1 && ((body[0] == 42 && body[1] == 47) || HasEnd(body[1..]))
  }

  predicate StartsComment(s: bytes) {
    s != [] && (s[0] == 47 || s[0] == 42)
  }

  /** A piece behind this byte and before that text. */
  predicate Proper(p: Piece, previous: byte, behind: bytes) {
    match p
    case Plain(b) => b != 34 && b != 39 && (b == 47 ==> !Operator(previous) && !StartsComment(behind))
    case Line(body) => 10 !in body && (behind != [] ==> behind[0] == 10)
    case Block(body, closed) => !HasEnd(body) && (!closed ==> behind == [])
    case Literal(open, body, close) =>
      && (open == 34 || open == 39 || (open == 47 && Operator(previous) && !StartsComment(body + close)))
      && (if close == [] then behind == [] && CutInside(open, body)
          else Inside(open, body) && (close == [open] || (open == 47 && close == [10])))
  }

  predicate ProperAll(pieces: seq<Piece>, previous: byte) {
    pieces == []
    || (Proper(pieces[0], previous, SpelledAll(pieces[1..])) && ProperAll(pieces[1..], Behind(previous, pieces[0])))
  }

  // ------------------------------------------------------------- they are left

  function InCode(previous: byte): State {
    State(Code, false, previous)
  }

  lemma OperatorIff(previous: byte)
    ensures StartsRegex(previous) <==> Operator(previous)
  {
    var chars := ['(', ',', '=', ':', '[', '!', '&', '|', '?', '{', '}', ';', '+', '-', '*', '<', '>', '~', '^', '%'];
    assert OPERATORS == chars;
  }

  lemma Second(s: bytes, a: byte, b: byte, rest: bytes)
    requires s == [a, b] + rest
    ensures |s| > 1 && s[0] == a && s[1] == b && s[2..] == rest
  {
  }

  lemma {:induction false} LineIsDropped(previous: byte, body: bytes, behind: bytes)
    requires 10 !in body && (behind != [] ==> behind[0] == 10)
    ensures Stripped(State(LineComment, false, previous), body + behind) == Stripped(InCode(previous), behind)
  {
    var state := State(LineComment, false, previous);
    if body == [] {
      assert body + behind == behind;
    } else {
      assert (body + behind)[1..] == body[1..] + behind;
      LineIsDropped(previous, body[1..], behind);
    }
  }

  lemma {:induction false} BlockIsDropped(previous: byte, body: bytes, closed: bool, behind: bytes)
    requires !HasEnd(body) && (!closed ==> behind == [])
    ensures Stripped(State(BlockComment, false, previous), body + ((if closed then [42, 47] else []) + behind))
         == Breaks(body) + Stripped(InCode(previous), behind)
  {
    hide Stripped, Step;
    var end := (if closed then [42, 47] else []) + behind;
    if body == [] {
      assert body + end == end;
      BlockEnds(previous, closed, behind);
    } else {
      var state, s := State(BlockComment, false, previous), body + end;
      assert s[0] == body[0] && s[1..] == body[1..] + end;
      assert |body| > 1 ==> s[1] == body[1];
      assert |body| == 1 && closed ==> s[1] == 42;
      BlockIsDropped(previous, body[1..], closed, behind);
      BlockStep(state, s);
      StrippedStep(state, s);
    }
  }

  lemma BlockStep(state: State, s: bytes)
    requires state.mode.BlockComment? && s != [] && !(|s| > 1 && s[0] == 42 && s[1] == 47)
    ensures Step(state, s) == Move(state, 1, s[0] == 10)
  {
  }

  lemma BlockEnds(previous: byte, closed: bool, behind: bytes)
    requires !closed ==> behind == []
    ensures Stripped(State(BlockComment, false, previous), (if closed then [42, 47] else []) + behind)
         == Stripped(InCode(previous), behind)
  {
    if closed {
      Second([42, 47] + behind, 42, 47, behind);
    }
  }

  function LiteralMode(open: byte): Mode
    requires open == 34 || open == 39 || open == 47
  {
    if open == 47 then Regex else Quoted(open)
  }

  lemma LastSolidJoins(previous: byte, a: bytes, b: bytes)
    ensures LastSolid(previous, a + b) == LastSolid(LastSolid(previous, a), b)
    decreases |a|
  {
    if a == [] {
      assert a + b == b;
    } else {
      assert (a + b)[1..] == a[1..] + b;
    }
  }

  lemma {:induction false} InsideIsLeft(open: byte, previous: byte, body: bytes, behind: bytes)
    requires (open == 34 || open == 39 || open == 47) && Inside(open, body)
    ensures Stripped(State(LiteralMode(open), false, previous), body + behind)
         == body + Stripped(State(LiteralMode(open), false, LastSolid(previous, body)), behind)
    decreases |body|
  {
    hide Stripped, LastSolid, LiteralMode;
    if body == [] {
      assert body + behind == behind;
      SolidNothing(previous);
    } else {
      var width := if body[0] == 92 then 2 else 1;
      var front, rest := body[..width], body[width..];
      assert body == front + rest;
      FrontIsLeft(open, previous, body, behind);
      InsideIsLeft(open, LastSolid(previous, front), rest, behind);
      LastSolidJoins(previous, front, rest);
      Regrouped(front, rest, Stripped(State(LiteralMode(open), false, LastSolid(previous, body)), behind));
    }
  }

  lemma SolidNothing(previous: byte)
    ensures LastSolid(previous, []) == previous
  {
  }

  /** One byte of a literal, or two of them if the first is a backslash. */
  lemma FrontIsLeft(open: byte, previous: byte, body: bytes, behind: bytes)
    requires (open == 34 || open == 39 || open == 47) && Inside(open, body) && body != []
    ensures var width := if body[0] == 92 then 2 else 1;
            && width <= |body| && Inside(open, body[width..])
            && Stripped(State(LiteralMode(open), false, previous), body + behind)
               == body[..width] + Stripped(State(LiteralMode(open), false, LastSolid(previous, body[..width])), body[width..] + behind)
  {
    hide Stripped, LastSolid;
    var state := State(LiteralMode(open), false, previous);
    if body[0] == 92 {
      assert body[..2] == [92, body[1]] && body + behind == [92, body[1]] + (body[2..] + behind);
      TwoLeft(state, body[1], body[2..] + behind);
    } else {
      assert body[..1] == [body[0]] && body + behind == [body[0]] + (body[1..] + behind);
      OneLeft(open, previous, body[0], body[1..] + behind);
    }
  }

  lemma OneLeft(open: byte, previous: byte, b: byte, rest: bytes)
    requires (open == 34 || open == 39 || open == 47) && b != 92 && b != open && (open == 47 ==> b != 10)
    ensures Stripped(State(LiteralMode(open), false, previous), [b] + rest)
         == [b] + Stripped(State(LiteralMode(open), false, LastSolid(previous, [b])), rest)
  {
    var state, s := State(LiteralMode(open), false, previous), [b] + rest;
    assert s[1..] == rest && [b][1..] == [];
    StrippedStep(state, s);
    hide Stripped;
    assert Step(state, s) == Move(state.(previous := LastSolid(previous, [b])), 1, true);
  }

  lemma TwoLeft(state: State, b: byte, rest: bytes)
    requires state.mode.Literal() && !state.escaped
    ensures Stripped(state, [92, b] + rest)
         == [92, b] + Stripped(State(state.mode, false, LastSolid(state.previous, [92, b])), rest)
  {
    hide Step, Stripped, LastSolid;
    var s := [92, b] + rest;
    assert s[0] == 92 && s[1..] == [b] + rest && s[1..][0] == b && s[1..][1..] == rest;
    var escaped := state.(escaped := true, previous := 92);
    BackslashStep(state, s);
    EscapedStep(escaped, s[1..]);
    StrippedStep(state, s);
    StrippedStep(escaped, s[1..]);
    SolidEscape(state.previous, b);
    assert [92] + ([b] + Stripped(State(state.mode, false, LastSolid(92, [b])), rest))
        == [92, b] + Stripped(State(state.mode, false, LastSolid(92, [b])), rest);
  }

  lemma BackslashStep(state: State, s: bytes)
    requires state.mode.Literal() && !state.escaped && s != [] && s[0] == 92
    ensures Step(state, s) == Move(state.(escaped := true, previous := 92), 1, true)
  {
  }

  lemma EscapedStep(state: State, s: bytes)
    requires state.mode.Literal() && state.escaped && s != []
    ensures Step(state, s) == Move(State(state.mode, false, LastSolid(state.previous, [s[0]])), 1, true)
  {
    assert [s[0]][1..] == [];
  }

  lemma SolidEscape(previous: byte, b: byte)
    ensures LastSolid(previous, [92, b]) == LastSolid(92, [b])
  {
    assert [92, b][1..] == [b];
  }

  lemma CloseIsLeft(open: byte, previous: byte, close: byte, behind: bytes)
    requires (open == 34 || open == 39 || open == 47) && (close == open || (open == 47 && close == 10))
    ensures Stripped(State(LiteralMode(open), false, previous), [close] + behind)
         == [close] + Stripped(InCode(LastSolid(previous, [close])), behind)
  {
    var state, s := State(LiteralMode(open), false, previous), [close] + behind;
    assert s[1..] == behind && [close][1..] == [];
    StrippedStep(state, s);
    hide Stripped;
    assert Step(state, s) == Move(InCode(LastSolid(previous, [close])), 1, true);
  }

  /** A literal cut off by the end of the text stays as far as it goes. */
  lemma CutIsLeft(open: byte, previous: byte, body: bytes)
    requires (open == 34 || open == 39 || open == 47) && CutInside(open, body)
    ensures Stripped(State(LiteralMode(open), false, previous), body) == body
  {
    var mode := LiteralMode(open);
    assert body + [] == body;
    if Inside(open, body) {
      InsideIsLeft(open, previous, body, []);
      StrippedDone(State(mode, false, LastSolid(previous, body)));
    } else {
      var front := body[..|body| - 1];
      assert body == front + [92];
      InsideIsLeft(open, previous, front, [92]);
      var state := State(mode, false, LastSolid(previous, front));
      StrippedStep(state, [92]);
      StrippedDone(Step(state, [92]).state);
      assert [92][1..] == [] && [92] + [] == [92];
    }
  }

  lemma OpenIsLeft(open: byte, previous: byte, rest: bytes)
    requires open == 34 || open == 39 || (open == 47 && Operator(previous) && !StartsComment(rest))
    ensures Stripped(InCode(previous), [open] + rest) == [open] + Stripped(State(LiteralMode(open), false, open), rest)
  {
    var s := [open] + rest;
    assert s[1..] == rest && (rest != [] ==> s[1] == rest[0]);
    OperatorIff(previous);
    StrippedStep(InCode(previous), s);
    hide Stripped, StartsRegex, Operator;
    assert Step(InCode(previous), s) == Move(State(LiteralMode(open), false, open), 1, true);
  }

  lemma SolidOpen(open: byte, previous: byte, rest: bytes)
    requires open == 34 || open == 39 || open == 47
    ensures LastSolid(previous, [open] + rest) == LastSolid(open, rest)
  {
    assert ([open] + rest)[1..] == rest;
  }

  lemma LiteralIsLeft(p: Piece, previous: byte, behind: bytes)
    requires p.Literal? && Proper(p, previous, behind)
    ensures Stripped(InCode(previous), Spelled(p) + behind) == Spelled(p) + Stripped(InCode(Behind(previous, p)), behind)
  {
    var Literal(open, body, close) := p;
    var rest := body + (close + behind);
    assert Spelled(p) + behind == [open] + rest;
    if open == 47 {
      NoComment(body, close, behind);
    }
    OpenIsLeft(open, previous, rest);
    SolidOpen(open, previous, body + close);
    hide Stripped, LastSolid, Operator;
    if close == [] {
      assert rest == body && Spelled(p) == [open] + body;
      CutIsLeft(open, open, body);
      StrippedDone(InCode(Behind(previous, p)));
      assert [open] + body + [] == [open] + body;
    } else {
      InsideIsLeft(open, open, body, close + behind);
      CloseIsLeft(open, LastSolid(open, body), close[0], behind);
      LastSolidJoins(open, body, close);
      Nested(open, body, close, Stripped(InCode(Behind(previous, p)), behind));
    }
  }

  lemma Nested(open: byte, body: bytes, close: bytes, rest: bytes)
    ensures [open] + (body + (close + rest)) == ([open] + (body + close)) + rest
  {
  }

  lemma NoComment(body: bytes, close: bytes, behind: bytes)
    requires !StartsComment(body + close) && (body + close == [] ==> behind == [])
    ensures !StartsComment(body + (close + behind))
  {
    var s := body + (close + behind);
    assert s == (body + close) + behind;
  }

  /** One piece in front of a text. */
  lemma PieceIsLeft(p: Piece, previous: byte, behind: bytes)
    requires Proper(p, previous, behind)
    ensures Stripped(InCode(previous), Spelled(p) + behind) == Left(p) + Stripped(InCode(Behind(previous, p)), behind)
  {
    hide Stripped, LastSolid, HasEnd, Operator;
    match p
    case Plain(b) => PlainIsLeft(b, previous, behind);
    case Line(body) => LineIsLeft(body, previous, behind);
    case Block(body, closed) => BlockIsLeft(body, closed, previous, behind);
    case Literal(_, _, _) => LiteralIsLeft(p, previous, behind);
  }

  lemma CommentOpens(previous: byte, second: byte, rest: bytes)
    requires second == 47 || second == 42
    ensures Stripped(InCode(previous), [47, second] + rest)
         == Stripped(State(if second == 47 then LineComment else BlockComment, false, previous), rest)
  {
    Second([47, second] + rest, 47, second, rest);
    StrippedStep(InCode(previous), [47, second] + rest);
    hide Stripped;
  }

  lemma LineIsLeft(body: bytes, previous: byte, behind: bytes)
    requires 10 !in body && (behind != [] ==> behind[0] == 10)
    ensures Stripped(InCode(previous), [47, 47] + body + behind) == [] + Stripped(InCode(previous), behind)
  {
    hide Stripped;
    Regrouped([47, 47], body, behind);
    CommentOpens(previous, 47, body + behind);
    LineIsDropped(previous, body, behind);
    assert [] + Stripped(InCode(previous), behind) == Stripped(InCode(previous), behind);
  }

  lemma BlockIsLeft(body: bytes, closed: bool, previous: byte, behind: bytes)
    requires !HasEnd(body) && (!closed ==> behind == [])
    ensures Stripped(InCode(previous), [47, 42] + (body + if closed then [42, 47] else []) + behind)
         == Breaks(body) + Stripped(InCode(previous), behind)
  {
    hide Stripped, HasEnd, Breaks;
    var end := if closed then [42, 47] else [];
    Regrouped([47, 42], body + end, behind);
    Regrouped(body, end, behind);
    CommentOpens(previous, 42, body + (end + behind));
    BlockIsDropped(previous, body, closed, behind);
  }

  lemma PlainIsLeft(b: byte, previous: byte, behind: bytes)
    requires Proper(Plain(b), previous, behind)
    ensures Stripped(InCode(previous), [b] + behind) == [b] + Stripped(InCode(LastSolid(previous, [b])), behind)
  {
    var s := [b] + behind;
    assert s[1..] == behind && [b][1..] == [] && (behind != [] ==> s[1] == behind[0]);
    OperatorIff(previous);
    StrippedStep(InCode(previous), s);
    hide Stripped, StartsRegex, Operator;
    assert Step(InCode(previous), s) == Move(InCode(LastSolid(previous, [b])), 1, true);
  }

  lemma {:induction false} PiecesAreLeft(pieces: seq<Piece>, previous: byte)
    requires ProperAll(pieces, previous)
    ensures Stripped(InCode(previous), SpelledAll(pieces)) == LeftAll(pieces)
  {
    hide Proper, Spelled, Left, Behind, Stripped;
    if pieces == [] {
      StrippedDone(InCode(previous));
    } else {
      PieceIsLeft(pieces[0], previous, SpelledAll(pieces[1..]));
      PiecesAreLeft(pieces[1..], Behind(previous, pieces[0]));
    }
  }

  // ------------------------------------------------- every text is such pieces

  lemma {:induction false} ToLineBreak(s: bytes) returns (body: bytes, behind: bytes)
    ensures s == body + behind && 10 !in body && (behind != [] ==> behind[0] == 10)
  {
    if s == [] || s[0] == 10 {
      body, behind := [], s;
    } else {
      body, behind := ToLineBreak(s[1..]);
      body := [s[0]] + body;
    }
  }

  lemma {:induction false} ToBlockEnd(s: bytes) returns (body: bytes, closed: bool, behind: bytes)
    ensures s == body + ((if closed then [42, 47] else []) + behind) && !HasEnd(body) && (!closed ==> behind == [])
  {
    if s == [] {
      body, closed, behind := [], false, [];
    } else if |s| > 1 && s[0] == 42 && s[1] == 47 {
      body, closed, behind := [], true, s[2..];
    } else {
      var rest;
      rest, closed, behind := ToBlockEnd(s[1..]);
      body := [s[0]] + rest;
      assert body[1..] == rest;
      assert rest != [] ==> rest[0] == s[1];
    }
  }

  lemma {:induction false} ToLiteralEnd(open: byte, s: bytes) returns (body: bytes, close: bytes, behind: bytes)
    requires open == 34 || open == 39 || open == 47
    ensures s == body + (close + behind)
    ensures if close == [] then behind == [] && CutInside(open, body)
            else Inside(open, body) && (close == [open] || (open == 47 && close == [10]))
    decreases |s|
  {
    if s == [] || s == [92] {
      body, close, behind := s, [], [];
      assert s == [92] ==> s[..0] == [];
    } else if s[0] == open || (open == 47 && s[0] == 10) {
      body, close, behind := [], [s[0]], s[1..];
    } else {
      var width := if s[0] == 92 then 2 else 1;
      var rest;
      rest, close, behind := ToLiteralEnd(open, s[width..]);
      body := s[..width] + rest;
      assert body[width..] == rest;
      if close == [] && !Inside(open, rest) {
        assert body[..|body| - 1][width..] == rest[..|rest| - 1];
      }
    }
  }

  /** The piece a text starts with. */
  lemma FirstPiece(s: bytes, previous: byte) returns (p: Piece, behind: bytes)
    requires s != []
    ensures s == Spelled(p) + behind && Proper(p, previous, behind)
  {
    if |s| > 1 && s[0] == 47 && s[1] == 47 {
      var body;
      body, behind := ToLineBreak(s[2..]);
      p := Line(body);
      assert s == [47, 47] + s[2..];
    } else if |s| > 1 && s[0] == 47 && s[1] == 42 {
      var body, closed;
      body, closed, behind := ToBlockEnd(s[2..]);
      p := Block(body, closed);
      assert s == [47, 42] + s[2..];
    } else if s[0] == 34 || s[0] == 39 || (s[0] == 47 && Operator(previous)) {
      p, behind := FirstLiteral(s, previous);
    } else {
      p, behind := Plain(s[0]), s[1..];
    }
  }

  lemma FirstLiteral(s: bytes, previous: byte) returns (p: Piece, behind: bytes)
    requires s != [] && (s[0] == 34 || s[0] == 39 || (s[0] == 47 && Operator(previous) && !StartsComment(s[1..])))
    ensures s == Spelled(p) + behind && Proper(p, previous, behind)
  {
    hide Operator, CutInside, Inside;
    var body, close;
    body, close, behind := ToLiteralEnd(s[0], s[1..]);
    p := Literal(s[0], body, close);
    assert s == [s[0]] + s[1..];
    assert s[1..] == (body + close) + behind;
    assert body + close != [] ==> s[1..][0] == (body + close)[0];
  }

  lemma {:induction false} PiecesOf(s: bytes, previous: byte) returns (pieces: seq<Piece>)
    ensures ProperAll(pieces, previous) && SpelledAll(pieces) == s
    decreases |s|
  {
    if s == [] {
      pieces := [];
    } else {
      var p, behind := FirstPiece(s, previous);
      var rest := PiecesOf(behind, Behind(previous, p));
      pieces := [p] + rest;
      assert pieces[1..] == rest;
    }
  }

  // ------------------------------------------------------------ main result

  /** Any text is such pieces, and stripping leaves of it what is left of each. */
  lemma StrippedIff(source: bytes, result: bytes)
    ensures Stripped(Begin, source) == result
       <==> exists pieces :: ProperAll(pieces, 0) && SpelledAll(pieces) == source && LeftAll(pieces) == result
  {
    hide ProperAll, SpelledAll, LeftAll, Stripped;
    var some := PiecesOf(source, 0);
    PiecesAreLeft(some, 0);
    forall pieces | ProperAll(pieces, 0) && SpelledAll(pieces) == source
      ensures Stripped(Begin, source) == LeftAll(pieces)
    {
      PiecesAreLeft(pieces, 0);
    }
  }

  // ----------------------------------------------------------------- the lines

  predicate Blank(b: byte) {
    b == 9 || b == 10 || b == 11 || b == 12 || b == 13 || b == 32
  }

  predicate AllBlank(s: bytes) {
    forall i | 0 <= i < |s| :: Blank(s[i])
  }

  /** What is left of a line: all between the first and the last byte that is no white space. */
  ghost predicate Trims(line: bytes, kept: bytes) {
    && (exists left, right :: AllBlank(left) && AllBlank(right) && line == left + kept + right)
    && (kept != [] ==> !Blank(kept[0]) && !Blank(kept[|kept| - 1]))
  }

  lemma {:induction false} StartIsTrimmed(left: bytes, rest: bytes)
    requires AllBlank(left) && (rest != [] ==> !Blank(rest[0]))
    ensures TrimmedStart(left + rest) == rest
  {
    if left == [] {
      assert left + rest == rest;
    } else {
      assert (left + rest)[1..] == left[1..] + rest;
      StartIsTrimmed(left[1..], rest);
    }
  }

  lemma {:induction false} EndIsTrimmed(rest: bytes, right: bytes)
    requires AllBlank(right) && (rest != [] ==> !Blank(rest[|rest| - 1]))
    ensures TrimmedEnd(rest + right) == rest
  {
    if right == [] {
      assert rest + right == rest;
    } else {
      assert (rest + right)[..|rest + right| - 1] == rest + right[..|right| - 1];
      EndIsTrimmed(rest, right[..|right| - 1]);
    }
  }

  lemma {:induction false} StartOf(line: bytes) returns (left: bytes)
    ensures AllBlank(left) && line == left + TrimmedStart(line)
    ensures TrimmedStart(line) != [] ==> !Blank(TrimmedStart(line)[0])
  {
    left := [];
    if line != [] && Blank(line[0]) {
      left := StartOf(line[1..]);
      left := [line[0]] + left;
    }
  }

  lemma {:induction false} EndOf(line: bytes) returns (right: bytes)
    ensures AllBlank(right) && line == TrimmedEnd(line) + right
    ensures TrimmedEnd(line) != [] ==> !Blank(TrimmedEnd(line)[|TrimmedEnd(line)| - 1])
  {
    right := [];
    if line != [] && Blank(line[|line| - 1]) {
      right := EndOf(line[..|line| - 1]);
      right := right + [line[|line| - 1]];
    }
  }

  lemma TrimmedIff(line: bytes, kept: bytes)
    ensures Trimmed(line) == kept <==> Trims(line, kept)
  {
    var left := StartOf(line);
    var right := EndOf(TrimmedStart(line));
    hide TrimmedStart, TrimmedEnd;
    assert line == left + Trimmed(line) + right;
    assert Trimmed(line) != [] ==> TrimmedStart(line)[0] == Trimmed(line)[0];
    forall before, behind | Trims(line, kept) && AllBlank(before) && AllBlank(behind) && line == before + kept + behind
      ensures Trimmed(line) == kept
    {
      if kept == [] {
        assert AllBlank(line) && line + [] == line;
        StartIsTrimmed(line, []);
        EndIsTrimmed([], []);
      } else {
        assert line == before + (kept + behind);
        StartIsTrimmed(before, kept + behind);
        EndIsTrimmed(kept, behind);
      }
    }
  }

  function Joined(lines: seq<bytes>): bytes {
    if lines == [] then []
    else if |lines| == 1 then lines[0]
    else lines[0] + ([10] + Joined(lines[1..]))
  }

  /** The lines that are not all white space, trimmed, each with a line break. */
  function KeptLines(lines: seq<bytes>): bytes {
    if lines == [] then []
    else
      var kept := Trimmed(lines[0]);
      (if kept == [] then [] else kept + [10]) + KeptLines(lines[1..])
  }

  lemma LineOf(line: bytes, rest: bytes)
    requires 10 !in line
    ensures line != [] ==> Minify.Line(line) == (line, [])
    ensures Minify.Line(line + ([10] + rest)) == (line, rest)
  {
    var s := line + ([10] + rest);
    assert s[|line|] == 10 && forall i | 0 <= i < |line| :: s[i] == line[i];
    assert Find(10, s, 0) == Just(|line|);
    assert s[..|line|] == line && s[|line| + 1..] == rest;
    assert Find(10, line, 0) == Nothing;
  }

  lemma {:induction false} LinesAreTidied(lines: seq<bytes>)
    requires forall i | 0 <= i < |lines| :: 10 !in lines[i]
    ensures Tidied(Joined(lines)) == KeptLines(lines)
  {
    hide Trimmed, Minify.Line;
    if lines != [] {
      var rest := Joined(lines[1..]);
      LineOf(lines[0], rest);
      LinesAreTidied(lines[1..]);
      if |lines| == 1 {
        TrimmedNothing();
      }
    }
  }

  lemma TrimmedNothing()
    ensures Trimmed([]) == []
  {
  }

  lemma {:induction false} LinesOf(s: bytes) returns (lines: seq<bytes>)
    ensures Joined(lines) == s && lines != [] && forall i | 0 <= i < |lines| :: 10 !in lines[i]
    decreases |s|
  {
    var line, behind := ToLineBreak(s);
    if behind == [] {
      lines := [line];
    } else {
      lines := LinesOf(behind[1..]);
      assert ([line] + lines)[1..] == lines;
      assert behind == [10] + behind[1..];
      lines := [line] + lines;
    }
  }

  /** Tidying leaves of any text the lines of it that are not blank, each of them trimmed. */
  lemma TidiedIff(s: bytes, result: bytes)
    ensures Tidied(s) == result
       <==> exists lines :: Joined(lines) == s && (forall i | 0 <= i < |lines| :: 10 !in lines[i]) && KeptLines(lines) == result
  {
    var some := LinesOf(s);
    LinesAreTidied(some);
    forall lines | Joined(lines) == s && forall i | 0 <= i < |lines| :: 10 !in lines[i]
      ensures Tidied(s) == KeptLines(lines)
    {
      LinesAreTidied(lines);
    }
    hide Joined, Tidied, KeptLines;
  }
}
