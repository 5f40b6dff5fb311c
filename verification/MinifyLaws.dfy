/**
 Stripping is faithful and settles at once: the output scans to the tokens of the source with
 its comments erased, line breaks between them kept, and minifying it again changes nothing.
 */
module MinifyLaws {
  import opened Bytes
  import opened Minify

  /** What lies between two tokens once comments are erased. */
  datatype Gap = Touching | Spaced | LineBroken

  /** A byte that means something, as part of a literal or of the code, and what lies before it. */
  datatype Token = Token(b: byte, literal: bool, gap: Gap)

  /** Whether the front byte of a text is part of a literal or of the code. */
  predicate Means(state: State, s: bytes)
    requires s != []
  {
    Step(state, s).kept && (state.mode.Literal() || Step(state, s).state.mode.Literal() || !IsBlank(s[0]))
  }

  /** What lies between a token and the next once the front of a text is read. */
  function GapBehind(state: State, gap: Gap, s: bytes): Gap
    requires s != []
  {
    if Means(state, s) then Touching
    else if !Step(state, s).kept then gap
    else if s[0] == NEWLINE || gap == LineBroken then LineBroken
    else Spaced
  }

  function First(state: State, gap: Gap, s: bytes): seq<Token>
    requires s != []
  {
    if Means(state, s) then [Token(s[0], state.mode.Literal() || Step(state, s).state.mode.Literal(), gap)] else []
  }

  /** The tokens of a text with its comments erased; `gap` is what lies behind us. */
  function Tokens(state: State, gap: Gap, s: bytes): seq<Token>
    decreases |s|
  {
    if s == [] then []
    else
      First(state, gap, s) + Tokens(Step(state, s).state, GapBehind(state, gap, s), s[Step(state, s).width..])
  }

  /** Every string and every regular expression ends on the line it starts on. */
  predicate Terminated(state: State, s: bytes)
    decreases |s|
  {
    if s == [] then !state.mode.Literal()
    else
      && (state.mode.Literal() ==> s[0] != NEWLINE)
      && Terminated(Step(state, s).state, s[Step(state, s).width..])
  }

  /** No comment starts anywhere in the text. */
  predicate Clean(state: State, s: bytes)
    decreases |s|
  {
    && !state.mode.Comment()
    && (s != [] ==> !Step(state, s).state.mode.Comment() && Clean(Step(state, s).state, s[1..]))
  }

  /** The trimmer and the scanner differ on the vertical tab alone. */
  predicate NoVerticalTab(s: bytes) {
    11 !in s
  }

  // -------------------------------------------------------------- stripping

  /** The state a comment goes back to. */
  function Resumed(state: State): State {
    if state.mode.Comment() then state.(mode := Code) else state
  }

  /** Outside comments, what a step does depends on the byte behind only as far as comments go. */
  lemma StepIgnoresNext(state: State, s: bytes, t: bytes)
    requires s != [] && t != [] && s[0] == t[0] && !state.mode.Comment()
    requires state.mode.Code? && s[0] == SLASH ==>
               && (|s| > 1 ==> s[1] != SLASH && s[1] != STAR)
               && (|t| > 1 ==> t[1] != SLASH && t[1] != STAR)
    ensures Step(state, s).state == Step(state, t).state && Step(state, s).kept && Step(state, s).width == 1
    ensures Step(state, t).kept && Step(state, t).width == 1
    ensures !Step(state, s).state.mode.Comment()
  {
  }

  /** Nothing is cut away right behind a slash that is kept. */
  lemma NextIsKept(state: State, s: bytes)
    requires s != [] && !state.mode.Comment() && (state.mode.Code? ==> s[0] != SLASH)
    ensures Stripped(state, s) != [] && Stripped(state, s)[0] == s[0]
  {
  }

  lemma KeptIsFirst(state: State, s: bytes)
    requires s != [] && Step(state, s).kept
    ensures var m, t := Step(state, s), Stripped(state, s);
            t != [] && t[0] == s[0] && t[1..] == Stripped(m.state, s[m.width..])
  {
    hide *;
    StrippedStep(state, s);
  }

  /** All a comment keeps is its line breaks, which are read in code as blanks. */
  lemma BreakIsReadAgain(state: State, s: bytes, t: bytes)
    requires s != [] && Step(state, s).kept && state.mode.Comment() && t != [] && t[0] == s[0]
    ensures Step(Resumed(state), t) == Move(Resumed(Step(state, s).state), 1, true)
  {
    assert s[0] == NEWLINE;
  }

  lemma KeptHasWidthOne(state: State, s: bytes)
    requires s != [] && Step(state, s).kept
    ensures Step(state, s).width == 1 && (!state.mode.Comment() ==> !Step(state, s).state.mode.Comment())
    ensures state.mode.Code? && s[0] == SLASH && |s| > 1 ==> s[1] != SLASH && s[1] != STAR
  {
  }

  /** A byte that is kept is read again as it was read. */
  lemma KeptIsReadAgain(state: State, s: bytes)
    requires s != [] && Step(state, s).kept
    ensures var m, t := Step(state, s), Stripped(state, s);
            && t != [] && t[0] == s[0] && t[1..] == Stripped(m.state, s[m.width..])
            && Step(Resumed(state), t) == Move(Resumed(m.state), 1, true)
            && Resumed(m.state).mode.Literal() == m.state.mode.Literal() && state.mode.Literal() == Resumed(state).mode.Literal()
  {
    hide Step, Stripped;
    var m, t := Step(state, s), Stripped(state, s);
    KeptIsFirst(state, s);
    KeptHasWidthOne(state, s);
    if state.mode.Comment() {
      BreakIsReadAgain(state, s, t);
    } else {
      if |s| == 1 {
        StrippedDone(m.state);
      } else if state.mode.Code? && s[0] == SLASH {
        NextIsKept(m.state, s[1..]);
        assert t[1..][0] == t[1];
      }
      StepIgnoresNext(state, s, t);
    }
  }

  lemma DroppedIsNotRead(state: State, s: bytes)
    requires s != [] && !Step(state, s).kept
    ensures Stripped(state, s) == Stripped(Step(state, s).state, s[Step(state, s).width..])
    ensures Resumed(Step(state, s).state) == Resumed(state) && !state.mode.Literal()
  {
  }

  /** What the laws are about, for the text a step leaves to read and what is left of it. */
  ghost predicate Faithfully(state: State, gap: Gap, s: bytes, resumed: State, t: bytes) {
    && Clean(resumed, t) && Tokens(resumed, gap, t) == Tokens(state, gap, s)
    && (Terminated(state, s) ==> Terminated(resumed, t))
  }

  lemma KeptFaithfully(state: State, gap: Gap, s: bytes)
    requires s != [] && Step(state, s).kept
    requires var m := Step(state, s);
             Faithfully(m.state, GapBehind(state, gap, s), s[m.width..], Resumed(m.state), Stripped(m.state, s[m.width..]))
    ensures Faithfully(state, gap, s, Resumed(state), Stripped(state, s))
  {
    var m, t := Step(state, s), Stripped(state, s);
    KeptIsReadAgain(state, s);
    KeptHasWidthOne(state, s);
    hide Step, Stripped;
    assert !Resumed(state).mode.Comment() && !Resumed(m.state).mode.Comment();
    assert First(Resumed(state), gap, t) == First(state, gap, s);
    assert GapBehind(Resumed(state), gap, t) == GapBehind(state, gap, s);
    hide First, GapBehind;
    KeptBreak(state, s);
  }

  /** A line break kept in a literal is one in the source. */
  lemma KeptBreak(state: State, s: bytes)
    requires s != []
    ensures Resumed(state).mode.Literal() == state.mode.Literal()
  {
  }

  lemma DroppedFaithfully(state: State, gap: Gap, s: bytes)
    requires s != [] && !Step(state, s).kept
    requires var m := Step(state, s);
             Faithfully(m.state, GapBehind(state, gap, s), s[m.width..], Resumed(m.state), Stripped(m.state, s[m.width..]))
    ensures Faithfully(state, gap, s, Resumed(state), Stripped(state, s))
  {
    DroppedIsNotRead(state, s);
    assert GapBehind(state, gap, s) == gap && First(state, gap, s) == [] by {
      hide Stripped;
    }
    hide Step, Stripped, Clean, GapBehind, First;
  }

  /** Stripping leaves no comment, the same tokens, and literals as terminated as they were. */
  lemma {:induction false} StrippedIsClean(state: State, gap: Gap, s: bytes)
    ensures Clean(Resumed(state), Stripped(state, s))
    ensures Tokens(Resumed(state), gap, Stripped(state, s)) == Tokens(state, gap, s)
    ensures Terminated(state, s) ==> Terminated(Resumed(state), Stripped(state, s))
    decreases |s|
  {
    if s == [] {
    } else {
      hide Step, Stripped, Clean, Tokens, Terminated, GapBehind;
      StrippedIsClean(Step(state, s).state, GapBehind(state, gap, s), s[Step(state, s).width..]);
      if Step(state, s).kept {
        KeptFaithfully(state, gap, s);
      } else {
        DroppedFaithfully(state, gap, s);
      }
    }
  }

  /** A text without comments is stripped of nothing. */
  lemma {:induction false} CleanStays(state: State, s: bytes)
    requires Clean(state, s)
    ensures Stripped(state, s) == s
    decreases |s|
  {
    if s != [] {
      CleanStays(Step(state, s).state, s[1..]);
    }
  }

  // --------------------------------------------------------------- trimming

  /** The state behind a text. */
  function Behind(state: State, s: bytes): State
    decreases |s|
  {
    if s == [] then state else Behind(Step(state, s).state, s[Step(state, s).width..])
  }

  /** A text without comments may be read in two parts where the second starts with nothing a slash could join. */
  lemma {:induction false} ReadInParts(state: State, a: bytes, b: bytes)
    requires Clean(state, a + b) || Clean(state, a)
    requires b != [] ==> b[0] != SLASH && b[0] != STAR
    ensures Clean(state, a) && (Clean(state, a + b) <==> Clean(Behind(state, a), b))
    ensures Behind(state, a + b) == Behind(Behind(state, a), b)
    ensures Terminated(state, a + b) ==> Terminated(Behind(state, a), b)
    ensures NEWLINE !in a && Terminated(Behind(state, a), b) ==> Terminated(state, a + b)
    decreases |a|
  {
    if a == [] {
      assert a + b == b;
    } else {
      assert (a + b)[1..] == a[1..] + b;
      FrontOfSum(state, a, b);
      hide Step;
      ReadInParts(Step(state, a).state, a[1..], b);
    }
  }

  lemma FrontOfTokens(state: State, gap: Gap, a: bytes, b: bytes)
    requires a != [] && Clean(state, a)
    requires b != [] ==> b[0] != SLASH && b[0] != STAR
    ensures var m := Step(state, a);
            && Clean(m.state, a[1..]) && Behind(state, a) == Behind(m.state, a[1..])
            && Tokens(state, gap, a) == First(state, gap, a) + Tokens(m.state, GapBehind(state, gap, a), a[1..])
            && Tokens(state, gap, a + b) == First(state, gap, a) + Tokens(m.state, GapBehind(state, gap, a), a[1..] + b)
  {
    FrontOfSum(state, a, b);
    hide Step;
    assert (a + b)[1..] == a[1..] + b;
    assert First(state, gap, a + b) == First(state, gap, a) && GapBehind(state, gap, a + b) == GapBehind(state, gap, a);
    hide First, GapBehind;
  }

  /** And so are its tokens; `after` is what lies between the two. */
  lemma {:induction false} TokensInParts(state: State, gap: Gap, a: bytes, b: bytes) returns (after: Gap)
    requires Clean(state, a)
    requires b != [] ==> b[0] != SLASH && b[0] != STAR
    ensures Tokens(state, gap, a + b) == Tokens(state, gap, a) + Tokens(Behind(state, a), after, b)
    decreases |a|
  {
    hide *;
    after := gap;
    if a == [] {
      NothingRead(state, gap);
      assert a + b == b;
    } else {
      FrontOfTokens(state, gap, a, b);
      var m, now := Step(state, a), GapBehind(state, gap, a);
      after := TokensInParts(m.state, now, a[1..], b);
      Regrouped(First(state, gap, a), Tokens(m.state, now, a[1..]), Tokens(Behind(state, a), after, b));
    }
  }

  lemma NothingRead(state: State, gap: Gap)
    ensures Behind(state, []) == state && Tokens(state, gap, []) == []
  {
  }

  lemma FrontOfSum(state: State, a: bytes, b: bytes)
    requires a != [] && !state.mode.Comment()
    requires !Step(state, a).state.mode.Comment() || !Step(state, a + b).state.mode.Comment()
    requires b != [] ==> b[0] != SLASH && b[0] != STAR
    ensures Step(state, a + b) == Step(state, a)
    ensures Step(state, a).width == 1 && Step(state, a).kept
  {
    assert (a + b)[0] == a[0] && (|a| > 1 ==> (a + b)[1] == a[1]) && (|a| == 1 && b != [] ==> (a + b)[1] == b[0]);
  }

  // --------------------------------------------------------------- trimming

  /** A blank at either end of a line of code is nothing to the scanner. */
  lemma BlankIsNothing(state: State, gap: Gap, blank: byte)
    requires IsTrimmed(blank) && blank != 11 && blank != NEWLINE && !state.mode.Comment()
    requires Behind(state, [blank]).mode.Code?
    ensures Behind(state, [blank]) == state && Clean(state, [blank]) && Tokens(state, gap, [blank]) == []
  {
    assert [blank][1..] == [];
    assert Behind(state, [blank]) == Step(state, [blank]).state;
  }

  /** A line that is code from its first byte to behind its last. */
  predicate WholeLine(state: State, line: bytes) {
    state.mode.Code? && Clean(state, line) && Behind(state, line).mode.Code? && NEWLINE !in line && NoVerticalTab(line)
  }

  predicate ReadsAlike(state: State, gap: Gap, was: bytes, now: bytes) {
    WholeLine(state, now) && Behind(state, now) == Behind(state, was) && Tokens(state, gap, now) == Tokens(state, gap, was)
  }

  lemma {:induction false} StartReadsAlike(state: State, line: bytes)
    requires WholeLine(state, line)
    ensures ReadsAlike(state, LineBroken, line, TrimmedStart(line))
  {
    if line != [] && IsTrimmed(line[0]) {
      assert Step(state, line) == Move(state, 1, true) && !Means(state, line);
      StartReadsAlike(state, line[1..]);
    }
  }

  lemma {:induction false} EndReadsAlike(state: State, gap: Gap, line: bytes)
    requires WholeLine(state, line)
    ensures ReadsAlike(state, gap, line, TrimmedEnd(line))
  {
    if line != [] && IsTrimmed(line[|line| - 1]) {
      var front, last := line[..|line| - 1], line[|line| - 1];
      assert line == front + [last] && last in line;
      ReadInParts(state, front, [last]);
      BehindClean(state, front);
      var after := TokensInParts(state, gap, front, [last]);
      BlankIsNothing(Behind(state, front), after, last);
      hide Step, Clean, Behind, Tokens;
      EndReadsAlike(state, gap, front);
    }
  }

  lemma {:induction false} BehindClean(state: State, s: bytes)
    requires Clean(state, s)
    ensures !Behind(state, s).mode.Comment()
    decreases |s|
  {
    if s != [] {
      BehindClean(Step(state, s).state, s[1..]);
    }
  }

  /** A line that starts behind a line break reads alike without its indentation and the blanks behind it. */
  lemma TrimmedReadsAlike(state: State, line: bytes)
    requires WholeLine(state, line)
    ensures ReadsAlike(state, LineBroken, line, Trimmed(line))
  {
    StartReadsAlike(state, line);
    EndReadsAlike(state, LineBroken, TrimmedStart(line));
  }

  /** A line break in code: everything behind it starts on a new line. */
  lemma LineBreak(state: State, gap: Gap, rest: bytes)
    requires state.mode.Code?
    ensures var s := [NEWLINE] + rest;
            && (Clean(state, s) <==> Clean(state, rest)) && (Terminated(state, s) <==> Terminated(state, rest))
            && Tokens(state, gap, s) == Tokens(state, LineBroken, rest)
  {
    var s := [NEWLINE] + rest;
    assert s[1..] == rest && Step(state, s) == Move(state, 1, true);
  }

  ghost predicate Faithful(state: State, was: bytes, now: bytes) {
    Clean(state, now) && Terminated(state, now) && Tokens(state, LineBroken, now) == Tokens(state, LineBroken, was)
  }

  /** One line and what is behind it, put down behind one another: `tail` is the break, if any, and the rest. */
  lemma LineThenRest(state: State, line: bytes, tail: bytes, rest: bytes)
    requires Clean(state, line) && NEWLINE !in line && Behind(state, line).mode.Code?
    requires tail == [NEWLINE] + rest || (tail == [] && rest == [])
    requires Clean(Behind(state, line), rest) && Terminated(Behind(state, line), rest)
    ensures Clean(state, line + tail) && Terminated(state, line + tail)
    ensures Tokens(state, LineBroken, line + tail) == Tokens(state, LineBroken, line) + Tokens(Behind(state, line), LineBroken, rest)
  {
    var after := TokensInParts(state, LineBroken, line, tail);
    if tail != [] {
      LineBreak(Behind(state, line), after, rest);
    }
    ReadInParts(state, line, tail);
  }

  /** The other way: a text without comments and with its literals terminated is lines of code. */
  lemma LineIsWhole(state: State, line: bytes, tail: bytes, rest: bytes)
    requires state.mode.Code? && NEWLINE !in line && NoVerticalTab(line)
    requires tail == [NEWLINE] + rest || (tail == [] && rest == [])
    requires Clean(state, line + tail) && Terminated(state, line + tail)
    ensures WholeLine(state, line)
    ensures Clean(Behind(state, line), rest) && Terminated(Behind(state, line), rest)
  {
    ReadInParts(state, line, tail);
    var after := Behind(state, line);
    BehindClean(state, line);
    assert Terminated(after, tail);
    if tail != [] {
      assert tail[0] == NEWLINE;
      LineBreak(after, LineBroken, rest);
    }
  }

  /** A text is its first line and the rest, and so is what is left of it. */
  lemma LineByLine(s: bytes) returns (line: bytes, tail: bytes, rest: bytes)
    requires s != []
    ensures s == line + tail && (tail == [NEWLINE] + rest || (tail == [] && rest == [])) && NEWLINE !in line && |rest| < |s|
    ensures Tidied(s) == if Trimmed(line) == [] then Tidied(rest) else Trimmed(line) + ([NEWLINE] + Tidied(rest))
    ensures Line(s) == (line, rest)
  {
    line, rest := Line(s).0, Line(s).1;
    tail := s[|line|..];
    hide Trimmed;
    Regrouped(Trimmed(line), [NEWLINE], Tidied(rest));
  }

  lemma {:induction false} TidiedIsFaithful(state: State, s: bytes)
    requires state.mode.Code? && NoVerticalTab(s) && Clean(state, s) && Terminated(state, s)
    ensures Faithful(state, s, Tidied(s))
    decreases |s|
  {
    if s != [] {
      var line, tail, rest := LineByLine(s);
      assert NoVerticalTab(line) && NoVerticalTab(rest);
      LineIsWhole(state, line, tail, rest);
      LineThenRest(state, line, tail, rest);
      TrimmedReadsAlike(state, line);
      hide Step, Clean, Terminated, Trimmed, Tokens, Behind, Tidied, Line;
      TidiedIsFaithful(Behind(state, line), rest);
      if Trimmed(line) != [] {
        LineThenRest(state, Trimmed(line), [NEWLINE] + Tidied(rest), Tidied(rest));
      } else {
        NothingRead(state, LineBroken);
      }
    }
  }

  /** Minifying keeps every literal, every byte of code, and what lies between any two of them but comments. */
  lemma MinifiedIsFaithful(source: bytes)
    requires NoVerticalTab(source) && Terminated(Begin, source)
    ensures Tokens(Begin, LineBroken, Minified(source)) == Tokens(Begin, LineBroken, source)
    ensures Clean(Begin, Minified(source))
  {
    StrippedIsClean(Begin, LineBroken, source);
    StrippedIsPart(Begin, source);
    TidiedIsFaithful(Begin, Stripped(Begin, source));
  }

  lemma {:induction false} StrippedIsPart(state: State, s: bytes)
    ensures forall b | b in Stripped(state, s) :: b in s
    decreases |s|
  {
    if s != [] {
      StrippedIsPart(Step(state, s).state, s[Step(state, s).width..]);
    }
  }

  // ------------------------------------------------------------- settling

  lemma {:induction false} StartIsTrimmed(line: bytes)
    ensures var t := TrimmedStart(line); t != [] ==> !IsTrimmed(t[0])
    ensures forall b | b in TrimmedStart(line) :: b in line
    ensures |TrimmedStart(line)| <= |line|
  {
    if line != [] && IsTrimmed(line[0]) {
      StartIsTrimmed(line[1..]);
    }
  }

  lemma {:induction false} EndIsTrimmed(line: bytes)
    ensures var t := TrimmedEnd(line); t <= line && (t != [] ==> !IsTrimmed(t[|t| - 1]))
  {
    if line != [] && IsTrimmed(line[|line| - 1]) {
      EndIsTrimmed(line[..|line| - 1]);
    }
  }

  lemma TrimmedStays(line: bytes)
    ensures Trimmed(Trimmed(line)) == Trimmed(line)
    ensures NEWLINE !in line ==> NEWLINE !in Trimmed(line)
  {
    StartIsTrimmed(line);
    EndIsTrimmed(TrimmedStart(line));
  }

  lemma {:induction false} TidiedStays(s: bytes)
    ensures Tidied(Tidied(s)) == Tidied(s)
    decreases |s|
  {
    if s != [] {
      var line, tail, rest := LineByLine(s);
      TrimmedStays(line);
      hide Trimmed;
      TidiedStays(rest);
      if Trimmed(line) != [] {
        FirstLine(Trimmed(line), Tidied(rest));
        var again, _, behind := LineByLine(Trimmed(line) + ([NEWLINE] + Tidied(rest)));
      }
    }
  }

  lemma FirstLine(line: bytes, rest: bytes)
    requires NEWLINE !in line
    ensures Line(line + ([NEWLINE] + rest)) == (line, rest)
  {
    var s := line + ([NEWLINE] + rest);
    assert s[|line|] == NEWLINE;
    assert forall i | 0 <= i < |line| :: s[i] == line[i] && s[i] in line;
    assert Find(NEWLINE, s, 0) == Just(|line|);
    assert s[..|line|] == line && s[|line| + 1..] == rest;
  }

  /** Minifying what was minified changes nothing. */
  lemma MinifiedStays(source: bytes)
    requires NoVerticalTab(source) && Terminated(Begin, source)
    ensures Minified(Minified(source)) == Minified(source)
  {
    MinifiedIsFaithful(source);
    CleanStays(Begin, Minified(source));
    TidiedStays(Stripped(Begin, source));
  }

  lemma {:induction false} StrippedIsNoLonger(state: State, s: bytes)
    ensures |Stripped(state, s)| <= |s|
    decreases |s|
  {
    if s != [] {
      StrippedIsNoLonger(Step(state, s).state, s[Step(state, s).width..]);
    }
  }

  /** A comment costs at least the two bytes that open it. */
  lemma {:induction false} CommentCosts(state: State, s: bytes)
    requires !state.mode.Comment() && !Clean(state, s)
    ensures |Stripped(state, s)| + 2 <= |s|
    decreases |s|
  {
    var m := Step(state, s);
    if m.state.mode.Comment() {
      StrippedIsNoLonger(m.state, s[m.width..]);
    } else {
      CommentCosts(m.state, s[1..]);
    }
  }

  /** For every source at all: minifying twice is minifying once exactly when no comment is left to find in the output. */
  lemma MinifiedStaysIff(source: bytes)
    ensures Minified(Minified(source)) == Minified(source) <==> Clean(Begin, Minified(source))
  {
    var once := Minified(source);
    if Clean(Begin, once) {
      CleanStays(Begin, once);
      TidiedStays(Stripped(Begin, source));
    } else {
      CommentCosts(Begin, once);
      TidiedIsNoLonger(Stripped(Begin, once));
    }
  }

  // ------------------------------------------------- why both conditions are there

  /** One byte kept at a position, and the rest of the text read behind it. */
  lemma Keeps(state: State, s: bytes, k: nat, next: State)
    requires k < |s| && Step(state, s[k..]) == Move(next, 1, true)
    ensures Stripped(state, s[k..]) == [s[k]] + Stripped(next, s[k + 1..])
  {
    StrippedStep(state, s[k..]);
    assert s[k..][1..] == s[k + 1..];
  }

  lemma Drops(state: State, s: bytes, k: nat, m: Move)
    requires k < |s| && Step(state, s[k..]) == m && !m.kept
    ensures Stripped(state, s[k..]) == Stripped(m.state, s[k + m.width..])
  {
    StrippedStep(state, s[k..]);
    assert s[k..][m.width..] == s[k + m.width..];
  }

  /** A last line that needs no trimming gets the line break it lacks. */
  lemma LastLine(line: bytes)
    requires line != [] && !IsTrimmed(line[0]) && !IsTrimmed(line[|line| - 1]) && NEWLINE !in line
    ensures Tidied(line) == line + [NEWLINE]
  {
    assert Find(NEWLINE, line, 0) == Nothing;
    assert Trimmed(line) == line;
  }

  /** A regular expression cut off by the line end, behind an escaped blank, and a string that goes on with slashes. */
  const CUT_OFF: bytes := [47, 92, 32, 10, 34, 47, 47, 47]

  const CUT_OFF_ONCE: bytes := [47, 92, 10, 34, 47, 47, 47, 10]

  lemma CutOffStays()
    ensures Stripped(Begin, CUT_OFF) == CUT_OFF
  {
    hide Stripped;
    var s := CUT_OFF;
    assert s[0..] == s && s[8..] == [];
    StrippedDone(State(Quoted(34), false, 47));
    Keeps(Begin, s, 0, State(Regex, false, 47));
    Keeps(State(Regex, false, 47), s, 1, State(Regex, true, 92));
    Keeps(State(Regex, true, 92), s, 2, State(Regex, false, 92));
    Keeps(State(Regex, false, 92), s, 3, State(Code, false, 92));
    Keeps(State(Code, false, 92), s, 4, State(Quoted(34), false, 34));
    Keeps(State(Quoted(34), false, 34), s, 5, State(Quoted(34), false, 47));
    Keeps(State(Quoted(34), false, 47), s, 6, State(Quoted(34), false, 47));
    Keeps(State(Quoted(34), false, 47), s, 7, State(Quoted(34), false, 47));
  }

  lemma CutOffIsTidied()
    ensures Tidied(CUT_OFF) == CUT_OFF_ONCE
  {
    hide Tidied;
    assert CUT_OFF == [47, 92, 32] + ([NEWLINE] + [34, 47, 47, 47]);
    FirstLine([47, 92, 32], [34, 47, 47, 47]);
    var line, _, rest := LineByLine(CUT_OFF);
    assert Trimmed([47, 92, 32]) == [47, 92];
    LastLine([34, 47, 47, 47]);
  }

  lemma CutOffIsCutAgain()
    ensures Stripped(Begin, CUT_OFF_ONCE) == [47, 92, 10, 34, 47, 10]
  {
    hide Stripped;
    var s := CUT_OFF_ONCE;
    assert s[0..] == s && s[8..] == [];
    StrippedDone(State(Code, false, 47));
    Keeps(Begin, s, 0, State(Regex, false, 47));
    Keeps(State(Regex, false, 47), s, 1, State(Regex, true, 92));
    Keeps(State(Regex, true, 92), s, 2, State(Regex, false, 92));
    Keeps(State(Regex, false, 92), s, 3, State(Regex, false, 34));
    Keeps(State(Regex, false, 34), s, 4, State(Code, false, 47));
    Drops(State(Code, false, 47), s, 5, Move(State(LineComment, false, 47), 2, false));
    Keeps(State(LineComment, false, 47), s, 7, State(Code, false, 47));
  }

  /** Without `Terminated` minifying need not settle: a second pass takes part of a string for a comment. */
  lemma UnterminatedDoesNotSettle()
    ensures NoVerticalTab(CUT_OFF) && Minified(Minified(CUT_OFF)) != Minified(CUT_OFF)
  {
    hide Stripped, Tidied;
    CutOffStays();
    CutOffIsTidied();
    CutOffIsCutAgain();
    TidiedIsNoLonger([47, 92, 10, 34, 47, 10]);
  }

  /** Trimming makes a text no longer than the line break it may lack. */
  lemma {:induction false} TidiedIsNoLonger(s: bytes)
    ensures |Tidied(s)| <= |s| + 1
    decreases |s|
  {
    if s != [] {
      var line, tail, rest := LineByLine(s);
      StartIsTrimmed(line);
      EndIsTrimmed(TrimmedStart(line));
      if tail != [] {
        TidiedIsNoLonger(rest);
      }
    }
  }

  const WORDS: bytes := [97, 47, 42, 42, 47, 98]

  lemma WordsAreJoined()
    ensures Stripped(Begin, WORDS) == [97, 98]
  {
    hide Stripped;
    var s := WORDS;
    assert s[0..] == s && s[6..] == [];
    StrippedDone(State(Code, false, 98));
    Keeps(Begin, s, 0, State(Code, false, 97));
    Drops(State(Code, false, 97), s, 1, Move(State(BlockComment, false, 97), 2, false));
    Drops(State(BlockComment, false, 97), s, 3, Move(State(Code, false, 97), 2, false));
    Keeps(State(Code, false, 97), s, 5, State(Code, false, 98));
  }

  /** A comment is erased, not replaced by a blank: the two words it alone kept apart are joined. */
  lemma CommentsKeepNothingApart()
    ensures Minified(WORDS) == [97, 98, NEWLINE]
  {
    hide Stripped, Tidied;
    WordsAreJoined();
    LastLine([97, 98]);
  }
}
