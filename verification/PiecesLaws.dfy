/** What raising the ends of the files does to the pieces, and how far putting it back undoes it. */
module PiecesLaws {
  import opened Bytes
  import opened Pieces

  /** Whether a byte of the torrent lies in a piece. */
  predicate Holds(piece: int, at: int, length: int) {
    piece * length <= at < (piece + 1) * length
  }

  /** Files within a torrent's bytes, and just as many pieces as those bytes need. */
  predicate Layout(files: seq<File>, length: int, count: nat, total: i64) {
    && length > 0 && 0 <= total && total <= count * length && (count > 0 ==> (count - 1) * length < total)
    && forall f | f in files && f.size > 0 :: 0 <= f.offset && f.offset + f.size <= total
  }

  lemma Grows(a: int, b: int, length: int)
    requires a <= b && length > 0
    ensures a * length <= b * length
  {
  }

  lemma Divided(at: nat, length: int)
    requires length > 0
    ensures Holds(at / length, at, length) && at / length >= 0
  {
    var q := at / length;
    assert at == q * length + at % length;
    assert (q + 1) * length == q * length + length;
  }

  lemma QuotientHolds(at: i64, length: int, count: nat)
    requires length > 0 && 0 <= at < count * length
    ensures Holds(Quotient(at, length), at, length) && 0 <= Quotient(at, length) < count
  {
    Divided(at, length);
    var q := Quotient(at, length);
    assert q == at / length;
    hide Quotient;
    if q >= count {
      Grows(count, q, length);
    }
  }

  lemma HeldOnce(piece: int, other: int, at: int, length: int)
    requires length > 0 && Holds(piece, at, length) && Holds(other, at, length)
    ensures piece == other
  {
    if piece < other {
      Grows(piece + 1, other, length);
    } else if other < piece {
      Grows(other + 1, piece, length);
    }
  }

  /** In a valid layout nothing wraps around and nothing is clamped: the two pieces are those that hold the file's ends. */
  lemma ClampsNeverBite(files: seq<File>, length: int, count: nat, total: i64, file: File)
    requires Layout(files, length, count, total) && file in files && file.size > 0
    ensures FirstPiece(file, length, count) == Quotient(file.offset, length) < count
    ensures LastPiece(file, length, count) == Quotient(file.offset + file.size - 1, length) < count
    ensures Holds(FirstPiece(file, length, count), file.offset, length)
    ensures Holds(LastPiece(file, length, count), file.offset + file.size - 1, length)
  {
    QuotientHolds(file.offset, length, count);
    QuotientHolds(file.offset + file.size - 1, length, count);
  }

  ghost predicate HoldsAnEnd(files: seq<File>, priorities: seq<byte>, piece: nat, length: int) {
    exists f | f in files :: EndsIn(f, priorities, piece, length)
  }

  /** A file that is not empty, and not skipped with priority 0, has its first or its last byte in this piece. */
  predicate EndsIn(f: File, priorities: seq<byte>, piece: nat, length: int) {
    && f.size > 0 && (0 <= f.index < |priorities| ==> priorities[f.index] != 0)
    && (Holds(piece, f.offset, length) || Holds(piece, f.offset + f.size - 1, length))
  }

  lemma TouchesIffHoldsAnEnd(files: seq<File>, priorities: seq<byte>, length: int, count: nat, total: i64, file: File, piece: nat)
    requires Layout(files, length, count, total) && file in files && Wanted(file, priorities)
    ensures Touches(file, piece, priorities, length, count)
         <==> Holds(piece, file.offset, length) || Holds(piece, file.offset + file.size - 1, length)
  {
    ClampsNeverBite(files, length, count, total, file);
    if Holds(piece, file.offset, length) {
      HeldOnce(piece, FirstPiece(file, length, count), file.offset, length);
    }
    if Holds(piece, file.offset + file.size - 1, length) {
      HeldOnce(piece, LastPiece(file, length, count), file.offset + file.size - 1, length);
    }
  }

  /** Turning it on raises exactly the pieces that hold an end of a file that is wanted, and leaves the rest alone. */
  lemma OnRaisesTheEnds(pieces: seq<byte>, files: seq<File>, priorities: seq<byte>, length: int, total: i64)
    requires Layout(files, length, |pieces|, total)
    ensures forall p: nat | p < |pieces| ::
              Applied(pieces, files, priorities, length, true)[p] == if HoldsAnEnd(files, priorities, p, length) then 7 else pieces[p]
  {
    forall p: nat, f | p < |pieces| && f in files && Wanted(f, priorities)
      ensures Touches(f, p, priorities, length, |pieces|)
           <==> Holds(p, f.offset, length) || Holds(p, f.offset + f.size - 1, length)
    {
      TouchesIffHoldsAnEnd(files, priorities, length, |pieces|, total, f, p);
    }
    hide Holds, Layout, FirstPiece, LastPiece;
    forall p: nat, f | p < |pieces| && f in files
      ensures Touches(f, p, priorities, length, |pieces|) <==> EndsIn(f, priorities, p, length)
    {
    }
    forall p: nat | p < |pieces|
      ensures OwnAt(files, p, priorities, length, |pieces|).Just? <==> HoldsAnEnd(files, priorities, p, length)
    {
    }
  }

  lemma {:induction false} LastOneDecides(files: seq<File>, i: nat, p: nat, priorities: seq<byte>, length: int, count: nat)
    requires length > 0 && i < |files| && Touches(files[i], p, priorities, length, count)
    requires forall k | i < k < |files| :: !Touches(files[k], p, priorities, length, count)
    ensures OwnAt(files, p, priorities, length, count) == Just(Own(files[i], priorities))
    decreases |files|
  {
    hide Touches, Own;
    if i < |files| - 1 {
      LastOneDecides(files[..|files| - 1], i, p, priorities, length, count);
    }
  }

  /**
   Turning it off gives a piece the priority of the last file with an end in it, 4 if that file has
   none, and leaves every other piece alone.
   */
  lemma OffGivesTheLast(pieces: seq<byte>, files: seq<File>, priorities: seq<byte>, length: int, total: i64, p: nat)
    requires Layout(files, length, |pieces|, total) && p < |pieces|
    ensures !HoldsAnEnd(files, priorities, p, length) ==> Applied(pieces, files, priorities, length, false)[p] == pieces[p]
    ensures forall i | 0 <= i < |files| && EndsIn(files[i], priorities, p, length)
                       && (forall k | i < k < |files| :: !EndsIn(files[k], priorities, p, length)) ::
              Applied(pieces, files, priorities, length, false)[p]
              == if 0 <= files[i].index < |priorities| then priorities[files[i].index] else 4
  {
    forall f | f in files
      ensures Touches(f, p, priorities, length, |pieces|) <==> EndsIn(f, priorities, p, length)
    {
      if Wanted(f, priorities) {
        TouchesIffHoldsAnEnd(files, priorities, length, |pieces|, total, f, p);
      }
    }
    hide Touches, EndsIn, Layout;
    forall i | 0 <= i < |files| && EndsIn(files[i], priorities, p, length)
               && (forall k | i < k < |files| :: !EndsIn(files[k], priorities, p, length))
      ensures OwnAt(files, p, priorities, length, |pieces|) == Just(Own(files[i], priorities))
    {
      LastOneDecides(files, i, p, priorities, length, |pieces|);
    }
  }

  /** The order of the files does not matter, nor does naming one twice. */
  lemma OnInAnyOrder(pieces: seq<byte>, files: seq<File>, others: seq<File>, priorities: seq<byte>, length: int)
    requires length > 0 && forall f :: f in files <==> f in others
    ensures Applied(pieces, files, priorities, length, true) == Applied(pieces, others, priorities, length, true)
  {
  }

  /** Doing it again changes nothing, and whatever was done before, the last switch decides. */
  lemma LastSwitchDecides(pieces: seq<byte>, files: seq<File>, priorities: seq<byte>, length: int, first: bool, second: bool)
    requires length > 0
    ensures (Applied(Applied(pieces, files, priorities, length, first), files, priorities, length, second)
             == Applied(pieces, files, priorities, length, second))
  {
  }

  /** Turning it off restores what was before exactly when each piece with an end had its last file's priority. */
  lemma OffRestoresIff(pieces: seq<byte>, files: seq<File>, priorities: seq<byte>, length: int)
    requires length > 0
    ensures (Applied(Applied(pieces, files, priorities, length, true), files, priorities, length, false) == pieces)
         <==> forall p: nat | p < |pieces| ::
                var own := OwnAt(files, p, priorities, length, |pieces|);
                own.Just? ==> pieces[p] == own.value
  {
    LastSwitchDecides(pieces, files, priorities, length, true, false);
    var off := Applied(pieces, files, priorities, length, false);
    if off == pieces {
      forall p: nat | p < |pieces| && OwnAt(files, p, priorities, length, |pieces|).Just?
        ensures pieces[p] == OwnAt(files, p, priorities, length, |pieces|).value
      {
        assert off[p] == pieces[p];
      }
    }
  }

  /** Two files with ends in one piece have the same priority. */
  ghost predicate NoQuarrel(files: seq<File>, priorities: seq<byte>, length: int, count: nat)
    requires length > 0
  {
    forall f, g, p: nat | f in files && g in files && p < count ::
      Touches(f, p, priorities, length, count) && Touches(g, p, priorities, length, count) ==> Own(f, priorities) == Own(g, priorities)
  }

  ghost predicate SameInAnyOrder(pieces: seq<byte>, files: seq<File>, priorities: seq<byte>, length: int)
    requires length > 0
  {
    forall others: seq<File> | multiset(others) == multiset(files) ::
      Applied(pieces, others, priorities, length, false) == Applied(pieces, files, priorities, length, false)
  }

  /** The same files, one of them last. */
  function ToEnd(files: seq<File>, i: nat): (r: seq<File>)
    requires i < |files|
    ensures multiset(r) == multiset(files) && r != [] && r[|r| - 1] == files[i]
  {
    assert files == files[..i] + [files[i]] + files[i + 1..];
    files[..i] + files[i + 1..] + [files[i]]
  }

  lemma SameMembers(files: seq<File>, others: seq<File>)
    requires multiset(others) == multiset(files)
    ensures forall f :: f in files <==> f in others
  {
    assert forall f :: f in multiset(files) <==> f in files;
    assert forall f :: f in multiset(others) <==> f in others;
  }

  /** A file with an end in a piece decides it from the end of the list. */
  lemma LastDecides(pieces: seq<byte>, files: seq<File>, priorities: seq<byte>, length: int, i: nat, p: nat)
    requires length > 0 && i < |files| && p < |pieces| && Touches(files[i], p, priorities, length, |pieces|)
    ensures Applied(pieces, ToEnd(files, i), priorities, length, false)[p] == Own(files[i], priorities)
  {
    hide Touches, Own, ToEnd;
    assert OwnAt(ToEnd(files, i), p, priorities, length, |pieces|) == Just(Own(files[i], priorities));
  }

  /** Turning it off comes out the same in every order of the files exactly when no two of them quarrel over a piece. */
  lemma OffInAnyOrderIff(pieces: seq<byte>, files: seq<File>, priorities: seq<byte>, length: int)
    requires length > 0
    ensures SameInAnyOrder(pieces, files, priorities, length) <==> NoQuarrel(files, priorities, length, |pieces|)
  {
    hide Touches, Own, ToEnd;
    if SameInAnyOrder(pieces, files, priorities, length) {
      forall f, g, p: nat | f in files && g in files && p < |pieces|
                            && Touches(f, p, priorities, length, |pieces|) && Touches(g, p, priorities, length, |pieces|)
        ensures Own(f, priorities) == Own(g, priorities)
      {
        var i :| 0 <= i < |files| && files[i] == f;
        var j :| 0 <= j < |files| && files[j] == g;
        LastDecides(pieces, files, priorities, length, i, p);
        LastDecides(pieces, files, priorities, length, j, p);
        assert multiset(ToEnd(files, i)) == multiset(files) == multiset(ToEnd(files, j));
      }
    }
    if NoQuarrel(files, priorities, length, |pieces|) {
      forall others: seq<File> | multiset(others) == multiset(files)
        ensures Applied(pieces, others, priorities, length, false) == Applied(pieces, files, priorities, length, false)
      {
        SameMembers(files, others);
        NoQuarrelNoDifference(pieces, files, others, priorities, length);
      }
    }
  }

  lemma NoQuarrelNoDifference(pieces: seq<byte>, files: seq<File>, others: seq<File>, priorities: seq<byte>, length: int)
    requires length > 0 && NoQuarrel(files, priorities, length, |pieces|) && forall f :: f in files <==> f in others
    ensures Applied(pieces, others, priorities, length, false) == Applied(pieces, files, priorities, length, false)
  {
    hide Touches, Own;
    forall p: nat | p < |pieces|
      ensures OwnAt(others, p, priorities, length, |pieces|) == OwnAt(files, p, priorities, length, |pieces|)
    {
      var count := |pieces|;
      if OwnAt(files, p, priorities, length, count).Just? {
        var f :| f in files && Touches(f, p, priorities, length, count) && OwnAt(files, p, priorities, length, count) == Just(Own(f, priorities));
        var g :| g in others && Touches(g, p, priorities, length, count) && OwnAt(others, p, priorities, length, count) == Just(Own(g, priorities));
      }
    }
  }

  /** An instance: a piece two files of different priority share gets that of the later one. */
  lemma OffDependsOnOrder()
    ensures var a, b, own := File(0, 0, 5), File(1, 5, 5), [1, 2];
            && Layout([a, b], 16, 1, 10)
            && Applied([DEFAULT], [a, b], own, 16, false) == [2] && Applied([DEFAULT], [b, a], own, 16, false) == [1]
  {
    var a, b, own: seq<byte> := File(0, 0, 5), File(1, 5, 5), [1, 2];
    assert [a, b][..1] == [a] && [b, a][..1] == [b];
    assert OwnAt([a, b], 0, own, 16, 1) == Just(2);
    assert OwnAt([b, a], 0, own, 16, 1) == Just(1);
  }
}
