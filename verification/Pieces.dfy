/** Raising the priority of the pieces at both ends of every file, and putting it back. */
module Pieces {
  import opened Bytes

  /** A file of a torrent: where it stands in the list of files, and the bytes it spans. */
  datatype File = File(index: int, offset: i64, size: i64)

  const SKIPPED: byte := 0
  const DEFAULT: byte := 4
  const TOP: byte := 7

  // ------------------------------------------------------------ arithmetic

  /** A sum of 64-bit integers, wrapping around. */
  function Wrapped(n: int): i64 {
    (n + 0x8000_0000_0000_0000) % 0x1_0000_0000_0000_0000 - 0x8000_0000_0000_0000
  }

  /** Division that rounds toward zero. */
  function Quotient(n: i64, d: int): i64
    requires d > 0
  {
    if n >= 0 then n / d else -(-(n as int) / d)
  }

  /** A 64-bit integer cast to an index: a negative one becomes a huge one. */
  function AsIndex(n: i64): nat {
    if n >= 0 then n else n + 0x1_0000_0000_0000_0000
  }

  function Min(a: nat, b: nat): nat {
    if a < b then a else b
  }

  // --------------------------------------------------------- what it means

  /** The priority of a file; one that is not in the list has the default. */
  function Own(file: File, priorities: seq<byte>): byte {
    if 0 <= file.index < |priorities| then priorities[file.index] else DEFAULT
  }

  predicate Wanted(file: File, priorities: seq<byte>) {
    Own(file, priorities) != SKIPPED && file.size > 0
  }

  function FirstPiece(file: File, length: int, count: nat): nat
    requires length > 0
  {
    Min(AsIndex(Quotient(file.offset, length)), if count == 0 then 0 else count - 1)
  }

  function LastPiece(file: File, length: int, count: nat): nat
    requires length > 0
  {
    Min(AsIndex(Quotient(Wrapped(file.offset + file.size - 1), length)), if count == 0 then 0 else count - 1)
  }

  /** Whether a file that is wanted has one of its ends in this piece. */
  predicate Touches(file: File, piece: nat, priorities: seq<byte>, length: int, count: nat)
    requires length > 0
  {
    Wanted(file, priorities) && (piece == FirstPiece(file, length, count) || piece == LastPiece(file, length, count))
  }

  /** The priority of the last file in the list that has an end in this piece. */
  function OwnAt(files: seq<File>, piece: nat, priorities: seq<byte>, length: int, count: nat): (own: Option<byte>)
    requires length > 0
    ensures own == Nothing <==> forall f | f in files :: !Touches(f, piece, priorities, length, count)
    ensures own.Just? ==> exists f | f in files :: Touches(f, piece, priorities, length, count) && own == Just(Own(f, priorities))
  {
    if files == [] then Nothing
    else
      var file := files[|files| - 1];
      if Touches(file, piece, priorities, length, count) then Just(Own(file, priorities))
      else OwnAt(files[..|files| - 1], piece, priorities, length, count)
  }

  /** The priorities of the pieces once the ends of the files are raised, or put back. */
  function Applied(pieces: seq<byte>, files: seq<File>, priorities: seq<byte>, length: int, on: bool): (r: seq<byte>)
    requires length > 0
    ensures |r| == |pieces|
  {
    seq(|pieces|, p requires 0 <= p < |pieces| =>
      match OwnAt(files, p, priorities, length, |pieces|)
      case Nothing => pieces[p]
      case Just(own) => if on then TOP else own)
  }

  // ------------------------------------------------------------ the program

  function Marked(pieces: seq<byte>, piece: nat, priority: byte): seq<byte> {
    if piece < |pieces| then pieces[piece := priority] else pieces
  }

  lemma OneFileMore(pieces: seq<byte>, files: seq<File>, i: nat, priorities: seq<byte>, length: int, on: bool)
    requires length > 0 && i < |files|
    ensures var file, before, after := files[i], Applied(pieces, files[..i], priorities, length, on), Applied(pieces, files[..i + 1], priorities, length, on);
            var to := if on then TOP else Own(file, priorities);
            after == if !Wanted(file, priorities) then before
                     else Marked(Marked(before, FirstPiece(file, length, |pieces|), to), LastPiece(file, length, |pieces|), to)
  {
    var file := files[i];
    assert files[..i + 1][..i] == files[..i];
    hide FirstPiece, LastPiece, Wanted;
    forall p: nat | p < |pieces|
      ensures OwnAt(files[..i + 1], p, priorities, length, |pieces|)
           == if Touches(file, p, priorities, length, |pieces|) then Just(Own(file, priorities)) else OwnAt(files[..i], p, priorities, length, |pieces|)
    {
    }
    hide OwnAt, Own;
  }

  lemma NoFiles(pieces: seq<byte>, files: seq<File>, priorities: seq<byte>, length: int, on: bool)
    requires length > 0
    ensures Applied(pieces, files[..0], priorities, length, on) == pieces
  {
  }

  method Apply(pieces: array<byte>, files: seq<File>, priorities: seq<byte>, length: int, count: int, on: bool)
    modifies pieces
    ensures length <= 0 || count <= 0 ==> pieces[..] == old(pieces[..])
    ensures length > 0 && count > 0 ==> pieces[..] == Applied(old(pieces[..]), files, priorities, length, on)
  {
    hide *;
    if length <= 0 || count <= 0 {
      return;
    }
    ghost var was := pieces[..];
    NoFiles(was, files, priorities, length, on);
    for i := 0 to |files|
      invariant pieces[..] == Applied(was, files[..i], priorities, length, on)
    {
      OneFileMore(was, files, i, priorities, length, on);
      ApplyTo(pieces, files[i], priorities, length, on);
    }
    assert files[..|files|] == files;
  }

  method ApplyTo(pieces: array<byte>, file: File, priorities: seq<byte>, length: int, on: bool)
    requires length > 0
    modifies pieces
    ensures var to := if on then TOP else Own(file, priorities);
            pieces[..] == if !Wanted(file, priorities) then old(pieces[..])
            else Marked(Marked(old(pieces[..]), FirstPiece(file, length, pieces.Length), to), LastPiece(file, length, pieces.Length), to)
  {
    var lastPiece := if pieces.Length == 0 then 0 else pieces.Length - 1;
    var own := if 0 <= file.index < |priorities| then priorities[file.index] else DEFAULT;
    if own == SKIPPED || file.size <= 0 {
      return;
    }
    var first := AsIndex(Quotient(file.offset, length));
    var last := AsIndex(Quotient(Wrapped(file.offset + file.size - 1), length));
    hide Quotient, Wrapped, AsIndex, Min, Marked;
    Mark(pieces, Min(first, lastPiece), if on then TOP else own);
    Mark(pieces, Min(last, lastPiece), if on then TOP else own);
  }

  method Mark(pieces: array<byte>, piece: nat, priority: byte)
    modifies pieces
    ensures pieces[..] == Marked(old(pieces[..]), piece, priority)
  {
    if piece < pieces.Length {
      pieces[piece] := priority;
    }
  }
}
