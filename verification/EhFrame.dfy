/** Splitting an .eh_frame section into records, and finding the record an offset lies in. */
module EhFrame {
  import opened Wrappers
  import opened Patches

  datatype Endian = Little | Big

  /** The bytes of a section; `after` are the bytes that follow it in memory. */
  datatype Content = Content(data: seq<byte>, after: nat -> byte, endian: Endian)

  /** `firstRel` is an index into the sorted relocations or -1; `outputOff` is -1 while there is no place. */
  datatype Piece = Piece(inputOff: nat, size: nat, firstRel: int, outputOff: int)

  /** Why a walk over the records ends. */
  datatype Stop = AtEnd | AtTerminator | TooSmall | TooLarge | PastEnd

  function ByteAt(c: Content, i: nat): byte {
    if i < |c.data| then c.data[i] else c.after(i - |c.data|)
  }

  function Read32(c: Content, off: nat): nat {
    var b0: nat, b1: nat, b2: nat, b3: nat :=
      ByteAt(c, off), ByteAt(c, off + 1), ByteAt(c, off + 2), ByteAt(c, off + 3);
    if c.endian.Little? then b0 + 0x100 * b1 + 0x1_0000 * b2 + 0x100_0000 * b3
    else b3 + 0x100 * b2 + 0x1_0000 * b1 + 0x100_0000 * b0
  }

  /** The whole record: its length field does not count itself. */
  function RecordSize(c: Content, off: nat): nat {
    Read32(c, off) + 4
  }

  predicate IsCie(c: Content, off: nat) {
    Read32(c, off + 4) == 0
  }

  predicate HasRecord(c: Content, off: nat) {
    off + 4 <= |c.data| && Read32(c, off) != 0 && off + RecordSize(c, off) <= |c.data|
  }

  /** What stops the walk where no record can be taken. */
  function StopAt(c: Content, off: nat): Stop
    requires off <= |c.data| && !HasRecord(c, off)
  {
    if off == |c.data| then AtEnd
    else if |c.data| - off < 4 then TooSmall
    else if Read32(c, off) == 0 then AtTerminator
    else if Read32(c, off) == 0xFFFF_FFFF then TooLarge
    else PastEnd
  }

  /** Where the records begin, from `off` on. */
  function Walk(c: Content, off: nat): seq<nat>
    decreases |c.data| - off
  {
    if HasRecord(c, off) then [off] + Walk(c, off + RecordSize(c, off)) else []
  }

  /** Where the walk stops. */
  function WalkEnd(c: Content, off: nat): (end: nat)
    requires off <= |c.data|
    ensures off <= end <= |c.data| && !HasRecord(c, end)
    decreases |c.data| - off
  {
    if HasRecord(c, off) then WalkEnd(c, off + RecordSize(c, off)) else off
  }

  /** The first relocation from index `i` on that lies in `[lo, hi)`, or -1. */
  function FirstIn(rels: seq<nat>, lo: nat, hi: nat, i: nat): int
    requires i <= |rels|
    decreases |rels| - i
  {
    if i == |rels| then -1 else if lo <= rels[i] < hi then i else FirstIn(rels, lo, hi, i + 1)
  }

  function PieceAt(c: Content, rels: seq<nat>, off: nat): Piece {
    Piece(off, RecordSize(c, off), FirstIn(rels, off, off + RecordSize(c, off), 0), -1)
  }

  /** The CIEs, or the FDEs, among the records at `offs`. */
  function Pieces(c: Content, rels: seq<nat>, offs: seq<nat>, cies: bool): seq<Piece> {
    if offs == [] then []
    else
      var off := offs[|offs| - 1];
      Pieces(c, rels, offs[..|offs| - 1], cies) + if IsCie(c, off) == cies then [PieceAt(c, rels, off)] else []
  }

  ghost predicate Sorted(rels: seq<nat>) {
    forall i, j :: 0 <= i < j < |rels| ==> rels[i] <= rels[j]
  }

  lemma {:induction false} FirstInIs(rels: seq<nat>, lo: nat, hi: nat, i: nat, k: nat)
    requires Sorted(rels) && i <= k <= |rels| && lo <= hi
    requires forall j :: 0 <= j < k ==> rels[j] < lo
    requires k < |rels| ==> lo <= rels[k]
    ensures FirstIn(rels, lo, hi, i) == if k < |rels| && rels[k] < hi then k else -1
    decreases |rels| - i
  {
    if i < k {
      FirstInIs(rels, lo, hi, i + 1, k);
    } else if k < |rels| && rels[k] >= hi {
      NoneIn(rels, lo, hi, k);
    }
  }

  lemma {:induction false} NoneIn(rels: seq<nat>, lo: nat, hi: nat, i: nat)
    requires i <= |rels| && forall j :: i <= j < |rels| ==> rels[j] >= hi
    ensures FirstIn(rels, lo, hi, i) == -1
    decreases |rels| - i
  {
    if i < |rels| {
      NoneIn(rels, lo, hi, i + 1);
    }
  }

  /** The relocation a piece names is the first in its record; -1 says that there is none. */
  lemma {:induction false} FirstInMeans(rels: seq<nat>, lo: nat, hi: nat, i: nat)
    requires i <= |rels|
    ensures var r := FirstIn(rels, lo, hi, i);
            if r == -1 then forall j :: i <= j < |rels| ==> !(lo <= rels[j] < hi)
            else i <= r < |rels| && lo <= rels[r] < hi && forall j :: i <= j < r ==> !(lo <= rels[j] < hi)
    decreases |rels| - i
  {
    if i < |rels| && !(lo <= rels[i] < hi) {
      FirstInMeans(rels, lo, hi, i + 1);
    }
  }

  class EhInputSection {
    const content: Content
    var cies: seq<Piece>
    var fdes: seq<Piece>

    constructor (content: Content)
      ensures this.content == content && cies == [] && fdes == []
    {
      this.content := content;
      cies, fdes := [], [];
    }

    /** Appends the section's records to the two lists, up to where no further record can be taken. */
    method Split(rels: seq<nat>) returns (stop: Stop)
      requires Sorted(rels)
      modifies this
      ensures cies == old(cies) + Pieces(content, rels, Walk(content, 0), true)
      ensures fdes == old(fdes) + Pieces(content, rels, Walk(content, 0), false)
      ensures stop == StopAt(content, WalkEnd(content, 0))
    {
      hide Pieces, Walk, WalkEnd, Read32, FirstIn;
      var off, relI := 0, 0;
      ghost var done: seq<nat> := [];
      NothingDone(content, rels);
      while off < |content.data|
        invariant off <= |content.data| && relI <= |rels|
        invariant forall j :: 0 <= j < relI ==> rels[j] < off
        invariant done + Walk(content, off) == Walk(content, 0) && WalkEnd(content, off) == WalkEnd(content, 0)
        invariant cies == old(cies) + Pieces(content, rels, done, true)
        invariant fdes == old(fdes) + Pieces(content, rels, done, false)
      {
        WalkNext(content, off);
        assert done + [] == done;
        if |content.data| - off < 4 {
          return TooSmall;
        }
        var size := Read32(content, off);
        if size == 0 {
          return AtTerminator;
        }
        var id := Read32(content, off + 4);
        size := size + 4;
        if size > |content.data| - off {
          return if size == 0xFFFF_FFFF + 4 then TooLarge else PastEnd;
        }
        while relI != |rels| && rels[relI] < off
          invariant relI <= |rels| && forall j :: 0 <= j < relI ==> rels[j] < off
        {
          relI := relI + 1;
        }
        var firstRel := -1;
        if relI != |rels| && rels[relI] < off + size {
          firstRel := relI;
        }
        FirstInIs(rels, off, off + size, 0, relI);
        PiecesNext(content, rels, done, off, true);
        PiecesNext(content, rels, done, off, false);
        var piece := Piece(off, size, firstRel, -1);
        if id == 0 {
          cies := cies + [piece];
        } else {
          fdes := fdes + [piece];
        }
        done := done + [off];
        off := off + size;
      }
      WalkNext(content, off);
      assert done + [] == done;
      return AtEnd;
    }

    /** Where an input offset goes: the record is looked for among the FDEs, then among the CIEs. */
    method GetParentOffset(offset: nat) returns (r: int)
      requires Ascending(fdes) && Ascending(cies)
      ensures r == ParentOffset(cies, fdes, offset)
    {
      hide Ascending;
      var it := PartitionPoint(fdes, offset);
      var list := fdes;
      BeforeIs(fdes, offset, it);
      if it == 0 || fdes[it - 1].inputOff + fdes[it - 1].size <= offset {
        it := PartitionPoint(cies, offset);
        BeforeIs(cies, offset, it);
        list := cies;
        if it == 0 {
          return offset;
        }
      }
      if list[it - 1].outputOff == -1 {
        return offset - list[it - 1].inputOff;
      }
      return list[it - 1].outputOff + (offset - list[it - 1].inputOff);
    }
  }

  lemma NothingDone(c: Content, rels: seq<nat>)
    ensures Pieces(c, rels, [], true) == [] && Pieces(c, rels, [], false) == []
  {
  }

  lemma WalkNext(c: Content, off: nat)
    requires off <= |c.data|
    ensures HasRecord(c, off) ==>
              && Walk(c, off) == [off] + Walk(c, off + RecordSize(c, off))
              && WalkEnd(c, off) == WalkEnd(c, off + RecordSize(c, off))
    ensures !HasRecord(c, off) ==> Walk(c, off) == [] && WalkEnd(c, off) == off
  {
  }

  lemma PiecesNext(c: Content, rels: seq<nat>, done: seq<nat>, off: nat, cies: bool)
    ensures Pieces(c, rels, done + [off], cies) ==
            Pieces(c, rels, done, cies) + if IsCie(c, off) == cies then [PieceAt(c, rels, off)] else []
  {
    hide PieceAt, IsCie;
    assert (done + [off])[..|done + [off]| - 1] == done;
  }

  /** Pieces in order, none reaching into the next. */
  ghost predicate Ascending(pieces: seq<Piece>) {
    forall i, j :: 0 <= i < j < |pieces| ==> pieces[i].inputOff + pieces[i].size <= pieces[j].inputOff
  }

  /** Binary search for the first piece that begins after the offset. */
  method PartitionPoint(pieces: seq<Piece>, offset: nat) returns (lo: nat)
    requires Ascending(pieces)
    ensures lo <= |pieces|
    ensures forall i :: 0 <= i < lo ==> pieces[i].inputOff <= offset
    ensures forall i :: lo <= i < |pieces| ==> pieces[i].inputOff > offset
  {
    lo := 0;
    var n := |pieces|;
    while n > 0
      invariant 0 <= n && 0 <= lo <= lo + n <= |pieces|
      invariant forall i :: 0 <= i < lo ==> pieces[i].inputOff <= offset
      invariant forall i :: lo + n <= i < |pieces| ==> pieces[i].inputOff > offset
    {
      var half := n / 2;
      if pieces[lo + half].inputOff <= offset {
        lo := lo + half + 1;
        n := n - half - 1;
      } else {
        n := half;
      }
    }
  }

  predicate Contains(p: Piece, offset: nat) {
    p.inputOff <= offset < p.inputOff + p.size
  }

  /** The last piece that begins at or before the offset. */
  function LastBefore(pieces: seq<Piece>, offset: nat): Option<Piece> {
    if pieces == [] then None
    else if pieces[|pieces| - 1].inputOff <= offset then Some(pieces[|pieces| - 1])
    else LastBefore(pieces[..|pieces| - 1], offset)
  }

  function Moved(p: Piece, offset: int): int {
    if p.outputOff == -1 then offset - p.inputOff else p.outputOff + (offset - p.inputOff)
  }

  /** The lookup without searching: the last FDE if it contains the offset, or else the last CIE. */
  function ParentOffset(cies: seq<Piece>, fdes: seq<Piece>, offset: nat): int {
    var fde, cie := LastBefore(fdes, offset), LastBefore(cies, offset);
    if fde.Some? && Contains(fde.value, offset) then Moved(fde.value, offset)
    else if cie.Some? then Moved(cie.value, offset)
    else offset
  }

  lemma {:induction false} BeforeIs(pieces: seq<Piece>, offset: nat, it: nat)
    requires it <= |pieces|
    requires forall i :: 0 <= i < it ==> pieces[i].inputOff <= offset
    requires forall i :: it <= i < |pieces| ==> pieces[i].inputOff > offset
    ensures LastBefore(pieces, offset) == if it == 0 then None else Some(pieces[it - 1])
  {
    if it < |pieces| {
      BeforeIs(pieces[..|pieces| - 1], offset, it);
    }
  }

  /** In a list in order a piece that contains the offset is the last one at or before it. */
  lemma {:induction false} ContainingIsLast(pieces: seq<Piece>, k: nat, offset: nat)
    requires Ascending(pieces) && k < |pieces| && Contains(pieces[k], offset)
    ensures LastBefore(pieces, offset) == Some(pieces[k])
  {
    if k < |pieces| - 1 {
      ContainingIsLast(pieces[..|pieces| - 1], k, offset);
    }
  }

  lemma {:induction false} LastBeforeListed(pieces: seq<Piece>, offset: nat)
    requires LastBefore(pieces, offset).Some?
    ensures LastBefore(pieces, offset).value in pieces && LastBefore(pieces, offset).value.inputOff <= offset
  {
    if pieces[|pieces| - 1].inputOff > offset {
      LastBeforeListed(pieces[..|pieces| - 1], offset);
    }
  }

  // Tiling.

  /** The record at `offs[k]` ends where the next one begins, the last one at `end`. */
  ghost predicate Follows(c: Content, offs: seq<nat>, k: nat, end: nat)
    requires k < |offs|
  {
    HasRecord(c, offs[k]) && offs[k] + RecordSize(c, offs[k]) == if k + 1 < |offs| then offs[k + 1] else end
  }

  /** The records from `off` on follow each other without a gap and end where the walk stops. */
  ghost predicate Tiles(c: Content, offs: seq<nat>, off: nat, end: nat) {
    && (if offs == [] then off == end else offs[0] == off)
    && forall k :: 0 <= k < |offs| ==> Follows(c, offs, k, end)
  }

  lemma {:induction false} WalkTiles(c: Content, off: nat)
    requires off <= |c.data|
    ensures Tiles(c, Walk(c, off), off, WalkEnd(c, off))
    decreases |c.data| - off
  {
    hide RecordSize, Walk, WalkEnd, HasRecord;
    WalkNext(c, off);
    if HasRecord(c, off) {
      RecordInside(c, off);
      var next := off + RecordSize(c, off);
      WalkTiles(c, next);
      var offs, rest, end := Walk(c, off), Walk(c, next), WalkEnd(c, off);
      forall k | 0 <= k < |offs| ensures Follows(c, offs, k, end) {
        if k > 0 {
          assert Follows(c, rest, k - 1, end);
        }
      }
    }
  }

  lemma RecordInside(c: Content, off: nat)
    requires HasRecord(c, off)
    ensures off < off + RecordSize(c, off) <= |c.data|
  {
    hide Read32;
  }

  /** Every offset up to the end of the walk lies in a record. */
  lemma {:induction false} WalkCovers(c: Content, off: nat, x: nat) returns (k: nat)
    requires off <= |c.data| && off <= x < WalkEnd(c, off)
    ensures k < |Walk(c, off)| && Walk(c, off)[k] <= x < Walk(c, off)[k] + RecordSize(c, Walk(c, off)[k])
    decreases |c.data| - off
  {
    hide Read32;
    var next := off + RecordSize(c, off);
    if x < next {
      k := 0;
    } else {
      k := WalkCovers(c, next, x);
      k := k + 1;
    }
  }

  ghost predicate Increasing(c: Content, offs: seq<nat>) {
    forall i, j :: 0 <= i < j < |offs| ==> offs[i] + RecordSize(c, offs[i]) <= offs[j]
  }

  lemma {:induction false} WalkIncreases(c: Content, off: nat)
    ensures Increasing(c, Walk(c, off))
    ensures forall k :: 0 <= k < |Walk(c, off)| ==> Walk(c, off)[k] >= off
    decreases |c.data| - off
  {
    hide Read32;
    if HasRecord(c, off) {
      WalkIncreases(c, off + RecordSize(c, off));
    }
  }

  /** The list holds the records of its kind, each once and in order. */
  ghost predicate Lists(c: Content, rels: seq<nat>, offs: seq<nat>, cies: bool, pieces: seq<Piece>) {
    && Ascending(pieces)
    && (forall k :: 0 <= k < |pieces| ==>
         && pieces[k].inputOff in offs && IsCie(c, pieces[k].inputOff) == cies
         && pieces[k] == PieceAt(c, rels, pieces[k].inputOff))
    && (forall k :: 0 <= k < |offs| && IsCie(c, offs[k]) == cies ==> PieceAt(c, rels, offs[k]) in pieces)
  }

  lemma {:induction false} PiecesListed(c: Content, rels: seq<nat>, offs: seq<nat>, cies: bool)
    requires Increasing(c, offs)
    ensures Lists(c, rels, offs, cies, Pieces(c, rels, offs, cies))
  {
    hide Lists, Pieces, IsCie, RecordSize, FirstIn;
    if offs == [] {
      NothingListed(c, rels, cies);
    } else {
      var init, off := offs[..|offs| - 1], offs[|offs| - 1];
      PiecesListed(c, rels, init, cies);
      assert offs == init + [off];
      PiecesNext(c, rels, init, off, cies);
      ListedNext(c, rels, init, off, cies, Pieces(c, rels, init, cies));
    }
  }

  lemma NothingListed(c: Content, rels: seq<nat>, cies: bool)
    ensures Lists(c, rels, [], cies, Pieces(c, rels, [], cies))
  {
  }

  /** One more record, after all others, and its piece if it is of the kind. */
  lemma ListedNext(c: Content, rels: seq<nat>, init: seq<nat>, off: nat, cies: bool, x: seq<Piece>)
    requires Increasing(c, init + [off]) && Lists(c, rels, init, cies, x)
    ensures Lists(c, rels, init + [off], cies, x + if IsCie(c, off) == cies then [PieceAt(c, rels, off)] else [])
  {
    hide IsCie, RecordSize, FirstIn, Increasing;
    var offs, y := init + [off], x + if IsCie(c, off) == cies then [PieceAt(c, rels, off)] else [];
    forall k | 0 <= k < |x| ensures x[k].inputOff + x[k].size <= off && x[k].inputOff in offs {
      EndsBefore(c, init, off, x[k].inputOff);
    }
    forall k | 0 <= k < |offs| && IsCie(c, offs[k]) == cies ensures PieceAt(c, rels, offs[k]) in y {
      if k < |init| {
        assert init[k] == offs[k] && PieceAt(c, rels, init[k]) in x;
      }
    }
  }

  lemma EndsBefore(c: Content, init: seq<nat>, off: nat, o: nat)
    requires Increasing(c, init + [off]) && o in init
    ensures o + RecordSize(c, o) <= off && o in init + [off]
  {
    hide RecordSize;
    var offs := init + [off];
    var k :| 0 <= k < |init| && init[k] == o;
    assert offs[k] == o && offs[|init|] == off;
  }

  /** Equal up to the output offsets, which are given later. */
  ghost predicate SamePlaces(pieces: seq<Piece>, placed: seq<Piece>) {
    && |placed| == |pieces|
    && forall k :: 0 <= k < |pieces| ==> placed[k].inputOff == pieces[k].inputOff && placed[k].size == pieces[k].size
  }

  /** Lists made by splitting a section, with whatever output offsets they were given since. */
  ghost predicate FromSplit(c: Content, rels: seq<nat>, cies: seq<Piece>, fdes: seq<Piece>) {
    && SamePlaces(Pieces(c, rels, Walk(c, 0), true), cies)
    && SamePlaces(Pieces(c, rels, Walk(c, 0), false), fdes)
  }

  /** The lists stay in order whatever output offsets they are given, so the lookup can search them. */
  lemma PlacedAscending(c: Content, rels: seq<nat>, cies: seq<Piece>, fdes: seq<Piece>)
    requires FromSplit(c, rels, cies, fdes)
    ensures Ascending(cies) && Ascending(fdes)
  {
    hide Walk, IsCie, RecordSize, Pieces, FirstIn, Increasing;
    WalkIncreases(c, 0);
    PiecesListed(c, rels, Walk(c, 0), true);
    PiecesListed(c, rels, Walk(c, 0), false);
  }

  lemma PlacedIndex(c: Content, rels: seq<nat>, cies: bool, placed: seq<Piece>, k: nat) returns (i: nat)
    requires k < |Walk(c, 0)| && IsCie(c, Walk(c, 0)[k]) == cies
    requires SamePlaces(Pieces(c, rels, Walk(c, 0), cies), placed)
    ensures i < |placed| && placed[i].inputOff == Walk(c, 0)[k] && placed[i].size == RecordSize(c, Walk(c, 0)[k])
  {
    hide Walk, IsCie, RecordSize, Pieces, FirstIn, Increasing;
    WalkIncreases(c, 0);
    PiecesListed(c, rels, Walk(c, 0), cies);
    var pieces := Pieces(c, rels, Walk(c, 0), cies);
    i :| 0 <= i < |pieces| && pieces[i] == PieceAt(c, rels, Walk(c, 0)[k]);
  }

  lemma PlacedFromWalk(c: Content, rels: seq<nat>, cies: bool, placed: seq<Piece>, i: nat) returns (k: nat)
    requires i < |placed| && SamePlaces(Pieces(c, rels, Walk(c, 0), cies), placed)
    ensures k < |Walk(c, 0)| && placed[i].inputOff == Walk(c, 0)[k] && placed[i].size == RecordSize(c, Walk(c, 0)[k])
    ensures IsCie(c, Walk(c, 0)[k]) == cies
  {
    hide Walk, IsCie, RecordSize, Pieces, FirstIn, Increasing, Ascending;
    WalkIncreases(c, 0);
    PiecesListed(c, rels, Walk(c, 0), cies);
    var pieces := Pieces(c, rels, Walk(c, 0), cies);
    assert pieces[i].inputOff in Walk(c, 0);
    k :| 0 <= k < |Walk(c, 0)| && Walk(c, 0)[k] == pieces[i].inputOff;
  }

  lemma OneRecord(c: Content, k: nat, l: nat, offset: nat)
    requires k < |Walk(c, 0)| && l < |Walk(c, 0)|
    requires Walk(c, 0)[k] <= offset < Walk(c, 0)[k] + RecordSize(c, Walk(c, 0)[k])
    requires Walk(c, 0)[l] <= offset < Walk(c, 0)[l] + RecordSize(c, Walk(c, 0)[l])
    ensures k == l
  {
    hide Walk, RecordSize;
    WalkIncreases(c, 0);
  }

  /**
   For an offset in the tiled part there is one record that contains it, and the lookup gives
   the offset's place in that record.
   */
  lemma LookupFindsRecord(c: Content, rels: seq<nat>, cies: seq<Piece>, fdes: seq<Piece>, offset: nat)
    requires FromSplit(c, rels, cies, fdes) && offset < WalkEnd(c, 0)
    ensures exists p :: p in cies + fdes && Contains(p, offset)
    ensures forall p :: p in cies + fdes && Contains(p, offset) ==> ParentOffset(cies, fdes, offset) == Moved(p, offset)
  {
    hide Walk, WalkEnd, IsCie, RecordSize, Pieces;
    PlacedAscending(c, rels, cies, fdes);
    var k := WalkCovers(c, 0, offset);
    if IsCie(c, Walk(c, 0)[k]) {
      var i := PlacedIndex(c, rels, true, cies, k);
      assert cies[i] in cies + fdes && Contains(cies[i], offset);
      ContainingIsLast(cies, i, offset);
      forall j | 0 <= j < |fdes| ensures !Contains(fdes[j], offset) {
        if Contains(fdes[j], offset) {
          var l := PlacedFromWalk(c, rels, false, fdes, j);
          OneRecord(c, k, l, offset);
          assert false;
        }
      }
      if LastBefore(fdes, offset).Some? {
        LastBeforeListed(fdes, offset);
      }
      forall p | p in cies + fdes && Contains(p, offset) ensures p == cies[i] {
        if p in cies {
          var j :| 0 <= j < |cies| && cies[j] == p;
          ContainingIsLast(cies, j, offset);
        }
      }
    } else {
      var i := PlacedIndex(c, rels, false, fdes, k);
      assert fdes[i] in cies + fdes && Contains(fdes[i], offset);
      ContainingIsLast(fdes, i, offset);
      forall j | 0 <= j < |cies| ensures !Contains(cies[j], offset) {
        if Contains(cies[j], offset) {
          var l := PlacedFromWalk(c, rels, true, cies, j);
          OneRecord(c, k, l, offset);
          assert false;
        }
      }
      forall p | p in cies + fdes && Contains(p, offset) ensures p == fdes[i] {
        if p in fdes {
          var j :| 0 <= j < |fdes| && fdes[j] == p;
          ContainingIsLast(fdes, j, offset);
        }
      }
    }
  }

  /** What a split that found no error leaves: both lists in order, tiling the section up to a terminator or the end. */
  lemma CleanSplit(c: Content, rels: seq<nat>)
    ensures Ascending(Pieces(c, rels, Walk(c, 0), true)) && Ascending(Pieces(c, rels, Walk(c, 0), false))
    ensures Tiles(c, Walk(c, 0), 0, WalkEnd(c, 0))
    ensures Lists(c, rels, Walk(c, 0), true, Pieces(c, rels, Walk(c, 0), true))
    ensures Lists(c, rels, Walk(c, 0), false, Pieces(c, rels, Walk(c, 0), false))
    ensures StopAt(c, WalkEnd(c, 0)).AtEnd? <==> WalkEnd(c, 0) == |c.data|
    ensures StopAt(c, WalkEnd(c, 0)).AtTerminator? <==> WalkEnd(c, 0) + 4 <= |c.data| && Read32(c, WalkEnd(c, 0)) == 0
  {
    hide Walk, Pieces, Increasing;
    WalkTiles(c, 0);
    WalkIncreases(c, 0);
    PiecesListed(c, rels, Walk(c, 0), true);
    PiecesListed(c, rels, Walk(c, 0), false);
  }
}
