/**
 The packed-section allocator over unbounded addresses: page arithmetic, the choice of a
 hole, and one step per block. Holes form a set, so nothing here depends on the order in
 which the linker happens to keep them.
 */
module PackedModel {
  import opened Wrappers

  const PAGE: nat := 0x100

  datatype Kind = Filler | Anchor | Window

  datatype Block = Block(kind: Kind, size: nat, originalOrder: nat)

  datatype Hole = Hole(begin: nat, end: nat)

  /** What one run has produced so far; `addrs[i]` is the address given to the i-th block. */
  datatype State = State(holes: set<Hole>, cursor: nat, addrs: seq<nat>)

  function AlignToPage(a: nat): nat {
    a + (PAGE - 1) - (a + (PAGE - 1)) % PAGE
  }

  predicate FitsWindow(addr: nat, size: nat) {
    size <= PAGE && addr % PAGE + size <= PAGE
  }

  predicate ValidBlock(b: Block) {
    b.size != 0 && (b.kind.Window? ==> b.size <= PAGE)
  }

  predicate ValidBlocks(bs: seq<Block>) {
    forall i :: 0 <= i < |bs| ==> ValidBlock(bs[i])
  }

  /** Where block `b` would go in hole `h`, if it fits there at all. */
  function Candidate(h: Hole, b: Block): Option<nat> {
    var addr := if b.kind.Window? && !FitsWindow(h.begin, b.size) then AlignToPage(h.begin) else h.begin;
    if addr > h.end || b.size > h.end - addr then None else Some(addr)
  }

  /** Smaller hole first, then the lower address. */
  predicate Better(h: Hole, k: Hole) {
    h.end - h.begin < k.end - k.begin
    || (h.end - h.begin == k.end - k.begin && h.begin < k.begin)
  }

  ghost predicate Best(holes: set<Hole>, b: Block, h: Hole) {
    && h in holes
    && Candidate(h, b).Some?
    && forall k :: k in holes && Candidate(k, b).Some? && k != h ==> Better(h, k)
  }

  function AddHole(holes: set<Hole>, begin: nat, end: nat): set<Hole> {
    if begin < end then holes + {Hole(begin, end)} else holes
  }

  function Place(st: State, b: Block, h: Hole): State
    requires Candidate(h, b).Some?
  {
    var addr := Candidate(h, b).value;
    State(AddHole(AddHole(st.holes - {h}, h.begin, addr), addr + b.size, h.end), st.cursor, st.addrs + [addr])
  }

  /** The address an append uses when the cursor stands at `cursor`. */
  function AppendAddr(cursor: nat, b: Block): nat {
    if b.kind.Window? && !FitsWindow(cursor, b.size) then AlignToPage(cursor) else cursor
  }

  function Append(st: State, b: Block): State {
    var addr := AppendAddr(st.cursor, b);
    State(AddHole(st.holes, st.cursor, addr), addr + b.size, st.addrs + [addr])
  }

  /** Moving the cursor to the next page before an anchor. */
  function PadToPage(st: State): State {
    var aligned := AlignToPage(st.cursor);
    State(AddHole(st.holes, st.cursor, aligned), aligned, st.addrs)
  }

  ghost function Step(st: State, b: Block): State {
    if b.kind.Anchor? then Append(PadToPage(st), b)
    else if exists h :: Best(st.holes, b, h) then
      var h :| Best(st.holes, b, h);
      Place(st, b, h)
    else Append(st, b)
  }

  /** The whole run over the blocks in their sorted order. */
  ghost function Run(start: nat, bs: seq<Block>): State {
    if bs == [] then State({}, start, [])
    else Step(Run(start, bs[..|bs| - 1]), bs[|bs| - 1])
  }

  /** The reference layout that never looks at holes: every block is appended. */
  function AppendOnly(start: nat, bs: seq<Block>): nat {
    if bs == [] then start
    else
      var c := AppendOnly(start, bs[..|bs| - 1]);
      var b := bs[|bs| - 1];
      var c' := if b.kind.Anchor? then AlignToPage(c) else c;
      AppendAddr(c', b) + b.size
  }

  // The order in which blocks are laid out: anchors, windows, fillers; within a kind by
  // falling size, then by original order.

  function Rank(k: Kind): nat {
    match k
    case Anchor => 0
    case Window => 1
    case Filler => 2
  }

  predicate Before(a: Block, b: Block) {
    Rank(a.kind) < Rank(b.kind)
    || (a.kind == b.kind && (a.size > b.size || (a.size == b.size && a.originalOrder < b.originalOrder)))
  }

  predicate Sorted(bs: seq<Block>) {
    forall i, j :: 0 <= i < j < |bs| ==> !Before(bs[j], bs[i])
  }

  predicate DistinctOrders(bs: seq<Block>) {
    forall i, j :: 0 <= i < j < |bs| ==> bs[i].originalOrder != bs[j].originalOrder
  }

  function SumSizes(bs: seq<Block>): nat {
    if bs == [] then 0 else SumSizes(bs[..|bs| - 1]) + bs[|bs| - 1].size
  }

  /** How many blocks can leave a gap behind: anchors and windows. */
  function CountAligned(bs: seq<Block>): nat {
    if bs == [] then 0
    else CountAligned(bs[..|bs| - 1]) + if bs[|bs| - 1].kind.Filler? then 0 else 1
  }

  ghost function SumHoles(holes: set<Hole>): int {
    if holes == {} then 0
    else
      var h :| h in holes;
      h.end - h.begin + SumHoles(holes - {h})
  }
}
