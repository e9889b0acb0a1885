/** The work flash behind the freshness store: two sectors of which the store uses
    the first five words. A word cell is erased, torn (an operation on it was
    interrupted) or holds the word programmed into it. Torn cells are never
    readable, and what a blank check says about one is arbitrary but fixed. */
module WorkFlash {
  import opened Words

  datatype Cell = Erased | Torn(blank: int) | Data(word: u32)

  type Slot = s: seq<Cell> | |s| == 5 witness [Erased, Erased, Erased, Erased, Erased]

  type Slots = s: seq<Slot> | |s| == 2 witness [EMPTY_SLOT, EMPTY_SLOT]

  const EMPTY_SLOT: Slot := [Erased, Erased, Erased, Erased, Erased]

  /** How an operation ended for its caller. `Cut` is loss of power: the caller never resumes.
      `Crash` is a fault of the processor: the code followed a null pointer. */
  datatype Rc = Done | Failed | Cut | Crash

  /** Flash operations never crash. */
  type FlashRc = r: Rc | r != Crash witness Done

  /** What an interrupted operation leaves in a cell it was changing. */
  datatype Left = LeftOld | LeftNew | LeftTorn(blank: int)

  /** The one place where an erase-program-verify sequence goes wrong, if any. */
  datatype Fault =
    | NoFault
    | EraseFault(left: seq<Left>, cut: bool)
    | WordFault(at: nat, left1: Left, cut: bool)
    | ReadBackFault(cut: bool)

  function Ended(cut: bool): FlashRc {
    if cut then Cut else Failed
  }

  function Leave(before: Cell, after: Cell, left: Left): Cell {
    match left
    case LeftOld => before
    case LeftNew => after
    case LeftTorn(b) => Torn(b)
  }

  /** An interrupted erase leaves every word old, blank or torn, in any mixture. */
  function LeaveErase(s: Slot, left: seq<Left>): Slot {
    seq(5, i requires 0 <= i < 5 => if i < |left| then Leave(s[i], Erased, left[i]) else s[i])
  }

  function EraseSpec(s: Slot, f: Fault): (Slot, FlashRc) {
    if f.EraseFault? then (LeaveErase(s, f.left), Ended(f.cut)) else (EMPTY_SLOT, Done)
  }

  /** One word program. The driver's own blank check refuses a cell that is not erased. */
  function ProgramSpec(c: Cell, w: u32, at: nat, f: Fault): (Cell, FlashRc) {
    if !c.Erased? then (c, Failed)
    else if f.WordFault? && f.at == at then (Leave(c, Data(w), f.left1), Ended(f.cut))
    else (Data(w), Done)
  }

  /** Words `ws` programmed from cell `at` on, in address order, up to the first failure. */
  function WriteSpec(s: Slot, at: nat, ws: seq<u32>, f: Fault): (Slot, FlashRc)
    requires at + |ws| <= 5
    decreases |ws|
  {
    if ws == [] then (s, Done)
    else
      var (c, rc) := ProgramSpec(s[at], ws[0], at, f);
      var s' := s[at := c];
      if rc != Done then (s', rc) else WriteSpec(s', at + 1, ws[1..], f)
  }

  function BlankCheck(c: Cell): int {
    match c
    case Erased => 1
    case Torn(b) => b
    case Data(_) => 0
  }

  /** The fault-safe read of the whole record: it fails unless every word is readable. */
  function ReadChecked(s: Slot): (r: Option<seq<u32>>)
    ensures r.Some? ==> |r.value| == 5
  {
    if s[0].Data? && s[1].Data? && s[2].Data? && s[3].Data? && s[4].Data?
    then Some([s[0].word, s[1].word, s[2].word, s[3].word, s[4].word])
    else None
  }

  class Flash {
    var slots: Slots

    constructor (slots: Slots)
      ensures this.slots == slots
    {
      this.slots := slots;
    }

    method EraseSector(target: nat, f: Fault) returns (rc: FlashRc)
      requires target < 2
      modifies this
      ensures var (s, r) := EraseSpec(old(slots[target]), f);
              slots == old(slots)[target := s] && rc == r
    {
      if f.EraseFault? {
        slots := slots[target := LeaveErase(slots[target], f.left)];
        return Ended(f.cut);
      }
      slots := slots[target := EMPTY_SLOT];
      return Done;
    }

    /** One word per driver call, in address order. */
    method Write(target: nat, at: nat, ws: seq<u32>, f: Fault) returns (rc: FlashRc)
      requires target < 2 && at + |ws| <= 5
      modifies this
      ensures var (s, r) := WriteSpec(old(slots[target]), at, ws, f);
              slots == old(slots)[target := s] && rc == r
    {
      var off := 0;
      while off < |ws|
        invariant 0 <= off <= |ws|
        invariant slots == old(slots)[target := slots[target]]
        invariant WriteSpec(old(slots[target]), at, ws, f) == WriteSpec(slots[target], at + off, ws[off..], f)
      {
        var (c, r) := ProgramSpec(slots[target][at + off], ws[off], at + off, f);
        var before := slots[target];
        slots := slots[target := before[at + off := c]];
        assert ws[off..][0] == ws[off] && ws[off..][1..] == ws[off + 1..];
        if r != Done {
          return r;
        }
        off := off + 1;
      }
      return Done;
    }
  }
}
