/** The clipboard's in-memory state: a fixed table of optional byte buffers,
    the length recorded for each, the count of active entries and the single
    shared cursor that selects the slot the next write or read acts on. */
module ClipboardState {

  type byte = bv8

  datatype Option<T> = None | Some(value: T)

  /** Capacity of the table (MAX_CLIPBOARD_ENTRIES). */
  const MAX_CLIPBOARD_ENTRIES: nat := 100
  /** Largest payload a single write may store (MAX_LENGTH_ENTRY). */
  const MAX_LENGTH_ENTRY: nat := 200
  /** Control code that selects the first free slot (STATE_WRITE). */
  const STATE_WRITE: nat := 100
  /** Control code that dumps the table for debugging (DEBUG_CTL). */
  const DEBUG_CTL: nat := 1337
  /** MINIX status codes; inside system processes error numbers are negative. */
  const OK: int := 0
  const ENOTTY: int := -25

  /** A slot either holds an owned buffer or is empty (a NULL pointer). */
  type Slot = Option<seq<byte>>

  /** The driver's globals: `clipboard`, `clipboard_lengths`,
      `number_of_active_entries` and `current_index`. */
  datatype State = State(slots: seq<Slot>, lengths: seq<int>, active: int, current: int)

  /** The bytes a slot holds; an empty slot contributes none. */
  function Bytes(slot: Slot): (b: seq<byte>)
  {
    if slot.Some? then slot.value else []
  }

  /** What every operation keeps: both tables have one entry per slot, the
      counter stays within the capacity, the cursor is a slot index or the -1
      that selecting a free slot can leave behind, every recorded length is
      within the entry limit, and a held buffer has exactly its recorded
      length. It does NOT say that an empty slot has length 0, nor that the
      counter equals the number of held buffers: the code keeps neither. */
  predicate WellFormed(s: State)
  {
    && |s.slots| == MAX_CLIPBOARD_ENTRIES
    && |s.lengths| == MAX_CLIPBOARD_ENTRIES
    && 0 <= s.active <= MAX_CLIPBOARD_ENTRIES
    && -1 <= s.current < MAX_CLIPBOARD_ENTRIES
    && (forall i :: 0 <= i < MAX_CLIPBOARD_ENTRIES ==> 0 <= s.lengths[i] <= MAX_LENGTH_ENTRY)
    && (forall i :: 0 <= i < MAX_CLIPBOARD_ENTRIES && s.slots[i].Some? ==> |s.slots[i].value| == s.lengths[i])
  }

  /** An empty slot also records length 0, so every length describes its slot. */
  predicate Consistent(s: State)
  {
    forall i :: 0 <= i < |s.slots| && i < |s.lengths| && s.slots[i].None? ==> s.lengths[i] == 0
  }

  /** Number of slots that hold a buffer. */
  function Occupied(slots: seq<Slot>): (n: nat)
    ensures n <= |slots|
    ensures n == 0 <==> forall i :: 0 <= i < |slots| ==> slots[i].None?
  {
    if |slots| == 0 then 0
    else (if slots[0].Some? then 1 else 0) + Occupied(slots[1..])
  }

  /** Replacing one slot changes the occupied count only by what left and what came. */
  lemma {:induction false} OccupiedUpdate(slots: seq<Slot>, i: int, v: Slot)
    requires 0 <= i < |slots|
    ensures Occupied(slots[i := v]) + (if slots[i].Some? then 1 else 0)
         == Occupied(slots) + (if v.Some? then 1 else 0)
  {
    if i > 0 {
      assert slots[i := v][1..] == slots[1..][i - 1 := v];
      OccupiedUpdate(slots[1..], i - 1, v);
    } else {
      assert slots[i := v][1..] == slots[1..];
    }
  }

  /** The counter tells the truth about the table. */
  predicate Counted(s: State)
  {
    s.active == Occupied(s.slots)
  }

  /** The state `sef_cb_init` starts from: counter and cursor 0, every slot
      empty. The source leaves the freshly allocated tables uninitialised;
      here every slot is empty and every length is 0. */
  function Reset(): (s: State)
    ensures WellFormed(s) && Consistent(s)
    ensures s.active == 0 && s.current == 0
    ensures forall i :: 0 <= i < MAX_CLIPBOARD_ENTRIES ==> s.slots[i].None? && s.lengths[i] == 0
  {
    State(seq(MAX_CLIPBOARD_ENTRIES, _ => None), seq(MAX_CLIPBOARD_ENTRIES, _ => 0), 0, 0)
  }

  /** The start state's counter tells the truth: no slot holds a buffer. */
  lemma ResetCounted()
    ensures Counted(Reset())
  {
  }
}
