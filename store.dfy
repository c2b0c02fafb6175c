/** The three requests that act on the table — write into the current slot,
    read and consume the current slot, and the control codes that move the
    cursor — as transitions on `State`, each with what it promises. */
module Store {
  import opened ClipboardState

  /** The new state and the value the request returns to the caller. */
  datatype Outcome = Outcome(state: State, result: int)

  /** As `Outcome`, plus the bytes handed to the caller's buffer. */
  datatype ReadOutcome = ReadOutcome(state: State, result: int, data: seq<byte>)

  /** Slot `i` aside, the two states agree slot by slot and length by length. */
  predicate OthersUnchanged(s: State, t: State, i: int)
    requires WellFormed(s) && WellFormed(t)
  {
    forall j :: 0 <= j < MAX_CLIPBOARD_ENTRIES && j != i ==>
      t.slots[j] == s.slots[j] && t.lengths[j] == s.lengths[j]
  }

  /** A write gets past the capacity and size checks. */
  predicate Accepts(s: State, payload: seq<byte>)
  {
    s.active < MAX_CLIPBOARD_ENTRIES && |payload| <= MAX_LENGTH_ENTRY
  }

  /** `clipboard_write`: the caller's grant holds `payload`; `allocOk` is
      whether `malloc` returned a buffer and `copyStatus` what
      `sys_safecopyfrom` returned. The slot pointer is overwritten without
      looking at what it held, and the buffer pointer is stored before the
      allocation is checked, so a failed allocation also empties the slot. */
  function Write(s: State, payload: seq<byte>, allocOk: bool, copyStatus: int): (r: Outcome)
    requires WellFormed(s)
    requires Accepts(s, payload) ==> 0 <= s.current
    ensures WellFormed(r.state)
    // a full table or an oversized payload is refused and nothing changes
    ensures !Accepts(s, payload) ==> r == Outcome(s, -1)
    // otherwise only the current slot, its length and the counter may change
    ensures Accepts(s, payload) ==>
      && OthersUnchanged(s, r.state, s.current)
      && r.state.current == s.current
    // allocation failure: refused, the slot is left empty, nothing else moves
    ensures Accepts(s, payload) && !allocOk ==>
      && r.result == -1
      && r.state.slots[s.current].None?
      && r.state.lengths == s.lengths
      && r.state.active == s.active
    // copy-in failure: the buffer is released, the slot is left empty and the
    // copy's error is returned; the counter and the lengths are untouched
    ensures Accepts(s, payload) && allocOk && copyStatus != OK ==>
      && r.result == copyStatus
      && r.state.slots[s.current].None?
      && r.state.lengths == s.lengths
      && r.state.active == s.active
    // success, whatever the slot held before: it holds exactly the payload,
    // its length is the payload's, the counter rises by one
    ensures Accepts(s, payload) && allocOk && copyStatus == OK ==>
      && r.result == |payload|
      && r.state.slots[s.current] == Some(payload)
      && r.state.lengths[s.current] == |payload|
      && r.state.active == s.active + 1
  {
    if s.active >= MAX_CLIPBOARD_ENTRIES then Outcome(s, -1)
    else if |payload| > MAX_LENGTH_ENTRY then Outcome(s, -1)
    else if !allocOk then Outcome(s.(slots := s.slots[s.current := None]), -1)
    else if copyStatus != OK then Outcome(s.(slots := s.slots[s.current := None]), copyStatus)
    else
      Outcome(s.(slots := s.slots[s.current := Some(payload)],
                 lengths := s.lengths[s.current := |payload|],
                 active := s.active + 1),
              |payload|)
  }

  /** `clipboard_read` into a caller buffer of `capacity` bytes;
      `copyStatus` is what `sys_safecopyto` returned. The slot itself is never
      checked: with a positive counter an empty slot is "read" just the same. */
  function Read(s: State, capacity: nat, copyStatus: int): (r: ReadOutcome)
    requires WellFormed(s)
    requires s.active > 0 ==> 0 <= s.current
    ensures WellFormed(r.state)
    // nothing to read: refused, nothing changes
    ensures s.active <= 0 ==> r == ReadOutcome(s, -1, [])
    // destination too small for the stored entry: refused, nothing changes
    ensures s.active > 0 && capacity < s.lengths[s.current] ==> r == ReadOutcome(s, -1, [])
    // copy-out failure: its error is returned and the entry survives
    ensures s.active > 0 && capacity >= s.lengths[s.current] && copyStatus != OK ==>
      r == ReadOutcome(s, copyStatus, [])
    // success: exactly the stored bytes (a larger capacity is cut down to the
    // stored length), the slot is freed, its length reset, the counter drops
    ensures s.active > 0 && capacity >= s.lengths[s.current] && copyStatus == OK ==>
      && r.result == s.lengths[s.current]
      && r.data == Bytes(s.slots[s.current])
      && (s.slots[s.current].Some? ==> |r.data| == r.result)
      && r.state.slots[s.current].None?
      && r.state.lengths[s.current] == 0
      && r.state.active == s.active - 1
      && r.state.current == s.current
      && OthersUnchanged(s, r.state, s.current)
  {
    if s.active <= 0 then ReadOutcome(s, -1, [])
    else if capacity < s.lengths[s.current] then ReadOutcome(s, -1, [])
    else
      var size := if capacity > s.lengths[s.current] then s.lengths[s.current] else capacity;
      if copyStatus != OK then ReadOutcome(s, copyStatus, [])
      else
        ReadOutcome(s.(slots := s.slots[s.current := None],
                       lengths := s.lengths[s.current := 0],
                       active := s.active - 1),
                    size, Bytes(s.slots[s.current]))
  }

  /** The first empty slot at or after `i`, or -1 if there is none. */
  function FirstEmptyFrom(slots: seq<Slot>, i: nat): (r: int)
    decreases |slots| - i
    ensures r == -1 || (i <= r < |slots| && slots[r].None?)
    ensures r == -1 ==> forall j :: i <= j < |slots| ==> slots[j].Some?
    ensures r != -1 ==> forall j :: i <= j < r ==> slots[j].Some?
  {
    if i >= |slots| then -1
    else if slots[i].None? then i
    else FirstEmptyFrom(slots, i + 1)
  }

  /** `find_first_free_index`: -1 on a full counter; otherwise the least empty
      slot, or -1 when every slot holds a buffer. */
  function FirstFree(s: State): (r: int)
    requires WellFormed(s)
    ensures -1 <= r < MAX_CLIPBOARD_ENTRIES
    ensures s.active >= MAX_CLIPBOARD_ENTRIES ==> r == -1
    ensures s.active < MAX_CLIPBOARD_ENTRIES ==>
      (r == -1 <==> forall j :: 0 <= j < MAX_CLIPBOARD_ENTRIES ==> s.slots[j].Some?)
    ensures r != -1 ==>
      && s.slots[r].None?
      && forall j :: 0 <= j < r ==> s.slots[j].Some?
  {
    if s.active >= MAX_CLIPBOARD_ENTRIES then -1 else FirstEmptyFrom(s.slots, 0)
  }

  /** `clipboard_ioctl` on control code `request` (an unsigned long). Only the
      cursor can move; the debug dump is output only and is not modelled. */
  function Ioctl(s: State, request: nat): (r: Outcome)
    requires WellFormed(s)
    ensures WellFormed(r.state)
    ensures r.state.slots == s.slots && r.state.lengths == s.lengths && r.state.active == s.active
    // debug dump: acknowledged with its own code
    ensures request == DEBUG_CTL ==> r == Outcome(s, DEBUG_CTL)
    // select first free: the cursor takes the search result, -1 included
    ensures request == STATE_WRITE ==> r.result == FirstFree(s) && r.state.current == r.result
    // explicit selection, whether or not the slot is occupied
    ensures request < MAX_CLIPBOARD_ENTRIES ==> r.result == request && r.state.current == request
    // anything else is refused and the cursor stays
    ensures request != DEBUG_CTL && request != STATE_WRITE && request >= MAX_CLIPBOARD_ENTRIES ==>
      r == Outcome(s, ENOTTY)
  {
    if request == DEBUG_CTL then Outcome(s, DEBUG_CTL)
    else if request == STATE_WRITE then
      var f := FirstFree(s);
      Outcome(s.(current := f), f)
    else if request < MAX_CLIPBOARD_ENTRIES then Outcome(s.(current := request), request)
    else Outcome(s, ENOTTY)
  }

  // ---------------------------------------------------------------------
  // The counter and the table. A write never checks that its slot is empty
  // and a read never checks that its slot is full, so `Counted` is not an
  // invariant of the code; it is kept only by callers that write to empty
  // slots and read from occupied ones.

  /** Any write to an empty slot keeps the counter truthful. */
  lemma WriteToEmptyKeepsCount(s: State, payload: seq<byte>, allocOk: bool, copyStatus: int)
    requires WellFormed(s) && Counted(s)
    requires Accepts(s, payload) ==> 0 <= s.current && s.slots[s.current].None?
    ensures Counted(Write(s, payload, allocOk, copyStatus).state)
  {
    var t := Write(s, payload, allocOk, copyStatus).state;
    if Accepts(s, payload) {
      OccupiedUpdate(s.slots, s.current, t.slots[s.current]);
      assert t.slots == s.slots[s.current := t.slots[s.current]];
    }
  }

  /** A successful write over an occupied slot leaks the old buffer and
      counts one entry that no slot holds. */
  lemma OverwriteMiscounts(s: State, payload: seq<byte>)
    requires WellFormed(s) && Counted(s) && Accepts(s, payload)
    requires 0 <= s.current && s.slots[s.current].Some?
    ensures var t := Write(s, payload, true, OK).state;
      t.active == Occupied(t.slots) + 1
  {
    OccupiedUpdate(s.slots, s.current, Some(payload));
  }

  /** Any read of an occupied slot keeps the counter truthful. */
  lemma ReadOfOccupiedKeepsCount(s: State, capacity: nat, copyStatus: int)
    requires WellFormed(s) && Counted(s)
    requires s.active > 0 ==> 0 <= s.current && s.slots[s.current].Some?
    ensures Counted(Read(s, capacity, copyStatus).state)
  {
    if s.active > 0 {
      OccupiedUpdate(s.slots, s.current, None);
    }
  }

  /** A successful read of an empty slot, possible whenever some other slot
      is counted, drops the counter below the number of held buffers. */
  lemma ReadOfEmptyMiscounts(s: State, capacity: nat)
    requires WellFormed(s) && Counted(s) && s.active > 0
    requires 0 <= s.current && s.slots[s.current].None? && capacity >= s.lengths[s.current]
    ensures var t := Read(s, capacity, OK).state;
      t.active == Occupied(t.slots) - 1
  {
    OccupiedUpdate(s.slots, s.current, None);
    assert s.slots[s.current := None] == s.slots;
  }

  /** Control codes never touch the table or the counter. */
  lemma IoctlKeepsCount(s: State, request: nat)
    requires WellFormed(s) && Counted(s)
    ensures Counted(Ioctl(s, request).state)
  {
  }

  /** A write followed by a read of the same slot hands back exactly the
      written bytes and leaves the slot empty; the counter is where it was. */
  lemma WriteThenRead(s: State, payload: seq<byte>, capacity: nat)
    requires WellFormed(s) && Accepts(s, payload) && 0 <= s.current
    requires capacity >= |payload|
    ensures var w := Write(s, payload, true, OK);
      var rd := Read(w.state, capacity, OK);
      && w.result == |payload|
      && rd.result == |payload|
      && rd.data == payload
      && rd.state == s.(slots := s.slots[s.current := None], lengths := s.lengths[s.current := 0])
  {
  }

  /** Select slot 3, write "hello", select 3, read 10 bytes, select 3, read again:
      5 and "hello", then -1 because nothing is left to read. */
  lemma HelloScenario()
    ensures var hello: seq<byte> := [0x68, 0x65, 0x6c, 0x6c, 0x6f];
      var s1 := Ioctl(Reset(), 3);
      var s2 := Write(s1.state, hello, true, OK);
      var s3 := Ioctl(s2.state, 3);
      var s4 := Read(s3.state, 10, OK);
      var s5 := Ioctl(s4.state, 3);
      var s6 := Read(s5.state, 10, OK);
      && s1.result == 3 && s2.result == 5 && s3.result == 3
      && s4.result == 5 && s4.data == hello
      && s5.result == 3 && s6.result == -1
  {
  }
}
