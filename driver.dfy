/** The driver's globals and its request handlers. The slot table and the
    length table are arrays updated in place; the counter and the cursor are
    fields. Each handler is specified by the transition in `Store` or
    `LiveUpdate` that it performs on `View()`. */
module Driver {
  import opened ClipboardState
  import Store
  import LiveUpdate

  /** The three ways SEF starts the driver. */
  datatype InitType = InitFresh | InitLiveUpdate | InitRestart

  class Clipboard {
    var clipboard: array<Slot>
    var clipboardLengths: array<int>
    var activeEntries: int
    var currentIndex: int

    /** The globals as a `State` value. */
    function View(): (s: State)
      reads this, clipboard, clipboardLengths
    {
      State(clipboard[..], clipboardLengths[..], activeEntries, currentIndex)
    }

    predicate Valid()
      reads this, clipboard, clipboardLengths
    {
      && clipboard.Length == MAX_CLIPBOARD_ENTRIES
      && clipboardLengths.Length == MAX_CLIPBOARD_ENTRIES
      && WellFormed(View())
    }

    /** The zero-initialised globals, with tables already in place. */
    constructor ()
      ensures Valid() && View() == Reset()
    {
      clipboard := new Slot[0];
      clipboardLengths := new int[0];
      new;
      ResetTables();
    }

    /** The allocation and zeroing `sef_cb_init` starts with: counter and
        cursor 0 and fresh tables with every slot empty. */
    method ResetTables()
      modifies this
      ensures Valid() && View() == Reset()
      ensures fresh(clipboard) && fresh(clipboardLengths)
    {
      activeEntries := 0;
      currentIndex := 0;
      clipboard := new Slot[MAX_CLIPBOARD_ENTRIES](_ => None);
      clipboardLengths := new int[MAX_CLIPBOARD_ENTRIES](_ => 0);
      assert clipboard[..] == Reset().slots && clipboardLengths[..] == Reset().lengths;
    }

    /** `clipboard_write` of `payload`; `allocOk` is whether `malloc`
        succeeded and `copyStatus` what `sys_safecopyfrom` returned. */
    method Write(payload: seq<byte>, allocOk: bool, copyStatus: int) returns (r: int)
      requires Valid()
      requires Store.Accepts(View(), payload) ==> 0 <= currentIndex
      modifies this`activeEntries, clipboard, clipboardLengths
      ensures Valid()
      ensures View() == Store.Write(old(View()), payload, allocOk, copyStatus).state
      ensures r == Store.Write(old(View()), payload, allocOk, copyStatus).result
    {
      if activeEntries >= MAX_CLIPBOARD_ENTRIES {
        return -1;
      }
      if |payload| > MAX_LENGTH_ENTRY {
        return -1;
      }
      if !allocOk {
        clipboard[currentIndex] := None;
        return -1;
      }
      if copyStatus != OK {
        clipboard[currentIndex] := None;
        return copyStatus;
      }
      clipboard[currentIndex] := Some(payload);
      activeEntries := activeEntries + 1;
      clipboardLengths[currentIndex] := |payload|;
      return |payload|;
    }

    /** `clipboard_read` into a buffer of `capacity` bytes; `copyStatus` is
        what `sys_safecopyto` returned and `data` what reached the caller. */
    method Read(capacity: nat, copyStatus: int) returns (r: int, data: seq<byte>)
      requires Valid()
      requires activeEntries > 0 ==> 0 <= currentIndex
      modifies this`activeEntries, clipboard, clipboardLengths
      ensures Valid()
      ensures View() == Store.Read(old(View()), capacity, copyStatus).state
      ensures r == Store.Read(old(View()), capacity, copyStatus).result
      ensures data == Store.Read(old(View()), capacity, copyStatus).data
    {
      if activeEntries <= 0 {
        return -1, [];
      }
      if capacity < clipboardLengths[currentIndex] {
        return -1, [];
      }
      var size := capacity;
      if size > clipboardLengths[currentIndex] {
        size := clipboardLengths[currentIndex];
      }
      if copyStatus != OK {
        return copyStatus, [];
      }
      data := Bytes(clipboard[currentIndex]);
      clipboard[currentIndex] := None;
      clipboardLengths[currentIndex] := 0;
      activeEntries := activeEntries - 1;
      r := size;
    }

    /** `find_first_free_index`. */
    method FindFirstFreeIndex() returns (r: int)
      requires Valid()
      ensures r == Store.FirstFree(View())
    {
      if activeEntries >= MAX_CLIPBOARD_ENTRIES {
        return -1;
      }
      var i := 0;
      while i < MAX_CLIPBOARD_ENTRIES
        invariant 0 <= i <= MAX_CLIPBOARD_ENTRIES
        invariant Store.FirstEmptyFrom(clipboard[..], i) == Store.FirstEmptyFrom(clipboard[..], 0)
      {
        if clipboard[i].None? {
          return i;
        }
        i := i + 1;
      }
      return -1;
    }

    /** `clipboard_ioctl` on control code `request`. */
    method Ioctl(request: nat) returns (r: int)
      requires Valid()
      modifies this`currentIndex
      ensures Valid()
      ensures View() == Store.Ioctl(old(View()), request).state
      ensures r == Store.Ioctl(old(View()), request).result
    {
      if request == DEBUG_CTL {
        return DEBUG_CTL;
      } else if request == STATE_WRITE {
        currentIndex := FindFirstFreeIndex();
        r := currentIndex;
      } else if request < MAX_CLIPBOARD_ENTRIES {
        currentIndex := request;
        r := currentIndex;
      } else {
        r := ENOTTY;
      }
    }

    /** `sef_cb_lu_state_save`: publishes into data store `ds`. */
    method SaveState(ds: LiveUpdate.Published) returns (out: LiveUpdate.Published)
      requires Valid() && Consistent(View())
      ensures out == LiveUpdate.Save(View(), ds)
    {
      ghost var v := View();
      out := ds.(entries := Some(LiveUpdate.ToU32(activeEntries)),
                 index := Some(LiveUpdate.ToU32(currentIndex)),
                 lengths := Some(clipboardLengths[..]));
      var i := 0;
      while i < MAX_CLIPBOARD_ENTRIES
        invariant 0 <= i <= MAX_CLIPBOARD_ENTRIES && i % 2 == 0
        invariant out.entries == Some(LiveUpdate.ToU32(v.active))
        invariant out.index == Some(LiveUpdate.ToU32(v.current))
        invariant out.lengths == Some(v.lengths)
        invariant out.pairs == ds.pairs + LiveUpdate.SavedBelow(v, i)
      {
        LiveUpdate.PairStep(i);
        LiveUpdate.SavedBelowStep(v, ds.pairs, i);
        if clipboardLengths[i] + clipboardLengths[i + 1] > 0 {
          var blob := LiveUpdate.EncodePair(Bytes(clipboard[i]), Bytes(clipboard[i + 1]));
          out := out.(pairs := out.pairs[i := blob]);
        }
        i := i + 2;
      }
    }

    /** `lu_state_restore` from data store `ds`, run by `Init` right after
        the table has been emptied; returns the data store with the keys it
        read deleted. */
    method RestoreState(ds: LiveUpdate.Published) returns (out: LiveUpdate.Published)
      requires Valid() && LiveUpdate.Restorable(ds)
      requires forall j :: 0 <= j < MAX_CLIPBOARD_ENTRIES ==> clipboard[j].None?
      modifies this`activeEntries, this`currentIndex, clipboard, clipboardLengths
      ensures View() == LiveUpdate.Restore(ds)
      ensures Valid()
      ensures out == LiveUpdate.Consumed(ds)
    {
      activeEntries := LiveUpdate.FromU32(ds.entries.value);
      currentIndex := LiveUpdate.FromU32(ds.index.value);
      var lengths := ds.lengths.value;
      RetrieveLengths(lengths);
      out := ds.(entries := None, index := None, lengths := None);
      var i := 0;
      while i < MAX_CLIPBOARD_ENTRIES
        modifies clipboard
        invariant 0 <= i <= MAX_CLIPBOARD_ENTRIES && i % 2 == 0
        invariant forall j :: 0 <= j < i ==> clipboard[j] == LiveUpdate.RestoredSlot(lengths, ds.pairs, j)
        invariant forall j :: i <= j < MAX_CLIPBOARD_ENTRIES ==> clipboard[j].None?
        invariant out == LiveUpdate.Published(None, None, None, ds.pairs - LiveUpdate.ReadKeysBelow(lengths, i))
      {
        LiveUpdate.PairStep(i);
        LiveUpdate.ReadKeysStep(lengths, i);
        var read := RestorePair(ds, i);
        if read {
          out := out.(pairs := out.pairs - {i});
        }
        i := i + 2;
      }
      LiveUpdate.RestoreOfSlots(ds, clipboard[..]);
      assert View() == LiveUpdate.Restore(ds);
    }

    /** `ds_retrieve_mem` of the length table straight into `clipboard_lengths`. */
    method RetrieveLengths(lengths: seq<int>)
      requires clipboardLengths.Length == |lengths|
      modifies clipboardLengths
      ensures clipboardLengths[..] == lengths
    {
      forall j | 0 <= j < clipboardLengths.Length {
        clipboardLengths[j] := lengths[j];
      }
    }

    /** The body of the restore loop for the pair at the even slot `i`:
        when the pair's lengths sum above 0 its blob is read (and then
        deleted by the caller) and each half with a positive length becomes a
        fresh buffer. Returns whether the blob was read. */
    method RestorePair(ds: LiveUpdate.Published, i: int) returns (read: bool)
      requires LiveUpdate.Restorable(ds) && 0 <= i < MAX_CLIPBOARD_ENTRIES && i % 2 == 0
      requires clipboard.Length == MAX_CLIPBOARD_ENTRIES && clipboardLengths[..] == ds.lengths.value
      requires clipboard[i].None? && clipboard[i + 1].None?
      modifies clipboard
      ensures read <==> LiveUpdate.IsPairKey(ds.lengths.value, i)
      ensures clipboard[i] == LiveUpdate.RestoredSlot(ds.lengths.value, ds.pairs, i)
      ensures clipboard[i + 1] == LiveUpdate.RestoredSlot(ds.lengths.value, ds.pairs, i + 1)
      ensures forall j :: 0 <= j < MAX_CLIPBOARD_ENTRIES && j != i && j != i + 1 ==> clipboard[j] == old(clipboard[j])
    {
      LiveUpdate.PairStep(i);
      LiveUpdate.RestoreStep(ds, i);
      var firstLen, secondLen := clipboardLengths[i], clipboardLengths[i + 1];
      read := firstLen + secondLen > 0;
      if read {
        var blob := ds.pairs[i];
        var halves := LiveUpdate.DecodePair(blob, firstLen, secondLen);
        if firstLen > 0 {
          clipboard[i] := Some(halves.0);
        }
        if secondLen > 0 {
          clipboard[i + 1] := Some(halves.1);
        }
      }
    }

    /** `sef_cb_init`: fresh tables, counter and cursor 0; on a live update the
        saved state is restored. Returns whether the driver announces itself
        (every start but a live update) and the data store afterwards. */
    method Init(initType: InitType, ds: LiveUpdate.Published) returns (announce: bool, out: LiveUpdate.Published)
      requires initType == InitLiveUpdate ==> LiveUpdate.Restorable(ds)
      modifies this
      ensures Valid() && fresh(clipboard) && fresh(clipboardLengths)
      ensures initType == InitLiveUpdate ==> View() == LiveUpdate.Restore(ds) && out == LiveUpdate.Consumed(ds)
      ensures initType != InitLiveUpdate ==> View() == Reset() && out == ds
      ensures announce <==> initType != InitLiveUpdate
    {
      announce := true;
      ResetTables();
      out := ds;
      match initType {
        case InitFresh =>
        case InitLiveUpdate =>
          out := RestoreState(ds);
          announce := false;
        case InitRestart =>
      }
    }
  }

  /** A live update end to end: the old instance saves, the new one starts
      with `InitLiveUpdate` and holds the old table again, save for buffers
      of length 0, which come back as empty slots. */
  method LiveUpdateHandOver(before: Clipboard, after: Clipboard, ds: LiveUpdate.Published)
    returns (announce: bool, out: LiveUpdate.Published)
    requires before.Valid() && Consistent(before.View())
    modifies after
    ensures after.Valid() && !announce
    ensures after.View() == old(before.View()).(slots := LiveUpdate.WithoutEmptyBuffers(old(before.View()).slots))
  {
    var saved := before.SaveState(ds);
    LiveUpdate.SaveRestoreRoundTrip(before.View(), ds);
    announce, out := after.Init(InitLiveUpdate, saved);
  }
}
