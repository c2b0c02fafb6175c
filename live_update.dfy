/** The state transfer across a MINIX live update. Saving publishes the
    counter and the cursor as 32-bit scalars, the length table as one blob,
    and then one blob per pair of slots (2i, 2i+1) holding slot 2i's bytes
    followed by slot 2i+1's; a pair whose lengths sum to 0 is not published.
    Restoring reads the length table back and splits each pair blob at the
    first slot's length. */
module LiveUpdate {
  import opened ClipboardState

  /** The `u32_t` the data store holds scalars in. */
  newtype u32 = x: int | 0 <= x < 0x1_0000_0000

  /** Conversion of an `int` to `u32_t`, modulo 2^32. */
  function ToU32(x: int): (u: u32)
    ensures -0x8000_0000 <= x < 0x8000_0000 ==> FromU32(u) == x
  {
    (x % 0x1_0000_0000) as u32
  }

  /** The `(int)` cast back, two's complement. */
  function FromU32(u: u32): (x: int)
    ensures -0x8000_0000 <= x < 0x8000_0000
  {
    if u < 0x8000_0000 then u as int else u as int - 0x1_0000_0000
  }

  /** What the data store holds under the driver's keys: the two scalars
      (`pszulc_number_entries`, `pszulc_index`), the length table
      (`pszulc_lengths`) and the pair blobs (`pszulc_clipboard_<i>`, keyed by
      the even slot index i). `None` and a missing key mean nothing is
      published under that name. */
  datatype Published = Published(
    entries: Option<u32>,
    index: Option<u32>,
    lengths: Option<seq<int>>,
    pairs: map<int, seq<byte>>)

  /** The pair blob layout: the first slot's bytes, then the second's. */
  function EncodePair(first: seq<byte>, second: seq<byte>): (blob: seq<byte>)
    ensures |blob| == |first| + |second|
  {
    first + second
  }

  /** Splitting a pair blob at the first slot's length. */
  function DecodePair(blob: seq<byte>, firstLen: nat, secondLen: nat): (halves: (seq<byte>, seq<byte>))
    requires firstLen + secondLen <= |blob|
    ensures |halves.0| == firstLen && |halves.1| == secondLen
  {
    (blob[..firstLen], blob[firstLen..firstLen + secondLen])
  }

  /** Splitting undoes joining. */
  lemma DecodeEncodePair(first: seq<byte>, second: seq<byte>)
    ensures DecodePair(EncodePair(first, second), |first|, |second|) == (first, second)
  {
    var blob := EncodePair(first, second);
    assert blob[..|first|] == first;
    assert blob[|first|..|first| + |second|] == second;
  }

  /** Joining undoes splitting, for a blob of exactly the two lengths. */
  lemma EncodeDecodePair(blob: seq<byte>, firstLen: nat, secondLen: nat)
    requires |blob| == firstLen + secondLen
    ensures var halves := DecodePair(blob, firstLen, secondLen);
      EncodePair(halves.0, halves.1) == blob
  {
  }

  /** Stepping from the even slot `i` to the next pair. */
  lemma PairStep(i: int)
    requires 0 <= i < MAX_CLIPBOARD_ENTRIES && i % 2 == 0
    ensures i + 2 <= MAX_CLIPBOARD_ENTRIES && (i + 2) % 2 == 0
    ensures (i + 1) % 2 == 1 && (i + 1) - (i + 1) % 2 == i
  {
  }

  /** `k` is the first slot of a pair that has something to publish. */
  predicate IsPairKey(lengths: seq<int>, k: int)
  {
    0 <= k < |lengths| - 1 && k % 2 == 0 && lengths[k] + lengths[k + 1] > 0
  }

  /** The blob published for the pair starting at slot `k`. Save builds it
      with `sprintf("%s%s", ...)`; what is modelled is the plain byte
      concatenation that the published length and the restore split assume. */
  function PairBlob(s: State, k: int): (blob: seq<byte>)
    requires WellFormed(s) && 0 <= k < MAX_CLIPBOARD_ENTRIES - 1
    ensures Consistent(s) ==> |blob| == s.lengths[k] + s.lengths[k + 1] <= 2 * MAX_LENGTH_ENTRY
  {
    EncodePair(Bytes(s.slots[k]), Bytes(s.slots[k + 1]))
  }

  /** The pair blobs the save loop has published once `i` has reached `n`. */
  function SavedBelow(s: State, n: nat): (m: map<int, seq<byte>>)
    requires WellFormed(s) && n <= MAX_CLIPBOARD_ENTRIES && n % 2 == 0
    ensures forall k :: k in m ==> k < n && IsPairKey(s.lengths, k)
    ensures forall k :: k < n && IsPairKey(s.lengths, k) ==> k in m && m[k] == PairBlob(s, k)
    ensures 2 * |m| <= n
  {
    if n == 0 then map[]
    else
      var m := SavedBelow(s, n - 2);
      if IsPairKey(s.lengths, n - 2) then m[n - 2 := PairBlob(s, n - 2)] else m
  }

  /** One more step of the save loop publishes the pair at `n`, if any. */
  lemma SavedBelowStep(s: State, base: map<int, seq<byte>>, n: nat)
    requires WellFormed(s) && n + 2 <= MAX_CLIPBOARD_ENTRIES && n % 2 == 0
    ensures base + SavedBelow(s, n + 2)
         == if IsPairKey(s.lengths, n) then (base + SavedBelow(s, n))[n := PairBlob(s, n)]
            else base + SavedBelow(s, n)
  {
  }

  /** `sef_cb_lu_state_save` on state `s` and data store `ds`. Every publish
      overwrites; keys it does not publish keep whatever they held. */
  function Save(s: State, ds: Published): (r: Published)
    requires WellFormed(s) && Consistent(s)
    ensures r.entries == Some(ToU32(s.active))
    ensures r.index == Some(ToU32(s.current))
    ensures r.lengths == Some(s.lengths)
    // a pair is published exactly when its lengths sum above 0 ...
    ensures forall k :: k in r.pairs <==> k in ds.pairs || IsPairKey(s.lengths, k)
    ensures forall k :: k in r.pairs && !IsPairKey(s.lengths, k) ==> r.pairs[k] == ds.pairs[k]
    // ... as the two slots' bytes, with the summed length, at most 400 bytes
    ensures forall k {:trigger IsPairKey(s.lengths, k)} :: IsPairKey(s.lengths, k) ==>
      && r.pairs[k] == EncodePair(Bytes(s.slots[k]), Bytes(s.slots[k + 1]))
      && |r.pairs[k]| == s.lengths[k] + s.lengths[k + 1] <= 2 * MAX_LENGTH_ENTRY
    // and at most 50 keys are written
    ensures |r.pairs| <= |ds.pairs| + MAX_CLIPBOARD_ENTRIES / 2
  {
    var saved := SavedBelow(s, MAX_CLIPBOARD_ENTRIES);
    assert (ds.pairs + saved).Keys == ds.pairs.Keys + saved.Keys;
    Published(Some(ToU32(s.active)), Some(ToU32(s.current)), Some(s.lengths), ds.pairs + saved)
  }

  /** A length table the restore loop can work with. */
  predicate LengthsOk(lengths: seq<int>)
  {
    && |lengths| == MAX_CLIPBOARD_ENTRIES
    && forall j :: 0 <= j < MAX_CLIPBOARD_ENTRIES ==> 0 <= lengths[j] <= MAX_LENGTH_ENTRY
  }

  /** Every pair with something in it has a blob of exactly its summed length. */
  predicate PairsFit(lengths: seq<int>, pairs: map<int, seq<byte>>)
  {
    forall k {:trigger IsPairKey(lengths, k)} :: 0 <= k < |lengths| && IsPairKey(lengths, k) ==>
      k in pairs && |pairs[k]| == lengths[k] + lengths[k + 1]
  }

  /** What `lu_state_restore` needs to find in the data store: the three
      fixed keys, values that make a well-formed state, and every pair blob
      that the length table announces. */
  predicate Restorable(ds: Published)
  {
    && ds.entries.Some? && ds.index.Some? && ds.lengths.Some?
    && 0 <= FromU32(ds.entries.value) <= MAX_CLIPBOARD_ENTRIES
    && -1 <= FromU32(ds.index.value) < MAX_CLIPBOARD_ENTRIES
    && LengthsOk(ds.lengths.value)
    && PairsFit(ds.lengths.value, ds.pairs)
  }

  /** Slot `j` after restore: a fresh buffer cut from its pair's blob when its
      length is positive, otherwise left empty. */
  function RestoredSlot(lengths: seq<int>, pairs: map<int, seq<byte>>, j: int): (slot: Slot)
    requires LengthsOk(lengths) && PairsFit(lengths, pairs) && 0 <= j < MAX_CLIPBOARD_ENTRIES
    ensures slot.Some? <==> lengths[j] > 0
    ensures slot.Some? ==> |slot.value| == lengths[j]
  {
    if lengths[j] <= 0 then None
    else
      var k := j - j % 2;
      assert IsPairKey(lengths, k);
      var halves := DecodePair(pairs[k], lengths[k], lengths[k + 1]);
      Some(if j == k then halves.0 else halves.1)
  }

  /** `lu_state_restore` after `sef_cb_init` has emptied the table. */
  function Restore(ds: Published): (s: State)
    requires Restorable(ds)
    ensures WellFormed(s) && Consistent(s)
    ensures s.lengths == ds.lengths.value
    ensures s.active == FromU32(ds.entries.value) && s.current == FromU32(ds.index.value)
    // exactly the slots with a positive length get a buffer
    ensures forall j :: 0 <= j < MAX_CLIPBOARD_ENTRIES ==> (s.slots[j].Some? <==> s.lengths[j] > 0)
    // and the two halves of each pair join back into the published blob
    ensures forall k {:trigger IsPairKey(s.lengths, k)} :: IsPairKey(s.lengths, k) ==>
      EncodePair(Bytes(s.slots[k]), Bytes(s.slots[k + 1])) == ds.pairs[k]
  {
    var lengths := ds.lengths.value;
    var slots := seq(MAX_CLIPBOARD_ENTRIES, j requires 0 <= j < MAX_CLIPBOARD_ENTRIES =>
      RestoredSlot(lengths, ds.pairs, j));
    var s := State(slots, lengths, FromU32(ds.entries.value), FromU32(ds.index.value));
    forall k {:trigger IsPairKey(lengths, k)} | IsPairKey(lengths, k)
      ensures EncodePair(Bytes(slots[k]), Bytes(slots[k + 1])) == ds.pairs[k]
    {
      EncodeDecodePair(ds.pairs[k], lengths[k], lengths[k + 1]);
    }
    s
  }

  /** One step of the restore loop at the even slot `i`: what the two slots
      of the pair receive. */
  lemma RestoreStep(ds: Published, i: int)
    requires Restorable(ds) && 0 <= i < MAX_CLIPBOARD_ENTRIES && i % 2 == 0
    ensures var lengths := ds.lengths.value;
      && (lengths[i] + lengths[i + 1] > 0 ==>
        && IsPairKey(lengths, i) && i in ds.pairs
        && |ds.pairs[i]| == lengths[i] + lengths[i + 1]
        && RestoredSlot(lengths, ds.pairs, i) == (if lengths[i] > 0 then Some(DecodePair(ds.pairs[i], lengths[i], lengths[i + 1]).0) else None)
        && RestoredSlot(lengths, ds.pairs, i + 1) == (if lengths[i + 1] > 0 then Some(DecodePair(ds.pairs[i], lengths[i], lengths[i + 1]).1) else None))
      && (lengths[i] + lengths[i + 1] <= 0 ==>
        RestoredSlot(lengths, ds.pairs, i).None? && RestoredSlot(lengths, ds.pairs, i + 1).None?)
  {
    PairStep(i);
    var lengths := ds.lengths.value;
    if lengths[i] + lengths[i + 1] > 0 {
      assert IsPairKey(lengths, i);
    }
  }

  /** A table that holds every restored slot is the restored state's table. */
  lemma RestoreOfSlots(ds: Published, slots: seq<Slot>)
    requires Restorable(ds) && |slots| == MAX_CLIPBOARD_ENTRIES
    requires forall j :: 0 <= j < MAX_CLIPBOARD_ENTRIES ==> slots[j] == RestoredSlot(ds.lengths.value, ds.pairs, j)
    ensures Restore(ds).slots == slots
  {
  }

  /** The key set the restore loop deletes grows by the pair at `i`, if any. */
  lemma ReadKeysStep(lengths: seq<int>, i: int)
    requires |lengths| == MAX_CLIPBOARD_ENTRIES && 0 <= i < MAX_CLIPBOARD_ENTRIES && i % 2 == 0
    ensures ReadKeysBelow(lengths, i + 2) == ReadKeysBelow(lengths, i) + (if IsPairKey(lengths, i) then {i} else {})
  {
    PairStep(i);
    assert !IsPairKey(lengths, i + 1);
  }

  /** The data store after restore: the three fixed keys and every pair key
      it read are deleted; anything else is left. */
  function Consumed(ds: Published): (r: Published)
    requires Restorable(ds)
    ensures r.entries.None? && r.index.None? && r.lengths.None?
    ensures forall k :: k in r.pairs <==> k in ds.pairs && !IsPairKey(ds.lengths.value, k)
    ensures forall k :: k in r.pairs ==> r.pairs[k] == ds.pairs[k]
  {
    Published(None, None, None, ds.pairs - ReadKeysBelow(ds.lengths.value, MAX_CLIPBOARD_ENTRIES))
  }

  /** The pair keys that the restore loop has read once `i` has reached `n`. */
  function ReadKeysBelow(lengths: seq<int>, n: int): (keys: set<int>)
    ensures forall k :: k in keys <==> k < n && IsPairKey(lengths, k)
  {
    set k | 0 <= k < n && IsPairKey(lengths, k)
  }

  /** Zero-length buffers become empty slots; the rest is kept. */
  function WithoutEmptyBuffers(slots: seq<Slot>): (r: seq<Slot>)
    ensures |r| == |slots|
    ensures forall j :: 0 <= j < |slots| ==> r[j] == if slots[j] == Some([]) then None else slots[j]
  {
    seq(|slots|, j requires 0 <= j < |slots| => if slots[j] == Some([]) then None else slots[j])
  }

  /** Save then restore gives back the counter, the cursor, every length and
      every slot's buffer, except that a buffer of length 0 (`write` of 0
      bytes) comes back as an empty slot: its pair half is never allocated.
      Whatever stale pair keys the store held before do not matter. */
  lemma SaveRestoreRoundTrip(s: State, ds: Published)
    requires WellFormed(s) && Consistent(s)
    ensures Restorable(Save(s, ds))
    ensures Restore(Save(s, ds)) == s.(slots := WithoutEmptyBuffers(s.slots))
  {
    var p := Save(s, ds);
    assert LengthsOk(s.lengths);
    assert PairsFit(s.lengths, p.pairs);
    var r := Restore(p);
    forall j | 0 <= j < MAX_CLIPBOARD_ENTRIES
      ensures r.slots[j] == WithoutEmptyBuffers(s.slots)[j]
    {
      RestoredSlotOfSaved(s, p.pairs, j);
    }
    assert r.slots == WithoutEmptyBuffers(s.slots);
  }

  /** One slot of the round trip: cut from the blob that save published for
      its pair, a slot gets back its own bytes. */
  lemma RestoredSlotOfSaved(s: State, pairs: map<int, seq<byte>>, j: int)
    requires WellFormed(s) && Consistent(s) && 0 <= j < MAX_CLIPBOARD_ENTRIES
    requires LengthsOk(s.lengths) && PairsFit(s.lengths, pairs)
    requires forall k :: IsPairKey(s.lengths, k) ==> pairs[k] == PairBlob(s, k)
    ensures RestoredSlot(s.lengths, pairs, j) == if s.slots[j] == Some([]) then None else s.slots[j]
  {
    if s.lengths[j] > 0 {
      var k := j - j % 2;
      assert IsPairKey(s.lengths, k);
      DecodeEncodePair(Bytes(s.slots[k]), Bytes(s.slots[k + 1]));
    } else if s.slots[j].Some? {
      assert s.slots[j].value == [];
    }
  }

  /** With no zero-length buffer in the table the round trip is exact. */
  lemma SaveRestoreExact(s: State, ds: Published)
    requires WellFormed(s) && Consistent(s)
    requires forall j :: 0 <= j < MAX_CLIPBOARD_ENTRIES ==> s.slots[j] != Some([])
    ensures Restorable(Save(s, ds)) && Restore(Save(s, ds)) == s
  {
    SaveRestoreRoundTrip(s, ds);
    assert WithoutEmptyBuffers(s.slots) == s.slots;
  }
}
