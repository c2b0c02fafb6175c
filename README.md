# Clipboard character driver (MINIX), modelled in Dafny

The driver `ps347277.c` keeps a clipboard of 100 slots. Each slot holds a
byte buffer of at most 200 bytes or nothing. Beside the slots it keeps:

- a table of recorded lengths, one per slot;
- a counter of active entries;
- one shared cursor, `current_index`.

Its requests behave as follows:

- `write` stores the caller's bytes in the slot under the cursor.
- `read` hands that slot's bytes back, frees the slot and resets its length to 0.
- `ioctl` moves the cursor. Code 100 moves it to the first empty slot, `0..99` selects that slot, and 1337 is a debug dump.

Across a MINIX live update, the old instance publishes its state to the data
store and the new instance reads it back during `sef_cb_init`. The state it
publishes is:

- the counter and the cursor, as two `u32` scalars;
- the length table, as one blob;
- one blob per pair of slots `(2i, 2i+1)`, holding the two buffers' bytes one after the other.

The model has four modules.

- `ClipboardState` holds the constants and the state as a value (`State`). It also defines `WellFormed`, the invariant every request keeps, and `Counted`, which says the counter equals the number of held buffers. The code does not keep `Counted`.
- `Store` models `write`, `read`, `find_first_free_index` and `ioctl` as transitions on `State`. Each carries a contract covering every branch of the C code, and lemmas relate the transitions.
- `LiveUpdate` models the data-store contents (`Published`) and the pair blob codec. It defines save and restore as functions on values, and proves the round trip.
- `Driver` models the globals as a class. The two tables are arrays updated in place, and the counter and cursor are fields. Each handler is a method with the C code's control flow, and it is proved to perform exactly the `Store` or `LiveUpdate` transition on `View()`. The save and restore loops are real loops, with invariants that tie them to `LiveUpdate.Save` and `LiveUpdate.Restore`.

Outside effects become parameters:

- the result of `malloc` (`allocOk`);
- the status of `sys_safecopyfrom` / `sys_safecopyto` (`copyStatus`);
- the caller's buffer: the payload on a write, a capacity on a read;
- the data store, a `Published` value passed in and returned.

## Model

| member | source | states |
|---|---|---|
| `ClipboardState.Reset` | ps347277.c:258-265 | The start state is well formed and consistent. The counter and cursor are 0, every slot is empty and every length is 0. |
| `ClipboardState.ResetCounted` | ps347277.c:262-265 | At the start the counter equals the number of held buffers. |
| `ClipboardState.OccupiedUpdate` | ps347277.c:69-83 | Replacing one slot changes the number of held buffers only by what left and what arrived. |
| `Store.Write` | ps347277.c:55-86 | A full counter or a payload over 200 bytes returns -1 and changes nothing. An allocation failure returns -1, empties the slot and changes nothing else. A copy-in failure returns the copy's status, empties the slot and leaves the lengths and counter alone. On success the slot holds exactly the payload, its length is recorded, the counter rises by one and the size is returned. Only the current slot ever changes. |
| `Store.Read` | ps347277.c:88-117 | A zero counter, or a capacity below the stored length, returns -1 with nothing changed. A copy-out failure returns its status and the entry survives. On success the caller gets exactly the slot's bytes and the stored length is returned. The slot is then freed, its length reset and the counter decremented, and every other slot is untouched. |
| `Store.FirstEmptyFrom` | ps347277.c:124-130 | The result is -1 or the least empty slot at or after the start index. -1 means every slot from there on is held. |
| `Store.FirstFree` | ps347277.c:119-131 | A full counter gives -1. Otherwise the result is the least empty slot, and it is -1 exactly when every slot holds a buffer. |
| `Store.Ioctl` | ps347277.c:146-172 | Only the cursor can change. 1337 is acknowledged with 1337. 100 sets the cursor to the first free slot, or to -1 if there is none, and returns it. Codes 0..99 select that slot. Any other code returns ENOTTY and leaves the state alone. |
| `Store.WriteToEmptyKeepsCount` | ps347277.c:61-85 | Any write, successful or not, to an empty slot keeps the counter truthful. |
| `Store.OverwriteMiscounts` | ps347277.c:69-81 | A successful write over a held slot leaves the counter one above the number of held buffers. |
| `Store.ReadOfOccupiedKeepsCount` | ps347277.c:92-116 | Any read of a held slot keeps the counter truthful. |
| `Store.ReadOfEmptyMiscounts` | ps347277.c:92-116 | A successful read of an empty slot, with a positive counter, leaves the counter one below the number of held buffers. |
| `Store.IoctlKeepsCount` | ps347277.c:152-169 | Control codes never disturb the counter's truthfulness. |
| `Store.WriteThenRead` | ps347277.c:55-117 | A write and then a read of the same slot return the written bytes and size. Afterwards the slot is empty again, its length is 0 and the counter is back where it was. |
| `Store.HelloScenario` | ps347277.c:55-172 | Select 3, write "hello", select 3, read 10 bytes: the read returns 5 and "hello". Selecting 3 and reading again returns -1. |
| `LiveUpdate.ToU32` | ps347277.c:177-178 | Every value in the signed 32-bit range survives `ds_publish_u32` followed by the `(int)` cast in restore. |
| `LiveUpdate.FromU32` | ps347277.c:203-207 | The `(int)` cast of a retrieved `u32_t` always gives a signed 32-bit value. |
| `LiveUpdate.EncodePair` | ps347277.c:187-188 | A pair blob is as long as its two halves together. |
| `LiveUpdate.DecodePair` | ps347277.c:220-228 | Splitting at the first length gives halves of exactly the two recorded lengths. |
| `LiveUpdate.DecodeEncodePair` | ps347277.c:184-228 | Splitting a joined pair at the first half's length gives back both halves. |
| `LiveUpdate.EncodeDecodePair` | ps347277.c:184-228 | Joining the two halves of a split blob gives back the blob. |
| `LiveUpdate.PairBlob` | ps347277.c:186-188 | In a consistent state, a pair blob's length is the sum of the pair's recorded lengths, at most 400. |
| `LiveUpdate.SavedBelow` | ps347277.c:184-190 | After the save loop reaches `n`, exactly the even keys below `n` whose lengths sum above 0 are published, each holding its pair's blob. There are at most `n/2` of them. |
| `LiveUpdate.SavedBelowStep` | ps347277.c:184-190 | One iteration of the save loop publishes the pair at `n` if its lengths sum above 0, and nothing otherwise. |
| `LiveUpdate.Save` | ps347277.c:174-193 | The counter, cursor and length table are published. A pair key is published exactly when the pair's lengths sum above 0, and it holds the two buffers' bytes with the summed length. Other keys keep what they held. At most 50 keys are written. |
| `LiveUpdate.RestoredSlot` | ps347277.c:214-231 | A restored slot gets a buffer exactly when its length is positive, and the buffer has that length. |
| `LiveUpdate.Restore` | ps347277.c:195-233 | The restored state is well formed and consistent, with the published lengths, counter and cursor. Exactly the slots with a positive length hold buffers. Each pair's two halves join back into the published blob. |
| `LiveUpdate.RestoreStep` | ps347277.c:214-231 | One iteration of the restore loop, at even `i`, reads the pair's blob when the lengths sum above 0. Each half with a positive length becomes the slot's buffer. |
| `LiveUpdate.RestoreOfSlots` | ps347277.c:214-231 | A table holding every restored slot is the restored state's table. |
| `LiveUpdate.ReadKeysBelow` | ps347277.c:214-219 | After the restore loop reaches `n`, the keys it has read are exactly the non-empty pair keys below `n`. |
| `LiveUpdate.ReadKeysStep` | ps347277.c:214-219 | One iteration of the restore loop adds the pair key at `i` to the read keys when the pair has content. |
| `LiveUpdate.Consumed` | ps347277.c:201-219 | After restore, the three fixed keys and every pair key that was read are deleted. Every other key is left as it was. |
| `LiveUpdate.WithoutEmptyBuffers` | ps347277.c:220-228 | Zero-length buffers become empty slots, and every other slot is kept. |
| `LiveUpdate.RestoredSlotOfSaved` | ps347277.c:184-231 | Restoring any one slot from what save published gives back that slot's buffer. The exception is a zero-length buffer, which comes back as an empty slot. |
| `LiveUpdate.SaveRestoreRoundTrip` | ps347277.c:174-233 | What save publishes is restorable, whatever stale keys the store held. Restoring it reproduces the counter, cursor, every length and every buffer, with zero-length buffers coming back as empty slots. |
| `LiveUpdate.SaveRestoreExact` | ps347277.c:174-233 | With no zero-length buffer in the table, save followed by restore gives back the identical state. |
| `Driver.Clipboard.constructor` | ps347277.c:262-265 | The globals start in the reset state, with both tables already allocated as `sef_cb_init` allocates them. Before that point the source's table pointers are NULL. |
| `Driver.Clipboard.ResetTables` | ps347277.c:262-265 | The counter and cursor are 0, and both tables are fresh with every slot empty. |
| `Driver.Clipboard.Write` | ps347277.c:55-86 | The handler changes the arrays and counter exactly as `Store.Write` says, and returns its result. |
| `Driver.Clipboard.Read` | ps347277.c:88-117 | The handler changes the arrays and counter exactly as `Store.Read` says, and returns its result and bytes. |
| `Driver.Clipboard.FindFirstFreeIndex` | ps347277.c:119-131 | The search loop returns `Store.FirstFree` of the current table. |
| `Driver.Clipboard.Ioctl` | ps347277.c:146-172 | The handler moves the cursor exactly as `Store.Ioctl` says, and returns its result. |
| `Driver.Clipboard.SaveState` | ps347277.c:174-193 | The save loop produces exactly `LiveUpdate.Save` of the current state. |
| `Driver.Clipboard.RetrieveLengths` | ps347277.c:209-211 | The length table is read back into `clipboard_lengths` unchanged. |
| `Driver.Clipboard.RestorePair` | ps347277.c:215-230 | One pair of slots receives exactly its restored buffers, and no other slot changes. The pair's blob is read exactly when the pair has content. |
| `Driver.Clipboard.RestoreState` | ps347277.c:195-233 | Starting from an emptied table, the globals become `LiveUpdate.Restore` of the data store. The store is left as `LiveUpdate.Consumed`. |
| `Driver.Clipboard.Init` | ps347277.c:258-288 | Every start yields fresh, well-formed tables. A live update restores the published state and consumes the store. A fresh start or a restart yields the reset state with the store untouched. The driver announces itself exactly when the start is not a live update. |
| `Driver.LiveUpdateHandOver` | ps347277.c:174-275 | An old instance saves, and a new one starts with a live update. The new instance ends up holding the old one's state, except that zero-length buffers come back as empty slots, and it does not announce itself. |

The model follows the code in two places where the driver's interface
suggests otherwise:

- A failed `malloc` in `write` leaves the current slot empty, because line 69 stores the pointer before it is checked.
- `ioctl(100)` on a table with no empty slot sets the cursor to -1, instead of leaving it where it was.

## Left out

- `debug_print` (the 1337 dump), `clipboard_open` and `clipboard_close` (which only return OK), `main`, `sef_local_startup`, the callback registrations, `chardriver_task` and `chardriver_announce` are not modelled. They are output or framework plumbing; `Init` returns whether the driver would announce itself.
- The data store's return codes are ignored by the source and are not modelled. A failed retrieve in restore is excluded by the `Restorable` precondition.
- `LiveUpdate.Restore`: requires a data store whose values make a well-formed state, with a blob of the right length for every non-empty pair. That is what `Save` publishes (`SaveRestoreRoundTrip`). On any other store the source reads stale buffers.
- `LiveUpdate.Save`: requires every empty slot to record length 0 (`Consistent`). This excludes a stale length on an empty slot. With a stale length, the published length at line 188 counts bytes that no buffer holds. Restore at lines 221-227 would then cut a buffer for the empty slot out of leftover bytes. Such a state is reachable: a failed allocation or copy-in over a held slot empties the slot and leaves its old length behind. `Consistent` does not keep NULL away from `sprintf`: a pair with one empty half passes NULL even in a consistent state (see `LiveUpdate.PairBlob`).
- `LiveUpdate.PairBlob`: models the pair blob as the plain concatenation of the two buffers. That is what the published length and the restore split assume. The source builds it with `sprintf("%s%s")` at line 187, which differs in three ways:
  - `%s` stops at the first zero byte.
  - `%s` reads past buffers that have no terminator.
  - `%s` is handed NULL for an empty half. That is undefined; common C libraries print "(null)". A pair whose first slot is empty and second slot is held then comes back wrong in the source: slot i+1 gets the first `len[i+1]` bytes of "(null)" followed by the second buffer.

  None of this is modelled. `LiveUpdate.SaveRestoreRoundTrip` and `LiveUpdate.SaveRestoreExact` are therefore properties of the concatenation layout, not of what the `sprintf` call produces.
- `Driver.Clipboard.SaveState`: requires `Consistent`, as `LiveUpdate.Save` does, to exclude stale lengths on empty slots.
- `Driver.Clipboard.RestoreState`: requires a restorable store, as `LiveUpdate.Restore` does, and a table whose slots are all empty. `Init` empties the table before restoring. `sef_cb_init` does not: it only `malloc`s the tables at lines 264-265. In the source, the slots the restore loop skips keep whatever `malloc` returned.
- `Driver.Clipboard.Init`: assumes that the two `malloc` calls of `sef_cb_init` (lines 264-265) succeed. It also assumes the buffer allocations in `lu_state_restore` (lines 222 and 226) succeed. The source checks none of them and would dereference NULL on failure.
- The length table is published and retrieved as raw bytes (`sizeof(int) * 100`). It is modelled as a sequence of integers.
- `ClipboardState.Reset`: the source leaves the freshly `malloc`ed tables uninitialised. The model starts with every slot empty and every length 0.
- `Store.Write`: requires a cursor of at least 0 when the write passes the capacity and size checks. The source then indexes `clipboard[current_index]`, which is out of bounds for the -1 that `ioctl(100)` leaves on a table with no empty slot. A counter below the number of held buffers makes that reachable with fewer than 100 entries counted.
- `Store.Read`: requires a cursor of at least 0 when the counter is positive, for the same reason.
- `Store.Read`: a read of an empty slot whose length is stale passes a NULL pointer to `sys_safecopyto`. The model hands back no bytes from an empty slot.
- `Store.Ioctl`: `request` is an `unsigned long` and is modelled as a `nat`, with no bound from `unsigned long`'s width. Only `==` and `< 100` are ever applied to it, so nothing is lost.
- `ENOTTY` is given MINIX's value, -25. Inside a system process MINIX error codes are negative.
- The `size_t` / `ssize_t` widths of sizes and results are not modelled. Every size that reaches a slot is at most 200.
