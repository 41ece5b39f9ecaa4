# Verified model of mesh.pp

This project models five parts of the mesh.pp library and proves what they are
meant to keep. Objects that the C++ code updates in place are classes with the
same fields and methods; pure code is functions; every method is proved against
a specification, and the specifications have lemmas of their own. Member names
follow the C++ names.

**Storage** (`libsystemutility`). `block_file_loader` keeps rows in a byte file
and a list of markers, on shadow (`.tr`) files that are committed or rolled
back. `map_loader` and `vector_loader` put an index or a size, many block files
and an overlay of unsaved edits on top. The main result: over every run of
operations, reopenings and crashes in the middle of a save included, a `map_loader` is three plain maps
(working, saved, committed) and a `vector_loader` three plain sequences
(`MapRuns.Run`, `VectorRuns.Run`). Below it stand the block file, read as a table
of keys and rows (`BlockLoader.Save`, `Erase`, `Compact`), and the block layout
(`BlockLayouts.SaveBlocks`).

- `BlockFormat`, `Compaction`, `Disk`, `BlockLoader`: one block file.
- `FileNames`, `FileSaver`, `BlockLayout`, `Overlay`: many block files, edits.
- `MapLoader`, `MapRuns`, `VectorLoader`, `VectorRuns`: the containers.

The row codec is any pair of functions that loses nothing and writes no empty
row; the key hash is any function, collisions included. The disk maps a path to
the four optional files of a block, stored ones and shadows apart, so that the
frame of a save shows that it touches shadows only. As in the library's own use,
`limit` and `group` are the same whenever a container is opened again.

**Connection table** (`libp2psocket`, `communication_state`). A vector of entries
and six structures of positions in it are proved to be one map from addresses
to entries, whatever is erased and renumbered (`ConnectionTable`,
`CommunicationState`, `ConnectionRuns`, `ConnectionLaws`). As in the library's own use, a peer id
is given to one live address at a time.

**Node state** (`p2pstate_ex`, `kbucket`). The byte-wise exclusive-or distance,
the bounded contact container, the back-off of dropped nodes, and their
composition (`XorDistance`, `KBucket`, `KBucketRuns`, `Backoff`, `NodeState`,
`NodeRuns`).
SHA-256 is any function into numbers below 2^256; collisions are not excluded,
so uniqueness is of ids, not of names.

**Base 58** (`libcryptoutility`). The in-place radix conversion of `to_base58` and
`from_base58`, with the size of its buffer, and the checksummed texts of secret
and public keys (`Radix`, `Base58`, `KeyText`). The hash functions are any
functions giving at least four bytes.

**Sessions** (`libsessionutility`). `session_manager` and the lists of actions it
runs (`SessionActions`, `SessionTraces`, `SessionManager`). The actions are any functions that
complete only in `initiate` or in a `process` that returns true, never become
uncompleted, and keep their type.

## Where the code falls short of what it promises

- `base58_to_pk_hex` answers true, with its output untouched, for every text
  that decodes to four bytes or fewer, which includes every text that is not
  base 58. For every text, `KeyText.PkVerdictRight` gives the exact condition;
  `KeyText.PkAcceptsMalformed` is about all malformed texts and
  `KeyText.PkAcceptsNoKey` about two of them.
- The shortcut that clears a whole block when as many keys are to be erased as
  there are markers is right exactly when the keys are distinct and all stored
  (`FileSavers.ClearAllByCounting`, `FileSavers.RepeatedKeyClearsTooMuch`). Its
  callers in the library meet the condition.
- `remove_later` by address with `send_drop` needs an active entry; otherwise
  `remove_pending` reads a peer id that is not there
  (`ConnectionRuns.DropNeedsPeer`, `ConnectionRuns.DropWithoutPeer`). The library
  calls it with `send_drop` false.
- `add_active` with a peer id that another address has leaves the peer index in
  disagreement, and only then (`CommunicationState.AddActive`).
- `add_active` resets the node id of an entry and can leave a contact of the
  container without an entry (`NodeStates.BackedStep` says exactly when).
- `session_manager` loses a session when an action moves its header to the peer
  or node of another session, and only then (`SessionManagers.ProcessStores`,
  `SessionManagers.AddStores`, and `SessionManagers.SessionLost` for an input);
  in a debug build this is a failed assertion. The assertion inside the loop of
  `process` holds exactly if calls of `process` keep the peer
  (`SessionActions.PeerAssertedAlways`).

## Model

| member | source | states |
|---|---|---|
| BlockFormat.ChecksMeanOrdered | src/libsystemutility/fileutility.cpp:341-363 | The loader's checks of neighbouring markers accept a marker list exactly if any two markers are in order and do not overlap. |
| BlockFormat.KeepLays | src/libsystemutility/fileutility.cpp:569-578 | Dropping markers by position drops exactly the rows at those positions; every other marker still selects its row. |
| BlockFormat.LaysAppend | src/libsystemutility/fileutility.cpp:542-567 | A row encoded at the end of the bytes, with its marker, is one row more and disturbs no other. |
| BlockFormat.LaysUnique | src/libsystemutility/fileutility.cpp:394-438 | Bytes and markers determine the rows: one image cannot be read as two different tables. |
| Compaction.PackedSame | src/libsystemutility/fileutility.cpp:783-835 | After every gap is closed each marker selects the same bytes under the same key, the markers are in order and end where the selected bytes end. |
| Compaction.Measure | src/libsystemutility/fileutility.cpp:730-737 | The first loop finds the number of selected bytes and the number of dead ones below the last marker's end. |
| Compaction.Coalesce | src/libsystemutility/fileutility.cpp:764-781 | Joining neighbouring markers gives ordered chunks over the same bytes; no joined chunk reaches 10 MB. |
| Compaction.Pack | src/libsystemutility/fileutility.cpp:783-796 | The loop that rewrites the markers computes the packed markers. |
| BlockLoaders.MoveStep | src/libsystemutility/fileutility.cpp:801-835 | Moving one chunk down never overwrites a byte that is still to be read. |
| BlockLoaders.BlockLoader.MoveChunks | src/libsystemutility/fileutility.cpp:798-841 | The in-place moves leave the selected bytes, in order, at the front of the file. |
| BlockLoaders.BlockLoader.Compact | src/libsystemutility/fileutility.cpp:721-864 | Every marker selects the same bytes as before; the file ends at the last marker; markers move exactly if dead bytes are at least as many as live bytes, and then no gap is left; with no marker left the file is removed. |
| BlockLoaders.CompactResult | src/libsystemutility/fileutility.cpp:753-849 | Both outcomes of compact, leaving the gaps or closing them, keep the chunks and leave the file tight. |
| BlockLoaders.BlockLoader.CheckMarkers | src/libsystemutility/fileutility.cpp:341-363 | The loop answers true exactly for marker lists that pass the checks. |
| BlockLoaders.BlockLoader.ReadRows | src/libsystemutility/fileutility.cpp:380-438 | Filtering markers by hash and then rows by key reads exactly the stored rows that have one of the keys, with their positions, whatever collides. |
| BlockLoaders.BlockLoader.Load | src/libsystemutility/fileutility.cpp:306-455 | A file whose markers fail the checks is refused; a sound one loads as its stored rows for the keys (all rows for no keys), empty items for missing keys, and the clear-all flag exactly when keys and markers are equally many. |
| FileSavers.LoadedIsTable | src/libsystemutility/fileutility.cpp:365-452 | What was loaded for a key is the stored value, or an empty item exactly if none is stored. |
| FileSavers.ChosenFromAll | src/libsystemutility/fileutility.cpp:370-452 | For any hash, loading chosen keys equals loading every row and looking the keys up. |
| FileSavers.ClearAllByCounting | src/libsystemutility/fileutility.cpp:389-392 | Given as many keys as rows, clearing everything equals erasing key by key if and only if the keys are distinct and all stored. |
| FileSavers.RepeatedKeyClearsTooMuch | src/libsystemutility/fileutility.cpp:389-392 | A repeated key makes the shortcut clear a row that was not asked for. |
| BlockLoaders.SavedTable | src/libsystemutility/fileutility.cpp:542-578 | Appending a row for every loaded key and dropping the old positions gives the old table updated with exactly the loaded keys. |
| BlockLoaders.KeptTable | src/libsystemutility/fileutility.cpp:632-648 | Dropping the loaded keys' positions gives the old table without exactly those keys. |
| BlockLoaders.BlockLoader.AppendRows | src/libsystemutility/fileutility.cpp:542-567 | Every loaded key gets one new row behind the last marker, and the positions to drop are those of its old rows. |
| BlockLoaders.BlockLoader.DropMarkers | src/libsystemutility/fileutility.cpp:569-578 | The in-place removal keeps the other markers in their order. |
| BlockLoaders.BlockLoader.WriteRows | src/libsystemutility/fileutility.cpp:526-613 | After writing, the shadow data holds the kept rows and the new ones; the committed files are untouched. |
| BlockLoaders.BlockLoader.Save | src/libsystemutility/fileutility.cpp:514-628 | The shadow files become sound and hold the old table updated with the loaded items; an unmodified loader writes nothing; the committed files are untouched. |
| BlockLoaders.BlockLoader.Erase | src/libsystemutility/fileutility.cpp:630-681 | The shadow files become sound and hold the old table without the loaded keys, or nothing after the shortcut. |
| BlockLoaders.BlockLoader.SaveMarkers | src/libsystemutility/fileutility.cpp:866-902 | The marker shadow holds the markers, and is absent exactly if there are none. |
| BlockLoaders.SoundPasses | src/libsystemutility/fileutility.cpp:341-363 | Whatever save or erase leaves passes the loader's checks on reload. |
| BlockLoaders.BlockLoader.Commit | src/libsystemutility/fileutility.cpp:683-690 | An open transaction puts the shadow files in place of the stored ones, and nothing happens otherwise. |
| BlockLoaders.BlockLoader.Discard | src/libsystemutility/fileutility.cpp:692-701 | An open transaction removes the shadow files and leaves the stored ones. |
| Disks.Disk.CommitBlock | src/libsystemutility/fileutility.cpp:212-261 | The stored image becomes the shadow image and the shadows are gone. |
| Disks.Disk.RollbackBlock | src/libsystemutility/fileutility.cpp:263-292 | The stored image stays and the shadows are gone. |
| FileNames.BesideBlocks | src/libsystemutility/fileutility.cpp:1370-1383 | The name of the index or size file is never that of a block file. |
| FileNames.BlockNameReads | src/libsystemutility/fileutility.cpp:1370-1383 | A block's name is the container's, a dot and at least four digits, which read as its number; numbers below 10000 have exactly four. |
| FileNames.BlockNameTells | src/libsystemutility/fileutility.cpp:1370-1383 | Different numbers have different names. |
| FileNames.ShadowNames | src/libsystemutility/fileutility.cpp:178-204 | The four names of a block are different, and blocks with different names share none. |
| FileSavers.ReadItem | src/libsystemutility/fileutility.cpp:1033-1054 | Loading one key of a block yields the stored value. |
| FileSavers.ReadWhole | src/libsystemutility/fileutility.cpp:935-966 | Loading a whole block yields its committed table. |
| FileSavers.EraseBlock | src/libsystemutility/fileutility.cpp:1157-1182 | For any keys, one block's shadow loses exactly those keys, or everything when the keys are as many as the rows. |
| FileSavers.UpdateBlock | src/libsystemutility/fileutility.cpp:1157-1189 | One block's shadow is updated with exactly the items given for it. |
| FileSavers.SaveFiles | src/libsystemutility/fileutility.cpp:1062-1218 | Every file that has keys shows its edited table and an open transaction; all other files and all committed images are what they were. |
| FileSavers.CommitBlocks | src/libsystemutility/fileutility.hpp:373-388 | The composite commit commits exactly the blocks whose transaction is open. |
| FileSavers.RollbackBlocks | src/libsystemutility/fileutility.hpp:390-405 | The composite rollback rolls back exactly the blocks whose transaction is open. |
| BlockLayouts.BlocksHoldUnique | src/libsystemutility/fileutility.cpp:1370-1383 | The block files determine the container's map. |
| BlockLayouts.HashedTogether | src/libsystemutility/fileutility.cpp:1370-1383 | Two keys of a map share a block file if and only if their hashes agree modulo limit. |
| BlockLayouts.GroupedTogether | src/libsystemutility/fileutility.cpp:1620-1632 | Two indices of a vector share a block file if and only if their group numbers agree modulo limit. |
| BlockLayouts.CommittedView | src/libsystemutility/fileutility.hpp:373-388 | After the composite commit the stored files hold what the transaction showed. |
| BlockLayouts.StoredKept | src/libsystemutility/fileutility.hpp:390-405 | If the stored files are untouched, the committed map is too. |
| BlockLayouts.GroupAfter | src/libsystemutility/fileutility.cpp:1279-1334 | Editing each block with its own keys is editing the whole map with all the keys. |
| BlockLayouts.SaveBlocks | src/libsystemutility/fileutility.cpp:1306-1334 | One round of saves turns the map over all block files into the edited map; index or size and all committed files stay. |
| Overlays.EditedOverlay | src/libsystemutility/fileutility.hpp:531-564 | A modified overlay entry is the working map with that key set. |
| Overlays.ErasedOverlay | src/libsystemutility/fileutility.hpp:566-601 | The three ways of erasing (new deleted mark, forgetting an unsaved entry, marking a loaded one) all take the key out of the working map. |
| Overlays.Classify | src/libsystemutility/fileutility.cpp:1239-1247 | The keys to erase and to modify are exactly those with the marks, each once. |
| Overlays.SavedIsWorking | src/libsystemutility/fileutility.cpp:1239-1334 | Erasing the deleted keys and writing the modified ones turns the saved map into the working map. |
| MapLoaders.MapLoader.constructor | src/libsystemutility/fileutility.cpp:986-999 | Opening a directory shows its committed contents in all three layers and writes nothing. |
| MapLoaders.EmptyDirectory | src/libsystemutility/fileutility.cpp:986-999 | A directory without files is the empty map. |
| MapLoaders.MapLoader.At | src/libsystemutility/fileutility.hpp:496-529 | Returns the working value or throws exactly for absent keys; no layer changes. |
| MapLoaders.MapLoader.Update | src/libsystemutility/fileutility.hpp:459-494 | Assigning through the reference changes the working value of that key only. |
| MapLoaders.MapLoader.Insert | src/libsystemutility/fileutility.hpp:531-564 | Adds the key exactly if it is absent, and says so. |
| MapLoaders.MapLoader.Erase | src/libsystemutility/fileutility.hpp:566-601 | Takes the key out and says whether it was there; the assertion inside holds. |
| MapLoaders.MapLoader.Clear | src/libsystemutility/fileutility.hpp:613-620 | Empties the working map. |
| MapLoaders.MapLoader.Save | src/libsystemutility/fileutility.cpp:1220-1339 | The saved map becomes the working map, the overlay empties, committed stays; index and block files agree. |
| MapLoaders.MapLoader.SaveGroup | src/libsystemutility/fileutility.cpp:1252-1334 | One round of erasing or writing edits the saved map, the index file and the index alike. |
| MapLoaders.MapLoader.Commit | src/libsystemutility/fileutility.cpp:1360-1368 | Committed becomes saved; the working map stays. |
| MapLoaders.MapLoader.Discard | src/libsystemutility/fileutility.cpp:1341-1358 | All layers become the committed map; no stored file changes. |
| MapLoaders.MapLoader.NothingOpen | src/libsystemutility/fileutility.cpp:1341-1368 | With no transaction open, index equals index_to_rollback and saved equals committed. |
| MapLoaders.MapLoader.CommittedAlways | src/libsystemutility/fileutility.cpp:1220-1339 | Whatever the shadow files hold, the stored files hold the committed map; saving modifies shadows only, so this is so at every moment of it. |
| MapRuns.Run | src/libsystemutility/fileutility.hpp:442-640 | For every sequence of operations, with reopenings and with crashes that leave anything in the shadow files, all answers and all layers are those of three plain maps. |
| MapRuns.RunFromNothing | src/libsystemutility/fileutility.cpp:986-999 | The same from an empty directory, with keys spread by any hash over any positive number of blocks. |
| VectorLoaders.DeletedSlots | src/libsystemutility/fileutility.hpp:819-855 | The deleted overlay slots are exactly the indices from the working size up to the saved size, and slots beyond the saved size are modified. |
| VectorLoaders.SizeFits | src/libsystemutility/fileutility.cpp:1519-1567 | Whatever order the keys come in, the size after erasing and writing is the working size. |
| VectorLoaders.VectorLoader.constructor | src/libsystemutility/fileutility.cpp:1428-1442 | Opening a directory shows its committed sequence in all three layers. |
| VectorLoaders.VectorLoader.At | src/libsystemutility/fileutility.hpp:785-817 | Returns the working element or throws exactly out of range; no layer changes. |
| VectorLoaders.VectorLoader.Update | src/libsystemutility/fileutility.hpp:749-783 | Assigning through the reference changes that element only. |
| VectorLoaders.VectorLoader.PushBack | src/libsystemutility/fileutility.hpp:819-827 | Appends one element, also over a slot deleted before. |
| VectorLoaders.VectorLoader.PopBack | src/libsystemutility/fileutility.hpp:829-846 | Takes the last element away, and fails exactly on an empty vector. |
| VectorLoaders.VectorLoader.Clear | src/libsystemutility/fileutility.hpp:848-855 | Empties the working sequence. |
| VectorLoaders.VectorLoader.Save | src/libsystemutility/fileutility.cpp:1487-1596 | The saved sequence becomes the working one and size equals size_with_overlay. |
| VectorLoaders.VectorLoader.Commit | src/libsystemutility/fileutility.cpp:1611-1618 | Committed becomes saved. |
| VectorLoaders.VectorLoader.Discard | src/libsystemutility/fileutility.cpp:1598-1609 | All layers become the committed sequence; no stored file changes. |
| VectorLoaders.VectorLoader.CommittedAlways | src/libsystemutility/fileutility.cpp:1487-1596 | Whatever the shadow files hold, the stored files hold the committed sequence. |
| VectorRuns.Run | src/libsystemutility/fileutility.hpp:731-880 | For every sequence of operations, with reopenings and with crashes that leave anything in the shadow files, all answers and all layers are those of three plain sequences. |
| VectorRuns.RunFromNothing | src/libsystemutility/fileutility.cpp:1620-1632 | The same from an empty directory, with indices spread by group. |
| CommunicationStates.CommunicationState.AddPassive | src/libp2psocket/p2pstate.cpp:178-240 | Answers fresh exactly for an address that is unknown or whose passive entry is due; the entry then has that address and value, no peer and no removal, and is to be connected to if the address has a remote end and to be listened on if not; all other entries stay; all seven structures agree afterwards. |
| CommunicationStates.CommunicationState.AddActive | src/libp2psocket/p2pstate.cpp:242-287 | The address has an active entry with the peer, nothing left to do, and its removal schedule unchanged; the structures agree afterwards if and only if no other address has the peer id. |
| CommunicationStates.CommunicationState.SetActiveValue | src/libp2psocket/p2pstate.cpp:289-309 | Sets the value of the peer's entry and nothing else. |
| CommunicationStates.CommunicationState.SetValue | src/libp2psocket/p2pstate.cpp:311-331 | Sets the value of the address's entry and nothing else. |
| CommunicationStates.CommunicationState.GetActiveValue | src/libp2psocket/p2pstate.cpp:333-347 | Finds the peer exactly if some entry has it, and returns that entry's value. |
| CommunicationStates.CommunicationState.GetValue | src/libp2psocket/p2pstate.cpp:349-363 | Returns the value stored for the address. |
| CommunicationStates.CommunicationState.DoStep | src/libp2psocket/p2pstate.cpp:365-372 | Every countdown that is not zero goes down by one. |
| CommunicationStates.CommunicationState.RemoveLaterByAddress | src/libp2psocket/p2pstate.cpp:374-388 | Schedules exactly that address, unless only passive entries are wanted and it is active. |
| CommunicationStates.CommunicationState.RemoveLaterByPeer | src/libp2psocket/p2pstate.cpp:390-399 | The peer's entry has exactly the removal asked for, the rest of its row and all other rows stay; true exactly if some entry has the peer. |
| CommunicationStates.CommunicationState.UndoRemove | src/libp2psocket/p2pstate.cpp:401-410 | The peer's entry has no removal, the rest of its row and all other rows stay. |
| CommunicationStates.CommunicationState.RemoveFromTodoList | src/libp2psocket/p2pstate.cpp:519-533 | The address is no longer to listen or connect; true exactly if it was. |
| CommunicationStates.RemoveFromSet | src/libp2psocket/p2pstate.cpp:134-147 | Renumbers a set of positions after one position is erased. |
| CommunicationStates.RemoveFromMap | src/libp2psocket/p2pstate.cpp:149-164 | Renumbers the positions of a map and drops the entry of the erased one. |
| CommunicationStates.CommunicationState.EraseAt | src/libp2psocket/p2pstate.cpp:445-469 | Erasing one position with all its renumbering takes one address out of the table and leaves every other entry as it was. |
| CommunicationStates.ErasedTable | src/libp2psocket/p2pstate.cpp:445-469 | Every survivor keeps address, peer, value, to-do membership and countdown under its new position. |
| CommunicationStates.CommunicationState.CollectDue | src/libp2psocket/p2pstate.cpp:412-440 | Exactly the positions with zero steps are collected and unscheduled. |
| CommunicationStates.CommunicationState.RemovePending | src/libp2psocket/p2pstate.cpp:412-473 | The table loses exactly the due entries; each node id with its flag is notified as often as there are due entries with it, and each peer dropped as often as a due entry asks for it. |
| CommunicationStates.CommunicationState.GetToListen | src/libp2psocket/p2pstate.cpp:475-495 | Lists each address to listen on that is not due, once. |
| CommunicationStates.CommunicationState.GetToConnect | src/libp2psocket/p2pstate.cpp:497-517 | Lists each address to connect to that is not due, once. |
| CommunicationStates.CommunicationState.GetActive | src/libp2psocket/p2pstate.cpp:535-575 | Lists once each active entry not due that has a remote end, or that has none when listening is asked for. |
| ConnectionRuns.Run | src/libp2psocket/p2pstate.cpp:178-533 | Every run of operations ends in the address-keyed table the plain steps describe, with all structures in agreement. |
| ConnectionRuns.ActiveStays | src/libp2psocket/p2pstate.cpp:195-229 | No operation turns an active entry passive. |
| ConnectionRuns.DropsStayActive | src/libp2psocket/p2pstate.cpp:390-399 | An entry that is to be sent a drop is active, after every allowed operation. |
| ConnectionRuns.DropNeedsPeer | src/libp2psocket/p2pstate.cpp:374-388 | Scheduling by address keeps that true if and only if no drop is asked for on a passive entry. |
| ConnectionRuns.DropWithoutPeer | src/libp2psocket/p2pstate.cpp:374-388 | Two operations from an empty table reach a due entry that asks for a drop and has no peer. |
| ConnectionRuns.SurvivesUntilDue | src/libp2psocket/p2pstate.cpp:365-473 | An entry scheduled with n steps is there, with its countdown lowered by the steps made, after every run that does not reschedule it and calls no remove_pending after the n-th step, whatever else is removed. |
| ConnectionRuns.TakenOnceDue | src/libp2psocket/p2pstate.cpp:365-473 | The next remove_pending takes it if and only if n steps have been made. |
| ConnectionLaws.RemoveByPeer | src/libp2psocket/p2pstate.cpp:365-473 | After remove_later by peer with n steps, remove_pending takes the peer's entry if and only if at least n steps were made; it is then notified and dropped as asked, and before that it waits with the steps that are left. |
| ConnectionLaws.UndoneStays | src/libp2psocket/p2pstate.cpp:390-473 | A removal that is undone leaves the entry as it was, also after remove_pending. |
| ConnectionLaws.AddedIsListed | src/libp2psocket/p2pstate.cpp:178-240 | An address just added is in the list to connect to if it has a remote end, else in the list to listen on; if it was unknown, in that one only. |
| ConnectionLaws.ActiveIsListed | src/libp2psocket/p2pstate.cpp:242-287 | An entry just made active is listed as a connection if its address has a remote end, else as listening. |
| ConnectionLaws.FoundByEnd | src/libp2psocket/p2pstate.cpp:170-176 | An entry is found by the remote end of its address whatever the local one, and by the local end if there is no remote one. |
| Radix.RatioBound | src/libcryptoutility/cryptoutility.cpp:580-581 | One comparison of two powers bounds all powers with a fitting ratio of exponents. |
| Radix.ConvertBack | src/libcryptoutility/cryptoutility.cpp:567-608 | Converting between bases with leading zeros kept, and back, is the identity. |
| Base58.RoomToBase58 | src/libcryptoutility/cryptoutility.cpp:580-581 | n * 138 / 100 + 1 cells hold every number of n bytes, for all n. |
| Base58.RoomFromBase58 | src/libcryptoutility/cryptoutility.cpp:662-663 | n * 733 / 1000 + 1 cells hold every number of n symbols, for all n. |
| Base58.ValueSymbol | src/libcryptoutility/cryptoutility.cpp:634-651 | The table of 256 values inverts the alphabet and is -1 elsewhere. |
| Base58.MultiplyStep | src/libcryptoutility/cryptoutility.cpp:588-592 | One cell of the inner loop keeps the value of cells and carry. |
| Base58.MultiplyEnd | src/libcryptoutility/cryptoutility.cpp:588-595 | When the loop ends the carry is zero and the cells in front of the used ones are zero. |
| Base58.MultiplyAdd | src/libcryptoutility/cryptoutility.cpp:584-595 | The in-place loop multiplies the number in the cells and adds the digit, and stays inside the buffer. |
| Base58.ToBase58 | src/libcryptoutility/cryptoutility.cpp:567-608 | The text is the same number in base 58 behind one '1' for each leading zero byte. |
| Base58.FromBase58 | src/libcryptoutility/cryptoutility.cpp:630-696 | One word between spaces decodes to the same number behind one zero byte for each leading '1'; anything else decodes to nothing. |
| Base58.DecodeEncoded | src/libcryptoutility/cryptoutility.cpp:567-696 | Decoding an encoded byte string gives it back, for every byte string. |
| Base58.EncodeDecoded | src/libcryptoutility/cryptoutility.cpp:567-696 | Encoding a decoded text gives it back, for every text over the alphabet. |
| Base58.EncodedExample | src/libcryptoutility/cryptoutility.cpp:567-696 | The bytes 0, 1, 0 are the text 15R and back. |
| Base58.LeadingSpaces | src/libcryptoutility/cryptoutility.cpp:652-654 | Leading white space does not change what a text decodes to. |
| Base58.DecodedFramed | src/libcryptoutility/cryptoutility.cpp:652-686 | A text is base 58 exactly if, up to its first NUL, it is one word over the alphabet with white space around it; it then decodes as that word, and otherwise to nothing. |
| KeyText.WifRoundTrip | src/libcryptoutility/cryptoutility.cpp:742-791 | Every 32-byte secret key comes back from its text, as a number. |
| KeyText.WifTextIs | src/libcryptoutility/cryptoutility.cpp:742-752 | The text of a secret key decodes to 0x80, the key, and the first four bytes of the hash of the hash of both. |
| KeyText.WifAcceptsBytes | src/libcryptoutility/cryptoutility.cpp:760-791 | A text is accepted if and only if it decodes to that form for some 32 bytes, and gives them as a number. |
| KeyText.WifAccepts | src/libcryptoutility/cryptoutility.cpp:760-791 | Any text is accepted if and only if it is the text of a 32-byte key, with white space around it or not, and gives that key. |
| KeyText.WifInjective | src/libcryptoutility/cryptoutility.cpp:742-752 | No two keys share a text. |
| KeyText.PkRoundTrip | src/libcryptoutility/cryptoutility.cpp:798-843 | Every non-empty public key comes back from its text; the empty one leaves the output as it was. |
| KeyText.PkTextIs | src/libcryptoutility/cryptoutility.cpp:798-812 | The text of a public key decodes to the key and the first four bytes of its hash. |
| KeyText.PkAcceptsBytes | src/libcryptoutility/cryptoutility.cpp:814-843 | Over four bytes, the answer is whether the last four are the first four of the hash of the others, and those are then the key. |
| KeyText.PkAccepts | src/libcryptoutility/cryptoutility.cpp:814-843 | For any text the answer is true for key texts, white space around them or not, and gives their key; it is also true for every text of at most four bytes, none of which is a key text. |
| KeyText.PkVerdictRight | src/libcryptoutility/cryptoutility.cpp:814-843 | For any text, the answer tells key texts from all other texts if and only if more than four bytes were decoded. |
| KeyText.KeyTextIsTagged | src/libcryptoutility/cryptoutility.cpp:798-843 | Key texts are exactly the texts that decode to a non-empty key and its checksum. |
| KeyText.PkAcceptsMalformed | src/libcryptoutility/cryptoutility.cpp:814-843 | Every text that is not base 58 is accepted with the output left as it was. |
| KeyText.PkAcceptsNoKey | src/libcryptoutility/cryptoutility.cpp:814-843 | The empty text and a text that is not base 58 are accepted. |
| XorDistance.XorBit | src/kbucket/konnection.hpp:71-101 | Each bit of the result says whether the two ids differ in that bit. |
| XorDistance.CombineByte | src/kbucket/konnection.hpp:85-97 | Setting one byte more, in place, combines one byte more of both numbers. |
| XorDistance.Distance | src/kbucket/konnection.hpp:71-101 | The byte loop computes the full exclusive or of numbers of any lengths. |
| XorDistance.ZeroIffEqual | src/kbucket/konnection.hpp:71-101 | A distance is zero if and only if the ids are equal. |
| XorDistance.Symmetric | src/kbucket/konnection.hpp:71-101 | The distance is symmetric. |
| XorDistance.Triangle | src/kbucket/konnection.hpp:71-101 | The distance satisfies the triangle inequality. |
| XorDistance.DistanceTellsId | src/kbucket/kbucket.hpp:87-89 | From one origin each distance belongs to one id, so unique distances are unique contacts. |
| XorDistance.IndexFromDistance | src/kbucket/kbucket.hpp:32-37 | The halving loop gives the index; zero wraps around to the largest size_t. |
| XorDistance.IndexIsLog | src/kbucket/kbucket.hpp:32-37 | The index is the floor of the binary logarithm. |
| XorDistance.IndexMonotone | src/kbucket/kbucket.hpp:32-37 | A larger distance never has a smaller index. |
| KBuckets.SlotCapacity | src/kbucket/kbucket.hpp:159-180 | Index i holds at most min(K, 2^i) contacts. |
| KBuckets.TotalCapacity | src/kbucket/kbucket.hpp:159-180 | All indices together hold at most 5051 contacts, fewer than 256 * K. |
| KBuckets.OrderDetermined | src/kbucket/kbucket.hpp:87-89 | The set of contacts determines their order. |
| KBuckets.KBucket.Find | src/kbucket/kbucket.hpp:287-291 | Finds the one contact with the id, or the end exactly if there is none. |
| KBuckets.KBucket.Insert | src/kbucket/kbucket.hpp:159-180 | Throws exactly for the origin; adds the contact, and only it, exactly if its id is absent and fewer than 20 contacts have its index. |
| KBuckets.KBucket.Erase | src/kbucket/kbucket.hpp:194-203 | Takes out exactly the contact with the id. |
| KBuckets.KBucket.EraseRange | src/kbucket/kbucket.hpp:182-192 | Takes out the contacts between two positions. |
| KBuckets.KBucket.NodeIds | src/kbucket/kbucket.hpp:243-255 | Lists the ids by distance, nearest first. |
| KBuckets.EmptyNode | src/kbucket/konnection.hpp:49-58 | The empty node id is the number zero. |
| KBucketRuns.BucketedIsBounded | src/kbucket/kbucket.hpp:87-89 | The kept invariant means the bounds, no origin and no id twice, for the plain set of contacts. |
| KBucketRuns.Run | src/kbucket/kbucket.hpp:109-122 | Every run of insert, erase and clear ends in the set the plain steps describe, within the bounds. |
| NodeStates.NodeState.AddContact | src/libp2psocket/p2pstate.cpp:670-680 | Existing for a known id; no contact exactly for an unknown id, not the own one, whose index is full; new, and added, otherwise; throws for the own id. |
| NodeStates.NodeState.PeerOfNode | src/libp2psocket/p2pstate.cpp:847-873 | Finds a peer exactly for the ids among the contacts. |
| NodeStates.StaysBacked | src/libp2psocket/p2pstate.cpp:787-795 | If every contact has a table entry with its node id, it still does after the due entries and their nodes are gone. |
| NodeStates.BackedStep | src/libp2psocket/p2pstate.cpp:178-331 | An operation on the table leaves every contact with an entry that has its node id if and only if it does not overwrite all the entries behind some contact with another id. |
| NodeStates.BackedContact | src/libp2psocket/p2pstate.cpp:670-680 | Adding a contact keeps that property if and only if some entry has its node id. |
| NodeStates.NodeState.RemovePending | src/libp2psocket/p2pstate.cpp:787-795 | The table loses the due entries, the contacts exactly the nodes that those named, and contacts with an entry keep one. |
| NodeStates.NodeState.FilterIntroduceCandidates | src/libp2psocket/p2pstate.cpp:816-837 | Counts and lets through candidates as the plain list functions say; never itself, and no contact. |
| NodeStates.NodeState.ProcessNodeJoin | src/libp2psocket/p2pstate.cpp:897-903 | Forgets the node's drops, except for the empty id. |
| NodeStates.NodeState.ProcessNodeDrop | src/libp2psocket/p2pstate.cpp:905-921 | A first drop waits for one candidate, a later one for ten times more up to 10^12, and none counts while still waiting. |
| NodeRuns.DropedAfter | src/libp2psocket/p2pstate.cpp:816-921 | Over any run of the whole state the dropped nodes are those of the run's own joins, drops and candidate lists. |
| NodeRuns.Run | src/libp2psocket/p2pstate.cpp:608-930 | Every allowed run of the whole state ends in the table, contacts and dropped nodes of the plain steps; drops have peers and contacts stay within bounds. |
| NodeRuns.RunSkips | src/libp2psocket/p2pstate.cpp:816-921 | After a run ending in the k-th drop in a row of a node, the state skips exactly 10^min(k-1,12) occurrences of it. |
| Backoffs.BackoffRun | src/libp2psocket/p2pstate.cpp:816-921 | After any run over all nodes, a node's entry is told by its own drops in a row and tries since. |
| Backoffs.LetThroughAfter | src/libp2psocket/p2pstate.cpp:816-837 | How often a list lets a node through, after any run, in closed form. |
| Backoffs.LetThroughOrder | src/libp2psocket/p2pstate.cpp:816-837 | Candidates are let through in the order of the list. |
| Backoffs.SkippedExactly | src/libp2psocket/p2pstate.cpp:816-921 | After the k-th drop in a row exactly 10^min(k-1,12) occurrences are skipped before one passes. |
| Backoffs.EntriesBounded | src/libp2psocket/p2pstate.cpp:905-921 | In every reachable state limits are powers of ten up to 10^12 and no counter passes its limit. |
| SessionActions.PassLeaves | src/libsessionutility/sessionutility.cpp:306-370 | After a pass that did not fail something unfinished or permanent is left unless all actions are spent, so the assertion on line 367 holds. |
| SessionActions.PeerAssertedAlways | src/libsessionutility/sessionutility.cpp:326-340 | The assertion that the header still names the peer holds for every session and package if and only if the calls of process that leave the loop going keep the peer. |
| SessionActions.AddSound | src/libsessionutility/sessionutility.cpp:214-247 | What add stores is unfinished or permanent, and no permanent type is stored twice. |
| SessionActions.NewSessionBegins | src/libsessionutility/sessionutility.cpp:199-233 | The first action of a new session is always initiated. |
| SessionActions.ProcessInOrder | src/libsessionutility/sessionutility.cpp:306-340 | If actions leave packages alone until initiated, a pass keeps the order: finished actions, one in progress, the rest not begun. |
| SessionActions.AddInOrder | src/libsessionutility/sessionutility.cpp:214-247 | Adding new actions keeps that order. |
| SessionTraces.AddTraced | src/libsessionutility/sessionutility.cpp:214-247 | If add does not fail, each item in turn is passed over as present, or spent, or stored; it is initiated with the header of the moment if all before it completed, and is taken as given otherwise. |
| SessionTraces.BegunWhen | src/libsessionutility/sessionutility.cpp:204-233 | An action is begun if and only if the last stored one had completed and some item is not present. |
| SessionTraces.ProcessTraced | src/libsessionutility/sessionutility.cpp:306-340 | If process does not fail, the actions are offered the package in turn, each with the package and header the one before it left, up to the first that finishes; the next are then initiated up to the first that does not complete; the others stay. |
| SessionManagers.SessionManager.AddItems | src/libsessionutility/sessionutility.cpp:190-247 | The loop of add initiates and stores as the list function says, stopping at an error or exception. |
| SessionManagers.SessionManager.ProcessActions | src/libsessionutility/sessionutility.cpp:294-340 | The loop of process is the list function, and dispose_count is the number of spent actions. |
| SessionManagers.SessionManager.Add | src/libsessionutility/sessionutility.cpp:169-271 | Every stored session is sound and in order; a different header in the way changes nothing; an exception removes the session; otherwise the session has its old actions followed by one for each item, in order, but for those there already and those spent, and waits for the smaller duration from now if an action began. |
| SessionManagers.SessionManager.Process | src/libsessionutility/sessionutility.cpp:282-373 | Stored sessions stay sound and in order; the session keeps, call by call, what is unfinished or permanent, waits for its duration from now if the package was handled and as long as before if not; unknown peers change nothing. |
| SessionManagers.SessionManager.Remove | src/libsessionutility/sessionutility.cpp:273-280 | Takes out the peer's session only. |
| SessionManagers.SessionManager.EraseAllPending | src/libsessionutility/sessionutility.cpp:375-384 | Takes out exactly the sessions whose waiting time is not after now. |
| SessionManagers.HandledWaits | src/libsessionutility/sessionutility.cpp:355-383 | A session that has just handled a package outlasts a time if and only if that time is before now plus its duration. |
| SessionManagers.ProcessStores | src/libsessionutility/sessionutility.cpp:347-370 | After a pass that did not fail and left something, the session is stored under its new header if and only if no other session has its peer or node. |
| SessionManagers.AddStores | src/libsessionutility/sessionutility.cpp:250-268 | The same after add. |
| SessionManagers.NeverLostByProcess | src/libsessionutility/sessionutility.cpp:347-370 | Actions that leave peer and node of the header alone never lose a session with something left. |
| SessionManagers.NeverLostByAdd | src/libsessionutility/sessionutility.cpp:250-268 | The same for add. |
| SessionManagers.SessionLost | src/libsessionutility/sessionutility.cpp:347-370 | Two sessions and an action that moves one to the node of the other: the session with something left is gone, after process and after add. |

## Left out

- Sockets, the packet loop, timers, logging, signatures and the clock: the current time is a parameter of the session operations.
- SHA-256, RIPEMD-160 and the other Crypto++ primitives: hashes are arbitrary functions.
- The text codec of rows and the generated message code: an arbitrary pair of functions that loses nothing and writes no empty row.
- `file_locker`, lock files, settings, processes and the log file: plumbing of the operating system.
- `file_loader`, which keeps one whole file: only the block files and the containers over them are modelled.
- The thread pool of `file_saver_helper`: it has one deferred worker, so the files are taken one after the other.
- Exceptions from a failing disk and the guards that undo half an operation then.
- A crash in the middle of a commit, which changes one file after the other: the crashes of the runs fall anywhere else.
- The byte form of the marker file: markers are typed, so the check that the file's length is a multiple of 24 is not modelled.
- The width of file positions, sizes and counters: they are unbounded, only the wrap-around of `index_from_distance` is written out.
- References kept after `at` returns: an assignment through one is the operation `Update` with a function.
- The second `save` of one `block_file_loader`, whose marker positions are stale after the first.
- Iterators, move constructors, and the iterator that a failed `KBucket::insert` returns: only its flag is modelled.
- `get_peer_id` and `get_address` of `communication_state`, and its `updated` time stamps: simple look-ups, and values nothing reads here.
- `is_peer_verified` and the setters and getters of `p2pstate_ex` that only store a value.
- The variant of `session_manager` without node ids: the variant with both unique keys is the harder one.
- Actions that call back into the session manager while it runs them.
- `nodelookup.hpp`, `words.cpp` and the test programs.
