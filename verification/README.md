# KCD2MP: verified model of the client core

A Dafny model of the parts of the KCD2MP client whose logic is self-contained: the XML patch merger,
the UTF-8 routines and the menu's edit session, the dressing of remote avatars, the synchronisation of
dropped items and containers, the command queue of the game thread, and the controllers that must
give the game back what they took from it (entities, NPC bindings, the save/load lock), together with
money, the identity store and the frame pacing.

`dafny verify dfyconfig.toml` checks the whole project.

## How the model is built

Code that changes state in place is modelled as a class with the same fields and methods with the same
branches; a loop of the source is a loop here. Each method is proved against a specification on
values, and the promises of the source are proved about that specification as lemmas, or as
invariants (`Valid`) that hold after any run of calls (the `Serve` methods).

The game engine appears as classes whose methods choose freely whether they obey (`RemoteEquipment.Engine`,
`EntityControl.Backend`, `Money.Engine`, `Containers.Inventory`, `NpcBinding.World`). A ghost counter says
how often the engine refused, or silently ignored, a request. Every theorem names the refusals it
tolerates: safety statements hold whatever the engine does, results are stated for runs in which a
counter did not move, or for everything but the items and entities that a ghost set names as displaced or
broken by the engine.

| module | source | main results |
|---|---|---|
| `XmlMerge`, `XmlDocument` | `src/kcd2_init.cpp` | what one merge does to a sibling list; the patch wins, nothing is lost; exactly when a second merge changes nothing, told from base and patch; the in-place merge on heap nodes computes the same tree |
| `Utf8` | `src/gui/localization.cpp` | the validator accepts exactly the concatenated encodings of scalar values, which are unique |
| `TextCutting` | `src/gui/native_multiplayer_menu.cpp`, `src/gui/ingame_chat.cpp` | the forward cut, the backward cut and the backspace cut at scalar values, and the two cuts agree |
| `EditSession` | `src/gui/native_multiplayer_menu.cpp` | over any run of messages the bytes follow an editor on scalar values, within the limits; escape restores |
| `RemoteEquipment` | `src/kcse/native_remote_avatar_equipment.cpp` | no created item leaks and no foreign item is touched on any path; what a successful call reaches and that it is worn; exactly when a second call is silent |
| `WorldItems` | `src/kcse/native_world_item_sync.cpp` | one call of the poll is one step of a per-item automaton; table invariants; no update is sent twice in a row |
| `CommandQueue` | `src/multiplayer/game_command_queue.hpp` | the queue is what the history of calls leaves undelivered |
| `EntityControl` | `src/multiplayer/entity_control.hpp` | switching off restores the world as it would have been |
| `IdentityStore` | `src/multiplayer/identity_store.cpp` | a restart reads back the table that was written |
| `Money` | `src/kcse/native_profile_backend.cpp` | exact total in legal stacks; exactly when it succeeds |
| `NpcBinding` | `src/kcse/native_entity_backend.cpp` | the two tables stay mutually inverse |
| `Containers` | `src/kcse/native_world_object_sync.cpp` | the inventory converges, and a second run changes nothing |
| `SyncPacing` | `src/kcse/plugin.cpp` | exactly one run in every slot of the grid that has a frame |
| `SaveLoadLock` | `src/kcse/native_runtime.cpp` | locked implies active, active implies locked or unloading; exactly when a lock is forgotten |

## Findings

* Merging an XML patch twice is not always the same as merging it once (`src/kcd2_init.cpp:1644-1702`). Two
  siblings with one key in a copied subtree are folded together by the second run
  (`XmlMerge.RawCopyIsFoldedLater`, `XmlMerge.DuplicateKeysAreNotIdempotent`), and because the identifier is a
  concatenation without a separator, an overlay can move an element to another key
  (`XmlMerge.CollidingKeysAreNotIdempotent`). `XmlMerge.MergeIsIdempotentExactly` says when it is the same:
  for a patch without repeated sibling keys, exactly when the base has nothing in the identifying attributes
  that a patch element leaves out, wherever the two are merged. Bases may repeat keys, as elements without
  any identifying attribute do; the one thing asked is that no further sibling with the same key has such a
  patch element in it already.
* When the wire asks for the same item in the same slot twice, a remote avatar never settles
  (`src/kcse/native_remote_avatar_equipment.cpp:186-228`): the second copy is never created, so every further
  call takes the long path again, changes nothing in the inventory, and yet puts a drawn weapon away or fails
  at that (`RemoteEquipment.Avatar.ApplyTwice`, `RemoteEquipment.AskedTwiceNeverSettles`,
  `RemoteEquipment.TwoHelmets`).
* `set_money` looks the money definition up only when there is no stack at all
  (`src/kcse/native_profile_backend.cpp:522-542`), so it fails for a target that does not fit into the stacks
  there are, and only then (`Money.SetMoney` with `Money.CanHold`; `Money.SetMoneyOnOneStack`).
* Picking a dropped item up while its state still waits for an entity does not end the wait
  (`src/kcse/native_world_item_sync.cpp:288-300`): once the entity appears the managed state is the server's
  again and nothing is announced (`WorldItems.PickupDoesNotEndTheWait`). `WorldItems.SilentChangesExactly` says
  exactly when a poll changes a managed state without a word.
* Giving the save/load lock up while the framework is gone forgets it without telling the engine
  (`src/kcse/native_runtime.cpp:2502-2512`). The engine stays blocked without a lock exactly when that is how
  the lock was last given up (`SaveLoadLock.Runtime.RestoreSaveLoad` and `Valid`;
  `SaveLoadLock.EndWithoutFramework` is such a run).

## Model

| member | source | states |
|---|---|---|
| XmlMerge.OverlayLookup | src/kcd2_init.cpp:1685-1694 | after the overlay every name reads the patch's value if the patch has it, else the base's |
| XmlMerge.OverlayKeepsNames | src/kcd2_init.cpp:1685-1694 | the overlay keeps every base attribute at its position under its name and only appends |
| XmlMerge.MergedNodeReads | src/kcd2_init.cpp:1683-1695 | a merged element keeps its name, reads every attribute of the patch element, and its own for every other name |
| XmlMerge.ValueIs | src/kcd2_init.cpp:1649-1656 | an attribute reads as its first occurrence, an absent one as the empty string |
| XmlMerge.IdentifiedBy | src/kcd2_init.cpp:1644-1660 | an element is identified by its name and by Name and Ref in an inventory preset, by EntityId, TargetId and TargetGuid otherwise |
| XmlMerge.FindMatch | src/kcd2_init.cpp:1671-1681 | the match is the first sibling with the same name and identifier, or there is none |
| XmlMerge.MergeIsPointwise | src/kcd2_init.cpp:1663-1702 | with distinct patch keys and kept identifiers the sequential loop is a pointwise merge: each base child with the one patch child that finds it, then the unmatched patch children in order |
| XmlMerge.CounterpartOf | src/kcd2_init.cpp:1683-1700 | in the merged list every patch child finds the base child it found before, merged with it, or its own copy |
| XmlMerge.PatchWins | src/kcd2_init.cpp:1663-1704 | after the merge every patch node has a counterpart carrying all its attribute values, at every depth |
| XmlMerge.TidyAbsorbsItself | src/kcd2_init.cpp:1699 | a copied subtree without repeated sibling keys is already merged with its original |
| XmlMerge.AbsorbedKids | src/kcd2_init.cpp:1663-1702 | a patch that is in force already changes nothing |
| XmlMerge.MergeIsIdempotent | src/kcd2_init.cpp:1663-1704 | for every base: merging a tidy patch twice gives the same tree as once when every merged element keeps its identifier |
| XmlMerge.MergeIsIdempotentExactly | src/kcd2_init.cpp:1644-1704 | a second merge of a tidy patch is silent exactly when the base, wherever the patch is merged into it, has nothing in the identifying attributes the patch leaves out; asked of the base only that no further sibling with the same key has the whole of such a patch element in it already |
| XmlMerge.SingleMatchesHaveNoTwin | src/kcd2_init.cpp:1671-1681 | a base in which no two siblings match one patch element, where the two are merged, meets what the exact theorem asks |
| XmlMerge.UnidentifiedCarriesNothing | src/kcd2_init.cpp:1644-1660 | an element without any identifying value has nothing to carry over, so repeated unidentified siblings never matter |
| XmlMerge.ShortestIsPassedOn | src/kcd2_init.cpp:1644-1702 | the shortest identifier that an overlay changes is found again only at the next untouched base sibling with that key, or nowhere |
| XmlMerge.KeepsKeyExactly | src/kcd2_init.cpp:1644-1660 | an overlay keeps the concatenated identifier exactly when the base has nothing in the identifying attributes the patch leaves out, and otherwise makes it longer |
| XmlMerge.KeysAreKeptExactly | src/kcd2_init.cpp:1644-1702 | the same for a whole merge: all identifiers are kept exactly when nothing identifying is carried over |
| XmlMerge.KeysOnlyGrow | src/kcd2_init.cpp:1663-1702 | merging never shortens a sibling list or the identifier at any position |
| XmlMerge.UnchangedWasAbsorbed | src/kcd2_init.cpp:1663-1702 | a tidy patch leaves a sibling list alone only if it was in force at every depth |
| XmlMerge.IdempotentExactlyWhenPatchWins | src/kcd2_init.cpp:1663-1704 | for every tidy patch and every base at all, a second merge is silent exactly when the first left the whole patch in force |
| XmlMerge.RepeatedElementExactly | src/kcd2_init.cpp:1671-1700 | one patch element against any sibling list: repeating the merge is silent exactly when the element is new, or nothing identifying is carried over and the merge of its children settles, or something is and the next sibling with its key has the element already |
| XmlMerge.NothingIsLost | src/kcd2_init.cpp:1663-1702 | for any patch: every original node keeps its position, name and attribute names at every depth, and a child whose key no patch sibling has is unchanged |
| XmlMerge.NothingIsLostByAll | src/kcd2_init.cpp:1634-1705 | the same after a whole list of patch documents, some of which do not parse; a child whose key no patch has is unchanged |
| XmlMerge.MergeAllOne | src/kcd2_init.cpp:1634-1705 | a list of one parsed document is one merge; one that did not parse changes nothing |
| XmlMerge.MergeAllComposes | src/kcd2_init.cpp:1634-1705 | more documents are merged into what the first ones left |
| XmlMerge.LastPatchIsInForce | src/kcd2_init.cpp:1634-1705 | the list ends with the merge of the last document that parsed, and, tidy and with kept identifiers, that document is in force |
| XmlMerge.RawCopyIsFoldedLater | src/kcd2_init.cpp:1699 | two childless siblings with one key, copied below a parent without attributes, are folded into two equal ones by the second merge |
| XmlMerge.DuplicateKeysAreNotIdempotent | src/kcd2_init.cpp:1697-1700 | a concrete patch with repeated sibling keys whose second merge differs |
| XmlMerge.CollidingKeysAreNotIdempotent | src/kcd2_init.cpp:1647-1651 | a concrete base and patch with colliding identifiers whose second merge appends a copy |
| XmlDocument.Node.CopyOf | src/kcd2_init.cpp:1699 | a deep copy in fresh nodes that stands for the same tree |
| XmlDocument.Node.SetAttributes | src/kcd2_init.cpp:1685-1694 | the attribute loop overlays the patch attributes and touches nothing below the node |
| XmlDocument.Node.FindChild | src/kcd2_init.cpp:1667-1681 | the search loop finds the first child with the patch element's name and identifier |
| XmlDocument.Node.MergeElement | src/kcd2_init.cpp:1683-1696 | one matched element takes the patch attributes and then the patch children, in place |
| XmlDocument.Node.MergeIntoChild | src/kcd2_init.cpp:1695 | the recursion into one child leaves its siblings as they are |
| XmlDocument.Node.MergeChild | src/kcd2_init.cpp:1665-1701 | merging in place or appending a copy gives the tree of the functional merge, without sharing nodes |
| XmlDocument.Node.MergeChildren | src/kcd2_init.cpp:1663-1702 | the recursive in-place merge computes the tree of the functional merge |
| XmlDocument.Node.ApplyPatches | src/kcd2_init.cpp:1634-1705 | the loop over the patch documents computes that list merge in place: the last document that parsed is merged into what the ones before it left and is in force afterwards, none is a no-op, and the root keeps its name and attributes |
| Utf8.ValidUtf8 | src/gui/localization.cpp:29-81 | true exactly for concatenated encodings of Unicode scalar values |
| Utf8.TakeLead | src/gui/localization.cpp:33-56 | for every scalar value whose encoding starts with this byte, the branches yield the length of that encoding and the bits that do not come from continuation bytes |
| Utf8.TakeContinuations | src/gui/localization.cpp:59-66 | the inner loop succeeds exactly on a well-formed sequence and then holds its value |
| Utf8.EncodingIsInjective | src/gui/localization.cpp:29-81 | the scalar values of a valid text are unique |
| Utf8.PrefixCode | src/gui/localization.cpp:33-66 | texts that begin with encoded scalars and are equal begin with the same scalar |
| Utf8.PayloadEncodes | src/gui/localization.cpp:59-75 | a sequence that passes the overlong, range and surrogate checks is the encoding of its value |
| Utf8.EncodePayload | src/gui/localization.cpp:59-66 | the value bits of an encoded scalar are that scalar |
| Utf8.EncodeIsSequence | src/gui/localization.cpp:67-75 | no encoding is overlong or malformed |
| Utf8.ValidFromTheFront | src/gui/localization.cpp:31-79 | a text is valid exactly when it starts with one encoded scalar and the rest is valid |
| Utf8.MasksAreArithmetic | src/gui/localization.cpp:39-66 | the bit masks of the source are the arithmetic of the model |
| Utf8.ShiftIsTimes64 | src/gui/localization.cpp:65 | shifting six bits in is the multiplication of the model, and the code point has room for it |
| TextCutting.Utf8Prefix | src/gui/native_multiplayer_menu.cpp:113-132 | the forward scan returns a prefix within the capacity, on valid text the longest one of whole scalar values |
| TextCutting.FitIsGreatest | src/gui/native_multiplayer_menu.cpp:113-132 | one scalar value more than the cut keeps would not fit |
| TextCutting.TextField.TrimToCapacity | src/gui/ingame_chat.cpp:63-76 | the backward scan returns the longest prefix of whole scalar values within the maximum |
| TextCutting.CutsAgree | src/gui/ingame_chat.cpp:63-76 | run on the same valid text with the same limit, the menu's forward cut and the chat's backward cut give the same valid text |
| TextCutting.TextField.EraseLastCharacter | src/gui/native_multiplayer_menu.cpp:102-111 | removes exactly the last scalar value of a valid text, and something of any non-empty text |
| TextCutting.LeadOrContinuation | src/gui/native_multiplayer_menu.cpp:107-109 | inside valid text a byte is a continuation byte exactly when no scalar begins there |
| TextCutting.BackToBoundary | src/gui/ingame_chat.cpp:70-74 | scanning back over continuation bytes ends on the last scalar boundary at or before the start |
| TextCutting.AtBoundary | src/gui/native_multiplayer_menu.cpp:118-130 | at a scalar boundary the lead byte announces exactly that scalar's length |
| EditSession.StepStaysWithinLimits | src/gui/native_multiplayer_menu.cpp:827-883 | no message takes a field over its byte limit |
| EditSession.RunStaysWithinLimits | src/gui/native_multiplayer_menu.cpp:815-889 | nor does any run of messages |
| EditSession.OnlyTheEditedFieldChanges | src/gui/native_multiplayer_menu.cpp:815-889 | until enter or escape a run changes nothing but the text of the edited field |
| EditSession.EscapeRestores | src/gui/native_multiplayer_menu.cpp:831-837 | after any typing, pasting and erasing, escape puts every field back as it was at the start of the edit |
| EditSession.StrippingIsByScalars | src/gui/native_multiplayer_menu.cpp:856-865 | deleting CR, LF and TAB bytes deletes exactly those characters, so valid text stays valid |
| EditSession.StripControlsIs | src/gui/native_multiplayer_menu.cpp:856-865 | byte by byte, only 0x0D, 0x0A and 0x09 are left out |
| EditSession.AsciiCharacter | src/gui/native_multiplayer_menu.cpp:876-879 | the byte test of the address field is a test for one printable ASCII character |
| EditSession.Menu.BeginEditing | src/gui/native_multiplayer_menu.cpp:469-477 | opens the edit of the chosen field and remembers the text of that field |
| EditSession.Menu.PasteClipboard | src/gui/native_multiplayer_menu.cpp:855-867 | the old text followed by the longest run of whole characters of the stripped clipboard that fits in 255 bytes for the password and 63 otherwise |
| EditSession.Menu.TypeCharacter | src/gui/native_multiplayer_menu.cpp:874-881 | the old text followed by the character if the field takes it and it fits in 255 or 63 bytes, else the old text; the address takes one byte from 0x21 to 0x7E only |
| EditSession.Menu.EraseLast | src/gui/native_multiplayer_menu.cpp:846-851 | erases the last character of the edited field and nothing else |
| EditSession.WithoutLastIs | src/gui/native_multiplayer_menu.cpp:102-111 | what a backspace leaves of a text and one more character is that text |
| EditSession.LongestOfIs | src/gui/native_multiplayer_menu.cpp:855-867 | what a paste adds is the longest prefix of whole characters of the stripped clipboard |
| EditSession.Menu.CancelEdit | src/gui/native_multiplayer_menu.cpp:831-837 | escape ends the edit with the text from before it |
| EditSession.Menu.CommitEdit | src/gui/native_multiplayer_menu.cpp:838-845 | enter ends the edit and leaves the text |
| EditSession.Menu.OnCharacter | src/gui/native_multiplayer_menu.cpp:871-883 | control characters are not for the edit; others are typed |
| EditSession.Menu.OnKey | src/gui/native_multiplayer_menu.cpp:831-870 | what each of the four editing keys leaves in the bytes of the edited field |
| EditSession.Menu.OnWindowMessage | src/gui/native_multiplayer_menu.cpp:815-889 | one message is one step of the editor on scalar values; on the bytes of the edited field, what every kind of message leaves; which messages are swallowed and which make the page redraw |
| EditSession.HandleAll | src/gui/native_multiplayer_menu.cpp:815-889 | over any run of messages the bytes follow that editor, valid and within the limits |
| RemoteEquipment.MatchTracked | src/kcse/native_remote_avatar_equipment.cpp:166-184 | greedy matching keeps, of every key, as many entries as are both wanted and tracked |
| RemoteEquipment.MatchOne | src/kcse/native_remote_avatar_equipment.cpp:173-183 | taking a free entry of the wanted key keeps the matching exact |
| RemoteEquipment.MatchNone | src/kcse/native_remote_avatar_equipment.cpp:171-183 | finding no free entry of the wanted key keeps it exact too |
| RemoteEquipment.FindUnretained | src/kcse/native_remote_avatar_equipment.cpp:171-183 | finds a free entry of the wanted key if there is one |
| RemoteEquipment.ChangedExactly | src/kcse/native_remote_avatar_equipment.cpp:186-187 | the two length comparisons tell exactly whether the wanted and the tracked multisets differ |
| RemoteEquipment.KeptAreNotStale | src/kcse/native_remote_avatar_equipment.cpp:173-183 | no entry that is carried over names an item that is about to be removed |
| RemoteEquipment.CollectWanted | src/kcse/native_remote_avatar_equipment.cpp:129-157 | fails exactly when a definition does not parse, else yields the items the database knows, in order |
| RemoteEquipment.AvailableIs | src/kcse/native_remote_avatar_equipment.cpp:131-157 | an item is kept, in its place, exactly if its definition parses and the database has the class |
| RemoteEquipment.SortByLayer | src/kcse/native_remote_avatar_equipment.cpp:158-164 | a permutation in ascending layers; the order inside a layer is left open |
| RemoteEquipment.Avatar.RemoveNative | src/kcse/native_remote_avatar_equipment.cpp:55-81 | success exactly when the item is gone; other items stay, however they are worn then |
| RemoteEquipment.Avatar.RemoveEntry | src/kcse/native_remote_avatar_equipment.cpp:104-118 | an entry whose item is already gone counts as removed; other items stay |
| RemoteEquipment.Avatar.Clear | src/kcse/native_remote_avatar_equipment.cpp:98-121 | on success nothing this code created is left in the inventory; on failure the list still names what is |
| RemoteEquipment.Avatar.RemoveStale | src/kcse/native_remote_avatar_equipment.cpp:200-214 | removes the native items of the entries that were not retained and spares everything else, retained items included |
| RemoteEquipment.Avatar.DropStale | src/kcse/native_remote_avatar_equipment.cpp:200-215 | the list is swapped only after all stale items are gone, so nothing leaks on the early return; items of the kept entries stay on every exit |
| RemoteEquipment.Avatar.CreateNative | src/kcse/native_remote_avatar_equipment.cpp:238-268 | a created item gets an id that is nowhere in use, and no other item is touched |
| RemoteEquipment.Avatar.CreateTagged | src/kcse/native_remote_avatar_equipment.cpp:238-273 | a created item is tagged with an unused id and listed before anything else can fail |
| RemoteEquipment.Avatar.Discard | src/kcse/native_remote_avatar_equipment.cpp:83-95 | a rejected item leaves together with its entry, or both stay |
| RemoteEquipment.Avatar.Dress | src/kcse/native_remote_avatar_equipment.cpp:238-341 | accepted items are worn in the wanted slot, refused ones leave neither entry nor item, a rejected item that stays is still listed, and every other item is worn as before unless it was displaced |
| RemoteEquipment.Avatar.DressMissing | src/kcse/native_remote_avatar_equipment.cpp:217-342 | one round: an item that is tracked already is skipped, a refused one is passed over, and only a rejected item that stays ends the call |
| RemoteEquipment.Avatar.CreateMissing | src/kcse/native_remote_avatar_equipment.cpp:217-342 | new entries are wanted, in layer order and worn in their slots unless a request for another item displaced them; everything is covered if the engine refused nothing; nothing happens when everything is tracked |
| RemoteEquipment.Avatar.Replace | src/kcse/native_remote_avatar_equipment.cpp:200-343 | stale items go before the first new one is created, items of the kept entries stay on every exit, and if there is nothing to do the inventory is not touched |
| RemoteEquipment.Avatar.Refit | src/kcse/native_remote_avatar_equipment.cpp:190-343 | nothing is removed or created while a weapon is drawn, a refused holster ends the call unchanged, and success leaves no weapon drawn |
| RemoteEquipment.Avatar.Apply | src/kcse/native_remote_avatar_equipment.cpp:123-344 | no leak and no foreign item touched on any exit; on success the list starts with entries of the old list, of every key as many as are both wanted and tracked, whose items are still the same, and every further entry is wanted and worn in its slot unless a request for another item displaced it; it succeeds if the engine refuses nothing; when nothing differs nothing is done |
| RemoteEquipment.Avatar.ApplyTwice | src/kcse/native_remote_avatar_equipment.cpp:166-344 | after a call that the engine obeyed everything wanted is tracked exactly when nothing is wanted twice, and then the same call again changes nothing; otherwise it creates and removes nothing, and succeeds exactly if it leaves no weapon drawn |
| RemoteEquipment.AllTrackedExactly | src/kcse/native_remote_avatar_equipment.cpp:219-228 | entries that cover the wanted items once each are all of them exactly when no item is wanted twice |
| RemoteEquipment.ReachedIsWorn | src/kcse/native_remote_avatar_equipment.cpp:282-328 | when nothing was displaced, every new entry is worn in its slot at the end of a successful call |
| RemoteEquipment.CoveredIsRetained | src/kcse/native_remote_avatar_equipment.cpp:166-184 | tracked entries that are all wanted are all retained, so the new list holds the same entries |
| RemoteEquipment.AskedTwiceNeverSettles | src/kcse/native_remote_avatar_equipment.cpp:219-228 | a list that asks for one item in one slot twice is never all tracked |
| RemoteEquipment.TwoHelmets | src/kcse/native_remote_avatar_equipment.cpp:219-228 | such a list, concretely |
| RemoteEquipment.Avatar.Serve | src/kcse/native_remote_avatar_equipment.cpp:98-344 | over any run of apply and clear calls, a weapon being drawn in between or not, every created item still in the inventory is listed |
| WorldItems.PollKeepsValid | src/kcse/native_world_item_sync.cpp:222-301 | a poll keeps an item out of two tables at once, defers only managed items, and keeps the last update visible in the managed state |
| WorldItems.InitialItem | src/kcse/native_world_item_sync.cpp:235-249 | an item of the start that was picked up is managed as absent and reported so once, with its item and transform; one that was not is left alone |
| WorldItems.UnseenItem | src/kcse/native_world_item_sync.cpp:288-300 | a present managed item that is not seen is reported absent, once, exactly if it is carried |
| WorldItems.AbsentItem | src/kcse/native_world_item_sync.cpp:288-300 | an absent item that is not seen is left alone |
| WorldItems.SeenItem | src/kcse/native_world_item_sync.cpp:266-286 | an item that is seen is reported exactly if presence, item or transform differ from what is managed |
| WorldItems.InitialItemSeen | src/kcse/native_world_item_sync.cpp:273-274 | an initial item that lies in the world is not reported |
| WorldItems.WaitingItem | src/kcse/native_world_item_sync.cpp:251-263 | a waiting state that is moved into place is managed from then on, without an update; one that is not stays waiting |
| WorldItems.UnchangedIsSilent | src/kcse/native_world_item_sync.cpp:273-283 | an item that the world shows as it is managed is not reported |
| WorldItems.AppliedIsSilent | src/kcse/native_world_item_sync.cpp:222-301 | after the server's state has been placed, a poll that finds it unchanged sends nothing |
| WorldItems.CompletedIsSilent | src/kcse/native_world_item_sync.cpp:251-263 | a deferred state that is moved into place ends up as if it had been placed at once, unannounced |
| WorldItems.SecondPollIsSilentExactly | src/kcse/native_world_item_sync.cpp:222-301 | a second poll that finds the same things changes nothing exactly when the item is still an initial one or was shown in one state only |
| WorldItems.ChangesAreAnnounced | src/kcse/native_world_item_sync.cpp:237-300 | every change of a managed state by a poll is announced or is the server's own deferred state |
| WorldItems.SilentChangesExactly | src/kcse/native_world_item_sync.cpp:237-300 | a poll changes a managed state without an update exactly when a deferred state other than the managed one moves into place and the world then shows nothing else, or shows nothing and the item is not picked up at once |
| WorldItems.PickupDoesNotEndTheWait | src/kcse/native_world_item_sync.cpp:288-300 | picking up a waiting item announces its removal but leaves it waiting; when its entity appears, dropped again or still carried, the managed state is the server's again and nothing is announced |
| WorldItems.SuccessiveUpdatesDiffer | src/kcse/native_world_item_sync.cpp:273-285 | two updates for one item with no server state taking effect in between differ |
| WorldItems.CountsAreOfUpdates | src/kcse/native_world_item_sync.cpp:303-314 | the number of reports about an item is the number of its updates in the history |
| WorldItems.LatestIsNew | src/kcse/native_world_item_sync.cpp:222-301 | an item that was reported since some moment has its last report among the updates since then |
| WorldItems.LinkedExactly | src/kcse/native_world_item_sync.cpp:57-70 | an item has a world entity if the first one registered under its id has |
| WorldItems.CapturesAre | src/kcse/native_world_item_sync.cpp:266-272 | what is captured under one id is what its registered items yield, in order |
| WorldItems.Sync.TakeCarried | src/kcse/native_world_item_sync.cpp:235-249 | initial items found in the inventory become managed and are reported gone, all others stay |
| WorldItems.Sync.CompleteDeferred | src/kcse/native_world_item_sync.cpp:251-263 | deferred states with an entity that could be moved become managed, all others stay |
| WorldItems.Sync.ObserveNative | src/kcse/native_world_item_sync.cpp:268-285 | one registered item concerns the row of its own id and no other |
| WorldItems.Sync.ObserveWorld | src/kcse/native_world_item_sync.cpp:265-286 | every item takes the observations of its own id, in order, and the ids seen are exactly those captured |
| WorldItems.Sync.NoticePickups | src/kcse/native_world_item_sync.cpp:288-300 | managed present items that were not seen but are carried are reported gone, all others stay |
| WorldItems.Sync.Process | src/kcse/native_world_item_sync.cpp:222-301 | every sixth call is one step of every item's automaton, the other calls change no table; updates are only appended, and the last report of every item that was reported is among the new ones |
| WorldItems.Sync.PollAfterPickup | src/kcse/native_world_item_sync.cpp:235-249 | after the poll that finds an initial item in the inventory, the item is managed as absent and that state is among the queued updates |
| WorldItems.Sync.PollWhileUnlinked | src/kcse/native_world_item_sync.cpp:252-263 | a waiting state stays waiting while its item has no world entity |
| WorldItems.Sync.PollUpdates | src/kcse/native_world_item_sync.cpp:303-314 | hands out everything queued, oldest first, and empties the queue |
| WorldItems.Sync.Apply | src/kcse/native_world_item_sync.cpp:343-424 | on success the server's state is in the managed table, in the deferred table exactly when it is present without an entity, and no longer in the initial one; on failure nothing changed; other items are untouched |
| WorldItems.Sync.Start | src/kcse/native_world_item_sync.cpp:201-220 | a session starts with exactly the captured items as initial and nothing managed or queued |
| WorldItems.Sync.Clear | src/kcse/native_world_item_sync.cpp:426-435 | empties every table and the queue |
| WorldItems.Sync.Serve | src/kcse/native_world_item_sync.cpp:201-435 | over any run of calls the table invariants hold and queued plus delivered updates are those of the history, none repeated |
| CommandQueue.Queue.Push | src/multiplayer/game_command_queue.hpp:20-59 | accepted exactly if there is room, or a snapshot is queued and the message is a snapshot or reliable; where it lands; and that a reliable non-snapshot fails exactly when the queue is full of non-snapshots |
| CommandQueue.Queue.Drain | src/multiplayer/game_command_queue.hpp:61-74 | hands out the front of the queue; accepted is delivered plus queued, and a snapshot that goes out is the newest pushed |
| CommandQueue.Queue.Clear | src/multiplayer/game_command_queue.hpp:82-86 | empties the queue and restarts the account of accepted messages |
| CommandQueue.Replaced | src/multiplayer/game_command_queue.hpp:25-36 | replacing the queued snapshot keeps the other messages and their order |
| CommandQueue.Evicted | src/multiplayer/game_command_queue.hpp:44-54 | evicting the queued snapshot keeps the other messages and their order |
| CommandQueue.OnlyOne | src/multiplayer/game_command_queue.hpp:27-35 | around the queued snapshot there is no other |
| EntityControl.Controller.SetDisabled | src/multiplayer/entity_control.hpp:50-86 | switched off, every entity that no setter ever failed on is as it would have been; counts of affected, restored and failed; only chosen entities are controlled |
| EntityControl.Controller.SwitchOnAndOff | src/multiplayer/entity_control.hpp:50-86 | switched on and off again, every entity that no setter failed on is as it was |
| EntityControl.Controller.DisableAll | src/multiplayer/entity_control.hpp:61-70 | exactly the eligible non-player entities of the list are controlled when no setter fails |
| EntityControl.Controller.DisableNext | src/multiplayer/entity_control.hpp:63-68 | the next entity of the list, whatever the ones before it did |
| EntityControl.Controller.ReleaseAll | src/multiplayer/entity_control.hpp:72-85 | gives every controlled entity up, restored or counted as failed |
| EntityControl.Controller.Disable | src/multiplayer/entity_control.hpp:148-170 | the entity is hidden and inactive and its state from before is on record, or nothing is recorded; if the setters obey after one failure, the entity is as it was |
| EntityControl.Controller.HideAndStop | src/multiplayer/entity_control.hpp:158-165 | both setters, and both attributes set back when one of them fails |
| EntityControl.Controller.Restore | src/multiplayer/entity_control.hpp:172-179 | success exactly when neither setter failed, and then the recorded state is back |
| EntityControl.Controller.Release | src/multiplayer/entity_control.hpp:75-83 | restores one controlled entity and forgets it, whether or not the setters obeyed |
| EntityControl.Controller.EntityCreated | src/multiplayer/entity_control.hpp:88-92 | a new entity is controlled only while the control is on |
| EntityControl.Controller.EntityDestroyed | src/multiplayer/entity_control.hpp:94-98 | forgets the entity as controlled and as player |
| EntityControl.Controller.RegisterPlayer | src/multiplayer/entity_control.hpp:100-125 | a player is never controlled, and one that was gets its own state back |
| EntityControl.Controller.UnregisterPlayer | src/multiplayer/entity_control.hpp:127-130 | forgets the player and keeps all invariants |
| EntityControl.Controller.Serve | src/multiplayer/entity_control.hpp:50-179 | over any run of calls players are never controlled, nothing is controlled while the control is off, and then every entity that no setter ever failed on is as it would have been |
| IdentityStore.RoundTrip | src/multiplayer/identity_store.cpp:171-228 | reading what was written gives the table back, in whatever order the table was listed |
| IdentityStore.ReadBack | src/multiplayer/identity_store.cpp:188-212 | reading printed entries adds exactly those entries to any table |
| IdentityStore.ParsedIsWellFormed | src/multiplayer/identity_store.cpp:188-212 | whatever the file holds, a table that loads is well formed |
| IdentityStore.PrintIs | src/multiplayer/identity_store.cpp:221-225 | one line an entry: id, equals sign, token, line feed |
| IdentityStore.ReadLineIs | src/multiplayer/identity_store.cpp:195-206 | a line is empty, or an id and a token split at the first equals sign, both non-empty; all else is malformed; the first token of an id wins |
| IdentityStore.AscendingIsUnique | src/multiplayer/identity_store.cpp:217-220 | sorting makes the text independent of the hash map's order |
| IdentityStore.LessExactly | src/multiplayer/identity_store.cpp:220 | the order of the file: a proper prefix first, otherwise the first difference decides |
| IdentityStore.SortedEntries | src/multiplayer/identity_store.cpp:217-220 | lists every entry of the table once, ascending |
| IdentityStore.Store.LoadLine | src/multiplayer/identity_store.cpp:191-211 | one round of the scan reads one line, an id that is there already keeping its token |
| IdentityStore.Store.LoadText | src/multiplayer/identity_store.cpp:188-212 | the scanning loop reads what the line grammar says and fails exactly on a malformed line |
| IdentityStore.Store.Load | src/multiplayer/identity_store.cpp:171-213 | a missing file is an empty table, an unreadable or malformed one an error |
| IdentityStore.Store.Save | src/multiplayer/identity_store.cpp:215-228 | writes the ascending listing or leaves the old file |
| IdentityStore.Store.Put | src/multiplayer/identity_store.cpp:129-139 | rejects exactly what could break the text form, else updates the table, and on success memory and file agree |
| IdentityStore.Store.Erase | src/multiplayer/identity_store.cpp:141-147 | removes the entry and writes only if there was one |
| IdentityStore.Store.Restart | src/multiplayer/identity_store.cpp:114-118 | a second store on the same file has the same table |
| IdentityStore.Store.TokenSurvivesRestart | src/multiplayer/identity_store.cpp:120-127 | the token of a server is the same before and after a restart |
| Money.SetMoney | src/kcse/native_profile_backend.cpp:497-598 | on success the stacks hold exactly ten times the money plus the subunits, each from 1 to 0x7FFFFFFF, and other items are untouched; with an engine that refuses nothing it succeeds exactly when the target is at most 2000000000 and 9, and fits into the existing stacks, or there is none and a definition |
| Money.Distribute | src/kcse/native_profile_backend.cpp:544-590 | the existing stacks are filled one after the other, each with all that is left up to a full one, and only the rest goes into new stacks |
| Money.SettleStacks | src/kcse/native_profile_backend.cpp:554-574 | what remains after the existing stacks took what they can |
| Money.Settle | src/kcse/native_profile_backend.cpp:556-573 | one stack takes as much as it can hold, or goes when nothing remains |
| Money.CollectStacks | src/kcse/native_profile_backend.cpp:517-520 | finds exactly the money stacks, in inventory order |
| Money.CreateStacks | src/kcse/native_profile_backend.cpp:575-589 | new stacks add exactly what remained, each legal |
| Money.SettlingStep | src/kcse/native_profile_backend.cpp:556-573 | one stack settled keeps the account of taken and remaining money exact |
| Money.Capture | src/kcse/native_profile_backend.cpp:211-246 | the reported pair is the total of all stacks |
| Money.TotalIs | src/kcse/native_profile_backend.cpp:213-222 | the total counts every present stack of money with its amount and nothing else |
| Money.SetThenCapture | src/kcse/native_profile_backend.cpp:497-598 | what was set is what the reader reports |
| Money.OneStackCannotHold | src/kcse/native_profile_backend.cpp:522-542 | a concrete input: one small stack, a valid target above a full stack, and a definition that would have allowed more |
| Money.SetMoneyOnOneStack | src/kcse/native_profile_backend.cpp:497-598 | on that input the call fails whatever the engine does |
| NpcBinding.Bindings.ApplyNpcState | src/kcse/native_entity_backend.cpp:1496-1670 | the entity is the one the NPC is bound to, else the one with its guid, else a new one; it is adopted exactly if its kind fits and no other NPC has it; a kept entity keeps its recorded state and generation, a new record holds the state it was met in; an entity that is given up is restored; others are untouched |
| NpcBinding.Bindings.Locate | src/kcse/native_entity_backend.cpp:1514-1554 | which entity a state is about, and that a new one is only made when there is none |
| NpcBinding.Bindings.Adopt | src/kcse/native_entity_backend.cpp:1573-1603 | the record is made, or kept, before the entity is taken over |
| NpcBinding.Bindings.Bind | src/kcse/native_entity_backend.cpp:1573-1598 | rebinding gives the old entity up, restored, and remembers the state of the new one; keeping the entity keeps what is remembered |
| NpcBinding.Bindings.Release | src/kcse/native_entity_backend.cpp:1574-1584 | both tables forget the pair and the entity gets its recorded state back |
| NpcBinding.Bindings.RemoveNpcState | src/kcse/native_entity_backend.cpp:1673-1688 | only the interest flag of the matching generation is cleared, and no other entity is touched |
| NpcBinding.Bindings.EntityRemoved | src/kcse/native_entity_backend.cpp:2092-2109 | the NPC stays known but unbound |
| NpcBinding.Bindings.RestoreWorld | src/kcse/native_entity_backend.cpp:1695-1731 | every bound entity that still exists is back in the state it was found in when it was bound, and both tables are empty |
| NpcBinding.Bindings.Serve | src/kcse/native_entity_backend.cpp:1496-2109 | over any run of calls, with entities coming, going and changing in between, the two tables are mutually inverse, so no entity carries two NPC ids, and every bound entity's record is the state it was found in |
| Containers.Inventory.ApplyInventory | src/kcse/native_world_object_sync.cpp:306-405 | on success, removals obeyed, the inventory has exactly the wanted ids with the wanted definition, count, condition and, where it matters, quality; it succeeds exactly when nothing is refused, items that are there have the wanted definition and the others parse; a converged inventory is not touched |
| Containers.Inventory.RemoveUnwanted | src/kcse/native_world_object_sync.cpp:328-340 | only unlisted items go |
| Containers.Inventory.Provide | src/kcse/native_world_object_sync.cpp:341-402 | exactly when one wanted item can be provided, and that an item that agrees is neither created nor resized |
| Containers.Inventory.ProvideAll | src/kcse/native_world_object_sync.cpp:341-402 | the same for all wanted items, in any order, stopping at the first failure |
| Containers.Inventory.ApplyTwice | src/kcse/native_world_object_sync.cpp:306-405 | a second run after a successful one creates, removes and resizes nothing |
| SyncPacing.Schedule.RemoteSyncDue | src/kcse/plugin.cpp:85-111 | the catch-up loop ends on the first boundary after now on the grid of the old deadline; a new rate starts a new grid |
| SyncPacing.Schedule.RunFrames | src/kcse/plugin.cpp:85-111 | over a session the synchronisation runs in exactly the frames that are the first of their slot |
| SyncPacing.OneRunPerSlot | src/kcse/plugin.cpp:102-110 | every slot with a frame has exactly one run |
| SyncPacing.RunsAreBounded | src/kcse/plugin.cpp:102-110 | by any frame there were at most as many runs as slots had begun |
| SyncPacing.NextSlot | src/kcse/plugin.cpp:106-109 | a later boundary spans the same grid, so the deadline does not drift |
| SyncPacing.Schedule.Reset | src/kcse/plugin.cpp:113-118 | the next call starts a new grid |
| SyncPacing.Rate | src/kcse/plugin.cpp:91 | at least 60 and at most 120 runs a second, the snapshot rate in between |
| SyncPacing.Interval | src/kcse/plugin.cpp:101 | the whole nanoseconds of one period of that rate |
| SaveLoadLock.Runtime.RestoreSaveLoad | src/kcse/native_runtime.cpp:2502-2512 | afterwards nothing is locked, and if a lock was held the engine was told so exactly when the framework was there |
| SaveLoadLock.Runtime.FinishNativeUnloadIfComplete | src/kcse/native_runtime.cpp:2562-2590 | a pending unload finishes exactly when the framework is gone or has neither game context nor player entity; then no lock and no active sandbox is left and the main menu is due |
| SaveLoadLock.Runtime.BeginNativeUnload | src/kcse/native_runtime.cpp:2514-2560 | pending in an active sandbox exactly as long as the world is there, else finished at once and unlocked |
| SaveLoadLock.Runtime.ActivateLoadedSandbox | src/kcse/native_runtime.cpp:1111-1381 | it succeeds exactly when the conditions, the profile and the synchronisation do, and is then active and locked; each failure leaves the flags as they were, unlocks, or unloads |
| SaveLoadLock.Runtime.BeginNativeWorldStart | src/kcse/native_runtime.cpp:1383-1440 | it begins exactly when it is possible, none is under way and the engine accepts; a rejected one has failed for good, otherwise nothing changed |
| SaveLoadLock.Runtime.Begin | src/kcse/native_runtime.cpp:1050-1109 | exactly when a start is accepted, and whether it then is active and locked, probes, or waits for its world |
| SaveLoadLock.Runtime.AdvanceNativeWorldStart | src/kcse/native_runtime.cpp:1442-1541 | a waiting start waits on, fails for good, or ends in an active locked sandbox exactly when the activation succeeds; a failed one is left alone |
| SaveLoadLock.Runtime.OnFrame | src/kcse/native_runtime.cpp:785-819 | a frame keeps all invariants, in the order new epoch, world start, unload, and leaves no unload pending without a world |
| SaveLoadLock.Runtime.FailNativeWorldStart | src/kcse/native_runtime.cpp:1560-1571 | a failed start expects no transition any more |
| SaveLoadLock.Runtime.Cancel | src/kcse/native_runtime.cpp:1013-1048 | cancelling drops the waiting start and never touches an active sandbox or its lock |
| SaveLoadLock.Runtime.End | src/kcse/native_runtime.cpp:1585-1648 | exactly when an end does anything; it then drops the waiting start and is unloading if the world is there, else gone and unlocked |
| SaveLoadLock.Runtime.InvalidateEpoch | src/kcse/native_runtime.cpp:2060-2111 | an unexpected new epoch ends the sandbox unlocked; one that was expected, or comes during an unload, leaves the flags |
| SaveLoadLock.Runtime.Serve | src/kcse/native_runtime.cpp:785-2590 | over any run of calls, the framework coming and going: locked implies active, unloading implies active, active without unloading implies locked if a sandbox is only begun while none is active, and the engine stays blocked without a lock exactly when the lock was last given up while the framework was gone |
| SaveLoadLock.EndWithoutFramework | src/kcse/native_runtime.cpp:2502-2512 | a run after which the engine stays blocked although no lock is held |

## Left out

- XML parsing and serialising, text and comment nodes, archives: the model starts from element trees, and a patch that does not parse is an input; an original that does not parse is left as it is and not modelled.
- XmlMerge.MergeIsIdempotentExactly: leaves open the bases in which a patch element carries something over into an identifier while a further sibling with the same key has that element in it already. There the sufficient direction still holds (`MergeIsIdempotent`), the exact condition is given for one patch element (`RepeatedElementExactly`), and for several at once only in terms of the first result (`IdempotentExactlyWhenPatchWins`).
- Attributes repeated in one element: the merge is modelled on them, but the theorems ask that a patch element has distinct attribute names, which well-formed XML has; that a patch repeats no sibling key is asked of the whole patch, although a repeated key in a list that is merged and not copied is often harmless.
- The clipboard and the UTF-16 conversion: what they supply is an input, and it is valid UTF-8 or empty; what the UI page and the settings file do with an edited value is not modelled.
- The replacement loop of the localization catalogue.
- Fresh instance ids: the random generator of the equipment code is assumed never to repeat an id that is in use.
- RemoteEquipment.Avatar.CreateMissing: an entry whose item a later request displaced is only promised to be in the inventory; when the engine displaces an item is the engine's business.
- Parsing definition ids and the slot catalogue are tables.
- WorldItems.Sync.Apply: the engine's steps are collapsed into "failed" and "placed, with or without an entity"; whether the wire state is well formed is an input, and equality of serialised states is equality of values.
- Dropped items that are picked up while they wait for an entity and dropped again: nothing is claimed about when they are announced.
- Mutexes and atomics: each locked method is one atomic step.
- EntityControl.Controller.EntityDestroyed: includes the engine freeing the entity, so a handle is not used again before it is created again.
- IdentityStore.Store.Restart: encryption and decryption are assumed to be inverse; paths and the temporary file are not modelled.
- Money.SetMoney: what a silently ignored removal leaves behind is only counted, and stacks that the engine merges on its own are not modelled; the amounts are those of 32-bit stacks that are not negative.
- NpcBinding.Bindings.ApplyNpcState: transforms, gameplay and inventory revisions, the NPC roster and the isolation tables are left out, and so is an entity system that is missing altogether.
- Containers.Inventory.ApplyInventory: the inventory is a map by instance id, so two native items under one id are not modelled; finding the container is left out.
- SyncPacing.Interval: the interval is the whole number of nanoseconds in one period; the rounding of the division in floating point is not modelled.
- SaveLoadLock.Runtime.AdvanceNativeWorldStart: the deadline, the lifecycle events and the capability masks that decide whether a start fails, waits or is ready are one answer; the four waiting stages are one.
- Client and server protocol, profile reconciliation, the client state machine, the message gate, the console queue, rendering, hooks and Lua: not modelled.
