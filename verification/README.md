# Gem board puzzle: a Dafny model

This project models the core of a playable-ad puzzle. The board has two
segments. In each segment, seven groups of gems stand in cells of the wrong
colour. The player:

- zooms into a segment;
- selects a group of wrongly coloured gems;
- parks the group in the segment's 22-slot stack, or flies it into the cells
  of a group that expects its colour.

The seventh correct placement completes a segment. Completing both segments
ends the game. An idle hint shows the player the next useful move.

The model covers:

- **Board state machine.** The board view's handlers are pure functions from
  board to board (`BoardEvents`). The events are:
  - pointer events on segments, stacks, gems and cells;
  - the completion of a batch of gem animations;
  - the end of a congratulation text;
  - the end of a zoom.

  A board is built from the level data (`BoardState`). Properties over whole
  runs of events are in `BoardRuns`.
- **Hint query.** `getHintPositions` and the regular expression that reads a
  gem's colour back from its texture name (`BoardHint`).
- **Board configuration.** Cell keys `x;y`, position parsing, the gem colour
  table, the board slots and the two misfill tables (`BoardLayout`).
- **Sound model.** The on/off model with its one-shot `turnOn` (`SoundModel`).
- **Shared utilities.** `difference`, the Fisher–Yates `shuffle` and
  `randomInt` (`Utils`).
- **Asset-script path helpers.** File name, extension, `isImage`, `capitalize`
  and `getShorterPath` (`AssetPaths`).

Two supporting modules give the JavaScript primitives the code relies on
their exact meaning:

- `JsText` covers `split`, `join`, `slice`, `lastIndexOf`, `indexOf`, the
  template rendering of a number, and `Number` on the literals a position can
  hold.
- `JsMap` covers the insertion-ordered `Map`: `get`, `set`, `delete`,
  `forEach` rewriting and filtering, and `values`.

Sprites are reduced to identities. Gems and cells are indices into two
sequences. Each entry holds what the board reads back from that sprite:

- its texture name;
- whether it takes pointer events;
- whether it was destroyed;
- where it was last sent.

Positions on screen are symbolic points, such as a cell centre, a stack slot
or a cell sprite.

The model follows the code in these places, where its behaviour may be
unexpected:

- A gem callback of a batch into cells unfills the stack as soon as it
  deletes any stack entry (`BoardView.ts:980-985`). The final step of the
  batch only unfills the stack when it empties it. When the final step runs,
  its own deletion never finds anything: see
  `BoardEvents.FinalStackCleanupIsIdle`.
- Each stack is keyed as its code is written. The first stack records each
  chosen gem under the gem's own index. The second stack records every gem
  under the slot index of the enclosing callback, so a batch into an empty
  second stack leaves one entry: see `BoardEvents.SecondBatchKeepsOne`. The
  keying by index that the second stack evidently intends is proved beside
  it (see Findings), but the board does not use it.
- A stack entry holds only the gem. It does not record the cell the gem came
  from.
- The hint's loop over stack entries looks up misfill entries by the stack
  key, which is the slot index written as a number. Misfill keys are always
  `x;y`, so the loop never finds anything on a reachable board: see
  `BoardHint.StackKeyLoopIsDead` and `BoardRuns.StackKeyLoopDeadOnRuns`.
- The constructor ends in `startHandMovementBetweenSegments`, which sets
  `canClick` to true. Clicks are therefore enabled from the start.
- A position without `;` leaves `y` undefined. `Number.isNaN` does not reject
  `undefined`, so such a position yields the key `x;undefined`.

## Model

| member | source | states |
|---|---|---|
| BoardLayout.GetKey | src/views/BoardView.ts:522-524 | A cell key holds exactly one `;`, since neither rendered coordinate contains one |
| BoardLayout.KeyRoundTrip | src/views/BoardView.ts:539-541 | Parsing the key of two integers gives back exactly those two numbers |
| BoardLayout.PosKeyInjective | src/views/BoardView.ts:522-524 | Distinct integer positions have distinct cell keys |
| BoardLayout.ParsePosition | src/views/BoardView.ts:229-230 | An accepted position has a numeric `x` and a `y` that is not NaN, though `y` may be undefined |
| BoardLayout.PositionKey | src/views/BoardView.ts:539-541 | A position contributes a key exactly when it parses |
| BoardLayout.SingleTokenKey | src/views/BoardView.ts:229-230 | A position with one number yields the key `x;undefined`, and no integer position has that key |
| BoardLayout.UndefinedKeySkipped | src/views/BoardView.ts:539-540 | A key `x;undefined`, read back as a position, is skipped |
| BoardLayout.NaNTokenSkipped | src/views/BoardView.ts:229-230 | A position whose first token, or existing second token, is not a number is skipped |
| BoardLayout.GetGemColor | src/views/BoardView.ts:49-51 | The colour of an id is never empty |
| BoardLayout.GemColorKnownIds | src/views/BoardView.ts:40-47 | The six configured ids give black, grey, yellow_light, orange, yellow and brown_light |
| BoardLayout.GemColorDefault | src/views/BoardView.ts:49-51 | Every other id, negative ones included, gives yellow, since an id's decimal text determines the id |
| BoardLayout.BlockEntries | src/views/BoardView.ts:228-231 | Each layout block contributes its parsed key and its colour, in layout order |
| BoardLayout.AddSlot | src/views/BoardView.ts:240 | One block sets its key to its colour and nothing else |
| BoardLayout.BoardSlots | src/views/BoardView.ts:226-242 | The board has at most one slot per block, and every slot has a resolved, non-empty colour |
| BoardLayout.SlotsFromKeys | src/views/BoardView.ts:228-241 | The drawing loop's keys are exactly the keys some entry names |
| BoardLayout.BoardSlotsKeys | src/views/BoardView.ts:226-242 | A key is on the board exactly when some block's position parses to it |
| BoardLayout.SpecsAreConsistent | src/views/BoardView.ts:469-506 | In both misfill tables a group's background is its correct colour, which differs from its wrong colour |
| BoardLayout.MisfillTable | src/views/BoardView.ts:467-490 | Every colour row a key is looked up with is one of the table's groups |
| BoardLayout.SetAll | src/views/BoardView.ts:480-486 | Setting a group's keys gives each of them the group's colours and leaves every other key as it was |
| BoardLayout.PosKeys | src/views/BoardView.ts:481 | A group's keys are its positions' keys, in order |
| BoardLayout.TableStep | src/views/BoardView.ts:479-487 | The last group's keys get its colours; every other key keeps what the earlier groups gave it |
| BoardLayout.MisfillTableAbsent | src/views/BoardView.ts:479-487 | A position that no group holds has no entry in the table |
| BoardLayout.MisfillTableLastGroup | src/views/BoardView.ts:479-487 | A position gets the colours of the last group holding it, because later groups overwrite earlier ones |
| BoardLayout.MisfillTableKeys | src/views/BoardView.ts:479-487 | Every key of a table is the key of a position of one of its groups |
| BoardState.StackSlotCount | src/views/BoardView.ts:244-246 | A stack has 22 slots |
| BoardState.WithSeg | src/views/BoardView.ts:1326-1331 | Updating one segment leaves the other segment and every board-wide field as they were |
| BoardState.AddPosition | src/views/BoardView.ts:538-582 | A position adds an entry only when it parses and the table has its key; existing sprites are kept; every entry stays well built |
| BoardState.AddPositionFits | src/views/BoardView.ts:555-581 | The fresh gem and cell of a new entry fit it, and the older entries keep fitting |
| BoardState.AddPositions | src/views/BoardView.ts:538-582 | The positions loop only appends sprites and keeps every entry well built |
| BoardState.AddPositionsKeys | src/views/BoardView.ts:538-582 | A key is in the built map exactly when it was there before, or some position parses to it and the table has it |
| BoardState.ParsesToStep | src/views/BoardView.ts:538-541 | Some position parses to a key exactly when the last one or an earlier one does |
| BoardState.GemGroup | src/views/BoardView.ts:586-589 | A gem group is no longer than its positions, and each of its gems is held by the entry of one of those positions |
| BoardState.CellGroup | src/views/BoardView.ts:590-593 | Each cell of a group is the cell of one of its positions' entries |
| BoardState.CellGroupComplete | src/views/BoardView.ts:590-593 | When every position of a group has an entry, no cell is filtered out |
| BoardState.GemGroups | src/views/BoardView.ts:586-661 | The seven gem groups are read from the seven position groups in order |
| BoardState.CellGroups | src/views/BoardView.ts:590-661 | The seven cell groups are read from the seven position groups in order |
| BoardState.BuildSegment | src/views/BoardView.ts:526-663 | An absent or empty segment builds nothing. Otherwise every entry carries the table's colours and points at a live, interactive gem with the wrong colour's frame and at a live, interactive cell expecting the correct colour. Stacks start empty and counters at zero |
| BoardState.BuildSegmentKeys | src/views/BoardView.ts:538-582 | A built segment's keys are exactly the parsed position keys that the misfill table has |
| BoardState.BuiltCellKeys | src/views/BoardView.ts:538-541 | Every key of a built misfill map is a cell key containing `;` |
| BoardState.Initial | src/views/BoardView.ts:173-218 | A fresh board is in the initial selection, with no active segment, clicks enabled, nothing chosen, no animation, and empty, unfilled stacks |
| BoardState.InitialCellKeys | src/views/BoardView.ts:203-204 | Both misfill maps of a fresh board have cell keys only |
| BoardEvents.FirstGroupWith | src/views/BoardView.ts:829-837 | Finds the first group holding the sprite, or reports that no group does |
| BoardEvents.Moved | src/views/BoardView.ts:382-384 | Slot `i` receives `chosen[len - 1 - i]`, for as many slots as there are gems |
| BoardEvents.MovedAll | src/views/BoardView.ts:957-959 | With enough slots every chosen gem moves exactly once |
| BoardEvents.ReleaseGem | src/views/BoardView.ts:970-979 | Afterwards no entry holds the gem. Every other gem is held as before, the keys are kept, and only `gem` fields change |
| BoardEvents.AssignGroup | src/views/BoardView.ts:996-1005 | Entries whose cell is in the group hold the first placed gem; the others are unchanged; the keys are kept |
| BoardEvents.DropGem | src/views/BoardView.ts:980-985 | The stack loses exactly its entries holding the gem, and shrinks exactly when it held the gem |
| BoardEvents.DropGems | src/views/BoardView.ts:1008-1013 | The stack loses exactly its entries holding a placed gem |
| BoardEvents.PlaceGems | src/views/BoardView.ts:387-393 | Only the positions of moved gems change |
| BoardEvents.PlaceGemsTarget | src/views/BoardView.ts:387-393 | A moved gem that is not moved again later ends at its own target |
| BoardEvents.SegmentClick | src/views/BoardView.ts:1627-1656 | A segment click acts exactly in the initial selection, with the segment incomplete and none active. It then ends the selection, activates the segment and starts a zoom in, and changes nothing else |
| BoardEvents.StackClick | src/views/BoardView.ts:344-383 | A stack click acts exactly when its guards hold. It then marks the stack filled, clears the colour, starts animating and flies the chosen gems in reverse order to the slots. It touches nothing else |
| BoardEvents.ChosenAfter | src/views/BoardView.ts:821-841 | A gem in a group selects that group. A gem in no group keeps the old choice, or drops it when a colour was active |
| BoardEvents.GemClick | src/views/BoardView.ts:799-842 | A gem click that passes its guards selects the gem's colour and its group; otherwise nothing changes; only the colour and the choice ever change |
| BoardEvents.CellClick | src/views/BoardView.ts:930-956 | A cell click acts exactly when its guards hold, including that the cell expects the active colour. It then flies the chosen gems into the cells of the cell's first group. Segments and sprites are untouched until the batch completes |
| BoardEvents.CellBatchIsCorrect | src/views/BoardView.ts:930-931 | Every batch into cells is a correct placement, so the wrong-placement branch never runs |
| BoardEvents.StackGem | src/views/BoardView.ts:397-408 | For one chosen gem: when an entry holds it, the stack records it under the key and no entry holds it any more. Otherwise nothing changes. Other gems and other stack keys are untouched |
| BoardEvents.StackGemKeys | src/views/BoardView.ts:400 | Recording a gem adds no stack key other than the one used |
| BoardEvents.StackGems | src/views/BoardView.ts:397-409 | After the final step no entry holds a chosen gem, no entry gains a gem, and the keys are kept |
| BoardEvents.FirstStackKeys | src/views/BoardView.ts:397-400 | Keyed by index, the stack's keys are the old ones plus indices of chosen gems |
| BoardEvents.SecondStackKeys | src/views/BoardView.ts:438-441 | Keyed as the second stack's code is written, the only new key is `len - 1`, the slot index of the enclosing callback |
| BoardEvents.StackGemsKeepOthers | src/views/BoardView.ts:397-409 | Gems that were not chosen are held exactly as before |
| BoardEvents.IndexedStackRecordsAll | src/views/BoardView.ts:397-400 | Keyed by index, every distinct chosen gem held by an entry is recorded under its own index |
| BoardEvents.SecondStackHoldsOne | src/views/BoardView.ts:438-441 | Keyed as the second stack is, an empty stack ends with at most one entry, whatever was chosen |
| BoardEvents.SecondStackLosesAGem | src/views/BoardView.ts:419-458 | Two held gems sent to an empty second stack leave one entry, while the first stack's keying records both |
| BoardEvents.StackKeying | src/views/BoardView.ts:397-441 | The first stack is keyed by each gem's index and the second by the slot counter, as `moveGemsToStack1` and `moveGemsToStack2` are written |
| BoardEvents.StackDone | src/views/BoardView.ts:378-458 | With 1 to 22 chosen gems, the final step records them in the stack under that stack's keying as written, clears the choice and ends the animation. Otherwise the board stays animating with its choice. Gems move to their slots either way |
| BoardEvents.ReleaseFromSegment | src/views/BoardView.ts:970-985 | One gem's callback empties the entries holding the gem and deletes its stack entries. Finding one unfills the stack |
| BoardEvents.ReleaseAll | src/views/BoardView.ts:969-985 | After all callbacks no entry holds a moved gem, the stack has lost exactly the entries holding one, and the keys are kept |
| BoardEvents.Recolor | src/views/BoardView.ts:987-990 | Moved gems get the correct colour's frame and stop taking pointer events; other gems are unchanged |
| BoardEvents.Freeze | src/views/BoardView.ts:987-990 | The filled cells stop taking pointer events; the others are unchanged |
| BoardEvents.FinishSegment | src/views/BoardView.ts:993-1026 | The group's entries hold the first placed gem and the stack loses the placed gems. Emptying the stack unfills it. A correct placement counts, and the segment completes when its counter reaches seven |
| BoardEvents.FinishCells | src/views/BoardView.ts:993-1055 | The final step clears the choice and the animation. A correct placement adds to the total and may show a text. Completing the segment disables clicks and queues the zoom to the other segment, or to the end when both are complete |
| BoardEvents.CellsDone | src/views/BoardView.ts:957-1058 | Every moved gem's callback runs. The final step runs exactly when the last chosen gem had a cell; without one the board stays animating. Unmoved gems are unchanged, and a correct placement recolours the moved gems and freezes the filled cells |
| BoardEvents.FinalStackCleanupIsIdle | src/views/BoardView.ts:1007-1017 | When the final step runs, no stack entry holds a chosen gem any more, so its own deletion finds nothing |
| BoardEvents.BatchDone | src/views/BoardView.ts:378-458 | Completing a stack batch whose final step runs records the chosen gems under that stack's keying as written, clears the choice and ends the animation. A cell batch whose final step runs commits the group. A batch whose final step never runs keeps the choice and the animation. The other segment is untouched, no batch stays in flight, and with no batch nothing changes |
| BoardEvents.SecondBatchKeepsOne | src/views/BoardView.ts:438-441 | As written, a batch into an empty second stack leaves that stack with at most one entry, however many gems flew into it |
| BoardEvents.TextDone | src/views/BoardView.ts:1567-1576 | The end of a text moves the text index one place round the four texts, from the last back to the first, and enables clicks; with no text showing nothing changes |
| BoardEvents.TextsGoRound | src/views/BoardView.ts:1567-1568 | Each of k texts ending in a row moves the index one place round the four texts and leaves one fewer to end, so four in a row come back to where they started |
| BoardEvents.Members | src/views/BoardView.ts:1789-1820 | The members are exactly the sprites of some group |
| BoardEvents.EndGame | src/views/BoardView.ts:1775-1835 | Exactly the sprites of the groups are destroyed. Both misfill maps and stacks are cleared, the choice, colour and total counter are reset, and the call to action is announced. Nothing else changes |
| BoardEvents.ZoomDone | src/views/BoardView.ts:1030-1051 | A finished zoom in enables clicks. A zoom out to the other segment activates it and zooms in. The zoom out to the end runs the end-game clean-up |
| BoardEvents.BatchIsOneWay | src/views/BoardView.ts:378-458 | Completing a batch changes neither the selection phase nor the active segment |
| BoardEvents.CellsDoneIsOneWay | src/views/BoardView.ts:957-1058 | A batch into cells changes neither the selection phase nor the active segment |
| BoardEvents.Step | src/views/BoardView.ts:275-1656 | Clicks on stacks, gems and cells reach their handlers only through `canClick` (:275, :325, :560-572, :698-705), and are refused while an animation runs. Only a segment click ends the initial selection. The active segment changes only on a segment click, which needs the initial phase and no active segment (:1627-1656), or at the end of a zoom. The end of a batch leaves no batch in flight |
| BoardEvents.Run | src/views/BoardView.ts:275-1656 | The board handles the events of its click and animation handlers one at a time: a run of events is its last event delivered to the board the earlier events left |
| BoardHint.RunEnd | src/views/BoardView.ts:1340 | `[^_]+` reaches exactly to the next underscore or the end |
| BoardHint.GroupEnd | src/views/BoardView.ts:1340 | The greedy group backs off to the longest end at which `(?:_wrong)?\.png` matches |
| BoardHint.MatchAt | src/views/BoardView.ts:1340 | A match's group is non-empty and has no underscore |
| BoardHint.TextureColor | src/views/BoardView.ts:1337-1342 | The colour read from a texture name, as written, is never one with an underscore |
| BoardHint.TextureColorOfFrame | src/views/BoardView.ts:1337-1342 | The frame of a colour without underscores reads back as that colour |
| BoardHint.TextureColorOfWrongFrame | src/views/BoardView.ts:1337-1342 | The `_wrong` frame of a colour without underscores reads back as that colour |
| BoardHint.FrameColor | src/views/BoardView.ts:1337-1342 | The intended reading yields a non-empty colour |
| BoardHint.FrameColorOfFrame | src/views/BoardView.ts:1846-1853 | With the intended reading, every frame the board gives a gem reads back as its colour |
| BoardHint.ReadersAgree | src/views/BoardView.ts:1337-1342 | The two readings agree on every colour without underscores |
| BoardHint.UnderscoreColorsUnreadable | src/views/BoardView.ts:1340 | brown_light and yellow_light cannot be read back as written; the intended reading gets them |
| BoardHint.UnderscoreColorsConfigured | src/views/BoardView.ts:40-47 | The colour table holds brown_light and yellow_light |
| BoardHint.ChoosingHint | src/views/BoardView.ts:1351-1371 | While gems are chosen, the hint is the first entry that looks empty and expects the active colour, and otherwise the stack's first slot |
| BoardHint.WrongGemEntry | src/views/BoardView.ts:1374-1378 | Finds the first entry, in map order, whose interactive gem reads as the entry's wrong colour, and none exactly when no entry does |
| BoardHint.StackKeyEntry | src/views/BoardView.ts:1397-1402 | Finds the first stack entry whose key, as text, is a misfill key and whose interactive gem reads as that entry's wrong colour, and none exactly when no stack entry does |
| BoardHint.StackKeyLoopIsDead | src/views/BoardView.ts:1397-1402 | When the misfill keys are cell keys, the loop over stack entries never finds one |
| BoardHint.ToStackHint | src/views/BoardView.ts:1373-1420 | With a free slot, the first loop's first entry gives a move from its cell to that slot; only when the first loop finds nothing does the second loop's first stack entry give one; the hint is absent exactly when there is no free slot or neither loop finds anything |
| BoardHint.StackSourceEntry | src/views/BoardView.ts:1430-1439 | Finds the first stack gem that is interactive and reads as the needed colour, and none exactly when no stack gem does |
| BoardHint.BoardSourceEntry | src/views/BoardView.ts:1441-1453 | Finds the first misfill entry whose interactive gem is outside the stack, reads as the needed colour and sits where that colour is not correct, and none exactly when no entry does |
| BoardHint.SourceFor | src/views/BoardView.ts:1428-1453 | The source is the first stack gem that reads as the needed colour; only when there is none, the cell of the first misfill entry whose gem can supply it; absent exactly when neither loop finds one |
| BoardHint.NeedyEntry | src/views/BoardView.ts:1422-1455 | Finds the first entry without a gem for which a source of its correct colour exists, and none exactly when no entry qualifies |
| BoardHint.FromStackHint | src/views/BoardView.ts:1421-1456 | With a filled stack, the hint goes from the source for the first empty entry that has one to that entry's cell, and is absent exactly when no empty entry has a source |
| BoardHint.Hint | src/views/BoardView.ts:1320-1459 | Follows the rules in order: the origin twice during the initial selection; the choosing hint while gems are chosen; with an unfilled stack and a free slot, the first loop's first hit, else the second loop's, moved to that slot; with a filled stack, the source for the first empty entry that has one, moved onto it; otherwise the origin twice |
| BoardHint.RulesDetermineHint | src/views/BoardView.ts:1320-1459 | Any pair of points that follows those rules is the hint: the rules leave no other choice |
| BoardHint.HintPositions | src/views/BoardView.ts:1320-1459 | As written, the hint follows those rules with colours read through the texture pattern: the origin twice during the initial selection, one point twice while gems are chosen, and with an unfilled stack either the origin twice or a move to the next free slot from an entry whose wrong colour has no underscore |
| BoardHint.UnfilledStackHint | src/views/BoardView.ts:1373-1420 | Outside the choosing branch, with an unfilled stack, the hint points from a misfill gem that reads as its wrong colour to the next free slot, or it is the origin twice |
| BoardHint.UnderscoreEntryNeverHinted | src/views/BoardView.ts:1373-1380 | As written, an entry whose wrong colour has an underscore never draws the hint to the stack |
| BoardHint.IntendedHintFindsWrongGem | src/views/BoardView.ts:1373-1380 | With the intended reading, an entry whose interactive gem wears its wrong colour's frame always draws the hint to a free slot |
| BoardHint.UnderscoreBoard | src/views/BoardView.ts:495 | The example board has one entry, whose colours are those of the second segment's first misfill group |
| BoardHint.UnderscoreBoardAsWritten | src/views/BoardView.ts:1320-1459 | As written, the hint on a board whose wrong gem is brown_light is the origin twice |
| BoardHint.UnderscoreBoardIntended | src/views/BoardView.ts:1373-1392 | With the intended reading, the hint on that board points from the gem's cell to the stack's last slot |
| BoardRuns.InitialInv | src/views/BoardView.ts:173-218 | A fresh board keeps the invariant |
| BoardRuns.StepPreservesInv | src/views/BoardView.ts:1645-1656 | Every event keeps the invariant: the text index within the four texts, nothing active or in flight during the initial selection, and a batch in flight only while animating |
| BoardRuns.RunPreservesInv | src/views/BoardView.ts:1645-1656 | Every run of events keeps the invariant |
| BoardRuns.StepIsOneWay | src/views/BoardView.ts:1645-1656 | No event returns to the initial selection, and once a segment is active some segment stays active |
| BoardRuns.StepCompletion | src/views/BoardView.ts:1025-1026 | A completed segment stays completed, and only a placement that brings its counter to seven completes it |
| BoardRuns.BatchCompletion | src/views/BoardView.ts:1022-1026 | The same for the completion of a batch |
| BoardRuns.StackBatchKeeps | src/views/BoardView.ts:394-413 | A batch into a stack keeps every segment's misfill keys and completion |
| BoardRuns.CellBatchCompletion | src/views/BoardView.ts:993-1026 | A batch into cells keeps the misfill keys and completes a segment only at seven |
| BoardRuns.NoSelectionAfterward | src/views/BoardView.ts:1646 | Once the initial selection is over, no run selects again |
| BoardRuns.SelectionAtMostOnce | src/views/BoardView.ts:1645-1656 | Over any run the player selects a segment from the overview at most once |
| BoardRuns.NoCompletionAfterward | src/views/BoardView.ts:1025 | A completed segment is never completed again |
| BoardRuns.CompletionAtMostOnce | src/views/BoardView.ts:1025-1052 | Over any run each segment is completed at most once, so its zoom out is queued at most once |
| BoardRuns.StepKeepsMisfillKeys | src/views/BoardView.ts:1821-1824 | Every event keeps a segment's misfill keys or clears the map |
| BoardRuns.ZoomDoneKeepsSegments | src/views/BoardView.ts:1821-1824 | A finished zoom leaves the segments alone, or clears their maps and stacks at the end of the game |
| BoardRuns.BatchKeepsMisfillKeys | src/views/BoardView.ts:996-1005 | Completing a batch keeps every segment's misfill keys |
| BoardRuns.RunKeepsCellKeys | src/views/BoardView.ts:481 | Over any run, misfill maps keep holding cell keys only |
| BoardRuns.StackKeyLoopDeadOnRuns | src/views/BoardView.ts:1397-1402 | On every board reached from a fresh one, the hint's loop over stack entries finds nothing |
| SoundModel.New | src/models/SoundModel.ts:12-20 | A new model is Unknown with the switch armed |
| SoundModel.TurnOn | src/models/SoundModel.ts:29-34 | `turnOn` changes the model exactly when it is Off with the switch armed; it then turns it On and disarms the switch |
| SoundModel.Initialize | src/models/SoundModel.ts:36-38 | `initialize` turns the sound On and leaves the switch alone |
| SoundModel.Mute | src/models/SoundModel.ts:40-42 | `mute` turns the sound Off and leaves the switch alone |
| SoundModel.Unmute | src/models/SoundModel.ts:44-46 | `unmute` turns the sound On and leaves the switch alone, exactly as `initialize` does |
| SoundModel.FocusChange | src/models/SoundModel.ts:48-50 | Gaining focus unmutes, losing it mutes |
| SoundModel.Toggle | src/models/SoundModel.ts:52-54 | `toggle` always changes the state, gives Off exactly from On, and leaves the switch alone |
| SoundModel.ToggleTwice | src/models/SoundModel.ts:52-54 | Toggling twice restores On or Off; from Unknown it ends Off |
| SoundModel.DisarmedStaysInert | src/models/SoundModel.ts:29-34 | Once the switch is disarmed nothing arms it again, and no later `turnOn` has an effect |
| SoundModel.TurnOnEffectiveAtMostOnce | src/models/SoundModel.ts:29-34 | Over any sequence of calls, `turnOn` takes effect at most once |
| Utils.Difference | src/utils/Utils.ts:239-241 | The difference is no longer than the first list |
| Utils.DifferenceMembers | src/utils/Utils.ts:239-241 | An element survives exactly when it is in the first list and not the second, as often as the first list holds it |
| Utils.DifferenceOfEmpty | src/utils/Utils.ts:239-241 | Removing nothing keeps the whole list in order |
| Utils.DifferenceOfAppend | src/utils/Utils.ts:239-241 | The filter works element by element, in order: the difference of a concatenation is the concatenation of the differences |
| Utils.DifferenceOfSingleton | src/utils/Utils.ts:239-241 | A one-element list survives exactly when its element is not removed |
| Utils.RandomInt | src/utils/Utils.ts:168-172 | For a draw in [0, 1) the result lies between `ceil(min)` and `floor(max)` inclusive. When that range is empty, it lies in `(floor(max), ceil(min)]` |
| Utils.ScaledDrawBounds | src/utils/Utils.ts:171 | Scaling a draw in [0, 1) by a positive count and flooring stays below the count |
| Utils.Swap | src/utils/Utils.ts:177-179 | The swap exchanges the two entries, keeps every other one, and permutes the list |
| Utils.Shuffled | src/utils/Utils.ts:174-181 | Any sequence of valid swap partners permutes the list |
| Utils.ShuffledLastStep | src/utils/Utils.ts:175-179 | The last iteration swaps index `len - k` with its partner |
| Utils.ShuffledSettlesSuffix | src/utils/Utils.ts:175 | Entries that an iteration has passed are never touched again |
| Utils.DrawStep | src/utils/Utils.ts:176-179 | One more iteration swaps the next index down with a partner at or below it |
| Utils.Shuffle | src/utils/Utils.ts:174-181 | `shuffle` makes `len - 1` draws, each within `randomInt(0, i)`'s range, and returns a permutation of its input |
| AssetPaths.Lower | nodeScripts/GenerateAssets.js:83 | Lower-casing maps each ASCII letter and keeps the length |
| AssetPaths.Capitalize | nodeScripts/GenerateAssets.js:62-64 | Only the first character is upper-cased; the rest is kept |
| AssetPaths.CapitalizeIdempotent | nodeScripts/GenerateAssets.js:62-64 | Capitalising twice is capitalising once |
| AssetPaths.FileNameWithExtension | nodeScripts/GenerateAssets.js:70-72 | The file name is the path's tail after its last separator, with no separator in it; without a separator it is the whole path |
| AssetPaths.FileExtensionFromPath | nodeScripts/GenerateAssets.js:78-80 | The extension is the tail after the last dot, with no dot in it; without a dot it is the whole path |
| AssetPaths.FileNameWithoutExtension | nodeScripts/GenerateAssets.js:74-76 | The bare name is a separator-free prefix of the file name |
| AssetPaths.FileNameIsTail | nodeScripts/GenerateAssets.js:70-72 | The file name is the slice after the last separator |
| AssetPaths.ExtensionIsTail | nodeScripts/GenerateAssets.js:78-80 | The extension is the slice after the last dot |
| AssetPaths.BareNameIsMiddle | nodeScripts/GenerateAssets.js:74-76 | The bare name is the slice between the last separator and the last dot |
| AssetPaths.NameSplitsAtLastDot | nodeScripts/GenerateAssets.js:70-80 | When the last dot is in the file name, the name is the bare name, a dot, and the extension |
| AssetPaths.NoDotCutsLastCharacter | nodeScripts/GenerateAssets.js:74-76 | Without a dot, `slice` reads the end index -1 as one before the end, so the bare name loses its last character |
| AssetPaths.DotOnlyInDirectory | nodeScripts/GenerateAssets.js:74-76 | A dot that only occurs in a directory gives an empty bare name |
| AssetPaths.IsImage | nodeScripts/GenerateAssets.js:82-84 | `isImage` holds exactly when the lower-cased path ends in a dot and one of the eight image extensions |
| AssetPaths.ImagePatternIsExtension | nodeScripts/GenerateAssets.js:82-84 | The pattern matches exactly when the path has a dot and its extension, lower-cased, is an image extension |
| AssetPaths.ShorterPath | nodeScripts/GenerateAssets.js:86-90 | When the folder is not a component, the path comes back unchanged |
| AssetPaths.ShorterPathIsRemainder | nodeScripts/GenerateAssets.js:86-90 | When the folder is a component, the path is the components up to its first occurrence, a separator, and the result. The result splits into exactly the remaining components |
| JsText.ToNumber | src/views/BoardView.ts:539 | `Number` accepts exactly the empty string and optionally signed runs of digits. A leading `-` gives a value at most 0, anything else a value at least 0 |
| JsText.NumberOfIntToString | src/views/BoardView.ts:539 | Reading back the rendering of an integer gives the integer |
| JsText.IntToStringHasNo | src/views/BoardView.ts:522-524 | The rendering of an integer holds only digits and a minus sign |
| JsText.Split | src/views/BoardView.ts:539 | A split has one more piece than separators, and no piece holds the separator |
| JsText.JoinSplit | nodeScripts/GenerateAssets.js:87-89 | Joining the pieces of a split restores the string |
| JsText.SplitJoin | nodeScripts/GenerateAssets.js:87-89 | Splitting a join of separator-free pieces gives the pieces back |
| JsText.LastIndexOf | nodeScripts/GenerateAssets.js:71 | Finds the last occurrence, or -1 |
| JsText.Slice | nodeScripts/GenerateAssets.js:75 | `slice` clamps its indices, counts negative ones from the end, and is empty when they cross |
| JsText.IndexOf | nodeScripts/GenerateAssets.js:88 | Finds the first occurrence, or -1 exactly when there is none |
| JsMap.Get | src/views/BoardView.ts:542-543 | `get` finds a value exactly for present keys, and the value is that key's |
| JsMap.GetFirst | src/views/BoardView.ts:50 | `get` returns the value of the first entry with the key |
| JsMap.Set | src/views/BoardView.ts:240 | After `set` the key maps to the new value and every other key is unchanged |
| JsMap.SetShape | src/views/BoardView.ts:481 | `set` on a present key keeps the keys in place; on a new key it appends |
| JsMap.SetKeys | src/views/BoardView.ts:481 | After `set` the keys are the old keys and the new one |
| JsMap.Delete | src/views/BoardView.ts:1010 | `delete` removes the key and keeps every other one |
| JsMap.MapValues | src/views/BoardView.ts:970-979 | Rewriting every entry with `forEach` and `set` keeps keys and order |
| JsMap.GetMapValues | src/views/BoardView.ts:970-979 | After rewriting, `get` returns the rewritten value |
| JsMap.FilterValues | src/views/BoardView.ts:980-985 | Deleting during `forEach` keeps exactly the entries that pass |
| JsMap.FindEntry | src/views/BoardView.ts:1353-1363 | A loop over the entries that returns on a match finds the first one in iteration order, or reports that none matches |

## Left out

- Rendering, tweens of scale, alpha and position, filters, overlays, sounds and the event bus. Nothing the board reads back depends on them.
- The hint timer, `showHint` and the hand animation. The model covers only `getHintPositions`, the query they use.
- `putGemBack` and `highlightGems`. They only move and scale sprites a selection lifts.
- Static gems and cells. They are made for segment positions the misfill table lacks and never take a click.
- Screen coordinates. Points are symbolic (a cell centre, a stack slot, a cell sprite), because the arithmetic of `getCellCenter` uses floating point.
- The level data. `LevelConfig.ts` is not part of this model: the layout, the segment positions and the fourteen misfill groups are parameters.
- Animation timing. Each batch of gem animations completes as one event, running the per-gem callbacks in slot order. Zoom and text completions are events too, in any order the caller chooses. Interleavings of individual tween callbacks with other events are not modelled.
- The texture of a gem sprite is taken to be its frame name: `textureCacheIds[0]` is assumed to be the frame passed to `Texture.from`.
- JsText.ToNumber: covers the empty string and optionally signed decimal digits only. Whitespace trimming, decimals, exponents, hexadecimal and `Infinity` are not modelled, because no board position uses them.
- AssetPaths.Lower: case mapping covers ASCII only, which is what the `i` flag of a pattern without `u` does.
- AssetPaths.Capitalize: `toUpperCase` also maps non-ASCII first letters; the model leaves a non-ASCII first character unchanged.
- Utils.Shuffle: the random source is not modelled. Each swap partner is any value `randomInt(0, i)` can return, so the contract holds for every outcome.
- Utils.RandomInt: takes the value `Math.random()` returned as a parameter, on exact reals rather than floating point.
- The file-system walk, texture packing and the JSON and TypeScript writing of the asset script. They are I/O.
- BoardRuns.StepPreservesInv: the invariant covers the selection phase, batches, zooms and the text index. It says nothing about sprite indices being in range, because handlers ignore out-of-range sprites.

## Findings

| source | as written | input that shows it | evidently intended | confidence | as-written member | corrected member |
|---|---|---|---|---|---|---|
| src/views/BoardView.ts:1337-1342 | The colour is read from a texture name with `gem_([^_]+)(?:_wrong)?\.png`, and `[^_]+` cannot cross the underscore of `brown_light` or `yellow_light`. Such a gem never reads as its colour, so the hint's gem-to-stack loop skips it | A second-segment board whose only misfill entry holds a `brown_light` gem (misfill group 8's wrong colour) and whose stack is empty: the hint is the origin twice | The colour between `gem_` and `.png`, without a trailing `_wrong`. On that board the hint points from the gem's cell to the stack's last free slot | not executed | BoardHint.UnderscoreBoardAsWritten | BoardHint.UnderscoreBoardIntended |
| src/views/BoardView.ts:438-441 | `moveGemsToStack2` records each chosen gem in `stack2Map` under `i.toString()`. Here `i` is the slot index of the enclosing callback, always `len - 1`, not the gem's own index (the inner callback drops its index parameter). Every gem overwrites the same key | Two distinct chosen gems, both held by misfill entries, sent to an empty second stack: the stack map ends with one entry | Each gem keyed by its own index, as `moveGemsToStack1` does (`BoardView.ts:397-400`), so every chosen gem is recorded | not executed | BoardEvents.SecondStackHoldsOne | BoardEvents.IndexedStackRecordsAll |

The board itself keeps both quirks as written: `BoardEvents.StackDone` keys the second stack by the slot counter, and `BoardHint.HintPositions` reads colours with the pattern as written. The corrected definitions, `BoardHint.IntendedHintPositions` and the keying by index, are proved beside them.
