# messinator: the application state machine, in Dafny

messinator is a terminal chat browser. The user moves a cursor over a fixed
list of contacts, opens a chat on one of them, and types lines into a
message log. A second list beside the contacts can be rotated. This project
models the `App` state of `src/main.rs` and the transition that
`App::process_events` performs on one key press. It proves what that
transition guarantees.

- `app_model.dfy` (module `AppModel`): the value model. It has the
  `View` and `Key` datatypes and `AppState`, a snapshot of `App`'s seven
  fields. It defines `NewState` (`App::new`) and the transition `Step`
  (`process_events`) with its helpers: cursor wrap-around, rotation,
  backspace. `Admissible` states when the source does not panic, and
  `ValidState` is the invariant every reachable state keeps.
- `app.dfy` (module `Messinator`): `App` as a class whose fields
  `ProcessEvents` updates in place, arm by arm as the source does. It is
  proved to produce exactly `Step` of the old state. `Advance` is the empty
  idle hook. `Session` runs the end-to-end scenario on a fresh object.
- `app_properties.dfy` (module `AppProperties`): lemmas about `Step` and
  about `Run`, which processes a sequence of keys. They cover cursor cycles
  and the Up/Down inverse, rotation round trips, the buffer and the log,
  entering and leaving a chat, ignored keys, and the invariant.
- `event_loop.dfy` (module `EventLoop`): the dispatch of the main loop
  over a finite prefix of the event stream. An input event is processed. A
  tick runs the no-op idle hook, and then exits if the quit flag is up. The
  lemmas show that quitting waits for the next tick.

The model keeps the code's behaviour even where a guarded version would
be friendlier:

- In list view, `'r'` on an empty secondary list panics in the code
  (`pop().unwrap()`, src/main.rs:86). A guarded no-op would avoid the
  panic; the model keeps it as a precondition (`Admissible`) instead, and
  proves it unreachable from `App::new` (`ValidAdmitsEveryKey`,
  `ReachableStatesAreValid`).
- Enter in a chat with an empty buffer appends an empty message
  (src/main.rs:68-70). It is not a no-op.
- Esc in a chat keeps the cursor (src/main.rs:65-67). Reopening the same
  contact needs only Enter.

## Model

| member | source | states |
|---|---|---|
| AppModel.NewState | src/main.rs:38-54 | the initial state (list view, no selection, nine contacts, three secondary items, empty buffer and log) satisfies the invariant |
| AppModel.SelectNext | src/main.rs:97-107 | Down always yields a selection, and it is a valid contact index whenever there is a contact, even from an out-of-range index |
| AppModel.SelectPrevious | src/main.rs:108-118 | Up always yields a selection, and it is a valid contact index whenever the old one was valid or absent |
| AppModel.Rotate | src/main.rs:85-88 | moving the last item to the front keeps the length and the multiset of items and puts the old last item first |
| AppModel.DropLast | src/main.rs:74-76 | backspace leaves an empty buffer empty; on a non-empty buffer the result followed by the removed last character is the old buffer |
| AppModel.Step | src/main.rs:60-123 | a key press never changes the contacts, never lowers the quit flag, only appends to the message log (the old log is a prefix of the new), and keeps every index into the contacts in range |
| AppModel.Run | src/main.rs:198-201 | the same four guarantees hold over any sequence of key presses: contacts fixed, quit flag never lowered, message log append-only, invariant kept |
| AppModel.ChatTitle | src/main.rs:173 | the chat view's title is one of the contact names |
| AppProperties.Rotations | src/main.rs:85-88 | repeated rotation keeps the length and the multiset of the secondary list |
| AppProperties.RunSnoc | src/main.rs:198-201 | one more key press after a run is admissible and is one more step |
| AppProperties.ValidAdmitsEveryKey | src/main.rs:85-118 | in a valid state no key reaches the unwrap or the `len() - 1` underflow |
| AppProperties.ValidAdmitsEveryRun | src/main.rs:60-123 | from a valid state every key sequence runs without panic and ends in a valid state |
| AppProperties.ReachableStatesAreValid | src/main.rs:38-123 | every state reachable from `App::new` is valid, so the chat index used for the title lookup is in range |
| AppProperties.DownMovesCursor | src/main.rs:97-107 | Down: no selection to 0, last index to 0, index i to i+1; no other field changes |
| AppProperties.UpMovesCursor | src/main.rs:108-118 | Up: no selection to 0, 0 to the last index, index i to i-1; no other field changes |
| AppProperties.LeftClearsCursor | src/main.rs:94-96 | Left in list view clears the selection and changes nothing else |
| AppProperties.UpDownInverse | src/main.rs:97-118 | from any valid selection, Up then Down, and Down then Up, restore the whole state |
| AppProperties.DownPressesCycle | src/main.rs:97-107 | k+1 presses of Down from no selection leave the cursor on k mod n (it visits 0, 1, ..., n-1, 0, ...) |
| AppProperties.UpPressesCycle | src/main.rs:108-118 | k+1 presses of Up from no selection leave the cursor on -k mod n (it visits 0, n-1, ..., 1, 0, ...) |
| AppProperties.RotationsSplit | src/main.rs:85-88 | k rotations, k at most the length, bring the last k items to the front in order |
| AppProperties.RotationsRestore | src/main.rs:85-88 | rotating as many times as there are items restores the list |
| AppProperties.RotateKeyPresses | src/main.rs:85-88 | k presses of 'r' in list view rotate the secondary list k times and change nothing else |
| AppProperties.RotateKeyRoundTrip | src/main.rs:85-88 | pressing 'r' once per secondary item restores the whole state |
| AppProperties.RotateExample | src/main.rs:85-88 | ["a","b","c"] rotates to ["c","a","b"], and twice to ["b","c","a"] |
| AppProperties.EnterOpensChat | src/main.rs:89-93 | Enter in list view with no selection changes nothing; with selection i it opens chat i and changes nothing else |
| AppProperties.EscapeKey | src/main.rs:63-84 | Esc in list view raises the quit flag and keeps the view; Esc in a chat returns to the list, keeping cursor and flag |
| AppProperties.EnterThenEscRestores | src/main.rs:65-93 | opening the selected chat and leaving it with Esc restores the whole state |
| AppProperties.UnmatchedKeysIgnored | src/main.rs:60-123 | the keys a view has no arm for (including characters other than 'r' and Enter in list view) leave the state unchanged |
| AppProperties.CommitAppendsInput | src/main.rs:68-70 | Enter in a chat adds exactly one message, the old buffer even if empty, keeps the earlier ones, empties the buffer, and changes nothing else |
| AppProperties.BackspaceDropsLast | src/main.rs:74-76 | Backspace in a chat on a non-empty buffer removes exactly its last character and changes nothing else |
| AppProperties.BackspaceUndoesTyping | src/main.rs:71-76 | typing a non-newline character then Backspace restores the state; Backspace on an empty buffer changes nothing |
| AppProperties.TypingAppends | src/main.rs:71-73 | typing a newline-free text in a chat appends it to the buffer and changes nothing else |
| AppProperties.TypeThenCommit | src/main.rs:68-73 | typing a text and Enter log the old buffer followed by that text as one new message and empty the buffer |
| AppProperties.SessionScenario | src/main.rs:38-123 | from start, Down, Enter, "hi", Enter, Esc give list view, cursor on 0, log ["hi"], empty buffer |
| Messinator.App.Title | src/main.rs:173 | on a valid object in chat view, the title lookup `items[i]` is in range and yields the chat's contact name |
| Messinator.App.constructor | src/main.rs:38-54 | the new object's fields are those of the initial state, and it is valid |
| Messinator.App.Advance | src/main.rs:56-58 | the idle hook changes no field |
| Messinator.App.ProcessEvents | src/main.rs:60-123 | the fields after the in-place update are `Step` of the fields before; validity is kept and the quit flag never drops |
| Messinator.Session | src/main.rs:38-123 | on a fresh object the scenario above ends with log ["hi"], cursor on 0, list view, empty buffer |
| EventLoop.Loop | src/main.rs:198-208 | the loop exits only on a tick, and only with the quit flag up; if the flag was already up and it has not exited, no tick came; the message log only grows; the invariant is kept |
| EventLoop.InputsOnly | src/main.rs:198-201 | with no ticks the loop never exits and ends in the state of the keys processed in order |
| EventLoop.NextTickExits | src/main.rs:202-207 | once keys have raised the quit flag, the next tick ends the loop, whatever follows |
| EventLoop.FirstQuitTickExits | src/main.rs:198-208 | whenever the loop is still waiting with the quit flag up, the very next tick ends it with that state, whatever events follow |
| EventLoop.QuitWaitsForTick | src/main.rs:198-208 | Esc in list view only raises the flag and the loop waits; the following tick exits with that state |
| EventLoop.TickWithoutQuit | src/main.rs:202-207 | a tick with the flag down changes nothing and the loop goes on |
| EventLoop.LoopFromValid | src/main.rs:198-208 | from a valid state the loop never panics on any finite event stream and its state stays valid |

## Left out

- Terminal setup (raw mode, mouse terminal, alternate screen, backend, hidden cursor, src/main.rs:128-133) is I/O through the `termion` and `tui` crates. It is not modelled.
- The render closure (src/main.rs:143-196) is layout geometry, styles and widget calls into the external `tui` crate. Only its one index lookup, the chat title `items[i]`, is modelled (`ChatTitle`). The message labels `"<index>: <text>"` are left out because they need integer formatting.
- The event source `Events`/`Config` (src/main.rs:16, 136-137) is not part of this model. It reads input on a thread and ticks on a timer. The loop is modelled on a given finite prefix of its event stream instead.
- I/O errors from `events.next()` and `terminal.draw` and their propagation out of `main` are not modelled.
- The unused static tokens `fb_dstb` and `c_user` (src/main.rs:18-19) are left out.
- `Admissible`: `items.len() - 1` on an empty contact list is treated as a panic, which is what a debug build does. A release build would wrap it to `usize::MAX`. This case is unreachable from `App::new` either way.
- `selected` and the chat index are `nat` rather than `usize`. No index here can exceed the length of a vector, so no overflow is lost.
