/** The `App` struct of the messinator terminal client: its fields are
    updated in place, one key press at a time, by `ProcessEvents`, which is
    proved to perform exactly the transition `AppModel.Step`. */
module Messinator {
  import opened AppModel

  class App {
    var shouldQuit: bool
    var view: View
    var items: seq<string>
    var selected: Option<nat>
    var selectedItems: seq<string>
    var input: string
    var messages: seq<string>

    /** The current value of all fields. */
    function Snapshot(): AppState
      reads this
    {
      AppState(shouldQuit, view, items, selected, selectedItems, input, messages)
    }

    /** The object invariant: every index into `items` is in range, and
        neither list is empty. */
    ghost predicate Valid()
      reads this
    {
      ValidState(Snapshot())
    }

    /** The title of the message box in chat view (`app.items[i]`): on a
        valid object the index is in range, and the title is that contact. */
    function Title(): (name: string)
      reads this
      requires Valid() && view.Chat?
      ensures name == items[view.contact]
      ensures name in items
    {
      ChatTitle(Snapshot())
    }

    /** `App::new`. */
    constructor ()
      ensures Snapshot() == NewState()
      ensures Valid()
    {
      shouldQuit := false;
      view := List;
      items := Contacts;
      selected := None;
      selectedItems := SecondaryItems;
      input := [];
      messages := [];
    }

    /** `App::advance`, the idle hook called on every tick: it changes
        nothing. */
    method Advance()
      ensures Snapshot() == old(Snapshot())
    {
    }

    /** `App::process_events`: handles one key in place. The new state is
        `Step` of the old one, so every property proved about `Step` holds
        of it; in particular a valid object stays valid and the quit flag
        is never lowered. */
    method ProcessEvents(key: Key)
      requires Admissible(Snapshot(), key)
      modifies this
      ensures Snapshot() == Step(old(Snapshot()), key)
      ensures old(Valid()) ==> Valid()
      ensures old(shouldQuit) ==> shouldQuit
    {
      match view {
        case Chat(_) =>
          match key {
            case Esc =>
              view := List;
            case Char(c) =>
              if c == '\n' {
                // `input.drain(..)` moves the buffer out and leaves it empty
                var line := input;
                input := [];
                messages := messages + [line];
              } else {
                input := input + [c];
              }
            case Backspace =>
              if input != [] {
                input := input[..|input| - 1];
              }
            case _ =>
          }
        case List =>
          match key {
            case Esc =>
              shouldQuit := true;
            case Char(c) =>
              if c == 'r' {
                // `pop().unwrap()` then `insert(0, _)`
                var last := selectedItems[|selectedItems| - 1];
                selectedItems := selectedItems[..|selectedItems| - 1];
                selectedItems := [last] + selectedItems;
              } else if c == '\n' {
                if selected.Some? {
                  view := Chat(selected.value);
                }
              }
            case Left =>
              selected := None;
            case Down =>
              if selected.Some? {
                if selected.value >= |items| - 1 {
                  selected := Some(0);
                } else {
                  selected := Some(selected.value + 1);
                }
              } else {
                selected := Some(0);
              }
            case Up =>
              if selected.Some? {
                if selected.value > 0 {
                  selected := Some(selected.value - 1);
                } else {
                  selected := Some(|items| - 1);
                }
              } else {
                selected := Some(0);
              }
            case _ =>
          }
      }
    }
  }

  /** The end-to-end session on a fresh `App`: Down, Enter, "hi", Enter,
      Esc. The log holds "hi", the cursor is still on contact 0, the list
      view is back, and the buffer is empty. */
  method Session() returns (log: seq<string>, cursor: Option<nat>, back: View, buffer: string)
    ensures log == ["hi"] && cursor == Some(0) && back == List && buffer == []
  {
    var app := new App();
    app.ProcessEvents(Down);
    app.ProcessEvents(Char('\n'));
    app.ProcessEvents(Char('h'));
    app.ProcessEvents(Char('i'));
    assert app.input == [] + ['h'] + ['i'] == "hi";
    app.ProcessEvents(Char('\n'));
    app.ProcessEvents(Esc);
    log, cursor, back, buffer := app.messages, app.selected, app.view, app.input;
  }
}
