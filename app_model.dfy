/** Value-level model of the messinator application state and of the
    transition that one key press performs on it (`App::process_events`).
    The class in app.dfy updates its fields in place and is proved to agree
    with `Step`; the lemmas in app_properties.dfy are stated over `Step`. */
module AppModel {

  datatype Option<T> = None | Some(value: T)

  /** The active screen: the contact list, or the chat opened on the
      contact at index `contact` of the contact list. */
  datatype View = List | Chat(contact: nat)

  /** The keys the transition distinguishes. Enter arrives as `Char('\n')`;
      every key that no arm of either view names is `Other`. */
  datatype Key = Esc | Char(c: char) | Backspace | Left | Up | Down | Other

  /** A snapshot of the fields of `App`. `selected` and the index carried by
      `Chat` are `usize` in the source; they never exceed the length of a
      vector here, so `nat` loses nothing. */
  datatype AppState = AppState(
    shouldQuit: bool,
    view: View,
    items: seq<string>,
    selected: Option<nat>,
    selectedItems: seq<string>,
    input: string,
    messages: seq<string>)

  /** The contact names `App::new` fills in; they never change afterwards. */
  const Contacts: seq<string> :=
    ["Dovy", "Ingveldur", "Guðmundur", "Andri", "Sigmar", "Jón", "Gestur", "Siggi", "Þórhildur"]

  /** The initial contents of the rotatable secondary list. */
  const SecondaryItems: seq<string> := ["test", "test2", "test3"]

  /** The invariant every reachable state keeps: the contact list is not
      empty, the secondary list is not empty, and every index into the
      contact list (the cursor and the chat's contact) is in range. */
  ghost predicate ValidState(s: AppState)
  {
    && |s.items| > 0
    && |s.selectedItems| > 0
    && (s.selected.Some? ==> s.selected.value < |s.items|)
    && (s.view.Chat? ==> s.view.contact < |s.items|)
  }

  /** `App::new`: list view, no selection, empty buffer and log. */
  function NewState(): (s: AppState)
    ensures ValidState(s)
  {
    AppState(false, List, Contacts, None, SecondaryItems, [], [])
  }

  /** The key presses on which the source does not panic. In list view,
      'r' pops the last secondary item and unwraps it; Down on a selection
      computes `items.len() - 1`; Up on selection 0 does the same. The
      subtraction underflows on an empty contact list. */
  predicate Admissible(s: AppState, k: Key)
  {
    s.view.List? ==>
      && (k == Char('r') ==> |s.selectedItems| > 0)
      && (k == Down && s.selected.Some? ==> |s.items| > 0)
      && (k == Up && s.selected == Some(0) ==> |s.items| > 0)
  }

  /** Down in list view: the cursor moves to the next contact, wrapping from
      the last one (or any index past it) back to the first. */
  function SelectNext(sel: Option<nat>, n: nat): (r: Option<nat>)
    requires sel.Some? ==> n > 0
    ensures r.Some?
    ensures n > 0 ==> r.value < n
  {
    match sel
    case None => Some(0)
    case Some(i) => if i >= n - 1 then Some(0) else Some(i + 1)
  }

  /** Up in list view: the cursor moves to the previous contact, wrapping
      from the first one to the last. */
  function SelectPrevious(sel: Option<nat>, n: nat): (r: Option<nat>)
    requires sel == Some(0) ==> n > 0
    ensures r.Some?
    ensures n > 0 && (sel.Some? ==> sel.value < n) ==> r.value < n
  {
    match sel
    case None => Some(0)
    case Some(i) => if i > 0 then Some(i - 1) else Some(n - 1)
  }

  /** `pop` followed by `insert(0, _)`: the last element moves to the front. */
  function Rotate<T>(s: seq<T>): (r: seq<T>)
    requires |s| > 0
    ensures |r| == |s|
    ensures multiset(r) == multiset(s)
    ensures r[0] == s[|s| - 1]
  {
    var last := |s| - 1;
    assert s == s[..last] + [s[last]];
    [s[last]] + s[..last]
  }

  /** `String::pop` with its result discarded: drops the last character,
      and leaves an empty string as it is. */
  function DropLast(s: string): (r: string)
    ensures s == [] ==> r == []
    ensures s != [] ==> r + [s[|s| - 1]] == s
  {
    if s == [] then [] else s[..|s| - 1]
  }

  /** `App::process_events`: the state after one key press. Arms are tried
      in source order, so in chat view Enter is not typed into the buffer,
      and in list view 'r' and Enter are handled before the catch-all. */
  function Step(s: AppState, k: Key): (r: AppState)
    requires Admissible(s, k)
    ensures r.items == s.items
    ensures s.shouldQuit ==> r.shouldQuit
    ensures s.messages <= r.messages
    ensures ValidState(s) ==> ValidState(r)
  {
    match s.view
    case Chat(_) =>
      (match k
      case Esc => s.(view := List)
      case Char(c) =>
        if c == '\n' then s.(messages := s.messages + [s.input], input := [])
        else s.(input := s.input + [c])
      case Backspace => s.(input := DropLast(s.input))
      case _ => s)
    case List =>
      match k
      case Esc => s.(shouldQuit := true)
      case Char(c) =>
        if c == 'r' then s.(selectedItems := Rotate(s.selectedItems))
        else if c == '\n' then
          (if s.selected.Some? then s.(view := Chat(s.selected.value)) else s)
        else s
      case Left => s.(selected := None)
      case Down => s.(selected := SelectNext(s.selected, |s.items|))
      case Up => s.(selected := SelectPrevious(s.selected, |s.items|))
      case _ => s
  }

  /** The title of the message box in chat view: the name of the contact
      the chat was opened on. */
  function ChatTitle(s: AppState): (name: string)
    requires s.view.Chat? && s.view.contact < |s.items|
    ensures name in s.items
  {
    s.items[s.view.contact]
  }

  /** A sequence of key presses is admissible when each one is, in the
      state the previous ones lead to. */
  predicate AdmissibleRun(s: AppState, ks: seq<Key>)
    decreases |ks|
  {
    ks == [] || (Admissible(s, ks[0]) && AdmissibleRun(Step(s, ks[0]), ks[1..]))
  }

  /** The state after the key presses `ks`, one `process_events` call each. */
  function Run(s: AppState, ks: seq<Key>): (r: AppState)
    requires AdmissibleRun(s, ks)
    ensures r.items == s.items
    ensures s.shouldQuit ==> r.shouldQuit
    ensures s.messages <= r.messages
    ensures ValidState(s) ==> ValidState(r)
    decreases |ks|
  {
    if ks == [] then s else Run(Step(s, ks[0]), ks[1..])
  }
}
