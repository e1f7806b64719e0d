/** What the transition of app_model.dfy guarantees: the cursor's
    wrap-around, the rotation of the secondary list, the text buffer and the
    message log, view switching, and the invariant that keeps every index
    into the contact list in range. */
module AppProperties {
  import opened AppModel

  /** The same key pressed `m` times. */
  function Repeat(k: Key, m: nat): (ks: seq<Key>)
  {
    seq(m, _ => k)
  }

  /** The key presses that type the characters of `w`, one by one. */
  function Typing(w: string): (ks: seq<Key>)
  {
    seq(|w|, i requires 0 <= i < |w| => Char(w[i]))
  }

  /** Applying `Rotate` `k` times. */
  function Rotations<T>(s: seq<T>, k: nat): (r: seq<T>)
    requires |s| > 0
    ensures |r| == |s|
    ensures multiset(r) == multiset(s)
  {
    if k == 0 then s else Rotate(Rotations(s, k - 1))
  }

  // ---------------------------------------------------------------------
  // Running several keys

  /** One more key press after a run is one more step. */
  lemma {:induction false} RunSnoc(s: AppState, ks: seq<Key>, k: Key)
    requires AdmissibleRun(s, ks)
    requires Admissible(Run(s, ks), k)
    ensures AdmissibleRun(s, ks + [k])
    ensures Run(s, ks + [k]) == Step(Run(s, ks), k)
    decreases |ks|
  {
    if ks == [] {
      assert ks + [k] == [k];
    } else {
      assert (ks + [k])[1..] == ks[1..] + [k];
      RunSnoc(Step(s, ks[0]), ks[1..], k);
    }
  }

  /** A valid state admits every key: the panics of the source are out of
      reach from a valid state. */
  lemma ValidAdmitsEveryKey(s: AppState, k: Key)
    requires ValidState(s)
    ensures Admissible(s, k)
  {
  }

  /** From a valid state, every sequence of keys runs without a panic and
      ends in a valid state. */
  lemma {:induction false} ValidAdmitsEveryRun(s: AppState, ks: seq<Key>)
    requires ValidState(s)
    ensures AdmissibleRun(s, ks)
    ensures ValidState(Run(s, ks))
    decreases |ks|
  {
    if ks != [] {
      ValidAdmitsEveryRun(Step(s, ks[0]), ks[1..]);
    }
  }

  /** Every state reachable from `App::new` is valid, so the chat title
      lookup `items[i]` of the render function is always in range. */
  lemma ReachableStatesAreValid(ks: seq<Key>)
    ensures AdmissibleRun(NewState(), ks)
    ensures ValidState(Run(NewState(), ks))
    ensures Run(NewState(), ks).view.Chat? ==>
              Run(NewState(), ks).view.contact < |Contacts|
  {
    ValidAdmitsEveryRun(NewState(), ks);
  }

  // ---------------------------------------------------------------------
  // Cursor movement in list view

  /** Down: None and the last index go to the first contact, any other
      index to the next one; nothing but the cursor changes. */
  lemma DownMovesCursor(s: AppState)
    requires s.view.List? && |s.items| > 0
    ensures var r := Step(s, Down);
      && r == s.(selected := r.selected)
      && (s.selected == None ==> r.selected == Some(0))
      && (s.selected == Some(|s.items| - 1) ==> r.selected == Some(0))
      && (s.selected.Some? && s.selected.value < |s.items| - 1 ==>
            r.selected == Some(s.selected.value + 1))
  {
  }

  /** Up: None goes to the first contact, the first to the last, any other
      index to the previous one; nothing but the cursor changes. */
  lemma UpMovesCursor(s: AppState)
    requires s.view.List? && |s.items| > 0
    ensures var r := Step(s, Up);
      && r == s.(selected := r.selected)
      && (s.selected == None ==> r.selected == Some(0))
      && (s.selected == Some(0) ==> r.selected == Some(|s.items| - 1))
      && (s.selected.Some? && s.selected.value > 0 ==>
            r.selected == Some(s.selected.value - 1))
  {
  }

  /** Left clears the cursor and changes nothing else. */
  lemma LeftClearsCursor(s: AppState)
    requires s.view.List?
    ensures Step(s, Left) == s.(selected := None)
  {
  }

  /** Up and Down undo each other on any selected contact. */
  lemma UpDownInverse(s: AppState)
    requires s.view.List? && ValidState(s) && s.selected.Some?
    ensures Step(Step(s, Up), Down) == s
    ensures Step(Step(s, Down), Up) == s
  {
  }

  /** Euclidean remainder is determined by any quotient/remainder pair. */
  lemma ModUnique(a: int, n: int, q: int, r: int)
    requires n > 0 && 0 <= r < n && a == q * n + r
    ensures a % n == r
  {
    var d := q - a / n;
    assert d * n == a % n - r;
  }

  /** Pressing Down k+1 times from no selection visits 0, 1, ..., n-1, 0, ...:
      the cursor ends on contact k mod n, and nothing else changes. */
  lemma {:induction false} DownPressesCycle(s: AppState, k: nat)
    requires s.view.List? && |s.items| > 0 && s.selected == None
    ensures AdmissibleRun(s, Repeat(Down, k + 1))
    ensures Run(s, Repeat(Down, k + 1)) == s.(selected := Some(k % |s.items|))
  {
    var n := |s.items|;
    if k == 0 {
      assert Repeat(Down, 1) == [Down];
    } else {
      DownPressesCycle(s, k - 1);
      assert Repeat(Down, k + 1) == Repeat(Down, k) + [Down];
      RunSnoc(s, Repeat(Down, k), Down);
      var j, q := (k - 1) % n, (k - 1) / n;
      assert k - 1 == q * n + j;
      if j == n - 1 {
        ModUnique(k, n, q + 1, 0);
      } else {
        ModUnique(k, n, q, j + 1);
      }
    }
  }

  /** Pressing Up k+1 times from no selection visits 0, n-1, n-2, ..., 0,
      n-1, ...: the cursor ends on contact (-k) mod n. */
  lemma {:induction false} UpPressesCycle(s: AppState, k: nat)
    requires s.view.List? && |s.items| > 0 && s.selected == None
    ensures AdmissibleRun(s, Repeat(Up, k + 1))
    ensures Run(s, Repeat(Up, k + 1)) == s.(selected := Some((-(k as int)) % |s.items|))
  {
    var n := |s.items|;
    if k == 0 {
      assert Repeat(Up, 1) == [Up];
    } else {
      UpPressesCycle(s, k - 1);
      assert Repeat(Up, k + 1) == Repeat(Up, k) + [Up];
      RunSnoc(s, Repeat(Up, k), Up);
      var j, q := (1 - k) % n, (1 - k) / n;
      assert 1 - k == q * n + j;
      if j == 0 {
        ModUnique(-(k as int), n, q - 1, n - 1);
      } else {
        ModUnique(-(k as int), n, q, j - 1);
      }
    }
  }

  // ---------------------------------------------------------------------
  // Rotation of the secondary list

  /** After k rotations (k at most the length) the last k elements lead. */
  lemma {:induction false} RotationsSplit<T>(s: seq<T>, k: nat)
    requires 0 < |s| && k <= |s|
    ensures Rotations(s, k) == s[|s| - k..] + s[..|s| - k]
  {
    if k == 0 {
      assert s[|s|..] + s[..|s|] == s;
    } else {
      RotationsSplit(s, k - 1);
      var m := |s| - k;
      var t := s[m + 1..] + s[..m + 1];
      assert t[..|t| - 1] == s[m + 1..] + s[..m];
      assert t[|t| - 1] == s[m];
      assert [s[m]] + (s[m + 1..] + s[..m]) == s[m..] + s[..m];
    }
  }

  /** Rotating as many times as there are elements restores the list. */
  lemma RotationsRestore<T>(s: seq<T>)
    requires |s| > 0
    ensures Rotations(s, |s|) == s
  {
    RotationsSplit(s, |s|);
  }

  /** Pressing 'r' k times in list view rotates the secondary list k times
      and changes nothing else. */
  lemma {:induction false} RotateKeyPresses(s: AppState, k: nat)
    requires s.view.List? && |s.selectedItems| > 0
    ensures AdmissibleRun(s, Repeat(Char('r'), k))
    ensures Run(s, Repeat(Char('r'), k)) ==
              s.(selectedItems := Rotations(s.selectedItems, k))
  {
    if k == 0 {
      assert Repeat(Char('r'), 0) == [];
    } else {
      RotateKeyPresses(s, k - 1);
      assert Repeat(Char('r'), k) == Repeat(Char('r'), k - 1) + [Char('r')];
      RunSnoc(s, Repeat(Char('r'), k - 1), Char('r'));
    }
  }

  /** Pressing 'r' once per secondary item gives back the state it began
      with. */
  lemma RotateKeyRoundTrip(s: AppState)
    requires s.view.List? && |s.selectedItems| > 0
    ensures AdmissibleRun(s, Repeat(Char('r'), |s.selectedItems|))
    ensures Run(s, Repeat(Char('r'), |s.selectedItems|)) == s
  {
    RotateKeyPresses(s, |s.selectedItems|);
    RotationsRestore(s.selectedItems);
  }

  /** ["a","b","c"] becomes ["c","a","b"] after one rotation and
      ["b","c","a"] after two. */
  lemma RotateExample()
    ensures Rotate(["a", "b", "c"]) == ["c", "a", "b"]
    ensures Rotations(["a", "b", "c"], 2) == ["b", "c", "a"]
  {
    RotationsSplit(["a", "b", "c"], 2);
  }

  // ---------------------------------------------------------------------
  // Entering and leaving a chat, quitting

  /** Enter in list view opens the chat of the selected contact, keeping
      the cursor, buffer and log; with no selection it does nothing. */
  lemma EnterOpensChat(s: AppState)
    requires s.view.List?
    ensures s.selected == None ==> Step(s, Char('\n')) == s
    ensures s.selected.Some? ==>
              Step(s, Char('\n')) == s.(view := Chat(s.selected.value))
  {
  }

  /** Esc in list view raises the quit flag and keeps the view; Esc in a
      chat returns to the list and keeps the cursor and the quit flag. */
  lemma EscapeKey(s: AppState)
    ensures s.view.List? ==> Step(s, Esc) == s.(shouldQuit := true)
    ensures s.view.Chat? ==> Step(s, Esc) == s.(view := List)
  {
  }

  /** Opening the selected chat and leaving it with Esc restores the whole
      state, the cursor included. */
  lemma EnterThenEscRestores(s: AppState)
    requires s.view.List? && s.selected.Some?
    ensures Step(Step(s, Char('\n')), Esc) == s
  {
  }

  /** The keys a view has no arm for change nothing. */
  lemma UnmatchedKeysIgnored(s: AppState, k: Key)
    requires s.view.List? ==>
               k.Backspace? || k.Other? || (k.Char? && k.c != 'r' && k.c != '\n')
    requires s.view.Chat? ==> k.Left? || k.Up? || k.Down? || k.Other?
    ensures Step(s, k) == s
  {
  }

  // ---------------------------------------------------------------------
  // The input buffer and the message log in chat view

  /** Enter in a chat appends the whole buffer, even an empty one, as one
      new last message, keeps the earlier messages, and empties the buffer. */
  lemma CommitAppendsInput(s: AppState)
    requires s.view.Chat?
    ensures var r := Step(s, Char('\n'));
      && |r.messages| == |s.messages| + 1
      && r.messages[..|s.messages|] == s.messages
      && r.messages[|s.messages|] == s.input
      && r == s.(messages := r.messages, input := [])
  {
  }

  /** Backspace on a non-empty buffer removes exactly its last character
      and changes nothing else. */
  lemma BackspaceDropsLast(s: AppState)
    requires s.view.Chat? && s.input != []
    ensures Step(s, Backspace) == s.(input := s.input[..|s.input| - 1])
  {
  }

  /** Backspace undoes the typing of one character, and does nothing to an
      empty buffer. */
  lemma BackspaceUndoesTyping(s: AppState, c: char)
    requires s.view.Chat? && c != '\n'
    ensures Step(Step(s, Char(c)), Backspace) == s
    ensures s.input == [] ==> Step(s, Backspace) == s
  {
    assert (s.input + [c])[..|s.input|] == s.input;
  }

  /** Typing a text without newlines in a chat appends it to the buffer and
      changes nothing else. */
  lemma {:induction false} TypingAppends(s: AppState, w: string)
    requires s.view.Chat? && '\n' !in w
    ensures AdmissibleRun(s, Typing(w))
    ensures Run(s, Typing(w)) == s.(input := s.input + w)
    decreases |w|
  {
    if w == [] {
      assert Typing(w) == [];
      assert s.input + w == s.input;
    } else {
      var v, c := w[..|w| - 1], w[|w| - 1];
      assert w == v + [c];
      TypingAppends(s, v);
      assert Typing(w) == Typing(v) + [Char(c)];
      RunSnoc(s, Typing(v), Char(c));
      assert s.input + v + [c] == s.input + w;
    }
  }

  /** Typing a text and pressing Enter logs the buffer followed by that
      text as one message and leaves the buffer empty. */
  lemma TypeThenCommit(s: AppState, w: string)
    requires s.view.Chat? && '\n' !in w
    ensures AdmissibleRun(s, Typing(w) + [Char('\n')])
    ensures Run(s, Typing(w) + [Char('\n')]) ==
              s.(messages := s.messages + [s.input + w], input := [])
  {
    TypingAppends(s, w);
    RunSnoc(s, Typing(w), Char('\n'));
  }

  /** From start: Down selects contact 0, Enter opens its chat, "hi" and
      Enter log "hi", Esc returns to the list with contact 0 still selected. */
  lemma SessionScenario()
    ensures var ks := [Down, Char('\n'), Char('h'), Char('i'), Char('\n'), Esc];
      && AdmissibleRun(NewState(), ks)
      && Run(NewState(), ks) == NewState().(selected := Some(0), messages := ["hi"])
  {
    var s0 := NewState();
    var s1 := Step(s0, Down);
    var s2 := Step(s1, Char('\n'));
    assert s2.view == Chat(0);
    TypeThenCommit(s2, "hi");
    assert Typing("hi") + [Char('\n')] == [Char('h'), Char('i'), Char('\n')];
    var s5 := Run(s2, [Char('h'), Char('i'), Char('\n')]);
    assert s2.input == [] && s2.messages == [];
    assert s2.input + "hi" == "hi";
    assert s5 == s2.(messages := ["hi"]);
    RunSnoc(s2, [Char('h'), Char('i'), Char('\n')], Esc);
    var ks := [Down, Char('\n'), Char('h'), Char('i'), Char('\n'), Esc];
    assert ks[2..] == [Char('h'), Char('i'), Char('\n')] + [Esc];
    assert Run(s0, ks) == Run(s2, ks[2..]);
  }
}
