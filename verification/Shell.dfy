/** The shell's state, updated in place key by key: line buffer, history ring and screen. */
module Shell {
  import opened Screen
  import opened Console
  import opened Editor
  import Scancodes

  /** Where the ring keeps the line entered `back` lines ago. */
  function RingIndex(next: nat, back: nat): nat
    requires back < HISTORY_SIZE
  {
    (next + HISTORY_SIZE - 1 - back) % HISTORY_SIZE
  }

  /** The ring holds the last lines of the log: slot `next` is the oldest or still unused. */
  ghost predicate RingOk(ring: seq<string>, count: nat, next: nat, log: seq<string>) {
    && next == |log| % HISTORY_SIZE
    && count == (if |log| < HISTORY_SIZE then |log| else HISTORY_SIZE)
    && RingHolds(ring, count, next, log)
  }

  lemma RingIndexIs(next: nat, back: nat)
    requires next < HISTORY_SIZE && back < HISTORY_SIZE
    ensures RingIndex(next, back) == if back < next then next - 1 - back else next + HISTORY_SIZE - 1 - back
  {
  }

  /** The slot of the line entered one earlier, seen after the next one was stored. */
  lemma RingShift(next: nat, back: nat)
    requires next < HISTORY_SIZE && back < HISTORY_SIZE
    ensures var now := (next + 1) % HISTORY_SIZE;
            if back == 0 then RingIndex(now, 0) == next
            else RingIndex(now, back) == RingIndex(next, back - 1) != next
  {
    var now := (next + 1) % HISTORY_SIZE;
    assert now == if next == HISTORY_SIZE - 1 then 0 else next + 1;
    RingIndexIs(now, back);
    if back > 0 {
      RingIndexIs(next, back - 1);
    }
  }

  /** The recent lines of the log stand in the ring, newest just before `next`. */
  ghost predicate RingHolds(ring: seq<string>, count: nat, next: nat, log: seq<string>) {
    && |ring| == HISTORY_SIZE && next < HISTORY_SIZE && count <= HISTORY_SIZE && count <= |log|
    && forall back :: 0 <= back < count ==> ring[RingIndex(next, back)] == Recent(log, back)
  }

  lemma RingHoldsNext(ring: seq<string>, count: nat, next: nat, log: seq<string>, line: string, n: nat)
    requires RingHolds(ring, count, next, log) && n <= count + 1 && n <= HISTORY_SIZE
    ensures RingHolds(ring[next := line], n, (next + 1) % HISTORY_SIZE, log + [line])
  {
    var after, now, more := ring[next := line], (next + 1) % HISTORY_SIZE, log + [line];
    forall back | 0 <= back < n ensures after[RingIndex(now, back)] == Recent(more, back) {
      RingShift(next, back);
      if back > 0 {
        assert ring[RingIndex(next, back - 1)] == Recent(log, back - 1);
      }
    }
  }

  lemma SlotAfter(n: nat)
    ensures (n % HISTORY_SIZE + 1) % HISTORY_SIZE == (n + 1) % HISTORY_SIZE
  {
  }

  lemma RingAfterAdd(ring: seq<string>, count: nat, next: nat, log: seq<string>, line: string)
    requires RingOk(ring, count, next, log)
    ensures RingOk(ring[next := line], if count < HISTORY_SIZE then count + 1 else count,
                   (next + 1) % HISTORY_SIZE, log + [line])
  {
    SlotAfter(|log|);
    RingHoldsNext(ring, count, next, log, line, if count < HISTORY_SIZE then count + 1 else count);
  }

  class LineShell {
    const term: Terminal
    const shellBuffer: array<char>
    var idx: nat
    const history: array<string>
    var historyCount: nat
    var historyNext: nat
    var historyBrowseIndex: int
    var savedCurrent: string
    /** Every line stored since the start. */
    ghost var log: seq<string>

    /** The buffers have their sizes and the ring holds the last lines of the log. */
    ghost predicate Wired()
      reads this, term, term.screen, shellBuffer, history
    {
      && term.Valid() && shellBuffer != term.screen
      && shellBuffer.Length == LINE_MAX + 1 && idx <= LINE_MAX && history.Length == HISTORY_SIZE
      && RingOk(history[..], historyCount, historyNext, log)
    }

    ghost predicate Valid()
      reads this, term, term.screen, shellBuffer, history
    {
      Wired() && Good(State())
    }

    ghost function State(): Session
      requires idx <= shellBuffer.Length
      reads this, term, term.screen, shellBuffer
    {
      Session(shellBuffer[..idx], log, historyBrowseIndex, savedCurrent, term.State())
    }

    constructor ()
      ensures fresh(term) && fresh(term.screen) && fresh(shellBuffer) && fresh(history)
      ensures Valid() && State() == Session("", [], -1, "", CLEARED)
    {
      term := new Terminal();
      shellBuffer := new char[LINE_MAX + 1](_ => '\0');
      history := new string[HISTORY_SIZE](_ => "");
      idx, historyCount, historyNext, historyBrowseIndex, savedCurrent, log := 0, 0, 0, -1, "", [];
    }

    method HistoryAdd(line: string)
      requires history.Length == HISTORY_SIZE && RingOk(history[..], historyCount, historyNext, log)
      modifies this`historyCount, this`historyNext, this`log, history
      ensures RingOk(history[..], historyCount, historyNext, log)
      ensures log == if line == "" then old(log) else old(log) + [line]
    {
      if line == "" {
        return;
      }
      RingAfterAdd(history[..], historyCount, historyNext, log, line);
      ghost var was := history[..];
      history[historyNext] := line;
      assert history[..] == was[historyNext := line];
      historyNext := (historyNext + 1) % HISTORY_SIZE;
      if historyCount < HISTORY_SIZE {
        historyCount := historyCount + 1;
      }
      log := log + [line];
    }

    /** The line entered `back` lines ago, if the ring still has it. */
    method HistoryGet(back: nat) returns (found: bool, line: string)
      requires history.Length == HISTORY_SIZE && RingOk(history[..], historyCount, historyNext, log)
      ensures found <==> back < historyCount
      ensures found ==> back < |log| && line == Recent(log, back)
    {
      if back >= historyCount {
        return false, "";
      }
      var i := (historyNext + HISTORY_SIZE - 1 - back) % HISTORY_SIZE;
      assert history[..][RingIndex(historyNext, back)] == Recent(log, back);
      return true, history[i];
    }

    method EraseLine(n: nat)
      requires term.Valid()
      modifies term, term.screen
      ensures term.Valid() && term.State() == EraseN(old(term.State()), n)
    {
      var i := 0;
      while i < n
        invariant 0 <= i <= n && term.Valid()
        invariant EraseN(term.State(), n - i) == EraseN(old(term.State()), n)
      {
        term.PrintCharacter(BACKSPACE);
        i := i + 1;
      }
    }

    method RedrawLine(text: string)
      requires term.Valid() && shellBuffer != term.screen && shellBuffer.Length == LINE_MAX + 1 && idx <= LINE_MAX
      modifies this`idx, term, term.screen, shellBuffer
      ensures term.Valid() && idx <= LINE_MAX
      ensures State() == Redraw(old(State()), text)
    {
      EraseLine(idx);
      ghost var clip, start := Clip(text), term.State();
      var i := 0;
      assert clip[0..] == clip;
      while i < |text| && i < LINE_MAX
        invariant 0 <= i <= |clip| && term.Valid()
        invariant shellBuffer[..i] == clip[..i]
        invariant TypeAll(term.State(), clip[i..]) == TypeAll(start, clip)
      {
        assert clip[i..][0] == clip[i] && clip[i..][1..] == clip[i + 1..];
        shellBuffer[i] := text[i];
        term.PrintCharacter(text[i]);
        i := i + 1;
        assert shellBuffer[..i] == clip[..i];
      }
      shellBuffer[i] := '\0';
      idx := i;
      assert shellBuffer[..idx] == clip;
    }

    /** Keep the line in progress, so that Down can bring it back. */
    method StashLine()
      requires Wired()
      modifies this`savedCurrent, shellBuffer
      ensures Wired() && State() == old(State()).(saved := old(State().line))
    {
      ghost var line := shellBuffer[..idx];
      shellBuffer[idx] := '\0';
      assert shellBuffer[..idx] == line;
      savedCurrent := shellBuffer[..idx];
    }

    /** Put the line entered `back` lines ago in place of the current one. */
    method ShowEntry(back: nat)
      requires Wired() && back < historyCount
      modifies this`idx, this`historyBrowseIndex, term, term.screen, shellBuffer
      ensures Wired() && back < |log|
      ensures State() == Redraw(old(State()).(browse := back), Recent(log, back))
    {
      historyBrowseIndex := back;
      var found, entry := HistoryGet(back);
      RedrawLine(entry);
    }

    method OnUp()
      requires Valid()
      modifies this, term, term.screen, shellBuffer
      ensures Valid() && State() == PressUp(old(State()))
    {
      ghost var s := State();
      UpEffect(s);
      StashAndShow();
      assert State() == PressUp(s);
    }

    method StashAndShow()
      requires Wired() && -1 <= historyBrowseIndex
      modifies this`savedCurrent, this`idx, this`historyBrowseIndex, term, term.screen, shellBuffer
      ensures Wired() && State() == PressUp(old(State()))
    {
      if historyBrowseIndex == -1 {
        StashLine();
      }
      ShowOlder();
    }

    method ShowOlder()
      requires Wired() && -1 <= historyBrowseIndex
      modifies this`idx, this`historyBrowseIndex, term, term.screen, shellBuffer
      ensures Wired()
      ensures var t := old(State());
              State() == if t.browse + 1 < Count(t) then Redraw(t.(browse := t.browse + 1), Recent(t.log, t.browse + 1)) else t
    {
      assert historyCount == Count(State());
      if historyBrowseIndex + 1 < historyCount {
        ShowEntry(historyBrowseIndex + 1);
      }
    }

    method OnDown()
      requires Valid()
      modifies this, term, term.screen, shellBuffer
      ensures Valid() && State() == PressDown(old(State()))
    {
      ghost var s := State();
      DownEffect(s);
      ShowNewer();
      assert State() == PressDown(s);
    }

    method ShowNewer()
      requires Wired() && -1 <= historyBrowseIndex <= historyCount
      modifies this`idx, this`historyBrowseIndex, term, term.screen, shellBuffer
      ensures Wired() && State() == PressDown(old(State()))
    {
      if historyBrowseIndex > 0 {
        ShowEntry(historyBrowseIndex - 1);
      } else if historyBrowseIndex == 0 {
        historyBrowseIndex := -1;
        RedrawLine(savedCurrent);
      }
    }

    /** Enter: the line is stored and run. The command is any step that leaves `after` on the
        screen; it may scribble over the line buffer, and nothing else of the shell. */
    method OnEnter(after: Display, scribble: seq<char>, prompt: string)
      requires Valid() && Proper(after) && |scribble| == LINE_MAX + 1
      modifies this, term, term.screen, shellBuffer, history
      ensures Valid() && State() == Press(old(State()), Enter(after, prompt))
    {
      PressKeeps(State(), Enter(after, prompt));
      term.PrintCharacter('\n');
      ghost var line := shellBuffer[..idx];
      shellBuffer[idx] := '\0';
      assert shellBuffer[..idx] == line;
      HistoryAdd(shellBuffer[..idx]);
      historyBrowseIndex := -1;
      InterpretCommand(after, scribble);
      idx := 0;
      term.PrintString(prompt);
    }

    /** A command, of which only the screen it leaves matters here. */
    method InterpretCommand(after: Display, scribble: seq<char>)
      requires term.screen.Length == SIZE && Proper(after)
      requires shellBuffer != term.screen && shellBuffer.Length == |scribble|
      modifies term, term.screen, shellBuffer
      ensures term.Valid() && term.State() == after && shellBuffer[..] == scribble
    {
      forall i | 0 <= i < SIZE { term.screen[i] := after.cells[i]; }
      forall i | 0 <= i < |scribble| { shellBuffer[i] := scribble[i]; }
      term.cursor, term.scrolls := after.cursor, after.scrolls;
      assert term.screen[..] == after.cells;
    }

    /** A character or a backspace. */
    method OnText(c: char)
      requires Valid() && c != '\n' && c != '\0'
      modifies this, term, term.screen, shellBuffer
      ensures Valid() && State() == Press(old(State()), if c == BACKSPACE then Erase else Type(c))
    {
      ghost var s := State();
      PressKeeps(s, if c == BACKSPACE then Erase else Type(c));
      if c == BACKSPACE {
        EraseChar();
      } else {
        TypeChar(c);
      }
      assert State() == Press(s, if c == BACKSPACE then Erase else Type(c));
    }

    method EraseChar()
      requires Wired() && -1 <= historyBrowseIndex <= |log|
      modifies this`idx, term, term.screen
      ensures Wired() && State() == Press(old(State()), Erase)
    {
      ghost var line := shellBuffer[..idx];
      if idx > 0 {
        idx := idx - 1;
        assert shellBuffer[..idx] == line[..|line| - 1];
        term.PrintCharacter(BACKSPACE);
      }
    }

    method TypeChar(c: char)
      requires Wired() && -1 <= historyBrowseIndex <= |log|
      modifies this`idx, term, term.screen, shellBuffer
      ensures Wired() && State() == Press(old(State()), Type(c))
    {
      ghost var line := shellBuffer[..idx];
      if idx < LINE_MAX {
        shellBuffer[idx] := c;
        idx := idx + 1;
        assert shellBuffer[..idx] == line + [c];
        term.PrintCharacter(c);
      }
    }

    /** One turn of the shell loop with the character just popped: nothing when there is none,
        else the key it stands for. The other parameters are those of Enter. */
    method OnKey(c: char, after: Display, scribble: seq<char>, prompt: string)
      requires Valid() && Proper(after) && |scribble| == LINE_MAX + 1
      modifies this, term, term.screen, shellBuffer, history
      ensures Valid()
      ensures State() == if c == '\0' then old(State()) else Press(old(State()), KeyFor(c, after, prompt))
    {
      if c == '\0' {
        return;
      }
      if c == Scancodes.KEY_UP {
        OnUp();
        return;
      }
      if c == Scancodes.KEY_DOWN {
        OnDown();
        return;
      }
      if c == '\n' {
        OnEnter(after, scribble, prompt);
        return;
      }
      OnText(c);
    }
  }
}
