/** The shell's line editor: keys, history and the line as it stands on the screen. */
module Editor {
  import opened Screen
  import Scancodes

  const LINE_MAX := 127
  const HISTORY_SIZE := 16

  /** `line` is `shell_buffer[..idx]`, `log` every line stored so far (the ring keeps the last
      16), `browse` is -1 on the live line, `saved` the stashed live line. */
  datatype Session = Session(line: string, log: seq<string>, browse: int, saved: string, display: Display)

  /** `Enter` carries the screen the command leaves behind and the prompt printed on it. */
  datatype Key = Up | Down | Enter(after: Display, prompt: string) | Erase | Type(c: char)

  function Count(s: Session): nat {
    if |s.log| < HISTORY_SIZE then |s.log| else HISTORY_SIZE
  }

  /** The k-th most recent line. */
  function Recent(log: seq<string>, k: nat): string
    requires k < |log|
  {
    log[|log| - 1 - k]
  }

  // ---------------------------------------------------------------- redrawing

  function EraseN(d: Display, n: nat): (r: Display)
    requires Proper(d)
    ensures Proper(r)
    decreases n
  {
    if n == 0 then d else EraseN(Back(d), n - 1)
  }

  function TypeAll(d: Display, text: string): (r: Display)
    requires Proper(d)
    ensures Proper(r)
    decreases |text|
  {
    if text == "" then d else TypeAll(PrintChar(d, text[0]), text[1..])
  }

  function Clip(text: string): string {
    if |text| <= LINE_MAX then text else text[..LINE_MAX]
  }

  /** `redraw_line`: the old line erased, the new one in its place. */
  function Redraw(s: Session, text: string): Session
    requires Proper(s.display)
  {
    s.(line := Clip(text), display := TypeAll(EraseN(s.display, |s.line|), Clip(text)))
  }

  // ---------------------------------------------------------------- keys

  function PressUp(s: Session): Session
    requires Proper(s.display) && -1 <= s.browse
  {
    var t := if s.browse == -1 then s.(saved := s.line) else s;
    if s.browse + 1 < Count(s) then Redraw(t.(browse := s.browse + 1), Recent(s.log, s.browse + 1)) else t
  }

  function PressDown(s: Session): Session
    requires Proper(s.display) && -1 <= s.browse <= |s.log|
  {
    if s.browse > 0 then Redraw(s.(browse := s.browse - 1), Recent(s.log, s.browse - 1))
    else if s.browse == 0 then Redraw(s.(browse := -1), s.saved)
    else s
  }

  function Press(s: Session, k: Key): Session
    requires Proper(s.display) && -1 <= s.browse <= |s.log|
    requires k.Enter? ==> Proper(k.after)
  {
    match k
    case Up => PressUp(s)
    case Down => PressDown(s)
    case Enter(after, prompt) =>
      Session("", if s.line == "" then s.log else s.log + [s.line], -1, s.saved, PrintText(after, prompt))
    case Erase =>
      if s.line == "" then s else s.(line := s.line[..|s.line| - 1], display := Back(s.display))
    case Type(c) =>
      if |s.line| < LINE_MAX then s.(line := s.line + [c], display := PrintChar(s.display, c)) else s
  }

  // ---------------------------------------------------------------- the invariant

  predicate Plain(text: string) {
    forall i :: 0 <= i < |text| ==> text[i] != '\n' && text[i] != BACKSPACE && text[i] != '\0'
  }

  predicate LineOk(text: string) {
    |text| <= LINE_MAX && Plain(text)
  }

  /** The cells just before the cursor hold the line. */
  predicate OnScreen(d: Display, line: string) {
    Proper(d) && |line| <= d.cursor && d.cells[d.cursor - |line|..d.cursor] == line
  }

  predicate Good(s: Session) {
    && LineOk(s.line) && LineOk(s.saved)
    && (forall i :: 0 <= i < |s.log| ==> LineOk(s.log[i]) && s.log[i] != "")
    && -1 <= s.browse < Count(s)
    && OnScreen(s.display, s.line)
  }

  /** The keys the shell loop passes on as text. */
  predicate KeyOk(k: Key) {
    && (k.Type? ==> Plain([k.c]))
    && (k.Enter? ==> Proper(k.after))
  }

  /** What the shell loop makes of a character from the keyboard; 0 means none is waiting. */
  function KeyFor(c: char, after: Display, prompt: string): (k: Key)
    requires c != '\0' && Proper(after)
    ensures KeyOk(k)
  {
    if c == Scancodes.KEY_UP then Up
    else if c == Scancodes.KEY_DOWN then Down
    else if c == '\n' then Enter(after, prompt)
    else if c == BACKSPACE then Erase
    else Type(c)
  }

  lemma DrawnBefore(cells: seq<char>, cursor: nat, line: string, c: char)
    requires cursor < |cells| && |line| <= cursor && cells[cursor - |line|..cursor] == line
    ensures cells[cursor := c][cursor - |line|..cursor + 1] == line + [c]
  {
    var after, start := cells[cursor := c], cursor - |line|;
    forall k | 0 <= k < |line| + 1 ensures after[start..cursor + 1][k] == (line + [c])[k] {
      if k < |line| {
        assert cells[start..cursor][k] == cells[start + k];
      }
    }
  }

  /** A scroll moves the line and the cursor together. */
  lemma ScrolledLine(d: Display, line: string)
    requires |d.cells| == SIZE && WIDTH + |line| <= d.cursor <= SIZE && d.cells[d.cursor - |line|..d.cursor] == line
    ensures var r := Scroll(d); r.cells[r.cursor - |line|..r.cursor] == line
  {
    var r := Scroll(d);
    forall k | 0 <= k < |line| ensures r.cells[r.cursor - |line|..r.cursor][k] == line[k] {
      assert d.cells[d.cursor - |line|..d.cursor][k] == line[k];
    }
  }

  lemma PutOnScreen(d: Display, line: string, c: char)
    requires OnScreen(d, line) && |line| < LINE_MAX
    ensures OnScreen(Put(d, c), line + [c])
  {
    var e := Display(d.cells[d.cursor := c], d.cursor + 1, d.scrolls);
    DrawnBefore(d.cells, d.cursor, line, c);
    if e.cursor == SIZE {
      ScrolledLine(e, line + [c]);
      assert Advance(e) == Advance(Scroll(e)) == Scroll(e);
    }
  }

  lemma BackOnScreen(d: Display, line: string)
    requires OnScreen(d, line) && line != ""
    ensures OnScreen(Back(d), line[..|line| - 1])
  {
    var e, n := Back(d), |line| - 1;
    assert e.cells[e.cursor - n..e.cursor] == d.cells[d.cursor - |line|..d.cursor][..n];
  }

  lemma {:induction false} EraseOnScreen(d: Display, line: string)
    requires OnScreen(d, line)
    ensures OnScreen(EraseN(d, |line|), "")
    decreases |line|
  {
    if line != "" {
      BackOnScreen(d, line);
      EraseOnScreen(Back(d), line[..|line| - 1]);
    }
  }

  lemma {:induction false} TypeOnScreen(d: Display, line: string, text: string)
    requires OnScreen(d, line) && |line| + |text| <= LINE_MAX && Plain(text)
    ensures OnScreen(TypeAll(d, text), line + text)
    decreases |text|
  {
    if text == "" {
      assert line + text == line;
    } else {
      PutOnScreen(d, line, text[0]);
      TypeOnScreen(PrintChar(d, text[0]), line + [text[0]], text[1..]);
      assert line + [text[0]] + text[1..] == line + text;
    }
  }

  lemma {:induction false} EraseTidy(d: Display, n: nat)
    requires Proper(d) && Tidy(d)
    ensures Tidy(EraseN(d, n))
    decreases n
  {
    if n > 0 {
      CharTidy(d, BLANK);
      EraseTidy(Back(d), n - 1);
    }
  }

  lemma {:induction false} TypeTidy(d: Display, text: string)
    requires Proper(d) && Tidy(d)
    ensures Tidy(TypeAll(d, text))
    decreases |text|
  {
    if text != "" {
      CharTidy(d, text[0]);
      TypeTidy(PrintChar(d, text[0]), text[1..]);
    }
  }

  /** A redraw puts the new line before the cursor, and leaves nothing of the old one behind it. */
  lemma RedrawOnScreen(s: Session, text: string)
    requires OnScreen(s.display, s.line) && LineOk(text)
    ensures OnScreen(Redraw(s, text).display, text) && Redraw(s, text).line == text
    ensures Tidy(s.display) ==> Tidy(Redraw(s, text).display)
  {
    EraseOnScreen(s.display, s.line);
    TypeOnScreen(EraseN(s.display, |s.line|), "", text);
    assert "" + text == text;
    if Tidy(s.display) {
      EraseTidy(s.display, |s.line|);
      TypeTidy(EraseN(s.display, |s.line|), Clip(text));
    }
  }

  lemma RedrawKeeps(s: Session, text: string)
    requires Good(s) && LineOk(text)
    ensures Good(Redraw(s, text)) && Redraw(s, text).line == text
  {
    RedrawOnScreen(s, text);
  }

  /** The line after an Up: the next older one if there is any. */
  lemma UpEffect(s: Session)
    requires Good(s)
    ensures var t := PressUp(s);
            && Good(t) && t.log == s.log
            && t.saved == (if s.browse == -1 then s.line else s.saved)
            && t.browse == (if s.browse + 1 < Count(s) then s.browse + 1 else s.browse)
            && t.line == (if t.browse > s.browse then Recent(s.log, t.browse) else s.line)
  {
    if s.browse + 1 < Count(s) {
      var t := if s.browse == -1 then s.(saved := s.line) else s;
      RedrawKeeps(t.(browse := s.browse + 1), Recent(s.log, s.browse + 1));
    }
  }

  /** The line after a Down: the next newer one, at last the stashed live line. */
  lemma DownEffect(s: Session)
    requires Good(s)
    ensures var t := PressDown(s);
            && Good(t) && t.log == s.log && t.saved == s.saved
            && t.browse == (if s.browse >= 0 then s.browse - 1 else -1)
            && t.line == (if s.browse > 0 then Recent(s.log, s.browse - 1)
                          else if s.browse == 0 then s.saved else s.line)
  {
    if s.browse > 0 {
      RedrawKeeps(s.(browse := s.browse - 1), Recent(s.log, s.browse - 1));
    } else if s.browse == 0 {
      RedrawKeeps(s.(browse := -1), s.saved);
    }
  }

  /** Every key keeps the screen and the line in agreement. */
  lemma PressKeeps(s: Session, k: Key)
    requires Good(s) && KeyOk(k)
    ensures Good(Press(s, k))
  {
    match k
    case Up => UpEffect(s);
    case Down => DownEffect(s);
    case Enter(after, prompt) =>
    case Erase =>
      if s.line != "" { BackOnScreen(s.display, s.line); }
    case Type(c) =>
      if |s.line| < LINE_MAX {
        assert [c][0] == c;
        PutOnScreen(s.display, s.line, c);
      }
  }

  /** Every key leaves the screen behind the cursor blank, if a command does. */
  lemma PressTidy(s: Session, k: Key)
    requires Good(s) && KeyOk(k) && Tidy(s.display) && (k.Enter? ==> Tidy(k.after))
    ensures Tidy(Press(s, k).display)
  {
    match k
    case Up =>
      if s.browse + 1 < Count(s) {
        RedrawOnScreen(s, Recent(s.log, s.browse + 1));
      }
    case Down =>
      if s.browse > 0 {
        RedrawOnScreen(s, Recent(s.log, s.browse - 1));
      } else if s.browse == 0 {
        RedrawOnScreen(s, s.saved);
      }
    case Enter(after, prompt) => TextTidy(after, prompt);
    case Erase => CharTidy(s.display, BLANK);
    case Type(c) => CharTidy(s.display, c);
  }

  function PressAll(s: Session, ks: seq<Key>): (r: Session)
    requires Good(s) && forall i :: 0 <= i < |ks| ==> KeyOk(ks[i])
    ensures Good(r)
    decreases |ks|
  {
    if ks == [] then s
    else
      PressKeeps(s, ks[0]);
      PressAll(Press(s, ks[0]), ks[1..])
  }

  /** In every reachable state the line stands before the cursor and nothing behind it, as long
      as every command leaves nothing behind the cursor. */
  lemma {:induction false} PressAllTidy(s: Session, ks: seq<Key>)
    requires Good(s) && Tidy(s.display)
    requires forall i :: 0 <= i < |ks| ==> KeyOk(ks[i]) && (ks[i].Enter? ==> Tidy(ks[i].after))
    ensures var t := PressAll(s, ks); OnScreen(t.display, t.line) && Tidy(t.display)
    decreases |ks|
  {
    if ks != [] {
      PressKeeps(s, ks[0]);
      PressTidy(s, ks[0]);
      PressAllTidy(Press(s, ks[0]), ks[1..]);
    }
  }

  // ---------------------------------------------------------------- browsing

  function Ups(n: nat): seq<Key> {
    seq(n, _ => Up)
  }

  function Downs(n: nat): seq<Key> {
    seq(n, _ => Down)
  }

  lemma FirstPress(s: Session, k: Key, ks: seq<Key>)
    requires Good(s) && KeyOk(k) && forall i :: 0 <= i < |ks| ==> KeyOk(ks[i])
    ensures Good(Press(s, k)) && PressAll(s, [k] + ks) == PressAll(Press(s, k), ks)
  {
    PressKeeps(s, k);
    assert ([k] + ks)[1..] == ks;
  }

  /** What `n` Ups make of the browse index and the line. */
  predicate Upped(s: Session, t: Session, n: nat) {
    && t.log == s.log
    && t.browse == (if s.browse + n < Count(s) then s.browse + n else Count(s) - 1)
    && t.saved == (if n > 0 && s.browse == -1 then s.line else s.saved)
    && (if t.browse > s.browse then 0 <= t.browse < |s.log| && t.line == Recent(s.log, t.browse) else t.line == s.line)
  }

  lemma UppedNext(s: Session, t: Session, r: Session, n: nat)
    requires Good(s) && Good(t) && t.log == s.log && Upped(t, r, n)
    requires t.saved == (if s.browse == -1 then s.line else s.saved)
    requires t.browse == (if s.browse + 1 < Count(s) then s.browse + 1 else s.browse)
    requires t.line == (if t.browse > s.browse then Recent(s.log, t.browse) else s.line)
    ensures Upped(s, r, n + 1)
  {
  }

  lemma {:induction false} AfterUps(s: Session, n: nat)
    requires Good(s)
    ensures Upped(s, PressAll(s, Ups(n)), n)
    decreases n
  {
    if n > 0 {
      UpEffect(s);
      assert Ups(n) == [Up] + Ups(n - 1);
      FirstPress(s, Up, Ups(n - 1));
      var t := PressUp(s);
      AfterUps(t, n - 1);
      UppedNext(s, t, PressAll(t, Ups(n - 1)), n - 1);
    }
  }

  /** What `n` Downs make of it, when they lead back to the live line. */
  predicate Downed(s: Session, t: Session) {
    && t.log == s.log && t.browse == -1 && t.saved == s.saved
    && t.line == if s.browse == -1 then s.line else s.saved
  }

  lemma {:induction false} AfterDowns(s: Session, n: nat)
    requires Good(s) && s.browse < n
    ensures Downed(s, PressAll(s, Downs(n)))
    decreases n
  {
    if n > 0 {
      DownEffect(s);
      assert Downs(n) == [Down] + Downs(n - 1);
      FirstPress(s, Down, Downs(n - 1));
      AfterDowns(PressDown(s), n - 1);
    }
  }

  /** From the live line, any number of Ups followed by as many Downs restores the line, for
      every history; and the screen still agrees with it. */
  lemma BrowsingIsReversible(s: Session, n: nat)
    requires Good(s) && s.browse == -1
    ensures var t := PressAll(PressAll(s, Ups(n)), Downs(n));
            t.line == s.line && t.browse == -1 && t.log == s.log && OnScreen(t.display, s.line)
  {
    AfterUps(s, n);
    AfterDowns(PressAll(s, Ups(n)), n);
  }
}
