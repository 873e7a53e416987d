/** What the line editor does over whole sequences of keys: typing, erasing, recalling. */
module Typing {
  import opened Words
  import opened Screen
  import opened Editor
  import Scancodes

  // ---------------------------------------------------------------- typing and erasing

  function Types(text: string): seq<Key> {
    seq(|text|, i requires 0 <= i < |text| => Type(text[i]))
  }

  function Erases(n: nat): seq<Key> {
    seq(n, _ => Erase)
  }

  predicate AllOk(ks: seq<Key>) {
    forall i :: 0 <= i < |ks| ==> KeyOk(ks[i])
  }

  /** At most the first 127 characters. */
  function First127(text: string): string {
    if |text| <= 127 then text else text[..127]
  }

  lemma OneTyped(s: Session, c: char)
    requires Good(s) && Plain([c])
    ensures var t := Press(s, Type(c));
            && Good(t) && t.line == First127(s.line + [c])
            && t.log == s.log && t.browse == s.browse && t.saved == s.saved
  {
    PressKeeps(s, Type(c));
    if |s.line| == 127 {
      assert (s.line + [c])[..127] == s.line;
    }
  }

  lemma ClipTwice(a: string, c: char, rest: string)
    ensures First127(First127(a + [c]) + rest) == First127(a + ([c] + rest))
  {
    var b := a + [c];
    assert b + rest == a + ([c] + rest);
    if |b| > 127 {
      assert (b[..127] + rest)[..127] == b[..127] == (b + rest)[..127];
    }
  }

  lemma TypesFirst(text: string)
    requires text != ""
    ensures Types(text) == [Type(text[0])] + Types(text[1..])
  {
  }

  lemma PlainParts(text: string)
    requires Plain(text)
    ensures AllOk(Types(text))
    ensures text != "" ==> Plain([text[0]]) && Plain(text[1..])
  {
    forall i | 0 <= i < |text| ensures KeyOk(Types(text)[i]) {
      assert [text[i]][0] == text[i];
    }
    if text != "" {
      assert [text[0]][0] == text[0];
      assert forall i :: 0 <= i < |text| - 1 ==> text[1..][i] == text[i + 1];
    }
  }

  /** Typing a text appends it to the line, as far as 127 characters, and changes nothing else
      but the screen. */
  lemma {:induction false} TypingAppends(s: Session, text: string)
    requires Good(s) && Plain(text)
    ensures AllOk(Types(text))
    ensures var t := PressAll(s, Types(text));
            t.line == First127(s.line + text) && t.log == s.log && t.browse == s.browse && t.saved == s.saved
    decreases |text|
  {
    PlainParts(text);
    if text == "" {
      assert s.line + text == s.line;
    } else {
      var c, rest := text[0], text[1..];
      OneTyped(s, c);
      PlainParts(rest);
      TypesFirst(text);
      FirstPress(s, Type(c), Types(rest));
      TypingAppends(Press(s, Type(c)), rest);
      ClipTwice(s.line, c, rest);
      assert [c] + rest == text;
    }
  }

  /** Without its last `n` characters. */
  function Shortened(text: string, n: nat): string {
    if n <= |text| then text[..|text| - n] else ""
  }

  lemma {:induction false} ErasingShortens(s: Session, n: nat)
    requires Good(s)
    ensures var t := PressAll(s, Erases(n));
            t.line == Shortened(s.line, n) && t.log == s.log && t.browse == s.browse && t.saved == s.saved
    decreases n
  {
    if n > 0 {
      PressKeeps(s, Erase);
      assert Erases(n) == [Erase] + Erases(n - 1);
      FirstPress(s, Erase, Erases(n - 1));
      ErasingShortens(Press(s, Erase), n - 1);
    }
  }

  // ---------------------------------------------------------------- recalling

  lemma EnterFirst(s: Session, after: Display, prompt: string, ks: seq<Key>)
    requires Good(s) && Proper(after) && AllOk(ks)
    ensures AllOk([Enter(after, prompt)] + ks)
    ensures var t := Press(s, Enter(after, prompt));
            && Good(t) && t.line == "" && t.browse == -1 && t.saved == s.saved && t.log == (if s.line == "" then s.log else s.log + [s.line])
            && PressAll(s, [Enter(after, prompt)] + ks) == PressAll(t, ks)
  {
    FirstPress(s, Enter(after, prompt), ks);
  }

  lemma UpsOk(n: nat)
    ensures AllOk(Ups(n))
  {
  }

  /** Every line entered, with the current one unless it is empty. */
  function LogAfter(s: Session): seq<string> {
    if s.line == "" then s.log else s.log + [s.line]
  }

  /** After Enter the n-th Up shows the n-th most recent line, the one just entered included. */
  lemma EnterThenUps(s: Session, after: Display, prompt: string, n: nat)
    requires Good(s) && Proper(after) && 1 <= n <= 16 && n <= |LogAfter(s)|
    ensures AllOk([Enter(after, prompt)] + Ups(n))
    ensures PressAll(s, [Enter(after, prompt)] + Ups(n)).line == Recent(LogAfter(s), n - 1)
  {
    UpsOk(n);
    EnterFirst(s, after, prompt, Ups(n));
    UpsShow(Press(s, Enter(after, prompt)), n);
  }

  /** From a live line the n-th Up shows the n-th most recent line. */
  lemma UpsShow(s: Session, n: nat)
    requires Good(s) && s.browse == -1 && 1 <= n <= Count(s)
    ensures PressAll(s, Ups(n)).line == Recent(s.log, n - 1)
  {
    AfterUps(s, n);
  }

  lemma RecentNext(log: seq<string>, line: string, k: nat)
    requires k <= |log|
    ensures Recent(log + [line], k) == if k == 0 then line else Recent(log, k - 1)
  {
  }

  /** The line just entered is the first one that comes back. */
  lemma EnterRecalls(s: Session, after: Display, prompt: string)
    requires Good(s) && s.line != "" && Proper(after)
    ensures AllOk([Enter(after, prompt), Up])
    ensures PressAll(s, [Enter(after, prompt), Up]).line == s.line
  {
    EnterThenUps(s, after, prompt, 1);
    assert [Enter(after, prompt), Up] == [Enter(after, prompt)] + Ups(1);
  }

  /** From a live empty line, Enter changes nothing of what any number of Ups show. */
  lemma EmptyEnterForgets(s: Session, after: Display, prompt: string, n: nat)
    requires Good(s) && s.line == "" && s.browse == -1 && Proper(after)
    ensures AllOk([Enter(after, prompt)] + Ups(n))
    ensures PressAll(s, [Enter(after, prompt)] + Ups(n)).line == PressAll(s, Ups(n)).line
  {
    UpsOk(n);
    EnterFirst(s, after, prompt, Ups(n));
    UpsFrom(Press(s, Enter(after, prompt)), n);
    UpsFrom(s, n);
  }

  function UpLine(line: string, log: seq<string>, n: nat): string {
    var kept := if |log| < HISTORY_SIZE then |log| else HISTORY_SIZE;
    if n == 0 || kept == 0 then line else Recent(log, if n <= kept then n - 1 else kept - 1)
  }

  lemma UpsFrom(s: Session, n: nat)
    requires Good(s) && s.browse == -1
    ensures PressAll(s, Ups(n)).line == UpLine(s.line, s.log, n)
  {
    AfterUps(s, n);
  }

  /** After Enter the line starts afresh: what is typed then is all there is, behind the prompt. */
  lemma EnterStartsAfresh(s: Session, after: Display, prompt: string, text: string)
    requires Good(s) && Proper(after) && Plain(text) && |text| <= 127
    ensures AllOk([Enter(after, prompt)] + Types(text))
    ensures var t := PressAll(s, [Enter(after, prompt)] + Types(text));
            && t.line == text && OnScreen(t.display, text) && t.browse == -1
            && t.display == TypeAll(PrintText(after, prompt), text)
  {
    var e := Enter(after, prompt);
    PlainParts(text);
    FirstPress(s, e, Types(text));
    TypingAppends(Press(s, e), text);
    assert "" + text == text;
    TypingShows(Press(s, e), text);
  }

  lemma {:induction false} TypingShows(s: Session, text: string)
    requires Good(s) && Plain(text) && |s.line| + |text| <= 127
    ensures AllOk(Types(text))
    ensures PressAll(s, Types(text)).display == TypeAll(s.display, text)
    decreases |text|
  {
    PlainParts(text);
    if text != "" {
      PlainParts(text[1..]);
      TypesFirst(text);
      FirstPress(s, Type(text[0]), Types(text[1..]));
      TypingShows(Press(s, Type(text[0])), text[1..]);
    }
  }

  // ---------------------------------------------------------------- the prompt

  /** Where the line starts, counted on the endless page. */
  function Origin(s: Session): int {
    80 * s.display.scrolls + s.display.cursor - |s.line|
  }

  /** What the screen shows at position `a` of the endless page. */
  function CellAt(d: Display, a: int): char {
    if 0 <= a - 80 * d.scrolls < |d.cells| then d.cells[a - 80 * d.scrolls] else BLANK
  }

  /** What is still on the screen from before position `origin` of the page is as it was. */
  ghost predicate Kept(d: Display, e: Display, origin: int) {
    && |d.cells| == SIZE && |e.cells| == SIZE && d.scrolls <= e.scrolls
    && forall a :: 80 * e.scrolls <= a < origin && a < 80 * d.scrolls + SIZE ==> CellAt(e, a) == CellAt(d, a)
  }

  lemma KeptTwice(d: Display, e: Display, f: Display, origin: int)
    requires Kept(d, e, origin) && Kept(e, f, origin)
    ensures Kept(d, f, origin)
  {
    forall a | 80 * f.scrolls <= a < origin && a < 80 * d.scrolls + SIZE ensures CellAt(f, a) == CellAt(d, a) {
      assert CellAt(f, a) == CellAt(e, a) && CellAt(e, a) == CellAt(d, a);
    }
  }

  lemma ScrollKeeps(d: Display, origin: int)
    requires |d.cells| == SIZE && WIDTH <= d.cursor
    ensures Kept(d, Scroll(d), origin)
  {
    var e := Scroll(d);
    forall a | 80 * e.scrolls <= a < origin && a < 80 * d.scrolls + SIZE ensures CellAt(e, a) == CellAt(d, a) {
      assert e.cells[a - 80 * e.scrolls] == d.cells[a - 80 * e.scrolls + WIDTH];
    }
  }

  /** A character goes where the cursor is, and the cursor moves on by one. */
  lemma PutKeeps(d: Display, c: char, origin: int)
    requires Proper(d) && origin <= 80 * d.scrolls + d.cursor
    ensures var e := Put(d, c);
            Kept(d, e, origin) && 80 * e.scrolls + e.cursor == 80 * d.scrolls + d.cursor + 1
  {
    var e := Display(d.cells[d.cursor := c], d.cursor + 1, d.scrolls);
    assert Kept(d, e, origin);
    if e.cursor == SIZE {
      ScrollKeeps(e, origin);
      KeptTwice(d, e, Scroll(e), origin);
      assert Advance(e) == Advance(Scroll(e)) == Scroll(e);
    }
  }

  lemma BackKeeps(d: Display, origin: int)
    requires Proper(d) && d.cursor > 0 && origin < 80 * d.scrolls + d.cursor
    ensures var e := Back(d);
            Kept(d, e, origin) && e.scrolls == d.scrolls && e.cursor == d.cursor - 1
  {
  }

  lemma {:induction false} EraseKeeps(d: Display, n: nat, origin: int)
    requires Proper(d) && n <= d.cursor && origin + n <= 80 * d.scrolls + d.cursor
    ensures var e := EraseN(d, n);
            Kept(d, e, origin) && e.scrolls == d.scrolls && e.cursor == d.cursor - n
    decreases n
  {
    if n > 0 {
      BackKeeps(d, origin);
      EraseKeeps(Back(d), n - 1, origin);
      KeptTwice(d, Back(d), EraseN(d, n), origin);
    }
  }

  lemma {:induction false} TypeKeeps(d: Display, text: string, origin: int)
    requires Proper(d) && Plain(text) && origin <= 80 * d.scrolls + d.cursor
    ensures var e := TypeAll(d, text);
            Kept(d, e, origin) && 80 * e.scrolls + e.cursor == 80 * d.scrolls + d.cursor + |text|
    decreases |text|
  {
    if text != "" {
      PlainParts(text);
      PutKeeps(d, text[0], origin);
      TypeKeeps(Put(d, text[0]), text[1..], origin);
      KeptTwice(d, Put(d, text[0]), TypeAll(d, text), origin);
    }
  }

  lemma RedrawKeepsPrompt(s: Session, text: string)
    requires OnScreen(s.display, s.line) && LineOk(text)
    ensures var t := Redraw(s, text); Origin(t) == Origin(s) && Kept(s.display, t.display, Origin(s))
  {
    EraseKeeps(s.display, |s.line|, Origin(s));
    var e := EraseN(s.display, |s.line|);
    TypeKeeps(e, text, Origin(s));
    KeptTwice(s.display, e, TypeAll(e, text), Origin(s));
  }

  /** Every key but Enter leaves the line where it starts, and the prompt and all else before it
      as they are; they only scroll. */
  lemma PromptStays(s: Session, k: Key)
    requires Good(s) && KeyOk(k) && !k.Enter?
    ensures var t := Press(s, k); Origin(t) == Origin(s) && Kept(s.display, t.display, Origin(s))
  {
    match k
    case Up =>
      if s.browse + 1 < Count(s) {
        RedrawKeepsPrompt(s, Recent(s.log, s.browse + 1));
      }
    case Down =>
      if s.browse > 0 {
        RedrawKeepsPrompt(s, Recent(s.log, s.browse - 1));
      } else if s.browse == 0 {
        RedrawKeepsPrompt(s, s.saved);
      }
    case Erase =>
      if s.line != "" { BackKeeps(s.display, Origin(s)); }
    case Type(c) =>
      if |s.line| < LINE_MAX {
        assert [c][0] == c;
        PutKeeps(s.display, c, Origin(s));
      }
  }

  lemma {:induction false} PromptStaysAll(s: Session, ks: seq<Key>)
    requires Good(s) && AllOk(ks) && forall i :: 0 <= i < |ks| ==> !ks[i].Enter?
    ensures var t := PressAll(s, ks); Origin(t) == Origin(s) && Kept(s.display, t.display, Origin(s))
    decreases |ks|
  {
    if ks != [] {
      var t := Press(s, ks[0]);
      PressKeeps(s, ks[0]);
      PromptStays(s, ks[0]);
      PromptStaysAll(t, ks[1..]);
      KeptTwice(s.display, t.display, PressAll(t, ks[1..]).display, Origin(s));
    }
  }

  // ---------------------------------------------------------------- from the keyboard

  /** What the keyboard produces for a key reaches the editor as the key it stands for: the
      arrows, Enter, backspace, and a letter. */
  lemma KeysArrive(m: Scancodes.Modifiers, code: Byte, after: Display, prompt: string)
    requires Proper(after)
    ensures m.extended && code == 0x48 ==>
              var c := Scancodes.Produced(m, code); c != '\0' && KeyFor(c, after, prompt) == Up
    ensures m.extended && code == 0x50 ==>
              var c := Scancodes.Produced(m, code); c != '\0' && KeyFor(c, after, prompt) == Down
    ensures !m.extended && code == 0x1C ==>
              var c := Scancodes.Produced(m, code); c != '\0' && KeyFor(c, after, prompt) == Enter(after, prompt)
    ensures !m.extended && code == 0x0E ==>
              var c := Scancodes.Produced(m, code); c != '\0' && KeyFor(c, after, prompt) == Erase
    ensures !m.extended && code == 0x1E ==>
              var c := Scancodes.Produced(m, code);
              c != '\0' && KeyFor(c, after, prompt) == Type(if m.shift != m.caps then 'A' else 'a')
  {
  }
}
