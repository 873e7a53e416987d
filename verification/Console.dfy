/** The screen buffer and cursor, updated in place, proved against `Screen`. */
module Console {
  import opened Screen

  class Terminal {
    const screen: array<char>
    var cursor: nat
    ghost var scrolls: nat

    ghost predicate Valid()
      reads this, screen
    {
      screen.Length == SIZE && cursor < SIZE
    }

    ghost function State(): Display
      reads this, screen
    {
      Display(screen[..], cursor, scrolls)
    }

    constructor ()
      ensures fresh(screen) && Valid() && State() == CLEARED
    {
      screen := new char[SIZE](_ => BLANK);
      cursor, scrolls := 0, 0;
      new;
      assert screen[..] == Blanks(SIZE);
    }

    /** `clear_screen` */
    method Clear()
      requires screen.Length == SIZE
      modifies this, screen
      ensures Valid() && State() == CLEARED
    {
      var i := 0;
      while i < SIZE
        invariant 0 <= i <= SIZE && forall k :: 0 <= k < i ==> screen[k] == BLANK
      {
        screen[i] := BLANK;
        i := i + 1;
      }
      cursor, scrolls := 0, 0;
      assert screen[..] == Blanks(SIZE);
    }

    method ScrollScreen()
      requires screen.Length == SIZE && WIDTH <= cursor
      modifies this, screen
      ensures State() == Scroll(old(State()))
    {
      ghost var was := screen[..];
      var i := 0;
      while i < SIZE - WIDTH
        invariant 0 <= i <= SIZE - WIDTH && cursor == old(cursor) && scrolls == old(scrolls)
        invariant forall k :: 0 <= k < i ==> screen[k] == was[k + WIDTH]
        invariant forall k :: i <= k < SIZE ==> screen[k] == was[k]
      {
        screen[i] := screen[i + WIDTH];
        i := i + 1;
      }
      while i < SIZE
        invariant SIZE - WIDTH <= i <= SIZE && cursor == old(cursor) && scrolls == old(scrolls)
        invariant forall k :: 0 <= k < SIZE - WIDTH ==> screen[k] == was[k + WIDTH]
        invariant forall k :: SIZE - WIDTH <= k < i ==> screen[k] == BLANK
      {
        screen[i] := BLANK;
        i := i + 1;
      }
      cursor := cursor - WIDTH;
      scrolls := scrolls + 1;
      assert screen[..] == was[WIDTH..] + Blanks(WIDTH);
    }

    method AdvanceCursor()
      requires screen.Length == SIZE
      modifies this, screen
      ensures Valid() && State() == Advance(old(State()))
    {
      while cursor >= SIZE
        invariant Advance(State()) == Advance(old(State()))
        decreases cursor
      {
        ScrollScreen();
      }
    }

    method PutHere(c: char)
      requires Valid()
      modifies this, screen
      ensures Valid() && State() == Put(old(State()), c)
    {
      screen[cursor] := c;
      assert screen[..] == old(screen[..])[cursor := c];
      cursor := cursor + 1;
      AdvanceCursor();
    }

    method BreakLine()
      requires Valid()
      modifies this, screen
      ensures Valid() && State() == Newline(old(State()))
    {
      cursor := (cursor / WIDTH + 1) * WIDTH;
      AdvanceCursor();
    }

    method PrintCharacter(c: char)
      requires Valid()
      modifies this, screen
      ensures Valid() && State() == PrintChar(old(State()), c)
    {
      if c == '\n' {
        BreakLine();
        return;
      }
      if c == BACKSPACE {
        if cursor > 0 {
          cursor := cursor - 1;
          screen[cursor] := BLANK;
          assert screen[..] == old(screen[..])[cursor := BLANK];
        }
        return;
      }
      PutHere(c);
    }

    method PrintString(text: string)
      requires Valid()
      modifies this, screen
      ensures Valid() && State() == PrintText(old(State()), text)
    {
      var i := 0;
      assert text[0..] == text;
      while i < |text|
        invariant 0 <= i <= |text| && Valid()
        invariant PrintText(State(), text[i..]) == PrintText(old(State()), text)
      {
        assert text[i..][0] == text[i] && text[i..][1..] == text[i + 1..];
        if text[i] == '\n' {
          BreakLine();
        } else {
          PutHere(text[i]);
        }
        i := i + 1;
      }
    }
  }
}
