/** The scrolling text screen, and the endless page it is a window of. */
module Screen {

  const WIDTH := 80
  const HEIGHT := 25
  const SIZE := 2000
  const BLANK := ' '
  const BACKSPACE := '\U{8}'

  /** Characters only: colours are not part of this model. `scrolls` counts the scrolls since
      the last clear. */
  datatype Display = Display(cells: seq<char>, cursor: nat, scrolls: nat)

  predicate Proper(d: Display) {
    |d.cells| == SIZE && d.cursor < SIZE
  }

  // ---------------------------------------------------------------- the screen

  function Blanks(n: nat): seq<char> {
    seq(n, _ => BLANK)
  }

  function Scroll(d: Display): (r: Display)
    requires |d.cells| == SIZE && WIDTH <= d.cursor
    ensures |r.cells| == SIZE
  {
    Display(d.cells[WIDTH..] + Blanks(WIDTH), d.cursor - WIDTH, d.scrolls + 1)
  }

  /** Scroll for as long as the cursor is past the end. */
  function Advance(d: Display): (r: Display)
    requires |d.cells| == SIZE
    ensures Proper(r)
    decreases d.cursor
  {
    if d.cursor >= SIZE then Advance(Scroll(d)) else d
  }

  function Put(d: Display, c: char): (r: Display)
    requires Proper(d)
    ensures Proper(r)
  {
    Advance(Display(d.cells[d.cursor := c], d.cursor + 1, d.scrolls))
  }

  function Newline(d: Display): (r: Display)
    requires Proper(d)
    ensures Proper(r)
  {
    Advance(d.(cursor := (d.cursor / WIDTH + 1) * WIDTH))
  }

  function Back(d: Display): (r: Display)
    requires Proper(d)
    ensures Proper(r)
  {
    if d.cursor > 0 then Display(d.cells[d.cursor - 1 := BLANK], d.cursor - 1, d.scrolls) else d
  }

  /** `print_char` */
  function PrintChar(d: Display, c: char): (r: Display)
    requires Proper(d)
    ensures Proper(r)
  {
    if c == '\n' then Newline(d) else if c == BACKSPACE then Back(d) else Put(d, c)
  }

  /** One character of `print_text`, which draws a backspace like any other character. */
  function TextChar(d: Display, c: char): (r: Display)
    requires Proper(d)
    ensures Proper(r)
  {
    if c == '\n' then Newline(d) else Put(d, c)
  }

  function PrintText(d: Display, text: string): (r: Display)
    requires Proper(d)
    ensures Proper(r)
    decreases |text|
  {
    if text == "" then d else PrintText(TextChar(d, text[0]), text[1..])
  }

  const CLEARED := Display(Blanks(SIZE), 0, 0)

  // ---------------------------------------------------------------- the endless page

  /** `cells` is what has been drawn so far, blank beyond; `top` is the first visible row. */
  datatype Page = Page(cells: seq<char>, pos: nat, top: nat)

  function Cell(cells: seq<char>, i: nat): char {
    if i < |cells| then cells[i] else BLANK
  }

  /** The page with one cell drawn. */
  function Draw(cells: seq<char>, i: nat, c: char): (r: seq<char>)
    ensures |r| > i && r[i] == c
    ensures forall k :: 0 <= k < |r| && k != i ==> r[k] == if k < |cells| then cells[k] else BLANK
    ensures |cells| <= |r|
  {
    if i < |cells| then cells[i := c] else cells + Blanks(i - |cells|) + [c]
  }

  /** The page never scrolls: the window moves down when the position leaves it. */
  function Follow(p: Page): Page {
    if p.pos >= WIDTH * p.top + SIZE then p.(top := p.pos / WIDTH - (HEIGHT - 1)) else p
  }

  function PagePut(p: Page, c: char): Page {
    Follow(Page(Draw(p.cells, p.pos, c), p.pos + 1, p.top))
  }

  function PageNewline(p: Page): Page {
    Follow(p.(pos := (p.pos / WIDTH + 1) * WIDTH))
  }

  /** A backspace stops at the top of the window. */
  function PageBack(p: Page): Page {
    if p.pos > WIDTH * p.top then Page(Draw(p.cells, p.pos - 1, BLANK), p.pos - 1, p.top) else p
  }

  /** The cells are the window of the page at row `top`; below the window all is blank. */
  ghost predicate Window(p: seq<char>, top: nat, cells: seq<char>)
    requires |cells| == SIZE
  {
    && (forall i :: 0 <= i < SIZE ==> cells[i] == Cell(p, WIDTH * top + i))
    && (forall i :: WIDTH * top + SIZE <= i < |p| ==> p[i] == BLANK)
  }

  /** The screen is the window of the page that starts at the number of scrolls so far. */
  ghost predicate Shows(p: Page, d: Display) {
    && Proper(d) && p.top == d.scrolls && p.pos == WIDTH * p.top + d.cursor
    && Window(p.cells, p.top, d.cells)
  }

  /** As `Shows`, but the cursor may stand just past the end. */
  ghost predicate Almost(p: Page, d: Display) {
    && |d.cells| == SIZE && d.cursor <= SIZE && p.top == d.scrolls && p.pos == WIDTH * p.top + d.cursor
    && Window(p.cells, p.top, d.cells)
  }

  lemma WindowScrolls(p: seq<char>, top: nat, cells: seq<char>)
    requires |cells| == SIZE && Window(p, top, cells)
    ensures Window(p, top + 1, cells[WIDTH..] + Blanks(WIDTH))
  {
    var after := cells[WIDTH..] + Blanks(WIDTH);
    forall i | 0 <= i < SIZE ensures after[i] == Cell(p, WIDTH * (top + 1) + i) {
      if i < SIZE - WIDTH {
        assert cells[i + WIDTH] == Cell(p, WIDTH * top + (i + WIDTH));
      }
    }
  }

  lemma WindowDraws(p: seq<char>, top: nat, cells: seq<char>, at: nat, c: char)
    requires |cells| == SIZE && Window(p, top, cells) && at < SIZE
    ensures Window(Draw(p, WIDTH * top + at, c), top, cells[at := c])
  {
    var q, after := Draw(p, WIDTH * top + at, c), cells[at := c];
    forall i | 0 <= i < SIZE ensures after[i] == Cell(q, WIDTH * top + i) {
      assert cells[i] == Cell(p, WIDTH * top + i);
    }
  }

  lemma FollowShows(p: Page, d: Display)
    requires Almost(p, d)
    ensures Shows(Follow(p), Advance(d))
  {
    if d.cursor == SIZE {
      assert p.pos / WIDTH == p.top + HEIGHT;
      WindowScrolls(p.cells, p.top, d.cells);
      assert Advance(d) == Advance(Scroll(d)) == Scroll(d);
    }
  }

  lemma PutShows(p: Page, d: Display, c: char)
    requires Shows(p, d)
    ensures Shows(PagePut(p, c), Put(d, c))
  {
    WindowDraws(p.cells, p.top, d.cells, d.cursor, c);
    FollowShows(Page(Draw(p.cells, p.pos, c), p.pos + 1, p.top),
                Display(d.cells[d.cursor := c], d.cursor + 1, d.scrolls));
  }

  lemma NewlineShows(p: Page, d: Display)
    requires Shows(p, d)
    ensures Shows(PageNewline(p), Newline(d))
  {
    assert p.pos / WIDTH == p.top + d.cursor / WIDTH;
    FollowShows(p.(pos := (p.pos / WIDTH + 1) * WIDTH), d.(cursor := (d.cursor / WIDTH + 1) * WIDTH));
  }

  lemma BackShows(p: Page, d: Display)
    requires Shows(p, d)
    ensures Shows(PageBack(p), Back(d))
  {
    if d.cursor > 0 {
      WindowDraws(p.cells, p.top, d.cells, d.cursor - 1, BLANK);
    }
  }

  // ---------------------------------------------------------------- runs

  datatype Output = Char(c: char) | Text(text: string)

  function Show(d: Display, o: Output): (r: Display)
    requires Proper(d)
    ensures Proper(r)
  {
    match o
    case Char(c) => PrintChar(d, c)
    case Text(text) => PrintText(d, text)
  }

  function ShowAll(d: Display, os: seq<Output>): (r: Display)
    requires Proper(d)
    ensures Proper(r)
    decreases |os|
  {
    if os == [] then d else ShowAll(Show(d, os[0]), os[1..])
  }

  function WriteChar(p: Page, c: char): Page {
    if c == '\n' then PageNewline(p) else PagePut(p, c)
  }

  function WriteText(p: Page, text: string): Page
    decreases |text|
  {
    if text == "" then p else WriteText(WriteChar(p, text[0]), text[1..])
  }

  function Write(p: Page, o: Output): Page {
    match o
    case Char(c) => if c == BACKSPACE then PageBack(p) else WriteChar(p, c)
    case Text(text) => WriteText(p, text)
  }

  function WriteAll(p: Page, os: seq<Output>): Page
    decreases |os|
  {
    if os == [] then p else WriteAll(Write(p, os[0]), os[1..])
  }

  const FRESH_PAGE := Page([], 0, 0)

  lemma {:induction false} TextShows(p: Page, d: Display, text: string)
    requires Shows(p, d)
    ensures Shows(WriteText(p, text), PrintText(d, text))
    decreases |text|
  {
    if text != "" {
      if text[0] == '\n' { NewlineShows(p, d); } else { PutShows(p, d, text[0]); }
      TextShows(WriteChar(p, text[0]), TextChar(d, text[0]), text[1..]);
    }
  }

  lemma {:induction false} OutputShows(p: Page, d: Display, os: seq<Output>)
    requires Shows(p, d)
    ensures Shows(WriteAll(p, os), ShowAll(d, os))
    decreases |os|
  {
    if os != [] {
      match os[0] {
        case Char(c) =>
          if c == '\n' { NewlineShows(p, d); } else if c == BACKSPACE { BackShows(p, d); } else { PutShows(p, d, c); }
        case Text(text) => TextShows(p, d, text);
      }
      OutputShows(Write(p, os[0]), Show(d, os[0]), os[1..]);
    }
  }

  // ---------------------------------------------------------------- behind the cursor

  /** Every cell from the cursor on is blank. */
  predicate Tidy(d: Display) {
    forall i :: d.cursor <= i < |d.cells| ==> d.cells[i] == BLANK
  }

  lemma {:induction false} AdvanceTidy(d: Display)
    requires |d.cells| == SIZE && Tidy(d)
    ensures Tidy(Advance(d))
    decreases d.cursor
  {
    if d.cursor >= SIZE {
      AdvanceTidy(Scroll(d));
    }
  }

  /** Typing, breaking the line and stepping back all leave the rest of the screen blank. */
  lemma CharTidy(d: Display, c: char)
    requires Proper(d) && Tidy(d)
    ensures Tidy(Put(d, c)) && Tidy(Newline(d)) && Tidy(Back(d))
  {
    AdvanceTidy(Display(d.cells[d.cursor := c], d.cursor + 1, d.scrolls));
    AdvanceTidy(d.(cursor := (d.cursor / WIDTH + 1) * WIDTH));
  }

  lemma {:induction false} TextTidy(d: Display, text: string)
    requires Proper(d) && Tidy(d)
    ensures Tidy(PrintText(d, text))
    decreases |text|
  {
    if text != "" {
      CharTidy(d, text[0]);
      TextTidy(TextChar(d, text[0]), text[1..]);
    }
  }

  lemma {:induction false} OutputTidy(d: Display, os: seq<Output>)
    requires Proper(d) && Tidy(d)
    ensures Tidy(ShowAll(d, os))
    decreases |os|
  {
    if os != [] {
      match os[0] {
        case Char(c) => CharTidy(d, c);
        case Text(text) => TextTidy(d, text);
      }
      OutputTidy(Show(d, os[0]), os[1..]);
    }
  }

  /** After a clear, whatever is printed, every cell from the cursor on is blank. */
  lemma ScreenIsTidy(os: seq<Output>)
    ensures Tidy(ShowAll(CLEARED, os))
  {
    OutputTidy(CLEARED, os);
  }

  /** After a clear, whatever is printed, the screen is the 25-row window of an endless page
      that starts at the number of scrolls so far, and the cursor is on the screen. */
  lemma ScreenIsWindow(os: seq<Output>)
    ensures var p, d := WriteAll(FRESH_PAGE, os), ShowAll(CLEARED, os);
            && Shows(p, d) && d.cursor < 2000 && p.pos == 80 * d.scrolls + d.cursor
            && forall i :: 0 <= i < 2000 ==> d.cells[i] == Cell(p.cells, 80 * d.scrolls + i)
  {
    OutputShows(FRESH_PAGE, CLEARED, os);
  }
}
