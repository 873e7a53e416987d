/** Scan code set 1 to characters: the prefix byte, shift, caps lock and the two key tables. */
module Scancodes {
  import opened Words

  const PREFIX: Byte := 0xE0
  const ARROW_UP: Byte := 0x48
  const ARROW_DOWN: Byte := 0x50
  const LEFT_SHIFT: Byte := 0x2A
  const RIGHT_SHIFT: Byte := 0x36
  const CAPS_LOCK: Byte := 0x3A

  const KEY_UP := '\U{1}'
  const KEY_DOWN := '\U{2}'
  const NONE := '\0'

  /** What a key gives without and with shift. */
  datatype Glyphs = Glyphs(plain: char, shifted: char)

  /** Both tables, key by key; all other keys are unmapped. */
  function Key(code: nat): Glyphs {
    match code
    case 0x01 => Glyphs('\U{1B}', '\U{1B}')
    case 0x02 => Glyphs('1', '!')
    case 0x03 => Glyphs('2', '@')
    case 0x04 => Glyphs('3', '#')
    case 0x05 => Glyphs('4', '$')
    case 0x06 => Glyphs('5', '%')
    case 0x07 => Glyphs('6', '^')
    case 0x08 => Glyphs('7', '&')
    case 0x09 => Glyphs('8', '*')
    case 0x0A => Glyphs('9', '(')
    case 0x0B => Glyphs('0', ')')
    case 0x0C => Glyphs('-', '_')
    case 0x0D => Glyphs('=', '+')
    case 0x0E => Glyphs('\U{8}', '\U{8}')
    case 0x0F => Glyphs('\t', '\t')
    case 0x10 => Glyphs('q', 'Q')
    case 0x11 => Glyphs('w', 'W')
    case 0x12 => Glyphs('e', 'E')
    case 0x13 => Glyphs('r', 'R')
    case 0x14 => Glyphs('t', 'T')
    case 0x15 => Glyphs('y', 'Y')
    case 0x16 => Glyphs('u', 'U')
    case 0x17 => Glyphs('i', 'I')
    case 0x18 => Glyphs('o', 'O')
    case 0x19 => Glyphs('p', 'P')
    case 0x1A => Glyphs('[', '{')
    case 0x1B => Glyphs(']', '}')
    case 0x1C => Glyphs('\n', '\n')
    case 0x1E => Glyphs('a', 'A')
    case 0x1F => Glyphs('s', 'S')
    case 0x20 => Glyphs('d', 'D')
    case 0x21 => Glyphs('f', 'F')
    case 0x22 => Glyphs('g', 'G')
    case 0x23 => Glyphs('h', 'H')
    case 0x24 => Glyphs('j', 'J')
    case 0x25 => Glyphs('k', 'K')
    case 0x26 => Glyphs('l', 'L')
    case 0x27 => Glyphs(';', ':')
    case 0x28 => Glyphs('\'', '\"')
    case 0x29 => Glyphs('`', '~')
    case 0x2B => Glyphs('\\', '|')
    case 0x2C => Glyphs('z', 'Z')
    case 0x2D => Glyphs('x', 'X')
    case 0x2E => Glyphs('c', 'C')
    case 0x2F => Glyphs('v', 'V')
    case 0x30 => Glyphs('b', 'B')
    case 0x31 => Glyphs('n', 'N')
    case 0x32 => Glyphs('m', 'M')
    case 0x33 => Glyphs(',', '<')
    case 0x34 => Glyphs('.', '>')
    case 0x35 => Glyphs('/', '?')
    case 0x37 => Glyphs('*', '*')
    case 0x39 => Glyphs(' ', ' ')
    case _ => Glyphs(NONE, NONE)
  }

  predicate IsLetter(c: char) {
    'a' <= c <= 'z'
  }

  function Upper(c: char): char
    requires IsLetter(c)
  {
    (c as int - 32) as char
  }

  datatype Modifiers = Modifiers(extended: bool, shift: bool, caps: bool)

  const RELEASED := Modifiers(false, false, false)

  /** Either shift key, pressed or (with the top bit set) released. */
  predicate IsShift(scancode: Byte) {
    var code := if scancode < 128 then scancode else scancode - 128;
    code == LEFT_SHIFT || code == RIGHT_SHIFT
  }

  /** The flags after one byte from the controller. */
  function Shifted(m: Modifiers, scancode: Byte): Modifiers {
    if scancode == PREFIX then m.(extended := true)
    else if m.extended then m.(extended := false)
    else if IsShift(scancode) then m.(shift := scancode < 128)
    else if scancode == CAPS_LOCK then m.(caps := !m.caps)
    else m
  }

  /** The character that byte produces, `NONE` if it produces none. */
  function Produced(m: Modifiers, scancode: Byte): char {
    if scancode >= 128 then NONE
    else if m.extended then
      if scancode == ARROW_UP then KEY_UP else if scancode == ARROW_DOWN then KEY_DOWN else NONE
    else if IsShift(scancode) || scancode == CAPS_LOCK then NONE
    else
      var Glyphs(base, shifted) := Key(scancode);
      if IsLetter(base) then (if m.shift != m.caps then shifted else base)
      else if m.shift then shifted else base
  }

  // ---------------------------------------------------------------- whole histories

  /** The flags after the first `n` bytes. */
  function FlagsAfter(codes: seq<Byte>, n: nat): Modifiers
    requires n <= |codes|
  {
    if n == 0 then RELEASED else Shifted(FlagsAfter(codes, n - 1), codes[n - 1])
  }

  /** One more character, unless it is none. */
  function Then(text: string, c: char): string {
    if c == NONE then text else text + [c]
  }

  /** Every character the first `n` bytes produce, in order. */
  function Typed(codes: seq<Byte>, n: nat): string
    requires n <= |codes|
  {
    if n == 0 then ""
    else Then(Typed(codes, n - 1), Produced(FlagsAfter(codes, n - 1), codes[n - 1]))
  }

  /** The byte at `i` follows a prefix byte. */
  predicate Prefixed(codes: seq<Byte>, i: nat)
    requires i < |codes|
  {
    i > 0 && codes[i - 1] == 0xE0
  }

  /** A press or release of either shift key at `i`. */
  predicate ShiftEvent(codes: seq<Byte>, i: nat)
    requires i < |codes|
  {
    codes[i] in {0x2A, 0x36, 0xAA, 0xB6} && !Prefixed(codes, i)
  }

  /** The latest event of either shift key before `n` is the press at `i`. */
  ghost predicate LastShift(codes: seq<Byte>, n: nat, i: nat)
    requires n <= |codes|
  {
    && i < n && ShiftEvent(codes, i) && codes[i] < 128
    && forall j :: i < j < n ==> !ShiftEvent(codes, j)
  }

  ghost predicate ShiftDown(codes: seq<Byte>, n: nat)
    requires n <= |codes|
  {
    exists i :: LastShift(codes, n, i)
  }

  /** How often caps lock was pressed in the first `n` bytes. */
  function CapsPresses(codes: seq<Byte>, n: nat): nat
    requires n <= |codes|
  {
    if n == 0 then 0
    else CapsPresses(codes, n - 1) + if codes[n - 1] == 0x3A && !Prefixed(codes, n - 1) then 1 else 0
  }

  lemma ShiftDownStep(codes: seq<Byte>, n: nat)
    requires n < |codes|
    ensures ShiftDown(codes, n + 1) <==>
            if ShiftEvent(codes, n) then codes[n] < 128 else ShiftDown(codes, n)
  {
    if ShiftEvent(codes, n) {
      if codes[n] < 128 {
        assert LastShift(codes, n + 1, n);
      }
    } else if ShiftDown(codes, n) {
      var i :| LastShift(codes, n, i);
      assert LastShift(codes, n + 1, i);
    } else if ShiftDown(codes, n + 1) {
      var i :| LastShift(codes, n + 1, i);
      assert LastShift(codes, n, i);
    }
  }

  /** What the flags mean in terms of the bytes alone: the prefix flag is about the last byte,
      shift about the latest shift key event, caps lock about the parity of its presses. */
  lemma {:induction false} FlagsMeaning(codes: seq<Byte>, n: nat)
    requires n <= |codes|
    ensures FlagsAfter(codes, n).extended <==> n > 0 && codes[n - 1] == 0xE0
    ensures FlagsAfter(codes, n).shift <==> ShiftDown(codes, n)
    ensures FlagsAfter(codes, n).caps <==> CapsPresses(codes, n) % 2 == 1
  {
    if n > 0 {
      FlagsMeaning(codes, n - 1);
      ShiftDownStep(codes, n - 1);
    }
  }

  /** On the letter keys the two tables agree up to case. */
  lemma LetterTables(code: nat)
    requires IsLetter(Key(code).plain)
    ensures Key(code).shifted == Upper(Key(code).plain)
  {
  }

  /** An unprefixed letter key gives a capital exactly when shift and caps lock disagree. */
  lemma LetterCase(codes: seq<Byte>, n: nat)
    requires n < |codes| && codes[n] < 128 && IsLetter(Key(codes[n]).plain) && !Prefixed(codes, n)
    ensures var base := Key(codes[n]).plain;
            Typed(codes, n + 1) == Typed(codes, n)
              + [if ShiftDown(codes, n) != (CapsPresses(codes, n) % 2 == 1) then Upper(base) else base]
  {
    FlagsMeaning(codes, n);
    LetterTables(codes[n]);
  }

  /** A key that is neither a letter nor a modifier gives its plain or its shifted glyph by shift
      alone: caps lock does not touch it. */
  lemma OtherKeys(codes: seq<Byte>, n: nat)
    requires n < |codes| && codes[n] < 128 && !IsLetter(Key(codes[n]).plain) && !Prefixed(codes, n)
    requires codes[n] !in {0x2A, 0x36, 0x3A}
    ensures var key := Key(codes[n]);
            var c := if ShiftDown(codes, n) then key.shifted else key.plain;
            Typed(codes, n + 1) == if c == NONE then Typed(codes, n) else Typed(codes, n) + [c]
  {
    FlagsMeaning(codes, n);
  }

  /** Behind a prefix byte only the presses of the two arrows type anything; releases, shifts and
      caps lock never do. */
  lemma SilentKeys(codes: seq<Byte>, n: nat)
    requires n < |codes|
    ensures Prefixed(codes, n) ==>
              Typed(codes, n + 1) == Typed(codes, n)
                + (if codes[n] == 0x48 then ['\U{1}'] else if codes[n] == 0x50 then ['\U{2}'] else [])
    ensures codes[n] >= 128 || (!Prefixed(codes, n) && codes[n] in {0x2A, 0x36, 0x3A}) ==>
              Typed(codes, n + 1) == Typed(codes, n)
  {
    FlagsMeaning(codes, n);
  }

  /** The rows of the keyboard, left to right, without and with shift. */
  lemma DigitRow(i: nat)
    requires i < 12
    ensures Key(2 + i) == Glyphs("1234567890-="[i], "!@#$%^&*()_+"[i])
  {
  }

  /** The row under the digits. */
  lemma TopRow(i: nat)
    requires i < 12
    ensures Key(16 + i) == Glyphs("qwertyuiop[]"[i], "QWERTYUIOP{}"[i])
  {
  }

  /** The home row. */
  lemma HomeRow(i: nat)
    requires i < 12
    ensures Key(30 + i) == Glyphs("asdfghjkl;'`"[i], "ASDFGHJKL:\"~"[i])
  {
  }

  /** The bottom row. */
  lemma BottomRow(i: nat)
    requires i < 11
    ensures Key(43 + i) == Glyphs("\\zxcvbnm,./"[i], "|ZXCVBNM<>?"[i])
  {
  }

  /** What the first bytes produced does not depend on those that follow. */
  lemma {:induction false} TypedPrefix(codes: seq<Byte>, b: Byte, n: nat)
    requires n <= |codes|
    ensures FlagsAfter(codes + [b], n) == FlagsAfter(codes, n) && Typed(codes + [b], n) == Typed(codes, n)
  {
    if n > 0 {
      TypedPrefix(codes, b, n - 1);
    }
  }

  /** One more byte after all the others. */
  lemma TypedNext(codes: seq<Byte>, b: Byte)
    ensures var n, more := |codes|, codes + [b];
            && FlagsAfter(more, n + 1) == Shifted(FlagsAfter(codes, n), b)
            && Typed(more, n + 1) == Then(Typed(codes, n), Produced(FlagsAfter(codes, n), b))
  {
    TypedPrefix(codes, b, |codes|);
  }
}
