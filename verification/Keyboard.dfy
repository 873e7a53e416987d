/** The keyboard driver's static state, updated in place, proved against `KeyQueue`. */
module Keyboard {
  import opened Words
  import opened Scancodes
  import opened KeyQueue

  class Driver {
    const keyBuffer: array<char>
    var keyBufHead: nat
    var keyBufTail: nat
    var extendedPrefix: bool
    var shiftHeld: bool
    var capslockOn: bool
    ghost var codes: seq<Byte>
    ghost var accepted: string
    ghost var popped: string
    ghost var seen: nat

    ghost function State(): KeyQueue.Keyboard
      reads this, keyBuffer
    {
      KeyQueue.Keyboard(keyBuffer[..], keyBufHead, keyBufTail,
                        Modifiers(extendedPrefix, shiftHeld, capslockOn),
                        Outside, codes, accepted, popped, seen)
    }

    ghost predicate Valid()
      reads this, keyBuffer
    {
      Good(State())
    }

    constructor ()
      ensures fresh(keyBuffer) && Valid() && State() == Initial()
    {
      keyBuffer := new char[RING](_ => NONE);
      keyBufHead, keyBufTail := 0, 0;
      extendedPrefix, shiftHeld, capslockOn := false, false, false;
      codes, accepted, popped, seen := [], "", "", 0;
      new;
      assert keyBuffer[..] == seq(RING, _ => NONE);
    }

    method KeyBufferPush(c: char)
      requires Valid() && c != NONE
      modifies this`keyBufHead, this`accepted, keyBuffer
      ensures Valid() && State() == Push(old(State()), c)
    {
      PushKeeps(State(), c);
      var next := (keyBufHead + 1) % RING;
      if next == keyBufTail {
        return;
      }
      keyBuffer[keyBufHead] := c;
      assert keyBuffer[..] == old(keyBuffer[..])[keyBufHead := c];
      keyBufHead := next;
      accepted := accepted + [c];
    }

    /** A pop no interrupt falls into: the oldest character waiting, or 0. */
    method KeyBufferPop() returns (c: char)
      requires Valid()
      modifies this`keyBufTail, this`popped, this`seen
      ensures State() == Finish(old(State())) && Valid()
      ensures c == if old(accepted) == old(popped) then NONE else old(accepted[|popped|])
      ensures popped == Then(old(popped), c)
    {
      ghost var k := State();
      PopAlone(k);
      seen := |accepted|;
      if keyBufTail == keyBufHead {
        assert State() == Finish(k);
        return NONE;
      }
      c := keyBuffer[keyBufTail];
      assert c == k.ring[k.tail];
      keyBufTail := (keyBufTail + 1) % RING;
      popped := popped + [c];
      assert State() == Finish(k);
    }

    /** The character of an unprefixed key press. */
    method Translate(code: Byte) returns (c: char)
      requires code < 0x80 && !extendedPrefix && !IsShift(code) && code != CAPS_LOCK
      ensures c == Produced(State().flags, code)
    {
      var Glyphs(base, shifted) := Key(code);
      if IsLetter(base) {
        c := if shiftHeld != capslockOn then shifted else base;
      } else {
        c := if shiftHeld then shifted else base;
      }
    }

    /** A byte after the prefix: only presses of the arrows push anything. */
    method ExtendedKey(isRelease: bool, code: Byte)
      requires Valid() && code < 0x80
      modifies this`keyBufHead, this`accepted, keyBuffer
      ensures Valid()
      ensures var c := if isRelease then NONE else Produced(Modifiers(true, false, false), code);
              State() == if c == NONE then old(State()) else Push(old(State()), c)
    {
      if !isRelease {
        if code == ARROW_UP {
          KeyBufferPush(KEY_UP);
        } else if code == ARROW_DOWN {
          KeyBufferPush(KEY_DOWN);
        }
      }
    }

    method KeyboardHandler(scancode: Byte)
      requires Valid()
      modifies this, keyBuffer
      ensures Valid() && State() == Handle(old(State()), scancode)
    {
      ghost var was := State();
      ghost var q := was.(flags := Shifted(was.flags, scancode), codes := was.codes + [scancode]);
      HandleKeeps(was, scancode);
      assert Good(q);
      codes := codes + [scancode];
      if scancode == PREFIX {
        extendedPrefix := true;
        assert State() == q;
        return;
      }
      var isExtended := extendedPrefix;
      extendedPrefix := false;
      var isRelease := scancode >= 0x80;
      var code: Byte := if isRelease then scancode - 0x80 else scancode;
      if isExtended {
        assert State() == q;
        ExtendedKey(isRelease, code);
        return;
      }
      if code == LEFT_SHIFT || code == RIGHT_SHIFT {
        shiftHeld := !isRelease;
        assert State() == q;
        return;
      }
      if code == CAPS_LOCK {
        if !isRelease {
          capslockOn := !capslockOn;
        }
        assert State() == q;
        return;
      }
      assert State() == q;
      if isRelease {
        return;
      }
      var c := Translate(code);
      if c != NONE {
        KeyBufferPush(c);
      }
    }
  }

  lemma TakeAlone(k: KeyQueue.Keyboard)
    requires Good(k) && k.place == SomethingThere && k.ring[k.tail] != NONE
    ensures Finish(k) == k.(place := Outside, tail := (k.tail + 1) % RING, popped := k.popped + [k.ring[k.tail]])
  {
    var b := Advance(k, true);
    FinishNext(k);
    var c := Advance(b, true);
    FinishNext(b);
    var d := Advance(c, true);
    FinishNext(c);
    var e := Advance(d, true);
    FinishNext(d);
    assert e.place == Leaving(k.ring[k.tail]);
    FinishNext(e);
  }

  lemma FinishNext(k: KeyQueue.Keyboard)
    requires Good(k)
    ensures Good(Advance(k, true))
    ensures Finish(k) == if k.place.Leaving? then Advance(k, true) else Finish(Advance(k, true))
  {
    AdvanceKeeps(k, true);
  }

  /** The pop's single steps, uninterrupted, add up to the whole. */
  lemma PopAlone(k: KeyQueue.Keyboard)
    requires Good(k) && k.place == Outside
    ensures var n := |k.popped|;
            Finish(k) == if k.tail == k.head then k.(seen := |k.accepted|)
                         else k.(seen := |k.accepted|, tail := (k.tail + 1) % RING,
                                 popped := k.popped + [k.ring[k.tail]])
    ensures k.tail == k.head <==> k.accepted == k.popped
    ensures k.tail != k.head ==> |k.popped| < |k.accepted| && k.ring[k.tail] == k.accepted[|k.popped|] != NONE
  {
    var a := Advance(k, true);
    AdvanceKeeps(k, true);
    var b := Advance(a, true);
    AdvanceKeeps(a, true);
    assert Finish(k) == Finish(b);
    if k.tail == k.head {
      SlotsDiffer(|k.popped|, |k.accepted|);
    } else {
      assert b.place == SomethingThere && Unread(k, |k.popped|);
      assert k.ring[|k.popped| % RING] == k.accepted[|k.popped|];
      TakeAlone(b);
    }
  }
}
