/** The keyboard ring: interrupts that push, interleaved with the single steps of a pop. */
module KeyQueue {
  import opened Words
  import opened Scancodes

  const RING := 256

  /** Where the consumer is inside `key_buffer_pop`, with what it holds in registers. Either
      index may be read first for the comparison. */
  datatype Place =
    | Outside
    | HasTail(t: nat)
    | HasHead(h: nat)
    | SomethingThere
    | Indexing(t: nat)
    | Loaded(c: char)
    | Advancing(c: char, t: nat)
    | Leaving(c: char)

  /** The last fields are histories: the bytes received, the characters stored in the ring and
      popped from it, and how many had been stored when the consumer last read the head. */
  datatype Keyboard = Keyboard(
    ring: seq<char>, head: nat, tail: nat, flags: Modifiers, place: Place,
    codes: seq<Byte>, accepted: string, popped: string, seen: nat)

  datatype Event = Interrupt(scancode: Byte) | Consume(tailFirst: bool)

  predicate Shaped(k: Keyboard) {
    |k.ring| == RING && k.head < RING && k.tail < RING
    && match k.place
       case HasTail(t) => t < RING
       case Indexing(t) => t < RING
       case _ => true
  }

  // ---------------------------------------------------------------- steps

  function Push(k: Keyboard, c: char): Keyboard
    requires Shaped(k)
  {
    var next := (k.head + 1) % RING;
    if next == k.tail then k
    else k.(ring := k.ring[k.head := c], head := next, accepted := k.accepted + [c])
  }

  /** `keyboard_handler`, which runs to its end once it is entered. */
  function Handle(k: Keyboard, b: Byte): Keyboard
    requires Shaped(k)
  {
    var c := Produced(k.flags, b);
    var q := k.(flags := Shifted(k.flags, b), codes := k.codes + [b]);
    if c == NONE then q else Push(q, c)
  }

  /** One step of `key_buffer_pop`: at most one access to a shared variable. */
  function Advance(k: Keyboard, tailFirst: bool): Keyboard
    requires Shaped(k)
  {
    match k.place
    case Outside =>
      if tailFirst then k.(place := HasTail(k.tail))
      else k.(place := HasHead(k.head), seen := |k.accepted|)
    case HasTail(t) =>
      k.(place := if t == k.head then Leaving(NONE) else SomethingThere, seen := |k.accepted|)
    case HasHead(h) => k.(place := if k.tail == h then Leaving(NONE) else SomethingThere)
    case SomethingThere => k.(place := Indexing(k.tail))
    case Indexing(t) => k.(place := Loaded(k.ring[t]))
    case Loaded(c) => k.(place := Advancing(c, k.tail))
    case Advancing(c, t) => k.(tail := (t + 1) % RING, place := Leaving(c))
    case Leaving(c) => k.(place := Outside, popped := Then(k.popped, c))
  }

  function Step(k: Keyboard, e: Event): Keyboard
    requires Shaped(k)
  {
    match e
    case Interrupt(scancode) => Handle(k, scancode)
    case Consume(tailFirst) => Advance(k, tailFirst)
  }

  // ---------------------------------------------------------------- the invariant

  /** The characters the consumer has released from the ring: those popped, and the one it is
      about to return. */
  function Taken(k: Keyboard): string {
    if k.place.Leaving? then Then(k.popped, k.place.c) else k.popped
  }

  /** What the registers hold, `taken` characters being released. */
  predicate Registers(k: Keyboard, taken: nat) {
    match k.place
    case Outside => true
    case HasTail(t) => t == k.tail
    case HasHead(h) => taken <= k.seen && h == k.seen % RING
    case SomethingThere => taken < |k.accepted|
    case Indexing(t) => taken < |k.accepted| && t == k.tail
    case Loaded(c) => taken < |k.accepted| && c == k.accepted[taken]
    case Advancing(c, t) => taken < |k.accepted| && c == k.accepted[taken] && t == k.tail
    case Leaving(c) => c == NONE ==> k.seen == |k.popped|
  }

  /** The unread slots hold the characters accepted and not yet released, in order. */
  predicate Unread(k: Keyboard, taken: nat)
    requires |k.ring| == RING
  {
    forall i :: taken <= i < |k.accepted| ==> k.ring[i % RING] == k.accepted[i]
  }

  predicate Good(k: Keyboard) {
    GoodAt(k, |Taken(k)|)
  }

  predicate GoodAt(k: Keyboard, taken: nat) {
    && Shaped(k)
    && taken <= |k.accepted| < taken + RING
    && Taken(k) == k.accepted[..taken]
    && k.head == |k.accepted| % RING && k.tail == taken % RING
    && k.seen <= |k.accepted|
    && NONE !in k.accepted
    && Unread(k, taken)
    && Registers(k, taken)
  }

  /** Two counts less than a ring apart share a slot only when they are equal. */
  lemma SlotsDiffer(a: nat, b: nat)
    requires a <= b < a + RING && a % RING == b % RING
    ensures a == b
  {
  }

  lemma NextSlot(a: nat)
    ensures (a % RING + 1) % RING == (a + 1) % RING
  {
  }

  lemma UnreadAfterPush(k: Keyboard, taken: nat, c: char)
    requires |k.ring| == RING && Unread(k, taken) && taken <= |k.accepted| < taken + RING
    ensures Unread(k.(ring := k.ring[|k.accepted| % RING := c], accepted := k.accepted + [c]), taken)
  {
    var n := |k.accepted|;
    var q := k.(ring := k.ring[n % RING := c], accepted := k.accepted + [c]);
    forall i | taken <= i < n + 1 ensures q.ring[i % RING] == q.accepted[i] {
      if i < n && i % RING == n % RING { SlotsDiffer(i, n); }
    }
  }

  /** The full test of the ring: 255 characters wait. */
  lemma FullTest(taken: nat, n: nat)
    requires taken <= n < taken + RING
    ensures (n % RING + 1) % RING == taken % RING <==> n - taken == RING - 1
  {
    NextSlot(n);
    if (n + 1) % RING == taken % RING && n + 1 < taken + RING { SlotsDiffer(taken, n + 1); }
  }

  lemma PushKeeps(k: Keyboard, c: char)
    requires Good(k) && c != NONE
    ensures Good(Push(k, c))
    ensures Push(k, c) == if |k.accepted| - |Taken(k)| == RING - 1 then k
                          else k.(ring := k.ring[|k.accepted| % RING := c],
                                  head := (|k.accepted| + 1) % RING,
                                  accepted := k.accepted + [c])
  {
    var taken, n := |Taken(k)|, |k.accepted|;
    FullTest(taken, n);
    NextSlot(n);
    if n - taken < RING - 1 {
      UnreadAfterPush(k, taken, c);
      var q := Push(k, c);
      assert Taken(q) == Taken(k) && Unread(q, taken);
      assert q.accepted[..taken] == k.accepted[..taken];
      assert Registers(q, taken);
    }
  }

  lemma HandleKeeps(k: Keyboard, b: Byte)
    requires Good(k)
    ensures Good(Handle(k, b))
  {
    var c := Produced(k.flags, b);
    var q := k.(flags := Shifted(k.flags, b), codes := k.codes + [b]);
    assert Good(q);
    if c != NONE { PushKeeps(q, c); }
  }

  lemma AdvanceKeeps(k: Keyboard, tailFirst: bool)
    requires Good(k)
    ensures Good(Advance(k, tailFirst))
  {
    var taken := |Taken(k)|;
    match k.place
    case HasTail(t) =>
      if t == k.head { SlotsDiffer(taken, |k.accepted|); }
    case HasHead(h) =>
      if h == k.tail { SlotsDiffer(taken, k.seen); }
    case Indexing(t) =>
      assert k.ring[taken % RING] == k.accepted[taken];
    case Advancing(c, t) =>
      NextSlot(taken);
      assert k.accepted[..taken + 1] == k.accepted[..taken] + [c];
    case _ =>
  }

  function Run(k: Keyboard, es: seq<Event>): (r: Keyboard)
    requires Good(k)
    ensures Good(r)
    decreases |es|
  {
    if es == [] then k
    else
      StepKeeps(k, es[0]);
      Run(Step(k, es[0]), es[1..])
  }

  lemma StepKeeps(k: Keyboard, e: Event)
    requires Good(k)
    ensures Good(Step(k, e))
  {
    match e
    case Interrupt(scancode) => HandleKeeps(k, scancode);
    case Consume(tailFirst) => AdvanceKeeps(k, tailFirst);
  }

  /** The driver at boot. */
  function Initial(): (k: Keyboard)
    ensures Good(k)
  {
    Keyboard(seq(RING, _ => NONE), 0, 0, RELEASED, Outside, [], "", "", 0)
  }

  /** How many steps the pop has still to go. */
  function Rank(p: Place): nat {
    match p
    case Outside => 7
    case HasTail(_) => 6
    case HasHead(_) => 6
    case SomethingThere => 5
    case Indexing(_) => 4
    case Loaded(_) => 3
    case Advancing(_, _) => 2
    case Leaving(_) => 1
  }

  /** The rest of the pop under way, uninterrupted, to its return. */
  function Finish(k: Keyboard): (r: Keyboard)
    requires Good(k)
    ensures Good(r) && r.place == Outside
    decreases Rank(k.place)
  {
    AdvanceKeeps(k, true);
    if k.place.Leaving? then Advance(k, true) else Finish(Advance(k, true))
  }

  // ---------------------------------------------------------------- the promises

  /** For every interleaving: what was popped is a prefix of what was accepted, in order; at
      most 255 characters wait; and those waiting are intact in their slots. */
  lemma FifoForEveryInterleaving(es: seq<Event>)
    ensures var k := Run(Initial(), es);
            && |k.popped| <= |k.accepted| && k.popped == k.accepted[..|k.popped|]
            && NONE !in k.popped
            && |k.accepted| - |Taken(k)| <= 255
            && |Taken(k)| - |k.popped| <= 1
            && forall i :: |Taken(k)| <= i < |k.accepted| ==> k.ring[i % 256] == k.accepted[i]
  {
    var k := Run(Initial(), es);
    assert Unread(k, |Taken(k)|);
  }

  /** What a pop returns, if this step is its last one. */
  function Returned(k: Keyboard, e: Event): string {
    if e.Consume? && k.place.Leaving? then [k.place.c] else ""
  }

  /** A pop that returns 0 read the head when everything accepted had been popped; any other
      pop returns the oldest character not yet popped. */
  lemma ReturnedIsOldestOrEmpty(k: Keyboard, e: Event)
    requires Good(k) && Returned(k, e) != ""
    ensures Returned(k, e)[0] == NONE <==> Step(k, e).popped == k.popped
    ensures Returned(k, e)[0] == NONE ==> k.seen == |k.popped|
    ensures Returned(k, e)[0] != NONE ==>
              |k.popped| < |k.accepted| && Returned(k, e)[0] == k.accepted[|k.popped|]
  {
    if Returned(k, e)[0] != NONE {
      assert Taken(k)[|k.popped|] == k.place.c;
    }
  }

  /** An interrupt leaves every unread slot as it is; it stores the character it produces
      exactly when fewer than 255 wait. */
  lemma InterruptSpares(k: Keyboard, b: Byte)
    requires Good(k)
    ensures var r, taken, c := Handle(k, b), |Taken(k)|, Produced(k.flags, b);
            && (forall i :: taken <= i < |k.accepted| ==> r.ring[i % RING] == k.ring[i % RING])
            && r.accepted == (if |k.accepted| - taken < 255 then Then(k.accepted, c) else k.accepted)
            && r.tail == k.tail && r.place == k.place && r.popped == k.popped
            && r.codes == k.codes + [b] && r.flags == Shifted(k.flags, b)
  {
    var r, taken := Handle(k, b), |Taken(k)|;
    HandleKeeps(k, b);
    var q := k.(flags := Shifted(k.flags, b), codes := k.codes + [b]);
    if Produced(k.flags, b) != NONE { PushKeeps(q, Produced(k.flags, b)); }
    forall i | taken <= i < |k.accepted| ensures r.ring[i % RING] == k.ring[i % RING] {
      assert r.accepted[i] == k.accepted[i];
      assert Unread(r, taken) && Unread(k, taken);
    }
  }

  // ---------------------------------------------------------------- from keys to characters

  function Codes(es: seq<Event>): seq<Byte>
    decreases |es|
  {
    if es == [] then [] else CodeOf(es[0]) + Codes(es[1..])
  }

  /** The event produces a character that finds the ring full. */
  predicate Drops(k: Keyboard, e: Event) {
    e.Interrupt? && Produced(k.flags, e.scancode) != NONE && |k.accepted| - |Taken(k)| == RING - 1
  }

  /** No event of the run drops a character. */
  predicate NeverFull(k: Keyboard, es: seq<Event>)
    requires Good(k)
    decreases |es|
  {
    es == [] || (!Drops(k, es[0]) && (StepKeeps(k, es[0]); NeverFull(Step(k, es[0]), es[1..])))
  }

  function CodeOf(e: Event): seq<Byte> {
    if e.Interrupt? then [e.scancode] else []
  }

  /** Everything the bytes received so far have produced. */
  function TypedBy(k: Keyboard): string {
    Typed(k.codes, |k.codes|)
  }

  /** The flags are those of the bytes received so far. */
  predicate Tracks(k: Keyboard) {
    k.flags == FlagsAfter(k.codes, |k.codes|)
  }

  lemma StepTracks(k: Keyboard, e: Event)
    requires Good(k) && Tracks(k)
    ensures var q := Step(k, e);
            var c := if e.Interrupt? then Produced(k.flags, e.scancode) else NONE;
            && Tracks(q) && q.codes == k.codes + CodeOf(e) && TypedBy(q) == Then(TypedBy(k), c)
            && q.accepted == if Drops(k, e) then k.accepted else Then(k.accepted, c)
  {
    if e.Interrupt? {
      TypedNext(k.codes, e.scancode);
      InterruptSpares(k, e.scancode);
    } else {
      assert k.codes + [] == k.codes;
    }
  }

  predicate Lossless(k: Keyboard) {
    k.accepted == TypedBy(k)
  }

  predicate Lossy(k: Keyboard) {
    |k.accepted| < |TypedBy(k)|
  }

  /** A character dropped is missing for good. */
  lemma StepLoss(k: Keyboard, e: Event)
    requires Good(k) && Tracks(k)
    ensures Lossless(k) ==> if Drops(k, e) then Lossy(Step(k, e)) else Lossless(Step(k, e))
    ensures Lossy(k) ==> Lossy(Step(k, e))
  {
    StepTracks(k, e);
  }

  lemma Regroup(a: seq<Byte>, b: seq<Byte>, c: seq<Byte>)
    ensures a + b + c == a + (b + c) && a + [] == a
  {
  }

  lemma CodesFirst(es: seq<Event>)
    requires es != []
    ensures Codes(es) == CodeOf(es[0]) + Codes(es[1..])
  {
  }

  lemma {:induction false} RunCodes(k: Keyboard, es: seq<Event>)
    requires Good(k) && Tracks(k)
    ensures Tracks(Run(k, es)) && Run(k, es).codes == k.codes + Codes(es)
    decreases |es|
  {
    if es == [] {
      Regroup(k.codes, [], []);
    } else {
      var e, rest := es[0], es[1..];
      StepKeeps(k, e);
      StepTracks(k, e);
      var q := Step(k, e);
      assert Run(k, es) == Run(q, rest);
      RunCodes(q, rest);
      Regroup(k.codes, CodeOf(e), Codes(rest));
      CodesFirst(es);
    }
  }

  lemma {:induction false} RunLossy(k: Keyboard, es: seq<Event>)
    requires Good(k) && Tracks(k) && Lossy(k)
    ensures Lossy(Run(k, es))
    decreases |es|
  {
    if es != [] {
      StepKeeps(k, es[0]);
      StepTracks(k, es[0]);
      StepLoss(k, es[0]);
      RunLossy(Step(k, es[0]), es[1..]);
    }
  }

  lemma {:induction false} RunLoss(k: Keyboard, es: seq<Event>)
    requires Good(k) && Tracks(k) && Lossless(k)
    ensures if NeverFull(k, es) then Lossless(Run(k, es)) else Lossy(Run(k, es))
    decreases |es|
  {
    if es != [] {
      StepKeeps(k, es[0]);
      StepTracks(k, es[0]);
      StepLoss(k, es[0]);
      var q := Step(k, es[0]);
      if Drops(k, es[0]) {
        RunLossy(q, es[1..]);
      } else {
        RunLoss(q, es[1..]);
      }
    }
  }

  /** However the interrupts fall, the characters accepted are exactly those typed if and only if
      none of them met a full ring; then the pops return what was typed, in order, up to the
      point reached. Otherwise something is missing for good. */
  lemma PoppedIsTyped(es: seq<Event>)
    ensures var k, typed := Run(Initial(), es), Typed(Codes(es), |Codes(es)|);
            && (k.accepted == typed <==> NeverFull(Initial(), es))
            && (NeverFull(Initial(), es) ==> |k.popped| <= |typed| && k.popped == typed[..|k.popped|])
            && (!NeverFull(Initial(), es) ==> |k.accepted| < |typed|)
  {
    RunCodes(Initial(), es);
    assert [] + Codes(es) == Codes(es);
    RunLoss(Initial(), es);
    FifoForEveryInterleaving(es);
  }

  const A_KEY: Byte := 0x1E

  function Presses(n: nat): seq<Event> {
    seq(n, _ => Interrupt(A_KEY))
  }

  lemma {:induction false} TooManyPresses(k: Keyboard, n: nat)
    requires Good(k) && k.flags == RELEASED && |k.accepted| - |Taken(k)| + n >= RING
    ensures !NeverFull(k, Presses(n))
    decreases n
  {
    var e := Interrupt(A_KEY);
    assert n > 0 && Presses(n)[0] == e && Presses(n)[1..] == Presses(n - 1);
    assert Produced(k.flags, A_KEY) == 'a' && Shifted(k.flags, A_KEY) == RELEASED;
    if !Drops(k, e) {
      StepKeeps(k, e);
      InterruptSpares(k, A_KEY);
      TooManyPresses(Step(k, e), n - 1);
    }
  }

  /** 256 or more presses of a key while nobody pops: something typed is lost for good. */
  lemma KeyLost(n: nat)
    requires n >= 256
    ensures var es := Presses(n);
            !NeverFull(Initial(), es) && |Run(Initial(), es).accepted| < |Typed(Codes(es), |Codes(es)|)|
  {
    TooManyPresses(Initial(), n);
    PoppedIsTyped(Presses(n));
  }
}
