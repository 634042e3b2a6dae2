/** The engine's input record (key actions, one-shot key latches, the
    single-slot character queue and the shared mouse-button state) as a
    value, with the effect of the key-event handler and of every
    edge-triggered query on it. The class `Spxe.Engine` keeps the same
    record in arrays and fields and is proved to follow these functions. */
module InputSpec {
  import opened Pixels

  /** Length of the `keys` and `pressedKeys` tables. */
  const KeyCount := 1024

  /** GLFW action codes. */
  const Release := 0
  const Press := 1
  const Repeat := 2

  /** GLFW modifier bits. */
  const ModShift := 0x1
  const ModCapsLock := 0x10

  /** Key codes the tables can hold. */
  type Key = k: int | 0 <= k < KeyCount

  datatype State = State(
    mouseState: int,       // last reading seen by MousePressed
    queuedChar: int,       // non-zero while a decoded character is pending
    memChar: int,          // the pending decoded character
    keys: seq<int>,        // last action reported per key
    pressedKeys: seq<int>  // one-shot latch per key
  )
  {
    predicate Valid() {
      |keys| == KeyCount && |pressedKeys| == KeyCount
    }
  }

  /** The state before any event: mouse released, every key up and unlatched,
      and a queued character 0. */
  const Init := State(Release, 1, 0, seq(KeyCount, _ => 0), seq(KeyCount, _ => 0))

  /** The character heuristic of the key handler: the key code itself when
      exactly Shift or exactly Caps Lock is active or the code is below 'A',
      otherwise the code shifted into the lower-case range. */
  function DecodeChar(key: int, mods: int): (c: int)
    ensures c == key || c == key + 32
    ensures c == key <==> key < 65 || mods == ModShift || mods == ModCapsLock
  {
    if mods == ModCapsLock || mods == ModShift || key < 65 then key else key + 32
  }

  /** The key-event handler: decodes a character when a key below 128 that
      was up reports any action, stores the raw action, and clears the latch
      exactly when the action is a release. */
  function OnKey(s: State, key: Key, action: int, mods: int): (t: State)
    requires s.Valid()
    ensures t.Valid()
    ensures t.keys == s.keys[key := action]
    ensures t.pressedKeys == s.pressedKeys[key := if action == Release then 0 else s.pressedKeys[key]]
    ensures key < 128 && s.keys[key] == 0 ==> t.queuedChar == 1 && t.memChar == DecodeChar(key, mods)
    ensures !(key < 128 && s.keys[key] == 0) ==> t.queuedChar == s.queuedChar && t.memChar == s.memChar
    ensures t.mouseState == s.mouseState
  {
    var q := if key < 128 && s.keys[key] == 0
             then s.(memChar := DecodeChar(key, mods), queuedChar := 1)
             else s;
    q.(keys := q.keys[key := action],
       pressedKeys := q.pressedKeys[key := q.pressedKeys[key] * Truth(action != 0)])
  }

  /** A key is down while its last action is press or repeat. */
  predicate KeyDown(s: State, key: Key)
    requires s.Valid()
  {
    s.keys[key] != 0
  }

  /** Fires when the key is down and not yet latched, and latches it. */
  function KeyPressed(s: State, key: Key): (r: (State, bool))
    requires s.Valid()
    ensures r.0.Valid()
    ensures r.1 <==> KeyDown(s, key) && s.pressedKeys[key] == 0
    ensures r.0 == if r.1 then s.(pressedKeys := s.pressedKeys[key := 1]) else s
  {
    if s.pressedKeys[key] == 0 && s.keys[key] != 0 then
      (s.(pressedKeys := s.pressedKeys[key := 1]), true)
    else
      (s, false)
  }

  /** Fires when the key is up but still latched, and clears the latch. */
  function KeyReleased(s: State, key: Key): (r: (State, bool))
    requires s.Valid()
    ensures r.0.Valid()
    ensures r.1 <==> !KeyDown(s, key) && s.pressedKeys[key] != 0
    ensures r.0 == if r.1 then s.(pressedKeys := s.pressedKeys[key := 0]) else s
  {
    if s.keys[key] == 0 && s.pressedKeys[key] != 0 then
      (s.(pressedKeys := s.pressedKeys[key := 0]), true)
    else
      (s, false)
  }

  /** The 8-bit pattern a `char` keeps of an `int`. */
  function CharOf(v: int): (c: int)
    ensures 0 <= c < 256
    ensures 0 <= v < 256 ==> c == v
  {
    v % 256
  }

  /** Drains the character queue: the pending character, or 0 when nothing
      is pending; afterwards nothing is pending. */
  function KeyChar(s: State): (r: (State, int))
    ensures r.0 == s.(queuedChar := if s.queuedChar != 0 then 0 else s.queuedChar)
    ensures r.0.queuedChar == 0
    ensures r.1 == if s.queuedChar != 0 then CharOf(s.memChar) else 0
  {
    if s.queuedChar != 0 then (s.(queuedChar := 0), CharOf(s.memChar)) else (s, 0)
  }

  /** Fires on a PRESS reading when the last recorded reading was RELEASE, and
      records the reading. There is one recorded reading for all buttons. */
  function MousePressed(s: State, reading: int): (r: (State, bool))
    ensures r.1 <==> reading == Press && s.mouseState == Release
    ensures r.0 == s.(mouseState := reading)
  {
    (s.(mouseState := reading), reading == Press && s.mouseState == Release)
  }

  /** Level-triggered: true on every reading that is not pressed. */
  predicate MouseReleased(reading: int) {
    reading == Release
  }

  // ---------------------------------------------------------------------
  // Traces of events and queries

  datatype Event =
    | KeyEvent(key: Key, action: int, mods: int)
    | PressedQuery(key: Key)
    | ReleasedQuery(key: Key)
    | CharQuery
    | MousePressedQuery(button: int, reading: int)

  datatype Reply = Done | Flag(on: bool) | Char(c: int)

  function Step(s: State, e: Event): (r: (State, Reply))
    requires s.Valid()
    ensures r.0.Valid()
  {
    match e
    case KeyEvent(k, a, m) => (OnKey(s, k, a, m), Done)
    case PressedQuery(k) => var (t, b) := KeyPressed(s, k); (t, Flag(b))
    case ReleasedQuery(k) => var (t, b) := KeyReleased(s, k); (t, Flag(b))
    case CharQuery => var (t, c) := KeyChar(s); (t, Char(c))
    case MousePressedQuery(_, v) => var (t, b) := MousePressed(s, v); (t, Flag(b))
  }

  /** The state after a trace, and the reply to each of its events. */
  function Run(s: State, es: seq<Event>): (r: (State, seq<Reply>))
    requires s.Valid()
    ensures r.0.Valid() && |r.1| == |es|
    decreases |es|
  {
    if es == [] then (s, [])
    else
      var (t, reply) := Step(s, es[0]);
      var (u, replies) := Run(t, es[1..]);
      (u, [reply] + replies)
  }

  predicate ReleasesKey(e: Event, key: Key) {
    e.KeyEvent? && e.key == key && e.action == Release
  }

  // ---------------------------------------------------------------------
  // KeyPressed fires at most once per hold

  /** The key is down and latched. */
  predicate Held(s: State, key: Key)
    requires s.Valid()
  {
    s.keys[key] != 0 && s.pressedKeys[key] != 0
  }

  lemma HeldStep(s: State, e: Event, key: Key)
    requires s.Valid() && Held(s, key) && !ReleasesKey(e, key)
    ensures Held(Step(s, e).0, key)
    ensures e == PressedQuery(key) ==> Step(s, e).1 == Flag(false)
  {
  }

  /** Once KeyPressed has fired for a key, no later KeyPressed for that key
      fires again until a release event for it arrives, whatever other
      events and queries come in between. */
  lemma {:induction false} PressedOncePerHold(s: State, key: Key, es: seq<Event>)
    requires s.Valid() && KeyPressed(s, key).1
    requires forall i :: 0 <= i < |es| ==> !ReleasesKey(es[i], key)
    ensures forall i :: 0 <= i < |es| && es[i] == PressedQuery(key) ==>
              Run(KeyPressed(s, key).0, es).1[i] == Flag(false)
    ensures !KeyPressed(Run(KeyPressed(s, key).0, es).0, key).1
  {
    HeldTrace(KeyPressed(s, key).0, key, es);
  }

  lemma {:induction false} HeldTrace(s: State, key: Key, es: seq<Event>)
    requires s.Valid() && Held(s, key)
    requires forall i :: 0 <= i < |es| ==> !ReleasesKey(es[i], key)
    ensures Held(Run(s, es).0, key)
    ensures forall i :: 0 <= i < |es| && es[i] == PressedQuery(key) ==> Run(s, es).1[i] == Flag(false)
    decreases |es|
  {
    if es != [] {
      HeldStep(s, es[0], key);
      var t := Step(s, es[0]).0;
      HeldTrace(t, key, es[1..]);
      var r := Run(s, es).1;
      assert r == [Step(s, es[0]).1] + Run(t, es[1..]).1;
      forall i | 0 <= i < |es| && es[i] == PressedQuery(key)
        ensures r[i] == Flag(false)
      {
        if i > 0 {
          assert es[1..][i - 1] == es[i];
        }
      }
    }
  }

  /** A release event re-arms the latch: a press after it fires again. */
  lemma ReleaseRearms(s: State, key: Key, mods: int, mods': int)
    requires s.Valid()
    ensures KeyPressed(OnKey(OnKey(s, key, Release, mods), key, Press, mods'), key).1
  {
  }

  // ---------------------------------------------------------------------
  // KeyReleased never fires

  /** No key is latched while it is up. */
  ghost predicate LatchOnlyWhileDown(s: State)
    requires s.Valid()
  {
    forall k :: 0 <= k < KeyCount && s.keys[k] == 0 ==> s.pressedKeys[k] == 0
  }

  lemma LatchOnlyWhileDownStep(s: State, e: Event)
    requires s.Valid() && LatchOnlyWhileDown(s)
    ensures LatchOnlyWhileDown(Step(s, e).0)
    ensures e.ReleasedQuery? ==> Step(s, e).1 == Flag(false)
  {
    match e
    case KeyEvent(k, a, m) =>
      var t := OnKey(s, k, a, m);
      forall j | 0 <= j < KeyCount && t.keys[j] == 0 ensures t.pressedKeys[j] == 0 {
        if j != k {
          assert t.keys[j] == s.keys[j] && t.pressedKeys[j] == s.pressedKeys[j];
        }
      }
    case PressedQuery(k) =>
      var t := KeyPressed(s, k).0;
      forall j | 0 <= j < KeyCount && t.keys[j] == 0 ensures t.pressedKeys[j] == 0 {
        if j != k {
          assert t.pressedKeys[j] == s.pressedKeys[j];
        }
      }
    case ReleasedQuery(k) =>
    case CharQuery =>
    case MousePressedQuery(_, _) =>
  }

  /** After any key release the release query does not fire: the handler has
      already cleared the latch it would test. */
  lemma ReleasedAfterReleaseEvent(s: State, key: Key, mods: int)
    requires s.Valid()
    ensures !KeyReleased(OnKey(s, key, Release, mods), key).1
  {
  }

  /** A key pressed and queried twice, then released and queried twice: the
      press query fires once, and neither release query fires, because the
      release event has already cleared the latch. */
  lemma {:induction false} PressReleaseTrace(key: Key)
    ensures Run(Init, [KeyEvent(key, Press, 0), PressedQuery(key), PressedQuery(key),
                       KeyEvent(key, Release, 0), ReleasedQuery(key), ReleasedQuery(key)]).1 ==
            [Done, Flag(true), Flag(false), Done, Flag(false), Flag(false)]
  {
    var es := [KeyEvent(key, Press, 0), PressedQuery(key), PressedQuery(key),
               KeyEvent(key, Release, 0), ReleasedQuery(key), ReleasedQuery(key)];
    var s1 := OnKey(Init, key, Press, 0);
    var s2 := KeyPressed(s1, key).0;
    var s4 := OnKey(s2, key, Release, 0);
    assert Run(s4, es[4..]).1 == [Flag(false), Flag(false)] by {
      assert es[4..][1..] == es[5..];
    }
    assert Run(s2, es[2..]).1 == [Flag(false), Done, Flag(false), Flag(false)] by {
      assert es[2..][1..] == es[3..];
      assert es[3..][1..] == es[4..];
    }
    assert Run(Init, es).1 == [Done, Flag(true)] + Run(s2, es[2..]).1 by {
      assert es[1..] == [es[1]] + es[2..];
      assert es[1..][1..] == es[2..];
    }
  }

  /** Starting from the initial state, no trace of events makes KeyReleased
      fire: a key is only ever latched while it is down, and the release
      event that brings it up clears the latch at the same time. */
  lemma {:induction false} ReleasedNeverFires(es: seq<Event>)
    ensures forall i :: 0 <= i < |es| && es[i].ReleasedQuery? ==> Run(Init, es).1[i] == Flag(false)
  {
    LatchTrace(Init, es);
  }

  lemma {:induction false} LatchTrace(s: State, es: seq<Event>)
    requires s.Valid() && LatchOnlyWhileDown(s)
    ensures LatchOnlyWhileDown(Run(s, es).0)
    ensures forall i :: 0 <= i < |es| && es[i].ReleasedQuery? ==> Run(s, es).1[i] == Flag(false)
    decreases |es|
  {
    if es != [] {
      LatchOnlyWhileDownStep(s, es[0]);
      var t := Step(s, es[0]).0;
      LatchTrace(t, es[1..]);
      var r := Run(s, es).1;
      assert r == [Step(s, es[0]).1] + Run(t, es[1..]).1;
      forall i | 0 <= i < |es| && es[i].ReleasedQuery?
        ensures r[i] == Flag(false)
      {
        if i > 0 {
          assert es[1..][i - 1] == es[i];
        }
      }
    }
  }

  // ---------------------------------------------------------------------
  // Character queue

  /** A press of a key below 128 that was up queues its decoded character,
      which the next KeyChar returns; a KeyChar right after returns 0. */
  lemma PressQueuesChar(s: State, key: Key, mods: int)
    requires s.Valid() && key < 128 && !KeyDown(s, key)
    ensures KeyChar(OnKey(s, key, Press, mods)).1 == DecodeChar(key, mods)
    ensures KeyChar(KeyChar(OnKey(s, key, Press, mods)).0).1 == 0
  {
  }

  /** Repeat and release events of a key that is down leave the queue alone. */
  lemma NoCharWhileDown(s: State, key: Key, action: int, mods: int)
    requires s.Valid() && KeyDown(s, key)
    ensures KeyChar(OnKey(s, key, action, mods)).1 == KeyChar(s).1
  {
  }

  /** Two presses without a KeyChar in between: the second character
      overwrites the first. */
  lemma LastPressWins(s: State, k1: Key, k2: Key, m1: int, m2: int)
    requires s.Valid() && k1 != k2 && k1 < 128 && k2 < 128
    requires !KeyDown(s, k1) && !KeyDown(s, k2)
    ensures KeyChar(OnKey(OnKey(s, k1, Press, m1), k2, Press, m2)).1 == DecodeChar(k2, m2)
  {
  }

  /** Letter keys ('A'..'Z' in GLFW) decode to upper case exactly when the
      modifiers are Shift alone or Caps Lock alone, and to the matching
      lower-case letter otherwise. */
  lemma {:induction false} DecodeLetter(key: int, mods: int)
    requires 65 <= key <= 90
    ensures 65 <= DecodeChar(key, mods) <= 90 <==> mods == ModShift || mods == ModCapsLock
    ensures !(mods == ModShift || mods == ModCapsLock) ==> DecodeChar(key, mods) == key - 65 + 97
  {
  }

  /** Codes below 'A' (digits, space, punctuation) are never changed by the
      modifiers. */
  lemma DecodeBelowLetters(key: int, mods: int)
    requires key < 65
    ensures DecodeChar(key, mods) == key
  {
  }

  /** Without Shift or Caps Lock the four codes after 'Z' decode to `{`,
      `|`, `}` and `~`, and the grave accent (96) to 128, which is outside
      ASCII. */
  lemma DecodePunctuation()
    ensures DecodeChar(91, 0) == '{' as int && DecodeChar(92, 0) == '|' as int
    ensures DecodeChar(93, 0) == '}' as int && DecodeChar(94, 0) == '~' as int
    ensures DecodeChar(96, 0) == 128
  {
  }

  /** The initial queue holds the character 0, so the first KeyChar returns
      the same 0 as an empty queue would. */
  lemma FirstCharIsNull()
    ensures KeyChar(Init).1 == 0
  {
  }

  // ---------------------------------------------------------------------
  // Mouse

  /** All buttons share one recorded reading: once a press of one button has
      been reported, a press reading for any button reports nothing until a
      release reading has been recorded. */
  lemma MousePressShared(s: State, b1: int, b2: int)
    requires s.Valid()
    ensures var (t, _) := Step(s, MousePressedQuery(b1, Press));
            Step(t, MousePressedQuery(b2, Press)).1 == Flag(false)
  {
  }
}
