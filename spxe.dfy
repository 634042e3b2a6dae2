/** The engine's process-wide record: logical and window resolutions, the
    letterbox ratio derived from them, and the input tables updated by the
    key-event handler and the input queries. Hardware readings (the action
    and modifiers of a key event, the state of a mouse button) are
    parameters. */
module Spxe {
  import opened Pixels
  import opened InputSpec

  const ExitSuccess := 0
  const ExitFailure := 1

  /** Letterbox ratio: the scale of the presented quad relative to the
      window, per axis. `w` and `h` are how many window pixels one logical
      pixel would take along each axis; the smaller of the two wins and the
      other axis is shrunk to keep the logical aspect. The source computes
      in `float`; this is the exact-arithmetic version. */
  function Ratio(winWidth: real, winHeight: real, scrWidth: real, scrHeight: real): (ratio: (real, real))
    requires 0.0 <= winWidth && 0.0 <= winHeight && 0.0 < scrWidth && 0.0 < scrHeight
    ensures 0.0 <= ratio.0 <= 1.0 && 0.0 <= ratio.1 <= 1.0
    ensures ratio.0 == 1.0 || ratio.1 == 1.0
    ensures 0.0 < winWidth && 0.0 < winHeight ==> 0.0 < ratio.0 && 0.0 < ratio.1
  {
    var w := winWidth / scrWidth;
    var h := winHeight / scrHeight;
    (if h < w then h / w else 1.0, if w < h then w / h else 1.0)
  }

  /** `a / b < c / d` compared without division. */
  lemma DivLess(a: real, b: real, c: real, d: real)
    requires 0.0 < b && 0.0 < d
    ensures a / b < c / d <==> a * d < c * b
  {
    assert a / b * (b * d) == a * d;
    assert c / d * (b * d) == c * b;
  }

  lemma DivBelowOne(a: real, b: real)
    requires 0.0 <= a < b
    ensures a / b < 1.0
  {
    assert a / b * b == a;
  }

  /** The width is shrunk (pillarbox) exactly when the window is wider than
      the logical aspect, the height (letterbox) exactly when it is taller,
      and neither exactly when the two aspects agree. */
  lemma {:induction false} RatioShrinks(winWidth: real, winHeight: real, scrWidth: real, scrHeight: real)
    requires 0.0 < winWidth && 0.0 < winHeight && 0.0 < scrWidth && 0.0 < scrHeight
    ensures Ratio(winWidth, winHeight, scrWidth, scrHeight).0 < 1.0 <==> winHeight * scrWidth < winWidth * scrHeight
    ensures Ratio(winWidth, winHeight, scrWidth, scrHeight).1 < 1.0 <==> winWidth * scrHeight < winHeight * scrWidth
    ensures Ratio(winWidth, winHeight, scrWidth, scrHeight) == (1.0, 1.0) <==> winWidth * scrHeight == winHeight * scrWidth
  {
    var w := winWidth / scrWidth;
    var h := winHeight / scrHeight;
    DivLess(winHeight, scrHeight, winWidth, scrWidth);
    DivLess(winWidth, scrWidth, winHeight, scrHeight);
    if h < w {
      DivBelowOne(h, w);
    }
    if w < h {
      DivBelowOne(w, h);
    }
  }

  /** The presented quad has the logical aspect: its width in window pixels
      over its height in window pixels equals the logical width over the
      logical height. */
  lemma {:induction false} RatioKeepsAspect(winWidth: real, winHeight: real, scrWidth: real, scrHeight: real)
    requires 0.0 < winWidth && 0.0 < winHeight && 0.0 < scrWidth && 0.0 < scrHeight
    ensures var (rw, rh) := Ratio(winWidth, winHeight, scrWidth, scrHeight);
            rw * winWidth * scrHeight == rh * winHeight * scrWidth
  {
    var w := winWidth / scrWidth;
    var h := winHeight / scrHeight;
    assert winWidth == w * scrWidth;
    assert winHeight == h * scrHeight;
    var (rw, rh) := Ratio(winWidth, winHeight, scrWidth, scrHeight);
    assert rw * w == rh * h;
    calc {
      rw * winWidth * scrHeight;
      rw * w * scrWidth * scrHeight;
      rh * h * scrWidth * scrHeight;
      rh * winHeight * scrWidth;
    }
  }

  /** Same aspect: no border. A square logical screen in an 800 x 600
      window: the width shrinks to 0.75. */
  lemma RatioExamples()
    ensures Ratio(800.0, 600.0, 320.0, 240.0) == (1.0, 1.0)
    ensures Ratio(800.0, 600.0, 100.0, 100.0) == (0.75, 1.0)
  {
    assert 600.0 / 100.0 / (800.0 / 100.0) == 0.75;
  }

  /** Exit status of engine teardown: failure exactly when the buffer
      handed back is null. */
  function EndStatus(bufferIsNull: bool): (status: int)
    ensures status == ExitFailure <==> bufferIsNull
    ensures status == ExitSuccess <==> !bufferIsNull
  {
    if bufferIsNull then ExitFailure else ExitSuccess
  }

  class Engine {
    var scrWidth: int
    var scrHeight: int
    var winWidth: int
    var winHeight: int
    var ratioWidth: real
    var ratioHeight: real

    var mouseState: int
    var queuedChar: int
    var memChar: int
    var keys: array<int>
    var pressedKeys: array<int>

    /** Resolutions are usable, the ratio is the one of the current
        resolutions, and the two key tables are distinct arrays of
        `KeyCount` entries. */
    ghost predicate Valid()
      reads this
    {
      0 < scrWidth && 0 < scrHeight && 0 <= winWidth && 0 <= winHeight &&
      (ratioWidth, ratioHeight) == Ratio(winWidth as real, winHeight as real, scrWidth as real, scrHeight as real) &&
      keys.Length == KeyCount && pressedKeys.Length == KeyCount && keys != pressedKeys
    }

    /** The input record as a value. */
    ghost function Input(): (s: State)
      reads this, keys, pressedKeys
      requires Valid()
      ensures s.Valid()
    {
      State(mouseState, queuedChar, memChar, keys[..], pressedKeys[..])
    }

    /** The static initial value of the engine record. */
    constructor ()
      ensures Valid() && fresh(keys) && fresh(pressedKeys)
      ensures Input() == Init
      ensures scrWidth == 400 && scrHeight == 300 && winWidth == 800 && winHeight == 600
      ensures ratioWidth == 1.0 && ratioHeight == 1.0
    {
      scrWidth, scrHeight := 400, 300;
      winWidth, winHeight := 800, 600;
      ratioWidth, ratioHeight := 1.0, 1.0;
      mouseState, queuedChar, memChar := Release, 1, 0;
      keys := new int[KeyCount](_ => 0);
      pressedKeys := new int[KeyCount](_ => 0);
      assert 600.0 / 300.0 == 800.0 / 400.0;
    }

    /** The window-resize handler: records the new size and recomputes the
        letterbox ratio from it. */
    method OnResize(width: int, height: int)
      requires Valid() && 0 <= width && 0 <= height
      modifies this`winWidth, this`winHeight, this`ratioWidth, this`ratioHeight
      ensures Valid() && Input() == old(Input())
      ensures winWidth == width && winHeight == height
      ensures scrWidth == old(scrWidth) && scrHeight == old(scrHeight)
    {
      winWidth, winHeight := width, height;
      var w := winWidth as real / scrWidth as real;
      var h := winHeight as real / scrHeight as real;
      ratioWidth := if h < w then h / w else 1.0;
      ratioHeight := if w < h then w / h else 1.0;
    }

    /** Offset of logical pixel (x, y) in the pixel buffer. */
    function PxGet(x: int, y: int): (i: int)
      reads this
      ensures 0 < scrHeight && 0 <= x < scrWidth && 0 <= y < scrHeight ==>
                0 <= i < scrWidth * scrHeight && i / scrWidth == y && i % scrWidth == x
    {
      if 0 <= x < scrWidth && 0 <= y < scrHeight then
        IndexInRange(scrWidth, scrHeight, x, y);
        IndexCoords(scrWidth, x, y);
        Index(scrWidth, x, y)
      else
        Index(scrWidth, x, y)
    }

    /** The key-event handler. */
    method Keyboard(key: Key, action: int, mods: int)
      requires Valid()
      modifies this`queuedChar, this`memChar, keys, pressedKeys
      ensures Valid() && Input() == OnKey(old(Input()), key, action, mods)
    {
      if key < 128 && keys[key] == 0 {
        if mods == ModCapsLock || mods == ModShift || key < 65 {
          memChar := key;
        } else {
          memChar := key + 32;
        }
        queuedChar := 1;
      }
      keys[key] := action;
      pressedKeys[key] := pressedKeys[key] * Truth(action != 0);
    }

    method KeyDown(key: Key) returns (down: bool)
      requires Valid()
      ensures down <==> InputSpec.KeyDown(Input(), key)
    {
      down := keys[key] != 0;
    }

    method KeyPressed(key: Key) returns (fired: bool)
      requires Valid()
      modifies pressedKeys
      ensures Valid() && (Input(), fired) == InputSpec.KeyPressed(old(Input()), key)
    {
      fired := false;
      if pressedKeys[key] == 0 && keys[key] != 0 {
        pressedKeys[key] := 1;
        fired := true;
      }
    }

    method KeyReleased(key: Key) returns (fired: bool)
      requires Valid()
      modifies pressedKeys
      ensures Valid() && (Input(), fired) == InputSpec.KeyReleased(old(Input()), key)
    {
      fired := false;
      if keys[key] == 0 && pressedKeys[key] != 0 {
        pressedKeys[key] := 0;
        fired := true;
      }
    }

    method KeyChar() returns (ch: int)
      requires Valid()
      modifies this`queuedChar
      ensures Valid() && (Input(), ch) == InputSpec.KeyChar(old(Input()))
    {
      ch := 0;
      if queuedChar != 0 {
        ch := CharOf(memChar);
        queuedChar := 0;
      }
    }

    /** `reading` is the current state of `button` as the window system
        reports it. */
    method MousePressed(button: int, reading: int) returns (pressed: bool)
      requires Valid()
      modifies this`mouseState
      ensures Valid() && (Input(), pressed) == InputSpec.MousePressed(old(Input()), reading)
    {
      pressed := reading == Press && mouseState == Release;
      mouseState := reading;
    }

    /** Level-triggered: reads no recorded state. */
    method MouseReleased(button: int, reading: int) returns (released: bool)
      ensures released <==> reading == Release
    {
      released := reading == 0;
    }
  }
}
