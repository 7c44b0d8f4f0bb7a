/** The GUI event values (GuiElement/gui_event.h and gui_event.cpp): a mouse event
    carries its type, the mouse position, the button, the wheel movement and the
    modifier keys; a key event carries its type, the key and the modifier keys. Events
    never change after construction, so they are datatype values, their accessors are
    the datatype's destructors and their C++ constructors are the functions below. */
module GuiEvents {

  datatype EventType =
    | MousePressEvent | MouseReleaseEvent | MouseWheelEvent
    | MouseMoveEvent | MouseEnterEvent | MouseLeaveEvent
    | KeyPressEvent | KeyReleaseEvent

  datatype Button = LeftButton | MiddleButton | RightButton | NoButton

  /** One modifier key. */
  datatype Modifier = ShiftModifier | ControlModifier | AltModifier | MetaModifier

  /** A set of modifier keys, as the 32-bit `int` the events store. */
  type Modifiers = bv32

  /** The flag value of a modifier key: 1, 2, 4 and 8. */
  function Flag(m: Modifier): (f: Modifiers)
    ensures f != 0 && f & (f - 1) == 0
    ensures f & 0xF == f
  {
    match m
    case ShiftModifier => 1
    case ControlModifier => 2
    case AltModifier => 4
    case MetaModifier => 8
  }

  /** The flags of two modifiers share a bit exactly when they are the same modifier. */
  lemma FlagsDistinct(a: Modifier, b: Modifier)
    ensures Flag(a) & Flag(b) != 0 <==> a == b
  {
  }

  /** The modifier m is among the flags `mods`. */
  predicate HasModifier(mods: Modifiers, m: Modifier)
  {
    mods & Flag(m) != 0
  }

  /** The flags of several modifier keys or-ed together. */
  function Combine(ms: seq<Modifier>): (mods: Modifiers)
    ensures mods & 0xF == mods
  {
    if ms == [] then 0 else Combine(ms[..|ms| - 1]) | Flag(ms[|ms| - 1])
  }

  /** An or-combination of modifier flags tells exactly which modifiers were pressed. */
  lemma {:induction false} CombineDetermines(ms: seq<Modifier>, m: Modifier)
    ensures HasModifier(Combine(ms), m) <==> m in ms
  {
    if ms != [] {
      var init, last := ms[..|ms| - 1], ms[|ms| - 1];
      assert ms == init + [last];
      CombineDetermines(init, m);
      FlagsDistinct(last, m);
      assert Combine(ms) & Flag(m) == (Combine(init) & Flag(m)) | (Flag(last) & Flag(m));
    }
  }

  /** A GUI event. Both kinds answer `eventType` and `keyModifiers`. */
  datatype GuiEvent =
    | GuiMouseEvent(eventType: EventType, mouseXLocation: int, mouseYLocation: int,
                    mouseButton: Button, wheelDelta: int, keyModifiers: Modifiers)
    | GuiKeyEvent(eventType: EventType, key: bv8, keyModifiers: Modifiers)

  /** `GuiMouseEvent(type, x, y, btn = NoButton, mod_keys = 0)`: a mouse event of the
      given type with no wheel movement. */
  function MouseEvent(eventType: EventType, x: int, y: int, btn: Button := NoButton, modKeys: Modifiers := 0): (e: GuiEvent)
    ensures e.GuiMouseEvent? && e.eventType == eventType && e.wheelDelta == 0
    ensures e.mouseXLocation == x && e.mouseYLocation == y
    ensures e.mouseButton == btn && e.keyModifiers == modKeys
  {
    GuiMouseEvent(eventType, x, y, btn, 0, modKeys)
  }

  /** `GuiMouseEvent(x, y, delta, btn = NoButton, keys = 0)`: a MouseWheelEvent. */
  function WheelEvent(x: int, y: int, delta: int, btn: Button := NoButton, keys: Modifiers := 0): (e: GuiEvent)
    ensures e.GuiMouseEvent? && e.eventType == MouseWheelEvent && e.wheelDelta == delta
    ensures e.mouseXLocation == x && e.mouseYLocation == y
    ensures e.mouseButton == btn && e.keyModifiers == keys
  {
    GuiMouseEvent(MouseWheelEvent, x, y, btn, delta, keys)
  }

  /** `GuiKeyEvent(type, key, mod_keys = 0)`. */
  function KeyEvent(eventType: EventType, key: bv8, modKeys: Modifiers := 0): (e: GuiEvent)
    ensures e.GuiKeyEvent? && e.eventType == eventType
    ensures e.key == key && e.keyModifiers == modKeys
  {
    GuiKeyEvent(eventType, key, modKeys)
  }

  /** An event one of the three constructors can build: a mouse event moves the wheel
      only when it is a MouseWheelEvent. */
  predicate Constructible(e: GuiEvent)
  {
    e.GuiMouseEvent? ==> e.wheelDelta == 0 || e.eventType == MouseWheelEvent
  }

  /** The constructor call that rebuilds an event from its accessors. */
  function Rebuild(e: GuiEvent): GuiEvent
  {
    match e
    case GuiKeyEvent(t, k, mods) => KeyEvent(t, k, mods)
    case GuiMouseEvent(t, x, y, btn, delta, mods) =>
      if t == MouseWheelEvent then WheelEvent(x, y, delta, btn, mods)
      else MouseEvent(t, x, y, btn, mods)
  }

  /** Every event the constructors build is constructible, and every constructible
      event is rebuilt from its own accessors: the accessors lose nothing. */
  lemma RebuildExactly(e: GuiEvent)
    ensures Constructible(e) <==> Rebuild(e) == e
  {
  }

  /** The wheel constructor and the typed constructor given MouseWheelEvent agree exactly
      when the wheel did not move. */
  lemma WheelAndTypedAgree(x: int, y: int, delta: int, btn: Button, mods: Modifiers)
    ensures WheelEvent(x, y, delta, btn, mods) == MouseEvent(MouseWheelEvent, x, y, btn, mods) <==> delta == 0
  {
  }

  /** Omitted arguments default to no button and no modifier. */
  lemma Defaults(t: EventType, x: int, y: int, delta: int, key: bv8)
    ensures MouseEvent(t, x, y) == MouseEvent(t, x, y, NoButton, 0)
    ensures WheelEvent(x, y, delta) == WheelEvent(x, y, delta, NoButton, 0)
    ensures KeyEvent(t, key) == KeyEvent(t, key, 0)
    ensures forall m :: !HasModifier(KeyEvent(t, key).keyModifiers, m)
  {
  }
}
