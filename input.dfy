/**
 * The game's input queue (game/src/input.rs): a FIFO of input events and a table of which
 * keys are held down, indexed by the key's winit `VirtualKeyCode` discriminant.
 */
module Input {

  import opened Common

  /** A winit `VirtualKeyCode`, by its discriminant (what `convert` returns). */
  type KeyCode = nat

  datatype Event = Quit | MouseMotion(xRel: int, yRel: int) | KeyEvent(key: KeyCode, down: bool)

  /** winit's `KeyboardInput`, reduced to what `push_keyboard_input` reads. */
  datatype KeyboardInput = KeyboardInput(pressed: bool, virtualKeycode: Option<KeyCode>)

  const I32_MIN: int := -0x8000_0000
  const I32_MAX: int := 0x7FFF_FFFF

  /** Rust's `v as i32` for an `f64`: rounds toward zero and saturates at the bounds. */
  function TruncI32(v: real): (r: int)
    ensures I32_MIN <= r <= I32_MAX
    ensures v >= I32_MAX as real ==> r == I32_MAX
    ensures v <= I32_MIN as real ==> r == I32_MIN
    ensures 0.0 <= v < I32_MAX as real ==> r as real <= v < r as real + 1.0
    ensures I32_MIN as real < v < 0.0 ==> r as real - 1.0 < v <= r as real
  {
    if v >= I32_MAX as real then I32_MAX
    else if v <= I32_MIN as real then I32_MIN
    else if v >= 0.0 then v.Floor
    else -((-v).Floor)
  }

  /** The key table after one keyboard input: the key's entry records whether it is pressed. */
  function Record(state: seq<bool>, input: KeyboardInput): (r: seq<bool>)
    requires input.virtualKeycode.Some? ==> input.virtualKeycode.value < |state|
    ensures |r| == |state|
  {
    match input.virtualKeycode
    case None => state
    case Some(k) => state[k := input.pressed]
  }

  /** The event one keyboard input queues: one `KeyEvent` when it carries a key code, else none. */
  function Announced(input: KeyboardInput): (r: seq<Event>)
    ensures input.virtualKeycode.None? ==> r == []
    ensures input.virtualKeycode.Some? ==> r == [KeyEvent(input.virtualKeycode.value, input.pressed)]
  {
    match input.virtualKeycode
    case None => []
    case Some(k) => [KeyEvent(k, input.pressed)]
  }

  predicate KeysFit(inputs: seq<KeyboardInput>, keyCount: nat)
  {
    forall i | 0 <= i < |inputs| :: inputs[i].virtualKeycode.Some? ==> inputs[i].virtualKeycode.value < keyCount
  }

  /** The key table after a series of keyboard inputs, applied in order. */
  function StateAfter(state: seq<bool>, inputs: seq<KeyboardInput>): (r: seq<bool>)
    requires KeysFit(inputs, |state|)
    ensures |r| == |state|
    decreases |inputs|
  {
    if inputs == [] then state
    else Record(StateAfter(state, inputs[..|inputs| - 1]), inputs[|inputs| - 1])
  }

  /** Whether the last of `inputs` that names key `k` pressed it, if any does. */
  function LastPress(inputs: seq<KeyboardInput>, k: KeyCode): Option<bool>
    decreases |inputs|
  {
    if inputs == [] then None
    else
      var last := inputs[|inputs| - 1];
      if last.virtualKeycode == Some(k) then Some(last.pressed) else LastPress(inputs[..|inputs| - 1], k)
  }

  /**
   * `is_key_down` reports the most recent keyboard input for that key, and a key no input
   * has named keeps its earlier state.
   */
  lemma {:induction false} KeyStateIsLastPress(state: seq<bool>, inputs: seq<KeyboardInput>, k: KeyCode)
    requires KeysFit(inputs, |state|) && k < |state|
    ensures StateAfter(state, inputs)[k] == match LastPress(inputs, k) case Some(down) => down case None => state[k]
    decreases |inputs|
  {
    if inputs != [] {
      var prefix := inputs[..|inputs| - 1];
      assert KeysFit(prefix, |state|);
      KeyStateIsLastPress(state, prefix, k);
    }
  }

  /** One more input is recorded on top of the table the earlier ones made. */
  lemma StateAfterAppend(state: seq<bool>, inputs: seq<KeyboardInput>, input: KeyboardInput)
    requires KeysFit(inputs, |state|) && (input.virtualKeycode.Some? ==> input.virtualKeycode.value < |state|)
    ensures KeysFit(inputs + [input], |state|)
    ensures StateAfter(state, inputs + [input]) == Record(StateAfter(state, inputs), input)
  {
    assert (inputs + [input])[..|inputs|] == inputs;
  }

  /** The key table of a fresh queue: `n` keys, all up. */
  function AllUp(n: nat): (r: seq<bool>)
    ensures |r| == n && forall k | 0 <= k < n :: !r[k]
  {
    seq(n, _ => false)
  }

  class InputQueue {
    /** The pending events, oldest first. */
    var queue: seq<Event>
    /** Whether each key is held down. */
    const keyboardState: array<bool>
    /** The keyboard inputs pushed so far, oldest first. */
    ghost var inputs: seq<KeyboardInput>

    /** The key table is what the keyboard inputs pushed so far make of a table with every key up. */
    ghost predicate Valid()
      reads this, keyboardState
    {
      KeysFit(inputs, keyboardState.Length) && keyboardState[..] == StateAfter(AllUp(keyboardState.Length), inputs)
    }

    /**
     * `InputQueue::new`: no events and every key up. `keyCount` is `convert(VirtualKeyCode::Cut) + 1`,
     * one entry per winit key code, `Cut` being the last of them.
     */
    constructor (keyCount: nat)
      ensures Valid() && inputs == []
      ensures queue == [] && fresh(keyboardState) && keyboardState.Length == keyCount
      ensures forall k | 0 <= k < keyCount :: !keyboardState[k]
    {
      queue := [];
      keyboardState := new bool[keyCount](_ => false);
      inputs := [];
    }

    /**
     * `is_key_down`: the state the most recent keyboard input naming `key` gave it, or up when
     * no input has named it.
     */
    function IsKeyDown(key: KeyCode): (down: bool)
      requires Valid() && key < keyboardState.Length
      reads this, keyboardState
      ensures down == match LastPress(inputs, key) case Some(pressed) => pressed case None => false
    {
      KeyStateIsLastPress(AllUp(keyboardState.Length), inputs, key);
      keyboardState[key]
    }

    /**
     * `push_keyboard_input`: an input with a key code records the key's new state and queues a
     * `KeyEvent` for it; an input without one changes nothing.
     */
    method PushKeyboardInput(input: KeyboardInput)
      requires Valid() && (input.virtualKeycode.Some? ==> input.virtualKeycode.value < keyboardState.Length)
      modifies this, keyboardState
      ensures Valid() && inputs == old(inputs) + [input]
      ensures keyboardState[..] == Record(old(keyboardState[..]), input)
      ensures queue == old(queue) + Announced(input)
    {
      ghost var before := keyboardState[..];
      match input.virtualKeycode {
        case Some(k) =>
          keyboardState[k] := input.pressed;
          queue := queue + [KeyEvent(k, input.pressed)];
        case None =>
      }
      assert keyboardState[..] == Record(before, input);
      StateAfterAppend(AllUp(keyboardState.Length), inputs, input);
      inputs := inputs + [input];
    }

    /** `push_mouse_movement`: queues one `MouseMotion` at the back; the key table is untouched. */
    method PushMouseMovement(mouse: (real, real))
      requires Valid()
      modifies this
      ensures Valid() && inputs == old(inputs)
      ensures queue == old(queue) + [MouseMotion(TruncI32(mouse.0), TruncI32(mouse.1))]
    {
      queue := queue + [MouseMotion(TruncI32(mouse.0), TruncI32(mouse.1))];
    }

    /** `event`: the oldest pending event, removed from the queue, or None when there is none. */
    method Event() returns (e: Option<Event>)
      requires Valid()
      modifies this
      ensures Valid() && inputs == old(inputs)
      ensures old(queue) == [] ==> e == None && queue == []
      ensures old(queue) != [] ==> e == Some(old(queue)[0]) && queue == old(queue)[1..]
    {
      if queue == [] {
        e := None;
      } else {
        e := Some(queue[0]);
        queue := queue[1..];
      }
    }
  }
}
