/** The input snapshot the application hands to widgets: for every keyboard key and mouse
    button its state in this frame and in the frame before, from which the queries tell a held
    key from one that went down or up just now. */
module InputStates {

  /** The state of a key or button in one frame. */
  datatype KeyState = Pressed | Released

  datatype MouseButton = Left | Middle | Right | X1 | X2

  /** A keyboard key, identified by its position in the key enumeration. */
  type KeyboardKey = nat

  /** `InputState`: the pointer position and motion (`u32` pairs) and the two per-frame state
      tables for keys and buttons, each a total map as an `EnumMap` is. */
  datatype InputState = InputState(
    mousePos: (nat, nat),
    mouseDiff: (nat, nat),
    currentKeyboardKeyState: KeyboardKey -> KeyState,
    previousKeyboardKeyState: KeyboardKey -> KeyState,
    currentMouseButtonState: MouseButton -> KeyState,
    previousMouseButtonState: MouseButton -> KeyState)
  {
    /** `is_key_pressed`: the key is down in this frame. */
    function IsKeyPressed(key: KeyboardKey): (b: bool)
      ensures b <==> currentKeyboardKeyState(key) != Released
    {
      currentKeyboardKeyState(key) == Pressed
    }

    /** `is_key_released`: the key is up in this frame; exactly one of pressed and released
        holds. */
    function IsKeyReleased(key: KeyboardKey): (b: bool)
      ensures b <==> !IsKeyPressed(key)
    {
      currentKeyboardKeyState(key) == Released
    }

    /** `was_key_just_pressed`: the key changed state since the previous frame and is now
        down. */
    function WasKeyJustPressed(key: KeyboardKey): (b: bool)
      ensures b <==> IsKeyPressed(key) && previousKeyboardKeyState(key) != currentKeyboardKeyState(key)
    {
      IsKeyPressed(key) && previousKeyboardKeyState(key) == Released
    }

    /** `was_key_just_released`: the key changed state since the previous frame and is now up;
        never at the same time as `was_key_just_pressed`. */
    function WasKeyJustReleased(key: KeyboardKey): (b: bool)
      ensures b <==> IsKeyReleased(key) && previousKeyboardKeyState(key) != currentKeyboardKeyState(key)
      ensures b ==> !WasKeyJustPressed(key)
    {
      IsKeyReleased(key) && previousKeyboardKeyState(key) == Pressed
    }

    /** `is_button_pressed`: the button is down in this frame. */
    function IsButtonPressed(button: MouseButton): (b: bool)
      ensures b <==> currentMouseButtonState(button) != Released
    {
      currentMouseButtonState(button) == Pressed
    }

    /** `is_button_released`: the button is up in this frame; exactly one of pressed and
        released holds. */
    function IsButtonReleased(button: MouseButton): (b: bool)
      ensures b <==> !IsButtonPressed(button)
    {
      currentMouseButtonState(button) == Released
    }

    /** `was_button_just_pressed`: the button changed state since the previous frame and is
        now down. */
    function WasButtonJustPressed(button: MouseButton): (b: bool)
      ensures b <==> IsButtonPressed(button) && previousMouseButtonState(button) != currentMouseButtonState(button)
    {
      IsButtonPressed(button) && previousMouseButtonState(button) == Released
    }

    /** `was_button_just_released`: the button changed state since the previous frame and is
        now up; never at the same time as `was_button_just_pressed`. */
    function WasButtonJustReleased(button: MouseButton): (b: bool)
      ensures b <==> IsButtonReleased(button) && previousMouseButtonState(button) != currentMouseButtonState(button)
      ensures b ==> !WasButtonJustPressed(button)
    {
      IsButtonReleased(button) && previousMouseButtonState(button) == Pressed
    }
  }

  /** A key changed state between the two frames exactly when it was just pressed or just
      released. */
  lemma KeyChangeIsAnEdge(s: InputState, key: KeyboardKey)
    ensures s.previousKeyboardKeyState(key) != s.currentKeyboardKeyState(key)
            <==> s.WasKeyJustPressed(key) || s.WasKeyJustReleased(key)
  {
  }

  /** A button changed state between the two frames exactly when it was just pressed or just
      released. */
  lemma ButtonChangeIsAnEdge(s: InputState, button: MouseButton)
    ensures s.previousMouseButtonState(button) != s.currentMouseButtonState(button)
            <==> s.WasButtonJustPressed(button) || s.WasButtonJustReleased(button)
  {
  }

  /** The key queries read only that key's two entries: two snapshots that agree on them
      answer all four queries alike, whatever the other keys, the buttons or the pointer do. */
  lemma KeyQueriesAreLocal(s: InputState, t: InputState, key: KeyboardKey)
    requires s.currentKeyboardKeyState(key) == t.currentKeyboardKeyState(key)
    requires s.previousKeyboardKeyState(key) == t.previousKeyboardKeyState(key)
    ensures s.IsKeyPressed(key) == t.IsKeyPressed(key)
    ensures s.IsKeyReleased(key) == t.IsKeyReleased(key)
    ensures s.WasKeyJustPressed(key) == t.WasKeyJustPressed(key)
    ensures s.WasKeyJustReleased(key) == t.WasKeyJustReleased(key)
  {
  }

  /** The button queries read only that button's two entries. */
  lemma ButtonQueriesAreLocal(s: InputState, t: InputState, button: MouseButton)
    requires s.currentMouseButtonState(button) == t.currentMouseButtonState(button)
    requires s.previousMouseButtonState(button) == t.previousMouseButtonState(button)
    ensures s.IsButtonPressed(button) == t.IsButtonPressed(button)
    ensures s.IsButtonReleased(button) == t.IsButtonReleased(button)
    ensures s.WasButtonJustPressed(button) == t.WasButtonJustPressed(button)
    ensures s.WasButtonJustReleased(button) == t.WasButtonJustReleased(button)
  {
  }

  /** A key held down over both frames is pressed but neither just pressed nor just
      released. */
  lemma HeldKeyIsNoEdge(s: InputState, key: KeyboardKey)
    requires s.currentKeyboardKeyState(key) == Pressed && s.previousKeyboardKeyState(key) == Pressed
    ensures s.IsKeyPressed(key) && !s.WasKeyJustPressed(key) && !s.WasKeyJustReleased(key)
  {
  }
}
