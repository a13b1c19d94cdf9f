/** The gamepad debouncer of `CameraApp` (static/js/main.js): every poll
    compares each button with its state at the previous poll, and a newly
    pressed button starts a capture unless one was started by a gamepad less
    than `GamepadCooldown` milliseconds ago. */
module Gamepad {

  import opened Wrappers

  /** `this.gamepadCooldown`, in milliseconds. */
  const GamepadCooldown: int := 10000

  /** The map key `${gamepad.index}-${index}`. Both numbers are written in
      decimal digits, which never contain '-', so distinct pairs give
      distinct keys. */
  datatype ButtonKey = ButtonKey(pad: nat, button: nat)

  /** `navigator.getGamepads()`: slot `p` is empty (`null`) or holds the
      pressed state of each button of the gamepad whose index is `p`. */
  type Pads = seq<Option<seq<bool>>>

  /** `this.previousButtonStates.get(key) || false`. */
  function PreviousState(states: map<ButtonKey, bool>, key: ButtonKey): bool
  {
    if key in states then states[key] else false
  }

  /** The key names a button of a connected gamepad in this poll. */
  predicate IsButton(pads: Pads, key: ButtonKey)
  {
    key.pad < |pads| && pads[key.pad].Some? && key.button < |pads[key.pad].value|
  }

  /** `button.pressed` for a button of this poll. */
  function Pressed(pads: Pads, key: ButtonKey): bool
    requires IsButton(pads, key)
  {
    pads[key.pad].value[key.button]
  }

  /** The buttons the poll loop has visited before reaching button `b` of pad
      `p` (slots are visited in order, buttons in order within a slot). */
  predicate VisitedBefore(pads: Pads, key: ButtonKey, p: nat, b: nat)
  {
    IsButton(pads, key) && (key.pad < p || (key.pad == p && key.button < b))
  }

  /** Some button is pressed now and was not pressed (or never seen) at the
      previous poll. */
  ghost predicate HasRisingEdge(states: map<ButtonKey, bool>, pads: Pads)
  {
    exists key :: IsButton(pads, key) && Pressed(pads, key) && !PreviousState(states, key)
  }

  /** `previousButtonStates` after a poll: every button of every connected
      gamepad records its current state, every other entry is kept. */
  ghost function RecordedStates(states: map<ButtonKey, bool>, pads: Pads): map<ButtonKey, bool>
  {
    map key | key in states.Keys + ButtonsOf(pads) ::
      if IsButton(pads, key) then Pressed(pads, key) else states[key]
  }

  ghost function ButtonsOf(pads: Pads): set<ButtonKey>
  {
    set p, b | 0 <= p < |pads| && pads[p].Some? && 0 <= b < |pads[p].value| :: ButtonKey(p, b)
  }

  lemma ButtonsOfIsButton(pads: Pads, key: ButtonKey)
    ensures key in ButtonsOf(pads) <==> IsButton(pads, key)
  {
    if IsButton(pads, key) {
      assert ButtonKey(key.pad, key.button) in ButtonsOf(pads);
    }
  }

  /** Holding a button does not fire again: polling the same buttons right
      after a poll finds no new press. */
  lemma HeldButtonsDoNotRefire(states: map<ButtonKey, bool>, pads: Pads)
    ensures !HasRisingEdge(RecordedStates(states, pads), pads)
  {
    var recorded := RecordedStates(states, pads);
    forall key | IsButton(pads, key)
      ensures PreviousState(recorded, key) == Pressed(pads, key)
    {
      ButtonsOfIsButton(pads, key);
    }
  }

  /** Forgetting the states (on connect or disconnect) makes every button
      held at that moment count as newly pressed at the next poll. */
  lemma ClearedStatesSeeHeldButtons(pads: Pads, key: ButtonKey)
    requires IsButton(pads, key) && Pressed(pads, key)
    ensures HasRisingEdge(map[], pads)
  {
    assert !PreviousState(map[], key);
  }

  class GamepadPoller {
    var previousButtonStates: map<ButtonKey, bool>
    var lastGamepadCapture: int

    /** The gamepad part of the `CameraApp` constructor. */
    constructor ()
      ensures previousButtonStates == map[] && lastGamepadCapture == 0
    {
      previousButtonStates := map[];
      lastGamepadCapture := 0;
    }

    /** The `gamepadconnected` and `gamepaddisconnected` handlers. */
    method ClearButtonStates()
      modifies this
      ensures previousButtonStates == map[]
      ensures lastGamepadCapture == old(lastGamepadCapture)
    {
      previousButtonStates := map[];
    }

    /** `pollGamepad()` at time `now` (`Date.now()`): returns how many times
        `handleCapture` was called. At most one capture fires per poll, only
        for a rising edge, and only once the cooldown has elapsed. */
    method PollGamepad(pads: Pads, now: int) returns (captures: nat)
      modifies this
      ensures captures <= 1
      ensures captures == 1 <==>
                HasRisingEdge(old(previousButtonStates), pads)
                && now - old(lastGamepadCapture) >= GamepadCooldown
      ensures lastGamepadCapture == if captures == 1 then now else old(lastGamepadCapture)
      ensures previousButtonStates == RecordedStates(old(previousButtonStates), pads)
    {
      ghost var states := previousButtonStates;
      ghost var last := lastGamepadCapture;
      captures := 0;
      var p := 0;
      while p < |pads|
        invariant 0 <= p <= |pads|
        invariant captures <= 1
        invariant lastGamepadCapture == if captures == 1 then now else last
        invariant captures == 1 <==>
                    (exists key :: VisitedBefore(pads, key, p, 0) && Pressed(pads, key) && !PreviousState(states, key))
                    && now - last >= GamepadCooldown
        invariant forall key :: key in previousButtonStates <==> key in states || VisitedBefore(pads, key, p, 0)
        invariant forall key :: key in previousButtonStates ==>
                    previousButtonStates[key] == if VisitedBefore(pads, key, p, 0) then Pressed(pads, key) else states[key]
      {
        if pads[p].Some? {
          var buttons := pads[p].value;
          var b := 0;
          while b < |buttons|
            invariant 0 <= b <= |buttons|
            invariant captures <= 1
            invariant lastGamepadCapture == if captures == 1 then now else last
            invariant captures == 1 <==>
                        (exists key :: VisitedBefore(pads, key, p, b) && Pressed(pads, key) && !PreviousState(states, key))
                        && now - last >= GamepadCooldown
            invariant forall key :: key in previousButtonStates <==> key in states || VisitedBefore(pads, key, p, b)
            invariant forall key :: key in previousButtonStates ==>
                        previousButtonStates[key] == if VisitedBefore(pads, key, p, b) then Pressed(pads, key) else states[key]
          {
            var key := ButtonKey(p, b);
            var prevState := PreviousState(previousButtonStates, key);
            assert prevState == PreviousState(states, key);
            var currentState := buttons[b];
            if currentState && !prevState && now - lastGamepadCapture >= GamepadCooldown {
              captures := captures + 1;
              lastGamepadCapture := now;
            }
            previousButtonStates := previousButtonStates[key := currentState];
            b := b + 1;
          }
          assert forall key :: VisitedBefore(pads, key, p, b) <==> VisitedBefore(pads, key, p + 1, 0);
        } else {
          assert forall key :: VisitedBefore(pads, key, p, 0) <==> VisitedBefore(pads, key, p + 1, 0);
        }
        p := p + 1;
      }
      assert forall key :: VisitedBefore(pads, key, p, 0) <==> IsButton(pads, key);
      forall key
        ensures key in ButtonsOf(pads) <==> IsButton(pads, key)
      {
        ButtonsOfIsButton(pads, key);
      }
      assert previousButtonStates == RecordedStates(states, pads);
    }
  }
}
