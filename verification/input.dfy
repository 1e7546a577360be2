/** The keyboard state of js/input.js: which actions are held (`down`) and
    which were pressed since they were last consumed (`pressed`). */
module Input {
  import opened Wrappers

  datatype Action = Left | Right | Thrust | Shoot | Pause | Start | Mute

  /** The key codes bound to each action. */
  function KeysOf(a: Action): set<string> {
    match a
    case Left => {"ArrowLeft", "KeyA"}
    case Right => {"ArrowRight", "KeyD"}
    case Thrust => {"ArrowUp", "KeyW"}
    case Shoot => {"Space"}
    case Pause => {"Escape"}
    case Start => {"Enter"}
    case Mute => {"KeyM"}
  }

  /** keyToAction(code): the action bound to a key code, or none. */
  function KeyToAction(code: string): (r: Option<Action>)
    ensures r.Some? ==> code in KeysOf(r.value)
  {
    match code
    case "ArrowLeft" => Some(Left)
    case "KeyA" => Some(Left)
    case "ArrowRight" => Some(Right)
    case "KeyD" => Some(Right)
    case "ArrowUp" => Some(Thrust)
    case "KeyW" => Some(Thrust)
    case "Space" => Some(Shoot)
    case "Escape" => Some(Pause)
    case "Enter" => Some(Start)
    case "KeyM" => Some(Mute)
    case _ => None
  }

  /** The key map and the binding table agree in both directions: a code maps to
      an action exactly when it is one of that action's keys, and every other
      code maps to nothing. */
  lemma KeyToActionMatchesBindings(code: string, a: Action)
    ensures KeyToAction(code) == Some(a) <==> code in KeysOf(a)
    ensures KeyToAction(code) == None <==> forall b: Action :: code !in KeysOf(b)
  {
  }

  /** The actions a held-down key does not repeat. */
  predicate OneShot(a: Action) {
    a == Pause || a == Start || a == Mute
  }

  datatype Keys = Keys(down: set<Action>, pressed: set<Action>)

  const NoKeys: Keys := Keys({}, {})

  /** onKeyDown: an unmapped code, or an auto-repeat of a one-shot action, changes
      nothing; any other key adds its action to both sets. */
  function OnKeyDown(k: Keys, code: string, repeat: bool): (r: Keys)
    ensures KeyToAction(code).None? ==> r == k
    ensures KeyToAction(code).Some? && repeat && OneShot(KeyToAction(code).value) ==> r == k
    ensures KeyToAction(code).Some? && !(repeat && OneShot(KeyToAction(code).value)) ==>
      var a := KeyToAction(code).value;
      r.down == k.down + {a} && r.pressed == k.pressed + {a}
  {
    match KeyToAction(code)
    case None => k
    case Some(a) =>
      if repeat && OneShot(a) then k
      else Keys(k.down + {a}, k.pressed + {a})
  }

  /** onKeyUp: the action is no longer held; a press not yet consumed stays. */
  function OnKeyUp(k: Keys, code: string): (r: Keys)
    ensures KeyToAction(code).None? ==> r == k
    ensures r.pressed == k.pressed
    ensures KeyToAction(code).Some? ==> r.down == k.down - {KeyToAction(code).value}
  {
    match KeyToAction(code)
    case None => k
    case Some(a) => k.(down := k.down - {a})
  }

  /** isDown(action): a query; it leaves the key state as it is. */
  function IsDown(k: Keys, a: Action): (held: bool)
    ensures held <==> a in k.down
  {
    a in k.down
  }

  /** The answer of wasPressed together with the key state it leaves behind. */
  datatype Consumed = Consumed(had: bool, keys: Keys)

  /** wasPressed(action): reports a pending press and consumes it. */
  function WasPressed(k: Keys, a: Action): (r: Consumed)
    ensures r.had <==> a in k.pressed
    ensures r.keys.down == k.down && r.keys.pressed == k.pressed - {a}
  {
    if a in k.pressed then Consumed(true, k.(pressed := k.pressed - {a}))
    else Consumed(false, k)
  }

  /** A press is reported once: asking again straight away answers false. */
  lemma WasPressedOnce(k: Keys, a: Action)
    ensures !WasPressed(WasPressed(k, a).keys, a).had
    ensures WasPressed(WasPressed(k, a).keys, a).keys == WasPressed(k, a).keys
  {
  }

  /** nextFrame: pending pause, start and mute presses are dropped; the others
      (movement and shoot) are kept, and `down` is untouched. */
  function NextFrame(k: Keys): (r: Keys)
    ensures r.down == k.down
    ensures forall a :: a in r.pressed <==> a in k.pressed && !OneShot(a)
  {
    k.(pressed := k.pressed - {Pause, Start, Mute})
  }
}
