/** The sound on/off model: a three-valued state and the one-shot
    `initialSwitch` flag that lets `turnOn` take effect only the first time
    it finds the sound off. Observers and the event bus are not modelled;
    each public method is a function from the old model to the new one. */
module SoundModel {

  datatype SoundState = Unknown | On | Off

  datatype Sound = Sound(state: SoundState, initialSwitch: bool)

  /** A freshly constructed model. */
  function New(): (s: Sound)
    ensures s.state == Unknown && s.initialSwitch
  {
    Sound(Unknown, true)
  }

  /** `turnOn`: only an `Off` model whose switch is still armed becomes `On`,
      and doing so disarms the switch. */
  function TurnOn(s: Sound): (r: Sound)
    ensures r != s <==> s.state == Off && s.initialSwitch
    ensures r != s ==> r.state == On && !r.initialSwitch
  {
    if s.state == Off && s.initialSwitch then Sound(On, false) else s
  }

  function Initialize(s: Sound): (r: Sound)
    ensures r.state == On && r.initialSwitch == s.initialSwitch
  {
    s.(state := On)
  }

  function Mute(s: Sound): (r: Sound)
    ensures r.state == Off && r.initialSwitch == s.initialSwitch
  {
    s.(state := Off)
  }

  /** The same update as `initialize`: `SoundModel` gives `initialize` and `unmute` the same body. */
  function Unmute(s: Sound): (r: Sound)
    ensures r.state == On && r.initialSwitch == s.initialSwitch
  {
    s.(state := On)
  }

  /** Gaining focus unmutes, losing it mutes. */
  function FocusChange(s: Sound, focus: bool): (r: Sound)
    ensures focus ==> r == Unmute(s)
    ensures !focus ==> r == Mute(s)
  {
    if focus then Unmute(s) else Mute(s)
  }

  /** `On` becomes `Off`; `Off` and `Unknown` both become `On`. */
  function Toggle(s: Sound): (r: Sound)
    ensures r.state != s.state
    ensures r.state == Off <==> s.state == On
    ensures r.initialSwitch == s.initialSwitch
  {
    s.(state := if s.state == On then Off else On)
  }

  /** Toggling twice restores a known state; from `Unknown` it lands on `Off`. */
  lemma ToggleTwice(s: Sound)
    ensures s.state != Unknown ==> Toggle(Toggle(s)) == s
    ensures s.state == Unknown ==> Toggle(Toggle(s)).state == Off
  {
  }

  /** The calls a client can make on the model. */
  datatype Call = TurnOnCall | InitializeCall | MuteCall | UnmuteCall | FocusCall(focus: bool) | ToggleCall

  function Apply(s: Sound, c: Call): Sound {
    match c
    case TurnOnCall => TurnOn(s)
    case InitializeCall => Initialize(s)
    case MuteCall => Mute(s)
    case UnmuteCall => Unmute(s)
    case FocusCall(f) => FocusChange(s, f)
    case ToggleCall => Toggle(s)
  }

  /** The model after a sequence of calls. */
  function Run(s: Sound, calls: seq<Call>): Sound
    decreases |calls|
  {
    if |calls| == 0 then s else Run(Apply(s, calls[0]), calls[1..])
  }

  /** How many of the calls were a `turnOn` that changed the state. */
  function EffectiveTurnOns(s: Sound, calls: seq<Call>): nat
    decreases |calls|
  {
    if |calls| == 0 then 0
    else
      var s' := Apply(s, calls[0]);
      (if calls[0] == TurnOnCall && s' != s then 1 else 0) + EffectiveTurnOns(s', calls[1..])
  }

  /** Once the switch is disarmed no call arms it again, so no later `turnOn` has an effect. */
  lemma {:induction false} DisarmedStaysInert(s: Sound, calls: seq<Call>)
    requires !s.initialSwitch
    ensures EffectiveTurnOns(s, calls) == 0
    ensures !Run(s, calls).initialSwitch
    decreases |calls|
  {
    if |calls| > 0 {
      DisarmedStaysInert(Apply(s, calls[0]), calls[1..]);
    }
  }

  /** Over any sequence of calls, `turnOn` takes effect at most once. */
  lemma {:induction false} TurnOnEffectiveAtMostOnce(s: Sound, calls: seq<Call>)
    ensures EffectiveTurnOns(s, calls) <= 1
    decreases |calls|
  {
    if |calls| > 0 {
      var s' := Apply(s, calls[0]);
      if calls[0] == TurnOnCall && s' != s {
        DisarmedStaysInert(s', calls[1..]);
      } else {
        TurnOnEffectiveAtMostOnce(s', calls[1..]);
      }
    }
  }
}
