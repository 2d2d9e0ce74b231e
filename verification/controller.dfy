/** The keyboard driver model of the Webots vehicle controller: one call of
    `get_keyboard_commands` per simulation step turns the key held in that step
    into smoothed, clamped throttle, brake and steering commands. */
module Controller {

  // Tuning constants of the controller.
  const ThrottleIncrement: real := 0.02
  const MaxSteering: real := 0.5
  const SteeringIncrement: real := 0.02
  // Idle-creep guard: below this throttle with no brake, hold the car.
  const IdleThrottle: real := 0.01
  const IdleHoldBrake: real := 0.1

  // Key codes as the keyboard reports them (the code of the upper-case
  // letter), and the code for "no key pressed".
  const NoKey: int := -1
  const KeyW: int := 87
  const KeyS: int := 83
  const KeyA: int := 65
  const KeyD: int := 68
  const KeyR: int := 82
  const KeyF: int := 70
  const KeyQ: int := 81
  const KeyE: int := 69
  const KeyL: int := 76

  // Gear values passed to the driver.
  const Reverse: int := -1
  const Drive: int := 1

  datatype Indicator = IndicatorOff | IndicatorLeft | IndicatorRight

  /** The persistent state of the vehicle manager between two steps. */
  datatype Controls = Controls(
    throttle: real,
    brake: real,
    steering: real,
    headlights: bool,
    prevKey: int,
    gear: int)

  /** The payload returned by one step and handed to the actuators. */
  datatype Command = Command(
    throttle: real,
    steering: real,
    brake: real,
    indicator: Indicator,
    headlights: bool)

  /** Keys that fall into the coasting branch: neither pedal nor steering. */
  predicate Coasting(key: int) {
    key != KeyW && key != KeyS && key != KeyA && key != KeyD
  }

  /** Every value lies within its logical limit and the gear is a real gear. */
  predicate InRange(c: Controls) {
    && 0.0 <= c.throttle <= 1.0
    && 0.0 <= c.brake <= 1.0
    && -MaxSteering <= c.steering <= MaxSteering
    && (c.gear == Reverse || c.gear == Drive)
  }

  /** The state the vehicle manager starts in. */
  function Initial(): (c: Controls)
    ensures InRange(c)
  {
    Controls(0.0, 0.0, 0.0, false, NoKey, Drive)
  }

  /** The state after one step in which `key` was read. */
  function Next(c: Controls, key: int): (r: Controls)
    // every step ends within the logical limits
    ensures 0.0 <= r.throttle <= 1.0 && 0.0 <= r.brake <= 1.0
    ensures -MaxSteering <= r.steering <= MaxSteering
    // the brake is one of three values, full exactly on S
    ensures r.brake == 0.0 || r.brake == IdleHoldBrake || r.brake == 1.0
    ensures r.brake == 1.0 <==> key == KeyS
    // idle-creep guard: never off the gas with the brake released
    ensures !(r.throttle < IdleThrottle && r.brake == 0.0)
    ensures r.brake == IdleHoldBrake ==> r.throttle == 0.0
    // only W can raise the throttle
    ensures key != KeyW && 0.0 <= c.throttle ==> r.throttle <= c.throttle
    // coasting never increases the steering angle and, within limits, scales it by 0.9
    ensures Coasting(key) ==> -c.steering <= r.steering <= c.steering || c.steering <= r.steering <= -c.steering
    ensures Coasting(key) && -MaxSteering <= c.steering <= MaxSteering ==> r.steering == 0.9 * c.steering
    // the headlights flip exactly on the press of L
    ensures r.headlights != c.headlights <==> key == KeyL && c.prevKey != KeyL
    ensures r.prevKey == key
    // the gear follows R and F and nothing else
    ensures key == KeyR ==> r.gear == Reverse
    ensures key == KeyF ==> r.gear == Drive
    ensures key != KeyR && key != KeyF ==> r.gear == c.gear
    ensures InRange(c) ==> InRange(r)
    // from within limits, what each of W, S, A and D does to the pedals and the wheel
    ensures InRange(c) && key == KeyW ==>
      r.throttle == Min(c.throttle + ThrottleIncrement, 1.0) && r.brake == 0.0 && r.steering == c.steering
    ensures InRange(c) && key == KeyS ==>
      r.throttle == Max(c.throttle - 2.0 * ThrottleIncrement, 0.0) && r.steering == c.steering
    ensures InRange(c) && key == KeyA ==> r.steering == Max(c.steering - SteeringIncrement, -MaxSteering)
    ensures InRange(c) && key == KeyD ==> r.steering == Min(c.steering + SteeringIncrement, MaxSteering)
    ensures InRange(c) && (key == KeyA || key == KeyD) ==>
      r.throttle == (if c.throttle < IdleThrottle then 0.0 else c.throttle) &&
      r.brake == (if c.throttle < IdleThrottle then IdleHoldBrake else 0.0)
  {
    var (throttle, brake, steering) :=
      if key == KeyW then (c.throttle + ThrottleIncrement, 0.0, c.steering)
      else if key == KeyS then (c.throttle - ThrottleIncrement * 2.0, 1.0, c.steering)
      else if key == KeyA then (c.throttle, 0.0, c.steering - SteeringIncrement)
      else if key == KeyD then (c.throttle, 0.0, c.steering + SteeringIncrement)
      else (c.throttle * 0.95, 0.0, c.steering * 0.9);
    var gear := if key == KeyR then Reverse else if key == KeyF then Drive else c.gear;
    var headlights := if key == KeyL && c.prevKey != key then !c.headlights else c.headlights;
    var throttle' := Max(Min(throttle, 1.0), 0.0);
    var steering' := Max(Min(steering, MaxSteering), -MaxSteering);
    var brake' := Max(Min(brake, 1.0), 0.0);
    var idle := throttle' < IdleThrottle && brake' == 0.0;
    Controls(
      if idle then 0.0 else throttle',
      if idle then IdleHoldBrake else brake',
      steering', headlights, key, gear)
  }

  function IndicatorFor(key: int): (i: Indicator)
    ensures i == IndicatorLeft <==> key == KeyQ
    ensures i == IndicatorRight <==> key == KeyE
  {
    if key == KeyQ then IndicatorLeft
    else if key == KeyE then IndicatorRight
    else IndicatorOff
  }

  /** The payload of a step whose new state is `c` and whose key was `key`. */
  function CommandOf(c: Controls, key: int): Command {
    Command(c.throttle, c.steering, c.brake, IndicatorFor(key), c.headlights)
  }

  /** The state after one step per key of `keys`, in order. */
  function Steps(c: Controls, keys: seq<int>): Controls
    decreases |keys|
  {
    if keys == [] then c else Next(Steps(c, keys[..|keys| - 1]), keys[|keys| - 1])
  }

  /** One more key is one more step from the state the earlier keys reached. */
  lemma StepsPrefix(c: Controls, keys: seq<int>, i: nat)
    requires i < |keys|
    ensures Steps(c, keys[..i + 1]) == Next(Steps(c, keys[..i]), keys[i])
  {
    assert keys[..i + 1][..i] == keys[..i];
  }

  /** The command applied after each key, in order. */
  function Commands(c: Controls, keys: seq<int>): (cmds: seq<Command>)
    decreases |keys|
  {
    if keys == [] then []
    else
      var n := |keys| - 1;
      Commands(c, keys[..n]) + [CommandOf(Steps(c, keys), keys[n])]
  }

  lemma CommandsPrefix(c: Controls, keys: seq<int>, i: nat)
    requires i < |keys|
    ensures Commands(c, keys[..i + 1]) ==
      Commands(c, keys[..i]) + [CommandOf(Next(Steps(c, keys[..i]), keys[i]), keys[i])]
  {
    assert keys[..i + 1][..i] == keys[..i];
    StepsPrefix(c, keys, i);
  }

  /** One command per key: the i-th is what the controller applies once the
      first i + 1 keys have been handled. */
  lemma {:induction false} CommandsAt(c: Controls, keys: seq<int>, i: nat)
    requires i < |keys|
    ensures |Commands(c, keys)| == |keys|
    ensures Commands(c, keys)[i] == CommandOf(Steps(c, keys[..i + 1]), keys[i])
    decreases |keys|
  {
    var n := |keys| - 1;
    CommandsLength(c, keys);
    if i < n {
      CommandsAt(c, keys[..n], i);
      assert keys[..n][..i + 1] == keys[..i + 1];
    } else {
      assert keys[..i + 1] == keys;
    }
  }

  lemma {:induction false} CommandsLength(c: Controls, keys: seq<int>)
    ensures |Commands(c, keys)| == |keys|
    decreases |keys|
  {
    if keys != [] {
      CommandsLength(c, keys[..|keys| - 1]);
    }
  }

  function Repeat(key: int, n: nat): (ks: seq<int>)
    ensures |ks| == n && forall i :: 0 <= i < n ==> ks[i] == key
  {
    seq(n, _ => key)
  }

  /** x multiplied n times by rate, that is x * rate^n. */
  function Decayed(x: real, rate: real, n: nat): real {
    if n == 0 then x else rate * Decayed(x, rate, n - 1)
  }

  lemma {:induction false} DecayedNonnegative(x: real, n: nat)
    requires 0.0 <= x
    ensures 0.0 <= Decayed(x, 0.95, n) <= x
  {
    if n > 0 {
      DecayedNonnegative(x, n - 1);
    }
  }

  /** Every run from a state within limits stays within limits. */
  lemma {:induction false} StepsInRange(c: Controls, keys: seq<int>)
    requires InRange(c)
    ensures InRange(Steps(c, keys))
  {
    if keys != [] {
      StepsInRange(c, keys[..|keys| - 1]);
    }
  }

  /** Without W the throttle never rises, however long the run. */
  lemma {:induction false} ThrottleRisesOnlyOnW(c: Controls, keys: seq<int>)
    requires 0.0 <= c.throttle
    requires forall i :: 0 <= i < |keys| ==> keys[i] != KeyW
    ensures Steps(c, keys).throttle <= c.throttle
  {
    if keys != [] {
      var init := keys[..|keys| - 1];
      ThrottleRisesOnlyOnW(c, init);
      if init != [] {
        assert init[..|init| - 1] == keys[..|keys| - 2];
      }
    }
  }

  /** Holding L for n >= 1 steps toggles the headlights exactly once, unless
      L was already held in the step before the run. */
  lemma {:induction false} HoldingLTogglesOnce(c: Controls, n: nat)
    requires n >= 1
    ensures Steps(c, Repeat(KeyL, n)).prevKey == KeyL
    ensures Steps(c, Repeat(KeyL, n)).headlights == if c.prevKey == KeyL then c.headlights else !c.headlights
  {
    if n > 1 {
      assert Repeat(KeyL, n)[..n - 1] == Repeat(KeyL, n - 1);
      HoldingLTogglesOnce(c, n - 1);
    } else {
      assert Repeat(KeyL, 1)[..0] == [];
    }
  }

  /** One coasting step from a state within limits, in closed form. */
  lemma CoastingStep(s: Controls, key: int)
    requires InRange(s) && Coasting(key)
    ensures Next(s, key).steering == 0.9 * s.steering
    ensures var t := 0.95 * s.throttle;
      && Next(s, key).throttle == (if t < IdleThrottle then 0.0 else t)
      && Next(s, key).brake == (if t < IdleThrottle then IdleHoldBrake else 0.0)
  {
  }

  /** With only coasting keys for n >= 1 steps, from a state within limits,
      the steering decays geometrically by 0.9 per step. */
  lemma {:induction false} CoastingSteering(c: Controls, keys: seq<int>)
    requires InRange(c)
    requires forall i :: 0 <= i < |keys| ==> Coasting(keys[i])
    ensures Steps(c, keys).steering == Decayed(c.steering, 0.9, |keys|)
  {
    if keys != [] {
      var n := |keys| - 1;
      var init := keys[..n];
      CoastingSteering(c, init);
      StepsInRange(c, init);
      CoastingStep(Steps(c, init), keys[n]);
    }
  }

  /** With only coasting keys for n >= 1 steps, from a state within limits,
      the throttle decays geometrically by 0.95 per step until it drops under
      the idle threshold; from then on the idle-creep guard holds the car at
      zero throttle with the idle brake. */
  lemma {:induction false} CoastingThrottle(c: Controls, keys: seq<int>)
    requires InRange(c)
    requires |keys| >= 1
    requires forall i :: 0 <= i < |keys| ==> Coasting(keys[i])
    ensures var p := Decayed(c.throttle, 0.95, |keys|);
      && Steps(c, keys).throttle == (if p < IdleThrottle then 0.0 else p)
      && Steps(c, keys).brake == (if p < IdleThrottle then IdleHoldBrake else 0.0)
  {
    var n := |keys| - 1;
    var init := keys[..n];
    if n == 0 {
      assert init == [];
      CoastingStep(c, keys[0]);
    } else {
      CoastingThrottle(c, init);
      DecayedNonnegative(c.throttle, n);
      StepsInRange(c, init);
      CoastingThrottleStep(Steps(c, init), keys[n], Decayed(c.throttle, 0.95, n));
    }
  }

  /** The inductive step of CoastingThrottle: one more coasting step from a
      guarded throttle gives the guarded decayed throttle. */
  lemma CoastingThrottleStep(s: Controls, key: int, p: real)
    requires InRange(s) && Coasting(key) && 0.0 <= p
    requires s.throttle == (if p < IdleThrottle then 0.0 else p)
    ensures var q := 0.95 * p;
      && Next(s, key).throttle == (if q < IdleThrottle then 0.0 else q)
      && Next(s, key).brake == (if q < IdleThrottle then IdleHoldBrake else 0.0)
  {
    CoastingStep(s, key);
    GuardKeepsHolding(p, s.throttle);
  }

  /** Arithmetic core of CoastingThrottle: decaying the guarded value of p is
      the guarded value of the decayed p. */
  lemma GuardKeepsHolding(p: real, t: real)
    requires 0.0 <= p
    requires t == if p < IdleThrottle then 0.0 else p
    ensures var t' := 0.95 * t;
      (if t' < IdleThrottle then 0.0 else t') == (if 0.95 * p < IdleThrottle then 0.0 else 0.95 * p)
    ensures (0.95 * t < IdleThrottle) == (0.95 * p < IdleThrottle)
  {
  }

  /** The vehicle manager: the controller state the source keeps in fields,
      the gear being what the driver was last told. */
  class VehicleManager {
    var throttle: real
    var brake: real
    var targetSteering: real
    var headlightsOn: bool
    var prevKey: int
    var gear: int

    function State(): Controls
      reads this
    {
      Controls(throttle, brake, targetSteering, headlightsOn, prevKey, gear)
    }

    constructor ()
      ensures State() == Initial()
    {
      gear := Drive;
      throttle := 0.0;
      brake := 0.0;
      targetSteering := 0.0;
      headlightsOn := false;
      prevKey := NoKey;
    }

    /** One step: read `key`, update the fields, return the payload. */
    method GetKeyboardCommands(key: int) returns (cmd: Command)
      modifies this
      ensures State() == Next(old(State()), key)
      ensures cmd == CommandOf(State(), key)
      ensures cmd.throttle == throttle && cmd.brake == brake
      ensures cmd.steering == targetSteering && cmd.headlights == headlightsOn
    {
      var indicator := IndicatorOff;
      brake := 0.0;

      if key == KeyW {
        throttle := throttle + ThrottleIncrement;
      } else if key == KeyS {
        throttle := throttle - ThrottleIncrement * 2.0;
        brake := 1.0;
      } else if key == KeyA {
        targetSteering := targetSteering - SteeringIncrement;
      } else if key == KeyD {
        targetSteering := targetSteering + SteeringIncrement;
      } else {
        targetSteering := targetSteering * 0.9;
        throttle := throttle * 0.95;
      }

      if key == KeyR {
        gear := Reverse;
      } else if key == KeyF {
        gear := Drive;
      }

      if key == KeyQ {
        indicator := IndicatorLeft;
      } else if key == KeyE {
        indicator := IndicatorRight;
      }

      if key == KeyL && prevKey != key {
        headlightsOn := !headlightsOn;
      }

      prevKey := key;

      throttle := Max(Min(throttle, 1.0), 0.0);
      targetSteering := Max(Min(targetSteering, MaxSteering), -MaxSteering);
      brake := Max(Min(brake, 1.0), 0.0);

      if throttle < IdleThrottle && brake == 0.0 {
        throttle := 0.0;
        brake := IdleHoldBrake;
      }

      cmd := Command(throttle, targetSteering, brake, indicator, headlightsOn);
    }

    /** The controller called once per simulation step with each key in
        turn: the state after the last key, and the commands applied. */
    method Run(keys: seq<int>) returns (cmds: seq<Command>)
      modifies this
      ensures State() == Steps(old(State()), keys)
      ensures cmds == Commands(old(State()), keys)
    {
      ghost var start := State();
      cmds := [];
      for i := 0 to |keys|
        invariant State() == Steps(start, keys[..i])
        invariant cmds == Commands(start, keys[..i])
      {
        StepsPrefix(start, keys, i);
        var cmd := GetKeyboardCommands(keys[i]);
        CommandsPrefix(start, keys, i);
        cmds := cmds + [cmd];
      }
      assert keys[..|keys|] == keys;
    }
  }

  function Min(a: real, b: real): real { if a <= b then a else b }
  function Max(a: real, b: real): real { if a >= b then a else b }
}
