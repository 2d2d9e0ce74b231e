/** The simulated ECU: every tick it moves the speed by a bounded random
    amount, injects a wheel-sensor fault in every twelfth wall-clock second,
    and sends one newline-terminated JSON packet to the dashboard. */
module Ecu {
  import Json

  const InitialSpeed: real := 0.0
  const MinSpeed: real := 0.0
  const MaxSpeed: real := 100.0
  // Range of the random speed change drawn each tick.
  const MinDelta: real := -1.0
  const MaxDelta: real := 1.5
  // The wheel sensor fails in every second that is a multiple of this.
  const FaultPeriod: int := 12
  const WheelTimeout: string := "WHEEL SENSOR TIMEOUT"

  /** A speed as the serializer receives it: the integer a clamp assigned,
      or a float rounded to one decimal, held as its number of tenths. */
  datatype Number = Int(i: int) | Tenths(tenths: int) {
    function Value(): real {
      match this
      case Int(i) => i as real
      case Tenths(t) => t as real / 10.0
    }
  }

  /** The warning a packet carries: none, or the wheel-sensor timeout. */
  datatype Warning = NoWarning | SensorTimeout {
    /** The warning field's text; empty exactly when there is no warning. */
    function Text(): (s: string)
      ensures s == "" <==> this == NoWarning
    {
      if this == NoWarning then "" else WheelTimeout
    }
  }

  datatype Packet = Packet(speed: Number, wheelSensor: bool, warning: Warning)

  /** One loop iteration's inputs: the random delta and the integer time. */
  datatype Sample = Sample(delta: real, time: int)

  function Distance(x: real, y: real): real {
    if x <= y then y - x else x - y
  }

  /** The speed range's point nearest to x. */
  function ClampSpeed(x: real): (r: real)
    ensures MinSpeed <= r <= MaxSpeed
    ensures MinSpeed <= x <= MaxSpeed ==> r == x
  {
    if x < MinSpeed then MinSpeed else if x > MaxSpeed then MaxSpeed else x
  }

  /** No point of the speed range is nearer to x than its clamp. */
  lemma ClampSpeedNearest(x: real, y: real)
    requires MinSpeed <= y <= MaxSpeed
    ensures Distance(ClampSpeed(x), x) <= Distance(y, x)
  {
  }

  /** The number of tenths nearest to x, half to even on the exact value:
      rounding to one decimal. */
  function RoundTenths(x: real): int {
    var f := (10.0 * x).Floor;
    var frac := 10.0 * x - f as real;
    if frac > 0.5 then f + 1
    else if frac < 0.5 then f
    // a tie: of f and f + 1, the even one
    else 2 * ((10.0 * x + 0.5) / 2.0).Floor
  }

  /** The rounded value is within half a tenth of x, and an exact tie goes
      to the even number of tenths. */
  lemma RoundTenthsNearest(x: real)
    ensures var n := RoundTenths(x);
      && -0.5 <= n as real - 10.0 * x <= 0.5
      && (n as real - 10.0 * x == 0.5 || n as real - 10.0 * x == -0.5 ==> n % 2 == 0)
  {
  }

  /** The speed written into the packet, given the unclamped sum of the old
      speed and the delta: an integer bound when the clamp fired, otherwise
      the sum rounded to tenths. */
  function EmittedSpeed(raw: real): Number {
    if raw < MinSpeed then Int(0)
    else if raw > MaxSpeed then Int(100)
    else Tenths(RoundTenths(raw))
  }

  /** The emitted speed lies in the speed range, within half a tenth of the
      clamped speed, and is an integer exactly when the clamp fired. */
  lemma EmittedSpeedFaithful(raw: real)
    ensures var r := EmittedSpeed(raw);
      && MinSpeed <= r.Value() <= MaxSpeed
      && -0.05 <= r.Value() - ClampSpeed(raw) <= 0.05
      && (r.Int? <==> raw < MinSpeed || raw > MaxSpeed)
  {
    if MinSpeed <= raw <= MaxSpeed {
      RoundTenthsNearest(raw);
    }
  }

  /** The wheel sensor works except in seconds that are multiples of 12. */
  function WheelOk(t: int): bool {
    t % FaultPeriod != 0
  }

  /** The first second at or after t in which the sensor fails. */
  function NextFault(t: int): (k: int)
    ensures t <= k < t + FaultPeriod && !WheelOk(k)
  {
    t + (FaultPeriod - t % FaultPeriod) % FaultPeriod
  }

  /** Two faulty seconds less than a period apart are the same second. */
  lemma FaultsApart(j: int, k: int)
    requires !WheelOk(j) && !WheelOk(k) && k - FaultPeriod < j < k + FaultPeriod
    ensures j == k
  {
    var a, b := j / FaultPeriod, k / FaultPeriod;
    assert j == FaultPeriod * a && k == FaultPeriod * b;
    assert -1 < a - b < 1;
  }

  /** In every twelve consecutive seconds the sensor fails in exactly one. */
  lemma OneFaultPerPeriod(t: int)
    ensures var faults := set j | t <= j < t + FaultPeriod && !WheelOk(j);
      faults == {NextFault(t)} && |faults| == 1
  {
    var k := NextFault(t);
    var faults := set j | t <= j < t + FaultPeriod && !WheelOk(j);
    forall j | j in faults
      ensures j == k
    {
      FaultsApart(j, k);
    }
    assert faults == {k};
  }

  function WarningFor(wheelOk: bool): (w: Warning)
    ensures w.Text() == "" <==> wheelOk
    ensures !wheelOk ==> w.Text() == WheelTimeout
  {
    if wheelOk then NoWarning else SensorTimeout
  }

  /** The packet sent by a tick whose unclamped speed sum is raw at time t. */
  function PacketFor(raw: real, t: int): (p: Packet)
    ensures p.wheelSensor <==> t % FaultPeriod != 0
    ensures p.warning == NoWarning <==> p.wheelSensor
  {
    var ok := WheelOk(t);
    Packet(EmittedSpeed(raw), ok, WarningFor(ok))
  }

  /** JSON text of a number: an integer as is, a float rounded to tenths
      with its single decimal. */
  function NumberText(n: Number): string {
    match n
    case Int(i) => Json.IntToString(i)
    case Tenths(t) =>
      var a := if t < 0 then -t else t;
      (if t < 0 then "-" else "") + Json.NatToString(a / 10) + "." + [Json.DigitChar(a % 10)]
  }

  /** The text starts with a minus exactly for negative values, is made of
      digits otherwise, and a rounded float always shows one decimal. */
  lemma NumberTextShape(n: Number)
    ensures var s := NumberText(n);
      1 <= |s| && (s[0] == '-') == (n.Value() < 0.0) &&
      (forall k :: 0 <= k < |s| ==> s[k] == '-' || s[k] == '.' || Json.IsDigit(s[k])) &&
      (n.Tenths? ==> |s| >= 3 && s[|s| - 2] == '.' && Json.IsDigit(s[|s| - 1])) &&
      (n.Int? ==> forall k :: 0 <= k < |s| ==> s[k] != '.')
  {
    match n
    case Int(i) =>
      Json.IntToStringDigits(i);
    case Tenths(t) =>
      var a := if t < 0 then -t else t;
      Json.NatToStringDigits(a / 10);
  }

  lemma NumberTextPrintable(n: Number)
    ensures Json.Printable(NumberText(n))
  {
    NumberTextShape(n);
    Json.PrintableAt(NumberText(n));
  }

  /** The members of the packet's object, in the order the ECU inserts them. */
  function Fields(p: Packet): seq<(string, string)> {
    [("speed", NumberText(p.speed)),
     ("wheel_sensor", Json.BoolText(p.wheelSensor)),
     ("warning", Json.Quote(p.warning.Text()))]
  }

  /** The packet serialized as a JSON object with default separators. */
  function Encode(p: Packet): string {
    Json.Object(Fields(p))
  }

  /** Whatever the packet, its encoding is printable ASCII. */
  lemma EncodePrintable(p: Packet)
    ensures Json.Printable(Encode(p))
  {
    FieldsPrintable(p);
    Json.ObjectPrintable(Fields(p));
  }

  lemma FieldsPrintable(p: Packet)
    ensures forall i :: 0 <= i < |Fields(p)| ==> Json.Printable(Fields(p)[i].1)
  {
    NumberTextPrintable(p.speed);
    Json.BoolTextPrintable(p.wheelSensor);
    Json.QuotePrintable(p.warning.Text());
    ThreePrintable(Fields(p));
  }

  // A generic fact about three-member lists, kept apart so that proving it
  // does not unfold the packet's field texts.
  lemma ThreePrintable(ms: seq<(string, string)>)
    requires |ms| == 3 && Json.Printable(ms[0].1) && Json.Printable(ms[1].1) && Json.Printable(ms[2].1)
    ensures forall i :: 0 <= i < |ms| ==> Json.Printable(ms[i].1)
  {
  }

  /** The message sent for a packet: its encoding and one newline. */
  function Frame(p: Packet): string {
    Encode(p) + "\n"
  }

  /** A message holds exactly one newline, its last character, so the
      receiver can cut the stream into packets. */
  lemma FrameDelimited(p: Packet)
    ensures |Frame(p)| >= 3 && Frame(p)[|Frame(p)| - 1] == '\n'
    ensures forall k :: 0 <= k < |Frame(p)| - 1 ==> Frame(p)[k] != '\n'
  {
    var e := Encode(p);
    EncodePrintable(p);
    Json.PrintableHasNoNewline(e);
    assert forall k :: 0 <= k < |e| ==> Frame(p)[k] == e[k];
  }

  /** All messages sent for packets, in order, as one byte stream. */
  function Stream(ps: seq<Packet>): string {
    if ps == [] then "" else Stream(ps[..|ps| - 1]) + Frame(ps[|ps| - 1])
  }

  lemma StreamSnoc(ps: seq<Packet>, p: Packet)
    ensures Stream(ps + [p]) == Stream(ps) + Frame(p)
  {
    assert (ps + [p])[..|ps|] == ps;
  }

  /** The speed before the first tick and after each tick, one tick per
      sample, peeling the last sample. */
  function Speeds(samples: seq<Sample>): (r: seq<real>)
    ensures |r| == |samples| + 1 && r[0] == InitialSpeed
  {
    if samples == [] then [InitialSpeed]
    else
      var n := |samples| - 1;
      var before := Speeds(samples[..n]);
      before + [ClampSpeed(before[n] + samples[n].delta)]
  }

  /** Each speed is the clamped sum of the one before and that tick's delta. */
  lemma {:induction false} SpeedsAt(samples: seq<Sample>, i: nat)
    requires i < |samples|
    ensures Speeds(samples)[i + 1] == ClampSpeed(Speeds(samples)[i] + samples[i].delta)
  {
    var n := |samples| - 1;
    if i < n {
      SpeedsAt(samples[..n], i);
      assert Speeds(samples)[..n + 1] == Speeds(samples[..n]);
    }
  }

  /** The speed never leaves the range, whatever the deltas. */
  lemma SpeedsInRange(samples: seq<Sample>, i: nat)
    requires i <= |samples|
    ensures MinSpeed <= Speeds(samples)[i] <= MaxSpeed
  {
    if i > 0 {
      SpeedsAt(samples, i - 1);
    }
  }

  /** The packets sent, one per sample: each for the speed before its tick
      plus the tick's delta, at the tick's time. */
  function Packets(samples: seq<Sample>): (r: seq<Packet>)
    ensures |r| == |samples|
  {
    var speeds := Speeds(samples);
    seq(|samples|, i requires 0 <= i < |samples| => PacketFor(speeds[i] + samples[i].delta, samples[i].time))
  }

  /** Tick i sends the packet for the speed before it plus its delta, at its time. */
  lemma {:induction false} PacketsAt(samples: seq<Sample>, i: nat)
    requires i < |samples|
    ensures Packets(samples)[i] == PacketFor(Speeds(samples)[i] + samples[i].delta, samples[i].time)
  {
  }

  /** The speed change a tick makes stays within the delta range, since the
      speed was already inside the speed range. */
  lemma ClampedChange(speed: real, delta: real)
    requires MinSpeed <= speed <= MaxSpeed && MinDelta <= delta <= MaxDelta
    ensures MinDelta <= ClampSpeed(speed + delta) - speed <= MaxDelta
  {
  }

  /** One iteration of the ECU loop: returns the new speed, the packet and
      the message sent. */
  method Tick(speed: real, delta: real, t: int) returns (speed': real, packet: Packet, message: string)
    ensures speed' == ClampSpeed(speed + delta)
    ensures packet == PacketFor(speed + delta, t)
    ensures message == Frame(packet)
  {
    // a clamp assigns an integer, which the packet then carries as such
    var s := speed + delta;
    var clampedTo: int := 0;
    var clamped := false;
    if s < MinSpeed {
      s, clampedTo, clamped := MinSpeed, 0, true;
    }
    if s > MaxSpeed {
      s, clampedTo, clamped := MaxSpeed, 100, true;
    }
    assert s == ClampSpeed(speed + delta);

    var wheelOk := true;
    if t % FaultPeriod == 0 {
      wheelOk := false;
    }

    var number := if clamped then Int(clampedTo) else Tenths(RoundTenths(s));
    assert number == EmittedSpeed(speed + delta);
    packet := Packet(number, wheelOk, if wheelOk then NoWarning else SensorTimeout);
    message := Frame(packet);
    speed' := s;
  }

  /** The tick for sample i, started from the speed after i samples, yields
      the speed after i + 1 samples and the next packet. */
  lemma {:induction false} TickAdvances(samples: seq<Sample>, i: nat, speed: real, speed': real, packets: seq<Packet>, packet: Packet)
    requires i < |samples|
    requires speed == Speeds(samples)[i] && packets == Packets(samples)[..i]
    requires speed' == ClampSpeed(speed + samples[i].delta)
    requires packet == PacketFor(speed + samples[i].delta, samples[i].time)
    ensures speed' == Speeds(samples)[i + 1]
    ensures packets + [packet] == Packets(samples)[..i + 1]
  {
    SpeedsAt(samples, i);
    PacketsAt(samples, i);
  }

  /** Sending a packet's message extends the stream by that packet. */
  lemma SendExtends(sent: string, packets: seq<Packet>, packet: Packet, message: string)
    requires sent == Stream(packets) && message == Frame(packet)
    ensures sent + message == Stream(packets + [packet])
  {
    StreamSnoc(packets, packet);
  }

  /** What the loop holds after i ticks: the speed, the packets built and
      everything written so far. */
  predicate Served(samples: seq<Sample>, i: nat, speed: real, packets: seq<Packet>, sent: string)
    requires i <= |samples|
  {
    speed == Speeds(samples)[i] && packets == Packets(samples)[..i] && sent == Stream(packets)
  }

  /** One turn of the loop: tick i, keeping the record of what was sent. */
  method Step(samples: seq<Sample>, i: nat, speed: real, packets: seq<Packet>, sent: string)
    returns (speed': real, packets': seq<Packet>, sent': string)
    requires i < |samples| && Served(samples, i, speed, packets, sent)
    ensures Served(samples, i + 1, speed', packets', sent')
  {
    var packet, message;
    speed', packet, message := Tick(speed, samples[i].delta, samples[i].time);
    TickAdvances(samples, i, speed, speed', packets, packet);
    SendExtends(sent, packets, packet, message);
    packets' := packets + [packet];
    sent' := sent + message;
  }

  /** The ECU loop run over a finite prefix of its samples: the final speed,
      the packets built and everything written to the connection. */
  method Serve(samples: seq<Sample>) returns (speed: real, packets: seq<Packet>, sent: string)
    ensures speed == Speeds(samples)[|samples|]
    ensures packets == Packets(samples)
    ensures sent == Stream(packets)
  {
    speed := InitialSpeed;
    packets := [];
    sent := "";
    for i := 0 to |samples|
      invariant Served(samples, i, speed, packets, sent)
    {
      speed, packets, sent := Step(samples, i, speed, packets, sent);
    }
    assert Packets(samples)[..|samples|] == Packets(samples);
  }
}
