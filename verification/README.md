# Driving controller, fake ECU and dashboard framing — a Dafny model

This project models three small pieces of sequential logic from a driving
simulator and its telemetry dashboard, and proves properties of them.

- **The vehicle manager** (module `Controller`). The Webots controller's
  `VehicleManager` keeps the throttle, brake, steering target, headlight
  state, previous key and gear in fields. Once per simulation step,
  `get_keyboard_commands` reads one key and updates those fields:
  - W accelerates; S cuts the throttle and brakes fully; A and D steer.
  - Any other key, or none, lets the steering and the throttle decay.
  - R and F shift gear, Q and E pick an indicator, L toggles the headlights on a fresh press.
  - The values are then clamped and an idle-creep guard applied.
  - The step returns the command payload.

  The class `VehicleManager` keeps those fields. Its method
  `GetKeyboardCommands` is proved to compute `Next`, the specification of one
  step. Lemmas about `Next` and `Steps` (many steps) state the bounds, the
  brake values, the idle guard, the rising-edge toggle and the coasting decay.
- **The fake ECU** (module `Ecu`, with `Json` for the text format). Every
  tick:
  - it adds a random delta to the speed and clamps the sum to [0, 100];
  - it marks the wheel sensor failed in every wall-clock second that is a multiple of 12;
  - it builds a three-field packet and serializes it as a JSON object;
  - it sends that object followed by a newline.

  `Tick` is one iteration, proved to return `ClampSpeed` of the sum, the
  packet `PacketFor` builds and its `Frame`. `Step` (one turn of the loop) and
  `Serve` (the loop over a finite sequence of (delta, time) samples) are
  proved against the specification functions `Speeds`, `Packets` and
  `Stream`.
- **The dashboard's receiver** (module `Dashboard`). Received text is
  appended to a buffer, and every complete line before a newline is cut off
  and handed on. `Frames` is the reference framing of a stream. `Reframe`
  (one chunk) and `Listen` (a sequence of chunks) are proved to compute it,
  and lemmas show that the framing loses, duplicates and reorders nothing.
  The status label is "SENSOR FAILURE" exactly when the packet's warning is
  non-empty.
- **The link** (module `Link`). The ECU's output stream, cut into chunks in
  any way, is fed to the dashboard's receiver. The dashboard hands on exactly
  the packets' encodings, in order, and keeps nothing buffered.

Where a reader might expect otherwise, the model follows the code:
- The persistent speed is not rounded; only the emitted value is.
- A clamped speed becomes the integer 0 or 100, so it is written as `0` or `100`, not `0.0`.
- Every key other than W, S, A and D (Q, E, L, R, F included) lets steering and throttle decay, not only "no key".
- The returned payload carries the indicator, not the gear.

## Model

| member | source | states |
|---|---|---|
| Controller.Initial | VehicleSim/controllers/simple_car_controller/simple_car_controller.py:23-36 | the manager starts in Drive with zero throttle, brake and steering and no previous key, which is within all limits |
| Controller.VehicleManager.constructor | VehicleSim/controllers/simple_car_controller/simple_car_controller.py:19-36 | the fields start as the initial state |
| Controller.Next | VehicleSim/controllers/simple_car_controller/simple_car_controller.py:38-88 | one step: throttle and brake end in [0, 1] and steering in [-0.5, 0.5]; the brake is 0, 0.1 or 1 and is 1 exactly on S; never throttle below 0.01 with the brake released, and a 0.1 brake comes with zero throttle; without W the throttle does not rise; a coasting key never increases the steering angle and, within limits, scales it by 0.9; from within limits, W raises the throttle by 0.02 up to 1 with the brake released, S lowers it by 0.04 down to 0, neither moves the wheel, A and D move the steering by 0.02 towards -0.5 and 0.5 and keep the throttle unless it is below 0.01, where the guard holds the car; the headlights flip exactly when L is pressed after a different key; the previous key becomes this key; R gives Reverse, F gives Drive, other keys keep the gear; a state within limits stays within limits |
| Controller.IndicatorFor | VehicleSim/controllers/simple_car_controller/simple_car_controller.py:68-72 | the indicator is left exactly on Q and right exactly on E, off otherwise, from the key alone |
| Controller.CommandOf | VehicleSim/controllers/simple_car_controller/simple_car_controller.py:91-97 | the payload carries the updated throttle, steering, brake and headlights and the key's indicator; `GetKeyboardCommands` is proved to return it |
| Controller.VehicleManager.GetKeyboardCommands | VehicleSim/controllers/simple_car_controller/simple_car_controller.py:38-97 | the updated fields are `Next` of the old fields and the key; the payload's throttle, steering, brake and headlights are the updated fields, with the key's indicator |
| Controller.VehicleManager.Run | VehicleSim/controllers/simple_car_controller/simple_car_controller.py:106-110 | after one step per key the fields are `Steps` of the keys, and the payloads are `Commands` of the keys |
| Controller.CommandsAt | VehicleSim/controllers/simple_car_controller/simple_car_controller.py:106-110 | there is one payload per key, and the i-th is the payload of the state after the first i + 1 keys |
| Controller.StepsInRange | VehicleSim/controllers/simple_car_controller/simple_car_controller.py:80-83 | from a state within limits, any sequence of keys ends within limits |
| Controller.ThrottleRisesOnlyOnW | VehicleSim/controllers/simple_car_controller/simple_car_controller.py:45-88 | a run of keys without W never ends with more throttle than it started with |
| Controller.HoldingLTogglesOnce | VehicleSim/controllers/simple_car_controller/simple_car_controller.py:74-78 | holding L for n >= 1 steps flips the headlights exactly once, or not at all when L was already held before the run |
| Controller.CoastingStep | VehicleSim/controllers/simple_car_controller/simple_car_controller.py:55-88 | one coasting step from within limits: steering times 0.9, throttle times 0.95 unless that is below 0.01, in which case the guard sets throttle 0 and brake 0.1 |
| Controller.CoastingSteering | VehicleSim/controllers/simple_car_controller/simple_car_controller.py:55-82 | n coasting steps from within limits scale the steering by 0.9 to the n |
| Controller.CoastingThrottle | VehicleSim/controllers/simple_car_controller/simple_car_controller.py:55-88 | n >= 1 coasting steps from within limits leave the throttle at its value times 0.95 to the n, or at 0 with the idle brake once that product is below 0.01 |
| Json.NatToStringDigits | UserDashboard/fake_ecu.py:39 | a natural number is written as decimal digits that denote it, with no leading zero |
| Json.IntToStringDigits | UserDashboard/fake_ecu.py:39 | an integer is written with a leading minus exactly when negative, then the digits of its magnitude |
| Json.EscapeChar | UserDashboard/fake_ecu.py:39 | inside a string, a printable character without a short escape is written as itself; a short escape is a backslash and one character; other characters are a `\u` escape, or a surrogate pair of them beyond 16 bits |
| Json.EscapePrintable | UserDashboard/fake_ecu.py:39 | whatever the string, its escaped form is printable ASCII |
| Json.EscapePlain | UserDashboard/fake_ecu.py:36-39 | text of printable characters needing no escape, such as the warning text, is written unchanged |
| Json.PrintableHasNoNewline | UserDashboard/fake_ecu.py:39 | printable text holds no newline, so it cannot be mistaken for a frame end |
| Ecu.ClampSpeed | UserDashboard/fake_ecu.py:23-26 | the clamped speed lies in [0, 100] and equals the sum when the sum is already in range |
| Ecu.ClampSpeedNearest | UserDashboard/fake_ecu.py:23-26 | no speed in [0, 100] is nearer to the sum than its clamp: out of range, the nearer bound is taken |
| Ecu.ClampedChange | UserDashboard/fake_ecu.py:22-26 | from a speed in range and a delta in [-1.0, 1.5], a tick raises the speed by at most 1.5 and lowers it by at most 1.0 |
| Ecu.RoundTenths | UserDashboard/fake_ecu.py:34 | `round(speed, 1)` as a number of tenths, half to even on the exact value; its nearness is proved in `RoundTenthsNearest` |
| Ecu.RoundTenthsNearest | UserDashboard/fake_ecu.py:34 | rounding to one decimal gives the number of tenths within half a tenth of the value, and the even one on an exact tie |
| Ecu.EmittedSpeed | UserDashboard/fake_ecu.py:22-34 | the speed field: the integer 0 or 100 the clamp assigned, otherwise the sum rounded to tenths; its properties are proved in `EmittedSpeedFaithful` |
| Ecu.EmittedSpeedFaithful | UserDashboard/fake_ecu.py:22-34 | the emitted speed is in [0, 100] and within 0.05 of the clamped speed, and it is an integer exactly when the clamp fired |
| Ecu.WheelOk | UserDashboard/fake_ecu.py:28-31 | the wheel sensor is fine except in seconds that are multiples of 12; `NextFault` and `OneFaultPerPeriod` state how often it fails |
| Ecu.NextFault | UserDashboard/fake_ecu.py:29-31 | the first failed second at or after t lies within the next twelve seconds |
| Ecu.OneFaultPerPeriod | UserDashboard/fake_ecu.py:29-31 | any twelve consecutive seconds hold exactly one second with a failed wheel sensor |
| Ecu.Warning.Text | UserDashboard/fake_ecu.py:36 | the warning text is empty exactly when there is no warning |
| Ecu.WarningFor | UserDashboard/fake_ecu.py:29-36 | the warning is empty exactly when the wheel sensor is fine, and "WHEEL SENSOR TIMEOUT" otherwise |
| Ecu.PacketFor | UserDashboard/fake_ecu.py:28-37 | the packet's wheel sensor is false exactly when the second is a multiple of 12, and it carries a warning exactly then |
| Ecu.NumberTextShape | UserDashboard/fake_ecu.py:34-39 | the speed's text is non-empty, starts with a minus exactly for negative values and holds only digits, minus and point; a rounded speed shows exactly one decimal and an integer speed none |
| Ecu.Encode | UserDashboard/fake_ecu.py:33-39 | the packet as a JSON object with the members speed, wheel_sensor and warning in that order and the default separators; `EncodePrintable` proves it printable ASCII |
| Ecu.EncodePrintable | UserDashboard/fake_ecu.py:33-39 | the JSON text of every packet is printable ASCII |
| Ecu.Frame | UserDashboard/fake_ecu.py:39 | the message is the packet's JSON text followed by a newline; `FrameDelimited` proves that newline the only one |
| Ecu.FrameDelimited | UserDashboard/fake_ecu.py:39 | a message ends in a newline and holds no other |
| Ecu.StreamSnoc | UserDashboard/fake_ecu.py:39-40 | sending one more packet appends its message to the stream |
| Ecu.SpeedsAt | UserDashboard/fake_ecu.py:22-26 | each speed is the clamp of the previous speed plus that tick's delta |
| Ecu.SpeedsInRange | UserDashboard/fake_ecu.py:17-26 | the speed starts at 0.0 and never leaves [0, 100], whatever the deltas |
| Ecu.PacketsAt | UserDashboard/fake_ecu.py:22-37 | the packet of tick i is the packet for the speed after i ticks plus tick i's delta, at tick i's time |
| Ecu.Tick | UserDashboard/fake_ecu.py:22-39 | one iteration returns the clamped speed, the packet for the unclamped sum at that second, and that packet's message |
| Ecu.Step | UserDashboard/fake_ecu.py:19-40 | one turn of the loop takes the speed, packets and stream after i ticks to those after i + 1 ticks |
| Ecu.Serve | UserDashboard/fake_ecu.py:17-42 | run over the samples, the loop ends with the last speed of `Speeds`, the packets of `Packets`, and has sent exactly their messages in order |
| Dashboard.FirstNewlineIsFirst | UserDashboard/user_dashboard.py:104-105 | the cut position holds a newline and no newline comes before it |
| Dashboard.FirstNewlineFound | UserDashboard/user_dashboard.py:104 | a newline is found exactly when the buffer holds one |
| Dashboard.CutAtNewline | UserDashboard/user_dashboard.py:105 | splitting at the first newline gives a line without newline and the rest, which with the newline between them make up the buffer |
| Dashboard.FramesJoin | UserDashboard/user_dashboard.py:101-106 | the lines, each followed by a newline, then the remaining buffer, give back the stream: nothing lost or duplicated, order kept |
| Dashboard.FramesFramed | UserDashboard/user_dashboard.py:104-105 | no emitted line holds a newline, and neither does the buffer left over |
| Dashboard.FramesUnique | UserDashboard/user_dashboard.py:97-106 | newline-free lines and a newline-free tail are framed back into exactly those lines and that tail |
| Dashboard.FramesNoNewline | UserDashboard/user_dashboard.py:101-104 | text without a newline emits nothing and stays in the buffer |
| Dashboard.FramesCount | UserDashboard/user_dashboard.py:101-106 | one line is emitted per newline in the stream |
| Dashboard.FramesAppend | UserDashboard/user_dashboard.py:99-106 | framing a stream that arrives in two pieces gives the first piece's lines, then the lines of its leftover followed by the second piece |
| Dashboard.Reframe | UserDashboard/user_dashboard.py:101-106 | appending a chunk to the buffer and cutting lines while a newline remains yields exactly the framing of buffer plus chunk |
| Dashboard.Listen | UserDashboard/user_dashboard.py:97-106 | over a sequence of chunks, the lines emitted and the final buffer are the framing of the chunks joined in arrival order |
| Dashboard.StatusText | UserDashboard/user_dashboard.py:116-126 | the status is "SENSOR FAILURE" exactly when the warning is non-empty and "SYSTEM OK" exactly when it is empty |
| Link.StreamIsJoin | UserDashboard/fake_ecu.py:39-40 | the ECU's stream is the packets' JSON texts, each followed by a newline |
| Link.EncodingsFramed | UserDashboard/fake_ecu.py:39 | no packet's JSON text holds a newline |
| Link.StreamFrames | UserDashboard/user_dashboard.py:97-106 | framing the ECU's stream gives exactly the packets' JSON texts, in order, with an empty buffer |
| Link.Session | UserDashboard/user_dashboard.py:97-106 | however the connection cuts the stream into chunks, the dashboard emits each packet's JSON text once, in the order sent, and keeps nothing buffered |
| Link.StatusShowsFaults | UserDashboard/user_dashboard.py:116-126 | the dashboard shows a sensor failure for the packet of second t exactly when t is a multiple of 12 |

## Left out

- Qt widgets, layouts, style sheets, signals and key-press labels are user interface, not logic.
- Sockets and threads are I/O and concurrency: `connect`, `recv`, `bind`, `listen`, `accept`, `sendall`, the listener thread and `sleep`.
  - Received chunks and sent messages are sequences of strings.
  - Bytes are modelled as characters, since the ECU's output is ASCII.
  - UTF-8 decoding of a multi-byte character split across chunks is not modelled.
- `random.uniform` and `time.time()` are nondeterministic. Their values are the `delta` and `time` of each `Sample`.
- Infinite loops are modelled over finite sequences of samples, keys or chunks. The ECU's loop and the listener never end in the source.
- The listener spins forever once `recv` returns an empty string at end of stream; the model has no end-of-stream chunk.
- `json.loads` in `process_packet` is not modelled. `Link.StatusShowsFaults` takes the packet's own warning text as what the dashboard decodes.
- The speed label's `int(...)` truncation is display formatting.
- Floating point is modelled with exact reals, so accumulated rounding error in the speed and the decays is not captured.
- Ecu.RoundTenthsNearest: rounds the exact value half to even. The source rounds the binary float, so a decimal tie may round either way.
- Ecu.NumberTextShape: states the one-decimal shape, not the serializer's shortest float representation. The two agree for values rounded to tenths.
- `json.dumps` is modelled only for the subset the packets use: integers, tenths, booleans, ASCII escaping of strings, and objects with the default separators.
- The Webots `Driver` API is a foreign call.
  - `Driver()`, the keyboard, `apply_commands`, `run`'s `print`s and `getBasicTimeStep` are left out.
  - `setGear` is modelled as writing the `gear` field.
- The code has no multiple consumers, dead-session removal, reconnection, malformed-frame recovery or bounded send buffers, so none is modelled.
