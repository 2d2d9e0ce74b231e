/** The ECU and the dashboard joined by one TCP connection: the connection
    delivers the ECU's bytes in order but cut into chunks of any size, and
    the dashboard's framing must still recover every packet, once each, in
    order. */
module Link {
  import Ecu
  import Dashboard
  import Json

  /** The packets' JSON texts, in order. */
  function Encodings(ps: seq<Ecu.Packet>): (r: seq<string>)
    ensures |r| == |ps|
  {
    if ps == [] then [] else Encodings(ps[..|ps| - 1]) + [Ecu.Encode(ps[|ps| - 1])]
  }

  /** The ECU's stream is the encodings, each followed by its newline. */
  lemma {:induction false} StreamIsJoin(ps: seq<Ecu.Packet>)
    ensures Dashboard.Join(Encodings(ps)) == Ecu.Stream(ps)
  {
    if ps != [] {
      var n := |ps| - 1;
      var e := Ecu.Encode(ps[n]);
      StreamIsJoin(ps[..n]);
      Dashboard.JoinSnoc(Encodings(ps[..n]), e);
    }
  }

  /** No encoding holds a newline. */
  lemma {:induction false} EncodingsFramed(ps: seq<Ecu.Packet>)
    ensures Dashboard.Framed(Dashboard.Split(Encodings(ps), ""))
  {
    if ps != [] {
      var n := |ps| - 1;
      var lines := Encodings(ps);
      EncodingsFramed(ps[..n]);
      Ecu.EncodePrintable(ps[n]);
      Json.PrintableHasNoNewline(lines[n]);
      forall i | 0 <= i < |lines|
        ensures '\n' !in lines[i]
      {
        if i < n {
          assert lines[i] == Encodings(ps[..n])[i];
        }
      }
    }
  }

  /** Framing the ECU's stream gives back exactly the encoded packets, in
      order, and leaves nothing in the buffer. */
  lemma StreamFrames(ps: seq<Ecu.Packet>)
    ensures Dashboard.Frames(Ecu.Stream(ps)) == Dashboard.Split(Encodings(ps), "")
  {
    StreamIsJoin(ps);
    EncodingsFramed(ps);
    var r := Dashboard.Split(Encodings(ps), "");
    assert Dashboard.Join(r.lines) + r.rest == Ecu.Stream(ps);
    Dashboard.FramesUnique(r);
  }

  /** The ECU runs over its samples, the connection delivers what it sent in
      the given chunks, and the dashboard listens: the dashboard hands on
      the packets' encodings, in order, one per packet, with nothing left
      over, however the stream was cut. */
  method Session(samples: seq<Ecu.Sample>, chunks: seq<string>)
    returns (packets: seq<Ecu.Packet>, emitted: seq<string>, buffer: string)
    requires Dashboard.Concat(chunks) == Ecu.Stream(Ecu.Packets(samples))
    ensures packets == Ecu.Packets(samples)
    ensures emitted == Encodings(packets) && buffer == ""
  {
    var speed, sent;
    speed, packets, sent := Ecu.Serve(samples);
    emitted, buffer := Dashboard.Listen(chunks);
    StreamFrames(packets);
  }

  /** The dashboard's status for the packet sent at second t shows a sensor
      failure exactly in the seconds that are multiples of twelve. */
  lemma StatusShowsFaults(raw: real, t: int)
    ensures var status := Dashboard.StatusText(Ecu.PacketFor(raw, t).warning.Text());
      (status == Dashboard.StatusFailure <==> t % Ecu.FaultPeriod == 0) &&
      (status == Dashboard.StatusOk <==> t % Ecu.FaultPeriod != 0)
  {
  }
}
