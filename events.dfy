/** The thermometer that publishes a temperature-changed event, and the
    alarm that subscribes to it. */
module Events {
  import Text

  /** A subscriber to the temperature-changed event, given by the console
      lines it writes when invoked with the new temperature. */
  type Handler = int -> seq<string>

  const OverheatMessage := "Alert: Overheat detected"
  const SafeMessage := "Temperature within safe range"
  /** Readings strictly above this raise the overheat alert. */
  const Threshold := 50

  /** The line a changed reading prints before the event fires. */
  function SetMessage(t: int): (m: string)
    ensures |m| == |"Temperature set to "| + |Text.IntToString(t)| + 2
    ensures m[..|"Temperature set to "|] == "Temperature set to "
    ensures m[|"Temperature set to "|..|m| - 2] == Text.IntToString(t)
    ensures m[|m| - 2..] == "°C"
  {
    "Temperature set to " + Text.IntToString(t) + "°C"
  }

  /** AlarmSystem.Alert: the line written for a reading. */
  function Alert(t: int): (m: string)
    ensures m == OverheatMessage <==> t > Threshold
    ensures m == SafeMessage <==> t <= Threshold
  {
    if t > Threshold then OverheatMessage else SafeMessage
  }

  /** The boundary reading is still safe; one degree above it is not. */
  lemma AlertBoundary()
    ensures Alert(Threshold) == SafeMessage
    ensures Alert(Threshold + 1) == OverheatMessage
  {
  }

  /** Invoking the event: every subscriber in subscription order. */
  function Broadcast(subscribers: seq<Handler>, t: int): seq<string>
  {
    if subscribers == [] then [] else subscribers[0](t) + Broadcast(subscribers[1..], t)
  }

  /** A subscriber added with `+=` is invoked after all earlier ones. */
  lemma {:induction false} BroadcastSnoc(subscribers: seq<Handler>, h: Handler, t: int)
    ensures Broadcast(subscribers + [h], t) == Broadcast(subscribers, t) + h(t)
  {
    if subscribers == [] {
      assert subscribers + [h] == [h];
    } else {
      assert (subscribers + [h])[1..] == subscribers[1..] + [h];
      BroadcastSnoc(subscribers[1..], h, t);
    }
  }

  /** When every subscriber writes exactly one line, the event writes one
      line per subscriber, each that subscriber's response to `t`. */
  lemma {:induction false} BroadcastEach(subscribers: seq<Handler>, t: int)
    requires forall i :: 0 <= i < |subscribers| ==> |subscribers[i](t)| == 1
    ensures |Broadcast(subscribers, t)| == |subscribers|
    ensures forall i :: 0 <= i < |subscribers| ==> Broadcast(subscribers, t)[i] == subscribers[i](t)[0]
  {
    if subscribers != [] {
      BroadcastEach(subscribers[1..], t);
      assert forall i :: 1 <= i < |subscribers| ==> subscribers[i] == subscribers[1..][i - 1];
    }
  }

  /** The alarm's Alert as a subscriber. */
  function AlarmHandler(): Handler {
    t => [Alert(t)]
  }

  class Thermometer {
    var temperature: int
    var subscribers: seq<Handler>

    /** A new thermometer reads 0 and has no subscribers. */
    constructor ()
      ensures temperature == 0 && subscribers == []
    {
      temperature := 0;
      subscribers := [];
    }

    /** `+=` on the event. */
    method Subscribe(h: Handler)
      modifies this`subscribers
      ensures subscribers == old(subscribers) + [h]
    {
      subscribers := subscribers + [h];
    }

    /** Stores a changed reading, prints it and invokes every subscriber;
        an unchanged reading does nothing at all. */
    method SetTemperature(t: int) returns (output: seq<string>)
      modifies this`temperature
      ensures temperature == t
      ensures t == old(temperature) ==> output == []
      ensures t != old(temperature) ==> output == [SetMessage(t)] + Broadcast(subscribers, t)
    {
      output := [];
      if t != temperature {
        temperature := t;
        output := [SetMessage(t)] + Broadcast(subscribers, t);
      }
    }
  }

  /** The program's scenario: the alarm subscribes, then 45 and 60 are set. */
  method EventsDemo() returns (output: seq<string>)
    ensures output == [
      "Temperature set to 45°C", SafeMessage,
      "Temperature set to 60°C", OverheatMessage]
  {
    var sensor := new Thermometer();
    sensor.Subscribe(AlarmHandler());
    assert sensor.subscribers == [AlarmHandler()];
    var first := sensor.SetTemperature(45);
    var second := sensor.SetTemperature(60);
    AlarmResponses();
    DemoSetLines();
    output := first + second;
  }

  /** With only the alarm subscribed, the event writes the alarm's line. */
  lemma AlarmResponses()
    ensures Broadcast([AlarmHandler()], 45) == [SafeMessage]
    ensures Broadcast([AlarmHandler()], 60) == [OverheatMessage]
  {
    assert [AlarmHandler()][1..] == [];
  }

  /** The set lines of the two demo readings. */
  lemma DemoSetLines()
    ensures SetMessage(45) == "Temperature set to 45°C"
    ensures SetMessage(60) == "Temperature set to 60°C"
  {
    assert Text.IntToString(45) == "45";
    assert Text.IntToString(60) == "60";
  }

  /** A fresh thermometer set to 0 raises no event. */
  method FreshZeroIsSilent() returns (output: seq<string>)
    ensures output == []
  {
    var sensor := new Thermometer();
    sensor.Subscribe(AlarmHandler());
    output := sensor.SetTemperature(0);
  }
}
