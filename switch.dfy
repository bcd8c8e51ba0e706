/** The Dependency Inversion example: a switch that drives whatever device
    it is given through the device's `turnOn` / `turnOff` interface. The
    device is modelled by the calls it has received, in order. */
module DependencyInversion {

  datatype DeviceCall = On | Off

  /** A device as the switch sees it: the sequence of calls made on it. */
  class Device {
    var calls: seq<DeviceCall>

    constructor ()
      ensures calls == []
    {
      calls := [];
    }

    method TurnOn()
      modifies this
      ensures calls == old(calls) + [On]
    {
      calls := calls + [On];
    }

    method TurnOff()
      modifies this
      ensures calls == old(calls) + [Off]
    {
      calls := calls + [Off];
    }
  }

  /** The call one press makes on the device, given whether the switch was on. */
  function PressCall(isOn: bool): (call: DeviceCall)
    ensures call == On <==> !isOn
    ensures call == Off <==> isOn
  {
    if isOn then Off else On
  }

  /** Whether the switch is on after `n` presses from state `isOn`. */
  function StateAfter(isOn: bool, n: nat): bool {
    if n % 2 == 0 then isOn else !isOn
  }

  /** The calls `n` presses make, starting from state `isOn`: they alternate,
      beginning with `PressCall(isOn)`. */
  function Presses(isOn: bool, n: nat): (r: seq<DeviceCall>)
    ensures |r| == n
    ensures forall i | 0 <= i < n :: r[i] == PressCall(StateAfter(isOn, i))
    decreases n
  {
    if n == 0 then []
    else [PressCall(isOn)] + Presses(!isOn, n - 1)
  }

  /** Consecutive presses never make the same call twice in a row. */
  lemma PressesAlternate(isOn: bool, n: nat, i: nat)
    requires i + 1 < n
    ensures Presses(isOn, n)[i] != Presses(isOn, n)[i + 1]
  {
  }

  /** One more press appends the call for the state reached so far. */
  lemma PressesSnoc(isOn: bool, n: nat)
    ensures Presses(isOn, n + 1) == Presses(isOn, n) + [PressCall(StateAfter(isOn, n))]
  {
  }

  /** Two presses bring the switch back to where it was, having turned the
      device on and off, or off and on. */
  lemma PressTwice(isOn: bool)
    ensures StateAfter(isOn, 2) == isOn
    ensures Presses(isOn, 2) == if isOn then [Off, On] else [On, Off]
  {
  }

  class Switch {
    const device: Device
    var isOn: bool
    /** How often the switch has been pressed, and what the device had
        received before the switch was connected to it. */
    ghost var pressed: nat
    ghost const before: seq<DeviceCall>

    /** The switch is the device's only caller since it was made: its state
        and the device's calls are those of `pressed` presses from off. */
    ghost predicate Valid()
      reads this, device
    {
      isOn == StateAfter(false, pressed) && device.calls == before + Presses(false, pressed)
    }

    constructor (device: Device)
      ensures Valid()
      ensures this.device == device && !isOn && pressed == 0
      ensures device.calls == old(device.calls)
    {
      this.device := device;
      isOn := false;
      pressed := 0;
      before := device.calls;
    }

    /** Turns the device off if the switch is on and on if it is off, then
        flips the switch. */
    method Press()
      modifies this, device
      ensures isOn == !old(isOn)
      ensures device.calls == old(device.calls) + [PressCall(old(isOn))]
      ensures pressed == old(pressed) + 1
      ensures old(Valid()) ==> Valid()
    {
      PressesSnoc(false, pressed);
      if isOn {
        device.TurnOff();
      } else {
        device.TurnOn();
      }
      isOn := !isOn;
      pressed := pressed + 1;
    }
  }
}
