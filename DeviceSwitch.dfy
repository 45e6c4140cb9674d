/*
 * The I/O device switch (src/MSXDeviceSwitch.cc): a table of 256 slots, one
 * per switched-device id, and the id currently selected through I/O port
 * 0x40. Devices are opaque identities; what they do when the switch
 * delegates to them is recorded in a ghost log of calls.
 */
module DeviceSwitch {

  type byte = x: int | 0 <= x < 0x100
  type word = x: int | 0 <= x < 0x1_0000

  /** Identity of an MSXSwitchedDevice; its behaviour is not modelled. */
  type DeviceId = nat

  datatype Option<T> = None | Some(value: T)

  /** A call the switch makes on a registered device. */
  datatype Delegation =
    | ResetCall(device: DeviceId, time: nat)
    | ReadCall(device: DeviceId, port: word)
    | WriteCall(device: DeviceId, port: word, value: byte)

  /** The first I/O port the switch answers on, and the number of ports. */
  const FirstPort: byte := 0x40
  const PortCount: nat := 16

  /** True for the ports 0x40..0x4F the switch answers on. */
  predicate IsSwitchPort(p: int)
  {
    FirstPort <= p < FirstPort + PortCount
  }

  /** `port &= 0x0F`: the low four bits of the port. */
  function LowNibble(port: word): (r: word)
    ensures r < 16 && (port - r) % 16 == 0
  {
    port % 16
  }

  /** The devices `reset` visits, in slot order. */
  function RegisteredDevices(slots: seq<Option<DeviceId>>): seq<DeviceId>
  {
    if slots == [] then []
    else (if slots[0].Some? then [slots[0].value] else []) + RegisteredDevices(slots[1..])
  }

  function ResetCalls(ds: seq<DeviceId>, time: nat): seq<Delegation>
  {
    seq(|ds|, k requires 0 <= k < |ds| => ResetCall(ds[k], time))
  }

  /** `reset` visits the device of every occupied slot, visits nothing else,
      and makes one call per occupied slot. */
  lemma {:induction false} RegisteredDevicesExact(slots: seq<Option<DeviceId>>)
    ensures forall i :: 0 <= i < |slots| && slots[i].Some? ==> slots[i].value in RegisteredDevices(slots)
    ensures forall d :: d in RegisteredDevices(slots) ==> Some(d) in slots
    ensures |RegisteredDevices(slots)| + multiset(slots)[None] == |slots|
  {
    if slots != [] {
      RegisteredDevicesExact(slots[1..]);
      assert slots == [slots[0]] + slots[1..];
      assert multiset(slots) == multiset{slots[0]} + multiset(slots[1..]);
      forall i | 0 <= i < |slots| && slots[i].Some?
        ensures slots[i].value in RegisteredDevices(slots)
      {
        if i > 0 {
          assert slots[1..][i - 1] == slots[i];
        }
      }
    }
  }

  class MSXDeviceSwitch {
    /** `devices[256]`: the switched device registered under each id. */
    const devices: array<Option<DeviceId>>
    /** The id written to port 0x40 last. */
    var selected: byte
    /** Per I/O port: is the switch registered with the CPU interface for
        input, and for output, on that port. */
    ghost var inPorts: seq<bool>
    ghost var outPorts: seq<bool>
    /** Every call delegated to a device, oldest first. */
    ghost var calls: seq<Delegation>

    ghost predicate Valid()
      reads this
    {
      devices.Length == 256 &&
      |inPorts| == |outPorts| == 256 &&
      (forall p :: 0 <= p < 256 ==> inPorts[p] == IsSwitchPort(p)) &&
      (forall p :: 0 <= p < 256 ==> outPorts[p] == IsSwitchPort(p))
    }

    ghost predicate AllEmpty()
      reads this, devices
    {
      forall i :: 0 <= i < devices.Length ==> devices[i] == None
    }

    constructor ()
      ensures Valid() && fresh(devices) && AllEmpty()
      ensures selected == 0 && calls == []
    {
      var table := new Option<DeviceId>[256];
      var i := 0;
      while i < 256
        invariant 0 <= i <= 256
        invariant forall j :: 0 <= j < i ==> table[j] == None
      {
        table[i] := None;
        i := i + 1;
      }
      ghost var ins := seq(256, p => false);
      ghost var outs := seq(256, p => false);
      var port := FirstPort;
      while port < FirstPort + PortCount
        invariant FirstPort <= port <= FirstPort + PortCount
        invariant |ins| == |outs| == 256
        invariant forall p :: 0 <= p < 256 ==> ins[p] == (FirstPort <= p < port)
        invariant forall p :: 0 <= p < 256 ==> outs[p] == (FirstPort <= p < port)
      {
        ins := ins[port := true];
        outs := outs[port := true];
        port := port + 1;
      }
      devices := table;
      selected := 0;
      calls := [];
      inPorts, outPorts := ins, outs;
    }

    /** The destructor: it releases the ports and asserts that every device
        has unregistered itself. */
    method Destroy()
      requires Valid() && AllEmpty()
      modifies this
      ensures forall p :: 0 <= p < |inPorts| ==> !inPorts[p]
      ensures forall p :: 0 <= p < |outPorts| ==> !outPorts[p]
      ensures selected == old(selected) && calls == old(calls)
    {
      var port := FirstPort;
      while port < FirstPort + PortCount
        invariant FirstPort <= port <= FirstPort + PortCount
        invariant |inPorts| == |outPorts| == 256
        invariant forall p :: 0 <= p < 256 ==> inPorts[p] == (port <= p < FirstPort + PortCount)
        invariant forall p :: 0 <= p < 256 ==> outPorts[p] == (port <= p < FirstPort + PortCount)
        invariant selected == old(selected) && calls == old(calls)
      {
        outPorts := outPorts[port := false];
        inPorts := inPorts[port := false];
        port := port + 1;
      }
    }

    method RegisterDevice(id: byte, device: DeviceId)
      requires Valid() && devices[id] == None
      modifies devices
      ensures Valid()
      ensures devices[..] == old(devices[..])[id := Some(device)]
    {
      devices[id] := Some(device);
    }

    method UnregisterDevice(id: byte)
      requires Valid() && devices[id] != None
      modifies devices
      ensures Valid()
      ensures devices[..] == old(devices[..])[id := None]
    {
      devices[id] := None;
    }

    /** Resets every registered device, in slot order, then selects id 0. */
    method Reset(time: nat)
      requires Valid()
      modifies this
      ensures selected == 0
      ensures calls == old(calls) + ResetCalls(RegisteredDevices(devices[..]), time)
      ensures Valid()
    {
      var i := 0;
      ghost var visited: seq<DeviceId> := [];
      while i < 256
        invariant 0 <= i <= 256
        invariant visited == RegisteredDevices(devices[..i])
        invariant calls == old(calls) + ResetCalls(visited, time)
        invariant Valid()
      {
        assert RegisteredDevices(devices[..i + 1]) ==
          RegisteredDevices(devices[..i]) + (if devices[i].Some? then [devices[i].value] else []) by {
          RegisteredAppend(devices[..i], devices[i]);
          assert devices[..i + 1] == devices[..i] + [devices[i]];
        }
        if devices[i].Some? {
          calls := calls + [ResetCall(devices[i].value, time)];
          visited := visited + [devices[i].value];
        }
        i := i + 1;
      }
      assert devices[..256] == devices[..];
      selected := 0;
    }

    /** A read from one of the switch's ports: delegated to the selected device
        with the port as given, or 0xFF when no device has that id. */
    method ReadIO(port: word, respond: (DeviceId, word) -> byte) returns (value: byte)
      requires Valid()
      modifies this`calls
      ensures devices[selected] == None ==> value == 0xFF && calls == old(calls)
      ensures devices[selected] != None ==>
                value == respond(devices[selected].value, port) &&
                calls == old(calls) + [ReadCall(devices[selected].value, port)]
    {
      if devices[selected] != None {
        value := respond(devices[selected].value, port);
        calls := calls + [ReadCall(devices[selected].value, port)];
      } else {
        value := 0xFF;
      }
    }

    /** The side-effect-free read. */
    method PeekIO(port: word, peek: (DeviceId, word) -> byte) returns (value: byte)
      requires Valid()
      ensures devices[selected] == None ==> value == 0xFF
      ensures devices[selected] != None ==> value == peek(devices[selected].value, port)
    {
      if devices[selected] != None {
        value := peek(devices[selected].value, port);
      } else {
        value := 0xFF;
      }
    }

    /** A write: only the low four bits of the port count; port 0 selects a
        device, the other ports are forwarded to the selected device if any. */
    method WriteIO(port: word, value: byte)
      requires Valid()
      modifies this`selected, this`calls
      ensures LowNibble(port) == 0 ==> selected == value && calls == old(calls)
      ensures LowNibble(port) != 0 ==> selected == old(selected)
      ensures LowNibble(port) != 0 && devices[selected] == None ==> calls == old(calls)
      ensures LowNibble(port) != 0 && devices[selected] != None ==>
                calls == old(calls) + [WriteCall(devices[selected].value, LowNibble(port), value)]
    {
      var p := LowNibble(port);
      if p == 0 {
        selected := value;
      } else if devices[selected] != None {
        calls := calls + [WriteCall(devices[selected].value, p, value)];
      }
    }
  }

  /** A switched device: it registers itself with the switch under its id
      when it is made, and unregisters itself when it is destroyed. */
  class MSXSwitchedDevice {
    const deviceSwitch: MSXDeviceSwitch
    const id: byte
    /** The identity the switch delegates to. */
    const identity: DeviceId

    constructor (deviceSwitch: MSXDeviceSwitch, id: byte, identity: DeviceId)
      requires deviceSwitch.Valid() && deviceSwitch.devices[id] == None
      modifies deviceSwitch.devices
      ensures deviceSwitch.Valid()
      ensures this.deviceSwitch == deviceSwitch && this.id == id && this.identity == identity
      ensures deviceSwitch.devices[..] == old(deviceSwitch.devices[..])[id := Some(identity)]
    {
      deviceSwitch.RegisterDevice(id, identity);
      this.deviceSwitch := deviceSwitch;
      this.id := id;
      this.identity := identity;
    }

    /** The destructor. */
    method Destroy()
      requires deviceSwitch.Valid() && deviceSwitch.devices[id] != None
      modifies deviceSwitch.devices
      ensures deviceSwitch.Valid()
      ensures deviceSwitch.devices[..] == old(deviceSwitch.devices[..])[id := None]
    {
      deviceSwitch.UnregisterDevice(id);
    }
  }

  /** Making a switched device and destroying it again leaves the table of
      the switch as it was. */
  lemma RegisterThenUnregister(slots: seq<Option<DeviceId>>, id: nat, device: DeviceId)
    requires id < |slots| && slots[id] == None
    ensures slots[id := Some(device)][id := None] == slots
    ensures slots[id := Some(device)][id] == Some(device)
  {
    assert forall i :: 0 <= i < |slots| ==> slots[id := Some(device)][id := None][i] == slots[i];
  }

  lemma RegisteredAppend(slots: seq<Option<DeviceId>>, last: Option<DeviceId>)
    ensures RegisteredDevices(slots + [last]) ==
            RegisteredDevices(slots) + (if last.Some? then [last.value] else [])
  {
    if slots != [] {
      assert (slots + [last])[1..] == slots[1..] + [last];
    }
  }
}
