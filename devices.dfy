/**
 * Start-up of the sniffer: the configured device name is looked up in the
 * list of capture devices the capture library enumerates. A missing device
 * is fatal, so capture never starts.
 */
module Devices {
  import opened Wrappers

  /** A capture device as the capture library enumerates it. */
  datatype Interface = Interface(name: string, description: string)

  /** The fatal start-up conditions, which the listener reports by ending
      the process. */
  datatype Fatal =
    | DeviceListError(reason: string)   // enumerating the devices failed
    | InterfaceNotFound(device: string) // the configured device is not listed

  /** The position of the first device named exactly `name`, if any. */
  function FirstMatch(devices: seq<Interface>, name: string): (r: Option<nat>)
    ensures r.Some? ==> r.value < |devices| && devices[r.value].name == name
    ensures r.Some? ==> forall j :: 0 <= j < r.value ==> devices[j].name != name
    ensures r.None? <==> forall j :: 0 <= j < |devices| ==> devices[j].name != name
  {
    if devices == [] then None
    else if devices[0].name == name then Some(0)
    else match FirstMatch(devices[1..], name)
      case None => None
      case Some(i) => Some(i + 1)
  }

  /** The device loop of `startSniffer`: scan the list, keep the name of the
      first exact match and stop; the empty string when nothing matches. */
  method FindInterface(devices: seq<Interface>, name: string) returns (networkInterface: string)
    ensures networkInterface == match FirstMatch(devices, name)
      case Some(i) => devices[i].name
      case None => ""
  {
    networkInterface := "";
    var i := 0;
    while i < |devices|
      invariant 0 <= i <= |devices|
      invariant forall j :: 0 <= j < i ==> devices[j].name != name
      invariant networkInterface == ""
    {
      if devices[i].name == name {
        networkInterface := devices[i].name;
        break;
      }
      i := i + 1;
    }
  }

  /** Resolves the configured device, given what enumerating the devices
      returned. Success carries the interface to open. The empty string
      doubles as "not found" in the source, so an empty configured name is
      fatal even when a device of that name is listed. */
  method StartSniffer(listed: Result<seq<Interface>, string>, name: string)
    returns (r: Result<string, Fatal>)
    ensures listed.Failure? ==> r == Failure(DeviceListError(listed.error))
    ensures listed.Success? ==>
      (r.Success? <==> name != "" && exists i :: 0 <= i < |listed.value| && listed.value[i].name == name)
    ensures listed.Success? && r.Failure? ==> r.error == InterfaceNotFound(name)
    ensures r.Success? ==> r.value == name
  {
    if listed.Failure? {
      return Failure(DeviceListError(listed.error));
    }
    var networkInterface := FindInterface(listed.value, name);
    if networkInterface == "" {
      return Failure(InterfaceNotFound(name));
    }
    r := Success(networkInterface);
  }
}
