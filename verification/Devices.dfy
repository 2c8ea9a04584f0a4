/**
Listing drivers and devices.
*/
module Devices {

  datatype Status = Ok | Error(code: nat)

  datatype DriverInfo = DriverInfo(name: string, fullName: string)
  datatype DeviceInfo = DeviceInfo(id: nat, path: string)
  datatype Device = Device(driverName: string, uri: string, id: nat)

  /** What the registry answers: the drivers, and for each driver name its devices or
      the error of creating or querying the driver. */
  datatype Answer<T> = Value(value: T) | Failed(code: nat)
  datatype Registry = Registry(drivers: Answer<seq<DriverInfo>>, devices: string -> Answer<seq<DeviceInfo>>)

  /** A vector passed by reference, with the devices deleted from it. */
  class DeviceVector {
    var items: seq<Device>
    var deleted: seq<Device>

    constructor ()
      ensures items == [] && deleted == []
    {
      items, deleted := [], [];
    }
  }

  // ----- what a listing should be

  function WithoutHip(infos: seq<DriverInfo>): seq<DriverInfo> {
    if infos == [] then []
    else (if infos[0].name == "hip" then [] else [infos[0]]) + WithoutHip(infos[1..])
  }

  function DeviceFor(driverName: string, info: DeviceInfo): Device {
    Device(driverName, driverName + "://" + info.path, info.id)
  }

  function DevicesFor(driverName: string, infos: seq<DeviceInfo>): (ds: seq<Device>)
    ensures |ds| == |infos| && forall i :: 0 <= i < |infos| ==> ds[i] == DeviceFor(driverName, infos[i])
  {
    seq(|infos|, i requires 0 <= i < |infos| => DeviceFor(driverName, infos[i]))
  }

  /** `d` is the device that `info` describes, of the driver: its URI is `driver://path`. */
  predicate Describes(d: Device, driverName: string, info: DeviceInfo) {
    && d.driverName == driverName && d.id == info.id
    && driverName + "://" <= d.uri && d.uri[|driverName| + 3..] == info.path
  }

  predicate AllAnswer(r: Registry, drivers: seq<DriverInfo>) {
    forall i :: 0 <= i < |drivers| ==> r.devices(drivers[i].name).Value?
  }

  /** The devices of all the drivers, in driver order. */
  function AllDevices(r: Registry, drivers: seq<DriverInfo>): seq<Device>
    requires AllAnswer(r, drivers)
  {
    if drivers == [] then []
    else
      var last := drivers[|drivers| - 1];
      AllDevices(r, drivers[..|drivers| - 1]) + DevicesFor(last.name, r.devices(last.name).value)
  }

  /** Where the devices of driver `k` start in the listing of all drivers. */
  function Offset(r: Registry, drivers: seq<DriverInfo>, k: nat): nat
    requires k <= |drivers| && AllAnswer(r, drivers)
  {
    if k == 0 then 0 else Offset(r, drivers, k - 1) + |r.devices(drivers[k - 1].name).value|
  }

  /** Device `i` of driver `k` is at its place. */
  predicate ListedAt(ds: seq<Device>, r: Registry, drivers: seq<DriverInfo>, k: nat, i: nat)
    requires AllAnswer(r, drivers) && k < |drivers| && i < |r.devices(drivers[k].name).value|
  {
    && Offset(r, drivers, k) + i < |ds|
    && Describes(ds[Offset(r, drivers, k) + i], drivers[k].name, r.devices(drivers[k].name).value[i])
  }

  /** `ds` lists the devices of the drivers, driver by driver and in the order of each. */
  ghost predicate Lists(ds: seq<Device>, r: Registry, drivers: seq<DriverInfo>)
    requires AllAnswer(r, drivers)
  {
    && |ds| == Offset(r, drivers, |drivers|)
    && forall k, i :: 0 <= k < |drivers| && 0 <= i < |r.devices(drivers[k].name).value| ==>
         ListedAt(ds, r, drivers, k, i)
  }

  lemma {:induction false} OffsetOfFront(r: Registry, drivers: seq<DriverInfo>, n: nat, k: nat)
    requires k <= n <= |drivers| && AllAnswer(r, drivers)
    ensures AllAnswer(r, drivers[..n]) && Offset(r, drivers[..n], k) == Offset(r, drivers, k)
  {
    if k > 0 { OffsetOfFront(r, drivers, n, k - 1); }
  }

  lemma DescribedBy(driverName: string, info: DeviceInfo)
    ensures Describes(DeviceFor(driverName, info), driverName, info)
  {
    assert driverName + "://" + info.path == (driverName + "://") + info.path;
  }

  lemma {:induction false} AllDevicesListed(r: Registry, drivers: seq<DriverInfo>)
    requires AllAnswer(r, drivers)
    ensures Lists(AllDevices(r, drivers), r, drivers)
    decreases |drivers|
  {
    if drivers != [] {
      var n := |drivers| - 1;
      AllDevicesListed(r, drivers[..n]);
      var infos := r.devices(drivers[n].name).value;
      forall i | 0 <= i < |infos|
        ensures Describes(DevicesFor(drivers[n].name, infos)[i], drivers[n].name, infos[i])
      {
        DescribedBy(drivers[n].name, infos[i]);
      }
      ListsOneMore(r, drivers, AllDevices(r, drivers[..n]), DevicesFor(drivers[n].name, infos));
    }
  }

  lemma ListsOneMore(r: Registry, drivers: seq<DriverInfo>, ds: seq<Device>, more: seq<Device>)
    requires drivers != [] && AllAnswer(r, drivers) && Lists(ds, r, drivers[..|drivers| - 1])
    requires var last := drivers[|drivers| - 1].name;
      && |more| == |r.devices(last).value|
      && forall i :: 0 <= i < |more| ==> Describes(more[i], last, r.devices(last).value[i])
    ensures Lists(ds + more, r, drivers)
  {
    hide Describes;
    var n := |drivers| - 1;
    var front := drivers[..n];
    OffsetOfFront(r, drivers, n, n);
    assert |front| == n && Offset(r, drivers, |drivers|) == Offset(r, drivers, n) + |more|;
    forall k, i | 0 <= k < |drivers| && 0 <= i < |r.devices(drivers[k].name).value|
      ensures ListedAt(ds + more, r, drivers, k, i)
    {
      if k < n {
        OffsetOfFront(r, drivers, n, k);
        assert ListedAt(ds, r, front, k, i);
      } else {
        assert (ds + more)[|ds| + i] == more[i];
      }
    }
  }

  lemma {:induction false} WithoutHipAppend(infos: seq<DriverInfo>, info: DriverInfo)
    ensures WithoutHip(infos + [info]) == WithoutHip(infos) + if info.name == "hip" then [] else [info]
  {
    if infos == [] {
      assert infos + [info] == [info];
    } else {
      WithoutHipAppend(infos[1..], info);
      assert (infos + [info])[1..] == infos[1..] + [info];
    }
  }

  /** The drivers not called "hip" remain as often as they were listed. */
  lemma {:induction false} WithoutHipMembers(infos: seq<DriverInfo>, d: DriverInfo)
    ensures multiset(WithoutHip(infos))[d] == if d.name == "hip" then 0 else multiset(infos)[d]
  {
    if infos != [] {
      WithoutHipMembers(infos[1..], d);
      assert infos == [infos[0]] + infos[1..];
    }
  }

  /** `kept` are the positions of the drivers not called "hip", in increasing order. */
  ghost predicate Positions(infos: seq<DriverInfo>, kept: seq<nat>) {
    && (forall k :: 0 <= k < |kept| ==> kept[k] < |infos| && infos[kept[k]].name != "hip")
    && (forall j, k :: 0 <= j < k < |kept| ==> kept[j] < kept[k])
    && (forall i :: 0 <= i < |infos| && infos[i].name != "hip" ==> i in kept)
  }

  /** The listing is the drivers at those positions. */
  lemma {:induction false} WithoutHipInOrder(infos: seq<DriverInfo>) returns (kept: seq<nat>)
    ensures Positions(infos, kept)
    ensures |WithoutHip(infos)| == |kept| && forall k :: 0 <= k < |kept| ==> WithoutHip(infos)[k] == infos[kept[k]]
    decreases |infos|
  {
    hide WithoutHip;
    if infos == [] {
      kept := [];
      NoDriversListed();
    } else {
      var last := |infos| - 1;
      var front := infos[..last];
      kept := WithoutHipInOrder(front);
      WithoutHipAppend(front, infos[last]);
      assert front + [infos[last]] == infos;
      if infos[last].name != "hip" {
        OneMorePosition(front, kept, infos[last]);
        kept := kept + [last];
      }
    }
  }

  lemma NoDriversListed()
    ensures WithoutHip([]) == []
  {
  }

  lemma OneMorePosition(front: seq<DriverInfo>, kept: seq<nat>, info: DriverInfo)
    requires Positions(front, kept) && info.name != "hip"
    ensures Positions(front + [info], kept + [|front|])
  {
    var more := kept + [|front|];
    assert more[|kept|] == |front|;
    assert forall i :: i in kept ==> i in more;
  }

  // ----- the listings

  method ListDrivers(r: Registry) returns (status: Status, drivers: seq<DriverInfo>)
    ensures status.Ok? <==> r.drivers.Value?
    ensures status.Ok? ==> drivers == WithoutHip(r.drivers.value)
    ensures !status.Ok? ==> status.code == r.drivers.code && drivers == []
  {
    if r.drivers.Failed? { return Error(r.drivers.code), []; }
    var infos := r.drivers.value;
    drivers := [];
    for i := 0 to |infos|
      invariant drivers == WithoutHip(infos[..i])
    {
      WithoutHipAppend(infos[..i], infos[i]);
      assert infos[..i] + [infos[i]] == infos[..i + 1];
      if infos[i].name == "hip" { continue; }
      drivers := drivers + [infos[i]];
    }
    assert infos[..|infos|] == infos;
    status := Ok;
  }

  /** The devices of one driver, appended to the vector, where creating a device succeeds. */
  method ListDriverDevices(r: Registry, driverName: string, devices: DeviceVector) returns (status: Status)
    modifies devices
    ensures devices.deleted == old(devices.deleted)
    ensures var answer := r.devices(driverName);
      if answer.Failed? then status == Error(answer.code) && devices.items == old(devices.items)
      else status == Ok && devices.items == old(devices.items) + DevicesFor(driverName, answer.value)
    ensures r.devices(driverName).Value? ==>
      var infos, before := r.devices(driverName).value, |old(devices.items)|;
      && |devices.items| == before + |infos|
      && forall i :: 0 <= i < |infos| ==>
           var d := devices.items[before + i];
           && d.driverName == driverName && d.id == infos[i].id
           && driverName + "://" <= d.uri && d.uri[|driverName| + 3..] == infos[i].path
  {
    var answer := r.devices(driverName);
    if answer.Failed? { return Error(answer.code); }
    ghost var before := devices.items;
    for i := 0 to |answer.value|
      invariant devices.deleted == old(devices.deleted)
      invariant devices.items == before + DevicesFor(driverName, answer.value)[..i]
    {
      var info := answer.value[i];
      devices.items := devices.items + [Device(driverName, driverName + "://" + info.path, info.id)];
    }
    forall i | 0 <= i < |answer.value|
      ensures Describes(devices.items[|before| + i], driverName, answer.value[i])
    {
      DescribedBy(driverName, answer.value[i]);
    }
    status := Ok;
  }

  /** The first driver that fails, if any. */
  ghost predicate FirstFailure(r: Registry, drivers: seq<DriverInfo>, k: nat) {
    k < |drivers| && r.devices(drivers[k].name).Failed? && AllAnswer(r, drivers[..k])
  }

  /**
  All devices of all drivers but "hip", appended in driver order.  When a driver
  fails, the whole list is deleted and cleared, including what it held before, and
  the error of the first failing driver, number `failed`, is returned.
  */
  method ListDevices(r: Registry, devices: DeviceVector) returns (status: Status, ghost failed: nat)
    modifies devices
    ensures r.drivers.Failed? ==> status == Error(r.drivers.code)
    ensures r.drivers.Failed? ==> devices.items == old(devices.items) && devices.deleted == old(devices.deleted)
    ensures r.drivers.Value? ==> (status.Ok? <==> AllAnswer(r, WithoutHip(r.drivers.value)))
    ensures r.drivers.Value? && status.Ok? ==>
      && devices.items == old(devices.items) + AllDevices(r, WithoutHip(r.drivers.value))
      && devices.deleted == old(devices.deleted)
      && Lists(devices.items[|old(devices.items)|..], r, WithoutHip(r.drivers.value))
    ensures r.drivers.Value? && !status.Ok? ==>
      var drivers := WithoutHip(r.drivers.value);
      && FirstFailure(r, drivers, failed) && status == Error(r.devices(drivers[failed].name).code)
      && devices.items == []
      && devices.deleted == old(devices.deleted) + old(devices.items) + AllDevices(r, drivers[..failed])
  {
    hide WithoutHip, AllDevices, DevicesFor, Lists, Describes, Offset;
    var drivers;
    status, drivers := ListDrivers(r);
    failed := 0;
    if !status.Ok? { return; }
    NoDriversYet(r);
    assert drivers[..0] == [];
    for i := 0 to |drivers|
      invariant AllAnswer(r, drivers[..i])
      invariant devices.items == old(devices.items) + AllDevices(r, drivers[..i])
      invariant devices.deleted == old(devices.deleted)
    {
      var driverDevices := new DeviceVector();
      status := ListDriverDevices(r, drivers[i].name, driverDevices);
      if !status.Ok? {
        devices.deleted := devices.deleted + devices.items;
        devices.items := [];
        failed := i;
        return;
      }
      OneMoreDriver(r, drivers, i);
      Reassociate(old(devices.items), AllDevices(r, drivers[..i]),
                  DevicesFor(drivers[i].name, r.devices(drivers[i].name).value));
      devices.items := devices.items + driverDevices.items;
    }
    assert drivers[..|drivers|] == drivers;
    AllDevicesListed(r, drivers);
    Appended(old(devices.items), AllDevices(r, drivers));
    status := Ok;
  }

  lemma Reassociate(a: seq<Device>, b: seq<Device>, c: seq<Device>)
    ensures a + b + c == a + (b + c) && [] + c == c
  {
  }

  lemma Appended(before: seq<Device>, ds: seq<Device>)
    ensures (before + ds)[|before|..] == ds
  {
  }

  lemma NoDriversYet(r: Registry)
    ensures AllAnswer(r, []) && AllDevices(r, []) == []
  {
  }

  lemma OneMoreDriver(r: Registry, drivers: seq<DriverInfo>, i: nat)
    requires i < |drivers| && AllAnswer(r, drivers[..i]) && r.devices(drivers[i].name).Value?
    ensures AllAnswer(r, drivers[..i + 1])
    ensures AllDevices(r, drivers[..i + 1])
         == AllDevices(r, drivers[..i]) + DevicesFor(drivers[i].name, r.devices(drivers[i].name).value)
  {
    assert drivers[..i + 1][..i] == drivers[..i];
    assert forall j :: 0 <= j < i ==> drivers[..i + 1][j] == drivers[..i][j];
  }
}
