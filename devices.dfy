/** The device-metadata registry of the device simulator: one record per simulated device,
    a device is available while it is online and holds no task, and tasks are placed on and
    released from devices by id. */
module Devices {
  import opened Wrappers
  import opened Seqs

  /** The four kinds of simulated device. */
  datatype DeviceType = Cpu | Ram | Disk | SensorHub

  /** The value string of each kind. */
  function Value(t: DeviceType): string {
    match t
    case Cpu => "CPU"
    case Ram => "RAM"
    case Disk => "Disk"
    case SensorHub => "Sensor Hub"
  }

  /** The name of the simulated device of each kind. */
  function DeviceName(t: DeviceType): string {
    match t
    case Cpu => "CPU Sensor"
    case Ram => "RAM Monitor"
    case Disk => "Disk Scanner"
    case SensorHub => "Sensor Hub"
  }

  /** The kinds in the order of the manager's device dictionary. */
  const Kinds: seq<DeviceType> := [Cpu, Ram, Disk, SensorHub]

  lemma KindsDistinct()
    ensures Distinct(Kinds)
  {
  }

  function LowerChar(c: char): char {
    if 'A' <= c <= 'Z' then (c as int + 32) as char else c
  }

  /** Lower-casing, on ASCII letters. */
  function Lower(s: string): string {
    seq(|s|, i requires 0 <= i < |s| => LowerChar(s[i]))
  }

  /** Every space replaced by an underscore. */
  function Underscored(s: string): string {
    seq(|s|, i requires 0 <= i < |s| => if s[i] == ' ' then '_' else s[i])
  }

  /** `sub` occurs in `s` as a contiguous piece (Python's `sub in s`). */
  predicate Contains(s: string, sub: string) {
    exists i :: 0 <= i <= |s| - |sub| && PieceAt(s, sub, i)
  }

  predicate PieceAt(s: string, sub: string, i: nat)
    requires i + |sub| <= |s|
  {
    s[i..i + |sub|] == sub
  }

  /** A device's id, `<kind value lower-cased>_<handle>`, kept abstract as the pair; the handle
      is the identity of the device object, supplied from outside. */
  datatype DeviceId = DeviceId(kind: DeviceType, handle: nat)

  datatype DeviceStatus = Online | Busy

  /** One metadata entry; the random battery, signal, location and data fields are left out. */
  datatype DeviceRecord = DeviceRecord(deviceId: DeviceId, name: string, deviceType: string,
                                       status: DeviceStatus, assignedTask: Option<string>)

  /** The `device_type` tag of each kind; `TypeTags` shows it is the kind's value lower-cased
      with spaces as underscores. */
  function TypeTag(t: DeviceType): string {
    match t
    case Cpu => "cpu"
    case Ram => "ram"
    case Disk => "disk"
    case SensorHub => "sensor_hub"
  }

  lemma LowerIs(s: string, t: string)
    requires |s| == |t| && forall i :: 0 <= i < |s| ==> LowerChar(s[i]) == t[i]
    ensures Lower(s) == t
  {
  }

  lemma UnderscoredIs(s: string, t: string)
    requires |s| == |t| && forall i :: 0 <= i < |s| ==> (if s[i] == ' ' then '_' else s[i]) == t[i]
    ensures Underscored(s) == t
  {
  }

  /** Each kind's tag is its value lower-cased, with every space made an underscore. */
  lemma TypeTags()
    ensures forall t :: TypeTag(t) == Underscored(Lower(Value(t)))
  {
    LowerIs("CPU", "cpu");
    UnderscoredIs("cpu", "cpu");
    LowerIs("RAM", "ram");
    UnderscoredIs("ram", "ram");
    LowerIs("Disk", "disk");
    UnderscoredIs("disk", "disk");
    LowerIs("Sensor Hub", "sensor hub");
    UnderscoredIs("sensor hub", "sensor_hub");
  }

  /** The entry a device starts with: online and holding no task. */
  function InitialRecord(t: DeviceType, handle: nat): (r: DeviceRecord)
    ensures r.deviceId == DeviceId(t, handle) && r.name == DeviceName(t) && r.deviceType == TypeTag(t)
    ensures r.status == Online && r.assignedTask == None
    ensures Available(r, None)
  {
    DeviceRecord(DeviceId(t, handle), DeviceName(t), TypeTag(t), Online, None)
  }

  /** Free for a task, and of the wanted kind when one is named: the lower-cased capability must
      occur in the lower-cased tag. */
  predicate Available(r: DeviceRecord, capability: Option<string>) {
    && r.status == Online && r.assignedTask == None
    && (capability.None? || Contains(Lower(r.deviceType), Lower(capability.value)))
  }

  /** The available entries, in dictionary order. */
  function AvailableIn(order: seq<DeviceId>, md: map<DeviceId, DeviceRecord>,
                       capability: Option<string>): seq<DeviceRecord>
  {
    if order == [] then []
    else
      var k := order[|order| - 1];
      AvailableIn(order[..|order| - 1], md, capability)
        + (if k in md && Available(md[k], capability) then [md[k]] else [])
  }

  /** The listing holds exactly the available entries of the dictionary. */
  lemma {:induction false} AvailableInIff(order: seq<DeviceId>, md: map<DeviceId, DeviceRecord>,
                                          capability: Option<string>, r: DeviceRecord)
    ensures r in AvailableIn(order, md, capability)
            <==> exists k :: k in order && k in md && md[k] == r && Available(r, capability)
  {
    if order != [] {
      var init := order[..|order| - 1];
      var k := order[|order| - 1];
      AvailableInIff(init, md, capability, r);
      assert forall j :: j in order <==> j in init || j == k;
    }
  }

  /** The capability filter on the four tags: any part of a tag, in any case, selects it, but the
      kind's own value "Sensor Hub", with its space, selects nothing, since the tag has an
      underscore there. */
  lemma CapabilityFilter()
    ensures Contains(Lower(TypeTag(SensorHub)), Lower("Sensor"))
    ensures Contains(Lower(TypeTag(SensorHub)), Lower("HUB"))
    ensures !Contains(Lower(TypeTag(SensorHub)), Lower(Value(SensorHub)))
    ensures forall t :: Contains(Lower(TypeTag(t)), Lower(""))
  {
    TypeTags();
    LowerIs("sensor_hub", "sensor_hub");
    LowerIs("Sensor", "sensor");
    LowerIs("HUB", "hub");
    LowerIs("Sensor Hub", "sensor hub");
    assert PieceAt("sensor_hub", "sensor", 0);
    assert PieceAt("sensor_hub", "hub", 7);
    assert !PieceAt("sensor_hub", "sensor hub", 0) by {
      assert "sensor_hub"[0..10][6] == '_';
    }
    forall t ensures Contains(Lower(TypeTag(t)), Lower("")) {
      assert PieceAt(Lower(TypeTag(t)), "", 0);
    }
  }

  /** The entry after `assign_task_to_device`. */
  function Assigned(r: DeviceRecord, taskId: string): DeviceRecord {
    r.(assignedTask := Some(taskId), status := Busy)
  }

  /** The entry after `complete_task` releases it. */
  function Released(r: DeviceRecord): DeviceRecord {
    r.(assignedTask := None, status := Online)
  }

  predicate Holds(md: map<DeviceId, DeviceRecord>, k: DeviceId, taskId: string) {
    k in md && md[k].assignedTask == Some(taskId)
  }

  /** The position, from `i` on, of the first entry holding the task. */
  function FirstHolderFrom(order: seq<DeviceId>, md: map<DeviceId, DeviceRecord>, taskId: string,
                           i: nat): Option<nat>
    decreases |order| - i
  {
    if i >= |order| then None
    else if Holds(md, order[i], taskId) then Some(i)
    else FirstHolderFrom(order, md, taskId, i + 1)
  }

  function FirstHolder(order: seq<DeviceId>, md: map<DeviceId, DeviceRecord>,
                       taskId: string): Option<nat>
  {
    FirstHolderFrom(order, md, taskId, 0)
  }

  /** The search finds the first holder from `i` on, and none exactly when nothing there holds
      the task. */
  lemma {:induction false} FirstHolderFromIsFirst(order: seq<DeviceId>,
                                                  md: map<DeviceId, DeviceRecord>,
                                                  taskId: string, i: nat)
    ensures var f := FirstHolderFrom(order, md, taskId, i);
      && (f.None? <==> forall j :: i <= j < |order| ==> !Holds(md, order[j], taskId))
      && (f.Some? ==> i <= f.value < |order| && Holds(md, order[f.value], taskId)
                      && forall j :: i <= j < f.value ==> !Holds(md, order[j], taskId))
    decreases |order| - i
  {
    if i < |order| && !Holds(md, order[i], taskId) {
      FirstHolderFromIsFirst(order, md, taskId, i + 1);
    }
  }

  /** `complete_task` picks the first entry holding the task, and none when no entry holds it. */
  lemma FirstHolderIsFirst(order: seq<DeviceId>, md: map<DeviceId, DeviceRecord>, taskId: string)
    ensures var f := FirstHolder(order, md, taskId);
      && (f.None? <==> forall k :: k in order ==> !Holds(md, k, taskId))
      && (f.Some? ==> f.value < |order| && Holds(md, order[f.value], taskId)
                      && forall j :: 0 <= j < f.value ==> !Holds(md, order[j], taskId))
  {
    FirstHolderFromIsFirst(order, md, taskId, 0);
    forall k | k in order ensures exists j :: 0 <= j < |order| && order[j] == k {
      var j :| 0 <= j < |order| && order[j] == k;
    }
  }

  /** An assigned device drops out of every listing, and every other available device stays. */
  lemma AssignRemovesFromAvailable(order: seq<DeviceId>, md: map<DeviceId, DeviceRecord>,
                                   id: DeviceId, taskId: string, capability: Option<string>)
    requires id in md
    requires forall k :: k in md ==> md[k].deviceId == k
    ensures var md' := md[id := Assigned(md[id], taskId)];
      && (forall r :: r in AvailableIn(order, md', capability) ==> r.deviceId != id)
      && (forall k :: k in order && k in md && k != id && Available(md[k], capability)
            ==> md[k] in AvailableIn(order, md', capability))
  {
    var md' := md[id := Assigned(md[id], taskId)];
    forall r | r in AvailableIn(order, md', capability) ensures r.deviceId != id {
      AvailableInIff(order, md', capability, r);
    }
    forall k | k in order && k in md && k != id && Available(md[k], capability)
      ensures md[k] in AvailableIn(order, md', capability)
    {
      AvailableInIff(order, md', capability, md[k]);
    }
  }

  /** Completing a task that exactly one device holds, right after it was placed there, finds that
      device; releasing it gives back the entry it had when it was available. */
  lemma CompleteAfterAssign(order: seq<DeviceId>, md: map<DeviceId, DeviceRecord>, id: DeviceId,
                            taskId: string)
    requires id in md && id in order
    requires forall k :: k in order ==> !Holds(md, k, taskId)
    ensures var md' := md[id := Assigned(md[id], taskId)];
      var f := FirstHolder(order, md', taskId);
      && f.Some? && f.value < |order| && order[f.value] == id
      && ((md[id].status == Online && md[id].assignedTask == None)
            ==> md'[id := Released(md'[id])] == md)
  {
    var md' := md[id := Assigned(md[id], taskId)];
    FirstHolderIsFirst(order, md', taskId);
    assert Holds(md', id, taskId);
    assert forall k :: k in order && k != id ==> !Holds(md', k, taskId);
    if md[id].status == Online && md[id].assignedTask == None {
      assert Released(md'[id]) == md[id];
      assert md'[id := Released(md'[id])] == md;
    }
  }

  /** The order lists each key once, and every entry carries its own key. */
  ghost predicate Registered(order: seq<DeviceId>, md: map<DeviceId, DeviceRecord>) {
    && Distinct(order)
    && (forall k :: k in md <==> k in order)
    && (forall k :: k in md ==> md[k].deviceId == k)
  }

  /** `_initialize_device_metadata`: one entry per device, in the order of the kinds, each online
      and holding no task. */
  method InitialMetadata(handles: seq<nat>) returns (o: seq<DeviceId>, md: map<DeviceId, DeviceRecord>)
    requires |handles| == |Kinds|
    ensures Registered(o, md)
    ensures |o| == |Kinds|
    ensures forall i :: 0 <= i < |Kinds| ==> o[i] == DeviceId(Kinds[i], handles[i])
    ensures forall i :: 0 <= i < |Kinds| ==> md[o[i]] == InitialRecord(Kinds[i], handles[i])
    ensures forall k :: k in md ==> md[k].status == Online && md[k].assignedTask == None
  {
    o := [];
    md := map[];
    KindsDistinct();
    for i := 0 to |Kinds|
      invariant |o| == i
      invariant md.Keys == Elements(o)
      invariant forall j :: 0 <= j < i ==> o[j] == DeviceId(Kinds[j], handles[j])
      invariant forall j :: 0 <= j < i ==> md[o[j]] == InitialRecord(Kinds[j], handles[j])
    {
      var id := DeviceId(Kinds[i], handles[i]);
      md := md[id := InitialRecord(Kinds[i], handles[i])];
      o := o + [id];
    }
    forall k | k in md ensures md[k].deviceId == k && md[k].status == Online && md[k].assignedTask == None {
      var j :| 0 <= j < |o| && o[j] == k;
    }
    forall j, l | 0 <= j < l < |o| ensures o[j] != o[l] {
      assert Kinds[j] != Kinds[l];
    }
  }

  class DeviceManager {
    /** Insertion order of the metadata dictionary. */
    var order: seq<DeviceId>
    var metadata: map<DeviceId, DeviceRecord>

    ghost predicate Valid()
      reads this
    {
      Registered(order, metadata)
    }

    /** The manager with its four devices, `handles` standing for the identities of the device
        objects; every entry starts online and unassigned. */
    constructor(handles: seq<nat>)
      requires |handles| == |Kinds|
      ensures Valid()
      ensures |order| == |Kinds|
      ensures forall i :: 0 <= i < |Kinds| ==> order[i] == DeviceId(Kinds[i], handles[i])
      ensures forall i :: 0 <= i < |Kinds| ==>
                metadata[order[i]] == InitialRecord(Kinds[i], handles[i])
      ensures forall k :: k in metadata ==>
                metadata[k].status == Online && metadata[k].assignedTask == None
    {
      var o, md := InitialMetadata(handles);
      order := o;
      metadata := md;
    }

    /** `get_available_devices`: the available entries, filtered by capability when one is
        given, in dictionary order. */
    method GetAvailableDevices(capability: Option<string>) returns (devices: seq<DeviceRecord>)
      requires Valid()
      ensures devices == AvailableIn(order, metadata, capability)
    {
      var o, md := order, metadata;
      devices := [];
      var i := 0;
      while i < |o|
        invariant 0 <= i <= |o|
        invariant devices == AvailableIn(o[..i], md, capability)
      {
        var k := o[i];
        assert o[..i + 1][..i] == o[..i];
        if md[k].status == Online && md[k].assignedTask == None {
          if capability.None? || Contains(Lower(md[k].deviceType), Lower(capability.value)) {
            devices := devices + [md[k]];
          }
        }
        i := i + 1;
      }
      assert o[..i] == o;
    }

    /** `assign_task_to_device`: an unknown id changes nothing; a known one is marked busy with
        the task, whether or not it was busy already, and no other entry changes. */
    method AssignTaskToDevice(taskId: string, id: DeviceId) returns (placed: bool)
      requires Valid()
      modifies this
      ensures Valid() && order == old(order)
      ensures placed == (id in old(metadata))
      ensures metadata == if placed then old(metadata)[id := Assigned(old(metadata)[id], taskId)]
                          else old(metadata)
    {
      if id in metadata {
        metadata := metadata[id := Assigned(metadata[id], taskId)];
        return true;
      }
      return false;
    }

    /** `assign_task_to_best_device`: nothing when no device is available; otherwise the first
        available device takes the task, its id is returned, and it drops out of every listing. */
    method AssignTaskToBestDevice(taskId: string, capability: Option<string>)
      returns (chosen: Option<DeviceId>)
      requires Valid()
      modifies this
      ensures Valid() && order == old(order)
      ensures var av := AvailableIn(old(order), old(metadata), capability);
        && (av == [] ==> chosen == None && metadata == old(metadata))
        && (av != [] ==> chosen == Some(av[0].deviceId) && av[0].deviceId in old(metadata)
                         && metadata == old(metadata)[av[0].deviceId := Assigned(av[0], taskId)])
      ensures chosen.Some? ==>
        forall c, r :: r in AvailableIn(order, metadata, c) ==> r.deviceId != chosen.value
    {
      var available := GetAvailableDevices(capability);
      if available == [] {
        return None;
      }
      var best := available[0];
      AvailableInIff(order, metadata, capability, best);
      var md := metadata;
      var ok := AssignTaskToDevice(taskId, best.deviceId);
      chosen := Some(best.deviceId);
      forall c, r | r in AvailableIn(order, metadata, c) ensures r.deviceId != best.deviceId {
        AssignRemovesFromAvailable(order, md, best.deviceId, taskId, c);
      }
    }

    /** `complete_task`: the first entry holding the task goes back online with no task; when no
        entry holds it nothing changes. */
    method CompleteTask(taskId: string) returns (completed: bool)
      requires Valid()
      modifies this
      ensures Valid() && order == old(order)
      ensures var f := FirstHolder(old(order), old(metadata), taskId);
        && completed == f.Some?
        && (completed ==> f.value < |old(order)|)
        && metadata == if completed
                        then old(metadata)[old(order)[f.value] :=
                                           Released(old(metadata)[old(order)[f.value]])]
                        else old(metadata)
    {
      var i := 0;
      while i < |order|
        invariant 0 <= i <= |order|
        invariant metadata == old(metadata)
        invariant FirstHolderFrom(order, metadata, taskId, i) == FirstHolder(order, metadata, taskId)
      {
        var k := order[i];
        if metadata[k].assignedTask == Some(taskId) {
          metadata := metadata[k := Released(metadata[k])];
          return true;
        }
        i := i + 1;
      }
      return false;
    }
  }
}
