/** The export builder: the device loop of `collect_devices` and the store
    of `collect_panorama` (src/pan_collector/main.py lines 33-67). The
    appliance calls are not modelled; their results arrive as inputs. */
module Collector {
  import opened JsonTree
  import opened SensitiveKeys
  import opened Sanitizer

  datatype Option<+T> = None | Some(value: T)

  /** The outcome of fetching one configuration from the appliance. */
  datatype Fetch = Fetched(config: map<string, Json>) | Failed(message: string)

  /** One entry of the managed-device list, with the outcome of fetching
      its effective running configuration. */
  datatype Device = Device(serial: string, fetch: Fetch)

  /** The export mapping: device serial, or the reserved key, to tree. */
  type Export = map<string, Json>

  /** A whole run either completes with an export or stops with an
      uncaught error raised while handling the named entity. */
  datatype Run = Completed(entries: Export) | Aborted(culprit: string)

  const PanoramaKey: string := "panorama"

  /** The serials whose fetch succeeded. */
  function Succeeded(devices: seq<Device>): set<string>
  {
    set i | 0 <= i < |devices| && devices[i].fetch.Fetched? :: devices[i].serial
  }

  /** Device `i` succeeded for `serial`, and no later device did. */
  predicate LastSuccessAt(devices: seq<Device>, serial: string, i: int)
  {
    && 0 <= i < |devices|
    && devices[i].serial == serial && devices[i].fetch.Fetched?
    && forall j | i < j < |devices| :: !(devices[j].serial == serial && devices[j].fetch.Fetched?)
  }

  /** The configuration fetched by the last successful device with this
      serial, if there is one. */
  function LatestConfig(devices: seq<Device>, serial: string): (r: Option<map<string, Json>>)
    ensures r.Some? <==> serial in Succeeded(devices)
  {
    if |devices| == 0 then None
    else
      var front, last := devices[..|devices| - 1], devices[|devices| - 1];
      assert devices == front + [last];
      SucceededSnoc(front, last);
      if last.serial == serial && last.fetch.Fetched? then Some(last.fetch.config)
      else LatestConfig(front, serial)
  }

  /** The configuration found is the one fetched by a device with that
      serial, and no later device with that serial succeeded. */
  lemma {:induction false} LatestConfigIsLast(devices: seq<Device>, serial: string)
    requires LatestConfig(devices, serial).Some?
    ensures exists i ::
      LastSuccessAt(devices, serial, i) && devices[i].fetch.config == LatestConfig(devices, serial).value
  {
    var front, last := devices[..|devices| - 1], devices[|devices| - 1];
    if last.serial == serial && last.fetch.Fetched? {
      assert LastSuccessAt(devices, serial, |devices| - 1);
    } else {
      LatestConfigIsLast(front, serial);
      var i :| LastSuccessAt(front, serial, i)
        && front[i].fetch.config == LatestConfig(front, serial).value;
      assert LastSuccessAt(devices, serial, i);
    }
  }

  lemma SucceededSnoc(front: seq<Device>, last: Device)
    ensures Succeeded(front + [last])
      == Succeeded(front) + (if last.fetch.Fetched? then {last.serial} else {})
  {
    var devices := front + [last];
    forall s | s in Succeeded(devices)
      ensures s in Succeeded(front) + (if last.fetch.Fetched? then {last.serial} else {})
    {
      var i :| 0 <= i < |devices| && devices[i].fetch.Fetched? && devices[i].serial == s;
      if i < |front| {
        assert devices[i] == front[i];
      }
    }
    forall s | s in Succeeded(front)
      ensures s in Succeeded(devices)
    {
      var i :| 0 <= i < |front| && front[i].fetch.Fetched? && front[i].serial == s;
      assert devices[i] == front[i];
    }
    if last.fetch.Fetched? {
      assert devices[|front|] == last;
    }
  }

  /** The sanitized form of a fetched configuration, as stored. */
  function Stored(config: map<string, Json>): Json
  {
    Obj(SanitizeObject(config))
  }

  /** The device loop, with a failed device skipped: each success stores
      its sanitized tree under its serial, overwriting an earlier entry. */
  function CollectDevices(devices: seq<Device>, initial: Export): (r: Export)
    ensures r.Keys == initial.Keys + Succeeded(devices)
    ensures forall k | k in r && LatestConfig(devices, k).Some? ::
      r[k] == Stored(LatestConfig(devices, k).value)
    ensures forall k | k in initial && LatestConfig(devices, k).None? :: r[k] == initial[k]
  {
    if |devices| == 0 then initial
    else
      var front, last := devices[..|devices| - 1], devices[|devices| - 1];
      assert devices == front + [last];
      SucceededSnoc(front, last);
      var before := CollectDevices(front, initial);
      match last.fetch
      case Fetched(config) => before[last.serial := Stored(config)]
      case Failed(_) => before
  }

  /** The device loop as written: the handler's `'password' not in e`
      tests membership in an exception object, which raises a `TypeError`
      of its own, so the first failed device ends the whole run. */
  function CollectDevicesAsWritten(devices: seq<Device>, initial: Export): (r: Run)
    ensures r.Completed? <==> forall i | 0 <= i < |devices| :: devices[i].fetch.Fetched?
    ensures r.Completed? ==> r.entries == CollectDevices(devices, initial)
    ensures r.Aborted? ==> exists i | 0 <= i < |devices| ::
      && devices[i].serial == r.culprit && devices[i].fetch.Failed?
      && forall j | 0 <= j < i :: devices[j].fetch.Fetched?
  {
    if |devices| == 0 then Completed(initial)
    else
      var front, last := devices[..|devices| - 1], devices[|devices| - 1];
      assert devices == front + [last];
      match CollectDevicesAsWritten(front, initial)
      case Aborted(culprit) => Aborted(culprit)
      case Completed(before) =>
        match last.fetch
        case Fetched(config) => Completed(before[last.serial := Stored(config)])
        case Failed(_) => Aborted(last.serial)
  }

  /** One failing device among successful ones: the code as written stops
      the run, where skipping it keeps the other device's tree. */
  lemma FailedDeviceAbortsAsWritten()
    ensures var devices := [Device("001", Failed("connection refused")), Device("002", Fetched(map[]))];
      && CollectDevicesAsWritten(devices, map[]) == Aborted("001")
      && CollectDevices(devices, map[]) == map["002" := Obj(map[])]
  {
    var devices := [Device("001", Failed("connection refused")), Device("002", Fetched(map[]))];
    assert devices[..1] == [devices[0]];
    assert devices[..1][..0] == [];
    var r := CollectDevices(devices, map[]);
    assert "002" in Succeeded(devices);
    assert r.Keys == {"002"};
  }

  /** `collect_panorama`: the sanitized Panorama tree is stored under the
      reserved key, and nothing else changes. */
  function CollectPanorama(config: map<string, Json>, initial: Export): (r: Export)
    ensures r.Keys == initial.Keys + {PanoramaKey}
    ensures r[PanoramaKey].Obj? && r[PanoramaKey].fields.Keys == config.Keys
    ensures Redacted(r[PanoramaKey].fields)
    ensures FieldsBlankedFrom(config, r[PanoramaKey].fields)
    ensures forall k | k in initial && k != PanoramaKey :: r[k] == initial[k]
  {
    SanitizeIsRedacted(config);
    SanitizeOnlyBlanks(config);
    initial[PanoramaKey := Stored(config)]
  }

  /** A whole run with failed devices skipped: devices first, into an
      empty export, then Panorama, whose failure stops the run. */
  function CollectAll(devices: seq<Device>, panorama: Fetch): (r: Run)
    ensures r.Completed? <==> panorama.Fetched?
    ensures r.Completed? ==> r.entries.Keys == Succeeded(devices) + {PanoramaKey}
    ensures r.Completed? ==> r.entries[PanoramaKey] == Stored(panorama.config)
    ensures r.Completed? ==> forall s | s in Succeeded(devices) && s != PanoramaKey ::
      r.entries[s] == Stored(LatestConfig(devices, s).value)
  {
    match panorama
    case Failed(_) => Aborted(PanoramaKey)
    case Fetched(config) => Completed(CollectPanorama(config, CollectDevices(devices, map[])))
  }

  /** Every tree in the export is a mapping redacted at every level the
      walk reaches. */
  ghost predicate AllRedacted(entries: Export)
  {
    forall k | k in entries :: entries[k].Obj? && Redacted(entries[k].fields)
  }

  /** The device loop keeps an export fully redacted. */
  lemma {:induction false} CollectDevicesKeepsRedacted(devices: seq<Device>, initial: Export)
    requires AllRedacted(initial)
    ensures AllRedacted(CollectDevices(devices, initial))
  {
    if |devices| > 0 {
      var front, last := devices[..|devices| - 1], devices[|devices| - 1];
      CollectDevicesKeepsRedacted(front, initial);
      if last.fetch.Fetched? {
        SanitizeIsRedacted(last.fetch.config);
      }
    }
  }

  /** Every tree a completed run exports is a mapping redacted at every
      level the walk reaches. */
  lemma ExportIsRedacted(devices: seq<Device>, panorama: Fetch)
    ensures CollectAll(devices, panorama).Completed? ==> AllRedacted(CollectAll(devices, panorama).entries)
  {
    CollectDevicesKeepsRedacted(devices, map[]);
  }

  // ---------------------------------------------------------------------
  // Counting exported devices.

  predicate DistinctSerials(devices: seq<Device>)
  {
    forall i, j | 0 <= i < j < |devices| :: devices[i].serial != devices[j].serial
  }

  function FailedCount(devices: seq<Device>): (n: nat)
    ensures n <= |devices|
  {
    if |devices| == 0 then 0
    else FailedCount(devices[..|devices| - 1]) + (if devices[|devices| - 1].fetch.Failed? then 1 else 0)
  }

  lemma {:induction false} SucceededSize(devices: seq<Device>)
    requires DistinctSerials(devices)
    ensures |Succeeded(devices)| == |devices| - FailedCount(devices)
  {
    if |devices| > 0 {
      var front, last := devices[..|devices| - 1], devices[|devices| - 1];
      assert devices == front + [last];
      SucceededSnoc(front, last);
      SucceededSize(front);
    }
  }

  /** With N devices of distinct serials, none of them the reserved key,
      of which M fail, a completed run exports N - M device trees plus the
      Panorama tree. */
  lemma {:induction false} ExportSize(devices: seq<Device>, panorama: Fetch)
    requires DistinctSerials(devices)
    requires forall i | 0 <= i < |devices| :: devices[i].serial != PanoramaKey
    requires panorama.Fetched?
    ensures CollectAll(devices, panorama).Completed?
    ensures |CollectAll(devices, panorama).entries| == |devices| - FailedCount(devices) + 1
  {
    SucceededSize(devices);
    var r := CollectAll(devices, panorama);
    assert PanoramaKey !in Succeeded(devices);
    assert r.entries.Keys == Succeeded(devices) + {PanoramaKey};
    assert |r.entries.Keys| == |Succeeded(devices)| + 1;
  }

  // ---------------------------------------------------------------------
  // The failure report for a skipped device.

  const RedactedNotice: string := "<redacted for security reasons>"
  const PasswordHint: string := "** Validate password is set correctly. **"

  /** The lines reported for a device whose fetch failed with `message`:
      the message itself, unless it mentions a password, in which case a
      fixed notice stands in for it and a hint follows. */
  function FailureLog(serial: string, message: string): (log: seq<string>)
    ensures |log| >= 1
    ensures Contains(message, "password") && !Contains(serial, "password") ==>
      !Contains(log[0], "password")
    ensures forall j | 1 <= j < |log| :: log[j] == PasswordHint
    ensures !Contains(message, "password") ==>
      |log| == 1 && |log[0]| >= |message| && log[0][|log[0]| - |message|..] == message
  {
    if Contains(message, "password") then
      var line := "Failed to collect " + serial + ": " + RedactedNotice;
      NoticeLineClean(serial);
      [line, PasswordHint]
    else
      ["Failed to collect " + serial + ": " + message]
  }

  /** When the error text mentions a password, the report does not depend
      on the text at all: a fixed notice stands in for it. */
  lemma RedactedLogIgnoresMessage(serial: string, m1: string, m2: string)
    requires Contains(m1, "password") && Contains(m2, "password")
    ensures FailureLog(serial, m1) == FailureLog(serial, m2)
  {
  }

  lemma NoticeLineClean(serial: string)
    ensures !Contains(serial, "password") ==> !Contains("Failed to collect " + serial + ": " + RedactedNotice, "password")
  {
    var head, tail := "Failed to collect", " " + RedactedNotice;
    var rest := serial + [':'] + tail;
    assert "Failed to collect " + serial + ": " + RedactedNotice == head + [' '] + rest;
    MissingCharNotContained(head, "password", 'p');
    MissingCharNotContained(tail, "password", 'p');
    if !Contains(serial, "password") && Contains(head + [' '] + rest, "password") {
      SplitAtAbsentChar(head, ' ', rest, "password");
      SplitAtAbsentChar(serial, ':', tail, "password");
    }
  }
}

