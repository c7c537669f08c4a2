/** The symbol-version monitor node: polls the device's symbol version and
    watches the device's info topic, and reports when the version rises or
    the device comes back online. */
module SymVersionMonitor {
  import opened Bytes
  import opened Wrappers
  import opened Codec
  import Gvl

  const ADSIGRP_SYM_VERSION: u32 := 0xF008
  const SYM_VERSION_LENGTH: u32 := 4

  /** The poll interval: `interval` (0 standing for a missing or zero
      setting, which becomes 1) as milliseconds for "ms", in minutes for
      "min", and in seconds for any other unit; the unit defaults to
      seconds. */
  function IntervalMs(interval: int, unit: string): (ms: int)
    ensures ms != 0
    ensures unit == "ms" ==> ms == (if interval == 0 then 1 else interval)
  {
    var n := if interval == 0 then 1 else interval;
    var u := if unit == "" then "s" else unit;
    if u == "ms" then n else if u == "min" then n * 60000 else n * 1000
  }

  /** The monitor and the gvl node read the same interval settings alike
      exactly for the units both name ("", "s", "min", "ms"); for any other
      unit the monitor counts seconds and the gvl node milliseconds. */
  lemma IntervalUnitsAgree(interval: int, unit: string)
    ensures IntervalMs(interval, unit) == Gvl.IntervalMs(interval, unit) <==>
              unit == "" || unit == "s" || unit == "min" || unit == "ms"
  {
    var n := if interval == 0 then 1 else interval;
    if !(unit == "" || unit == "s" || unit == "min" || unit == "ms") {
      assert IntervalMs(interval, unit) == n * 1000;
      assert Gvl.IntervalMs(interval, unit) == n;
    }
  }

  // ---------------------------------------------------------------------
  // The two state machines

  datatype Event =
    | Published(topic: string, frame: seq<byte>)
    | Changed(source: string, current: Option<u32>, prev: Option<u32>)   // first output
    | Current(version: u32)                                              // second output
    | OnlineState(online: bool)                                          // third output
    | InvalidResponseFrame
    | Thrown                                 // reading the version past the data raises

  /** The recorded version after a polled version `current`: the first one
      is recorded, later ones only when they are larger. */
  function VersionAfter(last: Option<u32>, current: u32): (r: Option<u32>)
    ensures r.Some?
    ensures last.Some? ==> r.value == (if current > last.value then current else last.value)
  {
    if last.None? then Some(current)
    else if current > last.value then Some(current)
    else last
  }

  /** The event of a polled version: one exactly when it exceeds a recorded
      version, carrying the new and the old value. */
  function VersionEvents(last: Option<u32>, current: u32): (es: seq<Event>)
    ensures es != [] <==> last.Some? && current > last.value
    ensures es != [] ==> es == [Changed("sym_version", Some(current), last)]
  {
    if last.Some? && current > last.value then [Changed("sym_version", Some(current), last)] else []
  }

  /** The recorded online state after an info message: unchanged when the
      payload holds no `<online>` value. */
  function OnlineAfter(last: Option<bool>, online: Option<bool>): Option<bool>
  {
    if online.None? then last else online
  }

  /** "infoTopic" fires only on an explicit false-to-true transition. */
  function OnlineEvents(last: Option<bool>, online: Option<bool>): (es: seq<Event>)
    ensures es != [] <==> last == Some(false) && online == Some(true)
    ensures es != [] ==> es == [Changed("infoTopic", None, None)]
  {
    if online.Some? && last == Some(false) && online.value then [Changed("infoTopic", None, None)] else []
  }

  /** A run of polled versions, from the recorded `last`. */
  function VersionRun(last: Option<u32>, vs: seq<u32>): Option<u32>
  {
    if vs == [] then last else VersionAfter(VersionRun(last, vs[..|vs| - 1]), vs[|vs| - 1])
  }

  function VersionRunEvents(last: Option<u32>, vs: seq<u32>): seq<Event>
  {
    if vs == [] then []
    else
      var init := vs[..|vs| - 1];
      VersionRunEvents(last, init) + VersionEvents(VersionRun(last, init), vs[|vs| - 1])
  }

  /** After a run the recorded version is the largest of the versions seen
      and the one recorded before; so it never decreases. */
  lemma {:induction false} VersionRunIsMax(last: Option<u32>, vs: seq<u32>)
    requires last.Some? || vs != []
    ensures var r := VersionRun(last, vs);
      && r.Some?
      && (last.Some? ==> last.value <= r.value)
      && (forall k :: 0 <= k < |vs| ==> vs[k] <= r.value)
      && (r == last || exists k :: 0 <= k < |vs| && vs[k] == r.value)
  {
    if vs != [] {
      var init := vs[..|vs| - 1];
      var x := vs[|vs| - 1];
      if init == [] && last.None? {
        assert VersionRun(last, init) == None;
        assert VersionRun(last, vs) == Some(x);
      } else {
        VersionRunIsMax(last, init);
        var p := VersionRun(last, init);
        var r := VersionRun(last, vs);
        assert r == VersionAfter(p, x);
        forall k | 0 <= k < |vs| ensures vs[k] <= r.value {
          if k < |init| {
            assert vs[k] == init[k];
          }
        }
        if r != last && r == p {
          var k :| 0 <= k < |init| && init[k] == p.value;
          assert vs[k] == r.value;
        }
        if r != p {
          assert vs[|vs| - 1] == r.value;
        }
      }
    }
  }

  /** Every version event of a run reports a rise: its new value exceeds
      its old one. */
  lemma {:induction false} VersionRunEventsRise(last: Option<u32>, vs: seq<u32>)
    ensures forall j :: 0 <= j < |VersionRunEvents(last, vs)| ==>
              var e := VersionRunEvents(last, vs)[j];
              e.Changed? && e.source == "sym_version" && e.current.Some? && e.prev.Some? &&
              e.current.value > e.prev.value
  {
    if vs != [] {
      var init := vs[..|vs| - 1];
      VersionRunEventsRise(last, init);
      var a := VersionRunEvents(last, init);
      var b := VersionEvents(VersionRun(last, init), vs[|vs| - 1]);
      assert VersionRunEvents(last, vs) == a + b;
      forall j | 0 <= j < |a + b| ensures (a + b)[j] == (if j < |a| then a[j] else b[j - |a|]) { }
    }
  }

  /** The versions 5, 5, 7, 7, 6 polled from the start give one event (7
      after 5) and leave 7 recorded. */
  lemma VersionExample()
    ensures VersionRunEvents(None, [5, 5, 7, 7, 6]) == [Changed("sym_version", Some(7), Some(5))]
    ensures VersionRun(None, [5, 5, 7, 7, 6]) == Some(7)
  {
    var vs: seq<u32> := [5, 5, 7, 7, 6];
    var r1, r2, r3, r4 := vs[..1], vs[..2], vs[..3], vs[..4];
    assert r1[..0] == [] && r2[..1] == r1 && r3[..2] == r2 && r4[..3] == r3 && vs[..4] == r4;
    assert VersionRun(None, r1) == Some(5) && VersionRunEvents(None, r1) == [];
    assert VersionRun(None, r2) == Some(5) && VersionRunEvents(None, r2) == [];
    assert VersionRun(None, r3) == Some(7);
    assert VersionRunEvents(None, r3) == [Changed("sym_version", Some(7), Some(5))];
    assert VersionRun(None, r4) == Some(7);
    assert VersionRunEvents(None, r4) == [Changed("sym_version", Some(7), Some(5))];
  }

  function OnlineRun(last: Option<bool>, os: seq<Option<bool>>): Option<bool>
  {
    if os == [] then last else OnlineAfter(OnlineRun(last, os[..|os| - 1]), os[|os| - 1])
  }

  function OnlineRunEvents(last: Option<bool>, os: seq<Option<bool>>): seq<Event>
  {
    if os == [] then []
    else
      var init := os[..|os| - 1];
      OnlineRunEvents(last, init) + OnlineEvents(OnlineRun(last, init), os[|os| - 1])
  }

  /** Online states false, true, true, false, true from the start give two
      events; a first true is silent. */
  lemma OnlineExample()
    ensures |OnlineRunEvents(None, [Some(false), Some(true), Some(true), Some(false), Some(true)])| == 2
    ensures OnlineRunEvents(None, [Some(true)]) == []
  {
    var os := [Some(false), Some(true), Some(true), Some(false), Some(true)];
    var r1, r2, r3, r4 := os[..1], os[..2], os[..3], os[..4];
    assert r1[..0] == [] && r2[..1] == r1 && r3[..2] == r2 && r4[..3] == r3 && os[..4] == r4;
    assert OnlineRun(None, r1) == Some(false) && OnlineRunEvents(None, r1) == [];
    assert OnlineRun(None, r2) == Some(true) && |OnlineRunEvents(None, r2)| == 1;
    assert OnlineRun(None, r3) == Some(true) && |OnlineRunEvents(None, r3)| == 1;
    assert OnlineRun(None, r4) == Some(false) && |OnlineRunEvents(None, r4)| == 1;
    assert [Some(true)][..0] == [];
  }

  // ---------------------------------------------------------------------
  // The node

  /** Who waits for a version read: the timer's poll, or an input
      message's callback. */
  datatype Waiter = Poll | OnDemand

  class MonitorNode {
    const conn: Connection
    var lastSymVersion: Option<u32>
    var lastOnline: Option<bool>
    var pending: map<u32, Waiter>
    var nextId: nat

    /** Every pending read carries an id issued earlier. */
    predicate Valid()
      reads this
    {
      forall id :: id in pending ==> id < nextId
    }

    /** The node's state before its closing `restart()`. */
    constructor (conn: Connection)
      ensures this.conn == conn && lastSymVersion == None && lastOnline == None
      ensures pending == map[] && nextId == 1 && Valid()
    {
      this.conn := conn;
      lastSymVersion := None;
      lastOnline := None;
      pending := map[];
      nextId := 1;
    }

    function InfoTopic(): string
    {
      conn.namespace + "/" + conn.targetText + "/info"
    }

    /** `readSymVersion`: a Read of the 4-byte symbol version. */
    method ReadSymVersion(w: Waiter) returns (events: seq<Event>)
      requires Valid()
      modifies this
      ensures Valid()
      ensures var id := WireInvokeId(old(nextId));
        && nextId == old(nextId) + 1 && (old(nextId) < 0x1_0000_0000 ==> id !in old(pending))
        && pending == old(pending)[id := w]
        && lastSymVersion == old(lastSymVersion) && lastOnline == old(lastOnline)
        && events == [Published(RequestTopic(conn.namespace, conn.targetText),
                                ReadFrame(conn, id, ReadArgs(ADSIGRP_SYM_VERSION, 0, SYM_VERSION_LENGTH)))]
    {
      var id := WireInvokeId(nextId);
      nextId := nextId + 1;
      var frame := ReadFrame(conn, id, ReadArgs(ADSIGRP_SYM_VERSION, 0, SYM_VERSION_LENGTH));
      pending := pending[id := w];
      events := [Published(RequestTopic(conn.namespace, conn.targetText), frame)];
    }

    /** `restart`: forget both recorded values and poll. */
    method Restart() returns (events: seq<Event>)
      requires Valid()
      modifies this
      ensures Valid()
      ensures lastSymVersion == None && lastOnline == None
      ensures var id := WireInvokeId(old(nextId));
        && nextId == old(nextId) + 1 && (old(nextId) < 0x1_0000_0000 ==> id !in old(pending))
        && pending == old(pending)[id := Poll]
        && events == [Published(RequestTopic(conn.namespace, conn.targetText),
                                ReadFrame(conn, id, ReadArgs(ADSIGRP_SYM_VERSION, 0, SYM_VERSION_LENGTH)))]
    {
      lastSymVersion := None;
      lastOnline := None;
      events := ReadSymVersion(Poll);
    }

    /** An input message: an on-demand read, and the online flag at once
        (false until the device has reported itself online). */
    method Input() returns (events: seq<Event>)
      requires Valid()
      modifies this
      ensures Valid()
      ensures var id := WireInvokeId(old(nextId));
        && nextId == old(nextId) + 1 && (old(nextId) < 0x1_0000_0000 ==> id !in old(pending))
        && pending == old(pending)[id := OnDemand]
        && lastSymVersion == old(lastSymVersion) && lastOnline == old(lastOnline)
        && events == [Published(RequestTopic(conn.namespace, conn.targetText),
                                ReadFrame(conn, id, ReadArgs(ADSIGRP_SYM_VERSION, 0, SYM_VERSION_LENGTH))),
                      OnlineState(lastOnline == Some(true))]
    {
      events := ReadSymVersion(OnDemand);
      events := events + [OnlineState(lastOnline == Some(true))];
    }

    /** The state and events after a matched version response for `w`,
        from the recorded version `v0`. At most one event results, and an
        on-demand read never moves the recorded version. */
    predicate VersionStep(v0: Option<u32>, w: Waiter, resp: Response, events: seq<Event>)
      reads this
      ensures VersionStep(v0, w, resp, events) ==> |events| <= 1
      ensures VersionStep(v0, w, resp, events) && w == OnDemand ==> lastSymVersion == v0
    {
      if resp.result != 0 then events == [Changed("sym_version", None, None)] && lastSymVersion == v0
      else if resp.length < 4 then events == [] && lastSymVersion == v0
      else if |resp.data| < 4 then events == [Thrown] && lastSymVersion == v0
      else
        var current := ReadU32(resp.data, 0);
        if w == OnDemand then events == [Current(current)] && lastSymVersion == v0
        else events == VersionEvents(v0, current) && lastSymVersion == VersionAfter(v0, current)
    }

    /** A message on the response or the info topic; `online` is what the
        `<online>` pattern finds in an info message's text. */
    method OnMessage(topic: string, message: seq<byte>, online: Option<bool>) returns (events: seq<Event>)
      requires Valid()
      modifies this
      ensures Valid()
      ensures topic == ResponseTopic(conn.namespace, conn.amsNetIdText) ==>
                && lastOnline == old(lastOnline)
                && if |message| < RESPONSE_MIN then
                     events == [InvalidResponseFrame] && pending == old(pending) && nextId == old(nextId)
                     && lastSymVersion == old(lastSymVersion)
                   else
                     var resp := ParseResponse(Bare, message).value;
                     if resp.invokeId !in old(pending) then
                       events == [] && pending == old(pending) && nextId == old(nextId)
                       && lastSymVersion == old(lastSymVersion)
                     else
                       && pending == old(pending) - {resp.invokeId} && nextId == old(nextId)
                       && VersionStep(old(lastSymVersion), old(pending)[resp.invokeId], resp, events)
      ensures topic != ResponseTopic(conn.namespace, conn.amsNetIdText) && topic == InfoTopic() ==>
                && events == OnlineEvents(old(lastOnline), online)
                && lastOnline == OnlineAfter(old(lastOnline), online)
                && lastSymVersion == old(lastSymVersion) && pending == old(pending) && nextId == old(nextId)
      ensures topic != ResponseTopic(conn.namespace, conn.amsNetIdText) && topic != InfoTopic() ==>
                && events == [] && lastOnline == old(lastOnline)
                && lastSymVersion == old(lastSymVersion) && pending == old(pending) && nextId == old(nextId)
    {
      if topic == ResponseTopic(conn.namespace, conn.amsNetIdText) {
        if |message| < RESPONSE_MIN {
          return [InvalidResponseFrame];
        }
        var resp := ParseResponse(Bare, message).value;
        if resp.invokeId !in pending {
          return [];
        }
        var w := pending[resp.invokeId];
        pending := pending - {resp.invokeId};
        events := OnVersion(w, resp);
      } else if topic == InfoTopic() {
        events := OnInfo(online);
      } else {
        events := [];
      }
    }

    method OnVersion(w: Waiter, resp: Response) returns (events: seq<Event>)
      modifies this
      ensures pending == old(pending) && nextId == old(nextId) && lastOnline == old(lastOnline)
      ensures VersionStep(old(lastSymVersion), w, resp, events)
    {
      if resp.result != 0 {
        return [Changed("sym_version", None, None)];
      }
      events := [];
      if resp.length >= 4 {
        if |resp.data| < 4 {
          return [Thrown];
        }
        var current := ReadU32(resp.data, 0);
        if w == OnDemand {
          events := [Current(current)];
        } else if lastSymVersion.None? {
          lastSymVersion := Some(current);
        } else if current > lastSymVersion.value {
          events := [Changed("sym_version", Some(current), lastSymVersion)];
          lastSymVersion := Some(current);
        }
      }
    }

    method OnInfo(online: Option<bool>) returns (events: seq<Event>)
      modifies this
      ensures pending == old(pending) && nextId == old(nextId) && lastSymVersion == old(lastSymVersion)
      ensures events == OnlineEvents(old(lastOnline), online)
      ensures lastOnline == OnlineAfter(old(lastOnline), online)
    {
      events := [];
      if online.Some? {
        var currentOnline := online.value;
        if lastOnline == Some(false) && currentOnline {
          events := [Changed("infoTopic", None, None)];
        }
        lastOnline := Some(currentOnline);
      }
    }

    /** The timer's tick: a poll. */
    method Tick() returns (events: seq<Event>)
      requires Valid()
      modifies this
      ensures Valid()
      ensures var id := WireInvokeId(old(nextId));
        && nextId == old(nextId) + 1 && (old(nextId) < 0x1_0000_0000 ==> id !in old(pending))
        && pending == old(pending)[id := Poll]
        && lastSymVersion == old(lastSymVersion) && lastOnline == old(lastOnline)
        && events == [Published(RequestTopic(conn.namespace, conn.targetText),
                                ReadFrame(conn, id, ReadArgs(ADSIGRP_SYM_VERSION, 0, SYM_VERSION_LENGTH)))]
    {
      events := ReadSymVersion(Poll);
    }
  }
}
