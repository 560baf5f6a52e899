/** The OTA part of tools/helpers/images.py: get, validate, replace. A download is an arbitrary
    archive, SHA-256 an arbitrary function on archives. */
module OtaUpdate {
  import opened Strings

  type Archive = string
  type Digest = string

  datatype Build = Build(datetime: int, id: Digest)

  /** What a channel answers: an HTTP status other than 200, or its list of builds. */
  datatype Reply = Status(code: int) | Response(builds: seq<Build>)

  /** An archive put into the image directory, and the channel response fetched in that step. */
  datatype Extraction = Extraction(archive: Archive, builds: seq<Build>)

  /** One of the two images: its datetime in the saved config, and what was ever extracted for it. */
  datatype ImageState = ImageState(time: int, log: seq<Extraction>)

  datatype Outcome = Done | Raised

  function FirstNewer(builds: seq<Build>, time: int): Option<Build> {
    if builds == [] then None
    else if builds[0].datetime > time then Some(builds[0])
    else FirstNewer(builds[1..], time)
  }

  predicate Listed(sha: Archive -> Digest, archive: Archive, builds: seq<Build>) {
    exists b :: b in builds && b.id == sha(archive)
  }

  predicate HasBuilds(reply: Reply) { reply.Response? && reply.builds != [] }

  // ----- one step for one image -----

  /** `get`, with `zip` as what the network delivers for the first newer build, if anything. A delivery
      that is missing or has another hash changes nothing and raises; a good one is extracted, and
      then recorded, unless something raises on the way. A `Done` run did all of it. */
  ghost predicate GetStep(sha: Archive -> Digest, reply: Reply, zip: Option<Archive>,
                          s: ImageState, s1: ImageState, r: Outcome) {
    match reply
    case Status(_) => s1 == s && r.Raised?
    case Response(builds) =>
      match FirstNewer(builds, s.time)
      case None => s1 == s && (builds == [] ==> r.Raised?)
      case Some(b) =>
        if zip.None? || sha(zip.value) != b.id then s1 == s && r.Raised?
        else (s1 == s && r.Raised?) || Extracted(b, builds, zip.value, s, s1, r)
  }

  ghost predicate Extracted(b: Build, builds: seq<Build>, zip: Archive, s: ImageState, s1: ImageState, r: Outcome) {
    && s1.log == s.log + [Extraction(zip, builds)]
    && (s1.time == b.datetime || (s1.time == s.time && r.Raised?))
  }

  /** What a whole run of `get` meets and how it ends: what the network delivers for either image, the
      outcome of the system step, of the vendor step, and of the run. */
  datatype Attempt = Attempt(systemZip: Option<Archive>, vendorZip: Option<Archive>,
                             system: Outcome, vendor: Outcome, whole: Outcome)

  /** The system image first, then, if that did not raise, the vendor image. */
  ghost predicate GetVia(sha: Archive -> Digest, systemReply: Reply, vendorReply: Reply, a: Attempt,
                         s: ImageState, v: ImageState, s1: ImageState, v1: ImageState) {
    && GetStep(sha, systemReply, a.systemZip, s, s1, a.system)
    && if a.system.Raised? then v1 == v && a.whole.Raised?
       else GetStep(sha, vendorReply, a.vendorZip, v, v1, a.vendor) && (a.whole.Done? ==> a.vendor.Done?)
  }

  /** `replace`: an archive that is absent or not listed changes nothing; a listed one is
      extracted and its time recorded, unless something raises on the way. */
  ghost predicate ReplaceStep(sha: Archive -> Digest, zip: Option<Archive>, time: int, reply: Reply,
                              s: ImageState, s1: ImageState, r: Outcome) {
    if zip.None? || reply.Status? || !Listed(sha, zip.value, reply.builds) then s1 == s
    else
      || (r.Raised? && s1 == s)
      || (&& s1.log == s.log + [Extraction(zip.value, reply.builds)]
          && (s1.time == time || (s1.time == s.time && r.Raised?)))
  }

  class Updater {
    const sha: Archive -> Digest
    var system: ImageState
    var vendor: ImageState
    /** How many downloads and file operations have failed so far, deliveries with the wrong hash
        included. */
    var failures: nat

    constructor (sha: Archive -> Digest, system: ImageState, vendor: ImageState)
      ensures this.sha == sha && this.system == system && this.vendor == vendor && failures == 0
    {
      this.sha, this.system, this.vendor, failures := sha, system, vendor, 0;
    }

    /** `systemZip` and `vendorZip` are what the network delivers if it is asked. */
    method Get(systemReply: Reply, systemZip: Option<Archive>, vendorReply: Reply, vendorZip: Option<Archive>)
      returns (r: Outcome)
      modifies this
      ensures exists r1, r2 :: GetVia(sha, systemReply, vendorReply, Attempt(systemZip, vendorZip, r1, r2, r),
                                      old(system), old(vendor), system, vendor)
      ensures failures == old(failures) ==> (r.Done? <==> HasBuilds(systemReply) && HasBuilds(vendorReply))
    {
      ghost var s0, v0 := system, vendor;
      var r1, r2;
      system, r1 := GetImage(systemReply, systemZip, system);
      if r1.Raised? {
        assert GetVia(sha, systemReply, vendorReply, Attempt(systemZip, vendorZip, r1, r1, Raised),
                      s0, v0, system, vendor);
        return Raised;
      }
      vendor, r2 := GetImage(vendorReply, vendorZip, vendor);
      r := r2;
      if r.Done? {
        var ok := Try("remove_overlay");
        if !ok { r := Raised; }
      }
      assert GetVia(sha, systemReply, vendorReply, Attempt(systemZip, vendorZip, r1, r2, r), s0, v0, system, vendor);
    }

    /** Extracting, saving, removing. */
    method Try(operation: string) returns (ok: bool)
      modifies this`failures
      ensures failures == old(failures) + if ok then 0 else 1
    {
      ok := *;
      if !ok { failures := failures + 1; }
    }

    /** The same lines are written out once for each image. */
    method GetImage(reply: Reply, delivery: Option<Archive>, s: ImageState) returns (s1: ImageState, r: Outcome)
      modifies this`failures
      ensures GetStep(sha, reply, delivery, s, s1, r)
      ensures failures >= old(failures) && (failures == old(failures) ==> (r.Done? <==> HasBuilds(reply)))
    {
      s1 := s;
      if reply.Status? || |reply.builds| < 1 { return s1, Raised; }
      var builds := reply.builds;
      for i := 0 to |builds|
        invariant s1 == s && FirstNewer(builds, s.time) == FirstNewer(builds[i..], s.time)
        invariant failures == old(failures)
      {
        if builds[i].datetime > s.time {
          assert FirstNewer(builds, s.time) == Some(builds[i]);
          if delivery.None? || sha(delivery.value) != builds[i].id {
            failures := failures + 1;
            return s1, Raised;
          }
          var ok := Try("ZipFile");
          if !ok { return s1, Raised; }
          s1 := s.(log := s.log + [Extraction(delivery.value, builds)]);
          ok := Try("extractall, config.save");
          if !ok { return s1, Raised; }
          s1 := s1.(time := builds[i].datetime);
          ok := Try("os.remove");
          return s1, if ok then Done else Raised;
        }
        assert builds[i..][1..] == builds[i + 1..];
      }
      return s1, Done;
    }

    method Validate(reply: Reply, zip: Archive) returns (ok: bool)
      ensures ok <==> reply.Response? && Listed(sha, zip, reply.builds)
    {
      if reply.Status? { return false; }
      for i := 0 to |reply.builds|
        invariant forall j :: 0 <= j < i ==> reply.builds[j].id != sha(zip)
      {
        if sha(zip) == reply.builds[i].id { return true; }
      }
      return false;
    }

    method Replace(systemZip: Option<Archive>, systemTime: int, systemReply: Reply,
                   vendorZip: Option<Archive>, vendorTime: int, vendorReply: Reply)
      returns (r: Outcome)
      modifies this
      ensures ReplaceStep(sha, systemZip, systemTime, systemReply, old(system), system, r)
      ensures ReplaceStep(sha, vendorZip, vendorTime, vendorReply, old(vendor), vendor, r)
      ensures failures >= old(failures) && (r.Done? <==> failures == old(failures))
      ensures var systemOk := systemZip.Some? && systemReply.Response?
                              && Listed(sha, systemZip.value, systemReply.builds);
              var vendorOk := vendorZip.Some? && vendorReply.Response?
                              && Listed(sha, vendorZip.value, vendorReply.builds);
              || (system.time == old(system).time && vendor.time == old(vendor).time)
              || (&& system.time == (if systemOk then systemTime else old(system).time)
                  && vendor.time == (if vendorOk then vendorTime else old(vendor).time)
                  && (systemOk ==> |system.log| == |old(system).log| + 1)
                  && (vendorOk ==> |vendor.log| == |old(vendor).log| + 1))
    {
      // the config is changed in memory and saved once, at the end
      var newSystem, newVendor := system.time, vendor.time;
      if systemZip.Some? {
        var ok, done;
        system, ok, done := ReplaceImage(systemZip.value, systemReply, system);
        if !done { return Raised; }
        if ok { newSystem := systemTime; }
      }
      if vendorZip.Some? {
        var ok, done;
        vendor, ok, done := ReplaceImage(vendorZip.value, vendorReply, vendor);
        if !done { return Raised; }
        if ok { newVendor := vendorTime; }
      }
      var saved := Try("config.save");
      if !saved { return Raised; }
      system, vendor := system.(time := newSystem), vendor.(time := newVendor);
      var removed := Try("remove_overlay");
      r := if removed then Done else Raised;
    }

    /** The block that is written out once for each archive: `ok` if it is listed, `done`
        unless something raised. */
    method ReplaceImage(zip: Archive, reply: Reply, s: ImageState) returns (s1: ImageState, ok: bool, done: bool)
      modifies this`failures
      ensures ok <==> reply.Response? && Listed(sha, zip, reply.builds)
      ensures s1 == s || (ok && s1 == s.(log := s.log + [Extraction(zip, reply.builds)]))
      ensures done && ok ==> s1 != s
      ensures failures >= old(failures) && (done <==> failures == old(failures))
    {
      s1 := s;
      ok := Validate(reply, zip);
      if ok {
        var readable := Try("ZipFile");
        if !readable { return s1, ok, false; }
        s1 := s.(log := s.log + [Extraction(zip, reply.builds)]);
        var extracted := Try("extractall");
        if !extracted { return s1, ok, false; }
      }
      done := Try("os.remove");
    }
  }

  // ----- integrity -----

  /** Every archive ever extracted has a SHA-256 listed in the response fetched in that step. */
  ghost predicate Verified(sha: Archive -> Digest, s: ImageState) {
    forall e :: e in s.log ==> Listed(sha, e.archive, e.builds)
  }

  datatype Event =
    | Got(reply: Reply, zip: Option<Archive>, r: Outcome)
    | Replaced(zip: Option<Archive>, time: int, reply: Reply, r: Outcome)

  ghost predicate Step(sha: Archive -> Digest, e: Event, s: ImageState, s1: ImageState) {
    match e
    case Got(reply, zip, r) => GetStep(sha, reply, zip, s, s1, r)
    case Replaced(zip, time, reply, r) => ReplaceStep(sha, zip, time, reply, s, s1, r)
  }

  ghost predicate History(sha: Archive -> Digest, es: seq<Event>, ss: seq<ImageState>) {
    |ss| == |es| + 1 && forall i :: 0 <= i < |es| ==> Step(sha, es[i], ss[i], ss[i + 1])
  }

  lemma {:induction false} FirstNewerIsFirst(builds: seq<Build>, time: int)
    ensures match FirstNewer(builds, time)
            case None => forall b :: b in builds ==> b.datetime <= time
            case Some(b) => exists i :: 0 <= i < |builds| && builds[i] == b && b.datetime > time
                                        && forall j :: 0 <= j < i ==> builds[j].datetime <= time
  {
    if builds != [] {
      FirstNewerIsFirst(builds[1..], time);
      if builds[0].datetime <= time {
        match FirstNewer(builds[1..], time)
        case None =>
        case Some(b) =>
          var i :| 0 <= i < |builds[1..]| && builds[1..][i] == b
                   && forall j :: 0 <= j < i ==> builds[1..][j].datetime <= time;
          forall j | 0 <= j < i + 1 ensures builds[j].datetime <= time {
            if j > 0 { assert builds[j] == builds[1..][j - 1]; }
          }
          assert builds[i + 1] == b;
      }
    }
  }

  /** Over any interleaving of get and replace, with any failures, nothing unlisted is extracted. */
  lemma {:induction false} NothingUnlistedExtracted(sha: Archive -> Digest, es: seq<Event>, ss: seq<ImageState>)
    requires History(sha, es, ss) && Verified(sha, ss[0])
    ensures Verified(sha, ss[|es|])
    ensures ss[0].log <= ss[|es|].log
  {
    if es != [] {
      var n := |es| - 1;
      assert History(sha, es[..n], ss[..n + 1]);
      NothingUnlistedExtracted(sha, es[..n], ss[..n + 1]);
      var s, s1 := ss[n], ss[n + 1];
      assert Step(sha, es[n], s, s1);
      if es[n].Got? && es[n].reply.Response? {
        FirstNewerIsFirst(es[n].reply.builds, s.time);
      }
    }
  }

  /** The archive of the event, if there is one, has the hash that is asked for: by `get` that of the
      first build newer than the recorded datetime, by `replace` any that the channel lists. */
  ghost predicate Passes(sha: Archive -> Digest, e: Event, time: int) {
    && e.zip.Some? && e.reply.Response?
    && match e
       case Got(reply, zip, _) =>
         var newer := FirstNewer(reply.builds, time);
         newer.Some? && newer.value.id == sha(zip.value)
       case Replaced(zip, _, reply, _) => Listed(sha, zip.value, reply.builds)
  }

  /** A step that did not raise moves the image exactly if its archive passed the check. A step whose
      archive did not pass moves nothing however it ends, and a delivery for `get` that did not pass
      raises; a step that moves adds just this archive, with the datetime meant for it or the old one. */
  lemma {:induction false} MovesIffPassed(sha: Archive -> Digest, e: Event, s: ImageState, s1: ImageState)
    requires Step(sha, e, s, s1)
    ensures s1 != s ==> Passes(sha, e, s.time)
    ensures e.r.Done? ==> (s1 != s <==> Passes(sha, e, s.time))
    ensures e.r.Done? && s1 != s ==>
              s1.time == if e.Got? then FirstNewer(e.reply.builds, s.time).value.datetime else e.time
    ensures s1 != s ==>
              && s1.log == s.log + [Extraction(e.zip.value, e.reply.builds)]
              && (s1.time == s.time
                  || s1.time == if e.Got? then FirstNewer(e.reply.builds, s.time).value.datetime else e.time)
    ensures e.Got? && e.reply.Response? && FirstNewer(e.reply.builds, s.time).Some? && !Passes(sha, e, s.time) ==>
              s1 == s && e.r.Raised?
  {
    assert s1 == s ==> |s1.log| == |s.log|;
  }

  /** Over any history: while no archive passes its check, neither the image nor its datetime moves;
      and whatever was put into the image directory since then was the archive of a step in which it
      passed, at the datetime recorded then, each such step adding one. */
  lemma {:induction false} OnlyPassedChecksMove(sha: Archive -> Digest, es: seq<Event>, ss: seq<ImageState>)
    requires History(sha, es, ss)
    ensures (forall i :: 0 <= i < |es| ==> !Passes(sha, es[i], ss[i].time)) ==> ss[|es|] == ss[0]
    ensures ss[|es|].log == ss[0].log + Accepted(es, ss)
    ensures forall i :: 0 <= i < |es| && ss[i + 1] != ss[i] ==> Passes(sha, es[i], ss[i].time)
  {
    forall i | 0 <= i < |es| ensures ss[i + 1] != ss[i] ==> Passes(sha, es[i], ss[i].time) {
      MovesIffPassed(sha, es[i], ss[i], ss[i + 1]);
    }
    if forall i :: 0 <= i < |es| ==> !Passes(sha, es[i], ss[i].time) {
      StandsStill(ss);
    }
    LogIsAccepted(sha, es, ss);
  }

  lemma {:induction false} StandsStill(ss: seq<ImageState>)
    requires ss != [] && forall i :: 0 <= i < |ss| - 1 ==> ss[i + 1] == ss[i]
    ensures ss[|ss| - 1] == ss[0]
  {
    if |ss| > 1 { StandsStill(ss[..|ss| - 1]); }
  }

  lemma {:induction false} LogIsAccepted(sha: Archive -> Digest, es: seq<Event>, ss: seq<ImageState>)
    requires History(sha, es, ss)
    ensures ss[|es|].log == ss[0].log + Accepted(es, ss)
  {
    if es == [] {
      assert ss[0].log + [] == ss[0].log;
    } else {
      var n := |es| - 1;
      assert History(sha, es[..n], ss[..n + 1]);
      LogIsAccepted(sha, es[..n], ss[..n + 1]);
      MovesIffPassed(sha, es[n], ss[n], ss[n + 1]);
    }
  }

  /** The archives of the steps that moved the image, in order. */
  ghost function Accepted(es: seq<Event>, ss: seq<ImageState>): seq<Extraction>
    requires |ss| == |es| + 1
  {
    if es == [] then []
    else
      var n := |es| - 1;
      Accepted(es[..n], ss[..n + 1])
      + if ss[n + 1] != ss[n] && es[n].zip.Some? && es[n].reply.Response?
        then [Extraction(es[n].zip.value, es[n].reply.builds)] else []
  }

  // ----- progress -----

  /** The distinct datetimes that the channel has after `time`. */
  function Newer(builds: seq<Build>, time: int): set<int> {
    set b | b in builds && b.datetime > time :: b.datetime
  }

  /** What one image goes through in any number of `get` runs against one channel response. */
  ghost predicate GetRuns(sha: Archive -> Digest, builds: seq<Build>, zips: seq<Option<Archive>>, rs: seq<Outcome>,
                          ss: seq<ImageState>) {
    |zips| == |rs| && |ss| == |rs| + 1
    && forall i :: 0 <= i < |rs| ==> GetStep(sha, Response(builds), zips[i], ss[i], ss[i + 1], rs[i])
  }

  lemma GetStepProgress(sha: Archive -> Digest, builds: seq<Build>, zip: Option<Archive>,
                        s: ImageState, s1: ImageState, r: Outcome)
    requires GetStep(sha, Response(builds), zip, s, s1, r)
    ensures s.time <= s1.time && Newer(builds, s1.time) <= Newer(builds, s.time)
    ensures s1.time != s.time ==> s1.time in Newer(builds, s.time) && |s1.log| == |s.log| + 1
    ensures r.Done? ==> s1.time != s.time || Newer(builds, s.time) == {}
    ensures |s.log| <= |s1.log| <= |s.log| + 1
  {
    FirstNewerIsFirst(builds, s.time);
    match FirstNewer(builds, s.time)
    case None =>
    case Some(b) => assert b in builds && b.datetime in Newer(builds, s.time);
  }

  /** How often the recorded datetime moved. */
  ghost function Moves(ss: seq<ImageState>): nat {
    if |ss| < 2 then 0
    else Moves(ss[..|ss| - 1]) + if ss[|ss| - 1].time != ss[|ss| - 2].time then 1 else 0
  }

  /** How often an archive was extracted but its datetime not recorded, because extracting or
      saving the config raised. */
  ghost function Unrecorded(ss: seq<ImageState>): nat {
    if |ss| < 2 then 0
    else
      var s, s1 := ss[|ss| - 2], ss[|ss| - 1];
      Unrecorded(ss[..|ss| - 1]) + if s1.time == s.time && |s1.log| > |s.log| then 1 else 0
  }

  /** Over any `get` runs against one response: the datetime never decreases and is one the channel
      lists if it moved; it moves at most as often as the channel has distinct newer datetimes; and
      there are exactly as many extractions as moves and failed recordings together. */
  lemma {:induction false} GetRunsProgress(sha: Archive -> Digest, builds: seq<Build>, zips: seq<Option<Archive>>,
                                           rs: seq<Outcome>, ss: seq<ImageState>)
    requires GetRuns(sha, builds, zips, rs, ss)
    ensures var s, s1 := ss[0], ss[|rs|];
            && s.time <= s1.time
            && (s1.time == s.time || s1.time in Newer(builds, s.time))
            && Moves(ss) + |Newer(builds, s1.time)| <= |Newer(builds, s.time)|
            && |s1.log| == |s.log| + Moves(ss) + Unrecorded(ss)
  {
    if rs != [] {
      var n := |rs| - 1;
      assert GetRuns(sha, builds, zips[..n], rs[..n], ss[..n + 1]);
      GetRunsProgress(sha, builds, zips[..n], rs[..n], ss[..n + 1]);
      GetStepProgress(sha, builds, zips[n], ss[n], ss[n + 1], rs[n]);
      assert ss[..|ss| - 1] == ss[..n + 1];
      NewerShrinks(builds, ss[n].time, ss[n + 1].time);
    }
  }

  /** No build is installed twice exactly as long as every extraction is recorded: what is extracted
      beyond the distinct newer datetimes is the failed recordings and nothing else. */
  lemma EveryInstallIsNewIff(sha: Archive -> Digest, builds: seq<Build>, zips: seq<Option<Archive>>,
                             rs: seq<Outcome>, ss: seq<ImageState>)
    requires GetRuns(sha, builds, zips, rs, ss)
    ensures |ss[|rs|].log| - |ss[0].log| == Moves(ss) <==>
            forall i :: 0 <= i < |rs| && |ss[i + 1].log| > |ss[i].log| ==> ss[i + 1].time > ss[i].time
  {
    GetRunsProgress(sha, builds, zips, rs, ss);
    UnrecordedIsZeroIff(ss);
    forall i | 0 <= i < |rs| ensures ss[i].time <= ss[i + 1].time {
      GetStepProgress(sha, builds, zips[i], ss[i], ss[i + 1], rs[i]);
    }
  }

  lemma {:induction false} UnrecordedIsZeroIff(ss: seq<ImageState>)
    ensures Unrecorded(ss) == 0 <==>
            forall i :: 0 <= i < |ss| - 1 && |ss[i + 1].log| > |ss[i].log| ==> ss[i + 1].time != ss[i].time
  {
    if |ss| >= 2 {
      var n, init := |ss| - 1, ss[..|ss| - 1];
      UnrecordedIsZeroIff(init);
      assert forall i :: 0 <= i < n ==> init[i] == ss[i];
      assert (forall i :: 0 <= i < n && |ss[i + 1].log| > |ss[i].log| ==> ss[i + 1].time != ss[i].time) <==>
             (|ss[n].log| > |ss[n - 1].log| ==> ss[n].time != ss[n - 1].time)
             && forall i :: 0 <= i < n - 1 && |init[i + 1].log| > |init[i].log| ==> init[i + 1].time != init[i].time;
    }
  }

  lemma NewerShrinks(builds: seq<Build>, t: int, t1: int)
    requires t1 == t || t1 in Newer(builds, t)
    ensures |Newer(builds, t1)| + (if t1 == t then 0 else 1) <= |Newer(builds, t)|
  {
    if t1 != t {
      SubsetSize(Newer(builds, t1), Newer(builds, t) - {t1});
    }
  }

  lemma {:induction false} SubsetSize<T>(a: set<T>, b: set<T>)
    requires a <= b
    ensures |a| <= |b|
  {
    if a != {} {
      var x :| x in a;
      SubsetSize(a - {x}, b - {x});
    }
  }

  ghost predicate IsMax(builds: seq<Build>, t: int, m: int) {
    && (m == t || exists b :: b in builds && b.datetime == m)
    && t <= m && forall b :: b in builds ==> b.datetime <= m
  }

  /** Completed runs get to the newest datetime, in at most as many runs as there are newer ones. */
  lemma {:induction false} CompletedRunsReachMax(sha: Archive -> Digest, builds: seq<Build>, zips: seq<Option<Archive>>,
                                                 rs: seq<Outcome>, ss: seq<ImageState>)
    requires GetRuns(sha, builds, zips, rs, ss) && forall i :: 0 <= i < |rs| ==> rs[i].Done?
    ensures |Newer(builds, ss[|rs|].time)| == 0
            || |Newer(builds, ss[|rs|].time)| + |rs| <= |Newer(builds, ss[0].time)|
    ensures |rs| >= |Newer(builds, ss[0].time)| ==> IsMax(builds, ss[0].time, ss[|rs|].time)
  {
    if rs != [] {
      var n := |rs| - 1;
      assert GetRuns(sha, builds, zips[..n], rs[..n], ss[..n + 1]);
      CompletedRunsReachMax(sha, builds, zips[..n], rs[..n], ss[..n + 1]);
      GetStepProgress(sha, builds, zips[n], ss[n], ss[n + 1], rs[n]);
      NewerShrinks(builds, ss[n].time, ss[n + 1].time);
    }
    GetRunsProgress(sha, builds, zips, rs, ss);
    if |rs| >= |Newer(builds, ss[0].time)| {
      NoneNewerIsMax(builds, ss[0].time, ss[|rs|].time);
    }
  }

  lemma NoneNewerIsMax(builds: seq<Build>, t: int, m: int)
    requires |Newer(builds, m)| == 0 && t <= m && (m == t || m in Newer(builds, t))
    ensures IsMax(builds, t, m)
  {
    forall b | b in builds ensures b.datetime <= m {
      assert b.datetime > m <==> b.datetime in Newer(builds, m);
    }
  }

  /** With the channel listed newest first one completed run is enough. */
  lemma NewestFirstNeedsOneRun(sha: Archive -> Digest, builds: seq<Build>, zip: Option<Archive>,
                               s: ImageState, s1: ImageState)
    requires GetStep(sha, Response(builds), zip, s, s1, Done)
    requires forall i, j :: 0 <= i < j < |builds| ==> builds[i].datetime >= builds[j].datetime
    ensures IsMax(builds, s.time, s1.time)
  {
    FirstNewerIsFirst(builds, s.time);
    match FirstNewer(builds, s.time)
    case None =>
    case Some(b) =>
      var i :| 0 <= i < |builds| && builds[i] == b && forall j :: 0 <= j < i ==> builds[j].datetime <= s.time;
      assert builds[0].datetime >= builds[i].datetime;
  }

  // ----- whole runs, both images -----

  /** Any number of whole `get` runs against one response of either channel. */
  ghost predicate WholeRuns(sha: Archive -> Digest, systemBuilds: seq<Build>, vendorBuilds: seq<Build>,
                            runs: seq<Attempt>, ss: seq<ImageState>, vs: seq<ImageState>) {
    |ss| == |runs| + 1 && |vs| == |runs| + 1
    && forall i :: 0 <= i < |runs| ==>
         GetVia(sha, Response(systemBuilds), Response(vendorBuilds), runs[i], ss[i], vs[i], ss[i + 1], vs[i + 1])
  }

  function SystemZips(runs: seq<Attempt>): seq<Option<Archive>> {
    seq(|runs|, i requires 0 <= i < |runs| => runs[i].systemZip)
  }

  function SystemOutcomes(runs: seq<Attempt>): seq<Outcome> {
    seq(|runs|, i requires 0 <= i < |runs| => runs[i].system)
  }

  /** Where the system step raised, the vendor image gets no delivery. */
  function VendorZips(runs: seq<Attempt>): seq<Option<Archive>> {
    seq(|runs|, i requires 0 <= i < |runs| => if runs[i].system.Raised? then None else runs[i].vendorZip)
  }

  function VendorOutcomes(runs: seq<Attempt>): seq<Outcome> {
    seq(|runs|, i requires 0 <= i < |runs| => if runs[i].system.Raised? then Raised else runs[i].vendor)
  }

  /** Whole runs are `get` runs for each image separately, so that all of the above holds for both;
      and whole runs that complete bring both images to their newest datetimes. */
  lemma WholeRunsProject(sha: Archive -> Digest, systemBuilds: seq<Build>, vendorBuilds: seq<Build>,
                         runs: seq<Attempt>, ss: seq<ImageState>, vs: seq<ImageState>)
    requires WholeRuns(sha, systemBuilds, vendorBuilds, runs, ss, vs)
    ensures GetRuns(sha, systemBuilds, SystemZips(runs), SystemOutcomes(runs), ss)
    ensures GetRuns(sha, vendorBuilds, VendorZips(runs), VendorOutcomes(runs), vs)
    ensures (forall i :: 0 <= i < |runs| ==> runs[i].whole.Done?) ==>
              && (|runs| >= |Newer(systemBuilds, ss[0].time)| ==> IsMax(systemBuilds, ss[0].time, ss[|runs|].time))
              && (|runs| >= |Newer(vendorBuilds, vs[0].time)| ==> IsMax(vendorBuilds, vs[0].time, vs[|runs|].time))
  {
    var systemZips, systemOutcomes := SystemZips(runs), SystemOutcomes(runs);
    var vendorZips, vendorOutcomes := VendorZips(runs), VendorOutcomes(runs);
    forall i | 0 <= i < |runs|
      ensures GetStep(sha, Response(systemBuilds), systemZips[i], ss[i], ss[i + 1], systemOutcomes[i])
      ensures GetStep(sha, Response(vendorBuilds), vendorZips[i], vs[i], vs[i + 1], vendorOutcomes[i])
    {
      assert GetVia(sha, Response(systemBuilds), Response(vendorBuilds), runs[i], ss[i], vs[i], ss[i + 1], vs[i + 1]);
    }
    if forall i :: 0 <= i < |runs| ==> runs[i].whole.Done? {
      forall i | 0 <= i < |runs| ensures systemOutcomes[i].Done? && vendorOutcomes[i].Done? {
        assert GetVia(sha, Response(systemBuilds), Response(vendorBuilds), runs[i], ss[i], vs[i], ss[i + 1], vs[i + 1]);
      }
      CompletedRunsReachMax(sha, systemBuilds, systemZips, systemOutcomes, ss);
      CompletedRunsReachMax(sha, vendorBuilds, vendorZips, vendorOutcomes, vs);
    }
  }

  /** If saving the config fails, the same build is extracted again by the next run. */
  lemma FailedSaveInstallsAgain(sha: Archive -> Digest, zip: Archive)
    ensures var builds := [Build(1, sha(zip))];
            var e := Extraction(zip, builds);
            && GetStep(sha, Response(builds), Some(zip), ImageState(0, []), ImageState(0, [e]), Raised)
            && GetStep(sha, Response(builds), Some(zip), ImageState(0, [e]), ImageState(1, [e, e]), Done)
  {
    var e := Extraction(zip, [Build(1, sha(zip))]);
    assert [e] + [e] == [e, e];
  }
}
