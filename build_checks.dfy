/** The checks on the list of builds of a new or edited update: that each
    build names a name-version-release, belongs to no other update, carries a
    candidate (or testing) tag of the right release, is one the user may push,
    is not older than the newest known build of its package, and is the only
    build of its package in the request. */
module BuildChecks {
  import opened Base
  import opened Requests
  import opened Scans

  // ---------------------------------------------------------------------------
  // validate_nvrs

  /** `get_nvr` failed, or gave an empty name, version or release. */
  predicate Malformed(parsed: Option<Nvr>)
  {
    parsed.None? || parsed.value.name == "" || parsed.value.version == "" || parsed.value.release == ""
  }

  function NvrStep(getNvr: string -> Option<Nvr>): string -> Step
  {
    build => if Malformed(getNvr(build)) then Halt(Error(Body, "builds", NotNvrFormat(build))) else Pass
  }

  /** The parse is recorded whenever `get_nvr` returns, even with an empty part. */
  function NvrRecord(getNvr: string -> Option<Nvr>): (string, BuildInfo) -> Option<BuildInfo>
  {
    (build: string, info: BuildInfo) => if getNvr(build).Some? then Some(info.(nvr := Set(getNvr(build).value))) else None
  }

  /** `validate_nvrs`: parse every build; at the first one that does not parse
      into three non-empty parts, empty the build list, report it and stop. */
  method ValidateNvrs(req: Request, getNvr: string -> Option<Nvr>)
    modifies req
    ensures var builds := BuildsOf(old(req.validated));
            var r := Run(builds, NvrStep(getNvr));
            && req.errors == old(req.errors) + r.errors
            && req.validated == (if r.errors == [] then old(req.validated)
                                 else old(req.validated)["builds" := VStrs([])])
            && req.buildinfo == Annotate(old(req.buildinfo), builds[..r.visited], NvrRecord(getNvr))
    ensures req.status == old(req.status) && req.db == old(req.db)
  {
    var found, bi := ScanNvrs(req.buildinfo, BuildsOf(req.validated), getNvr);
    req.buildinfo := bi;
    if found != [] {
      req.validated := req.validated["builds" := VStrs([])];
      req.errors := req.errors + found;
    }
  }

  /** The loop of `validate_nvrs`: the error it reports, if any, and the build
      info it leaves. */
  method ScanNvrs(bi0: map<string, BuildInfo>, builds: seq<string>, getNvr: string -> Option<Nvr>)
    returns (found: seq<Error>, bi: map<string, BuildInfo>)
    ensures var r := Run(builds, NvrStep(getNvr));
            found == r.errors && bi == Annotate(bi0, builds[..r.visited], NvrRecord(getNvr))
  {
    found, bi := [], bi0;
    RunFrom0(builds, NvrStep(getNvr));
    for i := 0 to |builds|
      invariant Run(builds, NvrStep(getNvr)) == Shift([], i, Run(builds[i..], NvrStep(getNvr)))
      invariant bi == Annotate(bi0, builds[..i], NvrRecord(getNvr))
    {
      var build := builds[i];
      RunAt(builds, NvrStep(getNvr), i);
      AnnotateNext(bi0, builds, i, NvrRecord(getNvr));
      var parsed := getNvr(build);
      if parsed.Some? {
        bi := bi[build := InfoOf(bi, build).(nvr := Set(parsed.value))];
      }
      if Malformed(parsed) {
        return [Error(Body, "builds", NotNvrFormat(build))], bi;
      }
    }
    RunDone(builds, NvrStep(getNvr), []);
    assert builds[..|builds|] == builds;
  }

  /** The check stops at the first malformed build with exactly one error naming it. */
  lemma NvrCheckStopsAtFirstMalformed(builds: seq<string>, getNvr: string -> Option<Nvr>, i: nat)
    requires i < |builds| && Malformed(getNvr(builds[i]))
    requires forall j :: 0 <= j < i ==> !Malformed(getNvr(builds[j]))
    ensures Run(builds, NvrStep(getNvr)) == Scan([Error(Body, "builds", NotNvrFormat(builds[i]))], i + 1, false)
  {
    RunHaltsAt(builds, NvrStep(getNvr), i);
  }

  /** When every build parses, nothing is reported and every build is looked at. */
  lemma NvrCheckPasses(builds: seq<string>, getNvr: string -> Option<Nvr>)
    requires forall j :: 0 <= j < |builds| ==> !Malformed(getNvr(builds[j]))
    ensures Run(builds, NvrStep(getNvr)) == Scan([], |builds|, false)
  {
    RunAllPass(builds, NvrStep(getNvr));
  }

  /** After a clean pass every build's parse is recorded, as the later checks
      expect. */
  lemma {:induction false} NvrsRecordedAfterPass(bi: map<string, BuildInfo>, builds: seq<string>,
                                                 getNvr: string -> Option<Nvr>)
    requires forall j :: 0 <= j < |builds| ==> !Malformed(getNvr(builds[j]))
    ensures var after := Annotate(bi, builds, NvrRecord(getNvr));
            && NvrsRecorded(after, builds)
            && forall k :: 0 <= k < |builds| ==> Some(after[builds[k]].nvr.value) == getNvr(builds[k])
    decreases |builds|
  {
    if builds != [] {
      var n := |builds| - 1;
      var front := builds[..n];
      var last := builds[n];
      NvrsRecordedAfterPass(bi, front, getNvr);
      var prev := Annotate(bi, front, NvrRecord(getNvr));
      var after := Annotate(bi, builds, NvrRecord(getNvr));
      assert !Malformed(getNvr(last));
      assert after == prev[last := InfoOf(prev, last).(nvr := Set(getNvr(last).value))];
      forall k | 0 <= k < |builds|
        ensures builds[k] in after && after[builds[k]].nvr.Set?
        ensures Some(after[builds[k]].nvr.value) == getNvr(builds[k])
      {
        if builds[k] != last {
          assert builds[k] == front[k];
        }
      }
    }
  }

  // ---------------------------------------------------------------------------
  // validate_builds

  /** The groups named by the `admin_packager_groups` setting. */
  function AdminGroups(setting: string): seq<string>
  {
    Split(setting)
  }

  predicate IsAdmin(user: User, adminSetting: string)
  {
    exists g :: g in user.groups && g in AdminGroups(adminSetting)
  }

  /** Editing: the update must exist, and only admins may edit a stable one. */
  function EditCheck(db: Store, edited: Value, user: User, adminSetting: string): (r: seq<Error>)
    ensures |r| <= 1
    ensures UpdateTitled(db, edited).None? ==> r == [Error(Body, "builds", CannotFindUpdate(edited))]
    ensures UpdateTitled(db, edited).Some? ==>
              (r != [] <==> !IsAdmin(user, adminSetting) && UpdateTitled(db, edited).value.status == Stable)
  {
    match UpdateTitled(db, edited)
    case None => [Error(Body, "builds", CannotFindUpdate(edited))]
    case Some(up) =>
      if !IsAdmin(user, adminSetting) && up.status == Stable then [Error(Body, "builds", CannotEditStable)] else []
  }

  /** The build is already in the database and attached to an update. */
  predicate Claimed(db: Store, nvr: string)
  {
    BuildNamed(db, nvr).Some? && BuildNamed(db, nvr).value.inUpdate
  }

  function ClaimStep(db: Store): string -> Step
  {
    nvr => if Claimed(db, nvr) then Halt(Error(Body, "builds", UpdateExists(nvr))) else Pass
  }

  /** `validate_builds`: an edit is checked against the edited update only; a
      new update must not take a build that already belongs to an update. */
  method ValidateBuilds(req: Request, user: User, adminSetting: string)
    modifies req
    ensures var edited := Get(old(req.validated), "edited");
            req.errors == old(req.errors) +
              (if Truthy(edited) then EditCheck(old(req.db), edited, user, adminSetting)
               else Run(BuildsOf(old(req.validated)), ClaimStep(old(req.db))).errors)
    ensures req.validated == old(req.validated) && req.buildinfo == old(req.buildinfo)
    ensures req.status == old(req.status) && req.db == old(req.db)
  {
    var edited := Get(req.validated, "edited");
    if Truthy(edited) {
      var up := UpdateTitled(req.db, edited);
      if up.None? {
        req.AddError(Body, "builds", CannotFindUpdate(edited));
        return;
      }
      var admin := exists g :: g in user.groups && g in AdminGroups(adminSetting);
      if !admin && up.value.status == Stable {
        req.AddError(Body, "builds", CannotEditStable);
      }
      return;
    }
    var found := ScanClaims(req.db, BuildsOf(req.validated));
    req.errors := req.errors + found;
  }

  /** The loop of `validate_builds` for a new update. */
  method ScanClaims(db: Store, builds: seq<string>) returns (found: seq<Error>)
    ensures found == Run(builds, ClaimStep(db)).errors
  {
    RunFrom0(builds, ClaimStep(db));
    for i := 0 to |builds|
      invariant Run(builds, ClaimStep(db)) == Shift([], i, Run(builds[i..], ClaimStep(db)))
    {
      RunAt(builds, ClaimStep(db), i);
      var build := BuildNamed(db, builds[i]);
      if build.Some? && build.value.inUpdate {
        return [Error(Body, "builds", UpdateExists(builds[i]))];
      }
    }
    RunDone(builds, ClaimStep(db), []);
    return [];
  }

  /** Admins may edit any update that exists, stable or not. */
  lemma AdminMayEdit(db: Store, edited: Value, user: User, adminSetting: string)
    requires IsAdmin(user, adminSetting) && UpdateTitled(db, edited).Some?
    ensures EditCheck(db, edited, user, adminSetting) == []
  {
  }

  /** A new update is refused, with one error, at the first build that already
      belongs to an update. */
  lemma ClaimCheckStopsAtFirstClaimed(db: Store, builds: seq<string>, i: nat)
    requires i < |builds| && Claimed(db, builds[i])
    requires forall j :: 0 <= j < i ==> !Claimed(db, builds[j])
    ensures Run(builds, ClaimStep(db)) == Scan([Error(Body, "builds", UpdateExists(builds[i]))], i + 1, false)
  {
    RunHaltsAt(builds, ClaimStep(db), i);
  }

  lemma ClaimCheckPasses(db: Store, builds: seq<string>)
    requires forall j :: 0 <= j < |builds| ==> !Claimed(db, builds[j])
    ensures Run(builds, ClaimStep(db)) == Scan([], |builds|, false)
  {
    RunAllPass(builds, ClaimStep(db));
  }

  // ---------------------------------------------------------------------------
  // validate_build_tags

  /** Candidate tags for a new update; candidate and testing tags for an edit. */
  function ValidTags(table: TagTable, editing: bool): seq<string>
    requires "candidate" in table.tags && "testing" in table.tags
  {
    if editing then table.tags["candidate"] + table.tags["testing"] else table.tags["candidate"]
  }

  predicate HasValidTag(tags: seq<string>, valid: seq<string>)
  {
    exists k :: 0 <= k < |tags| && tags[k] in valid
  }

  /** One build: when editing (`release` is the edited update's release), a
      build of another release stops the check, and one whose release cannot
      be inferred raises (`from_tags` raises KeyError or gives None, whose
      `.name` raises); then a build with no valid tag is reported. */
  function TagVerdict(build: string, tags: seq<string>, fromTags: seq<string> -> Inference,
                      valid: seq<string>, release: Option<Release>): Step
  {
    if release.Some? && fromTags(tags) != Inferred(release.value) then
      (if fromTags(tags).Inferred?
       then Halt(Error(Body, "builds", CrossReleaseBuild(fromTags(tags).release.name, release.value.name)))
       else Crash)
    else if HasValidTag(tags, valid) then Pass
    else Report(Error(Body, "builds", InvalidBuildTag(build, valid)))
  }

  function TagStep(koji: Koji, fromTags: seq<string> -> Inference, valid: seq<string>,
                   release: Option<Release>): string -> Step
  {
    build => TagVerdict(build, koji.listTags(build), fromTags, valid, release)
  }

  function TagRecord(koji: Koji): (string, BuildInfo) -> Option<BuildInfo>
  {
    (build: string, info: BuildInfo) => Some(info.(tags := Set(koji.listTags(build))))
  }

  /** `validate_build_tags`. Editing an update that does not exist raises
      before any build is looked at. */
  method ValidateBuildTags(req: Request, koji: Koji, fromTags: seq<string> -> Inference, table: TagTable)
    returns (outcome: Outcome)
    requires "candidate" in table.tags && "testing" in table.tags
    modifies req
    ensures var edited := Get(old(req.validated), "edited");
            Truthy(edited) && UpdateTitled(old(req.db), edited).None? ==>
              outcome == Raised && req.errors == old(req.errors) && req.buildinfo == old(req.buildinfo)
    ensures var edited := Get(old(req.validated), "edited");
            var up := UpdateTitled(old(req.db), edited);
            var builds := BuildsOf(old(req.validated));
            !(Truthy(edited) && up.None?) ==>
              var r := Run(builds, TagStep(koji, fromTags, ValidTags(table, Truthy(edited)),
                                           if Truthy(edited) then Some(up.value.release) else None));
              && req.errors == old(req.errors) + r.errors
              && outcome == (if r.crashed then Raised else Returned)
              && req.buildinfo == Annotate(old(req.buildinfo), builds[..r.visited], TagRecord(koji))
    ensures req.validated == old(req.validated) && req.status == old(req.status) && req.db == old(req.db)
  {
    var edited := Get(req.validated, "edited");
    var editing := Truthy(edited);
    var release: Option<Release> := None;
    if editing {
      var up := UpdateTitled(req.db, edited);
      if up.None? {
        return Raised;
      }
      release := Some(up.value.release);
    }
    outcome := CheckBuildTags(req, koji, fromTags, ValidTags(table, editing), release);
  }

  /** The loop of `validate_build_tags`, once the valid tags and the edited
      update's release are known. */
  method CheckBuildTags(req: Request, koji: Koji, fromTags: seq<string> -> Inference,
                        validTags: seq<string>, release: Option<Release>) returns (outcome: Outcome)
    modifies req
    ensures var builds := BuildsOf(old(req.validated));
            var r := Run(builds, TagStep(koji, fromTags, validTags, release));
            && req.errors == old(req.errors) + r.errors
            && outcome == (if r.crashed then Raised else Returned)
            && req.buildinfo == Annotate(old(req.buildinfo), builds[..r.visited], TagRecord(koji))
    ensures req.validated == old(req.validated) && req.status == old(req.status) && req.db == old(req.db)
  {
    var found, bi, crashed := ScanTags(req.buildinfo, BuildsOf(req.validated), koji, fromTags, validTags, release);
    req.errors := req.errors + found;
    req.buildinfo := bi;
    outcome := if crashed then Raised else Returned;
  }

  /** The loop of `validate_build_tags` over the builds: the errors it reports,
      the build info it leaves and whether it ended by an exception. */
  method ScanTags(bi0: map<string, BuildInfo>, builds: seq<string>, koji: Koji, fromTags: seq<string> -> Inference,
                  validTags: seq<string>, release: Option<Release>)
    returns (found: seq<Error>, bi: map<string, BuildInfo>, crashed: bool)
    ensures var r := Run(builds, TagStep(koji, fromTags, validTags, release));
            && found == r.errors && crashed == r.crashed
            && bi == Annotate(bi0, builds[..r.visited], TagRecord(koji))
  {
    ghost var step := TagStep(koji, fromTags, validTags, release);
    found, bi := [], bi0;
    RunFrom0(builds, step);
    for i := 0 to |builds|
      invariant Run(builds, step) == Shift(found, i, Run(builds[i..], step))
      invariant bi == Annotate(bi0, builds[..i], TagRecord(koji))
    {
      TagsRecordedNext(bi0, builds, i, koji);
      RunAdvance(builds, step, found, i);
      var tags := koji.listTags(builds[i]);
      bi := bi[builds[i] := InfoOf(bi, builds[i]).(tags := Set(tags))];
      var st := JudgeTags(builds[i], tags, fromTags, validTags, release);
      found := found + Emitted(st);
      if Stops(st) {
        return found, bi, st.Crash?;
      }
    }
    RunDone(builds, step, found);
    assert builds[..|builds|] == builds;
    return found, bi, false;
  }

  lemma TagsRecordedNext(bi: map<string, BuildInfo>, bs: seq<string>, i: nat, koji: Koji)
    requires i < |bs|
    ensures var prev := Annotate(bi, bs[..i], TagRecord(koji));
            Annotate(bi, bs[..i + 1], TagRecord(koji)) == prev[bs[i] := InfoOf(prev, bs[i]).(tags := Set(koji.listTags(bs[i])))]
  {
    AnnotateNext(bi, bs, i, TagRecord(koji));
  }

  /** What one build of `validate_build_tags` amounts to, given its tags. */
  method JudgeTags(build: string, tags: seq<string>, fromTags: seq<string> -> Inference,
                   validTags: seq<string>, release: Option<Release>) returns (st: Step)
    ensures st == TagVerdict(build, tags, fromTags, validTags, release)
  {
    if release.Some? {
      var buildRel := fromTags(tags);
      if buildRel != Inferred(release.value) {
        if !buildRel.Inferred? {
          return Crash;
        }
        return Halt(Error(Body, "builds", CrossReleaseBuild(buildRel.release.name, release.value.name)));
      }
    }
    var valid := AnyTagIn(tags, validTags);
    if !valid {
      return Report(Error(Body, "builds", InvalidBuildTag(build, validTags)));
    }
    return Pass;
  }

  /** The search for a valid tag, stopping at the first one found. */
  method AnyTagIn(tags: seq<string>, valid: seq<string>) returns (found: bool)
    ensures found == HasValidTag(tags, valid)
  {
    found := false;
    var k := 0;
    while k < |tags| && !found
      invariant 0 <= k <= |tags|
      invariant found <==> exists m :: 0 <= m < k && tags[m] in valid
    {
      if tags[k] in valid {
        found := true;
      }
      k := k + 1;
    }
  }

  /** For a new update every build is looked at, and a build is reported iff
      none of its tags is a candidate tag. */
  lemma NewTagCheck(builds: seq<string>, koji: Koji, fromTags: seq<string> -> Inference,
                    valid: seq<string>, b: string)
    ensures var r := Run(builds, TagStep(koji, fromTags, valid, None));
            && r.visited == |builds| && !r.crashed
            && (Error(Body, "builds", InvalidBuildTag(b, valid)) in r.errors <==>
                  b in builds && !HasValidTag(koji.listTags(b), valid))
  {
    var step := TagStep(koji, fromTags, valid, None);
    var e := Error(Body, "builds", InvalidBuildTag(b, valid));
    assert forall k :: 0 <= k < |builds| ==> !Stopper(step)(builds[k]);
    RunShape(builds, step);
    assert builds[..|builds|] == builds;
    assert Run(builds, step).errors == Reported(builds, step);
    ReportedMembers(builds, step);
    if e in Reported(builds, step) {
      var k :| 0 <= k < |builds| && step(builds[k]) == Report(e);
      assert builds[k] == b;
    }
    if b in builds && !HasValidTag(koji.listTags(b), valid) {
      var k :| 0 <= k < |builds| && builds[k] == b;
      assert step(builds[k]) == Report(e);
    }
  }

  /** Editing, the first build of another release stops the check with one
      error naming both releases, after the tag errors of the builds before it. */
  lemma EditTagCheckCrossRelease(builds: seq<string>, koji: Koji, fromTags: seq<string> -> Inference,
                                 valid: seq<string>, release: Release, i: nat)
    requires i < |builds|
    requires fromTags(koji.listTags(builds[i])).Inferred?
    requires fromTags(koji.listTags(builds[i])).release != release
    requires forall j :: 0 <= j < i ==> fromTags(koji.listTags(builds[j])) == Inferred(release)
    ensures var step := TagStep(koji, fromTags, valid, Some(release));
            var other := fromTags(koji.listTags(builds[i])).release;
            Run(builds, step) ==
              Scan(Reported(builds[..i], step) + [Error(Body, "builds", CrossReleaseBuild(other.name, release.name))],
                   i + 1, false)
  {
    var step := TagStep(koji, fromTags, valid, Some(release));
    RunShape(builds, step);
    assert forall j :: 0 <= j < i ==> !Stopper(step)(builds[j]);
    assert Stopper(step)(builds[i]);
    FirstIndexAt(builds, Stopper(step), i);
  }

  // ---------------------------------------------------------------------------
  // validate_acls

  /** Each build's tags are recorded, as `validate_build_tags` leaves them. */
  predicate TagsRecorded(buildinfo: map<string, BuildInfo>, builds: seq<string>)
  {
    forall k :: 0 <= k < |builds| ==> builds[k] in buildinfo && buildinfo[builds[k]].tags.Set?
  }

  /** The committers and groups a build is checked against, and the people
      recorded for it. */
  datatype AccessLists = AccessLists(committers: seq<string>, groups: seq<string>, people: Option<People>)

  const DummyPeople := People(["ralph", "guest"], ["guest"])

  /** With the package database, its pushers; in dummy mode the fixed people,
      and no group, since there `groups` is a pair of lists that no group name
      equals; with no ACL system, nobody. */
  function AccessFor(acl: AclSystem, found: Option<Pushers>): AccessLists
  {
    match acl
    case PackageDb =>
      if found.Some? then AccessLists(found.value.people.committers, found.value.groups, Some(found.value.people))
      else AccessLists([], [], None)
    case DummyAcl => AccessLists(DummyPeople.committers, [], Some(DummyPeople))
    case NoAclSystem => AccessLists([], [], None)
  }

  /** A committer, a member of a group with access, or a member of an admin group. */
  predicate HasAccess(user: User, lists: AccessLists, adminSetting: string)
  {
    user.name in lists.committers || (exists g :: g in user.groups && g in lists.groups) || IsAdmin(user, adminSetting)
  }

  /** One build of `validate_acls`, given the nvr and tags recorded for it. A
      missing entry raises KeyError. The package database is asked only in
      `pkgdb` mode. */
  function AclVerdict(build: string, nvr: Slot<Nvr>, tags: Slot<seq<string>>, user: User, adminSetting: string,
                      acl: AclSystem, fromTags: seq<string> -> Inference,
                      pushers: (string, string) -> Option<Pushers>): Step
  {
    if nvr.Unset? || tags.Unset? then Crash
    else match fromTags(tags.value)
      case InferenceKeyError => Halt(Error(Body, "builds", CannotDetermineRelease(build)))
      case NoRelease => Halt(Error(Body, "builds", NoReleaseForTags(tags.value)))
      case Inferred(release) =>
        var found := if acl.PackageDb? then pushers(nvr.value.name, release.branch) else None;
        if acl.PackageDb? && found.None? then Halt(Error(Body, "builds", PackageDbUnavailable))
        else if HasAccess(user, AccessFor(acl, found), adminSetting) then Pass
        else Report(Error(Body, "builds", NoCommitAccess(user.name, nvr.value.name)))
  }

  /** What one build of `validate_acls` writes into its info: the release once
      it is determined, and the people once the ACL lookup succeeds. */
  function AclWrite(info: BuildInfo, acl: AclSystem, fromTags: seq<string> -> Inference,
                    pushers: (string, string) -> Option<Pushers>): Option<BuildInfo>
  {
    if info.nvr.Unset? || info.tags.Unset? then None
    else match fromTags(info.tags.value)
      case InferenceKeyError => None
      case NoRelease => Some(info.(release := Set(None)))
      case Inferred(release) =>
        var found := if acl.PackageDb? then pushers(info.nvr.value.name, release.branch) else None;
        if acl.PackageDb? && found.None? then Some(info.(release := Set(Some(release))))
        else Some(info.(release := Set(Some(release)), people := Set(AccessFor(acl, found).people)))
  }

  function AclStep(bi: map<string, BuildInfo>, user: User, adminSetting: string, acl: AclSystem,
                   fromTags: seq<string> -> Inference, pushers: (string, string) -> Option<Pushers>): string -> Step
  {
    build => AclVerdict(build, InfoOf(bi, build).nvr, InfoOf(bi, build).tags, user, adminSetting, acl, fromTags, pushers)
  }

  function AclRecord(acl: AclSystem, fromTags: seq<string> -> Inference,
                     pushers: (string, string) -> Option<Pushers>): (string, BuildInfo) -> Option<BuildInfo>
  {
    (build: string, info: BuildInfo) => AclWrite(info, acl, fromTags, pushers)
  }

  /** `Package.get(name)`, adding the package when there is none. */
  function GetOrCreate(db: Store, name: string): Store
  {
    if PackageNamed(db, name).Some? then db else db.(packages := db.packages + [Package(name)])
  }

  /** The package lookup of one build, made once its nvr has been read. */
  function PackageFor(db: Store, nvr: Slot<Nvr>): Store
  {
    if nvr.Set? then GetOrCreate(db, nvr.value.name) else db
  }

  /** The database after the packages of the builds `bs` were looked up in order. */
  function CreatePackages(db: Store, bi: map<string, BuildInfo>, bs: seq<string>): Store
    decreases |bs|
  {
    if bs == [] then db
    else PackageFor(CreatePackages(db, bi, bs[..|bs| - 1]), InfoOf(bi, bs[|bs| - 1]).nvr)
  }

  /** `validate_acls`: every build's package is looked up or created, its
      release determined and its people recorded; a build whose release or
      pushers cannot be found stops the check, and a build the user may not
      push is reported without stopping it. */
  method ValidateAcls(req: Request, user: User, adminSetting: string, acl: AclSystem,
                      fromTags: seq<string> -> Inference, pushers: (string, string) -> Option<Pushers>)
    returns (outcome: Outcome)
    modifies req
    ensures var builds := BuildsOf(old(req.validated));
            var r := Run(builds, AclStep(old(req.buildinfo), user, adminSetting, acl, fromTags, pushers));
            && req.errors == old(req.errors) + r.errors
            && outcome == (if r.crashed then Raised else Returned)
            && req.buildinfo == Annotate(old(req.buildinfo), builds[..r.visited], AclRecord(acl, fromTags, pushers))
            && req.db == CreatePackages(old(req.db), old(req.buildinfo), builds[..r.visited])
    ensures req.validated == old(req.validated) && req.status == old(req.status)
  {
    var found, bi, db, crashed := ScanAcls(req.buildinfo, req.db, BuildsOf(req.validated),
                                           user, adminSetting, acl, fromTags, pushers);
    req.errors := req.errors + found;
    req.buildinfo := bi;
    req.db := db;
    outcome := if crashed then Raised else Returned;
  }

  /** The loop of `validate_acls` over the builds: the errors it reports, the
      build info and database it leaves, and whether it ended by an exception. */
  method ScanAcls(bi0: map<string, BuildInfo>, db0: Store, builds: seq<string>, user: User, adminSetting: string,
                  acl: AclSystem, fromTags: seq<string> -> Inference, pushers: (string, string) -> Option<Pushers>)
    returns (found: seq<Error>, bi: map<string, BuildInfo>, db: Store, crashed: bool)
    ensures var r := Run(builds, AclStep(bi0, user, adminSetting, acl, fromTags, pushers));
            && found == r.errors && crashed == r.crashed
            && bi == Annotate(bi0, builds[..r.visited], AclRecord(acl, fromTags, pushers))
            && db == CreatePackages(db0, bi0, builds[..r.visited])
  {
    ghost var step := AclStep(bi0, user, adminSetting, acl, fromTags, pushers);
    found, bi, db := [], bi0, db0;
    RunFrom0(builds, step);
    assert builds[..0] == [];
    for i := 0 to |builds|
      invariant Run(builds, step) == Shift(found, i, Run(builds[i..], step))
      invariant bi == Annotate(bi0, builds[..i], AclRecord(acl, fromTags, pushers))
      invariant db == CreatePackages(db0, bi0, builds[..i])
    {
      var build := builds[i];
      AclRecordKeeps(bi0, builds[..i], acl, fromTags, pushers, build);
      AnnotateNext(bi0, builds, i, AclRecord(acl, fromTags, pushers));
      CreatePackagesNext(db0, bi0, builds, i);
      RunAdvance(builds, step, found, i);
      var st, write;
      st, db, write := AclBuild(db, InfoOf(bi, build), build, user, adminSetting, acl, fromTags, pushers);
      if write.Some? {
        bi := bi[build := write.value];
      }
      found := found + Emitted(st);
      if Stops(st) {
        return found, bi, db, st.Crash?;
      }
    }
    RunDone(builds, step, found);
    assert builds[..|builds|] == builds;
    return found, bi, db, false;
  }

  /** One iteration of `validate_acls`, given the build's info: its verdict,
      the database after its package lookup, and what it writes into its info. */
  method AclBuild(db0: Store, info: BuildInfo, build: string, user: User, adminSetting: string, acl: AclSystem,
                  fromTags: seq<string> -> Inference, pushers: (string, string) -> Option<Pushers>)
    returns (st: Step, db: Store, write: Option<BuildInfo>)
    ensures st == AclVerdict(build, info.nvr, info.tags, user, adminSetting, acl, fromTags, pushers)
    ensures db == PackageFor(db0, info.nvr)
    ensures write == AclWrite(info, acl, fromTags, pushers)
  {
    db := db0;
    if info.nvr.Unset? {
      return Crash, db, None;
    }
    var name := info.nvr.value.name;
    if PackageNamed(db, name).None? {
      db := db.(packages := db.packages + [Package(name)]);
    }
    if info.tags.Unset? {
      return Crash, db, None;
    }
    var tags := info.tags.value;
    var inferred := fromTags(tags);
    if inferred.InferenceKeyError? {
      return Halt(Error(Body, "builds", CannotDetermineRelease(build))), db, None;
    }
    if inferred.NoRelease? {
      return Halt(Error(Body, "builds", NoReleaseForTags(tags))), db, Some(info.(release := Set(None)));
    }
    var release := inferred.release;
    var lists: AccessLists;
    if acl.PackageDb? {
      var found := pushers(name, release.branch);
      if found.None? {
        return Halt(Error(Body, "builds", PackageDbUnavailable)), db, Some(info.(release := Set(Some(release))));
      }
      lists := AccessFor(acl, found);
    } else {
      lists := AccessFor(acl, None);
    }
    write := Some(info.(release := Set(Some(release)), people := Set(lists.people)));
    if user.name !in lists.committers {
      var hasAccess := InGroupOrAdmin(user, lists.groups, adminSetting);
      if !hasAccess {
        return Report(Error(Body, "builds", NoCommitAccess(user.name, name))), db, write;
      }
    }
    return Pass, db, write;
  }

  /** The two group loops of the access check. */
  method InGroupOrAdmin(user: User, groups: seq<string>, adminSetting: string) returns (hasAccess: bool)
    ensures hasAccess == ((exists g :: g in user.groups && g in groups) || IsAdmin(user, adminSetting))
  {
    hasAccess := false;
    var k := 0;
    while k < |user.groups| && !hasAccess
      invariant 0 <= k <= |user.groups|
      invariant hasAccess <==> exists m :: 0 <= m < k && user.groups[m] in groups
    {
      if user.groups[k] in groups {
        hasAccess := true;
      }
      k := k + 1;
    }
    var admins := AdminGroups(adminSetting);
    var admin := false;
    k := 0;
    while k < |admins| && !admin
      invariant 0 <= k <= |admins|
      invariant admin <==> exists m :: 0 <= m < k && admins[m] in user.groups
    {
      if admins[k] in user.groups {
        admin := true;
      }
      k := k + 1;
    }
    hasAccess := hasAccess || admin;
  }

  /** `validate_acls` writes only releases and people: every build's nvr and
      tags stay as they were. */
  lemma {:induction false} AclRecordKeeps(bi: map<string, BuildInfo>, bs: seq<string>, acl: AclSystem,
                                          fromTags: seq<string> -> Inference,
                                          pushers: (string, string) -> Option<Pushers>, b: string)
    ensures var after := InfoOf(Annotate(bi, bs, AclRecord(acl, fromTags, pushers)), b);
            after.nvr == InfoOf(bi, b).nvr && after.tags == InfoOf(bi, b).tags
    decreases |bs|
  {
    if bs != [] {
      AclRecordKeeps(bi, bs[..|bs| - 1], acl, fromTags, pushers, b);
    }
  }

  lemma CreatePackagesNext(db: Store, bi: map<string, BuildInfo>, bs: seq<string>, i: nat)
    requires i < |bs|
    ensures CreatePackages(db, bi, bs[..i + 1]) == PackageFor(CreatePackages(db, bi, bs[..i]), InfoOf(bi, bs[i]).nvr)
  {
    assert bs[..i + 1][..i] == bs[..i];
  }

  /** Members of an admin group are never refused commit access: the check
      adds at most one error, and never a commit-access one. */
  lemma AdminNeverDenied(bi: map<string, BuildInfo>, builds: seq<string>, user: User, adminSetting: string,
                         acl: AclSystem, fromTags: seq<string> -> Inference,
                         pushers: (string, string) -> Option<Pushers>)
    requires IsAdmin(user, adminSetting)
    ensures var r := Run(builds, AclStep(bi, user, adminSetting, acl, fromTags, pushers));
            && |r.errors| <= 1
            && forall e :: e in r.errors ==> !e.description.NoCommitAccess?
  {
    var step := AclStep(bi, user, adminSetting, acl, fromTags, pushers);
    assert forall k :: 0 <= k < |builds| ==> !step(builds[k]).Report?;
    RunNoReports(builds, step);
  }

  /** With the package database, a build whose release and pushers are found
      passes iff the user is a committer, in a group with access, or an admin;
      otherwise it is reported as lacking commit access. */
  lemma PackageDbAccessRule(build: string, nvr: Nvr, tags: seq<string>, user: User, adminSetting: string,
                            fromTags: seq<string> -> Inference, pushers: (string, string) -> Option<Pushers>)
    requires fromTags(tags).Inferred?
    requires pushers(nvr.name, fromTags(tags).release.branch).Some?
    ensures var p := pushers(nvr.name, fromTags(tags).release.branch).value;
            var st := AclVerdict(build, Set(nvr), Set(tags), user, adminSetting, PackageDb, fromTags, pushers);
            && (st == Pass <==>
                  user.name in p.people.committers || (exists g :: g in user.groups && g in p.groups) ||
                  IsAdmin(user, adminSetting))
            && (st != Pass ==> st == Report(Error(Body, "builds", NoCommitAccess(user.name, nvr.name))))
  {
  }

  /** In dummy mode only 'ralph', 'guest' and admins pass. */
  lemma DummyAccessRule(build: string, nvr: Nvr, tags: seq<string>, user: User, adminSetting: string,
                        fromTags: seq<string> -> Inference, pushers: (string, string) -> Option<Pushers>)
    requires fromTags(tags).Inferred?
    ensures var st := AclVerdict(build, Set(nvr), Set(tags), user, adminSetting, DummyAcl, fromTags, pushers);
            (st == Pass <==> user.name == "ralph" || user.name == "guest" || IsAdmin(user, adminSetting))
  {
  }

  /** With no ACL system configured only admins pass. */
  lemma NoAclOnlyAdmins(build: string, nvr: Nvr, tags: seq<string>, user: User, adminSetting: string,
                        fromTags: seq<string> -> Inference, pushers: (string, string) -> Option<Pushers>)
    requires fromTags(tags).Inferred?
    ensures var st := AclVerdict(build, Set(nvr), Set(tags), user, adminSetting, NoAclSystem, fromTags, pushers);
            (st == Pass <==> IsAdmin(user, adminSetting))
  {
  }

  /** A refused build does not end the check: every refused build met before
      the check stops has its own error. */
  lemma DeniedBuildsAllReported(bi: map<string, BuildInfo>, builds: seq<string>, user: User, adminSetting: string,
                                acl: AclSystem, fromTags: seq<string> -> Inference,
                                pushers: (string, string) -> Option<Pushers>, k: nat)
    requires k < |builds|
    requires AclStep(bi, user, adminSetting, acl, fromTags, pushers)(builds[k]).Report?
    requires forall j :: 0 <= j < k ==> !Stops(AclStep(bi, user, adminSetting, acl, fromTags, pushers)(builds[j]))
    ensures Error(Body, "builds", NoCommitAccess(user.name, InfoOf(bi, builds[k]).nvr.value.name))
              in Run(builds, AclStep(bi, user, adminSetting, acl, fromTags, pushers)).errors
  {
    var step := AclStep(bi, user, adminSetting, acl, fromTags, pushers);
    RunKeepsReport(builds, step, k);
    AclReportNames(builds[k], InfoOf(bi, builds[k]).nvr, InfoOf(bi, builds[k]).tags, user, adminSetting, acl, fromTags, pushers);
  }

  lemma AclReportNames(build: string, nvr: Slot<Nvr>, tags: Slot<seq<string>>, user: User, adminSetting: string,
                       acl: AclSystem, fromTags: seq<string> -> Inference, pushers: (string, string) -> Option<Pushers>)
    requires AclVerdict(build, nvr, tags, user, adminSetting, acl, fromTags, pushers).Report?
    ensures nvr.Set? && AclVerdict(build, nvr, tags, user, adminSetting, acl, fromTags, pushers).e
                        == Error(Body, "builds", NoCommitAccess(user.name, nvr.value.name))
  {
  }

  /** A build whose release cannot be determined stops the check with one error. */
  lemma UnknownReleaseStops(bi: map<string, BuildInfo>, builds: seq<string>, user: User, adminSetting: string,
                            acl: AclSystem, fromTags: seq<string> -> Inference,
                            pushers: (string, string) -> Option<Pushers>, i: nat)
    requires i < |builds|
    requires InfoOf(bi, builds[i]).nvr.Set? && InfoOf(bi, builds[i]).tags.Set?
    requires fromTags(InfoOf(bi, builds[i]).tags.value) == InferenceKeyError
    requires forall j :: 0 <= j < i ==> AclStep(bi, user, adminSetting, acl, fromTags, pushers)(builds[j]).Pass?
    ensures Run(builds, AclStep(bi, user, adminSetting, acl, fromTags, pushers)) ==
              Scan([Error(Body, "builds", CannotDetermineRelease(builds[i]))], i + 1, false)
  {
    RunHaltsAt(builds, AclStep(bi, user, adminSetting, acl, fromTags, pushers), i);
  }

  /** Once nvrs and tags are recorded, as the earlier checks leave them, the
      check does not raise. */
  lemma AclNoCrashWhenRecorded(bi: map<string, BuildInfo>, builds: seq<string>, user: User, adminSetting: string,
                               acl: AclSystem, fromTags: seq<string> -> Inference,
                               pushers: (string, string) -> Option<Pushers>)
    requires NvrsRecorded(bi, builds) && TagsRecorded(bi, builds)
    ensures !Run(builds, AclStep(bi, user, adminSetting, acl, fromTags, pushers)).crashed
  {
    var step := AclStep(bi, user, adminSetting, acl, fromTags, pushers);
    assert forall k :: 0 <= k < |builds| ==> !step(builds[k]).Crash?;
    RunShape(builds, step);
  }

  predicate UniquePackageNames(pkgs: seq<Package>)
  {
    forall i, j :: 0 <= i < j < |pkgs| ==> pkgs[i].name != pkgs[j].name
  }

  /** Looking packages up keeps every existing row and the other tables, gives
      every visited build with an nvr a package of its name, and never adds a
      second package of a name. */
  lemma {:induction false} CreatePackagesSound(db: Store, bi: map<string, BuildInfo>, bs: seq<string>)
    ensures var after := CreatePackages(db, bi, bs);
            && after == db.(packages := after.packages)
            && db.packages <= after.packages
            && (forall k :: 0 <= k < |bs| && InfoOf(bi, bs[k]).nvr.Set? ==>
                  PackageNamed(after, InfoOf(bi, bs[k]).nvr.value.name).Some?)
            && (UniquePackageNames(db.packages) ==> UniquePackageNames(after.packages))
    decreases |bs|
  {
    if bs != [] {
      var front := bs[..|bs| - 1];
      CreatePackagesSound(db, bi, front);
      var prev := CreatePackages(db, bi, front);
      var nvr := InfoOf(bi, bs[|bs| - 1]).nvr;
      if nvr.Set? && PackageNamed(prev, nvr.value.name).None? {
        var after := CreatePackages(db, bi, bs);
        assert after.packages == prev.packages + [Package(nvr.value.name)];
        forall k | 0 <= k < |bs| && InfoOf(bi, bs[k]).nvr.Set?
          ensures PackageNamed(after, InfoOf(bi, bs[k]).nvr.value.name).Some?
        {
          var name := InfoOf(bi, bs[k]).nvr.value.name;
          if k < |bs| - 1 {
            assert front[k] == bs[k];
            var p := PackageNamed(prev, name).value;
            assert p in after.packages && p.name == name;
          } else {
            assert after.packages[|after.packages| - 1].name == name;
          }
        }
      }
    }
  }

  // ---------------------------------------------------------------------------
  // validate_version

  /** The newest build of the package: the highest id, the last in table order. */
  function LatestBuild(db: Store, pkg: Package): Option<Build>
  {
    Last(db.builds, (b: Build) => b.package == Some(pkg))
  }

  /** One build of `validate_version`. A missing nvr raises KeyError, and so
      does `get_nvr` on the newest build's nvr when it fails. */
  function VersionVerdict(db: Store, nvr: Slot<Nvr>, getNvr: string -> Option<Nvr>,
                          labelCompare: (Nvr, Nvr) -> int): Step
  {
    if nvr.Unset? then Crash
    else match PackageNamed(db, nvr.value.name)
      case None => Pass
      case Some(pkg) => match LatestBuild(db, pkg)
        case None => Pass
        case Some(last) => match getNvr(last.nvr)
          case None => Crash
          case Some(lastNvr) =>
            if labelCompare(nvr.value, lastNvr) < 0
            then Halt(Error(Body, "builds", OlderBuild(JoinNvr(nvr.value), last.nvr)))
            else Pass
  }

  function VersionStep(db: Store, bi: map<string, BuildInfo>, getNvr: string -> Option<Nvr>,
                       labelCompare: (Nvr, Nvr) -> int): string -> Step
  {
    build => VersionVerdict(db, InfoOf(bi, build).nvr, getNvr, labelCompare)
  }

  /** `validate_version`: no build may be older than the newest known build of
      its package. */
  method ValidateVersion(req: Request, getNvr: string -> Option<Nvr>, labelCompare: (Nvr, Nvr) -> int)
    returns (outcome: Outcome)
    modifies req
    ensures var r := Run(BuildsOf(old(req.validated)), VersionStep(old(req.db), old(req.buildinfo), getNvr, labelCompare));
            && req.errors == old(req.errors) + r.errors
            && outcome == (if r.crashed then Raised else Returned)
    ensures req.validated == old(req.validated) && req.buildinfo == old(req.buildinfo)
    ensures req.status == old(req.status) && req.db == old(req.db)
  {
    var found, crashed := ScanVersions(req.db, req.buildinfo, BuildsOf(req.validated), getNvr, labelCompare);
    req.errors := req.errors + found;
    outcome := if crashed then Raised else Returned;
  }

  /** The loop of `validate_version` over the builds. */
  method ScanVersions(db: Store, bi: map<string, BuildInfo>, builds: seq<string>,
                      getNvr: string -> Option<Nvr>, labelCompare: (Nvr, Nvr) -> int)
    returns (found: seq<Error>, crashed: bool)
    ensures var r := Run(builds, VersionStep(db, bi, getNvr, labelCompare));
            found == r.errors && crashed == r.crashed
  {
    ghost var step := VersionStep(db, bi, getNvr, labelCompare);
    RunFrom0(builds, step);
    for i := 0 to |builds|
      invariant Run(builds, step) == Shift([], i, Run(builds[i..], step))
    {
      RunAdvance(builds, step, [], i);
      var st := VersionBuild(db, InfoOf(bi, builds[i]).nvr, getNvr, labelCompare);
      assert [] + Emitted(st) == Emitted(st);
      if Stops(st) {
        return Emitted(st), st.Crash?;
      }
    }
    RunDone(builds, step, []);
    return [], false;
  }

  /** One build of `validate_version`. */
  method VersionBuild(db: Store, nvr: Slot<Nvr>, getNvr: string -> Option<Nvr>,
                      labelCompare: (Nvr, Nvr) -> int) returns (st: Step)
    ensures st == VersionVerdict(db, nvr, getNvr, labelCompare)
  {
    if nvr.Unset? {
      return Crash;
    }
    var pkg := PackageNamed(db, nvr.value.name);
    if pkg.Some? {
      var last := LatestBuild(db, pkg.value);
      if last.Some? {
        var lastNvr := getNvr(last.value.nvr);
        if lastNvr.None? {
          return Crash;
        }
        if labelCompare(nvr.value, lastNvr.value) < 0 {
          return Halt(Error(Body, "builds", OlderBuild(JoinNvr(nvr.value), last.value.nvr)));
        }
      }
    }
    return Pass;
  }

  /** The check adds at most one error, and when it adds none and does not
      raise, no build is older than the newest known build of its package. */
  lemma VersionNoRegression(db: Store, bi: map<string, BuildInfo>, builds: seq<string>,
                            getNvr: string -> Option<Nvr>, labelCompare: (Nvr, Nvr) -> int)
    ensures var r := Run(builds, VersionStep(db, bi, getNvr, labelCompare));
            && |r.errors| <= 1
            && (r.errors == [] && !r.crashed ==>
                  forall k, pkg, last, lastNvr ::
                    0 <= k < |builds| && InfoOf(bi, builds[k]).nvr.Set? &&
                    PackageNamed(db, InfoOf(bi, builds[k]).nvr.value.name) == Some(pkg) &&
                    LatestBuild(db, pkg) == Some(last) && getNvr(last.nvr) == Some(lastNvr) ==>
                      labelCompare(InfoOf(bi, builds[k]).nvr.value, lastNvr) >= 0)
  {
    var step := VersionStep(db, bi, getNvr, labelCompare);
    assert forall k :: 0 <= k < |builds| ==> !step(builds[k]).Report?;
    RunNoReports(builds, step);
    var r := Run(builds, step);
    if r.errors == [] && !r.crashed {
      assert FirstIndex(builds, Stopper(step)).None?;
      assert forall k :: 0 <= k < |builds| ==> !Stopper(step)(builds[k]);
    }
  }

  // ---------------------------------------------------------------------------
  // validate_uniqueness

  /** The inner loop of `validate_uniqueness` for `build`, whose package name is
      `name`, over the rest `others` of the list, having met `build` itself
      `seen` times. Each other build's nvr is read (KeyError when missing)
      before it is compared. */
  function Clash(others: seq<string>, build: string, name: string, bi: map<string, BuildInfo>, seen: nat): Step
    decreases |others|
  {
    if others == [] then Pass
    else if InfoOf(bi, others[0]).nvr.Unset? then Crash
    else if others[0] == build then
      (if seen + 1 > 1 then Halt(Error(Body, "builds", DuplicateBuilds(build)))
       else Clash(others[1..], build, name, bi, seen + 1))
    else if name == InfoOf(bi, others[0]).nvr.value.name then
      Halt(Error(Body, "builds", MultipleBuilds(name, build, others[0])))
    else Clash(others[1..], build, name, bi, seen)
  }

  function UniqueStep(builds: seq<string>, bi: map<string, BuildInfo>): string -> Step
  {
    build =>
      if InfoOf(bi, build).nvr.Unset? then Crash
      else Clash(builds, build, InfoOf(bi, build).nvr.value.name, bi, 0)
  }

  /** `validate_uniqueness`: a build listed twice, or two builds of one
      package, are refused with one error. */
  method ValidateUniqueness(req: Request) returns (outcome: Outcome)
    modifies req
    ensures var r := Run(BuildsOf(old(req.validated)), UniqueStep(BuildsOf(old(req.validated)), old(req.buildinfo)));
            && req.errors == old(req.errors) + r.errors
            && outcome == (if r.crashed then Raised else Returned)
    ensures req.validated == old(req.validated) && req.buildinfo == old(req.buildinfo)
    ensures req.status == old(req.status) && req.db == old(req.db)
  {
    var found, crashed := ScanUniqueness(BuildsOf(req.validated), req.buildinfo);
    req.errors := req.errors + found;
    outcome := if crashed then Raised else Returned;
  }

  /** The outer loop of `validate_uniqueness`. */
  method ScanUniqueness(builds: seq<string>, bi: map<string, BuildInfo>) returns (found: seq<Error>, crashed: bool)
    ensures var r := Run(builds, UniqueStep(builds, bi));
            found == r.errors && crashed == r.crashed
  {
    if builds == [] {
      return [], false;
    }
    ghost var step := UniqueStep(builds, bi);
    RunFrom0(builds, step);
    for i := 0 to |builds|
      invariant Run(builds, step) == Shift([], i, Run(builds[i..], step))
    {
      RunAdvance(builds, step, [], i);
      var info := InfoOf(bi, builds[i]);
      var st := Crash;
      if info.nvr.Set? {
        st := FindClash(builds, builds[i], info.nvr.value.name, bi);
      }
      assert [] + Emitted(st) == Emitted(st);
      if Stops(st) {
        return Emitted(st), st.Crash?;
      }
    }
    RunDone(builds, step, []);
    return [], false;
  }

  /** The inner loop of `validate_uniqueness`, with its `seen_build` counter. */
  method FindClash(builds: seq<string>, build: string, name: string, bi: map<string, BuildInfo>)
    returns (st: Step)
    ensures st == Clash(builds, build, name, bi, 0)
    ensures !st.Report?
  {
    var seen := 0;
    for j := 0 to |builds|
      invariant Clash(builds, build, name, bi, 0) == Clash(builds[j..], build, name, bi, seen)
    {
      assert builds[j..][1..] == builds[j + 1..];
      var other := builds[j];
      var otherInfo := InfoOf(bi, other);
      if otherInfo.nvr.Unset? {
        return Crash;
      }
      if build == other {
        seen := seen + 1;
        if seen > 1 {
          return Halt(Error(Body, "builds", DuplicateBuilds(build)));
        }
        continue;
      }
      if name == otherInfo.nvr.value.name {
        return Halt(Error(Body, "builds", MultipleBuilds(name, build, other)));
      }
    }
    assert builds[|builds|..] == [];
    return Pass;
  }

  /** No two positions of the list name builds of the same package. */
  predicate DistinctNames(bi: map<string, BuildInfo>, builds: seq<string>)
  {
    forall i, j :: 0 <= i < j < |builds| ==> NameOf(bi, builds[i]) != NameOf(bi, builds[j])
  }

  /** `x` occurs at most once in `s`. */
  predicate AtMostOnce(s: seq<string>, x: string)
  {
    forall i, j :: 0 <= i < j < |s| && s[i] == x ==> s[j] != x
  }

  lemma {:induction false} ClashPasses(others: seq<string>, build: string, bi: map<string, BuildInfo>, seen: nat)
    requires NvrsRecorded(bi, others)
    requires forall j :: 0 <= j < |others| && others[j] != build ==> NameOf(bi, others[j]) != NameOf(bi, build)
    requires AtMostOnce(others, build)
    requires seen <= 1 && (seen == 1 ==> build !in others)
    ensures Clash(others, build, NameOf(bi, build), bi, seen) == Pass
    decreases |others|
  {
    if others != [] {
      assert forall j :: 1 <= j < |others| ==> others[1..][j - 1] == others[j];
      if others[0] == build {
        assert build !in others[1..];
        ClashPasses(others[1..], build, bi, seen + 1);
      } else {
        ClashPasses(others[1..], build, bi, seen);
      }
    }
  }

  /** Another build of the list has the same package name as `build`. */
  predicate HasRival(others: seq<string>, build: string, bi: map<string, BuildInfo>)
  {
    exists j :: 0 <= j < |others| && others[j] != build && NameOf(bi, others[j]) == NameOf(bi, build)
  }

  /** `build` occurs at least twice in the list. */
  predicate ListedTwice(others: seq<string>, build: string)
  {
    exists a, b :: 0 <= a < b < |others| && others[a] == build && others[b] == build
  }

  lemma NvrsRecordedTail(bi: map<string, BuildInfo>, others: seq<string>)
    requires others != [] && NvrsRecorded(bi, others)
    ensures NvrsRecorded(bi, others[1..])
  {
    forall k | 0 <= k < |others| - 1
      ensures others[1..][k] in bi && bi[others[1..][k]].nvr.Set?
    {
      assert others[1..][k] == others[k + 1];
    }
  }

  /** A rival that is not the head is in the tail. */
  lemma RivalTail(others: seq<string>, build: string, bi: map<string, BuildInfo>)
    requires others != [] && HasRival(others, build, bi)
    requires others[0] == build || NameOf(bi, others[0]) != NameOf(bi, build)
    ensures HasRival(others[1..], build, bi)
  {
    var j :| 0 <= j < |others| && others[j] != build && NameOf(bi, others[j]) == NameOf(bi, build);
    assert j > 0 && others[1..][j - 1] == others[j];
  }

  lemma TwiceTail(others: seq<string>, build: string)
    requires others != [] && ListedTwice(others, build)
    ensures others[0] == build ==> build in others[1..]
    ensures others[0] != build ==> ListedTwice(others[1..], build)
  {
    var a, b :| 0 <= a < b < |others| && others[a] == build && others[b] == build;
    assert others[1..][b - 1] == build;
    if others[0] != build {
      assert a > 0 && others[1..][a - 1] == build;
    }
  }

  lemma InTail(others: seq<string>, build: string)
    requires others != [] && build in others && others[0] != build
    ensures build in others[1..]
  {
    var j :| 0 <= j < |others| && others[j] == build;
    assert others[1..][j - 1] == build;
  }

  lemma {:induction false} ClashHalts(others: seq<string>, build: string, bi: map<string, BuildInfo>, seen: nat)
    requires NvrsRecorded(bi, others)
    requires HasRival(others, build, bi) || (seen >= 1 && build in others) || ListedTwice(others, build)
    ensures Clash(others, build, NameOf(bi, build), bi, seen).Halt?
    decreases |others|
  {
    var rest := others[1..];
    NvrsRecordedTail(bi, others);
    assert others[0] in bi && bi[others[0]].nvr.Set?;
    if others[0] == build {
      if seen == 0 {
        if HasRival(others, build, bi) {
          RivalTail(others, build, bi);
        } else {
          TwiceTail(others, build);
        }
        ClashHalts(rest, build, bi, 1);
      }
    } else if NameOf(bi, build) != NameOf(bi, others[0]) {
      if HasRival(others, build, bi) {
        RivalTail(others, build, bi);
      } else if seen >= 1 && build in others {
        InTail(others, build);
      } else {
        TwiceTail(others, build);
      }
      ClashHalts(rest, build, bi, seen);
    }
  }

  /** With every nvr recorded, each build's step is its inner loop, which
      neither raises nor merely reports. */
  lemma UniqueStepsQuiet(bi: map<string, BuildInfo>, builds: seq<string>)
    requires NvrsRecorded(bi, builds)
    ensures forall k :: 0 <= k < |builds| ==>
              UniqueStep(builds, bi)(builds[k]) == Clash(builds, builds[k], NameOf(bi, builds[k]), bi, 0)
    ensures forall k :: 0 <= k < |builds| ==>
              !UniqueStep(builds, bi)(builds[k]).Report? && !UniqueStep(builds, bi)(builds[k]).Crash?
  {
    forall k | 0 <= k < |builds|
      ensures !UniqueStep(builds, bi)(builds[k]).Report? && !UniqueStep(builds, bi)(builds[k]).Crash?
    {
      ClashNeverCrashes(builds, builds[k], bi, 0);
    }
  }

  /** With every nvr recorded, the check never raises, adds at most one error,
      and adds none exactly when no two builds of the list share a package
      name (a build listed twice shares its own). */
  lemma UniquenessIff(bi: map<string, BuildInfo>, builds: seq<string>)
    requires NvrsRecorded(bi, builds)
    ensures var r := Run(builds, UniqueStep(builds, bi));
            && !r.crashed && |r.errors| <= 1
            && (r.errors == [] <==> DistinctNames(bi, builds))
  {
    var step := UniqueStep(builds, bi);
    UniqueStepsQuiet(bi, builds);
    RunNoReports(builds, step);
    if DistinctNames(bi, builds) {
      forall k | 0 <= k < |builds|
        ensures !Stopper(step)(builds[k])
      {
        assert AtMostOnce(builds, builds[k]);
        ClashPasses(builds, builds[k], bi, 0);
      }
      assert FirstIndex(builds, Stopper(step)).None?;
    } else {
      var i, j :| 0 <= i < j < |builds| && NameOf(bi, builds[i]) == NameOf(bi, builds[j]);
      if builds[j] != builds[i] {
        assert HasRival(builds, builds[i], bi);
      } else {
        assert ListedTwice(builds, builds[i]);
      }
      ClashHalts(builds, builds[i], bi, 0);
      assert Stopper(step)(builds[i]);
      assert FirstIndex(builds, Stopper(step)).Some?;
    }
  }

  lemma {:induction false} ClashNeverCrashes(others: seq<string>, build: string, bi: map<string, BuildInfo>, seen: nat)
    requires NvrsRecorded(bi, others)
    ensures var st := Clash(others, build, NameOf(bi, build), bi, seen);
            !st.Crash? && !st.Report?
    decreases |others|
  {
    if others != [] {
      assert forall j :: 1 <= j < |others| ==> others[1..][j - 1] == others[j];
      ClashNeverCrashes(others[1..], build, bi, if others[0] == build then seen + 1 else seen);
    }
  }

  lemma {:induction false} ClashOnlyDuplicate(others: seq<string>, build: string, bi: map<string, BuildInfo>, seen: nat)
    requires NvrsRecorded(bi, others)
    requires forall j :: 0 <= j < |others| && NameOf(bi, others[j]) == NameOf(bi, build) ==> others[j] == build
    ensures var st := Clash(others, build, NameOf(bi, build), bi, seen);
            st == Pass || st == Halt(Error(Body, "builds", DuplicateBuilds(build)))
    decreases |others|
  {
    if others != [] {
      assert forall j :: 1 <= j < |others| ==> others[1..][j - 1] == others[j];
      ClashOnlyDuplicate(others[1..], build, bi, if others[0] == build then seen + 1 else seen);
    }
  }

  lemma {:induction false} ClashOnlyMultiple(others: seq<string>, build: string, bi: map<string, BuildInfo>, seen: nat)
    requires NvrsRecorded(bi, others)
    requires AtMostOnce(others, build)
    requires seen <= 1 && (seen == 1 ==> build !in others)
    ensures var st := Clash(others, build, NameOf(bi, build), bi, seen);
            st == Pass ||
            exists o :: o in others && o != build && NameOf(bi, o) == NameOf(bi, build) &&
              st == Halt(Error(Body, "builds", MultipleBuilds(NameOf(bi, build), build, o)))
    decreases |others|
  {
    if others != [] {
      assert forall j :: 1 <= j < |others| ==> others[1..][j - 1] == others[j];
      if others[0] == build {
        assert build !in others[1..];
        ClashOnlyMultiple(others[1..], build, bi, seen + 1);
      } else if NameOf(bi, others[0]) != NameOf(bi, build) {
        ClashOnlyMultiple(others[1..], build, bi, seen);
      }
    }
  }

  /** The error of a refused list comes from the first build, in list order,
      whose inner loop finds a clash. */
  lemma UniquenessError(bi: map<string, BuildInfo>, builds: seq<string>)
    requires NvrsRecorded(bi, builds)
    requires !DistinctNames(bi, builds)
    ensures exists k :: 0 <= k < |builds| &&
              Clash(builds, builds[k], NameOf(bi, builds[k]), bi, 0).Halt? &&
              Run(builds, UniqueStep(builds, bi)).errors == [Clash(builds, builds[k], NameOf(bi, builds[k]), bi, 0).e]
  {
    var k := RefusingBuild(bi, builds);
  }

  /** The position of the build whose inner loop refuses the list. */
  lemma RefusingBuild(bi: map<string, BuildInfo>, builds: seq<string>) returns (k: nat)
    requires NvrsRecorded(bi, builds)
    requires !DistinctNames(bi, builds)
    ensures k < |builds|
    ensures Clash(builds, builds[k], NameOf(bi, builds[k]), bi, 0).Halt?
    ensures Run(builds, UniqueStep(builds, bi)).errors == [Clash(builds, builds[k], NameOf(bi, builds[k]), bi, 0).e]
  {
    var step := UniqueStep(builds, bi);
    UniquenessIff(bi, builds);
    UniqueStepsQuiet(bi, builds);
    RunNoReports(builds, step);
    var stop := FirstIndex(builds, Stopper(step));
    assert stop.Some?;
    k := stop.value;
  }

  /** A list whose only clashes are builds listed twice is refused as
      "Duplicate builds". */
  lemma RepeatedBuildIsDuplicate(bi: map<string, BuildInfo>, builds: seq<string>)
    requires NvrsRecorded(bi, builds)
    requires forall i, j :: 0 <= i < j < |builds| && NameOf(bi, builds[i]) == NameOf(bi, builds[j]) ==> builds[i] == builds[j]
    requires exists i, j :: 0 <= i < j < |builds| && builds[i] == builds[j]
    ensures exists b :: b in builds && Run(builds, UniqueStep(builds, bi)).errors == [Error(Body, "builds", DuplicateBuilds(b))]
  {
    var k := RefusingBuild(bi, builds);
    forall j | 0 <= j < |builds| && NameOf(bi, builds[j]) == NameOf(bi, builds[k])
      ensures builds[j] == builds[k]
    {
      if j < k {
      } else if k < j {
      }
    }
    ClashOnlyDuplicate(builds, builds[k], bi, 0);
  }

  /** A list without repeated builds but with two builds of one package is
      refused as "Multiple ... builds", naming two different builds of it. */
  lemma SamePackageIsMultiple(bi: map<string, BuildInfo>, builds: seq<string>)
    requires NvrsRecorded(bi, builds)
    requires forall i, j :: 0 <= i < j < |builds| ==> builds[i] != builds[j]
    requires !DistinctNames(bi, builds)
    ensures exists b, o :: b in builds && o in builds && b != o && NameOf(bi, b) == NameOf(bi, o) &&
              Run(builds, UniqueStep(builds, bi)).errors == [Error(Body, "builds", MultipleBuilds(NameOf(bi, b), b, o))]
  {
    var k := RefusingBuild(bi, builds);
    var b := builds[k];
    var st := Clash(builds, b, NameOf(bi, b), bi, 0);
    assert AtMostOnce(builds, b);
    ClashOnlyMultiple(builds, b, bi, 0);
    var o :| o in builds && o != b && NameOf(bi, o) == NameOf(bi, b) &&
             st == Halt(Error(Body, "builds", MultipleBuilds(NameOf(bi, b), b, o)));
  }
}
