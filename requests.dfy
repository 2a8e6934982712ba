/** The state every admission check works on: the rows of the database the
    checks consult, the values a request carries, and the request object whose
    `validated` dictionary, per-build `buildinfo`, error list and error status
    the checks update in place. */
module Requests {
  import opened Base

  // ---------------------------------------------------------------------------
  // Database rows. Each row is identified by its contents; a query's `.first()`
  // is `First` over the table in its stored order.

  datatype Package = Package(name: string)

  datatype Release = Release(name: string, version: string, branch: string,
                             candidateTag: string, testingTag: string)

  datatype UpdateStatus = Pending | Testing | Stable | Unpushed | Obsolete | Processing

  /** A build row; `inUpdate` says whether it is attached to an update. A
      build made for a buildroot override has no package. */
  datatype Build = Build(nvr: string, package: Option<Package>, release: Option<Release>, inUpdate: bool)

  datatype Update = Update(title: string, alias: Option<string>, status: UpdateStatus,
                           release: Release, builds: seq<Build>)

  datatype User = User(name: string, groups: seq<string>)

  datatype Group = Group(name: string)

  datatype Bug = Bug(bugId: int, updates: seq<Update>)

  datatype TestCase = TestCase(name: string, package: Package)

  datatype Comment = Comment(id: int)

  datatype Stack = Stack(name: string)

  /** The tables, each in ascending id order. */
  datatype Store = Store(packages: seq<Package>, builds: seq<Build>, updates: seq<Update>,
                         releases: seq<Release>, users: seq<User>, groups: seq<Group>,
                         bugs: seq<Bug>, testcases: seq<TestCase>, comments: seq<Comment>,
                         stacks: seq<Stack>)

  /** `Package.get(name)`: the package with that name. */
  function PackageNamed(db: Store, name: string): Option<Package>
  {
    First(db.packages, (p: Package) => p.name == name)
  }

  /** `Update.get(id)`: the update whose title or alias is the given string. */
  function UpdateGet(db: Store, id: Value): Option<Update>
  {
    if id.VStr? then First(db.updates, (u: Update) => u.title == id.s || u.alias == Some(id.s)) else None
  }

  /** The update whose title is the given value. */
  function UpdateTitled(db: Store, title: Value): Option<Update>
  {
    if title.VStr? then First(db.updates, (u: Update) => u.title == title.s) else None
  }

  /** `Build.get(nvr)` and `filter_by(nvr=...)`: the build with that nvr. */
  function BuildNamed(db: Store, nvr: string): Option<Build>
  {
    First(db.builds, (b: Build) => b.nvr == nvr)
  }

  // ---------------------------------------------------------------------------
  // External services, passed in as values

  /** Koji: the names of the tags a build carries (`listTags`) and whether a
      tag exists (`getTag(..., strict=True)` does not raise). */
  datatype Koji = Koji(listTags: string -> seq<string>, hasTag: string -> bool)

  /** What `Release.from_tags` makes of a build's tags: the release they belong
      to, None, or a KeyError. */
  datatype Inference = Inferred(release: Release) | NoRelease | InferenceKeyError

  /** The first result of `Release.get_tags()`: the tag types in dictionary
      order, and for each type the tags of that type across all releases. */
  datatype TagTable = TagTable(order: seq<string>, tags: map<string, seq<string>>)

  /** The `acl_system` setting: 'pkgdb', 'dummy', or anything else. */
  datatype AclSystem = PackageDb | DummyAcl | NoAclSystem

  /** What `Package.get_pkg_pushers` returns: the package's people, and the
      groups allowed to push it with the groups to notify. */
  datatype Pushers = Pushers(people: People, groups: seq<string>, notifyGroups: seq<string>)

  // ---------------------------------------------------------------------------
  // Values held by the request

  datatype EnumKind = RequestEnum | SeverityEnum | StatusEnum | SuggestionEnum | TypeEnum | ReleaseStateEnum

  /** A row put into the validated dictionary in place of the name that found it. */
  datatype Row =
    | PackageRow(package: Package)
    | UpdateRow(update: Update)
    | GroupRow(group: Group)
    | ReleaseRow(release: Release)
    | UserRow(user: User)
    | CommentRow(comment: Comment)
    | StackRow(stack: Stack)
    | BuildRow(build: Build)
    | BugRow(bug: Bug)
    | TestCaseRow(testcase: TestCase)

  /** A Python value as it sits in `request.validated`. `VNull` is None; `VTime`
      is a datetime, counted in microseconds; `VDicts` is a list of dictionaries
      (the feedback items). */
  datatype Value =
    | VNull
    | VBool(b: bool)
    | VInt(i: int)
    | VStr(s: string)
    | VStrs(ss: seq<string>)
    | VTime(t: int)
    | VEnum(kind: EnumKind, symbol: string)
    | VRow(row: Row)
    | VRows(rows: seq<Row>)
    | VDicts(items: seq<map<string, Value>>)

  /** Python truthiness. */
  predicate Truthy(v: Value)
  {
    match v
    case VNull => false
    case VBool(b) => b
    case VInt(i) => i != 0
    case VStr(s) => s != ""
    case VStrs(ss) => ss != []
    case VTime(_) => true
    case VEnum(_, _) => true
    case VRow(_) => true
    case VRows(rows) => rows != []
    case VDicts(items) => items != []
  }

  /** `d.get(key)`: the value, or None when the key is absent. */
  function Get(d: map<string, Value>, key: string): (v: Value)
    ensures key !in d ==> v == VNull
  {
    if key in d then d[key] else VNull
  }

  /** `validated.get('builds', [])`, read as the list of build strings. */
  function BuildsOf(validated: map<string, Value>): seq<string>
  {
    if "builds" in validated && validated["builds"].VStrs? then validated["builds"].ss else []
  }

  // ---------------------------------------------------------------------------
  // Per-build information and errors

  /** A name-version-release triple as `get_nvr` returns it. */
  datatype Nvr = Nvr(name: string, version: string, release: string)

  /** `'-'.join(nvr)` */
  function JoinNvr(n: Nvr): string
  {
    n.name + "-" + n.version + "-" + n.release
  }

  /** A key of a build's info dictionary: never written, or written with a value. */
  datatype Slot<T> = Unset | Set(value: T)

  /** The committers and watchers an ACL lookup found for a package. */
  datatype People = People(committers: seq<string>, watchers: seq<string>)

  /** `request.buildinfo[build]`: the build's parsed nvr, its Koji tags, the
      release inferred from them (possibly None), and its people (None when no
      ACL system is configured). */
  datatype BuildInfo = BuildInfo(nvr: Slot<Nvr>, tags: Slot<seq<string>>,
                                 release: Slot<Option<Release>>, people: Slot<Option<People>>)

  const EmptyInfo := BuildInfo(Unset, Unset, Unset, Unset)

  /** The info of a build; an entry read before it was written is empty. */
  function InfoOf(buildinfo: map<string, BuildInfo>, build: string): BuildInfo
  {
    if build in buildinfo then buildinfo[build] else EmptyInfo
  }

  /** The package name of a build whose nvr has been recorded. */
  function NameOf(buildinfo: map<string, BuildInfo>, build: string): string
  {
    var info := InfoOf(buildinfo, build);
    if info.nvr.Set? then info.nvr.value.name else ""
  }

  /** Every build of the list has its nvr recorded, as `validate_nvrs` leaves it
      when it finds no error. */
  predicate NvrsRecorded(buildinfo: map<string, BuildInfo>, builds: seq<string>)
  {
    forall k :: 0 <= k < |builds| ==> builds[k] in buildinfo && buildinfo[builds[k]].nvr.Set?
  }

  datatype Location = Body | Querystring | Url

  /** The errors the checks report, each with the values its text names. */
  datatype Message =
    | NotNvrFormat(build: string)
    | CannotFindUpdate(edited: Value)
    | CannotEditStable
    | UpdateExists(nvr: string)
    | CrossReleaseBuild(buildRelease: string, updateRelease: string)
    | InvalidBuildTag(build: string, validTags: seq<string>)
    | InvalidKojiTag(tag: Value)
    | CannotDetermineRelease(build: string)
    | NoReleaseForTags(tags: seq<string>)
    | PackageDbUnavailable
    | NoCommitAccess(user: string, package: string)
    | OlderBuild(nvr: string, latest: string)
    | DuplicateBuilds(build: string)
    | MultipleBuilds(package: string, build: string, other: string)
    | InvalidNames(noun: string, names: seq<string>)
    | InvalidName(noun: string, name: Value)
    | InvalidFeedback(noun: string, keys: seq<Value>)
    | InvalidUpdate
    | InvalidUpdateId
    | CommentIdNotInt
    | InvalidCommentId
    | OverrideReleaseUnknown
    | OverrideNotTagged
    | OverrideInvalidBuild
    | ExpirationInPast
    | ExpirationTooFar(days: int)
    | MissingCaptchaKey
    | MissingCaptchaValue
    | IncorrectCaptcha
    | InvalidRequirement(requirement: string, choices: seq<string>)

  datatype Error = Error(location: Location, name: string, description: Message)

  const BadRequest := 400
  const NotFound := 404

  /** How a check ended: by returning, or by an exception it does not catch. */
  datatype Outcome = Returned | Raised

  /** The parts of a request the checks read and write. `db` is the session's
      view of the database, which `validate_acls` adds packages to. */
  class Request {
    var validated: map<string, Value>
    var buildinfo: map<string, BuildInfo>
    var errors: seq<Error>
    var status: Option<int>
    var db: Store

    constructor (validated: map<string, Value>, db: Store)
      ensures this.validated == validated && this.db == db
      ensures buildinfo == map[] && errors == [] && status == None
    {
      this.validated := validated;
      this.db := db;
      buildinfo := map[];
      errors := [];
      status := None;
    }

    /** `request.errors.add(location, name, description)` */
    method AddError(location: Location, name: string, description: Message)
      modifies this
      ensures errors == old(errors) + [Error(location, name, description)]
      ensures validated == old(validated) && buildinfo == old(buildinfo)
      ensures status == old(status) && db == old(db)
    {
      errors := errors + [Error(location, name, description)];
    }

    /** `request.errors.add(...)` followed by setting `request.errors.status`. */
    method Fail(location: Location, name: string, description: Message, code: int)
      modifies this
      ensures errors == old(errors) + [Error(location, name, description)]
      ensures status == Some(code)
      ensures validated == old(validated) && buildinfo == old(buildinfo) && db == old(db)
    {
      errors := errors + [Error(location, name, description)];
      status := Some(code);
    }
  }
}
