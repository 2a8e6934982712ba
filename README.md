# Bodhi request validators, modelled in Dafny

Bodhi is the Fedora update system. Before a web request creates or edits an
update, a comment or a buildroot override, a chain of *validators* inspects the
deserialised request. Each validator reads `request.validated` (the
deserialised fields), the database and Koji (the build system). It then records
errors in `request.errors`, may set the HTTP error status, and may rewrite
`request.validated` or the per-build `request.buildinfo` entries in place. The
request schemas deserialise the raw form first: they split build lists, check
CVE ids, and apply ranges and defaults to the karma and paging fields.

This project models that core:

- `base.dfy` holds optional values, the "first row that matches" lookup that a
  query's `.first()` performs, and Python's argument-less `str.split()`.
- `schemas.dfy` holds `splitter`, the CVE check, and the range/default
  constraints of the integer fields.
- `requests.dfy` holds the database rows, the values a request holds, the error
  messages, and `class Request`. Its fields `validated`, `buildinfo`, `errors`,
  `status` and `db` are what the validators update.
- `scans.dfy` gives the shape shared by every loop over the build list:
  - each build passes, reports an error and goes on, reports and returns, or
    raises;
  - `Run` is what such a loop reports;
  - `Annotate` is what it writes into `buildinfo`.
- `build_checks.dfy` covers `validate_nvrs`, `validate_builds`,
  `validate_build_tags`, `validate_acls`, `validate_version` and
  `validate_uniqueness`.
- `lookup_checks.dfy` covers the existence checks on packages, updates,
  groups, releases, users, updates by id, bugs and test cases in feedback,
  comments and stacks.
- `field_checks.dfy` covers `validate_tags`, `validate_enums` and
  `validate_override_build`.
- `gate_checks.dfy` covers `validate_expiration_date`, `validate_captcha` and
  `validate_requirements`.

Each validator is a method on a `Request`. Its postcondition gives the new
request state as a function of the old one. The properties the code promises
are lemmas about those functions: at most one error, the first bad build is
named, unknown names are reported in input order, access rules, windows, and
so on. An exception the validator does not catch is the outcome `Raised`.
Examples are the KeyError of a missing `buildinfo` entry, the AttributeError on
a missing edited update, and the ValueError of `from_string`.

External services are parameters. These are Koji (`Koji`), `Release.from_tags`
(`fromTags`), `get_nvr`, `rpm.labelCompare`, `Package.get_pkg_pushers`,
`tokenize`, `captcha.validate`, the Taskotron test-case list, the enumerations'
`from_string`, the settings and the current time `now`.

Where the code and its description differ, the model follows the code, with
one exception: `validate_requirements`, whose defect is logged under
"## Findings" and whose request-level model uses the corrected check. In
the other cases:

- With no `acl_system` configured, only members of an admin group may push.
- In edit mode, the valid tags are the candidate and testing tags of every
  release.
- An access denial in `validate_acls` is reported without stopping the loop.

## Model

| member | source | states |
|---|---|---|
| Schemas.Splitter | bodhi/schemas.py:30-44 | None exactly for colander's null marker; otherwise the in-order concatenation of each element's contribution |
| Schemas.TokensClean | bodhi/schemas.py:37-39 | no token taken from a string is empty or holds a comma or whitespace |
| Schemas.FlattenAppend | bodhi/schemas.py:35-44 | splitting is order preserving: the output for `a + b` is the output for `a` followed by the output for `b` |
| Schemas.FlattenItems | bodhi/schemas.py:36-42 | every string in the output is a clean token, None elements are dropped, and every non-string element is kept |
| Schemas.SplitterRoundTrip | bodhi/schemas.py:37-39 | clean build names joined by spaces split back into the same list |
| Schemas.JoinSpacedHasNoComma | bodhi/schemas.py:38 | joining clean tokens by spaces introduces no comma |
| Schemas.CveMatchEnd | bodhi/schemas.py:27 | the CVE pattern matches at the start exactly for `CVE-`, four digits, `-` and at least four digits, and the match ends after the digit run |
| Schemas.DeserializeCve | bodhi/schemas.py:63-70 | a CVE id is accepted, unchanged, exactly when the pattern matches a prefix of it; otherwise it is refused naming the value |
| Schemas.CveSuffixIgnored | bodhi/schemas.py:67 | whatever follows a valid id is accepted too: the match is a prefix match |
| Schemas.Deserialize | bodhi/schemas.py:95-99 | an absent integer takes the node's default; a present one is accepted unchanged exactly when it lies in the range, and a refusal names the bound it breaks |
| Schemas.DeserializeKarma | bodhi/schemas.py:120-129 | karma lies in [-1, 1] and defaults to 0 |
| Schemas.DeserializePage | bodhi/schemas.py:224-229 | `page` is at least 1 and defaults to 1 |
| Schemas.DeserializeRowsPerPage | bodhi/schemas.py:231-236 | `rows_per_page` lies in [1, 100] and defaults to 20 |
| Schemas.DeserializeStableKarma | bodhi/schemas.py:176-180 | `stable_karma` is at least 1 and defaults to 3 |
| Schemas.DeserializeUnstableKarma | bodhi/schemas.py:181-185 | `unstable_karma` is at most -1 and defaults to -3 |
| Scans.RunShape | bodhi/validators.py:45-56 | a build loop reports the errors of the builds before the first stopping build, plus that build's error when it returns; it visits up to and including that build, and raises exactly when that build raises |
| Scans.RunKeepsReport | bodhi/validators.py:221-223 | an error reported without returning stays among the loop's errors when no earlier build stopped the loop |
| Scans.AnnotateElsewhere | bodhi/validators.py:48 | a build loop leaves the info of builds it does not visit as it was |
| BuildChecks.ValidateNvrs | bodhi/validators.py:46-57 | reports the errors of the parse scan and records every parse made; the build list is emptied exactly when an error is reported |
| BuildChecks.ScanNvrs | bodhi/validators.py:45-56 | the loop yields exactly the scan's error and the parses recorded for the builds visited |
| BuildChecks.NvrCheckStopsAtFirstMalformed | bodhi/validators.py:46-57 | at the first build that does not parse into three non-empty parts: exactly one error naming it, and nothing after it is looked at |
| BuildChecks.NvrCheckPasses | bodhi/validators.py:46-57 | when every build parses, there is no error and every build is visited |
| BuildChecks.NvrsRecordedAfterPass | bodhi/validators.py:48 | after a clean pass, every build's parse is recorded, as the later checks read it |
| BuildChecks.EditCheck | bodhi/validators.py:65-79 | when editing, a missing update gives exactly one error; otherwise there is an error exactly when the user is in no admin group and the update is stable |
| BuildChecks.ValidateBuilds | bodhi/validators.py:60-86 | an edit adds the edit check's errors only, and the ownership loop does not run; a new update adds the claim scan's errors |
| BuildChecks.ScanClaims | bodhi/validators.py:81-86 | the new-update loop yields exactly the claim scan's errors |
| BuildChecks.AdminMayEdit | bodhi/validators.py:74-79 | admins may edit any existing update, stable or not |
| BuildChecks.ClaimCheckStopsAtFirstClaimed | bodhi/validators.py:81-86 | the first build already in an update gives exactly one error naming it, and the loop stops |
| BuildChecks.ClaimCheckPasses | bodhi/validators.py:81-86 | when no build is in an update, nothing is reported |
| BuildChecks.ValidateBuildTags | bodhi/validators.py:89-123 | a missing edited update raises; otherwise the errors and recorded tags are those of the tag scan, with candidate tags for a new update and candidate plus testing tags for an edit |
| BuildChecks.CheckBuildTags | bodhi/validators.py:100-123 | writes the tag scan's errors, outcome and recorded tags into the request |
| BuildChecks.ScanTags | bodhi/validators.py:100-123 | the loop yields exactly the tag scan's errors, its outcome, and the tags recorded for the builds visited |
| BuildChecks.JudgeTags | bodhi/validators.py:106-123 | one build's verdict: release mismatch when editing, then the valid-tag test |
| BuildChecks.AnyTagIn | bodhi/validators.py:116-120 | the flag loop finds a valid tag exactly when one of the tags is valid |
| BuildChecks.NewTagCheck | bodhi/validators.py:100-123 | for a new update every build is visited, nothing raises, and a build gets the "Invalid tag" error exactly when none of its tags is valid |
| BuildChecks.EditTagCheckCrossRelease | bodhi/validators.py:106-113 | when editing, the first build of another release ends the loop with one error naming both releases, after the tag errors of the builds before it |
| BuildChecks.ValidateAcls | bodhi/validators.py:144-223 | the errors, outcome, recorded releases and people, and created packages are those of the ACL scan |
| BuildChecks.ScanAcls | bodhi/validators.py:154-223 | the loop yields exactly the ACL scan's errors, its outcome, the info it writes, and the database with created packages |
| BuildChecks.AclBuild | bodhi/validators.py:155-223 | one build's verdict, its package lookup or creation, and its release and people writes |
| BuildChecks.InGroupOrAdmin | bodhi/validators.py:202-219 | the two group loops grant access exactly when a user group has access or is an admin group |
| BuildChecks.AclRecordKeeps | bodhi/validators.py:176-197 | the ACL check writes only releases and people, never nvrs or tags |
| BuildChecks.AdminNeverDenied | bodhi/validators.py:211-219 | an admin-group member is never denied access, and gets at most one error |
| BuildChecks.PackageDbAccessRule | bodhi/validators.py:179-223 | with pkgdb, a build passes exactly when the user is a committer, is in a pushing group, or is in an admin group; otherwise the denial names the user and package |
| BuildChecks.DummyAccessRule | bodhi/validators.py:189-192 | in dummy mode only 'ralph', 'guest' or admin-group members pass |
| BuildChecks.NoAclOnlyAdmins | bodhi/validators.py:193-195 | with no ACL system, only admin-group members pass |
| BuildChecks.DeniedBuildsAllReported | bodhi/validators.py:221-223 | every denied build before the first stop is reported, naming the user and package |
| BuildChecks.UnknownReleaseStops | bodhi/validators.py:166-172 | a build whose release cannot be determined ends the loop with exactly one error |
| BuildChecks.AclNoCrashWhenRecorded | bodhi/validators.py:155-166 | once nvrs and tags are recorded, the ACL check does not raise |
| BuildChecks.CreatePackagesSound | bodhi/validators.py:158-162 | package lookup only adds packages; every visited build's package then exists; unique names stay unique |
| BuildChecks.ValidateVersion | bodhi/validators.py:226-240 | the errors and outcome are those of the version scan |
| BuildChecks.ScanVersions | bodhi/validators.py:229-240 | the loop yields exactly the version scan's errors and outcome |
| BuildChecks.VersionBuild | bodhi/validators.py:230-240 | one build's verdict: older than the package's newest build, or not |
| BuildChecks.VersionNoRegression | bodhi/validators.py:226-240 | at most one error; with none and no exception, no build is older than its package's newest build |
| BuildChecks.ValidateUniqueness | bodhi/validators.py:243-264 | the errors and outcome are those of the uniqueness scan |
| BuildChecks.ScanUniqueness | bodhi/validators.py:245-264 | an empty list gives no error; otherwise the outer loop yields exactly the scan's errors and outcome |
| BuildChecks.FindClash | bodhi/validators.py:249-264 | the inner loop with its `seen_build` counter yields the clash verdict and never a continuing report |
| BuildChecks.ClashPasses | bodhi/validators.py:250-264 | a build listed once, with no other build of its package, passes |
| BuildChecks.ClashHalts | bodhi/validators.py:250-264 | a rival build of the same package, or a second listing, stops the loop |
| BuildChecks.UniquenessIff | bodhi/validators.py:243-264 | with nvrs recorded: no exception, at most one error, and no error exactly when no two positions hold builds of one package |
| BuildChecks.ClashNeverCrashes | bodhi/validators.py:251 | with nvrs recorded, the inner loop neither raises nor reports without stopping |
| BuildChecks.ClashOnlyDuplicate | bodhi/validators.py:253-258 | when the only same-package builds are the build itself, the only possible error is "Duplicate builds" |
| BuildChecks.ClashOnlyMultiple | bodhi/validators.py:260-264 | when the build is listed at most once, the only possible error is "Multiple … builds" naming a real rival |
| BuildChecks.RepeatedBuildIsDuplicate | bodhi/validators.py:253-258 | a textually repeated build, with no two packages clashing otherwise, gives one "Duplicate builds" error |
| BuildChecks.SamePackageIsMultiple | bodhi/validators.py:260-264 | two distinct builds of one package give one "Multiple … builds" error naming them |
| LookupChecks.CheckNames | bodhi/validators.py:282-305 | the shared list loop: a field that is None is left alone; unknown names are reported together and the field is kept; otherwise the field becomes the found rows |
| LookupChecks.ValidatePackages | bodhi/validators.py:282-305 | the list check on `packages` against `Package.get` |
| LookupChecks.ValidateUpdates | bodhi/validators.py:308-334 | the list check on `updates` against the update titles and aliases |
| LookupChecks.ValidateGroups | bodhi/validators.py:337-360 | the list check on `groups` against the group names |
| LookupChecks.ValidateReleases | bodhi/validators.py:378-404 | the list check on `releases` against a release name or version |
| LookupChecks.UnresolvedExactly | bodhi/validators.py:292-299 | a name is reported exactly when it is in the input and is not found |
| LookupChecks.UnresolvedInOrder | bodhi/validators.py:292-299 | unknown names are reported in input order |
| LookupChecks.ResolvedAligned | bodhi/validators.py:292-305 | when every name is found, the stored rows have the same length and order as the names |
| LookupChecks.ListCheckReportsIffUnknown | bodhi/validators.py:300-305 | an error is added exactly when some name is unknown; the field is then unchanged, and otherwise it holds the resolved rows |
| LookupChecks.CheckName | bodhi/validators.py:363-375 | the shared single-name check: None is left alone, a found name becomes its row, an unknown one is reported |
| LookupChecks.ValidateRelease | bodhi/validators.py:363-375 | the single-name check on `release` against release names |
| LookupChecks.ValidateUsername | bodhi/validators.py:407-420 | the single-name check on `user` against user names |
| LookupChecks.ValidateUpdateOwner | bodhi/validators.py:436-449 | the single-name check on `update_owner` against user names |
| LookupChecks.SingleReleaseFoundByList | bodhi/validators.py:378-404 | a release found by name is also found by the list check, as the same release when no version equals the name |
| LookupChecks.ValidateUpdate | bodhi/validators.py:423-433 | a found update replaces the field; otherwise 404 with one URL error naming the value |
| LookupChecks.ValidateUpdateId | bodhi/validators.py:452-459 | the update of the URL id is stored, or 404 with one error |
| LookupChecks.ConditionallyGetUpdate | bodhi/validators.py:462-474 | an update object is used as is; a string finds an update exactly when a stored update has it as title or alias; any other result (None included) is no update, and only stored updates matching the string come back |
| LookupChecks.ConditionallyGetUpdateSettles | bodhi/validators.py:462-474 | storing the update found back into the request finds the same update again |
| LookupChecks.Reviewed | bodhi/validators.py:493-501 | reviewing one feedback item pops its id key and, when accepted, stores the row under the target key; nothing else changes |
| LookupChecks.ReviewedAll | bodhi/validators.py:493-501 | every item is reviewed in place, same length and order |
| LookupChecks.ReviewItems | bodhi/validators.py:490-501 | the feedback loop yields the reviewed items, the rejected ids and the accepted items |
| LookupChecks.ApprovedAll | bodhi/validators.py:503-508 | when nothing is rejected, the accepted items are all the items |
| LookupChecks.RejectedExactly | bodhi/validators.py:493-498 | an id is rejected exactly when some item carries it and it is not accepted |
| LookupChecks.ValidateBugFeedback | bodhi/validators.py:477-508 | None is left alone; no update gives 404; otherwise the items are reviewed, and either one error lists the bad bug ids or the field holds the accepted items |
| LookupChecks.FeedbackUpdate | bodhi/validators.py:517-534 | the update of test-case feedback: none when the field is falsy, otherwise the same update that `_conditionally_get_update` finds |
| LookupChecks.ValidateTestcaseFeedback | bodhi/validators.py:511-557 | as for bugs, with test cases that must belong to a package of the update's builds |
| LookupChecks.AcceptedFeedbackBelongs | bodhi/validators.py:494-501 | an accepted bug lists the update; an accepted test case's package is built by the update |
| LookupChecks.ParseDigits | bodhi/validators.py:564-565 | a digit string parses exactly when it is non-empty and all digits |
| LookupChecks.ParseIntShowInt | bodhi/validators.py:564-565 | `int` reads back every integer's decimal text |
| LookupChecks.ParseIntRejectsOtherChars | bodhi/validators.py:564-569 | a text holding a character other than whitespace, a sign or a digit is not an int |
| LookupChecks.ValidateCommentId | bodhi/validators.py:560-577 | a non-integer id gives 400; an unknown comment gives 404; otherwise the comment is stored |
| LookupChecks.ValidateStack | bodhi/validators.py:694-703 | a found stack is stored; otherwise 404 with one query-string error naming the name |
| FieldChecks.TagTypeErrors | bodhi/validators.py:130-141 | one tag type gives an error exactly when its field holds something Koji does not know as a tag |
| FieldChecks.ValidateTags | bodhi/validators.py:126-141 | the errors are those of every tag type in order, and nothing else changes |
| FieldChecks.ScanTagFields | bodhi/validators.py:130-141 | the loop over the tag types reports exactly the errors of every tag type, in order |
| FieldChecks.TagErrorsExactly | bodhi/validators.py:130-141 | an error is reported exactly for each tag type whose field is unknown, naming the field and its value |
| FieldChecks.KnownTagsPass | bodhi/validators.py:130-141 | when every tag field is empty or a known tag, nothing is reported |
| FieldChecks.ValidateEnums | bodhi/validators.py:267-279 | the dictionary and outcome are those of converting the six fields in order |
| FieldChecks.ConvertRaisesIff | bodhi/validators.py:276-279 | the conversion raises exactly when some field holds a name its enumeration does not know |
| FieldChecks.ConvertResult | bodhi/validators.py:267-279 | without an exception, each non-None field holds its enumerated value, the keys are the same, and every other entry is unchanged |
| FieldChecks.EnumsConverted | bodhi/validators.py:268-279 | the same for the six fields of `validate_enums` |
| FieldChecks.KeepValid | bodhi/validators.py:592-593 | a tag is kept exactly when it is listed and valid |
| FieldChecks.ValidateOverrideBuild | bodhi/validators.py:580-633 | a missing nvr raises; otherwise the verdict decides the stored build or the `nvr` error, and the database gains the release of a stored build that lacked one |
| FieldChecks.CarriesTag | bodhi/validators.py:605-615 | the `for … else` finds a tag exactly when the release's candidate or testing tag is listed |
| FieldChecks.OverrideAcceptedIsSound | bodhi/validators.py:580-633 | an accepted stored build carries its release's candidate or testing tag; an accepted new build has the release its tags determine, no package and no update |
| FieldChecks.OverrideOfReleasedBuild | bodhi/validators.py:605-615 | a stored build with a release is refused exactly when it carries neither override tag, and the database is unchanged |
| GateChecks.BuildrootLimit | bodhi/validators.py:651 | the limit defaults to 31 days |
| GateChecks.ExpirationErrors | bodhi/validators.py:636-658 | at most one error |
| GateChecks.ValidateExpirationDate | bodhi/validators.py:636-658 | the errors and outcome are those of the window check, and nothing else changes |
| GateChecks.ExpirationWindow | bodhi/validators.py:645-656 | a date is accepted exactly when it lies in (now, now + limit days]; an earlier date is "in the past", a later one "longer than" the limit |
| GateChecks.DefaultExpirationWindow | bodhi/validators.py:651-652 | without a setting, the window is 31 days |
| GateChecks.CaptchaErrors | bodhi/validators.py:674-691 | at most one error |
| GateChecks.ValidateCaptcha | bodhi/validators.py:661-691 | both captcha keys are always removed (a missing one raises); the errors are the captcha verdict's, with status 400 |
| GateChecks.CaptchaGate | bodhi/validators.py:667-691 | errors only for anonymous users with a secret configured; a missing key before a missing value before a failed verification; a pass exactly when both are given and verify |
| GateChecks.NamedUsersPass | bodhi/validators.py:667-669 | a named logged-in user without an email is never asked |
| GateChecks.GeneratorHas | bodhi/validators.py:723 | `in` on the generator finds the name exactly when it remains, consuming the generator up to it, or entirely |
| GateChecks.RequirementsAsWritten | bodhi/validators.py:719-729 | the requirement loop as written reports at most one error |
| GateChecks.AsWrittenListsNoChoices | bodhi/validators.py:723-727 | as written, the error lists no valid choice |
| GateChecks.AsWrittenRefusesReordered | bodhi/validators.py:720-723 | as written, valid requirements in another order than Taskotron's are refused |
| GateChecks.AsWrittenAcceptsOnlyValid | bodhi/validators.py:720-723 | whatever the code as written accepts, the intended check accepts too |
| GateChecks.IntendedRequirements | bodhi/validators.py:712-729 | the intended check reports at most one error |
| GateChecks.IntendedRequirementsExactly | bodhi/validators.py:722-729 | a list is refused exactly when a name is not a valid test case, naming the first such name and all valid ones |
| GateChecks.ValidateRequirements | bodhi/validators.py:712-729 | None is stored as None; otherwise the errors are those of the corrected check (see Findings), with status 400 exactly when one is reported |

## Left out

- `validate_csrf_token` reads thread-local session state; it is not modelled.
- `bodhi/static/js/site.js` is browser code and is not part of this model.
- The models module is not part of this model. `Package.get`, `Update.get`,
  `Build.get`, `Release.from_tags`, `Release.get_tags`, `Build.get_tags` and
  `Package.get_pkg_pushers` are lookups over the tables in `Store`, or functions
  passed in. `Build.get_tags` is taken to list the nvr's Koji tags.
- `get_nvr`, `tokenize`, `rpm.labelCompare`, `captcha.validate`, the Taskotron
  list, `datetime.utcnow()` and the settings are parameters. Datetimes are
  integers counting microseconds.
- Message texts are kept as structured values (`Message`) carrying the names
  they interpolate, not as formatted strings.
- Logging is not modelled.
- Objects that SQLAlchemy tracks are values here. The new `Build` of
  `validate_override_build` is not added to the database. `db.flush()` is
  only the addition of the package row.
- LookupChecks.ValidateCommentId: `Comment.get` is called with the URL text.
  The model looks the comment up by the integer that text parses to.
- LookupChecks.ParseDigits: Python 2 `int()` is modelled for ASCII digits and
  ASCII whitespace only. Unicode digits and underscores are not modelled.
- LookupChecks.ValidateBugFeedback and LookupChecks.ValidateTestcaseFeedback
  require every feedback item to carry its id key and the `update` field to be
  present. The schema guarantees both; without them the code raises KeyError.
- LookupChecks.CheckNames and LookupChecks.CheckName require the field to be
  None or of the schema's type (a list of names, or a name).
- FieldChecks.ValidateOverrideBuild requires a present `nvr` to be a string and
  `Release.get_tags()` to have candidate and testing types, as the schema and
  the database guarantee.
- FieldChecks.ValidateTags treats a non-string tag value as an unknown tag.
- BuildChecks.ValidateBuildTags requires the candidate and testing tag types.
- GateChecks.ValidateRequirements follows the corrected membership test
  (`IntendedRequirements`), not the code as written. The code tests each
  requirement against a generator that earlier tests consume, so it refuses
  valid requirements given out of Taskotron's order and lists no choices in
  the message. That behaviour is `RequirementsAsWritten`, and
  `AsWrittenRefusesReordered` exhibits it; it does not reach the request state.
- Requests.BuildsOf reads a missing or non-list `builds` value as the empty
  list. The code iterates `request.validated.get('builds', [])`, which raises
  TypeError when the value is None (bodhi/validators.py:47, 81, 102, 154, 229).
  The schema's required `builds` list excludes that case, so the model does not
  capture the raise.
- BuildChecks.ValidateBuilds and BuildChecks.ValidateAcls take the user as a
  `User`, never None. The code raises AttributeError on `user.groups` in edit
  mode and on `user.name` in `validate_acls` when `request.user` is None; the
  services behind these validators require an authenticated user, so that
  raise is not modelled.
- The order in which the validators are chained for each service is not
  modelled. Each validator is modelled on its own.

## Findings

| source | as written | input that shows it | evidently intended | confidence | as-written member | corrected member |
|---|---|---|---|---|---|---|
| bodhi/validators.py:720-727 | `requirement not in valid_requirements` tests membership against a generator. Each test consumes it, and the error message joins the exhausted generator | Taskotron test cases `a`, `b` and requirements `b a`: `a` is reported although it is valid, and the message lists no choices | each requirement is checked against the whole list of valid test cases, and the message lists them all | not executed | GateChecks.RequirementsAsWritten | GateChecks.IntendedRequirements |
