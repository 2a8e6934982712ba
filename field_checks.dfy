/** The checks on single fields of an update or override form: the Koji tag
    fields of a release, the conversion of enumeration names into their
    enumerated values, and the build of a buildroot override. */
module FieldChecks {
  import opened Base
  import opened Requests
  import BuildChecks

  // ---------------------------------------------------------------------------
  // validate_tags

  /** The form field that holds a release's tag of the given type. */
  function TagKey(tagType: string): string
  {
    tagType + "_tag"
  }

  /** A tag field is refused when it holds something and Koji does not know it
      as a tag. A value that is not a string is never a tag name. */
  predicate UnknownTag(v: Value, koji: Koji)
  {
    Truthy(v) && !(v.VStr? && koji.hasTag(v.s))
  }

  /** What `validate_tags` reports for one tag type. */
  function TagTypeErrors(validated: map<string, Value>, koji: Koji, tagType: string): (r: seq<Error>)
    ensures |r| <= 1
    ensures r != [] <==> UnknownTag(Get(validated, TagKey(tagType)), koji)
  {
    var v := Get(validated, TagKey(tagType));
    if UnknownTag(v, koji) then [Error(Body, TagKey(tagType), InvalidKojiTag(v))] else []
  }

  /** What `validate_tags` reports over the tag types, in their order. */
  function TagErrors(validated: map<string, Value>, koji: Koji, tagTypes: seq<string>): (r: seq<Error>)
    ensures |r| <= |tagTypes|
    decreases |tagTypes|
  {
    if tagTypes == [] then []
    else TagErrors(validated, koji, tagTypes[..|tagTypes| - 1]) + TagTypeErrors(validated, koji, tagTypes[|tagTypes| - 1])
  }

  /** `validate_tags`: every tag field that holds something must name a Koji
      tag; each one that does not is reported, and the check goes on. */
  method ValidateTags(req: Request, koji: Koji, table: TagTable)
    modifies req
    ensures req.errors == old(req.errors) + TagErrors(old(req.validated), koji, table.order)
    ensures req.validated == old(req.validated) && req.buildinfo == old(req.buildinfo)
    ensures req.status == old(req.status) && req.db == old(req.db)
  {
    var found := ScanTagFields(req.validated, koji, table.order);
    req.errors := req.errors + found;
  }

  /** The loop of `validate_tags` over the tag types. A known name is written
      back to its field unchanged, so the mapping stays as it was. */
  method ScanTagFields(validated: map<string, Value>, koji: Koji, types: seq<string>) returns (found: seq<Error>)
    ensures found == TagErrors(validated, koji, types)
  {
    found := [];
    var fields := validated;
    for i := 0 to |types|
      invariant found == TagErrors(validated, koji, types[..i])
      invariant fields == validated
    {
      TagErrorsNext(validated, koji, types, i);
      var key := TagKey(types[i]);
      var name := Get(fields, key);
      if !Truthy(name) {
        continue;
      }
      if name.VStr? && koji.hasTag(name.s) {
        assert fields[key := name] == fields;
        fields := fields[key := name];
      } else {
        found := found + [Error(Body, key, InvalidKojiTag(name))];
      }
    }
    assert types[..|types|] == types;
  }

  lemma TagErrorsNext(validated: map<string, Value>, koji: Koji, types: seq<string>, i: nat)
    requires i < |types|
    ensures TagErrors(validated, koji, types[..i + 1]) ==
              TagErrors(validated, koji, types[..i]) + TagTypeErrors(validated, koji, types[i])
  {
    assert types[..i + 1][..i] == types[..i];
  }

  /** An error is reported exactly for each tag type whose field holds
      something Koji does not know, and it names that field and its value. */
  lemma {:induction false} TagErrorsExactly(validated: map<string, Value>, koji: Koji, tagTypes: seq<string>, e: Error)
    ensures e in TagErrors(validated, koji, tagTypes) <==>
              exists t :: t in tagTypes && UnknownTag(Get(validated, TagKey(t)), koji) &&
                e == Error(Body, TagKey(t), InvalidKojiTag(Get(validated, TagKey(t))))
    decreases |tagTypes|
  {
    if tagTypes != [] {
      var front := tagTypes[..|tagTypes| - 1];
      var t := tagTypes[|tagTypes| - 1];
      TagErrorsExactly(validated, koji, front, e);
      assert tagTypes == front + [t];
      assert forall x :: x in tagTypes <==> x in front || x == t;
    }
  }

  /** When every tag field is empty or names a Koji tag, nothing is reported. */
  lemma KnownTagsPass(validated: map<string, Value>, koji: Koji, tagTypes: seq<string>)
    requires forall t :: t in tagTypes ==> !UnknownTag(Get(validated, TagKey(t)), koji)
    ensures TagErrors(validated, koji, tagTypes) == []
  {
    if TagErrors(validated, koji, tagTypes) != [] {
      var e := TagErrors(validated, koji, tagTypes)[0];
      TagErrorsExactly(validated, koji, tagTypes, e);
    }
  }

  // ---------------------------------------------------------------------------
  // validate_enums

  /** The fields `validate_enums` converts, with the enumeration of each, in
      the order it converts them. */
  const EnumFields: seq<(string, EnumKind)> :=
    [("request", RequestEnum), ("severity", SeverityEnum), ("status", StatusEnum),
     ("suggest", SuggestionEnum), ("type", TypeEnum), ("state", ReleaseStateEnum)]

  /** `from_string` of each enumeration: the symbol it names, or None when it
      raises ValueError. */
  type FromString = (EnumKind, Value) -> Option<string>

  /** The dictionary a run of `validate_enums` leaves, and whether it ended by
      the ValueError of a name that is not in its enumeration. */
  datatype Conversion = Conversion(validated: map<string, Value>, raised: bool)

  /** The conversion of the fields `fields`, in order, starting from `validated`. */
  function ConvertEnums(validated: map<string, Value>, fields: seq<(string, EnumKind)>, fromString: FromString): Conversion
    decreases |fields|
  {
    if fields == [] then Conversion(validated, false)
    else
      var v := Get(validated, fields[0].0);
      if v == VNull then ConvertEnums(validated, fields[1..], fromString)
      else match fromString(fields[0].1, v)
        case None => Conversion(validated, true)
        case Some(symbol) => ConvertEnums(validated[fields[0].0 := VEnum(fields[0].1, symbol)], fields[1..], fromString)
  }

  /** `validate_enums`: every enumeration field that is not None is replaced
      by its enumerated value; a name outside its enumeration raises. */
  method ValidateEnums(req: Request, fromString: FromString) returns (outcome: Outcome)
    modifies req
    ensures var c := ConvertEnums(old(req.validated), EnumFields, fromString);
            req.validated == c.validated && outcome == (if c.raised then Raised else Returned)
    ensures req.errors == old(req.errors) && req.buildinfo == old(req.buildinfo)
    ensures req.status == old(req.status) && req.db == old(req.db)
  {
    var fields := EnumFields;
    assert fields[0..] == fields;
    for i := 0 to |fields|
      invariant ConvertEnums(old(req.validated), fields, fromString) == ConvertEnums(req.validated, fields[i..], fromString)
      invariant req.errors == old(req.errors) && req.buildinfo == old(req.buildinfo)
      invariant req.status == old(req.status) && req.db == old(req.db)
    {
      assert fields[i..][0] == fields[i] && fields[i..][1..] == fields[i + 1..];
      var (param, kind) := fields[i];
      var value := Get(req.validated, param);
      if value == VNull {
        continue;
      }
      var symbol := fromString(kind, value);
      if symbol.None? {
        return Raised;
      }
      req.validated := req.validated[param := VEnum(kind, symbol.value)];
    }
    assert fields[|fields|..] == [];
    return Returned;
  }

  /** No field name occurs twice in the list. */
  predicate DistinctFields(fields: seq<(string, EnumKind)>)
  {
    forall i, j :: 0 <= i < j < |fields| ==> fields[i].0 != fields[j].0
  }

  /** The field is one of those converted. */
  predicate IsEnumField(fields: seq<(string, EnumKind)>, key: string)
  {
    exists j :: 0 <= j < |fields| && fields[j].0 == key
  }

  /** A field is refused when it holds something its enumeration does not name. */
  predicate Unconvertible(validated: map<string, Value>, field: (string, EnumKind), fromString: FromString)
  {
    Get(validated, field.0) != VNull && fromString(field.1, Get(validated, field.0)).None?
  }

  lemma EnumFieldsDistinct()
    ensures DistinctFields(EnumFields)
  {
  }

  /** After a successful conversion, a field that was not None holds the
      enumerated value its name denotes. */
  predicate FieldConverted(before: map<string, Value>, after: map<string, Value>,
                           field: (string, EnumKind), fromString: FromString)
  {
    Get(before, field.0) != VNull ==>
      && fromString(field.1, Get(before, field.0)).Some?
      && Get(after, field.0) == VEnum(field.1, fromString(field.1, Get(before, field.0)).value)
  }

  /** An entry the conversion does not touch: not one of the fields, or None. */
  predicate Untouched(fields: seq<(string, EnumKind)>, validated: map<string, Value>, key: string)
  {
    !IsEnumField(fields, key) || Get(validated, key) == VNull
  }

  lemma DistinctRest(fields: seq<(string, EnumKind)>)
    requires fields != [] && DistinctFields(fields)
    ensures DistinctFields(fields[1..])
    ensures forall j :: 0 <= j < |fields[1..]| ==> fields[1..][j].0 != fields[0].0
  {
    var rest := fields[1..];
    forall i, j | 0 <= i < j < |rest| ensures rest[i].0 != rest[j].0 {
      assert rest[i] == fields[i + 1] && rest[j] == fields[j + 1];
    }
    forall j | 0 <= j < |rest| ensures rest[j].0 != fields[0].0 {
      assert rest[j] == fields[j + 1];
    }
  }

  /** The conversion raises exactly when some field holds a name its
      enumeration does not know. */
  lemma {:induction false} ConvertRaisesIff(validated: map<string, Value>, fields: seq<(string, EnumKind)>,
                                            fromString: FromString)
    requires DistinctFields(fields)
    ensures ConvertEnums(validated, fields, fromString).raised <==>
              exists j :: 0 <= j < |fields| && Unconvertible(validated, fields[j], fromString)
    decreases |fields|
  {
    if fields != [] {
      var rest := fields[1..];
      DistinctRest(fields);
      var v := Get(validated, fields[0].0);
      var next := if v == VNull || fromString(fields[0].1, v).None? then validated
                  else validated[fields[0].0 := VEnum(fields[0].1, fromString(fields[0].1, v).value)];
      if !Unconvertible(validated, fields[0], fromString) {
        ConvertRaisesIff(next, rest, fromString);
        assert forall j :: 0 <= j < |rest| ==>
                 (Unconvertible(next, rest[j], fromString) <==> Unconvertible(validated, fields[j + 1], fromString));
      }
    }
  }

  /** When it does not raise, every field that was not None now holds its
      enumerated value, and every other entry of the dictionary, and the set
      of keys, is as it was. */
  lemma {:induction false} ConvertResult(validated: map<string, Value>, fields: seq<(string, EnumKind)>,
                                         fromString: FromString)
    requires DistinctFields(fields)
    ensures var c := ConvertEnums(validated, fields, fromString);
            !c.raised ==>
              && c.validated.Keys == validated.Keys
              && (forall j :: 0 <= j < |fields| ==> FieldConverted(validated, c.validated, fields[j], fromString))
              && (forall k :: Untouched(fields, validated, k) ==> Get(c.validated, k) == Get(validated, k))
    decreases |fields|
  {
    if fields != [] {
      var rest := fields[1..];
      DistinctRest(fields);
      var v := Get(validated, fields[0].0);
      if v == VNull {
        ConvertResult(validated, rest, fromString);
        assert forall k :: IsEnumField(rest, k) ==> IsEnumField(fields, k);
        assert forall j :: 1 <= j < |fields| ==> fields[j] == rest[j - 1];
      } else if fromString(fields[0].1, v).Some? {
        var next := validated[fields[0].0 := VEnum(fields[0].1, fromString(fields[0].1, v).value)];
        ConvertResult(next, rest, fromString);
        var c := ConvertEnums(next, rest, fromString);
        if !c.raised {
          assert forall j :: 0 <= j < |rest| ==> Get(next, rest[j].0) == Get(validated, rest[j].0);
          assert !IsEnumField(rest, fields[0].0);
          assert forall j :: 1 <= j < |fields| ==> fields[j] == rest[j - 1];
          forall k | Untouched(fields, validated, k) ensures Get(c.validated, k) == Get(validated, k) {
            if IsEnumField(rest, k) {
              var j :| 0 <= j < |rest| && rest[j].0 == k;
              assert fields[j + 1].0 == k;
            }
          }
        }
      }
    }
  }

  /** `validate_enums` in particular: when it returns, each of the six fields
      that was not None holds its enumerated value and nothing else changed. */
  lemma EnumsConverted(validated: map<string, Value>, fromString: FromString)
    ensures var c := ConvertEnums(validated, EnumFields, fromString);
            !c.raised ==>
              && c.validated.Keys == validated.Keys
              && (forall j :: 0 <= j < |EnumFields| ==> FieldConverted(validated, c.validated, EnumFields[j], fromString))
              && (forall k :: Untouched(EnumFields, validated, k) ==> Get(c.validated, k) == Get(validated, k))
  {
    EnumFieldsDistinct();
    ConvertResult(validated, EnumFields, fromString);
  }

  // ---------------------------------------------------------------------------
  // validate_override_build

  /** The tags of the list that are among the valid ones, in list order. */
  function KeepValid(tags: seq<string>, valid: seq<string>): (r: seq<string>)
    ensures forall t :: t in r <==> t in tags && t in valid
    ensures |r| <= |tags|
  {
    if tags == [] then []
    else (if tags[0] in valid then [tags[0]] else []) + KeepValid(tags[1..], valid)
  }

  /** How `validate_override_build` ends: with the build it accepts, with an
      error on the `nvr` field, or with an exception. */
  datatype Override = Accepted(build: Build) | Refused(message: Message) | OverrideCrashed

  /** A build counts as tagged for an override when Koji lists it under its
      release's candidate or testing tag. */
  predicate TaggedForOverride(tags: seq<string>, release: Release)
  {
    release.candidateTag in tags || release.testingTag in tags
  }

  /** The release a build's candidate and testing tags belong to. */
  function OverrideRelease(nvr: string, koji: Koji, table: TagTable, fromTags: seq<string> -> Inference): Inference
    requires "candidate" in table.tags && "testing" in table.tags
  {
    fromTags(KeepValid(koji.listTags(nvr), BuildChecks.ValidTags(table, true)))
  }

  /** The verdict of `validate_override_build` on the nvr. */
  function OverrideVerdict(db: Store, nvr: string, koji: Koji, table: TagTable,
                           fromTags: seq<string> -> Inference): Override
    requires "candidate" in table.tags && "testing" in table.tags
  {
    match BuildNamed(db, nvr)
    case Some(build) =>
      var release :=
        if build.release.Some? then Inferred(build.release.value) else OverrideRelease(nvr, koji, table, fromTags);
      (match release
       case InferenceKeyError => OverrideCrashed
       case NoRelease => Refused(OverrideReleaseUnknown)
       case Inferred(r) =>
         if TaggedForOverride(koji.listTags(nvr), r) then Accepted(build.(release := Some(r)))
         else Refused(OverrideNotTagged))
    case None =>
      match OverrideRelease(nvr, koji, table, fromTags)
      case InferenceKeyError => OverrideCrashed
      case NoRelease => Refused(OverrideInvalidBuild)
      case Inferred(r) => Accepted(Build(nvr, None, Some(r), false))
  }

  /** The database after `validate_override_build`: a stored build without a
      release gets the release its tags determine. */
  function OverrideStore(db: Store, nvr: string, koji: Koji, table: TagTable,
                         fromTags: seq<string> -> Inference): Store
    requires "candidate" in table.tags && "testing" in table.tags
  {
    match FirstIndex(db.builds, (b: Build) => b.nvr == nvr)
    case Some(i) =>
      if db.builds[i].release.None? && OverrideRelease(nvr, koji, table, fromTags).Inferred? then
        db.(builds := db.builds[i := db.builds[i].(release := Some(OverrideRelease(nvr, koji, table, fromTags).release))])
      else db
    case None => db
  }

  /** `validate_override_build`: the nvr must name a build whose release is
      known, or can be determined from its Koji tags, and a stored build must
      carry its release's candidate or testing tag; the build is then put into
      the validated dictionary. A missing `nvr` raises KeyError. */
  method ValidateOverrideBuild(req: Request, koji: Koji, table: TagTable, fromTags: seq<string> -> Inference)
    returns (outcome: Outcome)
    requires "candidate" in table.tags && "testing" in table.tags
    requires "nvr" in req.validated ==> req.validated["nvr"].VStr?
    modifies req
    ensures "nvr" !in old(req.validated) ==>
              outcome == Raised && req.validated == old(req.validated) && req.errors == old(req.errors) && req.db == old(req.db)
    ensures "nvr" in old(req.validated) ==>
              var nvr := old(req.validated)["nvr"].s;
              && req.db == OverrideStore(old(req.db), nvr, koji, table, fromTags)
              && match OverrideVerdict(old(req.db), nvr, koji, table, fromTags)
                 case Accepted(build) =>
                   outcome == Returned && req.errors == old(req.errors) &&
                   req.validated == old(req.validated)["build" := VRow(BuildRow(build))]
                 case Refused(m) =>
                   outcome == Returned && req.errors == old(req.errors) + [Error(Body, "nvr", m)] &&
                   req.validated == old(req.validated)
                 case OverrideCrashed =>
                   outcome == Raised && req.errors == old(req.errors) && req.validated == old(req.validated)
    ensures req.buildinfo == old(req.buildinfo) && req.status == old(req.status)
  {
    if "nvr" !in req.validated {
      return Raised;
    }
    var nvr := req.validated["nvr"].s;
    var index := FirstIndex(req.db.builds, (b: Build) => b.nvr == nvr);
    var build: Build;
    if index.Some? {
      build := req.db.builds[index.value];
      if build.release.None? {
        var release := fromTags(KeepValid(koji.listTags(nvr), BuildChecks.ValidTags(table, true)));
        if release.InferenceKeyError? {
          return Raised;
        }
        if release.NoRelease? {
          req.AddError(Body, "nvr", OverrideReleaseUnknown);
          return Returned;
        }
        build := build.(release := Some(release.release));
        req.db := req.db.(builds := req.db.builds[index.value := build]);
      }
      var tagged := CarriesTag(koji.listTags(nvr), build.release.value);
      if !tagged {
        req.AddError(Body, "nvr", OverrideNotTagged);
        return Returned;
      }
    } else {
      var release := fromTags(KeepValid(koji.listTags(nvr), BuildChecks.ValidTags(table, true)));
      if release.InferenceKeyError? {
        return Raised;
      }
      if release.NoRelease? {
        req.AddError(Body, "nvr", OverrideInvalidBuild);
        return Returned;
      }
      build := Build(nvr, None, Some(release.release), false);
    }
    req.validated := req.validated["build" := VRow(BuildRow(build))];
    return Returned;
  }

  /** The `for ... else` over a build's tags: whether one of them is the
      release's candidate or testing tag. */
  method CarriesTag(tags: seq<string>, release: Release) returns (found: bool)
    ensures found == TaggedForOverride(tags, release)
  {
    found := false;
    for k := 0 to |tags|
      invariant !found
      invariant forall m :: 0 <= m < k ==> tags[m] != release.candidateTag && tags[m] != release.testingTag
    {
      if tags[k] == release.candidateTag || tags[k] == release.testingTag {
        return true;
      }
    }
  }

  /** An accepted stored build is tagged for its release, and is the stored
      build with that release; an accepted new build carries the release its
      candidate and testing tags determine, no package, and no update. */
  lemma OverrideAcceptedIsSound(db: Store, nvr: string, koji: Koji, table: TagTable, fromTags: seq<string> -> Inference)
    requires "candidate" in table.tags && "testing" in table.tags
    ensures var o := OverrideVerdict(db, nvr, koji, table, fromTags);
            o.Accepted? ==>
              && o.build.nvr == nvr && o.build.release.Some?
              && (BuildNamed(db, nvr).Some? ==>
                    && TaggedForOverride(koji.listTags(nvr), o.build.release.value)
                    && o.build == BuildNamed(db, nvr).value.(release := o.build.release)
                    && OverrideStore(db, nvr, koji, table, fromTags) ==
                         (if BuildNamed(db, nvr).value.release.None?
                          then db.(builds := db.builds[FirstIndex(db.builds, (b: Build) => b.nvr == nvr).value := o.build])
                          else db))
              && (BuildNamed(db, nvr).None? ==>
                    && o.build == Build(nvr, None, o.build.release, false)
                    && OverrideRelease(nvr, koji, table, fromTags) == Inferred(o.build.release.value)
                    && OverrideStore(db, nvr, koji, table, fromTags) == db)
  {
  }

  /** A stored build that already has a release is refused exactly when Koji
      lists it under neither of that release's override tags, and then the
      database is left as it was. */
  lemma OverrideOfReleasedBuild(db: Store, nvr: string, koji: Koji, table: TagTable, fromTags: seq<string> -> Inference)
    requires "candidate" in table.tags && "testing" in table.tags
    requires BuildNamed(db, nvr).Some? && BuildNamed(db, nvr).value.release.Some?
    ensures var r := BuildNamed(db, nvr).value.release.value;
            && (OverrideVerdict(db, nvr, koji, table, fromTags).Refused? <==> !TaggedForOverride(koji.listTags(nvr), r))
            && OverrideStore(db, nvr, koji, table, fromTags) == db
  {
  }
}
