/** The checks that look names up in the database and, when every name is
    found, put the rows in the validated dictionary in their place: lists of
    packages, updates, groups and releases; a single release, user or update;
    bug and test-case feedback; a comment id; a stack. */
module LookupChecks {
  import opened Base
  import opened Requests
  import Schemas

  // ---------------------------------------------------------------------------
  // Lists of names: validate_packages, validate_updates, validate_groups,
  // validate_releases

  /** `Package.get(name)` */
  function FindPackage(db: Store): string -> Option<Row>
  {
    (name: string) => if PackageNamed(db, name).Some? then Some(PackageRow(PackageNamed(db, name).value)) else None
  }

  /** The first update whose title or alias is the name. */
  function FindUpdate(db: Store): string -> Option<Row>
  {
    (name: string) => if UpdateGet(db, VStr(name)).Some? then Some(UpdateRow(UpdateGet(db, VStr(name)).value)) else None
  }

  function GroupNamed(db: Store, name: string): Option<Group>
  {
    First(db.groups, (g: Group) => g.name == name)
  }

  /** The first group with that name. */
  function FindGroup(db: Store): string -> Option<Row>
  {
    (name: string) => if GroupNamed(db, name).Some? then Some(GroupRow(GroupNamed(db, name).value)) else None
  }

  /** The first release whose name or version is the given string. */
  function ReleaseMatching(db: Store, s: string): Option<Release>
  {
    First(db.releases, (r: Release) => r.name == s || r.version == s)
  }

  function FindRelease(db: Store): string -> Option<Row>
  {
    (name: string) => if ReleaseMatching(db, name).Some? then Some(ReleaseRow(ReleaseMatching(db, name).value)) else None
  }

  /** The names the lookup does not find, in input order. */
  function Unresolved(names: seq<string>, find: string -> Option<Row>): seq<string>
    decreases |names|
  {
    if names == [] then []
    else
      var last := names[|names| - 1];
      Unresolved(names[..|names| - 1], find) + (if find(last).None? then [last] else [])
  }

  /** The rows the lookup finds, in input order. */
  function Resolved(names: seq<string>, find: string -> Option<Row>): seq<Row>
    decreases |names|
  {
    if names == [] then []
    else
      var last := names[|names| - 1];
      Resolved(names[..|names| - 1], find) + (if find(last).Some? then [find(last).value] else [])
  }

  /** A list check may only meet a missing value or a list of names. */
  predicate NamesOrNone(validated: map<string, Value>, field: string)
  {
    Get(validated, field).VNull? || Get(validated, field).VStrs?
  }

  /** The effect of a list check on `validated` and the errors: nothing when the
      value is None; one error naming every unknown name when some name is
      unknown; otherwise the names replaced by their rows. */
  predicate ListChecked(before: map<string, Value>, errors0: seq<Error>,
                        after: map<string, Value>, errors: seq<Error>,
                        field: string, noun: string, find: string -> Option<Row>)
  {
    var v := Get(before, field);
    if !v.VStrs? then after == before && errors == errors0
    else if Unresolved(v.ss, find) != [] then
      after == before && errors == errors0 + [Error(Querystring, field, InvalidNames(noun, Unresolved(v.ss, find)))]
    else after == before[field := VRows(Resolved(v.ss, find))] && errors == errors0
  }

  /** The loop the four list checks share: look every name up, then report the
      unknown ones or store the rows. */
  method CheckNames(req: Request, field: string, noun: string, find: string -> Option<Row>)
    requires NamesOrNone(req.validated, field)
    modifies req
    ensures ListChecked(old(req.validated), old(req.errors), req.validated, req.errors, field, noun, find)
    ensures req.buildinfo == old(req.buildinfo) && req.status == old(req.status) && req.db == old(req.db)
  {
    var v := Get(req.validated, field);
    if v.VNull? {
      return;
    }
    var names := v.ss;
    var bad: seq<string> := [];
    var good: seq<Row> := [];
    for i := 0 to |names|
      invariant bad == Unresolved(names[..i], find)
      invariant good == Resolved(names[..i], find)
    {
      assert names[..i + 1][..i] == names[..i];
      var found := find(names[i]);
      if found.None? {
        bad := bad + [names[i]];
      } else {
        good := good + [found.value];
      }
    }
    assert names[..|names|] == names;
    if bad != [] {
      req.AddError(Querystring, field, InvalidNames(noun, bad));
    } else {
      req.validated := req.validated[field := VRows(good)];
    }
  }

  /** `validate_packages` */
  method ValidatePackages(req: Request)
    requires NamesOrNone(req.validated, "packages")
    modifies req
    ensures ListChecked(old(req.validated), old(req.errors), req.validated, req.errors,
                        "packages", "packages", FindPackage(old(req.db)))
    ensures req.buildinfo == old(req.buildinfo) && req.status == old(req.status) && req.db == old(req.db)
  {
    CheckNames(req, "packages", "packages", FindPackage(req.db));
  }

  /** `validate_updates` */
  method ValidateUpdates(req: Request)
    requires NamesOrNone(req.validated, "updates")
    modifies req
    ensures ListChecked(old(req.validated), old(req.errors), req.validated, req.errors,
                        "updates", "updates", FindUpdate(old(req.db)))
    ensures req.buildinfo == old(req.buildinfo) && req.status == old(req.status) && req.db == old(req.db)
  {
    CheckNames(req, "updates", "updates", FindUpdate(req.db));
  }

  /** `validate_groups` */
  method ValidateGroups(req: Request)
    requires NamesOrNone(req.validated, "groups")
    modifies req
    ensures ListChecked(old(req.validated), old(req.errors), req.validated, req.errors,
                        "groups", "groups", FindGroup(old(req.db)))
    ensures req.buildinfo == old(req.buildinfo) && req.status == old(req.status) && req.db == old(req.db)
  {
    CheckNames(req, "groups", "groups", FindGroup(req.db));
  }

  /** `validate_releases`: a release is named by its name or its version. */
  method ValidateReleases(req: Request)
    requires NamesOrNone(req.validated, "releases")
    modifies req
    ensures ListChecked(old(req.validated), old(req.errors), req.validated, req.errors,
                        "releases", "releases", FindRelease(old(req.db)))
    ensures req.buildinfo == old(req.buildinfo) && req.status == old(req.status) && req.db == old(req.db)
  {
    CheckNames(req, "releases", "releases", FindRelease(req.db));
  }

  /** The error lists exactly the unknown names. */
  lemma {:induction false} UnresolvedExactly(names: seq<string>, find: string -> Option<Row>)
    ensures forall x :: x in Unresolved(names, find) <==> x in names && find(x).None?
    decreases |names|
  {
    if names != [] {
      var front := names[..|names| - 1];
      UnresolvedExactly(front, find);
      assert names == front + [names[|names| - 1]];
    }
  }

  /** The unknown names are reported in the order the request gives them. */
  lemma {:induction false} UnresolvedInOrder(a: seq<string>, b: seq<string>, find: string -> Option<Row>)
    ensures Unresolved(a + b, find) == Unresolved(a, find) + Unresolved(b, find)
    decreases |b|
  {
    if b == [] {
      assert a + b == a;
    } else {
      var front := b[..|b| - 1];
      assert (a + b)[..|a + b| - 1] == a + front;
      UnresolvedInOrder(a, front, find);
    }
  }

  /** When every name is known, the stored list holds, position by position,
      the row each name finds. */
  lemma {:induction false} ResolvedAligned(names: seq<string>, find: string -> Option<Row>)
    requires Unresolved(names, find) == []
    ensures |Resolved(names, find)| == |names|
    ensures forall k :: 0 <= k < |names| ==> find(names[k]) == Some(Resolved(names, find)[k])
    decreases |names|
  {
    if names != [] {
      var front := names[..|names| - 1];
      ResolvedAligned(front, find);
    }
  }

  /** A list check either stores rows or reports, never both, and it reports
      exactly when some name is unknown. */
  lemma ListCheckReportsIffUnknown(before: map<string, Value>, errors0: seq<Error>,
                                   after: map<string, Value>, errors: seq<Error>,
                                   field: string, noun: string, find: string -> Option<Row>)
    requires Get(before, field).VStrs?
    requires ListChecked(before, errors0, after, errors, field, noun, find)
    ensures errors != errors0 <==> exists x :: x in Get(before, field).ss && find(x).None?
    ensures errors == errors0 ==> after[field] == VRows(Resolved(Get(before, field).ss, find))
    ensures errors != errors0 ==> after == before
  {
    var names := Get(before, field).ss;
    UnresolvedExactly(names, find);
    if Unresolved(names, find) != [] {
      var x := Unresolved(names, find)[0];
      assert x in Unresolved(names, find);
    }
  }

  // ---------------------------------------------------------------------------
  // Single names: validate_release, validate_username, validate_update_owner

  predicate NameOrNone(validated: map<string, Value>, field: string)
  {
    Get(validated, field).VNull? || Get(validated, field).VStr?
  }

  /** The effect of a single-name check: nothing for None; the row in place of
      the name when it is found; otherwise an error naming it. */
  predicate NameChecked(before: map<string, Value>, errors0: seq<Error>,
                        after: map<string, Value>, errors: seq<Error>,
                        field: string, noun: string, find: string -> Option<Row>)
  {
    var v := Get(before, field);
    if !v.VStr? then after == before && errors == errors0
    else if find(v.s).Some? then after == before[field := VRow(find(v.s).value)] && errors == errors0
    else after == before && errors == errors0 + [Error(Querystring, field, InvalidName(noun, v))]
  }

  method CheckName(req: Request, field: string, noun: string, find: string -> Option<Row>)
    requires NameOrNone(req.validated, field)
    modifies req
    ensures NameChecked(old(req.validated), old(req.errors), req.validated, req.errors, field, noun, find)
    ensures req.buildinfo == old(req.buildinfo) && req.status == old(req.status) && req.db == old(req.db)
  {
    var v := Get(req.validated, field);
    if v.VNull? {
      return;
    }
    var found := find(v.s);
    if found.Some? {
      req.validated := req.validated[field := VRow(found.value)];
    } else {
      req.AddError(Querystring, field, InvalidName(noun, v));
    }
  }

  /** The first release with exactly that name; the version does not count here. */
  function FindReleaseByName(db: Store): string -> Option<Row>
  {
    (name: string) =>
      var r := First(db.releases, (r: Release) => r.name == name);
      if r.Some? then Some(ReleaseRow(r.value)) else None
  }

  function FindUser(db: Store): string -> Option<Row>
  {
    (name: string) =>
      var u := First(db.users, (u: User) => u.name == name);
      if u.Some? then Some(UserRow(u.value)) else None
  }

  /** `validate_release` */
  method ValidateRelease(req: Request)
    requires NameOrNone(req.validated, "release")
    modifies req
    ensures NameChecked(old(req.validated), old(req.errors), req.validated, req.errors,
                        "release", "release", FindReleaseByName(old(req.db)))
    ensures req.buildinfo == old(req.buildinfo) && req.status == old(req.status) && req.db == old(req.db)
  {
    CheckName(req, "release", "release", FindReleaseByName(req.db));
  }

  /** `validate_username` */
  method ValidateUsername(req: Request)
    requires NameOrNone(req.validated, "user")
    modifies req
    ensures NameChecked(old(req.validated), old(req.errors), req.validated, req.errors,
                        "user", "user", FindUser(old(req.db)))
    ensures req.buildinfo == old(req.buildinfo) && req.status == old(req.status) && req.db == old(req.db)
  {
    CheckName(req, "user", "user", FindUser(req.db));
  }

  /** `validate_update_owner`: the owner is looked up among the users. */
  method ValidateUpdateOwner(req: Request)
    requires NameOrNone(req.validated, "update_owner")
    modifies req
    ensures NameChecked(old(req.validated), old(req.errors), req.validated, req.errors,
                        "update_owner", "user", FindUser(old(req.db)))
    ensures req.buildinfo == old(req.buildinfo) && req.status == old(req.status) && req.db == old(req.db)
  {
    CheckName(req, "update_owner", "user", FindUser(req.db));
  }

  /** A release found by its name alone is also found by the list check, which
      accepts a name or a version, unless an earlier release has that string as
      its version. */
  lemma SingleReleaseFoundByList(db: Store, name: string)
    requires FindReleaseByName(db)(name).Some?
    ensures FindRelease(db)(name).Some?
    ensures (forall r :: r in db.releases ==> r.version != name) ==> FindRelease(db)(name) == FindReleaseByName(db)(name)
  {
    var byName := First(db.releases, (r: Release) => r.name == name);
    var i :| 0 <= i < |db.releases| && db.releases[i] == byName.value;
    assert ReleaseMatching(db, name).Some?;
    if forall r :: r in db.releases ==> r.version != name {
      var p := (r: Release) => r.name == name || r.version == name;
      var q := (r: Release) => r.name == name;
      assert forall j :: 0 <= j < |db.releases| ==> p(db.releases[j]) == q(db.releases[j]);
      var a := FirstIndex(db.releases, p);
      var b := FirstIndex(db.releases, q);
      FirstIndexAt(db.releases, p, b.value);
    }
  }

  // ---------------------------------------------------------------------------
  // validate_update, validate_update_id, _conditionally_get_update

  /** `validate_update`: the value (even None) is looked up by title or alias;
      an unknown one is a 404 on the url. */
  method ValidateUpdate(req: Request)
    modifies req
    ensures var idx := Get(old(req.validated), "update");
            match UpdateGet(old(req.db), idx)
            case Some(u) => req.validated == old(req.validated)["update" := VRow(UpdateRow(u))] &&
                            req.errors == old(req.errors) && req.status == old(req.status)
            case None => req.validated == old(req.validated) && req.status == Some(NotFound) &&
                         req.errors == old(req.errors) + [Error(Url, "update", InvalidName("update", idx))]
    ensures req.buildinfo == old(req.buildinfo) && req.db == old(req.db)
  {
    var idx := Get(req.validated, "update");
    var update := UpdateGet(req.db, idx);
    if update.Some? {
      req.validated := req.validated["update" := VRow(UpdateRow(update.value))];
    } else {
      req.Fail(Url, "update", InvalidName("update", idx), NotFound);
    }
  }

  /** `validate_update_id`: the id from the url names an update by title or alias. */
  method ValidateUpdateId(req: Request, id: string)
    modifies req
    ensures match UpdateGet(old(req.db), VStr(id))
            case Some(u) => req.validated == old(req.validated)["update" := VRow(UpdateRow(u))] &&
                            req.errors == old(req.errors) && req.status == old(req.status)
            case None => req.validated == old(req.validated) && req.status == Some(NotFound) &&
                         req.errors == old(req.errors) + [Error(Url, "id", InvalidUpdateId)]
    ensures req.buildinfo == old(req.buildinfo) && req.db == old(req.db)
  {
    var update := UpdateGet(req.db, VStr(id));
    if update.Some? {
      req.validated := req.validated["update" := VRow(UpdateRow(update.value))];
    } else {
      req.Fail(Url, "id", InvalidUpdateId, NotFound);
    }
  }

  predicate IsUpdateRow(v: Value)
  {
    v.VRow? && v.row.UpdateRow?
  }

  /** `_conditionally_get_update`: an update row is used as it is, None stays
      None, anything else is looked up by title or alias, so only a stored
      update matching that string comes back. */
  function ConditionallyGetUpdate(validated: map<string, Value>, db: Store): (r: Option<Update>)
    requires "update" in validated
    ensures IsUpdateRow(validated["update"]) ==> r == Some(validated["update"].row.update)
    ensures validated["update"].VStr? ==>
              (r.Some? <==> exists u :: u in db.updates && (u.title == validated["update"].s || u.alias == Some(validated["update"].s)))
    ensures r.Some? && !IsUpdateRow(validated["update"]) ==>
              && validated["update"].VStr?
              && r.value in db.updates
              && (r.value.title == validated["update"].s || r.value.alias == Some(validated["update"].s))
  {
    var update := validated["update"];
    if IsUpdateRow(update) then Some(update.row.update)
    else if update.VNull? then None
    else UpdateGet(db, update)
  }

  /** Storing the update it returns and asking again gives the same update: a
      later check sees what an earlier one resolved. */
  lemma ConditionallyGetUpdateSettles(validated: map<string, Value>, db: Store)
    requires "update" in validated && ConditionallyGetUpdate(validated, db).Some?
    ensures var u := ConditionallyGetUpdate(validated, db).value;
            ConditionallyGetUpdate(validated["update" := VRow(UpdateRow(u))], db) == Some(u)
  {
  }

  // ---------------------------------------------------------------------------
  // Feedback lists: validate_bug_feedback, validate_testcase_feedback

  predicate AllHave(items: seq<map<string, Value>>, key: string)
  {
    forall k :: 0 <= k < |items| ==> key in items[k]
  }

  /** A feedback item after the check has seen it: its id key popped and, when
      the id is accepted, the row stored under `target`. */
  function Reviewed(item: map<string, Value>, key: string, target: string,
                    accept: Value -> Option<Row>): (r: map<string, Value>)
    requires key in item && key != target
    ensures key !in r
    ensures target in r <==> accept(item[key]).Some? || target in item
    ensures accept(item[key]).Some? ==> r[target] == VRow(accept(item[key]).value)
    ensures forall k :: k in item && k != key && k != target ==> k in r && r[k] == item[k]
    ensures forall k :: k in r ==> k in item || k == target
  {
    var rest := item - {key};
    match accept(item[key])
    case None => rest
    case Some(row) => rest[target := VRow(row)]
  }

  /** Every item reviewed, in place and in order. */
  function ReviewedAll(items: seq<map<string, Value>>, key: string, target: string,
                       accept: Value -> Option<Row>): (r: seq<map<string, Value>>)
    requires AllHave(items, key) && key != target
    ensures |r| == |items|
    ensures forall k :: 0 <= k < |items| ==> r[k] == Reviewed(items[k], key, target, accept)
    decreases |items|
  {
    if items == [] then []
    else ReviewedAll(items[..|items| - 1], key, target, accept) +
         [Reviewed(items[|items| - 1], key, target, accept)]
  }

  /** The accepted items, reviewed, in order: the list the check builds. */
  function Approved(items: seq<map<string, Value>>, key: string, target: string,
                    accept: Value -> Option<Row>): seq<map<string, Value>>
    requires AllHave(items, key) && key != target
    decreases |items|
  {
    if items == [] then []
    else
      var last := items[|items| - 1];
      Approved(items[..|items| - 1], key, target, accept) +
      (if accept(last[key]).Some? then [Reviewed(last, key, target, accept)] else [])
  }

  /** The ids that are not accepted, in order: the ones the error names. */
  function Rejected(items: seq<map<string, Value>>, key: string, accept: Value -> Option<Row>): seq<Value>
    requires AllHave(items, key)
    decreases |items|
  {
    if items == [] then []
    else
      var last := items[|items| - 1];
      Rejected(items[..|items| - 1], key, accept) + (if accept(last[key]).None? then [last[key]] else [])
  }

  /** When nothing is rejected, the list of accepted items is the whole list. */
  lemma {:induction false} ApprovedAll(items: seq<map<string, Value>>, key: string, target: string,
                                       accept: Value -> Option<Row>)
    requires AllHave(items, key) && key != target && Rejected(items, key, accept) == []
    ensures Approved(items, key, target, accept) == ReviewedAll(items, key, target, accept)
    decreases |items|
  {
    if items != [] {
      ApprovedAll(items[..|items| - 1], key, target, accept);
    }
  }

  /** The error names exactly the ids that are not accepted. */
  lemma {:induction false} RejectedExactly(items: seq<map<string, Value>>, key: string, accept: Value -> Option<Row>)
    requires AllHave(items, key)
    ensures forall x :: x in Rejected(items, key, accept) <==>
              accept(x).None? && exists k :: 0 <= k < |items| && items[k][key] == x
    decreases |items|
  {
    if items != [] {
      var front := items[..|items| - 1];
      RejectedExactly(front, key, accept);
      forall x | accept(x).None? && exists k :: 0 <= k < |items| && items[k][key] == x
        ensures x in Rejected(items, key, accept)
      {
        var k :| 0 <= k < |items| && items[k][key] == x;
        if k < |items| - 1 {
          assert front[k] == items[k];
        }
      }
      forall x | x in Rejected(items, key, accept)
        ensures exists k :: 0 <= k < |items| && items[k][key] == x
      {
        if x in Rejected(front, key, accept) {
          var k :| 0 <= k < |front| && front[k][key] == x;
          assert items[k] == front[k];
        } else {
          assert items[|items| - 1][key] == x;
        }
      }
    }
  }

  /** A feedback value the check can walk: None, or a list of items that all
      carry the id key (the schema requires it). */
  predicate FeedbackOrNone(validated: map<string, Value>, field: string, key: string)
  {
    var v := Get(validated, field);
    v.VNull? || (v.VDicts? && AllHave(v.items, key))
  }

  /** The effect of reviewing a feedback list: every item is rewritten in place
      whatever the verdict, and one error names every rejected id. */
  predicate FeedbackReviewed(before: map<string, Value>, errors0: seq<Error>,
                             after: map<string, Value>, errors: seq<Error>,
                             field: string, key: string, target: string, noun: string,
                             accept: Value -> Option<Row>)
    requires FeedbackOrNone(before, field, key) && Get(before, field).VDicts? && key != target
  {
    var items := Get(before, field).items;
    var bad := Rejected(items, key, accept);
    && after == before[field := VDicts(ReviewedAll(items, key, target, accept))]
    && errors == errors0 + (if bad == [] then [] else [Error(Querystring, field, InvalidFeedback(noun, bad))])
  }

  /** Reviewing item `i` turns the partly reviewed list into the next one. */
  lemma ReviewNext(items: seq<map<string, Value>>, key: string, target: string,
                   accept: Value -> Option<Row>, i: nat)
    requires AllHave(items, key) && key != target && i < |items|
    ensures (ReviewedAll(items[..i], key, target, accept) + items[i..])[i := Reviewed(items[i], key, target, accept)] ==
            ReviewedAll(items[..i + 1], key, target, accept) + items[i + 1..]
    ensures Rejected(items[..i + 1], key, accept) ==
            Rejected(items[..i], key, accept) + (if accept(items[i][key]).None? then [items[i][key]] else [])
    ensures Approved(items[..i + 1], key, target, accept) ==
            Approved(items[..i], key, target, accept) +
            (if accept(items[i][key]).Some? then [Reviewed(items[i], key, target, accept)] else [])
  {
    assert items[..i + 1][..i] == items[..i];
  }

  lemma StoreTwice(m: map<string, Value>, k: string, a: Value, b: Value)
    ensures m[k := a][k := b] == m[k := b]
  {
  }

  /** One item: pop its id and, when accepted, store the row. */
  method ReviewItem(item: map<string, Value>, key: string, target: string, accept: Value -> Option<Row>)
    returns (reviewed: map<string, Value>, accepted: bool)
    requires key in item && key != target
    ensures reviewed == Reviewed(item, key, target, accept)
    ensures accepted == accept(item[key]).Some?
  {
    var id := item[key];
    reviewed := item - {key};
    var found := accept(id);
    accepted := found.Some?;
    if accepted {
      reviewed := reviewed[target := VRow(found.value)];
    }
  }

  /** The loop both feedback checks share: every item reviewed, with the ids
      that are refused and the items that are accepted. */
  method ReviewItems(items: seq<map<string, Value>>, key: string, target: string, accept: Value -> Option<Row>)
    returns (stored: seq<map<string, Value>>, bad: seq<Value>, good: seq<map<string, Value>>)
    requires AllHave(items, key) && key != target
    ensures stored == ReviewedAll(items, key, target, accept)
    ensures bad == Rejected(items, key, accept)
    ensures good == Approved(items, key, target, accept)
  {
    bad := [];
    good := [];
    assert items[..0] == [] && items[0..] == items;
    stored := items;
    for i := 0 to |items|
      invariant stored == ReviewedAll(items[..i], key, target, accept) + items[i..]
      invariant bad == Rejected(items[..i], key, accept)
      invariant good == Approved(items[..i], key, target, accept)
    {
      ReviewNext(items, key, target, accept, i);
      var reviewed, accepted := ReviewItem(items[i], key, target, accept);
      if accepted {
        good := good + [reviewed];
      } else {
        bad := bad + [items[i][key]];
      }
      stored := stored[i := reviewed];
    }
    assert items[..|items|] == items && items[|items|..] == [];
  }

  /** A feedback check once the update is known. The items are the
      dictionaries the validated list holds, so popping their ids rewrites the
      stored list whether or not an error is reported; when none is, the list
      of accepted items, which is then the same list, takes its place. */
  method ReviewFeedback(req: Request, field: string, key: string, target: string, noun: string,
                        accept: Value -> Option<Row>)
    requires FeedbackOrNone(req.validated, field, key) && Get(req.validated, field).VDicts? && key != target
    modifies req
    ensures FeedbackReviewed(old(req.validated), old(req.errors), req.validated, req.errors,
                             field, key, target, noun, accept)
    ensures req.buildinfo == old(req.buildinfo) && req.status == old(req.status) && req.db == old(req.db)
  {
    var items := Get(req.validated, field).items;
    var stored, bad, good := ReviewItems(items, key, target, accept);
    req.validated := req.validated[field := VDicts(stored)];
    if bad != [] {
      req.AddError(Querystring, field, InvalidFeedback(noun, bad));
    } else {
      ApprovedAll(items, key, target, accept);
      StoreTwice(old(req.validated), field, VDicts(stored), VDicts(good));
      req.validated := req.validated[field := VDicts(good)];
    }
  }

  /** The bug with that id, if any. */
  function FindBug(db: Store, id: Value): Option<Bug>
  {
    First(db.bugs, (b: Bug) => VInt(b.bugId) == id)
  }

  /** A bug id is accepted when the bug exists and lists the update. */
  function BugAcceptor(db: Store, update: Update): Value -> Option<Row>
  {
    (id: Value) =>
      var bug := FindBug(db, id);
      if bug.Some? && update in bug.value.updates then Some(BugRow(bug.value)) else None
  }

  /** `validate_bug_feedback` */
  method ValidateBugFeedback(req: Request)
    requires FeedbackOrNone(req.validated, "bug_feedback", "bug_id")
    requires Get(req.validated, "bug_feedback").VDicts? ==> "update" in req.validated
    modifies req
    ensures Get(old(req.validated), "bug_feedback").VNull? ==>
              req.validated == old(req.validated) && req.errors == old(req.errors) && req.status == old(req.status)
    ensures Get(old(req.validated), "bug_feedback").VDicts? ==>
              match ConditionallyGetUpdate(old(req.validated), old(req.db))
              case None => req.validated == old(req.validated) && req.status == Some(NotFound) &&
                           req.errors == old(req.errors) + [Error(Url, "id", InvalidUpdate)]
              case Some(u) => req.status == old(req.status) &&
                              FeedbackReviewed(old(req.validated), old(req.errors), req.validated, req.errors,
                                               "bug_feedback", "bug_id", "bug", "bug ids", BugAcceptor(old(req.db), u))
    ensures req.buildinfo == old(req.buildinfo) && req.db == old(req.db)
  {
    var feedback := Get(req.validated, "bug_feedback");
    if feedback.VNull? {
      return;
    }
    var update := ConditionallyGetUpdate(req.validated, req.db);
    if update.None? {
      req.Fail(Url, "id", InvalidUpdate, NotFound);
      return;
    }
    ReviewFeedback(req, "bug_feedback", "bug_id", "bug", "bug ids", BugAcceptor(req.db, update.value));
  }

  /** The update the test-case check works on: a false value is refused, an
      update row is used as it is, anything else is looked up. */
  function FeedbackUpdate(validated: map<string, Value>, db: Store): (r: Option<Update>)
    requires "update" in validated
    ensures !Truthy(validated["update"]) ==> r == None
    ensures Truthy(validated["update"]) ==> r == ConditionallyGetUpdate(validated, db)
  {
    var update := validated["update"];
    if !Truthy(update) then None
    else if IsUpdateRow(update) then Some(update.row.update)
    else UpdateGet(db, update)
  }

  /** The first test case with that name. */
  function FindTestCase(db: Store, name: Value): Option<TestCase>
  {
    First(db.testcases, (t: TestCase) => VStr(t.name) == name)
  }

  /** The packages of an update's builds, as `build.package` gives them. */
  function BuildPackages(update: Update): (r: seq<Option<Package>>)
    ensures |r| == |update.builds|
    ensures forall k :: 0 <= k < |r| ==> r[k] == update.builds[k].package
  {
    seq(|update.builds|, k requires 0 <= k < |update.builds| => update.builds[k].package)
  }

  /** A test case is accepted when it exists and its package is one of the
      update's. */
  function TestCaseAcceptor(db: Store, update: Update): Value -> Option<Row>
  {
    (name: Value) =>
      var t := FindTestCase(db, name);
      if t.Some? && Some(t.value.package) in BuildPackages(update) then Some(TestCaseRow(t.value)) else None
  }

  /** `validate_testcase_feedback` */
  method ValidateTestcaseFeedback(req: Request)
    requires FeedbackOrNone(req.validated, "testcase_feedback", "testcase_name")
    requires Get(req.validated, "testcase_feedback").VDicts? ==> "update" in req.validated
    modifies req
    ensures Get(old(req.validated), "testcase_feedback").VNull? ==>
              req.validated == old(req.validated) && req.errors == old(req.errors) && req.status == old(req.status)
    ensures Get(old(req.validated), "testcase_feedback").VDicts? ==>
              match FeedbackUpdate(old(req.validated), old(req.db))
              case None => req.validated == old(req.validated) && req.status == Some(NotFound) &&
                           req.errors == old(req.errors) + [Error(Url, "id", InvalidUpdate)]
              case Some(u) => req.status == old(req.status) &&
                              FeedbackReviewed(old(req.validated), old(req.errors), req.validated, req.errors,
                                               "testcase_feedback", "testcase_name", "testcase", "testcase names",
                                               TestCaseAcceptor(old(req.db), u))
    ensures req.buildinfo == old(req.buildinfo) && req.db == old(req.db)
  {
    var feedback := Get(req.validated, "testcase_feedback");
    if feedback.VNull? {
      return;
    }
    var update := req.validated["update"];
    if !Truthy(update) {
      req.Fail(Url, "id", InvalidUpdate, NotFound);
      return;
    }
    var found: Option<Update>;
    if IsUpdateRow(update) {
      found := Some(update.row.update);
    } else {
      found := UpdateGet(req.db, update);
      if found.None? {
        req.Fail(Url, "id", InvalidUpdate, NotFound);
        return;
      }
    }
    ReviewFeedback(req, "testcase_feedback", "testcase_name", "testcase", "testcase names",
                   TestCaseAcceptor(req.db, found.value));
  }

  /** An accepted test case belongs to a package one of the update's builds
      has; an accepted bug lists the update. */
  lemma AcceptedFeedbackBelongs(db: Store, update: Update, id: Value)
    ensures TestCaseAcceptor(db, update)(id).Some? ==>
              var t := FindTestCase(db, id).value;
              t in db.testcases && exists k :: 0 <= k < |update.builds| && update.builds[k].package == Some(t.package)
    ensures BugAcceptor(db, update)(id).Some? ==>
              var b := FindBug(db, id).value;
              b in db.bugs && update in b.updates && BugAcceptor(db, update)(id) == Some(BugRow(b))
  {
    if TestCaseAcceptor(db, update)(id).Some? {
      var t := FindTestCase(db, id).value;
      var ps := BuildPackages(update);
      var k :| 0 <= k < |ps| && ps[k] == Some(t.package);
      assert update.builds[k].package == Some(t.package);
    }
  }

  // ---------------------------------------------------------------------------
  // validate_comment_id

  /** `s` without its leading whitespace. */
  function DropSpace(s: string): (r: string)
    ensures r == [] || !IsSpace(r[0])
    ensures |r| <= |s| && r == s[|s| - |r|..]
  {
    if s != [] && IsSpace(s[0]) then DropSpace(s[1..]) else s
  }

  /** `s` without its trailing whitespace. */
  function DropTrailingSpace(s: string): (r: string)
    ensures r == [] || !IsSpace(r[|r| - 1])
    ensures |r| <= |s| && r == s[..|r|]
    decreases |s|
  {
    if s != [] && IsSpace(s[|s| - 1]) then DropTrailingSpace(s[..|s| - 1]) else s
  }

  function DigitValue(c: char): nat
    requires Schemas.IsDigit(c)
  {
    (c as int) - ('0' as int)
  }

  /** The number a string of decimal digits spells. */
  function DecimalValue(s: string): nat
    requires Schemas.AllDigits(s)
    decreases |s|
  {
    if s == [] then 0 else 10 * DecimalValue(s[..|s| - 1]) + DigitValue(s[|s| - 1])
  }

  /** A non-empty run of decimal digits, read as a number. */
  function ParseDigits(d: string): (r: Option<nat>)
    ensures r.Some? <==> d != [] && Schemas.AllDigits(d)
  {
    if d != [] && Schemas.AllDigits(d) then Some(DecimalValue(d)) else None
  }

  /** A trimmed string: an optional sign, possibly followed by whitespace, then
      digits. */
  function ParseSigned(t: string): Option<int>
  {
    if t != [] && (t[0] == '+' || t[0] == '-') then
      match ParseDigits(DropSpace(t[1..]))
      case None => None
      case Some(v) => Some(if t[0] == '-' then -(v as int) else v as int)
    else ParseDigits(t)
  }

  /** Python 2's `int(s)`: whitespace around the number, an optional sign that
      may itself be followed by whitespace, and at least one decimal digit;
      None where Python raises ValueError. */
  function ParseInt(s: string): Option<int>
  {
    ParseSigned(DropTrailingSpace(DropSpace(s)))
  }

  lemma DigitIsNoSpace(c: char)
    requires Schemas.IsDigit(c)
    ensures !IsSpace(c) && c != '+' && c != '-'
  {
  }

  function DigitChar(d: nat): (c: char)
    requires d < 10
    ensures Schemas.IsDigit(c) && DigitValue(c) == d
  {
    ('0' as int + d) as char
  }

  /** The decimal digits of a natural number, as `str(n)` writes them. */
  function ShowNat(n: nat): (r: string)
    ensures r != [] && Schemas.AllDigits(r)
    decreases n
  {
    if n < 10 then [DigitChar(n)] else ShowNat(n / 10) + [DigitChar(n % 10)]
  }

  /** `str(n)` for an integer. */
  function ShowInt(n: int): string
  {
    if n < 0 then "-" + ShowNat(-n) else ShowNat(n)
  }

  lemma {:induction false} DecimalShowNat(n: nat)
    ensures DecimalValue(ShowNat(n)) == n
    decreases n
  {
    if n >= 10 {
      var p := ShowNat(n / 10);
      var s := ShowNat(n);
      assert s == p + [DigitChar(n % 10)];
      assert s[..|s| - 1] == p;
      DecimalShowNat(n / 10);
    }
  }

  lemma DropSpaceKeeps(s: string)
    requires s != [] && !IsSpace(s[0]) && !IsSpace(s[|s| - 1])
    ensures DropTrailingSpace(DropSpace(s)) == s
  {
  }

  lemma ParseIntShowNat(m: nat)
    ensures ParseInt(ShowNat(m)) == Some(m)
  {
    var s := ShowNat(m);
    DecimalShowNat(m);
    DigitIsNoSpace(s[0]);
    DigitIsNoSpace(s[|s| - 1]);
    DropSpaceKeeps(s);
    assert ParseSigned(s) == ParseDigits(s);
  }

  lemma DropSpaceNoop(s: string)
    requires s == [] || !IsSpace(s[0])
    ensures DropSpace(s) == s
  {
  }

  lemma ParseSignedNegative(s: string, m: nat)
    requires s != [] && s[0] == '-' && ParseDigits(DropSpace(s[1..])) == Some(m)
    ensures ParseSigned(s) == Some(-(m as int))
  {
  }

  lemma SignDropped(c: char, t: string)
    ensures ([c] + t)[1..] == t
  {
  }

  lemma ParseIntShowNegative(m: nat)
    requires m > 0
    ensures ParseInt("-" + ShowNat(m)) == Some(-(m as int))
  {
    var digits := ShowNat(m);
    var s := "-" + digits;
    DecimalShowNat(m);
    DigitIsNoSpace(digits[0]);
    DigitIsNoSpace(digits[|digits| - 1]);
    assert |s| == |digits| + 1;
    assert s[0] == '-';
    assert s[|s| - 1] == digits[|digits| - 1];
    assert !IsSpace('-');
    DropSpaceKeeps(s);
    SignDropped('-', digits);
    DropSpaceNoop(digits);
    ParseSignedNegative(s, m);
  }

  /** Every integer written by `str` reads back as itself. */
  lemma ParseIntShowInt(n: int)
    ensures ParseInt(ShowInt(n)) == Some(n)
  {
    if n < 0 {
      var m: nat := -n;
      var s := ShowInt(n);
      assert s == "-" + ShowNat(m);
      ParseIntShowNegative(m);
      assert -(m as int) == n;
    } else {
      ParseIntShowNat(n);
    }
  }

  /** A string with a character that is neither whitespace, a sign nor a digit
      is not a number. */
  lemma ParseIntRejectsOtherChars(s: string, i: nat)
    requires i < |s| && !IsSpace(s[i]) && !Schemas.IsDigit(s[i]) && s[i] != '+' && s[i] != '-'
    ensures ParseInt(s) == None
  {
    var a := DropSpace(s);
    var t := DropTrailingSpace(a);
    var off := |s| - |a|;
    if i < off {
      DropSpacePrefix(s, i);
      assert false;
    } else if i - off >= |t| {
      DropTrailingSpaceSuffix(a, i - off);
      assert false;
    } else {
      assert t[i - off] == s[i];
      if t != [] && (t[0] == '+' || t[0] == '-') {
        var d := DropSpace(t[1..]);
        var j := i - off - 1;
        assert i - off >= 1;
        if j >= |t[1..]| - |d| {
          assert d[j - (|t[1..]| - |d|)] == s[i];
        } else {
          DropSpacePrefix(t[1..], j);
          assert false;
        }
      }
    }
  }

  lemma {:induction false} DropSpacePrefix(s: string, i: nat)
    requires i < |s| - |DropSpace(s)|
    ensures IsSpace(s[i])
    decreases |s|
  {
    if s != [] && IsSpace(s[0]) && i > 0 {
      DropSpacePrefix(s[1..], i - 1);
    }
  }

  lemma {:induction false} DropTrailingSpaceSuffix(s: string, i: nat)
    requires |DropTrailingSpace(s)| <= i < |s|
    ensures IsSpace(s[i])
    decreases |s|
  {
    if s != [] && IsSpace(s[|s| - 1]) && i < |s| - 1 {
      DropTrailingSpaceSuffix(s[..|s| - 1], i);
    }
  }

  function FindComment(db: Store, id: int): Option<Comment>
  {
    First(db.comments, (c: Comment) => c.id == id)
  }

  /** `validate_comment_id`: the url id must read as an integer (400 otherwise)
      and name a comment (404 otherwise). */
  method ValidateCommentId(req: Request, id: string)
    modifies req
    ensures ParseInt(id).None? ==>
              req.validated == old(req.validated) && req.status == Some(BadRequest) &&
              req.errors == old(req.errors) + [Error(Url, "id", CommentIdNotInt)]
    ensures ParseInt(id).Some? ==>
              match FindComment(old(req.db), ParseInt(id).value)
              case Some(c) => req.validated == old(req.validated)["comment" := VRow(CommentRow(c))] &&
                              req.errors == old(req.errors) && req.status == old(req.status)
              case None => req.validated == old(req.validated) && req.status == Some(NotFound) &&
                           req.errors == old(req.errors) + [Error(Url, "id", InvalidCommentId)]
    ensures req.buildinfo == old(req.buildinfo) && req.db == old(req.db)
  {
    var idx := ParseInt(id);
    if idx.None? {
      req.Fail(Url, "id", CommentIdNotInt, BadRequest);
      return;
    }
    var comment := FindComment(req.db, idx.value);
    if comment.Some? {
      req.validated := req.validated["comment" := VRow(CommentRow(comment.value))];
    } else {
      req.Fail(Url, "id", InvalidCommentId, NotFound);
    }
  }

  // ---------------------------------------------------------------------------
  // validate_stack

  /** `Stack.get(name)`; a missing name finds nothing. */
  function FindStack(db: Store, name: Option<string>): Option<Stack>
  {
    if name.None? then None else First(db.stacks, (s: Stack) => s.name == name.value)
  }

  /** `validate_stack`: the name from the url must name a stack. */
  method ValidateStack(req: Request, name: Option<string>)
    modifies req
    ensures match FindStack(old(req.db), name)
            case Some(s) => req.validated == old(req.validated)["stack" := VRow(StackRow(s))] &&
                            req.errors == old(req.errors) && req.status == old(req.status)
            case None => req.validated == old(req.validated) && req.status == Some(NotFound) &&
                         req.errors == old(req.errors) +
                           [Error(Querystring, "stack", InvalidName("stack", if name.Some? then VStr(name.value) else VNull))]
    ensures req.buildinfo == old(req.buildinfo) && req.db == old(req.db)
  {
    var stack := FindStack(req.db, name);
    if stack.Some? {
      req.validated := req.validated["stack" := VRow(StackRow(stack.value))];
    } else {
      req.Fail(Querystring, "stack", InvalidName("stack", if name.Some? then VStr(name.value) else VNull), NotFound);
    }
  }
}
