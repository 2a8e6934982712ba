/** The gates a request passes besides the checks on its builds and names: the
    expiration window of a buildroot override, the captcha asked of anonymous
    commenters, and the Taskotron test cases an update may require. */
module GateChecks {
  import opened Base
  import opened Requests
  import LookupChecks

  // ---------------------------------------------------------------------------
  // validate_expiration_date

  /** Datetimes are counted in microseconds. */
  const MicrosecondsPerDay := 86400 * 1000000

  /** The `buildroot_limit` setting when it is not configured. */
  const DefaultBuildrootLimit := 31

  /** `int(settings.get('buildroot_limit', 31))`: the number of days, or None
      when the configured text is not an integer (ValueError). */
  function BuildrootLimit(setting: Option<string>): (r: Option<int>)
    ensures setting.None? ==> r == Some(DefaultBuildrootLimit)
  {
    if setting.None? then Some(DefaultBuildrootLimit) else LookupChecks.ParseInt(setting.value)
  }

  /** How `validate_expiration_date` judges a value, given the time `now`:
      the errors it reports, or None when it raises. A value that is not a
      datetime cannot be compared with `now` and raises TypeError. */
  function ExpirationErrors(v: Value, now: int, setting: Option<string>): (r: Option<seq<Error>>)
    ensures r.Some? ==> |r.value| <= 1
  {
    match v
    case VNull => Some([])
    case VTime(t) =>
      if t <= now then Some([Error(Body, "expiration_date", ExpirationInPast)])
      else (match BuildrootLimit(setting)
            case None => None
            case Some(days) =>
              if t > now + days * MicrosecondsPerDay then Some([Error(Body, "expiration_date", ExpirationTooFar(days))])
              else Some([]))
    case _ => None
  }

  /** `validate_expiration_date`: an override must expire after `now` and no
      later than the configured number of days after it. */
  method ValidateExpirationDate(req: Request, now: int, setting: Option<string>) returns (outcome: Outcome)
    modifies req
    ensures match ExpirationErrors(Get(old(req.validated), "expiration_date"), now, setting)
            case None => outcome == Raised && req.errors == old(req.errors)
            case Some(found) => outcome == Returned && req.errors == old(req.errors) + found
    ensures req.validated == old(req.validated) && req.buildinfo == old(req.buildinfo)
    ensures req.status == old(req.status) && req.db == old(req.db)
  {
    var expiration := Get(req.validated, "expiration_date");
    if expiration == VNull {
      return Returned;
    }
    if !expiration.VTime? {
      return Raised;
    }
    if expiration.t <= now {
      req.AddError(Body, "expiration_date", ExpirationInPast);
      return Returned;
    }
    var days := BuildrootLimit(setting);
    if days.None? {
      return Raised;
    }
    var limit := now + days.value * MicrosecondsPerDay;
    if expiration.t > limit {
      req.AddError(Body, "expiration_date", ExpirationTooFar(days.value));
      return Returned;
    }
    // The date is written back unchanged.
    assert req.validated["expiration_date" := expiration] == req.validated;
    req.validated := req.validated["expiration_date" := expiration];
    return Returned;
  }

  /** A date is accepted exactly when it lies after `now` and no more than the
      limit's number of days after it; a date not after `now` is reported as
      past, and one beyond the limit as too far, naming the limit. */
  lemma ExpirationWindow(t: int, now: int, setting: Option<string>, days: int)
    requires BuildrootLimit(setting) == Some(days)
    ensures ExpirationErrors(VTime(t), now, setting) == Some([]) <==> now < t <= now + days * MicrosecondsPerDay
    ensures t <= now ==> ExpirationErrors(VTime(t), now, setting) == Some([Error(Body, "expiration_date", ExpirationInPast)])
    ensures now < t && t > now + days * MicrosecondsPerDay ==>
              ExpirationErrors(VTime(t), now, setting) == Some([Error(Body, "expiration_date", ExpirationTooFar(days))])
  {
  }

  /** Without a configured limit the window is 31 days. */
  lemma DefaultExpirationWindow(t: int, now: int)
    ensures ExpirationErrors(VTime(t), now, None) == Some([]) <==> now < t <= now + 31 * 86400 * 1000000
  {
    ExpirationWindow(t, now, None, DefaultBuildrootLimit);
  }

  // ---------------------------------------------------------------------------
  // validate_captcha

  /** The commenter is anonymous when an email is given, or when there is no
      logged-in user with a name. */
  predicate Anonymous(email: Value, user: Option<User>)
  {
    Truthy(email) || user.None? || user.value.name == ""
  }

  /** What `validate_captcha` reports, given the popped key and value: for an
      anonymous commenter with a captcha secret configured, the first missing
      piece, or a failed verification. `verify` is `captcha.validate`. */
  function CaptchaErrors(email: Value, user: Option<User>, secret: string, key: Value, value: Value,
                         verify: (Value, Value) -> bool): (r: seq<Error>)
    ensures |r| <= 1
  {
    if !(Anonymous(email, user) && secret != "") then []
    else if !Truthy(key) then [Error(Body, "captcha_key", MissingCaptchaKey)]
    else if !Truthy(value) then [Error(Body, "captcha_value", MissingCaptchaValue)]
    else if !verify(key, value) then [Error(Body, "captcha_value", IncorrectCaptcha)]
    else []
  }

  /** `validate_captcha`: both captcha fields are taken out of the validated
      dictionary (a missing one raises KeyError), and an anonymous commenter
      must solve the captcha when a secret is configured; a failure sets the
      status to 400. */
  method ValidateCaptcha(req: Request, user: Option<User>, secret: string, verify: (Value, Value) -> bool)
    returns (outcome: Outcome)
    modifies req
    ensures "captcha_key" !in old(req.validated) ==>
              outcome == Raised && req.validated == old(req.validated) &&
              req.errors == old(req.errors) && req.status == old(req.status)
    ensures "captcha_key" in old(req.validated) && "captcha_value" !in old(req.validated) ==>
              outcome == Raised && req.validated == old(req.validated) - {"captcha_key"} &&
              req.errors == old(req.errors) && req.status == old(req.status)
    ensures "captcha_key" in old(req.validated) && "captcha_value" in old(req.validated) ==>
              var found := CaptchaErrors(Get(old(req.validated), "email"), user, secret,
                                         old(req.validated)["captcha_key"], old(req.validated)["captcha_value"], verify);
              && outcome == Returned
              && req.validated == old(req.validated) - {"captcha_key", "captcha_value"}
              && req.errors == old(req.errors) + found
              && req.status == (if found == [] then old(req.status) else Some(BadRequest))
    ensures req.buildinfo == old(req.buildinfo) && req.db == old(req.db)
  {
    var email := Get(req.validated, "email");
    var anonymous := Truthy(email) || user.None? || user.value.name == "";
    if "captcha_key" !in req.validated {
      return Raised;
    }
    var key := req.validated["captcha_key"];
    req.validated := req.validated - {"captcha_key"};
    if "captcha_value" !in req.validated {
      return Raised;
    }
    var value := req.validated["captcha_value"];
    req.validated := req.validated - {"captcha_value"};
    assert req.validated == old(req.validated) - {"captcha_key", "captcha_value"};
    if anonymous && secret != "" {
      if !Truthy(key) {
        req.Fail(Body, "captcha_key", MissingCaptchaKey, BadRequest);
        return Returned;
      }
      if !Truthy(value) {
        req.Fail(Body, "captcha_value", MissingCaptchaValue, BadRequest);
        return Returned;
      }
      if !verify(key, value) {
        req.Fail(Body, "captcha_value", IncorrectCaptcha, BadRequest);
        return Returned;
      }
    }
    return Returned;
  }

  /** The captcha is asked only of anonymous commenters and only when a secret
      is configured; then a missing key is reported before a missing value,
      and a missing value before a failed verification; and it passes exactly
      when key and value are given and verify. */
  lemma CaptchaGate(email: Value, user: Option<User>, secret: string, key: Value, value: Value,
                    verify: (Value, Value) -> bool)
    ensures var r := CaptchaErrors(email, user, secret, key, value, verify);
            && (r != [] ==> Anonymous(email, user) && secret != "")
            && (Anonymous(email, user) && secret != "" ==>
                  && (!Truthy(key) ==> r == [Error(Body, "captcha_key", MissingCaptchaKey)])
                  && (Truthy(key) && !Truthy(value) ==> r == [Error(Body, "captcha_value", MissingCaptchaValue)])
                  && (r == [] <==> Truthy(key) && Truthy(value) && verify(key, value)))
  {
  }

  /** A logged-in user with a name who gives no email is never asked. */
  lemma NamedUsersPass(user: User, secret: string, key: Value, value: Value, verify: (Value, Value) -> bool)
    requires user.name != ""
    ensures CaptchaErrors(VNull, Some(user), secret, key, value, verify) == []
  {
  }

  // ---------------------------------------------------------------------------
  // validate_requirements

  /** `requirement in gen` on the generator of valid test case names, `gen`
      being what is left of it: the answer, and what is left afterwards. The
      search consumes every name up to and including the one it finds, and
      all of them when it finds none. */
  function GeneratorHas(gen: seq<string>, x: string): (r: (bool, seq<string>))
    ensures r.0 <==> x in gen
    ensures !r.0 ==> r.1 == []
    ensures forall y :: y in r.1 ==> y in gen
  {
    if gen == [] then (false, [])
    else if gen[0] == x then (true, gen[1..])
    else GeneratorHas(gen[1..], x)
  }

  /** The loop of `validate_requirements` as written: each requirement is
      searched for in what is left of the single generator; the first one not
      found is reported together with the names the generator still holds. */
  function RequirementsAsWritten(requirements: seq<string>, gen: seq<string>): (r: seq<Error>)
    ensures |r| <= 1
    decreases |requirements|
  {
    if requirements == [] then []
    else
      var (found, rest) := GeneratorHas(gen, requirements[0]);
      if !found then [Error(Querystring, "requirements", InvalidRequirement(requirements[0], rest))]
      else RequirementsAsWritten(requirements[1..], rest)
  }

  /** The report as written names no valid choice: the failed search has
      already emptied the generator that the message joins. */
  lemma {:induction false} AsWrittenListsNoChoices(requirements: seq<string>, gen: seq<string>)
    ensures forall e :: e in RequirementsAsWritten(requirements, gen) ==>
              e.description.InvalidRequirement? && e.description.choices == []
    decreases |requirements|
  {
    if requirements != [] {
      var (found, rest) := GeneratorHas(gen, requirements[0]);
      if found {
        AsWrittenListsNoChoices(requirements[1..], rest);
      }
    }
  }

  /** As written, valid requirements given in another order than Taskotron's
      are refused: with test cases `a` then `b`, requiring `b a` is reported,
      though both exist. */
  lemma AsWrittenRefusesReordered()
    ensures RequirementsAsWritten(["b", "a"], ["a", "b"]) == [Error(Querystring, "requirements", InvalidRequirement("a", []))]
    ensures IntendedRequirements(["b", "a"], ["a", "b"]) == []
  {
    assert GeneratorHas(["a", "b"], "b") == (true, []) by {
      assert ["a", "b"][1..] == ["b"];
      assert ["b"][1..] == [];
    }
    assert ["b", "a"][1..] == ["a"];
    assert ["a"][1..] == [];
  }

  /** What the check as written accepts, the intended check accepts too: the
    defect only refuses valid lists, it lets no invalid name through. */
  lemma {:induction false} AsWrittenAcceptsOnlyValid(requirements: seq<string>, gen: seq<string>, valid: seq<string>)
    requires forall y :: y in gen ==> y in valid
    ensures RequirementsAsWritten(requirements, gen) == [] ==> IntendedRequirements(requirements, valid) == []
    decreases |requirements|
  {
    if requirements != [] {
      var (found, rest) := GeneratorHas(gen, requirements[0]);
      if found {
        AsWrittenAcceptsOnlyValid(requirements[1..], rest, valid);
      }
    }
  }

  /** The evidently intended check: each requirement must be one of the valid
      test cases; the first that is not is reported with all of them. */
  function IntendedRequirements(requirements: seq<string>, valid: seq<string>): (r: seq<Error>)
    ensures |r| <= 1
    decreases |requirements|
  {
    if requirements == [] then []
    else if requirements[0] !in valid then [Error(Querystring, "requirements", InvalidRequirement(requirements[0], valid))]
    else IntendedRequirements(requirements[1..], valid)
  }

  /** The intended check refuses exactly the lists holding a name that is not a
      valid test case, naming the first such name and every valid one. */
  lemma {:induction false} IntendedRequirementsExactly(requirements: seq<string>, valid: seq<string>)
    ensures var r := IntendedRequirements(requirements, valid);
            && (r == [] <==> forall k :: 0 <= k < |requirements| ==> requirements[k] in valid)
            && (r != [] ==> exists k :: 0 <= k < |requirements| && requirements[k] !in valid &&
                              (forall j :: 0 <= j < k ==> requirements[j] in valid) &&
                              r == [Error(Querystring, "requirements", InvalidRequirement(requirements[k], valid))])
    decreases |requirements|
  {
    if requirements != [] {
      var rest := requirements[1..];
      IntendedRequirementsExactly(rest, valid);
      assert forall k :: 1 <= k < |requirements| ==> requirements[k] == rest[k - 1];
      if requirements[0] in valid && IntendedRequirements(rest, valid) != [] {
        var k :| 0 <= k < |rest| && rest[k] !in valid && (forall j :: 0 <= j < k ==> rest[j] in valid) &&
                 IntendedRequirements(rest, valid) == [Error(Querystring, "requirements", InvalidRequirement(rest[k], valid))];
        assert requirements[k + 1] == rest[k];
      }
    }
  }

  /** `validate_requirements`, with the membership test made against the list
      of valid test cases: a missing field is set to None; otherwise the
      tokens of the field are checked in order, and the first invalid one is
      reported with status 400. `tokenize` and the Taskotron list `valid` are
      parameters. */
  method ValidateRequirements(req: Request, tokenize: Value -> seq<string>, valid: seq<string>)
    modifies req
    ensures var v := Get(old(req.validated), "requirements");
            && (v == VNull ==> req.validated == old(req.validated)["requirements" := VNull] && req.errors == old(req.errors)
                                && req.status == old(req.status))
            && (v != VNull ==>
                  var found := IntendedRequirements(tokenize(v), valid);
                  && req.validated == old(req.validated)
                  && req.errors == old(req.errors) + found
                  && req.status == (if found == [] then old(req.status) else Some(BadRequest)))
    ensures req.buildinfo == old(req.buildinfo) && req.db == old(req.db)
  {
    var value := Get(req.validated, "requirements");
    if value == VNull {
      req.validated := req.validated["requirements" := VNull];
      return;
    }
    var requirements := tokenize(value);
    assert requirements[0..] == requirements;
    for i := 0 to |requirements|
      invariant IntendedRequirements(requirements, valid) == IntendedRequirements(requirements[i..], valid)
      invariant req.validated == old(req.validated) && req.errors == old(req.errors)
      invariant req.status == old(req.status) && req.buildinfo == old(req.buildinfo) && req.db == old(req.db)
    {
      assert requirements[i..][0] == requirements[i] && requirements[i..][1..] == requirements[i + 1..];
      if requirements[i] !in valid {
        req.Fail(Querystring, "requirements", InvalidRequirement(requirements[i], valid), BadRequest);
        return;
      }
    }
    assert requirements[|requirements|..] == [];
  }
}
