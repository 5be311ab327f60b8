/**
 * The publisher's validators: the all-or-nothing check of the environment
 * variables the workflow provides, and the ordered extraction of the issue
 * form's required sections, each guarded by `EnsureValue`.
 */
module Validate {
  import opened Wrappers
  import opened Text
  import opened Extract

  /** The environment variables the publisher needs, in the order they are checked. */
  const RequiredEnvVars: seq<string> := [
    "FIREBASE_SERVICE_ACCOUNT",
    "ISSUE_BODY",
    "ISSUE_NUMBER",
    "ISSUE_HTML_URL",
    "ISSUE_CREATED_AT",
    "ISSUE_USER_LOGIN",
    "APPROVED_BY_LOGIN"
  ]

  /** A variable is set when it is present and not blank once trimmed. */
  predicate IsSet(env: map<string, string>, key: string) {
    key in env && Trim(env[key]) != ""
  }

  /** A set variable holds at least one non-whitespace character, and conversely. */
  lemma IsSetMeans(env: map<string, string>, key: string)
    ensures IsSet(env, key) <==> key in env && exists k :: 0 <= k < |env[key]| && !IsSpace(env[key][k])
  {
  }

  /**
   * The first of `xs`, in list order, that fails the test `ok`: the shape of
   * both the environment check and the sequence of required sections.
   */
  function FirstFailing(xs: seq<string>, ok: string -> bool): (r: Option<string>)
    ensures r.Some? ==> r.value in xs && !ok(r.value)
  {
    if xs == [] then None
    else if !ok(xs[0]) then Some(xs[0])
    else FirstFailing(xs[1..], ok)
  }

  /**
   * `FirstFailing` finds nothing exactly when every element passes, and
   * otherwise names the element at some index `i`, which fails while all
   * elements before it pass.
   */
  lemma {:induction false} FirstFailingSpec(xs: seq<string>, ok: string -> bool)
    ensures FirstFailing(xs, ok).None? <==> forall i :: 0 <= i < |xs| ==> ok(xs[i])
    ensures FirstFailing(xs, ok).Some? ==>
      exists i :: 0 <= i < |xs| && xs[i] == FirstFailing(xs, ok).value
        && !ok(xs[i]) && forall j :: 0 <= j < i ==> ok(xs[j])
    decreases |xs|
  {
    if xs != [] && ok(xs[0]) {
      FirstFailingSpec(xs[1..], ok);
      var r := FirstFailing(xs[1..], ok);
      assert forall i :: 1 <= i < |xs| ==> xs[i] == xs[1..][i - 1];
      if r.Some? {
        var i :| 0 <= i < |xs[1..]| && xs[1..][i] == r.value
          && !ok(xs[1..][i]) && forall j :: 0 <= j < i ==> ok(xs[1..][j]);
        assert xs[i + 1] == r.value && !ok(xs[i + 1]);
        assert forall j :: 0 <= j < i + 1 ==> ok(xs[j]) by {
          forall j | 0 <= j < i + 1
            ensures ok(xs[j])
          {
            if j > 0 {
              assert xs[j] == xs[1..][j - 1];
            }
          }
        }
      }
    } else if xs != [] {
      assert !ok(xs[0]);
    }
  }

  /** The closure `FirstFailing` is given by the environment check: whether a variable is set. */
  function SetIn(env: map<string, string>): (ok: string -> bool)
    ensures forall key :: ok(key) == IsSet(env, key)
  {
    key => IsSet(env, key)
  }

  /** The first of `keys` that is not set, in list order. */
  function FirstUnset(env: map<string, string>, keys: seq<string>): (r: Option<string>)
    ensures r.Some? ==> r.value in keys && !IsSet(env, r.value)
  {
    FirstFailing(keys, SetIn(env))
  }

  /**
   * `FirstUnset` finds nothing exactly when every key is set, and otherwise
   * names the key at some index `i`, which is unset while all keys before it are set.
   */
  lemma FirstUnsetSpec(env: map<string, string>, keys: seq<string>)
    ensures FirstUnset(env, keys).None? <==> forall i :: 0 <= i < |keys| ==> IsSet(env, keys[i])
    ensures FirstUnset(env, keys).Some? ==>
      exists i :: 0 <= i < |keys| && keys[i] == FirstUnset(env, keys).value
        && !IsSet(env, keys[i]) && forall j :: 0 <= j < i ==> IsSet(env, keys[j])
  {
    FirstFailingSpec(keys, SetIn(env));
  }

  /**
   * The environment check: the variables are examined in order and the first
   * one that is missing or blank is reported; `None` means all are set.
   */
  method CheckEnvironment(env: map<string, string>) returns (missing: Option<string>)
    ensures missing == FirstUnset(env, RequiredEnvVars)
  {
    var i := 0;
    while i < |RequiredEnvVars|
      invariant 0 <= i <= |RequiredEnvVars|
      invariant FirstUnset(env, RequiredEnvVars) == FirstUnset(env, RequiredEnvVars[i..])
    {
      var key := RequiredEnvVars[i];
      if !(key in env) || Trim(env[key]) == "" {
        return Some(key);
      }
      assert RequiredEnvVars[i..][1..] == RequiredEnvVars[i + 1..];
      i := i + 1;
    }
    return None;
  }

  /** A value passes when it is not the empty string; a failure names the field. */
  function EnsureValue(value: string, fieldName: string): (r: Result<string, string>)
    ensures r.Success? <==> value != ""
    ensures r.Success? ==> r.value == value
    ensures r.Failure? ==> r.error == fieldName
  {
    if value == "" then Failure(fieldName) else Success(value)
  }

  /** The form's required sections, in the order they are extracted and checked. */
  const RequiredSections: seq<string> := [
    "Submitter Name",
    "Challenge Name",
    "Challenge Type",
    "Challenge Description",
    "Flag",
    "Solution"
  ]

  /** The optional section; an empty extraction of it is not an error. */
  const ExtraDetailsLabel := "Extra Details"

  /** The extracted, trimmed text of every section of a submission. */
  datatype Sections = Sections(
    submitterName: string,
    challengeName: string,
    challengeType: string,
    challengeDescription: string,
    flag: string,
    solution: string,
    extraDetails: string)

  /** The closure `FirstFailing` is given by the section check: whether a section's extraction is non-empty. */
  function FilledIn(body: string): (ok: string -> bool)
    ensures forall name :: ok(name) == (ExtractField(body, name) != "")
  {
    name => ExtractField(body, name) != ""
  }

  /** The first of `names` whose section extracts to the empty string, in list order. */
  function FirstEmptySection(body: string, names: seq<string>): (r: Option<string>)
    ensures r.Some? ==> r.value in names && ExtractField(body, r.value) == ""
  {
    FirstFailing(names, FilledIn(body))
  }

  /**
   * `FirstEmptySection` finds nothing exactly when every named section is
   * non-empty, and otherwise names the first empty one.
   */
  lemma FirstEmptySectionSpec(body: string, names: seq<string>)
    ensures FirstEmptySection(body, names).None? <==>
      forall i :: 0 <= i < |names| ==> ExtractField(body, names[i]) != ""
    ensures FirstEmptySection(body, names).Some? ==>
      exists i :: 0 <= i < |names| && names[i] == FirstEmptySection(body, names).value
        && ExtractField(body, names[i]) == ""
        && forall j :: 0 <= j < i ==> ExtractField(body, names[j]) != ""
  {
    FirstFailingSpec(names, FilledIn(body));
  }

  /**
   * Extraction of all sections: the six required ones in order, each guarded by
   * `EnsureValue`, stopping at the first empty one; then the optional one.
   */
  function ExtractSections(body: string): (r: Result<Sections, string>)
    ensures r.Failure? ==> r.error in RequiredSections && ExtractField(body, r.error) == ""
    ensures r.Success? ==> r.value.extraDetails == ExtractField(body, ExtraDetailsLabel)
    ensures r.Success? ==>
      (r.value.submitterName != "" && r.value.challengeName != ""
       && r.value.challengeType != "" && r.value.challengeDescription != ""
       && r.value.flag != "" && r.value.solution != "")
  {
    var submitterName :- EnsureValue(ExtractField(body, "Submitter Name"), "Submitter Name");
    var challengeName :- EnsureValue(ExtractField(body, "Challenge Name"), "Challenge Name");
    var challengeType :- EnsureValue(ExtractField(body, "Challenge Type"), "Challenge Type");
    var challengeDescription :- EnsureValue(
      ExtractField(body, "Challenge Description"), "Challenge Description");
    var flag :- EnsureValue(ExtractField(body, "Flag"), "Flag");
    var solution :- EnsureValue(ExtractField(body, "Solution"), "Solution");
    var extraDetails := ExtractField(body, ExtraDetailsLabel);
    Success(Sections(submitterName, challengeName, challengeType, challengeDescription,
      flag, solution, extraDetails))
  }

  /**
   * Extraction fails exactly when some required section is empty, and then it
   * reports the first empty one in form order; on success every field is that
   * section's extraction, the optional one included.
   */
  lemma ExtractSectionsSpec(body: string)
    ensures ExtractSections(body).Failure? <==> FirstEmptySection(body, RequiredSections).Some?
    ensures ExtractSections(body).Failure? ==>
      ExtractSections(body).error == FirstEmptySection(body, RequiredSections).value
    ensures ExtractSections(body).Success? ==>
      var s := ExtractSections(body).value;
      s.submitterName == ExtractField(body, "Submitter Name")
      && s.challengeName == ExtractField(body, "Challenge Name")
      && s.challengeType == ExtractField(body, "Challenge Type")
      && s.challengeDescription == ExtractField(body, "Challenge Description")
      && s.flag == ExtractField(body, "Flag")
      && s.solution == ExtractField(body, "Solution")
      && s.extraDetails == ExtractField(body, ExtraDetailsLabel)
  {
    FirstEmptyRequired(body);
  }

  /** `FirstEmptySection` over the required sections, written out section by section. */
  lemma FirstEmptyRequired(body: string)
    ensures FirstEmptySection(body, RequiredSections) ==
      if ExtractField(body, "Submitter Name") == "" then Some("Submitter Name")
      else if ExtractField(body, "Challenge Name") == "" then Some("Challenge Name")
      else if ExtractField(body, "Challenge Type") == "" then Some("Challenge Type")
      else if ExtractField(body, "Challenge Description") == "" then Some("Challenge Description")
      else if ExtractField(body, "Flag") == "" then Some("Flag")
      else if ExtractField(body, "Solution") == "" then Some("Solution")
      else None
  {
    var n := RequiredSections;
    assert n[0] == "Submitter Name" && n[1..][0] == "Challenge Name";
    assert n[1..][1..][0] == "Challenge Type" && n[1..][1..][1..][0] == "Challenge Description";
    assert n[1..][1..][1..][1..][0] == "Flag" && n[1..][1..][1..][1..][1..][0] == "Solution";
    assert n[1..][1..][1..][1..][1..][1..] == [];
    FirstEmptySectionStep(body, n);
    FirstEmptySectionStep(body, n[1..]);
    FirstEmptySectionStep(body, n[1..][1..]);
    FirstEmptySectionStep(body, n[1..][1..][1..]);
    FirstEmptySectionStep(body, n[1..][1..][1..][1..]);
    FirstEmptySectionStep(body, n[1..][1..][1..][1..][1..]);
  }

  /** One step of `FirstEmptySection`. */
  lemma FirstEmptySectionStep(body: string, names: seq<string>)
    requires names != []
    ensures FirstEmptySection(body, names) ==
      if ExtractField(body, names[0]) == "" then Some(names[0])
      else FirstEmptySection(body, names[1..])
  {
  }

  /**
   * Extraction succeeds exactly when all six required sections are non-empty;
   * the Extra Details section plays no part.
   */
  lemma ExtractSectionsSucceeds(body: string)
    ensures ExtractSections(body).Success? <==>
      forall i :: 0 <= i < |RequiredSections| ==> ExtractField(body, RequiredSections[i]) != ""
  {
    ExtractSectionsSpec(body);
    FirstEmptySectionSpec(body, RequiredSections);
  }

  /** Every extracted field has no surrounding whitespace, and the required ones are non-empty. */
  lemma ExtractSectionsTrimmed(body: string)
    requires ExtractSections(body).Success?
    ensures var s := ExtractSections(body).value;
      s.flag != "" && Trim(s.flag) == s.flag
      && s.submitterName != "" && s.challengeName != "" && s.challengeType != ""
      && s.challengeDescription != "" && s.solution != ""
  {
    ExtractSectionsSpec(body);
    ExtractFieldTrimmed(body, "Flag");
  }
}
