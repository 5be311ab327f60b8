/**
 * The publisher's main sequence: check the environment, parse the service
 * account, extract and validate the issue's sections, build the lab record and
 * hand it to the database as a write of document `issue-<number>` in `labs`.
 * Every early exit of the script is a `Failure` saying why.
 */
module Publish {
  import opened Wrappers
  import opened Text
  import opened Extract
  import opened Validate
  import opened Payload

  datatype PublishError =
    | MissingEnvVar(name: string)
    | InvalidServiceAccount
    | MissingField(name: string)

  /** The database write the script ends with. */
  datatype Write<Time, Num> = Write(collection: string, docId: string, payload: LabPayload<Time, Num>)

  /**
   * What the script takes from its host: the approval time (`Timestamp.now()`),
   * date parsing, the SHA-256 hex digest, `Number()` and whether a string parses as JSON.
   */
  datatype Host<Time, Num> = Host(
    now: Time,
    fromDate: string -> Time,
    sha256Hex: string -> string,
    toNumber: string -> Num,
    parsesAsJson: string -> bool)

  const LabsCollection := "labs"

  /** An environment variable's value, or "" when it is absent. */
  function Env(env: map<string, string>, key: string): (v: string)
    ensures key in env ==> v == env[key]
    ensures key !in env ==> v == ""
  {
    if key in env then env[key] else ""
  }

  /** The environment holds every required variable, set and non-blank. */
  predicate EnvComplete(env: map<string, string>) {
    FirstUnset(env, RequiredEnvVars).None?
  }

  /** The issue metadata the workflow passes in the environment. */
  function IssueOf(env: map<string, string>): (i: Issue)
    ensures i.number == Env(env, "ISSUE_NUMBER") && i.htmlUrl == Env(env, "ISSUE_HTML_URL")
    ensures i.createdAt == Env(env, "ISSUE_CREATED_AT") && i.userLogin == Env(env, "ISSUE_USER_LOGIN")
    ensures i.approvedBy == Env(env, "APPROVED_BY_LOGIN")
  {
    Issue(
      Env(env, "ISSUE_NUMBER"),
      Env(env, "ISSUE_HTML_URL"),
      Env(env, "ISSUE_CREATED_AT"),
      Env(env, "ISSUE_USER_LOGIN"),
      Env(env, "APPROVED_BY_LOGIN"))
  }

  /** The whole run, up to the database write. */
  method Publish<Time, Num>(env: map<string, string>, host: Host<Time, Num>)
    returns (r: Result<Write<Time, Num>, PublishError>)
    ensures !EnvComplete(env) ==> r == Failure(MissingEnvVar(FirstUnset(env, RequiredEnvVars).value))
    ensures EnvComplete(env) && !host.parsesAsJson(Env(env, "FIREBASE_SERVICE_ACCOUNT")) ==>
      r == Failure(InvalidServiceAccount)
    ensures (EnvComplete(env) && host.parsesAsJson(Env(env, "FIREBASE_SERVICE_ACCOUNT"))
      && ExtractSections(Env(env, "ISSUE_BODY")).Failure?) ==>
      r == Failure(MissingField(ExtractSections(Env(env, "ISSUE_BODY")).error))
    ensures (EnvComplete(env) && host.parsesAsJson(Env(env, "FIREBASE_SERVICE_ACCOUNT"))
      && ExtractSections(Env(env, "ISSUE_BODY")).Success?) ==>
      r == Success(Write(LabsCollection, DocId(Env(env, "ISSUE_NUMBER")),
        BuildPayload(IssueOf(env), ExtractSections(Env(env, "ISSUE_BODY")).value,
          host.now, host.fromDate, host.sha256Hex, host.toNumber)))
  {
    var missing := CheckEnvironment(env);
    if missing.Some? {
      return Failure(MissingEnvVar(missing.value));
    }
    var serviceAccountJson := Env(env, "FIREBASE_SERVICE_ACCOUNT");
    if !host.parsesAsJson(serviceAccountJson) {
      return Failure(InvalidServiceAccount);
    }
    var issueBody := Env(env, "ISSUE_BODY");
    var sections := ExtractSections(issueBody);
    if sections.Failure? {
      return Failure(MissingField(sections.error));
    }
    var issue := IssueOf(env);
    var labPayload := BuildPayload(issue, sections.value, host.now, host.fromDate, host.sha256Hex, host.toNumber);
    return Success(Write(LabsCollection, DocId(issue.number), labPayload));
  }

  /** A complete environment has every required variable present with a non-blank value. */
  lemma EnvCompleteMeans(env: map<string, string>)
    ensures EnvComplete(env) <==>
      forall i :: 0 <= i < |RequiredEnvVars| ==> RequiredEnvVars[i] in env && Trim(env[RequiredEnvVars[i]]) != ""
  {
    FirstUnsetSpec(env, RequiredEnvVars);
  }

  /** After the environment check the creation time is never empty. */
  lemma CreatedAtPresent(env: map<string, string>)
    requires EnvComplete(env)
    ensures Env(env, "ISSUE_CREATED_AT") != ""
  {
    FirstUnsetSpec(env, RequiredEnvVars);
    assert RequiredEnvVars[4] == "ISSUE_CREATED_AT";
    assert IsSet(env, RequiredEnvVars[4]);
  }

  /**
   * A successful run stores each section's extraction in its field, the hash
   * of the Flag section exactly as extracted (the extra trim before hashing
   * changes nothing) and the issue metadata from its environment variables,
   * and always takes the submission time from the issue's creation time: the
   * fallback to the approval time cannot be reached.
   */
  lemma PublishedRecord<Time, Num>(env: map<string, string>, host: Host<Time, Num>)
    requires EnvComplete(env) && ExtractSections(Env(env, "ISSUE_BODY")).Success?
    ensures var p := BuildPayload(IssueOf(env), ExtractSections(Env(env, "ISSUE_BODY")).value,
        host.now, host.fromDate, host.sha256Hex, host.toNumber);
      p.flagHash == host.sha256Hex(ExtractField(Env(env, "ISSUE_BODY"), "Flag"))
      && p.submittedAt == host.fromDate(Env(env, "ISSUE_CREATED_AT"))
      && p.approvedAt == host.now && p.lastSyncedAt == host.now
      && p.title == ExtractField(Env(env, "ISSUE_BODY"), "Challenge Name")
      && p.description == ExtractField(Env(env, "ISSUE_BODY"), "Challenge Description")
      && p.challengeType == ExtractField(Env(env, "ISSUE_BODY"), "Challenge Type")
      && p.authorName == ExtractField(Env(env, "ISSUE_BODY"), "Submitter Name")
      && p.solution == ExtractField(Env(env, "ISSUE_BODY"), "Solution")
      && p.approvedBy == Env(env, "APPROVED_BY_LOGIN")
      && p.githubIssueNumber == host.toNumber(Env(env, "ISSUE_NUMBER"))
      && p.githubIssueUrl == Env(env, "ISSUE_HTML_URL")
      && p.submittedByGithub == Env(env, "ISSUE_USER_LOGIN")
      && (p.extraNotes.None? <==> ExtractField(Env(env, "ISSUE_BODY"), "Extra Details") == "")
      && (p.extraNotes.Some? ==> p.extraNotes.value == ExtractField(Env(env, "ISSUE_BODY"), "Extra Details"))
  {
    var body := Env(env, "ISSUE_BODY");
    ExtractSectionsSpec(body);
    ExtractSectionsTrimmed(body);
    CreatedAtPresent(env);
  }
}
