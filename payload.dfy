/**
 * The lab record the publisher stores for an approved submission. Time stamps
 * and the numeric issue number are kept abstract (type parameters `Time` and
 * `Num`); the clock, date parsing, hashing and number conversion are passed in.
 */
module Payload {
  import opened Wrappers
  import opened Text
  import opened Validate

  const DefaultPointsToUnlock := 3
  const PointsReward := 10
  const PublishedStatus := "published"

  /** The issue metadata the workflow passes in through the environment. */
  datatype Issue = Issue(
    number: string,
    htmlUrl: string,
    createdAt: string,
    userLogin: string,
    approvedBy: string)

  /** The stored lab document; `extraNotes` is `None` where the source stores `null`. */
  datatype LabPayload<Time, Num> = LabPayload(
    title: string,
    description: string,
    challengeType: string,
    authorName: string,
    flagHash: string,
    solution: string,
    extraNotes: Option<string>,
    pointsToUnlock: int,
    pointsReward: int,
    status: string,
    approvedAt: Time,
    approvedBy: string,
    submittedAt: Time,
    githubIssueNumber: Num,
    githubIssueUrl: string,
    submittedByGithub: string,
    lastSyncedAt: Time)

  /** The document key of an issue's lab. */
  function DocId(number: string): (id: string)
    ensures |id| == |number| + 6 && id[..6] == "issue-" && id[6..] == number
  {
    "issue-" + number
  }

  /** Distinct issue numbers give distinct document keys. */
  lemma DocIdInjective(a: string, b: string)
    requires DocId(a) == DocId(b)
    ensures a == b
  {
    assert a == DocId(a)[6..] && b == DocId(b)[6..];
  }

  /** The submission time: the issue's creation time, or the approval time when that string is empty. */
  function SubmittedAt<Time>(createdAt: string, now: Time, fromDate: string -> Time): (t: Time)
    ensures createdAt == "" ==> t == now
    ensures createdAt != "" ==> t == fromDate(createdAt)
  {
    if createdAt != "" then fromDate(createdAt) else now
  }

  /** `extraDetails || null`: the empty string becomes `null`. */
  function ExtraNotes(extraDetails: string): (n: Option<string>)
    ensures n.None? <==> extraDetails == ""
    ensures n.Some? ==> n.value == extraDetails
  {
    if extraDetails == "" then None else Some(extraDetails)
  }

  /** The record built from the extracted sections, the issue metadata and the approval time. */
  function BuildPayload<Time, Num>(
    issue: Issue, sec: Sections, now: Time,
    fromDate: string -> Time, sha256Hex: string -> string, toNumber: string -> Num
  ): (p: LabPayload<Time, Num>)
    ensures p.title == sec.challengeName && p.description == sec.challengeDescription
    ensures p.challengeType == sec.challengeType && p.authorName == sec.submitterName
    ensures p.solution == sec.solution
    ensures p.approvedBy == issue.approvedBy && p.githubIssueNumber == toNumber(issue.number)
    ensures p.githubIssueUrl == issue.htmlUrl && p.submittedByGithub == issue.userLogin
    ensures p.pointsToUnlock == 3 && p.pointsReward == 10 && p.status == "published"
    ensures p.approvedAt == now && p.lastSyncedAt == p.approvedAt
    ensures p.flagHash == sha256Hex(Trim(sec.flag))
    ensures p.extraNotes.None? <==> sec.extraDetails == ""
    ensures p.extraNotes.Some? ==> p.extraNotes.value == sec.extraDetails
    ensures issue.createdAt == "" ==> p.submittedAt == now
    ensures issue.createdAt != "" ==> p.submittedAt == fromDate(issue.createdAt)
  {
    LabPayload(
      sec.challengeName,
      sec.challengeDescription,
      sec.challengeType,
      sec.submitterName,
      sha256Hex(Trim(sec.flag)),
      sec.solution,
      ExtraNotes(sec.extraDetails),
      DefaultPointsToUnlock,
      PointsReward,
      PublishedStatus,
      now,
      issue.approvedBy,
      SubmittedAt(issue.createdAt, now, fromDate),
      toNumber(issue.number),
      issue.htmlUrl,
      issue.userLogin,
      now)
  }

  /**
   * The record depends on the flag only through its hash: two submissions that
   * differ only in flags of equal hash give the same record.
   */
  lemma PayloadHidesFlag<Time, Num>(
    issue: Issue, s1: Sections, s2: Sections, now: Time,
    fromDate: string -> Time, sha256Hex: string -> string, toNumber: string -> Num)
    requires s1.(flag := s2.flag) == s2
    requires sha256Hex(Trim(s1.flag)) == sha256Hex(Trim(s2.flag))
    ensures BuildPayload(issue, s1, now, fromDate, sha256Hex, toNumber)
         == BuildPayload(issue, s2, now, fromDate, sha256Hex, toNumber)
  {
  }

  /**
   * The approval time reaches the record only in `approvedAt`, `lastSyncedAt`
   * and, for an issue without a creation time, `submittedAt`.
   */
  lemma PayloadClockFields<Time, Num>(
    issue: Issue, sec: Sections, t1: Time, t2: Time,
    fromDate: string -> Time, sha256Hex: string -> string, toNumber: string -> Num)
    requires issue.createdAt != ""
    ensures BuildPayload(issue, sec, t1, fromDate, sha256Hex, toNumber).(approvedAt := t2, lastSyncedAt := t2)
         == BuildPayload(issue, sec, t2, fromDate, sha256Hex, toNumber)
  {
  }
}
