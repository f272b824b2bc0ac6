/** JSON payloads and the before-submission event they carry. */
module Submissions {
  import opened Options

  datatype Json =
    | Null
    | Bool(b: bool)
    | Int(n: int)
    | Decimal(text: string)
    | Str(s: string)
    | Arr(items: seq<Json>)
    | Obj(fields: map<string, Json>)
  {
    /** `Value::get`: absent on anything but an object. */
    function Get(key: string): Option<Json> {
      if Obj? && key in fields then Some(fields[key]) else None
    }
  }

  /** `BeforeSubmissionEvent`: what the request asks for, fixed before any hook runs. */
  datatype Submission = Submission(
    userId: int, problemId: int, contestId: Option<int>, language: string, fileCount: int, contestType: string)
  {
    predicate Valid() {
      && IsI32(userId) && IsI32(problemId) && IsUsize(fileCount)
      && (contestId.Some? ==> IsI32(contestId.value))
    }
  }

  predicate IsI32(n: int) { -0x8000_0000 <= n < 0x8000_0000 }

  predicate IsUsize(n: int) { 0 <= n < 0x1_0000_0000_0000_0000 }

  /** `serde_json::to_value`: an absent contest id is not written. */
  function ToValue(e: Submission): Json {
    var fields := map[
      "user_id" := Int(e.userId), "problem_id" := Int(e.problemId), "language" := Str(e.language),
      "file_count" := Int(e.fileCount), "contest_type" := Str(e.contestType)];
    Obj(if e.contestId.Some? then fields["contest_id" := Int(e.contestId.value)] else fields)
  }

  predicate DecodesI32(j: Json) { j.Int? && IsI32(j.n) }

  /** The fields in order, if their types fit. */
  function FromFields(user: Json, problem: Json, contest: Json, language: Json, count: Json, kind: Json): Option<Submission> {
    if && DecodesI32(user) && DecodesI32(problem) && (contest.Null? || DecodesI32(contest))
       && language.Str? && count.Int? && IsUsize(count.n) && kind.Str?
    then Some(Submission(user.n, problem.n, if contest.Null? then None else Some(contest.n), language.s, count.n, kind.s))
    else None
  }

  /** `serde_json::from_value`: unknown fields are ignored, a missing contest id is none,
      and a struct may also come as an array of its fields. */
  function Decode(j: Json): Option<Submission> {
    match j
    case Obj(f) =>
      if "user_id" in f && "problem_id" in f && "language" in f && "file_count" in f && "contest_type" in f then
        FromFields(f["user_id"], f["problem_id"], if "contest_id" in f then f["contest_id"] else Null,
                   f["language"], f["file_count"], f["contest_type"])
      else None
    case Arr(a) => if |a| == 6 then FromFields(a[0], a[1], a[2], a[3], a[4], a[5]) else None
    case _ => None
  }

  const ADMISSION := "submission_admission"

  /** What an admitted submission carries for the contest, if anything. */
  function Admission(j: Json): Option<Json> { j.Get(ADMISSION) }

  /** Which field of the payload holds what, both ways. */
  lemma WireFormat(e: Submission, j: Json)
    requires j == ToValue(e) || (j.Obj? && Decode(j) == Some(e))
    ensures j.Get("user_id") == Some(Int(e.userId)) && j.Get("problem_id") == Some(Int(e.problemId))
    ensures j.Get("language") == Some(Str(e.language)) && j.Get("contest_type") == Some(Str(e.contestType))
    ensures j.Get("file_count") == Some(Int(e.fileCount))
    ensures if e.contestId.Some? then j.Get("contest_id") == Some(Int(e.contestId.value))
            else j.Get("contest_id") in {None, Some(Null)}
  {
  }

  lemma DecodeToValue(e: Submission)
    requires e.Valid()
    ensures Decode(ToValue(e)) == Some(e) && Admission(ToValue(e)) == None
  {
  }

  /** Attaching an admission changes no request attribute. */
  lemma AdmissionIsNoAttribute(fields: map<string, Json>, admission: Json)
    ensures Decode(Obj(fields[ADMISSION := admission])) == Decode(Obj(fields))
    ensures Admission(Obj(fields[ADMISSION := admission])) == Some(admission)
  {
  }
}
