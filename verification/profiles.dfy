/** The student profile fields the core reads, with the schema's enums as datatypes. */
module Profiles {
  import opened Common

  /** `intendedDegree`. */
  datatype Degree = Bachelors | Masters | Mba | Phd

  /** `budgetRange`. */
  datatype Budget = Under10k | From10kTo30k | From30kTo50k | From50kTo100k | Over100k

  /** `ieltsStatus`, `toeflStatus`, `greStatus`, `gmatStatus`. */
  datatype ExamStatus = NotStarted | InProgress | Completed

  /** `sopStatus`. */
  datatype SopStatus = SopNotStarted | Draft | Ready

  /** `gpa` is stored as text; `None` stands for missing, empty or unparsable
      (`parseFloat` giving NaN), `Some(v)` for the parsed number. */
  datatype Profile = Profile(
    gpa: Option<real>,
    intendedDegree: Option<Degree>,
    fieldOfStudy: string,
    major: string,
    preferredCountries: seq<string>,
    budgetRange: Option<Budget>,
    ieltsStatus: ExamStatus,
    toeflStatus: ExamStatus,
    greStatus: ExamStatus,
    gmatStatus: ExamStatus,
    sopStatus: SopStatus,
    targetIntakeYear: Option<int>)

  /** The stored text of each degree value. */
  function DegreeText(d: Degree): string {
    match d
    case Bachelors => "Bachelor's"
    case Masters => "Master's"
    case Mba => "MBA"
    case Phd => "PhD"
  }

  /** `profile?.intendedDegree || 'Masters'`. */
  function IntendedText(profile: Option<Profile>): string {
    if profile.Some? && profile.value.intendedDegree.Some?
    then DegreeText(profile.value.intendedDegree.value)
    else "Masters"
  }

  /** `profile?.fieldOfStudy || profile?.major || 'General Studies'`. */
  function Course(profile: Option<Profile>): (r: string)
    ensures r != ""
    ensures r == "General Studies" || (profile.Some? && (r == profile.value.fieldOfStudy || r == profile.value.major))
    ensures profile.Some? && profile.value.fieldOfStudy != "" ==> r == profile.value.fieldOfStudy
    ensures profile.Some? && profile.value.fieldOfStudy == "" && profile.value.major != "" ==> r == profile.value.major
  {
    if profile.Some? && profile.value.fieldOfStudy != "" then profile.value.fieldOfStudy
    else if profile.Some? && profile.value.major != "" then profile.value.major
    else "General Studies"
  }

  /** `parseFloat(profile.gpa) || 0`. */
  function GpaOrZero(p: Profile): real {
    p.gpa.GetOr(0.0)
  }
}
