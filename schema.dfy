/**
 * The two tables of the store: `colleges` (backend/models/College.ts) and
 * `registrations` (backend/models/Registration.ts), with the column
 * constraints Sequelize checks before an insert and the table invariants the
 * database keeps (primary keys, unique columns, the foreign key to colleges).
 */
module Schema {
  import opened Common

  /** The `designation` ENUM column: exactly four values. */
  datatype Designation = ChairPerson | CouncilMember | Principal | ViceChancellor

  function DesignationLabel(d: Designation): string {
    match d
    case ChairPerson => "Chair Person"
    case CouncilMember => "Council Member"
    case Principal => "Principal"
    case ViceChancellor => "Vice-Chancellor"
  }

  /** Reads a submitted string as a designation; only the four ENUM labels are accepted. */
  function ParseDesignation(s: string): (d: Option<Designation>)
    ensures d.Some? <==> s in {"Chair Person", "Council Member", "Principal", "Vice-Chancellor"}
    ensures d.Some? ==> DesignationLabel(d.value) == s
  {
    if s == "Chair Person" then Some(ChairPerson)
    else if s == "Council Member" then Some(CouncilMember)
    else if s == "Principal" then Some(Principal)
    else if s == "Vice-Chancellor" then Some(ViceChancellor)
    else None
  }

  lemma DesignationRoundTrip(d: Designation)
    ensures ParseDesignation(DesignationLabel(d)) == Some(d)
  {
  }

  /** The `reason` ENUM column: exactly three values. */
  datatype Reason = InternationalInternship | Textbook | PresentResearchPaper

  function ReasonLabel(r: Reason): string {
    match r
    case InternationalInternship => "To know about International Internship"
    case Textbook => "To know about Textbook"
    case PresentResearchPaper => "To present research paper"
  }

  /** Reads a submitted string as a reason; only the three ENUM labels are accepted. */
  function ParseReason(s: string): (r: Option<Reason>)
    ensures r.Some? <==> s in {"To know about International Internship", "To know about Textbook", "To present research paper"}
    ensures r.Some? ==> ReasonLabel(r.value) == s
  {
    if s == "To know about International Internship" then Some(InternationalInternship)
    else if s == "To know about Textbook" then Some(Textbook)
    else if s == "To present research paper" then Some(PresentResearchPaper)
    else None
  }

  lemma ReasonRoundTrip(r: Reason)
    ensures ParseReason(ReasonLabel(r)) == Some(r)
  {
  }

  /** A row of `colleges`: an auto-incremented id and a required name. */
  datatype College = College(id: nat, name: string)

  /**
   * A row of `registrations`. The non-null columns (name, designation, phone,
   * email, photo, reason, eventId) are plain fields; the nullable ones
   * (collegeId, researchPaper, committeeMember) are options.
   */
  datatype Registration = Registration(
    id: nat,
    name: string,
    designation: Designation,
    collegeId: Option<nat>,
    phone: string,
    email: string,
    photo: Blob,
    reason: Reason,
    researchPaper: Option<Blob>,
    committeeMember: Option<string>,
    eventId: int)

  /**
   * The attributes handed to `Registration.create`, loosely typed as the ORM
   * receives them: any attribute may be missing and the ENUM columns arrive as
   * strings.
   */
  datatype Draft = Draft(
    name: Option<string>,
    designation: Option<string>,
    collegeId: Option<nat>,
    phone: Option<string>,
    email: Option<string>,
    photo: Option<Blob>,
    reason: Option<string>,
    researchPaper: Option<Blob>,
    committeeMember: Option<string>,
    eventId: Option<int>)

  /**
   * The column-level validation an insert goes through: every `allowNull: false`
   * column must be given and each ENUM column must hold one of its labels.
   * `autoEventId` is the value an auto-increment `eventId` column would supply
   * when the draft has none; `None` is the column exactly as declared (no
   * auto-increment, no default), which then must be given.
   */
  function Build(d: Draft, id: nat, autoEventId: Option<int>): (r: Option<Registration>)
    ensures r.Some? <==>
      && d.name.Some? && d.phone.Some? && d.email.Some? && d.photo.Some?
      && d.designation.Some? && ParseDesignation(d.designation.value).Some?
      && d.reason.Some? && ParseReason(d.reason.value).Some?
      && (d.eventId.Some? || autoEventId.Some?)
    ensures r.Some? ==>
      && r.value.id == id
      && Some(r.value.name) == d.name
      && Some(DesignationLabel(r.value.designation)) == d.designation
      && r.value.collegeId == d.collegeId
      && Some(r.value.phone) == d.phone
      && Some(r.value.email) == d.email
      && Some(r.value.photo) == d.photo
      && Some(ReasonLabel(r.value.reason)) == d.reason
      && r.value.researchPaper == d.researchPaper
      && r.value.committeeMember == d.committeeMember
      && r.value.eventId == (if d.eventId.Some? then d.eventId.value else autoEventId.value)
  {
    if d.name.None? || d.phone.None? || d.email.None? || d.photo.None? then None
    else if d.designation.None? || d.reason.None? then None
    else if d.eventId.None? && autoEventId.None? then None
    else
      match (ParseDesignation(d.designation.value), ParseReason(d.reason.value))
      case (Some(des), Some(why)) =>
        Some(Registration(id, d.name.value, des, d.collegeId, d.phone.value, d.email.value,
                          d.photo.value, why, d.researchPaper, d.committeeMember,
                          d.eventId.GetOr(autoEventId.GetOr(0))))
      case _ => None
  }

  /** Some college has primary key `id`. */
  predicate CollegeExists(colleges: seq<College>, id: nat) {
    exists i :: 0 <= i < |colleges| && colleges[i].id == id
  }

  /** Some registration has this email. */
  predicate HasEmail(rows: seq<Registration>, email: string) {
    exists i :: 0 <= i < |rows| && rows[i].email == email
  }

  /** Some registration has this (possibly null) collegeId; null matches null, as `IS NULL` does. */
  predicate HasCollege(rows: seq<Registration>, collegeId: Option<nat>) {
    exists i :: 0 <= i < |rows| && rows[i].collegeId == collegeId
  }

  /** Some registration has this eventId. */
  predicate HasEventId(rows: seq<Registration>, eventId: int) {
    exists i :: 0 <= i < |rows| && rows[i].eventId == eventId
  }

  /** The `colleges` primary key is unique. */
  predicate CollegesWellFormed(colleges: seq<College>) {
    forall i, j :: 0 <= i < j < |colleges| ==> colleges[i].id != colleges[j].id
  }

  /**
   * The `registrations` invariants: unique primary key, unique `email`, unique
   * `eventId`, and every non-null `collegeId` refers to an existing college.
   */
  predicate WellFormed(colleges: seq<College>, rows: seq<Registration>): (ok: bool)
    ensures ok ==> forall i, j :: 0 <= i < |rows| && 0 <= j < |rows| && i != j ==>
      rows[i].id != rows[j].id && rows[i].email != rows[j].email && rows[i].eventId != rows[j].eventId
    ensures ok ==> forall i :: 0 <= i < |rows| && rows[i].collegeId.Some? ==>
      exists k :: 0 <= k < |colleges| && colleges[k].id == rows[i].collegeId.value
  {
    && CollegesWellFormed(colleges)
    && (forall i, j :: 0 <= i < j < |rows| ==>
          rows[i].id != rows[j].id && rows[i].email != rows[j].email && rows[i].eventId != rows[j].eventId)
    && (forall i :: 0 <= i < |rows| && rows[i].collegeId.Some? ==> CollegeExists(colleges, rows[i].collegeId.value))
  }

  /** Appending a row whose keys are fresh and whose college exists keeps the table well formed. */
  lemma AppendKeepsWellFormed(colleges: seq<College>, rows: seq<Registration>, r: Registration)
    requires WellFormed(colleges, rows)
    requires forall i :: 0 <= i < |rows| ==> rows[i].id != r.id
    requires !HasEmail(rows, r.email) && !HasEventId(rows, r.eventId)
    requires r.collegeId.Some? ==> CollegeExists(colleges, r.collegeId.value)
    ensures WellFormed(colleges, rows + [r])
  {
  }

  /** Adding a college with a fresh id keeps every registration's foreign key valid. */
  lemma AddCollegeKeepsWellFormed(colleges: seq<College>, rows: seq<Registration>, c: College)
    requires WellFormed(colleges, rows)
    requires !CollegeExists(colleges, c.id)
    ensures WellFormed(colleges + [c], rows)
  {
    forall i | 0 <= i < |rows| && rows[i].collegeId.Some?
      ensures CollegeExists(colleges + [c], rows[i].collegeId.value)
    {
      var k :| 0 <= k < |colleges| && colleges[k].id == rows[i].collegeId.value;
      assert (colleges + [c])[k] == colleges[k];
    }
  }

  /** In a well-formed table an email identifies at most one registration. */
  lemma EmailIdentifiesRow(colleges: seq<College>, rows: seq<Registration>, i: nat, j: nat)
    requires WellFormed(colleges, rows)
    requires i < |rows| && j < |rows| && rows[i].email == rows[j].email
    ensures i == j
  {
  }
}
