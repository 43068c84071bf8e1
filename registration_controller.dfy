/**
 * `registerUser` (backend/controllers/registrationController.js): the
 * admission rule for a submitted registration. The checks run in order:
 * duplicate email, then a college already taken by another registration;
 * only then is one row inserted. On acceptance the representative's notice
 * carries the photo and, when one was uploaded, the research paper.
 */
module RegistrationController {
  import opened Common
  import opened Schema
  import opened Query
  import opened Store
  import Text

  /** The multipart request: body fields as sent, files as multer buffers (absent when not uploaded). */
  datatype Submission = Submission(
    name: string,
    designation: string,
    collegeId: Option<nat>,
    phone: string,
    email: string,
    reason: string,
    photo: Option<Blob>,
    researchPaper: Option<Blob>)

  /** The database calls `registerUser` makes, in the order it makes them. */
  datatype Step = FindByEmail | FindByCollegeId | FindCollegeByPk | Create

  /** What the handler answers. */
  datatype Outcome =
    | EmailExists
    | CollegeTaken(collegeName: string)
    | Registered(id: nat)
    | ServerError

  /** The HTTP status: 201 only for an accepted registration, 400 for both rejections, 500 for a failure. */
  function Status(o: Outcome): (code: int)
    ensures code == 201 <==> o.Registered?
    ensures code == 400 <==> o.EmailExists? || o.CollegeTaken?
    ensures code == 500 <==> o == ServerError
  {
    match o
    case EmailExists => 400
    case CollegeTaken(_) => 400
    case Registered(_) => 201
    case ServerError => 500
  }

  /** The reply text; the "already registered" text names the college right after "The college ". */
  function Message(o: Outcome): (text: string)
    ensures o.CollegeTaken? ==> Text.OccursAt(text, o.collegeName, 12)
  {
    match o
    case EmailExists => "Email already exists"
    case CollegeTaken(n) =>
      "The college " + n + " is already registered by another user. Please contact support if this is a mistake."
    case Registered(_) => "User registered successfully"
    case ServerError => "Server error"
  }

  /** One entry of a mail's attachment list. */
  datatype Attachment = Attachment(filename: string, content: Blob, encoding: string)

  /** The two mails sent after an accepted registration: what they carry that is not template text. */
  datatype Notice = Notice(userAddress: string, collegeName: string, representativeAttachments: seq<Attachment>)

  /** The representative's attachment list: the photo, then the research paper only if one was uploaded. */
  function RepresentativeAttachments(photo: Blob, researchPaper: Option<Blob>): (r: seq<Attachment>)
    ensures |r| == (if researchPaper.Some? then 2 else 1)
    ensures r[0] == Attachment("photo.jpg", photo, "base64")
    ensures researchPaper.Some? ==> r[1] == Attachment("research_paper.pdf", researchPaper.value, "base64")
  {
    [Attachment("photo.jpg", photo, "base64")]
      + match researchPaper
        case Some(paper) => [Attachment("research_paper.pdf", paper, "base64")]
        case None => []
  }

  /** `College.findByPk(collegeId)`: a null key finds nothing. */
  function FindCollege(colleges: seq<College>, collegeId: Option<nat>): (r: Option<College>)
    ensures r.Some? ==> collegeId.Some? && r.value in colleges && r.value.id == collegeId.value
    ensures r.None? ==> collegeId.None? || !CollegeExists(colleges, collegeId.value)
  {
    match collegeId
    case None => None
    case Some(id) =>
      match FindFirst(colleges, (c: College) => c.id == id)
      case Some(k) => Some(colleges[k])
      case None => None
  }

  /** The college name the handler shows: the college's own name, or "Unknown College" when none is found. */
  function CollegeDisplayName(colleges: seq<College>, collegeId: Option<nat>): (n: string)
    ensures collegeId.None? ==> n == "Unknown College"
    ensures collegeId.Some? && !CollegeExists(colleges, collegeId.value) ==> n == "Unknown College"
    ensures CollegesWellFormed(colleges) && collegeId.Some? ==>
      forall i :: 0 <= i < |colleges| && colleges[i].id == collegeId.value ==> n == colleges[i].name
  {
    match FindCollege(colleges, collegeId)
    case Some(c) => c.name
    case None => "Unknown College"
  }

  /** The attributes `registerUser` passes to `Registration.create`: no committeeMember, no eventId. */
  function DraftOf(s: Submission): (d: Draft)
    ensures d.eventId.None? && d.committeeMember.None?
    ensures d.name == Some(s.name) && d.designation == Some(s.designation) && d.phone == Some(s.phone)
    ensures d.email == Some(s.email) && d.reason == Some(s.reason)
    ensures d.collegeId == s.collegeId && d.photo == s.photo && d.researchPaper == s.researchPaper
  {
    Draft(Some(s.name), Some(s.designation), s.collegeId, Some(s.phone), Some(s.email),
          s.photo, Some(s.reason), s.researchPaper, None, None)
  }

  /** The stored row carries exactly what was submitted. */
  predicate Carries(r: Registration, s: Submission) {
    && r.name == s.name
    && DesignationLabel(r.designation) == s.designation
    && r.collegeId == s.collegeId
    && r.phone == s.phone
    && r.email == s.email
    && Some(r.photo) == s.photo
    && ReasonLabel(r.reason) == s.reason
    && r.researchPaper == s.researchPaper
    && r.committeeMember == None
  }

  /**
   * The handler. `failing` names the database call that throws, if any; a
   * call that is never reached cannot fail.
   */
  method RegisterUser(db: Database, s: Submission, failing: Option<Step>) returns (outcome: Outcome, notice: Option<Notice>)
    requires db.Valid()
    modifies db
    ensures db.Valid()
    ensures db.colleges == old(db.colleges)
    // Only an accepted registration writes, and it writes one row.
    ensures !outcome.Registered? ==> db.registrations == old(db.registrations) && notice.None?
    // A failing lookup or insert that is reached yields 500.
    ensures failing == Some(FindByEmail) ==> outcome == ServerError
    ensures failing in {Some(FindByCollegeId), Some(FindCollegeByPk)} && !HasEmail(old(db.registrations), s.email)
            ==> outcome == ServerError
    ensures failing == Some(Create) && !HasEmail(old(db.registrations), s.email)
            && !HasCollege(old(db.registrations), s.collegeId)
            ==> outcome == ServerError
    // An insert the store refuses (validation, unique columns, foreign key) is a failure too: 500.
    ensures failing.None? && !HasEmail(old(db.registrations), s.email)
            && !HasCollege(old(db.registrations), s.collegeId)
            && !Admits(old(db.colleges), old(db.registrations), DraftOf(s), old(db.AutoEventId()))
            ==> outcome == ServerError
    // With the eventId column as declared, every submission that passes both checks gets 500.
    ensures db.eventIdColumn == AsDeclared && !HasEmail(old(db.registrations), s.email)
            && !HasCollege(old(db.registrations), s.collegeId)
            ==> outcome == ServerError
    // A duplicate email is rejected first, whatever the college.
    ensures failing != Some(FindByEmail) && HasEmail(old(db.registrations), s.email) ==> outcome == EmailExists
    // A new email whose college is already taken is rejected, naming that college.
    ensures failing !in {Some(FindByEmail), Some(FindByCollegeId), Some(FindCollegeByPk)}
            && !HasEmail(old(db.registrations), s.email) && HasCollege(old(db.registrations), s.collegeId)
            ==> outcome == CollegeTaken(CollegeDisplayName(old(db.colleges), s.collegeId))
    // Acceptance: exactly the case where no check rejects, no call fails and the insert is admitted.
    ensures outcome.Registered? <==>
      && failing.None?
      && !HasEmail(old(db.registrations), s.email)
      && !HasCollege(old(db.registrations), s.collegeId)
      && Admits(old(db.colleges), old(db.registrations), DraftOf(s), old(db.AutoEventId()))
    ensures outcome.Registered? ==>
      && |db.registrations| == |old(db.registrations)| + 1
      && db.registrations[..|old(db.registrations)|] == old(db.registrations)
      && var row := db.registrations[|old(db.registrations)|];
      && Carries(row, s)
      && row.id == outcome.id
      && !HasEventId(old(db.registrations), row.eventId)
      && notice == Some(Notice(s.email, CollegeDisplayName(old(db.colleges), s.collegeId),
                               RepresentativeAttachments(row.photo, s.researchPaper)))
  {
    notice := None;
    if failing == Some(FindByEmail) {
      return ServerError, None;
    }
    var existingUser := FindFirst(db.registrations, (r: Registration) => r.email == s.email);
    if existingUser.Some? {
      return EmailExists, None;
    }
    assert !HasEmail(db.registrations, s.email);
    if failing == Some(FindByCollegeId) {
      return ServerError, None;
    }
    var existingCollegeUser := FindFirst(db.registrations, (r: Registration) => r.collegeId == s.collegeId);
    if existingCollegeUser.Some? {
      if failing == Some(FindCollegeByPk) {
        return ServerError, None;
      }
      return CollegeTaken(CollegeDisplayName(db.colleges, s.collegeId)), None;
    }
    assert !HasCollege(db.registrations, s.collegeId);
    if failing == Some(FindCollegeByPk) {
      return ServerError, None;
    }
    var collegeName := CollegeDisplayName(db.colleges, s.collegeId);
    DeclaredSchemaRejectsEveryInsert(db.colleges, db.registrations, s, db.nextRegistrationId);
    // Every earlier call has succeeded, so a failing call can only be the insert.
    var created := db.CreateRegistration(DraftOf(s), failing.Some?);
    if created.Failure? {
      return ServerError, None;
    }
    var row := created.value;
    outcome := Registered(row.id);
    notice := Some(Notice(s.email, collegeName, RepresentativeAttachments(row.photo, s.researchPaper)));
  }

  /**
   * The schema as declared gives `eventId` neither a default nor
   * auto-increment, and `registerUser` never supplies it: every insert the
   * handler attempts fails validation.
   */
  lemma DeclaredSchemaRejectsEveryInsert(colleges: seq<College>, rows: seq<Registration>, s: Submission, id: nat)
    ensures Build(DraftOf(s), id, None) == None
    ensures !Admits(colleges, rows, DraftOf(s), None)
  {
  }

  /**
   * The foreign key on `collegeId` means an admitted registration with a
   * college id always names a real college: "Unknown College" is shown on
   * acceptance only when no college id was given.
   */
  lemma AdmittedCollegeIsKnown(colleges: seq<College>, rows: seq<Registration>, s: Submission, autoEventId: Option<int>)
    requires CollegesWellFormed(colleges)
    requires Admits(colleges, rows, DraftOf(s), autoEventId)
    ensures s.collegeId.None? ==> CollegeDisplayName(colleges, s.collegeId) == "Unknown College"
    ensures s.collegeId.Some? ==>
      exists i :: 0 <= i < |colleges| && colleges[i].id == s.collegeId.value
                  && CollegeDisplayName(colleges, s.collegeId) == colleges[i].name
  {
  }
}
