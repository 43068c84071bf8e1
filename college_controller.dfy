/**
 * backend/controllers/collegeController.ts: adding a college, listing the
 * colleges with an optional case-insensitive name search, and asking whether
 * some registration already holds a college.
 */
module CollegeController {
  import opened Common
  import opened Text
  import opened Query
  import opened Schema
  import opened Store

  /** What `addCollege` answers. */
  datatype AddReply = CollegeAdded(id: nat) | NameRequired | AlreadyExists | InsertionError

  /** The status code of each reply: 201 on success, 400 for the two refusals, 500 otherwise. */
  function AddStatus(r: AddReply): (code: int)
    ensures code == 201 <==> r.CollegeAdded?
    ensures code == 400 <==> r == NameRequired || r == AlreadyExists
    ensures code == 500 <==> r == InsertionError
  {
    match r
    case CollegeAdded(_) => 201
    case NameRequired => 400
    case AlreadyExists => 400
    case InsertionError => 500
  }

  /** The message of each reply; each kind of reply has its own, so the two 400 replies can be told apart. */
  function AddText(r: AddReply): (text: string)
    ensures text == "College added successfully" <==> r.CollegeAdded?
    ensures text == "College name is required" <==> r == NameRequired
    ensures text == "College already exists" <==> r == AlreadyExists
    ensures text == "Database insertion error" <==> r == InsertionError
  {
    match r
    case CollegeAdded(_) => "College added successfully"
    case NameRequired => "College name is required"
    case AlreadyExists => "College already exists"
    case InsertionError => "Database insertion error"
  }

  /** `!name`: the body field is missing or the empty string. */
  predicate Blank(name: Option<string>) {
    name.None? || name.value == ""
  }

  /**
   * `addCollege`: a blank name is refused before any write; otherwise one
   * college is inserted, and an insert error is reported as a duplicate when it
   * is a unique-constraint error and as a server error otherwise.
   */
  method AddCollege(db: Database, name: Option<string>, failure: Option<DbError>) returns (reply: AddReply)
    requires db.Valid()
    modifies db
    ensures db.Valid()
    ensures db.registrations == old(db.registrations)
    ensures !reply.CollegeAdded? ==> db.colleges == old(db.colleges)
    ensures AddStatus(reply) == 201 <==> db.colleges != old(db.colleges)
    ensures Blank(name) ==> reply == NameRequired
    ensures !Blank(name) && failure.None? ==>
      && reply.CollegeAdded?
      && !CollegeExists(old(db.colleges), reply.id)
      && db.colleges == old(db.colleges) + [College(reply.id, name.value)]
    ensures !Blank(name) && failure == Some(UniqueConstraintError) ==> reply == AlreadyExists
    ensures !Blank(name) && failure.Some? && failure != Some(UniqueConstraintError) ==> reply == InsertionError
  {
    if Blank(name) {
      return NameRequired;
    }
    var created := db.CreateCollege(name.value, failure);
    match created
    case Success(c) =>
      reply := CollegeAdded(c.id);
    case Failure(e) =>
      reply := if e == UniqueConstraintError then AlreadyExists else InsertionError;
  }

  /** What `getAllColleges` answers: 200 with the list, or 500. */
  datatype ListReply = Colleges(items: seq<College>) | QueryError

  /** The `where` clause: no search term (or an empty one) matches every college. */
  function NameMatches(search: Option<string>): (matches: College -> bool)
    ensures Blank(search) ==> forall c :: matches(c)
    ensures !Blank(search) ==> forall c :: matches(c) == Contains(ToLower(c.name), ToLower(search.value))
  {
    (c: College) => Blank(search) || ContainsIgnoringCase(c.name, search.value)
  }

  /**
   * `getAllColleges`: with no search term every college, otherwise exactly the
   * colleges whose name contains the term ignoring case, in table order.
   */
  function GetAllColleges(colleges: seq<College>, search: Option<string>, queryFails: bool): (r: ListReply)
    ensures queryFails <==> r == QueryError
    ensures r.Colleges? && Blank(search) ==> r.items == colleges
    ensures r.Colleges? && !Blank(search) ==>
      && (forall i :: 0 <= i < |r.items| ==>
            r.items[i] in colleges && Contains(ToLower(r.items[i].name), ToLower(search.value)))
      && (forall i :: 0 <= i < |colleges| && Contains(ToLower(colleges[i].name), ToLower(search.value)) ==>
            colleges[i] in r.items)
    ensures r.Colleges? ==> multiset(r.items) <= multiset(colleges)
  {
    if queryFails then QueryError
    else
      var keep := NameMatches(search);
      if Blank(search) then
        FilterKeepsAll(colleges, keep);
        Colleges(Filter(colleges, keep))
      else
        Colleges(Filter(colleges, keep))
  }

  /** The case of the search term does not matter: it is lower-cased before matching. */
  lemma SearchTermCaseIrrelevant(colleges: seq<College>, term: string)
    ensures GetAllColleges(colleges, Some(term), false) == GetAllColleges(colleges, Some(ToLower(term)), false)
  {
    ToLowerIdempotent(term);
    if term != "" {
      assert ToLower(term) != [] by { assert |ToLower(term)| == |term|; }
      FilterCongruent(colleges, NameMatches(Some(term)), NameMatches(Some(ToLower(term))));
    } else {
      assert ToLower(term) == "";
    }
  }

  /** What `checkCollegeRegistration` answers. */
  datatype CheckReply = Checked(isRegistered: bool) | CheckError

  /** The status code of each reply: 200 with the answer, or 500. */
  function CheckStatus(r: CheckReply): (code: int)
    ensures code == 200 <==> r.Checked?
    ensures code == 500 <==> r == CheckError
  {
    if r.Checked? then 200 else 500
  }

  /** The message of each reply; it tells the three replies apart. */
  function CheckText(r: CheckReply): (text: string)
    ensures text == "College is already registered by another user." <==> r == Checked(true)
    ensures text == "College is not yet registered." <==> r == Checked(false)
    ensures text == "Database query error" <==> r == CheckError
  {
    match r
    case Checked(true) => "College is already registered by another user."
    case Checked(false) => "College is not yet registered."
    case CheckError => "Database query error"
  }

  /**
   * `checkCollegeRegistration`: registered exactly when some registration holds
   * the college id. It only reads the table.
   */
  function CheckCollegeRegistration(rows: seq<Registration>, collegeId: nat, queryFails: bool): (r: CheckReply)
    ensures queryFails <==> r == CheckError
    ensures r.Checked? ==> (r.isRegistered <==> exists i :: 0 <= i < |rows| && rows[i].collegeId == Some(collegeId))
  {
    if queryFails then CheckError
    else Checked(FindFirst(rows, (row: Registration) => row.collegeId == Some(collegeId)).Some?)
  }

  /**
   * The check answers what the admission rule will decide: a registered
   * college id is exactly one for which `registerUser` rejects a new email
   * with the "already registered" reply.
   */
  lemma CheckAgreesWithAdmission(rows: seq<Registration>, collegeId: nat)
    ensures CheckCollegeRegistration(rows, collegeId, false).isRegistered == HasCollege(rows, Some(collegeId))
  {
  }
}
