/**
 * The registration form's state hook (frontend/src/hooks/useForm.ts): each
 * change event builds the next form record from the previous one; choosing
 * a designation that has no college clears the college fields.
 */
module UseForm {
  import opened Common

  /** A file picked in the browser. */
  datatype File = File(fileName: string, content: Blob)

  /** `formData`. */
  datatype FormData = FormData(
    name: string,
    designation: string,
    collegeId: string,
    collegeName: string,
    phone: string,
    email: string,
    photo: Option<File>,
    reason: string,
    researchPaper: Option<File>,
    committeeMember: string)

  /** The form's initial value, which `resetForm` restores. */
  function EmptyForm(): (f: FormData)
    ensures f.name == "" && f.designation == "" && f.collegeId == "" && f.collegeName == ""
    ensures f.phone == "" && f.email == "" && f.reason == "" && f.committeeMember == ""
    ensures f.photo.None? && f.researchPaper.None?
  {
    FormData("", "", "", "", "", "", None, "", None, "")
  }

  /** The change event: the target's `name`, `value`, `type` and, for file inputs, its `files`. */
  datatype ChangeEvent = ChangeEvent(name: string, value: string, inputType: string, files: Option<seq<File>>)

  /** `files ? files[0] : null`: the first selected file, nothing when none is selected. */
  function FirstFile(files: Option<seq<File>>): (f: Option<File>)
    ensures f.Some? <==> files.Some? && files.value != []
    ensures f.Some? ==> f.value == files.value[0]
  {
    match files
    case Some(fs) => if fs != [] then Some(fs[0]) else None
    case None => None
  }

  /** `{...prev, [name]: file}` for the two file fields. */
  function SetFile(prev: FormData, name: string, file: Option<File>): FormData {
    if name == "photo" then prev.(photo := file)
    else if name == "researchPaper" then prev.(researchPaper := file)
    else prev
  }

  /** `{...prev, [name]: value}` for the text fields. */
  function SetText(prev: FormData, name: string, value: string): FormData {
    match name
    case "name" => prev.(name := value)
    case "designation" => prev.(designation := value)
    case "collegeId" => prev.(collegeId := value)
    case "collegeName" => prev.(collegeName := value)
    case "phone" => prev.(phone := value)
    case "email" => prev.(email := value)
    case "reason" => prev.(reason := value)
    case "committeeMember" => prev.(committeeMember := value)
    case _ => prev
  }

  /** Reads a text field by its input name; `None` for a name that is not a text field. */
  function TextField(f: FormData, name: string): Option<string> {
    match name
    case "name" => Some(f.name)
    case "designation" => Some(f.designation)
    case "collegeId" => Some(f.collegeId)
    case "collegeName" => Some(f.collegeName)
    case "phone" => Some(f.phone)
    case "email" => Some(f.email)
    case "reason" => Some(f.reason)
    case "committeeMember" => Some(f.committeeMember)
    case _ => None
  }

  /** The designations whose registrants give no college id. */
  predicate ClearsCollege(designation: string) {
    designation == "Vice-Chancellor" || designation == "Council Member"
  }

  /** `handleChange`. */
  function HandleChange(prev: FormData, e: ChangeEvent): (next: FormData)
    // A file input stores its first file (or nothing) and changes nothing else.
    ensures e.inputType == "file" ==> forall n :: TextField(next, n) == TextField(prev, n)
    ensures e.inputType == "file" && e.name == "photo" ==>
      next == prev.(photo := FirstFile(e.files))
    ensures e.inputType == "file" && e.name == "researchPaper" ==>
      next == prev.(researchPaper := FirstFile(e.files))
    ensures e.inputType == "file" && e.name != "photo" && e.name != "researchPaper" ==> next == prev
    // Vice-Chancellor and Council Member clear the college; only Council Member clears the committee.
    ensures e.inputType != "file" && e.name == "designation" && ClearsCollege(e.value) ==>
      && next.designation == e.value && next.collegeId == "" && next.collegeName == ""
      && next == prev.(designation := e.value, collegeId := "", collegeName := "",
                       committeeMember := if e.value == "Council Member" then "" else prev.committeeMember)
    // Any other designation changes the designation alone.
    ensures e.inputType != "file" && e.name == "designation" && !ClearsCollege(e.value) ==>
      next == prev.(designation := e.value)
    // A plain text field changes that field alone.
    ensures e.inputType != "file" && e.name != "designation" ==>
      && next.photo == prev.photo && next.researchPaper == prev.researchPaper
      && (TextField(prev, e.name).Some? ==> TextField(next, e.name) == Some(e.value))
      && forall n :: n != e.name ==> TextField(next, n) == TextField(prev, n)
  {
    if e.inputType == "file" then
      SetFile(prev, e.name, FirstFile(e.files))
    else if e.name == "designation" then
      var updated := prev.(designation := e.value);
      if ClearsCollege(e.value) then
        updated.(collegeId := "", collegeName := "",
                 committeeMember := if e.value == "Council Member" then "" else prev.committeeMember)
      else
        updated
    else
      SetText(prev, e.name, e.value)
  }

  /** Delivering the same change event twice leaves the form as delivering it once. */
  lemma HandleChangeIdempotent(prev: FormData, e: ChangeEvent)
    ensures HandleChange(HandleChange(prev, e), e) == HandleChange(prev, e)
  {
  }

  /**
   * After a designation without a college has been chosen, the college fields
   * are empty, whatever they held before.
   */
  lemma DesignationClearsCollege(prev: FormData, designation: string)
    requires ClearsCollege(designation)
    ensures var next := HandleChange(prev, ChangeEvent("designation", designation, "select-one", None));
      next.collegeId == "" && next.collegeName == ""
  {
  }

  /** `resetForm`: every text field empty, both files cleared, whatever the form held. */
  function ResetForm(prev: FormData): (next: FormData)
    ensures next == EmptyForm()
  {
    EmptyForm()
  }

  /** Resetting a reset form changes nothing. */
  lemma ResetIdempotent(f: FormData)
    ensures ResetForm(ResetForm(f)) == ResetForm(f)
  {
  }
}
