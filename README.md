# Event registration: admission, catalogue, listing and form state

A Dafny model of the decision and collection logic of a conference
registration application. The backend stores two tables, `colleges` and
`registrations`, through an ORM. The frontend has an admin listing and a
registration form. The model covers:

- **Schema** (`schema.dfy`): the `registrations` and `colleges` rows. The
  designation and reason ENUMs are datatypes, each with a parser from its
  labels and a round trip. `Build` is the column validation an insert goes
  through (not-null columns, ENUM values). `WellFormed` is the table
  invariant: unique `id`, `email` and `eventId`, and every non-null
  `collegeId` refers to an existing college.
- **Store** (`store.dfy`): `class Database` holds both tables as sequences,
  with the auto-increment counters. `CreateCollege` and `CreateRegistration`
  append one row each. Both keep `Valid()`. The `eventId` column is either
  `AsDeclared` (not null, no default, as `Registration.ts` declares it) or
  `StoreSupplied` (the store fills it in when an insert leaves it out).
- **Registration admission** (`registration_controller.dfy`): `RegisterUser`
  runs the checks in the handler's order. A duplicate email is rejected
  first. Next, a college already held by another registration is rejected,
  and the reply names that college. Only then is one row inserted. The
  method also returns what the two mails carry, including the
  representative's attachment list.
- **College catalogue** (`college_controller.dfy`): `AddCollege`,
  `GetAllColleges` (case-insensitive substring search) and
  `CheckCollegeRegistration`.
- **Admin listing** (`admin_list.dfy`): name filter, pages of ten, page
  count by ceiling division, and the Previous/Next transitions. It is proved
  that the pages partition the filtered list and that the page index stays
  in range.
- **Form state** (`use_form.dfy`): `handleChange` and `resetForm` as
  functions from one form record to the next.
- Helpers: `text.dfy` (ASCII `toLowerCase`, `includes`), `query.dfy`
  (`findOne`, `findAll` over a sequence of rows), `common.dfy`.

Database failures that do not depend on the data (a lost connection, say)
are parameters: `failing` names the call that throws. The store is
sequential and in memory.

Points about the code that shape the model:

- `registerUser` in `backend/controllers/registrationController.js` checks no
  required fields, does not get or create a college by name, computes no
  `eventId` and checks no photo size. What it does check is that the email
  and the college are not already taken; the store's own validation does the
  rest.
- The handler itself never checks that `collegeId` names a college, and it
  shows "Unknown College" when `findByPk` finds none. However, the
  `references` clause at `backend/models/Registration.ts:53-56` declares a
  foreign key, so the database refuses such an insert and the reply is 500.
  As a result, on acceptance "Unknown College" appears only when no college
  id was given (`AdmittedCollegeIsKnown`).
- A submission's `collegeId` of `None` stands for an explicit null, which the
  lookup at line 48 treats as `IS NULL`. The multipart route cannot deliver
  null, though: the form leaves empty fields out, so a registration without a
  college reaches that lookup with `collegeId` undefined. The ORM refuses an
  undefined `where` value by throwing, which is the
  `failing == Some(FindByCollegeId)` case (500).
- Any insert the store refuses (an unknown designation or reason, a missing
  photo, a college id with no college) throws from `Registration.create` and
  reaches the catch block: the reply is 500.

## Model

| member | source | states |
|---|---|---|
| `Schema.ParseDesignation` | backend/models/Registration.ts:46-49 | a designation is accepted exactly when it is one of the four ENUM labels, and parses back to that label |
| `Schema.DesignationRoundTrip` | backend/models/Registration.ts:8 | every designation's label parses back to it |
| `Schema.ParseReason` | backend/models/Registration.ts:71-78 | a reason is accepted exactly when it is one of the three ENUM labels |
| `Schema.ReasonRoundTrip` | backend/models/Registration.ts:13 | every reason's label parses back to it |
| `Schema.Build` | backend/models/Registration.ts:42-91 | an insert passes validation exactly when name, phone, email, photo, designation, reason and eventId are given and both ENUM values are valid; the row then carries the given values, and collegeId, researchPaper and committeeMember may be null |
| `Schema.WellFormed` | backend/models/Registration.ts:37-91 | in a well-formed table no two rows share an id, an email or an eventId, and every non-null collegeId names an existing college |
| `Schema.AppendKeepsWellFormed` | backend/models/Registration.ts:37-91 | appending a row with fresh id, email and eventId and an existing (or null) college keeps the table invariant |
| `Schema.AddCollegeKeepsWellFormed` | backend/models/Registration.ts:50-57 | adding a college under a fresh id keeps every foreign key valid |
| `Schema.EmailIdentifiesRow` | backend/models/Registration.ts:62-66 | in a well-formed table two rows with the same email are the same row |
| `Store.Database.constructor` | backend/config/database.ts:22-29 | the store starts with both tables empty and valid, with the chosen `eventId` column behaviour |
| `Store.Database.CreateCollege` | backend/models/College.ts:16-32 | a college insert appends one college under an id not in use, or leaves the table unchanged when the database fails |
| `Store.Database.CreateRegistration` | backend/models/Registration.ts:35-98 | an insert succeeds exactly when validation passes (with the column's own eventId when the draft gives none), email and eventId are unused and the college exists (or is null); it then appends one row with fresh id and eventId and keeps the table invariant, and otherwise changes nothing |
| `Query.FindFirst` | backend/controllers/registrationController.js:43 | `findOne` finds nothing exactly when no row matches; otherwise it finds the first matching row |
| `Query.Filter` | backend/controllers/collegeController.ts:32 | `findAll` returns only matching rows of the table and every matching row |
| `Query.FilterConcat` | frontend/src/components/List.tsx:52-54 | filtering keeps the rows' relative order (it distributes over concatenation) |
| `Query.FilterKeepsAll` | backend/controllers/collegeController.ts:29-32 | a filter every row passes returns the table unchanged |
| `Text.ToLower` | frontend/src/components/List.tsx:53 | lower-casing keeps the length and lower-cases each character in place |
| `Text.ToLowerIdempotent` | frontend/src/components/List.tsx:48-53 | lower-casing an already lower-cased query changes nothing |
| `Text.Contains` | frontend/src/components/List.tsx:53 | `includes` holds exactly when the term occurs at some position |
| `Text.ContainsEmpty` | frontend/src/components/List.tsx:52-54 | the empty term occurs in every name |
| `RegistrationController.RepresentativeAttachments` | backend/controllers/registrationController.js:119-130 | the list starts with the photo; it has a second entry, the research paper, exactly when one was uploaded |
| `RegistrationController.Status` | backend/controllers/registrationController.js:45-144 | 201 exactly for an accepted registration, 400 exactly for the two rejections, 500 exactly for a failure |
| `RegistrationController.Message` | backend/controllers/registrationController.js:52-54 | the "already registered" reply names the college, right after "The college " |
| `RegistrationController.DraftOf` | backend/controllers/registrationController.js:60-69 | the create call passes the submitted name, designation, collegeId, phone, email, photo, reason and researchPaper, and no committeeMember and no eventId |
| `RegistrationController.FindCollege` | backend/controllers/registrationController.js:57 | `findByPk` finds a college with that id, and finds none for a null id or an id with no college |
| `RegistrationController.CollegeDisplayName` | backend/controllers/registrationController.js:57-58 | the shown name is the college's own name, or "Unknown College" when the id is null or names no college |
| `RegistrationController.RegisterUser` | backend/controllers/registrationController.js:35-146 | duplicate email gives 400 "Email already exists" before any college check; a new email with a taken college gives 400 naming that college; a reached failing call, or an insert the store refuses, gives 500; otherwise exactly one row carrying the submission is appended and the reply is 201 with its id; nothing is written unless the reply is 201; with the `eventId` column as declared, every submission that passes both checks gets 500 |
| `RegistrationController.DeclaredSchemaRejectsEveryInsert` | backend/controllers/registrationController.js:60-69 | with `eventId` as declared, every insert the handler attempts fails validation and is not admitted |
| `RegistrationController.AdmittedCollegeIsKnown` | backend/controllers/registrationController.js:57-58 | on acceptance the shown college is "Unknown College" only when no college id was given; otherwise it is the real college's name |
| `CollegeController.AddStatus` | backend/controllers/collegeController.ts:12-22 | 201 exactly for an added college, 400 exactly for a missing name or a duplicate, 500 exactly for any other insert error |
| `CollegeController.AddText` | backend/controllers/collegeController.ts:12-22 | each of the four replies has its own message, so the two 400 replies can be told apart |
| `CollegeController.AddCollege` | backend/controllers/collegeController.ts:7-25 | a missing or empty name gives 400 with no write; otherwise one college is created (201 with its id); a unique-constraint failure gives 400 "College already exists" and any other failure gives 500, both with no write; the table changes exactly when the status is 201 |
| `CollegeController.NameMatches` | backend/controllers/collegeController.ts:29 | no search term (or an empty one) matches every college; a term matches a college exactly when its lower-cased name contains the lower-cased term |
| `CollegeController.GetAllColleges` | backend/controllers/collegeController.ts:28-38 | no search term returns every college; a term returns exactly the colleges whose name contains it ignoring case, none more often than in the table; a query failure gives 500 |
| `CollegeController.SearchTermCaseIrrelevant` | backend/controllers/collegeController.ts:29 | searching for a term and for its lower-cased form return the same colleges |
| `CollegeController.CheckCollegeRegistration` | backend/controllers/collegeController.ts:39-54 | `isRegistered` is true exactly when some registration holds the college id; the table is only read |
| `CollegeController.CheckStatus` | backend/controllers/collegeController.ts:46-52 | 200 exactly when the check answered, 500 exactly when the query failed |
| `CollegeController.CheckText` | backend/controllers/collegeController.ts:46-52 | the message says "already registered" exactly for a held college, "not yet registered" exactly for a free one, and "Database query error" exactly on failure |
| `CollegeController.CheckAgreesWithAdmission` | backend/controllers/collegeController.ts:43-49 | the check's answer is the college-taken condition the admission rule uses |
| `AdminList.HandleSearch` | frontend/src/components/List.tsx:47-50 | a new search stores the input lower-cased character by character and resets the page to 1 |
| `AdminList.SearchCaseIrrelevant` | frontend/src/components/List.tsx:47-54 | typing a query in any case shows the same entries as typing it in lower case |
| `AdminList.Filtered` | frontend/src/components/List.tsx:52-54 | keeps exactly the entries whose lower-cased name contains the query, none more often than in the list; an empty query keeps every entry |
| `AdminList.SliceBound` | frontend/src/components/List.tsx:56-59 | a slice bound counts negative values from the end and clamps to the length |
| `AdminList.Slice` | frontend/src/components/List.tsx:56-59 | `slice` returns the contiguous run from the start bound to the end bound, empty when they cross |
| `AdminList.Page` | frontend/src/components/List.tsx:56-59 | a page holds at most ten entries; page p ≥ 1 is the window from (p-1)*10 to p*10 of the filtered list; page 0 is empty |
| `AdminList.TotalPages` | frontend/src/components/List.tsx:61 | the page count is the ceiling of n/10: the fewest pages of ten that hold n entries, and 0 exactly when n is 0 |
| `AdminList.Previous` | frontend/src/components/List.tsx:189 | Previous never goes below page 1 |
| `AdminList.Next` | frontend/src/components/List.tsx:196 | Next goes to min(page+1, totalPages), so to 0 when nothing matches |
| `AdminList.Step` | frontend/src/components/List.tsx:187-198 | a search replaces the state as handleSearch does; Previous and Next keep the query and move the page as their updates say (a disabled button being the case where the update changes nothing) |
| `AdminList.DisabledMeansNoChange` | frontend/src/components/List.tsx:187-198 | a button is disabled exactly when its update would leave the page unchanged |
| `AdminList.InitialInRange` | frontend/src/components/List.tsx:28-29 | the listing starts on an in-range page |
| `AdminList.StepKeepsInRange` | frontend/src/components/List.tsx:47-198 | searching and clicking Previous or Next keep the page index in range |
| `AdminList.InRangePageNonEmpty` | frontend/src/components/List.tsx:56-61 | when something matches, an in-range page is never empty |
| `AdminList.PagesUpToIsPrefix` | frontend/src/components/List.tsx:56-59 | the first k pages together are the first 10k filtered entries |
| `AdminList.PagesCoverFiltered` | frontend/src/components/List.tsx:56-61 | pages 1..totalPages laid end to end give back the whole filtered list |
| `UseForm.EmptyForm` | frontend/src/hooks/useForm.ts:4-15 | the initial form has every text field empty and no files |
| `UseForm.FirstFile` | frontend/src/hooks/useForm.ts:23 | a file input yields its first selected file, or nothing when none is selected |
| `UseForm.HandleChange` | frontend/src/hooks/useForm.ts:18-52 | a file input sets only its file field; Vice-Chancellor and Council Member clear collegeId and collegeName, only Council Member clears committeeMember; another designation changes only the designation; a text field changes only that field |
| `UseForm.HandleChangeIdempotent` | frontend/src/hooks/useForm.ts:18-52 | delivering the same change twice gives the same form as delivering it once |
| `UseForm.DesignationClearsCollege` | frontend/src/hooks/useForm.ts:35-41 | after choosing Vice-Chancellor or Council Member the college fields are empty |
| `UseForm.ResetForm` | frontend/src/hooks/useForm.ts:55-68 | reset gives every text field empty and both files cleared, whatever the form held |
| `UseForm.ResetIdempotent` | frontend/src/hooks/useForm.ts:55-68 | resetting twice is the same as resetting once |

## Left out

- Mail sending (nodemailer) and the mail body text: the model keeps only what the mails carry besides template text. That is the user's address, the college name shown, and the representative's attachment list (`Notice`). Delivery is fire-and-forget and does not affect the reply.
- PDF generation (`backend/controllers/registrationController.ts`): HTML templating handed to a rendering library. The `DailyLog` model it uses is not part of this model.
- Upload handling (multer, the 5 MB limit): the limit is enforced inside the library. A file arrives as a byte sequence or is absent.
- HTTP routing, server start-up, environment loading, database connection and `sync`: not part of this model.
- `backend/controllers/collegeController.js` is the compiled twin of the `.ts` controller, and `backend/models/College.js` declares the same columns as `College.ts`. `backend/models/Registration.js` differs from `Registration.ts`: it has `collegeId` NOT NULL, `photo` nullable, `designation` as a free string, and no `eventId` or `committeeMember`. The model follows the `.ts` schema.
- React rendering, `handleDownloadPDF`, the fetch of `/api/registrations`, `RegistrationForm.tsx`, `LoadingScreen.tsx` and `BannerSection.js`: presentation and network code.
- Concurrent requests: the store is sequential, so uniqueness races are not modelled.
- `createdAt` / `updatedAt` timestamps: not modelled.
- Text.ToLower: lower-cases ASCII capitals only. JavaScript's `toLowerCase` also maps other Unicode letters.
- CollegeController.GetAllColleges: treats the search term literally. In the database's `iLike` pattern, `%` and `_` inside the term are wildcards. Also, `backend/config/database.ts` selects the MySQL dialect, where ILIKE is not an operator. The model states the case-insensitive substring match the query means.
- RegistrationController.RegisterUser: a `collegeId` of `None` is an explicit null, which the multipart route cannot deliver; an absent field is the `failing == Some(FindByCollegeId)` case. The handler compares emails and college ids exactly, while the database's collation may compare text ignoring case. Body fields are taken as present strings. `collegeId` is a number or null; how the database coerces a non-numeric or empty string is not modelled, though a lookup that throws is covered by `failing`.
- CollegeController.CheckCollegeRegistration: the route parameter is taken as a number.
- Store.Database.CreateCollege: `College.ts` declares no unique constraint on `name`. A unique-constraint error therefore reaches `addCollege` only through the `failure` parameter, as it would from a constraint created outside the models.
- UseForm.HandleChange: the form record is typed, and some events fall outside it. A file event on a text field, a text event on a file field, and an event with an unknown name leave the modelled fields unchanged. The source would store the value under that key whatever its type. The designation branch spreads the rendered `formData` rather than the previous state; the model applies every event to the previous state, which is the same when events are handled one at a time.
- UseForm.FirstFile: an empty `FileList` gives `undefined` in the source, which the model treats as no file.

## Findings

| source | as written | input that shows it | evidently intended | confidence | as-written member | corrected member |
|---|---|---|---|---|---|---|
| backend/models/Registration.ts:87-91 | `eventId` is `allowNull: false` with neither `autoIncrement` nor a default. The create call at `backend/controllers/registrationController.js:60-69` never supplies it, so every insert fails not-null validation and the handler answers 500. | any submission with a new email and a free college, e.g. designation "Principal", reason "To know about Textbook", a photo, college 7 existing | `eventId` filled in by the database as an auto-increment, as the comment at line 16 says | not executed; medium, since it holds when the `.ts` model is the one loaded (`require` may pick the compiled `Registration.js`, which has no `eventId`) | `RegistrationController.DeclaredSchemaRejectsEveryInsert` (the 500 reply follows from the `AsDeclared` clause of `RegistrationController.RegisterUser`) | `Store.Database.CreateRegistration` |
