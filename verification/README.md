# Classroom backend: assignment lifecycle and access control

A Dafny model of the request-handling core of an Express/Prisma classroom
backend. Teachers create classes and tasks. Students join classes by code
and submit work to tasks. Teachers grade the submissions. Announcements and
materials are posted to classes. Every request first passes the `auth`
middleware and usually a `requireRole` gate. Most routes then run body
validators before the handler.

The database is one immutable `Store` record (module `Classroom`). It
holds users, classes, the enrollment pairs, tasks, submissions,
announcements and materials. Each handler is a pure function from the
store, the authenticated caller (`Principal`), the request's arguments and
the current time. It returns `Http.Result`: either a new store with a
reply, or one of `Unauthenticated`, `Forbidden`, `NotFound` and
`BadRequest` (401, 403, 404 and 400). The error a caller gets is fixed by
the order in which the handler checks existence, permission and input, and
each contract states that order.

Modules:

- `Http`: the result type, the four statuses, and `Arg<T>`. `Arg<T>` is a
  JSON body field that is absent, `null` or given. The ORM treats these
  differently: absent leaves a column alone, `null` clears it.
- `Text`: JavaScript's `trim` with the ECMAScript white-space set,
  `toUpperCase`, `startsWith`, and `replace` with a string pattern.
- `Ordering`: a selection sort by a rank function. It stands in for the
  ORM's `orderBy`.
- `Classroom`: the entities and the store. `Valid` is the store's
  integrity constraint: foreign keys, the unique class code and the unique
  `(taskId, studentId)` submission key.
- `Access`: the permission matrix the handlers apply inline, as one
  predicate.
- `Auth`: the `auth`, `optionalAuth` and `requireRole` middleware.
- `Submissions`, `Tasks`, `Classes`, `Announcements` and `Materials`: the
  controllers.
- `Validation`: the express-validator chains the routes use.
- `SubmissionRoutes`, `TaskRoutes`, `TaskByIdRoutes`, `ClassRoutes` and
  `AnnouncementRoutes`: each route as the composition auth → role gate →
  validators → handler.
- `Scenario`: a small fixture with concrete runs. It borrows the class
  code `MAT101`, a task worth 100 points and the grade 95 from the seed
  script (prisma/seed.js), but it is not the seed: only two students are
  enrolled and the one submission is still waiting for a grade.

Things outside the model are parameters:

- The clock is `now: int`, in milliseconds.
- The token verifier is `verify: string -> Verified`.
- The `isUUID` check is `isUuid: string -> bool`.
- The id the database would give a new row is `freshId`, which is required
  not to be in use.
- The class-code generator is represented by its promise. The code passed
  to `CreateClass` is six characters from `[A-Z0-9]` and is not used by any
  other class.

Some behaviour of the code is worth knowing; the model follows the code:

- A task whose `points` is 0 or `null` puts no upper bound on grades,
  because the bound is only checked when `points` is truthy.
- Resubmitting after grading resets the status to `SUBMITTED`. It keeps the
  old `grade`, `feedback` and `gradedAt`.
- Submitting when not enrolled is `Forbidden`. Submitting after the
  deadline is `BadRequest`. Joining a class twice is `BadRequest`. There is
  no separate conflict status.
- Existence is checked before permission in every handler except
  `joinClass`, which checks the role first
  (controllers/classController.js:398). `createMaterial`
  (controllers/materialController.js:36) and `submitTask`
  (controllers/submissionController.js:140) check their bodies before any
  lookup.
- Deleting a task or a class cascades to the rows that refer to it. The
  schema's on-delete rules are not part of this model. The cascade is the
  reading under which the store keeps its foreign keys; under a restricting
  rule the delete fails with a 500, which is not modelled.

## Model

| member | source | states |
|---|---|---|
| Text.Trim | routes/classes.js:11-12 | the result has no white space at either end and is no longer than the input |
| Text.TrimIsSlice | routes/classes.js:11-12 | removing the leading white space and then the trailing white space leaves a string with no white space at either end, and only white space on either side of it in the input |
| Text.TrimIsPaddedSlice | routes/classes.js:11-12 | the result of `trim` is a contiguous part of the input with only white space before and after it |
| Text.TrimStart | routes/classes.js:11 | removes exactly the leading white space |
| Text.TrimEnd | routes/classes.js:11 | removes exactly the trailing white space |
| Text.TrimIdempotent | routes/classes.js:11 | trimming twice gives the same result as trimming once |
| Text.TrimmedIsFixed | routes/classes.js:11 | a string with no white space at its ends is left as it is |
| Text.TrimEmptyIff | controllers/submissionController.js:140 | a string trims to empty exactly when it is all white space |
| Text.Utf16Length | controllers/submissionController.js:140 | JavaScript's `length`: at least one and at most two code units per character |
| Text.Utf16LengthAppend | controllers/submissionController.js:140 | the code-unit length of a concatenation is the sum of the two lengths |
| Text.Utf16LengthBmp | controllers/submissionController.js:140 | the code-unit length equals the number of characters exactly when no character lies outside the Basic Multilingual Plane |
| Text.TrimStartPadded | routes/classes.js:26 | leading white space before a non-blank string is removed and nothing more |
| Text.TrimEndPadded | routes/classes.js:26 | trailing white space after a non-blank string is removed and nothing more |
| Text.TrimPadded | routes/classes.js:26 | white space around a trimmed, non-empty string is exactly what `trim` removes |
| Text.ToUpper | controllers/classController.js:408 | keeps the length and upper-cases each character |
| Text.UpperCharToCode | controllers/classController.js:408 | a character upper-cases to a code character exactly when it is one already, is an ASCII lower-case letter, or is dotless i or long s |
| Text.ToUpperFixesCodes | controllers/classController.js:408 | upper-casing a valid class code leaves it unchanged |
| Text.ToUpperIdempotent | controllers/classController.js:408 | upper-casing twice gives the same result as upper-casing once |
| Text.IndexOfFrom | middleware/auth.js:19 | returns the first position at or after `from` where the pattern occurs, or none when it does not occur there |
| Text.ReplaceFirst | middleware/auth.js:19 | replaces only the first occurrence of the pattern, and leaves the string unchanged when the pattern does not occur |
| Text.ReplacePrefix | middleware/auth.js:12-19 | when the header starts with "Bearer ", removing the first "Bearer " removes exactly that prefix |
| Ordering.MinimumExists | controllers/taskController.js:13 | every finite non-empty set has an element of least rank |
| Ordering.SortBy | controllers/taskController.js:13 | lists every key exactly once, in non-decreasing rank |
| Classroom.AtMostOneSubmission | controllers/submissionController.js:100-107 | under the unique key, a (task, student) pair names at most one submission |
| Classroom.SubmissionFor | controllers/submissionController.js:100-107 | the lookup by the (task, student) key finds the pair's only row, or none when the pair has no row |
| Classroom.ClassWithCode | controllers/classController.js:407-420 | the lookup by unique code finds a class with that code, or none when no class has it |
| Access.AdminBypassesOwnership | controllers/classController.js:299 | an admin passes every ownership rule; only joining and submitting are not open to an admin |
| Access.ManagersMayView | controllers/classController.js:172-175 | whoever may manage a class may also view it, view its task submissions, grade in it and remove its announcements |
| Auth.Authenticate | middleware/auth.js:8-69 | a missing header or one without the "Bearer " prefix is refused. Otherwise the token after the prefix is verified: an unknown user, a malformed token, an expired token and any other failure are each refused with their own reason. A stored user is admitted with their stored role |
| Auth.Identify | middleware/auth.js:12-67 | every refusal by `auth` is 401, and success yields the caller `Authenticate` admits |
| Auth.OptionalAuth | middleware/auth.js:102-133 | never refuses, and attaches only a stored user with their stored role |
| Auth.OptionalAuthAgreesWithAuth | middleware/auth.js:102-133 | `optionalAuth` attaches exactly the user `auth` would admit, and attaches no user in every case `auth` would refuse |
| Auth.AllowedRoles | middleware/auth.js:75-85 | only the first argument is read: a role name becomes a one-element list, an array is used as given, and with no argument no role is allowed |
| Auth.SecondNameIgnored | middleware/auth.js:75-85 | given two role names as two arguments, only the first is allowed |
| Auth.RequireRole | middleware/auth.js:75-95 | 401 without a user, 403 when the role is not allowed, and otherwise the same user passes on |
| Auth.Gate | middleware/auth.js:8-95 | `auth` then `requireRole`: 401 whenever `auth` refuses, then 403 exactly when the caller's role is not allowed |
| Submissions.Upsert | controllers/submissionController.js:186-206 | afterwards the pair has exactly one row, holding the new content, status `SUBMITTED` and time `now`. The key stays unique, the row set grows by at most that row, and no other row changes. An existing row for the pair is updated in place; otherwise a fresh row is created |
| Submissions.PairHasOneRow | controllers/submissionController.js:186-192 | writing a pair's row under the id that already holds that pair keeps the key unique |
| Submissions.SubmitTask | controllers/submissionController.js:134-206 | the checks run in order: content at least 10 UTF-16 code units once trimmed (400), then task exists (404), then caller enrolled (403), then `now <= dueDate` (400). On success only submissions change, the caller has exactly one row for the task, no other row changes, and the row holds the new content |
| Submissions.ContentCountsCodeUnits | controllers/submissionController.js:140 | the content rule counts UTF-16 code units: five emoji outside the Basic Multilingual Plane pass it, five ASCII letters do not |
| Submissions.SubmitAccepted | controllers/submissionController.js:148-206 | once the content has passed: 404 for an unknown task, then 403 unless enrolled, then 400 after the deadline. On success the caller has exactly one row for the task with the new content, and no other row or table changes |
| Submissions.DeadlineInclusive | controllers/submissionController.js:178-183 | a submission at exactly the due date is accepted, and one a moment later is refused with 400 |
| Submissions.FirstSubmission | controllers/submissionController.js:199-205 | a first submission creates a new row that is `SUBMITTED`, ungraded and has no feedback |
| Submissions.Resubmission | controllers/submissionController.js:193-198 | resubmitting keeps the row id, grade, feedback and `gradedAt`. It overwrites content, `submittedAt` and status, keeps the file URL when the field is absent, clears it on an explicit `null`, and overwrites it when one is sent |
| Submissions.SubmitPreservesValid | controllers/submissionController.js:186-206 | a successful submit keeps the store valid |
| Submissions.SubmitTwice | controllers/submissionController.js:186-206 | submitting twice leaves one row, under the first call's id, holding the second content |
| Submissions.GradeSubmission | controllers/submissionController.js:227-293 | the checks run in order: 404, then 403 unless admin or class teacher, then 400 unless the grade is given, non-negative and not above truthy points. On success only that row changes: it becomes `GRADED` with the grade and `gradedAt = now`, its feedback is kept when the field is absent, cleared on an explicit `null` and replaced when sent, and its content and submission time are unchanged |
| Submissions.ZeroPointsSetNoBound | controllers/submissionController.js:278 | with points 0 or unset, any non-negative grade is accepted |
| Submissions.GradePreservesValid | controllers/submissionController.js:286-293 | a successful grade keeps the store valid |
| Submissions.GradeThenOwnerReads | controllers/submissionController.js:286-293 | after grading, the owner reads back the graded row with the new grade |
| Submissions.GetSubmissionById | controllers/submissionController.js:323-363 | 404 for an unknown id, then allowed exactly for the owner, the class teacher or an admin |
| Submissions.GetMySubmission | controllers/submissionController.js:66-118 | 404 for an unknown task, then 403 unless enrolled, then 404 when the caller has not submitted, and otherwise the caller's own row |
| Submissions.SubmitThenRead | controllers/submissionController.js:186-206 | after a successful submit, the caller's own read returns the row just written |
| Submissions.NewestFirst | controllers/submissionController.js:33-46 | lists exactly the given submissions once each, newest `submittedAt` first |
| Submissions.GetTaskSubmissions | controllers/submissionController.js:8-51 | 404 for an unknown task, then allowed exactly for an admin or the class teacher. Lists exactly the task's submissions, newest first |
| Tasks.CreateTask | controllers/taskController.js:87-116 | the checks run in order: 404 for an unknown class, then 403 unless class teacher or admin, then 400 unless `dueDate > now`. The new task is the only change; its author is the caller, its class is the path's, and points 0 is stored as none |
| Tasks.CreatePreservesValid | controllers/taskController.js:107-116 | a created task keeps the store valid |
| Tasks.UpdateTask | controllers/taskController.js:134-167 | 404, then 403 unless author or admin, then 400 for a due date not in the future, with no partial write. Title and description change only when truthy, the due date when given, and points whenever present. Class and author never change, and no other task changes |
| Tasks.UpdateIdempotent | controllers/taskController.js:153-167 | repeating a successful update changes nothing more |
| Tasks.TeacherWhoIsNotAuthorRefused | controllers/taskController.js:145-199 | a class teacher who did not write the task may neither update nor delete it |
| Tasks.UpdatePreservesValid | controllers/taskController.js:164-167 | an update keeps the store valid |
| Tasks.DeleteTask | controllers/taskController.js:184-201 | 404, then 403 unless author or admin. On success exactly that task goes, along with its submissions, and every other row is unchanged |
| Tasks.DeletePreservesValid | controllers/taskController.js:201 | a delete keeps the store valid |
| Tasks.CreateThenDelete | controllers/taskController.js:193-201 | deleting a task just created, as its author, gives back the original store |
| Tasks.GetTaskById | controllers/taskController.js:31-79 | 404 only for an unknown task, with no other access check. The submissions are attached exactly for the class teacher or an admin, and they are exactly the task's submissions |
| Tasks.CreateThenRead | controllers/taskController.js:37-59 | a task just created reads back with its title and its author |
| Tasks.GetTasks | controllers/taskController.js:4-14 | lists exactly the class's tasks once each, earliest due date first |
| Classes.GetClasses | controllers/classController.js:7-80 | teachers and admins get the classes they teach, and students the classes they are enrolled in |
| Classes.ListedClassesOpen | controllers/classController.js:164-180 | every class in a caller's listing opens for that caller |
| Classes.GetClassById | controllers/classController.js:99-207 | 404, then allowed exactly for the teacher, an enrolled student or an admin. The view holds exactly the class's students, tasks, announcements and materials |
| Classes.CreateClass | controllers/classController.js:226-251 | the only change is the new class, with the caller as teacher and the generated code |
| Classes.CreateClassPreservesValid | controllers/classController.js:231-241 | a new class with a fresh valid code keeps codes unique, and it starts with no students |
| Classes.UpdateClass | controllers/classController.js:280-318 | 404, then 403 unless teacher or admin. Name and description change only when truthy, and subject whenever the field is sent, `null` included. Teacher, code and every other class are unchanged |
| Classes.UpdateClassPreservesValid | controllers/classController.js:306-318 | an update keeps the store valid |
| Classes.WithoutClass | controllers/classController.js:371-373 | removes the class, its enrollments, tasks, submissions to those tasks, announcements and materials, and nothing else |
| Classes.DeleteClass | controllers/classController.js:346-373 | 404, then 403 unless teacher or admin. On success the class goes, together with everything that belongs to it |
| Classes.DeleteClassPreservesValid | controllers/classController.js:371-373 | deleting a class keeps the store valid |
| Classes.WithoutClassPreservesValid | controllers/classController.js:371-373 | removing a class together with every row that refers to it leaves no dangling reference, and codes and submission keys stay unique |
| Classes.WithoutUnreferencedClass | controllers/classController.js:371-373 | removing a class that nothing refers to removes only the class |
| Classes.CreateThenDeleteClass | controllers/classController.js:356-373 | deleting a class just created gives back the original store |
| Classes.JoinClass | controllers/classController.js:392-465 | the checks run in order: 403 for a non-student before any lookup, then 404 when no class has the upper-cased code, then 400 when the caller is already enrolled. Otherwise exactly that one pair is added, and the reply counts the students enrolled before plus one |
| Classes.JoinCountIsNewCount | controllers/classController.js:447-465 | the reported count equals the number of students enrolled after the join |
| Classes.JoinIgnoresCase | controllers/classController.js:408 | joining with any spelling of the code behaves as joining with its upper-cased form |
| Classes.JoinPreservesValid | controllers/classController.js:447-452 | a join keeps the store valid |
| Classes.JoinThenListed | controllers/classController.js:430-452 | after joining, the class is in the student's listing and opens for them, and a second join is refused with 400 |
| Classes.GetClassStudents | controllers/classController.js:482-527 | 404, then allowed exactly for the teacher or an admin, and lists exactly the enrolled students |
| Classes.RemoveStudentFromClass | controllers/classController.js:546-596 | the checks run in order: 404 for the class, then 403 unless teacher or admin, then 404 when the student is not enrolled. On success exactly that pair is removed |
| Classes.RemoveStudentPreservesValid | controllers/classController.js:589-596 | a removal keeps the store valid |
| Classes.JoinThenRemove | controllers/classController.js:589-596 | removing a student who just joined, done by the teacher or an admin, gives back the original store |
| Classes.JoinThenOnRoster | controllers/classController.js:482-527 | after a join, the teacher's or an admin's roster of the class is the earlier roster plus the new student, who was not on it |
| Classes.RemoveThenOffRoster | controllers/classController.js:482-527 | after a removal, the roster is the earlier roster, which listed the student, without them |
| Classes.GetAllClasses | controllers/classController.js:615-645 | 403 for everyone but an admin, who gets every class |
| Classes.AllClassesCoverListings | controllers/classController.js:620-645 | an admin's full listing includes every class in anyone's own listing |
| Announcements.GetAnnouncements | controllers/announcementController.js:4-16 | lists exactly the class's announcements |
| Announcements.CreateAnnouncement | controllers/announcementController.js:33-54 | 404 for an unknown class, then 403 unless teacher or admin. The new announcement has the caller as author and the path's class, and it is the only change |
| Announcements.CreateAnnouncementPreservesValid | controllers/announcementController.js:49-54 | posting keeps the store valid |
| Announcements.CreateThenListed | controllers/announcementController.js:40-54 | the class's listing grows by exactly the new announcement |
| Announcements.DeleteAnnouncement | controllers/announcementController.js:72-108 | 404, then allowed exactly for the author, the class teacher or an admin. Only that announcement goes |
| Announcements.DeleteAnnouncementPreservesValid | controllers/announcementController.js:106-108 | a delete keeps the store valid |
| Announcements.CreateThenDeleteAnnouncement | controllers/announcementController.js:86-108 | deleting an announcement just posted, as its author, gives back the original store |
| Materials.CreateMaterial | controllers/materialController.js:29-55 | the checks run in order: 400 when neither file URL nor link is truthy, before any lookup, then 404, then 403 unless teacher or admin. The new material has the caller as author and the path's class, and it is the only change |
| Materials.CreateMaterialPreservesValid | controllers/materialController.js:49-55 | posting a material keeps the store valid |
| Materials.StoredMaterialHasTarget | controllers/materialController.js:36-50 | every material created has a truthy file URL or link |
| Validation.FieldText | routes/classes.js:11-12 | a missing body field is read as the empty string |
| Validation.TrimField | routes/classes.js:19-21 | an optional field stays absent when missing, and is trimmed when given |
| Validation.TrimFieldTruthy | routes/taskById.js:12 | a trimmed optional field is truthy exactly when it was given and is not all white space |
| Validation.IntArg | routes/tasks.js:13 | an integer field reaches the handler as given, or as absent, and never as `null` |
| TaskRoutes.CreateTaskChecked | routes/tasks.js:9-15 | 400 unless the trimmed title has at least 3 characters, the trimmed description is non-blank, the due date is ISO 8601 and the points are a non-negative integer. Otherwise the handler runs on the trimmed fields, and a stored task has a positive point value or none |
| TaskRoutes.CreateTaskRoute | routes/tasks.js:28 | as written: 401, then 403 for everyone but a teacher, admins included, then the validators and the handler |
| TaskRoutes.CreateTaskRouteIntended | routes/tasks.js:28 | with the roles passed as one list: 401, then 403 only for students, then the validators and the handler |
| TaskRoutes.AdminCannotCreateTask | routes/tasks.js:28 | as written, an admin is refused with 403 whatever the request |
| TaskRoutes.AdminCreatesInAnyClass | controllers/taskController.js:93-116 | the handler lets an admin create a task in any existing class, whoever teaches it, once the due date is in the future |
| TaskRoutes.IntendedAdmitsAdmin | routes/tasks.js:28 | with the list, an admin creates a task in any existing class from valid fields and a future due date |
| TaskRoutes.IntendedAgreesForOthers | routes/tasks.js:28 | with the list, every caller who is not an admin, and every unauthenticated request, gets exactly the answer of the route as written |
| TaskRoutes.GetTasksRoute | routes/tasks.js:27 | any authenticated caller gets the class's tasks, earliest due date first, with no membership check |
| TaskByIdRoutes.GetTaskRoute | routes/taskById.js:19 | authentication only, then the handler, which answers 404 at most |
| TaskByIdRoutes.UpdateTaskChecked | routes/taskById.js:9-16 | 400 unless the id is a UUID, a given title has at least 3 characters once trimmed, a given due date is ISO 8601, and given points are a non-negative integer. Otherwise the handler runs on the trimmed fields |
| TaskByIdRoutes.UpdateTaskRoute | routes/taskById.js:20 | as written: 401, then 403 for everyone but a teacher, then validation, then the handler |
| TaskByIdRoutes.UpdateTaskRouteIntended | routes/taskById.js:20 | with the roles as one list: 403 only for students |
| TaskByIdRoutes.DeleteTaskRoute | routes/taskById.js:21 | as written: 401, then 403 for everyone but a teacher, then the handler |
| TaskByIdRoutes.DeleteTaskRouteIntended | routes/taskById.js:21 | with the roles as one list: 403 only for students |
| TaskByIdRoutes.AdminCannotChangeTasks | routes/taskById.js:20-21 | as written, an admin can neither update nor delete any task, although the delete handler would let them |
| TaskByIdRoutes.IntendedAdmitsAdmin | routes/taskById.js:20-21 | with the list, an admin deletes any existing task, and everyone else fares as with the routes as written |
| TaskByIdRoutes.GateBeforeValidation | routes/taskById.js:20 | the gate runs before validation: a student is refused with 403 even when the body is invalid, both on the route as written and with the role list |
| ClassRoutes.GetAllClassesRoute | routes/classes.js:31 | 401, then admins only |
| ClassRoutes.GetClassesRoute | routes/classes.js:32 | authentication only, then the caller's listing |
| ClassRoutes.GetClassRoute | routes/classes.js:33 | authentication only, then the handler decides access |
| ClassRoutes.CreateClassChecked | routes/classes.js:10-15 | 400 unless the trimmed name has at least 3 characters and the trimmed description is non-blank. A created class has a trimmed name of at least 3 characters |
| ClassRoutes.CreateClassRoute | routes/classes.js:34 | 401, then 403 for students, then the validators and the handler |
| ClassRoutes.UpdateClassRoute | routes/classes.js:17-35 | 401, then 403 for students, then 400 unless the id is a UUID and a given name has at least 3 characters once trimmed, then the handler on the trimmed fields |
| ClassRoutes.DeleteClassRoute | routes/classes.js:36 | 401, then 403 for students, then the handler |
| ClassRoutes.JoinClassRoute | routes/classes.js:25-37 | 401, then 403 for non-students, then 400 unless the trimmed code has exactly 6 characters, then the handler on the trimmed code |
| ClassRoutes.JoinWithLooseCode | routes/classes.js:26 | a code typed in any case and with white space around it joins the class |
| ClassRoutes.GetClassStudentsRoute | routes/classes.js:38 | no role gate: the handler alone decides access |
| ClassRoutes.RemoveStudentRoute | routes/classes.js:39 | 401, then 403 for students, then the handler |
| SubmissionRoutes.GetTaskSubmissionsRoute | routes/submissions.js:13-18 | 401, then 403 for students before any lookup, then the handler's 404 and class-teacher rule, listing newest first |
| SubmissionRoutes.GetMySubmissionRoute | routes/submissions.js:21-26 | 401, then 403 for teachers and admins, then the handler |
| SubmissionRoutes.SubmitRoute | routes/submissions.js:29-34 | 401, then 403 for teachers and admins, then the handler |
| SubmissionRoutes.OnlyStudentsSubmit | routes/submissions.js:29-34 | a successful submit came from an authenticated, enrolled student |
| SubmissionRoutes.GradeRoute | routes/submissions.js:37-42 | 401, then 403 for students, then the handler |
| SubmissionRoutes.StudentGradingMissingIsForbidden | routes/submissions.js:37-42 | the gate runs first: a student grading a missing submission gets 403, where the handler alone would give 404 |
| SubmissionRoutes.GetSubmissionRoute | routes/submissions.js:45-49 | authentication only, then the handler decides access |
| AnnouncementRoutes.GetAnnouncementsRoute | routes/announcements.js:17 | authentication only, then the class's announcements |
| AnnouncementRoutes.CreateAnnouncementRoute | routes/announcements.js:9-20 | 401, then 403 for students, then 400 unless the trimmed title has at least 3 characters and the trimmed content at least 10. A stored announcement meets both bounds |
| AnnouncementRoutes.DeleteAnnouncementRoute | routes/announcements.js:24 | 401, then 403 for students, then the handler |
| AnnouncementRoutes.StudentAuthorRefused | routes/announcements.js:24 | a student author is refused by the gate, though the handler would let them delete |
| Scenario.SeedStore | prisma/seed.js:85-97 | the fixture, which borrows the seed's class `MAT101`, is a valid store |
| Scenario.SeedGrading | prisma/seed.js:259-268 | the class teacher grades the fixture's waiting submission 95 of 100 points, the grade the seed stores directly. A grade of 101 is refused with 400, and grading by another student is refused with 403 |
| Scenario.SeedJoin | prisma/seed.js:85-97 | on the fixture's two-student roster, a third student joins with the lower-case code "mat101" and is told the class has three students |

## Left out

- Token signing and verification. The verifier is a parameter, and its
  outcomes are a decoded user id, malformed, expired, or any other failure.
- Registration, login, OAuth, the user-profile controller and the user
  routes.
- Server bootstrapping. The materials router is mounted where the classes
  router shadows it, so its routes are never reached and are not modelled;
  `createMaterial` is modelled as a handler only.
- Response formatting: ISO date strings, selected user fields and
  `_count` projections other than the join's student count. The 500
  catch-all paths are also left out.
- Concurrency, including the race in the generator's check-then-insert loop
  and the atomicity of the upsert.
- The class-code generator uses `Math.random` and retries without bound.
  Only its result is modelled, as the preconditions of `CreateClass`.
- Classes.GetClasses: classes are listed by creation time, and a student's
  classes by enrollment time. The model has neither timestamp, so these
  listings are sets.
- Classes.GetClassById: the students, tasks, announcements and materials
  are returned as sets, without their order.
- Classes.GetClassStudents: the listing order by enrollment time is not
  modelled.
- Classes.GetAllClasses: the per-class task and announcement counts are
  not modelled.
- Announcements.GetAnnouncements: the order by creation time is not
  modelled, because announcements carry no timestamp in the model.
- Text.ToUpper: only a–z, dotless i and long s are mapped. These are the
  only characters whose upper case is one ASCII letter. Expanding mappings
  such as ß → SS are left out. They lengthen the string, so a code of the
  six characters the join route admits cannot match through them.
- JSON `null` and non-string values in validated body fields are left out.
  Route inputs are absent or strings. Integer and date fields are
  classified by the check their validator applies.
- Grades are reals. A grade sent as a string is left out, and so is the
  comparison JavaScript would apply to it.
- `isUUID` and `isISO8601` are opaque. A valid date is given as the
  instant it denotes.
- Prisma's own rejections of ill-typed data are left out; they end in a
  500.
- Validation.MinLength: counts characters of the trimmed field. The
  route validators' `isLength` also counts a surrogate pair as one
  character, but it leaves the variation selectors U+FE0E and U+FE0F out
  of the count; that library is not part of this model, so a field
  padded with variation selectors may be accepted here and refused there.
- Validation.OptionalMinLength: the same character count as MinLength,
  with the same gap for variation selectors.
- ClassRoutes.JoinClassRoute: the six-character check on the trimmed code
  counts characters in the same way, with the same gap for variation
  selectors.

## Findings

| source | as written | input that shows it | evidently intended | confidence | as-written member | corrected member |
|---|---|---|---|---|---|---|
| routes/tasks.js:28 | `requireRole('TEACHER', 'ADMIN')` passes two arguments to a one-parameter `requireRole` (middleware/auth.js:75-85), so only TEACHER is allowed | an authenticated ADMIN posting a valid task to an existing class gets 403 | `requireRole(['TEACHER', 'ADMIN'])`, as the other reachable routes write it, so that admins may create tasks as the handler allows | not executed | TaskRoutes.AdminCannotCreateTask | TaskRoutes.IntendedAdmitsAdmin |
| routes/taskById.js:20-21 | the same two-argument call guards PUT and DELETE of a task | an authenticated ADMIN deleting an existing task gets 403, though `deleteTask` lets admins delete any task | `requireRole(['TEACHER', 'ADMIN'])` | not executed | TaskByIdRoutes.AdminCannotChangeTasks | TaskByIdRoutes.IntendedAdmitsAdmin |
