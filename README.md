# Library app: password strength, dashboard state and the user/book back end

This project models, in Dafny, the logic of a small library web application:

- **Registration form** (`RegisterForm`, register_form.dfy). It scores a password against four criteria, 25 points each: a length of at least 8 (in UTF-16 code units, as JavaScript counts), mixed case, a digit, and a character outside `[a-zA-Z0-9]`. It maps the score to a red, orange or green bar. It also holds the form's state cells and the handlers that update them.
- **Dashboard page** (`Dashboard`, dashboard.dfy). It turns server records into display records and keeps the `books`, `newBook`, `loading`, `user` and `activeTab` state cells. The handlers for load, add, status update and delete update those cells. It also models how the table picks its rows, the card title, and which panel each tab shows.
- **Back-end tables** (`Models`, models.dfy) and the **CRUD layer** (`Crud`, crud.dfy). The database is an in-memory sequence of rows per table, plus an id counter per table. bcrypt is an uninterpreted `CryptContext`.
- **HTTP routes** (`Routes`, routes.dfy). These cover the response records, access-token creation, the 404 lookups, `register` (which rejects duplicate names), `login` (which gives one 401 for every failure), and `POST /users` (which does not check for duplicates).

Every network call is modelled as an abstract result. It is either a parsed body or a failure, passed as a parameter to the handler that awaits it. The clock is a parameter counting seconds. bcrypt's salt is a parameter too.

## Model

| member | source | states |
|---|---|---|
| `RegisterForm.Utf16Length` | frontend/app/components/RegisterForm.js:84 | `password.length` counts UTF-16 code units: at least one and at most two per character |
| `RegisterForm.Utf16LengthAppend` | frontend/app/components/RegisterForm.js:84 | the length of a concatenation is the sum of the lengths, so appending never shortens |
| `RegisterForm.Strength` | frontend/app/components/RegisterForm.js:80-92 | the score is always one of 0, 25, 50, 75, 100 |
| `RegisterForm.CalculatePasswordStrength` | frontend/app/components/RegisterForm.js:80-92 | the accumulator ends at the score; it lies in 0..100 and is a multiple of 25; it is 100 iff all four criteria hold and 0 iff none does |
| `RegisterForm.EmptyScoresZero` | frontend/app/components/RegisterForm.js:82-91 | the empty password scores 0 |
| `RegisterForm.CriterionAddsExactly25` | frontend/app/components/RegisterForm.js:84-90 | two passwords that agree on every criterion but one, met only by the first, are exactly 25 points apart |
| `RegisterForm.AppendNeverLowers` | frontend/app/components/RegisterForm.js:84-90 | appending characters to a password never lowers its score |
| `RegisterForm.FourAstralCharactersScore50` | frontend/app/components/RegisterForm.js:84-90 | four characters beyond U+FFFF are 8 code units long and score 50 (length and special character) |
| `RegisterForm.StrengthColour` | frontend/app/components/RegisterForm.js:107-112 | red iff score < 50, orange iff 50 <= score < 75, green iff score >= 75 |
| `RegisterForm.ColourMonotone` | frontend/app/components/RegisterForm.js:107-112 | a higher score never shows a worse colour |
| `RegisterForm.ColourOfEachScore` | frontend/app/components/RegisterForm.js:107-112 | over real scores: 0 and 25 are red, 50 is orange, 75 and 100 are green |
| `RegisterForm.FormState.constructor` | frontend/app/components/RegisterForm.js:24-29 | all fields start empty and the strength starts at 0 |
| `RegisterForm.FormState.SetUserName` | frontend/app/components/RegisterForm.js:142 | only `username` changes |
| `RegisterForm.FormState.SetConfirmPassword` | frontend/app/components/RegisterForm.js:164 | only `confirmPassword` changes |
| `RegisterForm.FormState.HandleInputChange` | frontend/app/components/RegisterForm.js:36-39 | the new password is stored, but the shown strength is that of the previous password |
| `RegisterForm.StrengthLagsOneEdit` | frontend/app/components/RegisterForm.js:36-39 | "" scores 0 and "Secret1!" scores 100 |
| `RegisterForm.PasteShowsStaleStrength` | frontend/app/components/RegisterForm.js:36-39 | a fresh form that receives "Secret1!" through the handler shows 0 while the field scores 100 |
| `RegisterForm.FormState.HandleInputChangeFixed` | frontend/app/components/RegisterForm.js:36-39 | corrected handler: the shown strength is that of the shown password |
| `RegisterForm.FormState.HandleSubmit` | frontend/app/components/RegisterForm.js:45-71 | the body is exactly `{username, password}`, whatever the strength or confirmation; it navigates iff the status is 200 |
| `Dashboard.FromServer` | frontend/app/dashboard/page.js:63-70 | copies id, title and author; status is "Checked Out" iff `is_borrowed`, otherwise "Available" |
| `Dashboard.FetchedBooks` | frontend/app/dashboard/page.js:45-71 | same length, same order, each element mapped |
| `Dashboard.ToUserData` | frontend/app/dashboard/page.js:172-175 | name is the username; role is "Admin" iff `is_admin`, otherwise "User" |
| `Dashboard.AsReturned` | frontend/app/dashboard/page.js:97-99 | the added book keeps the server's id, title and author and has no status |
| `Dashboard.WithStatus` | frontend/app/dashboard/page.js:253-257 | same length; books with the target id change only their status; every other book is unchanged |
| `Dashboard.WithStatusIdempotent` | frontend/app/dashboard/page.js:253-257 | applying the same status update twice equals applying it once |
| `Dashboard.NewStatus` | frontend/app/dashboard/page.js:251 | the new status is the boolean `currentStatus === true` |
| `Dashboard.FetchedBooksNoTrueFlag` | frontend/app/dashboard/page.js:63-70 | a loaded list holds labels only, never the boolean `true` |
| `Dashboard.AppendedNoTrueFlag` | frontend/app/dashboard/page.js:244-245 | appending the returned record adds no `true` status |
| `Dashboard.TableToggleSetsFalse` | frontend/app/dashboard/page.js:249-261 | with the row's own status passed in (as the table does at line 360), the toggle writes `false` and never `true` |
| `Dashboard.ToggledStatus` | frontend/app/dashboard/page.js:251 | corrected toggle: "Checked Out" and "Available" swap |
| `Dashboard.ToggledStatusInvolutive` | frontend/app/dashboard/page.js:251 | the corrected toggle undoes itself, and it matches flipping `is_borrowed` on the server record |
| `Dashboard.BookRows` | frontend/app/dashboard/page.js:350-375 | one row per book, in list order |
| `Dashboard.TableBodyRows` | frontend/app/dashboard/page.js:337-376 | while loading, exactly one loading row; when loaded and empty, exactly one placeholder row; otherwise one row per book, in order |
| `Dashboard.BookRowsShownIff` | frontend/app/dashboard/page.js:337-376 | there is always at least one row; book rows appear iff loading is over and the list is not empty |
| `Dashboard.UpperCase` | frontend/app/dashboard/page.js:464 | ASCII lower-case letters become upper case; every other character is kept |
| `Dashboard.CardTitle` | frontend/app/dashboard/page.js:464 | same length; first character upper-cased; the rest unchanged |
| `Dashboard.CardTitleIdempotent` | frontend/app/dashboard/page.js:464 | capitalising a title again changes nothing |
| `Dashboard.RenderContent` | frontend/app/dashboard/page.js:292-390 | a panel iff the tab is dashboard, users, catalog or reports; the book table iff it is dashboard |
| `Dashboard.LibraryDashboard.constructor` | frontend/app/dashboard/page.js:202-206 | the initial state cells, which satisfy the page invariant (no status is `true`) |
| `Dashboard.LibraryDashboard.Rows` | frontend/app/dashboard/page.js:337-376 | the rendered body always has a row, and only the loading row while loading |
| `Dashboard.LibraryDashboard.LoadBooksStart` | frontend/app/dashboard/page.js:221-223 | sets loading; nothing else changes |
| `Dashboard.LibraryDashboard.LoadBooksSettled` | frontend/app/dashboard/page.js:224-230 | loading ends on success and on failure; `books` becomes the mapped payload on success and stays as it was on failure |
| `Dashboard.LibraryDashboard.LoadBooks` | frontend/app/dashboard/page.js:221-231 | the whole `loadBooks` handler: same end state as above; other cells unchanged |
| `Dashboard.LibraryDashboard.LoadUserData` | frontend/app/dashboard/page.js:233-240 | `user` becomes the mapped payload on success and is kept on failure; nothing else changes |
| `Dashboard.LibraryDashboard.SetNewBookTitle` | frontend/app/dashboard/page.js:302-304 | only the form's title changes |
| `Dashboard.LibraryDashboard.SetNewBookAuthor` | frontend/app/dashboard/page.js:310-312 | only the form's author changes |
| `Dashboard.LibraryDashboard.SetActiveTab` | frontend/app/dashboard/page.js:404 | only `activeTab` changes |
| `Dashboard.LibraryDashboard.HandleAddBook` | frontend/app/dashboard/page.js:242-247 | posts the form; on success `books` is the old list plus the returned book at the end and the form is empty; on failure nothing changes |
| `Dashboard.LibraryDashboard.HandleUpdateStatus` | frontend/app/dashboard/page.js:249-261 | sends `currentStatus === true`; on success only the status of the target books changes; on failure `books` is unchanged; unless given the boolean `true` it keeps the page invariant that no status is `true` |
| `Dashboard.LibraryDashboard.ClickToggle` | frontend/app/dashboard/page.js:356-361 | on success `books` is the old list with `false` written into the status of the clicked row's id, so that row ends `false`; on failure nothing changes; the other cells keep their values and no status ever becomes `true` |
| `Dashboard.LibraryDashboard.DeleteBook` | frontend/app/dashboard/page.js:263-290 | returns the id and reloads the books after a successful delete; a failed delete changes nothing |
| `Crud.FirstWhere` | backend/app/crud.py:23-34 | the first index whose row satisfies the filter, or None iff no row does |
| `Crud.GetUsers` | backend/app/crud.py:13-14 | every user row, in store order |
| `Crud.GetBooks` | backend/app/crud.py:18-19 | every book row, in store order |
| `Crud.GetUserById` | backend/app/crud.py:23-24 | the first user with that id, or None iff there is none |
| `Crud.GetBookById` | backend/app/crud.py:28-29 | the first book with that id, or None iff there is none |
| `Crud.GetUserByName` | backend/app/crud.py:33-34 | the first user with that username, or None iff there is none |
| `Crud.UserByIdIsUnique` | backend/app/crud.py:23-24 | with unique primary keys, the lookup finds the one row with that id |
| `Crud.BookByIdIsUnique` | backend/app/crud.py:28-29 | with unique primary keys, the lookup finds the one row with that id |
| `Crud.UserByNameAfterAppend` | backend/app/crud.py:33-34 | a name no stored user has is found in the row appended with it |
| `Crud.UserByNameShadows` | backend/app/crud.py:33-34 | rows appended later never change the lookup of a name already stored |
| `Crud.VerifyPassword` | backend/app/crud.py:59-60 | with a sound hash context, a password verifies against any digest made from it |
| `Crud.Database.CreateBook` | backend/app/crud.py:38-45 | adds exactly one row with the given fields and a fresh id, and returns it; other rows and the user table are unchanged; ids stay unique |
| `Crud.Database.CreateUser` | backend/app/crud.py:49-55 | adds exactly one row holding the digest of the password, with the given admin flag and a fresh id; the book table is unchanged; ids stay unique |
| `Routes.CreateAccessToken` | backend/app/routes.py:120-132 | the claims are `data` plus `exp`; `exp` is now + delta when the delta is truthy, otherwise now + 15 minutes; the key and algorithm are the configured ones |
| `Routes.ZeroDeltaGetsDefault` | backend/app/routes.py:124-127 | a zero delta gives the same token as no delta: 15 minutes |
| `Routes.SessionToken` | backend/app/routes.py:211-219 | a bearer token whose claims are exactly `sub` = username and `exp` = now + 15 minutes |
| `Routes.UserRecord` | backend/app/routes.py:140-143 | keys are exactly id, username and is_admin; never the password |
| `Routes.BookRecord` | backend/app/routes.py:160-168 | keys are exactly id, title, author and is_borrowed, holding the row's values |
| `Routes.GetUsers` | backend/app/routes.py:135-143 | one record per stored user, in store order, none with a password |
| `Routes.GetBooks` | backend/app/routes.py:156-168 | one record per stored book, in store order |
| `Routes.GetUser` | backend/app/routes.py:146-153 | 404 "User not found" iff no user has the id; otherwise the record of a user with it |
| `Routes.GetBook` | backend/app/routes.py:179-191 | 404 "Book not found" iff no book has the id; otherwise the record of a book with it |
| `Routes.Login` | backend/app/routes.py:222-235 | every failure is the same 401 "Invalid credentials"; success iff a user has that name and the password verifies against the first such user's digest; success gives a bearer token with `sub` = the name |
| `Routes.CreatedUserRecord` | backend/app/routes.py:200 | keys are exactly id, name and is_admin: "name", not "username" |
| `Routes.CreateBook` | backend/app/routes.py:171-176 | stores one book that is not borrowed and returns it |
| `Routes.CreateUser` | backend/app/routes.py:195-200 | stores one user even when the name is taken, and returns it under the key "name" |
| `Routes.Register` | backend/app/routes.py:203-219 | a taken name gives 400 "User already registered" and creates nothing; a fresh name adds exactly one user and returns a bearer token for it |
| `Routes.LoginAfterRegister` | backend/app/routes.py:203-235 | after registering a fresh name, login with that password succeeds and returns the same token |
| `Routes.DuplicateUserCannotLogIn` | backend/app/routes.py:222-228 | a user created under a taken name cannot log in with a password the first user's digest rejects |

## Findings

| source | as written | input that shows it | evidently intended | confidence | as-written member | corrected member |
|---|---|---|---|---|---|---|
| frontend/app/components/RegisterForm.js:36-39 | the strength is computed from `password` as it was before the change, because the closure sees the previous render's value | paste "Secret1!" into the empty field: the bar shows 0 while the field scores 100 | the strength shown is that of the password shown | high, not executed | `RegisterForm.FormState.HandleInputChange`, `RegisterForm.PasteShowsStaleStrength` | `RegisterForm.FormState.HandleInputChangeFixed` |
| frontend/app/dashboard/page.js:251 | the new status is `currentStatus === true`, and the table passes the label string `book.status` (line 360) | toggle a book shown as "Checked Out": its status becomes the boolean `false`; every handler keeps the invariant that no status is `true`, so none ever becomes `true` | "Toggle Status" swaps "Checked Out" and "Available" | high, not executed | `Dashboard.NewStatus`, `Dashboard.TableToggleSetsFalse` | `Dashboard.ToggledStatus`, `Dashboard.ToggledStatusInvolutive` |

## Left out

- Network I/O is left out. Every `fetch`, the `NEXT_PUBLIC_API_URL` URL building and the `Authorization` header are replaced by the abstract result a handler receives.
- The toasts, `console.error` and `router.push` are left out. Navigation is reported only as a boolean.
- `RegisterForm.FormState.HandleSubmit`: the `response.error` branch is not modelled. A fetch `Response` has no `error` property, so a non-200 answer does nothing.
- `email` is declared but never used by the form.
- `Dashboard.LibraryDashboard.LoadUserData` assumes a payload with `username` and `is_admin`. The page reads these fields from `GET /users`, which returns a list, so in the running pair `name` would be undefined. This front-end/back-end mismatch is not modelled across HTTP.
- Overlapping async handlers are not interleaved. Examples are the stale `books` closure in `handleAddBook` and the `loadBooks` that `deleteBook` starts without awaiting. Each handler runs to completion with its fetch results given.
- `Dashboard.UpperCase`: only ASCII letters are upper-cased. JavaScript's full Unicode case mapping (which can change the length, e.g. "ß" becomes "SS") is not modelled. Every tab name the page uses is ASCII.
- `loadUserData`'s mount effect, the logout handler, the auth context, the generic API helper, the login form and all JSX/CSS are out of scope. They are storage, reload and presentation glue.
- The database is sequences of rows in insertion order, with ids from a counter. SQLAlchemy sessions, commit/refresh and SQL ordering are not modelled; `.first()` is assumed to return rows in insertion order.
- bcrypt (`CryptContext`) and `jwt.encode` are uninterpreted. The one assumed fact is `Models.Sound`: a secret verifies against its own digest. A token is identified with the claims, key and algorithm it encodes.
- `datetime.now()` is a parameter. Times and `timedelta`s are whole seconds.
- Environment variables take their defaults: key "secret", algorithm "HS256", 15 minutes. A set `ACCESS_TOKEN_EXPI` would arrive as a string, and `timedelta(minutes=...)` would then raise. That path is not modelled.
- `create_superuser` is left out. It passes `name=`, which is not a column of `User`, so it can only fail at run time.
- The `User.verify_password` and `User.hash_password` methods in the models file are left out. They duplicate the CRUD ones and no route calls them.
- The `PUT /books/{id}` and `DELETE /books/{id}` endpoints the dashboard calls have no back-end route in this repository. The front end sees them only as abstract results.
