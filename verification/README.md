# TaskManager core in Dafny

A model of the core of TaskManager, a desktop task tracker with three roles.
An administrator manages users and tasks. A manager writes tasks and assigns
them to users. A user changes the status of the tasks assigned to them.

The model covers four layers:

- **The store.** One immutable `Db` record holds the users table, the tasks
  table and the next ids. `Store.Valid` states the database context's
  constraints: positive store-assigned keys, the unique login index, the
  required author foreign key (`ON DELETE RESTRICT`), the optional executor
  foreign key (`ON DELETE SET NULL`), and status codes 0 to 4.
- **Repositories and projections.** Each repository operation is a pure
  function from a `Db` to a `Result`. Exceptions become `Error` values.
  Reads go through the user and task projections. A task's author and
  executor logins are derived from the users table at read time.
- **Services.** These are the password hasher, sign-in, the users service,
  the tasks service and the current-user slot. SHA-256 is a parameter
  `digest`: any function giving 32 bytes.
- **View models.** Each window's state is a datatype. Each command is a
  pure transition, and its contract is stated against the services' real
  answers on the store. The models are the sign-in window, the
  administrator's users list, user form, tasks list and task form, the
  manager's list and card, and the user's list and card. Flags that are
  reset in `finally` blocks are shown to be down afterwards. Error text is
  modelled as `Notice`: empty, wrong credentials, or the failure's `Error`.

Every operation has a partner. Projections are lossless (`UserRowOf`,
`TaskRowOf`). Hex rendering has an inverse (`Unhex`). `Verify` is
characterised without `HashPassword`. Listings are characterised by
`ListsUsers` / `ListsTasks` (sound, complete, ordered). Filters are
characterised by match predicates plus a subsequence relation. Form saves
are characterised by the store outcome `Submit`. Cross-layer lemmas connect
them: create then sign in, create then read, status update then read back,
and the manager's list holding exactly the tasks that involve the user.

Updating a user treats three kinds of password differently. An empty
password keeps the stored hash (`UserRepository.cs:89`). A non-empty
whitespace-only password skips hashing in the service (`UserService.cs:58`)
and is stored as typed. Any other password is stored as its hash.
`UserService.UpdateUser` states all three cases.

## Model

| member | source | states |
|---|---|---|
| Domain.StatusOfCode | TaskManager.Domain/Dto/TaskStatusEnum.cs:11-15 | the enum cast of a stored code in 0..4 is the status whose code it is |
| Domain.StatusCodeRoundTrip | TaskManager.Data/Mapping/TaskProjection.cs:21 | a status stored as its integer and read back through the cast is the same status; the column default 0 reads back as New |
| Store.DetachExecutor | TaskManager.Data/Db/ApplicationDbContext.cs:92-95 | deleting a user nulls exactly the executor references to that user and leaves every other task row and every key as it was |
| Projection.UserProjectionLossless | TaskManager.Data/Mapping/UserProjection.cs:14-22 | the user projection copies id, name, login, role and the stored hash, so the row can be rebuilt from the dto |
| Projection.TaskProjectionFaithful | TaskManager.Data/Mapping/TaskProjection.cs:14-31 | the task projection keeps every stored column, its author login is the author's login, and its executor login is the executor's login or "" when there is none |
| Ordering.SortByName | TaskManager.Data/Repositories/UserRepository.cs:125 | ordering by name yields a permutation of its input that is sorted by name |
| UserRepository.CreateUser | TaskManager.Data/Repositories/UserRepository.cs:41-65 | fails with InvalidData exactly when the login is taken; otherwise adds exactly one row under a fresh positive id, keeps the store valid and returns the new id, name, login and role with no password |
| UserRepository.UpdateUser | TaskManager.Data/Repositories/UserRepository.cs:78-95 | a non-positive id raises; an unknown id changes nothing; otherwise name, login and role are overwritten, the password only when the new one is non-empty, no other row changes, and a login held by another user is refused |
| UserRepository.DeleteUser | TaskManager.Data/Repositories/UserRepository.cs:103-116 | a non-positive id raises; an unknown id changes nothing; an author is refused by the foreign key; otherwise exactly that user goes and their executed tasks lose their executor |
| UserRepository.GetAllUsers | TaskManager.Data/Repositories/UserRepository.cs:121-128 | returns every user exactly as projected, nothing else, sorted by name |
| UserRepository.GetByRole | TaskManager.Data/Repositories/UserRepository.cs:167-177 | returns exactly the users with that role, as projected, sorted by name |
| UserRepository.GetById | TaskManager.Data/Repositories/UserRepository.cs:135-145 | a non-positive id reads as absent; otherwise returns the projected user exactly when the id is stored |
| UserRepository.GetUserByLogin | TaskManager.Data/Repositories/UserRepository.cs:151-161 | a blank login reads as absent; otherwise a user is returned exactly when one holds that login, and it is that user as projected |
| TaskRepository.CreateTask | TaskManager.Data/Repositories/TaskRepository.cs:19-35 | adds exactly one row with the dto's title, description, status code, author and executor, a store-assigned id and the store's date; refused when the author or executor does not exist |
| TaskRepository.UpdateTask | TaskManager.Data/Repositories/TaskRepository.cs:37-56 | a non-positive id raises; an unknown id changes nothing; otherwise only title, description, status and executor change, and author and creation date are kept |
| TaskRepository.DeleteTask | TaskManager.Data/Repositories/TaskRepository.cs:58-72 | a non-positive id raises; otherwise exactly that task is removed, if present, and the users are untouched |
| TaskRepository.Select | TaskManager.Data/Repositories/TaskRepository.cs:94-116 | a read lists every task its filter selects exactly once, as projected, and nothing else |
| TaskRepository.GetAllTasks | TaskManager.Data/Repositories/TaskRepository.cs:74-80 | returns every task exactly once, as projected |
| TaskRepository.GetTaskById | TaskManager.Data/Repositories/TaskRepository.cs:82-92 | a non-positive id raises; otherwise returns the projected task exactly when the id is stored |
| TaskRepository.GetTasksByAuthorId | TaskManager.Data/Repositories/TaskRepository.cs:94-104 | a non-positive id raises; otherwise returns exactly the tasks with that author |
| TaskRepository.GetTasksByExecutorId | TaskManager.Data/Repositories/TaskRepository.cs:106-116 | a non-positive id raises; otherwise returns exactly the tasks with that executor |
| TaskRepository.CreateThenRead | TaskManager.Data/Repositories/TaskRepository.cs:19-35 | a created task read back by its id carries the dto's title, description, status, author and executor, the store's date, the author's login and the executor's login or "" |
| PasswordHasher.Hex | TaskManager.Domain/Services/PasswordHasherSHA256.cs:23-26 | the rendering has two lowercase hex digits per byte: characters 2i and 2i+1 are byte i's high and low nibble |
| PasswordHasher.AppendHex | TaskManager.Domain/Services/PasswordHasherSHA256.cs:22-27 | the builder loop produces the byte-by-byte hex rendering |
| PasswordHasher.UnhexHex | TaskManager.Domain/Services/PasswordHasherSHA256.cs:25 | decoding the hex rendering gives back the bytes |
| PasswordHasher.HexUnhex | TaskManager.Domain/Services/PasswordHasherSHA256.cs:25 | every even-length lowercase hex string is the rendering of its decoding |
| PasswordHasher.HexInjective | TaskManager.Domain/Services/PasswordHasherSHA256.cs:25 | different byte sequences render differently |
| PasswordHasher.HashPassword | TaskManager.Domain/Services/PasswordHasherSHA256.cs:9-28 | a blank password hashes to ""; any other to 64 lowercase hex characters that decode to its digest |
| PasswordHasher.EmptyHashIffBlank | TaskManager.Domain/Services/PasswordHasherSHA256.cs:11-12 | the hash is "" exactly for blank passwords |
| PasswordHasher.HashDeterminesDigest | TaskManager.Domain/Services/PasswordHasherSHA256.cs:22-27 | equal hashes of non-blank passwords mean equal digests |
| PasswordHasher.Verify | TaskManager.Domain/Services/PasswordHasherSHA256.cs:30-31 | a password matches a hash exactly when the hash is "" for a blank password, or otherwise a 64-character lowercase hex string decoding to the password's digest |
| PasswordHasher.VerifyOwnHash | TaskManager.Domain/Services/PasswordHasherSHA256.cs:30-31 | every password matches its own hash, and a blank password matches "" |
| CurrentUser.Fresh | TaskManager.Domain/Services/CurrentUserService.cs:16-20 | a fresh slot has id 0 and an empty login, so no one is signed in |
| CurrentUser.Set | TaskManager.Domain/Services/CurrentUserService.cs:22-27 | the slot takes exactly the user's id, login and role, and is signed in exactly when that id is positive |
| CurrentUser.Clear | TaskManager.Domain/Services/CurrentUserService.cs:29-34 | signing out leaves id 0, an empty login and role User, so no one is signed in |
| CurrentUser.LastSetWins | TaskManager.Domain/Services/CurrentUserService.cs:22-34 | the last Set wins, and Set then Clear equals a Clear of a fresh slot |
| UserService.HashedForCreate | TaskManager.Domain/Services/UserService.cs:47 | the caller's dto keeps everything but its password, which becomes "" when blank and otherwise a hash the password verifies against |
| UserService.HashedForUpdate | TaskManager.Domain/Services/UserService.cs:58-59 | the caller's dto keeps a blank password as it is and otherwise holds a hash the password verifies against |
| UserService.CreateUser | TaskManager.Domain/Services/UserService.cs:45-49 | fails exactly when the login is taken; otherwise stores the new user with the password's hash, and a blank password as "" |
| UserService.UpdateUser | TaskManager.Domain/Services/UserService.cs:56-61 | the stored password becomes: unchanged for an empty one, the string itself for a whitespace-only one, and a hash it verifies against otherwise; no other user changes |
| UserService.GetAllUsers | TaskManager.Domain/Services/UserService.cs:34-38 | every user, exactly as projected, sorted by name |
| UserService.GetUsersByRole | TaskManager.Domain/Services/UserService.cs:78-82 | exactly the users with that role, sorted by name |
| UserService.DeleteUser | TaskManager.Domain/Services/UserService.cs:68-71 | a non-positive id raises and an author is refused by the foreign key; an unknown id changes nothing; otherwise exactly that user goes, their executed tasks lose their executor and every other task is kept |
| AuthService.Login | TaskManager.Domain/Services/AuthService.cs:22-36 | a missing login counts as ""; a blank login or password gives no user; otherwise a user is returned exactly when one holds the login and the password matches its hash, and it is that user with its non-empty stored hash |
| AuthService.CreateThenSignIn | TaskManager.Domain/Services/AuthService.cs:29-35 | a user created with a free, non-blank login and a non-blank password signs in with the same pair, and recording them signs the application in |
| TaskService.CreateTask | TaskManager.Domain/Services/TaskService.cs:34-43 | a blank title or description is refused before the store; otherwise the store's create happens and fails only on an unknown author or executor |
| TaskService.DeleteTask | TaskManager.Domain/Services/TaskService.cs:51-56 | a non-positive id is refused by the service; otherwise exactly that task is removed |
| TaskService.GetAllTasks | TaskManager.Domain/Services/TaskService.cs:62-66 | every task exactly once, as projected |
| TaskService.GetTasksByAuthorId | TaskManager.Domain/Services/TaskService.cs:74-80 | a non-positive id is refused by the service; otherwise exactly the author's tasks |
| TaskService.GetTasksByExecutorId | TaskManager.Domain/Services/TaskService.cs:87-91 | a non-positive id raises in the store; otherwise exactly the executor's tasks |
| TaskService.UpdateTask | TaskManager.Domain/Services/TaskService.cs:98-101 | no validation: title, description, status and executor are written as given, blank or not; author and date kept |
| TaskService.UpdateTaskStatus | TaskManager.Domain/Services/TaskService.cs:109-117 | a non-positive id raises; an unknown id changes nothing; otherwise the task's status is the only stored field that changes |
| TaskService.StatusUpdateIdempotent | TaskManager.Domain/Services/TaskService.cs:109-117 | applying the same status change twice equals applying it once |
| TaskService.StatusUpdateReadBack | TaskManager.Domain/Services/TaskService.cs:109-117 | reading the task after a status change gives the earlier read with the new status and nothing else different |
| Presentation.DefaultExecutor | TaskManager/ViewModels/Admin/CreateEditTaskFormViewModel.cs:298-299 | the first candidate with the preferred id, else the first candidate, else none |
| SearchFilter.FilterTasks | TaskManager/ViewModels/Admin/TasksViewModel.cs:182-204 | a blank search keeps the list; otherwise exactly the tasks whose lower-cased title, description or executor login contains the lower-cased search, as an order-preserving subsequence |
| SearchFilter.FilterUsers | TaskManager/ViewModels/Admin/UsersViewModel.cs:160-182 | a blank search keeps the list; otherwise exactly the users whose lower-cased name or login contains the lower-cased search, as an order-preserving subsequence |
| SearchFilter.FilterTasksIgnoresCase | TaskManager/ViewModels/Admin/TasksViewModel.cs:186-199 | searches that differ only in letter case select the same tasks |
| SearchFilter.FilterUsersIgnoresCase | TaskManager/ViewModels/Admin/UsersViewModel.cs:164-177 | searches that differ only in letter case select the same users |
| SearchFilter.FilterTasksIdempotent | TaskManager/ViewModels/Admin/TasksViewModel.cs:182-204 | filtering a filtered task list again with the same search changes nothing |
| SearchFilter.FilterUsersIdempotent | TaskManager/ViewModels/Admin/UsersViewModel.cs:160-182 | filtering a filtered user list again with the same search changes nothing |
| LoginVm.Resolve | TaskManager/ViewModels/Login/LoginViewModel.cs:92 | the pending result is set only by its first resolution |
| LoginVm.Submit | TaskManager/ViewModels/Login/LoginViewModel.cs:77-102 | no user shows the wrong-credentials message, a failure shows its error, and both leave the result pending; a user resolves it; the busy flag is down afterwards |
| LoginVm.Cancel | TaskManager/ViewModels/Login/LoginViewModel.cs:104-107 | cancel resolves the pending result with no user and changes nothing else |
| LoginVm.SignIn | TaskManager/ViewModels/Login/LoginViewModel.cs:77-92 | the window's first resolution is the user the sign-in service returns for its login and password |
| LoginVm.Run | TaskManager/ViewModels/Login/LoginViewModel.cs:77-107 | over any run of typing, login and cancel actions, a resolved result never changes and the window is never left busy |
| UserFormVm.Initial | TaskManager/ViewModels/Admin/CreateEditUserFormViewModel.cs:191-202 | a new form can be shown but neither cancelled nor saved |
| UserFormVm.ShowCreate | TaskManager/ViewModels/Admin/CreateEditUserFormViewModel.cs:146-158 | an empty, visible create form with id -1 and role User, which cannot be saved until filled |
| UserFormVm.ShowEdit | TaskManager/ViewModels/Admin/CreateEditUserFormViewModel.cs:164-176 | a visible edit form with the user's id, name, login and role and an empty password; saving is enabled exactly when name and login are non-blank |
| UserFormVm.Hide | TaskManager/ViewModels/Admin/CreateEditUserFormViewModel.cs:181-189 | hidden with cleared fields and role User; edit mode and the edited id are kept |
| UserFormVm.Submit | TaskManager/ViewModels/Admin/CreateEditUserFormViewModel.cs:215-235 | create mode adds a user with the hashed password exactly when the login is free and leaves the tasks alone; edit mode updates the user with the edited id: it fails for a non-positive id or a login held by another user, changes nothing for an unknown id, and otherwise writes the form's name, login and role, keeps the password when the box is empty, stores a whitespace-only one as typed and a hash of any other, and leaves every other user and the tasks alone |
| UserFormVm.Save | TaskManager/ViewModels/Admin/CreateEditUserFormViewModel.cs:208-248 | on success the store is the service's result and the form hides; on failure the store is unchanged and the form keeps its fields and shows the error; never left busy |
| UserFormVm.CreatedUserCanSignIn | TaskManager/ViewModels/Admin/CreateEditUserFormViewModel.cs:215-223 | a user created through a savable form signs in with the login and password typed into it |
| UsersVm.Initial | TaskManager/ViewModels/Admin/UsersViewModel.cs:80-81 | an empty list whose filter is consistent and which can load |
| UsersVm.SetSearch | TaskManager/ViewModels/Admin/UsersViewModel.cs:160-170 | typing a search re-applies the filter to the loaded users |
| UsersVm.Reload | TaskManager/ViewModels/Admin/UsersViewModel.cs:147-156 | the loaded users become every stored user sorted by name, and the filter is re-applied |
| UsersVm.Load | TaskManager/ViewModels/Admin/UsersViewModel.cs:92-107 | loads every user, keeps the filter consistent, leaves the error line alone and is not busy afterwards |
| UsersVm.Edit | TaskManager/ViewModels/Admin/UsersViewModel.cs:109-113 | a selected user opens the form in edit mode for that user; no selection changes nothing |
| UsersVm.Delete | TaskManager/ViewModels/Admin/UsersViewModel.cs:115-142 | no selection or no confirmation only clears the error line; otherwise the service deletes and the list reloads, or the error shows and nothing else changes |
| UsersVm.SaveForm | TaskManager/ViewModels/Admin/CreateEditUserFormViewModel.cs:237-238 | the form's save, followed on success by a reload of the list |
| TaskFormVm.Initial | TaskManager/ViewModels/Admin/CreateEditTaskFormViewModel.cs:224-233 | a new form can be shown but not saved |
| TaskFormVm.LoadExecutors | TaskManager/ViewModels/Admin/CreateEditTaskFormViewModel.cs:290-309 | every user becomes a candidate and the default executor is preselected; there is no selection exactly when there are no users |
| TaskFormVm.ShowCreate | TaskManager/ViewModels/Admin/CreateEditTaskFormViewModel.cs:177-189 | an empty, visible create form with status New, preferring the administrator as executor; it cannot be saved until a title is typed |
| TaskFormVm.ShowEdit | TaskManager/ViewModels/Admin/CreateEditTaskFormViewModel.cs:195-207 | a visible edit form filled from the task, preferring its executor or else the administrator; savable exactly when the title is non-blank |
| TaskFormVm.Hide | TaskManager/ViewModels/Admin/CreateEditTaskFormViewModel.cs:211-222 | hidden with fields, candidates, selection, edit mode and id reset |
| TaskFormVm.SentDescription | TaskManager/ViewModels/Admin/CreateEditTaskFormViewModel.cs:254 | a blank description is sent as "" and any other unchanged |
| TaskFormVm.Submit | TaskManager/ViewModels/Admin/CreateEditTaskFormViewModel.cs:246-270 | no executor is an argument error; create sends status New and the administrator as author; edit writes title, description, status and executor of the edited task |
| TaskFormVm.Save | TaskManager/ViewModels/Admin/CreateEditTaskFormViewModel.cs:239-284 | on success the store is the service's result and the form hides; on failure the store is unchanged and the error shows; never left busy |
| TaskFormVm.BlankDescriptionNeverCreates | TaskManager/ViewModels/Admin/CreateEditTaskFormViewModel.cs:249-258 | creating with a blank description always fails with an argument error and stores nothing |
| TaskFormVm.CreateWithTitleOnlyFails | TaskManager/ViewModels/Admin/CreateEditTaskFormViewModel.cs:230-233 | a freshly shown create form with only a title is savable by the button, yet its save fails |
| TaskFormVm.EditStoresBlankDescription | TaskManager/ViewModels/Admin/CreateEditTaskFormViewModel.cs:262-270 | editing with a blank description succeeds and stores "" |
| TasksVm.Initial | TaskManager/ViewModels/Admin/TasksViewModel.cs:81-82 | an empty list whose filter is consistent and which can load |
| TasksVm.SetSearch | TaskManager/ViewModels/Admin/TasksViewModel.cs:182-192 | typing a search re-applies the filter to the loaded tasks |
| TasksVm.Reload | TaskManager/ViewModels/Admin/TasksViewModel.cs:169-178 | the loaded tasks become every stored task, and the filter is re-applied |
| TasksVm.Load | TaskManager/ViewModels/Admin/TasksViewModel.cs:117-132 | loads every task, keeps the filter consistent, leaves the error line alone and is not busy afterwards |
| TasksVm.Edit | TaskManager/ViewModels/Admin/TasksViewModel.cs:94-112 | a selected task opens the form in edit mode for it; no selection changes nothing |
| TasksVm.Delete | TaskManager/ViewModels/Admin/TasksViewModel.cs:138-164 | no selection or no confirmation only clears the error line; a non-positive id shows the service's error; otherwise the task is removed and the list reloads |
| TasksVm.SaveForm | TaskManager/ViewModels/Admin/CreateEditTaskFormViewModel.cs:273-274 | the form's save, followed on success by a reload of the list |
| ManagerCardVm.LoadExecutors | TaskManager/ViewModels/Manager/TaskCardManagerViewModel.cs:224-245 | exactly the users with role User become candidates, and the default executor is preselected |
| ManagerCardVm.LoadCreate | TaskManager/ViewModels/Manager/TaskCardManagerViewModel.cs:185-198 | a create card authored by the signed-in user, dated at opening, empty and New, preferring that user as executor; not savable until a title is typed |
| ManagerCardVm.LoadEdit | TaskManager/ViewModels/Manager/TaskCardManagerViewModel.cs:204-217 | an edit card with the task's id, author, date, title, description and status, preferring its executor or id 0 |
| ManagerCardVm.Submit | TaskManager/ViewModels/Manager/TaskCardManagerViewModel.cs:258-272 | no executor fails with a null reference; create goes through the service's create with the card's fields; edit writes title, description, status and executor |
| ManagerCardVm.Save | TaskManager/ViewModels/Manager/TaskCardManagerViewModel.cs:251-285 | on success the store is the service's result; on failure the store is unchanged and the error shows; never left busy |
| ManagerCardVm.CreateWithTitleOnlyFails | TaskManager/ViewModels/Manager/TaskCardManagerViewModel.cs:185-198 | a create card saved with only a title never creates a task |
| ManagerListVm.Initial | TaskManager/ViewModels/Manager/TaskViewManagerModel.cs:84-85 | a new list can run its commands |
| ManagerListVm.Fetch | TaskManager/ViewModels/Manager/TaskViewManagerModel.cs:182-193 | the list is the user's authored tasks followed by their assigned tasks; a non-positive id is refused |
| ManagerListVm.Refresh | TaskManager/ViewModels/Manager/TaskViewManagerModel.cs:184 | the list is emptied first, so a failed fetch leaves it empty |
| ManagerListVm.Load | TaskManager/ViewModels/Manager/TaskViewManagerModel.cs:129-145 | shows the fetched tasks, or an empty list and the error; a non-positive user id always fails; never left busy |
| ManagerListVm.OpenCreate | TaskManager/ViewModels/Manager/TaskViewManagerModel.cs:94-97 | the create command opens a create card and leaves the list alone |
| ManagerListVm.OpenEdit | TaskManager/ViewModels/Manager/TaskViewManagerModel.cs:104-123 | the edit and card commands clear the error line and open an edit card for a selected task |
| ManagerListVm.Delete | TaskManager/ViewModels/Manager/TaskViewManagerModel.cs:152-176 | no selection or no confirmation only clears the error line; otherwise the task is removed and the list reloads |
| ManagerListVm.SaveCard | TaskManager/ViewModels/Manager/TaskCardManagerViewModel.cs:274-279 | after a saved card the list reloads and the card closes; a failed reload shows its error on the card, which stays open |
| ManagerListVm.NoDeduplication | TaskManager/ViewModels/Manager/TaskViewManagerModel.cs:189 | a task the user both wrote and executes is listed twice |
| ManagerListVm.ListedTasksBelongToUser | TaskManager/ViewModels/Manager/TaskViewManagerModel.cs:186-192 | every listed task was written by or is assigned to the user, and every such task is listed |
| UserCardVm.LoadEdit | TaskManager/ViewModels/User/TaskCardUserViewModel.cs:52-63 | the card copies the task's fields, remembers and selects its status, and cannot be saved yet |
| UserCardVm.SelectStatus | TaskManager/ViewModels/User/TaskCardUserViewModel.cs:131-136 | only the selected status changes, and saving is enabled exactly when it differs from the loaded one |
| UserCardVm.Save | TaskManager/ViewModels/User/TaskCardUserViewModel.cs:148-169 | only the selected status of that task changes in the store; a non-positive id fails and changes nothing |
| UserListVm.Initial | TaskManager/ViewModels/User/TaskViewUserModel.cs:69-70 | a new list can run its commands |
| UserListVm.Reload | TaskManager/ViewModels/User/TaskViewUserModel.cs:119-128 | the list becomes exactly the tasks assigned to the user; a non-positive id leaves it empty |
| UserListVm.Load | TaskManager/ViewModels/User/TaskViewUserModel.cs:79-95 | shows the assigned tasks; the error line is set exactly when the user id is non-positive; never left busy |
| UserListVm.ShowCard | TaskManager/ViewModels/User/TaskViewUserModel.cs:101-107 | no task, no card; otherwise a freshly loaded card for that task |
| UserListVm.SaveCard | TaskManager/ViewModels/User/TaskCardUserViewModel.cs:156-158 | after a saved card the list reloads and the card closes; a failed reload shows its error on the card |
| UserListVm.SavedStatusIsListed | TaskManager/ViewModels/User/TaskViewUserModel.cs:119-128 | after a status change through the card, the reloaded list shows the task with its new status and nothing else different |

## Left out

- Entity Framework mechanics are not modelled: change tracking, `SaveChanges`, LINQ translation and SQLite collation. Each store operation is one atomic step on an immutable `Db`.
- The creation date the store assigns (`datetime('now')`) and `DateTime.Now` in the manager card are `Timestamp` parameters.
- SHA-256 and UTF-8 encoding are a parameter `digest`, which is any function returning 32 bytes.
- `ToLowerInvariant` maps only the ASCII letters A-Z. `Char.IsWhiteSpace` uses its exact code-point list.
- async/await interleavings are not modelled. Each service call is atomic, so concurrent status updates are not modelled either.
- Failures caused by the environment, such as a lost connection, are not modelled. So `catch` blocks are reached only through the modelled errors. For example, the administrator's lists keep a stale filtered list only after such a failure.
- After a saved form, the reload of the administrator's lists cannot fail in the model. So the case of a hidden form showing a reload error is not reached.
- Property-change and `NotifyCanExecuteChanged` plumbing is not modelled. The `Can…` commands are predicates over the state.
- The confirmation dialog is the boolean `confirmed`. Opening and closing windows is modelled as the returned card and the `closed` flag.
- `App.xaml.cs` dependency wiring, the view code-behind, the view factory, the card window services and the interfaces are left out. They hold no logic beyond window construction and lookups.
- The error texts are reduced to categories: `WrongCredentials`, or `Failed` carrying the `Error`.
- Null strings are folded into "" wherever the code only tests them with `IsNullOrEmpty`, `IsNullOrWhiteSpace` or `??`. The sign-in's null login is an `Option`.
- The numeric values of the role enumeration are not part of this model. So the default role of a fresh current-user slot is a parameter of `CurrentUser.Fresh`.
- UserRepository.GetAllUsers: SQLite does not fix the order of users with equal names. The model breaks such ties by id, and the listing contracts (`ListsUsers`, through `Ordering.Before`) commit to that id order, which the code does not promise.
- TaskRepository.GetAllTasks: the code promises no order for task listings. The model lists tasks in id order, and the listing contract `ListsTasks` commits to strictly increasing ids for every task read, which the code does not promise.
- TaskFormVm.Submit: the administrator's form also has a selected-status field that nothing reads, and it is not modelled.
- UserService.CreateUser: the in-place overwrite of the caller's dto is stated separately, by `UserService.HashedForCreate` and `UserService.HashedForUpdate`.
- Unknown database failures are not modelled. The store refuses only what its declared constraints refuse: the unique login, the author restriction and the foreign keys.
