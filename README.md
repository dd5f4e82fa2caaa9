# Restaurant service layer, modelled in Dafny

This project models the service layer of a restaurant-management app (`newRestaurant`) and the two view-models that carry rules of their own. It covers:

- the **reservation book**: bookings of tables over half-open minute intervals, with an overlap check that ignores cancelled and completed bookings;
- the **table registry**: table numbers unique ignoring case; a delete is refused while the table still has an active booking that has not ended;
- the **category registry**: a delete is refused while a dish still belongs to the category;
- the **notification ledger**: messages are stored unread, listed, counted and flipped to read;
- the **user store**: usernames and emails unique ignoring case, passwords hashed and checked by functions the store is given;
- the **session** (`AuthService`): who is logged in, plus self-registration, which never grants Admin;
- the **reservation editor** (`ReservationDetailViewModel`): who may manage a reservation, the defaults for a new one, save-time validation and which status is saved;
- the **registration form** (`RegisterViewModel`): the offered roles, the enablement gate and the mismatch branch.

Each store is a class holding a `seq` of rows and a `nextId` counter that stands for the identity column. Its methods check what the source checks, then change the rows, and each one states the whole new state. Each store's `Valid()` invariant is kept by every method:

- ids are positive, distinct and below `nextId`;
- the reservation book never holds two active bookings of one table at a common minute;
- table numbers are distinct ignoring case;
- logins are unique ignoring case.

Queries are functions over the rows, and the lemmas relate them to one another and to the methods. Times are whole minutes. A date is `t / 1440` and a time of day is `t % 1440`. The clock is a parameter `now`.

Modules, one per core file, plus three shared ones:

- `Common`: `Option`.
- `Text`: `IsNullOrWhiteSpace`, ASCII `ToLower`, `Trim`, ordinal string order.
- `Queries`: key lookup, `Where`, `OrderBy` as an insertion sort, removal.
- `Reservations`, `Tables`, `Categories`, `Notifications`, `Users`, `Auth`, `ReservationDetail`, `Register`.

A save's success (`SaveChangesAsync() > 0`) is read as EF Core computes it:

- an added, removed or explicitly `Update`d row is always written, so the answer is true;
- an update through `CurrentValues.SetValues` writes only when some value differs, so reservation, table and category updates answer `stored != incoming`.

## Model

| member | source | states |
|---|---|---|
| Text.Lower | newRestaurant/Services/service/UserService.cs:29-30 | `ToLower` keeps the length and lowers each ASCII letter in place |
| Text.LowerIdempotent | newRestaurant/Services/service/UserService.cs:78 | lowering an already lowered email changes nothing |
| Text.TrimStart | newRestaurant/Services/service/UserService.cs:77-78 | the result is a suffix of the input, everything dropped before it is white space, and it does not start with white space |
| Text.TrimEnd | newRestaurant/Services/service/UserService.cs:77-78 | the result is a prefix of the input, everything dropped after it is white space, and it does not end with white space |
| Text.Trim | newRestaurant/Services/service/UserService.cs:77-78 | the result is the input with a blank prefix and a blank suffix cut off, and neither starts nor ends with white space |
| Text.TrimIdempotent | newRestaurant/Services/service/AuthService.cs:76-77 | trimming a trimmed value changes nothing |
| Text.TrimEmptyIffBlank | newRestaurant/Services/service/AuthService.cs:64 | a value trims to empty exactly when it is blank |
| Text.LexLeTotal | newRestaurant/Services/service/TableService.cs:23 | any two table numbers are comparable in ordinal order |
| Text.LexLeTransitive | newRestaurant/Services/service/TableService.cs:23 | ordinal order is transitive |
| Queries.IndexOfKey | newRestaurant/Services/service/ReservationService.cs:89 | `FindAsync`: the first position holding the key, or none exactly when no row has it |
| Queries.RemoveAt | newRestaurant/Services/service/ReservationService.cs:120 | `Remove`: one row fewer; every other row kept, in order |
| Queries.KeysDistinctAfterRemove | newRestaurant/Services/service/ReservationService.cs:120 | removing a row keeps primary keys distinct |
| Queries.Filter | newRestaurant/Services/service/ReservationService.cs:31 | `Where`: every kept row satisfies the predicate; each satisfying row is kept as often as it is stored; no other row is kept |
| Queries.Insert | newRestaurant/Services/service/ReservationService.cs:26 | inserting into a sorted list keeps it sorted and adds exactly that row |
| Queries.SortBy | newRestaurant/Services/service/ReservationService.cs:26 | `OrderBy`: a sorted permutation of the input, for any total, transitive order |
| Queries.FilterMembership | newRestaurant/ViewModels/RegisterViewModel.cs:52-55 | a value survives `Where` exactly when it is in the input and satisfies the predicate |
| Queries.FilterSorted | newRestaurant/Services/service/ReservationService.cs:31-33 | `Where` then `OrderBy`: exactly the satisfying rows, each as often as stored, sorted |
| Reservations.OverlapIsSharedMinute | newRestaurant/Services/service/ReservationService.cs:54-55 | the two comparisons of the overlap check hold exactly when the two intervals share a minute |
| Reservations.Conflicts | newRestaurant/Services/service/ReservationService.cs:50-55 | a booking conflicts when it is of that table, neither cancelled nor completed, not the excluded id, and starts before the end and ends after the start |
| Reservations.HasOverlap | newRestaurant/Services/service/ReservationService.cs:44-56 | `CheckForOverlapAsync`: some stored booking conflicts |
| Reservations.TouchingIsNoConflict | newRestaurant/Services/service/ReservationService.cs:54-55 | a booking that ends when the new one starts, or starts when it ends, never conflicts |
| Reservations.InactiveOrOtherTableIsNoConflict | newRestaurant/Services/service/ReservationService.cs:50-52 | cancelled or completed bookings, and bookings of another table, never conflict |
| Reservations.AddKeepsNoDoubleBooking | newRestaurant/Services/service/ReservationService.cs:68-75 | adding a booking the overlap check lets through keeps the book free of double bookings |
| Reservations.ExcludeIsRemove | newRestaurant/Services/service/ReservationService.cs:53 | scanning with a stored booking's id excluded equals scanning the book without that booking |
| Reservations.ResaveIsNoOverlap | newRestaurant/Services/service/ReservationService.cs:97 | with the own-id exclusion of line 53, re-saving an active stored booking with its own table and times is never refused by the overlap check |
| Reservations.UpdateKeepsNoDoubleBooking | newRestaurant/Services/service/ReservationService.cs:97-109 | replacing a booking with one the check (excluding its own id) lets through keeps the book free of double bookings |
| Reservations.RemoveKeepsNoDoubleBooking | newRestaurant/Services/service/ReservationService.cs:116-122 | removing a booking keeps the book free of double bookings |
| Reservations.StartsNoEarlierIsPreorder | newRestaurant/Services/service/ReservationService.cs:26 | "starts no earlier" is total and transitive |
| Reservations.NewestFirst | newRestaurant/Services/service/ReservationService.cs:22-27 | every booking, each exactly once, latest start first |
| Reservations.ByUserNewestFirst | newRestaurant/Services/service/ReservationService.cs:29-35 | exactly the user's bookings, each as often as stored, latest start first |
| Reservations.Find | newRestaurant/Services/service/ReservationService.cs:37-41 | the stored booking with this id, or none exactly when no booking has it |
| Reservations.TouchingScenario | newRestaurant/Services/service/ReservationService.cs:54-55 | with [10:00, 11:00) booked, [10:30, 11:30) is refused and [11:00, 12:00) is accepted |
| Reservations.ReservationBook.constructor | newRestaurant/Services/service/ReservationService.cs:17-20 | an empty, valid book |
| Reservations.ReservationBook.AddReservation | newRestaurant/Services/service/ReservationService.cs:58-78 | succeeds exactly when the end is after the start and no active booking of the table overlaps; then appends the booking under a fresh id; otherwise nothing changes; the book stays free of double bookings |
| Reservations.ReservationBook.UpdateReservation | newRestaurant/Services/service/ReservationService.cs:80-114 | refuses a bad interval, an unknown id or an overlap with another active booking, and then nothing changes; otherwise the stored row takes every incoming value and every other row is kept; the answer is whether some value changed |
| Reservations.ReservationBook.DeleteReservation | newRestaurant/Services/service/ReservationService.cs:116-122 | succeeds exactly when the id is stored, and removes exactly that booking |
| Tables.AddKeepsNumbersDistinct | newRestaurant/Services/service/TableService.cs:30-35 | adding a number not taken ignoring case keeps numbers distinct |
| Tables.NumberTaken | newRestaurant/Services/service/TableService.cs:41 | some table other than the excluded id has the number ignoring case (without exclusion, the add check at line 30) |
| Tables.HasUpcomingReservation | newRestaurant/Services/service/TableService.cs:69 | some booking of the table ends after `now` and is neither cancelled nor completed |
| Tables.UpdateKeepsNumbersDistinct | newRestaurant/Services/service/TableService.cs:41-54 | a table may keep its own number, and an edit the check lets through keeps numbers distinct |
| Tables.RemoveKeepsNumbersDistinct | newRestaurant/Services/service/TableService.cs:76 | removing a table keeps numbers distinct |
| Tables.PastOrInactiveNeverBlocks | newRestaurant/Services/service/TableService.cs:69 | bookings that have ended, or are cancelled or completed, never block a delete |
| Tables.DeleteKeepsUpcomingResolved | newRestaurant/Services/service/TableService.cs:69-76 | a delete the guard permits never leaves an upcoming active booking without its table |
| Tables.NumberOrderIsPreorder | newRestaurant/Services/service/TableService.cs:23 | ordering by number is total and transitive |
| Tables.ByNumber | newRestaurant/Services/service/TableService.cs:22-23 | every table, each exactly once, in ordinal number order |
| Tables.Find | newRestaurant/Services/service/TableService.cs:25-26 | the stored table with this id, or none exactly when no table has it |
| Tables.TableRegistry.constructor | newRestaurant/Services/service/TableService.cs:17-20 | an empty, valid registry |
| Tables.TableRegistry.AddTable | newRestaurant/Services/service/TableService.cs:28-37 | succeeds exactly when no table has the number ignoring case; then appends the table under a fresh id; otherwise nothing changes |
| Tables.TableRegistry.UpdateTable | newRestaurant/Services/service/TableService.cs:39-58 | refuses a number another table has ignoring case, or an unknown id, and then nothing changes; otherwise the row takes every incoming value; the answer is whether some value changed; numbers stay distinct |
| Tables.TableRegistry.DeleteTable | newRestaurant/Services/service/TableService.cs:60-80 | succeeds exactly when the id is stored and no active booking of the table ends after `now`; then removes exactly that table |
| Categories.AddKeepsDishesResolved | newRestaurant/Services/service/CategoryService.cs:22-26 | adding a category never strands a dish |
| Categories.HasDishes | newRestaurant/Services/service/CategoryService.cs:40 | some dish belongs to the category |
| Categories.UpdateKeepsDishesResolved | newRestaurant/Services/service/CategoryService.cs:27-33 | an update, which keeps the id, never strands a dish |
| Categories.DeleteKeepsDishesResolved | newRestaurant/Services/service/CategoryService.cs:40-47 | a delete the dish guard permits never leaves a dish without its category |
| Categories.Find | newRestaurant/Services/service/CategoryService.cs:21 | the stored category with this id, or none exactly when no category has it |
| Categories.CategoryRegistry.constructor | newRestaurant/Services/service/CategoryService.cs:15-18 | an empty, valid registry |
| Categories.CategoryRegistry.AddCategory | newRestaurant/Services/service/CategoryService.cs:22-26 | always succeeds, appending the category under a fresh id |
| Categories.CategoryRegistry.UpdateCategory | newRestaurant/Services/service/CategoryService.cs:27-33 | an unknown id changes nothing and fails; otherwise the row takes the incoming values and the answer is whether some value changed |
| Categories.CategoryRegistry.DeleteCategory | newRestaurant/Services/service/CategoryService.cs:34-49 | succeeds exactly when the id is stored and no dish belongs to it; then removes exactly that category; otherwise nothing changes |
| Notifications.SentNoEarlierIsPreorder | newRestaurant/Services/service/NotificationService.cs:56 | "sent no earlier" is total and transitive |
| Notifications.Listing | newRestaurant/Services/service/NotificationService.cs:44-64 | exactly the user's notifications (unread only unless `includeRead`), each as often as stored, newest first |
| Notifications.UnreadCountIsFilterLength | newRestaurant/Services/service/NotificationService.cs:66-78 | the unread count is the number of the user's unread rows |
| Notifications.UnreadCount | newRestaurant/Services/service/NotificationService.cs:66-78 | `GetUnreadNotificationCountAsync`: the number of the user's unread notifications |
| Notifications.ReadFor | newRestaurant/Services/service/NotificationService.cs:115-118 | one row of `MarkAllAsReadAsync`: the user's unread row becomes read, any other is kept |
| Notifications.UnreadCountIsListingLength | newRestaurant/Services/service/NotificationService.cs:70-71 | the unread count is the length of the unread listing |
| Notifications.UnreadCountAppend | newRestaurant/Services/service/NotificationService.cs:28-31 | appending a notification raises its user's unread count by one when it is unread, and leaves every other count alone |
| Notifications.UnreadCountMarkOne | newRestaurant/Services/service/NotificationService.cs:85-92 | marking one unread notification read lowers its user's count by one and leaves every other count alone |
| Notifications.ReadAll | newRestaurant/Services/service/NotificationService.cs:106-119 | same length; each of the user's unread rows is read, every other row is kept |
| Notifications.ReadAllLeavesNothingUnread | newRestaurant/Services/service/NotificationService.cs:106-119 | after marking all read the user has nothing unread |
| Notifications.ReadAllKeepsOthers | newRestaurant/Services/service/NotificationService.cs:106-119 | other users' rows and unread counts are untouched |
| Notifications.ReadAllWithNothingUnread | newRestaurant/Services/service/NotificationService.cs:110-113 | with nothing unread, marking all read changes nothing |
| Notifications.ReadAllIdempotent | newRestaurant/Services/service/NotificationService.cs:106-126 | marking all read twice is marking once |
| Notifications.NotificationLedger.constructor | newRestaurant/Services/service/NotificationService.cs:18-21 | an empty, valid ledger |
| Notifications.NotificationLedger.AddNotification | newRestaurant/Services/service/NotificationService.cs:23-41 | succeeds exactly when the user id is positive and the title is not blank; then appends it under a fresh id, sent at `now` and unread; otherwise nothing changes |
| Notifications.NotificationLedger.MarkAsRead | newRestaurant/Services/service/NotificationService.cs:80-99 | an unknown or already read id fails with nothing changed, so a second call on one id fails; otherwise exactly that row becomes read |
| Notifications.NotificationLedger.MarkAllAsRead | newRestaurant/Services/service/NotificationService.cs:101-133 | always succeeds; the new rows are `ReadAll` of the old ones, one row per loop step; with nothing unread nothing changes |
| Users.Find | newRestaurant/Services/service/UserService.cs:21 | the stored user with this id, or none exactly when no user has it |
| Users.FindByUsername | newRestaurant/Services/service/UserService.cs:23-24 | a stored user whose username matches exactly, or none exactly when no username matches |
| Users.UsernameTaken | newRestaurant/Services/service/UserService.cs:29 | some user other than the excluded id has the username ignoring case |
| Users.EmailTaken | newRestaurant/Services/service/UserService.cs:30 | some user other than the excluded id has the email ignoring case |
| Users.VerifyPassword | newRestaurant/Services/service/UserService.cs:40-46 | `VerifyPasswordAsync`: the user with that exact username exists, has a hash, and `verify` accepts the password |
| Users.AddUserAccepts | newRestaurant/Services/service/UserService.cs:28-30 | the checks of `AddUserAsync`: a non-blank password of at least six characters, and username and email not taken ignoring case |
| Users.EmailExistsForAnotherUser | newRestaurant/Services/service/UserService.cs:91-96 | `DoesEmailExistForAnotherUserAsync`: false for a blank email, otherwise some other user has it ignoring case |
| Users.FindByOwnUsername | newRestaurant/Services/service/UserService.cs:23-24 | with unique logins every stored user is found by its own username |
| Users.VerifiedUserExists | newRestaurant/Services/service/UserService.cs:40-46 | a password verifies only for a username that is stored exactly |
| Users.AddKeepsUniqueLogins | newRestaurant/Services/service/UserService.cs:29-35 | adding a user the checks accept keeps usernames and emails unique ignoring case |
| Users.RegisteredUserCanLogIn | newRestaurant/Services/service/UserService.cs:32-44 | an accepted user is found by its username and verifies with its own password, when `verify` accepts a password against its own non-empty hash |
| Users.OwnEmailNeverClashes | newRestaurant/Services/service/UserService.cs:95 | a user's own email never counts as another user's |
| Users.EmailCheckDecidesEdit | newRestaurant/Services/service/UserService.cs:91-96 | for a stored id with a free username and a non-blank email, the corrected edit is refused exactly when `DoesEmailExistForAnotherUserAsync` reports the stored email form as another user's |
| Users.UpdateAsWritten | newRestaurant/Services/service/UserService.cs:53-88 | the edit as written succeeds exactly for a positive, stored id where a changed username is not another user's ignoring case and a changed email is not another user's ignoring case, both compared untrimmed; on success exactly the row with that id takes the trimmed username and the trimmed, lowered email |
| Users.UpdateAsWrittenBreaksUniqueLogins | newRestaurant/Services/service/UserService.cs:64-78 | with users "bob" and "ann", renaming ann to " bob" passes the check and stores a second "bob" |
| Users.UpdateNormalized | newRestaurant/Services/service/UserService.cs:53-88 | the corrected edit succeeds exactly for a positive, stored id whose trimmed username and trimmed, lowered email no other user has ignoring case; on success exactly the row with that id takes those values |
| Users.UpdateNormalizedKeepsUniqueLogins | newRestaurant/Services/service/UserService.cs:64-78 | the corrected edit keeps usernames and emails unique ignoring case |
| Users.OwnLoginNotTaken | newRestaurant/Services/service/UserService.cs:65-70 | a user's own username and email never count as taken by another user |
| Users.UpdateNormalizedAgreesOnTrimmedInput | newRestaurant/Services/service/UserService.cs:64-78 | on input without surrounding white space, the corrected edit decides exactly as the source does |
| Users.UserRegistry.constructor | newRestaurant/Services/service/UserService.cs:16-19 | an empty, valid store with the given hash and verify functions |
| Users.UserRegistry.AddUser | newRestaurant/Services/service/UserService.cs:26-38 | succeeds exactly when the password is not blank and has at least six characters and neither username nor email is taken ignoring case; then appends the user under a fresh id with the password's hash; otherwise nothing changes |
| Users.UserRegistry.UpdateUser | newRestaurant/Services/service/UserService.cs:53-88 | follows the corrected edit: succeeds exactly for a positive, stored id whose trimmed username and trimmed, lowered email no other user has; then exactly that row takes those values, every other row is kept, and logins stay unique; a refusal changes nothing |
| Auth.AuthSession.constructor | newRestaurant/Services/service/AuthService.cs:17-27 | nobody is logged in |
| Auth.RegistrationAccepted | newRestaurant/Services/service/AuthService.cs:62-92 | when `RegisterAsync` succeeds: no blank field, not Admin, and the store accepts the trimmed, lowered account |
| Auth.AuthSession.IsLoggedIn | newRestaurant/Services/service/AuthService.cs:21 | some user is current |
| Auth.AuthSession.Login | newRestaurant/Services/service/AuthService.cs:29-59 | a blank username or password fails with the session untouched; otherwise success is password verification, the session then holds the user found by that username, and a failed check leaves nobody logged in; success holds exactly when somebody is logged in afterwards |
| Auth.AuthSession.Logout | newRestaurant/Services/service/AuthService.cs:94-102 | nobody is logged in afterwards |
| Auth.AuthSession.Register | newRestaurant/Services/service/AuthService.cs:62-92 | succeeds exactly when no field is blank, the role is not Admin and the store accepts the new account; then the store gains exactly that account; otherwise nothing changes |
| ReservationDetail.DateTimeRoundTrip | newRestaurant/ViewModels/ReservationDetailViewModel.cs:112 | date plus time of day (as line 142 adds them) gives the instant back |
| ReservationDetail.DateOf | newRestaurant/ViewModels/ReservationDetailViewModel.cs:112 | `DateTime.Date` as a day number |
| ReservationDetail.At | newRestaurant/ViewModels/ReservationDetailViewModel.cs:142 | `date + time` in minutes |
| ReservationDetail.LoadedSameDayReservationKeepsTimes | newRestaurant/ViewModels/ReservationDetailViewModel.cs:112 | a booking within one day is saved back with the same start and end after loading |
| ReservationDetail.LoadedOvernightReservationIsRefused | newRestaurant/ViewModels/ReservationDetailViewModel.cs:142-143 | a booking shorter than a day that crosses midnight reloads with its end before its start, so save refuses it |
| ReservationDetail.ManageByRole | newRestaurant/ViewModels/ReservationDetailViewModel.cs:77-84 | nobody without a user; Staff and Admin always; a Customer exactly for a positive owner id equal to their own |
| ReservationDetail.StaffOrAdmin | newRestaurant/ViewModels/ReservationDetailViewModel.cs:77 | the current user exists and is Staff or Admin |
| ReservationDetail.CanManage | newRestaurant/ViewModels/ReservationDetailViewModel.cs:80-87 | nobody without a user; otherwise Staff or Admin, or the positive owner id is the user's |
| ReservationDetail.DefaultsPassTimeChecks | newRestaurant/ViewModels/ReservationDetailViewModel.cs:124 | the new-booking defaults last two hours and start after `now` |
| ReservationDetail.DefaultStart | newRestaurant/ViewModels/ReservationDetailViewModel.cs:124 | tomorrow at 18:00 |
| ReservationDetail.DefaultEnd | newRestaurant/ViewModels/ReservationDetailViewModel.cs:124 | two hours after the default start |
| ReservationDetail.ReservationDetailViewModel.constructor | newRestaurant/ViewModels/ReservationDetailViewModel.cs:18-63 | the initial form (today, now to an hour from now, Pending, no booking); the role flag is taken from the session; nothing is manageable |
| ReservationDetail.ReservationDetailViewModel.SetReservationId | newRestaurant/ViewModels/ReservationDetailViewModel.cs:42-46 | a positive id marks an existing booking and schedules a reload |
| ReservationDetail.ReservationDetailViewModel.UpdateBaseRolePermissions | newRestaurant/ViewModels/ReservationDetailViewModel.cs:74-78 | the role flag is whether the current user is Staff or Admin |
| ReservationDetail.ReservationDetailViewModel.UpdateDetailedPermissions | newRestaurant/ViewModels/ReservationDetailViewModel.cs:80-87 | manageable exactly when there is a current user who has the role flag or owns the booking |
| ReservationDetail.ReservationDetailViewModel.OnCurrentUserChanged | newRestaurant/ViewModels/ReservationDetailViewModel.cs:65-72 | both permission flags follow the new current user |
| ReservationDetail.ReservationDetailViewModel.BeginLoad | newRestaurant/ViewModels/ReservationDetailViewModel.cs:91-100 | a pending load starts busy, with the role flag from the session, no owner, no permission and the tables by number |
| ReservationDetail.ReservationDetailViewModel.LoadExisting | newRestaurant/ViewModels/ReservationDetailViewModel.cs:107-115 | the form shows the stored booking's table, date, times and status; the owner and permissions follow it; the load is done and the form idle |
| ReservationDetail.ReservationDetailViewModel.LoadNew | newRestaurant/ViewModels/ReservationDetailViewModel.cs:118-127 | without a current user nothing changes; otherwise a new booking for that user, on the first listed table, tomorrow from 18:00 to 20:00, Pending, and the load is done exactly when the user may manage it; the form ends idle |
| ReservationDetail.ReservationDetailViewModel.Initialize | newRestaurant/ViewModels/ReservationDetailViewModel.cs:90-132 | nothing happens unless a load is pending and the form is idle; the tables are listed by number; an existing booking is loaded, or nothing when it is gone; a new one needs a current user and gets the defaults; the load counts as done unless it stopped early; the form ends idle |
| ReservationDetail.PlanSave | newRestaurant/ViewModels/ReservationDetailViewModel.cs:138-154 | a save submits exactly when it has permission, a positive owner, a table, an end after its start, a new booking not in the past, and (for a non-Staff edit) a stored booking to take the status from; refusals come in that order; a submitted record carries the id, table, owner, times and the saved status |
| ReservationDetail.SaveOwner | newRestaurant/ViewModels/ReservationDetailViewModel.cs:140 | the stored owner when editing; the current user, or -1 without one, when creating |
| ReservationDetail.StatusOnlyStaffChanges | newRestaurant/ViewModels/ReservationDetailViewModel.cs:154 | for a new booking or a non-Staff editor the chosen status does not affect the save; a submitted record is Pending when new and keeps the stored status when edited |
| ReservationDetail.ReservationDetailViewModel.SubmitRecord | newRestaurant/ViewModels/ReservationDetailViewModel.cs:156-157 | an existing booking is updated, a new one added, exactly as the book does it |
| ReservationDetail.ReservationDetailViewModel.Save | newRestaurant/ViewModels/ReservationDetailViewModel.cs:136-163 | follows `PlanSave`: a refusal leaves the book alone, a submitted record is updated or added with the book's answer as the answer, and the form ends idle after the lookup |
| ReservationDetail.ReservationDetailViewModel.Delete | newRestaurant/ViewModels/ReservationDetailViewModel.cs:167-181 | only with permission on an existing booking and after confirmation; then the book removes it, and the answer is whether it was stored |
| ReservationDetail.Enablement | newRestaurant/ViewModels/ReservationDetailViewModel.cs:134 | save is enabled exactly for a user who may manage while idle; delete (line 165) also needs an existing booking; with nobody logged in neither is enabled |
| ReservationDetail.ReservationDetailViewModel.CanSave | newRestaurant/ViewModels/ReservationDetailViewModel.cs:134 | may manage and idle |
| ReservationDetail.ReservationDetailViewModel.CanDelete | newRestaurant/ViewModels/ReservationDetailViewModel.cs:165 | may manage, an existing booking, and idle |
| Register.AllRolesHoldsEveryRole | newRestaurant/ViewModels/RegisterViewModel.cs:51 | the three-value role list holds every role |
| Register.AvailableRolesExcludeOnlyAdmin | newRestaurant/ViewModels/RegisterViewModel.cs:52-55 | a role is offered exactly when it is not Admin |
| Register.AvailableRoles | newRestaurant/ViewModels/RegisterViewModel.cs:52-55 | the enumeration's values without Admin, in their order |
| Register.FormReady | newRestaurant/ViewModels/RegisterViewModel.cs:61-64 | `CanRegister` without the busy flag: username, email and password not blank, password of at least six characters and equal to its confirmation |
| Register.RegisterViewModel.CanRegister | newRestaurant/ViewModels/RegisterViewModel.cs:60-67 | the form is ready and idle |
| Register.GateLeavesOnlyUniqueness | newRestaurant/ViewModels/RegisterViewModel.cs:60-67 | once the gate is passed with an offered role, registration fails exactly when the username or email is taken ignoring case |
| Register.EnabledRegisterFailsOnlyOnUniqueness | newRestaurant/ViewModels/RegisterViewModel.cs:60-67 | an enabled Register command with an offered role has matching passwords, so it registers, and that fails exactly when the username or email is taken ignoring case |
| Register.RegisterViewModel.constructor | newRestaurant/ViewModels/RegisterViewModel.cs:40-58 | the fields start empty; the offered roles are the enumeration's values without Admin; the default role is Customer and is offered; Admin is not offered |
| Register.RegisterViewModel.Register | newRestaurant/ViewModels/RegisterViewModel.cs:70-115 | mismatched passwords set the error and leave the store alone; otherwise success is the session's registration, a failure sets the error message; the form never stays busy; with the form ready (as the enabled command needs) the answer is the session's registration |

## Left out

- Database and EF Core: the stores are in-memory sequences, and rows are kept in storage order. `Include` is not modelled, and neither are the `User` and `Table` navigation properties or the user name the editor shows (ReservationDetailViewModel.cs:113, 125).
- Success reporting: `SaveChangesAsync() > 0` is read as described above. Exceptions the source catches and turns into `false` are omitted, along with the alert for `DbUpdateException` (TableService.cs:78). The one exception that follows from the data is modelled: `SaveReservationAsync` dereferences a missing stored reservation (ReservationDetailViewModel.cs:154), and that case is the `LookupFailed` outcome.
- Identity: new ids come from `nextId`, standing in for the database's identity column. Any id on an incoming row is ignored by an add.
- Null and empty: `null` is not modelled. A null string is the empty string, and a missing user or reservation is `None`. The null-argument guards (`user == null`, `notification == null`) have nothing to model.
- Strings: `ToLower`, white space and ordering are ASCII and ordinal. Culture-sensitive casing and comparison are not modelled.
- Users.AddUserAccepts, Register.FormReady: a string is a sequence of Unicode scalar values, while C# `Length` counts UTF-16 code units. So the six-character password minimum (UserService.cs:28, RegisterViewModel.cs:63) counts a character outside the Basic Multilingual Plane once where the source counts it twice; three emoji are refused by the model and accepted by the source.
- Ordering: `OrderBy` ties may come out in any order in the source. The model sorts stably by insertion, and its contracts state only that the result is sorted and a permutation.
- Clocks: `DateTime.Now`, `Today` and `UtcNow` are a single parameter `now` in whole minutes.
- BCrypt: `HashPassword` and `Verify` are the functions a `UserRegistry` is built with. Hashing errors are not modelled.
- Async and binding: `async`/`await`, the `PropertyChanged` subscription (it is modelled as the method `OnCurrentUserChanged`), command `CanExecute` notification and `MainThread` are not modelled. The check-then-insert race in the reservation book is a concurrency issue and is not modelled.
- Presentation: alerts, page titles, `Debug`/`Console` output and navigation are not modelled. Because navigation is left out, so is what follows from `GoBackAsync` returning at once while `IsBusy` is set (RegisterViewModel.cs:120 and ReservationDetailViewModel.cs:184): the calls after a successful save, delete or registration (RegisterViewModel.cs:97, ReservationDetailViewModel.cs:158 and 176), and the three in `InitializeAsync` when the booking is not found, may not be managed, or a new booking has no user (ReservationDetailViewModel.cs:116, 121 and 126), are made while busy and do not navigate.
- `RegisterAsync`'s catch-all branch (RegisterViewModel.cs:105-110) is not modelled, since exceptions are omitted.
- `LoginAsync`'s fallback for a verified user who cannot be fetched (AuthService.cs:46-52) cannot run: a verified password implies the user is found. The model has no such branch.
- `ReservationDetailViewModel.Initialize`: the table list is read from the registry in number order. Alerts before leaving early are presentation.
- `GetCategoriesAsync` (CategoryService.cs:20) lists the rows in storage order; it is the `categories` field itself.
- Users.UserRegistry.UpdateUser: it follows the corrected uniqueness check `Users.UpdateNormalized`, not the check as written. The as-written edit is `Users.UpdateAsWritten`; see Findings.
- Register.RegisterViewModel.constructor: `Enum.GetValues(typeof(UserRole))` is the parameter `roles`, required to hold every role; `Register.AllRoles` is such a list. The order of the offered roles is not stated. The `UserRole` model file is not part of this model.
- Cart, statistics, the dish (`Plat`) service, the remaining view-models, the shell, converters and the service interfaces are not part of this model. The Staff-or-Admin rule in the other view-models is the same predicate as `ReservationDetail.StaffOrAdmin`.

## Findings

| source | as written | input that shows it | evidently intended | confidence | as-written member | corrected member |
|---|---|---|---|---|---|---|
| newRestaurant/Services/service/UserService.cs:64-78 | The uniqueness checks compare the incoming username and email before trimming, and only when the value differs from the stored one. The stored values are then trimmed (and the email lowered). | Users 1 "bob" and 2 "ann". Update user 2 to username " bob": " bob" lowered is not "bob", so the check passes, and "bob" is stored twice. | Check the trimmed, lowered values that will be stored against every other user. | not executed | Users.UpdateAsWritten, Users.UpdateAsWrittenBreaksUniqueLogins | Users.UpdateNormalized, Users.UpdateNormalizedKeepsUniqueLogins |
