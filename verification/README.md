# User and role backend of Dotnet10AISamples.Api, in Dafny

This project models the user and role management backend of
`Dotnet10AISamples.Api`:

- the repositories over users, roles and the user-role junction;
- the user, role and authentication services with their result envelopes;
- the paged user listing and its query parameters;
- the entity/DTO mappings;
- the registration and login validators;
- the handler that turns validation failures into a 400 problem response.

The database is replaced by an immutable `Store`. It holds three tables as sequences in storage order. Lookups that the source writes as `FirstOrDefault` return the first match, and `OrderBy` is a stable sort.

The constraints the database enforces on a write are checked by the store and answered with a fault instead of an exception:

- primary keys;
- the unique username and email indexes;
- column widths;
- the IsActive column's default of true;
- for the junction table, a key on the user/role pair and foreign keys to the user and the role.

The schema declares only the Users table (`Data/ApplicationDbContext.cs:20-59`). The junction table's key and its two foreign keys are this model's own assumption, read from the entity class and from the duplicate check in `RoleService.cs`. The assigner column (`AssignedBy`) is stored as given and refers to nothing.

User rows are checked on insert and on update. A soft delete changes only the flag and the timestamp, which no constraint covers.

Each service maps a fault to the 500 failure the source's `catch` block builds.

Each service operation returns its `OperationResult` together with the store it leaves behind (`Reply`). Several things are parameters:

- hashing and password checks (a `Hasher` of two function values);
- token signing (a function of the claim list);
- the clock;
- fresh ids;
- the e-mail format check.

Modules follow the source:

| module | models |
|---|---|
| `Common` | the result envelope |
| `Entities` | the entities and DTOs |
| `Query` | the query parameters |
| `Store` | tables and constraints |
| `Sorting` | the two orderings |
| `Mappings` | the mappings |
| `UserRepository`, `RoleRepository` | the repositories |
| `UserService`, `RoleService`, `AuthService` | the services |
| `Hashing` | the hasher parameter |
| `Validators`, `ValidationHandler` | validation |
| `Scenarios` | properties that span several services |

## Model

All source paths are under `Dotnet10AISamples.Api/`.

| member | source | states |
|---|---|---|
| Common.Data | Dotnet10AISamples.Api/Common/OperationResult.cs:18-22 | A result carries data exactly when it is a success; a failure's `Data` is the default (none) |
| Common.Message | Dotnet10AISamples.Api/Common/OperationResult.cs:18-22 | A success carries no error message; a failure carries exactly the message it was built with |
| Common.FactoryDefaults | Dotnet10AISamples.Api/Common/OperationResult.cs:18-22 | `Success(d)` has code 200 and no message; `Failure()` has message "Operation Failed." and code 400; explicit arguments are stored as given |
| Common.Wrap32 | Dotnet10AISamples.Api/Repositories/UserRepository.cs:41 | C# unchecked `int` arithmetic: the result is congruent to the exact value modulo 2^32 and equals it when it fits |
| Query.SetPageSize | Dotnet10AISamples.Api/DTOs/UserQueryParameters.cs:16-20 | After the setter the size is at most 50; above 50 it becomes exactly 50, anything else (0 and negatives too) is kept; no other parameter changes |
| Query.SetPage | Dotnet10AISamples.Api/DTOs/UserQueryParameters.cs:11 | The page is stored verbatim, with no clamping, and nothing else changes |
| Query.FromRequest | Dotnet10AISamples.Api/DTOs/UserQueryParameters.cs:5-35 | Binding a request gives the page as sent, the size clamped to 50, and the filter fields as sent |
| Query.SetPageSizeIdempotent | Dotnet10AISamples.Api/DTOs/UserQueryParameters.cs:19 | Writing back the size the setter stored changes nothing |
| Query.PageOffsetAsWritten | Dotnet10AISamples.Api/Repositories/UserRepository.cs:41 | The skip count as computed: `(Page - 1) * PageSize` modulo 2^32 |
| Query.OffsetWrapsToFirstPage | Dotnet10AISamples.Api/Repositories/UserRepository.cs:41 | For page 268435457 of size 16 the computed skip is 0, although the intended offset is 2^32 |
| Query.PageOffset | Dotnet10AISamples.Api/Repositories/UserRepository.cs:41 | The intended skip count: non-negative from page 1 on with a non-negative size, and 0 on page 1 |
| Query.OffsetAdvancesByPageSize | Dotnet10AISamples.Api/Repositories/UserRepository.cs:41-42 | Each page starts exactly one page size after the previous page starts |
| Store.InsertUser | Dotnet10AISamples.Api/Data/ApplicationDbContext.cs:20-59 | A user row is refused exactly when its id, username or email is already taken or a column is too wide (40/50/255/255 UTF-16 units). Otherwise it is appended with the column defaults applied, so the new row is active, and nothing else changes |
| Store.WithColumnDefaults | Dotnet10AISamples.Api/Data/ApplicationDbContext.cs:41-43 | The stored row is always active: a `false` flag is the CLR default, so the ORM sends no value and the column default of true applies. Nothing else about the row changes, and an active row is stored as it is |
| Store.InsertUserPreservesWellFormed | Dotnet10AISamples.Api/Data/ApplicationDbContext.cs:52-56 | A saved user insert keeps keys and both unique indexes intact, and keeps every reference resolving |
| Store.InsertUserRole | Dotnet10AISamples.Api/Repositories/RoleRepository.cs:54-55 | A junction row is refused exactly when the pair exists already or its user or role is missing; otherwise it is appended. The assigner is not checked |
| Store.InsertUserRolePreservesWellFormed | Dotnet10AISamples.Api/Repositories/RoleRepository.cs:54-55 | A saved junction insert keeps the invariant and adds exactly its pair to the relation |
| Store.PairsMeansHasPair | Dotnet10AISamples.Api/Repositories/RoleRepository.cs:38-42 | The junction read as a set of pairs holds a pair exactly when some row associates it |
| Store.SameIdentityKeepsWellFormed | Dotnet10AISamples.Api/Data/ApplicationDbContext.cs:20-59 | Rewriting user rows without touching key, username, email or hash, and leaving the other tables alone, keeps keys, indexes, widths and references intact |
| Sorting.SortNewestFirst | Dotnet10AISamples.Api/Repositories/UserRepository.cs:40 | `OrderByDescending(CreatedAt)` gives a permutation of the rows in which creation times never increase |
| Sorting.SortByName | Dotnet10AISamples.Api/Repositories/RoleRepository.cs:75 | `OrderBy(Name)` gives a permutation of the roles in ascending ordinal name order |
| Sorting.NameLeqTotal | Dotnet10AISamples.Api/Repositories/RoleRepository.cs:75 | Any two names are comparable, so the name order is total |
| Sorting.NameLeqTransitive | Dotnet10AISamples.Api/Repositories/RoleRepository.cs:75 | The name order is transitive |
| Mappings.ToDto | Dotnet10AISamples.Api/Mappings/UserMappings.cs:8-19 | The DTO copies id, username, email, flag and both timestamps of its user |
| Mappings.ToDtoHidesOnlyHash | Dotnet10AISamples.Api/Mappings/UserMappings.cs:8-19 | Two users get the same DTO exactly when they differ at most in the password hash, so the hash never shows and nothing else is lost |
| Mappings.ToEntity | Dotnet10AISamples.Api/Mappings/UserMappings.cs:21-33 | A new entity gets a fresh id and the request's username, email and flag; the plaintext password sits in `PasswordHash` |
| Mappings.UpdateEntity | Dotnet10AISamples.Api/Mappings/UserMappings.cs:35-42 | The flag changes only when the request has one; the timestamp is always refreshed; id, username, email, hash and creation time stay |
| Mappings.UpdateEntityIdempotent | Dotnet10AISamples.Api/Mappings/UserMappings.cs:35-42 | Applying an update twice at the same time is one update, and an update without a flag only moves the timestamp |
| UserRepository.GetUserById | Dotnet10AISamples.Api/Repositories/UserRepository.cs:48-51 | The key lookup finds a row with that id, whatever its flag, and finds none exactly when no row has it |
| UserRepository.UserExists | Dotnet10AISamples.Api/Repositories/UserRepository.cs:91-94 | True exactly when some row, active or not, has the id; agrees with the key lookup |
| UserRepository.GetUserByUsername | Dotnet10AISamples.Api/Repositories/UserRepository.cs:53-57 | Finds a row whose username equals the name ignoring case, and none exactly when no row does |
| UserRepository.GetUserByEmail | Dotnet10AISamples.Api/Repositories/UserRepository.cs:59-63 | Finds a row whose email equals the address ignoring case, and none exactly when no row does |
| UserRepository.GetActiveUserById | Dotnet10AISamples.Api/Services/AuthService.cs:144 | Finds an active row with that id, and none exactly when there is no such row |
| UserRepository.ActiveUserByIdFindsRow | Dotnet10AISamples.Api/Services/AuthService.cs:144 | With unique keys, an active user is found under its own id and no other row is returned |
| UserRepository.GetActiveUserByEmail | Dotnet10AISamples.Api/Services/AuthService.cs:48 | Finds an active row whose email equals the address ignoring case, and none exactly when there is no such row |
| UserRepository.CreateUser | Dotnet10AISamples.Api/Repositories/UserRepository.cs:65-70 | A saved insert adds one row and makes the user findable under its id, as the stored row with the column defaults applied (so active); it faults exactly on a key, index or width violation |
| UserRepository.UpdateUser | Dotnet10AISamples.Api/Repositories/UserRepository.cs:72-77 | The write faults exactly when no row has the user's id, or the new row would share its username or email with a row under another id, or a column is too wide. Otherwise the row under the user's key is replaced, and other rows and tables stay |
| UserRepository.DeleteUser | Dotnet10AISamples.Api/Repositories/UserRepository.cs:79-89 | An absent id changes nothing; otherwise the row stays, inactive with a fresh timestamp, and every other row and table is unchanged |
| UserRepository.DeleteUserDeactivatesRow | Dotnet10AISamples.Api/Repositories/UserRepository.cs:79-89 | With unique keys, a soft delete changes exactly the row holding the id, to inactive with the new timestamp |
| UserRepository.DeletedEmailHasNoActiveUser | Dotnet10AISamples.Api/Repositories/UserRepository.cs:79-89 | With emails unique ignoring case, no active row answers to a deleted user's email afterwards |
| UserRepository.DeleteUserPreservesWellFormed | Dotnet10AISamples.Api/Repositories/UserRepository.cs:79-89 | A soft delete keeps keys, indexes, widths and references intact |
| UserRepository.FilterUsers | Dotnet10AISamples.Api/Repositories/UserRepository.cs:22-33 | A row qualifies exactly when it passes the flag filter (if enabled) and, for a non-blank search, the search occurs in the lower-cased username or email. The result holds each qualifying row as many times as the table does, and nothing else |
| UserRepository.Window | Dotnet10AISamples.Api/Repositories/UserRepository.cs:41-42 | `Skip(o).Take(n)` yields at most n consecutive rows starting at o, with the exact length when rows run out, and nothing past the end |
| UserRepository.WindowKeepsOrder | Dotnet10AISamples.Api/Repositories/UserRepository.cs:40-42 | A window of a newest-first list is newest first and drawn from the list |
| UserRepository.Ordered | Dotnet10AISamples.Api/Repositories/UserRepository.cs:22-40 | The rows that qualify, newest first: a row is listed exactly when it is stored and qualifies, and the list is a permutation of the filtered rows |
| UserRepository.GetPaginatedUsers | Dotnet10AISamples.Api/Repositories/UserRepository.cs:17-46 | The total is the number of rows that qualify, counted with repetition (the length of the filtered rows); the page has at most `PageSize` (at most 50) items, all qualifying, newest first, and they are the qualifying rows starting at the page offset |
| UserRepository.TotalCountIgnoresPaging | Dotnet10AISamples.Api/Repositories/UserRepository.cs:35-36 | The total depends only on the filter, never on the page or page size asked for |
| UserRepository.RowOnItsPage | Dotnet10AISamples.Api/Repositories/UserRepository.cs:39-43 | With a positive page size, each qualifying row inside a page's window is on that page, at its position minus the offset |
| UserRepository.RowOnExactlyOnePage | Dotnet10AISamples.Api/Repositories/UserRepository.cs:41-42 | Row i falls in the window of page i / size + 1 and of no other page, so the pages partition the rows |
| UserRepository.GetPaginatedUsersAsWritten | Dotnet10AISamples.Api/Repositories/UserRepository.cs:17-46 | The listing with the offset computed in wrapping 32-bit arithmetic: the same total, with the window taken at the wrapped offset |
| UserRepository.FarPageRepeatsFirstPage | Dotnet10AISamples.Api/Repositories/UserRepository.cs:41 | As written, page 268435457 of size 16 returns the first page, while the intended page is empty |
| RoleRepository.RoleById | Dotnet10AISamples.Api/Services/RoleService.cs:51 | The key lookup finds a role with that id, and none exactly when no role has it |
| RoleRepository.RoleByIdFindsRow | Dotnet10AISamples.Api/Services/RoleService.cs:51 | With unique role keys, every role is found under its own id |
| RoleRepository.JoinRoles | Dotnet10AISamples.Api/Repositories/RoleRepository.cs:21-25 | Every role joined for a user is a stored role that one of the user's junction rows points at |
| RoleRepository.JoinRolesComplete | Dotnet10AISamples.Api/Repositories/RoleRepository.cs:21-25 | With unique role keys, every role a junction row of the user points at is joined |
| RoleRepository.GetUserRoles | Dotnet10AISamples.Api/Repositories/RoleRepository.cs:19-26 | Only stored roles associated with the user are returned, and the list is no longer than the junction table |
| RoleRepository.GetUserRolesExact | Dotnet10AISamples.Api/Repositories/RoleRepository.cs:19-26 | In a well-formed store, a role is listed for a user exactly when the pair is associated, and then exactly once |
| RoleRepository.JoinOnce | Dotnet10AISamples.Api/Repositories/RoleRepository.cs:21-25 | Without a repeated user/role pair in the junction, no role is joined twice for a user |
| RoleRepository.UserExists | Dotnet10AISamples.Api/Repositories/RoleRepository.cs:28-31 | True exactly when some user has the id; agrees with the user repository's check |
| RoleRepository.RoleExists | Dotnet10AISamples.Api/Repositories/RoleRepository.cs:33-36 | True exactly when some role has the id; agrees with the key lookup |
| RoleRepository.PairIndex | Dotnet10AISamples.Api/Repositories/RoleRepository.cs:60-61 | Finds the first junction row holding the pair, and none exactly when no row holds it |
| RoleRepository.UserHasRole | Dotnet10AISamples.Api/Repositories/RoleRepository.cs:38-42 | True exactly when the pair is associated, i.e. when it is in the relation read as a set |
| RoleRepository.AssignRoleToUser | Dotnet10AISamples.Api/Repositories/RoleRepository.cs:44-56 | Performs no check of its own: a repeated pair or an unknown user or role is a database fault, and the assigner is stored unchecked. On save it writes one row with the assigner and time, and the relation gains exactly the pair |
| RoleRepository.RemoveRoleFromUser | Dotnet10AISamples.Api/Repositories/RoleRepository.cs:58-70 | An absent pair gives 0 and changes nothing; otherwise the first row holding the pair is cut out, 1 is reported, and users and roles stay |
| RoleRepository.RemoveRowDropsPair | Dotnet10AISamples.Api/Repositories/RoleRepository.cs:68-69 | In a junction without repeated pairs, cutting out one row keeps it free of repeats and loses exactly that row's pair |
| RoleRepository.CutRowKeepsWellFormed | Dotnet10AISamples.Api/Repositories/RoleRepository.cs:68-69 | Cutting one junction row out of a well-formed store keeps the invariant and removes exactly that row's pair from the relation |
| RoleRepository.RemoveRoleFromUserExact | Dotnet10AISamples.Api/Repositories/RoleRepository.cs:58-70 | Removal keeps the invariant, and the relation loses exactly the named pair while all other pairs stay |
| RoleRepository.GetAllRoles | Dotnet10AISamples.Api/Repositories/RoleRepository.cs:72-77 | The stored roles, each as often as stored, in ascending name order |
| RoleRepository.GetRoleByName | Dotnet10AISamples.Api/Repositories/RoleRepository.cs:79-83 | The first role whose name equals the argument exactly, and none exactly when no role has that name |
| UserService.ToDtos | Dotnet10AISamples.Api/Services/UserService.cs:27 | The items are projected one to one, in order |
| UserService.GetUsers | Dotnet10AISamples.Api/Services/UserService.cs:19-40 | Succeeds with 200; echoes page and page size; the total is the filtered count; the items are the repository page's users as DTOs, in order |
| UserService.GetUserById | Dotnet10AISamples.Api/Services/UserService.cs:42-59 | A 404 "找不到使用者" exactly when no user has the id; otherwise 200 with that user's DTO |
| UserService.NewUser | Dotnet10AISamples.Api/Services/UserService.cs:79-84 | The stored row holds the hash of the password, not the plaintext, under the fresh id with the request's fields |
| UserService.Create | Dotnet10AISamples.Api/Services/UserService.cs:61-97 | A username taken ignoring case gives 409, checked before the email; then a taken email gives 409; a refused write gives 500. Every failure leaves the store unchanged. Success happens exactly when nothing clashes; it returns 201, appends exactly the hashed row with the column defaults applied, and returns that row's DTO, which is always active |
| UserService.Update | Dotnet10AISamples.Api/Services/UserService.cs:99-122 | An unknown id gives 404 and changes nothing. For a known id, the write is refused, giving 500 and no change, exactly when the existing row already breaks an index or a width. On success it gives 200, and the row gets the new flag (if given) and timestamp. Every other row and table is unchanged, and no row's identity fields change |
| UserService.UpdateOfExistingUserSucceeds | Dotnet10AISamples.Api/Services/UserService.cs:99-116 | In a store that keeps the schema invariant, updating a user that exists always succeeds |
| UserService.Delete | Dotnet10AISamples.Api/Services/UserService.cs:124-145 | An unknown id gives 404. Otherwise success, even for an inactive user: the row stays, becomes inactive with a fresh timestamp, and nothing else changes |
| UserService.CreateKeepsUniqueIgnoringCase | Dotnet10AISamples.Api/Services/UserService.cs:66-77 | Because of the two case-insensitive checks, usernames and emails stay unique ignoring case. In this model the store's own index compares exactly, so the checks are what keep the case-insensitive property |
| UserService.SameIdentityKeepsUniqueness | Dotnet10AISamples.Api/Mappings/UserMappings.cs:35-42 | Rewriting rows without touching key, username or email preserves both kinds of uniqueness |
| UserService.WritesKeepInvariants | Dotnet10AISamples.Api/Services/UserService.cs:61-145 | Create, update and delete each keep the schema invariant and case-insensitive uniqueness |
| UserService.UpdateKeepsWellFormed | Dotnet10AISamples.Api/Services/UserService.cs:99-122 | An update keeps keys, widths and references intact |
| RoleService.GetUserRoles | Dotnet10AISamples.Api/Services/RoleService.cs:21-37 | Always succeeds with 200, listing only roles associated with the user |
| RoleService.Assign | Dotnet10AISamples.Api/Services/RoleService.cs:39-84 | Checks in order: unknown user 404, unknown role 404, existing pair 409; a refused write would give 500 with the prefixed fault message. Every failure leaves the store unchanged. Success happens exactly when the user and the role exist and the pair is new, whoever the assigner is; it appends one row, and the relation gains exactly the pair |
| RoleService.Remove | Dotnet10AISamples.Api/Services/RoleService.cs:86-107 | An absent pair gives 404 and changes nothing; a present pair is removed with success, one row fewer, and users and roles unchanged |
| RoleService.GetAllRoles | Dotnet10AISamples.Api/Services/RoleService.cs:109-123 | Succeeds with 200 and the stored roles, each as often as stored, in ascending name order |
| RoleService.GetRoleByName | Dotnet10AISamples.Api/Services/RoleService.cs:125-143 | A 404 "角色不存在" exactly when no role has the exact name; otherwise 200 with such a role |
| RoleService.AssignKeepsWellFormed | Dotnet10AISamples.Api/Services/RoleService.cs:39-84 | Assignment keeps the schema invariant |
| RoleService.RemoveKeepsWellFormed | Dotnet10AISamples.Api/Services/RoleService.cs:86-107 | Removal keeps the invariant and takes exactly the named pair out of the relation |
| RoleService.AssignTwiceConflicts | Dotnet10AISamples.Api/Services/RoleService.cs:58-78 | Assigning the same pair right after a successful assignment gives 409 and changes nothing |
| RoleService.RemoveTwiceNotFound | Dotnet10AISamples.Api/Services/RoleService.cs:90-101 | Removing a present pair succeeds; removing it again gives 404 |
| RoleService.AssignThenRemoveRestoresPairs | Dotnet10AISamples.Api/Services/RoleService.cs:39-107 | A successful assignment followed by removal of the same pair restores the relation |
| AuthService.RoleClaims | Dotnet10AISamples.Api/Services/AuthService.cs:106-112 | One role claim per role, carrying its name, in order |
| AuthService.BuildClaims | Dotnet10AISamples.Api/Services/AuthService.cs:95-112 | The claim list is subject = id, email, token id, name identifier = id, then one role claim per role; with null roles there are exactly the four base claims |
| AuthService.FindFirst | Dotnet10AISamples.Api/Services/AuthService.cs:138 | Finds the value of the first claim of the type, and none exactly when no claim has it |
| AuthService.RolesOfRoleClaims | Dotnet10AISamples.Api/Services/AuthService.cs:106-112 | Reading the role claims back gives the role names in order |
| AuthService.ClaimsDecode | Dotnet10AISamples.Api/Services/AuthService.cs:95-112 | The claim list decodes to the user's id (name identifier and subject), its email, and exactly its role names in order |
| AuthService.ToRoleDtos | Dotnet10AISamples.Api/Services/AuthService.cs:72-77 | The roles are projected one to one, in order, keeping id, name and description |
| AuthService.Authenticate | Dotnet10AISamples.Api/Services/AuthService.cs:43-93 | No active user for the email, or a wrong password, gives 401 "無效的憑證"; a hasher fault gives 500 with the prefixed message. On success the token signs the user's claims, the user info has the user's id, email and roles in order, and expiry is `now` plus the configured hours |
| AuthService.CredentialRefusalsIndistinguishable | Dotnet10AISamples.Api/Services/AuthService.cs:48-59 | Any two 401 answers are the same value, so an unknown email cannot be told from a wrong password |
| AuthService.SoundHasherAdmitsOwner | Dotnet10AISamples.Api/Services/AuthService.cs:48-87 | With a hasher that accepts its own hashes and emails unique ignoring case, an active user presenting its password is let in as itself |
| AuthService.GetCurrentUser | Dotnet10AISamples.Api/Services/AuthService.cs:128-157 | Checks in order: not authenticated 401, a missing or empty name identifier 401, no active user with that id 404; otherwise 200 with an active user having that id |
| AuthService.IssuedClaimsResolveToUser | Dotnet10AISamples.Api/Services/AuthService.cs:95-151 | In a store with unique keys, a request carrying the claims issued to an active user resolves to exactly that user |
| Validators.Check | Dotnet10AISamples.Api/Validators/CreateUserDtoValidator.cs:10-24 | A rule adds nothing when it holds, and exactly one failure with its property and message when it does not |
| Validators.UsernameErrorsWith | Dotnet10AISamples.Api/Validators/CreateUserDtoValidator.cs:10-13 | Each username message appears exactly when its rule fails (required, 3 to 50 UTF-16 units, pattern); no failures exactly when all hold |
| Validators.EmailErrors | Dotnet10AISamples.Api/Validators/CreateUserDtoValidator.cs:15-17 | Each email message appears exactly when its rule fails; no failures exactly when the email is non-blank and well formed |
| Validators.PasswordErrors | Dotnet10AISamples.Api/Validators/CreateUserDtoValidator.cs:19-24 | Each password message appears exactly when its rule fails (required, at least 8, a lower-case letter, an upper-case letter, a digit) |
| Validators.ValidateCreate | Dotnet10AISamples.Api/Validators/CreateUserDtoValidator.cs:8-25 | A registration has no failures exactly when every rule holds, with the username pattern meaning word characters only |
| Validators.ValidateCreateAsWritten | Dotnet10AISamples.Api/Validators/CreateUserDtoValidator.cs:8-25 | The same validator, with the pattern as the .NET regex engine reads it |
| Validators.TrailingLineFeedSlipsThrough | Dotnet10AISamples.Api/Validators/CreateUserDtoValidator.cs:13 | As written, username "abc\n" passes the whole registration; the intended pattern refuses it with the characters message only |
| Validators.UsernamePatternCorrected | Dotnet10AISamples.Api/Validators/CreateUserDtoValidator.cs:13 | The intended pattern is stricter than the written one and differs only by a trailing line feed; an accepted name has no line feed |
| Validators.LoginEmailErrors | Dotnet10AISamples.Api/Validators/LoginRequestDtoValidator.cs:13-16 | The login email has no failures exactly when it is non-blank, well formed and at most 256 UTF-16 units; the length message appears exactly when it is longer |
| Validators.LoginPasswordErrors | Dotnet10AISamples.Api/Validators/LoginRequestDtoValidator.cs:18-20 | The login password has no failures exactly when it is non-blank and at least 6 UTF-16 units long |
| Validators.ValidateLogin | Dotnet10AISamples.Api/Validators/LoginRequestDtoValidator.cs:11-21 | A login request has no failures exactly when every login rule holds |
| Validators.CreatePasswordPassesLogin | Dotnet10AISamples.Api/Validators/LoginRequestDtoValidator.cs:18-20 | Every password registration accepts also passes the login password rules |
| Validators.LoginNeedsNoCharacterClasses | Dotnet10AISamples.Api/Validators/LoginRequestDtoValidator.cs:18-20 | "abcdef" passes login but fails registration on length, upper case and digit, so login demands no character classes |
| ValidationHandler.Groups | Dotnet10AISamples.Api/Middlewares/ValidationExceptionHandler.cs:29-31 | `GroupBy(PropertyName)`: one group per property name that occurs, no name twice, each holding exactly that name's messages in order |
| ValidationHandler.GroupsPartitionMessages | Dotnet10AISamples.Api/Middlewares/ValidationExceptionHandler.cs:29-34 | The groups together hold every failure message exactly as often as it occurs |
| ValidationHandler.ToDictionary | Dotnet10AISamples.Api/Middlewares/ValidationExceptionHandler.cs:31-34 | The dictionary is built exactly when no two lower-cased keys collide; its keys are the lower-cased group names, each mapped to its group's messages |
| ValidationHandler.GroupKeysCollideIffNamesDo | Dotnet10AISamples.Api/Middlewares/ValidationExceptionHandler.cs:29-34 | Two groups' lower-cased keys collide exactly when two property names differ only in case |
| ValidationHandler.GroupKeysAreNames | Dotnet10AISamples.Api/Middlewares/ValidationExceptionHandler.cs:29-34 | The dictionary's keys are exactly the lower-cased property names of the failures |
| ValidationHandler.Handle | Dotnet10AISamples.Api/Middlewares/ValidationExceptionHandler.cs:9-37 | Declines exactly the non-validation exceptions. For a validation exception it throws exactly when two names differ only in case; otherwise it writes status 400 with the fixed title, keyed by lower-cased name with each name's messages in order, and reports what the writer reports |
| Scenarios.RegisteredUserCanLogIn | Dotnet10AISamples.Api/Services/UserService.cs:61-97 | With a hasher that accepts its own hashes, an account just registered logs in with its password and the response names it. This holds whatever flag the request asked for, because the column default stores the row active |
| Scenarios.LoginClaimsResolveToUser | Dotnet10AISamples.Api/Services/AuthService.cs:43-157 | When an active account holds the email and the password verifies, login succeeds and the claims signed into its token resolve back to that account |
| Scenarios.DeletedUserCannotLogIn | Dotnet10AISamples.Api/Repositories/UserRepository.cs:79-89 | After a soft delete, logging in with the account's email is refused with the same 401 as unknown credentials, whatever the password |

## Left out

- Persistence: EF Core, SQL translation, collations and `SaveChangesAsync` are replaced by the functional store. Skip and take follow LINQ-to-objects semantics. SQL Server would reject a negative OFFSET or a non-positive FETCH instead of returning an empty page.
- Text.Lower: lower-cases ASCII letters only. Culture-sensitive `ToLower` and `ToLowerInvariant` on other scripts are not modelled, so case-insensitive comparisons are exact outside ASCII.
- Hashing: BCrypt's salting and cost are not modelled. `Hash` and `Verify` are function parameters. `SoundHasher` is the only property assumed of them, and only where stated.
- Token signing: JWT encoding, HMAC-SHA256, issuer and audience are out. The token is an arbitrary function of the claim list. `JwtSettings` is not part of this model, and the expiry is an integer count of hours.
- Clock and ids: `DateTime.UtcNow` and `Guid.NewGuid` are parameters. Separate clock readings are separate parameters, so creation and update times are never assumed equal.
- Concurrency: async execution and races between the existence checks and the writes are not modelled; every operation is atomic.
- Sorting.SortByName: names are compared by character code, not by the database collation or the current culture.
- Sorting.SortNewestFirst: rows with equal creation times keep storage order. The database guarantees no particular order among ties.
- UserRepository.GetActiveUserByEmail: the repository declares this lookup but does not implement it. The model assumes it is the first active row whose email matches ignoring case.
- UserRepository.GetActiveUserById: likewise assumed to be the first active row with the id.
- Null strings are not modelled. A null search is `None`; a null email, password or username cannot be passed.
- UserService.GetUsers: its 500 branch is not modelled, because a read cannot fault in the model. The same goes for `UserService.GetUserById`, `RoleService.GetUserRoles`, `RoleService.GetAllRoles`, `RoleService.GetRoleByName` and `AuthService.GetCurrentUser`.
- RoleService.Assign: its 500 branch is modelled but cannot be reached. After the three checks, none of the modelled constraints refuses the row.
- RoleService.Remove: its 500 branch is not modelled; removal of a present row cannot fault in the model.
- UserService.Update: its 500 branch needs a stored row that already breaks an index or a width. A real database cannot hold such a row, and a well-formed store rules it out.
- AuthService.GetCurrentUser: takes the request's principal as a parameter. The framework's inbound mapping from JWT claim names to claim types is not modelled.
- ValidationHandler.Handle: the dictionary's enumeration order and the JSON shape of the response are not modelled. The problem-details writer's answer is a parameter.
- Validators.EmailErrors: the `EmailAddress()` format rule lives in FluentValidation, which is not part of this model, so it is a predicate parameter.
- Store.WellFormed does not require role names to be unique. The schema in the repository declares no such index, and `GetRoleByName` returns the first match.
- Cascade deletes are not modelled: users are only soft-deleted, and roles are never deleted.
- Store.InsertUserRole: `ApplicationDbContext.cs` declares only the Users table, so the junction table's key and foreign keys are not in the source. The model assumes a key on the user/role pair and foreign keys to the user and the role. It gives `AssignedBy` no foreign key, since the `AssignedByUser` navigation would get a separate key column by convention.
- Store.Clashes and Store.ClashesWithOthers compare usernames and emails exactly. The database's collation, which may compare ignoring case, is not modelled.
- `UserService.cs:23` calls `GetAllUsersAsync`, but only `GetPaginatedUsersAsync` is defined (`UserRepository.cs:17`). The model wires the listing to the paged query.
- The AGUI project, controllers, dependency injection, `GlobalExceptionHandler` and the DTO classes are framework plumbing with no logic beyond forwarding `result.Code`.

## Findings

| source | as written | input that shows it | evidently intended | confidence | as-written member | corrected member |
|---|---|---|---|---|---|---|
| Dotnet10AISamples.Api/Repositories/UserRepository.cs:41 | `(parameters.Page - 1) * parameters.PageSize` is unchecked `int` arithmetic and wraps modulo 2^32 | Page = 268435457, PageSize = 16: the offset wraps to 0 | Skip (Page - 1) * PageSize rows, so a page past the end is empty | not executed; the wrap is certain for C# `int`, and whether the query then returns page 1 depends on EF parameter evaluation | UserRepository.FarPageRepeatsFirstPage | UserRepository.GetPaginatedUsers |
| Dotnet10AISamples.Api/Validators/CreateUserDtoValidator.cs:13 | `Matches("^[a-zA-Z0-9_]+$")` without options; .NET's `$` also matches before a final line feed | Username "abc\n" (with valid email and "Passw0rd") passes registration | Letters, digits and underscore only | not executed; follows documented .NET regex semantics | Validators.TrailingLineFeedSlipsThrough | Validators.ValidateCreate |
