# ldap-admin-web: a Dafny model of its directory logic

ldap-admin-web is an Express application for administering an LDAP
directory (users, groups, departments), with a browser front end. Under its
I/O sits a layer of sequential logic: it decides which requests to send to
the directory, maps errors to HTTP answers, derives roles, and validates and
formats form input and distinguished names (DNs). This project models that
layer and proves what it promises. There is one module per source file, plus
a few shared ones.

- `JsText`, `JsValues`, `Patterns`, `CheckList`: the JavaScript the code
  relies on.
  - `JsText` covers `trim`, `split`, `join`, `includes`, ASCII `toLowerCase`
    and character classes.
  - `JsValues` covers truthiness, form and attribute values, and objects as
    ordered key/value lists with property assignment.
  - `Patterns` holds the regular expressions, written as predicates over
    characters. The email, DN and password-complexity patterns appear here.
  - `CheckList` models the "push an error when a check fails" lists.
- `Directory`: the add, modify and delete requests the service sends, the
  change semantics of section 4.6 of RFC 4511 and the delete semantics of
  section 4.8 of RFC 4511. These semantics serve as the
  reference that the builders are checked against.
- `LdapConnection` (`ldapService.js`): the reconnect bookkeeping. It is a
  `Connection` class whose event methods update `connected` and the attempt
  counter.
- `LdapService` and `LdapStats` (`ldapService.js`):
  - the bind DN for a login;
  - the change lists and entries of user and group creation and update;
  - group membership changes;
  - the department statistics and department list, computed by loops over
    the search results.
- `Dashboard` (`routes/dashboard.js`):
  - the search filter and the pagination;
  - `validateUserData`;
  - the new user's DN and attributes;
  - the edit updates;
  - the member count;
  - the group create and edit attributes.
- `ErrorMiddleware`, `AuthMiddleware`, `SecurityMiddleware`
  (`middleware/*.js`):
  - LDAP result codes and error names mapped to statuses and messages;
  - roles and sessions;
  - the DN check, the sanitiser, the input checks, the CSRF and content-type
    checks, and the suspicious-activity scan.
- `Validations`, `LdapUtils`, `AdminUtils` (`public/js/*.js`): the browser
  side.
  - `Validations` holds the rule-driven `FormValidator` class and the
    username, phone and DN predicates.
  - `LdapUtils` holds the DN display helpers.
  - `AdminUtils` holds the admin page's DN and email checks and its icons.
- `Agreement`: where the server and browser checks agree and where they
  differ. Examples are usernames with `.`, the two password minimums, and
  DNs with `<` or with a space after a comma. It also proves that what the
  pages extract from a DN the server created gives back the name and unit
  it was created with.

The source files cited below are under `ldap-admin-web/`.

## Model

| member | source | states |
|---|---|---|
| LdapConnection.ErrorActionFor | ldap-admin-web/src/services/ldapService.js:36-42 | the error handler retries exactly while fewer than five attempts have been made, and rejects otherwise |
| LdapConnection.Step | ldap-admin-web/src/services/ldapService.js:25-48 | no event raises the counter past five; only `connect` lowers it; only `error` raises it, by one; `error` and `close` leave the client disconnected |
| LdapConnection.RunBounded | ldap-admin-web/src/services/ldapService.js:36-37 | from any state within the bound, no sequence of events takes the attempt counter above five |
| LdapConnection.Errors | ldap-admin-web/src/services/ldapService.js:32 | a run of `n` error events (helper for the lemmas below) |
| LdapConnection.ErrorsAfterConnect | ldap-admin-web/src/services/ldapService.js:27-42 | after a connect, `n <= 5` errors in a row leave the counter at `n`; the first five are retried, the sixth is rejected |
| LdapConnection.ErrorsFrom | ldap-admin-web/src/services/ldapService.js:36-37 | each error below the limit adds exactly one attempt |
| LdapConnection.ErrorsAtLimit | ldap-admin-web/src/services/ldapService.js:36-42 | once five attempts are made, every further error is rejected and the counter stays at five |
| LdapConnection.Connection.constructor | ldap-admin-web/src/services/ldapService.js:7-12 | a new service has no client, is not connected and has made no attempt |
| LdapConnection.Connection.CreateClient | ldap-admin-web/src/services/ldapService.js:18-22 | `createConnection` stores a new client; the new state is the `Create` step |
| LdapConnection.Connection.OnConnect | ldap-admin-web/src/services/ldapService.js:25-30 | the connect handler sets `connected` and resets the counter, as the `Connect` step |
| LdapConnection.Connection.OnError | ldap-admin-web/src/services/ldapService.js:32-43 | the error handler clears `connected`, retries (counting the attempt) below five and rejects at five |
| LdapConnection.Connection.OnClose | ldap-admin-web/src/services/ldapService.js:45-48 | the close handler clears `connected` and nothing else |
| LdapConnection.Connection.Disconnect | ldap-admin-web/src/services/ldapService.js:434-441 | `disconnect` forgets the client and clears `connected` only when a client exists |
| LdapConnection.Connection.GetClient | ldap-admin-web/src/services/ldapService.js:58-63 | a new connection is created exactly when there is no client or it is not connected; otherwise nothing changes |
| LdapService.BindDNAdminIff | ldap-admin-web/src/services/ldapService.js:88-93 | the bind DN is the administrator's DN exactly when the user name is `admin` |
| LdapService.BindDNInjective | ldap-admin-web/src/services/ldapService.js:88-93 | different user names bind with different DNs |
| LdapService.AuthenticateUser | ldap-admin-web/src/services/ldapService.js:83-110 | success exactly when a client is obtained and the bind with the chosen DN succeeds; success returns that DN; a failed bind or connection is returned with its message, never thrown |
| LdapService.CreateUserEntry | ldap-admin-web/src/services/ldapService.js:490-496 | `createUser` adds at the given DN an entry with exactly the given keys and values |
| LdapService.GroupMember | ldap-admin-web/src/services/ldapService.js:584 | the member of a new group is always truthy: the given one when truthy, else the administrator |
| LdapService.CreateGroupEntry | ldap-admin-web/src/services/ldapService.js:580-585 | `objectClass` is the first key and is the caller's when given, else `['groupOfNames','top']`; `member` is the caller's when truthy, else the administrator's DN; every other key carries the caller's value; keys stay distinct |
| LdapService.CreateGroupSchemaOk | ldap-admin-web/src/services/ldapService.js:580-585 | with the default object classes and a member that is not an empty array, the stored group satisfies `groupOfNames` (section 3.5 of RFC 4519) |
| LdapService.CreateGroupEmptyMember | ldap-admin-web/src/services/ldapService.js:584 | an empty `member` array is truthy, so it is kept, and the stored group then breaks `groupOfNames` |
| LdapService.BuildReplaceChanges | ldap-admin-web/src/services/ldapService.js:520-530 | the change-collecting loop of `updateUser`/`updateGroup` produces exactly the reference change list |
| LdapService.UpdateUser | ldap-admin-web/src/services/ldapService.js:516-537 | a modify with the replace changes, or no request at all when there are none |
| LdapService.UpdateGroup | ldap-admin-web/src/services/ldapService.js:648-669 | as `updateUser`, with `member` always skipped |
| LdapService.ReplaceChangesSound | ldap-admin-web/src/services/ldapService.js:521-528 | every change is a `replace` of a defined, non-skipped key with that key's values (array kept, scalar wrapped) |
| LdapService.ReplaceChangesComplete | ldap-admin-web/src/services/ldapService.js:521-528 | every defined, non-skipped key of the update has its `replace` change |
| LdapService.ReplaceChangesOrdered | ldap-admin-web/src/services/ldapService.js:521 | the changes follow the key order of the update |
| LdapService.ReplaceChangesEmpty | ldap-admin-web/src/services/ldapService.js:532-534 | there is no change exactly when every key is undefined or skipped |
| LdapService.UpdateApplied | ldap-admin-web/src/services/ldapService.js:520-537 | applied by the directory (section 4.6 of RFC 4511), an update never fails; each set key gets its new values (removed when they are an empty array) and every other attribute is unchanged |
| LdapService.UniqueInit | ldap-admin-web/src/services/ldapService.js:521 | an object without its last entry keeps distinct keys and lacks the last key (helper of `UpdateApplied`) |
| LdapService.ApplyAllAppend | ldap-admin-web/src/services/ldapService.js:537 | the changes of one modify are applied in order, one after another |
| LdapService.UpdateGroupKeepsMembers | ldap-admin-web/src/services/ldapService.js:654 | a group update never changes the group's members |
| LdapService.MembershipRoundTrip | ldap-admin-web/src/services/ldapService.js:708-763 | adding a non-member to a valid group and then removing them gives the group back exactly; adding an existing member is refused |
| Directory.EntryOf | ldap-admin-web/src/services/ldapService.js:494-496 | the stored entry holds exactly the defined keys with at least one value, each with its values |
| Directory.Remove | ldap-admin-web/src/services/ldapService.js:741-746 | the values kept by a `delete` are exactly those not listed |
| Directory.ApplyAllUntouched | ldap-admin-web/src/services/ldapService.js:537 | an attribute no change names keeps its values |
| Directory.ApplyAllReplaces | ldap-admin-web/src/services/ldapService.js:523-527 | a list of replaces is never refused, and each attribute ends with the values of the last replace naming it (removed when empty) |
| Directory.ApplyAllReplacesDone | ldap-admin-web/src/services/ldapService.js:523-527 | a list of replaces is never refused |
| Directory.AddThenDeleteMember | ldap-admin-web/src/services/ldapService.js:708-763 | an `add` of a new member followed by its `delete` gives the group back |
| Directory.RemoveAppendLast | ldap-admin-web/src/services/ldapService.js:741-746 | deleting the value just appended restores the list |
| Directory.AddExistingMemberRefused | ldap-admin-web/src/services/ldapService.js:712-717 | adding a value already present is refused with `attributeOrValueExists` |
| Directory.DeleteLastMemberRefused | ldap-admin-web/src/services/ldapService.js:741-746 | deleting the only member of a `groupOfNames` group is refused with `objectClassViolation` |
| Directory.DeleteEntrySpec | ldap-admin-web/src/services/ldapService.js:554-572 | what the directory does with the delete `deleteUser` and `deleteGroup` send, per section 4.8 of RFC 4511: it succeeds exactly when the entry exists and has no entry below it, and then removes that entry and leaves every other entry as it was; a missing entry is refused with `noSuchObject`, an entry with children with `notAllowedOnNonLeaf` |
| Directory.DeleteTwiceRefused | ldap-admin-web/src/services/ldapService.js:686-705 | deleting the same entry a second time is refused with `noSuchObject` |
| Directory.DeleteParentRefused | ldap-admin-web/src/services/ldapService.js:686-705 | an entry with an entry `<rdn>,<dn>` below it cannot be deleted (`notAllowedOnNonLeaf`) |
| LdapService.DeleteSpec | ldap-admin-web/src/services/ldapService.js:554-572 | `deleteUser`/`deleteGroup` succeed exactly when the DN names a leaf entry, which is then gone with every other entry unchanged; a refused delete leaves the directory as it was, and a missing DN is refused with `noSuchObject` |
| LdapStats.Buckets | ldap-admin-web/src/services/ldapService.js:389 | the bucket names of the tally, one per bucket, in order |
| LdapStats.Bump | ldap-admin-web/src/services/ldapService.js:394 | the key order of `departments`: an existing bucket stays in place, a new one goes last |
| LdapStats.BumpCount | ldap-admin-web/src/services/ldapService.js:394 | the incremented bucket grows by one and every other bucket keeps its count |
| LdapStats.BumpTotal | ldap-admin-web/src/services/ldapService.js:394 | the total grows by one and no bucket becomes empty |
| LdapStats.DepartmentStats | ldap-admin-web/src/services/ldapService.js:389-395 | the loop filling `departments` produces exactly the reference tally |
| LdapStats.CountOfPositive | ldap-admin-web/src/services/ldapService.js:394 | when no bucket is empty, a count is positive exactly for a present bucket |
| LdapStats.NonNullSnoc | ldap-admin-web/src/services/ldapService.js:392 | the non-null users of a longer list: the old ones plus the new one if it is not null |
| LdapStats.InBucketSnoc | ldap-admin-web/src/services/ldapService.js:392-394 | the users of bucket `k` of a longer list: the old ones plus the new one if it falls in `k` |
| LdapStats.TallyTotal | ldap-admin-web/src/services/ldapService.js:392-395 | the bucket counts sum to the number of non-null users, and no bucket is empty |
| LdapStats.TallyCount | ldap-admin-web/src/services/ldapService.js:392-395 | each bucket counts exactly the non-null users whose department (or `Sin departamento`) it is |
| LdapStats.TallyCounts | ldap-admin-web/src/services/ldapService.js:392-395 | each bucket counts its users, and the buckets are exactly the departments that occur |
| LdapStats.DirectoryStats | ldap-admin-web/src/services/ldapService.js:381-402 | the totals are the lengths of the two searches and the department figures are the tally |
| LdapStats.StrLeqTotal | ldap-admin-web/src/services/ldapService.js:777 | the default sort order is total |
| LdapStats.StrLeqTransitive | ldap-admin-web/src/services/ldapService.js:777 | the default sort order is transitive |
| LdapStats.StrLeqAntisymmetric | ldap-admin-web/src/services/ldapService.js:777 | the default sort order is antisymmetric |
| LdapStats.Insert | ldap-admin-web/src/services/ldapService.js:777 | one insertion step of the sort keeps the elements (as a multiset) |
| LdapStats.ConsSorted | ldap-admin-web/src/services/ldapService.js:777 | an element not above the first key of a sorted list can go in front of it |
| LdapStats.InsertSorted | ldap-admin-web/src/services/ldapService.js:777 | inserting into a sorted list keeps it sorted |
| LdapStats.SortDepartments | ldap-admin-web/src/services/ldapService.js:777 | `sort()` returns a sorted permutation of the departments |
| LdapStats.Collect | ldap-admin-web/src/services/ldapService.js:769-775 | the `Set` of departments holds only defined values |
| LdapStats.CollectContents | ldap-admin-web/src/services/ldapService.js:769-775 | exactly the truthy departments are collected, and no value twice except distinct array objects |
| LdapStats.AllDepartments | ldap-admin-web/src/services/ldapService.js:766-782 | `getAllDepartments` fails exactly when a search result is `null`, and otherwise returns the sorted distinct truthy departments |
| LdapStats.UserGroupsFilter | ldap-admin-web/src/services/ldapService.js:787 | the filter holds `(member=<userDN>)` with the DN inserted verbatim |
| LdapStats.UserGroups | ldap-admin-web/src/services/ldapService.js:785-794 | exactly the non-null results with a truthy `cn`, never more than were found; a failed search gives none; `UserGroupsAppend` states that order and repeats are kept |
| LdapStats.IsUserInGroupIff | ldap-admin-web/src/services/ldapService.js:375-378 | a user is in a group exactly when the search succeeded and found a group whose `cn` is that non-empty name |
| ErrorMiddleware.MapLDAPErrorStatus | ldap-admin-web/src/middleware/error.js:186-203 | the status is 401, 403, 404, 409, 400 for codes 49, 50, 32, 68, 53 and 500 for any other code, a missing one included |
| ErrorMiddleware.FormatLDAPError | ldap-admin-web/src/middleware/error.js:206-227 | never empty; its own fixed message for each of 49, 50, 32, 68, 53, 1 and 81; otherwise the error's message, or `Error de LDAP` when it has none |
| ErrorMiddleware.LDAPMessageWithoutStatus | ldap-admin-web/src/middleware/error.js:186-227 | codes 1 and 81 have messages of their own but answer 500; only known codes answer anything but 500 |
| ErrorMiddleware.FormatMulterError | ldap-admin-web/src/middleware/error.js:172-183 | one of the three fixed messages or the default |
| ErrorMiddleware.FormatValidationErrors | ldap-admin-web/src/middleware/error.js:156-169 | one `{field, message}` per field of `err.errors`, in order; none without a table |
| ErrorMiddleware.DefaultStatus | ldap-admin-web/src/middleware/error.js:47 | the status an error starts from: `status`, else `statusCode`, else 500 |
| ErrorMiddleware.HandleError | ldap-admin-web/src/middleware/error.js:45-108 | the name decides the whole reply: a validation error answers 400 `Datos de entrada inválidos` with its `err.errors` table formatted as details; cast errors 400 `Formato de datos inválido`; token errors 401 `Token inválido` or `Token expirado`; multer errors 400 with the multer message; database errors 500 `Error de base de datos`; LDAP errors their mapped status and message; an unknown name answers 502 `Servicio no disponible`, 502 `Conexión rechazada` or 504 `Tiempo de espera agotado` for the three system codes, and otherwise its default status with its own message or `Error interno del servidor`; details only for validation errors |
| ErrorMiddleware.NameDecides | ldap-admin-web/src/middleware/error.js:52-83 | a recognised name other than `LDAPError`/`MulterError` decides status and message whatever the code and carried status |
| ErrorMiddleware.UnknownNameKeepsStatus | ldap-admin-web/src/middleware/error.js:90-107 | with an unknown name and no system code, the reply keeps the error's own status and message |
| ErrorMiddleware.ClientErrorHandler | ldap-admin-web/src/middleware/error.js:24-42 | answers exactly the errors with a 4xx `status`, with that status and the error's message, `Error del cliente` when it is empty |
| ErrorMiddleware.CreateError | ldap-admin-web/src/middleware/error.js:244-251 | status defaults to 500 only when none is passed; details are attached only when truthy |
| ErrorMiddleware.CreatedErrorHandled | ldap-admin-web/src/middleware/error.js:24-251 | a created error with a 4xx status is answered by the client handler with that status and its message, `Error del cliente` when empty; any other reaches `errorHandler`, which answers its status (500 when omitted or 0) and its message (`Error interno del servidor` when empty) |
| AuthMiddleware.RoleFor | ldap-admin-web/src/middleware/auth.js:92-105 | `administrators` maps to `admin`, `developers` to `developer`, `managers` to `manager`, any other group to its own `cn`; only `administrators` gives `admin` unless a group is itself named `admin` |
| AuthMiddleware.Dedupe | ldap-admin-web/src/middleware/auth.js:108 | `[...new Set(xs)]`: the same values, each once, the first one first; `DedupeOrder` states the order of first occurrences |
| AuthMiddleware.RawRoles | ldap-admin-web/src/middleware/auth.js:88-106 | `user` followed by one role per group, in order |
| AuthMiddleware.RawRolesSnoc | ldap-admin-web/src/middleware/auth.js:91-105 | one more group appends its role |
| AuthMiddleware.GetUserRoles | ldap-admin-web/src/middleware/auth.js:85-113 | the loop and the `Set` produce exactly the reference roles |
| AuthMiddleware.RolesSpec | ldap-admin-web/src/middleware/auth.js:85-113 | `user` comes first, no role twice, exactly `user` and the granted roles; a failed lookup gives `['user']` |
| AuthMiddleware.AdminRoleIff | ldap-admin-web/src/middleware/auth.js:91-105 | the groups grant `admin` exactly when one is `administrators` or `admin` |
| AuthMiddleware.AuthenticateUser | ldap-admin-web/src/middleware/auth.js:116-161 | login fails with `Credenciales inválidas` exactly when the service fails; a logged-in user has the bind DN, `<username>@ejemplo.com`, the roles `['user','admin']` for `admin` and `ana.martinez` and `['user']` for anyone else, the display name of `DisplayNameFor`, department and title `IT`/`System Administrator` for `admin`, `General`/`Usuario` otherwise, and `lastLogin` the login time it is given |
| AuthMiddleware.DisplayNameFor | ldap-admin-web/src/middleware/auth.js:136-139 | the four known logins get their fixed display names; any other login is shown by its user name |
| AuthMiddleware.LoginDN | ldap-admin-web/src/middleware/auth.js:119-145 | a logged-in user's DN is the one they bound with, the administrator's only for `admin` |
| AuthMiddleware.RequireAuth | ldap-admin-web/src/middleware/auth.js:7-29 | a request goes on exactly when there is a session user; otherwise 401 or a redirect to the login page |
| AuthMiddleware.RequireRole | ldap-admin-web/src/middleware/auth.js:32-61 | without a session user it defers to `requireAuth` |
| AuthMiddleware.RequireRoleIff | ldap-admin-web/src/middleware/auth.js:32-61 | a request passes exactly when its user holds the role or `admin` (no roles counts as none); otherwise 403 or a redirect to the dashboard |
| AuthMiddleware.LoggedInRoles | ldap-admin-web/src/middleware/auth.js:32-133 | a user logged in as `admin` or `ana.martinez` passes every role check; any other passes only `user` |
| AuthMiddleware.CanModifyUser | ldap-admin-web/src/middleware/auth.js:190-220 | throws without a session user or roles; passes exactly for `admin` or a user whose DN is the route's `dn` (else the body's) |
| AuthMiddleware.Validate | ldap-admin-web/src/middleware/auth.js:223-255 | a session with a user expires exactly when more than two hours passed since its last activity (0 when absent), and is then destroyed with its user and last activity unchanged; otherwise it records `now` |
| AuthMiddleware.ActiveSessionStays | ldap-admin-web/src/middleware/auth.js:226-251 | a session used at least every two hours never expires, and its last activity is the last request |
| AuthMiddleware.Session.constructor | ldap-admin-web/src/middleware/auth.js:224-226 | a session holds its user and last activity and is not destroyed |
| AuthMiddleware.Session.ValidateSession | ldap-admin-web/src/middleware/auth.js:223-255 | updates the session in place as the reference `Validate` says |
| SecurityMiddleware.IsValidLdapDnBounds | ldap-admin-web/src/middleware/security.js:185-200 | an accepted DN is a non-empty string of at most 500 characters starting with `letters=` and one more character |
| SecurityMiddleware.IsValidLdapDnIff | ldap-admin-web/src/middleware/security.js:185-200 | on strings without the two Unicode line separators the check is exactly: non-empty, at most 500, a leading `letters=` with a character after it, none of `< > " ' & \0 \n \r` |
| SecurityMiddleware.Entries | ldap-admin-web/src/middleware/security.js:32 | `Object.entries` of an object is its fields; of an array, its items keyed by decimal index |
| SecurityMiddleware.CleanString | ldap-admin-web/src/middleware/security.js:35-44 | a cleaned string is a prefix of the trimmed sanitiser output of at most 10000 characters, the whole of it when it fits |
| SecurityMiddleware.EntryValue | ldap-admin-web/src/middleware/security.js:32 | an entry's value is smaller than the object holding it (termination of the recursion) |
| SecurityMiddleware.Assign | ldap-admin-web/src/middleware/security.js:35-48 | `sanitized[key] = value`: a `__proto__` key goes through the inherited accessor, which takes an object or `null` as the new prototype and ignores anything else; any other key becomes an own entry |
| SecurityMiddleware.SanitizeObjectLoop | ldap-admin-web/src/middleware/security.js:29-53 | the loop with its recursion and its assignments builds exactly the reference sanitised object, prototype included |
| SecurityMiddleware.FindOwnSnoc | ldap-admin-web/src/middleware/security.js:35-48 | after one more own entry, a key reads its earlier entry if it had one, else the new entry when the keys match |
| SecurityMiddleware.AssignedNoProtoKey | ldap-admin-web/src/middleware/security.js:29-53 | `__proto__` is never an own key of the result, since assigning it goes through the prototype setter |
| SecurityMiddleware.AssignedAbsent | ldap-admin-web/src/middleware/security.js:29-53 | a key the input does not have is not an own key of the result |
| SecurityMiddleware.AssignedFirst | ldap-admin-web/src/middleware/security.js:29-53 | any other key of the input reads, among the result's own entries, the sanitised value of its first entry in the input |
| SecurityMiddleware.AssignedOrdinary | ldap-admin-web/src/middleware/security.js:29-53 | an input without a `__proto__` entry gives exactly its keys in order, each with its sanitised value, and the default prototype |
| SecurityMiddleware.AssignedDefaultProto | ldap-admin-web/src/middleware/security.js:35-48 | a `__proto__` entry holding a string, number or boolean is dropped: the prototype stays `Object.prototype` |
| SecurityMiddleware.AssignedLastProto | ldap-admin-web/src/middleware/security.js:46-48 | the prototype is the sanitised object (or `null`) of the last `__proto__` entry holding an object, array or `null` |
| SecurityMiddleware.ProtoBodyExample | ldap-admin-web/src/middleware/security.js:29-53 | the body `{"__proto__": {"dn": "x"}}` sanitises to an object with no own key whose `dn` still reads the cleaned `x` through its prototype; `{"__proto__": "x"}` sanitises to `{}` |
| SecurityMiddleware.SanitizeBounded | ldap-admin-web/src/middleware/security.js:29-53 | every string in the result, at every level and along the prototypes, has at most 10000 characters, and only `null`, booleans and numbers are copied |
| SecurityMiddleware.AssignedBounded | ldap-admin-web/src/middleware/security.js:29-53 | the same bound for the own entries and the prototype after each assignment |
| SecurityMiddleware.ValidateCsrf | ldap-admin-web/src/middleware/security.js:203-227 | refuses (403) exactly a POST, PUT, DELETE or PATCH with neither a truthy `_csrf` nor an `x-csrf-token` header |
| SecurityMiddleware.CsrfTokenNotCompared | ldap-admin-web/src/middleware/security.js:206-208 | any present token passes, from the body or the header |
| SecurityMiddleware.ValidateContentType | ldap-admin-web/src/middleware/security.js:295-310 | refuses (400) exactly a POST, PUT or PATCH whose content type is missing or contains none of the three media types |
| SecurityMiddleware.ContentTypeSubstring | ldap-admin-web/src/middleware/security.js:299-301 | any header containing `application/json` passes |
| SecurityMiddleware.DetectSuspiciousActivity | ldap-admin-web/src/middleware/security.js:230-284 | each category is listed exactly when it fires (URL as written, body and User-Agent lower-cased), at most once; 403 exactly in production with something listed |
| SecurityMiddleware.SqlPatternRedundant | ldap-admin-web/src/middleware/security.js:239 | `or 1=1` never changes the outcome: `1=1` is inside it |
| SecurityMiddleware.CaseAsymmetry | ldap-admin-web/src/middleware/security.js:234-240 | `<SCRIPT` in the URL goes unnoticed while `UNION SELECT` in the body is caught |
| SecurityMiddleware.StripSeparators | ldap-admin-web/src/middleware/security.js:140 | removing separators never lengthens the name |
| SecurityMiddleware.StripSeparatorsKeeps | ldap-admin-web/src/middleware/security.js:140 | exactly `.`, `_` and `-` are removed |
| SecurityMiddleware.Rank | ldap-admin-web/src/middleware/security.js:134-165 | each check has its place among the six, in the order they run |
| SecurityMiddleware.ErrorListSpec | ldap-admin-web/src/middleware/security.js:131-165 | an error is listed exactly when its check failed, once, in check order |
| SecurityMiddleware.ErrorListEmpty | ldap-admin-web/src/middleware/security.js:167 | the list is empty exactly when every check passed |
| SecurityMiddleware.ValidatorLength | ldap-admin-web/src/middleware/security.js:143-150 | the length `validator.isLength` measures is at most the character count |
| SecurityMiddleware.ValidatorLengthAppend | ldap-admin-web/src/middleware/security.js:143-150 | one more character adds one to the measured length, a presentation selector U+FE0E or U+FE0F adds nothing |
| SecurityMiddleware.ValidatorLengthPlain | ldap-admin-web/src/middleware/security.js:143-150 | without presentation selectors the measured length is the character count |
| SecurityMiddleware.SelectorShortensPassword | ldap-admin-web/src/middleware/security.js:150 | `Abcdef1` with U+FE0F appended has eight characters but measures seven, so it is too short |
| SecurityMiddleware.PushUsernameErrors | ldap-admin-web/src/middleware/security.js:139-146 | a present username reports bad characters, then a measured length outside 3..50 |
| SecurityMiddleware.PushPasswordErrors | ldap-admin-web/src/middleware/security.js:149-157 | a present password reports a measured length below 8, then a missing lower-case letter, upper-case letter or digit |
| SecurityMiddleware.PushDnError | ldap-admin-web/src/middleware/security.js:160-165 | a present DN (body's when truthy, else the route's) that fails the DN check is reported |
| SecurityMiddleware.ValidateUserInput | ldap-admin-web/src/middleware/security.js:130-182 | the errors are those of the failed checks in check order, lengths measured as `validator.isLength` does, and the answer is 400 exactly when there is one |
| Dashboard.OccursBetween | ldap-admin-web/src/routes/dashboard.js:45 | a piece spliced between two others occurs right after the first (helper of the filter lemmas) |
| Dashboard.UsersFilterSearch | ldap-admin-web/src/routes/dashboard.js:43-46 | the search term can be read back from the filter, so distinct terms give distinct filters; only the empty term gives the plain person filter |
| Dashboard.UsersFilterVerbatim | ldap-admin-web/src/routes/dashboard.js:45 | a non-empty term sits unescaped inside each of the `cn`, `mail` and `displayName` substring assertions |
| Dashboard.SliceBound | ldap-admin-web/src/routes/dashboard.js:55 | a bound of `slice` is clamped to the array and a non-negative bound is kept as it is |
| Dashboard.ValidUsers | ldap-admin-web/src/routes/dashboard.js:51 | the valid users are exactly the present records with a truthy `cn`, never more than were found; `ValidUsersAppend` states that order and repeats are kept |
| Dashboard.PaginateValid | ldap-admin-web/src/routes/dashboard.js:51-64 | every listed user is a found user with a truthy `cn`; `total` counts exactly those users; `hasMore` holds exactly when `total > startIndex + limit` |
| Dashboard.JsSliceWithin | ldap-admin-web/src/routes/dashboard.js:55 | a slice holds only elements of the array |
| Dashboard.PaginateWindow | ldap-admin-web/src/routes/dashboard.js:38-55 | with a page of at least 1 and a non-negative limit, the page holds at most `limit` users, the window from `(page - 1) * limit`, cut at the end of the list |
| Dashboard.SliceWindow | ldap-admin-web/src/routes/dashboard.js:55 | `slice(start, start + limit)` from a non-negative start is the window of at most `limit` elements |
| Dashboard.NonNegativeProduct | ldap-admin-web/src/routes/dashboard.js:54 | the start index of a page of at least 1 with a non-negative limit is not negative |
| Dashboard.PaginateNegativeLimit | ldap-admin-web/src/routes/dashboard.js:38-55 | `?page=1&limit=-1` keeps the negative limit, and the page lists two of three users: more than `limit` |
| Dashboard.PositiveParamOr | ldap-admin-web/src/routes/dashboard.js:38-39 | the intended parameter is always positive and takes a positive query value as it is |
| Dashboard.PaginatePositiveWindow | ldap-admin-web/src/routes/dashboard.js:51-64 | with positive pages and limits, the page never shows more than `limit` users, each with a `cn`, the window from `(page - 1) * limit`; `hasMore` holds exactly when valid users follow the page |
| Dashboard.MemberCount | ldap-admin-web/src/routes/dashboard.js:334 | an array counts its length; any other value counts 1 exactly when truthy and 0 otherwise |
| Dashboard.MemberCountStored | ldap-admin-web/src/routes/dashboard.js:329-334 | for a `member` read from the directory the count is the number of stored values |
| Dashboard.UserDataRank | ldap-admin-web/src/routes/dashboard.js:108-135 | each of the seven checks has its own place |
| Dashboard.UserDataErrorsMembers | ldap-admin-web/src/routes/dashboard.js:105-138 | an error is returned exactly when its check's condition holds (trimmed username under 3, a character outside `[a-zA-Z0-9._-]`, a trimmed name under 2, a malformed e-mail, a password under 6 or without lower case, upper case and digit) |
| Dashboard.UserDataRanks | ldap-admin-web/src/routes/dashboard.js:108-135 | the seven checks run in the order of their places |
| Dashboard.UserDataCheckAt | ldap-admin-web/src/routes/dashboard.js:108-135 | the check reporting each error fails exactly under that error's condition |
| Dashboard.FailuresMean | ldap-admin-web/src/routes/dashboard.js:109-135 | each check's outcome is its error's condition; the falsy tests add nothing, because an absent field fails its length check anyway |
| Dashboard.TooShortIffTrimmed | ldap-admin-web/src/routes/dashboard.js:109-122 | the falsy test before a length check adds nothing: an absent field fails the length check anyway |
| Dashboard.UserDataErrorsOrdered | ldap-admin-web/src/routes/dashboard.js:105-138 | the errors come in the order of the checks, each at most once |
| Dashboard.UserDataAccepted | ldap-admin-web/src/routes/dashboard.js:105-138 | a form passes exactly when the trimmed username has at least 3 characters all in `[a-zA-Z0-9._-]`, both trimmed names at least 2, the e-mail is absent or well formed, and the password has at least 6 characters with a lower-case letter, an upper-case letter and a digit |
| Dashboard.PushUsernameChecks | ldap-admin-web/src/routes/dashboard.js:109-114 | the username checks push the errors of the first two checks |
| Dashboard.PushNameChecks | ldap-admin-web/src/routes/dashboard.js:117-122 | the name checks push the errors of the next two |
| Dashboard.PushEmailPasswordChecks | ldap-admin-web/src/routes/dashboard.js:125-135 | the e-mail and password checks push the errors of the last three |
| Dashboard.ValidateUserData | ldap-admin-web/src/routes/dashboard.js:105-138 | the pushes produce exactly the reference error list |
| Dashboard.NewUserDNBinds | ldap-admin-web/src/routes/dashboard.js:162-182 | a new user's DN is the DN a login with the trimmed name binds with, except for `admin`, whose login binds as the administrator |
| Dashboard.Assign | ldap-admin-web/src/routes/dashboard.js:193-195 | assigning a new key appends it with its value |
| Dashboard.NewUserAttributes | ldap-admin-web/src/routes/dashboard.js:183-195 | the assignments build exactly the reference entry of the trimmed form |
| Dashboard.AssignIfSet | ldap-admin-web/src/routes/dashboard.js:193-195 | `if (value) o[k] = value` appends the key exactly when the value is not empty |
| Dashboard.UserEntryKeys | ldap-admin-web/src/routes/dashboard.js:183-195 | the entry has the seven fixed keys, then `mail`, `departmentNumber` and `title` each only when set |
| Dashboard.UserEntryUnique | ldap-admin-web/src/routes/dashboard.js:183-195 | no key of the entry is repeated |
| Dashboard.UserEntryValues | ldap-admin-web/src/routes/dashboard.js:184-190 | `cn` and `uid` both hold the trimmed username, `displayName` is first and last name with one space, the password is kept untrimmed |
| Dashboard.UserEntryOptional | ldap-admin-web/src/routes/dashboard.js:193-195 | `mail`, `departmentNumber` and `title` hold their trimmed value exactly when it is not empty, and are absent otherwise |
| Dashboard.BaseLacks | ldap-admin-web/src/routes/dashboard.js:183-191 | the optional keys are not among the fixed ones |
| Dashboard.ConcatLacks | ldap-admin-web/src/routes/dashboard.js:193-195 | a key missing from two objects is missing from both together |
| Dashboard.OptionalGet | ldap-admin-web/src/routes/dashboard.js:193-195 | an optional assignment holds only its own key, with the value when set |
| Dashboard.AddUser | ldap-admin-web/src/routes/dashboard.js:141-197 | invalid forms are refused with their errors; an existing user is refused; otherwise an add at `cn=<trimmed>` under the people base, which is the login's bind DN except for `admin`, with `cn`, `uid`, classes and password as given, and whose request is exactly the add of the new-user attributes (`UserEntry`) at that DN |
| Dashboard.CreatedEntryFields | ldap-admin-web/src/routes/dashboard.js:183-195 | the rest of the created entry: `sn`, `givenName` and `displayName` from the trimmed names, and `mail`, `departmentNumber` and `title` exactly when their trimmed values are not empty |
| Dashboard.EditKeyFree | ldap-admin-web/src/routes/dashboard.js:286-292 | a key no earlier step names is not yet assigned |
| Dashboard.EditUserUpdates | ldap-admin-web/src/routes/dashboard.js:286-292 | the assignments produce exactly the reference changes; the `|| []` fallbacks never apply |
| Dashboard.EditUpdatesShape | ldap-admin-web/src/routes/dashboard.js:286-292 | an edit names each attribute at most once and never with an empty value |
| Dashboard.EditUpdatesFields | ldap-admin-web/src/routes/dashboard.js:286-292 | each attribute is set exactly when its field is given (`displayName` when both names are), with the field's value, and no other attribute is set |
| Dashboard.EditNeverClears | ldap-admin-web/src/routes/dashboard.js:286-294 | applied to any entry, an edit succeeds, keeps every attribute, gives each named attribute the field's one value and leaves the others alone |
| Dashboard.GroupAttributes | ldap-admin-web/src/routes/dashboard.js:372-378 | `cn` is the trimmed name, and `description` is present exactly when its trimmed value is not empty |
| Dashboard.CreateGroup | ldap-admin-web/src/routes/dashboard.js:361-380 | a trimmed name under 2 characters is refused with its message; otherwise an add of `cn=<name>` under the group base of a `groupOfNames` entry with the administrator as member, which meets the schema |
| Dashboard.GroupRequestOk | ldap-admin-web/src/routes/dashboard.js:371-380 | the route's attributes give an add with the name, the default classes, the administrator as member and the description if any, meeting the schema |
| Dashboard.EditGroupApplied | ldap-admin-web/src/routes/dashboard.js:462-467 | a group edit sets the description to its one trimmed value, removes it when that is empty, changes nothing without a description, and never touches the members |
| Validations.IntToString | ldap-admin-web/public/js/validations.js:62 | the decimal text of a rule's number is never empty |
| Validations.Verdict | ldap-admin-web/public/js/validations.js:47-98 | a value is valid exactly when no rule rejects it, and a valid value carries no message |
| Validations.VerdictMessage | ldap-admin-web/public/js/validations.js:53-95 | a rejected value carries the message (own or default) of the first rule that rejects it |
| Validations.BlankVerdict | ldap-admin-web/public/js/validations.js:54-94 | an empty or blank value fails exactly when some rule is `required`; every other rule lets it through |
| Validations.VerdictStopsAtFirst | ldap-admin-web/public/js/validations.js:53-95 | rules after the first failing one are never consulted |
| Validations.FormValidator.constructor | ldap-admin-web/public/js/validations.js:7-12 | a new validator has no rules and no messages |
| Validations.FormValidator.AddRule | ldap-admin-web/public/js/validations.js:36-40 | the field's rules and message are replaced and nothing else changes |
| Validations.FormValidator.ValidateField | ldap-admin-web/public/js/validations.js:43-99 | a field without a name or without rules is valid; otherwise the loop over the trimmed value gives exactly the reference verdict and message |
| Validations.FormValidator.ValidateAll | ldap-admin-web/public/js/validations.js:102-113 | every named field is validated, also after a failure, and the form is valid exactly when all of them are |
| Validations.UsernameRejectsDot | ldap-admin-web/public/js/validations.js:152-155 | a name holding `.` is never a valid username, nor a valid group name |
| Validations.StripPhone | ldap-admin-web/public/js/validations.js:159 | stripping leaves no space, `-`, `(` or `)` and never lengthens the text |
| Validations.StripPhoneAppend | ldap-admin-web/public/js/validations.js:159 | stripping works piece by piece |
| Validations.StripPhoneKeeps | ldap-admin-web/public/js/validations.js:159 | every other character is kept, as often as it occurs |
| Validations.PhoneIgnoresSeparator | ldap-admin-web/public/js/validations.js:157-160 | a separator inserted anywhere never changes the verdict |
| Validations.PhoneBounds | ldap-admin-web/public/js/validations.js:157-160 | an accepted number, with separators removed, is an optional leading `+` and then one to sixteen decimal digits, the first not 0; `+` appears at most once and only first; the raw input holds only digits, separators and that `+` |
| Validations.ToastIcon | ldap-admin-web/public/js/validations.js:215-223 | a type in the table gets its own icon; any type outside the table gets `info-circle` |
| Validations.RdnNoComma | ldap-admin-web/public/js/validations.js:383 | a DN component holds no comma and has at least three characters |
| Validations.RdnAt | ldap-admin-web/public/js/validations.js:383 | an attribute name, `=` and a value make a component |
| Validations.RdnOf | ldap-admin-web/public/js/validations.js:383 | an attribute name, `=` and a value make a component |
| Validations.ClientDnCons | ldap-admin-web/public/js/validations.js:383 | a component, a comma and a DN make a DN |
| Validations.ClientDnNoComma | ldap-admin-web/public/js/validations.js:383 | without a comma the DN is one component |
| Validations.ClientDnFirstComma | ldap-admin-web/public/js/validations.js:383 | with a comma, the DN check is the component check before the first comma and the DN check after it |
| Validations.ClientDnSplitsAtFirst | ldap-admin-web/public/js/validations.js:383 | a DN splits at its first comma into a component and a DN |
| Validations.ClientDnJoinsAtFirst | ldap-admin-web/public/js/validations.js:383 | a component and a DN around the first comma make a DN |
| Validations.AllRdnCons | ldap-admin-web/public/js/validations.js:383 | all pieces are components exactly when the first is and the others are |
| Validations.ClientDnSplit | ldap-admin-web/public/js/validations.js:382-385 | `isValidDN` holds exactly when every comma-separated piece is one `attr=value` component, so a space after a comma is refused |
| Validations.ThreeRdns | ldap-admin-web/public/js/validations.js:383 | three components joined by commas make a DN |
| Validations.PlainRdn | ldap-admin-web/public/js/validations.js:383 | letters on both sides of `=` make a component |
| Validations.DefaultUserBaseValid | ldap-admin-web/public/js/validations.js:394 | the default base `ou=users,dc=company,dc=local` passes `isValidDN` |
| Validations.GenerateUserDNValid | ldap-admin-web/public/js/validations.js:394-396 | `uid=<username>,<base>` passes `isValidDN` when the username is a valid component value and the base (given or default) passes it |
| LdapUtils.TrimAll | ldap-admin-web/public/js/utils.js:255 | every piece is trimmed and none is dropped |
| LdapUtils.PrefixEach | ldap-admin-web/public/js/utils.js:256 | every piece gets the character in front |
| LdapUtils.JoinPrefixed | ldap-admin-web/public/js/utils.js:256 | a join by two characters seen as a join by the first |
| LdapUtils.JoinHead | ldap-admin-web/public/js/utils.js:256 | a join is the first piece, the separator and the join of the rest |
| LdapUtils.RegroupTwo | ldap-admin-web/public/js/utils.js:256 | regrouping the two separator characters |
| LdapUtils.JoinTwoChars | ldap-admin-web/public/js/utils.js:256 | joining with `,\n` is joining with `,` the pieces each behind a line break |
| LdapUtils.JoinCount | ldap-admin-web/public/js/utils.js:256 | a join of pieces without `c` by a separator holding one `c` holds one `c` per separator |
| LdapUtils.TrimWithout | ldap-admin-web/public/js/utils.js:255 | trimming adds no character |
| LdapUtils.TrimAllWithout | ldap-admin-web/public/js/utils.js:255 | trimming the pieces adds no character |
| LdapUtils.SeparatorCounts | ldap-admin-web/public/js/utils.js:256 | the separator `,\n` holds one comma and one line break |
| LdapUtils.FormatDNCommas | ldap-admin-web/public/js/utils.js:251-257 | `formatDN` keeps every comma and adds none |
| LdapUtils.FormatDNLines | ldap-admin-web/public/js/utils.js:251-257 | on a DN without line breaks the output has one line per comma plus one |
| LdapUtils.PieceWithout | ldap-admin-web/public/js/utils.js:255 | a piece of a split holds no character the whole does not |
| LdapUtils.FormatDNIdempotent | ldap-admin-web/public/js/utils.js:251-257 | formatting a formatted DN changes nothing |
| LdapUtils.Relined | ldap-admin-web/public/js/utils.js:256 | the pieces a comma split finds in a formatted DN: the first as it is, the others behind their line break |
| LdapUtils.RelinedJoin | ldap-admin-web/public/js/utils.js:256 | joining with `,\n` is joining the relined pieces with `,` |
| LdapUtils.RelinedSplit | ldap-admin-web/public/js/utils.js:255-256 | splitting that join at the commas gives the relined pieces |
| LdapUtils.TrimBreak | ldap-admin-web/public/js/utils.js:255 | a line break before a trimmed piece is trimmed away |
| LdapUtils.RelinedTrim | ldap-admin-web/public/js/utils.js:255 | trimming the relined pieces gives the trimmed pieces back |
| LdapUtils.ResplitTrimmed | ldap-admin-web/public/js/utils.js:255-256 | trimmed comma-free pieces joined by `,\n`, split at the commas and trimmed are the pieces themselves |
| LdapUtils.FormatDNBlank | ldap-admin-web/public/js/utils.js:251-257 | an empty DN shows as `N/A`; a DN shows as the empty string exactly when it is non-empty and all blanks |
| LdapUtils.UpToComma | ldap-admin-web/public/js/utils.js:262 | `[^,]+` takes a comma-free prefix that ends at the first comma or the end |
| LdapUtils.NamingPrefixOf | ldap-admin-web/public/js/utils.js:262 | a `cn` or `uid` attribute in any case and `=` make the matched prefix |
| LdapUtils.UpToCommaOf | ldap-admin-web/public/js/utils.js:262 | the value before a comma or the end is what `[^,]+` takes |
| LdapUtils.ExtractUsernameOf | ldap-admin-web/public/js/utils.js:259-264 | the value of a leading `cn=` or `uid=` (any case) up to the first comma comes back, whatever follows |
| LdapUtils.ExtractUsernameElse | ldap-admin-web/public/js/utils.js:259-264 | a DN without a leading `cn=`/`uid=` and a non-comma after it comes back unchanged |
| LdapUtils.FindOu | ldap-admin-web/public/js/utils.js:269 | the leftmost index from `i` where `ou=` (any case) and a non-comma match, or none |
| LdapUtils.ExtractOULeftmost | ldap-admin-web/public/js/utils.js:266-271 | with no match the answer is `N/A`; otherwise the non-empty, comma-free value after the leftmost matching `ou=` |
| LdapUtils.ExtractOUSkipsEmpty | ldap-admin-web/public/js/utils.js:269 | an `ou=` with an empty value is skipped: `ou=,ou=x` gives `x` |
| LdapUtils.FormatValue | ldap-admin-web/public/js/utils.js:277-281 | a formatted value is never an array |
| LdapUtils.FormatAttributes | ldap-admin-web/public/js/utils.js:273-285 | the same keys in the same order, and no array value left |
| LdapUtils.FormatAttributesGet | ldap-admin-web/public/js/utils.js:273-285 | reading a key after formatting is formatting what the key held |
| LdapUtils.FormatAttributesIdempotent | ldap-admin-web/public/js/utils.js:273-285 | formatting twice is formatting once |
| LdapUtils.FormatValueJoinsAway | ldap-admin-web/public/js/utils.js:278 | the join loses value boundaries: `["a, b"]` shows like `["a", "b"]` |
| AdminUtils.IsValidDNBounds | ldap-admin-web/public/js/admin.js:76-80 | an accepted DN is a non-empty string of at most 500 characters starting with `letters=` and a character; on one line that is all the check asks |
| AdminUtils.IconForType | ldap-admin-web/public/js/admin.js:169-178 | a type in the table gets its own icon; any type outside the table gets `info-circle` |
| AdminUtils.ErrorLooksLikeDanger | ldap-admin-web/public/js/admin.js:170-176 | `error` and `danger` share an icon, distinct from `info`'s |
| Patterns.CountSingle | ldap-admin-web/public/js/admin.js:84 | the count of a character splits around one of its occurrences |
| Patterns.EmailShapeIff | ldap-admin-web/public/js/admin.js:83-86 | the e-mail expression accepts exactly the strings with one `@`, no `\s`, a non-empty part before the `@` and a `.` strictly inside the part after it |
| Patterns.ComponentLeadingAttr | ldap-admin-web/src/middleware/security.js:189 | a DN component starts with `letters=` and a character |
| Patterns.LeadingAttrExtends | ldap-admin-web/src/middleware/security.js:189 | what a text starts with, a longer text starts with too |
| Patterns.DnShapeLeadingAttr | ldap-admin-web/src/middleware/security.js:189 | any DN matching the pattern starts with `letters=` and a character |
| Patterns.DnShapeWithoutTerminators | ldap-admin-web/src/middleware/security.js:189 | on text without line terminators the pattern asks no more than a leading `letters=` and one more character |
| Patterns.ComplexityOneLine | ldap-admin-web/src/middleware/security.js:154 | on one line the complexity test asks for a lower-case letter, an upper-case letter and a digit anywhere |
| Patterns.NoTerminatorWithin | ldap-admin-web/src/middleware/security.js:154 | a range without line terminators has none at any index |
| Patterns.ComplexityPerLine | ldap-admin-web/src/middleware/security.js:154 | the three kinds spread over two lines fail: `aA\n1` is refused |
| CheckList.CollectMembers | ldap-admin-web/src/routes/dashboard.js:106-137 | an item is pushed exactly when one of the steps pushing it has its condition hold |
| CheckList.CollectPrefix | ldap-admin-web/src/routes/dashboard.js:106-137 | the items of earlier steps come first |
| CheckList.CollectOrdered | ldap-admin-web/src/routes/dashboard.js:106-137 | items of distinct ranked steps come in step order, each at most once |
| CheckList.ReportedRanked | ldap-admin-web/src/routes/dashboard.js:106-137 | an item is listed exactly when its own step's condition holds |
| CheckList.ReportedEmpty | ldap-admin-web/src/routes/dashboard.js:137 | nothing is pushed exactly when no condition holds |
| JsText.SkipSpaceForward | ldap-admin-web/src/routes/dashboard.js:109 | the first non-`\s` index from `i` |
| JsText.SkipSpaceBackward | ldap-admin-web/src/routes/dashboard.js:109 | the start of the trailing `\s` run before `j` |
| JsText.Trim | ldap-admin-web/src/routes/dashboard.js:109 | `trim` returns a trimmed infix with only `\s` around it |
| JsText.SkipForwardAt | ldap-admin-web/src/routes/dashboard.js:109 | the forward skip stops at the first non-space |
| JsText.SkipBackwardAt | ldap-admin-web/src/routes/dashboard.js:109 | the backward skip stops after the last non-space |
| JsText.TrimUnique | ldap-admin-web/src/routes/dashboard.js:109 | a trimmed infix with only `\s` around it is the result of `trim` |
| JsText.TrimOfTrimmed | ldap-admin-web/src/routes/dashboard.js:109 | a trimmed string is left as it is |
| JsText.TrimAfterSpace | ldap-admin-web/src/routes/dashboard.js:109 | leading `\s` before a trimmed string is all `trim` removes |
| JsText.TrimIdempotent | ldap-admin-web/src/routes/dashboard.js:109 | trimming twice is trimming once |
| JsText.CountAppend | ldap-admin-web/public/js/utils.js:256 | counts add up over a concatenation |
| JsText.CountZero | ldap-admin-web/public/js/utils.js:256 | a count is 0 exactly when the character is absent |
| JsText.IndexOf | ldap-admin-web/public/js/utils.js:255 | the first index of the character |
| JsText.IndexOfAt | ldap-admin-web/public/js/utils.js:255 | an occurrence with none before it is the first index |
| JsText.Split | ldap-admin-web/public/js/utils.js:255 | at least one piece, none holding the separator |
| JsText.SplitCount | ldap-admin-web/public/js/utils.js:255 | one piece per separator plus one |
| JsText.JoinSplit | ldap-admin-web/public/js/utils.js:255-256 | joining the pieces with the separator gives the string back |
| JsText.JoinCons | ldap-admin-web/public/js/utils.js:256 | a piece before others is followed by the separator |
| JsText.SplitJoin | ldap-admin-web/public/js/utils.js:255-256 | splitting a join of separator-free pieces gives the pieces back |
| JsText.ContainsTransitive | ldap-admin-web/src/middleware/security.js:299 | an infix of an infix is an infix |
| JsText.LowerChar | ldap-admin-web/src/middleware/security.js:240 | an upper-case letter becomes the matching lower-case letter (32 code points on), all else is kept |
| JsText.ToLower | ldap-admin-web/src/middleware/security.js:240 | same length, each character lowered |
| JsText.NatToString | ldap-admin-web/src/middleware/security.js:32 | the decimal key of an array index is a non-empty run of digits |
| JsValues.Keys | ldap-admin-web/public/js/utils.js:276 | the keys of an object, in order |
| JsValues.KeysCons | ldap-admin-web/public/js/utils.js:276 | the keys of an object with one more entry in front |
| JsValues.Get | ldap-admin-web/src/services/ldapService.js:584 | a missing key reads `undefined`; a key reads the value of its first entry |
| JsValues.GetAt | ldap-admin-web/src/services/ldapService.js:584 | with distinct keys, each entry's key reads its value |
| JsValues.Put | ldap-admin-web/src/routes/dashboard.js:193-195 | an existing key keeps its place, a new key goes last |
| JsValues.PutGet | ldap-admin-web/src/routes/dashboard.js:193-195 | after an assignment the key reads the new value and every other key what it read before |
| JsValues.PutUnique | ldap-admin-web/src/routes/dashboard.js:193-195 | an assignment keeps keys distinct |
| JsValues.PutNew | ldap-admin-web/src/routes/dashboard.js:193-195 | assigning a new key appends it |
| JsValues.SpreadKeys | ldap-admin-web/src/services/ldapService.js:580-585 | a spread keeps the first object's keys first and in order, adds the others', and keeps keys distinct |
| JsValues.SpreadGet | ldap-admin-web/src/services/ldapService.js:580-585 | a spread key reads the spread value, every other key its old value |
| JsValues.GetConcat | ldap-admin-web/src/routes/dashboard.js:183-195 | reading a key from two objects one after the other |
| JsValues.GetAppend | ldap-admin-web/src/routes/dashboard.js:193-195 | reading a key from an object with one more entry at the end |
| Agreement.ClientUsernamePassesServer | ldap-admin-web/public/js/validations.js:152-155 | a username the browser accepts passes both username checks of the user-creation route (dashboard.js:109-114) |
| Agreement.DottedUsernameServerOnly | ldap-admin-web/src/routes/dashboard.js:112 | a name of at least three allowed characters holding `.` passes the route and is refused by the browser's `isValidUsername` (validations.js:153) |
| Agreement.AdminNameServerOnly | ldap-admin-web/src/middleware/auth.js:131 | witness: `ana.martinez`, a name login makes an administrator, passes the route's character check and fails the browser's username check |
| Agreement.PasswordMinimumsDisagree | ldap-admin-web/src/routes/dashboard.js:130 | a complex password of six or seven characters passes the route's password checks and fails the middleware's eight-character minimum (security.js:150) |
| Agreement.ShortComplexPassword | ldap-admin-web/src/middleware/security.js:150-154 | witness: such passwords exist: `Abc123` has six characters and passes the complexity test |
| Agreement.ServerDnIsAdminDnSafe | ldap-admin-web/src/middleware/security.js:185-200 | the server's DN check is exactly the admin page's check (admin.js:76-80) plus the ban on dangerous characters |
| Agreement.AngleDnClientOnly | ldap-admin-web/public/js/admin.js:76-80 | a one-component DN whose value holds `<` passes the admin page and the form validator and is refused by the server |
| Agreement.AngleDnExample | ldap-admin-web/public/js/admin.js:76-80 | witness: `cn=<b>` passes the admin page and the form validator and is refused by the server |
| Agreement.ClientDnStartsWithLetter | ldap-admin-web/public/js/validations.js:383 | a DN the form validator accepts starts with a letter |
| Agreement.ClientDnLetterAfterComma | ldap-admin-web/public/js/validations.js:383 | in a DN the form validator accepts a letter follows every comma |
| Agreement.ComponentOf | ldap-admin-web/src/middleware/security.js:189 | letters, `=` and a one-line value make a component of the server's pattern |
| Agreement.ContinuationOf | ldap-admin-web/src/middleware/security.js:189 | `, ` and a component continue a DN of the server's pattern |
| Agreement.ShapeJoin | ldap-admin-web/src/middleware/security.js:189 | a component and a continuation match the server's pattern |
| Agreement.SpacedDnShape | ldap-admin-web/src/middleware/security.js:189 | two components joined by `, ` match the server's pattern |
| Agreement.SpacedDnSafe | ldap-admin-web/src/middleware/security.js:198-199 | joining safe pieces with `, ` keeps them free of dangerous characters |
| Agreement.SpacedDnServerOnly | ldap-admin-web/src/middleware/security.js:185-200 | a DN with a space after its comma passes the server's check and is refused by the form validator (validations.js:383) |
| Agreement.IconTablesDifferOnError | ldap-admin-web/public/js/validations.js:215-223 | the two icon tables agree on every type but `error`, which the form validator shows as information while the admin page shows a warning triangle (admin.js:169-178) |
| Agreement.GeneratedUserRoundTrip | ldap-admin-web/public/js/validations.js:394-396 | `extractUsername` (utils.js:259-264) reads back from a generated DN the non-empty, comma-free username it was generated from |
| Agreement.CreatedNameClean | ldap-admin-web/src/routes/dashboard.js:112 | a name the route accepts holds no comma, no `=` and no dangerous character |
| Agreement.NewUserNameRoundTrip | ldap-admin-web/src/routes/dashboard.js:182 | the page's `extractUsername` shows the trimmed username for a user the route created |
| Agreement.PeopleBaseParts | ldap-admin-web/src/routes/dashboard.js:182 | the people base has 27 characters and starts with `ou=people,` |
| Agreement.NoUnitInName | ldap-admin-web/public/js/utils.js:269 | before the `ou=` of its base, a created DN holds no match of `ou=` |
| Agreement.CreatedUnit | ldap-admin-web/public/js/utils.js:266-271 | under a base that starts with a unit, `extractOU` of a created DN reads the base's unit |
| Agreement.PeopleUnit | ldap-admin-web/src/routes/dashboard.js:182 | the unit of the people base is `people` |
| Agreement.NewUserUnit | ldap-admin-web/public/js/utils.js:266-271 | the page's `extractOU` shows `people` for every user the route created |
| Agreement.PlainSafe | ldap-admin-web/src/middleware/security.js:198-199 | letters, `=` and `,` are safe for the server's check |
| Agreement.PeopleBaseSafe | ldap-admin-web/src/routes/dashboard.js:182 | the people base holds no dangerous character |
| Agreement.CreatedDnSafe | ldap-admin-web/src/middleware/security.js:198-199 | `cn=`, a created name, a comma and a safe base make a safe DN |
| Agreement.NewUserDNPassesServer | ldap-admin-web/src/middleware/security.js:185-200 | the DN of a user the route created passes the server's DN check whenever it fits in 500 characters (trimmed name of at most 469) |
| Dashboard.ParamOr | ldap-admin-web/src/routes/dashboard.js:38-39 | `parseInt(q) \|\| d`: the parsed query number unless it is missing or 0, then the default |
| Dashboard.UsersFilter | ldap-admin-web/src/routes/dashboard.js:43-46 | the user search filter: every `inetOrgPerson` for an empty term, otherwise the term spliced unescaped into `cn`, `mail` and `displayName` substring clauses; its properties are `UsersFilterSearch` and `UsersFilterVerbatim` |
| Dashboard.JsSlice | ldap-admin-web/src/routes/dashboard.js:55 | `Array.prototype.slice` with negative and out-of-range bounds normalised by `SliceBound`; `SliceWindow` and `JsSliceWithin` state what it returns |
| Dashboard.ValidUsersAppend | ldap-admin-web/src/routes/dashboard.js:51 | the `user && user.cn` filter keeps order and repeats: the filter of a concatenation is the concatenation of the filters, and one user stays exactly when it has a `cn` |
| Dashboard.ValidUsersSnoc | ldap-admin-web/src/routes/dashboard.js:51 | one more user joins the filtered list at its end exactly when it has a `cn` |
| Dashboard.Paginate | ldap-admin-web/src/routes/dashboard.js:38-64 | the user list as written: page and limit from the query, the valid users sliced from `(page - 1) * limit`, the total and `hasMore`; `PaginateValid`, `PaginateWindow` and `PaginateNegativeLimit` state its behaviour |
| Dashboard.PaginatePositive | ldap-admin-web/src/routes/dashboard.js:38-55 | the corrected user list that takes only positive page and limit values from the query; `PaginatePositiveWindow` proves its bound |
| Dashboard.UserDataErrors | ldap-admin-web/src/routes/dashboard.js:105-138 | the error list of `validateUserData` as the checks in their order; `UserDataErrorsMembers`, `UserDataErrorsOrdered` and `UserDataAccepted` state it |
| Dashboard.NewUserDN | ldap-admin-web/src/routes/dashboard.js:182 | `cn=` and the trimmed username under the hard-coded people base; `NewUserDNBinds` relates it to the login bind DN |
| Dashboard.UserEntry | ldap-admin-web/src/routes/dashboard.js:183-195 | the new user's attributes: the seven fixed ones, then `mail`, `departmentNumber` and `title` when not empty; `UserEntryKeys`, `UserEntryValues` and `UserEntryOptional` state it |
| Dashboard.EditUpdates | ldap-admin-web/src/routes/dashboard.js:286-292 | the update object of a user edit, each attribute only when its field is given; `EditUpdatesShape`, `EditUpdatesFields` and `EditNeverClears` state it |
| Dashboard.EditGroupUpdates | ldap-admin-web/src/routes/dashboard.js:462-465 | the group edit update: the trimmed description, or `[]` to clear it when empty; `EditGroupApplied` states its effect |
| LdapUtils.FormatDN | ldap-admin-web/public/js/utils.js:251-257 | `formatDN`: `N/A` for an empty DN, otherwise the trimmed comma-separated pieces joined with `,` and a line break; `FormatDNCommas`, `FormatDNLines`, `FormatDNIdempotent` and `FormatDNBlank` state it |
| LdapUtils.ExtractUsername | ldap-admin-web/public/js/utils.js:259-264 | `extractUsername`: the value after a leading case-insensitive `cn=` or `uid=` up to the first comma, the DN itself when there is none, `N/A` for an empty DN |
| LdapUtils.ExtractOU | ldap-admin-web/public/js/utils.js:266-271 | `extractOU`: the value after the leftmost case-insensitive `ou=` followed by a non-comma, up to the next comma, otherwise `N/A` |
| Validations.IsValidUsername | ldap-admin-web/public/js/validations.js:152-155 | `isValidUsername`: at least three characters, each a letter, digit, `_` or `-`; `UsernameRejectsDot` states that `.` is refused |
| Validations.IsValidGroup | ldap-admin-web/public/js/validations.js:399-402 | `isValidGroup` as its single character-class pattern |
| Validations.IsValidPhone | ldap-admin-web/public/js/validations.js:157-160 | `isValidPhone`: the separator-free text matches an optional `+`, a digit 1-9 and at most fifteen more digits; `PhoneBounds` and `PhoneIgnoresSeparator` state it |
| Validations.IsValidAttribute | ldap-admin-web/public/js/validations.js:388-391 | `isValidAttribute` as its single character-class pattern; the three lemmas below state it |
| Validations.IsValidAttributeChars | ldap-admin-web/public/js/validations.js:388-391 | an accepted attribute name holds no `=`, `,` or white space |
| Validations.AttributeDnAttr | ldap-admin-web/public/js/validations.js:382-391 | the attribute names of the `isValidDN` pattern are exactly the accepted attribute names without `-` |
| Validations.HyphenAttributeRefused | ldap-admin-web/public/js/validations.js:382-391 | an accepted attribute name holding `-` makes a component that `isValidDN` refuses, whatever the value |
| Validations.GenerateUserDN | ldap-admin-web/public/js/validations.js:394-396 | `uid=`, the username and the base DN, the default base when it is omitted |
| Validations.FieldVerdict | ldap-admin-web/public/js/validations.js:43-99 | the verdict of `validateField`: valid with no name or no rules, otherwise the first failing rule's message on the trimmed value; `ValidateField` is proved equal to it |
| Validations.ClientDnShape | ldap-admin-web/public/js/validations.js:382-385 | the `isValidDN` pattern: comma-joined `attr=value` components with no space after a comma; `ClientDnSplit` states it component by component |
| AdminUtils.IsValidDN | ldap-admin-web/public/js/admin.js:76-80 | the admin page's DN check: a string of at most 500 characters matching the server's DN pattern, with no forbidden-character test |
| AdminUtils.IsValidEmail | ldap-admin-web/public/js/admin.js:83-86 | the admin page's email pattern; `Patterns.EmailShapeIff` states it |
| LdapStats.KeyOf | ldap-admin-web/src/services/ldapService.js:394 | the property key a department value becomes: a string itself, an array its items joined with `,` |
| LdapStats.DeptKey | ldap-admin-web/src/services/ldapService.js:393 | a user's bucket: its truthy department, otherwise `Sin departamento` |
| LdapStats.Tally | ldap-admin-web/src/services/ldapService.js:392-395 | the `departments` object after the users in order; `TallyTotal`, `TallyCount` and `TallyCounts` state it |
| LdapStats.UserGroupsAppend | ldap-admin-web/src/services/ldapService.js:788 | the `group && group.cn` filter keeps order and repeats: it distributes over concatenation, and one record stays exactly when it is a group with a truthy `cn` |
| LdapStats.IsUserInGroup | ldap-admin-web/src/services/ldapService.js:375-378 | `isUserInGroup` over the user's groups; `IsUserInGroupIff` states it |
| LdapService.BindDN | ldap-admin-web/src/services/ldapService.js:88-93 | the bind DN of a login: the administrator's DN for `admin`, `cn=<username>` under the people base otherwise; `BindDNAdminIff` and `BindDNInjective` state it |
| LdapService.CreateUserRequest | ldap-admin-web/src/services/ldapService.js:490-496 | `createUser`: an add of a copy of the attributes; `CreateUserEntry` states it |
| LdapService.CreateGroupRequest | ldap-admin-web/src/services/ldapService.js:576-585 | `createGroup`: an add of the default classes, the given attributes and the member; `CreateGroupEntry` and `CreateGroupSchemaOk` state it |
| LdapService.ReplaceChanges | ldap-admin-web/src/services/ldapService.js:520-530 | one `replace` per defined key in key order, scalars wrapped in a list; `ReplaceChangesSound`, `ReplaceChangesComplete` and `ReplaceChangesOrdered` state it |
| LdapService.AddUserToGroupRequest | ldap-admin-web/src/services/ldapService.js:712-717 | a modify with the single change `add` of the user's DN to `member`; `MembershipRoundTrip` states its effect |
| LdapService.RemoveUserFromGroupRequest | ldap-admin-web/src/services/ldapService.js:741-746 | a modify with the single change `delete` of the user's DN from `member`; `MembershipRoundTrip` states its effect |
| SecurityMiddleware.IsValidLdapDn | ldap-admin-web/src/middleware/security.js:185-200 | `isValidLDAPDN`; `IsValidLdapDnIff` and `IsValidLdapDnBounds` state it |
| SecurityMiddleware.SanitizeObject | ldap-admin-web/src/middleware/security.js:29-53 | `sanitizeObject` as a recursive definition, prototype included; `SanitizeObjectLoop` is proved equal to it and the `Assigned*` lemmas and `SanitizeBounded` state its result |
| SecurityMiddleware.Lookup | ldap-admin-web/src/middleware/security.js:12 | reading a property of the sanitised body: its own entry, else along the prototype chain |
| SecurityMiddleware.ErrorList | ldap-admin-web/src/middleware/security.js:130-182 | the errors of `validateUserInput` as the checks in their order; `ErrorListSpec` and `ErrorListEmpty` state it |
| Directory.Apply | ldap-admin-web/src/services/ldapService.js:537 | what the directory does with one change of the modify sent here, per section 4.6 of RFC 4511: `add` refuses a present value, `delete` a missing one, `replace` sets the values |
| Directory.ApplyAll | ldap-admin-web/src/services/ldapService.js:669 | a modify's changes applied in order, the first refusal ending it; `ApplyAllUntouched`, `ApplyAllReplaces` and `LdapService.ApplyAllAppend` state it |
| Directory.ModifyEntry | ldap-admin-web/src/services/ldapService.js:720 | the changes of a modify and then the schema check on the entry they give |
| Directory.SchemaOk | ldap-admin-web/src/services/ldapService.js:583-584 | the rule of section 3.5 of RFC 4519 that a `groupOfNames` entry has a `member` |
| Directory.DeleteEntry | ldap-admin-web/src/services/ldapService.js:554-572 | the delete of section 4.8 of RFC 4511 on a directory of entries by DN; `DeleteEntrySpec` states it |
| LdapService.Delete | ldap-admin-web/src/services/ldapService.js:686-705 | one delete request for the DN, answered by the directory; `DeleteSpec` states it |
| AuthMiddleware.DedupeOrder | ldap-admin-web/src/middleware/auth.js:108 | `[...new Set(roles)]` lists the values in the order of their first occurrences |
| AuthMiddleware.Roles | ldap-admin-web/src/middleware/auth.js:85-113 | `getUserRoles`: `['user']` when the lookup fails, otherwise the de-duplicated `user` and group roles; `RolesSpec` and `AdminRoleIff` state it |
| AuthMiddleware.Replay | ldap-admin-web/src/middleware/auth.js:223-255 | a session through a sequence of requests; `ActiveSessionStays` states that active use keeps it |
| LdapConnection.Run | ldap-admin-web/src/services/ldapService.js:25-48 | the connection state after a sequence of client events; `RunBounded` and `ErrorsFrom` state it |

## Left out

- The `ldapjs` client is not modelled: its sockets, bind/search/add/modify/delete callbacks and search event streams. The directory is a sink for the request values in `Directory`. A search result or a bind outcome is a parameter.
- Promises, `async`/`await`, `setTimeout` and the reconnect timer are not modelled, because they concern timing. A retry is a counter step in `LdapConnection`.
- Logging (`logger.js`) is not modelled, because it is only file I/O.
- The Express wiring is not modelled: `app.js`, `routes/auth.js`, `routes/api.js`, `routes/education.js`, session cookies, redirects and flash messages. These add no logic beyond calls into the modelled code.
- `config/index.js` is not part of this model. The defaults it supplies (the admin DN and the user base DN) are constants in `LdapService`.
- The DOM, toasts, modals and animations are not modelled. This covers `login.js`, the field styling that `validateField` applies and `TableUtils`, which also depends on `localeCompare`.
- `formatBytes` is not modelled, because it uses floating-point `Math.log`.
- `generateUUID` and `addRandomDelay` are not modelled, because they use `Math.random`.
- `Date` timestamps are parameters: `now` and `lastActivity`; the session's `lastLogin` is the `now` text `AuthenticateUser` is given.
- `sanitize-html` and the `validator` package's `isEmail` and `isAlphanumeric` are function parameters. `isLength` is written out as current releases of `validator` define it, discounting the presentation selectors U+FE0E and U+FE0F; older releases, which count them, are not modelled.
- `express-rate-limit`, `express-validator` and `helmet` are not modelled, because they are foreign libraries configured by constants.
- Strings are sequences of Unicode characters, not of UTF-16 code units. This has two effects for characters outside the Basic Multilingual Plane:
  - The length bounds that read `.length` count them as one character where JavaScript counts two. This covers the minimums of 2, 3 and 6 in the routes and the browser checks, the 500-character DN maximum and the 10000-character sanitiser cut. The 3..50 username and 8-character password bounds of `validateUserInput` go through `validator.isLength`, which itself counts a surrogate pair once, so they are exact.
  - LdapStats.SortDepartments orders department names by code point (`StrLeq`), while `Array.prototype.sort()` compares UTF-16 code units. Two names such as `\uFF01` and an emoji therefore sort in opposite orders.
- `toLowerCase` is modelled for ASCII letters only, so other letters keep their case in the model.
- Form fields are strings, with `""` for an absent field. A non-string body value (a number, a nested array) is not modelled except where the code tests its type.
- The icon tables are lookups over the listed keys. A type that names an inherited `Object.prototype` property (such as `constructor`) is not modelled.
- LdapStats.Bump: `departments` is an ordered list of keys and counts in insertion order. Two behaviours of a JavaScript object are not modelled:
  - A JavaScript object lists integer-like keys first, in ascending order. Departments `20` and then `10` therefore appear as `10, 20` in JavaScript and as `20, 10` in the model.
  - A department named after an inherited property is mishandled by JavaScript. A department called `__proto__` is dropped, and one called `constructor` starts from the inherited function instead of 0. The model counts both like any other name.
- The checks that choose between a JSON answer and a page read `req.xhr || req.headers.accept.indexOf('json') > -1`. This covers `requireAuth`, `requireRole`, `validateSession` and the user list. The model takes the result as the boolean `wantsJson`. A request with no `Accept` header that is not an XHR makes that expression throw a `TypeError`, which the error handler answers with 500. This case is not modelled.
- Dashboard.Paginate: the search asks the directory for at most `limit * 2` entries. That size limit belongs to the directory and is not modelled; the user list is a parameter.
- An explicit `null` base DN passed to `generateUserDN`, which JavaScript would print as `null`, is not modelled. An omitted base DN takes the default.
- Objects never hold a key twice, because `Put` replaces an existing key. A source object literal with duplicate keys is not modelled.
- SecurityMiddleware.SanitizeObject: an input object is taken to hold each key once, as `JSON.parse` and `Object.entries` give it, so an own key is appended rather than overwritten. The methods `Object.prototype` supplies (`toString` and the like) are not read by `Lookup`.
- Validations.FormValidator.ValidateField: a `minLength`/`maxLength` rule whose `value` is not a number is not modelled; rule values are integers.
- Validations.FormValidator.ValidateField: a field named like a property every object inherits (`constructor`, `toString`, `__proto__`) with no rule of its own finds that inherited value in the plain `rules` object, passes the guard at `validations.js:45` and throws a `TypeError` at the `for … of` of line 53; the model has no exceptions and treats it as a field without rules, so `ValidateField` and `Validations.FieldVerdict` answer valid there.
- LdapService.Delete: the delete routes decode the DN from the URL and report through a flash message and a redirect; that is not modelled. The connection and bind failures before the delete, and the unused `deleteEntry`, are not modelled either.
- LdapStats.UserGroups: only the definition at `ldapService.js:785` is modelled, because it overrides the one at `:369`.
- SecurityMiddleware.DetectSuspiciousActivity: the `JSON.stringify` text of the body is a parameter.
- AuthMiddleware.AuthenticateUser: the catch branch that answers `Error interno del servidor` is not modelled. The service's `authenticateUser` settles every failure as an unsuccessful result, so that branch would only catch a thrown exception.

## Findings

| source | as written | input that shows it | evidently intended | confidence | as-written member | corrected member |
|---|---|---|---|---|---|---|
| ldap-admin-web/src/routes/dashboard.js:38-55 | `parseInt(req.query.limit) \|\| 20` keeps a negative limit, because it is truthy. `slice` then reads the negative end from the back. | `?page=1&limit=-1` with three users that have a `cn` lists two of them, more than the limit. The same request asks the directory for a size limit of -2, which section 4.5.1 of RFC 4511 does not allow; how a server answers that is outside the model. | only a positive page and limit are taken from the query, so a page never holds more than `limit` users | not executed | Dashboard.PaginateNegativeLimit | Dashboard.PaginatePositiveWindow |
