# HR directory: a verified Dafny model

This project models the in-memory Human Resources directory `HRModel` and the user records it
stores. The directory holds administrators and employees keyed by integer ID. A single session
slot records who is signed in. Two counters hand out IDs: employees count up from 1 and
administrators count down from 0. Every operation checks its conditions in a fixed order. An
operation that fails changes nothing.

The model is split into six files:

- `errors.dfy` (module `Errors`): the three exception kinds (IllegalArgument, IllegalState,
  Unsupported) and the `Option`, `Result` and `Outcome` wrappers. A nullable Java string is an
  `Option<string>`.
- `strings.dfy` (module `Strings`): `String.contains` as a predicate. A lemma proves it equal to the
  positional reading (the pattern occurs at some index). Other lemmas find a prefix or suffix and
  rule out a pattern whose first character is absent.
- `users.dfy` (module `Users`): the closed variant `User` with three cases: `Administrator`,
  `StandardEmployee` and `Manager`. It also has the type tags, the constructors' validation, the
  AEmployee and Manager setters, and the IUser defaults that fail with Unsupported on an
  administrator. A record is a value. A setter returns the updated record.
- `directory.dfy` (module `Directory`): the directory state as values. It holds the invariant
  that every reachable state keeps, the three permission checks, and the link and removal steps
  as functions of the user map (`Linked`, `Removed`), with lemmas about them.
- `hr_model.dfy` (module `HumanResources`): the class `HRModel`. It has the fields `users`,
  `currentUser`, `nextEmployeeId` and `nextAdminId`, and its methods update them in place. Each
  method states its error cases in the source's order. It also states the new state, either
  directly or as a function from the `Directory` layer, and it keeps `Valid()`.
- `scenarios.dfy` (module `Scenarios`): two walkthroughs that follow from the contracts alone.
  In the first, a manager sets a reporting employee's salary but not its own. In the second, a
  caller who is not an administrator changes nothing.

The type-tag checks in `HRModel.java` are kept as string tests, exactly as written: `equals`
against "Administrator" and "AEmployee, Manager", and `contains` of "AEmployee" and "Manager".
Lemmas prove that each test picks out exactly one variant.

The following behaviours of the code are worth noting:

- Every permission failure and every unknown ID raises IllegalState, as the `@throws` clauses of
  `IHumanResourcesModel.java` document. No separate "not found" or "permission denied" kind
  exists.
- Removing a Manager leaves a dangling link in each employee that reported to it. Those
  employees still name the removed ID as their manager. The invariant `LinksConsistent` therefore
  only covers managers that are still in the directory. It also requires every link to name an
  ID that was already handed out, so a new user can never pick up a stale link.
- `linkEmployeeAndManager` makes no session check (`HRModel.java:203-227`), although the
  `@throws` clause at `IHumanResourcesModel.java:80-84` lists a permission failure.
- `linkEmployeeAndManager` accepts a Manager as its own manager. After that, the Manager has
  write access to its own record (`SelfLinkGrantsSelfWrite`).

## Model

| member | source | states |
|---|---|---|
| Strings.ContainsIffOccurs | src/model/HRModel.java:209-210 | The recursive `Contains` used for `String.contains` holds exactly when the pattern occurs starting at some index of the string, in both directions. |
| Users.AdministratorTag | src/model/users/Administrator.java:72-75 | The tag equals "Administrator" exactly for administrators. An administrator's tag contains neither "AEmployee" nor "Manager". |
| Users.StandardEmployeeTag | src/model/users/StandardEmployee.java:42-45 | A standard employee's tag contains "AEmployee". It is not "AEmployee, Manager" and does not contain "Manager". |
| Users.ManagerTag | src/model/users/Manager.java:49-52 | The tag equals "AEmployee, Manager" exactly for managers. A manager's tag contains both "AEmployee" and "Manager". |
| Users.TagTests | src/model/HRModel.java:209-211 | Each of the four tag tests the directory uses holds exactly for one variant, or for the employee variants together. |
| Users.NewAdministrator | src/model/users/Administrator.java:30-44 | Fails with IllegalArgument exactly when the name is null or the password is null or empty. Otherwise it builds an administrator with the given ID, name and password. |
| Users.NewStandardEmployee | src/model/users/StandardEmployee.java:25-28 | Fails with IllegalArgument exactly when the name is null, the password is null or empty, or the salary, vacation or bonus is negative. Otherwise it builds a standard employee with the given values, an empty salary history and no manager. |
| Users.NewManager | src/model/users/Manager.java:30-34 | Applies the same validation as an employee. On success it builds a manager with an empty salary history, no manager and no reporting employees. |
| Users.GetSalary | src/model/users/AEmployee.java:98-101 | Returns the salary for an employee. An administrator gets Unsupported. |
| Users.GetSalaryHistory | src/model/users/AEmployee.java:114-117 | Returns the salary history for an employee. An administrator gets Unsupported. |
| Users.GetVacationBalance | src/model/users/AEmployee.java:119-122 | Returns the vacation balance for an employee. An administrator gets Unsupported. |
| Users.GetAnnualBonus | src/model/users/AEmployee.java:134-137 | Returns the annual bonus for an employee. An administrator gets Unsupported. |
| Users.SetSalary | src/model/users/AEmployee.java:103-112 | An administrator gets Unsupported. A negative salary gets IllegalArgument. Otherwise the old salary is appended to the end of the history and the salary becomes the new value. Nothing else changes and non-negativity is kept. |
| Users.SetVacationBalance | src/model/users/AEmployee.java:124-132 | A negative balance gets IllegalArgument and an administrator gets Unsupported. Otherwise only the balance changes; the salary history is untouched. |
| Users.SetAnnualBonus | src/model/users/AEmployee.java:139-146 | A negative bonus gets IllegalArgument and an administrator gets Unsupported. Otherwise only the bonus changes; the salary history is untouched. |
| Users.SetInHumanResources | src/model/users/AEmployee.java:148-156 | On an employee, `IsInHumanResources` afterwards answers the new flag and nothing else changes. An administrator gets Unsupported. |
| Users.GetManager | src/model/users/AEmployee.java:158-164 | Returns the manager's ID. With no manager set it fails with IllegalState. An administrator gets Unsupported. |
| Users.SetManager | src/model/users/AEmployee.java:166-169 | Overwrites the manager link (None clears it). The record's own reporting set is left alone. An administrator gets Unsupported. |
| Users.AddReportingEmployee | src/model/users/Manager.java:62-69 | A null employee gets IllegalArgument and nothing changes. Otherwise the reporting set gains the employee's ID. The manager's own link, pay and flag are unchanged. |
| Users.RemoveReportingEmployee | src/model/users/Manager.java:78-80 | Reports whether the ID was present. Afterwards the ID is absent, every other entry stays, and the manager's own link is unchanged. |
| Users.ReAddReportingEmployee | src/model/users/Manager.java:68 | Adding an employee that is already present is the same as adding it once: the entry is replaced, not duplicated. |
| Users.AddThenRemoveReportingEmployee | src/model/users/Manager.java:62-80 | Removing right after adding finds the entry and leaves the original set minus that ID. |
| Users.AdministratorUnsupported | src/model/users/IUser.java:62-179 | On an administrator, every employee-only getter and setter fails with Unsupported, and `IsInHumanResources` is false. |
| Directory.IdSpacesDisjoint | src/model/users/Administrator.java:39-40 | In every reachable state a stored ID is at most 0 exactly when it belongs to an administrator, and each record is stored under its own ID. |
| Directory.AddedEmployeePreservesInvariant | src/model/users/AEmployee.java:54-55 | The employee counter's value is never a stored key. Adding the new employee under it and moving the counter up by one keeps the invariant. |
| Directory.AddedAdministratorPreservesInvariant | src/model/HRModel.java:172-173 | The administrator counter's value is never a stored key. Adding the new administrator under it and moving the counter down by one keeps the invariant. |
| Directory.ReplacedPreservesInvariant | src/model/HRModel.java:312-322 | Writing back a record with the same identity, the same links and non-negative pay keeps the invariant. This is what every setter and the HR-flag change do. |
| Directory.VerifyAdministrator | src/model/HRModel.java:113-120 | Passes exactly when someone is signed in and that user is an administrator. Otherwise it fails with IllegalState. |
| Directory.ReadAccess | src/model/HRModel.java:235-269 | Passes exactly when the caller is signed in and one of these holds: the caller is an administrator, the target is the caller, the caller is in HR and the target is not, or the caller is a manager whose set contains the target. Otherwise it fails with IllegalState. |
| Directory.WriteAccess | src/model/HRModel.java:275-299 | Passes exactly for an administrator, or for a manager whose set contains the target. Self-access and HR membership grant nothing. |
| Directory.WriteAccessImpliesReadAccess | src/model/HRModel.java:235-299 | Write access implies read access. |
| Directory.StandardEmployeeAccess | src/model/HRModel.java:245-267 | A signed-in standard employee never has write access. It may read only its own record, or, when it is in HR, a record outside HR. |
| Directory.OwnRecordAccess | src/model/HRModel.java:247-250 | An employee may always read its own record. It may write it only as a manager that lists itself. |
| Directory.SignedOutAccess | src/model/HRModel.java:240-242 | With no session, both read and write access are refused. |
| Directory.DetachFromManager | src/model/HRModel.java:217-223 | If the employee's previous manager is still stored, the employee leaves that manager's set. No key, identity, pay or link changes otherwise. |
| Directory.LinkedEffect | src/model/HRModel.java:217-226 | This is `Linked` record by record. Only E's link changes, and it now names M. A set loses E if it belonged to E's previous manager, and M's set gains E. |
| Directory.LinkedResult | src/model/HRModel.java:217-226 | After linking, E points at M and M's set is its old set plus E. The previous manager's set no longer holds E. Every record other than E, M and the previous manager is unchanged. |
| Directory.LinkedKeepsRecords | src/model/HRModel.java:225-226 | Linking keeps keys, ID ranges and non-negativity. |
| Directory.LinkedKeepsLinks | src/model/HRModel.java:217-226 | Linking keeps the manager links and the reporting sets in agreement. |
| Directory.LinkedPreservesInvariant | src/model/HRModel.java:203-227 | Linking keeps the whole directory invariant. |
| Directory.RemovedEffect | src/model/HRModel.java:187-199 | This is `Removed`. The key is gone. The returned record keeps its identity, pay and HR flag, and its manager link is cleared. A returned Manager's own set loses the ID exactly when it managed itself. If the record had another stored manager, that manager's set loses the ID. Every other record is unchanged. |
| Directory.RemovedPreservesInvariant | src/model/HRModel.java:177-200 | Removing any user other than the signed-in one keeps the whole invariant, the session included. |
| Directory.LinkThenRemove | src/model/HRModel.java:188-197 | Linking E to M and then removing E returns M's set to its state before the link, minus E. The returned E has no manager. |
| Directory.Relink | src/model/HRModel.java:217-226 | Re-linking E from M1 to M2 leaves E in M2's set, out of M1's, and pointing at M2. |
| Directory.SelfLinkGrantsSelfWrite | src/model/HRModel.java:206-215 | Linking a manager to itself is accepted. Afterwards that manager, when signed in, may write its own record. |
| HumanResources.HRModel.constructor | src/model/HRModel.java:46-48 | The directory holds exactly the "Default Admin" administrator under ID 0 and no one is signed in. The counters stand at 1 and -1. |
| HumanResources.HRModel.Create | src/model/HRModel.java:40-49 | A null or empty default password gets IllegalArgument. Otherwise it returns a valid directory holding only the default administrator. |
| HumanResources.HRModel.LogIn | src/model/HRModel.java:84-99 | Checks in this order: a null or empty password gets IllegalArgument, an unknown ID gets IllegalState, and a digest mismatch (`correctPassword`) gets IllegalState with the session unchanged. Otherwise the session becomes that ID, replacing any previous one. |
| HumanResources.HRModel.LogOut | src/model/HRModel.java:107-109 | The session is empty afterwards. |
| HumanResources.HRModel.ChangeHRStatus | src/model/HRModel.java:123-135 | Checks in this order: the admin gate, then an unknown ID (IllegalState), then an administrator target (Unsupported). On success only the target's HR flag changes. |
| HumanResources.HRModel.AddEmployee | src/model/HRModel.java:137-161 | Checks in this order: the admin gate, a null or empty password, a type other than "Standard Employee" or "Manager", then the constructor's validation. Every failure after the admin gate is IllegalArgument. On success the directory gains exactly one entry, under the old employee counter, which was not a key before. Existing entries are unchanged and the counter moves up by one. |
| HumanResources.HRModel.AddAdministrator | src/model/HRModel.java:163-174 | Checks in this order: the admin gate, a null or empty password, then a null name. Every failure after the admin gate is IllegalArgument. On success the directory gains exactly one administrator, under the old administrator counter, and the counter moves down by one. |
| HumanResources.HRModel.RemoveUser | src/model/HRModel.java:176-200 | Checks in this order: the admin gate, an unknown ID, then the signed-in user's own ID (each IllegalState). On success the new directory and the returned record are `Removed` of the old directory. |
| HumanResources.HRModel.LinkEmployeeAndManager | src/model/HRModel.java:202-227 | With no session check, it succeeds exactly when both IDs exist, the manager is a Manager and the employee is an employee. The new directory is then `Linked` of the old one. Otherwise it gives IllegalState and nothing changes. |
| HumanResources.HRModel.GetSalary | src/model/HRModel.java:301-310 | An unknown or unreadable ID gets IllegalState and an administrator target gets Unsupported. Otherwise it returns the target's salary. |
| HumanResources.HRModel.GetSalaryHistory | src/model/HRModel.java:324-333 | Same checks as `GetSalary`. Returns the target's salary history. |
| HumanResources.HRModel.GetVacationBalance | src/model/HRModel.java:335-344 | Same checks as `GetSalary`. Returns the target's vacation balance, which is non-negative. |
| HumanResources.HRModel.GetAnnualBonus | src/model/HRModel.java:358-367 | Same checks as `GetSalary`. Returns the target's annual bonus, which is non-negative. |
| HumanResources.HRModel.SetSalary | src/model/HRModel.java:312-322 | An unknown or unwritable ID gets IllegalState, an administrator target gets Unsupported, and a negative salary gets IllegalArgument; each leaves the directory unchanged. Otherwise only the target's record changes, as `Users.SetSalary` describes. |
| HumanResources.HRModel.SetVacationBalance | src/model/HRModel.java:346-356 | Same checks and frame as `SetSalary`, with the change made by `Users.SetVacationBalance`. |
| HumanResources.HRModel.SetAnnualBonus | src/model/HRModel.java:369-379 | Same checks and frame as `SetSalary`, with the change made by `Users.SetAnnualBonus`. |

## Left out

- Password hashing: `String.hashCode()` is not reproduced. The directory takes the digest function as a constructor parameter (`digest`), whose results are never empty, as `hashCode() + ""` never is.
- `promoteToManager` and `demoteToStandard` are declared by the interface but not implemented in `HRModel`. The copy constructors they would rely on call an `AEmployee(AEmployee)` constructor that does not exist.
- ID counters are static in the source and shared by every `HRModel` instance. The model gives each directory its own pair of counters, starting at 1 and 0. It does not model the `setNextID` hooks that reset them, which could make a later user overwrite an existing entry.
- User records are values in the directory's map and do not have object identity. In the source, a removed record stays a live object. An employee can still point at a removed Manager, and relinking that employee edits the removed Manager's map. None of this is visible through the directory, so the model leaves it out.
- `getUsers`, `getReportingEmployees` and `getSalaryHistory` return live internal collections. The model returns values and does not model changes made through those references.
- A Manager's reporting map is modelled as the set of its keys. Each value in the source is the employee stored under that key.
- Users.RemoveReportingEmployee: returns whether the ID was present rather than the removed employee object.
- HumanResources.HRModel.constructor: takes the already digested password. The validation of the plain password is in `Create`, because a constructor cannot report an error.
- Salaries and bonuses are `double` in the source and `real` here. They are only stored and compared with zero, so there is no rounding to model. NaN is not modelled. In Java, `salary < 0` is false for NaN (`AEmployee.java:49, 106, 142`), so the constructor, `setSalary` and `setAnnualBonus` accept and store NaN. `NonNegative` and `AllNonNegative`, and the non-negative results of the getters, therefore hold only for the model's reals.
- The employee counter is a Java `int` and `currentId++` (`AEmployee.java:55`) wraps past 2147483647 into the negative administrator range. The model's counters are unbounded, so `Directory.IdSpacesDisjoint` does not cover a directory that has handed out more than 2^31 - 1 employee IDs.
- Exception messages are not modelled; only the exception kind is.
- `getId`, `getName` and `getCurrentUser` are plain field reads (`Current()` gives the signed-in record). They carry no contract of their own.
- `Users.CorrectPassword` (`correctPassword`, `AEmployee.java:89-91`, `Administrator.java:67-70`), `Users.IsInHumanResources` (`isInHumanResources`, `AEmployee.java:148-151`, `Administrator.java:77-80`) and `Users.UserType` (the three `getUserType` overrides) are one-line comparisons or constants. They carry no contract of their own. Their behaviour is stated where it matters: `HRModel.LogIn` for the password test, `Users.SetInHumanResources` and `Users.AdministratorUnsupported` for the HR flag, and the tag lemmas for the type tags. `Strings.Contains` is stated by `Strings.ContainsIffOccurs`.
