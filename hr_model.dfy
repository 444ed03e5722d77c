/** HRModel: the directory of users keyed by ID, the single session slot, and the two ID
    counters, updated in place by its operations. Every operation checks its conditions in
    the source's order and changes nothing when one fails. */
module HumanResources {
  import opened Errors
  import opened Strings
  import opened Users
  import opened Directory

  /** What the directory stores instead of a password: `hashCode() + ""`, never empty. */
  type Digest = s: string | s != "" witness "0"

  /** The names addEmployee accepts for the two employee variants. */
  predicate IsEmployeeTypeName(employeeType: Option<string>) {
    employeeType == Some("Standard Employee") || employeeType == Some("Manager")
  }

  class HRModel {
    var users: map<int, User>
    /** The ID of the signed-in user, if any. */
    var currentUser: Option<int>
    var nextEmployeeId: int
    var nextAdminId: int
    /** The password digest function. */
    const digest: string -> Digest

    ghost predicate Valid()
      reads this
    {
      DirectoryInvariant(users, currentUser, nextEmployeeId, nextAdminId)
    }

    /** The signed-in user's record (getCurrentUser). */
    function Current(): Option<User>
      reads this
      requires Valid()
    {
      if currentUser.Some? then Some(users[currentUser.value]) else None
    }

    /** verifyAdministrator passes in this state. */
    predicate IsAdminSession()
      reads this
      requires Valid()
    {
      VerifyAdministrator(Current()).Pass?
    }

    /** The ID exists and the signed-in user may read it. */
    predicate Readable(id: int)
      reads this
      requires Valid()
    {
      id in users && ReadAccess(users, Current(), id).Pass?
    }

    /** The ID exists and the signed-in user may write it. */
    predicate Writable(id: int)
      reads this
      requires Valid()
    {
      id in users && WriteAccess(users, Current(), id).Pass?
    }

    /** The part of HRModel's constructor after the password is validated and digested:
        one administrator, "Default Admin", takes the first administrator ID (0). */
    constructor (adminPassword: Digest, digest: string -> Digest)
      ensures Valid() && this.digest == digest
      ensures users == map[0 := Administrator(0, "Default Admin", adminPassword)]
      ensures currentUser == None && nextEmployeeId == 1 && nextAdminId == -1
    {
      this.digest := digest;
      var admin := NewAdministrator(Some("Default Admin"), Some(adminPassword), 0);
      users := map[admin.value.id := admin.value];
      currentUser := None;
      nextEmployeeId := 1;
      nextAdminId := -1;
    }

    /** HRModel's constructor: a null or empty default password is IllegalArgument;
        otherwise a directory holding only the default administrator, with no one signed in. */
    static method Create(defaultAdminPassword: Option<string>, digest: string -> Digest)
      returns (r: Result<HRModel>)
      ensures r.Err? <==> defaultAdminPassword.None? || defaultAdminPassword.value == ""
      ensures r.Err? ==> r.error == IllegalArgument
      ensures r.Ok? ==> fresh(r.value) && r.value.Valid() && r.value.digest == digest
                        && r.value.currentUser == None
                        && r.value.nextEmployeeId == 1 && r.value.nextAdminId == -1
                        && r.value.users == map[0 := Administrator(0, "Default Admin",
                                                                   digest(defaultAdminPassword.value))]
    {
      if defaultAdminPassword.None? || defaultAdminPassword.value == "" {
        return Err(IllegalArgument);
      }
      var model := new HRModel(digest(defaultAdminPassword.value), digest);
      r := Ok(model);
    }

    /** logIn: an empty or null password is IllegalArgument, an unknown ID IllegalState, a
        wrong password IllegalState; otherwise that user replaces whoever was signed in. */
    method LogIn(id: int, passwd: Option<string>) returns (r: Outcome)
      requires Valid()
      modifies this`currentUser
      ensures Valid()
      ensures passwd.None? || passwd.value == "" ==> r == Fail(IllegalArgument)
      ensures passwd.Some? && passwd.value != "" && id !in users ==> r == Fail(IllegalState)
      ensures passwd.Some? && passwd.value != "" && id in users
              && !CorrectPassword(users[id], digest(passwd.value))
              ==> r == Fail(IllegalState)
      ensures r.Pass? <==> passwd.Some? && passwd.value != "" && id in users
                           && CorrectPassword(users[id], digest(passwd.value))
      ensures r.Pass? ==> currentUser == Some(id)
      ensures r.Fail? ==> currentUser == old(currentUser)
    {
      if passwd.None? || passwd.value == "" {
        return Fail(IllegalArgument);
      }
      if id !in users {
        return Fail(IllegalState);
      }
      if CorrectPassword(users[id], digest(passwd.value)) {
        currentUser := Some(id);
        r := Pass;
      } else {
        r := Fail(IllegalState);
      }
    }

    /** logOut: no one is signed in afterwards, whoever was before. */
    method LogOut()
      requires Valid()
      modifies this`currentUser
      ensures Valid() && currentUser == None
    {
      currentUser := None;
    }

    /** changeHRStatus: the administrator gate, then an unknown ID is IllegalState and an
        administrator target Unsupported; otherwise only the target's HR flag changes. */
    method ChangeHRStatus(id: int, inHumanResources: bool) returns (r: Outcome)
      requires Valid()
      modifies this`users
      ensures Valid()
      ensures !old(IsAdminSession()) ==> r == Fail(IllegalState)
      ensures old(IsAdminSession()) && id !in old(users) ==> r == Fail(IllegalState)
      ensures old(IsAdminSession()) && id in old(users) && old(users)[id].Administrator?
              ==> r == Fail(Unsupported)
      ensures r.Pass? <==> old(IsAdminSession()) && id in old(users) && old(users)[id].IsEmployee()
      ensures r.Fail? ==> users == old(users)
      ensures r.Pass? ==> users.Keys == old(users).Keys
                          && IsInHumanResources(users[id]) == inHumanResources
                          && users == old(users)[id := users[id]]
                          && SameIdentity(old(users)[id], users[id])
                          && SameLinks(old(users)[id], users[id])
                          && SamePay(old(users)[id], users[id])
    {
      var gate := VerifyAdministrator(Current());
      if gate.Fail? {
        return gate;
      }
      if id !in users {
        return Fail(IllegalState);
      }
      var target := SetInHumanResources(users[id], inHumanResources);
      if target.Err? {
        return Fail(target.error);
      }
      ReplacedPreservesInvariant(users, currentUser, nextEmployeeId, nextAdminId, id, target.value);
      users := users[id := target.value];
      r := Pass;
    }

    /** addEmployee: the administrator gate; a null or empty password, then an employee type
        other than "Standard Employee" or "Manager", is IllegalArgument; then the constructor's
        own validation. On success exactly one entry is added, under the employee counter,
        which then moves up by one. */
    method AddEmployee(employeeType: Option<string>, name: Option<string>, password: Option<string>,
                       salary: real, vacationBalance: int, annualBonus: real, inHumanResources: bool)
      returns (r: Outcome)
      requires Valid()
      modifies this`users, this`nextEmployeeId
      ensures Valid()
      ensures !old(IsAdminSession()) ==> r == Fail(IllegalState)
      ensures old(IsAdminSession()) && (password.None? || password.value == "")
              ==> r == Fail(IllegalArgument)
      ensures old(IsAdminSession()) && password.Some? && password.value != ""
              && !IsEmployeeTypeName(employeeType)
              ==> r == Fail(IllegalArgument)
      ensures old(IsAdminSession()) && password.Some? && password.value != ""
              && IsEmployeeTypeName(employeeType)
              ==> (r.Pass? <==> name.Some? && salary >= 0.0 && vacationBalance >= 0
                                && annualBonus >= 0.0)
      ensures old(IsAdminSession()) && r.Fail? ==> r.error == IllegalArgument
      ensures r.Fail? ==> users == old(users) && nextEmployeeId == old(nextEmployeeId)
      ensures r.Pass? ==> old(nextEmployeeId) !in old(users)
                          && nextEmployeeId == old(nextEmployeeId) + 1
                          && old(nextEmployeeId) in users
                          && users == old(users)[old(nextEmployeeId) := users[old(nextEmployeeId)]]
                          && FreshEmployee(users[old(nextEmployeeId)], old(nextEmployeeId),
                                           name.value, digest(password.value), salary,
                                           vacationBalance, annualBonus, inHumanResources)
                          && (users[old(nextEmployeeId)].Manager? <==> employeeType == Some("Manager"))
                          && (users[old(nextEmployeeId)].Manager?
                              ==> users[old(nextEmployeeId)].reports == {})
    {
      var gate := VerifyAdministrator(Current());
      if gate.Fail? {
        return gate;
      }
      if password.None? || password.value == "" {
        return Fail(IllegalArgument);
      }
      if employeeType.None? || (employeeType.value != "Standard Employee"
                                && employeeType.value != "Manager") {
        return Fail(IllegalArgument);
      }
      var created;
      if employeeType.value == "Standard Employee" {
        created := NewStandardEmployee(name, Some(digest(password.value)), salary, vacationBalance,
                                       annualBonus, inHumanResources, nextEmployeeId);
      } else {
        created := NewManager(name, Some(digest(password.value)), salary, vacationBalance,
                              annualBonus, inHumanResources, nextEmployeeId);
      }
      if created.Err? {
        return Fail(created.error);
      }
      AddedEmployeePreservesInvariant(users, currentUser, nextEmployeeId, nextAdminId, created.value);
      users := users[created.value.id := created.value];
      nextEmployeeId := nextEmployeeId + 1;
      r := Pass;
    }

    /** addAdministrator: the administrator gate, then a null or empty password is
        IllegalArgument, then the constructor rejects a null name. On success exactly one
        entry is added, under the administrator counter, which then moves down by one. */
    method AddAdministrator(name: Option<string>, password: Option<string>) returns (r: Outcome)
      requires Valid()
      modifies this`users, this`nextAdminId
      ensures Valid()
      ensures !old(IsAdminSession()) ==> r == Fail(IllegalState)
      ensures old(IsAdminSession()) && (password.None? || password.value == "")
              ==> r == Fail(IllegalArgument)
      ensures old(IsAdminSession()) && password.Some? && password.value != ""
              ==> (r.Pass? <==> name.Some?)
      ensures old(IsAdminSession()) && r.Fail? ==> r.error == IllegalArgument
      ensures r.Fail? ==> users == old(users) && nextAdminId == old(nextAdminId)
      ensures r.Pass? ==> old(nextAdminId) !in old(users)
                          && nextAdminId == old(nextAdminId) - 1
                          && users == old(users)[old(nextAdminId) :=
                                                 Administrator(old(nextAdminId), name.value,
                                                               digest(password.value))]
    {
      var gate := VerifyAdministrator(Current());
      if gate.Fail? {
        return gate;
      }
      if password.None? || password.value == "" {
        return Fail(IllegalArgument);
      }
      var created := NewAdministrator(name, Some(digest(password.value)), nextAdminId);
      if created.Err? {
        return Fail(created.error);
      }
      AddedAdministratorPreservesInvariant(users, currentUser, nextEmployeeId, nextAdminId,
                                           created.value);
      users := users[created.value.id := created.value];
      nextAdminId := nextAdminId - 1;
      r := Pass;
    }

    /** removeUser: the administrator gate, then an unknown ID or the signed-in user's own ID
        is IllegalState. Otherwise the entry is removed and returned, unlinked from its
        manager (see Directory.Removed). */
    method RemoveUser(id: int) returns (r: Result<User>)
      requires Valid()
      modifies this`users
      ensures Valid()
      ensures !old(IsAdminSession()) ==> r == Err(IllegalState)
      ensures old(IsAdminSession()) && id !in old(users) ==> r == Err(IllegalState)
      ensures old(IsAdminSession()) && currentUser == Some(id) ==> r == Err(IllegalState)
      ensures r.Ok? <==> old(IsAdminSession()) && id in old(users) && currentUser != Some(id)
      ensures r.Err? ==> users == old(users)
      ensures r.Ok? ==> (users, r.value) == Removed(old(users), id)
    {
      var gate := VerifyAdministrator(Current());
      if gate.Fail? {
        return Err(gate.error);
      }
      if id !in users {
        return Err(IllegalState);
      }
      assert WellKeyed(users);
      if id == users[currentUser.value].id {
        assert users[currentUser.value].id == currentUser.value;
        assert currentUser == Some(id);
        return Err(IllegalState);
      }
      RemovedPreservesInvariant(users, currentUser, nextEmployeeId, nextAdminId, id);
      ghost var before := users;
      var removed := users[id];
      users := users - {id};
      var previous := GetManager(removed);
      if previous.Ok? {
        if previous.value == id && removed.Manager? {
          // the removed Manager is its own manager: it leaves its own reporting set
          removed := RemoveReportingEmployee(removed, id).0;
        } else if previous.value in users && users[previous.value].Manager? {
          users := users[previous.value := RemoveReportingEmployee(users[previous.value], id).0];
        }
        removed := SetManager(removed, None).value;
      }
      assert (users, removed) == Removed(before, id);
      r := Ok(removed);
    }

    /** linkEmployeeAndManager: no session check. Both IDs must exist, the manager's tag must
        be exactly "AEmployee, Manager" and the employee's must contain "AEmployee", or it is
        IllegalState. Then the employee leaves its old manager's set, points at the new
        manager, and joins the new manager's set. */
    method LinkEmployeeAndManager(employeeID: int, managerID: int) returns (r: Outcome)
      requires Valid()
      modifies this`users
      ensures Valid()
      ensures r.Pass? <==> employeeID in old(users) && managerID in old(users)
                           && old(users)[managerID].Manager? && old(users)[employeeID].IsEmployee()
      ensures r.Fail? ==> r.error == IllegalState && users == old(users)
      ensures r.Pass? ==> users == Linked(old(users), employeeID, managerID)
    {
      if employeeID !in users || managerID !in users {
        return Fail(IllegalState);
      }
      TagTests(users[managerID]);
      TagTests(users[employeeID]);
      if UserType(users[managerID]) != "AEmployee, Manager"
         || !Contains(UserType(users[employeeID]), "AEmployee") {
        return Fail(IllegalState);
      }
      LinkedPreservesInvariant(users, currentUser, nextEmployeeId, nextAdminId, employeeID, managerID);
      ghost var before := users;
      // unlink the employee from its old manager, if that manager is still in the directory
      var previous := GetManager(users[employeeID]);
      if previous.Ok? && previous.value in users && users[previous.value].Manager? {
        users := users[previous.value := RemoveReportingEmployee(users[previous.value], employeeID).0];
      }
      assert users == DetachFromManager(before, employeeID);
      users := users[employeeID := SetManager(users[employeeID], Some(managerID)).value];
      users := users[managerID := AddReportingEmployee(users[managerID], Some(users[employeeID])).value];
      r := Pass;
    }

    // -------------------------------------------------------------------------
    // Attribute getters: an unknown ID first, then read access, then the record itself

    method GetSalary(id: int) returns (r: Result<real>)
      requires Valid()
      ensures !Readable(id) ==> r == Err(IllegalState)
      ensures Readable(id) && users[id].Administrator? ==> r == Err(Unsupported)
      ensures r.Ok? <==> Readable(id) && users[id].IsEmployee()
      ensures r.Ok? ==> r.value == users[id].salary
    {
      if id !in users {
        return Err(IllegalState);
      }
      var access := ReadAccess(users, Current(), id);
      if access.Fail? {
        return Err(access.error);
      }
      r := Users.GetSalary(users[id]);
    }

    method GetSalaryHistory(id: int) returns (r: Result<seq<real>>)
      requires Valid()
      ensures !Readable(id) ==> r == Err(IllegalState)
      ensures Readable(id) && users[id].Administrator? ==> r == Err(Unsupported)
      ensures r.Ok? <==> Readable(id) && users[id].IsEmployee()
      ensures r.Ok? ==> r.value == users[id].salaryHistory
    {
      if id !in users {
        return Err(IllegalState);
      }
      var access := ReadAccess(users, Current(), id);
      if access.Fail? {
        return Err(access.error);
      }
      r := Users.GetSalaryHistory(users[id]);
    }

    method GetVacationBalance(id: int) returns (r: Result<int>)
      requires Valid()
      ensures !Readable(id) ==> r == Err(IllegalState)
      ensures Readable(id) && users[id].Administrator? ==> r == Err(Unsupported)
      ensures r.Ok? <==> Readable(id) && users[id].IsEmployee()
      ensures r.Ok? ==> r.value == users[id].vacationBalance && r.value >= 0
    {
      if id !in users {
        return Err(IllegalState);
      }
      var access := ReadAccess(users, Current(), id);
      if access.Fail? {
        return Err(access.error);
      }
      r := Users.GetVacationBalance(users[id]);
    }

    method GetAnnualBonus(id: int) returns (r: Result<real>)
      requires Valid()
      ensures !Readable(id) ==> r == Err(IllegalState)
      ensures Readable(id) && users[id].Administrator? ==> r == Err(Unsupported)
      ensures r.Ok? <==> Readable(id) && users[id].IsEmployee()
      ensures r.Ok? ==> r.value == users[id].annualBonus && r.value >= 0.0
    {
      if id !in users {
        return Err(IllegalState);
      }
      var access := ReadAccess(users, Current(), id);
      if access.Fail? {
        return Err(access.error);
      }
      r := Users.GetAnnualBonus(users[id]);
    }

    // -------------------------------------------------------------------------
    // Attribute setters: an unknown ID first, then write access, then the record's own
    // validation; the record is written back only when all three pass

    method SetSalary(id: int, salary: real) returns (r: Outcome)
      requires Valid()
      modifies this`users
      ensures Valid()
      ensures !old(Writable(id)) ==> r == Fail(IllegalState)
      ensures old(Writable(id)) && old(users)[id].Administrator? ==> r == Fail(Unsupported)
      ensures old(Writable(id)) && old(users)[id].IsEmployee() && salary < 0.0
              ==> r == Fail(IllegalArgument)
      ensures r.Pass? <==> old(Writable(id)) && old(users)[id].IsEmployee() && salary >= 0.0
      ensures r.Fail? ==> users == old(users)
      ensures r.Pass? ==> users == old(users)[id := Users.SetSalary(old(users)[id], salary).value]
    {
      if id !in users {
        return Fail(IllegalState);
      }
      var access := WriteAccess(users, Current(), id);
      if access.Fail? {
        return access;
      }
      var updated := Users.SetSalary(users[id], salary);
      if updated.Err? {
        return Fail(updated.error);
      }
      ReplacedPreservesInvariant(users, currentUser, nextEmployeeId, nextAdminId, id, updated.value);
      users := users[id := updated.value];
      r := Pass;
    }

    method SetVacationBalance(id: int, vacationBalance: int) returns (r: Outcome)
      requires Valid()
      modifies this`users
      ensures Valid()
      ensures !old(Writable(id)) ==> r == Fail(IllegalState)
      ensures old(Writable(id)) && old(users)[id].Administrator? ==> r == Fail(Unsupported)
      ensures old(Writable(id)) && old(users)[id].IsEmployee() && vacationBalance < 0
              ==> r == Fail(IllegalArgument)
      ensures r.Pass? <==> old(Writable(id)) && old(users)[id].IsEmployee() && vacationBalance >= 0
      ensures r.Fail? ==> users == old(users)
      ensures r.Pass? ==> users == old(users)[id := Users.SetVacationBalance(old(users)[id],
                                                                            vacationBalance).value]
    {
      if id !in users {
        return Fail(IllegalState);
      }
      var access := WriteAccess(users, Current(), id);
      if access.Fail? {
        return access;
      }
      var updated := Users.SetVacationBalance(users[id], vacationBalance);
      if updated.Err? {
        return Fail(updated.error);
      }
      ReplacedPreservesInvariant(users, currentUser, nextEmployeeId, nextAdminId, id, updated.value);
      users := users[id := updated.value];
      r := Pass;
    }

    method SetAnnualBonus(id: int, annualBonus: real) returns (r: Outcome)
      requires Valid()
      modifies this`users
      ensures Valid()
      ensures !old(Writable(id)) ==> r == Fail(IllegalState)
      ensures old(Writable(id)) && old(users)[id].Administrator? ==> r == Fail(Unsupported)
      ensures old(Writable(id)) && old(users)[id].IsEmployee() && annualBonus < 0.0
              ==> r == Fail(IllegalArgument)
      ensures r.Pass? <==> old(Writable(id)) && old(users)[id].IsEmployee() && annualBonus >= 0.0
      ensures r.Fail? ==> users == old(users)
      ensures r.Pass? ==> users == old(users)[id := Users.SetAnnualBonus(old(users)[id],
                                                                        annualBonus).value]
    {
      if id !in users {
        return Fail(IllegalState);
      }
      var access := WriteAccess(users, Current(), id);
      if access.Fail? {
        return access;
      }
      var updated := Users.SetAnnualBonus(users[id], annualBonus);
      if updated.Err? {
        return Fail(updated.error);
      }
      ReplacedPreservesInvariant(users, currentUser, nextEmployeeId, nextAdminId, id, updated.value);
      users := users[id := updated.value];
      r := Pass;
    }
  }
}
