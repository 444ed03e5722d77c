/** The user records of the directory: the closed set of variants behind IUser
    (Administrator, StandardEmployee and Manager, the last two sharing AEmployee's fields).
    A record is a value; the directory keeps one per ID and writes back the record a
    setter returns. Employee-only operations on an Administrator fail with Unsupported,
    as IUser's default methods do. */
module Users {
  import opened Errors
  import opened Strings

  datatype User =
    | Administrator(id: int, name: string, password: string)
    | StandardEmployee(id: int, name: string, password: string,
                       salary: real, salaryHistory: seq<real>, vacationBalance: int,
                       annualBonus: real, inHumanResources: bool, manager: Option<int>)
    | Manager(id: int, name: string, password: string,
              salary: real, salaryHistory: seq<real>, vacationBalance: int,
              annualBonus: real, inHumanResources: bool, manager: Option<int>,
              reports: set<int>)
  {
    /** The record is an AEmployee (it has compensation, an HR flag and a manager link). */
    predicate IsEmployee() {
      !Administrator?
    }
  }

  // ---------------------------------------------------------------------------
  // Type tags

  /** AEmployee.getUserType; the two employee variants append their own suffix. */
  const EmployeeTag: string := "AEmployee"

  function UserType(u: User): string {
    if u.Administrator? then "Administrator"
    else if u.StandardEmployee? then EmployeeTag + ", StandardEmployee"
    else EmployeeTag + ", Manager"
  }

  /** An Administrator's tag is "Administrator", and only an Administrator's tag is;
      an Administrator's tag mentions neither "AEmployee" nor "Manager". */
  lemma AdministratorTag(u: User)
    ensures UserType(u) == "Administrator" <==> u.Administrator?
    ensures u.Administrator? ==> !Contains(UserType(u), "AEmployee")
    ensures u.Administrator? ==> !Contains(UserType(u), "Manager")
  {
    if u.Administrator? {
      var t := UserType(u);
      assert !StartsWith(t, "AEmployee") by {
        assert t[..9][1] == 'd';
      }
      assert t[1..] == "dministrator";
      AbsentHeadNotContained(t[1..], "AEmployee");
      AbsentHeadNotContained(t, "Manager");
    }
  }

  /** A StandardEmployee's tag contains "AEmployee" but is not the Manager tag and
      does not contain "Manager". */
  lemma StandardEmployeeTag(u: User)
    ensures u.StandardEmployee? ==> Contains(UserType(u), "AEmployee")
    ensures u.StandardEmployee? ==> UserType(u) != "AEmployee, Manager"
    ensures u.StandardEmployee? ==> !Contains(UserType(u), "Manager")
  {
    if u.StandardEmployee? {
      ContainsPrefix(EmployeeTag, ", StandardEmployee");
      AbsentHeadNotContained(UserType(u), "Manager");
    }
  }

  /** The tag is exactly "AEmployee, Manager" iff the record is a Manager, and it then
      contains both "AEmployee" and "Manager". */
  lemma ManagerTag(u: User)
    ensures UserType(u) == "AEmployee, Manager" <==> u.Manager?
    ensures u.Manager? ==> Contains(UserType(u), "AEmployee") && Contains(UserType(u), "Manager")
  {
    if u.Manager? {
      ContainsPrefix(EmployeeTag, ", Manager");
      assert EmployeeTag + ", Manager" == (EmployeeTag + ", ") + "Manager";
      ContainsSuffix(EmployeeTag + ", ", "Manager");
    } else if u.StandardEmployee? {
      assert |UserType(u)| != |"AEmployee, Manager"|;
    }
  }

  /** The tag tests the directory applies decide the variant exactly. */
  lemma TagTests(u: User)
    ensures UserType(u) == "Administrator" <==> u.Administrator?
    ensures UserType(u) == "AEmployee, Manager" <==> u.Manager?
    ensures Contains(UserType(u), "AEmployee") <==> u.IsEmployee()
    ensures Contains(UserType(u), "Manager") <==> u.Manager?
  {
    AdministratorTag(u);
    StandardEmployeeTag(u);
    ManagerTag(u);
  }

  // ---------------------------------------------------------------------------
  // Constructors (the ID is supplied by the directory's counters)

  /** Administrator's constructor: a null name, or a null or empty password, is rejected. */
  function NewAdministrator(name: Option<string>, password: Option<string>, id: int): (r: Result<User>)
    ensures r.Err? <==> name.None? || password.None? || password.value == ""
    ensures r.Err? ==> r.error == IllegalArgument
    ensures r.Ok? ==> r.value.Administrator? && r.value.id == id
                      && r.value.name == name.value && r.value.password == password.value
  {
    if name.None? || password.None? || password.value == "" then Err(IllegalArgument)
    else Ok(Administrator(id, name.value, password.value))
  }

  /** The validation AEmployee's constructor applies before it takes an ID. */
  predicate ValidEmployeeArguments(name: Option<string>, password: Option<string>,
                                   salary: real, vacationBalance: int, annualBonus: real)
  {
    name.Some? && password.Some? && password.value != ""
    && salary >= 0.0 && vacationBalance >= 0 && annualBonus >= 0.0
  }

  /** The compensation and links a freshly constructed employee starts with. */
  predicate FreshEmployee(u: User, id: int, name: string, password: string, salary: real,
                          vacationBalance: int, annualBonus: real, inHumanResources: bool)
  {
    u.IsEmployee() && u.id == id && u.name == name && u.password == password
    && u.salary == salary && u.salaryHistory == [] && u.vacationBalance == vacationBalance
    && u.annualBonus == annualBonus && u.inHumanResources == inHumanResources
    && u.manager == None
  }

  /** StandardEmployee's constructor, which delegates its validation to AEmployee's. */
  function NewStandardEmployee(name: Option<string>, password: Option<string>, salary: real,
                               vacationBalance: int, annualBonus: real, inHumanResources: bool,
                               id: int): (r: Result<User>)
    ensures r.Err? <==> name.None? || password.None? || password.value == ""
                        || salary < 0.0 || vacationBalance < 0 || annualBonus < 0.0
    ensures r.Err? ==> r.error == IllegalArgument
    ensures r.Ok? ==> r.value.StandardEmployee?
                      && FreshEmployee(r.value, id, name.value, password.value, salary,
                                       vacationBalance, annualBonus, inHumanResources)
  {
    if !ValidEmployeeArguments(name, password, salary, vacationBalance, annualBonus) then
      Err(IllegalArgument)
    else
      Ok(StandardEmployee(id, name.value, password.value, salary, [], vacationBalance,
                          annualBonus, inHumanResources, None))
  }

  /** Manager's constructor: AEmployee's validation, and no reporting employees yet. */
  function NewManager(name: Option<string>, password: Option<string>, salary: real,
                      vacationBalance: int, annualBonus: real, inHumanResources: bool,
                      id: int): (r: Result<User>)
    ensures r.Err? <==> name.None? || password.None? || password.value == ""
                        || salary < 0.0 || vacationBalance < 0 || annualBonus < 0.0
    ensures r.Err? ==> r.error == IllegalArgument
    ensures r.Ok? ==> r.value.Manager? && r.value.reports == {}
                      && FreshEmployee(r.value, id, name.value, password.value, salary,
                                       vacationBalance, annualBonus, inHumanResources)
  {
    if !ValidEmployeeArguments(name, password, salary, vacationBalance, annualBonus) then
      Err(IllegalArgument)
    else
      Ok(Manager(id, name.value, password.value, salary, [], vacationBalance,
                 annualBonus, inHumanResources, None, {}))
  }

  // ---------------------------------------------------------------------------
  // Field groups, to say what a setter leaves alone

  /** Same variant, ID, name and stored password. */
  predicate SameIdentity(u: User, v: User) {
    u.Administrator? == v.Administrator? && u.Manager? == v.Manager?
    && u.id == v.id && u.name == v.name && u.password == v.password
  }

  /** Same manager link and, for a Manager, the same reporting employees. */
  predicate SameLinks(u: User, v: User)
    requires SameIdentity(u, v)
  {
    (u.IsEmployee() ==> u.manager == v.manager) && (u.Manager? ==> u.reports == v.reports)
  }

  /** Same salary, salary history, vacation balance and annual bonus. */
  predicate SamePay(u: User, v: User)
    requires SameIdentity(u, v)
  {
    u.IsEmployee() ==>
      u.salary == v.salary && u.salaryHistory == v.salaryHistory
      && u.vacationBalance == v.vacationBalance && u.annualBonus == v.annualBonus
  }

  /** Every monetary or quantity field of an employee, past salaries included, is non-negative. */
  ghost predicate NonNegative(u: User) {
    u.IsEmployee() ==>
      u.salary >= 0.0 && u.vacationBalance >= 0 && u.annualBonus >= 0.0
      && forall i :: 0 <= i < |u.salaryHistory| ==> u.salaryHistory[i] >= 0.0
  }

  // ---------------------------------------------------------------------------
  // Operations every user has

  /** correctPassword: the guess equals the stored password. */
  predicate CorrectPassword(u: User, guess: string) {
    u.password == guess
  }

  /** isInHumanResources; an Administrator is never in Human Resources. */
  predicate IsInHumanResources(u: User) {
    u.IsEmployee() && u.inHumanResources
  }

  // ---------------------------------------------------------------------------
  // Employee-only operations (IUser's defaults throw Unsupported on an Administrator)

  function GetSalary(u: User): (r: Result<real>)
    ensures r.Ok? <==> u.IsEmployee()
    ensures r.Err? ==> r.error == Unsupported
    ensures r.Ok? ==> r.value == u.salary
  {
    if u.Administrator? then Err(Unsupported) else Ok(u.salary)
  }

  function GetSalaryHistory(u: User): (r: Result<seq<real>>)
    ensures r.Ok? <==> u.IsEmployee()
    ensures r.Err? ==> r.error == Unsupported
    ensures r.Ok? ==> r.value == u.salaryHistory
  {
    if u.Administrator? then Err(Unsupported) else Ok(u.salaryHistory)
  }

  function GetVacationBalance(u: User): (r: Result<int>)
    ensures r.Ok? <==> u.IsEmployee()
    ensures r.Err? ==> r.error == Unsupported
    ensures r.Ok? ==> r.value == u.vacationBalance
  {
    if u.Administrator? then Err(Unsupported) else Ok(u.vacationBalance)
  }

  function GetAnnualBonus(u: User): (r: Result<real>)
    ensures r.Ok? <==> u.IsEmployee()
    ensures r.Err? ==> r.error == Unsupported
    ensures r.Ok? ==> r.value == u.annualBonus
  {
    if u.Administrator? then Err(Unsupported) else Ok(u.annualBonus)
  }

  /** setSalary: a negative salary is rejected; otherwise the old salary is appended to the
      history and the new one takes its place. Nothing else changes. */
  function SetSalary(u: User, salary: real): (r: Result<User>)
    ensures u.Administrator? ==> r == Err(Unsupported)
    ensures u.IsEmployee() && salary < 0.0 ==> r == Err(IllegalArgument)
    ensures r.Ok? <==> u.IsEmployee() && salary >= 0.0
    ensures r.Ok? ==> SameIdentity(u, r.value) && SameLinks(u, r.value)
                      && r.value.salary == salary
                      && r.value.salaryHistory == u.salaryHistory + [u.salary]
                      && r.value.vacationBalance == u.vacationBalance
                      && r.value.annualBonus == u.annualBonus
                      && r.value.inHumanResources == u.inHumanResources
    ensures r.Ok? && NonNegative(u) ==> NonNegative(r.value)
  {
    if u.Administrator? then Err(Unsupported)
    else if salary < 0.0 then Err(IllegalArgument)
    else Ok(u.(salaryHistory := u.salaryHistory + [u.salary], salary := salary))
  }

  /** setVacationBalance: a negative balance is rejected; otherwise only the balance changes. */
  function SetVacationBalance(u: User, vacationBalance: int): (r: Result<User>)
    ensures u.Administrator? ==> r == Err(Unsupported)
    ensures u.IsEmployee() && vacationBalance < 0 ==> r == Err(IllegalArgument)
    ensures r.Ok? <==> u.IsEmployee() && vacationBalance >= 0
    ensures r.Ok? ==> SameIdentity(u, r.value) && SameLinks(u, r.value)
                      && r.value.vacationBalance == vacationBalance
                      && r.value.salary == u.salary && r.value.salaryHistory == u.salaryHistory
                      && r.value.annualBonus == u.annualBonus
                      && r.value.inHumanResources == u.inHumanResources
    ensures r.Ok? && NonNegative(u) ==> NonNegative(r.value)
  {
    if u.Administrator? then Err(Unsupported)
    else if vacationBalance < 0 then Err(IllegalArgument)
    else Ok(u.(vacationBalance := vacationBalance))
  }

  /** setAnnualBonus: a negative bonus is rejected; otherwise only the bonus changes. */
  function SetAnnualBonus(u: User, annualBonus: real): (r: Result<User>)
    ensures u.Administrator? ==> r == Err(Unsupported)
    ensures u.IsEmployee() && annualBonus < 0.0 ==> r == Err(IllegalArgument)
    ensures r.Ok? <==> u.IsEmployee() && annualBonus >= 0.0
    ensures r.Ok? ==> SameIdentity(u, r.value) && SameLinks(u, r.value)
                      && r.value.annualBonus == annualBonus
                      && r.value.salary == u.salary && r.value.salaryHistory == u.salaryHistory
                      && r.value.vacationBalance == u.vacationBalance
                      && r.value.inHumanResources == u.inHumanResources
    ensures r.Ok? && NonNegative(u) ==> NonNegative(r.value)
  {
    if u.Administrator? then Err(Unsupported)
    else if annualBonus < 0.0 then Err(IllegalArgument)
    else Ok(u.(annualBonus := annualBonus))
  }

  /** setInHumanResources: afterwards isInHumanResources answers the new flag. */
  function SetInHumanResources(u: User, inHumanResources: bool): (r: Result<User>)
    ensures r.Ok? <==> u.IsEmployee()
    ensures r.Err? ==> r.error == Unsupported
    ensures r.Ok? ==> SameIdentity(u, r.value) && SameLinks(u, r.value) && SamePay(u, r.value)
                      && IsInHumanResources(r.value) == inHumanResources
    ensures r.Ok? && NonNegative(u) ==> NonNegative(r.value)
  {
    if u.Administrator? then Err(Unsupported)
    else Ok(u.(inHumanResources := inHumanResources))
  }

  /** getManager: the ID of the employee's manager; IllegalState while none is set. */
  function GetManager(u: User): (r: Result<int>)
    ensures u.Administrator? ==> r == Err(Unsupported)
    ensures u.IsEmployee() && u.manager.None? ==> r == Err(IllegalState)
    ensures r.Ok? <==> u.IsEmployee() && u.manager.Some?
    ensures r.Ok? ==> u.manager == Some(r.value)
  {
    if u.Administrator? then Err(Unsupported)
    else if u.manager.None? then Err(IllegalState)
    else Ok(u.manager.value)
  }

  /** setManager: overwrites the link (None clears it); no reporting set is touched. */
  function SetManager(u: User, manager: Option<int>): (r: Result<User>)
    ensures r.Ok? <==> u.IsEmployee()
    ensures r.Err? ==> r.error == Unsupported
    ensures r.Ok? ==> SameIdentity(u, r.value) && SamePay(u, r.value)
                      && r.value.manager == manager
                      && r.value.inHumanResources == u.inHumanResources
                      && (u.Manager? ==> r.value.reports == u.reports)
    ensures r.Ok? && NonNegative(u) ==> NonNegative(r.value)
  {
    if u.Administrator? then Err(Unsupported)
    else Ok(u.(manager := manager))
  }

  // ---------------------------------------------------------------------------
  // Manager-only operations

  /** addReportingEmployee: a null employee is rejected; otherwise the employee's ID is
      stored, once, whether or not it was there before. The manager's own link is untouched. */
  function AddReportingEmployee(m: User, e: Option<User>): (r: Result<User>)
    requires m.Manager?
    requires e.Some? ==> e.value.IsEmployee()
    ensures r.Err? <==> e.None?
    ensures r.Err? ==> r.error == IllegalArgument
    ensures r.Ok? ==> SameIdentity(m, r.value) && SamePay(m, r.value)
                      && r.value.manager == m.manager
                      && r.value.inHumanResources == m.inHumanResources
                      && r.value.reports == m.reports + {e.value.id}
    ensures r.Ok? && NonNegative(m) ==> NonNegative(r.value)
  {
    if e.None? then Err(IllegalArgument)
    else Ok(m.(reports := m.reports + {e.value.id}))
  }

  /** removeReportingEmployee: says whether the ID was present (the entry the source
      returns, or null) and drops it; every other reporting employee stays. */
  function RemoveReportingEmployee(m: User, id: int): (r: (User, bool))
    requires m.Manager?
    ensures r.1 <==> id in m.reports
    ensures SameIdentity(m, r.0) && SamePay(m, r.0)
            && r.0.manager == m.manager && r.0.inHumanResources == m.inHumanResources
            && r.0.reports == m.reports - {id}
    ensures NonNegative(m) ==> NonNegative(r.0)
  {
    (m.(reports := m.reports - {id}), id in m.reports)
  }

  /** Adding an employee that already reports to the manager changes nothing. */
  lemma ReAddReportingEmployee(m: User, e: User)
    requires m.Manager? && e.IsEmployee()
    ensures AddReportingEmployee(AddReportingEmployee(m, Some(e)).value, Some(e))
            == AddReportingEmployee(m, Some(e))
  {
  }

  /** Removing right after adding restores the reporting set, minus any earlier entry under that ID. */
  lemma AddThenRemoveReportingEmployee(m: User, e: User)
    requires m.Manager? && e.IsEmployee()
    ensures RemoveReportingEmployee(AddReportingEmployee(m, Some(e)).value, e.id).1
    ensures RemoveReportingEmployee(AddReportingEmployee(m, Some(e)).value, e.id).0.reports
            == m.reports - {e.id}
  {
  }

  /** Every employee-only operation an Administrator inherits from IUser fails with Unsupported. */
  lemma AdministratorUnsupported(u: User, salary: real, vacationBalance: int, annualBonus: real,
                                 inHumanResources: bool, manager: Option<int>)
    requires u.Administrator?
    ensures !IsInHumanResources(u)
    ensures SetInHumanResources(u, inHumanResources) == Err(Unsupported)
    ensures GetSalary(u) == Err(Unsupported) && SetSalary(u, salary) == Err(Unsupported)
    ensures GetSalaryHistory(u) == Err(Unsupported)
    ensures GetVacationBalance(u) == Err(Unsupported)
    ensures SetVacationBalance(u, vacationBalance) == Err(Unsupported)
    ensures GetAnnualBonus(u) == Err(Unsupported) && SetAnnualBonus(u, annualBonus) == Err(Unsupported)
    ensures GetManager(u) == Err(Unsupported) && SetManager(u, manager) == Err(Unsupported)
  {
  }
}
