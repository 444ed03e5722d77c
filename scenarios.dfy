/** Walkthroughs of the directory that follow only from the operations' contracts. */
module Scenarios {
  import opened Errors
  import opened Users
  import opened Directory
  import opened HumanResources

  /** An administrator adds a standard employee E (ID 1) and a manager M (ID 2) and links
      them; signed in as M, the caller may set and read E's salary, but not M's own. */
  method ManagerWritesReportingEmployee(digest: string -> Digest)
  {
    var created := HRModel.Create(Some("P"), digest);
    var model := created.value;
    var ok := model.LogIn(0, Some("P"));
    assert ok.Pass?;
    ok := model.AddEmployee(Some("Standard Employee"), Some("E"), Some("e"), 0.0, 0, 0.0, false);
    assert ok.Pass? && model.users[1].StandardEmployee?;
    ok := model.AddEmployee(Some("Manager"), Some("M"), Some("m"), 0.0, 0, 0.0, false);
    assert ok.Pass? && model.users[2].Manager? && model.users[2].password == digest("m");
    ghost var before := model.users;
    ok := model.LinkEmployeeAndManager(1, 2);
    assert ok.Pass?;
    LinkedResult(before, 1, 2);
    model.LogOut();
    ok := model.LogIn(2, Some("m"));
    assert ok.Pass? && model.Current() == Some(model.users[2]);
    assert 1 in model.users[2].reports && 2 !in model.users[2].reports;
    ok := model.SetSalary(1, 100.0);
    assert ok.Pass?;
    var salary := model.GetSalary(1);
    assert salary == Ok(100.0);
    ok := model.SetSalary(2, 100.0);
    assert ok == Fail(IllegalState);
  }

  /** A caller who is not signed in as an administrator cannot add, remove or change anyone. */
  method SignedOutCallerChangesNothing(digest: string -> Digest)
  {
    var created := HRModel.Create(Some("P"), digest);
    var model := created.value;
    var ok := model.AddAdministrator(Some("A"), Some("a"));
    assert ok == Fail(IllegalState) && model.users == map[0 := Administrator(0, "Default Admin", digest("P"))];
    var removed := model.RemoveUser(0);
    assert removed == Err(IllegalState);
    ok := model.LogIn(0, Some("P"));
    removed := model.RemoveUser(0);
    assert removed == Err(IllegalState) && 0 in model.users;
  }
}
