/** The directory's state as values: the invariant every reachable state keeps, the two
    permission checks, and the link and removal steps as functions of the user map.
    The class HRModel (hr_model.dfy) performs these steps in place. */
module Directory {
  import opened Errors
  import opened Strings
  import opened Users

  // ---------------------------------------------------------------------------
  // Invariant of a directory state

  /** Every record is stored under its own ID. */
  ghost predicate WellKeyed(users: map<int, User>) {
    forall k | k in users :: users[k].id == k
  }

  /** Administrators were numbered downwards from 0 and employees upwards from 1, and both
      counters are past every ID they handed out. */
  ghost predicate IdsInRange(users: map<int, User>, nextEmployeeId: int, nextAdminId: int) {
    nextAdminId <= 0 && 1 <= nextEmployeeId
    && forall k | k in users ::
         if users[k].Administrator? then nextAdminId < k <= 0 else 1 <= k < nextEmployeeId
  }

  ghost predicate AllNonNegative(users: map<int, User>) {
    forall k | k in users :: NonNegative(users[k])
  }

  /** The manager link and the reporting sets agree for every user still in the directory:
      a present manager lists each employee that points to it, and each listed employee is
      present and points back. A link to a manager that has been removed may remain. Every
      link names an employee ID that was handed out, so it never names a later user. */
  ghost predicate LinksConsistent(users: map<int, User>, nextEmployeeId: int) {
    (forall e | e in users && users[e].IsEmployee() && users[e].manager.Some? ::
       1 <= users[e].manager.value < nextEmployeeId)
    && (forall e | e in users && users[e].IsEmployee() && users[e].manager.Some?
                   && users[e].manager.value in users ::
          users[users[e].manager.value].Manager? && e in users[users[e].manager.value].reports)
    && (forall m, r | m in users && users[m].Manager? && r in users[m].reports ::
          r in users && users[r].IsEmployee() && users[r].manager == Some(m))
  }

  ghost predicate DirectoryInvariant(users: map<int, User>, currentUser: Option<int>,
                                     nextEmployeeId: int, nextAdminId: int)
  {
    WellKeyed(users) && IdsInRange(users, nextEmployeeId, nextAdminId)
    && AllNonNegative(users) && LinksConsistent(users, nextEmployeeId)
    && (currentUser.Some? ==> currentUser.value in users)
  }

  /** Administrator and employee IDs never collide: the sign of a stored ID tells the variant. */
  lemma IdSpacesDisjoint(users: map<int, User>, currentUser: Option<int>,
                         nextEmployeeId: int, nextAdminId: int, k: int)
    requires DirectoryInvariant(users, currentUser, nextEmployeeId, nextAdminId)
    requires k in users
    ensures users[k].Administrator? <==> k <= 0
    ensures users[k].id == k
  {
  }

  /** A new employee takes the employee counter as its key, which no stored user has; the
      directory with it added, and the counter one further, keeps the invariant. */
  lemma AddedEmployeePreservesInvariant(users: map<int, User>, currentUser: Option<int>,
                                        nextEmployeeId: int, nextAdminId: int, u: User)
    requires DirectoryInvariant(users, currentUser, nextEmployeeId, nextAdminId)
    requires u.IsEmployee() && u.id == nextEmployeeId && u.manager == None && NonNegative(u)
    requires u.Manager? ==> u.reports == {}
    ensures nextEmployeeId !in users
    ensures DirectoryInvariant(users[nextEmployeeId := u], currentUser,
                               nextEmployeeId + 1, nextAdminId)
  {
    var r := users[nextEmployeeId := u];
    forall x, k | x in r && r[x].Manager? && k in r[x].reports
      ensures k in r && r[k].IsEmployee() && r[k].manager == Some(x)
    {
      assert x in users && k in users[x].reports;
    }
  }

  /** A new administrator takes the administrator counter as its key, which no stored user
      has; the directory with it added, and the counter one lower, keeps the invariant. */
  lemma AddedAdministratorPreservesInvariant(users: map<int, User>, currentUser: Option<int>,
                                             nextEmployeeId: int, nextAdminId: int, u: User)
    requires DirectoryInvariant(users, currentUser, nextEmployeeId, nextAdminId)
    requires u.Administrator? && u.id == nextAdminId
    ensures nextAdminId !in users
    ensures DirectoryInvariant(users[nextAdminId := u], currentUser,
                               nextEmployeeId, nextAdminId - 1)
  {
    var r := users[nextAdminId := u];
    forall x, k | x in r && r[x].Manager? && k in r[x].reports
      ensures k in r && r[k].IsEmployee() && r[k].manager == Some(x)
    {
      assert x in users && k in users[x].reports;
    }
  }

  /** Writing back a record with the same identity and links, and non-negative pay, keeps
      the invariant (what every attribute setter does). */
  lemma ReplacedPreservesInvariant(users: map<int, User>, currentUser: Option<int>,
                                   nextEmployeeId: int, nextAdminId: int, id: int, v: User)
    requires DirectoryInvariant(users, currentUser, nextEmployeeId, nextAdminId)
    requires id in users && SameIdentity(users[id], v) && SameLinks(users[id], v)
    requires NonNegative(v)
    ensures DirectoryInvariant(users[id := v], currentUser, nextEmployeeId, nextAdminId)
  {
    var r := users[id := v];
    forall k | k in r && r[k].IsEmployee() && r[k].manager.Some? && r[k].manager.value in r
      ensures r[r[k].manager.value].Manager? && k in r[r[k].manager.value].reports
    {
      assert r[k].manager == users[k].manager;
    }
    forall x, k | x in r && r[x].Manager? && k in r[x].reports
      ensures k in r && r[k].IsEmployee() && r[k].manager == Some(x)
    {
      assert k in users[x].reports;
    }
  }

  // ---------------------------------------------------------------------------
  // Permission checks; `current` is the signed-in user's record, if any

  /** verifyAdministrator: someone is signed in and their tag is "Administrator". */
  function VerifyAdministrator(current: Option<User>): (r: Outcome)
    ensures r.Pass? <==> current.Some? && current.value.Administrator?
    ensures r.Fail? ==> r.error == IllegalState
  {
    if current.None? then Fail(IllegalState)
    else
      AdministratorTag(current.value);
      if UserType(current.value) != "Administrator" then Fail(IllegalState)
      else Pass
  }

  /** verifyReadAccess, in the source's order: an administrator reads anything; otherwise a
      signed-in employee reads its own record, any record outside Human Resources when it is
      in Human Resources itself, and the records of the employees reporting to it when it
      is a Manager. Everything else is refused. */
  function ReadAccess(users: map<int, User>, current: Option<User>, id: int): (r: Outcome)
    requires id in users
    ensures r.Pass? <==>
              current.Some?
              && (current.value.Administrator?
                  || id == current.value.id
                  || (IsInHumanResources(current.value) && !IsInHumanResources(users[id]))
                  || (current.value.Manager? && id in current.value.reports))
    ensures r.Fail? ==> r.error == IllegalState
  {
    if VerifyAdministrator(current).Pass? then Pass
    else if current.None? then Fail(IllegalState)
    else
      var user := current.value;
      ManagerTag(user);
      StandardEmployeeTag(user);
      if id == user.id then Pass
      else if IsInHumanResources(user) && !IsInHumanResources(users[id]) then Pass
      else if Contains(UserType(user), "Manager") && id in user.reports then Pass
      else Fail(IllegalState)
  }

  /** verifyWriteAccess: only an administrator, or a Manager for the employees reporting
      to it. Neither the own record nor Human Resources membership grants anything. */
  function WriteAccess(users: map<int, User>, current: Option<User>, id: int): (r: Outcome)
    requires id in users
    ensures r.Pass? <==>
              current.Some?
              && (current.value.Administrator?
                  || (current.value.Manager? && id in current.value.reports))
    ensures r.Fail? ==> r.error == IllegalState
  {
    if VerifyAdministrator(current).Pass? then Pass
    else if current.None? then Fail(IllegalState)
    else
      var user := current.value;
      ManagerTag(user);
      StandardEmployeeTag(user);
      if Contains(UserType(user), "Manager") && id in user.reports then Pass
      else Fail(IllegalState)
  }

  /** Whoever may write a record may also read it. */
  lemma WriteAccessImpliesReadAccess(users: map<int, User>, current: Option<User>, id: int)
    requires id in users
    ensures WriteAccess(users, current, id).Pass? ==> ReadAccess(users, current, id).Pass?
  {
  }

  /** Signed in as a StandardEmployee, a caller never has write access, and may read only
      its own record or, from within Human Resources, a record outside it. */
  lemma StandardEmployeeAccess(users: map<int, User>, current: Option<User>, id: int)
    requires id in users
    requires current.Some? && current.value.StandardEmployee?
    ensures WriteAccess(users, current, id).Fail?
    ensures ReadAccess(users, current, id).Pass? <==>
              id == current.value.id
              || (current.value.inHumanResources && !IsInHumanResources(users[id]))
  {
  }

  /** An employee may always read its own record but writes it only as a Manager that
      lists itself among its reporting employees. */
  lemma OwnRecordAccess(users: map<int, User>, current: Option<User>, id: int)
    requires id in users
    requires current.Some? && current.value.IsEmployee() && current.value.id == id
    ensures ReadAccess(users, current, id).Pass?
    ensures WriteAccess(users, current, id).Pass? <==>
              current.value.Manager? && id in current.value.reports
  {
  }

  /** With no one signed in, both checks refuse. */
  lemma SignedOutAccess(users: map<int, User>, id: int)
    requires id in users
    ensures ReadAccess(users, None, id).Fail? && WriteAccess(users, None, id).Fail?
  {
  }

  // ---------------------------------------------------------------------------
  // Linking an employee to a manager

  /** The first step of linkEmployeeAndManager: if the employee's current manager is in the
      directory, the employee leaves that manager's reporting set. */
  function DetachFromManager(users: map<int, User>, e: int): (r: map<int, User>)
    requires e in users && users[e].IsEmployee()
    ensures r.Keys == users.Keys
    ensures forall k | k in users ::
              SameIdentity(users[k], r[k]) && SamePay(users[k], r[k])
              && (users[k].IsEmployee() ==> r[k].manager == users[k].manager
                                            && r[k].inHumanResources == users[k].inHumanResources)
    ensures forall k | k in users && users[k].Manager? ::
              r[k].Manager?
              && r[k].reports == if users[e].manager == Some(k) then users[k].reports - {e}
                                 else users[k].reports
    ensures NonNegative(users[e]) ==> NonNegative(r[e])
  {
    var previous := GetManager(users[e]);
    if previous.Ok? && previous.value in users && users[previous.value].Manager? then
      users[previous.value := RemoveReportingEmployee(users[previous.value], e).0]
    else
      users
  }

  /** linkEmployeeAndManager once both IDs passed validation: detach from the old manager,
      point the employee at the new one, add the employee to the new manager's set. */
  function Linked(users: map<int, User>, e: int, m: int): map<int, User>
    requires e in users && m in users && users[e].IsEmployee() && users[m].Manager?
  {
    var detached := DetachFromManager(users, e);
    var pointed := detached[e := SetManager(detached[e], Some(m)).value];
    pointed[m := AddReportingEmployee(pointed[m], Some(pointed[e])).value]
  }

  /** What linking does, record by record: only E's link changes, and it now names M; a
      reporting set loses E if it belonged to E's previous manager, and M's set gains E. */
  lemma LinkedEffect(users: map<int, User>, e: int, m: int)
    requires e in users && m in users && users[e].IsEmployee() && users[m].Manager?
    requires users[e].id == e
    ensures var r := Linked(users, e, m);
            && r.Keys == users.Keys
            && (forall k | k in users ::
                  SameIdentity(users[k], r[k]) && SamePay(users[k], r[k])
                  && (users[k].IsEmployee() ==> r[k].inHumanResources == users[k].inHumanResources))
            && (forall k | k in users && users[k].IsEmployee() ::
                  r[k].manager == if k == e then Some(m) else users[k].manager)
            && (forall k | k in users && users[k].Manager? ::
                  r[k].reports == (if users[e].manager == Some(k) then users[k].reports - {e}
                                   else users[k].reports)
                                  + (if k == m then {e} else {}))
  {
    var detached := DetachFromManager(users, e);
    var pointed := detached[e := SetManager(detached[e], Some(m)).value];
    var r := Linked(users, e, m);
    assert r == pointed[m := AddReportingEmployee(pointed[m], Some(pointed[e])).value];
    assert pointed[e].id == e;
    forall k | k in users && users[k].Manager?
      ensures r[k].reports == (if users[e].manager == Some(k) then users[k].reports - {e}
                               else users[k].reports)
                              + (if k == m then {e} else {})
    {
      assert pointed[k].reports == detached[k].reports;
    }
  }

  /** Linking E to M: E points at M and is in M's set, E has left its previous manager's
      set, and no record other than E, M and the previous manager changes. */
  lemma LinkedResult(users: map<int, User>, e: int, m: int)
    requires e in users && m in users && users[e].IsEmployee() && users[m].Manager?
    requires users[e].id == e
    ensures var r := Linked(users, e, m);
            && r.Keys == users.Keys
            && r[e].manager == Some(m)
            && r[m].reports == users[m].reports + {e}
            && (forall k | k in users && k != m && users[k].Manager? && users[e].manager == Some(k) ::
                  e !in r[k].reports)
            && (forall k | k in users && k != e && k != m && users[e].manager != Some(k) ::
                  r[k] == users[k])
  {
    LinkedEffect(users, e, m);
    var r := Linked(users, e, m);
    forall k | k in users && k != e && k != m && users[e].manager != Some(k)
      ensures r[k] == users[k]
    {
      assert SameIdentity(users[k], r[k]) && SamePay(users[k], r[k]);
    }
  }

  /** Linking keeps the ID, key and non-negativity parts of the invariant. */
  lemma LinkedKeepsRecords(users: map<int, User>, nextEmployeeId: int, nextAdminId: int,
                           e: int, m: int)
    requires WellKeyed(users) && IdsInRange(users, nextEmployeeId, nextAdminId)
    requires AllNonNegative(users)
    requires e in users && m in users && users[e].IsEmployee() && users[m].Manager?
    ensures var r := Linked(users, e, m);
            WellKeyed(r) && IdsInRange(r, nextEmployeeId, nextAdminId) && AllNonNegative(r)
  {
    LinkedEffect(users, e, m);
    var r := Linked(users, e, m);
    forall k | k in r ensures NonNegative(r[k]) {
      assert SameIdentity(users[k], r[k]) && SamePay(users[k], r[k]);
    }
  }

  /** Linking keeps the manager links and reporting sets in agreement. */
  lemma LinkedKeepsLinks(users: map<int, User>, nextEmployeeId: int, nextAdminId: int,
                         e: int, m: int)
    requires WellKeyed(users) && LinksConsistent(users, nextEmployeeId)
    requires IdsInRange(users, nextEmployeeId, nextAdminId)
    requires e in users && m in users && users[e].IsEmployee() && users[m].Manager?
    ensures LinksConsistent(Linked(users, e, m), nextEmployeeId)
  {
    LinkedEffect(users, e, m);
    var r := Linked(users, e, m);
    forall k | k in r && r[k].IsEmployee() && r[k].manager.Some? && r[k].manager.value in r
      ensures r[r[k].manager.value].Manager? && k in r[r[k].manager.value].reports
    {
      if k != e {
        var x := r[k].manager.value;
        assert users[k].manager == Some(x);
        assert users[x].Manager? && k in users[x].reports;
      }
    }
    forall x, k | x in r && r[x].Manager? && k in r[x].reports
      ensures k in r && r[k].IsEmployee() && r[k].manager == Some(x)
    {
      if k != e {
        assert k in users[x].reports;
      } else {
        assert users[e].manager == Some(x) ==> x == m;
      }
    }
  }

  /** Linking keeps every part of the directory invariant. */
  lemma LinkedPreservesInvariant(users: map<int, User>, currentUser: Option<int>,
                                 nextEmployeeId: int, nextAdminId: int, e: int, m: int)
    requires DirectoryInvariant(users, currentUser, nextEmployeeId, nextAdminId)
    requires e in users && m in users && users[e].IsEmployee() && users[m].Manager?
    ensures DirectoryInvariant(Linked(users, e, m), currentUser, nextEmployeeId, nextAdminId)
  {
    LinkedKeepsRecords(users, nextEmployeeId, nextAdminId, e, m);
    LinkedKeepsLinks(users, nextEmployeeId, nextAdminId, e, m);
    LinkedEffect(users, e, m);
  }

  // ---------------------------------------------------------------------------
  // Removing a user

  /** removeUser once the caller and the ID passed validation: the entry leaves the map; if
      the removed record has a manager, the employee leaves that manager's reporting set
      (the removed record's own set, when it manages itself) and its link is cleared.
      Employees reporting to a removed Manager keep their link to it. Yields the new map and
      the removed record. */
  function Removed(users: map<int, User>, id: int): (map<int, User>, User)
    requires id in users
  {
    var removed := users[id];
    var rest := users - {id};
    var previous := GetManager(removed);
    if previous.Err? then (rest, removed)
    else if previous.value == id && removed.Manager? then
      (rest, SetManager(RemoveReportingEmployee(removed, id).0, None).value)
    else if previous.value in rest && rest[previous.value].Manager? then
      (rest[previous.value := RemoveReportingEmployee(rest[previous.value], id).0],
       SetManager(removed, None).value)
    else
      (rest, SetManager(removed, None).value)
  }

  /** What removal does: the key is gone, the record comes back unchanged but for its
      cleared manager link (and, when it managed itself, its own set without it), its manager
      no longer lists it, and every other record is as it was. */
  lemma RemovedEffect(users: map<int, User>, id: int)
    requires id in users
    ensures var (rest, removed) := Removed(users, id);
            && rest.Keys == users.Keys - {id}
            && SameIdentity(users[id], removed) && SamePay(users[id], removed)
            && (removed.IsEmployee() ==> removed.manager == None)
            && (users[id].IsEmployee() ==> removed.inHumanResources == users[id].inHumanResources)
            && (users[id].Manager? ==>
                  removed.reports == if users[id].manager == Some(id) then users[id].reports - {id}
                                     else users[id].reports)
            && (forall k | k in rest && users[id].IsEmployee() && users[id].manager == Some(k)
                           && users[k].Manager? ::
                  rest[k].reports == users[k].reports - {id}
                  && SameIdentity(users[k], rest[k]) && SamePay(users[k], rest[k])
                  && rest[k].manager == users[k].manager)
            && (forall k | k in rest && (users[id].Administrator? || users[id].manager != Some(k)) ::
                  rest[k] == users[k])
  {
  }

  /** Removal of any user but the signed-in one keeps every part of the directory invariant. */
  lemma RemovedPreservesInvariant(users: map<int, User>, currentUser: Option<int>,
                                  nextEmployeeId: int, nextAdminId: int, id: int)
    requires DirectoryInvariant(users, currentUser, nextEmployeeId, nextAdminId)
    requires id in users && currentUser != Some(id)
    ensures DirectoryInvariant(Removed(users, id).0, currentUser, nextEmployeeId, nextAdminId)
  {
    var rest := Removed(users, id).0;
    RemovedEffect(users, id);
    forall k | k in rest ensures rest[k].id == k && NonNegative(rest[k]) {
      assert rest[k].id == users[k].id;
    }
    forall k | k in rest && rest[k].IsEmployee() && rest[k].manager.Some? && rest[k].manager.value in rest
      ensures rest[rest[k].manager.value].Manager? && k in rest[rest[k].manager.value].reports
    {
      var x := rest[k].manager.value;
      assert users[k].manager == Some(x);
      assert users[x].Manager? && k in users[x].reports;
    }
    forall x, k | x in rest && rest[x].Manager? && k in rest[x].reports
      ensures k in rest && rest[k].IsEmployee() && rest[k].manager == Some(x)
    {
      assert k in users[x].reports;
      assert users[k].manager == Some(x);
    }
  }

  // ---------------------------------------------------------------------------
  // Consequences

  /** Linking E to M and then removing E takes E out of M's reporting set and returns E
      with no manager. */
  lemma LinkThenRemove(users: map<int, User>, currentUser: Option<int>,
                       nextEmployeeId: int, nextAdminId: int, e: int, m: int)
    requires DirectoryInvariant(users, currentUser, nextEmployeeId, nextAdminId)
    requires e in users && m in users && users[e].IsEmployee() && users[m].Manager? && e != m
    ensures var (rest, removed) := Removed(Linked(users, e, m), e);
            && e !in rest && m in rest && e !in rest[m].reports
            && rest[m].reports == users[m].reports - {e}
            && removed.manager == None
  {
    LinkedResult(users, e, m);
    RemovedEffect(Linked(users, e, m), e);
  }

  /** Re-linking E from M1 to M2 leaves E out of M1's set and in M2's. */
  lemma Relink(users: map<int, User>, e: int, m1: int, m2: int)
    requires e in users && m1 in users && m2 in users
    requires users[e].IsEmployee() && users[m1].Manager? && users[m2].Manager? && m1 != m2
    requires users[e].id == e
    ensures Linked(users, e, m1)[m1].Manager? && Linked(users, e, m1)[m2].Manager?
    ensures var r := Linked(Linked(users, e, m1), e, m2);
            && r[e].manager == Some(m2) && e in r[m2].reports && e !in r[m1].reports
  {
    LinkedResult(users, e, m1);
    var once := Linked(users, e, m1);
    LinkedEffect(users, e, m1);
    LinkedResult(once, e, m2);
  }

  /** Linking a Manager to itself is accepted, and from then on that Manager, signed in,
      may write its own record. */
  lemma SelfLinkGrantsSelfWrite(users: map<int, User>, m: int)
    requires m in users && users[m].Manager? && users[m].id == m
    ensures var r := Linked(users, m, m);
            m in r && WriteAccess(r, Some(r[m]), m).Pass?
  {
    LinkedResult(users, m, m);
  }
}
