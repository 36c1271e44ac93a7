/**
 Roles and permissions: the handlers of backend/src/controller/rbac-controller.ts on top of
 backend/src/service/rbac-service.ts. A table row for a permission is identified by role, entity, action and
 relation (entity/rbac/permission.ts); the duplicate check of the controller also compares the attributes.
 */
module Rbac {
  import opened Common

  datatype Permission = Permission(entity: string, action: string, relation: string, attributes: seq<string>)

  /** `linked` tells whether user types refer to the role; the table then refuses to let it go. */
  datatype Role = Role(name: string, systemDefault: bool, linked: bool, permissions: seq<Permission>)

  datatype State = State(roles: map<nat, Role>, nextRole: nat)

  datatype Response =
    | RoleCreated(id: nat) | RoleUpdated | RoleDeleted | PermissionsAdded | PermissionDeleted
    | RoleNotFound | PermissionNotFound | SystemDefaultRole | Duplicates(invalid: seq<Permission>) | ServerError

  // ----- the duplicate check

  /** `RBACService.findPermission`: entity, action, relation and attributes all agree. */
  predicate FindPermission(permissions: seq<Permission>, toFind: Permission) {
    exists i :: 0 <= i < |permissions|
      && toFind.entity == permissions[i].entity && toFind.action == permissions[i].action
      && toFind.relation == permissions[i].relation && toFind.attributes == permissions[i].attributes
  }

  /** The batch with the entry at `index` spliced out. */
  function Spliced(params: seq<Permission>, index: nat): seq<Permission>
    requires index < |params|
  {
    params[..index] + params[index + 1..]
  }

  predicate IsInvalid(params: seq<Permission>, existing: seq<Permission>, index: nat)
    requires index < |params|
  {
    FindPermission(existing, params[index]) || FindPermission(Spliced(params, index), params[index])
  }

  function InvalidUpTo(params: seq<Permission>, existing: seq<Permission>, n: nat): seq<Permission>
    requires n <= |params|
  {
    if n == 0 then []
    else InvalidUpTo(params, existing, n - 1) + if IsInvalid(params, existing, n - 1) then [params[n - 1]] else []
  }

  function Invalid(params: seq<Permission>, existing: seq<Permission>): seq<Permission> {
    InvalidUpTo(params, existing, |params|)
  }

  /** The filter over the request body. */
  method InvalidPermissions(params: seq<Permission>, existing: seq<Permission>) returns (invalid: seq<Permission>)
    ensures invalid == Invalid(params, existing)
  {
    invalid := [];
    for index := 0 to |params|
      invariant invalid == InvalidUpTo(params, existing, index)
    {
      var p := params[index];
      if FindPermission(existing, p) {
        invalid := invalid + [p];
      } else {
        var bodyWithoutCurrentPermission := params[..index] + params[index + 1..];
        if FindPermission(bodyWithoutCurrentPermission, p) {
          invalid := invalid + [p];
        }
      }
    }
  }

  lemma FoundMeansMember(permissions: seq<Permission>, p: Permission)
    ensures FindPermission(permissions, p) <==> p in permissions
  {
    if i :| 0 <= i < |permissions| && p.entity == permissions[i].entity && p.action == permissions[i].action
            && p.relation == permissions[i].relation && p.attributes == permissions[i].attributes {
      assert permissions[i] == p;
    }
  }

  lemma SplicedMember(params: seq<Permission>, index: nat)
    requires index < |params|
    ensures params[index] in Spliced(params, index) <==>
      exists j :: 0 <= j < |params| && j != index && params[j] == params[index]
  {
    var s := Spliced(params, index);
    if k :| 0 <= k < |s| && s[k] == params[index] {
      var j := if k < index then k else k + 1;
      assert params[j] == params[index] && j != index;
    }
    if j :| 0 <= j < |params| && j != index && params[j] == params[index] {
      var k := if j < index then j else j - 1;
      assert s[k] == params[j];
    }
  }

  lemma {:induction false} InvalidUpToMembers(params: seq<Permission>, existing: seq<Permission>, n: nat)
    requires n <= |params|
    ensures InvalidUpTo(params, existing, n) == [] <==> forall i :: 0 <= i < n ==> !IsInvalid(params, existing, i)
  {
    if n > 0 { InvalidUpToMembers(params, existing, n - 1); }
  }

  /** The check accepts a batch exactly when its entries differ from each other and from the existing ones. */
  lemma CheckAcceptsExactly(params: seq<Permission>, existing: seq<Permission>)
    ensures Invalid(params, existing) == [] <==>
      Distinct(params) && forall i :: 0 <= i < |params| ==> params[i] !in existing
  {
    InvalidUpToMembers(params, existing, |params|);
    forall i | 0 <= i < |params|
      ensures IsInvalid(params, existing, i) <==>
        params[i] in existing || exists j :: 0 <= j < |params| && j != i && params[j] == params[i]
    {
      FoundMeansMember(existing, params[i]);
      FoundMeansMember(Spliced(params, i), params[i]);
      SplicedMember(params, i);
    }
    if Distinct(params) {
      forall i, j | 0 <= i < |params| && 0 <= j < |params| && i != j ensures params[i] != params[j] {
        if j < i { assert params[j] != params[i]; }
      }
    }
  }

  // ----- the permission table

  /** Rows with one identity within a role. */
  predicate SameKey(p: Permission, q: Permission) {
    p.entity == q.entity && p.action == q.action && p.relation == q.relation
  }

  /** The position of the row that `p` identifies; |rows| when there is none. */
  function RowFor(rows: seq<Permission>, p: Permission): (i: nat)
    ensures i <= |rows|
    ensures i < |rows| ==> SameKey(rows[i], p)
    ensures forall j :: 0 <= j < i ==> !SameKey(rows[j], p)
  {
    if rows == [] || SameKey(rows[0], p) then 0 else 1 + RowFor(rows[1..], p)
  }

  predicate HasRow(rows: seq<Permission>, p: Permission) {
    RowFor(rows, p) < |rows|
  }

  /** Saving an entity updates the row with its key and inserts a row otherwise. */
  function Upsert(rows: seq<Permission>, p: Permission): seq<Permission> {
    var i := RowFor(rows, p);
    if i < |rows| then rows[i := p] else rows + [p]
  }

  function UpsertAll(rows: seq<Permission>, batch: seq<Permission>): seq<Permission> {
    if batch == [] then rows else Upsert(UpsertAll(rows, batch[..|batch| - 1]), batch[|batch| - 1])
  }

  /** Two entries of the batch would insert the same new row, which the primary key forbids. */
  predicate InsertsClash(rows: seq<Permission>, batch: seq<Permission>) {
    exists i, j :: 0 <= i < j < |batch| && SameKey(batch[i], batch[j]) && !HasRow(rows, batch[i])
  }

  /** Saving a batch in one transaction; None when it is rolled back. */
  function Save(rows: seq<Permission>, batch: seq<Permission>): Option<seq<Permission>> {
    if InsertsClash(rows, batch) then None else Some(UpsertAll(rows, batch))
  }

  ghost predicate UniqueKeys(rows: seq<Permission>) {
    forall i, j :: 0 <= i < j < |rows| ==> !SameKey(rows[i], rows[j])
  }

  // ----- the handlers, as functions on the tables

  predicate NameTaken(roles: map<nat, Role>, name: string, except: set<nat>) {
    exists id :: id in roles && id !in except && roles[id].name == name
  }

  function CreateRoleStep(s: State, name: string): (State, Response) {
    if NameTaken(s.roles, name, {}) then (s, ServerError)
    else (State(s.roles[s.nextRole := Role(name, false, false, [])], s.nextRole + 1), RoleCreated(s.nextRole))
  }

  function UpdateRoleStep(s: State, id: nat, name: string): (State, Response) {
    if id !in s.roles then (s, RoleNotFound)
    else if s.roles[id].systemDefault then (s, SystemDefaultRole)
    else if NameTaken(s.roles, name, {id}) then (s, ServerError)
    else (s.(roles := s.roles[id := s.roles[id].(name := name)]), RoleUpdated)
  }

  function DeleteRoleStep(s: State, id: nat): (State, Response) {
    if id !in s.roles then (s, RoleNotFound)
    else if s.roles[id].systemDefault then (s, SystemDefaultRole)
    else if s.roles[id].linked then (s, ServerError)
    else (s.(roles := s.roles - {id}), RoleDeleted)
  }

  /** The role with another list of permissions. */
  function WithPermissions(s: State, id: nat, rows: seq<Permission>): State
    requires id in s.roles
  {
    s.(roles := s.roles[id := s.roles[id].(permissions := rows)])
  }

  function AddPermissionsStep(s: State, id: nat, params: seq<Permission>): (State, Response) {
    if id !in s.roles then (s, RoleNotFound)
    else if s.roles[id].systemDefault then (s, SystemDefaultRole)
    else
      var invalid := Invalid(params, s.roles[id].permissions);
      if invalid != [] then (s, Duplicates(invalid))
      else
        match Save(s.roles[id].permissions, params)
        case None => (s, ServerError)
        case Some(rows) => (WithPermissions(s, id, rows), PermissionsAdded)
  }

  function DeletePermissionStep(s: State, id: nat, entity: string, action: string, relation: string)
    : (State, Response)
  {
    if id !in s.roles then (s, RoleNotFound)
    else if s.roles[id].systemDefault then (s, SystemDefaultRole)
    else
      var rows := s.roles[id].permissions;
      var i := RowFor(rows, Permission(entity, action, relation, []));
      if i == |rows| then (s, PermissionNotFound)
      else (WithPermissions(s, id, rows[..i] + rows[i + 1..]), PermissionDeleted)
  }

  datatype Request =
    | CreateRole(name: string)
    | UpdateRole(id: nat, name: string)
    | DeleteRole(id: nat)
    | AddPermissions(id: nat, params: seq<Permission>)
    | DeletePermission(id: nat, entity: string, action: string, relation: string)

  function Step(s: State, req: Request): (State, Response) {
    match req
    case CreateRole(name) => CreateRoleStep(s, name)
    case UpdateRole(id, name) => UpdateRoleStep(s, id, name)
    case DeleteRole(id) => DeleteRoleStep(s, id)
    case AddPermissions(id, params) => AddPermissionsStep(s, id, params)
    case DeletePermission(id, entity, action, relation) => DeletePermissionStep(s, id, entity, action, relation)
  }

  /** The controller with the tables it works on. */
  class RbacController {
    var roles: map<nat, Role>
    var nextRole: nat

    ghost function Tables(): State
      reads this
    {
      State(roles, nextRole)
    }

    constructor (roles: map<nat, Role>, nextRole: nat)
      ensures Tables() == State(roles, nextRole)
    {
      this.roles, this.nextRole := roles, nextRole;
    }

    method CreateRole(name: string) returns (res: Response)
      modifies this
      ensures (Tables(), res) == CreateRoleStep(old(Tables()), name)
      ensures res.RoleCreated? || (res == ServerError && Tables() == old(Tables()))
      ensures res.RoleCreated? <==> forall id :: id in old(roles) ==> old(roles)[id].name != name
      ensures res.RoleCreated? ==>
        roles == old(roles)[res.id := Role(name, false, false, [])] && res.id == old(nextRole)
      ensures old(Sound(Tables())) ==> Keeps(old(Tables()), Tables(), res)
    {
      if Sound(Tables()) { CreateRoleKeeps(Tables(), name); }
      if NameTaken(roles, name, {}) {
        return ServerError;
      }
      res := RoleCreated(nextRole);
      roles := roles[nextRole := Role(name, false, false, [])];
      nextRole := nextRole + 1;
    }

    method UpdateRole(id: nat, name: string) returns (res: Response)
      modifies this
      ensures (Tables(), res) == UpdateRoleStep(old(Tables()), id, name)
      ensures res.RoleUpdated? ||
        ((res.RoleNotFound? || res.SystemDefaultRole? || res.ServerError?) && Tables() == old(Tables()))
      ensures (res.RoleNotFound? <==> id !in old(roles))
      ensures (res.SystemDefaultRole? <==> id in old(roles) && old(roles)[id].systemDefault)
      ensures res.RoleUpdated? <==>
        && id in old(roles) && !old(roles)[id].systemDefault
        && forall other :: other in old(roles) && other != id ==> old(roles)[other].name != name
      ensures res.RoleUpdated? ==> roles == old(roles)[id := old(roles)[id].(name := name)]
      ensures old(Sound(Tables())) ==> Keeps(old(Tables()), Tables(), res)
    {
      if Sound(Tables()) { UpdateRoleKeeps(Tables(), id, name); }
      if id !in roles {
        return RoleNotFound;
      }
      if roles[id].systemDefault {
        return SystemDefaultRole;
      }
      if NameTaken(roles, name, {id}) {
        return ServerError;
      }
      roles := roles[id := roles[id].(name := name)];
      res := RoleUpdated;
    }

    method DeleteRole(id: nat) returns (res: Response)
      modifies this
      ensures (Tables(), res) == DeleteRoleStep(old(Tables()), id)
      ensures res.RoleDeleted? ||
        ((res.RoleNotFound? || res.SystemDefaultRole? || res.ServerError?) && Tables() == old(Tables()))
      ensures (res.RoleNotFound? <==> id !in old(roles))
      ensures (res.SystemDefaultRole? <==> id in old(roles) && old(roles)[id].systemDefault)
      ensures res.RoleDeleted? <==> id in old(roles) && !old(roles)[id].systemDefault && !old(roles)[id].linked
      ensures res.RoleDeleted? ==> id !in roles && forall other :: other in old(roles) && other != id ==>
        other in roles && roles[other] == old(roles)[other]
      ensures old(Sound(Tables())) ==> Keeps(old(Tables()), Tables(), res)
    {
      if Sound(Tables()) { DeleteRoleKeeps(Tables(), id); }
      if id !in roles {
        return RoleNotFound;
      }
      if roles[id].systemDefault {
        return SystemDefaultRole;
      }
      if roles[id].linked {
        return ServerError;
      }
      roles := roles - {id};
      res := RoleDeleted;
    }

    method AddPermissions(id: nat, body: seq<Permission>) returns (res: Response)
      modifies this
      ensures (Tables(), res) == AddPermissionsStep(old(Tables()), id, body)
      ensures res.PermissionsAdded? || (Refused(res) && !res.PermissionNotFound? && Tables() == old(Tables()))
      ensures (res.RoleNotFound? <==> id !in old(roles))
      ensures (res.SystemDefaultRole? <==> id in old(roles) && old(roles)[id].systemDefault)
      ensures id in old(roles) && !old(roles)[id].systemDefault ==>
        var rows := old(roles)[id].permissions;
        var isNew := Distinct(body) && forall p :: p in body ==> p !in rows;
        && (res.Duplicates? <==> !isNew)
        && (res.ServerError? <==> isNew && ClashingKeys(rows, body))
      ensures res.Duplicates? ==> forall p :: p in res.invalid <==>
        p in body && (p in old(roles)[id].permissions || OccursTwice(body, p))
      ensures res.PermissionsAdded? ==> forall p :: p in body ==> p !in old(roles)[id].permissions
      ensures res.PermissionsAdded? && old(Sound(Tables())) ==> forall p ::
        p in roles[id].permissions <==> LastWord(body, p) || (p in old(roles)[id].permissions && Untouched(body, p))
      ensures old(Sound(Tables())) ==> Keeps(old(Tables()), Tables(), res)
    {
      if Sound(Tables()) { AddPermissionsKeeps(Tables(), id, body); }
      if id in roles {
        CheckAcceptsExactly(body, roles[id].permissions);
        InvalidMembers(body, roles[id].permissions);
        ClashIsOnKeys(roles[id].permissions, body);
      }
      if id !in roles {
        return RoleNotFound;
      }
      var role := roles[id];
      if role.systemDefault {
        return SystemDefaultRole;
      }
      var params := body;
      var invalidPermissions := InvalidPermissions(params, role.permissions);
      if |invalidPermissions| > 0 {
        return Duplicates(invalidPermissions);
      }
      var saved := Save(role.permissions, params);
      if saved.None? {
        return ServerError;
      }
      forall p | Sound(Tables()) { SavedRows(role.permissions, params, p); }
      roles := roles[id := role.(permissions := saved.value)];
      res := PermissionsAdded;
    }

    method DeletePermission(id: nat, entity: string, action: string, relation: string) returns (res: Response)
      modifies this
      ensures (Tables(), res) == DeletePermissionStep(old(Tables()), id, entity, action, relation)
      ensures res.PermissionDeleted? ||
        ((res.RoleNotFound? || res.SystemDefaultRole? || res.PermissionNotFound?) && Tables() == old(Tables()))
      ensures (res.RoleNotFound? <==> id !in old(roles))
      ensures (res.SystemDefaultRole? <==> id in old(roles) && old(roles)[id].systemDefault)
      ensures res.PermissionDeleted? <==>
        && id in old(roles) && !old(roles)[id].systemDefault
        && exists p :: p in old(roles)[id].permissions && HasKey(p, entity, action, relation)
      ensures res.PermissionDeleted? && old(Sound(Tables())) ==> forall p ::
        p in roles[id].permissions <==> p in old(roles)[id].permissions && !HasKey(p, entity, action, relation)
      ensures old(Sound(Tables())) ==> Keeps(old(Tables()), Tables(), res)
    {
      if Sound(Tables()) { DeletePermissionKeeps(Tables(), id, entity, action, relation); }
      if id in roles { RowFound(roles[id].permissions, entity, action, relation); }
      if id !in roles {
        return RoleNotFound;
      }
      var role := roles[id];
      if role.systemDefault {
        return SystemDefaultRole;
      }
      var i := RowFor(role.permissions, Permission(entity, action, relation, []));
      if i == |role.permissions| {
        return PermissionNotFound;
      }
      if Sound(Tables()) { RemovedRows(role.permissions, entity, action, relation); }
      roles := roles[id := role.(permissions := role.permissions[..i] + role.permissions[i + 1..])];
      res := PermissionDeleted;
    }
  }

  // ----- what is refused

  ghost predicate OccursTwice(batch: seq<Permission>, p: Permission) {
    exists i, j :: 0 <= i < j < |batch| && batch[i] == p && batch[j] == p
  }

  lemma {:induction false} InvalidUpToHolds(params: seq<Permission>, existing: seq<Permission>, n: nat, p: Permission)
    requires n <= |params|
    ensures p in InvalidUpTo(params, existing, n) <==>
      exists i :: 0 <= i < n && params[i] == p && IsInvalid(params, existing, i)
  {
    if n > 0 { InvalidUpToHolds(params, existing, n - 1, p); }
  }

  /** The reported entries are those that are stored already or occur twice in the batch. */
  lemma InvalidMembers(params: seq<Permission>, existing: seq<Permission>)
    ensures forall p :: p in Invalid(params, existing) <==> p in params && (p in existing || OccursTwice(params, p))
  {
    forall p ensures p in Invalid(params, existing) <==> p in params && (p in existing || OccursTwice(params, p)) {
      InvalidUpToHolds(params, existing, |params|, p);
      forall i | 0 <= i < |params| && params[i] == p
        ensures IsInvalid(params, existing, i) <==> p in existing || OccursTwice(params, p)
      {
        InvalidAt(params, existing, i);
      }
    }
  }

  lemma InvalidAt(params: seq<Permission>, existing: seq<Permission>, i: nat)
    requires i < |params|
    ensures IsInvalid(params, existing, i) <==> params[i] in existing || OccursTwice(params, params[i])
  {
    var p := params[i];
    FoundMeansMember(existing, p);
    FoundMeansMember(Spliced(params, i), p);
    SplicedMember(params, i);
    if j :| 0 <= j < |params| && j != i && params[j] == p {
      if j < i { assert params[j] == p && params[i] == p; }
    }
    if a, b :| 0 <= a < b < |params| && params[a] == p && params[b] == p {
      var j := if a == i then b else a;
      assert j != i && params[j] == p;
    }
  }

  /** Two entries with one entity, action and relation, for which no row is stored. */
  ghost predicate ClashingKeys(rows: seq<Permission>, batch: seq<Permission>) {
    exists i, j :: 0 <= i < j < |batch|
      && HasKey(batch[i], batch[j].entity, batch[j].action, batch[j].relation)
      && forall row :: row in rows ==> !HasKey(row, batch[j].entity, batch[j].action, batch[j].relation)
  }

  lemma ClashIsOnKeys(rows: seq<Permission>, batch: seq<Permission>)
    ensures InsertsClash(rows, batch) <==> ClashingKeys(rows, batch)
  {
    forall i, j | 0 <= i < j < |batch| && SameKey(batch[i], batch[j])
      ensures HasRow(rows, batch[i]) <==>
        exists row :: row in rows && HasKey(row, batch[j].entity, batch[j].action, batch[j].relation)
    {
      RowForKey(rows, batch[i]);
    }
  }

  lemma RowForKey(rows: seq<Permission>, p: Permission)
    ensures HasRow(rows, p) <==> exists row :: row in rows && HasKey(row, p.entity, p.action, p.relation)
  {
    var i := RowFor(rows, p);
    if i < |rows| { assert rows[i] in rows && HasKey(rows[i], p.entity, p.action, p.relation); }
    if row :| row in rows && HasKey(row, p.entity, p.action, p.relation) {
      var j :| 0 <= j < |rows| && rows[j] == row;
      assert SameKey(rows[j], p);
    }
  }

  // ----- what deleting does

  predicate HasKey(p: Permission, entity: string, action: string, relation: string) {
    p.entity == entity && p.action == action && p.relation == relation
  }

  lemma RowFound(rows: seq<Permission>, entity: string, action: string, relation: string)
    ensures RowFor(rows, Permission(entity, action, relation, [])) < |rows| <==>
      exists p :: p in rows && HasKey(p, entity, action, relation)
  {
    var key := Permission(entity, action, relation, []);
    var i := RowFor(rows, key);
    if p :| p in rows && HasKey(p, entity, action, relation) {
      var j :| 0 <= j < |rows| && rows[j] == p;
      assert SameKey(rows[j], key);
    }
    if i < |rows| { assert rows[i] in rows && HasKey(rows[i], entity, action, relation); }
  }

  /** Without one row, exactly the rows with another key are left. */
  lemma RowRemoved(rows: seq<Permission>, i: nat, q: Permission)
    requires UniqueKeys(rows) && i < |rows|
    ensures q in rows[..i] + rows[i + 1..] <==> q in rows && !SameKey(rows[i], q)
  {
    if j :| 0 <= j < |rows| && rows[j] == q {
      if j < i { assert rows[..i][j] == q; }
      if j > i { assert rows[i + 1..][j - i - 1] == q; }
      assert j != i ==> !SameKey(rows[i], rows[j]);
    }
  }

  lemma RemovedRows(rows: seq<Permission>, entity: string, action: string, relation: string)
    requires UniqueKeys(rows) && RowFor(rows, Permission(entity, action, relation, [])) < |rows|
    ensures var i := RowFor(rows, Permission(entity, action, relation, []));
            forall p :: p in rows[..i] + rows[i + 1..] <==> p in rows && !HasKey(p, entity, action, relation)
  {
    var i := RowFor(rows, Permission(entity, action, relation, []));
    forall p ensures p in rows[..i] + rows[i + 1..] <==> p in rows && !HasKey(p, entity, action, relation) {
      RowRemoved(rows, i, p);
    }
  }

  // ----- what saving does

  lemma NoRow(rows: seq<Permission>, p: Permission)
    requires !HasRow(rows, p)
    ensures forall j :: 0 <= j < |rows| ==> !SameKey(rows[j], p)
  {
  }

  lemma UpsertKeepsKeys(rows: seq<Permission>, p: Permission)
    requires UniqueKeys(rows)
    ensures UniqueKeys(Upsert(rows, p))
  {
  }

  lemma {:induction false} UpsertAllKeepsKeys(rows: seq<Permission>, batch: seq<Permission>)
    requires UniqueKeys(rows)
    ensures UniqueKeys(UpsertAll(rows, batch))
  {
    if batch != [] {
      UpsertAllKeepsKeys(rows, batch[..|batch| - 1]);
      UpsertKeepsKeys(UpsertAll(rows, batch[..|batch| - 1]), batch[|batch| - 1]);
    }
  }

  /** The entries of the batch have keys of their own and no row has one of them yet. */
  ghost predicate AllNew(rows: seq<Permission>, batch: seq<Permission>) {
    UniqueKeys(rows + batch)
  }

  lemma {:induction false} NewEntriesAreAppended(rows: seq<Permission>, batch: seq<Permission>)
    requires AllNew(rows, batch)
    ensures UpsertAll(rows, batch) == rows + batch
  {
    if batch == [] {
      assert rows + batch == rows;
    } else {
      var front, last := batch[..|batch| - 1], batch[|batch| - 1];
      assert rows + batch == (rows + front) + [last];
      assert forall i :: 0 <= i < |rows + front| ==> (rows + front)[i] == (rows + batch)[i];
      assert (rows + batch)[|rows + front|] == last;
      NewEntriesAreAppended(rows, front);
    }
  }

  /**
   An accepted batch is purely added, nothing overwritten and nothing refused by the table, exactly when no
   entity, action and relation occurs twice among the old rows and the batch together.
   */
  lemma PurelyAddedIff(s: State, id: nat, params: seq<Permission>)
    requires id in s.roles && UniqueKeys(s.roles[id].permissions)
    requires !s.roles[id].systemDefault && Invalid(params, s.roles[id].permissions) == []
    ensures var rows := s.roles[id].permissions;
            AddPermissionsStep(s, id, params) == (WithPermissions(s, id, rows + params), PermissionsAdded)
            <==> AllNew(rows, params)
  {
    var rows := s.roles[id].permissions;
    UpsertAllKeepsKeys(rows, params);
    if AllNew(rows, params) {
      NewEntriesAreAppended(rows, params);
      forall i, j | 0 <= i < j < |params| ensures !SameKey(params[i], params[j]) {
        assert (rows + params)[|rows| + i] == params[i] && (rows + params)[|rows| + j] == params[j];
      }
      assert Save(rows, params) == Some(rows + params);
    } else if AddPermissionsStep(s, id, params).1 == PermissionsAdded {
      assert AddPermissionsStep(s, id, params).0.roles[id].permissions == UpsertAll(rows, params);
    }
  }

  ghost predicate Untouched(batch: seq<Permission>, q: Permission) {
    forall j :: 0 <= j < |batch| ==> !SameKey(batch[j], q)
  }

  ghost predicate LastWordAt(batch: seq<Permission>, i: int, q: Permission) {
    0 <= i < |batch| && batch[i] == q && Untouched(batch[i + 1..], q)
  }

  /** `q` is in the batch and no later entry has its key. */
  ghost predicate LastWord(batch: seq<Permission>, q: Permission) {
    exists i :: LastWordAt(batch, i, q)
  }

  lemma LastWordKept(batch: seq<Permission>, p: Permission, q: Permission, i: int)
    requires 0 <= i < |batch|
    ensures LastWordAt(batch + [p], i, q) <==> LastWordAt(batch, i, q) && !SameKey(p, q)
  {
    assert (batch + [p])[i + 1..] == batch[i + 1..] + [p];
    UntouchedOneMore(batch[i + 1..], p, q);
  }

  lemma LastWordAtEnd(batch: seq<Permission>, p: Permission, q: Permission)
    ensures LastWordAt(batch + [p], |batch|, q) <==> p == q
  {
    assert (batch + [p])[|batch|] == p;
  }

  lemma LastWordOneMore(batch: seq<Permission>, p: Permission, q: Permission)
    ensures Untouched(batch + [p], q) <==> Untouched(batch, q) && !SameKey(p, q)
    ensures LastWord(batch + [p], q) <==> p == q || (LastWord(batch, q) && !SameKey(p, q))
  {
    var more := batch + [p];
    UntouchedOneMore(batch, p, q);
    LastWordAtEnd(batch, p, q);
    if i :| LastWordAt(more, i, q) && i < |batch| { LastWordKept(batch, p, q, i); }
    if i :| LastWordAt(batch, i, q) && !SameKey(p, q) { LastWordKept(batch, p, q, i); }
    if p == q { assert more[|batch| + 1..] == [] && Untouched([], q); }
  }

  lemma UntouchedOneMore(batch: seq<Permission>, p: Permission, q: Permission)
    ensures Untouched(batch + [p], q) <==> Untouched(batch, q) && !SameKey(p, q)
  {
    var more := batch + [p];
    assert more[|batch|] == p && forall j :: 0 <= j < |batch| ==> more[j] == batch[j];
  }

  /** What an accepted batch leaves behind: the last entry for a key wins, other rows stay. */
  lemma {:induction false} SavedRows(rows: seq<Permission>, batch: seq<Permission>, q: Permission)
    requires UniqueKeys(rows)
    ensures q in UpsertAll(rows, batch) <==> LastWord(batch, q) || (q in rows && Untouched(batch, q))
  {
    if batch != [] {
      var front, last := batch[..|batch| - 1], batch[|batch| - 1];
      SavedRows(rows, front, q);
      UpsertAllKeepsKeys(rows, front);
      UpsertMembers(UpsertAll(rows, front), last, q);
      LastWordOneMore(front, last, q);
      assert front + [last] == batch;
    }
  }

  lemma UpsertMembers(rows: seq<Permission>, p: Permission, q: Permission)
    requires UniqueKeys(rows)
    ensures q in Upsert(rows, p) <==> q == p || (q in rows && !SameKey(p, q))
  {
    var i, after := RowFor(rows, p), Upsert(rows, p);
    if q == p {
      assert after[i] == p;
    }
    if k :| 0 <= k < |rows| && rows[k] == q {
      if !SameKey(p, q) { assert after[k] == q; }
    }
  }

  /** Deleting a permission undoes adding it, when its key was new. */
  lemma DeleteUndoesAdd(s: State, id: nat, p: Permission)
    requires id in s.roles && !s.roles[id].systemDefault && !HasRow(s.roles[id].permissions, p)
    ensures var added := AddPermissionsStep(s, id, [p]);
            added.1 == PermissionsAdded
            && DeletePermissionStep(added.0, id, p.entity, p.action, p.relation) == (s, PermissionDeleted)
  {
    var rows := s.roles[id].permissions;
    NoRow(rows, p);
    CheckAcceptsExactly([p], rows);
    assert [p][..0] == [];
    assert UpsertAll(rows, [p]) == Upsert(rows, p) == rows + [p];
    var q := Permission(p.entity, p.action, p.relation, []);
    RowAtEnd(rows, p, q);
    assert (rows + [p])[..|rows|] + (rows + [p])[|rows| + 1..] == rows;
    var m := s.roles[id := s.roles[id].(permissions := rows + [p])];
    assert m[id := m[id].(permissions := rows)] == s.roles;
  }

  lemma RowAtEnd(rows: seq<Permission>, p: Permission, q: Permission)
    requires !HasRow(rows, p) && SameKey(p, q)
    ensures RowFor(rows + [p], q) == |rows|
  {
    NoRow(rows, p);
    var i := RowFor(rows + [p], q);
    assert forall j :: 0 <= j < |rows| ==> (rows + [p])[j] == rows[j];
    assert SameKey((rows + [p])[|rows|], q);
  }

  // ----- what every run keeps

  ghost predicate Sound(s: State) {
    && (forall id :: id in s.roles ==> UniqueKeys(s.roles[id].permissions) && id < s.nextRole)
    && (forall a, b :: a in s.roles && b in s.roles && a != b ==> s.roles[a].name != s.roles[b].name)
  }

  /** Every system default role is still there, as it was. */
  ghost predicate SystemRolesKept(before: State, after: State) {
    forall id :: id in before.roles && before.roles[id].systemDefault ==>
      id in after.roles && after.roles[id] == before.roles[id]
  }

  /** Refusals change nothing. */
  predicate Refused(res: Response) {
    res.RoleNotFound? || res.PermissionNotFound? || res.SystemDefaultRole? || res.Duplicates? || res.ServerError?
  }

  /** What a handler guarantees, whatever it answers. */
  ghost predicate Keeps(s: State, after: State, res: Response) {
    Sound(after) && SystemRolesKept(s, after) && (Refused(res) ==> after == s)
  }

  lemma CreateRoleKeeps(s: State, name: string)
    requires Sound(s)
    ensures Keeps(s, CreateRoleStep(s, name).0, CreateRoleStep(s, name).1)
  {
  }

  lemma UpdateRoleKeeps(s: State, id: nat, name: string)
    requires Sound(s)
    ensures Keeps(s, UpdateRoleStep(s, id, name).0, UpdateRoleStep(s, id, name).1)
  {
  }

  lemma DeleteRoleKeeps(s: State, id: nat)
    requires Sound(s)
    ensures Keeps(s, DeleteRoleStep(s, id).0, DeleteRoleStep(s, id).1)
  {
  }

  /** Giving an ordinary role a new list of permissions with unique keys. */
  lemma NewPermissionsKeep(s: State, id: nat, rows: seq<Permission>, res: Response)
    requires Sound(s) && id in s.roles && !s.roles[id].systemDefault && UniqueKeys(rows) && !Refused(res)
    ensures Keeps(s, WithPermissions(s, id, rows), res)
  {
  }

  lemma AddPermissionsKeeps(s: State, id: nat, params: seq<Permission>)
    requires Sound(s)
    ensures Keeps(s, AddPermissionsStep(s, id, params).0, AddPermissionsStep(s, id, params).1)
  {
    if id in s.roles && !s.roles[id].systemDefault {
      var rows := UpsertAll(s.roles[id].permissions, params);
      UpsertAllKeepsKeys(s.roles[id].permissions, params);
      NewPermissionsKeep(s, id, rows, PermissionsAdded);
    }
  }

  lemma DeletePermissionKeeps(s: State, id: nat, entity: string, action: string, relation: string)
    requires Sound(s)
    ensures var (after, res) := DeletePermissionStep(s, id, entity, action, relation); Keeps(s, after, res)
  {
    if id in s.roles && !s.roles[id].systemDefault {
      var rows := s.roles[id].permissions;
      var i := RowFor(rows, Permission(entity, action, relation, []));
      if i < |rows| {
        NewPermissionsKeep(s, id, rows[..i] + rows[i + 1..], PermissionDeleted);
      }
    }
  }

  lemma StepKeepsSound(s: State, req: Request)
    requires Sound(s)
    ensures Keeps(s, Step(s, req).0, Step(s, req).1)
  {
    match req
    case CreateRole(name) => CreateRoleKeeps(s, name);
    case UpdateRole(id, name) => UpdateRoleKeeps(s, id, name);
    case DeleteRole(id) => DeleteRoleKeeps(s, id);
    case AddPermissions(id, params) => AddPermissionsKeeps(s, id, params);
    case DeletePermission(id, entity, action, relation) => DeletePermissionKeeps(s, id, entity, action, relation);
  }

  function Run(s: State, requests: seq<Request>): State
    decreases |requests|
  {
    if requests == [] then s else Run(Step(s, requests[0]).0, requests[1..])
  }

  /**
   In every run no role holds two permissions with one entity, action and relation, and the system default roles
   with their permissions stay as they were.
   */
  lemma {:induction false} RunStaysSound(s: State, requests: seq<Request>)
    requires Sound(s)
    ensures Sound(Run(s, requests)) && SystemRolesKept(s, Run(s, requests))
    decreases |requests|
  {
    if requests != [] {
      StepKeepsSound(s, requests[0]);
      RunStaysSound(Step(s, requests[0]).0, requests[1..]);
    }
  }

  // ----- how long a permission stays

  ghost predicate Holds(s: State, id: nat, q: Permission) {
    id in s.roles && q in s.roles[id].permissions
  }

  /** The request, so answered, deletes `q` or its role, or adds an entry with the key of `q`. */
  ghost predicate Takes(req: Request, res: Response, id: nat, q: Permission) {
    match req
    case CreateRole(_) => false
    case UpdateRole(_, _) => false
    case DeleteRole(i) => i == id && res.RoleDeleted?
    case AddPermissions(i, params) => i == id && res.PermissionsAdded? && !Untouched(params, q)
    case DeletePermission(i, entity, action, relation) =>
      i == id && res.PermissionDeleted? && HasKey(q, entity, action, relation)
  }

  lemma AddingTakesIff(s: State, id: nat, params: seq<Permission>, q: Permission)
    requires Sound(s) && Holds(s, id, q) && AddPermissionsStep(s, id, params).1.PermissionsAdded?
    ensures Holds(AddPermissionsStep(s, id, params).0, id, q) <==> Untouched(params, q)
  {
    var rows := s.roles[id].permissions;
    CheckAcceptsExactly(params, rows);
    SavedRows(rows, params, q);
    assert !LastWord(params, q);
  }

  /** A stored permission is gone after a request exactly when that request takes it. */
  lemma StepTakesIff(s: State, req: Request, id: nat, q: Permission)
    requires Sound(s) && Holds(s, id, q)
    ensures Holds(Step(s, req).0, id, q) <==> !Takes(req, Step(s, req).1, id, q)
  {
    match req
    case CreateRole(_) =>
    case UpdateRole(_, _) =>
    case DeleteRole(_) =>
    case AddPermissions(i, params) =>
      if i == id && Step(s, req).1.PermissionsAdded? { AddingTakesIff(s, id, params, q); }
    case DeletePermission(i, entity, action, relation) =>
      if i == id && Step(s, req).1.PermissionDeleted? {
        RemovedRows(s.roles[id].permissions, entity, action, relation);
      }
  }

  lemma {:induction false} RunOneMore(s: State, requests: seq<Request>, n: nat)
    requires n < |requests|
    ensures Run(s, requests[..n + 1]) == Step(Run(s, requests[..n]), requests[n]).0
    decreases n
  {
    if n == 0 {
      assert requests[..1][1..] == [];
    } else {
      RunOneMore(Step(s, requests[0]).0, requests[1..], n - 1);
      assert requests[..n + 1][1..] == requests[1..][..n] && requests[..n][1..] == requests[1..][..n - 1];
    }
  }

  /** Request number `n` of the run takes `q`. */
  ghost predicate TakenAt(s: State, requests: seq<Request>, n: nat, id: nat, q: Permission)
    requires n < |requests|
  {
    Takes(requests[n], Step(Run(s, requests[..n]), requests[n]).1, id, q)
  }

  lemma {:induction false} HeldSoFar(s: State, requests: seq<Request>, n: nat, id: nat, q: Permission)
    requires Sound(s) && Holds(s, id, q) && n <= |requests|
    requires forall m :: 0 <= m < n ==> !TakenAt(s, requests, m, id, q)
    ensures Holds(Run(s, requests[..n]), id, q)
  {
    if n == 0 {
      assert requests[..0] == [];
    } else {
      var m := n - 1;
      HeldSoFar(s, requests, m, id, q);
      RunOneMore(s, requests, m);
      RunStaysSound(s, requests[..m]);
      assert !TakenAt(s, requests, m, id, q);
      StepTakesIff(Run(s, requests[..m]), requests[m], id, q);
    }
  }

  /** In every run a stored permission is there throughout, attributes and all, exactly when no request takes it. */
  lemma StaysIff(s: State, requests: seq<Request>, id: nat, q: Permission)
    requires Sound(s) && Holds(s, id, q)
    ensures (forall n :: 0 <= n <= |requests| ==> Holds(Run(s, requests[..n]), id, q))
      <==> forall n :: 0 <= n < |requests| ==> !TakenAt(s, requests, n, id, q)
  {
    if n :| 0 <= n < |requests| && TakenAt(s, requests, n, id, q) && Holds(Run(s, requests[..n]), id, q) {
      RunOneMore(s, requests, n);
      RunStaysSound(s, requests[..n]);
      StepTakesIff(Run(s, requests[..n]), requests[n], id, q);
      assert !Holds(Run(s, requests[..n + 1]), id, q);
    }
    if forall n :: 0 <= n < |requests| ==> !TakenAt(s, requests, n, id, q) {
      forall n | 0 <= n <= |requests| ensures Holds(Run(s, requests[..n]), id, q) {
        HeldSoFar(s, requests, n, id, q);
      }
    }
  }

  lemma {:induction false} InvalidEntryIsListed(params: seq<Permission>, existing: seq<Permission>, n: nat, i: nat)
    requires i < n <= |params| && IsInvalid(params, existing, i)
    ensures params[i] in InvalidUpTo(params, existing, n)
  {
    if i < n - 1 { InvalidEntryIsListed(params, existing, n - 1, i); }
  }

  /** As long as a permission is stored, a batch that contains it is refused with it among the duplicates. */
  lemma StoredIsRefused(s: State, id: nat, params: seq<Permission>, q: Permission)
    requires Holds(s, id, q) && q in params && !s.roles[id].systemDefault
    ensures var (after, res) := AddPermissionsStep(s, id, params);
            after == s && res.Duplicates? && q in res.invalid
  {
    var i :| 0 <= i < |params| && params[i] == q;
    FoundMeansMember(s.roles[id].permissions, q);
    InvalidEntryIsListed(params, s.roles[id].permissions, |params|, i);
  }

  /**
   Nothing is added twice: along every run, from a moment at which `q` is stored on, a batch with `q` is accepted
   for its role only after some request has taken `q`.
   */
  lemma AcceptedAgainOnlyAfterTaken(s: State, requests: seq<Request>, id: nat, params: seq<Permission>, q: Permission)
    requires Sound(s) && Holds(s, id, q) && q in params
    requires AddPermissionsStep(Run(s, requests), id, params).1.PermissionsAdded?
    ensures exists n :: 0 <= n < |requests| && TakenAt(s, requests, n, id, q)
  {
    if forall n :: 0 <= n < |requests| ==> !TakenAt(s, requests, n, id, q) {
      HeldSoFar(s, requests, |requests|, id, q);
      assert requests[..|requests|] == requests;
      StoredIsRefused(Run(s, requests), id, params, q);
    }
  }

  /** An accepted batch takes no stored permission exactly when its keys are new and its own. */
  lemma OverwritesNothingIff(s: State, id: nat, params: seq<Permission>)
    requires Sound(s) && AddPermissionsStep(s, id, params).1.PermissionsAdded?
    ensures (forall q :: Holds(s, id, q) ==> Holds(AddPermissionsStep(s, id, params).0, id, q))
      <==> AllNew(s.roles[id].permissions, params)
  {
    var rows := s.roles[id].permissions;
    forall q | q in rows ensures Holds(AddPermissionsStep(s, id, params).0, id, q) <==> Untouched(params, q) {
      AddingTakesIff(s, id, params, q);
    }
    AllNewIff(rows, params);
    if forall q :: q in rows ==> Untouched(params, q) {
      assert forall k :: 0 <= k < |rows| ==> Untouched(params, rows[k]);
      assert forall i :: 0 <= i < |params| ==> !HasRow(rows, params[i]);
    }
  }

  lemma AllNewIff(rows: seq<Permission>, batch: seq<Permission>)
    requires UniqueKeys(rows)
    ensures AllNew(rows, batch) <==> UniqueKeys(batch) && forall q :: q in rows ==> Untouched(batch, q)
  {
    var all := rows + batch;
    assert forall i :: 0 <= i < |rows| ==> all[i] == rows[i];
    assert forall j :: 0 <= j < |batch| ==> all[|rows| + j] == batch[j];
    if UniqueKeys(batch) && forall q :: q in rows ==> Untouched(batch, q) {
      forall i, j | 0 <= i < j < |all| ensures !SameKey(all[i], all[j]) {
        if i < |rows| <= j { assert Untouched(batch, rows[i]) && all[j] == batch[j - |rows|]; }
      }
    }
  }

  /** An entry that differs from a stored one in its attributes alone passes the check and takes its place. */
  lemma OtherAttributesOverwrite(s: State, id: nat, p: Permission, attributes: seq<string>)
    requires Sound(s) && Holds(s, id, p) && !s.roles[id].systemDefault && attributes != p.attributes
    ensures var q := p.(attributes := attributes);
            var (after, res) := AddPermissionsStep(s, id, [q]);
            res == PermissionsAdded && Holds(after, id, q) && !Holds(after, id, p)
  {
    var q := p.(attributes := attributes);
    var rows := s.roles[id].permissions;
    assert forall r :: r in rows && SameKey(r, p) ==> r == p;
    CheckAcceptsExactly([q], rows);
    assert AddPermissionsStep(s, id, [q]).1 == PermissionsAdded;
    SavedRows(rows, [q], q);
    assert [q][1..] == [] && LastWordAt([q], 0, q);
    AddingTakesIff(s, id, [q], p);
    assert SameKey([q][0], p);
  }
}
