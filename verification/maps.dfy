/** Maps and their access lists (`MapModel` and `Map`, model.py:88-146 and
    model.py:454-814): the deleted and blocked lifecycle built on the NEVER
    sentinel, lookups that hide deleted maps, map creation with its domain
    role merge, and the permission-list edits. The permission checks of
    the `perms` module are boolean parameters: whether the current user holds
    the role the operation asks for. */
module Maps {
  import opened Base
  import opened RoleLists
  import Catalog

  /** The roles a permission list can be edited for, and any other role
      name, which the edits ignore. */
  datatype Role = MapViewer | MapReviewer | MapEditor | MapOwner | OtherRole(name: string)

  predicate IsMapRole(role: Role)
  {
    !role.OtherRole?
  }

  datatype MapRecord = MapRecord(
    id: string,
    created: Time,
    creatorUid: Uid,
    deleted: Time,
    deleterUid: Option<Uid>,
    blocked: Time,
    blockerUid: Option<Uid>,
    owners: seq<Uid>,
    editors: seq<Uid>,
    reviewers: seq<Uid>,
    viewers: seq<Uid>,
    domain: string,
    domainRole: Option<Role>,
    worldReadable: bool)

  predicate IsDeleted(m: MapRecord)
  {
    m.deleted != NEVER
  }

  predicate IsBlocked(m: MapRecord)
  {
    m.blocked != NEVER
  }

  /** The permission list a map role is kept in. */
  function RoleList(m: MapRecord, role: Role): seq<Uid>
    requires IsMapRole(role)
  {
    match role
    case MapViewer => m.viewers
    case MapReviewer => m.reviewers
    case MapEditor => m.editors
    case MapOwner => m.owners
  }

  /** The map with the list for `role` replaced and nothing else changed. */
  function WithRoleList(m: MapRecord, role: Role, list: seq<Uid>): (r: MapRecord)
    requires IsMapRole(role)
    ensures RoleList(r, role) == list
    ensures forall other :: IsMapRole(other) && other != role ==> RoleList(r, other) == RoleList(m, other)
    ensures SameExceptLists(r, m)
  {
    match role
    case MapViewer => m.(viewers := list)
    case MapReviewer => m.(reviewers := list)
    case MapEditor => m.(editors := list)
    case MapOwner => m.(owners := list)
  }

  /** Every field other than the four permission lists agrees. */
  predicate SameExceptLists(a: MapRecord, b: MapRecord)
  {
    a.(owners := [], editors := [], reviewers := [], viewers := [])
    == b.(owners := [], editors := [], reviewers := [], viewers := [])
  }

  /** `Map.RevokePermission` after its owner check: takes one occurrence of
      `uid` out of the list for `role`; nothing happens for a role that is
      not a map role or a user not in the list. */
  function Revoked(m: MapRecord, role: Role, uid: Uid): (r: MapRecord)
    ensures !IsMapRole(role) ==> r == m
    ensures SameExceptLists(r, m)
  {
    if IsMapRole(role) && uid in RoleList(m, role) then
      WithRoleList(m, role, RemoveFirst(RoleList(m, role), uid))
    else m
  }

  /** `Map.RevokePermission`: only a map owner may revoke. */
  function RevokePermission(m: MapRecord, role: Role, uid: Uid, isOwner: bool): (r: Result<MapRecord>)
    ensures r.Ok? <==> isOwner
    ensures r.Ok? ==> r.value == Revoked(m, role, uid) && SameExceptLists(r.value, m)
    ensures r.Err? ==> r.error == AuthorizationError
  {
    if !isOwner then Err(AuthorizationError) else Ok(Revoked(m, role, uid))
  }

  /** Revocation removes one copy of `uid` from the role's list, leaves the
      other lists alone, and does not touch any other user. */
  lemma RevokeEffect(m: MapRecord, role: Role, uid: Uid)
    requires IsMapRole(role)
    ensures var r := RevokePermission(m, role, uid, true).value;
            multiset(RoleList(r, role)) == multiset(RoleList(m, role)) - multiset{uid}
            && forall other :: IsMapRole(other) && other != role ==> RoleList(r, other) == RoleList(m, other)
  {
    RemoveFirstMultiset(RoleList(m, role), uid);
  }

  /** The four map roles in the order `ChangePermissionLevel` walks them. */
  const MAP_ROLES: seq<Role> := [MapViewer, MapReviewer, MapEditor, MapOwner]

  /** `uid` appended to the list for `role` unless it is already there. */
  function Granted(m: MapRecord, role: Role, uid: Uid): (r: MapRecord)
    requires IsMapRole(role)
    ensures SameExceptLists(r, m)
  {
    if uid in RoleList(m, role) then m
    else WithRoleList(m, role, RoleList(m, role) + [uid])
  }

  /** Revokes `uid` from each role in `roles` except `keep`, in order. */
  function RevokeOthers(m: MapRecord, roles: seq<Role>, keep: Role, uid: Uid): (r: MapRecord)
    ensures SameExceptLists(r, m)
    decreases |roles|
  {
    if |roles| == 0 then m
    else
      var next := if roles[0] != keep then Revoked(m, roles[0], uid) else m;
      RevokeOthers(next, roles[1..], keep, uid)
  }

  /** `Map.ChangePermissionLevel`: gives `uid` the role (without adding a
      second copy) and revokes it from the other three map roles. A role
      outside the four changes nothing. Only a map owner may call it, and
      the owner checks repeated inside `RevokePermission` give the same
      answer for the same caller. */
  function ChangePermissionLevel(m: MapRecord, role: Role, uid: Uid, isOwner: bool): (r: Result<MapRecord>)
    ensures r.Ok? <==> isOwner
    ensures r.Err? ==> r.error == AuthorizationError
    ensures r.Ok? && !IsMapRole(role) ==> r.value == m
    ensures r.Ok? ==> SameExceptLists(r.value, m)
  {
    if !isOwner then Err(AuthorizationError)
    else if !IsMapRole(role) then Ok(m)
    else Ok(RevokeOthers(Granted(m, role, uid), MAP_ROLES, role, uid))
  }

  /** What revoking along `roles` does to one role's list: one copy of
      `uid` fewer for each time the role appears in `roles` (other than
      `keep`), and the list is untouched otherwise. */
  lemma {:induction false} RevokeOthersEffect(m: MapRecord, roles: seq<Role>, keep: Role, uid: Uid, target: Role)
    requires IsMapRole(target)
    requires forall i, j :: 0 <= i < j < |roles| ==> roles[i] != roles[j]
    ensures target == keep || target !in roles ==>
              RoleList(RevokeOthers(m, roles, keep, uid), target) == RoleList(m, target)
    ensures target != keep && target in roles ==>
              RoleList(RevokeOthers(m, roles, keep, uid), target) == RemoveFirst(RoleList(m, target), uid)
    decreases |roles|
  {
    if |roles| > 0 {
      var next := if roles[0] != keep then Revoked(m, roles[0], uid) else m;
      RevokeOthersEffect(next, roles[1..], keep, uid, target);
      if roles[0] == target && target != keep {
        assert target !in roles[1..] by {
          forall k | 0 <= k < |roles[1..]| ensures roles[1..][k] != target { assert roles[1..][k] == roles[k + 1]; }
        }
        assert RoleList(next, target) == RemoveFirst(RoleList(m, target), uid);
      } else if roles[0] != keep {
        assert target in roles ==> target in roles[1..];
        assert roles[0] != target;
        assert IsMapRole(roles[0]) ==> RoleList(next, target) == RoleList(m, target);
      }
    }
  }

  /** Every map role is in `MAP_ROLES`, once. */
  lemma MapRolesListed(role: Role)
    requires IsMapRole(role)
    ensures role in MAP_ROLES
    ensures forall i, j :: 0 <= i < j < |MAP_ROLES| ==> MAP_ROLES[i] != MAP_ROLES[j]
  {
  }

  /** With a map role, `ChangePermissionLevel` leaves `uid` in that role's
      list, appended only if it was absent, and takes one copy of `uid` out
      of each of the other three lists. */
  lemma ChangePermissionLevelEffect(m: MapRecord, role: Role, uid: Uid, other: Role)
    requires IsMapRole(role) && IsMapRole(other) && other != role
    ensures var r := ChangePermissionLevel(m, role, uid, true).value;
            RoleList(r, role) == (if uid in RoleList(m, role) then RoleList(m, role) else RoleList(m, role) + [uid])
            && RoleList(r, other) == RemoveFirst(RoleList(m, other), uid)
  {
    var g := Granted(m, role, uid);
    MapRolesListed(role);
    MapRolesListed(other);
    RevokeOthersEffect(g, MAP_ROLES, role, uid, role);
    RevokeOthersEffect(g, MAP_ROLES, role, uid, other);
  }

  /** No other user's membership changes in any list. */
  lemma ChangePermissionLevelSparesOthers(m: MapRecord, role: Role, uid: Uid, target: Role, v: Uid)
    requires IsMapRole(role) && IsMapRole(target) && v != uid
    ensures multiset(RoleList(ChangePermissionLevel(m, role, uid, true).value, target))[v]
            == multiset(RoleList(m, target))[v]
  {
    if target == role {
      ChangePermissionLevelEffect(m, role, uid, if role == MapViewer then MapOwner else MapViewer);
    } else {
      ChangePermissionLevelEffect(m, role, uid, target);
      RemoveFirstMultiset(RoleList(m, target), uid);
    }
  }

  /** No list repeats a user. */
  predicate ListsDistinct(m: MapRecord)
  {
    NoDups(m.owners) && NoDups(m.editors) && NoDups(m.reviewers) && NoDups(m.viewers)
  }

  /** On maps whose lists repeat no one, `ChangePermissionLevel` keeps them
      so and leaves `uid` in exactly the requested role's list. */
  lemma ChangePermissionLevelExclusive(m: MapRecord, role: Role, uid: Uid)
    requires ListsDistinct(m) && IsMapRole(role)
    ensures var r := ChangePermissionLevel(m, role, uid, true).value;
            ListsDistinct(r)
            && uid in RoleList(r, role)
            && forall other :: IsMapRole(other) && other != role ==> uid !in RoleList(r, other)
  {
    var r := ChangePermissionLevel(m, role, uid, true).value;
    forall other | IsMapRole(other) && other != role
      ensures uid !in RoleList(r, other) && NoDups(RoleList(r, other))
    {
      ChangePermissionLevelEffect(m, role, uid, other);
      RemoveFirstNoDups(RoleList(m, other), uid);
    }
    var o := if role == MapViewer then MapOwner else MapViewer;
    ChangePermissionLevelEffect(m, role, uid, o);
    if uid !in RoleList(m, role) {
      AppendAbsentKeepsNoDups(RoleList(m, role), uid);
    }
    assert NoDups(RoleList(r, MapViewer)) && NoDups(RoleList(r, MapReviewer))
           && NoDups(RoleList(r, MapEditor)) && NoDups(RoleList(r, MapOwner));
  }

  lemma AppendAbsentKeepsNoDups(s: seq<Uid>, x: Uid)
    requires NoDups(s) && x !in s
    ensures NoDups(s + [x])
  {
    var t := s + [x];
    forall i, j | 0 <= i < j < |t| ensures t[i] != t[j]
    {
      if j == |s| {
        assert t[i] == s[i];
      }
    }
  }

  /** Asking twice for the same role is the same as asking once. */
  lemma ChangePermissionLevelIdempotent(m: MapRecord, role: Role, uid: Uid)
    requires ListsDistinct(m) && IsMapRole(role)
    ensures var once := ChangePermissionLevel(m, role, uid, true).value;
            ChangePermissionLevel(once, role, uid, true).value == once
  {
    var once := ChangePermissionLevel(m, role, uid, true).value;
    var twice := ChangePermissionLevel(once, role, uid, true).value;
    ChangePermissionLevelExclusive(m, role, uid);
    forall other | IsMapRole(other)
      ensures RoleList(twice, other) == RoleList(once, other)
    {
      if other == role {
        var o := if role == MapViewer then MapOwner else MapViewer;
        ChangePermissionLevelEffect(once, role, uid, o);
      } else {
        ChangePermissionLevelEffect(once, role, uid, other);
      }
    }
    assert RoleList(twice, MapViewer) == RoleList(once, MapViewer);
    assert RoleList(twice, MapReviewer) == RoleList(once, MapReviewer);
    assert RoleList(twice, MapEditor) == RoleList(once, MapEditor);
    assert RoleList(twice, MapOwner) == RoleList(once, MapOwner);
  }

  /** The datastore's `MapModel` entities by key name (map ID). */
  type MapStore = map<string, MapRecord>

  /** The ID reserved for the built-in empty map. */
  const EMPTY_MAP_ID: string := "0"

  /** What `Map.Get` hands back: the built-in empty map or a stored map. */
  datatype MapHandle = TheEmptyMap | StoredMap(record: MapRecord)

  /** `Map.Get`: the empty map for ID "0"; otherwise the stored map unless it
      is missing or deleted, and an AuthorizationError when the user may not
      view it. `canView` is the MAP_VIEWER check for the current user. */
  function Get(store: MapStore, key: string, canView: MapRecord -> bool): (r: Result<Option<MapHandle>>)
    ensures key == EMPTY_MAP_ID ==> r == Ok(Some(TheEmptyMap))
    ensures key != EMPTY_MAP_ID ==>
              (r.Ok? && r.value.Some? <==> key in store && !IsDeleted(store[key]) && canView(store[key]))
    ensures key != EMPTY_MAP_ID && r.Ok? && r.value.Some? ==> r.value.value == StoredMap(store[key])
    ensures r.Err? <==> key != EMPTY_MAP_ID && key in store && !IsDeleted(store[key]) && !canView(store[key])
    ensures r.Err? ==> r.error == AuthorizationError
  {
    if key == EMPTY_MAP_ID then Ok(Some(TheEmptyMap))
    else if key in store && store[key].deleted == NEVER then
      if canView(store[key]) then Ok(Some(StoredMap(store[key]))) else Err(AuthorizationError)
    else Ok(None)
  }

  /** `Map.GetDeleted`: for administrators only; the stored map if it is
      deleted, nothing otherwise. */
  function GetDeleted(store: MapStore, key: string, isAdmin: bool): (r: Result<Option<MapRecord>>)
    ensures r.Err? <==> !isAdmin
    ensures r.Err? ==> r.error == AuthorizationError
    ensures r.Ok? ==> (r.value.Some? <==> key in store && IsDeleted(store[key]))
    ensures r.Ok? && r.value.Some? ==> r.value.value == store[key]
  {
    if !isAdmin then Err(AuthorizationError)
    else if key in store && store[key].deleted != NEVER then Ok(Some(store[key]))
    else Ok(None)
  }

  /** A stored map is returned by at most one of `Get` and `GetDeleted`, and
      an administrator who may view it gets it from exactly one. */
  lemma GetAndGetDeletedPartition(store: MapStore, key: string, canView: MapRecord -> bool)
    requires key != EMPTY_MAP_ID && key in store
    ensures !(Get(store, key, canView) == Ok(Some(StoredMap(store[key])))
              && GetDeleted(store, key, true) == Ok(Some(store[key])))
    ensures canView(store[key]) ==>
              (Get(store, key, canView) == Ok(Some(StoredMap(store[key])))
               <==> GetDeleted(store, key, true) == Ok(None))
  {
  }

  /** A map and the catalog after a change that may unpublish it. */
  datatype Change = Change(record: MapRecord, catalog: Catalog.CatalogStore)

  /** `Map.Delete`: for owners only; marks the map deleted now by `uid` and
      removes every catalog entry that points at it. */
  function Delete(m: MapRecord, isOwner: bool, uid: Uid, now: Instant, catalog: Catalog.CatalogStore): (r: Result<Change>)
    ensures r.Ok? <==> isOwner
    ensures r.Err? ==> r.error == AuthorizationError
    ensures r.Ok? ==> IsDeleted(r.value.record) && r.value.record.deleterUid == Some(uid)
                      && r.value.record == m.(deleted := now, deleterUid := Some(uid))
    ensures r.Ok? ==> forall k :: k in r.value.catalog ==> r.value.catalog[k].mapId != m.id
    ensures r.Ok? ==> forall k :: k in catalog && catalog[k].mapId != m.id ==>
                        k in r.value.catalog && r.value.catalog[k] == catalog[k]
  {
    if !isOwner then Err(AuthorizationError)
    else Ok(Change(m.(deleted := now, deleterUid := Some(uid)), Catalog.DeleteByMapId(catalog, m.id)))
  }

  /** `Map.Undelete`: for administrators only; clears the deletion mark. */
  function Undelete(m: MapRecord, isAdmin: bool): (r: Result<MapRecord>)
    ensures r.Ok? <==> isAdmin
    ensures r.Err? ==> r.error == AuthorizationError
    ensures r.Ok? ==> !IsDeleted(r.value) && r.value.deleterUid == None
                      && r.value.(deleted := m.deleted, deleterUid := m.deleterUid) == m
  {
    if !isAdmin then Err(AuthorizationError)
    else Ok(m.(deleted := NEVER, deleterUid := None))
  }

  /** Undeleting a map deleted from its never-deleted state restores it. */
  lemma UndeleteInvertsDelete(m: MapRecord, uid: Uid, now: Instant, catalog: Catalog.CatalogStore)
    requires !IsDeleted(m) && m.deleterUid == None
    ensures Undelete(Delete(m, true, uid, now, catalog).value.record, true) == Ok(m)
  {
  }

  /** Once deleted and stored, the map is gone from `Get` and found by
      `GetDeleted`; once undeleted and stored, the reverse. */
  lemma DeletionHidesFromGet(store: MapStore, m: MapRecord, uid: Uid, now: Instant,
                             catalog: Catalog.CatalogStore, canView: MapRecord -> bool)
    requires m.id != EMPTY_MAP_ID
    ensures var d := Delete(m, true, uid, now, catalog).value.record;
            var s := store[m.id := d];
            Get(s, m.id, canView) == Ok(None) && GetDeleted(s, m.id, true) == Ok(Some(d))
    ensures var u := Undelete(m, true).value;
            var s := store[m.id := u];
            GetDeleted(s, m.id, true) == Ok(None)
            && (canView(u) ==> Get(s, m.id, canView) == Ok(Some(StoredMap(u))))
  {
  }

  /** `Map.SetBlocked`: for administrators only. Blocking marks the map
      blocked now by `uid` and unpublishes it; unblocking clears the mark and
      leaves the catalog as it is. */
  function SetBlocked(m: MapRecord, block: bool, isAdmin: bool, uid: Uid, now: Instant,
                      catalog: Catalog.CatalogStore): (r: Result<Change>)
    ensures r.Ok? <==> isAdmin
    ensures r.Err? ==> r.error == AuthorizationError
    ensures r.Ok? ==> (IsBlocked(r.value.record) <==> block)
    ensures r.Ok? && block ==> r.value.record.blockerUid == Some(uid)
                               && forall k :: k in r.value.catalog ==> r.value.catalog[k].mapId != m.id
    ensures r.Ok? && !block ==> r.value.record.blockerUid == None && r.value.catalog == catalog
    ensures r.Ok? ==> r.value.record.(blocked := m.blocked, blockerUid := m.blockerUid) == m
  {
    if !isAdmin then Err(AuthorizationError)
    else if block then
      Ok(Change(m.(blocked := now, blockerUid := Some(uid)), Catalog.DeleteByMapId(catalog, m.id)))
    else
      Ok(Change(m.(blocked := NEVER, blockerUid := None), catalog))
  }

  /** Blocking and unblocking a never-blocked map restores it. */
  lemma UnblockInvertsBlock(m: MapRecord, uid: Uid, now: Instant, catalog: Catalog.CatalogStore)
    requires !IsBlocked(m) && m.blockerUid == None
    ensures var b := SetBlocked(m, true, true, uid, now, catalog).value;
            SetBlocked(b.record, false, true, uid, now, b.catalog).value.record == m
  {
  }

  /** The domain a map is created in, as `domains.Domain.Get` returns it. */
  datatype DomainInfo = DomainInfo(name: string, initialDomainRole: Option<Role>)

  /** A list argument of `Map.Create`, with None standing for an omitted
      one. */
  function OrDefault(given: Option<seq<Uid>>, default: seq<Uid>): seq<Uid>
  {
    if given.Some? then given.value else default
  }

  /** The list for `role`: the given one, united with the domain's subjects
      when `role` is the domain's initial role. */
  function InitialList(given: seq<Uid>, role: Role, domainRole: Option<Role>, subjects: seq<Uid>): (r: seq<Uid>)
    ensures domainRole == Some(role) ==> (forall x :: x in r <==> x in given || x in subjects) && NoDups(r)
    ensures domainRole != Some(role) ==> r == given
  {
    if domainRole == Some(role) then Union(given, subjects) else given
  }

  /** `Map.Create`, up to the stored `MapModel`: an unknown domain is a
      ValueError; a user who may not create maps in the domain gets an
      AuthorizationError. Omitted owners default to the current user, other
      omitted lists to empty, and the domain's initial role, if any, adds
      the domain's subjects (`subjects`) to exactly that role's list. */
  function Create(domain: Option<DomainInfo>, canCreate: bool, currentUid: Uid, subjects: seq<Uid>,
                  owners: Option<seq<Uid>>, editors: Option<seq<Uid>>, reviewers: Option<seq<Uid>>,
                  viewers: Option<seq<Uid>>, worldReadable: bool, mapId: string, now: Instant): (r: Result<MapRecord>)
    ensures domain.None? ==> r == Err(ValueError)
    ensures domain.Some? ==> (r.Ok? <==> canCreate)
    ensures domain.Some? && !canCreate ==> r == Err(AuthorizationError)
    ensures r.Ok? ==> !IsDeleted(r.value) && !IsBlocked(r.value)
                      && r.value.id == mapId && r.value.created == now && r.value.creatorUid == currentUid
                      && r.value.domain == domain.value.name
                      && r.value.domainRole == domain.value.initialDomainRole
                      && r.value.worldReadable == worldReadable
  {
    if domain.None? then Err(ValueError)
    else if !canCreate then Err(AuthorizationError)
    else
      var d := domain.value;
      Ok(MapRecord(
        mapId, now, currentUid, NEVER, None, NEVER, None,
        InitialList(OrDefault(owners, [currentUid]), MapOwner, d.initialDomainRole, subjects),
        InitialList(OrDefault(editors, []), MapEditor, d.initialDomainRole, subjects),
        InitialList(OrDefault(reviewers, []), MapReviewer, d.initialDomainRole, subjects),
        InitialList(OrDefault(viewers, []), MapViewer, d.initialDomainRole, subjects),
        d.name, d.initialDomainRole, worldReadable))
  }

  /** The lists of a created map: for each map role, the given list (the
      current user alone for omitted owners, empty for the others), and for
      the domain's initial role its union with the domain's subjects. */
  lemma CreateRoleLists(domain: DomainInfo, currentUid: Uid, subjects: seq<Uid>,
                        owners: Option<seq<Uid>>, editors: Option<seq<Uid>>, reviewers: Option<seq<Uid>>,
                        viewers: Option<seq<Uid>>, worldReadable: bool, mapId: string, now: Instant, role: Role)
    requires IsMapRole(role)
    ensures var r := Create(Some(domain), true, currentUid, subjects, owners, editors, reviewers, viewers,
                            worldReadable, mapId, now).value;
            var given := match role
              case MapOwner => OrDefault(owners, [currentUid])
              case MapEditor => OrDefault(editors, [])
              case MapReviewer => OrDefault(reviewers, [])
              case MapViewer => OrDefault(viewers, []);
            (domain.initialDomainRole != Some(role) ==> RoleList(r, role) == given)
            && (domain.initialDomainRole == Some(role) ==>
                  NoDups(RoleList(r, role)) && forall x :: x in RoleList(r, role) <==> x in given || x in subjects)
  {
  }

  /** A domain whose subjects are already owners adds none: the owner list
      of a new map then holds exactly the given owners, when those have no
      repeats (in some order, as `list(set(...))` fixes none). */
  lemma CreateWithKnownSubjects(domain: DomainInfo, currentUid: Uid, subjects: seq<Uid>, owners: seq<Uid>,
                                worldReadable: bool, mapId: string, now: Instant)
    requires domain.initialDomainRole == Some(MapOwner)
    requires NoDups(owners) && forall x :: x in subjects ==> x in owners
    ensures multiset(Create(Some(domain), true, currentUid, subjects, Some(owners), None, None, None,
                            worldReadable, mapId, now).value.owners) == multiset(owners)
  {
    UnionWithOwnMembers(owners, subjects);
  }
}
