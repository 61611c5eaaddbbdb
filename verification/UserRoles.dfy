/** The cache of user roles and the user manager it follows (include/sessions.hpp `UserRoleMap`). */
module UserRoles {
  import opened Options

  const USER_ATTR_IFACE: string := "xyz.openbmc_project.User.Attributes"
  const USER_PRIVILEGE: string := "UserPrivilege"

  /** A property value: a string, or a boolean. */
  datatype Property = Text(s: string) | Flag(b: bool)

  type Properties = map<string, Property>
  type Interfaces = map<string, Properties>

  /** What follows the last '/' of an object path; None when there is no '/'. */
  function NameOf(path: string): Option<string> {
    if path == "" then None
    else if path[|path| - 1] == '/' then Some("")
    else match NameOf(path[..|path| - 1])
      case None => None
      case Some(name) => Some(name + [path[|path| - 1]])
  }

  lemma {:induction false} NameIsLastSegment(path: string)
    ensures NameOf(path).None? <==> '/' !in path
    ensures NameOf(path).Some? ==>
              var name := NameOf(path).value;
              '/' !in name && |name| < |path| && path == path[..|path| - |name| - 1] + "/" + name
  {
    if path != "" {
      var front, c := path[..|path| - 1], path[|path| - 1];
      assert path == front + [c];
      if c != '/' { NameIsLastSegment(front); }
    }
  }

  /** `extractUserRole`: the empty string when there is no such property, or it is not a string. */
  function ExtractUserRole(interfaces: Interfaces): string {
    if USER_ATTR_IFACE !in interfaces then ""
    else if USER_PRIVILEGE !in interfaces[USER_ATTR_IFACE] then ""
    else match interfaces[USER_ATTR_IFACE][USER_PRIVILEGE]
      case Text(s) => s
      case Flag(_) => ""
  }

  type Roles = map<string, string>

  /** `emplace`: an existing entry stays. */
  function Emplace(roles: Roles, name: string, role: string): Roles {
    if name in roles then roles else roles[name := role]
  }

  function OnAdded(roles: Roles, path: string, interfaces: Interfaces): Roles {
    match NameOf(path)
    case None => roles
    case Some(name) => Emplace(roles, name, ExtractUserRole(interfaces))
  }

  function OnRemoved(roles: Roles, path: string): Roles {
    match NameOf(path)
    case None => roles
    case Some(name) => if name == "" then roles else roles - {name}
  }

  function OnChanged(roles: Roles, path: string, changed: Properties): Roles {
    match NameOf(path)
    case None => roles
    case Some(name) =>
      if name == "" || USER_PRIVILEGE !in changed || !changed[USER_PRIVILEGE].Text? || name !in roles then roles
      else roles[name := changed[USER_PRIVILEGE].s]
  }

  /** The reply to `GetManagedObjects`, one object after the other. */
  function OnReply(roles: Roles, objects: seq<(string, Interfaces)>): Roles
    decreases |objects|
  {
    if objects == [] then roles else OnReply(OnAdded(roles, objects[0].0, objects[0].1), objects[1..])
  }

  /** The cache as an object whose signal handlers update its map. */
  class UserRoleMap {
    var roleMap: Roles

    constructor ()
      ensures roleMap == map[]
    {
      roleMap := map[];
    }

    method GetUserRole(name: string) returns (role: string)
      ensures role == if name in roleMap then roleMap[name] else ""
    {
      if name !in roleMap {
        return "";
      }
      role := roleMap[name];
    }

    method UserAdded(path: string, interfaces: Interfaces)
      modifies this
      ensures roleMap == OnAdded(old(roleMap), path, interfaces)
    {
      var name := NameOf(path);
      if name.None? {
        return;
      }
      var role := ExtractUserRole(interfaces);
      if name.value !in roleMap {
        roleMap := roleMap[name.value := role];
      }
    }

    method UserRemoved(path: string)
      modifies this
      ensures roleMap == OnRemoved(old(roleMap), path)
    {
      var name := NameOf(path);
      if name.None? || name.value == "" {
        return;
      }
      roleMap := roleMap - {name.value};
    }

    method UserPropertiesChanged(path: string, changed: Properties)
      modifies this
      ensures roleMap == OnChanged(old(roleMap), path, changed)
    {
      var name := NameOf(path);
      if name.None? || name.value == "" {
        return;
      }
      if USER_PRIVILEGE !in changed || !changed[USER_PRIVILEGE].Text? {
        return;
      }
      if name.value !in roleMap {
        return;
      }
      roleMap := roleMap[name.value := changed[USER_PRIVILEGE].s];
    }

    method ManagedObjects(objects: seq<(string, Interfaces)>)
      modifies this
      ensures roleMap == OnReply(old(roleMap), objects)
    {
      for k := 0 to |objects|
        invariant OnReply(roleMap, objects[k..]) == OnReply(old(roleMap), objects)
      {
        assert objects[k..][0] == objects[k] && objects[k..][1..] == objects[k + 1..];
        UserAdded(objects[k].0, objects[k].1);
      }
    }
  }

  /** The user manager's objects, by path. */
  type Manager = map<string, Interfaces>

  /** No two live objects share their last path segment, and no segment is empty. */
  ghost predicate Named(m: Manager) {
    && (forall p :: p in m ==> NameOf(p) != Some(""))
    && (forall p, q :: p in m && q in m && NameOf(p).Some? && NameOf(p) == NameOf(q) ==> p == q)
  }

  /** What the bus delivers, in the order the manager produced it. */
  datatype Event =
    | Added(path: string, interfaces: Interfaces)
    | Removed(path: string)
    | Changed(path: string, changed: Properties)
    | Reply(objects: seq<(string, Interfaces)>)
    | ReplyFailed

  /** The list holds exactly the manager's objects, each once. */
  ghost predicate Lists(objects: seq<(string, Interfaces)>, m: Manager) {
    && (forall k :: 0 <= k < |objects| ==> objects[k].0 in m && m[objects[k].0] == objects[k].1)
    && (forall p :: p in m ==> exists k :: 0 <= k < |objects| && objects[k].0 == p)
    && (forall j, k :: 0 <= j < k < |objects| ==> objects[j].0 != objects[k].0)
  }

  /** The event is one the manager can produce in this state. */
  ghost predicate Enabled(m: Manager, e: Event) {
    match e
    case Added(p, ifs) => p !in m && Named(m[p := ifs])
    case Removed(p) => p in m
    case Changed(p, changed) =>
      p in m && USER_ATTR_IFACE in m[p] && (USER_PRIVILEGE in changed ==> changed[USER_PRIVILEGE].Text?)
    case Reply(objects) => Lists(objects, m)
    case ReplyFailed => true
  }

  ghost function ManagerStep(m: Manager, e: Event): Manager
    requires Enabled(m, e)
  {
    match e
    case Added(p, ifs) => m[p := ifs]
    case Removed(p) => m - {p}
    case Changed(p, changed) => m[p := m[p][USER_ATTR_IFACE := m[p][USER_ATTR_IFACE] + changed]]
    case Reply(_) => m
    case ReplyFailed => m
  }

  function CacheStep(roles: Roles, e: Event): Roles {
    match e
    case Added(p, ifs) => OnAdded(roles, p, ifs)
    case Removed(p) => OnRemoved(roles, p)
    case Changed(p, changed) => OnChanged(roles, p, changed)
    case Reply(objects) => OnReply(roles, objects)
    case ReplyFailed => roles
  }

  /** Every cached entry is the role of a live object. */
  ghost predicate Matches(roles: Roles, m: Manager) {
    forall name :: name in roles ==> exists p :: p in m && NameOf(p) == Some(name) && roles[name] == ExtractUserRole(m[p])
  }

  /** Every live object is cached. */
  ghost predicate Covers(roles: Roles, m: Manager) {
    forall p :: p in m && NameOf(p).Some? ==> NameOf(p).value in roles
  }

  /** The map of names to roles that the manager stands for. */
  ghost predicate IsRoleTable(roles: Roles, m: Manager) {
    forall name, role :: Holds(m, name, role) <==> name in roles && roles[name] == role
  }

  /** The role an object declares: its privilege property when that is a text, and otherwise none. */
  predicate Declares(interfaces: Interfaces, role: string) {
    var attributes := "xyz.openbmc_project.User.Attributes";
    if && attributes in interfaces && "UserPrivilege" in interfaces[attributes]
       && interfaces[attributes]["UserPrivilege"].Text?
    then role == interfaces[attributes]["UserPrivilege"].s
    else role == ""
  }

  lemma RoleIsDeclared(interfaces: Interfaces, role: string)
    ensures ExtractUserRole(interfaces) == role <==> Declares(interfaces, role)
  {
  }

  ghost predicate Holds(m: Manager, name: string, role: string) {
    exists p :: p in m && NameOf(p) == Some(name) && Declares(m[p], role)
  }

  lemma AddedStep(roles: Roles, m: Manager, p: string, ifs: Interfaces)
    requires Named(m) && Matches(roles, m) && Enabled(m, Added(p, ifs))
    ensures Matches(OnAdded(roles, p, ifs), m[p := ifs])
    ensures Covers(roles, m) ==> Covers(OnAdded(roles, p, ifs), m[p := ifs])
  {
    hide NameOf, ExtractUserRole, USER_ATTR_IFACE, USER_PRIVILEGE;
    var m' := m[p := ifs];
    var roles' := OnAdded(roles, p, ifs);
    forall name | name in roles'
      ensures exists q :: q in m' && NameOf(q) == Some(name) && roles'[name] == ExtractUserRole(m'[q])
    {
      if name in roles {
        var q :| q in m && NameOf(q) == Some(name) && roles[name] == ExtractUserRole(m[q]);
        assert q in m' && m'[q] == m[q];
      } else {
        assert p in m' && NameOf(p) == Some(name);
      }
    }
  }

  lemma RemovedStep(roles: Roles, m: Manager, p: string)
    requires Named(m) && Matches(roles, m) && p in m
    ensures Matches(OnRemoved(roles, p), m - {p})
    ensures Covers(roles, m) ==> Covers(OnRemoved(roles, p), m - {p})
  {
    hide NameOf, ExtractUserRole, USER_ATTR_IFACE, USER_PRIVILEGE;
    var m' := m - {p};
    var roles' := OnRemoved(roles, p);
    forall name | name in roles'
      ensures exists q :: q in m' && NameOf(q) == Some(name) && roles'[name] == ExtractUserRole(m'[q])
    {
      var q :| q in m && NameOf(q) == Some(name) && roles[name] == ExtractUserRole(m[q]);
      assert q in m';
    }
  }

  lemma ChangedStep(roles: Roles, m: Manager, p: string, changed: Properties)
    requires Named(m) && Matches(roles, m) && Enabled(m, Changed(p, changed))
    ensures Matches(OnChanged(roles, p, changed), ManagerStep(m, Changed(p, changed)))
    ensures Covers(roles, m) ==> Covers(OnChanged(roles, p, changed), ManagerStep(m, Changed(p, changed)))
  {
    hide NameOf, USER_ATTR_IFACE, USER_PRIVILEGE;
    var m' := ManagerStep(m, Changed(p, changed));
    var roles' := OnChanged(roles, p, changed);
    forall name | name in roles'
      ensures exists q :: q in m' && NameOf(q) == Some(name) && roles'[name] == ExtractUserRole(m'[q])
    {
      var q :| q in m && NameOf(q) == Some(name) && roles[name] == ExtractUserRole(m[q]);
      assert q in m';
    }
  }

  /** Reading some of the manager's objects into a matching cache keeps it matching, keeps its names, and adds theirs. */
  lemma {:induction false} ReplyStep(roles: Roles, m: Manager, objects: seq<(string, Interfaces)>)
    requires Named(m) && Matches(roles, m)
    requires forall k :: 0 <= k < |objects| ==> objects[k].0 in m && m[objects[k].0] == objects[k].1
    ensures Matches(OnReply(roles, objects), m)
    ensures roles.Keys <= OnReply(roles, objects).Keys
    ensures forall k :: 0 <= k < |objects| && NameOf(objects[k].0).Some? ==>
              NameOf(objects[k].0).value in OnReply(roles, objects)
    decreases |objects|
  {
    if objects != [] {
      var (p, ifs) := objects[0];
      var roles' := OnAdded(roles, p, ifs);
      forall name | name in roles'
        ensures exists q :: q in m && NameOf(q) == Some(name) && roles'[name] == ExtractUserRole(m[q])
      {
        if name !in roles { assert p in m && NameOf(p) == Some(name); }
      }
      ReplyStep(roles', m, objects[1..]);
      assert forall k :: 0 < k < |objects| ==> objects[k] == objects[1..][k - 1];
    }
  }

  /** A whole run: the manager starts anywhere, the cache starts with `roles`. */
  ghost predicate Run(m: Manager, events: seq<Event>)
    decreases |events|
  {
    events == [] || (Enabled(m, events[0]) && Run(ManagerStep(m, events[0]), events[1..]))
  }

  ghost function ManagerAfter(m: Manager, events: seq<Event>): Manager
    requires Run(m, events)
    decreases |events|
  {
    if events == [] then m else ManagerAfter(ManagerStep(m, events[0]), events[1..])
  }

  function CacheAfter(roles: Roles, events: seq<Event>): Roles
    decreases |events|
  {
    if events == [] then roles else CacheAfter(CacheStep(roles, events[0]), events[1..])
  }

  lemma OneStep(roles: Roles, m: Manager, e: Event)
    requires Named(m) && Matches(roles, m) && Enabled(m, e)
    ensures Named(ManagerStep(m, e)) && Matches(CacheStep(roles, e), ManagerStep(m, e))
    ensures Covers(roles, m) || e.Reply? ==> Covers(CacheStep(roles, e), ManagerStep(m, e))
  {
    match e
    case Added(p, ifs) => AddedStep(roles, m, p, ifs);
    case Removed(p) => RemovedStep(roles, m, p);
    case Changed(p, changed) => ChangedStep(roles, m, p, changed);
    case Reply(objects) => ReplyStep(roles, m, objects);
    case ReplyFailed =>
  }

  lemma {:induction false} RunAgrees(roles: Roles, m: Manager, events: seq<Event>)
    requires Named(m) && Matches(roles, m) && Run(m, events)
    ensures Named(ManagerAfter(m, events)) && Matches(CacheAfter(roles, events), ManagerAfter(m, events))
    ensures Covers(roles, m) || (exists k :: 0 <= k < |events| && events[k].Reply?) ==>
              Covers(CacheAfter(roles, events), ManagerAfter(m, events))
    decreases |events|
  {
    if events != [] {
      OneStep(roles, m, events[0]);
      RunAgrees(CacheStep(roles, events[0]), ManagerStep(m, events[0]), events[1..]);
      assert forall k :: 0 < k < |events| ==> events[k] == events[1..][k - 1];
    }
  }

  /** Whatever the manager held when the cache started empty, and whatever signals follow: at every point of the stream
      each cached entry is the manager's, and from the first successful reply on the cache is the manager's whole table. */
  lemma CacheFollowsManager(m: Manager, events: seq<Event>)
    requires Named(m) && Run(m, events)
    ensures Matches(CacheAfter(map[], events), ManagerAfter(m, events))
    ensures (exists k :: 0 <= k < |events| && events[k].Reply?) ==>
              IsRoleTable(CacheAfter(map[], events), ManagerAfter(m, events))
  {
    RunAgrees(map[], m, events);
    if exists k :: 0 <= k < |events| && events[k].Reply? {
      TableFromBoth(CacheAfter(map[], events), ManagerAfter(m, events));
    }
  }

  lemma TableFromBoth(roles: Roles, m: Manager)
    requires Named(m) && Matches(roles, m) && Covers(roles, m)
    ensures IsRoleTable(roles, m)
  {
    forall name, role
      ensures Holds(m, name, role) <==> name in roles && roles[name] == role
    {
      if p :| p in m && NameOf(p) == Some(name) && ExtractUserRole(m[p]) == role {
        var q :| q in m && NameOf(q) == Some(name) && roles[name] == ExtractUserRole(m[q]);
      }
    }
  }

  /** A removal leaves the cache complete exactly when no other live object has the same last segment. */
  lemma RemovalExact(roles: Roles, m: Manager, p: string)
    requires Covers(roles, m) && p in m && NameOf(p).Some? && NameOf(p) != Some("")
    ensures Covers(OnRemoved(roles, p), m - {p}) <==> forall q :: q in m && NameOf(q) == NameOf(p) ==> q == p
  {
    hide NameOf;
    var name := NameOf(p).value;
    assert OnRemoved(roles, p) == roles - {name};
    if q :| q in m && NameOf(q) == NameOf(p) && q != p {
      assert q in m - {p} && NameOf(q).value !in roles - {name};
    }
  }

  /** Without unique last segments it fails: removing one of two objects of the same name loses the other's entry. */
  lemma SharedNameLosesEntry()
    ensures var ifs: Interfaces := map[];
            var m: Manager := map["/a/x" := ifs, "/b/x" := ifs];
            Covers(map["x" := ""], m) && Matches(map["x" := ""], m) && Enabled(m, Removed("/a/x")) &&
            !Covers(CacheStep(map["x" := ""], Removed("/a/x")), ManagerStep(m, Removed("/a/x")))
  {
    NameOfX("/a");
    NameOfX("/b");
    assert "/a" + "/x" == "/a/x" && "/b" + "/x" == "/b/x";
  }

  lemma NameOfX(dir: string)
    ensures NameOf(dir + "/x") == Some("x")
  {
    var p := dir + "/x";
    assert p[..|p| - 1] == dir + "/" && p[|p| - 1] == 'x';
    assert NameOf(dir + "/") == Some("");
    assert "" + ['x'] == "x";
  }
}
