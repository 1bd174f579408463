/**
  The resolution code (server/group.go, Resolve and resolveUser): indexes of groups and services are
  filled in loops, references are checked, and each user is expanded. It succeeds exactly for the
  configurations `Groups.Resolvable` describes, with the result `Groups.Resolve` describes.
*/
module Resolver {
  import opened Base
  import opened Regex
  import opened Groups

  // ---------------------------------------------------------------- indexes

  function CompiledGroup(g: Group): Group {
    g.(commands := CompiledAll(g.commands))
  }

  function GroupIndex(gs: seq<Group>): map<Bytes, Group> {
    if gs == [] then map[] else GroupIndex(gs[..|gs| - 1])[gs[|gs| - 1].name := CompiledGroup(gs[|gs| - 1])]
  }

  function ServiceIndex(ss: seq<Service>): map<Bytes, Service> {
    if ss == [] then map[] else ServiceIndex(ss[..|ss| - 1])[ss[|ss| - 1].name := ss[|ss| - 1]]
  }

  lemma {:induction false} GroupIndexIs(gs: seq<Group>, name: Bytes)
    ensures name in GroupIndex(gs) <==> exists i | 0 <= i < |gs| :: gs[i].name == name
    ensures name in GroupIndex(gs) ==> GroupIndex(gs)[name] == CompiledGroup(GroupNamed(gs, name))
  {
    hide CompiledGroup;
    if gs != [] {
      var front, n := gs[..|gs| - 1], |gs| - 1;
      GroupIndexIs(front, name);
      if i :| 0 <= i < |front| && front[i].name == name {
        assert gs[i].name == name;
      }
      if i :| 0 <= i < |gs| && gs[i].name == name {
        assert i == n || front[i].name == name;
      }
    }
  }

  lemma {:induction false} ServiceIndexIs(ss: seq<Service>, name: Bytes)
    ensures name in ServiceIndex(ss) <==> exists i | 0 <= i < |ss| :: ss[i].name == name
    ensures name in ServiceIndex(ss) ==> ServiceIndex(ss)[name] == ServiceNamed(ss, name)
    ensures name !in ServiceIndex(ss) ==> ServiceNamed(ss, name) == Service([], [], [])
  {
    if ss != [] {
      var front, n := ss[..|ss| - 1], |ss| - 1;
      ServiceIndexIs(front, name);
      if i :| 0 <= i < |front| && front[i].name == name {
        assert ss[i].name == name;
      }
      if i :| 0 <= i < |ss| && ss[i].name == name {
        assert i == n || front[i].name == name;
      }
    }
  }

  method IndexGroups(e: Engine, c: Config) returns (r: Option<map<Bytes, Group>>)
    ensures r == if GroupsWellFormed(e, c) then Some(GroupIndex(c.groups)) else None
  {
    hide AllCompile, CompiledAll, GroupNamed;
    var index: map<Bytes, Group> := map[];
    for i := 0 to |c.groups|
      invariant index == GroupIndex(c.groups[..i])
      invariant forall j | 0 <= j < i :: c.groups[j].name != [] && AllCompile(e, c.groups[j].commands)
      invariant forall j, k | 0 <= j < k < i :: c.groups[j].name != c.groups[k].name
    {
      var g := c.groups[i];
      if g.name == [] {
        return None;
      }
      GroupIndexIs(c.groups[..i], g.name);
      if g.name in index {
        ghost var j :| 0 <= j < |c.groups[..i]| && c.groups[..i][j].name == g.name;
        assert c.groups[j].name == c.groups[i].name;
        return None;
      }
      assert forall j | 0 <= j < i :: c.groups[..i][j].name == c.groups[j].name;
      var compiled := CompileRules(e, g.commands);
      if compiled.None? {
        return None;
      }
      index := index[g.name := g.(commands := compiled.value)];
      assert c.groups[..i + 1][..i] == c.groups[..i];
    }
    assert c.groups[..|c.groups|] == c.groups;
    return Some(index);
  }

  method IndexServices(c: Config) returns (r: Option<map<Bytes, Service>>)
    ensures r == if ServicesWellFormed(c) then Some(ServiceIndex(c.services)) else None
  {
    hide ServiceNamed;
    var index: map<Bytes, Service> := map[];
    for i := 0 to |c.services|
      invariant index == ServiceIndex(c.services[..i])
      invariant forall j | 0 <= j < i :: c.services[j].name != []
      invariant forall j, k | 0 <= j < k < i :: c.services[j].name != c.services[k].name
    {
      var s := c.services[i];
      if s.name == [] {
        return None;
      }
      ServiceIndexIs(c.services[..i], s.name);
      if s.name in index {
        ghost var j :| 0 <= j < |c.services[..i]| && c.services[..i][j].name == s.name;
        assert c.services[j].name == c.services[i].name;
        return None;
      }
      assert forall j | 0 <= j < i :: c.services[..i][j].name == c.services[j].name;
      index := index[s.name := s];
      assert c.services[..i + 1][..i] == c.services[..i];
    }
    assert c.services[..|c.services|] == c.services;
    return Some(index);
  }

  // ---------------------------------------------------------------- references

  method CheckServices(c: Config, services: map<Bytes, Service>, refs: seq<Bytes>) returns (ok: bool)
    requires services == ServiceIndex(c.services)
    ensures ok <==> ServicesExist(c, refs)
  {
    for i := 0 to |refs|
      invariant forall j | 0 <= j < i :: HasService(c, refs[j])
    {
      ServiceIndexIs(c.services, refs[i]);
      if refs[i] !in services {
        assert !HasService(c, refs[i]);
        return false;
      }
    }
    return true;
  }

  method CheckGroupServices(c: Config, services: map<Bytes, Service>) returns (ok: bool)
    requires services == ServiceIndex(c.services)
    ensures ok <==> forall i | 0 <= i < |c.groups| :: ServicesExist(c, c.groups[i].services)
  {
    hide ServicesExist;
    for i := 0 to |c.groups|
      invariant forall j | 0 <= j < i :: ServicesExist(c, c.groups[j].services)
    {
      var fine := CheckServices(c, services, c.groups[i].services);
      if !fine {
        return false;
      }
    }
    return true;
  }

  method LookUpServices(c: Config, services: map<Bytes, Service>, refs: seq<Bytes>) returns (out: seq<Service>)
    requires services == ServiceIndex(c.services)
    ensures out == ServicesNamed(c, refs)
  {
    out := [];
    for i := 0 to |refs|
      invariant |out| == i
      invariant forall j | 0 <= j < i :: out[j] == ServiceNamed(c.services, refs[j])
    {
      ServiceIndexIs(c.services, refs[i]);
      // A missing key yields the zero value.
      var s := if refs[i] in services then services[refs[i]] else Service([], [], []);
      out := out + [s];
    }
  }

  // ---------------------------------------------------------------- users

  lemma GroupRefStep(c: Config, own: Bytes, refs: seq<Bytes>, i: nat)
    requires i < |refs|
    ensures var g, front, next := GroupNamed(c.groups, refs[i]), refs[..i], refs[..i + 1];
            && GroupCommands(c, next) == GroupCommands(c, front) + CompiledAll(g.commands)
            && GroupServices(c, next) == GroupServices(c, front) + ServicesNamed(c, g.services)
            && InheritedAuthType(c, own, next)
               == (var sofar := InheritedAuthType(c, own, front); if sofar != [] then sofar else g.authType)
  {
    hide GroupNamed, CompiledAll, ServicesNamed;
    assert refs[..i + 1][..i] == refs[..i];
  }

  /** Merges the groups a user lists into what the user brings along. */
  method MergeGroups(c: Config, groups: map<Bytes, Group>, services: map<Bytes, Service>, u: User)
    returns (r: Option<(seq<CommandRule>, seq<Service>, Bytes)>)
    requires groups == GroupIndex(c.groups) && services == ServiceIndex(c.services)
    ensures r == if GroupsExist(c, u.groups)
                 then Some((GroupCommands(c, u.groups), GroupServices(c, u.groups), InheritedAuthType(c, u.authType, u.groups)))
                 else None
  {
    hide GroupCommands, GroupServices, InheritedAuthType, GroupIndex, ServiceIndex, CompiledAll, ServicesNamed, GroupNamed;
    var commands: seq<CommandRule>, svcs: seq<Service>, authType := [], [], u.authType;
    NoGroups(c, u.authType);
    assert u.groups[..0] == [];
    for i := 0 to |u.groups|
      invariant forall j | 0 <= j < i :: HasGroup(c, u.groups[j])
      invariant commands == GroupCommands(c, u.groups[..i])
      invariant svcs == GroupServices(c, u.groups[..i])
      invariant authType == InheritedAuthType(c, u.authType, u.groups[..i])
    {
      GroupIndexIs(c.groups, u.groups[i]);
      if u.groups[i] !in groups {
        assert !HasGroup(c, u.groups[i]);
        return None;
      }
      var g := groups[u.groups[i]];
      GroupRefStep(c, u.authType, u.groups, i);
      commands := commands + g.commands;
      var more := LookUpServices(c, services, g.services);
      svcs := svcs + more;
      if authType == [] && g.authType != [] {
        authType := g.authType;
      }
    }
    assert u.groups[..|u.groups|] == u.groups;
    return Some((commands, svcs, authType));
  }

  lemma NoGroups(c: Config, own: Bytes)
    ensures GroupCommands(c, []) == [] && GroupServices(c, []) == [] && InheritedAuthType(c, own, []) == own
  {
  }

  method ResolveUser(e: Engine, c: Config, groups: map<Bytes, Group>, services: map<Bytes, Service>, u: User)
    returns (r: Option<ResolvedUser>)
    requires groups == GroupIndex(c.groups) && services == ServiceIndex(c.services)
    ensures r == if UserWellFormed(e, c, u) then Some(Expanded(c, u)) else None
  {
    hide AllCompile, ServicesExist, GroupsExist, CompiledAll, GroupIndex, ServiceIndex;
    var own := CompileRules(e, u.commands);
    if own.None? {
      return None;
    }
    var ok := CheckServices(c, services, u.services);
    if !ok {
      return None;
    }
    var svcs := LookUpServices(c, services, u.services);
    var merged := MergeGroups(c, groups, services, u);
    if merged.None? {
      return None;
    }
    var (commands, groupSvcs, authType) := merged.value;
    return Some(ResolvedUser(u.(authType := authType, commands := own.value), own.value + commands, svcs + groupSvcs));
  }

  method ResolveConfig(e: Engine, c: Config) returns (r: Option<map<Bytes, ResolvedUser>>)
    ensures r == Resolve(e, c)
  {
    hide GroupsWellFormed, ServicesWellFormed, ServicesExist, UserWellFormed, GroupIndex, ServiceIndex, Expanded;
    var groups := IndexGroups(e, c);
    if groups.None? {
      return None;
    }
    var services := IndexServices(c);
    if services.None? {
      return None;
    }
    var ok := CheckGroupServices(c, services.value);
    if !ok {
      return None;
    }
    var resolved: map<Bytes, ResolvedUser> := map[];
    for i := 0 to |c.users|
      invariant forall j | 0 <= j < i :: UserWellFormed(e, c, c.users[j])
      invariant resolved == ResolvedUsers(c, c.users[..i])
    {
      var ru := ResolveUser(e, c, groups.value, services.value, c.users[i]);
      if ru.None? {
        return None;
      }
      resolved := resolved[c.users[i].username := ru.value];
      assert c.users[..i + 1][..i] == c.users[..i];
    }
    assert c.users[..|c.users|] == c.users;
    return Some(resolved);
  }
}
