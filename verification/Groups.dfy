/**
  Command rules, groups and services (server/group.go): how a request is matched against rules, and how
  users are resolved to rule lists.
*/
module Groups {
  import opened Base
  import opened Arguments
  import opened Regex
  import opened Server

  const AUTHOR_PASS_ADD: byte := 0x01
  const AUTHOR_PASS_REPL: byte := 0x02

  const DENY: Bytes := Ascii("deny")
  const DENIED_BY_POLICY: Bytes := Ascii("command denied by policy")

  // ---------------------------------------------------------------- rules

  /** `re` is the compiled pattern; an empty pattern leaves it unset and matches every command. */
  datatype CommandRule = CommandRule(
    action: Bytes, pattern: Bytes, match_: seq<Argument>, setValues: seq<Argument>, passRepl: bool, re: Option<Bytes>)

  predicate Compiles(e: Engine, r: CommandRule) {
    r.pattern == [] || e.compiles(r.pattern)
  }

  function Compiled(r: CommandRule): CommandRule {
    if r.pattern == [] then r else r.(re := Some(r.pattern))
  }

  function CompiledAll(rs: seq<CommandRule>): (r: seq<CommandRule>)
    ensures |r| == |rs|
  {
    seq(|rs|, i requires 0 <= i < |rs| => Compiled(rs[i]))
  }

  predicate AllCompile(e: Engine, rs: seq<CommandRule>) {
    forall i | 0 <= i < |rs| :: Compiles(e, rs[i])
  }

  /** Compiles a list of rules in order, stopping at the first that fails. */
  method CompileRules(e: Engine, rs: seq<CommandRule>) returns (r: Option<seq<CommandRule>>)
    ensures r == if AllCompile(e, rs) then Some(CompiledAll(rs)) else None
  {
    var out := [];
    for i := 0 to |rs|
      invariant |out| == i
      invariant forall j | 0 <= j < i :: Compiles(e, rs[j]) && out[j] == Compiled(rs[j])
    {
      if rs[i].pattern != [] && !e.compiles(rs[i].pattern) {
        assert !Compiles(e, rs[i]);
        return None;
      }
      out := out + [Compiled(rs[i])];
    }
    assert out == CompiledAll(rs);
    return Some(out);
  }

  predicate ArgPresent(args: seq<Argument>, want: Argument) {
    exists i | 0 <= i < |args| :: args[i].name == want.name && args[i].value == want.value
  }

  method FindArg(args: seq<Argument>, want: Argument) returns (found: bool)
    ensures found <==> ArgPresent(args, want)
  {
    for i := 0 to |args|
      invariant forall j | 0 <= j < i :: !(args[j].name == want.name && args[j].value == want.value)
    {
      if args[i].name == want.name && args[i].value == want.value {
        return true;
      }
    }
    return false;
  }

  predicate AllPresent(args: seq<Argument>, wanted: seq<Argument>) {
    forall i | 0 <= i < |wanted| :: ArgPresent(args, wanted[i])
  }

  method FindAllArgs(args: seq<Argument>, wanted: seq<Argument>) returns (found: bool)
    ensures found <==> AllPresent(args, wanted)
  {
    for i := 0 to |wanted|
      invariant forall j | 0 <= j < i :: ArgPresent(args, wanted[j])
    {
      var ok := FindArg(args, wanted[i]);
      if !ok {
        return false;
      }
    }
    return true;
  }

  predicate RuleMatches(e: Engine, r: CommandRule, cmd: Bytes, args: seq<Argument>) {
    (r.re.Some? ==> e.matches(r.re.value, cmd)) && AllPresent(args, r.match_)
  }

  /** What a matching rule decides: only the action "deny" denies. */
  function Verdict(r: CommandRule): AuthorDecision {
    if r.action == DENY then AuthorDecision(AUTHOR_FAIL, [], DENIED_BY_POLICY)
    else AuthorDecision(if r.passRepl then AUTHOR_PASS_REPL else AUTHOR_PASS_ADD, r.setValues, [])
  }

  /** The verdict of the first rule that matches. */
  function MatchCommand(e: Engine, rules: seq<CommandRule>, cmd: Bytes, args: seq<Argument>): Option<AuthorDecision> {
    if rules == [] then None
    else if RuleMatches(e, rules[0], cmd, args) then Some(Verdict(rules[0]))
    else MatchCommand(e, rules[1..], cmd, args)
  }

  method MatchCommandRules(e: Engine, rules: seq<CommandRule>, cmd: Bytes, args: seq<Argument>) returns (r: Option<AuthorDecision>)
    ensures r == MatchCommand(e, rules, cmd, args)
  {
    for i := 0 to |rules|
      invariant MatchCommand(e, rules, cmd, args) == MatchCommand(e, rules[i..], cmd, args)
    {
      assert rules[i..][1..] == rules[i + 1..];
      var here := rules[i].re.None? || e.matches(rules[i].re.value, cmd);
      if here {
        here := FindAllArgs(args, rules[i].match_);
      }
      if here {
        return Some(Verdict(rules[i]));
      }
    }
    return None;
  }

  /** A first match over two lists is the first list's or, failing that, the second's. */
  lemma {:induction false} MatchCommandAppend(e: Engine, xs: seq<CommandRule>, ys: seq<CommandRule>, cmd: Bytes, args: seq<Argument>)
    ensures MatchCommand(e, xs + ys, cmd, args)
         == if MatchCommand(e, xs, cmd, args).Some? then MatchCommand(e, xs, cmd, args) else MatchCommand(e, ys, cmd, args)
  {
    if xs == [] {
      assert xs + ys == ys;
    } else {
      assert (xs + ys)[1..] == xs[1..] + ys;
      MatchCommandAppend(e, xs[1..], ys, cmd, args);
    }
  }

  /** A list decides nothing exactly when none of its rules matches. */
  lemma {:induction false} NoMatchIff(e: Engine, rules: seq<CommandRule>, cmd: Bytes, args: seq<Argument>)
    ensures MatchCommand(e, rules, cmd, args) == None <==> forall i | 0 <= i < |rules| :: !RuleMatches(e, rules[i], cmd, args)
  {
    if rules != [] {
      NoMatchIff(e, rules[1..], cmd, args);
      if MatchCommand(e, rules, cmd, args) == None {
        forall i | 0 <= i < |rules|
          ensures !RuleMatches(e, rules[i], cmd, args)
        {
          if i > 0 {
            assert rules[1..][i - 1] == rules[i];
          }
        }
      }
    }
  }

  /** The position of the first rule that matches, or the length. */
  function FirstMatch(e: Engine, rules: seq<CommandRule>, cmd: Bytes, args: seq<Argument>): (i: nat)
    ensures i <= |rules|
    ensures forall j | 0 <= j < i :: !RuleMatches(e, rules[j], cmd, args)
    ensures i < |rules| ==> RuleMatches(e, rules[i], cmd, args)
  {
    if rules == [] || RuleMatches(e, rules[0], cmd, args) then 0 else 1 + FirstMatch(e, rules[1..], cmd, args)
  }

  lemma {:induction false} MatchIsFirst(e: Engine, rules: seq<CommandRule>, cmd: Bytes, args: seq<Argument>)
    ensures var i := FirstMatch(e, rules, cmd, args);
            MatchCommand(e, rules, cmd, args) == if i == |rules| then None else Some(Verdict(rules[i]))
  {
    if rules != [] {
      MatchIsFirst(e, rules[1..], cmd, args);
    }
  }

  /** When a rule applies to a request: its pattern is unset or matches the command, and for every argument
      it wants the request has one of the same name and value. */
  ghost predicate Applies(e: Engine, r: CommandRule, cmd: Bytes, args: seq<Argument>) {
    && (r.re == None || e.matches(r.re.value, cmd))
    && forall w | w in r.match_ :: exists a :: a in args && a.name == w.name && a.value == w.value
  }

  lemma RuleMatchesIs(e: Engine, r: CommandRule, cmd: Bytes, args: seq<Argument>)
    ensures RuleMatches(e, r, cmd, args) <==> Applies(e, r, cmd, args)
  {
    if RuleMatches(e, r, cmd, args) {
      forall w | w in r.match_
        ensures exists a :: a in args && a.name == w.name && a.value == w.value
      {
        var i :| 0 <= i < |r.match_| && r.match_[i] == w;
        assert ArgPresent(args, r.match_[i]);
        var j :| 0 <= j < |args| && args[j].name == w.name && args[j].value == w.value;
        assert args[j] in args;
      }
    }
    if Applies(e, r, cmd, args) {
      forall i | 0 <= i < |r.match_|
        ensures ArgPresent(args, r.match_[i])
      {
        var w := r.match_[i];
        assert w in r.match_;
        var a :| a in args && a.name == w.name && a.value == w.value;
        var j :| 0 <= j < |args| && args[j] == a;
      }
    }
  }

  /** A list decides nothing when no rule applies; otherwise its first rule that applies decides: "deny"
      fails the request, anything else passes it, replacing or adding the values the rule sets. */
  lemma FirstRuleDecides(e: Engine, rules: seq<CommandRule>, cmd: Bytes, args: seq<Argument>)
    ensures var m := MatchCommand(e, rules, cmd, args);
            && (m == None <==> forall r | r in rules :: !Applies(e, r, cmd, args))
            && forall i | 0 <= i < |rules| && Applies(e, rules[i], cmd, args) && (forall j | 0 <= j < i :: !Applies(e, rules[j], cmd, args)) ::
                 m == Some(if rules[i].action == Ascii("deny") then AuthorDecision(0x10, [], Ascii("command denied by policy"))
                           else AuthorDecision(if rules[i].passRepl then 0x02 else 0x01, rules[i].setValues, []))
  {
    hide RuleMatches, Applies, FirstMatch;
    MatchIsFirst(e, rules, cmd, args);
    forall i | 0 <= i < |rules|
      ensures RuleMatches(e, rules[i], cmd, args) <==> Applies(e, rules[i], cmd, args)
    {
      RuleMatchesIs(e, rules[i], cmd, args);
    }
    var k := FirstMatch(e, rules, cmd, args);
    if k < |rules| {
      assert rules[k] in rules && Applies(e, rules[k], cmd, args);
    } else {
      forall r | r in rules
        ensures !Applies(e, r, cmd, args)
      {
        var i :| 0 <= i < |rules| && rules[i] == r;
      }
    }
  }

  /** A rule that wants an argument the request does not have makes no difference. */
  lemma UnmetRuleIsSkipped(e: Engine, xs: seq<CommandRule>, r: CommandRule, ys: seq<CommandRule>, cmd: Bytes, args: seq<Argument>, w: Argument)
    requires w in r.match_ && forall a | a in args :: a.name != w.name || a.value != w.value
    ensures MatchCommand(e, xs + [r] + ys, cmd, args) == MatchCommand(e, xs + ys, cmd, args)
  {
    hide MatchCommand, RuleMatches;
    RuleMatchesIs(e, r, cmd, args);
    assert !Applies(e, r, cmd, args);
    NoMatchIff(e, [r], cmd, args);
    MatchCommandAppend(e, xs + [r], ys, cmd, args);
    MatchCommandAppend(e, xs, [r], cmd, args);
    MatchCommandAppend(e, xs, ys, cmd, args);
  }

  /** A list denies exactly when its first matching rule has the action "deny"; any other action, the
      empty one included, permits. */
  lemma OnlyDenyDenies(e: Engine, rules: seq<CommandRule>, cmd: Bytes, args: seq<Argument>)
    ensures var i := FirstMatch(e, rules, cmd, args);
            MatchCommand(e, rules, cmd, args).Some? && MatchCommand(e, rules, cmd, args).value.status == AUTHOR_FAIL <==>
            i < |rules| && rules[i].action == DENY
  {
    MatchIsFirst(e, rules, cmd, args);
  }

  /** A rule without action, pattern or arguments permits every command. */
  lemma EmptyActionPermits(e: Engine, cmd: Bytes, args: seq<Argument>) returns (rule: CommandRule)
    ensures rule.action == [] && Compiles(e, rule)
    ensures MatchCommand(e, CompiledAll([rule]), cmd, args) == Some(AuthorDecision(AUTHOR_PASS_ADD, [], []))
  {
    rule := CommandRule([], [], [], [], false, None);
    assert CompiledAll([rule]) == [rule];
    assert RuleMatches(e, rule, cmd, args);
  }

  // ---------------------------------------------------------------- configuration

  datatype Service = Service(name: Bytes, match_: seq<Argument>, setValues: seq<Argument>)

  datatype Group = Group(name: Bytes, commands: seq<CommandRule>, services: seq<Bytes>, authType: Bytes)

  datatype User = User(
    username: Bytes, passwordHash: Bytes, authType: Bytes,
    groups: seq<Bytes>, services: seq<Bytes>, commands: seq<CommandRule>)

  datatype ResolvedUser = ResolvedUser(user: User, commands: seq<CommandRule>, services: seq<Service>)

  datatype Config = Config(users: seq<User>, groups: seq<Group>, services: seq<Service>)

  predicate HasGroup(c: Config, name: Bytes) {
    exists i | 0 <= i < |c.groups| :: c.groups[i].name == name
  }

  predicate HasService(c: Config, name: Bytes) {
    exists i | 0 <= i < |c.services| :: c.services[i].name == name
  }

  predicate GroupsWellFormed(e: Engine, c: Config) {
    && (forall i | 0 <= i < |c.groups| :: c.groups[i].name != [] && AllCompile(e, c.groups[i].commands))
    && (forall i, j | 0 <= i < j < |c.groups| :: c.groups[i].name != c.groups[j].name)
  }

  predicate ServicesWellFormed(c: Config) {
    && (forall i | 0 <= i < |c.services| :: c.services[i].name != [])
    && (forall i, j | 0 <= i < j < |c.services| :: c.services[i].name != c.services[j].name)
  }

  predicate ServicesExist(c: Config, refs: seq<Bytes>) {
    forall i | 0 <= i < |refs| :: HasService(c, refs[i])
  }

  predicate GroupsExist(c: Config, refs: seq<Bytes>) {
    forall i | 0 <= i < |refs| :: HasGroup(c, refs[i])
  }

  predicate UserWellFormed(e: Engine, c: Config, u: User) {
    AllCompile(e, u.commands) && ServicesExist(c, u.services) && GroupsExist(c, u.groups)
  }

  /** Names are present and unique, references exist, patterns compile. */
  predicate Resolvable(e: Engine, c: Config) {
    && GroupsWellFormed(e, c)
    && ServicesWellFormed(c)
    && (forall i | 0 <= i < |c.groups| :: ServicesExist(c, c.groups[i].services))
    && (forall i | 0 <= i < |c.users| :: UserWellFormed(e, c, c.users[i]))
  }

  // ---------------------------------------------------------------- validation on loading

  /** A bcrypt hash starts with "$2". */
  predicate Hashed(password: Bytes) {
    |password| >= 2 && password[0] == 0x24 && password[1] == 0x32
  }

  /** The users a configuration file may declare: named, with passwords, no name twice, and only hashed
      passwords unless plain ones are allowed. */
  predicate Loadable(users: seq<User>, allowPlaintext: bool) {
    && (forall i | 0 <= i < |users| ::
          users[i].username != [] && users[i].passwordHash != [] && (Hashed(users[i].passwordHash) || allowPlaintext))
    && (forall i, j | 0 <= i < j < |users| :: users[i].username != users[j].username)
  }

  method Validate(users: seq<User>, allowPlaintext: bool) returns (ok: bool)
    ensures ok <==> Loadable(users, allowPlaintext)
  {
    var seen: set<Bytes> := {};
    for i := 0 to |users|
      invariant Loadable(users[..i], allowPlaintext)
      invariant forall name :: name in seen <==> exists j | 0 <= j < i :: users[j].username == name
    {
      var u := users[i];
      if u.username == [] {
        return false;
      }
      if u.passwordHash == [] {
        return false;
      }
      if u.username in seen {
        return false;
      }
      seen := seen + {u.username};
      if u.passwordHash != [] && !Hashed(u.passwordHash) && !allowPlaintext {
        return false;
      }
      assert users[..i + 1] == users[..i] + [u];
    }
    assert users[..|users|] == users;
    return true;
  }

  // ---------------------------------------------------------------- what a user resolves to

  function GroupNamed(gs: seq<Group>, name: Bytes): Group {
    if gs == [] then Group([], [], [], [])
    else if gs[|gs| - 1].name == name then gs[|gs| - 1]
    else GroupNamed(gs[..|gs| - 1], name)
  }

  function ServiceNamed(ss: seq<Service>, name: Bytes): Service {
    if ss == [] then Service([], [], [])
    else if ss[|ss| - 1].name == name then ss[|ss| - 1]
    else ServiceNamed(ss[..|ss| - 1], name)
  }

  function ServicesNamed(c: Config, refs: seq<Bytes>): seq<Service> {
    seq(|refs|, i requires 0 <= i < |refs| => ServiceNamed(c.services, refs[i]))
  }

  /** The rules contributed by groups, in the order the groups are listed. */
  function GroupCommands(c: Config, refs: seq<Bytes>): seq<CommandRule> {
    if refs == [] then []
    else GroupCommands(c, refs[..|refs| - 1]) + CompiledAll(GroupNamed(c.groups, refs[|refs| - 1]).commands)
  }

  function GroupServices(c: Config, refs: seq<Bytes>): seq<Service> {
    if refs == [] then []
    else GroupServices(c, refs[..|refs| - 1]) + ServicesNamed(c, GroupNamed(c.groups, refs[|refs| - 1]).services)
  }

  /** The user's own type or else the first that is set among the groups. */
  function InheritedAuthType(c: Config, own: Bytes, refs: seq<Bytes>): Bytes {
    if refs == [] then own
    else
      var sofar := InheritedAuthType(c, own, refs[..|refs| - 1]);
      if sofar != [] then sofar else GroupNamed(c.groups, refs[|refs| - 1]).authType
  }

  function Expanded(c: Config, u: User): ResolvedUser {
    ResolvedUser(
      u.(authType := InheritedAuthType(c, u.authType, u.groups), commands := CompiledAll(u.commands)),
      CompiledAll(u.commands) + GroupCommands(c, u.groups),
      ServicesNamed(c, u.services) + GroupServices(c, u.groups))
  }

  function ResolvedUsers(c: Config, us: seq<User>): map<Bytes, ResolvedUser> {
    if us == [] then map[]
    else ResolvedUsers(c, us[..|us| - 1])[us[|us| - 1].username := Expanded(c, us[|us| - 1])]
  }

  function Resolve(e: Engine, c: Config): Option<map<Bytes, ResolvedUser>> {
    if Resolvable(e, c) then Some(ResolvedUsers(c, c.users)) else None
  }

  // ---------------------------------------------------------------- properties of resolution

  /** The group a reference names is the only one of that name. */
  lemma {:induction false} GroupNamedIs(gs: seq<Group>, i: nat)
    requires i < |gs|
    requires forall j | i < j < |gs| :: gs[j].name != gs[i].name
    ensures GroupNamed(gs, gs[i].name) == gs[i]
  {
    if i < |gs| - 1 {
      GroupNamedIs(gs[..|gs| - 1], i);
    }
  }

  lemma {:induction false} ServiceNamedIs(ss: seq<Service>, i: nat)
    requires i < |ss|
    requires forall j | i < j < |ss| :: ss[j].name != ss[i].name
    ensures ServiceNamed(ss, ss[i].name) == ss[i]
  {
    if i < |ss| - 1 {
      ServiceNamedIs(ss[..|ss| - 1], i);
    }
  }

  /** A resolved user keeps the user's name, password, groups and services; of the services resolved, their
      own come first, each the configured one of that name, then those of their groups. */
  lemma ExpandedServices(e: Engine, c: Config, u: User, i: nat, j: nat)
    requires Resolvable(e, c) && i < |u.services| && j < |c.services| && c.services[j].name == u.services[i]
    ensures var r := Expanded(c, u);
            && |r.services| >= |u.services| && r.services[i] == c.services[j]
            && r.services[|u.services|..] == GroupServices(c, u.groups)
            && r.user.username == u.username && r.user.passwordHash == u.passwordHash && r.user.groups == u.groups && r.user.services == u.services
  {
    hide UserWellFormed, GroupsWellFormed;
    ServiceNamedIs(c.services, j);
  }

  /** Services of groups come in the order the groups are listed, and within a group in the group's. */
  lemma GroupServicesStep(c: Config, refs: seq<Bytes>, g: nat)
    requires refs != [] && g < |c.groups| && c.groups[g].name == refs[|refs| - 1]
    requires forall j | g < j < |c.groups| :: c.groups[j].name != c.groups[g].name
    ensures var front, last := GroupServices(c, refs[..|refs| - 1]), c.groups[g].services;
            && GroupServices(c, refs)[..|front|] == front && |GroupServices(c, refs)| == |front| + |last|
            && forall i, j | 0 <= i < |last| && 0 <= j < |c.services| && c.services[j].name == last[i]
                 && (forall k | j < k < |c.services| :: c.services[k].name != c.services[j].name) ::
                 GroupServices(c, refs)[|front| + i] == c.services[j]
  {
    hide ServiceNamed;
    GroupNamedIs(c.groups, g);
    forall i, j | 0 <= i < |c.groups[g].services| && 0 <= j < |c.services| && c.services[j].name == c.groups[g].services[i]
                  && (forall k | j < k < |c.services| :: c.services[k].name != c.services[j].name)
      ensures ServiceNamed(c.services, c.groups[g].services[i]) == c.services[j]
    {
      ServiceNamedIs(c.services, j);
    }
  }

  /** Every pattern in a list of rules is empty or compiles; every name in a list is that of a group or
      service. */
  ghost predicate PatternsCompile(e: Engine, rs: seq<CommandRule>) {
    forall i | 0 <= i < |rs| :: rs[i].pattern == [] || e.compiles(rs[i].pattern)
  }

  ghost predicate IsService(c: Config, name: Bytes) {
    exists s :: s in c.services && s.name == name
  }

  ghost predicate IsGroup(c: Config, name: Bytes) {
    exists g :: g in c.groups && g.name == name
  }

  ghost predicate AreServices(c: Config, names: seq<Bytes>) {
    forall i | 0 <= i < |names| :: IsService(c, names[i])
  }

  ghost predicate AreGroups(c: Config, names: seq<Bytes>) {
    forall i | 0 <= i < |names| :: IsGroup(c, names[i])
  }

  /** Resolution succeeds exactly when names are present and unique, references exist and patterns compile. */
  lemma ResolvesIff(e: Engine, c: Config)
    ensures Resolve(e, c).Some? <==>
            && (forall i | 0 <= i < |c.groups| ::
                  c.groups[i].name != [] && PatternsCompile(e, c.groups[i].commands) && AreServices(c, c.groups[i].services))
            && (forall i, j | 0 <= i < j < |c.groups| :: c.groups[i].name != c.groups[j].name)
            && (forall i | 0 <= i < |c.services| :: c.services[i].name != [])
            && (forall i, j | 0 <= i < j < |c.services| :: c.services[i].name != c.services[j].name)
            && (forall i | 0 <= i < |c.users| ::
                  PatternsCompile(e, c.users[i].commands) && AreServices(c, c.users[i].services) && AreGroups(c, c.users[i].groups))
  {
    hide ResolvedUsers, AllCompile, PatternsCompile, ServicesExist, AreServices, GroupsExist, AreGroups;
    forall i | 0 <= i < |c.groups|
      ensures AllCompile(e, c.groups[i].commands) <==> PatternsCompile(e, c.groups[i].commands)
      ensures ServicesExist(c, c.groups[i].services) <==> AreServices(c, c.groups[i].services)
    {
      ReferencesAre(e, c, c.groups[i].commands, c.groups[i].services, []);
    }
    forall i | 0 <= i < |c.users|
      ensures AllCompile(e, c.users[i].commands) <==> PatternsCompile(e, c.users[i].commands)
      ensures ServicesExist(c, c.users[i].services) <==> AreServices(c, c.users[i].services)
      ensures GroupsExist(c, c.users[i].groups) <==> AreGroups(c, c.users[i].groups)
    {
      ReferencesAre(e, c, c.users[i].commands, c.users[i].services, c.users[i].groups);
    }
  }

  lemma ReferencesAre(e: Engine, c: Config, rs: seq<CommandRule>, services: seq<Bytes>, groups: seq<Bytes>)
    ensures AllCompile(e, rs) <==> PatternsCompile(e, rs)
    ensures ServicesExist(c, services) <==> AreServices(c, services)
    ensures GroupsExist(c, groups) <==> AreGroups(c, groups)
  {
    if AllCompile(e, rs) {
      assert forall i | 0 <= i < |rs| :: Compiles(e, rs[i]);
    }
    forall n
      ensures HasService(c, n) <==> IsService(c, n)
      ensures HasGroup(c, n) <==> IsGroup(c, n)
    {
      NamesAre(c, n);
    }
  }

  lemma NamesAre(c: Config, n: Bytes)
    ensures HasService(c, n) <==> IsService(c, n)
    ensures HasGroup(c, n) <==> IsGroup(c, n)
  {
    if HasService(c, n) {
      var i :| 0 <= i < |c.services| && c.services[i].name == n;
      assert c.services[i] in c.services;
    }
    if HasGroup(c, n) {
      var i :| 0 <= i < |c.groups| && c.groups[i].name == n;
      assert c.groups[i] in c.groups;
    }
  }

  /** A user's rules decide a request before any group's, and groups decide it in listed order. */
  lemma UserRulesFirst(e: Engine, c: Config, u: User, cmd: Bytes, args: seq<Argument>)
    ensures var own := MatchCommand(e, CompiledAll(u.commands), cmd, args);
            MatchCommand(e, Expanded(c, u).commands, cmd, args)
            == if own.Some? then own else MatchCommand(e, GroupCommands(c, u.groups), cmd, args)
  {
    MatchCommandAppend(e, CompiledAll(u.commands), GroupCommands(c, u.groups), cmd, args);
  }

  /** The first listed group with a matching rule decides. */
  lemma {:induction false} GroupsInOrder(e: Engine, c: Config, refs: seq<Bytes>, i: nat, cmd: Bytes, args: seq<Argument>)
    requires i < |refs|
    requires forall j | 0 <= j < i :: MatchCommand(e, CompiledAll(GroupNamed(c.groups, refs[j]).commands), cmd, args) == None
    ensures MatchCommand(e, CompiledAll(GroupNamed(c.groups, refs[i]).commands), cmd, args).Some? ==>
              MatchCommand(e, GroupCommands(c, refs), cmd, args) == MatchCommand(e, CompiledAll(GroupNamed(c.groups, refs[i]).commands), cmd, args)
    decreases |refs|
  {
    hide MatchCommand, CompiledAll, GroupNamed;
    var front := refs[..|refs| - 1];
    MatchCommandAppend(e, GroupCommands(c, front), CompiledAll(GroupNamed(c.groups, refs[|refs| - 1]).commands), cmd, args);
    if i < |refs| - 1 {
      GroupsInOrder(e, c, front, i, cmd, args);
    } else {
      NoGroupMatches(e, c, front, cmd, args);
    }
  }

  lemma {:induction false} NoGroupMatches(e: Engine, c: Config, refs: seq<Bytes>, cmd: Bytes, args: seq<Argument>)
    requires forall j | 0 <= j < |refs| :: MatchCommand(e, CompiledAll(GroupNamed(c.groups, refs[j]).commands), cmd, args) == None
    ensures MatchCommand(e, GroupCommands(c, refs), cmd, args) == None
  {
    if refs != [] {
      var front := refs[..|refs| - 1];
      NoGroupMatches(e, c, front, cmd, args);
      MatchCommandAppend(e, GroupCommands(c, front), CompiledAll(GroupNamed(c.groups, refs[|refs| - 1]).commands), cmd, args);
    }
  }

  /** The resolved type is the user's when set, else that of the first listed group that sets one. */
  lemma {:induction false} AuthTypeComesFrom(c: Config, own: Bytes, refs: seq<Bytes>)
    ensures var r := InheritedAuthType(c, own, refs);
            && (own != [] ==> r == own)
            && (own == [] && r != [] ==>
                  exists i | 0 <= i < |refs| :: GroupNamed(c.groups, refs[i]).authType == r
                    && forall j | 0 <= j < i :: GroupNamed(c.groups, refs[j]).authType == [])
            && (own == [] && r == [] ==> forall i | 0 <= i < |refs| :: GroupNamed(c.groups, refs[i]).authType == [])
  {
    if refs != [] {
      var front, n := refs[..|refs| - 1], |refs| - 1;
      AuthTypeComesFrom(c, own, front);
      var sofar := InheritedAuthType(c, own, front);
      if own == [] {
        if sofar != [] {
          var i :| 0 <= i < |front| && GroupNamed(c.groups, front[i]).authType == sofar
                   && forall j | 0 <= j < i :: GroupNamed(c.groups, front[j]).authType == [];
          assert GroupNamed(c.groups, refs[i]).authType == sofar;
          assert forall j | 0 <= j < i :: refs[j] == front[j];
        } else {
          assert forall j | 0 <= j < n :: refs[j] == front[j];
          assert GroupNamed(c.groups, refs[n]).authType == InheritedAuthType(c, own, refs);
        }
      }
    }
  }

  /** The type a user resolves to. */
  lemma ResolvedType(c: Config, u: User)
    ensures var t := Expanded(c, u).user.authType;
            && (u.authType != [] ==> t == u.authType)
            && (u.authType == [] && t != [] ==>
                  exists i | 0 <= i < |u.groups| :: GroupNamed(c.groups, u.groups[i]).authType == t
                    && forall j | 0 <= j < i :: GroupNamed(c.groups, u.groups[j]).authType == [])
            && (u.authType == [] && t == [] ==> forall i | 0 <= i < |u.groups| :: GroupNamed(c.groups, u.groups[i]).authType == [])
  {
    hide GroupNamed, InheritedAuthType;
    AuthTypeComesFrom(c, u.authType, u.groups);
  }

  /** Every configured user name is resolved, and nothing else is. */
  lemma {:induction false} ResolvedNames(c: Config, us: seq<User>, name: Bytes)
    ensures name in ResolvedUsers(c, us) <==> exists i | 0 <= i < |us| :: us[i].username == name
  {
    if us != [] {
      var front, n := us[..|us| - 1], |us| - 1;
      ResolvedNames(c, front, name);
      if i :| 0 <= i < |us| && us[i].username == name {
        if i < n {
          assert front[i].username == name;
        }
      }
      if j :| 0 <= j < |front| && front[j].username == name {
        assert us[j].username == name;
      }
    }
  }
}
