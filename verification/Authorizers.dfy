/**
  Two ways to authorize a command from the same configuration: directly per user
  (server/userconfig.go, ConfigHandler) and through one compiled rule list for everybody
  (cmd/tacacs-cli/server.go, userConfigToRules; cmd/tacacs-cli/aaa/authorizer.go, CommandAuthorizer),
  and how far they agree.
*/
module Authorizers {
  import opened Base
  import opened Arguments
  import opened Text
  import opened Runes
  import opened Regex
  import opened FlatPolicy
  import opened Server
  import opened Groups
  import opened Resolver

  const PERMIT: Bytes := Ascii("permit")
  const NOT_AUTHORIZED: Bytes := Ascii("command not authorized")
  const NO_MATCHING_RULE: Bytes := Ascii("no matching rule")

  datatype UserConfig = UserConfig(config: Config, policy: Policy)

  // ---------------------------------------------------------------- the command of a request

  /** "cmd" in any mixture of cases. */
  predicate IsCmd(name: Bytes) {
    |name| == 3 && name[0] in {0x63, 0x43} && name[1] in {0x6d, 0x4d} && name[2] in {0x64, 0x44}
  }

  /** The value of the first "cmd" argument, or nothing. */
  function CommandOf(args: seq<Argument>): Bytes {
    if args == [] then []
    else if IsCmd(args[0].name) then args[0].value
    else CommandOf(args[1..])
  }

  method ExtractCmd(args: seq<Argument>) returns (cmd: Bytes)
    ensures cmd == CommandOf(args)
  {
    for i := 0 to |args|
      invariant CommandOf(args) == CommandOf(args[i..])
    {
      assert args[i..][1..] == args[i + 1..];
      if IsCmd(args[i].name) {
        return args[i].value;
      }
    }
    return [];
  }

  function LowerByte(b: byte): byte {
    if 0x41 <= b <= 0x5a then b + 0x20 else b
  }

  /** Whether a name is "cmd" without regard to case. */
  predicate NamesCmd(name: Bytes) {
    |name| == 3 && LowerByte(name[0]) == Ascii("cmd")[0] && LowerByte(name[1]) == Ascii("cmd")[1] && LowerByte(name[2]) == Ascii("cmd")[2]
  }

  /** The command is the value of the first argument named "cmd", in any mixture of cases, or empty. */
  lemma {:induction false} CommandIs(args: seq<Argument>, i: nat)
    requires i <= |args| && forall j | 0 <= j < i :: !NamesCmd(args[j].name)
    requires i < |args| ==> NamesCmd(args[i].name)
    ensures CommandOf(args) == if i < |args| then args[i].value else []
  {
    assert Ascii("cmd") == [0x63, 0x6d, 0x64];
    if i > 0 {
      assert !NamesCmd(args[0].name);
      CommandIs(args[1..], i - 1);
    }
  }

  // ---------------------------------------------------------------- the direct way

  /** The first service all of whose arguments are present replaces the arguments. */
  function MatchService(services: seq<Service>, args: seq<Argument>): Option<AuthorDecision> {
    if services == [] then None
    else if AllPresent(args, services[0].match_) then Some(AuthorDecision(AUTHOR_PASS_REPL, services[0].setValues, []))
    else MatchService(services[1..], args)
  }

  method MatchServices(services: seq<Service>, args: seq<Argument>) returns (r: Option<AuthorDecision>)
    ensures r == MatchService(services, args)
  {
    hide AllPresent;
    for i := 0 to |services|
      invariant MatchService(services, args) == MatchService(services[i..], args)
    {
      assert services[i..][1..] == services[i + 1..];
      var here := FindAllArgs(args, services[i].match_);
      if here {
        return Some(AuthorDecision(AUTHOR_PASS_REPL, services[i].setValues, []));
      }
    }
    return None;
  }

  /** The position of the first service all of whose arguments are present, or the length. */
  function FirstService(services: seq<Service>, args: seq<Argument>): (i: nat)
    ensures i <= |services|
    ensures forall j | 0 <= j < i :: !AllPresent(args, services[j].match_)
    ensures i < |services| ==> AllPresent(args, services[i].match_)
  {
    if services == [] || AllPresent(args, services[0].match_) then 0 else 1 + FirstService(services[1..], args)
  }

  lemma {:induction false} ServiceIsFirst(services: seq<Service>, args: seq<Argument>)
    ensures var i := FirstService(services, args);
            MatchService(services, args)
            == if i == |services| then None else Some(AuthorDecision(AUTHOR_PASS_REPL, services[i].setValues, []))
  {
    if services != [] {
      ServiceIsFirst(services[1..], args);
    }
  }

  /** The first service for all of whose arguments the request has one of the same name and value replaces
      the arguments by its values. */
  lemma FirstServiceDecides(services: seq<Service>, args: seq<Argument>, i: nat)
    requires i < |services| && forall w | w in services[i].match_ :: exists a :: a in args && a.name == w.name && a.value == w.value
    requires forall j | 0 <= j < i :: exists w :: w in services[j].match_ && forall a | a in args :: a.name != w.name || a.value != w.value
    ensures MatchService(services, args) == Some(AuthorDecision(0x02, services[i].setValues, []))
  {
    hide MatchService, AllPresent;
    ServiceIsFirst(services, args);
    var k := FirstService(services, args);
    PresentIs(args, services[i].match_);
    assert k <= i;
    if k < i {
      PresentIs(args, services[k].match_);
    }
  }

  lemma PresentIs(args: seq<Argument>, wanted: seq<Argument>)
    ensures AllPresent(args, wanted) <==> forall w | w in wanted :: exists a :: a in args && a.name == w.name && a.value == w.value
  {
    RuleMatchesIs(Engine(_ => true, (_, _) => true), CommandRule([], [], wanted, [], false, None), [], args);
  }

  function PolicyDecision(p: Policy, cmd: Bytes): AuthorDecision {
    if Allows(p, cmd) then AuthorDecision(AUTHOR_PASS_ADD, [], []) else AuthorDecision(AUTHOR_FAIL, [], NOT_AUTHORIZED)
  }

  function Direct(e: Engine, policy: Policy, resolved: map<Bytes, ResolvedUser>, user: Bytes, args: seq<Argument>): AuthorDecision {
    if user !in resolved then AuthorDecision(AUTHOR_FAIL, [], [])
    else
      var cmd := CommandOf(args);
      if cmd == [] then
        match MatchService(resolved[user].services, args)
        case Some(d) => d
        case None => AuthorDecision(AUTHOR_PASS_ADD, [], [])
      else
        match MatchCommand(e, resolved[user].commands, cmd, args)
        case Some(d) => d
        case None => PolicyDecision(policy, cmd)
  }

  method AuthorizeDirectly(e: Engine, policy: Policy, resolved: map<Bytes, ResolvedUser>, user: Bytes, args: seq<Argument>) returns (d: AuthorDecision)
    ensures d == Direct(e, policy, resolved, user, args)
  {
    hide MatchCommand, MatchService, Allows, CommandOf;
    if user !in resolved {
      return AuthorDecision(AUTHOR_FAIL, [], []);
    }
    var ru := resolved[user];
    var cmd := ExtractCmd(args);
    if cmd == [] {
      var s := MatchServices(ru.services, args);
      if s.Some? {
        return s.value;
      }
      return AuthorDecision(AUTHOR_PASS_ADD, [], []);
    }
    if |ru.commands| > 0 {
      var m := MatchCommandRules(e, ru.commands, cmd, args);
      if m.Some? {
        return m.value;
      }
    } else {
      NoMatchIff(e, ru.commands, cmd, args);
    }
    var allowed := PolicyAllows(policy, cmd);
    if allowed {
      return AuthorDecision(AUTHOR_PASS_ADD, [], []);
    }
    return AuthorDecision(AUTHOR_FAIL, [], NOT_AUTHORIZED);
  }

  // ---------------------------------------------------------------- the compiled way

  /** Everybody's rules, in the order users are declared. */
  function UserRules(users: seq<User>, resolved: map<Bytes, ResolvedUser>): seq<CommandRule> {
    if users == [] then []
    else
      var u := users[|users| - 1];
      UserRules(users[..|users| - 1], resolved) + if u.username in resolved then resolved[u.username].commands else []
  }

  function GlobRule(action: Bytes, glob: Bytes): CommandRule {
    CommandRule(action, GlobToRegex(glob), [], [], false, None)
  }

  function GlobRules(action: Bytes, globs: seq<Bytes>): (r: seq<CommandRule>)
    ensures |r| == |globs|
  {
    seq(|globs|, i requires 0 <= i < |globs| => GlobRule(action, globs[i]))
  }

  function RuleList(uc: UserConfig, resolved: map<Bytes, ResolvedUser>): seq<CommandRule> {
    UserRules(uc.config.users, resolved) + GlobRules(DENY, uc.policy.denyCommands) + GlobRules(PERMIT, uc.policy.allowCommands)
  }

  method UserConfigToRules(e: Engine, uc: UserConfig) returns (r: Option<seq<CommandRule>>)
    ensures r == match Resolve(e, uc.config)
                 case None => None
                 case Some(resolved) => Some(RuleList(uc, resolved))
  {
    hide Resolve, GlobRule;
    var resolved := ResolveConfig(e, uc.config);
    if resolved.None? {
      return None;
    }
    var rules: seq<CommandRule> := [];
    var users := uc.config.users;
    for i := 0 to |users|
      invariant rules == UserRules(users[..i], resolved.value)
    {
      assert users[..i + 1][..i] == users[..i];
      if users[i].username in resolved.value {
        rules := rules + resolved.value[users[i].username].commands;
      }
    }
    assert users[..|users|] == users;
    var deny := TranslateGlobs(DENY, uc.policy.denyCommands);
    var allow := TranslateGlobs(PERMIT, uc.policy.allowCommands);
    return Some(rules + deny + allow);
  }

  method TranslateGlobs(action: Bytes, globs: seq<Bytes>) returns (rules: seq<CommandRule>)
    ensures rules == GlobRules(action, globs)
  {
    rules := [];
    for i := 0 to |globs|
      invariant |rules| == i
      invariant forall j | 0 <= j < i :: rules[j] == GlobRule(action, globs[j])
    {
      rules := rules + [GlobRule(action, globs[i])];
    }
  }

  function ByRules(e: Engine, rules: seq<CommandRule>, args: seq<Argument>): AuthorDecision {
    match MatchCommand(e, rules, CommandOf(args), args)
    case Some(d) => d
    case None => AuthorDecision(AUTHOR_FAIL, [], NO_MATCHING_RULE)
  }

  /** One rule list for all users, replaceable while in use. */
  class CommandAuthorizer {
    var rules: seq<CommandRule>

    constructor (compiled: seq<CommandRule>)
      ensures rules == compiled
    {
      rules := compiled;
    }

    static method New(e: Engine, raw: seq<CommandRule>) returns (a: CommandAuthorizer?)
      ensures a == null <==> !AllCompile(e, raw)
      ensures a != null ==> fresh(a) && a.rules == CompiledAll(raw)
    {
      var compiled := CompileRules(e, raw);
      if compiled.None? {
        return null;
      }
      a := new CommandAuthorizer(compiled.value);
    }

    /** Swaps in new rules; when one of them does not compile the old rules stay. */
    method Reload(e: Engine, raw: seq<CommandRule>) returns (ok: bool)
      modifies this
      ensures ok <==> AllCompile(e, raw)
      ensures rules == if ok then CompiledAll(raw) else old(rules)
    {
      var compiled := CompileRules(e, raw);
      if compiled.None? {
        return false;
      }
      rules := compiled.value;
      return true;
    }

    method Authorize(e: Engine, args: seq<Argument>) returns (d: AuthorDecision)
      ensures d == ByRules(e, rules, args)
    {
      var cmd := ExtractCmd(args);
      var m := MatchCommandRules(e, rules, cmd, args);
      if m.Some? {
        return m.value;
      }
      return AuthorDecision(AUTHOR_FAIL, [], NO_MATCHING_RULE);
    }
  }

  // ---------------------------------------------------------------- the compiled list means what it was compiled from

  /** Compiling twice changes nothing. */
  lemma CompileTwice(rs: seq<CommandRule>)
    ensures CompiledAll(CompiledAll(rs)) == CompiledAll(rs)
  {
  }

  lemma CompiledAppend(xs: seq<CommandRule>, ys: seq<CommandRule>)
    ensures CompiledAll(xs + ys) == CompiledAll(xs) + CompiledAll(ys)
  {
  }

  predicate SameVerdict(a: AuthorDecision, b: AuthorDecision) {
    a.status == b.status && a.args == b.args
  }

  /** The rules for globs compile exactly when the globs are UTF-8. */
  lemma GlobsCompileIff(e: Engine, action: Bytes, globs: seq<Bytes>)
    requires Faithful(e) && forall i | 0 <= i < |globs| :: |globs[i]| <= MAX_GLOB
    ensures AllCompile(e, GlobRules(action, globs)) <==> AllTranslatable(globs)
  {
    hide GlobToRegex, Utf8;
    var rs := GlobRules(action, globs);
    forall i | 0 <= i < |globs|
      ensures Compiles(e, rs[i]) <==> Translatable(globs[i])
    {
      NotEmpty(globs[i]);
      assert e.compiles(GlobToRegex(globs[i])) <==> Utf8(globs[i]);
    }
    if AllCompile(e, rs) {
      forall i | 0 <= i < |globs|
        ensures Translatable(globs[i])
      {
        assert Compiles(e, rs[i]);
      }
    }
  }

  /** The compiled globs of one action match exactly what one of them covers. */
  lemma {:induction false} GlobRulesMatch(e: Engine, action: Bytes, globs: seq<Bytes>, cmd: Bytes, args: seq<Argument>)
    requires Faithful(e) && AllTranslatable(globs)
    ensures AllCompile(e, GlobRules(action, globs))
    ensures MatchCommand(e, CompiledAll(GlobRules(action, globs)), cmd, args)
         == if AnyCovers(globs, cmd) then Some(Verdict(GlobRule(action, []))) else None
  {
    if globs == [] {
      assert !AnyCovers(globs, cmd);
    } else {
      hide GlobToRegex, Covers, Faithful, Translatable, AnyCovers, RuleMatches, GlobRules, CompiledAll;
      FirstGlobRule(e, action, globs[0], cmd, args);
      GlobRulesMatch(e, action, globs[1..], cmd, args);
      GlobRulesStep(action, globs);
      AnyCoversStep(globs, cmd);
    }
  }

  lemma FirstGlobRule(e: Engine, action: Bytes, glob: Bytes, cmd: Bytes, args: seq<Argument>)
    requires Faithful(e) && Translatable(glob)
    ensures var r := GlobRule(action, glob);
            Compiles(e, r) && (RuleMatches(e, Compiled(r), cmd, args) <==> Covers(glob, cmd)) && Verdict(Compiled(r)) == Verdict(GlobRule(action, []))
  {
    hide GlobToRegex, Covers, Faithful, Translatable;
    EngineCovers(e, glob, cmd);
  }

  lemma GlobRulesStep(action: Bytes, globs: seq<Bytes>)
    requires globs != []
    ensures var rs := CompiledAll(GlobRules(action, globs));
            rs[0] == Compiled(GlobRule(action, globs[0])) && rs[1..] == CompiledAll(GlobRules(action, globs[1..]))
    ensures GlobRules(action, globs) == [GlobRule(action, globs[0])] + GlobRules(action, globs[1..])
  {
  }

  lemma AnyCoversStep(globs: seq<Bytes>, cmd: Bytes)
    requires globs != []
    ensures AnyCovers(globs, cmd) <==> Covers(globs[0], cmd) || AnyCovers(globs[1..], cmd)
  {
    hide Covers;
    if i :| 0 <= i < |globs| && Covers(globs[i], cmd) {
      assert i == 0 || globs[1..][i - 1] == globs[i];
    }
    if i :| 0 <= i < |globs[1..]| && Covers(globs[1..][i], cmd) {
      assert globs[i + 1] == globs[1..][i];
    }
  }

  function LayerDecision(p: Policy, cmd: Bytes): AuthorDecision {
    if LayerAllows(p, cmd) then AuthorDecision(AUTHOR_PASS_ADD, [], []) else AuthorDecision(AUTHOR_FAIL, [], NOT_AUTHORIZED)
  }

  /** Deny rules followed by allow rules under first match permit exactly the commands that no deny glob
      covers and some allow glob does. */
  lemma PolicyLayer(e: Engine, p: Policy, cmd: Bytes, args: seq<Argument>)
    requires Faithful(e) && TranslatablePolicy(p)
    ensures var layer := GlobRules(DENY, p.denyCommands) + GlobRules(PERMIT, p.allowCommands);
            && AllCompile(e, layer)
            && var m := MatchCommand(e, CompiledAll(layer), cmd, args);
               SameVerdict(if m.Some? then m.value else AuthorDecision(AUTHOR_FAIL, [], NO_MATCHING_RULE), LayerDecision(p, cmd))
  {
    hide MatchCommand, CompiledAll, AnyCovers, Faithful, AllTranslatable, GlobRules, AllCompile;
    GlobRulesMatch(e, DENY, p.denyCommands, cmd, args);
    GlobRulesMatch(e, PERMIT, p.allowCommands, cmd, args);
    var ds, ps := GlobRules(DENY, p.denyCommands), GlobRules(PERMIT, p.allowCommands);
    CompiledAppend(ds, ps);
    AllCompileAppend(e, ds, ps);
    MatchCommandAppend(e, CompiledAll(ds), CompiledAll(ps), cmd, args);
    PermitIsNotDeny();
  }

  /** A newline-free UTF-8 command is decided by the layer as by the flat policy. */
  lemma LayerIsPolicy(p: Policy, cmd: Bytes)
    requires TranslatablePolicy(p) && Utf8(cmd) && LF !in cmd
    ensures LayerAllows(p, cmd) <==> Allows(p, cmd)
  {
    hide LayerAllows, Allows;
    LayerAgreesIff(p, cmd);
  }

  lemma PermitIsNotDeny()
    ensures PERMIT != DENY
  {
  }

  lemma AllCompileAppend(e: Engine, xs: seq<CommandRule>, ys: seq<CommandRule>)
    requires AllCompile(e, xs) && AllCompile(e, ys)
    ensures AllCompile(e, xs + ys)
  {
  }

  /** Everybody's rules are already compiled. */
  lemma {:induction false} UserRulesCompiled(e: Engine, c: Config, us: seq<User>)
    requires Resolvable(e, c) && (forall i | 0 <= i < |us| :: us[i] in c.users)
    ensures var rs := UserRules(us, ResolvedUsers(c, c.users)); AllCompile(e, rs) && CompiledAll(rs) == rs
  {
    hide GroupsWellFormed, ServicesWellFormed, UserWellFormed, ResolvedUsers, AllCompile, CompiledAll;
    if us == [] {
      NothingToCompile(e);
    } else {
      var front, u := us[..|us| - 1], us[|us| - 1];
      UserRulesCompiled(e, c, front);
      var resolved := ResolvedUsers(c, c.users);
      var mine := if u.username in resolved then resolved[u.username].commands else [];
      if u.username in resolved {
        ResolvedAreCompiled(e, c, c.users, u.username);
      } else {
        NothingToCompile(e);
      }
      CompiledAppend(UserRules(front, resolved), mine);
      AllCompileAppend(e, UserRules(front, resolved), mine);
    }
  }

  lemma NothingToCompile(e: Engine)
    ensures AllCompile(e, []) && CompiledAll([]) == []
  {
  }

  lemma {:induction false} ResolvedAreCompiled(e: Engine, c: Config, us: seq<User>, name: Bytes)
    requires Resolvable(e, c)
    requires forall i | 0 <= i < |us| :: UserWellFormed(e, c, us[i])
    requires name in ResolvedUsers(c, us)
    ensures var rs := ResolvedUsers(c, us)[name].commands; AllCompile(e, rs) && CompiledAll(rs) == rs
  {
    var u := us[|us| - 1];
    if u.username == name {
      ExpandedIsCompiled(e, c, u);
    } else {
      ResolvedAreCompiled(e, c, us[..|us| - 1], name);
    }
  }

  lemma ExpandedIsCompiled(e: Engine, c: Config, u: User)
    requires Resolvable(e, c) && UserWellFormed(e, c, u)
    ensures var rs := Expanded(c, u).commands; AllCompile(e, rs) && CompiledAll(rs) == rs
  {
    hide Resolvable, GroupCommands;
    var own, inherited := CompiledAll(u.commands), GroupCommands(c, u.groups);
    GroupCommandsCompiled(e, c, u.groups);
    CompileTwice(u.commands);
    CompiledAppend(own, inherited);
    AllCompileAppend(e, own, inherited);
  }

  lemma {:induction false} GroupCommandsCompiled(e: Engine, c: Config, refs: seq<Bytes>)
    requires Resolvable(e, c) && GroupsExist(c, refs)
    ensures var rs := GroupCommands(c, refs); AllCompile(e, rs) && CompiledAll(rs) == rs
  {
    hide AllCompile, CompiledAll;
    if refs == [] {
      NothingToCompile(e);
    } else {
      var front, name := refs[..|refs| - 1], refs[|refs| - 1];
      GroupCommandsCompiled(e, c, front);
      assert HasGroup(c, name);
      var i :| 0 <= i < |c.groups| && c.groups[i].name == name;
      GroupNamedIs(c.groups, i);
      var g := c.groups[i];
      CompileTwice(g.commands);
      StillCompile(e, g.commands);
      CompiledAppend(GroupCommands(c, front), CompiledAll(g.commands));
      AllCompileAppend(e, GroupCommands(c, front), CompiledAll(g.commands));
    }
  }

  lemma StillCompile(e: Engine, rs: seq<CommandRule>)
    requires AllCompile(e, rs)
    ensures AllCompile(e, CompiledAll(rs))
  {
  }

  // ---------------------------------------------------------------- agreement

  /** The compiled list decides every command like a user who owns everybody's rules in front of the
      expressions of the flat policy. */
  lemma CompiledMeans(e: Engine, uc: UserConfig, args: seq<Argument>)
    requires Faithful(e) && Resolvable(e, uc.config) && TranslatablePolicy(uc.policy)
    ensures var resolved := ResolvedUsers(uc.config, uc.config.users);
            var rules, cmd := RuleList(uc, resolved), CommandOf(args);
            var mine := MatchCommand(e, UserRules(uc.config.users, resolved), cmd, args);
            && AllCompile(e, rules)
            && SameVerdict(ByRules(e, CompiledAll(rules), args), if mine.Some? then mine.value else LayerDecision(uc.policy, cmd))
  {
    hide Faithful, TranslatablePolicy, Resolvable, MatchCommand, UserRules, GlobRules, CompiledAll, AllCompile, LayerDecision, CommandOf;
    var resolved := ResolvedUsers(uc.config, uc.config.users);
    var users := UserRules(uc.config.users, resolved);
    var layer := GlobRules(DENY, uc.policy.denyCommands) + GlobRules(PERMIT, uc.policy.allowCommands);
    assert RuleList(uc, resolved) == users + layer;
    UserRulesCompiled(e, uc.config, uc.config.users);
    PolicyLayer(e, uc.policy, CommandOf(args), args);
    CompiledAppend(users, layer);
    AllCompileAppend(e, users, layer);
    MatchCommandAppend(e, users, CompiledAll(layer), CommandOf(args), args);
  }

  /** What the rules of the i-th declared user decide. */
  function UserMatch(e: Engine, users: seq<User>, resolved: map<Bytes, ResolvedUser>, i: nat, cmd: Bytes, args: seq<Argument>): Option<AuthorDecision>
    requires i < |users|
  {
    if users[i].username in resolved then MatchCommand(e, resolved[users[i].username].commands, cmd, args) else None
  }

  /** The position of the first declared user with a rule that matches, or the number of users. */
  function FirstUser(e: Engine, users: seq<User>, resolved: map<Bytes, ResolvedUser>, cmd: Bytes, args: seq<Argument>): (i: nat)
    ensures i <= |users|
    ensures forall j | 0 <= j < i :: UserMatch(e, users, resolved, j, cmd, args) == None
    ensures i < |users| ==> UserMatch(e, users, resolved, i, cmd, args).Some?
  {
    if users == [] then 0
    else
      var front, n := users[..|users| - 1], |users| - 1;
      var i := FirstUser(e, front, resolved, cmd, args);
      assert forall j | 0 <= j < n :: UserMatch(e, users, resolved, j, cmd, args) == UserMatch(e, front, resolved, j, cmd, args);
      if i < n then i
      else if UserMatch(e, users, resolved, n, cmd, args).Some? then n
      else |users|
  }

  /** Everybody's rules in one list decide as those of the first declared user with a match. */
  lemma {:induction false} UsersInOrder(e: Engine, users: seq<User>, resolved: map<Bytes, ResolvedUser>, cmd: Bytes, args: seq<Argument>)
    ensures var i := FirstUser(e, users, resolved, cmd, args);
            MatchCommand(e, UserRules(users, resolved), cmd, args)
            == if i == |users| then None else UserMatch(e, users, resolved, i, cmd, args)
  {
    hide MatchCommand;
    NoMatchIff(e, [], cmd, args);
    if users != [] {
      var front, u := users[..|users| - 1], users[|users| - 1];
      UsersInOrder(e, front, resolved, cmd, args);
      MatchCommandAppend(e, UserRules(front, resolved), if u.username in resolved then resolved[u.username].commands else [], cmd, args);
    }
  }

  /** For a known user and a command, the compiled list and the direct handler give the same status and
      arguments exactly when the first declared user with a rule that matches decides what the
      requester's own rules or else the flat policy decide, or, when no user has such a rule, the
      expressions of the flat policy decide as the policy does. */
  lemma CompiledAgreesIff(e: Engine, uc: UserConfig, user: Bytes, args: seq<Argument>)
    requires Faithful(e) && Resolvable(e, uc.config) && TranslatablePolicy(uc.policy)
    requires CommandOf(args) != [] && user in ResolvedUsers(uc.config, uc.config.users)
    ensures var users, resolved, cmd := uc.config.users, ResolvedUsers(uc.config, uc.config.users), CommandOf(args);
            var i, own := FirstUser(e, users, resolved, cmd, args), MatchCommand(e, resolved[user].commands, cmd, args);
            SameVerdict(ByRules(e, CompiledAll(RuleList(uc, resolved)), args), Direct(e, uc.policy, resolved, user, args)) <==>
              if i == |users| then LayerAllows(uc.policy, cmd) <==> Allows(uc.policy, cmd)
              else SameVerdict(UserMatch(e, users, resolved, i, cmd, args).value, if own.Some? then own.value else PolicyDecision(uc.policy, cmd))
  {
    hide Faithful, TranslatablePolicy, Resolvable, MatchCommand, UserRules, CompiledAll, AllCompile, LayerAllows, Allows, CommandOf, RuleList, ByRules, FirstUser, ResolvedUsers;
    var users, resolved, cmd := uc.config.users, ResolvedUsers(uc.config, uc.config.users), CommandOf(args);
    CompiledMeans(e, uc, args);
    UsersInOrder(e, users, resolved, cmd, args);
    ResolvedNames(uc.config, users, user);
    var j :| 0 <= j < |users| && users[j].username == user;
    assert UserMatch(e, users, resolved, j, cmd, args) == MatchCommand(e, resolved[user].commands, cmd, args);
  }

  /** No rule of a user other than `user` matches the request. */
  predicate OthersSilent(e: Engine, users: seq<User>, resolved: map<Bytes, ResolvedUser>, user: Bytes, cmd: Bytes, args: seq<Argument>) {
    forall i | 0 <= i < |users| && users[i].username != user :: UserMatch(e, users, resolved, i, cmd, args) == None
  }

  /** When no other user's rules match the request they agree exactly when the requester's own rules
      match or the expressions of the flat policy decide as the policy does; so always on a newline-free
      command in UTF-8. */
  lemma CompiledAgreesWithDirect(e: Engine, uc: UserConfig, user: Bytes, args: seq<Argument>)
    requires Faithful(e) && Resolvable(e, uc.config) && TranslatablePolicy(uc.policy)
    requires CommandOf(args) != []
    requires var resolved := ResolvedUsers(uc.config, uc.config.users);
             user in resolved && OthersSilent(e, uc.config.users, resolved, user, CommandOf(args), args)
    ensures var resolved, cmd := ResolvedUsers(uc.config, uc.config.users), CommandOf(args);
            var agree := SameVerdict(ByRules(e, CompiledAll(RuleList(uc, resolved)), args), Direct(e, uc.policy, resolved, user, args));
            && (agree <==> MatchCommand(e, resolved[user].commands, cmd, args).Some? || (LayerAllows(uc.policy, cmd) <==> Allows(uc.policy, cmd)))
            && (Utf8(cmd) && LF !in cmd ==> agree)
  {
    hide Faithful, TranslatablePolicy, Resolvable, MatchCommand, UserRules, CompiledAll, AllCompile, LayerAllows, Allows, CommandOf, RuleList, ByRules, Direct, FirstUser, ResolvedUsers, Utf8;
    var users, resolved, cmd := uc.config.users, ResolvedUsers(uc.config, uc.config.users), CommandOf(args);
    CompiledAgreesIff(e, uc, user, args);
    ResolvedNames(uc.config, users, user);
    var j :| 0 <= j < |users| && users[j].username == user;
    assert UserMatch(e, users, resolved, j, cmd, args) == MatchCommand(e, resolved[user].commands, cmd, args);
    if Utf8(cmd) && LF !in cmd {
      LayerIsPolicy(uc.policy, cmd);
    }
  }

  /** In particular when no other user has any resolved rule. */
  lemma CompiledAgreesForSoleRuleOwner(e: Engine, uc: UserConfig, user: Bytes, args: seq<Argument>)
    requires Faithful(e) && Resolvable(e, uc.config) && TranslatablePolicy(uc.policy)
    requires CommandOf(args) != [] && Utf8(CommandOf(args)) && LF !in CommandOf(args)
    requires var resolved := ResolvedUsers(uc.config, uc.config.users);
             && user in resolved
             && forall name | name in resolved && name != user :: resolved[name].commands == []
    ensures var resolved := ResolvedUsers(uc.config, uc.config.users);
            SameVerdict(ByRules(e, CompiledAll(RuleList(uc, resolved)), args), Direct(e, uc.policy, resolved, user, args))
  {
    hide Faithful, TranslatablePolicy, Resolvable, MatchCommand, UserRules, CompiledAll, AllCompile, CommandOf, RuleList, ByRules, Direct, Utf8;
    NoMatchIff(e, [], CommandOf(args), args);
    CompiledAgreesWithDirect(e, uc, user, args);
  }

  /** Without a command they agree exactly as follows. When one of the requester's services matches,
      the first rule that matches, of whichever user, must replace the arguments by the values of that
      service. When none does, that rule must permit and add nothing, or no rule matches and the policy
      allows the empty command. */
  lemma EmptyCommandAgreesIff(e: Engine, uc: UserConfig, user: Bytes, args: seq<Argument>)
    requires Faithful(e) && Resolvable(e, uc.config) && TranslatablePolicy(uc.policy)
    requires CommandOf(args) == [] && user in ResolvedUsers(uc.config, uc.config.users)
    ensures var resolved := ResolvedUsers(uc.config, uc.config.users);
            var rules, services := UserRules(uc.config.users, resolved), resolved[user].services;
            var i, j := FirstMatch(e, rules, [], args), FirstService(services, args);
            SameVerdict(ByRules(e, CompiledAll(RuleList(uc, resolved)), args), Direct(e, uc.policy, resolved, user, args)) <==>
              if j < |services| then
                i < |rules| && rules[i].action != DENY && rules[i].passRepl && rules[i].setValues == services[j].setValues
              else if i < |rules| then
                rules[i].action != DENY && !rules[i].passRepl && rules[i].setValues == []
              else Allows(uc.policy, [])
  {
    hide Faithful, TranslatablePolicy, Resolvable, MatchCommand, MatchService, UserRules, CompiledAll, AllCompile, CommandOf, RuleList, ByRules, FirstMatch, FirstService, ResolvedUsers, Allows, LayerAllows;
    var resolved := ResolvedUsers(uc.config, uc.config.users);
    CompiledMeans(e, uc, args);
    MatchIsFirst(e, UserRules(uc.config.users, resolved), [], args);
    ServiceIsFirst(resolved[user].services, args);
    LayerIsPolicy(uc.policy, []);
  }

  /** A user who is not configured always fails directly. The compiled list agrees exactly when the first
      rule that matches, of whichever user, denies, or no rule matches and the expressions of the flat
      policy do not allow the command. */
  lemma UnknownUserAgreesIff(e: Engine, uc: UserConfig, user: Bytes, args: seq<Argument>)
    requires Faithful(e) && Resolvable(e, uc.config) && TranslatablePolicy(uc.policy)
    requires user !in ResolvedUsers(uc.config, uc.config.users)
    ensures var resolved, cmd := ResolvedUsers(uc.config, uc.config.users), CommandOf(args);
            var rules := UserRules(uc.config.users, resolved);
            var i := FirstMatch(e, rules, cmd, args);
            SameVerdict(ByRules(e, CompiledAll(RuleList(uc, resolved)), args), Direct(e, uc.policy, resolved, user, args)) <==>
              if i < |rules| then rules[i].action == DENY else !LayerAllows(uc.policy, cmd)
  {
    hide Faithful, TranslatablePolicy, Resolvable, MatchCommand, UserRules, CompiledAll, AllCompile, CommandOf, RuleList, ByRules, FirstMatch, ResolvedUsers, LayerAllows;
    CompiledMeans(e, uc, args);
    MatchIsFirst(e, UserRules(uc.config.users, ResolvedUsers(uc.config, uc.config.users)), CommandOf(args), args);
  }

  // ---------------------------------------------------------------- where they differ

  /** A user with a hashed password, rules of their own and nothing else. */
  function Plain(name: Bytes, rules: seq<CommandRule>): User {
    User(name, [0x24, 0x32], [], [], [], rules)
  }

  lemma PlainUsers(name: Bytes, other: Bytes, rules: seq<CommandRule>)
    requires name != other
    ensures var c1, c2 := Config([Plain(name, [])], [], []), Config([Plain(name, []), Plain(other, rules)], [], []);
            var r1, r2 := ResolvedUsers(c1, c1.users), ResolvedUsers(c2, c2.users);
            && name in r1 && r1[name].commands == [] && r1[name].services == []
            && name in r2 && r2[name].commands == []
            && UserRules(c1.users, r1) == []
            && UserRules(c2.users, r2) == CompiledAll(rules)
  {
    hide CompiledAll;
    var u, v := Plain(name, []), Plain(other, rules);
    var c1, c2 := Config([u], [], []), Config([u, v], [], []);
    assert [u][..0] == [] && [u, v][..1] == [u];
    PlainExpanded(c1, u);
    PlainExpanded(c2, u);
    PlainExpanded(c2, v);
    var r1, r2 := ResolvedUsers(c1, [u]), ResolvedUsers(c2, [u, v]);
    assert ResolvedUsers(c1, []) == map[] && ResolvedUsers(c2, []) == map[];
    assert ResolvedUsers(c2, [u]) == ResolvedUsers(c2, [])[name := Expanded(c2, u)];
    assert r2 == ResolvedUsers(c2, [u])[other := Expanded(c2, v)];
    assert r1[name] == Expanded(c1, u) && r2[name] == Expanded(c2, u) && r2[other] == Expanded(c2, v);
    assert UserRules([], r1) == [] && UserRules([u], r1) == UserRules([], r1) + [];
    assert UserRules([], r2) == [] && UserRules([u], r2) == UserRules([], r2) + [];
    assert UserRules([u, v], r2) == UserRules([u], r2) + CompiledAll(rules);
  }

  lemma PlainExpanded(c: Config, u: User)
    requires u.groups == [] && u.services == []
    ensures Expanded(c, u).commands == CompiledAll(u.commands) && Expanded(c, u).services == []
  {
  }

  /** A rule of one user decides the requests of another once everybody's rules are in one list. */
  lemma RulesLeakBetweenUsers(e: Engine) returns (uc: UserConfig, user: Bytes, args: seq<Argument>)
    requires Faithful(e)
    ensures Loadable(uc.config.users, false) && Resolvable(e, uc.config) && TranslatablePolicy(uc.policy)
    ensures CommandOf(args) != [] && Utf8(CommandOf(args)) && LF !in CommandOf(args)
    ensures var resolved := ResolvedUsers(uc.config, uc.config.users);
            && user in resolved
            && Direct(e, uc.policy, resolved, user, args).status == AUTHOR_PASS_ADD
            && ByRules(e, CompiledAll(RuleList(uc, resolved)), args).status == AUTHOR_FAIL
  {
    hide ResolvedUsers, UserRules, RuleList, Faithful, ByRules;
    var denyAll := CommandRule(DENY, [], [], [], false, None);
    var cmd: Bytes := [99];
    user, args := [97], [Argument(true, [0x63, 0x6d, 0x64], cmd)];
    uc := UserConfig(Config([Plain([97], []), Plain([98], [denyAll])], [], []), Policy([cmd], []));
    PlainUsers([97], [98], [denyAll]);
    assert Resolvable(e, uc.config);
    CompiledMeans(e, uc, args);
    assert MatchCmd(uc.policy.allowCommands[0], cmd);
    assert RuleMatches(e, denyAll, cmd, args);
    assert CompiledAll([denyAll]) == [denyAll];
  }

  /** Without a command the direct handler permits by default while an empty rule list denies. */
  lemma EmptyCommandDiffers(e: Engine) returns (uc: UserConfig, user: Bytes, args: seq<Argument>)
    ensures Loadable(uc.config.users, false) && Resolvable(e, uc.config) && TranslatablePolicy(uc.policy) && CommandOf(args) == []
    ensures var resolved := ResolvedUsers(uc.config, uc.config.users);
            && user in resolved
            && Direct(e, uc.policy, resolved, user, args).status == AUTHOR_PASS_ADD
            && ByRules(e, CompiledAll(RuleList(uc, resolved)), args).status == AUTHOR_FAIL
  {
    hide ResolvedUsers, UserRules;
    user, args := [97], [];
    uc := UserConfig(Config([Plain([97], [])], [], []), Policy([], []));
    PlainUsers([97], [98], []);
    assert CompiledAll([]) == [];
  }
}
