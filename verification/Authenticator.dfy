/**
  Authentication from the configured users (server/userconfig.go, ConfigHandler.Authenticate;
  server/users.go). Password verification is a parameter.
*/
module Authenticator {
  import opened Base
  import opened Bodies
  import opened Regex
  import opened Server
  import opened Groups

  const UNKNOWN_USER: Bytes := Ascii("unknown user")
  const TYPE_NOT_ALLOWED: Bytes := Ascii("auth type not allowed for user")
  const INVALID_CREDENTIALS: Bytes := Ascii("invalid credentials")
  const PASSWORD_PROMPT: Bytes := Ascii("Password:")

  const AUTHEN_TYPE_ASCII: byte := 0x01
  const AUTHEN_TYPE_PAP: byte := 0x02
  const AUTHEN_TYPE_CHAP: byte := 0x03
  const AUTHEN_TYPE_MSCHAP: byte := 0x05
  const AUTHEN_TYPE_MSCHAP_V2: byte := 0x06

  /** Whether a password is that of a user. */
  type Verify = (Bytes, User) -> bool

  function Lower(s: Bytes): Bytes {
    seq(|s|, i requires 0 <= i < |s| => if 0x41 <= s[i] <= 0x5a then s[i] + 0x20 else s[i])
  }

  /** Whether a configured type, in any mixture of cases, accepts the type of a request. */
  predicate Accepts(configured: Bytes, authenType: byte) {
    var name := Lower(configured);
    if name == Ascii("ascii") then authenType == AUTHEN_TYPE_ASCII
    else if name == Ascii("pap") then authenType == AUTHEN_TYPE_PAP
    else if name == Ascii("chap") then authenType == AUTHEN_TYPE_CHAP
    else if name == Ascii("mschap") then authenType == AUTHEN_TYPE_MSCHAP
    else if name == Ascii("mschapv2") then authenType == AUTHEN_TYPE_MSCHAP_V2
    else name == [] || name == Ascii("any")
  }

  /** The in-memory store keeps the last user of each name, exactly as configured. */
  function Store(us: seq<User>): map<Bytes, User> {
    if us == [] then map[] else Store(us[..|us| - 1])[us[|us| - 1].username := us[|us| - 1]]
  }

  function Fail(msg: Bytes): AuthenReply {
    AuthenReply(AUTHEN_FAIL, 0, msg, [])
  }

  function CheckPassword(verify: Verify, password: Bytes, u: User): AuthenReply {
    if verify(password, u) then AuthenReply(AUTHEN_PASS, 0, [], []) else Fail(INVALID_CREDENTIALS)
  }

  function Authenticate(verify: Verify, store: map<Bytes, User>, start: AuthenStart, cont: Option<AuthenContinue>): AuthenReply {
    if start.user !in store then Fail(UNKNOWN_USER)
    else
      var u := store[start.user];
      if u.authType != [] && !Accepts(u.authType, start.authenType) then Fail(TYPE_NOT_ALLOWED)
      else
        match cont
        case Some(c) => CheckPassword(verify, c.userMsg, u)
        case None =>
          if start.authenType == AUTHEN_TYPE_PAP then CheckPassword(verify, start.data, u)
          else AuthenReply(AUTHEN_GET_PASS, 0, PASSWORD_PROMPT, [])
  }

  /** The store and the resolved users are indexed alike. */
  lemma {:induction false} StoreAndResolved(c: Config, us: seq<User>, name: Bytes)
    ensures name in Store(us) <==> name in ResolvedUsers(c, us)
    ensures name in Store(us) ==> ResolvedUsers(c, us)[name] == Expanded(c, Store(us)[name])
  {
    if us != [] {
      StoreAndResolved(c, us[..|us| - 1], name);
    }
  }

  /** The authentication type a user resolves to is enforced exactly when it is the user's own: a
      request whose type it does not accept is refused for its type if and only if the user, and not
      only a group, sets one. */
  lemma InheritedTypeEnforcedIff(verify: Verify, c: Config, start: AuthenStart, cont: Option<AuthenContinue>)
    requires start.user in ResolvedUsers(c, c.users)
    requires !Accepts(ResolvedUsers(c, c.users)[start.user].user.authType, start.authenType)
    ensures start.user in Store(c.users)
    ensures Authenticate(verify, Store(c.users), start, cont) == Fail(TYPE_NOT_ALLOWED) <==> Store(c.users)[start.user].authType != []
  {
    StoreAndResolved(c, c.users, start.user);
    var u := Store(c.users)[start.user];
    AuthTypeComesFrom(c, u.authType, u.groups);
    MessagesDiffer();
  }

  lemma MessagesDiffer()
    ensures |TYPE_NOT_ALLOWED| == 30 && |INVALID_CREDENTIALS| == 19 && |PASSWORD_PROMPT| == 9
  {
  }

  /** A user whose group allows only PAP, and who is nevertheless asked for a password over ASCII. */
  lemma InheritedTypeIgnored(e: Engine, verify: Verify) returns (c: Config, start: AuthenStart)
    ensures Loadable(c.users, false) && Resolvable(e, c)
    ensures start.user in Store(c.users) && start.user in ResolvedUsers(c, c.users)
    ensures !Accepts(ResolvedUsers(c, c.users)[start.user].user.authType, start.authenType)
    ensures Authenticate(verify, Store(c.users), start, None) == AuthenReply(AUTHEN_GET_PASS, 0, PASSWORD_PROMPT, [])
  {
    var pap: Bytes, name: Bytes, group: Bytes := Ascii("pap"), [97], [103];
    var u, g := User(name, [0x24, 0x32], [], [group], [], []), Group(group, [], [], pap);
    c := Config([u], [g], []);
    start := AuthenStart(1, 1, AUTHEN_TYPE_ASCII, 1, name, [], [], []);
    assert c.groups[0].name == group;
    assert HasGroup(c, group);
    assert [u][..0] == [];
    assert Store([]) == map[] && Store(c.users) == map[name := u];
    StoreAndResolved(c, c.users, name);
    assert [group][..0] == [];
    assert InheritedAuthType(c, [], []) == [];
    assert InheritedAuthType(c, [], [group]) == GroupNamed([g], group).authType == pap;
    PapIsNotAscii();
  }

  lemma PapIsNotAscii()
    ensures !Accepts(Ascii("pap"), AUTHEN_TYPE_ASCII)
  {
    var name := Lower(Ascii("pap"));
    assert |name| == 3 && name[0] == 0x70;
    assert |Ascii("ascii")| == 5;
    assert name == Ascii("pap");
  }

  /** A login passes exactly when the user is stored, sets no type or one that accepts that of the request,
      and the password, of the CONTINUE or, without one, of a PAP START, is that of the user. */
  lemma PassesIff(verify: Verify, store: map<Bytes, User>, start: AuthenStart, cont: Option<AuthenContinue>)
    ensures Authenticate(verify, store, start, cont).status == 0x01 <==>
            && start.user in store
            && (store[start.user].authType == [] || Accepts(store[start.user].authType, start.authenType))
            && match cont
               case Some(c) => verify(c.userMsg, store[start.user])
               case None => start.authenType == 0x02 && verify(start.data, store[start.user])
  {
    hide Accepts;
  }

  /** The user is asked for a password exactly when known, of an acceptable type other than PAP, and only
      the START has come; in every other case that does not pass the login fails. */
  lemma AsksIff(verify: Verify, store: map<Bytes, User>, start: AuthenStart, cont: Option<AuthenContinue>)
    ensures var r := Authenticate(verify, store, start, cont);
            && (r.status == 0x05 <==>
                  && start.user in store && cont == None && start.authenType != 0x02
                  && (store[start.user].authType == [] || Accepts(store[start.user].authType, start.authenType)))
            && (r.status == 0x05 ==> r.serverMsg == Ascii("Password:") && r.flags == 0)
            && r.status in {0x01, 0x02, 0x05} && r.data == []
            && (r.status == 0x02 ==>
                  r.serverMsg == if start.user !in store then Ascii("unknown user")
                                 else if store[start.user].authType != [] && !Accepts(store[start.user].authType, start.authenType)
                                 then Ascii("auth type not allowed for user")
                                 else Ascii("invalid credentials"))
  {
    hide Accepts;
  }

  /** Each type name accepts its own type and no other, "any" and no name accept all, any other
      name none, and case is ignored. */
  lemma AcceptsIs(authenType: byte, name: Bytes, other: Bytes)
    ensures Accepts(Ascii("ascii"), authenType) <==> authenType == 1
    ensures Accepts(Ascii("PAP"), authenType) <==> authenType == 2
    ensures Accepts(Ascii("Chap"), authenType) <==> authenType == 3
    ensures Accepts(Ascii("mschap"), authenType) <==> authenType == 5
    ensures Accepts(Ascii("MSCHAPv2"), authenType) <==> authenType == 6
    ensures Accepts(Ascii("any"), authenType) && Accepts([], authenType)
    ensures Lower(name) !in {Ascii("ascii"), Ascii("pap"), Ascii("chap"), Ascii("mschap"), Ascii("mschapv2"), Ascii("any"), []} ==> !Accepts(name, authenType)
    ensures Lower(name) == Lower(other) ==> (Accepts(name, authenType) <==> Accepts(other, authenType))
  {
    NamesAreDistinct();
  }

  lemma NamesAreDistinct()
    ensures |Ascii("ascii")| == 5 && |Ascii("pap")| == 3 && |Ascii("chap")| == 4 && |Ascii("mschap")| == 6 && |Ascii("mschapv2")| == 8
    ensures |Ascii("any")| == 3 && Ascii("any") != Ascii("pap")
    ensures Lower(Ascii("ascii")) == Ascii("ascii") && Lower(Ascii("PAP")) == Ascii("pap") && Lower(Ascii("Chap")) == Ascii("chap")
    ensures Lower(Ascii("mschap")) == Ascii("mschap") && Lower(Ascii("MSCHAPv2")) == Ascii("mschapv2") && Lower(Ascii("any")) == Ascii("any")
    ensures Lower([]) == []
  {
    assert Ascii("any")[0] == 0x61 && Ascii("pap")[0] == 0x70;
  }
}
