/**
  The DNS-backed table of shared secrets (server/secret_dns.go): each rule carries the addresses its host
  name resolved to; a refresh keeps the old addresses of a host whose lookup fails.
*/
module DnsSecrets {
  import opened Base
  import opened Addresses
  import opened Framing

  // ---------------------------------------------------------------- address sets

  function KeysOf(addrs: seq<Ip>): set<Bytes> {
    set i | 0 <= i < |addrs| && Key16(addrs[i]) != [] :: Key16(addrs[i])
  }

  method IpSet(addrs: seq<Ip>) returns (keys: set<Bytes>)
    ensures keys == KeysOf(addrs)
  {
    keys := {};
    for i := 0 to |addrs|
      invariant keys == set j | 0 <= j < i && Key16(addrs[j]) != [] :: Key16(addrs[j])
    {
      var k := Key16(addrs[i]);
      if k != [] {
        keys := keys + {k};
      }
    }
  }

  // ---------------------------------------------------------------- rules

  datatype Rule = Rule(host: Bytes, secret: Bytes, mode: Mode)

  datatype Compiled = Compiled(rule: Rule, ips: set<Bytes>)

  /** A resolver's answer to one lookup. */
  type Answer = Option<seq<Ip>>

  datatype SecretConfig = SecretConfig(secret: Bytes, mode: Mode)

  /** The peer, with the address taken from it when there is one. */
  datatype Remote = Remote(ip: Option<Ip>, text: Bytes)

  function Renewed(r: Compiled, a: Answer): Compiled {
    match a
    case Some(addrs) => r.(ips := KeysOf(addrs))
    case None => r
  }

  function RenewedAll(rs: seq<Compiled>, answers: seq<Answer>): (r: seq<Compiled>)
    requires |answers| == |rs|
    ensures |r| == |rs|
  {
    seq(|rs|, i requires 0 <= i < |rs| => Renewed(rs[i], answers[i]))
  }

  // ---------------------------------------------------------------- histories of refreshes

  /** The table after a sequence of refreshes, each with one answer per rule. */
  function AfterRounds(rs: seq<Compiled>, rounds: seq<seq<Answer>>): (r: seq<Compiled>)
    requires forall k | 0 <= k < |rounds| :: |rounds[k]| == |rs|
    ensures |r| == |rs|
  {
    if rounds == [] then rs
    else RenewedAll(AfterRounds(rs, rounds[..|rounds| - 1]), rounds[|rounds| - 1])
  }

  /** The addresses of the last lookup for rule i that succeeded. */
  function LastGood(first: seq<Ip>, rounds: seq<seq<Answer>>, i: nat): seq<Ip>
    requires forall k | 0 <= k < |rounds| :: i < |rounds[k]|
  {
    if rounds == [] then first
    else
      match rounds[|rounds| - 1][i]
      case Some(addrs) => addrs
      case None => LastGood(first, rounds[..|rounds| - 1], i)
  }

  function Initial(rules: seq<Rule>, first: seq<seq<Ip>>): (r: seq<Compiled>)
    requires |first| == |rules|
    ensures |r| == |rules|
  {
    seq(|rules|, i requires 0 <= i < |rules| => Compiled(rules[i], KeysOf(first[i])))
  }

  /** After any sequence of refreshes, every rule has kept its host, secret, mode and place, and its
      addresses are those of its last successful lookup. */
  lemma {:induction false} TableHoldsLastGood(rules: seq<Rule>, first: seq<seq<Ip>>, rounds: seq<seq<Answer>>, i: nat)
    requires |first| == |rules| && i < |rules|
    requires forall k | 0 <= k < |rounds| :: |rounds[k]| == |rules|
    ensures AfterRounds(Initial(rules, first), rounds)[i] == Compiled(rules[i], KeysOf(LastGood(first[i], rounds, i)))
    decreases |rounds|
  {
    if rounds != [] {
      TableHoldsLastGood(rules, first, rounds[..|rounds| - 1], i);
    }
  }

  // ---------------------------------------------------------------- lookup

  /** The index of the first rule that lists the key, or the number of rules. */
  function FirstWith(rs: seq<Compiled>, key: Bytes): (i: nat)
    ensures i <= |rs|
    ensures forall j | 0 <= j < i :: key !in rs[j].ips
    ensures i < |rs| ==> key in rs[i].ips
  {
    if rs == [] || key in rs[0].ips then 0 else 1 + FirstWith(rs[1..], key)
  }

  predicate ListsAddress(addrs: seq<Ip>, ip: Ip) {
    exists k | 0 <= k < |addrs| :: SameAddress(addrs[k], ip)
  }

  lemma KeyInKeysOf(addrs: seq<Ip>, ip: Ip)
    ensures Key16(ip) in KeysOf(addrs) <==> ListsAddress(addrs, ip)
  {
    hide Key16, SameAddress;
    forall k | 0 <= k < |addrs|
      ensures Key16(addrs[k]) == Key16(ip) && Key16(ip) != [] <==> SameAddress(addrs[k], ip)
    {
      SameKeyIffSameAddress(addrs[k], ip);
    }
    if Key16(ip) in KeysOf(addrs) {
      var k :| 0 <= k < |addrs| && Key16(addrs[k]) != [] && Key16(addrs[k]) == Key16(ip);
      assert SameAddress(addrs[k], ip);
    }
    if ListsAddress(addrs, ip) {
      var k :| 0 <= k < |addrs| && SameAddress(addrs[k], ip);
      assert Key16(addrs[k]) in KeysOf(addrs);
    }
  }

  class Provider {
    var rules: seq<Compiled>
    const fallback: Option<Remote -> Result<SecretConfig>>

    constructor (rs: seq<Compiled>, fb: Option<Remote -> Result<SecretConfig>>)
      ensures rules == rs && fallback == fb
    {
      rules, fallback := rs, fb;
    }

    /** Resolves every rule once; a rule without a host or a lookup that fails is fatal. */
    static method New(raw: seq<Rule>, answers: seq<Answer>, fb: Option<Remote -> Result<SecretConfig>>) returns (p: Provider?)
      requires |answers| == |raw|
      ensures p == null <==> exists i | 0 <= i < |raw| :: raw[i].host == [] || answers[i].None?
      ensures p != null ==> fresh(p) && p.fallback == fb && |p.rules| == |raw|
      ensures p != null ==> forall i | 0 <= i < |raw| :: p.rules[i] == Compiled(raw[i], KeysOf(answers[i].value))
    {
      var compiled: seq<Compiled> := [];
      for i := 0 to |raw|
        invariant |compiled| == i
        invariant forall j | 0 <= j < i :: raw[j].host != [] && answers[j].Some? && compiled[j] == Compiled(raw[j], KeysOf(answers[j].value))
      {
        if raw[i].host == [] {
          return null;
        }
        if answers[i].None? {
          return null;
        }
        var keys := IpSet(answers[i].value);
        compiled := compiled + [Compiled(raw[i], keys)];
      }
      p := new Provider(compiled, fb);
    }

    /** Looks every host up again; it fails only when there are rules and no lookup succeeded. */
    method Refresh(answers: seq<Answer>) returns (e: Option<Error>)
      requires |answers| == |rules|
      modifies this`rules
      ensures rules == RenewedAll(old(rules), answers)
      ensures e == if |answers| > 0 && (forall i | 0 <= i < |answers| :: answers[i].None?) then Some(NoServerConfigured) else None
    {
      var current := rules;
      var updated: seq<Compiled> := [];
      var resolved, failed := 0, 0;
      for i := 0 to |current|
        invariant |updated| == i
        invariant forall j | 0 <= j < i :: updated[j] == Renewed(current[j], answers[j])
        invariant resolved + failed == i && 0 <= resolved && 0 <= failed
        invariant resolved == 0 <==> forall j | 0 <= j < i :: answers[j].None?
      {
        if answers[i].None? {
          updated := updated + [current[i]];
          failed := failed + 1;
        } else {
          var keys := IpSet(answers[i].value);
          updated := updated + [current[i].(ips := keys)];
          resolved := resolved + 1;
        }
      }
      rules := updated;
      if resolved == 0 && failed > 0 {
        return Some(NoServerConfigured);
      }
      return None;
    }

    function FallbackFor(remote: Remote): Result<SecretConfig> {
      match fallback
      case Some(fb) => fb(remote)
      case None => Err(NoServerConfigured)
    }

    method Get(remote: Remote) returns (r: Result<SecretConfig>)
      ensures var i := if remote.ip.None? then |rules| else FirstWith(rules, Key16(remote.ip.value));
              r == if i < |rules| then Ok(SecretConfig(rules[i].rule.secret, rules[i].rule.mode))
                   else if fallback.Some? then fallback.value(remote)
                   else Err(NoServerConfigured)
    {
      if remote.ip.None? {
        return FallbackFor(remote);
      }
      var key := Key16(remote.ip.value);
      for i := 0 to |rules|
        invariant forall j | 0 <= j < i :: key !in rules[j].ips
      {
        if key in rules[i].ips {
          assert FirstWith(rules, key) == i;
          return Ok(SecretConfig(rules[i].rule.secret, rules[i].rule.mode));
        }
      }
      return FallbackFor(remote);
    }
  }

  /** After any sequence of refreshes a lookup selects the first rule whose last successful resolution
      contains the client's address, in either form, and no rule when there is none. */
  lemma LookupSelects(rules: seq<Rule>, first: seq<seq<Ip>>, rounds: seq<seq<Answer>>, ip: Ip)
    requires |first| == |rules|
    requires forall k | 0 <= k < |rounds| :: |rounds[k]| == |rules|
    ensures var i := FirstWith(AfterRounds(Initial(rules, first), rounds), Key16(ip));
            && i <= |rules|
            && (forall j | 0 <= j < i :: !ListsAddress(LastGood(first[j], rounds, j), ip))
            && (i < |rules| ==> ListsAddress(LastGood(first[i], rounds, i), ip))
  {
    hide AfterRounds, Key16, KeysOf, LastGood, ListsAddress, FirstWith;
    forall j | 0 <= j < |rules|
      ensures Key16(ip) in AfterRounds(Initial(rules, first), rounds)[j].ips <==> ListsAddress(LastGood(first[j], rounds, j), ip)
    {
      TableHoldsLastGood(rules, first, rounds, j);
      KeyInKeysOf(LastGood(first[j], rounds, j), ip);
    }
  }

  /** Two refreshes that overlap both start from the same table and the later writer wins: the outcome
      is that of doing them one after the other exactly when, for each rule, the later one got an
      answer, the earlier one did not, or what the earlier one found was already there. */
  lemma OverlapHarmlessIff(rs: seq<Compiled>, earlier: seq<Answer>, later: seq<Answer>)
    requires |earlier| == |later| == |rs|
    ensures RenewedAll(rs, later) == RenewedAll(RenewedAll(rs, earlier), later) <==>
            forall i | 0 <= i < |rs| :: later[i].Some? || earlier[i].None? || KeysOf(earlier[i].value) == rs[i].ips
  {
    hide KeysOf;
    var a, b := RenewedAll(rs, later), RenewedAll(RenewedAll(rs, earlier), later);
    forall i | 0 <= i < |rs|
      ensures a[i] == b[i] <==> later[i].Some? || earlier[i].None? || KeysOf(earlier[i].value) == rs[i].ips
    {
    }
    if a == b {
      assert forall i | 0 <= i < |rs| :: a[i] == b[i];
    }
  }
}
