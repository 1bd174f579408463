/**
  The flat allow/deny policy (server/users.go) and the meaning of its compiled form
  (cmd/tacacs-cli/server.go, globToRegex).
*/
module FlatPolicy {
  import opened Base
  import opened Text
  import opened Runes
  import opened Regex

  datatype Policy = Policy(allowCommands: seq<Bytes>, denyCommands: seq<Bytes>)

  /** A pattern matches itself and, with a trailing wildcard, every command that starts like it. */
  predicate MatchCmd(pattern: Bytes, cmd: Bytes) {
    pattern == cmd || (Wild(pattern) && ByteStem(pattern) <= cmd)
  }

  predicate AnyMatches(patterns: seq<Bytes>, cmd: Bytes) {
    exists i | 0 <= i < |patterns| :: MatchCmd(patterns[i], cmd)
  }

  /** Deny takes precedence over allow; what is not allowed is denied. */
  predicate Allows(p: Policy, cmd: Bytes) {
    !AnyMatches(p.denyCommands, cmd) && AnyMatches(p.allowCommands, cmd)
  }

  // ---------------------------------------------------------------- the policy, decided directly

  method PolicyAllows(p: Policy, cmd: Bytes) returns (ok: bool)
    ensures ok <==> Allows(p, cmd)
  {
    for i := 0 to |p.denyCommands|
      invariant forall j | 0 <= j < i :: !MatchCmd(p.denyCommands[j], cmd)
    {
      if MatchCmd(p.denyCommands[i], cmd) {
        return false;
      }
    }
    for i := 0 to |p.allowCommands|
      invariant forall j | 0 <= j < i :: !MatchCmd(p.allowCommands[j], cmd)
    {
      if MatchCmd(p.allowCommands[i], cmd) {
        return true;
      }
    }
    return false;
  }

  // ---------------------------------------------------------------- the policy, decided by its expressions

  /** For a glob and a command that are read alike, the glob and its expression agree exactly unless the
      glob has a wildcard, the command matches it, and the part the wildcard stands for contains a
      newline. In any case the expression matches whatever the glob does without such a newline. */
  lemma GlobKeepsMeaning(e: Engine, glob: Bytes, cmd: Bytes)
    requires Faithful(e) && Translatable(glob)
    ensures e.compiles(GlobToRegex(glob)) && GlobToRegex(glob) != []
    ensures var differ := Wild(glob) && MatchCmd(glob, cmd) && LF in cmd[|glob| - 1..];
            && (ReadAlike(glob, cmd) ==> ((e.matches(GlobToRegex(glob), cmd) <==> MatchCmd(glob, cmd)) <==> !differ))
            && (MatchCmd(glob, cmd) ==> (e.matches(GlobToRegex(glob), cmd) <==> !differ))
  {
    hide Decode, Utf8, Covers, GlobToRegex, ReadAlike;
    EngineCovers(e, glob, cmd);
    CoversBytes(glob, cmd);
    if Wild(glob) && glob == cmd {
      assert cmd[|glob| - 1..] == [STAR];
    }
  }

  /** The first disagreement is real: `a *` allows a command that continues on a second line, its regular
      expression does not match it. */
  lemma NewlineDiffers(e: Engine) returns (glob: Bytes, cmd: Bytes)
    requires Faithful(e)
    ensures Translatable(glob) && ReadAlike(glob, cmd)
    ensures MatchCmd(glob, cmd) && !e.matches(GlobToRegex(glob), cmd)
  {
    hide Faithful, GlobToRegex, Utf8, Decode;
    glob, cmd := [97, SPACE, STAR], [97, SPACE, LF];
    assert ByteStem(glob) == [97, SPACE] == cmd[..2];
    assert cmd[2..] == [LF];
    AsciiIsUtf8(glob);
    AsciiIsUtf8(cmd);
    GlobKeepsMeaning(e, glob, cmd);
  }

  /** So is the other: the replacement character matches a byte that is not UTF-8. */
  lemma ReplacementDiffers(e: Engine) returns (glob: Bytes, cmd: Bytes)
    requires Faithful(e)
    ensures Translatable(glob) && !ReadAlike(glob, cmd)
    ensures !MatchCmd(glob, cmd) && e.matches(GlobToRegex(glob), cmd)
  {
    hide Faithful, GlobToRegex, Utf8, Decode;
    glob, cmd := [0xef, 0xbf, 0xbd], [0xff];
    ReplacementRunes(glob, cmd);
    EngineCovers(e, glob, cmd);
  }

  lemma ReplacementRunes(glob: Bytes, cmd: Bytes)
    requires glob == [0xef, 0xbf, 0xbd] && cmd == [0xff]
    ensures Utf8(glob) && !Utf8(cmd) && Decode(glob) == Decode(cmd) == [REPLACEMENT]
  {
    assert Width(glob) == 3 && glob[3..] == [];
    assert Width(cmd) == 0 && cmd[1..] == [];
    assert Utf8([]);
  }

  predicate AllTranslatable(globs: seq<Bytes>) {
    forall i | 0 <= i < |globs| :: Translatable(globs[i])
  }

  predicate TranslatablePolicy(p: Policy) {
    AllTranslatable(p.denyCommands) && AllTranslatable(p.allowCommands)
  }

  predicate AnyCovers(globs: seq<Bytes>, cmd: Bytes) {
    exists i | 0 <= i < |globs| :: Covers(globs[i], cmd)
  }

  /** What deny expressions followed by allow expressions decide. */
  predicate LayerAllows(p: Policy, cmd: Bytes) {
    !AnyCovers(p.denyCommands, cmd) && AnyCovers(p.allowCommands, cmd)
  }

  predicate AllReadAlike(globs: seq<Bytes>, cmd: Bytes) {
    forall i | 0 <= i < |globs| :: ReadAlike(globs[i], cmd)
  }

  /** Globs read alike cover only what they match, and all of it when the command has no newline. */
  lemma AnyCoversMatch(globs: seq<Bytes>, cmd: Bytes)
    requires AllTranslatable(globs) && AllReadAlike(globs, cmd)
    ensures AnyCovers(globs, cmd) ==> AnyMatches(globs, cmd)
    ensures LF !in cmd && AnyMatches(globs, cmd) ==> AnyCovers(globs, cmd)
  {
    hide Covers, ReadAlike, Utf8, Wild;
    if i :| 0 <= i < |globs| && Covers(globs[i], cmd) {
      CoversBytes(globs[i], cmd);
      assert MatchCmd(globs[i], cmd);
    }
    if i :| 0 <= i < |globs| && MatchCmd(globs[i], cmd) {
      CoversBytes(globs[i], cmd);
    }
  }

  /** The expressions of a policy decide a command that is read alike as the policy does, exactly when a
      deny glob that matches also covers it or no allow glob covers it, and without a matching deny glob
      exactly when a matching allow glob covers it. Without a newline this is always so. */
  lemma LayerAgreesIff(p: Policy, cmd: Bytes)
    requires TranslatablePolicy(p) && AllReadAlike(p.denyCommands, cmd) && AllReadAlike(p.allowCommands, cmd)
    ensures (LayerAllows(p, cmd) <==> Allows(p, cmd)) <==>
            if AnyMatches(p.denyCommands, cmd) then AnyCovers(p.denyCommands, cmd) || !AnyCovers(p.allowCommands, cmd)
            else AnyMatches(p.allowCommands, cmd) ==> AnyCovers(p.allowCommands, cmd)
    ensures LF !in cmd ==> (LayerAllows(p, cmd) <==> Allows(p, cmd))
  {
    hide AnyCovers, AnyMatches;
    AnyCoversMatch(p.denyCommands, cmd);
    AnyCoversMatch(p.allowCommands, cmd);
  }
}
