/** How the arguments of a `location` directive become a location (predeal_location), and what it then answers. */
module LocationModifiers {
  import opened Bytes
  import opened LocationSpec
  import opened LocationCompiler
  import opened LocationTree
  import opened LocationTheorems
  import opened LocationServer

  /** A byte of a NUL-terminated argument. */
  function ByteAt(s: Str, i: nat): Byte {
    if i < |s| then s[i] else NUL
  }

  const EXACT_MOD: Str := [EQUALS]
  const NOREGEX_MOD: Str := [CARET, TILDE]
  const REGEX_MOD: Str := [TILDE]
  const CASELESS_MOD: Str := [TILDE, STAR]

  function Static(id: nat, name: Str, exactMatch: bool, noregex: bool): LocConf {
    LocConf(id, name, exactMatch, noregex, false, false)
  }

  function Regex(id: nat, pattern: Str, caseless: bool, compiles: (Str, bool) -> bool): Option<LocConf> {
    if compiles(pattern, caseless) then Some(LocConf(id, pattern, false, false, true, caseless)) else None
  }

  /** `args` is the directive with its one or two arguments; None is a configuration error. */
  function Predeal(args: seq<Str>, id: nat, compiles: (Str, bool) -> bool): Option<LocConf>
    requires |args| == 2 || |args| == 3
  {
    if |args| == 3 then
      var mod, name := args[1], args[2];
      if |mod| == 1 && mod[0] == EQUALS then Some(Static(id, name, true, false))
      else if |mod| == 2 && mod[0] == CARET && mod[1] == TILDE then Some(Static(id, name, false, true))
      else if |mod| == 1 && mod[0] == TILDE then Regex(id, name, false, compiles)
      else if |mod| == 2 && mod[0] == TILDE && mod[1] == STAR then Regex(id, name, true, compiles)
      else None
    else
      var name := args[1];
      if ByteAt(name, 0) == EQUALS then Some(Static(id, name[1..], true, false))
      else if ByteAt(name, 0) == CARET && ByteAt(name, 1) == TILDE then Some(Static(id, name[2..], false, true))
      else if ByteAt(name, 0) == TILDE then
        if ByteAt(name, 1) == STAR then Regex(id, name[2..], true, compiles)
        else Regex(id, name[1..], false, compiles)
      else Some(Static(id, name, false, false))
  }

  predicate IsModifier(mod: Str) {
    mod == EXACT_MOD || mod == NOREGEX_MOD || mod == REGEX_MOD || mod == CASELESS_MOD
  }

  /**
   A modifier glued to the name means what it means as an argument of its own, except "~" glued to a pattern
   that starts with '*', which reads as "~*".
   */
  lemma GluedModifier(directive: Str, mod: Str, name: Str, id: nat, compiles: (Str, bool) -> bool)
    requires IsModifier(mod)
    ensures var glued := Predeal([directive, mod + name], id, compiles);
            if mod == REGEX_MOD && ByteAt(name, 0) == STAR then
              glued == Predeal([directive, CASELESS_MOD, name[1..]], id, compiles)
            else glued == Predeal([directive, mod, name], id, compiles)
  {
    var whole := mod + name;
    assert ByteAt(whole, 0) == mod[0] && whole[|mod|..] == name;
    if |mod| == 2 {
      assert ByteAt(whole, 1) == mod[1];
    } else {
      assert ByteAt(whole, 1) == ByteAt(name, 0);
      if name != [] {
        assert whole[2..] == name[1..];
      }
    }
  }

  // ----- what each form means

  /** No modifier is glued to the name. */
  predicate Bare(name: Str) {
    ByteAt(name, 0) != EQUALS && ByteAt(name, 0) != TILDE && !(ByteAt(name, 0) == CARET && ByteAt(name, 1) == TILDE)
  }

  ghost predicate IsStatic(r: Option<LocConf>, id: nat, name: Str) {
    r.Some? && r.value.id == id && r.value.name == name && !r.value.regex
  }

  ghost predicate IsRegexOf(r: Option<LocConf>, id: nat, pattern: Str) {
    r.Some? ==> r.value.id == id && r.value.name == pattern && r.value.regex
  }

  /** A name without modifier is an inclusive location of that very name. */
  lemma BareMeans(directive: Str, name: Str, id: nat, compiles: (Str, bool) -> bool)
    requires Bare(name)
    ensures var r := Predeal([directive, name], id, compiles);
            IsStatic(r, id, name) && !r.value.exactMatch && !r.value.noregex
  {
  }

  /** What a modifier that is an argument of its own makes of the name; any other is refused. */
  lemma ModifierMeans(directive: Str, mod: Str, name: Str, id: nat, compiles: (Str, bool) -> bool)
    ensures var r := Predeal([directive, mod, name], id, compiles);
            if mod == [EQUALS] then IsStatic(r, id, name) && r.value.exactMatch
            else if mod == [CARET, TILDE] then IsStatic(r, id, name) && !r.value.exactMatch && r.value.noregex
            else if mod == [TILDE] then
              IsRegexOf(r, id, name) && (r.Some? <==> compiles(name, false)) && (r.Some? ==> !r.value.caseless)
            else if mod == [TILDE, STAR] then
              IsRegexOf(r, id, name) && (r.Some? <==> compiles(name, true)) && (r.Some? ==> r.value.caseless)
            else r.None?
  {
  }

  // ----- and what it answers, alone on a server

  /** What FindLocation decides on a server that was built from the declarations. */
  ghost function Decided(decls: seq<LocConf>, uri: Str, exec: (LocConf, Str) -> RegexResult): Decision
    requires NulFreeDecls(decls) && Joined(decls).Some? && Reaches(ForestOf(decls), 0)
  {
    Decide(Search(StaticTreeOf(decls), uri, NoMatch), RegexConfs(decls), uri, exec)
  }

  lemma LoneIsPrescribed(c: LocConf, uri: Str, exec: (LocConf, Str) -> RegexResult)
    requires NulFree(c.name) && |c.name| < 256
    ensures NulFreeDecls([c]) && Joined([c]).Some? && Reaches(ForestOf([c]), 0)
    ensures Prescribes([c], uri, exec, Decided([c], uri, exec))
  {
    hide Prescribes, Search, StaticTreeOf, ForestOf, Joined, Decide, RegexConfs;
    assert AllFitInByte([c]);
    DecisionIsPrescribed([c], uri, exec);
  }

  lemma LoneAnswers(c: LocConf, uri: Str, exec: (LocConf, Str) -> RegexResult)
    requires NulFree(c.name) && |c.name| < 256
    ensures NulFreeDecls([c]) && Joined([c]).Some? && Reaches(ForestOf([c]), 0)
    ensures var d := Decided([c], uri, exec);
            if c.regex then
              d == match exec(c, uri) case Matched => Ok(c) case Failed => Error case NotMatched => Declined
            else if c.exactMatch then d == if uri == c.name then Ok(c) else Declined
            else d == if c.name <= uri then Again(c) else Declined
  {
    LoneIsPrescribed(c, uri, exec);
    hide Decided, NulFreeDecls, Joined, ForestOf, Reaches, RegexesDecide;
    assert [c][0] == c && forall x :: x in [c] <==> x == c;
    LoneRegexes(c, uri, exec);
    assert c.regex ==> !IsExact([c], uri, c) && !IsPrefix([c], uri, c);
    assert !c.regex && c.exactMatch && uri == c.name ==> IsExact([c], uri, c);
    assert !c.regex && !c.exactMatch && c.name <= uri ==> IsLongestPrefix([c], uri, c) && IsPrefix([c], uri, c);
  }

  lemma LoneRegexes(c: LocConf, uri: Str, exec: (LocConf, Str) -> RegexResult)
    ensures forall d, otherwise :: RegexesDecide([c], uri, exec, otherwise, d) <==>
              d == if !c.regex || exec(c, uri) == NotMatched then otherwise
                   else if exec(c, uri) == Matched then Ok(c) else Error
  {
    assert [c][0] == c;
    assert NoneStrikes([c], uri, exec) <==> !c.regex || exec(c, uri) == NotMatched;
    assert Strikes([c], uri, exec, 0) <==> c.regex && exec(c, uri) != NotMatched;
    assert forall i: nat :: Strikes([c], uri, exec, i) ==> i == 0;
  }

  /** A server with the one directive `location /a` answers `/a/b` with it; with `location = /a` it does not. */
  lemma AloneOnServer(directive: Str, name: Str, uri: Str, id: nat, compiles: (Str, bool) -> bool,
                      exec: (LocConf, Str) -> RegexResult)
    requires Bare(name) && NulFree(name) && |name| < 256
    ensures var plain := Predeal([directive, name], id, compiles).value;
            var exact := Predeal([directive, [EQUALS], name], id, compiles).value;
            && NulFreeDecls([plain]) && Joined([plain]).Some? && Reaches(ForestOf([plain]), 0)
            && NulFreeDecls([exact]) && Joined([exact]).Some? && Reaches(ForestOf([exact]), 0)
            && (Decided([plain], uri, exec) == Again(plain) <==> name <= uri)
            && (Decided([exact], uri, exec) == Ok(exact) <==> uri == name)
  {
    hide Decided, NulFreeDecls, Joined, ForestOf, Reaches;
    BareMeans(directive, name, id, compiles);
    ModifierMeans(directive, [EQUALS], name, id, compiles);
    LoneAnswers(Predeal([directive, name], id, compiles).value, uri, exec);
    LoneAnswers(Predeal([directive, [EQUALS], name], id, compiles).value, uri, exec);
  }
}
