/**
 Which directives run: said of a directive by itself, with indices into the table and counts of arguments, and proved
 of every directive of a parsed tree.
 */
module DirectiveRules {
  import opened Bytes
  import opened TokenSpec
  import opened BlockParser

  // ----- which command a name stands for

  /** The j-th command of the i-th module has the name and is allowed here; no empty name ends its list before. */
  ghost predicate Eligible(modules: seq<Module>, scope: Scope, name: Str, i: nat, j: nat) {
    && i < |modules| && (modules[i].kind == CONF_MODULE || modules[i].kind == scope.moduleType)
    && EligibleIn(modules[i].commands, scope.cmdType, name, j)
  }

  ghost predicate EligibleIn(commands: seq<Command>, cmdType: CmdType, name: Str, j: nat) {
    && j < |commands| && commands[j].name == name && cmdType in commands[j].allowedIn
    && forall k :: 0 <= k <= j ==> commands[k].name != []
  }

  /** It is the first one, module by module. */
  ghost predicate FirstEligible(modules: seq<Module>, scope: Scope, name: Str, i: nat, j: nat) {
    && Eligible(modules, scope, name, i, j)
    && forall k: nat, l: nat :: Eligible(modules, scope, name, k, l) ==> i < k || (i == k && j <= l)
  }

  ghost predicate StandsFor(modules: seq<Module>, scope: Scope, name: Str, cmd: Command) {
    exists i: nat, j: nat :: FirstEligible(modules, scope, name, i, j) && cmd == modules[i].commands[j]
  }

  lemma {:induction false} SelectInIs(commands: seq<Command>, name: Str, cmdType: CmdType)
    ensures match SelectIn(commands, name, cmdType)
            case None => forall j: nat :: !EligibleIn(commands, cmdType, name, j)
            case Some(cmd) =>
              exists j: nat ::
                && EligibleIn(commands, cmdType, name, j) && cmd == commands[j]
                && forall l: nat :: EligibleIn(commands, cmdType, name, l) ==> j <= l
    decreases commands
  {
    if commands != [] && commands[0].name != [] {
      var rest := commands[1..];
      SelectInIs(rest, name, cmdType);
      forall j: nat ensures EligibleIn(commands, cmdType, name, j + 1) <==> EligibleIn(rest, cmdType, name, j) {
        assert forall k :: 0 < k < |commands| ==> commands[k] == rest[k - 1];
        assert forall k :: 0 <= k < |rest| ==> rest[k] == commands[k + 1];
      }
      assert forall l: nat :: l > 0 && EligibleIn(commands, cmdType, name, l) ==>
          EligibleIn(rest, cmdType, name, l - 1);
      if commands[0].name == name && cmdType in commands[0].allowedIn {
        assert EligibleIn(commands, cmdType, name, 0);
      } else if j: nat :| EligibleIn(rest, cmdType, name, j)
                          && SelectIn(rest, name, cmdType) == Some(rest[j])
                          && forall l: nat :: EligibleIn(rest, cmdType, name, l) ==> j <= l {
        assert EligibleIn(commands, cmdType, name, j + 1) && commands[j + 1] == rest[j];
      }
    }
  }

  /** The command that is found for a name is the first that is eligible; there is none exactly if none is. */
  lemma {:induction false} SelectIs(modules: seq<Module>, name: Str, scope: Scope)
    ensures match Select(modules, name, scope)
            case None => forall i: nat, j: nat :: !Eligible(modules, scope, name, i, j)
            case Some(cmd) => StandsFor(modules, scope, name, cmd)
    decreases modules
  {
    hide SelectIn;
    if modules != [] {
      var rest := modules[1..];
      SelectIs(rest, name, scope);
      SelectInIs(modules[0].commands, name, scope.cmdType);
      forall i: nat, j: nat ensures Eligible(modules, scope, name, i + 1, j) <==> Eligible(rest, scope, name, i, j) {
        assert i < |rest| ==> modules[i + 1] == rest[i];
      }
      assert forall i: nat, j: nat :: i > 0 && Eligible(modules, scope, name, i, j) ==>
          Eligible(rest, scope, name, i - 1, j);
      var here := if modules[0].kind == CONF_MODULE || modules[0].kind == scope.moduleType
                  then SelectIn(modules[0].commands, name, scope.cmdType) else None;
      if here.Some? {
        var j: nat :| j < |modules[0].commands| && EligibleIn(modules[0].commands, scope.cmdType, name, j)
                      && here.value == modules[0].commands[j]
                      && forall l: nat :: EligibleIn(modules[0].commands, scope.cmdType, name, l) ==> j <= l;
        assert FirstEligible(modules, scope, name, 0, j);
      } else if Select(rest, name, scope).Some? {
        var i: nat, j: nat :| FirstEligible(rest, scope, name, i, j) && i < |rest| && j < |rest[i].commands|
                              && Select(rest, name, scope).value == rest[i].commands[j];
        assert FirstEligible(modules, scope, name, i + 1, j) && modules[i + 1] == rest[i];
      }
    }
  }

  lemma StandsForOne(modules: seq<Module>, scope: Scope, name: Str, a: Command, b: Command)
    requires StandsFor(modules, scope, name, a) && StandsFor(modules, scope, name, b)
    ensures a == b
  {
    hide Eligible;
  }

  // ----- how many arguments

  /** `k` arguments behind the name are in order. */
  ghost predicate Counts(rule: ArgRule, k: nat) {
    match rule
    case ANY => true
    case FLAG => k == 1
    case ONE_MORE => k >= 1
    case TWO_MORE => k >= 2
    case COUNTS(allowed) => k < 8 && k in allowed
  }

  /** What the table says of a directive, but for its count: which command it is, and how it has to end. */
  ghost predicate Placed(env: Env, scope: Scope, args: seq<Str>, ended: Status, cmd: Command) {
    && args != [] && StandsFor(env.modules, scope, args[0], cmd)
    && ended == if cmd.block.Some? then BLOCK_START else SEMICOLON_END
  }

  /**
   A directive is let through as a command if and only if its name stands for it, it ends as the command has to, the
   number of its arguments is in order and the command's own code accepts it.
   */
  lemma AdmitIs(env: Env, scope: Scope, args: seq<Str>, ended: Status, cmd: Command)
    requires ended == SEMICOLON_END || ended == BLOCK_START
    ensures Admit(env, scope, args, ended) == Some(cmd) <==>
              Placed(env, scope, args, ended, cmd) && Counts(cmd.args, |args| - 1) && env.set_(cmd, args)
  {
    hide Select, StandsFor;
    if args != [] {
      SelectIs(env.modules, args[0], scope);
      FoundIfStands(env.modules, scope, args[0], cmd);
    }
  }

  lemma FoundIfStands(modules: seq<Module>, scope: Scope, name: Str, cmd: Command)
    ensures Select(modules, name, scope) == Some(cmd) <==> StandsFor(modules, scope, name, cmd)
  {
    SelectIs(modules, name, scope);
    if StandsFor(modules, scope, name, cmd) && Select(modules, name, scope).Some? {
      StandsForOne(modules, scope, name, cmd, Select(modules, name, scope).value);
    }
    hide Select, Eligible;
  }

  /** What is known, in place, rightly ended and accepted by its own code is refused exactly for its count. */
  lemma RefusedForCount(env: Env, scope: Scope, args: seq<Str>, ended: Status, cmd: Command)
    requires Placed(env, scope, args, ended, cmd) && env.set_(cmd, args)
    ensures Admit(env, scope, args, ended).None? <==> !Counts(cmd.args, |args| - 1)
  {
    hide Placed, Counts;
    PlacedEnds(env, scope, args, ended, cmd);
    AdmitIs(env, scope, args, ended, cmd);
    if Admit(env, scope, args, ended).Some? {
      var other := Admit(env, scope, args, ended).value;
      AdmitIs(env, scope, args, ended, other);
      PlacedOne(env, scope, args, ended, cmd, other);
    }
    hide Admit;
  }

  lemma PlacedEnds(env: Env, scope: Scope, args: seq<Str>, ended: Status, cmd: Command)
    requires Placed(env, scope, args, ended, cmd)
    ensures ended == SEMICOLON_END || ended == BLOCK_START
  {
  }

  lemma PlacedOne(env: Env, scope: Scope, args: seq<Str>, ended: Status, a: Command, b: Command)
    requires Placed(env, scope, args, ended, a) && Placed(env, scope, args, ended, b)
    ensures a == b
  {
    StandsForOne(env.modules, scope, args[0], a, b);
  }

  // ----- every directive of a tree

  /** The scope in which a command's block is parsed: its own command type, and its module type if it names one. */
  ghost predicate Opens(scope: Scope, inner: Inner, s: Scope) {
    && s.cmdType == inner.cmdType
    && (inner.moduleType.None? ==> s.moduleType == scope.moduleType)
    && (inner.moduleType.Some? ==> s.moduleType == inner.moduleType.value)
  }

  /** Every directive runs as the command that its name stands for, and so does every one of its block. */
  ghost predicate Runs(env: Env, scope: Scope, tree: seq<Directive>)
    decreases tree
  {
    forall i :: 0 <= i < |tree| ==>
      var d := tree[i];
      exists cmd ::
        && Placed(env, scope, d.args, if d.Block? then BLOCK_START else SEMICOLON_END, cmd)
        && Counts(cmd.args, |d.args| - 1) && env.set_(cmd, d.args)
        && (d.Block? ==>
              && cmd.block.Some? && env.close(cmd, d.args, d.content)
              && exists s :: Opens(scope, cmd.block.value, s) && Runs(env, s, d.content))
  }

  lemma {:induction false} AcceptsIffRuns(env: Env, scope: Scope, tree: seq<Directive>)
    ensures Accepts(env, scope, tree) <==> Runs(env, scope, tree)
    decreases tree
  {
    hide Accepts, Admit, Counts, StandsFor;
    if tree != [] {
      var d, rest := tree[0], tree[1..];
      var ended := if d.Block? then BLOCK_START else SEMICOLON_END;
      AcceptsIffRuns(env, scope, rest);
      RunsFirst(env, scope, tree);
      AcceptsFirst(env, scope, tree);
      if d.Block? {
        forall inner, s | Opens(scope, inner, s)
          ensures s == Enter(scope, inner) && (Accepts(env, s, d.content) <==> Runs(env, s, d.content))
        {
          AcceptsIffRuns(env, s, d.content);
        }
      }
      FirstIff(env, scope, d);
    } else {
      AcceptsNone(env, scope);
    }
  }

  lemma AcceptsNone(env: Env, scope: Scope)
    ensures Accepts(env, scope, [])
  {
  }

  lemma AcceptsFirst(env: Env, scope: Scope, tree: seq<Directive>)
    requires tree != []
    ensures Accepts(env, scope, tree) <==> AcceptsOne(env, scope, tree[0]) && Accepts(env, scope, tree[1..])
  {
    hide Select, ArgsOk;
  }

  /** Accepts, of one directive. */
  ghost predicate AcceptsOne(env: Env, scope: Scope, d: Directive) {
    var cmd := Admit(env, scope, d.args, if d.Block? then BLOCK_START else SEMICOLON_END);
    && cmd.Some?
    && (d.Block? ==>
          && cmd.value.block.Some? && env.close(cmd.value, d.args, d.content)
          && Accepts(env, Enter(scope, cmd.value.block.value), d.content))
  }

  lemma FirstIff(env: Env, scope: Scope, d: Directive)
    requires d.Block? ==>
               forall inner, s :: Opens(scope, inner, s) ==>
                 s == Enter(scope, inner) && (Accepts(env, s, d.content) <==> Runs(env, s, d.content))
    ensures AcceptsOne(env, scope, d) <==> RunsOne(env, scope, d)
  {
    hide Admit, Counts, StandsFor, Accepts, Runs;
    var ended := if d.Block? then BLOCK_START else SEMICOLON_END;
    forall cmd | d.args != []
      ensures Admit(env, scope, d.args, ended) == Some(cmd) <==>
                Placed(env, scope, d.args, ended, cmd) && Counts(cmd.args, |d.args| - 1) && env.set_(cmd, d.args)
    {
      AdmitIs(env, scope, d.args, ended, cmd);
    }
    NoNameNoCommand(env, scope, d.args, ended);
    assert forall inner :: Opens(scope, inner, Enter(scope, inner));
    if AcceptsOne(env, scope, d) {
      var cmd := Admit(env, scope, d.args, ended).value;
      assert Placed(env, scope, d.args, ended, cmd);
      if d.Block? {
        assert Opens(scope, cmd.block.value, Enter(scope, cmd.block.value));
      }
    }
  }

  lemma NoNameNoCommand(env: Env, scope: Scope, args: seq<Str>, ended: Status)
    ensures args == [] ==> Admit(env, scope, args, ended).None?
  {
  }

  /** Runs, of one directive. */
  ghost predicate RunsOne(env: Env, scope: Scope, d: Directive) {
    exists cmd ::
      && Placed(env, scope, d.args, if d.Block? then BLOCK_START else SEMICOLON_END, cmd)
      && Counts(cmd.args, |d.args| - 1) && env.set_(cmd, d.args)
      && (d.Block? ==>
            && cmd.block.Some? && env.close(cmd, d.args, d.content)
            && exists s :: Opens(scope, cmd.block.value, s) && Runs(env, s, d.content))
  }

  lemma RunsFirst(env: Env, scope: Scope, tree: seq<Directive>)
    requires tree != []
    ensures Runs(env, scope, tree) <==> RunsOne(env, scope, tree[0]) && Runs(env, scope, tree[1..])
  {
    hide Placed, Counts, Opens;
    var rest := tree[1..];
    assert forall i :: 0 < i < |tree| ==> tree[i] == rest[i - 1];
    assert forall i :: 0 <= i < |rest| ==> rest[i] == tree[i + 1];
  }

  /** Main result: of a file that parses every directive, at any depth, runs by the rules of the table. */
  lemma ParsedRuns(env: Env, file: Str, scope: Scope)
    ensures var r := ParseFrom(env, file, 0, 1, scope, true); r.Parsed? ==> Runs(env, scope, r.tree)
  {
    ParsedIsRead(env, file, 0, 1, scope, true);
    var r := ParseFrom(env, file, 0, 1, scope, true);
    if r.Parsed? {
      AcceptsIffRuns(env, scope, r.tree);
    }
  }

  /** And a parse yields a tree if and only if all its directives run and its tokens were there to be read. */
  lemma ParsesIffRuns(env: Env, file: Str, pos: nat, line: nat, scope: Scope, top: bool,
                      tree: seq<Directive>, p2: nat, l2: nat)
    requires pos <= |file|
    ensures ParseFrom(env, file, pos, line, scope, top) == Parsed(tree, p2, l2) <==>
              Runs(env, scope, tree) && Reads(file, pos, line, Linear(tree) + [EndToken(top)], p2, l2)
  {
    ParsesExactly(env, file, pos, line, scope, top, tree, p2, l2);
    AcceptsIffRuns(env, scope, tree);
  }
}
