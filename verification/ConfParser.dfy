/**
 The parser as the program runs it: one ngx_conf_t whose fields every nested block changes and puts back, over the
 buffered reader. Every call is proved equal to the parser on file positions.
 */
module ConfParser {
  import opened Bytes
  import opened TokenSpec
  import opened BlockParser
  import opened ConfReader

  datatype Saved = Saved(ctx: nat, moduleType: ModuleType, cmdType: CmdType)

  /** ngx_conf_t: `ctx` stands for the configuration array of the block being parsed. */
  class Conf {
    const env: Env
    const confFile: ConfFile
    var args: seq<Str>
    var ctx: nat
    var moduleType: ModuleType
    var cmdType: CmdType
    var lastCtx: nat
    /** The contexts in which directives were set, one after the other. */
    ghost var ran: seq<nat>

    /** What load_conf sets up before the top-level parse. */
    constructor (env: Env, content: Str)
      ensures confFile.Valid() && fresh(confFile) && fresh(confFile.buffer)
      ensures this.env == env && confFile.file == content && confFile.Here() == 0 && confFile.line == 1
      ensures moduleType == CORE_MODULE && cmdType == MAIN_CONF
    {
      this.env := env;
      confFile := new ConfFile(content);
      args, ctx, lastCtx, ran := [], 0, 0, [];
      moduleType, cmdType := CORE_MODULE, MAIN_CONF;
    }

    function CurrentScope(): Scope
      reads `moduleType, `cmdType
    {
      Scope(moduleType, cmdType)
    }

    /** The walk over the modules and their command lists. */
    method FindCommand(name: Str) returns (cmd: Option<Command>, found: bool)
      ensures cmd == Select(env.modules, name, CurrentScope())
    {
      found := false;
      var i := 0;
      while i < |env.modules|
        invariant 0 <= i <= |env.modules|
        invariant Select(env.modules, name, CurrentScope()) == Select(env.modules[i..], name, CurrentScope())
      {
        var m := env.modules[i];
        assert env.modules[i..][1..] == env.modules[i + 1..];
        var j := 0;
        while j < |m.commands| && m.commands[j].name != []
          invariant 0 <= j <= |m.commands|
          invariant SelectIn(m.commands, name, cmdType) == SelectIn(m.commands[j..], name, cmdType)
                 || (m.kind != CONF_MODULE && m.kind != moduleType)
        {
          var c := m.commands[j];
          assert m.commands[j..][1..] == m.commands[j + 1..];
          if |name| == |c.name| && name == c.name {
            found := true;
            if m.kind == CONF_MODULE || m.kind == moduleType {
              if cmdType in c.allowedIn {
                return Some(c), found;
              }
            }
          }
          j := j + 1;
        }
        i := i + 1;
      }
      cmd := None;
    }

    /** ngx_dynamic_conf_handler on the token just read. */
    method Handler(last: Status) returns (ok: bool, d: Directive)
      requires confFile.Valid()
      modifies this`args, this`ctx, this`moduleType, this`cmdType, this`lastCtx, this`ran
      modifies confFile`pos, confFile`last, confFile`offset, confFile`line, confFile.buffer
      ensures confFile.Valid() && confFile.Here() >= old(confFile.Here())
      ensures ctx == old(ctx) && moduleType == old(moduleType) && cmdType == old(cmdType)
      ensures var cmd := Admit(env, old(CurrentScope()), old(args), last);
              if cmd.None? then !ok
              else if cmd.value.block.None? then
                && ok && d == Simple(old(args))
                && confFile.Here() == old(confFile.Here()) && confFile.line == old(confFile.line)
              else
                var inner := ParseFrom(env, confFile.file, old(confFile.Here()), old(confFile.line),
                                       Enter(old(CurrentScope()), cmd.value.block.value), false);
                if inner.Failed? || !env.close(cmd.value, old(args), inner.tree) then !ok
                else
                  && ok && d == Block(old(args), inner.tree)
                  && confFile.Here() == inner.pos && confFile.line == inner.line
      ensures ok ==> lastCtx == SetIn([d], ctx, old(lastCtx)).1 && ran == old(ran) + SetIn([d], ctx, old(lastCtx)).0
      decreases |confFile.file| - confFile.Here(), 2
    {
      hide ParseFrom, Select, SetIn;
      d := Simple(args);
      if args == [] {
        return false, d;
      }
      var cmd, found := FindCommand(args[0]);
      if cmd.None? {
        return false, d;
      }
      if cmd.value.block.None? && last != SEMICOLON_END {
        return false, d;
      }
      if cmd.value.block.Some? && last != BLOCK_START {
        return false, d;
      }
      if !ArgsOk(cmd.value.args, |args|) || !env.set_(cmd.value, args) {
        return false, d;
      }
      ran := ran + [ctx];
      SetInBlock(args, ctx, lastCtx);
      if cmd.value.block.None? {
        return true, d;
      }
      ok, d := ParseBlock(cmd.value);
    }

    /** A block command: its own context while the block is parsed, the caller's afterwards, whatever happens. */
    method ParseBlock(cmd: Command) returns (ok: bool, d: Directive)
      requires confFile.Valid() && cmd.block.Some?
      modifies this`args, this`ctx, this`moduleType, this`cmdType, this`lastCtx, this`ran
      modifies confFile`pos, confFile`last, confFile`offset, confFile`line, confFile.buffer
      ensures confFile.Valid() && confFile.Here() >= old(confFile.Here())
      ensures ctx == old(ctx) && moduleType == old(moduleType) && cmdType == old(cmdType)
      ensures var inner := ParseFrom(env, confFile.file, old(confFile.Here()), old(confFile.line),
                                     Enter(old(CurrentScope()), cmd.block.value), false);
              if inner.Failed? || !env.close(cmd, old(args), inner.tree) then !ok
              else
                && ok && d == Block(old(args), inner.tree)
                && confFile.Here() == inner.pos && confFile.line == inner.line
                && var (set_, last) := SetIn(inner.tree, old(lastCtx) + 1, old(lastCtx) + 1);
                   lastCtx == last && ran == old(ran) + set_
      decreases |confFile.file| - confFile.Here(), 1
    {
      hide ParseFrom, SetIn;
      var given := args;
      var pcf := Saved(ctx, moduleType, cmdType);
      lastCtx := lastCtx + 1;
      ctx := lastCtx;
      if cmd.block.value.moduleType.Some? {
        moduleType := cmd.block.value.moduleType.value;
      }
      cmdType := cmd.block.value.cmdType;
      var content;
      ok, content := Parse(false);
      d := Block(given, content);
      ok := ok && env.close(cmd, given, content);
      ctx, moduleType, cmdType := pcf.ctx, pcf.moduleType, pcf.cmdType;
    }

    /** ngx_dynamic_conf_parse. */
    method Parse(init: bool) returns (ok: bool, tree: seq<Directive>)
      requires confFile.Valid()
      modifies this`args, this`ctx, this`moduleType, this`cmdType, this`lastCtx, this`ran
      modifies confFile`pos, confFile`last, confFile`offset, confFile`line, confFile.buffer
      ensures confFile.Valid() && confFile.Here() >= old(confFile.Here())
      ensures ctx == old(ctx) && moduleType == old(moduleType) && cmdType == old(cmdType)
      ensures var r := ParseFrom(env, confFile.file, old(confFile.Here()), old(confFile.line),
                                 old(CurrentScope()), init);
              && ok == r.Parsed?
              && (ok ==> tree == r.tree && confFile.Here() == r.pos && confFile.line == r.line)
      ensures ok ==> lastCtx == SetIn(tree, ctx, old(lastCtx)).1 && ran == old(ran) + SetIn(tree, ctx, old(lastCtx)).0
      decreases |confFile.file| - confFile.Here(), 0
    {
      hide ParseFrom, Admit, TokenSpec.ReadToken, SetIn;
      tree := [];
      SetInNothing(ctx, lastCtx);
      ghost var scope := CurrentScope();
      ghost var r := ParseFrom(env, confFile.file, confFile.Here(), confFile.line, scope, init);
      AfterNothing(r);
      while true
        invariant confFile.Valid() && confFile.Here() >= old(confFile.Here())
        invariant ctx == old(ctx) && moduleType == old(moduleType) && cmdType == old(cmdType)
        invariant lastCtx == SetIn(tree, ctx, old(lastCtx)).1 && ran == old(ran) + SetIn(tree, ctx, old(lastCtx)).0
        invariant r == After(tree, ParseFrom(env, confFile.file, confFile.Here(), confFile.line, scope, init))
        decreases |confFile.file| - confFile.Here()
      {
        ParseUnfolds(env, confFile.file, confFile.Here(), confFile.line, scope, init);
        var rc;
        rc, args := confFile.ReadToken();
        AfterEnd(tree, confFile.Here(), confFile.line);
        if rc == ERROR {
          return false, tree;
        }
        if rc == BLOCK_DONE {
          return !init, tree;
        }
        if rc == FILE_DONE {
          return init, tree;
        }
        var d;
        ok, d := Handler(rc);
        if !ok {
          return false, tree;
        }
        AfterMore(tree, d, ParseFrom(env, confFile.file, confFile.Here(), confFile.line, scope, init));
        SetInMore(tree, d, ctx, old(lastCtx));
        tree := tree + [d];
      }
    }
  }

  /**
   The contexts in which the directives of a tree are set, in order, when it is parsed in `ctx` and `last` was made
   last: a block is set in the context around it, and what is in it in one that is made for it.
   */
  ghost function SetIn(tree: seq<Directive>, ctx: nat, last: nat): (seq<nat>, nat)
    decreases tree
  {
    if tree == [] then ([], last)
    else
      match tree[0]
      case Simple(_) =>
        var (more, end) := SetIn(tree[1..], ctx, last);
        ([ctx] + more, end)
      case Block(_, content) =>
        var (inner, mid) := SetIn(content, last + 1, last + 1);
        var (more, end) := SetIn(tree[1..], ctx, mid);
        ([ctx] + inner + more, end)
  }

  lemma SetInNothing(ctx: nat, last: nat)
    ensures SetIn([], ctx, last) == ([], last)
  {
  }

  lemma SetInBlock(args: seq<Str>, ctx: nat, last: nat)
    ensures SetIn([Simple(args)], ctx, last) == ([ctx], last)
    ensures forall content :: SetIn([Block(args, content)], ctx, last) ==
              ([ctx] + SetIn(content, last + 1, last + 1).0, SetIn(content, last + 1, last + 1).1)
  {
    assert [Simple(args)][1..] == [] && [ctx] + [] == [ctx];
    forall content ensures SetIn([Block(args, content)], ctx, last) ==
              ([ctx] + SetIn(content, last + 1, last + 1).0, SetIn(content, last + 1, last + 1).1)
    {
      var inner := SetIn(content, last + 1, last + 1).0;
      assert [Block(args, content)][1..] == [] && [ctx] + inner + [] == [ctx] + inner;
    }
  }

  lemma {:induction false} SetInMore(tree: seq<Directive>, d: Directive, ctx: nat, last: nat)
    ensures var (set_, mid) := SetIn(tree, ctx, last);
            var (more, end) := SetIn([d], ctx, mid);
            SetIn(tree + [d], ctx, last) == (set_ + more, end)
    decreases tree
  {
    if tree == [] {
      assert [] + [d] == [d] && [] + SetIn([d], ctx, last).0 == SetIn([d], ctx, last).0;
    } else {
      assert (tree + [d])[0] == tree[0] && (tree + [d])[1..] == tree[1..] + [d];
      match tree[0]
      case Simple(_) =>
        SetInMore(tree[1..], d, ctx, last);
        var (set_, mid) := SetIn(tree[1..], ctx, last);
        assert [ctx] + (set_ + SetIn([d], ctx, mid).0) == [ctx] + set_ + SetIn([d], ctx, mid).0;
      case Block(_, content) =>
        var (inner, mid) := SetIn(content, last + 1, last + 1);
        SetInMore(tree[1..], d, ctx, mid);
        var (set_, end) := SetIn(tree[1..], ctx, mid);
        assert [ctx] + inner + (set_ + SetIn([d], ctx, end).0) == [ctx] + inner + set_ + SetIn([d], ctx, end).0;
    }
  }

  /** What is inside a block is never set in a context from outside it: the numbers below it are all new. */
  lemma {:induction false} SetInFresh(tree: seq<Directive>, ctx: nat, last: nat)
    ensures var (set_, end) := SetIn(tree, ctx, last);
            last <= end && forall i :: 0 <= i < |set_| ==> set_[i] == ctx || last < set_[i] <= end
    decreases tree
  {
    if tree != [] {
      match tree[0]
      case Simple(_) => SetInFresh(tree[1..], ctx, last);
      case Block(_, content) =>
        SetInFresh(content, last + 1, last + 1);
        SetInFresh(tree[1..], ctx, SetIn(content, last + 1, last + 1).1);
    }
  }

  /** A block is set in the context around it, and everything in it in contexts that were not there before. */
  lemma BlockIsApart(args: seq<Str>, content: seq<Directive>, ctx: nat, last: nat)
    requires ctx <= last
    ensures var set_ := SetIn([Block(args, content)], ctx, last).0;
            set_ != [] && set_[0] == ctx && forall i :: 0 < i < |set_| ==> set_[i] > last
  {
    SetInBlock(args, ctx, last);
    SetInFresh(content, last + 1, last + 1);
    hide SetIn;
  }

  ghost function After(front: seq<Directive>, r: ParseResult): ParseResult {
    match r
    case Failed => Failed
    case Parsed(tree, pos, line) => Parsed(front + tree, pos, line)
  }

  lemma AfterNothing(r: ParseResult)
    ensures After([], r) == r
  {
    if r.Parsed? {
      assert [] + r.tree == r.tree;
    }
  }

  lemma AfterEnd(front: seq<Directive>, pos: nat, line: nat)
    ensures After(front, Parsed([], pos, line)) == Parsed(front, pos, line)
  {
    assert front + [] == front;
  }

  lemma AfterMore(front: seq<Directive>, d: Directive, r: ParseResult)
    ensures After(front, Prepend(d, r)) == After(front + [d], r)
  {
    if r.Parsed? {
      assert front + ([d] + r.tree) == front + [d] + r.tree;
    }
  }
}
