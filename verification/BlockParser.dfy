/**
 The recursive block parser over the tokenizer: which directive trees a file parses to under a directive table,
 and that printing a tree and parsing it gives the tree back.
 */
module BlockParser {
  import opened Bytes
  import opened TokenSpec
  import opened TokenText
  import opened TokenPrint

  datatype ModuleType = CORE_MODULE | CONF_MODULE | HTTP_MODULE
  datatype CmdType = MAIN_CONF | HTTP_MAIN_CONF | HTTP_SRV_CONF | HTTP_LOC_CONF

  /** NGX_CONF_ANY, NGX_CONF_FLAG, NGX_CONF_1MORE, NGX_CONF_2MORE, or a mask of NOARGS, TAKE1 .. TAKE7. */
  datatype ArgRule = ANY | FLAG | ONE_MORE | TWO_MORE | COUNTS(allowed: set<nat>)

  const MAX_ARGS: nat := 8

  /** Where a block's content is parsed; None leaves the caller's module type. */
  datatype Inner = Inner(moduleType: Option<ModuleType>, cmdType: CmdType)

  /** ngx_command_t; a command with NGX_CONF_BLOCK parses its block under `block`. */
  datatype Command = Command(name: Str, allowedIn: set<CmdType>, args: ArgRule, block: Option<Inner>)

  datatype Module = Module(kind: ModuleType, commands: seq<Command>)

  datatype Scope = Scope(moduleType: ModuleType, cmdType: CmdType)

  /** A directive of the tree, ended by ';' or with a block. */
  datatype Directive = Simple(args: seq<Str>) | Block(args: seq<Str>, content: seq<Directive>)

  /**
   The directive table, and what the directives' own code may refuse: `set` before a block is parsed (or on a
   simple directive), `close` after it.
   */
  datatype Env = Env(modules: seq<Module>,
                     set_: (Command, seq<Str>) -> bool,
                     close: (Command, seq<Str>, seq<Directive>) -> bool)

  /** The first command of the table with this name that is allowed here; an empty name ends a module's list. */
  function SelectIn(commands: seq<Command>, name: Str, cmdType: CmdType): Option<Command> {
    if commands == [] || commands[0].name == [] then None
    else if commands[0].name == name && cmdType in commands[0].allowedIn then Some(commands[0])
    else SelectIn(commands[1..], name, cmdType)
  }

  function Select(modules: seq<Module>, name: Str, scope: Scope): Option<Command> {
    if modules == [] then None
    else
      var here := if modules[0].kind == CONF_MODULE || modules[0].kind == scope.moduleType
                  then SelectIn(modules[0].commands, name, scope.cmdType) else None;
      if here.Some? then here else Select(modules[1..], name, scope)
  }

  predicate ArgsOk(rule: ArgRule, nelts: nat) {
    match rule
    case ANY => true
    case FLAG => nelts == 2
    case ONE_MORE => nelts >= 2
    case TWO_MORE => nelts >= 3
    case COUNTS(allowed) => 1 <= nelts <= MAX_ARGS && nelts - 1 in allowed
  }

  function Enter(scope: Scope, inner: Inner): Scope {
    Scope(if inner.moduleType.Some? then inner.moduleType.value else scope.moduleType, inner.cmdType)
  }

  /** The command a directive runs, if the handler lets it through to the command's own code. */
  function Admit(env: Env, scope: Scope, args: seq<Str>, last: Status): Option<Command> {
    if args == [] then None
    else match Select(env.modules, args[0], scope)
         case None => None
         case Some(cmd) =>
           if cmd.block.None? && last != SEMICOLON_END then None
           else if cmd.block.Some? && last != BLOCK_START then None
           else if !ArgsOk(cmd.args, |args|) then None
           else if !env.set_(cmd, args) then None
           else Some(cmd)
  }

  datatype ParseResult = Parsed(tree: seq<Directive>, pos: nat, line: nat) | Failed

  lemma {:induction false} TokenMoves(file: Str, p: nat, s: Scan, limit: nat)
    requires s.start <= p <= |file| && limit > 0
    ensures var t := Scanned(file, p, s, limit);
            t.status != FILE_DONE && t.status != ERROR ==> t.pos > p
    decreases |file| - p
  {
    hide Step, Scanned;
    ScannedByte(file, p, s, limit);
    if p < |file| && p - s.start != limit {
      match Step(file, s, p)
      case More(s') => TokenMoves(file, p + 1, s', limit);
      case Stop(_, _) =>
    }
  }

  /** ngx_dynamic_conf_parse from a position; `top` is its `init` argument. */
  function ParseFrom(env: Env, file: Str, pos: nat, line: nat, scope: Scope, top: bool): (r: ParseResult)
    requires pos <= |file|
    ensures r.Parsed? ==> pos <= r.pos <= |file|
    decreases |file| - pos
  {
    var t := ReadToken(file, pos, line, BUFFER);
    TokenMoves(file, pos, Begin(pos, line), BUFFER);
    if t.status == ERROR then Failed
    else if t.status == BLOCK_DONE then
      if top then Failed else Parsed([], t.pos, t.line)
    else if t.status == FILE_DONE then
      if top then Parsed([], t.pos, t.line) else Failed
    else
      var cmd := Admit(env, scope, t.args, t.status);
      if cmd.None? then Failed
      else if cmd.value.block.None? then
        Prepend(Simple(t.args), ParseFrom(env, file, t.pos, t.line, scope, top))
      else
        var inner := ParseFrom(env, file, t.pos, t.line, Enter(scope, cmd.value.block.value), false);
        if inner.Failed? || !env.close(cmd.value, t.args, inner.tree) then Failed
        else Prepend(Block(t.args, inner.tree), ParseFrom(env, file, inner.pos, inner.line, scope, top))
  }

  function Prepend(d: Directive, r: ParseResult): ParseResult {
    match r
    case Failed => Failed
    case Parsed(tree, pos, line) => Parsed([d] + tree, pos, line)
  }

  /** ParseFrom, unfolded once. */
  lemma ParseUnfolds(env: Env, file: Str, pos: nat, line: nat, scope: Scope, top: bool)
    requires pos <= |file|
    ensures var t := ReadToken(file, pos, line, BUFFER);
            var r := ParseFrom(env, file, pos, line, scope, top);
            if t.status == ERROR then r == Failed
            else if t.status == BLOCK_DONE then r == if top then Failed else Parsed([], t.pos, t.line)
            else if t.status == FILE_DONE then r == if top then Parsed([], t.pos, t.line) else Failed
            else
              var cmd := Admit(env, scope, t.args, t.status);
              && t.pos > pos
              && if cmd.None? then r == Failed
                 else if cmd.value.block.None? then
                   r == Prepend(Simple(t.args), ParseFrom(env, file, t.pos, t.line, scope, top))
                 else
                   var inner := ParseFrom(env, file, t.pos, t.line, Enter(scope, cmd.value.block.value), false);
                   if inner.Failed? || !env.close(cmd.value, t.args, inner.tree) then r == Failed
                   else r == Prepend(Block(t.args, inner.tree),
                                     ParseFrom(env, file, inner.pos, inner.line, scope, top))
  {
    TokenMoves(file, pos, Begin(pos, line), BUFFER);
  }

  // ----- trees, token streams, text

  /** The tree is one the directive table and the directives' own code accept. */
  predicate Accepts(env: Env, scope: Scope, tree: seq<Directive>)
    decreases tree
  {
    tree == [] ||
    (var d := tree[0];
     var cmd := Admit(env, scope, d.args, if d.Block? then BLOCK_START else SEMICOLON_END);
     && cmd.Some?
     && (d.Block? ==>
           && Accepts(env, Enter(scope, cmd.value.block.value), d.content)
           && env.close(cmd.value, d.args, d.content))
     && Accepts(env, scope, tree[1..]))
  }

  type Stream = seq<(Status, seq<Str>)>

  /** The tokens a tree stands for. */
  function Linear(tree: seq<Directive>): Stream
    decreases tree
  {
    if tree == [] then []
    else
      (match tree[0]
       case Simple(args) => [(SEMICOLON_END, args)]
       case Block(args, content) => [(BLOCK_START, args)] + Linear(content) + [(BLOCK_DONE, [])])
      + Linear(tree[1..])
  }

  function EndToken(top: bool): (Status, seq<Str>) {
    (if top then FILE_DONE else BLOCK_DONE, [])
  }

  /** Successive calls of the tokenizer return `toks` and end up at `pos'`, on `line'`. */
  ghost predicate Reads(file: Str, pos: nat, line: nat, toks: Stream, pos': nat, line': nat)
    requires pos <= |file|
    decreases |toks|
  {
    if toks == [] then pos' == pos && line' == line
    else
      var t := ReadToken(file, pos, line, BUFFER);
      (t.status, t.args) == toks[0] && Reads(file, t.pos, t.line, toks[1..], pos', line')
  }

  lemma {:induction false} ReadsConcat(file: Str, pos: nat, line: nat, a: Stream, b: Stream,
                                       p1: nat, l1: nat, p2: nat, l2: nat)
    requires pos <= |file| && p1 <= |file|
    requires Reads(file, pos, line, a, p1, l1) && Reads(file, p1, l1, b, p2, l2)
    ensures Reads(file, pos, line, a + b, p2, l2)
    decreases |a|
  {
    if a == [] {
      assert a + b == b;
    } else {
      var t := ReadToken(file, pos, line, BUFFER);
      assert (a + b)[1..] == a[1..] + b;
      ReadsConcat(file, t.pos, t.line, a[1..], b, p1, l1, p2, l2);
    }
  }

  lemma {:induction false} ReadsSplit(file: Str, pos: nat, line: nat, a: Stream, b: Stream, p2: nat, l2: nat)
    returns (p1: nat, l1: nat)
    requires pos <= |file| && Reads(file, pos, line, a + b, p2, l2)
    ensures p1 <= |file| && Reads(file, pos, line, a, p1, l1) && Reads(file, p1, l1, b, p2, l2)
    decreases |a|
  {
    if a == [] {
      assert a + b == b;
      p1, l1 := pos, line;
    } else {
      var t := ReadToken(file, pos, line, BUFFER);
      assert (a + b)[1..] == a[1..] + b;
      p1, l1 := ReadsSplit(file, t.pos, t.line, a[1..], b, p2, l2);
    }
  }

  /** A parse returns a tree the table accepts, and has read exactly that tree's tokens and its own end. */
  lemma {:induction false} ParsedIsRead(env: Env, file: Str, pos: nat, line: nat, scope: Scope, top: bool)
    requires pos <= |file|
    ensures var r := ParseFrom(env, file, pos, line, scope, top);
            r.Parsed? ==>
              Accepts(env, scope, r.tree) && Reads(file, pos, line, Linear(r.tree) + [EndToken(top)], r.pos, r.line)
    decreases |file| - pos
  {
    var t := ReadToken(file, pos, line, BUFFER);
    TokenMoves(file, pos, Begin(pos, line), BUFFER);
    var r := ParseFrom(env, file, pos, line, scope, top);
    if r.Parsed? {
      if t.status == BLOCK_DONE || t.status == FILE_DONE {
        EndTokenHasNoArgs(file, pos, line);
        assert Linear([]) + [EndToken(top)] == [EndToken(top)];
        assert [EndToken(top)][1..] == [];
      } else {
        var cmd := Admit(env, scope, t.args, t.status).value;
        if cmd.block.None? {
          var rest := ParseFrom(env, file, t.pos, t.line, scope, top);
          ParsedIsRead(env, file, t.pos, t.line, scope, top);
          SimpleRead(file, pos, line, Simple(t.args), rest.tree, top, r.pos, r.line);
          assert r.tree[1..] == rest.tree;
        } else {
          var inner := ParseFrom(env, file, t.pos, t.line, Enter(scope, cmd.block.value), false);
          ParsedIsRead(env, file, t.pos, t.line, Enter(scope, cmd.block.value), false);
          var rest := ParseFrom(env, file, inner.pos, inner.line, scope, top);
          ParsedIsRead(env, file, inner.pos, inner.line, scope, top);
          BlockRead(file, pos, line, Block(t.args, inner.tree), rest.tree, top, inner.pos, inner.line,
                    r.pos, r.line);
          assert r.tree[1..] == rest.tree;
        }
      }
    }
  }

  /** A byte never ends the file, and only ends a block when no argument is pending. */
  lemma StepDone(file: Str, s: Scan, p: nat)
    requires p < |file|
    ensures match Step(file, s, p)
            case More(_) => true
            case Stop(status, s') => status != FILE_DONE && (status == BLOCK_DONE ==> s'.args == [])
  {
    hide Decode;
  }

  lemma {:induction false} EndTokenHasNoArgsFrom(file: Str, p: nat, s: Scan, limit: nat)
    requires s.start <= p <= |file|
    ensures var t := Scanned(file, p, s, limit); t.status == BLOCK_DONE || t.status == FILE_DONE ==> t.args == []
    decreases |file| - p
  {
    hide Scanned, Step;
    ScannedByte(file, p, s, limit);
    if p < |file| && p - s.start != limit {
      StepDone(file, s, p);
      match Step(file, s, p)
      case More(s') => EndTokenHasNoArgsFrom(file, p + 1, s', limit);
      case Stop(_, _) =>
    }
  }

  lemma EndTokenHasNoArgs(file: Str, pos: nat, line: nat)
    requires pos <= |file|
    ensures var t := ReadToken(file, pos, line, BUFFER);
            t.status == BLOCK_DONE || t.status == FILE_DONE ==> t.args == []
  {
    EndTokenHasNoArgsFrom(file, pos, Begin(pos, line), BUFFER);
  }

  lemma SimpleRead(file: Str, pos: nat, line: nat, d: Directive, rest: seq<Directive>, top: bool, p2: nat, l2: nat)
    requires pos <= |file| && d.Simple?
    requires var t := ReadToken(file, pos, line, BUFFER);
             && t.status == SEMICOLON_END && t.args == d.args
             && Reads(file, t.pos, t.line, Linear(rest) + [EndToken(top)], p2, l2)
    ensures Reads(file, pos, line, Linear([d] + rest) + [EndToken(top)], p2, l2)
  {
    var whole := Linear([d] + rest) + [EndToken(top)];
    assert ([d] + rest)[1..] == rest;
    assert whole == [(SEMICOLON_END, d.args)] + (Linear(rest) + [EndToken(top)]);
    assert whole[1..] == Linear(rest) + [EndToken(top)];
  }

  lemma BlockRead(file: Str, pos: nat, line: nat, d: Directive, rest: seq<Directive>, top: bool,
                  p1: nat, l1: nat, p2: nat, l2: nat)
    requires pos <= |file| && p1 <= |file| && d.Block?
    requires var t := ReadToken(file, pos, line, BUFFER);
             && t.status == BLOCK_START && t.args == d.args
             && Reads(file, t.pos, t.line, Linear(d.content) + [(BLOCK_DONE, [])], p1, l1)
    requires Reads(file, p1, l1, Linear(rest) + [EndToken(top)], p2, l2)
    ensures Reads(file, pos, line, Linear([d] + rest) + [EndToken(top)], p2, l2)
  {
    var t := ReadToken(file, pos, line, BUFFER);
    var inner := Linear(d.content) + [(BLOCK_DONE, [])];
    var after := Linear(rest) + [EndToken(top)];
    ReadsConcat(file, t.pos, t.line, inner, after, p1, l1, p2, l2);
    LinearOfBlock(d, rest, top);
    assert ([(BLOCK_START, d.args)] + (inner + after))[1..] == inner + after;
  }

  lemma LinearOfBlock(d: Directive, rest: seq<Directive>, top: bool)
    requires d.Block?
    ensures Linear([d] + rest) + [EndToken(top)] ==
            [(BLOCK_START, d.args)] + ((Linear(d.content) + [(BLOCK_DONE, [])]) + (Linear(rest) + [EndToken(top)]))
  {
    assert ([d] + rest)[1..] == rest;
  }

  /** The other way: reading the tokens of a tree the table accepts parses to that tree. */
  lemma {:induction false} ReadIsParsed(env: Env, file: Str, pos: nat, line: nat, scope: Scope, top: bool,
                                        tree: seq<Directive>, p2: nat, l2: nat)
    requires pos <= |file| && Accepts(env, scope, tree)
    requires Reads(file, pos, line, Linear(tree) + [EndToken(top)], p2, l2)
    ensures ParseFrom(env, file, pos, line, scope, top) == Parsed(tree, p2, l2)
    decreases tree
  {
    hide ParseFrom, Linear, Reads, Scanned;
    ParseUnfolds(env, file, pos, line, scope, top);
    if tree == [] {
      ReadsEnd(file, pos, line, top, p2, l2);
    } else {
      var d, rest := tree[0], tree[1..];
      assert tree == [d] + rest;
      var after := Linear(rest) + [EndToken(top)];
      match d
      case Simple(args) =>
        LinearOfSimple(d, rest, top);
        ReadsCons(file, pos, line, (SEMICOLON_END, args), after, p2, l2);
        var t := ReadToken(file, pos, line, BUFFER);
        ReadIsParsed(env, file, t.pos, t.line, scope, top, rest, p2, l2);
      case Block(args, content) =>
        LinearOfBlock(d, rest, top);
        var inner := Linear(content) + [EndToken(false)];
        ReadsCons(file, pos, line, (BLOCK_START, args), inner + after, p2, l2);
        var t := ReadToken(file, pos, line, BUFFER);
        var p1, l1 := ReadsSplit(file, t.pos, t.line, inner, after, p2, l2);
        var cmd := Admit(env, scope, args, BLOCK_START).value;
        ReadIsParsed(env, file, t.pos, t.line, Enter(scope, cmd.block.value), false, content, p1, l1);
        ReadIsParsed(env, file, p1, l1, scope, top, rest, p2, l2);
    }
  }

  lemma ReadsEnd(file: Str, pos: nat, line: nat, top: bool, p2: nat, l2: nat)
    requires pos <= |file| && Reads(file, pos, line, Linear([]) + [EndToken(top)], p2, l2)
    ensures var t := ReadToken(file, pos, line, BUFFER); t.status == EndToken(top).0 && t.pos == p2 && t.line == l2
  {
    assert Linear([]) + [EndToken(top)] == [EndToken(top)] && [EndToken(top)][1..] == [];
  }

  lemma ReadsCons(file: Str, pos: nat, line: nat, tok: (Status, seq<Str>), toks: Stream, p2: nat, l2: nat)
    requires pos <= |file| && Reads(file, pos, line, [tok] + toks, p2, l2)
    ensures var t := ReadToken(file, pos, line, BUFFER);
            (t.status, t.args) == tok && Reads(file, t.pos, t.line, toks, p2, l2)
  {
    assert ([tok] + toks)[1..] == toks;
  }

  lemma LinearOfSimple(d: Directive, rest: seq<Directive>, top: bool)
    requires d.Simple?
    ensures Linear([d] + rest) + [EndToken(top)] == [(SEMICOLON_END, d.args)] + (Linear(rest) + [EndToken(top)])
  {
    assert ([d] + rest)[1..] == rest;
  }

  /** A parse succeeds with a tree exactly when the table accepts the tree and its tokens were there to be read. */
  lemma ParsesExactly(env: Env, file: Str, pos: nat, line: nat, scope: Scope, top: bool,
                      tree: seq<Directive>, p2: nat, l2: nat)
    requires pos <= |file|
    ensures ParseFrom(env, file, pos, line, scope, top) == Parsed(tree, p2, l2) <==>
              Accepts(env, scope, tree) && Reads(file, pos, line, Linear(tree) + [EndToken(top)], p2, l2)
  {
    ParsedIsRead(env, file, pos, line, scope, top);
    if Accepts(env, scope, tree) && Reads(file, pos, line, Linear(tree) + [EndToken(top)], p2, l2) {
      ReadIsParsed(env, file, pos, line, scope, top, tree, p2, l2);
    }
  }

  // ----- braces balance

  /** Blocks opened but not closed after the tokens, starting inside `depth` blocks; None once one too many closes. */
  function Depth(toks: Stream, depth: nat): Option<nat>
    decreases |toks|
  {
    if toks == [] then Some(depth)
    else if toks[0].0 == BLOCK_START then Depth(toks[1..], depth + 1)
    else if toks[0].0 == BLOCK_DONE then
      if depth == 0 then None else Depth(toks[1..], depth - 1)
    else Depth(toks[1..], depth)
  }

  lemma {:induction false} DepthConcat(a: Stream, b: Stream, depth: nat)
    ensures Depth(a + b, depth) ==
            match Depth(a, depth)
            case None => None
            case Some(d) => Depth(b, d)
    decreases |a|
  {
    if a == [] {
      assert a + b == b;
    } else {
      assert (a + b)[1..] == a[1..] + b;
      if a[0].0 == BLOCK_START {
        DepthConcat(a[1..], b, depth + 1);
      } else if a[0].0 == BLOCK_DONE {
        if depth > 0 {
          DepthConcat(a[1..], b, depth - 1);
        }
      } else {
        DepthConcat(a[1..], b, depth);
      }
    }
  }

  lemma DepthOfOpen(args: seq<Str>, toks: Stream, depth: nat)
    ensures Depth([(BLOCK_START, args)] + toks, depth) == Depth(toks, depth + 1)
  {
    assert ([(BLOCK_START, args)] + toks)[1..] == toks;
  }

  lemma DepthOfClose(toks: Stream, depth: nat)
    ensures Depth([(BLOCK_DONE, [])] + toks, depth + 1) == Depth(toks, depth)
  {
    assert ([(BLOCK_DONE, [])] + toks)[1..] == toks;
  }

  lemma DepthOfSimple(args: seq<Str>, toks: Stream, depth: nat)
    ensures Depth([(SEMICOLON_END, args)] + toks, depth) == Depth(toks, depth)
  {
    assert ([(SEMICOLON_END, args)] + toks)[1..] == toks;
  }

  lemma {:induction false} TreeBalances(tree: seq<Directive>, depth: nat)
    ensures Depth(Linear(tree), depth) == Some(depth)
    decreases tree
  {
    hide Depth, Linear;
    if tree == [] {
      NothingOpen(depth);
    } else {
      var rest := Linear(tree[1..]);
      TreeBalances(tree[1..], depth);
      LinearHead(tree);
      match tree[0]
      case Simple(args) =>
        DepthOfSimple(args, rest, depth);
      case Block(args, content) =>
        TreeBalances(content, depth + 1);
        DepthOfOpen(args, Linear(content) + ([(BLOCK_DONE, [])] + rest), depth);
        DepthConcat(Linear(content), [(BLOCK_DONE, [])] + rest, depth + 1);
        DepthOfClose(rest, depth);
    }
  }

  lemma NothingOpen(depth: nat)
    ensures Depth(Linear([]), depth) == Some(depth)
  {
  }

  lemma LinearHead(tree: seq<Directive>)
    requires tree != []
    ensures Linear(tree) ==
            match tree[0]
            case Simple(args) => [(SEMICOLON_END, args)] + Linear(tree[1..])
            case Block(args, content) =>
              [(BLOCK_START, args)] + (Linear(content) + ([(BLOCK_DONE, [])] + Linear(tree[1..])))
  {
  }

  /** A top-level parse succeeds only at the end of the file and only over balanced braces. */
  lemma TopParseBalances(env: Env, file: Str, scope: Scope)
    ensures var r := ParseFrom(env, file, 0, 1, scope, true);
            r.Parsed? ==>
              && r.pos == |file|
              && exists toks :: Reads(file, 0, 1, toks + [(FILE_DONE, [])], r.pos, r.line) && Depth(toks, 0) == Some(0)
  {
    var r := ParseFrom(env, file, 0, 1, scope, true);
    if r.Parsed? {
      ParsedIsRead(env, file, 0, 1, scope, true);
      TreeBalances(r.tree, 0);
      var p1, l1 := ReadsSplit(file, 0, 1, Linear(r.tree), [(FILE_DONE, [])], r.pos, r.line);
      FileDoneAtEnd(file, p1, l1);
      assert Reads(file, 0, 1, Linear(r.tree) + [(FILE_DONE, [])], r.pos, r.line);
    }
  }

  lemma {:induction false} FileDoneFrom(file: Str, p: nat, s: Scan, limit: nat)
    requires s.start <= p <= |file|
    ensures Scanned(file, p, s, limit).status == FILE_DONE ==> Scanned(file, p, s, limit).pos == |file|
    decreases |file| - p
  {
    hide Scanned, Step;
    ScannedByte(file, p, s, limit);
    if p < |file| && p - s.start != limit {
      StepDone(file, s, p);
      match Step(file, s, p)
      case More(s') => FileDoneFrom(file, p + 1, s', limit);
      case Stop(_, _) =>
    }
  }

  lemma FileDoneAtEnd(file: Str, pos: nat, line: nat)
    requires pos <= |file|
    ensures ReadToken(file, pos, line, BUFFER).status == FILE_DONE ==> ReadToken(file, pos, line, BUFFER).pos == |file|
  {
    FileDoneFrom(file, pos, Begin(pos, line), BUFFER);
  }

  // ----- print and parse

  /** Every directive has its arguments, and they fit the buffer. */
  predicate Printable(tree: seq<Directive>)
    decreases tree
  {
    tree == [] ||
    (&& tree[0].args != [] && WordsFit(tree[0].args, BUFFER)
     && (tree[0].Block? ==> Printable(tree[0].content))
     && Printable(tree[1..]))
  }

  function Print(tree: seq<Directive>): Str
    requires Printable(tree)
    decreases tree
  {
    if tree == [] then []
    else
      (match tree[0]
       case Simple(args) => PrintWords(args, SEMICOLON)
       case Block(args, content) => PrintWords(args, LBRACE) + Print(content) + [RBRACE])
      + Print(tree[1..])
  }

  function LinesIn(tree: seq<Directive>): nat
    decreases tree
  {
    if tree == [] then 0
    else
      AllNewlines(tree[0].args) + (if tree[0].Block? then LinesIn(tree[0].content) else 0) + LinesIn(tree[1..])
  }

  lemma CloseReads(file: Str, pos: nat, line: nat)
    requires pos < |file| && file[pos] == RBRACE
    ensures ReadToken(file, pos, line, BUFFER) == Token(BLOCK_DONE, [], line, pos + 1, false)
  {
  }

  /** Where a printed tree stands, its tokens are read. */
  lemma {:induction false} PrintedReads(file: Str, tree: seq<Directive>, pos: nat, line: nat)
    requires Printable(tree) && At(file, pos, Print(tree))
    ensures Reads(file, pos, line, Linear(tree), pos + |Print(tree)|, line + LinesIn(tree))
    decreases tree, 1
  {
    hide ReadToken, At, WordsFit;
    if tree != [] {
      if tree[0].Simple? {
        PrintedSimpleReads(file, tree, pos, line);
      } else {
        PrintedBlockReads(file, tree, pos, line);
      }
    }
  }

  lemma {:induction false} PrintedSimpleReads(file: Str, tree: seq<Directive>, pos: nat, line: nat)
    requires tree != [] && tree[0].Simple? && Printable(tree) && At(file, pos, Print(tree))
    ensures Reads(file, pos, line, Linear(tree), pos + |Print(tree)|, line + LinesIn(tree))
    decreases tree, 0
  {
    hide ReadToken, At;
    var args, rest := tree[0].args, tree[1..];
    var words := PrintWords(args, SEMICOLON);
    AtSplit(file, pos, words, Print(rest));
    PrintedWordsReadBack(file, args, SEMICOLON, pos, line);
    var p1, l1 := pos + |words|, line + AllNewlines(args);
    PrintedReads(file, rest, p1, l1);
    AtIn(file, pos, words);
    OneRead(file, pos, line, (SEMICOLON_END, args));
    ReadsConcat(file, pos, line, [(SEMICOLON_END, args)], Linear(rest), p1, l1, p1 + |Print(rest)|, l1 + LinesIn(rest));
  }

  lemma AtIn(file: Str, pos: nat, part: Str)
    requires At(file, pos, part)
    ensures pos + |part| <= |file|
  {
  }

  lemma {:induction false} PrintedBlockReads(file: Str, tree: seq<Directive>, pos: nat, line: nat)
    requires tree != [] && tree[0].Block? && Printable(tree) && At(file, pos, Print(tree))
    ensures Reads(file, pos, line, Linear(tree), pos + |Print(tree)|, line + LinesIn(tree))
    decreases tree, 0
  {
    hide PrintWords, Escape, AllNewlines;
    hide ReadToken, At;
    var args, content, rest := tree[0].args, tree[0].content, tree[1..];
    var words := PrintWords(args, LBRACE);
    AtSplit(file, pos, words + Print(content) + [RBRACE], Print(rest));
    AtSplit(file, pos, words + Print(content), [RBRACE]);
    AtSplit(file, pos, words, Print(content));
    var p1, l1 := pos + |words|, line + AllNewlines(args);
    var p2, l2 := p1 + |Print(content)|, l1 + LinesIn(content);
    AtIn(file, pos, words);
    AtIn(file, p1, Print(content));
    AtByte(file, p2, RBRACE);
    PrintedWordsReadBack(file, args, LBRACE, pos, line);
    PrintedReads(file, content, p1, l1);
    CloseReads(file, p2, l2);
    PrintedReads(file, rest, p2 + 1, l2);
    OneRead(file, pos, line, (BLOCK_START, args));
    OneRead(file, p2, l2, (BLOCK_DONE, []));
    ReadsFour(file, pos, line, [(BLOCK_START, args)], Linear(content), [(BLOCK_DONE, [])], Linear(rest),
              p1, l1, p2, l2, p2 + 1, l2, p2 + 1 + |Print(rest)|, l2 + LinesIn(rest));
  }

  lemma ReadsFour(file: Str, p0: nat, l0: nat, a: Stream, b: Stream, c: Stream, d: Stream,
                  p1: nat, l1: nat, p2: nat, l2: nat, p3: nat, l3: nat, p4: nat, l4: nat)
    requires p0 <= |file| && p1 <= |file| && p2 <= |file| && p3 <= |file|
    requires Reads(file, p0, l0, a, p1, l1) && Reads(file, p1, l1, b, p2, l2)
    requires Reads(file, p2, l2, c, p3, l3) && Reads(file, p3, l3, d, p4, l4)
    ensures Reads(file, p0, l0, a + b + c + d, p4, l4)
  {
    hide Reads;
    ReadsConcat(file, p0, l0, a, b, p1, l1, p2, l2);
    ReadsConcat(file, p0, l0, a + b, c, p2, l2, p3, l3);
    ReadsConcat(file, p0, l0, a + b + c, d, p3, l3, p4, l4);
  }

  lemma OneRead(file: Str, pos: nat, line: nat, tok: (Status, seq<Str>))
    requires pos <= |file|
    requires var t := ReadToken(file, pos, line, BUFFER); (t.status, t.args) == tok
    ensures var t := ReadToken(file, pos, line, BUFFER); Reads(file, pos, line, [tok], t.pos, t.line)
  {
    assert [tok][1..] == [];
  }

  /**
   Printing a tree and loading the text gives the tree back: a file that is exactly the printed tree parses, at
   top level, to the tree if the directive table accepts it, and to nothing otherwise.
   */
  lemma PrintThenParse(env: Env, tree: seq<Directive>, scope: Scope)
    requires Printable(tree)
    ensures var r := ParseFrom(env, Print(tree), 0, 1, scope, true);
            if Accepts(env, scope, tree) then r == Parsed(tree, |Print(tree)|, 1 + LinesIn(tree)) else r == Failed
  {
    var file := Print(tree);
    var p, l := |file|, 1 + LinesIn(tree);
    assert file[0..|file|] == file;
    PrintedReads(file, tree, 0, 1);
    OneRead(file, p, l, EndToken(true));
    ReadsConcat(file, 0, 1, Linear(tree), [EndToken(true)], p, l, p, l);
    if Accepts(env, scope, tree) {
      ReadIsParsed(env, file, 0, 1, scope, true, tree, p, l);
    } else {
      var r := ParseFrom(env, file, 0, 1, scope, true);
      ParsedIsRead(env, file, 0, 1, scope, true);
      if r.Parsed? {
        SameStreamSameTree(file, r.tree, tree, r.pos, r.line, p, l);
        assert false;
      }
    }
  }

  lemma {:induction false} ReadsDeterministic(file: Str, pos: nat, line: nat, a: Stream, b: Stream,
                                              p1: nat, l1: nat, p2: nat, l2: nat)
    requires pos <= |file| && Reads(file, pos, line, a, p1, l1) && Reads(file, pos, line, b, p2, l2)
    ensures forall i :: 0 <= i < |a| && i < |b| ==> a[i] == b[i]
    decreases |a|
  {
    if a != [] && b != [] {
      var t := ReadToken(file, pos, line, BUFFER);
      ReadsDeterministic(file, t.pos, t.line, a[1..], b[1..], p1, l1, p2, l2);
      forall i | 0 <= i < |a| && i < |b| ensures a[i] == b[i] {
        if i > 0 {
          assert a[i] == a[1..][i - 1] && b[i] == b[1..][i - 1];
        }
      }
    }
  }

  lemma {:induction false} NoFileDoneInside(tree: seq<Directive>)
    ensures forall i :: 0 <= i < |Linear(tree)| ==> Linear(tree)[i].0 != FILE_DONE
    decreases tree
  {
    if tree != [] {
      NoFileDoneInside(tree[1..]);
      if tree[0].Block? {
        NoFileDoneInside(tree[0].content);
      }
    }
  }

  lemma SameStreamSameTree(file: Str, t1: seq<Directive>, t2: seq<Directive>, p1: nat, l1: nat, p2: nat, l2: nat)
    requires Reads(file, 0, 1, Linear(t1) + [EndToken(true)], p1, l1)
    requires Reads(file, 0, 1, Linear(t2) + [EndToken(true)], p2, l2)
    ensures t1 == t2
  {
    var a, b := Linear(t1) + [EndToken(true)], Linear(t2) + [EndToken(true)];
    ReadsDeterministic(file, 0, 1, a, b, p1, l1, p2, l2);
    NoFileDoneInside(t1);
    NoFileDoneInside(t2);
    var n, m := |Linear(t1)|, |Linear(t2)|;
    assert a[n] == EndToken(true) && b[m] == EndToken(true);
    assert (forall i :: 0 <= i < n ==> a[i].0 != FILE_DONE) && (forall i :: 0 <= i < m ==> b[i].0 != FILE_DONE);
    if n < m || m < n {
      assert false;
    }
    forall i | 0 <= i < n ensures Linear(t1)[i] == Linear(t2)[i] {
      assert a[i] == Linear(t1)[i] && b[i] == Linear(t2)[i];
    }
    LinearInjective(t1, t2, [], []);
    assert Linear(t1) + [] == Linear(t1) && Linear(t2) + [] == Linear(t2);
  }

  /** The rest of a stream starts with the end of the block it is in, or is empty. */
  predicate EndsHere(toks: Stream) {
    toks == [] || toks[0].0 == BLOCK_DONE
  }

  lemma {:induction false} LinearInjective(t1: seq<Directive>, t2: seq<Directive>, a: Stream, b: Stream)
    requires Linear(t1) + a == Linear(t2) + b && EndsHere(a) && EndsHere(b)
    ensures t1 == t2 && a == b
    decreases t1
  {
    if t1 == [] || t2 == [] {
      assert t1 == [] ==> Linear(t1) + a == a;
      assert t2 == [] ==> Linear(t2) + b == b;
      if t1 != [] || t2 != [] {
        HeadOfLinear(if t1 == [] then t2 else t1, if t1 == [] then b else a);
      }
    } else {
      HeadOfLinear(t1, a);
      HeadOfLinear(t2, b);
      if t1[0].Simple? {
        LinearInjective(t1[1..], t2[1..], a, b);
      } else {
        var a1: Stream := [(BLOCK_DONE, [])] + (Linear(t1[1..]) + a);
        var b1: Stream := [(BLOCK_DONE, [])] + (Linear(t2[1..]) + b);
        LinearInjective(t1[0].content, t2[0].content, a1, b1);
        assert a1[1..] == Linear(t1[1..]) + a && b1[1..] == Linear(t2[1..]) + b;
        LinearInjective(t1[1..], t2[1..], a, b);
      }
      assert t1 == [t1[0]] + t1[1..] && t2 == [t2[0]] + t2[1..];
    }
  }

  lemma HeadOfLinear(t: seq<Directive>, a: Stream)
    requires t != []
    ensures var whole := Linear(t) + a;
            && whole != [] && whole[0] == (if t[0].Simple? then SEMICOLON_END else BLOCK_START, t[0].args)
            && whole[1..] == if t[0].Simple? then Linear(t[1..]) + a
                             else Linear(t[0].content) + ([(BLOCK_DONE, [])] + (Linear(t[1..]) + a))
  {
    if t[0].Simple? {
      Regrouped((SEMICOLON_END, t[0].args), [], [], Linear(t[1..]), a);
    } else {
      Regrouped((BLOCK_START, t[0].args), Linear(t[0].content), [(BLOCK_DONE, [])], Linear(t[1..]), a);
    }
  }

  lemma Regrouped(h: (Status, seq<Str>), b: Stream, c: Stream, d: Stream, e: Stream)
    ensures var whole := [h] + b + c + d + e; whole[0] == h && whole[1..] == b + (c + (d + e))
    ensures b == [] && c == [] ==> [h] + b + c + d == [h] + d && b + (c + (d + e)) == d + e
  {
  }
}
