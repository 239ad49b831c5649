/**
 The configuration tokenizer as a one-pass machine over the whole file: the state is the scanner's flags, and the
 buffer appears only as the rule that a parameter, with what is read behind it, must not fill it.
 */
module TokenSpec {
  import opened Bytes

  /** NGX_CONF_BUFFER */
  const BUFFER: nat := 4096

  datatype Status = SEMICOLON_END | BLOCK_START | BLOCK_DONE | FILE_DONE | ERROR

  /** What one call returns: the status, the arguments, the line counter, the position behind the token. */
  datatype Token = Token(status: Status, args: seq<Str>, line: nat, pos: nat, overflow: bool)

  /** The scanner between two bytes; `start` is where the pending parameter began, at line `startLine`. */
  datatype Scan = Scan(needSpace: bool, lastSpace: bool, comment: bool, variable: bool,
                       quoted: bool, sQuoted: bool, dQuoted: bool,
                       start: nat, startLine: nat, line: nat, args: seq<Str>)

  datatype Outcome = More(scan: Scan) | Stop(status: Status, scan: Scan)

  function Begin(pos: nat, line: nat): Scan {
    Scan(false, true, false, false, false, false, false, pos, line, line, [])
  }

  predicate Blank(ch: Byte) {
    ch == SPACE || ch == HT || ch == CR || ch == LF
  }

  /** The copy loop: the bytes from `src` to `end` with escapes decoded; the byte at `end` is still readable. */
  function Decode(file: Str, src: nat, end: nat): Str
    requires end < |file|
    decreases end - src
  {
    if src >= end then []
    else if file[src] == BACKSLASH then
      var next := file[src + 1];
      if next == DQUOTE || next == SQUOTE || next == BACKSLASH then [next] + Decode(file, src + 2, end)
      else if next == LOWER_T then [HT] + Decode(file, src + 2, end)
      else if next == LOWER_R then [CR] + Decode(file, src + 2, end)
      else if next == LOWER_N then [LF] + Decode(file, src + 2, end)
      else [BACKSLASH] + Decode(file, src + 1, end)
    else [file[src]] + Decode(file, src + 1, end)
  }

  /** A byte in front of a parameter. */
  function StepBetween(s: Scan, ch: Byte, p: nat): Outcome {
    if Blank(ch) then More(s)
    else
      var s := s.(start := p, startLine := s.line);
      if ch == SEMICOLON || ch == LBRACE then
        if s.args == [] then Stop(ERROR, s)
        else Stop(if ch == LBRACE then BLOCK_START else SEMICOLON_END, s)
      else if ch == RBRACE then
        Stop(if s.args != [] then ERROR else BLOCK_DONE, s)
      else if ch == SHARP then More(s.(comment := true))
      else if ch == BACKSLASH then More(s.(quoted := true, lastSpace := false))
      else if ch == DQUOTE then More(s.(start := p + 1, dQuoted := true, lastSpace := false))
      else if ch == SQUOTE then More(s.(start := p + 1, sQuoted := true, lastSpace := false))
      else More(s.(lastSpace := false))
  }

  /** The parameter that ends before `p` is pushed. */
  function Push(file: Str, s: Scan, p: nat): Scan
    requires p < |file|
  {
    s.(args := s.args + [Decode(file, s.start, p)])
  }

  /** A byte inside a parameter. */
  function StepInside(file: Str, s: Scan, p: nat): Outcome
    requires p < |file|
  {
    var ch := file[p];
    if ch == LBRACE && s.variable then More(s)
    else
      var s := s.(variable := false);
      if ch == BACKSLASH then More(s.(quoted := true))
      else if ch == DOLLAR then More(s.(variable := true))
      else if s.dQuoted then
        if ch == DQUOTE then More(Push(file, s.(dQuoted := false, needSpace := true), p)) else More(s)
      else if s.sQuoted then
        if ch == SQUOTE then More(Push(file, s.(sQuoted := false, needSpace := true), p)) else More(s)
      else if Blank(ch) then More(Push(file, s.(lastSpace := true), p))
      else if ch == SEMICOLON then Stop(SEMICOLON_END, Push(file, s.(lastSpace := true), p))
      else if ch == LBRACE then Stop(BLOCK_START, Push(file, s.(lastSpace := true), p))
      else More(s)
  }

  /** One byte of the file. */
  function Step(file: Str, s: Scan, p: nat): Outcome
    requires p < |file|
  {
    var ch := file[p];
    var s := if ch == LF then s.(line := s.line + 1, comment := false) else s;
    if s.comment then More(s)
    else if s.quoted then More(s.(quoted := false))
    else if s.needSpace then
      if Blank(ch) then More(s.(lastSpace := true, needSpace := false))
      else if ch == SEMICOLON then Stop(SEMICOLON_END, s)
      else if ch == LBRACE then Stop(BLOCK_START, s)
      else if ch == RPAREN then StepBetween(s.(lastSpace := true, needSpace := false), ch, p)
      else Stop(ERROR, s)
    else if s.lastSpace then StepBetween(s, ch, p)
    else StepInside(file, s, p)
  }

  /** One call of the tokenizer, from a position of the file, with a buffer of `limit` bytes. */
  function Scanned(file: Str, p: nat, s: Scan, limit: nat): (t: Token)
    requires s.start <= p <= |file|
    ensures t.pos >= p && t.pos <= |file|
    decreases |file| - p
  {
    if p == |file| then
      Token(if s.args != [] || !s.lastSpace then ERROR else FILE_DONE, s.args, s.line, p, false)
    else if p - s.start == limit then
      Token(ERROR, s.args, s.startLine, p, true)
    else
      match Step(file, s, p)
      case More(s') => Scanned(file, p + 1, s', limit)
      case Stop(status, s') => Token(status, s'.args, s'.line, p + 1, false)
  }

  function ReadToken(file: Str, pos: nat, line: nat, limit: nat): (t: Token)
    requires pos <= |file|
    ensures pos <= t.pos <= |file|
  {
    Scanned(file, pos, Begin(pos, line), limit)
  }

  /** Scanned, unfolded once. */
  lemma ScannedByte(file: Str, p: nat, s: Scan, limit: nat)
    requires s.start <= p <= |file|
    ensures var t := Scanned(file, p, s, limit);
            if p == |file| then
              t == Token(if s.args != [] || !s.lastSpace then ERROR else FILE_DONE, s.args, s.line, p, false)
            else if p - s.start == limit then t == Token(ERROR, s.args, s.startLine, p, true)
            else match Step(file, s, p)
                 case More(s') => s'.start <= p + 1 && t == Scanned(file, p + 1, s', limit)
                 case Stop(status, s') => t == Token(status, s'.args, s'.line, p + 1, false)
  {
  }

  /** The pending parameter never moves back. */
  lemma StepStart(file: Str, s: Scan, p: nat)
    requires s.start <= p < |file|
    ensures Step(file, s, p).More? ==> s.start <= Step(file, s, p).scan.start <= p + 1
  {
  }
}
