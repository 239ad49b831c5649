/**
 What the tokenizer promises: the buffer can only turn a result into an error, and the scanner and the copy loop
 agree on which backslashes escape.
 */
module TokenTheorems {
  import opened Bytes
  import opened TokenSpec

  // ----- the buffer

  /** A call that does not fill a buffer reads the same through any larger one. */
  lemma {:induction false} LargerBufferAgrees(file: Str, p: nat, s: Scan, limit: nat, larger: nat)
    requires s.start <= p <= |file| && p - s.start <= limit <= larger
    requires !Scanned(file, p, s, limit).overflow
    ensures Scanned(file, p, s, larger) == Scanned(file, p, s, limit)
    decreases |file| - p
  {
    hide Step, Scanned;
    ScannedByte(file, p, s, limit);
    ScannedByte(file, p, s, larger);
    if p < |file| && p - s.start != limit {
      StepStart(file, s, p);
      match Step(file, s, p)
      case More(s') => LargerBufferAgrees(file, p + 1, s', limit, larger);
      case Stop(_, _) =>
    }
  }

  // ----- escapes

  /** Every backslash has the byte it escapes behind it. */
  predicate Paired(raw: Str)
    decreases |raw|
  {
    raw == [] || (if raw[0] == BACKSLASH then |raw| >= 2 && Paired(raw[2..]) else Paired(raw[1..]))
  }

  lemma {:induction false} PairedSnoc(raw: Str, b: Byte)
    requires Paired(raw)
    ensures b != BACKSLASH ==> Paired(raw + [b])
    ensures forall c :: Paired(raw + [BACKSLASH, c])
    decreases |raw|
  {
    if raw == [] {
      assert raw + [b] == [b] && [b][1..] == [];
      forall c ensures Paired(raw + [BACKSLASH, c]) {
        assert raw + [BACKSLASH, c] == [BACKSLASH, c] && [BACKSLASH, c][2..] == [];
      }
    } else {
      var n := if raw[0] == BACKSLASH then 2 else 1;
      PairedSnoc(raw[n..], b);
      assert (raw + [b])[n..] == raw[n..] + [b];
      forall c ensures Paired(raw + [BACKSLASH, c]) {
        assert (raw + [BACKSLASH, c])[n..] == raw[n..] + [BACKSLASH, c];
      }
    }
  }

  /** The parameter is pending: the scanner is between its first byte and its end. */
  predicate Pending(s: Scan) {
    !s.lastSpace && !s.needSpace && !s.comment
  }

  /** The scanner's `quoted` flag is up exactly when the pending bytes end in a backslash that escapes the next. */
  ghost predicate EscapesTracked(file: Str, s: Scan, p: nat)
    requires p <= |file|
  {
    && s.start <= p
    && (s.quoted ==> Pending(s)) && (s.comment ==> s.lastSpace && !s.needSpace)
    && (Pending(s) ==>
          if s.quoted
          then s.start < p && file[p - 1] == BACKSLASH && Paired(file[s.start..p - 1])
          else Paired(file[s.start..p]))
  }

  lemma StepInsideTracksEscapes(file: Str, s: Scan, p: nat)
    requires p < |file| && EscapesTracked(file, s, p) && Pending(s)
    ensures Step(file, s, p).More? ==> EscapesTracked(file, Step(file, s, p).scan, p + 1)
  {
    hide Decode, Paired, StepBetween;
    var a := s.start;
    assert file[a..p + 1] == file[a..p] + [file[p]];
    if s.quoted {
      assert file[a..p + 1] == file[a..p - 1] + [BACKSLASH, file[p]];
      PairedSnoc(file[a..p - 1], 0);
    } else {
      PairedSnoc(file[a..p], file[p]);
    }
  }

  lemma StepBetweenTracksEscapes(file: Str, s: Scan, p: nat)
    requires p < |file| && EscapesTracked(file, s, p) && !Pending(s)
    ensures Step(file, s, p).More? ==> EscapesTracked(file, Step(file, s, p).scan, p + 1)
  {
    hide Decode, StepInside;
    assert file[p..p + 1] == [file[p]] && [file[p]][1..] == [];
    assert file[p..p] == [] && file[p + 1..p + 1] == [];
    assert file[p] != BACKSLASH ==> Paired([file[p]]);
  }

  lemma StepTracksEscapes(file: Str, s: Scan, p: nat)
    requires p < |file| && EscapesTracked(file, s, p)
    ensures Step(file, s, p).More? ==> EscapesTracked(file, Step(file, s, p).scan, p + 1)
  {
    hide Step, EscapesTracked;
    if Pending(s) {
      StepInsideTracksEscapes(file, s, p);
    } else {
      StepBetweenTracksEscapes(file, s, p);
    }
  }

  /** The scanner's state when it reaches position `q`, if it does not return before. */
  function Reaches(file: Str, p: nat, s: Scan, q: nat): Option<Scan>
    requires p <= q <= |file|
    decreases q - p
  {
    if p == q then Some(s)
    else match Step(file, s, p)
         case More(s') => Reaches(file, p + 1, s', q)
         case Stop(_, _) => None
  }

  /** The flag tracks the escapes in every state the scanner reaches. */
  lemma {:induction false} EscapesTrackedAlways(file: Str, p: nat, s: Scan, q: nat)
    requires p <= q <= |file| && EscapesTracked(file, s, p)
    ensures Reaches(file, p, s, q).Some? ==> EscapesTracked(file, Reaches(file, p, s, q).value, q)
    decreases q - p
  {
    if p < q {
      StepTracksEscapes(file, s, p);
      if Step(file, s, p).More? {
        EscapesTrackedAlways(file, p + 1, Step(file, s, p).scan, q);
      }
    }
  }

  /** The decoding of a raw parameter on its own, one unit at a time. */
  function Decoded(raw: Str): Str
    requires Paired(raw)
    decreases |raw|
  {
    if raw == [] then []
    else if raw[0] == BACKSLASH then Unescaped(raw[1]) + Decoded(raw[2..])
    else [raw[0]] + Decoded(raw[1..])
  }

  function Unescaped(c: Byte): Str {
    if c == DQUOTE || c == SQUOTE || c == BACKSLASH then [c]
    else if c == LOWER_T then [HT]
    else if c == LOWER_R then [CR]
    else if c == LOWER_N then [LF]
    else [BACKSLASH, c]
  }

  /** On a paired parameter the copy loop decodes exactly its bytes: it never takes the terminator for escaped. */
  lemma {:induction false} CopyLoopPairs(file: Str, a: nat, b: nat)
    requires a <= b < |file| && Paired(file[a..b])
    ensures Decode(file, a, b) == Decoded(file[a..b]) && |Decode(file, a, b)| <= b - a
    decreases b - a
  {
    if a < b {
      var raw := file[a..b];
      if raw[0] == BACKSLASH {
        assert raw[1] == file[a + 1] && raw[2..] == file[a + 2..b];
        CopyLoopPairs(file, a + 2, b);
        var c := file[a + 1];
        if |Unescaped(c)| == 2 {
          assert Decode(file, a, b) == [BACKSLASH] + Decode(file, a + 1, b);
          assert c != BACKSLASH && Decode(file, a + 1, b) == [c] + Decode(file, a + 2, b);
          assert [BACKSLASH] + ([c] + Decode(file, a + 2, b)) == [BACKSLASH, c] + Decode(file, a + 2, b);
        }
      } else {
        assert raw[1..] == file[a + 1..b];
        CopyLoopPairs(file, a + 1, b);
      }
    }
  }

  /** A parameter is pushed only where one is pending. */
  lemma PushedIsPending(file: Str, s: Scan, p: nat)
    requires p < |file| && EscapesTracked(file, s, p) && |Step(file, s, p).scan.args| > |s.args|
    ensures Pending(s) && !s.quoted && Step(file, s, p).scan.args == s.args + [Decode(file, s.start, p)]
  {
    hide Decode, Paired;
  }

  /** Whatever parameter a call pushes, scanner and copy loop agree on it. */
  lemma PushedParameterDecodes(file: Str, pos: nat, line: nat, p: nat)
    requires pos <= p < |file|
    requires var r := Reaches(file, pos, Begin(pos, line), p);
             && r.Some?
             && |Step(file, r.value, p).scan.args| > |r.value.args|
    ensures var s := Reaches(file, pos, Begin(pos, line), p).value;
            var args := Step(file, s, p).scan.args;
            && s.start <= p && Paired(file[s.start..p]) && args == s.args + [Decoded(file[s.start..p])]
            && |args[|args| - 1]| <= p - s.start
  {
    hide Decode, Paired, Reaches, Step;
    assert file[pos..pos] == [];
    EscapesTrackedAlways(file, pos, Begin(pos, line), p);
    var s := Reaches(file, pos, Begin(pos, line), p).value;
    PushedIsPending(file, s, p);
    CopyLoopPairs(file, s.start, p);
  }

  // ----- two inputs that surprise

  /** A variable that starts a parameter is none: the brace behind the dollar opens a block. */
  lemma DollarFirstIsNoVariable(file: Str, pos: nat, line: nat, limit: nat)
    requires pos + 1 < |file| && file[pos] == DOLLAR && file[pos + 1] == LBRACE && limit > 1
    ensures ReadToken(file, pos, line, limit) == Token(BLOCK_START, [[DOLLAR]], line, pos + 2, false)
  {
    ScannedByte(file, pos, Begin(pos, line), limit);
    var s := Begin(pos, line).(lastSpace := false);
    assert Step(file, Begin(pos, line), pos) == More(s);
    ScannedByte(file, pos + 1, s, limit);
    assert Decode(file, pos + 1, pos + 1) == [] && Decode(file, pos, pos + 1) == [DOLLAR] + [] == [DOLLAR];
    assert Step(file, s, pos + 1) == Stop(BLOCK_START, s.(lastSpace := true, args := [[DOLLAR]]));
  }

  /** Bytes that mean nothing to the scanner. */
  predicate Ordinary(ch: Byte) {
    && !Blank(ch) && ch != SEMICOLON && ch != LBRACE && ch != RBRACE && ch != SHARP && ch != BACKSLASH
    && ch != DQUOTE && ch != SQUOTE && ch != DOLLAR
  }

  /** Behind another byte it is one: the parameter goes on. */
  lemma DollarLaterIsVariable(file: Str, pos: nat, line: nat)
    requires pos + 2 < |file| && Ordinary(file[pos]) && file[pos + 1] == DOLLAR && file[pos + 2] == LBRACE
    ensures var r := Reaches(file, pos, Begin(pos, line), pos + 3);
            r.Some? && r.value.args == [] && r.value.start == pos && Pending(r.value)
  {
    var s := Begin(pos, line).(lastSpace := false);
    assert Step(file, Begin(pos, line), pos) == More(s);
    assert Step(file, s, pos + 1) == More(s.(variable := true));
    assert Step(file, s.(variable := true), pos + 2) == More(s.(variable := true));
    assert Reaches(file, pos + 3, s.(variable := true), pos + 3) == Some(s.(variable := true));
    assert Reaches(file, pos + 2, s.(variable := true), pos + 3) == Some(s.(variable := true));
    assert Reaches(file, pos + 1, s, pos + 3) == Some(s.(variable := true));
  }

  /** As many blanks as the window has bytes, in front of anything, are an error. */
  lemma BlanksOverflow(file: Str, pos: nat, line: nat, limit: nat)
    requires pos + limit < |file| && forall i :: pos <= i < pos + limit ==> Blank(file[i])
    ensures ReadToken(file, pos, line, limit) == Token(ERROR, [], line, pos + limit, true)
  {
    BlanksFrom(file, pos, Begin(pos, line), limit);
  }

  lemma {:induction false} BlanksFrom(file: Str, p: nat, s: Scan, limit: nat)
    requires s.start <= p <= s.start + limit < |file| && forall i :: p <= i < s.start + limit ==> Blank(file[i])
    requires s == Begin(s.start, s.startLine).(line := s.line)
    ensures Scanned(file, p, s, limit) == Token(ERROR, [], s.startLine, s.start + limit, true)
    decreases s.start + limit - p
  {
    ScannedByte(file, p, s, limit);
    if p < s.start + limit {
      var s' := if file[p] == LF then s.(line := s.line + 1) else s;
      assert Step(file, s, p) == More(s');
      BlanksFrom(file, p + 1, s', limit);
    }
  }

  /** So is a comment of that length. */
  lemma CommentOverflows(file: Str, pos: nat, line: nat, limit: nat)
    requires limit > 0 && pos + limit < |file| && file[pos] == SHARP
    requires forall i :: pos < i < pos + limit ==> file[i] != LF
    ensures ReadToken(file, pos, line, limit) == Token(ERROR, [], line, pos + limit, true)
  {
    ScannedByte(file, pos, Begin(pos, line), limit);
    var s := Begin(pos, line).(comment := true);
    assert Step(file, Begin(pos, line), pos) == More(s);
    CommentFrom(file, pos + 1, s, limit);
  }

  lemma {:induction false} CommentFrom(file: Str, p: nat, s: Scan, limit: nat)
    requires s.start < p <= s.start + limit < |file| && forall i :: p <= i < s.start + limit ==> file[i] != LF
    requires s.comment && s.args == []
    ensures Scanned(file, p, s, limit) == Token(ERROR, [], s.startLine, s.start + limit, true)
    decreases s.start + limit - p
  {
    ScannedByte(file, p, s, limit);
    if p < s.start + limit {
      CommentFrom(file, p + 1, s, limit);
    }
  }
}
