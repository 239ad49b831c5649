/**
 The tokenizer as the program runs it: a 4096-byte buffer over the file, refilled as the scanner reaches its end,
 with the pending parameter moved to the front. Every call is proved equal to the one-pass tokenizer.
 */
module ConfReader {
  import opened Bytes
  import opened TokenSpec

  /** ngx_conf_file_t with its buffer: `pos` and `last` are b->pos and b->last, `offset` the file offset. */
  class ConfFile {
    const file: Str
    const buffer: array<Byte>
    var pos: nat
    var last: nat
    var offset: nat
    var line: nat

    constructor (content: Str)
      ensures Valid() && Here() == 0 && line == 1 && file == content && fresh(buffer)
    {
      file := content;
      buffer := new Byte[BUFFER](_ => 0);
      pos, last, offset, line := 0, 0, 0, 1;
    }

    ghost predicate Valid()
      reads `pos, `last, `offset, buffer
    {
      && buffer.Length == BUFFER
      && pos <= last <= BUFFER && last <= offset <= |file|
      && (forall i :: pos <= i < last ==> buffer[i] == file[offset - last + i])
    }

    /** The position in the file of the next byte to read. */
    ghost function Here(): nat
      reads `pos, `last, `offset
      requires pos <= last <= offset
    {
      offset - last + pos
    }

    /** The bytes of the file from `start` on, as far as they were read, are still in the buffer. */
    ghost predicate Holds(start: nat)
      reads `pos, `last, `offset, buffer
    {
      && Valid() && offset - last <= start <= Here()
      && (forall i :: start - (offset - last) <= i < last ==> buffer[i] == file[offset - last + i])
    }

    /** ngx_memmove: the pending bytes, from `start` to the reading position, go to the front of the buffer. */
    method MoveToFront(start: nat)
      requires Holds(start) && pos == last
      modifies this`pos, this`last, buffer
      ensures Holds(start) && pos == last == old(Here()) - start && Here() == old(Here())
    {
      var from := start - (offset - last);
      var len := pos - from;
      if len > 0 {
        forall i | 0 <= i < len {
          buffer[i] := buffer[from + i];
        }
      }
      pos, last := len, len;
    }

    /** ngx_read_file: as many bytes as the file has left and the buffer has room for. */
    method ReadOn(ghost start: nat)
      requires Holds(start) && pos == last < BUFFER && offset < |file|
      modifies this`last, this`offset, buffer
      ensures Holds(start) && pos < last && Here() == old(Here())
    {
      var size := |file| - offset;
      if size > BUFFER - last {
        size := BUFFER - last;
      }
      forall i | 0 <= i < size {
        buffer[last + i] := file[offset + i];
      }
      last := last + size;
      offset := offset + size;
    }

    /** The buffer is used up and the file is not: keep what is pending and read on behind it. */
    method Refill(start: nat)
      requires Holds(start) && pos == last && offset < |file| && Here() - start < BUFFER
      modifies this`pos, this`last, this`offset, buffer
      ensures Holds(start) && pos < last && Here() == old(Here())
    {
      MoveToFront(start);
      ReadOn(start);
    }

    /** The next byte, after a refill if the buffer is used up. */
    method Fetch(start: nat) returns (ch: Byte)
      requires Holds(start) && (pos == last ==> offset < |file| && Here() - start < BUFFER)
      modifies this`pos, this`last, this`offset, buffer
      ensures Holds(start) && start < Here() && Here() == old(Here()) + 1 && ch == file[old(Here())]
    {
      if pos >= last {
        Refill(start);
      }
      ch := buffer[pos];
      pos := pos + 1;
    }

    /** The copy loop: decodes `start..end` of the buffer into fresh memory of end - start + 1 bytes. */
    method CopyWord(start: nat, end: nat) returns (word: Str)
      requires Holds(start) && start <= end < Here()
      ensures word == Decode(file, start, end)
    {
      hide Decode;
      var base := offset - last;
      word := CopyRange(start - base, end - base);
    }

    method CopyRange(start: nat, end: nat) returns (word: Str)
      requires Valid() && start <= end < pos
      requires forall i :: start <= i < last ==> buffer[i] == file[offset - last + i]
      ensures word == Decode(file, offset - last + start, offset - last + end)
    {
      hide Decode;
      ghost var base := offset - last;
      var data := new Byte[end - start + 1];
      var src, dst, len := start, 0, 0;
      while src < end
        invariant start <= src <= end + 1 && dst == len && len <= src - start && len <= end - start
        invariant data[..len] + Decode(file, base + src, base + end) == Decode(file, base + start, base + end)
        decreases end - src
      {
        ghost var done := data[..len];
        var c, taken := buffer[src], 1;
        if c == BACKSLASH {
          var next := buffer[src + 1];
          if next == DQUOTE || next == SQUOTE || next == BACKSLASH {
            c, taken := next, 2;
          } else if next == LOWER_T {
            c, taken := HT, 2;
          } else if next == LOWER_R {
            c, taken := CR, 2;
          } else if next == LOWER_N {
            c, taken := LF, 2;
          }
        }
        DecodeStep(file, base + src, base + end);
        data[dst] := c;
        dst, src, len := dst + 1, src + taken, len + 1;
        assert data[..len] == done + [c];
        Regroup(done, c, Decode(file, base + src, base + end));
      }
      DecodeEnd(file, base + src, base + end);
      assert data[..len] + [] == data[..len];
      data[dst] := NUL;
      word := data[..len];
    }

    lemma HoldsLater(start: nat, later: nat)
      requires Holds(start) && start <= later <= Here()
      ensures Holds(later)
    {
    }

    /** A byte in front of a parameter: blanks, terminators, a comment, or the first byte of a parameter. */
    static method Between(s: Scan, ch: Byte, p: nat) returns (o: Outcome)
      ensures o == StepBetween(s, ch, p)
    {
      if ch == SPACE || ch == HT || ch == CR || ch == LF {
        return More(s);
      }
      var n := s.(start := p, startLine := s.line);
      if ch == SEMICOLON || ch == LBRACE {
        if n.args == [] {
          return Stop(ERROR, n);
        }
        if ch == LBRACE {
          return Stop(BLOCK_START, n);
        }
        return Stop(SEMICOLON_END, n);
      } else if ch == RBRACE {
        if n.args != [] {
          return Stop(ERROR, n);
        }
        return Stop(BLOCK_DONE, n);
      } else if ch == SHARP {
        n := n.(comment := true);
      } else if ch == BACKSLASH {
        n := n.(quoted := true, lastSpace := false);
      } else if ch == DQUOTE {
        n := n.(start := n.start + 1, dQuoted := true, lastSpace := false);
      } else if ch == SQUOTE {
        n := n.(start := n.start + 1, sQuoted := true, lastSpace := false);
      } else {
        n := n.(lastSpace := false);
      }
      o := More(n);
    }

    /** A byte inside a parameter; one that ends it has the parameter decoded and pushed. */
    method Inside(s: Scan, ch: Byte) returns (o: Outcome)
      requires Holds(s.start) && s.start < Here() && ch == file[Here() - 1]
      ensures o == StepInside(file, s, Here() - 1)
    {
      hide Decode, Holds;
      if ch == LBRACE && s.variable {
        return More(s);
      }
      var n := s.(variable := false);
      if ch == BACKSLASH {
        return More(n.(quoted := true));
      }
      if ch == DOLLAR {
        return More(n.(variable := true));
      }
      var found := false;
      if n.dQuoted {
        if ch == DQUOTE {
          n := n.(dQuoted := false, needSpace := true);
          found := true;
        }
      } else if n.sQuoted {
        if ch == SQUOTE {
          n := n.(sQuoted := false, needSpace := true);
          found := true;
        }
      } else if ch == SPACE || ch == HT || ch == CR || ch == LF || ch == SEMICOLON || ch == LBRACE {
        n := n.(lastSpace := true);
        found := true;
      }
      if found {
        var word := CopyWord(n.start, offset - last + pos - 1);
        n := n.(args := n.args + [word]);
        if ch == SEMICOLON {
          return Stop(SEMICOLON_END, n);
        }
        if ch == LBRACE {
          return Stop(BLOCK_START, n);
        }
      }
      o := More(n);
    }

    /** One byte: the flags decide what it is part of. */
    method Feed(s: Scan, ch: Byte) returns (o: Outcome)
      requires Holds(s.start) && s.start < Here() && ch == file[Here() - 1]
      ensures o == Step(file, s, Here() - 1)
    {
      hide StepInside, StepBetween, Holds;
      var n := s;
      if ch == LF {
        n := n.(line := n.line + 1);
        if n.comment {
          n := n.(comment := false);
        }
      }
      if n.comment {
        return More(n);
      }
      if n.quoted {
        return More(n.(quoted := false));
      }
      if n.needSpace {
        if ch == SPACE || ch == HT || ch == CR || ch == LF {
          return More(n.(lastSpace := true, needSpace := false));
        }
        if ch == SEMICOLON {
          return Stop(SEMICOLON_END, n);
        }
        if ch == LBRACE {
          return Stop(BLOCK_START, n);
        }
        if ch != RPAREN {
          return Stop(ERROR, n);
        }
        n := n.(lastSpace := true, needSpace := false);
      }
      if n.lastSpace {
        o := Between(n, ch, offset - last + pos - 1);
      } else {
        o := Inside(n, ch);
      }
    }

    /** ngx_dynamic_conf_read_token; `s` holds its flags. */
    method ReadToken() returns (status: Status, args: seq<Str>)
      requires Valid()
      modifies this`pos, this`last, this`offset, this`line, buffer
      ensures Valid()
      ensures var t := TokenSpec.ReadToken(file, old(Here()), old(line), BUFFER);
              status == t.status && args == t.args && line == t.line && Here() == t.pos
    {
      hide Scanned, Step;
      var s := Begin(offset - last + pos, line);
      ghost var t := Scanned(file, Here(), s, BUFFER);
      while true
        invariant Holds(s.start)
        invariant Scanned(file, Here(), s, BUFFER) == t
        decreases |file| - Here()
      {
        ScannedByte(file, Here(), s, BUFFER);
        if pos >= last {
          if offset >= |file| {
            line := s.line;
            return if s.args != [] || !s.lastSpace then ERROR else FILE_DONE, s.args;
          }
          if offset - last + pos - s.start == BUFFER {
            line := s.startLine;
            return ERROR, s.args;
          }
        }
        var ch := Fetch(s.start);
        var o := Feed(s, ch);
        match o {
          case Stop(status', s') =>
            line := s'.line;
            return status', s'.args;
          case More(s') =>
            StepStart(file, s, Here() - 1);
            HoldsLater(s.start, s'.start);
            s := s';
        }
      }
    }
  }

  function DecodedByte(c: Byte, next: Byte): (Byte, nat) {
    if c != BACKSLASH then (c, 1)
    else if next == DQUOTE || next == SQUOTE || next == BACKSLASH then (next, 2)
    else if next == LOWER_T then (HT, 2)
    else if next == LOWER_R then (CR, 2)
    else if next == LOWER_N then (LF, 2)
    else (BACKSLASH, 1)
  }

  lemma DecodeStep(file: Str, src: nat, end: nat)
    requires src < end < |file|
    ensures var (c, taken) := DecodedByte(file[src], file[src + 1]);
            Decode(file, src, end) == [c] + Decode(file, src + taken, end)
  {
  }

  lemma DecodeEnd(file: Str, src: nat, end: nat)
    requires end <= src && end < |file|
    ensures Decode(file, src, end) == []
  {
  }

  lemma Regroup(done: Str, c: Byte, rest: Str)
    ensures done + [c] + rest == done + ([c] + rest)
  {
  }
}
