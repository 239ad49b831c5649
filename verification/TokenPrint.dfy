/** Printing words so that the tokenizer reads them back: each in double quotes, with a space between two. */
module TokenPrint {
  import opened Bytes
  import opened TokenSpec
  import opened TokenText

  function Escaping(w: Str): seq<Unit>
    decreases |w|
  {
    if w == [] then []
    else [if w[0] == DQUOTE || w[0] == BACKSLASH then Escaped(w[0]) else Plain(w[0])] + Escaping(w[1..])
  }

  function Escape(w: Str): Str {
    UnitsText(Escaping(w))
  }

  function PrintItems(ws: seq<Str>): seq<Item>
    requires ws != []
    decreases |ws|
  {
    if |ws| == 1 then [Word(Double, Escaping(ws[0]))]
    else [Word(Double, Escaping(ws[0])), Gap(SPACE)] + PrintItems(ws[1..])
  }

  /** The words, quoted, with a space between two, ended by `end`. */
  function PrintWords(ws: seq<Str>, end: Byte): Str
    requires ws != []
  {
    Text(PrintItems(ws)) + [end]
  }

  function AllNewlines(ws: seq<Str>): nat
    decreases |ws|
  {
    if ws == [] then 0 else Newlines(ws[0]) + AllNewlines(ws[1..])
  }

  /** The words leave room in the buffer for the bytes read behind them. */
  predicate WordsFit(ws: seq<Str>, limit: nat)
    requires ws != []
    decreases |ws|
  {
    if |ws| == 1 then |Escape(ws[0])| + 1 < limit
    else |Escape(ws[0])| + 2 < limit && WordsFit(ws[1..], limit)
  }

  lemma {:induction false} EscapingMeans(w: Str)
    ensures Means(Escaping(w)) == w && Newlines(Escape(w)) == Newlines(w)
    decreases |w|
  {
    if w != [] {
      var u := if w[0] == DQUOTE || w[0] == BACKSLASH then Escaped(w[0]) else Plain(w[0]);
      EscapingMeans(w[1..]);
      assert w == [w[0]] + w[1..] && Escaping(w)[1..] == Escaping(w[1..]);
      NewlinesBoth(UnitText(u), Escape(w[1..]));
      NewlinesUnit(u);
    }
  }

  lemma {:induction false} EscapingOk(w: Str, variable: bool)
    ensures UnitsOk(Double, Escaping(w), variable)
    decreases |w|
  {
    if w != [] {
      EscapingOk(w[1..], InVariable(Escaping(w)[0], variable));
      assert Escaping(w)[1..] == Escaping(w[1..]);
    }
  }

  lemma PrintedFirst(ws: seq<Str>)
    requires ws != []
    ensures var items, word := PrintItems(ws), Word(Double, Escaping(ws[0]));
            && items != [] && items[0] == word
            && (|ws| == 1 ==> items[1..] == [] && ws[1..] == [])
            && (|ws| > 1 ==> items[1..] == [Gap(SPACE)] + PrintItems(ws[1..]))
  {
    hide Escaping;
  }

  lemma WordMeans(w: Str, rest: seq<Item>)
    ensures var word := Word(Double, Escaping(w));
            && ItemOk(word) && Words([word] + rest) == [w] + Words(rest)
            && Newlines(Text([word] + rest)) == Newlines(w) + Newlines(Text(rest))
  {
    var word := Word(Double, Escaping(w));
    EscapingMeans(w);
    EscapingOk(w, false);
    NewlinesQuoted(Double, Escaping(w));
    hide Escaping, UnitsOk, UnitsText, Means;
    assert ([word] + rest)[1..] == rest;
    NewlinesBoth(ItemText(word), Text(rest));
  }

  lemma GapMeans(rest: seq<Item>)
    ensures Words([Gap(SPACE)] + rest) == Words(rest) && Newlines(Text([Gap(SPACE)] + rest)) == Newlines(Text(rest))
  {
    assert ([Gap(SPACE)] + rest)[1..] == rest && [] + Words(rest) == Words(rest);
    NewlinesBoth([SPACE], Text(rest));
    NewlinesOne(SPACE);
  }

  /** What is printed is a text that means the words. */
  lemma {:induction false} PrintedMeans(ws: seq<Str>)
    requires ws != []
    ensures Words(PrintItems(ws)) == ws && Newlines(Text(PrintItems(ws))) == AllNewlines(ws)
    decreases |ws|
  {
    hide Escaping, PrintItems, Newlines, Text, Words;
    PrintedFirst(ws);
    var items := PrintItems(ws);
    assert items == [items[0]] + items[1..] && ws == [ws[0]] + ws[1..];
    WordMeans(ws[0], items[1..]);
    if |ws| == 1 {
      NoItems();
    } else {
      PrintedMeans(ws[1..]);
      GapMeans(PrintItems(ws[1..]));
    }
  }

  lemma NoItems()
    ensures Words([]) == [] && Newlines(Text([])) == 0
  {
  }

  lemma {:induction false} PrintedText(ws: seq<Str>, end: Byte, prev: Option<Item>)
    requires ws != [] && (end == SEMICOLON || end == LBRACE) && !(prev.Some? && prev.value.Word?)
    ensures AllOk(PrintItems(ws)) && Chain(prev, PrintItems(ws), Byte(end))
    decreases |ws|
  {
    hide Escaping, PrintItems, UnitsOk;
    PrintedFirst(ws);
    EscapingOk(ws[0], false);
    var items := PrintItems(ws);
    assert items == [items[0]] + items[1..];
    if |ws| > 1 {
      PrintedText(ws[1..], end, Some(Gap(SPACE)));
      var rest := PrintItems(ws[1..]);
      assert ([Gap(SPACE)] + rest)[1..] == rest;
    }
  }

  lemma {:induction false} PrintedFits(ws: seq<Str>, end: Byte, used: nat, limit: nat)
    requires ws != [] && used < limit
    ensures Fits(PrintItems(ws), Byte(end), used, limit) <==> WordsFit(ws, limit)
    decreases |ws|
  {
    hide Escaping, UnitsText;
    var n, items := |Escape(ws[0])|, PrintItems(ws);
    if |ws| == 1 {
      assert items[1..] == [];
    } else {
      var rest := PrintItems(ws[1..]);
      assert items[1..] == [Gap(SPACE)] + rest && ([Gap(SPACE)] + rest)[1..] == rest;
      if n + 2 < limit {
        PrintedFits(ws[1..], end, n + 2, limit);
      } else {
        NoRoom(ws[1..], end, n + 2, limit);
      }
    }
  }

  lemma NoRoom(ws: seq<Str>, end: Byte, used: nat, limit: nat)
    requires ws != [] && used >= limit
    ensures !Fits(PrintItems(ws), Byte(end), used, limit)
  {
  }

  /**
   Any words, quoted and with '"' and '\\' escaped, read back as themselves, wherever they stand in a file; a
   call fails on them exactly when one of them, with what follows it, fills the buffer.
   */
  lemma PrintedWordsReadBack(file: Str, ws: seq<Str>, end: Byte, pos: nat, line: nat)
    requires ws != [] && (end == SEMICOLON || end == LBRACE) && At(file, pos, PrintWords(ws, end))
    ensures var t := ReadToken(file, pos, line, BUFFER);
            if WordsFit(ws, BUFFER)
            then t == Token(if end == LBRACE then BLOCK_START else SEMICOLON_END, ws, line + AllNewlines(ws),
                            pos + |PrintWords(ws, end)|, false)
            else t.status == ERROR && t.overflow
  {
    hide ReadToken, At, Text, Words, Fits, WordsFit, Chain, AllOk, Newlines, AllNewlines, PrintItems;
    PrintedText(ws, end, None);
    PrintedMeans(ws);
    PrintedFits(ws, end, 0, BUFFER);
    TextReadsBack(file, PrintItems(ws), Byte(end), pos, line, BUFFER);
  }
}
