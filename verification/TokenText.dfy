/**
 The language of the tokenizer, as text: blanks, comments, and words without quotes, in single or in double quotes,
 with their escapes; and what a call returns for any text of it, anywhere in a file.
 */
module TokenText {
  import opened Bytes
  import opened TokenSpec

  /** A byte of a word, or a backslash with the byte behind it. */
  datatype Unit = Plain(byte: Byte) | Escaped(byte: Byte)

  datatype Form = Bare | Single | Double

  /** What a text is made of; a comment's text stands between its sharp and its line feed. */
  datatype Item = Gap(byte: Byte) | Comment(text: Str) | Word(form: Form, units: seq<Unit>)

  /**
   What stands behind the items: a byte, the end of the file, a comment or quotes that the file ends within, or a word
   that it ends within behind a backslash.
   */
  datatype End = Byte(byte: Byte) | EndOfFile | Unclosed(item: Item) | Dangling(form: Form, units: seq<Unit>)

  // ----- the text, and what it means

  function UnitText(u: Unit): Str {
    match u
    case Plain(b) => [b]
    case Escaped(b) => [BACKSLASH, b]
  }

  function UnitsText(us: seq<Unit>): Str
    decreases |us|
  {
    if us == [] then [] else UnitText(us[0]) + UnitsText(us[1..])
  }

  /** An escaped quote or backslash is itself, three letters are control characters, any other keeps its backslash. */
  function UnitMeans(u: Unit): Str {
    match u
    case Plain(b) => [b]
    case Escaped(b) =>
      if b == DQUOTE || b == SQUOTE || b == BACKSLASH then [b]
      else if b == LOWER_T then [9]
      else if b == LOWER_R then [13]
      else if b == LOWER_N then [10]
      else [BACKSLASH, b]
  }

  function Means(us: seq<Unit>): Str
    decreases |us|
  {
    if us == [] then [] else UnitMeans(us[0]) + Means(us[1..])
  }

  function Quote(form: Form): Str {
    match form
    case Bare => []
    case Single => [SQUOTE]
    case Double => [DQUOTE]
  }

  function ItemText(i: Item): Str {
    match i
    case Gap(b) => [b]
    case Comment(text) => [SHARP] + text + [LF]
    case Word(form, us) => Quote(form) + UnitsText(us) + Quote(form)
  }

  function Text(items: seq<Item>): Str
    decreases |items|
  {
    if items == [] then [] else ItemText(items[0]) + Text(items[1..])
  }

  function Words(items: seq<Item>): seq<Str>
    decreases |items|
  {
    if items == [] then [] else (if items[0].Word? then [Means(items[0].units)] else []) + Words(items[1..])
  }

  function Newlines(w: Str): nat
    decreases |w|
  {
    if w == [] then 0 else (if w[0] == LF then 1 else 0) + Newlines(w[1..])
  }

  function EndText(end: End): Str {
    match end
    case Byte(b) => [b]
    case EndOfFile => []
    case Unclosed(i) =>
      if i.Comment? then [SHARP] + i.text else if i.Word? then Quote(i.form) + UnitsText(i.units) else []
    case Dangling(form, us) => Quote(form) + UnitsText(us) + [BACKSLASH]
  }

  // ----- which texts are meant

  predicate IsBlank(b: Byte) {
    b == SPACE || b == HT || b == CR || b == LF
  }

  /** Whether braces that follow belong to a variable of the word. */
  predicate InVariable(u: Unit, variable: bool) {
    u.Plain? && (u.byte == DOLLAR || (u.byte == LBRACE && variable))
  }

  predicate UnitOk(form: Form, u: Unit, variable: bool) {
    || u.Escaped?
    || match form
       case Bare =>
         if u.byte == LBRACE then variable else !IsBlank(u.byte) && u.byte != SEMICOLON && u.byte != BACKSLASH
       case Single => u.byte != SQUOTE && u.byte != BACKSLASH
       case Double => u.byte != DQUOTE && u.byte != BACKSLASH
  }

  predicate UnitsOk(form: Form, us: seq<Unit>, variable: bool)
    decreases |us|
  {
    us == [] || (UnitOk(form, us[0], variable) && UnitsOk(form, us[1..], InVariable(us[0], variable)))
  }

  /** A word without quotes may begin with this; a dollar sign begins no variable there. */
  predicate Starts(u: Unit) {
    || u.Escaped?
    || (!IsBlank(u.byte) && u.byte != SEMICOLON && u.byte != LBRACE && u.byte != RBRACE && u.byte != SHARP
        && u.byte != BACKSLASH && u.byte != DQUOTE && u.byte != SQUOTE)
  }

  predicate ItemOk(i: Item) {
    match i
    case Gap(b) => IsBlank(b)
    case Comment(text) => LF !in text
    case Word(form, us) =>
      if form == Bare then us != [] && Starts(us[0]) && UnitsOk(Bare, us[1..], false) else UnitsOk(form, us, false)
  }

  predicate AllOk(items: seq<Item>) {
    forall i :: 0 <= i < |items| ==> ItemOk(items[i])
  }

  /** Behind a word comes a blank; behind a closing quote a word may come that starts with a parenthesis. */
  predicate Follows(prev: Option<Item>, i: Item) {
    prev.Some? && prev.value.Word? ==>
      i.Gap? || (prev.value.form != Bare && i.Word? && i.form == Bare && i.units != [] && i.units[0] == Plain(RPAREN))
  }

  function Variable(us: seq<Unit>, variable: bool): bool
    decreases |us|
  {
    if us == [] then variable else Variable(us[1..], InVariable(us[0], variable))
  }

  /** A brace behind the item would belong to it. */
  predicate EndsInVariable(prev: Option<Item>) {
    prev.Some? && prev.value.Word? && prev.value.form == Bare && prev.value.units != []
      && Variable(prev.value.units[1..], false)
  }

  /** What may end a text; behind a closing quote also what is wrong there, anything but a blank and a parenthesis. */
  predicate EndFollows(prev: Option<Item>, end: End) {
    match end
    case Byte(b) =>
      || b == SEMICOLON
      || (b == LBRACE && !EndsInVariable(prev))
      || (b == RBRACE && !(prev.Some? && prev.value.Word? && prev.value.form == Bare))
      || (prev.Some? && prev.value.Word? && prev.value.form != Bare && !IsBlank(b) && b != RPAREN)
    case EndOfFile => true
    case Unclosed(i) => !(prev.Some? && prev.value.Word?) && !i.Gap? && ItemOk(i) && !(i.Word? && i.form == Bare)
    case Dangling(form, us) =>
      && Follows(prev, Word(form, us))
      && if form == Bare then us == [] || ItemOk(Word(form, us)) else ItemOk(Word(form, us))
  }

  predicate Chain(prev: Option<Item>, items: seq<Item>, end: End)
    decreases |items|
  {
    if items == [] then EndFollows(prev, end)
    else Follows(prev, items[0]) && Chain(Some(items[0]), items[1..], end)
  }

  // ----- what a call returns

  /** The status for the words read up to the end. */
  function StatusOf(end: End, words: seq<Str>): Status {
    match end
    case Byte(b) =>
      if b == SEMICOLON && words != [] then SEMICOLON_END
      else if b == LBRACE && words != [] then BLOCK_START
      else if b == RBRACE && words == [] then BLOCK_DONE
      else ERROR
    case EndOfFile => if words == [] then FILE_DONE else ERROR
    case Unclosed(i) => if i.Comment? && words == [] then FILE_DONE else ERROR
    case Dangling(_, _) => ERROR
  }

  /**
   The items and the end leave room in the window, of which `used` bytes are taken. What is taken begins anew with
   every word and every comment; a blank adds to it.
   */
  predicate Fits(items: seq<Item>, end: End, used: nat, limit: nat)
    decreases |items|
  {
    if items == [] then EndFits(end, used, limit)
    else Room(items[0], used, limit) && Fits(items[1..], end, Used(items[0], used), limit)
  }

  predicate Room(i: Item, used: nat, limit: nat) {
    && used < limit
    && (i.Comment? ==> |i.text| + 1 < limit)
    && (i.Word? ==> |UnitsText(i.units)| + (if i.form == Bare then 0 else 1) <= limit)
  }

  function Used(i: Item, used: nat): nat {
    match i
    case Gap(_) => used + 1
    case Comment(text) => |text| + 2
    case Word(form, us) => |UnitsText(us)| + if form == Bare then 0 else 1
  }

  predicate EndFits(end: End, used: nat, limit: nat) {
    match end
    case Byte(_) => used < limit
    case EndOfFile => true
    case Unclosed(i) =>
      used < limit && (i.Comment? ==> |i.text| < limit) && (i.Word? ==> |UnitsText(i.units)| <= limit)
    case Dangling(_, us) => used < limit && |UnitsText(us)| < limit
  }

  /** An error, or exactly these words, this line and this position. */
  predicate Returns(t: Token, status: Status, words: seq<Str>, line: nat, pos: nat) {
    if status == ERROR then t.status == ERROR && !t.overflow else t == Token(status, words, line, pos, false)
  }

  predicate Overflows(t: Token) {
    t.status == ERROR && t.overflow
  }

  // ----- text in a file

  /** `part` stands in `file` at `p`. */
  predicate At(file: Str, p: nat, part: Str) {
    p + |part| <= |file| && file[p..p + |part|] == part
  }

  lemma AtSplit(file: Str, p: nat, a: Str, b: Str)
    ensures At(file, p, a + b) <==> At(file, p, a) && At(file, p + |a|, b)
  {
    if At(file, p, a + b) {
      assert file[p..p + |a|] == file[p..p + |a + b|][..|a|];
      assert file[p + |a|..p + |a| + |b|] == file[p..p + |a + b|][|a|..];
    }
    if At(file, p, a) && At(file, p + |a|, b) {
      assert file[p..p + |a + b|] == file[p..p + |a|] + file[p + |a|..p + |a| + |b|];
    }
  }

  lemma AtBytes(file: Str, p: nat, part: Str)
    requires At(file, p, part)
    ensures p + |part| <= |file| && forall i :: 0 <= i < |part| ==> file[p + i] == part[i]
  {
    forall i | 0 <= i < |part| ensures file[p + i] == part[i] {
      assert file[p..p + |part|][i] == file[p + i];
    }
  }

  lemma AtByte(file: Str, p: nat, b: Byte)
    ensures At(file, p, [b]) <==> p < |file| && file[p] == b
  {
    if p < |file| {
      assert file[p..p + 1] == [file[p]];
    }
  }

  lemma {:induction false} NewlinesBoth(a: Str, b: Str)
    ensures Newlines(a + b) == Newlines(a) + Newlines(b)
    decreases |a|
  {
    if a == [] {
      assert a + b == b;
    } else {
      assert (a + b)[1..] == a[1..] + b;
      NewlinesBoth(a[1..], b);
    }
  }

  lemma NewlinesOne(b: Byte)
    ensures Newlines([b]) == if b == LF then 1 else 0
  {
    assert [b][1..] == [];
  }

  // ----- inside a word

  /** The copy loop on the text of units. */
  lemma {:induction false} DecodeUnits(file: Str, us: seq<Unit>, p: nat)
    requires At(file, p, UnitsText(us)) && p + |UnitsText(us)| < |file|
    requires forall i :: 0 <= i < |us| && us[i].Plain? ==> us[i].byte != BACKSLASH
    ensures Decode(file, p, p + |UnitsText(us)|) == Means(us)
    decreases |us|
  {
    hide Decode, UnitText, UnitMeans, At;
    if us == [] {
      DecodeNothing(file, p);
    } else {
      var unit, rest := UnitText(us[0]), us[1..];
      AtSplit(file, p, unit, UnitsText(rest));
      DecodeUnits(file, rest, p + |unit|);
      DecodeUnit(file, us[0], p, p + |UnitsText(us)|);
    }
  }

  lemma DecodeNothing(file: Str, p: nat)
    requires p < |file|
    ensures Decode(file, p, p) == []
  {
  }

  lemma DecodeUnit(file: Str, u: Unit, p: nat, end: nat)
    requires At(file, p, UnitText(u)) && p + |UnitText(u)| <= end < |file| && (u.Plain? ==> u.byte != BACKSLASH)
    ensures Decode(file, p, end) == UnitMeans(u) + Decode(file, p + |UnitText(u)|, end)
  {
    hide At, Decode;
    UnitBytes(file, u, p);
    DecodeOnce(file, p, end);
    if u.Escaped? {
      DecodeOnce(file, p + 1, end);
      assert [BACKSLASH] + ([u.byte] + Decode(file, p + 2, end)) == [BACKSLASH, u.byte] + Decode(file, p + 2, end);
    }
  }

  lemma DecodeOnce(file: Str, p: nat, end: nat)
    requires p < end < |file|
    ensures file[p] != BACKSLASH ==> Decode(file, p, end) == [file[p]] + Decode(file, p + 1, end)
    ensures file[p] == BACKSLASH ==>
              var b := file[p + 1];
              Decode(file, p, end) ==
              if b == DQUOTE || b == SQUOTE || b == BACKSLASH then [b] + Decode(file, p + 2, end)
              else if b == LOWER_T then [HT] + Decode(file, p + 2, end)
              else if b == LOWER_R then [CR] + Decode(file, p + 2, end)
              else if b == LOWER_N then [LF] + Decode(file, p + 2, end)
              else [BACKSLASH] + Decode(file, p + 1, end)
  {
  }

  lemma UnitBytes(file: Str, u: Unit, p: nat)
    requires At(file, p, UnitText(u))
    ensures p + |UnitText(u)| <= |file| && file[p] == UnitText(u)[0]
    ensures u.Escaped? ==> file[p] == BACKSLASH && file[p + 1] == u.byte
    ensures u.Plain? ==> file[p] == u.byte
  {
    AtBytes(file, p, UnitText(u));
    assert u.Escaped? ==> UnitText(u)[1] == u.byte;
  }

  lemma {:induction false} NoBackslash(form: Form, us: seq<Unit>, variable: bool)
    requires UnitsOk(form, us, variable)
    ensures forall i :: 0 <= i < |us| && us[i].Plain? ==> us[i].byte != BACKSLASH
    decreases |us|
  {
    if us != [] {
      NoBackslash(form, us[1..], InVariable(us[0], variable));
    }
  }

  lemma BareNoBackslash(us: seq<Unit>)
    requires us != [] && Starts(us[0]) && UnitsOk(Bare, us[1..], false)
    ensures forall i :: 0 <= i < |us| && us[i].Plain? ==> us[i].byte != BACKSLASH
  {
    NoBackslash(Bare, us[1..], false);
    assert forall i :: 0 < i < |us| ==> us[i] == us[1..][i - 1];
  }

  /** The scanner within a word. */
  predicate Inside(s: Scan, form: Form) {
    && !s.needSpace && !s.lastSpace && !s.comment && !s.quoted
    && (s.sQuoted <==> form == Single) && (s.dQuoted <==> form == Double)
  }

  function AfterUnit(s: Scan, u: Unit): Scan {
    s.(variable := InVariable(u, s.variable), line := s.line + if u.byte == LF then 1 else 0)
  }

  function AfterUnits(s: Scan, us: seq<Unit>): Scan
    decreases |us|
  {
    if us == [] then s else AfterUnits(AfterUnit(s, us[0]), us[1..])
  }

  /** Reading on comes to the same, if there is room for it. */
  predicate Goes(t: Token, room: bool, u: Token) {
    if room then t == u else Overflows(t)
  }

  lemma StepUnit(file: Str, u: Unit, form: Form, p: nat, s: Scan)
    requires Inside(s, form) && UnitOk(form, u, s.variable) && p < |file| && file[p] == UnitText(u)[0]
    ensures Step(file, s, p) ==
            More(if u.Plain? then AfterUnit(s, u) else s.(variable := false, quoted := true))
  {
  }

  /** Whatever stands behind a backslash means nothing to the scanner. */
  lemma StepEscaped(file: Str, s: Scan, p: nat)
    requires s.quoted && !s.comment && p < |file|
    ensures Step(file, s, p) == More(s.(quoted := false, line := s.line + if file[p] == LF then 1 else 0))
  {
  }

  lemma ScanUnit(file: Str, u: Unit, form: Form, p: nat, s: Scan, limit: nat)
    requires Inside(s, form) && UnitOk(form, u, s.variable) && s.start <= p && p - s.start <= limit
    requires At(file, p, UnitText(u))
    ensures var q := p + |UnitText(u)|;
            Goes(Scanned(file, p, s, limit), q - s.start <= limit, Scanned(file, q, AfterUnit(s, u), limit))
  {
    hide Step, Scanned, At, UnitOk;
    UnitBytes(file, u, p);
    StepUnit(file, u, form, p, s);
    ScannedByte(file, p, s, limit);
    if u.Escaped? {
      var s1 := s.(variable := false, quoted := true);
      StepEscaped(file, s1, p + 1);
      ScannedByte(file, p + 1, s1, limit);
    }
  }

  lemma {:induction false} ScanUnits(file: Str, us: seq<Unit>, form: Form, p: nat, s: Scan, limit: nat)
    requires Inside(s, form) && UnitsOk(form, us, s.variable) && s.start <= p && p - s.start <= limit
    requires At(file, p, UnitsText(us))
    ensures var q := p + |UnitsText(us)|;
            && AfterUnits(s, us).start == s.start
            && Goes(Scanned(file, p, s, limit), q - s.start <= limit, Scanned(file, q, AfterUnits(s, us), limit))
    decreases |us|
  {
    hide Scanned, At;
    AfterUnitsIs(s, us, form);
    if us != [] {
      var unit := UnitText(us[0]);
      AtSplit(file, p, unit, UnitsText(us[1..]));
      ScanUnit(file, us[0], form, p, s, limit);
      if p + |unit| - s.start <= limit {
        ScanUnits(file, us[1..], form, p + |unit|, AfterUnit(s, us[0]), limit);
      }
    }
  }

  lemma {:induction false} AfterUnitsIs(s: Scan, us: seq<Unit>, form: Form)
    requires Inside(s, form)
    ensures var w := AfterUnits(s, us);
            && Inside(w, form) && w == s.(variable := w.variable, line := s.line + Newlines(UnitsText(us)))
            && w.variable == Variable(us, s.variable)
    decreases |us|
  {
    if us != [] {
      AfterUnitsIs(AfterUnit(s, us[0]), us[1..], form);
      NewlinesBoth(UnitText(us[0]), UnitsText(us[1..]));
      NewlinesUnit(us[0]);
    }
  }

  lemma NewlinesUnit(u: Unit)
    ensures Newlines(UnitText(u)) == if u.byte == LF then 1 else 0
  {
    NewlinesOne(u.byte);
    if u.Escaped? {
      assert [BACKSLASH, u.byte][1..] == [u.byte];
    }
  }

  // ----- item by item

  /** Between two parameters. */
  predicate IsBetween(s: Scan) {
    s.lastSpace && !s.needSpace && !s.comment && !s.variable && !s.quoted && !s.sQuoted && !s.dQuoted
  }

  /** Behind a closing quote. */
  predicate IsClosed(s: Scan) {
    s.needSpace && !s.lastSpace && !s.comment && !s.variable && !s.quoted && !s.sQuoted && !s.dQuoted
  }

  /** The scanner behind an item; a word without quotes is still pending. */
  predicate Behind(file: Str, s: Scan, p: nat, prev: Option<Item>) {
    if prev.None? || !prev.value.Word? then IsBetween(s)
    else if prev.value.form != Bare then IsClosed(s) && s.args != []
    else
      && Inside(s, Bare) && s.variable == EndsInVariable(prev)
      && s.start + |UnitsText(prev.value.units)| == p && At(file, s.start, UnitsText(prev.value.units))
      && forall i :: 0 <= i < |prev.value.units| && prev.value.units[i].Plain? ==> prev.value.units[i].byte != BACKSLASH
  }

  function Pending(prev: Option<Item>): seq<Str> {
    if prev.Some? && prev.value.Word? && prev.value.form == Bare then [Means(prev.value.units)] else []
  }

  /** Behind a blank. */
  function AfterGap(s: Scan, prev: Option<Item>, b: Byte): Scan {
    s.(lastSpace := true, needSpace := false, variable := false, args := s.args + Pending(prev),
       line := s.line + if b == LF then 1 else 0)
  }

  lemma ScanGap(file: Str, b: Byte, p: nat, s: Scan, prev: Option<Item>, limit: nat)
    requires Behind(file, s, p, prev) && IsBlank(b) && s.start <= p && p - s.start <= limit && At(file, p, [b])
    ensures IsBetween(AfterGap(s, prev, b))
    ensures Goes(Scanned(file, p, s, limit), p - s.start < limit, Scanned(file, p + 1, AfterGap(s, prev, b), limit))
  {
    hide Scanned, Step, At, IsBlank, Behind;
    AtByte(file, p, b);
    ScannedByte(file, p, s, limit);
    StepGap(file, b, p, s, prev);
  }

  lemma StepGap(file: Str, b: Byte, p: nat, s: Scan, prev: Option<Item>)
    requires Behind(file, s, p, prev) && IsBlank(b) && p < |file| && file[p] == b
    ensures Step(file, s, p) == More(AfterGap(s, prev, b)) && IsBetween(AfterGap(s, prev, b))
  {
    if Pending(prev) == [] {
      hide Decode;
      assert s.args + [] == s.args;
    } else {
      DecodeUnits(file, prev.value.units, s.start);
      hide Decode, Means, UnitsText, At;
    }
  }

  lemma {:induction false} CommentRun(file: Str, text: Str, p: nat, s: Scan, limit: nat)
    requires s.comment && LF !in text && s.start <= p && p - s.start <= limit && At(file, p, text)
    ensures var q := p + |text|;
            Goes(Scanned(file, p, s, limit), q - s.start <= limit, Scanned(file, q, s, limit))
    decreases |text|
  {
    hide Scanned;
    if text != [] {
      assert text == [text[0]] + text[1..];
      AtSplit(file, p, [text[0]], text[1..]);
      AtByte(file, p, text[0]);
      ScannedByte(file, p, s, limit);
      if p - s.start < limit {
        CommentRun(file, text[1..], p + 1, s, limit);
      }
    }
  }

  /** Within a comment that begins at `p`. */
  function InComment(s: Scan, p: nat): Scan {
    s.(start := p, startLine := s.line, comment := true)
  }

  lemma OpenComment(file: Str, text: Str, p: nat, s: Scan, limit: nat)
    requires IsBetween(s) && s.start <= p && p - s.start <= limit && LF !in text && At(file, p, [SHARP] + text)
    ensures var q := p + 1 + |text|;
            Goes(Scanned(file, p, s, limit), p - s.start < limit && |text| < limit,
                 Scanned(file, q, InComment(s, p), limit))
  {
    AtSplit(file, p, [SHARP], text);
    AtByte(file, p, SHARP);
    ScannedByte(file, p, s, limit);
    if p - s.start < limit {
      assert Step(file, s, p) == More(InComment(s, p));
      CommentRun(file, text, p + 1, InComment(s, p), limit);
    }
    hide Scanned, Step;
  }

  lemma ScanComment(file: Str, text: Str, p: nat, s: Scan, limit: nat)
    requires IsBetween(s) && s.start <= p && p - s.start <= limit && LF !in text && At(file, p, [SHARP] + text + [LF])
    ensures var q, w := p + |text| + 2, s.(start := p, startLine := s.line, line := s.line + 1);
            Goes(Scanned(file, p, s, limit), p - s.start < limit && |text| + 1 < limit, Scanned(file, q, w, limit))
  {
    AtSplit(file, p, [SHARP] + text, [LF]);
    OpenComment(file, text, p, s, limit);
    var q := p + 1 + |text|;
    AtByte(file, q, LF);
    if p - s.start < limit && |text| < limit {
      ScannedByte(file, q, InComment(s, p), limit);
      assert Step(file, InComment(s, p), q) == More(s.(start := p, startLine := s.line, line := s.line + 1));
    }
    hide Scanned, Step;
  }

  /** Behind an opening quote. */
  function Opened(s: Scan, form: Form, p: nat): Scan {
    s.(start := p + 1, startLine := s.line, lastSpace := false, sQuoted := form == Single, dQuoted := form == Double)
  }

  lemma OpenQuote(file: Str, form: Form, us: seq<Unit>, p: nat, s: Scan, limit: nat)
    requires IsBetween(s) && form != Bare && UnitsOk(form, us, false) && s.start <= p && p - s.start <= limit
    requires At(file, p, Quote(form) + UnitsText(us))
    ensures var q, w := p + 1 + |UnitsText(us)|, AfterUnits(Opened(s, form, p), us);
            && Inside(w, form) && w.start == p + 1
            && Goes(Scanned(file, p, s, limit), p - s.start < limit && |UnitsText(us)| <= limit,
                    Scanned(file, q, w, limit))
  {
    hide Scanned, Step, At, UnitsOk, UnitsText;
    assert Quote(form) == [Quote(form)[0]];
    AtSplit(file, p, Quote(form), UnitsText(us));
    AtByte(file, p, Quote(form)[0]);
    ScannedByte(file, p, s, limit);
    StepOpen(file, form, p, s);
    AfterUnitsIs(Opened(s, form, p), us, form);
    if p - s.start < limit {
      ScanUnits(file, us, form, p + 1, Opened(s, form, p), limit);
    }
  }

  lemma StepOpen(file: Str, form: Form, p: nat, s: Scan)
    requires IsBetween(s) && form != Bare && p < |file| && file[p] == Quote(form)[0]
    ensures Step(file, s, p) == More(Opened(s, form, p)) && Inside(Opened(s, form, p), form)
    ensures !Opened(s, form, p).variable && |Quote(form)| == 1
  {
  }

  /** Behind the closing quote of a word that began at `p`. */
  function Closed(s: Scan, us: seq<Unit>, p: nat): Scan {
    s.(start := p + 1, startLine := s.line, lastSpace := false, needSpace := true,
       line := s.line + Newlines(UnitsText(us)), args := s.args + [Means(us)])
  }

  lemma CloseQuote(file: Str, form: Form, us: seq<Unit>, p: nat, s: Scan)
    requires Inside(s, form) && form != Bare && UnitsOk(form, us, false) && s.start <= p < |file|
    requires s.start + |UnitsText(us)| == p && At(file, s.start, UnitsText(us)) && file[p] == Quote(form)[0]
    ensures Step(file, s, p) ==
            More(s.(variable := false, sQuoted := false, dQuoted := false, needSpace := true,
                    args := s.args + [Means(us)]))
  {
    NoBackslash(form, us, false);
    DecodeUnits(file, us, s.start);
    hide Decode, Means, UnitsText;
  }

  lemma ScanQuoted(file: Str, form: Form, us: seq<Unit>, p: nat, s: Scan, limit: nat)
    requires IsBetween(s) && form != Bare && UnitsOk(form, us, false) && s.start <= p && p - s.start <= limit
    requires At(file, p, Quote(form) + UnitsText(us) + Quote(form))
    ensures IsClosed(Closed(s, us, p))
    ensures Goes(Scanned(file, p, s, limit), p - s.start < limit && |UnitsText(us)| < limit,
                 Scanned(file, p + |UnitsText(us)| + 2, Closed(s, us, p), limit))
  {
    hide Scanned, Step, Means, UnitsText, At, UnitsOk;
    AtSplit(file, p, Quote(form) + UnitsText(us), Quote(form));
    AtSplit(file, p, Quote(form), UnitsText(us));
    OpenQuote(file, form, us, p, s, limit);
    var q, w := p + 1 + |UnitsText(us)|, AfterUnits(Opened(s, form, p), us);
    AtByte(file, q, Quote(form)[0]);
    AfterUnitsIs(Opened(s, form, p), us, form);
    if p - s.start < limit && |UnitsText(us)| <= limit {
      CloseQuote(file, form, us, q, w);
      ScannedByte(file, q, w, limit);
    }
  }

  /** Behind a word without quotes that began at `p`, but for its variable. */
  function Begun(s: Scan, p: nat): Scan {
    s.(start := p, startLine := s.line, lastSpace := false, needSpace := false)
  }

  lemma FirstUnit(file: Str, u: Unit, p: nat, s: Scan, limit: nat)
    requires IsBetween(s) || (IsClosed(s) && u == Plain(RPAREN))
    requires Starts(u) && s.start <= p && p - s.start <= limit && At(file, p, UnitText(u))
    ensures var q := p + |UnitText(u)|;
            Goes(Scanned(file, p, s, limit), p - s.start < limit && |UnitText(u)| <= limit,
                 Scanned(file, q, Begun(s, p).(line := s.line + if u.byte == LF then 1 else 0), limit))
  {
    hide Scanned, Step, At, Starts;
    UnitBytes(file, u, p);
    StepFirst(file, u, p, s);
    ScannedByte(file, p, s, limit);
    if u.Escaped? && p - s.start < limit {
      var s1 := Begun(s, p).(quoted := true);
      StepEscaped(file, s1, p + 1);
      ScannedByte(file, p + 1, s1, limit);
    }
  }

  lemma StepFirst(file: Str, u: Unit, p: nat, s: Scan)
    requires IsBetween(s) || (IsClosed(s) && u == Plain(RPAREN))
    requires Starts(u) && p < |file| && file[p] == UnitText(u)[0]
    ensures Step(file, s, p) == More(if u.Escaped? then Begun(s, p).(quoted := true) else Begun(s, p))
    ensures u.Plain? ==> u.byte != LF
  {
  }

  lemma ScanBare(file: Str, us: seq<Unit>, p: nat, s: Scan, limit: nat)
    requires us != [] && Starts(us[0]) && UnitsOk(Bare, us[1..], false)
    requires IsBetween(s) || (IsClosed(s) && us[0] == Plain(RPAREN))
    requires s.start <= p && p - s.start <= limit && At(file, p, UnitsText(us))
    ensures var w := AfterUnits(Begun(s, p).(line := s.line + if us[0].byte == LF then 1 else 0), us[1..]);
            && Behind(file, w, p + |UnitsText(us)|, Some(Word(Bare, us))) && w.args == s.args
            && w.line == s.line + Newlines(UnitsText(us)) && w.start == p
            && Goes(Scanned(file, p, s, limit), p - s.start < limit && |UnitsText(us)| <= limit,
                    Scanned(file, p + |UnitsText(us)|, w, limit))
  {
    hide Scanned, At, UnitsOk, UnitText, Starts;
    var unit, rest := UnitText(us[0]), us[1..];
    AtSplit(file, p, unit, UnitsText(rest));
    FirstUnit(file, us[0], p, s, limit);
    var w := Begun(s, p).(line := s.line + if us[0].byte == LF then 1 else 0);
    AfterUnitsIs(w, rest, Bare);
    BareNoBackslash(us);
    NewlinesBoth(unit, UnitsText(rest));
    NewlinesUnit(us[0]);
    if p - s.start < limit && |unit| <= limit {
      ScanUnits(file, rest, Bare, p + |unit|, w, limit);
    }
  }

  /** Behind an item that began at `p`. */
  function AfterItem(s: Scan, prev: Option<Item>, i: Item, p: nat): Scan
    requires ItemOk(i)
  {
    match i
    case Gap(b) => AfterGap(s, prev, b)
    case Comment(_) => s.(start := p, startLine := s.line, line := s.line + 1)
    case Word(form, us) =>
      if form != Bare then Closed(s, us, p)
      else AfterUnits(Begun(s, p).(line := s.line + if us[0].byte == LF then 1 else 0), us[1..])
  }

  /** What reading an item does. */
  predicate Passes(file: Str, i: Item, p: nat, s: Scan, prev: Option<Item>, limit: nat)
    requires ItemOk(i) && s.start <= p <= |file|
  {
    var w, q := AfterItem(s, prev, i, p), p + |ItemText(i)|;
    && Behind(file, w, q, Some(i)) && w.start <= q <= |file| && q - w.start == Used(i, p - s.start)
    && w.args + Pending(Some(i)) == s.args + Pending(prev) + (if i.Word? then [Means(i.units)] else [])
    && w.line == s.line + Newlines(ItemText(i))
    && Goes(Scanned(file, p, s, limit), Room(i, p - s.start, limit), Scanned(file, q, w, limit))
  }

  lemma PassGap(file: Str, b: Byte, p: nat, s: Scan, prev: Option<Item>, limit: nat)
    requires Behind(file, s, p, prev) && IsBlank(b) && s.start <= p && p - s.start <= limit && At(file, p, [b])
    ensures p < |file| && Passes(file, Gap(b), p, s, prev, limit)
  {
    hide Scanned, Means, IsBlank, At;
    ScanGap(file, b, p, s, prev, limit);
    AtByte(file, p, b);
    NewlinesOne(b);
    assert AfterGap(s, prev, b).args + [] == s.args + Pending(prev) == s.args + Pending(prev) + [];
  }

  lemma PassComment(file: Str, text: Str, p: nat, s: Scan, prev: Option<Item>, limit: nat)
    requires Behind(file, s, p, prev) && Follows(prev, Comment(text)) && LF !in text
    requires s.start <= p && p - s.start <= limit && At(file, p, [SHARP] + text + [LF])
    ensures p <= |file| && Passes(file, Comment(text), p, s, prev, limit)
  {
    hide Scanned, Newlines;
    ScanComment(file, text, p, s, limit);
    NewlinesComment(text);
    assert s.args + [] + [] == s.args + [];
  }

  lemma PassBare(file: Str, us: seq<Unit>, p: nat, s: Scan, prev: Option<Item>, limit: nat)
    requires Behind(file, s, p, prev) && ItemOk(Word(Bare, us)) && Follows(prev, Word(Bare, us))
    requires s.start <= p && p - s.start <= limit && At(file, p, UnitsText(us))
    ensures p <= |file| && Passes(file, Word(Bare, us), p, s, prev, limit)
  {
    hide Scanned, Means, UnitsOk, Starts, UnitsText, AfterUnits, Inside, EndsInVariable, Newlines;
    assert [] + UnitsText(us) + [] == UnitsText(us);
    ScanBare(file, us, p, s, limit);
    assert s.args + [] + [Means(us)] == s.args + [Means(us)];
  }

  lemma PassQuoted(file: Str, form: Form, us: seq<Unit>, p: nat, s: Scan, prev: Option<Item>, limit: nat)
    requires Behind(file, s, p, prev) && form != Bare && UnitsOk(form, us, false) && Follows(prev, Word(form, us))
    requires s.start <= p && p - s.start <= limit && At(file, p, Quote(form) + UnitsText(us) + Quote(form))
    ensures p <= |file| && Passes(file, Word(form, us), p, s, prev, limit)
  {
    hide Scanned, Means, UnitsOk, UnitsText, Newlines;
    ScanQuoted(file, form, us, p, s, limit);
    NewlinesQuoted(form, us);
    assert s.args + [Means(us)] + [] == s.args + [] + [Means(us)];
  }

  lemma ScanItem(file: Str, i: Item, p: nat, s: Scan, prev: Option<Item>, limit: nat)
    requires Behind(file, s, p, prev) && ItemOk(i) && Follows(prev, i) && s.start <= p && p - s.start <= limit
    requires At(file, p, ItemText(i))
    ensures p <= |file| && Passes(file, i, p, s, prev, limit)
  {
    hide Behind, Follows, Passes, UnitsText, UnitsOk, At;
    match i
    case Gap(b) => PassGap(file, b, p, s, prev, limit);
    case Comment(text) => PassComment(file, text, p, s, prev, limit);
    case Word(form, us) =>
      if form == Bare {
        assert [] + UnitsText(us) + [] == UnitsText(us);
        PassBare(file, us, p, s, prev, limit);
      } else {
        PassQuoted(file, form, us, p, s, prev, limit);
      }
  }

  lemma NewlinesComment(text: Str)
    requires LF !in text
    ensures Newlines([SHARP] + text + [LF]) == 1
  {
    NewlinesBoth([SHARP] + text, [LF]);
    NewlinesBoth([SHARP], text);
    NewlinesOne(SHARP);
    NewlinesOne(LF);
    NoNewlines(text);
  }

  lemma {:induction false} NoNewlines(text: Str)
    requires LF !in text
    ensures Newlines(text) == 0
    decreases |text|
  {
    if text != [] {
      NoNewlines(text[1..]);
    }
  }

  lemma NewlinesQuoted(form: Form, us: seq<Unit>)
    requires form != Bare
    ensures Newlines(Quote(form) + UnitsText(us) + Quote(form)) == Newlines(UnitsText(us))
  {
    NewlinesBoth(Quote(form) + UnitsText(us), Quote(form));
    NewlinesBoth(Quote(form), UnitsText(us));
    NewlinesOne(Quote(form)[0]);
  }

  // ----- the end

  lemma StepEnd(file: Str, b: Byte, p: nat, s: Scan, prev: Option<Item>)
    requires Behind(file, s, p, prev) && EndFollows(prev, Byte(b)) && p < |file| && file[p] == b && s.start <= p
    ensures var words := s.args + Pending(prev);
            match Step(file, s, p)
            case More(_) => false
            case Stop(status, w) =>
              status == StatusOf(Byte(b), words) && (status != ERROR ==> w.args == words && w.line == s.line)
  {
    if Pending(prev) == [] {
      hide Decode;
      assert s.args + [] == s.args;
    } else {
      DecodeUnits(file, prev.value.units, s.start);
      hide Decode, Means, UnitsText, At, Variable;
    }
  }

  lemma ScanEnd(file: Str, end: End, p: nat, s: Scan, prev: Option<Item>, limit: nat)
    requires Behind(file, s, p, prev) && EndFollows(prev, end) && s.start <= p && p - s.start <= limit
    requires At(file, p, EndText(end)) && (!end.Byte? ==> p + |EndText(end)| == |file|)
    ensures var t, words := Scanned(file, p, s, limit), s.args + Pending(prev);
            if EndFits(end, p - s.start, limit)
            then Returns(t, StatusOf(end, words), words, s.line, p + |EndText(end)|)
            else Overflows(t)
  {
    hide Scanned, Step, Means, UnitsOk, UnitsText, Starts, IsBlank, Variable;
    match end
    case Byte(b) =>
      AtByte(file, p, b);
      ScannedByte(file, p, s, limit);
      StepEnd(file, b, p, s, prev);
    case EndOfFile =>
      ScannedByte(file, p, s, limit);
      AtFileEnd(s, prev);
    case Unclosed(i) =>
      assert s.args + [] == s.args;
      if i.Comment? {
        OpenComment(file, i.text, p, s, limit);
        if EndFits(end, p - s.start, limit) {
          ScannedByte(file, |file|, InComment(s, p), limit);
        }
      } else {
        OpenQuote(file, i.form, i.units, p, s, limit);
        if EndFits(end, p - s.start, limit) {
          ScannedByte(file, |file|, AfterUnits(Opened(s, i.form, p), i.units), limit);
        }
      }
    case Dangling(form, us) => ScanDangling(file, form, us, p, s, prev, limit);
  }

  /** A backslash at the very end. */
  lemma StepDangling(file: Str, form: Form, q: nat, s: Scan, limit: nat)
    requires Inside(s, form) && s.start <= q && q + 1 == |file| && file[q] == BACKSLASH && q - s.start <= limit
    ensures var t := Scanned(file, q, s, limit);
            if q - s.start < limit then t.status == ERROR && !t.overflow else Overflows(t)
  {
    hide Scanned;
    ScannedByte(file, q, s, limit);
    var w := s.(variable := false, quoted := true);
    assert Step(file, s, q) == More(w);
    ScannedByte(file, q + 1, w, limit);
  }

  lemma ScanDangling(file: Str, form: Form, us: seq<Unit>, p: nat, s: Scan, prev: Option<Item>, limit: nat)
    requires Behind(file, s, p, prev) && EndFollows(prev, Dangling(form, us)) && s.start <= p && p - s.start <= limit
    requires At(file, p, Quote(form) + UnitsText(us) + [BACKSLASH])
    requires p + |Quote(form) + UnitsText(us) + [BACKSLASH]| == |file|
    ensures var t := Scanned(file, p, s, limit);
            if p - s.start < limit && |UnitsText(us)| < limit then t.status == ERROR && !t.overflow else Overflows(t)
  {
    hide Scanned, Step, UnitsOk, Starts, AfterUnits, At, UnitsText;
    var q := |file| - 1;
    AtSplit(file, p, Quote(form) + UnitsText(us), [BACKSLASH]);
    AtByte(file, q, BACKSLASH);
    if form != Bare {
      OpenQuote(file, form, us, p, s, limit);
      if p - s.start < limit && |UnitsText(us)| <= limit {
        StepDangling(file, form, q, AfterUnits(Opened(s, form, p), us), limit);
      }
    } else if us == [] {
      NoUnits();
      ScannedByte(file, p, s, limit);
      var w := Begun(s, p).(quoted := true);
      StepBackslash(file, p, s);
      ScannedByte(file, p + 1, w, limit);
    } else {
      assert [] + UnitsText(us) == UnitsText(us);
      ScanBare(file, us, p, s, limit);
      var w := AfterUnits(Begun(s, p).(line := s.line + if us[0].byte == LF then 1 else 0), us[1..]);
      if p - s.start < limit && |UnitsText(us)| <= limit {
        StepDangling(file, Bare, q, w, limit);
      }
    }
  }

  lemma NoUnits()
    ensures UnitsText([]) == [] && Quote(Bare) + [] == []
  {
  }

  lemma StepBackslash(file: Str, p: nat, s: Scan)
    requires IsBetween(s) && p < |file| && file[p] == BACKSLASH
    ensures Step(file, s, p) == More(Begun(s, p).(quoted := true))
  {
  }

  lemma AtFileEnd(s: Scan, prev: Option<Item>)
    requires Pending(prev) != [] ==> !s.lastSpace
    requires Pending(prev) == [] ==> s.args != [] || s.lastSpace
    ensures s.args + Pending(prev) == [] <==> s.args == [] && s.lastSpace && Pending(prev) == []
  {
  }

  // ----- the whole text

  lemma {:induction false} ScanItems(file: Str, items: seq<Item>, end: End, p: nat, s: Scan, prev: Option<Item>,
                                     limit: nat)
    requires Behind(file, s, p, prev) && AllOk(items) && Chain(prev, items, end) && s.start <= p && p - s.start <= limit
    requires At(file, p, Text(items) + EndText(end)) && (!end.Byte? ==> p + |Text(items) + EndText(end)| == |file|)
    ensures var t, words := Scanned(file, p, s, limit), s.args + Pending(prev) + Words(items);
            if Fits(items, end, p - s.start, limit)
            then Returns(t, StatusOf(end, words), words, s.line + Newlines(Text(items)),
                         p + |Text(items) + EndText(end)|)
            else Overflows(t)
    decreases |items|
  {
    hide Scanned, Means, Behind, ItemOk, ItemText, Used, Room, EndFits, EndFollows, Follows, At, StatusOf;
    hide Text, Words, Newlines, Pending, AfterItem, Returns, EndText;
    ByItem(items);
    if items == [] {
      assert [] + EndText(end) == EndText(end);
      assert s.args + Pending(prev) + [] == s.args + Pending(prev);
      ScanEnd(file, end, p, s, prev, limit);
    } else {
      var i, rest := items[0], items[1..];
      assert Text(items) + EndText(end) == ItemText(i) + (Text(rest) + EndText(end));
      AtSplit(file, p, ItemText(i), Text(rest) + EndText(end));
      ScanItem(file, i, p, s, prev, limit);
      NewlinesBoth(ItemText(i), Text(rest));
      var w, q := AfterItem(s, prev, i, p), p + |ItemText(i)|;
      var one: seq<Str> := if i.Word? then [Means(i.units)] else [];
      Regroup(w.args + Pending(Some(i)), s.args + Pending(prev), one, Words(rest));
      if Room(i, p - s.start, limit) {
        RoomIsWithin(i, p - s.start, limit);
        ScanItems(file, rest, end, q, w, Some(i), limit);
      }
    }
  }

  lemma ByItem(items: seq<Item>)
    ensures items == [] ==> Text(items) == [] && Words(items) == [] && Newlines(Text(items)) == 0
    ensures items != [] ==>
              && Text(items) == ItemText(items[0]) + Text(items[1..])
              && Words(items) == (if items[0].Word? then [Means(items[0].units)] else []) + Words(items[1..])
  {
  }

  lemma Regroup<T>(now: seq<T>, was: seq<T>, one: seq<T>, more: seq<T>)
    requires now == was + one
    ensures now + more == was + (one + more)
  {
  }

  lemma RoomIsWithin(i: Item, used: nat, limit: nat)
    requires Room(i, used, limit)
    ensures Used(i, used) <= limit
  {
  }

  lemma BeginsBetween(file: Str, pos: nat, line: nat)
    ensures var s := Begin(pos, line);
            Behind(file, s, pos, None) && s.start == pos && s.line == line && s.args == [] && Pending(None) == []
  {
  }

  /**
   Main theorem: what a call returns for a text, wherever it stands in a file. The words it means, the status of its
   end, the line after the line feeds it has, the position behind it; an error when the end is not right for the
   words; and an overflow exactly if the window has no room for it.
   */
  lemma TextReadsBack(file: Str, items: seq<Item>, end: End, pos: nat, line: nat, limit: nat)
    requires AllOk(items) && Chain(None, items, end) && At(file, pos, Text(items) + EndText(end))
    requires !end.Byte? ==> pos + |Text(items) + EndText(end)| == |file|
    ensures var t := ReadToken(file, pos, line, limit);
            if Fits(items, end, 0, limit)
            then Returns(t, StatusOf(end, Words(items)), Words(items), line + Newlines(Text(items)),
                         pos + |Text(items) + EndText(end)|)
            else Overflows(t)
  {
    hide Scanned, Fits, Chain, Text, EndText, Words, Newlines, AllOk, StatusOf, At, Returns;
    BeginsBetween(file, pos, line);
    ScanItems(file, items, end, pos, Begin(pos, line), None, limit);
    assert [] + [] + Words(items) == Words(items);
  }

  // ----- every file is such a text

  /** The units of a word from `p` on, up to what ends it. */
  lemma {:induction false} TakeUnits(file: Str, form: Form, p: nat, variable: bool) returns (us: seq<Unit>, q: nat)
    requires p <= |file|
    ensures UnitsOk(form, us, variable) && At(file, p, UnitsText(us)) && q == p + |UnitsText(us)| <= |file|
    ensures q < |file| ==> (file[q] == BACKSLASH && q + 1 == |file|) || Ends(file[q], form, Variable(us, variable))
    decreases |file| - p
  {
    us, q := [], p;
    if p == |file| || (file[p] == BACKSLASH && p + 1 == |file|) || Ends(file[p], form, variable) {
      return;
    }
    var u := if file[p] == BACKSLASH then Escaped(file[p + 1]) else Plain(file[p]);
    var unit := UnitText(u);
    var rest;
    rest, q := TakeUnits(file, form, p + |unit|, InVariable(u, variable));
    us := [u] + rest;
    assert us[1..] == rest;
    assert At(file, p, unit) by {
      assert file[p..p + |unit|] == unit;
    }
    AtSplit(file, p, unit, UnitsText(rest));
  }

  /** What ends a word: its quote, or a blank, a semicolon or a brace that belongs to no variable. */
  predicate Ends(b: Byte, form: Form, variable: bool) {
    if form == Bare then IsBlank(b) || b == SEMICOLON || (b == LBRACE && !variable) else b == Quote(form)[0]
  }

  lemma {:induction false} TakeComment(file: Str, p: nat) returns (text: Str, q: nat)
    requires p <= |file|
    ensures LF !in text && At(file, p, text) && q == p + |text| <= |file| && (q < |file| ==> file[q] == LF)
    decreases |file| - p
  {
    text, q := [], p;
    if p < |file| && file[p] != LF {
      text, q := TakeComment(file, p + 1);
      AtByte(file, p, file[p]);
      AtSplit(file, p, [file[p]], text);
      text := [file[p]] + text;
    }
  }

  /** A word without quotes goes on to its end. */
  predicate AtItsEnd(file: Str, p: nat, prev: Option<Item>)
    requires p <= |file|
  {
    prev.Some? && prev.value.Word? && prev.value.form == Bare && p < |file| ==>
      Ends(file[p], Bare, EndsInVariable(prev))
  }

  predicate Reads(file: Str, p: nat, prev: Option<Item>, items: seq<Item>, end: End) {
    && AllOk(items) && Chain(prev, items, end) && At(file, p, Text(items) + EndText(end))
    && (!end.Byte? ==> p + |Text(items) + EndText(end)| == |file|)
  }

  lemma ReadsMore(file: Str, p: nat, prev: Option<Item>, i: Item, items: seq<Item>, end: End)
    requires ItemOk(i) && Follows(prev, i) && At(file, p, ItemText(i))
    requires Reads(file, p + |ItemText(i)|, Some(i), items, end)
    ensures Reads(file, p, prev, [i] + items, end)
  {
    hide At, ItemText, ItemOk, Follows;
    var all := [i] + items;
    assert all[1..] == items;
    assert Text(all) + EndText(end) == ItemText(i) + (Text(items) + EndText(end));
    AtSplit(file, p, ItemText(i), Text(items) + EndText(end));
  }

  lemma ReadsEnd(file: Str, p: nat, prev: Option<Item>, end: End)
    requires EndFollows(prev, end) && At(file, p, EndText(end)) && (!end.Byte? ==> p + |EndText(end)| == |file|)
    ensures Reads(file, p, prev, [], end)
  {
    assert [] + EndText(end) == EndText(end);
  }

  /** From any position on a file is a text of the language, up to an end. */
  lemma {:induction false} TextOf(file: Str, p: nat, prev: Option<Item>) returns (items: seq<Item>, end: End)
    requires p <= |file| && AtItsEnd(file, p, prev)
    ensures Reads(file, p, prev, items, end)
    decreases |file| - p
  {
    hide Reads, At, EndText, ItemText, ItemOk, Text;
    var word := prev.Some? && prev.value.Word?;
    if p == |file| {
      items, end := [], EndOfFile;
      EndOfFileReads(file, prev);
    } else if IsBlank(file[p]) {
      AtGap(file, p);
      items, end := TextOf(file, p + 1, Some(Gap(file[p])));
      ReadsMore(file, p, prev, Gap(file[p]), items, end);
      items := [Gap(file[p])] + items;
    } else if !word && file[p] == SHARP {
      items, end := TextOfComment(file, p, prev);
    } else if !word && (file[p] == SQUOTE || file[p] == DQUOTE) {
      items, end := TextOfQuoted(file, p, prev, if file[p] == SQUOTE then Single else Double);
    } else if EndFollows(prev, Byte(file[p])) {
      items, end := [], Byte(file[p]);
      ByteReads(file, p, prev);
    } else {
      items, end := TextOfBare(file, p, prev);
    }
  }

  lemma EndOfFileReads(file: Str, prev: Option<Item>)
    ensures Reads(file, |file|, prev, [], EndOfFile)
  {
  }

  lemma ByteReads(file: Str, p: nat, prev: Option<Item>)
    requires p < |file| && EndFollows(prev, Byte(file[p]))
    ensures Reads(file, p, prev, [], Byte(file[p]))
  {
    AtByte(file, p, file[p]);
    ReadsEnd(file, p, prev, Byte(file[p]));
  }

  lemma AtGap(file: Str, p: nat)
    requires p < |file| && IsBlank(file[p])
    ensures At(file, p, ItemText(Gap(file[p]))) && |ItemText(Gap(file[p]))| == 1 && ItemOk(Gap(file[p]))
  {
    AtByte(file, p, file[p]);
  }

  lemma {:induction false} TextOfComment(file: Str, p: nat, prev: Option<Item>) returns (items: seq<Item>, end: End)
    requires p < |file| && file[p] == SHARP && !(prev.Some? && prev.value.Word?)
    ensures Reads(file, p, prev, items, end)
    decreases |file| - p, 0
  {
    hide Reads, At;
    var text, q := TakeComment(file, p + 1);
    AtByte(file, p, SHARP);
    AtSplit(file, p, [SHARP], text);
    if q == |file| {
      items, end := [], Unclosed(Comment(text));
      ReadsEnd(file, p, prev, end);
    } else {
      AtByte(file, q, LF);
      AtSplit(file, p, [SHARP] + text, [LF]);
      items, end := TextOf(file, q + 1, Some(Comment(text)));
      ReadsMore(file, p, prev, Comment(text), items, end);
      items := [Comment(text)] + items;
    }
  }

  lemma {:induction false} TextOfQuoted(file: Str, p: nat, prev: Option<Item>, form: Form)
      returns (items: seq<Item>, end: End)
    requires p < |file| && form != Bare && file[p] == Quote(form)[0] && !(prev.Some? && prev.value.Word?)
    ensures Reads(file, p, prev, items, end)
    decreases |file| - p, 0
  {
    hide Reads, At, UnitsOk, UnitsText;
    var us, q := TakeUnits(file, form, p + 1, false);
    assert Quote(form) == [file[p]];
    AtByte(file, p, file[p]);
    AtSplit(file, p, Quote(form), UnitsText(us));
    if q == |file| {
      items, end := [], Unclosed(Word(form, us));
      ReadsEnd(file, p, prev, end);
    } else if file[q] == BACKSLASH {
      AtByte(file, q, BACKSLASH);
      AtSplit(file, p, Quote(form) + UnitsText(us), [BACKSLASH]);
      items, end := [], Dangling(form, us);
      ReadsEnd(file, p, prev, end);
    } else {
      AtByte(file, q, file[q]);
      AtSplit(file, p, Quote(form) + UnitsText(us), Quote(form));
      items, end := TextOf(file, q + 1, Some(Word(form, us)));
      ReadsMore(file, p, prev, Word(form, us), items, end);
      items := [Word(form, us)] + items;
    }
  }

  /** What is no end and no blank begins a word without quotes. */
  lemma BareBegins(file: Str, p: nat, prev: Option<Item>)
    requires p < |file| && AtItsEnd(file, p, prev) && !IsBlank(file[p]) && !EndFollows(prev, Byte(file[p]))
    requires !(prev.Some? && prev.value.Word?) ==> file[p] != SHARP && file[p] != SQUOTE && file[p] != DQUOTE
    ensures file[p] != BACKSLASH ==> Starts(Plain(file[p]))
    ensures prev.Some? && prev.value.Word? ==> prev.value.form != Bare && file[p] == RPAREN
  {
    hide Variable;
  }

  lemma TakeBare(file: Str, p: nat, u: Unit) returns (us: seq<Unit>, q: nat)
    requires Starts(u) && p + |UnitText(u)| <= |file| && At(file, p, UnitText(u))
    ensures us != [] && us[0] == u && UnitsOk(Bare, us[1..], false)
    ensures At(file, p, UnitsText(us)) && p < q == p + |UnitsText(us)| <= |file|
    ensures q < |file| ==> (file[q] == BACKSLASH && q + 1 == |file|) || Ends(file[q], Bare, Variable(us[1..], false))
  {
    hide At, Starts, UnitsOk, Variable, Ends;
    var unit, rest := UnitText(u), [];
    rest, q := TakeUnits(file, Bare, p + |unit|, false);
    us := [u] + rest;
    assert us[1..] == rest && UnitsText(us) == unit + UnitsText(rest);
    AtSplit(file, p, unit, UnitsText(rest));
  }

  lemma {:induction false} TextOfBare(file: Str, p: nat, prev: Option<Item>) returns (items: seq<Item>, end: End)
    requires p < |file| && AtItsEnd(file, p, prev) && !IsBlank(file[p]) && !EndFollows(prev, Byte(file[p]))
    requires !(prev.Some? && prev.value.Word?) ==> file[p] != SHARP && file[p] != SQUOTE && file[p] != DQUOTE
    ensures Reads(file, p, prev, items, end)
    decreases |file| - p, 1
  {
    BareBegins(file, p, prev);
    hide Reads, At, UnitsText, UnitsOk, Variable, IsBlank;
    if file[p] == BACKSLASH && p + 1 == |file| {
      AtByte(file, p, BACKSLASH);
      items, end := [], Dangling(Bare, []);
      NoUnits();
      assert [] + [BACKSLASH] == [BACKSLASH];
      ReadsEnd(file, p, prev, end);
    } else {
      var u := if file[p] == BACKSLASH then Escaped(file[p + 1]) else Plain(file[p]);
      AtUnit(file, p, u);
      var us, q := TakeBare(file, p, u);
      items, end := TextFromBare(file, p, prev, us, q);
    }
  }

  lemma {:induction false} TextFromBare(file: Str, p: nat, prev: Option<Item>, us: seq<Unit>, q: nat)
      returns (items: seq<Item>, end: End)
    requires ItemOk(Word(Bare, us)) && At(file, p, UnitsText(us)) && p < q == p + |UnitsText(us)| <= |file|
    requires prev.Some? && prev.value.Word? ==> prev.value.form != Bare && us[0] == Plain(RPAREN)
    requires q < |file| ==> (file[q] == BACKSLASH && q + 1 == |file|) || Ends(file[q], Bare, Variable(us[1..], false))
    ensures Reads(file, p, prev, items, end)
    decreases |file| - p, 0
  {
    hide Reads, At, UnitsText, UnitsOk, Variable, Starts, IsBlank;
    assert [] + UnitsText(us) + [] == UnitsText(us) && [] + UnitsText(us) == UnitsText(us);
    if q + 1 == |file| && file[q] == BACKSLASH {
      AtByte(file, q, BACKSLASH);
      AtSplit(file, p, [] + UnitsText(us), [BACKSLASH]);
      items, end := [], Dangling(Bare, us);
      ReadsEnd(file, p, prev, end);
    } else {
      items, end := TextOf(file, q, Some(Word(Bare, us)));
      ReadsMore(file, p, prev, Word(Bare, us), items, end);
      items := [Word(Bare, us)] + items;
    }
  }

  lemma AtUnit(file: Str, p: nat, u: Unit)
    requires p < |file| && file[p] == UnitText(u)[0] && (u.Escaped? ==> p + 1 < |file| && file[p + 1] == u.byte)
    ensures At(file, p, UnitText(u))
  {
    assert file[p..p + |UnitText(u)|] == UnitText(u);
  }

  /** So the theorem is about every call: whatever the file and the position, what stands there is such a text. */
  lemma EveryCallReadsText(file: Str, pos: nat, line: nat, limit: nat) returns (items: seq<Item>, end: End)
    requires pos <= |file|
    ensures Reads(file, pos, None, items, end)
    ensures var t := ReadToken(file, pos, line, limit);
            if Fits(items, end, 0, limit)
            then Returns(t, StatusOf(end, Words(items)), Words(items), line + Newlines(Text(items)),
                         pos + |Text(items) + EndText(end)|)
            else Overflows(t)
  {
    hide At, Text, EndText, Words, Fits, StatusOf, Chain, AllOk;
    items, end := TextOf(file, pos, None);
    TextReadsBack(file, items, end, pos, line, limit);
  }
}
