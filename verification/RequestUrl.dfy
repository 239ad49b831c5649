/**
 The request URL splitter: one pass over the bytes that leaves slices of the URL in the caller's record. The
 grammar it accepts is written down separately, as the well-formed URLs and how they are printed.
 */
module RequestUrl {
  import opened Bytes

  /** The bytes `[start, start + len)` of the URL. */
  datatype Slice = Slice(start: nat, len: nat)

  /** The record to be filled; a field that is never filled keeps what the caller had there. */
  datatype Parts = Parts(
    scheme: Slice, user: Slice, host: Slice, port: Slice, path: Slice, args: Slice, fragment: Slice,
    hostWithPort: Slice, uriWithArgs: Slice)

  // ----- the grammar

  datatype Tail =
    | NoPath
    | BareSlash
    | Path(path: Str)
    | PathArgs(path: Str, args: Str)
    | PathArgsFragment(path: Str, args: Str, fragment: Str)

  datatype Url = Url(scheme: Str, user: Option<Str>, host: Str, port: Option<Str>, tail: Tail)

  const SEP: Str := [COLON, SLASH, SLASH]

  predicate SepAt(s: Str, i: int) {
    0 <= i && i + 3 <= |s| && s[i] == COLON && s[i + 1] == SLASH && s[i + 2] == SLASH
  }

  predicate WellFormedScheme(scheme: Str) {
    NulFree(scheme) && forall i :: 0 <= i < |scheme| ==> !SepAt(scheme, i)
  }

  /** Without a user, an `@` anywhere in host or port would make one. */
  predicate WellFormedAuthority(user: Option<Str>, host: Str, port: Option<Str>) {
    && SLASH !in host && COLON !in host
    && (port.Some? ==> port.value != [] && SLASH !in port.value)
    && (user.Some? ==> user.value != [] && SLASH !in user.value && AT !in user.value && (host != [] || port.Some?))
    && (user.None? ==> AT !in host && (port.Some? ==> AT !in port.value))
  }

  /** Without arguments there is no fragment: a `#` is then part of the path. */
  predicate WellFormedTail(tail: Tail) {
    match tail
    case NoPath => true
    case BareSlash => true
    case Path(p) => p != [] && QUESTION !in p
    case PathArgs(p, a) => QUESTION !in p && a != [] && SHARP !in a
    case PathArgsFragment(p, a, f) => QUESTION !in p && SHARP !in a && f != []
  }

  predicate WellFormed(u: Url) {
    && WellFormedScheme(u.scheme) && WellFormedAuthority(u.user, u.host, u.port) && WellFormedTail(u.tail)
    && (PrintAuthority(u.user, u.host, u.port) != [] || u.tail != NoPath)
  }

  /** An optional component behind its delimiter. */
  function Behind(c: Byte, b: Option<Str>): Str {
    if b.Some? then [c] + b.value else []
  }

  function PrintUser(user: Option<Str>): Str {
    if user.Some? then user.value + [AT] else []
  }

  function PrintAuthority(user: Option<Str>, host: Str, port: Option<Str>): Str {
    PrintUser(user) + host + Behind(COLON, port)
  }

  /** What is behind the slash, if there is one. */
  function Text(tail: Tail): Option<Str> {
    match tail
    case NoPath => None
    case BareSlash => Some([])
    case Path(p) => Some(p)
    case PathArgs(p, a) => Some(p + Behind(QUESTION, Some(a)))
    case PathArgsFragment(p, a, f) => Some(p + Behind(QUESTION, Some(a + Behind(SHARP, Some(f)))))
  }

  function PrintTail(tail: Tail): Str {
    Behind(SLASH, Text(tail))
  }

  function Print(u: Url): Str {
    u.scheme + SEP + PrintAuthority(u.user, u.host, u.port) + PrintTail(u.tail)
  }

  // ----- reading

  /** The index of the first `c`, or the length. */
  function IndexOf(s: Str, c: Byte): (k: nat)
    ensures k <= |s| && c !in s[..k] && (k < |s| ==> s[k] == c)
  {
    if s == [] || s[0] == c then 0
    else
      var k := 1 + IndexOf(s[1..], c);
      assert s[..k] == [s[0]] + s[1..][..k - 1];
      k
  }

  lemma {:induction false} IndexIs(s: Str, c: Byte, k: nat)
    requires k <= |s| && c !in s[..k] && (k < |s| ==> s[k] == c)
    ensures IndexOf(s, c) == k
  {
    if k > 0 {
      assert s[0] in s[..k];
      assert forall d :: d in s[1..][..k - 1] ==> d in s[..k];
      IndexIs(s[1..], c, k - 1);
    }
  }

  /** The index of the first "://" with no NUL before it, or the length. */
  function IndexOfSep(s: Str): (k: nat)
    ensures k <= |s| && (k < |s| ==> SepAt(s, k) && NUL !in s[..k])
    ensures forall i :: 0 <= i < k && SepAt(s, i) ==> NUL in s[..i]
  {
    if |s| < 3 || s[0] == NUL then |s|
    else if SepAt(s, 0) then 0
    else
      var k := 1 + IndexOfSep(s[1..]);
      assert s[..k] == [s[0]] + s[1..][..k - 1];
      assert forall i :: 0 < i < |s| ==> SepAt(s, i) == SepAt(s[1..], i - 1) && s[..i] == [s[0]] + s[1..][..i - 1];
      k
  }

  /** What is before the first `c`, and what is behind it if there is one. */
  function Cut(s: Str, c: Byte): (Str, Option<Str>) {
    var k := IndexOf(s, c);
    (s[..k], if k < |s| then Some(s[k + 1..]) else None)
  }

  lemma CutThenGlue(s: Str, c: Byte)
    ensures c !in Cut(s, c).0 && Cut(s, c).0 + Behind(c, Cut(s, c).1) == s
  {
    var k := IndexOf(s, c);
    assert k < |s| ==> s == s[..k] + ([c] + s[k + 1..]);
  }

  lemma GlueThenCut(a: Str, c: Byte, b: Option<Str>)
    requires c !in a
    ensures Cut(a + Behind(c, b), c) == (a, b)
  {
    var s := a + Behind(c, b);
    assert s[..|a|] == a;
    assert b.Some? ==> s[|a|] == c && s[|a| + 1..] == b.value;
    IndexIs(s, c, |a|);
  }

  function ReadHost(user: Option<Str>, s: Str): Option<(Option<Str>, Str, Option<Str>)> {
    var (host, port) := Cut(s, COLON);
    if port == Some([]) then None else Some((user, host, port))
  }

  function ReadAuthority(s: Str): Option<(Option<Str>, Str, Option<Str>)> {
    var (user, rest) := Cut(s, AT);
    if rest.None? then ReadHost(None, s)
    else if user == [] || rest.value == [] then None
    else ReadHost(Some(user), rest.value)
  }

  /** The tail, from what is behind the slash. */
  function ReadTail(s: Option<Str>): Option<Tail> {
    if s.None? then Some(NoPath)
    else if s.value == [] then Some(BareSlash)
    else
      var (path, rest) := Cut(s.value, QUESTION);
      if rest.None? then Some(Path(path))
      else if rest.value == [] then None
      else
        var (args, fragment) := Cut(rest.value, SHARP);
        if fragment.None? then Some(PathArgs(path, args))
        else if fragment.value == [] then None
        else Some(PathArgsFragment(path, args, fragment.value))
  }

  /** The URL, component by component. */
  function Read(url: Str): Option<Url> {
    var i := IndexOfSep(url);
    if i == |url| || i + 3 == |url| then None
    else
      var (authority, rest) := Cut(url[i + 3..], SLASH);
      var a, tail := ReadAuthority(authority), ReadTail(rest);
      if a.None? || tail.None? then None
      else Some(Url(url[..i], a.value.0, a.value.1, a.value.2, tail.value))
  }

  // ----- what is read is what is printed

  lemma AuthorityPrintThenRead(user: Option<Str>, host: Str, port: Option<Str>)
    requires WellFormedAuthority(user, host, port)
    ensures ReadAuthority(PrintAuthority(user, host, port)) == Some((user, host, port))
    ensures SLASH !in PrintAuthority(user, host, port)
  {
    hide Cut;
    var s, rest := PrintAuthority(user, host, port), host + Behind(COLON, port);
    GlueThenCut(host, COLON, port);
    if user.Some? {
      GlueThenCut(user.value, AT, Some(rest));
      assert s == user.value + Behind(AT, Some(rest));
    } else {
      GlueThenCut(rest, AT, None);
      assert s == rest == rest + [];
    }
  }

  lemma PartsOfCut(s: Str, c: Byte, d: Byte)
    requires d !in s
    ensures d !in Cut(s, c).0 && (Cut(s, c).1.Some? ==> d !in Cut(s, c).1.value)
  {
  }

  lemma HostReadThenPrint(user: Option<Str>, s: Str)
    requires SLASH !in s && ReadHost(user, s).Some? && (user.None? ==> AT !in s)
    requires user.Some? ==> user.value != [] && SLASH !in user.value && AT !in user.value && s != []
    ensures var (u, host, port) := ReadHost(user, s).value;
            u == user && WellFormedAuthority(user, host, port) && host + Behind(COLON, port) == s
  {
    hide Cut;
    CutThenGlue(s, COLON);
    PartsOfCut(s, COLON, SLASH);
    if user.None? {
      PartsOfCut(s, COLON, AT);
    }
  }

  lemma AuthorityReadThenPrint(s: Str)
    requires SLASH !in s && ReadAuthority(s).Some?
    ensures var (user, host, port) := ReadAuthority(s).value;
            WellFormedAuthority(user, host, port) && PrintAuthority(user, host, port) == s
  {
    hide Cut, WellFormedAuthority, ReadHost;
    var (user, rest) := Cut(s, AT);
    CutThenGlue(s, AT);
    PartsOfCut(s, AT, SLASH);
    if rest.None? {
      assert s == user;
      HostReadThenPrint(None, s);
    } else {
      HostReadThenPrint(Some(user), rest.value);
      var (_, host, port) := ReadHost(Some(user), rest.value).value;
      assert (user + [AT]) + host + Behind(COLON, port) == user + ([AT] + (host + Behind(COLON, port)));
    }
  }

  lemma TailPrintThenRead(tail: Tail)
    requires WellFormedTail(tail)
    ensures ReadTail(Text(tail)) == Some(tail)
  {
    hide Cut;
    match tail
    case NoPath =>
    case BareSlash =>
    case Path(p) =>
      GlueThenCut(p, QUESTION, None);
      assert p + [] == p;
    case PathArgs(p, a) =>
      GlueThenCut(a, SHARP, None);
      GlueThenCut(p, QUESTION, Some(a));
      assert a + [] == a;
    case PathArgsFragment(p, a, f) =>
      GlueThenCut(a, SHARP, Some(f));
      GlueThenCut(p, QUESTION, Some(a + Behind(SHARP, Some(f))));
  }

  lemma TailReadThenPrint(b: Option<Str>)
    requires ReadTail(b).Some?
    ensures WellFormedTail(ReadTail(b).value) && Text(ReadTail(b).value) == b
  {
    hide Cut;
    if b.Some? && b.value != [] {
      var (p, r) := Cut(b.value, QUESTION);
      CutThenGlue(b.value, QUESTION);
      if r.Some? {
        CutThenGlue(r.value, SHARP);
        assert Cut(r.value, SHARP).0 + [] == Cut(r.value, SHARP).0;
      } else {
        assert p + [] == p;
      }
    }
  }

  lemma SepEndsScheme(scheme: Str, rest: Str)
    requires WellFormedScheme(scheme)
    ensures IndexOfSep(scheme + SEP + rest) == |scheme|
  {
    var s := scheme + SEP + rest;
    assert s[..|scheme|] == scheme && SepAt(s, |scheme|);
    forall j | 0 <= j < |scheme| ensures !SepAt(s, j) {
      assert SepAt(s, j) ==> SepAt(scheme, j);
    }
  }

  /** Printing a well-formed URL and reading it gives its components back. */
  lemma PrintThenRead(u: Url)
    requires WellFormed(u)
    ensures Read(Print(u)) == Some(u)
  {
    hide Cut, IndexOfSep, ReadAuthority, ReadTail, PrintAuthority, Text;
    var authority, b := PrintAuthority(u.user, u.host, u.port), Text(u.tail);
    TailPrintThenRead(u.tail);
    var rest := authority + Behind(SLASH, b);
    assert Print(u) == u.scheme + SEP + rest;
    SepEndsScheme(u.scheme, rest);
    assert Print(u)[..|u.scheme|] == u.scheme && Print(u)[|u.scheme| + 3..] == rest;
    AuthorityPrintThenRead(u.user, u.host, u.port);
    GlueThenCut(authority, SLASH, b);
    NothingBehind(u.tail);
  }

  lemma NothingBehind(tail: Tail)
    ensures PrintTail(tail) == [] <==> tail == NoPath
  {
  }

  /** What is read is well-formed and prints as the URL: nothing is lost, doubled or moved. */
  lemma ReadThenPrint(url: Str)
    requires Read(url).Some?
    ensures WellFormed(Read(url).value) && Print(Read(url).value) == url
  {
    hide Cut, ReadAuthority, ReadTail, PrintAuthority, Text, WellFormedAuthority, WellFormedTail, WellFormedScheme;
    var i := IndexOfSep(url);
    assert url == url[..i] + SEP + url[i + 3..];
    hide SepAt, IndexOfSep;
    var rest := url[i + 3..];
    var (authority, b) := Cut(rest, SLASH);
    CutThenGlue(rest, SLASH);
    AuthorityReadThenPrint(authority);
    TailReadThenPrint(b);
    NothingBehind(ReadTail(b).value);
    SchemeIsWellFormed(url);
    assert url[..i] + SEP + authority + Behind(SLASH, b) == url[..i] + SEP + rest;
  }

  lemma SchemeIsWellFormed(url: Str)
    ensures var i := IndexOfSep(url); i < |url| ==> WellFormedScheme(url[..i])
  {
    var i := IndexOfSep(url);
    var s := url[..i];
    forall j | i < |url| && 0 <= j < i ensures !SepAt(s, j) {
      assert SepAt(s, j) ==> SepAt(url, j);
      assert forall c :: c in url[..j] ==> c in s;
    }
  }

  /** A URL is accepted exactly when it is a well-formed one, printed; and only one is printed so. */
  lemma AcceptedIffPrinted(url: Str)
    ensures Read(url).Some? <==> exists u :: WellFormed(u) && Print(u) == url
    ensures forall u, v :: WellFormed(u) && WellFormed(v) && Print(u) == Print(v) ==> u == v
  {
    if Read(url).Some? {
      ReadThenPrint(url);
    }
    forall u | WellFormed(u) ensures Read(Print(u)) == Some(u) {
      PrintThenRead(u);
    }
  }

  // ----- where the components of a printed URL stand

  function AuthoritySlices(parts: Parts, at: nat, user: Option<Str>, host: Str, port: Option<Str>): Parts {
    var h := at + |PrintUser(user)|;
    var p := parts.(host := Slice(h, |host|), hostWithPort := Slice(h, |host| + |Behind(COLON, port)|));
    var q := if user.Some? then p.(user := Slice(at, |user.value|)) else p;
    if port.Some? then q.(port := Slice(h + |host| + 1, |port.value|)) else q
  }

  function TailSlices(parts: Parts, at: nat, tail: Tail): Parts {
    match tail
    case NoPath => parts
    case BareSlash => parts
    case Path(p) => parts.(path := Slice(at + 1, |p|), uriWithArgs := Slice(at + 1, |p|))
    case PathArgs(p, a) =>
      parts.(path := Slice(at + 1, |p|), args := Slice(at + 2 + |p|, |a|), uriWithArgs := Slice(at + 1, |p| + 1 + |a|))
    case PathArgsFragment(p, a, f) =>
      parts.(path := Slice(at + 1, |p|), args := Slice(at + 2 + |p|, |a|), fragment := Slice(at + 3 + |p| + |a|, |f|),
             uriWithArgs := Slice(at + 1, |p| + 2 + |a| + |f|))
  }

  /** The caller's record with the components of `u` in it. */
  function Slices(parts: Parts, u: Url): Parts {
    var at := |u.scheme| + 3;
    var p := AuthoritySlices(parts.(scheme := Slice(0, |u.scheme|)), at, u.user, u.host, u.port);
    TailSlices(p, at + |PrintAuthority(u.user, u.host, u.port)|, u.tail)
  }

  predicate Shows(url: Str, slice: Slice, text: Str) {
    slice.start + slice.len <= |url| && url[slice.start..slice.start + slice.len] == text
  }

  lemma ShowsWithin(before: Str, text: Str, behind: Str)
    ensures Shows(before + text + behind, Slice(|before|, |text|), text)
  {
  }

  lemma AuthoritySlicesShow(before: Str, user: Option<Str>, host: Str, port: Option<Str>, behind: Str, parts: Parts)
    ensures var url := before + PrintAuthority(user, host, port) + behind;
            var p := AuthoritySlices(parts, |before|, user, host, port);
            && Shows(url, p.host, host) && Shows(url, p.hostWithPort, host + Behind(COLON, port))
            && (if user.Some? then Shows(url, p.user, user.value) else p.user == parts.user)
            && (if port.Some? then Shows(url, p.port, port.value) else p.port == parts.port)
            && p == parts.(user := p.user, host := p.host, port := p.port, hostWithPort := p.hostWithPort)
  {
    hide Shows, Behind;
    var t := Behind(COLON, port);
    var b := before + PrintUser(user);
    Regroup(before, PrintUser(user), host, t, behind);
    ShowsWithin(b, host, t + behind);
    ShowsWithin(b, host + t, behind);
    if user.Some? {
      Regroup(before, user.value, [AT], host + t, behind);
      Regroup(before, user.value + [AT], host, t, behind);
      ShowsWithin(before, user.value, [AT] + (host + t) + behind);
    }
    if port.Some? {
      PortIsLast(b, host, port.value, behind);
      ShowsWithin(b + host + [COLON], port.value, behind);
    }
  }

  lemma PortIsLast(before: Str, host: Str, port: Str, behind: Str)
    ensures before + host + (Behind(COLON, Some(port)) + behind) == before + host + [COLON] + port + behind
  {
  }

  lemma Regroup(a: Str, b: Str, c: Str, d: Str, e: Str)
    ensures a + (b + c + d) + e == (a + b) + c + (d + e)
    ensures a + (b + c + d) + e == (a + b) + (c + d) + e
    ensures a + (b + c + d) + e == a + b + (c + d + e)
    ensures a + b + (c + d + e) == a + (b + c) + d + e
  {
  }

  lemma TailSlicesShow(before: Str, tail: Tail, parts: Parts)
    ensures var url := before + PrintTail(tail);
            var p := TailSlices(parts, |before|, tail);
            && (tail.NoPath? || tail.BareSlash? ==> p == parts)
            && (tail.Path? || tail.PathArgs? || tail.PathArgsFragment? ==>
                  Shows(url, p.path, tail.path) && Shows(url, p.uriWithArgs, Text(tail).value))
            && (if tail.PathArgs? || tail.PathArgsFragment? then Shows(url, p.args, tail.args)
                else p.args == parts.args)
            && (if tail.PathArgsFragment? then Shows(url, p.fragment, tail.fragment) else p.fragment == parts.fragment)
            && p == parts.(path := p.path, args := p.args, fragment := p.fragment, uriWithArgs := p.uriWithArgs)
  {
    hide Shows;
    var b := before + [SLASH];
    match tail
    case NoPath =>
    case BareSlash =>
    case Path(p) =>
      assert before + PrintTail(tail) == b + p + [];
      ShowsWithin(b, p, []);
    case PathArgs(p, a) =>
      assert before + PrintTail(tail) == b + (p + Behind(QUESTION, Some(a)));
      ArgsShow(b, p, a);
    case PathArgsFragment(p, a, f) =>
      assert before + PrintTail(tail) == b + (p + Behind(QUESTION, Some(a + Behind(SHARP, Some(f)))));
      ArgsShow(b, p, a + Behind(SHARP, Some(f)));
      FragmentShows(b, p, a, f);
  }

  lemma ArgsShow(b: Str, p: Str, a: Str)
    ensures var t := p + Behind(QUESTION, Some(a));
            && Shows(b + t, Slice(|b|, |p|), p) && Shows(b + t, Slice(|b|, |p| + 1 + |a|), t)
            && Shows(b + t, Slice(|b| + |p| + 1, |a|), a)
  {
    hide Shows;
    var t := p + Behind(QUESTION, Some(a));
    assert b + t == b + p + ([QUESTION] + a) && b + t == b + t + [] && b + t == (b + p + [QUESTION]) + a + [];
    ShowsWithin(b, p, [QUESTION] + a);
    ShowsWithin(b, t, []);
    ShowsWithin(b + p + [QUESTION], a, []);
  }

  lemma FragmentShows(b: Str, p: Str, a: Str, f: Str)
    ensures var url := b + (p + Behind(QUESTION, Some(a + Behind(SHARP, Some(f)))));
            && Shows(url, Slice(|b| + |p| + 1, |a|), a) && Shows(url, Slice(|b| + |p| + 1 + |a| + 1, |f|), f)
  {
    hide Shows;
    var c := b + p + [QUESTION];
    var url := b + (p + Behind(QUESTION, Some(a + Behind(SHARP, Some(f)))));
    assert url == c + (a + ([SHARP] + f));
    assert url == c + a + ([SHARP] + f);
    ShowsWithin(c, a, [SHARP] + f);
    assert url == (c + a + [SHARP]) + f + [];
    ShowsWithin(c + a + [SHARP], f, []);
  }

  /**
   What the record shows after a URL was accepted: the text of every component the URL has, host with port and
   path with everything behind it, and the caller's own values in the fields of the components it has not.
   */
  lemma SlicesShowComponents(parts: Parts, u: Url)
    ensures var url, p := Print(u), Slices(parts, u);
            && Shows(url, p.scheme, u.scheme)
            && Shows(url, p.host, u.host) && Shows(url, p.hostWithPort, u.host + Behind(COLON, u.port))
            && (if u.user.Some? then Shows(url, p.user, u.user.value) else p.user == parts.user)
            && (if u.port.Some? then Shows(url, p.port, u.port.value) else p.port == parts.port)
            && (if u.tail.NoPath? || u.tail.BareSlash? then p.path == parts.path && p.uriWithArgs == parts.uriWithArgs
                else Shows(url, p.path, u.tail.path) && Shows(url, p.uriWithArgs, Text(u.tail).value))
            && (if u.tail.PathArgs? || u.tail.PathArgsFragment? then Shows(url, p.args, u.tail.args)
                else p.args == parts.args)
            && (if u.tail.PathArgsFragment? then Shows(url, p.fragment, u.tail.fragment)
                else p.fragment == parts.fragment)
  {
    hide AuthoritySlices, TailSlices, PrintAuthority, PrintTail;
    var a, t := PrintAuthority(u.user, u.host, u.port), PrintTail(u.tail);
    var q := parts.(scheme := Slice(0, |u.scheme|));
    assert Print(u) == [] + u.scheme + (SEP + a + t);
    ShowsWithin([], u.scheme, SEP + a + t);
    assert Print(u) == (u.scheme + SEP) + a + t;
    AuthoritySlicesShow(u.scheme + SEP, u.user, u.host, u.port, t, q);
    var r := AuthoritySlices(q, |u.scheme| + 3, u.user, u.host, u.port);
    assert Print(u) == (u.scheme + SEP + a) + t;
    TailSlicesShow(u.scheme + SEP + a, u.tail, r);
  }

  // ----- the parser

  /** ngx_strlchr: the position of the first `c` in `[from, to)`. */
  function Find(s: Str, from: nat, to: nat, c: Byte): (r: Option<nat>)
    requires from <= to <= |s|
    ensures r.Some? ==> from <= r.value < to
    ensures Cut(s[from..to], c)
         == if r.Some? then (s[from..r.value], Some(s[r.value + 1..to])) else (s[from..to], None)
  {
    var k := IndexOf(s[from..to], c);
    assert k < to - from ==>
        s[from..to][..k] == s[from..from + k] && s[from..to][k + 1..] == s[from + k + 1..to];
    assert k == to - from ==> s[from..to][..k] == s[from..to];
    if from + k < to then Some(from + k) else None
  }

  /** ngx_request_url_t: slices that its caller owns and that one parse fills in, some or all. */
  class Request {
    var scheme: Slice
    var user: Slice
    var host: Slice
    var port: Slice
    var path: Slice
    var args: Slice
    var fragment: Slice
    var hostWithPort: Slice
    var uriWithArgs: Slice

    function Fields(): Parts
      reads this
    {
      Parts(scheme, user, host, port, path, args, fragment, hostWithPort, uriWithArgs)
    }

    constructor ()
      ensures Fields() == var s := Slice(0, 0); Parts(s, s, s, s, s, s, s, s, s)
    {
      scheme, user, host, port := Slice(0, 0), Slice(0, 0), Slice(0, 0), Slice(0, 0);
      path, args, fragment := Slice(0, 0), Slice(0, 0), Slice(0, 0);
      hostWithPort, uriWithArgs := Slice(0, 0), Slice(0, 0);
    }

    /** ngx_parse_request_url */
    method Parse(url: Str) returns (ok: bool)
      modifies this
      ensures ok <==> Read(url).Some?
      ensures ok ==> Fields() == Slices(old(Fields()), Read(url).value)
      ensures !ok ==> fragment == old(fragment) && uriWithArgs == old(uriWithArgs)
    {
      hide Cut, IndexOf, IndexOfSep, ReadAuthority, ReadTail, WellFormed, Print, AuthoritySlices, TailSlices;
      var last := |url|;
      if last == 0 {
        return false;
      }
      var user := IndexOfSep(url);
      if user == last {
        return false;
      }
      scheme := Slice(0, user);
      user := user + 3;
      if user >= last {
        return false;
      }
      var slash := Find(url, user, last, SLASH);
      var hostLast := if slash.None? then last else slash.value;
      assert url[user..last] == url[user..];
      assert slash.Some? ==> url[hostLast + 1..last] == url[hostLast + 1..];
      AuthorityEnds(url[user..], url[user..hostLast]);
      ok := ParseAuthority(url, user, hostLast);
      if ok {
        ok := ParseTail(url, hostLast);
      }
    }

    /** The branches between the "//" and the slash. */
    method ParseAuthority(url: Str, from: nat, hostLast: nat) returns (ok: bool)
      requires from <= hostLast <= |url|
      modifies this`user, this`host, this`port, this`hostWithPort
      ensures ok <==> ReadAuthority(url[from..hostLast]).Some?
      ensures ok ==> var (u, h, p) := ReadAuthority(url[from..hostLast]).value;
                     Fields() == AuthoritySlices(old(Fields()), from, u, h, p)
    {
      hide Cut, IndexOf;
      var h := Find(url, from, hostLast, AT);
      var start := from;
      if h.Some? {
        if from == h.value {
          return false;
        }
        user := Slice(from, h.value - from);
        start := h.value + 1;
        if start == hostLast {
          return false;
        }
      }
      var p := Find(url, start, hostLast, COLON);
      if p.None? {
        host := Slice(start, hostLast - start);
        hostWithPort := host;
      } else {
        host := Slice(start, p.value - start);
        var at := p.value + 1;
        assert at == hostLast ==> url[at..hostLast] == [];
        if at == hostLast {
          return false;
        }
        port := Slice(at, hostLast - at);
        hostWithPort := Slice(start, hostLast - start);
      }
      return true;
    }

    /** The branches behind the slash. */
    method ParseTail(url: Str, hostLast: nat) returns (ok: bool)
      requires hostLast <= |url|
      modifies this`path, this`args, this`fragment, this`uriWithArgs
      ensures var b := if hostLast == |url| then None else Some(url[hostLast + 1..]);
              && (ok <==> ReadTail(b).Some?)
              && (ok ==> Fields() == TailSlices(old(Fields()), hostLast, ReadTail(b).value))
      ensures !ok ==> fragment == old(fragment) && uriWithArgs == old(uriWithArgs)
    {
      hide Cut, IndexOf;
      var start, last := hostLast + 1, |url|;
      if start >= last {
        return true;
      }
      assert url[start..last] == url[start..];
      var q := Find(url, start, last, QUESTION);
      if q.None? {
        path := Slice(start, last - start);
        uriWithArgs := path;
        return true;
      }
      path := Slice(start, q.value - start);
      var a := q.value + 1;
      if a == last {
        return false;
      }
      var f := Find(url, a, last, SHARP);
      if f.None? {
        args := Slice(a, last - a);
      } else {
        args := Slice(a, f.value - a);
        var g := f.value + 1;
        if g == last {
          return false;
        }
        fragment := Slice(g, last - g);
      }
      uriWithArgs := Slice(start, last - start);
      return true;
    }
  }

  lemma AuthorityEnds(url: Str, authority: Str)
    requires Cut(url, SLASH).0 == authority
    ensures ReadAuthority(authority).Some? ==>
              var (u, h, p) := ReadAuthority(authority).value; |PrintAuthority(u, h, p)| == |authority|
  {
    CutThenGlue(url, SLASH);
    if ReadAuthority(authority).Some? {
      AuthorityReadThenPrint(authority);
    }
  }
}
