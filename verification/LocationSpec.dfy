/**
 What a virtual server's `location` directives mean, independently of how they are compiled:
 the exact location of the URI, else the longest prefix location if it is marked "^~", else the
 first matching regex in declaration order, else that longest prefix location.
 */
module LocationSpec {
  import opened Bytes

  /** The part of ngx_http_dynamic_core_loc_conf_t that selection reads; `id` tells two directives apart. */
  datatype LocConf = LocConf(id: nat, name: Str, exactMatch: bool, noregex: bool, regex: bool, caseless: bool)

  /** Result of the search in the static tree: NGX_OK, NGX_AGAIN, NGX_DECLINED with the conf it stored. */
  datatype StaticMatch = Exact(conf: LocConf) | Inclusive(conf: LocConf) | NoMatch

  /** What ngx_regex_exec may answer. */
  datatype RegexResult = Matched | NotMatched | Failed

  /** Result of a whole lookup; NGX_ERROR is a failing regex. */
  datatype Decision = Ok(conf: LocConf) | Again(conf: LocConf) | Declined | Error

  function ExactConfs(decls: seq<LocConf>): set<LocConf> {
    set c | c in decls && !c.regex && c.exactMatch
  }

  function PrefixConfs(decls: seq<LocConf>): set<LocConf> {
    set c | c in decls && !c.regex && !c.exactMatch
  }

  /** The regex locations, in declaration order. */
  function RegexConfs(decls: seq<LocConf>): seq<LocConf> {
    if decls == [] then []
    else (if decls[0].regex then [decls[0]] else []) + RegexConfs(decls[1..])
  }

  /** `r` is what the static locations `exact` and `prefix` say about `uri`. */
  ghost predicate IsStaticAnswer(exact: set<LocConf>, prefix: set<LocConf>, uri: Str, r: StaticMatch) {
    match r
    case Exact(c) =>
      c in exact && c.name == uri
    case Inclusive(c) =>
      && (forall e :: e in exact ==> e.name != uri)
      && c in prefix && c.name <= uri
      && (forall d :: d in prefix && d.name <= uri ==> |d.name| <= |c.name|)
    case NoMatch =>
      && (forall e :: e in exact ==> e.name != uri)
      && (forall d :: d in prefix ==> !(d.name <= uri))
  }

  /** Two static locations of the same kind and name: "duplicate location". */
  predicate Duplicated(a: LocConf, b: LocConf) {
    !a.regex && !b.regex && a.name == b.name && a.exactMatch == b.exactMatch
  }

  ghost predicate DuplicateFree(decls: seq<LocConf>) {
    forall i, j :: 0 <= i < j < |decls| ==> !Duplicated(decls[i], decls[j])
  }

  lemma NoDuplicate(decls: seq<LocConf>, a: LocConf, b: LocConf)
    requires DuplicateFree(decls) && a in decls && b in decls && Duplicated(a, b)
    ensures a == b
  {
    var i :| 0 <= i < |decls| && decls[i] == a;
    var j :| 0 <= j < |decls| && decls[j] == b;
    if i < j || j < i {
      assert false;
    }
  }

  /** The answer is unique once no location is declared twice. */
  lemma StaticAnswerUnique(decls: seq<LocConf>, uri: Str, r1: StaticMatch, r2: StaticMatch)
    requires DuplicateFree(decls)
    requires IsStaticAnswer(ExactConfs(decls), PrefixConfs(decls), uri, r1)
    requires IsStaticAnswer(ExactConfs(decls), PrefixConfs(decls), uri, r2)
    ensures r1 == r2
  {
    match r1
    case Exact(c) =>
      NoDuplicate(decls, c, r2.conf);
    case Inclusive(c) =>
      assert c.name == uri[..|c.name|];
      assert r2.conf.name == uri[..|r2.conf.name|];
      NoDuplicate(decls, c, r2.conf);
    case NoMatch =>
  }

  /** The regex pass: the first regex that matches, unless one before it fails. */
  function FirstRegex(regexes: seq<LocConf>, uri: Str, exec: (LocConf, Str) -> RegexResult): Option<Decision> {
    if regexes == [] then None
    else match exec(regexes[0], uri)
         case Matched => Some(Ok(regexes[0]))
         case Failed => Some(Error)
         case NotMatched => FirstRegex(regexes[1..], uri, exec)
  }

  /** The rule for a whole lookup, given what the static locations say. */
  function Decide(found: StaticMatch, regexes: seq<LocConf>, uri: Str,
                  exec: (LocConf, Str) -> RegexResult): Decision
  {
    match found
    case Exact(c) => Ok(c)
    case Inclusive(c) =>
      if c.noregex then Again(c) else
      (match FirstRegex(regexes, uri, exec) case Some(d) => d case None => Again(c))
    case NoMatch =>
      (match FirstRegex(regexes, uri, exec) case Some(d) => d case None => Declined)
  }

  // ----- what the declarations prescribe, without saying how it is found

  /** The i-th directive is the first regex location that answers anything but "no match". */
  ghost predicate Strikes(decls: seq<LocConf>, uri: Str, exec: (LocConf, Str) -> RegexResult, i: nat) {
    && i < |decls| && decls[i].regex && exec(decls[i], uri) != NotMatched
    && forall j :: 0 <= j < i && decls[j].regex ==> exec(decls[j], uri) == NotMatched
  }

  ghost predicate NoneStrikes(decls: seq<LocConf>, uri: Str, exec: (LocConf, Str) -> RegexResult) {
    forall i :: 0 <= i < |decls| && decls[i].regex ==> exec(decls[i], uri) == NotMatched
  }

  /** The regexes decide, or leave it at what the static locations came to. */
  ghost predicate RegexesDecide(decls: seq<LocConf>, uri: Str, exec: (LocConf, Str) -> RegexResult, otherwise: Decision,
                                d: Decision)
  {
    || (NoneStrikes(decls, uri, exec) && d == otherwise)
    || exists i: nat ::
         Strikes(decls, uri, exec, i) && d == if exec(decls[i], uri) == Matched then Ok(decls[i]) else Error
  }

  ghost predicate IsExact(decls: seq<LocConf>, uri: Str, c: LocConf) {
    c in decls && !c.regex && c.exactMatch && c.name == uri
  }

  ghost predicate IsPrefix(decls: seq<LocConf>, uri: Str, c: LocConf) {
    c in decls && !c.regex && !c.exactMatch && c.name <= uri
  }

  ghost predicate IsLongestPrefix(decls: seq<LocConf>, uri: Str, c: LocConf) {
    IsPrefix(decls, uri, c) && forall p :: IsPrefix(decls, uri, p) ==> |p.name| <= |c.name|
  }

  /**
   `d` is the decision the declarations prescribe for `uri`: the exact location of that name; else, with the longest
   prefix location, that one if it is marked "^~"; else what the regexes say, and that location, or none, if they
   say nothing.
   */
  ghost predicate Prescribes(decls: seq<LocConf>, uri: Str, exec: (LocConf, Str) -> RegexResult, d: Decision) {
    || (exists c :: IsExact(decls, uri, c) && d == Ok(c))
    || ((forall c :: !IsExact(decls, uri, c))
        && exists c :: IsLongestPrefix(decls, uri, c)
                       && if c.noregex then d == Again(c) else RegexesDecide(decls, uri, exec, Again(c), d))
    || ((forall c :: !IsExact(decls, uri, c)) && (forall c :: !IsPrefix(decls, uri, c))
        && RegexesDecide(decls, uri, exec, Declined, d))
  }

  /** The walk over the regexes stops at the first that strikes. */
  lemma {:induction false} FirstRegexIs(decls: seq<LocConf>, uri: Str, exec: (LocConf, Str) -> RegexResult)
    ensures match FirstRegex(RegexConfs(decls), uri, exec)
            case None => NoneStrikes(decls, uri, exec)
            case Some(d) =>
              exists i: nat ::
                Strikes(decls, uri, exec, i) && d == if exec(decls[i], uri) == Matched then Ok(decls[i]) else Error
    decreases decls
  {
    if decls != [] {
      var rest := decls[1..];
      FirstRegexIs(rest, uri, exec);
      RegexConfsFirst(decls);
      if decls[0].regex && exec(decls[0], uri) != NotMatched {
        assert Strikes(decls, uri, exec, 0);
      } else if i: nat :| Strikes(rest, uri, exec, i) {
        assert decls[i + 1] == rest[i];
        assert forall j :: 0 < j < i + 1 ==> decls[j] == rest[j - 1];
        assert Strikes(decls, uri, exec, i + 1);
        OneStrikes(rest, uri, exec);
      } else {
        assert forall j :: 0 < j < |decls| ==> decls[j] == rest[j - 1];
      }
    }
  }

  lemma RegexConfsFirst(decls: seq<LocConf>)
    requires decls != []
    ensures RegexConfs(decls) == if decls[0].regex then [decls[0]] + RegexConfs(decls[1..]) else RegexConfs(decls[1..])
    ensures decls[0].regex ==> RegexConfs(decls)[1..] == RegexConfs(decls[1..])
  {
    assert [] + RegexConfs(decls[1..]) == RegexConfs(decls[1..]);
  }

  lemma OneStrikes(decls: seq<LocConf>, uri: Str, exec: (LocConf, Str) -> RegexResult)
    ensures forall i: nat, j: nat :: Strikes(decls, uri, exec, i) && Strikes(decls, uri, exec, j) ==> i == j
    ensures NoneStrikes(decls, uri, exec) ==> forall i: nat :: !Strikes(decls, uri, exec, i)
  {
    forall i: nat, j: nat | Strikes(decls, uri, exec, i) && Strikes(decls, uri, exec, j) ensures i == j {
      assert decls[i].regex && decls[j].regex;
    }
  }

  /** What is decided from what the static locations say is what is prescribed. */
  lemma DecidedIsPrescribed(decls: seq<LocConf>, uri: Str, exec: (LocConf, Str) -> RegexResult, found: StaticMatch)
    requires IsStaticAnswer(ExactConfs(decls), PrefixConfs(decls), uri, found)
    ensures Prescribes(decls, uri, exec, Decide(found, RegexConfs(decls), uri, exec))
  {
    FirstRegexIs(decls, uri, exec);
    hide FirstRegex, RegexConfs, Strikes, NoneStrikes;
    StaticsAre(decls, uri);
    match found
    case Exact(c) => assert IsExact(decls, uri, c);
    case Inclusive(c) => assert IsLongestPrefix(decls, uri, c);
    case NoMatch =>
  }

  lemma StaticsAre(decls: seq<LocConf>, uri: Str)
    ensures forall c :: IsExact(decls, uri, c) <==> c in ExactConfs(decls) && c.name == uri
    ensures forall c :: IsPrefix(decls, uri, c) <==> c in PrefixConfs(decls) && c.name <= uri
  {
  }

  /** Without duplicates no two decisions are prescribed. */
  lemma PrescribedIsOne(decls: seq<LocConf>, uri: Str, exec: (LocConf, Str) -> RegexResult, d: Decision, e: Decision)
    requires DuplicateFree(decls) && Prescribes(decls, uri, exec, d) && Prescribes(decls, uri, exec, e)
    ensures d == e
  {
    OneStrikes(decls, uri, exec);
    hide Strikes, NoneStrikes;
    forall a, b | IsExact(decls, uri, a) && IsExact(decls, uri, b) ensures a == b {
      NoDuplicate(decls, a, b);
    }
    forall a, b | IsLongestPrefix(decls, uri, a) && IsLongestPrefix(decls, uri, b) ensures a == b {
      assert a.name == uri[..|a.name|] && b.name == uri[..|b.name|];
      NoDuplicate(decls, a, b);
    }
  }
}
