/**
 The order in which location names are sorted and searched.

 `FilenameCmp` states what nginx's `ngx_filename_cmp` does on two NUL-terminated byte arrays:
 bytewise, NUL below every byte, '/' below every byte but NUL, stopping at a common NUL.
 `Before` is the order it induces on names: lexicographic, a proper prefix first.
 */
module FilenameOrder {
  import opened Bytes

  function SlashLow(b: Byte): Byte {
    if b == SLASH then 0 else b
  }

  function FilenameCmp(s1: Str, s2: Str, n: nat): int
    requires n <= |s1| && n <= |s2|
    decreases n
  {
    if n == 0 then
      0
    else if s1[0] == s2[0] then
      if s1[0] != NUL then FilenameCmp(s1[1..], s2[1..], n - 1) else 0
    else if s1[0] == NUL || s2[0] == NUL then
      s1[0] - s2[0]
    else
      SlashLow(s1[0]) - SlashLow(s2[0])
  }

  function Rank(b: Byte): int {
    if b == NUL then 0 else if b == SLASH then 1 else b + 1
  }

  predicate Before(a: Str, b: Str)
    decreases |a|
  {
    b != [] && (a == [] || Rank(a[0]) < Rank(b[0]) || (a[0] == b[0] && Before(a[1..], b[1..])))
  }

  /** NUL comes before every other byte, a slash before every byte but NUL, else the smaller one. */
  predicate Sooner(a: Byte, b: Byte) {
    a != b && (a == NUL || (b != NUL && (a == SLASH || (b != SLASH && a < b))))
  }

  /** The order of names: a proper prefix first, else by the first byte that differs. */
  lemma {:induction false} BeforeMeans(a: Str, b: Str)
    ensures Before(a, b) <==>
              a < b || exists i :: 0 <= i < |a| && i < |b| && a[..i] == b[..i] && Sooner(a[i], b[i])
    decreases |a|
  {
    if a != [] && b != [] && a[0] == b[0] {
      BeforeMeans(a[1..], b[1..]);
      assert a == [a[0]] + a[1..] && b == [b[0]] + b[1..];
      forall i | 0 <= i < |a| && i < |b| && a[..i] == b[..i] && Sooner(a[i], b[i])
        ensures a[1..][..i - 1] == b[1..][..i - 1] && Sooner(a[1..][i - 1], b[1..][i - 1])
      {
        assert a[1..][..i - 1] == a[..i][1..] && b[1..][..i - 1] == b[..i][1..];
      }
      forall i | 0 <= i < |a[1..]| && i < |b[1..]| && a[1..][..i] == b[1..][..i] && Sooner(a[1..][i], b[1..][i])
        ensures a[..i + 1] == b[..i + 1] && Sooner(a[i + 1], b[i + 1])
      {
        assert a[..i + 1] == [a[0]] + a[1..][..i] && b[..i + 1] == [b[0]] + b[1..][..i];
      }
    } else if a != [] && b != [] {
      assert a[..0] == b[..0] && (Sooner(a[0], b[0]) <==> Rank(a[0]) < Rank(b[0]));
      assert forall i :: 0 < i <= |a| && i <= |b| ==> a[..i][0] != b[..i][0];
    }
  }

  lemma {:induction false} BeforeIrreflexive(a: Str)
    ensures !Before(a, a)
    decreases |a|
  {
    if a != [] {
      BeforeIrreflexive(a[1..]);
    }
  }

  lemma {:induction false} BeforeTransitive(a: Str, b: Str, c: Str)
    requires Before(a, b) && Before(b, c)
    ensures Before(a, c)
    decreases |a|
  {
    if a != [] && a[0] == b[0] && b[0] == c[0] {
      BeforeTransitive(a[1..], b[1..], c[1..]);
    }
  }

  lemma {:induction false} BeforeTotal(a: Str, b: Str)
    ensures Before(a, b) || Before(b, a) || a == b
    decreases |a|
  {
    if a != [] && b != [] && a[0] == b[0] {
      BeforeTotal(a[1..], b[1..]);
      assert a == [a[0]] + a[1..] && b == [b[0]] + b[1..];
    }
  }

  lemma BeforeAsymmetric(a: Str, b: Str)
    requires Before(a, b)
    ensures !Before(b, a) && a != b
  {
    BeforeIrreflexive(a);
    if Before(b, a) {
      BeforeTransitive(a, b, a);
    }
  }

  /** A proper prefix comes first. */
  lemma {:induction false} PrefixBefore(a: Str, b: Str)
    requires a <= b && a != b
    ensures Before(a, b)
    decreases |a|
  {
    if a != [] {
      assert a == [a[0]] + a[1..] && b == [b[0]] + b[1..];
      PrefixBefore(a[1..], b[1..]);
    }
  }

  /** The names that extend `a` are contiguous: whatever lies between `a` and an extension extends `a` too. */
  lemma {:induction false} PrefixContiguous(a: Str, b: Str, c: Str)
    requires Before(a, b) && Before(b, c) && a <= c
    ensures a <= b
    decreases |a|
  {
    if a != [] {
      assert a[0] == b[0] == c[0];
      PrefixContiguous(a[1..], b[1..], c[1..]);
    }
  }

  lemma {:induction false} BeforeUnderPrefix(p: Str, a: Str, b: Str)
    ensures Before(p + a, p + b) <==> Before(a, b)
    decreases |p|
  {
    if p == [] {
      assert p + a == a && p + b == b;
    } else {
      assert (p + a)[1..] == p[1..] + a && (p + b)[1..] == p[1..] + b;
      BeforeUnderPrefix(p[1..], a, b);
    }
  }

  /** The comparison `cmp_locations` makes, over the terminators: it decides `Before` and equality of names. */
  lemma {:induction false} CmpDecidesBefore(a: Str, b: Str)
    requires NulFree(a) && NulFree(b)
    ensures var rc := FilenameCmp(a + [NUL], b + [NUL], Min(|a|, |b|) + 1);
            (rc < 0 <==> Before(a, b)) && (rc == 0 <==> a == b) && (rc > 0 <==> Before(b, a))
    decreases |a|
  {
    if a != [] && b != [] && a[0] == b[0] {
      assert (a + [NUL])[1..] == a[1..] + [NUL] && (b + [NUL])[1..] == b[1..] + [NUL];
      CmpDecidesBefore(a[1..], b[1..]);
      assert a == [a[0]] + a[1..] && b == [b[0]] + b[1..];
    } else if a == [] && b == [] {
    } else {
      assert a + [NUL] != [] && b + [NUL] != [];
    }
  }

  /** Comparing the first `n` bytes with those of a NUL-free name. */
  lemma {:induction false} CmpPrefix(u: Str, name: Str, n: nat)
    requires n <= |u| && n <= |name| && NulFree(name)
    ensures var rc := FilenameCmp(u, name, n);
            && (rc == 0 <==> u[..n] == name[..n])
            && (rc < 0 ==> Before(u, name) && !(name <= u))
            && (rc > 0 ==> Before(name, u) && !(name <= u) && !(u <= name))
    decreases n
  {
    if n == 0 {
    } else if u[0] != name[0] {
      assert u[..n][0] != name[..n][0];
    } else {
      CmpPrefix(u[1..], name[1..], n - 1);
      assert u[..n] == [u[0]] + u[1..][..n - 1] && name[..n] == [name[0]] + name[1..][..n - 1];
      assert u == [u[0]] + u[1..] && name == [name[0]] + name[1..];
    }
  }
}
