/**
 The three pairs of hash and comparator that come with the map: byte strings, unsigned and signed words. Each
 comparator is lawful and tells all keys apart, so with any of them the map is a finite map on the keys
 themselves; its order, by hash first, is another matter.
 */
module MapKeys {
  import opened Bytes
  import opened NgxMap

  const WORD: nat := 0x1_0000_0000_0000_0000
  const HALF: int := 0x8000_0000_0000_0000

  /** A key as it is stored: a signed machine word. */
  type Word = k: int | -HALF <= k < HALF witness 0

  /** The word as an unsigned one. */
  function Unsigned(k: Word): nat {
    if k < 0 then k + WORD else k
  }

  function Sign(k: int): int {
    if k < 0 then -1 else if k > 0 then 1 else 0
  }

  function HashWord(k: Word): nat {
    Unsigned(k)
  }

  function CmpUint(a: Word, b: Word): int {
    Sign(Unsigned(a) - Unsigned(b))
  }

  function CmpInt(a: Word, b: Word): int {
    Sign(a - b)
  }

  /** ngx_hash_key, in an unsigned word. */
  function HashStr(k: seq<Byte>): nat {
    if k == [] then 0 else (HashStr(k[..|k| - 1]) * 31 + k[|k| - 1]) % WORD
  }

  /** ngx_memn2cmp, down to its sign: the first different byte decides, else the length. */
  function CmpStr(a: seq<Byte>, b: seq<Byte>): int {
    if a == [] || b == [] then Sign(|a| - |b|)
    else if a[0] != b[0] then if a[0] < b[0] then -1 else 1
    else CmpStr(a[1..], b[1..])
  }

  function Pow(b: nat, n: nat): nat {
    if n == 0 then 1 else b * Pow(b, n - 1)
  }

  /** The bytes as the digits of a number to the base 31, the first one the highest. */
  function Digits(k: seq<Byte>): nat
    decreases |k|
  {
    if k == [] then 0 else k[0] * Pow(31, |k| - 1) + Digits(k[1..])
  }

  lemma {:induction false} DigitsSnoc(k: seq<Byte>, b: Byte)
    ensures Digits(k + [b]) == Digits(k) * 31 + b
    decreases |k|
  {
    if k == [] {
      assert [] + [b] == [b] && [b][1..] == [];
      assert Pow(31, 0) == 1;
    } else {
      assert (k + [b])[1..] == k[1..] + [b];
      DigitsSnoc(k[1..], b);
      var p := Pow(31, |k| - 1);
      assert Pow(31, |k|) == 31 * p;
      assert k[0] * (31 * p) == k[0] * p * 31;
    }
  }

  /** The hash of a string is that number, in a word. */
  lemma {:induction false} HashStrIs(k: seq<Byte>)
    ensures HashStr(k) == Digits(k) % WORD
    decreases |k|
  {
    if k != [] {
      var n := |k| - 1;
      HashStrIs(k[..n]);
      DigitsSnoc(k[..n], k[n]);
      assert k == k[..n] + [k[n]];
      OnlyRemainder(Digits(k[..n]), k[n]);
    }
  }

  lemma {:induction false} WordsOff(y: nat, q: nat)
    ensures (y + WORD * q) % WORD == y % WORD
    decreases q
  {
    if q > 0 {
      WordsOff(y, q - 1);
      assert y + WORD * q == y + WORD * (q - 1) + WORD;
    }
  }

  lemma OnlyRemainder(x: nat, b: nat)
    ensures (x % WORD * 31 + b) % WORD == (x * 31 + b) % WORD
  {
    var q, r := x / WORD, x % WORD;
    assert x * 31 + b == r * 31 + b + WORD * (q * 31);
    WordsOff(r * 31 + b, q * 31);
  }

  lemma WordsAreLawful()
    ensures Lawful(CmpUint) && Lawful(CmpInt)
  {
  }

  lemma {:induction false} CmpStrSigns(a: seq<Byte>, b: seq<Byte>)
    ensures -1 <= CmpStr(a, b) <= 1 && CmpStr(b, a) == -CmpStr(a, b)
    ensures CmpStr(a, b) == 0 <==> a == b
  {
    if a != [] && b != [] && a[0] == b[0] {
      CmpStrSigns(a[1..], b[1..]);
      assert a == [a[0]] + a[1..] && b == [b[0]] + b[1..];
    }
  }

  /** The order of byte strings: at the first byte that differs the smaller one comes first, a prefix before all. */
  lemma {:induction false} CmpStrMeans(a: seq<Byte>, b: seq<Byte>)
    ensures CmpStr(a, b) < 0 <==>
              a < b || exists i :: 0 <= i < |a| && i < |b| && a[..i] == b[..i] && a[i] < b[i]
  {
    if a != [] && b != [] && a[0] == b[0] {
      CmpStrMeans(a[1..], b[1..]);
      assert a == [a[0]] + a[1..] && b == [b[0]] + b[1..];
      forall i | 0 <= i < |a| && i < |b| && a[..i] == b[..i] && a[i] < b[i]
        ensures a[1..][..i - 1] == b[1..][..i - 1] && a[1..][i - 1] < b[1..][i - 1]
      {
        assert a[1..][..i - 1] == a[..i][1..] && b[1..][..i - 1] == b[..i][1..];
      }
      forall i | 0 <= i < |a[1..]| && i < |b[1..]| && a[1..][..i] == b[1..][..i] && a[1..][i] < b[1..][i]
        ensures a[..i + 1] == b[..i + 1] && a[i + 1] < b[i + 1]
      {
        assert a[..i + 1] == [a[0]] + a[1..][..i] && b[..i + 1] == [b[0]] + b[1..][..i];
      }
    } else if a != [] && b != [] {
      assert a[..0] == b[..0];
      assert forall i :: 0 < i <= |a| && i <= |b| ==> a[..i][0] != b[..i][0];
    }
  }

  lemma {:induction false} CmpStrChains(a: seq<Byte>, b: seq<Byte>, c: seq<Byte>)
    requires CmpStr(a, b) <= 0 && CmpStr(b, c) <= 0
    ensures CmpStr(a, c) <= 0
  {
    if a != [] && b != [] && c != [] && a[0] == b[0] && b[0] == c[0] {
      CmpStrChains(a[1..], b[1..], c[1..]);
    }
  }

  lemma StringsAreLawful()
    ensures Lawful(CmpStr)
  {
    forall a, b ensures -1 <= CmpStr(a, b) <= 1 && CmpStr(b, a) == -CmpStr(a, b) {
      CmpStrSigns(a, b);
    }
    forall a, b, c | CmpStr(a, b) <= 0 && CmpStr(b, c) <= 0 ensures CmpStr(a, c) <= 0 {
      CmpStrChains(a, b, c);
    }
  }

  /** No two keys are taken for one: an equal hash alone never makes them the same. */
  lemma KeysAreToldApart(a: seq<Byte>, b: seq<Byte>, k: Word, l: Word)
    ensures Same(HashStr, CmpStr, a, b) <==> a == b
    ensures Same(HashWord, CmpUint, k, l) <==> k == l
    ensures Same(HashWord, CmpInt, k, l) <==> k == l
  {
    CmpStrSigns(a, b);
  }

  /**
   A map of signed keys is not in signed order: the hash has the last word, and it puts every negative key
   behind every other one. The comparator never decides.
   */
  lemma SignedMapIsInUnsignedOrder(k: Word, l: Word)
    ensures Less(HashWord, CmpInt, k, l) <==> Unsigned(k) < Unsigned(l)
    ensures Less(HashWord, CmpInt, k, l) <==> if (k < 0) == (l < 0) then k < l else l < 0
  {
  }

  /** So the first node has the least signed key exactly when no key is negative, or all are. */
  lemma FirstIsLeastWhen(s: seq<Word>)
    requires s != [] && forall i, j :: 0 <= i < j < |s| ==> Less(HashWord, CmpInt, s[i], s[j])
    ensures (forall i :: 0 <= i < |s| ==> s[0] <= s[i])
       <==> (forall i :: 0 <= i < |s| ==> s[i] >= 0) || (forall i :: 0 <= i < |s| ==> s[i] < 0)
  {
    forall i | 0 < i < |s| ensures s[0] <= s[i] <==> (s[0] < 0) == (s[i] < 0) {
      SignedMapIsInUnsignedOrder(s[0], s[i]);
      assert Less(HashWord, CmpInt, s[0], s[i]);
    }
  }
}
