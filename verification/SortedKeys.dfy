/** Comparing lists regardless of order by sorting textual keys, as the access-level comparisons of
    the reconcilers do: format each entry, sort the texts, compare pairwise. */
module SortedKeys {

  // ---------------------------------------------------------------- the %d verb and ':'-joined keys

  function DigitChar(d: nat): (c: char)
    requires d < 10
    ensures c != ':' && c != '-'
  {
    ['0', '1', '2', '3', '4', '5', '6', '7', '8', '9'][d]
  }

  function Digits(n: nat): (s: string)
    ensures |s| > 0 && ':' !in s && '-' !in s
  {
    if n < 10 then [DigitChar(n)] else Digits(n / 10) + [DigitChar(n % 10)]
  }

  /** fmt.Sprintf("%d", n). */
  function Decimal(n: int): (s: string)
    ensures ':' !in s
  {
    if n < 0 then "-" + Digits(-n) else Digits(n)
  }

  lemma {:induction false} DigitsInjective(m: nat, n: nat)
    requires Digits(m) == Digits(n)
    ensures m == n
  {
    var s := Digits(m);
    if m >= 10 && n >= 10 {
      assert s[..|s| - 1] == Digits(m / 10) == Digits(n / 10);
      assert s[|s| - 1] == DigitChar(m % 10) == DigitChar(n % 10);
      DigitsInjective(m / 10, n / 10);
    } else if m < 10 && n < 10 {
      assert s[0] == DigitChar(m) == DigitChar(n);
    } else {
      assert false;
    }
  }

  lemma DecimalInjective(m: int, n: int)
    requires Decimal(m) == Decimal(n)
    ensures m == n
  {
    if m < 0 && n < 0 {
      assert Decimal(m)[1..] == Digits(-m) && Decimal(n)[1..] == Digits(-n);
      DigitsInjective(-m, -n);
    } else if m >= 0 && n >= 0 {
      DigitsInjective(m, n);
    } else {
      assert false;
    }
  }

  function Join(head: string, tail: string): string {
    head + ":" + tail
  }

  /** The first ':' tells where the head ends. */
  lemma JoinInjective(h: string, t: string, h': string, t': string)
    requires ':' !in h && ':' !in h' && Join(h, t) == Join(h', t')
    ensures h == h' && t == t'
  {
    HeadLength(h, t);
    HeadLength(h', t');
    var s := Join(h, t);
    assert h == s[..|h|] && h' == s[..|h'|];
    assert t == s[|h| + 1..] && t' == s[|h'| + 1..];
  }

  function FirstColon(s: string): nat {
    if s == "" || s[0] == ':' then 0 else 1 + FirstColon(s[1..])
  }

  lemma {:induction false} HeadLength(h: string, t: string)
    requires ':' !in h
    ensures FirstColon(Join(h, t)) == |h|
  {
    if h != "" {
      assert Join(h, t)[1..] == Join(h[1..], t);
      assert h[0] in h && h == [h[0]] + h[1..];
      HeadLength(h[1..], t);
    }
  }

  /** "%d:%d:%d". */
  function Key3(k: (int, int, int)): string {
    Join(Decimal(k.0), Join(Decimal(k.1), Decimal(k.2)))
  }

  /** "%d:%d:%d:%d". */
  function Key4(k: (int, int, int, int)): string {
    Join(Decimal(k.0), Key3((k.1, k.2, k.3)))
  }

  lemma Key3Injective(a: (int, int, int), b: (int, int, int))
    requires Key3(a) == Key3(b)
    ensures a == b
  {
    JoinInjective(Decimal(a.0), Join(Decimal(a.1), Decimal(a.2)), Decimal(b.0), Join(Decimal(b.1), Decimal(b.2)));
    JoinInjective(Decimal(a.1), Decimal(a.2), Decimal(b.1), Decimal(b.2));
    DecimalInjective(a.0, b.0);
    DecimalInjective(a.1, b.1);
    DecimalInjective(a.2, b.2);
  }

  lemma Key4Injective(a: (int, int, int, int), b: (int, int, int, int))
    requires Key4(a) == Key4(b)
    ensures a == b
  {
    JoinInjective(Decimal(a.0), Key3((a.1, a.2, a.3)), Decimal(b.0), Key3((b.1, b.2, b.3)));
    DecimalInjective(a.0, b.0);
    Key3Injective((a.1, a.2, a.3), (b.1, b.2, b.3));
  }

  // ---------------------------------------------------------------- string order and sorting

  /** The order of Go strings. */
  predicate Leq(a: string, b: string) {
    a == "" || (b != "" && (a[0] < b[0] || (a[0] == b[0] && Leq(a[1..], b[1..]))))
  }

  lemma {:induction false} LeqTotal(a: string, b: string)
    ensures Leq(a, b) || Leq(b, a)
  {
    if a != "" && b != "" && a[0] == b[0] {
      LeqTotal(a[1..], b[1..]);
    }
  }

  lemma {:induction false} LeqAntisymmetric(a: string, b: string)
    requires Leq(a, b) && Leq(b, a)
    ensures a == b
  {
    if a != "" && b != "" {
      LeqAntisymmetric(a[1..], b[1..]);
      assert a == [a[0]] + a[1..] && b == [b[0]] + b[1..];
    }
  }

  lemma {:induction false} LeqTransitive(a: string, b: string, c: string)
    requires Leq(a, b) && Leq(b, c)
    ensures Leq(a, c)
  {
    if a != "" && b != "" && c != "" && a[0] == b[0] == c[0] {
      LeqTransitive(a[1..], b[1..], c[1..]);
    }
  }

  ghost predicate Sorted(s: seq<string>) {
    forall i :: 0 <= i < |s| - 1 ==> Leq(s[i], s[i + 1])
  }

  lemma {:induction false} HeadIsLeast(s: seq<string>, x: string)
    requires Sorted(s) && x in s
    ensures Leq(s[0], x)
  {
    if x == s[0] {
      LeqTotal(x, x);
    } else {
      var rest := s[1..];
      forall i | 0 <= i < |rest| - 1 ensures Leq(rest[i], rest[i + 1]) {
        assert Leq(s[i + 1], s[i + 1 + 1]);
      }
      HeadIsLeast(rest, x);
      LeqTransitive(s[0], s[0 + 1], x);
    }
  }

  function Map<T, U>(f: T -> U, s: seq<T>): (m: seq<U>)
    ensures |m| == |s| && forall i :: 0 <= i < |s| ==> m[i] == f(s[i])
  {
    seq(|s|, i requires 0 <= i < |s| => f(s[i]))
  }

  function Insert<T>(key: T -> string, x: T, s: seq<T>): seq<T> {
    if s == [] then [x]
    else if Leq(key(x), key(s[0])) then [x] + s
    else [s[0]] + Insert(key, x, s[1..])
  }

  /** sort.Slice with the key order as `less`; equal keys may come in any order, which the
      comparisons below cannot see. */
  function SortBy<T>(key: T -> string, s: seq<T>): seq<T> {
    if s == [] then [] else Insert(key, s[0], SortBy(key, s[1..]))
  }

  lemma {:induction false} InsertSorts<T>(key: T -> string, x: T, s: seq<T>)
    requires Sorted(Map(key, s))
    ensures Sorted(Map(key, Insert(key, x, s)))
  {
    var t := Map(key, Insert(key, x, s));
    if s != [] {
      if Leq(key(x), key(s[0])) {
        forall i | 0 <= i < |t| - 1 ensures Leq(t[i], t[i + 1]) {
          assert i > 0 ==> Leq(Map(key, s)[i - 1], Map(key, s)[i - 1 + 1]);
        }
      } else {
        LeqTotal(key(x), key(s[0]));
        SortedTail(key, s);
        InsertSorts(key, x, s[1..]);
        var rest := Map(key, Insert(key, x, s[1..]));
        assert t == [key(s[0])] + rest;
        assert |s| > 1 ==> Leq(Map(key, s)[0], Map(key, s)[0 + 1]);
        assert Leq(t[0], t[1]);
        forall i | 0 <= i < |t| - 1 ensures Leq(t[i], t[i + 1]) {
          assert i > 0 ==> Leq(rest[i - 1], rest[i - 1 + 1]);
        }
      }
    }
  }

  lemma SortedTail<T>(key: T -> string, s: seq<T>)
    requires s != [] && Sorted(Map(key, s))
    ensures Sorted(Map(key, s[1..]))
  {
    forall i | 0 <= i < |s| - 2 ensures Leq(key(s[1..][i]), key(s[1..][i + 1])) {
      assert Leq(Map(key, s)[i + 1], Map(key, s)[i + 1 + 1]);
    }
  }

  lemma {:induction false} InsertPermutes<T>(key: T -> string, x: T, s: seq<T>)
    ensures multiset(Insert(key, x, s)) == multiset{x} + multiset(s)
  {
    if s != [] {
      assert s == [s[0]] + s[1..];
      if !Leq(key(x), key(s[0])) {
        InsertPermutes(key, x, s[1..]);
      }
    }
  }

  lemma {:induction false} SortBySorts<T>(key: T -> string, s: seq<T>)
    ensures Sorted(Map(key, SortBy(key, s)))
    ensures multiset(SortBy(key, s)) == multiset(s) && |SortBy(key, s)| == |s|
  {
    if s != [] {
      SortBySorts(key, s[1..]);
      InsertSorts(key, s[0], SortBy(key, s[1..]));
      InsertPermutes(key, s[0], SortBy(key, s[1..]));
      assert s == [s[0]] + s[1..];
    }
    assert |multiset(SortBy(key, s))| == |multiset(s)|;
  }

  lemma {:induction false} SortedUnique(a: seq<string>, b: seq<string>)
    requires Sorted(a) && Sorted(b) && multiset(a) == multiset(b)
    ensures a == b
  {
    if a == [] || b == [] {
      assert |multiset(a)| == |multiset(b)|;
    } else {
      assert a[0] in multiset(b) && b[0] in multiset(a);
      HeadIsLeast(a, b[0]);
      HeadIsLeast(b, a[0]);
      LeqAntisymmetric(a[0], b[0]);
      HeadAndRest(a);
      HeadAndRest(b);
      SortedUnique(a[1..], b[1..]);
    }
  }

  lemma HeadAndRest(s: seq<string>)
    requires s != [] && Sorted(s)
    ensures Sorted(s[1..]) && s == [s[0]] + s[1..] && multiset(s[1..]) == multiset(s) - multiset{s[0]}
  {
    assert s == [s[0]] + s[1..];
    forall i | 0 <= i < |s| - 2 ensures Leq(s[1..][i], s[1..][i + 1]) {
      assert Leq(s[i + 1], s[i + 1 + 1]);
    }
  }

  // ---------------------------------------------------------------- images of multisets

  /** The sequence without position k, and what that does to the multisets of it and of its image. */
  function Without<T>(s: seq<T>, k: nat): (r: seq<T>)
    requires k < |s|
    ensures |r| == |s| - 1
  {
    s[..k] + s[k + 1..]
  }

  lemma WithoutCounts<T>(s: seq<T>, k: nat)
    requires k < |s|
    ensures multiset(Without(s, k)) == multiset(s) - multiset{s[k]} && s[k] in multiset(s)
  {
    assert s == s[..k] + [s[k]] + s[k + 1..];
  }

  lemma WithoutImage<T, U>(f: T -> U, s: seq<T>, k: nat)
    requires k < |s|
    ensures multiset(Map(f, Without(s, k))) == multiset(Map(f, s)) - multiset{f(s[k])} && f(s[k]) in multiset(Map(f, s))
  {
    assert Without(Map(f, s), k) == Map(f, Without(s, k));
    WithoutCounts(Map(f, s), k);
  }

  lemma PutBack<T>(m: multiset<T>, n: multiset<T>, x: T)
    requires x in m && x in n && m - multiset{x} == n - multiset{x}
    ensures m == n
  {
    assert m == (m - multiset{x}) + multiset{x};
    assert n == (n - multiset{x}) + multiset{x};
  }

  lemma {:induction false} ImageOfMultiset<T, U>(f: T -> U, a: seq<T>, b: seq<T>)
    requires multiset(a) == multiset(b)
    ensures multiset(Map(f, a)) == multiset(Map(f, b))
    decreases |a|
  {
    assert |multiset(a)| == |multiset(b)|;
    if a != [] {
      assert a[0] in multiset(b);
      var k :| 0 <= k < |b| && b[k] == a[0];
      var a', b' := Without(a, 0), Without(b, k);
      assert multiset(a') == multiset(b') by {
        WithoutCounts(a, 0);
        WithoutCounts(b, k);
      }
      ImageOfMultiset(f, a', b');
      assert multiset(Map(f, a)) == multiset(Map(f, b)) by {
        WithoutImage(f, a, 0);
        WithoutImage(f, b, k);
        PutBack(multiset(Map(f, a)), multiset(Map(f, b)), f(a[0]));
      }
    }
  }

  lemma {:induction false} InjectiveImage<T, U>(f: T -> U, a: seq<T>, b: seq<T>)
    requires forall x, y :: x in a && y in b && f(x) == f(y) ==> x == y
    requires multiset(Map(f, a)) == multiset(Map(f, b))
    ensures multiset(a) == multiset(b)
    decreases |a|
  {
    assert |multiset(Map(f, a))| == |multiset(Map(f, b))|;
    if a != [] {
      assert Map(f, a)[0] in multiset(Map(f, b));
      var k :| 0 <= k < |b| && Map(f, b)[k] == f(a[0]);
      assert a[0] == b[k] by {
        assert a[0] in a && b[k] in b;
      }
      var a', b' := Without(a, 0), Without(b, k);
      assert multiset(Map(f, a')) == multiset(Map(f, b')) by {
        WithoutImage(f, a, 0);
        WithoutImage(f, b, k);
      }
      InjectiveImage(f, a', b');
      assert multiset(a) == multiset(b) by {
        WithoutCounts(a, 0);
        WithoutCounts(b, k);
        PutBack(multiset(a), multiset(b), a[0]);
      }
    }
  }

  /** Sorting keys and comparing them pairwise is comparing the keyed values as multisets, when the
      key tells different values apart. */
  lemma SortedKeysCompareMultisets<T>(key: T -> string, a: seq<T>, b: seq<T>)
    requires forall x, y :: x in a && y in b && key(x) == key(y) ==> x == y
    ensures Map(key, SortBy(key, a)) == Map(key, SortBy(key, b)) <==> multiset(a) == multiset(b)
  {
    var sa, sb := SortBy(key, a), SortBy(key, b);
    SortBySorts(key, a);
    SortBySorts(key, b);
    if multiset(a) == multiset(b) {
      ImageOfMultiset(key, sa, sb);
      SortedUnique(Map(key, sa), Map(key, sb));
    }
    if Map(key, sa) == Map(key, sb) {
      forall x, y | x in sa && y in sb && key(x) == key(y) ensures x == y {
        assert x in multiset(sa) && y in multiset(sb);
      }
      InjectiveImage(key, sa, sb);
    }
  }
}
