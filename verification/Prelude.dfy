/** Small vocabulary shared by the modules: optional values, duplicate-free sequences as sets, and
    white space. */
module Prelude {

  datatype Option<+T> = None | Some(value: T)

  /** No two positions of `s` hold the same element. */
  ghost predicate NoDup<T>(s: seq<T>) {
    forall a, b :: 0 <= a < b < |s| ==> s[a] != s[b]
  }

  /** The elements of a sequence as a set. */
  ghost function Elements<T>(s: seq<T>): set<T> {
    set x | x in s
  }

  /** A duplicate-free sequence has as many elements as positions. */
  lemma {:induction false} NoDupCardinality<T>(s: seq<T>)
    requires NoDup(s)
    ensures |Elements(s)| == |s|
  {
    if s != [] {
      NoDupCardinality(s[1..]);
      assert s == [s[0]] + s[1..];
      assert Elements(s) == {s[0]} + Elements(s[1..]);
      assert s[0] !in s[1..];
    }
  }

  /** A set included in another has no more elements. */
  lemma {:induction false} SubsetCardinality<T>(a: set<T>, b: set<T>)
    requires a <= b
    ensures |a| <= |b|
    ensures |a| == |b| ==> a == b
  {
    if a != {} {
      var x :| x in a;
      SubsetCardinality(a - {x}, b - {x});
    }
  }

  /** The values that are there, in order. */
  function Present<T>(s: seq<Option<T>>): seq<T> {
    if s == [] then []
    else
      var front := Present(s[..|s| - 1]);
      if s[|s| - 1].Some? then front + [s[|s| - 1].value] else front
  }

  /** Unicode white space, as strings.TrimSpace sees it. */
  predicate IsSpace(c: char) {
    || c in {'\t', '\n', '\U{0B}', '\U{0C}', '\r', ' ', '\U{85}', '\U{A0}', '\U{1680}', '\U{2028}', '\U{2029}', '\U{202F}', '\U{205F}', '\U{3000}'}
    || '\U{2000}' <= c <= '\U{200A}'
  }

  /** strings.TrimSpace. */
  function Trim(s: string): (t: string)
    ensures t == "" || (!IsSpace(t[0]) && !IsSpace(t[|t| - 1]))
    ensures s != "" && !IsSpace(s[0]) && !IsSpace(s[|s| - 1]) ==> t == s
    ensures forall c :: c in t ==> c in s
  {
    if s != "" && IsSpace(s[0]) then Trim(s[1..])
    else if s != "" && IsSpace(s[|s| - 1]) then Trim(s[..|s| - 1])
    else s
  }

  ghost predicate AllSpace(s: string) {
    forall c :: c in s ==> IsSpace(c)
  }

  lemma SpaceAround(c: char, s: string)
    requires IsSpace(c) && AllSpace(s)
    ensures AllSpace([c] + s) && AllSpace(s + [c])
  {
  }

  /** Trimming cuts off white space at both ends and nothing else; none is left there. */
  lemma {:induction false} TrimCutsSpace(s: string) returns (left: string, right: string)
    ensures s == left + Trim(s) + right && AllSpace(left) && AllSpace(right)
    ensures Trim(s) != "" ==> !IsSpace(Trim(s)[0]) && !IsSpace(Trim(s)[|Trim(s)| - 1])
    decreases |s|
  {
    hide IsSpace, AllSpace;
    left, right := "", "";
    Blank();
    if s != "" && IsSpace(s[0]) {
      var rest := s[1..];
      left, right := TrimCutsSpace(rest);
      SpaceAround(s[0], left);
      assert s == [s[0]] + rest == [s[0]] + left + Trim(rest) + right;
      left := [s[0]] + left;
    } else if s != "" && IsSpace(s[|s| - 1]) {
      var rest := s[..|s| - 1];
      left, right := TrimCutsSpace(rest);
      SpaceAround(s[|s| - 1], right);
      assert s == rest + [s[|s| - 1]] == left + Trim(rest) + (right + [s[|s| - 1]]);
      right := right + [s[|s| - 1]];
    }
  }

  lemma Blank()
    ensures AllSpace("")
  {
  }
}
