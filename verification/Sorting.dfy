/** Sorting strings in lexicographic order, and upper-casing. */
module Sorting {
  predicate Leq(a: string, b: string) {
    a == [] || (b != [] && (a[0] < b[0] || (a[0] == b[0] && Leq(a[1..], b[1..]))))
  }

  lemma {:induction false} LeqAntisymmetric(a: string, b: string)
    requires Leq(a, b) && Leq(b, a)
    ensures a == b
  {
    if a != [] && b != [] {
      LeqAntisymmetric(a[1..], b[1..]);
    }
  }

  lemma {:induction false} LeqTransitive(a: string, b: string, c: string)
    requires Leq(a, b) && Leq(b, c)
    ensures Leq(a, c)
  {
    if a != [] && a[0] == b[0] && b[0] == c[0] {
      LeqTransitive(a[1..], b[1..], c[1..]);
    }
  }

  lemma {:induction false} LeqTotal(a: string, b: string)
    ensures Leq(a, b) || Leq(b, a)
  {
    if a != [] && b != [] && a[0] == b[0] {
      LeqTotal(a[1..], b[1..]);
    }
  }

  predicate Sorted(s: seq<string>) {
    forall i, j :: 0 <= i < j < |s| ==> Leq(s[i], s[j])
  }

  function Insert(x: string, s: seq<string>): (r: seq<string>)
    ensures multiset(r) == multiset(s) + multiset{x}
  {
    if s == [] || Leq(x, s[0]) then [x] + s
    else
      assert s == [s[0]] + s[1..];
      [s[0]] + Insert(x, s[1..])
  }

  lemma {:induction false} LeqReflexive(a: string)
    ensures Leq(a, a)
  {
    if a != [] {
      LeqReflexive(a[1..]);
    }
  }

  /** Below the head of a sorted list, below all of it. */
  lemma BelowAll(x: string, s: seq<string>, y: string)
    requires s != [] && Sorted(s) && Leq(x, s[0]) && y in s
    ensures Leq(x, y)
  {
    var j :| 0 <= j < |s| && s[j] == y;
    if j > 0 {
      LeqTransitive(x, s[0], s[j]);
    }
  }

  /** Prepending a lower bound keeps a list sorted. */
  lemma PrependSorted(x: string, s: seq<string>)
    requires Sorted(s) && forall y :: y in s ==> Leq(x, y)
    ensures Sorted([x] + s)
  {
    var r := [x] + s;
    forall i, j | 0 <= i < j < |r| ensures Leq(r[i], r[j]) {
      assert r[j] == s[j - 1];
      if i > 0 {
        assert r[i] == s[i - 1];
      }
    }
  }

  lemma {:induction false} InsertSorted(x: string, s: seq<string>)
    requires Sorted(s)
    ensures Sorted(Insert(x, s))
  {
    if s == [] || Leq(x, s[0]) {
      forall y | y in s ensures Leq(x, y) {
        BelowAll(x, s, y);
      }
      PrependSorted(x, s);
    } else {
      InsertSorted(x, s[1..]);
      LeqTotal(x, s[0]);
      LeqReflexive(s[0]);
      var rest := Insert(x, s[1..]);
      forall y | y in rest ensures Leq(s[0], y) {
        assert y in multiset(rest);
        if y != x {
          assert y in multiset(s[1..]);
          BelowAll(s[0], s, y);
        }
      }
      PrependSorted(s[0], rest);
    }
  }

  function Sort(s: seq<string>): (r: seq<string>)
    ensures Sorted(r) && multiset(r) == multiset(s)
  {
    if s == [] then []
    else
      assert s == [s[0]] + s[1..];
      InsertSorted(s[0], Sort(s[1..]));
      Insert(s[0], Sort(s[1..]))
  }

  lemma SortKeepsMembers(s: seq<string>)
    ensures |Sort(s)| == |s|
    ensures forall x :: x in Sort(s) <==> x in s
  {
    assert |multiset(Sort(s))| == |multiset(s)|;
    assert forall x :: x in Sort(s) <==> x in multiset(Sort(s));
    assert forall x :: x in s <==> x in multiset(s);
  }

  /** A list has one sorted arrangement only. */
  lemma {:induction false} SortedIsUnique(a: seq<string>, b: seq<string>)
    requires Sorted(a) && Sorted(b) && multiset(a) == multiset(b)
    ensures a == b
  {
    if a == [] {
      assert |multiset(b)| == 0;
    } else {
      assert |multiset(b)| == |multiset(a)| > 0;
      assert a[0] in multiset(a) && b[0] in multiset(b);
      LeqReflexive(a[0]);
      LeqReflexive(b[0]);
      BelowAll(a[0], a, b[0]);
      BelowAll(b[0], b, a[0]);
      LeqAntisymmetric(a[0], b[0]);
      RestSame(a, b);
      SortedIsUnique(a[1..], b[1..]);
    }
  }

  lemma RestSame(a: seq<string>, b: seq<string>)
    requires a != [] && b != [] && a[0] == b[0] && multiset(a) == multiset(b)
    ensures multiset(a[1..]) == multiset(b[1..])
    ensures a[1..] == b[1..] ==> a == b
  {
    assert a == [a[0]] + a[1..] && b == [b[0]] + b[1..];
    assert multiset(a[1..]) == multiset(a) - multiset{a[0]};
    assert multiset(b[1..]) == multiset(b) - multiset{b[0]};
  }

  // ---- case ----

  function UpperChar(c: char): char {
    if 'a' <= c <= 'z' then c - 'a' + 'A' else c
  }

  function Upper(s: string): (r: string)
    ensures |r| == |s|
    ensures forall i :: 0 <= i < |s| ==> r[i] == UpperChar(s[i])
  {
    seq(|s|, i requires 0 <= i < |s| => UpperChar(s[i]))
  }

  /** The same letter, in lower and in upper case. */
  predicate Cases(lower: char, upper: char) {
    'a' <= lower <= 'z' && upper as int == lower as int - 32
  }

  /** Upper-casing equates exactly the texts that differ in the case of letters only. */
  lemma SameUpToCase(s: string, t: string)
    ensures Upper(s) == Upper(t) <==>
            |s| == |t| && forall i :: 0 <= i < |s| ==> s[i] == t[i] || Cases(s[i], t[i]) || Cases(t[i], s[i])
  {
    if Upper(s) == Upper(t) {
      forall i | 0 <= i < |s| ensures s[i] == t[i] || Cases(s[i], t[i]) || Cases(t[i], s[i]) {
        assert Upper(s)[i] == Upper(t)[i];
      }
    }
  }

  function UpperSet(s: seq<string>): set<string> {
    set x | x in s :: Upper(x)
  }

  predicate DistinctUpToCase(s: seq<string>) {
    forall i, j :: 0 <= i < j < |s| ==> Upper(s[i]) != Upper(s[j])
  }

  lemma {:induction false} DistinctCount(s: seq<string>)
    requires DistinctUpToCase(s)
    ensures |UpperSet(s)| == |s|
  {
    if s != [] {
      var front := s[..|s| - 1];
      var x := s[|s| - 1];
      assert s == front + [x];
      DistinctCount(front);
      assert UpperSet(s) == UpperSet(front) + {Upper(x)};
      assert Upper(x) !in UpperSet(front);
    }
  }
}
