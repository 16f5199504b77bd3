/** Separator-joined and split sequences, over bytes and characters alike. */
module Text {
  function Join<T>(parts: seq<seq<T>>, sep: T): seq<T> {
    if parts == [] then []
    else if |parts| == 1 then parts[0]
    else parts[0] + [sep] + Join(parts[1..], sep)
  }

  /** Split as strings.Split does for a one-character separator: always at least one part. */
  function Split<T(==)>(s: seq<T>, sep: T): (parts: seq<seq<T>>)
    ensures |parts| >= 1
    ensures forall i :: 0 <= i < |parts| ==> sep !in parts[i]
    ensures Join(parts, sep) == s
  {
    if sep !in s then [s]
    else
      var i := IndexOf(s, sep);
      var rest := Split(s[i + 1..], sep);
      assert s == s[..i] + [sep] + s[i + 1..];
      assert ([s[..i]] + rest)[1..] == rest;
      [s[..i]] + rest
  }

  function IndexOf<T(==)>(s: seq<T>, x: T): (i: nat)
    requires x in s
    ensures i < |s| && s[i] == x && x !in s[..i]
  {
    if s[0] == x then 0 else 1 + IndexOf(s[1..], x)
  }

  /** The first separator determines where the first part ends. */
  lemma FirstPartUnique<T>(x: seq<T>, u: seq<T>, y: seq<T>, v: seq<T>, sep: T)
    requires sep !in x && sep !in y && x + [sep] + u == y + [sep] + v
    ensures x == y && u == v
  {
    var s := x + [sep] + u;
    assert s[|x|] == sep && s[|y|] == sep;
    assert forall i :: 0 <= i < |x| ==> s[i] == x[i];
    assert forall i :: 0 <= i < |y| ==> s[i] == y[i];
    assert x == s[..|x|] && y == s[..|y|];
    assert u == s[|x| + 1..] && v == s[|y| + 1..];
  }

  /** Joining a fixed number of parts is injective once all but the last are free of the separator. */
  lemma {:induction false} JoinInjective<T>(xs: seq<seq<T>>, ys: seq<seq<T>>, sep: T)
    requires |xs| == |ys| && Join(xs, sep) == Join(ys, sep)
    requires forall i :: 0 <= i < |xs| - 1 ==> sep !in xs[i] && sep !in ys[i]
    ensures xs == ys
  {
    if |xs| > 1 {
      FirstPartUnique(xs[0], Join(xs[1..], sep), ys[0], Join(ys[1..], sep), sep);
      JoinInjective(xs[1..], ys[1..], sep);
      assert xs == [xs[0]] + xs[1..] && ys == [ys[0]] + ys[1..];
    }
  }

  /** Splitting undoes joining when no part holds the separator and there is at least one part. */
  lemma {:induction false} SplitOfJoin<T>(parts: seq<seq<T>>, sep: T)
    requires parts != [] && forall i :: 0 <= i < |parts| ==> sep !in parts[i]
    ensures Split(Join(parts, sep), sep) == parts
  {
    if |parts| > 1 {
      SplitOfJoin(parts[1..], sep);
      SplitAtFirst(parts[0], Join(parts[1..], sep), sep);
      assert parts == [parts[0]] + parts[1..];
    }
  }

  lemma SplitAtFirst<T>(x: seq<T>, rest: seq<T>, sep: T)
    requires sep !in x
    ensures Split(x + [sep] + rest, sep) == [x] + Split(rest, sep)
  {
    var s := x + [sep] + rest;
    assert s[|x|] == sep;
    var i := IndexOf(s, sep);
    assert s == s[..i] + [sep] + s[i + 1..];
    FirstPartUnique(x, rest, s[..i], s[i + 1..], sep);
  }
}
