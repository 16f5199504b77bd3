/** Order-preserving union without duplicates or empty strings. */
module Lists {
  predicate NoDuplicates<T(==)>(s: seq<T>) {
    forall i, j :: 0 <= i < j < |s| ==> s[i] != s[j]
  }

  /** The non-empty strings of s at their first occurrence. */
  function Dedup(s: seq<string>): (r: seq<string>)
    ensures NoDuplicates(r)
    ensures forall x :: x in r <==> x in s && x != ""
  {
    if s == [] then []
    else
      var r := Dedup(s[..|s| - 1]);
      var x := s[|s| - 1];
      assert s == s[..|s| - 1] + [x];
      if x == "" || x in r then r else r + [x]
  }

  predicate Proper(s: seq<string>) {
    NoDuplicates(s) && "" !in s
  }

  lemma {:induction false} DedupOfProper(s: seq<string>)
    requires Proper(s)
    ensures Dedup(s) == s
  {
    if s != [] {
      DedupOfProper(s[..|s| - 1]);
      assert s == s[..|s| - 1] + [s[|s| - 1]];
      assert s[|s| - 1] !in s[..|s| - 1];
    }
  }

  /** The first list keeps its order and comes first. */
  lemma {:induction false} DedupStartsWith(a: seq<string>, b: seq<string>)
    requires Proper(a)
    ensures a <= Dedup(a + b)
  {
    if b == [] {
      assert a + b == a;
      DedupOfProper(a);
    } else {
      var front := b[..|b| - 1];
      assert (a + b)[..|a + b| - 1] == a + front;
      DedupStartsWith(a, front);
    }
  }

  lemma DedupSnoc(s: seq<string>, x: string)
    ensures Dedup(s + [x]) == if x == "" || x in Dedup(s) then Dedup(s) else Dedup(s) + [x]
  {
    assert (s + [x])[..|s|] == s;
  }

  /** Dropping duplicates from the first list beforehand changes nothing. */
  lemma {:induction false} DedupTwice(a: seq<string>, b: seq<string>)
    ensures Dedup(Dedup(a) + b) == Dedup(a + b)
  {
    if b == [] {
      assert Dedup(a) + b == Dedup(a) && a + b == a;
      DedupOfProper(Dedup(a));
    } else {
      var front, x := b[..|b| - 1], b[|b| - 1];
      assert Dedup(a) + b == (Dedup(a) + front) + [x] && a + b == (a + front) + [x];
      DedupTwice(a, front);
      DedupSnoc(Dedup(a) + front, x);
      DedupSnoc(a + front, x);
    }
  }

  /** Members already there add nothing. */
  lemma {:induction false} DedupOfMembers(a: seq<string>, b: seq<string>)
    requires Proper(a) && forall x :: x in b ==> x in a
    ensures Dedup(a + b) == a
  {
    if b == [] {
      assert a + b == a;
      DedupOfProper(a);
    } else {
      assert a + b == a + b[..|b| - 1] + [b[|b| - 1]];
      DedupSnoc(a + b[..|b| - 1], b[|b| - 1]);
      hide Dedup, Proper;
      DedupOfMembers(a, b[..|b| - 1]);
    }
  }

  /** A union absorbs a second union with its own beginning. */
  lemma {:induction false} DedupAbsorbs(a: seq<string>, tail: seq<string>)
    requires Proper(a + tail)
    ensures Dedup(a + (a + tail)) == a + tail
  {
    if tail == [] {
      assert a + tail == a;
      DedupOfMembers(a, a);
    } else {
      var front, x := tail[..|tail| - 1], tail[|tail| - 1];
      assert tail == front + [x];
      ProperFront(a, front, x);
      assert a + tail == a + front + [x];
      assert a + (a + tail) == a + (a + front) + [x];
      hide Dedup, Proper;
      DedupAbsorbs(a, front);
      DedupSnoc(a + (a + front), x);
    }
  }

  lemma ProperFront(a: seq<string>, front: seq<string>, x: string)
    requires Proper(a + (front + [x]))
    ensures Proper(a + front) && x != "" && x !in a + front
  {
    var s := a + (front + [x]);
    assert a + front == s[..|s| - 1] && s[|s| - 1] == x;
  }
}
