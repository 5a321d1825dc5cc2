/** Byte-wise lexicographic order of strings, and sorting by a string key: the order of the ordered maps
    and of `sort_by(|a, b| a.key.cmp(&b.key))`. */
module Lex {
  predicate Less(a: string, b: string)
    decreases a
  {
    b != "" && (a == "" || a[0] < b[0] || (a[0] == b[0] && Less(a[1..], b[1..])))
  }

  lemma {:induction false} LessIrreflexive(a: string)
    ensures !Less(a, a)
    decreases a
  {
    if a != "" {
      LessIrreflexive(a[1..]);
    }
  }

  lemma {:induction false} LessTransitive(a: string, b: string, c: string)
    requires Less(a, b) && Less(b, c)
    ensures Less(a, c)
    decreases a
  {
    if a != "" && a[0] == b[0] == c[0] {
      LessTransitive(a[1..], b[1..], c[1..]);
    }
  }

  lemma LessAsymmetric(a: string, b: string)
    ensures !(Less(a, b) && Less(b, a))
  {
    if Less(a, b) && Less(b, a) {
      LessTransitive(a, b, a);
      LessIrreflexive(a);
    }
  }

  lemma {:induction false} LessTotal(a: string, b: string)
    ensures a == b || Less(a, b) || Less(b, a)
    decreases a
  {
    if a != "" && b != "" && a[0] == b[0] {
      LessTotal(a[1..], b[1..]);
      assert a == [a[0]] + a[1..] && b == [b[0]] + b[1..];
    }
  }

  function InsertBy<T>(s: seq<T>, x: T, key: T -> string): seq<T> {
    if s == [] then [x]
    else if Less(key(x), key(s[0])) then [x] + s
    else [s[0]] + InsertBy(s[1..], x, key)
  }

  function SortBy<T>(s: seq<T>, key: T -> string): seq<T> {
    if s == [] then [] else InsertBy(SortBy(s[..|s| - 1], key), s[|s| - 1], key)
  }

  ghost predicate Ascending<T>(s: seq<T>, key: T -> string) {
    forall i, j :: 0 <= i < j < |s| ==> Less(key(s[i]), key(s[j]))
  }

  ghost predicate DistinctKeys<T>(s: seq<T>, key: T -> string) {
    forall i, j :: 0 <= i < j < |s| ==> key(s[i]) != key(s[j])
  }

  lemma {:induction false} InsertByElements<T>(s: seq<T>, x: T, key: T -> string)
    ensures multiset(InsertBy(s, x, key)) == multiset(s) + multiset{x}
  {
    if s != [] && !Less(key(x), key(s[0])) {
      InsertByElements(s[1..], x, key);
      assert s == [s[0]] + s[1..];
    }
  }

  /** Sorting permutes. */
  lemma {:induction false} SortByElements<T>(s: seq<T>, key: T -> string)
    ensures multiset(SortBy(s, key)) == multiset(s) && |SortBy(s, key)| == |s|
  {
    if s != [] {
      var front := s[..|s| - 1];
      SortByElements(front, key);
      InsertByElements(SortBy(front, key), s[|s| - 1], key);
      assert s == front + [s[|s| - 1]];
    }
    assert |SortBy(s, key)| == |multiset(SortBy(s, key))|;
  }

  lemma SortByMember<T>(s: seq<T>, key: T -> string, x: T)
    ensures x in SortBy(s, key) <==> x in s
  {
    SortByElements(s, key);
    assert x in multiset(SortBy(s, key)) <==> x in multiset(s);
  }

  lemma {:induction false} InsertByAscends<T>(s: seq<T>, x: T, key: T -> string)
    requires Ascending(s, key) && forall y :: y in s ==> key(y) != key(x)
    ensures Ascending(InsertBy(s, x, key), key)
  {
    if s == [] {
    } else if Less(key(x), key(s[0])) {
      forall j | 1 <= j < |s|
        ensures Less(key(x), key(s[j]))
      {
        LessTransitive(key(x), key(s[0]), key(s[j]));
      }
    } else {
      LessTotal(key(x), key(s[0]));
      InsertByAscends(s[1..], x, key);
      var t := InsertBy(s[1..], x, key);
      forall y | y in t
        ensures Less(key(s[0]), key(y))
      {
        InsertByElements(s[1..], x, key);
        assert y in multiset(t);
        if y != x {
          assert y in s[1..];
        }
      }
    }
  }

  /** Sorting distinct keys yields a strictly ascending sequence. */
  lemma {:induction false} SortByAscends<T>(s: seq<T>, key: T -> string)
    requires DistinctKeys(s, key)
    ensures Ascending(SortBy(s, key), key)
  {
    if s != [] {
      var front, x := s[..|s| - 1], s[|s| - 1];
      SortByAscends(front, key);
      forall y | y in SortBy(front, key)
        ensures key(y) != key(x)
      {
        SortByMember(front, key, y);
      }
      InsertByAscends(SortBy(front, key), x, key);
    }
  }
}
