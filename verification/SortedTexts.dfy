/** Sorted lists of texts, with and without repetitions: a list that does not depend on the
    order (or the repetitions) of the texts it was made from. */
module SortedTexts {
  /** The lexicographic order of texts. */
  predicate AtMost(a: string, b: string) {
    a == "" || (b != "" && (a[0] < b[0] || (a[0] == b[0] && AtMost(a[1..], b[1..]))))
  }

  lemma {:induction false} Total(a: string, b: string)
    ensures AtMost(a, b) || AtMost(b, a)
  {
    if a != "" && b != "" && a[0] == b[0] {
      Total(a[1..], b[1..]);
    }
  }

  lemma {:induction false} Antisymmetric(a: string, b: string)
    requires AtMost(a, b) && AtMost(b, a)
    ensures a == b
  {
    if a != "" {
      Antisymmetric(a[1..], b[1..]);
      assert a == [a[0]] + a[1..] && b == [b[0]] + b[1..];
    }
  }

  lemma {:induction false} Transitive(a: string, b: string, c: string)
    requires AtMost(a, b) && AtMost(b, c)
    ensures AtMost(a, c)
  {
    if a != "" && a[0] == b[0] && b[0] == c[0] {
      Transitive(a[1..], b[1..], c[1..]);
    }
  }

  predicate Below(x: string, s: seq<string>) { forall y :: y in s ==> AtMost(x, y) }

  /** Ascending; every text is at most every later one. */
  predicate Ascending(s: seq<string>) { s == [] || (Below(s[0], s[1..]) && Ascending(s[1..])) }

  predicate Distinct(s: seq<string>) { s == [] || (s[0] !in s[1..] && Distinct(s[1..])) }

  function Insert(x: string, s: seq<string>): seq<string> {
    if s == [] || AtMost(x, s[0]) then [x] + s else [s[0]] + Insert(x, s[1..])
  }

  function Sort(values: seq<string>): seq<string> {
    if values == [] then [] else Insert(values[0], Sort(values[1..]))
  }

  /** Drops every text equal to the one behind it. */
  function Unique(s: seq<string>): seq<string> {
    if |s| < 2 then s else if s[0] == s[1] then Unique(s[1..]) else [s[0]] + Unique(s[1..])
  }

  function SortUnique(values: seq<string>): seq<string> { Unique(Sort(values)) }

  // ----- what sorting yields -----

  lemma {:induction false} BagOfHead(s: seq<string>)
    requires s != []
    ensures multiset(s) == multiset{s[0]} + multiset(s[1..])
  {
    assert s == [s[0]] + s[1..];
  }

  lemma {:induction false} InsertKeepsBag(x: string, s: seq<string>)
    ensures multiset(Insert(x, s)) == multiset{x} + multiset(s)
  {
    hide AtMost;
    if s != [] && !AtMost(x, s[0]) {
      InsertKeepsBag(x, s[1..]);
      BagOfHead(s);
      assert multiset([s[0]] + Insert(x, s[1..])) == multiset{s[0]} + multiset(Insert(x, s[1..]));
    }
  }

  lemma {:induction false} InsertStaysAbove(z: string, x: string, s: seq<string>)
    requires Below(z, s) && AtMost(z, x)
    ensures Below(z, Insert(x, s))
  {
    hide AtMost, Insert;
    InsertKeepsBag(x, s);
    forall y | y in Insert(x, s)
      ensures AtMost(z, y)
    {
      assert y in multiset(Insert(x, s));
    }
  }

  lemma {:induction false} BelowAll(x: string, s: seq<string>)
    requires s != [] && AtMost(x, s[0]) && Below(s[0], s[1..])
    ensures Below(x, s)
  {
    hide AtMost;
    forall y | y in s
      ensures AtMost(x, y)
    {
      if y != s[0] {
        Transitive(x, s[0], y);
      }
    }
  }

  lemma {:induction false} InsertAscends(x: string, s: seq<string>)
    requires Ascending(s)
    ensures Ascending(Insert(x, s))
  {
    hide AtMost, Below;
    if s == [] {
      NothingBelow(x);
    } else if AtMost(x, s[0]) {
      BelowAll(x, s);
      assert ([x] + s)[1..] == s;
    } else {
      Total(x, s[0]);
      InsertAscends(x, s[1..]);
      InsertStaysAbove(s[0], x, s[1..]);
      assert ([s[0]] + Insert(x, s[1..]))[1..] == Insert(x, s[1..]);
    }
  }

  lemma {:induction false} NothingBelow(x: string)
    ensures Below(x, [])
  {
  }

  lemma {:induction false} SortAscends(values: seq<string>)
    ensures Ascending(Sort(values)) && multiset(Sort(values)) == multiset(values)
  {
    hide AtMost, Insert, Ascending;
    if values == [] {
      NothingAscends();
    } else {
      SortAscends(values[1..]);
      InsertKeepsBag(values[0], Sort(values[1..]));
      InsertAscends(values[0], Sort(values[1..]));
      BagOfHead(values);
    }
  }

  lemma {:induction false} NothingAscends()
    ensures Ascending([])
  {
  }

  lemma {:induction false} UniqueAscends(s: seq<string>)
    requires Ascending(s)
    ensures Ascending(Unique(s)) && Distinct(Unique(s))
    ensures forall y :: y in Unique(s) <==> y in s
  {
    hide AtMost;
    if |s| >= 2 {
      UniqueAscends(s[1..]);
      assert s == [s[0]] + s[1..];
      if s[0] != s[1] {
        var r := Unique(s[1..]);
        assert ([s[0]] + r)[1..] == r;
        if s[0] in r {
          assert s[0] in s[1..] && AtMost(s[0], s[1]);
          assert s[1..][0] == s[1];
          Antisymmetric(s[0], s[1]);
        }
      }
    }
  }

  // ----- ascending lists are determined by their elements -----

  lemma {:induction false} SameHead(s: seq<string>, t: seq<string>)
    requires s != [] && t != [] && Ascending(s) && Ascending(t) && s[0] in t && t[0] in s
    ensures s[0] == t[0]
  {
    if s[0] != t[0] {
      Antisymmetric(s[0], t[0]);
    }
  }

  lemma {:induction false} AscendingBags(s: seq<string>, t: seq<string>)
    requires Ascending(s) && Ascending(t) && multiset(s) == multiset(t)
    ensures s == t
  {
    hide AtMost, Below;
    assert |s| == |multiset(s)| && |t| == |multiset(t)|;
    if s != [] {
      assert s[0] in multiset(t) && t[0] in multiset(s);
      SameHead(s, t);
      BagOfHead(s);
      BagOfHead(t);
      assert multiset(s[1..]) == multiset(s) - multiset{s[0]} == multiset(t[1..]);
      AscendingBags(s[1..], t[1..]);
      assert s == [s[0]] + s[1..] && t == [t[0]] + t[1..];
    }
  }

  lemma {:induction false} AscendingSets(s: seq<string>, t: seq<string>)
    requires Ascending(s) && Ascending(t) && Distinct(s) && Distinct(t)
    requires forall y :: y in s <==> y in t
    ensures s == t
  {
    hide AtMost, Below;
    assert s == [] || s[0] in s;
    if t != [] {
      assert t[0] in t && t[0] in s;
      assert s[0] in s && s[0] in t;
      SameHead(s, t);
      assert s == [s[0]] + s[1..] && t == [t[0]] + t[1..];
      forall y
        ensures y in s[1..] <==> y in t[1..]
      {
        assert y in s <==> y in t;
      }
      AscendingSets(s[1..], t[1..]);
    }
  }

  // ----- sorting forgets exactly the order, or the order and the repetitions -----

  lemma {:induction false} SortForgetsOrder(v: seq<string>, w: seq<string>)
    ensures Sort(v) == Sort(w) <==> multiset(v) == multiset(w)
  {
    SortAscends(v);
    SortAscends(w);
    if multiset(v) == multiset(w) {
      AscendingBags(Sort(v), Sort(w));
    }
  }

  function Elements(v: seq<string>): set<string> { set y | y in v }

  lemma {:induction false} SortUniqueElements(v: seq<string>)
    ensures Elements(SortUnique(v)) == Elements(v)
    ensures Ascending(SortUnique(v)) && Distinct(SortUnique(v))
  {
    SortAscends(v);
    UniqueAscends(Sort(v));
    forall y
      ensures y in SortUnique(v) <==> y in v
    {
      assert y in Sort(v) <==> y in multiset(Sort(v));
    }
  }

  lemma {:induction false} SortUniqueForgetsRepetition(v: seq<string>, w: seq<string>)
    ensures SortUnique(v) == SortUnique(w) <==> Elements(v) == Elements(w)
  {
    hide SortUnique;
    SortUniqueElements(v);
    SortUniqueElements(w);
    if Elements(v) == Elements(w) {
      forall y
        ensures y in SortUnique(v) <==> y in SortUnique(w)
      {
        assert y in Elements(SortUnique(v)) <==> y in Elements(SortUnique(w));
      }
      AscendingSets(SortUnique(v), SortUnique(w));
    }
  }
}
