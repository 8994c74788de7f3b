/** Strings in the order Python sorts them: by the first character that differs. */
module Ordering {
  import opened Text

  /** Strings as Python orders them: by the first character that differs. */
  predicate Less(a: string, b: string) {
    if b == "" then false
    else if a == "" then true
    else if a[0] != b[0] then a[0] < b[0]
    else Less(a[1..], b[1..])
  }

  lemma {:induction false} LessTotal(a: string, b: string)
    ensures Less(a, b) || Less(b, a) || a == b
    ensures !(Less(a, b) && Less(b, a))
    ensures !Less(a, a)
  {
    if a != "" {
      LessTotal(a[1..], a[1..]);
      if b != "" && a[0] == b[0] {
        LessTotal(a[1..], b[1..]);
        assert a == [a[0]] + a[1..] && b == [b[0]] + b[1..];
      }
    }
  }

  /** The two agree on their first `k` characters, and there the first ends, or has the smaller character. */
  predicate BelowAt(a: string, b: string, k: nat) {
    k <= |a| && k < |b| && a[..k] == b[..k] && (k == |a| || a[k] < b[k])
  }

  lemma {:induction false} LessExactly(a: string, b: string)
    ensures Less(a, b) <==> exists k: nat :: BelowAt(a, b, k)
  {
    if b == "" || a == "" || a[0] != b[0] {
      assert b != "" && a == "" ==> BelowAt(a, b, 0);
      assert b != "" && a != "" && a[0] < b[0] ==> BelowAt(a, b, 0);
      forall k: nat | BelowAt(a, b, k)
        ensures Less(a, b)
      {
        FirstAgrees(a, b, k);
      }
    } else {
      LessExactly(a[1..], b[1..]);
      assert !BelowAt(a, b, 0);
      if Less(a, b) {
        var k: nat :| BelowAt(a[1..], b[1..], k);
        OneOn(a, b, k);
        assert BelowAt(a, b, k + 1);
      }
      forall k: nat | BelowAt(a, b, k)
        ensures Less(a, b)
      {
        OneOn(a, b, k - 1);
      }
    }
  }

  lemma FirstAgrees(a: string, b: string, k: nat)
    requires BelowAt(a, b, k)
    ensures k > 0 ==> a != "" && a[0] == b[0]
  {
    if k > 0 {
      assert a[..k][0] == b[..k][0];
    }
  }

  lemma OneOn(a: string, b: string, k: nat)
    requires a != "" && b != "" && a[0] == b[0]
    ensures BelowAt(a[1..], b[1..], k) <==> BelowAt(a, b, k + 1)
  {
    if k + 1 <= |a| && k + 1 <= |b| {
      assert a[..k + 1] == [a[0]] + a[1..][..k] && b[..k + 1] == [b[0]] + b[1..][..k];
      assert a[..k + 1][1..] == a[1..][..k] && b[..k + 1][1..] == b[1..][..k];
    }
  }

  lemma {:induction false} LessTransitive(a: string, b: string, c: string)
    requires Less(a, b) && Less(b, c)
    ensures Less(a, c)
  {
    if a != "" && a[0] == b[0] == c[0] {
      LessTransitive(a[1..], b[1..], c[1..]);
    }
  }

  /** Fronts of one length decide, and where they are equal what follows does. */
  lemma {:induction false} LessByFront(a: string, b: string, x: string, y: string)
    requires |a| == |b|
    ensures Less(a + x, b + y) <==> Less(a, b) || (a == b && Less(x, y))
  {
    if a == "" {
      assert a + x == x && b + y == y;
    } else {
      assert (a + x)[1..] == a[1..] + x && (b + y)[1..] == b[1..] + y;
      assert a == b <==> a[0] == b[0] && a[1..] == b[1..];
      LessByFront(a[1..], b[1..], x, y);
    }
  }

  /** Decimal numerals of one width are ordered as the numbers they name. */
  lemma {:induction false} FixedWidthOrder(a: string, b: string)
    requires |a| == |b| && AllDigits(a) && AllDigits(b)
    ensures Less(a, b) <==> Number(a) < Number(b)
    ensures a == b <==> Number(a) == Number(b)
  {
    if a != "" {
      var n := |a| - 1;
      FixedWidthOrder(a[..n], b[..n]);
      LessByFront(a[..n], b[..n], a[n..], b[n..]);
      assert a == a[..n] + a[n..] && b == b[..n] + b[n..];
    }
  }

  function Insert(x: string, s: seq<string>): seq<string> {
    if s == [] || !Less(s[0], x) then [x] + s else [s[0]] + Insert(x, s[1..])
  }

  /** `sorted`. */
  function Sorted(s: seq<string>): seq<string> {
    if s == [] then [] else Insert(s[0], Sorted(s[1..]))
  }

  ghost predicate InOrder(s: seq<string>) {
    forall i, j :: 0 <= i < j < |s| ==> !Less(s[j], s[i])
  }

  ghost predicate AtMost(x: string, s: seq<string>) {
    forall j :: 0 <= j < |s| ==> !Less(s[j], x)
  }

  lemma PrependInOrder(x: string, s: seq<string>)
    requires InOrder(s) && AtMost(x, s)
    ensures InOrder([x] + s)
  {
    hide Less;
  }

  lemma RestInOrder(s: seq<string>)
    requires s != [] && InOrder(s)
    ensures InOrder(s[1..]) && AtMost(s[0], s[1..])
  {
    hide Less;
  }

  lemma HeadAndRest(s: seq<string>)
    requires s != []
    ensures s == [s[0]] + s[1..] && multiset(s) == multiset{s[0]} + multiset(s[1..])
  {
    assert s == [s[0]] + s[1..];
  }

  lemma {:induction false} InsertKeeps(x: string, s: seq<string>)
    ensures multiset(Insert(x, s)) == multiset(s) + multiset{x}
  {
    hide Less;
    if s != [] {
      HeadAndRest(s);
      InsertKeeps(x, s[1..]);
    }
  }

  lemma {:induction false} InsertAtMost(y: string, x: string, s: seq<string>)
    requires AtMost(y, s) && !Less(x, y)
    ensures AtMost(y, Insert(x, s))
  {
    hide Less;
    if s != [] && Less(s[0], x) {
      InsertAtMost(y, x, s[1..]);
    }
  }

  lemma {:induction false} InsertSorts(x: string, s: seq<string>)
    requires InOrder(s)
    ensures InOrder(Insert(x, s))
  {
    hide Less, InOrder;
    if s == [] {
      PrependInOrder(x, []);
    } else if !Less(s[0], x) {
      RestInOrder(s);
      forall j | 0 <= j < |s|
        ensures !Less(s[j], x)
      {
        LessTotal(s[0], s[0]);
        NotLessTransitive(s[j], s[0], x);
      }
      PrependInOrder(x, s);
    } else {
      RestInOrder(s);
      LessTotal(s[0], x);
      InsertSorts(x, s[1..]);
      InsertAtMost(s[0], x, s[1..]);
      PrependInOrder(s[0], Insert(x, s[1..]));
    }
  }

  lemma NotLessTransitive(a: string, b: string, c: string)
    requires !Less(a, b) && !Less(b, c)
    ensures !Less(a, c)
  {
    LessTotal(a, b);
    LessTotal(b, c);
    if Less(a, c) && Less(c, b) {
      LessTransitive(a, c, b);
    }
  }

  lemma NothingInOrder()
    ensures InOrder([])
  {
  }

  lemma {:induction false} SortedSorts(s: seq<string>)
    ensures InOrder(Sorted(s)) && multiset(Sorted(s)) == multiset(s)
  {
    hide Insert, InOrder;
    if s == [] {
      NothingInOrder();
    } else {
      SortedSorts(s[1..]);
      InsertSorts(s[0], Sorted(s[1..]));
      InsertKeeps(s[0], Sorted(s[1..]));
      HeadAndRest(s);
    }
  }

  lemma SortedMembers(s: seq<string>, x: string)
    ensures x in Sorted(s) <==> x in s
  {
    SortedSorts(s);
    assert x in Sorted(s) <==> x in multiset(Sorted(s));
    assert x in s <==> x in multiset(s);
  }

  /** The last of the sorted names is one of them, and none is above it. */
  lemma LastIsGreatest(s: seq<string>)
    requires s != []
    ensures Sorted(s) != []
    ensures var last := Sorted(s)[|Sorted(s)| - 1]; last in s && forall x | x in s :: !Less(last, x)
  {
    SortedSorts(s);
    var t := Sorted(s);
    SortedMembers(s, s[0]);
    var last := t[|t| - 1];
    SortedMembers(s, last);
    forall x | x in s
      ensures !Less(last, x)
    {
      SortedMembers(s, x);
      var i :| 0 <= i < |t| && t[i] == x;
      LessTotal(x, x);
    }
  }

  // ----- the members of a set, in order --------------------------------------------------------------

  ghost predicate IsLeast(s: set<string>, m: string) {
    m in s && forall x | x in s :: !Less(x, m)
  }

  method Least(s: set<string>) returns (m: string)
    requires s != {}
    ensures IsLeast(s, m)
  {
    m :| m in s;
    var rest := s - {m};
    LessTotal(m, m);
    while rest != {}
      invariant m in s && rest <= s && forall x | x in s && x !in rest :: !Less(x, m)
      decreases |rest|
    {
      var x :| x in rest;
      if Less(x, m) {
        LessTotal(x, m);
        forall y | y in s && y !in rest
          ensures !Less(y, x)
        {
          LessTotal(m, x);
          NotLessTransitive(y, m, x);
        }
        m := x;
        LessTotal(x, x);
      }
      rest := rest - {x};
    }
  }

  lemma {:induction false} LeastExists(s: set<string>) returns (m: string)
    requires s != {}
    ensures IsLeast(s, m)
  {
    var x :| x in s;
    LessTotal(x, x);
    if s == {x} {
      m := x;
    } else {
      var k := LeastExists(s - {x});
      m := if Less(x, k) then x else k;
      forall y | y in s
        ensures !Less(y, m)
      {
        LessTotal(k, x);
        if y != x && Less(x, k) {
          NotLessTransitive(y, k, x);
        }
      }
    }
  }

  lemma SomeLeast(s: set<string>)
    requires s != {}
    ensures exists m :: IsLeast(s, m)
  {
    var m := LeastExists(s);
  }

  ghost function LeastOf(s: set<string>): (m: string)
    requires s != {}
    ensures IsLeast(s, m)
  {
    SomeLeast(s);
    var m :| IsLeast(s, m);
    m
  }

  /** `sorted` of a set. */
  ghost function Ascending(s: set<string>): seq<string>
    decreases |s|
  {
    if s == {} then [] else [LeastOf(s)] + Ascending(s - {LeastOf(s)})
  }

  lemma AscendingStep(s: set<string>, m: string)
    requires IsLeast(s, m)
    ensures Ascending(s) == [m] + Ascending(s - {m})
  {
    LessTotal(m, LeastOf(s));
  }

  lemma {:induction false} AscendingMembers(s: set<string>, x: string)
    ensures x in Ascending(s) <==> x in s
    decreases |s|
  {
    if s != {} {
      AscendingMembers(s - {LeastOf(s)}, x);
    }
  }

  lemma {:induction false} AscendingOrdered(s: set<string>)
    ensures InOrder(Ascending(s))
    decreases |s|
  {
    hide Less, InOrder;
    if s == {} {
      NothingInOrder();
    } else {
      var m := LeastOf(s);
      AscendingOrdered(s - {m});
      forall j | 0 <= j < |Ascending(s - {m})|
        ensures !Less(Ascending(s - {m})[j], m)
      {
        AscendingMembers(s - {m}, Ascending(s - {m})[j]);
      }
      PrependInOrder(m, Ascending(s - {m}));
    }
  }
}
