/** Insertion sort by a total preorder, and why a strictly sorted sequence is determined by its elements. */
module Sorting {
  import opened Common

  ghost predicate TotalPreorder<T(!new)>(le: (T, T) -> bool) {
    && (forall x, y :: le(x, y) || le(y, x))
    && (forall x, y, z :: le(x, y) && le(y, z) ==> le(x, z))
  }

  ghost predicate Sorted<T(!new)>(le: (T, T) -> bool, s: seq<T>) {
    forall i, j :: 0 <= i < j < |s| ==> le(s[i], s[j])
  }

  function Insert<T>(le: (T, T) -> bool, x: T, s: seq<T>): (r: seq<T>)
    ensures multiset(r) == multiset(s) + multiset{x}
  {
    if s == [] then [x]
    else if le(x, s[0]) then
      assert [x] + s == [x] + s;
      [x] + s
    else
      assert s == [s[0]] + s[1..];
      [s[0]] + Insert(le, x, s[1..])
  }

  function Sort<T>(le: (T, T) -> bool, s: seq<T>): (r: seq<T>)
    ensures multiset(r) == multiset(s)
  {
    if s == [] then []
    else
      assert s == [s[0]] + s[1..];
      Insert(le, s[0], Sort(le, s[1..]))
  }

  lemma SortSingleton<T>(le: (T, T) -> bool, x: T)
    ensures Sort(le, [x]) == [x]
  {
    assert [x][1..] == [];
    assert Sort(le, [x]) == Insert(le, x, Sort(le, []));
  }

  lemma {:induction false} InsertSorted<T(!new)>(le: (T, T) -> bool, x: T, s: seq<T>)
    requires TotalPreorder(le) && Sorted(le, s)
    ensures Sorted(le, Insert(le, x, s))
  {
    if s != [] && !le(x, s[0]) {
      InsertSorted(le, x, s[1..]);
      var r := Insert(le, x, s[1..]);
      forall y | y in r ensures le(s[0], y) {
        assert y in multiset(r);
        assert y in s[1..] || y == x;
      }
    }
  }

  lemma {:induction false} SortSorts<T(!new)>(le: (T, T) -> bool, s: seq<T>)
    requires TotalPreorder(le)
    ensures Sorted(le, Sort(le, s))
  {
    if s != [] {
      SortSorts(le, s[1..]);
      InsertSorted(le, s[0], Sort(le, s[1..]));
    }
  }

  lemma {:induction false} MultisetMembers<T>(s: seq<T>, t: seq<T>)
    requires multiset(s) == multiset(t)
    ensures |s| == |t| && Elems(s) == Elems(t)
    ensures NoDup(s) ==> NoDup(t)
  {
    assert |multiset(s)| == |s| && |multiset(t)| == |t|;
    forall x ensures x in s <==> x in t {
      assert x in multiset(s) <==> x in multiset(t);
    }
    if NoDup(s) && !NoDup(t) {
      var i, j :| 0 <= i < j < |t| && t[i] == t[j];
      assert t == t[..i] + [t[i]] + t[i + 1..j] + [t[j]] + t[j + 1..];
      assert multiset(t)[t[i]] >= 2;
      NoDupCount(s, t[i]);
    }
  }

  lemma {:induction false} NoDupCount<T>(s: seq<T>, x: T)
    requires NoDup(s)
    ensures multiset(s)[x] <= 1
  {
    if s != [] {
      var n := |s| - 1;
      assert s == s[..n] + [s[n]];
      NoDupCount(s[..n], x);
      if s[n] == x {
        assert x !in s[..n];
        assert x !in multiset(s[..n]);
      }
    }
  }

  lemma HeadLeast<T(!new)>(le: (T, T) -> bool, s: seq<T>)
    requires TotalPreorder(le) && Sorted(le, s) && s != []
    ensures forall x :: x in s ==> le(s[0], x)
  {
    assert le(s[0], s[0]);
  }

  /** Two sorted sequences without repetitions over the same elements are the same sequence. */
  lemma {:induction false} SortedUnique<T(!new)>(le: (T, T) -> bool, s: seq<T>, t: seq<T>)
    requires TotalPreorder(le)
    requires Sorted(le, s) && Sorted(le, t) && NoDup(s) && NoDup(t) && Elems(s) == Elems(t)
    requires forall x, y :: x in s && y in s && le(x, y) && le(y, x) ==> x == y
    ensures s == t
    decreases |s|
  {
    if s == [] {
      NoDupSize(t);
    } else {
      assert s[0] in Elems(t);
      assert t != [] && t[0] in Elems(s);
      var a, b := s[0], t[0];
      HeadLeast(le, s);
      HeadLeast(le, t);
      assert a == b;
      TailElems(s, a);
      TailElems(t, a);
      SortedUnique(le, s[1..], t[1..]);
      assert s == [a] + s[1..] && t == [b] + t[1..];
    }
  }

  lemma TailElems<T>(s: seq<T>, x: T)
    requires s != [] && NoDup(s) && s[0] == x
    ensures NoDup(s[1..]) && Elems(s[1..]) == Elems(s) - {x}
  {
    forall y ensures y in s[1..] <==> y in s && y != x {
      if y in s && y != x {
        var i :| 0 <= i < |s| && s[i] == y;
        assert s[1..][i - 1] == y;
      }
    }
  }

  // ----- Lexicographic order -----

  predicate LexBy<T(==)>(lt: (T, T) -> bool, a: seq<T>, b: seq<T>) {
    a == [] || (b != [] && (lt(a[0], b[0]) || (a[0] == b[0] && LexBy(lt, a[1..], b[1..]))))
  }

  ghost predicate StrictTotal<T(!new)>(lt: (T, T) -> bool) {
    && (forall x, y :: lt(x, y) ==> !lt(y, x))
    && (forall x, y :: x == y || lt(x, y) || lt(y, x))
    && (forall x, y, z :: lt(x, y) && lt(y, z) ==> lt(x, z))
  }

  lemma {:induction false} LexTotal<T(!new)>(lt: (T, T) -> bool, a: seq<T>, b: seq<T>)
    requires StrictTotal(lt)
    ensures LexBy(lt, a, b) || LexBy(lt, b, a)
    ensures LexBy(lt, a, b) && LexBy(lt, b, a) ==> a == b
  {
    if a != [] && b != [] && a[0] == b[0] {
      LexTotal(lt, a[1..], b[1..]);
      assert a == [a[0]] + a[1..] && b == [b[0]] + b[1..];
    }
  }

  lemma {:induction false} LexTransitive<T(!new)>(lt: (T, T) -> bool, a: seq<T>, b: seq<T>, c: seq<T>)
    requires StrictTotal(lt) && LexBy(lt, a, b) && LexBy(lt, b, c)
    ensures LexBy(lt, a, c)
  {
    if a != [] && a[0] == b[0] && b[0] == c[0] {
      LexTransitive(lt, a[1..], b[1..], c[1..]);
    }
  }

  /** `a` and `b` agree before position `n`, and there `a` is smaller. */
  ghost predicate SmallerAt<T>(lt: (T, T) -> bool, a: seq<T>, b: seq<T>, n: nat) {
    n < |a| && n < |b| && a[..n] == b[..n] && lt(a[n], b[n])
  }

  /** Lexicographic order is: a prefix, or smaller at the first difference. */
  lemma {:induction false} LexExactly<T(!new)>(lt: (T, T) -> bool, a: seq<T>, b: seq<T>)
    requires StrictTotal(lt)
    ensures LexBy(lt, a, b) <==> a <= b || exists n: nat :: SmallerAt(lt, a, b, n)
  {
    if a != [] && b != [] {
      assert a == [a[0]] + a[1..] && b == [b[0]] + b[1..];
      if lt(a[0], b[0]) {
        assert SmallerAt(lt, a, b, 0);
      } else if a[0] == b[0] {
        LexExactly(lt, a[1..], b[1..]);
        if n: nat :| SmallerAt(lt, a[1..], b[1..], n) {
          assert a[..n + 1] == [a[0]] + a[1..][..n] && b[..n + 1] == [b[0]] + b[1..][..n];
          assert SmallerAt(lt, a, b, n + 1);
        }
        if n: nat :| SmallerAt(lt, a, b, n) {
          assert n > 0 && a[1..][..n - 1] == a[..n][1..] && b[1..][..n - 1] == b[..n][1..];
          assert SmallerAt(lt, a[1..], b[1..], n - 1);
        }
      } else {
        forall n: nat ensures !SmallerAt(lt, a, b, n) {
          if n > 0 && n < |a| && n < |b| {
            assert a[..n][0] == a[0] && b[..n][0] == b[0];
          }
        }
      }
    }
  }

  predicate CharLt(x: char, y: char) {
    x < y
  }

  /** The order of event ids. */
  predicate LexLe(a: string, b: string) {
    LexBy(CharLt, a, b)
  }

  lemma LexLeExactly(a: string, b: string)
    ensures LexLe(a, b) <==> a <= b || exists n: nat :: SmallerAt(CharLt, a, b, n)
  {
    assert StrictTotal(CharLt);
    LexExactly(CharLt, a, b);
  }

  lemma LexIsOrder()
    ensures TotalPreorder(LexLe)
    ensures forall x, y :: LexLe(x, y) && LexLe(y, x) ==> x == y
  {
    forall x, y ensures LexLe(x, y) || LexLe(y, x) { LexTotal(CharLt, x, y); }
    forall x, y | LexLe(x, y) && LexLe(y, x) ensures x == y { LexTotal(CharLt, x, y); }
    forall x, y, z | LexLe(x, y) && LexLe(y, z) ensures LexLe(x, z) { LexTransitive(CharLt, x, y, z); }
  }
}
