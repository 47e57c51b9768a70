/** Sets of numbers walked in ascending order, as the source walks its ordered sets and maps. */
module OrderedSets {
  lemma SomeElement<T>(s: set<T>)
    requires s != {}
    ensures exists x :: x in s
  {
  }

  ghost predicate IsLeast(m: nat, s: set<nat>) {
    m in s && forall x :: x in s ==> m <= x
  }

  lemma LeastOfMore(s: set<nat>, x: nat, m: nat)
    requires IsLeast(m, s)
    ensures IsLeast(if m < x then m else x, s + {x})
  {
  }

  lemma {:induction false} LeastExists(s: set<nat>)
    requires s != {}
    ensures exists m :: IsLeast(m, s)
    decreases |s|
  {
    hide IsLeast;
    SomeElement(s);
    var x :| x in s;
    var rest := s - {x};
    assert s == rest + {x};
    if rest == {} {
      assert s == {x};
      OnlyElement(x);
    } else {
      LeastExists(rest);
      var m :| IsLeast(m, rest);
      LeastOfMore(rest, x, m);
    }
  }

  lemma OnlyElement(x: nat)
    ensures IsLeast(x, {x})
  {
  }

  /** The element an ordered walk meets first. */
  function Least(s: set<nat>): (m: nat)
    requires s != {}
    ensures m in s && forall x :: x in s ==> m <= x
  {
    LeastExists(s);
    assert exists m :: IsLeast(m, s);
    var m :| m in s && forall x :: x in s ==> m <= x;
    m
  }

  ghost predicate StrictlyAscending(s: seq<nat>) {
    forall i, j :: 0 <= i < j < |s| ==> s[i] < s[j]
  }

  /** The whole walk. */
  function Sorted(s: set<nat>): (r: seq<nat>)
    ensures StrictlyAscending(r)
    ensures forall x :: x in r <==> x in s
    ensures |r| == |s|
    decreases |s|
  {
    if s == {} then [] else
      var m := Least(s);
      var rest := Sorted(s - {m});
      assert forall i :: 0 <= i < |rest| ==> rest[i] in s - {m};
      [m] + rest
  }

  /** A walk visits the least element of the part it still has to visit. */
  lemma SortedStep(todo: set<nat>, chosen: set<nat>)
    requires todo != {}
    ensures Least(todo) in chosen ==> Sorted(todo * chosen) == [Least(todo)] + Sorted((todo - {Least(todo)}) * chosen)
    ensures Least(todo) !in chosen ==> todo * chosen == (todo - {Least(todo)}) * chosen
  {
    var m := Least(todo);
    if m in chosen {
      assert m in todo * chosen;
      assert Least(todo * chosen) == m;
      assert todo * chosen - {m} == (todo - {m}) * chosen;
    }
  }

  /** The elements not in [from, to). */
  function Outside(s: set<nat>, from: nat, to: nat): set<nat> {
    set x | x in s && !(from <= x < to)
  }

  function Under(s: set<nat>, c: nat): set<nat> {
    set x | x in s && x < c
  }

  /** In an ascending list an element stands behind those below it. */
  lemma {:induction false} RankIs(r: seq<nat>, s: set<nat>, i: nat)
    requires StrictlyAscending(r) && i < |r| && forall x :: x in r <==> x in s
    ensures |Under(s, r[i])| == i
  {
    if i == 0 {
      assert Under(s, r[0]) == {};
    } else {
      RankIs(r, s, i - 1);
      forall x | x in Under(s, r[i]) ensures x in Under(s, r[i - 1]) + {r[i - 1]} {
        var j: nat :| j < |r| && r[j] == x;
      }
      assert Under(s, r[i]) == Under(s, r[i - 1]) + {r[i - 1]};
    }
  }

  /** The first n of an ascending list are the elements with fewer than n below them. */
  lemma AmongFirstIff(s: set<nat>, n: nat, k: nat)
    requires n <= |s|
    ensures k in Sorted(s)[..n] <==> k in s && |Under(s, k)| < n
  {
    var r := Sorted(s);
    if k in s {
      var i: nat :| i < |r| && r[i] == k;
      RankIs(r, s, i);
      if i < n {
        assert r[..n][i] == k;
      } else {
        forall j: nat | j < n ensures r[..n][j] != k {}
      }
    }
  }

  /** The first number from n on that is not in s. */
  function FirstFree(n: nat, s: set<nat>): (c: nat)
    ensures n <= c && c !in s
    ensures forall k :: n <= k < c ==> k in s
    decreases |s|
  {
    if n in s then
      var f := FirstFree(n + 1, s - {n});
      assert forall k :: n <= k < f ==> k in s by {
        forall k | n <= k < f ensures k in s {
          assert k == n || k in s - {n};
        }
      }
      f
    else n
  }

  lemma FirstFreeIs(n: nat, s: set<nat>, c: nat)
    requires n <= c && c !in s
    requires forall k :: n <= k < c ==> k in s
    ensures FirstFree(n, s) == c
  {
    var f := FirstFree(n, s);
    if f < c {
    }
  }
}
