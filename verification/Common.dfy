/** Option and the few sequence facts shared by the other modules. */
module Common {

  datatype Option<+T> = None | Some(value: T)

  function Min(a: nat, b: nat): nat {
    if a < b then a else b
  }

  function Max(a: int, b: int): int {
    if a > b then a else b
  }

  /** The elements of `s` that satisfy `p`, in order. */
  function Filter<T>(p: T -> bool, s: seq<T>): (r: seq<T>)
    ensures |r| <= |s|
  {
    if s == [] then []
    else
      var front := Filter(p, s[..|s| - 1]);
      if p(s[|s| - 1]) then front + [s[|s| - 1]] else front
  }

  lemma FilterNone<T>(p: T -> bool)
    ensures Filter(p, []) == []
  {
  }

  lemma FilterSnoc<T>(p: T -> bool, s: seq<T>, x: T)
    ensures Filter(p, s + [x]) == if p(x) then Filter(p, s) + [x] else Filter(p, s)
  {
    assert (s + [x])[..|s|] == s;
  }

  lemma {:induction false} FilterAppend<T>(p: T -> bool, a: seq<T>, b: seq<T>)
    ensures Filter(p, a + b) == Filter(p, a) + Filter(p, b)
  {
    hide Filter;
    if b == [] {
      FilterNone(p);
      assert a + b == a;
    } else {
      var front, x := b[..|b| - 1], b[|b| - 1];
      FilterAppend(p, a, front);
      FilterSnoc(p, front, x);
      FilterSnoc(p, a + front, x);
      assert b == front + [x];
      assert a + b == a + front + [x];
    }
  }

  lemma {:induction false} FilterMembers<T(!new)>(p: T -> bool, s: seq<T>)
    ensures forall x :: x in Filter(p, s) <==> x in s && p(x)
  {
    if s != [] {
      FilterMembers(p, s[..|s| - 1]);
      assert s == s[..|s| - 1] + [s[|s| - 1]];
    }
  }

  /** The first element that satisfies `p`, if there is one. */
  lemma {:induction false} FilterFirst<T>(p: T -> bool, s: seq<T>) returns (n: nat)
    ensures n <= |s| && (forall i :: 0 <= i < n ==> !p(s[i]))
    ensures if n == |s| then Filter(p, s) == [] else p(s[n]) && Filter(p, s) != [] && Filter(p, s)[0] == s[n]
  {
    if s == [] {
      n := 0;
    } else {
      n := FilterFirst(p, s[..|s| - 1]);
      if n == |s| - 1 && !p(s[n]) {
        n := |s|;
      }
    }
  }
}
