/** Python list operations used by the scripts, on sequences. */
module PyList {
  import opened Wrappers

  /** No element occurs twice. For a list of objects: no object is listed twice. */
  predicate Distinct<T(==)>(s: seq<T>) {
    |s| == 0 || (s[0] !in s[1..] && Distinct(s[1..]))
  }

  /** `Distinct` says that any two positions hold different elements. */
  lemma {:induction false} DistinctIndices<T>(s: seq<T>)
    ensures Distinct(s) <==> forall i, j :: 0 <= i < j < |s| ==> s[i] != s[j]
  {
    if |s| > 0 {
      var t := s[1..];
      DistinctIndices(t);
      if Distinct(s) {
        forall i, j | 0 <= i < j < |s| ensures s[i] != s[j] {
          assert s[j] == t[j - 1];
          if i > 0 { assert s[i] == t[i - 1]; }
        }
      }
      if forall i, j :: 0 <= i < j < |s| ==> s[i] != s[j] {
        forall j | 0 <= j < |t| ensures t[j] != s[0] {
          assert t[j] == s[j + 1];
        }
        forall i, j | 0 <= i < j < |t| ensures t[i] != t[j] {
          assert t[i] == s[i + 1] && t[j] == s[j + 1];
        }
      }
    }
  }

  /** Appending an element not yet listed keeps the list without repetitions. */
  lemma {:induction false} DistinctAppend<T>(s: seq<T>, x: T)
    requires Distinct(s) && x !in s
    ensures Distinct(s + [x])
  {
    if |s| > 0 {
      assert (s + [x])[1..] == s[1..] + [x];
      DistinctAppend(s[1..], x);
    }
  }

  /**
   * `s.remove(x)`: the list without its first element equal to `x`.
   * `None` stands for the `ValueError` Python raises when `x` is absent.
   */
  function Remove<T(==)>(s: seq<T>, x: T): (r: Option<seq<T>>)
    ensures r.None? <==> x !in s
    ensures r.Some? ==> |r.value| == |s| - 1
  {
    if |s| == 0 then None
    else if s[0] == x then Some(s[1..])
    else
      match Remove(s[1..], x)
      case None => None
      case Some(t) => Some([s[0]] + t)
  }

  /** `remove` takes out exactly the first occurrence and keeps the rest in order. */
  lemma {:induction false} RemoveFirstOccurrence<T>(s: seq<T>, x: T, i: nat)
    requires i < |s| && s[i] == x && x !in s[..i]
    ensures Remove(s, x) == Some(s[..i] + s[i + 1..])
  {
    if i == 0 {
      assert s[..i] + s[i + 1..] == s[1..];
    } else {
      var u := s[1..];
      assert s[0] in s[..i];
      assert u[..i - 1] == s[1..i];
      assert forall y :: y in u[..i - 1] ==> y in s[..i];
      RemoveFirstOccurrence(u, x, i - 1);
      assert [s[0]] + (u[..i - 1] + u[i..]) == s[..i] + s[i + 1..];
    }
  }

  /** `remove` takes away one copy of `x` and nothing else. */
  lemma {:induction false} RemoveMultiset<T>(s: seq<T>, x: T)
    requires x in s
    ensures Remove(s, x).Some? && multiset(Remove(s, x).value) == multiset(s) - multiset{x}
  {
    assert s == [s[0]] + s[1..];
    if s[0] != x {
      RemoveMultiset(s[1..], x);
    }
  }

  /** Taking one element out of a list without repetitions leaves none. */
  lemma DistinctWithout<T>(s: seq<T>, i: nat)
    requires Distinct(s) && i < |s|
    ensures Distinct(s[..i] + s[i + 1..])
  {
    var r := s[..i] + s[i + 1..];
    DistinctIndices(s);
    DistinctIndices(r);
    forall a, b | 0 <= a < b < |r| ensures r[a] != r[b] {
      var a' := if a < i then a else a + 1;
      var b' := if b < i then b else b + 1;
      assert r[a] == s[a'] && r[b] == s[b'];
    }
  }

  /** In a list without repetitions, `remove` of the element at `i` takes out that very element. */
  lemma RemoveDistinct<T>(s: seq<T>, i: nat)
    requires Distinct(s) && i < |s|
    ensures Remove(s, s[i]) == Some(s[..i] + s[i + 1..])
    ensures Distinct(s[..i] + s[i + 1..]) && s[i] !in s[..i] + s[i + 1..]
  {
    DistinctIndices(s);
    forall j | 0 <= j < i ensures s[..i][j] != s[i] {
      assert s[..i][j] == s[j];
    }
    RemoveFirstOccurrence(s, s[i], i);
    DistinctWithout(s, i);
    var r := s[..i] + s[i + 1..];
    forall j | 0 <= j < |r| ensures r[j] != s[i] {
      if j < i { assert r[j] == s[j]; } else { assert r[j] == s[j + 1]; }
    }
  }
}
