/** The operations of Python's `list` that the servers use on their
    connection lists. */
module Lists {

  /** `list.remove`: drops the first occurrence, if there is one. */
  function RemoveFirst<T(==)>(s: seq<T>, x: T): seq<T> {
    if s == [] then []
    else if s[0] == x then s[1..]
    else [s[0]] + RemoveFirst(s[1..], x)
  }

  lemma {:induction false} RemoveAt<T>(s: seq<T>, x: T, i: nat)
    requires i < |s| && s[i] == x && x !in s[..i]
    ensures RemoveFirst(s, x) == s[..i] + s[i + 1..]
    decreases i
  {
    if i > 0 {
      assert s[1..][..i - 1] == s[..i][1..];
      RemoveAt(s[1..], x, i - 1);
      assert s[..i] == [s[0]] + s[1..][..i - 1];
      assert s[i + 1..] == s[1..][i..];
    }
  }

  lemma {:induction false} RemoveAbsent<T>(s: seq<T>, x: T)
    requires x !in s
    ensures RemoveFirst(s, x) == s
    decreases |s|
  {
    if s != [] {
      RemoveAbsent(s[1..], x);
    }
  }

  predicate NoDup<T(==)>(s: seq<T>) {
    forall i, j :: 0 <= i < j < |s| ==> s[i] != s[j]
  }

  /** In a list without repeats, `remove` takes the element out for good and
      keeps every other one. */
  lemma {:induction false} RemoveFirstNoDup<T>(s: seq<T>, x: T)
    requires NoDup(s)
    ensures NoDup(RemoveFirst(s, x))
    ensures forall y :: y in RemoveFirst(s, x) <==> y in s && y != x
    decreases |s|
  {
    if s != [] {
      var t := s[1..];
      assert NoDup(t) by {
        forall i, j | 0 <= i < j < |t|
          ensures t[i] != t[j]
        {
          assert t[i] == s[i + 1] && t[j] == s[j + 1];
        }
      }
      if s[0] == x {
        assert forall k :: 0 <= k < |t| ==> t[k] == s[k + 1] && s[k + 1] != s[0];
      } else {
        RemoveFirstNoDup(t, x);
        var r := RemoveFirst(t, x);
        assert s[0] !in t by {
          assert forall k :: 0 <= k < |t| ==> t[k] == s[k + 1] && s[0] != s[k + 1];
        }
        var q := [s[0]] + r;
        forall i, j | 0 <= i < j < |q|
          ensures q[i] != q[j]
        {
          if i == 0 {
            assert q[j] == r[j - 1] && r[j - 1] in r;
          } else {
            assert q[i] == r[i - 1] && q[j] == r[j - 1];
          }
        }
        assert s == [s[0]] + t;
      }
    }
  }
}
