/** Small helpers shared by the table, player and dealer models. */
module Common {

  /** A boxed `Integer` that may be null. */
  datatype Option<+T> = None | Some(value: T)

  /** The most tokens a player may hold at once (`Dealer.MAX_TOKENS_FOR_PLAYER`). */
  const MaxTokens: nat := 3

  /** No element occurs twice. */
  predicate Distinct<T(==)>(s: seq<T>)
  {
    forall i, j :: 0 <= i < j < |s| ==> s[i] != s[j]
  }

  /** `Queue.remove(Object)`: drops the first occurrence of `x`, if any. */
  function Without<T(==)>(s: seq<T>, x: T): seq<T>
  {
    if s == [] then []
    else if s[0] == x then s[1..]
    else [s[0]] + Without(s[1..], x)
  }

  /** Removing `x` takes exactly one copy of it away, if there is one, and nothing else. */
  lemma {:induction false} WithoutSpec<T>(s: seq<T>, x: T)
    ensures x !in s ==> Without(s, x) == s
    ensures x in s ==> |Without(s, x)| == |s| - 1
    ensures multiset(Without(s, x)) == multiset(s) - multiset{x}
  {
    if s != [] {
      assert s == [s[0]] + s[1..];
      assert multiset(s) == multiset{s[0]} + multiset(s[1..]);
      if s[0] != x {
        WithoutSpec(s[1..], x);
        var r := Without(s[1..], x);
        assert Without(s, x) == [s[0]] + r;
        assert multiset(Without(s, x)) == multiset{s[0]} + multiset(r);
      }
    }
  }

  /** On a list without repeats, removing `x` removes exactly `x` and keeps it repeat-free. */
  lemma {:induction false} WithoutDistinct<T>(s: seq<T>, x: T)
    requires Distinct(s)
    ensures Distinct(Without(s, x))
    ensures x !in Without(s, x)
    ensures forall y :: y in Without(s, x) <==> y in s && y != x
  {
    if s != [] && s[0] != x {
      assert Distinct(s[1..]) by {
        forall i, j | 0 <= i < j < |s| - 1 ensures s[1..][i] != s[1..][j] {
          assert s[1..][i] == s[i + 1] && s[1..][j] == s[j + 1];
        }
      }
      WithoutDistinct(s[1..], x);
      var t := Without(s[1..], x);
      assert s[0] !in t by {
        assert s[0] !in s[1..];
      }
      assert Without(s, x) == [s[0]] + t;
    } else if s != [] {
      assert x !in s[1..];
    }
  }

  /** The tail of a list without repeats has none either, and lacks the head. */
  lemma DistinctTail<T>(s: seq<T>)
    requires Distinct(s) && s != []
    ensures Distinct(s[1..]) && s[0] !in s[1..]
  {
    forall i, j | 0 <= i < j < |s| - 1 ensures s[1..][i] != s[1..][j] {
      assert s[1..][i] == s[i + 1] && s[1..][j] == s[j + 1];
    }
  }

  /** A list without repeats is one whose multiset has no element twice. */
  lemma {:induction false} DistinctMultiset<T>(s: seq<T>)
    ensures Distinct(s) <==> forall x :: multiset(s)[x] <= 1
  {
    if s != [] {
      var t := s[1..];
      assert s == [s[0]] + t;
      DistinctMultiset(t);
      if Distinct(s) {
        assert Distinct(t) by {
          forall i, j | 0 <= i < j < |t| ensures t[i] != t[j] {
            assert t[i] == s[i + 1] && t[j] == s[j + 1];
          }
        }
        assert s[0] !in t;
      } else {
        if Distinct(t) && s[0] !in t {
          forall i, j | 0 <= i < j < |s| ensures s[i] != s[j] {
            if i == 0 {
              assert s[j] == t[j - 1];
            } else {
              assert s[i] == t[i - 1] && s[j] == t[j - 1];
            }
          }
          assert false;
        }
        if s[0] in t {
          assert multiset(s)[s[0]] >= 2;
        } else {
          var x :| multiset(t)[x] > 1;
          assert multiset(s)[x] >= multiset(t)[x];
        }
      }
    }
  }
}
