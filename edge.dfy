/** An edge between two cells, named by their IDs. Equality is componentwise. */
module Edges {

  datatype Edge = Edge(source: int, dest: int)

  /** No edge occurs twice in the list. */
  ghost predicate Distinct(s: seq<Edge>)
  {
    forall a, b :: 0 <= a < b < |s| ==> s[a] != s[b]
  }

  /** The list with the element at index `k` taken out (`List.remove(int)`). */
  function RemoveAt(s: seq<Edge>, k: nat): (r: seq<Edge>)
    requires k < |s|
    ensures |r| == |s| - 1
    ensures forall e :: e in r ==> e in s
    ensures Distinct(s) ==> Distinct(r) && s[k] !in r && forall e :: e in s && e != s[k] ==> e in r
  {
    s[..k] + s[k + 1..]
  }

  /** The list with the first occurrence of `e` taken out, if any (`List.remove(Object)`). */
  function RemoveFirst(s: seq<Edge>, e: Edge): (r: seq<Edge>)
    ensures multiset(r) == multiset(s) - multiset{e}
    ensures |r| == if e in s then |s| - 1 else |s|
  {
    if s == [] then []
    else
      assert s == [s[0]] + s[1..];
      if s[0] == e then s[1..]
      else [s[0]] + RemoveFirst(s[1..], e)
  }

  /** Removing an edge that occurs once shortens the list by one and drops exactly that edge. */
  lemma {:induction false} RemoveFirstDistinct(s: seq<Edge>, e: Edge)
    requires Distinct(s) && e in s
    ensures |RemoveFirst(s, e)| == |s| - 1
    ensures Distinct(RemoveFirst(s, e))
    ensures forall x :: x in RemoveFirst(s, e) <==> x in s && x != e
  {
    if s[0] != e {
      assert Distinct(s[1..]) by {
        forall a, b | 0 <= a < b < |s| - 1 ensures s[1..][a] != s[1..][b] {
          assert s[1..][a] == s[a + 1] && s[1..][b] == s[b + 1];
        }
      }
      RemoveFirstDistinct(s[1..], e);
      var t := RemoveFirst(s[1..], e);
      assert RemoveFirst(s, e) == [s[0]] + t;
      forall a, b | 0 <= a < b < |[s[0]] + t| ensures ([s[0]] + t)[a] != ([s[0]] + t)[b] {
        if a == 0 {
          assert ([s[0]] + t)[b] == t[b - 1];
          assert t[b - 1] in s[1..];
          var m :| 0 <= m < |s[1..]| && s[1..][m] == t[b - 1];
          assert s[m + 1] == t[b - 1];
        }
      }
    } else {
      forall x | x in s[1..] ensures x != e {
        var m :| 0 <= m < |s[1..]| && s[1..][m] == x;
        assert s[m + 1] == x;
      }
    }
  }
}
