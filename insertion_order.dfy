/**
 The key order that a JavaScript `Map` or `Set` keeps: keys in the order they
 were first inserted, each once.
 */
module InsertionOrder {

  ghost predicate Distinct<K>(s: seq<K>)
  {
    forall i, j :: 0 <= i < j < |s| ==> s[i] != s[j]
  }

  /**
   `Map.prototype.set` / `Set.prototype.add` on the key order: every key
   already there keeps its position, and a new key goes last.
   */
  function Insert<K(==)>(s: seq<K>, k: K): (r: seq<K>)
    ensures k in r && forall x :: x in r ==> x in s || x == k
    ensures forall x :: x in s ==> x in r
    ensures Distinct(s) ==> Distinct(r)
    ensures |s| <= |r| <= |s| + 1
    ensures forall i :: 0 <= i < |s| ==> r[i] == s[i]
    ensures |r| == |s| <==> k in s
  {
    if k in s then s else s + [k]
  }

  /**
   `Map.prototype.delete` / `Set.prototype.delete` on the key order: `k`
   leaves, the remaining keys keep their relative order.
   */
  function Remove<K(==)>(s: seq<K>, k: K): (r: seq<K>)
    ensures k !in r && forall x :: x in r ==> x in s
    ensures forall x :: x in s && x != k ==> x in r
    ensures Distinct(s) ==> Distinct(r)
    ensures k !in s ==> r == s
    ensures |r| <= |s|
  {
    if s == [] then []
    else if s[0] == k then Remove(s[1..], k)
    else
      var rest := Remove(s[1..], k);
      assert Distinct(s) ==> s[0] !in s[1..] && Distinct(s[1..]);
      [s[0]] + rest
  }

  /** On a key order, removing the key at position `i` cuts out exactly that position. */
  lemma {:induction false} RemoveAt<K>(s: seq<K>, i: nat)
    requires Distinct(s) && i < |s|
    ensures Remove(s, s[i]) == s[..i] + s[i + 1..]
  {
    if i == 0 {
      assert Remove(s, s[0]) == s[1..] by {
        assert s[0] !in s[1..];
      }
      assert s[..0] + s[1..] == s[1..];
    } else {
      var tail := s[1..];
      assert Distinct(tail) by {
        forall a, b | 0 <= a < b < |tail|
          ensures tail[a] != tail[b]
        {
          assert tail[a] == s[a + 1] && tail[b] == s[b + 1];
        }
      }
      assert tail[i - 1] == s[i];
      RemoveAt(tail, i - 1);
      assert Remove(s, s[i]) == [s[0]] + Remove(tail, s[i]) by {
        assert s[0] != s[i];
      }
      assert [s[0]] + (tail[..i - 1] + tail[i..]) == s[..i] + s[i + 1..] by {
        assert tail[..i - 1] == s[1..i] && tail[i..] == s[i + 1..];
      }
    }
  }

  /** Inserting a new key and removing it again gives back the original key order. */
  lemma {:induction false} RemoveInserted<K>(s: seq<K>, k: K)
    requires k !in s
    ensures Remove(Insert(s, k), k) == s
  {
    if s == [] {
      assert Insert(s, k) == [k];
    } else {
      assert Insert(s, k) == s + [k] && Insert(s[1..], k) == s[1..] + [k];
      assert (s + [k])[1..] == s[1..] + [k];
      RemoveInserted(s[1..], k);
    }
  }

  /** A key order with no repeats is exactly as long as the set of its keys is large. */
  lemma {:induction false} DistinctCovers<K>(s: seq<K>, keys: set<K>)
    requires Distinct(s)
    requires forall x :: x in s <==> x in keys
    ensures |keys| == |s|
  {
    if s == [] {
      assert keys == {};
    } else {
      var rest := keys - {s[0]};
      assert Distinct(s[1..]);
      forall x
        ensures x in s[1..] <==> x in rest
      {
        if x in s[1..] {
          var j :| 0 <= j < |s[1..]| && s[1..][j] == x;
          assert s[j + 1] == x;
        }
      }
      DistinctCovers(s[1..], rest);
    }
  }
}
