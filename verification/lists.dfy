/** Sequences without repetition, and with one value taken out as erase and remove leave them. */
module Lists {

  ghost predicate Distinct<T>(s: seq<T>) {
    forall i, j :: 0 <= i < j < |s| ==> s[i] != s[j]
  }

  function Without<T(==)>(s: seq<T>, x: T): seq<T> {
    if s == [] then [] else (if s[0] == x then [] else [s[0]]) + Without(s[1..], x)
  }

  lemma {:induction false} WithoutHolds<T>(s: seq<T>, x: T)
    ensures forall y :: y in Without(s, x) <==> y in s && y != x
  {
    if s != [] {
      WithoutHolds(s[1..], x);
      assert forall y :: y in s <==> y == s[0] || y in s[1..];
    }
  }

  lemma {:induction false} WithoutDistinct<T>(s: seq<T>, x: T)
    requires Distinct(s)
    ensures Distinct(Without(s, x))
  {
    if s != [] {
      WithoutDistinct(s[1..], x);
      WithoutHolds(s[1..], x);
      assert s[0] !in s[1..];
    }
  }

  lemma {:induction false} WithoutAbsent<T>(s: seq<T>, x: T)
    ensures x !in s ==> Without(s, x) == s
  {
    if s != [] && x !in s {
      WithoutAbsent(s[1..], x);
    }
  }

  /** The pointers `ptrs` lead to the records that `ids` name. */
  ghost predicate Listing<T>(ids: seq<nat>, ptrs: seq<T>, records: map<nat, T>) {
    |ids| == |ptrs| && forall i :: 0 <= i < |ptrs| ==> ids[i] in records && records[ids[i]] == ptrs[i]
  }

  /** To take out a record is to take out its name. */
  lemma {:induction false} ListingWithout<T>(ids: seq<nat>, ptrs: seq<T>, records: map<nat, T>, id: nat, p: T)
    requires Listing(ids, ptrs, records) && id in records && records[id] == p
    requires forall c <- records :: records[c] == p ==> c == id
    ensures Listing(Without(ids, id), Without(ptrs, p), records)
  {
    if ptrs != [] {
      ListingWithout(ids[1..], ptrs[1..], records, id, p);
      assert ids[0] == id <==> ptrs[0] == p;
    }
  }
}
