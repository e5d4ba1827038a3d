/** The in-memory store: an ordered sequence of movies, and the scans and
    splices the route handlers perform on it. */
module MovieStore {
  import opened MovieRecord

  /** The `movies` array, in insertion order. */
  type Store = seq<Movie>

  /** The identifiers present in the store. */
  function Ids(s: Store): set<Id> {
    set m | m in s :: m.id
  }

  /** No two positions of the store carry the same identifier. */
  ghost predicate UniqueIds(s: Store) {
    forall i, j :: 0 <= i < |s| && 0 <= j < |s| && s[i].id == s[j].id ==> i == j
  }

  /** `s.findIndex(m => m.id === id)`: the first position carrying `id`, or
      -1 when there is none. */
  function FindIndex(s: Store, id: Id): (r: int)
    ensures -1 <= r < |s|
    ensures r == -1 <==> id !in Ids(s)
    ensures 0 <= r ==> s[r].id == id
    ensures 0 <= r ==> forall j :: 0 <= j < r ==> s[j].id != id
  {
    if |s| == 0 then -1
    else if s[0].id == id then 0
    else
      var k := FindIndex(s[1..], id);
      if k == -1 then -1 else k + 1
  }

  /** `s.filter(m => HasGenre(m, q))`: the movies carrying genre `q`, in
      store order. */
  function FilterGenre(s: Store, q: string): (r: Store)
    ensures |r| <= |s|
    ensures forall m :: m in r ==> m in s && HasGenre(m, q)
    ensures forall i :: 0 <= i < |s| && HasGenre(s[i], q) ==> s[i] in r
  {
    if |s| == 0 then []
    else
      var init := FilterGenre(s[..|s| - 1], q);
      if HasGenre(s[|s| - 1], q) then init + [s[|s| - 1]] else init
  }

  /** The positions of the store whose movie carries genre `q`, ascending:
      exactly the positions the filter keeps. */
  function MatchIndices(s: Store, q: string): (idx: seq<nat>)
    ensures forall j :: 0 <= j < |idx| ==> idx[j] < |s| && HasGenre(s[idx[j]], q)
    ensures forall j, k :: 0 <= j < k < |idx| ==> idx[j] < idx[k]
    ensures forall i :: 0 <= i < |s| && HasGenre(s[i], q) ==> i in idx
  {
    if |s| == 0 then []
    else
      var init := MatchIndices(s[..|s| - 1], q);
      if HasGenre(s[|s| - 1], q) then init + [|s| - 1] else init
  }

  /** `r` lists `s` at the ascending positions `idx`. */
  ghost predicate SelectedAt(r: Store, s: Store, idx: seq<nat>) {
    && |r| == |idx|
    && (forall j :: 0 <= j < |idx| ==> idx[j] < |s| && r[j] == s[idx[j]])
    && (forall j, k :: 0 <= j < k < |idx| ==> idx[j] < idx[k])
  }

  /** The filter is `s` read at the matching positions, one entry per
      position: with the contract of `MatchIndices`, the order-preserving
      subsequence of `s` taken at exactly the positions whose movie carries
      genre `q`. */
  lemma {:induction false} FilterSelectsMatches(s: Store, q: string)
    ensures |FilterGenre(s, q)| == |MatchIndices(s, q)|
    ensures forall j :: 0 <= j < |MatchIndices(s, q)| ==>
      FilterGenre(s, q)[j] == s[MatchIndices(s, q)[j]]
  {
    if |s| > 0 {
      var s' := s[..|s| - 1];
      FilterSelectsMatches(s', q);
      var r, r' := FilterGenre(s, q), FilterGenre(s', q);
      var idx, idx' := MatchIndices(s, q), MatchIndices(s', q);
      assert |r| == |idx|;
      forall j | 0 <= j < |idx|
        ensures r[j] == s[idx[j]]
      {
        if j < |idx'| {
          assert r[j] == r'[j] && idx[j] == idx'[j];
          assert s'[idx'[j]] == s[idx'[j]];
        }
      }
    }
  }

  /** `s.splice(i, 1)`: the store without position `i`, the others in order. */
  function RemoveAt(s: Store, i: nat): (r: Store)
    requires i < |s|
    ensures |r| == |s| - 1
    ensures forall j :: 0 <= j < i ==> r[j] == s[j]
    ensures forall j :: i <= j < |r| ==> r[j] == s[j + 1]
    ensures multiset(r) + multiset{s[i]} == multiset(s)
  {
    assert s == s[..i] + [s[i]] + s[i + 1..];
    s[..i] + s[i + 1..]
  }

  /** Removing a position keeps identifiers unique, and with unique
      identifiers the removed one is gone from the store. */
  lemma RemoveAtKeepsUnique(s: Store, i: nat)
    requires i < |s|
    requires UniqueIds(s)
    ensures UniqueIds(RemoveAt(s, i))
    ensures s[i].id !in Ids(RemoveAt(s, i))
    ensures Ids(RemoveAt(s, i)) == Ids(s) - {s[i].id}
  {
  }
}
