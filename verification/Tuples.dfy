/** Five-tuples of a flow and its reverse: sorting, hashing and matching them. */
module Tuples {
  import opened Filters

  /** The same flow seen from the other end. */
  function Reverse(t: Tuple): Tuple {
    Tuple(t.dip, t.sip, t.dp, t.sp, t.proto)
  }

  /** The larger address first; equal addresses leave the tuple as it is. */
  function Sort(t: Tuple): Tuple {
    if t.sip >= t.dip then t else Tuple(t.dip, t.sip, t.dp, t.sp, t.proto)
  }

  /** Whether a session's key is a tuple, from either end. */
  predicate Matches(key: Tuple, t: Tuple) {
    key == t ||
    (key.sip == t.dip && key.dip == t.sip && key.sp == t.dp && key.dp == t.sp && key.proto == t.proto)
  }

  /** Any hash of a sorted tuple, kept to a table of n buckets. */
  type Hash = Tuple -> nat

  function IndexOf(hash: Hash, n: nat, t: Tuple): (i: nat)
    requires n > 0
    ensures i < n
  {
    hash(Sort(t)) % n
  }

  /** Matching is being the same flow up to direction: an equivalence that sorting respects. */
  lemma MatchesIsEquivalence(a: Tuple, b: Tuple, c: Tuple)
    ensures Matches(a, a) && (Matches(a, b) <==> Matches(b, a))
    ensures Matches(a, b) && Matches(b, c) ==> Matches(a, c)
    ensures Matches(a, Sort(b)) <==> Matches(a, b)
    ensures Matches(a, b) <==> a == b || a == Reverse(b)
  {
  }

  /** When the two directions of a flow sort alike: the addresses differ, or the ports do not. */
  predicate Sortable(t: Tuple) {
    t.sip != t.dip || t.sp == t.dp
  }

  lemma SortsAlike(t: Tuple)
    ensures Sort(t) == Sort(Reverse(t)) <==> Sortable(t)
  {
  }

  /** Both directions go to one bucket whatever the hash exactly when they sort alike; otherwise
      some hash parts them, so the reply of such a flow opens a session of its own. */
  lemma BothDirectionsMeet(n: nat, t: Tuple)
    requires n > 1
    ensures (forall hash: Hash :: IndexOf(hash, n, t) == IndexOf(hash, n, Reverse(t))) <==> Sortable(t)
  {
    SortsAlike(t);
    if !Sortable(t) {
      var hash: Hash := x => if x == Sort(t) then 0 else 1;
      assert IndexOf(hash, n, t) == 0 % n == 0 && IndexOf(hash, n, Reverse(t)) == 1 % n == 1;
    }
  }

  /** Flows that match and whose addresses differ, or ports do not, go to one bucket. */
  lemma MatchingMeet(hash: Hash, n: nat, a: Tuple, b: Tuple)
    requires n > 0 && Matches(a, b) && Sortable(a)
    ensures IndexOf(hash, n, a) == IndexOf(hash, n, b)
  {
    SortsAlike(a);
  }
}
