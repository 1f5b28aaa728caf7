/** The validator directory: a fixed, canonically ordered validator set, an
    index for each validator, and the round-robin leader schedule. */
module Supervisor {
  import opened Bytes
  import opened Wrappers
  import opened Blocks
  import Lex

  /** `identity` is the group public polynomial, kept but never consulted
      by the queries; `participantsMap` maps a key to its index. */
  datatype Supervisor = Supervisor(
    identity: Bytes,
    participants: seq<PublicKey>,
    participantsMap: map<PublicKey, uint32>)

  /** No key occurs twice. */
  ghost predicate Distinct(ps: seq<PublicKey>) {
    forall i, j :: 0 <= i < j < |ps| ==> ps[i] != ps[j]
  }

  /** Position `i` holds the last occurrence of its key. */
  ghost predicate LastOccurrence(ps: seq<PublicKey>, i: nat) {
    forall j :: i < j < |ps| ==> ps[j] != ps[i]
  }

  /** `m` is what inserting `(ps[i], i as u32)` for every `i` in order
      leaves: exactly the keys of `ps`, each mapped to its last position. */
  ghost predicate IndexesLastOccurrences(ps: seq<PublicKey>, m: map<PublicKey, uint32>) {
    && (forall p :: p in m <==> p in ps)
    && (forall i :: 0 <= i < |ps| && LastOccurrence(ps, i) ==> ps[i] in m && m[ps[i]] == AsU32(i))
  }

  /** What `Supervisor::new` establishes and nothing later changes. */
  ghost predicate Valid(s: Supervisor) {
    Lex.Sorted(s.participants) && IndexesLastOccurrences(s.participants, s.participantsMap)
  }

  /** `Supervisor::new`: sorts the participants, then records the index of
      each. */
  method New(identity: Bytes, participants: seq<PublicKey>) returns (s: Supervisor)
    ensures Valid(s)
    ensures multiset(s.participants) == multiset(participants)
    ensures s.identity == identity
  {
    var sorted := Lex.Sort(participants);
    var m: map<PublicKey, uint32> := map[];
    var i := 0;
    while i < |sorted|
      invariant 0 <= i <= |sorted|
      invariant IndexesLastOccurrences(sorted[..i], m)
    {
      IndexStep(sorted, i, m);
      m := m[sorted[i] := AsU32(i)];
      i := i + 1;
    }
    assert sorted[..|sorted|] == sorted;
    s := Supervisor(identity, sorted, m);
  }

  /** One turn of the indexing loop: recording `(ps[i], i)` extends the
      index from the first `i` keys to the first `i + 1`. */
  lemma IndexStep(ps: seq<PublicKey>, i: nat, m: map<PublicKey, uint32>)
    requires i < |ps| && IndexesLastOccurrences(ps[..i], m)
    ensures IndexesLastOccurrences(ps[..i + 1], m[ps[i] := AsU32(i)])
  {
    var before, after := ps[..i], ps[..i + 1];
    var m' := m[ps[i] := AsU32(i)];
    assert after == before + [ps[i]];
    forall p
      ensures p in m' <==> p in after
    {
      assert p in after <==> p in before || p == ps[i];
    }
    forall j | 0 <= j < |after| && LastOccurrence(after, j)
      ensures after[j] in m' && m'[after[j]] == AsU32(j)
    {
      if j < i {
        assert after[j] == before[j];
        assert after[i] != after[j];
        assert LastOccurrence(before, j) by {
          forall l | j < l < |before|
            ensures before[l] != before[j]
          {
            assert before[l] == after[l];
          }
        }
      }
    }
  }

  /** Every key of `ps` has a last occurrence. */
  lemma {:induction false} LastOccurrenceExists(ps: seq<PublicKey>, p: PublicKey)
    requires p in ps
    ensures exists i :: 0 <= i < |ps| && ps[i] == p && LastOccurrence(ps, i)
  {
    var n := |ps| - 1;
    if ps[n] != p {
      var init := ps[..n];
      assert p in init by {
        var k :| 0 <= k < |ps| && ps[k] == p;
        assert init[k] == p;
      }
      LastOccurrenceExists(init, p);
      var i :| 0 <= i < |init| && init[i] == p && LastOccurrence(init, i);
      assert ps[i] == p && LastOccurrence(ps, i);
    } else {
      assert LastOccurrence(ps, n);
    }
  }

  /** `participants(view)`: the whole set, whatever the view. */
  function Participants(s: Supervisor, view: View): (r: seq<PublicKey>)
    ensures |r| == |s.participants|
    ensures forall p :: p in r <==> p in s.participants
    ensures multiset(r) == multiset(s.participants)
    ensures Valid(s) ==> Lex.Sorted(r)
  {
    s.participants
  }

  /** `is_participant(view, candidate)`: the candidate's index, if it is a
      validator, whatever the view. */
  function IsParticipant(s: Supervisor, view: View, candidate: PublicKey): (r: Option<uint32>)
    requires Valid(s)
    ensures r.Some? <==> candidate in s.participants
    ensures r.Some? && |s.participants| <= U32_MODULUS ==>
              r.value < |s.participants| && s.participants[r.value] == candidate
  {
    if candidate in s.participantsMap then
      var ps := s.participants;
      LastOccurrenceExists(ps, candidate);
      Some(s.participantsMap[candidate])
    else
      None
  }

  /** Against a duplicate-free set the index lookup is exact: a key has
      index `i` exactly when it sits at position `i`. */
  lemma IsParticipantExact(s: Supervisor, view: View, p: PublicKey, i: nat)
    requires Valid(s) && Distinct(s.participants) && |s.participants| <= U32_MODULUS
    ensures IsParticipant(s, view, p) == Some(i) <==> i < |s.participants| && s.participants[i] == p
  {
    if i < |s.participants| && s.participants[i] == p {
      assert LastOccurrence(s.participants, i);
    }
  }

  /** The membership queries give the same answers at every view. */
  lemma QueriesIgnoreView(s: Supervisor, v1: View, v2: View, p: PublicKey)
    requires Valid(s)
    ensures Participants(s, v1) == Participants(s, v2)
    ensures IsParticipant(s, v1, p) == IsParticipant(s, v2, p)
  {
  }

  /** `leader(view)`: round-robin over the sorted set. The set must be
      non-empty (the validator binary refuses to start without one). */
  function Leader(s: Supervisor, view: View): (r: PublicKey)
    requires |s.participants| > 0
    ensures r in s.participants
  {
    s.participants[view % |s.participants|]
  }

  /** The leader of every view passes the membership query. */
  lemma LeaderIsParticipant(s: Supervisor, view: View)
    requires Valid(s) && |s.participants| > 0
    ensures IsParticipant(s, view, Leader(s, view)).Some?
  {
  }

  /** The schedule repeats with period `n`. */
  lemma LeaderPeriodic(s: Supervisor, view: View)
    requires |s.participants| > 0
    requires view + |s.participants| < U64_MODULUS
    ensures Leader(s, view + |s.participants|) == Leader(s, view)
  {
    var n := |s.participants|;
    ModAddPeriod(view, n);
  }

  lemma ModAddPeriod(a: nat, n: nat)
    requires n > 0
    ensures (a + n) % n == a % n
  {
    ModUnique(a + n, n, a / n + 1, a % n);
  }

  /** Euclidean division has one remainder. */
  lemma ModUnique(x: int, n: int, q: int, r: int)
    requires n > 0 && 0 <= r < n && x == q * n + r
    ensures x % n == r
  {
    var k := q - x / n;
    assert x == n * (x / n) + x % n;
    assert k * n == x % n - r;
    MultipleBounds(k, n);
  }

  /** A non-zero multiple of `n` is at least `n` away from zero. */
  lemma MultipleBounds(k: int, n: int)
    requires n > 0
    ensures k > 0 ==> k * n >= n
    ensures k < 0 ==> k * n <= -n
  {
    if k > 0 {
      assert (k - 1) * n >= 0;
    } else if k < 0 {
      assert (-k - 1) * n >= 0;
    }
  }

  /** With distinct validators, `p` leads view `v` exactly when its index
      is `v mod n`: the schedule visits every validator once per `n` views. */
  lemma LeaderByIndex(s: Supervisor, view: View, p: PublicKey)
    requires Valid(s) && Distinct(s.participants)
    requires 0 < |s.participants| <= U32_MODULUS
    ensures Leader(s, view) == p <==> IsParticipant(s, view, p) == Some(view % |s.participants|)
  {
    IsParticipantExact(s, view, p, view % |s.participants|);
  }

  /** Two supervisors built from the same validators, listed in any order,
      hold the same sorted set and index map, so every process derives the
      same leader schedule on its own. */
  lemma SameSetSameSchedule(s1: Supervisor, s2: Supervisor)
    requires Valid(s1) && Valid(s2)
    requires multiset(s1.participants) == multiset(s2.participants)
    ensures s1.participants == s2.participants
    ensures s1.participantsMap == s2.participantsMap
  {
    Lex.SortedPermutationUnique(s1.participants, s2.participants);
    var ps := s1.participants;
    forall p | p in s1.participantsMap
      ensures p in s2.participantsMap && s1.participantsMap[p] == s2.participantsMap[p]
    {
      LastOccurrenceExists(ps, p);
    }
  }
}
