/** The replacement rule of the per-session key backup upload, over whole histories of uploads. */
module Backup {
  import opened Sequences

  /** A field of the uploaded JSON: missing, of the expected type, or of another type; a number beyond
      `UINT_MAX` is malformed. */
  datatype Field<T> = Absent | Present(value: T) | Malformed

  datatype Session = Session(tag: nat, verified: Field<bool>, index: Field<nat>, forwarded: Field<nat>)

  /** The largest integer of Matrix JSON. */
  const UINT_MAX: nat := 0x1F_FFFF_FFFF_FFFF

  // -------------------------------------------------------------- the preference order

  /** Lower is better: verified first, then a low first message index, then few forwards; what is
      not there counts as worst. */
  datatype Rank = Rank(unverified: bool, index: nat, forwarded: nat)

  function Or(f: Field<nat>): nat {
    if f.Present? then f.value else UINT_MAX
  }

  function RankOf(s: Session): Rank {
    Rank(s.verified != Present(true), Or(s.index), Or(s.forwarded))
  }

  predicate Better(a: Rank, b: Rank) {
    || (!a.unverified && b.unverified)
    || (a.unverified == b.unverified
        && (a.index < b.index || (a.index == b.index && a.forwarded < b.forwarded)))
  }

  // ----------------------------------------------------------------------- one upload

  /** The fields the comparison looks at are there. */
  predicate Accepted(stored: Option<Session>, new': Session) {
    stored.None? || (
      && !stored.value.verified.Malformed? && new'.verified.Present?
      && ((stored.value.verified == Present(true)) == new'.verified.value ==>
            && !stored.value.index.Malformed? && new'.index.Present?
            && (Or(stored.value.index) == Or(new'.index) ==>
                  !stored.value.forwarded.Malformed? && new'.forwarded.Present?)))
  }

  /** The better key is kept, the stored one in case of a tie. */
  function Kept(stored: Option<Session>, new': Session): Option<Session> {
    if Accepted(stored, new') && (stored.None? || Better(RankOf(new'), RankOf(stored.value)))
    then Some(new') else stored
  }

  /** What becomes of the stored key when `new'` is uploaded, field by field: a verified key is preferred, then
      the lower index, then the lower count. */
  ghost predicate Replaces(ok: bool, key: Session, new': Session, stored: Option<Session>) {
    && (!new'.verified.Present? || key.verified.Malformed? ==> !ok)
    && (key.verified == Present(true) && new'.verified == Present(false) ==> ok && stored == Some(key))
    && (key.verified == Present(false) && new'.verified == Present(true) ==> ok && stored == Some(new'))
    && (key.verified == Absent && new'.verified == Present(true) ==> ok && stored == Some(new'))
    && (Alike(key, new') && (!new'.index.Present? || key.index.Malformed?) ==> !ok)
    && (Alike(key, new') && new'.index.Present? && !key.index.Malformed? ==> ReplacesAlike(ok, key, new', stored))
  }

  ghost predicate ReplacesAlike(ok: bool, key: Session, new': Session, stored: Option<Session>)
    requires new'.index.Present? && !key.index.Malformed?
  {
    var (i, j) := (if key.index.Absent? then 0x1F_FFFF_FFFF_FFFF else key.index.value, new'.index.value);
    && (j < i ==> ok && stored == Some(new'))
    && (j > i ==> ok && stored == Some(key))
    && (j == i && (!new'.forwarded.Present? || key.forwarded.Malformed?) ==> !ok)
    && (j == i && new'.forwarded.Present? && !key.forwarded.Malformed? ==>
          var count := if key.forwarded.Absent? then 0x1F_FFFF_FFFF_FFFF else key.forwarded.value;
          ok && stored == Some(if new'.forwarded.value < count then new' else key))
  }

  /** Both keys are verified, or neither is; a stored key without the field is not. */
  predicate Alike(key: Session, new': Session) {
    new'.verified.Present? && (key.verified == new'.verified || (key.verified.Absent? && !new'.verified.value))
  }

  class Store {
    var stored: Option<Session>

    constructor ()
      ensures stored == None
    {
      stored := None;
    }

    /** `add_backup_keys_for_session_route`; `latest` tells whether the named version is the latest. */
    method Add(latest: bool, new': Session) returns (ok: bool)
      modifies this
      ensures ok <==> latest && Accepted(old(stored), new')
      ensures stored == if ok then Kept(old(stored), new') else old(stored)
      ensures !ok ==> stored == old(stored)
      ensures latest && old(stored).None? ==> ok && stored == Some(new')
      ensures latest && old(stored).Some? ==> Replaces(ok, old(stored).value, new', stored)
    {
      if !latest {
        return false;
      }
      var okToReplace := true;
      if stored.Some? {
        var key := stored.value;
        if key.verified.Malformed? || !new'.verified.Present? {
          return false;
        }
        var oldVerified := if key.verified.Present? then key.verified.value else false;
        if oldVerified != new'.verified.value {
          if oldVerified {
            okToReplace := false;
          }
        } else {
          if key.index.Malformed? || !new'.index.Present? {
            return false;
          }
          var oldIndex := if key.index.Present? then key.index.value else UINT_MAX;
          if new'.index.value < oldIndex {
            okToReplace := true;
          } else if new'.index.value > oldIndex {
            okToReplace := false;
          } else {
            if key.forwarded.Malformed? || !new'.forwarded.Present? {
              return false;
            }
            var oldCount := if key.forwarded.Present? then key.forwarded.value else UINT_MAX;
            okToReplace := new'.forwarded.value < oldCount;
          }
        }
      }
      if okToReplace {
        stored := Some(new');
      }
      ok := true;
    }
  }

  // ---------------------------------------------------------------- whole histories

  /** The stored key after a sequence of uploads to one session. */
  function Final(uploads: seq<Session>): Option<Session> {
    if uploads == [] then None else Kept(Final(uploads[..|uploads| - 1]), uploads[|uploads| - 1])
  }

  predicate AcceptedAt(uploads: seq<Session>, i: nat)
    requires i < |uploads|
  {
    Accepted(Final(uploads[..i]), uploads[i])
  }

  /** Upload `i` was accepted, no accepted one is better, and the earlier ones are worse. */
  predicate BestOf(uploads: seq<Session>, i: nat)
    requires i < |uploads|
  {
    && AcceptedAt(uploads, i)
    && (forall j :: 0 <= j < |uploads| && AcceptedAt(uploads, j) ==> !Better(RankOf(uploads[j]), RankOf(uploads[i])))
    && (forall j :: 0 <= j < i && AcceptedAt(uploads, j) ==> Better(RankOf(uploads[i]), RankOf(uploads[j])))
  }

  /** A verified key stays: once one was accepted, the stored key is verified for good. */
  lemma {:induction false} VerifiedStays(uploads: seq<Session>, i: nat)
    requires i < |uploads| && AcceptedAt(uploads, i) && uploads[i].verified == Present(true)
    ensures Final(uploads).Some? && Final(uploads).value.verified == Present(true)
    decreases |uploads|
  {
    var init := uploads[..|uploads| - 1];
    if i < |uploads| - 1 {
      assert init[..i] == uploads[..i];
      VerifiedStays(init, i);
    } else {
      assert init == uploads[..i];
    }
  }

  lemma SameBefore(uploads: seq<Session>, n: nat, i: nat)
    requires i < n <= |uploads|
    ensures AcceptedAt(uploads[..n], i) <==> AcceptedAt(uploads, i)
  {
    assert uploads[..n][..i] == uploads[..i];
  }

  /** The stored key is the best accepted upload, and the earliest among equals. */
  lemma {:induction false} BestKeyKept(uploads: seq<Session>) returns (i: nat)
    requires uploads != []
    ensures i < |uploads| && BestOf(uploads, i) && Final(uploads) == Some(uploads[i])
    decreases |uploads|
  {
    var n := |uploads| - 1;
    var init := uploads[..n];
    if n == 0 {
      assert Final(init) == None;
      i := 0;
    } else {
      i := BestKeyKept(init);
      forall j | 0 <= j < n
        ensures AcceptedAt(init, j) <==> AcceptedAt(uploads, j)
      {
        SameBefore(uploads, n, j);
      }
      ChooseBest(uploads, i);
      if AcceptedAt(uploads, n) && Better(RankOf(uploads[n]), RankOf(uploads[i])) {
        i := n;
      }
    }
  }

  /** Among the accepted uploads that are verified as the stored key is, none has a lower index. */
  lemma LowestIndexKept(uploads: seq<Session>, j: nat)
    requires j < |uploads| && AcceptedAt(uploads, j) && uploads[j].index.Present?
    ensures Final(uploads).Some?
    ensures var last := Final(uploads).value;
            last.verified == uploads[j].verified && last.index.Present? ==> last.index.value <= uploads[j].index.value
  {
    var i := BestKeyKept(uploads);
  }

  lemma ChooseBest(uploads: seq<Session>, i: nat)
    requires i < |uploads| - 1
    requires forall j :: 0 <= j < |uploads| - 1 ==> (AcceptedAt(uploads[..|uploads| - 1], j) <==> AcceptedAt(uploads, j))
    requires BestOf(uploads[..|uploads| - 1], i)
    ensures var n := |uploads| - 1;
            BestOf(uploads, if AcceptedAt(uploads, n) && Better(RankOf(uploads[n]), RankOf(uploads[i])) then n else i)
  {
    hide AcceptedAt, RankOf;
    var n := |uploads| - 1;
    var init := uploads[..n];
    assert forall j :: 0 <= j < n ==> init[j] == uploads[j];
    if AcceptedAt(uploads, n) && Better(RankOf(uploads[n]), RankOf(uploads[i])) {
      forall j | 0 <= j < n && AcceptedAt(uploads, j)
        ensures Better(RankOf(uploads[n]), RankOf(uploads[j]))
      {
        assert !Better(RankOf(init[j]), RankOf(init[i]));
      }
    }
  }

  // ------------------------------------------------------------- order of the uploads

  /** No upload has a better rank than `p`. */
  predicate IsBest(u: seq<Session>, p: Session) {
    forall s :: s in u ==> !Better(RankOf(s), RankOf(p))
  }

  /** Over the stored key `s` the upload `p` is refused for a missing field. */
  predicate Blocks(s: Session, p: Session) {
    !Accepted(Some(s), p)
  }

  /** Blocking is a matter of degree: of two stored keys that block two equally good uploads, one
      blocks both. */
  lemma BlockingIsNested(s: Session, t: Session, p: Session, q: Session)
    requires RankOf(p) == RankOf(q) && Blocks(s, p) && Blocks(t, q)
    ensures Blocks(s, q) || Blocks(t, p)
  {
  }

  /** Every upload of the best rank `r` among `v` is blocked by `s`. */
  predicate BlocksAll(s: Session, v: seq<Session>, r: Rank) {
    forall p :: p in v && RankOf(p) == r ==> Blocks(s, p)
  }

  lemma {:induction false} FinalIsUpload(v: seq<Session>)
    ensures Final(v).Some? ==> Final(v).value in v
    ensures v != [] ==> Final(v).Some?
  {
    if v != [] {
      var i := BestKeyKept(v);
    }
  }

  /** If no upload of rank `r` was ever accepted, one stored key blocks them all. */
  lemma {:induction false} OneBlocker(v: seq<Session>, r: Rank) returns (s: Session)
    requires v != [] && forall i :: 0 <= i < |v| && AcceptedAt(v, i) ==> RankOf(v[i]) != r
    ensures s in v && RankOf(s) != r && BlocksAll(s, v, r)
    decreases |v|
  {
    var n := |v| - 1;
    var init := v[..n];
    if n == 0 {
      assert v[..0] == [] && AcceptedAt(v, 0);
      s := v[0];
    } else {
      forall i | 0 <= i < n && AcceptedAt(init, i)
        ensures RankOf(init[i]) != r
      {
        SameBefore(v, n, i);
      }
      s := OneBlocker(init, r);
      if RankOf(v[n]) == r && !Blocks(s, v[n]) {
        var c := StoredNotBest(v, r);
        forall p | p in v && RankOf(p) == r
          ensures Blocks(c, p)
        {
          if p != v[n] {
            assert p in init;
            BlockingIsNested(s, c, p, v[n]);
          }
        }
        s := c;
      }
    }
  }

  /** The key that is stored when the last upload is refused. */
  lemma StoredNotBest(v: seq<Session>, r: Rank) returns (c: Session)
    requires |v| > 1 && !AcceptedAt(v, |v| - 1)
    requires forall i :: 0 <= i < |v| && AcceptedAt(v, i) ==> RankOf(v[i]) != r
    ensures c in v && RankOf(c) != r && Blocks(c, v[|v| - 1])
  {
    var n := |v| - 1;
    var i := BestKeyKept(v[..n]);
    SameBefore(v, n, i);
    c := v[i];
  }

  /** If every worse upload leaves some best one acceptable, every order ends with the best rank. */
  lemma BestRankRemains(u: seq<Session>, p: Session, v: seq<Session>)
    requires p in u && IsBest(u, p) && multiset(v) == multiset(u)
    requires forall s :: s in u && RankOf(s) != RankOf(p) ==> !BlocksAll(s, u, RankOf(p))
    ensures Final(v).Some? && RankOf(Final(v).value) == RankOf(p)
  {
    SameMembers(u, v);
    var i := BestKeyKept(v);
    if RankOf(v[i]) != RankOf(p) {
      forall j | 0 <= j < |v| && AcceptedAt(v, j)
        ensures RankOf(v[j]) != RankOf(p)
      {
        Trichotomy(RankOf(p), RankOf(v[i]));
        assert v[i] in v;
      }
      var s := OneBlocker(v, RankOf(p));
      assert BlocksAll(s, u, RankOf(p));
    }
  }

  lemma Trichotomy(a: Rank, b: Rank)
    ensures a == b || Better(a, b) || Better(b, a)
  {
  }

  lemma SameMembers(u: seq<Session>, v: seq<Session>)
    requires multiset(u) == multiset(v)
    ensures forall s :: s in u <==> s in v
    ensures u != [] ==> v != []
  {
    forall s
      ensures s in u <==> s in v
    {
      assert s in multiset(u) <==> s in multiset(v);
    }
    if u != [] {
      assert u[0] in v;
    }
  }

  // ------------------------------------------------------- an order that loses the best key

  /** The uploads of rank `r`, and the others. */
  function OfRank(u: seq<Session>, r: Rank): (v: seq<Session>)
    ensures forall s :: s in v <==> s in u && RankOf(s) == r
  {
    if u == [] then [] else (if RankOf(u[0]) == r then [u[0]] else []) + OfRank(u[1..], r)
  }

  function NotOfRank(u: seq<Session>, r: Rank): (v: seq<Session>)
    ensures forall s :: s in v <==> s in u && RankOf(s) != r
  {
    if u == [] then [] else (if RankOf(u[0]) == r then [] else [u[0]]) + NotOfRank(u[1..], r)
  }

  lemma {:induction false} Partition(u: seq<Session>, r: Rank)
    ensures multiset(OfRank(u, r) + NotOfRank(u, r)) == multiset(u)
  {
    if u != [] {
      Partition(u[1..], r);
      assert u == [u[0]] + u[1..];
      var (a, b) := (OfRank(u[1..], r), NotOfRank(u[1..], r));
      assert multiset(a + b) == multiset(a) + multiset(b);
    }
  }

  /** The blocker first, then the best uploads, then the rest. */
  function LosingOrder(u: seq<Session>, a: nat, r: Rank): seq<Session>
    requires a < |u|
  {
    var rest := u[..a] + u[a + 1..];
    [u[a]] + OfRank(rest, r) + NotOfRank(rest, r)
  }

  lemma TakenOut(u: seq<Session>, a: nat)
    requires a < |u|
    ensures multiset(u) == multiset{u[a]} + multiset(u[..a] + u[a + 1..])
  {
    assert u == u[..a] + ([u[a]] + u[a + 1..]);
  }

  lemma PutFirst(x: Session, v: seq<Session>, w: seq<Session>)
    requires multiset(v) == multiset(w)
    ensures multiset([x] + v) == multiset{x} + multiset(w)
  {
  }

  lemma LosingOrderIsOrder(u: seq<Session>, a: nat, r: Rank)
    requires a < |u|
    ensures multiset(LosingOrder(u, a, r)) == multiset(u)
  {
    hide OfRank, NotOfRank, RankOf;
    var rest := u[..a] + u[a + 1..];
    assert multiset(u) == multiset{u[a]} + multiset(rest) by { TakenOut(u, a); }
    assert multiset(OfRank(rest, r) + NotOfRank(rest, r)) == multiset(rest) by { Partition(rest, r); }
    PutFirst(u[a], OfRank(rest, r) + NotOfRank(rest, r), rest);
    assert LosingOrder(u, a, r) == [u[a]] + (OfRank(rest, r) + NotOfRank(rest, r));
  }

  lemma {:induction false} BlockedRun(s: Session, best: seq<Session>)
    requires forall p :: p in best ==> Blocks(s, p)
    ensures Final([s] + best) == Some(s)
    decreases |best|
  {
    if best == [] {
      assert [s] + best == [s] && [s][..0] == [];
      assert Final([s][..0]) == None;
    } else {
      var init, last := best[..|best| - 1], best[|best| - 1];
      BlockedRun(s, init);
      var v := [s] + best;
      assert v[..|v| - 1] == [s] + init && v[|v| - 1] == last && last in best;
    }
  }

  /** In this order no upload of rank `r` is ever accepted. */
  lemma LosingOrderLoses(u: seq<Session>, a: nat, r: Rank)
    requires a < |u| && RankOf(u[a]) != r && BlocksAll(u[a], u, r)
    ensures Final(LosingOrder(u, a, r)).Some? && RankOf(Final(LosingOrder(u, a, r)).value) != r
  {
    var v := LosingOrder(u, a, r);
    var rest := u[..a] + u[a + 1..];
    var (best, worse) := (OfRank(rest, r), NotOfRank(rest, r));
    assert forall p :: p in rest ==> p in u;
    assert forall p :: p in best ==> Blocks(u[a], p);
    assert forall p :: p in worse ==> RankOf(p) != r;
    hide OfRank, NotOfRank;
    var i := BestKeyKept(v);
    assert v == [u[a]] + best + worse;
    if RankOf(v[i]) == r {
      RefusedInRun(u[a], best, worse, i);
      assert false;
    }
  }

  /** Behind the blocker, an upload of the run of blocked ones is refused. */
  lemma RefusedInRun(s: Session, best: seq<Session>, worse: seq<Session>, i: nat)
    requires 0 < i < 1 + |best| + |worse| && (forall p :: p in best ==> Blocks(s, p))
    ensures var v := [s] + best + worse;
            i <= |best| ==> !AcceptedAt(v, i)
    ensures var v := [s] + best + worse;
            i > |best| ==> v[i] in worse
  {
    var v := [s] + best + worse;
    if i <= |best| {
      assert v[i] == best[i - 1] && v[..i] == [s] + best[..i - 1] && best[i - 1] in best;
      BlockedRun(s, best[..i - 1]);
    } else {
      assert v[i] == worse[i - 1 - |best|];
    }
  }

  /** All orders of the uploads end with the same rank if and only if every upload of a worse rank
      leaves some upload of the best rank acceptable. */
  lemma OrderIrrelevantExactly(u: seq<Session>, p: Session)
    requires p in u && IsBest(u, p)
    ensures (forall v :: multiset(v) == multiset(u) ==>
               Final(v).Some? && Final(u).Some? && RankOf(Final(v).value) == RankOf(Final(u).value))
       <==> (forall s :: s in u && RankOf(s) != RankOf(p) ==>
               exists q :: q in u && RankOf(q) == RankOf(p) && Accepted(Some(s), q))
  {
    var r := RankOf(p);
    assert forall s :: BlocksAll(s, u, r) <==> !exists q :: q in u && RankOf(q) == r && Accepted(Some(s), q);
    if forall s :: s in u && RankOf(s) != r ==> !BlocksAll(s, u, r) {
      forall v | multiset(v) == multiset(u)
        ensures Final(v).Some? && RankOf(Final(v).value) == r
      {
        BestRankRemains(u, p, v);
      }
      BestRankRemains(u, p, u);
    } else {
      var s :| s in u && RankOf(s) != r && BlocksAll(s, u, r);
      var a :| 0 <= a < |u| && u[a] == s;
      var bad := LosingOrder(u, a, r);
      LosingOrderIsOrder(u, a, r);
      LosingOrderLoses(u, a, r);
      var good := BestFirst(u, p);
      assert RankOf(Final(bad).value) != RankOf(Final(good).value);
    }
  }

  /** With a best upload in front the best rank is stored from the start. */
  lemma BestFirst(u: seq<Session>, p: Session) returns (v: seq<Session>)
    requires p in u && IsBest(u, p)
    ensures multiset(v) == multiset(u) && Final(v).Some? && RankOf(Final(v).value) == RankOf(p)
  {
    var a :| 0 <= a < |u| && u[a] == p;
    var rest := u[..a] + u[a + 1..];
    TakenOut(u, a);
    v := [p] + rest;
    PutFirst(p, rest, rest);
    SameMembers(u, v);
    var i := BestKeyKept(v);
    assert v[..0] == [] && AcceptedAt(v, 0);
    Trichotomy(RankOf(p), RankOf(v[i]));
    assert v[i] in v;
  }

  predicate Populated(s: Session) {
    s.verified.Present? && s.index.Present? && s.forwarded.Present?
  }

  /** In particular the order does not matter for fully populated keys. */
  lemma OrderIrrelevant(u: seq<Session>, v: seq<Session>)
    requires u != [] && multiset(u) == multiset(v) && forall s :: s in u ==> Populated(s)
    ensures Final(u).Some? && Final(v).Some? && RankOf(Final(u).value) == RankOf(Final(v).value)
  {
    forall i | 0 <= i < |u|
      ensures AcceptedAt(u, i)
    {
      FinalIsUpload(u[..i]);
      assert u[i] in u && forall s :: s in u[..i] ==> s in u;
    }
    var i := BestKeyKept(u);
    assert IsBest(u, u[i]);
    OrderIrrelevantExactly(u, u[i]);
    assert Accepted(None, u[i]);
    assert forall s :: s in u ==> Accepted(Some(s), u[i]);
  }

  /** With missing fields the order can matter: only the first upload may lack `is_verified`. */
  lemma OrderMattersIfIncomplete()
    ensures var a, b := Session(1, Absent, Present(0), Present(0)), Session(2, Present(false), Present(5), Present(0));
            Final([a, b]) == Some(a) && Final([b, a]) == Some(b) && Better(RankOf(a), RankOf(b))
  {
    var a, b := Session(1, Absent, Present(0), Present(0)), Session(2, Present(false), Present(5), Present(0));
    assert [a, b][..1] == [a] && [b, a][..1] == [b] && [a][..0] == [] && [b][..0] == [];
    assert Final([a][..0]) == None && Final([b][..0]) == None;
    assert Final([a]) == Some(a) && Final([b]) == Some(b);
  }
}
