/** The schema version and the marker set that drive the startup migrations. */
module Migrations {

  datatype Marker =
    | Sha256Media
    | DoubleSeparator
    | RetroactiveJoined
    | ReferencedEvents
    | ReceiptDuplicates
    | CorruptFields
    | LeftState
    | LocalInvites

  const ALL: set<Marker> := {Sha256Media, DoubleSeparator, RetroactiveJoined, ReferencedEvents,
                             ReceiptDuplicates, CorruptFields, LeftState, LocalInvites}

  const DATABASE_VERSION: nat := 18

  /** A unit of work that may run at startup. */
  datatype Work = Upgrade(to: nat) | Fix(marker: Marker) | MediaCheck

  /** How a unit of work ends; it can fail before or after it has recorded its success. */
  datatype Outcome = Done | FailsBefore | FailsAfter

  /** Fixes that run again on every database below version 17. */
  predicate Repeats(m: Marker) {
    m.ReferencedEvents? || m.ReceiptDuplicates?
  }

  /** Whether a run on a database at this version with these markers has to do `w`. */
  predicate Needs(version: nat, markers: set<Marker>, mediaCheck: bool, w: Work) {
    match w
    case Upgrade(to) => (to == 12 || to == 13) && version < to
    case Fix(m) => m !in markers || (Repeats(m) && version < 17)
    case MediaCheck => mediaCheck && Sha256Media in markers
  }

  // ----------------------------------------------------------------- the order of the work

  function One(needed: bool, w: Work): seq<Work> {
    if needed then [w] else []
  }

  function VersionPlan(version: nat, markers: set<Marker>, mediaCheck: bool): seq<Work> {
    One(version < 12, Upgrade(12)) + One(version < 13, Upgrade(13)) + MediaPlan(markers, mediaCheck)
  }

  function MediaPlan(markers: set<Marker>, mediaCheck: bool): seq<Work> {
    if Sha256Media !in markers then [Fix(Sha256Media)] else One(mediaCheck, MediaCheck)
  }

  function MemberPlan(markers: set<Marker>): seq<Work> {
    One(DoubleSeparator !in markers, Fix(DoubleSeparator)) + One(RetroactiveJoined !in markers, Fix(RetroactiveJoined))
  }

  function TablePlan(version: nat, markers: set<Marker>): seq<Work> {
    One(ReferencedEvents !in markers || version < 17, Fix(ReferencedEvents)) +
    One(ReceiptDuplicates !in markers || version < 17, Fix(ReceiptDuplicates))
  }

  function LastPlan(markers: set<Marker>): seq<Work> {
    One(CorruptFields !in markers, Fix(CorruptFields)) + One(LeftState !in markers, Fix(LeftState)) +
    One(LocalInvites !in markers, Fix(LocalInvites))
  }

  /** The work of a run, in the order in which it has to be done. */
  function Plan(version: nat, markers: set<Marker>, mediaCheck: bool): seq<Work> {
    VersionPlan(version, markers, mediaCheck) + (MemberPlan(markers) + (TablePlan(version, markers) + LastPlan(markers)))
  }

  /** The part of the plan that is done: up to and with the first unit that fails. */
  function Upto(plan: seq<Work>, o: Work -> Outcome): seq<Work> {
    if plan == [] then [] else [plan[0]] + (if o(plan[0]).Done? then Upto(plan[1..], o) else [])
  }

  predicate AllDone(plan: seq<Work>, o: Work -> Outcome) {
    plan == [] || (o(plan[0]).Done? && AllDone(plan[1..], o))
  }

  lemma UptoCons(w: Work, rest: seq<Work>, o: Work -> Outcome)
    ensures Upto([w] + rest, o) == [w] + (if o(w).Done? then Upto(rest, o) else [])
    ensures AllDone([w] + rest, o) <==> o(w).Done? && AllDone(rest, o)
  {
    assert ([w] + rest)[1..] == rest;
  }

  lemma UptoNone(o: Work -> Outcome)
    ensures Upto([], o) == [] && AllDone([], o)
  {
  }

  lemma {:induction false} UptoConcat(a: seq<Work>, b: seq<Work>, o: Work -> Outcome)
    ensures Upto(a + b, o) == if AllDone(a, o) then a + Upto(b, o) else Upto(a, o)
    ensures AllDone(a, o) ==> Upto(a, o) == a
    ensures AllDone(a + b, o) <==> AllDone(a, o) && AllDone(b, o)
  {
    hide Upto, AllDone;
    if a == [] {
      assert a + b == b;
      UptoNone(o);
    } else {
      var (w, rest) := (a[0], a[1..]);
      assert a == [w] + rest && a + b == [w] + (rest + b);
      UptoCons(w, rest, o);
      UptoCons(w, rest + b, o);
      UptoConcat(rest, b, o);
      assert [w] + (rest + Upto(b, o)) == ([w] + rest) + Upto(b, o);
    }
  }

  lemma UptoOne(needed: bool, w: Work, o: Work -> Outcome)
    ensures Upto(One(needed, w), o) == One(needed, w) && (AllDone(One(needed, w), o) <==> !needed || o(w).Done?)
  {
    assert [w][1..] == [];
  }

  /** Up to three units after each other. */
  lemma Triple(a: bool, u: Work, b: bool, v: Work, c: bool, w: Work, o: Work -> Outcome)
    ensures var plan := One(a, u) + One(b, v) + One(c, w);
            && (AllDone(plan, o) <==> (a ==> o(u).Done?) && (b ==> o(v).Done?) && (c ==> o(w).Done?))
            && Upto(plan, o) == One(a, u) + (if a && !o(u).Done? then [] else
                                  One(b, v) + (if b && !o(v).Done? then [] else One(c, w)))
  {
    UptoOne(a, u, o);
    UptoOne(b, v, o);
    UptoOne(c, w, o);
    UptoConcat(One(a, u) + One(b, v), One(c, w), o);
    UptoConcat(One(a, u), One(b, v), o);
    hide Upto, AllDone;
    assert (One(a, u) + One(b, v)) + One(c, w) == One(a, u) + (One(b, v) + One(c, w));
  }

  lemma Pair(a: bool, u: Work, b: bool, v: Work, o: Work -> Outcome)
    ensures var plan := One(a, u) + One(b, v);
            && (AllDone(plan, o) <==> (a ==> o(u).Done?) && (b ==> o(v).Done?))
            && Upto(plan, o) == One(a, u) + (if a && !o(u).Done? then [] else One(b, v))
  {
    UptoOne(a, u, o);
    UptoOne(b, v, o);
    UptoConcat(One(a, u), One(b, v), o);
  }

  lemma UptoMedia(markers: set<Marker>, mediaCheck: bool, o: Work -> Outcome)
    ensures Upto(MediaPlan(markers, mediaCheck), o) == MediaPlan(markers, mediaCheck)
  {
    UptoOne(true, Fix(Sha256Media), o);
    UptoOne(mediaCheck, MediaCheck, o);
  }

  /** How far a run gets in four parts. */
  lemma Stages(a: seq<Work>, b: seq<Work>, c: seq<Work>, d: seq<Work>, o: Work -> Outcome)
    ensures var plan := a + (b + (c + d));
            && (AllDone(plan, o) <==> AllDone(a, o) && AllDone(b, o) && AllDone(c, o) && AllDone(d, o))
            && (AllDone(a, o) ==> Upto(a, o) == a) && (AllDone(b, o) ==> Upto(b, o) == b) && (AllDone(c, o) ==> Upto(c, o) == c)
            && Upto(plan, o) == (if !AllDone(a, o) then Upto(a, o)
                                 else if !AllDone(b, o) then a + Upto(b, o)
                                 else if !AllDone(c, o) then a + b + Upto(c, o)
                                 else a + b + c + Upto(d, o))
  {
    hide Upto, AllDone;
    UptoConcat(a, b + (c + d), o);
    UptoConcat(b, c + d, o);
    UptoConcat(c, d, o);
    assert a + (b + Upto(c, o)) == a + b + Upto(c, o);
    assert a + (b + (c + Upto(d, o))) == a + b + c + Upto(d, o);
  }

  lemma VersionStages(v: nat, ms: set<Marker>, mediaCheck: bool, o: Work -> Outcome)
    ensures var (a, b, media) := (One(v < 12, Upgrade(12)), One(v < 13, Upgrade(13)), MediaPlan(ms, mediaCheck));
            var plan := VersionPlan(v, ms, mediaCheck);
            && Upto(plan, o) == (if v < 12 && !o(Upgrade(12)).Done? then a
                                 else if v < 13 && !o(Upgrade(13)).Done? then a + b else a + b + media)
            && (AllDone(plan, o) <==> (v < 12 ==> o(Upgrade(12)).Done?) && (v < 13 ==> o(Upgrade(13)).Done?) && AllDone(media, o))
  {
    hide Upto, AllDone, One, MediaPlan;
    var (a, b, media) := (One(v < 12, Upgrade(12)), One(v < 13, Upgrade(13)), MediaPlan(ms, mediaCheck));
    UptoOne(v < 12, Upgrade(12), o);
    UptoOne(v < 13, Upgrade(13), o);
    UptoMedia(ms, mediaCheck, o);
    UptoConcat(a + b, media, o);
    UptoConcat(a, b, o);
  }

  lemma PlanMembers(version: nat, markers: set<Marker>, mediaCheck: bool, w: Work)
    ensures w in VersionPlan(version, markers, mediaCheck) <==>
              || (w == Upgrade(12) && version < 12) || (w == Upgrade(13) && version < 13)
              || (w == Fix(Sha256Media) && Sha256Media !in markers)
              || (w == MediaCheck && mediaCheck && Sha256Media in markers)
    ensures w in MemberPlan(markers) <==> w.Fix? && w.marker !in markers && (w.marker.DoubleSeparator? || w.marker.RetroactiveJoined?)
    ensures w in TablePlan(version, markers) <==> w.Fix? && Repeats(w.marker) && (w.marker !in markers || version < 17)
    ensures w in LastPlan(markers) <==>
              w.Fix? && w.marker !in markers && (w.marker.CorruptFields? || w.marker.LeftState? || w.marker.LocalInvites?)
  {
  }

  /** The plan holds exactly the work that is needed. */
  lemma PlanIsNeed(version: nat, markers: set<Marker>, mediaCheck: bool, w: Work)
    ensures w in Plan(version, markers, mediaCheck) <==> Needs(version, markers, mediaCheck, w)
  {
    PlanMembers(version, markers, mediaCheck, w);
    hide VersionPlan, MemberPlan, TablePlan, LastPlan;
  }

  /** On the oldest supported database, without a marker, everything is done, in this order. */
  lemma OldestPlan(mediaCheck: bool)
    ensures Plan(11, {}, mediaCheck)
         == [Upgrade(12), Upgrade(13), Fix(Sha256Media), Fix(DoubleSeparator), Fix(RetroactiveJoined), Fix(ReferencedEvents),
             Fix(ReceiptDuplicates), Fix(CorruptFields), Fix(LeftState), Fix(LocalInvites)]
  {
  }

  lemma {:induction false} UptoMembers(plan: seq<Work>, o: Work -> Outcome)
    ensures forall w :: w in Upto(plan, o) ==> w in plan
    ensures AllDone(plan, o) <==> forall w :: w in plan ==> o(w).Done?
    ensures AllDone(plan, o) <==> forall w :: w in Upto(plan, o) ==> o(w).Done?
  {
    if plan != [] {
      UptoMembers(plan[1..], o);
      assert forall w :: w in plan <==> w == plan[0] || w in plan[1..];
    }
  }

  class Database {
    var version: nat
    var markers: set<Marker>
    /** The work of the current run, in order. */
    ghost var ran: seq<Work>

    constructor (version: nat, markers: set<Marker>)
      ensures this.version == version && this.markers == markers && ran == []
    {
      this.version, this.markers, ran := version, markers, [];
    }

    predicate Complete()
      reads this
    {
      version == DATABASE_VERSION && markers == ALL
    }

    /** `db_lt_12` and `db_lt_13`: the body, then the bump. */
    method UpgradeTo(to: nat, o: Outcome) returns (ok: bool)
      modifies this
      ensures version == (if old(version) < to && !o.FailsBefore? then to else old(version)) && markers == old(markers)
      ensures ran == old(ran) + One(old(version) < to, Upgrade(to))
      ensures ok <==> old(version) >= to || o.Done?
    {
      if version >= to {
        return true;
      }
      ran := ran + [Upgrade(to)];
      if !o.FailsBefore? {
        version := to;
      }
      ok := o.Done?;
    }

    /** A named fix: runs when its marker is missing, or when forced. */
    method ApplyFix(m: Marker, forced: bool, o: Outcome) returns (ok: bool)
      modifies this
      ensures var needed := m !in old(markers) || forced;
              && version == old(version)
              && markers == old(markers) + (if needed && !o.FailsBefore? then {m} else {})
              && ran == old(ran) + One(needed, Fix(m))
              && (ok <==> !needed || o.Done?)
    {
      if m in markers && !forced {
        return true;
      }
      ran := ran + [Fix(m)];
      if !o.FailsBefore? {
        markers := markers + {m};
      }
      ok := o.Done?;
    }

    method Bump(to: nat)
      modifies this`version
      ensures version == if old(version) < to then to else old(version)
    {
      if version < to {
        version := to;
      }
    }

    /** The media migration, or the optional check of its result. */
    method MigrateMedia(mediaCheck: bool, o: Work -> Outcome) returns (ok: bool)
      modifies this
      ensures version == old(version)
      ensures ran == old(ran) + MediaPlan(old(markers), mediaCheck) && (ok <==> AllDone(MediaPlan(old(markers), mediaCheck), o))
      ensures old(markers) <= markers <= old(markers) + {Sha256Media} && (ok ==> Sha256Media in markers)
    {
      ok := true;
      if Sha256Media !in markers {
        ok := ApplyFix(Sha256Media, false, o(Fix(Sha256Media)));
      } else if mediaCheck {
        ran := ran + [MediaCheck];
        ok := o(MediaCheck).Done?;
      }
    }

    /** The version upgrades and the media migration. */
    method MigrateVersions(mediaCheck: bool, o: Work -> Outcome) returns (ok: bool)
      requires version >= 11
      modifies this
      ensures var plan := VersionPlan(old(version), old(markers), mediaCheck);
              ran == old(ran) + Upto(plan, o) && (ok <==> AllDone(plan, o))
      ensures version >= old(version) && (old(version) >= 13 ==> version == old(version)) && (old(version) < 13 ==> version <= 13)
      ensures old(markers) <= markers <= old(markers) + {Sha256Media} && (ok ==> Sha256Media in markers)
    {
      hide Upto, AllDone, One, MediaPlan, VersionPlan;
      VersionStages(version, markers, mediaCheck, o);
      ok := UpgradeTo(12, o(Upgrade(12)));
      if !ok { return; }
      ok := UpgradeTo(13, o(Upgrade(13)));
      if !ok { return; }
      ok := MigrateMedia(mediaCheck, o);
    }

    /** The two fixes of the membership tables. */
    method MigrateMembers(o: Work -> Outcome) returns (ok: bool)
      modifies this
      ensures var plan := MemberPlan(old(markers));
              ran == old(ran) + Upto(plan, o) && (ok <==> AllDone(plan, o)) && version == old(version)
      ensures old(markers) <= markers <= old(markers) + {DoubleSeparator, RetroactiveJoined}
      ensures ok ==> DoubleSeparator in markers && RetroactiveJoined in markers
    {
      ghost var ms := markers;
      hide Upto, AllDone;
      Pair(DoubleSeparator !in ms, Fix(DoubleSeparator), RetroactiveJoined !in ms, Fix(RetroactiveJoined), o);
      ok := ApplyFix(DoubleSeparator, false, o(Fix(DoubleSeparator)));
      if !ok { return; }
      ok := ApplyFix(RetroactiveJoined, false, o(Fix(RetroactiveJoined)));
    }

    /** The two fixes that repeat below version 17, and the bump. */
    method MigrateTables(o: Work -> Outcome) returns (ok: bool)
      modifies this
      ensures var plan := TablePlan(old(version), old(markers));
              ran == old(ran) + Upto(plan, o) && (ok <==> AllDone(plan, o))
      ensures old(markers) <= markers <= old(markers) + {ReferencedEvents, ReceiptDuplicates}
      ensures ok ==> ReferencedEvents in markers && ReceiptDuplicates in markers
      ensures version == if ok && old(version) < 17 then 17 else old(version)
    {
      ghost var (v, ms) := (version, markers);
      hide Upto, AllDone;
      Pair(ReferencedEvents !in ms || v < 17, Fix(ReferencedEvents),
           ReceiptDuplicates !in ms || v < 17, Fix(ReceiptDuplicates), o);
      ok := ApplyFix(ReferencedEvents, version < 17, o(Fix(ReferencedEvents)));
      if !ok { return; }
      ok := ApplyFix(ReceiptDuplicates, version < 17, o(Fix(ReceiptDuplicates)));
      if !ok { return; }
      Bump(17);
    }

    /** The bump to 18 and the fixes around it. */
    method MigrateLast(o: Work -> Outcome) returns (ok: bool)
      modifies this
      ensures var plan := LastPlan(old(markers));
              ran == old(ran) + Upto(plan, o) && (ok <==> AllDone(plan, o))
      ensures old(markers) <= markers && (ok ==> CorruptFields in markers && LeftState in markers && LocalInvites in markers)
      ensures version == if old(version) < 18 && (CorruptFields in old(markers) || o(Fix(CorruptFields)).Done?) then 18
                         else old(version)
      ensures ok ==> version >= 18
    {
      ghost var ms := markers;
      hide Upto, AllDone;
      Triple(CorruptFields !in ms, Fix(CorruptFields), LeftState !in ms, Fix(LeftState), LocalInvites !in ms, Fix(LocalInvites), o);
      ok := ApplyFix(CorruptFields, false, o(Fix(CorruptFields)));
      if !ok { return; }
      Bump(18);
      ok := ApplyFix(LeftState, false, o(Fix(LeftState)));
      if !ok { return; }
      ok := ApplyFix(LocalInvites, false, o(Fix(LocalInvites)));
    }

    /** The work of `migrate` in its order. */
    method MigrateAll(mediaCheck: bool, o: Work -> Outcome) returns (ok: bool)
      requires version >= 11 && ran == []
      modifies this
      ensures var plan := Plan(old(version), old(markers), mediaCheck);
              ran == Upto(plan, o) && (ok <==> AllDone(plan, o))
      ensures version >= old(version) && markers >= old(markers)
      ensures old(version) <= 18 ==> version <= 18 && (ok ==> version == 18)
      ensures old(version) > 18 ==> version == old(version)
      ensures ok ==> markers == ALL
    {
      hide Upto, AllDone, VersionPlan, MemberPlan, TablePlan, LastPlan;
      ghost var (v, ms) := (version, markers);
      ghost var (a, b, c, d) := (VersionPlan(v, ms, mediaCheck), MemberPlan(ms), TablePlan(v, ms), LastPlan(ms));
      Stages(a, b, c, d, o);
      ok := MigrateVersions(mediaCheck, o);
      if !ok { return; }
      assert ran == a;
      SamePlans(v, version, ms, markers);
      ok := MigrateMembers(o);
      if !ok { return; }
      SamePlans(v, version, ms, markers);
      ok := MigrateTables(o);
      if !ok { return; }
      SamePlans(v, v, ms, markers);
      ok := MigrateLast(o);
      if !ok { return; }
      AllMarkers(markers);
    }

    /** `migrate`, up to the final assertion on the version. */
    method Migrate(mediaCheck: bool, o: Work -> Outcome) returns (ok: bool)
      modifies this
      ensures version >= old(version) && markers >= old(markers)
      ensures 11 <= old(version) <= 18 ==> version <= 18
      ensures ok ==> Complete() && version == 18
      ensures old(version) >= 11 ==> ran == Upto(Plan(old(version), old(markers), mediaCheck), o)
      ensures ok <==> 11 <= old(version) <= 18 && forall w :: w in ran ==> o(w).Done?
      ensures forall w :: w in ran ==> Needs(old(version), old(markers), mediaCheck, w)
      ensures ok ==> forall w :: Needs(old(version), old(markers), mediaCheck, w) ==> w in ran
      ensures old(version) < 11 ==> version == old(version) && markers == old(markers) && ran == []
      ensures ok ==> (Upgrade(12) in ran <==> old(version) == 11) && (Upgrade(13) in ran <==> old(version) <= 12)
      ensures ok ==> (MediaCheck in ran <==> mediaCheck && Sha256Media in old(markers))
      ensures ok ==> forall m :: Fix(m) in ran <==>
                m !in old(markers) || ((m.ReferencedEvents? || m.ReceiptDuplicates?) && old(version) < 17)
    {
      ran := [];
      if version < 11 {
        return false;
      }
      PlanFacts(version, markers, mediaCheck, o);
      hide Upto, AllDone, Plan;
      ok := MigrateAll(mediaCheck, o);
      ok := ok && version == DATABASE_VERSION;
    }

    /** `fresh`: the version and all markers are written before the admin room is created. */
    method Fresh(adminRoomOk: bool) returns (ok: bool)
      modifies this
      ensures Complete() && version == 18 && ran == [] && ok == adminRoomOk
    {
      ran := [];
      version := DATABASE_VERSION;
      markers := markers + {Sha256Media, DoubleSeparator, RetroactiveJoined, ReferencedEvents};
      markers := markers + {ReceiptDuplicates, CorruptFields, LeftState, LocalInvites};
      AllMarkers(markers);
      ok := adminRoomOk;
    }

    /** `migrations`: a database with users is migrated, an empty one is set up. */
    method Migrations(users: nat, serverUserExists: bool, mediaCheck: bool, o: Work -> Outcome, adminRoomOk: bool)
        returns (ok: bool)
      modifies this
      ensures ok ==> Complete()
      ensures users > 0 && (!serverUserExists || old(version) < 11) ==>
                !ok && version == old(version) && markers == old(markers)
      ensures users > 0 && old(version) > 18 ==> !ok
    {
      if users > 0 && !serverUserExists {
        return false;
      }
      if users > 0 {
        ok := Migrate(mediaCheck, o);
      } else {
        ok := Fresh(adminRoomOk);
      }
    }
  }

  /** The parts of the plan whose fixes were not recorded meanwhile are as they were. */
  lemma SamePlans(v: nat, w: nat, a: set<Marker>, b: set<Marker>)
    requires a <= b && (v < 17 <==> w < 17)
    ensures b <= a + {Sha256Media} ==> MemberPlan(b) == MemberPlan(a)
    ensures b <= a + {Sha256Media, DoubleSeparator, RetroactiveJoined} ==> TablePlan(w, b) == TablePlan(v, a)
    ensures b <= a + {Sha256Media, DoubleSeparator, RetroactiveJoined, ReferencedEvents, ReceiptDuplicates} ==>
              LastPlan(b) == LastPlan(a)
  {
  }

  lemma PlanFacts(v: nat, ms: set<Marker>, mediaCheck: bool, o: Work -> Outcome)
    ensures forall w :: w in Upto(Plan(v, ms, mediaCheck), o) ==> Needs(v, ms, mediaCheck, w)
    ensures AllDone(Plan(v, ms, mediaCheck), o) <==> forall w :: w in Upto(Plan(v, ms, mediaCheck), o) ==> o(w).Done?
    ensures AllDone(Plan(v, ms, mediaCheck), o) ==>
              forall w :: Needs(v, ms, mediaCheck, w) ==> w in Upto(Plan(v, ms, mediaCheck), o)
  {
    hide Upto, AllDone, Plan, Needs;
    UptoMembers(Plan(v, ms, mediaCheck), o);
    UptoConcat(Plan(v, ms, mediaCheck), [], o);
    forall w
      ensures w in Plan(v, ms, mediaCheck) <==> Needs(v, ms, mediaCheck, w)
    {
      PlanIsNeed(v, ms, mediaCheck, w);
    }
  }

  lemma AllMarkers(s: set<Marker>)
    ensures s <= ALL
  {
    forall m | m in s
      ensures m in ALL
    {
      match m
      case Sha256Media =>
      case _ =>
    }
  }

  /** A completed database needs nothing: after a successful run, and after `fresh`, a second run
      at most repeats the optional media check. */
  method SecondRun(db: Database, mediaCheck: bool, o: Work -> Outcome) returns (ok: bool)
    requires db.Complete()
    modifies db
    ensures db.Complete() && db.ran == One(mediaCheck, MediaCheck)
    ensures ok <==> !mediaCheck || o(MediaCheck).Done?
  {
    ok := db.Migrate(mediaCheck, o);
    UptoOne(mediaCheck, MediaCheck, o);
    assert Plan(18, ALL, mediaCheck) == One(mediaCheck, MediaCheck);
    AllMarkers(db.markers);
  }

  /** Any number of attempts that fail at any step, followed by one without failures, still reaches
      the end, and no attempt loses what an earlier one recorded. */
  method Attempts(db: Database, mediaCheck: bool, os: seq<Work -> Outcome>, last: Work -> Outcome)
    requires 11 <= db.version <= 18
    requires forall w :: last(w) == Done
    modifies db
    ensures db.Complete() && db.markers >= old(db.markers) && db.version >= old(db.version)
  {
    var i := 0;
    while i < |os|
      invariant 0 <= i <= |os|
      invariant old(db.version) <= db.version <= 18 && db.markers >= old(db.markers)
    {
      var _ := db.Migrate(mediaCheck, os[i]);
      i := i + 1;
    }
    var ok := db.Migrate(mediaCheck, last);
  }
}
