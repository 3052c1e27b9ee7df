/** The state helpers as functions on values: removing a user everywhere
    (`_remove_user_from_all`), the first-match lookups (`_find_user_team`,
    `_find_player_by_character_id`) and the first-match edit of `replace_apq`. */
module Roster {
  import opened Records
  import opened Parse
  import opened Seqs

  /** `[p for p in ps if p.get("user_id") != uid]`. */
  function Without(ps: seq<Player>, uid: string): (r: seq<Player>)
    ensures |r| <= |ps|
    ensures forall i :: 0 <= i < |r| ==> r[i].userId != uid
    ensures forall p :: p in r ==> p in ps
  {
    if ps == [] then []
    else (if ps[0].userId == uid then [] else [ps[0]]) + Without(ps[1..], uid)
  }

  /** The records of one user, in order. */
  function RecordsOf(ps: seq<Player>, uid: string): seq<Player> {
    if ps == [] then []
    else (if ps[0].userId == uid then [ps[0]] else []) + RecordsOf(ps[1..], uid)
  }

  lemma {:induction false} WithoutConcat(a: seq<Player>, b: seq<Player>, uid: string)
    ensures Without(a + b, uid) == Without(a, uid) + Without(b, uid)
    decreases |a|
  {
    if a == [] {
      assert a + b == b;
    } else {
      var h := if a[0].userId == uid then [] else [a[0]];
      assert (a + b)[0] == a[0] && (a + b)[1..] == a[1..] + b;
      WithoutConcat(a[1..], b, uid);
      calc {
        Without(a + b, uid);
        h + Without(a[1..] + b, uid);
        h + (Without(a[1..], uid) + Without(b, uid));
        (h + Without(a[1..], uid)) + Without(b, uid);
        Without(a, uid) + Without(b, uid);
      }
    }
  }

  lemma {:induction false} RecordsOfConcat(a: seq<Player>, b: seq<Player>, uid: string)
    ensures RecordsOf(a + b, uid) == RecordsOf(a, uid) + RecordsOf(b, uid)
    decreases |a|
  {
    if a == [] {
      assert a + b == b;
    } else {
      var h := if a[0].userId == uid then [a[0]] else [];
      assert (a + b)[0] == a[0] && (a + b)[1..] == a[1..] + b;
      RecordsOfConcat(a[1..], b, uid);
      calc {
        RecordsOf(a + b, uid);
        h + RecordsOf(a[1..] + b, uid);
        h + (RecordsOf(a[1..], uid) + RecordsOf(b, uid));
        (h + RecordsOf(a[1..], uid)) + RecordsOf(b, uid);
        RecordsOf(a, uid) + RecordsOf(b, uid);
      }
    }
  }

  /** Removing one user leaves the records of every other user as they were,
      in the same order, and leaves none of the removed user's. */
  lemma {:induction false} WithoutKeepsOthers(ps: seq<Player>, uid: string, other: string)
    ensures other != uid ==> RecordsOf(Without(ps, uid), other) == RecordsOf(ps, other)
    ensures RecordsOf(Without(ps, uid), uid) == []
  {
    if ps != [] {
      WithoutKeepsOthers(ps[1..], uid, other);
      var head := if ps[0].userId == uid then [] else [ps[0]];
      RecordsOfConcat(head, Without(ps[1..], uid), other);
      RecordsOfConcat(head, Without(ps[1..], uid), uid);
    }
  }

  /** A user with no record is not affected by the removal. */
  lemma {:induction false} WithoutAbsent(ps: seq<Player>, uid: string)
    requires RecordsOf(ps, uid) == []
    ensures Without(ps, uid) == ps
  {
    if ps != [] {
      RecordsOfConcat([ps[0]], ps[1..], uid);
      assert [ps[0]] + ps[1..] == ps;
      WithoutAbsent(ps[1..], uid);
    }
  }

  /** A list holding no record of the user is not changed by the filter. */
  lemma {:induction false} WithoutNone(ps: seq<Player>, uid: string)
    requires forall i :: 0 <= i < |ps| ==> ps[i].userId != uid
    ensures Without(ps, uid) == ps
  {
    if ps != [] {
      WithoutNone(ps[1..], uid);
      assert [ps[0]] + ps[1..] == ps;
    }
  }

  /** The team loop of `_remove_user_from_all`: filter every team, and delete the
      teams that become empty. */
  function DropUser(ts: seq<Team>, uid: string): (r: seq<Team>)
    ensures |r| <= |ts|
    ensures forall k :: 0 <= k < |r| ==> r[k].members != []
  {
    if ts == [] then []
    else
      var kept := Without(ts[0].members, uid);
      (if kept == [] then [] else [Team(ts[0].name, kept)]) + DropUser(ts[1..], uid)
  }

  /** Team by team removal takes out exactly the user's records from the
      team members, in order. */
  lemma {:induction false} DropUserFlatten(ts: seq<Team>, uid: string)
    ensures Flatten(DropUser(ts, uid)) == Without(Flatten(ts), uid)
  {
    if ts != [] {
      var kept := Without(ts[0].members, uid);
      var head := if kept == [] then [] else [Team(ts[0].name, kept)];
      DropUserFlatten(ts[1..], uid);
      FlattenConcat(head, DropUser(ts[1..], uid));
      WithoutConcat(ts[0].members, Flatten(ts[1..]), uid);
      if kept != [] {
        assert Flatten(head) == kept + Flatten(head[1..]);
      }
    }
  }

  /** Every team left by the removal is an old team with some records taken out. */
  lemma {:induction false} DropUserTeams(ts: seq<Team>, uid: string)
    ensures forall k :: 0 <= k < |DropUser(ts, uid)| ==>
      exists j :: 0 <= j < |ts| && DropUser(ts, uid)[k] == Team(ts[j].name, Without(ts[j].members, uid))
  {
    if ts != [] {
      DropUserTeams(ts[1..], uid);
      var kept := Without(ts[0].members, uid);
      var head := if kept == [] then [] else [Team(ts[0].name, kept)];
      var r := DropUser(ts, uid);
      assert r == head + DropUser(ts[1..], uid);
      forall k | 0 <= k < |r|
        ensures exists j :: 0 <= j < |ts| && r[k] == Team(ts[j].name, Without(ts[j].members, uid))
      {
        if k < |head| {
          assert r[k] == Team(ts[0].name, Without(ts[0].members, uid));
          assert 0 < |ts|;
        } else {
          var j :| 0 <= j < |ts[1..]| && DropUser(ts[1..], uid)[k - |head|] == Team(ts[1..][j].name, Without(ts[1..][j].members, uid));
          assert r[k] == DropUser(ts[1..], uid)[k - |head|];
          assert ts[1..][j] == ts[j + 1];
          assert r[k] == Team(ts[j + 1].name, Without(ts[j + 1].members, uid));
          assert j + 1 < |ts|;
        }
      }
      assert r == DropUser(ts, uid);
    } else {
      assert DropUser(ts, uid) == [];
    }
  }

  /** Removal keeps the team names distinct. */
  lemma {:induction false} DropUserKeepsNames(ts: seq<Team>, uid: string)
    requires DistinctNames(ts)
    ensures DistinctNames(DropUser(ts, uid))
  {
    if ts != [] {
      DropUserKeepsNames(ts[1..], uid);
      DropUserTeams(ts[1..], uid);
      var kept := Without(ts[0].members, uid);
      var head := if kept == [] then [] else [Team(ts[0].name, kept)];
      var tail := DropUser(ts[1..], uid);
      assert DropUser(ts, uid) == head + tail;
      forall k | 0 <= k < |tail| ensures tail[k].name != ts[0].name {
        var j :| 0 <= j < |ts[1..]| && tail[k] == Team(ts[1..][j].name, Without(ts[1..][j].members, uid));
        assert tail[k].name == ts[j + 1].name;
      }
    }
  }

  /** Removal keeps every team within `TEAM_SIZE` when that held before. */
  lemma DropUserKeepsSizes(ts: seq<Team>, uid: string)
    requires forall k :: 0 <= k < |ts| ==> |ts[k].members| <= TEAM_SIZE
    ensures forall k :: 0 <= k < |DropUser(ts, uid)| ==> |DropUser(ts, uid)[k].members| <= TEAM_SIZE
  {
    var r := DropUser(ts, uid);
    DropUserTeams(ts, uid);
    forall k | 0 <= k < |r| ensures |r[k].members| <= TEAM_SIZE {
      var j :| 0 <= j < |ts| && r[k] == Team(ts[j].name, Without(ts[j].members, uid));
    }
  }

  /** Whom a scan is looking for: a character id (`_find_player_by_character_id`),
      or the caller's own records, or any record at all for an admin (`replace_apq`). */
  datatype Matcher = ByCharacter(characterId: string) | ByUser(userId: string, anyone: bool)

  predicate Matches(m: Matcher, p: Player) {
    match m
    case ByCharacter(c) => p.characterId == c
    case ByUser(u, anyone) => p.userId == u || anyone
  }

  /** The index of the first matching record. */
  function FirstMatch(ps: seq<Player>, m: Matcher): (r: Option<nat>)
    ensures r.Some? ==> r.value < |ps| && Matches(m, ps[r.value])
    ensures r.Some? ==> forall i :: 0 <= i < r.value ==> !Matches(m, ps[i])
    ensures r.None? ==> forall i :: 0 <= i < |ps| ==> !Matches(m, ps[i])
  {
    if ps == [] then None
    else if Matches(m, ps[0]) then Some(0)
    else match FirstMatch(ps[1..], m)
      case None => None
      case Some(j) => Some(j + 1)
  }

  /** A match with none before it is the first match. */
  lemma FirstMatchAt(ps: seq<Player>, m: Matcher, j: nat)
    requires j < |ps| && Matches(m, ps[j])
    requires forall i :: 0 <= i < j ==> !Matches(m, ps[i])
    ensures FirstMatch(ps, m) == Some(j)
  {
  }

  /** The first match in a concatenation is the first match in the first part,
      or else the first match in the second part. */
  lemma FirstMatchConcat(a: seq<Player>, b: seq<Player>, m: Matcher)
    ensures FirstMatch(a, m).Some? ==> FirstMatch(a + b, m) == FirstMatch(a, m)
    ensures FirstMatch(a, m).None? && FirstMatch(b, m).None? ==> FirstMatch(a + b, m).None?
    ensures FirstMatch(a, m).None? && FirstMatch(b, m).Some? ==>
      FirstMatch(a + b, m) == Some(|a| + FirstMatch(b, m).value)
  {
    if FirstMatch(a, m).Some? {
      FirstMatchInFirst(a, b, m);
    } else if FirstMatch(b, m).Some? {
      FirstMatchInSecond(a, b, m);
    } else {
      FirstMatchInNeither(a, b, m);
    }
  }

  lemma FirstMatchInFirst(a: seq<Player>, b: seq<Player>, m: Matcher)
    requires FirstMatch(a, m).Some?
    ensures FirstMatch(a + b, m) == FirstMatch(a, m)
  {
    var ab := a + b;
    var j := FirstMatch(a, m).value;
    forall i | 0 <= i < j ensures !Matches(m, ab[i]) {
      assert ab[i] == a[i];
    }
    assert ab[j] == a[j];
    FirstMatchAt(ab, m, j);
  }

  lemma FirstMatchInSecond(a: seq<Player>, b: seq<Player>, m: Matcher)
    requires FirstMatch(a, m).None? && FirstMatch(b, m).Some?
    ensures FirstMatch(a + b, m) == Some(|a| + FirstMatch(b, m).value)
  {
    var ab := a + b;
    var j := FirstMatch(b, m).value;
    forall i | 0 <= i < |a| + j ensures !Matches(m, ab[i]) {
      if i < |a| {
        assert ab[i] == a[i];
      } else {
        assert ab[i] == b[i - |a|];
      }
    }
    assert ab[|a| + j] == b[j];
    FirstMatchAt(ab, m, |a| + j);
  }

  lemma FirstMatchInNeither(a: seq<Player>, b: seq<Player>, m: Matcher)
    requires FirstMatch(a, m).None? && FirstMatch(b, m).None?
    ensures FirstMatch(a + b, m).None?
  {
    var ab := a + b;
    forall i | 0 <= i < |ab| ensures !Matches(m, ab[i]) {
      if i < |a| {
        assert ab[i] == a[i];
      } else {
        assert ab[i] == b[i - |a|];
      }
    }
    FirstMatchNone(ab, m);
  }

  lemma FirstMatchNone(ps: seq<Player>, m: Matcher)
    requires forall i :: 0 <= i < |ps| ==> !Matches(m, ps[i])
    ensures FirstMatch(ps, m).None?
  {
  }

  /** Where a lookup found its record: in a named team, or in the free pool. */
  datatype Location = InTeam(name: string) | InFree

  /** The result of a lookup: the location, the record, and the size of the team
      it is in (0 for the free pool). */
  datatype Lookup = Missing | Found(location: Location, player: Player, teamSize: nat)

  /** The nested scan of the lookups: team by team, member by member, then the
      free pool. */
  function Locate(ts: seq<Team>, free: seq<Player>, m: Matcher): Lookup {
    if ts == [] then
      match FirstMatch(free, m)
      case None => Missing
      case Some(j) => Found(InFree, free[j], 0)
    else
      match FirstMatch(ts[0].members, m)
      case Some(j) => Found(InTeam(ts[0].name), ts[0].members[j], |ts[0].members|)
      case None => Locate(ts[1..], free, m)
  }

  /** The nested scan finds the first matching record in scan order, and a
      record found in a team comes with that team's name and size. */
  lemma LocateScanOrder(ts: seq<Team>, free: seq<Player>, m: Matcher)
    ensures Locate(ts, free, m).Missing? <==> FirstMatch(Flatten(ts) + free, m).None?
    ensures Locate(ts, free, m).Found? ==>
      Locate(ts, free, m).player == (Flatten(ts) + free)[FirstMatch(Flatten(ts) + free, m).value]
    ensures Locate(ts, free, m).Found? && Locate(ts, free, m).location.InTeam? ==>
      exists k :: 0 <= k < |ts| && ts[k].name == Locate(ts, free, m).location.name
        && Locate(ts, free, m).player in ts[k].members
        && Locate(ts, free, m).teamSize == |ts[k].members|
        && forall j :: 0 <= j < k ==> FirstMatch(ts[j].members, m).None?
    ensures Locate(ts, free, m).Found? && Locate(ts, free, m).location.InFree? ==>
      Locate(ts, free, m).player in free && Locate(ts, free, m).teamSize == 0
  {
    LocateFirst(ts, free, m);
    LocateWhere(ts, free, m);
  }

  lemma {:induction false} LocateFirst(ts: seq<Team>, free: seq<Player>, m: Matcher)
    ensures Locate(ts, free, m).Missing? <==> FirstMatch(Flatten(ts) + free, m).None?
    ensures Locate(ts, free, m).Found? ==>
      Locate(ts, free, m).player == (Flatten(ts) + free)[FirstMatch(Flatten(ts) + free, m).value]
  {
    if ts == [] {
      assert Flatten(ts) + free == free;
    } else {
      var rest := Flatten(ts[1..]) + free;
      Assoc(ts[0].members, Flatten(ts[1..]), free);
      FirstMatchConcat(ts[0].members, rest, m);
      if FirstMatch(ts[0].members, m).None? {
        LocateFirst(ts[1..], free, m);
        if Locate(ts[1..], free, m).Found? {
          var k := FirstMatch(rest, m).value;
          assert (ts[0].members + rest)[|ts[0].members| + k] == rest[k];
        }
      } else {
        var j := FirstMatch(ts[0].members, m).value;
        assert (ts[0].members + rest)[j] == ts[0].members[j];
      }
    }
  }

  lemma {:induction false} LocateWhere(ts: seq<Team>, free: seq<Player>, m: Matcher)
    ensures Locate(ts, free, m).Found? && Locate(ts, free, m).location.InTeam? ==>
      exists k :: 0 <= k < |ts| && ts[k].name == Locate(ts, free, m).location.name
        && Locate(ts, free, m).player in ts[k].members
        && Locate(ts, free, m).teamSize == |ts[k].members|
        && forall j :: 0 <= j < k ==> FirstMatch(ts[j].members, m).None?
    ensures Locate(ts, free, m).Found? && Locate(ts, free, m).location.InFree? ==>
      Locate(ts, free, m).player in free && Locate(ts, free, m).teamSize == 0
  {
    if ts != [] && FirstMatch(ts[0].members, m).None? {
      LocateWhere(ts[1..], free, m);
      var l := Locate(ts[1..], free, m);
      if l.Found? && l.location.InTeam? {
        var k :| 0 <= k < |ts[1..]| && ts[1..][k].name == l.location.name
          && l.player in ts[1..][k].members && l.teamSize == |ts[1..][k].members|
          && forall j :: 0 <= j < k ==> FirstMatch(ts[1..][j].members, m).None?;
        assert ts[k + 1] == ts[1..][k];
        forall j | 0 <= j < k + 1 ensures FirstMatch(ts[j].members, m).None? {
          if j > 0 {
            assert ts[j] == ts[1..][j - 1];
          }
        }
      }
    }
  }

  /** The three fields `replace_apq` rewrites. */
  datatype Fields = Fields(characterId: string, gender: string, job: string)

  function Edit(p: Player, f: Fields): (r: Player)
    ensures r.userId == p.userId && r.nickname == p.nickname && r.qqNumber == p.qqNumber
    ensures r.characterId == f.characterId && r.gender == f.gender && r.job == f.job
  {
    p.(characterId := f.characterId, gender := f.gender, job := f.job)
  }

  /** Rewrite the first matching record of a list (the inner loop with `break`). */
  function EditFirstIn(ps: seq<Player>, m: Matcher, f: Fields): seq<Player> {
    var r := FirstMatch(ps, m);
    if r.None? then ps else ps[r.value := Edit(ps[r.value], f)]
  }

  /** The team loop of `replace_apq`: the first team holding a match has its
      first match rewritten, and the scan stops there. */
  function EditTeams(ts: seq<Team>, m: Matcher, f: Fields): (r: seq<Team>)
    ensures |r| == |ts|
  {
    if ts == [] then []
    else if FirstMatch(ts[0].members, m).Some? then
      [Team(ts[0].name, EditFirstIn(ts[0].members, m, f))] + ts[1..]
    else [ts[0]] + EditTeams(ts[1..], m, f)
  }

  /** The edit keeps every team's name and size. */
  lemma {:induction false} EditTeamsKeepsShape(ts: seq<Team>, m: Matcher, f: Fields)
    ensures TeamNames(EditTeams(ts, m, f)) == TeamNames(ts)
    ensures forall k :: 0 <= k < |ts| ==> |EditTeams(ts, m, f)[k].members| == |ts[k].members|
  {
    if ts != [] {
      var r := EditTeams(ts, m, f);
      EditFirstInChangesOne(ts[0].members, m, f);
      if FirstMatch(ts[0].members, m).None? {
        EditTeamsKeepsShape(ts[1..], m, f);
      }
      assert r[1..] == if FirstMatch(ts[0].members, m).Some? then ts[1..] else EditTeams(ts[1..], m, f);
      forall k | 0 < k < |ts| ensures |r[k].members| == |ts[k].members| {
        assert r[k] == r[1..][k - 1] && ts[k] == ts[1..][k - 1];
      }
    }
  }

  /** `replace_apq`'s two scans: the teams first, and the free pool only when no
      team holds a match. */
  function EditRecords(ts: seq<Team>, free: seq<Player>, m: Matcher, f: Fields): (r: (seq<Team>, seq<Player>)) {
    if FirstMatch(Flatten(ts), m).Some? then (EditTeams(ts, m, f), free)
    else (ts, EditFirstIn(free, m, f))
  }

  /** Teams without a match are passed over: the edit happens in the rest. */
  lemma {:induction false} EditTeamsSkip(ts: seq<Team>, k: nat, m: Matcher, f: Fields)
    requires k <= |ts|
    requires FirstMatch(Flatten(ts[..k]), m).None?
    ensures EditTeams(ts, m, f) == ts[..k] + EditTeams(ts[k..], m, f)
    decreases k
  {
    if k > 0 {
      var tail := ts[1..];
      assert ts[..k] == [ts[0]] + tail[..k - 1];
      assert ts[..k][1..] == tail[..k - 1];
      FirstMatchConcat(ts[0].members, Flatten(tail[..k - 1]), m);
      assert EditTeams(ts, m, f) == [ts[0]] + EditTeams(tail, m, f);
      EditTeamsSkip(tail, k - 1, m, f);
      assert tail[k - 1..] == ts[k..];
    }
  }

  /** Teams without a match add nothing to the search of the flattened teams. */
  lemma FlattenSkip(ts: seq<Team>, k: nat, m: Matcher)
    requires k <= |ts|
    requires FirstMatch(Flatten(ts[..k]), m).None?
    ensures FirstMatch(Flatten(ts), m).Some? <==> FirstMatch(Flatten(ts[k..]), m).Some?
  {
    assert ts == ts[..k] + ts[k..];
    FlattenConcat(ts[..k], ts[k..]);
    FirstMatchConcat(Flatten(ts[..k]), Flatten(ts[k..]), m);
  }

  /** A first team holding a match is the one edited. */
  lemma EditTeamsHead(ts: seq<Team>, m: Matcher, f: Fields)
    requires ts != [] && FirstMatch(ts[0].members, m).Some?
    ensures EditTeams(ts, m, f) == [Team(ts[0].name, EditFirstIn(ts[0].members, m, f))] + ts[1..]
    ensures FirstMatch(Flatten(ts), m).Some?
  {
    FirstMatchConcat(ts[0].members, Flatten(ts[1..]), m);
  }

  /** The scan stops at the first team holding a match and edits it alone. */
  lemma EditTeamsHit(ts: seq<Team>, k: nat, m: Matcher, f: Fields)
    requires k < |ts|
    requires FirstMatch(Flatten(ts[..k]), m).None? && FirstMatch(ts[k].members, m).Some?
    ensures EditTeams(ts, m, f) == ts[k := Team(ts[k].name, EditFirstIn(ts[k].members, m, f))]
    ensures FirstMatch(Flatten(ts), m).Some?
  {
    EditTeamsSkip(ts, k, m, f);
    FlattenSkip(ts, k, m);
    var rest := ts[k..];
    assert rest[0] == ts[k] && rest[1..] == ts[k + 1..];
    EditTeamsHead(rest, m, f);
    UpdateSplit(ts, k, Team(ts[k].name, EditFirstIn(ts[k].members, m, f)));
  }

  /** A scan that finds no match leaves every team as it was. */
  lemma EditTeamsMiss(ts: seq<Team>, m: Matcher, f: Fields)
    requires FirstMatch(Flatten(ts), m).None?
    ensures EditTeams(ts, m, f) == ts
  {
    assert ts[..|ts|] == ts && ts[|ts|..] == [];
    EditTeamsSkip(ts, |ts|, m, f);
  }

  /** The scan moves past a team without a match. */
  lemma FlattenStep(ts: seq<Team>, k: nat, m: Matcher)
    requires k < |ts|
    requires FirstMatch(Flatten(ts[..k]), m).None? && FirstMatch(ts[k].members, m).None?
    ensures FirstMatch(Flatten(ts[..k + 1]), m).None?
  {
    assert ts[..k + 1] == ts[..k] + [ts[k]];
    FlattenConcat(ts[..k], [ts[k]]);
    FlattenSingle(ts[k]);
    FirstMatchConcat(Flatten(ts[..k]), ts[k].members, m);
  }

  /** With no match anywhere, the two scans of `replace_apq` change nothing. */
  lemma EditRecordsNoMatch(ts: seq<Team>, free: seq<Player>, m: Matcher, f: Fields)
    requires FirstMatch(Flatten(ts) + free, m).None?
    ensures EditRecords(ts, free, m, f) == (ts, free)
  {
    FirstMatchConcat(Flatten(ts), free, m);
  }

  lemma EditFirstInConcat(a: seq<Player>, b: seq<Player>, m: Matcher, f: Fields)
    ensures EditFirstIn(a + b, m, f) ==
      if FirstMatch(a, m).Some? then EditFirstIn(a, m, f) + b else a + EditFirstIn(b, m, f)
  {
    FirstMatchConcat(a, b, m);
    if FirstMatch(a, m).Some? {
      var j := FirstMatch(a, m).value;
      assert (a + b)[j] == a[j];
      UpdateLeft(a, b, j, Edit(a[j], f));
    } else if FirstMatch(b, m).Some? {
      var j := FirstMatch(b, m).value;
      assert (a + b)[|a| + j] == b[j];
      UpdateRight(a, b, j, Edit(b[j], f));
    }
  }

  lemma {:induction false} EditTeamsFlatten(ts: seq<Team>, m: Matcher, f: Fields)
    ensures Flatten(EditTeams(ts, m, f)) == EditFirstIn(Flatten(ts), m, f)
  {
    if ts != [] {
      EditFirstInConcat(ts[0].members, Flatten(ts[1..]), m, f);
      if FirstMatch(ts[0].members, m).Some? {
        var r := EditTeams(ts, m, f);
        assert r[1..] == ts[1..];
      } else {
        EditTeamsFlatten(ts[1..], m, f);
      }
    }
  }

  /** The two nested scans of `replace_apq` rewrite exactly the first matching
      record in scan order, teams before the free pool, and nothing else;
      team names, team sizes and the pool's length stay as they were. */
  lemma EditRecordsScanOrder(ts: seq<Team>, free: seq<Player>, m: Matcher, f: Fields)
    ensures Flatten(EditRecords(ts, free, m, f).0) + EditRecords(ts, free, m, f).1
      == EditFirstIn(Flatten(ts) + free, m, f)
    ensures TeamNames(EditRecords(ts, free, m, f).0) == TeamNames(ts)
    ensures forall k :: 0 <= k < |ts| ==> |EditRecords(ts, free, m, f).0[k].members| == |ts[k].members|
    ensures |EditRecords(ts, free, m, f).1| == |free|
  {
    EditFirstInConcat(Flatten(ts), free, m, f);
    EditTeamsFlatten(ts, m, f);
    EditTeamsKeepsShape(ts, m, f);
    if FirstMatch(Flatten(ts), m).None? {
      assert EditFirstIn(Flatten(ts), m, f) == Flatten(ts);
    }
  }

  /** Rewriting the first match changes one record at most, and never a user id,
      nickname or stored QQ number. */
  lemma EditFirstInChangesOne(ps: seq<Player>, m: Matcher, f: Fields)
    ensures |EditFirstIn(ps, m, f)| == |ps|
    ensures forall i :: 0 <= i < |ps| ==>
      && EditFirstIn(ps, m, f)[i].userId == ps[i].userId
      && EditFirstIn(ps, m, f)[i].nickname == ps[i].nickname
      && EditFirstIn(ps, m, f)[i].qqNumber == ps[i].qqNumber
    ensures FirstMatch(ps, m).None? ==> EditFirstIn(ps, m, f) == ps
    ensures FirstMatch(ps, m).Some? ==>
      var k := FirstMatch(ps, m).value;
      EditFirstIn(ps, m, f)[k] == Edit(ps[k], f)
        && forall i :: 0 <= i < |ps| && i != k ==> EditFirstIn(ps, m, f)[i] == ps[i]
  {
  }
}
