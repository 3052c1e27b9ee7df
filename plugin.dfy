/** `APQPlugin` as an object: the configured admin ids and the three parts of
    `self.state`, updated in place by the state helpers and the command
    handlers. Every method is proved to leave the state, and give the reply,
    that the matching function of `Commands` describes, so the properties
    proved there hold of the object too. */
module Plugin {
  import opened Text
  import opened Records
  import opened Seqs
  import opened Parse
  import opened Auth
  import opened Roster
  import opened Assign
  import opened Commands

  class APQPlugin {
    /** `config["admin_ids"]`, each converted to a string. */
    const adminIds: seq<string>
    var status: Status
    /** The `teams` dictionary in insertion order. */
    var teams: seq<Team>
    var free: seq<Player>

    /** `self.state` as a value. */
    function Snapshot(): State
      reads this
    {
      State(status, teams, free)
    }

    /** `__init__`, without the load from disk: the default state. */
    constructor (adminIds: seq<string>)
      ensures this.adminIds == adminIds
      ensures Snapshot() == Default
    {
      this.adminIds := adminIds;
      status := Idle;
      teams := [];
      free := [];
    }

    /** `_remove_user_from_all`: filter the pool if the user is in it, then
        filter every team and delete the teams left empty. */
    method RemoveUserFromAll(uid: string)
      modifies this
      ensures Snapshot() == Commands.RemoveUserFromAll(old(Snapshot()), uid)
    {
      if exists i :: 0 <= i < |free| && free[i].userId == uid {
        free := Without(free, uid);
      } else {
        WithoutNone(free, uid);
      }
      teams := DropUserScan(teams, uid);
    }

    /** The team loop of `_remove_user_from_all`, on the teams `ts`: keep each
        team without the user's records, and only if some record is left. */
    static method DropUserScan(ts: seq<Team>, uid: string) returns (kept: seq<Team>)
      ensures kept == DropUser(ts, uid)
    {
      kept := [];
      var k := 0;
      while k < |ts|
        invariant 0 <= k <= |ts|
        invariant kept + DropUser(ts[k..], uid) == DropUser(ts, uid)
      {
        ghost var rest := ts[k..];
        assert rest[0] == ts[k] && rest[1..] == ts[k + 1..];
        var members := Without(ts[k].members, uid);
        ghost var head := if members == [] then [] else [Team(ts[k].name, members)];
        assert DropUser(rest, uid) == head + DropUser(ts[k + 1..], uid);
        Assoc(kept, head, DropUser(ts[k + 1..], uid));
        if members != [] {
          kept := kept + [Team(ts[k].name, members)];
        } else {
          assert kept + head == kept;
        }
        k := k + 1;
      }
      assert ts[k..] == [];
      assert kept + [] == kept;
    }

    /** `_find_user_team`: the first team with a record of the user, and its size. */
    method FindUserTeam(uid: string) returns (l: Lookup)
      ensures l == Commands.FindUserTeam(Snapshot(), uid)
    {
      var m := ByUser(uid, false);
      var k := 0;
      while k < |teams|
        invariant 0 <= k <= |teams|
        invariant Locate(teams[k..], [], m) == Locate(teams, [], m)
      {
        assert teams[k..][0] == teams[k] && teams[k..][1..] == teams[k + 1..];
        var members := teams[k].members;
        var j := 0;
        while j < |members|
          invariant 0 <= j <= |members|
          invariant forall i :: 0 <= i < j ==> !Matches(m, members[i])
        {
          if members[j].userId == uid {
            FirstMatchAt(members, m, j);
            return Found(InTeam(teams[k].name), members[j], |members|);
          }
          j := j + 1;
        }
        k := k + 1;
      }
      return Missing;
    }

    /** `_find_player_by_character_id`: strip the id, then scan. */
    method FindPlayerByCharacterId(charId: string) returns (l: Lookup)
      ensures l == Commands.FindPlayerByCharacterId(Snapshot(), charId)
    {
      l := FindCharacter(Strip(charId));
    }

    /** The two scans of `_find_player_by_character_id`: the teams, then the pool. */
    method FindCharacter(c: string) returns (l: Lookup)
      ensures l == Commands.FindCharacter(Snapshot(), c)
    {
      var m := ByCharacter(c);
      var k := 0;
      while k < |teams|
        invariant 0 <= k <= |teams|
        invariant Locate(teams[k..], free, m) == Locate(teams, free, m)
      {
        assert teams[k..][0] == teams[k] && teams[k..][1..] == teams[k + 1..];
        var members := teams[k].members;
        var j := 0;
        while j < |members|
          invariant 0 <= j <= |members|
          invariant forall i :: 0 <= i < j ==> !Matches(m, members[i])
        {
          if members[j].characterId == c {
            FirstMatchAt(members, m, j);
            return Found(InTeam(teams[k].name), members[j], |members|);
          }
          j := j + 1;
        }
        k := k + 1;
      }
      var j := 0;
      while j < |free|
        invariant 0 <= j <= |free|
        invariant forall i :: 0 <= i < j ==> !Matches(m, free[i])
      {
        if free[j].characterId == c {
          FirstMatchAt(free, m, j);
          return Found(InFree, free[j], 0);
        }
        j := j + 1;
      }
      return Missing;
    }

    /** `_assign_free`; `shuffled` is the copy of the pool after
        `random.shuffle`. First the existing teams are filled up in dictionary
        order from the front of the shuffled pool, then the rest is cut into new
        teams under the first free "队伍<n>" names. */
    method AssignFree(shuffled: seq<Player>)
      requires multiset(shuffled) == multiset(free)
      modifies this
      ensures teams == AssignTeams(old(teams), shuffled)
      ensures free == [] && status == old(status)
    {
      var topped, pool := TopUpTeams(teams, shuffled);
      teams := topped;
      OpenTeams(pool);
      free := [];
    }

    /** The first loop of `_assign_free`, on the teams `ts0`: fill each team
        to `TEAM_SIZE`, stopping once the pool is empty. */
    static method TopUpTeams(ts0: seq<Team>, shuffled: seq<Player>) returns (ts: seq<Team>, pool: seq<Player>)
      ensures ts == TopUp(ts0, shuffled)
      ensures pool == Leftover(ts0, shuffled)
    {
      var done: seq<Team> := [];
      pool := shuffled;
      var k := 0;
      while k < |ts0| && pool != []
        invariant 0 <= k <= |ts0|
        invariant TopUp(ts0, shuffled) == done + TopUp(ts0[k..], pool)
        invariant Leftover(ts0, shuffled) == Leftover(ts0[k..], pool)
      {
        ghost var rest := ts0[k..];
        assert rest[0] == ts0[k] && rest[1..] == ts0[k + 1..];
        ghost var before := pool;
        ghost var n := Min(Room(ts0[k]), |pool|);
        TopUpFront(rest, pool);
        var t;
        t, pool := FillTeam(ts0[k], pool);
        assert t == Team(ts0[k].name, ts0[k].members + before[..n]) && pool == before[n..];
        Assoc(done, [t], TopUp(ts0[k + 1..], pool));
        done := done + [t];
        k := k + 1;
      }
      ts := done + ts0[k..];
    }

    /** The inner `while len(members) < TEAM_SIZE and free` loop: move players
        from the front of the pool into the team. */
    static method FillTeam(t0: Team, pool0: seq<Player>) returns (t: Team, pool: seq<Player>)
      ensures t == Team(t0.name, t0.members + pool0[..Min(Room(t0), |pool0|)])
      ensures pool == pool0[Min(Room(t0), |pool0|)..]
    {
      ghost var n := Min(Room(t0), |pool0|);
      var members := t0.members;
      pool := pool0;
      ghost var taken := 0;
      while |members| < TEAM_SIZE && pool != []
        invariant taken <= n && members == t0.members + pool0[..taken] && pool == pool0[taken..]
      {
        members := members + [pool[0]];
        assert pool0[..taken + 1] == pool0[..taken] + [pool[0]];
        pool := pool[1..];
        taken := taken + 1;
      }
      t := Team(t0.name, members);
    }

    /** The second loop of `_assign_free`: while players are left, find the
        first free name from the current index on and open a team with the next
        `TEAM_SIZE` players. */
    method OpenTeams(leftover: seq<Player>)
      modifies this
      ensures teams == NewTeams(old(teams), leftover, 1)
      ensures free == old(free) && status == old(status)
    {
      var pool := leftover;
      var idx := 1;
      while pool != []
        invariant NewTeams(teams, pool, idx) == NewTeams(old(teams), leftover, 1)
        invariant free == old(free) && status == old(status)
        decreases |pool|
      {
        ghost var start := idx;
        var name := TeamName(idx);
        while name in TeamNames(teams)
          invariant start <= idx && name == TeamName(idx)
          invariant FreshIndex(TeamNames(teams), idx) == FreshIndex(TeamNames(teams), start)
          decreases Pow10(MaxLen(TeamNames(teams))) - idx
        {
          assert idx < Pow10(MaxLen(TeamNames(teams))) by {
            if Pow10(MaxLen(TeamNames(teams))) <= idx {
              TeamNameUnused(TeamNames(teams), idx);
            }
          }
          idx := idx + 1;
          name := TeamName(idx);
        }
        var n := Min(TEAM_SIZE, |pool|);
        teams := teams + [Team(name, pool[..n])];
        pool := pool[n..];
      }
    }

    // -------------------------------------------------------------------
    // The command handlers. Each takes the inputs the handler reads from
    // the event and returns the kind of reply it sends.

    /** `create_apq`. */
    method CreateApq(uid: string, nickname: string, charId: string, gender: string, job: string)
      returns (o: Outcome)
      modifies this
      ensures Reply(Snapshot(), o) == CreateStep(old(Snapshot()), uid, nickname, charId, gender, job)
    {
      o := CreateChecked(uid, nickname, CheckArgs(charId, gender, job));
    }

    /** `create_apq` from the argument check on: refuse while a session with
        sign-ups runs, else open recruiting with the creator in the pool. */
    method CreateChecked(uid: string, nickname: string, a: Args) returns (o: Outcome)
      modifies this
      ensures Reply(Snapshot(), o) == CreateWith(old(Snapshot()), uid, nickname, a)
    {
      match a
      case Blank =>
        return Usage;
      case BadGender =>
        return GenderError;
      case Valid(f) =>
        if status == Recruiting && (teams != [] || free != []) {
          return AlreadyRecruiting;
        }
        status := Recruiting;
        var p := Player(uid, nickname, f.characterId, f.gender, f.job, uid);
        free := free + [p];
        return Created(p);
    }

    /** `join_apq`; `content` is the text collected from the message segments. */
    method JoinApq(uid: string, nickname: string, content: string) returns (o: Outcome)
      modifies this
      ensures Reply(Snapshot(), o) == JoinStep(old(Snapshot()), uid, nickname, content)
    {
      o := JoinParsed(uid, nickname, ParseJoinCommand(content));
    }

    /** `join_apq` from the parse of the message on. */
    method JoinParsed(uid: string, nickname: string, parsed: Option<(string, string, string)>) returns (o: Outcome)
      modifies this
      ensures Reply(Snapshot(), o) == JoinWith(old(Snapshot()), uid, nickname, parsed)
    {
      if parsed.None? {
        return FormatError;
      }
      var code := ParseGender(parsed.value.1);
      if code.None? {
        return GenderError;
      }
      if status == Idle {
        return NoActivity;
      }
      var p := Player(uid, nickname, parsed.value.0, code.value, parsed.value.2, uid);
      RemoveUserFromAll(uid);
      free := free + [p];
      return Joined(p);
    }

    /** `query_apq`: a read-only report. */
    method QueryApq() returns (o: Outcome)
      ensures o == Query(Snapshot())
    {
      if teams == [] && free == [] {
        return NoActivity;
      }
      return Report(QueryStats(Snapshot()));
    }

    /** `finish_apq`; `shuffled` is the order `random.shuffle` gives the pool. */
    method FinishApq(shuffled: seq<Player>) returns (o: Outcome)
      requires multiset(shuffled) == multiset(free)
      modifies this
      ensures Reply(Snapshot(), o) == FinishStep(old(Snapshot()), shuffled)
    {
      if teams == [] && free == [] {
        return NoActivity;
      }
      if free != [] {
        AssignFree(shuffled);
      }
      o := Finished(teams, TeamStats(teams));
      status, teams, free := Idle, [], [];
    }

    /** `cancel_apq`: the caller's id is read and not used. */
    method CancelApq(uid: string) returns (o: Outcome)
      modifies this
      ensures Reply(Snapshot(), o) == CancelStep(old(Snapshot()), uid)
    {
      if teams == [] && free == [] {
        return NoActivity;
      }
      status, teams, free := Idle, [], [];
      return Cancelled;
    }

    /** `replace_apq`. */
    method ReplaceApq(uid: string, sender: Option<Sender>, charId: string, gender: string, job: string)
      returns (o: Outcome)
      modifies this
      ensures Reply(Snapshot(), o) == ReplaceStep(old(Snapshot()), adminIds, uid, sender, charId, gender, job)
    {
      var c, g, j := Strip(charId), Strip(gender), Strip(job);
      if c == [] || g == [] || j == [] {
        return Usage;
      }
      var code := ParseGender(g);
      if code.None? {
        return GenderError;
      }
      var isAdmin := HasAdminRights(uid, adminIds, sender);
      var f := Fields(c, code.value, j);
      var found := ReplaceFirst(uid, isAdmin, f);
      if !found {
        return NotJoined;
      }
      return Replaced(f);
    }

    /** The two scans of `replace_apq`: the first record in the teams, or else
        in the pool, that is the caller's (any record, for an admin) gets the
        new fields. */
    method ReplaceFirst(uid: string, isAdmin: bool, f: Fields) returns (found: bool)
      modifies this
      ensures Reply(Snapshot(), if found then Replaced(f) else NotJoined)
        == ReplaceWith(old(Snapshot()), uid, isAdmin, Valid(f))
    {
      ghost var s := Snapshot();
      var m := ByUser(uid, isAdmin);
      LocateScanOrder(teams, free, m);
      FirstMatchConcat(Flatten(teams), free, m);
      var ts;
      ts, found := EditTeamsScan(teams, m, f);
      if found {
        teams := ts;
      } else {
        var ps;
        ps, found := EditFirst(free, m, f);
        free := ps;
      }
      if !found {
        EditRecordsNoMatch(s.teams, s.free, m, f);
      }
    }

    /** The team loop of `replace_apq`: stop at the first team holding a match. */
    static method EditTeamsScan(ts0: seq<Team>, m: Matcher, f: Fields) returns (ts: seq<Team>, found: bool)
      ensures ts == EditTeams(ts0, m, f)
      ensures found <==> FirstMatch(Flatten(ts0), m).Some?
    {
      ts := ts0;
      found := false;
      var k := 0;
      while k < |ts0|
        invariant 0 <= k <= |ts0|
        invariant FirstMatch(Flatten(ts0[..k]), m).None?
      {
        var edited, hit := EditFirst(ts0[k].members, m, f);
        if hit {
          EditTeamsHit(ts0, k, m, f);
          ts := ts0[k := Team(ts0[k].name, edited)];
          found := true;
          break;
        }
        FlattenStep(ts0, k, m);
        k := k + 1;
      }
      if !found {
        assert ts0[..k] == ts0;
        EditTeamsMiss(ts0, m, f);
      }
    }

    /** The member loop of `replace_apq`: rewrite the first match and stop. */
    static method EditFirst(ps0: seq<Player>, m: Matcher, f: Fields) returns (ps: seq<Player>, found: bool)
      ensures ps == EditFirstIn(ps0, m, f)
      ensures found <==> FirstMatch(ps0, m).Some?
    {
      ps := ps0;
      found := false;
      var i := 0;
      while i < |ps0|
        invariant 0 <= i <= |ps0|
        invariant forall j :: 0 <= j < i ==> !Matches(m, ps0[j])
      {
        if Matches(m, ps0[i]) {
          FirstMatchAt(ps0, m, i);
          ps := ps0[i := Edit(ps0[i], f)];
          found := true;
          break;
        }
        i := i + 1;
      }
    }

    /** `delete_apq`. */
    method DeleteApq(uid: string, sender: Option<Sender>, charId: string) returns (o: Outcome)
      modifies this
      ensures Reply(Snapshot(), o) == DeleteStep(old(Snapshot()), adminIds, uid, sender, charId)
    {
      if !HasAdminRights(uid, adminIds, sender) {
        return Forbidden;
      }
      var c := Strip(charId);
      if c == [] {
        return Usage;
      }
      StripIdempotent(charId);
      var l := FindPlayerByCharacterId(c);
      if l.Missing? {
        return CharacterNotFound(c);
      }
      RemoveUserFromAll(l.player.userId);
      return Removed(c, l.player.nickname);
    }

    /** `reset_apq`. */
    method ResetApq(uid: string, sender: Option<Sender>) returns (o: Outcome)
      modifies this
      ensures Reply(Snapshot(), o) == ResetStep(old(Snapshot()), adminIds, uid, sender)
    {
      if !HasAdminRights(uid, adminIds, sender) {
        return Forbidden;
      }
      status, teams, free := Idle, [], [];
      return WasReset;
    }
  }
}
