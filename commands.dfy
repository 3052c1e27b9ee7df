/** The eight chat commands as transitions on the plugin's state: each takes the
    state and the command's inputs and gives the new state and the kind of
    reply. The reply texts are not modelled; a reply is named by its kind and
    carries the values it reports. */
module Commands {
  import opened Text
  import opened Records
  import opened Parse
  import opened Auth
  import opened Roster
  import opened Assign

  /** `total_players`, `br_count` and `gr_count` of the status and finish replies. */
  datatype Stats = Stats(total: nat, brides: nat, grooms: nat)

  datatype Outcome =
    | Usage                                       // a required argument is blank
    | GenderError                                 // the gender word is not one of the four
    | AlreadyRecruiting                           // a session with sign-ups is running
    | Created(player: Player)
    | FormatError                                 // the join line does not match the pattern
    | NoActivity                                  // idle, or nothing signed up
    | Joined(player: Player)
    | Report(stats: Stats)                        // `/APQ查询`
    | Finished(teams: seq<Team>, stats: Stats)    // `/APQ完成`: the final teams
    | Cancelled
    | NotJoined                                   // `/APQ更换` found no record to edit
    | Replaced(fields: Fields)
    | Forbidden                                   // an admin command from a non-admin
    | CharacterNotFound(characterId: string)
    | Removed(characterId: string, nickname: string)
    | WasReset

  /** The state after a command and the reply it gives. */
  datatype Reply = Reply(state: State, outcome: Outcome)

  /** Replies that report a change of state. */
  predicate Changes(o: Outcome) {
    o.Created? || o.Joined? || o.Finished? || o.Cancelled? || o.Replaced? || o.Removed? || o.WasReset?
  }

  /** Every user id on at most one record. */
  predicate UniqueUsers(ps: seq<Player>) {
    forall i, j :: 0 <= i < j < |ps| ==> ps[i].userId != ps[j].userId
  }

  predicate AllCoded(ps: seq<Player>) {
    forall i :: 0 <= i < |ps| ==> IsGenderCode(ps[i].gender)
  }

  predicate TeamsWellSized(ts: seq<Team>) {
    forall k :: 0 <= k < |ts| ==> 1 <= |ts[k].members| <= TEAM_SIZE
  }

  /** What the commands keep true of the state, starting from the default state:
      distinct team names, no empty or oversized team, nothing stored while
      idle, a canonical gender code on every record, and one record per user. */
  predicate Inv(s: State) {
    && DistinctNames(s.teams)
    && TeamsWellSized(s.teams)
    && (s.status == Idle ==> s.teams == [] && s.free == [])
    && AllCoded(AllRecords(s))
    && UniqueUsers(AllRecords(s))
  }

  lemma DefaultInv()
    ensures Inv(Default)
  {
    assert AllRecords(Default) == [];
  }

  // ---------------------------------------------------------------------
  // Lookups and removal on the whole state

  /** `_remove_user_from_all`. */
  function RemoveUserFromAll(s: State, uid: string): (r: State)
    ensures r.status == s.status
  {
    State(s.status, DropUser(s.teams, uid), Without(s.free, uid))
  }

  /** Removal takes exactly the user's records out of the scan order, keeps the
      team names distinct and the teams within size, and leaves everyone else's
      records as they were. */
  lemma RemoveUserFromAllSpec(s: State, uid: string)
    ensures AllRecords(RemoveUserFromAll(s, uid)) == Without(AllRecords(s), uid)
    ensures RecordsOf(AllRecords(RemoveUserFromAll(s, uid)), uid) == []
    ensures forall other :: other != uid ==>
      RecordsOf(AllRecords(RemoveUserFromAll(s, uid)), other) == RecordsOf(AllRecords(s), other)
    ensures DistinctNames(s.teams) ==> DistinctNames(RemoveUserFromAll(s, uid).teams)
    ensures TeamsWellSized(s.teams) ==> TeamsWellSized(RemoveUserFromAll(s, uid).teams)
  {
    DropUserFlatten(s.teams, uid);
    WithoutConcat(Flatten(s.teams), s.free, uid);
    WithoutKeepsOthers(AllRecords(s), uid, uid);
    forall other | other != uid
      ensures RecordsOf(AllRecords(RemoveUserFromAll(s, uid)), other) == RecordsOf(AllRecords(s), other)
    {
      WithoutKeepsOthers(AllRecords(s), uid, other);
    }
    if DistinctNames(s.teams) {
      DropUserKeepsNames(s.teams, uid);
    }
    if TeamsWellSized(s.teams) {
      DropUserKeepsSizes(s.teams, uid);
    }
  }

  /** `_find_user_team`: the first team holding a record of the user, with its
      size; the free pool is not searched. */
  function FindUserTeam(s: State, uid: string): Lookup {
    Locate(s.teams, [], ByUser(uid, false))
  }

  lemma FindUserTeamSpec(s: State, uid: string)
    ensures FindUserTeam(s, uid).Missing? <==>
      forall i :: 0 <= i < |Flatten(s.teams)| ==> Flatten(s.teams)[i].userId != uid
    ensures FindUserTeam(s, uid).Found? ==>
      && FindUserTeam(s, uid).location.InTeam?
      && FindUserTeam(s, uid).player.userId == uid
      && exists k ::
           && 0 <= k < |s.teams|
           && s.teams[k].name == FindUserTeam(s, uid).location.name
           && FindUserTeam(s, uid).player in s.teams[k].members
           && FindUserTeam(s, uid).teamSize == |s.teams[k].members|
           && forall j, i :: 0 <= j < k && 0 <= i < |s.teams[j].members| ==> s.teams[j].members[i].userId != uid
  {
    var m := ByUser(uid, false);
    LocateScanOrder(s.teams, [], m);
    assert Flatten(s.teams) + [] == Flatten(s.teams);
    var l := FindUserTeam(s, uid);
    if l.Found? {
      var k :| && 0 <= k < |s.teams| && s.teams[k].name == l.location.name
               && l.player in s.teams[k].members && l.teamSize == |s.teams[k].members|
               && forall j :: 0 <= j < k ==> FirstMatch(s.teams[j].members, m).None?;
      forall j, i | 0 <= j < k && 0 <= i < |s.teams[j].members| ensures s.teams[j].members[i].userId != uid {
        assert !Matches(m, s.teams[j].members[i]);
      }
    }
  }

  /** The first record in scan order, teams and then free pool, with the
      character id `c`. */
  function FindCharacter(s: State, c: string): Lookup {
    Locate(s.teams, s.free, ByCharacter(c))
  }

  lemma FindCharacterSpec(s: State, c: string)
    ensures FindCharacter(s, c).Missing? <==>
      forall i :: 0 <= i < |AllRecords(s)| ==> AllRecords(s)[i].characterId != c
    ensures FindCharacter(s, c).Found? ==>
      var k := FirstMatch(AllRecords(s), ByCharacter(c)).value;
      && FindCharacter(s, c).player == AllRecords(s)[k]
      && AllRecords(s)[k].characterId == c
      && forall i :: 0 <= i < k ==> AllRecords(s)[i].characterId != c
  {
    var all := AllRecords(s);
    LocateScanOrder(s.teams, s.free, ByCharacter(c));
    var k := FirstMatch(all, ByCharacter(c));
    if k.Some? {
      assert Matches(ByCharacter(c), all[k.value]);
    }
  }

  /** `_find_player_by_character_id`: the id is stripped before the scan, which
      then finds the first record in scan order with the stripped id. */
  function FindPlayerByCharacterId(s: State, charId: string): (r: Lookup)
    ensures r.Missing? <==>
      forall i :: 0 <= i < |AllRecords(s)| ==> AllRecords(s)[i].characterId != Strip(charId)
    ensures r.Found? ==>
      var k := FirstMatch(AllRecords(s), ByCharacter(Strip(charId))).value;
      && r.player == AllRecords(s)[k]
      && r.player.characterId == Strip(charId)
      && forall i :: 0 <= i < k ==> AllRecords(s)[i].characterId != Strip(charId)
  {
    FindCharacterSpec(s, Strip(charId));
    FindCharacter(s, Strip(charId))
  }

  // ---------------------------------------------------------------------
  // Arguments of `/创建APQ` and `/APQ更换`

  /** The checked arguments: a blank argument (after stripping) gives the usage
      reply, a gender word `_parse_gender` rejects gives the gender error. */
  datatype Args = Blank | BadGender | Valid(fields: Fields)

  /** The check on stripped arguments. */
  function ArgsOf(c: string, g: string, j: string): (r: Args)
    ensures r.Blank? <==> c == [] || g == [] || j == []
    ensures r.Valid? <==> c != [] && g != [] && j != [] && ParseGender(g).Some?
    ensures r.Valid? ==> r.fields == Fields(c, ParseGender(g).value, j)
  {
    if c == [] || g == [] || j == [] then Blank
    else
      match ParseGender(g)
      case None => BadGender
      case Some(code) => Valid(Fields(c, code, j))
  }

  function CheckArgs(charId: string, gender: string, job: string): (r: Args)
    ensures r.Valid? ==> IsGenderCode(r.fields.gender)
  {
    ArgsOf(Strip(charId), Strip(gender), Strip(job))
  }

  /** The arguments are valid exactly when the character and job are not blank
      and the gender parses; the fields are then the stripped arguments with the
      canonical code. */
  lemma CheckArgsSpec(charId: string, gender: string, job: string)
    ensures CheckArgs(charId, gender, job).Blank? <==>
      Strip(charId) == [] || Strip(gender) == [] || Strip(job) == []
    ensures CheckArgs(charId, gender, job).Valid? <==>
      Strip(charId) != [] && Strip(job) != [] && ParseGender(gender).Some?
    ensures CheckArgs(charId, gender, job).Valid? ==>
      CheckArgs(charId, gender, job).fields == Fields(Strip(charId), ParseGender(gender).value, Strip(job))
  {
    ParseGenderStrip(gender);
  }

  // ---------------------------------------------------------------------
  // `/创建APQ <角色ID> <性别> <职业>`

  /** `create_apq` once its arguments are checked. */
  function CreateWith(s: State, uid: string, nickname: string, a: Args): (r: Reply)
    ensures !Changes(r.outcome) ==> r.state == s
  {
    match a
    case Blank => Reply(s, Usage)
    case BadGender => Reply(s, GenderError)
    case Valid(f) =>
      if s.status == Recruiting && (s.teams != [] || s.free != []) then Reply(s, AlreadyRecruiting)
      else
        var p := Player(uid, nickname, f.characterId, f.gender, f.job, uid);
        Reply(State(Recruiting, s.teams, s.free + [p]), Created(p))
  }

  function CreateStep(s: State, uid: string, nickname: string, charId: string, gender: string, job: string): (r: Reply)
    ensures !Changes(r.outcome) ==> r.state == s
  {
    CreateWith(s, uid, nickname, CheckArgs(charId, gender, job))
  }

  lemma CreateWithSpec(s: State, uid: string, nickname: string, a: Args)
    ensures CreateWith(s, uid, nickname, a).outcome.Created? <==>
      a.Valid? && !(s.status == Recruiting && (s.teams != [] || s.free != []))
    ensures CreateWith(s, uid, nickname, a).outcome.Created? ==>
      var r := CreateWith(s, uid, nickname, a);
      && r.outcome.player == Player(uid, nickname, a.fields.characterId, a.fields.gender, a.fields.job, uid)
      && r.state == State(Recruiting, s.teams, s.free + [r.outcome.player])
    ensures a.Blank? ==> CreateWith(s, uid, nickname, a) == Reply(s, Usage)
    ensures a.BadGender? ==> CreateWith(s, uid, nickname, a) == Reply(s, GenderError)
    ensures a.Valid? && s.status == Recruiting && (s.teams != [] || s.free != []) ==>
      CreateWith(s, uid, nickname, a) == Reply(s, AlreadyRecruiting)
    ensures Inv(s) && (a.Valid? ==> IsGenderCode(a.fields.gender)) ==> Inv(CreateWith(s, uid, nickname, a).state)
    ensures s.teams == [] ==> CreateWith(s, uid, nickname, a).state.teams == []
  {
    var r := CreateWith(s, uid, nickname, a);
    if Inv(s) && r.outcome.Created? {
      assert s.teams == [] && s.free == [];
      assert AllRecords(r.state) == [r.outcome.player];
    }
  }

  /** A session is created exactly when the three arguments are present, the
      gender parses and no session with sign-ups is running; the creator's
      record, with stripped fields and the canonical code, is appended to the
      free pool and the status becomes recruiting. */
  lemma CreateSpec(s: State, uid: string, nickname: string, charId: string, gender: string, job: string)
    ensures CreateStep(s, uid, nickname, charId, gender, job).outcome.Created? <==>
      && Strip(charId) != [] && Strip(job) != []
      && ParseGender(gender).Some?
      && !(s.status == Recruiting && (s.teams != [] || s.free != []))
    ensures CreateStep(s, uid, nickname, charId, gender, job).outcome.Created? ==>
      var r := CreateStep(s, uid, nickname, charId, gender, job);
      && r.state.status == Recruiting
      && r.state.teams == s.teams
      && r.state.free == s.free + [r.outcome.player]
      && r.outcome.player == Player(uid, nickname, Strip(charId), ParseGender(gender).value, Strip(job), uid)
    ensures Strip(charId) == [] || Strip(gender) == [] || Strip(job) == [] ==>
      CreateStep(s, uid, nickname, charId, gender, job) == Reply(s, Usage)
    ensures Strip(charId) != [] && Strip(gender) != [] && Strip(job) != [] && ParseGender(gender).None? ==>
      CreateStep(s, uid, nickname, charId, gender, job) == Reply(s, GenderError)
    ensures (&& Strip(charId) != [] && Strip(job) != [] && ParseGender(gender).Some?
             && s.status == Recruiting && (s.teams != [] || s.free != [])) ==>
      CreateStep(s, uid, nickname, charId, gender, job) == Reply(s, AlreadyRecruiting)
  {
    CheckArgsSpec(charId, gender, job);
    CreateWithSpec(s, uid, nickname, CheckArgs(charId, gender, job));
  }

  lemma CreateKeepsInv(s: State, uid: string, nickname: string, charId: string, gender: string, job: string)
    requires Inv(s)
    ensures Inv(CreateStep(s, uid, nickname, charId, gender, job).state)
    ensures s.teams == [] ==> CreateStep(s, uid, nickname, charId, gender, job).state.teams == []
  {
    CreateWithSpec(s, uid, nickname, CheckArgs(charId, gender, job));
  }

  // ---------------------------------------------------------------------
  // `/APQ加入 <角色ID> <性别> <职业>`

  /** `join_apq` once the message text is parsed. */
  function JoinWith(s: State, uid: string, nickname: string, parsed: Option<(string, string, string)>): (r: Reply)
    ensures !Changes(r.outcome) ==> r.state == s
  {
    match parsed
    case None => Reply(s, FormatError)
    case Some(fields) =>
      match ParseGender(fields.1)
      case None => Reply(s, GenderError)
      case Some(code) =>
        if s.status == Idle then Reply(s, NoActivity)
        else
          var p := Player(uid, nickname, fields.0, code, fields.2, uid);
          var cleared := RemoveUserFromAll(s, uid);
          Reply(State(cleared.status, cleared.teams, cleared.free + [p]), Joined(p))
  }

  /** `join_apq` on the text of the message. */
  function JoinStep(s: State, uid: string, nickname: string, content: string): (r: Reply)
    ensures !Changes(r.outcome) ==> r.state == s
  {
    JoinWith(s, uid, nickname, ParseJoinCommand(content))
  }

  lemma JoinWithSpec(s: State, uid: string, nickname: string, parsed: Option<(string, string, string)>)
    requires parsed.Some? ==> IsGenderToken(parsed.value.1)
    ensures JoinWith(s, uid, nickname, parsed).outcome != GenderError
    ensures parsed.None? ==> JoinWith(s, uid, nickname, parsed) == Reply(s, FormatError)
    ensures parsed.Some? && s.status == Idle ==> JoinWith(s, uid, nickname, parsed) == Reply(s, NoActivity)
    ensures JoinWith(s, uid, nickname, parsed).outcome.Joined? <==> parsed.Some? && s.status == Recruiting
    ensures JoinWith(s, uid, nickname, parsed).outcome.Joined? ==>
      var r := JoinWith(s, uid, nickname, parsed);
      && r.outcome.player.userId == uid
      && r.outcome.player.characterId == parsed.value.0
      && r.outcome.player.job == parsed.value.2
      && IsGenderCode(r.outcome.player.gender)
      && r.state == State(s.status, RemoveUserFromAll(s, uid).teams, RemoveUserFromAll(s, uid).free + [r.outcome.player])
  {
    JoinWithRefused(s, uid, nickname, parsed);
    if parsed.Some? {
      GenderTokenParses(parsed.value.1);
      if s.status == Recruiting {
        JoinWithJoined(s, uid, nickname, parsed.value, ParseGender(parsed.value.1).value);
      }
    }
  }

  /** An unparsed line, or a join while idle, is refused and changes nothing. */
  lemma JoinWithRefused(s: State, uid: string, nickname: string, parsed: Option<(string, string, string)>)
    ensures parsed.None? ==> JoinWith(s, uid, nickname, parsed) == Reply(s, FormatError)
    ensures parsed.Some? && ParseGender(parsed.value.1).Some? && s.status == Idle ==>
      JoinWith(s, uid, nickname, parsed) == Reply(s, NoActivity)
  {
  }

  /** A parsed line with a known gender during recruiting adds the caller's record. */
  lemma JoinWithJoined(s: State, uid: string, nickname: string, fields: (string, string, string), code: string)
    requires ParseGender(fields.1) == Some(code) && s.status == Recruiting
    ensures
      var r := JoinWith(s, uid, nickname, Some(fields));
      && r.outcome == Joined(Player(uid, nickname, fields.0, code, fields.2, uid))
      && r.state == State(s.status, RemoveUserFromAll(s, uid).teams, RemoveUserFromAll(s, uid).free + [r.outcome.player])
  {
  }

  /** The records after a join: the caller's earlier records are gone, the new
      one is last, and every other user's records are as they were. */
  lemma JoinRecords(s: State, uid: string, p: Player)
    requires p.userId == uid
    ensures
      var s' := State(s.status, RemoveUserFromAll(s, uid).teams, RemoveUserFromAll(s, uid).free + [p]);
      && AllRecords(s') == Without(AllRecords(s), uid) + [p]
      && RecordsOf(AllRecords(s'), uid) == [p]
      && (forall other :: other != uid ==> RecordsOf(AllRecords(s'), other) == RecordsOf(AllRecords(s), other))
      && (Inv(s) && s.status == Recruiting && IsGenderCode(p.gender) ==> Inv(s'))
      && (s.teams == [] ==> s'.teams == [])
  {
    var cleared := RemoveUserFromAll(s, uid);
    var s' := State(s.status, cleared.teams, cleared.free + [p]);
    RemoveUserFromAllSpec(s, uid);
    assert AllRecords(s') == AllRecords(cleared) + [p];
    RecordsOfConcat(AllRecords(cleared), [p], uid);
    forall other | other != uid
      ensures RecordsOf(AllRecords(s'), other) == RecordsOf(AllRecords(s), other)
    {
      RecordsOfConcat(AllRecords(cleared), [p], other);
    }
    if Inv(s) {
      UniqueWithout(AllRecords(s), uid);
      AllCodedWithout(AllRecords(s), uid);
    }
  }

  /** Joining succeeds exactly when the line parses and a session is running;
      the gender error is never the reply. A join replaces all earlier records
      of the same user by one new record at the end of the free pool, and
      leaves every other user's records as they were. */
  lemma JoinSpec(s: State, uid: string, nickname: string, content: string)
    ensures JoinStep(s, uid, nickname, content).outcome != GenderError
    ensures ParseJoinCommand(content).None? ==> JoinStep(s, uid, nickname, content) == Reply(s, FormatError)
    ensures ParseJoinCommand(content).Some? && s.status == Idle ==>
      JoinStep(s, uid, nickname, content) == Reply(s, NoActivity)
    ensures JoinStep(s, uid, nickname, content).outcome.Joined? <==>
      ParseJoinCommand(content).Some? && s.status == Recruiting
    ensures JoinStep(s, uid, nickname, content).outcome.Joined? ==>
      var r := JoinStep(s, uid, nickname, content);
      && AllRecords(r.state) == Without(AllRecords(s), uid) + [r.outcome.player]
      && RecordsOf(AllRecords(r.state), uid) == [r.outcome.player]
      && r.outcome.player.characterId == ParseJoinCommand(content).value.0
      && r.outcome.player.job == ParseJoinCommand(content).value.2
      && IsGenderCode(r.outcome.player.gender)
      && forall other :: other != uid ==> RecordsOf(AllRecords(r.state), other) == RecordsOf(AllRecords(s), other)
  {
    var r := JoinStep(s, uid, nickname, content);
    JoinWithSpec(s, uid, nickname, ParseJoinCommand(content));
    if r.outcome.Joined? {
      JoinRecords(s, uid, r.outcome.player);
    }
  }

  lemma {:induction false} UniqueWithout(ps: seq<Player>, uid: string)
    requires UniqueUsers(ps)
    ensures UniqueUsers(Without(ps, uid))
  {
    if ps != [] {
      UniqueWithout(ps[1..], uid);
      var tail := Without(ps[1..], uid);
      if ps[0].userId != uid {
        forall i | 0 <= i < |tail| ensures tail[i].userId != ps[0].userId {
          assert tail[i] in ps[1..];
          var j :| 0 <= j < |ps[1..]| && ps[1..][j] == tail[i];
          assert ps[j + 1] == tail[i];
        }
        assert Without(ps, uid) == [ps[0]] + tail;
      }
    }
  }

  lemma AllCodedWithout(ps: seq<Player>, uid: string)
    requires AllCoded(ps)
    ensures AllCoded(Without(ps, uid))
  {
    var r := Without(ps, uid);
    forall i | 0 <= i < |r| ensures IsGenderCode(r[i].gender) {
      assert r[i] in ps;
    }
  }

  lemma JoinWithKeepsInv(s: State, uid: string, nickname: string, parsed: Option<(string, string, string)>)
    requires Inv(s)
    requires parsed.Some? ==> IsGenderToken(parsed.value.1)
    ensures Inv(JoinWith(s, uid, nickname, parsed).state)
    ensures s.teams == [] ==> JoinWith(s, uid, nickname, parsed).state.teams == []
  {
    var r := JoinWith(s, uid, nickname, parsed);
    JoinWithSpec(s, uid, nickname, parsed);
    if r.outcome.Joined? {
      JoinRecords(s, uid, r.outcome.player);
    }
  }

  lemma JoinKeepsInv(s: State, uid: string, nickname: string, content: string)
    requires Inv(s)
    ensures Inv(JoinStep(s, uid, nickname, content).state)
    ensures s.teams == [] ==> JoinStep(s, uid, nickname, content).state.teams == []
  {
    JoinWithKeepsInv(s, uid, nickname, ParseJoinCommand(content));
  }

  // ---------------------------------------------------------------------
  // `/APQ查询`

  /** The counts of the status reply, summed team by team and then over the pool. */
  function QueryStats(s: State): Stats {
    Stats(TotalMembers(s.teams) + |s.free|,
      TeamsGenderCount(s.teams, "br") + CountGender(s.free, "br"),
      TeamsGenderCount(s.teams, "gr") + CountGender(s.free, "gr"))
  }

  /** With no empty team stored, the state holds no record exactly when it holds
      no team and an empty pool. */
  lemma NoRecordsIffEmpty(s: State)
    requires TeamsWellSized(s.teams)
    ensures AllRecords(s) == [] <==> s.teams == [] && s.free == []
  {
    if s.teams != [] {
      FlattenConcat([s.teams[0]], s.teams[1..]);
      FlattenSingle(s.teams[0]);
      assert [s.teams[0]] + s.teams[1..] == s.teams;
    }
  }

  /** `query_apq` changes nothing, so it gives only the reply. */
  function Query(s: State): (o: Outcome)
    ensures o.NoActivity? || o.Report?
  {
    if s.teams == [] && s.free == [] then NoActivity else Report(QueryStats(s))
  }

  /** The status reply counts every record once, and the two gender counts add
      up to the total. */
  lemma QuerySpec(s: State)
    requires Inv(s)
    ensures Query(s).NoActivity? <==> AllRecords(s) == []
    ensures Query(s).Report? ==>
      && Query(s).stats.total == |AllRecords(s)|
      && Query(s).stats.brides == CountGender(AllRecords(s), "br")
      && Query(s).stats.grooms == CountGender(AllRecords(s), "gr")
      && Query(s).stats.brides + Query(s).stats.grooms == Query(s).stats.total
  {
    TotalMembersIsFlatLength(s.teams);
    TeamsGenderCountIsFlatCount(s.teams, "br");
    TeamsGenderCountIsFlatCount(s.teams, "gr");
    CountGenderConcat(Flatten(s.teams), s.free, "br");
    CountGenderConcat(Flatten(s.teams), s.free, "gr");
    GenderCountsCover(AllRecords(s));
  }

  // ---------------------------------------------------------------------
  // `/APQ完成`

  /** The counts of the finish reply, over the final teams only. */
  function TeamStats(ts: seq<Team>): Stats {
    Stats(TotalMembers(ts), TeamsGenderCount(ts, "br"), TeamsGenderCount(ts, "gr"))
  }

  /** The final teams of `finish_apq`: the pool is assigned only when it is
      not empty. */
  function FinalTeams(s: State, shuffled: seq<Player>): seq<Team> {
    if s.free != [] then AssignTeams(s.teams, shuffled) else s.teams
  }

  /** `finish_apq`; `shuffled` is the free pool in the order `random.shuffle`
      left it. */
  function FinishStep(s: State, shuffled: seq<Player>): (r: Reply)
    requires multiset(shuffled) == multiset(s.free)
    ensures !Changes(r.outcome) ==> r.state == s
  {
    if s.teams == [] && s.free == [] then Reply(s, NoActivity)
    else
      var ts := FinalTeams(s, shuffled);
      Reply(Default, Finished(ts, TeamStats(ts)))
  }

  /** The final teams hold every signed-up player exactly once, under distinct
      names and within size. From a state without teams the pool is cut in
      shuffled order into one team per started six, all full but the last. */
  lemma FinalTeamsSpec(s: State, shuffled: seq<Player>)
    requires multiset(shuffled) == multiset(s.free)
    requires Inv(s)
    ensures multiset(Flatten(FinalTeams(s, shuffled))) == multiset(AllRecords(s))
    ensures DistinctNames(FinalTeams(s, shuffled))
    ensures TeamsWellSized(FinalTeams(s, shuffled))
    ensures s.teams == [] && s.free != [] ==>
      var ts := FinalTeams(s, shuffled);
      && Flatten(ts) == shuffled
      && |ts| == (|shuffled| + TEAM_SIZE - 1) / TEAM_SIZE
      && forall k :: 0 <= k < |ts| - 1 ==> |ts[k].members| == TEAM_SIZE
  {
    if s.free != [] {
      AssignTeamsSpec(s.teams, shuffled);
      if s.teams == [] {
        AssignFromScratch(shuffled);
      }
    } else {
      assert AllRecords(s) == Flatten(s.teams);
    }
  }

  /** The counts of the finish reply over teams that hold exactly the records `all`. */
  lemma TeamStatsCount(ts: seq<Team>, all: seq<Player>)
    requires multiset(Flatten(ts)) == multiset(all)
    ensures TeamStats(ts) == Stats(|all|, CountGender(all, "br"), CountGender(all, "gr"))
  {
    TotalMembersIsFlatLength(ts);
    TeamsGenderCountIsFlatCount(ts, "br");
    TeamsGenderCountIsFlatCount(ts, "gr");
    CountGenderMultiset(Flatten(ts), all, "br");
    CountGenderMultiset(Flatten(ts), all, "gr");
    assert |Flatten(ts)| == |multiset(Flatten(ts))| == |multiset(all)| == |all|;
  }

  /** Finishing is refused exactly when nothing is signed up, and then changes
      nothing. Otherwise it places every signed-up player on exactly one final
      team, reports counts that match the sign-ups, keeps the team names
      distinct and the teams within size, and clears the state. From a state
      without teams the pool is cut in shuffled order into one team per started
      six, every one of them full but the last. */
  lemma FinishSpec(s: State, shuffled: seq<Player>)
    requires multiset(shuffled) == multiset(s.free)
    requires Inv(s)
    ensures AllRecords(s) == [] ==> FinishStep(s, shuffled) == Reply(s, NoActivity)
    ensures FinishStep(s, shuffled).outcome.Finished? <==> AllRecords(s) != []
    ensures FinishStep(s, shuffled).outcome.Finished? ==>
      var r := FinishStep(s, shuffled);
      var ts := r.outcome.teams;
      && r.state == Default
      && multiset(Flatten(ts)) == multiset(AllRecords(s))
      && r.outcome.stats.total == |AllRecords(s)|
      && r.outcome.stats.brides == CountGender(AllRecords(s), "br")
      && r.outcome.stats.grooms == CountGender(AllRecords(s), "gr")
      && DistinctNames(ts)
      && TeamsWellSized(ts)
      && (s.teams == [] ==>
        && Flatten(ts) == shuffled
        && |ts| == (|shuffled| + TEAM_SIZE - 1) / TEAM_SIZE
        && forall k :: 0 <= k < |ts| - 1 ==> |ts[k].members| == TEAM_SIZE)
  {
    NoRecordsIffEmpty(s);
    if AllRecords(s) != [] {
      var ts := FinalTeams(s, shuffled);
      FinalTeamsSpec(s, shuffled);
      TeamStatsCount(ts, AllRecords(s));
    }
  }

  lemma FinishKeepsInv(s: State, shuffled: seq<Player>)
    requires multiset(shuffled) == multiset(s.free)
    requires Inv(s)
    ensures Inv(FinishStep(s, shuffled).state)
  {
    DefaultInv();
  }

  // ---------------------------------------------------------------------
  // `/APQ取消`

  /** `cancel_apq`: anyone may cancel; the caller's id is read but not used. */
  function CancelStep(s: State, uid: string): (r: Reply)
    ensures !Changes(r.outcome) ==> r.state == s
  {
    if s.teams == [] && s.free == [] then Reply(s, NoActivity) else Reply(Default, Cancelled)
  }

  /** The result of a cancel does not depend on who sends it: with sign-ups
      the state is cleared to the default state, and without any nothing
      changes. */
  lemma CancelByAnyone(s: State, u1: string, u2: string)
    ensures CancelStep(s, u1) == CancelStep(s, u2)
    ensures (s.teams != [] || s.free != []) ==> CancelStep(s, u1) == Reply(Default, Cancelled)
    ensures s.teams == [] && s.free == [] ==> CancelStep(s, u1) == Reply(s, NoActivity)
  {
  }

  // ---------------------------------------------------------------------
  // `/APQ更换 <角色ID> <性别> <职业>`

  /** `replace_apq` once its arguments are checked: a caller edits their own
      first record; an admin edits the first record of all, whoever it
      belongs to. */
  function ReplaceWith(s: State, uid: string, isAdmin: bool, a: Args): (r: Reply)
    ensures !Changes(r.outcome) ==> r.state == s
  {
    match a
    case Blank => Reply(s, Usage)
    case BadGender => Reply(s, GenderError)
    case Valid(f) =>
      var m := ByUser(uid, isAdmin);
      if Locate(s.teams, s.free, m).Missing? then Reply(s, NotJoined)
      else
        var edited := EditRecords(s.teams, s.free, m, f);
        Reply(State(s.status, edited.0, edited.1), Replaced(f))
  }

  function ReplaceStep(s: State, adminIds: seq<string>, uid: string, sender: Option<Sender>,
                       charId: string, gender: string, job: string): (r: Reply)
    ensures !Changes(r.outcome) ==> r.state == s
  {
    ReplaceWith(s, uid, HasAdminRights(uid, adminIds, sender), CheckArgs(charId, gender, job))
  }

  lemma ReplaceWithSpec(s: State, uid: string, isAdmin: bool, f: Fields)
    ensures
      var m := ByUser(uid, isAdmin);
      var r := ReplaceWith(s, uid, isAdmin, Valid(f));
      && (r.outcome.NotJoined? <==> FirstMatch(AllRecords(s), m).None?)
      && (r.outcome.NotJoined? ==> r == Reply(s, NotJoined))
      && (r.outcome.Replaced? <==> FirstMatch(AllRecords(s), m).Some?)
      && (r.outcome.Replaced? ==>
        var k := FirstMatch(AllRecords(s), m).value;
        && r.outcome.fields == f
        && AllRecords(r.state) == AllRecords(s)[k := Edit(AllRecords(s)[k], f)]
        && r.state.status == s.status
        && TeamNames(r.state.teams) == TeamNames(s.teams)
        && |r.state.teams| == |s.teams|
        && (forall j :: 0 <= j < |s.teams| ==> |r.state.teams[j].members| == |s.teams[j].members|))
  {
    var m := ByUser(uid, isAdmin);
    LocateScanOrder(s.teams, s.free, m);
    EditRecordsScanOrder(s.teams, s.free, m, f);
  }

  /** A blank argument gives the usage reply and a bad gender word the gender
      error, and neither changes anything. */
  lemma ReplaceWithArgs(s: State, uid: string, isAdmin: bool, a: Args)
    ensures a.Blank? ==> ReplaceWith(s, uid, isAdmin, a) == Reply(s, Usage)
    ensures a.BadGender? ==> ReplaceWith(s, uid, isAdmin, a) == Reply(s, GenderError)
    ensures ReplaceWith(s, uid, isAdmin, a).outcome.Usage? ==> a.Blank?
  {
  }

  /** With a blank argument or a bad gender word nothing changes; otherwise the
      edit hits exactly the first record in scan order that is the caller's
      (any record, for an admin), rewrites its character, gender and job, and
      changes nothing else; no such record means the not-joined reply. */
  lemma ReplaceSpec(s: State, adminIds: seq<string>, uid: string, sender: Option<Sender>,
                    charId: string, gender: string, job: string)
    ensures ReplaceStep(s, adminIds, uid, sender, charId, gender, job).outcome.Usage? <==>
      Strip(charId) == [] || Strip(gender) == [] || Strip(job) == []
    ensures Strip(charId) == [] || Strip(gender) == [] || Strip(job) == [] ==>
      ReplaceStep(s, adminIds, uid, sender, charId, gender, job) == Reply(s, Usage)
    ensures Strip(charId) != [] && Strip(gender) != [] && Strip(job) != [] && ParseGender(gender).None? ==>
      ReplaceStep(s, adminIds, uid, sender, charId, gender, job) == Reply(s, GenderError)
    ensures Strip(charId) != [] && Strip(job) != [] && ParseGender(gender).Some? ==>
      var m := ByUser(uid, HasAdminRights(uid, adminIds, sender));
      var r := ReplaceStep(s, adminIds, uid, sender, charId, gender, job);
      && (r.outcome.NotJoined? <==> FirstMatch(AllRecords(s), m).None?)
      && (r.outcome.NotJoined? ==> r == Reply(s, NotJoined))
      && (r.outcome.Replaced? <==> FirstMatch(AllRecords(s), m).Some?)
      && (r.outcome.Replaced? ==>
        var k := FirstMatch(AllRecords(s), m).value;
        var f := Fields(Strip(charId), ParseGender(gender).value, Strip(job));
        && r.outcome.fields == f
        && AllRecords(r.state) == AllRecords(s)[k := Edit(AllRecords(s)[k], f)]
        && r.state.status == s.status
        && TeamNames(r.state.teams) == TeamNames(s.teams)
        && |r.state.teams| == |s.teams|
        && (forall j :: 0 <= j < |s.teams| ==> |r.state.teams[j].members| == |s.teams[j].members|))
  {
    CheckArgsSpec(charId, gender, job);
    var a := CheckArgs(charId, gender, job);
    ReplaceWithArgs(s, uid, HasAdminRights(uid, adminIds, sender), a);
    if a.Valid? {
      ReplaceWithSpec(s, uid, HasAdminRights(uid, adminIds, sender), a.fields);
    }
  }

  /** Concretely: with one player signed up, an allow-listed admin who has no
      record of their own rewrites that player's record, while the same command
      from a plain user without a record gets the not-joined reply. */
  lemma AdminReplaceEditsOthers(f: Fields)
    ensures
      var alice := Player("1001", "alice", "hero", "br", "mage", "1001");
      var s := State(Recruiting, [], [alice]);
      && ReplaceWith(s, "42", HasAdminRights("42", ["42"], None), Valid(f))
        == Reply(State(Recruiting, [], [Edit(alice, f)]), Replaced(f))
      && ReplaceWith(s, "42", HasAdminRights("42", [], None), Valid(f)) == Reply(s, NotJoined)
  {
    var alice := Player("1001", "alice", "hero", "br", "mage", "1001");
    var s := State(Recruiting, [], [alice]);
    assert HasAdminRights("42", ["42"], None);
    assert !HasAdminRights("42", [], None);
    assert FirstMatch(s.free, ByUser("42", true)) == Some(0);
    assert FirstMatch(s.free[1..], ByUser("42", false)) == None;
    assert FirstMatch(s.free, ByUser("42", false)) == None;
  }

  lemma {:induction false} UniqueEdit(ps: seq<Player>, m: Matcher, f: Fields)
    requires UniqueUsers(ps) && AllCoded(ps) && IsGenderCode(f.gender)
    ensures UniqueUsers(EditFirstIn(ps, m, f)) && AllCoded(EditFirstIn(ps, m, f))
  {
    EditFirstInChangesOne(ps, m, f);
  }

  lemma ReplaceWithKeepsInv(s: State, uid: string, isAdmin: bool, a: Args)
    requires Inv(s)
    requires a.Valid? ==> IsGenderCode(a.fields.gender)
    ensures Inv(ReplaceWith(s, uid, isAdmin, a).state)
    ensures s.teams == [] ==> ReplaceWith(s, uid, isAdmin, a).state.teams == []
  {
    var r := ReplaceWith(s, uid, isAdmin, a);
    if r.outcome.Replaced? {
      var m := ByUser(uid, isAdmin);
      var f := a.fields;
      EditRecordsScanOrder(s.teams, s.free, m, f);
      UniqueEdit(AllRecords(s), m, f);
      var ts := r.state.teams;
      assert |ts| == |s.teams|;
      forall i, j | 0 <= i < j < |ts| ensures ts[i].name != ts[j].name {
        assert TeamNames(ts)[i] == ts[i].name && TeamNames(ts)[j] == ts[j].name;
      }
      if s.teams == [] {
        assert |ts| == 0;
      }
    }
  }

  lemma ReplaceKeepsInv(s: State, adminIds: seq<string>, uid: string, sender: Option<Sender>,
                        charId: string, gender: string, job: string)
    requires Inv(s)
    ensures Inv(ReplaceStep(s, adminIds, uid, sender, charId, gender, job).state)
    ensures s.teams == [] ==> ReplaceStep(s, adminIds, uid, sender, charId, gender, job).state.teams == []
  {
    ReplaceWithKeepsInv(s, uid, HasAdminRights(uid, adminIds, sender), CheckArgs(charId, gender, job));
  }

  // ---------------------------------------------------------------------
  // `/APQ删除 <角色ID>` and `/APQ重置`

  /** `delete_apq` once the rights are known and the id is stripped: the user
      who owns the first record with that character loses all of their
      records. */
  function DeleteWith(s: State, isAdmin: bool, c: string): (r: Reply)
    ensures !Changes(r.outcome) ==> r.state == s
  {
    if !isAdmin then Reply(s, Forbidden)
    else if c == [] then Reply(s, Usage)
    else
      match FindCharacter(s, c)
      case Missing => Reply(s, CharacterNotFound(c))
      case Found(_, p, _) => Reply(RemoveUserFromAll(s, p.userId), Removed(c, p.nickname))
  }

  /** `delete_apq`: only admins may delete. */
  function DeleteStep(s: State, adminIds: seq<string>, uid: string, sender: Option<Sender>, charId: string): (r: Reply)
    ensures !Changes(r.outcome) ==> r.state == s
  {
    DeleteWith(s, HasAdminRights(uid, adminIds, sender), Strip(charId))
  }

  lemma DeleteWithSpec(s: State, isAdmin: bool, c: string)
    ensures !isAdmin ==> DeleteWith(s, isAdmin, c) == Reply(s, Forbidden)
    ensures isAdmin && c == [] ==> DeleteWith(s, isAdmin, c) == Reply(s, Usage)
    ensures isAdmin ==> (DeleteWith(s, isAdmin, c).outcome.Usage? <==> c == [])
    ensures isAdmin && c != [] ==>
      var r := DeleteWith(s, isAdmin, c);
      && (r.outcome.CharacterNotFound? <==>
        forall i :: 0 <= i < |AllRecords(s)| ==> AllRecords(s)[i].characterId != c)
      && (r.outcome.CharacterNotFound? ==> r == Reply(s, CharacterNotFound(c)))
      && (r.outcome.Removed? <==>
        exists i :: 0 <= i < |AllRecords(s)| && AllRecords(s)[i].characterId == c)
      && (r.outcome.Removed? ==>
        var victim := AllRecords(s)[FirstMatch(AllRecords(s), ByCharacter(c)).value];
        && r.outcome.nickname == victim.nickname
        && r.state == RemoveUserFromAll(s, victim.userId)
        && r.state.status == s.status
        && AllRecords(r.state) == Without(AllRecords(s), victim.userId)
        && RecordsOf(AllRecords(r.state), victim.userId) == []
        && forall other :: other != victim.userId ==>
          RecordsOf(AllRecords(r.state), other) == RecordsOf(AllRecords(s), other))
  {
    if isAdmin && c != [] {
      FindCharacterSpec(s, c);
      var r := DeleteWith(s, isAdmin, c);
      if r.outcome.Removed? {
        RemoveUserFromAllSpec(s, AllRecords(s)[FirstMatch(AllRecords(s), ByCharacter(c)).value].userId);
      }
    }
  }

  /** Only admins change anything by deleting; a character that no record has
      gives the not-found reply; otherwise every record of the user behind the
      first record with that character goes, from the teams and from the pool,
      no other user's record does, and the status is kept. */
  lemma DeleteSpec(s: State, adminIds: seq<string>, uid: string, sender: Option<Sender>, charId: string)
    ensures !HasAdminRights(uid, adminIds, sender) ==>
      DeleteStep(s, adminIds, uid, sender, charId) == Reply(s, Forbidden)
    ensures HasAdminRights(uid, adminIds, sender) && Strip(charId) == [] ==>
      DeleteStep(s, adminIds, uid, sender, charId) == Reply(s, Usage)
    ensures HasAdminRights(uid, adminIds, sender) ==>
      (DeleteStep(s, adminIds, uid, sender, charId).outcome.Usage? <==> Strip(charId) == [])
    ensures HasAdminRights(uid, adminIds, sender) && Strip(charId) != [] ==>
      var r := DeleteStep(s, adminIds, uid, sender, charId);
      && (r.outcome.CharacterNotFound? <==>
        forall i :: 0 <= i < |AllRecords(s)| ==> AllRecords(s)[i].characterId != Strip(charId))
      && (r.outcome.CharacterNotFound? ==> r == Reply(s, CharacterNotFound(Strip(charId))))
      && (r.outcome.Removed? <==>
        exists i :: 0 <= i < |AllRecords(s)| && AllRecords(s)[i].characterId == Strip(charId))
      && (r.outcome.Removed? ==>
        var victim := AllRecords(s)[FirstMatch(AllRecords(s), ByCharacter(Strip(charId))).value];
        && r.outcome.nickname == victim.nickname
        && r.state == RemoveUserFromAll(s, victim.userId)
        && r.state.status == s.status
        && AllRecords(r.state) == Without(AllRecords(s), victim.userId)
        && RecordsOf(AllRecords(r.state), victim.userId) == []
        && forall other :: other != victim.userId ==>
          RecordsOf(AllRecords(r.state), other) == RecordsOf(AllRecords(s), other))
  {
    DeleteWithSpec(s, HasAdminRights(uid, adminIds, sender), Strip(charId));
  }

  lemma DeleteWithKeepsInv(s: State, isAdmin: bool, c: string)
    requires Inv(s)
    ensures Inv(DeleteWith(s, isAdmin, c).state)
    ensures s.teams == [] ==> DeleteWith(s, isAdmin, c).state.teams == []
  {
    var r := DeleteWith(s, isAdmin, c);
    if r.outcome.Removed? {
      var l := FindCharacter(s, c);
      RemoveUserFromAllSpec(s, l.player.userId);
      UniqueWithout(AllRecords(s), l.player.userId);
      AllCodedWithout(AllRecords(s), l.player.userId);
    }
  }

  lemma DeleteKeepsInv(s: State, adminIds: seq<string>, uid: string, sender: Option<Sender>, charId: string)
    requires Inv(s)
    ensures Inv(DeleteStep(s, adminIds, uid, sender, charId).state)
    ensures s.teams == [] ==> DeleteStep(s, adminIds, uid, sender, charId).state.teams == []
  {
    DeleteWithKeepsInv(s, HasAdminRights(uid, adminIds, sender), Strip(charId));
  }

  /** `reset_apq`. */
  function ResetStep(s: State, adminIds: seq<string>, uid: string, sender: Option<Sender>): (r: Reply)
    ensures !Changes(r.outcome) ==> r.state == s
  {
    if !HasAdminRights(uid, adminIds, sender) then Reply(s, Forbidden) else Reply(Default, WasReset)
  }

  /** A reset by someone without admin rights is refused and changes nothing;
      an admin's reset always ends in the default state. */
  lemma ResetSpec(s: State, adminIds: seq<string>, uid: string, sender: Option<Sender>)
    ensures !HasAdminRights(uid, adminIds, sender) ==> ResetStep(s, adminIds, uid, sender) == Reply(s, Forbidden)
    ensures HasAdminRights(uid, adminIds, sender) ==> ResetStep(s, adminIds, uid, sender) == Reply(Default, WasReset)
  {
  }

  lemma ResetKeepsInv(s: State, adminIds: seq<string>, uid: string, sender: Option<Sender>)
    requires Inv(s)
    ensures Inv(ResetStep(s, adminIds, uid, sender).state)
  {
    DefaultInv();
  }

  // ---------------------------------------------------------------------
  // Teams exist only inside `/APQ完成`

  /** No command but finish creates a team, and finish clears the state, so
      from the default state the stored `teams` dictionary stays empty. */
  lemma NoStoredTeams(s: State, adminIds: seq<string>, uid: string, nickname: string, sender: Option<Sender>,
                      a: string, b: string, c: string, shuffled: seq<Player>)
    requires Inv(s) && s.teams == []
    requires multiset(shuffled) == multiset(s.free)
    ensures CreateStep(s, uid, nickname, a, b, c).state.teams == []
    ensures JoinStep(s, uid, nickname, a).state.teams == []
    ensures FinishStep(s, shuffled).state.teams == []
    ensures CancelStep(s, uid).state.teams == []
    ensures ReplaceStep(s, adminIds, uid, sender, a, b, c).state.teams == []
    ensures DeleteStep(s, adminIds, uid, sender, a).state.teams == []
    ensures ResetStep(s, adminIds, uid, sender).state.teams == []
  {
    CreateKeepsInv(s, uid, nickname, a, b, c);
    JoinKeepsInv(s, uid, nickname, a);
    ReplaceKeepsInv(s, adminIds, uid, sender, a, b, c);
    DeleteKeepsInv(s, adminIds, uid, sender, a);
  }
}
