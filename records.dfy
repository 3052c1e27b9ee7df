/** The plugin's state: the session status, an insertion-ordered map from team
    name to the team's player records, and the free sign-up pool. */
module Records {

  /** Players per team (`APQPlugin.TEAM_SIZE`). */
  const TEAM_SIZE: nat := 6

  /** One sign-up record. `qqNumber` is a copy of `userId` kept for storage. */
  datatype Player = Player(
    userId: string,
    nickname: string,
    characterId: string,
    gender: string,
    job: string,
    qqNumber: string)

  /** One entry of the `teams` dictionary. */
  datatype Team = Team(name: string, members: seq<Player>)

  datatype Status = Idle | Recruiting

  /** The whole `self.state` dictionary; `teams` keeps the dictionary's insertion
      order, and its names are the dictionary's keys. */
  datatype State = State(status: Status, teams: seq<Team>, free: seq<Player>)

  /** `{"status": "idle", "teams": {}, "free": []}`. */
  const Default: State := State(Idle, [], [])

  /** The two canonical gender codes a record is stored with. */
  predicate IsGenderCode(g: string) {
    g == "br" || g == "gr"
  }

  function TeamNames(ts: seq<Team>): (r: seq<string>)
    ensures |r| == |ts| && forall k :: 0 <= k < |ts| ==> r[k] == ts[k].name
  {
    if ts == [] then [] else [ts[0].name] + TeamNames(ts[1..])
  }

  /** Dictionary keys are unique. */
  predicate DistinctNames(ts: seq<Team>) {
    forall i, j :: 0 <= i < j < |ts| ==> ts[i].name != ts[j].name
  }

  /** The members of every team, team after team, in dictionary order. */
  function Flatten(ts: seq<Team>): seq<Player> {
    if ts == [] then [] else ts[0].members + Flatten(ts[1..])
  }

  /** Every record of the state in the order the plugin scans them:
      the teams in order, then the free pool. */
  function AllRecords(s: State): seq<Player> {
    Flatten(s.teams) + s.free
  }

  lemma FlattenSingle(t: Team)
    ensures Flatten([t]) == t.members
  {
    assert [t][1..] == [];
  }

  lemma {:induction false} FlattenConcat(a: seq<Team>, b: seq<Team>)
    ensures Flatten(a + b) == Flatten(a) + Flatten(b)
    decreases |a|
  {
    if a == [] {
      assert a + b == b;
    } else {
      assert (a + b)[1..] == a[1..] + b;
      FlattenConcat(a[1..], b);
    }
  }

  /** `sum(len(m) for m in teams.values())`. */
  function TotalMembers(ts: seq<Team>): nat {
    if ts == [] then 0 else |ts[0].members| + TotalMembers(ts[1..])
  }

  /** The summed team sizes count every team member exactly once. */
  lemma {:induction false} TotalMembersIsFlatLength(ts: seq<Team>)
    ensures TotalMembers(ts) == |Flatten(ts)|
  {
    if ts != [] {
      TotalMembersIsFlatLength(ts[1..]);
    }
  }

  /** `sum(1 for p in ps if p.get("gender") == g)`. */
  function CountGender(ps: seq<Player>, g: string): (n: nat)
    ensures n <= |ps|
  {
    if ps == [] then 0 else (if ps[0].gender == g then 1 else 0) + CountGender(ps[1..], g)
  }

  /** `sum(1 for m in teams.values() for p in m if p.get("gender") == g)`. */
  function TeamsGenderCount(ts: seq<Team>, g: string): nat {
    if ts == [] then 0 else CountGender(ts[0].members, g) + TeamsGenderCount(ts[1..], g)
  }

  lemma {:induction false} CountGenderConcat(a: seq<Player>, b: seq<Player>, g: string)
    ensures CountGender(a + b, g) == CountGender(a, g) + CountGender(b, g)
    decreases |a|
  {
    if a == [] {
      assert a + b == b;
    } else {
      assert (a + b)[1..] == a[1..] + b;
      CountGenderConcat(a[1..], b, g);
    }
  }

  /** The nested count over the teams equals the count over the flattened teams. */
  lemma {:induction false} TeamsGenderCountIsFlatCount(ts: seq<Team>, g: string)
    ensures TeamsGenderCount(ts, g) == CountGender(Flatten(ts), g)
  {
    if ts != [] {
      TeamsGenderCountIsFlatCount(ts[1..], g);
      CountGenderConcat(ts[0].members, Flatten(ts[1..]), g);
    }
  }

  /** The gender count depends only on the multiset of records. */
  lemma {:induction false} CountGenderMultiset(a: seq<Player>, b: seq<Player>, g: string)
    requires multiset(a) == multiset(b)
    ensures CountGender(a, g) == CountGender(b, g)
    decreases |a|
  {
    if a != [] {
      var x := a[0];
      assert x in multiset(b);
      var k :| 0 <= k < |b| && b[k] == x;
      var b' := b[..k] + b[k + 1..];
      assert b == b[..k] + [x] + b[k + 1..];
      assert a == [x] + a[1..];
      assert multiset(b) == multiset(b[..k]) + multiset{x} + multiset(b[k + 1..]);
      assert multiset(b') == multiset(b[..k]) + multiset(b[k + 1..]);
      assert multiset(a) == multiset{x} + multiset(a[1..]);
      assert multiset(a[1..]) == multiset(a) - multiset{x};
      assert multiset(b') == multiset(b) - multiset{x};
      CountGenderMultiset(a[1..], b', g);
      CountGenderConcat(b[..k] + [x], b[k + 1..], g);
      CountGenderConcat(b[..k], [x], g);
      CountGenderConcat(b[..k], b[k + 1..], g);
    } else {
      assert |b| == |multiset(b)| == 0;
    }
  }

  /** When every record carries a canonical code, the two counts add up to the total. */
  lemma {:induction false} GenderCountsCover(ps: seq<Player>)
    requires forall i :: 0 <= i < |ps| ==> IsGenderCode(ps[i].gender)
    ensures CountGender(ps, "br") + CountGender(ps, "gr") == |ps|
  {
    if ps != [] {
      GenderCountsCover(ps[1..]);
    }
  }
}
