/** The team assignment of `_assign_free` as functions on values: topping up
    the existing teams from the shuffled pool, then opening new teams named
    "队伍<n>" for the rest. The shuffle itself is an input (see the README). */
module Assign {
  import opened Text
  import opened Records
  import opened Seqs

  function Min(a: nat, b: nat): (r: nat)
    ensures r <= a && r <= b && (r == a || r == b)
  {
    if a <= b then a else b
  }

  /** Free places left in a team; an oversized team has none. */
  function Room(t: Team): (r: nat)
    ensures |t.members| + r == TEAM_SIZE || (r == 0 && |t.members| >= TEAM_SIZE)
  {
    if |t.members| < TEAM_SIZE then TEAM_SIZE - |t.members| else 0
  }

  /** The first loop of `_assign_free`: team after team in dictionary order,
      move players from the front of the pool into the team until it is full
      or the pool is empty; stop once the pool is empty. */
  function TopUp(ts: seq<Team>, pool: seq<Player>): (r: seq<Team>)
    ensures |r| == |ts|
    decreases |ts|
  {
    if ts == [] || pool == [] then ts
    else
      var k := Min(Room(ts[0]), |pool|);
      [Team(ts[0].name, ts[0].members + pool[..k])] + TopUp(ts[1..], pool[k..])
  }

  /** What is left of the pool after `TopUp`. */
  function Leftover(ts: seq<Team>, pool: seq<Player>): (r: seq<Player>)
    ensures |r| <= |pool|
    decreases |ts|
  {
    if ts == [] || pool == [] then pool
    else
      var k := Min(Room(ts[0]), |pool|);
      Leftover(ts[1..], pool[k..])
  }

  /** One step of `TopUp` and `Leftover`: the first team takes what fits. */
  lemma TopUpFront(ts: seq<Team>, pool: seq<Player>)
    requires ts != [] && pool != []
    ensures
      var n := Min(Room(ts[0]), |pool|);
      && TopUp(ts, pool) == [Team(ts[0].name, ts[0].members + pool[..n])] + TopUp(ts[1..], pool[n..])
      && Leftover(ts, pool) == Leftover(ts[1..], pool[n..])
  {
  }

  /** The players appended to each team, team after team. */
  function Added(ts: seq<Team>, us: seq<Team>): seq<Player>
    requires |us| == |ts|
  {
    if ts == [] then []
    else
      (if |ts[0].members| <= |us[0].members| then us[0].members[|ts[0].members|..] else [])
      + Added(ts[1..], us[1..])
  }

  lemma {:induction false} AddedSelf(ts: seq<Team>)
    ensures Added(ts, ts) == []
  {
    if ts != [] {
      AddedSelf(ts[1..]);
    }
  }

  /** Topping up keeps every team's name and old members, in order. */
  lemma {:induction false} TopUpKeepsTeams(ts: seq<Team>, pool: seq<Player>)
    ensures forall k :: 0 <= k < |ts| ==>
      && TopUp(ts, pool)[k].name == ts[k].name
      && |ts[k].members| <= |TopUp(ts, pool)[k].members|
      && TopUp(ts, pool)[k].members[..|ts[k].members|] == ts[k].members
    decreases |ts|
  {
    if ts != [] && pool != [] {
      var k := Min(Room(ts[0]), |pool|);
      var rest := TopUp(ts[1..], pool[k..]);
      TopUpKeepsTeams(ts[1..], pool[k..]);
      var r := TopUp(ts, pool);
      forall j | 0 <= j < |ts|
        ensures r[j].name == ts[j].name && |ts[j].members| <= |r[j].members|
          && r[j].members[..|ts[j].members|] == ts[j].members
      {
        if j == 0 {
          assert r[0].members == ts[0].members + pool[..k];
        } else {
          assert r[j] == rest[j - 1] && ts[j] == ts[1..][j - 1];
        }
      }
    }
  }

  /** The front of the pool goes to the teams in dictionary order and the
      rest is left over. */
  lemma {:induction false} TopUpTakesInOrder(ts: seq<Team>, pool: seq<Player>)
    ensures Added(ts, TopUp(ts, pool)) + Leftover(ts, pool) == pool
    decreases |ts|
  {
    if ts == [] {
    } else if pool == [] {
      AddedSelf(ts);
    } else {
      var k := Min(Room(ts[0]), |pool|);
      var rest := TopUp(ts[1..], pool[k..]);
      var head := Team(ts[0].name, ts[0].members + pool[..k]);
      TopUpFront(ts, pool);
      TopUpTakesInOrder(ts[1..], pool[k..]);
      var r := [head] + rest;
      assert r[0] == head && r[1..] == rest;
      assert head.members[|ts[0].members|..] == pool[..k];
      var added := Added(ts[1..], rest);
      var left := Leftover(ts[1..], pool[k..]);
      assert Added(ts, r) == pool[..k] + added;
      Assoc(pool[..k], added, left);
      SplitAt(pool, k);
    }
  }

  /** Topping up never loses or invents a player. */
  lemma {:induction false} TopUpPreservesPlayers(ts: seq<Team>, pool: seq<Player>)
    ensures multiset(Flatten(TopUp(ts, pool))) + multiset(Leftover(ts, pool))
      == multiset(Flatten(ts)) + multiset(pool)
    decreases |ts|
  {
    if ts != [] && pool != [] {
      var k := Min(Room(ts[0]), |pool|);
      var rest := TopUp(ts[1..], pool[k..]);
      TopUpPreservesPlayers(ts[1..], pool[k..]);
      var left := Leftover(ts[1..], pool[k..]);
      var head := Team(ts[0].name, ts[0].members + pool[..k]);
      TopUpFront(ts, pool);
      assert ([head] + rest)[0] == head && ([head] + rest)[1..] == rest;
      SplitAt(pool, k);
      calc {
        multiset(Flatten(TopUp(ts, pool))) + multiset(Leftover(ts, pool));
        multiset(ts[0].members + pool[..k] + Flatten(rest)) + multiset(left);
        multiset(ts[0].members) + multiset(pool[..k]) + (multiset(Flatten(rest)) + multiset(left));
        multiset(ts[0].members) + multiset(pool[..k]) + (multiset(Flatten(ts[1..])) + multiset(pool[k..]));
        multiset(ts[0].members + Flatten(ts[1..])) + multiset(pool[..k] + pool[k..]);
      }
    }
  }

  /** A team is only topped up once every team before it is full, and if
      players are left over then every team is full. */
  lemma {:induction false} TopUpFillsGreedily(ts: seq<Team>, pool: seq<Player>)
    ensures Leftover(ts, pool) != [] ==> forall k :: 0 <= k < |ts| ==> |TopUp(ts, pool)[k].members| >= TEAM_SIZE
    ensures forall j, k :: 0 <= j < k < |ts| && TopUp(ts, pool)[k] != ts[k] ==>
      |TopUp(ts, pool)[j].members| >= TEAM_SIZE
    decreases |ts|
  {
    var r := TopUp(ts, pool);
    if ts != [] && pool != [] {
      var k := Min(Room(ts[0]), |pool|);
      var rest := TopUp(ts[1..], pool[k..]);
      TopUpFillsGreedily(ts[1..], pool[k..]);
      assert r[1..] == rest;
      forall j, i | 0 <= j < i < |ts| && r[i] != ts[i]
        ensures |r[j].members| >= TEAM_SIZE
      {
        assert r[i] == rest[i - 1] && ts[i] == ts[1..][i - 1];
        if j > 0 {
          assert r[j] == rest[j - 1];
        }
      }
      if Leftover(ts, pool) != [] {
        forall i | 0 <= i < |ts| ensures |r[i].members| >= TEAM_SIZE {
          if i > 0 {
            assert r[i] == rest[i - 1];
          }
        }
      }
    }
  }

  /** Topping up leaves full (or oversized) teams alone, and fills no team
      beyond `TEAM_SIZE`. */
  lemma {:induction false} TopUpRespectsSize(ts: seq<Team>, pool: seq<Player>)
    ensures forall k :: 0 <= k < |ts| && |ts[k].members| >= TEAM_SIZE ==> TopUp(ts, pool)[k] == ts[k]
    ensures forall k :: 0 <= k < |ts| && |ts[k].members| <= TEAM_SIZE ==> |TopUp(ts, pool)[k].members| <= TEAM_SIZE
    decreases |ts|
  {
    var r := TopUp(ts, pool);
    if ts != [] && pool != [] {
      var k := Min(Room(ts[0]), |pool|);
      var rest := TopUp(ts[1..], pool[k..]);
      TopUpRespectsSize(ts[1..], pool[k..]);
      assert |ts[0].members| >= TEAM_SIZE ==> pool[..k] == [] && r[0] == ts[0];
      forall i | 0 < i < |ts| ensures r[i] == rest[i - 1] && ts[i] == ts[1..][i - 1] {
      }
    }
  }

  /** `f"队伍{idx}"`. */
  function TeamName(n: nat): (r: string)
    ensures |r| == 2 + |NatToString(n)|
  {
    "队伍" + NatToString(n)
  }

  /** The length of the longest name. */
  function MaxLen(names: seq<string>): (r: nat)
    ensures forall i :: 0 <= i < |names| ==> |names[i]| <= r
  {
    if names == [] then 0
    else
      var m := MaxLen(names[1..]);
      assert forall i :: 1 <= i < |names| ==> names[i] == names[1..][i - 1];
      if |names[0]| > m then |names[0]| else m
  }

  /** A number with more digits than the longest name gives a name
      that is not taken. */
  lemma TeamNameUnused(names: seq<string>, n: nat)
    requires Pow10(MaxLen(names)) <= n
    ensures TeamName(n) !in names
  {
    NatToStringLength(n, MaxLen(names));
  }

  /** The inner `while team_name in teams: idx += 1` loop: the first index from
      `idx` on whose name is not taken. */
  function FreshIndex(names: seq<string>, idx: nat): (r: nat)
    ensures idx <= r && TeamName(r) !in names
    ensures forall j :: idx <= j < r ==> TeamName(j) in names
    decreases Pow10(MaxLen(names)) - idx
  {
    if TeamName(idx) !in names then idx
    else
      assert idx < Pow10(MaxLen(names)) by {
        if Pow10(MaxLen(names)) <= idx {
          TeamNameUnused(names, idx);
        }
      }
      FreshIndex(names, idx + 1)
  }

  /** The second loop of `_assign_free`: while players are left, open a team
      under the next free "队伍<n>" name with the next `TEAM_SIZE` of them.
      The search for a name continues from the index last used. */
  function NewTeams(ts: seq<Team>, pool: seq<Player>, idx: nat): (r: seq<Team>)
    ensures |r| >= |ts| && r[..|ts|] == ts
    decreases |pool|
  {
    if pool == [] then ts
    else
      var n := Min(TEAM_SIZE, |pool|);
      var i := FreshIndex(TeamNames(ts), idx);
      var r := NewTeams(ts + [Team(TeamName(i), pool[..n])], pool[n..], i);
      assert r[..|ts|] == r[..|ts| + 1][..|ts|];
      r
  }

  /** The new teams hold the rest of the pool, in pool order. */
  lemma {:induction false} NewTeamsMembers(ts: seq<Team>, pool: seq<Player>, idx: nat)
    ensures Flatten(NewTeams(ts, pool, idx)) == Flatten(ts) + pool
    decreases |pool|
  {
    if pool == [] {
      assert Flatten(ts) + pool == Flatten(ts);
    } else {
      var n := Min(TEAM_SIZE, |pool|);
      var i := FreshIndex(TeamNames(ts), idx);
      var t := Team(TeamName(i), pool[..n]);
      assert NewTeams(ts, pool, idx) == NewTeams(ts + [t], pool[n..], i);
      NewTeamsMembers(ts + [t], pool[n..], i);
      FlattenConcat(ts, [t]);
      FlattenSingle(t);
      SplitAt(pool, n);
      Assoc(Flatten(ts), pool[..n], pool[n..]);
    }
  }

  /** One new team per started block of `TEAM_SIZE` players. */
  lemma {:induction false} NewTeamsCount(ts: seq<Team>, pool: seq<Player>, idx: nat)
    ensures |NewTeams(ts, pool, idx)| == |ts| + (|pool| + TEAM_SIZE - 1) / TEAM_SIZE
    decreases |pool|
  {
    if pool != [] {
      var n := Min(TEAM_SIZE, |pool|);
      var i := FreshIndex(TeamNames(ts), idx);
      NewTeamsCount(ts + [Team(TeamName(i), pool[..n])], pool[n..], i);
    }
  }

  /** Every new team has between 1 and `TEAM_SIZE` players, and all but the
      last are full. */
  lemma {:induction false} NewTeamsSizes(ts: seq<Team>, pool: seq<Player>, idx: nat)
    ensures forall k :: |ts| <= k < |NewTeams(ts, pool, idx)| ==>
      1 <= |NewTeams(ts, pool, idx)[k].members| <= TEAM_SIZE
    ensures forall k :: |ts| <= k < |NewTeams(ts, pool, idx)| - 1 ==>
      |NewTeams(ts, pool, idx)[k].members| == TEAM_SIZE
    decreases |pool|
  {
    if pool != [] {
      var n := Min(TEAM_SIZE, |pool|);
      var i := FreshIndex(TeamNames(ts), idx);
      var ts' := ts + [Team(TeamName(i), pool[..n])];
      var r := NewTeams(ts', pool[n..], i);
      assert NewTeams(ts, pool, idx) == r;
      NewTeamsSizes(ts', pool[n..], i);
      assert r[|ts|] == r[..|ts'|][|ts|] == ts'[|ts|];
      forall k | |ts| <= k < |r| - 1 ensures |r[k].members| == TEAM_SIZE {
        if k == |ts| {
          assert pool[n..] != [];
        }
      }
    }
  }

  /** The name chosen for each new team is not yet taken, so the team names
      stay distinct. */
  lemma {:induction false} NewTeamsNames(ts: seq<Team>, pool: seq<Player>, idx: nat)
    requires DistinctNames(ts)
    ensures DistinctNames(NewTeams(ts, pool, idx))
    decreases |pool|
  {
    if pool != [] {
      var n := Min(TEAM_SIZE, |pool|);
      var i := FreshIndex(TeamNames(ts), idx);
      var ts' := ts + [Team(TeamName(i), pool[..n])];
      forall a, b | 0 <= a < b < |ts'| ensures ts'[a].name != ts'[b].name {
        if b == |ts| {
          assert ts'[a].name == TeamNames(ts)[a];
        }
      }
      NewTeamsNames(ts', pool[n..], i);
    }
  }

  /** `_assign_free` on the state's teams and the shuffled pool. */
  function AssignTeams(ts: seq<Team>, shuffled: seq<Player>): seq<Team> {
    NewTeams(TopUp(ts, shuffled), Leftover(ts, shuffled), 1)
  }

  /** The existing teams stay in front, under their names, with their old
      members first; new teams are opened only once each of them is full. */
  lemma AssignKeepsOld(ts: seq<Team>, shuffled: seq<Player>)
    ensures |AssignTeams(ts, shuffled)| >= |ts|
    ensures forall k :: 0 <= k < |ts| ==>
      && AssignTeams(ts, shuffled)[k].name == ts[k].name
      && |ts[k].members| <= |AssignTeams(ts, shuffled)[k].members|
      && AssignTeams(ts, shuffled)[k].members[..|ts[k].members|] == ts[k].members
    ensures |AssignTeams(ts, shuffled)| > |ts| ==>
      forall k :: 0 <= k < |ts| ==> |AssignTeams(ts, shuffled)[k].members| >= TEAM_SIZE
  {
    var t := TopUp(ts, shuffled);
    var rest := Leftover(ts, shuffled);
    var r := AssignTeams(ts, shuffled);
    TopUpKeepsTeams(ts, shuffled);
    TopUpFillsGreedily(ts, shuffled);
    assert forall k :: 0 <= k < |ts| ==> r[k] == r[..|ts|][k] == t[k];
    if |r| > |ts| {
      assert rest != [];
    }
  }

  /** The teams opened by the assignment hold 1 to `TEAM_SIZE` players, and all
      but the last hold exactly `TEAM_SIZE`. */
  lemma AssignNewSizes(ts: seq<Team>, shuffled: seq<Player>)
    ensures forall k :: |ts| <= k < |AssignTeams(ts, shuffled)| ==>
      1 <= |AssignTeams(ts, shuffled)[k].members| <= TEAM_SIZE
    ensures forall k :: |ts| <= k < |AssignTeams(ts, shuffled)| - 1 ==>
      |AssignTeams(ts, shuffled)[k].members| == TEAM_SIZE
  {
    NewTeamsSizes(TopUp(ts, shuffled), Leftover(ts, shuffled), 1);
  }

  /** Every team, old or new, is within `TEAM_SIZE` when the old ones were. */
  lemma AssignWellSized(ts: seq<Team>, shuffled: seq<Player>)
    requires forall k :: 0 <= k < |ts| ==> 1 <= |ts[k].members| <= TEAM_SIZE
    ensures forall k :: 0 <= k < |AssignTeams(ts, shuffled)| ==> 1 <= |AssignTeams(ts, shuffled)[k].members| <= TEAM_SIZE
  {
    var t := TopUp(ts, shuffled);
    var r := AssignTeams(ts, shuffled);
    TopUpKeepsTeams(ts, shuffled);
    TopUpRespectsSize(ts, shuffled);
    AssignNewSizes(ts, shuffled);
    assert forall k :: 0 <= k < |ts| ==> r[k] == r[..|ts|][k] == t[k];
  }

  /** Assignment neither loses nor invents a player. */
  lemma AssignPlayers(ts: seq<Team>, shuffled: seq<Player>)
    ensures multiset(Flatten(AssignTeams(ts, shuffled))) == multiset(Flatten(ts)) + multiset(shuffled)
  {
    TopUpPreservesPlayers(ts, shuffled);
    NewTeamsMembers(TopUp(ts, shuffled), Leftover(ts, shuffled), 1);
  }

  /** Assignment keeps the team names distinct. */
  lemma AssignNames(ts: seq<Team>, shuffled: seq<Player>)
    requires DistinctNames(ts)
    ensures DistinctNames(AssignTeams(ts, shuffled))
  {
    var t := TopUp(ts, shuffled);
    TopUpKeepsTeams(ts, shuffled);
    assert DistinctNames(t) by {
      forall a, b | 0 <= a < b < |t| ensures t[a].name != t[b].name {
        assert t[a].name == ts[a].name && t[b].name == ts[b].name;
      }
    }
    NewTeamsNames(t, Leftover(ts, shuffled), 1);
  }

  /** Assignment keeps every existing team, its name and its old members in
      place, places every player of the pool exactly once, keeps the names
      distinct and the teams within `TEAM_SIZE`, opens new teams only after
      every existing team is full, and fills every new team but the last. */
  lemma AssignTeamsSpec(ts: seq<Team>, shuffled: seq<Player>)
    ensures |AssignTeams(ts, shuffled)| >= |ts|
    ensures forall k :: 0 <= k < |ts| ==>
      && AssignTeams(ts, shuffled)[k].name == ts[k].name
      && |ts[k].members| <= |AssignTeams(ts, shuffled)[k].members|
      && AssignTeams(ts, shuffled)[k].members[..|ts[k].members|] == ts[k].members
    ensures multiset(Flatten(AssignTeams(ts, shuffled))) == multiset(Flatten(ts)) + multiset(shuffled)
    ensures DistinctNames(ts) ==> DistinctNames(AssignTeams(ts, shuffled))
    ensures (forall k :: 0 <= k < |ts| ==> 1 <= |ts[k].members| <= TEAM_SIZE) ==>
      forall k :: 0 <= k < |AssignTeams(ts, shuffled)| ==> 1 <= |AssignTeams(ts, shuffled)[k].members| <= TEAM_SIZE
    ensures |AssignTeams(ts, shuffled)| > |ts| ==>
      forall k :: 0 <= k < |ts| ==> |AssignTeams(ts, shuffled)[k].members| >= TEAM_SIZE
    ensures forall k :: |ts| <= k < |AssignTeams(ts, shuffled)| ==>
      1 <= |AssignTeams(ts, shuffled)[k].members| <= TEAM_SIZE
    ensures forall k :: |ts| <= k < |AssignTeams(ts, shuffled)| - 1 ==>
      |AssignTeams(ts, shuffled)[k].members| == TEAM_SIZE
  {
    AssignKeepsOld(ts, shuffled);
    AssignNewSizes(ts, shuffled);
    AssignPlayers(ts, shuffled);
    if DistinctNames(ts) {
      AssignNames(ts, shuffled);
    }
    if forall k :: 0 <= k < |ts| ==> 1 <= |ts[k].members| <= TEAM_SIZE {
      AssignWellSized(ts, shuffled);
    }
  }

  /** With no existing teams (the case in every reachable state) the pool is cut
      into consecutive teams in shuffled order, one per started block of
      `TEAM_SIZE`. */
  lemma AssignFromScratch(shuffled: seq<Player>)
    ensures Flatten(AssignTeams([], shuffled)) == shuffled
    ensures |AssignTeams([], shuffled)| == (|shuffled| + TEAM_SIZE - 1) / TEAM_SIZE
    ensures forall k :: 0 <= k < |AssignTeams([], shuffled)| ==>
      1 <= |AssignTeams([], shuffled)[k].members| <= TEAM_SIZE
    ensures forall k :: 0 <= k < |AssignTeams([], shuffled)| - 1 ==>
      |AssignTeams([], shuffled)[k].members| == TEAM_SIZE
  {
    NewTeamsMembers([], shuffled, 1);
    NewTeamsCount([], shuffled, 1);
    NewTeamsSizes([], shuffled, 1);
  }
}
