/** The roster as a value: the two maps manager/TeamManager.java keeps in step (`teams`,
    reduced here to each team's member set, and `playerTeams`), the changes its methods make to
    them, and the facts those changes preserve. The TeamManager class is proved against these
    functions. */
module Rosters {
  import opened Wrappers
  import opened Players
  import opened Collections

  datatype Roster = Roster(teams: map<string, set<Uuid>>, playerTeams: map<Uuid, string>)

  /** The roster invariant: playerTeams[p] == n exactly when p is a member of team n, so a
      player is in at most one team. */
  predicate Consistent(r: Roster)
  {
    && (forall p | p in r.playerTeams :: r.playerTeams[p] in r.teams && p in r.teams[r.playerTeams[p]])
    && (forall n, p | n in r.teams && p in r.teams[n] :: p in r.playerTeams && r.playerTeams[p] == n)
  }

  /** A team is full when there is a limit (maxMembers > 0) and it is reached. */
  predicate Full(count: nat, max: int)
  {
    max > 0 && count >= max
  }

  /** No team is over the limit. */
  predicate WithinCapacity(r: Roster, max: int)
  {
    max > 0 ==> forall n | n in r.teams :: |r.teams[n]| <= max
  }

  /** In a consistent roster a player belongs to no team other than the one mapped. */
  lemma OnlyMappedTeam(r: Roster, p: Uuid, n: string)
    requires Consistent(r) && n in r.teams && p in r.teams[n]
    ensures p in r.playerTeams && r.playerTeams[p] == n
  {
  }

  // ---------- removePlayer ----------

  /** removePlayer: false when the player has no team; otherwise the player leaves the mapped
      team and the map. The team keys never change. */
  function RemovePlayer(r: Roster, p: Uuid): (res: (Roster, bool))
    ensures res.0.teams.Keys == r.teams.Keys
  {
    if p !in r.playerTeams then (r, false)
    else
      var n := r.playerTeams[p];
      var teams := if n in r.teams then r.teams[n := r.teams[n] - {p}] else r.teams;
      (Roster(teams, r.playerTeams - {p}), true)
  }

  /** removePlayer keeps the invariant and the capacity bound, returns false exactly when the
      player had no team, and leaves the player in no team. */
  lemma RemovePlayerSound(r: Roster, p: Uuid, max: int)
    requires Consistent(r)
    ensures var (r', ok) := RemovePlayer(r, p);
      && Consistent(r')
      && (WithinCapacity(r, max) ==> WithinCapacity(r', max))
      && (ok <==> p in r.playerTeams)
      && p !in r'.playerTeams
      && (forall n | n in r'.teams :: p !in r'.teams[n])
      && (forall q | q != p :: (q in r'.playerTeams <==> q in r.playerTeams) && (q in r.playerTeams ==> r'.playerTeams[q] == r.playerTeams[q]))
  {
    if p in r.playerTeams {
      var (r', ok) := RemovePlayer(r, p);
      var n0 := r.playerTeams[p];
      forall n | n in r'.teams ensures p !in r'.teams[n] {
        if n != n0 && p in r.teams[n] {
          OnlyMappedTeam(r, p, n);
        }
      }
      if max > 0 && WithinCapacity(r, max) {
        forall n | n in r'.teams ensures |r'.teams[n]| <= max {
          if n == n0 {
            assert r'.teams[n] <= r.teams[n];
            SubsetCard(r'.teams[n], r.teams[n]);
          }
        }
      }
    }
  }

  lemma SubsetCard<T>(a: set<T>, b: set<T>)
    requires a <= b
    ensures |a| <= |b|
  {
    assert b == a + (b - a);
  }

  // ---------- addPlayer ----------

  /** addPlayer: false for an unknown team; true with no change when the player is already in
      it; otherwise the player first leaves any other team, and is then refused (false) when the
      team is full, or added (true). */
  function AddPlayer(r: Roster, p: Uuid, name: string, max: int): (res: (Roster, bool))
    ensures res.0.teams.Keys == r.teams.Keys
  {
    if name !in r.teams then (r, false)
    else if p in r.playerTeams && r.playerTeams[p] == name then (r, true)
    else
      var r1 := RemovePlayer(r, p).0;
      if Full(|r1.teams[name]|, max) then (r1, false)
      else (Roster(r1.teams[name := r1.teams[name] + {p}], r1.playerTeams[p := name]), true)
  }

  /** Putting a player who is in no team into an existing team keeps the invariant, and keeps
      the capacity bound when the team was not full. */
  lemma InsertSound(r: Roster, p: Uuid, name: string, max: int)
    requires Consistent(r) && name in r.teams && p !in r.playerTeams
    ensures var r' := Roster(r.teams[name := r.teams[name] + {p}], r.playerTeams[p := name]);
      && Consistent(r')
      && (WithinCapacity(r, max) && !Full(|r.teams[name]|, max) ==> WithinCapacity(r', max))
  {
    var r' := Roster(r.teams[name := r.teams[name] + {p}], r.playerTeams[p := name]);
    assert forall n | n in r.teams :: p !in r.teams[n];
    forall n, q | n in r'.teams && q in r'.teams[n]
      ensures q in r'.playerTeams && r'.playerTeams[q] == n
    {
      if q != p {
        assert q in r.teams[n];
      }
    }
    assert p !in r.teams[name];
    assert |r'.teams[name]| == |r.teams[name]| + 1;
  }

  /** addPlayer keeps the invariant and never takes a team over the limit. */
  lemma AddPlayerSound(r: Roster, p: Uuid, name: string, max: int)
    requires Consistent(r)
    ensures Consistent(AddPlayer(r, p, name, max).0)
    ensures WithinCapacity(r, max) ==> WithinCapacity(AddPlayer(r, p, name, max).0, max)
  {
    if name in r.teams && !(p in r.playerTeams && r.playerTeams[p] == name) {
      var r1 := RemovePlayer(r, p).0;
      RemovePlayerSound(r, p, max);
      if !Full(|r1.teams[name]|, max) {
        InsertSound(r1, p, name, max);
      }
    }
  }

  /** What addPlayer reports: false for an unknown team; true when the player already belongs
      there; otherwise false exactly when the team is full (the player's own earlier team does
      not count towards it). On true the player is in the team and mapped to it. */
  lemma AddPlayerOutcome(r: Roster, p: Uuid, name: string, max: int)
    requires Consistent(r)
    ensures var (r', ok) := AddPlayer(r, p, name, max);
      && (name !in r.teams ==> !ok && r' == r)
      && (name in r.teams && p in r.playerTeams && r.playerTeams[p] == name ==> ok && r' == r)
      && (name in r.teams && !(p in r.playerTeams && r.playerTeams[p] == name) ==> (ok <==> !Full(|r.teams[name]|, max)))
      && (ok ==> p in r'.playerTeams && r'.playerTeams[p] == name && p in r'.teams[name])
  {
    if name in r.teams && !(p in r.playerTeams && r.playerTeams[p] == name) {
      var r1 := RemovePlayer(r, p).0;
      if p in r.playerTeams {
        assert p !in r.teams[name];
        assert r1.teams[name] == r.teams[name];
      }
    }
  }

  /** The quirk of addPlayer: a player in another team who tries to join a full team has
      already been taken out of the old team when the capacity check refuses them, and ends up
      in no team at all. */
  lemma FullTeamLeavesTeamless(r: Roster, p: Uuid, name: string, max: int)
    requires Consistent(r)
    requires name in r.teams && p in r.playerTeams && r.playerTeams[p] != name
    requires Full(|r.teams[name]|, max)
    ensures var (r', ok) := AddPlayer(r, p, name, max);
      && !ok
      && p !in r'.playerTeams
      && forall n | n in r'.teams :: p !in r'.teams[n]
  {
    RemovePlayerSound(r, p, max);
    AddPlayerOutcome(r, p, name, max);
  }

  // ---------- createTeam / deleteTeam ----------

  /** createTeam's effect on the roster: a new empty team. */
  function CreateTeam(r: Roster, name: string): (r': Roster)
    requires name !in r.teams
    ensures r'.teams.Keys == r.teams.Keys + {name} && r'.teams[name] == {} && r'.playerTeams == r.playerTeams
  {
    Roster(r.teams[name := {}], r.playerTeams)
  }

  /** A new empty team keeps the invariant and the capacity bound. */
  lemma CreateTeamSound(r: Roster, name: string, max: int)
    requires Consistent(r) && name !in r.teams
    ensures Consistent(CreateTeam(r, name))
    ensures WithinCapacity(r, max) ==> WithinCapacity(CreateTeam(r, name), max)
  {
  }

  /** A successful deleteTeam: every member is unmapped and the team removed. */
  function DeleteTeam(r: Roster, name: string): (r': Roster)
    requires name in r.teams
    ensures r'.teams.Keys == r.teams.Keys - {name}
  {
    Roster(r.teams - {name}, r.playerTeams - r.teams[name])
  }

  /** deleteTeam keeps the invariant; its members end up in no team; everyone else keeps theirs. */
  lemma DeleteTeamSound(r: Roster, name: string, max: int)
    requires Consistent(r) && name in r.teams
    ensures var r' := DeleteTeam(r, name);
      && Consistent(r')
      && (WithinCapacity(r, max) ==> WithinCapacity(r', max))
      && (forall p | p in r.teams[name] :: p !in r'.playerTeams)
      && (forall p | p in r.playerTeams && r.playerTeams[p] != name :: p in r'.playerTeams && r'.playerTeams[p] == r.playerTeams[p])
  {
    var r' := DeleteTeam(r, name);
    forall n, q | n in r'.teams && q in r'.teams[n]
      ensures q in r'.playerTeams && r'.playerTeams[q] == n
    {
      OnlyMappedTeam(r, q, n);
      assert q !in r.teams[name];
    }
    forall p | p in r.playerTeams && r.playerTeams[p] != name
      ensures p in r'.playerTeams
    {
      if p in r.teams[name] {
        OnlyMappedTeam(r, p, name);
      }
    }
  }

  // ---------- getTeamWithFewestMembers ----------

  /** The member counts of the teams, in iteration order. */
  function Counts(teams: map<string, set<Uuid>>, order: seq<string>): (c: seq<nat>)
    requires forall i | 0 <= i < |order| :: order[i] in teams
    ensures |c| == |order| && forall i | 0 <= i < |order| :: c[i] == |teams[order[i]]|
  {
    seq(|order|, i requires 0 <= i < |order| => |teams[order[i]]|)
  }

  /** getTeamWithFewestMembers over the counts in iteration order: full teams are skipped and
      a team replaces the best so far only with a strictly smaller count. */
  function Fewest(counts: seq<nat>, max: int): (k: Option<nat>)
    ensures k.Some? ==> k.value < |counts|
    decreases |counts|
  {
    if |counts| == 0 then None
    else
      var last := |counts| - 1;
      var prev := Fewest(counts[..last], max);
      if !Full(counts[last], max) && (prev.None? || counts[last] < counts[prev.value]) then Some(last)
      else prev
  }

  /** One more team examined by the fewest-members loop. */
  lemma FewestStep(counts: seq<nat>, i: nat, max: int)
    requires i < |counts|
    ensures var prev := Fewest(counts[..i], max);
      Fewest(counts[..i + 1], max) ==
        if !Full(counts[i], max) && (prev.None? || counts[i] < counts[prev.value]) then Some(i) else prev
  {
    assert counts[..i + 1][..i] == counts[..i];
  }

  /** What the fewest-members choice means: none exactly when every team is full (or there are
      none); otherwise a team that is not full, whose count is at most that of every team that
      is not full, and strictly below that of every such team before it. */
  lemma {:induction false} FewestSpec(counts: seq<nat>, max: int)
    ensures Fewest(counts, max).None? <==> forall i | 0 <= i < |counts| :: Full(counts[i], max)
    ensures Fewest(counts, max).Some? ==>
      var k := Fewest(counts, max).value;
      && !Full(counts[k], max)
      && (forall j | 0 <= j < |counts| && !Full(counts[j], max) :: counts[k] <= counts[j])
      && (forall j | 0 <= j < k && !Full(counts[j], max) :: counts[k] < counts[j])
  {
    if |counts| > 0 {
      var last := |counts| - 1;
      var init := counts[..last];
      FewestSpec(init, max);
      assert forall i | 0 <= i < last :: init[i] == counts[i];
    }
  }

  // ---------- randomAssignAllPlayers ----------

  function Min(a: int, b: int): int
  {
    if a <= b then a else b
  }

  /** The free places: the sum over the teams (in iteration order) of max minus the count. */
  function FreeSlots(teams: map<string, set<Uuid>>, order: seq<string>, max: int): int
    requires forall i | 0 <= i < |order| :: order[i] in teams
    decreases |order|
  {
    if order == [] then 0
    else FreeSlots(teams, order[..|order| - 1], max) + (max - |teams[order[|order| - 1]]|)
  }

  /** A team that got one more member, seen from the order: one free place less. */
  lemma {:induction false} FreeSlotsAdd(teams: map<string, set<Uuid>>, order: seq<string>, max: int, name: string, s: set<Uuid>)
    requires forall i | 0 <= i < |order| :: order[i] in teams
    requires name in teams && |s| == |teams[name]| + 1
    requires forall i, j | 0 <= i < j < |order| :: order[i] != order[j]
    ensures FreeSlots(teams[name := s], order, max) == FreeSlots(teams, order, max) - (if name in order then 1 else 0)
  {
    if order != [] {
      var init := order[..|order| - 1];
      assert forall i | 0 <= i < |init| :: init[i] == order[i];
      FreeSlotsAdd(teams, init, max, name, s);
      if order[|order| - 1] == name {
        assert name !in init;
      }
      assert name in order <==> name in init || order[|order| - 1] == name;
    }
  }

  /** Within capacity, the free places are never negative, and they are zero exactly when every
      team is full. */
  lemma {:induction false} FreeSlotsZero(teams: map<string, set<Uuid>>, order: seq<string>, max: int)
    requires forall i | 0 <= i < |order| :: order[i] in teams
    requires max > 0 && forall n | n in teams :: |teams[n]| <= max
    ensures FreeSlots(teams, order, max) >= 0
    ensures FreeSlots(teams, order, max) == 0 <==> forall i | 0 <= i < |order| :: Full(|teams[order[i]]|, max)
  {
    if order != [] {
      var init := order[..|order| - 1];
      assert forall i | 0 <= i < |init| :: init[i] == order[i];
      FreeSlotsZero(teams, init, max);
    }
  }

  /** One turn of randomAssignAllPlayers' loop: the player goes to the team with the fewest
      members, if there is one; a successful add is recorded. */
  function AssignOne(r: Roster, placed: map<Uuid, string>, p: Uuid, order: seq<string>, max: int): (res: (Roster, map<Uuid, string>))
    requires forall i | 0 <= i < |order| :: order[i] in r.teams
    ensures res.0.teams.Keys == r.teams.Keys
  {
    var choice := Fewest(Counts(r.teams, order), max);
    if choice.None? then (r, placed)
    else
      var added := AddPlayer(r, p, order[choice.value], max);
      (added.0, if added.1 then placed[p := order[choice.value]] else placed)
  }

  /** The step when there is a team with the fewest members: the step is the add to it. */
  lemma AssignOneChosen(r: Roster, placed: map<Uuid, string>, p: Uuid, order: seq<string>, max: int,
                        name: string, after: Roster, ok: bool)
    requires forall i | 0 <= i < |order| :: order[i] in r.teams
    requires Fewest(Counts(r.teams, order), max).Some? && order[Fewest(Counts(r.teams, order), max).value] == name
    requires (after, ok) == AddPlayer(r, p, name, max)
    ensures AssignOne(r, placed, p, order, max) == (after, if ok then placed[p := name] else placed)
  {
  }

  /** The step when there is none. */
  lemma AssignOneNone(r: Roster, placed: map<Uuid, string>, p: Uuid, order: seq<string>, max: int)
    requires forall i | 0 <= i < |order| :: order[i] in r.teams
    requires Fewest(Counts(r.teams, order), max).None?
    ensures AssignOne(r, placed, p, order, max) == (r, placed)
  {
  }

  /** randomAssignAllPlayers after the shuffle: each player in turn is added to the team then
      fewest in members; the players actually added are returned with their teams. */
  function AssignAll(r: Roster, players: seq<Uuid>, order: seq<string>, max: int): (res: (Roster, map<Uuid, string>))
    requires forall i | 0 <= i < |order| :: order[i] in r.teams
    ensures res.0.teams.Keys == r.teams.Keys
    decreases |players|
  {
    if players == [] then (r, map[])
    else
      var prev := AssignAll(r, players[..|players| - 1], order, max);
      AssignOne(prev.0, prev.1, players[|players| - 1], order, max)
  }

  /** One more player handled by the randomAssignAllPlayers loop. */
  lemma AssignAllStep(r: Roster, players: seq<Uuid>, i: nat, order: seq<string>, max: int)
    requires forall j | 0 <= j < |order| :: order[j] in r.teams
    requires i < |players|
    ensures var prev := AssignAll(r, players[..i], order, max);
      AssignAll(r, players[..i + 1], order, max) == AssignOne(prev.0, prev.1, players[i], order, max)
  {
    assert players[..i + 1][..i] == players[..i];
  }

  /** Without teams nobody is placed and nothing changes. */
  lemma {:induction false} AssignAllWithoutTeams(r: Roster, players: seq<Uuid>, order: seq<string>, max: int)
    requires order == []
    ensures AssignAll(r, players, order, max) == (r, map[])
    decreases |players|
  {
    if players != [] {
      AssignAllWithoutTeams(r, players[..|players| - 1], order, max);
    }
  }

  /** One turn for a player in no team: either nothing changes, or just that player is mapped
      to the team recorded for them; the invariant is kept, and so is the bound. */
  lemma AssignOneSound(r: Roster, placed: map<Uuid, string>, p: Uuid, order: seq<string>, max: int)
    requires Consistent(r) && Enumerates(order, r.teams.Keys)
    requires p !in r.playerTeams && p !in placed
    ensures var (r', placed') := AssignOne(r, placed, p, order, max);
      && Consistent(r')
      && (WithinCapacity(r, max) ==> WithinCapacity(r', max))
      && ((r' == r && placed' == placed) ||
          (&& p in r'.playerTeams
           && placed' == placed[p := r'.playerTeams[p]]
           && r'.playerTeams == r.playerTeams[p := r'.playerTeams[p]]))
  {
    var choice := Fewest(Counts(r.teams, order), max);
    if choice.Some? {
      var name := order[choice.value];
      AddPlayerSound(r, p, name, max);
      AddPlayerOutcome(r, p, name, max);
    }
  }

  /** Within the bound, the player is placed unless there are no teams or (with a limit) no
      free place is left, and a placement uses up one free place. */
  lemma AssignOneCount(r: Roster, placed: map<Uuid, string>, p: Uuid, order: seq<string>, max: int)
    requires Consistent(r) && WithinCapacity(r, max) && Enumerates(order, r.teams.Keys)
    requires p !in r.playerTeams && p !in placed
    ensures var (r', placed') := AssignOne(r, placed, p, order, max);
      && (max > 0 ==> FreeSlots(r.teams, order, max) >= 0)
      && (if r.teams.Keys == {} || (max > 0 && FreeSlots(r.teams, order, max) == 0)
          then r' == r && placed' == placed
          else
            && p in r'.playerTeams
            && placed' == placed[p := r'.playerTeams[p]]
            && (max > 0 ==> FreeSlots(r'.teams, order, max) == FreeSlots(r.teams, order, max) - 1))
  {
    FewestSpec(Counts(r.teams, order), max);
    if max > 0 {
      FreeSlotsZero(r.teams, order, max);
    }
    if Fewest(Counts(r.teams, order), max).Some? {
      AssignOnePlaces(r, placed, p, order, max);
    } else {
      AssignOneRefuses(r, order, max);
    }
  }

  /** When some team is not full, the player joins it and one free place is used up. */
  lemma AssignOnePlaces(r: Roster, placed: map<Uuid, string>, p: Uuid, order: seq<string>, max: int)
    requires Consistent(r) && Enumerates(order, r.teams.Keys)
    requires p !in r.playerTeams && p !in placed
    requires Fewest(Counts(r.teams, order), max).Some?
    ensures var (r', placed') := AssignOne(r, placed, p, order, max);
      && r.teams.Keys != {} && (max > 0 ==> !forall i | 0 <= i < |order| :: Full(|r.teams[order[i]]|, max))
      && p in r'.playerTeams
      && placed' == placed[p := r'.playerTeams[p]]
      && (max > 0 ==> FreeSlots(r'.teams, order, max) == FreeSlots(r.teams, order, max) - 1)
  {
    var counts := Counts(r.teams, order);
    var k := Fewest(counts, max).value;
    FewestSpec(counts, max);
    var name := order[k];
    AddPlayerOutcome(r, p, name, max);
    assert p !in r.teams[name] by {
      if p in r.teams[name] {
        OnlyMappedTeam(r, p, name);
      }
    }
    assert !Full(counts[k], max);
    if max > 0 {
      FreeSlotsAdd(r.teams, order, max, name, r.teams[name] + {p});
    }
    assert name in r.teams;
  }

  /** When every team is full, or there is none, nothing changes. */
  lemma AssignOneRefuses(r: Roster, order: seq<string>, max: int)
    requires Enumerates(order, r.teams.Keys)
    requires Fewest(Counts(r.teams, order), max).None?
    ensures r.teams.Keys == {} || (max > 0 && forall i | 0 <= i < |order| :: Full(|r.teams[order[i]]|, max))
  {
    var counts := Counts(r.teams, order);
    FewestSpec(counts, max);
    if r.teams != map[] {
      var n :| n in r.teams;
      var i :| 0 <= i < |order| && order[i] == n;
      assert Full(counts[i], max);
      forall j | 0 <= j < |order| ensures Full(|r.teams[order[j]]|, max) {
        assert Full(counts[j], max);
      }
    }
  }

  lemma UnionUpdate<K, V>(m: map<K, V>, a: map<K, V>, k: K, v: V)
    ensures (m + a)[k := v] == m + a[k := v]
  {
  }

  /** randomAssignAllPlayers for players who are distinct and in no team yet: the invariant holds
      afterwards, and so does the capacity bound if it held before, and the players added are mapped to the teams
      returned for them while no one else moves. */
  lemma {:induction false} AssignAllSound(r: Roster, players: seq<Uuid>, order: seq<string>, max: int)
    requires Consistent(r) && Enumerates(order, r.teams.Keys)
    requires forall i, j | 0 <= i < j < |players| :: players[i] != players[j]
    requires forall i | 0 <= i < |players| :: players[i] !in r.playerTeams
    ensures var (r', placed) := AssignAll(r, players, order, max);
      && Consistent(r') && (WithinCapacity(r, max) ==> WithinCapacity(r', max))
      && (forall p | p in placed :: p in players)
      && r'.playerTeams == r.playerTeams + placed
  {
    if players != [] {
      var init := players[..|players| - 1];
      var p := players[|players| - 1];
      AssignAllSound(r, init, order, max);
      var (r1, a1) := AssignAll(r, init, order, max);
      assert p !in init;
      AssignOneSound(r1, a1, p, order, max);
      var (r2, a2) := AssignOne(r1, a1, p, order, max);
      if a2 != a1 {
        UnionUpdate(r.playerTeams, a1, p, r2.playerTeams[p]);
      }
    }
  }

  lemma CountStep(n: nat, free: int, before: nat, after: nat, left: int)
    requires n > 0 && before == Min(n - 1, free) && left == free - before && left >= 0
    requires left == 0 ==> after == before
    requires left != 0 ==> after == before + 1
    ensures after == Min(n, free)
  {
  }

  /** How many randomAssignAllPlayers places: none without teams, all of them without a limit,
      and otherwise min(players, free places), each using up one free place. */
  lemma {:induction false} AssignAllCount(r: Roster, players: seq<Uuid>, order: seq<string>, max: int)
    requires Consistent(r) && WithinCapacity(r, max) && Enumerates(order, r.teams.Keys)
    requires forall i, j | 0 <= i < j < |players| :: players[i] != players[j]
    requires forall i | 0 <= i < |players| :: players[i] !in r.playerTeams
    ensures var (r', placed) := AssignAll(r, players, order, max);
      && |placed| == (if r.teams.Keys == {} then 0 else if max <= 0 then |players| else Min(|players|, FreeSlots(r.teams, order, max)))
      && (max > 0 ==> FreeSlots(r'.teams, order, max) == FreeSlots(r.teams, order, max) - |placed|)
  {
    if players != [] {
      var init := players[..|players| - 1];
      var p := players[|players| - 1];
      AssignAllSound(r, init, order, max);
      AssignAllCount(r, init, order, max);
      assert p !in init;
      CountAfterOne(r, players, order, max);
    } else if max > 0 {
      FreeSlotsZero(r.teams, order, max);
    }
  }

  /** The count after one more turn, from the count before it. */
  lemma CountAfterOne(r: Roster, players: seq<Uuid>, order: seq<string>, max: int)
    requires players != [] && Enumerates(order, r.teams.Keys)
    requires var prev := AssignAll(r, players[..|players| - 1], order, max);
      && Consistent(prev.0) && WithinCapacity(prev.0, max)
      && players[|players| - 1] !in prev.0.playerTeams && players[|players| - 1] !in prev.1
      && |prev.1| == (if r.teams.Keys == {} then 0 else if max <= 0 then |players| - 1 else Min(|players| - 1, FreeSlots(r.teams, order, max)))
      && (max > 0 ==> FreeSlots(prev.0.teams, order, max) == FreeSlots(r.teams, order, max) - |prev.1|)
    ensures var res := AssignAll(r, players, order, max);
      && |res.1| == (if r.teams.Keys == {} then 0 else if max <= 0 then |players| else Min(|players|, FreeSlots(r.teams, order, max)))
      && (max > 0 ==> FreeSlots(res.0.teams, order, max) == FreeSlots(r.teams, order, max) - |res.1|)
  {
    var prev := AssignAll(r, players[..|players| - 1], order, max);
    var p := players[|players| - 1];
    var (r1, a1) := prev;
    AssignOneCount(r1, a1, p, order, max);
    var (r2, a2) := AssignOne(r1, a1, p, order, max);
    if a2 != a1 {
      assert |a2| == |a1| + 1;
    }
    if max > 0 && r.teams.Keys != {} {
      CountStep(|players|, FreeSlots(r.teams, order, max), |a1|, |a2|, FreeSlots(r1.teams, order, max));
    }
  }

  // ---------- loadTeams ----------

  /** What loadTeams' rebuild guarantees by itself: every mapped player is a member of the team
      it is mapped to, and every member is mapped (to the last team read that holds them). */
  predicate Covered(r: Roster)
  {
    && (forall q | q in r.playerTeams :: r.playerTeams[q] in r.teams && q in r.teams[r.playerTeams[q]])
    && (forall n, q | n in r.teams && q in r.teams[n] :: q in r.playerTeams)
  }

  /** The members of one team read by loadTeams, each mapped to it. */
  function MapAll(members: set<Uuid>, n: string): (m: map<Uuid, string>)
    ensures m.Keys == members && forall q | q in m :: m[q] == n
  {
    map q | q in members :: n
  }

  lemma MapAllAdd(members: set<Uuid>, q: Uuid, n: string)
    ensures MapAll(members + {q}, n) == MapAll(members, n)[q := n]
  {
  }

  /** Reading one more team and mapping its members keeps the rebuild covered. */
  lemma CoveredAdd(r: Roster, n: string, members: set<Uuid>)
    requires Covered(r) && n !in r.teams
    ensures Covered(Roster(r.teams[n := members], r.playerTeams + MapAll(members, n)))
  {
  }

  /** A covered roster whose teams do not overlap is consistent. */
  lemma CoveredDisjointConsistent(r: Roster)
    requires Covered(r)
    requires forall n1, n2 | n1 in r.teams && n2 in r.teams && n1 != n2 :: r.teams[n1] !! r.teams[n2]
    ensures Consistent(r)
  {
    forall n, q | n in r.teams && q in r.teams[n]
      ensures r.playerTeams[q] == n
    {
      assert q in r.teams[r.playerTeams[q]];
    }
  }

  /** In a consistent roster two different teams have no member in common. */
  lemma TeamsDisjoint(r: Roster, n1: string, n2: string)
    requires Consistent(r) && n1 in r.teams && n2 in r.teams && n1 != n2
    ensures r.teams[n1] !! r.teams[n2]
  {
    forall q | q in r.teams[n1] ensures q !in r.teams[n2] {
      OnlyMappedTeam(r, q, n1);
    }
  }

  /** A consistent roster is covered. */
  lemma ConsistentCovered(r: Roster)
    requires Consistent(r)
    ensures Covered(r)
  {
  }
}
