/** A racing team (model/Team.java): its name is fixed, everything else is updated in place. */
module Teams {
  import opened Wrappers
  import opened GameStates
  import opened Players
  import opened WorldSets
  import opened GameData

  class Team {
    const name: string
    var members: set<Uuid>
    var worldSet: Option<WorldSet>
    var state: GameState
    var completionTime: int
    var color: Option<string>

    /** A new team: no members, no world set, WAITING, completion time -1, no colour. */
    constructor (name: string)
      ensures this.name == name
      ensures members == {} && worldSet == None && state == Waiting && completionTime == -1 && color == None
      ensures !IsCompleted() && !HasWorldSet() && !HasColor()
    {
      this.name := name;
      members := {};
      worldSet := None;
      state := Waiting;
      completionTime := -1;
      color := None;
    }

    function MemberCount(): nat
      reads this`members
    {
      |members|
    }

    predicate HasMember(p: Uuid)
      reads this`members
    {
      p in members
    }

    /** addMember: true exactly when the player was not yet a member; the count grows by one
        exactly then. */
    method AddMember(p: Uuid) returns (added: bool)
      modifies this`members
      ensures added <==> p !in old(members)
      ensures members == old(members) + {p}
      ensures MemberCount() == old(MemberCount()) + (if added then 1 else 0)
    {
      added := p !in members;
      if !added {
        assert members + {p} == members;
      }
      members := members + {p};
    }

    /** removeMember: true exactly when the player was a member; afterwards they are not. */
    method RemoveMember(p: Uuid) returns (removed: bool)
      modifies this`members
      ensures removed <==> p in old(members)
      ensures members == old(members) - {p}
    {
      removed := p in members;
      members := members - {p};
    }

    predicate HasWorldSet()
      reads this`worldSet
    {
      worldSet.Some?
    }

    method SetWorldSet(ws: Option<WorldSet>)
      modifies this`worldSet
      ensures worldSet == ws
      ensures HasWorldSet() <==> ws.Some?
    {
      worldSet := ws;
    }

    method SetState(s: GameState)
      modifies this`state
      ensures state == s
    {
      state := s;
    }

    method SetCompletionTime(t: int)
      modifies this`completionTime
      ensures completionTime == t
    {
      completionTime := t;
    }

    /** isCompleted: COMPLETED with a recorded (non-negative) time. */
    predicate IsCompleted()
      reads this`state, this`completionTime
    {
      state == Completed && completionTime >= 0
    }

    /** reset: WAITING and -1; members, world set and colour are kept (the frame says so). */
    method Reset()
      modifies this`state, this`completionTime
      ensures state == Waiting && completionTime == -1
      ensures !IsCompleted()
    {
      state := Waiting;
      completionTime := -1;
    }

    predicate HasColor()
      reads this`color
    {
      color.Some?
    }

    method SetColor(c: Option<string>)
      modifies this`color
      ensures color == c
    {
      color := c;
    }

    /** What saveTeam writes of this team and loadTeams reads back. */
    function Record(): TeamRecord
      reads this`members, this`worldSet, this`state, this`completionTime
    {
      TeamRecord(members, WorldNamesOf(worldSet), state, completionTime)
    }
  }

  /** The names saveTeam writes for a world set. */
  function WorldNamesOf(ws: Option<WorldSet>): Option<WorldNames>
  {
    match ws
    case None => None
    case Some(w) => Some(WorldNames(w.overworldName, w.netherName, w.endName))
  }

  /** The world set loadTeams rebuilds from stored names, with the seed it is given. */
  function WorldSetOf(teamName: string, names: Option<WorldNames>, seed: int): (ws: Option<WorldSet>)
    ensures ws.Some? <==> names.Some?
    ensures ws.Some? ==> ws.value.teamName == teamName && ws.value.seed == seed && WorldNamesOf(ws) == names
  {
    match names
    case None => None
    case Some(n) => Some(WorldSet(teamName, n.overworld, n.nether, n.end, seed))
  }
}
