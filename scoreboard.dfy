/** manager/ScoreboardTeamManager.java: the colour a team is given and how a colour name is
    read. The Bukkit scoreboard objects themselves are not modelled. */
module Scoreboards {
  import opened Wrappers
  import opened GameData
  import opened Teams
  import opened Config

  /** The sixteen named text colours. */
  datatype NamedColor =
    | Black | DarkBlue | DarkGreen | DarkAqua | DarkRed | DarkPurple | Gold | Gray
    | DarkGray | Blue | Green | Aqua | Red | LightPurple | Yellow | White

  /** The name a colour goes by in the configuration. */
  function ColorName(c: NamedColor): string
  {
    match c
    case Black => "BLACK"
    case DarkBlue => "DARK_BLUE"
    case DarkGreen => "DARK_GREEN"
    case DarkAqua => "DARK_AQUA"
    case DarkRed => "DARK_RED"
    case DarkPurple => "DARK_PURPLE"
    case Gold => "GOLD"
    case Gray => "GRAY"
    case DarkGray => "DARK_GRAY"
    case Blue => "BLUE"
    case Green => "GREEN"
    case Aqua => "AQUA"
    case Red => "RED"
    case LightPurple => "LIGHT_PURPLE"
    case Yellow => "YELLOW"
    case White => "WHITE"
  }

  function UpperChar(ch: char): char
  {
    if 'a' <= ch <= 'z' then (ch as int - 'a' as int + 'A' as int) as char else ch
  }

  /** toUpperCase on the ASCII letters. */
  function ToUpper(s: string): (u: string)
    ensures |u| == |s|
  {
    seq(|s|, i requires 0 <= i < |s| => UpperChar(s[i]))
  }

  /** The switch of parseColor on an upper-cased name. */
  function ColorOf(u: string): Option<NamedColor>
  {
    if u == "BLACK" then Some(Black)
    else if u == "DARK_BLUE" then Some(DarkBlue)
    else if u == "DARK_GREEN" then Some(DarkGreen)
    else if u == "DARK_AQUA" then Some(DarkAqua)
    else if u == "DARK_RED" then Some(DarkRed)
    else if u == "DARK_PURPLE" then Some(DarkPurple)
    else if u == "GOLD" then Some(Gold)
    else if u == "GRAY" then Some(Gray)
    else if u == "DARK_GRAY" then Some(DarkGray)
    else if u == "BLUE" then Some(Blue)
    else if u == "GREEN" then Some(Green)
    else if u == "AQUA" then Some(Aqua)
    else if u == "RED" then Some(Red)
    else if u == "LIGHT_PURPLE" then Some(LightPurple)
    else if u == "YELLOW" then Some(Yellow)
    else if u == "WHITE" then Some(White)
    else None
  }

  /** parseColor: WHITE for no name and for a name that is none of the sixteen. */
  function ParseColor(name: Option<string>): (c: NamedColor)
    ensures name.None? ==> c == White
  {
    match name
    case None => White
    case Some(s) => match ColorOf(ToUpper(s)) { case Some(c) => c case None => White }
  }

  /** The switch names exactly the sixteen colours. */
  lemma ColorOfName(u: string, c: NamedColor)
    ensures ColorOf(u) == Some(c) <==> u == ColorName(c)
  {
    ColorOfNamed(u);
    NamedColorOf(c);
  }

  /** Only a colour's own name is read as that colour. */
  lemma ColorOfNamed(u: string)
    ensures ColorOf(u).Some? ==> u == ColorName(ColorOf(u).value)
  {
  }

  /** Each colour's name is read as that colour. */
  lemma NamedColorOf(c: NamedColor)
    ensures ColorOf(ColorName(c)) == Some(c)
  {
    match c
    case Black => case DarkBlue => case DarkGreen => case DarkAqua =>
    case DarkRed => case DarkPurple => case Gold => case Gray =>
    case DarkGray => case Blue => case Green => case Aqua =>
    case Red => case LightPurple => case Yellow => case White =>
  }

  /** A colour name contains no lower-case letter, so upper-casing leaves it alone. */
  lemma UpperName(c: NamedColor)
    ensures ToUpper(ColorName(c)) == ColorName(c)
  {
    var s := ColorName(c);
    assert forall i | 0 <= i < |s| :: !('a' <= s[i] <= 'z');
    assert forall i | 0 <= i < |s| :: ToUpper(s)[i] == s[i];
  }

  /** parseColor is case-insensitive: any spelling whose upper-case form is a colour's name
      gives that colour, in particular the name itself. */
  lemma ParseColorAnyCase(s: string, c: NamedColor)
    requires ToUpper(s) == ColorName(c)
    ensures ParseColor(Some(s)) == c
  {
    ColorOfName(ToUpper(s), c);
  }

  lemma ParseColorName(c: NamedColor)
    ensures ParseColor(Some(ColorName(c))) == c
  {
    UpperName(c);
    ParseColorAnyCase(ColorName(c), c);
  }

  /** Every other name reads as WHITE. */
  lemma ParseColorOther(s: string)
    requires forall c: NamedColor :: ToUpper(s) != ColorName(c)
    ensures ParseColor(Some(s)) == White
  {
    if ColorOf(ToUpper(s)).Some? {
      ColorOfName(ToUpper(s), ColorOf(ToUpper(s)).value);
    }
  }

  /** The first palette entry from index i on that no team uses. */
  function FirstUnused(palette: seq<string>, used: set<string>, i: nat): (k: Option<nat>)
    requires i <= |palette|
    ensures k.Some? ==> i <= k.value < |palette| && palette[k.value] !in used
    ensures k.Some? ==> forall j | i <= j < k.value :: palette[j] in used
    ensures k.None? <==> forall j | i <= j < |palette| :: palette[j] in used
    decreases |palette| - i
  {
    if i == |palette| then None
    else if palette[i] !in used then Some(i)
    else FirstUnused(palette, used, i + 1)
  }

  /** assignNextColor as a value: WHITE for an empty palette, else the first unused colour,
      else the palette entry at colorIndex modulo its size. */
  function NextColor(palette: seq<string>, used: set<string>, index: nat): string
  {
    if |palette| == 0 then "WHITE"
    else match FirstUnused(palette, used, 0)
      case Some(k) => palette[k]
      case None => palette[index % |palette|]
  }

  /** Whether assignNextColor has to cycle (and so advances colorIndex). */
  predicate Cycles(palette: seq<string>, used: set<string>)
  {
    |palette| > 0 && FirstUnused(palette, used, 0).None?
  }

  /** The colour handed out by the j-th cycling choice after colorIndex. */
  function CycleChoice(palette: seq<string>, used: set<string>, index: nat, j: nat): string
  {
    NextColor(palette, used, index + j)
  }

  /** Once every colour is used, |palette| successive cycling choices hand out every palette
      colour. */
  lemma CycleCoversPalette(palette: seq<string>, used: set<string>, index: nat, k: nat)
    requires Cycles(palette, used) && k < |palette|
    ensures exists j | 0 <= j < |palette| :: CycleChoice(palette, used, index, j) == palette[k]
  {
    var n := |palette|;
    var r := index % n;
    var q := index / n;
    var j := if k >= r then k - r else k - r + n;
    if k >= r {
      assert index + j == q * n + k;
      ModUnique(index + j, n, q, k);
    } else {
      assert index + j == (q + 1) * n + k;
      ModUnique(index + j, n, q + 1, k);
    }
    assert CycleChoice(palette, used, index, j) == palette[k];
  }

  /** x % n is the remainder of any division of x by n. */
  lemma ModUnique(x: int, n: int, a: int, b: int)
    requires n > 0 && 0 <= b < n && x == a * n + b
    ensures x % n == b
  {
    var q := x / n;
    var r := x % n;
    assert x == q * n + r;
    assert (a - q) * n == r - b;
    MulSign(a - q, n);
  }

  lemma MulSign(d: int, n: int)
    requires n > 0
    ensures d > 0 ==> d * n >= n
    ensures d < 0 ==> d * n <= -n
  {
  }

  /** A colour other than the cycling one is never in use by another team. */
  lemma NextColorUnused(palette: seq<string>, used: set<string>, index: nat)
    requires |palette| > 0 && !Cycles(palette, used)
    ensures NextColor(palette, used, index) !in used
    ensures NextColor(palette, used, index) in palette
  {
  }

  /** The colours that teams already carry. */
  ghost function UsedColors(teams: set<Team>): set<string>
    reads teams
  {
    set t | t in teams && t.color.Some? :: t.color.value
  }

  /** A team without a colour adds none to the colours in use. */
  lemma UsedColorsAdd(teams: set<Team>, t: Team)
    requires t.color.None?
    ensures UsedColors(teams + {t}) == UsedColors(teams)
  {
  }

  class ScoreboardTeamManager {
    const config: ConfigManager
    /** The team-colours switch and the palette, from the configuration. */
    const teamColorsEnabled: bool
    const palette: seq<string>
    var colorIndex: nat

    constructor (config: ConfigManager, teamColorsEnabled: bool, palette: seq<string>)
      ensures this.config == config && this.teamColorsEnabled == teamColorsEnabled && this.palette == palette
      ensures colorIndex == 0
    {
      this.config := config;
      this.teamColorsEnabled := teamColorsEnabled;
      this.palette := palette;
      colorIndex := 0;
    }

    /** assignNextColor, given all of the plugin's teams. */
    method AssignNextColor(teams: set<Team>) returns (color: string)
      modifies this`colorIndex
      ensures color == NextColor(palette, UsedColors(teams), old(colorIndex))
      ensures colorIndex == old(colorIndex) + (if Cycles(palette, UsedColors(teams)) then 1 else 0)
    {
      if |palette| == 0 {
        return "WHITE";
      }
      var used: set<string> := {};
      var rest := teams;
      while rest != {}
        invariant rest <= teams
        invariant used == set t | t in teams - rest && t.color.Some? :: t.color.value
        decreases |rest|
      {
        var t :| t in rest;
        if t.color.Some? {
          used := used + {t.color.value};
        }
        rest := rest - {t};
      }
      for i := 0 to |palette|
        invariant forall j | 0 <= j < i :: palette[j] in used
      {
        if palette[i] !in used {
          return palette[i];
        }
      }
      color := palette[colorIndex % |palette|];
      colorIndex := colorIndex + 1;
    }

    /** The colour rule of syncTeam: with team colours on, a team without a colour is given the
        next colour and saved; a colour once set is never changed. */
    method SyncTeam(team: Team, allTeams: set<Team>)
      modifies team`color, config`gameData, this`colorIndex
      ensures !teamColorsEnabled || old(team.color).Some? ==>
        team.color == old(team.color) && config.gameData == old(config.gameData) && colorIndex == old(colorIndex)
      ensures teamColorsEnabled && old(team.color).None? ==>
        && team.color == Some(NextColor(palette, old(UsedColors(allTeams)), old(colorIndex)))
        && Persisted(config.gameData, team.name, team.Record())
        && AgreeOutside(old(config.gameData), config.gameData, team.name)
        && StoredTeamNames(config.gameData) == StoredTeamNames(old(config.gameData)) + {team.name}
    {
      if !teamColorsEnabled {
        return;
      }
      if team.color.None? {
        var color := AssignNextColor(allTeams);
        team.SetColor(Some(color));
        config.SaveTeam(team);
      }
    }
  }
}
