/** listener/ChatListener.java: the placeholder parser buildChatMessage that turns the configured
    team-chat format into coloured text segments. */
module Chat {
  import opened Wrappers
  import opened Scoreboards

  /** A text component: its text and its colour (None for one that sets no colour). */
  datatype Segment = Segment(text: string, color: Option<NamedColor>)

  /** What the parser reads from a format: a `%name%` placeholder or a run of plain text. */
  datatype Token = Placeholder(name: string) | Literal(text: string)

  /** What a chat line is built from: the sender's team name and player name, the message and
      the team's parsed colour. */
  datatype Speaker = Speaker(teamName: string, playerName: string, message: string, color: NamedColor)

  /** The first index from k on that holds a '%', or |s| if there is none. */
  function RunEnd(s: string, k: nat): (r: nat)
    requires k <= |s|
    ensures k <= r <= |s|
    ensures forall j | k <= j < r :: s[j] != '%'
    ensures r == |s| || s[r] == '%'
    decreases |s| - k
  {
    if k == |s| || s[k] == '%' then k else RunEnd(s, k + 1)
  }

  /** indexOf('%', from), with None for -1. */
  function IndexOfPercent(s: string, from: nat): (r: Option<nat>)
    requires from <= |s|
    ensures r.Some? ==> from <= r.value < |s| && s[r.value] == '%'
    ensures r.Some? ==> forall j | from <= j < r.value :: s[j] != '%'
    ensures r.None? <==> forall j | from <= j < |s| :: s[j] != '%'
  {
    var e := RunEnd(s, from);
    if e < |s| then Some(e) else None
  }

  /** RunEnd is the only index with its three properties. */
  lemma RunEndIs(s: string, k: nat, r: nat)
    requires k <= r <= |s|
    requires forall j | k <= j < r :: s[j] != '%'
    requires r == |s| || s[r] == '%'
    ensures RunEnd(s, k) == r
  {
  }

  /** Whether a placeholder opens at i: a '%' with another '%' after it. */
  predicate OpensAt(f: string, i: nat)
    requires i < |f|
  {
    f[i] == '%' && IndexOfPercent(f, i + 1).Some?
  }

  /** The token that starts at i: a placeholder when one opens there, else the text up to the
      next '%' (an unclosed '%' being taken as plain text). */
  function TokenAt(f: string, i: nat): Token
    requires i < |f|
  {
    if OpensAt(f, i) then Placeholder(f[i + 1..IndexOfPercent(f, i + 1).value])
    else Literal(f[i..RunEnd(f, i + 1)])
  }

  /** Where the token that starts at i ends. */
  function Advance(f: string, i: nat): (j: nat)
    requires i < |f|
    ensures i < j <= |f|
  {
    if OpensAt(f, i) then IndexOfPercent(f, i + 1).value + 1 else RunEnd(f, i + 1)
  }

  /** The tokens of a format, left to right. */
  function Tokens(f: string): seq<Token>
    decreases |f|
  {
    if f == [] then [] else [TokenAt(f, 0)] + Tokens(f[Advance(f, 0)..])
  }

  /** The component for one token: `%team%` and `%player%` in the team colour, `%message%` in
      white, any other `%x%` (`%%` among them) copied back with no colour, plain text in gray. */
  function Fill(t: Token, who: Speaker): Segment
  {
    match t
    case Placeholder(p) =>
      if p == "team" then Segment(who.teamName, Some(who.color))
      else if p == "player" then Segment(who.playerName, Some(who.color))
      else if p == "message" then Segment(who.message, Some(White))
      else Segment("%" + p + "%", None)
    case Literal(s) => Segment(s, Some(Gray))
  }

  function FillAll(ts: seq<Token>, who: Speaker): seq<Segment>
  {
    seq(|ts|, k requires 0 <= k < |ts| => Fill(ts[k], who))
  }

  /** The message a format builds for a speaker. */
  function Render(f: string, who: Speaker): seq<Segment>
  {
    FillAll(Tokens(f), who)
  }

  // ---------- slices ----------

  lemma RunEndShift(f: string, i: nat, k: nat)
    requires i + k <= |f|
    ensures RunEnd(f[i..], k) == RunEnd(f, i + k) - i
  {
    var r := RunEnd(f, i + k);
    RunEndIs(f[i..], k, r - i);
  }

  /** The token at i of f is the first token of f[i..]. */
  lemma TokenShift(f: string, i: nat)
    requires i < |f|
    ensures TokenAt(f[i..], 0) == TokenAt(f, i) && Advance(f[i..], 0) == Advance(f, i) - i
  {
    var g := f[i..];
    RunEndShift(f, i, 1);
    if OpensAt(f, i) {
      var e := IndexOfPercent(f, i + 1).value;
      assert g[1..e - i] == f[i + 1..e];
    } else {
      assert g[0..RunEnd(g, 1)] == f[i..RunEnd(f, i + 1)];
    }
  }

  /** Reading from i: the token at i, then the tokens after it. */
  lemma TokensAt(f: string, i: nat)
    requires i < |f|
    ensures Tokens(f[i..]) == [TokenAt(f, i)] + Tokens(f[Advance(f, i)..])
  {
    TokenShift(f, i);
    assert f[i..][Advance(f[i..], 0)..] == f[Advance(f, i)..];
  }

  lemma FillAllAppend(a: seq<Token>, b: seq<Token>, who: Speaker)
    ensures FillAll(a + b, who) == FillAll(a, who) + FillAll(b, who)
  {
  }

  /** Rendering from i: the segment of the token at i, then the rest. */
  lemma RenderAt(f: string, i: nat, who: Speaker)
    requires i < |f|
    ensures Render(f[i..], who) == [Fill(TokenAt(f, i), who)] + Render(f[Advance(f, i)..], who)
  {
    TokensAt(f, i);
    FillAllAppend([TokenAt(f, i)], Tokens(f[Advance(f, i)..]), who);
  }

  /** The invariant of the builder's loop carries over one token. */
  lemma RenderStep(f: string, i: nat, who: Speaker, done: seq<Segment>)
    requires i < |f| && done + Render(f[i..], who) == Render(f, who)
    ensures (done + [Fill(TokenAt(f, i), who)]) + Render(f[Advance(f, i)..], who) == Render(f, who)
  {
    RenderAt(f, i, who);
  }

  // ---------- the builder ----------

  /** buildChatMessage: the outer loop reads a placeholder wherever a '%' has a partner, and
      otherwise collects the text up to the next '%' into one gray segment. The text collected
      always starts with the character at i, so an unclosed '%' is kept as text. */
  method BuildChatMessage(format: string, teamName: string, playerName: string, message: string, color: NamedColor)
    returns (result: seq<Segment>)
    ensures result == Render(format, Speaker(teamName, playerName, message, color))
  {
    ghost var who := Speaker(teamName, playerName, message, color);
    result := [];
    var i := 0;
    while i < |format|
      invariant 0 <= i <= |format|
      invariant result + Render(format[i..], who) == Render(format, who)
      decreases |format| - i
    {
      ghost var done, from := result, i;
      RenderStep(format, i, who, done);
      if format[i] == '%' {
        var end := IndexOfPercent(format, i + 1);
        if end.Some? {
          var placeholder := format[i + 1..end.value];
          assert TokenAt(format, i) == Placeholder(placeholder) && Advance(format, i) == end.value + 1;
          var segment;
          if placeholder == "team" {
            segment := Segment(teamName, Some(color));
          } else if placeholder == "player" {
            segment := Segment(playerName, Some(color));
          } else if placeholder == "message" {
            segment := Segment(message, Some(White));
          } else {
            segment := Segment("%" + placeholder + "%", None);
          }
          assert segment == Fill(TokenAt(format, from), who);
          result := result + [segment];
          i := end.value + 1;
          assert result == done + [Fill(TokenAt(format, from), who)] && i == Advance(format, from);
          continue;
        }
      }
      var sb;
      sb, i := CollectText(format, i);
      assert !OpensAt(format, from);
      result := result + [Segment(sb, Some(Gray))];
      assert result == done + [Fill(TokenAt(format, from), who)] && i == Advance(format, from);
    }
    assert format[|format|..] == [];
  }

  /** The text loop of buildChatMessage: the character at start and every one after it up to
      the next '%'. */
  method CollectText(format: string, start: nat) returns (sb: string, i: nat)
    requires start < |format|
    ensures i == RunEnd(format, start + 1) && sb == format[start..i]
  {
    sb := [format[start]];
    i := start + 1;
    while i < |format| && format[i] != '%'
      invariant start < i <= |format|
      invariant sb == format[start..i]
      invariant forall j | start < j < i :: format[j] != '%'
      decreases |format| - i
    {
      sb := sb + [format[i]];
      i := i + 1;
    }
    RunEndIs(format, start + 1, i);
  }

  // ---------- what the message holds ----------

  /** `%team%` becomes the team name in the team colour. */
  lemma TeamPlaceholder(rest: string, who: Speaker)
    ensures Render("%team%" + rest, who) == [Segment(who.teamName, Some(who.color))] + Render(rest, who)
  {
    assert "%team%" + rest == "%" + "team" + "%" + rest;
    RenderPlaceholder("team", rest, who);
  }

  /** `%player%` becomes the player name in the team colour. */
  lemma PlayerPlaceholder(rest: string, who: Speaker)
    ensures Render("%player%" + rest, who) == [Segment(who.playerName, Some(who.color))] + Render(rest, who)
  {
    assert "%player%" + rest == "%" + "player" + "%" + rest;
    RenderPlaceholder("player", rest, who);
    assert Fill(Placeholder("player"), who) == Segment(who.playerName, Some(who.color));
  }

  /** `%message%` becomes the message in white. */
  lemma MessagePlaceholder(rest: string, who: Speaker)
    ensures Render("%message%" + rest, who) == [Segment(who.message, Some(White))] + Render(rest, who)
  {
    assert "%message%" + rest == "%" + "message" + "%" + rest;
    RenderPlaceholder("message", rest, who);
    assert Fill(Placeholder("message"), who) == Segment(who.message, Some(White));
  }

  /** Any other `%x%`, `%%` included, is copied back as it stands, with no colour. */
  lemma OtherPlaceholderCopied(p: string, rest: string, who: Speaker)
    requires forall j | 0 <= j < |p| :: p[j] != '%'
    requires p != "team" && p != "player" && p != "message"
    ensures Render("%" + p + "%" + rest, who) == [Segment("%" + p + "%", None)] + Render(rest, who)
  {
    RenderPlaceholder(p, rest, who);
  }

  lemma RenderPlaceholder(p: string, rest: string, who: Speaker)
    requires forall j | 0 <= j < |p| :: p[j] != '%'
    ensures Render("%" + p + "%" + rest, who) == [Fill(Placeholder(p), who)] + Render(rest, who)
  {
    var f := "%" + p + "%" + rest;
    RunEndIs(f, 1, |p| + 1);
    assert f[1..|p| + 1] == p;
    assert f[0..] == f && f[|p| + 2..] == rest;
    RenderAt(f, 0, who);
  }

  /** A run of plain text up to the next '%' (or the end) becomes one gray segment. */
  lemma PlainTextGray(t: string, rest: string, who: Speaker)
    requires t != [] && forall j | 0 <= j < |t| :: t[j] != '%'
    requires rest == [] || rest[0] == '%'
    ensures Render(t + rest, who) == [Segment(t, Some(Gray))] + Render(rest, who)
  {
    var f := t + rest;
    RunEndIs(f, 1, |t|);
    assert f[0..|t|] == t && f[0..] == f && f[|t|..] == rest;
    RenderAt(f, 0, who);
  }

  /** A '%' with no partner is kept, with the rest of the format, as gray text. */
  lemma UnclosedPercentKept(s: string, who: Speaker)
    requires forall j | 0 <= j < |s| :: s[j] != '%'
    ensures Render("%" + s, who) == [Segment("%" + s, Some(Gray))]
  {
    var f := "%" + s;
    RunEndIs(f, 1, |f|);
    assert !OpensAt(f, 0);
    assert f[0..] == f && f[0..|f|] == f && f[|f|..] == [];
    RenderAt(f, 0, who);
  }

  /** The message is inserted and never read as a format: a speaker's message is only ever
      the text of the `%message%` segments, and the segments do not depend on it otherwise. */
  lemma MessageNotScanned(f: string, who: Speaker, m: string)
    ensures |Render(f, who)| == |Render(f, who.(message := m))| == |Tokens(f)|
    ensures forall k | 0 <= k < |Tokens(f)| ::
      Render(f, who)[k] == Render(f, who.(message := m))[k] || Tokens(f)[k] == Placeholder("message")
  {
  }

  /** The format with its placeholders substituted, read one character at a time. */
  function Substituted(f: string, who: Speaker): string
    decreases |f|
  {
    if f == [] then ""
    else if OpensAt(f, 0) then
      var e := IndexOfPercent(f, 1).value;
      Fill(Placeholder(f[1..e]), who).text + Substituted(f[e + 1..], who)
    else [f[0]] + Substituted(f[1..], who)
  }

  function Text(segs: seq<Segment>): string
  {
    if segs == [] then "" else segs[0].text + Text(segs[1..])
  }

  /** A plain-text token reads as its own characters. */
  lemma {:induction false} SubstitutedRun(f: string, who: Speaker)
    requires f != [] && !OpensAt(f, 0)
    ensures Substituted(f, who) == f[..RunEnd(f, 1)] + Substituted(f[RunEnd(f, 1)..], who)
    decreases |f|
  {
    var j := RunEnd(f, 1);
    if j > 1 {
      var g := f[1..];
      RunEndShift(f, 1, 1);
      assert g[0] != '%';
      SubstitutedRun(g, who);
      assert g[..RunEnd(g, 1)] == f[1..j];
      assert g[RunEnd(g, 1)..] == f[j..];
      ConsPlain(f, j, Substituted(f[j..], who));
    } else {
      assert f[..j] == [f[0]] && f[1..] == f[j..];
    }
  }

  lemma ConsPlain(f: string, j: nat, tail: string)
    requires 1 <= j <= |f|
    ensures [f[0]] + (f[1..j] + tail) == f[..j] + tail
  {
    assert f[..j] == [f[0]] + f[1..j];
  }

  /** The texts of the segments, read in order, are the format with its placeholders
      substituted. */
  lemma {:induction false} RenderText(f: string, who: Speaker)
    ensures Text(Render(f, who)) == Substituted(f, who)
    decreases |f|
  {
    if f != [] {
      var j := Advance(f, 0);
      RenderAt(f, 0, who);
      assert f[0..] == f;
      RenderText(f[j..], who);
      assert Text(Render(f, who)) == Fill(TokenAt(f, 0), who).text + Text(Render(f[j..], who));
      if !OpensAt(f, 0) {
        SubstitutedRun(f, who);
      }
    }
  }

  // ---------- the loop as written ----------

  /** The number of '%' in s. */
  function Percents(s: string): nat
  {
    if s == [] then 0 else (if s[0] == '%' then 1 else 0) + Percents(s[1..])
  }

  lemma {:induction false} PercentsAppend(a: string, b: string)
    ensures Percents(a + b) == Percents(a) + Percents(b)
  {
    if a == [] {
      assert a + b == b;
    } else {
      assert (a + b)[0] == a[0] && (a + b)[1..] == a[1..] + b;
      PercentsAppend(a[1..], b);
    }
  }

  lemma {:induction false} PercentsNone(s: string)
    requires forall j | 0 <= j < |s| :: s[j] != '%'
    ensures Percents(s) == 0
  {
    if s != [] {
      PercentsNone(s[1..]);
    }
  }

  /** The '%' from i on: those of f[i..j] and those from j on. */
  lemma PercentsSplit(f: string, i: nat, j: nat)
    requires i <= j <= |f|
    ensures Percents(f[i..]) == Percents(f[i..j]) + Percents(f[j..])
  {
    assert f[i..] == f[i..j] + f[j..];
    PercentsAppend(f[i..j], f[j..]);
  }

  /** One pass of buildChatMessage's outer loop exactly as written: where a '%' has no partner,
      the text loop stops at once on that '%' and i stays where it was. */
  function AsWrittenAdvance(f: string, i: nat): (j: nat)
    requires i < |f|
    ensures i <= j <= |f|
  {
    if OpensAt(f, i) then IndexOfPercent(f, i + 1).value + 1 else RunEnd(f, i)
  }

  /** Where i stands after n passes of the loop as written (the loop ends once i is |f|). */
  function AsWrittenPosition(f: string, i: nat, n: nat): (j: nat)
    requires i <= |f|
    ensures i <= j <= |f|
    decreases n
  {
    if n == 0 || i == |f| then i else AsWrittenPosition(f, AsWrittenAdvance(f, i), n - 1)
  }

  /** A '%' still ahead means the end is not reached. */
  lemma PercentsAhead(f: string, i: nat)
    requires i <= |f|
    ensures Percents(f[i..]) > 0 ==> i < |f|
  {
    if i == |f| {
      assert f[i..] == [];
    }
  }

  /** A pass of the loop as written keeps the parity of the '%' still ahead. */
  lemma AsWrittenParity(f: string, i: nat)
    requires i < |f|
    ensures Percents(f[AsWrittenAdvance(f, i)..]) % 2 == Percents(f[i..]) % 2
  {
    var j := AsWrittenAdvance(f, i);
    PercentsSplit(f, i, j);
    if OpensAt(f, i) {
      var e := IndexOfPercent(f, i + 1).value;
      assert j == e + 1;
      var mid := f[i + 1..e];
      assert forall k | 0 <= k < |mid| :: mid[k] == f[i + 1 + k];
      PercentsNone(mid);
      assert f[i..j] == [f[i]] + mid + [f[e]];
      PercentsAppend([f[i]] + mid, [f[e]]);
      PercentsAppend([f[i]], mid);
    } else {
      PercentsNone(f[i..j]);
    }
  }

  /** With an odd number of '%' the loop as written never reaches the end of the format. */
  lemma {:induction false} OddFormatNeverFinishes(f: string, i: nat, n: nat)
    requires i <= |f| && Percents(f[i..]) % 2 == 1
    ensures AsWrittenPosition(f, i, n) < |f|
    decreases n
  {
    PercentsAhead(f, i);
    if n > 0 {
      AsWrittenParity(f, i);
      OddFormatNeverFinishes(f, AsWrittenAdvance(f, i), n - 1);
    }
  }

  /** A '%' with no partner leaves an odd number of '%' ahead. */
  lemma UnclosedIsOdd(f: string, i: nat)
    requires i < |f| && f[i] == '%' && !OpensAt(f, i)
    ensures Percents(f[i..]) == 1
  {
    assert f[i..] == [f[i]] + f[i + 1..];
    PercentsAppend([f[i]], f[i + 1..]);
    PercentsNone(f[i + 1..]);
  }

  /** With an even number of '%' every pass of the loop as written moves on, and it takes the
      same step as the builder. */
  lemma AsWrittenAgrees(f: string, i: nat)
    requires i < |f| && Percents(f[i..]) % 2 == 0
    ensures AsWrittenAdvance(f, i) == Advance(f, i)
  {
    if f[i] == '%' && !OpensAt(f, i) {
      UnclosedIsOdd(f, i);
    } else if !OpensAt(f, i) {
      RunEndIs(f, i, RunEnd(f, i + 1));
    }
  }

  /** With an even number of '%' the loop as written reaches the end within |f| - i passes. */
  lemma {:induction false} EvenFormatFinishes(f: string, i: nat, n: nat)
    requires i <= |f| && Percents(f[i..]) % 2 == 0 && n >= |f| - i
    ensures AsWrittenPosition(f, i, n) == |f|
    decreases |f| - i
  {
    if i < |f| {
      AsWrittenAgrees(f, i);
      AsWrittenParity(f, i);
      EvenFormatFinishes(f, AsWrittenAdvance(f, i), n - 1);
    }
  }

  /** buildChatMessage as written terminates exactly on the formats with an even number of
      '%'. */
  lemma AsWrittenTerminatesIff(f: string)
    ensures (exists n: nat :: AsWrittenPosition(f, 0, n) == |f|) <==> Percents(f) % 2 == 0
  {
    assert f[0..] == f;
    if Percents(f) % 2 == 0 {
      EvenFormatFinishes(f, 0, |f|);
    } else {
      forall n: nat ensures AsWrittenPosition(f, 0, n) < |f| {
        OddFormatNeverFinishes(f, 0, n);
      }
    }
  }

  /** The format "50% off": the loop as written gets to the '%' and stays there. */
  lemma PercentSignStalls()
    ensures AsWrittenPosition("50% off", 0, 1) == 2
    ensures AsWrittenAdvance("50% off", 2) == 2
  {
    var f := "50% off";
    assert f[0] != '%' && f[1] != '%' && f[2] == '%';
    RunEndIs(f, 0, 2);
    RunEndIs(f, 3, |f|);
    RunEndIs(f, 2, 2);
  }
}
