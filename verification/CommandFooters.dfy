/** Commands with a '!' in them: what stands in front of it is taken for a frame when a header comes before it. */
module CommandFooters {
  import opened Bytes
  import opened Delimiters
  import opened Commands
  import opened Serial
  import opened SerialStream
  import opened CommandStream
  import opened Termination
  import opened CommandWindows

  lemma {:induction false} ThroughFrame(c: CommandState, w: seq<byte>, later: seq<byte>, body: Body)
    requires NextMeeting(w) == Delivers(body, later)
    ensures Through(c, w) == Through(c, later)
  {
  }

  lemma {:induction false} ParseFrame(w: seq<byte>, later: seq<byte>, body: Body)
    requires NextMeeting(w) == Delivers(body, later)
    ensures Parse(w).rest == Parse(later).rest && |later| < |w|
  {
  }

  lemma {:induction false} ParseEnd(w: seq<byte>)
    requires !NextMeeting(w).Delivers?
    ensures Parse(w).rest == w
  {
  }

  /** The frames at the front of a window leave the command part alone, and only what the parser leaves counts. */
  lemma {:induction false} ThroughParsed(c: CommandState, w: seq<byte>)
    ensures Through(c, w) == Through(c, Parse(w).rest)
    decreases |w|
  {
    match NextMeeting(w)
    case Delivers(body, later) =>
      ThroughFrame(c, w, later, body);
      ParseFrame(w, later, body);
      ThroughParsed(c, later);
    case _ => ParseEnd(w);
  }

  lemma {:induction false} ThroughStop(c: CommandState, w: seq<byte>)
    requires NextMeeting(w).Stops?
    ensures Through(c, w) == c
  {
  }

  lemma {:induction false} ThroughSkip(c: CommandState, w: seq<byte>)
    requires NextMeeting(w).Skips?
    ensures Through(c, w) == Through(Settled(c, Piled(w), Final(w)), Stretch(w))
  {
  }

  lemma {:induction false} ThroughFrameFree(c: CommandState, w: seq<byte>)
    requires |c.pending| <= CMD_QUEUE_LENGTH && FrameFree(w)
    ensures Through(c, w) == Settled(c, Piled(w), Final(w))
  {
    FrameFreeStep(w);
    if NextMeeting(w).Skips? {
      FrameFreeEnd(w);
      ThroughSkip(c, w);
      ThroughStop(Settled(c, Piled(w), Final(w)), Stretch(w));
    } else {
      StretchEnds(w);
      NothingSettles(c);
      ThroughStop(c, w);
    }
  }

  /** Any window with frames at its front: the command part ends as after a call on what the reference parser leaves
      of the window. */
  lemma BehindTheFrames(st: State, w: seq<byte>)
    requires Valid(st) && Halts(w) && FrameFree(Parse(w).rest)
    ensures Halts(Parse(w).rest)
    ensures Run(st, w).state.commands == Run(st, Parse(w).rest).state.commands
    ensures Run(st, w).state.commands == Settled(st.commands, Piled(Parse(w).rest), Final(Parse(w).rest))
  {
    EveryWindow(st, w);
    ThroughParsed(st.commands, w);
    ThroughFrameFree(st.commands, Parse(w).rest);
    WindowOutcome(st, Parse(w).rest);
  }

  // ----- one command -----

  /** The parser leaves a window as it is exactly when no header stands before its first footer. */
  lemma {:induction false} ParsedWholeIff(w: seq<byte>)
    ensures Parse(w).rest == w
       <==> BANG !in w || (AT !in w[..FirstIndex(w, BANG)] && COLON !in w[..FirstIndex(w, BANG)])
  {
    if NextPiece(w).Piece? {
      ParseShrinks(NextPiece(w).later);
    }
  }

  lemma {:induction false} ParseShrinks(w: seq<byte>)
    ensures |Parse(w).rest| <= |w|
    decreases |w|
  {
    if NextPiece(w).Piece? {
      ParseShrinks(NextPiece(w).later);
    }
  }

  lemma PieceBefore(u: seq<byte>, v: seq<byte>)
    requires BANG !in v
    ensures NextPiece(u).NoPiece? ==> NextPiece(u + v).NoPiece?
    ensures NextPiece(u).Piece? ==> NextPiece(u + v) == Piece(NextPiece(u).body, NextPiece(u).later + v)
  {
    if BANG in u {
      var e := FirstIndex(u, BANG);
      FirstPrefix(u, v, BANG);
      TakeAppend(u, v, e);
      DropAppend(u, v, e + 1);
    } else {
      assert BANG !in u + v;
    }
  }

  /** What follows the last footer stays behind. */
  lemma {:induction false} ParseAppend(u: seq<byte>, v: seq<byte>)
    requires BANG !in v
    ensures Parse(u + v).rest == Parse(u).rest + v
    decreases |u|
  {
    PieceBefore(u, v);
    if NextPiece(u).Piece? {
      ParseAppend(NextPiece(u).later, v);
    }
  }

  /** What the parser leaves is the end of the window. */
  lemma {:induction false} ParsedIsPart(w: seq<byte>, b: byte)
    requires b in Parse(w).rest
    ensures b in w
    decreases |w|
  {
    if NextPiece(w).Piece? {
      ParsedIsPart(NextPiece(w).later, b);
      assert NextPiece(w).later == w[FirstIndex(w, BANG) + 1..];
    }
  }

  lemma {:induction false} ParsedIsPlain(c: seq<byte>)
    requires Plain(c)
    ensures Plain(Parse(c).rest) && NextPiece(Parse(c).rest).NoPiece?
    decreases |c|
  {
    if NextPiece(c).Piece? {
      var later := NextPiece(c).later;
      assert later == c[FirstIndex(c, BANG) + 1..];
      assert forall b :: b in later ==> b in c;
      ParsedIsPlain(later);
    }
  }

  /** One command and its terminator, without a frame in front of it. */
  lemma {:induction false} OneCommand(w: seq<byte>, c: seq<byte>)
    requires Plain(c) && NextPiece(c).NoPiece? && w == c + [SEMICOLON]
    ensures FrameFree(w) && Piled(w) == [] && Final(w) == [Payload(Kept(c))]
  {
    assert w == c + ([SEMICOLON] + []);
    assert SEMICOLON !in c;
    TerminatorAt(w, c, []);
    PieceBefore(c, [SEMICOLON]);
    FrameFreeStep(w);
    FrameFreeStep([]);
    PlainIsLine(c);
    OneIsFound(w, c);
    UnbrokenPile(w);
    UnbrokenFinal(w);
  }

  lemma {:induction false} OneIsFound(w: seq<byte>, c: seq<byte>)
    requires Plain(c) && w == c + [SEMICOLON]
    ensures Found(w) == Segmented(0, [Payload(Kept(c))])
  {
    PlainIsCollected([], c, [SEMICOLON], false, |w|);
    assert [] + c == c && Kept([]) == [];
    assert [SEMICOLON][1..] == [];
  }

  /** A single plain command, as the handler gets it: what the reference parser leaves of it. It arrives whole if and
      only if no header stands before its first '!'. */
  lemma CommandArrivesWholeIff(st: State, c: seq<byte>)
    requires Valid(st) && st.commands.pending == [] && Plain(c) && Halts(c + [SEMICOLON])
    ensures Run(st, c + [SEMICOLON]).state.commands
         == CommandState(HandleAll(st.commands.config, [Payload(Kept(Parse(c).rest))]), [])
    ensures Parse(c).rest == c
       <==> BANG !in c || (AT !in c[..FirstIndex(c, BANG)] && COLON !in c[..FirstIndex(c, BANG)])
  {
    var rest, w := Parse(c).rest, c + [SEMICOLON];
    ParseAppend(c, [SEMICOLON]);
    ParsedIsPlain(c);
    OneCommand(rest + [SEMICOLON], rest);
    BehindTheFrames(st, w);
    SettledAtOnce(st.commands.config, [Payload(Kept(rest))]);
    ParsedWholeIff(c);
  }

  lemma SettledAtOnce(config: Config, all: seq<Command>)
    requires |all| <= CMD_QUEUE_LENGTH
    ensures Settled(CommandState(config, []), [], all) == CommandState(HandleAll(config, all), [])
  {
    assert [] + ([] + all) == all;
  }

  // ----- a lost password -----

  /** "3" and the password "a:b!c" */
  function PasswordCommand(): seq<byte> {
    [51, 97, COLON, 98, BANG, 99]
  }

  /** "IX;" in front of it. */
  function NameAndPassword(): seq<byte> {
    [73, 88, SEMICOLON] + PasswordCommand() + [SEMICOLON]
  }

  lemma PasswordFooter(w: seq<byte>, front: seq<byte>, later: seq<byte>)
    requires w == NameAndPassword() && front == [73, 88, SEMICOLON, 51, 97, COLON, 98] && later == [99] + [SEMICOLON]
    ensures FirstIndex(w, BANG) == 7 && w[..7] == front && w[8..] == later
  {
    assert w[..7] == front && w[7] == BANG && w[8..] == later;
    FirstIndexUnique(w, BANG, 7);
  }

  lemma PasswordHeader(front: seq<byte>)
    requires front == [73, 88, SEMICOLON, 51, 97, COLON, 98]
    ensures AT !in front && COLON in front && LastIndex(front, COLON) == 5 && front[6..] == [98]
  {
    assert front[5] == COLON && front[6..] == [98];
    LastIndexUnique(front, COLON, 5);
  }

  lemma {:induction false} PasswordPiece(w: seq<byte>, later: seq<byte>)
    requires w == NameAndPassword() && later == [99] + [SEMICOLON]
    ensures NextPiece(w) == Piece(EncodedBody([98]), later)
  {
    var front: seq<byte> := [73, 88, SEMICOLON, 51, 97, COLON, 98];
    PasswordFooter(w, front, later);
    PasswordHeader(front);
  }

  lemma {:induction false} OnePiece(w: seq<byte>, body: Body, later: seq<byte>)
    requires NextPiece(w) == Piece(body, later) && BANG !in later
    ensures Parse(w).rest == later
  {
    ParseFrame(w, later, body);
    ParseEnd(later);
  }

  lemma NoEqualsInPassword(w: seq<byte>)
    requires w == NameAndPassword()
    ensures EQUALS !in w
  {
  }

  lemma NoCommandLetter(config: Config, cmd: Command)
    requires cmd == Payload([99])
    ensures HandleAll(config, [cmd]) == config
  {
    NoOverwrite(config);
    assert Assignment(cmd) == map[];
    assert [cmd][1..] == [];
  }

  /** "IX;3a:b!c;" in one call, from an empty command queue: no field changes. The ':' and the '!' of the password are
      taken for a frame, which takes the name with it; "c" is left, which is no command. */
  lemma PasswordIsLost(st: State)
    requires Valid(st) && st.commands.pending == []
    ensures Halts(NameAndPassword()) && Run(st, NameAndPassword()).state.commands == st.commands
  {
    hide NextPiece, Parse, Run, FirstIndex, LastIndex, Halts;
    var w, later := NameAndPassword(), [99] + [SEMICOLON];
    PasswordPiece(w, later);
    OnePiece(w, EncodedBody([98]), later);
    NoEqualsInPassword(w);
    NoEqualsHalts(w);
    OneLetterIsLeft(st, w, later);
  }

  lemma {:induction false} OneLetterIsLeft(st: State, w: seq<byte>, later: seq<byte>)
    requires Valid(st) && st.commands.pending == [] && Halts(w) && Parse(w).rest == later == [99] + [SEMICOLON]
    ensures Run(st, w).state.commands == st.commands
  {
    var cmd := Payload([99]);
    assert Kept([99]) == [99];
    OneCommand(later, [99]);
    BehindTheFrames(st, w);
    NoCommandLetter(st.commands.config, cmd);
    SettledAtOnce(st.commands.config, [cmd]);
  }
}
