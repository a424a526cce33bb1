/** Command text cut into calls. */
module CommandChunks {
  import opened Bytes
  import opened Delimiters
  import opened Commands
  import opened Serial
  import opened SerialStream
  import opened CommandStream
  import opened Termination
  import opened CommandWindows

  /** Text of commands: breaks only in front of a command, and no header when there is a footer. */
  predicate CommandText(t: seq<byte>) {
    !MidBreak(t) && (BANG !in t || (AT !in t && COLON !in t))
  }

  lemma FrontOfText(t: seq<byte>, i: nat)
    requires CommandText(t) && i <= |t|
    ensures CommandText(t[..i])
  {
    var part := t[..i];
    assert forall b :: b in part ==> b in t;
    if k :| 0 <= k < |part| && BreaksAt(part, k) {
      assert BreaksAt(t, k);
    }
  }

  lemma EndOfText(t: seq<byte>, i: nat)
    requires CommandText(t) && i <= |t|
    ensures CommandText(t[i..])
  {
    var part := t[i..];
    assert forall b :: b in part ==> b in t;
    if k :| 0 <= k < |part| && BreaksAt(part, k) {
      assert BreaksAt(t, i + k);
    }
  }

  lemma {:induction false} PiecesAreLines(t: seq<byte>)
    requires CommandText(t)
    ensures AreCommandLines(CommandsOf(t)) && IsCommandLine(TailOf(t))
    decreases |t|
  {
    var i := FirstIndex(t, SEMICOLON);
    if i >= 0 {
      FrontOfText(t, i);
      EndOfText(t, i + 1);
      PiecesAreLines(t[i + 1..]);
      CommandsStep(t, i);
      TailStep(t, i);
      LinesCons(t[..i], CommandsOf(t[i + 1..]));
    }
  }

  lemma LinesCons(c: seq<byte>, cs: seq<seq<byte>>)
    requires IsCommandLine(c) && AreCommandLines(cs)
    ensures AreCommandLines([c] + cs)
  {
  }

  lemma TextIsFrameFree(t: seq<byte>)
    requires CommandText(t)
    ensures FrameFree(t)
  {
    if BANG !in t {
      FooterlessIsFrameFree(t);
    } else {
      HeaderlessIsFrameFree(t);
    }
  }

  /** The commands of a text as the handler gets them. */
  function Handed(t: seq<byte>): seq<Command> {
    Payloads(Stripped(CommandsOf(t)))
  }

  lemma {:induction false} TextIsFound(t: seq<byte>)
    requires CommandText(t)
    ensures Found(t) == Segmented(0, Handed(t))
  {
    TextIsTerminated(t);
    PiecesAreLines(t);
    LineFraming(CommandsOf(t), TailOf(t), |t|);
    TailFindsNothing(TailOf(t));
    assert Handed(t) + [] == Handed(t);
  }

  lemma {:induction false} HandedIsFinal(w: seq<byte>)
    requires CommandText(w)
    ensures Piled(w) == [] && Final(w) == Handed(w)
  {
    TextIsFound(w);
    TextIsFrameFree(w);
    FrameFreeStep(w);
    if NextMeeting(w).Skips? {
      UnbrokenPile(w);
      UnbrokenFinal(w);
    } else {
      StretchEnds(w);
    }
  }

  lemma SettledText(config: Config, all: seq<Command>)
    requires |all| <= CMD_QUEUE_LENGTH
    ensures Settled(CommandState(config, []), [], all) == CommandState(HandleAll(config, all), [])
  {
    assert [] + ([] + all) == all;
  }

  /** A call on a window of command text. */
  lemma {:induction false} TextHandled(st: State, w: seq<byte>)
    requires Valid(st) && st.commands.pending == [] && CommandText(w) && |CommandsOf(w)| <= CMD_QUEUE_LENGTH
    ensures Halts(w) && RestOf(w) == TailOf(w)
    ensures Run(st, w) == Outcome(WithCommands(st, HandleAll(st.commands.config, Handed(w)), []), TailOf(w))
  {
    TextIsFrameFree(w);
    HandedIsFinal(w);
    WindowOutcome(st, w);
    StretchIsTail(w);
    SettledText(st.commands.config, Handed(w));
    RestIsRestOf(st, w);
  }

  /** No window overflows the ring or holds more than sixteen terminators. */
  predicate CommandsFit(held: seq<byte>, chunks: seq<seq<byte>>)
    decreases |chunks|
  {
    chunks == [] ||
    var w := held + chunks[0];
    |w| <= MAX_DATA_LENGTH && |CommandsOf(w)| <= CMD_QUEUE_LENGTH && CommandsFit(TailOf(w), chunks[1..])
  }

  lemma HandedAppend(cs: seq<seq<byte>>, ds: seq<seq<byte>>)
    ensures Payloads(Stripped(cs + ds)) == Payloads(Stripped(cs)) + Payloads(Stripped(ds))
  {
  }

  lemma HandleMore(config: Config, u: seq<byte>, v: seq<byte>)
    ensures HandleAll(HandleAll(config, Handed(u)), Handed(TailOf(u) + v)) == HandleAll(config, Handed(u + v))
  {
    CommandsOfAppend(u, v);
    HandedAppend(CommandsOf(u), CommandsOf(TailOf(u) + v));
    HandleAppend(config, Handed(u), Handed(TailOf(u) + v));
  }

  lemma TextWithoutCommands(st: State, t: seq<byte>)
    requires Valid(st) && st.commands.pending == [] && SEMICOLON !in t
    ensures TailOf(t) == t && WithCommands(st, HandleAll(st.commands.config, Handed(t)), []) == st
  {
    assert Stripped(CommandsOf(t)) == [];
  }

  /** The parts of a text at a cut. */
  lemma CutText(w: seq<byte>, later: seq<byte>)
    requires CommandText(w + later)
    ensures CommandText(w) && CommandText(TailOf(w) + later) && SEMICOLON !in TailOf(w)
    ensures TailOf(w + later) == TailOf(TailOf(w) + later)
  {
    var all := w + later;
    var k := TailStart(w);
    FrontOfText(all, |w|);
    EndOfText(all, k);
    assert all[..|w|] == w && all[k..] == TailOf(w) + later;
    CommandsOfAppend(w, later);
  }

  /** However command text is cut into calls, the device ends with each command of the whole text handled once, in
      order, an empty command queue and the unfinished command held. */
  lemma {:induction false} CommandChunkInvariance(st: State, held: seq<byte>, chunks: seq<seq<byte>>, text: seq<byte>)
    requires Valid(st) && st.commands.pending == [] && SEMICOLON !in held
    requires text == held + Concat(chunks) && CommandText(text) && CommandsFit(held, chunks)
    ensures FeedHalts(held, chunks)
    ensures Feed(st, held, chunks)
         == Outcome(WithCommands(st, HandleAll(st.commands.config, Handed(text)), []), TailOf(text))
    decreases |chunks|
  {
    if chunks == [] {
      assert text == held;
      TextWithoutCommands(st, held);
    } else {
      var w, later := held + chunks[0], Concat(chunks[1..]);
      Assoc(held, chunks[0], later);
      CutText(w, later);
      TextHandled(st, w);
      var st' := WithCommands(st, HandleAll(st.commands.config, Handed(w)), []);
      CommandChunkInvariance(st', TailOf(w), chunks[1..], TailOf(w) + later);
      FeedStep(st, held, chunks);
      HandleMore(st.commands.config, w, later);
    }
  }
}
