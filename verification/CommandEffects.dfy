/** What a single command does, letter by letter, the bytes and the limits written as numbers. */
module CommandEffects {
  import opened Bytes
  import opened Numbers
  import opened Delimiters
  import opened Commands
  import opened Serial
  import opened SerialStream
  import opened CommandStream
  import opened Termination
  import opened CommandWindows
  import opened CommandFooters

  /** No terminator, line break or NUL (59, 10, 13, 0), and no header (58, 64) in front of a footer (33). */
  predicate Undisturbed(c: seq<byte>) {
    && 0 !in c && 10 !in c && 13 !in c && 59 !in c
    && forall i, j :: 0 <= i < j < |c| && c[j] == 33 ==> c[i] != 58 && c[i] != 64
  }

  /** A letter and a parameter that the collector takes in whole. */
  predicate Sendable(letter: byte, text: seq<byte>) {
    Undisturbed([letter] + text) && |text| <= 254
  }

  /** One call on the bytes returns, leaves no byte behind and changes the stored fields to config, and nothing else. */
  predicate Sets(st: State, w: seq<byte>, config: Config)
    requires Valid(st)
  {
    Halts(w) && Run(st, w) == Outcome(st.(commands := CommandState(config, [])), [])
  }

  /** The first n characters. */
  function Short(text: seq<byte>, n: nat): seq<byte> {
    if |text| <= n then text else text[..n]
  }

  // ----- one command through the loop -----

  lemma UndisturbedIsPlain(c: seq<byte>)
    requires Undisturbed(c)
    ensures Plain(c) && NextPiece(c).NoPiece?
  {
    forall k | 0 <= k < |c| ensures IsPlain(c[k]) {
      assert c[k] in c;
    }
    var e := FirstIndex(c, BANG);
    if e >= 0 {
      assert forall h :: h in c[..e] ==> h != AT && h != COLON;
    }
  }

  lemma {:induction false} NothingIsLeft(w: seq<byte>, c: seq<byte>)
    requires Plain(c) && NextPiece(c).NoPiece? && w == c + [SEMICOLON]
    ensures Stretch(w) == []
  {
    assert w == c + ([SEMICOLON] + []);
    assert SEMICOLON !in c;
    TerminatorAt(w, c, []);
    PieceBefore(c, [SEMICOLON]);
    StretchStep(w, []);
    StretchEnds([]);
  }

  lemma {:induction false} OneIsHandled(config: Config, cmd: Command)
    ensures HandleAll(config, [cmd]) == config + Assignment(cmd)
  {
    hide Assignment;
    assert [cmd][1..] == [];
  }

  /** A command that arrives whole is handled once, at once; the collector keeps the end of an overlong one. */
  lemma {:induction false} KeptEffect(st: State, c: seq<byte>, w: seq<byte>, kept: seq<byte>)
    requires Valid(st) && st.commands.pending == [] && Undisturbed(c) && w == c + [59]
    requires |kept| < 256 && kept == Kept(c)
    ensures Sets(st, w, st.commands.config + Assignment(Payload(kept)))
  {
    hide Run, Halts, Assignment, HandleAll, NextPiece, Stretch, Piled, Final, Payload, Kept;
    UndisturbedIsPlain(c);
    OneCommand(w, c);
    NothingIsLeft(w, c);
    WindowOutcome(st, w);
    SettledAtOnce(st.commands.config, [Payload(kept)]);
    OneIsHandled(st.commands.config, Payload(kept));
  }

  lemma {:induction false} OneEffect(st: State, c: seq<byte>, w: seq<byte>)
    requires Valid(st) && st.commands.pending == [] && Undisturbed(c) && |c| < 256 && w == c + [59]
    ensures Sets(st, w, st.commands.config + Assignment(Payload(c)))
  {
    hide Sets, Assignment, Payload;
    KeptEffect(st, c, w, c);
  }

  // ----- what is stored -----

  /** The parameter as the copy of a text field takes it. */
  lemma StoredText(letter: byte, text: seq<byte>, params: seq<byte>, n: nat)
    requires Sendable(letter, text) && params == Payload([letter] + text)[1..] && n <= 255
    ensures CString(params, n) == Short(text, n)
  {
    assert params[..|text|] == text && params[|text|] == NUL;
    assert forall k :: 0 <= k < |text| ==> text[k] == ([letter] + text)[k + 1];
    var window := params[..n];
    if |text| < n {
      assert window[..|text|] == text;
      FirstIndexUnique(window, NUL, |text|);
    } else {
      assert window == text[..n];
    }
  }

  lemma {:induction false} TextAssigned(letter: byte, text: seq<byte>, f: Field, n: nat)
    requires Sendable(letter, text) && TextField(letter) == map[letter := f] && n == FieldSize(f) - 2
    ensures Assignment(Payload([letter] + text)) == map[f := Text(Short(text, n))]
  {
    hide TextField, CString, FieldSize;
    FieldsAreSmall(f);
    StoredText(letter, text, Payload([letter] + text)[1..], n);
  }

  lemma FieldsAreSmall(f: Field)
    ensures 32 <= FieldSize(f) <= 64
  {
  }

  lemma {:induction false} TextSets(st: State, letter: byte, text: seq<byte>, f: Field, n: nat)
    requires Valid(st) && st.commands.pending == [] && Sendable(letter, text)
    requires TextField(letter) == map[letter := f] && n == FieldSize(f) - 2
    ensures Sets(st, [letter] + text + [59], st.commands.config[f := Text(Short(text, n))])
  {
    hide Sets, Assignment, FieldSize, TextField;
    OneEffect(st, [letter] + text, [letter] + text + [59]);
    TextAssigned(letter, text, f, n);
    assert st.commands.config + map[f := Text(Short(text, n))] == st.commands.config[f := Text(Short(text, n))];
  }

  /** The eight commands that store a text: 'I', 'f', 'd', 'p', 'm' for the name, firmware, description, serial number
      and model of the device, 's', '1', '3' for the network, the access point and its password. Each overwrites its
      field with the first 30 characters of the parameter, or 62, and nothing else. */
  lemma TextCommands(st: State, text: seq<byte>)
    requires Valid(st) && st.commands.pending == []
    ensures var config := st.commands.config;
      && (Sendable(73, text) ==> Sets(st, [73] + text + [59], config[Name := Text(Short(text, 30))]))
      && (Sendable(102, text) ==> Sets(st, [102] + text + [59], config[Firmware := Text(Short(text, 30))]))
      && (Sendable(100, text) ==> Sets(st, [100] + text + [59], config[Description := Text(Short(text, 62))]))
      && (Sendable(112, text) ==> Sets(st, [112] + text + [59], config[SerialNumber := Text(Short(text, 30))]))
      && (Sendable(109, text) ==> Sets(st, [109] + text + [59], config[Model := Text(Short(text, 30))]))
      && (Sendable(115, text) ==> Sets(st, [115] + text + [59], config[Ssid := Text(Short(text, 30))]))
      && (Sendable(49, text) ==> Sets(st, [49] + text + [59], config[SsidAp := Text(Short(text, 30))]))
      && (Sendable(51, text) ==> Sets(st, [51] + text + [59], config[PasswordAp := Text(Short(text, 62))]))
  {
    hide Sets, Sendable;
    if Sendable(73, text) { TextSets(st, 73, text, Name, 30); }
    if Sendable(102, text) { TextSets(st, 102, text, Firmware, 30); }
    if Sendable(100, text) { TextSets(st, 100, text, Description, 62); }
    if Sendable(112, text) { TextSets(st, 112, text, SerialNumber, 30); }
    if Sendable(109, text) { TextSets(st, 109, text, Model, 30); }
    if Sendable(115, text) { TextSets(st, 115, text, Ssid, 30); }
    if Sendable(49, text) { TextSets(st, 49, text, SsidAp, 30); }
    if Sendable(51, text) { TextSets(st, 51, text, PasswordAp, 62); }
  }

  // ----- numbers -----

  /** The digits of an int, with or without a sign, can be sent behind any letter. */
  lemma DigitsAreSendable(letter: byte, n: nat)
    requires n <= 2147483648 && (letter == 98 || letter == 116)
    ensures Sendable(letter, Decimal(n)) && Sendable(letter, [45] + Decimal(n))
  {
    DecimalLength(n, 20);
    assert forall k :: 0 <= k < |Decimal(n)| ==> IsDigit(Decimal(n)[k]);
  }

  lemma {:induction false} NumberSets(st: State, letter: byte, text: seq<byte>, value: int)
    requires Valid(st) && st.commands.pending == [] && Sendable(letter, text) && Atoi(text) == value
    ensures letter == 98 ==> Sets(st, [98] + text + [59],
      if value > 0 then st.commands.config[Baudrate := Number(value)] else st.commands.config)
    ensures letter == 116 ==> Sets(st, [116] + text + [59], st.commands.config[Interfaces := Number(value)])
  {
    hide Sets, Assignment, Atoi, Sendable;
    ShortParameter(letter, text);
    var config, cmd := st.commands.config, Payload([letter] + text);
    if letter == 98 || letter == 116 {
      AssignsNumber(cmd);
      OneEffect(st, [letter] + text, [letter] + text + [59]);
      NoOverwrite(config);
      assert config + map[Interfaces := Number(value)] == config[Interfaces := Number(value)];
      assert config + map[Baudrate := Number(value)] == config[Baudrate := Number(value)];
    }
  }

  lemma ShortParameter(letter: byte, text: seq<byte>)
    requires Sendable(letter, text)
    ensures Undisturbed([letter] + text) && |[letter] + text| < 256
    ensures CString(Payload([letter] + text)[1..], 256) == text
  {
    var params := Payload([letter] + text)[1..];
    StoredText(letter, text, params, 255);
    assert params[..255] == params;
  }

  /** 'b' sets the baud rate, 't' the interfaces; a baud rate of zero is refused. */
  lemma NumberCommands(st: State, n: nat)
    requires Valid(st) && st.commands.pending == [] && n <= 2147483647
    ensures var config := st.commands.config;
      && (n > 0 ==> Sets(st, [98] + Decimal(n) + [59], config[Baudrate := Number(n)]))
      && (n == 0 ==> Sets(st, [98] + Decimal(n) + [59], config))
      && Sets(st, [116] + Decimal(n) + [59], config[Interfaces := Number(n)])
  {
    hide Sets, Sendable, Atoi, Decimal;
    DigitsAreSendable(98, n);
    DigitsAreSendable(116, n);
    DecimalReads(n);
    NumberSets(st, 98, Decimal(n), n);
    NumberSets(st, 116, Decimal(n), n);
  }

  /** Behind a minus sign: no baud rate, but any interfaces. */
  lemma NegativeCommands(st: State, n: nat)
    requires Valid(st) && st.commands.pending == [] && n <= 2147483648
    ensures var config, digits := st.commands.config, [45] + Decimal(n);
      && Sets(st, [98] + digits + [59], config)
      && Sets(st, [116] + digits + [59], config[Interfaces := Number(0 - n as int)])
  {
    hide Sets, Sendable, Atoi, Decimal;
    var digits: seq<byte>, value: int := [45] + Decimal(n), 0 - n as int;
    DigitsAreSendable(98, n);
    DigitsAreSendable(116, n);
    NegativeReads(n);
    NumberSets(st, 98, digits, value);
    NumberSets(st, 116, digits, value);
  }

  /** Every other letter is ignored, with any parameter. */
  lemma OtherCommands(st: State, letter: byte, text: seq<byte>)
    requires Valid(st) && st.commands.pending == [] && Sendable(letter, text)
    requires letter !in [73, 102, 100, 112, 109, 115, 49, 51, 98, 116]
    ensures Sets(st, [letter] + text + [59], st.commands.config)
  {
    hide Sets;
    OneEffect(st, [letter] + text, [letter] + text + [59]);
    NoOverwrite(st.commands.config);
  }

  /** 256 characters in front of a command, or any multiple, leave no trace: the collector has started over. */
  lemma OverlongCommand(st: State, front: seq<byte>, text: seq<byte>)
    requires Valid(st) && st.commands.pending == [] && |front| % 256 == 0
    requires Undisturbed(front + ([73] + text)) && |text| <= 254
    ensures Sets(st, front + ([73] + text) + [59], st.commands.config[Name := Text(Short(text, 30))])
  {
    hide Sets, Assignment, Payload, TextField, Undisturbed;
    var c: seq<byte> := [73] + text;
    UndisturbedEnd(front, c);
    KeptEnd(front, c);
    KeptEffect(st, front + c, front + c + [59], c);
    NameAssigned(text);
    assert st.commands.config + map[Name := Text(Short(text, 30))]
        == st.commands.config[Name := Text(Short(text, 30))];
  }

  lemma NameAssigned(text: seq<byte>)
    requires Sendable(73, text)
    ensures Assignment(Payload([73] + text)) == map[Name := Text(Short(text, 30))]
  {
    hide Assignment, Short;
    TextAssigned(73, text, Name, 30);
  }

  lemma UndisturbedEnd(front: seq<byte>, c: seq<byte>)
    requires Undisturbed(front + c)
    ensures Undisturbed(c)
  {
    var w := front + c;
    assert forall i :: 0 <= i < |c| ==> c[i] == w[|front| + i];
    assert forall b :: b in c ==> b in w;
  }

  lemma KeptEnd(front: seq<byte>, c: seq<byte>)
    requires |front| % 256 == 0 && 0 < |c| < 256
    ensures Kept(front + c) == c
  {
    assert |front + c| % 256 == |c|;
    assert (front + c)[|front|..] == c;
  }
}
