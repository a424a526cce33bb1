/** The device: its stored fields, its queues and the methods that process received bytes in place. */
module Device {
  import opened Bytes
  import opened Numbers
  import opened Delimiters
  import opened Packets
  import opened Commands
  import opened Serial
  import opened RingBuffer
  import BR = ByteRing
  import Base64

  /** The fields of device_descriptor and device_params that commands write. Text fields are character buffers; their
      value is the C string they hold. */
  class DeviceInfo {
    const deviceName: array<byte>
    const deviceFw: array<byte>
    const deviceDesc: array<byte>
    const deviceSn: array<byte>
    const deviceModel: array<byte>
    const ssid: array<byte>
    const ssidAp: array<byte>
    const pwAp: array<byte>
    var baudrate: int
    var allEnabledInterfaces: int

    ghost predicate IsText(f: Field) {
      f != Baudrate && f != Interfaces
    }

    /** The buffer of a text field. */
    ghost function Buffer(f: Field): array<byte>
      requires IsText(f)
    {
      match f
      case Name => deviceName
      case Firmware => deviceFw
      case Description => deviceDesc
      case SerialNumber => deviceSn
      case Model => deviceModel
      case Ssid => ssid
      case SsidAp => ssidAp
      case PasswordAp => pwAp
    }

    ghost function Buffers(): set<array<byte>> {
      {deviceName, deviceFw, deviceDesc, deviceSn, deviceModel, ssid, ssidAp, pwAp}
    }

    ghost predicate Valid() {
      && (forall f | IsText(f) :: Buffer(f).Length == FieldSize(f))
      && (forall f, g | IsText(f) && IsText(g) && f != g :: Buffer(f) != Buffer(g))
    }

    ghost function Value(f: Field): Value
      reads this, Buffers()
    {
      if f == Baudrate then Number(baudrate)
      else if f == Interfaces then Number(allEnabledInterfaces)
      else Text(CString(Buffer(f)[..], Buffer(f).Length))
    }

    ghost function Config(): (c: Config)
      reads this, Buffers()
    {
      map f: Field | true :: Value(f)
    }

    /** Each field of the abstract configuration is the C string of the buffer it is named after, or the number. */
    lemma ConfigIs()
      requires Valid()
      ensures deviceName.Length == 32 && Config()[Name] == Text(CString(deviceName[..], 32))
      ensures deviceFw.Length == 32 && Config()[Firmware] == Text(CString(deviceFw[..], 32))
      ensures deviceDesc.Length == 64 && Config()[Description] == Text(CString(deviceDesc[..], 64))
      ensures deviceSn.Length == 32 && Config()[SerialNumber] == Text(CString(deviceSn[..], 32))
      ensures deviceModel.Length == 32 && Config()[Model] == Text(CString(deviceModel[..], 32))
      ensures ssid.Length == 32 && Config()[Ssid] == Text(CString(ssid[..], 32))
      ensures ssidAp.Length == 32 && Config()[SsidAp] == Text(CString(ssidAp[..], 32))
      ensures pwAp.Length == 64 && Config()[PasswordAp] == Text(CString(pwAp[..], 64))
      ensures Config()[Baudrate] == Number(baudrate) && Config()[Interfaces] == Number(allEnabledInterfaces)
    {
      hide CString;
      TextConfig(Name);
      TextConfig(Firmware);
      TextConfig(Description);
      TextConfig(SerialNumber);
      TextConfig(Model);
      TextConfig(Ssid);
      TextConfig(SsidAp);
      TextConfig(PasswordAp);
    }

    lemma TextConfig(f: Field)
      requires Valid() && IsText(f)
      ensures Buffer(f).Length == FieldSize(f) && Config()[f] == Text(CString(Buffer(f)[..], FieldSize(f)))
    {
    }

    constructor ()
      ensures Valid()
      ensures fresh(deviceName) && fresh(deviceFw) && fresh(deviceDesc) && fresh(deviceSn) && fresh(deviceModel)
      ensures fresh(ssid) && fresh(ssidAp) && fresh(pwAp)
    {
      deviceName := new byte[32];
      deviceFw := new byte[32];
      deviceDesc := new byte[64];
      deviceSn := new byte[32];
      deviceModel := new byte[32];
      ssid := new byte[32];
      ssidAp := new byte[32];
      pwAp := new byte[64];
      baudrate, allEnabledInterfaces := 0, 0;
    }

    /** fs_safe_strncpy(dest, params, size - 1) and the final terminator. */
    static method CopyParam(dest: array<byte>, params: seq<byte>)
      requires dest.Length >= 2 && NUL in params
      modifies dest
      ensures CString(dest[..], dest.Length) == CString(params, dest.Length - 2)
    {
      SafeStrncpy(dest, params, dest.Length - 1);
      ghost var t := CString(dest[..], dest.Length);
      assert dest[..][..|t|] == t && dest[|t|] == NUL;
      dest[dest.Length - 1] := NUL;
      StoredString(dest[..], t);
    }

    /** Storing one text field leaves every other field alone. */
    method SetText(ghost f: Field, dest: array<byte>, cmd: Command)
      requires Valid() && IsText(f) && dest == Buffer(f) && TextField(cmd[0]) == map[cmd[0] := f]
      modifies dest
      ensures Config() == old(Config()) + Assignment(cmd)
    {
      var params := cmd[1..];
      assert params[|params| - 1] == NUL;
      CopyParam(dest, params);
      forall g: Field | g != f ensures Value(g) == old(Value(g)) {
        if IsText(g) {
          assert Buffer(g) != dest;
        }
      }
      assert Assignment(cmd) == map[f := Value(f)];
    }

    /** Storing a number leaves every other field alone. */
    method StoreNumber(f: Field, n: int)
      requires !IsText(f)
      modifies this`baudrate, this`allEnabledInterfaces
      ensures Config() == old(Config()) + map[f := Number(n)]
    {
      hide CString, FirstIndex;
      if f == Baudrate {
        baudrate := n;
      } else {
        allEnabledInterfaces := n;
      }
      assert forall g: Field | IsText(g) :: Value(g) == old(Value(g));
    }

    /** The two numeric commands; a baud rate that is not positive is refused. */
    method SetNumber(cmd: Command)
      requires cmd[0] == 98 || cmd[0] == 116
      modifies this`baudrate, this`allEnabledInterfaces
      ensures Config() == old(Config()) + Assignment(cmd)
    {
      var n := Atoi(CString(cmd[1..], MAX_CMD_LENGTH));
      AssignsNumber(cmd);
      NoOverwrite(Config());
      if cmd[0] == 116 {
        StoreNumber(Interfaces, n);
      } else if n > 0 {
        StoreNumber(Baudrate, n);
      }
    }

    /** The switch of fs_handle_received_commands: exactly the field that the command names is overwritten. */
    method HandleCommand(cmd: Command)
      requires Valid()
      modifies this`baudrate, this`allEnabledInterfaces, Buffers()
      ensures Config() == old(Config()) + Assignment(cmd)
    {
      var c := cmd[0];
      if c == 73 {
        SetText(Name, deviceName, cmd);
      } else if c == 98 || c == 116 {
        SetNumber(cmd);
      } else if c == 115 {
        SetText(Ssid, ssid, cmd);
      } else if c == 49 {
        SetText(SsidAp, ssidAp, cmd);
      } else if c == 51 {
        SetText(PasswordAp, pwAp, cmd);
      } else if c == 112 {
        SetText(SerialNumber, deviceSn, cmd);
      } else if c == 109 {
        SetText(Model, deviceModel, cmd);
      } else if c == 102 {
        SetText(Firmware, deviceFw, cmd);
      } else if c == 100 {
        SetText(Description, deviceDesc, cmd);
      }
    }
  }

  // ----- fs_segment_commands -----

  /** memset(cmd.payload, 0, sizeof(cmd.payload)) */
  method ClearPayload(payload: array<byte>)
    requires payload.Length == MAX_CMD_LENGTH
    modifies payload
    ensures payload[..] == Payload([])
  {
    for i := 0 to payload.Length
      invariant forall k :: 0 <= k < i ==> payload[k] == NUL
    {
      payload[i] := NUL;
    }
  }

  /** A character of a command: stored, or the point where an overlong command starts over. */
  method Collect(payload: array<byte>, inputPos: nat, ghost text: seq<byte>, b: byte)
    returns (pos: nat, ghost collected: seq<byte>)
    requires payload.Length == MAX_CMD_LENGTH && inputPos == |text| < MAX_CMD_LENGTH && payload[..] == Payload(text)
    modifies payload
    ensures collected == if |text| < MAX_CMD_LENGTH - 1 then text + [b] else []
    ensures pos == |collected| < MAX_CMD_LENGTH && payload[..] == Payload(collected)
  {
    if inputPos < MAX_CMD_LENGTH - 1 {
      payload[inputPos] := b;
      pos, collected := inputPos + 1, text + [b];
      assert payload[..] == Payload(collected);
    } else {
      pos, collected := 0, [];
      ClearPayload(payload);
    }
  }

  /** A terminator: the collected command is enqueued and the collector cleared. */
  method Terminate(queue: Ring<Command>, payload: array<byte>, inputPos: nat, ghost text: seq<byte>)
    returns (pushed: bool)
    requires queue.Valid() && queue.size == CMD_QUEUE_LENGTH && payload as object != queue.buffer
    requires payload.Length == MAX_CMD_LENGTH && inputPos == |text| < MAX_CMD_LENGTH && payload[..] == Payload(text)
    modifies queue, queue.buffer, payload
    ensures queue.Valid() && pushed == (|old(queue.Contents())| < CMD_QUEUE_LENGTH)
    ensures pushed ==> queue.Contents() == old(queue.Contents()) + [Payload(text)] && payload[..] == Payload([])
    ensures !pushed ==> queue.Contents() == old(queue.Contents())
  {
    payload[inputPos] := NUL;
    assert payload[..] == Payload(text);
    pushed := queue.Push(payload[..]);
    if pushed {
      ClearPayload(payload);
    }
  }

  /** One byte of the state machine, when it does not end the scan: the new collector and reading flag. */
  lemma SegmentStep(input: seq<byte>, text: seq<byte>, reading: bool, free: nat)
    requires input != [] && |text| < MAX_CMD_LENGTH
    ensures var b, r := input[0], SegmentFrom(input, text, reading, free);
      && (b == SEMICOLON && free == 0 ==> r == Segmented(-1, []))
      && (b == SEMICOLON && free > 0 ==> r == Prepend(Payload(text), SegmentFrom(input[1..], [], false, free - 1)))
      && (IsBreak(b) && reading ==> r == Segmented(3, []))
      && (IsBreak(b) && !reading ==> r == SegmentFrom(input[1..], [], false, free))
      && (IsPlain(b) && |text| < MAX_CMD_LENGTH - 1 ==> r == SegmentFrom(input[1..], text + [b], true, free))
      && (IsPlain(b) && |text| == MAX_CMD_LENGTH - 1 ==> r == SegmentFrom(input[1..], [], true, free))
  {
  }

  /** goal is what has been enqueued so far followed by the outcome r of the rest. */
  predicate Continues(goal: Segmented, done: seq<Command>, r: Segmented) {
    goal.rc == r.rc && goal.commands == done + r.commands
  }

  lemma ContinuesPast(goal: Segmented, done: seq<Command>, c: Command, r: Segmented)
    requires Continues(goal, done, Prepend(c, r))
    ensures Continues(goal, done + [c], r)
  {
    Assoc(done, [c], r.commands);
  }

  lemma ContinuesEnd(goal: Segmented, done: seq<Command>, rc: int)
    requires Continues(goal, done, Segmented(rc, []))
    ensures goal == Segmented(rc, done)
  {
    assert done + [] == done;
  }

  method SegmentCommands(queue: Ring<Command>, input: seq<byte>) returns (rc: int)
    requires queue.Valid() && queue.size == CMD_QUEUE_LENGTH
    modifies queue, queue.buffer
    ensures queue.Valid()
    ensures rc == Segmentation(input, CMD_QUEUE_LENGTH - |old(queue.Contents())|).rc
    ensures queue.Contents() == old(queue.Contents())
                              + Segmentation(input, CMD_QUEUE_LENGTH - |old(queue.Contents())|).commands
  {
    ghost var before, free := queue.Contents(), CMD_QUEUE_LENGTH - |queue.Contents()|;
    ghost var goal := Segmentation(input, free);
    var payload := new byte[MAX_CMD_LENGTH];
    ClearPayload(payload);
    var inputPos: nat, reading := 0, false;
    ghost var text: seq<byte>, done: seq<Command> := [], [];
    assert input[0..] == input && before + done == before && [] + goal.commands == goal.commands;
    for i := 0 to |input|
      invariant queue.Valid() && queue.Contents() == before + done && |queue.Contents()| + free == CMD_QUEUE_LENGTH
      invariant inputPos == |text| < MAX_CMD_LENGTH && payload[..] == Payload(text)
      invariant Continues(goal, done, SegmentFrom(input[i..], text, reading, free))
    {
      var inByte := input[i];
      SegmentStep(input[i..], text, reading, free);
      assert input[i..][1..] == input[i + 1..];
      if inByte == SEMICOLON {
        var pushed := Terminate(queue, payload, inputPos, text);
        if !pushed {
          ContinuesEnd(goal, done, -1);
          assert queue.Contents() == before + goal.commands;
          return -1;
        }
        ContinuesPast(goal, done, Payload(text), SegmentFrom(input[i + 1..], [], false, free - 1));
        Assoc(before, done, [Payload(text)]);
        done, free := done + [Payload(text)], free - 1;
        inputPos, text, reading := 0, [], false;
      } else if IsBreak(inByte) {
        if reading {
          ContinuesEnd(goal, done, 3);
          assert queue.Contents() == before + goal.commands;
          return 3;
        }
        inputPos, text := 0, [];
        ClearPayload(payload);
      } else {
        reading := true;
        inputPos, text := Collect(payload, inputPos, text, inByte);
      }
    }
    assert input[|input|..] == [];
    ContinuesEnd(goal, done, 0);
    assert queue.Contents() == before + goal.commands;
    return 0;
  }

  /** One turn of the drain loop: the oldest waiting command, if any, is handled. */
  method DrainOne(queue: Ring<Command>, info: DeviceInfo) returns (more: bool)
    requires queue.Valid() && info.Valid() && queue.buffer as object !in info.Buffers()
    modifies queue, info`baudrate, info`allEnabledInterfaces, info.Buffers()
    ensures queue.Valid() && more == (|old(queue.Contents())| > 0)
    ensures !more ==> queue.Contents() == [] && info.Config() == old(info.Config())
    ensures more ==> queue.Contents() == old(queue.Contents())[1..]
    ensures more ==> info.Config() == old(info.Config()) + Assignment(old(queue.Contents())[0])
  {
    var cmd := queue.Pop();
    more := cmd.Some?;
    if more {
      info.HandleCommand(cmd.value);
    }
  }

  /** The drain loop of fs_handle_received_commands. */
  method DrainCommands(queue: Ring<Command>, info: DeviceInfo)
    requires queue.Valid() && info.Valid() && queue.buffer as object !in info.Buffers()
    modifies queue, info`baudrate, info`allEnabledInterfaces, info.Buffers()
    ensures queue.Valid() && queue.Contents() == []
    ensures info.Config() == HandleAll(old(info.Config()), old(queue.Contents()))
  {
    ghost var goal := HandleAll(info.Config(), queue.Contents());
    var more := true;
    while more
      invariant queue.Valid() && goal == HandleAll(info.Config(), queue.Contents())
      invariant !more ==> queue.Contents() == []
      decreases more, queue.count
    {
      more := DrainOne(queue, info);
    }
  }

  lemma {:induction false} ReceivedIs(config: Config, pending: seq<Command>, buf: seq<byte>, queued: seq<Command>,
                                      rc: int)
    requires |pending| <= CMD_QUEUE_LENGTH
    requires var r := Segmentation(buf, CMD_QUEUE_LENGTH - |pending|); rc == r.rc && queued == pending + r.commands
    ensures rc != 0 ==> Receive(CommandState(config, pending), buf) == CommandState(config, queued)
    ensures rc == 0 ==> Receive(CommandState(config, pending), buf) == CommandState(HandleAll(config, queued), [])
  {
    hide SegmentFrom, HandleAll;
  }

  /** fs_handle_received_commands */
  method ReceiveCommands(queue: Ring<Command>, info: DeviceInfo, buf: seq<byte>) returns (rc: int)
    requires queue.Valid() && queue.size == CMD_QUEUE_LENGTH && info.Valid()
    requires queue.buffer as object !in info.Buffers()
    modifies queue, queue.buffer, info`baudrate, info`allEnabledInterfaces, info.Buffers()
    ensures queue.Valid()
    ensures CommandState(info.Config(), queue.Contents())
         == Receive(CommandState(old(info.Config()), old(queue.Contents())), buf)
    ensures rc == if Segmentation(buf, CMD_QUEUE_LENGTH - |old(queue.Contents())|).rc == 0 then 0 else -1
  {
    ghost var config, pending := info.Config(), queue.Contents();
    var segmented := SegmentCommands(queue, buf);
    ghost var queued := queue.Contents();
    assert info.Config() == config;
    if segmented != 0 {
      ReceivedIs(config, pending, buf, queued, segmented);
      return -1;
    }
    DrainCommands(queue, info);
    ReceivedIs(config, pending, buf, queued, segmented);
    return 0;
  }

  // ----- the device -----

  class Device {
    const dataBuffer: BR.ByteRing         // data_buffer
    const packetQueue: Ring<Packet>       // packet_buf_queue
    const commandQueue: Ring<Command>     // command_queue
    const info: DeviceInfo
    const scratch: array<byte>            // current_decode_buffer
    var last: Packet                      // last_received_packet
    ghost var log: seq<Packet>            // every packet enqueued so far
    ghost const footprint: set<object>    // the memory behind State()

    /** What never changes: sizes, and that no two parts share memory. */
    ghost predicate Separate() {
      && info.Valid() && scratch.Length == MAX_PACKET_LENGTH
      && packetQueue.size == PACKET_QUEUE_LENGTH && commandQueue.size == CMD_QUEUE_LENGTH
      && packetQueue as object != commandQueue && packetQueue.buffer as object != commandQueue.buffer
      && scratch as object != packetQueue.buffer && scratch as object != commandQueue.buffer
      && scratch !in info.Buffers()
      && packetQueue.buffer as object !in info.Buffers() && commandQueue.buffer as object !in info.Buffers()
      && footprint
         == {packetQueue, packetQueue.buffer, commandQueue, commandQueue.buffer, info, scratch} + info.Buffers()
      && dataBuffer !in footprint && dataBuffer.buffer !in footprint && this !in footprint
    }

    ghost predicate QueuesValid()
      reads packetQueue, commandQueue
    {
      Separate() && packetQueue.Valid() && commandQueue.Valid()
    }

    ghost predicate Valid()
      reads dataBuffer, packetQueue, commandQueue
    {
      QueuesValid() && dataBuffer.Valid()
    }

    ghost function State(): (st: Serial.State)
      reads this`last, this`log, packetQueue, commandQueue, footprint
      requires QueuesValid()
      ensures Serial.Valid(st)
    {
      Serial.State(scratch[..], packetQueue.Contents(), last, log, CommandState(info.Config(), commandQueue.Contents()))
    }

    constructor ()
      ensures Valid() && dataBuffer.Contents() == []
      ensures State().queue == [] && State().log == [] && State().commands.pending == []
      ensures forall k :: 0 <= k < MAX_PACKET_LENGTH ==> State().scratch[k] == NUL
    {
      var packets: Ring<Packet> := new Ring(PACKET_QUEUE_LENGTH);
      var cmds: Ring<Command> := new Ring(CMD_QUEUE_LENGTH);
      var fields := new DeviceInfo();
      var decodeBuffer := new byte[MAX_PACKET_LENGTH](_ => NUL);
      dataBuffer := new BR.ByteRing();
      packetQueue, commandQueue, info, scratch := packets, cmds, fields, decodeBuffer;
      footprint := {packets, packets.buffer, cmds, cmds.buffer, fields, decodeBuffer} + fields.Buffers();
      last, log := [], [];
    }

    /** fs_enqueue_into_packet_queue without a save context. */
    method EnqueuePacket(p: Packet)
      requires Valid()
      modifies this`last, this`log, packetQueue, packetQueue.buffer
      ensures Valid() && State() == Enqueue(old(State()), p)
    {
      var pushed := packetQueue.PushForce(p);
      last, log := p, log + [p];
    }

    /** segment_packets */
    method SegmentPackets(rx: seq<byte>, rxLen: nat) returns (rc: int)
      requires Valid() && (rxLen <= MAX_DATA_LENGTH ==> rxLen <= |rx|)
      modifies this`last, this`log, packetQueue, packetQueue.buffer
      ensures Valid() && rc == Segment(rx, rxLen).rc
      ensures State() == EnqueueAll(old(State()), Segment(rx, rxLen).packets)
    {
      if rxLen == 0 || rxLen > MAX_DATA_LENGTH {
        return -1;
      }
      ghost var st0, buf := State(), rx[..rxLen];
      ghost var done: seq<Packet> := [];
      var pos, packetCount := 0, 0;
      while pos < rxLen
        invariant Valid() && 0 <= pos <= rxLen && packetCount == |done|
        invariant SplitFrom(buf, []) == SplitFrom(buf[pos..], done)
        invariant State() == EnqueueAll(st0, done)
      {
        var packetLength := PacketLength(rx[pos]);
        if packetLength == 0 {
          return 0;
        }
        if pos + packetLength > rxLen {
          return -1;
        }
        var pkt := rx[pos..pos + packetLength];
        TakeSlice(rx, rxLen, pos, pos + packetLength);
        NextPacket(buf, pos, packetLength, done);
        EnqueuePacket(pkt);
        EnqueueOneMore(st0, done, pkt);
        done := done + [pkt];
        packetCount := packetCount + 1;
        pos := pos + packetLength;
      }
      return packetCount;
    }

    lemma NextPacket(buf: seq<byte>, pos: nat, n: nat, done: seq<Packet>)
      requires pos < |buf| && PacketLength(buf[pos]) == n > 0 && pos + n <= |buf|
      ensures SplitFrom(buf[pos..], done) == SplitFrom(buf[pos + n..], done + [buf[pos..pos + n]])
    {
      DropSlice(buf, pos, n);
    }

    lemma EnqueueOneMore(st: Serial.State, done: seq<Packet>, p: Packet)
      requires Serial.Valid(st)
      ensures Enqueue(EnqueueAll(st, done), p) == EnqueueAll(st, done + [p])
    {
      EnqueueAllMeaning(st, done);
      EnqueueAllMeaning(st, done + [p]);
      LastNAppend(st.queue + done, [p], PACKET_QUEUE_LENGTH);
      Assoc(st.queue, done, [p]);
      Assoc(st.log, done, [p]);
    }

    /** base64_to_packet; segment is the memory from the payload on, already terminated. */
    method Base64ToPacket(segment: seq<byte>) returns (rc: int)
      requires Valid() && NUL in segment
      requires !Base64.Hangs(CString(segment, MAX_DATA_LENGTH), MAX_PACKET_LENGTH)
      modifies this`last, this`log, packetQueue, packetQueue.buffer, scratch
      ensures Valid()
      ensures var r := Base64.Decode(CString(segment, MAX_DATA_LENGTH), old(scratch[..]));
        && State() == AfterDecode(old(State()), r)
        && rc == if r.Accepted? && PacketLength(r.buffer[0]) > 0 then 0 else -1
    {
      var decoded, decodedSize := Base64.Base64Decode(segment, scratch);
      if decoded != 0 {
        return -1;
      }
      if PacketLength(scratch[0]) == 0 {
        return -1;
      }
      EnqueuePacket(scratch[..UNION_LENGTH]);
      return 0;
    }

    /** fs_handle_received_commands: -1, and nothing handled, when a command was broken off or the queue filled up. */
    method HandleReceivedCommands(buf: seq<byte>) returns (rc: int)
      requires Valid()
      modifies commandQueue, commandQueue.buffer, info`baudrate, info`allEnabledInterfaces, info.Buffers()
      ensures Valid()
      ensures State() == old(State()).(commands := Receive(old(State().commands), buf))
      ensures rc == if Segmentation(buf, CMD_QUEUE_LENGTH - |old(State().commands.pending)|).rc == 0 then 0 else -1
    {
      rc := ReceiveCommands(commandQueue, info, buf);
    }

    /** The binary branch of the serial loop. The length subtraction is a size_t and may wrap. */
    method HandleBinaryFrame(temp: array<byte>, peeked: nat, start: nat, bang: nat)
      requires Valid() && start < bang < peeked <= temp.Length
      modifies this`last, this`log, packetQueue, packetQueue.buffer
      ensures QueuesValid() && State() == Deliver(old(State()), BinaryAt(old(temp[..peeked]), start, bang))
    {
      ghost var w := temp[..peeked];
      var packetStart := start + 1;
      var difference := bang - packetStart - 1;
      var packetLen := if difference < 0 then difference + SIZE_MODULUS else difference;
      var rx := temp[packetStart..peeked];
      assert rx == w[start + 1..];
      var packets := SegmentPackets(rx, packetLen);
    }

    lemma DeliverEncoded(st: Serial.State, text: seq<byte>)
      requires Serial.Valid(st)
      ensures Deliver(st, Encoded(text)) == AfterDecode(st, Base64.Decode(text, st.scratch))
    {
    }

    /** The Base64 branch of the serial loop; the footer in the local copy becomes the string terminator. */
    method HandleBase64Frame(temp: array<byte>, peeked: nat, start: nat, bang: nat)
      requires Valid() && start < bang < peeked <= temp.Length == MAX_DATA_LENGTH
      requires temp !in footprint && temp != dataBuffer.buffer
      requires !HangsOn(EncodedAt(temp[..peeked], start, bang))
      modifies this`last, this`log, packetQueue, packetQueue.buffer, scratch, temp
      ensures QueuesValid() && State() == Deliver(old(State()), EncodedAt(old(temp[..peeked]), start, bang))
    {
      var payloadStart := start + 1;
      ghost var st, body := State(), temp[payloadStart..bang];
      assert temp[..peeked][start + 1..bang] == body;
      temp[bang] := NUL;
      var segment := temp[payloadStart..];
      assert segment[..|body|] == body;
      TerminatedCString(segment, body, MAX_DATA_LENGTH);
      assert State() == st;
      var rc := Base64ToPacket(segment);
      DeliverEncoded(st, CString(body, MAX_DATA_LENGTH));
    }

    /** What one pass of the loop does to the state, given the window and what the scan found in it. */
    method HandleSegment(temp: array<byte>, peeked: nat, indices: Delimiters, ghost st: Serial.State,
                         ghost w: seq<byte>, ghost a: Action)
      returns (popCount: nat)
      requires Valid() && st == State() && peeked <= temp.Length == MAX_DATA_LENGTH && w == temp[..peeked]
      requires -1 <= indices.binary && -1 <= indices.colon && -1 <= indices.semicolon
      requires Choose(indices) == a == Classify(w) && (IsFrame(a) ==> !HangsOn(FrameOf(w, a)))
      requires temp !in footprint && temp != dataBuffer.buffer
      modifies this`last, this`log, footprint, temp
      ensures QueuesValid() && State() == Perform(st, w, a)
      ensures popCount == Consumed(a)
    {
      if indices.binary != -1 && indices.exclam > indices.binary {
        HandleBinaryFrame(temp, peeked, indices.binary, indices.exclam);
        popCount := indices.exclam + 1;
      } else if indices.colon != -1 && indices.exclam > indices.colon {
        HandleBase64Frame(temp, peeked, indices.colon, indices.exclam);
        popCount := indices.exclam + 1;
      } else if indices.semicolon != -1 {
        var rc := HandleReceivedCommands(temp[..peeked]);
        popCount := indices.semicolon + 1;
      } else {
        popCount := 0;
      }
    }

    /** One pass of the loop on the peeked window; nothing is popped when no segment was found. */
    method OnePass(temp: array<byte>, peeked: nat, ghost st: Serial.State, ghost w: seq<byte>) returns (found: bool)
      requires Valid() && st == State() && w == dataBuffer.Contents()
      requires peeked <= temp.Length == MAX_DATA_LENGTH && temp[..peeked] == w && Halts(w)
      requires temp !in footprint && temp != dataBuffer.buffer
      modifies this`last, this`log, footprint, temp, dataBuffer
      ensures Valid() && found == !Classify(w).Wait?
      ensures State() == Perform(st, w, Classify(w))
      ensures dataBuffer.Contents() == w[Consumed(Classify(w))..]
    {
      RunStep(st, w, Classify(w));
      var indices := ScanDelimiters(temp, peeked);
      ChooseIsClassify(w);
      var popCount := HandleSegment(temp, peeked, indices, st, w, Classify(w));
      ghost var st' := State();
      var popped := dataBuffer.Discard(popCount);
      assert st' == State();
      return popCount > 0;
    }

    /** One turn of the loop: the ring is peeked, and unless it is empty one pass is made on what was seen. */
    method Turn(temp: array<byte>, ghost st: Serial.State, ghost w: seq<byte>) returns (empty: bool, found: bool)
      requires Valid() && st == State() && w == dataBuffer.Contents() && Halts(w)
      requires temp.Length == MAX_DATA_LENGTH && temp !in footprint && temp != dataBuffer.buffer
      modifies this`last, this`log, footprint, temp, dataBuffer
      ensures Valid() && empty == (w == []) && found == !Classify(w).Wait?
      ensures State() == Perform(st, w, Classify(w))
      ensures dataBuffer.Contents() == w[Consumed(Classify(w))..]
    {
      var peeked := dataBuffer.Peek(temp, temp.Length);
      TakeAll(w, peeked);
      assert st == State();
      if peeked == 0 {
        return true, false;
      }
      found := OnePass(temp, peeked, st, w);
      empty := false;
    }

    /** fs_device_process_packets_serial: the bytes are pushed into the ring, then the loop runs until the ring is
        empty or holds no complete segment. */
    method ProcessPacketsSerial(rx: seq<byte>) returns (rc: int)
      requires Valid() && Halts(LastN(dataBuffer.Contents() + rx, MAX_DATA_LENGTH))
      modifies this`last, this`log, dataBuffer, dataBuffer.buffer, footprint
      ensures Valid()
      ensures Outcome(State(), dataBuffer.Contents())
           == Run(old(State()), LastN(old(dataBuffer.Contents()) + rx, MAX_DATA_LENGTH))
      ensures rc == if dataBuffer.Contents() == [] then 0 else -1
    {
      hide Run, Halts;
      ghost var st := State();
      dataBuffer.Push(rx);
      assert st == State();
      ghost var w := dataBuffer.Contents();
      ghost var goal := Run(st, w);
      var temp := new byte[MAX_DATA_LENGTH];
      while true
        invariant Valid() && st == State() && w == dataBuffer.Contents()
        invariant Serial.Valid(st) && Halts(w) && goal == Run(st, w)
        decreases |w|
      {
        ghost var a := Classify(w);
        RunStep(st, w, a);
        var empty, found := Turn(temp, st, w);
        if empty {
          return 0;
        }
        if !found {
          return -1;
        }
        st, w := Perform(st, w, a), w[Consumed(a)..];
      }
    }

    // ----- the packet queue as the application sees it -----

    /** fs_device_get_packet_at_index, fs_get_raw_packet_from_queue: index 0 is the oldest packet. */
    method GetPacketAtIndex(index: int) returns (packet: Option<Packet>)
      requires Valid()
      ensures packet == if 0 <= index < |State().queue| then Some(State().queue[index]) else None
    {
      if index < 0 || index >= packetQueue.count {
        return None;
      }
      packet := packetQueue.PeekAt(index);
    }

    /** fs_pop_raw_packet_from_queue */
    method PopRawPacket() returns (packet: Option<Packet>)
      requires Valid()
      modifies packetQueue
      ensures Valid()
      ensures old(State().queue) == [] ==> packet == None && State() == old(State())
      ensures old(State().queue) != [] ==>
        packet == Some(old(State().queue)[0]) && State() == old(State()).(queue := old(State().queue)[1..])
    {
      if packetQueue.count == 0 {
        return None;
      }
      packet := packetQueue.Pop();
    }
  }
}
