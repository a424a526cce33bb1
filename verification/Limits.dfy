/** The sizes, limits and characters that the headers of the driver define, in one place. */
module Limits {
  import Bytes
  import Packets
  import Commands
  import CsvText
  import Columns
  import Numbers
  import Rows
  import Replay
  import SaveThread
  import UdpPorts

  /** The characters of the serial stream: '!', ',', ':', ';', '=', '@', NUL, line feed, carriage return. */
  lemma Characters()
    ensures [Bytes.BANG, Bytes.COMMA, Bytes.COLON, Bytes.SEMICOLON, Bytes.EQUALS, Bytes.AT] == [33, 44, 58, 59, 61, 64]
    ensures [Bytes.NUL, Bytes.LF, Bytes.CR] == [0, 10, 13]
  {
  }

  /** Which bytes end a command early, and which count as white space. */
  lemma Classes(b: Bytes.byte)
    ensures Commands.IsBreak(b) <==> b in {0, 10, 13}
    ensures Commands.IsPlain(b) <==> b !in {0, 10, 13, 59}
    ensures Numbers.IsSpace(b) <==> b in {9, 10, 11, 12, 13, 32}
  {
  }

  /** Sizes of the buffers and queues of a device. */
  lemma DeviceSizes()
    ensures Bytes.MAX_DATA_LENGTH == 512 && Bytes.SIZE_MODULUS == 0x1_0000_0000_0000_0000
    ensures Packets.MAX_PACKET_LENGTH == 256 && Packets.UNION_LENGTH == 185 && Packets.PACKET_QUEUE_LENGTH == 16
    ensures Commands.MAX_CMD_LENGTH == 256 && Commands.CMD_QUEUE_LENGTH == 16
    ensures UdpPorts.TABLE_SIZE == 16 && UdpPorts.BASE_PORT == 8888 && UdpPorts.ADDRESS_SIZE == 39
  {
  }

  /** Sizes of the saver and of the replay reader. */
  lemma RecordingSizes()
    ensures CsvText.LINE_LIMIT == 511 && CsvText.FIELD_LIMIT == 63 && Columns.MAX_COLUMNS == 64
    ensures Rows.NUMBER_LIMIT == 31 && Rows.ROW_LIMIT == 1023 && SaveThread.QUEUE_LENGTH == 16
    ensures Replay.LINE_BUFFER == 512 && Replay.INITIAL_CAPACITY == 4096
    ensures Replay.UINT32_MAX == 0xFFFF_FFFF && Rows.U32 == 0x1_0000_0000
    ensures Numbers.ULONG_MODULUS == 0x1_0000_0000_0000_0000
  {
  }
}
