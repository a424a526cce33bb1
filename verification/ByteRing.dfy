/** The 512-byte overwriting ring in front of the serial parser: fs_cb_push, fs_cb_peek, fs_cb_pop. */
module ByteRing {
  import opened Bytes
  import opened RingView

  class ByteRing {
    const buffer: array<byte>
    var head: nat
    var tail: nat
    var count: nat

    ghost predicate Valid()
      reads this
    {
      && buffer.Length == MAX_DATA_LENGTH
      && tail < MAX_DATA_LENGTH && count <= MAX_DATA_LENGTH && head == Fold(tail + count, MAX_DATA_LENGTH)
    }

    ghost function Contents(): (s: seq<byte>)
      reads this, buffer
      requires Valid()
      ensures |s| == count <= MAX_DATA_LENGTH
    {
      View(buffer[..], tail, count)
    }

    constructor ()
      ensures Valid() && fresh(buffer) && Contents() == []
    {
      buffer := new byte[MAX_DATA_LENGTH];
      head, tail, count := 0, 0, 0;
    }

    /** One iteration of the fs_cb_push loop. */
    method PushByte(b: byte)
      requires Valid()
      modifies this, buffer
      ensures Valid() && Contents() == LastN(old(Contents()) + [b], MAX_DATA_LENGTH)
    {
      hide View, LastN;
      Wrap(head + 1, MAX_DATA_LENGTH);
      Wrap(tail + 1, MAX_DATA_LENGTH);
      LastNPush(Contents(), b, MAX_DATA_LENGTH);
      if count < MAX_DATA_LENGTH {
        ViewPush(buffer[..], tail, count, b);
      } else {
        ViewOverwrite(buffer[..], tail, b);
      }
      ghost var cells := buffer[..];
      buffer[head] := b;
      assert buffer[..] == cells[head := b];
      head := (head + 1) % MAX_DATA_LENGTH;
      if count < MAX_DATA_LENGTH {
        count := count + 1;
      } else {
        tail := (tail + 1) % MAX_DATA_LENGTH;
      }
    }

    /** fs_cb_push: the ring ends with the last 512 bytes of what it held followed by the data. */
    method Push(data: seq<byte>)
      requires Valid()
      modifies this, buffer
      ensures Valid() && Contents() == LastN(old(Contents()) + data, MAX_DATA_LENGTH)
    {
      ghost var before := Contents();
      assert before + data[..0] == before;
      for i := 0 to |data|
        invariant Valid() && Contents() == LastN(before + data[..i], MAX_DATA_LENGTH)
      {
        PushByte(data[i]);
        LastNAppend(before + data[..i], [data[i]], MAX_DATA_LENGTH);
        assert before + data[..i + 1] == before + data[..i] + [data[i]];
      }
      assert data[..|data|] == data;
    }

    /** fs_cb_peek: copies the oldest bytes without removing them. */
    method Peek(out: array<byte>, maxLen: nat) returns (copied: nat)
      requires Valid() && maxLen <= out.Length && out != buffer
      modifies out
      ensures copied == Min(|Contents()|, maxLen)
      ensures out[..copied] == Contents()[..copied]
      ensures out[copied..] == old(out[copied..])
    {
      copied := if count < maxLen then count else maxLen;
      var i := 0;
      while i < copied
        invariant i <= copied
        invariant out[..i] == Contents()[..i]
        invariant out[i..] == old(out[i..])
      {
        var index := (tail + i) % MAX_DATA_LENGTH;
        assert buffer[index] == Contents()[i];
        out[i] := buffer[index];
        assert out[..i + 1] == out[..i] + [Contents()[i]];
        assert out[i + 1..] == old(out[i + 1..]) by {
          assert forall k :: i + 1 <= k < out.Length ==> out[k] == old(out[i..])[k - i];
        }
        i := i + 1;
      }
    }

    /** One iteration of the fs_cb_pop loop. */
    method PopByte() returns (b: byte)
      requires Valid() && Contents() != []
      modifies this
      ensures Valid() && b == old(Contents())[0] && Contents() == old(Contents())[1..]
    {
      ViewPop(buffer[..], tail, count);
      b := buffer[tail];
      tail := (tail + 1) % MAX_DATA_LENGTH;
      count := count - 1;
    }

    /** fs_cb_pop with an output buffer: the oldest bytes are copied out and removed. */
    method Pop(out: array<byte>, len: nat) returns (popped: nat)
      requires Valid() && len <= out.Length && out != buffer
      modifies this, out
      ensures Valid()
      ensures popped == Min(|old(Contents())|, len)
      ensures Contents() == old(Contents())[popped..]
      ensures out[..popped] == old(Contents())[..popped]
    {
      popped := if count < len then count else len;
      ghost var before := Contents();
      for i := 0 to popped
        invariant Valid() && Contents() == before[i..]
        invariant out[..i] == before[..i]
      {
        out[i] := PopByte();
        assert out[..i + 1] == out[..i] + [before[i]];
      }
    }

    /** fs_cb_pop with a null output buffer: the oldest bytes are dropped. */
    method Discard(len: nat) returns (popped: nat)
      requires Valid()
      modifies this
      ensures Valid()
      ensures popped == Min(|old(Contents())|, len)
      ensures Contents() == old(Contents())[popped..]
    {
      popped := if count < len then count else len;
      ghost var before := Contents();
      for i := 0 to popped
        invariant Valid() && Contents() == before[i..]
      {
        var dropped := PopByte();
      }
    }
  }
}
