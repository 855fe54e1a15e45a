/** Lv2Handler with its global half-message buffer, updated in place. */
module Lv2Handler {
  import opened Bytes
  import opened Lv2Stream

  class Reassembler {
    const externMsgBuffer: array<byte>
    var halfSize: nat
    var missSize: nat
    /** The messages handed to OnData_lv2. */
    var delivered: seq<seq<byte>>

    ghost predicate Valid()
      reads this, externMsgBuffer
    {
      && externMsgBuffer.Length == MAX_BUFFER_SIZE
      && halfSize + missSize <= LV2_OB_QUOTE_LEN
      && PendingFits(View())
    }

    ghost function View(): Pending
      requires halfSize <= externMsgBuffer.Length
      reads this, externMsgBuffer
    {
      Pending(externMsgBuffer[..halfSize], missSize)
    }

    constructor ()
      ensures Valid() && View() == NOTHING && delivered == []
      ensures fresh(externMsgBuffer)
    {
      externMsgBuffer := new byte[MAX_BUFFER_SIZE](_ => 0);
      halfSize, missSize, delivered := 0, 0, [];
    }

    /** std::memcpy(g_extern_msg_buffer + at, src, |src|) */
    method CopyIn(at: nat, src: seq<byte>)
      requires at + |src| <= externMsgBuffer.Length
      modifies externMsgBuffer
      ensures externMsgBuffer[..at] == old(externMsgBuffer[..at])
      ensures externMsgBuffer[at..at + |src|] == src
      ensures externMsgBuffer[..at + |src|] == old(externMsgBuffer[..at]) + src
    {
      var i := 0;
      while i < |src|
        invariant 0 <= i <= |src|
        invariant externMsgBuffer[..at] == old(externMsgBuffer[..at])
        invariant externMsgBuffer[at..at + i] == src[..i]
      {
        externMsgBuffer[at + i] := src[i];
        i := i + 1;
      }
      assert externMsgBuffer[..at + |src|] == externMsgBuffer[..at] + externMsgBuffer[at..at + |src|];
    }

    /** The last bytes of the segment are the front of a message of msgLen bytes. */
    method HoldHalf(part: seq<byte>, msgLen: nat)
      requires Valid() && 0 < |part| < msgLen && RecognisedLength(msgLen) && msgLen <= LV2_OB_QUOTE_LEN
      modifies `halfSize, `missSize, externMsgBuffer
      ensures Valid() && View() == Pending(part, msgLen - |part|)
    {
      CopyIn(0, part);
      halfSize := |part|;
      missSize := msgLen - |part|;
    }

    /** The next message starts afresh: the held half is given up. */
    method DropHalf()
      requires Valid()
      modifies `halfSize, `missSize, externMsgBuffer
      ensures Valid() && View() == NOTHING
    {
      halfSize := 0;
      missSize := 0;
      forall i | 0 <= i < externMsgBuffer.Length { externMsgBuffer[i] := 0; }
    }

    /** The missing bytes arrive at the front of the segment. */
    method CompleteHalf(part: seq<byte>)
      requires Valid() && |part| == missSize
      modifies this, externMsgBuffer
      ensures Valid() && View() == NOTHING
      ensures delivered == old(delivered) + [old(View()).half + part]
    {
      CopyIn(halfSize, part);
      delivered := delivered + [externMsgBuffer[..halfSize + missSize]];
      halfSize := 0;
      missSize := 0;
    }

    /** One call per TCP segment. `data` is the readable memory at the segment, `size` the
        segment's own length. A continuation must bring at least the missing bytes. */
    method Lv2Handler(data: seq<byte>, size: nat)
      requires Valid() && size + 8 <= |data|
      requires Handle(View(), data, size).Some?
      modifies this, externMsgBuffer
      ensures Valid()
      ensures var outcome := Handle(old(View()), data, size).value;
              View() == outcome.pending && delivered == old(delivered) + outcome.delivered
    {
      hide Scan, GetCurReadMsgLength, RecognisedLength;
      var dataptr: seq<byte>, dataLen: nat := data, size;
      var msgLen := GetCurReadMsgLength(dataptr);
      ghost var goal := Handle(View(), data, size).value;
      while dataLen > 6
        invariant dataLen + 8 <= |dataptr| && dataLen <= size
        invariant Valid()
        invariant halfSize > 0 ==> dataptr == data && dataLen == size && msgLen == GetCurReadMsgLength(data)
        invariant halfSize > 0 ==> View() == old(View()) && delivered == old(delivered)
        invariant halfSize == 0 && size > 6 ==>
          && old(delivered) + goal.delivered == delivered + Scan(dataptr, dataLen).delivered
          && goal.pending == Scan(dataptr, dataLen).pending
        invariant size <= 6 ==> View() == old(View()) && delivered == old(delivered)
        decreases if halfSize > 0 then 1 else 0, dataLen
      {
        if halfSize == 0 {
          ScanCases(dataptr, dataLen);
          msgLen := GetCurReadMsgLength(dataptr);
          if msgLen > 0 {
            if msgLen <= dataLen {
              delivered := delivered + [dataptr[..msgLen]];
              dataptr := dataptr[msgLen..];
              dataLen := dataLen - msgLen;
              continue;
            } else {
              HoldHalf(dataptr[..dataLen], msgLen);
              break;
            }
          }
          break;
        } else {
          if msgLen > 0 {
            DropHalf();
            continue;
          }
          var miss := missSize;
          CompleteHalf(dataptr[..miss]);
          dataptr := dataptr[miss..];
          dataLen := dataLen - miss;
          continue;
        }
      }
      ScanCases(dataptr, dataLen);
    }
  }
}
