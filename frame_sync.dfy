/**
 * The frame synchroniser as the read loop runs it: a cursor and a 24-byte
 * buffer that persist across serial reads, updated in place one byte at a
 * time. Each method is proved against the state machine of `SyncSpec`.
 */
module FrameSync {
  import opened Wire
  import opened SyncSpec

  class Synchronizer {
    /** The accumulation buffer (`buf: [u8; 24]`), reused for every frame. */
    const buf: array<Byte>
    /** The next buffer slot to fill (`cur`). */
    var cur: nat

    /** The abstract state: the cursor and the buffer's contents. */
    ghost function State(): SyncState
      reads this, buf
    {
      SyncState(cur, buf[..])
    }

    ghost predicate Valid()
      reads this, buf
    {
      buf.Length == FrameLen && Inv(State())
    }

    /** A zeroed buffer and the cursor at 0, as declared before the read loop. */
    constructor ()
      ensures Valid() && fresh(buf)
      ensures State() == Initial()
    {
      buf := new Byte[FrameLen](_ => 0);
      cur := 0;
    }

    /** Pushes one byte through the state machine; returns the frame it completes. */
    method Feed(b: Byte) returns (frame: Option<seq<Byte>>)
      requires Valid()
      modifies this, buf
      ensures Valid()
      ensures StepResult(State(), frame) == Step(old(State()), b)
    {
      frame := None;
      if cur == 0 && b != Head1 {
        // still hunting for the first header byte: drop it
      } else if cur == 1 && b != Head2 {
        cur := 0;
      } else if cur == FrameLen - 1 {
        frame := Some(buf[..]);
        cur := 0;
      } else {
        buf[cur] := b;
        cur := (cur + 1) % FrameLen;
      }
    }

    /** Pushes every byte of one read through the state machine, in order. */
    method FeedChunk(bytes: seq<Byte>) returns (frames: seq<seq<Byte>>)
      requires Valid()
      modifies this, buf
      ensures Valid()
      ensures RunResult(State(), frames) == Run(old(State()), bytes)
    {
      frames := [];
      var i := 0;
      while i < |bytes|
        invariant 0 <= i <= |bytes|
        invariant Valid()
        invariant RunResult(State(), frames) == Run(old(State()), bytes[..i])
      {
        var frame := Feed(bytes[i]);
        RunSnoc(old(State()), bytes[..i], bytes[i]);
        assert bytes[..i + 1] == bytes[..i] + [bytes[i]];
        if frame.Some? {
          frames := frames + [frame.value];
        }
        i := i + 1;
      }
      assert bytes[..i] == bytes;
    }
  }
}
