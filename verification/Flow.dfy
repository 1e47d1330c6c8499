/**
 The numbers and the arithmetic of the byte-stream flow control: two watermarks, the
 renderer's acknowledgement chunk, the frame cap, and what one atomic operation does to
 the 64-bit counter of outstanding bytes.
 */
module Flow {

  /** Outstanding bytes above which the batcher pauses. */
  const HIGH_WATERMARK: nat := 512 * 1024

  /** Outstanding bytes at which a paused batcher resumes. */
  const LOW_WATERMARK: nat := 128 * 1024

  /** How much the renderer processes before it acknowledges. */
  const ACK_CHUNK: nat := 64 * 1024

  /** A frame stops growing once it is this long. */
  const MAX_FRAME_BYTES: nat := 256 * 1024

  const U64_SIZE: nat := 0x1_0000_0000_0000_0000

  /** What `fetch_add` leaves in a 64-bit counter: it wraps. */
  function FetchAdd(counter: nat, bytes: nat): nat {
    if counter + bytes < U64_SIZE then counter + bytes else (counter + bytes) % U64_SIZE
  }

  function SaturatingSub(counter: nat, bytes: nat): nat {
    if bytes <= counter then counter - bytes else 0
  }

  /** The longest frame when no chunk is longer than `chunk`. */
  function FrameCap(chunk: nat): nat {
    MAX_FRAME_BYTES - 1 + chunk
  }

  /** The most bytes that are ever outstanding, as claimed by the design. */
  function OutstandingCap(chunk: nat): nat {
    HIGH_WATERMARK + FrameCap(chunk)
  }

  function Sum(numbers: seq<nat>): nat {
    if numbers == [] then 0 else numbers[0] + Sum(numbers[1..])
  }

  lemma {:induction false} SumAppend(numbers: seq<nat>, last: nat)
    ensures Sum(numbers + [last]) == Sum(numbers) + last
  {
    if numbers == [] {
      assert numbers + [last] == [last];
    } else {
      assert (numbers + [last])[1..] == numbers[1..] + [last];
      SumAppend(numbers[1..], last);
    }
  }
}
