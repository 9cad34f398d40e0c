/** The bucket padding policy (padding_policy.go) and SuggestPadLen (frame.go). */
module Padding {
  import opened Octets
  import opened Crypto
  import opened Frames

  const STEADY_BUCKETS: seq<nat> := [256, 512, 1024, 1500, 2048, 4096, 8192, 12288, 16384]
  const HANDSHAKE_BUCKETS: seq<nat> := [1500, 4096, 8192, 16384]
  const HANDSHAKE_PHASE_FRAMES := 16
  const BUCKET_UP_BP := 4500
  /** Budget of one frame: FrameLen itself is outside. */
  const MAX_WIRE := 65532

  function Ladder(frameIndex: nat): seq<nat> {
    if frameIndex < HANDSHAKE_PHASE_FRAMES then HANDSHAKE_BUCKETS else STEADY_BUCKETS
  }

  /** The smallest index whose bucket fits, or |ladder|. */
  function FirstFit(raw: nat, ladder: seq<nat>): (i: nat)
    ensures i <= |ladder|
    ensures i < |ladder| ==> ladder[i] >= raw
    ensures forall j | 0 <= j < i :: ladder[j] < raw
  {
    if ladder == [] || ladder[0] >= raw then 0 else FirstFit(raw, ladder[1..]) + 1
  }

  /** padToBucket's result, `up` being the outcome of the bucket-up draw. */
  function PadFor(raw: nat, ladder: seq<nat>, up: bool): int {
    var i := FirstFit(raw, ladder);
    if i == |ladder| then
      var t := ((raw + 1023) / 1024) * 1024;
      if t > MAX_WIRE then 0 else Clamp(raw, t)
    else if i + 1 < |ladder| && up then Clamp(raw, ladder[i + 1])
    else Clamp(raw, ladder[i])
  }

  /** The chain of clamps that turns a target size into a pad length. */
  function Clamp(raw: nat, target: nat): int {
    var p0 := if target - raw < 0 then 0 else target - raw;
    var p1 := if p0 > MAX_FRAME_PAD then MAX_FRAME_PAD else p0;
    if raw + p1 > MAX_WIRE then (if MAX_WIRE - raw < 0 then 0 else MAX_WIRE - raw) else p1
  }

  /** 31 of the drawn bits, reduced below n. */
  function Reduced(draw: U32, n: int): (r: nat)
    requires n > 0
    ensures r < n && (draw < n <= 0x8000_0000 ==> r == draw)
  {
    SmallMod(draw, n);
    (draw % 0x8000_0000) % n
  }

  lemma SmallMod(x: nat, n: int)
    requires n > 0
    ensures x < n <= 0x8000_0000 ==> (x % 0x8000_0000) % n == x
  {
    if x < n <= 0x8000_0000 {
      ModOfLess(x, 0x8000_0000);
      ModOfLess(x, n);
    }
  }

  lemma ModOfLess(x: nat, m: int)
    requires x < m
    ensures x % m == x
  {
  }

  /** secureRandIntn, `draw` being the 32 random bits or their absence: below n, and 0 when the randomness fails. */
  function SecureRandIntn(n: int, draw: Option<U32>): (r: nat)
    ensures r == 0 || r < n
    ensures draw.Some? && draw.value < n <= 0x8000_0000 ==> r == draw.value
  {
    if n <= 1 || draw.None? then 0 else Reduced(draw.value, n)
  }

  /** The bucket-up draw: 4500 of 10000 outcomes, and every failed draw. */
  predicate BucketUp(draw: Option<U32>): (up: bool)
    ensures up <==> draw.None? || (draw.value % 0x8000_0000) % 10000 < 4500
  {
    SecureRandIntn(10000, draw) < BUCKET_UP_BP
  }

  method PadToBucket(raw: nat, ladder: seq<nat>, draw: Option<U32>) returns (pad: int)
    ensures pad == PadFor(raw, ladder, BucketUp(draw))
  {
    var idx := -1;
    for i := 0 to |ladder|
      invariant idx == -1
      invariant forall j | 0 <= j < i :: ladder[j] < raw
    {
      if ladder[i] >= raw {
        idx := i;
        break;
      }
    }
    var target: int;
    if idx == -1 {
      var t := ((raw + 1023) / 1024) * 1024;
      if t > MAX_WIRE {
        return 0;
      }
      target := t;
    } else if idx + 1 < |ladder| && SecureRandIntn(10000, draw) < BUCKET_UP_BP {
      target := ladder[idx + 1];
    } else {
      target := ladder[idx];
    }
    pad := target - raw;
    if pad < 0 {
      pad := 0;
    }
    if pad > MAX_FRAME_PAD {
      pad := MAX_FRAME_PAD;
    }
    if raw + pad > MAX_WIRE {
      pad := MAX_WIRE - raw;
      if pad < 0 {
        pad := 0;
      }
    }
  }

  method SuggestStreamPad(raw: nat, frameIndex: nat, draw: Option<U32>) returns (pad: int)
    ensures pad == PadFor(raw, Ladder(frameIndex), BucketUp(draw))
  {
    if frameIndex < HANDSHAKE_PHASE_FRAMES {
      pad := PadToBucket(raw, HANDSHAKE_BUCKETS, draw);
    } else {
      pad := PadToBucket(raw, STEADY_BUCKETS, draw);
    }
  }

  /** SuggestPadLen: inside the requested range when that range is sensible, at its bottom when the draw fails. */
  function SuggestPadLen(minPad: int, maxPad: int, draw: Option<U32>): (r: nat)
    ensures var lo, hi := (if minPad < 0 then 0 else minPad), (if maxPad > MAX_FRAME_PAD then MAX_FRAME_PAD else maxPad);
            if lo >= hi then r == lo
            else lo <= r <= hi && (draw.None? ==> r == lo) && (draw.Some? && draw.value <= hi - lo ==> r == lo + draw.value)
  {
    var lo := if minPad < 0 then 0 else minPad;
    var hi := if maxPad > MAX_FRAME_PAD then MAX_FRAME_PAD else maxPad;
    if lo >= hi || draw.None? then lo else lo + Reduced(draw.value, hi - lo + 1)
  }

  // ------------------------------------------------------------------
  // What the policy guarantees
  // ------------------------------------------------------------------

  /** Bytes on the wire before padding. */
  function RawWire(f: Frame): nat {
    HEADER_SIZE + |f.meta| + |f.payload| + AEAD_OVERHEAD
  }

  lemma PadRange(raw: nat, ladder: seq<nat>, up: bool)
    ensures 0 <= PadFor(raw, ladder, up) <= MAX_FRAME_PAD
    ensures raw + PadFor(raw, ladder, up) <= (if raw <= MAX_WIRE then MAX_WIRE else raw)
  {
  }

  /** The length framer refuses messages above MAX_FRAME_SIZE, the encoder frames whose FrameLen is above it. With
      policy padding both accept a frame exactly when it would fit unpadded, and the encoder alone tolerates the
      four bytes of FrameLen on top: padding never makes a sendable frame unsendable. */
  lemma PaddingNeverBlocks(f: Frame, frameIndex: nat, up: bool)
    requires ValidType(f.kind) && |f.meta| <= MAX_META_LEN
    ensures var pad := PadFor(RawWire(f), Ladder(frameIndex), up);
            && 0 <= pad <= MAX_FRAME_PAD
            && (EncodeError(f, pad).None? && RawWire(f) + pad <= MAX_FRAME_SIZE <==> RawWire(f) <= MAX_FRAME_SIZE)
            && (EncodeError(f, pad).None? <==> RawWire(f) <= MAX_FRAME_SIZE + 4)
            && (Encodable(f, pad) <==> EncodeError(f, pad).None?)
  {
    PadRange(RawWire(f), Ladder(frameIndex), up);
  }

  /** The sizes the encoder accepts and the framer then refuses: exactly four, none of them padded. */
  lemma EncodedButRefused(f: Frame, frameIndex: nat, up: bool)
    requires ValidType(f.kind) && |f.meta| <= MAX_META_LEN
    ensures var pad := PadFor(RawWire(f), Ladder(frameIndex), up);
            && (EncodeError(f, pad).None? && RawWire(f) + pad > MAX_FRAME_SIZE
                <==> MAX_FRAME_SIZE < RawWire(f) <= MAX_FRAME_SIZE + 4)
            && (RawWire(f) > MAX_FRAME_SIZE ==> pad == 0)
  {
    hide Ladder, FirstFit;
    PadRange(RawWire(f), Ladder(frameIndex), up);
  }

  /** Wire sizes of frames that fit the ladder: at least the smallest bucket, at most the largest. */
  lemma WireSizeOnLadder(raw: nat, frameIndex: nat, up: bool)
    requires raw <= 16384
    ensures var wire := raw + PadFor(raw, Ladder(frameIndex), up);
            (if frameIndex < 16 then 1500 else 256) <= wire <= 16384
  {
    var ladder := Ladder(frameIndex);
    var i := FirstFit(raw, ladder);
    assert i < |ladder| by {
      assert ladder[|ladder| - 1] == 16384;
    }
  }

  /** Without the bucket-up draw, a frame of the steady phase that fits the ladder goes out at the next of nine sizes. */
  lemma SteadySizes(raw: nat, frameIndex: nat)
    requires raw <= 16384 && frameIndex >= 16
    ensures raw + PadFor(raw, Ladder(frameIndex), false) ==
              if raw <= 256 then 256 else if raw <= 512 then 512 else if raw <= 1024 then 1024
              else if raw <= 1500 then 1500 else if raw <= 2048 then 2048 else if raw <= 4096 then 4096
              else if raw <= 8192 then 8192 else if raw <= 12288 then 12288 else 16384
  {
    hide FirstFit;
    var b := STEADY_BUCKETS;
    assert |b| == 9 && b[0] == 256 && b[1] == 512 && b[2] == 1024 && b[3] == 1500 && b[4] == 2048;
    assert b[5] == 4096 && b[6] == 8192 && b[7] == 12288 && b[8] == 16384;
    assert FirstFit(raw, b) ==
             if raw <= 256 then 0 else if raw <= 512 then 1 else if raw <= 1024 then 2 else if raw <= 1500 then 3
             else if raw <= 2048 then 4 else if raw <= 4096 then 5 else if raw <= 8192 then 6
             else if raw <= 12288 then 7 else 8;
  }

  /** In the first sixteen frames there are four sizes; where the next is more than 4096 bytes away the frame gets 4096. */
  lemma HandshakeSizes(raw: nat, frameIndex: nat)
    requires raw <= 16384 && frameIndex < 16
    ensures raw + PadFor(raw, Ladder(frameIndex), false) ==
              if raw <= 1500 then 1500 else if raw <= 4096 then 4096 else if raw <= 8192 then 8192
              else if raw < 12288 then raw + 4096 else 16384
  {
    hide FirstFit;
    var b := HANDSHAKE_BUCKETS;
    assert |b| == 4 && b[0] == 1500 && b[1] == 4096 && b[2] == 8192 && b[3] == 16384;
    assert FirstFit(raw, b) == if raw <= 1500 then 0 else if raw <= 4096 then 1 else if raw <= 8192 then 2 else 3;
  }

  /** Above the ladder the wire size is the least multiple of 1024 that holds the frame, as long as that fits one frame;
      larger frames get no pad. */
  lemma AboveTheLadder(raw: nat, frameIndex: nat, up: bool)
    requires raw > 16384
    ensures var wire := raw + PadFor(raw, Ladder(frameIndex), up);
            if raw <= 64512 then wire % 1024 == 0 && raw <= wire < raw + 1024 else wire == raw
  {
    hide FirstFit;
    var ladder := Ladder(frameIndex);
    assert FirstFit(raw, ladder) == |ladder| by {
      assert forall b | b in ladder :: b <= 16384;
    }
    RoundedUp(raw);
  }

  lemma RoundedUp(raw: nat)
    ensures var t := ((raw + 1023) / 1024) * 1024;
            t % 1024 == 0 && raw <= t < raw + 1024 && (t > MAX_WIRE <==> raw > 64512)
  {
  }

  /** The bucket the policy aims at. */
  function Bucket(raw: nat, ladder: seq<nat>, up: bool): nat
    requires FirstFit(raw, ladder) < |ladder|
  {
    var i := FirstFit(raw, ladder);
    if i + 1 < |ladder| && up then ladder[i + 1] else ladder[i]
  }

  /** Ascending, ending at 16384, with all steps but the last within one maximal pad. */
  ghost predicate WellSpaced(ladder: seq<nat>) {
    && |ladder| > 0 && ladder[|ladder| - 1] == 16384 && ladder[0] < MAX_FRAME_PAD
    && (forall i, j | 0 <= i < j < |ladder| :: ladder[i] < ladder[j])
    && (forall i | 0 < i < |ladder| - 1 :: ladder[i] - ladder[i - 1] <= MAX_FRAME_PAD)
  }

  lemma LaddersWellSpaced(frameIndex: nat)
    ensures WellSpaced(Ladder(frameIndex))
  {
  }

  /** The policy promises that a frame lands on a bucket. It does exactly when the bucket aimed at is at most
      MAX_FRAME_PAD bytes away; every other frame is sent MAX_FRAME_PAD bytes above its own size. */
  lemma LandsOnBucket(raw: nat, frameIndex: nat, up: bool)
    requires raw <= 16384
    ensures FirstFit(raw, Ladder(frameIndex)) < |Ladder(frameIndex)|
    ensures var ladder := Ladder(frameIndex);
            var wire, bucket := raw + PadFor(raw, ladder, up), Bucket(raw, ladder, up);
            && (wire in ladder <==> bucket - raw <= MAX_FRAME_PAD)
            && wire == (if bucket - raw <= MAX_FRAME_PAD then bucket else raw + MAX_FRAME_PAD)
  {
    LaddersWellSpaced(frameIndex);
    LandsOn(raw, Ladder(frameIndex), up);
  }

  lemma LandsOn(raw: nat, ladder: seq<nat>, up: bool)
    requires raw <= 16384 && WellSpaced(ladder)
    ensures FirstFit(raw, ladder) < |ladder|
    ensures var wire, bucket := raw + PadFor(raw, ladder, up), Bucket(raw, ladder, up);
            && (wire in ladder <==> bucket - raw <= MAX_FRAME_PAD)
            && wire == (if bucket - raw <= MAX_FRAME_PAD then bucket else raw + MAX_FRAME_PAD)
  {
    var i := FirstFit(raw, ladder);
    assert i < |ladder|;
    var bucket, wire := Bucket(raw, ladder, up), raw + PadFor(raw, ladder, up);
    if bucket - raw > MAX_FRAME_PAD {
      assert wire == raw + MAX_FRAME_PAD;
      forall j | 0 <= j < |ladder| ensures ladder[j] != wire {
        if j == i && bucket != ladder[i] && i > 0 {
          assert ladder[i - 1] < raw;
        }
      }
    }
  }

  /** A frame that misses every bucket: 5000 bytes, bumped towards 12288 in the steady phase. */
  lemma MissesEveryBucket()
    ensures 5000 + PadFor(5000, STEADY_BUCKETS, true) == 9096
    ensures 9096 !in STEADY_BUCKETS
  {
    hide FirstFit;
    assert STEADY_BUCKETS[5] < 5000 <= STEADY_BUCKETS[6];
    assert FirstFit(5000, STEADY_BUCKETS) == 6;
  }
}
