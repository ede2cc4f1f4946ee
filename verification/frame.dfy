/**
  The on-air frame of the ping/pong exchange: a 64-byte buffer whose first four
  bytes carry the ASCII tag "PING" or "PONG", followed by a numeric filler.
  This module holds the byte-level pieces of `src/main.c`: the tag literals, the
  `strncmp` test that classifies a received buffer, the `memcpy` that stores a
  reception, and the tag write plus filler loop that prepares every transmission.
 */
module Frame {

  /** C `uint8_t`. */
  newtype uint8 = x: int | 0 <= x < 0x100

  /** `BUFFER_SIZE`: capacity of the global `Buffer` and the radio's maximum payload. */
  const BUFFER_SIZE: nat := 64

  /** Number of bytes `strncmp` compares, and the length of a tag. */
  const TAG_LEN: nat := 4

  /** The global `uint8_t Buffer[BUFFER_SIZE]`. */
  type Buffer = b: seq<uint8> | |b| == BUFFER_SIZE witness seq(BUFFER_SIZE, _ => 0)

  /** `BufferSize`: a `uint16_t` that only ever holds a reception length, so it never exceeds the maximum payload. */
  type PayloadLen = n: nat | n <= BUFFER_SIZE

  /** The two role tags, `PingMsg` and `PongMsg`. */
  datatype Tag = Ping | Pong {

    /** The first four bytes of the C literal: "PING" or "PONG" in ASCII, none of them NUL. */
    function Bytes(): (b: seq<uint8>)
      ensures |b| == TAG_LEN
      ensures forall k :: 0 <= k < |b| ==> b[k] != 0
      ensures b[0] == 0x50 && b[2] == 0x4E && b[3] == 0x47
    {
      match this
      case Ping => [0x50, 0x49, 0x4E, 0x47]
      case Pong => [0x50, 0x4F, 0x4E, 0x47]
    }
  }

  /** The two tags differ, in their second byte. */
  lemma TagsDistinct()
    ensures Ping.Bytes() != Pong.Bytes()
  {
    assert Ping.Bytes()[1] != Pong.Bytes()[1];
  }

  /**
    C `strncmp(a, b, n) == 0`: the bytes are compared in order, at most `n` of
    them; the first difference decides, and a NUL shared by both ends the
    comparison early with "equal".
   */
  function StrnEqual(a: seq<uint8>, b: seq<uint8>, n: nat): (eq: bool)
    requires n <= |a| && n <= |b|
    ensures a[..n] == b[..n] ==> eq
    ensures eq && 0 < n ==> a[0] == b[0]
    decreases n
  {
    if n == 0 then true
    else
      assert a[..n] == b[..n] ==> a[0] == b[0] && a[1..][..n - 1] == b[1..][..n - 1] by {
        if a[..n] == b[..n] {
          assert a[0] == a[..n][0];
          assert a[1..][..n - 1] == a[..n][1..];
          assert b[1..][..n - 1] == b[..n][1..];
        }
      }
      a[0] == b[0] && (a[0] == 0 || StrnEqual(a[1..], b[1..], n - 1))
  }

  /** The bytes before index `k` hold no NUL: a C string read from `a` is still going at `k`. */
  predicate NoNulBefore(a: seq<uint8>, k: nat)
    requires k <= |a|
  {
    forall j :: 0 <= j < k ==> a[j] != 0
  }

  /**
    `strncmp` equality, byte by byte: within the first `n` bytes, the two
    sequences agree at every index the comparison reaches, that is, every index
    not preceded by a NUL.
   */
  lemma {:induction false} StrnEqualIffAgreeBeforeNul(a: seq<uint8>, b: seq<uint8>, n: nat)
    requires n <= |a| && n <= |b|
    ensures StrnEqual(a, b, n) <==> forall k :: 0 <= k < n && NoNulBefore(a, k) ==> a[k] == b[k]
    decreases n
  {
    if n > 0 {
      assert NoNulBefore(a, 0);
      if a[0] == b[0] && a[0] != 0 {
        var a', b' := a[1..], b[1..];
        StrnEqualIffAgreeBeforeNul(a', b', n - 1);
        if StrnEqual(a', b', n - 1) {
          forall k | 0 <= k < n && NoNulBefore(a, k)
            ensures a[k] == b[k]
          {
            if k > 0 {
              assert NoNulBefore(a', k - 1) by {
                forall j | 0 <= j < k - 1 ensures a'[j] != 0 {
                  assert a'[j] == a[j + 1];
                }
              }
              assert a'[k - 1] == b'[k - 1];
            }
          }
        } else {
          var k :| 0 <= k < n - 1 && NoNulBefore(a', k) && a'[k] != b'[k];
          assert NoNulBefore(a, k + 1) by {
            forall j | 0 <= j < k + 1 ensures a[j] != 0 {
              if j > 0 { assert a[j] == a'[j - 1]; }
            }
          }
          assert a[k + 1] != b[k + 1];
        }
      } else if a[0] == b[0] {
        forall k | 0 < k < n ensures !NoNulBefore(a, k) {
          assert a[0] == 0;
        }
      }
    }
  }

  /** When the literal has no NUL among its first `n` bytes, `strncmp` is plain equality of the `n`-byte prefixes. */
  lemma {:induction false} StrnEqualIsPrefixEquality(a: seq<uint8>, b: seq<uint8>, n: nat)
    requires n <= |a| && n <= |b|
    requires forall k :: 0 <= k < n ==> b[k] != 0
    ensures StrnEqual(a, b, n) <==> a[..n] == b[..n]
    decreases n
  {
    if n > 0 {
      StrnEqualIsPrefixEquality(a[1..], b[1..], n - 1);
      assert a[..n] == [a[0]] + a[1..][..n - 1];
      assert b[..n] == [b[0]] + b[1..][..n - 1];
      if a[..n] == b[..n] {
        assert a[0] == a[..n][0] == b[..n][0] == b[0];
        assert a[1..][..n - 1] == a[..n][1..] == b[..n][1..] == b[1..][..n - 1];
      }
    }
  }

  /**
    `strncmp((const char *)Buffer, tag, 4) == 0`: the test the main loop
    applies to the buffer. It accepts exactly the buffers whose first four
    bytes are the tag.
   */
  function HasTag(buf: Buffer, tag: Tag): (has: bool)
    ensures has <==> buf[..TAG_LEN] == tag.Bytes()
  {
    StrnEqualIsPrefixEquality(buf, tag.Bytes(), TAG_LEN);
    assert tag.Bytes()[..TAG_LEN] == tag.Bytes();
    StrnEqual(buf, tag.Bytes(), TAG_LEN)
  }

  /** What a buffer's first four bytes say: one of the two tags, or neither. */
  datatype Class = Tagged(tag: Tag) | Untagged

  /** Classification of the buffer as the main loop performs it, by the two `strncmp` tests. */
  function Classify(buf: Buffer): (c: Class)
    ensures c == Tagged(Ping) <==> buf[..TAG_LEN] == Ping.Bytes()
    ensures c == Tagged(Pong) <==> buf[..TAG_LEN] == Pong.Bytes()
    ensures c == Untagged <==> buf[..TAG_LEN] != Ping.Bytes() && buf[..TAG_LEN] != Pong.Bytes()
  {
    TagsDistinct();
    if HasTag(buf, Ping) then Tagged(Ping)
    else if HasTag(buf, Pong) then Tagged(Pong)
    else Untagged
  }

  /** Classification of a frame on its own, by its length and leading bytes: a frame shorter than a tag carries none. */
  function FrameClass(f: seq<uint8>): (c: Class)
    ensures |f| < TAG_LEN ==> c == Untagged
    ensures forall t: Tag :: c == Tagged(t) <==> TAG_LEN <= |f| && f[..TAG_LEN] == t.Bytes()
  {
    TagsDistinct();
    if |f| < TAG_LEN then Untagged
    else if f[..TAG_LEN] == Ping.Bytes() then Tagged(Ping)
    else if f[..TAG_LEN] == Pong.Bytes() then Tagged(Pong)
    else Untagged
  }

  /**
    `memcpy(Buffer, payload, size)`: the first `size` bytes are the payload and
    the rest of the buffer keeps whatever earlier frames left there.
   */
  function CopyIn(buf: Buffer, payload: seq<uint8>): (r: Buffer)
    requires |payload| <= BUFFER_SIZE
    ensures r[..|payload|] == payload
    ensures r[|payload|..] == buf[|payload|..]
  {
    payload + buf[|payload|..]
  }

  /** Writing the four tag bytes, `Buffer[0] = 'P'` … `Buffer[3] = 'G'`. */
  function WriteTag(buf: Buffer, tag: Tag): (r: Buffer)
    ensures r[..TAG_LEN] == tag.Bytes()
    ensures r[TAG_LEN..] == buf[TAG_LEN..]
  {
    var t := tag.Bytes();
    buf[0 := t[0]][1 := t[1]][2 := t[2]][3 := t[3]]
  }

  /** The filler byte at index `i`: the `int` value `i - 4` stored into a `uint8_t`, that is, reduced modulo 256. */
  function FillerByte(i: nat): (b: uint8)
    ensures (b as int - (i - TAG_LEN)) % 0x100 == 0
    ensures TAG_LEN <= i < TAG_LEN + 0x100 ==> b as int == i - TAG_LEN
  {
    ((i - TAG_LEN) % 0x100) as uint8
  }

  /**
    The loop `for (i = from; i < BufferSize; i++) Buffer[i] = i - 4;`. Its
    `uint8_t` counter never wraps, because `BufferSize` is at most 64.
   */
  function FillFrom(buf: Buffer, from: nat, size: PayloadLen): (r: Buffer)
    ensures forall k :: from <= k < size ==> r[k] == FillerByte(k)
    ensures forall k :: 0 <= k < BUFFER_SIZE && !(from <= k < size) ==> r[k] == buf[k]
    decreases size - from
  {
    if from < size then FillFrom(buf[from := FillerByte(from)], from + 1, size) else buf
  }

  /**
    The frame preparation every transmit branch performs before `Radio.Send`:
    the tag, then the filler up to `size`. Bytes from `max(4, size)` on are untouched.
   */
  function Fill(buf: Buffer, tag: Tag, size: PayloadLen): (r: Buffer)
    ensures r[..TAG_LEN] == tag.Bytes()
    ensures forall k :: TAG_LEN <= k < size ==> r[k] == FillerByte(k)
    ensures forall k :: TAG_LEN <= k < BUFFER_SIZE && size <= k ==> r[k] == buf[k]
  {
    var tagged := WriteTag(buf, tag);
    var r := FillFrom(tagged, TAG_LEN, size);
    assert forall k :: TAG_LEN <= k < BUFFER_SIZE ==> tagged[k] == tagged[TAG_LEN..][k - TAG_LEN];
    assert forall k :: 0 <= k < TAG_LEN ==> r[k] == tagged[k] == tagged[..TAG_LEN][k];
    r
  }

  /** `Radio.Send(Buffer, BufferSize)`: the bytes that go on the air. */
  function Payload(buf: Buffer, size: PayloadLen): (f: seq<uint8>)
    ensures |f| == size
    ensures forall k :: 0 <= k < size ==> f[k] == buf[k]
  {
    buf[..size]
  }

  /** A complete frame: a tag followed by the filler for every later index. */
  predicate WellFormed(f: seq<uint8>, tag: Tag) {
    && TAG_LEN <= |f|
    && f[..TAG_LEN] == tag.Bytes()
    && forall k :: TAG_LEN <= k < |f| ==> f[k] == FillerByte(k)
  }

  /** The filler counts up from zero: the byte at index `k` past the tag holds `k - 4`, with no wrap-around. */
  lemma FillerCountsFromZero(buf: Buffer, tag: Tag, size: PayloadLen)
    ensures forall k :: TAG_LEN <= k < size ==> Fill(buf, tag, size)[k] as int == k - TAG_LEN
  {
  }

  /** The filler does not depend on the tag: two fills of one buffer differ at most in the tag bytes. */
  lemma {:induction false} FillerIndependentOfTag(buf: Buffer, t1: Tag, t2: Tag, size: PayloadLen)
    ensures Fill(buf, t1, size)[TAG_LEN..] == Fill(buf, t2, size)[TAG_LEN..]
  {
    var a, b := Fill(buf, t1, size), Fill(buf, t2, size);
    forall k | TAG_LEN <= k < BUFFER_SIZE
      ensures a[k] == b[k]
    {
      if k < size {
        assert a[k] == FillerByte(k) == b[k];
      } else {
        assert a[k] == buf[k] == b[k];
      }
    }
    assert forall k :: 0 <= k < |a[TAG_LEN..]| ==> a[TAG_LEN..][k] == a[TAG_LEN + k] && b[TAG_LEN..][k] == b[TAG_LEN + k];
  }

  /** Preparing the same frame twice leaves the buffer as after once. */
  lemma FillIdempotent(buf: Buffer, tag: Tag, size: PayloadLen)
    ensures Fill(Fill(buf, tag, size), tag, size) == Fill(buf, tag, size)
  {
    var a := Fill(buf, tag, size);
    var b := Fill(a, tag, size);
    forall k | 0 <= k < BUFFER_SIZE
      ensures b[k] == a[k]
    {
      if k < TAG_LEN {
        assert b[k] == b[..TAG_LEN][k] == a[..TAG_LEN][k];
      }
    }
  }

  /** The buffer prepared for a tag classifies as that tag, whatever the length. */
  lemma FillClassifies(buf: Buffer, tag: Tag, size: PayloadLen)
    ensures Classify(Fill(buf, tag, size)) == Tagged(tag)
  {
    var r := Fill(buf, tag, size);
    TagsDistinct();
    match tag
    case Ping => assert r[..TAG_LEN] == Ping.Bytes();
    case Pong => assert r[..TAG_LEN] == Pong.Bytes();
  }

  /**
    What goes on the air after the buffer is prepared: a well-formed frame of
    the tag when the length reaches the tag, otherwise a prefix of the tag alone.
   */
  lemma SentFrameShape(buf: Buffer, tag: Tag, size: PayloadLen)
    ensures TAG_LEN <= size ==> WellFormed(Payload(Fill(buf, tag, size), size), tag)
    ensures size < TAG_LEN ==> Payload(Fill(buf, tag, size), size) == tag.Bytes()[..size]
  {
    var r := Fill(buf, tag, size);
    var f := Payload(r, size);
    if TAG_LEN <= size {
      assert f[..TAG_LEN] == r[..TAG_LEN];
    } else {
      assert forall k :: 0 <= k < size ==> f[k] == r[..TAG_LEN][k];
    }
  }

  /** A well-formed frame is classified as its tag: the codec round trip. */
  lemma WellFormedClassifies(f: seq<uint8>, tag: Tag)
    requires WellFormed(f, tag)
    ensures FrameClass(f) == Tagged(tag)
  {
  }

  /**
    A reception at least as long as a tag is classified in the buffer exactly as
    the frame on its own: the stale tail plays no part.
   */
  lemma {:induction false} LongReceptionClassifies(buf: Buffer, payload: seq<uint8>)
    requires TAG_LEN <= |payload| <= BUFFER_SIZE
    ensures Classify(CopyIn(buf, payload)) == FrameClass(payload)
  {
    var r := CopyIn(buf, payload);
    assert r[..TAG_LEN] == r[..|payload|][..TAG_LEN] == payload[..TAG_LEN];
  }

  /**
    A reception shorter than a tag is classified by its own bytes followed by
    the stale bytes of the previous frame at the remaining tag positions.
   */
  lemma {:induction false} ShortReceptionReadsStaleBytes(buf: Buffer, payload: seq<uint8>)
    requires |payload| < TAG_LEN
    ensures Classify(CopyIn(buf, payload)) == FrameClass(payload + buf[|payload|..TAG_LEN])
  {
    var r := CopyIn(buf, payload);
    var g := payload + buf[|payload|..TAG_LEN];
    assert |g| == TAG_LEN;
    assert r[..TAG_LEN] == g[..TAG_LEN] by {
      forall k | 0 <= k < TAG_LEN
        ensures r[k] == g[k]
      {
        if k < |payload| {
          assert r[k] == r[..|payload|][k] == payload[k];
        } else {
          assert r[k] == r[|payload|..][k - |payload|] == buf[|payload|..][k - |payload|];
        }
      }
    }
  }

  /**
    A concrete case: after a "PONG" frame, a one-byte reception "P" still
    classifies as "PONG", although the frame alone carries no tag.
   */
  lemma ShortReceptionAfterPong(buf: Buffer)
    requires buf[..TAG_LEN] == Pong.Bytes()
    ensures FrameClass([0x50]) == Untagged
    ensures Classify(CopyIn(buf, [0x50])) == Tagged(Pong)
  {
    ShortReceptionReadsStaleBytes(buf, [0x50]);
    var g: seq<uint8> := [0x50] + buf[1..TAG_LEN];
    assert g == Pong.Bytes() by {
      assert buf[1..TAG_LEN] == buf[..TAG_LEN][1..];
    }
    assert g[..TAG_LEN] == g;
  }
}
