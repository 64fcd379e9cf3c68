/** How a reply from the completion provider is cut into chat messages
    (bot.py lines 102-107): a reply of at most 2000 characters goes out whole,
    a longer one as consecutive 1990-character slices, cut by position only. */
module Chunking {
  import opened PyStr

  /** The longest message the chat platform accepts. */
  const MessageLimit := 2000
  /** The size of the slices a longer reply is cut into. */
  const ChunkSize := 1990

  /** Python's `s[lo:hi]` for non-negative bounds: both bounds are clamped to the
      length, and a slice whose bounds cross is empty. */
  function Slice(s: string, lo: nat, hi: nat): string {
    var a := if lo < |s| then lo else |s|;
    var b := if hi < |s| then hi else |s|;
    if a <= b then s[a..b] else []
  }

  /** `len(range(0, n, ChunkSize))`. */
  function ChunkCount(n: nat): nat {
    (n + ChunkSize - 1) / ChunkSize
  }

  /** `[r[i:i+1990] for i in range(0, len(r), 1990)]`, the `k`-th slice starting at
      `i == k * 1990`. */
  function Chunks(r: string): seq<string> {
    seq(ChunkCount(|r|), k requires 0 <= k => Slice(r, k * ChunkSize, k * ChunkSize + ChunkSize))
  }

  /** The slices of a text are its first slice followed by the slices of the rest. */
  lemma ChunksStep(r: string)
    ensures r == [] ==> Chunks(r) == []
    ensures 0 < |r| <= ChunkSize ==> Chunks(r) == [r]
    ensures |r| > ChunkSize ==> Chunks(r) == [r[..ChunkSize]] + Chunks(r[ChunkSize..])
  {
    if 0 < |r| <= ChunkSize {
      assert ChunkCount(|r|) == 1;
      assert Chunks(r)[0] == r[0..|r|] == r;
    } else if |r| > ChunkSize {
      var rest := r[ChunkSize..];
      assert ChunkCount(|r|) == 1 + ChunkCount(|rest|);
      forall k | 1 <= k < ChunkCount(|r|)
        ensures Chunks(r)[k] == Chunks(rest)[k - 1]
      {
        var lo := (k - 1) * ChunkSize;
        if lo + ChunkSize <= |rest| {
          assert rest[lo..lo + ChunkSize] == r[lo + ChunkSize..lo + 2 * ChunkSize];
        } else {
          assert rest[lo..] == r[lo + ChunkSize..];
        }
      }
      assert Chunks(r) == [r[..ChunkSize]] + Chunks(rest);
    }
  }

  /** Round trip: the slices, concatenated in order, give back the reply exactly. */
  lemma {:induction false} ChunksConcat(r: string)
    ensures Concat(Chunks(r)) == r
    decreases |r|
  {
    ChunksStep(r);
    if 0 < |r| <= ChunkSize {
      assert Concat([r]) == r + Concat([]);
    } else if |r| > ChunkSize {
      var rest := r[ChunkSize..];
      ChunksConcat(rest);
      var cs := [r[..ChunkSize]] + Chunks(rest);
      assert cs[0] == r[..ChunkSize] && cs[1..] == Chunks(rest);
      assert r[..ChunkSize] + rest == r;
    }
  }

  /** The slices of a non-empty text: ceil(|r| / 1990) of them, each taken at its
      position, all but the last exactly 1990 long and the last 1 to 1990 long. */
  lemma ChunksShape(r: string)
    requires r != []
    ensures var k := |Chunks(r)|;
      k >= 1 && (k - 1) * ChunkSize < |r| <= k * ChunkSize
      && (forall i | 0 <= i < k - 1 :: |Chunks(r)[i]| == ChunkSize)
      && 0 < |Chunks(r)[k - 1]| <= ChunkSize
    ensures forall i | 0 <= i < |Chunks(r)| ::
      Chunks(r)[i] == r[i * ChunkSize..i * ChunkSize + |Chunks(r)[i]|]
  {
    var k := |Chunks(r)|;
    assert k == ChunkCount(|r|);
    assert (k - 1) * ChunkSize < |r| <= k * ChunkSize;
    forall i | 0 <= i < k - 1 ensures |Chunks(r)[i]| == ChunkSize {
      assert i * ChunkSize + ChunkSize <= (k - 1) * ChunkSize;
    }
  }

  /** The messages a reply goes out as: the reply itself when it fits in one message
      (1991 to 2000 characters included), its 1990-character slices otherwise. */
  function Replies(r: string): (ms: seq<string>)
    ensures Concat(ms) == r
    ensures ms != [] && forall i | 0 <= i < |ms| :: |ms[i]| <= MessageLimit
    ensures |r| <= MessageLimit ==> ms == [r]
    ensures |r| > MessageLimit ==>
      (|ms| - 1) * ChunkSize < |r| <= |ms| * ChunkSize
      && (forall i | 0 <= i < |ms| - 1 :: |ms[i]| == ChunkSize)
      && 0 < |ms[|ms| - 1]| <= ChunkSize
  {
    if |r| > MessageLimit then
      ChunksConcat(r);
      ChunksShape(r);
      Chunks(r)
    else
      assert Concat([r]) == r + Concat([]);
      [r]
  }

  /** A reply of 5000 characters goes out as three messages of 1990, 1990 and 1020
      characters. */
  lemma FiveThousandCharacterReply(r: string)
    requires |r| == 5000
    ensures |Replies(r)| == 3
    ensures |Replies(r)[0]| == 1990 && |Replies(r)[1]| == 1990 && |Replies(r)[2]| == 1020
  {
    var ms := Replies(r);
    assert ms == Chunks(r);
    assert ms[2] == Slice(r, 3980, 5970) == r[3980..5000];
  }
}
