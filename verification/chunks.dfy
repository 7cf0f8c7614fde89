/** The splitting of a long team list into messages (show_teams_list): a
    response longer than 4000 characters is sent as the pieces
    response[i:i+4000] for i = 0, 4000, 8000, ...; a shorter one is sent
    whole. */
module MessageChunks {
  import opened Strings

  /** The longest message the bot sends in one piece. */
  const ChunkSize: nat := 4000

  function Min(a: int, b: int): int
  {
    if a <= b then a else b
  }

  /** Python's s[a:b] for non-negative a and b: both ends are clamped to the
      length, and an empty string results when a >= b. */
  function Slice(s: string, a: nat, b: nat): (r: string)
    ensures |r| <= |s| && |r| <= if a <= b then b - a else 0
  {
    var lo := Min(a, |s|);
    var hi := Min(b, |s|);
    if lo <= hi then s[lo..hi] else []
  }

  /** The number of values in range(0, n, ChunkSize). */
  function ChunkCount(n: nat): nat
  {
    (n + ChunkSize - 1) / ChunkSize
  }

  /** [s[i:i+4000] for i in range(0, len(s), 4000)] */
  function Chunks(s: string): (parts: seq<string>)
    ensures |parts| == ChunkCount(|s|)
    ensures forall i :: 0 <= i < |parts| ==> |parts[i]| <= ChunkSize
  {
    seq(ChunkCount(|s|), i requires 0 <= i < ChunkCount(|s|) =>
      Slice(s, i * ChunkSize, i * ChunkSize + ChunkSize))
  }

  /** A text of at most 4000 characters is one chunk. */
  lemma ChunksShort(s: string)
    requires 0 < |s| <= ChunkSize
    ensures Chunks(s) == [s]
  {
    assert ChunkCount(|s|) == 1;
    assert Chunks(s)[0] == Slice(s, 0, ChunkSize) == s;
  }

  /** The first chunk of a longer text is its first 4000 characters, and the
      remaining chunks are the chunks of the rest. */
  lemma ChunksLong(s: string)
    requires |s| > ChunkSize
    ensures Chunks(s) == [s[..ChunkSize]] + Chunks(s[ChunkSize..])
  {
    var parts := Chunks(s);
    var rest := s[ChunkSize..];
    var tail := Chunks(rest);
    assert ChunkCount(|s|) == ChunkCount(|rest|) + 1;
    assert parts[0] == s[..ChunkSize];
    forall i | 0 <= i < |tail| ensures parts[i + 1] == tail[i] {
      ChunkOfRest(s, i);
    }
    assert parts == [parts[0]] + tail;
  }

  /** Chunk i + 1 of s is chunk i of what follows the first 4000 characters. */
  lemma ChunkOfRest(s: string, i: nat)
    requires |s| > ChunkSize
    ensures Slice(s, (i + 1) * ChunkSize, (i + 1) * ChunkSize + ChunkSize)
            == Slice(s[ChunkSize..], i * ChunkSize, i * ChunkSize + ChunkSize)
  {
  }

  /** Putting the chunks back together gives the original text, and no
      chunk is empty. */
  lemma {:induction false} ChunksRoundTrip(s: string)
    decreases |s|
    ensures Concat(Chunks(s)) == s
    ensures forall i :: 0 <= i < |Chunks(s)| ==> |Chunks(s)[i]| > 0
  {
    if |s| == 0 {
      assert Chunks(s) == [];
    } else {
      if |s| <= ChunkSize {
        ChunksShort(s);
      } else {
        ChunksLong(s);
        ChunksRoundTrip(s[ChunkSize..]);
        var parts := Chunks(s);
        assert parts[1..] == Chunks(s[ChunkSize..]);
        assert s == s[..ChunkSize] + s[ChunkSize..];
      }
    }
  }

  /** The messages show_teams_list sends for a response: the chunks when it
      is longer than 4000 characters, otherwise the response itself. Every
      message fits the 4000-character limit, together the messages are
      exactly the response, and a short response goes out as one message. */
  function Messages(response: string): (msgs: seq<string>)
    ensures forall i :: 0 <= i < |msgs| ==> |msgs[i]| <= ChunkSize
    ensures Concat(msgs) == response
    ensures |msgs| == if |response| <= ChunkSize then 1 else ChunkCount(|response|)
  {
    if |response| > ChunkSize then
      ChunksRoundTrip(response);
      Chunks(response)
    else
      assert Concat([response]) == response + Concat([]);
      [response]
  }
}
