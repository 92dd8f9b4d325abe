/** The reader of a stream of samples that are ended by a record separator and arrive in
    chunks that need not respect sample boundaries. */
module SampleStream {
  import opened AsterixFrames

  const RS: Byte := 0x1E

  /** The stream cut at every separator; the last piece is the unterminated rest. */
  function Pieces(s: seq<Byte>): (p: seq<seq<Byte>>)
    ensures |p| >= 1
  {
    if s == [] then [[]]
    else
      var rest := Pieces(s[1..]);
      if s[0] == RS then [[]] + rest else [[s[0]] + rest[0]] + rest[1..]
  }

  function NonEmpty(pieces: seq<seq<Byte>>): seq<seq<Byte>> {
    if pieces == [] then []
    else (if pieces[0] == [] then [] else [pieces[0]]) + NonEmpty(pieces[1..])
  }

  /** The samples of a stream: its non-empty terminated pieces. */
  function Samples(s: seq<Byte>): seq<seq<Byte>> {
    var p := Pieces(s);
    NonEmpty(p[..|p| - 1])
  }

  function Rest(s: seq<Byte>): seq<Byte> {
    var p := Pieces(s);
    p[|p| - 1]
  }

  function Concat(chunks: seq<seq<Byte>>): seq<Byte> {
    if chunks == [] then [] else Concat(chunks[..|chunks| - 1]) + chunks[|chunks| - 1]
  }

  // ----- what the reader does -----

  /** What is kept of an unterminated rest. */
  function Kept(rest: seq<Byte>, maxSample: nat): seq<Byte> {
    if |rest| > maxSample then [] else rest
  }

  /** The buffer after some chunks. */
  function Buffer(chunks: seq<seq<Byte>>, maxSample: nat): seq<Byte> {
    if chunks == [] then []
    else
      var n := |chunks| - 1;
      Kept(Rest(Buffer(chunks[..n], maxSample) + chunks[n]), maxSample)
  }

  function Yielded(chunks: seq<seq<Byte>>, maxSample: nat): seq<seq<Byte>> {
    if chunks == [] then []
    else
      var n := |chunks| - 1;
      Yielded(chunks[..n], maxSample) + Samples(Buffer(chunks[..n], maxSample) + chunks[n])
  }

  /** The chunks up to the first empty one, which ends the stream. */
  function UntilEmpty(chunks: seq<seq<Byte>>): (r: seq<seq<Byte>>)
    ensures r <= chunks && [] !in r
  {
    if chunks == [] || chunks[0] == [] then []
    else
      var rest := UntilEmpty(chunks[1..]);
      assert rest == chunks[1..][..|rest|] && chunks == [chunks[0]] + chunks[1..];
      [chunks[0]] + rest
  }

  // ----- cutting at separators -----

  /** The pieces of two streams in a row: the last of one and the first of the other meet. */
  function Glue(p: seq<seq<Byte>>, q: seq<seq<Byte>>): (r: seq<seq<Byte>>)
    requires |p| >= 1 && |q| >= 1
    ensures |r| >= 1
  {
    p[..|p| - 1] + [p[|p| - 1] + q[0]] + q[1..]
  }

  lemma GlueStep(b: Byte, p: seq<seq<Byte>>, q: seq<seq<Byte>>)
    requires |p| >= 1 && |q| >= 1
    ensures Glue([[]] + p, q) == [[]] + Glue(p, q)
    ensures Glue([[b] + p[0]] + p[1..], q) == [[b] + Glue(p, q)[0]] + Glue(p, q)[1..]
  {
    var n := |p| - 1;
    assert ([[]] + p)[..|[[]] + p| - 1] == [[]] + p[..n];
    var started := [[b] + p[0]] + p[1..];
    if n == 0 {
      assert [b] + (p[0] + q[0]) == ([b] + p[0]) + q[0];
      assert started == [[b] + p[0]];
    } else {
      assert started[..|started| - 1] == [[b] + p[0]] + p[1..n];
      assert Glue(p, q)[1..] == p[1..n] + [p[n] + q[0]] + q[1..];
    }
  }

  lemma GlueNothing(q: seq<seq<Byte>>)
    requires |q| >= 1
    ensures Glue([[]], q) == q
  {
    var nothing: seq<Byte> := [];
    assert nothing + q[0] == q[0];
    assert [nothing][..0] == [] && q == [q[0]] + q[1..];
  }

  lemma GlueLast(p: seq<seq<Byte>>, q: seq<seq<Byte>>)
    requires |p| >= 1 && |q| >= 1
    ensures Glue(p, q) == p[..|p| - 1] + Glue([p[|p| - 1]], q)
  {}

  lemma PiecesStep(s: seq<Byte>)
    ensures s == [] ==> Pieces(s) == [[]]
    ensures s != [] ==>
      var rest := Pieces(s[1..]);
      Pieces(s) == if s[0] == RS then [[]] + rest else [[s[0]] + rest[0]] + rest[1..]
  {}

  lemma {:induction false} PiecesAppend(a: seq<Byte>, b: seq<Byte>)
    ensures Pieces(a + b) == Glue(Pieces(a), Pieces(b))
  {
    hide Pieces;
    PiecesStep(a);
    PiecesStep(a + b);
    if a == [] {
      assert a + b == b;
      GlueNothing(Pieces(b));
    } else {
      PiecesAppend(a[1..], b);
      hide Glue;
      GlueStep(a[0], Pieces(a[1..]), Pieces(b));
      assert (a + b)[0] == a[0] && (a + b)[1..] == a[1..] + b;
    }
  }

  lemma NonEmptyStep(s: seq<seq<Byte>>)
    ensures NonEmpty(s) == if s == [] then [] else (if s[0] == [] then [] else [s[0]]) + NonEmpty(s[1..])
  {}

  lemma {:induction false} NonEmptyAppend(a: seq<seq<Byte>>, b: seq<seq<Byte>>)
    ensures NonEmpty(a + b) == NonEmpty(a) + NonEmpty(b)
  {
    hide NonEmpty;
    NonEmptyStep(a);
    NonEmptyStep(a + b);
    if a == [] {
      assert a + b == b;
    } else {
      NonEmptyAppend(a[1..], b);
      assert (a + b)[0] == a[0] && (a + b)[1..] == a[1..] + b;
    }
  }

  lemma PiecesBehind(a: seq<Byte>, b: seq<Byte>)
    ensures var p := Pieces(a);
            Pieces(a + b) == p[..|p| - 1] + Pieces(p[|p| - 1] + b)
  {
    hide Pieces, Glue;
    var p := Pieces(a);
    PiecesAppend(a, b);
    PiecesAppend(p[|p| - 1], b);
    RestIsWhole(a);
    GlueLast(p, Pieces(b));
  }

  /** A prefix may be replaced by its unterminated rest, once its samples are out. */
  lemma RestCarriesOver(a: seq<Byte>, b: seq<Byte>)
    ensures Samples(a + b) == Samples(a) + Samples(Rest(a) + b)
    ensures Rest(a + b) == Rest(Rest(a) + b)
  {
    hide Pieces, NonEmpty;
    PiecesBehind(a, b);
    var p := Pieces(a);
    AfterFront(p[..|p| - 1], Pieces(p[|p| - 1] + b), Pieces(a + b));
  }

  lemma AfterFront(front: seq<seq<Byte>>, short: seq<seq<Byte>>, whole: seq<seq<Byte>>)
    requires |short| >= 1 && whole == front + short
    ensures NonEmpty(whole[..|whole| - 1]) == NonEmpty(front) + NonEmpty(short[..|short| - 1])
    ensures whole[|whole| - 1] == short[|short| - 1]
  {
    assert whole[..|whole| - 1] == front + short[..|short| - 1];
    NonEmptyAppend(front, short[..|short| - 1]);
  }

  lemma {:induction false} RestIsWhole(a: seq<Byte>)
    ensures Pieces(Rest(a)) == [Rest(a)] && RS !in Rest(a)
  {
    if a != [] {
      RestIsWhole(a[1..]);
      if a[0] != RS && |Pieces(a[1..])| == 1 {
        assert Rest(a)[1..] == Rest(a[1..]);
      }
    }
  }

  lemma {:induction false} UnseparatedIsWhole(a: seq<Byte>)
    requires RS !in a
    ensures Pieces(a) == [a]
  {
    if a != [] {
      UnseparatedIsWhole(a[1..]);
      assert a == [a[0]] + a[1..];
    }
  }

  lemma PieceFirst(piece: seq<Byte>, rest: seq<Byte>)
    requires RS !in piece
    ensures Pieces(piece + [RS] + rest) == [piece] + Pieces(rest)
  {
    UnseparatedIsWhole(piece);
    assert piece + [RS] + rest == piece + ([RS] + rest);
    assert ([RS] + rest)[1..] == rest;
    PiecesAppend(piece, [RS] + rest);
    assert Pieces([RS] + rest) == [[]] + Pieces(rest);
    assert [piece][..0] == [] && piece + [] == piece;
  }

  /** One turn of the inner loop: a piece without separators is split off. */
  lemma SplitOff(piece: seq<Byte>, rest: seq<Byte>)
    requires RS !in piece
    ensures Samples(piece + [RS] + rest) == (if piece == [] then [] else [piece]) + Samples(rest)
    ensures Rest(piece + [RS] + rest) == Rest(rest)
  {
    PieceFirst(piece, rest);
    var r := Pieces(rest);
    var all := [piece] + r;
    assert all[..|all| - 1] == [piece] + r[..|r| - 1];
    NonEmptyAppend([piece], r[..|r| - 1]);
    assert [piece][1..] == [];
  }

  lemma Unseparated(a: seq<Byte>)
    requires RS !in a
    ensures Samples(a) == [] && Rest(a) == a
  {
    UnseparatedIsWhole(a);
  }

  // ----- independence of the chunks -----

  /** No unterminated rest is ever too long at the end of a chunk. */
  ghost predicate NeverDrops(chunks: seq<seq<Byte>>, maxSample: nat) {
    forall i | 0 <= i <= |chunks| :: |Rest(Concat(chunks[..i]))| <= maxSample
  }

  lemma {:induction false} YieldedIsSamples(chunks: seq<seq<Byte>>, maxSample: nat)
    requires NeverDrops(chunks, maxSample)
    ensures Yielded(chunks, maxSample) == Samples(Concat(chunks))
    ensures Buffer(chunks, maxSample) == Rest(Concat(chunks))
  {
    if chunks != [] {
      hide Samples, Rest;
      var n := |chunks| - 1;
      assert forall i | 0 <= i <= n :: chunks[..n][..i] == chunks[..i];
      YieldedIsSamples(chunks[..n], maxSample);
      RestCarriesOver(Concat(chunks[..n]), chunks[n]);
      assert chunks[..|chunks|] == chunks;
    }
  }

  /** No stretch between separators is longer than a sample may be. */
  predicate ShortPieces(s: seq<Byte>, maxSample: nat) {
    forall i | 0 <= i < |Pieces(s)| :: |Pieces(s)[i]| <= maxSample
  }

  lemma ShortPiecesPrefix(a: seq<Byte>, b: seq<Byte>, maxSample: nat)
    requires ShortPieces(a + b, maxSample)
    ensures |Rest(a)| <= maxSample
  {
    PiecesAppend(a, b);
    var n := |Pieces(a)| - 1;
    assert Pieces(a + b)[n] == Rest(a) + Pieces(b)[0];
  }

  lemma {:induction false} ConcatPrefix(chunks: seq<seq<Byte>>, i: nat)
    requires i <= |chunks|
    ensures Concat(chunks[..i]) <= Concat(chunks)
  {
    if i < |chunks| {
      var n := |chunks| - 1;
      ConcatPrefix(chunks[..n], i);
      assert chunks[..n][..i] == chunks[..i];
    } else {
      assert chunks[..i] == chunks;
    }
  }

  /** Between chunks the reader never holds more than a sample may have. */
  lemma BufferIsBounded(chunks: seq<seq<Byte>>, maxSample: nat)
    ensures |Buffer(chunks, maxSample)| <= maxSample
  {}

  /** Nothing of the stream is ever dropped, the buffer being the unterminated rest after each
      chunk, exactly when no such rest is longer than a sample may be. */
  lemma NothingIsDroppedExactly(chunks: seq<seq<Byte>>, maxSample: nat)
    ensures NeverDrops(chunks, maxSample)
            <==> forall i | 0 <= i <= |chunks| :: Buffer(chunks[..i], maxSample) == Rest(Concat(chunks[..i]))
  {
    forall i | 0 <= i <= |chunks|
      ensures |Buffer(chunks[..i], maxSample)| <= maxSample
      ensures NeverDrops(chunks, maxSample) ==> Buffer(chunks[..i], maxSample) == Rest(Concat(chunks[..i]))
    {
      BufferIsBounded(chunks[..i], maxSample);
      if NeverDrops(chunks, maxSample) {
        assert forall j | 0 <= j <= i :: chunks[..i][..j] == chunks[..j];
        YieldedIsSamples(chunks[..i], maxSample);
      }
    }
  }

  /** However the stream is cut into chunks, the samples are those of the whole stream. */
  lemma ChunksDoNotMatter(chunks: seq<seq<Byte>>, maxSample: nat)
    requires ShortPieces(Concat(chunks), maxSample)
    ensures Yielded(chunks, maxSample) == Samples(Concat(chunks))
    ensures Buffer(chunks, maxSample) == Rest(Concat(chunks))
  {
    var all := Concat(chunks);
    forall i | 0 <= i <= |chunks|
      ensures |Rest(Concat(chunks[..i]))| <= maxSample
    {
      ConcatPrefix(chunks, i);
      var a := Concat(chunks[..i]);
      assert all == a + all[|a|..];
      ShortPiecesPrefix(a, all[|a|..], maxSample);
    }
    YieldedIsSamples(chunks, maxSample);
  }

  /** Writing samples with separators and reading them, in any chunks, gives them back. */
  function Written(samples: seq<seq<Byte>>): seq<Byte> {
    if samples == [] then [] else samples[0] + [RS] + Written(samples[1..])
  }

  predicate Writable(samples: seq<seq<Byte>>, maxSample: nat) {
    forall i | 0 <= i < |samples| :: samples[i] != [] && RS !in samples[i] && |samples[i]| <= maxSample
  }

  lemma {:induction false} WrittenPieces(samples: seq<seq<Byte>>, maxSample: nat)
    requires Writable(samples, maxSample)
    ensures Pieces(Written(samples)) == samples + [[]] && Samples(Written(samples)) == samples
  {
    if samples != [] {
      WrittenPieces(samples[1..], maxSample);
      SplitOff(samples[0], Written(samples[1..]));
      assert samples == [samples[0]] + samples[1..];
      PieceFirst(samples[0], Written(samples[1..]));
    }
  }

  lemma SamplesReadBack(samples: seq<seq<Byte>>, chunks: seq<seq<Byte>>, maxSample: nat)
    requires Writable(samples, maxSample) && Concat(chunks) == Written(samples)
    ensures Yielded(chunks, maxSample) == samples && Buffer(chunks, maxSample) == []
  {
    WrittenPieces(samples, maxSample);
    assert ShortPieces(Written(samples), maxSample);
    ChunksDoNotMatter(chunks, maxSample);
  }

  /** The first separator at or after a position. */
  method Find(buf: seq<Byte>) returns (index: int)
    ensures -1 <= index < |buf|
    ensures index >= 0 ==> buf[index] == RS && RS !in buf[..index]
    ensures index < 0 ==> RS !in buf
  {
    index := 0;
    while index < |buf|
      invariant 0 <= index <= |buf| && RS !in buf[..index]
    {
      if buf[index] == RS {
        return;
      }
      index := index + 1;
    }
    assert buf[..index] == buf;
    index := -1;
  }

  /** The inner loop: the samples that a buffer completes, and what is left of it. */
  method Drain(buffer: seq<Byte>) returns (samples: seq<seq<Byte>>, buf: seq<Byte>)
    ensures samples == Samples(buffer) && buf == Rest(buffer)
  {
    hide Samples, Rest;
    samples, buf := [], buffer;
    while true
      invariant Samples(buffer) == samples + Samples(buf)
      invariant Rest(buffer) == Rest(buf)
      decreases |buf|
    {
      var index := Find(buf);
      if index < 0 {
        break;
      }
      var sample := buf[..index];
      SplitOff(sample, buf[index + 1..]);
      assert buf == sample + [RS] + buf[index + 1..];
      buf := buf[index + 1..];
      if sample != [] {
        samples := samples + [sample];
      }
    }
    Unseparated(buf);
  }

  /** The first chunks have been read, and none of them was empty. */
  ghost predicate ReadTo(chunks: seq<seq<Byte>>, i: nat)
    requires i <= |chunks|
  {
    UntilEmpty(chunks) == chunks[..i] + UntilEmpty(chunks[i..])
  }

  lemma ReadToStart(chunks: seq<seq<Byte>>)
    ensures ReadTo(chunks, 0)
  {}

  lemma ReadToStep(chunks: seq<seq<Byte>>, i: nat)
    requires i < |chunks| && chunks[i] != [] && ReadTo(chunks, i)
    ensures ReadTo(chunks, i + 1)
  {}

  lemma ReadToEnd(chunks: seq<seq<Byte>>, i: nat)
    requires i <= |chunks| && (i == |chunks| || chunks[i] == []) && ReadTo(chunks, i)
    ensures UntilEmpty(chunks) == chunks[..i]
  {}

  lemma ReadStep(chunks: seq<seq<Byte>>, i: nat, maxSample: nat)
    requires i < |chunks|
    ensures var whole := Buffer(chunks[..i], maxSample) + chunks[i];
            && Buffer(chunks[..i + 1], maxSample) == Kept(Rest(whole), maxSample)
            && Yielded(chunks[..i + 1], maxSample) == Yielded(chunks[..i], maxSample) + Samples(whole)
  {
    assert chunks[..i + 1][..i] == chunks[..i];
  }

  /** `stream_samples`, over the chunks that the connection returns one after the other. */
  method StreamSamples(chunks: seq<seq<Byte>>, maxSample: nat) returns (samples: seq<seq<Byte>>)
    ensures samples == Yielded(UntilEmpty(chunks), maxSample)
    ensures ShortPieces(Concat(UntilEmpty(chunks)), maxSample) ==> samples == Samples(Concat(UntilEmpty(chunks)))
  {
    hide *;
    samples := [];
    var buf := [];
    var i := 0;
    ReadToStart(chunks);
    assert Buffer(chunks[..0], maxSample) == [] && Yielded(chunks[..0], maxSample) == [] by {
      NothingRead(maxSample);
    }
    while i < |chunks|
      invariant 0 <= i <= |chunks| && ReadTo(chunks, i)
      invariant buf == Buffer(chunks[..i], maxSample) && samples == Yielded(chunks[..i], maxSample)
    {
      var chunk := chunks[i];
      if chunk == [] {
        break;
      }
      ReadToStep(chunks, i);
      ReadStep(chunks, i, maxSample);
      var more;
      more, buf := Drain(buf + chunk);
      samples := samples + more;
      KeptIs(buf, maxSample);
      if |buf| > maxSample {
        buf := [];
      }
      i := i + 1;
    }
    ReadToEnd(chunks, i);
    WholeStream(chunks[..i], maxSample);
  }

  lemma WholeStream(chunks: seq<seq<Byte>>, maxSample: nat)
    ensures ShortPieces(Concat(chunks), maxSample) ==> Yielded(chunks, maxSample) == Samples(Concat(chunks))
  {
    if ShortPieces(Concat(chunks), maxSample) {
      ChunksDoNotMatter(chunks, maxSample);
    }
  }

  lemma KeptIs(rest: seq<Byte>, maxSample: nat)
    ensures Kept(rest, maxSample) == if |rest| > maxSample then [] else rest
  {}

  lemma NothingRead(maxSample: nat)
    ensures Buffer([], maxSample) == [] && Yielded([], maxSample) == []
  {}
}
