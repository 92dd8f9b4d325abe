/** ASTERIX data blocks (EUROCONTROL-SPEC-0149 Part 1): one category octet, a two-octet
    length that counts the whole block, and records that begin with a field specification. */
module AsterixFrames {
  import opened Results

  type Byte = b: int | 0 <= b < 256

  datatype Frame = Frame(category: Byte, bytes: seq<Byte>)

  datatype FrameError = TrailingBytes | InvalidLength | EmptyDatagram

  /** Two octets, the higher one first. */
  function BigEndian(high: int, low: int): int {
    256 * high + low
  }

  function DeclaredLength(b: seq<Byte>): nat
    requires |b| >= 3
  {
    BigEndian(b[1], b[2])
  }

  /** A data block: its length field is its size. */
  predicate IsBlock(b: seq<Byte>) {
    |b| >= 3 && DeclaredLength(b) == |b|
  }

  datatype FrameCheck = FrameOk | TooShort | WrongCategory | WrongLength

  /** `validate_frame`. */
  function ValidateFrame(frame: seq<Byte>, expected: int): FrameCheck {
    if |frame| < 3 then TooShort
    else if frame[0] != expected then WrongCategory
    else if DeclaredLength(frame) != |frame| then WrongLength
    else FrameOk
  }

  /** A frame is accepted for a category exactly when it carries it and is a block; otherwise the
      first fault in the order of the header is named. */
  lemma ValidateExactly(frame: seq<Byte>, expected: int)
    ensures ValidateFrame(frame, expected) == FrameOk
            <==> |frame| >= 3 && frame[0] as int == expected && 256 * (frame[1] as int) + frame[2] as int == |frame|
    ensures ValidateFrame(frame, expected) == TooShort <==> |frame| < 3
    ensures ValidateFrame(frame, expected) == WrongCategory <==> |frame| >= 3 && frame[0] as int != expected
  {}

  predicate AllBlocks(blocks: seq<seq<Byte>>) {
    forall i | 0 <= i < |blocks| :: IsBlock(blocks[i])
  }

  function Flatten(blocks: seq<seq<Byte>>): seq<Byte> {
    if blocks == [] then [] else blocks[0] + Flatten(blocks[1..])
  }

  function Bytes(frames: seq<Frame>): seq<seq<Byte>> {
    seq(|frames|, i requires 0 <= i < |frames| => frames[i].bytes)
  }

  /** A datagram that is the concatenation of some blocks, at least one. */
  ghost predicate Framed(datagram: seq<Byte>) {
    exists blocks :: IsFraming(datagram, blocks)
  }

  ghost predicate IsFraming(datagram: seq<Byte>, blocks: seq<seq<Byte>>) {
    blocks != [] && AllBlocks(blocks) && Flatten(blocks) == datagram
  }

  lemma {:induction false} FlattenAppend(blocks: seq<seq<Byte>>, last: seq<Byte>)
    ensures Flatten(blocks + [last]) == Flatten(blocks) + last
  {
    if blocks == [] {
      assert [last][1..] == [];
    } else {
      FlattenAppend(blocks[1..], last);
      assert (blocks + [last])[1..] == blocks[1..] + [last];
    }
  }

  /** The first block of a concatenation is decided by its third byte at the latest. */
  lemma FirstBlock(blocks: seq<seq<Byte>>)
    requires blocks != [] && AllBlocks(blocks)
    ensures var d := Flatten(blocks);
            |d| >= 3 && DeclaredLength(d) == |blocks[0]| <= |d|
            && d[..|blocks[0]|] == blocks[0] && d[|blocks[0]|..] == Flatten(blocks[1..])
  {}

  /** A datagram is cut into blocks in at most one way. */
  lemma {:induction false} FramingIsUnique(a: seq<seq<Byte>>, b: seq<seq<Byte>>)
    requires AllBlocks(a) && AllBlocks(b) && Flatten(a) == Flatten(b)
    ensures a == b
    decreases |a|
  {
    if a != [] {
      FirstBlock(a);
    }
    if b != [] {
      FirstBlock(b);
    }
    if a != [] && b != [] {
      FramingIsUnique(a[1..], b[1..]);
      assert a == [a[0]] + a[1..] && b == [b[0]] + b[1..];
    }
  }

  /** The part of a framed datagram behind some of its blocks begins with
      another block, or is empty. */
  lemma {:induction false} RestIsFramed(datagram: seq<Byte>, blocks: seq<seq<Byte>>, done: seq<seq<Byte>>, offset: nat)
    requires AllBlocks(blocks) && Flatten(blocks) == datagram
    requires AllBlocks(done) && offset <= |datagram| && Flatten(done) == datagram[..offset]
    ensures var rest := datagram[offset..];
            rest == [] || (|rest| >= 3 && 3 <= DeclaredLength(rest) <= |rest|)
    decreases |done|
  {
    if done != [] {
      FirstBlock(done);
      assert DeclaredLength(datagram) == DeclaredLength(datagram[..offset]);
      if blocks != [] {
        FirstBlock(blocks);
        var n := |done[0]|;
        assert datagram[..offset][n..] == datagram[n..][..offset - n];
        RestIsFramed(datagram[n..], blocks[1..], done[1..], offset - n);
        assert datagram[n..][offset - n..] == datagram[offset..];
      }
    } else {
      assert datagram[offset..] == datagram;
      if blocks != [] {
        FirstBlock(blocks);
      }
    }
  }

  lemma FramingFrames(datagram: seq<Byte>, blocks: seq<seq<Byte>>)
    requires IsFraming(datagram, blocks)
    ensures Framed(datagram)
  {}

  lemma EmptyIsNotFramed()
    ensures !Framed([])
  {}

  lemma NotFramed(datagram: seq<Byte>, done: seq<seq<Byte>>, offset: nat)
    requires AllBlocks(done) && offset < |datagram| && Flatten(done) == datagram[..offset]
    requires var rest := datagram[offset..];
             |rest| < 3 || DeclaredLength(rest) < 3 || DeclaredLength(rest) > |rest|
    ensures !Framed(datagram)
  {
    if blocks :| IsFraming(datagram, blocks) {
      RestIsFramed(datagram, blocks, done, offset);
    }
  }

  /** `split_frames`: it succeeds exactly on framed datagrams, and then its frames are the
      blocks, each under the category it carries. */
  method SplitFrames(datagram: seq<Byte>) returns (r: Result<seq<Frame>, FrameError>)
    ensures r.Ok? <==> Framed(datagram)
    ensures r.Ok? ==> IsFraming(datagram, Bytes(r.value))
    ensures r.Ok? ==> forall i | 0 <= i < |r.value| :: ValidateFrame(r.value[i].bytes, r.value[i].category) == FrameOk
    ensures r.Ok? ==> forall i | 0 <= i < |r.value| :: |r.value[i].bytes| >= 3 && r.value[i].bytes[0] == r.value[i].category
    ensures r == Err(EmptyDatagram) <==> datagram == []
  {
    hide Framed;
    var frames: seq<Frame> := [];
    var offset := 0;
    while offset < |datagram|
      invariant 0 <= offset <= |datagram|
      invariant AllBlocks(Bytes(frames)) && Flatten(Bytes(frames)) == datagram[..offset]
      invariant forall i | 0 <= i < |frames| :: ValidateFrame(frames[i].bytes, frames[i].category) == FrameOk
      invariant frames == [] <==> offset == 0
      decreases |datagram| - offset
    {
      ghost var done := Bytes(frames);
      if |datagram| - offset < 3 {
        NotFramed(datagram, done, offset);
        return Err(TrailingBytes);
      }
      var category := datagram[offset];
      var length := BigEndian(datagram[offset + 1], datagram[offset + 2]);
      assert DeclaredLength(datagram[offset..]) == length;
      if length < 3 || offset + length > |datagram| {
        NotFramed(datagram, done, offset);
        return Err(InvalidLength);
      }
      var block := datagram[offset..offset + length];
      FlattenAppend(done, block);
      assert datagram[..offset] + block == datagram[..offset + length];
      frames := frames + [Frame(category, block)];
      assert Bytes(frames) == done + [block];
      offset := offset + length;
    }
    if frames == [] {
      EmptyIsNotFramed();
      return Err(EmptyDatagram);
    }
    assert datagram[..offset] == datagram;
    FramingFrames(datagram, Bytes(frames));
    return Ok(frames);
  }

  // ----- the data source identifier -----

  /** The field specification of a first record takes `n` octets from offset 3: every one but
      the last has its extension bit set. */
  predicate FspecSize(frame: seq<Byte>, n: nat) {
    && 1 <= n && 3 + n <= |frame|
    && (forall i | 3 <= i < 2 + n :: frame[i] % 2 == 1)
    && frame[2 + n] % 2 == 0
  }

  lemma FspecSizeIsUnique(frame: seq<Byte>, n: nat, m: nat)
    requires FspecSize(frame, n) && FspecSize(frame, m)
    ensures n == m
  {}

  /** The frame's first field is present and lies within the frame. */
  ghost predicate HasSource(frame: seq<Byte>, n: nat) {
    |frame| >= 6 && FspecSize(frame, n) && frame[3] >= 128 && 3 + n + 2 <= |frame|
  }

  /** `extract_sac_sic`. */
  method ExtractSacSic(frame: seq<Byte>) returns (r: Option<(Byte, Byte)>)
    ensures r.Some? <==> exists n: nat :: HasSource(frame, n)
    ensures forall n: nat | HasSource(frame, n) :: r == Some((frame[3 + n], frame[3 + n + 1]))
  {
    if |frame| < 6 {
      return None;
    }
    var pos := 3;
    var octet := frame[pos];
    pos := pos + 1;
    while octet % 2 == 1
      invariant 4 <= pos <= |frame| && octet == frame[pos - 1]
      invariant forall i | 3 <= i < pos - 1 :: frame[i] % 2 == 1
      decreases |frame| - pos
    {
      if pos >= |frame| {
        assert forall n: nat | FspecSize(frame, n) :: frame[2 + n] % 2 == 0;
        return None;
      }
      octet := frame[pos];
      pos := pos + 1;
    }
    assert FspecSize(frame, pos - 3);
    forall n: nat | FspecSize(frame, n)
      ensures n == pos - 3
    {
      FspecSizeIsUnique(frame, n, pos - 3);
    }
    if frame[3] < 128 || pos + 2 > |frame| {
      return None;
    }
    assert HasSource(frame, pos - 3);
    return Some((frame[pos], frame[pos + 1]));
  }

  /** A block that is built around a source identifier; the field specification carries the
      first field and ends with its only octet that has no extension bit. */
  function Block(category: Byte, fspec: seq<Byte>, sac: Byte, sic: Byte, rest: seq<Byte>): seq<Byte>
    requires |fspec| + |rest| <= 65530
  {
    var size := 5 + |fspec| + |rest|;
    [category, size / 256, size % 256] + fspec + [sac, sic] + rest
  }

  /** Building a block and reading it again gives back its category, size and source. */
  lemma BlockReadsBack(category: Byte, fspec: seq<Byte>, sac: Byte, sic: Byte, rest: seq<Byte>)
    requires 1 <= |fspec| && |fspec| + |rest| <= 65530
    requires (forall i | 0 <= i < |fspec| - 1 :: fspec[i] % 2 == 1) && fspec[|fspec| - 1] % 2 == 0 && fspec[0] >= 128
    ensures var b := Block(category, fspec, sac, sic, rest);
            && ValidateFrame(b, category) == FrameOk
            && HasSource(b, |fspec|) && b[3 + |fspec|] == sac && b[3 + |fspec| + 1] == sic
  {}
}
