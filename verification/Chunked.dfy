/** The chunked transfer coding of section 3.6 of RFC 2068: the stream buffer that produces it, and a
    decoder written from the grammar. */
module Chunked {
  import opened Numerals

  type Byte = b: int | 0 <= b < 0x100

  type Bytes = seq<Byte>

  const CR: Byte := 13
  const LF: Byte := 10

  function Line(): Bytes {
    [CR, LF]
  }

  // ---------------------------------------------------------------------------------------
  // The coding
  // ---------------------------------------------------------------------------------------

  function HexChar(d: nat): Byte
    requires d < 16
  {
    if d < 10 then 48 + d else 97 + d - 10
  }

  function HexChars(d: seq<nat>): (r: Bytes)
    requires AreDigits(d, 16)
    ensures |r| == |d|
  {
    seq(|d|, i requires 0 <= i < |d| => HexChar(d[i]))
  }

  function Hex(n: nat): Bytes {
    DigitsExact(n, 16);
    HexChars(Digits(n, 16))
  }

  function Chunk(data: Bytes): Bytes {
    Hex(|data|) + Line() + data + Line()
  }

  function Last(): Bytes {
    [48] + Line() + Line()
  }

  function Encoded(chunks: seq<Bytes>): Bytes {
    if chunks == [] then [] else Encoded(chunks[..|chunks| - 1]) + Chunk(chunks[|chunks| - 1])
  }

  function Joined(chunks: seq<Bytes>): Bytes {
    if chunks == [] then [] else Joined(chunks[..|chunks| - 1]) + chunks[|chunks| - 1]
  }

  function Sizes(chunks: seq<Bytes>): seq<nat> {
    seq(|chunks|, i requires 0 <= i < |chunks| => |chunks[i]|)
  }

  lemma Snoc(chunks: seq<Bytes>, data: Bytes)
    ensures Encoded(chunks + [data]) == Encoded(chunks) + Chunk(data)
    ensures Joined(chunks + [data]) == Joined(chunks) + data
  {
    assert (chunks + [data])[..|chunks|] == chunks;
  }

  // ---------------------------------------------------------------------------------------
  // The decoder
  // ---------------------------------------------------------------------------------------

  /** The value of a hexadecimal digit in either case, or -1. */
  function HexValue(b: Byte): int {
    if 48 <= b <= 57 then b - 48
    else if 97 <= b <= 102 then b - 87
    else if 65 <= b <= 70 then b - 55
    else -1
  }

  /** The hexadecimal number at `i`, continuing `value`, and where it ends. */
  function ReadHex(s: Bytes, i: nat, value: nat): (r: (nat, nat))
    requires i <= |s|
    ensures i <= r.1 <= |s|
    decreases |s| - i
  {
    if i < |s| && HexValue(s[i]) >= 0 then ReadHex(s, i + 1, value * 16 + HexValue(s[i])) else (value, i)
  }

  predicate LineAt(s: Bytes, i: nat) {
    i + 2 <= |s| && s[i] == CR && s[i + 1] == LF
  }

  /** The body, the sizes of its chunks and the end of the message; or a syntax error. */
  datatype Decoded = Bad | Message(data: Bytes, sizes: seq<nat>, end: nat)

  function Decode(s: Bytes, i: nat): Decoded
    requires i <= |s|
    decreases |s| - i
  {
    var (n, j) := ReadHex(s, i, 0);
    if j == i || !LineAt(s, j) then Bad
    else if n == 0 then if LineAt(s, j + 2) then Message([], [0], j + 4) else Bad
    else if !LineAt(s, j + 2 + n) then Bad
    else
      match Decode(s, j + 4 + n)
      case Bad => Bad
      case Message(data, sizes, end) => Message(s[j + 2..j + 2 + n] + data, [n] + sizes, end)
  }

  lemma {:induction false} ReadsHex(s: Bytes, pre: Bytes, d: seq<nat>, post: Bytes, value: nat)
    requires AreDigits(d, 16) && s == pre + HexChars(d) + post && (post != [] ==> HexValue(post[0]) < 0)
    ensures ReadHex(s, |pre|, value) == ReadHex(s, |pre| + |d|, Carry(value, d, 16))
    ensures ReadHex(s, |pre|, value) == (Carry(value, d, 16), |pre| + |d|)
    decreases |d|
  {
    if d != [] {
      var h := HexChar(d[0]);
      assert HexChars(d) == [h] + HexChars(d[1..]);
      assert s == (pre + [h]) + HexChars(d[1..]) + post;
      assert s[|pre|] == h && HexValue(h) == d[0];
      ReadsHex(s, pre + [h], d[1..], post, value * 16 + d[0]);
    }
  }

  lemma ReadsSize(s: Bytes, pre: Bytes, n: nat, post: Bytes)
    requires s == pre + Hex(n) + (Line() + post)
    ensures ReadHex(s, |pre|, 0) == (n, |pre| + |Hex(n)|) && LineAt(s, |pre| + |Hex(n)|) && |Hex(n)| > 0
  {
    hide Digits, Value, Carry, ReadHex;
    DigitsExact(n, 16);
    var d := Digits(n, 16);
    ReadsHex(s, pre, d, Line() + post, 0);
    CarryDigits(n, 16);
    LineBehind(s, pre + Hex(n), post);
  }

  lemma LineBehind(s: Bytes, pre: Bytes, post: Bytes)
    requires s == pre + (Line() + post)
    ensures LineAt(s, |pre|)
  {
    assert s[|pre|] == (Line() + post)[0] && s[|pre| + 1] == (Line() + post)[1];
  }

  /** A size is written with lower-case digits and without a leading zero, a chunk as size, line end, data
      and line end, and the last chunk as a size of 0 and two line ends. */
  lemma BytesExact(data: Bytes)
    ensures var hex := Hex(|data|);
      && (forall i :: 0 <= i < |hex| ==> 48 <= hex[i] <= 57 || 97 <= hex[i] <= 102)
      && (|data| > 0 ==> hex[0] != 48)
      && ReadHex(hex, 0, 0) == (|data|, |hex|)
      && Chunk(data) == hex + [13, 10] + data + [13, 10]
    ensures Last() == [48, 13, 10, 13, 10]
  {
    hide Digits, Value, Carry, ReadHex;
    DigitsExact(|data|, 16);
    CarryDigits(|data|, 16);
    var hex := Hex(|data|);
    assert hex == [] + HexChars(Digits(|data|, 16)) + [];
    ReadsHex(hex, [], Digits(|data|, 16), [], 0);
  }

  /** All chunks but the last have data. */
  ghost predicate AllNonEmpty(chunks: seq<Bytes>) {
    forall i :: 0 <= i < |chunks| ==> |chunks[i]| > 0
  }

  /** Where the parts of a chunk are. */
  lemma ChunkSlices(s: Bytes, pre: Bytes, hex: Bytes, data: Bytes, post: Bytes)
    requires s == pre + (hex + Line() + data + Line()) + post
    ensures s == pre + hex + (Line() + (data + Line() + post))
    ensures var j := |pre| + |hex| + 2; s[j..j + |data|] == data && LineAt(s, j + |data|)
  {
    var front := pre + hex + Line() + data;
    assert s == front + (Line() + post);
    LineBehind(s, front, post);
  }

  /** One chunk in front of a message that decodes. */
  lemma DecodesChunk(s: Bytes, pre: Bytes, data: Bytes, post: Bytes)
    requires s == pre + Chunk(data) + post && |data| > 0
    ensures var r := Decode(s, |pre| + |Chunk(data)|);
      r.Message? ==> Decode(s, |pre|) == Message(data + r.data, [|data|] + r.sizes, r.end)
  {
    hide Hex, ReadHex, LineAt;
    ChunkSlices(s, pre, Hex(|data|), data, post);
    ReadsSize(s, pre, |data|, data + Line() + post);
  }

  lemma DecodesLast(s: Bytes, pre: Bytes, post: Bytes)
    requires s == pre + Last() + post
    ensures Decode(s, |pre|) == Message([], [0], |pre| + |Last()|)
  {
    assert Digits(0, 16) == [0];
    assert Hex(0) == [48];
    assert s == pre + Hex(0) + (Line() + (Line() + post));
    ReadsSize(s, pre, 0, Line() + post);
    assert LineAt(s, |pre| + 3);
  }

  lemma {:induction false} DecodesRest(s: Bytes, pre: Bytes, chunks: seq<Bytes>, post: Bytes)
    requires AllNonEmpty(chunks) && s == pre + Encoded(chunks) + Last() + post
    ensures Decode(s, |pre|) == Message(Joined(chunks), Sizes(chunks) + [0], |pre + Encoded(chunks) + Last()|)
    decreases |chunks|
  {
    hide Chunk, Encoded, Joined, Decode, Last, Sizes;
    if chunks == [] {
      NoChunks();
      assert pre + [] == pre;
      DecodesLast(s, pre, post);
    } else {
      var c, rest := chunks[0], chunks[1..];
      FirstChunk(chunks);
      assert s == (pre + Chunk(c)) + Encoded(rest) + Last() + post;
      DecodesRest(s, pre + Chunk(c), rest, post);
      assert s == pre + Chunk(c) + (Encoded(rest) + Last() + post);
      DecodesChunk(s, pre, c, Encoded(rest) + Last() + post);
      FirstSize(chunks);
      assert [|c|] + (Sizes(rest) + [0]) == [|c|] + Sizes(rest) + [0];
      assert pre + Encoded(chunks) + Last() == (pre + Chunk(c)) + Encoded(rest) + Last();
    }
  }

  lemma NoChunks()
    ensures Encoded([]) == [] && Joined([]) == [] && Sizes([]) == []
  {
  }

  lemma FirstSize(chunks: seq<Bytes>)
    requires chunks != []
    ensures Sizes(chunks) == [|chunks[0]|] + Sizes(chunks[1..])
  {
  }

  lemma {:induction false} FirstChunk(chunks: seq<Bytes>)
    requires chunks != []
    ensures Encoded(chunks) == Chunk(chunks[0]) + Encoded(chunks[1..])
    ensures Joined(chunks) == chunks[0] + Joined(chunks[1..])
    decreases |chunks|
  {
    hide Chunk, Encoded, Joined;
    var n := |chunks| - 1;
    var init, last := chunks[..n], chunks[n];
    assert chunks == init + [last];
    Snoc(init, last);
    if n == 0 {
      assert chunks[1..] == [];
      NoChunks();
    } else {
      FirstChunk(init);
      Snoc(init[1..], last);
      assert chunks[1..] == init[1..] + [last];
    }
  }

  /** Decoding the coded chunks gives the data back, with the sizes of the chunks and a last size 0. */
  lemma RoundTrip(chunks: seq<Bytes>, rest: Bytes)
    requires AllNonEmpty(chunks)
    ensures var coded := Encoded(chunks) + Last();
      Decode(coded + rest, 0) == Message(Joined(chunks), Sizes(chunks) + [0], |coded|)
  {
    assert Encoded(chunks) + Last() + rest == [] + Encoded(chunks) + Last() + rest;
    DecodesRest(Encoded(chunks) + Last() + rest, [], chunks, rest);
    assert [] + Encoded(chunks) + Last() == Encoded(chunks) + Last();
  }

  // ---------------------------------------------------------------------------------------
  // The stream buffer
  // ---------------------------------------------------------------------------------------

  /** Every chunk has data, and at most `size` bytes of it. */
  ghost predicate Fits(chunks: seq<Bytes>, size: nat) {
    forall i :: 0 <= i < |chunks| ==> 0 < |chunks[i]| <= size
  }

  lemma FitsSnoc(chunks: seq<Bytes>, data: Bytes, size: nat)
    requires Fits(chunks, size) && 0 < |data| <= size
    ensures Fits(chunks + [data], size)
  {
  }

  lemma SomeFits(chunks: seq<Bytes>, size: nat)
    requires Fits(chunks, size) && chunks != []
    ensures size > 0
  {
    assert 0 < |chunks[0]|;
  }

  lemma ChunkParts(output: Bytes, data: Bytes)
    ensures output + Hex(|data|) + Line() + data + Line() == output + Chunk(data)
  {
    hide Hex;
  }

  /** Output that holds the chunks and, once closed, the last one. */
  ghost predicate Sent(output: Bytes, chunks: seq<Bytes>, open: bool) {
    output == if open then Encoded(chunks) else Encoded(chunks) + Last()
  }

  lemma SentDecodes(output: Bytes, chunks: seq<Bytes>, size: nat)
    requires Sent(output, chunks, false) && Fits(chunks, size)
    ensures Decode(output, 0) == Message(Joined(chunks), Sizes(chunks) + [0], |output|)
  {
    hide Encoded, Joined, Sizes, Decode, Last;
    RoundTrip(chunks, []);
    assert output + [] == output;
  }

  class HTTPChunkedStreamBuf {
    /** The put area; `len` bytes of it are in use. */
    const fStore: array<Byte>
    var len: nat
    /** What the wrapped stream has received, and whether it is still attached. */
    var output: Bytes
    var open: bool
    /** The chunks sent, and all bytes put while the stream was open. */
    ghost var chunks: seq<Bytes>
    ghost var bytesPut: Bytes

    ghost predicate Valid()
      reads this, fStore
    {
      && len <= fStore.Length
      && Sent(output, chunks, open) && Fits(chunks, fStore.Length)
      && (fStore.Length > 0 ==> bytesPut == if open then Joined(chunks) + fStore[..len] else Joined(chunks))
    }

    constructor (chunklength: nat)
      ensures Valid() && fresh(fStore) && fStore.Length == chunklength && open && output == [] && bytesPut == []
    {
      fStore := new Byte[chunklength];
      len, output, open, chunks, bytesPut := 0, [], true, [], [];
    }

    /** Sends the put area as one chunk; nothing if it is empty. False if the stream is closed. */
    method Sync() returns (ok: bool)
      requires Valid()
      modifies this`len, this`output, this`chunks
      ensures Valid() && ok == open
      ensures open ==> len == 0
      ensures open && old(len) > 0 ==> chunks == old(chunks) + [old(fStore[..len])]
      ensures !open || old(len) == 0 ==> chunks == old(chunks) && len == old(len) && output == old(output)
    {
      hide Encoded, Joined, Hex, Chunk, Fits;
      if !open {
        return false;
      }
      if len > 0 {
        ghost var data := fStore[..len];
        Snoc(chunks, data);
        FitsSnoc(chunks, data, fStore.Length);
        ChunkParts(output, data);
        output := output + Hex(len) + Line();
        output := output + fStore[..len];
        output := output + Line();
        chunks := chunks + [data];
        len := 0;
        assert Joined(chunks) + fStore[..0] == Joined(chunks);
      }
      return true;
    }

    /** Puts one byte: into the put area if there is room, otherwise after a `Sync` has made room. */
    method Put(c: Byte)
      requires Valid()
      modifies this`len, this`output, this`chunks, this`bytesPut, fStore
      ensures Valid() && open == old(open)
      ensures open ==> bytesPut == old(bytesPut) + [c]
      ensures !open ==> bytesPut == old(bytesPut) && output == old(output)
      ensures open ==>
        chunks == old(chunks) + (if old(len) == fStore.Length && old(len) > 0 then [old(fStore[..len])] else [])
    {
      hide Encoded, Joined, Fits, Sent;
      if len == fStore.Length {
        var _ := Sync();
      }
      if len < fStore.Length {
        ghost var before := fStore[..len];
        fStore[len] := c;
        len := len + 1;
        assert fStore[..len] == before + [c];
        assert Joined(chunks) + before + [c] == Joined(chunks) + (before + [c]);
      }
      if open {
        bytesPut := bytesPut + [c];
      }
    }

    /** Sends the rest and the last chunk. If the chunk size is positive, decoding the output then
        yields exactly the bytes put, in chunks within the chunk size, the last size being 0; with
        chunk size 0 everything put is lost. */
    method Close()
      requires Valid()
      modifies this`len, this`output, this`open, this`chunks
      ensures Valid() && !open && bytesPut == old(bytesPut)
      ensures !old(open) ==> output == old(output)
      ensures fStore.Length > 0 ==> Decode(output, 0) == Message(bytesPut, Sizes(chunks) + [0], |output|)
      ensures fStore.Length == 0 ==> Decode(output, 0) == Message([], [0], |output|)
      ensures Fits(chunks, fStore.Length)
    {
      hide Encoded, Joined, Sizes, Fits, Decode, Last;
      if open {
        var _ := Sync();
        assert Joined(chunks) + fStore[..0] == Joined(chunks);
        output := output + Last();
        open := false;
      }
      SentDecodes(output, chunks, fStore.Length);
      if chunks != [] {
        SomeFits(chunks, fStore.Length);
      } else {
        NoChunks();
      }
    }
  }
}
