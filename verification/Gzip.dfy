/** The gzip member header of section 2.3 of RFC 1952: writing it, reading it back, and what a reader
    makes of a header that has been cut short. */
module Gzip {

  type Byte = b: int | 0 <= b < 0x100

  type Bytes = seq<Byte>

  const ID1: Byte := 0x1f
  const ID2: Byte := 0x8b

  const FHCRC := 0x02
  const FEXTRA := 0x04
  const FNAME := 0x08
  const FCOMMENT := 0x10

  /** `fixed` are the ten bytes that every header has: two magic numbers, the compression method, the
      flags, the modification time (four bytes), the extra flags and the operating system. */
  datatype Header = Header(fixed: Bytes, xlen: nat, extra: Bytes, name: Bytes, comment: Bytes, crc16: nat, valid: bool)

  predicate Flag(h: Header, bit: nat)
    requires bit > 0
  {
    |h.fixed| == 10 && (h.fixed[3] / bit) % 2 == 1
  }

  predicate IsValid(h: Header) {
    h.valid && |h.fixed| == 10 && h.fixed[0] == ID1 && h.fixed[1] == ID2
  }

  /** The two lower bytes of a number, the lowest first. */
  function Short(n: nat): Bytes {
    [n % 0x100, n / 0x100 % 0x100]
  }

  function FromShort(a: Byte, b: Byte): nat {
    a + 0x100 * b
  }

  // ---------------------------------------------------------------------------------------
  // Writing
  // ---------------------------------------------------------------------------------------

  function ExtraPart(h: Header): Bytes {
    if Flag(h, FEXTRA) then Short(h.xlen) + h.extra else []
  }

  function NamePart(h: Header): Bytes {
    if Flag(h, FNAME) then h.name + [0] else []
  }

  function CommentPart(h: Header): Bytes {
    if Flag(h, FCOMMENT) then h.comment + [0] else []
  }

  /** Everything the checksum is computed over. */
  function Covered(h: Header): Bytes {
    h.fixed + (ExtraPart(h) + (NamePart(h) + CommentPart(h)))
  }

  function Checksum(crc32: Bytes -> nat, covered: Bytes): nat {
    crc32(covered) % 0x1_0000
  }

  function CrcPart(crc32: Bytes -> nat, h: Header): Bytes {
    if Flag(h, FHCRC) then Short(Checksum(crc32, Covered(h))) else []
  }

  function Written(crc32: Bytes -> nat, h: Header): Bytes {
    Covered(h) + CrcPart(crc32, h)
  }

  /** The header after writing: the checksum is stored in it. */
  function Stamped(crc32: Bytes -> nat, h: Header): Header {
    if Flag(h, FHCRC) then h.(crc16 := Checksum(crc32, Covered(h))) else h
  }

  method Write(crc32: Bytes -> nat, header: Header) returns (os: Bytes, stamped: Header)
    requires |header.fixed| == 10
    ensures os == Written(crc32, header) && stamped == Stamped(crc32, header)
  {
    hide Flag, Covered, Checksum;
    stamped := header;
    var strHeader := header.fixed;
    if Flag(header, FEXTRA) {
      strHeader := strHeader + [header.xlen % 0x100];
      strHeader := strHeader + [header.xlen / 0x100 % 0x100];
      strHeader := strHeader + header.extra;
    }
    assert strHeader == Before(header, 1);
    if Flag(header, FNAME) {
      strHeader := strHeader + header.name;
      strHeader := strHeader + [0];
    }
    assert strHeader == Before(header, 2);
    if Flag(header, FCOMMENT) {
      strHeader := strHeader + header.comment;
      strHeader := strHeader + [0];
    }
    assert strHeader == Before(header, 3);
    CoveredIs(header);
    if Flag(header, FHCRC) {
      var crc16 := Checksum(crc32, strHeader);
      stamped := stamped.(crc16 := crc16);
      strHeader := strHeader + [crc16 % 0x100];
      strHeader := strHeader + [crc16 / 0x100 % 0x100];
    }
    os := strHeader;
  }

  // ---------------------------------------------------------------------------------------
  // Reading
  // ---------------------------------------------------------------------------------------

  /** A reader's progress: the header so far, the place in the input, and whether to go on. */
  datatype Progress = Progress(h: Header, pos: nat, cont: bool)

  /** The first NUL from `i` on, or the end of the input. */
  function NulFrom(input: Bytes, i: nat): (j: nat)
    requires i <= |input|
    ensures i <= j <= |input|
    decreases |input| - i
  {
    if i == |input| || input[i] == 0 then i else NulFrom(input, i + 1)
  }

  function ReadExtra(input: Bytes, r: Progress): (r': Progress)
    requires r.pos <= |input|
    ensures r'.pos <= |input|
  {
    if !r.cont || !Flag(r.h, FEXTRA) then r
    else if |input| < r.pos + 2 then Progress(r.h, |input|, false)
    else
      var xlen := FromShort(input[r.pos], input[r.pos + 1]);
      var start := r.pos + 2;
      if |input| < start + xlen then Progress(r.h.(xlen := xlen), |input|, false)
      else Progress(r.h.(xlen := xlen, extra := input[start..start + xlen]), start + xlen, true)
  }

  /** A text ended by NUL: the text, where to go on, and whether the NUL was there. */
  function ReadText(input: Bytes, i: nat): (r: (Bytes, nat, bool))
    requires i <= |input|
    ensures r.1 <= |input|
  {
    var j := NulFrom(input, i);
    if j == |input| then (input[i..], j, false) else (input[i..j], j + 1, true)
  }

  function ReadName(input: Bytes, r: Progress): (r': Progress)
    requires r.pos <= |input|
    ensures r'.pos <= |input|
  {
    if !r.cont || !Flag(r.h, FNAME) then r
    else var (text, j, ok) := ReadText(input, r.pos); Progress(r.h.(name := text), j, ok)
  }

  function ReadComment(input: Bytes, r: Progress): (r': Progress)
    requires r.pos <= |input|
    ensures r'.pos <= |input|
  {
    if !r.cont || !Flag(r.h, FCOMMENT) then r
    else var (text, j, ok) := ReadText(input, r.pos); Progress(r.h.(comment := text), j, ok)
  }

  /** A checksum that is cut off is not compared. */
  function ReadCrc(crc32: Bytes -> nat, input: Bytes, r: Progress): Progress
    requires r.pos <= |input|
  {
    if !r.cont || !Flag(r.h, FHCRC) || |input| < r.pos + 2 then r
    else
      var crc16 := FromShort(input[r.pos], input[r.pos + 1]);
      Progress(r.h.(crc16 := crc16), r.pos + 2, Checksum(crc32, input[..r.pos]) == crc16)
  }

  /** Reading into the header `h0`, whose fields stay as they are where the input has none. */
  function Read(crc32: Bytes -> nat, h0: Header, input: Bytes): Header
    requires |h0.fixed| == 10
  {
    if |input| < 10 then h0.(fixed := input + h0.fixed[|input|..], valid := false)
    else
      var r := ReadCrc(crc32, input, ReadComment(input, ReadName(input, ReadExtra(input, AfterFixed(h0, input)))));
      r.h.(valid := r.cont)
  }

  function AfterFixed(h0: Header, input: Bytes): (r: Progress)
    requires |input| >= 10
    ensures r.pos <= |input|
  {
    var h := h0.(fixed := input[..10], valid := true);
    Progress(h, 10, IsValid(h))
  }

  /** Reads bytes up to a NUL, one by one. */
  method ReadBytes(input: Bytes, start: nat) returns (text: Bytes, pos: nat, cont: bool)
    requires start <= |input|
    ensures (text, pos, cont) == ReadText(input, start)
  {
    text, pos, cont := [], start, true;
    while true
      invariant start <= pos <= |input| && text == input[start..pos]
      invariant NulFrom(input, start) == NulFrom(input, pos)
      decreases |input| - pos
    {
      if pos == |input| {
        assert input[start..pos] == input[start..];
        cont := false;
        return;
      }
      var aChar := input[pos];
      pos := pos + 1;
      if aChar == 0 {
        return;
      }
      text := text + [aChar];
    }
  }

  /** Stages of reading that do not apply change nothing. */
  lemma Skipped(crc32: Bytes -> nat, input: Bytes, r: Progress)
    requires r.pos <= |input|
    ensures !r.cont || !Flag(r.h, FEXTRA) ==> ReadExtra(input, r) == r
    ensures !r.cont || !Flag(r.h, FNAME) ==> ReadName(input, r) == r
    ensures !r.cont || !Flag(r.h, FCOMMENT) ==> ReadComment(input, r) == r
    ensures !r.cont || !Flag(r.h, FHCRC) ==> ReadCrc(crc32, input, r) == r
  {
  }

  /** Reads the extra field with its length. */
  method ReadExtraField(input: Bytes, h: Header, start: nat) returns (header: Header, pos: nat, bCont: bool)
    requires start <= |input| && Flag(h, FEXTRA)
    ensures Progress(header, pos, bCont) == ReadExtra(input, Progress(h, start, true))
  {
    hide Flag;
    header, pos := h, |input|;
    bCont := start + 2 <= |input|;
    if bCont {
      header := header.(xlen := FromShort(input[start], input[start + 1]));
      bCont := start + 2 + header.xlen <= |input|;
      if bCont {
        header := header.(extra := input[start + 2..start + 2 + header.xlen]);
        pos := start + 2 + header.xlen;
      }
    }
  }

  method ReadNameField(input: Bytes, h: Header, start: nat) returns (header: Header, pos: nat, bCont: bool)
    requires start <= |input| && Flag(h, FNAME)
    ensures Progress(header, pos, bCont) == ReadName(input, Progress(h, start, true))
  {
    hide Flag, ReadText;
    var text;
    text, pos, bCont := ReadBytes(input, start);
    header := h.(name := text);
  }

  method ReadCommentField(input: Bytes, h: Header, start: nat) returns (header: Header, pos: nat, bCont: bool)
    requires start <= |input| && Flag(h, FCOMMENT)
    ensures Progress(header, pos, bCont) == ReadComment(input, Progress(h, start, true))
  {
    hide Flag, ReadText;
    var text;
    text, pos, bCont := ReadBytes(input, start);
    header := h.(comment := text);
  }

  /** Reads the checksum and compares it with that of the bytes before it. */
  method ReadCrcField(crc32: Bytes -> nat, input: Bytes, h: Header, start: nat)
      returns (header: Header, pos: nat, bCont: bool)
    requires start <= |input| && Flag(h, FHCRC)
    ensures Progress(header, pos, bCont) == ReadCrc(crc32, input, Progress(h, start, true))
  {
    hide Flag;
    header, pos, bCont := h, start, true;
    if start + 2 <= |input| {
      header := header.(crc16 := FromShort(input[start], input[start + 1]));
      bCont := crc32(input[..start]) % 0x1_0000 == header.crc16;
      pos := start + 2;
    }
  }

  method ReadHeader(crc32: Bytes -> nat, h0: Header, input: Bytes) returns (header: Header)
    requires |h0.fixed| == 10
    ensures header == Read(crc32, h0, input)
  {
    hide Flag, ReadExtra, ReadName, ReadComment, ReadCrc;
    header := h0;
    if |input| < 10 {
      return h0.(fixed := input + h0.fixed[|input|..], valid := false);
    }
    header := header.(fixed := input[..10], valid := true);
    var pos := 10;
    var bCont := IsValid(header);
    ghost var r := Progress(header, pos, bCont);
    Skipped(crc32, input, r);
    if bCont && Flag(header, FEXTRA) {
      header, pos, bCont := ReadExtraField(input, header, pos);
    }
    r := ReadExtra(input, r);
    Skipped(crc32, input, r);
    if bCont && Flag(header, FNAME) {
      header, pos, bCont := ReadNameField(input, header, pos);
    }
    r := ReadName(input, r);
    Skipped(crc32, input, r);
    if bCont && Flag(header, FCOMMENT) {
      header, pos, bCont := ReadCommentField(input, header, pos);
    }
    r := ReadComment(input, r);
    Skipped(crc32, input, r);
    if bCont && Flag(header, FHCRC) {
      header, pos, bCont := ReadCrcField(crc32, input, header, pos);
    }
    header := header.(valid := bCont);
  }

  // ---------------------------------------------------------------------------------------
  // Round trip
  // ---------------------------------------------------------------------------------------

  /** The headers the format can express. */
  ghost predicate Expressible(h: Header) {
    && IsValid(h) && h.xlen == |h.extra| < 0x1_0000
    && 0 !in h.name && 0 !in h.comment
  }

  lemma ShortExact(n: nat)
    requires n < 0x1_0000
    ensures FromShort(Short(n)[0], Short(n)[1]) == n
  {
  }

  lemma {:induction false} NulFound(input: Bytes, pre: Bytes, text: Bytes, post: Bytes)
    requires input == pre + text + post && 0 !in text && (post != [] ==> post[0] == 0)
    ensures NulFrom(input, |pre|) == |pre| + |text|
    decreases |text|
  {
    if text != [] {
      assert pre + text + post == (pre + [text[0]]) + text[1..] + post;
      assert input[|pre|] == text[0];
      NulFound(input, pre + [text[0]], text[1..], post);
    }
  }

  lemma ExtraReads(input: Bytes, pre: Bytes, h: Header, post: Bytes, hr: Header)
    requires input == pre + ExtraPart(h) + post && hr.fixed == h.fixed && h.xlen == |h.extra| < 0x1_0000
    ensures ReadExtra(input, Progress(hr, |pre|, true)) ==
      Progress(if Flag(h, FEXTRA) then hr.(xlen := h.xlen, extra := h.extra) else hr, |pre + ExtraPart(h)|, true)
  {
    if Flag(h, FEXTRA) {
      ShortExact(h.xlen);
      assert input[|pre|] == Short(h.xlen)[0] && input[|pre| + 1] == Short(h.xlen)[1];
      assert input[|pre| + 2..|pre| + 2 + h.xlen] == h.extra;
    }
  }

  lemma ExtraCut(input: Bytes, pre: Bytes, h: Header, k: nat, hr: Header)
    requires k < |ExtraPart(h)| && input == pre + ExtraPart(h)[..k]
    requires hr.fixed == h.fixed && h.xlen == |h.extra| < 0x1_0000
    ensures !ReadExtra(input, Progress(hr, |pre|, true)).cont
  {
    if k >= 2 {
      ShortExact(h.xlen);
      assert input[|pre|] == Short(h.xlen)[0] && input[|pre| + 1] == Short(h.xlen)[1];
    }
  }

  lemma TextReads(input: Bytes, pre: Bytes, text: Bytes, post: Bytes)
    requires input == pre + (text + [0]) + post && 0 !in text
    ensures ReadText(input, |pre|) == (text, |pre| + |text| + 1, true)
  {
    assert input == pre + text + ([0] + post);
    NulFound(input, pre, text, [0] + post);
  }

  lemma TextCut(input: Bytes, pre: Bytes, text: Bytes, k: nat)
    requires k <= |text| && input == pre + (text + [0])[..k] && 0 !in text
    ensures !ReadText(input, |pre|).2
  {
    assert (text + [0])[..k] == text[..k];
    assert input == pre + text[..k] + [];
    NulFound(input, pre, text[..k], []);
  }

  /** What reading `h` back into `h0` gives: the fields without a flag are those of `h0`. */
  function Merged(h: Header, h0: Header): Header {
    Header(h.fixed,
      if Flag(h, FEXTRA) then h.xlen else h0.xlen, if Flag(h, FEXTRA) then h.extra else h0.extra,
      if Flag(h, FNAME) then h.name else h0.name, if Flag(h, FCOMMENT) then h.comment else h0.comment,
      if Flag(h, FHCRC) then h.crc16 else h0.crc16, true)
  }

  /** The fields that `h` does not write are the same in `h0`, for instance empty in both. */
  ghost predicate Agree(h: Header, h0: Header) {
    && (Flag(h, FEXTRA) || (h.xlen == h0.xlen && h.extra == h0.extra))
    && (Flag(h, FNAME) || h.name == h0.name) && (Flag(h, FCOMMENT) || h.comment == h0.comment)
    && (Flag(h, FHCRC) || h.crc16 == h0.crc16)
  }

  /** The part of a header before the `n`th stage of reading. */
  function Before(h: Header, n: nat): Bytes {
    if n == 0 then h.fixed
    else if n == 1 then h.fixed + ExtraPart(h)
    else if n == 2 then h.fixed + ExtraPart(h) + NamePart(h)
    else h.fixed + ExtraPart(h) + NamePart(h) + CommentPart(h)
  }

  /** The header as read before the `n`th stage. */
  function Partly(h: Header, h0: Header, n: nat): Header {
    var m := Merged(h, h0);
    Header(h.fixed,
      if n > 0 then m.xlen else h0.xlen, if n > 0 then m.extra else h0.extra,
      if n > 1 then m.name else h0.name, if n > 2 then m.comment else h0.comment, h0.crc16, true)
  }

  /** Reading any input that starts with the first stages of `h` gets to the next stage. */
  lemma StageExtra(h: Header, h0: Header, input: Bytes, post: Bytes)
    requires Expressible(h) && |h0.fixed| == 10 && input == Before(h, 0) + ExtraPart(h) + post
    ensures |input| >= 10
    ensures ReadExtra(input, AfterFixed(h0, input)) == Progress(Partly(h, h0, 1), |Before(h, 1)|, true)
  {
    assert input[..10] == h.fixed;
    assert AfterFixed(h0, input) == Progress(Partly(h, h0, 0), 10, true);
    ExtraReads(input, h.fixed, h, post, Partly(h, h0, 0));
  }

  lemma StageName(h: Header, h0: Header, input: Bytes, post: Bytes)
    requires Expressible(h) && |h0.fixed| == 10 && input == Before(h, 1) + NamePart(h) + post
    ensures ReadName(input, Progress(Partly(h, h0, 1), |Before(h, 1)|, true)) ==
      Progress(Partly(h, h0, 2), |Before(h, 2)|, true)
  {
    if Flag(h, FNAME) {
      TextReads(input, Before(h, 1), h.name, post);
    }
  }

  lemma StageComment(h: Header, h0: Header, input: Bytes, post: Bytes)
    requires Expressible(h) && |h0.fixed| == 10 && input == Before(h, 2) + CommentPart(h) + post
    ensures ReadComment(input, Progress(Partly(h, h0, 2), |Before(h, 2)|, true)) ==
      Progress(Partly(h, h0, 3), |Before(h, 3)|, true)
  {
    if Flag(h, FCOMMENT) {
      TextReads(input, Before(h, 2), h.comment, post);
    }
  }

  lemma CoveredIs(h: Header)
    ensures Covered(h) == Before(h, 3)
  {
  }

  /** Input that starts with everything the checksum covers is read up to the checksum. */
  lemma UpToCrc(crc32: Bytes -> nat, h: Header, h0: Header, input: Bytes, post: Bytes)
    requires Expressible(h) && |h0.fixed| == 10 && input == Before(h, 3) + post
    ensures |input| >= 10 && |Before(h, 3)| <= |input|
    ensures var r := ReadCrc(crc32, input, Progress(Partly(h, h0, 3), |Before(h, 3)|, true));
      Read(crc32, h0, input) == r.h.(valid := r.cont)
  {
    hide ReadExtra, ReadName, ReadComment, ReadCrc, Partly, AfterFixed;
    assert input == Before(h, 0) + ExtraPart(h) + (NamePart(h) + (CommentPart(h) + post));
    StageExtra(h, h0, input, NamePart(h) + (CommentPart(h) + post));
    assert input == Before(h, 1) + NamePart(h) + (CommentPart(h) + post);
    StageName(h, h0, input, CommentPart(h) + post);
    assert input == Before(h, 2) + CommentPart(h) + post;
    StageComment(h, h0, input, post);
  }

  /** Reading what was written gives the header back, valid, whatever follows it. */
  lemma RoundTrip(crc32: Bytes -> nat, h: Header, h0: Header, rest: Bytes)
    requires Expressible(h) && |h0.fixed| == 10
    ensures Read(crc32, h0, Written(crc32, h) + rest) == Merged(Stamped(crc32, h), h0)
    ensures IsValid(Read(crc32, h0, Written(crc32, h) + rest))
    ensures Agree(h, h0) ==> Read(crc32, h0, Written(crc32, h) + rest) == Stamped(crc32, h)
  {
    var input := Written(crc32, h) + rest;
    CoveredIs(h);
    assert input == Before(h, 3) + (CrcPart(crc32, h) + rest);
    UpToCrc(crc32, h, h0, input, CrcPart(crc32, h) + rest);
    CrcReads(crc32, h, h0, input, rest);
  }

  lemma CrcReads(crc32: Bytes -> nat, h: Header, h0: Header, input: Bytes, rest: Bytes)
    requires Expressible(h) && input == Before(h, 3) + (CrcPart(crc32, h) + rest)
    ensures |Before(h, 3)| <= |input|
    ensures var r := ReadCrc(crc32, input, Progress(Partly(h, h0, 3), |Before(h, 3)|, true));
      r.h.(valid := r.cont) == Merged(Stamped(crc32, h), h0)
  {
    CoveredIs(h);
    if Flag(h, FHCRC) {
      var c := Checksum(crc32, Covered(h));
      ShortExact(c);
      var n := |Before(h, 3)|;
      assert input[..n] == Covered(h);
      assert input[n] == Short(c)[0] && input[n + 1] == Short(c)[1];
    }
  }

  // ---------------------------------------------------------------------------------------
  // Headers cut short
  // ---------------------------------------------------------------------------------------

  lemma FailedStays(crc32: Bytes -> nat, input: Bytes, r: Progress)
    requires r.pos <= |input| && !r.cont
    ensures ReadName(input, r) == ReadComment(input, r) == ReadCrc(crc32, input, r) == r
  {
  }

  lemma CutInExtra(crc32: Bytes -> nat, h: Header, h0: Header, k: nat)
    requires Expressible(h) && |h0.fixed| == 10 && k < |ExtraPart(h)|
    ensures !Read(crc32, h0, h.fixed + ExtraPart(h)[..k]).valid
  {
    hide ReadExtra, ReadName, ReadComment, ReadCrc;
    var input := h.fixed + ExtraPart(h)[..k];
    assert input[..10] == h.fixed;
    assert AfterFixed(h0, input) == Progress(Partly(h, h0, 0), 10, true);
    ExtraCut(input, h.fixed, h, k, Partly(h, h0, 0));
    FailedStays(crc32, input, ReadExtra(input, AfterFixed(h0, input)));
  }

  lemma CutInName(crc32: Bytes -> nat, h: Header, h0: Header, k: nat)
    requires Expressible(h) && |h0.fixed| == 10 && k < |NamePart(h)|
    ensures !Read(crc32, h0, Before(h, 1) + NamePart(h)[..k]).valid
  {
    hide ReadExtra, ReadComment, ReadCrc;
    var input := Before(h, 1) + NamePart(h)[..k];
    StageExtra(h, h0, input, NamePart(h)[..k]);
    TextCut(input, Before(h, 1), h.name, k);
    FailedStays(crc32, input, ReadName(input, ReadExtra(input, AfterFixed(h0, input))));
  }

  lemma CutInComment(crc32: Bytes -> nat, h: Header, h0: Header, k: nat)
    requires Expressible(h) && |h0.fixed| == 10 && k < |CommentPart(h)|
    ensures !Read(crc32, h0, Before(h, 2) + CommentPart(h)[..k]).valid
  {
    hide ReadExtra, ReadName, ReadCrc;
    var input := Before(h, 2) + CommentPart(h)[..k];
    assert input == Before(h, 0) + ExtraPart(h) + (NamePart(h) + CommentPart(h)[..k]);
    StageExtra(h, h0, input, NamePart(h) + CommentPart(h)[..k]);
    StageName(h, h0, input, CommentPart(h)[..k]);
    TextCut(input, Before(h, 2), h.comment, k);
    FailedStays(crc32, input, ReadComment(input, Progress(Partly(h, h0, 2), |Before(h, 2)|, true)));
  }

  lemma CutInCrc(crc32: Bytes -> nat, h: Header, h0: Header, k: nat)
    requires Expressible(h) && |h0.fixed| == 10 && k < |CrcPart(crc32, h)|
    ensures Read(crc32, h0, Before(h, 3) + CrcPart(crc32, h)[..k]).valid
  {
    var input := Before(h, 3) + CrcPart(crc32, h)[..k];
    UpToCrc(crc32, h, h0, input, CrcPart(crc32, h)[..k]);
  }

  /** A header that has been cut short is accepted exactly if it has a checksum and only bytes of the
      checksum are missing; without the checksum flag every proper prefix is rejected. */
  lemma CutShort(crc32: Bytes -> nat, h: Header, h0: Header, k: nat)
    requires Expressible(h) && |h0.fixed| == 10 && k < |Written(crc32, h)|
    ensures Read(crc32, h0, Written(crc32, h)[..k]).valid
      <==> Flag(h, FHCRC) && k >= |Written(crc32, h)| - 2
  {
    hide Read, ExtraPart, NamePart, CommentPart, Flag, Covered;
    var w := Written(crc32, h);
    CoveredIs(h);
    var input := w[..k];
    if k < 10 {
      TooShort(crc32, h0, input);
    } else if k < |Before(h, 1)| {
      assert input == h.fixed + ExtraPart(h)[..k - 10];
      CutInExtra(crc32, h, h0, k - 10);
    } else if k < |Before(h, 2)| {
      assert input == Before(h, 1) + NamePart(h)[..k - |Before(h, 1)|];
      CutInName(crc32, h, h0, k - |Before(h, 1)|);
    } else if k < |Before(h, 3)| {
      assert input == Before(h, 2) + CommentPart(h)[..k - |Before(h, 2)|];
      CutInComment(crc32, h, h0, k - |Before(h, 2)|);
    } else {
      assert input == Before(h, 3) + CrcPart(crc32, h)[..k - |Before(h, 3)|];
      CutInCrc(crc32, h, h0, k - |Before(h, 3)|);
    }
  }

  lemma TooShort(crc32: Bytes -> nat, h0: Header, input: Bytes)
    requires |h0.fixed| == 10 && |input| < 10
    ensures !Read(crc32, h0, input).valid
  {
  }

  // ---------------------------------------------------------------------------------------
  // Exactly what is accepted
  // ---------------------------------------------------------------------------------------

  lemma ShortBack(a: Byte, b: Byte)
    ensures Short(FromShort(a, b)) == [a, b] && FromShort(a, b) < 0x1_0000
  {
  }

  lemma {:induction false} NulFromIs(input: Bytes, i: nat)
    requires i <= |input|
    ensures var j := NulFrom(input, i);
      0 !in input[i..j] && (j < |input| ==> input[j] == 0)
    decreases |input| - i
  {
    if i < |input| && input[i] != 0 {
      NulFromIs(input, i + 1);
      assert input[i..NulFrom(input, i)] == [input[i]] + input[i + 1..NulFrom(input, i)];
    }
  }

  lemma TextTaken(input: Bytes, i: nat)
    requires i <= |input|
    ensures var (text, j, ok) := ReadText(input, i);
      ok ==> 0 !in text && i <= j && input[i..j] == text + [0]
  {
    NulFromIs(input, i);
  }

  /** The header whose bytes a successful reader has passed; fields without a flag are empty. */
  function Passed(h: Header): Header {
    Header(h.fixed, if Flag(h, FEXTRA) then h.xlen else 0, if Flag(h, FEXTRA) then h.extra else [],
      if Flag(h, FNAME) then h.name else [], if Flag(h, FCOMMENT) then h.comment else [], 0, true)
  }

  lemma SameFlags(h: Header, h': Header)
    requires h.fixed == h'.fixed
    ensures Flag(h, FHCRC) == Flag(h', FHCRC) && Flag(h, FEXTRA) == Flag(h', FEXTRA)
  {
  }

  lemma ExtraTaken(input: Bytes, r: Progress)
    requires r.cont && r.pos <= |input|
    ensures var r' := ReadExtra(input, r);
      r'.cont ==>
        && r'.h.fixed == r.h.fixed && r.pos <= r'.pos && input[r.pos..r'.pos] == ExtraPart(Passed(r'.h))
        && Passed(r'.h).xlen == |Passed(r'.h).extra| < 0x1_0000
  {
    hide Flag, Short, FromShort;
    var r' := ReadExtra(input, r);
    SameFlags(r.h, r'.h);
    SameFlags(r.h, Passed(r'.h));
    if Flag(r.h, FEXTRA) && |input| >= r.pos + 2 {
      ShortBack(input[r.pos], input[r.pos + 1]);
      var xlen := FromShort(input[r.pos], input[r.pos + 1]);
      if |input| >= r.pos + 2 + xlen {
        assert input[r.pos..r.pos + 2 + xlen] == Short(xlen) + input[r.pos + 2..r.pos + 2 + xlen];
      }
    }
  }

  lemma NameTaken(input: Bytes, r: Progress)
    requires r.cont && r.pos <= |input|
    ensures var r' := ReadName(input, r);
      r'.cont ==>
        && r'.h == r.h.(name := r'.h.name) && r.pos <= r'.pos
        && input[r.pos..r'.pos] == NamePart(Passed(r'.h)) && 0 !in Passed(r'.h).name
  {
    TextTaken(input, r.pos);
  }

  lemma CommentTaken(input: Bytes, r: Progress)
    requires r.cont && r.pos <= |input|
    ensures var r' := ReadComment(input, r);
      r'.cont ==>
        && r'.h == r.h.(comment := r'.h.comment) && r.pos <= r'.pos
        && input[r.pos..r'.pos] == CommentPart(Passed(r'.h)) && 0 !in Passed(r'.h).comment
  {
    TextTaken(input, r.pos);
  }

  lemma CrcTaken(crc32: Bytes -> nat, input: Bytes, r: Progress)
    requires r.cont && r.pos <= |input| && ReadCrc(crc32, input, r).cont && input[..r.pos] == Covered(Passed(r.h))
    ensures var h := Passed(r.h);
      || Written(crc32, h) <= input
      || (Flag(h, FHCRC) && |input| < r.pos + 2)
  {
    hide Flag, Covered, Short, FromShort;
    assert Passed(r.h).fixed == r.h.fixed;
    SameFlags(r.h, Passed(r.h));
    if Flag(r.h, FHCRC) && |input| >= r.pos + 2 {
      ShortBack(input[r.pos], input[r.pos + 1]);
      assert input[..r.pos + 2] == Written(crc32, Passed(r.h));
    } else if !Flag(r.h, FHCRC) {
      assert Written(crc32, Passed(r.h)) == input[..r.pos];
    }
  }

  /** The input begins with a header as it is written, or ends inside its checksum. */
  ghost predicate Begins(crc32: Bytes -> nat, h: Header, input: Bytes) {
    || Written(crc32, h) <= input
    || (Flag(h, FHCRC) && Covered(h) <= input && |input| < |Covered(h)| + 2)
  }

  lemma AcceptedBegins(crc32: Bytes -> nat, h0: Header, input: Bytes) returns (h: Header)
    requires |h0.fixed| == 10 && Read(crc32, h0, input).valid
    ensures Expressible(h) && Begins(crc32, h, input)
  {
    hide ReadExtra, ReadName, ReadComment, ReadCrc, Flag, ExtraPart, NamePart, CommentPart, Written;
    var r0 := AfterFixed(h0, input);
    Skipped(crc32, input, r0);
    var r1 := ReadExtra(input, r0);
    Skipped(crc32, input, r1);
    var r2 := ReadName(input, r1);
    Skipped(crc32, input, r2);
    var r3 := ReadComment(input, r2);
    Skipped(crc32, input, r3);
    assert r3.cont && r2.cont && r1.cont && r0.cont;
    ExtraTaken(input, r0);
    NameTaken(input, r1);
    CommentTaken(input, r2);
    h := Passed(r3.h);
    SameParts(h, Passed(r1.h), Passed(r2.h), r3.h, r1.h, r2.h);
    FourParts(input, 10, r1.pos, r2.pos, r3.pos);
    CrcTaken(crc32, input, r3);
  }

  lemma FourParts(input: Bytes, a: nat, b: nat, c: nat, d: nat)
    requires a <= b <= c <= d <= |input|
    ensures input[..d] == input[..a] + (input[a..b] + (input[b..c] + input[c..d]))
  {
  }

  /** Later fields do not change the parts before them. */
  lemma SameParts(h: Header, h1: Header, h2: Header, r: Header, r1: Header, r2: Header)
    requires h == Passed(r) && h1 == Passed(r1) && h2 == Passed(r2)
    requires r2 == r1.(name := r2.name) && r == r2.(comment := r.comment)
    ensures ExtraPart(h) == ExtraPart(h1) && NamePart(h) == NamePart(h2)
    ensures h.xlen == h1.xlen && h.extra == h1.extra && h.name == h2.name && h.fixed == r.fixed
  {
  }

  lemma CutCrcAccepted(crc32: Bytes -> nat, h: Header, h0: Header, input: Bytes)
    requires Expressible(h) && |h0.fixed| == 10
    requires Flag(h, FHCRC) && Covered(h) <= input && |input| < |Covered(h)| + 2
    ensures Read(crc32, h0, input).valid
  {
    CoveredIs(h);
    var post := input[|Covered(h)|..];
    assert input == Before(h, 3) + post;
    UpToCrc(crc32, h, h0, input, post);
  }

  /** A reader accepts exactly the inputs that begin with a header as it is written, magic numbers and
      checksum included, or that end inside the checksum of one. */
  lemma AcceptsExactly(crc32: Bytes -> nat, h0: Header, input: Bytes)
    requires |h0.fixed| == 10
    ensures Read(crc32, h0, input).valid <==> exists h :: Expressible(h) && Begins(crc32, h, input)
  {
    hide Read, Expressible, Covered;
    if Read(crc32, h0, input).valid {
      var h := AcceptedBegins(crc32, h0, input);
    }
    if h :| Expressible(h) && Begins(crc32, h, input) {
      if Written(crc32, h) <= input {
        var rest := input[|Written(crc32, h)|..];
        assert input == Written(crc32, h) + rest;
        RoundTrip(crc32, h, h0, rest);
      } else {
        CutCrcAccepted(crc32, h, h0, input);
      }
    }
  }

  /** Bit `n` of the flag byte. */
  predicate Bit(b: Byte, n: nat) {
    match n
    case 0 => b % 2 == 1
    case 1 => b / 2 % 2 == 1
    case 2 => b / 4 % 2 == 1
    case 3 => b / 8 % 2 == 1
    case 4 => b / 16 % 2 == 1
    case _ => false
  }

  /** The layout that RFC 1952 prescribes: magic numbers 31 and 139; extra field by bit 2 of the fourth byte,
      its length with the low byte first; name by bit 3 and comment by bit 4, each with a NUL behind it;
      checksum by bit 1, low byte first. */
  lemma LayoutExact(crc32: Bytes -> nat, h: Header)
    requires Expressible(h)
    ensures var flags := h.fixed[3];
      var extra: Bytes := if Bit(flags, 2) then [|h.extra| % 256, |h.extra| / 256] + h.extra else [];
      var name: Bytes := if Bit(flags, 3) then h.name + [0] else [];
      var comment: Bytes := if Bit(flags, 4) then h.comment + [0] else [];
      var covered := h.fixed + extra + name + comment;
      var crc := crc32(covered) % 0x1_0000;
      && h.fixed[0] == 31 && h.fixed[1] == 139
      && Written(crc32, h) == covered + (if Bit(flags, 1) then [crc % 256, crc / 256] else [])
  {
    hide Covered, Flag, Short, Bit;
    FlagBits(h);
    CoveredIs(h);
    ShortIs(|h.extra|);
    ShortIs(Checksum(crc32, Covered(h)));
  }

  lemma ShortIs(n: nat)
    requires n < 0x1_0000
    ensures Short(n) == [n % 256, n / 256]
  {
  }

  lemma FlagBits(h: Header)
    requires |h.fixed| == 10
    ensures Flag(h, FHCRC) == Bit(h.fixed[3], 1) && Flag(h, FEXTRA) == Bit(h.fixed[3], 2)
    ensures Flag(h, FNAME) == Bit(h.fixed[3], 3) && Flag(h, FCOMMENT) == Bit(h.fixed[3], 4)
  {
  }
}
