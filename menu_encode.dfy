/** The Mortevielle menu encoder (mortevielle_menu/encode.c): it reads the text the
    decoder writes (or one typed by hand) and packs it back into bitmap bytes. '1' is a
    foreground pixel, '0' and '.' are background pixels, and every other character
    (the decoder's line breaks among them) is skipped. Eight pixels make one byte, the
    first one in the most significant bit; a last group of fewer than eight pixels is
    never written. */
module MenuEncode {
  import opened MenuBits
  import opened MenuDecode

  /** A character that stands for a pixel. */
  predicate IsPixelChar(ch: char)
  {
    ch == '1' || ch == '0' || ch == '.'
  }

  /** The pixels a single character contributes: one for a pixel character, none otherwise. */
  function CharBits(ch: char): (bits: seq<bool>)
    ensures |bits| == (if IsPixelChar(ch) then 1 else 0)
    ensures IsPixelChar(ch) ==> bits[0] == (ch == '1')
  {
    if ch == '1' then [true]
    else if ch == '0' || ch == '.' then [false]
    else []
  }

  /** The pixels of a text, in order, with every non-pixel character dropped. */
  function Bits(text: seq<char>): (bits: seq<bool>)
    ensures |bits| <= |text|
  {
    if text == [] then []
    else Bits(text[..|text| - 1]) + CharBits(text[|text| - 1])
  }

  /** The accumulator after pixel k: its mask is or-ed in for a foreground pixel. */
  function WithPixel(acc: bv8, k: nat, isSet: bool): bv8
    requires k < 8
  {
    if isSet then acc | Mask(k) else acc
  }

  /** The byte holding a group of at most eight pixels, the first in the most significant bit. */
  function ByteOf(group: seq<bool>): (r: bv8)
    requires |group| <= 8
    ensures forall k :: |group| <= k < 8 ==> !PixelSet(r, k)
  {
    if group == [] then 0
    else
      var k := |group| - 1;
      var acc := ByteOf(group[..k]);
      WithPixelKeepsClear(acc, k, group[k]);
      WithPixel(acc, k, group[k])
  }

  /** Or-ing in bits disjoint from a clear mask keeps it clear. */
  lemma OrKeepsClear(acc: bv8, m: bv8, mask: bv8)
    requires acc & mask == 0 && m & mask == 0
    ensures (acc | m) & mask == 0
  {
  }

  /** Or-ing in the mask of pixel k leaves the pixels after k as they were. */
  lemma WithPixelKeepsClear(acc: bv8, k: nat, isSet: bool)
    requires k < 8
    requires forall j :: k <= j < 8 ==> !PixelSet(acc, j)
    ensures forall j :: k < j < 8 ==> !PixelSet(WithPixel(acc, k, isSet), j)
  {
    forall j | k < j < 8
      ensures !PixelSet(WithPixel(acc, k, isSet), j)
    {
      assert !PixelSet(acc, j);
      if isSet {
        MasksDisjoint(k, j);
        OrKeepsClear(acc, Mask(k), Mask(j));
      }
    }
  }

  /** One more pixel in a group sets its mask when it is a foreground pixel. */
  lemma ByteOfSnoc(group: seq<bool>, b: bool)
    requires |group| < 8
    ensures ByteOf(group + [b]) == WithPixel(ByteOf(group), |group|, b)
  {
    assert (group + [b])[..|group|] == group;
  }

  /** Full groups of eight pixels packed into bytes; a trailing partial group is dropped. */
  function Pack(bits: seq<bool>): (bytes: seq<bv8>)
    ensures 8 * |bytes| <= |bits| < 8 * |bytes| + 8
    decreases |bits|
  {
    if |bits| < 8 then [] else [ByteOf(bits[..8])] + Pack(bits[8..])
  }

  /** What the encoder writes for a whole text. */
  function Encode(text: seq<char>): (bytes: seq<bv8>)
    ensures 8 * |bytes| <= |Bits(text)| < 8 * |bytes| + 8
  {
    Pack(Bits(text))
  }

  /** The chunks the encoder reads, put back together. */
  function Flatten(chunks: seq<seq<char>>): seq<char>
  {
    if chunks == [] then [] else Flatten(chunks[..|chunks| - 1]) + chunks[|chunks| - 1]
  }

  /** The pixels of two texts put together are the pixels of each, in order. */
  lemma {:induction false} BitsAppend(a: seq<char>, b: seq<char>)
    ensures Bits(a + b) == Bits(a) + Bits(b)
    decreases |b|
  {
    if b == [] {
      assert a + b == a;
    } else {
      var init := b[..|b| - 1];
      assert (a + b)[..|a + b| - 1] == a + init;
      BitsAppend(a, init);
    }
  }

  /** Reading one more character adds that character's pixels. */
  lemma BitsSnoc(text: seq<char>, ch: char)
    ensures Bits(text + [ch]) == Bits(text) + CharBits(ch)
  {
    assert (text + [ch])[..|text|] == text;
  }

  /** A character that is not '1', '0' or '.' leaves the output unchanged wherever it
      appears. */
  lemma EncodeSkipsOtherChars(before: seq<char>, ch: char, after: seq<char>)
    requires !IsPixelChar(ch)
    ensures Encode(before + [ch] + after) == Encode(before + after)
  {
    BitsAppend(before + [ch], after);
    BitsAppend(before, [ch]);
    BitsAppend(before, after);
    assert [ch][..0] == [];
    assert Bits([ch]) == [];
    assert Bits(before + [ch]) == Bits(before);
    assert Bits(before + [ch] + after) == Bits(before + after);
  }

  /** '0' and '.' are the same background pixel. */
  lemma EncodeZeroIsDot(before: seq<char>, after: seq<char>)
    ensures Encode(before + ['0'] + after) == Encode(before + ['.'] + after)
  {
    BitsAppend(before + ['0'], after);
    BitsAppend(before, ['0']);
    BitsAppend(before + ['.'], after);
    BitsAppend(before, ['.']);
    assert ['0'][..0] == [] && ['.'][..0] == [];
    assert Bits(['0']) == Bits([]) + CharBits('0') == [false];
    assert Bits(['.']) == Bits([]) + CharBits('.') == [false];
  }

  /** Pixel k of a packed group is set exactly when the k-th pixel of the group is a
      foreground pixel; pixels past the end of a short group stay clear. */
  lemma {:induction false} ByteOfPixels(group: seq<bool>, k: nat)
    requires |group| <= 8 && k < 8
    ensures PixelSet(ByteOf(group), k) == (k < |group| && group[k])
    decreases |group|
  {
    if group != [] {
      var j := |group| - 1;
      ByteOfPixels(group[..j], k);
      if j != k {
        MasksDisjoint(j, k);
      }
    }
  }

  /** Packing the eight pixels of a byte gives that byte back. */
  lemma ByteOfByteBits(b: bv8)
    ensures ByteOf(ByteBits(b)) == b
  {
    forall k | 0 <= k < 8
      ensures PixelSet(ByteOf(ByteBits(b)), k) == PixelSet(b, k)
    {
      ByteOfPixels(ByteBits(b), k);
    }
    PixelsDetermineByte(ByteOf(ByteBits(b)), b);
  }

  /** Packing two pixel streams one after the other, the first made of whole bytes, is
      packing them together. */
  lemma {:induction false} PackAppend(whole: seq<bool>, rest: seq<bool>)
    requires |whole| == 8 * |Pack(whole)|
    ensures Pack(whole + rest) == Pack(whole) + Pack(rest)
    decreases |whole|
  {
    if whole == [] {
      assert whole + rest == rest;
    } else {
      var group, more := whole[..8], whole[8..];
      assert Pack(whole) == [ByteOf(group)] + Pack(more);
      assert Pack(whole + rest) == [ByteOf(group)] + Pack(more + rest) by {
        assert (whole + rest)[..8] == group && (whole + rest)[8..] == more + rest;
      }
      PackAppend(more, rest);
    }
  }

  /** Byte j of the output holds pixels 8 j to 8 j + 7 of the input. */
  lemma {:induction false} PackAt(bits: seq<bool>, j: nat)
    requires 8 * j + 8 <= |bits|
    ensures j < |Pack(bits)| && Pack(bits)[j] == ByteOf(bits[8 * j..8 * j + 8])
    decreases j
  {
    if j > 0 {
      PackAt(bits[8..], j - 1);
      assert bits[8..][8 * (j - 1)..8 * (j - 1) + 8] == bits[8 * j..8 * j + 8];
    }
  }

  /** Pixels are packed most significant bit first: pixel k of output byte j is the
      (8 j + k)-th pixel character of the text, and it is set exactly when that
      character is '1'. */
  lemma EncodeMsbFirst(text: seq<char>, j: nat, k: nat)
    requires j < |Encode(text)| && k < 8
    ensures 8 * j + k < |Bits(text)|
    ensures PixelSet(Encode(text)[j], k) == Bits(text)[8 * j + k]
  {
    PackAt(Bits(text), j);
    ByteOfPixels(Bits(text)[8 * j..8 * j + 8], k);
  }

  /** One byte per whole group of eight pixel characters; a last partial group is dropped. */
  lemma EncodeLength(text: seq<char>)
    ensures |Encode(text)| == |Bits(text)| / 8
  {
    var n, b := |Encode(text)|, |Bits(text)|;
    assert b == 8 * n + (b - 8 * n) && 0 <= b - 8 * n < 8;
  }

  /** A completed group of eight pixels after whole bytes adds exactly its own byte. */
  lemma PackGroup(done: seq<bool>, group: seq<bool>)
    requires |done| == 8 * |Pack(done)| && |group| == 8
    ensures Pack(done + group) == Pack(done) + [ByteOf(group)]
  {
    PackAppend(done, group);
    assert group[..8] == group && group[8..] == [];
  }

  /** A trailing group of fewer than eight pixels is dropped. */
  lemma PackPartial(done: seq<bool>, pending: seq<bool>)
    requires |done| == 8 * |Pack(done)| && |pending| < 8
    ensures Pack(done + pending) == Pack(done)
  {
    PackAppend(done, pending);
  }

  /** The encoder's state between two characters: the pixel counter `bit_cpt`, the
      byte being built and the bytes written so far. */
  datatype Encoder = Encoder(bitCpt: nat, byte: bv8, out: seq<bv8>)

  /** What the encoder loop does with one character: a non-pixel character is skipped;
      a pixel advances the counter, '1' also sets its bit, and the eighth pixel writes the
      byte out and starts a new one. */
  function Step(e: Encoder, ch: char): (r: Encoder)
    requires e.bitCpt < 8
    ensures !IsPixelChar(ch) ==> r == e
    ensures IsPixelChar(ch) ==> r.bitCpt == (e.bitCpt + 1) % 8
    ensures e.out <= r.out
    ensures |r.out| == |e.out| + (if IsPixelChar(ch) && e.bitCpt == 7 then 1 else 0)
  {
    if !IsPixelChar(ch) then e
    else
      var byte := WithPixel(e.byte, e.bitCpt, ch == '1');
      if e.bitCpt + 1 == 8 then Encoder(0, 0, e.out + [byte])
      else Encoder(e.bitCpt + 1, byte, e.out)
  }

  /** The state after reading a text from the start. */
  function Run(text: seq<char>): (e: Encoder)
    ensures e.bitCpt < 8
  {
    if text == [] then Encoder(0, 0, [])
    else Step(Run(text[..|text| - 1]), text[|text| - 1])
  }

  /** Reading one more character is one more step. */
  lemma RunSnoc(text: seq<char>, ch: char)
    ensures Run(text + [ch]) == Step(Run(text), ch)
  {
    assert (text + [ch])[..|text|] == text;
  }

  /** The encoder state e stands for the pixels `done + pending`: `done` are whole bytes
      already written and `pending` the group held in the counter and the accumulator. */
  ghost predicate Holds(e: Encoder, done: seq<bool>, pending: seq<bool>)
  {
    && |done| == 8 * |e.out| && e.out == Pack(done)
    && e.bitCpt == |pending| < 8 && e.byte == ByteOf(pending)
  }

  /** A pixel character adds its pixel to the pending group; the eighth one completes
      the group, which is written out as one byte. */
  lemma PixelStepHolds(e: Encoder, ch: char, done: seq<bool>, pending: seq<bool>)
    returns (done': seq<bool>, pending': seq<bool>)
    requires Holds(e, done, pending) && IsPixelChar(ch)
    ensures done' + pending' == done + pending + [ch == '1']
    ensures Holds(Step(e, ch), done', pending')
  {
    var group := pending + [ch == '1'];
    var byte := WithPixel(e.byte, e.bitCpt, ch == '1');
    ByteOfSnoc(pending, ch == '1');
    if |group| == 8 {
      done', pending' := done + group, [];
      GroupCompletes(e, done, group, byte);
    } else {
      done', pending' := done, group;
    }
  }

  /** The eighth pixel writes out the completed group and resets the counter. */
  lemma GroupCompletes(e: Encoder, done: seq<bool>, group: seq<bool>, byte: bv8)
    requires |done| == 8 * |e.out| && e.out == Pack(done)
    requires |group| == 8 && ByteOf(group) == byte
    ensures Holds(Encoder(0, 0, e.out + [byte]), done + group, [])
  {
    PackGroup(done, group);
  }

  /** One step keeps that correspondence, with the character's pixels added. */
  lemma StepHolds(e: Encoder, ch: char, done: seq<bool>, pending: seq<bool>)
    returns (done': seq<bool>, pending': seq<bool>)
    requires Holds(e, done, pending)
    ensures done' + pending' == done + pending + CharBits(ch)
    ensures Holds(Step(e, ch), done', pending')
  {
    if IsPixelChar(ch) {
      done', pending' := PixelStepHolds(e, ch, done, pending);
    } else {
      assert CharBits(ch) == [] && Step(e, ch) == e;
      done', pending' := done, pending;
    }
  }

  /** The state after any text stands for that text's pixels. */
  lemma {:induction false} RunPacks(text: seq<char>) returns (done: seq<bool>, pending: seq<bool>)
    ensures Bits(text) == done + pending && Holds(Run(text), done, pending)
  {
    if text == [] {
      done, pending := [], [];
    } else {
      var init, ch := text[..|text| - 1], text[|text| - 1];
      assert text == init + [ch];
      done, pending := RunPacks(init);
      RunSnoc(init, ch);
      BitsSnoc(init, ch);
      done, pending := StepHolds(Run(init), ch, done, pending);
    }
  }

  /** Encoding a text is running the encoder over it. */
  lemma RunEncodes(text: seq<char>)
    ensures Run(text).out == Encode(text)
  {
    var done, pending := RunPacks(text);
    PackPartial(done, pending);
  }

  /** The encoder's `byte |= 1 << (7 - bitCpt)` sets the pixel bitCpt. */
  lemma SetPixelByShift(acc: bv8, k: nat)
    requires k < 8
    ensures acc | (1 << (7 - k)) == WithPixel(acc, k, true)
  {
    MaskIsShiftedOne(k);
  }

  /** The encoder's main loop: the outer loop takes the chunks `fread` returns one after
      the other, the inner loop reads each character of a chunk, skips the ones that are
      no pixel, sets the pixel's bit for '1' and writes the byte out after its eighth
      pixel. The bytes written are those of Encode on the whole input, however it was
      split into chunks. */
  method EncodeMenu(chunks: seq<seq<char>>) returns (bytes: seq<bv8>)
    ensures bytes == Encode(Flatten(chunks))
  {
    bytes := [];
    var bitCpt := 0;
    var byte: bv8 := 0;
    var n := 0;
    while n < |chunks|
      invariant 0 <= n <= |chunks|
      invariant Encoder(bitCpt, byte, bytes) == Run(Flatten(chunks[..n]))
    {
      var c := chunks[n];
      ghost var before := Flatten(chunks[..n]);
      assert before + c[..0] == before;
      for i := 0 to |c|
        invariant Encoder(bitCpt, byte, bytes) == Run(before + c[..i])
      {
        ghost var next := Step(Encoder(bitCpt, byte, bytes), c[i]);
        assert Run(before + c[..i + 1]) == next by {
          assert before + c[..i + 1] == (before + c[..i]) + [c[i]];
          RunSnoc(before + c[..i], c[i]);
        }
        if c[i] == '1' {
          SetPixelByShift(byte, bitCpt);
          byte := byte | (1 << (7 - bitCpt));
          bitCpt := bitCpt + 1;
        } else if c[i] == '0' || c[i] == '.' {
          bitCpt := bitCpt + 1;
        } else {
          continue;
        }
        if bitCpt == 8 {
          bytes := bytes + [byte];
          bitCpt := 0;
          byte := 0;
        }
      }
      assert chunks[..n + 1][..n] == chunks[..n] && c[..|c|] == c;
      n := n + 1;
    }
    assert chunks[..n] == chunks;
    RunEncodes(Flatten(chunks));
  }

  /** The pixels of a decoded text are the pixels of its bytes, in order. */
  function AllBits(bytes: seq<bv8>): (bits: seq<bool>)
    ensures |bits| == 8 * |bytes|
  {
    if bytes == [] then [] else AllBits(bytes[..|bytes| - 1]) + ByteBits(bytes[|bytes| - 1])
  }

  /** A text of '1' and '.' reads back as one pixel per character, set exactly for '1'. */
  lemma {:induction false} BitsOfPixelChars(text: seq<char>)
    requires forall i :: 0 <= i < |text| ==> text[i] == '1' || text[i] == '.'
    ensures Bits(text) == seq(|text|, i requires 0 <= i < |text| => text[i] == '1')
  {
    if text != [] {
      BitsOfPixelChars(text[..|text| - 1]);
    }
  }

  /** The eight characters written for a byte read back as its eight pixels. */
  lemma BitsOfDecodeByte(b: bv8)
    ensures Bits(DecodeByte(b)) == ByteBits(b)
  {
    BitsOfPixelChars(DecodeByte(b));
  }

  /** A line break, or nothing, carries no pixel. */
  lemma BitsOfLineBreak(nl: seq<char>)
    requires nl == "\n" || nl == ""
    ensures Bits(nl) == []
  {
    if nl != "" {
      assert nl[..0] == [];
    }
  }

  /** The encoder reads the pixels the decoder wrote: line breaks are skipped and '.' is
      read as a background pixel. */
  lemma {:induction false} BitsOfDecode(bytes: seq<bv8>)
    ensures Bits(Decode(bytes)) == AllBits(bytes)
  {
    if bytes != [] {
      var n := |bytes|;
      var last := DecodeByte(bytes[n - 1]);
      var nl: seq<char> := if n % 3 == 0 then "\n" else "";
      BitsOfDecode(bytes[..n - 1]);
      BitsAppend(Decode(bytes[..n - 1]), last);
      BitsAppend(Decode(bytes[..n - 1]) + last, nl);
      BitsOfDecodeByte(bytes[n - 1]);
      BitsOfLineBreak(nl);
    }
  }

  /** Packing the pixels of a byte stream gives the stream back. */
  lemma {:induction false} PackAllBits(bytes: seq<bv8>)
    ensures Pack(AllBits(bytes)) == bytes
  {
    if bytes != [] {
      var n := |bytes|;
      var b := bytes[n - 1];
      PackAllBits(bytes[..n - 1]);
      PackAppend(AllBits(bytes[..n - 1]), ByteBits(b));
      ByteOfByteBits(b);
      assert ByteBits(b)[..8] == ByteBits(b) && ByteBits(b)[8..] == [];
      assert bytes[..n - 1] + [b] == bytes;
    }
  }

  /** Round trip: encoding the text the decoder writes gives back the original bytes. */
  lemma EncodeDecode(bytes: seq<bv8>)
    ensures Encode(Decode(bytes)) == bytes
  {
    BitsOfDecode(bytes);
    PackAllBits(bytes);
  }
}
