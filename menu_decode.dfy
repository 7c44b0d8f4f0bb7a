/** The Mortevielle menu decoder (mortevielle_menu/decode.c): every byte of a menu
    bitmap becomes eight characters, '1' for a foreground pixel and '.' for a
    background one, and a line break follows every third byte (one 24-pixel row). */
module MenuDecode {
  import opened MenuBits

  /** The character written for one pixel. */
  function PixelChar(isSet: bool): (c: char)
    ensures c == '1' || c == '.'
    ensures c == '1' <==> isSet
  {
    if isSet then '1' else '.'
  }

  /** The eight characters of one byte, most significant bit first. */
  function DecodeByte(b: bv8): (text: seq<char>)
    ensures |text| == 8
    ensures forall k :: 0 <= k < 8 ==> text[k] == PixelChar(PixelSet(b, k))
  {
    seq(8, k requires 0 <= k < 8 => PixelChar(PixelSet(b, k)))
  }

  /** The whole text written for a byte stream, one byte after the other. */
  function Decode(bytes: seq<bv8>): (text: seq<char>)
    ensures 8 * |bytes| <= |text|
  {
    if bytes == [] then []
    else
      var n := |bytes|;
      Decode(bytes[..n - 1]) + DecodeByte(bytes[n - 1]) + (if n % 3 == 0 then "\n" else "")
  }

  /** n bytes give 8 n pixel characters and one line break per whole row. */
  lemma {:induction false} DecodeLength(bytes: seq<bv8>)
    ensures |Decode(bytes)| == 8 * |bytes| + |bytes| / 3
  {
    if bytes != [] {
      var n := |bytes|;
      DecodeLength(bytes[..n - 1]);
      assert (n - 1) / 3 + (if n % 3 == 0 then 1 else 0) == n / 3;
    }
  }

  /** Every character written is '1', '.' or a line break. */
  lemma {:induction false} DecodeAlphabet(bytes: seq<bv8>)
    ensures forall i :: 0 <= i < |Decode(bytes)| ==> Decode(bytes)[i] in {'1', '.', '\n'}
  {
    if bytes != [] {
      var n := |bytes|;
      DecodeAlphabet(bytes[..n - 1]);
    }
  }

  /** One row of the menu: three bytes and a line break. */
  lemma DecodeRow(bytes: seq<bv8>)
    requires |bytes| == 3
    ensures Decode(bytes) == DecodeByte(bytes[0]) + DecodeByte(bytes[1]) + DecodeByte(bytes[2]) + "\n"
  {
    assert bytes[..2][..1] == bytes[..1] && bytes[..1][..0] == [];
    assert Decode(bytes[..1]) == DecodeByte(bytes[0]);
    assert Decode(bytes[..2]) == DecodeByte(bytes[0]) + DecodeByte(bytes[1]);
  }

  /** Decoding whole rows first and the rest afterwards gives the same text as decoding
      everything at once: the line-break counter restarts after each row. */
  lemma {:induction false} DecodeAppendRows(rows: seq<bv8>, rest: seq<bv8>)
    requires |rows| % 3 == 0
    ensures Decode(rows + rest) == Decode(rows) + Decode(rest)
    decreases |rest|
  {
    if rest == [] {
      assert rows + rest == rows;
    } else {
      var init, last := rest[..|rest| - 1], rest[|rest| - 1];
      var nl := if (|init| + 1) % 3 == 0 then "\n" else "";
      SplitLast(rows, rest);
      DecodeAppendRows(rows, init);
      SnocAfterRows(rows, init, last);
      DecodeSnoc(init, last);
      Regroup(Decode(rows), Decode(init), DecodeByte(last), nl);
    }
  }

  /** A non-empty sequence, alone or after another, ends with its last element. */
  lemma SplitLast<T>(front: seq<T>, s: seq<T>)
    requires s != []
    ensures s == s[..|s| - 1] + [s[|s| - 1]]
    ensures front + s == (front + s[..|s| - 1]) + [s[|s| - 1]]
  {
  }

  /** A byte after whole rows and some more bytes is placed in its row as if the whole
      rows were not there. */
  lemma SnocAfterRows(rows: seq<bv8>, init: seq<bv8>, last: bv8)
    requires |rows| % 3 == 0
    ensures Decode((rows + init) + [last])
            == Decode(rows + init) + DecodeByte(last) + (if (|init| + 1) % 3 == 0 then "\n" else "")
  {
    RowPhase(|rows|, |init| + 1);
    DecodeSnoc(rows + init, last);
  }

  /** Concatenation regrouped. */
  lemma Regroup<T>(a: seq<T>, b: seq<T>, c: seq<T>, d: seq<T>)
    ensures a + (b + c + d) == a + b + c + d
  {
  }

  /** Whole rows before a position do not change its place within a row. */
  lemma RowPhase(whole: nat, m: nat)
    requires whole % 3 == 0
    ensures (whole + m) % 3 == m % 3
  {
  }

  /** The byte counter of the decoder loop is the byte count modulo 3. */
  lemma RowCounterStep(i: nat, count: nat)
    requires count == i % 3
    ensures (i + 1) % 3 == if count == 2 then 0 else count + 1
  {
  }

  /** Decoding one more byte appends its eight characters, and a line break when it
      completes a row. */
  lemma DecodeSnoc(bytes: seq<bv8>, b: bv8)
    ensures Decode(bytes + [b])
            == Decode(bytes) + DecodeByte(b) + (if (|bytes| + 1) % 3 == 0 then "\n" else "")
  {
    assert (bytes + [b])[..|bytes|] == bytes;
  }

  /** The text ends with a line break exactly when a whole number of rows (and at least
      one) was decoded; a trailing one or two bytes get no line break. */
  lemma {:induction false} DecodeEndsWithNewline(bytes: seq<bv8>)
    requires bytes != []
    ensures Decode(bytes)[|Decode(bytes)| - 1] == '\n' <==> |bytes| % 3 == 0
  {
    var n := |bytes|;
    if n % 3 != 0 {
      var last := DecodeByte(bytes[n - 1]);
      assert Decode(bytes) == Decode(bytes[..n - 1]) + last;
      assert Decode(bytes)[|Decode(bytes)| - 1] == last[7];
    }
  }

  /** The first bit + 1 characters of a byte are its first bit characters and the
      character of pixel bit. */
  lemma DecodeBytePrefix(b: bv8, bit: nat)
    requires bit < 8
    ensures DecodeByte(b)[..bit + 1] == DecodeByte(b)[..bit] + [PixelChar(PixelSet(b, bit))]
  {
  }

  /** Decoding one more byte of the same stream. */
  lemma DecodePrefixStep(bytes: seq<bv8>, i: nat)
    requires i < |bytes|
    ensures Decode(bytes[..i + 1])
            == Decode(bytes[..i]) + DecodeByte(bytes[i]) + (if (i + 1) % 3 == 0 then "\n" else "")
  {
    assert bytes[..i + 1] == bytes[..i] + [bytes[i]];
    DecodeSnoc(bytes[..i], bytes[i]);
  }

  /** The decoder loop of decode.c: for every byte, a mask starting at 0x80 is shifted
      right once per pixel, and a counter of bytes written on the current line triggers
      the line break after the third one. */
  method DecodeMenu(bytes: seq<bv8>) returns (text: seq<char>)
    ensures text == Decode(bytes)
  {
    text := [];
    var bytesCpt := 0;
    var i := 0;
    while i < |bytes|
      invariant 0 <= i <= |bytes|
      invariant 0 <= bytesCpt < 3 && bytesCpt == i % 3
      invariant text == Decode(bytes[..i])
    {
      var c := bytes[i];
      ghost var before := text;
      var mask: bv8 := 0x80;
      var bit := 0;
      while bit < 8
        invariant 0 <= bit <= 8
        invariant bit < 8 ==> mask == Mask(bit)
        invariant text == before + DecodeByte(c)[..bit]
      {
        DecodeBytePrefix(c, bit);
        text := text + [if c & mask != 0 then '1' else '.'];
        if bit < 7 { MaskShift(bit); }
        mask := mask >> 1;
        bit := bit + 1;
      }
      assert DecodeByte(c)[..bit] == DecodeByte(c);
      RowCounterStep(i, bytesCpt);
      bytesCpt := bytesCpt + 1;
      if bytesCpt == 3 {
        text := text + "\n";
        bytesCpt := 0;
      }
      DecodePrefixStep(bytes, i);
      i := i + 1;
    }
    assert bytes[..i] == bytes;
  }
}
