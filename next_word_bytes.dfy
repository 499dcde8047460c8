/**
 * `get_next_word` as written works on the UTF-8 bytes of a `&str`: it
 * counts characters with `chars().enumerate()` but slices the string with
 * that count, and `&str` slicing is by byte offset and panics when an
 * offset falls inside a character. The two agree only while every
 * character before the separator is a single byte.
 *
 * This module models that behaviour on bytes, exhibits where it differs
 * from the character-level tokenizer `HttpRequest.NextWord` (which the rest
 * of the model uses), and proves that the character-level one is the
 * byte-level split the code evidently meant.
 */
module ByteTokenizer {
  import opened Wrappers
  import opened Text
  import opened Utf8
  import opened HttpRequest

  /** The outcome of the byte-level tokenizer; `Panic` is a slice that starts or ends inside a character. */
  datatype Sliced = NoSeparator | Slices(word: seq<byte>, rest: seq<byte>) | Panic

  /** Rust's `str::is_char_boundary` on UTF-8 bytes, for offsets up to the length. */
  predicate IsCharBoundary(b: seq<byte>, k: nat)
  {
    k == 0 || k == |b| || (k < |b| && !IsContinuation(b[k]))
  }

  /**
   * `get_next_word` as written: the separator's position is counted in
   * characters of the decoded text and then used as a byte offset into `b`.
   */
  function NextWordAsWritten(b: seq<byte>): (r: Sliced)
    requires Decode(b).Ok?
    ensures r.NoSeparator? <==> NoDelimiter(Decode(b).value)
    ensures r.Slices? ==> |r.word| < |b| && r.word == b[..|r.word|] && r.rest == b[|r.word| + 1..]
    ensures r.Slices? ==>
      (FirstDelimiter(Decode(b).value).Some? && |r.word| == FirstDelimiter(Decode(b).value).value)
    ensures r.Panic? <==>
      (FirstDelimiter(Decode(b).value).Some? &&
       var i := FirstDelimiter(Decode(b).value).value;
       !(IsCharBoundary(b, i) && IsCharBoundary(b, i + 1)))
  {
    match FirstDelimiter(Decode(b).value)
    case None => NoSeparator
    case Some(i) =>
      if IsCharBoundary(b, i) && IsCharBoundary(b, i + 1) then Slices(b[..i], b[i + 1..]) else Panic
  }

  /** The bytes of a one-byte separator. */
  lemma EncodeDelimiter(d: char)
    requires IsDelimiter(d)
    ensures Encode([d]) == [d as int as byte]
  {
    assert [d][1..] == [];
  }

  /**
   * The character-level tokenizer is the intended byte split: the buffer is
   * the word's bytes, the separator's single byte, and the rest's bytes.
   */
  lemma NextWordEncoded(s: string)
    ensures NextWord(s).Some? ==>
      var (word, rest) := NextWord(s).value;
      exists d :: IsDelimiter(d) && Encode(s) == Encode(word) + [d as int as byte] + Encode(rest)
  {
    NextWordSplits(s);
    if NextWord(s).Some? {
      var (word, rest) := NextWord(s).value;
      var d := s[|word|];
      EncodeConcat(word + [d], rest);
      EncodeConcat(word, [d]);
      EncodeDelimiter(d);
      assert Encode(s) == Encode(word) + [d as int as byte] + Encode(rest);
    }
  }

  /** The bytes of a text with a separator: the word's bytes, the separator's byte, the rest's bytes. */
  lemma SplitBytes(s: string)
    requires NextWord(s).Some?
    ensures var (word, rest) := NextWord(s).value;
      && FirstDelimiter(s) == Some(|word|) && s[|word|] as int < 0x80
      && Encode(s) == Encode(word) + [s[|word|] as int as byte] + Encode(rest)
  {
    NextWordSplits(s);
    var (word, rest) := NextWord(s).value;
    var d := s[|word|];
    EncodeConcat(word + [d], rest);
    EncodeConcat(word, [d]);
    EncodeDelimiter(d);
  }

  /** Both ends of a single ASCII byte followed by a whole encoding are character boundaries. */
  lemma AsciiByteBoundaries(b: seq<byte>, left: seq<byte>, c: byte, rest: string)
    requires b == left + [c] + Encode(rest) && c < 0x80
    ensures IsCharBoundary(b, |left|) && IsCharBoundary(b, |left| + 1)
  {
    Cut(b, left, c, Encode(rest));
    if rest != [] {
      EncodeLead(rest);
      assert b[|left| + 1] == Encode(rest)[0];
    }
  }

  /**
   * The code as written gives the intended byte split exactly when the word
   * before the first separator is ASCII: the character index of the separator
   * is then its byte offset. What follows the separator plays no part.
   */
  lemma AsWrittenAgreesIffAsciiWord(s: string)
    ensures Decode(Encode(s)) == Ok(s)
    ensures NextWord(s).None? ==> NextWordAsWritten(Encode(s)) == NoSeparator
    ensures NextWord(s).Some? ==>
      var (word, rest) := NextWord(s).value;
      (NextWordAsWritten(Encode(s)) == Slices(Encode(word), Encode(rest)) <==> IsAscii(word))
  {
    DecodeEncode(s);
    NextWordSplits(s);
    if NextWord(s).Some? {
      var (word, rest) := NextWord(s).value;
      var b := Encode(s);
      SplitBytes(s);
      EncodeLength(word);
      if IsAscii(word) {
        var c := s[|word|] as int as byte;
        AsciiByteBoundaries(b, Encode(word), c, rest);
        Cut(b, Encode(word), c, Encode(rest));
      }
    }
  }

  /** The UTF-8 bytes of the two texts below: "é" is U+00E9, two bytes C3 A9. */
  lemma AcuteBytes()
    ensures Encode("\U{E9}a b") == [0xC3, 0xA9, 0x61, 0x20, 0x62]
    ensures Encode("\U{E9} b") == [0xC3, 0xA9, 0x20, 0x62]
  {
    assert EncodeChar('\U{E9}') == [0xC3, 0xA9];
    assert "\U{E9}a b" == "\U{E9}" + "a b" && "\U{E9} b" == "\U{E9}" + " b";
    EncodeConcat("\U{E9}", "a b");
    EncodeConcat("\U{E9}", " b");
    EncodeAscii("a b");
    EncodeAscii(" b");
  }

  /** "éa b" is accepted, and its first separator is character 2. */
  lemma AcuteWordText()
    ensures Decode([0xC3, 0xA9, 0x61, 0x20, 0x62]) == Ok("\U{E9}a b")
    ensures FirstDelimiter("\U{E9}a b") == Some(2)
  {
    AcuteBytes();
    DecodeEncode("\U{E9}a b");
  }

  /** The code as written on "éa b": slices at byte 2, inside the word, and drops byte 2. */
  lemma AcuteAsWritten()
    ensures Decode([0xC3, 0xA9, 0x61, 0x20, 0x62]).Ok?
    ensures NextWordAsWritten([0xC3, 0xA9, 0x61, 0x20, 0x62]) == Slices([0xC3, 0xA9], [0x20, 0x62])
  {
    var b: seq<byte> := [0xC3, 0xA9, 0x61, 0x20, 0x62];
    AcuteWordText();
    assert IsCharBoundary(b, 2) && IsCharBoundary(b, 3);
    assert b[..2] == [0xC3, 0xA9] && b[3..] == [0x20, 0x62];
  }

  /** The character-level tokenizer on "éa b": the word "éa" and the rest "b". */
  lemma AcuteNextWord()
    ensures NextWord("\U{E9}a b") == Some(("\U{E9}a", "b"))
  {
    var s := "\U{E9}a b";
    assert NoDelimiter(s[..2]) by {
      assert s[..2] == "\U{E9}a";
    }
    NextWordAt(s, 2);
    assert s[..2] == "\U{E9}a" && s[3..] == "b";
  }

  /**
   * "éa b" (bytes C3 A9 61 20 62): the space is character 2 but byte 3, so
   * the code as written returns the word "é" and the rest " b" where the
   * character-level tokenizer returns "éa" and "b".
   */
  lemma CharIndexUsedAsByteIndex()
    ensures Decode([0xC3, 0xA9, 0x61, 0x20, 0x62]) == Ok("\U{E9}a b")
    ensures NextWordAsWritten([0xC3, 0xA9, 0x61, 0x20, 0x62]) == Slices([0xC3, 0xA9], [0x20, 0x62])
    ensures NextWord("\U{E9}a b") == Some(("\U{E9}a", "b"))
  {
    AcuteWordText();
    AcuteAsWritten();
    AcuteNextWord();
  }

  /**
   * "é b" (bytes C3 A9 20 62): the space is character 1, and byte 1 lies
   * inside "é", so the code as written panics.
   */
  lemma CharIndexInsideCharacter()
    ensures Decode([0xC3, 0xA9, 0x20, 0x62]) == Ok("\U{E9} b")
    ensures NextWordAsWritten([0xC3, 0xA9, 0x20, 0x62]) == Panic
    ensures NextWord("\U{E9} b") == Some(("\U{E9}", "b"))
  {
    AcuteBytes();
    DecodeEncode("\U{E9} b");
    NextWordAt("\U{E9} b", 1);
  }
}
