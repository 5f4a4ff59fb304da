/** The worked examples of the repository: the literals its tests and
    benchmark compile, and the one search its test runs, evaluated in the
    model. */
module BmhExamples {
  import opened BmhTypes
  import opened SimdBmh
  import opened SimdBmhMacro

  /** The tokens of "A?C?FF": two high-nibble tokens, then an exact byte. */
  const NibbleTokens: seq<Token> := [Token(0xA0, 0xF0), Token(0xC0, 0xF0), Token(0xFF, 0xFF)]

  /** The tokens of "F? ?3 CC ??": a high nibble, a low nibble, an exact
      byte, a wildcard. */
  const MixedTokens: seq<Token> := [Token(0xF0, 0xF0), Token(0x03, 0x0F), Token(0xCC, 0xFF), Token(0x00, 0x00)]

  /** The pattern the "A?C?FF" literal compiles to. */
  const NibblePattern: Pattern := Pattern([0xA0, 0xC0, 0xFF], [0xF0, 0xF0, 0xFF], 0xFF, 0xFF, 3, 2)

  /** The digits the examples use, read as nibbles. */
  lemma ExampleDigits()
    ensures HexValue('A') == 0xA && HexValue('B') == 0xB && HexValue('C') == 0xC
    ensures HexValue('F') == 0xF
    ensures HexValue('3') == 0x3
  {
  }

  /** The tokens of "A?C?FF", pair by pair. */
  lemma TokenizeNibbleLiteral()
    ensures Tokenize("A?C?FF") == Success(NibbleTokens)
  {
    var lit := "A?C?FF";
    ExampleDigits();
    assert ReadToken('F', Some('F')) == Success(Token(0xFF, 0xFF));
    assert ReadToken('C', Some('?')) == Success(Token(0xC0, 0xF0));
    assert ReadToken('A', Some('?')) == Success(Token(0xA0, 0xF0));
    assert lit[4..][2..] == "";
    assert NibbleTokens[2..] == [NibbleTokens[2]] + [];
    assert Tokenize(lit[4..]) == Success([Token(0xFF, 0xFF)]);
    assert lit[2..][2..] == lit[4..];
    assert NibbleTokens[1..] == [NibbleTokens[1]] + NibbleTokens[2..];
    assert Tokenize(lit[2..]) == Success(NibbleTokens[1..]);
    assert NibbleTokens == [NibbleTokens[0]] + NibbleTokens[1..];
  }

  /** "A?C?FF" compiles to bytes A0 C0 FF under masks F0 F0 FF. The nibble
      tokens cannot become the anchor (the default anchor value is 0x00),
      so the exact byte FF at offset 2 is the anchor. */
  lemma ParseNibbleExample()
    ensures ParsePattern("A?C?FF").Success?
    ensures ParsePattern("A?C?FF").value.pattern == NibblePattern
  {
    var lit := "A?C?FF";
    StripSpacesKeepsSpaceFree(lit);
    TokenizeNibbleLiteral();
    NibbleAnchorAndArrays();
  }

  /** The anchor and the two arrays of "A?C?FF". */
  lemma NibbleAnchorAndArrays()
    ensures SelectAnchor(NibbleTokens) == Anchor(0xFF, 0xFF, 3, 2)
    ensures TokenBytes(NibbleTokens) == [0xA0, 0xC0, 0xFF]
    ensures TokenMasks(NibbleTokens) == [0xF0, 0xF0, 0xFF]
  {
    assert AnchorUpTo(NibbleTokens, 2) == DefaultAnchor;
  }

  /** Removing the spaces between space-free words, one word at a time. */
  lemma StripSpacesWords(a: string, b: string)
    requires ' ' !in a
    ensures StripSpaces(a + " " + b) == a + StripSpaces(b)
  {
    assert a + " " + b == a + (" " + b);
    StripSpacesAppend(a, " " + b);
    StripSpacesKeepsSpaceFree(a);
    StripSpacesAppend(" ", b);
  }

  /** The literal "F? ?3 CC ??", written word by word. */
  const MixedLiteral: string := "F?" + " " + "?3" + " " + "CC" + " " + "??"

  /** Removing the spaces of "F? ?3 CC ??". */
  lemma StripMixedLiteral()
    ensures StripSpaces(MixedLiteral) == "F??3CC??"
  {
    StripSpacesKeepsSpaceFree("??");
    StripSpacesWords("CC", "??");
    StripSpacesWords("?3", "CC" + " " + "??");
    StripSpacesWords("F?", "?3" + " " + "CC" + " " + "??");
    assert "F?" + " " + "?3" + " " + "CC" + " " + "??" == "F?" + " " + ("?3" + " " + "CC" + " " + "??");
    assert "?3" + " " + "CC" + " " + "??" == "?3" + " " + ("CC" + " " + "??");
    assert "F?" + ("?3" + ("CC" + "??")) == "F??3CC??";
  }

  /** The anchor of "F??3CC??", token by token: the two nibbles leave the
      default (its value 0x00 is not 0xFF), CC replaces it, the wildcard is
      skipped. */
  lemma MixedAnchor()
    ensures SelectAnchor(MixedTokens) == Anchor(0xCC, 0xFF, 3, 2)
  {
    assert AnchorUpTo(MixedTokens, 1) == DefaultAnchor;
    assert AnchorUpTo(MixedTokens, 2) == DefaultAnchor;
    assert AnchorUpTo(MixedTokens, 3) == Anchor(0xCC, 0xFF, 3, 2);
  }

  /** The tokens of "F??3CC??", pair by pair. */
  lemma TokenizeMixedLiteral()
    ensures Tokenize("F??3CC??") == Success(MixedTokens)
  {
    var s := "F??3CC??";
    ExampleDigits();
    assert ReadToken('?', Some('?')) == Success(Token(0x00, 0x00));
    assert ReadToken('C', Some('C')) == Success(Token(0xCC, 0xFF));
    assert ReadToken('?', Some('3')) == Success(Token(0x03, 0x0F));
    assert ReadToken('F', Some('?')) == Success(Token(0xF0, 0xF0));
    assert s[6..][2..] == "";
    assert MixedTokens[3..] == [MixedTokens[3]] + [];
    assert Tokenize(s[6..]) == Success(MixedTokens[3..]);
    assert s[4..][2..] == s[6..];
    assert MixedTokens[2..] == [MixedTokens[2]] + MixedTokens[3..];
    assert Tokenize(s[4..]) == Success(MixedTokens[2..]);
    assert s[2..][2..] == s[4..];
    assert MixedTokens[1..] == [MixedTokens[1]] + MixedTokens[2..];
    assert Tokenize(s[2..]) == Success(MixedTokens[1..]);
    assert MixedTokens == [MixedTokens[0]] + MixedTokens[1..];
  }

  /** The shift table of "F??3CC??": F0, 03 and CC are 3, 2 and 1 from the
      last token; every other byte keeps the stripped length 8. */
  lemma MixedShiftTable()
    ensures var table := ShiftTable([0xF0, 0x03, 0xCC, 0x00], [0xF0, 0x0F, 0xFF, 0x00], 8);
      && table[Slot(0xF0)] == 3 && table[Slot(0x03)] == 2
      && table[Slot(0xCC)] == 1 && table[Slot(0x00)] == 8
  {
    var bytes: seq<bv8> := [0xF0, 0x03, 0xCC, 0x00];
    var masks: seq<bv8> := [0xF0, 0x0F, 0xFF, 0x00];
    ShiftTableEntries(bytes, masks, 8);
    var mb := MaskedBytes(bytes, masks);
    assert mb == [0xF0, 0x03, 0xCC, 0x00];
    assert ShiftDistance(mb, 0xF0) == Some(3);
    assert ShiftDistance(mb, 0x03) == Some(2);
    assert ShiftDistance(mb, 0xCC) == Some(1);
    assert ShiftDistance(mb, 0x00) == None;
  }

  /** The byte and mask arrays of "F??3CC??". */
  lemma MixedArrays()
    ensures TokenBytes(MixedTokens) == [0xF0, 0x03, 0xCC, 0x00]
    ensures TokenMasks(MixedTokens) == [0xF0, 0x0F, 0xFF, 0x00]
  {
  }

  /** "F? ?3 CC ??" compiles, spaces removed, to bytes F0 03 CC 00 under
      masks F0 0F FF 00; the exact byte CC at offset 2 is the anchor, and
      bytes no token names keep the default shift 8, the stripped length. */
  lemma ParseMixedExample()
    ensures var r := ParsePattern(MixedLiteral);
      && r.Success?
      && r.value.pattern == Pattern([0xF0, 0x03, 0xCC, 0x00], [0xF0, 0x0F, 0xFF, 0x00], 0xCC, 0xFF, 3, 2)
      && r.value.shiftTable[Slot(0xF0)] == 3
      && r.value.shiftTable[Slot(0x03)] == 2
      && r.value.shiftTable[Slot(0xCC)] == 1
      && r.value.shiftTable[Slot(0x00)] == 8
  {
    StripMixedLiteral();
    TokenizeMixedLiteral();
    MixedShiftTable();
    MixedAnchor();
    MixedArrays();
  }

  /** "A?C?FF" on A0 C0 FF 00 A0 C0 FF: the text is shorter than a lane, so
      Phase B alone finds the matches at 0 and 4. */
  lemma FindNibbleExample()
    ensures FindAll(NibblePattern, [0xA0, 0xC0, 0xFF, 0x00, 0xA0, 0xC0, 0xFF]) == Found([0, 4])
  {
    var p := NibblePattern;
    var text: seq<bv8> := [0xA0, 0xC0, 0xFF, 0x00, 0xA0, 0xC0, 0xFF];
    assert |text| == 7 && LaneEnd(7) == 0;
    assert ScanLanes(p, text, 0) == Found([]);
    assert IsMatch(p, text, 4) by {
      assert TokenAgrees(p, text, 4, 0) && TokenAgrees(p, text, 4, 1) && TokenAgrees(p, text, 4, 2);
    }
    assert Horspool(p, text, 4) == [4];
    assert !TokenAgrees(p, text, 3, 0);
    assert TailShift(p, 0xC0) == 1;
    assert Horspool(p, text, 3) == [4];
    assert IsMatch(p, text, 0) by {
      assert TokenAgrees(p, text, 0, 0) && TokenAgrees(p, text, 0, 1) && TokenAgrees(p, text, 0, 2);
    }
    assert Horspool(p, text, 0) == [0, 4];
  }

  /** "AA": a single exact byte; the anchor stays the default. */
  const SingleExact: Pattern := Pattern([0xAA], [0xFF], 0x00, 0xFF, 1, 0)

  /** "AA" keeps the default anchor: its only token is token 0, which can
      never replace it, so Phase A only stops at 0x00 bytes. */
  lemma ParseDefaultAnchorExample()
    ensures ParsePattern("AA").Success? && ParsePattern("AA").value.pattern == SingleExact
    ensures var p := ParsePattern("AA").value.pattern;
      p.bestSkipValue == 0x00 && p.bestSkipMask == 0xFF && p.maxSkip == 1 && p.bestSkipOffset == 0
  {
    StripSpacesKeepsSpaceFree("AA");
    ExampleDigits();
    assert "AA"[2..] == "";
    assert [Token(0xAA, 0xFF)] + [] == [Token(0xAA, 0xFF)];
    assert Tokenize("AA") == Success([Token(0xAA, 0xFF)]);
    assert TokenBytes([Token(0xAA, 0xFF)]) == SingleExact.bytes;
    assert TokenMasks([Token(0xAA, 0xFF)]) == SingleExact.masks;
  }
}
