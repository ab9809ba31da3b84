/** Worked cases: the input of the parser's own test in src/lib.rs, two words of the
    decoder, and what the C pattern does with lines whose destination is absent. */
module Scenarios {
  import opened Wrappers
  import opened Strings
  import opened Numerals
  import opened Parser
  import opened Decoder

  /** The file of the test in src/lib.rs: an A line with a trailing comment, a label,
      and a C line written with spaces. */
  const TestInput: string := "@1 // @1\n(LABEL)\nA = M + 1; JMP"

  /** The test file has three lines. */
  lemma TestLines()
    ensures Lines(TestInput) == ["@1 // @1", "(LABEL)", "A = M + 1; JMP"]
  {
    var pieces := ["@1 // @1", "(LABEL)", "A = M + 1; JMP"];
    assert Join(pieces, "\n") == TestInput;
    SplitJoin(pieces, '\n');
  }

  /** A text without `/` has no `//`. */
  lemma NoSlash(s: string)
    requires '/' !in s
    ensures !Contains(s, "//")
  {
    if Contains(s, "//") {
      var i :| 0 <= i <= |s| && OccursAt(s, "//", i);
      SlashAt(s, i);
    }
  }

  lemma SlashAt(s: string, i: nat)
    requires OccursAt(s, "//", i)
    ensures i < |s| && s[i] == '/'
  {
    assert s[i] == s[i..i + 2][0];
  }

  /** Removing whitespace from words joined by spaces runs the words together. */
  lemma {:induction false} SpacedWords(s: string, words: seq<string>)
    requires |words| >= 1 && s == Join(words, " ")
    requires forall k :: 0 <= k < |words| ==> NoWhitespace(words[k])
    ensures NonWhitespace(s) == Join(words, "")
    decreases |words|
  {
    if |words| > 1 {
      var rest := Join(words[1..], " ");
      SpacedWords(rest, words[1..]);
      NonWhitespaceAppend(words[0] + " ", rest);
      NonWhitespaceAppend(words[0], " ");
      SpaceDropped();
    }
  }

  lemma SpaceDropped()
    ensures NonWhitespace(" ") == ""
  {
  }

  lemma SpacesFirst()
    ensures NonWhitespace("@1 // @1") == "@1//@1"
  {
    SpacedWords("@1 // @1", ["@1", "//", "@1"]);
  }

  lemma SpacesThird()
    ensures NonWhitespace("A = M + 1; JMP") == "A=M+1;JMP"
  {
    ThirdJoined();
    ThirdRunTogether();
    ThirdWords();
    SpacedWords("A = M + 1; JMP", ["A", "=", "M", "+", "1;", "JMP"]);
  }

  lemma ThirdJoined()
    ensures Join(["A", "=", "M", "+", "1;", "JMP"], " ") == "A = M + 1; JMP"
  {
    JoinCons("+", ["1;", "JMP"], " ");
    JoinCons("M", ["+", "1;", "JMP"], " ");
    JoinCons("=", ["M", "+", "1;", "JMP"], " ");
    JoinCons("A", ["=", "M", "+", "1;", "JMP"], " ");
  }

  lemma ThirdRunTogether()
    ensures Join(["A", "=", "M", "+", "1;", "JMP"], "") == "A=M+1;JMP"
  {
    JoinCons("+", ["1;", "JMP"], "");
    JoinCons("M", ["+", "1;", "JMP"], "");
    JoinCons("=", ["M", "+", "1;", "JMP"], "");
    JoinCons("A", ["=", "M", "+", "1;", "JMP"], "");
  }

  /** Joining a part in front of at least one more. */
  lemma JoinCons(x: string, rest: seq<string>, sep: string)
    requires |rest| >= 1
    ensures Join([x] + rest, sep) == x + sep + Join(rest, sep)
  {
    assert ([x] + rest)[1..] == rest;
  }

  lemma ThirdWords()
    ensures forall k :: 0 <= k < 6 ==> NoWhitespace(["A", "=", "M", "+", "1;", "JMP"][k])
  {
  }

  /** A line whose text without whitespace has no `/` is kept as that text. */
  lemma CleanNoComment(raw: string, s: string)
    requires NonWhitespace(raw) == s && s != [] && '/' !in s
    ensures Clean(raw) == Some(s)
  {
    NoSlash(s);
    CleanShape(raw);
  }

  /** A line is cut at the last `//` of its text without whitespace. */
  lemma CleanCut(raw: string, s: string, k: nat)
    requires NonWhitespace(raw) == s && IsLastOccurrence(s, "//", k) && k > 0
    ensures Clean(raw) == Some(s[..k])
  {
    CleanShape(raw);
  }

  /** The comment of the first line goes, with the spaces. */
  lemma CleanFirst()
    ensures Clean("@1 // @1") == Some("@1")
  {
    SpacesFirst();
    LastSlashes();
    CleanCut("@1 // @1", "@1//@1", 2);
  }

  lemma LastSlashes()
    ensures IsLastOccurrence("@1//@1", "//", 2) && "@1//@1"[..2] == "@1"
  {
    var s := "@1//@1";
    forall j | 2 < j <= |s| ensures !OccursAt(s, "//", j) {
      if j + 2 <= |s| {
        assert s[j..j + 2][1] == s[j + 1];
      }
    }
  }

  /** The label is left as it is. */
  lemma CleanSecond()
    ensures Clean("(LABEL)") == Some("(LABEL)")
  {
    assert NoWhitespace("(LABEL)");
    CleanNoComment("(LABEL)", "(LABEL)");
  }

  /** The spaces of the C line go. */
  lemma CleanThird()
    ensures Clean("A = M + 1; JMP") == Some("A=M+1;JMP")
  {
    SpacesThird();
    CleanNoComment("A = M + 1; JMP", "A=M+1;JMP");
  }

  // ---------------------------------------------------------------------------
  // The three lines of the test, parsed

  /** The `t`-th division of the C pattern, part by part: the destination is two
      characters for the first 24, one for the next 24, absent for the last 24; within
      each block of 24 the `=` is there for the first 12; within each 12 the computation
      takes 3, 2, 1 characters four times each; then the `;` alternates in pairs and
      the jump one by one. */
  lemma ShapeDigits(t: nat)
    requires t < ShapeCount
    ensures Shape(t).dest == if t < 24 then 2 else if t < 48 then 1 else 0
    ensures Shape(t).eq == if t % 24 < 12 then 1 else 0
    ensures Shape(t).comp == if t % 12 < 4 then 3 else if t % 12 < 8 then 2 else 1
    ensures Shape(t).semi == if t % 4 < 2 then 1 else 0
    ensures Shape(t).jump == if t % 2 == 0 then 3 else 0
  {
  }

  /** An operand that is the decimal numeral of an address gives that address. */
  lemma ParseNumeral(lnum: nat, operand: string, n: nat)
    requires n <= UsizeMax && operand == Decimal(n)
    ensures ParseA(lnum, operand) == A(lnum, None, Some(n))
  {
  }

  /** `@1`: the address 1, at line 0, with no symbol. */
  lemma ParseFirst()
    ensures ParseLine(0, "@1") == Ok(A(0, None, Some(1)))
  {
    ParseLineA(0, "@1");
    OneNumeral();
    ParseNumeral(0, "1", 1);
  }

  lemma OneNumeral()
    ensures "@1"[1..] == "1" && Decimal(1) == "1"
  {
  }

  /** `(LABEL)`: the label `LABEL`, carrying line 2. */
  lemma ParseSecond()
    ensures ParseLine(1, "(LABEL)") == Ok(L(2, "LABEL"))
  {
    LabelLine(1, "(LABEL)");
    LabelName();
  }

  lemma LabelName()
    ensures "(LABEL)"[1..6] == "LABEL"
  {
  }

  /** A line `d=ccc;jjj` (a word character, three characters that are not whitespace,
      three word characters) is divided as written. */
  lemma FullCLine(lnum: nat, line: string)
    requires |line| == 9 && IsWordChar(line[0]) && line[1] == '=' && NoWhitespace(line[2..5])
    requires line[5] == ';' && WordChars(line[6..])
    ensures ParseLine(lnum, line) == Ok(C(lnum, Some(line[..1]), Some(line[2..5]), Some(line[6..])))
  {
    FullShape(line);
    ShapeDigits(24);
    ParseLineC(lnum, line, 24);
  }

  /** `d=ccc;jjj` is a C line divided as the 24th division. */
  lemma FullShape(line: string)
    requires |line| == 9 && IsWordChar(line[0]) && line[1] == '=' && NoWhitespace(line[2..5])
    requires line[5] == ';' && WordChars(line[6..])
    ensures !MatchesA(line) && !MatchesL(line) && FirstShape(line, 24)
  {
    ShapeDigits(24);
    assert forall k :: 2 <= k < 5 ==> line[k] == line[2..5][k - 2];
    assert forall k :: 6 <= k < 9 ==> line[k] == line[6..][k - 6];
    FullMisfits(line);
  }

  /** No division before the 24th fits `d=ccc;jjj`: each wants a two-character destination. */
  lemma FullMisfits(line: string)
    requires |line| == 9 && line[1] == '='
    ensures forall u :: 0 <= u < 24 ==> !Fits(line, Shape(u))
  {
    forall u | 0 <= u < 24 ensures !Fits(line, Shape(u)) {
      ShapeDigits(u);
    }
  }

  /** `A=M+1;JMP`: destination `A`, computation `M+1`, jump `JMP`, at line 2. */
  lemma ParseThird()
    ensures ParseLine(2, "A=M+1;JMP") == Ok(C(2, Some("A"), Some("M+1"), Some("JMP")))
  {
    ThirdParts();
    FullCLine(2, "A=M+1;JMP");
  }

  lemma ThirdParts()
    ensures var line := "A=M+1;JMP";
      |line| == 9 && IsWordChar(line[0]) && line[1] == '=' && NoWhitespace(line[2..5])
      && line[5] == ';' && WordChars(line[6..])
      && line[..1] == "A" && line[2..5] == "M+1" && line[6..] == "JMP"
  {
  }

  // ---------------------------------------------------------------------------
  // The whole test

  /** A line that parses puts its instruction in front of those of the lines after it. */
  lemma ConsLine(cleaned: seq<Option<string>>, i: nat, line: string, x: Instruction, v: seq<Instruction>)
    requires i < |cleaned| && cleaned[i] == Some(line)
    requires ParseLine(i, line) == Ok(x) && ParseCleaned(cleaned[i + 1..], i + 1) == Ok(v)
    ensures ParseCleaned(cleaned[i..], i) == Ok([x] + v)
  {
    assert cleaned[i..][1..] == cleaned[i + 1..];
  }

  /** Three lines that all parse give their three instructions, in order. */
  lemma ThreeLines(a: string, b: string, c: string, x: Instruction, y: Instruction, z: Instruction)
    requires ParseLine(0, a) == Ok(x) && ParseLine(1, b) == Ok(y) && ParseLine(2, c) == Ok(z)
    ensures ParseCleaned([Some(a), Some(b), Some(c)], 0) == Ok([x, y, z])
  {
    var cleaned := [Some(a), Some(b), Some(c)];
    ThreeSuffixes(cleaned, x, y, z);
    ConsLine(cleaned, 2, c, z, []);
    ConsLine(cleaned, 1, b, y, [z]);
    ConsLine(cleaned, 0, a, x, [y, z]);
  }

  lemma ThreeSuffixes(cleaned: seq<Option<string>>, x: Instruction, y: Instruction, z: Instruction)
    requires |cleaned| == 3
    ensures cleaned[3..] == [] && cleaned[0..] == cleaned
    ensures [z] + [] == [z] && [y] + [z] == [y, z] && [x] + [y, z] == [x, y, z]
  {
  }

  /** The three lines of the test, cleaned. */
  lemma TestCleaned()
    ensures CleanAll(Lines(TestInput)) == [Some("@1"), Some("(LABEL)"), Some("A=M+1;JMP")]
  {
    TestLines();
    CleanFirst();
    CleanSecond();
    CleanThird();
    CleanThree(Lines(TestInput), "@1 // @1", "(LABEL)", "A = M + 1; JMP");
  }

  /** Cleaning three lines cleans each. */
  lemma CleanThree(lines: seq<string>, a: string, b: string, c: string)
    requires lines == [a, b, c]
    ensures CleanAll(lines) == [Clean(a), Clean(b), Clean(c)]
  {
  }

  /** The test of src/lib.rs: the file gives the A instruction `@1` at line 0, the
      label `LABEL` carrying line 2, and the C instruction `A=M+1;JMP` at line 2. */
  lemma TestParse()
    ensures ParseSpec(TestInput) == Ok([A(0, None, Some(1)), L(2, "LABEL"),
                                        C(2, Some("A"), Some("M+1"), Some("JMP"))])
  {
    TestCleaned();
    ParseFirst();
    ParseSecond();
    ParseThird();
    ThreeLines("@1", "(LABEL)", "A=M+1;JMP", A(0, None, Some(1)), L(2, "LABEL"),
               C(2, Some("A"), Some("M+1"), Some("JMP")));
  }

  // ---------------------------------------------------------------------------
  // Decoding

  /** `@1` is the word for 1. */
  lemma WordOfOne()
    ensures DecodeA(Some(1)) == Ok("0000000000000001")
  {
    assert Binary(1) == "1";
    ZeroFill("1", 14);
    ZerosThenOne();
  }

  lemma ZerosThenOne()
    ensures Zeros(15) + "1" == "0000000000000001"
  {
    var z := Zeros(15);
    assert forall i :: 0 <= i < 16 ==> (z + "1")[i] == "0000000000000001"[i];
  }

  /** A C instruction whose three fields are all known is `111` and their codes. */
  lemma CWord(d: string, c: string, j: string, dc: string, cc: string, jc: string)
    requires DestCode(d) == Some(dc) && CompCode(c) == Some(cc) && JumpCode(j) == Some(jc)
    ensures DecodeC(Some(d), Some(c), Some(j)) == Ok("111" + cc + dc + jc)
  {
  }

  /** A C instruction without a jump is `111`, the computation and the destination. */
  lemma CWordNoJump(d: string, c: string, dc: string, cc: string)
    requires DestCode(d) == Some(dc) && CompCode(c) == Some(cc)
    ensures DecodeC(Some(d), Some(c), None) == Ok("111" + cc + dc)
  {
    assert "111" + cc + dc + "" == "111" + cc + dc;
  }

  lemma ThirdCodes()
    ensures DestCode("A") == Some("100") && CompCode("M+1") == Some("1110111") && JumpCode("JMP") == Some("111")
    ensures "111" + "1110111" + "100" + "111" == "1111110111100111"
  {
  }

  /** `A=M+1;JMP` is `111`, the `a` bit set with the bits of `A+1`, destination `100`,
      jump `111`. */
  lemma WordOfThird()
    ensures DecodeC(Some("A"), Some("M+1"), Some("JMP")) == Ok("1111110111100111")
  {
    ThirdCodes();
    CWord("A", "M+1", "JMP", "100", "1110111", "111");
  }

  /** The test's instructions decode to two words; the label gives none. */
  lemma TestDecode()
    ensures DecodeAll([A(0, None, Some(1)), L(2, "LABEL"), C(2, Some("A"), Some("M+1"), Some("JMP"))])
            == Ok("0000000000000001\n1111110111100111\n")
  {
    WordOfOne();
    WordOfThird();
    TestOutput();
    ThreeWords(A(0, None, Some(1)), L(2, "LABEL"), C(2, Some("A"), Some("M+1"), Some("JMP")),
               "0000000000000001", "1111110111100111");
  }

  /** An instruction with a word, one without, and one with a word: the two words, each
      on its line. */
  lemma ThreeWords(x: Instruction, y: Instruction, z: Instruction, u: string, v: string)
    requires Encoded(x) == Some(Ok(u)) && Encoded(y).None? && Encoded(z) == Some(Ok(v))
    ensures DecodeAll([x, y, z]) == Ok(u + "\n" + v + "\n")
  {
    assert [z][1..] == [] && v + "\n" + "" == v + "\n";
    assert DecodeAll([z]) == Ok(v + "\n");
    assert [y, z][1..] == [z];
    assert DecodeAll([y, z]) == Ok(v + "\n");
    assert [x, y, z][1..] == [y, z];
    assert DecodeAll([x, y, z]) == Ok(u + "\n" + (v + "\n"));
    assert u + "\n" + (v + "\n") == u + "\n" + v + "\n";
  }

  lemma TestOutput()
    ensures "0000000000000001" + "\n" + "1111110111100111" + "\n" == "0000000000000001\n1111110111100111\n"
  {
  }

  lemma ShortCodes()
    ensures DestCode("D") == Some("010") && CompCode("M+1") == Some("1110111")
    ensures "111" + "1110111" + "010" == "1111110111010"
  {
  }

  /** Without a jump the word has no jump bits: `D=M+1` gives thirteen characters. */
  lemma ShortWord()
    ensures DecodeC(Some("D"), Some("M+1"), None) == Ok("1111110111010")
  {
    ShortCodes();
    CWordNoJump("D", "M+1", "010", "1110111");
  }

  // ---------------------------------------------------------------------------
  // Lines the C pattern divides otherwise than the Hack language does

  /** A jump without a destination, `d;jjj` (a word character, then three): the
      optional destination is tried first and takes the first character, so the
      computation is the `;`. */
  lemma JumpOnlyLine(lnum: nat, line: string)
    requires |line| == 5 && IsWordChar(line[0]) && line[1] == ';' && WordChars(line[2..])
    ensures ParseLine(lnum, line) == Ok(C(lnum, Some(line[..1]), Some(";"), Some(line[2..])))
  {
    JumpOnlyShape(line);
    ShapeDigits(46);
    ParseLineC(lnum, line, 46);
    SemicolonAt(line);
  }

  /** `d;jjj` is a C line divided as the 46th division. */
  lemma JumpOnlyShape(line: string)
    requires |line| == 5 && IsWordChar(line[0]) && line[1] == ';' && WordChars(line[2..])
    ensures !MatchesA(line) && !MatchesL(line) && FirstShape(line, 46)
  {
    ShapeDigits(46);
    assert forall k :: 2 <= k < 5 ==> line[k] == line[2..][k - 2];
    JumpOnlyMisfits(line);
  }

  lemma SemicolonAt(line: string)
    requires |line| >= 2 && line[1] == ';'
    ensures line[1..2] == ";"
  {
  }

  /** No division before the 46th fits `d;jjj`: a two-character destination would take the
      `;`, an `=` is missing, and the other lengths do not add up to five, but one that
      puts the `;` where a word character is. */
  lemma JumpOnlyMisfits(line: string)
    requires |line| == 5 && line[1] == ';' && IsWordChar(line[4])
    ensures forall u :: 0 <= u < 46 ==> !Fits(line, Shape(u))
  {
    forall u | 0 <= u < 46 ensures !Fits(line, Shape(u)) {
      ShapeDigits(u);
    }
  }

  /** So `0;JMP`, the unconditional jump, stops the decoder: `0` is no destination. */
  lemma UnconditionalJump()
    ensures ParseLine(0, "0;JMP") == Ok(C(0, Some("0"), Some(";"), Some("JMP")))
    ensures DecodeC(Some("0"), Some(";"), Some("JMP")) == Err(UnknownDest("0"))
  {
    JumpOnlyParts("0;JMP", "0", "JMP");
    JumpOnlyLine(0, "0;JMP");
    NoZeroDest();
  }

  lemma NoZeroDest()
    ensures DestCode("0").None?
  {
  }

  /** And `D;JGT` stops it at the computation `;`. */
  lemma ConditionalJump()
    ensures ParseLine(0, "D;JGT") == Ok(C(0, Some("D"), Some(";"), Some("JGT")))
    ensures DecodeC(Some("D"), Some(";"), Some("JGT")) == Err(UnknownComp(";"))
  {
    JumpOnlyParts("D;JGT", "D", "JGT");
    JumpOnlyLine(0, "D;JGT");
    NoSemicolonComp();
  }

  lemma NoSemicolonComp()
    ensures DestCode("D").Some? && CompCode(";").None?
  {
  }

  lemma JumpOnlyParts(line: string, d: string, j: string)
    requires line == d + ";" + j && |d| == 1 && IsWordChar(d[0]) && |j| == 3 && WordChars(j)
    ensures |line| == 5 && IsWordChar(line[0]) && line[1] == ';' && WordChars(line[2..])
    ensures line[..1] == d && line[2..] == j
  {
    assert line[2..] == j;
  }

  /** A three-letter destination, `ddd=c`: the destination takes two letters, and the
      computation is the rest. */
  lemma ThreeLetterDest(lnum: nat, line: string)
    requires |line| == 5 && WordChars(line[..3]) && line[3] == '=' && !IsWhitespace(line[4])
    ensures ParseLine(lnum, line) == Ok(C(lnum, Some(line[..2]), Some(line[2..]), None))
  {
    StoreShape(line);
    ParseLineC(lnum, line, 15);
    StoreDivision();
    StoreParts(lnum, line);
  }

  /** The 15th division: two characters of destination, no `=`, three of computation. */
  lemma StoreDivision()
    ensures Shape(15) == CShape(2, 0, 3, 0, 0)
  {
    ShapeDigits(15);
  }

  /** `ddd=c` is a C line divided as the 15th division. */
  lemma StoreShape(line: string)
    requires |line| == 5 && WordChars(line[..3]) && line[3] == '=' && !IsWhitespace(line[4])
    ensures !MatchesA(line) && !MatchesL(line) && FirstShape(line, 15)
  {
    ShapeDigits(15);
    assert forall k :: 0 <= k < 3 ==> line[k] == line[..3][k];
    StoreMisfits(line);
  }

  lemma StoreParts(lnum: nat, line: string)
    requires |line| == 5
    ensures ValidShape(CShape(2, 0, 3, 0, 0)) && Layout(line, CShape(2, 0, 3, 0, 0))
    ensures ParseC(lnum, line, CShape(2, 0, 3, 0, 0)) == C(lnum, Some(line[..2]), Some(line[2..]), None)
  {
    assert line[2..5] == line[2..];
  }

  /** No division before the 15th fits `ddd=c`: those with an `=` want it at index 2,
      and the others are too long. */
  lemma StoreMisfits(line: string)
    requires |line| == 5 && line[2] != '='
    ensures forall u :: 0 <= u < 15 ==> !Fits(line, Shape(u))
  {
    forall u | 0 <= u < 15 ensures !Fits(line, Shape(u)) {
      ShapeDigits(u);
    }
  }

  /** So `AMD=M` stops the decoder at the computation `D=M`. */
  lemma ThreeRegisterStore()
    ensures ParseLine(0, "AMD=M") == Ok(C(0, Some("AM"), Some("D=M"), None))
    ensures DecodeC(Some("AM"), Some("D=M"), None) == Err(UnknownComp("D=M"))
  {
    StoreLine();
    ThreeLetterDest(0, "AMD=M");
  }

  lemma StoreLine()
    ensures var line := "AMD=M";
      |line| == 5 && WordChars(line[..3]) && line[3] == '=' && !IsWhitespace(line[4])
      && line[..2] == "AM" && line[2..] == "D=M"
    ensures DestCode("AM").Some? && CompCode("D=M").None?
  {
  }

  /** An A instruction with a symbol stops the decoder: symbols are not resolved. */
  lemma SymbolOperand()
    ensures ParseLine(0, "@foo") == Ok(A(0, Some("foo"), None))
    ensures DecodeA(None) == Err(MissingAddress)
  {
    ParseLineA(0, "@foo");
    SymbolParts();
  }

  lemma SymbolParts()
    ensures "@foo"[1..] == "foo" && ParseUsize("foo").None?
  {
  }
}
