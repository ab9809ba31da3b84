/** The draft parser of src/main.rs: the file-name check of `read_assembly`, and
    `parse_content`, which trims each line, strips its comment, drops the lines left
    empty and numbers the rest, classifying each by its first character. */
module Draft {
  import opened Wrappers
  import opened Strings
  import opened Parser

  // ---------------------------------------------------------------------------
  // read_assembly

  /** The check `read_assembly` makes before reading: split on `.`, the path must give
      exactly two parts, the second `asm`. */
  predicate FileNameOk(path: string)
  {
    |Split(path, ".")| == 2 && Split(path, ".")[1] == "asm"
  }

  /** A path passes the check exactly when it ends in `.asm` and has no other `.`. */
  lemma FileNameOkIff(path: string)
    ensures FileNameOk(path) <==> |path| >= 4 && path[|path| - 4..] == ".asm" && '.' !in path[..|path| - 4]
  {
    if FileNameOk(path) {
      FileNameOkShape(path, Split(path, "."));
    }
    if |path| >= 4 && path[|path| - 4..] == ".asm" && '.' !in path[..|path| - 4] {
      FileNameShapeOk(path, path[..|path| - 4]);
    }
  }

  lemma FileNameOkShape(path: string, parts: seq<string>)
    requires parts == Split(path, ".") && |parts| == 2 && parts[1] == "asm"
    ensures path == parts[0] + ".asm" && '.' !in parts[0]
  {
    assert parts[1..] == ["asm"];
    ContainsChar(parts[0], '.');
  }

  lemma FileNameShapeOk(path: string, stem: string)
    requires path == stem + ".asm" && '.' !in stem
    ensures FileNameOk(path)
  {
    assert path == Join([stem, "asm"], ".");
    SplitJoin([stem, "asm"], '.');
  }

  // ---------------------------------------------------------------------------
  // remove_comments, get_instruction_type, get_dest

  /** The part of `s` before the first occurrence of `sep`, or all of `s`. */
  function Before(s: string, sep: string): (r: string)
    requires |sep| > 0
    ensures |r| <= |s| && r == s[..|r|] && !Contains(r, sep)
    ensures !Contains(s, sep) ==> r == s
    ensures Contains(s, sep) ==> OccursAt(s, sep, |r|)
    ensures forall j: nat :: j < |r| ==> !OccursAt(s, sep, j)
  {
    var parts := Split(s, sep);
    SplitHead(parts, sep);
    parts[0]
  }

  /** The first piece is where the joined text starts. */
  lemma SplitHead(parts: seq<string>, sep: string)
    requires |parts| >= 1
    ensures |parts[0]| <= |Join(parts, sep)| && Join(parts, sep)[..|parts[0]|] == parts[0]
    ensures |parts| == 1 ==> Join(parts, sep) == parts[0]
  {
    if |parts| > 1 {
      assert Join(parts, sep) == parts[0] + (sep + Join(parts[1..], sep));
    }
  }

  /** Two occurrences with none before either are the same one. */
  lemma FirstUnique(s: string, pat: string, i: nat, j: nat)
    requires OccursAt(s, pat, i) && forall k: nat :: k < i ==> !OccursAt(s, pat, k)
    requires OccursAt(s, pat, j) && forall k: nat :: k < j ==> !OccursAt(s, pat, k)
    ensures i == j
  {
  }

  /** Two occurrences with none after either are the same one. */
  lemma LastUnique(s: string, pat: string, i: nat, j: nat)
    requires IsLastOccurrence(s, pat, i) && IsLastOccurrence(s, pat, j)
    ensures i == j
  {
  }

  /** `remove_comments` of the draft: the text before the first `//`. */
  function RemoveComments(line: string): string
  {
    Before(line, "//")
  }

  /** The draft and the parser of src/lib.rs cut a comment at different places: the draft
      at the first `//`, the parser at the last. */
  lemma FirstAndLastCut(line: string, i: nat, k: nat)
    requires '\n' !in line && OccursAt(line, "//", i) && forall j: nat :: j < i ==> !OccursAt(line, "//", j)
    requires IsLastOccurrence(line, "//", k)
    ensures RemoveComments(line) == line[..i]
    ensures CutComment(line) == line[..k]
  {
    var r := RemoveComments(line);
    assert Contains(line, "//");
    FirstUnique(line, "//", |r|, i);
    FindLastIsLast(line, "//");
    LastUnique(line, "//", FindLast(line, "//", |line|).value, k);
  }

  /** The instruction type `get_instruction_type` gives a non-empty line. */
  datatype InstType = TypeA | TypeL | TypeC

  /** `get_instruction_type`: `A` for a line starting with `@`, `L` for one starting with
      `(`, `C` otherwise. The source indexes the first character, so it needs a
      non-empty line. */
  function InstructionType(line: string): (r: InstType)
    requires |line| > 0
    ensures r == TypeA <==> line[0] == '@'
    ensures r == TypeL <==> line[0] == '('
  {
    if line[0] == '@' then TypeA else if line[0] == '(' then TypeL else TypeC
  }

  /** `get_dest`: for a C line the text before the first `=`, or all of it; nothing for
      any other type. */
  function GetDest(line: string, itype: InstType): (r: string)
    ensures itype != TypeC ==> r == ""
    ensures itype == TypeC ==> |r| <= |line| && r == line[..|r|] && '=' !in r
    ensures itype == TypeC && '=' in line ==> |r| < |line| && line[|r|] == '='
    ensures itype == TypeC && '=' !in line ==> r == line
  {
    if itype == TypeC then
      var r := Before(line, "=");
      ContainsChar(r, '=');
      ContainsChar(line, '=');
      r
    else ""
  }

  /** On a C line with a destination, the draft's destination is the one the parser of
      src/lib.rs captures. */
  lemma GetDestAgrees(lnum: nat, line: string, p: CShape)
    requires ValidShape(p) && Fits(line, p) && p.dest > 0 && p.eq == 1
    ensures GetDest(line, TypeC) == ParseC(lnum, line, p).dest.value
  {
    WordPrefixBefore(line, p.dest);
  }

  /** Text of word characters followed by `=` is the text before the first `=`. */
  lemma WordPrefixBefore(line: string, n: nat)
    requires n < |line| && line[n] == '=' && forall k :: 0 <= k < n ==> IsWordChar(line[k])
    ensures Before(line, "=") == line[..n]
  {
    assert OccursAt(line, "=", n);
    forall j: nat | j < n ensures !OccursAt(line, "=", j) {
      assert IsWordChar(line[j]);
    }
    FirstUnique(line, "=", |Before(line, "=")|, n);
  }

  /** The draft types a line `A` exactly when the parser of src/lib.rs makes it an A
      instruction, for a line of two or more characters without newlines. */
  lemma TypeAAgrees(lnum: nat, line: string)
    requires |line| >= 2 && '\n' !in line
    ensures InstructionType(line) == TypeA <==> ParseLine(lnum, line).Ok? && ParseLine(lnum, line).value.A?
  {
    if line[0] == '@' {
      ParseLineA(lnum, line);
    }
  }

  /** A line the draft types `L` and that ends in `)` is a label for the parser too. */
  lemma TypeLAgrees(lnum: nat, line: string)
    requires |line| >= 3 && '\n' !in line && InstructionType(line) == TypeL && line[|line| - 1] == ')'
    ensures ParseLine(lnum, line) == Ok(L(lnum + 1, line[1..|line| - 1]))
  {
    LabelLine(lnum, line);
  }

  /** The two disagree on a label that does not start the line: the draft types `X(Y)`
      by its first character, while the L pattern of src/lib.rs is not anchored at the
      start. */
  lemma TypeLDisagrees()
    ensures InstructionType("X(Y)") == TypeC
    ensures ParseLine(0, "X(Y)") == Ok(L(1, "Y"))
  {
    var line := "X(Y)";
    assert LabelAt(line, 1) && !LabelAt(line, 0);
    ParseLineL(0, line, 1);
    assert line[2..3] == "Y";
  }

  /** The draft keeps the spaces inside a line, so its destination of `A = M` ends in a
      space; the parser of src/lib.rs removes every space first. */
  lemma SpacedDest()
    ensures GetDest("A = M", TypeC) == "A "
  {
    var line := "A = M";
    var r := GetDest(line, TypeC);
    assert line[2] == '=';
    assert |r| == 2;
    assert line[..2] == "A ";
  }

  // ---------------------------------------------------------------------------
  // parse_content

  /** One line `parse_content` reports: its number among the kept lines, its type, its
      destination and its text. */
  datatype Row = Row(linenum: nat, itype: InstType, dest: string, line: string)

  /** Each piece trimmed and then cut at its first `//`. */
  function CleanPieces(pieces: seq<string>): seq<string>
  {
    seq(|pieces|, i requires 0 <= i < |pieces| => RemoveComments(Trim(pieces[i])))
  }

  /** The non-empty strings of `cs`, in order. */
  function NonEmpty(cs: seq<string>): (r: seq<string>)
    ensures forall k :: 0 <= k < |r| ==> |r[k]| > 0
    decreases |cs|
  {
    if cs == [] then []
    else (if cs[0] != "" then [cs[0]] else []) + NonEmpty(cs[1..])
  }

  /** The indices of the non-empty strings of `cs`, counted from `first`: as many as
      the filter keeps, increasing, and within `cs`. */
  function Positions(cs: seq<string>, first: nat): (r: seq<nat>)
    ensures |r| == |NonEmpty(cs)|
    ensures forall k :: 0 <= k < |r| ==> first <= r[k] < first + |cs|
    decreases |cs|
  {
    if cs == [] then []
    else
      var rest := Positions(cs[1..], first + 1);
      assert NonEmpty(cs) == (if cs[0] != "" then [cs[0]] else []) + NonEmpty(cs[1..]);
      (if cs[0] != "" then [first] else []) + rest
  }

  /** The `k`-th kept string is the one at the `k`-th position. */
  lemma {:induction false} PositionAt(cs: seq<string>, first: nat, k: nat)
    requires k < |Positions(cs, first)|
    ensures NonEmpty(cs)[k] == cs[Positions(cs, first)[k] - first]
    decreases |cs|
  {
    var tail := cs[1..];
    if cs[0] == "" {
      PositionAt(tail, first + 1, k);
    } else if k > 0 {
      assert Positions(cs, first)[k] == Positions(tail, first + 1)[k - 1];
      assert NonEmpty(cs)[k] == NonEmpty(tail)[k - 1];
      PositionAt(tail, first + 1, k - 1);
    }
  }

  /** The positions increase: the filter keeps the file order. */
  lemma {:induction false} PositionsIncrease(cs: seq<string>, first: nat, a: nat, b: nat)
    requires a < b < |Positions(cs, first)|
    ensures Positions(cs, first)[a] < Positions(cs, first)[b]
    decreases |cs|
  {
    var tail := cs[1..];
    if cs[0] == "" {
      PositionsIncrease(tail, first + 1, a, b);
    } else if a > 0 {
      PositionsIncrease(tail, first + 1, a - 1, b - 1);
    }
  }

  /** Every non-empty string has its position among the positions. */
  lemma {:induction false} PositionOf(cs: seq<string>, first: nat, i: nat)
    requires i < |cs| && cs[i] != ""
    ensures first + i in Positions(cs, first)
    decreases |cs|
  {
    if i > 0 {
      PositionOf(cs[1..], first + 1, i - 1);
    }
  }

  /** The kept lines numbered from 0, with their type and destination. */
  function Rows(kept: seq<string>): seq<Row>
    requires forall k :: 0 <= k < |kept| ==> |kept[k]| > 0
  {
    seq(|kept|, k requires 0 <= k < |kept| =>
      Row(k, InstructionType(kept[k]), GetDest(kept[k], InstructionType(kept[k])), kept[k]))
  }

  /** `parse_content`: the rows it reports for a file. */
  function ParseContent(content: string): seq<Row>
  {
    Rows(NonEmpty(Cleaned(content)))
  }

  /** The pieces of a file, trimmed and cut at their first `//`. */
  function Cleaned(content: string): seq<string>
  {
    CleanPieces(Split(content, "\n"))
  }

  /** The `k`-th row built from `cs` holds the string at the `k`-th position. */
  lemma RowOfPosition(cs: seq<string>, k: nat)
    requires k < |Rows(NonEmpty(cs))|
    ensures |Rows(NonEmpty(cs))| == |Positions(cs, 0)|
    ensures Rows(NonEmpty(cs))[k].line == cs[Positions(cs, 0)[k]]
  {
    PositionAt(cs, 0, k);
  }

  /** The rows of `parse_content`: one per piece of the file left non-empty by trimming
      and cutting its comment, in file order, numbered consecutively from 0 (not by
      their place in the file), each classified and with its destination. */
  lemma ParseContentRows(content: string, k: nat)
    requires k < |ParseContent(content)|
    ensures |ParseContent(content)| == |Positions(Cleaned(content), 0)|
    ensures ParseContent(content)[k].linenum == k
    ensures ParseContent(content)[k].line == Cleaned(content)[Positions(Cleaned(content), 0)[k]]
    ensures |ParseContent(content)[k].line| > 0
    ensures ParseContent(content)[k].itype == InstructionType(ParseContent(content)[k].line)
    ensures ParseContent(content)[k].dest == GetDest(ParseContent(content)[k].line, ParseContent(content)[k].itype)
  {
    RowOfPosition(Cleaned(content), k);
  }

  /** Every piece left non-empty is reported. */
  lemma ParseContentComplete(content: string, i: nat)
    requires i < |Cleaned(content)| && Cleaned(content)[i] != ""
    ensures exists k :: 0 <= k < |ParseContent(content)| && ParseContent(content)[k].line == Cleaned(content)[i]
  {
    var cs := Cleaned(content);
    PositionOf(cs, 0, i);
    var k :| 0 <= k < |Positions(cs, 0)| && Positions(cs, 0)[k] == i;
    ParseContentRows(content, k);
  }
}
