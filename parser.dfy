/** The `parser` module of src/lib.rs: it cleans each source line, classifies it with
    three patterns and extracts the fields of the instruction it holds. */
module Parser {
  import opened Wrappers
  import opened Strings
  import opened Numerals

  /** One parsed line. `lnum` is a line index; the source names the label of an L
      instruction `symbol`, as it does the operand of an A instruction. */
  datatype Instruction =
    | A(lnum: nat, symbol: Option<string>, address: Option<nat>)
    | L(lnum: nat, name: string)
    | C(lnum: nat, dest: Option<string>, comp: Option<string>, jump: Option<string>)

  /** A line that none of the three patterns matches; the source prints it and exits. */
  datatype ParseError = SyntaxError(line: string)

  predicate EndsWithNewline(s: string)
  {
    |s| > 0 && s[|s| - 1] == '\n'
  }

  /** `str::lines`: the text split at each `\n`, where a final `\n` does not start
      another (empty) line. */
  function Lines(contents: string): (r: seq<string>)
    ensures forall k :: 0 <= k < |r| ==> '\n' !in r[k]
    ensures contents == Join(r, "\n") + (if EndsWithNewline(contents) then "\n" else "")
    ensures contents == "" <==> r == []
  {
    var pieces := Split(contents, "\n");
    var n := |pieces|;
    NoNewlines(pieces);
    LastPiece(pieces, "\n");
    LinesFacts(contents, pieces[..n - 1], pieces[n - 1]);
    if pieces[n - 1] == "" then pieces[..n - 1] else pieces
  }

  /** Pieces free of the pattern `"\n"` are free of the character. */
  lemma NoNewlines(pieces: seq<string>)
    requires forall k :: 0 <= k < |pieces| ==> !Contains(pieces[k], "\n")
    ensures forall k :: 0 <= k < |pieces| ==> '\n' !in pieces[k]
  {
    forall k | 0 <= k < |pieces| ensures '\n' !in pieces[k] {
      ContainsChar(pieces[k], '\n');
    }
  }

  /** The text ends with its last piece, after a separator when there are others. */
  lemma LastPiece(pieces: seq<string>, sep: string)
    requires |pieces| >= 1
    ensures Join(pieces, sep) == if |pieces| == 1 then pieces[0]
                                 else Join(pieces[..|pieces| - 1], sep) + sep + pieces[|pieces| - 1]
  {
    var n := |pieces|;
    if n > 1 {
      assert pieces == pieces[..n - 1] + [pieces[n - 1]];
      JoinSnoc(pieces[..n - 1], pieces[n - 1], sep);
    }
  }

  /** A text made of lines `init` and a last piece without a newline: when that piece is
      empty the text is the lines followed by a newline exactly when it ends with one,
      and otherwise it does not end with a newline. */
  lemma LinesFacts(contents: string, init: seq<string>, last: string)
    requires contents == if init == [] then last else Join(init, "\n") + "\n" + last
    requires '\n' !in last
    ensures last == "" ==> contents == Join(init, "\n") + (if EndsWithNewline(contents) then "\n" else "")
    ensures last != "" ==> !EndsWithNewline(contents)
    ensures contents == "" <==> init == [] && last == ""
  {
    if last != "" {
      var front := if init == [] then "" else Join(init, "\n") + "\n";
      assert contents == front + last;
      assert contents[|contents| - 1] == last[|last| - 1];
    }
  }

  // ---------------------------------------------------------------------------
  // remove_spaces

  /** The characters of `s` that are not whitespace, in their original order. */
  function NonWhitespace(s: string): (r: string)
    ensures |r| <= |s|
    ensures NoWhitespace(r)
    ensures NoWhitespace(s) ==> r == s
    decreases |s|
  {
    if s == [] then []
    else
      var n := |s| - 1;
      assert s == s[..n] + [s[n]];
      NonWhitespace(s[..n]) + (if IsWhitespace(s[n]) then [] else [s[n]])
  }

  /** Every character that is not whitespace occurs as often in the result as in the
      input. */
  lemma {:induction false} NonWhitespaceCounts(s: string, c: char)
    requires !IsWhitespace(c)
    ensures multiset(NonWhitespace(s))[c] == multiset(s)[c]
    decreases |s|
  {
    if s != [] {
      var n := |s| - 1;
      assert s == s[..n] + [s[n]];
      NonWhitespaceCounts(s[..n], c);
    }
  }

  /** Removing whitespace distributes over concatenation: each character is kept or
      dropped on its own, and the kept ones keep their order. */
  lemma {:induction false} NonWhitespaceAppend(a: string, b: string)
    ensures NonWhitespace(a + b) == NonWhitespace(a) + NonWhitespace(b)
    decreases |b|
  {
    if b == [] {
      assert a + b == a;
    } else {
      assert (a + b)[..|a + b| - 1] == a + b[..|b| - 1];
      NonWhitespaceAppend(a, b[..|b| - 1]);
    }
  }

  /** Removing whitespace twice is removing it once. */
  lemma NonWhitespaceIdempotent(s: string)
    ensures NonWhitespace(NonWhitespace(s)) == NonWhitespace(s)
  {
  }

  /** `remove_spaces`: copies the non-whitespace characters of `code`, one at a time. */
  method RemoveSpaces(code: string) returns (clean: string)
    ensures clean == NonWhitespace(code)
  {
    clean := "";
    for i := 0 to |code|
      invariant clean == NonWhitespace(code[..i])
    {
      assert code[..i + 1][..i] == code[..i];
      if !IsWhitespace(code[i]) {
        clean := clean + [code[i]];
      }
    }
    assert code[..|code|] == code;
  }

  // ---------------------------------------------------------------------------
  // remove_comments

  /** What `^(?P<code>.*)(?P<comment>//.*)$` replaced by `${code}` leaves: `.` matches
      anything but a newline and the `code` group is greedy, so a line without newlines
      is cut at its last `//`; any other line is left as it is. */
  function CutComment(code: string): string
  {
    if '\n' in code then code
    else match FindLast(code, "//", |code|)
      case None => code
      case Some(k) => code[..k]
  }

  /** `remove_comments`: the trimmed text left after the cut, or `None` when nothing at
      all is left. */
  function RemoveComments(code: string): Option<string>
  {
    var cleaned := CutComment(code);
    if cleaned == "" then None else Some(Trim(cleaned))
  }

  /** A line with a newline or without `//` is only trimmed; any other line is cut at
      its last `//`, and comes back as `None` exactly when that `//` starts the line. */
  lemma RemoveCommentsCut(code: string)
    ensures ('\n' in code || !Contains(code, "//")) ==>
      RemoveComments(code) == if code == [] then None else Some(Trim(code))
    ensures forall k: nat :: '\n' !in code && IsLastOccurrence(code, "//", k) ==>
      RemoveComments(code) == if k == 0 then None else Some(Trim(code[..k]))
  {
    FindLastIsLast(code, "//");
    var found := FindLast(code, "//", |code|);
    forall k: nat | '\n' !in code && IsLastOccurrence(code, "//", k)
      ensures RemoveComments(code) == if k == 0 then None else Some(Trim(code[..k]))
    {
      assert found.Some?;
      assert found.value == k;
      assert CutComment(code) == code[..k];
    }
  }

  /** The two cleaning steps `parse` applies to every raw line. */
  function Clean(raw: string): Option<string>
  {
    RemoveComments(NonWhitespace(raw))
  }

  /** A prefix of a whitespace-free text is whitespace-free and its own trim. */
  lemma PrefixNoWhitespace(s: string, k: nat)
    requires NoWhitespace(s) && k <= |s|
    ensures NoWhitespace(s[..k]) && Trim(s[..k]) == s[..k]
  {
    forall i | 0 <= i < k ensures !IsWhitespace(s[..k][i]) {
      assert s[..k][i] == s[i];
    }
  }

  /** A cleaned line is non-empty and free of whitespace; it is the whitespace-free line
      itself when that has no `//`, and otherwise what precedes its last `//`. */
  lemma CleanShape(raw: string)
    ensures Clean(raw).Some? ==> |Clean(raw).value| > 0 && NoWhitespace(Clean(raw).value)
    ensures !Contains(NonWhitespace(raw), "//") ==>
      Clean(raw) == if NonWhitespace(raw) == [] then None else Some(NonWhitespace(raw))
    ensures forall k: nat :: IsLastOccurrence(NonWhitespace(raw), "//", k) ==>
      Clean(raw) == if k == 0 then None else Some(NonWhitespace(raw)[..k])
  {
    SpacelessComments(NonWhitespace(raw));
  }

  /** `remove_comments` on a whitespace-free line: the same facts, stated on the line. */
  lemma SpacelessComments(s: string)
    requires NoWhitespace(s)
    ensures RemoveComments(s).Some? ==> |RemoveComments(s).value| > 0 && NoWhitespace(RemoveComments(s).value)
    ensures !Contains(s, "//") ==> RemoveComments(s) == if s == [] then None else Some(s)
    ensures forall k: nat :: IsLastOccurrence(s, "//", k) ==>
      RemoveComments(s) == if k == 0 then None else Some(s[..k])
  {
    assert '\n' !in s;
    RemoveCommentsCut(s);
    forall k: nat | IsLastOccurrence(s, "//", k)
      ensures RemoveComments(s) == if k == 0 then None else Some(s[..k])
      ensures NoWhitespace(s[..k])
    {
      PrefixNoWhitespace(s, k);
    }
    if Contains(s, "//") {
      FindLastIsLast(s, "//");
    }
  }

  // ---------------------------------------------------------------------------
  // The three instruction patterns

  /** `^@(?P<address>.+)$`: an `@` followed by at least one character, none of them a
      newline. */
  predicate MatchesA(line: string)
  {
    |line| >= 2 && line[0] == '@' && '\n' !in line[1..]
  }

  /** `\((?P<label>.+)\)$` (not anchored at the start) matches from index `j`: an `(`
      there, a `)` as the last character, and at least one non-newline character
      between them. */
  predicate LabelAt(line: string, j: nat)
  {
    j + 3 <= |line| && line[j] == '(' && line[|line| - 1] == ')' && '\n' !in line[j + 1..|line| - 1]
  }

  predicate MatchesL(line: string)
  {
    exists j :: 0 <= j < |line| && LabelAt(line, j)
  }

  /** The leftmost index at or after `from` where the L pattern matches. */
  function LabelStart(line: string, from: nat): (r: Option<nat>)
    ensures r.Some? ==> from <= r.value && LabelAt(line, r.value)
    ensures forall j: nat :: from <= j && (r.None? || j < r.value) ==> !LabelAt(line, j)
    decreases |line| - from
  {
    if from + 3 > |line| then None
    else if LabelAt(line, from) then Some(from)
    else LabelStart(line, from + 1)
  }

  /** The lengths of the five parts of
      `^(?P<dest>\w{1,2})?=?(?P<comp>\S{1,3});?(?P<jump>\w{3})?$`: `dest` (0 when the
      group is absent), the `=` (0 or 1), `comp`, the `;` (0 or 1) and `jump` (0 when
      absent). */
  datatype CShape = CShape(dest: nat, eq: nat, comp: nat, semi: nat, jump: nat)

  /** The number of ways the C pattern can divide a line: 3 * 2 * 3 * 2 * 2. */
  const ShapeCount: nat := 72

  /** The `t`-th way, in the order a leftmost-first regex engine tries them: a greedy
      `{1,2}` tries 2 before 1, an optional part is tried present before absent, and
      earlier parts vary slowest. */
  function Shape(t: nat): (p: CShape)
    requires t < ShapeCount
    ensures ValidShape(p)
  {
    CShape([2, 1, 0][t / 24], [1, 0][t % 24 / 12], [3, 2, 1][t % 12 / 4], [1, 0][t % 4 / 2], [3, 0][t % 2])
  }

  /** The part lengths the C pattern allows. */
  predicate ValidShape(p: CShape)
  {
    p.dest <= 2 && p.eq <= 1 && 1 <= p.comp <= 3 && p.semi <= 1 && (p.jump == 0 || p.jump == 3)
  }

  /** Every division the C pattern allows is one of the `ShapeCount` tried. */
  lemma ShapeOnto(p: CShape)
    requires ValidShape(p)
    ensures exists t :: 0 <= t < ShapeCount && Shape(t) == p
  {
    var e := if p.jump == 3 then 0 else 1;
    var w := 2 * (1 - p.semi) + e;
    var v := 4 * (3 - p.comp) + w;
    var u := 12 * (1 - p.eq) + v;
    var t := 24 * (2 - p.dest) + u;
    assert t / 24 == 2 - p.dest && t % 24 == u;
    assert u / 12 == 1 - p.eq && t % 12 == v;
    assert v / 4 == 3 - p.comp && t % 4 == w;
    assert w / 2 == 1 - p.semi && t % 2 == e;
    assert Shape(t) == p;
  }

  /** The parts of `p` cover `line`, with an `=` and a `;` where `p` places them. */
  predicate Layout(line: string, p: CShape)
  {
    p.dest + p.eq + p.comp + p.semi + p.jump == |line|
    && (p.eq == 1 ==> line[p.dest] == '=')
    && (p.semi == 1 ==> line[p.dest + p.eq + p.comp] == ';')
  }

  /** The C pattern matches `line` divided as `p`: the layout, and the character
      classes of the three groups. */
  predicate Fits(line: string, p: CShape)
  {
    Layout(line, p)
    && (forall k :: 0 <= k < p.dest ==> IsWordChar(line[k]))
    && (forall k :: p.dest + p.eq <= k < p.dest + p.eq + p.comp ==> !IsWhitespace(line[k]))
    && (forall k :: p.dest + p.eq + p.comp + p.semi <= k < |line| ==> IsWordChar(line[k]))
  }

  predicate MatchesC(line: string)
  {
    exists t :: 0 <= t < ShapeCount && Fits(line, Shape(t))
  }

  /** The first division, from the `from`-th on, under which the C pattern matches. */
  function FirstFit(line: string, from: nat): (r: Option<nat>)
    requires from <= ShapeCount
    ensures r.Some? ==> from <= r.value < ShapeCount && Fits(line, Shape(r.value))
    ensures forall u :: from <= u < ShapeCount && (r.None? || u < r.value) ==> !Fits(line, Shape(u))
    decreases ShapeCount - from
  {
    if from == ShapeCount then None
    else if Fits(line, Shape(from)) then Some(from)
    else FirstFit(line, from + 1)
  }

  // ---------------------------------------------------------------------------
  // parse_a, parse_l, parse_c, parse_line

  /** `parse_a`: the operand is an address when it parses as a `usize`, and a symbol
      otherwise; exactly one of the two is set. */
  function ParseA(lnum: nat, operand: string): (r: Instruction)
    ensures r.A? && r.lnum == lnum
    ensures r.address == ParseUsize(operand)
    ensures r.address.Some? != r.symbol.Some?
    ensures r.address.Some? ==> r.address.value <= UsizeMax
    ensures r.symbol.Some? ==> r.symbol.value == operand
    ensures forall n: nat :: n <= UsizeMax && operand == Decimal(n) ==> r.address == Some(n)
  {
    var address := ParseUsize(operand);
    forall n: nat | n <= UsizeMax && operand == Decimal(n) ensures address == Some(n) {
      ParseUsizeDecimal(n);
    }
    A(lnum, if address.Some? then None else Some(operand), address)
  }

  /** `parse_l`: a label carries the index of the line after it. */
  function ParseL(lnum: nat, name: string): Instruction
  {
    L(lnum + 1, name)
  }

  /** `parse_c`: the groups of the C pattern under the division `p`; an absent group
      is `None`. The captured parts, with the `=` and `;` between them, give back the
      line. */
  function ParseC(lnum: nat, line: string, p: CShape): (r: Instruction)
    requires ValidShape(p) && Layout(line, p)
    ensures r.C? && r.lnum == lnum && r.comp.Some?
    ensures r.dest.Some? <==> p.dest > 0
    ensures r.jump.Some? <==> p.jump > 0
    ensures line == Part(r.dest) + (if p.eq == 1 then "=" else "") + r.comp.value
                    + (if p.semi == 1 then ";" else "") + Part(r.jump)
  {
    var c0 := p.dest + p.eq;
    var c1 := c0 + p.comp;
    var j0 := c1 + p.semi;
    var dest := if p.dest == 0 then None else Some(line[..p.dest]);
    var jump := if p.jump == 0 then None else Some(line[j0..]);
    Reassemble(line, p, dest, jump);
    C(lnum, dest, Some(line[c0..c1]), jump)
  }

  /** The captured parts have the lengths and the character classes of their groups. */
  lemma ParseCGroups(lnum: nat, line: string, p: CShape)
    requires ValidShape(p) && Fits(line, p)
    ensures 1 <= |ParseC(lnum, line, p).comp.value| <= 3 && NoWhitespace(ParseC(lnum, line, p).comp.value)
    ensures ParseC(lnum, line, p).dest.Some? ==>
      1 <= |ParseC(lnum, line, p).dest.value| <= 2 && WordChars(ParseC(lnum, line, p).dest.value)
    ensures ParseC(lnum, line, p).jump.Some? ==>
      |ParseC(lnum, line, p).jump.value| == 3 && WordChars(ParseC(lnum, line, p).jump.value)
  {
    CSlices(line, p);
  }

  /** The text of a group, or nothing when the group is absent. */
  function Part(group: Option<string>): string
  {
    if group.Some? then group.value else ""
  }

  /** The character classes of the slices `parse_c` captures under a matching division. */
  lemma CSlices(line: string, p: CShape)
    requires ValidShape(p) && Fits(line, p)
    ensures NoWhitespace(line[p.dest + p.eq..p.dest + p.eq + p.comp])
    ensures WordChars(line[..p.dest])
    ensures WordChars(line[p.dest + p.eq + p.comp + p.semi..])
  {
    var c0, c1 := p.dest + p.eq, p.dest + p.eq + p.comp;
    var j0 := c1 + p.semi;
    forall k | 0 <= k < p.comp ensures !IsWhitespace(line[c0..c1][k]) {
      assert line[c0..c1][k] == line[c0 + k];
    }
    forall k | 0 <= k < p.dest ensures IsWordChar(line[..p.dest][k]) {
      assert line[..p.dest][k] == line[k];
    }
    forall k | 0 <= k < p.jump ensures IsWordChar(line[j0..][k]) {
      assert line[j0..][k] == line[j0 + k];
    }
  }

  /** A line laid out as `p` is its five parts put back together, where a group of
      length 0 is absent. */
  lemma Reassemble(line: string, p: CShape, dest: Option<string>, jump: Option<string>)
    requires ValidShape(p) && Layout(line, p)
    requires dest == if p.dest == 0 then None else Some(line[..p.dest])
    requires jump == if p.jump == 0 then None else Some(line[p.dest + p.eq + p.comp + p.semi..])
    ensures line == Part(dest) + (if p.eq == 1 then "=" else "") + line[p.dest + p.eq..p.dest + p.eq + p.comp]
                    + (if p.semi == 1 then ";" else "") + Part(jump)
  {
    var c0, c1 := p.dest + p.eq, p.dest + p.eq + p.comp;
    var j0 := c1 + p.semi;
    assert Part(dest) == line[..p.dest];
    assert Part(jump) == line[j0..];
    assert line[..p.dest] + (if p.eq == 1 then "=" else "") == line[..c0];
    assert line[..c1] + (if p.semi == 1 then ";" else "") == line[..j0];
    assert line[..c0] + line[c0..c1] == line[..c1];
    assert line[..j0] + line[j0..] == line;
  }

  /** `parse_line`, with the patterns tried in the order A, L, C. Only the L pattern
      changes the line index. */
  function ParseLine(lnum: nat, line: string): (r: Result<Instruction, ParseError>)
    ensures r.Ok? ==> r.value.lnum == if r.value.L? then lnum + 1 else lnum
    ensures r.Err? ==> r.error == SyntaxError(line)
  {
    if MatchesA(line) then Ok(ParseA(lnum, line[1..]))
    else match LabelStart(line, 0)
      case Some(j) => Ok(ParseL(lnum, line[j + 1..|line| - 1]))
      case None =>
        match FirstFit(line, 0)
        case Some(t) => Ok(ParseC(lnum, line, Shape(t)))
        case None => Err(SyntaxError(line))
  }

  /** `j` is the leftmost index where the L pattern matches. */
  predicate LeftmostLabel(line: string, j: nat)
  {
    j < |line| && LabelAt(line, j) && forall i :: 0 <= i < j ==> !LabelAt(line, i)
  }

  /** Division `t` is the first, in the regex engine's order, under which the C pattern
      matches. */
  predicate FirstShape(line: string, t: nat)
  {
    t < ShapeCount && Fits(line, Shape(t)) && forall u :: 0 <= u < t ==> !Fits(line, Shape(u))
  }

  /** A line the A pattern matches is an A instruction, whatever else matches it. */
  lemma ParseLineA(lnum: nat, line: string)
    requires MatchesA(line)
    ensures ParseLine(lnum, line) == Ok(ParseA(lnum, line[1..]))
  {
  }

  /** Otherwise a line the L pattern matches is an L instruction, named by the text
      between the leftmost `(` that starts a match and the final `)`. */
  lemma ParseLineL(lnum: nat, line: string, j: nat)
    requires !MatchesA(line) && LeftmostLabel(line, j)
    ensures ParseLine(lnum, line) == Ok(ParseL(lnum, line[j + 1..|line| - 1]))
  {
    assert LabelStart(line, 0) == Some(j);
  }

  /** A line that is `(`, a name without newlines, and `)` is a label, named by what is
      between the parentheses, and carries the index of the next line. */
  lemma LabelLine(lnum: nat, line: string)
    requires |line| >= 3 && line[0] == '(' && line[|line| - 1] == ')' && '\n' !in line
    ensures ParseLine(lnum, line) == Ok(L(lnum + 1, line[1..|line| - 1]))
  {
    assert LabelAt(line, 0);
    ParseLineL(lnum, line, 0);
  }

  /** The search for the leftmost label succeeds exactly when the L pattern matches. */
  lemma LabelStartMatches(line: string)
    ensures LabelStart(line, 0).Some? <==> MatchesL(line)
  {
    if LabelStart(line, 0).Some? {
      assert LabelAt(line, LabelStart(line, 0).value);
    }
  }

  /** The search for the first division succeeds exactly when the C pattern matches. */
  lemma FirstFitMatches(line: string)
    ensures FirstFit(line, 0).Some? <==> MatchesC(line)
  {
    if FirstFit(line, 0).Some? {
      assert Fits(line, Shape(FirstFit(line, 0).value));
    }
  }

  /** Otherwise a line the C pattern matches is a C instruction, divided as the first
      division that matches. */
  lemma ParseLineC(lnum: nat, line: string, t: nat)
    requires !MatchesA(line) && !MatchesL(line) && FirstShape(line, t)
    ensures ParseLine(lnum, line) == Ok(ParseC(lnum, line, Shape(t)))
  {
    LabelStartMatches(line);
    FirstFitIs(line, t);
  }

  /** The search for the first division finds the first division that matches. */
  lemma FirstFitIs(line: string, t: nat)
    requires FirstShape(line, t)
    ensures FirstFit(line, 0) == Some(t)
  {
  }

  /** A line is a syntax error exactly when none of the three patterns matches it. */
  lemma ParseLineErr(lnum: nat, line: string)
    ensures ParseLine(lnum, line).Err? <==> !MatchesA(line) && !MatchesL(line) && !MatchesC(line)
  {
    LabelStartMatches(line);
    FirstFitMatches(line);
  }

  // ---------------------------------------------------------------------------
  // parse

  /** Each line after `remove_spaces` and `remove_comments`. */
  function CleanAll(lines: seq<string>): seq<Option<string>>
  {
    seq(|lines|, i requires 0 <= i < |lines| => Clean(lines[i]))
  }

  /** What `parse` does with each line: `None` for a line that cleaning empties, and
      otherwise what `parse_line` makes of the cleaned line with its raw index, counted
      from `first`. */
  function Outcomes(cleaned: seq<Option<string>>, first: nat): (r: seq<Option<Result<Instruction, ParseError>>>)
    ensures |r| == |cleaned|
    decreases |cleaned|
  {
    if cleaned == [] then []
    else [if cleaned[0].Some? then Some(ParseLine(first, cleaned[0].value)) else None] + Outcomes(cleaned[1..], first + 1)
  }

  /** `r` with `p` in front of its instructions; an error stays as it is. */
  function Prepend(p: seq<Instruction>, r: Result<seq<Instruction>, ParseError>): Result<seq<Instruction>, ParseError>
  {
    match r
    case Ok(v) => Ok(p + v)
    case Err(e) => Err(e)
  }

  /** The loop of `parse` over the outcomes: skipped lines contribute nothing, the
      first failing line ends it with its error. */
  function Collect(outs: seq<Option<Result<Instruction, ParseError>>>): Result<seq<Instruction>, ParseError>
    decreases |outs|
  {
    if outs == [] then Ok([])
    else match outs[0]
      case None => Collect(outs[1..])
      case Some(Err(e)) => Err(e)
      case Some(Ok(inst)) => Prepend([inst], Collect(outs[1..]))
  }

  /** What `parse` computes from the cleaned lines, the first of which has index
      `first`, written as one recursion over the lines. */
  function ParseCleaned(cleaned: seq<Option<string>>, first: nat): Result<seq<Instruction>, ParseError>
    decreases |cleaned|
  {
    if cleaned == [] then Ok([])
    else match cleaned[0]
      case None => ParseCleaned(cleaned[1..], first + 1)
      case Some(line) =>
        match ParseLine(first, line)
        case Err(e) => Err(e)
        case Ok(inst) => Prepend([inst], ParseCleaned(cleaned[1..], first + 1))
  }

  /** The recursion over the lines is the loop over their outcomes. */
  lemma {:induction false} ParseCleanedCollect(cleaned: seq<Option<string>>, first: nat)
    ensures ParseCleaned(cleaned, first) == Collect(Outcomes(cleaned, first))
    decreases |cleaned|
  {
    if cleaned != [] {
      ParseCleanedCollect(cleaned[1..], first + 1);
      assert Outcomes(cleaned, first)[1..] == Outcomes(cleaned[1..], first + 1);
    }
  }

  /** What `parse` computes from a whole file. */
  function ParseSpec(contents: string): Result<seq<Instruction>, ParseError>
  {
    ParseCleaned(CleanAll(Lines(contents)), 0)
  }

  /** The outcomes of the lines that were not skipped, in order. */
  function Kept(outs: seq<Option<Result<Instruction, ParseError>>>): seq<Result<Instruction, ParseError>>
    decreases |outs|
  {
    if outs == [] then []
    else (if outs[0].Some? then [outs[0].value] else []) + Kept(outs[1..])
  }

  /** Every kept line parsed. */
  predicate AllOk(rs: seq<Result<Instruction, ParseError>>)
  {
    forall k :: 0 <= k < |rs| ==> rs[k].Ok?
  }

  /** When the loop succeeds it yields one instruction per kept line, in order. */
  lemma {:induction false} CollectOk(outs: seq<Option<Result<Instruction, ParseError>>>)
    requires Collect(outs).Ok?
    ensures var v, rs := Collect(outs).value, Kept(outs);
      |v| == |rs| && forall k :: 0 <= k < |rs| ==> rs[k] == Ok(v[k])
    decreases |outs|
  {
    if outs != [] {
      CollectOk(outs[1..]);
    }
  }

  /** The loop succeeds when every kept line parsed. */
  lemma {:induction false} CollectAllOk(outs: seq<Option<Result<Instruction, ParseError>>>)
    requires AllOk(Kept(outs))
    ensures Collect(outs).Ok?
    decreases |outs|
  {
    if outs != [] {
      var rs, rs' := Kept(outs), Kept(outs[1..]);
      if outs[0].Some? {
        assert rs == [outs[0].value] + rs';
        assert rs[0] == outs[0].value;
        forall k | 0 <= k < |rs'| ensures rs'[k].Ok? {
          assert rs'[k] == rs[k + 1];
        }
      } else {
        assert rs == rs';
      }
      CollectAllOk(outs[1..]);
    }
  }

  /** When the loop fails, its error is that of the first kept line that failed. */
  lemma {:induction false} CollectErr(outs: seq<Option<Result<Instruction, ParseError>>>)
    requires Collect(outs).Err?
    ensures exists k :: 0 <= k < |Kept(outs)| && Kept(outs)[k] == Err(Collect(outs).error) && AllOk(Kept(outs)[..k])
    decreases |outs|
  {
    var e, rs := Collect(outs).error, Kept(outs);
    var rs' := Kept(outs[1..]);
    if outs[0].Some? {
      var h := outs[0].value;
      assert rs == [h] + rs';
      if h.Err? {
        assert rs[0] == Err(e) && AllOk(rs[..0]);
      } else {
        CollectErr(outs[1..]);
        var k :| 0 <= k < |rs'| && rs'[k] == Err(e) && AllOk(rs'[..k]);
        assert rs[k + 1] == rs'[k];
        assert rs[..k + 1] == [h] + rs'[..k];
        AllOkCons(h, rs'[..k]);
      }
    } else {
      assert rs == rs';
      assert Collect(outs) == Collect(outs[1..]);
      CollectErr(outs[1..]);
      var k :| 0 <= k < |rs'| && rs'[k] == Err(e) && AllOk(rs'[..k]);
      assert rs[k] == Err(e) && AllOk(rs[..k]);
    }
  }

  lemma AllOkCons(h: Result<Instruction, ParseError>, rs: seq<Result<Instruction, ParseError>>)
    requires h.Ok? && AllOk(rs)
    ensures AllOk([h] + rs)
  {
    forall m | 0 <= m < |rs| + 1 ensures ([h] + rs)[m].Ok? {
      if m > 0 {
        assert ([h] + rs)[m] == rs[m - 1];
      }
    }
  }

  /** The lines that survive cleaning, in order, each with its index counted from
      `first`. */
  function Surviving(cleaned: seq<Option<string>>, first: nat): seq<(nat, string)>
    decreases |cleaned|
  {
    if cleaned == [] then []
    else (if cleaned[0].Some? then [(first, cleaned[0].value)] else []) + Surviving(cleaned[1..], first + 1)
  }

  /** `x` is a line left non-empty by cleaning, with its index counted from `first`. */
  predicate SurvivorOf(cleaned: seq<Option<string>>, first: nat, x: (nat, string))
  {
    first <= x.0 < first + |cleaned| && cleaned[x.0 - first] == Some(x.1)
  }

  /** Each surviving line is a line left non-empty by cleaning, with its index. */
  lemma {:induction false} SurvivingSound(cleaned: seq<Option<string>>, first: nat)
    ensures forall k :: 0 <= k < |Surviving(cleaned, first)| ==> SurvivorOf(cleaned, first, Surviving(cleaned, first)[k])
    decreases |cleaned|
  {
    if cleaned != [] {
      var tail := cleaned[1..];
      SurvivingSound(tail, first + 1);
      var r, r' := Surviving(cleaned, first), Surviving(tail, first + 1);
      var off := if cleaned[0].Some? then 1 else 0;
      assert r == (if cleaned[0].Some? then [(first, cleaned[0].value)] else []) + r';
      forall k | off <= k < |r| ensures SurvivorOf(cleaned, first, r[k]) {
        var x := r'[k - off];
        assert r[k] == x;
        assert SurvivorOf(tail, first + 1, x);
        assert tail[x.0 - (first + 1)] == cleaned[x.0 - first];
      }
    }
  }

  /** Every line left non-empty by cleaning survives, with its index. */
  lemma {:induction false} SurvivingComplete(cleaned: seq<Option<string>>, first: nat)
    ensures forall i :: 0 <= i < |cleaned| && cleaned[i].Some? ==> (first + i, cleaned[i].value) in Surviving(cleaned, first)
    decreases |cleaned|
  {
    if cleaned != [] {
      var tail := cleaned[1..];
      SurvivingComplete(tail, first + 1);
      var r, r' := Surviving(cleaned, first), Surviving(tail, first + 1);
      assert r == (if cleaned[0].Some? then [(first, cleaned[0].value)] else []) + r';
      forall i | 1 <= i < |cleaned| && cleaned[i].Some? ensures (first + i, cleaned[i].value) in r {
        assert tail[i - 1] == cleaned[i];
        assert (first + 1 + (i - 1), tail[i - 1].value) in r';
      }
    }
  }

  /** The surviving lines come in increasing order of index. */
  lemma {:induction false} SurvivingOrdered(cleaned: seq<Option<string>>, first: nat)
    ensures forall a, b :: 0 <= a < b < |Surviving(cleaned, first)| ==> Surviving(cleaned, first)[a].0 < Surviving(cleaned, first)[b].0
    decreases |cleaned|
  {
    if cleaned != [] {
      var tail := cleaned[1..];
      SurvivingOrdered(tail, first + 1);
      SurvivingSound(tail, first + 1);
      var r, r' := Surviving(cleaned, first), Surviving(tail, first + 1);
      if cleaned[0].Some? {
        assert r == [(first, cleaned[0].value)] + r';
        forall b | 1 <= b < |r| ensures r[b] == r'[b - 1] && r[b].0 > first {
          assert SurvivorOf(tail, first + 1, r'[b - 1]);
        }
      }
    }
  }

  /** The kept outcomes are what `parse_line` makes of the surviving lines, each with its
      raw index. */
  lemma KeptSurviving(cleaned: seq<Option<string>>, first: nat)
    ensures var rs, s := Kept(Outcomes(cleaned, first)), Surviving(cleaned, first);
      |rs| == |s| && forall k :: 0 <= k < |s| ==> rs[k] == ParseLine(s[k].0, s[k].1)
  {
    OutcomesAt(cleaned, first);
    KeptMap(cleaned, first, ParseLine, Outcomes(cleaned, first));
  }

  /** The outcome of each line, by index. */
  lemma {:induction false} OutcomesAt(cleaned: seq<Option<string>>, first: nat)
    ensures forall i :: 0 <= i < |cleaned| ==>
      Outcomes(cleaned, first)[i] == if cleaned[i].Some? then Some(ParseLine(first + i, cleaned[i].value)) else None
    decreases |cleaned|
  {
    if cleaned != [] {
      OutcomesAt(cleaned[1..], first + 1);
      var outs, outs' := Outcomes(cleaned, first), Outcomes(cleaned[1..], first + 1);
      assert outs[1..] == outs';
      forall i | 1 <= i < |cleaned|
        ensures outs[i] == if cleaned[i].Some? then Some(ParseLine(first + i, cleaned[i].value)) else None
      {
        assert outs[i] == outs'[i - 1] && cleaned[i] == cleaned[1..][i - 1];
      }
    }
  }

  /** Keeping the outcomes of the lines that were not skipped, when each outcome is `f`
      of its line and index, gives `f` of each surviving line, in order. */
  lemma {:induction false} KeptMap(cleaned: seq<Option<string>>, first: nat,
                                   f: (nat, string) -> Result<Instruction, ParseError>,
                                   outs: seq<Option<Result<Instruction, ParseError>>>)
    requires |outs| == |cleaned|
    requires forall i :: 0 <= i < |cleaned| ==>
      outs[i] == if cleaned[i].Some? then Some(f(first + i, cleaned[i].value)) else None
    ensures |Kept(outs)| == |Surviving(cleaned, first)|
    ensures forall k :: 0 <= k < |Kept(outs)| ==>
      Kept(outs)[k] == f(Surviving(cleaned, first)[k].0, Surviving(cleaned, first)[k].1)
    decreases |cleaned|
  {
    if cleaned != [] {
      var tail, outs' := cleaned[1..], outs[1..];
      forall i | 0 <= i < |tail|
        ensures outs'[i] == if tail[i].Some? then Some(f(first + 1 + i, tail[i].value)) else None
      {
        assert outs'[i] == outs[i + 1] && tail[i] == cleaned[i + 1];
      }
      KeptMap(tail, first + 1, f, outs');
      var rs, s := Kept(outs), Surviving(cleaned, first);
      var rs', s' := Kept(outs'), Surviving(tail, first + 1);
      if cleaned[0].Some? {
        assert rs == [outs[0].value] + rs' && s == [(first, cleaned[0].value)] + s';
        forall k | 1 <= k < |s| ensures rs[k] == f(s[k].0, s[k].1) {
          assert rs[k] == rs'[k - 1] && s[k] == s'[k - 1];
        }
      } else {
        assert rs == rs' && s == s';
      }
    }
  }

  /** Line numbers: each instruction carries the raw index of its surviving line, plus
      one for an L instruction. */
  lemma LineNumbers(cleaned: seq<Option<string>>)
    requires ParseCleaned(cleaned, 0).Ok?
    ensures var v, s := ParseCleaned(cleaned, 0).value, Surviving(cleaned, 0);
      |v| == |s| && forall k :: 0 <= k < |v| ==> v[k].lnum == if v[k].L? then s[k].0 + 1 else s[k].0
  {
    var outs := Outcomes(cleaned, 0);
    ParseCleanedCollect(cleaned, 0);
    CollectOk(outs);
    KeptSurviving(cleaned, 0);
    var v, s := ParseCleaned(cleaned, 0).value, Surviving(cleaned, 0);
    forall k | 0 <= k < |v| ensures v[k].lnum == if v[k].L? then s[k].0 + 1 else s[k].0 {
      assert ParseLine(s[k].0, s[k].1) == Ok(v[k]);
    }
  }

  /** `parse` on a whole file: it succeeds exactly when every line that survives cleaning
      parses; it then yields one instruction per surviving line, in source order, each
      the one `parse_line` makes of that line with its raw index; otherwise its error is
      that of the first surviving line that matches no pattern. */
  lemma ParseSpecResult(contents: string)
    ensures var s := Surviving(CleanAll(Lines(contents)), 0);
      ParseSpec(contents).Ok? <==> forall k :: 0 <= k < |s| ==> ParseLine(s[k].0, s[k].1).Ok?
    ensures var s := Surviving(CleanAll(Lines(contents)), 0);
      ParseSpec(contents).Ok? ==>
        |ParseSpec(contents).value| == |s|
        && forall k :: 0 <= k < |s| ==> ParseLine(s[k].0, s[k].1) == Ok(ParseSpec(contents).value[k])
    ensures var s := Surviving(CleanAll(Lines(contents)), 0);
      ParseSpec(contents).Err? ==>
        exists k :: (0 <= k < |s| && ParseLine(s[k].0, s[k].1) == Err(ParseSpec(contents).error)
                     && forall m :: 0 <= m < k ==> ParseLine(s[m].0, s[m].1).Ok?)
  {
    ParseCleanedResult(CleanAll(Lines(contents)));
  }

  /** The same, for any sequence of cleaned lines. */
  lemma ParseCleanedResult(cleaned: seq<Option<string>>)
    ensures var s := Surviving(cleaned, 0);
      ParseCleaned(cleaned, 0).Ok? <==> forall k :: 0 <= k < |s| ==> ParseLine(s[k].0, s[k].1).Ok?
    ensures var s := Surviving(cleaned, 0);
      ParseCleaned(cleaned, 0).Ok? ==>
        |ParseCleaned(cleaned, 0).value| == |s|
        && forall k :: 0 <= k < |s| ==> ParseLine(s[k].0, s[k].1) == Ok(ParseCleaned(cleaned, 0).value[k])
    ensures var s := Surviving(cleaned, 0);
      ParseCleaned(cleaned, 0).Err? ==>
        exists k :: (0 <= k < |s| && ParseLine(s[k].0, s[k].1) == Err(ParseCleaned(cleaned, 0).error)
                     && forall m :: 0 <= m < k ==> ParseLine(s[m].0, s[m].1).Ok?)
  {
    var outs := Outcomes(cleaned, 0);
    var s := Surviving(cleaned, 0);
    ParseCleanedCollect(cleaned, 0);
    KeptSurviving(cleaned, 0);
    var rs := Kept(outs);
    if Collect(outs).Ok? {
      CollectOk(outs);
    } else {
      CollectErr(outs);
      var k :| 0 <= k < |rs| && rs[k] == Err(Collect(outs).error) && AllOk(rs[..k]);
      forall m | 0 <= m < k ensures ParseLine(s[m].0, s[m].1).Ok? {
        assert rs[..k][m] == rs[m];
      }
    }
    if forall k :: 0 <= k < |s| ==> ParseLine(s[k].0, s[k].1).Ok? {
      CollectAllOk(outs);
    }
  }

  /** `parse`: a loop over the lines of `contents` and their indices, pushing one
      instruction per surviving line and stopping at the first syntax error. */
  method Parse(contents: string) returns (r: Result<seq<Instruction>, ParseError>)
    ensures r == ParseSpec(contents)
  {
    var lines := Lines(contents);
    ghost var cleaned := CleanAll(lines);
    var parsed: seq<Instruction> := [];
    var lnum := 0;
    assert cleaned[0..] == cleaned;
    PrependNil(ParseCleaned(cleaned, 0));
    while lnum < |lines|
      invariant lnum <= |lines| == |cleaned|
      invariant ParseCleaned(cleaned, 0) == Prepend(parsed, ParseCleaned(cleaned[lnum..], lnum))
    {
      var line := RemoveSpaces(lines[lnum]);
      var lineOption := RemoveComments(line);
      CleanAllAt(lines, lnum);
      ParseStep(cleaned, lnum, parsed);
      if lineOption.Some? {
        var parsedLine := ParseLine(lnum, lineOption.value);
        if parsedLine.Err? {
          return Err(parsedLine.error);
        }
        parsed := parsed + [parsedLine.value];
      }
      lnum := lnum + 1;
    }
    assert parsed + [] == parsed;
    return Ok(parsed);
  }

  lemma CleanAllAt(lines: seq<string>, i: nat)
    requires i < |lines|
    ensures |CleanAll(lines)| == |lines| && CleanAll(lines)[i] == RemoveComments(NonWhitespace(lines[i]))
  {
  }

  /** One turn of the loop of `parse`: a skipped line leaves the result to the lines after
      it, a failing line is the result, and a parsed line joins those before it. */
  lemma ParseStep(cleaned: seq<Option<string>>, lnum: nat, parsed: seq<Instruction>)
    requires lnum < |cleaned|
    ensures cleaned[lnum].None? ==>
      Prepend(parsed, ParseCleaned(cleaned[lnum..], lnum)) == Prepend(parsed, ParseCleaned(cleaned[lnum + 1..], lnum + 1))
    ensures cleaned[lnum].Some? && ParseLine(lnum, cleaned[lnum].value).Err? ==>
      Prepend(parsed, ParseCleaned(cleaned[lnum..], lnum)) == Err(ParseLine(lnum, cleaned[lnum].value).error)
    ensures cleaned[lnum].Some? && ParseLine(lnum, cleaned[lnum].value).Ok? ==>
      Prepend(parsed, ParseCleaned(cleaned[lnum..], lnum))
      == Prepend(parsed + [ParseLine(lnum, cleaned[lnum].value).value], ParseCleaned(cleaned[lnum + 1..], lnum + 1))
  {
    assert cleaned[lnum..][1..] == cleaned[lnum + 1..];
    if cleaned[lnum].Some? && ParseLine(lnum, cleaned[lnum].value).Ok? {
      PrependTwice(parsed, [ParseLine(lnum, cleaned[lnum].value).value], ParseCleaned(cleaned[lnum + 1..], lnum + 1));
    }
  }

  lemma PrependNil(r: Result<seq<Instruction>, ParseError>)
    ensures Prepend([], r) == r
  {
    if r.Ok? {
      assert [] + r.value == r.value;
    }
  }

  lemma PrependTwice(p: seq<Instruction>, q: seq<Instruction>, r: Result<seq<Instruction>, ParseError>)
    ensures Prepend(p, Prepend(q, r)) == Prepend(p + q, r)
  {
    if r.Ok? {
      assert p + (q + r.value) == (p + q) + r.value;
    }
  }
}
