/** The `decoder` module of src/lib.rs: it turns parsed instructions into lines of
    binary text, one sixteen-character word per A or C instruction. */
module Decoder {
  import opened Wrappers
  import opened Strings
  import opened Numerals
  import opened Parser

  /** The reasons `decode` stops; the source prints a message and exits for each. */
  datatype DecodeError =
    | MissingAddress
    | UnknownDest(dest: string)
    | UnknownComp(comp: string)
    | UnknownJump(jump: string)

  // ---------------------------------------------------------------------------
  // The three tables of `decode_c`

  /** The destination table: bit 1 stores to A, bit 2 to D, bit 3 to M. */
  function DestCode(d: string): (r: Option<string>)
    ensures r.Some? ==> |r.value| == 3 && AllBits(r.value) && r.value != "000"
    ensures r.Some? ==> (r.value[0] == '1' <==> 'A' in d) && (r.value[1] == '1' <==> 'D' in d)
                        && (r.value[2] == '1' <==> 'M' in d)
  {
    match d
    case "M" => Some("001")
    case "D" => Some("010")
    case "MD" => Some("011")
    case "A" => Some("100")
    case "AM" => Some("101")
    case "AD" => Some("110")
    case "AMD" => Some("111")
    case _ => None
  }

  /** The computation table: the `a` bit followed by the six `c` bits. */
  function CompCode(c: string): (r: Option<string>)
    ensures r.Some? ==> |r.value| == 7 && AllBits(r.value)
    ensures r.Some? ==> (r.value[0] == '1' <==> 'M' in c)
  {
    match c
    case "0" => Some("0101010")
    case "1" => Some("0111111")
    case "D" => Some("0001100")
    case "A" => Some("0110000")
    case "M" => Some("1110000")
    case "-1" => Some("0111110")
    case "!D" => Some("0001101")
    case "!A" => Some("0110001")
    case "!M" => Some("1110001")
    case "-D" => Some("0001111")
    case "-A" => Some("0110011")
    case "-M" => Some("1110011")
    case "D+1" => Some("0011111")
    case "A+1" => Some("0110111")
    case "M+1" => Some("1110111")
    case "D-1" => Some("0001110")
    case "A-1" => Some("0110010")
    case "D+A" => Some("0000010")
    case "D-A" => Some("0010011")
    case "A-D" => Some("0000111")
    case "D&A" => Some("0000000")
    case "D|A" => Some("0010101")
    case "M-1" => Some("1110010")
    case "D+M" => Some("1000010")
    case "D-M" => Some("1010011")
    case "M-D" => Some("1000111")
    case "D&M" => Some("1000000")
    case "D|M" => Some("1010101")
    case _ => None
  }

  /** The jump table: bit 1 jumps on a negative result, bit 2 on zero, bit 3 on a
      positive one. */
  function JumpCode(j: string): (r: Option<string>)
    ensures r.Some? ==> |r.value| == 3 && AllBits(r.value) && r.value != "000"
  {
    match j
    case "JGT" => Some("001")
    case "JEQ" => Some("010")
    case "JGE" => Some("011")
    case "JLT" => Some("100")
    case "JNE" => Some("101")
    case "JLE" => Some("110")
    case "JMP" => Some("111")
    case _ => None
  }

  /** The 28 computation mnemonics, in the order of the table. */
  const CompMnemonics: seq<string> := [
    "0", "1", "D", "A", "M", "-1", "!D", "!A", "!M", "-D", "-A", "-M", "D+1", "A+1",
    "M+1", "D-1", "A-1", "D+A", "D-A", "A-D", "D&A", "D|A", "M-1", "D+M", "D-M", "M-D",
    "D&M", "D|M"]

  /** `c` with every `M` read as `A`: the same computation on the A register. */
  function MToA(c: string): (r: string)
    ensures |r| == |c| && 'M' !in r
    ensures forall i :: 0 <= i < |c| ==> r[i] == if c[i] == 'M' then 'A' else c[i]
  {
    if c == [] then [] else [if c[0] == 'M' then 'A' else c[0]] + MToA(c[1..])
  }

  // ---------------------------------------------------------------------------
  // decode_a, decode_c

  /** `decode_a`: `0` followed by the address in binary, zero-padded to 15 digits; an
      instruction without an address (a symbol) stops the decoder. The source does not
      check the range, so an address of 2^15 or more gives a longer word. */
  function DecodeA(a: Option<nat>): (r: Result<string, DecodeError>)
    ensures r.Err? <==> a.None?
    ensures r.Err? ==> r.error == MissingAddress
    ensures r.Ok? ==> AllBits(r.value) && |r.value| >= 16 && r.value[0] == '0' && BitsValue(r.value) == a.value
    ensures r.Ok? ==> (|r.value| == 16 <==> a.value < Pow2(15))
  {
    match a
    case None => Err(MissingAddress)
    case Some(n) =>
      PaddedWord(n);
      Ok("0" + PadLeft(Binary(n), 15))
  }

  /** `0` and the zero-padded binary numeral of `n` denote `n`, in 16 digits exactly
      when `n` fits in 15 bits. */
  lemma PaddedWord(n: nat)
    ensures var w := "0" + PadLeft(Binary(n), 15);
      AllBits(w) && |w| >= 16 && w[0] == '0' && BitsValue(w) == n && (|w| == 16 <==> n < Pow2(15))
  {
    BinaryLength(n, 15);
    PaddedBits(Binary(n));
  }

  /** `0` and the binary numeral `b` padded to 15 digits keep the value of `b`, in 16 digits
      exactly when `b` has at most 15. */
  lemma PaddedBits(b: string)
    requires AllBits(b)
    ensures var w := "0" + PadLeft(b, 15);
      AllBits(w) && |w| >= 16 && w[0] == '0' && BitsValue(w) == BitsValue(b) && (|w| == 16 <==> |b| <= 15)
  {
    var z := if |b| < 15 then 15 - |b| else 0;
    ZeroFill(b, z);
    LeadingZeros(z + 1, b);
  }

  /** A `0` in front of `b` padded with `z` zeros is `b` padded with `z + 1` zeros. */
  lemma ZeroFill(b: string, z: nat)
    ensures "0" + (Zeros(z) + b) == Zeros(z + 1) + b
    ensures "0" + PadLeft(b, 15) == if |b| < 15 then Zeros(16 - |b|) + b else Zeros(1) + b
  {
    assert "0" + (Zeros(z) + b) == Zeros(z + 1) + b;
  }

  /** `decode_c`: `111`, then the computation, destination and jump codes. The three
      tables are consulted in the order destination, computation, jump, so the first
      unknown mnemonic in that order is the error; an absent field contributes nothing. */
  function DecodeC(dest: Option<string>, comp: Option<string>, jump: Option<string>): (r: Result<string, DecodeError>)
    ensures dest.Some? && DestCode(dest.value).None? ==> r == Err(UnknownDest(dest.value))
    ensures ((dest.None? || DestCode(dest.value).Some?) && comp.Some? && CompCode(comp.value).None?)
              ==> r == Err(UnknownComp(comp.value))
    ensures ((dest.None? || DestCode(dest.value).Some?) && (comp.None? || CompCode(comp.value).Some?)
              && jump.Some? && JumpCode(jump.value).None?) ==> r == Err(UnknownJump(jump.value))
    ensures r.Ok? <==>
      (dest.None? || DestCode(dest.value).Some?) && (comp.None? || CompCode(comp.value).Some?)
      && (jump.None? || JumpCode(jump.value).Some?)
    ensures r.Ok? ==>
      |r.value| == 3 + (if comp.Some? then 7 else 0) + (if dest.Some? then 3 else 0) + (if jump.Some? then 3 else 0)
      && AllBits(r.value) && r.value[..3] == "111"
    ensures r.Ok? ==>
      var c := 3 + (if comp.Some? then 7 else 0);
      var d := c + (if dest.Some? then 3 else 0);
      (comp.Some? ==> Some(r.value[3..c]) == CompCode(comp.value))
      && (dest.Some? ==> Some(r.value[c..d]) == DestCode(dest.value))
      && (jump.Some? ==> Some(r.value[d..]) == JumpCode(jump.value))
  {
    if dest.Some? && DestCode(dest.value).None? then Err(UnknownDest(dest.value))
    else if comp.Some? && CompCode(comp.value).None? then Err(UnknownComp(comp.value))
    else if jump.Some? && JumpCode(jump.value).None? then Err(UnknownJump(jump.value))
    else
      var d := if dest.Some? then DestCode(dest.value).value else "";
      var c := if comp.Some? then CompCode(comp.value).value else "";
      var j := if jump.Some? then JumpCode(jump.value).value else "";
      WordBits(c, d, j);
      Ok("111" + c + d + j)
  }

  /** `111` and three binary numerals make a binary numeral that starts with `111`. */
  lemma WordBits(c: string, d: string, j: string)
    requires AllBits(c) && AllBits(d) && AllBits(j)
    ensures AllBits("111" + c + d + j) && ("111" + c + d + j)[..3] == "111"
    ensures var w := "111" + c + d + j;
      w[3..3 + |c|] == c && w[3 + |c|..3 + |c| + |d|] == d && w[3 + |c| + |d|..] == j
  {
    var w := "111" + c + d + j;
    assert w[3..3 + |c|] == c;
    assert w[3 + |c|..3 + |c| + |d|] == d;
    assert w[3 + |c| + |d|..] == j;
    forall i | 0 <= i < |w| ensures IsBit(w[i]) {
      if i >= 3 + |c| + |d| {
        assert w[i] == j[i - 3 - |c| - |d|];
      } else if i >= 3 + |c| {
        assert w[i] == d[i - 3 - |c|];
      } else if i >= 3 {
        assert w[i] == c[i - 3];
      }
    }
  }

  /** A C word with all three fields is sixteen bits, laid out as `111`, the seven
      computation bits, the three destination bits and the three jump bits, and those
      fields determine it. */
  lemma DecodeCFields(dest: string, comp: string, jump: string)
    requires DecodeC(Some(dest), Some(comp), Some(jump)).Ok?
    ensures var w := DecodeC(Some(dest), Some(comp), Some(jump)).value;
      |w| == 16 && w[..3] == "111" && Some(w[3..10]) == CompCode(comp)
      && Some(w[10..13]) == DestCode(dest) && Some(w[13..]) == JumpCode(jump)
  {
    var w := DecodeC(Some(dest), Some(comp), Some(jump)).value;
    var c, d, j := CompCode(comp).value, DestCode(dest).value, JumpCode(jump).value;
    assert w == "111" + c + d + j;
    assert w[3..10] == c;
    assert w[10..13] == d;
    assert w[13..] == j;
  }

  // ---------------------------------------------------------------------------
  // Reading a word back

  /** The computation whose code is `bits`, if any: the table read backwards. */
  function CompOf(bits: string): (r: Option<string>)
    ensures r.Some? ==> CompCode(r.value) == Some(bits)
  {
    match bits
    case "0101010" => Some("0")
    case "0111111" => Some("1")
    case "0001100" => Some("D")
    case "0110000" => Some("A")
    case "1110000" => Some("M")
    case "0111110" => Some("-1")
    case "0001101" => Some("!D")
    case "0110001" => Some("!A")
    case "1110001" => Some("!M")
    case "0001111" => Some("-D")
    case "0110011" => Some("-A")
    case "1110011" => Some("-M")
    case "0011111" => Some("D+1")
    case "0110111" => Some("A+1")
    case "1110111" => Some("M+1")
    case "0001110" => Some("D-1")
    case "0110010" => Some("A-1")
    case "0000010" => Some("D+A")
    case "0010011" => Some("D-A")
    case "0000111" => Some("A-D")
    case "0000000" => Some("D&A")
    case "0010101" => Some("D|A")
    case "1110010" => Some("M-1")
    case "1000010" => Some("D+M")
    case "1010011" => Some("D-M")
    case "1000111" => Some("M-D")
    case "1000000" => Some("D&M")
    case "1010101" => Some("D|M")
    case _ => None
  }

  /** Reading the table backwards undoes reading it forwards. */
  lemma CompOfCode(c: string)
    requires CompCode(c).Some?
    ensures CompOf(CompCode(c).value) == Some(c)
  {
  }

  /** The computation table is defined exactly on the listed mnemonics. */
  lemma CompDomain(c: string)
    ensures CompCode(c).Some? <==> c in CompMnemonics
  {
  }

  /** No two computations share a code, so a code names one computation. */
  lemma CompInjective(a: string, b: string)
    requires CompCode(a).Some? && CompCode(a) == CompCode(b)
    ensures a == b
  {
    CompOfCode(a);
    CompOfCode(b);
  }

  /** No two destinations share a code. */
  lemma DestInjective(a: string, b: string)
    requires DestCode(a).Some? && DestCode(a) == DestCode(b)
    ensures a == b
  {
  }

  /** No two jumps share a code. */
  lemma JumpInjective(a: string, b: string)
    requires JumpCode(a).Some? && JumpCode(a) == JumpCode(b)
    ensures a == b
  {
  }

  /** Reading the computation bits of a full C word gives back its computation. */
  lemma CompRoundTrip(dest: string, comp: string, jump: string)
    requires DecodeC(Some(dest), Some(comp), Some(jump)).Ok?
    ensures CompOf(DecodeC(Some(dest), Some(comp), Some(jump)).value[3..10]) == Some(comp)
  {
    DecodeCFields(dest, comp, jump);
    CompOfCode(comp);
  }

  /** The ten computations that read M. */
  lemma MForms(c: string)
    requires CompCode(c).Some? && 'M' in c
    ensures c in ["M", "!M", "-M", "M+1", "M-1", "D+M", "D-M", "M-D", "D&M", "D|M"]
  {
    assert CompCode(c).value[0] == '1';
  }

  /** An M-form computation has the code of its A-form with the `a` bit set: the same
      operation, on M instead of A. */
  lemma MForm(c: string)
    requires CompCode(c).Some? && 'M' in c
    ensures CompCode(MToA(c)).Some?
    ensures CompCode(c).value == "1" + CompCode(MToA(c)).value[1..]
  {
    MForms(c);
    if c == "M" {
      MFormM();
    } else if c == "!M" {
      MFormNotM();
    } else if c == "-M" {
      MFormNegM();
    } else if c == "M+1" {
      MFormMPlusOne();
    } else if c == "M-1" {
      MFormMMinusOne();
    } else if c == "D+M" {
      MFormDPlusM();
    } else if c == "D-M" {
      MFormDMinusM();
    } else if c == "M-D" {
      MFormMMinusD();
    } else if c == "D&M" {
      MFormDAndM();
    } else {
      MFormDOrM();
    }
  }

  // One lemma per M-form keeps each table evaluation in a proof of its own.
  lemma MFormM()
    ensures MToA("M") == "A" && CompCode("A").Some?
    ensures CompCode("M").value == "1" + CompCode("A").value[1..]
  {
  }

  lemma MFormNotM()
    ensures MToA("!M") == "!A" && CompCode("!A").Some?
    ensures CompCode("!M").value == "1" + CompCode("!A").value[1..]
  {
  }

  lemma MFormNegM()
    ensures MToA("-M") == "-A" && CompCode("-A").Some?
    ensures CompCode("-M").value == "1" + CompCode("-A").value[1..]
  {
  }

  lemma MFormMPlusOne()
    ensures MToA("M+1") == "A+1" && CompCode("A+1").Some?
    ensures CompCode("M+1").value == "1" + CompCode("A+1").value[1..]
  {
  }

  lemma MFormMMinusOne()
    ensures MToA("M-1") == "A-1" && CompCode("A-1").Some?
    ensures CompCode("M-1").value == "1" + CompCode("A-1").value[1..]
  {
  }

  lemma MFormDPlusM()
    ensures MToA("D+M") == "D+A" && CompCode("D+A").Some?
    ensures CompCode("D+M").value == "1" + CompCode("D+A").value[1..]
  {
  }

  lemma MFormDMinusM()
    ensures MToA("D-M") == "D-A" && CompCode("D-A").Some?
    ensures CompCode("D-M").value == "1" + CompCode("D-A").value[1..]
  {
  }

  lemma MFormMMinusD()
    ensures MToA("M-D") == "A-D" && CompCode("A-D").Some?
    ensures CompCode("M-D").value == "1" + CompCode("A-D").value[1..]
  {
  }

  lemma MFormDAndM()
    ensures MToA("D&M") == "D&A" && CompCode("D&A").Some?
    ensures CompCode("D&M").value == "1" + CompCode("D&A").value[1..]
  {
  }

  lemma MFormDOrM()
    ensures MToA("D|M") == "D|A" && CompCode("D|A").Some?
    ensures CompCode("D|M").value == "1" + CompCode("D|A").value[1..]
  {
  }

  // ---------------------------------------------------------------------------
  // decode

  /** What `decode` writes for one instruction: nothing for an L instruction, and the
      word of an A or C instruction (or the error that stops it). */
  function Encoded(inst: Instruction): Option<Result<string, DecodeError>>
  {
    match inst
    case A(_, _, a) => Some(DecodeA(a))
    case L(_, _) => None
    case C(_, d, c, j) => Some(DecodeC(d, c, j))
  }

  /** `text` in front of the output; an error stays as it is. */
  function PrependText(text: string, r: Result<string, DecodeError>): Result<string, DecodeError>
  {
    match r
    case Ok(s) => Ok(text + s)
    case Err(e) => Err(e)
  }

  /** What `decode` computes: each word followed by a newline, in the order of the
      instructions, or the error of the first instruction that cannot be decoded. */
  function DecodeAll(insts: seq<Instruction>): Result<string, DecodeError>
    decreases |insts|
  {
    if insts == [] then Ok("")
    else match Encoded(insts[0])
      case None => DecodeAll(insts[1..])
      case Some(Err(e)) => Err(e)
      case Some(Ok(w)) => PrependText(w + "\n", DecodeAll(insts[1..]))
  }

  /** An A or C instruction that does not encode. A label never fails: it emits nothing. */
  predicate Fails(inst: Instruction)
  {
    Encoded(inst).Some? && Encoded(inst).value.Err?
  }

  /** Instruction `k` fails with `e`, and every instruction before it encodes. */
  predicate FirstFailure(insts: seq<Instruction>, k: nat, e: DecodeError)
  {
    k < |insts| && Encoded(insts[k]) == Some(Err(e)) && forall m :: 0 <= m < k ==> !Fails(insts[m])
  }

  /** `decode` succeeds exactly when every instruction encodes; otherwise its error is
      that of the first instruction that does not. */
  lemma {:induction false} DecodeAllResult(insts: seq<Instruction>)
    ensures DecodeAll(insts).Ok? <==> forall k :: 0 <= k < |insts| ==> !Fails(insts[k])
    ensures DecodeAll(insts).Err? ==> exists k :: FirstFailure(insts, k, DecodeAll(insts).error)
    decreases |insts|
  {
    if insts != [] {
      var tail := insts[1..];
      DecodeAllResult(tail);
      assert forall k :: 1 <= k < |insts| ==> insts[k] == tail[k - 1];
      if Fails(insts[0]) {
        assert FirstFailure(insts, 0, DecodeAll(insts).error);
      } else if DecodeAll(insts).Err? {
        assert DecodeAll(tail).Err? && DecodeAll(insts).error == DecodeAll(tail).error;
        var k: nat :| FirstFailure(tail, k, DecodeAll(tail).error);
        assert FirstFailure(insts, k + 1, DecodeAll(insts).error);
      }
    }
  }

  /** `decode`: a loop that appends one newline-terminated word per A or C instruction. */
  method Decode(assembly: seq<Instruction>) returns (r: Result<string, DecodeError>)
    ensures r == DecodeAll(assembly)
  {
    var decoded := "";
    assert assembly[0..] == assembly;
    PrependEmpty(DecodeAll(assembly));
    for i := 0 to |assembly|
      invariant DecodeAll(assembly) == PrependText(decoded, DecodeAll(assembly[i..]))
    {
      assert assembly[i..][1..] == assembly[i + 1..];
      match assembly[i]
      case A(_, _, a) =>
        var word := DecodeA(a);
        if word.Err? {
          return Err(word.error);
        }
        PrependTextTwice(decoded, word.value + "\n", DecodeAll(assembly[i + 1..]));
        decoded := decoded + (word.value + "\n");
      case C(_, d, c, j) =>
        var word := DecodeC(d, c, j);
        if word.Err? {
          return Err(word.error);
        }
        PrependTextTwice(decoded, word.value + "\n", DecodeAll(assembly[i + 1..]));
        decoded := decoded + (word.value + "\n");
      case L(_, _) =>
    }
    assert assembly[|assembly|..] == [];
    assert decoded + "" == decoded;
    return Ok(decoded);
  }

  lemma PrependEmpty(r: Result<string, DecodeError>)
    ensures PrependText("", r) == r
  {
    if r.Ok? {
      assert "" + r.value == r.value;
    }
  }

  lemma PrependTextTwice(p: string, q: string, r: Result<string, DecodeError>)
    ensures PrependText(p, PrependText(q, r)) == PrependText(p + q, r)
  {
    if r.Ok? {
      assert p + (q + r.value) == (p + q) + r.value;
    }
  }

  // ---------------------------------------------------------------------------
  // The lines of the output

  /** The instructions that produce output, in order. */
  function Emitting(insts: seq<Instruction>): (r: seq<Instruction>)
    ensures |r| <= |insts|
    ensures forall k :: 0 <= k < |r| ==> !r[k].L?
    decreases |insts|
  {
    if insts == [] then []
    else (if insts[0].L? then [] else [insts[0]]) + Emitting(insts[1..])
  }

  /** Each word followed by a newline. */
  function Terminated(ws: seq<string>): string
    decreases |ws|
  {
    if ws == [] then "" else ws[0] + "\n" + Terminated(ws[1..])
  }

  /** The words of the emitting instructions, when they all decode. Every use is under
      `DecodeAll(insts).Ok?`, where no instruction fails (`DecodeAllResult`); the empty
      word for a failing one only keeps the function total. */
  function Words(insts: seq<Instruction>): seq<string>
    decreases |insts|
  {
    if insts == [] then []
    else match Encoded(insts[0])
      case Some(Ok(w)) => [w] + Words(insts[1..])
      case Some(Err(_)) => [""] + Words(insts[1..])
      case None => Words(insts[1..])
  }

  /** When `decode` succeeds, its output is the words of the emitting instructions, in
      order, each followed by a newline. */
  lemma {:induction false} DecodeAllWords(insts: seq<Instruction>)
    requires DecodeAll(insts).Ok?
    ensures DecodeAll(insts).value == Terminated(Words(insts))
    decreases |insts|
  {
    if insts != [] {
      DecodeAllWords(insts[1..]);
      if Encoded(insts[0]).Some? {
        var w := Encoded(insts[0]).value.value;
        assert ([w] + Words(insts[1..]))[1..] == Words(insts[1..]);
      }
    }
  }

  /** When `decode` succeeds, there is one word per emitting instruction, and it is the
      word of that instruction. */
  lemma WordsEmitting(insts: seq<Instruction>)
    requires DecodeAll(insts).Ok?
    ensures |Words(insts)| == |Emitting(insts)|
    ensures forall k :: 0 <= k < |Emitting(insts)| ==> Encoded(Emitting(insts)[k]) == Some(Ok(Words(insts)[k]))
  {
    WordsCount(insts);
    forall k | 0 <= k < |Emitting(insts)| ensures Encoded(Emitting(insts)[k]) == Some(Ok(Words(insts)[k])) {
      WordAt(insts, k);
    }
  }

  /** One word per emitting instruction. */
  lemma {:induction false} WordsCount(insts: seq<Instruction>)
    ensures |Words(insts)| == |Emitting(insts)|
    decreases |insts|
  {
    if insts != [] {
      WordsCount(insts[1..]);
    }
  }

  /** The `k`-th word is the word of the `k`-th emitting instruction. */
  lemma {:induction false} WordAt(insts: seq<Instruction>, k: nat)
    requires DecodeAll(insts).Ok? && k < |Emitting(insts)| && k < |Words(insts)|
    ensures Encoded(Emitting(insts)[k]) == Some(Ok(Words(insts)[k]))
    decreases |insts|
  {
    var tail := insts[1..];
    WordsCount(tail);
    if insts[0].L? {
      assert Emitting(insts) == Emitting(tail);
      WordAt(tail, k);
    } else if k > 0 {
      assert Emitting(insts)[k] == Emitting(tail)[k - 1];
      WordsTail(insts);
      WordAt(tail, k - 1);
    }
  }

  /** After an emitting instruction come the words of the instructions after it. */
  lemma WordsTail(insts: seq<Instruction>)
    requires insts != [] && !insts[0].L? && DecodeAll(insts).Ok?
    ensures |Words(insts)| == |Words(insts[1..])| + 1
    ensures forall k :: 1 <= k < |Words(insts)| ==> Words(insts)[k] == Words(insts[1..])[k - 1]
  {
  }

  /** Every word `decode` writes is made of binary digits. */
  lemma EncodedBits(inst: Instruction)
    requires Encoded(inst).Some? && Encoded(inst).value.Ok?
    ensures AllBits(Encoded(inst).value.value)
  {
  }

  /** Newline-terminated words that hold no newline read back, with `str::lines`, as
      the words. */
  lemma {:induction false} TerminatedLines(ws: seq<string>)
    requires forall k :: 0 <= k < |ws| ==> '\n' !in ws[k]
    ensures Lines(Terminated(ws)) == ws
  {
    var parts := ws + [""];
    TerminatedJoin(ws);
    forall k | 0 <= k < |parts| ensures '\n' !in parts[k] {
      if k < |ws| {
        assert parts[k] == ws[k];
      }
    }
    SplitJoin(parts, '\n');
    assert Split(Terminated(ws), "\n") == parts;
    assert parts[..|parts| - 1] == ws;
  }

  /** Newline-terminated words are the words joined by newlines, with one empty piece
      after the last newline. */
  lemma {:induction false} TerminatedJoin(ws: seq<string>)
    ensures Terminated(ws) == Join(ws + [""], "\n")
    decreases |ws|
  {
    if ws != [] {
      TerminatedJoin(ws[1..]);
      assert (ws + [""])[1..] == ws[1..] + [""];
    }
  }

  /** The output of a successful `decode` has one line per A or C instruction, in
      order, each the binary word of that instruction; L instructions contribute no
      line. */
  lemma DecodeLines(insts: seq<Instruction>)
    requires DecodeAll(insts).Ok?
    ensures var out := DecodeAll(insts).value;
      |Lines(out)| == |Emitting(insts)|
      && forall k :: 0 <= k < |Emitting(insts)| ==> Encoded(Emitting(insts)[k]) == Some(Ok(Lines(out)[k]))
  {
    DecodeAllWords(insts);
    WordsEmitting(insts);
    var ws, e := Words(insts), Emitting(insts);
    forall k, i | 0 <= k < |ws| && 0 <= i < |ws[k]| ensures ws[k][i] != '\n' {
      EncodedBits(e[k]);
      assert IsBit(ws[k][i]);
    }
    TerminatedLines(ws);
  }
}
