/** The tables of src/code.rs: the computation table in its six-bit form (the `c` bits
    only), the destination and jump tables, and the layout of the two kinds of word.
    The decoder of src/lib.rs carries its own copies; the lemmas here say that the two
    agree. */
module Code {
  import opened Wrappers
  import opened Numerals
  import opened Decoder

  /** The six `c` bits of each computation on A or D. */
  function Comp(c: string): (r: Option<string>)
    ensures r.Some? ==> |r.value| == 6 && AllBits(r.value)
  {
    match c
    case "0" => Some("101010")
    case "1" => Some("111111")
    case "-1" => Some("111110")
    case "D" => Some("001100")
    case "A" => Some("110000")
    case "!D" => Some("001101")
    case "!A" => Some("110001")
    case "-D" => Some("001111")
    case "-A" => Some("110011")
    case "D+1" => Some("011111")
    case "A+1" => Some("110111")
    case "D-1" => Some("001110")
    case "A-1" => Some("110010")
    case "D+A" => Some("000010")
    case "D-A" => Some("010011")
    case "A-D" => Some("000111")
    case "D&A" => Some("000000")
    case "D|A" => Some("010101")
    case _ => None
  }

  /** The three `d` bits: A, D, M from left to right. */
  function Dest(d: string): (r: Option<string>)
    ensures r.Some? ==> |r.value| == 3 && AllBits(r.value) && r.value != "000"
    ensures r.Some? ==> (r.value[0] == '1' <==> 'A' in d) && (r.value[1] == '1' <==> 'D' in d)
                        && (r.value[2] == '1' <==> 'M' in d)
  {
    match d
    case "M" => Some("001")
    case "D" => Some("010")
    case "MD" => Some("011")
    case "A" => Some("100")
    case "AM" => Some("101")
    case "AD" => Some("110")
    case "AMD" => Some("111")
    case _ => None
  }

  /** The three `j` bits. */
  function Jump(j: string): (r: Option<string>)
    ensures r.Some? ==> |r.value| == 3 && AllBits(r.value) && r.value != "000"
  {
    match j
    case "JGT" => Some("001")
    case "JEQ" => Some("010")
    case "JGE" => Some("011")
    case "JLT" => Some("100")
    case "JNE" => Some("101")
    case "JLE" => Some("110")
    case "JMP" => Some("111")
    case _ => None
  }

  const CompNames: seq<string> := [
    "0", "1", "-1", "D", "A", "!D", "!A", "-D", "-A", "D+1", "A+1", "D-1", "A-1", "D+A",
    "D-A", "A-D", "D&A", "D|A"]

  const DestNames: seq<string> := ["M", "D", "MD", "A", "AM", "AD", "AMD"]

  const JumpNames: seq<string> := ["JGT", "JEQ", "JGE", "JLT", "JNE", "JLE", "JMP"]

  predicate Distinct(names: seq<string>)
  {
    forall i, j :: 0 <= i < j < |names| ==> names[i] != names[j]
  }

  /** The computation table has 18 distinct entries, and it is defined exactly on them. */
  lemma CompEntries(c: string)
    ensures |CompNames| == 18 && Distinct(CompNames)
    ensures Comp(c).Some? <==> c in CompNames
  {
  }

  /** The destination table has 7 distinct entries, and it is defined exactly on them. */
  lemma DestEntries(d: string)
    ensures |DestNames| == 7 && Distinct(DestNames)
    ensures Dest(d).Some? <==> d in DestNames
  {
  }

  /** The jump table has 7 distinct entries, and it is defined exactly on them. */
  lemma JumpEntries(j: string)
    ensures |JumpNames| == 7 && Distinct(JumpNames)
    ensures Jump(j).Some? <==> j in JumpNames
  {
  }

  /** The seven-bit code the decoder gives a computation on A or D is a clear `a` bit
      followed by this table's six bits, and every computation of the decoder that
      does not read M is in this table. */
  lemma CompAgrees(c: string)
    ensures Comp(c).Some? ==> CompCode(c) == Some("0" + Comp(c).value)
    ensures CompCode(c).Some? && 'M' !in c ==> Comp(c).Some?
  {
    if Comp(c).Some? {
      CompBits(c);
      assert CompCode(c).value == "0" + Comp(c).value;
    }
  }

  /** `CompAgrees`, bit by bit. */
  lemma CompBits(c: string)
    requires Comp(c).Some?
    ensures CompCode(c).Some? && CompCode(c).value[0] == '0'
    ensures forall i :: 0 <= i < 6 ==> CompCode(c).value[i + 1] == Comp(c).value[i]
  {
  }

  /** The decoder's destination table is this one. */
  lemma DestAgrees(d: string)
    ensures DestCode(d) == Dest(d)
  {
  }

  /** The decoder's jump table is this one. */
  lemma JumpAgrees(j: string)
    ensures JumpCode(j) == Jump(j)
  {
  }

  /** No two computations share their six bits. */
  lemma CompDistinct(a: string, b: string)
    requires Comp(a).Some? && Comp(a) == Comp(b)
    ensures a == b
  {
    CompAgrees(a);
    CompAgrees(b);
    CompInjective(a, b);
  }

  /** No two destinations share a code. */
  lemma DestDistinct(a: string, b: string)
    requires Dest(a).Some? && Dest(a) == Dest(b)
    ensures a == b
  {
    DestAgrees(a);
    DestAgrees(b);
    DestInjective(a, b);
  }

  /** No two jumps share a code. */
  lemma JumpDistinct(a: string, b: string)
    requires Jump(a).Some? && Jump(a) == Jump(b)
    ensures a == b
  {
    JumpAgrees(a);
    JumpAgrees(b);
    JumpInjective(a, b);
  }

  /** A computation without M is its own A-form. */
  lemma MToAWithoutM(c: string)
    requires 'M' !in c
    ensures MToA(c) == c
  {
    assert forall i :: 0 <= i < |c| ==> MToA(c)[i] == c[i];
  }

  /** The layout of a C word: `1 1 1 a c1..c6 d1 d2 d3 j1 j2 j3`, where `a` says whether
      the computation reads M, `c1..c6` are the six bits of the computation on A, and
      the `d` and `j` bits are those of the destination and jump tables. */
  lemma CWordLayout(dest: string, comp: string, jump: string)
    requires DecodeC(Some(dest), Some(comp), Some(jump)).Ok?
    ensures |DecodeC(Some(dest), Some(comp), Some(jump)).value| == 16
    ensures DecodeC(Some(dest), Some(comp), Some(jump)).value[..3] == "111"
    ensures DecodeC(Some(dest), Some(comp), Some(jump)).value[3] == if 'M' in comp then '1' else '0'
    ensures Comp(MToA(comp)).Some?
            && DecodeC(Some(dest), Some(comp), Some(jump)).value[4..10] == Comp(MToA(comp)).value
    ensures Dest(dest).Some? && DecodeC(Some(dest), Some(comp), Some(jump)).value[10..13] == Dest(dest).value
    ensures Jump(jump).Some? && DecodeC(Some(dest), Some(comp), Some(jump)).value[13..] == Jump(jump).value
  {
    var w := DecodeC(Some(dest), Some(comp), Some(jump)).value;
    DecodeCFields(dest, comp, jump);
    DestAgrees(dest);
    JumpAgrees(jump);
    if 'M' in comp {
      MForm(comp);
      CompAgrees(MToA(comp));
      assert w[3..10] == "1" + Comp(MToA(comp)).value;
    } else {
      MToAWithoutM(comp);
      CompAgrees(comp);
      assert w[3..10] == "0" + Comp(comp).value;
    }
    assert w[4..10] == w[3..10][1..];
  }

  /** The layout of an A word: `0` followed by the fifteen bits of an address below
      2^15. */
  lemma AWordLayout(n: nat)
    requires n < Pow2(15)
    ensures DecodeA(Some(n)).Ok? && |DecodeA(Some(n)).value| == 16
    ensures DecodeA(Some(n)).value[0] == '0'
    ensures AllBits(DecodeA(Some(n)).value[1..]) && BitsValue(DecodeA(Some(n)).value[1..]) == n
  {
    var w := DecodeA(Some(n)).value;
    var tail := w[1..];
    assert AllBits(tail);
    assert w == Zeros(1) + tail;
    LeadingZeros(1, tail);
  }
}
