/** The five-bit boolean operations of the tkinter front ends
    (`boolean_operations` in K4tools.py and main.py, identical in both):
    each capital is written as the five binary digits of its place in the
    alphabet counted from 1, the two digit strings are combined digit by
    digit, and the result is read back five digits at a time, falling back
    to the first input's letter where the five digits name no letter. */
module FiveBit {
  import opened Wrappers
  import opened Text
  import opened Seqs

  // ---------------------------------------------------------------------
  // Binary digits and their value
  // ---------------------------------------------------------------------

  predicate IsBit(c: char) { c == '0' || c == '1' }

  function Pow2(n: nat): (p: nat)
    ensures p >= 1
  {
    if n == 0 then 1 else 2 * Pow2(n - 1)
  }

  /** The `width` low binary digits of `v`, most significant first. */
  function Bits(v: nat, width: nat): (r: string)
    ensures |r| == width
    ensures forall i :: 0 <= i < width ==> IsBit(r[i])
  {
    if width == 0 then []
    else Bits(v / 2, width - 1) + [if v % 2 == 1 then '1' else '0']
  }

  /** `int(b, 2)` for a string of binary digits. */
  function Value(b: string): (v: nat)
    ensures v < Pow2(|b|)
  {
    if |b| == 0 then 0
    else 2 * Value(b[..|b| - 1]) + (if b[|b| - 1] == '1' then 1 else 0)
  }

  lemma Halves(q: nat, d: nat)
    requires d < 2
    ensures (2 * q + d) / 2 == q && (2 * q + d) % 2 == d
  {
  }

  /** Reading the digits back gives the number. */
  lemma {:induction false} ValueBits(v: nat, width: nat)
    requires v < Pow2(width)
    ensures Value(Bits(v, width)) == v
  {
    if width > 0 {
      var b := Bits(v, width);
      assert b[..width - 1] == Bits(v / 2, width - 1);
      ValueBits(v / 2, width - 1);
    }
  }

  /** Writing the value of a digit string gives the string back. */
  lemma {:induction false} BitsValue(b: string)
    requires forall i :: 0 <= i < |b| ==> IsBit(b[i])
    ensures Bits(Value(b), |b|) == b
  {
    if |b| > 0 {
      var init := b[..|b| - 1];
      var d := if b[|b| - 1] == '1' then 1 else 0;
      Halves(Value(init), d);
      BitsValue(init);
      assert b == init + [b[|b| - 1]];
    }
  }

  /** Equal widths and equal values give equal digit strings. */
  lemma BitsInjective(v: nat, w: nat, width: nat)
    requires v < Pow2(width) && w < Pow2(width) && Bits(v, width) == Bits(w, width)
    ensures v == w
  {
    ValueBits(v, width);
    ValueBits(w, width);
  }

  // ---------------------------------------------------------------------
  // The letter table
  // ---------------------------------------------------------------------

  /** A capital's place in the alphabet, counted from 1. */
  function Ord(c: char): (v: nat)
    requires IsUpper(c)
    ensures 1 <= v <= 26
  {
    c as int - 64
  }

  /** The capital at place `v`, counted from 1. */
  function Letter(v: nat): (c: char)
    requires 1 <= v <= 26
    ensures IsUpper(c) && Ord(c) == v
  {
    (64 + v) as char
  }

  /** `ascii_dict[c]`: five binary digits. */
  function Code(c: char): (r: string)
    requires IsUpper(c)
    ensures |r| == 5
  {
    Bits(Ord(c), 5)
  }

  /** The digits of a code are binary digits whose value is the letter's
      place. */
  lemma CodeValue(c: char)
    requires IsUpper(c)
    ensures Value(Code(c)) == Ord(c)
    ensures forall i :: 0 <= i < 5 ==> IsBit(Code(c)[i])
  {
    ValueBits(Ord(c), 5);
  }

  /** The table is `boolean_operations`' written-out dictionary, from `'A': '00001'`
      to `'Z': '11010'`; the first and last entries, for instance. */
  lemma CodeFirst()
    ensures Code('A') == "00001"
  {
    assert Bits(1, 5) == Bits(0, 4) + "1";
  }

  lemma CodeLast()
    ensures Code('Z') == "11010"
  {
    assert Bits(26, 5) == Bits(13, 4) + "0";
    assert Bits(13, 4) == Bits(6, 3) + "1";
    assert Bits(6, 3) == Bits(3, 2) + "0";
  }

  /** Distinct capitals have distinct codes. */
  lemma CodeInjective(x: char, y: char)
    requires IsUpper(x) && IsUpper(y) && Code(x) == Code(y)
    ensures x == y
  {
    CodeValue(x);
    CodeValue(y);
  }

  /** `next(key for key, value in ascii_dict.items() if value == chunk)`,
      the keys tried in dictionary order from `c` on. */
  function KeyOf(chunk: string, c: char): (r: Option<char>)
    requires IsUpper(c)
    ensures r.Some? ==> IsUpper(r.value) && c <= r.value && Code(r.value) == chunk
    decreases 'Z' as int - c as int
  {
    if Code(c) == chunk then Some(c)
    else if c == 'Z' then None
    else KeyOf(chunk, (c as int + 1) as char)
  }

  /** The search finds every capital by its own code. */
  lemma {:induction false} KeyOfCode(x: char, c: char)
    requires IsUpper(x) && IsUpper(c) && c <= x
    ensures KeyOf(Code(x), c) == Some(x)
    decreases x as int - c as int
  {
    if c != x {
      if Code(c) == Code(x) {
        CodeInjective(c, x);
      }
      KeyOfCode(x, (c as int + 1) as char);
    }
  }

  /** `chunk in ascii_dict.values()`. */
  function InValues(chunk: string): (b: bool)
    ensures b <==> exists c :: IsUpper(c) && Code(c) == chunk
  {
    var r := KeyOf(chunk, 'A');
    if r.None? then
      assert forall c :: IsUpper(c) ==> Code(c) != chunk by {
        forall c | IsUpper(c) ensures Code(c) != chunk {
          if Code(c) == chunk {
            KeyOfCode(c, 'A');
          }
        }
      }
      false
    else true
  }

  /** Five digits name a letter exactly when their value is 1 to 26. */
  lemma InValuesRange(chunk: string)
    requires |chunk| == 5 && forall i :: 0 <= i < 5 ==> IsBit(chunk[i])
    ensures InValues(chunk) <==> 1 <= Value(chunk) <= 26
    ensures InValues(chunk) ==> KeyOf(chunk, 'A') == Some(Letter(Value(chunk)))
  {
    if InValues(chunk) {
      CodeValue(KeyOf(chunk, 'A').value);
    }
    if 1 <= Value(chunk) <= 26 {
      var c := Letter(Value(chunk));
      BitsValue(chunk);
      assert Code(c) == Bits(Value(chunk), 5) == chunk;
      KeyOfCode(c, 'A');
    }
  }

  // ---------------------------------------------------------------------
  // The operations
  // ---------------------------------------------------------------------

  datatype Operation = Xor | And | Or | Not | Nor | Nand

  /** The operation chosen in the menu; any other name gives an empty
      result. */
  function ParseOperation(op: string): (r: Option<Operation>)
    ensures r.Some? <==> op in ["XOR", "AND", "OR", "NOT", "NOR", "NAND"]
  {
    if op == "XOR" then Some(Xor)
    else if op == "AND" then Some(And)
    else if op == "OR" then Some(Or)
    else if op == "NOT" then Some(Not)
    else if op == "NOR" then Some(Nor)
    else if op == "NAND" then Some(Nand)
    else None
  }

  /** One result digit, from the two digits as characters, as each
      comprehension of `boolean_operations` writes it. */
  function DigitOf(op: Operation, x: char, y: char): (d: char)
    ensures IsBit(d)
  {
    match op
    case Xor => if x != y then '1' else '0'
    case And => if x == '1' && y == '1' then '1' else '0'
    case Or => if x == '1' || y == '1' then '1' else '0'
    case Not => if x == '0' then '1' else '0'
    case Nor => if x == '1' || y == '1' then '0' else '1'
    case Nand => if x == '1' && y == '1' then '0' else '1'
  }

  /** The digit-by-digit combination of two digit strings over `zip`'s
      length. */
  function Zip(op: Operation, b1: string, b2: string): (r: string)
    ensures |r| == Min(|b1|, |b2|)
    ensures forall i :: 0 <= i < |r| ==> r[i] == DigitOf(op, b1[i], b2[i])
  {
    seq(Min(|b1|, |b2|), i requires 0 <= i < Min(|b1|, |b2|) => DigitOf(op, b1[i], b2[i]))
  }

  /** `result_binary`: `NOT` reads the first string alone, over its whole
      length. */
  function Combine(op: Operation, b1: string, b2: string): (r: string)
    ensures op == Not ==> |r| == |b1|
    ensures op != Not ==> |r| == Min(|b1|, |b2|)
    ensures forall i :: 0 <= i < |r| ==> r[i] == DigitOf(op, b1[i], if op == Not then b1[i] else b2[i])
  {
    if op == Not then seq(|b1|, i requires 0 <= i < |b1| => DigitOf(Not, b1[i], b1[i]))
    else Zip(op, b1, b2)
  }

  /** The `j`-th group of five digits of `s`. */
  function Chunk(s: string, j: nat): (r: string)
    requires 5 * j + 5 <= |s|
    ensures |r| == 5 && forall b :: 0 <= b < 5 ==> r[b] == s[5 * j + b]
  {
    s[5 * j..5 * j + 5]
  }

  /** `''.join(ascii_dict[char] for char in text)`: a character outside
      the table raises `KeyError`. */
  function Encode(text: string): (r: Result<string>)
    ensures r.Ok? <==> forall j :: 0 <= j < |text| ==> IsUpper(text[j])
    ensures r.Err? ==> r.failure == KeyError
    ensures r.Ok? ==> |r.value| == 5 * |text|
    ensures r.Ok? ==> forall j, b :: 0 <= j < |text| && 0 <= b < 5 ==> r.value[5 * j + b] == Code(text[j])[b]
  {
    if |text| == 0 then Ok([])
    else
      var n := |text| - 1;
      match Encode(text[..n])
      case Err(e) => Err(e)
      case Ok(b) =>
        if !IsUpper(text[n]) then Err(KeyError)
        else Ok(b + Code(text[n]))
  }

  /** `next(...)` for the fallback: the letter whose code is `chunk`. */
  function Next(chunk: string): (r: Result<char>)
    ensures r.Err? ==> r.failure == StopIteration
  {
    match KeyOf(chunk, 'A')
    case None => Err(StopIteration)
    case Some(c) => Ok(c)
  }

  /** One output letter: all zeros or all ones, or five digits naming no
      letter, give the letter of the first input's five digits. */
  function DecodeChunk(chunk: string, fallback: string): (r: Result<char>)
    ensures r.Err? ==> r.failure == StopIteration
  {
    if chunk == "00000" || chunk == "11111" then Next(fallback)
    else if InValues(chunk) then Next(chunk)
    else Next(fallback)
  }

  /** The body of the loop over `range(0, len(result_binary), 5)`: the
      letter, or the failure, for each of the `n` groups of five digits. */
  function Steps(rb: string, b1: string, n: nat): (rs: seq<Result<char>>)
    requires |rb| == 5 * n && |rb| <= |b1|
    ensures |rs| == n
  {
    seq(n, j requires 0 <= j < n => DecodeChunk(Chunk(rb, j), Chunk(b1, j)))
  }

  /** `boolean_operations`: both inputs are encoded (either may raise
      `KeyError`), combined, and read back. */
  function BooleanOperations(op: string, cypher: string, dictionary: string): (r: Result<string>)
  {
    match (Encode(cypher), Encode(dictionary))
    case (Err(e), _) => Err(e)
    case (_, Err(e)) => Err(e)
    case (Ok(b1), Ok(b2)) =>
      var rb := if ParseOperation(op).Some? then Combine(ParseOperation(op).value, b1, b2) else [];
      // `result_binary` is whole groups of five: one per letter read
      var groups := match ParseOperation(op)
                    case None => 0
                    case Some(Not) => |cypher|
                    case Some(_) => Min(|cypher|, |dictionary|);
      Collect(Steps(rb, b1, groups))
  }

  // ---------------------------------------------------------------------
  // A numeric reference
  // ---------------------------------------------------------------------

  /** The operation on single bits, as arithmetic. */
  function BitOf(op: Operation, x: nat, y: nat): (z: nat)
    requires x < 2 && y < 2
    ensures z < 2
  {
    match op
    case Xor => (x + y) % 2
    case And => x * y
    case Or => x + y - x * y
    case Not => 1 - x
    case Nor => 1 - (x + y - x * y)
    case Nand => 1 - x * y
  }

  /** The operation on the `w` low bits of two numbers. */
  function Apply(op: Operation, a: nat, b: nat, w: nat): (r: nat)
    ensures r < Pow2(w)
  {
    if w == 0 then 0
    else 2 * Apply(op, a / 2, b / 2, w - 1) + BitOf(op, a % 2, b % 2)
  }

  /** The letter a pair of letters gives: a result from 1 to 26 names a
      letter, anything else (0, 27 to 31) keeps the first letter. */
  function LetterRef(op: Operation, c1: char, c2: char): (r: char)
    requires IsUpper(c1) && IsUpper(c2)
    ensures IsUpper(r)
  {
    var v := Apply(op, Ord(c1), Ord(c2), 5);
    if 1 <= v <= 26 then Letter(v) else c1
  }

  /** What `boolean_operations` shows for capitals only: `NOT` reads the
      first input over its length, the others both inputs over the
      shorter length, an unknown operation gives nothing. */
  function Reference(op: Option<Operation>, cypher: string, dictionary: string): (r: string)
    requires AllUpper(cypher) && AllUpper(dictionary)
  {
    match op
    case None => []
    case Some(Not) => seq(|cypher|, j requires 0 <= j < |cypher| => LetterRef(Not, cypher[j], cypher[j]))
    case Some(o) =>
      seq(Min(|cypher|, |dictionary|),
          j requires 0 <= j < Min(|cypher|, |dictionary|) => LetterRef(o, cypher[j], dictionary[j]))
  }

  // ---------------------------------------------------------------------
  // The digit strings agree with the reference
  // ---------------------------------------------------------------------

  function Bit(c: char): nat
  {
    if c == '1' then 1 else 0
  }

  /** Each comprehension of `boolean_operations` computes the arithmetic bit. */
  lemma DigitBit(op: Operation, x: char, y: char)
    requires IsBit(x) && IsBit(y)
    ensures IsBit(DigitOf(op, x, y)) && Bit(DigitOf(op, x, y)) == BitOf(op, Bit(x), Bit(y))
  {
  }

  /** Two equal-length digit strings combined digit by digit. */
  function Pairwise(op: Operation, x: string, y: string): (r: string)
    requires |x| == |y|
    ensures |r| == |x|
    ensures forall i :: 0 <= i < |x| ==> r[i] == DigitOf(op, x[i], y[i])
  {
    seq(|x|, i requires 0 <= i < |x| => DigitOf(op, x[i], y[i]))
  }

  /** The last digit of `Bits(a, w)` is the low bit of `a`, and the rest
      are the digits of `a / 2`. */
  lemma BitsSplit(a: nat, w: nat)
    requires w > 0
    ensures Bits(a, w)[..w - 1] == Bits(a / 2, w - 1)
    ensures Bit(Bits(a, w)[w - 1]) == a % 2
  {
  }

  lemma PairwisePrefix(op: Operation, a: nat, b: nat, w: nat)
    requires w > 0
    ensures Pairwise(op, Bits(a, w), Bits(b, w))[..w - 1] == Pairwise(op, Bits(a / 2, w - 1), Bits(b / 2, w - 1))
  {
    BitsSplit(a, w);
    BitsSplit(b, w);
  }

  lemma {:induction false} PairwiseValue(op: Operation, a: nat, b: nat, w: nat)
    ensures Value(Pairwise(op, Bits(a, w), Bits(b, w))) == Apply(op, a, b, w)
  {
    if w > 0 {
      var x, y := Bits(a, w), Bits(b, w);
      var r := Pairwise(op, x, y);
      PairwiseValue(op, a / 2, b / 2, w - 1);
      PairwisePrefix(op, a, b, w);
      BitsSplit(a, w);
      BitsSplit(b, w);
      DigitBit(op, x[w - 1], y[w - 1]);
      assert Value(r) == 2 * Value(r[..w - 1]) + Bit(r[w - 1]);
    }
  }

  lemma ExtremeValues()
    ensures Value("00000") == 0 && Value("11111") == 31
  {
    assert "00000"[..4] == "0000" && "0000"[..3] == "000" && "000"[..2] == "00" && "00"[..1] == "0";
    assert "11111"[..4] == "1111" && "1111"[..3] == "111" && "111"[..2] == "11" && "11"[..1] == "1";
  }

  lemma NextCode(c: char)
    requires IsUpper(c)
    ensures Next(Code(c)) == Ok(c)
  {
    KeyOfCode(c, 'A');
  }

  /** The three branches of `boolean_operations` for one group of five digits give the
      reference letter. */
  lemma DecodeChunkRef(op: Operation, c1: char, c2: char)
    requires IsUpper(c1) && IsUpper(c2)
    ensures DecodeChunk(Pairwise(op, Code(c1), Code(c2)), Code(c1)) == Ok(LetterRef(op, c1, c2))
  {
    var chunk := Pairwise(op, Code(c1), Code(c2));
    PairwiseValue(op, Ord(c1), Ord(c2), 5);
    ExtremeValues();
    InValuesRange(chunk);
    NextCode(c1);
  }

  /** Group `j` of the combined digits is the two letters' codes combined. */
  lemma ChunkOfCombine(op: Operation, cypher: string, dictionary: string, j: nat)
    requires AllUpper(cypher) && AllUpper(dictionary)
    requires Encode(cypher).Ok? && Encode(dictionary).Ok?
    requires j < |cypher| && (op != Not ==> j < |dictionary|)
    ensures var b1 := Encode(cypher).value;
            var rb := Combine(op, b1, Encode(dictionary).value);
            && 5 * j + 5 <= |rb| && 5 * j + 5 <= |b1|
            && Chunk(b1, j) == Code(cypher[j])
            && Chunk(rb, j) == Pairwise(op, Code(cypher[j]), Code(if op == Not then cypher[j] else dictionary[j]))
  {
    var b1, b2 := Encode(cypher).value, Encode(dictionary).value;
    var rb := Combine(op, b1, b2);
    var c2 := if op == Not then cypher[j] else dictionary[j];
    forall b | 0 <= b < 5
      ensures b1[5 * j + b] == Code(cypher[j])[b]
      ensures rb[5 * j + b] == DigitOf(op, Code(cypher[j])[b], Code(c2)[b])
    {
    }
  }

  /** Group `j` of the output is the reference letter. */
  lemma GroupRef(o: Operation, cypher: string, dictionary: string, j: nat)
    requires AllUpper(cypher) && AllUpper(dictionary)
    requires Encode(cypher).Ok? && Encode(dictionary).Ok?
    requires j < |Reference(Some(o), cypher, dictionary)|
    ensures var b1 := Encode(cypher).value;
            var rb := Combine(o, b1, Encode(dictionary).value);
            && 5 * j + 5 <= |rb| && 5 * j + 5 <= |b1|
            && DecodeChunk(Chunk(rb, j), Chunk(b1, j)) == Ok(Reference(Some(o), cypher, dictionary)[j])
  {
    ChunkOfCombine(o, cypher, dictionary, j);
    DecodeChunkRef(o, cypher[j], if o == Not then cypher[j] else dictionary[j]);
  }

  /** For capitals only, `boolean_operations` shows the reference
      letters. */
  lemma BooleanMatchesReference(op: string, cypher: string, dictionary: string)
    requires AllUpper(cypher) && AllUpper(dictionary)
    ensures BooleanOperations(op, cypher, dictionary) == Ok(Reference(ParseOperation(op), cypher, dictionary))
  {
    if ParseOperation(op).Some? {
      var o := ParseOperation(op).value;
      var b1 := Encode(cypher).value;
      var rb := Combine(o, b1, Encode(dictionary).value);
      var ref := Reference(Some(o), cypher, dictionary);
      var rs := Steps(rb, b1, |ref|);
      forall j | 0 <= j < |ref| ensures rs[j] == Ok(ref[j]) {
        GroupRef(o, cypher, dictionary, j);
      }
      assert Collect(rs).value == ref;
    }
  }

  /** The operation fails exactly when an input holds a character other
      than a capital, and then with `KeyError`. */
  lemma BooleanFails(op: string, cypher: string, dictionary: string)
    ensures BooleanOperations(op, cypher, dictionary).Err? <==> !(AllUpper(cypher) && AllUpper(dictionary))
    ensures BooleanOperations(op, cypher, dictionary).Err? ==>
              BooleanOperations(op, cypher, dictionary).failure == KeyError
  {
    if AllUpper(cypher) && AllUpper(dictionary) {
      BooleanMatchesReference(op, cypher, dictionary);
    }
  }

  // ---------------------------------------------------------------------
  // Properties of the operations
  // ---------------------------------------------------------------------

  /** A number xor itself is 0. */
  lemma {:induction false} XorSelfZero(a: nat, w: nat)
    ensures Apply(Xor, a, a, w) == 0
  {
    if w > 0 {
      XorSelfZero(a / 2, w - 1);
    }
  }

  /** A number and, or or itself is itself. */
  lemma {:induction false} AndOrSelf(a: nat, w: nat)
    requires a < Pow2(w)
    ensures Apply(And, a, a, w) == a && Apply(Or, a, a, w) == a
  {
    if w > 0 {
      AndOrSelf(a / 2, w - 1);
    }
  }

  /** `NOT` is the complement within `w` bits. */
  lemma {:induction false} NotComplement(a: nat, b: nat, w: nat)
    requires a < Pow2(w)
    ensures Apply(Not, a, b, w) == Pow2(w) - 1 - a
  {
    if w > 0 {
      NotComplement(a / 2, b / 2, w - 1);
    }
  }

  /** `NOR` and `NAND` of a number with itself are its complement. */
  lemma {:induction false} NorNandSelf(a: nat, w: nat)
    ensures Apply(Nor, a, a, w) == Apply(Not, a, a, w)
    ensures Apply(Nand, a, a, w) == Apply(Not, a, a, w)
  {
    if w > 0 {
      NorNandSelf(a / 2, w - 1);
    }
  }

  /** Xor with the same key twice gives the number back. */
  lemma {:induction false} XorTwice(a: nat, b: nat, w: nat)
    requires a < Pow2(w)
    ensures Apply(Xor, Apply(Xor, a, b, w), b, w) == a
  {
    if w > 0 {
      var r := Apply(Xor, a / 2, b / 2, w - 1);
      XorTwice(a / 2, b / 2, w - 1);
      Halves(r, BitOf(Xor, a % 2, b % 2));
    }
  }

  /** Xor does not care about the order of its inputs. */
  lemma {:induction false} XorCommutes(a: nat, b: nat, w: nat)
    ensures Apply(Xor, a, b, w) == Apply(Xor, b, a, w)
  {
    if w > 0 {
      XorCommutes(a / 2, b / 2, w - 1);
    }
  }

  /** Xor of a text with itself gives all-zero groups, so every letter
      falls back to itself; `AND` and `OR` give every letter back
      directly. */
  lemma SelfReference(o: Operation, t: string)
    requires AllUpper(t) && o in {Xor, And, Or}
    ensures Reference(Some(o), t, t) == t
  {
    forall j | 0 <= j < |t| ensures LetterRef(o, t[j], t[j]) == t[j] {
      XorSelfZero(Ord(t[j]), 5);
      AndOrSelf(Ord(t[j]), 5);
    }
  }

  lemma XorSelfText(t: string)
    requires AllUpper(t)
    ensures BooleanOperations("XOR", t, t) == Ok(t)
  {
    BooleanMatchesReference("XOR", t, t);
    SelfReference(Xor, t);
  }

  lemma AndSelfText(t: string)
    requires AllUpper(t)
    ensures BooleanOperations("AND", t, t) == Ok(t)
  {
    BooleanMatchesReference("AND", t, t);
    SelfReference(And, t);
  }

  lemma OrSelfText(t: string)
    requires AllUpper(t)
    ensures BooleanOperations("OR", t, t) == Ok(t)
  {
    BooleanMatchesReference("OR", t, t);
    SelfReference(Or, t);
  }

  /** `NOT` sends the letter at place `v` to the letter at place `31 - v`;
      `A` to `D` would land on 27 to 30 and stay. */
  lemma NotLetter(c: char)
    requires IsUpper(c)
    ensures Ord(c) >= 5 ==> LetterRef(Not, c, c) == Letter(31 - Ord(c))
    ensures Ord(c) < 5 ==> LetterRef(Not, c, c) == c
  {
    NotComplement(Ord(c), Ord(c), 5);
  }

  /** `NOT` applied twice gives `E` to `Z` back. */
  lemma NotTwice(c: char)
    requires IsUpper(c)
    ensures LetterRef(Not, LetterRef(Not, c, c), LetterRef(Not, c, c)) == c
  {
    NotLetter(c);
    NotLetter(LetterRef(Not, c, c));
  }

  /** `NOR` and `NAND` of a text with itself are its `NOT`. */
  lemma NorNandReference(o: Operation, t: string, d: string)
    requires AllUpper(t) && AllUpper(d) && o in {Nor, Nand}
    ensures Reference(Some(o), t, t) == Reference(Some(Not), t, d)
  {
    forall j | 0 <= j < |t| ensures LetterRef(o, t[j], t[j]) == LetterRef(Not, t[j], t[j]) {
      NorNandSelf(Ord(t[j]), 5);
    }
  }

  lemma NorSelfText(t: string, d: string)
    requires AllUpper(t) && AllUpper(d)
    ensures BooleanOperations("NOR", t, t) == BooleanOperations("NOT", t, d)
  {
    assert ParseOperation("NOR") == Some(Nor) && ParseOperation("NOT") == Some(Not);
    BooleanMatchesReference("NOR", t, t);
    BooleanMatchesReference("NOT", t, d);
    NorNandReference(Nor, t, d);
  }

  lemma NandSelfText(t: string, d: string)
    requires AllUpper(t) && AllUpper(d)
    ensures BooleanOperations("NAND", t, t) == BooleanOperations("NOT", t, d)
  {
    assert ParseOperation("NAND") == Some(Nand) && ParseOperation("NOT") == Some(Not);
    BooleanMatchesReference("NAND", t, t);
    BooleanMatchesReference("NOT", t, d);
    NorNandReference(Nand, t, d);
  }

  /** Where xor with a key letter names a letter, xor with the same key
      letter again gives the first letter back. */
  lemma XorUndo(c: char, k: char)
    requires IsUpper(c) && IsUpper(k)
    requires 1 <= Apply(Xor, Ord(c), Ord(k), 5) <= 26
    ensures LetterRef(Xor, LetterRef(Xor, c, k), k) == c
  {
    XorTwice(Ord(c), Ord(k), 5);
  }

  /** An operation name outside the menu gives an empty output. */
  lemma UnknownOperation(op: string, cypher: string, dictionary: string)
    requires AllUpper(cypher) && AllUpper(dictionary)
    requires op !in ["XOR", "AND", "OR", "NOT", "NOR", "NAND"]
    ensures BooleanOperations(op, cypher, dictionary) == Ok([])
  {
    BooleanMatchesReference(op, cypher, dictionary);
  }
}
