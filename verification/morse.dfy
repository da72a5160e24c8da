/** The "opposite Morse" tool, in its two versions: each letter of the
    upper-cased input is replaced by the letter whose Morse code has dots
    and dashes swapped.  K4Tools.py keeps a letter whose swapped code is no
    letter's and every other character as they are; main.py drops all but
    the letters, writes a space for a swapped code that is no letter's, and
    strips the result. */
module Morse {
  import opened Wrappers
  import opened Text

  /** The tools' `morse_dict`, A to Z; other characters have no code. */
  function Code(c: char): (code: string)
    ensures IsUpper(c) <==> |code| > 0
  {
    match c
    case 'A' => ".-"
    case 'B' => "-..."
    case 'C' => "-.-."
    case 'D' => "-.."
    case 'E' => "."
    case 'F' => "..-."
    case 'G' => "--."
    case 'H' => "...."
    case 'I' => ".."
    case 'J' => ".---"
    case 'K' => "-.-"
    case 'L' => ".-.."
    case 'M' => "--"
    case 'N' => "-."
    case 'O' => "---"
    case 'P' => ".--."
    case 'Q' => "--.-"
    case 'R' => ".-."
    case 'S' => "..."
    case 'T' => "-"
    case 'U' => "..-"
    case 'V' => "...-"
    case 'W' => ".--"
    case 'X' => "-..-"
    case 'Y' => "-.--"
    case 'Z' => "--.."
    case _ => ""
  }

  /** Different letters have different codes. */
  lemma CodeInjective(a: char, b: char)
    requires IsUpper(a) && IsUpper(b) && Code(a) == Code(b)
    ensures a == b
  {
  }

  /** `invert_morse`: dots become dashes and dashes dots. */
  function Invert(code: string): (r: string)
    ensures |r| == |code|
  {
    if |code| == 0 then []
    else [if code[0] == '-' then '.' else if code[0] == '.' then '-' else code[0]] + Invert(code[1..])
  }

  lemma {:induction false} InvertInvolution(code: string)
    ensures Invert(Invert(code)) == code
  {
    if |code| > 0 {
      InvertInvolution(code[1..]);
    }
  }

  /** The search of `morse_dict` for a code, in table order from letter
      `c` on. */
  function FindLetter(code: string, c: char): (r: Option<char>)
    requires 'A' <= c
    ensures r.Some? ==> c <= r.value <= 'Z' && Code(r.value) == code
    decreases 'Z' as int - c as int
  {
    if c > 'Z' then None
    else if Code(c) == code then Some(c)
    else FindLetter(code, (c as int + 1) as char)
  }

  /** A search that finds nothing has passed no letter with the code. */
  lemma {:induction false} FindLetterNone(code: string, c: char, l: char)
    requires 'A' <= c <= l <= 'Z' && FindLetter(code, c).None?
    ensures Code(l) != code
    decreases l as int - c as int
  {
    if c < l {
      FindLetterNone(code, (c as int + 1) as char, l);
    }
  }

  /** The search finds a letter's own code at that letter. */
  lemma {:induction false} FindOwnCode(l: char, c: char)
    requires 'A' <= c <= l <= 'Z'
    ensures FindLetter(Code(l), c) == Some(l)
    decreases l as int - c as int
  {
    if Code(c) != Code(l) {
      FindOwnCode(l, (c as int + 1) as char);
    } else {
      CodeInjective(c, l);
    }
  }

  /** The letter with the swapped code, if there is one. */
  function Opposite(c: char): (r: Option<char>)
    requires IsUpper(c)
    ensures r.Some? ==> IsUpper(r.value) && Code(r.value) == Invert(Code(c))
    ensures r.None? ==> forall l :: IsUpper(l) ==> Code(l) != Invert(Code(c))
  {
    var r := FindLetter(Invert(Code(c)), 'A');
    if r.None? then
      assert forall l :: IsUpper(l) ==> Code(l) != Invert(Code(c)) by {
        forall l | IsUpper(l) ensures Code(l) != Invert(Code(c)) {
          FindLetterNone(Invert(Code(c)), 'A', l);
        }
      }
      r
    else r
  }

  /** Swapping twice leads back: the opposite of the opposite is the
      letter itself. */
  lemma OppositeInvolution(c: char)
    requires IsUpper(c) && Opposite(c).Some?
    ensures Opposite(Opposite(c).value) == Some(c)
  {
    var l := Opposite(c).value;
    InvertInvolution(Code(c));
    FindOwnCode(c, 'A');
  }

  // ---------------------------------------------------------------------
  // K4Tools.py
  // ---------------------------------------------------------------------

  /** One character of K4Tools.py's `convert_to_opposite_morse`, after
      upper-casing. */
  function SwapChar(c: char): (r: char)
    ensures !IsUpper(c) ==> r == c
    ensures IsUpper(c) ==> IsUpper(r)
  {
    if IsUpper(c) then
      match Opposite(c)
      case Some(l) => l
      case None => c
    else c
  }

  /** K4Tools.py's `convert_to_opposite_morse`. */
  function ConvertToOppositeMorse(input: string): (r: string)
    ensures |r| == |input|
    ensures forall i :: 0 <= i < |input| ==> r[i] == SwapChar(Upper(input[i]))
  {
    var u := UpperStr(input);
    seq(|u|, i requires 0 <= i < |u| => SwapChar(u[i]))
  }

  lemma SwapTwice(c: char)
    ensures SwapChar(Upper(SwapChar(Upper(c)))) == Upper(c)
  {
    var u := Upper(c);
    if IsUpper(u) && Opposite(u).Some? {
      OppositeInvolution(u);
    }
  }

  /** Converting twice gives the upper-cased input. */
  lemma {:induction false} ConvertTwice(input: string)
    ensures ConvertToOppositeMorse(ConvertToOppositeMorse(input)) == UpperStr(input)
  {
    var once := ConvertToOppositeMorse(input);
    forall i | 0 <= i < |input| ensures ConvertToOppositeMorse(once)[i] == Upper(input[i]) {
      SwapTwice(input[i]);
    }
  }

  // ---------------------------------------------------------------------
  // main.py
  // ---------------------------------------------------------------------

  /** The letters of the upper-cased input, in order; the others are not
      written into the Morse text. */
  function Letters(s: string): (r: string)
    ensures forall i :: 0 <= i < |r| ==> IsUpper(r[i])
    ensures |r| <= |s|
  {
    if |s| == 0 then []
    else (if IsUpper(Upper(s[0])) then [Upper(s[0])] else []) + Letters(s[1..])
  }

  /** The swapped codes, one per letter (`inverted_morse.split()`). */
  function SwappedCodes(letters: string): (codes: seq<string>)
    ensures |codes| == |letters|
    ensures forall i :: 0 <= i < |letters| ==> codes[i] == Invert(Code(letters[i]))
  {
    seq(|letters|, i requires 0 <= i < |letters| => Invert(Code(letters[i])))
  }

  /** The reverse dictionary's answer for one swapped code: its letter,
      or a space. */
  function Decode(code: string): (c: char)
    ensures c == ' ' || IsUpper(c)
  {
    match FindLetter(code, 'A')
    case Some(l) => l
    case None => ' '
  }

  /** The output before the strip: one character per swapped code. */
  function DecodeAll(codes: seq<string>): (r: string)
    ensures |r| == |codes|
    ensures forall i :: 0 <= i < |codes| ==> r[i] == Decode(codes[i])
    ensures forall i :: 0 <= i < |r| ==> r[i] == ' ' || IsUpper(r[i])
  {
    seq(|codes|, i requires 0 <= i < |codes| => Decode(codes[i]))
  }

  /** main.py's `convert_to_opposite_morse`: the stripped text begins and
      ends with a capital, holds only capitals and spaces, and is no longer
      than the input's letters (`MainAgrees` says which character stands
      for each letter). */
  function ConvertToOppositeMorseMain(input: string): (r: string)
    ensures |r| <= |Letters(input)|
    ensures |r| > 0 ==> IsUpper(r[0]) && IsUpper(r[|r| - 1])
    ensures forall i :: 0 <= i < |r| ==> r[i] == ' ' || IsUpper(r[i])
  {
    var raw := DecodeAll(SwappedCodes(Letters(input)));
    StripLetters(raw);
    Strip(raw)
  }

  /** Before the strip, main.py's output has one character per letter of
      the input: the same letter K4Tools.py gives, or a space where
      K4Tools.py keeps the letter for want of an opposite. */
  lemma MainAgrees(input: string)
    ensures var letters := Letters(input);
            var raw := DecodeAll(SwappedCodes(letters));
            && |raw| == |letters|
            && forall i :: 0 <= i < |letters| ==>
                 raw[i] == (if Opposite(letters[i]).Some? then SwapChar(letters[i]) else ' ')
  {
  }

  /** Every character of a strip is a character of the stripped text. */
  lemma StripChars(s: string, i: nat)
    requires i < |Strip(s)|
    ensures Strip(s)[i] in s
  {
    var k :| OccursAt(Strip(s), s, k);
    assert s[k..k + |Strip(s)|][i] == s[k + i];
  }

  /** Stripping text of letters and spaces leaves letters and spaces,
      with a letter at each end. */
  lemma StripLetters(raw: string)
    requires forall i :: 0 <= i < |raw| ==> raw[i] == ' ' || IsUpper(raw[i])
    ensures var r := Strip(raw);
            && (|r| > 0 ==> IsUpper(r[0]) && IsUpper(r[|r| - 1]))
            && forall i :: 0 <= i < |r| ==> r[i] == ' ' || IsUpper(r[i])
  {
    var r := Strip(raw);
    forall i | 0 <= i < |r| ensures r[i] == ' ' || IsUpper(r[i]) {
      StripChars(raw, i);
    }
  }
}
