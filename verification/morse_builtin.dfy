/**
  The chart both drafts of the Morse code class start from, and the proof
  that it is a bijection between its keys and its codes.
 */
module BuiltinChart {
  import opened MorseChart

  /** Entry `i` of the built-in dict literal, in insertion order. The
      letters, the figures and all the punctuation except `!` follow
      International Morse Code (Recommendation ITU-R M.1677-1, Part I,
      section 1); the comma is stored under the two-character key ", ". */
  function BuiltinAt(i: nat): Entry
    requires i < 44
  {
    match i
    case 0 => Entry("A", ".-")
    case 1 => Entry("B", "-...")
    case 2 => Entry("C", "-.-.")
    case 3 => Entry("D", "-..")
    case 4 => Entry("E", ".")
    case 5 => Entry("F", "..-.")
    case 6 => Entry("G", "--.")
    case 7 => Entry("H", "....")
    case 8 => Entry("I", "..")
    case 9 => Entry("J", ".---")
    case 10 => Entry("K", "-.-")
    case 11 => Entry("L", ".-..")
    case 12 => Entry("M", "--")
    case 13 => Entry("N", "-.")
    case 14 => Entry("O", "---")
    case 15 => Entry("P", ".--.")
    case 16 => Entry("Q", "--.-")
    case 17 => Entry("R", ".-.")
    case 18 => Entry("S", "...")
    case 19 => Entry("T", "-")
    case 20 => Entry("U", "..-")
    case 21 => Entry("V", "...-")
    case 22 => Entry("W", ".--")
    case 23 => Entry("X", "-..-")
    case 24 => Entry("Y", "-.--")
    case 25 => Entry("Z", "--..")
    case 26 => Entry("1", ".----")
    case 27 => Entry("2", "..---")
    case 28 => Entry("3", "...--")
    case 29 => Entry("4", "....-")
    case 30 => Entry("5", ".....")
    case 31 => Entry("6", "-....")
    case 32 => Entry("7", "--...")
    case 33 => Entry("8", "---..")
    case 34 => Entry("9", "----.")
    case 35 => Entry("0", "-----")
    case 36 => Entry(", ", "--..--")
    case 37 => Entry(".", ".-.-.-")
    case 38 => Entry("?", "..--..")
    case 39 => Entry("!", "-.-.--")
    case 40 => Entry("/", "-..-.")
    case 41 => Entry("-", "-....-")
    case 42 => Entry("(", "-.--.")
    case _ => Entry(")", "-.--.-")
  }

  /** The built-in chart of `morse.py` and `morse2.py`. */
  const Builtin: seq<Entry> := seq(44, i requires 0 <= i < 44 => BuiltinAt(i))

  /** No two built-in entries share a key. */
  lemma BuiltinKeysApart()
    ensures forall i, j :: 0 <= i < j < 44 ==> BuiltinAt(i).key != BuiltinAt(j).key
  {}

  /** No two built-in entries share a code. */
  lemma BuiltinCodesApart()
    ensures forall i, j :: 0 <= i < j < 44 ==> BuiltinAt(i).code != BuiltinAt(j).code
  {}

  /** Every built-in code is one non-empty run of dots and dashes. */
  lemma BuiltinCodesSimple()
    ensures forall i :: 0 <= i < 44 ==> SimpleCode(BuiltinAt(i).code)
  {}

  /** Every built-in key is ", " or one upper-case letter, figure or
      punctuation mark. */
  lemma BuiltinKeyShapes()
    ensures forall i :: 0 <= i < 44 ==>
      BuiltinAt(i).key == ", " ||
      (|BuiltinAt(i).key| == 1 &&
       var k := BuiltinAt(i).key[0];
       'A' <= k <= 'Z' || '0' <= k <= '9' || k in ".?!/-()")
  {}

  /** Every built-in code has at most six symbols. */
  lemma BuiltinCodeLengths()
    ensures forall i :: 0 <= i < 44 ==> |BuiltinAt(i).code| <= 6
  {}

  /** The built-in chart is a bijection between 44 keys and 44 simple codes. */
  lemma BuiltinWellFormed()
    ensures |Builtin| == 44
    ensures DistinctKeys(Builtin) && DistinctCodes(Builtin)
    ensures forall i :: 0 <= i < |Builtin| ==> SimpleCode(Builtin[i].code)
  {
    BuiltinKeysApart();
    BuiltinCodesApart();
    BuiltinCodesSimple();
  }
}
