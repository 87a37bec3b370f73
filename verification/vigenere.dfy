/**
  The Vigenère cipher: text is upper-cased, and the n-th letter moves along
  the 26-letter alphabet by the alphabet position of key character
  `key[n % len(key)]`, forward to encrypt (`mode` 1) and backward to
  decrypt (`mode` -1); other characters are copied and do not use up a key
  character. The `Vigenere` class holds nothing but the constant alphabet,
  so its helpers are functions of this module and its loop a method.

  A key character that is not a letter makes `alphabet.index` raise
  `ValueError`, which `encrypt` and `decrypt` turn into `None`; here the
  helpers return `None` for it directly.
 */
module Vigenere {
  import opened Wrappers
  import opened PyStr
  import opened Modular

  /** The `i`-th upper-case letter. */
  function LetterAt(i: nat): (c: char)
    requires i < 26
    ensures IsUpper(c)
  {
    (65 + i) as char
  }

  /** The 26 upper-case letters in order. */
  function Alphabet(): (r: string)
    ensures |r| == 26
  {
    seq(26, i requires 0 <= i < 26 => LetterAt(i))
  }

  /** `string.ascii_uppercase`. */
  const Uppercase: string := Alphabet()

  /** `alphabet.index(c)` for an upper-case letter. */
  function LetterIndex(c: char): (i: nat)
    requires IsUpper(c)
    ensures i < 26 && LetterAt(i) == c
  {
    c as int - 65
  }

  /** `_get_key_char`: the key is used round and round. */
  function GetKeyChar(key: string, keyIdx: nat): (c: char)
    requires |key| > 0
    ensures c in key
    ensures keyIdx < |key| ==> c == key[keyIdx]
  {
    key[keyIdx % |key|]
  }

  /** `_get_indices`: the alphabet positions of the upper-cased key
      character and of the letter, or `None` where `index` raises. */
  function GetIndices(letter: char, keyChar: char): (r: Option<(nat, nat)>)
    ensures r.Some? <==> IsAlpha(keyChar) && IsUpper(letter)
    ensures r.Some? ==> r.value.0 < 26 && LetterAt(r.value.0) == UpperChar(keyChar)
    ensures r.Some? ==> r.value.1 < 26 && LetterAt(r.value.1) == letter
  {
    if IsAlpha(keyChar) && IsUpper(letter) then
      Some((LetterIndex(UpperChar(keyChar)), LetterIndex(letter)))
    else
      None
  }

  /** How far a key character moves a letter: the alphabet position of the
      character once upper-cased. */
  function KeyShift(c: char): (k: nat)
    requires IsAlpha(c)
    ensures k < 26 && LetterAt(k) == UpperChar(c)
  {
    LetterIndex(UpperChar(c))
  }

  /** `_shift_letter`: the letter moved by the key character for position
      `keyIdx`, forward for mode 1 and backward for mode -1. */
  function ShiftLetter(mode: int, key: string, letter: char, keyIdx: nat): (r: Option<char>)
    requires |key| > 0
    ensures r.None? <==> !IsAlpha(GetKeyChar(key, keyIdx)) || !IsUpper(letter)
    ensures r.Some? ==>
      IsUpper(r.value) &&
      LetterIndex(r.value) == (LetterIndex(letter) + KeyShift(GetKeyChar(key, keyIdx)) * mode) % 26
  {
    match GetIndices(letter, GetKeyChar(key, keyIdx))
    case None => None
    case Some((keyCharIdx, letterIdx)) =>
      UppercaseAt((letterIdx + keyCharIdx * mode) % 26);
      Some(Uppercase[(letterIdx + keyCharIdx * mode) % 26])
  }

  /** The alphabet constant holds the letters in order. */
  lemma UppercaseAt(i: nat)
    requires i < 26
    ensures Uppercase[i] == LetterAt(i) && LetterIndex(LetterAt(i)) == i
  {
  }

  /** How many letters `s` holds: the key index after reading `s`. */
  function LetterCount(s: string): (n: nat)
    ensures n <= |s|
  {
    if s == [] then 0 else LetterCount(s[..|s| - 1]) + (if IsAlpha(s[|s| - 1]) then 1 else 0)
  }

  /** What `shift_text` appends for position `i` of the upper-cased text. */
  function Piece(s: string, key: string, mode: int, i: nat): Option<string>
    requires |key| > 0 && i < |s|
  {
    if !IsAlpha(s[i]) then Some([s[i]])
    else
      match ShiftLetter(mode, key, s[i], LetterCount(s[..i]))
      case None => None
      case Some(c) => Some([c])
  }

  function Pieces(s: string, key: string, mode: int): (ps: seq<Option<string>>)
    requires |key| > 0
    ensures |ps| == |s|
  {
    seq(|s|, i requires 0 <= i < |s| => Piece(s, key, mode, i))
  }

  /** `shift_text(text, key, mode)` as `encrypt` and `decrypt` report it:
      `None` for blank text or for a non-letter key character in use. */
  function ShiftedText(text: string, key: string, mode: int): Option<string>
    requires |key| > 0
  {
    if IsBlank(text) then None else ConcatSome(Pieces(Upper(text), key, mode))
  }

  /** `shift_text`: the upper-cased text, letter by letter, with a key index
      that moves on only after a letter. */
  method ShiftText(text: string, key: string, mode: int) returns (r: Option<string>)
    requires |key| > 0
    ensures r == ShiftedText(text, key, mode)
  {
    StripEmptyIffBlank(text);
    if Strip(text) == [] {
      return None;
    }
    var upper := Upper(text);
    ghost var pieces := Pieces(upper, key, mode);
    var shifted := "";
    var keyIdx := 0;
    for i := 0 to |upper|
      invariant keyIdx == LetterCount(upper[..i])
      invariant ConcatSome(pieces[..i]) == Some(shifted)
    {
      var letter := upper[i];
      ConcatSomeStep(pieces, i, shifted);
      assert upper[..i + 1][..i] == upper[..i];
      if !IsAlpha(letter) {
        shifted := shifted + [letter];
      } else {
        var c := ShiftLetter(mode, key, letter, keyIdx);
        if c.None? {
          return None;
        }
        shifted := shifted + [c.value];
        keyIdx := keyIdx + 1;
      }
    }
    assert pieces[..|upper|] == pieces;
    return Some(shifted);
  }

  /** `encrypt`: `shift_text` with mode 1. */
  method Encrypt(text: string, key: string) returns (r: Option<string>)
    requires |key| > 0
    ensures r == ShiftedText(text, key, 1)
  {
    r := ShiftText(text, key, 1);
  }

  /** `decrypt`: `shift_text` with mode -1. */
  method Decrypt(text: string, key: string) returns (r: Option<string>)
    requires |key| > 0
    ensures r == ShiftedText(text, key, -1)
  {
    r := ShiftText(text, key, -1);
  }

  /** After `upper()`, the letters are exactly the upper-case characters. */
  lemma UpperAlpha(text: string, i: nat)
    requires i < |text|
    ensures IsAlpha(Upper(text)[i]) <==> IsAlpha(text[i])
    ensures IsAlpha(Upper(text)[i]) ==> IsUpper(Upper(text)[i])
    ensures !IsAlpha(text[i]) ==> Upper(text)[i] == text[i]
  {
  }

  /** The result is `None` exactly for blank text or when some letter meets
      a key character that is not a letter. */
  lemma ShiftedTextNone(text: string, key: string, mode: int)
    requires |key| > 0
    ensures ShiftedText(text, key, mode).None? <==>
      IsBlank(text) ||
      exists i :: 0 <= i < |text| && IsAlpha(text[i]) &&
        !IsAlpha(GetKeyChar(key, LetterCount(Upper(text)[..i])))
  {
    var u := Upper(text);
    var ps := Pieces(u, key, mode);
    ConcatSomeNoneIff(ps);
    forall i | 0 <= i < |text|
      ensures ps[i].None? <==> IsAlpha(text[i]) && !IsAlpha(GetKeyChar(key, LetterCount(u[..i])))
    {
      UpperAlpha(text, i);
    }
  }

  /** A successful result has one character per position of the
      upper-cased text, namely the one `shift_text` appends there. */
  lemma ShiftedTextChars(text: string, key: string, mode: int)
    requires |key| > 0
    requires ShiftedText(text, key, mode).Some?
    ensures var r, u := ShiftedText(text, key, mode).value, Upper(text);
      |r| == |u| && forall i :: 0 <= i < |u| ==> Piece(u, key, mode, i) == Some([r[i]])
  {
    var u := Upper(text);
    var ps := Pieces(u, key, mode);
    ConcatSomeNoneIff(ps);
    assert forall i :: 0 <= i < |ps| ==> ps[i].Some? && |ps[i].value| == 1;
    ConcatSomeAllSome(ps);
    ConcatSingles(seq(|ps|, i requires 0 <= i < |ps| => ps[i].value));
  }

  /** A successful result keeps the length, copies every non-letter and
      puts at each letter an upper-case letter moved by the key character
      `key[n % len(key)]`, where `n` counts the letters before it. */
  lemma ShiftedTextShape(text: string, key: string, mode: int)
    requires |key| > 0
    requires ShiftedText(text, key, mode).Some?
    ensures var r := ShiftedText(text, key, mode).value;
      |r| == |text| &&
      (forall i :: 0 <= i < |text| && !IsAlpha(text[i]) ==> r[i] == text[i]) &&
      (forall i :: 0 <= i < |text| && IsAlpha(text[i]) ==>
        var kc := key[LetterCount(Upper(text)[..i]) % |key|];
        IsAlpha(kc) && IsUpper(r[i]) &&
        LetterIndex(r[i]) == (LetterIndex(UpperChar(text[i])) + KeyShift(kc) * mode) % 26)
  {
    var r := ShiftedText(text, key, mode).value;
    ShiftedTextChars(text, key, mode);
    forall i | 0 <= i < |text| {
      PieceChar(text, key, mode, i, r[i]);
    }
  }

  /** The character appended at one position, in terms of the text. */
  lemma PieceChar(text: string, key: string, mode: int, i: nat, c: char)
    requires |key| > 0 && i < |text|
    requires Piece(Upper(text), key, mode, i) == Some([c])
    ensures !IsAlpha(text[i]) ==> c == text[i]
    ensures IsAlpha(text[i]) ==>
      var kc := key[LetterCount(Upper(text)[..i]) % |key|];
      IsAlpha(kc) && IsUpper(c) &&
      LetterIndex(c) == (LetterIndex(UpperChar(text[i])) + KeyShift(kc) * mode) % 26
  {
    UpperAlpha(text, i);
  }

  /** Key characters are case-insensitive: keys that upper-case alike give
      the same result. */
  lemma KeyCaseInsensitive(text: string, k1: string, k2: string, mode: int)
    requires |k1| == |k2| > 0 && Upper(k1) == Upper(k2)
    ensures ShiftedText(text, k1, mode) == ShiftedText(text, k2, mode)
  {
    var u := Upper(text);
    forall i | 0 <= i < |u| ensures Piece(u, k1, mode, i) == Piece(u, k2, mode, i) {
      var n := LetterCount(u[..i]);
      var c1, c2 := GetKeyChar(k1, n), GetKeyChar(k2, n);
      assert Upper(k1)[n % |k1|] == Upper(k2)[n % |k2|];
      assert UpperChar(c1) == UpperChar(c2);
      assert GetIndices(u[i], c1) == GetIndices(u[i], c2);
    }
    assert Pieces(u, k1, mode) == Pieces(u, k2, mode);
  }

  /** Strings with letters at the same places count the same letters. */
  lemma {:induction false} LetterCountAgree(a: string, b: string)
    requires |a| == |b|
    requires forall i :: 0 <= i < |a| ==> (IsAlpha(a[i]) <==> IsAlpha(b[i]))
    ensures LetterCount(a) == LetterCount(b)
  {
    if a != [] {
      var n := |a| - 1;
      LetterCountAgree(a[..n], b[..n]);
    }
  }

  /** A ciphertext has its letters where the text has them, is free of
      lower-case letters, and is not blank. */
  lemma CipherLayout(text: string, key: string, mode: int)
    requires |key| > 0
    requires ShiftedText(text, key, mode).Some?
    ensures var r := ShiftedText(text, key, mode).value;
      |r| == |text| && Upper(r) == r && !IsBlank(r) &&
      forall i :: 0 <= i < |r| ==> (IsAlpha(r[i]) <==> IsAlpha(text[i]))
  {
    var r := ShiftedText(text, key, mode).value;
    ShiftedTextShape(text, key, mode);
    forall i | 0 <= i < |r| ensures UpperChar(r[i]) == r[i] && (IsAlpha(r[i]) <==> IsAlpha(text[i])) {
    }
    assert Upper(r) == r;
    assert !IsBlank(r) by {
      var j :| 0 <= j < |text| && !IsSpace(text[j]);
      assert !IsSpace(r[j]);
    }
  }

  /** Two texts with letters at the same places use the key alike: before
      each position they have read the same number of letters. */
  lemma SameKeyPositions(text: string, r: string)
    requires |r| == |text|
    requires forall i :: 0 <= i < |r| ==> (IsAlpha(r[i]) <==> IsAlpha(text[i]))
    ensures forall i :: 0 <= i <= |r| ==> LetterCount(r[..i]) == LetterCount(Upper(text)[..i])
  {
    var u := Upper(text);
    forall i | 0 <= i <= |r| ensures LetterCount(r[..i]) == LetterCount(u[..i]) {
      forall j | 0 <= j < i ensures IsAlpha(r[..i][j]) <==> IsAlpha(u[..i][j]) {
        UpperAlpha(text, j);
      }
      LetterCountAgree(r[..i], u[..i]);
    }
  }

  /** Moving a letter back by the key character that moved it forward
      restores it. */
  lemma UndoLetter(u: char, r: char, d: char, kc: char)
    requires IsUpper(u) && IsUpper(r) && IsUpper(d) && IsAlpha(kc)
    requires LetterIndex(r) == (LetterIndex(u) + KeyShift(kc) * 1) % 26
    requires LetterIndex(d) == (LetterIndex(UpperChar(r)) + KeyShift(kc) * -1) % 26
    ensures d == u
  {
    ModSub(LetterIndex(u) + KeyShift(kc), KeyShift(kc));
  }

  /** With a key of letters, only blank text fails. */
  lemma LetterKeySucceeds(text: string, key: string, mode: int)
    requires !IsBlank(text)
    requires |key| > 0 && forall i :: 0 <= i < |key| ==> IsAlpha(key[i])
    ensures ShiftedText(text, key, mode).Some?
  {
    ShiftedTextNone(text, key, mode);
    forall i | 0 <= i < |text| ensures IsAlpha(GetKeyChar(key, LetterCount(Upper(text)[..i]))) {
    }
  }

  /** One position of the round trip: the letter is moved back by the same
      key character that moved it forward. */
  lemma RoundTripAt(text: string, key: string, r: string, d: string, i: nat)
    requires |key| > 0 && i < |text|
    requires ShiftedText(text, key, 1) == Some(r)
    requires ShiftedText(r, key, -1) == Some(d)
    requires Upper(r) == r && |r| == |text| == |d|
    requires IsAlpha(r[i]) <==> IsAlpha(text[i])
    requires LetterCount(r[..i]) == LetterCount(Upper(text)[..i])
    ensures d[i] == Upper(text)[i]
  {
    ShiftedTextChars(text, key, 1);
    PieceChar(text, key, 1, i, r[i]);
    ShiftedTextChars(r, key, -1);
    PieceChar(r, key, -1, i, d[i]);
    UpperAlpha(text, i);
    if IsAlpha(text[i]) {
      UndoLetter(Upper(text)[i], r[i], d[i], key[LetterCount(r[..i]) % |key|]);
    }
  }

  /** Decrypting with the key used to encrypt gives the upper-cased text,
      for a non-blank text and a key of letters. */
  lemma RoundTrip(text: string, key: string)
    requires !IsBlank(text)
    requires |key| > 0 && forall i :: 0 <= i < |key| ==> IsAlpha(key[i])
    ensures ShiftedText(text, key, 1).Some?
    ensures ShiftedText(ShiftedText(text, key, 1).value, key, -1) == Some(Upper(text))
  {
    LetterKeySucceeds(text, key, 1);
    var r := ShiftedText(text, key, 1).value;
    var u := Upper(text);
    CipherLayout(text, key, 1);
    LetterKeySucceeds(r, key, -1);
    var d := ShiftedText(r, key, -1).value;
    SameKeyPositions(text, r);
    ShiftedTextChars(r, key, -1);
    assert |d| == |u|;
    forall i | 0 <= i < |u| ensures d[i] == u[i] {
      RoundTripAt(text, key, r, d, i);
    }
    assert d == u;
  }

  /** A text whose pieces are the single characters of `t` shifts to `t`. */
  lemma ShiftedInto(text: string, key: string, mode: int, t: string)
    requires |key| > 0 && !IsBlank(text) && |t| == |text|
    requires forall i :: 0 <= i < |text| ==> Piece(Upper(text), key, mode, i) == Some([t[i]])
    ensures ShiftedText(text, key, mode) == Some(t)
  {
    ConcatSomeChars(Pieces(Upper(text), key, mode), t);
  }
  // The example at the foot of the module: "Hello, world!" under the key "vigenere".

  lemma HelloUpper()
    ensures Upper("Hello, world!") == "HELLO, WORLD!"
  {
  }
  lemma HelloCounts()
    ensures var u := "HELLO, WORLD!";
      LetterCount(u[..0]) == 0 && LetterCount(u[..1]) == 1 && LetterCount(u[..2]) == 2 &&
      LetterCount(u[..3]) == 3 && LetterCount(u[..4]) == 4 && LetterCount(u[..7]) == 5 &&
      LetterCount(u[..8]) == 6 && LetterCount(u[..9]) == 7 && LetterCount(u[..10]) == 8 &&
      LetterCount(u[..11]) == 9
  {
    var u := "HELLO, WORLD!";
    assert u[..1][..0] == u[..0];
    assert LetterCount(u[..1]) == 1;
    assert u[..2][..1] == u[..1];
    assert LetterCount(u[..2]) == 2;
    assert u[..3][..2] == u[..2];
    assert LetterCount(u[..3]) == 3;
    assert u[..4][..3] == u[..3];
    assert LetterCount(u[..4]) == 4;
    assert u[..5][..4] == u[..4];
    assert LetterCount(u[..5]) == 5;
    assert u[..6][..5] == u[..5];
    assert LetterCount(u[..6]) == 5;
    assert u[..7][..6] == u[..6];
    assert LetterCount(u[..7]) == 5;
    assert u[..8][..7] == u[..7];
    assert LetterCount(u[..8]) == 6;
    assert u[..9][..8] == u[..8];
    assert LetterCount(u[..9]) == 7;
    assert u[..10][..9] == u[..9];
    assert LetterCount(u[..10]) == 8;
    assert u[..11][..10] == u[..10];
    assert LetterCount(u[..11]) == 9;
  }
  lemma HelloLettersA()
    ensures ShiftLetter(1, "vigenere", 'H', 0) == Some('C')
    ensures ShiftLetter(1, "vigenere", 'E', 1) == Some('M')
    ensures ShiftLetter(1, "vigenere", 'L', 2) == Some('R')
  {
  }

  lemma HelloLettersB()
    ensures ShiftLetter(1, "vigenere", 'L', 3) == Some('P')
    ensures ShiftLetter(1, "vigenere", 'O', 4) == Some('B')
  {
  }

  lemma HelloLettersC()
    ensures ShiftLetter(1, "vigenere", 'W', 5) == Some('A')
    ensures ShiftLetter(1, "vigenere", 'O', 6) == Some('F')
    ensures ShiftLetter(1, "vigenere", 'R', 7) == Some('V')
  {
  }

  lemma HelloLettersD()
    ensures ShiftLetter(1, "vigenere", 'L', 8) == Some('G')
    ensures ShiftLetter(1, "vigenere", 'D', 9) == Some('L')
  {
  }

  lemma HelloPiecesFront()
    ensures var u, t := "HELLO, WORLD!", "CMRPB, AFVGL!";
      forall i :: 0 <= i < 7 ==> Piece(u, "vigenere", 1, i) == Some([t[i]])
  {
    HelloCounts();
    HelloLettersA();
    HelloLettersB();
  }

  lemma HelloPiecesBack()
    ensures var u, t := "HELLO, WORLD!", "CMRPB, AFVGL!";
      forall i :: 7 <= i < |u| ==> Piece(u, "vigenere", 1, i) == Some([t[i]])
  {
    HelloCounts();
    HelloLettersC();
    HelloLettersD();
  }

  lemma HelloPieces()
    ensures var u, t := "HELLO, WORLD!", "CMRPB, AFVGL!";
      forall i :: 0 <= i < |u| ==> Piece(u, "vigenere", 1, i) == Some([t[i]])
  {
    HelloPiecesFront();
    HelloPiecesBack();
  }

  /** Encrypting "Hello, world!" with the key "vigenere" gives "CMRPB, AFVGL!",
      and decrypting that gives the upper-cased message back. */
  lemma HelloVigenere()
    ensures ShiftedText("Hello, world!", "vigenere", 1) == Some("CMRPB, AFVGL!")
    ensures ShiftedText("CMRPB, AFVGL!", "vigenere", -1) == Some("HELLO, WORLD!")
  {
    HelloUpper();
    HelloPieces();
    assert !IsBlank("Hello, world!") by { assert !IsSpace("Hello, world!"[0]); }
    ShiftedInto("Hello, world!", "vigenere", 1, "CMRPB, AFVGL!");
    RoundTrip("Hello, world!", "vigenere");
  }
}
