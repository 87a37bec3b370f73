/**
  The Caesar shift: text is lower-cased, every letter moves `shift` places
  along the 26-letter alphabet (wrapping around), and every other character
  is copied unchanged. Python's `%` floors, so with the positive modulus 26
  it agrees with Dafny's Euclidean `%` for every integer shift.
 */
module Caesar {
  import opened Wrappers
  import opened PyStr
  import opened Modular

  /** The `i`-th letter of the alphabet. */
  function LetterAt(i: nat): (c: char)
    requires i < 26
    ensures IsLower(c)
  {
    (97 + i) as char
  }

  /** The 26 lower-case letters in order. */
  function Alphabet(): (r: string)
    ensures |r| == 26
  {
    seq(26, i requires 0 <= i < 26 => LetterAt(i))
  }

  /** `string.ascii_lowercase`. */
  const Lowercase: string := Alphabet()

  /** `alphabet.index(letter)`: the position of a lower-case letter. */
  function LetterIndex(c: char): (i: nat)
    requires IsLower(c)
    ensures i < 26 && LetterAt(i) == c
  {
    c as int - 97
  }

  /** The alphabet holds each lower-case letter exactly once, in order. */
  lemma LowercaseLetters(i: nat)
    requires i < 26
    ensures Lowercase[i] == LetterAt(i) && LetterIndex(LetterAt(i)) == i
  {
  }

  /** A character of the lower-cased text moved `k` places: letters rotate
      along the alphabet, everything else stays. */
  function Rotate(c: char, k: int): char {
    if IsLower(c) then LetterAt((LetterIndex(c) + k) % 26) else c
  }

  /** Every character of `s` rotated by `k`. */
  function Shifted(s: string, k: int): (r: string)
    ensures |r| == |s|
    ensures forall i :: 0 <= i < |s| ==> r[i] == Rotate(s[i], k)
  {
    seq(|s|, i requires 0 <= i < |s| => Rotate(s[i], k))
  }

  /** `CaesarEncrypt.encrypt(shift, text)`: `None` for blank text, otherwise
      the lower-cased text shifted forward. */
  function Encrypted(shift: int, text: string): Option<string> {
    if IsBlank(text) then None else Some(Shifted(Lower(text), shift))
  }

  /** `CaesarDecrypt.decrypt(shift, text)` and `Caesar.decrypt(shift, text)`:
      `None` for blank text, otherwise the lower-cased text shifted back. */
  function Decrypted(shift: int, text: string): Option<string> {
    if IsBlank(text) then None else Some(Shifted(Lower(text), -shift))
  }

  predicate NoUpper(s: string) {
    forall i :: 0 <= i < |s| ==> !IsUpper(s[i])
  }

  /** A rotated letter is a letter, a rotated non-letter is itself, and the
      letter lands `k` places further along, modulo 26. */
  lemma RotateSpec(c: char, k: int)
    ensures IsLower(c) <==> IsLower(Rotate(c, k))
    ensures !IsLower(c) ==> Rotate(c, k) == c
    ensures IsLower(c) ==> LetterIndex(Rotate(c, k)) == (LetterIndex(c) + k) % 26
  {
    if IsLower(c) {
      LowercaseLetters((LetterIndex(c) + k) % 26);
    }
  }

  /** Rotating back by the same amount restores the character. */
  lemma RotateBack(c: char, k: int)
    ensures Rotate(Rotate(c, k), -k) == c
  {
    RotateSpec(c, k);
    if IsLower(c) {
      var d := Rotate(c, k);
      RotateSpec(d, -k);
      var i := LetterIndex(c);
      assert LetterIndex(d) == (i + k) % 26;
      assert ((i + k) % 26 - k) % 26 == i % 26 by {
        ModSub(i + k, k);
      }
      LowercaseLetters(i);
    }
  }

  /** Shifts that are congruent modulo 26 rotate every character alike. */
  lemma RotateCongruent(c: char, k1: int, k2: int)
    requires k1 % 26 == k2 % 26
    ensures Rotate(c, k1) == Rotate(c, k2)
  {
    if IsLower(c) {
      var i := LetterIndex(c);
      assert (i + k1) % 26 == (i % 26 + k1 % 26) % 26 by { ModSum(i, k1); }
      assert (i + k2) % 26 == (i % 26 + k2 % 26) % 26 by { ModSum(i, k2); }
    }
  }

  /** `lower()` leaves no upper-case letter behind. */
  lemma LowerNoUpper(s: string)
    ensures NoUpper(Lower(s))
  {
  }

  /** `lower()` keeps whitespace where it was, so it keeps blankness. */
  lemma LowerBlank(s: string)
    ensures IsBlank(Lower(s)) <==> IsBlank(s)
  {
    if !IsBlank(s) {
      var i :| 0 <= i < |s| && !IsSpace(s[i]);
      assert !IsSpace(Lower(s)[i]);
    }
  }

  /** Shifting keeps the text free of upper-case letters. */
  lemma ShiftedNoUpper(s: string, k: int)
    requires NoUpper(s)
    ensures NoUpper(Shifted(s, k))
  {
    forall i | 0 <= i < |s| ensures !IsUpper(Shifted(s, k)[i]) {
      RotateSpec(s[i], k);
    }
  }

  /** Encryption keeps the length, yields only lower-case letters, copies
      every non-letter of the lower-cased text to the same place and fails
      exactly on blank text. */
  lemma EncryptedShape(shift: int, text: string)
    ensures Encrypted(shift, text).None? <==> IsBlank(text)
    ensures Encrypted(shift, text).Some? ==>
      var r := Encrypted(shift, text).value;
      |r| == |text| && NoUpper(r) &&
      forall i :: 0 <= i < |text| && !IsAlpha(text[i]) ==> r[i] == text[i]
  {
    LowerNoUpper(text);
    ShiftedNoUpper(Lower(text), shift);
    forall i | 0 <= i < |text| && !IsAlpha(text[i])
      ensures Shifted(Lower(text), shift)[i] == text[i]
    {
      RotateSpec(Lower(text)[i], shift);
    }
  }

  /** Lower-casing text without upper-case letters changes nothing. */
  lemma LowerNoUpperSame(s: string)
    requires NoUpper(s)
    ensures Lower(s) == s
  {
  }

  /** Decrypting with the shift used to encrypt gives the lower-cased text. */
  lemma RoundTrip(shift: int, text: string)
    requires !IsBlank(text)
    ensures Encrypted(shift, text).Some?
    ensures Decrypted(shift, Encrypted(shift, text).value) == Some(Lower(text))
  {
    var low := Lower(text);
    var c := Shifted(low, shift);
    EncryptedShape(shift, text);
    LowerNoUpperSame(c);
    assert !IsBlank(c) by {
      var i :| 0 <= i < |text| && !IsSpace(text[i]);
      RotateSpec(low[i], shift);
    }
    forall i | 0 <= i < |low| ensures Shifted(c, -shift)[i] == low[i] {
      RotateBack(low[i], shift);
    }
    assert Shifted(c, -shift) == low;
  }

  /** Shifts congruent modulo 26 shift a whole text alike. */
  lemma ShiftedCongruent(s: string, k1: int, k2: int)
    requires k1 % 26 == k2 % 26
    ensures Shifted(s, k1) == Shifted(s, k2)
  {
    forall i | 0 <= i < |s| ensures Rotate(s[i], k1) == Rotate(s[i], k2) {
      RotateCongruent(s[i], k1, k2);
    }
  }

  /** Shifts congruent modulo 26 encrypt and decrypt alike. */
  lemma CongruentShifts(s1: int, s2: int, text: string)
    requires s1 % 26 == s2 % 26
    ensures Encrypted(s1, text) == Encrypted(s2, text)
    ensures Decrypted(s1, text) == Decrypted(s2, text)
  {
    ShiftedCongruent(Lower(text), s1, s2);
    assert -s1 % 26 == -s2 % 26 by {
      ModSum(-s1, s1);
      ModSum(-s2, s2);
    }
    ShiftedCongruent(Lower(text), -s1, -s2);
  }

  /** Text whose characters rotate one by one into `t` shifts into `t`. */
  lemma ShiftedInto(s: string, k: int, t: string)
    requires |s| == |t|
    requires forall i :: 0 <= i < |s| ==> Rotate(s[i], k) == t[i]
    ensures Shifted(s, k) == t
  {
  }

  /** The letters of the greeting and of its cipher, rotated by 21. */
  lemma HelloLetters()
    ensures Rotate('h', 21) == 'c' && Rotate('e', 21) == 'z' && Rotate('l', 21) == 'g'
    ensures Rotate('o', 21) == 'j' && Rotate('w', 21) == 'r' && Rotate('r', 21) == 'm'
    ensures Rotate('d', 21) == 'y'
    ensures Rotate(',', 21) == ',' && Rotate(' ', 21) == ' ' && Rotate('!', 21) == '!'
  {
  }

  /** The lower-cased greeting shifted by 21. */
  lemma HelloShift()
    ensures Shifted("hello, world!", 21) == "czggj, rjmgy!"
  {
    HelloLetters();
    ShiftedInto("hello, world!", 21, "czggj, rjmgy!");
  }

  /** The demonstration: with shift 21, "Hello, world!" encrypts to
      "czggj, rjmgy!", which decrypts to the lower-cased greeting. */
  lemma HelloWorld()
    ensures Encrypted(21, "Hello, world!") == Some("czggj, rjmgy!")
    ensures Decrypted(21, "czggj, rjmgy!") == Some("hello, world!")
  {
    assert !IsBlank("Hello, world!") by { assert !IsSpace("Hello, world!"[0]); }
    assert Lower("Hello, world!") == "hello, world!";
    HelloShift();
    RoundTrip(21, "Hello, world!");
  }

  /** `Caesar`: holds the alphabet and its length. Its `decrypt` repeats the
      loop of `CaesarDecrypt` on `text.lower()`. */
  class Caesar {
    const alphabet: string := Lowercase
    const alphaLen: nat := 26

    constructor ()
    {
    }

    /** `Caesar.decrypt`: `None` for blank text; otherwise each character of
        the lower-cased text is either copied or moved back `shift` places. */
    method Decrypt(shift: int, text: string) returns (r: Option<string>)
      ensures r == Decrypted(shift, text)
    {
      StripEmptyIffBlank(text);
      if Strip(text) == [] {
        return None;
      }
      var low := Lower(text);
      LowerNoUpper(text);
      var acc := "";
      for i := 0 to |low|
        invariant |acc| == i
        invariant forall j :: 0 <= j < i ==> acc[j] == Rotate(low[j], -shift)
      {
        var letter := low[i];
        if !IsAlpha(letter) {
          acc := acc + [letter];
        } else {
          LowercaseLetters((LetterIndex(letter) - shift) % 26);
          var subIdx := (LetterIndex(letter) - shift) % alphaLen;
          acc := acc + [alphabet[subIdx]];
        }
      }
      assert acc == Shifted(low, -shift);
      return Some(acc);
    }
  }

  /** `CaesarEncrypt`: shifts forward with the alphabet of a `Caesar`. */
  class CaesarEncrypt {
    const caesar: Caesar

    constructor (caesar: Caesar)
      ensures this.caesar == caesar
    {
      this.caesar := caesar;
    }

    /** `encrypt`: `_encrypt_text` on the lower-cased text. */
    method Encrypt(shift: int, text: string) returns (r: Option<string>)
      ensures r == Encrypted(shift, text)
    {
      LowerNoUpper(text);
      LowerBlank(text);
      r := EncryptText(shift, Lower(text));
    }

    /** `_encrypt_text`: `None` for blank text, otherwise the letters
        shifted and everything else copied. It is only called on lower-cased
        text. */
    method EncryptText(shift: int, text: string) returns (r: Option<string>)
      requires NoUpper(text)
      ensures IsBlank(text) ==> r.None?
      ensures !IsBlank(text) ==> r == Some(Shifted(text, shift))
    {
      StripEmptyIffBlank(text);
      if Strip(text) == [] {
        return None;
      }
      var acc := "";
      for i := 0 to |text|
        invariant |acc| == i
        invariant forall j :: 0 <= j < i ==> acc[j] == Rotate(text[j], shift)
      {
        var letter := text[i];
        if !IsAlpha(letter) {
          acc := acc + [letter];
        } else {
          acc := acc + [EncryptLetter(letter, shift)];
        }
      }
      assert acc == Shifted(text, shift);
      return Some(acc);
    }

    /** `_encrypt_letter`: the letter `shift` places further along the
        alphabet, wrapping around. */
    function EncryptLetter(letter: char, shift: int): (r: char)
      requires IsLower(letter)
      ensures IsLower(r)
      ensures LetterIndex(r) == (LetterIndex(letter) + shift) % 26
    {
      RotateSpec(letter, shift);
      caesar.alphabet[(LetterIndex(letter) + shift) % caesar.alphaLen]
    }
  }

  /** `CaesarDecrypt`: shifts back with the alphabet of a `Caesar`. */
  class CaesarDecrypt {
    const caesar: Caesar

    constructor (caesar: Caesar)
      ensures this.caesar == caesar
    {
      this.caesar := caesar;
    }

    /** `decrypt`: `_decrypt_text` on the lower-cased text. */
    method Decrypt(shift: int, text: string) returns (r: Option<string>)
      ensures r == Decrypted(shift, text)
    {
      LowerNoUpper(text);
      LowerBlank(text);
      r := DecryptText(shift, Lower(text));
    }

    /** `_decrypt_text`: `None` for blank text, otherwise the letters
        shifted back and everything else copied. It is only called on
        lower-cased text. */
    method DecryptText(shift: int, text: string) returns (r: Option<string>)
      requires NoUpper(text)
      ensures IsBlank(text) ==> r.None?
      ensures !IsBlank(text) ==> r == Some(Shifted(text, -shift))
    {
      StripEmptyIffBlank(text);
      if Strip(text) == [] {
        return None;
      }
      var acc := "";
      for i := 0 to |text|
        invariant |acc| == i
        invariant forall j :: 0 <= j < i ==> acc[j] == Rotate(text[j], -shift)
      {
        var letter := text[i];
        if !IsAlpha(letter) {
          acc := acc + [letter];
        } else {
          acc := acc + [DecryptLetter(letter, shift)];
        }
      }
      assert acc == Shifted(text, -shift);
      return Some(acc);
    }

    /** `_decrypt_letter`: the letter `shift` places back along the
        alphabet, wrapping around. */
    function DecryptLetter(letter: char, shift: int): (r: char)
      requires IsLower(letter)
      ensures IsLower(r)
      ensures LetterIndex(r) == (LetterIndex(letter) - shift) % 26
    {
      RotateSpec(letter, -shift);
      caesar.alphabet[(LetterIndex(letter) - shift) % caesar.alphaLen]
    }
  }
}
