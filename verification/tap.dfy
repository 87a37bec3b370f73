/**
  The tap code: letters sit in a 5 by 5 grid (K has no cell and is sent as
  C), and a letter is sent as its 1-based row and column, written "row,col";
  the taps of a message are separated by single spaces. Decoding reads the
  whitespace-separated taps back, wrapping rows and columns modulo 5.
 */
module Tap {
  import opened Wrappers
  import opened PyStr

  /** `grid`: the five rows of the square. */
  const Grid: seq<string> := ["ABCDE", "FGHIJ", "LMNOP", "QRSTU", "VWXYZ"]

  // ---------------------------------------------------------------- the grid

  /** The alphabet position (0 for A) of the letter in row `r`, column `c`:
      the cells run through the alphabet in order, skipping K. */
  function CellIndex(r: nat, c: nat): nat {
    var n := 5 * r + c;
    if n < 10 then n else n + 1
  }

  /** The letters that have a cell: upper-case and not K. */
  predicate InGrid(ch: char) {
    IsUpper(ch) && ch != 'K'
  }

  /** The grid literal is the alphabet without K, row by row. */
  lemma GridCell(r: nat, c: nat)
    requires r < 5 && c < 5
    ensures |Grid| == 5 && |Grid[r]| == 5
    ensures Grid[r][c] == (65 + CellIndex(r, c)) as char
  {
    if r == 0 {
      assert Grid[0] == "ABCDE";
    } else if r == 1 {
      assert Grid[1] == "FGHIJ";
    } else if r == 2 {
      assert Grid[2] == "LMNOP";
    } else if r == 3 {
      assert Grid[3] == "QRSTU";
    } else {
      assert Grid[4] == "VWXYZ";
    }
  }

  /** The grid holds 25 distinct upper-case letters and no K. */
  lemma GridLetters(r1: nat, c1: nat, r2: nat, c2: nat)
    requires r1 < 5 && c1 < 5 && r2 < 5 && c2 < 5
    ensures InGrid(Grid[r1][c1])
    ensures Grid[r1][c1] == Grid[r2][c2] ==> r1 == r2 && c1 == c2
  {
    GridCell(r1, c1);
    GridCell(r2, c2);
  }

  /** The cell of a letter that has one. */
  function CellOf(ch: char): (rc: (nat, nat))
    requires InGrid(ch)
    ensures rc.0 < 5 && rc.1 < 5 && Grid[rc.0][rc.1] == ch
  {
    var n := ch as int - 65;
    var m := if n < 10 then n else n - 1;
    GridCell(m / 5, m % 5);
    (m / 5, m % 5)
  }

  /** Exactly the letters of `InGrid` have a cell, and each has only one. */
  lemma CellUnique(ch: char, r: nat, c: nat)
    requires r < 5 && c < 5
    ensures Grid[r][c] == ch <==> InGrid(ch) && CellOf(ch) == (r, c)
  {
    GridLetters(r, c, r, c);
    if InGrid(ch) {
      var (r2, c2) := CellOf(ch);
      GridLetters(r, c, r2, c2);
    }
  }

  // ---------------------------------------------------------------- numerals

  predicate IsDigit(c: char) {
    '0' <= c <= '9'
  }

  predicate AllDigits(s: string) {
    forall i :: 0 <= i < |s| ==> IsDigit(s[i])
  }

  function DigitChar(d: nat): (c: char)
    requires d < 10
    ensures IsDigit(c)
  {
    (48 + d) as char
  }

  /** The value of a string of decimal digits. */
  function DigitsValue(s: string): nat
    requires AllDigits(s)
  {
    if s == [] then 0 else DigitsValue(s[..|s| - 1]) * 10 + (s[|s| - 1] as int - 48)
  }

  /** `int(s)` for an optional sign followed by ASCII decimal digits. */
  function ParseInt(s: string): Option<int> {
    if |s| > 1 && (s[0] == '+' || s[0] == '-') && AllDigits(s[1..]) then
      var v: int := DigitsValue(s[1..]);
      Some(if s[0] == '-' then -v else v)
    else if s != [] && AllDigits(s) then Some(DigitsValue(s))
    else None
  }

  /** `f"{n}"` for a natural number: its decimal digits, most significant first. */
  function Numeral(n: nat): (s: string)
    ensures s != [] && AllDigits(s)
  {
    if n < 10 then [DigitChar(n)] else Numeral(n / 10) + [DigitChar(n % 10)]
  }

  /** Reading a numeral back gives its number. */
  lemma {:induction false} NumeralValue(n: nat)
    ensures DigitsValue(Numeral(n)) == n
  {
    if n >= 10 {
      NumeralValue(n / 10);
      var s := Numeral(n);
      assert s[..|s| - 1] == Numeral(n / 10);
    }
  }

  /** `int(f"{n}") == n`. */
  lemma ParseNumeral(n: nat)
    ensures ParseInt(Numeral(n)) == Some(n)
  {
    NumeralValue(n);
  }

  // ---------------------------------------------------------------- encoding

  /** One tap, `f"{row},{col}"`. */
  function Tap(row: nat, col: nat): (t: string)
    ensures t != [] && NoSpace(t)
  {
    Numeral(row) + "," + Numeral(col)
  }

  /** The taps the inner loop of `tap_code` appends for `letter` while it
      scans the first `j` rows of the grid: one for every row holding it. */
  function RowTaps(letter: char, j: nat): seq<string>
    requires j <= |Grid|
  {
    if j == 0 then []
    else
      RowTaps(letter, j - 1) +
      if letter in Grid[j - 1] then [Tap(j, IndexOf(Grid[j - 1], letter).value + 1)] else []
  }

  /** The K that is tapped as C. */
  function KAsC(letter: char): char {
    if letter == 'K' then 'C' else letter
  }

  /** The taps `tap_code` collects for an upper-cased message. */
  function Taps(s: string): seq<string> {
    if s == [] then [] else Taps(s[..|s| - 1]) + RowTaps(KAsC(s[|s| - 1]), |Grid|)
  }

  /** `tap_code(message)`. */
  function TapCoded(message: string): string {
    Join(" ", Taps(Upper(message)))
  }

  /** The rows are pairwise different, so `grid.index(cell)` finds the row
      being scanned. */
  lemma GridRowIndex(j: nat)
    requires j < |Grid|
    ensures IndexOf(Grid, Grid[j]) == Some(j)
  {
    var k := IndexOf(Grid, Grid[j]).value;
    GridCell(j, 0);
    GridCell(k, 0);
    if k != j {
      GridLetters(j, 0, k, 0);
    }
  }

  /** The inner loop of `tap_code`: scan the grid rows for `letter`,
      one tap for each row that holds it. */
  method ScanGrid(letter: char) returns (taps: seq<string>)
    ensures taps == RowTaps(letter, |Grid|)
  {
    taps := [];
    for j := 0 to |Grid|
      invariant taps == RowTaps(letter, j)
    {
      var cell := Grid[j];
      if letter in cell {
        GridRowIndex(j);
        var row := IndexOf(Grid, cell).value + 1;
        var col := IndexOf(cell, letter).value + 1;
        taps := taps + [Tap(row, col)];
      }
    }
  }

  /** `tap_code`: upper-case the message, tap K as C, and for every letter
      append the taps of the grid scan. */
  method TapCode(message: string) returns (r: string)
    ensures r == TapCoded(message)
  {
    var upper := Upper(message);
    var cipherText: seq<string> := [];
    for i := 0 to |upper|
      invariant cipherText == Taps(upper[..i])
    {
      var letter := upper[i];
      if letter == 'K' {
        letter := 'C';
      }
      var taps := ScanGrid(letter);
      assert upper[..i + 1][..i] == upper[..i];
      cipherText := cipherText + taps;
    }
    assert upper[..|upper|] == upper;
    r := Join(" ", cipherText);
  }

  /** The tap of a letter that has a cell. */
  function CodeOf(ch: char): string
    requires InGrid(ch)
  {
    Tap(CellOf(ch).0 + 1, CellOf(ch).1 + 1)
  }

  /** A row holds a letter exactly when the letter's cell is in that row,
      and `cell.index(letter)` is then the letter's column. */
  lemma RowHolds(letter: char, j: nat)
    requires j < |Grid|
    ensures letter in Grid[j] <==> InGrid(letter) && CellOf(letter).0 == j
    ensures letter in Grid[j] ==> IndexOf(Grid[j], letter) == Some(CellOf(letter).1)
  {
    GridCell(j, 0);
    if letter in Grid[j] {
      var k := IndexOf(Grid[j], letter).value;
      CellUnique(letter, j, k);
    }
  }

  /** Scanning row `j - 1` adds the letter's tap exactly when its cell is there. */
  lemma RowTapsLast(letter: char, j: nat)
    requires 0 < j <= |Grid|
    ensures RowTaps(letter, j) == RowTaps(letter, j - 1) +
      if InGrid(letter) && CellOf(letter).0 == j - 1 then [CodeOf(letter)] else []
  {
    RowHolds(letter, j - 1);
  }

  /** Scanning the first `j` rows for a letter finds its one cell, if that
      cell lies among them. */
  lemma {:induction false} RowTapsCell(letter: char, j: nat)
    requires j <= |Grid|
    ensures RowTaps(letter, j) ==
      if InGrid(letter) && CellOf(letter).0 < j then [CodeOf(letter)] else []
  {
    if j > 0 {
      RowTapsCell(letter, j - 1);
      RowTapsLast(letter, j);
    }
  }

  /** The letters an upper-cased message keeps in tap code: K becomes C,
      and characters without a cell are dropped. */
  function Kept(s: string): (k: string)
    ensures |k| <= |s|
    ensures forall i :: 0 <= i < |k| ==> InGrid(k[i])
  {
    if s == [] then []
    else Kept(s[..|s| - 1]) + if InGrid(KAsC(s[|s| - 1])) then [KAsC(s[|s| - 1])] else []
  }

  /** The taps of the kept letters, in order. */
  function CodesOf(k: string): (cs: seq<string>)
    requires forall i :: 0 <= i < |k| ==> InGrid(k[i])
    ensures |cs| == |k|
  {
    seq(|k|, i requires 0 <= i < |k| => CodeOf(k[i]))
  }

  lemma CodesOfSnoc(k: string, extra: string)
    requires forall i :: 0 <= i < |k| ==> InGrid(k[i])
    requires forall i :: 0 <= i < |extra| ==> InGrid(extra[i])
    ensures CodesOf(k + extra) == CodesOf(k) + CodesOf(extra)
  {
  }

  /** `tap_code` emits one tap per kept letter, the tap of that letter's cell. */
  lemma {:induction false} TapsKept(s: string)
    ensures Taps(s) == CodesOf(Kept(s))
  {
    if s != [] {
      var n := |s| - 1;
      TapsKept(s[..n]);
      RowTapsCell(KAsC(s[n]), |Grid|);
      var extra := if InGrid(KAsC(s[n])) then [KAsC(s[n])] else [];
      CodesOfSnoc(Kept(s[..n]), extra);
      assert CodesOf(extra) == if InGrid(KAsC(s[n])) then [CodeOf(KAsC(s[n]))] else [];
    }
  }

  /** `tap_code` writes, separated by single spaces, the tap of every
      letter of the upper-cased message that has a cell (K counted as C). */
  lemma TapCodedWords(message: string)
    ensures Words(TapCoded(message)) == CodesOf(Kept(Upper(message)))
  {
    TapsKept(Upper(message));
    WordsJoin(" ", CodesOf(Kept(Upper(message))));
  }

  // ---------------------------------------------------------------- decoding

  /** `map(int, parts)` gathered into a tuple: `None` when a part is not a
      number (Python raises `ValueError`). */
  function ParseAll(parts: seq<string>): (r: Option<seq<int>>)
    ensures r.None? <==> exists i :: 0 <= i < |parts| && ParseInt(parts[i]).None?
    ensures r.Some? ==>
      |r.value| == |parts| && forall i :: 0 <= i < |parts| ==> ParseInt(parts[i]) == Some(r.value[i])
  {
    if parts == [] then Some([])
    else
      var n := |parts| - 1;
      match ParseAll(parts[..n])
      case None =>
        assert exists i :: 0 <= i < n && ParseInt(parts[..n][i]).None?;
        None
      case Some(xs) =>
        match ParseInt(parts[n])
        case None => None
        case Some(x) => Some(xs + [x])
  }

  /** `tuple(map(int, tap.split(",")))` for one whitespace-separated tap. */
  function ParseTap(word: string): Option<seq<int>> {
    ParseAll(SplitOn(word, ','))
  }

  /** The list comprehension of `tap_decode`: every tap parsed, or `None`
      as soon as one is malformed. */
  function ParseTaps(words: seq<string>): (r: Option<seq<seq<int>>>)
    ensures r.None? <==> exists i :: 0 <= i < |words| && ParseTap(words[i]).None?
    ensures r.Some? ==>
      |r.value| == |words| && forall i :: 0 <= i < |words| ==> ParseTap(words[i]) == Some(r.value[i])
  {
    if words == [] then Some([])
    else
      var n := |words| - 1;
      match ParseTaps(words[..n])
      case None =>
        assert exists i :: 0 <= i < n && ParseTap(words[..n][i]).None?;
        None
      case Some(ts) =>
        match ParseTap(words[n])
        case None => None
        case Some(t) => Some(ts + [t])
  }

  /** One step of the list comprehension: a malformed tap ends it with
      `None`, a well-formed one is appended. */
  lemma ParseTapsStep(words: seq<string>, i: nat, taps: seq<seq<int>>)
    requires i < |words| && ParseTaps(words[..i]) == Some(taps)
    ensures ParseTap(words[i]).None? ==> ParseTaps(words) == None
    ensures ParseTap(words[i]).Some? ==>
      ParseTaps(words[..i + 1]) == Some(taps + [ParseTap(words[i]).value])
  {
    assert words[..i + 1][..i] == words[..i];
  }

  /** `grid[row][col]` after the 0-based, modulo-5 adjustment. Python's `%`
      floors, which agrees with Dafny's Euclidean `%` for the modulus 5. */
  function TapLetter(row: int, col: int): (ch: char)
    ensures InGrid(ch)
  {
    var r := (row - 1) % |Grid|;
    GridCell(r, 0);
    var c := (col - 1) % |Grid[r]|;
    GridLetters(r, c, r, c);
    Grid[r][c]
  }

  /** What one parsed tap adds to the message: `None` when it has fewer than
      two numbers (Python raises `IndexError`). */
  function TapPiece(tap: seq<int>): Option<string> {
    if |tap| < 2 then None else Some([TapLetter(tap[0], tap[1])])
  }

  function TapPieces(taps: seq<seq<int>>): (ps: seq<Option<string>>)
    ensures |ps| == |taps|
  {
    seq(|taps|, i requires 0 <= i < |taps| => TapPiece(taps[i]))
  }

  /** Decoding the whitespace-separated taps `words`. */
  function DecodeWords(words: seq<string>): Option<string> {
    match ParseTaps(words)
    case None => None
    case Some(taps) => ConcatSome(TapPieces(taps))
  }

  /** `tap_decode(cipher_text)`; `None` where Python raises. */
  function TapDecoded(cipherText: string): Option<string> {
    DecodeWords(Words(cipherText))
  }

  /** `tap_decode`: parse every whitespace-separated tap, then look each one
      up in the grid, wrapping row and column modulo 5. */
  method TapDecode(cipherText: string) returns (r: Option<string>)
    ensures r == TapDecoded(cipherText)
  {
    var words := Words(cipherText);
    var tapCodes: seq<seq<int>> := [];
    for i := 0 to |words|
      invariant ParseTaps(words[..i]) == Some(tapCodes)
    {
      var tap := ParseTap(words[i]);
      ParseTapsStep(words, i, tapCodes);
      if tap.None? {
        return None;
      }
      tapCodes := tapCodes + [tap.value];
    }
    assert words[..|words|] == words;
    var pieces := TapPieces(tapCodes);
    var decodedMessage := "";
    for i := 0 to |tapCodes|
      invariant ConcatSome(pieces[..i]) == Some(decodedMessage)
    {
      var tap := tapCodes[i];
      ConcatSomeStep(pieces, i, decodedMessage);
      if |tap| < 2 {
        return None;
      }
      var row := (tap[0] - 1) % |Grid|;
      GridCell(row, 0);
      var col := (tap[1] - 1) % |Grid[row]|;
      decodedMessage := decodedMessage + [Grid[row][col]];
    }
    assert pieces[..|pieces|] == pieces;
    return Some(decodedMessage);
  }

  // ---------------------------------------------------------------- properties

  /** A tap names the same letter when its row or column moves by a
      multiple of 5: "6,7" reads like "1,2", and "0,0" like "5,5". */
  lemma TapLetterWraps(row: int, col: int, a: int, b: int)
    ensures TapLetter(row + 5 * a, col + 5 * b) == TapLetter(row, col)
  {
    GridCell(0, 0);
    assert (row + 5 * a - 1) % 5 == (row - 1) % 5;
    var r := (row - 1) % 5;
    GridCell(r, 0);
    assert (col + 5 * b - 1) % 5 == (col - 1) % 5;
  }

  /** In range, a tap reads its own cell. */
  lemma TapLetterCell(r: nat, c: nat)
    requires r < 5 && c < 5
    ensures TapLetter(r + 1, c + 1) == Grid[r][c]
  {
    GridCell(r, c);
  }

  /** A tap "row,col" parses back to its two numbers. */
  lemma ParseTapNumbers(row: nat, col: nat)
    ensures ParseTap(Tap(row, col)) == Some([row, col])
  {
    var parts := [Numeral(row), Numeral(col)];
    assert Join([','], parts) == Tap(row, col);
    assert ',' !in parts[0] && ',' !in parts[1] by {
      assert !IsDigit(',');
    }
    SplitJoin(parts, ',');
    ParseNumeral(row);
    ParseNumeral(col);
    var v := ParseAll(parts);
    assert v.Some?;
    assert v.value == [row, col];
  }

  /** The tap of a letter parses back to its 1-based row and column. */
  lemma ParseCode(ch: char)
    requires InGrid(ch)
    ensures ParseTap(CodeOf(ch)) == Some([CellOf(ch).0 + 1, CellOf(ch).1 + 1])
  {
    ParseTapNumbers(CellOf(ch).0 + 1, CellOf(ch).1 + 1);
  }

  /** The taps of some letters: their 1-based rows and columns. */
  function CellNumbers(k: string): (taps: seq<seq<int>>)
    requires forall i :: 0 <= i < |k| ==> InGrid(k[i])
    ensures |taps| == |k|
  {
    seq(|k|, i requires 0 <= i < |k| => [CellOf(k[i]).0 + 1, CellOf(k[i]).1 + 1])
  }

  lemma ParseCodes(k: string)
    requires forall i :: 0 <= i < |k| ==> InGrid(k[i])
    ensures ParseTaps(CodesOf(k)) == Some(CellNumbers(k))
  {
    var cs := CodesOf(k);
    forall i | 0 <= i < |k|
      ensures ParseTap(cs[i]) == Some(CellNumbers(k)[i])
    {
      ParseCode(k[i]);
    }
    assert ParseTaps(cs).value == CellNumbers(k);
  }

  lemma DecodeNumbers(k: string)
    requires forall i :: 0 <= i < |k| ==> InGrid(k[i])
    ensures ConcatSome(TapPieces(CellNumbers(k))) == Some(k)
  {
    var ps := TapPieces(CellNumbers(k));
    forall i | 0 <= i < |k|
      ensures ps[i] == Some([k[i]])
    {
      TapLetterCell(CellOf(k[i]).0, CellOf(k[i]).1);
    }
    ConcatSomeChars(ps, k);
  }

  /** Decoding the space-separated taps of some letters gives the letters back. */
  lemma DecodeCodes(k: string)
    requires forall i :: 0 <= i < |k| ==> InGrid(k[i])
    ensures TapDecoded(Join(" ", CodesOf(k))) == Some(k)
  {
    WordsJoin(" ", CodesOf(k));
    ParseCodes(k);
    DecodeNumbers(k);
  }

  /** Decoding what `tap_code` wrote gives the upper-cased message back, with
      K read as C and the characters that have no cell removed. */
  lemma RoundTrip(message: string)
    ensures TapDecoded(TapCoded(message)) == Some(Kept(Upper(message)))
  {
    TapsKept(Upper(message));
    DecodeCodes(Kept(Upper(message)));
  }

  /** The lookup loop fails exactly at a tap with fewer than two numbers. */
  lemma PiecesNone(taps: seq<seq<int>>)
    ensures ConcatSome(TapPieces(taps)).None? <==> exists i :: 0 <= i < |taps| && |taps[i]| < 2
  {
    var ps := TapPieces(taps);
    ConcatSomeNoneIff(ps);
    assert forall i :: 0 <= i < |taps| ==> (ps[i].None? <==> |taps[i]| < 2);
  }

  /** Otherwise it gives one letter per tap, read from its first two numbers. */
  lemma PiecesLetters(taps: seq<seq<int>>)
    requires ConcatSome(TapPieces(taps)).Some?
    ensures var r := ConcatSome(TapPieces(taps)).value;
      |r| == |taps| &&
      forall i :: 0 <= i < |taps| ==> |taps[i]| >= 2 && r[i] == TapLetter(taps[i][0], taps[i][1])
  {
    var ps := TapPieces(taps);
    PiecesNone(taps);
    ConcatSomeAllSome(ps);
    ConcatSingles(seq(|ps|, i requires 0 <= i < |ps| => ps[i].value));
  }

  /** Decoding fails exactly when a tap is not numbers separated by commas
      or has fewer than two of them. */
  lemma DecodeWordsNone(ws: seq<string>)
    ensures DecodeWords(ws).None? <==>
      exists i :: 0 <= i < |ws| && (ParseTap(ws[i]).None? || |ParseTap(ws[i]).value| < 2)
  {
    var parsed := ParseTaps(ws);
    if parsed.Some? {
      var taps := parsed.value;
      PiecesNone(taps);
      if exists i :: 0 <= i < |ws| && (ParseTap(ws[i]).None? || |ParseTap(ws[i]).value| < 2) {
        var i :| 0 <= i < |ws| && (ParseTap(ws[i]).None? || |ParseTap(ws[i]).value| < 2);
        assert |taps[i]| < 2;
      }
      if ConcatSome(TapPieces(taps)).None? {
        var i :| 0 <= i < |taps| && |taps[i]| < 2;
        assert ParseTap(ws[i]) == Some(taps[i]);
      }
    }
  }

  /** Otherwise it gives one grid letter per tap, read from the tap's first
      two numbers. */
  lemma DecodeWordsLetters(ws: seq<string>)
    requires DecodeWords(ws).Some?
    ensures var r := DecodeWords(ws).value;
      |r| == |ws| &&
      forall i :: 0 <= i < |ws| ==>
        var t := ParseTap(ws[i]).value;
        |t| >= 2 && r[i] == TapLetter(t[0], t[1]) && InGrid(r[i])
  {
    PiecesLetters(ParseTaps(ws).value);
  }

  /** A single tap decodes to the letter its numbers name, in range or not. */
  lemma DecodeOneTap(row: nat, col: nat)
    ensures TapDecoded(Tap(row, col)) == Some([TapLetter(row, col)])
  {
    var ws := [Tap(row, col)];
    WordsOfWord(Tap(row, col));
    ParseTapNumbers(row, col);
    DecodeWordsNone(ws);
    DecodeWordsLetters(ws);
    var r := DecodeWords(ws).value;
    assert r == [TapLetter(row, col)];
  }

  // ---------------------------------------------------------------- examples

  /** "6,7" is out of range and wraps to "1,2": both decode to "B". */
  lemma DecodeSixSeven()
    ensures TapDecoded("6,7") == TapDecoded("1,2") == Some("B")
  {
    assert Tap(6, 7) == "6,7";
    assert Tap(1, 2) == "1,2";
    DecodeOneTap(6, 7);
    DecodeOneTap(1, 2);
    TapLetterWraps(1, 2, 1, 1);
    TapLetterCell(0, 1);
    assert Grid[0][1] == 'B';
  }

  lemma DogKept()
    ensures Kept(Upper("DOG")) == "DOG"
  {
    assert Upper("DOG") == "DOG";
    assert "DOG"[..2] == "DO";
    assert "DO"[..1] == "D";
    assert "D"[..0] == "";
  }

  lemma DogCodes()
    ensures CodesOf("DOG") == ["1,4", "3,4", "2,2"]
  {
    GridCell(0, 3);
    GridCell(2, 3);
    GridCell(1, 1);
    CellUnique('D', 0, 3);
    CellUnique('O', 2, 3);
    CellUnique('G', 1, 1);
    assert Tap(1, 4) == "1,4";
    assert Tap(3, 4) == "3,4";
    assert Tap(2, 2) == "2,2";
  }

  lemma DogTaps()
    ensures Taps(Upper("DOG")) == ["1,4", "3,4", "2,2"]
  {
    DogKept();
    DogCodes();
    TapsKept(Upper("DOG"));
  }

  lemma DogJoin()
    ensures Join(" ", ["1,4", "3,4", "2,2"]) == "1,4 3,4 2,2"
  {
    var cs := ["1,4", "3,4", "2,2"];
    assert cs[1..][1..] == ["2,2"];
    assert Join(" ", cs[1..]) == "3,4 2,2";
  }

  /** The example of the module's `main`: "DOG" taps as "1,4 3,4 2,2". */
  lemma DogEncode()
    ensures TapCoded("DOG") == "1,4 3,4 2,2"
  {
    DogTaps();
    DogJoin();
  }

  /** ... and those taps decode to "DOG". */
  lemma DogDecode()
    ensures TapDecoded("1,4 3,4 2,2") == Some("DOG")
  {
    DogEncode();
    DogKept();
    RoundTrip("DOG");
  }
}
