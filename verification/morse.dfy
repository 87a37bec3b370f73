/**
  The older Morse code classes (`morse.py`). The chart and the two lists
  derived from it are class attributes that `Morse`, `MorseEncrypt` and
  `MorseDecrypt` share, so they are modelled as one `Morse` object that the
  encoder and the decoder are given.

  The codes are checked by `is_morse` and normalised by `clean_morse`, both
  of which split on single spaces; a refused insert is printed, not raised.
  The per-symbol decoder is the same as the newer draft's and is reused.
 */
module Morse {
  import opened Wrappers
  import opened PyStr
  import opened MorseChart
  import opened BuiltinChart
  import Morse2

  /** `[char for char in xs if char.strip()]`. */
  function NonBlank(xs: seq<string>): (r: seq<string>)
    ensures forall i :: 0 <= i < |r| ==> !IsBlank(r[i])
    ensures forall x :: x in r <==> x in xs && !IsBlank(x)
  {
    if xs == [] then []
    else if IsBlank(xs[0]) then NonBlank(xs[1..])
    else [xs[0]] + NonBlank(xs[1..])
  }

  /** `clean_morse`: the non-blank fragments between single spaces, joined
      by two spaces. */
  function CleanMorse(morse: string): (r: string)
    ensures forall i :: 0 <= i < |r| ==> r[i] != ' ' || (0 < i < |r| - 1)
  {
    var raw := NonBlank(SplitOn(morse, ' '));
    if raw == [] then "" else
      CleanEnds(raw);
      Join("  ", raw)
  }

  /** Joined fragments without a space neither start nor end with one. */
  lemma {:induction false} CleanEnds(raw: seq<string>)
    requires raw != []
    requires forall i :: 0 <= i < |raw| ==> raw[i] != [] && ' ' !in raw[i]
    ensures var j := Join("  ", raw); j != [] && j[0] != ' ' && j[|j| - 1] != ' '
  {
    if |raw| > 1 {
      CleanEnds(raw[1..]);
      var rest := Join("  ", raw[1..]);
      assert (raw[0] + "  " + rest)[0] == raw[0][0];
      assert (raw[0] + "  " + rest)[|raw[0] + "  " + rest| - 1] == rest[|rest| - 1];
    }
  }

  /** The parts that `split(" ")` sees in fragments joined by two spaces:
      an empty part between each two fragments. */
  function Spread(xs: seq<string>): (r: seq<string>)
    ensures |xs| > 0 ==> |r| > 0
    ensures forall x :: x in r <==> x in xs || (|xs| > 1 && x == "")
  {
    if |xs| <= 1 then xs else [xs[0], ""] + Spread(xs[1..])
  }

  /** Two spaces between fragments are one space, an empty part and one
      space. */
  lemma {:induction false} JoinSpread(xs: seq<string>)
    ensures Join("  ", xs) == Join(" ", Spread(xs))
  {
    if |xs| > 1 {
      JoinSpread(xs[1..]);
      var s := Spread(xs[1..]);
      assert ([xs[0], ""] + s)[1..] == [""] + s;
      assert ([""] + s)[1..] == s;
    }
  }

  lemma NonBlankCons(x: string, xs: seq<string>)
    ensures NonBlank([x] + xs) == if IsBlank(x) then NonBlank(xs) else [x] + NonBlank(xs)
  {
    assert ([x] + xs)[1..] == xs;
  }

  /** Dropping the blank parts of the spread fragments gives them back. */
  lemma {:induction false} NonBlankSpread(xs: seq<string>)
    requires forall i :: 0 <= i < |xs| ==> !IsBlank(xs[i])
    ensures NonBlank(Spread(xs)) == xs
  {
    if |xs| == 1 {
      NonBlankCons(xs[0], []);
      assert [xs[0]] + [] == xs;
    } else if |xs| > 1 {
      var rest := Spread(xs[1..]);
      NonBlankSpread(xs[1..]);
      assert IsBlank("");
      NonBlankCons("", rest);
      NonBlankCons(xs[0], [""] + rest);
      assert [xs[0], ""] + rest == [xs[0]] + ([""] + rest);
      assert [xs[0]] + xs[1..] == xs;
    }
  }

  /** What `split(" ")` yields on a cleaned code: its fragments, with an
      empty part between each two, or one empty part. */
  lemma CleanParts(morse: string)
    ensures var raw := NonBlank(SplitOn(morse, ' '));
      SplitOn(CleanMorse(morse), ' ') == if raw == [] then [""] else Spread(raw)
  {
    var raw := NonBlank(SplitOn(morse, ' '));
    if raw != [] {
      JoinSpread(raw);
      var s := Spread(raw);
      forall i | 0 <= i < |s| ensures ' ' !in s[i] {
        assert s[i] in raw || s[i] == "";
      }
      SplitJoin(s, ' ');
    }
  }

  /** Cleaning a cleaned code changes nothing. */
  lemma CleanMorseIdempotent(morse: string)
    ensures CleanMorse(CleanMorse(morse)) == CleanMorse(morse)
  {
    var raw := NonBlank(SplitOn(morse, ' '));
    CleanParts(morse);
    if raw != [] {
      NonBlankSpread(raw);
    } else {
      assert NonBlank([""]) == [] by { assert IsBlank(""); }
    }
  }

  /** What `is_morse` accepts: a non-blank code every fragment of whose
      cleaned form is made of dots and dashes. */
  predicate ValidMorse(morse: Option<string>) {
    morse.Some? && !IsBlank(morse.value) &&
    var parts := SplitOn(CleanMorse(morse.value), ' ');
    forall i :: 0 <= i < |parts| ==> DotDash(parts[i])
  }

  /** `is_morse` in terms of the raw code: every fragment between single
      spaces that is not blank uses dots and dashes only. A fragment holding
      any other whitespace is therefore refused. */
  lemma ValidMorseRaw(morse: string)
    ensures ValidMorse(Some(morse)) <==>
      !IsBlank(morse) &&
      forall f :: f in SplitOn(morse, ' ') && !IsBlank(f) ==> DotDash(f)
  {
    var raw := NonBlank(SplitOn(morse, ' '));
    var parts := SplitOn(CleanMorse(morse), ' ');
    CleanParts(morse);
    assert DotDash("");
    if forall i :: 0 <= i < |parts| ==> DotDash(parts[i]) {
      forall f | f in SplitOn(morse, ' ') && !IsBlank(f) ensures DotDash(f) {
        assert f in raw;
        assert f in parts;
      }
    }
    if forall f :: f in SplitOn(morse, ' ') && !IsBlank(f) ==> DotDash(f) {
      forall i | 0 <= i < |parts| ensures DotDash(parts[i]) {
        assert parts[i] in raw || parts[i] == "";
      }
    }
  }

  /** `is_morse`: refuses `None` and blank input, then walks every symbol of
      every fragment of the cleaned code and stops at the first that is
      neither a dot nor a dash. */
  method IsMorse(morse: Option<string>) returns (b: bool)
    ensures b == ValidMorse(morse)
  {
    if morse.None? {
      return false;
    }
    var m := morse.value;
    StripEmptyIffBlank(m);
    if Strip(m) == [] {
      return false;
    }
    var parts := SplitOn(CleanMorse(m), ' ');
    var i := 0;
    while i < |parts|
      invariant i <= |parts|
      invariant forall k :: 0 <= k < i ==> DotDash(parts[k])
    {
      var part := parts[i];
      var j := 0;
      while j < |part|
        invariant j <= |part|
        invariant forall k :: 0 <= k < j ==> part[k] == '.' || part[k] == '-'
      {
        if part[j] != '.' && part[j] != '-' {
          return false;
        }
        j := j + 1;
      }
      i := i + 1;
    }
    return true;
  }

  /** `in_morse_chart`: a query `is_morse` accepts is looked up among the
      codes and resolves to the first entry with that code; any other query
      is looked up among the keys. A miss, and a `None` query, give `None`. */
  function InMorseChart(chart: seq<Entry>, query: Option<string>): (r: Option<(string, string)>)
    ensures r.None? <==>
      query.None? || Morse2.Probe(query.value) !in (if ValidMorse(query) then Codes(chart) else Keys(chart))
    ensures r.Some? && ValidMorse(query) ==>
      r.value.1 == Morse2.Probe(query.value) &&
      exists i :: 0 <= i < |chart| && chart[i] == Entry(r.value.0, r.value.1) &&
        forall j :: 0 <= j < i ==> chart[j].code != r.value.1
    ensures r.Some? && !ValidMorse(query) ==>
      r.value.0 == Morse2.Probe(query.value) && Get(chart, r.value.0) == Some(r.value.1)
  {
    match query
    case None => None
    case Some(q) =>
      var probe := Morse2.Probe(q);
      if ValidMorse(query) then
        match IndexOf(Codes(chart), probe)
        case None => None
        case Some(i) => Some((Keys(chart)[i], Codes(chart)[i]))
      else
        match IndexOf(Keys(chart), probe)
        case None => None
        case Some(i) => Some((Keys(chart)[i], Get(chart, probe).value))
  }

  /** With distinct keys, a key that `is_morse` refuses and that `strip` and
      `upper` leave as it is finds its own entry. */
  lemma InMorseChartKey(chart: seq<Entry>, i: nat)
    requires DistinctKeys(chart)
    requires i < |chart| && Morse2.Probe(chart[i].key) == chart[i].key
    requires !ValidMorse(Some(chart[i].key))
    ensures InMorseChart(chart, Some(chart[i].key)) == Some((chart[i].key, chart[i].code))
  {
    GetAt(chart, i);
    assert Keys(chart)[i] == chart[i].key;
  }

  /** `in_morse_chart("5")` on the built-in chart is `("5", ".....")`. */
  lemma InMorseChartFive()
    ensures InMorseChart(Builtin, Some("5")) == Some(("5", "....."))
  {
    BuiltinWellFormed();
    StripChar('5');
    assert Upper("5") == "5";
    assert !ValidMorse(Some("5")) by {
      assert !IsBlank("5") by { assert !IsSpace("5"[0]); }
      SplitOnWhole("5", ' ');
      assert "5" in SplitOn("5", ' ');
      assert !DotDash("5") by { assert "5"[0] == '5'; }
      ValidMorseRaw("5");
    }
    assert Builtin[30] == Entry("5", ".....");
    InMorseChartKey(Builtin, 30);
  }

  /** The chart after `add_morse(char, morse)`, or the message it prints
      instead: the code must pass `is_morse`, and only the exact pair
      `(char.upper(), morse)` counts as already present. */
  function Added(chart: seq<Entry>, ch: string, morse: Option<string>): (r: Result<seq<Entry>, Morse2.AddError>)
    ensures r == Failure(Morse2.InvalidCode) <==> !ValidMorse(morse)
    ensures r == Failure(Morse2.AlreadyInChart) <==> ValidMorse(morse) && Entry(Upper(ch), morse.value) in chart
  {
    if !ValidMorse(morse) then Failure(Morse2.InvalidCode)
    else if Entry(Upper(ch), morse.value) in chart then Failure(Morse2.AlreadyInChart)
    else Success(Upsert(chart, Upper(ch), CleanMorse(morse.value)))
  }

  /** A successful `add_morse` keeps the chart a dict, stores the cleaned
      code under `char.upper()` whether or not that key was there, and
      leaves every other key as it was. */
  lemma AddedUpdates(chart: seq<Entry>, ch: string, morse: Option<string>)
    requires DistinctKeys(chart)
    requires Added(chart, ch, morse).Success?
    ensures var c := Added(chart, ch, morse).value;
      DistinctKeys(c) &&
      Get(c, Upper(ch)) == Some(CleanMorse(morse.value)) &&
      (Upper(ch) in Keys(chart) ==> Keys(c) == Keys(chart)) &&
      (Upper(ch) !in Keys(chart) ==> c == chart + [Entry(Upper(ch), CleanMorse(morse.value))]) &&
      forall k :: k != Upper(ch) ==> Get(c, k) == Get(chart, k)
  {
    var code := CleanMorse(morse.value);
    UpsertDistinct(chart, Upper(ch), code);
    forall k ensures Get(Upsert(chart, Upper(ch), code), k) == if k == Upper(ch) then Some(code) else Get(chart, k) {
      UpsertGet(chart, Upper(ch), code, k);
    }
  }

  /** `add_morse("A", "-")` on the built-in chart replaces the code of "A",
      and "A" and "T" then share the code "-". */
  lemma AddedOverwritesA()
    ensures var r := Added(Builtin, "A", Some("-"));
      r.Success? && |r.value| == |Builtin| && Get(r.value, "A") == Some("-") && !DistinctCodes(r.value)
  {
    BuiltinWellFormed();
    assert Upper("A") == "A";
    assert Builtin[0] == Entry("A", ".-") && Builtin[19] == Entry("T", "-");
    assert !IsBlank("-") by { assert !IsSpace("-"[0]); }
    SplitOnWhole("-", ' ');
    assert NonBlank(["-"]) == ["-"] + NonBlank([]);
    assert CleanMorse("-") == "-";
    SplitOnWhole("-", ' ');
    assert ValidMorse(Some("-"));
    assert Entry("A", "-") !in Builtin by {
      forall i | 0 <= i < 44 ensures Builtin[i] != Entry("A", "-") {
        if i != 0 {
          assert Keys(Builtin)[i] != Keys(Builtin)[0];
        }
      }
    }
    assert Keys(Builtin)[0] == "A";
    var r := Upsert(Builtin, "A", "-");
    assert |Keys(r)| == |Keys(Builtin)|;
    UpsertGet(Builtin, "A", "-", "A");
    assert r[0] == Entry("A", "-");
    assert r[19] == Builtin[19] by {
      UpsertGet(Builtin, "A", "-", "T");
      GetAt(Builtin, 19);
      UpsertDistinct(Builtin, "A", "-");
      assert Keys(r)[19] == "T";
      GetAt(r, 19);
    }
  }

  /** After that overwrite the code "-" is stored twice, and `decrypt_morse`
      reads it as "A", the key at its first position, not as "T". */
  lemma OverwrittenDecryptsA()
    ensures var r := Added(Builtin, "A", Some("-"));
      r.Success? && Morse2.DecryptMorse(Keys(r.value), Codes(r.value), "-") == Some("A")
  {
    AddedOverwritesA();
    BuiltinWellFormed();
    var c := Added(Builtin, "A", Some("-")).value;
    assert Upper("A") == "A";
    assert c == Upsert(Builtin, "A", CleanMorse("-"));
    UpsertDistinct(Builtin, "A", CleanMorse("-"));
    assert Keys(Builtin)[0] == "A";
    assert Keys(c) == Keys(Builtin);
    assert Keys(c)[0] == "A";
    GetAt(c, 0);
    assert Codes(c)[0] == "-";
    assert !IsBlank("-") by { assert !IsSpace("-"[0]); }
    StripChar('-');
  }

  /** `encrypt_letter`: exactly `" "` becomes one space; otherwise the code
      of `char.upper()` followed by a space; anything else fails. */
  function EncryptLetter(chart: seq<Entry>, ch: string): (r: Option<string>)
    ensures ch == " " ==> r == Some(" ")
    ensures ch != " " ==> (r.Some? <==> Upper(ch) in Keys(chart))
    ensures ch != " " && r.Some? ==>
      exists i :: 0 <= i < |chart| && chart[i].key == Upper(ch) && r.value == chart[i].code + " "
  {
    if ch == " " then Some(" ")
    else
      match Get(chart, Upper(ch))
      case None => None
      case Some(c) => Some(c + " ")
  }

  /** What `encrypt` adds for each character of the upper-cased message. */
  function EncryptPieces(chart: seq<Entry>, message: string): (ps: seq<Option<string>>)
    ensures |ps| == |message|
  {
    var upper := Upper(message);
    seq(|upper|, i requires 0 <= i < |upper| => EncryptLetter(chart, [upper[i]]))
  }

  /** `MorseEncrypt.encrypt`: the pieces accumulated, then stripped, so a
      result has no whitespace at either end. */
  function Encrypted(chart: seq<Entry>, message: string): (r: Option<string>)
    ensures r.Some? ==> r.value == [] || (!IsSpace(r.value[0]) && !IsSpace(r.value[|r.value| - 1]))
  {
    match ConcatSome(EncryptPieces(chart, message))
    case None => None
    case Some(s) => Some(Strip(s))
  }

  /** Encryption fails exactly when some character of the message is not a
      space and its upper-case form is not a key; a tab, unlike in the newer
      draft, is looked up like any other character. */
  lemma EncryptedNoneIff(chart: seq<Entry>, message: string)
    ensures Encrypted(chart, message).None? <==>
      exists i :: 0 <= i < |message| && message[i] != ' ' && [UpperChar(message[i])] !in Keys(chart)
  {
    var ps := EncryptPieces(chart, message);
    ConcatSomeNoneIff(ps);
    forall i | 0 <= i < |message|
      ensures ps[i].None? <==> message[i] != ' ' && [UpperChar(message[i])] !in Keys(chart)
    {
      var u := UpperChar(message[i]);
      assert Upper(message)[i] == u;
      assert Upper([u]) == [u];
      assert [u] == " " <==> message[i] == ' ';
    }
  }

  /** The two drafts agree: on a message whose only whitespace is the
      space, the older encoder gives the newer encoder's output stripped. */
  lemma EncryptedAgrees(chart: seq<Entry>, message: string)
    requires forall i :: 0 <= i < |message| ==> message[i] == ' ' || !IsSpace(message[i])
    ensures Encrypted(chart, message) ==
      match Morse2.Encrypted(chart, message)
      case None => None
      case Some(s) => Some(Strip(s))
  {
    var ps := EncryptPieces(chart, message);
    var qs := Morse2.EncryptPieces(chart, message);
    forall i | 0 <= i < |message| ensures ps[i] == qs[i] {
      var u := UpperChar(message[i]);
      assert Upper(message)[i] == u;
      assert Upper([u]) == [u];
      StripChar(u);
      if message[i] == ' ' {
        assert IsBlank([u]);
      } else {
        assert !IsSpace(u);
        assert !IsBlank([u]) by { assert !IsSpace([u][0]); }
      }
    }
    assert ps == qs;
  }

  /** A charted character other than the space encrypts to its code and a
      space. */
  lemma EncryptLetterCode(chart: seq<Entry>, c: char, code: string)
    requires c != ' ' && Get(chart, [UpperChar(c)]) == Some(code)
    ensures EncryptLetter(chart, [UpperChar(c)]) == Some(code + " ")
  {
    var u := UpperChar(c);
    Morse2.UpperCharIdempotent(c);
    assert Upper([u]) == [u];
    assert [u] != " " by { assert [u][0] != " "[0]; }
  }

  /** A word of charted characters encrypts to their codes separated by
      single spaces: the space after the last code is stripped. */
  lemma EncryptedWord(chart: seq<Entry>, message: string, codes: seq<string>)
    requires |message| > 0 && |codes| == |message|
    requires forall i :: 0 <= i < |message| ==>
      message[i] != ' ' && Get(chart, [UpperChar(message[i])]) == Some(codes[i])
    requires forall i :: 0 <= i < |codes| ==> codes[i] != [] && NoSpace(codes[i])
    ensures Encrypted(chart, message) == Some(Join(" ", codes))
  {
    var ps := EncryptPieces(chart, message);
    forall i | 0 <= i < |message| ensures ps[i] == Some(codes[i] + " ") {
      assert Upper(message)[i] == UpperChar(message[i]);
      EncryptLetterCode(chart, message[i], codes[i]);
    }
    ConcatSomeAllSome(ps);
    assert seq(|ps|, i requires 0 <= i < |ps| => ps[i].value) == Terminated(codes, ' ');
    ConcatTerminated(codes, ' ');
    JoinEnds(" ", codes);
    StripPadded(Join(" ", codes), " ");
  }

  /** The built-in codes of "S" and "O". */
  lemma BuiltinSO()
    ensures Get(Builtin, "S") == Some("...") && Get(Builtin, "O") == Some("---")
  {
    BuiltinWellFormed();
    assert Builtin[18] == Entry("S", "...") && Builtin[14] == Entry("O", "---");
    GetAt(Builtin, 18);
    GetAt(Builtin, 14);
  }

  /** The letters of "SOS" are charted, with "...", "---", "..." as codes. */
  lemma SosCodes(chart: seq<Entry>)
    requires Get(chart, "S") == Some("...") && Get(chart, "O") == Some("---")
    ensures forall i :: 0 <= i < 3 ==>
      "SOS"[i] != ' ' && Get(chart, [UpperChar("SOS"[i])]) == Some(["...", "---", "..."][i])
  {
    var m, codes := "SOS", ["...", "---", "..."];
    forall i | 0 <= i < 3
      ensures m[i] != ' ' && Get(chart, [UpperChar(m[i])]) == Some(codes[i])
    {
      if i == 1 {
        assert [UpperChar(m[i])] == "O";
      } else {
        assert [UpperChar(m[i])] == "S";
      }
    }
  }

  /** The codes of "SOS" are non-empty and free of whitespace. */
  lemma SosCodesShape()
    ensures forall i :: 0 <= i < 3 ==> ["...", "---", "..."][i] != [] && NoSpace(["...", "---", "..."][i])
  {
    var codes := ["...", "---", "..."];
    forall i | 0 <= i < 3 ensures codes[i] != [] && NoSpace(codes[i]) {
      assert codes[i] == "..." || codes[i] == "---";
    }
  }

  /** `encrypt("SOS")` on the built-in chart is "... --- ...". */
  lemma EncryptSos()
    ensures Encrypted(Builtin, "SOS") == Some(Join(" ", ["...", "---", "..."]))
  {
    BuiltinSO();
    SosCodes(Builtin);
    SosCodesShape();
    EncryptedWord(Builtin, "SOS", ["...", "---", "..."]);
  }

  /**
    The class attributes of `Morse`: the chart and the two lists rebuilt
    from it after every insert, shared by the encoder and the decoder.
   */
  class Morse {
    var chart: seq<Entry>
    var characters: seq<string>
    var codes: seq<string>

    /** The chart is a dict, and the lists are its keys and its values in
        insertion order, so `codes[i]` is the code of `characters[i]`. */
    ghost predicate Valid()
      reads this
    {
      DistinctKeys(chart) && characters == Keys(chart) && codes == Codes(chart)
    }

    constructor ()
      ensures Valid() && chart == Builtin
    {
      chart := Builtin;
      characters := Keys(Builtin);
      codes := Codes(Builtin);
      BuiltinWellFormed();
    }

    /** `add_morse`: the message it prints, and otherwise the chart updated
        with the cleaned code and both lists rebuilt. */
    method AddMorse(ch: string, morse: Option<string>) returns (error: Option<Morse2.AddError>)
      requires Valid()
      modifies this
      ensures Valid()
      ensures match Added(old(chart), ch, morse)
        case Success(c) => error == None && chart == c
        case Failure(e) => error == Some(e) && unchanged(this)
    {
      var valid := IsMorse(morse);
      if !valid {
        return Some(Morse2.InvalidCode);
      }
      if Entry(Upper(ch), morse.value) in chart {
        return Some(Morse2.AlreadyInChart);
      }
      AddedUpdates(chart, ch, morse);
      chart := Upsert(chart, Upper(ch), CleanMorse(morse.value));
      characters := Keys(chart);
      codes := Codes(chart);
      return None;
    }
  }

  /** `MorseEncrypt`: reads the shared chart. */
  class MorseEncrypt {
    const table: Morse

    constructor (table: Morse)
      ensures this.table == table
    {
      this.table := table;
    }

    /** `encrypt`: the pieces of the upper-cased message, accumulated left
        to right and stripped at the end; a missing piece makes the result
        `None`. */
    method Encrypt(message: string) returns (r: Option<string>)
      requires table.Valid()
      ensures r == Encrypted(table.chart, message)
    {
      var upper := Upper(message);
      ghost var pieces := EncryptPieces(table.chart, message);
      var acc := "";
      var i := 0;
      while i < |upper|
        invariant i <= |upper|
        invariant ConcatSome(pieces[..i]) == Some(acc)
      {
        var piece := EncryptLetter(table.chart, [upper[i]]);
        ConcatSomeStep(pieces, i, acc);
        if piece.None? {
          return None;
        }
        acc := acc + piece.value;
        i := i + 1;
      }
      assert pieces[..i] == pieces;
      return Some(Strip(acc));
    }
  }

  /** `MorseDecrypt`: reads the shared lists. */
  class MorseDecrypt {
    const table: Morse

    constructor (table: Morse)
      ensures this.table == table
    {
      this.table := table;
    }

    /** `decrypt_morse`: the lookup of the newer draft over the shared
        lists; a blank token is one space, a stored code (once stripped) is
        the key stored with it, anything else is `None`. */
    function DecryptMorse(token: string): (r: Option<string>)
      reads table
      requires table.Valid()
      ensures IsBlank(token) ==> r == Some(" ")
      ensures !IsBlank(token) ==> (r.Some? <==> Strip(token) in Codes(table.chart))
      ensures !IsBlank(token) && r.Some? ==>
        exists i :: 0 <= i < |table.chart| && table.chart[i] == Entry(r.value, Strip(token)) &&
          forall j :: 0 <= j < i ==> table.chart[j].code != Strip(token)
    {
      Morse2.DecryptMorse(table.characters, table.codes, token)
    }

    /** `decrypt`: the loop over the single-space-separated tokens calls
        `decrypt_char`, which no class defines; the `AttributeError` of its
        first iteration is caught, so every message gives `None`. */
    method Decrypt(message: string) returns (r: Option<string>)
      ensures r.None?
    {
      // `split(" ")` yields at least one token, and the lookup of the
      // missing `decrypt_char` for the first one raises.
      r := None;
    }
  }
}
