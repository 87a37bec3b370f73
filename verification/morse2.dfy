/**
  The newer Morse code classes (`morse2.py`): a `Morse` object that owns a
  chart from keys to codes together with the `characters` and `codes` lists
  derived from it, and the encoder and decoder that read that object.

  The methods of `Morse` that only read its state (`parse_morse`,
  `_has_dots_and_dashes`, `in_morse_chart`, `_is_morse_in_chart`) and the
  per-symbol helpers `encrypt_char` and `decrypt_morse` are functions of the
  state they read; `add_morse`, `encrypt` and `decrypt` are methods.
 */
module Morse2 {
  import opened Wrappers
  import opened PyStr
  import opened MorseChart
  import opened BuiltinChart

  /** Every token, once stripped, uses dots and dashes only. */
  predicate AllDotDash(ws: seq<string>) {
    forall i :: 0 <= i < |ws| ==> DotDash(Strip(ws[i]))
  }

  /** `parse_morse`: the whitespace-separated tokens of `morse` joined by two
      spaces, or `None` for blank input or a token with another symbol. */
  function ParseMorse(morse: string): (r: Option<string>)
    ensures r.None? <==> Words(morse) == [] || !AllDotDash(Words(morse))
    ensures r.Some? ==> Words(r.value) == Words(morse)
    ensures r.Some? ==> r.value == Join("  ", Words(r.value))
    ensures r.Some? ==> r.value != [] && !IsSpace(r.value[0]) && !IsSpace(r.value[|r.value| - 1])
  {
    var ws := Words(morse);
    if ws == [] then None
    else if !AllDotDash(ws) then None
    else
      WordsJoin("  ", ws);
      JoinEnds("  ", ws);
      Some(Join("  ", ws))
  }

  /** Normalising twice is normalising once. */
  lemma ParseMorseIdempotent(morse: string)
    requires ParseMorse(morse).Some?
    ensures ParseMorse(ParseMorse(morse).value) == ParseMorse(morse)
  {
    var r := ParseMorse(morse).value;
    assert !IsBlank(r) by { assert !IsSpace(r[0]); }
  }

  /** `_has_dots_and_dashes`: `None`, empty and whitespace-only input are
      refused; otherwise every token must use dots and dashes only. */
  function HasDotsAndDashes(morse: Option<string>): (b: bool)
    ensures b <==> morse.Some? && !IsBlank(morse.value) && AllDotDash(Words(morse.value))
    ensures b <==> morse.Some? && ParseMorse(morse.value).Some?
  {
    match morse
    case None => false
    case Some(m) =>
      StripEmptyIffBlank(m);
      WordsEmptyIffBlank(m);
      if Strip(m) == [] then false else AllDotDash(Words(m))
  }

  /** The form in which `in_morse_chart` looks a query up: stripped and
      upper-cased. */
  function Probe(query: string): string {
    Upper(Strip(query))
  }

  /** `in_morse_chart`: a code-shaped query is looked up among the codes and
      resolves to the first entry with that code; any other query is looked
      up among the keys. A miss, and a `None` query, give `None`. */
  function InMorseChart(chart: seq<Entry>, query: Option<string>): (r: Option<(string, string)>)
    ensures r.None? <==>
      query.None? || Probe(query.value) !in (if HasDotsAndDashes(query) then Codes(chart) else Keys(chart))
    ensures r.Some? && HasDotsAndDashes(query) ==>
      r.value.1 == Probe(query.value) &&
      exists i :: 0 <= i < |chart| && chart[i] == Entry(r.value.0, r.value.1) &&
        forall j :: 0 <= j < i ==> chart[j].code != r.value.1
    ensures r.Some? && !HasDotsAndDashes(query) ==>
      r.value.0 == Probe(query.value) && Get(chart, r.value.0) == Some(r.value.1)
  {
    match query
    case None => None
    case Some(q) =>
      var probe := Probe(q);
      if HasDotsAndDashes(query) then
        match IndexOf(Codes(chart), probe)
        case None => None
        case Some(i) => Some((Keys(chart)[i], Codes(chart)[i]))
      else
        match IndexOf(Keys(chart), probe)
        case None => None
        case Some(i) => Some((Keys(chart)[i], Get(chart, probe).value))
  }

  /** A simple code is its own token: it passes the check, and `strip` and
      `upper` leave it as it is. */
  lemma SimpleCodeParses(c: string)
    requires SimpleCode(c)
    ensures NoSpace(c) && Probe(c) == c && Strip(c) == c
    ensures HasDotsAndDashes(Some(c)) && ParseMorse(c) == Some(c)
  {
    StripNoSpace(c);
    UpperNoLower(c);
    WordsOfWord(c);
    assert Join("  ", [c]) == c;
  }

  /** A code in the form `parse_morse` stores passes the check, and `strip`
      and `upper` leave it as it is. */
  lemma ParsedCodeShape(c: string)
    requires ParseMorse(c) == Some(c)
    ensures HasDotsAndDashes(Some(c)) && Strip(c) == c && Probe(c) == c
  {
    var ws := Words(c);
    assert c == Join("  ", ws);
    forall i, k | 0 <= i < |ws| && 0 <= k < |ws[i]| ensures !IsLower(ws[i][k]) {
      StripNoSpace(ws[i]);
      assert DotDash(Strip(ws[i]));
    }
    JoinNoLower("  ", ws);
    assert IsBlank("") && c + "" == c;
    StripPadded(c, "");
    UpperNoLower(c);
  }

  /** With distinct codes, looking up a code in the form `parse_morse`
      stores (every built-in code, and every code `add_morse` adds) finds
      its own entry. */
  lemma InMorseChartCode(chart: seq<Entry>, i: nat)
    requires DistinctCodes(chart)
    requires i < |chart| && ParseMorse(chart[i].code) == Some(chart[i].code)
    ensures InMorseChart(chart, Some(chart[i].code)) == Some((chart[i].key, chart[i].code))
  {
    ParsedCodeShape(chart[i].code);
    assert Codes(chart)[i] == chart[i].code;
  }

  /** With distinct keys, looking up a key that is not code-shaped, and that
      `strip` and `upper` leave as it is, finds its own entry. */
  lemma InMorseChartKey(chart: seq<Entry>, i: nat)
    requires DistinctKeys(chart)
    requires i < |chart| && Probe(chart[i].key) == chart[i].key
    requires !HasDotsAndDashes(Some(chart[i].key))
    ensures InMorseChart(chart, Some(chart[i].key)) == Some((chart[i].key, chart[i].code))
  {
    GetAt(chart, i);
    assert Keys(chart)[i] == chart[i].key;
  }

  /** `in_morse_chart(".")` on the built-in chart is `("E", ".")`: the query
      is code-shaped, so the key "." is never consulted. */
  lemma InMorseChartDot()
    ensures InMorseChart(Builtin, Some(".")) == Some(("E", "."))
  {
    BuiltinWellFormed();
    assert Builtin[4] == Entry("E", ".");
    SimpleCodeParses(".");
    InMorseChartCode(Builtin, 4);
  }

  /** `_is_morse_in_chart`: the key or the code is already taken. The pair
      test on the chart's items is subsumed by the test on the codes. */
  function IsMorseInChart(chart: seq<Entry>, ch: string, morse: string): (b: bool)
    ensures b <==> Strip(morse) in Codes(chart) || Strip(Upper(ch)) in Keys(chart)
  {
    PairCode(chart, Entry(Upper(ch), Strip(morse)));
    Entry(Upper(ch), Strip(morse)) in chart
      || Strip(morse) in Codes(chart)
      || Strip(Upper(ch)) in Keys(chart)
  }

  /** The code of an entry of the chart is among its codes. */
  lemma PairCode(chart: seq<Entry>, e: Entry)
    ensures e in chart ==> e.code in Codes(chart)
  {
    if e in chart {
      var i :| 0 <= i < |chart| && chart[i] == e;
      assert Codes(chart)[i] == e.code;
    }
  }

  /** The two `ValueError`s of `add_morse`. */
  datatype AddError =
    | InvalidCode     // "Invalid or no morse code specified."
    | AlreadyInChart  // "Morse code already in the chart."

  /** The chart after `add_morse(char, morse)`, or the error it raises. */
  function Added(chart: seq<Entry>, ch: string, morse: Option<string>): (r: Result<seq<Entry>, AddError>)
    ensures r == Failure(InvalidCode) <==> !HasDotsAndDashes(morse)
    ensures r == Failure(AlreadyInChart) <==>
      HasDotsAndDashes(morse) && (Strip(morse.value) in Codes(chart) || Strip(Upper(ch)) in Keys(chart))
  {
    if !HasDotsAndDashes(morse) then Failure(InvalidCode)
    else if IsMorseInChart(chart, ch, morse.value) then Failure(AlreadyInChart)
    else Success(Upsert(chart, Upper(ch), ParseMorse(morse.value).value))
  }

  /** A successful `add_morse` keeps the chart a dict, stores the normalised
      code under `char.upper()`, and leaves every other key as it was. */
  lemma AddedUpdates(chart: seq<Entry>, ch: string, morse: Option<string>)
    requires DistinctKeys(chart)
    requires Added(chart, ch, morse).Success?
    ensures var c := Added(chart, ch, morse).value;
      DistinctKeys(c) &&
      Get(c, Upper(ch)) == ParseMorse(morse.value) &&
      forall k :: k != Upper(ch) ==> Get(c, k) == Get(chart, k)
  {
    var code := ParseMorse(morse.value).value;
    UpsertDistinct(chart, Upper(ch), code);
    forall k ensures Get(Upsert(chart, Upper(ch), code), k) == if k == Upper(ch) then Some(code) else Get(chart, k) {
      UpsertGet(chart, Upper(ch), code, k);
    }
  }

  /** When `ch` has no surrounding whitespace, a successful `add_morse`
      appends exactly one entry: the key check then sees the key as stored. */
  lemma AddedAppends(chart: seq<Entry>, ch: string, morse: Option<string>)
    requires Added(chart, ch, morse).Success?
    requires Strip(Upper(ch)) == Upper(ch)
    ensures var code := ParseMorse(morse.value).value;
      Added(chart, ch, morse).value == chart + [Entry(Upper(ch), code)] &&
      Keys(Added(chart, ch, morse).value) == Keys(chart) + [Upper(ch)] &&
      Codes(Added(chart, ch, morse).value) == Codes(chart) + [code]
  {
    var code := ParseMorse(morse.value).value;
    var c := chart + [Entry(Upper(ch), code)];
    assert Keys(c) == Keys(chart) + [Upper(ch)];
    assert Codes(c) == Codes(chart) + [code];
  }

  /** `add_morse` as evidently intended: a key or a code that is already in
      the chart in the form it would be stored is refused too, so that every
      successful insert appends. */
  function AddedChecked(chart: seq<Entry>, ch: string, morse: Option<string>): (r: Result<seq<Entry>, AddError>)
    ensures r == Failure(InvalidCode) <==> !HasDotsAndDashes(morse)
    ensures r.Success? ==> r.value == chart + [Entry(Upper(ch), ParseMorse(morse.value).value)]
    ensures r.Success? ==> Upper(ch) !in Keys(chart) && ParseMorse(morse.value).value !in Codes(chart)
  {
    if !HasDotsAndDashes(morse) then Failure(InvalidCode)
    else
      var key := Upper(ch);
      var code := ParseMorse(morse.value).value;
      if IsMorseInChart(chart, ch, morse.value) || key in Keys(chart) || code in Codes(chart) then
        Failure(AlreadyInChart)
      else
        Success(Upsert(chart, key, code))
  }

  /** The corrected insert keeps the chart a bijection. */
  lemma AddedCheckedBijective(chart: seq<Entry>, ch: string, morse: Option<string>)
    requires DistinctKeys(chart) && DistinctCodes(chart)
    requires AddedChecked(chart, ch, morse).Success?
    ensures DistinctKeys(AddedChecked(chart, ch, morse).value)
    ensures DistinctCodes(AddedChecked(chart, ch, morse).value)
  {
    var c := AddedChecked(chart, ch, morse).value;
    var n := |chart|;
    forall i | 0 <= i < n ensures c[i].key != c[n].key && c[i].code != c[n].code {
      assert Keys(chart)[i] == c[i].key;
      assert Codes(chart)[i] == c[i].code;
    }
  }

  /** The corrected insert refuses a code once it has stored it, whatever
      the key. */
  lemma AddedCheckedTwice(chart: seq<Entry>, ch1: string, ch2: string, morse: Option<string>)
    requires AddedChecked(chart, ch1, morse).Success?
    ensures AddedChecked(AddedChecked(chart, ch1, morse).value, ch2, morse) == Failure(AlreadyInChart)
  {
    var c1 := AddedChecked(chart, ch1, morse).value;
    assert Codes(c1)[|chart|] == ParseMorse(morse.value).value;
  }

  /** For a key without surrounding whitespace and a one-token code, the
      corrected insert behaves exactly as the original one. */
  lemma AddedCheckedAgrees(chart: seq<Entry>, ch: string, morse: Option<string>)
    requires Strip(Upper(ch)) == Upper(ch)
    requires morse.Some? && ParseMorse(morse.value) == Some(Strip(morse.value))
    ensures AddedChecked(chart, ch, morse) == Added(chart, ch, morse)
  {
  }

  /** `upper` keeps the space of ", " and `strip` drops it. */
  lemma CommaStrip()
    ensures Upper(", ") == ", " && Strip(", ") == ","
  {
    assert TrimStart(", ") == ", " by { assert !IsSpace(','); }
    assert TrimEnd(", ") == TrimEnd(",") by { assert ", "[..1] == ","; }
    assert TrimEnd(",") == ",";
  }

  /** The built-in comma key is ", ". */
  lemma CommaKey()
    ensures ", " in Keys(Builtin)
    ensures Get(Builtin, ", ") == Some("--..--")
  {
    BuiltinWellFormed();
    assert Builtin[36] == Entry(", ", "--..--");
    assert Keys(Builtin)[36] == ", ";
    GetAt(Builtin, 36);
  }

  /** The stripped comma "," is not a built-in key. */
  lemma CommaNotKey()
    ensures "," !in Keys(Builtin)
  {
    BuiltinKeyShapes();
    forall i | 0 <= i < 44 ensures Builtin[i].key != "," {
      assert ',' !in ".?!/-()";
    }
  }

  /** `in_morse_chart(", ")` misses the built-in comma: the query is
      stripped to ",", which is not a key. */
  lemma CommaKeyMissed()
    ensures InMorseChart(Builtin, Some(", ")) == None
  {
    CommaStrip();
    CommaNotKey();
    assert Upper(",") == ",";
    assert !HasDotsAndDashes(Some(", ")) by {
      assert !DotDash(Strip(Words(", ")[0]));
    }
  }

  /** ".-.-.." (the comma of Recommendation ITU-R M.1677-1) is not among
      the built-in codes. */
  lemma CommaCodeFree()
    ensures ".-.-.." !in Codes(Builtin)
  {
    BuiltinCodeLengths();
    BuiltinWellFormed();
    forall i | 0 <= i < 44 ensures Builtin[i].code != ".-.-.." {
      if |Builtin[i].code| == 6 {
        assert DotDash(Builtin[i].code);
      }
    }
  }

  /** Finding: `add_morse(", ", ".-.-..")` on the built-in chart is accepted
      and replaces the code of the existing key ", " instead of adding an
      entry, because the key check strips the key but the update does not. */
  lemma CommaKeyOverwritten()
    ensures var r := Added(Builtin, ", ", Some(".-.-.."));
      r.Success? && |r.value| == |Builtin| && Get(r.value, ", ") == Some(".-.-..")
      && Get(Builtin, ", ") == Some("--..--")
  {
    var code := ".-.-..";
    SimpleCodeParses(code);
    CommaStrip();
    CommaKey();
    CommaNotKey();
    CommaCodeFree();
    assert !IsMorseInChart(Builtin, ", ", code);
    var r := Upsert(Builtin, ", ", code);
    assert Added(Builtin, ", ", Some(code)) == Success(r);
    assert |Keys(r)| == |Keys(Builtin)|;
    UpsertGet(Builtin, ", ", code, ", ");
  }

  /** The corrected insert refuses the same request. */
  lemma CommaKeyRefused()
    ensures AddedChecked(Builtin, ", ", Some(".-.-..")) == Failure(AlreadyInChart)
  {
    SimpleCodeParses(".-.-..");
    CommaStrip();
    CommaKey();
    CommaNotKey();
  }

  /** A string with a space in it is not a code of a chart whose codes are
      all single runs of dots and dashes. */
  lemma SpacedNotCode(chart: seq<Entry>, s: string, i: nat)
    requires Invertible(chart)
    requires i < |s| && s[i] == ' '
    ensures s !in Codes(chart)
  {
  }

  /** Finding, in general: the duplicate check compares `morse.strip()` with
      the stored codes, but what is stored is `parse_morse(morse)`. A second
      code that parses to a stored one, written with other spacing, passes
      the check and is stored a second time. */
  lemma AddedDuplicateCode(chart: seq<Entry>, ch1: string, m1: Option<string>, ch2: string, m2: Option<string>)
    requires Added(chart, ch1, m1).Success?
    requires Strip(Upper(ch1)) == Upper(ch1) && Strip(Upper(ch2)) == Upper(ch2)
    requires Upper(ch2) != Upper(ch1) && Upper(ch2) !in Keys(chart)
    requires HasDotsAndDashes(m2) && ParseMorse(m2.value) == ParseMorse(m1.value)
    requires Strip(m2.value) != ParseMorse(m1.value).value && Strip(m2.value) !in Codes(chart)
    ensures var c1 := Added(chart, ch1, m1).value;
      var r := Added(c1, ch2, m2);
      r.Success? && !DistinctCodes(r.value)
  {
    AddedAppends(chart, ch1, m1);
    var code := ParseMorse(m1.value).value;
    var c1 := Added(chart, ch1, m1).value;
    assert Strip(m2.value) !in Codes(c1);
    assert Upper(ch2) !in Keys(c1);
    AddedAppends(c1, ch2, m2);
    var c2 := Added(c1, ch2, m2).value;
    assert c2[|chart|].code == c2[|chart| + 1].code;
  }

  /** `parse_morse` of two dot/dash tokens with the separator `sep`. */
  lemma ParseTwoTokens(a: string, sep: string, b: string)
    requires SimpleCode(a) && SimpleCode(b)
    requires sep != [] && IsBlank(sep)
    ensures ParseMorse(a + sep + b) == Some(a + "  " + b)
    ensures Strip(a + sep + b) == a + sep + b
  {
    SimpleCodeParses(a);
    SimpleCodeParses(b);
    WordsOfWord(b);
    WordsConsWord(a, sep, b);
    var s := a + sep + b;
    assert s[0] == a[0] && s[|s| - 1] == b[|b| - 1];
    assert TrimStart(s) == s;
    assert TrimEnd(s) == s;
  }

  /** ". -" is normalised to ".  -", and `strip` leaves it as it is. */
  lemma SpacedParse()
    ensures ParseMorse(". -") == Some(".  -") && Strip(". -") == ". -"
  {
    ParseTwoTokens(".", " ", "-");
    assert ". -" == "." + " " + "-";
    assert ".  -" == "." + "  " + "-";
  }

  /** "@" and "%" are not built-in keys, and `upper` and `strip` keep them. */
  lemma FreshKeys()
    ensures "@" !in Keys(Builtin) && "%" !in Keys(Builtin)
    ensures Strip(Upper("@")) == Upper("@") == "@" && Strip(Upper("%")) == Upper("%") == "%"
  {
    BuiltinKeyShapes();
    StripChar('@');
    StripChar('%');
    assert Upper("@") == "@" && Upper("%") == "%";
  }

  /** Finding: on the built-in chart, `add_morse("@", ". -")` stores ".  -";
      `add_morse("%", ". -")` is then accepted too, because ". -" is not
      literally among the codes, and stores ".  -" a second time, so the
      chart no longer decodes uniquely. */
  lemma DuplicateCodeAccepted()
    ensures var c1 := Added(Builtin, "@", Some(". -"));
      c1.Success? &&
      var c2 := Added(c1.value, "%", Some(". -"));
      c2.Success? && !DistinctCodes(c2.value)
  {
    BuiltinWellFormed();
    SpacedParse();
    FreshKeys();
    SpacedNotCode(Builtin, ". -", 1);
    AddedDuplicateCode(Builtin, "@", Some(". -"), "%", Some(". -"));
  }

  /** `in_morse_chart` finds a code that `add_morse` stored with two spaces:
      after `add_morse("@", ". -")`, the query ".  -" gives ("@", ".  -"). */
  lemma SpacedCodeFound()
    ensures var c := Added(Builtin, "@", Some(". -"));
      c.Success? && InMorseChart(c.value, Some(".  -")) == Some(("@", ".  -"))
  {
    DuplicateCodeAccepted();
    BuiltinWellFormed();
    SpacedParse();
    FreshKeys();
    AddedAppends(Builtin, "@", Some(". -"));
    ParseMorseIdempotent(". -");
    var c := Added(Builtin, "@", Some(". -")).value;
    assert c == Builtin + [Entry("@", ".  -")];
    SpacedNotCode(Builtin, ".  -", 1);
    AppendFreshCode(Builtin, Entry("@", ".  -"));
    InMorseChartCode(c, |Builtin|);
  }

  /** Appending an entry whose code is new keeps the codes distinct. */
  lemma AppendFreshCode(chart: seq<Entry>, e: Entry)
    requires DistinctCodes(chart) && e.code !in Codes(chart)
    ensures DistinctCodes(chart + [e])
  {
    var c := chart + [e];
    forall i, j | 0 <= i < j < |c| ensures c[i].code != c[j].code {
      if j < |chart| {
        assert c[i] == chart[i] && c[j] == chart[j];
      } else {
        assert c[i].code == Codes(chart)[i];
      }
    }
  }

  /** The corrected insert accepts a well-formed code under a fresh key
      when neither the code nor its normalised form is stored. */
  lemma AddedCheckedFresh(chart: seq<Entry>, ch: string, morse: string)
    requires HasDotsAndDashes(Some(morse))
    requires Strip(Upper(ch)) == Upper(ch) && Upper(ch) !in Keys(chart)
    requires Strip(morse) !in Codes(chart) && ParseMorse(morse).value !in Codes(chart)
    ensures AddedChecked(chart, ch, Some(morse)).Success?
  {
  }

  /** The corrected insert accepts the first request. */
  lemma FirstSpacedChecked()
    ensures AddedChecked(Builtin, "@", Some(". -")).Success?
  {
    BuiltinWellFormed();
    SpacedParse();
    FreshKeys();
    SpacedNotCode(Builtin, ". -", 1);
    SpacedNotCode(Builtin, ".  -", 1);
    AddedCheckedFresh(Builtin, "@", ". -");
  }

  /** The corrected insert refuses the second request: it compares the
      normalised code, which is already stored. */
  lemma DuplicateCodeRefused()
    ensures var c1 := AddedChecked(Builtin, "@", Some(". -"));
      c1.Success? &&
      AddedChecked(c1.value, "%", Some(". -")) == Failure(AlreadyInChart)
  {
    FirstSpacedChecked();
    AddedCheckedTwice(Builtin, "@", "%", Some(". -"));
  }

  /** The key "67" of the module's demonstration: `strip` and `upper` keep
      it, it is not code-shaped, and it is not a built-in key. */
  lemma SixtySevenKey()
    ensures Upper("67") == "67" && Strip("67") == "67" && Probe("67") == "67"
    ensures !HasDotsAndDashes(Some("67")) && "67" !in Keys(Builtin)
  {
    StripNoSpace("67");
    UpperNoLower("67");
    WordsOfWord("67");
    assert !DotDash("67") by { assert "67"[0] == '6'; }
    BuiltinKeyShapes();
  }

  /** The code "-.----..-.---" of the module's demonstration is simple and
      longer than every built-in code. */
  lemma SixtySevenCode()
    ensures SimpleCode("-.----..-.---") && "-.----..-.---" !in Codes(Builtin)
  {
    BuiltinCodeLengths();
    assert |"-.----..-.---"| == 13;
  }

  /** The module's demonstration: `add_morse("67", "-.----..-.---")` appends
      the entry, and `in_morse_chart("67")` then finds it by its key. */
  lemma AddSixtySeven()
    ensures var c := Added(Builtin, "67", Some("-.----..-.---"));
      c.Success? && c.value == Builtin + [Entry("67", "-.----..-.---")] &&
      InMorseChart(c.value, Some("67")) == Some(("67", "-.----..-.---"))
  {
    BuiltinWellFormed();
    var code := "-.----..-.---";
    SixtySevenKey();
    SixtySevenCode();
    SimpleCodeParses(code);
    AddedAppends(Builtin, "67", Some(code));
    AddedUpdates(Builtin, "67", Some(code));
    var c := Added(Builtin, "67", Some(code)).value;
    assert c[|Builtin|] == Entry("67", code);
    InMorseChartKey(c, |Builtin|);
  }

  /** `encrypt_char`: a blank character becomes one space; a key becomes its
      code followed by a space; anything else fails. */
  function EncryptChar(chart: seq<Entry>, ch: string): (r: Option<string>)
    ensures IsBlank(ch) ==> r == Some(" ")
    ensures !IsBlank(ch) ==> (r.Some? <==> Strip(Upper(ch)) in Keys(chart))
    ensures !IsBlank(ch) && r.Some? ==>
      exists i :: 0 <= i < |chart| && chart[i].key == Strip(Upper(ch)) && r.value == chart[i].code + " "
  {
    StripEmptyIffBlank(ch);
    if Strip(ch) == [] then Some(" ")
    else
      match Get(chart, Strip(Upper(ch)))
      case None => None
      case Some(c) => Some(c + " ")
  }

  /** What `encrypt` adds for each character of the upper-cased message. */
  function EncryptPieces(chart: seq<Entry>, message: string): (ps: seq<Option<string>>)
    ensures |ps| == |message|
  {
    var upper := Upper(message);
    seq(|upper|, i requires 0 <= i < |upper| => EncryptChar(chart, [upper[i]]))
  }

  /** `MorseEncrypt.encrypt`. */
  function Encrypted(chart: seq<Entry>, message: string): Option<string> {
    ConcatSome(EncryptPieces(chart, message))
  }

  /** Encryption fails exactly when some character of the message is neither
      whitespace nor, upper-cased, a key. */
  lemma EncryptedNoneIff(chart: seq<Entry>, message: string)
    ensures Encrypted(chart, message).None? <==>
      exists i :: 0 <= i < |message| && !IsSpace(message[i]) && [UpperChar(message[i])] !in Keys(chart)
  {
    var ps := EncryptPieces(chart, message);
    ConcatSomeNoneIff(ps);
    forall i | 0 <= i < |message|
      ensures ps[i].None? <==> !IsSpace(message[i]) && [UpperChar(message[i])] !in Keys(chart)
    {
      var u := UpperChar(message[i]);
      UpperCharIdempotent(message[i]);
      assert Upper(message)[i] == u;
      assert Upper([u]) == [u];
      StripChar(u);
      if IsSpace(u) {
        assert IsBlank([u]);
      } else {
        assert !IsBlank([u]) by { assert !IsSpace([u][0]); }
      }
    }
  }

  /** `decrypt_morse` over the `characters` and `codes` lists: a blank token
      becomes one space, a code the key at its first position. */
  function DecryptMorse(characters: seq<string>, codes: seq<string>, token: string): (r: Option<string>)
    requires |characters| == |codes|
    ensures IsBlank(token) ==> r == Some(" ")
    ensures !IsBlank(token) ==> (r.Some? <==> Strip(token) in codes)
    ensures !IsBlank(token) && r.Some? ==>
      exists i :: 0 <= i < |codes| && codes[i] == Strip(token) && r.value == characters[i] &&
        forall j :: 0 <= j < i ==> codes[j] != Strip(token)
  {
    StripEmptyIffBlank(token);
    if Strip(token) == [] then Some(" ")
    else
      match IndexOf(codes, Strip(token))
      case None => None
      case Some(i) => Some(characters[i])
  }

  /** What `decrypt` adds for each single-space-separated token. */
  function DecryptPieces(chart: seq<Entry>, message: string): (ps: seq<Option<string>>)
    ensures |ps| == |SplitOn(message, ' ')|
  {
    var tokens := SplitOn(message, ' ');
    seq(|tokens|, i requires 0 <= i < |tokens| => DecryptMorse(Keys(chart), Codes(chart), tokens[i]))
  }

  /** `MorseDecrypt.decrypt`. */
  function Decrypted(chart: seq<Entry>, message: string): Option<string> {
    ConcatSome(DecryptPieces(chart, message))
  }

  /** Decryption fails exactly when some token is neither blank nor, once
      stripped, a code. */
  lemma DecryptedNoneIff(chart: seq<Entry>, message: string)
    ensures Decrypted(chart, message).None? <==>
      exists t :: t in SplitOn(message, ' ') && !IsBlank(t) && Strip(t) !in Codes(chart)
  {
    var tokens := SplitOn(message, ' ');
    var ps := DecryptPieces(chart, message);
    ConcatSomeNoneIff(ps);
    if exists t :: t in tokens && !IsBlank(t) && Strip(t) !in Codes(chart) {
      var t :| t in tokens && !IsBlank(t) && Strip(t) !in Codes(chart);
      var i :| 0 <= i < |tokens| && tokens[i] == t;
      assert ps[i].None?;
    }
  }

  /** Messages the round trip applies to: spaces, and characters that are
      not whitespace and whose upper-case form is a key. */
  predicate Encodable(chart: seq<Entry>, message: string) {
    forall i :: 0 <= i < |message| ==>
      message[i] == ' ' || (!IsSpace(message[i]) && [UpperChar(message[i])] in Keys(chart))
  }

  /** A chart the decoder can invert: no code twice, and every code one run
      of dots and dashes. */
  predicate Invertible(chart: seq<Entry>) {
    DistinctCodes(chart) && forall i :: 0 <= i < |chart| ==> SimpleCode(chart[i].code)
  }

  /** The code `encrypt` emits for the upper-cased character `u`, without
      its trailing space. */
  function Token(chart: seq<Entry>, u: char): string {
    if u == ' ' then "" else match Get(chart, [u]) case Some(c) => c case None => ""
  }

  lemma UpperCharIdempotent(c: char)
    ensures UpperChar(UpperChar(c)) == UpperChar(c)
    ensures IsSpace(UpperChar(c)) <==> IsSpace(c)
  {}

  /** One character of an encodable message encrypts to its token and a space. */
  lemma EncryptCharToken(chart: seq<Entry>, c: char)
    requires c == ' ' || (!IsSpace(c) && [UpperChar(c)] in Keys(chart))
    ensures EncryptChar(chart, [UpperChar(c)]) == Some(Token(chart, UpperChar(c)) + " ")
  {
    var u := UpperChar(c);
    UpperCharIdempotent(c);
    StripChar(u);
    assert Upper([u]) == [u];
    if c != ' ' {
      assert !IsBlank([u]) by { assert !IsSpace([u][0]); }
    } else {
      assert u == ' ' && Token(chart, u) + " " == " ";
      assert IsBlank([u]);
      assert EncryptChar(chart, [u]) == Some(" ");
    }
  }

  /** On an invertible chart a stored code decrypts to its own key. */
  lemma DecryptCode(chart: seq<Entry>, k: nat)
    requires Invertible(chart) && k < |chart|
    ensures DecryptMorse(Keys(chart), Codes(chart), chart[k].code) == Some(chart[k].key)
  {
    var code := chart[k].code;
    SimpleCodeParses(code);
    assert !IsBlank(code) by { assert !IsSpace(code[0]); }
    assert Codes(chart)[k] == code;
    assert Keys(chart)[k] == chart[k].key;
  }

  /** The token of a character of an encodable message decrypts back to it. */
  lemma DecryptToken(chart: seq<Entry>, c: char)
    requires Invertible(chart)
    requires c == ' ' || (!IsSpace(c) && [UpperChar(c)] in Keys(chart))
    ensures DecryptMorse(Keys(chart), Codes(chart), Token(chart, UpperChar(c))) == Some([UpperChar(c)])
  {
    var u := UpperChar(c);
    UpperCharIdempotent(c);
    if c != ' ' {
      var code := Get(chart, [u]).value;
      var k :| 0 <= k < |chart| && chart[k] == Entry([u], code);
      DecryptCode(chart, k);
    } else {
      assert IsBlank(Token(chart, u));
    }
  }

  /** The tokens of the upper-cased message `upper`, one per character. */
  function Tokens(chart: seq<Entry>, upper: string): (ts: seq<string>)
    ensures |ts| == |upper|
    ensures forall i :: 0 <= i < |upper| ==> ts[i] == Token(chart, upper[i])
  {
    seq(|upper|, i requires 0 <= i < |upper| => Token(chart, upper[i]))
  }

  /** Encrypting an encodable message emits each token followed by a space. */
  lemma EncryptedTokens(chart: seq<Entry>, message: string)
    requires Encodable(chart, message)
    ensures Encrypted(chart, message) == Some(Concat(Terminated(Tokens(chart, Upper(message)), ' ')))
  {
    var tokens := Tokens(chart, Upper(message));
    var eps := EncryptPieces(chart, message);
    forall i | 0 <= i < |message| ensures eps[i] == Some(tokens[i] + " ") {
      EncryptCharToken(chart, message[i]);
    }
    ConcatSomeAllSome(eps);
    assert seq(|eps|, i requires 0 <= i < |eps| => eps[i].value) == Terminated(tokens, ' ');
  }

  /** On an invertible chart no token holds a space. */
  lemma TokensNoSpace(chart: seq<Entry>, upper: string)
    requires Invertible(chart)
    ensures forall i :: 0 <= i < |upper| ==> ' ' !in Tokens(chart, upper)[i]
  {
    forall i | 0 <= i < |upper| ensures ' ' !in Tokens(chart, upper)[i] {
      var u := upper[i];
      if u != ' ' && Get(chart, [u]).Some? {
        var k :| 0 <= k < |chart| && chart[k] == Entry([u], Get(chart, [u]).value);
        assert SimpleCode(chart[k].code);
      }
    }
  }

  /** Decrypting the emitted tokens gives back the upper-cased message and
      one space for the empty token after the last separator. */
  lemma DecryptedTokens(chart: seq<Entry>, message: string)
    requires Invertible(chart)
    requires Encodable(chart, message)
    ensures Decrypted(chart, Concat(Terminated(Tokens(chart, Upper(message)), ' '))) == Some(Upper(message) + " ")
  {
    var upper := Upper(message);
    var n := |upper|;
    var tokens := Tokens(chart, upper);
    TokensNoSpace(chart, upper);
    SplitTerminated(tokens, ' ');
    var e := Concat(Terminated(tokens, ' '));
    var all := upper + " ";
    var dps := DecryptPieces(chart, e);
    assert |dps| == n + 1;
    forall i | 0 <= i <= n ensures dps[i] == Some([all[i]]) {
      if i < n {
        DecryptToken(chart, message[i]);
      } else {
        assert SplitOn(e, ' ')[n] == "";
        assert IsBlank("");
      }
    }
    ConcatSomeChars(dps, all);
  }

  /** The round trip: on a chart the decoder can invert, decrypting the
      encryption of an encodable message gives the upper-cased message and
      the space that follows the last code. */
  lemma RoundTrip(chart: seq<Entry>, message: string)
    requires Invertible(chart)
    requires Encodable(chart, message)
    ensures Encrypted(chart, message).Some?
    ensures Decrypted(chart, Encrypted(chart, message).value) == Some(Upper(message) + " ")
  {
    EncryptedTokens(chart, message);
    DecryptedTokens(chart, message);
  }

  /** On the built-in chart every message of keys and spaces survives the
      round trip. */
  lemma BuiltinRoundTrip(message: string)
    requires Encodable(Builtin, message)
    ensures Encrypted(Builtin, message).Some?
    ensures Decrypted(Builtin, Encrypted(Builtin, message).value) == Some(Upper(message) + " ")
  {
    BuiltinWellFormed();
    RoundTrip(Builtin, message);
  }

  /** A token the decoder reads as the character `c`: the empty token for a
      space, otherwise the code stored under the key `[c]`. */
  predicate ReadsAs(chart: seq<Entry>, token: string, c: char) {
    (token == "" && c == ' ') || exists k :: 0 <= k < |chart| && chart[k] == Entry([c], token)
  }

  /** A token that reads as a character decrypts to it, and has no space. */
  lemma ReadsAsDecrypts(chart: seq<Entry>, token: string, c: char)
    requires Invertible(chart) && ReadsAs(chart, token, c)
    ensures ' ' !in token
    ensures DecryptMorse(Keys(chart), Codes(chart), token) == Some([c])
  {
    if token == "" && c == ' ' {
      assert IsBlank(token);
    } else {
      var k :| 0 <= k < |chart| && chart[k] == Entry([c], token);
      assert SimpleCode(chart[k].code);
      DecryptCode(chart, k);
    }
  }

  /** On an invertible chart, tokens separated by single spaces decrypt
      character by character. */
  lemma DecryptedJoin(chart: seq<Entry>, tokens: seq<string>, out: string)
    requires Invertible(chart)
    requires |tokens| == |out| > 0
    requires forall i :: 0 <= i < |out| ==> ReadsAs(chart, tokens[i], out[i])
    ensures Decrypted(chart, Join(" ", tokens)) == Some(out)
  {
    forall i | 0 <= i < |tokens|
      ensures ' ' !in tokens[i]
      ensures DecryptMorse(Keys(chart), Codes(chart), tokens[i]) == Some([out[i]])
    {
      ReadsAsDecrypts(chart, tokens[i], out[i]);
    }
    SplitJoin(tokens, ' ');
    var ps := DecryptPieces(chart, Join(" ", tokens));
    ConcatSomeChars(ps, out);
  }

  /** `decrypt("... --- ...")` on the built-in chart is "SOS". */
  lemma DecryptSos()
    ensures Decrypted(Builtin, "... --- ...") == Some("SOS")
  {
    BuiltinWellFormed();
    var tokens := ["...", "---", "..."];
    assert Join(" ", tokens) == "... --- ...";
    assert Builtin[18] == Entry("S", "...") && Builtin[14] == Entry("O", "---");
    assert ReadsAs(Builtin, tokens[0], 'S') && ReadsAs(Builtin, tokens[1], 'O') && ReadsAs(Builtin, tokens[2], 'S');
    DecryptedJoin(Builtin, tokens, "SOS");
  }

  /** The tokens of the module's demonstration message read as "THIS IS BUS". */
  lemma ThisIsBusReads(tokens: seq<string>, out: string)
    requires tokens == ["-", "....", "..", "...", "", "..", "...", "", "-...", "..-", "..."]
    requires out == "THIS IS BUS"
    ensures forall i :: 0 <= i < |out| ==> ReadsAs(Builtin, tokens[i], out[i])
  {
    forall i | 0 <= i < |out| ensures ReadsAs(Builtin, tokens[i], out[i]) {
      var k := if out[i] == 'T' then 19 else if out[i] == 'H' then 7 else if out[i] == 'I' then 8
        else if out[i] == 'S' then 18 else if out[i] == 'B' then 1 else 20;
      if out[i] != ' ' {
        assert Builtin[k] == Entry([out[i]], tokens[i]);
      }
    }
  }

  /** The demonstration message split on single spaces: an empty token
      between two words. */
  lemma ThisIsBusJoin(tokens: seq<string>)
    requires tokens == ["-", "....", "..", "...", "", "..", "...", "", "-...", "..-", "..."]
    ensures Join(" ", tokens) == "- .... .. ...  .. ...  -... ..- ..."
  {
    var m := tokens[3..];
    ThisIsBusMiddle(m);
    JoinHead3("-", "....", "..", m);
    assert ["-", "....", ".."] + m == tokens;
    ThisIsBusConcat();
  }

  lemma ThisIsBusConcat()
    ensures "-" + " " + ("...." + " " + (".." + " " + "...  .. ...  -... ..- ..."))
      == "- .... .. ...  .. ...  -... ..- ..."
  {
    ThisIsBusConcatA();
    ThisIsBusConcatB();
    ThisIsBusConcatC();
  }

  lemma ThisIsBusConcatA()
    ensures ".." + " " + "...  .. ...  -... ..- ..." == ".. ...  .. ...  -... ..- ..."
  {}

  lemma ThisIsBusConcatB()
    ensures "...." + " " + ".. ...  .. ...  -... ..- ..." == ".... .. ...  .. ...  -... ..- ..."
  {}

  lemma ThisIsBusConcatC()
    ensures "-" + " " + ".... .. ...  .. ...  -... ..- ..." == "- .... .. ...  .. ...  -... ..- ..."
  {}

  /** Three steps of `sep.join`. */
  lemma JoinHead3(a: string, b: string, c: string, xs: seq<string>)
    requires xs != []
    ensures Join(" ", [a, b, c] + xs) == a + " " + (b + " " + (c + " " + Join(" ", xs)))
  {
    JoinStep(" ", c, xs);
    JoinStep(" ", b, [c] + xs);
    JoinStep(" ", a, [b] + ([c] + xs));
    assert [a] + ([b] + ([c] + xs)) == [a, b, c] + xs;
  }

  /** One step of `sep.join`: the first piece, the separator, the rest. */
  lemma JoinStep(sep: string, x: string, xs: seq<string>)
    requires xs != []
    ensures Join(sep, [x] + xs) == x + sep + Join(sep, xs)
  {
    assert ([x] + xs)[1..] == xs;
  }

  lemma ThisIsBusTail(tokens: seq<string>)
    requires tokens == ["", "-...", "..-", "..."]
    ensures Join(" ", tokens) == " -... ..- ..."
  {
    JoinStep(" ", tokens[2], tokens[3..]);
    JoinStep(" ", tokens[1], tokens[2..]);
    JoinStep(" ", tokens[0], tokens[1..]);
  }

  lemma ThisIsBusMiddle(tokens: seq<string>)
    requires tokens == ["...", "", "..", "...", "", "-...", "..-", "..."]
    ensures Join(" ", tokens) == "...  .. ...  -... ..- ..."
  {
    ThisIsBusTail(tokens[4..]);
    JoinStep(" ", tokens[3], tokens[4..]);
    JoinStep(" ", tokens[2], tokens[3..]);
    JoinStep(" ", tokens[1], tokens[2..]);
    JoinStep(" ", tokens[0], tokens[1..]);
  }

  /** The message the module's demonstration decrypts:
      "- .... .. ...  .. ...  -... ..- ..." reads "THIS IS BUS". */
  lemma DecryptThisIsBus()
    ensures Decrypted(Builtin, "- .... .. ...  .. ...  -... ..- ...") == Some("THIS IS BUS")
  {
    BuiltinWellFormed();
    var tokens := ["-", "....", "..", "...", "", "..", "...", "", "-...", "..-", "..."];
    ThisIsBusReads(tokens, "THIS IS BUS");
    ThisIsBusJoin(tokens);
    DecryptedJoin(Builtin, tokens, "THIS IS BUS");
  }

  /** `encrypt(",")` fails on the built-in chart: the comma's key is ", ". */
  lemma EncryptCommaFails()
    ensures Encrypted(Builtin, ",") == None
  {
    CommaNotKey();
    assert [UpperChar(',')] == ",";
    EncryptedNoneIff(Builtin, ",");
    assert !IsSpace(","[0]);
  }

  /**
    The `Morse` object: the chart and the two lists rebuilt from it after
    every insert.
   */
  class Morse {
    var chart: seq<Entry>
    var characters: seq<string>
    var codes: seq<string>

    /** The chart is a dict, and the lists are its keys and its values in
        insertion order, so `codes[i]` is the code of `characters[i]`. */
    ghost predicate Valid()
      reads this
    {
      DistinctKeys(chart) && characters == Keys(chart) && codes == Codes(chart)
    }

    constructor ()
      ensures Valid() && chart == Builtin
    {
      chart := Builtin;
      characters := Keys(Builtin);
      codes := Codes(Builtin);
      BuiltinWellFormed();
    }

    /** `add_morse`: the error it raises, and on success the chart updated
        with the normalised code and both lists rebuilt. */
    method AddMorse(ch: string, morse: Option<string>) returns (error: Option<AddError>)
      requires Valid()
      modifies this
      ensures Valid()
      ensures match Added(old(chart), ch, morse)
        case Success(c) => error == None && chart == c
        case Failure(e) => error == Some(e) && unchanged(this)
    {
      if !HasDotsAndDashes(morse) {
        return Some(InvalidCode);
      }
      var m := morse.value;
      if Entry(Upper(ch), Strip(m)) in chart || Strip(m) in codes || Strip(Upper(ch)) in characters {
        return Some(AlreadyInChart);
      }
      AddedUpdates(chart, ch, morse);
      chart := Upsert(chart, Upper(ch), ParseMorse(m).value);
      characters := Keys(chart);
      codes := Codes(chart);
      return None;
    }
  }

  /** `MorseEncrypt`: reads the chart of the `Morse` object it was given. */
  class MorseEncrypt {
    const morse: Morse

    constructor (morse: Morse)
      ensures this.morse == morse
    {
      this.morse := morse;
    }

    /** `encrypt`: the pieces of the upper-cased message, accumulated left
        to right; a missing piece makes the result `None`. */
    method Encrypt(message: string) returns (r: Option<string>)
      requires morse.Valid()
      ensures r == Encrypted(morse.chart, message)
    {
      var upper := Upper(message);
      ghost var pieces := EncryptPieces(morse.chart, message);
      var acc := "";
      var i := 0;
      while i < |upper|
        invariant i <= |upper|
        invariant ConcatSome(pieces[..i]) == Some(acc)
      {
        var piece := EncryptChar(morse.chart, [upper[i]]);
        ConcatSomeStep(pieces, i, acc);
        if piece.None? {
          return None;
        }
        acc := acc + piece.value;
        i := i + 1;
      }
      assert pieces[..i] == pieces;
      return Some(acc);
    }
  }

  /** `MorseDecrypt`: reads the lists of the `Morse` object it was given. */
  class MorseDecrypt {
    const morse: Morse

    constructor (morse: Morse)
      ensures this.morse == morse
    {
      this.morse := morse;
    }

    /** `decrypt`: the pieces of the tokens between single spaces,
        accumulated left to right; a missing piece makes the result `None`. */
    method Decrypt(message: string) returns (r: Option<string>)
      requires morse.Valid()
      ensures r == Decrypted(morse.chart, message)
    {
      var tokens := SplitOn(message, ' ');
      ghost var pieces := DecryptPieces(morse.chart, message);
      var acc := "";
      var i := 0;
      while i < |tokens|
        invariant i <= |tokens|
        invariant ConcatSome(pieces[..i]) == Some(acc)
      {
        var piece := DecryptMorse(morse.characters, morse.codes, tokens[i]);
        ConcatSomeStep(pieces, i, acc);
        if piece.None? {
          return None;
        }
        acc := acc + piece.value;
        i := i + 1;
      }
      assert pieces[..i] == pieces;
      return Some(acc);
    }
  }
}
