/**
  ASCII models of the Python built-ins the ciphers rely on: `str.isspace`,
  `str.isalpha`, `str.upper`, `str.lower`, `str.strip`, `str.split()`,
  `str.split(sep)`, `sep.join(...)`, `list.index`, and the accumulation
  `acc += piece` in which a `None` piece raises `TypeError`.
 */
module PyStr {
  import opened Wrappers

  /** `c.isspace()` for ASCII: tab, line feed, vertical tab, form feed,
      carriage return, the separators 0x1C-0x1F and the space. */
  predicate IsSpace(c: char) {
    (9 <= c as int <= 13) || (28 <= c as int <= 32)
  }

  predicate IsUpper(c: char) { 'A' <= c <= 'Z' }

  predicate IsLower(c: char) { 'a' <= c <= 'z' }

  /** `c.isalpha()` for ASCII. */
  predicate IsAlpha(c: char) { IsUpper(c) || IsLower(c) }

  predicate NoSpace(s: string) {
    forall i :: 0 <= i < |s| ==> !IsSpace(s[i])
  }

  /** A string that `strip()` turns into "" (`not s.strip()` in Python). */
  predicate IsBlank(s: string) {
    forall i :: 0 <= i < |s| ==> IsSpace(s[i])
  }

  function UpperChar(c: char): char {
    if IsLower(c) then (c as int - 32) as char else c
  }

  function LowerChar(c: char): char {
    if IsUpper(c) then (c as int + 32) as char else c
  }

  /** `s.upper()`, ASCII letters only. */
  function Upper(s: string): (r: string)
    ensures |r| == |s|
    ensures forall i :: 0 <= i < |s| ==> r[i] == UpperChar(s[i])
  {
    seq(|s|, i requires 0 <= i < |s| => UpperChar(s[i]))
  }

  /** `s.lower()`, ASCII letters only. */
  function Lower(s: string): (r: string)
    ensures |r| == |s|
    ensures forall i :: 0 <= i < |s| ==> r[i] == LowerChar(s[i])
  {
    seq(|s|, i requires 0 <= i < |s| => LowerChar(s[i]))
  }

  /** `s.lstrip()`: what is left once the leading whitespace is dropped. */
  function TrimStart(s: string): (r: string)
    ensures |r| <= |s|
    ensures r == [] || !IsSpace(r[0])
  {
    if |s| > 0 && IsSpace(s[0]) then TrimStart(s[1..]) else s
  }

  /** What `lstrip()` keeps is a suffix, and what it drops is whitespace. */
  lemma {:induction false} TrimStartParts(s: string)
    ensures TrimStart(s) == s[|s| - |TrimStart(s)|..]
    ensures IsBlank(s[..|s| - |TrimStart(s)|])
  {
    if |s| > 0 && IsSpace(s[0]) {
      TrimStartParts(s[1..]);
      var k := |s| - |TrimStart(s)|;
      assert s[1..][..k - 1] == s[1..k];
    }
  }

  /** `s.rstrip()`: what is left once the trailing whitespace is dropped. */
  function TrimEnd(s: string): (r: string)
    ensures |r| <= |s|
    ensures r == [] || !IsSpace(r[|r| - 1])
  {
    if |s| > 0 && IsSpace(s[|s| - 1]) then TrimEnd(s[..|s| - 1]) else s
  }

  /** What `rstrip()` keeps is a prefix, and what it drops is whitespace. */
  lemma {:induction false} TrimEndParts(s: string)
    ensures TrimEnd(s) == s[..|TrimEnd(s)|]
    ensures IsBlank(s[|TrimEnd(s)|..])
  {
    if |s| > 0 && IsSpace(s[|s| - 1]) {
      var n := |s| - 1;
      TrimEndParts(s[..n]);
      var k := |TrimEnd(s)|;
      assert s[..n][..k] == s[..k];
      assert forall i :: k <= i < n ==> s[..n][k..][i - k] == s[i];
    }
  }

  /** `s.strip()`. */
  function Strip(s: string): (r: string)
    ensures |r| <= |s|
    ensures r == [] || (!IsSpace(r[0]) && !IsSpace(r[|r| - 1]))
  {
    var t := TrimStart(s);
    TrimEndParts(t);
    TrimEnd(t)
  }

  /** `rstrip()` drops trailing whitespace added after a string that does
      not itself end in whitespace. */
  lemma {:induction false} TrimEndPadded(s: string, p: string)
    requires s != [] && !IsSpace(s[|s| - 1])
    requires IsBlank(p)
    ensures TrimEnd(s + p) == s
    decreases |p|
  {
    if p == [] {
      assert s + p == s;
    } else {
      var n := |p| - 1;
      assert (s + p)[..|s + p| - 1] == s + p[..n];
      TrimEndPadded(s, p[..n]);
    }
  }

  /** `strip()` of a string with non-whitespace ends, followed by whitespace. */
  lemma StripPadded(s: string, p: string)
    requires s != [] && !IsSpace(s[0]) && !IsSpace(s[|s| - 1])
    requires IsBlank(p)
    ensures Strip(s + p) == s
  {
    assert TrimStart(s + p) == s + p by { assert (s + p)[0] == s[0]; }
    TrimEndPadded(s, p);
  }

  /** `strip()` of a single character. */
  lemma StripChar(c: char)
    ensures Strip([c]) == if IsSpace(c) then [] else [c]
  {
    if !IsSpace(c) {
      assert TrimStart([c]) == [c];
      assert TrimEnd([c]) == [c];
    } else {
      assert TrimStart([c]) == TrimStart([]);
    }
  }

  /** Dropping the leading whitespace of a blank string leaves nothing. */
  lemma {:induction false} BlankTrimStart(s: string)
    ensures IsBlank(s) ==> TrimStart(s) == []
  {
    if s != [] && IsSpace(s[0]) {
      BlankTrimStart(s[1..]);
    }
  }

  /** `not s.strip()` holds exactly of the all-whitespace strings. */
  lemma StripEmptyIffBlank(s: string)
    ensures Strip(s) == [] <==> IsBlank(s)
  {
    BlankTrimStart(s);
    var t := TrimStart(s);
    if Strip(s) == [] {
      TrimStartParts(s);
      TrimEndParts(t);
      assert t[0..] == t;
      assert t == [];
      assert s[..|s|] == s;
    }
  }

  /** `strip()` leaves a string without whitespace as it is. */
  lemma StripNoSpace(s: string)
    requires NoSpace(s)
    ensures Strip(s) == s
  {
    assert TrimStart(s) == s by {
      if s != [] { assert !IsSpace(s[0]); }
    }
    assert TrimEnd(s) == s by {
      if s != [] { assert !IsSpace(s[|s| - 1]); }
    }
  }

  /** Length of the leading run of non-whitespace characters. */
  function WordEnd(s: string): (n: nat)
    ensures n <= |s|
    ensures forall i :: 0 <= i < n ==> !IsSpace(s[i])
    ensures n < |s| ==> IsSpace(s[n])
  {
    if s == [] || IsSpace(s[0]) then 0 else 1 + WordEnd(s[1..])
  }

  /** `s.split()`: the maximal runs of non-whitespace characters, in order. */
  function Words(s: string): (ws: seq<string>)
    ensures forall i :: 0 <= i < |ws| ==> ws[i] != [] && NoSpace(ws[i])
    decreases |s|
  {
    var t := TrimStart(s);
    if t == [] then []
    else
      var n := WordEnd(t);
      [t[..n]] + Words(t[n..])
  }

  /** `s.split()` is empty exactly for blank strings. */
  lemma WordsEmptyIffBlank(s: string)
    ensures Words(s) == [] <==> IsBlank(s)
  {
    BlankTrimStart(s);
    if Words(s) == [] {
      var t := TrimStart(s);
      TrimStartParts(s);
      assert t == [];
      assert s[..|s|] == s;
    }
  }

  lemma TrimStartSkipsBlank(p: string, s: string)
    requires IsBlank(p)
    ensures TrimStart(p + s) == TrimStart(s)
  {
    if p != [] {
      assert (p + s)[1..] == p[1..] + s;
      TrimStartSkipsBlank(p[1..], s);
    } else {
      assert p + s == s;
    }
  }

  /** Leading whitespace does not change `split()`. */
  lemma WordsSkipBlank(p: string, s: string)
    requires IsBlank(p)
    ensures Words(p + s) == Words(s)
  {
    TrimStartSkipsBlank(p, s);
  }

  lemma {:induction false} WordEndOfWord(w: string, rest: string)
    requires NoSpace(w)
    requires rest == [] || IsSpace(rest[0])
    ensures WordEnd(w + rest) == |w|
  {
    if w != [] {
      assert (w + rest)[1..] == w[1..] + rest;
      WordEndOfWord(w[1..], rest);
    } else {
      assert w + rest == rest;
    }
  }

  /** A word followed by a whitespace separator splits off as the first word. */
  lemma WordsConsWord(w: string, sep: string, rest: string)
    requires w != [] && NoSpace(w)
    requires sep != [] && IsBlank(sep)
    ensures Words(w + sep + rest) == [w] + Words(rest)
  {
    var s := w + sep + rest;
    assert TrimStart(s) == s;
    WordEndOfWord(w, sep + rest);
    assert s == w + (sep + rest);
    assert s[..|w|] == w;
    assert s[|w|..] == sep + rest;
    WordsSkipBlank(sep, rest);
  }

  lemma WordsOfWord(w: string)
    requires w != [] && NoSpace(w)
    ensures Words(w) == [w]
  {
    WordEndOfWord(w, []);
    assert w + [] == w;
    assert w[..|w|] == w;
    assert w[|w|..] == [];
  }

  /** `sep.join(xs)`. */
  function Join(sep: string, xs: seq<string>): string {
    if |xs| == 0 then ""
    else if |xs| == 1 then xs[0]
    else xs[0] + sep + Join(sep, xs[1..])
  }

  /** Joining words with a whitespace separator and splitting again gives the words back. */
  lemma {:induction false} WordsJoin(sep: string, ws: seq<string>)
    requires sep != [] && IsBlank(sep)
    requires forall i :: 0 <= i < |ws| ==> ws[i] != [] && NoSpace(ws[i])
    ensures Words(Join(sep, ws)) == ws
  {
    if |ws| == 0 {
    } else if |ws| == 1 {
      WordsOfWord(ws[0]);
    } else {
      WordsJoin(sep, ws[1..]);
      WordsConsWord(ws[0], sep, Join(sep, ws[1..]));
    }
  }

  /** Joining non-empty words that have no whitespace gives a string with no
      whitespace at either end. */
  lemma {:induction false} JoinEnds(sep: string, ws: seq<string>)
    requires |ws| > 0
    requires forall i :: 0 <= i < |ws| ==> ws[i] != [] && NoSpace(ws[i])
    ensures var j := Join(sep, ws); j != [] && !IsSpace(j[0]) && !IsSpace(j[|j| - 1])
  {
    if |ws| > 1 {
      JoinEnds(sep, ws[1..]);
      var rest := Join(sep, ws[1..]);
      assert (ws[0] + sep + rest)[0] == ws[0][0];
      assert (ws[0] + sep + rest)[|ws[0] + sep + rest| - 1] == rest[|rest| - 1];
    }
  }

  /** `s.split(d)` for a one-character separator: keeps empty parts, and
      always yields at least one part. */
  function SplitOn(s: string, d: char): (parts: seq<string>)
    ensures |parts| >= 1
    ensures forall p :: p in parts ==> d !in p
  {
    if s == [] then [""]
    else
      var rest := SplitOn(s[1..], d);
      if s[0] == d then [""] + rest
      else [[s[0]] + rest[0]] + rest[1..]
  }

  /** A part without the separator, then the separator: the first part is split off. */
  lemma {:induction false} SplitOnCons(w: string, d: char, x: string)
    requires d !in w
    ensures SplitOn(w + [d] + x, d) == [w] + SplitOn(x, d)
  {
    if w == [] {
      assert w + [d] + x == [d] + x;
      assert ([d] + x)[1..] == x;
    } else {
      assert (w + [d] + x)[1..] == w[1..] + [d] + x;
      SplitOnCons(w[1..], d, x);
      assert [w[0]] + w[1..] == w;
    }
  }

  /** A string without the separator is one part. */
  lemma {:induction false} SplitOnWhole(w: string, d: char)
    requires d !in w
    ensures SplitOn(w, d) == [w]
  {
    if w != [] {
      SplitOnWhole(w[1..], d);
      assert [w[0]] + w[1..] == w;
    }
  }

  /** Splitting on `d` undoes joining parts that do not contain `d`. */
  lemma {:induction false} SplitJoin(xs: seq<string>, d: char)
    requires |xs| > 0
    requires forall i :: 0 <= i < |xs| ==> d !in xs[i]
    ensures SplitOn(Join([d], xs), d) == xs
  {
    if |xs| == 1 {
      SplitOnWhole(xs[0], d);
    } else {
      SplitJoin(xs[1..], d);
      SplitOnCons(xs[0], d, Join([d], xs[1..]));
      assert [xs[0]] + xs[1..] == xs;
    }
  }

  /** The concatenation of a list of strings, written as the left fold
      `acc += piece` that the Python loops perform. */
  function Concat(ss: seq<string>): string {
    if ss == [] then "" else Concat(ss[..|ss| - 1]) + ss[|ss| - 1]
  }

  lemma {:induction false} ConcatFront(x: string, ss: seq<string>)
    ensures Concat([x] + ss) == x + Concat(ss)
    decreases |ss|
  {
    if ss == [] {
      assert [x] + ss == [x];
      assert [x][..0] == [];
    } else {
      var last := |ss| - 1;
      assert ([x] + ss)[..|ss|] == [x] + ss[..last];
      ConcatFront(x, ss[..last]);
    }
  }

  /** Concatenating the one-character strings of `s` rebuilds `s`. */
  lemma {:induction false} ConcatChars(s: string)
    ensures Concat(seq(|s|, i requires 0 <= i < |s| => [s[i]])) == s
  {
    if s != [] {
      var n := |s| - 1;
      var pieces := seq(|s|, i requires 0 <= i < |s| => [s[i]]);
      assert pieces[..n] == seq(n, i requires 0 <= i < n => [s[..n][i]]);
      ConcatChars(s[..n]);
      assert s[..n] + [s[n]] == s;
    }
  }

  /** The fold of one-character pieces spells out those characters. */
  lemma {:induction false} ConcatSingles(ss: seq<string>)
    requires forall i :: 0 <= i < |ss| ==> |ss[i]| == 1
    ensures |Concat(ss)| == |ss|
    ensures forall i :: 0 <= i < |ss| ==> Concat(ss)[i] == ss[i][0]
  {
    if ss != [] {
      var n := |ss| - 1;
      ConcatSingles(ss[..n]);
    }
  }

  /** Appending one more piece to the fold. */
  lemma ConcatSnoc(ss: seq<string>, x: string)
    ensures Concat(ss + [x]) == Concat(ss) + x
  {
    assert (ss + [x])[..|ss|] == ss;
  }

  /** Each of `xs` followed by the separator `d`. */
  function Terminated(xs: seq<string>, d: char): (ys: seq<string>)
    ensures |ys| == |xs|
    ensures forall i :: 0 <= i < |xs| ==> ys[i] == xs[i] + [d]
  {
    seq(|xs|, i requires 0 <= i < |xs| => xs[i] + [d])
  }

  lemma TerminatedCons(xs: seq<string>, d: char)
    requires xs != []
    ensures Terminated(xs, d) == [xs[0] + [d]] + Terminated(xs[1..], d)
  {
  }

  /** Splitting parts that each end in the separator gives the parts back,
      followed by the empty part after the final separator. */
  lemma {:induction false} SplitTerminated(xs: seq<string>, d: char)
    requires forall i :: 0 <= i < |xs| ==> d !in xs[i]
    ensures SplitOn(Concat(Terminated(xs, d)), d) == xs + [""]
  {
    if xs != [] {
      var x, rest := xs[0], xs[1..];
      var t := Terminated(rest, d);
      var c := Concat(t);
      assert d !in x;
      assert Concat(Terminated(xs, d)) == x + [d] + c by {
        TerminatedCons(xs, d);
        ConcatFront(x + [d], t);
      }
      assert SplitOn(c, d) == rest + [""] by {
        forall i | 0 <= i < |rest| ensures d !in rest[i] { assert rest[i] == xs[i + 1]; }
        SplitTerminated(rest, d);
      }
      SplitOnCons(x, d, c);
      assert xs + [""] == [x] + (rest + [""]);
    }
  }

  /** Each part followed by `d`, concatenated, is the parts joined by `d`
      and one final `d`. */
  lemma {:induction false} ConcatTerminated(xs: seq<string>, d: char)
    requires |xs| > 0
    ensures Concat(Terminated(xs, d)) == Join([d], xs) + [d]
  {
    var rest := xs[1..];
    assert Terminated(xs, d) == [xs[0] + [d]] + Terminated(rest, d);
    ConcatFront(xs[0] + [d], Terminated(rest, d));
    if |xs| > 1 {
      ConcatTerminated(rest, d);
    } else {
      assert Terminated(rest, d) == [];
    }
  }

  /** `acc = ""; for p in pieces: acc += p`, where a `None` piece raises
      `TypeError` and the caller turns that into `None`. */
  function ConcatSome(ps: seq<Option<string>>): Option<string> {
    if ps == [] then Some("")
    else
      match ConcatSome(ps[..|ps| - 1])
      case None => None
      case Some(prefix) =>
        match ps[|ps| - 1]
        case None => None
        case Some(p) => Some(prefix + p)
  }

  /** The fold fails exactly when one of the pieces is missing. */
  lemma {:induction false} ConcatSomeNoneIff(ps: seq<Option<string>>)
    ensures ConcatSome(ps).None? <==> exists i :: 0 <= i < |ps| && ps[i].None?
  {
    if ps != [] {
      var n := |ps| - 1;
      ConcatSomeNoneIff(ps[..n]);
      if exists i :: 0 <= i < n && ps[..n][i].None? {
        var i :| 0 <= i < n && ps[..n][i].None?;
        assert ps[i].None?;
      }
      if exists i :: 0 <= i < |ps| && ps[i].None? {
        var i :| 0 <= i < |ps| && ps[i].None?;
        if i < n { assert ps[..n][i].None?; }
      }
    }
  }

  /** When no piece is missing the fold is the concatenation of the pieces. */
  lemma {:induction false} ConcatSomeAllSome(ps: seq<Option<string>>)
    requires forall i :: 0 <= i < |ps| ==> ps[i].Some?
    ensures ConcatSome(ps) == Some(Concat(seq(|ps|, i requires 0 <= i < |ps| => ps[i].value)))
  {
    if ps != [] {
      var n := |ps| - 1;
      ConcatSomeAllSome(ps[..n]);
      var vs := seq(|ps|, i requires 0 <= i < |ps| => ps[i].value);
      assert vs[..n] == seq(n, i requires 0 <= i < n => ps[..n][i].value);
    }
  }

  /** Pieces that are the single characters of `out` fold to `out`. */
  lemma ConcatSomeChars(ps: seq<Option<string>>, out: string)
    requires |ps| == |out|
    requires forall i :: 0 <= i < |ps| ==> ps[i] == Some([out[i]])
    ensures ConcatSome(ps) == Some(out)
  {
    ConcatSomeAllSome(ps);
    assert seq(|ps|, i requires 0 <= i < |ps| => ps[i].value) ==
      seq(|out|, i requires 0 <= i < |out| => [out[i]]);
    ConcatChars(out);
  }

  /** One step of the left-to-right accumulation that the fold models: a
      missing piece ends it with `None`, a present one is appended. */
  lemma ConcatSomeStep(ps: seq<Option<string>>, i: nat, acc: string)
    requires i < |ps| && ConcatSome(ps[..i]) == Some(acc)
    ensures ps[i].None? ==> ConcatSome(ps) == None
    ensures ps[i].Some? ==> ConcatSome(ps[..i + 1]) == Some(acc + ps[i].value)
  {
    assert ps[..i + 1][..i] == ps[..i];
    if ps[i].None? {
      ConcatSomeNoneIff(ps);
    }
  }

  /** `upper()` leaves a string without lower-case letters as it is. */
  lemma UpperNoLower(s: string)
    requires forall i :: 0 <= i < |s| ==> !IsLower(s[i])
    ensures Upper(s) == s
  {
  }

  /** Joining pieces without lower-case letters by a separator without
      them gives a string without them. */
  lemma {:induction false} JoinNoLower(sep: string, ws: seq<string>)
    requires forall k :: 0 <= k < |sep| ==> !IsLower(sep[k])
    requires forall i, k :: 0 <= i < |ws| && 0 <= k < |ws[i]| ==> !IsLower(ws[i][k])
    ensures forall k :: 0 <= k < |Join(sep, ws)| ==> !IsLower(Join(sep, ws)[k])
  {
    if |ws| > 1 {
      JoinNoLower(sep, ws[1..]);
      var rest := Join(sep, ws[1..]);
      var j := ws[0] + sep + rest;
      forall k | 0 <= k < |j| ensures !IsLower(j[k]) {
        if k < |ws[0]| {
          assert j[k] == ws[0][k];
        } else if k < |ws[0]| + |sep| {
          assert j[k] == sep[k - |ws[0]|];
        } else {
          assert j[k] == rest[k - |ws[0]| - |sep|];
        }
      }
    }
  }

  /** `xs.index(x)`: the first position of `x`, or `None` where Python
      raises `ValueError`. */
  function IndexOf<T(==)>(xs: seq<T>, x: T): (r: Option<nat>)
    ensures r.None? <==> x !in xs
    ensures r.Some? ==> r.value < |xs| && xs[r.value] == x
    ensures r.Some? ==> forall j :: 0 <= j < r.value ==> xs[j] != x
  {
    if xs == [] then None
    else if xs[0] == x then Some(0)
    else
      match IndexOf(xs[1..], x)
      case None => None
      case Some(i) => Some(i + 1)
  }
}
