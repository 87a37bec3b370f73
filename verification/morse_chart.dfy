/**
  The dot/dash code table shared by both drafts of the Morse code class.

  A Python `dict` keeps its keys in insertion order, and both drafts read
  that order back through `list(chart.keys())` and `list(chart.values())`,
  so the chart is a sequence of entries with pairwise distinct keys.
 */
module MorseChart {
  import opened Wrappers
  import opened PyStr

  datatype Entry = Entry(key: string, code: string)

  /** `list(chart.keys())`: the `characters` list. */
  function Keys(chart: seq<Entry>): (ks: seq<string>)
    ensures |ks| == |chart|
    ensures forall i :: 0 <= i < |chart| ==> ks[i] == chart[i].key
  {
    seq(|chart|, i requires 0 <= i < |chart| => chart[i].key)
  }

  /** `list(chart.values())`: the `codes` list. */
  function Codes(chart: seq<Entry>): (cs: seq<string>)
    ensures |cs| == |chart|
    ensures forall i :: 0 <= i < |chart| ==> cs[i] == chart[i].code
  {
    seq(|chart|, i requires 0 <= i < |chart| => chart[i].code)
  }

  /** What a dict guarantees: no key twice. */
  predicate DistinctKeys(chart: seq<Entry>) {
    forall i, j :: 0 <= i < j < |chart| ==> chart[i].key != chart[j].key
  }

  /** The table is invertible: no code twice. */
  predicate DistinctCodes(chart: seq<Entry>) {
    forall i, j :: 0 <= i < j < |chart| ==> chart[i].code != chart[j].code
  }

  /** `chart.get(key)`: the code stored under `key`, if any. */
  function Get(chart: seq<Entry>, key: string): (r: Option<string>)
    ensures r.None? <==> key !in Keys(chart)
    ensures r.Some? ==> exists i :: 0 <= i < |chart| && chart[i] == Entry(key, r.value)
  {
    if chart == [] then None
    else if chart[0].key == key then Some(chart[0].code)
    else
      assert Keys(chart[1..]) == Keys(chart)[1..];
      var r := Get(chart[1..], key);
      assert r.Some? ==> exists i :: 0 <= i < |chart[1..]| && chart[1..][i] == Entry(key, r.value);
      r
  }

  /** With distinct keys, the `i`-th key looks up the `i`-th code: the
      `characters` and `codes` lists stay index-aligned with the chart. */
  lemma {:induction false} GetAt(chart: seq<Entry>, i: nat)
    requires DistinctKeys(chart)
    requires i < |chart|
    ensures Get(chart, Keys(chart)[i]) == Some(Codes(chart)[i])
  {
    if i > 0 {
      assert chart[0].key != chart[i].key;
      GetAt(chart[1..], i - 1);
    }
  }

  /** `chart.update({key: code})`: an existing key keeps its place and takes
      the new code; a new key is appended at the end. */
  function Upsert(chart: seq<Entry>, key: string, code: string): (r: seq<Entry>)
    ensures key !in Keys(chart) ==> r == chart + [Entry(key, code)]
    ensures key in Keys(chart) ==> Keys(r) == Keys(chart)
  {
    if chart == [] then [Entry(key, code)]
    else if chart[0].key == key then [Entry(key, code)] + chart[1..]
    else
      assert Keys(chart[1..]) == Keys(chart)[1..];
      var rest := Upsert(chart[1..], key, code);
      assert Keys([chart[0]] + rest) == [chart[0].key] + Keys(rest);
      [chart[0]] + rest
  }

  /** After the update the key looks up the new code and every other key
      looks up what it did before. */
  lemma {:induction false} UpsertGet(chart: seq<Entry>, key: string, code: string, k: string)
    ensures Get(Upsert(chart, key, code), k) == if k == key then Some(code) else Get(chart, k)
  {
    if chart != [] && chart[0].key != key {
      UpsertGet(chart[1..], key, code, k);
    }
  }

  /** The update keeps a dict's keys distinct. */
  lemma {:induction false} UpsertDistinct(chart: seq<Entry>, key: string, code: string)
    requires DistinctKeys(chart)
    ensures DistinctKeys(Upsert(chart, key, code))
  {
    var r := Upsert(chart, key, code);
    assert Keys(r) == Keys(chart) || Keys(r) == Keys(chart) + [key];
    forall i, j | 0 <= i < j < |r| ensures r[i].key != r[j].key {
      assert Keys(r)[i] == r[i].key && Keys(r)[j] == r[j].key;
    }
  }

  /** Every symbol is a dot or a dash. */
  predicate DotDash(w: string) {
    forall i :: 0 <= i < |w| ==> w[i] == '.' || w[i] == '-'
  }

  /** A code as both drafts store it for the built-in alphabet: one
      non-empty run of dots and dashes. */
  predicate SimpleCode(c: string) {
    c != [] && DotDash(c)
  }
}
