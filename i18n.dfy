/**
 * Translation lookup and placeholder filling shared by the client hook and
 * the server helper: the dictionary of a language (only `bn` has one), the
 * fallback to the key, and the left-to-right replacement of `$` by the
 * placeholder values with `String.prototype.replace`.
 */
module I18n {

  import JsStrings
  import Decimal

  /** The dictionaries by language; the `bn` table is a parameter. */
  function Dictionaries(bn: map<string, string>): map<string, map<string, string>> {
    map["bn" := bn]
  }

  /** `dictionaries[lang]?.[key] || key`: a missing or empty entry falls back to the key. */
  function Lookup(bn: map<string, string>, lang: string, key: string): (r: string)
    ensures lang == "bn" && key in bn && bn[key] != "" ==> r == bn[key]
    ensures !(lang == "bn" && key in bn && bn[key] != "") ==> r == key
  {
    var dicts := Dictionaries(bn);
    if lang in dicts && key in dicts[lang] && dicts[lang][key] != "" then dicts[lang][key] else key
  }

  /** A placeholder value: a string or an (integer) number. */
  datatype Placeholder = Text(s: string) | Number(n: int)

  /** `String(value)`. */
  function Show(v: Placeholder): string {
    match v
    case Text(s) => s
    case Number(n) => Decimal.IntToString(n)
  }

  /** The translation after each value in turn replaced the first `$` still present. */
  function SubstituteAll(translation: string, values: seq<Placeholder>): string
    decreases |values|
  {
    if values == [] then translation
    else SubstituteAll(JsStrings.ReplaceFirst(translation, "$", Show(values[0])), values[1..])
  }

  /** The `forEach` that reassigns `translation`. */
  method Substitute(template: string, values: seq<Placeholder>) returns (translation: string)
    ensures translation == SubstituteAll(template, values)
  {
    translation := template;
    if |values| > 0 {
      var i := 0;
      while i < |values|
        invariant 0 <= i <= |values|
        invariant SubstituteAll(translation, values[i..]) == SubstituteAll(template, values)
      {
        assert values[i..][1..] == values[i + 1..];
        translation := JsStrings.ReplaceFirst(translation, "$", Show(values[i]));
        i := i + 1;
      }
      assert values[i..] == [];
    }
  }

  /**
   * The expected outcome for a template written as `pieces` joined by `$`
   * (each piece free of `$`): values and pieces alternate while both last;
   * holes without a value keep their `$`, values without a hole are dropped.
   */
  function Filled(pieces: seq<string>, values: seq<string>): string
    requires |pieces| >= 1
  {
    if values == [] then JsStrings.Join(pieces, '$')
    else if |pieces| == 1 then pieces[0]
    else pieces[0] + values[0] + Filled(pieces[1..], values[1..])
  }

  function ShowAll(values: seq<Placeholder>): (r: seq<string>)
    ensures |r| == |values| && forall i :: 0 <= i < |values| ==> r[i] == Show(values[i])
  {
    if values == [] then [] else [Show(values[0])] + ShowAll(values[1..])
  }

  // ---------------------------------------------------------------------
  // Lemmas
  // ---------------------------------------------------------------------

  lemma NoDollarIndex(t: string)
    requires '$' !in t
    ensures JsStrings.IndexOf(t, "$") < 0
  {
    forall j | 0 <= j <= |t| ensures !JsStrings.OccursAt(t, "$", j) {
      if j < |t| {
        assert t[j..j + 1][0] == t[j];
      }
    }
  }

  /** A translation without `$` is returned unchanged, whatever the values. */
  lemma {:induction false} NoDollarUnchanged(t: string, values: seq<Placeholder>)
    requires '$' !in t
    ensures SubstituteAll(t, values) == t
    decreases |values|
  {
    if values != [] {
      NoDollarIndex(t);
      NoDollarUnchanged(t, values[1..]);
    }
  }

  /** The first value replaces the leftmost `$` (a value without `$` is inserted literally). */
  lemma LeftmostFirst(a: string, b: string, v: string)
    requires '$' !in a && '$' !in v
    ensures JsStrings.ReplaceFirst(a + "$" + b, "$", v) == a + v + b
  {
    var t := a + "$" + b;
    assert JsStrings.OccursAt(t, "$", |a|) by {
      assert t[|a|..|a| + 1] == "$";
    }
    forall j | 0 <= j < |a| ensures !JsStrings.OccursAt(t, "$", j) {
      assert t[j] == a[j];
      assert t[j..j + 1][0] == t[j];
    }
    var i := JsStrings.IndexOf(t, "$");
    assert i == |a|;
    JsStrings.ReplaceFirstLiteral(t, "$", v);
    assert t[..i] == a && t[i + 1..] == b;
  }

  lemma DollarAbsent(t: string)
    requires JsStrings.IndexOf(t, "$") < 0
    ensures '$' !in t
  {
    forall j | 0 <= j < |t| ensures t[j] != '$' {
      assert !JsStrings.OccursAt(t, "$", j);
      assert t[j..j + 1][0] == t[j];
    }
  }

  lemma FirstDollar(t: string) returns (a: string, b: string)
    requires JsStrings.IndexOf(t, "$") >= 0
    ensures t == a + "$" + b && '$' !in a
  {
    var i := JsStrings.IndexOf(t, "$");
    a := t[..i];
    b := t[i + 1..];
    assert t[i..i + 1] == "$";
    assert t == a + t[i..i + 1] + b;
    forall j | 0 <= j < |a| ensures a[j] != '$' {
      assert !JsStrings.OccursAt(t, "$", j);
      assert t[j..j + 1][0] == t[j] == a[j];
    }
  }

  /** A `$`-free prefix is left alone by the replacement. */
  lemma PrefixUntouched(x: string, t: string, v: string)
    requires '$' !in x && '$' !in v
    ensures JsStrings.ReplaceFirst(x + t, "$", v) == x + JsStrings.ReplaceFirst(t, "$", v)
  {
    if JsStrings.IndexOf(t, "$") < 0 {
      DollarAbsent(t);
      assert '$' !in x + t;
      NoDollarIndex(x + t);
    } else {
      var a, b := FirstDollar(t);
      LeftmostFirst(a, b, v);
      assert x + t == (x + a) + "$" + b;
      LeftmostFirst(x + a, b, v);
    }
  }

  lemma {:induction false} PrefixUntouchedAll(x: string, t: string, values: seq<Placeholder>)
    requires '$' !in x && forall i :: 0 <= i < |values| ==> '$' !in Show(values[i])
    ensures SubstituteAll(x + t, values) == x + SubstituteAll(t, values)
    decreases |values|
  {
    if values != [] {
      PrefixUntouched(x, t, Show(values[0]));
      PrefixUntouchedAll(x, JsStrings.ReplaceFirst(t, "$", Show(values[0])), values[1..]);
    }
  }

  /**
   * Filling a template made of `$`-free pieces joined by `$` with `$`-free
   * values gives the pieces and values alternating, left to right: the
   * leftmost remaining `$` takes the next value, extra values are ignored
   * and extra `$` stay.
   */
  lemma {:induction false} FillsLeftToRight(pieces: seq<string>, values: seq<Placeholder>)
    requires |pieces| >= 1
    requires forall k :: 0 <= k < |pieces| ==> '$' !in pieces[k]
    requires forall i :: 0 <= i < |values| ==> '$' !in Show(values[i])
    ensures SubstituteAll(JsStrings.Join(pieces, '$'), values) == Filled(pieces, ShowAll(values))
    decreases |values|
  {
    if values == [] {
    } else if |pieces| == 1 {
      NoDollarUnchanged(pieces[0], values);
    } else {
      var rest := JsStrings.Join(pieces[1..], '$');
      assert JsStrings.Join(pieces, '$') == pieces[0] + "$" + rest;
      var v := Show(values[0]);
      LeftmostFirst(pieces[0], rest, v);
      FillsLeftToRight(pieces[1..], values[1..]);
      PrefixUntouchedAll(pieces[0] + v, rest, values[1..]);
      assert ShowAll(values)[1..] == ShowAll(values[1..]);
      assert pieces[0] + v + rest == (pieces[0] + v) + rest;
    }
  }

  /** Numbers are printed without `$`, so they are always inserted literally. */
  lemma NumberHasNoDollar(n: int)
    ensures '$' !in Show(Number(n))
  {
    var m: nat := if n < 0 then -n else n;
    Decimal.ParsePrinted(m);
    assert forall i :: 0 <= i < |Decimal.NatToString(m)| ==> Decimal.NatToString(m)[i] != '$';
    if n < 0 {
      assert Show(Number(n)) == "-" + Decimal.NatToString(m);
    }
  }

  /** English has no dictionary: the key comes back unchanged. */
  lemma EnglishIsKey(bn: map<string, string>, key: string)
    ensures Lookup(bn, "en", key) == key
  {
  }
}
