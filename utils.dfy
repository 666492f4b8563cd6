/**
 * The string and object helpers of the shared utility file: the slug of a
 * title, the normalised user name of a profile route, the `undefined`
 * filters, the reading time of an article, the word truncation that ends
 * the markdown-to-excerpt pipeline, and the mapping of an action's response
 * to a settled promise.
 */
module Utils {

  import opened Common
  import JsStrings
  import RepositoryException

  // ---------------------------------------------------------------------
  // slugify
  // ---------------------------------------------------------------------

  /** The characters `/[^\w\s-]/` keeps. */
  predicate Kept(c: char) {
    JsStrings.IsWordChar(c) || JsStrings.IsWhitespace(c) || c == '-'
  }

  /** The characters of `/[\s_-]/`, the separators a slug turns into one hyphen. */
  predicate IsSep(c: char) {
    JsStrings.IsWhitespace(c) || c == '_' || c == '-'
  }

  predicate IsLowerAlnum(c: char) {
    JsStrings.IsAsciiLower(c) || JsStrings.IsAsciiDigit(c)
  }

  predicate IsSlugChar(c: char) {
    IsLowerAlnum(c) || c == '-'
  }

  /**
   * A slug: lower-case ASCII letters, digits and hyphens, no hyphen at
   * either end and never two hyphens in a row.
   */
  predicate IsSlug(s: string) {
    (forall i :: 0 <= i < |s| ==> IsSlugChar(s[i])) &&
    (s != [] ==> s[0] != '-' && s[|s| - 1] != '-') &&
    NoDoubleHyphen(s)
  }

  /** Never two hyphens in a row. */
  predicate NoDoubleHyphen(s: string) {
    forall i, j :: 0 <= i < |s| && 0 <= j < |s| && j == i + 1 ==> s[i] != '-' || s[j] != '-'
  }

  /** `replace(/[^\w\s-]/g, "")`. */
  function KeepSlugChars(s: string): (r: string)
    ensures forall i :: 0 <= i < |r| ==> Kept(r[i]) && r[i] in s
  {
    if s == [] then [] else (if Kept(s[0]) then [s[0]] else []) + KeepSlugChars(s[1..])
  }

  /** The leading separators of `s` removed. */
  function DropSeps(s: string): (r: string)
    ensures |r| <= |s| && r == s[|s| - |r|..]
    ensures r == [] || !IsSep(r[0])
    ensures forall i :: 0 <= i < |s| - |r| ==> IsSep(s[i])
    ensures s != [] && IsSep(s[0]) ==> |r| < |s|
  {
    if s != [] && IsSep(s[0]) then DropSeps(s[1..]) else s
  }

  /** `replace(/[\s_-]+/g, "-")`: every maximal run of separators becomes one hyphen. */
  function CollapseSeps(s: string): string
    decreases |s|
  {
    if s == [] then []
    else if IsSep(s[0]) then "-" + CollapseSeps(DropSeps(s))
    else [s[0]] + CollapseSeps(s[1..])
  }

  function DropLeadingHyphens(s: string): (r: string)
    ensures |r| <= |s| && r == s[|s| - |r|..]
    ensures r == [] || r[0] != '-'
    ensures forall i :: 0 <= i < |s| - |r| ==> s[i] == '-'
  {
    if s != [] && s[0] == '-' then DropLeadingHyphens(s[1..]) else s
  }

  function DropTrailingHyphens(s: string): (r: string)
    ensures |r| <= |s| && r == s[..|r|]
    ensures r == [] || r[|r| - 1] != '-'
    ensures forall i :: |r| <= i < |s| ==> s[i] == '-'
  {
    if s != [] && s[|s| - 1] == '-' then DropTrailingHyphens(s[..|s| - 1]) else s
  }

  /** `replace(/^-+|-+$/g, "")`: the leading and the trailing run of hyphens removed. */
  function TrimHyphens(s: string): string {
    DropTrailingHyphens(DropLeadingHyphens(s))
  }

  /** `slugify(text)`: lower-case, drop disallowed characters, collapse separators, trim hyphens. */
  function Slugify(text: string): (r: string)
    ensures IsSlug(r)
  {
    var lowered := JsStrings.ToLower(text);
    var kept := KeepSlugChars(lowered);
    KeptAreSlugOrSep(lowered);
    CollapseShape(kept);
    TrimShape(CollapseSeps(kept));
    TrimHyphens(CollapseSeps(kept))
  }

  lemma KeptAreSlugOrSep(lowered: string)
    requires forall i :: 0 <= i < |lowered| ==> !JsStrings.IsAsciiUpper(lowered[i])
    ensures forall i :: 0 <= i < |KeepSlugChars(lowered)| ==>
      IsLowerAlnum(KeepSlugChars(lowered)[i]) || IsSep(KeepSlugChars(lowered)[i])
  {
    var k := KeepSlugChars(lowered);
    forall i | 0 <= i < |k|
      ensures IsLowerAlnum(k[i]) || IsSep(k[i])
    {
      assert k[i] in lowered;
    }
  }

  /** What `CollapseSeps` makes of lower-case letters, digits and separators. */
  lemma {:induction false} CollapseShape(s: string)
    requires forall i :: 0 <= i < |s| ==> IsLowerAlnum(s[i]) || IsSep(s[i])
    ensures var r := CollapseSeps(s);
      (forall i :: 0 <= i < |r| ==> IsSlugChar(r[i])) &&
      NoDoubleHyphen(r) &&
      (r == [] <==> s == []) &&
      (r != [] ==> (r[0] == '-' <==> IsSep(s[0])))
    decreases |s|
  {
    if s != [] {
      if IsSep(s[0]) {
        var d := DropSeps(s);
        CollapseShape(d);
      } else {
        CollapseShape(s[1..]);
      }
    }
  }

  lemma TrimShape(s: string)
    requires forall i :: 0 <= i < |s| ==> IsSlugChar(s[i])
    requires NoDoubleHyphen(s)
    ensures IsSlug(TrimHyphens(s))
  {
    var a := DropLeadingHyphens(s);
    var off := |s| - |a|;
    assert a == s[off..];
    var r := DropTrailingHyphens(a);
    assert r == a[..|r|];
    forall i | 0 <= i < |r|
      ensures r[i] == s[off + i]
    {
      assert r[i] == a[i];
    }
    forall i, j | 0 <= i && j == i + 1 && j < |r|
      ensures r[i] != '-' || r[j] != '-'
    {
      assert r[i] == s[off + i] && r[j] == s[off + j];
    }
    if r != [] {
      assert r[0] == a[0];
    }
  }

  /** Every slug is left unchanged by `slugify`. */
  lemma SlugFixpoint(s: string)
    requires IsSlug(s)
    ensures Slugify(s) == s
  {
    JsStrings.ToLowerIdentity(s);
    KeepAll(s);
    CollapseFix(s);
  }

  lemma {:induction false} KeepAll(s: string)
    requires forall i :: 0 <= i < |s| ==> Kept(s[i])
    ensures KeepSlugChars(s) == s
  {
    if s != [] {
      KeepAll(s[1..]);
      assert [s[0]] + s[1..] == s;
    }
  }

  lemma {:induction false} CollapseFix(s: string)
    requires forall i :: 0 <= i < |s| ==> IsSlugChar(s[i])
    requires NoDoubleHyphen(s)
    ensures CollapseSeps(s) == s
    decreases |s|
  {
    if s != [] {
      var t := s[1..];
      forall i | 0 <= i < |t|
        ensures IsSlugChar(t[i])
      {
        assert t[i] == s[i + 1];
      }
      forall i, j | 0 <= i && j == i + 1 && j < |t|
        ensures t[i] != '-' || t[j] != '-'
      {
        assert t[i] == s[i + 1] && t[j] == s[j + 1];
      }
      CollapseFix(t);
      if s[0] == '-' {
        if t != [] {
          assert t[0] == s[1];
          SlugCharNotSep(t[0]);
        }
        DropOneSep(s);
        assert CollapseSeps(s) == "-" + CollapseSeps(t);
      } else {
        assert CollapseSeps(s) == [s[0]] + CollapseSeps(t);
      }
      assert [s[0]] + t == s;
    }
  }

  lemma SlugCharNotSep(c: char)
    requires IsLowerAlnum(c)
    ensures !IsSep(c)
  {
  }

  /** A single leading separator followed by a non-separator is all `DropSeps` removes. */
  lemma DropOneSep(s: string)
    requires |s| >= 1 && IsSep(s[0])
    requires |s| == 1 || !IsSep(s[1])
    ensures DropSeps(s) == s[1..]
  {
    var t := s[1..];
    assert t == [] || t[0] == s[1];
  }

  /** `slugify` is idempotent. */
  lemma SlugifyIdempotent(text: string)
    ensures Slugify(Slugify(text)) == Slugify(text)
  {
    SlugFixpoint(Slugify(text));
  }

  /** The lower-case ASCII letters and digits of a string, in order. */
  function Alnums(s: string): (r: string)
    ensures forall i :: 0 <= i < |r| ==> IsLowerAlnum(r[i])
  {
    if s == [] then [] else (if IsLowerAlnum(s[0]) then [s[0]] else []) + Alnums(s[1..])
  }

  lemma {:induction false} AlnumsAppend(a: string, b: string)
    ensures Alnums(a + b) == Alnums(a) + Alnums(b)
  {
    if a == [] {
      assert a + b == b;
    } else {
      assert (a + b)[1..] == a[1..] + b;
      AlnumsAppend(a[1..], b);
    }
  }

  lemma {:induction false} AlnumsNone(s: string)
    requires forall i :: 0 <= i < |s| ==> !IsLowerAlnum(s[i])
    ensures Alnums(s) == []
  {
    if s != [] {
      AlnumsNone(s[1..]);
    }
  }

  /**
   * `slugify` deletes no ASCII letter or digit: the letters and digits of the
   * slug are exactly those of the lower-cased title, in order.
   */
  lemma SlugifyKeepsAlnums(text: string)
    ensures Alnums(Slugify(text)) == Alnums(JsStrings.ToLower(text))
  {
    var lowered := JsStrings.ToLower(text);
    var kept := KeepSlugChars(lowered);
    KeepKeepsAlnums(lowered);
    CollapseKeepsAlnums(kept);
    TrimKeepsAlnums(CollapseSeps(kept));
  }

  lemma TrimKeepsAlnums(s: string)
    ensures Alnums(TrimHyphens(s)) == Alnums(s)
  {
    LeadingHyphensKeepAlnums(s);
    TrailingHyphensKeepAlnums(DropLeadingHyphens(s));
  }

  lemma {:induction false} LeadingHyphensKeepAlnums(s: string)
    ensures Alnums(DropLeadingHyphens(s)) == Alnums(s)
  {
    if s != [] && s[0] == '-' {
      LeadingHyphensKeepAlnums(s[1..]);
      assert Alnums(s) == Alnums(s[1..]);
    }
  }

  lemma {:induction false} TrailingHyphensKeepAlnums(s: string)
    ensures Alnums(DropTrailingHyphens(s)) == Alnums(s)
  {
    if s != [] && s[|s| - 1] == '-' {
      var init := s[..|s| - 1];
      TrailingHyphensKeepAlnums(init);
      assert s == init + ['-'];
      AlnumsAppend(init, ['-']);
    }
  }

  lemma {:induction false} KeepKeepsAlnums(s: string)
    ensures Alnums(KeepSlugChars(s)) == Alnums(s)
  {
    if s != [] {
      KeepKeepsAlnums(s[1..]);
      AlnumsAppend(if Kept(s[0]) then [s[0]] else [], KeepSlugChars(s[1..]));
    }
  }

  lemma {:induction false} DropSepsKeepsAlnums(s: string)
    ensures Alnums(DropSeps(s)) == Alnums(s)
  {
    if s != [] && IsSep(s[0]) {
      assert Alnums(s) == Alnums(s[1..]);
      DropSepsKeepsAlnums(s[1..]);
    }
  }

  lemma {:induction false} CollapseKeepsAlnums(s: string)
    ensures Alnums(CollapseSeps(s)) == Alnums(s)
    decreases |s|
  {
    if s != [] {
      if IsSep(s[0]) {
        var d := DropSeps(s);
        assert CollapseSeps(s) == "-" + CollapseSeps(d);
        CollapseKeepsAlnums(d);
        AlnumsAppend("-", CollapseSeps(d));
        DropSepsKeepsAlnums(s);
      } else {
        assert CollapseSeps(s) == [s[0]] + CollapseSeps(s[1..]);
        CollapseKeepsAlnums(s[1..]);
        AlnumsAppend([s[0]], CollapseSeps(s[1..]));
      }
    }
  }

  // ---------------------------------------------------------------------
  // sanitizedUsername
  // ---------------------------------------------------------------------

  predicate IsMarker(c: char) {
    c == '@' || c == '/'
  }

  /** `s.replace(/[@/]/g, "")`. */
  function RemoveMarkers(s: string): (r: string)
    ensures '@' !in r && '/' !in r
    ensures |r| <= |s|
  {
    if s == [] then []
    else (if IsMarker(s[0]) then [] else [s[0]]) + RemoveMarkers(s[1..])
  }

  /** Every character other than a marker is kept as often as it occurs. */
  lemma {:induction false} RemoveMarkersCounts(s: string, c: char)
    requires !IsMarker(c)
    ensures multiset(RemoveMarkers(s))[c] == multiset(s)[c]
  {
    if s != [] {
      RemoveMarkersCounts(s[1..], c);
      assert s == [s[0]] + s[1..];
      var head := if IsMarker(s[0]) then [] else [s[0]];
      assert RemoveMarkers(s) == head + RemoveMarkers(s[1..]);
      assert multiset(RemoveMarkers(s)) == multiset(head) + multiset(RemoveMarkers(s[1..]));
      assert multiset(s) == multiset([s[0]]) + multiset(s[1..]);
    }
  }

  /** The characters are dealt with one at a time: a marker vanishes, any other character stays. */
  lemma RemoveMarkersChar(c: char)
    ensures RemoveMarkers([c]) == (if IsMarker(c) then [] else [c])
  {
    assert [c][1..] == [];
  }

  /** Removal works part by part, so the kept characters stay in their order. */
  lemma {:induction false} RemoveMarkersAppend(a: string, b: string)
    ensures RemoveMarkers(a + b) == RemoveMarkers(a) + RemoveMarkers(b)
  {
    if a == [] {
      assert a + b == b;
    } else {
      var head := if IsMarker(a[0]) then [] else [a[0]];
      var ab := a + b;
      assert ab[0] == a[0] && ab[1..] == a[1..] + b;
      calc {
        RemoveMarkers(ab);
        head + RemoveMarkers(a[1..] + b);
        { RemoveMarkersAppend(a[1..], b); }
        head + (RemoveMarkers(a[1..]) + RemoveMarkers(b));
        (head + RemoveMarkers(a[1..])) + RemoveMarkers(b);
      }
    }
  }

  lemma {:induction false} RemoveMarkersNone(s: string)
    requires '@' !in s && '/' !in s
    ensures RemoveMarkers(s) == s
  {
    if s != [] {
      RemoveMarkersNone(s[1..]);
      assert [s[0]] + s[1..] == s;
    }
  }

  /**
   * `sanitizedUsername` applied to the already decoded route segment: a name
   * written `@name` or `/@name` loses every `@` and `/`; either way it is
   * lower-cased.
   */
  function SanitizedUsername(decoded: string): (r: string)
    ensures forall i :: 0 <= i < |r| ==> !JsStrings.IsAsciiUpper(r[i])
    ensures JsStrings.StartsWith(decoded, "@") || JsStrings.StartsWith(decoded, "/@") ==>
      '@' !in r && '/' !in r && |r| <= |decoded| && r == JsStrings.ToLower(RemoveMarkers(decoded))
    ensures !(JsStrings.StartsWith(decoded, "@") || JsStrings.StartsWith(decoded, "/@")) ==>
      |r| == |decoded| && forall i :: 0 <= i < |r| ==> r[i] == JsStrings.ToLowerChar(decoded[i])
  {
    if JsStrings.StartsWith(decoded, "@") || JsStrings.StartsWith(decoded, "/@") then
      var r := JsStrings.ToLower(RemoveMarkers(decoded));
      assert forall c :: c in r ==> c != '@' && c != '/' by {
        forall c | c in r ensures c != '@' && c != '/' {
          var i :| 0 <= i < |r| && r[i] == c;
          assert RemoveMarkers(decoded)[i] in RemoveMarkers(decoded);
        }
      }
      r
    else
      JsStrings.ToLower(decoded)
  }

  /** A sanitized user name is sanitized already. */
  lemma SanitizedUsernameIdempotent(decoded: string)
    ensures SanitizedUsername(SanitizedUsername(decoded)) == SanitizedUsername(decoded)
  {
    var r := SanitizedUsername(decoded);
    JsStrings.ToLowerIdentity(r);
    if JsStrings.StartsWith(decoded, "@") || JsStrings.StartsWith(decoded, "/@") {
      if |r| >= 1 {
        assert r[0] in r;
      }
      if |r| >= 2 {
        assert r[1] in r;
      }
    }
  }

  // ---------------------------------------------------------------------
  // removeUndefinedFromObject and filterUndefined
  // ---------------------------------------------------------------------

  /** A JavaScript value as far as these helpers tell values apart. */
  datatype JsValue = Undefined | Null | Bool(b: bool) | Num(n: int) | Str(s: string)

  /** A property of a plain object; an object is its properties in insertion order. */
  datatype Property = Property(key: string, value: JsValue)

  predicate DistinctKeys(obj: seq<Property>) {
    forall i, j :: 0 <= i < j < |obj| ==> obj[i].key != obj[j].key
  }

  function Keys(obj: seq<Property>): set<string> {
    set p | p in obj :: p.key
  }

  /** `Object.fromEntries(Object.entries(obj).filter(([_, v]) => v !== undefined))`. */
  function FilterUndefined(obj: seq<Property>): (r: seq<Property>)
    ensures |r| <= |obj|
  {
    if obj == [] then []
    else (if obj[0].value == Undefined then [] else [obj[0]]) + FilterUndefined(obj[1..])
  }

  /** Exactly the properties with a defined value are kept. */
  lemma {:induction false} FilterUndefinedMembers(obj: seq<Property>, p: Property)
    ensures p in FilterUndefined(obj) <==> p in obj && p.value != Undefined
  {
    if obj != [] {
      FilterUndefinedMembers(obj[1..], p);
      assert obj == [obj[0]] + obj[1..];
    }
  }

  /** Every key with a defined value survives, `null` included; only `undefined` ones go. */
  lemma FilterUndefinedKeys(obj: seq<Property>, k: string)
    requires DistinctKeys(obj)
    ensures k in Keys(FilterUndefined(obj)) <==>
      exists p :: p in obj && p.key == k && p.value != Undefined
  {
    var r := FilterUndefined(obj);
    if k in Keys(r) {
      var p :| p in r && p.key == k;
      FilterUndefinedMembers(obj, p);
    }
    if exists p :: p in obj && p.key == k && p.value != Undefined {
      var p :| p in obj && p.key == k && p.value != Undefined;
      FilterUndefinedMembers(obj, p);
    }
  }

  lemma {:induction false} FilterUndefinedIdempotent(obj: seq<Property>)
    ensures FilterUndefined(FilterUndefined(obj)) == FilterUndefined(obj)
  {
    if obj != [] {
      FilterUndefinedIdempotent(obj[1..]);
      FilterUndefinedAppend(if obj[0].value == Undefined then [] else [obj[0]], FilterUndefined(obj[1..]));
    }
  }

  lemma {:induction false} FilterUndefinedAppend(a: seq<Property>, b: seq<Property>)
    ensures FilterUndefined(a + b) == FilterUndefined(a) + FilterUndefined(b)
  {
    if a == [] {
      assert a + b == b;
    } else {
      assert (a + b)[1..] == a[1..] + b;
      FilterUndefinedAppend(a[1..], b);
    }
  }

  /** `delete obj[key]`. */
  function DeleteKey(obj: seq<Property>, key: string): seq<Property>
  {
    if obj == [] then []
    else (if obj[0].key == key then [] else [obj[0]]) + DeleteKey(obj[1..], key)
  }

  lemma {:induction false} DeleteKeyAppend(a: seq<Property>, b: seq<Property>, key: string)
    ensures DeleteKey(a + b, key) == DeleteKey(a, key) + DeleteKey(b, key)
  {
    if a == [] {
      assert a + b == b;
    } else {
      assert (a + b)[1..] == a[1..] + b;
      DeleteKeyAppend(a[1..], b, key);
    }
  }

  lemma {:induction false} DeleteAbsentKey(obj: seq<Property>, key: string)
    requires forall p :: p in obj ==> p.key != key
    ensures DeleteKey(obj, key) == obj
  {
    if obj != [] {
      DeleteAbsentKey(obj[1..], key);
      assert [obj[0]] + obj[1..] == obj;
    }
  }

  /**
   * `removeUndefinedFromObject`: copies the object, then deletes from the copy
   * every key whose value is `undefined`, visiting the keys in order. The
   * result is what `filterUndefined` computes.
   */
  method RemoveUndefinedFromObject(obj: seq<Property>) returns (newObj: seq<Property>)
    requires DistinctKeys(obj)
    ensures newObj == FilterUndefined(obj)
  {
    newObj := obj;
    var keys := seq(|obj|, i requires 0 <= i < |obj| => obj[i].key);
    var i := 0;
    while i < |keys|
      invariant |keys| == |obj| && 0 <= i <= |obj|
      invariant forall j :: 0 <= j < |obj| ==> keys[j] == obj[j].key
      invariant newObj == FilterUndefined(obj[..i]) + obj[i..]
    {
      var key := keys[i];
      RemovalStep(obj, i);
      if Lookup(newObj, key) == Some(Undefined) {
        newObj := DeleteKey(newObj, key);
      }
      i := i + 1;
    }
    assert obj[..|obj|] == obj;
  }

  /** One turn of the loop: the copy loses the `i`-th property exactly when its value is `undefined`. */
  lemma RemovalStep(obj: seq<Property>, i: nat)
    requires DistinctKeys(obj) && i < |obj|
    ensures var cur := FilterUndefined(obj[..i]) + obj[i..];
      var next := FilterUndefined(obj[..i + 1]) + obj[i + 1..];
      (Lookup(cur, obj[i].key) == Some(Undefined) ==> DeleteKey(cur, obj[i].key) == next) &&
      (Lookup(cur, obj[i].key) != Some(Undefined) ==> cur == next)
  {
    LookupStep(obj, i);
    if obj[i].value == Undefined {
      assert obj[i..] == [obj[i]] + obj[i + 1..];
      KeyNotBefore(obj, i);
      KeyNotAfter(obj, i);
      DeleteStep(FilterUndefined(obj[..i]), obj[i], obj[i + 1..]);
      DropStep(obj, i);
    } else {
      KeepStep(obj, i);
    }
  }

  /** Before step `i`, the copy still holds the `i`-th property unchanged. */
  lemma LookupStep(obj: seq<Property>, i: nat)
    requires DistinctKeys(obj) && i < |obj|
    ensures Lookup(FilterUndefined(obj[..i]) + obj[i..], obj[i].key) == Some(obj[i].value)
  {
    var cur := FilterUndefined(obj[..i]) + obj[i..];
    var key := obj[i].key;
    assert obj[i] in obj[i..];
    var r := Lookup(cur, key);
    assert r.Some?;
    var p := Property(key, r.value);
    assert p in cur;
    KeyNotBefore(obj, i);
    assert p !in FilterUndefined(obj[..i]);
    var j :| 0 <= j < |obj[i..]| && obj[i..][j] == p;
    assert obj[i + j].key == obj[i].key;
  }

  /** The properties kept from before position `i` all have other keys than the `i`-th. */
  lemma KeyNotBefore(obj: seq<Property>, i: nat)
    requires DistinctKeys(obj) && i < |obj|
    ensures forall p :: p in FilterUndefined(obj[..i]) ==> p.key != obj[i].key
  {
    forall p | p in FilterUndefined(obj[..i]) ensures p.key != obj[i].key {
      FilterUndefinedMembers(obj[..i], p);
      var j :| 0 <= j < i && obj[..i][j] == p;
    }
  }

  /** The properties after position `i` all have other keys than the `i`-th. */
  lemma KeyNotAfter(obj: seq<Property>, i: nat)
    requires DistinctKeys(obj) && i < |obj|
    ensures forall p :: p in obj[i + 1..] ==> p.key != obj[i].key
  {
    forall p | p in obj[i + 1..] ensures p.key != obj[i].key {
      var j :| 0 <= j < |obj[i + 1..]| && obj[i + 1..][j] == p;
      assert obj[i + 1 + j] == p;
    }
  }

  /** Deleting the key of the one property that has it. */
  lemma DeleteStep(done: seq<Property>, x: Property, rest: seq<Property>)
    requires forall p :: p in done ==> p.key != x.key
    requires forall p :: p in rest ==> p.key != x.key
    ensures DeleteKey(done + ([x] + rest), x.key) == done + rest
  {
    var key := x.key;
    var tail := [x] + rest;
    DeleteKeyAppend(done, tail, key);
    assert DeleteKey(done + tail, key) == DeleteKey(done, key) + DeleteKey(tail, key);
    DeleteKeyAppend([x], rest, key);
    assert DeleteKey([x], key) == [] by {
      assert [x][1..] == [];
    }
    DeleteAbsentKey(done, key);
    DeleteAbsentKey(rest, key);
    assert DeleteKey(tail, key) == rest;
    assert DeleteKey(done, key) == done;
  }

  lemma DropStep(obj: seq<Property>, i: nat)
    requires i < |obj| && obj[i].value == Undefined
    ensures FilterUndefined(obj[..i + 1]) == FilterUndefined(obj[..i])
  {
    assert obj[..i + 1] == obj[..i] + [obj[i]];
    FilterUndefinedAppend(obj[..i], [obj[i]]);
    assert FilterUndefined([obj[i]]) == [] by {
      assert [obj[i]][1..] == [];
    }
  }

  lemma KeepStep(obj: seq<Property>, i: nat)
    requires i < |obj| && obj[i].value != Undefined
    ensures FilterUndefined(obj[..i]) + obj[i..] == FilterUndefined(obj[..i + 1]) + obj[i + 1..]
  {
    assert obj[i..] == [obj[i]] + obj[i + 1..];
    assert obj[..i + 1] == obj[..i] + [obj[i]];
    FilterUndefinedAppend(obj[..i], [obj[i]]);
  }

  /** `obj[key]` on a plain object: the value of the property, if there is one. */
  function Lookup(obj: seq<Property>, key: string): (r: Option<JsValue>)
    ensures r.Some? <==> exists p :: p in obj && p.key == key
    ensures r.Some? ==> Property(key, r.value) in obj
  {
    if obj == [] then None
    else if obj[0].key == key then Some(obj[0].value)
    else Lookup(obj[1..], key)
  }

  // ---------------------------------------------------------------------
  // readingTime
  // ---------------------------------------------------------------------

  predicate IsPunctuation(c: char) {
    c == '.' || c == ',' || c == '!' || c == '?' || c == ';' || c == ':'
  }

  /** `replace(/[.,!?;:]/g, "")`. */
  function RemovePunctuation(s: string): (r: string)
    ensures forall i :: 0 <= i < |r| ==> !IsPunctuation(r[i])
  {
    if s == [] then []
    else (if IsPunctuation(s[0]) then [] else [s[0]]) + RemovePunctuation(s[1..])
  }

  function DropWhitespace(s: string): (r: string)
    ensures |r| <= |s| && r == s[|s| - |r|..]
    ensures r == [] || !JsStrings.IsWhitespace(r[0])
    ensures s != [] && JsStrings.IsWhitespace(s[0]) ==> |r| < |s|
  {
    if s != [] && JsStrings.IsWhitespace(s[0]) then DropWhitespace(s[1..]) else s
  }

  /** The number of maximal runs of whitespace in `s`. */
  function WhitespaceRuns(s: string): nat
    decreases |s|
  {
    if s == [] then 0
    else if JsStrings.IsWhitespace(s[0]) then 1 + WhitespaceRuns(DropWhitespace(s))
    else WhitespaceRuns(s[1..])
  }

  /**
   * `s.split(/\s+/).length`: one piece more than there are runs of
   * whitespace (a leading or trailing run yields an empty piece).
   */
  function WordCount(s: string): (n: nat)
    ensures n >= 1
  {
    WhitespaceRuns(s) + 1
  }

  /** Non-empty words without whitespace, separated by single spaces, are counted one each. */
  lemma {:induction false} WordCountOfJoin(words: seq<string>)
    requires |words| >= 1
    requires forall k :: 0 <= k < |words| ==> words[k] != []
    requires forall k, i :: 0 <= k < |words| && 0 <= i < |words[k]| ==> !JsStrings.IsWhitespace(words[k][i])
    ensures WordCount(JsStrings.Join(words, ' ')) == |words|
  {
    if |words| == 1 {
      NoRuns(words[0]);
    } else {
      WordCountOfJoin(words[1..]);
      var rest := JsStrings.Join(words[1..], ' ');
      JoinHead(words[1..]);
      assert !JsStrings.IsWhitespace(rest[0]);
      var spaced := [' '] + rest;
      assert spaced[1..] == rest;
      assert DropWhitespace(spaced) == rest;
      assert WhitespaceRuns(spaced) == 1 + WhitespaceRuns(rest);
      NoRunsPrefix(words[0], spaced);
      assert JsStrings.Join(words, ' ') == words[0] + spaced;
    }
  }

  lemma JoinHead(words: seq<string>)
    requires |words| >= 1 && words[0] != []
    ensures var j := JsStrings.Join(words, ' ');
      j != [] && j[0] == words[0][0]
  {
  }

  lemma {:induction false} NoRuns(w: string)
    requires forall i :: 0 <= i < |w| ==> !JsStrings.IsWhitespace(w[i])
    ensures WhitespaceRuns(w) == 0
  {
    if w != [] {
      NoRuns(w[1..]);
    }
  }

  lemma {:induction false} NoRunsPrefix(w: string, rest: string)
    requires forall i :: 0 <= i < |w| ==> !JsStrings.IsWhitespace(w[i])
    ensures WhitespaceRuns(w + rest) == WhitespaceRuns(rest)
  {
    if w != [] {
      var wr := w + rest;
      assert wr[0] == w[0];
      assert wr[1..] == w[1..] + rest;
      NoRunsPrefix(w[1..], rest);
    } else {
      assert w + rest == rest;
    }
  }

  /** `Math.round(x)`: the integer nearest `x`, halves rounded up. */
  function MathRound(x: real): int {
    (x + 0.5).Floor
  }

  const WORDS_PER_MINUTE := 120

  /** `readingTime(text)`: minutes at 120 words a minute, to the nearest minute. */
  function ReadingTime(text: string): (minutes: int)
    ensures minutes == MathRound(WordCount(RemovePunctuation(text)) as real / WORDS_PER_MINUTE as real)
    ensures minutes >= 0
  {
    var words := WordCount(RemovePunctuation(text));
    RoundByIntegers(words);
    (words + WORDS_PER_MINUTE / 2) / WORDS_PER_MINUTE
  }

  /** For a natural `w`, `Math.round(w / 120)` is `(w + 60) div 120`. */
  lemma RoundByIntegers(w: nat)
    ensures MathRound(w as real / 120.0) == (w + 60) / 120
  {
    var q := (w + 60) / 120;
    assert 120 * q <= w + 60 < 120 * q + 120;
    var x := w as real / 120.0 + 0.5;
    assert x == (w + 60) as real / 120.0;
    assert q as real <= x < q as real + 1.0;
  }

  /** Texts under 60 words read in 0 minutes; 60 up to 179 words read in 1 minute. */
  lemma ReadingTimeThresholds(text: string)
    ensures WordCount(RemovePunctuation(text)) < 60 ==> ReadingTime(text) == 0
    ensures 60 <= WordCount(RemovePunctuation(text)) < 180 ==> ReadingTime(text) == 1
  {
  }

  // ---------------------------------------------------------------------
  // the truncation that ends removeMarkdownSyntax
  // ---------------------------------------------------------------------

  const DEFAULT_WORDS_COUNT := 65

  /** `xs.slice(0, n)`: a negative end counts from the back. */
  function SliceFromStart<T>(xs: seq<T>, n: int): (r: seq<T>)
    ensures |r| <= |xs| && r == xs[..|r|]
    ensures 0 <= n <= |xs| ==> |r| == n
    ensures n > |xs| ==> r == xs
  {
    if n < 0 then xs[..if |xs| + n < 0 then 0 else |xs| + n]
    else if n > |xs| then xs
    else xs[..n]
  }

  /**
   * The final steps of `removeMarkdownSyntax`, applied to the text the regular
   * expression pipeline left: `trim()`, `split(" ")`, `slice(0, n)`,
   * `join(" ")`. A `null` or `undefined` input gives `undefined`.
   */
  function TruncateWords(stripped: Option<string>, wordsCount: int): (r: Option<string>)
    ensures stripped.None? <==> r.None?
  {
    match stripped
    case None => None
    case Some(s) =>
      var pieces := JsStrings.Split(JsStrings.Trim(s), ' ');
      Some(JsStrings.Join(SliceFromStart(pieces, wordsCount), ' '))
  }

  /**
   * The excerpt has at most `wordsCount` space-separated pieces and is a
   * prefix of the trimmed text.
   */
  lemma TruncateWordsBound(s: string, wordsCount: int)
    requires wordsCount >= 1
    ensures var r := TruncateWords(Some(s), wordsCount).value;
      |JsStrings.Split(r, ' ')| <= wordsCount &&
      |r| <= |JsStrings.Trim(s)| && r == JsStrings.Trim(s)[..|r|]
  {
    var t := JsStrings.Trim(s);
    JsStrings.JoinSplit(t, ' ');
    JoinSliceBound(JsStrings.Split(t, ' '), wordsCount);
  }

  lemma JoinSliceBound(pieces: seq<string>, n: int)
    requires n >= 1 && |pieces| >= 1
    requires forall k :: 0 <= k < |pieces| ==> ' ' !in pieces[k]
    ensures var r := JsStrings.Join(SliceFromStart(pieces, n), ' ');
      |JsStrings.Split(r, ' ')| <= n &&
      |r| <= |JsStrings.Join(pieces, ' ')| && r == JsStrings.Join(pieces, ' ')[..|r|]
  {
    var kept := SliceFromStart(pieces, n);
    assert 1 <= |kept| <= n;
    assert pieces[..|kept|] == kept;
    forall k | 0 <= k < |kept| ensures ' ' !in kept[k] {
      assert kept[k] == pieces[k];
    }
    JsStrings.SplitJoin(kept, ' ');
    JoinPrefix(pieces, |kept|);
  }

  /** Joining the first `k` pieces gives a prefix of joining them all. */
  lemma {:induction false} JoinPrefix(xs: seq<string>, k: nat)
    requires 1 <= k <= |xs|
    ensures var j := JsStrings.Join(xs[..k], ' ');
      |j| <= |JsStrings.Join(xs, ' ')| && j == JsStrings.Join(xs, ' ')[..|j|]
  {
    if k == |xs| {
      assert xs[..k] == xs;
    } else if k == 1 {
      assert JsStrings.Join(xs[..1], ' ') == xs[0];
    } else {
      JoinPrefix(xs[1..], k - 1);
      assert xs[..k][1..] == xs[1..][..k - 1];
    }
  }

  // ---------------------------------------------------------------------
  // actionPromisify
  // ---------------------------------------------------------------------

  /** What an action's promise settled to, as `actionPromisify` sees it. */
  datatype ActionResponse<T> =
    | NoResponse                            // the action resolved to a falsy value
    | Failure(error: Option<string>)        // `{ success: false, error }`; `None` when `error` is missing
    | Success(data: T)                      // `{ success: true, data }`

  datatype Settled<T> =
    | Returned(response: ActionResponse<T>)
    | ThrewError(message: string)           // the awaited promise rejected with an `Error`
    | ThrewOther                            // it rejected with anything else

  datatype Outcome<T> = Resolved(data: T) | Rejected(reason: string)

  const ACTION_RETURNED_UNDEFINED := "Action returned undefined"
  const UNKNOWN_ERROR_OCCURRED := "Unknown error occurred"
  const UNEXPECTED_ERROR := "An unexpected error occurred"
  const OPERATION_FAILED := "Operation failed"

  /** The promise `actionPromisify` returns, by how the action settled. */
  function ActionPromisify<T>(settled: Settled<T>): (o: Outcome<T>)
    ensures o.Resolved? <==> settled.Returned? && settled.response.Success?
    ensures o.Resolved? ==> o.data == settled.response.data
    ensures settled == Returned(NoResponse) ==> o == Rejected(ACTION_RETURNED_UNDEFINED)
    ensures settled.Returned? && settled.response.Failure? ==>
      o == Rejected(settled.response.error.GetOr(UNKNOWN_ERROR_OCCURRED))
    ensures settled.ThrewError? ==> o == Rejected(settled.message)
    ensures settled.ThrewOther? ==> o == Rejected(UNEXPECTED_ERROR)
  {
    match settled
    case Returned(NoResponse) => Rejected(ACTION_RETURNED_UNDEFINED)
    case Returned(Failure(error)) => Rejected(error.GetOr(UNKNOWN_ERROR_OCCURRED))
    case Returned(Success(data)) => Resolved(data)
    case ThrewError(message) => Rejected(message)
    case ThrewOther => Rejected(UNEXPECTED_ERROR)
  }

  /** The toast shown for a rejection: an empty reason reads "Operation failed". */
  function ToastError(reason: string): (shown: string)
    ensures shown != ""
    ensures reason != "" ==> shown == reason
  {
    if reason == "" then OPERATION_FAILED else reason
  }

  /**
   * An action whose `catch` clause classified a thrown value is rejected
   * with exactly the classified message; its toast shows that message, or
   * "Operation failed" only for a validation error without issues.
   */
  lemma PromisifyClassifiedFailure<T>(e: RepositoryException.Thrown)
    ensures var f := RepositoryException.HandleActionException(e);
      ActionPromisify<T>(Returned(Failure(Some(f.error)))) == Rejected(f.error) &&
      (ToastError(f.error) == OPERATION_FAILED <==>
        f.error == "" || f.error == OPERATION_FAILED)
    ensures e == RepositoryException.ZodError([]) ==>
      ToastError(RepositoryException.HandleActionException(e).error) == OPERATION_FAILED
  {
  }
}
