/** The non-rendering helpers of the <demo-inspector> element: HTML
    escaping, the `modes` attribute, the list toggles of the click
    handlers, lookup and collection of ids over the scanned block tree,
    and the guarded EDS scan. */
module Panel {
  import opened Common
  import opened Dom
  import opened State
  import opened ScannerEds

  // ---------------------------------------------------------------------
  // escapeHtml
  // ---------------------------------------------------------------------

  /** A value handed to escapeHtml: a string, or a primitive whose
      String() rendering the model spells out. */
  datatype JsValue = JsString(s: string) | JsNumber(n: int) | JsBoolean(b: bool) | JsNull | JsUndefined

  /** String(n) for an integer. */
  function IntText(n: int): (r: string)
    ensures forall i :: 0 <= i < |r| ==> r[i] == '-' || '0' <= r[i] <= '9'
  {
    if n < 0 then "-" + Decimal(-n) else Decimal(n)
  }

  /** String(v) */
  function ToJsString(v: JsValue): string
  {
    match v
    case JsString(s) => s
    case JsNumber(n) => IntText(n)
    case JsBoolean(b) => if b then "true" else "false"
    case JsNull => "null"
    case JsUndefined => "undefined"
  }

  /** `s.replace(/c/g, rep)` for a one-character pattern. */
  function ReplaceAll(s: string, c: char, rep: string): string
    decreases |s|
  {
    if s == [] then [] else (if s[0] == c then rep else [s[0]]) + ReplaceAll(s[1..], c, rep)
  }

  /** The five global replacements, in the order escapeHtml makes them. */
  function ReplaceChain(s: string): string
  {
    ReplaceAll(ReplaceAll(ReplaceAll(ReplaceAll(ReplaceAll(s, '&', "&amp;"), '<', "&lt;"), '>', "&gt;"), '"', "&quot;"), '\'', "&#39;")
  }

  /** escapeHtml(str): strings are escaped, anything else only converted. */
  function EscapeHtml(v: JsValue): string
  {
    if v.JsString? then ReplaceChain(v.s) else ToJsString(v)
  }

  /** The text one character becomes in the escaped output. */
  function EscapeChar(c: char): string
  {
    if c == '&' then "&amp;"
    else if c == '<' then "&lt;"
    else if c == '>' then "&gt;"
    else if c == '"' then "&quot;"
    else if c == '\'' then "&#39;"
    else [c]
  }

  /** Escaping one character at a time. */
  function EscapeEach(s: string): string
    decreases |s|
  {
    if s == [] then [] else EscapeChar(s[0]) + EscapeEach(s[1..])
  }

  predicate IsMarkup(c: char)
  {
    c == '<' || c == '>' || c == '"' || c == '\''
  }

  lemma {:induction false} ReplaceAllAppend(a: string, b: string, c: char, rep: string)
    ensures ReplaceAll(a + b, c, rep) == ReplaceAll(a, c, rep) + ReplaceAll(b, c, rep)
    decreases |a|
  {
    if a != [] {
      assert (a + b)[1..] == a[1..] + b;
      ReplaceAllAppend(a[1..], b, c, rep);
    } else {
      assert a + b == b;
    }
  }

  lemma {:induction false} ReplaceAllAbsent(s: string, c: char, rep: string)
    requires c !in s
    ensures ReplaceAll(s, c, rep) == s
    decreases |s|
  {
    if s != [] {
      assert s[1..] <= s[1..];
      assert forall x :: x in s[1..] ==> x in s;
      ReplaceAllAbsent(s[1..], c, rep);
    }
  }

  lemma ReplaceAllOne(c: char, d: char, rep: string)
    ensures ReplaceAll([c], d, rep) == if c == d then rep else [c]
  {
    assert [c][1..] == [];
  }

  lemma ReplaceChainAppend(a: string, b: string)
    ensures ReplaceChain(a + b) == ReplaceChain(a) + ReplaceChain(b)
  {
    var a1, b1 := ReplaceAll(a, '&', "&amp;"), ReplaceAll(b, '&', "&amp;");
    ReplaceAllAppend(a, b, '&', "&amp;");
    var a2, b2 := ReplaceAll(a1, '<', "&lt;"), ReplaceAll(b1, '<', "&lt;");
    ReplaceAllAppend(a1, b1, '<', "&lt;");
    var a3, b3 := ReplaceAll(a2, '>', "&gt;"), ReplaceAll(b2, '>', "&gt;");
    ReplaceAllAppend(a2, b2, '>', "&gt;");
    var a4, b4 := ReplaceAll(a3, '"', "&quot;"), ReplaceAll(b3, '"', "&quot;");
    ReplaceAllAppend(a3, b3, '"', "&quot;");
    ReplaceAllAppend(a4, b4, '\'', "&#39;");
  }

  /** Text without markup characters passes through every replacement
      after the first unchanged. */
  lemma StagesKeep(e: string)
    requires '<' !in e && '>' !in e && '"' !in e && '\'' !in e
    ensures ReplaceAll(e, '\'', "&#39;") == e
    ensures ReplaceAll(ReplaceAll(e, '"', "&quot;"), '\'', "&#39;") == e
    ensures ReplaceAll(ReplaceAll(ReplaceAll(e, '>', "&gt;"), '"', "&quot;"), '\'', "&#39;") == e
    ensures ReplaceAll(ReplaceAll(ReplaceAll(ReplaceAll(e, '<', "&lt;"), '>', "&gt;"), '"', "&quot;"), '\'', "&#39;") == e
  {
    ReplaceAllAbsent(e, '<', "&lt;");
    ReplaceAllAbsent(e, '>', "&gt;");
    ReplaceAllAbsent(e, '"', "&quot;");
    ReplaceAllAbsent(e, '\'', "&#39;");
  }

  /** On one character the chain of replacements is that character's
      escape: no later replacement touches an earlier one's entity. */
  lemma ReplaceChainChar(c: char)
    ensures ReplaceChain([c]) == EscapeChar(c)
  {
    var s1 := ReplaceAll([c], '&', "&amp;");
    ReplaceAllOne(c, '&', "&amp;");
    if c == '&' {
      StagesKeep(s1);
    } else {
      var s2 := ReplaceAll(s1, '<', "&lt;");
      ReplaceAllOne(c, '<', "&lt;");
      if c == '<' {
        StagesKeep(s2);
      } else {
        var s3 := ReplaceAll(s2, '>', "&gt;");
        ReplaceAllOne(c, '>', "&gt;");
        if c == '>' {
          StagesKeep(s3);
        } else {
          var s4 := ReplaceAll(s3, '"', "&quot;");
          ReplaceAllOne(c, '"', "&quot;");
          if c == '"' {
            StagesKeep(s4);
          } else {
            ReplaceAllOne(c, '\'', "&#39;");
          }
        }
      }
    }
  }

  /** escapeHtml of a string escapes each character on its own. */
  lemma {:induction false} EscapeHtmlPerChar(s: string)
    ensures EscapeHtml(JsString(s)) == EscapeEach(s)
    decreases |s|
  {
    if s != [] {
      assert s == [s[0]] + s[1..];
      ReplaceChainAppend([s[0]], s[1..]);
      ReplaceChainChar(s[0]);
      EscapeHtmlPerChar(s[1..]);
    }
  }

  /** One of the five entities begins at position `i` of `t`. */
  predicate EntityAt(t: string, i: int)
  {
    OccursAt(t, "&amp;", i) || OccursAt(t, "&lt;", i) || OccursAt(t, "&gt;", i) ||
    OccursAt(t, "&quot;", i) || OccursAt(t, "&#39;", i)
  }

  lemma OccursAtShift(a: string, b: string, e: string, j: int)
    requires OccursAt(b, e, j)
    ensures OccursAt(a + b, e, |a| + j)
  {
    assert (a + b)[|a| + j..|a| + j + |e|] == b[j..j + |e|];
  }

  lemma EntityAtShift(a: string, b: string, j: int)
    requires EntityAt(b, j)
    ensures EntityAt(a + b, |a| + j)
  {
    if OccursAt(b, "&amp;", j) { OccursAtShift(a, b, "&amp;", j); }
    else if OccursAt(b, "&lt;", j) { OccursAtShift(a, b, "&lt;", j); }
    else if OccursAt(b, "&gt;", j) { OccursAtShift(a, b, "&gt;", j); }
    else if OccursAt(b, "&quot;", j) { OccursAtShift(a, b, "&quot;", j); }
    else { OccursAtShift(a, b, "&#39;", j); }
  }

  /** An escape that starts with `&` is a whole entity. */
  lemma EscapeCharEntity(c: char, rest: string)
    requires EscapeChar(c)[0] == '&'
    ensures EntityAt(EscapeChar(c) + rest, 0)
  {
    var e := EscapeChar(c);
    assert (e + rest)[0..|e|] == e;
  }

  /** The escaped text of a string holds no markup character. */
  lemma {:induction false} EscapeEachNoMarkup(s: string)
    ensures forall i :: 0 <= i < |EscapeEach(s)| ==> !IsMarkup(EscapeEach(s)[i])
    decreases |s|
  {
    if s != [] {
      EscapeEachNoMarkup(s[1..]);
    }
  }

  /** Every `&` of the escaped text of a string begins an entity. */
  lemma {:induction false} EscapeEachEntities(s: string)
    ensures AmpsAreEntities(EscapeEach(s))
    decreases |s|
  {
    if s != [] {
      EscapeEachEntities(s[1..]);
      EscapeCharEntities(s[0], EscapeEach(s[1..]));
    }
  }

  predicate AmpsAreEntities(t: string)
  {
    forall i :: 0 <= i < |t| && t[i] == '&' ==> EntityAt(t, i)
  }

  lemma EscapeCharEntities(c: char, rest: string)
    requires AmpsAreEntities(rest)
    ensures AmpsAreEntities(EscapeChar(c) + rest)
  {
    var head := EscapeChar(c);
    var r := head + rest;
    forall i | 0 <= i < |r| && r[i] == '&'
      ensures EntityAt(r, i)
    {
      if i < |head| {
        EscapeCharEntity(c, rest);
      } else {
        assert rest[i - |head|] == '&';
        EntityAtShift(head, rest, i - |head|);
      }
    }
  }

  /** What escapeHtml promises for every input: no `<`, `>`, `"` or `'`
      in the output, and no `&` that does not start an entity. */
  lemma EscapeHtmlSafe(v: JsValue)
    ensures forall i :: 0 <= i < |EscapeHtml(v)| ==> !IsMarkup(EscapeHtml(v)[i])
    ensures AmpsAreEntities(EscapeHtml(v))
  {
    if v.JsString? {
      EscapeHtmlPerChar(v.s);
      EscapeEachNoMarkup(v.s);
      EscapeEachEntities(v.s);
    }
  }

  /** Decoding of the five entities, the way an HTML parser reads the
      escaped text back. */
  function Unescape(t: string): string
    decreases |t|
  {
    if t == [] then []
    else if t[0] != '&' then [t[0]] + Unescape(t[1..])
    else if StartsWith(t, "&amp;") then "&" + Unescape(t[5..])
    else if StartsWith(t, "&lt;") then "<" + Unescape(t[4..])
    else if StartsWith(t, "&gt;") then ">" + Unescape(t[4..])
    else if StartsWith(t, "&quot;") then "\"" + Unescape(t[6..])
    else if StartsWith(t, "&#39;") then "'" + Unescape(t[5..])
    else [t[0]] + Unescape(t[1..])
  }

  lemma UnescapeAmp(w: string)
    ensures Unescape("&amp;" + w) == "&" + Unescape(w)
  {
    var t := "&amp;" + w;
    assert t[..5] == "&amp;" && t[5..] == w;
  }

  lemma UnescapeLt(w: string)
    ensures Unescape("&lt;" + w) == "<" + Unescape(w)
  {
    var t := "&lt;" + w;
    assert t[1] == 'l';
    assert !StartsWith(t, "&amp;") by { assert |t| < 5 || t[..5][1] == 'l'; }
    assert t[..4] == "&lt;" && t[4..] == w;
  }

  lemma UnescapeGt(w: string)
    ensures Unescape("&gt;" + w) == ">" + Unescape(w)
  {
    var t := "&gt;" + w;
    assert t[1] == 'g';
    assert !StartsWith(t, "&amp;") by { assert |t| < 5 || t[..5][1] == 'g'; }
    assert !StartsWith(t, "&lt;") by { assert t[..4][1] == 'g'; }
    assert t[..4] == "&gt;" && t[4..] == w;
  }

  lemma UnescapeQuot(w: string)
    ensures Unescape("&quot;" + w) == "\"" + Unescape(w)
  {
    var t := "&quot;" + w;
    assert t[1] == 'q';
    assert !StartsWith(t, "&amp;") by { assert t[..5][1] == 'q'; }
    assert !StartsWith(t, "&lt;") by { assert t[..4][1] == 'q'; }
    assert !StartsWith(t, "&gt;") by { assert t[..4][1] == 'q'; }
    assert t[..6] == "&quot;" && t[6..] == w;
  }

  lemma UnescapeApos(w: string)
    ensures Unescape("&#39;" + w) == "'" + Unescape(w)
  {
    var t := "&#39;" + w;
    assert t[1] == '#';
    assert !StartsWith(t, "&amp;") by { assert t[..5][1] == '#'; }
    assert !StartsWith(t, "&lt;") by { assert t[..4][1] == '#'; }
    assert !StartsWith(t, "&gt;") by { assert t[..4][1] == '#'; }
    assert !StartsWith(t, "&quot;") by { assert |t| < 6 || t[..6][1] == '#'; }
    assert t[..5] == "&#39;" && t[5..] == w;
  }

  lemma UnescapeChar(c: char, w: string)
    ensures Unescape(EscapeChar(c) + w) == [c] + Unescape(w)
  {
    if c == '&' { UnescapeAmp(w); }
    else if c == '<' { UnescapeLt(w); }
    else if c == '>' { UnescapeGt(w); }
    else if c == '"' { UnescapeQuot(w); }
    else if c == '\'' { UnescapeApos(w); }
    else {
      var t := [c] + w;
      assert t[0] == c && t[1..] == w;
    }
  }

  /** Escaping a string loses nothing: decoding gives the string back. */
  lemma {:induction false} EscapeHtmlRoundTrip(s: string)
    ensures Unescape(EscapeHtml(JsString(s))) == s
  {
    EscapeHtmlPerChar(s);
    UnescapeEscapeEach(s);
  }

  lemma {:induction false} UnescapeEscapeEach(s: string)
    ensures Unescape(EscapeEach(s)) == s
    decreases |s|
  {
    if s != [] {
      UnescapeChar(s[0], EscapeEach(s[1..]));
      UnescapeEscapeEach(s[1..]);
    }
  }

  // ---------------------------------------------------------------------
  // The `modes` attribute
  // ---------------------------------------------------------------------

  const DefaultModes: seq<string> := ["mesh", "eds"]

  /** `s.split(sep)` for a one-character separator. */
  function Split(s: string, sep: char): (r: seq<string>)
    ensures |r| >= 1
    decreases |s|
  {
    if s == [] then [""]
    else if s[0] == sep then [""] + Split(s[1..], sep)
    else
      var rest := Split(s[1..], sep);
      [[s[0]] + rest[0]] + rest[1..]
  }

  /** `parts.join(sep)` */
  function Join(parts: seq<string>, sep: char): string
    decreases |parts|
  {
    if parts == [] then ""
    else if |parts| == 1 then parts[0]
    else parts[0] + [sep] + Join(parts[1..], sep)
  }

  /** No part holds the separator. */
  lemma {:induction false} SplitParts(s: string, sep: char)
    ensures forall i :: 0 <= i < |Split(s, sep)| ==> sep !in Split(s, sep)[i]
    decreases |s|
  {
    if s != [] {
      SplitParts(s[1..], sep);
      var rest := Split(s[1..], sep);
      var r := Split(s, sep);
      if s[0] == sep {
        assert r == [""] + rest;
        forall i | 0 <= i < |r|
          ensures sep !in r[i]
        {
          if i > 0 { assert r[i] == rest[i - 1]; }
        }
      } else {
        assert r == [[s[0]] + rest[0]] + rest[1..];
        forall i | 0 <= i < |r|
          ensures sep !in r[i]
        {
          if i > 0 { assert r[i] == rest[i]; }
        }
      }
    }
  }

  /** Joining the parts with the separator gives the string back. */
  lemma {:induction false} SplitJoin(s: string, sep: char)
    ensures Join(Split(s, sep), sep) == s
    decreases |s|
  {
    if s != [] {
      SplitJoin(s[1..], sep);
      var rest := Split(s[1..], sep);
      if s[0] == sep {
        assert Split(s, sep)[1..] == rest;
      } else {
        var r := Split(s, sep);
        assert r[1..] == rest[1..];
        if |rest| == 1 {
          assert Join(rest, sep) == rest[0];
        } else {
          assert Join(rest, sep) == rest[0] + [sep] + Join(rest[1..], sep);
        }
        assert s == [s[0]] + s[1..];
      }
    }
  }

  /** The `.map(m => m.trim())` over the split parts. */
  function TrimEach(parts: seq<string>): seq<string>
  {
    Map(parts, Trim)
  }

  predicate NonEmpty(m: string)
  {
    m != ""
  }

  /** _getAvailableModes(): the default pair when the attribute is
      missing or empty, else the trimmed non-empty comma-separated parts. */
  function GetAvailableModes(attr: Option<string>): seq<string>
  {
    if attr.None? || attr.value == "" then DefaultModes
    else Filter(TrimEach(Split(attr.value, ',')), NonEmpty)
  }

  /** A mode is available exactly when it is a non-empty trimmed part of
      the attribute (or one of the two defaults, without an attribute). */
  lemma AvailableModesMembers(attr: Option<string>, m: string)
    ensures attr.None? || attr.value == "" ==> GetAvailableModes(attr) == ["mesh", "eds"]
    ensures attr.Some? && attr.value != "" ==>
      (m in GetAvailableModes(attr) <==> m != "" && IsTrimmedPart(Split(attr.value, ','), m))
  {
    if attr.Some? && attr.value != "" {
      var parts := Split(attr.value, ',');
      FilterMembers(TrimEach(parts), NonEmpty);
      TrimEachMembers(parts, m);
    }
  }

  /** `m` is one of the parts, trimmed. */
  predicate IsTrimmedPart(parts: seq<string>, m: string)
  {
    exists i :: 0 <= i < |parts| && m == Trim(parts[i])
  }

  lemma TrimEachMembers(parts: seq<string>, m: string)
    ensures m in TrimEach(parts) <==> IsTrimmedPart(parts, m)
  {
    var trimmed := TrimEach(parts);
    if m in trimmed {
      var k :| 0 <= k < |trimmed| && trimmed[k] == m;
      assert m == Trim(parts[k]);
    }
    if IsTrimmedPart(parts, m) {
      var k :| 0 <= k < |parts| && m == Trim(parts[k]);
      assert trimmed[k] == m;
    }
  }

  /** Every available mode is non-empty, holds no comma and has no white
      space at either end. */
  lemma AvailableModesClean(attr: Option<string>)
    ensures forall i :: 0 <= i < |GetAvailableModes(attr)| ==> ModeClean(GetAvailableModes(attr)[i])
  {
    var r := GetAvailableModes(attr);
    if attr.Some? && attr.value != "" {
      PartsClean(attr.value);
      assert r == Filter(TrimEach(Split(attr.value, ',')), NonEmpty);
    } else {
      DefaultModesClean();
      assert r == DefaultModes;
    }
    assert AllClean(r);
  }

  /** The two default modes are clean. */
  lemma DefaultModesClean()
    ensures AllClean(DefaultModes)
  {
    assert !IsJsWhitespace('m') && !IsJsWhitespace('h') && !IsJsWhitespace('e') && !IsJsWhitespace('s');
  }

  /** The non-empty trimmed parts of a comma-separated list are clean. */
  lemma PartsClean(value: string)
    ensures AllClean(Filter(TrimEach(Split(value, ',')), NonEmpty))
  {
    SplitParts(value, ',');
    TrimmedPartsClean(Split(value, ','));
  }

  /** The non-empty trimmed parts are clean when no part holds a comma. */
  lemma TrimmedPartsClean(parts: seq<string>)
    requires forall i :: 0 <= i < |parts| ==> ',' !in parts[i]
    ensures AllClean(Filter(TrimEach(parts), NonEmpty))
  {
    var trimmed := TrimEach(parts);
    var r := Filter(trimmed, NonEmpty);
    FilterMembers(trimmed, NonEmpty);
    forall i | 0 <= i < |r|
      ensures ModeClean(r[i])
    {
      assert r[i] in r;
      TrimmedMemberClean(parts, r[i]);
    }
  }

  /** A non-empty member of the trimmed parts is clean. */
  lemma TrimmedMemberClean(parts: seq<string>, m: string)
    requires forall i :: 0 <= i < |parts| ==> ',' !in parts[i]
    requires m in TrimEach(parts) && m != ""
    ensures ModeClean(m)
  {
    var trimmed := TrimEach(parts);
    var k :| 0 <= k < |trimmed| && trimmed[k] == m;
    TrimmedPartClean(parts[k]);
  }

  predicate AllClean(ms: seq<string>)
  {
    forall i :: 0 <= i < |ms| ==> ModeClean(ms[i])
  }

  predicate ModeClean(m: string)
  {
    m != "" && ',' !in m && !IsJsWhitespace(m[0]) && !IsJsWhitespace(m[|m| - 1])
  }

  /** A part without a comma that does not trim to nothing is a clean mode. */
  lemma TrimmedPartClean(part: string)
    requires ',' !in part && Trim(part) != ""
    ensures ModeClean(Trim(part))
  {
    TrimmedHasNoOuterWhitespace(part);
    TrimIsInside(part);
  }

  /** Trimming only takes characters away from the ends. */
  lemma TrimIsInside(s: string)
    ensures forall c :: c in Trim(s) ==> c in s
  {
    var t := TrimStart(s);
    assert forall c :: c in t ==> c in s;
  }

  // ---------------------------------------------------------------------
  // The list toggles of the click handlers
  // ---------------------------------------------------------------------

  /** Array.prototype.indexOf */
  function IndexOf<T(==)>(s: seq<T>, x: T): (r: int)
    ensures -1 <= r < |s|
    ensures r >= 0 ==> s[r] == x && x !in s[..r]
    ensures r < 0 <==> x !in s
    decreases |s|
  {
    if s == [] then -1
    else if s[0] == x then 0
    else
      var k := IndexOf(s[1..], x);
      assert s[1..][..k + 1] == s[1..k + 2] by { }
      if k < 0 then -1 else k + 1
  }

  /** The copy a handler builds: the first occurrence spliced out when
      present, the item pushed when absent. */
  function Toggle<T(==)>(s: seq<T>, x: T): seq<T>
  {
    var i := IndexOf(s, x);
    if i >= 0 then s[..i] + s[i + 1..] else s + [x]
  }

  /** Toggling flips the membership of the item and of nothing else; a
      list without repeats stays without repeats. */
  lemma ToggleFlips<T>(s: seq<T>, x: T)
    ensures NoDuplicates(s) ==> NoDuplicates(Toggle(s, x))
    ensures NoDuplicates(s) ==> (x in Toggle(s, x) <==> x !in s)
    ensures forall y :: y != x ==> (y in Toggle(s, x) <==> y in s)
  {
    var i := IndexOf(s, x);
    if i >= 0 {
      SpliceMembers(s, i);
      if NoDuplicates(s) {
        SpliceNoDuplicates(s, i);
      }
    }
  }

  /** Splicing out position `i` keeps every other element. */
  lemma SpliceMembers<T>(s: seq<T>, i: nat)
    requires i < |s|
    ensures forall y :: y != s[i] ==> (y in s[..i] + s[i + 1..] <==> y in s)
  {
    assert s == s[..i] + [s[i]] + s[i + 1..];
  }

  /** Splicing out position `i` of a list without repeats leaves a list
      without repeats that no longer holds that element. */
  lemma SpliceNoDuplicates<T>(s: seq<T>, i: nat)
    requires i < |s| && NoDuplicates(s)
    ensures NoDuplicates(s[..i] + s[i + 1..]) && s[i] !in s[..i] + s[i + 1..]
  {
    var r := s[..i] + s[i + 1..];
    forall a, b | 0 <= a < b < |r|
      ensures r[a] != r[b]
    {
      var a', b' := if a < i then a else a + 1, if b < i then b else b + 1;
      assert r[a] == s[a'] && r[b] == s[b'];
    }
    forall k | 0 <= k < |r|
      ensures r[k] != s[i]
    {
      var k' := if k < i then k else k + 1;
      assert r[k] == s[k'];
    }
  }


  /** Toggling a present item removes one copy of it; toggling an absent
      item adds one. */
  lemma ToggleCounts<T>(s: seq<T>, x: T)
    ensures x in s ==> multiset(Toggle(s, x)) == multiset(s) - multiset{x}
    ensures x !in s ==> multiset(Toggle(s, x)) == multiset(s) + multiset{x}
  {
    var i := IndexOf(s, x);
    if i >= 0 {
      assert s == s[..i] + [x] + s[i + 1..];
      assert multiset(s) == multiset(s[..i]) + multiset{x} + multiset(s[i + 1..]);
    }
  }

  predicate Other<T(==)>(x: T, y: T)
  {
    y != x
  }

  /** The other entries keep their order. */
  lemma ToggleKeepsOthers<T>(s: seq<T>, x: T)
    ensures Filter(Toggle(s, x), y => Other(x, y)) == Filter(s, y => Other(x, y))
  {
    var i := IndexOf(s, x);
    var p := y => Other(x, y);
    if i >= 0 {
      var a, b := s[..i], s[i + 1..];
      assert s == (a + [x]) + b;
      FilterAppend(a + [x], b, p);
      FilterSnoc(a, x, p);
      FilterAppend(a, b, p);
    } else {
      FilterSnoc(s, x, p);
    }
  }

  /** Toggling twice removes what the first toggle added. */
  lemma ToggleTwice<T>(s: seq<T>, x: T)
    requires x !in s
    ensures Toggle(Toggle(s, x), x) == s
  {
    var t := s + [x];
    assert x !in t[..|s|];
  }

  lemma {:induction false} FilterAppend<T>(a: seq<T>, b: seq<T>, p: T -> bool)
    ensures Filter(a + b, p) == Filter(a, p) + Filter(b, p)
    decreases |b|
  {
    if b == [] {
      assert a + b == a;
    } else {
      var init, last := b[..|b| - 1], b[|b| - 1];
      assert a + b == (a + init) + [last];
      assert b == init + [last];
      FilterSnoc(a + init, last, p);
      FilterSnoc(init, last, p);
      FilterAppend(a, init, p);
    }
  }
}

module PanelTree {
  import opened Common
  import opened ScannerEds

  // ---------------------------------------------------------------------
  // The tree the panel walks: entries in the order it meets them
  // ---------------------------------------------------------------------

  /** The entries _collectAllIds pushes for a list of blocks: each block,
      then its slot subtrees, then its child blocks.  A block nested in a
      slot contributes only its own entry. */
  function CollectedBlocks(bs: seq<BlockNode>): seq<Entry>
    decreases bs
  {
    if bs == [] then [] else CollectedBlock(bs[0]) + CollectedBlocks(bs[1..])
  }

  function CollectedBlock(b: BlockNode): seq<Entry>
    decreases b
  {
    [BlockEntry(b)] + CollectedSlots(b.slots) + CollectedBlocks(b.children)
  }

  function CollectedSlots(ss: seq<SlotNode>): seq<Entry>
    decreases ss
  {
    if ss == [] then [] else CollectedSlot(ss[0]) + CollectedSlots(ss[1..])
  }

  function CollectedSlot(s: SlotNode): seq<Entry>
    decreases s
  {
    [SlotEntry(s)] + CollectedSlots(s.childSlots) + Shallow(s.children)
  }

  /** The record the panel pushes for a block or a slot. */
  function BlockEntry(b: BlockNode): Entry
  {
    Entry(BlockKind, b.element, b.name, b.id)
  }

  function SlotEntry(s: SlotNode): Entry
  {
    Entry(SlotKind, s.element, s.name, s.id)
  }

  /** One entry per block, nothing below it. */
  function Shallow(bs: seq<BlockNode>): (r: seq<Entry>)
    ensures |r| == |bs|
  {
    if bs == [] then [] else [BlockEntry(bs[0])] + Shallow(bs[1..])
  }

  lemma {:induction false} ShallowAppend(a: seq<BlockNode>, b: seq<BlockNode>)
    ensures Shallow(a + b) == Shallow(a) + Shallow(b)
    decreases |a|
  {
    if a != [] {
      assert (a + b)[1..] == a[1..] + b;
      ShallowAppend(a[1..], b);
    } else {
      assert a + b == b;
    }
  }

  lemma ShallowSnoc(a: seq<BlockNode>, b: BlockNode)
    ensures Shallow(a + [b]) == Shallow(a) + [BlockEntry(b)]
  {
    ShallowAppend(a, [b]);
  }

  lemma {:induction false} CollectedBlocksAppend(a: seq<BlockNode>, b: seq<BlockNode>)
    ensures CollectedBlocks(a + b) == CollectedBlocks(a) + CollectedBlocks(b)
    decreases |a|
  {
    if a != [] {
      assert (a + b)[1..] == a[1..] + b;
      CollectedBlocksAppend(a[1..], b);
    } else {
      assert a + b == b;
    }
  }

  lemma {:induction false} CollectedSlotsAppend(a: seq<SlotNode>, b: seq<SlotNode>)
    ensures CollectedSlots(a + b) == CollectedSlots(a) + CollectedSlots(b)
    decreases |a|
  {
    if a != [] {
      assert (a + b)[1..] == a[1..] + b;
      CollectedSlotsAppend(a[1..], b);
    } else {
      assert a + b == b;
    }
  }

  lemma CollectedBlocksSnoc(a: seq<BlockNode>, b: BlockNode)
    ensures CollectedBlocks(a + [b]) == CollectedBlocks(a) + CollectedBlock(b)
  {
    CollectedBlocksAppend(a, [b]);
    assert CollectedBlocks([b]) == CollectedBlock(b) + CollectedBlocks([]);
  }

  lemma CollectedSlotsSnoc(a: seq<SlotNode>, s: SlotNode)
    ensures CollectedSlots(a + [s]) == CollectedSlots(a) + CollectedSlot(s)
  {
    CollectedSlotsAppend(a, [s]);
    assert CollectedSlots([s]) == CollectedSlot(s) + CollectedSlots([]);
  }

  /** A block nested in a slot loses its own slots and child blocks. */
  function AsLeaf(b: BlockNode): BlockNode
  {
    b.(slots := [], children := [])
  }

  function LeavesOf(bs: seq<BlockNode>): (r: seq<BlockNode>)
    ensures |r| == |bs| && forall i :: 0 <= i < |bs| ==> r[i] == AsLeaf(bs[i])
  {
    if bs == [] then [] else [AsLeaf(bs[0])] + LeavesOf(bs[1..])
  }

  /** The tree with every block nested in a slot cut down to a leaf. */
  function PruneBlocks(bs: seq<BlockNode>): (r: seq<BlockNode>)
    ensures |r| == |bs|
    decreases bs
  {
    if bs == [] then [] else [PruneBlock(bs[0])] + PruneBlocks(bs[1..])
  }

  function PruneBlock(b: BlockNode): BlockNode
    decreases b
  {
    b.(slots := PruneSlots(b.slots), children := PruneBlocks(b.children))
  }

  function PruneSlots(ss: seq<SlotNode>): (r: seq<SlotNode>)
    ensures |r| == |ss|
    decreases ss
  {
    if ss == [] then [] else [PruneSlot(ss[0])] + PruneSlots(ss[1..])
  }

  function PruneSlot(s: SlotNode): SlotNode
    decreases s
  {
    s.(childSlots := PruneSlots(s.childSlots), children := LeavesOf(s.children))
  }

  lemma {:induction false} ShallowIsFlatLeaves(bs: seq<BlockNode>)
    ensures Shallow(bs) == FlatBlocks(LeavesOf(bs))
    decreases |bs|
  {
    if bs != [] {
      ShallowIsFlatLeaves(bs[1..]);
      assert LeavesOf(bs)[1..] == LeavesOf(bs[1..]);
      var l := AsLeaf(bs[0]);
      assert FlatBlock(l) == [Entry(BlockKind, l.element, l.name, l.id)] + FlatSlots([]) + FlatBlocks([]);
    }
  }

  /** What the panel walks is the id pass's traversal of the pruned tree:
      the same order, with nested blocks cut down to leaves. */
  lemma {:induction false} CollectedIsFlatPruned(bs: seq<BlockNode>)
    ensures CollectedBlocks(bs) == FlatBlocks(PruneBlocks(bs))
    decreases bs
  {
    if bs != [] {
      CollectedBlockIsFlatPruned(bs[0]);
      CollectedIsFlatPruned(bs[1..]);
      assert PruneBlocks(bs)[1..] == PruneBlocks(bs[1..]);
    }
  }

  lemma {:induction false} CollectedBlockIsFlatPruned(b: BlockNode)
    ensures CollectedBlock(b) == FlatBlock(PruneBlock(b))
    decreases b
  {
    CollectedSlotsIsFlatPruned(b.slots);
    CollectedIsFlatPruned(b.children);
  }

  lemma {:induction false} CollectedSlotsIsFlatPruned(ss: seq<SlotNode>)
    ensures CollectedSlots(ss) == FlatSlots(PruneSlots(ss))
    decreases ss
  {
    if ss != [] {
      CollectedSlotIsFlatPruned(ss[0]);
      CollectedSlotsIsFlatPruned(ss[1..]);
      assert PruneSlots(ss)[1..] == PruneSlots(ss[1..]);
    }
  }

  lemma {:induction false} CollectedSlotIsFlatPruned(s: SlotNode)
    ensures CollectedSlot(s) == FlatSlot(PruneSlot(s))
    decreases s
  {
    CollectedSlotsIsFlatPruned(s.childSlots);
    ShallowIsFlatLeaves(s.children);
  }

  /** Every entry names an element numbered below `n`. */
  predicate EntriesBelow(es: seq<Entry>, n: nat)
  {
    forall i :: 0 <= i < |es| ==> es[i].element < n
  }

  lemma EntriesBelowAppend(a: seq<Entry>, b: seq<Entry>, n: nat)
    ensures EntriesBelow(a + b, n) <==> EntriesBelow(a, n) && EntriesBelow(b, n)
  {
    if EntriesBelow(a + b, n) {
      forall i | 0 <= i < |a| ensures a[i].element < n {
        assert (a + b)[i] == a[i];
      }
      forall i | 0 <= i < |b| ensures b[i].element < n {
        assert (a + b)[|a| + i] == b[i];
      }
    }
    if EntriesBelow(a, n) && EntriesBelow(b, n) {
      forall i | 0 <= i < |a + b| ensures (a + b)[i].element < n {
        if i < |a| {
          assert (a + b)[i] == a[i];
        } else {
          assert (a + b)[i] == b[i - |a|];
        }
      }
    }
  }

  lemma EntriesBelow3(a: seq<Entry>, b: seq<Entry>, c: seq<Entry>, n: nat)
    ensures EntriesBelow(a + b + c, n) <==> EntriesBelow(a, n) && EntriesBelow(b, n) && EntriesBelow(c, n)
  {
    EntriesBelowAppend(a + b, c, n);
    EntriesBelowAppend(a, b, n);
  }

  /** The panel's walk names only elements the tree holds: when every
      element of the tree is below `n`, so is every element it reaches. */
  lemma {:induction false} CollectedBlocksBelow(bs: seq<BlockNode>, n: nat)
    requires EntriesBelow(FlatBlocks(bs), n)
    ensures EntriesBelow(CollectedBlocks(bs), n)
    decreases bs
  {
    if bs != [] {
      EntriesBelowAppend(FlatBlock(bs[0]), FlatBlocks(bs[1..]), n);
      EntriesBelowAppend(CollectedBlock(bs[0]), CollectedBlocks(bs[1..]), n);
      CollectedBlockBelow(bs[0], n);
      CollectedBlocksBelow(bs[1..], n);
    }
  }

  lemma {:induction false} CollectedBlockBelow(b: BlockNode, n: nat)
    requires EntriesBelow(FlatBlock(b), n)
    ensures EntriesBelow(CollectedBlock(b), n)
    decreases b
  {
    EntriesBelow3([Entry(BlockKind, b.element, b.name, b.id)], FlatSlots(b.slots), FlatBlocks(b.children), n);
    EntriesBelow3([BlockEntry(b)], CollectedSlots(b.slots), CollectedBlocks(b.children), n);
    CollectedSlotsBelow(b.slots, n);
    CollectedBlocksBelow(b.children, n);
  }

  lemma {:induction false} CollectedSlotsBelow(ss: seq<SlotNode>, n: nat)
    requires EntriesBelow(FlatSlots(ss), n)
    ensures EntriesBelow(CollectedSlots(ss), n)
    decreases ss
  {
    if ss != [] {
      EntriesBelowAppend(FlatSlot(ss[0]), FlatSlots(ss[1..]), n);
      EntriesBelowAppend(CollectedSlot(ss[0]), CollectedSlots(ss[1..]), n);
      CollectedSlotBelow(ss[0], n);
      CollectedSlotsBelow(ss[1..], n);
    }
  }

  lemma {:induction false} CollectedSlotBelow(s: SlotNode, n: nat)
    requires EntriesBelow(FlatSlot(s), n)
    ensures EntriesBelow(CollectedSlot(s), n)
    decreases s
  {
    EntriesBelow3([Entry(SlotKind, s.element, s.name, s.id)], FlatSlots(s.childSlots), FlatBlocks(s.children), n);
    EntriesBelow3([SlotEntry(s)], CollectedSlots(s.childSlots), Shallow(s.children), n);
    CollectedSlotsBelow(s.childSlots, n);
    ShallowBelow(s.children, n);
  }

  lemma {:induction false} ShallowBelow(bs: seq<BlockNode>, n: nat)
    requires EntriesBelow(FlatBlocks(bs), n)
    ensures EntriesBelow(Shallow(bs), n)
    decreases |bs|
  {
    if bs != [] {
      EntriesBelowAppend(FlatBlock(bs[0]), FlatBlocks(bs[1..]), n);
      assert FlatBlock(bs[0])[0].element == bs[0].element;
      EntriesBelowAppend([BlockEntry(bs[0])], Shallow(bs[1..]), n);
      ShallowBelow(bs[1..], n);
    }
  }

  // ---------------------------------------------------------------------
  // The first entry with an id
  // ---------------------------------------------------------------------

  predicate NoId(es: seq<Entry>, id: string)
  {
    forall k :: 0 <= k < |es| ==> es[k].id != Some(id)
  }

  /** The position of the first entry carrying `id`, or -1. */
  function IndexWithId(es: seq<Entry>, id: string): (r: int)
    ensures -1 <= r < |es|
    ensures r >= 0 ==> es[r].id == Some(id) && NoId(es[..r], id)
    ensures r < 0 <==> NoId(es, id)
    decreases |es|
  {
    if es == [] then -1
    else if es[0].id == Some(id) then 0
    else
      var k := IndexWithId(es[1..], id);
      assert k >= 0 ==> es[1..][..k] == es[1..k + 1];
      if k < 0 then -1 else k + 1
  }

  /** The element of the first entry carrying `id`. */
  function FirstWithId(es: seq<Entry>, id: string): (r: Option<nat>)
    ensures r.None? <==> NoId(es, id)
  {
    var i := IndexWithId(es, id);
    if i < 0 then None else Some(es[i].element)
  }

  /** The first index is the one position that carries `id` with no
      match before it. */
  lemma IndexWithIdUnique(es: seq<Entry>, id: string, x: int)
    requires 0 <= x < |es| && es[x].id == Some(id) && NoId(es[..x], id)
    ensures IndexWithId(es, id) == x
  {
    var i := IndexWithId(es, id);
    assert forall k :: 0 <= k < x ==> es[..x][k] == es[k];
    assert forall k :: 0 <= k < i ==> es[..i][k] == es[k];
  }

  /** The first match of a concatenation is the first part's, if it has
      one, else the second part's. */
  lemma FirstWithIdAppend(a: seq<Entry>, b: seq<Entry>, id: string)
    ensures FirstWithId(a + b, id) == if NoId(a, id) then FirstWithId(b, id) else FirstWithId(a, id)
  {
    var ab := a + b;
    NoIdAppend(a, b, id);
    if NoId(a, id) {
      var j := IndexWithId(b, id);
      if j >= 0 {
        assert ab[|a| + j] == b[j];
        assert ab[..|a| + j] == a + b[..j];
        NoIdAppend(a, b[..j], id);
        IndexWithIdUnique(ab, id, |a| + j);
      }
    } else {
      var j := IndexWithId(a, id);
      assert ab[j] == a[j] && ab[..j] == a[..j];
      IndexWithIdUnique(ab, id, j);
    }
  }

  lemma FirstWithIdConcat3(a: seq<Entry>, b: seq<Entry>, c: seq<Entry>, id: string)
    requires NoId(a, id) && !NoId(b, id)
    ensures FirstWithId(a + b + c, id) == FirstWithId(b, id)
  {
    FirstWithIdAppend(a + b, c, id);
    FirstWithIdAppend(a, b, id);
    assert !NoId(a + b, id) by {
      var j := IndexWithId(b, id);
      assert (a + b)[|a| + j] == b[j];
    }
  }

  lemma NoIdAppend(a: seq<Entry>, b: seq<Entry>, id: string)
    ensures NoId(a + b, id) <==> NoId(a, id) && NoId(b, id)
  {
    if NoId(a, id) && NoId(b, id) {
      forall k | 0 <= k < |a + b| ensures (a + b)[k].id != Some(id) {
        if k < |a| { assert (a + b)[k] == a[k]; } else { assert (a + b)[k] == b[k - |a|]; }
      }
    }
    if NoId(a + b, id) {
      forall k | 0 <= k < |b| ensures b[k].id != Some(id) {
        assert (a + b)[|a| + k] == b[k];
      }
      forall k | 0 <= k < |a| ensures a[k].id != Some(id) {
        assert (a + b)[k] == a[k];
      }
    }
  }

  /** Where the first match of three consecutive parts lies. */
  lemma FirstOfParts(a: seq<Entry>, b: seq<Entry>, c: seq<Entry>, id: string)
    ensures FirstWithId(a + b + c, id) ==
      if !NoId(a, id) then FirstWithId(a, id) else if !NoId(b, id) then FirstWithId(b, id) else FirstWithId(c, id)
  {
    FirstWithIdAppend(a + b, c, id);
    FirstWithIdAppend(a, b, id);
    NoIdAppend(a, b, id);
  }

  lemma SplitAt<T>(xs: seq<T>, i: nat)
    requires i < |xs|
    ensures xs == (xs[..i] + [xs[i]]) + xs[i + 1..] && xs[..i + 1] == xs[..i] + [xs[i]]
  {
  }

  /** In a list whose first `i` parts hold no match, the first match is
      the `i`-th part's, if it has one, else that of the parts after it. */
  lemma FirstInCollectedBlocksAround(a: seq<BlockNode>, x: BlockNode, c: seq<BlockNode>)
    ensures CollectedBlocks(a + [x] + c) == CollectedBlocks(a) + CollectedBlock(x) + CollectedBlocks(c)
  {
    CollectedBlocksAppend(a + [x], c);
    CollectedBlocksSnoc(a, x);
  }

  lemma FirstInCollectedBlocks(xs: seq<BlockNode>, i: nat, id: string)
    requires i < |xs| && NoId(CollectedBlocks(xs[..i]), id)
    ensures FirstWithId(CollectedBlocks(xs), id) ==
      if NoId(CollectedBlock(xs[i]), id) then FirstWithId(CollectedBlocks(xs[i + 1..]), id) else FirstWithId(CollectedBlock(xs[i]), id)
    ensures NoId(CollectedBlock(xs[i]), id) ==> NoId(CollectedBlocks(xs[..i + 1]), id)
  {
    SplitAt(xs, i);
    var a, x, c := xs[..i], xs[i], xs[i + 1..];
    FirstInCollectedBlocksAround(a, x, c);
    CollectedBlocksSnoc(a, x);
    NoIdAppend(CollectedBlocks(a), CollectedBlock(x), id);
    FirstOfParts(CollectedBlocks(a), CollectedBlock(x), CollectedBlocks(c), id);
  }

  lemma FirstInCollectedSlotsAround(a: seq<SlotNode>, x: SlotNode, c: seq<SlotNode>)
    ensures CollectedSlots(a + [x] + c) == CollectedSlots(a) + CollectedSlot(x) + CollectedSlots(c)
  {
    CollectedSlotsAppend(a + [x], c);
    CollectedSlotsSnoc(a, x);
  }

  lemma FirstInCollectedSlots(xs: seq<SlotNode>, i: nat, id: string)
    requires i < |xs| && NoId(CollectedSlots(xs[..i]), id)
    ensures FirstWithId(CollectedSlots(xs), id) ==
      if NoId(CollectedSlot(xs[i]), id) then FirstWithId(CollectedSlots(xs[i + 1..]), id) else FirstWithId(CollectedSlot(xs[i]), id)
    ensures NoId(CollectedSlot(xs[i]), id) ==> NoId(CollectedSlots(xs[..i + 1]), id)
  {
    SplitAt(xs, i);
    var a, x, c := xs[..i], xs[i], xs[i + 1..];
    FirstInCollectedSlotsAround(a, x, c);
    CollectedSlotsSnoc(a, x);
    NoIdAppend(CollectedSlots(a), CollectedSlot(x), id);
    FirstOfParts(CollectedSlots(a), CollectedSlot(x), CollectedSlots(c), id);
  }

  lemma FirstInFlatBlocksAround(a: seq<BlockNode>, x: BlockNode, c: seq<BlockNode>)
    ensures FlatBlocks(a + [x] + c) == FlatBlocks(a) + FlatBlock(x) + FlatBlocks(c)
  {
    FlatBlocksAppend(a + [x], c);
    FlatBlocksSnoc(a, x);
  }

  lemma FirstInFlatBlocks(xs: seq<BlockNode>, i: nat, id: string)
    requires i < |xs| && NoId(FlatBlocks(xs[..i]), id)
    ensures FirstWithId(FlatBlocks(xs), id) ==
      if NoId(FlatBlock(xs[i]), id) then FirstWithId(FlatBlocks(xs[i + 1..]), id) else FirstWithId(FlatBlock(xs[i]), id)
    ensures NoId(FlatBlock(xs[i]), id) ==> NoId(FlatBlocks(xs[..i + 1]), id)
  {
    SplitAt(xs, i);
    var a, x, c := xs[..i], xs[i], xs[i + 1..];
    FirstInFlatBlocksAround(a, x, c);
    FlatBlocksSnoc(a, x);
    NoIdAppend(FlatBlocks(a), FlatBlock(x), id);
    FirstOfParts(FlatBlocks(a), FlatBlock(x), FlatBlocks(c), id);
  }

  lemma FirstInFlatSlotsAround(a: seq<SlotNode>, x: SlotNode, c: seq<SlotNode>)
    ensures FlatSlots(a + [x] + c) == FlatSlots(a) + FlatSlot(x) + FlatSlots(c)
  {
    FlatSlotsAppend(a + [x], c);
    FlatSlotsSnoc(a, x);
  }

  lemma FirstInFlatSlots(xs: seq<SlotNode>, i: nat, id: string)
    requires i < |xs| && NoId(FlatSlots(xs[..i]), id)
    ensures FirstWithId(FlatSlots(xs), id) ==
      if NoId(FlatSlot(xs[i]), id) then FirstWithId(FlatSlots(xs[i + 1..]), id) else FirstWithId(FlatSlot(xs[i]), id)
    ensures NoId(FlatSlot(xs[i]), id) ==> NoId(FlatSlots(xs[..i + 1]), id)
  {
    SplitAt(xs, i);
    var a, x, c := xs[..i], xs[i], xs[i + 1..];
    FirstInFlatSlotsAround(a, x, c);
    FlatSlotsSnoc(a, x);
    NoIdAppend(FlatSlots(a), FlatSlot(x), id);
    FirstOfParts(FlatSlots(a), FlatSlot(x), FlatSlots(c), id);
  }
  lemma FirstInShallowAround(a: seq<BlockNode>, x: BlockNode, c: seq<BlockNode>)
    ensures Shallow(a + [x] + c) == Shallow(a) + [BlockEntry(x)] + Shallow(c)
  {
    ShallowAppend(a + [x], c);
    ShallowSnoc(a, x);
  }

  lemma FirstInShallow(xs: seq<BlockNode>, i: nat, id: string)
    requires i < |xs| && NoId(Shallow(xs[..i]), id)
    ensures FirstWithId(Shallow(xs), id) ==
      if NoId([BlockEntry(xs[i])], id) then FirstWithId(Shallow(xs[i + 1..]), id) else FirstWithId([BlockEntry(xs[i])], id)
    ensures NoId([BlockEntry(xs[i])], id) ==> NoId(Shallow(xs[..i + 1]), id)
  {
    SplitAt(xs, i);
    var a, x, c := xs[..i], xs[i], xs[i + 1..];
    FirstInShallowAround(a, x, c);
    ShallowSnoc(a, x);
    NoIdAppend(Shallow(a), [BlockEntry(x)], id);
    FirstOfParts(Shallow(a), [BlockEntry(x)], Shallow(c), id);
  }

  lemma FirstOfOne(e: Entry, id: string)
    ensures FirstWithId([e], id) == if e.id == Some(id) then Some(e.element) else None
    ensures NoId([e], id) <==> e.id != Some(id)
  {
  }

  lemma Assoc<T>(a: seq<T>, b: seq<T>, c: seq<T>)
    ensures a + b + c == a + (b + c)
  {
  }

  // ---------------------------------------------------------------------
  // Lookup and collection, as the panel writes them
  // ---------------------------------------------------------------------

  /** _findElementById(itemId, blocks): the element of the first entry
      carrying the id, in the order the panel walks the tree, or null. */
  method FindElementById(itemId: string, blocks: seq<BlockNode>) returns (r: Option<nat>)
    ensures r == FirstWithId(CollectedBlocks(blocks), itemId)
    decreases blocks
  {
    var i := 0;
    while i < |blocks|
      invariant 0 <= i <= |blocks|
      invariant NoId(CollectedBlocks(blocks[..i]), itemId)
    {
      var block := blocks[i];
      FirstInCollectedBlocks(blocks, i, itemId);
      FirstOfParts([BlockEntry(block)], CollectedSlots(block.slots), CollectedBlocks(block.children), itemId);
      if block.id == Some(itemId) {
        return Some(block.element);
      }
      var j := 0;
      while j < |block.slots|
        invariant 0 <= j <= |block.slots|
        invariant NoId(CollectedSlots(block.slots[..j]), itemId)
      {
        FirstInCollectedSlots(block.slots, j, itemId);
        var found := FindInSlot(itemId, block.slots[j]);
        if found.Some? {
          return found;
        }
        j := j + 1;
      }
      assert block.slots[..j] == block.slots;
      var found := FindElementById(itemId, block.children);
      if found.Some? {
        return found;
      }
      i := i + 1;
    }
    assert blocks[..i] == blocks;
    return None;
  }

  /** _findInSlot(itemId, slot): the slot, its child slot trees, then the
      blocks nested in it — each of those on its own id only. */
  method FindInSlot(itemId: string, slot: SlotNode) returns (r: Option<nat>)
    ensures r == FirstWithId(CollectedSlot(slot), itemId)
    decreases slot
  {
    FirstOfParts([SlotEntry(slot)], CollectedSlots(slot.childSlots), Shallow(slot.children), itemId);
    if slot.id == Some(itemId) {
      return Some(slot.element);
    }
    r := FindInChildSlots(itemId, slot.childSlots);
    if r.None? {
      r := FindInNestedBlocks(itemId, slot.children);
    }
  }

  /** The loop of _findInSlot over `slot.childSlots`. */
  method FindInChildSlots(itemId: string, slots: seq<SlotNode>) returns (r: Option<nat>)
    ensures r == FirstWithId(CollectedSlots(slots), itemId)
    decreases slots
  {
    var j := 0;
    while j < |slots|
      invariant 0 <= j <= |slots|
      invariant NoId(CollectedSlots(slots[..j]), itemId)
    {
      FirstInCollectedSlots(slots, j, itemId);
      var found := FindInSlot(itemId, slots[j]);
      if found.Some? {
        return found;
      }
      j := j + 1;
    }
    assert slots[..j] == slots;
    return None;
  }

  /** The loop of _findInSlot over `slot.children`: each nested block on
      its own id only. */
  method FindInNestedBlocks(itemId: string, blocks: seq<BlockNode>) returns (r: Option<nat>)
    ensures r == FirstWithId(Shallow(blocks), itemId)
  {
    var k := 0;
    while k < |blocks|
      invariant 0 <= k <= |blocks|
      invariant NoId(Shallow(blocks[..k]), itemId)
    {
      var child := blocks[k];
      FirstInShallow(blocks, k, itemId);
      FirstOfOne(BlockEntry(child), itemId);
      if child.id == Some(itemId) {
        return Some(child.element);
      }
      k := k + 1;
    }
    assert blocks[..k] == blocks;
    return None;
  }

  /** _collectAllIds(blocks, result): the result array, pushed to in
      place, is passed in and handed back. */
  method CollectAllIds(blocks: seq<BlockNode>, result: seq<Entry>) returns (r: seq<Entry>)
    ensures r == result + CollectedBlocks(blocks)
    decreases blocks
  {
    r := result;
    var i := 0;
    while i < |blocks|
      invariant 0 <= i <= |blocks|
      invariant r == result + CollectedBlocks(blocks[..i])
    {
      var block := blocks[i];
      ghost var before := r;
      r := r + [BlockEntry(block)];
      var j := 0;
      while j < |block.slots|
        invariant 0 <= j <= |block.slots|
        invariant r == before + ([BlockEntry(block)] + CollectedSlots(block.slots[..j]))
      {
        ghost var prev := r;
        r := CollectSlotIds(block.slots[j], r);
        CollectedSlotsSnoc(block.slots[..j], block.slots[j]);
        assert block.slots[..j + 1] == block.slots[..j] + [block.slots[j]];
        Assoc(before, [BlockEntry(block)] + CollectedSlots(block.slots[..j]), CollectedSlot(block.slots[j]));
        Assoc([BlockEntry(block)], CollectedSlots(block.slots[..j]), CollectedSlot(block.slots[j]));
        j := j + 1;
      }
      assert block.slots[..j] == block.slots;
      r := CollectAllIds(block.children, r);
      Assoc(before, [BlockEntry(block)] + CollectedSlots(block.slots), CollectedBlocks(block.children));
      CollectedBlocksSnoc(blocks[..i], block);
      assert blocks[..i + 1] == blocks[..i] + [block];
      Assoc(result, CollectedBlocks(blocks[..i]), CollectedBlock(block));
      i := i + 1;
    }
    assert blocks[..i] == blocks;
  }

  /** _collectSlotIds(slot, result) */
  method CollectSlotIds(slot: SlotNode, result: seq<Entry>) returns (r: seq<Entry>)
    ensures r == result + CollectedSlot(slot)
    decreases slot
  {
    r := result + [SlotEntry(slot)];
    var j := 0;
    while j < |slot.childSlots|
      invariant 0 <= j <= |slot.childSlots|
      invariant r == result + ([SlotEntry(slot)] + CollectedSlots(slot.childSlots[..j]))
    {
      r := CollectSlotIds(slot.childSlots[j], r);
      CollectedSlotsSnoc(slot.childSlots[..j], slot.childSlots[j]);
      assert slot.childSlots[..j + 1] == slot.childSlots[..j] + [slot.childSlots[j]];
      Assoc(result, [SlotEntry(slot)] + CollectedSlots(slot.childSlots[..j]), CollectedSlot(slot.childSlots[j]));
      Assoc([SlotEntry(slot)], CollectedSlots(slot.childSlots[..j]), CollectedSlot(slot.childSlots[j]));
      j := j + 1;
    }
    assert slot.childSlots[..j] == slot.childSlots;
    ghost var mid := [SlotEntry(slot)] + CollectedSlots(slot.childSlots);
    var k := 0;
    while k < |slot.children|
      invariant 0 <= k <= |slot.children|
      invariant r == result + (mid + Shallow(slot.children[..k]))
    {
      var child := slot.children[k];
      r := r + [BlockEntry(child)];
      ShallowSnoc(slot.children[..k], child);
      assert slot.children[..k + 1] == slot.children[..k] + [child];
      Assoc(result, mid + Shallow(slot.children[..k]), [BlockEntry(child)]);
      Assoc(mid, Shallow(slot.children[..k]), [BlockEntry(child)]);
      k := k + 1;
    }
    assert slot.children[..k] == slot.children;
  }

  // ---------------------------------------------------------------------
  // The blocks nested in a slot are leaves to the panel
  // ---------------------------------------------------------------------

  /** The tree scanEds builds for a block holding a slot, inside which a
      second block with a slot of its own is nested, before ids are
      stamped; and the same tree after the id pass. */
  const RawBody := SlotNode("body", 4, [], [], None)
  const RawCard := BlockNode("card", 3, [RawBody], [], 0, None)
  const RawItems := SlotNode("items", 2, [], [RawCard], None)
  const RawCards := BlockNode("cards", 1, [RawItems], [], 0, None)

  const Body := RawBody.(id := Some("slot-1"))
  const Card := RawCard.(id := Some("block-1"), slots := [Body])
  const Items := RawItems.(id := Some("slot-0"), children := [Card])
  const Cards := RawCards.(id := Some("block-0"), slots := [Items])

  lemma MintSlotsOne(s: SlotNode, t: Tally)
    ensures MintSlots([s], t) == ([MintSlot(s, t).0], MintSlot(s, t).1)
  {
    MintSlotsSnoc([], s, t);
    assert [] + [s] == [s];
    assert [] + [MintSlot(s, t).0] == [MintSlot(s, t).0];
  }

  lemma MintBlocksOne(b: BlockNode, t: Tally)
    ensures MintBlocks([b], t) == ([MintBlock(b, t).0], MintBlock(b, t).1)
  {
    MintBlocksSnoc([], b, t);
    assert [] + [b] == [b];
    assert [] + [MintBlock(b, t).0] == [MintBlock(b, t).0];
  }

  lemma FlatOne(b: BlockNode, s: SlotNode)
    ensures FlatBlocks([b]) == FlatBlock(b) && FlatSlots([s]) == FlatSlot(s)
    ensures CollectedBlocks([b]) == CollectedBlock(b) && CollectedSlots([s]) == CollectedSlot(s)
  {
    assert [b][1..] == [] && [s][1..] == [];
  }

  lemma NestedMinted()
    ensures MintBlocks([RawCards], Tally(0, 0, 0, 0)).0 == [Cards]
  {
    assert Decimal(0) == "0" && Decimal(1) == "1";
    assert SlotIdPrefix + "1" == "slot-1" && SlotIdPrefix + "0" == "slot-0";
    assert BlockIdPrefix + "1" == "block-1" && BlockIdPrefix + "0" == "block-0";
    assert MintSlot(RawBody, Tally(2, 1, 2, 1)) == (Body, Tally(2, 2, 2, 2));
    MintSlotsOne(RawBody, Tally(2, 1, 2, 1));
    assert MintBlock(RawCard, Tally(1, 1, 1, 1)) == (Card, Tally(2, 2, 2, 2));
    MintBlocksOne(RawCard, Tally(1, 1, 1, 1));
    assert MintSlot(RawItems, Tally(1, 0, 1, 0)) == (Items, Tally(2, 2, 2, 2));
    MintSlotsOne(RawItems, Tally(1, 0, 1, 0));
    assert MintBlock(RawCards, Tally(0, 0, 0, 0)) == (Cards, Tally(2, 2, 2, 2));
    MintBlocksOne(RawCards, Tally(0, 0, 0, 0));
  }

  lemma NestedWalks()
    ensures CollectedBlocks([Cards]) == [BlockEntry(Cards), SlotEntry(Items), BlockEntry(Card)]
    ensures FlatBlocks([Cards]) == [BlockEntry(Cards), SlotEntry(Items), BlockEntry(Card), SlotEntry(Body)]
  {
    FlatOne(Cards, Items);
    FlatOne(Card, Body);
    assert Shallow([Card]) == [BlockEntry(Card)];
    assert CollectedSlot(Items) == [SlotEntry(Items), BlockEntry(Card)];
    assert FlatSlot(Body) == [SlotEntry(Body)];
    assert FlatBlock(Card) == [BlockEntry(Card), SlotEntry(Body)];
    assert FlatSlot(Items) == [SlotEntry(Items), BlockEntry(Card), SlotEntry(Body)];
  }

  /** The id pass stamps "slot-1" on the inner block's slot, and the tree
      lists it, but the panel's lookup never reaches it: a click on that
      tree item highlights nothing. */
  lemma NestedSlotIsMissed()
    ensures var bs := MintBlocks([RawCards], Tally(0, 0, 0, 0)).0;
      && FirstWithId(FlatBlocks(bs), "slot-1") == Some(4)
      && FirstWithId(CollectedBlocks(bs), "slot-1") == None
  {
    NestedMinted();
    NestedWalks();
    var es := FlatBlocks([Cards]);
    assert es[..3] == CollectedBlocks([Cards]);
    IndexWithIdUnique(es, "slot-1", 3);
  }

  // ---------------------------------------------------------------------
  // Lookup and collection over the whole tree
  // ---------------------------------------------------------------------

  /** _findElementById, corrected to descend into the blocks nested in a
      slot: the element of the first entry carrying the id in the id
      pass's own order, so every id the scan stamps is found. */
  method FindElementByIdDeep(itemId: string, blocks: seq<BlockNode>) returns (r: Option<nat>)
    ensures r == FirstWithId(FlatBlocks(blocks), itemId)
    decreases blocks
  {
    var i := 0;
    while i < |blocks|
      invariant 0 <= i <= |blocks|
      invariant NoId(FlatBlocks(blocks[..i]), itemId)
    {
      var block := blocks[i];
      FirstInFlatBlocks(blocks, i, itemId);
      FirstOfParts([BlockEntry(block)], FlatSlots(block.slots), FlatBlocks(block.children), itemId);
      if block.id == Some(itemId) {
        return Some(block.element);
      }
      var j := 0;
      while j < |block.slots|
        invariant 0 <= j <= |block.slots|
        invariant NoId(FlatSlots(block.slots[..j]), itemId)
      {
        FirstInFlatSlots(block.slots, j, itemId);
        var found := FindInSlotDeep(itemId, block.slots[j]);
        if found.Some? {
          return found;
        }
        j := j + 1;
      }
      assert block.slots[..j] == block.slots;
      var found := FindElementByIdDeep(itemId, block.children);
      if found.Some? {
        return found;
      }
      i := i + 1;
    }
    assert blocks[..i] == blocks;
    return None;
  }

  /** _findInSlot, corrected: a nested block is searched with its slots
      and child blocks. */
  method FindInSlotDeep(itemId: string, slot: SlotNode) returns (r: Option<nat>)
    ensures r == FirstWithId(FlatSlot(slot), itemId)
    decreases slot
  {
    FirstOfParts([SlotEntry(slot)], FlatSlots(slot.childSlots), FlatBlocks(slot.children), itemId);
    if slot.id == Some(itemId) {
      return Some(slot.element);
    }
    r := FindInChildSlotsDeep(itemId, slot.childSlots);
    if r.None? {
      r := FindElementByIdDeep(itemId, slot.children);
    }
  }

  /** The loop of the corrected _findInSlot over `slot.childSlots`. */
  method FindInChildSlotsDeep(itemId: string, slots: seq<SlotNode>) returns (r: Option<nat>)
    ensures r == FirstWithId(FlatSlots(slots), itemId)
    decreases slots
  {
    var j := 0;
    while j < |slots|
      invariant 0 <= j <= |slots|
      invariant NoId(FlatSlots(slots[..j]), itemId)
    {
      FirstInFlatSlots(slots, j, itemId);
      var found := FindInSlotDeep(itemId, slots[j]);
      if found.Some? {
        return found;
      }
      j := j + 1;
    }
    assert slots[..j] == slots;
    return None;
  }

  /** _collectAllIds, corrected: every entry of the tree, in the id
      pass's order, so "show all" reaches every item the tree lists. */
  method CollectAllIdsDeep(blocks: seq<BlockNode>, result: seq<Entry>) returns (r: seq<Entry>)
    ensures r == result + FlatBlocks(blocks)
    decreases blocks
  {
    r := result;
    var i := 0;
    while i < |blocks|
      invariant 0 <= i <= |blocks|
      invariant r == result + FlatBlocks(blocks[..i])
    {
      var block := blocks[i];
      ghost var before := r;
      r := r + [BlockEntry(block)];
      var j := 0;
      while j < |block.slots|
        invariant 0 <= j <= |block.slots|
        invariant r == before + ([BlockEntry(block)] + FlatSlots(block.slots[..j]))
      {
        r := CollectSlotIdsDeep(block.slots[j], r);
        FlatSlotsSnoc(block.slots[..j], block.slots[j]);
        assert block.slots[..j + 1] == block.slots[..j] + [block.slots[j]];
        Assoc(before, [BlockEntry(block)] + FlatSlots(block.slots[..j]), FlatSlot(block.slots[j]));
        Assoc([BlockEntry(block)], FlatSlots(block.slots[..j]), FlatSlot(block.slots[j]));
        j := j + 1;
      }
      assert block.slots[..j] == block.slots;
      r := CollectAllIdsDeep(block.children, r);
      Assoc(before, [BlockEntry(block)] + FlatSlots(block.slots), FlatBlocks(block.children));
      FlatBlocksSnoc(blocks[..i], block);
      assert blocks[..i + 1] == blocks[..i] + [block];
      Assoc(result, FlatBlocks(blocks[..i]), FlatBlock(block));
      i := i + 1;
    }
    assert blocks[..i] == blocks;
  }

  /** _collectSlotIds, corrected: nested blocks contribute their subtrees. */
  method CollectSlotIdsDeep(slot: SlotNode, result: seq<Entry>) returns (r: seq<Entry>)
    ensures r == result + FlatSlot(slot)
    decreases slot
  {
    r := result + [SlotEntry(slot)];
    var j := 0;
    while j < |slot.childSlots|
      invariant 0 <= j <= |slot.childSlots|
      invariant r == result + ([SlotEntry(slot)] + FlatSlots(slot.childSlots[..j]))
    {
      r := CollectSlotIdsDeep(slot.childSlots[j], r);
      FlatSlotsSnoc(slot.childSlots[..j], slot.childSlots[j]);
      assert slot.childSlots[..j + 1] == slot.childSlots[..j] + [slot.childSlots[j]];
      Assoc(result, [SlotEntry(slot)] + FlatSlots(slot.childSlots[..j]), FlatSlot(slot.childSlots[j]));
      Assoc([SlotEntry(slot)], FlatSlots(slot.childSlots[..j]), FlatSlot(slot.childSlots[j]));
      j := j + 1;
    }
    assert slot.childSlots[..j] == slot.childSlots;
    r := CollectAllIdsDeep(slot.children, r);
    Assoc(result, [SlotEntry(slot)] + FlatSlots(slot.childSlots), FlatBlocks(slot.children));
  }
}
