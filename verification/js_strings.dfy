/** The JavaScript string primitives the client relies on, stated over
    `seq<char>`: `trim`, the regular-expression class `\s`, `startsWith`,
    `endsWith`, `includes`, `toLowerCase`, `substring` and `split`. */
module JsStrings {

  /** The characters `String.prototype.trim` strips and the class `\s` matches:
      the ECMAScript WhiteSpace and LineTerminator code points. */
  predicate IsWhitespace(c: char) {
    || c == '\t' || c == '\n' || c == '\U{000B}' || c == '\U{000C}' || c == '\r' || c == ' '
    || c == '\U{00A0}' || c == '\U{1680}' || ('\U{2000}' <= c <= '\U{200A}')
    || c == '\U{2028}' || c == '\U{2029}' || c == '\U{202F}' || c == '\U{205F}'
    || c == '\U{3000}' || c == '\U{FEFF}'
  }

  predicate AllWhitespace(s: string) {
    forall i :: 0 <= i < |s| ==> IsWhitespace(s[i])
  }

  /** Neither end of `s` is whitespace. */
  predicate IsTrimmed(s: string) {
    s == [] || (!IsWhitespace(s[0]) && !IsWhitespace(s[|s| - 1]))
  }

  /** `core` sits at offset `k` of `s` with nothing but whitespace around it. */
  predicate PaddedAt(s: string, core: string, k: nat) {
    && k + |core| <= |s|
    && s[k..k + |core|] == core
    && AllWhitespace(s[..k])
    && AllWhitespace(s[k + |core|..])
  }

  /** `s` without its leading whitespace. */
  function TrimStart(s: string): (r: string)
    ensures |r| <= |s|
  {
    if s != [] && IsWhitespace(s[0]) then TrimStart(s[1..]) else s
  }

  /** `TrimStart` drops exactly the leading run of whitespace. */
  lemma {:induction false} TrimStartDrops(s: string)
    ensures var r := TrimStart(s);
      && r == s[|s| - |r|..]
      && AllWhitespace(s[..|s| - |r|])
      && (r == [] || !IsWhitespace(r[0]))
  {
    if s != [] && IsWhitespace(s[0]) {
      TrimStartDrops(s[1..]);
      var r := TrimStart(s);
      assert s[1..][|s| - 1 - |r|..] == s[|s| - |r|..];
      assert s[..|s| - |r|] == [s[0]] + s[1..][..|s| - 1 - |r|];
      WhitespaceConcat([s[0]], s[1..][..|s| - 1 - |r|]);
    }
  }

  /** `s` without its trailing whitespace. */
  function TrimEnd(s: string): (r: string)
    ensures |r| <= |s|
  {
    if s != [] && IsWhitespace(s[|s| - 1]) then TrimEnd(s[..|s| - 1]) else s
  }

  /** `TrimEnd` drops exactly the trailing run of whitespace. */
  lemma {:induction false} TrimEndDrops(s: string)
    ensures var r := TrimEnd(s);
      && r == s[..|r|]
      && AllWhitespace(s[|r|..])
      && (r == [] || !IsWhitespace(r[|r| - 1]))
  {
    if s != [] && IsWhitespace(s[|s| - 1]) {
      TrimEndDrops(s[..|s| - 1]);
      var r := TrimEnd(s);
      assert s[..|s| - 1][..|r|] == s[..|r|];
      assert s[|r|..] == s[..|s| - 1][|r|..] + [s[|s| - 1]];
      WhitespaceConcat(s[..|s| - 1][|r|..], [s[|s| - 1]]);
    }
  }

  /** `String.prototype.trim`: the part of `s` between its leading and its
      trailing whitespace. */
  function Trim(s: string): (r: string)
    ensures |r| <= |s|
    ensures IsTrimmed(r)
    ensures r == [] <==> AllWhitespace(s)
  {
    var t := TrimStart(s);
    var r := TrimEnd(t);
    TrimStartDrops(s);
    TrimEndDrops(t);
    EmptyTrimIsWhitespace(s, t, r, |s| - |t|);
    assert r == [] || r[0] == t[0];
    r
  }

  /** `!text.trim()`: the text is empty once trimmed. */
  predicate IsBlank(text: string) {
    Trim(text) == ""
  }

  /** What `trim` returns sits in `s` with only whitespace around it. */
  lemma TrimIsPadded(s: string)
    ensures PaddedAt(s, Trim(s), |s| - |TrimStart(s)|)
  {
    var t := TrimStart(s);
    var r := TrimEnd(t);
    var k := |s| - |t|;
    TrimStartDrops(s);
    TrimEndDrops(t);
    PaddedOfRuns(s, t, r, k);
  }

  /** A string cut after a whitespace prefix, and cut again before a
      whitespace suffix, leaves a padded core. */
  lemma PaddedOfRuns(s: string, t: string, r: string, k: nat)
    requires k <= |s| && t == s[k..] && AllWhitespace(s[..k])
    requires |r| <= |t| && r == t[..|r|] && AllWhitespace(t[|r|..])
    ensures PaddedAt(s, r, k)
  {
    assert s[k..k + |r|] == r;
    assert s[k + |r|..] == t[|r|..];
  }

  /** The two halves of `r == [] <==> AllWhitespace(s)` for `Trim`. */
  lemma EmptyTrimIsWhitespace(s: string, t: string, r: string, k: nat)
    requires k <= |s| && t == s[k..] && AllWhitespace(s[..k]) && (t == [] || !IsWhitespace(t[0]))
    requires |r| <= |t| && r == t[..|r|] && AllWhitespace(t[|r|..])
    ensures r == [] <==> AllWhitespace(s)
  {
    if r == [] {
      assert t[|r|..] == t;
      assert s[..k] == s;
    } else {
      assert t[0] == s[k];
    }
  }

  /** Two offsets that both end a whitespace-only prefix followed by a
      non-whitespace character are the same offset. */
  lemma LeadingRunUnique(s: string, k1: nat, k2: nat)
    requires k1 < |s| && AllWhitespace(s[..k1]) && !IsWhitespace(s[k1])
    requires k2 < |s| && AllWhitespace(s[..k2]) && !IsWhitespace(s[k2])
    ensures k1 == k2
  {
  }

  /** Two offsets that both start a whitespace-only suffix preceded by a
      non-whitespace character are the same offset. */
  lemma TrailingRunUnique(s: string, e1: nat, e2: nat)
    requires 0 < e1 <= |s| && AllWhitespace(s[e1..]) && !IsWhitespace(s[e1 - 1])
    requires 0 < e2 <= |s| && AllWhitespace(s[e2..]) && !IsWhitespace(s[e2 - 1])
    ensures e1 == e2
  {
  }

  /** Trimming is determined by the padding: a trimmed core with only
      whitespace around it is what `trim` returns. */
  lemma TrimOfPadded(s: string, core: string, k: nat)
    requires PaddedAt(s, core, k) && IsTrimmed(core)
    ensures Trim(s) == core
  {
    var r := Trim(s);
    var k' := |s| - |TrimStart(s)|;
    TrimIsPadded(s);
    if core == [] {
      forall i | 0 <= i < |s| ensures IsWhitespace(s[i]) {
        if i < k { assert s[..k][i] == s[i]; } else { assert s[k..][i - k] == s[i]; }
      }
    } else {
      assert s[k..k + |core|][0] == s[k] && s[k..k + |core|][|core| - 1] == s[k + |core| - 1];
      assert r != [];
      assert s[k'..k' + |r|][0] == s[k'] && s[k'..k' + |r|][|r| - 1] == s[k' + |r| - 1];
      LeadingRunUnique(s, k, k');
      TrailingRunUnique(s, k + |core|, k' + |r|);
    }
  }

  /** Whitespace added around a string does not change what `trim` returns. */
  lemma TrimIgnoresPadding(a: string, x: string, b: string)
    requires AllWhitespace(a) && AllWhitespace(b)
    ensures Trim(a + x + b) == Trim(x)
  {
    var c := Trim(x);
    var k := |x| - |TrimStart(x)|;
    TrimIsPadded(x);
    var s := a + x + b;
    PaddedWiden(a, x, b, c, k);
    TrimOfPadded(s, c, |a| + k);
  }

  /** Padding a padded string with more whitespace keeps it padded. */
  lemma PaddedWiden(a: string, x: string, b: string, c: string, k: nat)
    requires AllWhitespace(a) && AllWhitespace(b) && PaddedAt(x, c, k)
    ensures PaddedAt(a + x + b, c, |a| + k)
  {
    var s := a + x + b;
    assert s[|a| + k..|a| + k + |c|] == x[k..k + |c|];
    assert s[..|a| + k] == a + x[..k];
    assert s[|a| + k + |c|..] == x[k + |c|..] + b;
    WhitespaceConcat(a, x[..k]);
    WhitespaceConcat(x[k + |c|..], b);
  }

  lemma WhitespaceConcat(u: string, v: string)
    requires AllWhitespace(u) && AllWhitespace(v)
    ensures AllWhitespace(u + v)
  {
    forall i | 0 <= i < |u + v| ensures IsWhitespace((u + v)[i]) {
      if i >= |u| { assert (u + v)[i] == v[i - |u|]; }
    }
  }

  /** A string that is already trimmed is its own `trim`. */
  lemma TrimOfTrimmed(s: string)
    requires IsTrimmed(s)
    ensures Trim(s) == s
  {
    assert s[..0] == [] && s[|s|..] == [];
    TrimOfPadded(s, s, 0);
  }

  predicate StartsWith(s: string, prefix: string) {
    |prefix| <= |s| && s[..|prefix|] == prefix
  }

  predicate EndsWith(s: string, suffix: string) {
    |suffix| <= |s| && s[|s| - |suffix|..] == suffix
  }

  /** `String.prototype.includes`. */
  predicate Includes(s: string, needle: string) {
    exists i: nat | i <= |s| :: OccursAt(s, needle, i)
  }

  /** `needle` appears in `s` starting at offset `i`. */
  predicate OccursAt(s: string, needle: string, i: nat) {
    i + |needle| <= |s| && s[i..i + |needle|] == needle
  }

  /** `toLowerCase` on one character. Only the ASCII capitals and the KELVIN
      SIGN (the one character outside ASCII whose lower case is a single
      ASCII letter, 'k') are mapped; every other character is kept. The
      only other character whose lower case contains an ASCII letter is
      U+0130, which lowers to 'i' followed by U+0307; that pair is not
      modelled. */
  function LowerChar(c: char): char {
    if 'A' <= c <= 'Z' then (c as int + 32) as char
    else if c == '\U{212A}' then 'k'
    else c
  }

  /** `String.prototype.toLowerCase`, character by character. */
  function ToLowerCase(s: string): (r: string)
    ensures |r| == |s|
    ensures forall i | 0 <= i < |s| :: 'A' <= s[i] <= 'Z' ==> r[i] as int == s[i] as int + 32
    ensures forall i | 0 <= i < |s| :: s[i] == '\U{212A}' ==> r[i] == 'k'
    ensures forall i | 0 <= i < |s| :: !('A' <= s[i] <= 'Z') && s[i] != '\U{212A}' ==> r[i] == s[i]
    ensures forall i | 0 <= i < |r| :: !('A' <= r[i] <= 'Z') && r[i] != '\U{212A}'
  {
    seq(|s|, i requires 0 <= i < |s| => LowerChar(s[i]))
  }

  /** Lower-casing twice is lower-casing once. */
  lemma {:induction false} ToLowerCaseIdempotent(s: string)
    ensures ToLowerCase(ToLowerCase(s)) == ToLowerCase(s)
  {
    var r := ToLowerCase(s);
    forall i | 0 <= i < |r|
      ensures ToLowerCase(r)[i] == r[i]
    {
      assert !('A' <= r[i] <= 'Z') && r[i] != '\U{212A}';
    }
  }

  /** Lower-casing keeps every occurrence: a string that includes a needle
      in any case includes its lower-case form once lowered. */
  lemma IncludesLowered(s: string, needle: string)
    requires Includes(s, needle)
    ensures Includes(ToLowerCase(s), ToLowerCase(needle))
  {
    var i: nat :| i <= |s| && OccursAt(s, needle, i);
    var l := ToLowerCase(s);
    assert l[i..i + |needle|] == ToLowerCase(needle);
    assert OccursAt(l, ToLowerCase(needle), i);
  }

  /** An offset as `substring` reads it: clamped into [0, len]. */
  function Clamp(x: int, len: nat): (r: nat)
    ensures r <= len
    ensures 0 <= x <= len ==> r == x
    ensures x < 0 ==> r == 0
    ensures x > len ==> r == len
  {
    if x < 0 then 0 else if x > len then len else x
  }

  /** `String.prototype.substring(start, end)`: both offsets clamped into the
      string, and swapped when `start` exceeds `end`. */
  function Substring(s: string, start: int, end: int): (r: string)
    ensures |r| <= |s|
    ensures 0 <= start <= end <= |s| ==> r == s[start..end]
    ensures 0 <= end <= start <= |s| ==> r == s[end..start]
  {
    var a, b := Clamp(start, |s|), Clamp(end, |s|);
    if a <= b then s[a..b] else s[b..a]
  }

  /** Cutting a string at two ordered (clamped) offsets and gluing the three
      pieces back gives the string again. */
  lemma SubstringPiecesJoin(s: string, a: int, b: int)
    requires Clamp(a, |s|) <= Clamp(b, |s|)
    ensures Substring(s, 0, a) + Substring(s, a, b) + Substring(s, b, |s|) == s
  {
    var a', b' := Clamp(a, |s|), Clamp(b, |s|);
    assert s[..a'] + s[a'..b'] + s[b'..] == s;
  }

  /** The string of `parts` with `sep` between consecutive parts
      (`Array.prototype.join`). */
  function Join(parts: seq<string>, sep: char): string {
    if |parts| == 0 then ""
    else if |parts| == 1 then parts[0]
    else parts[0] + [sep] + Join(parts[1..], sep)
  }

  /** `String.prototype.split` with a one-character separator: the maximal
      separator-free pieces, in order. */
  function Split(s: string, sep: char): (parts: seq<string>)
    ensures |parts| >= 1
    ensures forall k :: 0 <= k < |parts| ==> sep !in parts[k]
    ensures Join(parts, sep) == s
  {
    if s == [] then [""]
    else
      var rest := Split(s[1..], sep);
      if s[0] == sep then
        var parts := [""] + rest;
        assert parts[1..] == rest;
        assert s == [sep] + s[1..];
        parts
      else
        var parts := [[s[0]] + rest[0]] + rest[1..];
        assert s == [s[0]] + s[1..];
        assert parts[1..] == rest[1..];
        assert |rest| > 1 ==> Join(rest, sep) == rest[0] + [sep] + Join(rest[1..], sep);
        parts
  }

  /** Splitting text that starts with a separator-free piece `h` puts `h` in
      front of the first piece of the rest. */
  lemma {:induction false} SplitAfterPlainPrefix(h: string, rest: string, sep: char)
    requires sep !in h
    ensures Split(h + rest, sep) == [h + Split(rest, sep)[0]] + Split(rest, sep)[1..]
  {
    if h == [] {
      assert h + rest == rest;
      var parts := Split(rest, sep);
      assert h + parts[0] == parts[0];
      assert parts == [parts[0]] + parts[1..];
    } else {
      assert (h + rest)[1..] == h[1..] + rest;
      assert h[0] != sep;
      SplitAfterPlainPrefix(h[1..], rest, sep);
      assert [h[0]] + (h[1..] + Split(rest, sep)[0]) == h + Split(rest, sep)[0];
    }
  }

  /** A leading separator opens an empty first piece. */
  lemma SplitAfterSeparator(tail: string, sep: char)
    ensures Split([sep] + tail, sep) == [""] + Split(tail, sep)
  {
    assert ([sep] + tail)[1..] == tail;
  }

  /** Splitting is the inverse of joining separator-free pieces. */
  lemma {:induction false} SplitJoin(parts: seq<string>, sep: char)
    requires |parts| >= 1
    requires forall k :: 0 <= k < |parts| ==> sep !in parts[k]
    ensures Split(Join(parts, sep), sep) == parts
  {
    if |parts| == 1 {
      SplitAfterPlainPrefix(parts[0], "", sep);
      assert parts[0] + "" == parts[0];
    } else {
      var tail := Join(parts[1..], sep);
      SplitJoin(parts[1..], sep);
      JoinCons(parts, sep);
      SplitConsJoin(parts[0], tail, parts[1..], sep);
      assert parts == [parts[0]] + parts[1..];
    }
  }

  /** Joining two or more pieces puts the separator after the first. */
  lemma JoinCons(parts: seq<string>, sep: char)
    requires |parts| >= 2
    ensures Join(parts, sep) == parts[0] + ([sep] + Join(parts[1..], sep))
  {
  }

  /** A separator-free head, a separator and a tail that splits into `rest`
      split into the head followed by `rest`. */
  lemma SplitConsJoin(h: string, tail: string, rest: seq<string>, sep: char)
    requires sep !in h
    requires Split(tail, sep) == rest
    ensures Split(h + ([sep] + tail), sep) == [h] + rest
  {
    SplitAfterSeparator(tail, sep);
    SplitAfterPlainPrefix(h, [sep] + tail, sep);
    assert h + "" == h;
  }
}
