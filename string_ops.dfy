/**
 * The JavaScript string builtins that the ontology index relies on, written
 * out on `seq<char>`: `toLowerCase` (ASCII letters only), `trim`,
 * `split` on a one-character separator, `indexOf`, and the decimal rendering
 * of an integer inside a template literal.
 */
module StringOps {

  /** The characters `String.prototype.trim` removes: white space and line terminators. */
  predicate IsWhitespace(c: char) {
    || c == '\t' || c == '\n' || c == '\U{000B}' || c == '\U{000C}' || c == '\r' || c == ' '
    || c == '\U{00A0}' || c == '\U{1680}' || ('\U{2000}' <= c <= '\U{200A}')
    || c == '\U{2028}' || c == '\U{2029}' || c == '\U{202F}' || c == '\U{205F}'
    || c == '\U{3000}' || c == '\U{FEFF}'
  }

  ghost predicate AllWhitespace(s: string) {
    forall i :: 0 <= i < |s| ==> IsWhitespace(s[i])
  }

  predicate IsUpper(c: char) {
    'A' <= c <= 'Z'
  }

  function LowerChar(c: char): (r: char)
    ensures !IsUpper(r)
    ensures IsWhitespace(r) <==> IsWhitespace(c)
  {
    if IsUpper(c) then (c as int + 32) as char else c
  }

  /** `s.toLowerCase()`, restricted to ASCII letters. */
  function Lower(s: string): (r: string)
    ensures |r| == |s|
    ensures forall i :: 0 <= i < |s| ==> r[i] == LowerChar(s[i])
  {
    seq(|s|, i requires 0 <= i < |s| => LowerChar(s[i]))
  }

  /** Drops leading white space. */
  function TrimStart(s: string): string {
    if s != [] && IsWhitespace(s[0]) then TrimStart(s[1..]) else s
  }

  /** Drops trailing white space. */
  function TrimEnd(s: string): string {
    if s != [] && IsWhitespace(s[|s| - 1]) then TrimEnd(s[..|s| - 1]) else s
  }

  /** `s.trim()`: white space removed at both ends. */
  function Trim(s: string): string {
    TrimEnd(TrimStart(s))
  }

  /** The key normalisation of the index: `s.toLowerCase().trim()`. */
  function Normalize(s: string): string {
    Trim(Lower(s))
  }

  /** `TrimStart` keeps a suffix, drops only white space, and leaves no white space in front. */
  lemma {:induction false} TrimStartShape(s: string)
    ensures var r := TrimStart(s);
      && |r| <= |s| && r == s[|s| - |r|..]
      && AllWhitespace(s[..|s| - |r|])
      && (r != [] ==> !IsWhitespace(r[0]))
    decreases |s|
  {
    if s != [] && IsWhitespace(s[0]) {
      TrimStartShape(s[1..]);
      var r := TrimStart(s[1..]);
      assert s[..|s| - |r|] == [s[0]] + s[1..][..|s| - 1 - |r|];
    }
  }

  /** `TrimEnd` keeps a prefix, drops only white space, and leaves no white space at the end. */
  lemma {:induction false} TrimEndShape(s: string)
    ensures var r := TrimEnd(s);
      && |r| <= |s| && r == s[..|r|]
      && AllWhitespace(s[|r|..])
      && (r != [] ==> !IsWhitespace(r[|r| - 1]))
    decreases |s|
  {
    if s != [] && IsWhitespace(s[|s| - 1]) {
      TrimEndShape(s[..|s| - 1]);
      var r := TrimEnd(s[..|s| - 1]);
      assert s[|r|..] == s[..|s| - 1][|r|..] + [s[|s| - 1]];
    }
  }

  /** `s` with white space around `s[i..j]` only. */
  ghost predicate StripsTo(s: string, r: string) {
    exists i, j :: 0 <= i <= j <= |s| && r == s[i..j] && AllWhitespace(s[..i]) && AllWhitespace(s[j..])
  }

  /** `Trim` removes white space at the ends and nothing else, and leaves none at either end. */
  lemma TrimShape(s: string)
    ensures StripsTo(s, Trim(s))
    ensures var r := Trim(s); r != [] ==> !IsWhitespace(r[0]) && !IsWhitespace(r[|r| - 1])
  {
    TrimStartShape(s);
    var t := TrimStart(s);
    TrimEndShape(t);
    var r := TrimEnd(t);
    var i := |s| - |t|;
    assert r == s[i..i + |r|];
    assert s[i + |r|..] == t[|r|..];
  }

  lemma {:induction false} TrimStartOfTrimmed(s: string)
    requires s == [] || !IsWhitespace(s[0])
    ensures TrimStart(s) == s
  {
  }

  lemma {:induction false} TrimEndOfTrimmed(s: string)
    requires s == [] || !IsWhitespace(s[|s| - 1])
    ensures TrimEnd(s) == s
  {
  }

  lemma TrimIdempotent(s: string)
    ensures Trim(Trim(s)) == Trim(s)
  {
    var r := Trim(s);
    TrimShape(s);
    TrimStartOfTrimmed(r);
    TrimEndOfTrimmed(r);
  }

  lemma LowerIdempotent(s: string)
    ensures Lower(Lower(s)) == Lower(s)
  {
  }

  lemma {:induction false} LowerTrimStart(s: string)
    ensures Lower(TrimStart(s)) == TrimStart(Lower(s))
    decreases |s|
  {
    if s != [] && IsWhitespace(s[0]) {
      assert Lower(s)[1..] == Lower(s[1..]);
      LowerTrimStart(s[1..]);
    } else {
      assert Lower(s) == [] || !IsWhitespace(Lower(s)[0]);
    }
  }

  lemma {:induction false} LowerTrimEnd(s: string)
    ensures Lower(TrimEnd(s)) == TrimEnd(Lower(s))
    decreases |s|
  {
    if s != [] && IsWhitespace(s[|s| - 1]) {
      assert Lower(s)[..|s| - 1] == Lower(s[..|s| - 1]);
      LowerTrimEnd(s[..|s| - 1]);
    } else {
      assert Lower(s) == [] || !IsWhitespace(Lower(s)[|s| - 1]);
    }
  }

  /** Lowering case and trimming commute, since neither touches what the other looks at. */
  lemma LowerTrimCommute(s: string)
    ensures Lower(Trim(s)) == Trim(Lower(s))
  {
    LowerTrimEnd(TrimStart(s));
    LowerTrimStart(s);
  }

  /** A normalised key normalises to itself. */
  lemma NormalizeIdempotent(s: string)
    ensures Normalize(Normalize(s)) == Normalize(s)
  {
    calc {
      Normalize(Normalize(s));
      Trim(Lower(Trim(Lower(s))));
      { LowerTrimCommute(Lower(s)); }
      Trim(Trim(Lower(Lower(s))));
      { LowerIdempotent(s); TrimIdempotent(Lower(s)); }
      Trim(Lower(s));
    }
  }

  /** A normalised key is already in lower case. */
  lemma LowerOfNormalized(s: string)
    ensures Lower(Normalize(s)) == Normalize(s)
  {
    LowerTrimCommute(Lower(s));
    LowerIdempotent(s);
  }

  /** A string without upper-case letters is its own lower case. */
  lemma LowerOfNoUpper(s: string)
    requires forall k :: 0 <= k < |s| ==> !IsUpper(s[k])
    ensures Lower(s) == s
  {
  }

  /** Lower-casing works character by character, so it distributes over concatenation. */
  lemma LowerAppend(a: string, b: string)
    ensures Lower(a + b) == Lower(a) + Lower(b)
  {
  }

  /** A string with no white space at either end is its own trim. */
  lemma TrimOfUnpadded(s: string)
    requires s != [] && !IsWhitespace(s[0]) && !IsWhitespace(s[|s| - 1])
    ensures Trim(s) == s
  {
    assert TrimStart(s) == s;
    assert TrimEnd(s) == s;
  }

  /** Lowering the case first does not change the normalised key. */
  lemma NormalizeLower(s: string)
    ensures Normalize(Lower(s)) == Normalize(s)
  {
    LowerIdempotent(s);
  }

  lemma {:induction false} TrimStartSkipsPadding(w: string, s: string)
    requires AllWhitespace(w)
    ensures TrimStart(w + s) == TrimStart(s)
    decreases |w|
  {
    if w != [] {
      assert (w + s)[1..] == w[1..] + s;
      TrimStartSkipsPadding(w[1..], s);
    } else {
      assert w + s == s;
    }
  }

  lemma {:induction false} TrimEndSkipsPadding(s: string, w: string)
    requires AllWhitespace(w)
    ensures TrimEnd(s + w) == TrimEnd(s)
    decreases |w|
  {
    if w != [] {
      assert (s + w)[..|s + w| - 1] == s + w[..|w| - 1];
      TrimEndSkipsPadding(s, w[..|w| - 1]);
    } else {
      assert s + w == s;
    }
  }

  lemma {:induction false} TrimStartOfPadding(w: string)
    requires AllWhitespace(w)
    ensures TrimStart(w) == []
    decreases |w|
  {
    if w != [] {
      TrimStartOfPadding(w[1..]);
    }
  }

  lemma {:induction false} TrimEndOfPadding(w: string)
    requires AllWhitespace(w)
    ensures TrimEnd(w) == []
    decreases |w|
  {
    if w != [] {
      TrimEndOfPadding(w[..|w| - 1]);
    }
  }

  /** Trailing white space survives `TrimStart` unless nothing else is left. */
  lemma {:induction false} TrimStartThenPadding(s: string, w: string)
    requires AllWhitespace(w)
    ensures TrimStart(s + w) == TrimStart(s) + w || (TrimStart(s) == [] && AllWhitespace(TrimStart(s + w)))
    decreases |s|
  {
    if s == [] {
      assert s + w == w;
      TrimStartOfPadding(w);
    } else if IsWhitespace(s[0]) {
      assert (s + w)[1..] == s[1..] + w;
      TrimStartThenPadding(s[1..], w);
    } else {
      assert (s + w)[0] == s[0];
    }
  }

  /** White space around a key does not change its trimmed form. */
  lemma TrimIgnoresPadding(w1: string, s: string, w2: string)
    requires AllWhitespace(w1) && AllWhitespace(w2)
    ensures Trim(w1 + s + w2) == Trim(s)
  {
    assert w1 + s + w2 == w1 + (s + w2);
    TrimStartSkipsPadding(w1, s + w2);
    TrimStartThenPadding(s, w2);
    var t := TrimStart(s + w2);
    if t == TrimStart(s) + w2 {
      TrimEndSkipsPadding(TrimStart(s), w2);
    } else {
      TrimEndOfPadding(t);
      var u := TrimStart(s);
      assert u == [];
      assert TrimEnd(u) == [];
    }
  }

  lemma LowerOfPadding(w: string)
    requires AllWhitespace(w)
    ensures Lower(w) == w
  {
  }

  /** Normalisation ignores white space around the key. */
  lemma NormalizeIgnoresPadding(w1: string, s: string, w2: string)
    requires AllWhitespace(w1) && AllWhitespace(w2)
    ensures Normalize(w1 + s + w2) == Normalize(s)
  {
    LowerOfPadding(w1);
    LowerOfPadding(w2);
    assert Lower(w1 + s + w2) == Lower(w1) + Lower(s) + Lower(w2);
    TrimIgnoresPadding(w1, Lower(s), w2);
  }

  /** `s.split(sep)` for a one-character separator; every separator ends a part, so "" splits into [""]. */
  function Split(s: string, sep: char): (parts: seq<string>)
    ensures |parts| >= 1
    decreases |s|
  {
    if s == [] then [""]
    else
      var rest := Split(s[1..], sep);
      if s[0] == sep then [""] + rest else [[s[0]] + rest[0]] + rest[1..]
  }

  /** No part of a split holds the separator. */
  lemma {:induction false} SplitPartsWithoutSeparator(s: string, sep: char)
    ensures forall i :: 0 <= i < |Split(s, sep)| ==> sep !in Split(s, sep)[i]
    decreases |s|
  {
    if s != [] {
      SplitPartsWithoutSeparator(s[1..], sep);
      var rest := Split(s[1..], sep);
      if s[0] != sep {
        var parts := Split(s, sep);
        forall i | 0 <= i < |parts| ensures sep !in parts[i] {
          if i == 0 {
            assert parts[0] == [s[0]] + rest[0];
          } else {
            assert parts[i] == rest[i];
          }
        }
      }
    }
  }

  /** `parts.join(sep)`, the inverse of `Split`. */
  function Join(parts: seq<string>, sep: char): string
    decreases |parts|
  {
    if parts == [] then ""
    else if |parts| == 1 then parts[0]
    else parts[0] + [sep] + Join(parts[1..], sep)
  }

  /** Splitting loses nothing: joining the parts back gives the original string. */
  lemma {:induction false} JoinSplit(s: string, sep: char)
    ensures Join(Split(s, sep), sep) == s
    decreases |s|
  {
    if s != [] {
      var rest := Split(s[1..], sep);
      JoinSplit(s[1..], sep);
      if s[0] == sep {
        assert Split(s, sep)[1..] == rest;
      } else {
        var parts := Split(s, sep);
        if |rest| == 1 {
          assert parts == [[s[0]] + rest[0]];
        } else {
          assert parts[1..] == rest[1..];
          assert Join(rest, sep) == rest[0] + [sep] + Join(rest[1..], sep);
        }
      }
    }
  }

  /** A separator at the end of the string produces one more, empty, part. */
  lemma {:induction false} SplitTrailingSeparator(s: string, sep: char)
    ensures Split(s + [sep], sep) == Split(s, sep) + [""]
    decreases |s|
  {
    if s == [] {
      assert [sep][1..] == [];
    } else {
      assert (s + [sep])[1..] == s[1..] + [sep];
      SplitTrailingSeparator(s[1..], sep);
    }
  }

  /** A leading separator starts a new, empty part. */
  lemma SplitConsSeparator(t: string, sep: char)
    ensures Split([sep] + t, sep) == [""] + Split(t, sep)
  {
    assert ([sep] + t)[1..] == t;
  }

  /** Any other leading character joins the first part. */
  lemma SplitConsOther(c: char, t: string, sep: char)
    requires c != sep
    ensures Split([c] + t, sep) == [[c] + Split(t, sep)[0]] + Split(t, sep)[1..]
  {
    assert ([c] + t)[0] == c && ([c] + t)[1..] == t;
  }

  /** Prepending to the first part commutes with appending more parts. */
  lemma ConsFirstPart(c: char, x: seq<string>, y: seq<string>)
    requires |x| >= 1
    ensures [[c] + (x + y)[0]] + (x + y)[1..] == ([[c] + x[0]] + x[1..]) + y
  {
    assert (x + y)[0] == x[0];
    assert (x + y)[1..] == x[1..] + y;
  }

  /** A separator between two strings splits them apart: the parts of the first, then those of the second. */
  lemma {:induction false} SplitAtSeparator(a: string, b: string, sep: char)
    ensures Split(a + [sep] + b, sep) == Split(a, sep) + Split(b, sep)
    decreases |a|
  {
    if a == [] {
      assert a + [sep] + b == [sep] + b;
      SplitConsSeparator(b, sep);
    } else {
      var c, rest := a[0], a[1..];
      var tail := rest + [sep] + b;
      assert a + [sep] + b == [c] + tail;
      assert a == [c] + rest;
      SplitAtSeparator(rest, b, sep);
      if c == sep {
        SplitConsSeparator(tail, sep);
        SplitConsSeparator(rest, sep);
      } else {
        SplitConsOther(c, tail, sep);
        SplitConsOther(c, rest, sep);
        ConsFirstPart(c, Split(rest, sep), Split(b, sep));
      }
    }
  }

  /** A string without the separator is a single part. */
  lemma {:induction false} SplitWithoutSeparator(s: string, sep: char)
    requires sep !in s
    ensures Split(s, sep) == [s]
    decreases |s|
  {
    if s != [] {
      assert sep !in s[1..];
      SplitWithoutSeparator(s[1..], sep);
      assert s == [s[0]] + s[1..];
    }
  }

  /** `needle` occurs in `hay` starting at position `k`. */
  predicate OccursAt(hay: string, needle: string, k: int) {
    0 <= k <= |hay| - |needle| && hay[k..k + |needle|] == needle
  }

  /** `needle` occurs in `hay`. */
  ghost predicate Contains(hay: string, needle: string) {
    exists k :: OccursAt(hay, needle, k)
  }

  function IndexOfFrom(hay: string, needle: string, from: nat): (r: int)
    ensures r == -1 || (from <= r && OccursAt(hay, needle, r))
    ensures r == -1 ==> forall k :: from <= k ==> !OccursAt(hay, needle, k)
    ensures r != -1 ==> forall k :: from <= k < r ==> !OccursAt(hay, needle, k)
    decreases |hay| - from
  {
    if from + |needle| > |hay| then -1
    else if OccursAt(hay, needle, from) then from
    else IndexOfFrom(hay, needle, from + 1)
  }

  /** `hay.indexOf(needle)`: the first position of `needle` in `hay`, or -1. */
  function IndexOf(hay: string, needle: string): (r: int)
    ensures r == -1 <==> !Contains(hay, needle)
    ensures r != -1 ==> OccursAt(hay, needle, r)
    ensures r != -1 ==> forall k :: 0 <= k < r ==> !OccursAt(hay, needle, k)
  {
    IndexOfFrom(hay, needle, 0)
  }

  /** The middle part of a concatenation occurs in it. */
  lemma ContainsInfix(a: string, b: string, c: string)
    ensures Contains(a + b + c, b)
  {
    assert (a + b + c)[|a|..|a| + |b|] == b;
    assert OccursAt(a + b + c, b, |a|);
  }

  /** Each of three strings joined by spaces occurs in the joined string. */
  lemma SpacedPartsOccur(x: string, y: string, z: string)
    ensures Contains(x + " " + y + " " + z, x)
    ensures Contains(x + " " + y + " " + z, y)
    ensures Contains(x + " " + y + " " + z, z)
  {
    var s := x + " " + y + " " + z;
    assert s == [] + x + (" " + y + " " + z);
    ContainsInfix([], x, " " + y + " " + z);
    assert s == (x + " ") + y + (" " + z);
    ContainsInfix(x + " ", y, " " + z);
    assert s == (x + " " + y + " ") + z + [];
    ContainsInfix(x + " " + y + " ", z, []);
  }

  /** Occurrence is transitive: what occurs in an infix of `a` occurs in `a`. */
  lemma ContainsTransitive(a: string, b: string, c: string)
    requires Contains(a, b) && Contains(b, c)
    ensures Contains(a, c)
  {
    var k :| OccursAt(a, b, k);
    var m :| OccursAt(b, c, m);
    forall j | 0 <= j < |c| ensures c[j] == a[k + m + j] {
      assert c[j] == b[m + j] == a[k..k + |b|][m + j];
    }
    assert a[k + m..k + m + |c|] == c;
    assert OccursAt(a, c, k + m);
  }

  /** Each part of a join occurs in the joined string. */
  lemma {:induction false} JoinPartsOccur(parts: seq<string>, sep: char)
    ensures forall i :: 0 <= i < |parts| ==> Contains(Join(parts, sep), parts[i])
    decreases |parts|
  {
    if |parts| == 1 {
      ContainsInfix([], parts[0], []);
      assert [] + parts[0] + [] == parts[0];
    } else if |parts| > 1 {
      var rest := Join(parts[1..], sep);
      JoinPartsOccur(parts[1..], sep);
      ContainsInfix([], parts[0], [sep] + rest);
      assert [] + parts[0] + ([sep] + rest) == Join(parts, sep);
      ContainsInfix(parts[0] + [sep], rest, []);
      assert parts[0] + [sep] + rest + [] == Join(parts, sep);
      forall i | 1 <= i < |parts| ensures Contains(Join(parts, sep), parts[i]) {
        assert parts[i] == parts[1..][i - 1];
        ContainsTransitive(Join(parts, sep), rest, parts[i]);
      }
    }
  }

  /** Each part of a split occurs in the split string. */
  lemma SplitPartsOccur(s: string, sep: char)
    ensures forall i :: 0 <= i < |Split(s, sep)| ==> Contains(s, Split(s, sep)[i])
  {
    JoinSplit(s, sep);
    JoinPartsOccur(Split(s, sep), sep);
  }

  /** A string already in lower case has only lower-case infixes. */
  lemma LowerFixedContained(s: string, t: string)
    requires Lower(s) == s && Contains(s, t)
    ensures Lower(t) == t
  {
    var k :| OccursAt(s, t, k);
    forall j | 0 <= j < |t| ensures Lower(t)[j] == t[j] {
      assert t[j] == s[k + j];
      assert Lower(s)[k + j] == LowerChar(s[k + j]);
    }
  }

  /** Of two equal strings ending in a space and a part, the longer part holds the other one's space. */
  lemma SpaceInLongerPart(a: string, t: string, b: string, u: string)
    requires a + " " + t == b + " " + u
    requires |t| < |u|
    ensures u[|u| - |t| - 1] == ' '
  {
    var s := a + " " + t;
    assert s[|s| - |t| - 1] == ' ';
    assert s[|s| - |t| - 1] == u[|u| - |t| - 1];
  }

  /** The text after the last space is determined: equal strings ending in a space-free part end in the same part. */
  lemma LastPartUnique(a: string, t: string, b: string, u: string)
    requires a + " " + t == b + " " + u
    requires ' ' !in t && ' ' !in u
    ensures t == u
  {
    if |t| < |u| {
      SpaceInLongerPart(a, t, b, u);
      assert false;
    } else if |u| < |t| {
      SpaceInLongerPart(b, u, a, t);
      assert false;
    }
    var s := a + " " + t;
    assert t == s[|s| - |t|..];
    assert u == s[|s| - |u|..];
  }

  /** The empty string is found at position 0 of every string. */
  lemma IndexOfEmpty(hay: string)
    ensures IndexOf(hay, "") == 0
  {
    assert hay[0..0] == "";
  }

  function DigitChar(d: nat): (c: char)
    requires d < 10
    ensures '0' <= c <= '9'
  {
    ('0' as int + d) as char
  }

  function NatToString(n: nat): (r: string)
    ensures |r| >= 1
    ensures forall i :: 0 <= i < |r| ==> '0' <= r[i] <= '9'
    decreases n
  {
    if n < 10 then [DigitChar(n)] else NatToString(n / 10) + [DigitChar(n % 10)]
  }

  /** The decimal text of an integer, as a template literal writes a number with no fraction. */
  function IntToString(i: int): (r: string)
    ensures |r| >= 1
    ensures forall k :: 0 <= k < |r| ==> r[k] == '-' || '0' <= r[k] <= '9'
    ensures r[0] == '-' <==> i < 0
    ensures forall k :: 1 <= k < |r| ==> r[k] != '-'
  {
    if i < 0 then "-" + NatToString(-i) else NatToString(i)
  }

  /** The decimal text of an integer holds no space and no upper-case letter. */
  lemma IntToStringPlain(i: int)
    ensures ' ' !in IntToString(i)
    ensures Lower(IntToString(i)) == IntToString(i)
  {
    LowerOfNoUpper(IntToString(i));
  }

  /** The number a string of decimal digits denotes, read most significant digit first. */
  function DigitsValue(s: string): int
    decreases |s|
  {
    if s == [] then 0 else DigitsValue(s[..|s| - 1]) * 10 + (s[|s| - 1] as int - '0' as int)
  }

  /** The number an optionally signed decimal numeral denotes. */
  function NumeralValue(s: string): int {
    if s != [] && s[0] == '-' then -DigitsValue(s[1..]) else DigitsValue(s)
  }

  /** Reading back the digits of `n` gives `n`. */
  lemma {:induction false} NatToStringValue(n: nat)
    ensures DigitsValue(NatToString(n)) == n
    decreases n
  {
    var r := NatToString(n);
    if n < 10 {
      assert r[..0] == [];
    } else {
      NatToStringValue(n / 10);
      assert r[..|r| - 1] == NatToString(n / 10);
      assert r[|r| - 1] == DigitChar(n % 10);
    }
  }

  /** The decimal text of an integer denotes that integer. */
  lemma IntToStringValue(i: int)
    ensures NumeralValue(IntToString(i)) == i
  {
    if i < 0 {
      NatToStringValue(-i);
      assert IntToString(i)[1..] == NatToString(-i);
    } else {
      NatToStringValue(i);
      assert NatToString(i)[0] != '-';
    }
  }

  /** Different integers have different decimal texts. */
  lemma IntToStringInjective(a: int, b: int)
    ensures IntToString(a) == IntToString(b) ==> a == b
  {
    IntToStringValue(a);
    IntToStringValue(b);
  }
}
