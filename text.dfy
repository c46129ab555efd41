/**
 * The string handling the identifier lists go through: Go's `strings.TrimSpace`,
 * `strings.Split` on one separator, `strings.Fields`, `strconv.ParseUint(s, 10, 64)`
 * and `strconv.FormatUint(n, 10)`. Strings are sequences of Unicode code points.
 */
module Text {
  import opened Wrappers

  /** One more than the largest value of Go's `uint64`. */
  const Uint64Bound: nat := 0x1_0000_0000_0000_0000

  type u64 = x: nat | x < 0x1_0000_0000_0000_0000

  /** The characters Go's `unicode.IsSpace` accepts. */
  const SpaceChars: set<char> := {
    ' ', '\t', '\n', '\U{B}', '\U{C}', '\r', '\U{85}', '\U{A0}', '\U{1680}',
    '\U{2000}', '\U{2001}', '\U{2002}', '\U{2003}', '\U{2004}', '\U{2005}',
    '\U{2006}', '\U{2007}', '\U{2008}', '\U{2009}', '\U{200A}',
    '\U{2028}', '\U{2029}', '\U{202F}', '\U{205F}', '\U{3000}'
  }

  /** Go's `unicode.IsSpace`: the white space that TrimSpace and Fields cut on. */
  predicate IsSpace(c: char) {
    c in SpaceChars
  }

  // ---------------------------------------------------------------- TrimSpace

  function TrimLeft(s: string): string
  {
    if s != [] && IsSpace(s[0]) then TrimLeft(s[1..]) else s
  }

  function TrimRight(s: string): string
  {
    if s != [] && IsSpace(s[|s| - 1]) then TrimRight(s[..|s| - 1]) else s
  }

  /** TrimLeft drops a prefix of white space and stops at the first other character. */
  lemma {:induction false} TrimLeftShape(s: string)
    ensures |TrimLeft(s)| <= |s| && TrimLeft(s) == s[|s| - |TrimLeft(s)|..]
    ensures forall k :: 0 <= k < |s| - |TrimLeft(s)| ==> IsSpace(s[k])
    ensures TrimLeft(s) == [] || !IsSpace(TrimLeft(s)[0])
  {
    if s != [] && IsSpace(s[0]) {
      TrimLeftShape(s[1..]);
    }
  }

  /** TrimRight drops a suffix of white space and stops at the last other character. */
  lemma {:induction false} TrimRightShape(s: string)
    ensures |TrimRight(s)| <= |s| && TrimRight(s) == s[..|TrimRight(s)|]
    ensures forall k :: |TrimRight(s)| <= k < |s| ==> IsSpace(s[k])
    ensures TrimRight(s) == [] || !IsSpace(TrimRight(s)[|TrimRight(s)| - 1])
  {
    if s != [] && IsSpace(s[|s| - 1]) {
      TrimRightShape(s[..|s| - 1]);
    }
  }

  /** `strings.TrimSpace`: cut the white space at both ends and nothing else. */
  function TrimSpace(s: string): (r: string)
  {
    TrimRight(TrimLeft(s))
  }

  /** TrimSpace leaves no white space at either end. */
  lemma TrimSpaceShape(s: string)
    ensures |TrimSpace(s)| <= |s|
    ensures TrimSpace(s) == [] || !IsSpace(TrimSpace(s)[0])
    ensures TrimSpace(s) == [] || !IsSpace(TrimSpace(s)[|TrimSpace(s)| - 1])
    ensures exists i, j ::
      && 0 <= i <= j <= |s| && TrimSpace(s) == s[i..j]
      && (forall k :: 0 <= k < i || j <= k < |s| ==> IsSpace(s[k]))
  {
    var l := TrimLeft(s);
    var r := TrimRight(l);
    TrimLeftShape(s);
    TrimRightShape(l);
    if r != [] {
      assert r[0] == l[0];
    }
    var i := |s| - |l|;
    var j := i + |r|;
    assert r == s[i..j];
    forall k | 0 <= k < i || j <= k < |s|
      ensures IsSpace(s[k])
    {
      if j <= k {
        assert s[k] == l[k - i];
      }
    }
  }

  /** TrimLeft drops white space only. */
  lemma {:induction false} TrimLeftKeepsNonSpace(s: string)
    ensures NonSpace(TrimLeft(s)) == NonSpace(s)
  {
    if s != [] && IsSpace(s[0]) {
      TrimLeftKeepsNonSpace(s[1..]);
    }
  }

  /** TrimRight drops white space only. */
  lemma {:induction false} TrimRightKeepsNonSpace(s: string)
    ensures NonSpace(TrimRight(s)) == NonSpace(s)
  {
    if s != [] && IsSpace(s[|s| - 1]) {
      var init := s[..|s| - 1];
      TrimRightKeepsNonSpace(init);
      assert s == init + [s[|s| - 1]];
      NonSpaceAppend(init, [s[|s| - 1]]);
      assert NonSpace([s[|s| - 1]]) == [];
    }
  }

  /** TrimSpace removes white space only: every other character survives, in order. */
  lemma TrimSpaceKeepsNonSpace(s: string)
    ensures NonSpace(TrimSpace(s)) == NonSpace(s)
  {
    TrimLeftKeepsNonSpace(s);
    TrimRightKeepsNonSpace(TrimLeft(s));
  }

  // -------------------------------------------------------------------- Split

  /** Position of the first `c` in `s`, or `|s|` when there is none. */
  function IndexOf(s: string, c: char): (i: nat)
    ensures i <= |s|
    ensures i < |s| ==> s[i] == c
    ensures forall k :: 0 <= k < i ==> s[k] != c
  {
    if s == [] then 0 else if s[0] == c then 0 else 1 + IndexOf(s[1..], c)
  }

  /**
   * `strings.Split(s, sep)` for a one-character separator: the pieces between
   * separators, empty pieces included; the empty string gives one empty piece.
   */
  function Split(s: string, sep: char): (r: seq<string>)
    decreases |s|
    ensures |r| >= 1
    ensures forall k :: 0 <= k < |r| ==> sep !in r[k]
  {
    var i := IndexOf(s, sep);
    if i == |s| then [s] else [s[..i]] + Split(s[i + 1..], sep)
  }

  /** `strings.Join`: the inverse of Split. */
  function Join(parts: seq<string>, sep: char): string
  {
    if |parts| == 0 then ""
    else if |parts| == 1 then parts[0]
    else parts[0] + [sep] + Join(parts[1..], sep)
  }

  lemma {:induction false} JoinSplit(s: string, sep: char)
    ensures Join(Split(s, sep), sep) == s
    decreases |s|
  {
    var i := IndexOf(s, sep);
    if i < |s| {
      var rest := s[i + 1..];
      JoinSplit(rest, sep);
      var tail := Split(rest, sep);
      assert Split(s, sep) == [s[..i]] + tail;
      assert Join([s[..i]] + tail, sep) == s[..i] + [sep] + Join(tail, sep);
      assert s == s[..i] + [sep] + rest;
    }
  }

  /** The first piece is everything before the first separator. */
  lemma SplitFirst(a: string, sep: char, b: string)
    requires sep !in a
    ensures Split(a + [sep] + b, sep)[0] == a
  {
    var s := a + [sep] + b;
    var i := IndexOf(s, sep);
    assert s[|a|] == sep;
    assert s[..|a|] == a;
  }

  // ------------------------------------------------------------------- Fields

  /** Length of the run of non-space characters that `s` starts with. */
  function WordLen(s: string): (n: nat)
    ensures n <= |s|
    ensures forall k :: 0 <= k < n ==> !IsSpace(s[k])
    ensures n < |s| ==> IsSpace(s[n])
  {
    if s == [] || IsSpace(s[0]) then 0 else 1 + WordLen(s[1..])
  }

  /** `strings.Fields`: the maximal runs of non-space characters, in order. */
  function Fields(s: string): (r: seq<string>)
    decreases |s|
    ensures forall k :: 0 <= k < |r| ==> r[k] != []
    ensures forall k, j :: 0 <= k < |r| && 0 <= j < |r[k]| ==> !IsSpace(r[k][j])
  {
    if s == [] then []
    else if IsSpace(s[0]) then Fields(s[1..])
    else
      var n := WordLen(s);
      [s[..n]] + Fields(s[n..])
  }

  predicate AllSpace(w: string) {
    forall k :: 0 <= k < |w| ==> IsSpace(w[k])
  }

  /** A field: one or more characters, none of them white space. */
  predicate IsWord(w: string) {
    w != [] && forall k :: 0 <= k < |w| ==> !IsSpace(w[k])
  }

  /** The string made of gap 0, word 0, gap 1, word 1, ..., and the last gap. */
  function Interleave(gaps: seq<string>, words: seq<string>): string
    requires |gaps| == |words| + 1
    decreases |words|
  {
    if words == [] then gaps[0] else gaps[0] + words[0] + Interleave(gaps[1..], words[1..])
  }

  /**
   * The gaps are runs of white space and the words are fields; a gap between two
   * words is not empty, while the gaps at either end may be.
   */
  predicate Spacing(gaps: seq<string>, words: seq<string>)
  {
    && |gaps| == |words| + 1
    && (forall i :: 0 <= i < |gaps| ==> AllSpace(gaps[i]))
    && (forall i :: 0 < i < |words| ==> gaps[i] != [])
    && (forall i :: 0 <= i < |words| ==> IsWord(words[i]))
  }

  /** Leading white space does not change the fields. */
  lemma {:induction false} FieldsSkipSpace(w: string, t: string)
    requires AllSpace(w)
    ensures Fields(w + t) == Fields(t)
    decreases |w|
  {
    if w != [] {
      assert (w + t)[1..] == w[1..] + t;
      FieldsSkipSpace(w[1..], t);
    } else {
      assert w + t == t;
    }
  }

  /** A word followed by white space or by nothing is one whole field. */
  lemma {:induction false} WordLenOf(w: string, t: string)
    requires forall k :: 0 <= k < |w| ==> !IsSpace(w[k])
    requires t == [] || IsSpace(t[0])
    ensures WordLen(w + t) == |w|
    decreases |w|
  {
    if w != [] {
      assert (w + t)[1..] == w[1..] + t;
      WordLenOf(w[1..], t);
    } else {
      assert w + t == t;
    }
  }

  /** An interleaving whose first gap is empty starts with its first word's first character. */
  lemma InterleaveHead(gaps: seq<string>, words: seq<string>)
    requires |gaps| == |words| + 1 && words != [] && words[0] != []
    ensures Interleave(gaps, words) != []
    ensures gaps[0] == [] ==> Interleave(gaps, words)[0] == words[0][0]
  {
    assert Interleave(gaps, words) == gaps[0] + words[0] + Interleave(gaps[1..], words[1..]);
  }

  /** Fields finds exactly the words of a well-spaced string: none split, none merged. */
  lemma {:induction false} FieldsOfSpaced(gaps: seq<string>, words: seq<string>)
    requires Spacing(gaps, words)
    ensures Fields(Interleave(gaps, words)) == words
    decreases |words|
  {
    if words == [] {
      FieldsSkipSpace(gaps[0], []);
      assert gaps[0] + [] == gaps[0];
    } else {
      var w := words[0];
      var rest := Interleave(gaps[1..], words[1..]);
      assert Spacing(gaps[1..], words[1..]);
      FieldsOfSpaced(gaps[1..], words[1..]);
      if words[1..] != [] {
        assert rest == gaps[1] + words[1] + Interleave(gaps[2..], words[2..]);
        assert rest[0] == gaps[1][0];
      }
      WordLenOf(w, rest);
      var u := w + rest;
      assert u[..|w|] == w && u[|w|..] == rest;
      assert Fields(u) == [w] + Fields(rest);
      assert Interleave(gaps, words) == gaps[0] + u;
      FieldsSkipSpace(gaps[0], u);
    }
  }

  /** A white-space character put in front joins the first gap. */
  lemma SpacedSpace(c: char, g: seq<string>, ws: seq<string>)
    requires IsSpace(c) && Spacing(g, ws)
    ensures Spacing([[c] + g[0]] + g[1..], ws)
    ensures Interleave([[c] + g[0]] + g[1..], ws) == [c] + Interleave(g, ws)
  {
    var gaps := [[c] + g[0]] + g[1..];
    assert AllSpace(gaps[0]);
    assert forall i :: 0 < i < |gaps| ==> gaps[i] == g[i];
    if ws != [] {
      assert gaps[1..] == g[1..];
      var tail := ws[0] + Interleave(g[1..], ws[1..]);
      assert Interleave(gaps, ws) == ([c] + g[0]) + tail;
      assert Interleave(g, ws) == g[0] + tail;
    }
  }

  /** A word put in front, before a non-empty gap, becomes the first word after an empty gap. */
  lemma SpacedWord(w: string, g: seq<string>, ws: seq<string>)
    requires IsWord(w) && Spacing(g, ws) && (ws != [] ==> g[0] != [])
    ensures Spacing([[]] + g, [w] + ws)
    ensures Interleave([[]] + g, [w] + ws) == w + Interleave(g, ws)
  {
    var gaps, words := [[]] + g, [w] + ws;
    assert gaps[1..] == g && words[1..] == ws;
    assert Interleave(gaps, words) == [] + w + Interleave(g, ws);
  }

  /** Every string is its fields separated by white space, so each field is a maximal run. */
  lemma {:induction false} FieldsSpaced(s: string)
    ensures exists gaps :: Spacing(gaps, Fields(s)) && Interleave(gaps, Fields(s)) == s
    decreases |s|
  {
    var ws := Fields(s);
    if s == [] {
      assert Spacing([[]], ws) && Interleave([[]], ws) == s;
    } else if IsSpace(s[0]) {
      FieldsSpaced(s[1..]);
      var g :| Spacing(g, ws) && Interleave(g, ws) == s[1..];
      SpacedSpace(s[0], g, ws);
      assert [s[0]] + s[1..] == s;
      assert Interleave([[s[0]] + g[0]] + g[1..], ws) == s;
    } else {
      var n := WordLen(s);
      var w, rest := s[..n], s[n..];
      var ws' := Fields(rest);
      assert ws == [w] + ws';
      FieldsSpaced(rest);
      var g :| Spacing(g, ws') && Interleave(g, ws') == rest;
      if ws' != [] {
        InterleaveHead(g, ws');
      }
      SpacedWord(w, g, ws');
      assert w + rest == s;
      assert Interleave([[]] + g, ws) == s;
    }
  }

  /** The characters of `s` that are not white space. */
  function NonSpace(s: string): string
  {
    if s == [] then [] else (if IsSpace(s[0]) then [] else [s[0]]) + NonSpace(s[1..])
  }

  function Concat(parts: seq<string>): string
  {
    if parts == [] then [] else parts[0] + Concat(parts[1..])
  }

  lemma {:induction false} NonSpaceAppend(a: string, b: string)
    ensures NonSpace(a + b) == NonSpace(a) + NonSpace(b)
    decreases |a|
  {
    if a != [] {
      assert (a + b)[1..] == a[1..] + b;
      NonSpaceAppend(a[1..], b);
    } else {
      assert a + b == b;
    }
  }

  lemma {:induction false} NonSpaceOfWord(w: string)
    requires forall k :: 0 <= k < |w| ==> !IsSpace(w[k])
    ensures NonSpace(w) == w
    decreases |w|
  {
    if w != [] {
      NonSpaceOfWord(w[1..]);
      assert w == [w[0]] + w[1..];
    }
  }

  /** Fields loses exactly the white space: gluing the fields back gives the non-space characters. */
  lemma {:induction false} FieldsKeepEveryNonSpace(s: string)
    ensures Concat(Fields(s)) == NonSpace(s)
    decreases |s|
  {
    if s == [] {
    } else if IsSpace(s[0]) {
      FieldsKeepEveryNonSpace(s[1..]);
    } else {
      var n := WordLen(s);
      FieldsKeepEveryNonSpace(s[n..]);
      assert s == s[..n] + s[n..];
      NonSpaceAppend(s[..n], s[n..]);
      NonSpaceOfWord(s[..n]);
      assert Fields(s) == [s[..n]] + Fields(s[n..]);
      assert ([s[..n]] + Fields(s[n..]))[1..] == Fields(s[n..]);
    }
  }

  // ------------------------------------------------------- ParseUint / FormatUint

  predicate IsDigit(c: char) {
    '0' <= c <= '9'
  }

  predicate AllDigits(s: string) {
    forall k :: 0 <= k < |s| ==> IsDigit(s[k])
  }

  function DigitValue(c: char): (d: nat)
    requires IsDigit(c)
    ensures d < 10
  {
    c as int - '0' as int
  }

  function DigitChar(d: nat): (c: char)
    requires d < 10
    ensures IsDigit(c) && DigitValue(c) == d
  {
    (d + '0' as int) as char
  }

  /** The number a string of decimal digits denotes, read most significant digit first. */
  function Value(s: string): nat
    requires AllDigits(s)
  {
    if s == [] then 0 else Value(s[..|s| - 1]) * 10 + DigitValue(s[|s| - 1])
  }

  /**
   * `strconv.ParseUint(s, 10, 64)`: one or more ASCII digits (no sign, no space,
   * no underscore) whose value fits in 64 bits; anything else is an error.
   */
  function ParseUint(s: string): (r: Option<u64>)
  {
    if s != [] && AllDigits(s) && Value(s) < Uint64Bound then Some(Value(s)) else None
  }

  /** Some token of a list spells `n` exactly when one before the last does or the last one does. */
  lemma SpelledSnoc(tokens: seq<string>, init: seq<string>, n: nat)
    requires tokens != [] && init == tokens[..|tokens| - 1]
    ensures (exists k :: 0 <= k < |tokens| && ParseUint(tokens[k]) == Some(n)) <==>
      (exists k :: 0 <= k < |init| && ParseUint(init[k]) == Some(n)) ||
      ParseUint(tokens[|tokens| - 1]) == Some(n)
  {
    if exists k :: 0 <= k < |tokens| && ParseUint(tokens[k]) == Some(n) {
      var k :| 0 <= k < |tokens| && ParseUint(tokens[k]) == Some(n);
      if k < |init| {
        assert init[k] == tokens[k];
      }
    }
    if exists k :: 0 <= k < |init| && ParseUint(init[k]) == Some(n) {
      var k :| 0 <= k < |init| && ParseUint(init[k]) == Some(n);
      assert tokens[k] == init[k];
    }
  }

  /** `strconv.FormatUint(n, 10)`: decimal digits without leading zeros. */
  function Decimal(n: nat): (s: string)
    ensures s != [] && AllDigits(s)
  {
    if n < 10 then [DigitChar(n)] else Decimal(n / 10) + [DigitChar(n % 10)]
  }

  /** ParseUint's accepted and rejected tokens, spelled out case by case. */
  lemma ParseUintRejects(s: string)
    ensures s == [] ==> ParseUint(s) == None
    ensures (exists k :: 0 <= k < |s| && !IsDigit(s[k])) ==> ParseUint(s) == None
    ensures AllDigits(s) && Value(s) >= Uint64Bound ==> ParseUint(s) == None
    ensures ParseUint(s).Some? ==> s != [] && AllDigits(s) && ParseUint(s).value == Value(s)
    ensures s != [] && AllDigits(s) && Value(s) < Uint64Bound ==> ParseUint(s).Some? && ParseUint(s).value == Value(s)
  {
  }

  lemma {:induction false} ValueOfDecimal(n: nat)
    ensures Value(Decimal(n)) == n
  {
    if n >= 10 {
      ValueOfDecimal(n / 10);
      var s := Decimal(n);
      assert s[..|s| - 1] == Decimal(n / 10);
    }
  }

  /** Parsing what FormatUint printed gives the number back. */
  lemma ParseFormatRoundTrip(n: u64)
    ensures ParseUint(Decimal(n)) == Some(n)
  {
    ValueOfDecimal(n);
  }
}
