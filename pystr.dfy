/** Models of the Python `str` built-ins that the CORS configuration uses:
    `str.split(sep)` with a one-character separator, `sep.join(xs)`,
    `str.strip()` with no argument, and `str.rstrip(c)` with one character. */
module PyStr {
  import opened Seqs

  /** Python's `str.isspace()` for one character: the characters that are
      whitespace by Unicode category Zs or bidirectional class WS, B or S.
      This is the set `str.strip()` removes when called without arguments. */
  predicate IsSpace(c: char) {
    var n := c as int;
    (0x09 <= n <= 0x0D) || (0x1C <= n <= 0x20) || n == 0x85 || n == 0xA0
    || n == 0x1680 || (0x2000 <= n <= 0x200A) || n == 0x2028 || n == 0x2029
    || n == 0x202F || n == 0x205F || n == 0x3000
  }

  /** The same characters listed one by one. */
  const PySpaces: set<char> := {
    '\U{9}', '\U{A}', '\U{B}', '\U{C}', '\U{D}',
    '\U{1C}', '\U{1D}', '\U{1E}', '\U{1F}', ' ',
    '\U{85}', '\U{A0}', '\U{1680}',
    '\U{2000}', '\U{2001}', '\U{2002}', '\U{2003}', '\U{2004}', '\U{2005}',
    '\U{2006}', '\U{2007}', '\U{2008}', '\U{2009}', '\U{200A}',
    '\U{2028}', '\U{2029}', '\U{202F}', '\U{205F}', '\U{3000}'
  }

  /** `IsSpace` holds exactly for the characters of `PySpaces`. */
  lemma IsSpaceListed(c: char)
    ensures IsSpace(c) <==> c in PySpaces
  {
  }

  predicate AllSpace(s: string) {
    forall i :: 0 <= i < |s| ==> IsSpace(s[i])
  }

  /** Neither end of `s` is whitespace (the empty string counts as stripped). */
  predicate IsStripped(s: string) {
    s == [] || (!IsSpace(s[0]) && !IsSpace(s[|s| - 1]))
  }

  predicate AllChar(s: string, c: char) {
    forall i :: 0 <= i < |s| ==> s[i] == c
  }

  lemma AllSpaceAppend(a: string, b: string)
    ensures AllSpace(a + b) <==> AllSpace(a) && AllSpace(b)
  {
    if AllSpace(a + b) {
      assert forall i :: 0 <= i < |a| ==> a[i] == (a + b)[i];
      assert forall i :: 0 <= i < |b| ==> b[i] == (a + b)[|a| + i];
    }
  }

  lemma AllCharAppend(a: string, b: string, c: char)
    requires AllChar(a, c) && AllChar(b, c)
    ensures AllChar(a + b, c)
  {
  }

  // ---------------------------------------------------------------------------
  // strip()

  /** `s.lstrip()`: the suffix of `s` left after removing leading whitespace. */
  function LStrip(s: string): (r: string)
    ensures |r| <= |s| && r == s[|s| - |r|..]
    ensures AllSpace(s[..|s| - |r|])
    ensures r == [] || !IsSpace(r[0])
    decreases |s|
  {
    if |s| > 0 && IsSpace(s[0]) then
      var r := LStrip(s[1..]);
      assert s[..|s| - |r|] == [s[0]] + s[1..][..|s| - 1 - |r|];
      r
    else s
  }

  /** `s.rstrip()`: the prefix of `s` left after removing trailing whitespace. */
  function RStrip(s: string): (r: string)
    ensures |r| <= |s| && r == s[..|r|]
    ensures AllSpace(s[|r|..])
    ensures r == [] || !IsSpace(r[|r| - 1])
    decreases |s|
  {
    if |s| > 0 && IsSpace(s[|s| - 1]) then
      var r := RStrip(s[..|s| - 1]);
      assert s[|r|..] == s[..|s| - 1][|r|..] + [s[|s| - 1]];
      r
    else s
  }

  /** `s.strip()`: `s` without its leading and trailing whitespace.
      `StripDecompose` and `StripUnique` characterise it completely. */
  function Strip(s: string): (r: string)
    ensures |r| <= |s|
    ensures IsStripped(r)
  {
    var l := LStrip(s);
    var r := RStrip(l);
    assert r != [] ==> r[0] == l[0];
    r
  }

  /** The leading whitespace `Strip` removes from `s`. */
  function StripPrefix(s: string): string {
    s[..|s| - |LStrip(s)|]
  }

  /** The trailing whitespace `Strip` removes from `s`. */
  function StripSuffix(s: string): string {
    LStrip(s)[|Strip(s)|..]
  }

  /** `s` is `Strip(s)` with whitespace on either side. */
  lemma StripDecompose(s: string)
    ensures s == StripPrefix(s) + Strip(s) + StripSuffix(s)
    ensures AllSpace(StripPrefix(s)) && AllSpace(StripSuffix(s))
  {
    var l := LStrip(s);
    var r := RStrip(l);
    TakeDrop(s, |s| - |l|);
    TakeDrop(l, |r|);
    AppendAssoc(StripPrefix(s), r, StripSuffix(s));
    if r != [] {
      assert r[0] == l[0];
    }
  }

  /** `Strip(s)` is empty exactly when `s` is all whitespace. */
  lemma StripEmptyIff(s: string)
    ensures Strip(s) == [] <==> AllSpace(s)
  {
    StripDecompose(s);
    var p, r, q := StripPrefix(s), Strip(s), StripSuffix(s);
    AllSpaceAppend(p + r, q);
    AllSpaceAppend(p, r);
    if r == [] {
      AppendEmpty(p);
    }
  }

  /** Whitespace in front of a string does not change what `lstrip` keeps. */
  lemma {:induction false} LStripSpacePrefix(a: string, u: string)
    requires AllSpace(a)
    ensures LStrip(a + u) == LStrip(u)
    decreases |a|
  {
    if a != [] {
      AppendTail(a, u);
      assert AllSpace(a[1..]);
      LStripSpacePrefix(a[1..], u);
    } else {
      AppendEmpty(u);
    }
  }

  /** Whitespace after a string does not change what `rstrip` keeps. */
  lemma {:induction false} RStripSpaceSuffix(u: string, b: string)
    requires AllSpace(b)
    ensures RStrip(u + b) == RStrip(u)
    decreases |b|
  {
    if b != [] {
      AppendInit(u, b);
      assert AllSpace(b[..|b| - 1]);
      RStripSpaceSuffix(u, b[..|b| - 1]);
    } else {
      AppendEmpty(u);
    }
  }

  /** Uniqueness: whenever `s` is a stripped `t` padded on both sides with
      whitespace, `Strip(s)` is that `t`. Together with `StripDecompose` this
      pins `Strip` down completely. */
  lemma StripUnique(a: string, t: string, b: string)
    requires AllSpace(a) && AllSpace(b) && IsStripped(t)
    ensures Strip(a + t + b) == t
  {
    var u := t + b;
    AppendAssoc(a, t, b);
    LStripSpacePrefix(a, u);
    if t == [] {
      AppendEmpty(b);
      LStripSpacePrefix(b, []);
    } else {
      AppendTail(t, b);
      assert LStrip(u) == u;
      RStripSpaceSuffix(t, b);
      assert RStrip(t) == t;
    }
  }

  /** A string with no whitespace at either end strips to itself. */
  lemma StripStripped(t: string)
    requires IsStripped(t)
    ensures Strip(t) == t
  {
    assert LStrip(t) == t;
  }

  /** `strip()` is idempotent. */
  lemma StripIdempotent(s: string)
    ensures Strip(Strip(s)) == Strip(s)
  {
    StripDecompose(s);
    StripStripped(Strip(s));
  }

  /** `strip()` removes characters and never introduces one. */
  lemma StripKeepsOnly(s: string, c: char)
    requires c !in s
    ensures c !in Strip(s)
  {
    StripDecompose(s);
  }

  // ---------------------------------------------------------------------------
  // rstrip(c)

  /** `s.rstrip(c)` for a single character `c`: the longest prefix of `s` that
      is followed only by copies of `c` and does not itself end in `c`. */
  function RStripChar(s: string, c: char): (r: string)
    ensures |r| <= |s| && r == s[..|r|]
    ensures AllChar(s[|r|..], c)
    ensures r == [] || r[|r| - 1] != c
    decreases |s|
  {
    if |s| > 0 && s[|s| - 1] == c then
      var r := RStripChar(s[..|s| - 1], c);
      assert s[|r|..] == s[..|s| - 1][|r|..] + [s[|s| - 1]];
      r
    else s
  }

  /** Uniqueness: a string `t` not ending in `c`, followed by copies of `c`,
      strips back to `t`. */
  lemma {:induction false} RStripCharUnique(t: string, b: string, c: char)
    requires AllChar(b, c)
    requires t == [] || t[|t| - 1] != c
    ensures RStripChar(t + b, c) == t
    decreases |b|
  {
    if b != [] {
      AppendInit(t, b);
      assert AllChar(b[..|b| - 1], c);
      RStripCharUnique(t, b[..|b| - 1], c);
    } else {
      AppendEmpty(t);
    }
  }

  /** `rstrip(c)` is idempotent. */
  lemma RStripCharIdempotent(s: string, c: char)
    ensures RStripChar(RStripChar(s, c), c) == RStripChar(s, c)
  {
    var r := RStripChar(s, c);
    RStripCharUnique(r, [], c);
    AppendEmpty(r);
  }

  // ---------------------------------------------------------------------------
  // split(sep) and sep.join(xs)

  /** Index of the first `sep` in `s`, or `|s|` when there is none. */
  function FindSep(s: string, sep: char): (i: nat)
    ensures i <= |s|
    ensures i < |s| ==> s[i] == sep
    ensures forall j :: 0 <= j < i ==> s[j] != sep
    decreases |s|
  {
    if s == [] then 0
    else if s[0] == sep then 0
    else 1 + FindSep(s[1..], sep)
  }

  /** The three properties of `FindSep` determine it. */
  lemma FindSepUnique(s: string, sep: char, i: nat)
    requires i <= |s| && (i < |s| ==> s[i] == sep)
    requires forall j :: 0 <= j < i ==> s[j] != sep
    ensures FindSep(s, sep) == i
  {
  }

  /** `s.split(sep)`: the maximal runs of `s` between occurrences of `sep`,
      left to right; always at least one piece (`"".split(",") == [""]`). */
  function Split(s: string, sep: char): (r: seq<string>)
    ensures |r| >= 1
    decreases |s|
  {
    var i := FindSep(s, sep);
    if i == |s| then [s]
    else [s[..i]] + Split(s[i + 1..], sep)
  }

  /** `sep.join(xs)`; the empty list joins to the empty string. */
  function Join(xs: seq<string>, sep: char): string
    decreases |xs|
  {
    if |xs| == 0 then []
    else if |xs| == 1 then xs[0]
    else xs[0] + [sep] + Join(xs[1..], sep)
  }

  /** A join begins with the first character of its first string. */
  lemma JoinFirst(xs: seq<string>, sep: char)
    requires |xs| >= 1 && xs[0] != []
    ensures Join(xs, sep) != [] && Join(xs, sep)[0] == xs[0][0]
  {
    if |xs| > 1 {
      AppendAssoc(xs[0], [sep], Join(xs[1..], sep));
    }
  }

  /** The strings of `xs` written one after another (`"".join(xs)`). */
  function Concat(xs: seq<string>): string
    decreases |xs|
  {
    if xs == [] then [] else xs[0] + Concat(xs[1..])
  }

  /** The one-character strings of `s`, written one after another, are `s`. */
  lemma {:induction false} ConcatSingletons(s: string)
    ensures Concat(seq(|s|, i requires 0 <= i < |s| => [s[i]])) == s
    decreases |s|
  {
    if s != [] {
      var r := seq(|s|, i requires 0 <= i < |s| => [s[i]]);
      var t := seq(|s| - 1, i requires 0 <= i < |s| - 1 => [s[1..][i]]);
      assert r[1..] == t;
      ConcatSingletons(s[1..]);
      HeadTail(s);
    }
  }

  /** No piece of a split contains the separator. */
  lemma {:induction false} SplitPiecesFree(s: string, sep: char)
    ensures forall k :: 0 <= k < |Split(s, sep)| ==> sep !in Split(s, sep)[k]
    decreases |s|
  {
    var i := FindSep(s, sep);
    assert sep !in s[..i] by {
      assert forall j :: 0 <= j < i ==> s[..i][j] != sep;
    }
    if i < |s| {
      SplitPiecesFree(s[i + 1..], sep);
    }
  }

  /** Joining the pieces of a split gives back the original string. */
  lemma {:induction false} JoinSplit(s: string, sep: char)
    ensures Join(Split(s, sep), sep) == s
    decreases |s|
  {
    var i := FindSep(s, sep);
    if i < |s| {
      JoinSplit(s[i + 1..], sep);
      CutAt(s, i);
      assert Split(s, sep) == [s[..i]] + Split(s[i + 1..], sep);
    }
  }

  /** A string without the separator splits into itself alone. */
  lemma SplitNoSep(s: string, sep: char)
    requires sep !in s
    ensures Split(s, sep) == [s]
  {
  }

  /** Splitting distributes over a separator: the pieces of `a + sep + b` are
      the pieces of `a` followed by the pieces of `b`. */
  lemma {:induction false} SplitAppend(a: string, b: string, sep: char)
    ensures Split(a + [sep] + b, sep) == Split(a, sep) + Split(b, sep)
    decreases |a|
  {
    var s := a + [sep] + b;
    var i := FindSep(a, sep);
    assert forall j :: 0 <= j < |a| ==> s[j] == a[j];
    if i == |a| {
      SliceAround(a, sep, b);
      FindSepUnique(s, sep, |a|);
    } else {
      SliceInside(a, sep, b, i);
      FindSepUnique(s, sep, i);
      SplitAppend(a[i + 1..], b, sep);
      AppendAssoc([a[..i]], Split(a[i + 1..], sep), Split(b, sep));
    }
  }

  /** Conversely, splitting a join of separator-free pieces gives the pieces
      back (for at least one piece: `Join([]) == Join([""]) == ""`). */
  lemma {:induction false} SplitJoin(xs: seq<string>, sep: char)
    requires |xs| >= 1
    requires forall k :: 0 <= k < |xs| ==> sep !in xs[k]
    ensures Split(Join(xs, sep), sep) == xs
    decreases |xs|
  {
    SplitNoSep(xs[0], sep);
    if |xs| > 1 {
      SplitJoin(xs[1..], sep);
      SplitAppend(xs[0], Join(xs[1..], sep), sep);
      HeadTail(xs);
    }
  }
}
