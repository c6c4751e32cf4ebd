/** The CORS part of the backend's application settings: the validator that
    normalises a raw `BACKEND_CORS_ORIGINS` value, and the computed list of
    every origin the server allows. */
module CorsConfig {
  import opened Seqs
  import opened PyStr

  /** The raw value handed to the validator: a string, a list, or anything
      else (a number, `None`, a dict, ...). List elements are modelled as
      strings. */
  datatype RawCors = Str(s: string) | List(xs: seq<string>) | Other

  /** The value the validator produces, of type `list[str] | str`. */
  datatype Cors = Origins(xs: seq<string>) | Text(s: string)

  /** The validator's outcome: a value, or `ValueError` carrying the input. */
  datatype Parsed = Ok(value: Cors) | ValueError(arg: RawCors)

  /** `s.startswith("[")`: the one-character string `[` is a prefix of `s`. */
  predicate StartsWithBracket(s: string)
    ensures StartsWithBracket(s) <==> |s| >= 1 && s[..1] == "["
  {
    |s| > 0 && s[0] == '['
  }

  /** An entry of a comma-separated origin setting as the validator keeps it:
      non-empty, no whitespace at either end, no comma. */
  predicate IsCleanEntry(x: string) {
    x != [] && IsStripped(x) && ',' !in x
  }

  /** `[i.strip() for i in pieces if i.strip()]`. */
  function KeepStripped(pieces: seq<string>): (r: seq<string>)
    ensures |r| <= |pieces|
    decreases |pieces|
  {
    if pieces == [] then []
    else
      var x := Strip(pieces[0]);
      var rest := KeepStripped(pieces[1..]);
      if x == [] then rest else [x] + rest
  }

  /** Every element of `xs` is non-empty, stripped and free of `c`. */
  predicate AllCleanOf(xs: seq<string>, c: char) {
    forall i :: 0 <= i < |xs| ==> xs[i] != [] && IsStripped(xs[i]) && c !in xs[i]
  }

  /** Everything `KeepStripped` keeps is non-empty and stripped, and contains
      no character that none of the pieces contains. */
  lemma {:induction false} KeepStrippedShape(pieces: seq<string>, c: char)
    requires forall i :: 0 <= i < |pieces| ==> c !in pieces[i]
    ensures AllCleanOf(KeepStripped(pieces), c)
    decreases |pieces|
  {
    if pieces != [] {
      var x := Strip(pieces[0]);
      var rest := KeepStripped(pieces[1..]);
      KeepStrippedShape(pieces[1..], c);
      if x != [] {
        StripDecompose(pieces[0]);
        StripKeepsOnly(pieces[0], c);
        ConsClean(x, rest, c);
      }
    }
  }

  lemma ConsClean(x: string, rest: seq<string>, c: char)
    requires x != [] && IsStripped(x) && c !in x
    requires AllCleanOf(rest, c)
    ensures AllCleanOf([x] + rest, c)
  {
    forall i | 0 <= i < |[x] + rest|
      ensures ([x] + rest)[i] != [] && IsStripped(([x] + rest)[i]) && c !in ([x] + rest)[i]
    {
      if i > 0 {
        assert ([x] + rest)[i] == rest[i - 1];
      }
    }
  }

  /** The comma-separated branch of the validator: split on `,`, strip each
      piece, drop the empty ones. */
  function SplitOrigins(s: string): seq<string> {
    KeepStripped(Split(s, ','))
  }

  /** `parse_cors`: a string not starting with `[` is split into origins; a
      list, or a string starting with `[`, passes through unchanged; any other
      value is refused with `ValueError`. */
  function ParseCors(v: RawCors): (r: Parsed)
    ensures r.ValueError? <==> v.Other?
    ensures r.ValueError? ==> r.arg == v
    ensures v.List? ==> r == Ok(Origins(v.xs))
    ensures v.Str? && StartsWithBracket(v.s) ==> r == Ok(Text(v.s))
    ensures v.Str? && !StartsWithBracket(v.s) ==> r == Ok(Origins(SplitOrigins(v.s)))
    ensures v.Str? && !StartsWithBracket(v.s) ==>
      r.Ok? && r.value.Origins? && |r.value.xs| <= |v.s| + 1
      && forall i :: 0 <= i < |r.value.xs| ==> IsCleanEntry(r.value.xs[i])
  {
    match v
    case Str(s) =>
      if !StartsWithBracket(s) then
        SplitOriginsClean(s);
        Ok(Origins(SplitOrigins(s)))
      else Ok(Text(s))
    case List(xs) => Ok(Origins(xs))
    case Other => ValueError(v)
  }

  // ---------------------------------------------------------------------------
  // Properties of the comma-separated branch

  lemma {:induction false} SplitCount(s: string)
    ensures |Split(s, ',')| <= |s| + 1
    decreases |s|
  {
    var i := FindSep(s, ',');
    if i < |s| {
      SplitCount(s[i + 1..]);
    }
  }

  /** Every origin the comma-separated branch yields is non-empty, has no
      whitespace at either end and contains no comma; there are at most as
      many as there are pieces. */
  lemma SplitOriginsClean(s: string)
    ensures |SplitOrigins(s)| <= |s| + 1
    ensures forall i :: 0 <= i < |SplitOrigins(s)| ==> IsCleanEntry(SplitOrigins(s)[i])
  {
    SplitCount(s);
    SplitPiecesFree(s, ',');
    KeepStrippedShape(Split(s, ','), ',');
  }

  lemma {:induction false} KeepStrippedAppend(a: seq<string>, b: seq<string>)
    ensures KeepStripped(a + b) == KeepStripped(a) + KeepStripped(b)
    decreases |a|
  {
    if a == [] {
      assert a + b == b;
    } else {
      assert (a + b)[0] == a[0];
      assert (a + b)[1..] == a[1..] + b;
      KeepStrippedAppend(a[1..], b);
    }
  }

  /** Order is preserved: the origins of `a,b` are those of `a` followed by
      those of `b`. */
  lemma SplitOriginsAppend(a: string, b: string)
    ensures SplitOrigins(a + [','] + b) == SplitOrigins(a) + SplitOrigins(b)
  {
    SplitAppend(a, b, ',');
    KeepStrippedAppend(Split(a, ','), Split(b, ','));
  }

  /** A comma-free setting yields its stripped text, or nothing when it is all
      whitespace. With `SplitOriginsAppend` this determines the branch on
      every input. */
  lemma SplitOriginsSingle(s: string)
    requires ',' !in s
    ensures SplitOrigins(s) == if AllSpace(s) then [] else [Strip(s)]
  {
    SplitNoSep(s, ',');
    StripEmptyIff(s);
  }

  lemma {:induction false} SplitBlank(s: string)
    requires forall i :: 0 <= i < |s| ==> IsSpace(s[i]) || s[i] == ','
    ensures forall i :: 0 <= i < |Split(s, ',')| ==> AllSpace(Split(s, ',')[i])
    decreases |s|
  {
    var i := FindSep(s, ',');
    if i < |s| {
      SplitBlank(s[i + 1..]);
      assert forall j :: 0 <= j < i ==> s[..i][j] == s[j];
    }
  }

  lemma {:induction false} KeepStrippedBlank(pieces: seq<string>)
    requires forall i :: 0 <= i < |pieces| ==> AllSpace(pieces[i])
    ensures KeepStripped(pieces) == []
    decreases |pieces|
  {
    if pieces != [] {
      StripEmptyIff(pieces[0]);
      KeepStrippedBlank(pieces[1..]);
    }
  }

  /** A setting made only of commas and whitespace, such as the empty string
      or ` , ,`, yields no origins. */
  lemma SplitOriginsBlank(s: string)
    requires forall i :: 0 <= i < |s| ==> IsSpace(s[i]) || s[i] == ','
    ensures SplitOrigins(s) == []
  {
    SplitBlank(s);
    KeepStrippedBlank(Split(s, ','));
  }

  lemma SplitOriginsBlankExamples()
    ensures SplitOrigins("") == []
    ensures SplitOrigins(" , ,") == []
  {
    SplitOriginsBlank("");
    SplitOriginsBlank(" , ,");
  }

  /** One clean entry padded with whitespace yields exactly that entry. */
  lemma SplitOriginsEntry(a: string, x: string, b: string)
    requires AllSpace(a) && AllSpace(b) && ',' !in a && ',' !in b
    requires IsCleanEntry(x)
    ensures SplitOrigins(a + x + b) == [x]
  {
    StripUnique(a, x, b);
    StripEmptyIff(a + x + b);
    SplitOriginsSingle(a + x + b);
  }

  /** Pieces that are already non-empty and stripped are kept as they are. */
  lemma {:induction false} KeepStrippedFixed(xs: seq<string>)
    requires forall i :: 0 <= i < |xs| ==> xs[i] != [] && Strip(xs[i]) == xs[i]
    ensures KeepStripped(xs) == xs
    decreases |xs|
  {
    if xs != [] {
      KeepStrippedFixed(xs[1..]);
      HeadTail(xs);
    }
  }

  /** Clean entries joined with `,` split back into exactly those entries. */
  lemma SplitOriginsJoin(xs: seq<string>)
    requires forall i :: 0 <= i < |xs| ==> IsCleanEntry(xs[i])
    ensures SplitOrigins(Join(xs, ',')) == xs
  {
    if xs == [] {
      assert Split([], ',') == [[]];
      assert Strip([]) == [];
    } else {
      SplitJoin(xs, ',');
      forall i | 0 <= i < |xs| ensures Strip(xs[i]) == xs[i] {
        StripStripped(xs[i]);
      }
      KeepStrippedFixed(xs);
    }
  }

  /** Idempotence: joining the parsed origins with `,` and parsing again gives
      the same result, unless the first origin itself begins with `[` (then
      the joined string takes the pass-through branch; see
      `ReparseBracketOrigin`). */
  lemma ParseCorsIdempotent(s: string)
    requires !StartsWithBracket(s)
    requires SplitOrigins(s) == [] || !StartsWithBracket(SplitOrigins(s)[0])
    ensures ParseCors(Str(Join(SplitOrigins(s), ','))) == ParseCors(Str(s))
  {
    var r := SplitOrigins(s);
    SplitOriginsClean(s);
    SplitOriginsJoin(r);
    if r != [] {
      JoinFirst(r, ',');
    }
  }

  /** Without the second requirement of `ParseCorsIdempotent` there is no
      idempotence: whitespace followed by a clean origin `x` that begins with
      `[` parses to the list `[x]`, but `x` alone passes through as a
      string. */
  lemma ReparseBracket(a: string, x: string)
    requires a != [] && AllSpace(a) && ',' !in a
    requires IsCleanEntry(x) && StartsWithBracket(x)
    ensures ParseCors(Str(a + x)) == Ok(Origins([x]))
    ensures Join([x], ',') == x
    ensures ParseCors(Str(x)) == Ok(Text(x))
  {
    AppendEmpty(a + x);
    SplitOriginsEntry(a, x, []);
    assert (a + x)[0] == a[0];
  }

  /** The smallest instance: ` [a` parses to the origin `[a`, and `[a`
      passes through as a string. */
  lemma ReparseBracketOrigin()
    ensures ParseCors(Str(" [a")) == Ok(Origins(["[a"]))
    ensures ParseCors(Str("[a")) == Ok(Text("[a"))
  {
    assert " " + "[a" == " [a";
    ReparseBracket(" ", "[a");
  }

  // ---------------------------------------------------------------------------
  // Settings.all_cors_origins

  /** The two settings the computed origin list reads. */
  datatype Settings = Settings(frontendHost: string, backendCorsOrigins: Cors)

  /** The declared defaults: `FRONTEND_HOST` and an empty origin list. */
  const DefaultSettings := Settings("http://localhost:8080", Origins([]))

  /** What `for origin in BACKEND_CORS_ORIGINS` walks: the list's elements,
      or, for a string value, its characters one by one. */
  function Elements(c: Cors): (r: seq<string>)
    ensures c.Origins? ==> r == c.xs
    ensures c.Text? ==> |r| == |c.s| && (forall i :: 0 <= i < |r| ==> |r[i]| == 1) && Concat(r) == c.s
  {
    match c
    case Origins(xs) => xs
    case Text(s) =>
      ConcatSingletons(s);
      seq(|s|, i requires 0 <= i < |s| => [s[i]])
  }

  /** `all_cors_origins`: every configured origin with all trailing `/`
      removed, in order, then the frontend host exactly as configured. */
  function AllCorsOrigins(st: Settings): (r: seq<string>)
    ensures var e := Elements(st.backendCorsOrigins);
      |r| == |e| + 1 && r[|e|] == st.frontendHost
      && forall i :: 0 <= i < |e| ==>
        |r[i]| <= |e[i]| && r[i] == e[i][..|r[i]|] && AllChar(e[i][|r[i]|..], '/')
        && (r[i] == [] || r[i][|r[i]| - 1] != '/')
  {
    var e := Elements(st.backendCorsOrigins);
    seq(|e|, i requires 0 <= i < |e| => RStripChar(e[i], '/')) + [st.frontendHost]
  }

  /** Stripping the configured origins of the computed list again changes
      nothing; the frontend host keeps a trailing `/` if it has one. */
  lemma AllCorsOriginsStable(st: Settings)
    ensures var r := AllCorsOrigins(st);
      (forall i :: 0 <= i < |r| - 1 ==> RStripChar(r[i], '/') == r[i])
      && r[|r| - 1] == st.frontendHost
  {
    var r := AllCorsOrigins(st);
    var e := Elements(st.backendCorsOrigins);
    forall i | 0 <= i < |r| - 1 ensures RStripChar(r[i], '/') == r[i] {
      RStripCharUnique(r[i], [], '/');
      assert r[i] + [] == r[i];
    }
  }

  /** The computed element `i` is the configured origin `i` with its trailing
      slashes removed, whatever those are: the origin is the element followed
      by only slashes. */
  lemma AllCorsOriginsAt(st: Settings, i: nat, slashes: string)
    requires i < |Elements(st.backendCorsOrigins)|
    requires AllChar(slashes, '/')
    ensures var e := Elements(st.backendCorsOrigins)[i];
      AllCorsOrigins(st)[i] == RStripChar(e + slashes, '/')
  {
    var e := Elements(st.backendCorsOrigins)[i];
    var r := AllCorsOrigins(st)[i];
    var tail := e[|r|..];
    TakeDrop(e, |r|);
    AppendAssoc(r, tail, slashes);
    AllCharAppend(tail, slashes, '/');
    RStripCharUnique(r, tail + slashes, '/');
  }

  /** When the setting is still a string (the pass-through branch), the
      computed list has one entry per character: the character itself, or
      the empty string for a `/`. */
  lemma AllCorsOriginsOfText(host: string, s: string)
    ensures var r := AllCorsOrigins(Settings(host, Text(s)));
      |r| == |s| + 1
      && forall i :: 0 <= i < |s| ==> r[i] == if s[i] == '/' then [] else [s[i]]
  {
    var r := AllCorsOrigins(Settings(host, Text(s)));
    forall i | 0 <= i < |s| ensures r[i] == if s[i] == '/' then [] else [s[i]] {
      if s[i] == '/' {
        RStripCharUnique([], [s[i]], '/');
        assert [] + [s[i]] == [s[i]];
      } else {
        RStripCharUnique([s[i]], [], '/');
        assert [s[i]] + [] == [s[i]];
      }
    }
  }

  /** With the declared defaults the only allowed origin is the frontend. */
  lemma DefaultOrigins()
    ensures AllCorsOrigins(DefaultSettings) == ["http://localhost:8080"]
  {
  }
}
