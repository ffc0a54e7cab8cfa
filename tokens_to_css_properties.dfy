/** Properties of the token-to-CSS transformation: what alias rewriting keeps
    and drops, that a key and the alias naming it give the same property name,
    the dispatch order of the value text, the order of the declaration lines,
    the output file name and the shape of the `:root` block. */
module TokensToCssProperties {
  import opened JsString
  import opened TokensToCss

  /** The character map of alias normalisation: lower-case, then `.` to `-`. */
  function CssChar(c: char): char {
    if LowerChar(c) == '.' then '-' else LowerChar(c)
  }

  /** Lower-casing followed by every `.` turned into `-`, the first two steps
      of `aliasToCssVar`. */
  function Normalize(s: string): (r: string)
    ensures |r| == |s|
    ensures forall i :: 0 <= i < |s| ==> r[i] == CssChar(s[i])
  {
    ReplaceAllChar(ToLowerCase(s), '.', '-')
  }

  // ---------------------------------------------------------------------
  // aliasToCssVar
  // ---------------------------------------------------------------------

  /** Normalising and dropping the first braces commute: the result of
      `aliasToCssVar` is the alias with its first `{` and its first `}` taken
      out, every other character kept in place and only lower-cased or turned
      from `.` into `-`. */
  lemma AliasToCssVarDropsOnlyFirstBraces(alias: string)
    ensures AliasToCssVar(alias) == "--" + Normalize(ReplaceFirst(ReplaceFirst(alias, "{", ""), "}", ""))
  {
    var n := Normalize(alias);
    assert n == ReplaceAllChar(ToLowerCase(alias), '.', '-');
    RemoveFirstCharImage(alias, n, '{', CssChar);
    var a1 := ReplaceFirst(alias, "{", "");
    var n1 := ReplaceFirst(n, "{", "");
    RemoveFirstCharImage(a1, n1, '}', CssChar);
  }

  /** The length shrinks by one for each brace kind present. */
  lemma AliasToCssVarLength(alias: string)
    ensures |AliasToCssVar(alias)| ==
            |alias| + 2 - (if '{' in alias then 1 else 0) - (if '}' in alias then 1 else 0)
  {
    AliasToCssVarDropsOnlyFirstBraces(alias);
    var a1 := ReplaceFirst(alias, "{", "");
    RemoveFirstChar(alias, '{');
    RemoveFirstChar(a1, '}');
    ClosingBraceSurvives(alias);
  }

  /** Dropping the first `{` keeps every `}`. */
  lemma ClosingBraceSurvives(alias: string)
    ensures ('}' in ReplaceFirst(alias, "{", "")) <==> ('}' in alias)
  {
    var a1 := ReplaceFirst(alias, "{", "");
    RemoveFirstChar(alias, '{');
    assert multiset(a1)['}'] == multiset(alias)['}'];
    assert ('}' in a1) <==> ('}' in multiset(a1));
    assert ('}' in alias) <==> ('}' in multiset(alias));
  }

  /** An alias `{path}` whose path holds no brace becomes `--` and the
      normalised path. */
  lemma AliasOfBraceFreePath(inner: string)
    requires '{' !in inner && '}' !in inner
    ensures AliasToCssVar("{" + inner + "}") == "--" + Normalize(inner)
  {
    var s := "{" + inner + "}";
    assert IsFirstOccurrence(s, "{", 0);
    ReplaceFirstAt(s, "{", "", 0);
    assert ReplaceFirst(s, "{", "") == inner + "}";
    var t := inner + "}";
    assert IsFirstOccurrence(t, "}", |inner|) by {
      assert t[|inner|..|inner| + 1] == "}";
      forall j | 0 <= j < |inner|
        ensures !OccursAt(t, "}", j)
      {
        assert t[j..j + 1][0] == inner[j];
      }
    }
    ReplaceFirstAt(t, "}", "", |inner|);
    assert ReplaceFirst(t, "}", "") == inner;
    AliasToCssVarDropsOnlyFirstBraces(s);
  }

  /** Where the characters of `p + s` come from. */
  lemma ConcatIndex(p: string, s: string)
    ensures |p + s| == |p| + |s|
    ensures forall i :: 0 <= i < |p| ==> (p + s)[i] == p[i]
    ensures forall i :: |p| <= i < |p| + |s| ==> (p + s)[i] == s[i - |p|]
  {
  }

  /** The alias spelled `{Color.Base.Red.Red-10}` is a brace-wrapped path that
      holds no further brace and normalises to `color-base-red-red-10`,
      character by character. */
  lemma SourceCommentPath(alias: string)
    requires |alias| == 23
    requires alias[0] == '{' && alias[1] == 'C' && alias[2] == 'o' && alias[3] == 'l' && alias[4] == 'o' && alias[5] == 'r' &&
             alias[6] == '.' && alias[7] == 'B' && alias[8] == 'a' && alias[9] == 's' && alias[10] == 'e' && alias[11] == '.' &&
             alias[12] == 'R' && alias[13] == 'e' && alias[14] == 'd' && alias[15] == '.' && alias[16] == 'R' && alias[17] == 'e' &&
             alias[18] == 'd' && alias[19] == '-' && alias[20] == '1' && alias[21] == '0' && alias[22] == '}'
    ensures alias == "{" + alias[1..22] + "}"
    ensures '{' !in alias[1..22] && '}' !in alias[1..22]
    ensures var r := Normalize(alias[1..22]);
            r[0] == 'c' && r[1] == 'o' && r[2] == 'l' && r[3] == 'o' && r[4] == 'r' && r[5] == '-' &&
            r[6] == 'b' && r[7] == 'a' && r[8] == 's' && r[9] == 'e' && r[10] == '-' && r[11] == 'r' &&
            r[12] == 'e' && r[13] == 'd' && r[14] == '-' && r[15] == 'r' && r[16] == 'e' && r[17] == 'd' &&
            r[18] == '-' && r[19] == '1' && r[20] == '0'
  {
    var inner := alias[1..22];
    assert alias == "{" + inner + "}";
    assert forall i :: 0 <= i < 21 ==> inner[i] == alias[i + 1];
  }

  lemma SpellsColorBaseRedRed10(r: string)
    requires |r| == 23 && r[0] == '-' && r[1] == '-' &&
             r[2] == 'c' && r[3] == 'o' && r[4] == 'l' && r[5] == 'o' && r[6] == 'r' && r[7] == '-' &&
             r[8] == 'b' && r[9] == 'a' && r[10] == 's' && r[11] == 'e' && r[12] == '-' && r[13] == 'r' &&
             r[14] == 'e' && r[15] == 'd' && r[16] == '-' && r[17] == 'r' && r[18] == 'e' && r[19] == 'd' &&
             r[20] == '-' && r[21] == '1' && r[22] == '0'
    ensures r == "--color-base-red-red-10"
  {
  }

  /** The example in the source's own comment: the alias spelled
      `{Color.Base.Red.Red-10}` (given character by character) becomes
      `--color-base-red-red-10`. The examples take their strings character by
      character because a string literal lets the verifier unfold the
      recursive string functions character by character; for this 23-character
      alias even a lemma that only hands the literal on to this one costs
      close to the verifier's resource limit, so the literal form is given
      only for the shorter examples below. */
  lemma AliasToCssVarExample(alias: string)
    requires |alias| == 23
    requires alias[0] == '{' && alias[1] == 'C' && alias[2] == 'o' && alias[3] == 'l' && alias[4] == 'o' && alias[5] == 'r' &&
             alias[6] == '.' && alias[7] == 'B' && alias[8] == 'a' && alias[9] == 's' && alias[10] == 'e' && alias[11] == '.' &&
             alias[12] == 'R' && alias[13] == 'e' && alias[14] == 'd' && alias[15] == '.' && alias[16] == 'R' && alias[17] == 'e' &&
             alias[18] == 'd' && alias[19] == '-' && alias[20] == '1' && alias[21] == '0' && alias[22] == '}'
    ensures AliasToCssVar(alias) == "--color-base-red-red-10"
  {
    SourceCommentPath(alias);
    var n := Normalize(alias[1..22]);
    AliasOfBraceFreePath(alias[1..22]);
    ConcatIndex("--", n);
    SpellsColorBaseRedRed10("--" + n);
  }

  /** A leading `{` is the first one, so `replace` drops exactly it. */
  lemma DropLeadingBrace(s: string)
    requires |s| > 0 && s[0] == '{'
    ensures ReplaceFirst(s, "{", "") == s[1..]
  {
    assert IsFirstOccurrence(s, "{", 0);
    ReplaceFirstAt(s, "{", "", 0);
  }

  /** In `a{b}c}` the first `}` is at 3; taking it out leaves `a{bc}`. */
  lemma InnerClosingBraceFirst(t: string)
    requires |t| == 6
    requires t[0] == 'a' && t[1] == '{' && t[2] == 'b' && t[3] == '}' && t[4] == 'c' && t[5] == '}'
    ensures var u := ReplaceFirst(t, "}", "");
            |u| == 5 && u[0] == 'a' && u[1] == '{' && u[2] == 'b' && u[3] == 'c' && u[4] == '}'
  {
    assert IsFirstOccurrence(t, "}", 3) by {
      assert !OccursAt(t, "}", 0) && !OccursAt(t, "}", 1) && !OccursAt(t, "}", 2);
    }
    ReplaceFirstAt(t, "}", "", 3);
    var u := ReplaceFirst(t, "}", "");
    assert u == t[..3] + t[4..];
  }

  /** `a{bc}` holds no capital and no `.`, so normalising keeps it. */
  lemma InnerBracesNormalized(u: string)
    requires |u| == 5 && u[0] == 'a' && u[1] == '{' && u[2] == 'b' && u[3] == 'c' && u[4] == '}'
    ensures "--" + Normalize(u) == "--a{bc}"
  {
    var n := Normalize(u);
    assert n[0] == 'a' && n[1] == '{' && n[2] == 'b' && n[3] == 'c' && n[4] == '}';
    ConcatIndex("--", n);
    var r := "--" + n;
    assert r[0] == '-' && r[1] == '-' && r[2] == 'a' && r[3] == '{' && r[4] == 'b' && r[5] == 'c' && r[6] == '}';
  }

  /** Only the first `{` and the first `}` go, later braces stay: the alias
      spelled `{a{b}c}` becomes `--a{bc}`. */
  lemma AliasInnerBracesKept(alias: string)
    requires |alias| == 7
    requires alias[0] == '{' && alias[1] == 'a' && alias[2] == '{' && alias[3] == 'b' && alias[4] == '}' && alias[5] == 'c' &&
             alias[6] == '}'
    ensures AliasToCssVar(alias) == "--a{bc}"
  {
    DropLeadingBrace(alias);
    var t := alias[1..];
    InnerClosingBraceFirst(t);
    InnerBracesNormalized(ReplaceFirst(t, "}", ""));
    AliasToCssVarDropsOnlyFirstBraces(alias);
  }

  /** The `{a{b}c}` example written with string literals. */
  lemma InnerBracesExample()
    ensures AliasToCssVar("{a{b}c}") == "--a{bc}"
  {
    AliasInnerBracesKept("{a{b}c}");
  }

  // ---------------------------------------------------------------------
  // Keys and aliases name the same property
  // ---------------------------------------------------------------------

  /** A path segment usable both in a slash-joined key and a dotted alias. */
  predicate PlainSegment(seg: string) {
    '.' !in seg && '/' !in seg && '{' !in seg && '}' !in seg
  }

  /** Character `d` of a dot-joined path and character `k` of the slash-joined
      one at the same index: both separators, or the same non-separator. */
  predicate SameUpToSeparator(d: char, k: char) {
    (d == '.' && k == '/') || (d == k && d != '.' && d != '/')
  }

  lemma {:induction false} JoinSwapSeparator(segs: seq<string>)
    requires forall i :: 0 <= i < |segs| ==> PlainSegment(segs[i])
    ensures |Join(segs, "/")| == |Join(segs, ".")|
    ensures forall k :: 0 <= k < |Join(segs, ".")| ==> SameUpToSeparator(Join(segs, ".")[k], Join(segs, "/")[k])
  {
    if |segs| == 1 {
      assert PlainSegment(segs[0]);
    } else if |segs| > 1 {
      var x := segs[0];
      assert PlainSegment(x);
      JoinSwapSeparator(segs[1..]);
      var d := Join(segs[1..], ".");
      var k := Join(segs[1..], "/");
      assert Join(segs, ".") == x + "." + d;
      assert Join(segs, "/") == x + "/" + k;
      forall j | 0 <= j < |Join(segs, ".")|
        ensures SameUpToSeparator(Join(segs, ".")[j], Join(segs, "/")[j])
      {
        if j < |x| {
          assert x[j] in x;
        } else if j > |x| {
          assert Join(segs, ".")[j] == d[j - |x| - 1];
          assert Join(segs, "/")[j] == k[j - |x| - 1];
        }
      }
    }
  }

  /** Normalising a slash-joined key the way keys are normalised gives the
      same text as normalising the dot-joined path the way aliases are. */
  lemma KeyAndPathNormaliseAlike(segs: seq<string>)
    requires forall i :: 0 <= i < |segs| ==> PlainSegment(segs[i])
    ensures ReplaceAllChar(ToLowerCase(Join(segs, "/")), '/', '-') == Normalize(Join(segs, "."))
  {
    var d := Join(segs, ".");
    var k := Join(segs, "/");
    JoinSwapSeparator(segs);
    var lhs := ReplaceAllChar(ToLowerCase(k), '/', '-');
    var rhs := Normalize(d);
    forall j | 0 <= j < |d|
      ensures lhs[j] == rhs[j]
    {
      assert SameUpToSeparator(d[j], k[j]);
    }
  }

  /** The path joined by dots holds no brace. */
  lemma DottedPathBraceFree(segs: seq<string>)
    requires forall i :: 0 <= i < |segs| ==> PlainSegment(segs[i])
    ensures '{' !in Join(segs, ".") && '}' !in Join(segs, ".")
  {
    JoinChars(segs, ".");
    forall i | 0 <= i < |segs| ensures '{' !in segs[i] && '}' !in segs[i] {
      assert PlainSegment(segs[i]);
    }
  }

  /** The property name declared for a key `A/B/C` equals the name
      `aliasToCssVar` gives the alias `{A.B.C}`, so every `var()` written for
      an alias names a declared property. */
  lemma NameConsistency(segs: seq<string>)
    requires forall i :: 0 <= i < |segs| ==> PlainSegment(segs[i])
    ensures PropertyName(Join(segs, "/")) == AliasToCssVar("{" + Join(segs, ".") + "}")
  {
    DottedPathBraceFree(segs);
    AliasOfBraceFreePath(Join(segs, "."));
    KeyAndPathNormaliseAlike(segs);
  }

  /** The path inside the alias spelled `{Color.Base.Red-10}` holds no brace
      and normalises to `color-base-red-10`, character by character. */
  lemma RedTenPath(alias: string)
    requires |alias| == 19
    requires alias[0] == '{' && alias[1] == 'C' && alias[2] == 'o' && alias[3] == 'l' && alias[4] == 'o' && alias[5] == 'r' &&
             alias[6] == '.' && alias[7] == 'B' && alias[8] == 'a' && alias[9] == 's' && alias[10] == 'e' && alias[11] == '.' &&
             alias[12] == 'R' && alias[13] == 'e' && alias[14] == 'd' && alias[15] == '-' && alias[16] == '1' && alias[17] == '0' &&
             alias[18] == '}'
    ensures alias == "{" + alias[1..18] + "}"
    ensures '{' !in alias[1..18] && '}' !in alias[1..18]
    ensures var r := Normalize(alias[1..18]);
            r[0] == 'c' && r[1] == 'o' && r[2] == 'l' && r[3] == 'o' && r[4] == 'r' && r[5] == '-' &&
            r[6] == 'b' && r[7] == 'a' && r[8] == 's' && r[9] == 'e' && r[10] == '-' && r[11] == 'r' &&
            r[12] == 'e' && r[13] == 'd' && r[14] == '-' && r[15] == '1' && r[16] == '0'
  {
    var inner := alias[1..18];
    assert alias == "{" + inner + "}";
    assert forall i :: 0 <= i < 17 ==> inner[i] == alias[i + 1];
  }

  /** The key spelled `Color/Base/Red-10`, lower-cased with `/` turned into
      `-`, is `color-base-red-10`, character by character. */
  lemma RedTenKeyChars(key: string)
    requires |key| == 17
    requires key[0] == 'C' && key[1] == 'o' && key[2] == 'l' && key[3] == 'o' && key[4] == 'r' && key[5] == '/' &&
             key[6] == 'B' && key[7] == 'a' && key[8] == 's' && key[9] == 'e' && key[10] == '/' && key[11] == 'R' &&
             key[12] == 'e' && key[13] == 'd' && key[14] == '-' && key[15] == '1' && key[16] == '0'
    ensures var r := ReplaceAllChar(ToLowerCase(key), '/', '-');
            r[0] == 'c' && r[1] == 'o' && r[2] == 'l' && r[3] == 'o' && r[4] == 'r' && r[5] == '-' &&
            r[6] == 'b' && r[7] == 'a' && r[8] == 's' && r[9] == 'e' && r[10] == '-' && r[11] == 'r' &&
            r[12] == 'e' && r[13] == 'd' && r[14] == '-' && r[15] == '1' && r[16] == '0'
  {
  }

  lemma SpellsColorBaseRed10(r: string)
    requires |r| == 19 && r[0] == '-' && r[1] == '-' &&
             r[2] == 'c' && r[3] == 'o' && r[4] == 'l' && r[5] == 'o' && r[6] == 'r' && r[7] == '-' &&
             r[8] == 'b' && r[9] == 'a' && r[10] == 's' && r[11] == 'e' && r[12] == '-' && r[13] == 'r' &&
             r[14] == 'e' && r[15] == 'd' && r[16] == '-' && r[17] == '1' && r[18] == '0'
    ensures r == "--color-base-red-10"
  {
  }

  /** The key spelled `Color/Base/Red-10` declares `--color-base-red-10`. */
  lemma RedTenKey(key: string)
    requires |key| == 17
    requires key[0] == 'C' && key[1] == 'o' && key[2] == 'l' && key[3] == 'o' && key[4] == 'r' && key[5] == '/' &&
             key[6] == 'B' && key[7] == 'a' && key[8] == 's' && key[9] == 'e' && key[10] == '/' && key[11] == 'R' &&
             key[12] == 'e' && key[13] == 'd' && key[14] == '-' && key[15] == '1' && key[16] == '0'
    ensures PropertyName(key) == "--color-base-red-10"
  {
    RedTenKeyChars(key);
    var n := ReplaceAllChar(ToLowerCase(key), '/', '-');
    ConcatIndex("--", n);
    SpellsColorBaseRed10("--" + n);
  }

  /** The alias spelled `{Color.Base.Red-10}` refers to `--color-base-red-10`. */
  lemma RedTenAlias(alias: string)
    requires |alias| == 19
    requires alias[0] == '{' && alias[1] == 'C' && alias[2] == 'o' && alias[3] == 'l' && alias[4] == 'o' && alias[5] == 'r' &&
             alias[6] == '.' && alias[7] == 'B' && alias[8] == 'a' && alias[9] == 's' && alias[10] == 'e' && alias[11] == '.' &&
             alias[12] == 'R' && alias[13] == 'e' && alias[14] == 'd' && alias[15] == '-' && alias[16] == '1' && alias[17] == '0' &&
             alias[18] == '}'
    ensures AliasToCssVar(alias) == "--color-base-red-10"
  {
    RedTenPath(alias);
    var n := Normalize(alias[1..18]);
    AliasOfBraceFreePath(alias[1..18]);
    ConcatIndex("--", n);
    SpellsColorBaseRed10("--" + n);
  }

  /** The key spelled `Color/Base/Red-10` and the alias spelled `{Color.Base.Red-10}`
      name the same property, `--color-base-red-10`. */
  lemma NameConsistencyExample(key: string, alias: string)
    requires |key| == 17
    requires key[0] == 'C' && key[1] == 'o' && key[2] == 'l' && key[3] == 'o' && key[4] == 'r' && key[5] == '/' &&
             key[6] == 'B' && key[7] == 'a' && key[8] == 's' && key[9] == 'e' && key[10] == '/' && key[11] == 'R' &&
             key[12] == 'e' && key[13] == 'd' && key[14] == '-' && key[15] == '1' && key[16] == '0'
    requires |alias| == 19
    requires alias[0] == '{' && alias[1] == 'C' && alias[2] == 'o' && alias[3] == 'l' && alias[4] == 'o' && alias[5] == 'r' &&
             alias[6] == '.' && alias[7] == 'B' && alias[8] == 'a' && alias[9] == 's' && alias[10] == 'e' && alias[11] == '.' &&
             alias[12] == 'R' && alias[13] == 'e' && alias[14] == 'd' && alias[15] == '-' && alias[16] == '1' && alias[17] == '0' &&
             alias[18] == '}'
    ensures PropertyName(key) == AliasToCssVar(alias) == "--color-base-red-10"
  {
    RedTenKey(key);
    RedTenAlias(alias);
  }

  /** The `Color/Base/Red-10` example written with string literals. */
  lemma RedTenExample()
    ensures PropertyName("Color/Base/Red-10") == AliasToCssVar("{Color.Base.Red-10}") == "--color-base-red-10"
  {
    NameConsistencyExample("Color/Base/Red-10", "{Color.Base.Red-10}");
  }

  // ---------------------------------------------------------------------
  // basicValueFromToken and the value text
  // ---------------------------------------------------------------------

  /** The text written after `: ` for a token. */
  function ValueText(token: Token, colorText: string -> string): string {
    Interpolate(BasicValueFromToken(token, colorText))
  }

  /** A string is an alias exactly when it has a leading `{` and a trailing
      `}` that are two different characters; the empty string, `{` alone and
      `}` alone are not aliases. */
  lemma IsAliasExactly(s: string)
    ensures IsAlias(s) <==> |s| >= 2 && s[0] == '{' && s[|s| - 1] == '}'
    ensures !IsAlias("") && !IsAlias("{") && !IsAlias("}") && IsAlias("{}")
  {
  }

  /** An object-shaped value gives the fixed sentinel, quotes included,
      whatever its `$type`. */
  lemma CompositeYieldsSentinel(ty: Option<string>, colorText: string -> string)
    ensures ValueText(Token(Obj, ty), colorText) == "\"composite_type_not_supported_error\""
  {
  }

  /** An alias gives `var(` + its custom-property name + `)`, for every
      `$type`: the alias test comes before the colour test. */
  lemma AliasYieldsVarReference(s: string, ty: Option<string>, colorText: string -> string)
    requires IsAlias(s)
    ensures ValueText(Token(Str(s), ty), colorText) == "var(" + AliasToCssVar(s) + ")"
  {
  }

  /** A colour-typed string that is no alias goes to the colour branch. */
  lemma ColorStringUsesColorBranch(s: string, colorText: string -> string)
    requires !IsAlias(s)
    ensures ValueText(Token(Str(s), Some(ColorType)), colorText) == colorText(s)
  {
  }

  /** Any other string is wrapped in double quotes with its content
      unchanged. */
  lemma PlainStringIsQuoted(s: string, ty: Option<string>, colorText: string -> string)
    requires !IsAlias(s) && ty != Some(ColorType)
    ensures var t := ValueText(Token(Str(s), ty), colorText);
      |t| == |s| + 2 && t[0] == '"' && t[|t| - 1] == '"' && t[1..|t| - 1] == s
  {
    var t := ValueText(Token(Str(s), ty), colorText);
    assert t == "\"" + s + "\"";
    assert t[1..|t| - 1] == s;
  }

  /** Numbers and booleans pass through: a number is written as its decimal
      text, which reads back as the same number, a boolean as `true` or
      `false`. */
  lemma NumbersAndBooleansPassThrough(n: int, b: bool, ty: Option<string>, colorText: string -> string)
    ensures BasicValueFromToken(Token(Num(n), ty), colorText) == Number(n)
    ensures ParseInt(ValueText(Token(Num(n), ty), colorText)) == n
    ensures BasicValueFromToken(Token(Bool(b), ty), colorText) == Boolean(b)
    ensures ValueText(Token(Bool(b), ty), colorText) == if b then "true" else "false"
  {
    ParseIntToString(n);
  }

  /** The text starts a `var()` reference. */
  predicate IsVarReference(t: string) {
    |t| >= 4 && t[..4] == "var("
  }

  /** Outside the colour type, a value text is a `var()` reference exactly
      when the value is an alias string. */
  lemma VarReferenceIffAlias(v: Value, ty: Option<string>, colorText: string -> string)
    requires ty != Some(ColorType)
    ensures IsVarReference(ValueText(Token(v, ty), colorText)) <==> v.Str? && IsAlias(v.s)
  {
    match v
    case Str(s) =>
      if IsAlias(s) {
        AliasYieldsVarReference(s, ty, colorText);
        VarReferenceOf(AliasToCssVar(s));
      } else {
        PlainStringIsQuoted(s, ty, colorText);
        NoVarReference(ValueText(Token(v, ty), colorText));
      }
    case Num(n) =>
      NoVarReference(IntToString(n));
    case Bool(b) =>
      NoVarReference(if b then "true" else "false");
    case Obj =>
      CompositeYieldsSentinel(ty, colorText);
      NoVarReference(CompositeSentinel);
  }

  lemma VarReferenceOf(name: string)
    ensures IsVarReference("var(" + name + ")")
  {
    assert ("var(" + name + ")")[..4] == "var(";
  }

  lemma NoVarReference(t: string)
    requires |t| > 0 && t[0] != 'v'
    ensures !IsVarReference(t)
  {
    assert |t| >= 4 ==> t[..4][0] == t[0];
  }

  /** An alias `{A.B.C}` resolves to the property declared for key `A/B/C`,
      whatever its `$type`. */
  lemma AliasResolvesToDeclaredProperty(segs: seq<string>, ty: Option<string>, colorText: string -> string)
    requires forall i :: 0 <= i < |segs| ==> PlainSegment(segs[i])
    ensures ValueText(Token(Str("{" + Join(segs, ".") + "}"), ty), colorText) ==
            "var(" + PropertyName(Join(segs, "/")) + ")"
  {
    NameConsistency(segs);
    var s := "{" + Join(segs, ".") + "}";
    assert IsAlias(s);
  }

  // ---------------------------------------------------------------------
  // processJsonToCssVars
  // ---------------------------------------------------------------------

  /** The lines follow the entries: converting two runs of entries one after
      the other gives their lines one after the other. */
  lemma {:induction false} ProcessJsonToCssVarsAppend(a: seq<(string, Token)>, b: seq<(string, Token)>, colorText: string -> string)
    ensures ProcessJsonToCssVars(a + b, colorText) == ProcessJsonToCssVars(a, colorText) + ProcessJsonToCssVars(b, colorText)
  {
    if a == [] {
      assert a + b == b;
    } else {
      assert (a + b)[1..] == a[1..] + b;
      ProcessJsonToCssVarsAppend(a[1..], b, colorText);
      var d := [Declaration(a[0].0, a[0].1, colorText)];
      AppendAssociative(d, ProcessJsonToCssVars(a[1..], colorText), ProcessJsonToCssVars(b, colorText));
    }
  }

  /** `line` is the declaration `name: v;`, read back piece by piece. */
  predicate DeclaresAs(line: string, name: string, v: string) {
    |line| == |name| + 2 + |v| + 1 &&
    line[..|name|] == name &&
    line[|name|..|name| + 2] == ": " &&
    line[|name| + 2..|line| - 1] == v &&
    line[|line| - 1] == ';'
  }

  lemma DeclarationPieces(name: string, v: string)
    ensures DeclaresAs(name + ": " + v + ";", name, v)
  {
    var line := name + ": " + v + ";";
    assert line[..|name|] == name;
    assert line[|name|..|name| + 2] == ": ";
    assert line[|name| + 2..|line| - 1] == v;
  }

  /** Each line declares the property named after its own entry's key: it
      starts with that name and `: `, ends with `;`, and the value text of
      the entry's token stands in between. */
  lemma DeclarationLinesNameTheirKeys(entries: seq<(string, Token)>, colorText: string -> string)
    ensures forall i :: 0 <= i < |entries| ==>
              DeclaresAs(ProcessJsonToCssVars(entries, colorText)[i], PropertyName(entries[i].0), ValueText(entries[i].1, colorText))
  {
    forall i | 0 <= i < |entries|
      ensures DeclaresAs(ProcessJsonToCssVars(entries, colorText)[i], PropertyName(entries[i].0), ValueText(entries[i].1, colorText))
    {
      DeclarationPieces(PropertyName(entries[i].0), ValueText(entries[i].1, colorText));
    }
  }

  // ---------------------------------------------------------------------
  // The output name and the :root block
  // ---------------------------------------------------------------------

  /** Only the first `.json` becomes `.css`; whatever follows it is kept. */
  lemma OutfileNameReplacesFirstJson(base: string, rest: string)
    requires '.' !in base
    ensures OutfileName(base + ".json" + rest) == "dist/" + base + ".css" + rest
  {
    var s := base + ".json" + rest;
    assert IsFirstOccurrence(s, ".json", |base|) by {
      assert s[|base|..|base| + 5] == ".json";
      forall j | 0 <= j < |base|
        ensures !OccursAt(s, ".json", j)
      {
        assert s[j] == base[j];
        if j + 5 <= |s| {
          assert s[j..j + 5][0] == s[j];
        }
      }
    }
    ReplaceFirstAt(s, ".json", ".css", |base|);
    assert s[..|base|] == base;
    assert s[|base| + 5..] == rest;
  }

  /** In general: the name with its first `.json`, at `k`, replaced by `.css`. */
  lemma OutfileNameAtFirstJson(name: string, k: nat)
    requires IsFirstOccurrence(name, ".json", k)
    ensures OutfileName(name) == "dist/" + name[..k] + ".css" + name[k + 5..]
  {
    ReplaceFirstAt(name, ".json", ".css", k);
  }

  /** A name without `.json` is kept unchanged. */
  lemma OutfileNameWithoutJson(name: string)
    requires forall k :: !OccursAt(name, ".json", k)
    ensures OutfileName(name) == "dist/" + name
  {
    ReplaceFirstAbsent(name, ".json", ".css");
  }


  /** The `:root {` line comes off first. */
  lemma RootBlockFirstLine(lines: seq<string>)
    ensures Split(RootBlock(lines), '\n') == [":root {"] + Split(Join(Indent(lines), "\n") + "\n}", '\n')
  {
    var x := Join(Indent(lines), "\n") + "\n}";
    assert RootBlock(lines) == ":root {" + ['\n'] + x;
    SplitAfterPiece(":root {", x, '\n');
  }

  /** The closing `\n}` adds `}` as one more line. */
  lemma JoinThenClosingBrace(parts: seq<string>)
    requires |parts| > 0
    ensures Join(parts, "\n") + "\n}" == Join(parts + ["}"], "\n")
  {
    JoinThenSeparatorAndLast(parts, "\n", "}");
    assert "\n" + "}" == "\n}";
  }

  lemma JoinThenSeparatorAndLast(parts: seq<string>, sep: string, x: string)
    requires |parts| > 0
    ensures Join(parts, sep) + (sep + x) == Join(parts + [x], sep)
  {
    JoinSnoc(parts, x, sep);
    AppendAssociative(Join(parts, sep), sep, x);
  }

  lemma IndentedThenBraceSingleLines(lines: seq<string>)
    requires forall i :: 0 <= i < |lines| ==> '\n' !in lines[i]
    ensures forall i :: 0 <= i < |Indent(lines) + ["}"]| ==> '\n' !in (Indent(lines) + ["}"])[i]
  {
    var ind := Indent(lines);
    forall i | 0 <= i < |ind + ["}"]|
      ensures '\n' !in (ind + ["}"])[i]
    {
      if i < |ind| {
        assert '\n' !in lines[i];
        assert (ind + ["}"])[i] == "  " + lines[i];
      }
    }
  }

  /** The indented lines, then `}`, when no line holds a newline. */
  lemma RootBlockBody(lines: seq<string>)
    requires |lines| > 0
    requires forall i :: 0 <= i < |lines| ==> '\n' !in lines[i]
    ensures Split(Join(Indent(lines), "\n") + "\n}", '\n') == Indent(lines) + ["}"]
  {
    JoinThenClosingBrace(Indent(lines));
    IndentedThenBraceSingleLines(lines);
    SplitJoin(Indent(lines) + ["}"], '\n');
  }

  /** With no declarations, an empty line, then `}`. */
  lemma RootBlockEmptyBody()
    ensures Split(Join(Indent([]), "\n") + "\n}", '\n') == ["", "}"]
  {
    assert Join(Indent([]), "\n") + "\n}" == [] + ['\n'] + "}";
    SplitAfterPiece("", "}", '\n');
    SplitNoSeparator("}", '\n');
  }

  /** With declarations, the block reads back as `:root {`, the indented
      declarations and `}`. */
  lemma RootBlockLinesNonEmpty(lines: seq<string>)
    requires lines != []
    requires forall i :: 0 <= i < |lines| ==> '\n' !in lines[i]
    ensures Split(RootBlock(lines), '\n') == [":root {"] + Indent(lines) + ["}"]
  {
    RootBlockFirstLine(lines);
    RootBlockBody(lines);
    AppendAssociative([":root {"], Indent(lines), ["}"]);
  }

  /** Without declarations, the block reads back as `:root {`, an empty line
      and `}`. */
  lemma RootBlockLinesEmpty()
    ensures Split(RootBlock([]), '\n') == [":root {", "", "}"]
  {
    RootBlockFirstLine([]);
    RootBlockEmptyBody();
  }

  /** Read back line by line, the block is the `:root {` line, each
      declaration indented by two spaces, and `}`; with no declarations an
      empty line stands between the two. */
  lemma RootBlockLines(lines: seq<string>)
    requires forall i :: 0 <= i < |lines| ==> '\n' !in lines[i]
    ensures lines == [] ==> Split(RootBlock(lines), '\n') == [":root {", "", "}"]
    ensures lines != [] ==> Split(RootBlock(lines), '\n') == [":root {"] + Indent(lines) + ["}"]
  {
    if lines == [] {
      RootBlockLinesEmpty();
    } else {
      RootBlockLinesNonEmpty(lines);
    }
  }

  lemma AppendAssociative<T>(a: seq<T>, b: seq<T>, c: seq<T>)
    ensures a + (b + c) == a + b + c
  {
  }
}
