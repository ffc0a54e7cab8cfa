/** The token-to-CSS transformation of `src/tokens_to_css.ts`: alias
    rewriting, the per-token value text, the declaration lines of a flattened
    token file, and the output name and `:root` block that the driver builds. */
module TokensToCss {
  import opened JsString

  datatype Option<T> = None | Some(value: T)

  /** The shape of a token's `$value`. `Obj` stands for every value whose
      `typeof` is `'object'`: a JSON object, an array, or `null`. Numbers are
      integers in this model. */
  datatype Value = Str(s: string) | Num(n: int) | Bool(b: bool) | Obj

  /** A leaf token: its `$value` and its optional `$type`. */
  datatype Token = Token(value: Value, ty: Option<string>)

  /** What `basicValueFromToken` returns, `string | number | boolean`. */
  datatype Rendered = Text(text: string) | Number(n: int) | Boolean(b: bool)

  /** The text returned for a composite value, double quotes included. */
  const CompositeSentinel: string := "\"composite_type_not_supported_error\""

  /** The `$type` that selects the colour branch. */
  const ColorType: string := "color"

  /** `aliasToCssVar`: lower-case the alias, turn every `.` into `-`, drop the
      first `{` and then the first `}`, and prefix `--`. */
  function AliasToCssVar(alias: string): (r: string)
    ensures |r| >= 2 && r[..2] == "--"
    ensures '.' !in r
    ensures forall c :: c in r ==> !IsUpper(c)
  {
    var dashed := ReplaceAllChar(ToLowerCase(alias), '.', '-');
    ReplaceFirstChars(dashed, "{", "");
    ReplaceFirstChars(ReplaceFirst(dashed, "{", ""), "}", "");
    "--" + ReplaceFirst(ReplaceFirst(dashed, "{", ""), "}", "")
  }

  /** The alias test of `basicValueFromToken`: the first character is `{` and
      the last is `}`; the empty string has neither, and a lone `{` or `}`
      fails one of the two, so an alias has at least two characters. */
  predicate IsAlias(s: string)
    ensures IsAlias(s) ==> |s| >= 2
  {
    |s| > 0 && s[0] == '{' && s[|s| - 1] == '}'
  }

  /** `basicValueFromToken`. The colour branch calls a colour parser and
      formats floating-point channels; here its result is the parameter
      `colorText` applied to the string. */
  function BasicValueFromToken(token: Token, colorText: string -> string): (r: Rendered)
    ensures r.Number? <==> token.value.Num?
    ensures r.Boolean? <==> token.value.Bool?
  {
    match token.value
    case Obj => Text(CompositeSentinel)
    case Str(s) =>
      if IsAlias(s) then Text("var(" + AliasToCssVar(s) + ")")
      else if token.ty == Some(ColorType) then Text(colorText(s))
      else Text("\"" + s + "\"")
    case Num(n) => Number(n)
    case Bool(b) => Boolean(b)
  }

  /** What `${v}` writes inside a template literal: text as it is, a number
      as decimal text that reads back as the same number, a boolean as
      `true` or `false`. */
  function Interpolate(v: Rendered): (r: string)
    ensures v.Text? ==> r == v.text
    ensures v.Number? ==> r == IntToString(v.n) && ParseInt(r) == v.n
    ensures v.Boolean? ==> (r == "true" <==> v.b) && (r == "false" <==> !v.b)
  {
    match v
    case Text(t) => t
    case Number(n) => ParseIntToString(n); IntToString(n)
    case Boolean(b) => if b then "true" else "false"
  }

  /** The custom-property name declared for a flattened key: lower-cased,
      every `/` turned into `-`, prefixed `--`. */
  function PropertyName(key: string): (r: string)
    ensures |r| == |key| + 2 && r[..2] == "--"
    ensures '/' !in r
    ensures forall c :: c in r ==> !IsUpper(c)
  {
    "--" + ReplaceAllChar(ToLowerCase(key), '/', '-')
  }

  /** The declaration line that `processJsonToCssVars` writes for one entry:
      it opens with the key's property name and closes with `;`. */
  function Declaration(key: string, token: Token, colorText: string -> string): (line: string)
    ensures |line| >= |PropertyName(key)| + 3
    ensures line[..|PropertyName(key)|] == PropertyName(key)
    ensures line[|line| - 1] == ';'
  {
    var name := PropertyName(key);
    var line := name + ": " + Interpolate(BasicValueFromToken(token, colorText)) + ";";
    assert line[..|name|] == name;
    line
  }

  /** `processJsonToCssVars` over the flattened entries, in the order
      `Object.entries` yields them: one declaration line per entry. */
  function ProcessJsonToCssVars(entries: seq<(string, Token)>, colorText: string -> string): (lines: seq<string>)
    ensures |lines| == |entries|
    ensures forall i :: 0 <= i < |entries| ==> lines[i] == Declaration(entries[i].0, entries[i].1, colorText)
  {
    if entries == [] then []
    else [Declaration(entries[0].0, entries[0].1, colorText)] + ProcessJsonToCssVars(entries[1..], colorText)
  }

  /** The output file name: `dist/` and the input name with its first
      `.json` replaced by `.css`. */
  function OutfileName(filePath: string): (r: string)
    ensures |r| >= 5 && r[..5] == "dist/"
  {
    "dist/" + ReplaceFirst(filePath, ".json", ".css")
  }

  /** Every line with two spaces in front. */
  function Indent(lines: seq<string>): (r: seq<string>)
    ensures |r| == |lines|
    ensures forall i :: 0 <= i < |lines| ==> r[i] == "  " + lines[i]
  {
    if lines == [] then [] else ["  " + lines[0]] + Indent(lines[1..])
  }

  /** The output text: the indented lines, joined by newlines, inside a
      `:root` block. */
  function RootBlock(lines: seq<string>): (r: string)
    ensures |r| >= 10
    ensures r[..8] == ":root {\n"
    ensures r[|r| - 2..] == "\n}"
  {
    var body := Join(Indent(lines), "\n");
    var r := ":root {\n" + body + "\n}";
    assert r[..8] == ":root {\n";
    assert r[|r| - 2..] == "\n}";
    r
  }
}
