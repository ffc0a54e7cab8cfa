# Design tokens to CSS custom properties

This project models the token-to-CSS transformation of `src/tokens_to_css.ts`
and proves properties of it. The transformation takes the flattened entries of
a design-tokens file, each a `(key, token)` pair, and produces two texts:

- a `:root { … }` block that declares one CSS custom property per entry;
- the name of the file that block is written to.

The model has three modules.

- `JsString` (`js_string.dfy`) models the JavaScript string built-ins the
  transformation calls:
  - `toLowerCase` on ASCII;
  - `replaceAll` with a one-character pattern;
  - `replace` with a string pattern and a replacement free of `$` patterns,
    which replaces the first occurrence only;
  - `join`;
  - integer-to-decimal conversion.

  It also has two reading aids that the source never calls: a line `Split`,
  and the inverse of the decimal conversion.
- `TokensToCss` (`tokens_to_css.dfy`) models these parts of the source:
  - `aliasToCssVar`;
  - `basicValueFromToken`;
  - the declaration line of `processJsonToCssVars`;
  - the output name and the `:root` block built in `main`.

  A token value is `Str | Num | Bool | Obj`, and a token may carry an
  optional `$type`.
- `TokensToCssProperties` (`tokens_to_css_properties.dfy`) proves the
  properties. It covers:
  - what alias rewriting keeps and drops;
  - which branch each kind of value takes;
  - that the property name declared for a key `A/B/C` is the name an alias
    `{A.B.C}` refers to;
  - that the lines follow the entries one for one;
  - how the output name and the `:root` block read back.

The model follows the code of `src/tokens_to_css.ts`, which:

- wraps plain strings in double quotes;
- writes numbers as they are, with no unit such as `px`;
- emits no comments between groups of tokens;
- removes only the first `{` and the first `}` of an alias, strips no
  parentheses and turns no whitespace into `-`;
- writes custom properties in a `:root` block only, with no SCSS
  placeholder selector.

## Model

| member | source | states |
|---|---|---|
| JsString.LowerChar | src/tokens_to_css.ts:32 | An ASCII capital becomes the small letter 32 code points above it. Every other character is kept. No result is a capital. |
| JsString.ToLowerCase | src/tokens_to_css.ts:32 | `toLowerCase` keeps the length. The result holds no ASCII capital, and every character that is no capital stays where it was. |
| JsString.ToLowerCaseIdempotent | src/tokens_to_css.ts:32 | Lower-casing twice gives the same text as lower-casing once. |
| JsString.ToLowerCaseNoCapitals | src/tokens_to_css.ts:32 | A text without ASCII capitals is its own lower-case form. |
| JsString.ReplaceAllChar | src/tokens_to_css.ts:33 | `replaceAll` with a one-character pattern keeps the length. It replaces exactly the positions that held the pattern character, so that character no longer occurs. |
| JsString.ReplaceFirst | src/tokens_to_css.ts:34-35 | `replace` (here and at line 22) makes at most one replacement: the length either stays or changes by the replacement's length less the pattern's. |
| JsString.ReplaceFirstAt | src/tokens_to_css.ts:34-35 | If the first occurrence of the pattern is at `k`, `replace` splices the replacement in at `k` and keeps everything before and after it. |
| JsString.ReplaceFirstAbsent | src/tokens_to_css.ts:34-35 | If the pattern does not occur, `replace` returns the string unchanged. |
| JsString.RemoveFirstChar | src/tokens_to_css.ts:34-35 | Replacing a one-character pattern by `''` removes exactly one copy of it when it occurs and nothing otherwise. This is stated as a multiset of characters, and the length drops by one when the character occurs. |
| JsString.Join | src/tokens_to_css.ts:23 | A join of at least one part starts with the first part and is at least as long as the separators between the parts. |
| JsString.SplitJoin | src/tokens_to_css.ts:23 | At least one line, none of which holds a newline, joined by `\n`, reads back as the same lines. The empty list reads back as one empty line instead. |
| JsString.JoinSplit | src/tokens_to_css.ts:23 | Joining the lines of a text with `\n` gives the text back. |
| JsString.IntToString | src/tokens_to_css.ts:78 | The decimal text of an integer is non-empty and starts with a digit, or with `-` for a negative number. |
| JsString.ParseIntToString | src/tokens_to_css.ts:78 | The decimal text of an integer reads back as the same integer, so a number is written without loss. |
| TokensToCss.AliasToCssVar | src/tokens_to_css.ts:29-36 | The name starts with `--`. It holds no `.` and no ASCII capital, whatever the alias. |
| TokensToCss.IsAlias | src/tokens_to_css.ts:50 | An alias has at least two characters, because a lone `{` or `}` fails one of the two tests. |
| TokensToCss.BasicValueFromToken | src/tokens_to_css.ts:40-72 | The result is a number exactly when the value is a number, and a boolean exactly when the value is a boolean. Every other value gives text. |
| TokensToCss.Interpolate | src/tokens_to_css.ts:78 | `${…}` writes text unchanged, a number as decimal text that reads back as the same number, and a boolean as `true` exactly when it is true, otherwise `false`. |
| TokensToCss.PropertyName | src/tokens_to_css.ts:78 | The declared name is `--` followed by the key with its length kept. It holds no `/` and no ASCII capital. |
| TokensToCss.Declaration | src/tokens_to_css.ts:78 | A declaration line opens with the key's property name and closes with `;`. It has room for at least `: ` between them. |
| TokensToCss.ProcessJsonToCssVars | src/tokens_to_css.ts:74-80 | There is exactly one line per entry, in entry order. Line `i` is the declaration of entry `i`'s key and token. |
| TokensToCss.Indent | src/tokens_to_css.ts:23 | There is one output line per line, each the same line after two spaces. |
| TokensToCss.OutfileName | src/tokens_to_css.ts:22 | The output name lies under `dist/`. |
| TokensToCss.RootBlock | src/tokens_to_css.ts:23 | The output text opens with `:root {` and a newline, and closes with a newline and `}`. |
| TokensToCssProperties.Normalize | src/tokens_to_css.ts:32-33 | Lower-casing and then turning `.` into `-` is one character map applied at every position. |
| TokensToCssProperties.AliasToCssVarDropsOnlyFirstBraces | src/tokens_to_css.ts:29-36 | The name is `--` plus the normalised alias with only its first `{` and its first `}` removed. So normalising and dropping the braces commute. |
| TokensToCssProperties.ClosingBraceSurvives | src/tokens_to_css.ts:34-35 | Dropping the first `{` keeps every `}`. |
| TokensToCssProperties.AliasToCssVarLength | src/tokens_to_css.ts:29-36 | The name's length is the alias's length + 2, less one for each brace kind present. |
| TokensToCssProperties.AliasOfBraceFreePath | src/tokens_to_css.ts:29-36 | A `{path}` with no brace inside becomes `--` plus the normalised path. |
| TokensToCssProperties.SourceCommentPath | src/tokens_to_css.ts:30 | The path inside `{Color.Base.Red.Red-10}` holds no brace and normalises, character by character, to `color-base-red-red-10`. |
| TokensToCssProperties.AliasToCssVarExample | src/tokens_to_css.ts:30 | `{Color.Base.Red.Red-10}` becomes `--color-base-red-red-10`, as the comment in the source says. |
| TokensToCssProperties.DropLeadingBrace | src/tokens_to_css.ts:34 | For a string that starts with `{`, `.replace('{', '')` removes exactly that first character. |
| TokensToCssProperties.InnerClosingBraceFirst | src/tokens_to_css.ts:35 | In `a{b}c}` the first `}` is the inner one, and removing it leaves `a{bc}`. |
| TokensToCssProperties.InnerBracesNormalized | src/tokens_to_css.ts:32-33 | `--` plus the normalised `a{bc}` is `--a{bc}`: braces are neither lower-cased nor dashed. |
| TokensToCssProperties.AliasInnerBracesKept | src/tokens_to_css.ts:34-35 | `{a{b}c}` becomes `--a{bc}`: a later `{` and the closing `}` stay. |
| TokensToCssProperties.InnerBracesExample | src/tokens_to_css.ts:34-35 | `aliasToCssVar("{a{b}c}")` is `"--a{bc}"`, with string literals. |
| TokensToCssProperties.JoinSwapSeparator | src/tokens_to_css.ts:33 | For plain segments, the dotted and the slashed joins have the same length. They differ only where one has `.` and the other `/`. |
| TokensToCssProperties.KeyAndPathNormaliseAlike | src/tokens_to_css.ts:32-33 | Key normalisation of `A/B/C` equals alias normalisation of `A.B.C`. |
| TokensToCssProperties.DottedPathBraceFree | src/tokens_to_css.ts:34-35 | A dotted path of plain segments holds no brace. |
| TokensToCssProperties.NameConsistency | src/tokens_to_css.ts:78 | The property declared for key `A/B/C` is the name `aliasToCssVar` gives for `{A.B.C}`. |
| TokensToCssProperties.RedTenPath | src/tokens_to_css.ts:32-33 | The path inside `{Color.Base.Red-10}` holds no brace and normalises, character by character, to `color-base-red-10`. |
| TokensToCssProperties.RedTenKeyChars | src/tokens_to_css.ts:78 | The key `Color/Base/Red-10`, lower-cased with `/` turned into `-`, is `color-base-red-10`, character by character. |
| TokensToCssProperties.RedTenKey | src/tokens_to_css.ts:78 | The key `Color/Base/Red-10` declares `--color-base-red-10`. |
| TokensToCssProperties.RedTenAlias | src/tokens_to_css.ts:29-36 | The alias `{Color.Base.Red-10}` refers to `--color-base-red-10`. |
| TokensToCssProperties.NameConsistencyExample | src/tokens_to_css.ts:29-36 | The key `Color/Base/Red-10` and the alias `{Color.Base.Red-10}` both give `--color-base-red-10`. |
| TokensToCssProperties.RedTenExample | src/tokens_to_css.ts:29-36 | The key `"Color/Base/Red-10"` and the alias `"{Color.Base.Red-10}"` both name `"--color-base-red-10"`, with string literals. |
| TokensToCssProperties.IsAliasExactly | src/tokens_to_css.ts:50 | A string is an alias exactly when it has at least two characters, the first `{` and the last `}`. `""`, `{` and `}` are not aliases, and `{}` is one. |
| TokensToCssProperties.CompositeYieldsSentinel | src/tokens_to_css.ts:43-47 | An object, array or `null` value gives `"composite_type_not_supported_error"`, quotes included, whatever its `$type`. |
| TokensToCssProperties.AliasYieldsVarReference | src/tokens_to_css.ts:50-53 | An alias gives `var(` + its `aliasToCssVar` name + `)` for every `$type`, `color` included, because the alias test comes first. |
| TokensToCssProperties.ColorStringUsesColorBranch | src/tokens_to_css.ts:55 | A `color`-typed string that is no alias gives the colour text. |
| TokensToCssProperties.PlainStringIsQuoted | src/tokens_to_css.ts:66-67 | Any other string gives its content unchanged between two double quotes. |
| TokensToCssProperties.NumbersAndBooleansPassThrough | src/tokens_to_css.ts:70-71 | A number or boolean comes back unchanged. In the line a number reads back as itself, and a boolean is written `true` or `false`. |
| TokensToCssProperties.VarReferenceIffAlias | src/tokens_to_css.ts:43-71 | Outside the colour type, a value text starts with `var(` exactly when the value is an alias string (both directions). |
| TokensToCssProperties.VarReferenceOf | src/tokens_to_css.ts:52 | Every text the alias branch writes, `var(` + name + `)`, starts a `var()` reference. |
| TokensToCssProperties.NoVarReference | src/tokens_to_css.ts:43-71 | A text whose first character is not `v` does not start a `var()` reference. That covers the sentinel, quoted strings, numbers and booleans. |
| TokensToCssProperties.AliasResolvesToDeclaredProperty | src/tokens_to_css.ts:52 | A token aliasing `{A.B.C}` gives `var(` + the property declared for key `A/B/C` + `)`. |
| TokensToCssProperties.ProcessJsonToCssVarsAppend | src/tokens_to_css.ts:77-79 | Converting two runs of entries one after the other gives their lines one after the other. |
| TokensToCssProperties.DeclarationPieces | src/tokens_to_css.ts:78 | A declaration `name: v;` reads back as its name, `: `, its value text and `;`. |
| TokensToCssProperties.DeclarationLinesNameTheirKeys | src/tokens_to_css.ts:78 | Line `i` is `--name`, then `: `, then the value text of token `i`, then `;`. Here `--name` is the property name of key `i`. |
| TokensToCssProperties.OutfileNameAtFirstJson | src/tokens_to_css.ts:22 | The output name is `dist/` plus the file name with its first `.json` replaced by `.css`. The rest of the name is kept. |
| TokensToCssProperties.OutfileNameReplacesFirstJson | src/tokens_to_css.ts:22 | `base.json…` with no dot in `base` becomes `dist/base.css…`. Only the first `.json` changes. |
| TokensToCssProperties.OutfileNameWithoutJson | src/tokens_to_css.ts:22 | A file name without `.json` is kept after `dist/`. |
| TokensToCssProperties.RootBlockFirstLine | src/tokens_to_css.ts:23 | The first line of the block is `:root {`. |
| TokensToCssProperties.JoinThenClosingBrace | src/tokens_to_css.ts:23 | The trailing `\n}` after the joined lines adds `}` as one more joined line. |
| TokensToCssProperties.RootBlockBody | src/tokens_to_css.ts:23 | For at least one line, none of which holds a newline, the rest reads back as the indented lines and then `}`. |
| TokensToCssProperties.RootBlockEmptyBody | src/tokens_to_css.ts:23 | With no lines, the rest reads back as an empty line and then `}`. |
| TokensToCssProperties.RootBlockLinesNonEmpty | src/tokens_to_css.ts:23 | For declarations without a newline, and at least one of them, the block reads back as `:root {`, the indented declarations and `}`. |
| TokensToCssProperties.RootBlockLinesEmpty | src/tokens_to_css.ts:23 | With no declarations, the block reads back as `:root {`, an empty line and `}`. |
| TokensToCssProperties.RootBlockLines | src/tokens_to_css.ts:23 | For declarations without a newline, read line by line, the block is `:root {`, then each declaration after two spaces, then `}`. With no declarations, one empty line stands in between. |

## Left out

- The file-system and process plumbing of `main` (src/tokens_to_css.ts:9-27, 82) is not modelled. That is `readdir`, `readFile`, `stat`/`mkdir`, `writeFile` and `console.log`, which are I/O. Only the two string expressions at lines 22-23 are modelled, as `OutfileName` and `RootBlock`.
- `JSON.parse` (line 13) is not modelled. The model starts from already-structured token values.
- `flattenTokensFile` is not part of this model, because it is defined in `token_import.js`, outside the modelled file. Its result is the input sequence of entries. The order in which `Object.entries` lists the keys is taken to be the sequence order. JavaScript may list integer-like keys first, and that reordering is not modelled.
- The colour branch (lines 56-63) is the parameter `colorText`. It calls `parseColor`, which is not part of this model, and it formats floating-point channels. The model keeps where the branch sits in the dispatch (after the alias test, before quoting) but not the text it produces.
- The `console.warn` of the composite branch (line 46) is left out because it is logging only.
- Numbers are integers written in decimal. Fractional numbers and JavaScript's exponent form for very large or very small numbers are not modelled.
- LowerChar: lower-cases ASCII only. `toLowerCase` also maps non-ASCII capitals, and those are kept unchanged here.
- ReplaceFirst: inserts the replacement as it is. JavaScript's `replace` expands `$&`, `$$`, `` $` `` and `$'` in a string replacement, and that expansion is not modelled. The source's replacements, `''` and `'.css'`, hold no `$`, so its calls are unaffected.
- RootBlockLines: the read-back holds only for declarations without a newline. A string token such as `"a\nb"` is written raw between the quotes at line 67, so it spans more than one line of the output.
- ReplaceAllChar: models `replaceAll` for a one-character pattern only, which is the only kind the source passes.
- BasicValueFromToken: the value types are those of a parsed JSON document. An `undefined` `$value` is not modelled.
