# EnvReplacer, modelled in Dafny

EnvReplacer renders a template. For every line it does two things:

- It replaces each `${NAME}` token with the value of the variable `NAME`.
- It then resolves backslash escapes: `\X` becomes `X`.

The model is one module, `EnvReplacer`, in `env_replacer.dfy`. It follows the
three static methods of `EnvReplacer.java`:

- `ReplaceVar` is `replaceVar`: a `while` loop with an early return.
- `Unescape` is `unescape`: a `for` loop with a `lastWasEscape` flag that appends to a builder.
- `ReplaceEnv` is `replaceEnv(List<String>)`: nested loops that append to a fresh list.

Each method is proved against a reference function: `VarReplaced`,
`Unescaped` and `TransformedLine`. The lemmas state what the source
promises about those functions.

Three modelling choices matter:

- **Variables are a parameter.** The environment map becomes a
  `seq<(string, string)>` of (name, value) pairs. Its order is the order
  in which the variables are visited.
- **Fuel.** The loop in `replaceVar` can run forever. `fuel` bounds the
  number of replacements one `replaceVar` call may make, and `None`
  means "did not finish within `fuel`". Every other statement is partial
  correctness: it is about results that do come back. `FuelMonotone` and
  `SubstitutedAllFuelMonotone` show that such a result is the same for
  every larger fuel.
- **`indexOf` and `String.format`.** Java's `String.indexOf` is
  `IndexOf`. `String.format` is plain concatenation.

What the proofs establish about termination:

- A value that contains no `$` can never rebuild a token, so
  `replaceVar` always returns (`DollarFreeValueTerminates`).
- A value that is its own token never returns on a line whose leftmost
  occurrence of that token is not preceded by a backslash
  (`SelfReferenceDiverges`). On any other line the call returns the line
  unchanged.
- A value that is a backslash followed by its own token returns after at
  most one replacement, for every line, when the name holds no backslash
  (`EscapedSelfReferenceEnds`). The token it brings in becomes the new
  leftmost one, and that token is escaped.
- An escaped copy of the token elsewhere in the value does not help when the
  value starts with the token. On a line that starts with the token, every
  replacement lands at index 0, which is never treated as escaped
  (`LeadingSelfReferenceDiverges`). For example, value `${A}\${A}` never
  settles on the line `${A}` (`EscapedCopyStillDiverges`).

Two claims that are easy to make about this engine do not hold of the code. The model follows the code:

- Rendering is not idempotent, even when no value contains a token. `\${A}` renders as `${A}`, and rendering that again gives A's value (`NotIdempotent`).
- The order of the variables matters, even when no value contains `$`. With B = `A` and A = `z`, `${${B}}` renders as `z` when B is visited first and as `${A}` when A is visited first (`OrderMatters`). Java's `HashMap` does not fix that order.

## Model

| member | source | states |
|---|---|---|
| `EnvReplacer.Token` | EnvReplacer.java:42 | the token is three characters longer than the name and starts with `$` |
| `EnvReplacer.IndexFrom` | EnvReplacer.java:43 | the result is -1 or an occurrence at or after the start, and no occurrence lies between the start and the result (none at all when -1) |
| `EnvReplacer.IndexOf` | EnvReplacer.java:43 | `indexOf` gives the leftmost occurrence, or -1 exactly when there is no occurrence |
| `EnvReplacer.ReplaceVar` | EnvReplacer.java:40-53 | the loop returns the reference result; with no token the string comes back unchanged; when the leftmost token is escaped the whole string comes back unchanged, so later tokens are not touched; a token at index 0 is never treated as escaped and is replaced; a returned string has no token left or its leftmost token is escaped |
| `EnvReplacer.VarReplacedSettled` | EnvReplacer.java:44-52 | every result that comes back has no token left or an escaped leftmost token |
| `EnvReplacer.UnescapedExitHasNoToken` | EnvReplacer.java:44-52 | when the loop leaves through its condition, the result holds no occurrence of the token anywhere |
| `EnvReplacer.FuelMonotone` | EnvReplacer.java:44-51 | a result that comes back with some fuel comes back unchanged with any larger fuel |
| `EnvReplacer.SpliceStep` | EnvReplacer.java:49-50 | one step keeps everything before the replaced token, and the next leftmost token cannot end at or before the replaced position |
| `EnvReplacer.SpliceDollars` | EnvReplacer.java:49 | one replacement removes the token's `$` characters and adds the value's |
| `EnvReplacer.DollarFreeValueTerminates` | EnvReplacer.java:44-51 | with a `$`-free value the loop returns within as many steps as the line has `$` characters, and the result has no more `$` than the input |
| `EnvReplacer.SelfReferenceDiverges` | EnvReplacer.java:44-51 | when the value is the token itself and the leftmost token is unescaped, no fuel is enough |
| `EnvReplacer.EscapedSelfReferenceEnds` | EnvReplacer.java:44-52 | for a name without backslashes and a value that is a backslash followed by the token, every line comes back after at most one replacement: unchanged if its leftmost token is missing or escaped, otherwise with that one token replaced |
| `EnvReplacer.LeadingSelfReferenceDiverges` | EnvReplacer.java:44-51 | when both the line and the value start with the token, no fuel is enough, because a token at index 0 is never escaped |
| `EnvReplacer.EscapedCopyStillDiverges` | EnvReplacer.java:44-51 | value `${A}\${A}` on line `${A}` never settles, for any fuel |
| `EnvReplacer.Unescaped` | EnvReplacer.java:55-73 | unescaping never lengthens a line |
| `EnvReplacer.UnescapedIdentity` | EnvReplacer.java:58-72 | unescaping leaves a line unchanged if and only if it holds no backslash; otherwise the line gets strictly shorter |
| `EnvReplacer.UnescapedAppend` | EnvReplacer.java:57-72 | unescaping works piecewise when the line is cut where the flag is clear |
| `EnvReplacer.OpenEscapeAppend` | EnvReplacer.java:57-72 | the flag after scanning two pieces is the flag after the second piece, when the flag is clear after the first |
| `EnvReplacer.EscapedCharEmitted` | EnvReplacer.java:60-65 | `\X` emits exactly `X` for every character `X`, so `\\` emits one backslash |
| `EnvReplacer.TrailingBackslashDropped` | EnvReplacer.java:64-72 | a final unpaired backslash emits nothing and leaves the flag set |
| `EnvReplacer.Unescape` | EnvReplacer.java:55-73 | the flag loop computes the reference unescaping, never lengthens the line, and returns it unchanged exactly when it holds no backslash |
| `EnvReplacer.UnescapeEscaped` | EnvReplacer.java:55-73 | unescaping undoes escaping, where escaping puts a backslash before every backslash and every `$` |
| `EnvReplacer.EscapedDollarsAreEscaped` | EnvReplacer.java:45-47 | in an escaped line every `$` has a backslash right before it |
| `EnvReplacer.EscapedLineNotSubstituted` | EnvReplacer.java:40-53 | `replaceVar` returns an escaped line unchanged, for every name and value |
| `EnvReplacer.EscapedLineSurvives` | EnvReplacer.java:30-33 | the whole substitution pass returns an escaped line unchanged, for every variable list |
| `EnvReplacer.EscapedLineVerbatim` | EnvReplacer.java:17-21 | a line written in escaped form renders as exactly the intended text, whatever the variables |
| `EnvReplacer.DollarFreeVarsTerminate` | EnvReplacer.java:29-36 | when no value contains `$`, the substitution pass over all variables returns for fuel at least the line's count of `$` |
| `EnvReplacer.SubstitutedAllFuelMonotone` | EnvReplacer.java:30-33 | a substitution-pass result that comes back is the same for any larger fuel |
| `EnvReplacer.ReplaceEnv` | EnvReplacer.java:25-37 | the loops finish exactly when every line's rendering finishes; then there are as many output lines as input lines, in order, and line i is the fold of `replaceVar` over the variables applied to input line i, then unescaped; with no variables every line is just unescaped; with `$`-free values and enough fuel the call always finishes |
| `EnvReplacer.EscapedHomeExample` | EnvReplacer.java:19-20 | `\${HOME}` renders as `${HOME}` |
| `EnvReplacer.PlainHomeExample` | EnvReplacer.java:20-21 | `${HOME}/bin` with HOME = `/root` renders as `/root/bin` |
| `EnvReplacer.NotIdempotent` | EnvReplacer.java:25-37 | rendering `\${A}` gives `${A}`, and rendering `${A}` gives A's value |
| `EnvReplacer.OrderMatters` | EnvReplacer.java:31-33 | two visiting orders of the same two `$`-free variables give different results for `${${B}}` |

## Left out

- `System.getenv()` (EnvReplacer.java:26): the environment is the `vars` parameter instead.
- `HashMap` key order (EnvReplacer.java:31): the library leaves it unspecified. The model visits the variables in the order of the sequence. It does not require names to be distinct, although a map's keys are.
- Divergence: a call that never returns in Java is a call that returns `None` for every fuel in the model. The model can show that specific inputs diverge (`SelfReferenceDiverges`, `LeadingSelfReferenceDiverges`), but it has no single statement "this call never returns".
- `String.format` (EnvReplacer.java:42, 49): modelled as concatenation, with no format-specifier semantics.
- Java strings are sequences of UTF-16 code units. Here a string is a sequence of Dafny characters. No case folding or normalisation takes place in either.
- `replaceEnv(Path, Path)`, `printUsage`, `resolveFile` and `main` (EnvReplacer.java:82-134): file reading and writing, existence checks, standard output and exit codes are I/O, not part of this model.
