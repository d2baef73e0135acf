# lit matchers and variable lookup, in Dafny

This project models the matcher mini-language of `lit`, a test runner
whose test files say what output they expect with *matchers*. A matcher is
a line of literal text mixed with `$$name` variable references and
`[[pattern]]` / `[[name:pattern]]` inline regular expressions. The model
covers:

- the scanner `Matcher::parse`, which turns a matcher string into a list
  of components;
- the resolver `Matcher::resolve`, which turns components and a variable
  map into one regular-expression source string;
- the printer `impl Display for Matcher`, which writes components back in
  source syntax;
- the parts of the test-runner configuration that matcher variables go
  through: the memoising `lookup_variable`, the default lookup function,
  and the extension and executable-search-path lists.

Modules, one concept each:

- `Wrappers` — `Option` and `Result`.
- `Matchers` (`matcher.dfy`) — the data model and the operations of
  `src/matcher.rs`.
  - `Parse` is an imperative method with the source's loop, pending-text
    buffer and component list. Its nested block loop is the method
    `ReadBlock`, with the bracket-depth counter.
  - `Parse` is proved equal to the recursive reference scanner
    `ParseFrom` / `Parsed`.
  - `Resolve` / `ResolveParts` / `Fragment` are the pure resolver, and
    `Print` / `Display` the printer.
- `ScannerProperties` — what every parse looks like:
  - it ends in a `Text`;
  - its components are well formed;
  - where a parse can fail;
  - how a block body is delimited.
- `RoundTrip` — printing what was parsed, and parsing what was printed.
- `ResolverProperties` — how the resolver composes. It also includes the
  resolution of single components and of a worked scenario.
- `MatcherExamples` — the concrete behaviours the code promises, one lemma
  each.
- `Configs` (`config.dfy`) — `Config` as a class whose methods update its
  list fields in place. The caller's variable `HashMap` is a
  `VariableTable` object that `LookupVariable` modifies. The lookup is also
  the pure function `Lookup`, to which the method is proved equal.

Inputs and effects the model turns into parameters:

- The pluggable lookup function of a `Config` is an arbitrary
  `string -> Option<string>` value.
- The temporary-file path minted by the default lookup is the parameter
  `freshPath`.

Scanner and resolver failures that the source reports by panicking are
modelled as `Failure` values:

- `EmptyVariableName(at)`: `$$` followed by no alphanumeric character.
  The source computes `name.len() - 1` on an empty name here.
- `UnboundVariable(name)`: the `expect` in `resolve`.
- `NoSuchVariable(name)`: the `expect` in `lookup_variable`.

### Behaviours of the code worth knowing

- **Parsing can fail.** A `$$` followed by a non-alphanumeric character,
  or by the end of input, makes the code compute `name.len() - 1` on an
  empty name and panic. The model returns `EmptyVariableName` there.
  `ScannerProperties.ParsedFailure` states where a parse can fail, and
  `MatcherExamples.ParseEmptyName` shows the failure on `$$` and `a$$ b`.
  A `$$` inside a block body is part of the pattern and does not fail
  (`MatcherExamples.ParseMarkerInBlock`).
- **Printing and then parsing is not the identity.**
  - `$$` does not flush pending text, so `ab$$x` parses to
    `[Variable("x"), Text("ab")]`. That prints as `$$xab`, which parses to
    `[Variable("xab"), Text("")]` (`MatcherExamples.VariableRunsIntoText`).
  - `[[a[` parses to `Regex("a[")`, which prints as `[[a[]]`. That parses
    to `Regex("a[]]")`, because the `[` in the body raises the depth and
    the printed `]]` no longer closes the block
    (`MatcherExamples.ParseOpenBracket`, `ParseOpenBracketPrinted`,
    `OpenBracketTakesClose`).
- **Text before a variable resolves after it.** In `value=$$v [[\d+]]`
  the pending `value=` is flushed only at the `[[`, after the variable was
  pushed. The components are therefore
  `[Variable("v"), Text("value= "), Regex("\d+"), Text("")]`, and with
  `v = N` the source is `Nvalue= \d+` (`ResolverProperties.ScenarioParse`,
  `ScenarioResolve`).

## Model

| member | source | states |
|---|---|---|
| Matchers.NameEnd | src/matcher.rs:43-45 | the variable name read after `$$` is the maximal alphanumeric run: every character before the returned end is alphanumeric, and the character at the end (if any) is not |
| Matchers.IsIdentifier | src/matcher.rs:7 | the identifier regex `^[a-zA-Z_][a-zA-Z0-9_]*$`; an identifier is non-empty, does not start with a digit, and holds neither the `:` that ends a block's name nor the `>` that ends a capture-group name |
| Matchers.ScanBlock | src/matcher.rs:55-75 | the block scan ends within the input; a closed block ends at least two characters (the `]]`) after it starts; an unclosed block runs to the end of the input |
| Matchers.FirstColon | src/matcher.rs:79 | the result is the position of the first `:` (a colon there, none before it), and `None` exactly when the body holds no colon |
| Matchers.SplitBody | src/matcher.rs:79-96 | a block body becomes a `NamedRegex` exactly when the text before its first colon matches the identifier regex; the name plus `:` plus the pattern is then the body and the name holds no colon, and otherwise the result is `Regex(body)` with the body unchanged |
| Matchers.ParseFrom | src/matcher.rs:31-107 | the reference scanner: from a cursor, a pending text and the components pushed so far, the components of the rest of the input or the empty-name failure; its properties are `ScannerProperties.ParseFromExtends`, `ParseFromWellFormed` and `ParseFromFailure`, and the step lemmas of `RoundTrip` |
| Matchers.Parsed | src/matcher.rs:25-110 | the matcher a source string denotes, the scan from the start with nothing pending; `Matchers.Parse` is proved equal to it, and `ScannerProperties.ParsedEndsWithText`, `ParsedWellFormed`, `ParsedFailure` and `RoundTrip.PrintParsed` state its properties |
| Matchers.ReadBlock | src/matcher.rs:54-77 | the nested loop with its bracket-depth counter returns the same body and end position as the block scan |
| Matchers.Parse | src/matcher.rs:25-110 | the imperative scanner (pending-text buffer, component list, `$$` and `[[` branches, final flush) returns exactly the reference parse `Parsed(s)` on every input, failures included |
| Matchers.Escape | src/matcher.rs:113 | escaping text gives a literal pattern whose unescaping is the text itself, and text with no meta-character is left as it is |
| Matchers.Fragment | src/matcher.rs:112-120 | a component's fragment fails exactly for a variable the map does not bind, with that variable's name |
| Matchers.ResolveParts | src/matcher.rs:111-121 | resolution succeeds exactly when every variable mentioned is bound; on failure the error names a mentioned unbound variable all of whose predecessors are bound (the first one) |
| Matchers.Resolve | src/matcher.rs:111-123 | the regex source of a matcher, the resolution of its components in order; `ResolveParts` states when it succeeds and which variable it fails on, and `ResolverProperties` states how it composes |
| Matchers.ComponentSource | src/matcher.rs:128-133 | the source syntax of one component; only the empty text prints as nothing, and the body of a printed named block (identifier name) or colon-free anonymous block splits back into that same block |
| Matchers.Print | src/matcher.rs:127-135 | each component's source syntax, written in order; a component list prints as nothing exactly when all its components are empty texts; `RoundTrip.PrintAppend` and `PrintParsed` state the rest |
| Matchers.Display | src/matcher.rs:125-138 | what `Display` writes for a matcher, the printout of its components; `RoundTrip.PrintParsed` states that on `$$`-free input it gives back the input, or the input plus `]]` |
| ScannerProperties.ScanBlockSpan | src/matcher.rs:55-75 | a closed block's body followed by `]]` is exactly the input span it read, and the body's brackets balance to zero; an unclosed block's body is the whole rest of the input |
| ScannerProperties.ScanBlockStopsAtFirstClose | src/matcher.rs:58 | no `]]` met at depth zero lies inside the body: the block closes at the first such `]]` |
| ScannerProperties.ParseFromExtends | src/matcher.rs:31-107 | the scan only appends to the components already pushed, and what it returns ends with a `Text` |
| ScannerProperties.ParsedEndsWithText | src/matcher.rs:102-105 | a successful parse is never empty and its last component is a `Text` (the final flush) |
| ScannerProperties.ParseFromWellFormed | src/matcher.rs:40-96 | components pushed by the scan keep the invariant: variables have non-empty alphanumeric names, named regexes have identifier names |
| ScannerProperties.ParsedWellFormed | src/matcher.rs:17-22 | every component of a successful parse satisfies that invariant |
| ScannerProperties.ParseFromFailure | src/matcher.rs:43-46 | a failing scan fails at a `$$` followed by the end of input or by a non-alphanumeric character |
| ScannerProperties.ParsedFailure | src/matcher.rs:43-46 | a parse can fail only at a `$$` followed by the end of input or by a non-alphanumeric character, and input without `$$` always parses |
| RoundTrip.PrintAppend | src/matcher.rs:126-138 | the printer writes components in order: printing a concatenation is the concatenation of the printouts |
| RoundTrip.SplitBodySource | src/matcher.rs:132-133 | a block body printed back, named or not, is `[[` body `]]` |
| RoundTrip.PrintFlushAndBlock | src/matcher.rs:128-133 | printing the components pushed at a block gives the flushed text and then the block as written |
| RoundTrip.PrintParseFrom | src/matcher.rs:126-138 | from any cursor position on input with no `$$`, the scan succeeds and printing its result reproduces what was printed before, the pending text and the rest of the input; the only possible extra is `]]`, and only when a block from there on never closes |
| RoundTrip.PrintParsed | src/matcher.rs:126-138 | on input with no `$$`, `Display` of the parse gives the input back, or the input plus `]]`; the latter only when some `[[` of the input, even one inside a block body, scans as a block that never closes |
| RoundTrip.ParseTextRun | src/matcher.rs:99-101 | a stretch of input with no `$$` or `[[` in it is appended to the pending text, character by character |
| RoundTrip.ScanBlockLocal | src/matcher.rs:55-75 | a block scan that closes within a piece of text gives the same body wherever that text is embedded: nothing after the closing `]]` is read |
| RoundTrip.BlockStep | src/matcher.rs:50-97 | at a block that reads back whole, the pending text is flushed, the block's component is pushed, and the scan resumes right after its `]]` |
| RoundTrip.VariableStep | src/matcher.rs:40-47 | at `$$name` followed by a non-alphanumeric character, the variable is pushed, the pending text is kept, and the scan resumes after the name |
| RoundTrip.ParsePlainText | src/matcher.rs:99-105 | text with no `$$` or `[[` parses to that one `Text` |
| RoundTrip.ParseLoneVariable | src/matcher.rs:40-47 | `$$name` parses to the variable and then the empty final flush |
| RoundTrip.ParseLoneBlock | src/matcher.rs:50-97 | a block that reads back whole parses to the empty flushed text, its component, and the empty final flush |
| ResolverProperties.AllBoundAppend | src/matcher.rs:116 | the variables of a concatenation are all bound exactly when those of both halves are |
| ResolverProperties.ResolveAppendValue | src/matcher.rs:112-121 | when both halves resolve, the source of the concatenation is the concatenation of their sources (the in-order join) |
| ResolverProperties.ResolveAppend | src/matcher.rs:112-121 | a concatenation resolves exactly when both halves do, and then to the concatenation of their sources |
| ResolverProperties.ResolveFrame | src/matcher.rs:116 | two maps that agree on the variables the components mention give the same result: other bindings are never read |
| ResolverProperties.ResolvePlainText | src/matcher.rs:113 | text with no marker resolves, under any map, to its escaped form, which is a literal pattern matching exactly that text |
| ResolverProperties.ResolveLoneBlock | src/matcher.rs:119-120 | a lone block resolves to its pattern verbatim, or, when it is named, to `(?P<` name `>` pattern `)` |
| ResolverProperties.ResolveLoneVariable | src/matcher.rs:114-117 | a lone variable resolves to its value verbatim when bound, and fails on its name when not |
| ResolverProperties.ScenarioParse | src/matcher.rs:25-110 | `value=$$v [[\d+]]` parses to the variable, then the flushed `value= `, the regex `\d+` and the empty final flush |
| ResolverProperties.ResolveVariableTextRegex | src/matcher.rs:112-121 | a variable, a meta-free text and a pattern resolve to the value, the text and the pattern, in that order |
| ResolverProperties.ScenarioResolve | src/matcher.rs:111-121 | with `v = N` that scenario resolves to `Nvalue= \d+` |
| ResolverProperties.ScenarioUnbound | src/matcher.rs:116 | with an empty map it fails on `v` |
| MatcherExamples.ParseEmpty | src/matcher.rs:102-105 | the empty matcher parses to one empty `Text` |
| MatcherExamples.ParseVariableInsideText | src/matcher.rs:40-101 | `ab$$x cd` parses to `Variable("x")`, `Text("ab cd")`: text before a variable ends up after it |
| MatcherExamples.ParseLoneRegex | src/matcher.rs:32-52 | `[[x]]` parses to `Text("")`, `Regex("x")`, `Text("")`: the empty pending text is flushed |
| MatcherExamples.ParseMarkerInBlock | src/matcher.rs:55-75 | `[[$$]]` parses to `Text("")`, `Regex("$$")`, `Text("")`: `$$` inside a block body is pattern text, not a variable marker |
| MatcherExamples.ParseNestedBrackets | src/matcher.rs:55-75 | `[[a[b]c]]` parses to `Regex("a[b]c")`: inner brackets adjust the depth and stay in the body |
| MatcherExamples.ParseNamedRegex | src/matcher.rs:79-94 | `[[n:a:b]]` parses to `NamedRegex("n", "a:b")`: split at the first colon, later colons kept |
| MatcherExamples.ParseNonIdentifierPrefix | src/matcher.rs:84-90 | `[[(?:a)]]` parses to `Regex("(?:a)")`: a non-identifier prefix keeps the colon in the pattern |
| MatcherExamples.ParseUnterminatedBlock | src/matcher.rs:71-73 | `[[abc` parses to `Regex("abc")` and no error: an unterminated block takes the rest of the input |
| MatcherExamples.ParseEmptyName | src/matcher.rs:43-46 | `$$` and `a$$ b` fail with the empty-name error at the position of the `$$` |
| MatcherExamples.VariableRunsIntoText | src/matcher.rs:126-138 | `ab$$x` parses to `Variable("x")`, `Text("ab")`, which prints as `$$xab`, which parses to `Variable("xab")` |
| MatcherExamples.ParseOpenBracket | src/matcher.rs:55-75 | `[[a[` parses to `Regex("a[")` |
| MatcherExamples.ParseOpenBracketPrinted | src/matcher.rs:55-75 | `[[a[]]` parses to `Regex("a[]]")`: the `]]` is met at depth one and does not close the block |
| MatcherExamples.OpenBracketTakesClose | src/matcher.rs:132 | the matcher of `[[a[` prints as `[[a[]]`, whose parse is a different matcher |
| MatcherExamples.ParseInnerOpener | src/matcher.rs:55-75 | `[[[[]x]]]` parses to `Text("")`, `Regex("[[]x]")`, `Text("")`: a `[[` inside a body raises the depth twice and is no opener |
| MatcherExamples.InnerOpenerRoundTrips | src/matcher.rs:126-138 | `[[[[]x]]]` prints back unchanged although its inner `[[` scans as a block that never closes, so the case split of `PrintParsed` cannot be strengthened to an if-and-only-if |
| Configs.ContainsFrom | src/config.rs:70 | the substring search from a position is true exactly when the substring occurs at that position or later |
| Configs.Contains | src/config.rs:70 | `contains` is true exactly when the substring occurs somewhere |
| Configs.DefaultVariableLookup | src/config.rs:69-76 | the default lookup knows no name without `tempfile` in it, and answers any other name with the fresh temporary path |
| Configs.DefaultLookupExamples | src/config.rs:69-75 | `name` is unknown to the default lookup, and `first_tempfile` gets the fresh path |
| Configs.Lookup | src/config.rs:118-132 | a name in the map is answered from it and the map is left as it is; a missing name the lookup function knows is inserted with that value and returned; a missing name it does not know fails and leaves the map as it is; no other key changes |
| Configs.LookupIgnoresFunction | src/config.rs:122-123 | for a name in the map, the answer and the map do not depend on the lookup function |
| Configs.LookupIdempotent | src/config.rs:118-132 | looking the same name up again changes nothing and gives the same answer |
| Configs.LookupScenario | src/config.rs:176-202 | the constant `name` is answered `bob`, two temporary-file names get the values the lookup function gives them, looking them up again with any other lookup function returns those same values, and the final map holds exactly the three entries |
| Configs.FindExtension | src/config.rs:113-114 | the search returns the first position holding the extension, or `None` exactly when no element equals it |
| Configs.VariableTable.constructor | src/config.rs:120 | a caller-owned variable map starts with the given entries |
| Configs.Config.constructor | src/config.rs:17-55 | a configuration starts with no extensions, no extra search paths, and the given constants and lookup function |
| Configs.Config.AddExtension | src/config.rs:82-84 | exactly one extension is appended at the end, the other fields are untouched, the new extension is supported, and every extension supported before still is |
| Configs.Config.AddExtensions | src/config.rs:87-89 | the given extensions are appended in order at the end, the other fields are untouched, and an extension is supported afterwards exactly when it was before or is among the given ones |
| Configs.Config.AddExecutableSearchPath | src/config.rs:99-101 | exactly one path is appended at the end, and the other fields are untouched |
| Configs.Config.IsExtensionSupported | src/config.rs:112-115 | true exactly when some listed extension equals the given one |
| Configs.Config.LookupVariable | src/config.rs:118-132 | the method's new map and its answer are exactly those of `Lookup` on the map before the call |

## Left out

- Regex compilation and matching (`Regex::new` and its panic at
  src/matcher.rs:122, capture extraction, duplicate group names) belong to
  the `regex` crate. `resolve` is modelled up to the source string it
  hands to `Regex::new`.
- Matchers.Escape: `regex::escape` is a foreign call. It is modelled as a
  backslash before each character of an assumed meta-character set,
  ``\ . + * ? ( ) | [ ] { } ^ $ # & - ~``, the set of the `regex` 1.x
  releases (from `regex-syntax` 0.6 on). Earlier releases escaped fewer
  characters (not `&`, `-` or `~`); the model does not follow them.
- Matchers.IsAlphanumeric: `char::is_alphanumeric` is Unicode-aware. The
  model classifies only ASCII letters and digits as alphanumeric, so a
  non-ASCII letter after `$$` ends the name in the model but not in the
  source.
- Matchers.ReadBlock: the source's `bracket_level` is an `i32`
  (src/matcher.rs:55); the model's depth is an unbounded `int`. A block
  nested more than 2^31 levels deep overflows in the source (a panic in a
  debug build, a wrap-around in a release build). The model does not
  capture that.
- Byte/char divergences on non-ASCII input are not modelled.
  - `name.len()` counts UTF-8 bytes at src/matcher.rs:46.
  - The colon's char index is used as a byte index at
    src/matcher.rs:79-85.
  - Both agree with the model on ASCII input.
- The underflow at src/matcher.rs:46 is a panic in a debug build. In a
  release build it wraps and drops the rest of the input. The model gives
  the `EmptyVariableName` failure for both, and does not model the
  release-build behaviour.
- RoundTrip.PrintParsed: proves that the extra `]]` appears only when some
  `[[` of the input scans as a block that never closes. That premise counts
  every `[[`, including one inside a block body, which the scanner never
  treats as an opener. So the lemma does not conclude that the input comes
  back unchanged for `[[[[]x]]]`, whose only opener closes but whose inner
  `[[` scans unclosed (`MatcherExamples.InnerOpenerRoundTrips`). The
  converse is false.
- The general round trip `Parsed(Display(m)) == m` for matchers whose
  components cannot run into each other is not proved. The model has the
  single-component cases (`ParsePlainText`, `ParseLoneVariable`,
  `ParseLoneBlock`), the step lemmas they are built from, and the two
  counterexamples above, which show it fails in general.
- Configs.DefaultVariableLookup: creating the temporary file (and the
  panics if that fails or the path is not UTF-8, src/config.rs:71-72) is
  filesystem I/O. The new path is the parameter `freshPath`, so the model
  does not capture that each call returns a distinct path.
- Configs.LookupIgnoresFunction: "the lookup function is not called" is
  stated as "the result does not depend on the lookup function"; calls
  are not observable in the model.
- Configs.Config.IsExtensionSupported: `find(...).is_some()` is modelled
  by the first-index search `FindExtension`; only whether it finds
  something matters.
- `add_search_path` (calls `canonicalize`, src/config.rs:94-96),
  `test_search_directories` (`is_dir` and `println!`,
  src/config.rs:104-109), `Default::default` (reads `current_exe`,
  src/config.rs:135-163) and `fmt::Debug for VariableLookup` are left out
  as I/O or formatting. The remaining fields of `Config` (test paths, shell,
  environment, flags) are not used by the modelled operations and are
  left out too.
- The `clap` submodule (src/config.rs:5) is not part of this model.
- The test lookup at src/config.rs:179 derives paths from pointer
  addresses. `LookupScenario` takes an arbitrary function instead, and
  assumes only that it knows the two temporary-file names.
