/** The matcher mini-language of `src/matcher.rs`: components, the scanner,
    the resolver (up to the assembled regular-expression source) and the
    printer that writes a matcher back in source syntax. */
module Matchers {
  import opened Wrappers

  /** One piece of a matcher, in source order. */
  datatype Component =
    | Text(text: string)
    | Variable(name: string)
    | Regex(pattern: string)
    | NamedRegex(name: string, pattern: string)

  /** A parsed matcher: its components in source order. */
  datatype Matcher = Matcher(components: seq<Component>)

  /** The scanner's only failure: `$$` followed by no alphanumeric character,
      where the source computes `name.len() - 1` on an empty name. */
  datatype ParseError = EmptyVariableName(at: nat)

  /** The resolver's failure: a variable the mapping does not bind. */
  datatype ResolveError = UnboundVariable(name: string)

  // ---------------------------------------------------------------------
  // Character classes

  /** `char::is_alphanumeric`, restricted to ASCII. */
  predicate IsAlphanumeric(c: char) {
    'a' <= c <= 'z' || 'A' <= c <= 'Z' || '0' <= c <= '9'
  }

  /** `[a-zA-Z_]` */
  predicate IsIdentifierStart(c: char) {
    'a' <= c <= 'z' || 'A' <= c <= 'Z' || c == '_'
  }

  /** `[a-zA-Z0-9_]` */
  predicate IsIdentifierPart(c: char) {
    IsIdentifierStart(c) || '0' <= c <= '9'
  }

  /** The identifier regex `^[a-zA-Z_][a-zA-Z0-9_]*$` as a predicate. An
      identifier is never empty, does not start with a digit, and holds
      neither the `:` that ends a block's name nor the `>` that ends the
      name of a capture group. */
  predicate IsIdentifier(s: string)
    ensures IsIdentifier(s) ==> s != "" && !('0' <= s[0] <= '9') && ':' !in s && '>' !in s
  {
    |s| > 0 && IsIdentifierStart(s[0]) && forall k :: 1 <= k < |s| ==> IsIdentifierPart(s[k])
  }

  /** How a bracket inside a regex block moves the nesting depth. */
  function Delta(c: char): int {
    if c == '[' then 1 else if c == ']' then -1 else 0
  }

  /** The net nesting change of a run of characters. */
  function Balance(t: string): int {
    if t == [] then 0 else Delta(t[0]) + Balance(t[1..])
  }

  // ---------------------------------------------------------------------
  // Scanner pieces

  /** The end of the maximal alphanumeric run that starts at `j`
      (`take_while(is_alphanumeric)` on the cursor). */
  function NameEnd(s: string, j: nat): (k: nat)
    requires j <= |s|
    ensures j <= k <= |s|
    ensures forall m :: j <= m < k ==> IsAlphanumeric(s[m])
    ensures k == |s| || !IsAlphanumeric(s[k])
    decreases |s| - j
  {
    if j < |s| && IsAlphanumeric(s[j]) then NameEnd(s, j + 1) else j
  }

  /** What the block scanner found: the raw body, the index just past the
      block, and whether it ended at a closing `]]` (rather than at the end
      of the input). */
  datatype Block = Block(body: string, end: nat, closed: bool)

  /** True when `s` holds a `]]` at `m` that closes a block at depth `level`. */
  predicate ClosesAt(s: string, m: nat, level: int) {
    m + 1 < |s| && s[m] == ']' && s[m + 1] == ']' && level == 0
  }

  /** The inner loop of the scanner: reads the body of a `[[` block from `j`
      at nesting depth `level`, up to the first `]]` met at depth zero, or to
      the end of the input. */
  function ScanBlock(s: string, j: nat, level: int): (b: Block)
    requires j <= |s|
    ensures j <= b.end <= |s|
    ensures b.closed ==> j + 2 <= b.end
    ensures !b.closed ==> b.end == |s|
    decreases |s| - j
  {
    if j == |s| then Block("", |s|, false)
    else if ClosesAt(s, j, level) then Block("", j + 2, true)
    else
      var b := ScanBlock(s, j + 1, level + Delta(s[j]));
      Block([s[j]] + b.body, b.end, b.closed)
  }

  /** The index of the first `:` in `s` (`chars().position(|c| c == ':')`). */
  function FirstColon(s: string): (r: Option<nat>)
    ensures r.Some? ==> r.value < |s| && s[r.value] == ':' && ':' !in s[..r.value]
    ensures r.None? ==> ':' !in s
  {
    if s == [] then None
    else if s[0] == ':' then Some(0)
    else match FirstColon(s[1..])
      case None => None
      case Some(k) => assert s[..k + 1] == [s[0]] + s[1..][..k]; Some(k + 1)
  }

  /** Turns the raw body of a block into a component: named when the text
      before the first colon is an identifier, anonymous (colon kept)
      otherwise. */
  function SplitBody(body: string): (c: Component)
    ensures c.Regex? || c.NamedRegex?
    ensures c.NamedRegex? <==> FirstColon(body).Some? && IsIdentifier(body[..FirstColon(body).value])
    ensures c.NamedRegex? ==> IsIdentifier(c.name) && body == c.name + ":" + c.pattern && ':' !in c.name
    ensures c.Regex? ==> c.pattern == body
  {
    match FirstColon(body)
    case Some(k) =>
      if IsIdentifier(body[..k]) then
        assert body == body[..k] + ":" + body[k + 1..];
        NamedRegex(body[..k], body[k + 1..])
      else Regex(body)
    case None => Regex(body)
  }

  /** The reference scanner, in continuation form: `i` is the cursor,
      `text` the pending literal text, `acc` the components pushed so far.
      `$$` pushes a variable without flushing `text`; `[[` flushes `text`
      (even when empty); the end of input flushes it one last time. */
  function ParseFrom(s: string, i: nat, text: string, acc: seq<Component>): Result<seq<Component>, ParseError>
    requires i <= |s|
    decreases |s| - i
  {
    if i == |s| then Success(acc + [Text(text)])
    else if i + 1 < |s| && s[i] == '$' && s[i + 1] == '$' then
      var k := NameEnd(s, i + 2);
      if k == i + 2 then Failure(EmptyVariableName(i))
      else ParseFrom(s, k, text, acc + [Variable(s[i + 2..k])])
    else if i + 1 < |s| && s[i] == '[' && s[i + 1] == '[' then
      var b := ScanBlock(s, i + 2, 0);
      ParseFrom(s, b.end, "", acc + [Text(text), SplitBody(b.body)])
    else ParseFrom(s, i + 1, text + [s[i]], acc)
  }

  /** The matcher a source string denotes. */
  function Parsed(s: string): Result<Matcher, ParseError> {
    match ParseFrom(s, 0, "", [])
    case Success(cs) => Success(Matcher(cs))
    case Failure(e) => Failure(e)
  }

  /** The nested loop of `Matcher::parse` that collects a block body from
      `start`, adjusting the bracket depth on `[` and `]`; returns the body
      and the index just past the block. */
  method ReadBlock(s: string, start: nat) returns (currentRegex: string, i: nat)
    requires start <= |s|
    ensures ScanBlock(s, start, 0).body == currentRegex && ScanBlock(s, start, 0).end == i
  {
    i := start;
    currentRegex := "";
    var level := 0;
    while true
      invariant start <= i <= |s|
      invariant ScanBlock(s, start, 0).body == currentRegex + ScanBlock(s, i, level).body
      invariant ScanBlock(s, start, 0).end == ScanBlock(s, i, level).end
      decreases |s| - i
    {
      if ClosesAt(s, i, level) {
        i := i + 2;
        break;
      } else if i < |s| {
        ghost var rest := ScanBlock(s, i + 1, level + Delta(s[i]));
        assert ScanBlock(s, i, level) == Block([s[i]] + rest.body, rest.end, rest.closed);
        assert currentRegex + ([s[i]] + rest.body) == (currentRegex + [s[i]]) + rest.body;
        level := level + Delta(s[i]);
        currentRegex := currentRegex + [s[i]];
        i := i + 1;
      } else {
        break;
      }
    }
  }

  /** `Matcher::parse`: one left-to-right pass with a pending-text buffer,
      a component list pushed in place, and a depth counter for blocks. */
  method Parse(s: string) returns (r: Result<Matcher, ParseError>)
    ensures r == Parsed(s)
  {
    var components: seq<Component> := [];
    var currentText: string := "";
    var i: nat := 0;
    while true
      invariant i <= |s|
      invariant ParseFrom(s, i, currentText, components) == ParseFrom(s, 0, "", [])
      decreases |s| - i
    {
      if i + 1 < |s| && s[i] == '$' && s[i + 1] == '$' {
        var k := NameEnd(s, i + 2);
        if k == i + 2 {
          return Failure(EmptyVariableName(i));
        }
        components := components + [Variable(s[i + 2..k])];
        i := k;
      } else if i + 1 < |s| && s[i] == '[' && s[i + 1] == '[' {
        ghost var before, pending := components, currentText;
        components := components + [Text(currentText)];
        currentText := "";
        var currentRegex;
        currentRegex, i := ReadBlock(s, i + 2);
        components := components + [SplitBody(currentRegex)];
        assert components == before + [Text(pending), SplitBody(currentRegex)];
      } else if i < |s| {
        currentText := currentText + [s[i]];
        i := i + 1;
      } else {
        components := components + [Text(currentText)];
        break;
      }
    }
    return Success(Matcher(components));
  }

  // ---------------------------------------------------------------------
  // Resolver: the regular-expression source a matcher stands for

  /** The characters `regex::escape` prefixes with a backslash: ASSUMED to
      be the meta-character set of the `regex` 1.x releases (`regex-syntax`
      0.6 and later). */
  predicate IsMetaCharacter(c: char) {
    c in {'\\', '.', '+', '*', '?', '(', ')', '|', '[', ']', '{', '}', '^', '$', '#', '&', '-', '~'}
  }

  /** A regex source made only of plain characters and escaped
      meta-characters: it matches exactly one string, `Unescape` of it. */
  predicate IsLiteralPattern(r: string) {
    if r == [] then true
    else if r[0] == '\\' then |r| >= 2 && IsMetaCharacter(r[1]) && IsLiteralPattern(r[2..])
    else !IsMetaCharacter(r[0]) && IsLiteralPattern(r[1..])
  }

  /** The string a literal pattern matches: every escape sequence `\c`
      stands for `c`. */
  function Unescape(r: string): string {
    if r == [] then ""
    else if |r| >= 2 && r[0] == '\\' then [r[1]] + Unescape(r[2..])
    else [r[0]] + Unescape(r[1..])
  }

  /** `regex::escape`: a backslash before every meta-character. The result
      is a literal pattern that matches exactly `t`. */
  function Escape(t: string): (r: string)
    ensures IsLiteralPattern(r) && Unescape(r) == t
    ensures (forall k :: 0 <= k < |t| ==> !IsMetaCharacter(t[k])) ==> r == t
  {
    if t == [] then ""
    else
      var rest := Escape(t[1..]);
      if IsMetaCharacter(t[0]) then
        assert (['\\', t[0]] + rest)[2..] == rest;
        ['\\', t[0]] + rest
      else
        assert ([t[0]] + rest)[1..] == rest;
        [t[0]] + rest
  }

  /** The regex fragment one component contributes: escaped text, the
      variable's value verbatim, the pattern verbatim, or the pattern
      wrapped in a named capture group. */
  function Fragment(c: Component, variables: map<string, string>): (r: Result<string, ResolveError>)
    ensures r.Failure? <==> c.Variable? && c.name !in variables
    ensures r.Failure? ==> r.error == UnboundVariable(c.name)
  {
    match c
    case Text(t) => Success(Escape(t))
    case Variable(name) =>
      if name in variables then Success(variables[name]) else Failure(UnboundVariable(name))
    case Regex(p) => Success(p)
    case NamedRegex(name, p) => Success("(?P<" + name + ">" + p + ")")
  }

  /** Every variable the components mention is bound. */
  predicate AllBound(cs: seq<Component>, variables: map<string, string>) {
    forall k :: 0 <= k < |cs| && cs[k].Variable? ==> cs[k].name in variables
  }

  /** The fragments of `cs` joined in order; fails on the first component
      that names an unbound variable. */
  function ResolveParts(cs: seq<Component>, variables: map<string, string>): (r: Result<string, ResolveError>)
    ensures r.Success? <==> AllBound(cs, variables)
    ensures r.Failure? ==>
              exists k :: 0 <= k < |cs| && cs[k] == Variable(r.error.name)
                           && r.error.name !in variables && AllBound(cs[..k], variables)
  {
    if cs == [] then Success("")
    else match Fragment(cs[0], variables)
      case Failure(e) =>
        assert cs[..0] == [];
        Failure(e)
      case Success(f) =>
        match ResolveParts(cs[1..], variables)
        case Failure(e) =>
          ghost var k :| 0 <= k < |cs[1..]| && cs[1..][k] == Variable(e.name)
            && e.name !in variables && AllBound(cs[1..][..k], variables);
          assert cs[..k + 1] == [cs[0]] + cs[1..][..k];
          Failure(e)
        case Success(rest) => Success(f + rest)
  }

  /** `Matcher::resolve` up to the regex source handed to `Regex::new`. */
  function Resolve(m: Matcher, variables: map<string, string>): Result<string, ResolveError> {
    ResolveParts(m.components, variables)
  }

  // ---------------------------------------------------------------------
  // Printer (`impl Display for Matcher`)

  /** The source syntax of one component. Only the empty text prints as
      nothing, and the body of a printed block splits back into the block
      it came from whenever the scanner could have produced that block. */
  function ComponentSource(c: Component): (r: string)
    ensures r == "" <==> c == Text("")
    ensures c.NamedRegex? && IsIdentifier(c.name) ==> |r| >= 4 && SplitBody(r[2..|r| - 2]) == c
    ensures c.Regex? && ':' !in c.pattern ==> |r| >= 4 && SplitBody(r[2..|r| - 2]) == c
  {
    match c
    case Text(t) => t
    case Variable(name) => "$$" + name
    case Regex(p) =>
      assert ("[[" + p + "]]")[2..|p| + 2] == p;
      "[[" + p + "]]"
    case NamedRegex(name, p) =>
      assert ("[[" + name + ":" + p + "]]")[2..|name| + |p| + 3] == name + ":" + p;
      NamedBodySplits(name, p);
      "[[" + name + ":" + p + "]]"
  }

  /** A body made of an identifier, a colon and a pattern splits at that
      colon: the identifier holds no colon of its own. */
  lemma NamedBodySplits(name: string, p: string)
    ensures IsIdentifier(name) ==> SplitBody(name + ":" + p) == NamedRegex(name, p)
  {
    var b := name + ":" + p;
    assert b[|name|] == ':' && b[..|name|] == name && b[|name| + 1..] == p;
  }

  /** The components written out in order; a sequence prints as nothing
      exactly when all its components are empty texts. */
  function Print(cs: seq<Component>): (r: string)
    ensures r == "" <==> forall k :: 0 <= k < |cs| ==> cs[k] == Text("")
  {
    if cs == [] then ""
    else
      assert forall k :: 0 <= k < |cs[1..]| ==> cs[1..][k] == cs[k + 1];
      ComponentSource(cs[0]) + Print(cs[1..])
  }

  /** What `Display` writes for a matcher. */
  function Display(m: Matcher): string {
    Print(m.components)
  }
}
