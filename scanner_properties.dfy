/** Properties of the scanner of `src/matcher.rs` (`Matcher::parse`),
    proved about its reference `ParseFrom` and therefore about the method
    `Matchers.Parse`, which is proved equal to it. */
module ScannerProperties {
  import opened Wrappers
  import opened Matchers

  // ---------------------------------------------------------------------
  // The block scanner

  /** A block's body is exactly the text between `[[` and the closing `]]`
      (where its brackets balance out), or the rest of the input when no
      closing `]]` follows. */
  lemma {:induction false} ScanBlockSpan(s: string, j: nat, level: int)
    requires j <= |s|
    ensures var b := ScanBlock(s, j, level);
      && (b.closed ==> s[j..b.end] == b.body + "]]" && level + Balance(b.body) == 0)
      && (!b.closed ==> s[j..] == b.body)
    decreases |s| - j
  {
    if j == |s| {
    } else if ClosesAt(s, j, level) {
      assert s[j..j + 2] == "]]";
      assert Balance("") == 0;
    } else {
      ScanBlockSpan(s, j + 1, level + Delta(s[j]));
      var b := ScanBlock(s, j + 1, level + Delta(s[j]));
      assert ([s[j]] + b.body)[1..] == b.body;
      assert s[j..b.end] == [s[j]] + s[j + 1..b.end];
      assert s[j..] == [s[j]] + s[j + 1..];
    }
  }

  /** The block does not close before its end: no `]]` inside the body is
      met at depth zero. */
  lemma {:induction false} ScanBlockStopsAtFirstClose(s: string, j: nat, level: int, m: nat)
    requires j <= m < |s|
    requires m < j + |ScanBlock(s, j, level).body|
    ensures !ClosesAt(s, m, level + Balance(s[j..m]))
    decreases m - j
  {
    var b := ScanBlock(s, j + 1, level + Delta(s[j]));
    assert !ClosesAt(s, j, level) && ScanBlock(s, j, level).body == [s[j]] + b.body;
    if m == j {
      assert s[j..j] == "";
    } else {
      ScanBlockStopsAtFirstClose(s, j + 1, level + Delta(s[j]), m);
      assert s[j..m][1..] == s[j + 1..m];
    }
  }

  // ---------------------------------------------------------------------
  // The shape of every parse

  /** What the scanner produces extends the components already pushed and
      always ends with a `Text` (the final flush). */
  lemma {:induction false} ParseFromExtends(s: string, i: nat, text: string, acc: seq<Component>)
    requires i <= |s|
    requires ParseFrom(s, i, text, acc).Success?
    ensures var cs := ParseFrom(s, i, text, acc).value;
      |cs| > |acc| && cs[..|acc|] == acc && cs[|cs| - 1].Text?
    decreases |s| - i
  {
    if i == |s| {
      assert (acc + [Text(text)])[..|acc|] == acc;
    } else if i + 1 < |s| && s[i] == '$' && s[i + 1] == '$' {
      var n := NameEnd(s, i + 2);
      if n != i + 2 {
        var acc' := acc + [Variable(s[i + 2..n])];
        ParseFromExtends(s, n, text, acc');
        PrefixOfExtension(ParseFrom(s, n, text, acc').value, acc, acc');
      }
    } else if i + 1 < |s| && s[i] == '[' && s[i + 1] == '[' {
      var b := ScanBlock(s, i + 2, 0);
      var acc' := acc + [Text(text), SplitBody(b.body)];
      ParseFromExtends(s, b.end, "", acc');
      PrefixOfExtension(ParseFrom(s, b.end, "", acc').value, acc, acc');
    } else {
      ParseFromExtends(s, i + 1, text + [s[i]], acc);
    }
  }

  /** A sequence that starts with `acc + more` starts with `acc`. */
  lemma PrefixOfExtension<T>(cs: seq<T>, acc: seq<T>, acc': seq<T>)
    requires |acc| <= |acc'| <= |cs| && acc'[..|acc|] == acc && cs[..|acc'|] == acc'
    ensures cs[..|acc|] == acc
  {
    assert cs[..|acc|] == cs[..|acc'|][..|acc|];
  }

  /** `parse` never returns an empty list, and its last component is a
      `Text` (possibly empty). */
  lemma ParsedEndsWithText(s: string)
    requires Parsed(s).Success?
    ensures var cs := Parsed(s).value.components; |cs| > 0 && cs[|cs| - 1].Text?
  {
    ParseFromExtends(s, 0, "", []);
  }

  /** The invariants of the component model: a `NamedRegex` is named by an
      identifier and a `Variable` by a non-empty alphanumeric run. */
  predicate WellFormed(c: Component) {
    && (c.NamedRegex? ==> IsIdentifier(c.name))
    && (c.Variable? ==> |c.name| > 0 && forall k :: 0 <= k < |c.name| ==> IsAlphanumeric(c.name[k]))
  }

  /** Every component the scan pushes is well formed, so from well-formed
      components already pushed it returns only well-formed ones. */
  lemma {:induction false} ParseFromWellFormed(s: string, i: nat, text: string, acc: seq<Component>)
    requires i <= |s|
    requires forall k :: 0 <= k < |acc| ==> WellFormed(acc[k])
    requires ParseFrom(s, i, text, acc).Success?
    ensures var cs := ParseFrom(s, i, text, acc).value; forall k :: 0 <= k < |cs| ==> WellFormed(cs[k])
    decreases |s| - i
  {
    if i == |s| {
    } else if i + 1 < |s| && s[i] == '$' && s[i + 1] == '$' {
      var n := NameEnd(s, i + 2);
      var name := s[i + 2..n];
      assert forall k :: 0 <= k < |name| ==> name[k] == s[i + 2 + k];
      ParseFromWellFormed(s, n, text, acc + [Variable(name)]);
    } else if i + 1 < |s| && s[i] == '[' && s[i + 1] == '[' {
      var b := ScanBlock(s, i + 2, 0);
      ParseFromWellFormed(s, b.end, "", acc + [Text(text), SplitBody(b.body)]);
    } else {
      ParseFromWellFormed(s, i + 1, text + [s[i]], acc);
    }
  }

  /** Every component of a successful parse satisfies the model invariants. */
  lemma ParsedWellFormed(s: string)
    requires Parsed(s).Success?
    ensures var cs := Parsed(s).value.components; forall k :: 0 <= k < |cs| ==> WellFormed(cs[k])
  {
    ParseFromWellFormed(s, 0, "", []);
  }

  // ---------------------------------------------------------------------
  // When the scanner fails

  /** The scanner fails only at a `$$` that is followed by no alphanumeric
      character (the empty variable name). */
  lemma {:induction false} ParseFromFailure(s: string, i: nat, text: string, acc: seq<Component>)
    requires i <= |s|
    requires ParseFrom(s, i, text, acc).Failure?
    ensures var p := ParseFrom(s, i, text, acc).error.at;
      i <= p && p + 1 < |s| && s[p] == '$' && s[p + 1] == '$' && (p + 2 == |s| || !IsAlphanumeric(s[p + 2]))
    decreases |s| - i
  {
    if i == |s| {
    } else if i + 1 < |s| && s[i] == '$' && s[i + 1] == '$' {
      var n := NameEnd(s, i + 2);
      if n != i + 2 {
        ParseFromFailure(s, n, text, acc + [Variable(s[i + 2..n])]);
      }
    } else if i + 1 < |s| && s[i] == '[' && s[i + 1] == '[' {
      var b := ScanBlock(s, i + 2, 0);
      ParseFromFailure(s, b.end, "", acc + [Text(text), SplitBody(b.body)]);
    } else {
      ParseFromFailure(s, i + 1, text + [s[i]], acc);
    }
  }

  /** A `$$` starts at `m`. */
  predicate VariableMarkerAt(s: string, m: nat) {
    m + 1 < |s| && s[m] == '$' && s[m + 1] == '$'
  }

  /** No two adjacent `$` anywhere: the input holds no variable marker. */
  predicate NoVariableMarker(s: string) {
    forall m :: 0 <= m < |s| ==> !VariableMarkerAt(s, m)
  }

  /** A parse can fail only at a `$$` with no name after it; in particular
      input without `$$` always parses. */
  lemma ParsedFailure(s: string)
    ensures Parsed(s).Failure? ==>
              var p := Parsed(s).error.at;
              p + 1 < |s| && s[p] == '$' && s[p + 1] == '$' && (p + 2 == |s| || !IsAlphanumeric(s[p + 2]))
    ensures NoVariableMarker(s) ==> Parsed(s).Success?
  {
    if ParseFrom(s, 0, "", []).Failure? {
      ParseFromFailure(s, 0, "", []);
      assert VariableMarkerAt(s, ParseFrom(s, 0, "", []).error.at);
    }
  }
}
