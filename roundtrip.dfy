/** How the printer (`impl Display for Matcher`) and the scanner
    (`Matcher::parse`) of `src/matcher.rs` fit together. */
module RoundTrip {
  import opened Wrappers
  import opened Matchers
  import opened ScannerProperties

  // ---------------------------------------------------------------------
  // The printer

  /** Printing distributes over concatenation of component lists. */
  lemma {:induction false} PrintAppend(a: seq<Component>, b: seq<Component>)
    ensures Print(a + b) == Print(a) + Print(b)
    decreases |a|
  {
    if a == [] {
      assert a + b == b;
    } else {
      assert (a + b)[1..] == a[1..] + b;
      PrintAppend(a[1..], b);
    }
  }

  /** A block body printed back is exactly `[[` body `]]`, whichever way the
      first colon split it. */
  lemma SplitBodySource(body: string)
    ensures ComponentSource(SplitBody(body)) == "[[" + body + "]]"
  {
  }

  // ---------------------------------------------------------------------
  // Printing what was parsed

  /** Printing the components pushed at a block: the flushed text, then the
      block written back as `[[` body `]]`. */
  lemma PrintFlushAndBlock(acc: seq<Component>, text: string, body: string)
    ensures Print(acc + [Text(text), SplitBody(body)]) == Print(acc) + text + ("[[" + body + "]]")
  {
    var c := SplitBody(body);
    PrintAppend(acc, [Text(text), c]);
    PrintTextThen(text, c);
    SplitBodySource(body);
  }

  /** A text followed by one component prints as the text and then that
      component's source. */
  lemma PrintTextThen(text: string, c: Component)
    ensures Print([Text(text), c]) == text + ComponentSource(c)
  {
    assert [Text(text), c][1..] == [c];
    assert [c][1..] == [];
  }

  /** A `[[` at `p` opens a block that never closes. */
  predicate OpensUnclosed(s: string, p: nat) {
    p + 1 < |s| && s[p] == '[' && s[p + 1] == '[' && !ScanBlock(s, p + 2, 0).closed
  }

  /** Some `[[` at or after `i` opens a block that never closes. */
  predicate OpenBlockFrom(s: string, i: nat) {
    exists p: nat :: i <= p < |s| && OpensUnclosed(s, p)
  }

  /** An open block found from `j` on is also found from any earlier `i`. */
  lemma OpenBlockEarlier(s: string, i: nat, j: nat)
    requires i <= j && OpenBlockFrom(s, j)
    ensures OpenBlockFrom(s, i)
  {
    var p: nat :| j <= p < |s| && OpensUnclosed(s, p);
    assert i <= p;
  }

  /** `out` is `src`, or `src` with one `]]` added at its end; the latter
      only when the input from `i` on holds a block that never closes. */
  predicate Reproduces(out: string, src: string, s: string, i: nat) {
    out == src || (out == src + "]]" && OpenBlockFrom(s, i))
  }

  /** What is reproduced for the input from `j` on is reproduced for the
      input from any earlier `i`. */
  lemma ReproducesEarlier(out: string, src: string, s: string, i: nat, j: nat)
    requires i <= j && Reproduces(out, src, s, j)
    ensures Reproduces(out, src, s, i)
  {
    if out != src {
      OpenBlockEarlier(s, i, j);
    }
  }

  /** With no variable marker in the input, printing the parse gives the
      input back, followed by one `]]` when the last block was never closed. */
  lemma {:induction false} PrintParseFrom(s: string, i: nat, text: string, acc: seq<Component>)
    requires i <= |s| && NoVariableMarker(s)
    ensures ParseFrom(s, i, text, acc).Success?
    ensures Reproduces(Print(ParseFrom(s, i, text, acc).value), Print(acc) + text + s[i..], s, i)
    decreases |s| - i, 2
  {
    if i == |s| {
      PrintAppend(acc, [Text(text)]);
      assert s[i..] == "";
    } else if i + 1 < |s| && s[i] == '$' && s[i + 1] == '$' {
      assert VariableMarkerAt(s, i);
      assert false;
    } else if i + 1 < |s| && s[i] == '[' && s[i + 1] == '[' {
      PrintParseBlock(s, i, text, acc);
    } else {
      PrintParseChar(s, i, text, acc);
    }
  }

  /** The case of `PrintParseFrom` where `s[i]` is plain text. */
  lemma {:induction false} PrintParseChar(s: string, i: nat, text: string, acc: seq<Component>)
    requires i < |s| && NoVariableMarker(s)
    requires !(i + 1 < |s| && s[i] == '[' && s[i + 1] == '[')
    ensures ParseFrom(s, i, text, acc).Success?
    ensures Reproduces(Print(ParseFrom(s, i, text, acc).value), Print(acc) + text + s[i..], s, i)
    decreases |s| - i, 1
  {
    assert !VariableMarkerAt(s, i);
    PlainStep(s, i, text, acc);
    PrintParseFrom(s, i + 1, text + [s[i]], acc);
    var src := Print(acc) + text + s[i..];
    MoveIntoText(s, i, Print(acc), text);
    ReproducesEarlier(Print(ParseFrom(s, i + 1, text + [s[i]], acc).value), src, s, i, i + 1);
  }

  /** A character at no marker is appended to the pending text. */
  lemma PlainStep(s: string, i: nat, text: string, acc: seq<Component>)
    requires i < |s| && !MarkerAt(s, i)
    ensures ParseFrom(s, i, text, acc) == ParseFrom(s, i + 1, text + [s[i]], acc)
  {
  }

  /** Moving the character at `i` from the input into the pending text
      leaves their concatenation unchanged. */
  lemma MoveIntoText(s: string, i: nat, head: string, text: string)
    requires i < |s|
    ensures head + text + s[i..] == head + (text + [s[i]]) + s[i + 1..]
  {
    assert s[i..] == [s[i]] + s[i + 1..];
  }

  /** `[[` at `i` followed by `rest` from `i + 2` up to `e`. */
  lemma OpenerBefore(s: string, i: nat, e: nat, rest: string)
    requires i + 2 <= e <= |s| && s[i] == '[' && s[i + 1] == '[' && s[i + 2..e] == rest
    ensures s[i..e] == "[[" + rest
  {
    assert s[i..e] == s[i..i + 2] + s[i + 2..e];
  }

  /** The input from a `[[` at `i` is the block as the scanner read it:
      `[[` body `]]` when it closed, `[[` body to the end otherwise. */
  lemma BlockSource(s: string, i: nat)
    requires i + 1 < |s| && s[i] == '[' && s[i + 1] == '['
    ensures var b := ScanBlock(s, i + 2, 0);
      && (b.closed ==> i < b.end && s[i..b.end] == "[[" + b.body + "]]")
      && (!b.closed ==> s[i..] == "[[" + b.body)
  {
    var b := ScanBlock(s, i + 2, 0);
    ScanBlockSpan(s, i + 2, 0);
    if b.closed {
      OpenerBefore(s, i, b.end, b.body + "]]");
    } else {
      OpenerBefore(s, i, |s|, b.body);
    }
  }

  /** The `[[` case of `PrintParseFrom`. */
  lemma {:induction false} PrintParseBlock(s: string, i: nat, text: string, acc: seq<Component>)
    requires i + 1 < |s| && NoVariableMarker(s) && s[i] == '[' && s[i + 1] == '['
    ensures ParseFrom(s, i, text, acc).Success?
    ensures Reproduces(Print(ParseFrom(s, i, text, acc).value), Print(acc) + text + s[i..], s, i)
    decreases |s| - i, 1
  {
    var b := ScanBlock(s, i + 2, 0);
    var acc' := acc + [Text(text), SplitBody(b.body)];
    assert ParseFrom(s, i, text, acc) == ParseFrom(s, b.end, "", acc');
    BlockSource(s, i);
    PrintFlushAndBlock(acc, text, b.body);
    if b.closed {
      PrintParseAfterBlock(s, i, b.end, Print(acc) + text, b.body, acc');
    } else {
      PrintParseOpenBlock(s, i, Print(acc) + text, b.body, acc');
      assert OpensUnclosed(s, i);
    }
  }

  /** Joining the printed components and the input after a block. */
  lemma JoinAfterBlock(s: string, i: nat, j: nat, head: string, body: string, printed: string)
    requires i < j <= |s| && s[i..j] == "[[" + body + "]]"
    requires printed == head + ("[[" + body + "]]")
    ensures printed + "" + s[j..] == head + s[i..]
  {
    assert s[i..] == s[i..j] + s[j..];
  }

  /** After a closed block the scan goes on, and the rest of the input is
      reproduced. */
  lemma {:induction false} PrintParseAfterBlock(s: string, i: nat, j: nat, head: string, body: string, acc: seq<Component>)
    requires i < j <= |s| && NoVariableMarker(s)
    requires s[i..j] == "[[" + body + "]]"
    requires Print(acc) == head + ("[[" + body + "]]")
    ensures ParseFrom(s, j, "", acc).Success?
    ensures Reproduces(Print(ParseFrom(s, j, "", acc).value), head + s[i..], s, i)
    decreases |s| - i, 0
  {
    PrintParseFrom(s, j, "", acc);
    JoinAfterBlock(s, i, j, head, body, Print(acc));
    ReproducesEarlier(Print(ParseFrom(s, j, "", acc).value), head + s[i..], s, i, j);
  }

  /** An open block runs to the end: the final flush adds an empty `Text`,
      and the printed block gains the `]]` the input lacked. */
  lemma PrintParseOpenBlock(s: string, i: nat, head: string, body: string, acc: seq<Component>)
    requires i < |s| && s[i..] == "[[" + body
    requires Print(acc) == head + ("[[" + body + "]]")
    ensures ParseFrom(s, |s|, "", acc) == Success(acc + [Text("")])
    ensures Print(acc + [Text("")]) == head + s[i..] + "]]"
  {
    PrintAppend(acc, [Text("")]);
  }

  /** On input with no `$$`, `Display` of the parse reproduces the input,
      or the input followed by `]]`; the latter only when some `[[` of the
      input opens a block that never closes. */
  lemma PrintParsed(s: string)
    requires NoVariableMarker(s)
    ensures Parsed(s).Success?
    ensures Display(Parsed(s).value) == s || Display(Parsed(s).value) == s + "]]"
    ensures Display(Parsed(s).value) != s ==> OpenBlockFrom(s, 0)
  {
    PrintParseFrom(s, 0, "", []);
    assert Print([]) + "" + s[0..] == s;
  }

  // ---------------------------------------------------------------------
  // Parsing what was printed

  /** A position where the scanner sees `$$` or `[[`. */
  predicate MarkerAt(s: string, m: nat) {
    m + 1 < |s| && ((s[m] == '$' && s[m + 1] == '$') || (s[m] == '[' && s[m + 1] == '['))
  }

  /** A stretch of input with no marker in it is appended to the pending
      text one character at a time. */
  lemma {:induction false} ParseTextRun(s: string, i: nat, n: nat, text: string, after: string, acc: seq<Component>)
    requires i + n <= |s|
    requires forall m :: i <= m < i + n ==> !MarkerAt(s, m)
    requires after == text + s[i..i + n]
    ensures ParseFrom(s, i, text, acc) == ParseFrom(s, i + n, after, acc)
    decreases n
  {
    if n == 0 {
      assert text + s[i..i] == text;
    } else {
      assert !MarkerAt(s, i);
      assert text + [s[i]] + s[i + 1..i + n] == text + s[i..i + n];
      ParseTextRun(s, i + 1, n - 1, text + [s[i]], after, acc);
    }
  }

  /** A body the scanner reads back whole: scanning `body ]]` closes
      exactly at the appended `]]`. */
  predicate Closes(body: string) {
    ScanBlock(body + "]]", 0, 0) == Block(body, |body| + 2, true)
  }

  /** A block scan that closes within `t` gives the same result wherever
      `t` is embedded: the scanner never looks past the closing `]]`. */
  lemma {:induction false} ScanBlockLocal(s: string, j: nat, t: string, k: nat, level: int)
    requires j + |t| <= |s| && s[j..j + |t|] == t && k <= |t|
    requires ScanBlock(t, k, level).closed
    ensures ScanBlock(s, j + k, level)
         == Block(ScanBlock(t, k, level).body, j + ScanBlock(t, k, level).end, true)
    decreases |t| - k
  {
    assert forall m :: 0 <= m < |t| ==> s[j + m] == t[m];
    if k == |t| {
      assert false;
    } else if ClosesAt(t, k, level) {
      assert ClosesAt(s, j + k, level);
    } else {
      var level' := level + Delta(t[k]);
      assert ScanBlock(t, k, level).closed == ScanBlock(t, k + 1, level').closed;
      if k + 1 == |t| {
        assert false;
      } else {
        assert !ClosesAt(s, j + k, level);
        ScanBlockLocal(s, j, t, k + 1, level');
      }
    }
  }

  /** A Variable name: a non-empty alphanumeric run. */
  predicate IsName(n: string) {
    |n| > 0 && forall k :: 0 <= k < |n| ==> IsAlphanumeric(n[k])
  }

  /** Text the scanner reads back as one literal run: no `$$` and no `[[`. */
  predicate PlainText(t: string) {
    forall k :: 0 <= k < |t| ==> !MarkerAt(t, k)
  }

  /** `$$name` is written at `i`, and no alphanumeric character follows
      it. */
  predicate VariableAt(s: string, i: nat, name: string) {
    && IsName(name) && i + 2 + |name| <= |s| && s[i..i + 2 + |name|] == "$$" + name
    && (i + 2 + |name| < |s| ==> !IsAlphanumeric(s[i + 2 + |name|]))
  }

  /** `[[` body `]]` is written at `p`, and the body reads back whole. */
  predicate BlockAt(s: string, p: nat, body: string) {
    p + |body| + 4 <= |s| && s[p..p + |body| + 4] == "[[" + body + "]]" && Closes(body)
  }

  /** A closed block at `p`: the pending text is flushed and the scan
      resumes just past the closing `]]`. */
  lemma BlockStep(s: string, p: nat, t: string, body: string, acc: seq<Component>)
    requires BlockAt(s, p, body)
    ensures ParseFrom(s, p, t, acc) == ParseFrom(s, p + |body| + 4, "", acc + [Text(t), SplitBody(body)])
  {
    BlockScan(s, p, body);
    OpenerStep(s, p, t, acc, body, p + |body| + 4);
  }

  /** The scan of a block written at `p` gives back its body and ends just
      past its `]]`. */
  lemma BlockScan(s: string, p: nat, body: string)
    requires BlockAt(s, p, body)
    ensures p + 1 < |s| && s[p] == '[' && s[p + 1] == '['
    ensures ScanBlock(s, p + 2, 0) == Block(body, p + |body| + 4, true)
  {
    BlockAtSlices(s, p, body);
    ScanBlockLocal(s, p + 2, body + "]]", 0, 0);
  }

  /** What `BlockAt` says about the characters of `s`: the opener, then
      the body and its closer. */
  lemma BlockAtSlices(s: string, p: nat, body: string)
    requires BlockAt(s, p, body)
    ensures p + 1 < |s| && s[p] == '[' && s[p + 1] == '['
    ensures p + 2 + |body + "]]"| <= |s| && s[p + 2..p + 2 + |body + "]]"|] == body + "]]"
  {
    assert s[p..p + |body| + 4][0] == '[' && s[p..p + |body| + 4][1] == '[';
    assert s[p + 2..p + 2 + |body + "]]"|] == s[p..p + |body| + 4][2..];
  }

  /** At a `[[` the pending text is flushed, the block is scanned, and the
      scan resumes just past it. */
  lemma OpenerStep(s: string, p: nat, t: string, acc: seq<Component>, body: string, e: nat)
    requires p + 1 < |s| && s[p] == '[' && s[p + 1] == '['
    requires ScanBlock(s, p + 2, 0) == Block(body, e, true)
    ensures ParseFrom(s, p, t, acc) == ParseFrom(s, e, "", acc + [Text(t), SplitBody(body)])
  {
  }

  /** A variable at `i`: the name is pushed and the scan resumes after it. */
  lemma VariableStep(s: string, i: nat, name: string, text: string, acc: seq<Component>)
    requires VariableAt(s, i, name)
    ensures ParseFrom(s, i, text, acc) == ParseFrom(s, i + 2 + |name|, text, acc + [Variable(name)])
  {
    var k := i + 2 + |name|;
    assert forall m :: i + 2 <= m < k ==> IsAlphanumeric(s[m]) by {
      forall m | i + 2 <= m < k ensures IsAlphanumeric(s[m]) {
        assert s[m] == s[i..k][m - i] == name[m - i - 2];
      }
    }
    assert NameEnd(s, i + 2) == k;
    assert s[i] == '$' && s[i + 1] == '$' by {
      assert s[i..k][0] == '$' && s[i..k][1] == '$';
    }
    assert s[i + 2..k] == s[i..k][2..] == name;
  }

  /** Text with no marker in it parses to that one text. */
  lemma ParsePlainText(t: string)
    requires PlainText(t)
    ensures Parsed(t) == Success(Matcher([Text(t)]))
  {
    assert "" + t[0..|t|] == t;
    ParseTextRun(t, 0, |t|, "", t, []);
    assert [] + [Text(t)] == [Text(t)];
  }

  /** `$$name` alone parses to the variable, then the (empty) final flush. */
  lemma ParseLoneVariable(name: string)
    requires IsName(name)
    ensures Parsed("$$" + name) == Success(Matcher([Variable(name), Text("")]))
  {
    var s := "$$" + name;
    assert s[0..|s|] == s;
    VariableStep(s, 0, name, "", []);
    assert [] + [Variable(name)] == [Variable(name)];
    assert [Variable(name)] + [Text("")] == [Variable(name), Text("")];
  }

  /** A block that reads back whole, alone, parses to the empty text before
      it, the block's component, and the empty final flush. */
  lemma ParseLoneBlock(body: string)
    requires Closes(body)
    ensures Parsed("[[" + body + "]]") == Success(Matcher([Text(""), SplitBody(body), Text("")]))
  {
    var s := "[[" + body + "]]";
    assert s[0..|s|] == s;
    BlockStep(s, 0, "", body, []);
    var cs := [Text(""), SplitBody(body)];
    assert [] + cs == cs;
    assert cs + [Text("")] == [Text(""), SplitBody(body), Text("")];
  }
}
