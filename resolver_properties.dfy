/** Properties of the resolver of `src/matcher.rs` (`Matcher::resolve` up
    to the assembled regular-expression source). */
module ResolverProperties {
  import opened Wrappers
  import opened Matchers
  import opened ScannerProperties
  import opened RoundTrip

  /** The variables of a concatenation are bound exactly when those of
      both halves are. */
  lemma AllBoundAppend(a: seq<Component>, b: seq<Component>, variables: map<string, string>)
    ensures AllBound(a + b, variables) <==> AllBound(a, variables) && AllBound(b, variables)
  {
    if AllBound(a, variables) && AllBound(b, variables) {
      forall k | 0 <= k < |a + b| && (a + b)[k].Variable? ensures (a + b)[k].name in variables {
        if k >= |a| {
          assert (a + b)[k] == b[k - |a|];
        }
      }
    }
    if AllBound(a + b, variables) {
      forall k | 0 <= k < |a| && a[k].Variable? ensures a[k].name in variables {
        assert (a + b)[k] == a[k];
      }
      forall k | 0 <= k < |b| && b[k].Variable? ensures b[k].name in variables {
        assert (a + b)[|a| + k] == b[k];
      }
    }
  }

  /** When both halves resolve, the source of the concatenation is the
      concatenation of their sources. */
  lemma {:induction false} ResolveAppendValue(a: seq<Component>, b: seq<Component>, variables: map<string, string>)
    requires AllBound(a, variables) && AllBound(b, variables)
    ensures ResolveParts(a + b, variables)
         == Success(ResolveParts(a, variables).value + ResolveParts(b, variables).value)
    decreases |a|
  {
    if a == [] {
      assert a + b == b;
      assert "" + ResolveParts(b, variables).value == ResolveParts(b, variables).value;
    } else {
      assert AllBound(a[1..], variables) by {
        forall k | 0 <= k < |a[1..]| && a[1..][k].Variable? ensures a[1..][k].name in variables {
          assert a[1..][k] == a[k + 1];
        }
      }
      ResolveAppendValue(a[1..], b, variables);
      assert (a + b)[1..] == a[1..] + b;
      assert (a + b)[0] == a[0];
      var f := Fragment(a[0], variables).value;
      var x, y := ResolveParts(a[1..], variables).value, ResolveParts(b, variables).value;
      assert f + (x + y) == (f + x) + y;
    }
  }

  /** The source of a concatenation is the concatenation of the sources,
      and it resolves exactly when both halves do. */
  lemma ResolveAppend(a: seq<Component>, b: seq<Component>, variables: map<string, string>)
    ensures ResolveParts(a + b, variables).Success?
        <==> ResolveParts(a, variables).Success? && ResolveParts(b, variables).Success?
    ensures ResolveParts(a + b, variables).Success? ==>
              ResolveParts(a + b, variables).value
              == ResolveParts(a, variables).value + ResolveParts(b, variables).value
  {
    AllBoundAppend(a, b, variables);
    if AllBound(a, variables) && AllBound(b, variables) {
      ResolveAppendValue(a, b, variables);
    }
  }

  /** Two mappings that agree on every variable the components mention
      give the same result: bindings of other names are ignored. */
  lemma {:induction false} ResolveFrame(cs: seq<Component>, v: map<string, string>, w: map<string, string>)
    requires forall k :: 0 <= k < |cs| && cs[k].Variable? ==>
               (cs[k].name in v <==> cs[k].name in w) && (cs[k].name in v ==> v[cs[k].name] == w[cs[k].name])
    ensures ResolveParts(cs, v) == ResolveParts(cs, w)
    decreases |cs|
  {
    if cs != [] {
      assert forall k :: 0 <= k < |cs[1..]| ==> cs[1..][k] == cs[k + 1];
      ResolveFrame(cs[1..], v, w);
    }
  }

  /** Text with no marker in it resolves to its escaped form, a literal
      pattern that matches exactly that text, whatever the mapping. */
  lemma ResolvePlainText(t: string, variables: map<string, string>)
    requires PlainText(t)
    ensures Parsed(t).Success?
    ensures var r := Resolve(Parsed(t).value, variables);
      r == Success(Escape(t)) && IsLiteralPattern(r.value) && Unescape(r.value) == t
  {
    ParsePlainText(t);
    ResolveCons(Text(t), [], variables);
    assert [Text(t)] + [] == [Text(t)];
    assert Escape(t) + "" == Escape(t);
  }

  /** Resolving a component in front of others puts its fragment in
      front of theirs. */
  lemma ResolveCons(c: Component, rest: seq<Component>, variables: map<string, string>)
    requires Fragment(c, variables).Success? && ResolveParts(rest, variables).Success?
    ensures ResolveParts([c] + rest, variables)
         == Success(Fragment(c, variables).value + ResolveParts(rest, variables).value)
  {
    assert ([c] + rest)[1..] == rest;
  }

  /** The final flush contributes nothing to the source. */
  lemma EmptyTextResolves(variables: map<string, string>)
    ensures ResolveParts([Text("")], variables) == Success("")
  {
    ResolveCons(Text(""), [], variables);
    assert [Text("")] + [] == [Text("")];
    assert Escape("") == "" && "" + "" == "";
  }

  /** A block alone resolves to its pattern verbatim, or, when the text
      before its first colon is an identifier, to a capture group of that
      name around the rest. */
  lemma ResolveLoneBlock(body: string, variables: map<string, string>)
    requires Closes(body)
    ensures Parsed("[[" + body + "]]").Success?
    ensures var c := SplitBody(body);
      Resolve(Parsed("[[" + body + "]]").value, variables)
      == Success(if c.NamedRegex? then "(?P<" + c.name + ">" + c.pattern + ")" else body)
  {
    ParseLoneBlock(body);
    var c := SplitBody(body);
    var f := Fragment(c, variables).value;
    EmptyTextResolves(variables);
    ResolveCons(c, [Text("")], variables);
    ResolveCons(Text(""), [c, Text("")], variables);
    assert [Text("")] + ([c] + [Text("")]) == [Text(""), c, Text("")];
    assert "" + (f + "") == f;
  }

  /** A variable alone resolves to its value verbatim, and fails when the
      mapping does not bind it. */
  lemma ResolveLoneVariable(name: string, variables: map<string, string>)
    requires IsName(name)
    ensures Parsed("$$" + name).Success?
    ensures Resolve(Parsed("$$" + name).value, variables)
         == if name in variables then Success(variables[name]) else Failure(UnboundVariable(name))
  {
    ParseLoneVariable(name);
    EmptyTextResolves(variables);
    if name in variables {
      ResolveCons(Variable(name), [Text("")], variables);
      assert [Variable(name)] + [Text("")] == [Variable(name), Text("")];
      assert variables[name] + "" == variables[name];
    }
  }

  /** The scan of `value=`. */
  lemma ScenarioText()
    ensures ParseFrom("value=$$v [[\\d+]]", 0, "", [])
         == ParseFrom("value=$$v [[\\d+]]", 6, "value=", [])
  {
    var s := "value=$$v [[\\d+]]";
    assert "" + s[0..6] == "value=";
    ParseTextRun(s, 0, 6, "", "value=", []);
  }

  /** The scan of the variable after `value=`. */
  lemma ScenarioVariable()
    ensures ParseFrom("value=$$v [[\\d+]]", 6, "value=", [])
         == ParseFrom("value=$$v [[\\d+]]", 9, "value=", [Variable("v")])
  {
    var s := "value=$$v [[\\d+]]";
    assert s[6..9] == "$$" + "v";
    VariableStep(s, 6, "v", "value=", []);
    assert [] + [Variable("v")] == [Variable("v")];
  }

  /** The scan of the blank and of the block after it. */
  lemma ScenarioBlock()
    ensures ParseFrom("value=$$v [[\\d+]]", 9, "value=", [Variable("v")])
         == ParseFrom("value=$$v [[\\d+]]", 17, "", [Variable("v"), Text("value= "), Regex("\\d+")])
  {
    var s := "value=$$v [[\\d+]]";
    var vs := [Variable("v")];
    assert "value=" + s[9..10] == "value= ";
    ParseTextRun(s, 9, 1, "value=", "value= ", vs);
    ScenarioBlockAt();
    BlockStep(s, 10, "value= ", "\\d+", vs);
    assert FirstColon("\\d+") == None by {
      assert "\\d+"[1..] == "d+" && "d+"[1..] == "+" && "+"[1..] == "";
    }
    assert vs + [Text("value= "), Regex("\\d+")] == [Variable("v"), Text("value= "), Regex("\\d+")];
  }

  /** The block of the scenario source reads back whole. */
  lemma ScenarioBlockAt()
    ensures BlockAt("value=$$v [[\\d+]]", 10, "\\d+")
  {
    var t := "\\d+" + "]]";
    assert ScanBlock(t, 3, 0) == Block("", 5, true);
    assert ScanBlock(t, 2, 0) == Block("+", 5, true);
    assert ScanBlock(t, 1, 0) == Block("d+", 5, true);
    assert "value=$$v [[\\d+]]"[10..17] == "[[" + "\\d+" + "]]";
  }

  /** `value=$$v [[\d+]]`: the variable comes first, because `$$` does not
      flush the pending text. */
  lemma ScenarioParse()
    ensures Parsed("value=$$v [[\\d+]]")
         == Success(Matcher([Variable("v"), Text("value= "), Regex("\\d+"), Text("")]))
  {
    ScenarioText();
    ScenarioVariable();
    ScenarioBlock();
    var cs := [Variable("v"), Text("value= "), Regex("\\d+")];
    assert cs + [Text("")] == [Variable("v"), Text("value= "), Regex("\\d+"), Text("")];
  }

  /** A variable, a text with no meta-character and a pattern resolve to
      the variable's value, the text itself and the pattern, in that order. */
  lemma ResolveVariableTextRegex(name: string, t: string, p: string, variables: map<string, string>)
    requires name in variables
    requires forall k :: 0 <= k < |t| ==> !IsMetaCharacter(t[k])
    ensures Resolve(Matcher([Variable(name), Text(t), Regex(p), Text("")]), variables)
         == Success(variables[name] + t + p)
  {
    EmptyTextResolves(variables);
    ResolveCons(Regex(p), [Text("")], variables);
    ResolveCons(Text(t), [Regex(p), Text("")], variables);
    ResolveCons(Variable(name), [Text(t), Regex(p), Text("")], variables);
    assert [Variable(name)] + ([Text(t)] + ([Regex(p)] + [Text("")]))
        == [Variable(name), Text(t), Regex(p), Text("")];
    assert variables[name] + (t + (p + "")) == variables[name] + t + p;
  }

  /** With `v` bound to `N`, the scenario resolves to `N`, the escaped
      text `value= ` and the fragment `\\d+`. */
  lemma ScenarioResolve()
    ensures Resolve(Matcher([Variable("v"), Text("value= "), Regex("\\d+"), Text("")]), map["v" := "N"])
         == Success("Nvalue= \\d+")
  {
    var t := "value= ";
    assert forall k :: 0 <= k < |t| ==> !IsMetaCharacter(t[k]);
    ResolveVariableTextRegex("v", t, "\\d+", map["v" := "N"]);
    assert "N" + t + "\\d+" == "Nvalue= \\d+";
  }

  /** With `v` unbound the scenario fails on `v`. */
  lemma ScenarioUnbound()
    ensures Resolve(Matcher([Variable("v"), Text("value= "), Regex("\\d+"), Text("")]), map[])
         == Failure(UnboundVariable("v"))
  {
  }
}
