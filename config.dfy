/** The parts of the test-runner configuration of `src/config.rs` that
    the matcher's variables go through: the extension and search-path
    lists, and the memoising variable lookup. */
module Configs {
  import opened Wrappers

  // ---------------------------------------------------------------------
  // Substring search (`str::contains`)

  /** `sub` occurs in `s` at position `k`. */
  predicate OccursAt(s: string, sub: string, k: nat) {
    k + |sub| <= |s| && s[k..k + |sub|] == sub
  }

  /** The search from `k` on: true when `sub` occurs at `k` or later. */
  function ContainsFrom(s: string, sub: string, k: nat): (b: bool)
    requires k <= |s|
    ensures b <==> exists j :: k <= j && OccursAt(s, sub, j)
    decreases |s| - k
  {
    if k + |sub| > |s| then false
    else if s[k..k + |sub|] == sub then assert OccursAt(s, sub, k); true
    else
      var b := ContainsFrom(s, sub, k + 1);
      assert !OccursAt(s, sub, k);
      assert b ==> exists j :: k <= j && OccursAt(s, sub, j);
      b
  }

  /** `s.contains(sub)`. */
  function Contains(s: string, sub: string): (b: bool)
    ensures b <==> exists j :: OccursAt(s, sub, j)
  {
    ContainsFrom(s, sub, 0)
  }

  /** `Config::DEFAULT_VARIABLE_LOOKUP`: a name containing `tempfile`
      stands for a newly created temporary file, whose path the caller
      supplies as `freshPath`; every other name is unknown. */
  function DefaultVariableLookup(name: string, freshPath: string): (r: Option<string>)
    ensures r.None? <==> !exists j :: OccursAt(name, "tempfile", j)
    ensures r.Some? ==> r.value == freshPath
  {
    if Contains(name, "tempfile") then Some(freshPath) else None
  }

  // ---------------------------------------------------------------------
  // The memoising lookup, on values

  /** The failure of `lookup_variable`: the name is neither in the map nor
      known to the lookup function (the `expect` panic). */
  datatype LookupError = NoSuchVariable(name: string)

  /** The map after a lookup, and the value read from it. */
  datatype LookupOutcome = LookupOutcome(variables: map<string, string>, value: Result<string, LookupError>)

  /** `lookup_variable` as a function of the map before: a missing name is
      first offered to `lookup` and inserted when it knows it, then the
      name is read from the map. */
  function Lookup(variables: map<string, string>, name: string, lookup: string -> Option<string>): (r: LookupOutcome)
    ensures name in variables ==> r == LookupOutcome(variables, Success(variables[name]))
    ensures name !in variables && lookup(name).Some? ==>
              r.variables == variables[name := lookup(name).value] && r.value == Success(lookup(name).value)
    ensures name !in variables && lookup(name).None? ==>
              r == LookupOutcome(variables, Failure(NoSuchVariable(name)))
    ensures r.value.Success? <==> name in r.variables
    ensures r.value.Success? ==> r.variables[name] == r.value.value
    ensures forall k :: k in variables ==> k in r.variables && r.variables[k] == variables[k]
    ensures forall k :: k in r.variables ==> k in variables || k == name
  {
    var after :=
      if name in variables then variables
      else match lookup(name)
        case Some(initial) => variables[name := initial]
        case None => variables;
    LookupOutcome(after, if name in after then Success(after[name]) else Failure(NoSuchVariable(name)))
  }

  /** A name already in the map is answered from the map alone: the lookup
      function is not consulted. */
  lemma LookupIgnoresFunction(variables: map<string, string>, name: string, f: string -> Option<string>, g: string -> Option<string>)
    requires name in variables
    ensures Lookup(variables, name, f) == Lookup(variables, name, g)
  {
  }

  /** Looking the same name up again changes nothing and gives the same
      answer. */
  lemma LookupIdempotent(variables: map<string, string>, name: string, lookup: string -> Option<string>)
    ensures var first := Lookup(variables, name, lookup);
      first.value.Success? ==> Lookup(first.variables, name, lookup) == first
  {
  }

  /** The lookups of the source's own scenario: a constant, then two
      temporary-file names, then both again. The repeated lookups run with
      a second, arbitrary function `later` and still return the first
      answers, because the map already holds those names. */
  lemma LookupScenario(lookup: string -> Option<string>, later: string -> Option<string>, first: string, second: string)
    requires lookup("first_tempfile") == Some(first) && lookup("second_tempfile") == Some(second)
    ensures var m0 := map["name" := "bob"];
      var r1 := Lookup(m0, "name", lookup);
      var r2 := Lookup(r1.variables, "first_tempfile", lookup);
      var r3 := Lookup(r2.variables, "second_tempfile", lookup);
      var r4 := Lookup(r3.variables, "first_tempfile", later);
      var r5 := Lookup(r4.variables, "second_tempfile", later);
      && r1.value == Success("bob") && r2.value == Success(first) && r3.value == Success(second)
      && r4.value == Success(first) && r5.value == Success(second)
      && r5.variables == map["name" := "bob", "first_tempfile" := first, "second_tempfile" := second]
  {
    var m0 := map["name" := "bob"];
    var m2 := m0["first_tempfile" := first];
    assert "first_tempfile" != "name" && "second_tempfile" != "name" && "second_tempfile" != "first_tempfile";
    assert Lookup(m0, "name", lookup) == LookupOutcome(m0, Success("bob"));
    assert Lookup(m0, "first_tempfile", lookup).variables == m2;
    LookupIdempotent(m2, "first_tempfile", lookup);
  }

  /** The default lookup knows no name without `tempfile` in it. */
  lemma DefaultLookupExamples(freshPath: string)
    ensures DefaultVariableLookup("name", freshPath) == None
    ensures DefaultVariableLookup("first_tempfile", freshPath) == Some(freshPath)
  {
    assert OccursAt("first_tempfile", "tempfile", 6) by {
      assert "first_tempfile"[6..14] == "tempfile";
    }
  }

  // ---------------------------------------------------------------------
  // The objects

  /** The caller-owned `HashMap` of variable values that lookups fill in. */
  class VariableTable {
    var entries: map<string, string>

    constructor(initial: map<string, string>)
      ensures entries == initial
    {
      entries := initial;
    }
  }

  /** `Config`, reduced to the fields these operations use. */
  class Config {
    var supportedFileExtensions: seq<string>
    var extraExecutableSearchPaths: seq<string>
    var constants: map<string, string>
    const variableLookup: string -> Option<string>

    /** A configuration with no extensions and no extra search paths. */
    constructor(lookup: string -> Option<string>, constants: map<string, string>)
      ensures supportedFileExtensions == [] && extraExecutableSearchPaths == []
      ensures this.constants == constants && variableLookup == lookup
    {
      supportedFileExtensions := [];
      extraExecutableSearchPaths := [];
      this.constants := constants;
      variableLookup := lookup;
    }

    /** `add_extension`: one more extension, at the end. */
    method AddExtension(ext: string)
      modifies this
      ensures supportedFileExtensions == old(supportedFileExtensions) + [ext]
      ensures extraExecutableSearchPaths == old(extraExecutableSearchPaths) && constants == old(constants)
      ensures IsExtensionSupported(ext)
      ensures forall e :: old(IsExtensionSupported(e)) ==> IsExtensionSupported(e)
    {
      supportedFileExtensions := supportedFileExtensions + [ext];
    }

    /** `add_extensions`: the given extensions, in order, at the end. */
    method AddExtensions(extensions: seq<string>)
      modifies this
      ensures supportedFileExtensions == old(supportedFileExtensions) + extensions
      ensures extraExecutableSearchPaths == old(extraExecutableSearchPaths) && constants == old(constants)
      ensures forall e :: IsExtensionSupported(e) <==> old(IsExtensionSupported(e)) || e in extensions
    {
      supportedFileExtensions := supportedFileExtensions + extensions;
    }

    /** `add_executable_search_path`: one more path, at the end. */
    method AddExecutableSearchPath(path: string)
      modifies this
      ensures extraExecutableSearchPaths == old(extraExecutableSearchPaths) + [path]
      ensures supportedFileExtensions == old(supportedFileExtensions) && constants == old(constants)
    {
      extraExecutableSearchPaths := extraExecutableSearchPaths + [path];
    }

    /** `is_extension_supported`: some listed extension equals `extension`. */
    function IsExtensionSupported(extension: string): (b: bool)
      reads this
      ensures b <==> extension in supportedFileExtensions
    {
      FindExtension(supportedFileExtensions, extension).Some?
    }

    /** `lookup_variable`: fills `variables` from the lookup function when
        the name is missing, then reads the name from it. */
    method LookupVariable(name: string, variables: VariableTable) returns (r: Result<string, LookupError>)
      modifies variables
      ensures LookupOutcome(variables.entries, r) == Lookup(old(variables.entries), name, variableLookup)
    {
      if name !in variables.entries {
        match variableLookup(name)
        case Some(initial) =>
          variables.entries := variables.entries[name := initial];
        case None =>
      }
      if name in variables.entries {
        r := Success(variables.entries[name]);
      } else {
        r := Failure(NoSuchVariable(name));
      }
    }
  }

  /** The `find` of `is_extension_supported`: the first position holding
      `extension`. */
  function FindExtension(extensions: seq<string>, extension: string): (r: Option<nat>)
    ensures r.Some? ==> r.value < |extensions| && extensions[r.value] == extension
                        && extension !in extensions[..r.value]
    ensures r.None? ==> extension !in extensions
  {
    if extensions == [] then None
    else if extensions[0] == extension then Some(0)
    else match FindExtension(extensions[1..], extension)
      case None => None
      case Some(k) =>
        assert extensions[..k + 1] == [extensions[0]] + extensions[1..][..k];
        Some(k + 1)
  }
}
