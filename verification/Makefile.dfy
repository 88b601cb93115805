/** The `Makefile` object: reading pairs, merging, expanding and flattening, as the source updates it. */
module Makefiles {
  import opened Prelude
  import opened Text
  import opened Reachability
  import opened Variables
  import opened Expansion
  import opened Includes

  class Makefile {
    var variables: Vars
    var includes: seq<string>

    constructor ()
      ensures variables == map[] && includes == []
    {
      variables, includes := map[], [];
    }

    constructor Parsed(f: MakefileText)
      ensures variables == f.vars && includes == f.includes
    {
      variables, includes := f.vars, f.includes;
    }

    /** Reads the pairs of one statement and inserts the variable under construction. */
    method ParseVariable(pairs: seq<Pair>)
      modifies this`variables
      ensures var (name, v) := ReadPairs(old(variables), pairs); variables == old(variables)[name := v]
    {
      var name, v := "", Variable([], Set);
      for i := 0 to |pairs|
        invariant (name, v) == ReadPairs(variables, pairs[..i])
        invariant variables == old(variables)
      {
        assert pairs[..i + 1][..i] == pairs[..i];
        match pairs[i] {
          case Name(n) => name := n;
          case SetMark => v := v.(mode := Set);
          case AddMark => v := v.(mode := Add);
          case Value(x) =>
            if v.mode == Add {
              if name in variables {
                v := variables[name];
              }
              v := v.(values := v.values + [x]);
            } else {
              v := v.(values := v.values + [x]);
            }
        }
      }
      assert pairs[..|pairs|] == pairs;
      variables := variables[name := v];
    }

    /** One `=` or `+=` statement, as the reader is written to handle it. */
    method ParseStatement(s: Statement)
      modifies this`variables
      ensures variables == Assign(old(variables), s)
      ensures AllHaveValues(old(variables)) ==> AllHaveValues(variables)
    {
      ReadingIsAssigning(variables, s);
      ParseVariable(PairsOf(s));
    }

    /** The pairs of a `define` block; the grammar emits names and values only. */
    method ParseDefine(pairs: seq<Pair>)
      requires forall p :: p in pairs ==> p.Name? || p.Value?
      modifies this`variables
      ensures var (name, v) := ReadPairs(map[], pairs); variables == old(variables)[name := v]
    {
      var name, v := "", Variable([], Set);
      for i := 0 to |pairs|
        invariant (name, v) == ReadPairs(map[], pairs[..i]) && v.mode == Set
        invariant variables == old(variables)
      {
        assert pairs[..i + 1][..i] == pairs[..i];
        assert pairs[i] in pairs;
        if pairs[i].Name? {
          name := pairs[i].name;
        } else {
          v := v.(values := v.values + [pairs[i].value]);
        }
      }
      assert pairs[..|pairs|] == pairs;
      variables := variables[name := v];
    }

    /** One `define` block with its body. */
    method ParseDefinition(name: string, body: string)
      modifies this`variables
      ensures variables == Defined(old(variables), name, body)
      ensures AllHaveValues(old(variables)) ==> AllHaveValues(variables)
    {
      DefiningIsSetting(name, body);
      ParseDefine([Name(name), Value(body)]);
    }

    /** Merges `other` into this makefile, taking its variables in any order. */
    method Merge(other: Makefile)
      modifies this`variables
      ensures variables == Merged(old(variables), old(other.variables))
      ensures AllHaveValues(old(variables)) && AllHaveValues(old(other.variables)) ==> AllHaveValues(variables)
    {
      var theirs := other.variables;
      var rest := theirs.Keys;
      while rest != {}
        invariant rest <= theirs.Keys
        invariant variables == Merged(old(variables), theirs - rest)
        decreases rest
      {
        var key :| key in rest;
        var v := theirs[key];
        match v.mode {
          case Add =>
            if key in variables {
              var merged := variables[key];
              for i := 0 to |v.values|
                invariant merged.values == variables[key].values + v.values[..i]
              {
                merged := merged.(values := merged.values + [v.values[i]]);
              }
              merged := merged.(mode := v.mode);
              assert v.values[..|v.values|] == v.values;
              variables := variables[key := merged];
            } else {
              variables := variables[key := v];
            }
          case Set =>
            variables := variables[key := v];
        }
        rest := rest - {key};
      }
      assert theirs - rest == theirs;
    }

    /** The values of a variable with their references expanded. */
    method ResolveNestedVariables(v: Variable, ghost depth: nat) returns (copy: seq<string>)
      requires ReadyValues(variables, v.values, depth)
      ensures copy == ResolveValues(variables, v.values, depth)
      ensures |copy| == |v.values|
      decreases depth, 2
    {
      copy := v.values;
      for i := 0 to |v.values|
        invariant |copy| == |v.values| && copy[i..] == v.values[i..]
        invariant copy[..i] == ResolveValues(variables, v.values[..i], depth)
      {
        assert v.values[i] in v.values;
        var text := RewriteMatches(v.values[i], copy[i], depth);
        copy := copy[i := text];
        ResolveSnoc(variables, v.values[..i], v.values[i], depth);
        assert v.values[..i + 1] == v.values[..i] + [v.values[i]];
      }
      assert copy[..|copy|] == copy && v.values[..|v.values|] == v.values;
    }

    /** The inner loop: scans the original value and rewrites the copy one match at a time. */
    method RewriteMatches(original: string, copy: string, ghost depth: nat) returns (text: string)
      requires Ready(variables, Matches(original), depth)
      ensures text == Rewrite(variables, Matches(original), copy, depth)
      decreases depth, 1
    {
      text := copy;
      var matches := Matches(original);
      for j := 0 to |matches|
        invariant Rewrite(variables, matches[j..], text, depth) == Rewrite(variables, matches, copy, depth)
      {
        var m := matches[j];
        assert m in matches && matches[j..][0] == m && matches[j..][1..] == matches[j + 1..];
        var nested := Get(RefName(m), depth);
        if nested.Some? {
          text := Replace(text, m, nested.value, false);
        }
      }
    }

    /** The expanded text of a variable; needs the references from `name` to be acyclic. */
    method Get(name: string, ghost depth: nat) returns (r: Option<string>)
      requires Grounded(RefGraph(variables), name, depth)
      ensures r == if name in variables then Some(Expand(variables, name, depth)) else None
      decreases depth, 0
    {
      if name in variables {
        assert forall v, m :: v in variables[name].values && m in Matches(v) ==>
            RefName(m) in RefGraph(variables)[name];
        var resolved := ResolveNestedVariables(variables[name], depth - 1);
        return Some(Join(resolved, "\n"));
      }
      return None;
    }

    /** The first expanded value; the index is safe in every makefile whose variables have values. */
    method GetFirstValue(name: string, ghost depth: nat) returns (r: Option<string>)
      requires Grounded(RefGraph(variables), name, depth) && AllHaveValues(variables)
      ensures r.Some? <==> name in variables
      ensures name in variables ==>
        && depth > 0 && ReadyValues(variables, variables[name].values, depth - 1)
        && r.value == ResolveValues(variables, variables[name].values, depth - 1)[0]
    {
      if name in variables {
        assert forall v, m :: v in variables[name].values && m in Matches(v) ==>
            RefName(m) in RefGraph(variables)[name];
        var resolved := ResolveNestedVariables(variables[name], depth - 1);
        return Some(resolved[0]);
      }
      return None;
    }

    /** Reads every direct include before any is merged. */
    method ParseIncludedMakefiles(fs: FileSystem) returns (r: Result<seq<Makefile>, string>)
      ensures r.Err? <==> FirstMissing(fs, includes).Some?
      ensures r.Err? ==> FirstMissing(fs, includes) == Some(r.error)
      ensures r.Ok? ==> |r.value| == |includes| && forall i :: 0 <= i < |includes| ==>
        && fresh(r.value[i]) && includes[i] in fs
        && r.value[i].variables == fs[includes[i]].vars && r.value[i].includes == fs[includes[i]].includes
    {
      var found: seq<Makefile> := [];
      for i := 0 to |includes|
        invariant |found| == i && FirstMissing(fs, includes) == FirstMissing(fs, includes[i..])
        invariant forall j :: 0 <= j < i ==>
          && fresh(found[j]) && includes[j] in fs
          && found[j].variables == fs[includes[j]].vars && found[j].includes == fs[includes[j]].includes
      {
        assert includes[i..][0] == includes[i] && includes[i..][1..] == includes[i + 1..];
        if includes[i] !in fs {
          return Err(includes[i]);
        }
        var m := new Makefile.Parsed(fs[includes[i]]);
        found := found + [m];
      }
      return Ok(found);
    }

    /** Merges one include: the file itself, or its own `parse_all` when it has includes. */
    method MergeInclude(incl: Makefile, fs: FileSystem, path: string, ghost fuel: nat) returns (failed: Option<string>)
      requires incl != this && path in fs && Included(fs, path, fuel) != OutOfFuel
      requires incl.variables == fs[path].vars && incl.includes == fs[path].includes
      modifies this`variables
      ensures match Included(fs, path, fuel)
        case NotFound(p) => failed == Some(p)
        case Finished(vars) => failed == None && variables == Merged(old(variables), vars)
      decreases fuel, 0
    {
      if incl.includes != [] {
        var inner := incl.ParseAll(fs, fuel - 1);
        if inner.Err? {
          return Some(inner.error);
        }
        Merge(inner.value);
      } else {
        Merge(incl);
      }
      return None;
    }

    /**
     A new makefile with the variables of all includes and of this one, and no includes, or the error
     of the first failing include; for every run that ends.
     */
    method ParseAll(fs: FileSystem, ghost fuel: nat) returns (r: Result<Makefile, string>)
      requires ParsedAll(fs, MakefileText(variables, includes), fuel) != OutOfFuel
      ensures match ParsedAll(fs, MakefileText(variables, includes), fuel)
        case NotFound(p) => r == Err(p)
        case Finished(vars) => r.Ok? && fresh(r.value) && r.value.includes == [] && r.value.variables == vars
      decreases fuel, 1
    {
      NothingMissing(fs, includes);
      var found := ParseIncludedMakefiles(fs);
      if found.Err? {
        return Err(found.error);
      }
      var final := new Makefile();
      for i := 0 to |includes|
        invariant fresh(final) && final.includes == [] && final !in found.value
        invariant unchanged(this)
        invariant forall j :: 0 <= j < |includes| ==>
          && found.value[j].variables == fs[includes[j]].vars
          && found.value[j].includes == fs[includes[j]].includes
        invariant MergedIncludes(fs, includes[..i], fuel) == Finished(final.variables)
      {
        assert includes[i] in includes;
        IncludesOneMore(fs, includes, i, fuel);
        IncludesStopEarly(fs, includes, i + 1, fuel);
        var failed := final.MergeInclude(found.value[i], fs, includes[i], fuel);
        if failed.Some? {
          return Err(failed.value);
        }
      }
      assert includes[..|includes|] == includes;
      final.Merge(this);
      return Ok(final);
    }
  }

  lemma IncludesOneMore(fs: FileSystem, paths: seq<string>, i: nat, fuel: nat)
    requires (forall p :: p in paths ==> p in fs) && i < |paths|
    requires MergedIncludes(fs, paths[..i], fuel).Finished?
    ensures MergedIncludes(fs, paths[..i + 1], fuel)
         == OneMore(MergedIncludes(fs, paths[..i], fuel).vars, Included(fs, paths[i], fuel))
  {
    assert paths[..i + 1][..i] == paths[..i] && paths[..i + 1][i] == paths[i];
  }

  /** Where a prefix of the includes stops, the whole list stops, in the same way. */
  lemma {:induction false} IncludesStopEarly(fs: FileSystem, paths: seq<string>, n: nat, fuel: nat)
    requires (forall p :: p in paths ==> p in fs) && n <= |paths|
    ensures !MergedIncludes(fs, paths[..n], fuel).Finished? ==>
      MergedIncludes(fs, paths, fuel) == MergedIncludes(fs, paths[..n], fuel)
  {
    if n == |paths| {
      assert paths[..n] == paths;
    } else {
      assert paths[..|paths| - 1][..n] == paths[..n];
      IncludesStopEarly(fs, paths[..|paths| - 1], n, fuel);
    }
  }

  lemma {:induction false} ResolveSnoc(vars: Vars, values: seq<string>, v: string, depth: nat)
    requires ReadyValues(vars, values, depth) && Ready(vars, Matches(v), depth)
    ensures ReadyValues(vars, values + [v], depth)
    ensures ResolveValues(vars, values + [v], depth)
         == ResolveValues(vars, values, depth) + [Rewrite(vars, Matches(v), v, depth)]
  {
    if values == [] {
      assert values + [v] == [v];
    } else {
      assert (values + [v])[1..] == values[1..] + [v] && (values + [v])[0] == values[0];
      ResolveSnoc(vars, values[1..], v, depth);
      assert ReadyValues(vars, values + [v], depth);
    }
  }
}
