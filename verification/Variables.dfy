/** Makefile variables: assignment statements, `define` blocks and the merging of two makefiles. */
module Variables {

  datatype Mode = Add | Set

  datatype Variable = Variable(values: seq<string>, mode: Mode)

  type Vars = map<string, Variable>

  /** The pairs the grammar hands to `parse_variable` and `parse_define`. */
  datatype Pair = Name(name: string) | SetMark | AddMark | Value(value: string)

  /** One assignment with one value: `name = value` or `name += value`. */
  datatype Statement = Statement(name: string, mode: Mode, value: string)

  // ---- Statements ----

  /** The meaning of one statement: `=` replaces, `+=` appends and keeps the mode already there. */
  function Assign(vars: Vars, s: Statement): Vars {
    if s.mode == Add && s.name in vars then
      vars[s.name := Variable(vars[s.name].values + [s.value], vars[s.name].mode)]
    else
      vars[s.name := Variable([s.value], s.mode)]
  }

  function Execute(vars: Vars, ss: seq<Statement>): Vars {
    if ss == [] then vars else Assign(Execute(vars, ss[..|ss| - 1]), ss[|ss| - 1])
  }

  /** The name and variable under construction after the pairs of one statement have been read. */
  function ReadPairs(vars: Vars, pairs: seq<Pair>): (string, Variable) {
    if pairs == [] then ("", Variable([], Set))
    else
      var (name, v) := ReadPairs(vars, pairs[..|pairs| - 1]);
      match pairs[|pairs| - 1]
      case Name(n) => (n, v)
      case SetMark => (name, v.(mode := Set))
      case AddMark => (name, v.(mode := Add))
      case Value(x) =>
        var base := if v.mode == Add && name in vars then vars[name] else v;
        (name, base.(values := base.values + [x]))
  }

  function Mark(m: Mode): Pair {
    if m == Add then AddMark else SetMark
  }

  function PairsOf(s: Statement): seq<Pair> {
    [Name(s.name), Mark(s.mode), Value(s.value)]
  }

  /** Reading the pairs of a statement and inserting the result is executing the statement. */
  lemma ReadingIsAssigning(vars: Vars, s: Statement)
    ensures var (name, v) := ReadPairs(vars, PairsOf(s)); vars[name := v] == Assign(vars, s)
  {
    var ps := PairsOf(s);
    assert ps[..2] == [ps[0], ps[1]];
    assert ps[..2][..1] == [ps[0]];
    assert ps[..2][..1][..0] == [];
    assert ReadPairs(vars, ps[..2][..1]) == (s.name, Variable([], Set));
    assert ReadPairs(vars, ps[..2]) == (s.name, Variable([], s.mode));
    assert [] + [s.value] == [s.value];
  }

  /**
   The shipped grammar marks its `=` and `+=` rules silent, so no mark reaches the reader: every
   statement, `+=` included, then replaces the variable.
   */
  lemma SilentMarksAlwaysSet(vars: Vars, s: Statement)
    ensures var (name, v) := ReadPairs(vars, [Name(s.name), Value(s.value)]);
      vars[name := v] == Assign(vars, s.(mode := Set))
  {
    var ps := [Name(s.name), Value(s.value)];
    assert ps[..1] == [ps[0]];
    assert ps[..1][..0] == [];
    assert ReadPairs(vars, ps[..1]) == (s.name, Variable([], Set));
    assert [] + [s.value] == [s.value];
  }

  /** A `define` block sets its variable to the one body, whatever was there before. */
  lemma DefiningIsSetting(name: string, body: string)
    ensures ReadPairs(map[], [Name(name), Value(body)]) == (name, Variable([body], Set))
  {
    var ps := [Name(name), Value(body)];
    assert ps[..1] == [ps[0]];
    assert ps[..1][..0] == [];
    assert ReadPairs(map[], ps[..1]) == (name, Variable([], Set));
    assert [] + [body] == [body];
  }

  /** What the reader meets in a makefile: the pairs of an assignment or of a `define` block. */
  datatype Item = Assignment(pairs: seq<Pair>) | Definition(pairs: seq<Pair>)

  /** The variables of a makefile read item by item. */
  function ReadItems(items: seq<Item>): Vars {
    if items == [] then map[]
    else
      var vars, last := ReadItems(items[..|items| - 1]), items[|items| - 1];
      var (name, v) := ReadPairs(if last.Assignment? then vars else map[], last.pairs);
      vars[name := v]
  }

  predicate Unmarked(items: seq<Item>) {
    forall i :: 0 <= i < |items| ==> AddMark !in items[i].pairs
  }

  ghost predicate ReadWithoutMarks(vars: Vars) {
    exists items :: Unmarked(items) && vars == ReadItems(items)
  }

  lemma {:induction false} UnmarkedPairsSet(vars: Vars, pairs: seq<Pair>)
    requires AddMark !in pairs
    ensures ReadPairs(vars, pairs).1.mode == Set
  {
    if pairs == [] {
    } else {
      UnmarkedPairsSet(vars, pairs[..|pairs| - 1]);
    }
  }

  /** Without Add marks every variable comes out in mode Set. */
  lemma {:induction false} UnmarkedFilesSet(items: seq<Item>)
    requires Unmarked(items)
    ensures forall k :: k in ReadItems(items) ==> ReadItems(items)[k].mode == Set
  {
    if items == [] {
    } else {
      var n := |items| - 1;
      UnmarkedFilesSet(items[..n]);
      UnmarkedPairsSet(ReadItems(items[..n]), items[n].pairs);
      UnmarkedPairsSet(map[], items[n].pairs);
    }
  }

  // ---- Merging ----

  /** What `merge` leaves under a name that the right makefile defines. */
  function Combine(v: Variable, w: Variable): Variable {
    if w.mode == Add then Variable(v.values + w.values, Add) else w
  }

  /** The merged map, name by name. */
  function Merged(a: Vars, b: Vars): Vars {
    map k | k in a.Keys + b.Keys ::
      if k !in b then a[k] else if k in a then Combine(a[k], b[k]) else b[k]
  }

  /** Left-to-right merging of a list of makefiles into `a`. */
  function MergeAll(a: Vars, files: seq<Vars>): Vars {
    if files == [] then a else Merged(MergeAll(a, files[..|files| - 1]), files[|files| - 1])
  }

  /** The one situation in which regrouping two merges changes the result. */
  predicate LostSet(a: Vars, b: Vars, c: Vars, k: string) {
    && k in a && k in b && k in c
    && a[k].values != [] && b[k].mode == Set && c[k].mode == Add
  }

  /**
   Merging is associative exactly when no variable with values in `a` is set by `b` and added to by
   `c`: merging `c` into `b` first turns the variable's mode to Add and forgets that `b` set it.
   */
  lemma RegroupingLaw(a: Vars, b: Vars, c: Vars)
    ensures Merged(Merged(a, b), c) == Merged(a, Merged(b, c)) <==> forall k :: !LostSet(a, b, c, k)
  {
    var left, right := Merged(Merged(a, b), c), Merged(a, Merged(b, c));
    assert left.Keys == right.Keys;
    forall k | k in left ensures left[k] == right[k] <==> !LostSet(a, b, c, k) {
      RegroupOne(a, b, c, k);
    }
    if forall k :: !LostSet(a, b, c, k) {
      assert left == right;
    }
  }

  lemma RegroupOne(a: Vars, b: Vars, c: Vars, k: string)
    requires k in a || k in b || k in c
    ensures Merged(Merged(a, b), c)[k] == Merged(a, Merged(b, c))[k] <==> !LostSet(a, b, c, k)
  {
  }

  lemma MergeIntoEmpty(b: Vars)
    ensures Merged(map[], b) == b
  {
  }

  lemma {:induction false} MergedSetComesFromASet(files: seq<Vars>, k: string)
    requires k in MergeAll(map[], files) && MergeAll(map[], files)[k].mode == Set
    ensures exists i :: 0 <= i < |files| && k in files[i] && files[i][k].mode == Set
  {
    var n := |files| - 1;
    if k in files[n] && files[n][k].mode == Set {
    } else {
      MergedSetComesFromASet(files[..n], k);
      var i :| 0 <= i < n && k in files[..n][i] && files[..n][i][k].mode == Set;
      assert files[..n][i] == files[i];
    }
  }

  ghost predicate SomeSet(files: seq<Vars>, k: string) {
    exists i :: 0 <= i < |files| && k in files[i] && files[i][k].mode == Set
  }

  lemma SomeSetSnoc(files: seq<Vars>, last: Vars, k: string)
    ensures SomeSet(files + [last], k) <==> SomeSet(files, k) || (k in last && last[k].mode == Set)
  {
    var all := files + [last];
    if i :| 0 <= i < |files| && k in files[i] && files[i][k].mode == Set {
      assert all[i] == files[i];
    }
    if k in last && last[k].mode == Set {
      assert all[|files|] == last;
    }
    if i :| 0 <= i < |all| && k in all[i] && all[i][k].mode == Set && i < |files| {
      assert files[i] == all[i];
    }
  }

  lemma {:induction false} MergeAllKeys(a: Vars, files: seq<Vars>)
    ensures MergeAll(a, files).Keys == a.Keys + MergeAll(map[], files).Keys
  {
    if files == [] {
    } else {
      MergeAllKeys(a, files[..|files| - 1]);
    }
  }

  /** Once some file of the list sets a variable, what stood there before the list is gone. */
  lemma {:induction false} SetForgets(a: Vars, files: seq<Vars>, k: string)
    requires k in MergeAll(a, files)
    ensures SomeSet(files, k) ==> k in MergeAll(map[], files) && MergeAll(a, files)[k] == MergeAll(map[], files)[k]
    ensures !SomeSet(files, k) ==>
      k in a.Keys + MergeAll(map[], files).Keys && MergeAll(a, files)[k] == Merged(a, MergeAll(map[], files))[k]
  {
    MergeAllKeys(a, files);
    if files == [] {
    } else {
      var n := |files| - 1;
      var init, last := files[..n], files[n];
      assert init + [last] == files;
      SomeSetSnoc(init, last, k);
      var inner := MergeAll(map[], init);
      MergeAllKeys(a, init);
      if k in MergeAll(a, init) {
        SetForgets(a, init, k);
        if k in a && k in inner && k in last && last[k].mode == Add {
          assert a[k].values + inner[k].values + last[k].values == a[k].values + (inner[k].values + last[k].values);
          if inner[k].mode == Set { MergedSetComesFromASet(init, k); }
        }
      } else if SomeSet(init, k) {
        var i :| 0 <= i < |init| && k in init[i] && init[i][k].mode == Set;
        MentionedIsMerged(a, init, i, k);
      }
    }
  }

  lemma {:induction false} MentionedIsMerged(a: Vars, files: seq<Vars>, i: nat, k: string)
    requires i < |files| && k in files[i]
    ensures k in MergeAll(a, files)
  {
    if i < |files| - 1 {
      MentionedIsMerged(a, files[..|files| - 1], i, k);
    }
  }

  /** The last file of the list that mentions the variable adds to it. */
  ghost predicate LastAdds(files: seq<Vars>, k: string) {
    exists j :: 0 <= j < |files| && LastMention(files, j, k) && files[j][k].mode == Add
  }

  predicate LastMention(files: seq<Vars>, j: nat, k: string) {
    j < |files| && k in files[j] && forall m :: j < m < |files| ==> k !in files[m]
  }

  lemma {:induction false} LastMentionGivesMode(files: seq<Vars>, k: string) returns (j: nat)
    requires k in MergeAll(map[], files)
    ensures LastMention(files, j, k) && MergeAll(map[], files)[k].mode == files[j][k].mode
  {
    var n := |files| - 1;
    if k in files[n] {
      j := n;
    } else {
      j := LastMentionGivesMode(files[..n], k);
      assert forall m :: j < m < n ==> files[m] == files[..n][m];
    }
  }

  lemma ModeIsAddExactlyWhen(files: seq<Vars>, k: string)
    requires k in MergeAll(map[], files)
    ensures MergeAll(map[], files)[k].mode == Add <==> LastAdds(files, k)
  {
    var j := LastMentionGivesMode(files, k);
    if i :| 0 <= i < |files| && LastMention(files, i, k) && files[i][k].mode == Add {
      assert i == j;
    }
  }

  /** A variable with values in `a` that some file of the list sets and the last to mention it adds to. */
  ghost predicate LostInList(a: Vars, files: seq<Vars>, k: string) {
    k in a && a[k].values != [] && SomeSet(files, k) && LastAdds(files, k)
  }

  /**
   The regrouping law for a whole list, as for an include with its own includes: merging the list
   first and the result into `a` equals merging file by file exactly when no variable is lost so.
   */
  lemma ListRegroupingLaw(a: Vars, files: seq<Vars>)
    ensures Merged(a, MergeAll(map[], files)) == MergeAll(a, files) <==> forall k :: !LostInList(a, files, k)
  {
    var grouped, flat, inner := Merged(a, MergeAll(map[], files)), MergeAll(a, files), MergeAll(map[], files);
    MergeAllKeys(a, files);
    assert grouped.Keys == flat.Keys;
    forall k | k in flat ensures grouped[k] == flat[k] <==> !LostInList(a, files, k) {
      SetForgets(a, files, k);
      if SomeSet(files, k) { ModeIsAddExactlyWhen(files, k); }
      if LostInList(a, files, k) {
        assert |grouped[k].values| == |a[k].values| + |inner[k].values|;
      }
    }
    if forall k :: !LostInList(a, files, k) {
      assert grouped == flat;
    }
  }

  lemma {:induction false} MergeAllConcat(a: Vars, xs: seq<Vars>, ys: seq<Vars>)
    ensures MergeAll(a, xs + ys) == MergeAll(MergeAll(a, xs), ys)
  {
    if ys == [] {
      assert xs + ys == xs;
    } else {
      var n := |ys| - 1;
      assert (xs + ys)[..|xs + ys| - 1] == xs + ys[..n];
      MergeAllConcat(a, xs, ys[..n]);
    }
  }

  /** With modes Set only, the merge of a list gives each variable its last definition, if any. */
  lemma {:induction false} LastDefinitionWins(files: seq<Vars>, k: string)
    requires forall i :: 0 <= i < |files| && k in files[i] ==> files[i][k].mode == Set
    ensures k in MergeAll(map[], files) <==> exists i :: 0 <= i < |files| && k in files[i]
    ensures forall i :: 0 <= i < |files| && k in files[i] && (forall j :: i < j < |files| ==> k !in files[j])
              ==> MergeAll(map[], files)[k] == files[i][k]
  {
    if files == [] {
    } else {
      var n := |files| - 1;
      var init := files[..n];
      LastDefinitionWins(init, k);
      forall i | 0 <= i < |files| && k in files[i] && (forall j :: i < j < |files| ==> k !in files[j])
        ensures MergeAll(map[], files)[k] == files[i][k]
      {
        if i < n {
          assert init[i] == files[i];
          assert k !in files[n];
        }
      }
      if k !in files[n] && k in MergeAll(map[], init) {
        var i :| 0 <= i < |init| && k in init[i];
        assert files[i] == init[i];
      }
      if i :| 0 <= i < |files| && k in files[i] && i < n {
        assert init[i] == files[i];
      }
    }
  }

  // ---- One pass over all files ----

  ghost predicate SameValues(a: Vars, b: Vars) {
    a.Keys == b.Keys && forall k :: k in a ==> a[k].values == b[k].values
  }

  function Concat(files: seq<seq<Statement>>): seq<Statement> {
    if files == [] then [] else Concat(files[..|files| - 1]) + files[|files| - 1]
  }

  function ExecuteEach(files: seq<seq<Statement>>): seq<Vars> {
    if files == [] then [] else ExecuteEach(files[..|files| - 1]) + [Execute(map[], files[|files| - 1])]
  }

  lemma {:induction false} ExecuteConcat(vars: Vars, xs: seq<Statement>, ys: seq<Statement>)
    ensures Execute(vars, xs + ys) == Execute(Execute(vars, xs), ys)
  {
    if ys == [] {
      assert xs + ys == xs;
    } else {
      var n := |ys| - 1;
      assert (xs + ys)[..|xs + ys| - 1] == xs + ys[..n];
      ExecuteConcat(vars, xs, ys[..n]);
    }
  }

  lemma AssignUnderMerge(a: Vars, f: Vars, b: Vars, s: Statement)
    requires SameValues(Merged(a, f), b)
    ensures SameValues(Merged(a, Assign(f, s)), Assign(b, s))
  {
  }

  /** Running a file on its own and merging it is running its statements in place, value for value. */
  lemma {:induction false} ExecuteUnderMerge(a: Vars, b: Vars, ss: seq<Statement>)
    requires SameValues(a, b)
    ensures SameValues(Merged(a, Execute(map[], ss)), Execute(b, ss))
  {
    if ss == [] {
    } else {
      var n := |ss| - 1;
      ExecuteUnderMerge(a, b, ss[..n]);
      AssignUnderMerge(a, Execute(map[], ss[..n]), Execute(b, ss[..n]), ss[n]);
    }
  }

  /**
   For any list of files, each a list of set and add statements: running each file on its own and
   merging the results left to right gives every variable the values of one pass over all statements.
   */
  lemma {:induction false} MergingFilesIsOnePass(files: seq<seq<Statement>>)
    ensures SameValues(MergeAll(map[], ExecuteEach(files)), Execute(map[], Concat(files)))
  {
    if files == [] {
    } else {
      var n := |files| - 1;
      var init, last := files[..n], files[n];
      MergingFilesIsOnePass(init);
      ExecuteConcat(map[], Concat(init), last);
      ExecuteUnderMerge(MergeAll(map[], ExecuteEach(init)), Execute(map[], Concat(init)), last);
      var each := ExecuteEach(files);
      assert each[..|each| - 1] == ExecuteEach(init);
    }
  }

  // ---- Every variable has a value ----

  predicate AllHaveValues(vars: Vars) {
    forall k :: k in vars ==> vars[k].values != []
  }

  /** Every way a makefile comes into being: parsing statements and defines, and merging. */
  datatype Build =
    | Empty
    | Then(before: Build, statement: Statement)
    | Define(before: Build, name: string, body: string)
    | Merge(left: Build, right: Build)

  function Defined(vars: Vars, name: string, body: string): Vars {
    vars[name := Variable([body], Set)]
  }

  function Built(b: Build): Vars {
    match b
    case Empty => map[]
    case Then(before, s) => Assign(Built(before), s)
    case Define(before, name, body) => Defined(Built(before), name, body)
    case Merge(l, r) => Merged(Built(l), Built(r))
  }

  lemma {:induction false} BuiltVariablesHaveValues(b: Build)
    ensures AllHaveValues(Built(b))
  {
    match b
    case Empty =>
    case Then(before, s) => BuiltVariablesHaveValues(before);
    case Define(before, _, _) => BuiltVariablesHaveValues(before);
    case Merge(l, r) => BuiltVariablesHaveValues(l); BuiltVariablesHaveValues(r);
  }
}
