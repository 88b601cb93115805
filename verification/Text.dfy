/** Outcome types shared by the other modules. */
module Prelude {

  datatype Option<+T> = None | Some(value: T)

  datatype Result<+T, +E> = Ok(value: T) | Err(error: E)
}

/** The string operations the repository takes from the Rust standard library, on sequences of characters. */
module Text {

  lemma Assoc(a: string, b: string, c: string)
    ensures (a + b) + c == a + (b + c)
  {
  }

  lemma Cut(s: string, n: nat)
    requires n <= |s|
    ensures s == s[..n] + s[n..]
  {
  }

  lemma DropDrop(s: string, m: nat, n: nat)
    requires m + n <= |s|
    ensures s[m..][n..] == s[m + n..]
  {
  }

  /** The step every loop over a sequence takes. */
  lemma TakeOneMore<T>(s: seq<T>, i: nat)
    requires i < |s|
    ensures s[..i + 1] == s[..i] + [s[i]]
  {
  }

  /** `sub` is `whole` with some elements left out, in the same order. */
  predicate InOrder<T(==)>(sub: seq<T>, whole: seq<T>)
    decreases |whole|
  {
    || sub == []
    || (whole != [] && InOrder(sub, whole[..|whole| - 1]))
    || (whole != [] && sub[|sub| - 1] == whole[|whole| - 1] && InOrder(sub[..|sub| - 1], whole[..|whole| - 1]))
  }

  /** The elements of `sub` stand at increasing positions of `whole`. */
  predicate Places<T(==)>(at: seq<nat>, sub: seq<T>, whole: seq<T>) {
    && |at| == |sub| && (forall i :: 0 <= i < |at| ==> at[i] < |whole| && whole[at[i]] == sub[i])
    && forall i, j :: 0 <= i < j < |at| ==> at[i] < at[j]
  }

  lemma {:induction false} InOrderPlaces<T>(sub: seq<T>, whole: seq<T>) returns (at: seq<nat>)
    requires InOrder(sub, whole)
    ensures Places(at, sub, whole)
    decreases |whole|
  {
    if sub == [] {
      at := [];
    } else {
      var n := |whole| - 1;
      var init := whole[..n];
      if InOrder(sub, init) {
        at := InOrderPlaces(sub, init);
      } else {
        at := InOrderPlaces(sub[..|sub| - 1], init);
        at := at + [n];
      }
    }
  }

  lemma {:induction false} PlacesInOrder<T>(at: seq<nat>, sub: seq<T>, whole: seq<T>)
    requires Places(at, sub, whole)
    ensures InOrder(sub, whole)
    decreases |whole|
  {
    if sub == [] {
    } else {
      var n, m := |whole| - 1, |sub| - 1;
      assert forall i :: 0 <= i < m ==> at[i] < at[m];
      if at[m] == n {
        PlacesInOrder(at[..m], sub[..m], whole[..n]);
      } else {
        PlacesInOrder(at, sub, whole[..n]);
      }
    }
  }

  lemma InOrderExactlyWhen<T>(sub: seq<T>, whole: seq<T>)
    ensures InOrder(sub, whole) <==> exists at :: Places(at, sub, whole)
  {
    if InOrder(sub, whole) {
      var at := InOrderPlaces(sub, whole);
    }
    if at :| Places(at, sub, whole) {
      PlacesInOrder(at, sub, whole);
    }
  }

  lemma InOrderSnoc<T>(sub: seq<T>, whole: seq<T>, x: T)
    requires InOrder(sub, whole)
    ensures InOrder(sub, whole + [x]) && InOrder(sub + [x], whole + [x])
  {
    assert (whole + [x])[..|whole|] == whole && (sub + [x])[..|sub|] == sub;
  }

  /** `str::replacen(pat, to, 1)` and, with `all`, `str::replace(pat, to)`: leftmost, non-overlapping. */
  function Replace(s: string, pat: string, to: string, all: bool): string
    requires pat != ""
    decreases |s|
  {
    if pat <= s then
      to + if all then Replace(s[|pat|..], pat, to, all) else s[|pat|..]
    else if s == "" then ""
    else [s[0]] + Replace(s[1..], pat, to, all)
  }

  /** `str::replace` with a set of characters and the empty replacement. */
  function Without(s: string, drop: set<char>): (r: string)
    ensures forall c :: c in r ==> c in s && c !in drop
  {
    if s == "" then ""
    else (if s[0] in drop then "" else [s[0]]) + Without(s[1..], drop)
  }

  lemma {:induction false} WithoutNothing(s: string, drop: set<char>)
    requires forall c :: c in drop ==> c !in s
    ensures Without(s, drop) == s
  {
    if s == "" {
    } else {
      assert forall c :: c in s[1..] ==> c in s;
      WithoutNothing(s[1..], drop);
    }
  }

  lemma {:induction false} WithoutConcat(a: string, b: string, drop: set<char>)
    ensures Without(a + b, drop) == Without(a, drop) + Without(b, drop)
  {
    if a == "" {
      assert a + b == b;
    } else {
      assert (a + b)[1..] == a[1..] + b;
      WithoutConcat(a[1..], b, drop);
    }
  }

  /** Exactly the characters of the set go, the others stay in order. */
  lemma {:induction false} WithoutErases(a: string, c: char, b: string, drop: set<char>)
    ensures Without("", drop) == ""
    ensures Without(a + [c] + b, drop) == Without(a, drop) + (if c in drop then "" else [c]) + Without(b, drop)
  {
    WithoutConcat(a + [c], b, drop);
    WithoutConcat(a, [c], drop);
    assert [c][1..] == "";
    assert Without([c], drop) == if c in drop then "" else [c];
  }

  /** `str::contains`: some position of `s` starts an occurrence of `pat`. */
  ghost predicate Contains(s: string, pat: string) {
    exists i :: 0 <= i <= |s| && pat <= s[i..]
  }

  /** Deleting one occurrence of a pattern that occurs makes the text shorter. */
  lemma {:induction false} DeletingShortens(s: string, pat: string)
    requires pat != "" && Contains(s, pat)
    ensures |Replace(s, pat, "", false)| < |s|
  {
    if !(pat <= s) {
      var i :| 0 <= i <= |s| && pat <= s[i..];
      assert s[0..] == s;
      assert s[i..] == s[1..][i - 1..];
      DeletingShortens(s[1..], pat);
    }
  }

  /** `[String]::join`, which `vars_to_string` agrees with on empty and one-element lists. */
  function Join(parts: seq<string>, sep: string): string {
    if parts == [] then ""
    else if |parts| == 1 then parts[0]
    else parts[0] + sep + Join(parts[1..], sep)
  }

  /** `str::split(c)`: always at least one part. */
  function Split(s: string, c: char): (parts: seq<string>)
    ensures |parts| >= 1 && (c in s ==> |parts| >= 2)
    ensures forall p :: p in parts ==> c !in p
  {
    if s == "" then [""]
    else
      var rest := Split(s[1..], c);
      if s[0] == c then [""] + rest
      else [[s[0]] + rest[0]] + rest[1..]
  }

  /** Text up to the first separator is the first part; the rest is split on its own. */
  lemma {:induction false} SplitAt(a: string, b: string, c: char)
    requires c !in a
    ensures Split(a + [c] + b, c) == [a] + Split(b, c)
  {
    var s := a + [c] + b;
    if a == "" {
      assert s[1..] == b;
    } else {
      assert s[1..] == a[1..] + [c] + b;
      assert forall x :: x in a[1..] ==> x in a;
      SplitAt(a[1..], b, c);
      assert [s[0]] + a[1..] == a;
    }
  }

  lemma {:induction false} SplitWhole(s: string, c: char)
    requires c !in s
    ensures Split(s, c) == [s]
  {
    if s == "" {
    } else {
      assert forall x :: x in s[1..] ==> x in s;
      SplitWhole(s[1..], c);
      assert [s[0]] + s[1..] == s;
    }
  }

  /** Splitting loses nothing: joining the parts with the separator gives the text back. */
  lemma {:induction false} JoinSplit(s: string, c: char)
    ensures Join(Split(s, c), [c]) == s
  {
    if s == "" {
    } else {
      JoinSplit(s[1..], c);
      var rest := Split(s[1..], c);
      var parts := Split(s, c);
      if s[0] == c {
        assert parts[1..] == rest;
      } else {
        assert parts[1..] == rest[1..];
      }
    }
  }
}
