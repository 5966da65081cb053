/** The expectation catalog `notebooks` of runtest.py, and Python's
    `sorted`, which orders its keys when no notebook is named. */
module Catalog {
  import opened Text

  const ElaborationFailed := "chisel3.internal.ChiselException: Exception thrown when elaborating ChiselGeneratorAnnotation"
  const CompilationFailed := "Compilation Failed"
  const NotImplemented := "scala.NotImplementedError"

  /** The dict literal, entry by entry in source order: a notebook and the
      signatures of the errors its cells are expected to raise, in order. */
  const Entries: seq<(string, seq<string>)> := [
    ("1_intro_to_scala.ipynb", []),
    ("2.1_first_module.ipynb", [ElaborationFailed]),
    ("2.2_comb_logic.ipynb", [CompilationFailed, ElaborationFailed, ElaborationFailed, ElaborationFailed]),
    ("2.3_control_flow.ipynb", [NotImplemented, NotImplemented, CompilationFailed, NotImplemented, CompilationFailed]),
    ("2.4_sequential_logic.ipynb", [ElaborationFailed, ElaborationFailed]),
    ("2.5_exercise.ipynb", [ElaborationFailed, ElaborationFailed, ElaborationFailed, CompilationFailed]),
    ("2.6_chiseltest.ipynb", []),
    ("3.1_parameters.ipynb", ["java.util.NoSuchElementException"]),
    ("3.2_collections.ipynb", [ElaborationFailed]),
    ("3.2_interlude.ipynb", []),
    ("3.3_higher-order_functions.ipynb",
      [NotImplemented, "java.lang.UnsupportedOperationException", NotImplemented, NotImplemented, ElaborationFailed]),
    ("3.4_functional_programming.ipynb", [NotImplemented, CompilationFailed, NotImplemented, CompilationFailed]),
    ("3.5_object_oriented_programming.ipynb", [CompilationFailed]),
    ("3.6_types.ipynb",
      ["chisel3.internal.ChiselException: Connection between sink", "Failed to elaborate Chisel circuit",
       "expected \")\"", "scala.MatchError: ChiselExecutionFailure",
       CompilationFailed, CompilationFailed, CompilationFailed, CompilationFailed, CompilationFailed]),
    ("4.1_firrtl_ast.ipynb", []),
    ("4.2_firrtl_ast_traversal.ipynb", []),
    ("4.3_firrtl_common_idioms.ipynb", []),
    ("4.4_firrtl_add_ops_per_module.ipynb", ["FirrtlInternalException"])
  ]

  /** Evaluating a dict literal: each entry is inserted in turn, a later
      entry replacing an earlier one with the same key. */
  function ToMap(entries: seq<(string, seq<string>)>): (m: map<string, seq<string>>)
    ensures m.Keys == set i | 0 <= i < |entries| :: entries[i].0
  {
    if entries == [] then map[]
    else ToMap(entries[..|entries| - 1])[entries[|entries| - 1].0 := entries[|entries| - 1].1]
  }

  /** The keys of the entries, in source order. This is the order in which
      iterating the dict yields them only when no key repeats, since a
      repeated key would be yielded once, at its first position; the
      catalog's names are distinct (`NamesDistinct`). */
  function KeysOf(entries: seq<(string, seq<string>)>): (ks: seq<string>)
    ensures |ks| == |entries| && forall i | 0 <= i < |entries| :: ks[i] == entries[i].0
  {
    if entries == [] then [] else KeysOf(entries[..|entries| - 1]) + [entries[|entries| - 1].0]
  }

  /** `notebooks` */
  function Notebooks(): map<string, seq<string>>
  {
    ToMap(Entries)
  }

  /** The order in which iterating `notebooks` yields its keys. */
  function Names(): seq<string>
  {
    KeysOf(Entries)
  }

  predicate Distinct(s: seq<string>)
  {
    forall i, j | 0 <= i < j < |s| :: s[i] != s[j]
  }

  /** With distinct keys, every entry's value is what the dict holds for its key. */
  lemma {:induction false} ToMapLookup(entries: seq<(string, seq<string>)>, i: nat)
    requires Distinct(KeysOf(entries)) && i < |entries|
    ensures entries[i].0 in ToMap(entries) && ToMap(entries)[entries[i].0] == entries[i].1
  {
    var n := |entries| - 1;
    if i < n {
      var init := entries[..n];
      assert KeysOf(entries)[i] == entries[i].0 && KeysOf(entries)[n] == entries[n].0;
      assert Distinct(KeysOf(init)) by {
        forall a, b | 0 <= a < b < |init| ensures KeysOf(init)[a] != KeysOf(init)[b] {
          assert KeysOf(init)[a] == KeysOf(entries)[a] && KeysOf(init)[b] == KeysOf(entries)[b];
        }
      }
      ToMapLookup(init, i);
      assert init[i] == entries[i];
    }
  }

  // ---------------------------------------------------------------------
  // sorted()

  /** No element is smaller than the one before it. */
  predicate Ascending(s: seq<string>)
  {
    forall i | 0 <= i < |s| - 1 :: !Less(s[i + 1], s[i])
  }

  predicate StrictlyAscending(s: seq<string>)
  {
    forall i, j | 0 <= i < j < |s| :: Less(s[i], s[j])
  }

  function Insert(x: string, s: seq<string>): (r: seq<string>)
    requires Ascending(s)
    ensures Ascending(r)
    ensures multiset(r) == multiset(s) + multiset{x}
    ensures r != [] && (r[0] == x || (s != [] && r[0] == s[0]))
  {
    if s == [] then [x]
    else if !Less(s[0], x) then [x] + s
    else
      var rest := Insert(x, s[1..]);
      assert s == [s[0]] + s[1..];
      LessAsymmetric(s[0], x);
      assert |s| > 1 ==> !Less(s[1], s[0]);
      [s[0]] + rest
  }

  /** `sorted(s)`: an ascending permutation of `s`. */
  function Sort(s: seq<string>): (r: seq<string>)
    ensures Ascending(r)
    ensures multiset(r) == multiset(s)
  {
    if s == [] then []
    else
      assert s == [s[0]] + s[1..];
      Insert(s[0], Sort(s[1..]))
  }

  /** Each element of an ascending list without repetitions is smaller than
      every later one. */
  lemma AscendingDistinctStrict(s: seq<string>)
    requires Ascending(s) && Distinct(s)
    ensures StrictlyAscending(s)
  {
    forall i, j | 0 <= i < j < |s| ensures Less(s[i], s[j]) {
      StrictStep(s, i, j);
    }
  }

  lemma {:induction false} StrictStep(s: seq<string>, i: nat, j: nat)
    requires Ascending(s) && Distinct(s) && i < j < |s|
    ensures Less(s[i], s[j])
    decreases j - i
  {
    LessTotal(s[j - 1], s[j]);
    if i < j - 1 {
      StrictStep(s, i, j - 1);
      LessTransitive(s[i], s[j - 1], s[j]);
    }
  }

  /** A list has no repetitions exactly when its multiset holds each of its
      elements once. */
  lemma {:induction false} DistinctIffSingles(s: seq<string>)
    ensures Distinct(s) <==> forall x | x in multiset(s) :: multiset(s)[x] == 1
  {
    if s != [] {
      var t := s[1..];
      assert s == [s[0]] + t;
      DistinctIffSingles(t);
      if Distinct(s) {
        assert Distinct(t) by {
          forall a, b | 0 <= a < b < |t| ensures t[a] != t[b] {
            assert t[a] == s[a + 1] && t[b] == s[b + 1];
          }
        }
        forall b | 0 <= b < |t| ensures t[b] != s[0] {
          assert t[b] == s[b + 1];
        }
      }
      if forall x | x in multiset(s) :: multiset(s)[x] == 1 {
        assert s[0] !in multiset(t) by {
          assert multiset(s)[s[0]] == multiset(t)[s[0]] + 1;
        }
        forall x | x in multiset(t) ensures multiset(t)[x] == 1 {
          assert multiset(s)[x] == multiset(t)[x] + (if x == s[0] then 1 else 0);
        }
        forall a, b | 0 <= a < b < |s| ensures s[a] != s[b] {
          if a > 0 {
            assert s[a] == t[a - 1] && s[b] == t[b - 1];
          } else {
            assert s[b] == t[b - 1];
          }
        }
      }
    }
  }

  /** The catalog names each notebook once. */
  lemma NamesDistinct()
    ensures Distinct(Names())
  {
    assert forall i, j | 0 <= i < j < |Entries| :: Entries[i].0 != Entries[j].0;
  }

  /** A list without repetitions has as many distinct elements as entries. */
  lemma {:induction false} DistinctCardinality(s: seq<string>)
    requires Distinct(s)
    ensures |set x | x in s| == |s|
  {
    if s != [] {
      var t := s[..|s| - 1];
      assert Distinct(t) by {
        forall a, b | 0 <= a < b < |t| ensures t[a] != t[b] {
          assert t[a] == s[a] && t[b] == s[b];
        }
      }
      DistinctCardinality(t);
      forall a | 0 <= a < |t| ensures t[a] != s[|s| - 1] {
        assert t[a] == s[a];
      }
      assert s == t + [s[|s| - 1]];
      assert (set x | x in s) == (set x | x in t) + {s[|s| - 1]};
    }
  }

  /** The catalog holds 18 notebooks, and iterating it yields each once. */
  lemma CatalogSize()
    ensures |Names()| == 18 && |Notebooks()| == 18 && Distinct(Names())
    ensures forall n :: n in Notebooks() <==> n in Names()
  {
    NamesDistinct();
    DistinctCardinality(Names());
    assert Notebooks().Keys == set x | x in Names() by {
      forall x ensures x in Notebooks().Keys <==> x in Names() {
        if x in Names() {
          var i :| 0 <= i < |Names()| && Names()[i] == x;
          assert Entries[i].0 == x;
        }
      }
    }
  }

  /** Looking a catalogued notebook up gives the expectations its entry lists. */
  lemma CatalogLookup(i: nat)
    requires i < |Entries|
    ensures Entries[i].0 in Notebooks() && Notebooks()[Entries[i].0] == Entries[i].1
  {
    NamesDistinct();
    ToMapLookup(Entries, i);
  }
}

/** What the catalog's contents mean for the check: no expected signature
    can be matched by the padding sentinel, so a notebook that raises fewer
    errors than its entry lists always fails. */
module CatalogProperties {
  import opened Text
  import opened Notebook
  import opened Check
  import opened CheckProperties
  import opened Catalog

  /** Every expected signature is longer than the sentinel, except one that
      holds a double quote. */
  lemma ExpectationShape(i: nat, e: string)
    requires i < |Entries| && e in Entries[i].1
    ensures |e| > |Sentinel| || (|e| > 9 && e[9] == '"')
  {
  }

  /** No expected signature occurs in the sentinel. */
  lemma ExpectationsAvoidSentinel(n: string)
    requires n in Notebooks()
    ensures forall e | e in Notebooks()[n] :: !Occurs(e, Sentinel)
  {
    var i :| 0 <= i < |Entries| && Entries[i].0 == n;
    CatalogLookup(i);
    forall e | e in Entries[i].1
      ensures !Occurs(e, Sentinel)
    {
      ExpectationShape(i, e);
      if |e| > |Sentinel| {
        LongerNeverOccurs(e, Sentinel);
      } else {
        assert '"' !in Sentinel;
        MissingCharNeverOccurs(e, Sentinel, 9);
      }
    }
  }

  /** For a catalogued notebook, fewer error outputs than expected fail the
      check whatever they say. */
  lemma CatalogShortfallFails(n: string, sigs: seq<string>)
    requires n in Notebooks() && |sigs| < |Notebooks()[n]|
    ensures !Matches(Notebooks()[n], sigs)
  {
    ExpectationsAvoidSentinel(n);
    if Matches(Notebooks()[n], sigs) {
      ShortfallNeedsSentinel(Notebooks()[n], sigs);
    }
  }

  /** The last notebook of the catalog expects one error whose first
      traceback entry carries "FirrtlInternalException" within its first 100
      characters. */
  lemma FirrtlNotebookCheck(o: Output)
    requires o.traceback != []
    ensures "4.4_firrtl_add_ops_per_module.ipynb" in Notebooks()
    ensures var expected := Notebooks()["4.4_firrtl_add_ops_per_module.ipynb"];
      CheckSpec(expected, [o]) == Returned(true) <==>
      exists k: nat :: k + 23 <= SignatureWidth && OccursAt("FirrtlInternalException", o.traceback[0], k)
  {
    CatalogLookup(17);
    FirstEntryWindow("FirrtlInternalException", o);
  }

  /** The introductory notebook expects no errors: it passes with none, and
      one error output fails it unless its signature contains the sentinel. */
  lemma IntroNotebookCheck(o: Output)
    requires o.traceback != []
    ensures "1_intro_to_scala.ipynb" in Notebooks()
    ensures var expected := Notebooks()["1_intro_to_scala.ipynb"];
      CheckSpec(expected, []) == Returned(true) &&
      (CheckSpec(expected, [o]) == Returned(true) <==> Occurs(Sentinel, Truncate(o.traceback[0], SignatureWidth)))
  {
    CatalogLookup(0);
    EmptyListsPass("1_intro_to_scala.ipynb");
    UnexpectedErrorFails(o);
  }

  /** "nonexistent.ipynb" is not catalogued. */
  lemma NonexistentNotCatalogued()
    ensures "nonexistent.ipynb" !in Notebooks()
  {
    assert forall i | 0 <= i < |Entries| :: Entries[i].0 != "nonexistent.ipynb";
  }
}
