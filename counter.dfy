/** The three analyses of counter.py over the trees of one project path:
    `get_all_words_in_path`, `get_top_verbs_in_path` and
    `get_top_functions_names_in_path`. Finding and parsing the files is
    outside the model; each file arrives as its parse result. */
module Counter {
  import opened Lists
  import opened Naming
  import opened Ast
  import opened Ranking

  datatype Option<T> = None | Some(value: T)

  /** `[t for t in get_trees(path) if t]`: the trees of the files that
      parsed, in file order. A file whose parse raised `SyntaxError` is
      `None`; a parsed module is always truthy. */
  function ParsedTrees(trees: seq<Option<Node>>): (r: seq<Node>)
    ensures |r| <= |trees|
    ensures forall t :: t in r <==> Some(t) in trees
  {
    if trees == [] then []
    else
      assert trees == [trees[0]] + trees[1..];
      (if trees[0].Some? then [trees[0].value] else []) + ParsedTrees(trees[1..])
  }

  lemma {:induction false} ParsedTreesAppend(a: seq<Option<Node>>, b: seq<Option<Node>>)
    ensures ParsedTrees(a + b) == ParsedTrees(a) + ParsedTrees(b)
  {
    if a == [] {
      assert a + b == b;
    } else {
      assert (a + b)[1..] == a[1..] + b;
      ParsedTreesAppend(a[1..], b);
    }
  }

  /** The trees of `get_trees(path)` when every file parsed. */
  function AllParsed(trees: seq<Option<Node>>): (r: seq<Node>)
    requires forall i :: 0 <= i < |trees| ==> trees[i].Some?
    ensures |r| == |trees| && forall i :: 0 <= i < |r| ==> trees[i] == Some(r[i])
  {
    seq(|trees|, i requires 0 <= i < |trees| && trees[i].Some? => trees[i].value)
  }

  /** `[func for func in flat([get_all_names(t) for t in trees]) if magic_name(func)]`:
      exactly the non-dunder identifiers of the trees. */
  function OrdinaryNames(trees: seq<Node>): (r: seq<string>)
    ensures forall n :: n in r <==> MagicName(n) && exists t :: t in trees && n in GetAllNames(t)
    ensures forall n :: multiset(r)[n] == if MagicName(n) then CountIn(GetAllNames, trees, n) else 0
  {
    var names := Flat(MapSeq(GetAllNames, trees));
    FlatMapMembers(GetAllNames, trees);
    FilterFlatMapCounts(MagicName, GetAllNames, trees);
    FilterMembers(MagicName, names);
    Filter(MagicName, names)
  }

  /** `[f for f in flat([separate_to_node(t) for t in trees]) if magic_name(f)]`:
      exactly the non-dunder function names of the trees. */
  function OrdinaryFunctionNames(trees: seq<Node>): (r: seq<string>)
    ensures forall f :: f in r <==> MagicName(f) && exists t :: t in trees && f in SeparateToNode(t)
    ensures forall f :: multiset(r)[f] == if MagicName(f) then CountIn(SeparateToNode, trees, f) else 0
  {
    var names := Flat(MapSeq(SeparateToNode, trees));
    FlatMapMembers(SeparateToNode, trees);
    FilterFlatMapCounts(MagicName, SeparateToNode, trees);
    FilterMembers(MagicName, names);
    Filter(MagicName, names)
  }

  /** `get_all_words_in_path(path)`: the snake-case words of every
      non-dunder identifier of every parsed tree, in order; so never an
      empty word or one holding `'_'`. */
  function GetAllWordsInPath(trees: seq<Option<Node>>): (r: seq<string>)
    ensures forall w :: w in r <==>
              exists n :: n in OrdinaryNames(ParsedTrees(trees)) && w in SplitSnakeCaseNameToWords(n)
    ensures forall w :: w in r ==> w != "" && Underscore !in w
    ensures forall w :: multiset(r)[w] == CountIn(SplitSnakeCaseNameToWords, OrdinaryNames(ParsedTrees(trees)), w)
  {
    FlatMap(SplitSnakeCaseNameToWords, OrdinaryNames(ParsedTrees(trees)))
  }

  /** `get_verbs_from_function_name` with the tagger fixed. */
  function VerbsOf(tagger: Tagger): string -> seq<string>
  {
    name => GetVerbsFromFunctionName(tagger, name)
  }

  /** The `verbs` list of `get_top_verbs_in_path`: the verbs of every
      non-dunder function name of every parsed tree, in order. */
  function Verbs(tagger: Tagger, trees: seq<Option<Node>>): (r: seq<string>)
    ensures forall w :: w in r <==>
              exists f :: f in OrdinaryFunctionNames(ParsedTrees(trees)) && w in GetVerbsFromFunctionName(tagger, f)
    ensures forall w :: multiset(r)[w] == CountIn(VerbsOf(tagger), OrdinaryFunctionNames(ParsedTrees(trees)), w)
  {
    FlatMap(VerbsOf(tagger), OrdinaryFunctionNames(ParsedTrees(trees)))
  }

  /** `get_top_verbs_in_path(path, top_size)`: `most_common(top_size)` of
      the verbs. */
  function GetTopVerbsInPath(tagger: Tagger, trees: seq<Option<Node>>, topSize: int): (r: seq<Entry<string>>)
    ensures IsMostCommon(Verbs(tagger, trees), topSize, r)
  {
    MostCommon(Verbs(tagger, trees), topSize)
  }

  /** `get_top_functions_names_in_path(path, top_size)`: `most_common(top_size)`
      of the non-dunder function names. Unlike the other two analyses it
      does not skip files that failed to parse: walking `None` raises, so
      every file must have parsed. */
  function GetTopFunctionsNamesInPath(trees: seq<Option<Node>>, topSize: int): (r: seq<Entry<string>>)
    requires forall i :: 0 <= i < |trees| ==> trees[i].Some?
    ensures IsMostCommon(OrdinaryFunctionNames(AllParsed(trees)), topSize, r)
  {
    MostCommon(OrdinaryFunctionNames(AllParsed(trees)), topSize)
  }

  /** When every file parsed, the unfiltered trees of
      `get_top_functions_names_in_path` are those the other two analyses
      keep. */
  lemma {:induction false} AllParsedIsParsedTrees(trees: seq<Option<Node>>)
    requires forall i :: 0 <= i < |trees| ==> trees[i].Some?
    ensures AllParsed(trees) == ParsedTrees(trees)
  {
    if trees != [] {
      AllParsedIsParsedTrees(trees[1..]);
      assert AllParsed(trees) == [trees[0].value] + AllParsed(trees[1..]);
    }
  }

  // ----- How the pipelines split over a concatenation of trees -----

  lemma OrdinaryNamesAppend(a: seq<Node>, b: seq<Node>)
    ensures OrdinaryNames(a + b) == OrdinaryNames(a) + OrdinaryNames(b)
  {
    MapAppend(GetAllNames, a, b);
    FlatAppend(MapSeq(GetAllNames, a), MapSeq(GetAllNames, b));
    FilterAppend(MagicName, Flat(MapSeq(GetAllNames, a)), Flat(MapSeq(GetAllNames, b)));
  }

  lemma OrdinaryFunctionNamesAppend(a: seq<Node>, b: seq<Node>)
    ensures OrdinaryFunctionNames(a + b) == OrdinaryFunctionNames(a) + OrdinaryFunctionNames(b)
  {
    MapAppend(SeparateToNode, a, b);
    FlatAppend(MapSeq(SeparateToNode, a), MapSeq(SeparateToNode, b));
    FilterAppend(MagicName, Flat(MapSeq(SeparateToNode, a)), Flat(MapSeq(SeparateToNode, b)));
  }

  /** The verbs of a concatenation of corpora are the verbs of the first
      followed by the verbs of the second. */
  lemma VerbsAppend(tagger: Tagger, a: seq<Option<Node>>, b: seq<Option<Node>>)
    ensures Verbs(tagger, a + b) == Verbs(tagger, a) + Verbs(tagger, b)
  {
    ParsedTreesAppend(a, b);
    var na, nb := OrdinaryFunctionNames(ParsedTrees(a)), OrdinaryFunctionNames(ParsedTrees(b));
    OrdinaryFunctionNamesAppend(ParsedTrees(a), ParsedTrees(b));
    MapAppend(VerbsOf(tagger), na, nb);
    FlatAppend(MapSeq(VerbsOf(tagger), na), MapSeq(VerbsOf(tagger), nb));
  }

  lemma WordsAppend(a: seq<Option<Node>>, b: seq<Option<Node>>)
    ensures GetAllWordsInPath(a + b) == GetAllWordsInPath(a) + GetAllWordsInPath(b)
  {
    ParsedTreesAppend(a, b);
    var na, nb := OrdinaryNames(ParsedTrees(a)), OrdinaryNames(ParsedTrees(b));
    OrdinaryNamesAppend(ParsedTrees(a), ParsedTrees(b));
    MapAppend(SplitSnakeCaseNameToWords, na, nb);
    FlatAppend(MapSeq(SplitSnakeCaseNameToWords, na), MapSeq(SplitSnakeCaseNameToWords, nb));
  }

  // ----- Properties of the three analyses -----

  /** Verb counts are additive over a partition of the corpus: counting the
      verbs of `a + b` gives, for every word, the sum of its counts in `a`
      and in `b`. */
  lemma VerbCountsAdditive(tagger: Tagger, a: seq<Option<Node>>, b: seq<Option<Node>>, w: string)
    ensures Get(Tally(Verbs(tagger, a + b)), w)
         == Get(Tally(Verbs(tagger, a)), w) + Get(Tally(Verbs(tagger, b)), w)
  {
    VerbsAppend(tagger, a, b);
    TallyAdditive(Verbs(tagger, a), Verbs(tagger, b), w);
  }

  /** A file that failed to parse contributes nothing: inserting a `None`
      anywhere changes neither the words nor the top verbs. */
  lemma ParseFailureIgnored(tagger: Tagger, a: seq<Option<Node>>, b: seq<Option<Node>>, topSize: int)
    ensures GetAllWordsInPath(a + [None] + b) == GetAllWordsInPath(a + b)
    ensures GetTopVerbsInPath(tagger, a + [None] + b, topSize) == GetTopVerbsInPath(tagger, a + b, topSize)
  {
    ParsedTreesAppend(a + [None], b);
    ParsedTreesAppend(a, [None]);
    ParsedTreesAppend(a, b);
    assert ParsedTrees([None]) == [];
    assert ParsedTrees(a) + [] == ParsedTrees(a);
  }

  /** A tree whose function names are all dunder names contributes no
      non-dunder function name. */
  lemma MagicFunctionNamesDropped(x: Node, a: seq<Option<Node>>, b: seq<Option<Node>>)
    requires forall s :: s in SeparateToNode(x) ==> !MagicName(s)
    ensures OrdinaryFunctionNames(ParsedTrees(a + [Some(x)] + b)) == OrdinaryFunctionNames(ParsedTrees(a + b))
  {
    NoOrdinaryFunctionNames(x);
    ParsedTreesAppend(a + [Some(x)], b);
    ParsedTreesAppend(a, [Some(x)]);
    ParsedTreesAppend(a, b);
    assert ParsedTrees([Some(x)]) == [x];
    var pa, pb := ParsedTrees(a), ParsedTrees(b);
    OrdinaryFunctionNamesAppend(pa + [x], pb);
    OrdinaryFunctionNamesAppend(pa, [x]);
    OrdinaryFunctionNamesAppend(pa, pb);
    assert OrdinaryFunctionNames(pa) + [] == OrdinaryFunctionNames(pa);
  }

  /** A tree whose function names are all dunder names changes nothing in
      the top verbs. */
  lemma MagicFunctionsIgnored(tagger: Tagger, x: Node, a: seq<Option<Node>>, b: seq<Option<Node>>, topSize: int)
    requires forall s :: s in SeparateToNode(x) ==> !MagicName(s)
    ensures GetTopVerbsInPath(tagger, a + [Some(x)] + b, topSize) == GetTopVerbsInPath(tagger, a + b, topSize)
  {
    MagicFunctionNamesDropped(x, a, b);
  }

  /** A tree whose function names are all dunder names changes nothing in
      the ranking of function names. */
  lemma MagicFunctionsIgnoredInRanking(x: Node, a: seq<Option<Node>>, b: seq<Option<Node>>, topSize: int)
    requires forall s :: s in SeparateToNode(x) ==> !MagicName(s)
    requires forall i :: 0 <= i < |a| ==> a[i].Some?
    requires forall i :: 0 <= i < |b| ==> b[i].Some?
    ensures var withX, withoutX := a + [Some(x)] + b, a + b;
      && (forall i :: 0 <= i < |withX| ==> withX[i].Some?)
      && (forall i :: 0 <= i < |withoutX| ==> withoutX[i].Some?)
      && GetTopFunctionsNamesInPath(withX, topSize) == GetTopFunctionsNamesInPath(withoutX, topSize)
  {
    var withX, withoutX := a + [Some(x)] + b, a + b;
    assert forall i :: 0 <= i < |withX| ==> withX[i].Some? by {
      forall i | 0 <= i < |withX| ensures withX[i].Some? {
        if i < |a| {
          assert withX[i] == a[i];
        } else if i > |a| {
          assert withX[i] == b[i - |a| - 1];
        }
      }
    }
    AllParsedIsParsedTrees(withX);
    AllParsedIsParsedTrees(withoutX);
    MagicFunctionNamesDropped(x, a, b);
  }

  lemma NoOrdinaryFunctionNames(x: Node)
    requires forall s :: s in SeparateToNode(x) ==> !MagicName(s)
    ensures OrdinaryFunctionNames([x]) == []
  {
    assert MapSeq(SeparateToNode, [x]) == [SeparateToNode(x)];
    FlatSingle(SeparateToNode(x));
    FilterNone(MagicName, SeparateToNode(x));
  }

  /** A tree whose identifiers are all dunder names contributes no word. */
  lemma MagicNamesIgnored(x: Node, a: seq<Option<Node>>, b: seq<Option<Node>>)
    requires forall s :: s in GetAllNames(x) ==> !MagicName(s)
    ensures GetAllWordsInPath(a + [Some(x)] + b) == GetAllWordsInPath(a + b)
  {
    NoWords(x);
    WordsAppend(a + [Some(x)], b);
    WordsAppend(a, [Some(x)]);
    WordsAppend(a, b);
    assert GetAllWordsInPath(a) + [] == GetAllWordsInPath(a);
  }

  lemma NoWords(x: Node)
    requires forall s :: s in GetAllNames(x) ==> !MagicName(s)
    ensures GetAllWordsInPath([Some(x)]) == []
  {
    assert ParsedTrees([Some(x)]) == [x];
    assert MapSeq(GetAllNames, [x]) == [GetAllNames(x)];
    FlatSingle(GetAllNames(x));
    FilterNone(MagicName, GetAllNames(x));
    assert OrdinaryNames([x]) == [];
    assert MapSeq(SplitSnakeCaseNameToWords, []) == [];
  }

  /** A corpus with no parsed tree, or whose parsed trees hold only dunder
      function names, has no verbs and an empty ranking. */
  lemma NoVerbsNoRanking(tagger: Tagger, trees: seq<Option<Node>>, topSize: int)
    requires forall i :: 0 <= i < |trees| ==>
               trees[i].None? || forall s :: s in SeparateToNode(trees[i].value) ==> !MagicName(s)
    ensures Verbs(tagger, trees) == []
    ensures GetTopVerbsInPath(tagger, trees, topSize) == []
  {
    NoVerbs(tagger, trees);
    var r := GetTopVerbsInPath(tagger, trees, topSize);
  }

  lemma NoVerbs(tagger: Tagger, trees: seq<Option<Node>>)
    requires forall i :: 0 <= i < |trees| ==>
               trees[i].None? || forall s :: s in SeparateToNode(trees[i].value) ==> !MagicName(s)
    ensures Verbs(tagger, trees) == []
  {
    var parsed := ParsedTrees(trees);
    forall t | t in parsed
      ensures forall s :: s in SeparateToNode(t) ==> !MagicName(s)
    {
      var i :| 0 <= i < |trees| && trees[i] == Some(t);
    }
    var names := OrdinaryFunctionNames(parsed);
    forall f ensures multiset(names)[f] == 0 {
      if MagicName(f) {
        NoOrdinaryCount(parsed, f);
      }
    }
    assert multiset(names) == multiset{};
    assert MapSeq(VerbsOf(tagger), names) == [];
  }

  lemma {:induction false} NoOrdinaryCount(parsed: seq<Node>, f: string)
    requires forall t :: t in parsed ==> forall s :: s in SeparateToNode(t) ==> !MagicName(s)
    requires MagicName(f)
    ensures CountIn(SeparateToNode, parsed, f) == 0
  {
    if parsed != [] {
      assert f !in multiset(SeparateToNode(parsed[0]));
      NoOrdinaryCount(parsed[1..], f);
    }
  }

  // ----- How often each name, word and verb is counted -----

  /** Within one tree, every occurrence of a non-dunder identifier is kept
      and no occurrence of a dunder identifier. */
  lemma OrdinaryNamesOfTree(t: Node, n: string)
    ensures multiset(OrdinaryNames([t]))[n] == if MagicName(n) then multiset(CollectTree(NameId, t))[n] else 0
  {
    assert [t][1..] == [];
    assert CountIn(GetAllNames, [t], n) == multiset(GetAllNames(t))[n];
  }

  /** Within one tree, every occurrence of a non-dunder function name is
      kept and no occurrence of a dunder one. */
  lemma OrdinaryFunctionNamesOfTree(t: Node, f: string)
    ensures multiset(OrdinaryFunctionNames([t]))[f] == if MagicName(f) then multiset(CollectTree(LoweredFunctionName, t))[f] else 0
  {
    assert [t][1..] == [];
    assert CountIn(SeparateToNode, [t], f) == multiset(SeparateToNode(t))[f];
  }

  /** `name.split('_')` as the function of a comprehension. */
  function UnderscorePieces(name: string): seq<string>
  {
    Split(name, Underscore)
  }

  /** A verb occurs in the `verbs` list of `get_top_verbs_in_path` as often
      as it occurs among the `split('_')` pieces of the non-dunder function
      names of the parsed trees; a word that is not a verb never occurs. */
  lemma VerbCounts(tagger: Tagger, trees: seq<Option<Node>>, w: string)
    ensures multiset(Verbs(tagger, trees))[w]
         == if IsVerb(tagger, w) then CountIn(UnderscorePieces, OrdinaryFunctionNames(ParsedTrees(trees)), w) else 0
  {
    VerbCountsOfNames(tagger, OrdinaryFunctionNames(ParsedTrees(trees)), w);
  }

  lemma {:induction false} VerbCountsOfNames(tagger: Tagger, names: seq<string>, w: string)
    ensures CountIn(VerbsOf(tagger), names, w)
         == if IsVerb(tagger, w) then CountIn(UnderscorePieces, names, w) else 0
  {
    if names != [] {
      VerbsCount(tagger, names[0], w);
      VerbCountsOfNames(tagger, names[1..], w);
    }
  }

  /** A non-empty word occurs in `get_all_words_in_path` as often as it
      occurs among the `split('_')` pieces of the non-dunder identifiers of
      the parsed trees; the empty word never occurs. */
  lemma WordCounts(trees: seq<Option<Node>>, w: string)
    ensures multiset(GetAllWordsInPath(trees))[w]
         == if w != "" then CountIn(UnderscorePieces, OrdinaryNames(ParsedTrees(trees)), w) else 0
  {
    WordCountsOfNames(OrdinaryNames(ParsedTrees(trees)), w);
  }

  lemma {:induction false} WordCountsOfNames(names: seq<string>, w: string)
    ensures CountIn(SplitSnakeCaseNameToWords, names, w)
         == if w != "" then CountIn(UnderscorePieces, names, w) else 0
  {
    if names != [] {
      FilterCount(NonEmpty, Split(names[0], Underscore), w);
      WordCountsOfNames(names[1..], w);
    }
  }

  /** A word is in `get_all_words_in_path` exactly when it is a snake-case
      word of a non-dunder identifier of a file that parsed. */
  lemma WordsOfPath(trees: seq<Option<Node>>, w: string)
    ensures w in GetAllWordsInPath(trees) <==>
      exists t, n :: Some(t) in trees && n in GetAllNames(t) && MagicName(n) && w in SplitSnakeCaseNameToWords(n)
  {
    var names := OrdinaryNames(ParsedTrees(trees));
    if w in GetAllWordsInPath(trees) {
      var n :| n in names && w in SplitSnakeCaseNameToWords(n);
      var t :| t in ParsedTrees(trees) && n in GetAllNames(t);
      assert Some(t) in trees;
    }
    if exists t, n :: Some(t) in trees && n in GetAllNames(t) && MagicName(n) && w in SplitSnakeCaseNameToWords(n) {
      var t, n :| Some(t) in trees && n in GetAllNames(t) && MagicName(n) && w in SplitSnakeCaseNameToWords(n);
      assert t in ParsedTrees(trees);
      assert n in names;
    }
  }

  /** A word is among the verbs of `get_top_verbs_in_path` exactly when it
      is a verb of a non-dunder function name of a file that parsed. */
  lemma VerbsOfPath(tagger: Tagger, trees: seq<Option<Node>>, w: string)
    ensures w in Verbs(tagger, trees) <==>
      exists t, f :: Some(t) in trees && f in SeparateToNode(t) && MagicName(f) && w in GetVerbsFromFunctionName(tagger, f)
  {
    var names := OrdinaryFunctionNames(ParsedTrees(trees));
    if w in Verbs(tagger, trees) {
      var f :| f in names && w in GetVerbsFromFunctionName(tagger, f);
      var t :| t in ParsedTrees(trees) && f in SeparateToNode(t);
      assert Some(t) in trees;
    }
    if exists t, f :: Some(t) in trees && f in SeparateToNode(t) && MagicName(f) && w in GetVerbsFromFunctionName(tagger, f) {
      var t, f :| Some(t) in trees && f in SeparateToNode(t) && MagicName(f) && w in GetVerbsFromFunctionName(tagger, f);
      assert t in ParsedTrees(trees);
      assert f in names;
    }
  }

  /** Every pair of `get_top_verbs_in_path` is a verb of a non-dunder
      function name, with its exact number of occurrences. */
  lemma TopVerbsAreVerbs(tagger: Tagger, trees: seq<Option<Node>>, topSize: int)
    ensures var r := GetTopVerbsInPath(tagger, trees, topSize);
      forall i :: 0 <= i < |r| ==>
        && IsVerb(tagger, r[i].0) && r[i].0 != "" && Underscore !in r[i].0
        && r[i].1 == multiset(Verbs(tagger, trees))[r[i].0] && r[i].1 >= 1
  {
    var r := GetTopVerbsInPath(tagger, trees, topSize);
    forall i | 0 <= i < |r| ensures IsVerb(tagger, r[i].0) && Underscore !in r[i].0 {
      assert r[i].0 in Verbs(tagger, trees);
    }
  }

  /** No dunder name is ever ranked by `get_top_functions_names_in_path`;
      every ranked name is the lower-cased name of a function definition of
      one of the files, so it holds no ASCII capital. */
  lemma TopFunctionNamesOrdinary(trees: seq<Option<Node>>, topSize: int)
    requires forall i :: 0 <= i < |trees| ==> trees[i].Some?
    ensures var r := GetTopFunctionsNamesInPath(trees, topSize);
      forall i :: 0 <= i < |r| ==>
        && MagicName(r[i].0)
        && (exists k :: 0 <= k < |trees| && r[i].0 in SeparateToNode(trees[k].value))
        && forall j :: 0 <= j < |r[i].0| ==> !('A' <= r[i].0[j] <= 'Z')
  {
    var parsed := AllParsed(trees);
    var r := GetTopFunctionsNamesInPath(trees, topSize);
    forall i | 0 <= i < |r|
      ensures MagicName(r[i].0)
      ensures exists k :: 0 <= k < |trees| && r[i].0 in SeparateToNode(trees[k].value)
      ensures forall j :: 0 <= j < |r[i].0| ==> !('A' <= r[i].0[j] <= 'Z')
    {
      assert r[i].0 in OrdinaryFunctionNames(parsed);
      var t :| t in parsed && r[i].0 in SeparateToNode(t);
      var k :| 0 <= k < |parsed| && parsed[k] == t;
      assert trees[k].value == t;
      SeparateToNodeLowered(t, r[i].0);
    }
  }
}
