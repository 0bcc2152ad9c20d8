# Verb-frequency analysis of function names, modelled in Dafny

The modelled program scans the Python files of a project and reports which
verbs authors use most when naming functions. It also lists the words in
all identifiers. This project models the name-analysis pipeline of
`counter.py`:

- walking a syntax tree (`ast.walk`);
- collecting function names (`separate_to_node`) and identifiers
  (`get_all_names`);
- dropping dunder names (`magic_name`);
- cutting names at underscores (`str.split('_')` and the snake-case
  splitter);
- keeping verbs (`is_verb`, `get_verbs_from_function_name`);
- counting and ranking (`collections.Counter(...).most_common(n)`);
- the three per-path analyses `get_all_words_in_path`,
  `get_top_verbs_in_path` and `get_top_functions_names_in_path`.

Files and modules:

- `lists.dfy` (`Lists`): `flat`, plus the filtering and mapping that the
  list comprehensions perform.
- `naming.dfy` (`Naming`): Python's one-character `str.split`, the
  snake-case splitter, ASCII `str.lower`, `magic_name`, `is_verb` and
  `get_verbs_from_function_name`.
- `ast.dfy` (`Ast`): a three-kind node datatype (`FunctionDef`, `Name`,
  `Other`) standing in for Python's `ast` nodes. `ast.walk` is modelled as
  its breadth-first queue loop. `get_all_names` and `separate_to_node` are
  comprehensions over the walk. A preorder traversal serves as the
  reference definition: the walk visits the same nodes, each once.
- `ranking.dfy` (`Ranking`): `Counter` as a left-to-right tally whose
  pairs stay in first-insertion order. `most_common(n)` is a stable sort on
  descending count, cut to `n` pairs, and gives nothing when `n <= 0`.
  This matches `heapq.nlargest`, which behaves as
  `sorted(..., reverse=True)[:n]`: ties keep their first-occurrence order.
- `counter.dfy` (`Counter`): the three per-path analyses over the parse
  results of a project's files. A file whose parse raised `SyntaxError`
  is `None`.

The part-of-speech tagger is a parameter, `Tagger = string -> string`. It
gives the tag of a word standing alone as a one-word sentence. A word is a
verb when it is non-empty and its tag is one of `VB`, `VBD`, `VBG`, `VBN`
or `VBP`.

Three points where the code does less, or other, than one might expect.
The model follows the code:

- Only function names are lower-cased (`separate_to_node`).
  `get_all_names` and the snake-case splitter keep identifiers as written,
  so `get_all_words_in_path` can report `Data` and `data` as two words.
- `get_all_words_in_path` and `get_top_verbs_in_path` skip files that
  failed to parse. `get_top_functions_names_in_path` does not: it walks
  `None`, which raises. The model therefore requires every file to have
  parsed for that one analysis.
- `get_verbs_from_function_name` splits without dropping empty fragments.
  They never get through because `is_verb('')` is false.
  `Naming.VerbsAreVerbWords` proves that the result is what dropping them
  first would give.

## Model

| member | source | states |
|---|---|---|
| `Lists.Flat` | counter.py:7-9 | the length of `flat(xss)` is the sum of the lengths of the inner lists |
| `Lists.FlatAppend` | counter.py:7-9 | `flat` of a concatenation is the concatenation of the two `flat`s |
| `Lists.FlatCons` | counter.py:7-9 | `flat([xs] + xss)` is `xs` followed by `flat(xss)`, so the inner lists appear in order |
| `Lists.FlatSingle` | counter.py:7-9 | `flat([xs])` is `xs` |
| `Lists.FlatMember` | counter.py:7-9 | an element is in `flat(xss)` exactly when it is in one of the inner lists |
| `Lists.FlatMapMembers` | counter.py:68 | `flat([f(x) for x in xs])` holds exactly what some `f(x)` holds |
| `Lists.FlatMap` | counter.py:71 | `flat([f(x) for x in xs])` holds exactly what some `f(x)` holds, and each element as often as in all the `f(x)` together |
| `Lists.FlatMapCount` | counter.py:7-9 | `flat` keeps every occurrence: an element occurs in `flat([f(x) for x in xs])` as often as in all the `f(x)` together |
| `Lists.FilterFlatMapCounts` | counter.py:68 | filtering a flattened comprehension keeps every occurrence of each passing element and none of the others |
| `Lists.Filter` | counter.py:67-68 | a comprehension with an `if` keeps only input elements that pass the test |
| `Lists.FilterMembers` | counter.py:67-68 | an element survives a comprehension with an `if` exactly when it is in the input and passes the test |
| `Lists.FilterCount` | counter.py:67-68 | a comprehension with an `if` keeps every occurrence of a passing element and no other element |
| `Lists.FilterAppend` | counter.py:67-68 | filtering a concatenation filters each part, in order |
| `Naming.Split` | counter.py:55 | `name.split('_')` gives at least one piece, and no piece contains `'_'` |
| `Naming.JoinSplit` | counter.py:55 | joining the pieces of `name.split('_')` with `'_'` gives back `name` |
| `Naming.SplitJoin` | counter.py:55 | splitting the join of underscore-free pieces gives back exactly those pieces |
| `Naming.SplitSnakeCaseNameToWords` | counter.py:69-70 | the splitter never returns an empty word or a word containing `'_'` |
| `Naming.SnakeWordsConcat` | counter.py:69-70 | the words of a name, glued together, are the name with every `'_'` removed |
| `Naming.SnakeWordsSingle` | counter.py:69-70 | a non-empty name without `'_'` gives `[name]` |
| `Naming.SnakeWordsOfJoin` | counter.py:69-70 | leading, trailing and doubled underscores never make a word: splitting a join of segments gives the non-empty segments in order |
| `Naming.SnakeWordsExample` | counter.py:69-70 | `"__get_data__"` gives `["get", "data"]` |
| `Naming.Lower` | counter.py:63 | `lower()` keeps the length, maps every ASCII capital to its small letter, and leaves every other character (`'_'` among them) in place, so no ASCII capital is left |
| `Naming.MagicName` | counter.py:58-59 | `magic_name(f)` is false exactly when `f` has at least two characters and its first two and last two characters are `'_'` |
| `Naming.MagicNameExamples` | counter.py:58-59 | `"__init__"`, `"__"` and `"___"` are rejected; `"_x_"`, `"get_"`, `""` and `"get_data"` are kept |
| `Naming.MagicNameLower` | counter.py:76 | lower-casing a function name never changes whether `magic_name` rejects it |
| `Naming.IsVerb` | counter.py:12-16 | the empty word is never a verb, and a verb's tag is one of the five verb tags |
| `Naming.GetVerbsFromFunctionName` | counter.py:54-55 | every returned word is a verb, non-empty and free of `'_'` |
| `Naming.VerbsCount` | counter.py:54-55 | a word occurs among the verbs as often as it occurs in `name.split('_')` if it is a verb, and never otherwise |
| `Naming.VerbsAreVerbWords` | counter.py:54-55 | the verbs of a name are the verbs among its snake-case words, in order, so the unfiltered split is harmless |
| `Naming.VerbsExample` | counter.py:54-55 | with a tagger that calls only `get` and `validate` verbs, `get_user_and_validate` gives `["get", "validate"]` |
| `Ast.Bfs` | counter.py:51 | the loop of `ast.walk` yields its queued nodes first, in queue order, and one node for every node of the queued trees |
| `Ast.Walk` | counter.py:51 | `ast.walk(t)` yields the root first, and as many nodes as the tree has |
| `Ast.BfsCollect` | counter.py:51 | a comprehension over the breadth-first walk collects the same items, each as often, as the preorder traversal |
| `Ast.WalkVisitsEveryNodeOnce` | counter.py:51 | the walk visits every node of the tree exactly once: as a multiset, the nodes of the preorder traversal |
| `Ast.GetAllNames` | counter.py:50-51 | `get_all_names` yields one identifier per `Name` node of the tree, unchanged: as a multiset, those of the preorder traversal |
| `Ast.GetAllNamesFrom` | counter.py:50-51 | every identifier it yields belongs to a `Name` node that the walk visits |
| `Ast.SeparateToNode` | counter.py:62-63 | `separate_to_node` yields one lower-cased name per `FunctionDef` node of the tree, nested ones included: as a multiset, those of the preorder traversal |
| `Ast.SeparateToNodeLowered` | counter.py:62-63 | every name it yields is the lower-cased name of a visited `FunctionDef` and holds no ASCII capital |
| `Ast.SeparateToNodeExample` | counter.py:62-63 | for a module with `Outer` (holding `x` and a nested `Inner`) and `second`, the walk is breadth-first: `["outer", "second", "inner"]` |
| `Ast.GetAllNamesExample` | counter.py:50-51 | for the same module, `get_all_names` gives `["x"]` |
| `Ranking.Tally` | counter.py:78 | `Counter(xs)` has one pair per distinct element of `xs`, each with its exact count, pairs in first-occurrence order |
| `Ranking.TallyGet` | counter.py:78 | `Counter(xs)[x]` is the number of occurrences of `x`, or 0 when it is missing |
| `Ranking.TallyAdditive` | counter.py:78 | the counter of `xs + ys` is the sum of the counters of `xs` and `ys` |
| `Ranking.MostCommon` | counter.py:78 | `most_common(n)`: nothing when `n <= 0`; otherwise at most `n` pairs; distinct elements, each exactly counted; each pair before the next by a higher count or, on a tie, an earlier first occurrence; every left-out element ranked after every kept one, ties included; everything kept when fewer than `n` pairs come back |
| `Ranking.MostCommonUnique` | counter.py:78 | that specification leaves no choice: any list meeting it is `MostCommon(xs, n)` |
| `Counter.ParsedTrees` | counter.py:67 | `[t for t in trees if t]` keeps exactly the trees that parsed |
| `Counter.OrdinaryNames` | counter.py:67-68 | the filtered identifiers are exactly the non-dunder identifiers of the trees; each non-dunder identifier occurs as often as in all the trees' `get_all_names` together, and a dunder one never |
| `Counter.OrdinaryFunctionNames` | counter.py:76 | the filtered function names are exactly the non-dunder function names of the trees; each non-dunder name occurs as often as in all the trees' `separate_to_node` together, and a dunder one never |
| `Counter.OrdinaryNamesOfTree` | counter.py:68 | within one tree, an identifier is kept once per `Name` node carrying it if it is not a dunder name, and never if it is |
| `Counter.OrdinaryFunctionNamesOfTree` | counter.py:76 | within one tree, a lowered function name is kept once per `FunctionDef` carrying it if it is not a dunder name, and never if it is |
| `Counter.GetAllWordsInPath` | counter.py:66-71 | the words are exactly the snake-case words of the non-dunder identifiers of the parsed trees, each as often as it occurs among those identifiers' words; none is empty or holds `'_'` |
| `Counter.WordCounts` | counter.py:66-71 | a non-empty word occurs as often as among the `split('_')` pieces of the non-dunder identifiers of the parsed trees; the empty word never occurs |
| `Counter.WordsOfPath` | counter.py:66-71 | a word is reported exactly when it is a snake-case word of a non-dunder identifier of a file that parsed |
| `Counter.Verbs` | counter.py:75-77 | the verbs are exactly the verbs of the non-dunder function names of the parsed trees, each as often as it occurs among those names' verbs |
| `Counter.VerbCounts` | counter.py:75-77 | a verb occurs as often as among the `split('_')` pieces of the non-dunder function names of the parsed trees; a word that is not a verb never occurs |
| `Counter.VerbsOfPath` | counter.py:74-77 | a word is among the verbs exactly when it is a verb of a non-dunder function name of a file that parsed |
| `Counter.GetTopVerbsInPath` | counter.py:74-78 | the result meets the `most_common(top_size)` specification over the verbs |
| `Counter.GetTopFunctionsNamesInPath` | counter.py:81-84 | the result meets the `most_common(top_size)` specification over the non-dunder function names of all files |
| `Counter.ParseFailureIgnored` | counter.py:74-75 | inserting a failed parse (`None`) anywhere changes neither `get_all_words_in_path` nor `get_top_verbs_in_path` |
| `Counter.MagicNamesIgnored` | counter.py:68 | a tree whose identifiers are all dunder names adds no word to `get_all_words_in_path` |
| `Counter.WordsAppend` | counter.py:66-71 | the words of concatenated corpora are the words of each, in order |
| `Counter.VerbsAppend` | counter.py:75-77 | the verbs of concatenated corpora are the verbs of each, in order |
| `Counter.VerbCountsAdditive` | counter.py:75-78 | the verb count of every word over corpus `A ++ B` is its count over `A` plus its count over `B` |
| `Counter.MagicFunctionNamesDropped` | counter.py:76 | a tree whose function names are all dunder names adds no non-dunder function name |
| `Counter.MagicFunctionsIgnored` | counter.py:74-78 | a tree whose function names are all dunder names leaves the top verbs unchanged |
| `Counter.MagicFunctionsIgnoredInRanking` | counter.py:81-84 | when every file parsed, a tree whose function names are all dunder names leaves `get_top_functions_names_in_path` unchanged |
| `Counter.NoVerbsNoRanking` | counter.py:74-78 | when every file either failed to parse or defines only dunder-named functions, there are no verbs and the ranking is empty |
| `Counter.TopVerbsAreVerbs` | counter.py:74-78 | every ranked word is a non-empty, underscore-free verb whose count is its exact number of occurrences (at least 1) |
| `Counter.AllParsed` | counter.py:82-83 | `get_top_functions_names_in_path` walks every file's tree, in file order |
| `Counter.AllParsedIsParsedTrees` | counter.py:82 | when every file parsed, those are the trees the other two analyses keep |
| `Counter.TopFunctionNamesOrdinary` | counter.py:81-84 | no dunder name is ever ranked; every ranked name is a function name of one of the files and holds no ASCII capital |

## Left out

- File discovery (`get_python_files`) and the tree-collection loop (`get_trees`): these are file-system I/O through `glob`. They also read the module-global `path` instead of their argument. The analyses take the per-file parse results as a parameter.
- Reading and parsing a file (`get_file_content`): the model takes only the outcome, a tree or `None` for a `SyntaxError`. The printing of the error and any I/O or decoding error are left out.
- The part-of-speech tagger `nltk.pos_tag`: an opaque pre-trained model, taken as the `Tagger` parameter.
- Python's `ast` node kinds: reduced to `FunctionDef`, `Name` and `Other`. `Name` is a leaf, so its context child is not modelled; it contributes nothing to either comprehension.
- `Naming.Lower`: models ASCII case mapping only. Python's `str.lower` maps further Unicode letters, and for a few of them it changes the string's length.
- `Counter.GetTopFunctionsNamesInPath`: requires every file to have parsed. The source walks `None` for a file that failed to parse, which raises an exception. Modelling that error path would invent behaviour the source does not have.
- `most_common()` with no argument (rank everything): counter.py always passes `top_size`. Its default of 10 is not a separate member: callers of the model pass `topSize`.
- The `__main__` driver: printing and glue. It also re-counts `(word, count)` pairs rather than words.
