/** Word-level operations of counter.py: Python's `str.split` on one
    character, the snake-case splitter, `str.lower`, `magic_name` and
    `is_verb`, and `get_verbs_from_function_name`. */
module Naming {
  import opened Lists

  /** The delimiter of snake-case names. */
  const Underscore: char := '_'

  /** `s.split(sep)` with a one-character separator: the pieces between
      separators, empty pieces included, always at least one piece. */
  function Split(s: string, sep: char): (r: seq<string>)
    ensures |r| >= 1
    ensures forall i :: 0 <= i < |r| ==> sep !in r[i]
  {
    if s == [] then [""]
    else
      var rest := Split(s[1..], sep);
      if s[0] == sep then [""] + rest
      else [[s[0]] + rest[0]] + rest[1..]
  }

  /** `sep.join(parts)`, the inverse of `Split`. */
  function Join(parts: seq<string>, sep: char): string
  {
    if parts == [] then ""
    else if |parts| == 1 then parts[0]
    else parts[0] + [sep] + Join(parts[1..], sep)
  }

  /** Joining the pieces of a split gives back the string. */
  lemma {:induction false} JoinSplit(s: string, sep: char)
    ensures Join(Split(s, sep), sep) == s
  {
    if s != [] {
      var rest := Split(s[1..], sep);
      JoinSplit(s[1..], sep);
      if s[0] != sep {
        if |rest| > 1 {
          assert ([[s[0]] + rest[0]] + rest[1..])[1..] == rest[1..];
        }
      } else {
        assert ([""] + rest)[1..] == rest;
      }
    }
  }

  /** Splitting a join of separator-free pieces gives back the pieces. */
  lemma {:induction false} SplitJoin(parts: seq<string>, sep: char)
    requires |parts| >= 1
    requires forall i :: 0 <= i < |parts| ==> sep !in parts[i]
    ensures Split(Join(parts, sep), sep) == parts
  {
    if |parts| == 1 {
      SplitPiece(parts[0], [], sep);
      assert parts[0] + [] == parts[0];
    } else {
      var tail := Join(parts[1..], sep);
      SplitJoin(parts[1..], sep);
      assert ([sep] + tail)[0] == sep;
      assert ([sep] + tail)[1..] == tail;
      assert Split([sep] + tail, sep) == [""] + parts[1..];
      SplitPiece(parts[0], [sep] + tail, sep);
      assert parts[0] + [sep] + tail == parts[0] + ([sep] + tail);
      assert parts[0] + "" == parts[0];
      assert parts == [parts[0]] + parts[1..];
    }
  }

  /** A separator-free prefix glues onto the first piece of what follows. */
  lemma {:induction false} SplitPiece(w: string, tail: string, sep: char)
    requires sep !in w
    ensures var rest := Split(tail, sep);
      Split(w + tail, sep) == [w + rest[0]] + rest[1..]
  {
    if w == [] {
      assert w + tail == tail;
      var rest := Split(tail, sep);
      assert w + rest[0] == rest[0];
      assert rest == [rest[0]] + rest[1..];
    } else {
      assert (w + tail)[1..] == w[1..] + tail;
      assert (w + tail)[0] == w[0];
      SplitPiece(w[1..], tail, sep);
      assert [w[0]] + (w[1..] + Split(tail, sep)[0]) == w + Split(tail, sep)[0];
    }
  }

  /** Gluing the pieces of a split back together without separators drops
      exactly the separators. */
  lemma {:induction false} FlatSplit(s: string)
    ensures Flat(Split(s, Underscore)) == Filter(NotUnderscore, s)
  {
    if s != [] {
      var rest := Split(s[1..], Underscore);
      FlatSplit(s[1..]);
      if s[0] == Underscore {
        FlatCons("", rest);
      } else {
        FlatCons(rest[0], rest[1..]);
        assert rest == [rest[0]] + rest[1..];
        FlatCons([s[0]] + rest[0], rest[1..]);
      }
    }
  }

  /** The inner `split_snake_case_name_to_words(name)` of
      `get_all_words_in_path`: the non-empty pieces between underscores. */
  function SplitSnakeCaseNameToWords(name: string): (r: seq<string>)
    ensures forall i :: 0 <= i < |r| ==> r[i] != "" && Underscore !in r[i]
  {
    Filter(NonEmpty, Split(name, Underscore))
  }

  /** The test `if n` of a comprehension over strings or lists. */
  function NonEmpty<T>(xs: seq<T>): bool
  {
    xs != []
  }

  /** The test of characters that `split` would cut at. */
  function NotUnderscore(c: char): bool
  {
    c != Underscore
  }

  /** Gluing the words of a name together gives the name with every
      underscore removed. */
  lemma SnakeWordsConcat(name: string)
    ensures Flat(SplitSnakeCaseNameToWords(name)) == Filter(NotUnderscore, name)
  {
    FlatSplit(name);
    FlatFilterEmpty(Split(name, Underscore));
  }

  /** Dropping empty inner lists does not change the flattening. */
  lemma {:induction false} FlatFilterEmpty<T>(xss: seq<seq<T>>)
    ensures Flat(Filter(NonEmpty, xss)) == Flat(xss)
  {
    if xss != [] {
      var rest := Filter(NonEmpty, xss[1..]);
      FlatFilterEmpty(xss[1..]);
      assert xss == [xss[0]] + xss[1..];
      FlatCons(xss[0], xss[1..]);
      if xss[0] != [] {
        assert Filter(NonEmpty, xss) == [xss[0]] + rest;
        FlatCons(xss[0], rest);
      } else {
        assert Filter(NonEmpty, xss) == [] + rest == rest;
        assert xss[0] + Flat(xss[1..]) == Flat(xss[1..]);
      }
    }
  }

  /** A non-empty name without underscores is its own only word. */
  lemma SnakeWordsSingle(name: string)
    requires name != "" && Underscore !in name
    ensures SplitSnakeCaseNameToWords(name) == [name]
  {
    SplitJoin([name], Underscore);
  }

  /** Splitting a join of underscore-free segments gives back the non-empty
      segments, so leading, trailing and doubled underscores never make a
      word. */
  lemma SnakeWordsOfJoin(segments: seq<string>)
    requires |segments| >= 1
    requires forall i :: 0 <= i < |segments| ==> Underscore !in segments[i]
    ensures SplitSnakeCaseNameToWords(Join(segments, Underscore)) == Filter(NonEmpty, segments)
  {
    SplitJoin(segments, Underscore);
  }

  /** One step of `Join`, from the front. */
  lemma JoinCons(first: string, rest: seq<string>, sep: char)
    requires rest != []
    ensures Join([first] + rest, sep) == first + [sep] + Join(rest, sep)
  {
    assert ([first] + rest)[1..] == rest;
  }

  lemma SnakeWordsExample()
    ensures SplitSnakeCaseNameToWords("__get_data__") == ["get", "data"]
  {
    var segments := ["", "", "get", "data", "", ""];
    DunderJoinExample(segments, "__get_data__");
    SnakeWordsOfJoin(segments);
    FilterExample(segments);
  }

  lemma DunderJoinExample(segments: seq<string>, name: string)
    requires segments == ["", "", "get", "data", "", ""]
    requires name == "__get_data__"
    ensures Join(segments, Underscore) == name
  {
    JoinCons("", [""], Underscore);
    JoinCons("data", ["", ""], Underscore);
    JoinCons("get", ["data", "", ""], Underscore);
    JoinCons("", ["get", "data", "", ""], Underscore);
    JoinCons("", ["", "get", "data", "", ""], Underscore);
    assert [""] + ["", "get", "data", "", ""] == segments;
  }

  lemma FilterExample(segments: seq<string>)
    requires segments == ["", "", "get", "data", "", ""]
    ensures Filter(NonEmpty, segments) == ["get", "data"]
  {
    assert segments[5..][1..] == [];
    assert Filter(NonEmpty, segments[5..]) == [];
    assert segments[4..][1..] == segments[5..];
    assert Filter(NonEmpty, segments[4..]) == [];
    assert segments[3..][1..] == segments[4..];
    assert Filter(NonEmpty, segments[3..]) == ["data"];
    assert segments[2..][1..] == segments[3..];
    assert Filter(NonEmpty, segments[2..]) == ["get", "data"];
    assert segments[1..][1..] == segments[2..];
    assert Filter(NonEmpty, segments[1..]) == ["get", "data"];
  }

  /** `c.lower()` on one character; only ASCII letters change. */
  function LowerChar(c: char): char
  {
    if 'A' <= c <= 'Z' then (c as int - 'A' as int + 'a' as int) as char else c
  }

  /** `s.lower()`: same length, every ASCII capital replaced by its small
      letter, and every other character (the underscore in particular)
      where it was; so no ASCII capital is left. */
  function Lower(s: string): (r: string)
    ensures |r| == |s|
    ensures forall i :: 0 <= i < |s| && 'A' <= s[i] <= 'Z' ==>
              r[i] as int == s[i] as int - 'A' as int + 'a' as int
    ensures forall i :: 0 <= i < |s| && !('A' <= s[i] <= 'Z') ==> r[i] == s[i]
    ensures forall i :: 0 <= i < |s| ==> !('A' <= r[i] <= 'Z')
  {
    seq(|s|, i requires 0 <= i < |s| => LowerChar(s[i]))
  }

  function StartsWith(s: string, prefix: string): bool
  {
    |prefix| <= |s| && s[..|prefix|] == prefix
  }

  function EndsWith(s: string, suffix: string): bool
  {
    |suffix| <= |s| && s[|s| - |suffix|..] == suffix
  }

  /** `magic_name(f)`: despite its name, true for an ORDINARY name, false
      for a dunder-style name that both starts and ends with two
      underscores. */
  function MagicName(f: string): (r: bool)
    ensures !r <==> |f| >= 2 && f[0] == f[1] == f[|f| - 2] == f[|f| - 1] == Underscore
  {
    !(StartsWith(f, "__") && EndsWith(f, "__"))
  }

  lemma MagicNameExamples()
    ensures !MagicName("__init__") && !MagicName("__") && !MagicName("___")
    ensures MagicName("_x_") && MagicName("get_") && MagicName("") && MagicName("get_data")
  {
  }

  /** Lower-casing does not change whether a name is dunder-style. */
  lemma MagicNameLower(f: string)
    ensures MagicName(Lower(f)) == MagicName(f)
  {
  }

  /** The part-of-speech tagger: the tag it gives to a one-word sentence. */
  type Tagger = string -> string

  /** The Penn Treebank tags that count as verb forms. */
  const VerbTags: set<string> := {"VB", "VBD", "VBG", "VBN", "VBP"}

  /** `is_verb(word)`: an empty word is never a verb; any other word is a
      verb exactly when the tagger gives it one of the verb tags. */
  function IsVerb(tagger: Tagger, word: string): (r: bool)
    ensures word == "" ==> !r
    ensures r ==> tagger(word) in VerbTags
  {
    if word == "" then false else tagger(word) in VerbTags
  }

  /** `get_verbs_from_function_name(function_name)`: the pieces of the
      unfiltered split that are verbs. Because the empty word is not a verb,
      no empty piece gets through. */
  function GetVerbsFromFunctionName(tagger: Tagger, functionName: string): (r: seq<string>)
    ensures forall i :: 0 <= i < |r| ==> r[i] != "" && Underscore !in r[i] && IsVerb(tagger, r[i])
  {
    Filter(VerbTest(tagger), Split(functionName, Underscore))
  }

  /** `is_verb` with the tagger fixed, as the test of a comprehension. */
  function VerbTest(tagger: Tagger): string -> bool
  {
    w => IsVerb(tagger, w)
  }

  /** The unfiltered split is harmless: the verbs of a name are the verbs
      among its snake-case words. */
  lemma VerbsAreVerbWords(tagger: Tagger, functionName: string)
    ensures GetVerbsFromFunctionName(tagger, functionName)
         == Filter(VerbTest(tagger), SplitSnakeCaseNameToWords(functionName))
  {
    FilterNarrow(VerbTest(tagger), NonEmpty, Split(functionName, Underscore));
  }

  /** Each word occurs among the verbs of a name as often as it occurs among
      the pieces of the name, if it is a verb, and never otherwise. */
  lemma VerbsCount(tagger: Tagger, functionName: string, w: string)
    ensures multiset(GetVerbsFromFunctionName(tagger, functionName))[w]
         == if IsVerb(tagger, w) then multiset(Split(functionName, Underscore))[w] else 0
  {
    FilterCount(VerbTest(tagger), Split(functionName, Underscore), w);
  }

  /** The verb filter on `get_user_and_validate`: only `get` and `validate`
      remain when the tagger calls them, and only them, verbs. */
  lemma VerbsExample(tagger: Tagger)
    requires IsVerb(tagger, "get") && IsVerb(tagger, "validate")
    requires !IsVerb(tagger, "user") && !IsVerb(tagger, "and")
    ensures GetVerbsFromFunctionName(tagger, "get_user_and_validate") == ["get", "validate"]
  {
    SplitExample("get_user_and_validate");
    var p := VerbTest(tagger);
    assert p("get") && p("validate") && !p("user") && !p("and");
    FilterOfFour(p, "get", "user", "and", "validate");
  }

  lemma SplitExample(name: string)
    requires name == "get_user_and_validate"
    ensures Split(name, Underscore) == ["get", "user", "and", "validate"]
  {
    var pieces := ["get", "user", "and", "validate"];
    JoinExample(pieces, name);
    SplitJoin(pieces, Underscore);
  }

  lemma JoinExample(pieces: seq<string>, name: string)
    requires pieces == ["get", "user", "and", "validate"]
    requires name == "get_user_and_validate"
    ensures Join(pieces, Underscore) == name
  {
    JoinFour("get", "user", "and", "validate", Underscore);
  }

  /** `Join` of four pieces. */
  lemma JoinFour(a: string, b: string, c: string, d: string, sep: char)
    ensures Join([a, b, c, d], sep) == a + [sep] + b + [sep] + c + [sep] + d
  {
    assert [c, d] == [c] + [d];
    JoinCons(c, [d], sep);
    assert [b, c, d] == [b] + [c, d];
    JoinCons(b, [c, d], sep);
    assert [a, b, c, d] == [a] + [b, c, d];
    JoinCons(a, [b, c, d], sep);
  }

  /** `Filter` on a four-element list whose first and last elements pass. */
  lemma FilterOfFour<T>(p: T -> bool, a: T, b: T, c: T, d: T)
    requires p(a) && !p(b) && !p(c) && p(d)
    ensures Filter(p, [a, b, c, d]) == [a, d]
  {
    assert [d][1..] == [];
    assert Filter(p, [d]) == [d];
    assert [c, d][1..] == [d];
    assert Filter(p, [c, d]) == [d];
    assert [b, c, d][1..] == [c, d];
    assert Filter(p, [b, c, d]) == [d];
    assert [a, b, c, d][1..] == [b, c, d];
  }
}
