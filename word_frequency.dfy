/** The headline analysis: translate every title (keeping the original when
    translation fails), tokenise the translations, count every token and
    report the tokens seen more than twice. */
module WordFrequency {
  import opened Wrappers
  import opened ArticleExtractor

  /** The title in English; `translate` answers `None` when the translation
      service fails, and then the original title is kept. */
  function TranslateTitle(title: string, translate: string -> Option<string>): (r: string)
    ensures translate(title).Some? ==> r == translate(title).value
    ensures translate(title).None? ==> r == title
  {
    match translate(title)
    case Some(t) => t
    case None => title
  }

  /** The tokens of all titles, title after title; `tokenize` stands for
      lower-casing a title and taking its `\w+` words. */
  function AllWords(titles: seq<string>, tokenize: string -> seq<string>): seq<string>
  {
    if titles == [] then []
    else AllWords(titles[..|titles| - 1], tokenize) + tokenize(titles[|titles| - 1])
  }

  /** How often `w` occurs among the tokens of each title, summed over the titles. */
  function TotalCount(titles: seq<string>, tokenize: string -> seq<string>, w: string): nat
  {
    if titles == [] then 0
    else TotalCount(titles[..|titles| - 1], tokenize, w) + multiset(tokenize(titles[|titles| - 1]))[w]
  }

  /** Every token with its number of occurrences (the `Counter` of the tokens). */
  function WordCounts(words: seq<string>): map<string, nat>
  {
    map w | w in words :: multiset(words)[w]
  }

  /** The counted tokens whose count is greater than two, with their counts. */
  function RepeatedWords(counts: map<string, nat>): map<string, nat>
  {
    map w | w in counts && counts[w] > 2 :: counts[w]
  }

  /** One more token adds one to its count, or enters it with count one. */
  lemma WordCountsAppend(words: seq<string>, w: string)
    ensures WordCounts(words + [w]) ==
      if w in WordCounts(words) then WordCounts(words)[w := WordCounts(words)[w] + 1]
      else WordCounts(words)[w := 1]
  {
    var m, m' := multiset(words), multiset(words + [w]);
    assert m' == m + multiset{w};
    assert forall v :: v in words + [w] <==> v in words || v == w;
  }

  /** Counts the tokens one at a time. */
  method CountWords(words: seq<string>) returns (counts: map<string, nat>)
    ensures counts == WordCounts(words)
  {
    counts := map[];
    var i := 0;
    while i < |words|
      invariant 0 <= i <= |words|
      invariant counts == WordCounts(words[..i])
    {
      var w := words[i];
      assert words[..i + 1] == words[..i] + [w];
      WordCountsAppend(words[..i], w);
      if w in counts {
        counts := counts[w := counts[w] + 1];
      } else {
        counts := counts[w := 1];
      }
      i := i + 1;
    }
    assert words[..i] == words;
  }

  /** Translates the title of every article and reports the repeated words of
      the translations. */
  method AnalyzeTranslatedHeaders(articles: seq<Article>, translate: string -> Option<string>,
                                  tokenize: string -> seq<string>)
    returns (translated: seq<string>, repeated: map<string, nat>)
    ensures |translated| == |articles|
    ensures forall i :: 0 <= i < |articles| ==> translated[i] == TranslateTitle(articles[i].title, translate)
    ensures repeated == RepeatedWords(WordCounts(AllWords(translated, tokenize)))
  {
    translated := [];
    var i := 0;
    while i < |articles|
      invariant 0 <= i <= |articles|
      invariant |translated| == i
      invariant forall k :: 0 <= k < i ==> translated[k] == TranslateTitle(articles[k].title, translate)
    {
      translated := translated + [TranslateTitle(articles[i].title, translate)];
      i := i + 1;
    }
    var allWords: seq<string> := [];
    var j := 0;
    while j < |translated|
      invariant 0 <= j <= |translated|
      invariant allWords == AllWords(translated[..j], tokenize)
    {
      assert translated[..j + 1][..j] == translated[..j];
      allWords := allWords + tokenize(translated[j]);
      j := j + 1;
    }
    assert translated[..j] == translated;
    var counts := CountWords(allWords);
    repeated := RepeatedWords(counts);
  }

  /** Counting all tokens together counts each title's tokens and adds them up. */
  lemma {:induction false} AllWordsCount(titles: seq<string>, tokenize: string -> seq<string>, w: string)
    ensures multiset(AllWords(titles, tokenize))[w] == TotalCount(titles, tokenize, w)
  {
    if titles != [] {
      AllWordsCount(titles[..|titles| - 1], tokenize, w);
    }
  }

  /** The report holds exactly the tokens whose total count over all titles is
      greater than two, each with that total count. */
  lemma RepeatedWordsExact(titles: seq<string>, tokenize: string -> seq<string>)
    ensures forall w :: w in RepeatedWords(WordCounts(AllWords(titles, tokenize))) <==> TotalCount(titles, tokenize, w) > 2
    ensures forall w :: w in RepeatedWords(WordCounts(AllWords(titles, tokenize))) ==>
      RepeatedWords(WordCounts(AllWords(titles, tokenize)))[w] == TotalCount(titles, tokenize, w)
  {
    forall w {
      AllWordsCount(titles, tokenize, w);
    }
  }

  /** The tokens of the three example titles, title after title. */
  lemma ExampleTokens(tokenize: string -> seq<string>)
    requires tokenize("Cat Dog Cat") == ["cat", "dog", "cat"]
    requires tokenize("Dog Cat Bird") == ["dog", "cat", "bird"]
    requires tokenize("Cat Dog Dog") == ["cat", "dog", "dog"]
    ensures AllWords(["Cat Dog Cat", "Dog Cat Bird", "Cat Dog Dog"], tokenize)
      == ["cat", "dog", "cat"] + ["dog", "cat", "bird"] + ["cat", "dog", "dog"]
  {
    var titles := ["Cat Dog Cat", "Dog Cat Bird", "Cat Dog Dog"];
    var two, one := titles[..2], titles[..2][..1];
    assert two == ["Cat Dog Cat", "Dog Cat Bird"];
    assert one == ["Cat Dog Cat"];
    assert AllWords(one, tokenize) == AllWords([], tokenize) + ["cat", "dog", "cat"] by {
      assert one[..0] == [];
    }
    assert AllWords(two, tokenize) == AllWords(one, tokenize) + ["dog", "cat", "bird"];
    assert AllWords(titles, tokenize) == AllWords(two, tokenize) + ["cat", "dog", "dog"];
  }

  /** How often each of three distinct words occurs among the tokens of the example. */
  lemma ExampleOccurrences(x: string, y: string, z: string)
    requires x != y && x != z && y != z
    ensures var m := multiset([x, y, x] + [y, x, z] + [x, y, y]); m[x] == 4 && m[y] == 4 && m[z] == 1
  {
    assert multiset([x, y, x] + [y, x, z] + [x, y, y]) == multiset([x, y, x]) + multiset([y, x, z]) + multiset([x, y, y]);
  }

  /** The counts of the tokens of the example, for any three distinct words. */
  lemma ExampleCounts(x: string, y: string, z: string)
    requires x != y && x != z && y != z
    ensures WordCounts([x, y, x] + [y, x, z] + [x, y, y]) == map[x := 4, y := 4, z := 1]
  {
    var words := [x, y, x] + [y, x, z] + [x, y, y];
    ExampleOccurrences(x, y, z);
    var wc := WordCounts(words);
    assert wc.Keys == {x, y, z} by {
      assert forall w :: w in words <==> w == x || w == y || w == z;
    }
    assert wc[x] == 4 && wc[y] == 4 && wc[z] == 1;
  }

  /** The report of the example's counts, for any three distinct words. */
  lemma ExampleReport(x: string, y: string, z: string)
    requires x != y && x != z && y != z
    ensures RepeatedWords(map[x := 4, y := 4, z := 1]) == map[x := 4, y := 4]
  {
  }

  /** The titles `Cat Dog Cat`, `Dog Cat Bird` and `Cat Dog Dog` (left untranslated)
      count cat and dog four times each and bird once, and report cat and dog. */
  lemma RepeatedWordsExample(tokenize: string -> seq<string>)
    requires tokenize("Cat Dog Cat") == ["cat", "dog", "cat"]
    requires tokenize("Dog Cat Bird") == ["dog", "cat", "bird"]
    requires tokenize("Cat Dog Dog") == ["cat", "dog", "dog"]
    ensures WordCounts(AllWords(["Cat Dog Cat", "Dog Cat Bird", "Cat Dog Dog"], tokenize))
      == map["cat" := 4, "dog" := 4, "bird" := 1]
    ensures RepeatedWords(WordCounts(AllWords(["Cat Dog Cat", "Dog Cat Bird", "Cat Dog Dog"], tokenize)))
      == map["cat" := 4, "dog" := 4]
  {
    assert "cat"[0] != "dog"[0] && "cat"[0] != "bird"[0] && "dog"[0] != "bird"[0];
    ExampleTokens(tokenize);
    ExampleCounts("cat", "dog", "bird");
    ExampleReport("cat", "dog", "bird");
  }
}
