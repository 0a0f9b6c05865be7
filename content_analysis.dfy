/** The deterministic part of youtube_analyzer/content_analysis.py: the special-character
    cleaner, the word-accumulation chunker, the sentence-prefix trimmer, and the two
    pipelines built from them. The summarizer, the punctuation restorer and the sentence
    tokenizer are models outside this code; they are passed in as functions. */
module ContentAnalysis {
  import opened Text

  // ---------------------------------------------------------------------------------
  // clean_special_characters
  // ---------------------------------------------------------------------------------

  /** The characters that survive the substitution of [^\w\s] by nothing. */
  predicate Kept(c: char) {
    IsWordChar(c) || IsSpace(c)
  }

  /** clean_special_characters: every character that is neither a word character nor
      whitespace is removed; everything else stays, whitespace runs included. */
  function CleanSpecialCharacters(text: string): (r: string)
    ensures forall i :: 0 <= i < |r| ==> Kept(r[i])
  {
    if text == [] then []
    else (if Kept(text[0]) then [text[0]] else []) + CleanSpecialCharacters(text[1..])
  }

  /** Exactly the special characters go: every other character keeps its count. */
  lemma {:induction false} CleanCounts(text: string, c: char)
    ensures multiset(CleanSpecialCharacters(text))[c] == if Kept(c) then multiset(text)[c] else 0
  {
    if text != [] {
      CleanCounts(text[1..], c);
      assert text == [text[0]] + text[1..];
    }
  }

  /** Cleaning works character by character: the cleaned parts keep their order. */
  lemma {:induction false} CleanAppend(a: string, b: string)
    ensures CleanSpecialCharacters(a + b) == CleanSpecialCharacters(a) + CleanSpecialCharacters(b)
  {
    if a == [] {
      assert a + b == b;
    } else {
      assert (a + b)[0] == a[0] && (a + b)[1..] == a[1..] + b;
      CleanAppend(a[1..], b);
    }
  }

  /** The cleaner changes a text exactly when the text holds a special character. */
  lemma {:induction false} CleanUnchangedIff(text: string)
    ensures CleanSpecialCharacters(text) == text <==> forall i :: 0 <= i < |text| ==> Kept(text[i])
  {
    if text != [] && forall i :: 0 <= i < |text| ==> Kept(text[i]) {
      assert forall i :: 0 <= i < |text| - 1 ==> Kept(text[1..][i]);
      CleanUnchangedIff(text[1..]);
    }
  }

  /** Cleaning twice is cleaning once. */
  lemma CleanIdempotent(text: string)
    ensures CleanSpecialCharacters(CleanSpecialCharacters(text)) == CleanSpecialCharacters(text)
  {
    CleanUnchangedIff(CleanSpecialCharacters(text));
  }

  /** Whitespace is kept as it is: a run of blanks is not collapsed into one space. */
  lemma CleanKeepsWhitespace(a: string, blank: string, b: string)
    requires IsBlank(blank)
    ensures CleanSpecialCharacters(a + blank + b)
         == CleanSpecialCharacters(a) + blank + CleanSpecialCharacters(b)
  {
    CleanAppend(a + blank, b);
    CleanAppend(a, blank);
    CleanUnchangedIff(blank);
  }

  // ---------------------------------------------------------------------------------
  // _split_into_chunks
  // ---------------------------------------------------------------------------------

  /** The words of the groups, group after group. */
  function Flatten(groups: seq<seq<string>>): seq<string> {
    if groups == [] then [] else Flatten(groups[..|groups| - 1]) + groups[|groups| - 1]
  }

  lemma FlattenAppend(groups: seq<seq<string>>, group: seq<string>)
    ensures Flatten(groups + [group]) == Flatten(groups) + group
  {
    assert (groups + [group])[..|groups|] == groups;
  }

  /** A group whose joined length exceeds the size holds a single word. */
  predicate FitOrSingle(maxTokens: nat, groups: seq<seq<string>>) {
    forall g :: 0 <= g < |groups| ==> |JoinWith(groups[g], " ")| <= maxTokens || |groups[g]| == 1
  }

  /** Only the first group may be empty. */
  predicate OnlyFirstMayBeEmpty(groups: seq<seq<string>>) {
    forall g :: 0 < g < |groups| ==> groups[g] != []
  }

  /** The first group is empty exactly when the first word alone exceeds the size. */
  predicate FirstEmptyIffOversized(words: seq<string>, maxTokens: nat, groups: seq<seq<string>>) {
    groups != [] && words != [] ==> (groups[0] == [] <==> |words[0]| > maxTokens)
  }

  /** A group is closed only when adding the first word of the next would exceed the size. */
  predicate ClosedWhenFull(maxTokens: nat, groups: seq<seq<string>>) {
    forall g :: 0 <= g < |groups| - 1 && groups[g + 1] != [] ==>
      |JoinWith(groups[g] + [groups[g + 1][0]], " ")| > maxTokens
  }

  /** The word groups the chunker forms from a word list, one group per chunk: no word is
      lost or moved, a group is present exactly when there are words, and the four
      predicates above hold. */
  predicate ValidGrouping(words: seq<string>, maxTokens: nat, groups: seq<seq<string>>) {
    && Flatten(groups) == words
    && (groups == [] <==> words == [])
    && FitOrSingle(maxTokens, groups)
    && OnlyFirstMayBeEmpty(groups)
    && FirstEmptyIffOversized(words, maxTokens, groups)
    && ClosedWhenFull(maxTokens, groups)
  }

  lemma FitOrSingleAppend(maxTokens: nat, groups: seq<seq<string>>, group: seq<string>)
    ensures FitOrSingle(maxTokens, groups + [group])
        <==> FitOrSingle(maxTokens, groups) && (|JoinWith(group, " ")| <= maxTokens || |group| == 1)
  {
    assert forall g :: 0 <= g < |groups| ==> (groups + [group])[g] == groups[g];
    assert (groups + [group])[|groups|] == group;
  }

  lemma OnlyFirstMayBeEmptyAppend(groups: seq<seq<string>>, group: seq<string>)
    ensures OnlyFirstMayBeEmpty(groups + [group])
        <==> OnlyFirstMayBeEmpty(groups) && (groups != [] ==> group != [])
  {
    assert forall g :: 0 <= g < |groups| ==> (groups + [group])[g] == groups[g];
    assert (groups + [group])[|groups|] == group;
  }

  lemma ClosedWhenFullAppend(maxTokens: nat, groups: seq<seq<string>>, group: seq<string>)
    ensures ClosedWhenFull(maxTokens, groups + [group])
        <==> ClosedWhenFull(maxTokens, groups)
             && (groups != [] && group != [] ==> |JoinWith(groups[|groups| - 1] + [group[0]], " ")| > maxTokens)
  {
    assert forall g :: 0 <= g < |groups| ==> (groups + [group])[g] == groups[g];
    assert (groups + [group])[|groups|] == group;
  }

  /** The words of each chunk. */
  function SplitEach(chunks: seq<string>): (groups: seq<seq<string>>)
    ensures |groups| == |chunks|
  {
    seq(|chunks|, i requires 0 <= i < |chunks| => Split(chunks[i]))
  }

  /** What the word-accumulation chunker promises of its chunks: each chunk is its words
      joined by single spaces, and the words of the chunks form a valid grouping of the
      words of the text. */
  predicate ValidChunking(text: string, maxTokens: nat, chunks: seq<string>) {
    && (forall i :: 0 <= i < |chunks| ==> chunks[i] == JoinWith(Split(chunks[i]), " "))
    && ValidGrouping(Split(text), maxTokens, SplitEach(chunks))
  }

  predicate AllGroupsWords(groups: seq<seq<string>>) {
    forall g :: 0 <= g < |groups| ==> AllWords(groups[g])
  }

  /** The chunker's state after its first k words: the groups of the closed chunks and the
      words of the open chunk, which together group the words seen so far. */
  predicate ChunkerState(words: seq<string>, maxTokens: nat, k: nat, groups: seq<seq<string>>, current: seq<string>) {
    && k <= |words|
    && AllGroupsWords(groups)
    && AllWords(current)
    && (k == 0 ==> groups == [] && current == [])
    && (k > 0 ==> current != [] && ValidGrouping(words[..k], maxTokens, groups + [current]))
  }

  lemma TakeOneMore<T>(s: seq<T>, k: nat)
    requires k < |s|
    ensures s[..k + 1] == s[..k] + [s[k]]
  {
  }

  /** The first word, when it fits, opens the first group. */
  lemma GroupFirstWord(word: string, maxTokens: nat)
    requires |word| <= maxTokens
    ensures ValidGrouping([word], maxTokens, [[word]])
  {
    FlattenAppend([], [word]);
  }

  /** The first word, when it does not fit, closes an empty first group and opens the next. */
  lemma GroupFirstWordOversized(word: string, maxTokens: nat)
    requires |word| > maxTokens
    ensures ValidGrouping([word], maxTokens, [[], [word]])
  {
    FlattenAppend([], []);
    FlattenAppend([[]], [word]);
    assert [[]] + [[word]] == [[], [word]];
  }

  /** A word that fits is added to the last group. */
  lemma GroupExtend(prefix: seq<string>, word: string, maxTokens: nat, groups: seq<seq<string>>, current: seq<string>)
    requires current != []
    requires ValidGrouping(prefix, maxTokens, groups + [current])
    requires |JoinWith(current + [word], " ")| <= maxTokens
    ensures ValidGrouping(prefix + [word], maxTokens, groups + [current + [word]])
  {
    var next := current + [word];
    FlattenAppend(groups, current);
    FlattenAppend(groups, next);
    assert Flatten(groups) + next == (Flatten(groups) + current) + [word];
    assert |groups + [next]| > 0 && |prefix + [word]| > 0;
    FitOrSingleAppend(maxTokens, groups, current);
    FitOrSingleAppend(maxTokens, groups, next);
    OnlyFirstMayBeEmptyAppend(groups, current);
    OnlyFirstMayBeEmptyAppend(groups, next);
    ClosedWhenFullAppend(maxTokens, groups, current);
    ClosedWhenFullAppend(maxTokens, groups, next);
    assert next[0] == current[0];
    assert (prefix + [word])[0] == prefix[0];
    assert (groups + [next])[0] == (if groups == [] then next else groups[0]);
    assert (groups + [current])[0] == (if groups == [] then current else groups[0]);
  }

  /** A word that does not fit closes the last group and opens a new one. */
  lemma GroupClose(prefix: seq<string>, word: string, maxTokens: nat, groups: seq<seq<string>>)
    requires IsWord(word) && groups != []
    requires ValidGrouping(prefix, maxTokens, groups)
    requires |JoinWith(groups[|groups| - 1] + [word], " ")| > maxTokens
    ensures ValidGrouping(prefix + [word], maxTokens, groups + [[word]])
  {
    FlattenAppend(groups, [word]);
    assert |groups + [[word]]| > 0 && |prefix + [word]| > 0;
    FitOrSingleAppend(maxTokens, groups, [word]);
    OnlyFirstMayBeEmptyAppend(groups, [word]);
    ClosedWhenFullAppend(maxTokens, groups, [word]);
    assert (prefix + [word])[0] == prefix[0];
    assert (groups + [[word]])[0] == groups[0];
  }

  /** The next word fits: it joins the open chunk. */
  lemma ExtendChunk(words: seq<string>, maxTokens: nat, k: nat, groups: seq<seq<string>>, current: seq<string>)
    requires AllWords(words) && k < |words|
    requires ChunkerState(words, maxTokens, k, groups, current)
    requires |JoinWith(current + [words[k]], " ")| <= maxTokens
    ensures ChunkerState(words, maxTokens, k + 1, groups, current + [words[k]])
  {
    var word := words[k];
    TakeOneMore(words, k);
    if k == 0 {
      assert current + [word] == [word] && words[..1] == [word];
      GroupFirstWord(word, maxTokens);
    } else {
      GroupExtend(words[..k], word, maxTokens, groups, current);
    }
  }

  /** The next word overflows: the open chunk is closed without it and it opens the next. */
  lemma CloseChunk(words: seq<string>, maxTokens: nat, k: nat, groups: seq<seq<string>>, current: seq<string>)
    requires AllWords(words) && k < |words|
    requires ChunkerState(words, maxTokens, k, groups, current)
    requires |JoinWith(current + [words[k]], " ")| > maxTokens
    ensures ChunkerState(words, maxTokens, k + 1, groups + [current], [words[k]])
  {
    var word := words[k];
    assert AllWords([word]);
    assert AllGroupsWords(groups + [current]) by {
      assert forall g :: 0 <= g < |groups| ==> (groups + [current])[g] == groups[g];
    }
    TakeOneMore(words, k);
    if k == 0 {
      assert current + [word] == [word] && words[..1] == [word];
      GroupFirstWordOversized(word, maxTokens);
      assert groups + [current] + [[word]] == [[], [word]];
    } else {
      var closed := groups + [current];
      assert closed[|closed| - 1] == current;
      GroupClose(words[..k], word, maxTokens, closed);
    }
  }

  /** After the last word, closing the open chunk (if any) groups all the words. */
  lemma FinishGroups(words: seq<string>, maxTokens: nat, groups: seq<seq<string>>, current: seq<string>)
    requires ChunkerState(words, maxTokens, |words|, groups, current)
    ensures AllGroupsWords(if current != [] then groups + [current] else groups)
    ensures ValidGrouping(words, maxTokens, if current != [] then groups + [current] else groups)
  {
    assert words[..|words|] == words;
  }

  /** Each group joined by single spaces: the chunks of a grouping. */
  function JoinEach(groups: seq<seq<string>>): (chunks: seq<string>)
    ensures |chunks| == |groups|
  {
    seq(|groups|, g requires 0 <= g < |groups| => JoinWith(groups[g], " "))
  }

  lemma JoinEachAppend(groups: seq<seq<string>>, group: seq<string>)
    ensures JoinEach(groups + [group]) == JoinEach(groups) + [JoinWith(group, " ")]
  {
    assert forall g :: 0 <= g < |groups| ==> (groups + [group])[g] == groups[g];
  }

  /** Chunks made by joining groups of words have those groups as their words. */
  lemma JoinedGroups(text: string, maxTokens: nat, groups: seq<seq<string>>)
    requires AllGroupsWords(groups)
    requires ValidGrouping(Split(text), maxTokens, groups)
    ensures ValidChunking(text, maxTokens, JoinEach(groups))
  {
    var chunks := JoinEach(groups);
    forall g | 0 <= g < |groups| ensures Split(chunks[g]) == groups[g] {
      SplitJoin(groups[g]);
    }
    assert SplitEach(chunks) == groups;
  }

  /** _split_into_chunks: words are added to the current chunk until the joined chunk gets
      longer than maxTokens characters; the chunk is then closed before the word that
      overflowed it, and that word starts the next chunk. */
  method SplitIntoChunks(text: string, maxTokens: nat) returns (chunks: seq<string>)
    ensures ValidChunking(text, maxTokens, chunks)
  {
    var words := Split(text);
    chunks := [];
    var current: seq<string> := [];
    ghost var groups: seq<seq<string>> := [];
    for k := 0 to |words|
      invariant ChunkerState(words, maxTokens, k, groups, current)
      invariant chunks == JoinEach(groups)
    {
      var word := words[k];
      if |JoinWith(current + [word], " ")| > maxTokens {
        CloseChunk(words, maxTokens, k, groups, current);
        JoinEachAppend(groups, current);
        chunks := chunks + [JoinWith(current, " ")];
        groups := groups + [current];
        current := [word];
      } else {
        ExtendChunk(words, maxTokens, k, groups, current);
        current := current + [word];
      }
    }
    FinishGroups(words, maxTokens, groups, current);
    if current != [] {
      JoinEachAppend(groups, current);
      chunks := chunks + [JoinWith(current, " ")];
      groups := groups + [current];
    }
    JoinedGroups(text, maxTokens, groups);
  }

  // The chunking is unique: a valid grouping is rebuilt word by word by the chunker's own
  // step, so two valid groupings of the same words coincide.

  /** One step of the chunker: the grouping after `word` is read. The word joins the last
      group if the joined group still fits, and opens a new group otherwise; the first
      word, when it does not fit, leaves an empty first group behind. */
  function AddWord(groups: seq<seq<string>>, word: string, maxTokens: nat): seq<seq<string>>
  {
    if groups == [] then (if |word| > maxTokens then [[], [word]] else [[word]])
    else
      var last := groups[|groups| - 1];
      if |JoinWith(last + [word], " ")| > maxTokens then groups + [[word]]
      else groups[..|groups| - 1] + [last + [word]]
  }

  /** The grouping before the last word was read: the inverse of AddWord. */
  function DropLastWord(groups: seq<seq<string>>): seq<seq<string>>
    requires groups != []
  {
    var init := groups[..|groups| - 1];
    var last := groups[|groups| - 1];
    if |last| > 1 then init + [last[..|last| - 1]]
    else if init == [[]] then []
    else init
  }

  /** Adding one word to a non-empty group lengthens its join by a space and the word. */
  lemma {:induction false} JoinWithOneMore(group: seq<string>, word: string)
    requires group != []
    ensures |JoinWith(group + [word], " ")| == |JoinWith(group, " ")| + 1 + |word|
    decreases |group|
  {
    var longer := group + [word];
    assert longer[0] == group[0];
    if |group| > 1 {
      assert longer[1..] == group[1..] + [word];
      JoinWithOneMore(group[1..], word);
    } else {
      assert longer[1..] == [word];
    }
  }

  /** A grouping with a non-empty group has words. */
  lemma {:induction false} FlattenNonEmpty(groups: seq<seq<string>>, g: nat)
    requires g < |groups| && groups[g] != []
    ensures Flatten(groups) != []
    decreases |groups|
  {
    if g < |groups| - 1 {
      var init := groups[..|groups| - 1];
      assert init[g] == groups[g];
      FlattenNonEmpty(init, g);
    }
  }

  /** The last group of a valid grouping of some words holds a word. */
  lemma LastGroupNonEmpty(words: seq<string>, maxTokens: nat, groups: seq<seq<string>>)
    requires words != [] && ValidGrouping(words, maxTokens, groups)
    ensures groups != [] && groups[|groups| - 1] != []
  {
    var init := groups[..|groups| - 1];
    assert groups == init + [groups[|groups| - 1]];
    FlattenAppend(init, groups[|groups| - 1]);
    if |groups| == 1 {
      assert init == [];
    }
  }

  /** Removing the last word from a last group of several words leaves a valid grouping
      of the words before it. */
  lemma DropFromLongGroup(words: seq<string>, maxTokens: nat, init: seq<seq<string>>, last: seq<string>)
    requires |last| > 1 && ValidGrouping(words, maxTokens, init + [last])
    ensures words != [] && words[|words| - 1] == last[|last| - 1]
    ensures |JoinWith(last, " ")| <= maxTokens
    ensures ValidGrouping(words[..|words| - 1], maxTokens, init + [last[..|last| - 1]])
  {
    var shorter := last[..|last| - 1];
    var word := last[|last| - 1];
    assert last == shorter + [word];
    FlattenAppend(init, last);
    FlattenAppend(init, shorter);
    assert words == (Flatten(init) + shorter) + [word];
    assert words[..|words| - 1] == Flatten(init) + shorter;
    FitOrSingleAppend(maxTokens, init, last);
    FitOrSingleAppend(maxTokens, init, shorter);
    JoinWithOneMore(shorter, word);
    OnlyFirstMayBeEmptyAppend(init, last);
    OnlyFirstMayBeEmptyAppend(init, shorter);
    ClosedWhenFullAppend(maxTokens, init, last);
    ClosedWhenFullAppend(maxTokens, init, shorter);
    assert shorter[0] == last[0];
    assert words[..|words| - 1][0] == words[0];
    assert (init + [shorter])[0] == (if init == [] then shorter else init[0]);
    assert (init + [last])[0] == (if init == [] then last else init[0]);
  }

  /** Removing a last group of one word leaves a valid grouping of the words before it,
      except that a lone empty first group goes with it; and the groups before it say
      how the chunker placed that word. */
  lemma DropSingleGroup(words: seq<string>, maxTokens: nat, init: seq<seq<string>>, word: string)
    requires ValidGrouping(words, maxTokens, init + [[word]])
    ensures words == Flatten(init) + [word]
    ensures init == [] ==> |word| <= maxTokens
    ensures init == [[]] ==> |word| > maxTokens && Flatten(init) == []
    ensures init != [] && init != [[]] ==>
              && ValidGrouping(Flatten(init), maxTokens, init)
              && |JoinWith(init[|init| - 1] + [word], " ")| > maxTokens
  {
    FlattenAppend(init, [word]);
    FitOrSingleAppend(maxTokens, init, [word]);
    OnlyFirstMayBeEmptyAppend(init, [word]);
    ClosedWhenFullAppend(maxTokens, init, [word]);
    assert (init + [[word]])[0] == (if init == [] then [word] else init[0]);
    if init == [[]] {
      FlattenAppend([], []);
    } else if init != [] {
      FlattenNonEmpty(init, if |init| > 1 then 1 else 0);
      assert words[0] == Flatten(init)[0];
    }
  }

  /** DropLastWord and AddWord when the last group holds several words. */
  lemma DropLastWordLong(words: seq<string>, maxTokens: nat, groups: seq<seq<string>>)
    requires groups != [] && |groups[|groups| - 1]| > 1
    requires ValidGrouping(words, maxTokens, groups)
    ensures words != []
    ensures ValidGrouping(words[..|words| - 1], maxTokens, DropLastWord(groups))
    ensures groups == AddWord(DropLastWord(groups), words[|words| - 1], maxTokens)
  {
    var init := groups[..|groups| - 1];
    var last := groups[|groups| - 1];
    var shorter := last[..|last| - 1];
    assert groups == init + [last];
    DropFromLongGroup(words, maxTokens, init, last);
    assert DropLastWord(groups) == init + [shorter];
    assert shorter + [last[|last| - 1]] == last;
    assert (init + [shorter])[..|init|] == init;
  }

  /** DropLastWord and AddWord when the last group holds one word. */
  lemma DropLastWordSingle(words: seq<string>, maxTokens: nat, groups: seq<seq<string>>)
    requires groups != [] && |groups[|groups| - 1]| == 1
    requires ValidGrouping(words, maxTokens, groups)
    ensures words != []
    ensures ValidGrouping(words[..|words| - 1], maxTokens, DropLastWord(groups))
    ensures groups == AddWord(DropLastWord(groups), words[|words| - 1], maxTokens)
  {
    var init := groups[..|groups| - 1];
    var last := groups[|groups| - 1];
    var word := last[0];
    assert last == [word];
    assert groups == init + [last];
    DropSingleGroup(words, maxTokens, init, word);
    assert words[..|words| - 1] == Flatten(init);
  }

  /** Every valid grouping of some words is the chunker's step applied to a valid
      grouping of all the words but the last. */
  lemma DropLastWordValid(words: seq<string>, maxTokens: nat, groups: seq<seq<string>>)
    requires words != [] && ValidGrouping(words, maxTokens, groups)
    ensures groups != []
    ensures ValidGrouping(words[..|words| - 1], maxTokens, DropLastWord(groups))
    ensures groups == AddWord(DropLastWord(groups), words[|words| - 1], maxTokens)
  {
    LastGroupNonEmpty(words, maxTokens, groups);
    if |groups[|groups| - 1]| > 1 {
      DropLastWordLong(words, maxTokens, groups);
    } else {
      DropLastWordSingle(words, maxTokens, groups);
    }
  }

  /** Two valid groupings of the same words are the same grouping. */
  lemma {:induction false} GroupingUnique(words: seq<string>, maxTokens: nat, groups1: seq<seq<string>>, groups2: seq<seq<string>>)
    requires ValidGrouping(words, maxTokens, groups1)
    requires ValidGrouping(words, maxTokens, groups2)
    ensures groups1 == groups2
    decreases |words|
  {
    if words != [] {
      DropLastWordValid(words, maxTokens, groups1);
      DropLastWordValid(words, maxTokens, groups2);
      GroupingUnique(words[..|words| - 1], maxTokens, DropLastWord(groups1), DropLastWord(groups2));
    }
  }

  /** A text has at most one valid chunking for a size, so the contract of SplitIntoChunks
      determines its result. */
  lemma ChunkingUnique(text: string, maxTokens: nat, chunks1: seq<string>, chunks2: seq<string>)
    requires ValidChunking(text, maxTokens, chunks1)
    requires ValidChunking(text, maxTokens, chunks2)
    ensures chunks1 == chunks2
  {
    GroupingUnique(Split(text), maxTokens, SplitEach(chunks1), SplitEach(chunks2));
    assert |chunks1| == |chunks2|;
    forall i | 0 <= i < |chunks1| ensures chunks1[i] == chunks2[i] {
      assert SplitEach(chunks1)[i] == Split(chunks1[i]);
      assert SplitEach(chunks2)[i] == Split(chunks2[i]);
    }
  }

  // ---------------------------------------------------------------------------------
  // _trim_to_nearest_sentence
  // ---------------------------------------------------------------------------------

  /** The trimmer's running text after the given sentences: each one followed by a space. */
  function Spaced(sentences: seq<string>): string {
    if sentences == [] then ""
    else Spaced(sentences[..|sentences| - 1]) + sentences[|sentences| - 1] + " "
  }

  lemma SpacedOneMore(sentences: seq<string>, i: nat)
    requires i < |sentences|
    ensures Spaced(sentences[..i + 1]) == Spaced(sentences[..i]) + sentences[i] + " "
  {
    assert sentences[..i + 1][..i] == sentences[..i];
  }

  /** The trimmer's test for sentence j: the running text so far plus the sentence is no
      longer than the limit. */
  predicate Fits(sentences: seq<string>, limit: nat, j: nat)
    requires j < |sentences|
  {
    |Spaced(sentences[..j])| + |sentences[j]| <= limit
  }

  /** How many sentences the trimmer keeps, counting on from `from`: it stops at the first
      sentence that does not fit. */
  function KeptCount(sentences: seq<string>, limit: nat, from: nat): (n: nat)
    requires from <= |sentences|
    ensures from <= n <= |sentences|
    ensures forall j :: from <= j < n ==> Fits(sentences, limit, j)
    ensures n < |sentences| ==> !Fits(sentences, limit, n)
    decreases |sentences| - from
  {
    if from == |sentences| || !Fits(sentences, limit, from) then from
    else KeptCount(sentences, limit, from + 1)
  }

  /** What _trim_to_nearest_sentence returns for a text whose sentences are given: the
      longest run of leading sentences that fits in the length of the text, joined by
      spaces and stripped. */
  function TrimmedText(text: string, sentences: seq<string>): (r: string)
    ensures |r| <= |text|
    ensures sentences == [] || |sentences[0]| > |text| ==> r == ""
  {
    var n := KeptCount(sentences, |text|, 0);
    var spaced := Spaced(sentences[..n]);
    if n == 0 then
      assert spaced == "";
      Strip(spaced)
    else
      assert Fits(sentences, |text|, n - 1);
      var before := Spaced(sentences[..n - 1]);
      assert sentences[..n][..n - 1] == sentences[..n - 1];
      assert spaced == before + sentences[n - 1] + " ";
      StripDropsTrailingSpace(before + sentences[n - 1], ' ');
      Strip(spaced)
  }

  /** The kept sentences are exactly those before the first one that does not fit. */
  lemma TrimmedTextKeepsFittingPrefix(text: string, sentences: seq<string>, n: nat)
    requires n <= |sentences|
    requires forall j :: 0 <= j < n ==> Fits(sentences, |text|, j)
    requires n < |sentences| ==> !Fits(sentences, |text|, n)
    ensures TrimmedText(text, sentences) == Strip(Spaced(sentences[..n]))
  {
  }

  /** _trim_to_nearest_sentence, with the sentence list that the tokenizer gives for text. */
  method TrimToNearestSentence(text: string, sentences: seq<string>) returns (trimmed: string)
    ensures trimmed == TrimmedText(text, sentences)
  {
    var running := "";
    var i := 0;
    while i < |sentences|
      invariant i <= KeptCount(sentences, |text|, 0)
      invariant running == Spaced(sentences[..i])
    {
      if |running| + |sentences[i]| <= |text| {
        SpacedOneMore(sentences, i);
        running := running + sentences[i] + " ";
        i := i + 1;
      } else {
        break;
      }
    }
    TrimmedTextKeepsFittingPrefix(text, sentences, i);
    trimmed := Strip(running);
  }

  // ---------------------------------------------------------------------------------
  // generate_concise_summary
  // ---------------------------------------------------------------------------------

  /** Input length above which the transcript is cut before summarization. */
  const TranscriptLimit: nat := 5000
  /** Length above which the cleaned summary is cut before punctuation. */
  const SummaryLimit: nat := 3000
  /** The output length bounds passed to the summarizer. */
  const SummaryMaxLength: nat := 500
  const SummaryMinLength: nat := 150

  /** One run of generate_concise_summary: what each model was given and what it returned.
      The function's result is `output`. */
  datatype SummaryRun = SummaryRun(
    summarizerInput: string,  // what the summarizer is given
    summary: string,          // what it returns
    punctuatorInput: string,  // what the punctuation restorer is given
    output: string)           // what it returns, which is the function's result

  /** Cuts text to its first `limit` characters and trims that to whole sentences, as the
      two length gates of generate_concise_summary do. */
  function CutToSentences(text: string, limit: nat, tokenize: string -> seq<string>): (r: string)
    requires |text| > limit
    ensures |r| <= limit
  {
    TrimmedText(text[..limit], tokenize(text[..limit]))
  }

  /** generate_concise_summary: the summarizer receives the text, cut to sentences within
      5000 characters when longer; its summary is cleaned of special characters and, when
      longer than 3000 characters, cut to sentences within 3000; the punctuation restorer
      receives that and its output is the result. */
  function GenerateConciseSummary(
    text: string,
    summarize: (string, nat, nat) -> string,
    tokenize: string -> seq<string>,
    punctuate: string -> string): (run: SummaryRun)
    ensures |run.summarizerInput| <= TranscriptLimit
    ensures |text| <= TranscriptLimit ==> run.summarizerInput == text
    ensures |text| > TranscriptLimit ==>
              run.summarizerInput == TrimmedText(text[..TranscriptLimit], tokenize(text[..TranscriptLimit]))
    ensures run.summary == summarize(run.summarizerInput, SummaryMaxLength, SummaryMinLength)
    ensures |run.punctuatorInput| <= SummaryLimit
    ensures |CleanSpecialCharacters(run.summary)| <= SummaryLimit ==>
              run.punctuatorInput == CleanSpecialCharacters(run.summary)
    ensures |CleanSpecialCharacters(run.summary)| > SummaryLimit ==>
              var cleaned := CleanSpecialCharacters(run.summary);
              run.punctuatorInput == TrimmedText(cleaned[..SummaryLimit], tokenize(cleaned[..SummaryLimit]))
    ensures run.output == punctuate(run.punctuatorInput)
  {
    var input := if |text| > TranscriptLimit then CutToSentences(text, TranscriptLimit, tokenize) else text;
    var summary := summarize(input, SummaryMaxLength, SummaryMinLength);
    var cleaned := CleanSpecialCharacters(summary);
    var toPunctuate := if |cleaned| > SummaryLimit then CutToSentences(cleaned, SummaryLimit, tokenize) else cleaned;
    SummaryRun(input, summary, toPunctuate, punctuate(toPunctuate))
  }

  /** Nothing stops an empty transcript from reaching the summarizer: a corollary of the
      contract of GenerateConciseSummary that records the missing empty-input guard. */
  lemma EmptyTranscriptReachesSummarizer(
    summarize: (string, nat, nat) -> string,
    tokenize: string -> seq<string>,
    punctuate: string -> string)
    ensures GenerateConciseSummary("", summarize, tokenize, punctuate).summarizerInput == ""
  {
  }

  // ---------------------------------------------------------------------------------
  // format_transcript
  // ---------------------------------------------------------------------------------

  /** The chunk size format_transcript passes to the chunker. */
  const FormatChunkSize: nat := 1024

  /** format_transcript: the transcript is chunked, each chunk is given to the punctuation
      restorer once, in chunk order, and the restored chunks are joined by blank lines. */
  method FormatTranscript(transcript: string, punctuate: string -> string)
    returns (formatted: string, ghost chunks: seq<string>, ghost paragraphs: seq<string>)
    ensures ValidChunking(transcript, FormatChunkSize, chunks)
    ensures |paragraphs| == |chunks|
    ensures forall i :: 0 <= i < |chunks| ==> paragraphs[i] == punctuate(chunks[i])
    ensures formatted == JoinWith(paragraphs, "\n\n")
    ensures IsBlank(transcript) ==> formatted == ""
  {
    var cs := SplitIntoChunks(transcript, FormatChunkSize);
    var restored: seq<string> := [];
    for i := 0 to |cs|
      invariant |restored| == i
      invariant forall j :: 0 <= j < i ==> restored[j] == punctuate(cs[j])
    {
      restored := restored + [punctuate(cs[i])];
    }
    formatted := JoinWith(restored, "\n\n");
    chunks, paragraphs := cs, restored;
    SplitEmptyIffBlank(transcript);
  }
}
