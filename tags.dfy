/** The tag recommendation of youtube-analyzer.py:152-162: every word of every
    result title, lower-cased and stripped of "|,.-" at both ends, collected
    once each in first-seen order, joined with ", " and cut to 500 characters. */
module Tags {
  import opened Text

  /** The characters `w.strip("|,.-")` removes. */
  const StripChars: set<char> := {'|', ',', '.', '-'}

  /** `w.lower().strip("|,.-")`. */
  function Normalize(w: string): (r: string)
    ensures NoUpper(r)
    ensures r == [] || (r[0] !in StripChars && r[|r| - 1] !in StripChars)
    ensures |r| <= |w|
    ensures TrimmedOf(r, Lower(w), StripChars)
  {
    StripNoUpper(Lower(w), StripChars);
    Strip(Lower(w), StripChars)
  }

  /** Normalizing drops no character other than a leading or trailing "|,.-". */
  lemma NormalizeKeepsLetters(w: string, k: nat)
    requires k < |w| && LowerChar(w[k]) !in StripChars
    ensures LowerChar(w[k]) in Normalize(w)
  {
    assert Lower(w)[k] == LowerChar(w[k]);
    StripKeeps(Lower(w), StripChars, k);
  }

  /** Normalizing twice is normalizing once: the tags are already clean. */
  lemma NormalizeIdempotent(w: string)
    ensures Normalize(Normalize(w)) == Normalize(w)
  {
    var r := Normalize(w);
    LowerOfLowerIsIdentity(r);
    StripIdempotent(Lower(w), StripChars);
  }

  function NormalizeAll(ws: seq<string>): (r: seq<string>)
    ensures |r| == |ws|
    ensures forall i :: 0 <= i < |ws| ==> r[i] == Normalize(ws[i])
  {
    if ws == [] then [] else NormalizeAll(ws[..|ws| - 1]) + [Normalize(ws[|ws| - 1])]
  }

  lemma NormalizeAllSnoc(ws: seq<string>, j: nat)
    requires j < |ws|
    ensures NormalizeAll(ws[..j + 1]) == NormalizeAll(ws[..j]) + [Normalize(ws[j])]
  {
    assert ws[..j + 1][..j] == ws[..j];
  }

  /** Every value `w` takes in the nested loops of lines 154-156, in order. */
  function TitleWords(titles: seq<string>): seq<string> {
    if titles == [] then []
    else TitleWords(titles[..|titles| - 1]) + NormalizeAll(Words(titles[|titles| - 1]))
  }

  lemma TitleWordsSnoc(titles: seq<string>, i: nat)
    requires i < |titles|
    ensures TitleWords(titles[..i + 1]) == TitleWords(titles[..i]) + NormalizeAll(Words(titles[i]))
  {
    assert titles[..i + 1][..i] == titles[..i];
  }

  /** x is the normalized form of one of the words ws. */
  predicate NormalizesOneOf(ws: seq<string>, x: string) {
    exists j :: 0 <= j < |ws| && x == Normalize(ws[j])
  }

  /** x is the normalized form of a word of the title t. */
  predicate WordOf(t: string, x: string) {
    NormalizesOneOf(Words(t), x)
  }

  /** A candidate tag is the normalized form of a word of one of the titles. */
  predicate IsTitleWord(titles: seq<string>, x: string) {
    exists i :: 0 <= i < |titles| && WordOf(titles[i], x)
  }

  lemma {:induction false} NormalizeAllMembers(ws: seq<string>, x: string)
    ensures x in NormalizeAll(ws) <==> NormalizesOneOf(ws, x)
  {
    if x in NormalizeAll(ws) {
      var j :| 0 <= j < |ws| && NormalizeAll(ws)[j] == x;
    }
  }

  lemma {:induction false} IsTitleWordSnoc(titles: seq<string>, x: string)
    requires titles != []
    ensures IsTitleWord(titles, x) <==>
      IsTitleWord(titles[..|titles| - 1], x) || WordOf(titles[|titles| - 1], x)
  {
    var n := |titles| - 1;
    var init := titles[..n];
    if IsTitleWord(titles, x) {
      var i :| 0 <= i < |titles| && WordOf(titles[i], x);
      if i < n {
        assert init[i] == titles[i];
        assert IsTitleWord(init, x);
      } else {
        assert i == n;
      }
    }
    if IsTitleWord(init, x) {
      var i :| 0 <= i < |init| && WordOf(init[i], x);
      assert titles[i] == init[i];
      assert IsTitleWord(titles, x);
    }
    if WordOf(titles[n], x) {
      assert IsTitleWord(titles, x);
    }
  }

  /** The candidate tags are exactly the normalized words of the titles. */
  lemma {:induction false} TitleWordsMembers(titles: seq<string>, x: string)
    ensures x in TitleWords(titles) <==> IsTitleWord(titles, x)
    decreases |titles|
  {
    if titles != [] {
      var n := |titles| - 1;
      TitleWordsMembers(titles[..n], x);
      NormalizeAllMembers(Words(titles[n]), x);
      IsTitleWordSnoc(titles, x);
    }
  }

  // ---------------------------------------------------------------------------
  // First-seen deduplication

  /** xs without repeats, each value where it first occurs: the list the
      `if w not in kata_unik: kata_unik.append(w)` pattern builds. */
  function Dedup<T(==)>(xs: seq<T>): seq<T> {
    if xs == [] then []
    else
      var d := Dedup(xs[..|xs| - 1]);
      if xs[|xs| - 1] in d then d else d + [xs[|xs| - 1]]
  }

  /** Where x first occurs in xs. */
  function FirstIndex<T(==)>(xs: seq<T>, x: T): (i: nat)
    requires x in xs
    ensures i < |xs| && xs[i] == x
    ensures forall k :: 0 <= k < i ==> xs[k] != x
  {
    if xs[0] == x then 0 else 1 + FirstIndex(xs[1..], x)
  }

  predicate NoDuplicates<T(==)>(s: seq<T>) {
    forall i, j :: 0 <= i < j < |s| ==> s[i] != s[j]
  }

  lemma {:induction false} DedupMembers<T>(xs: seq<T>)
    ensures forall x :: x in Dedup(xs) <==> x in xs
    decreases |xs|
  {
    if xs != [] {
      DedupMembers(xs[..|xs| - 1]);
      assert xs == xs[..|xs| - 1] + [xs[|xs| - 1]];
    }
  }

  lemma {:induction false} DedupNoDuplicates<T>(xs: seq<T>)
    ensures NoDuplicates(Dedup(xs))
    decreases |xs|
  {
    if xs != [] {
      DedupNoDuplicates(xs[..|xs| - 1]);
    }
  }

  lemma FirstIndexOfAppend<T>(xs: seq<T>, y: T, x: T)
    requires x in xs + [y]
    ensures x in xs ==> FirstIndex(xs + [y], x) == FirstIndex(xs, x)
    ensures x !in xs ==> FirstIndex(xs + [y], x) == |xs|
  {
    assert forall k :: 0 <= k < |xs| ==> (xs + [y])[k] == xs[k];
  }

  lemma DedupSnoc<T>(xs: seq<T>, x: T)
    ensures Dedup(xs + [x]) == if x in Dedup(xs) then Dedup(xs) else Dedup(xs) + [x]
  {
    assert (xs + [x])[..|xs|] == xs;
  }

  /** The tags come in the order their words were first met. */
  lemma {:induction false} DedupFirstSeenOrder<T>(xs: seq<T>)
    ensures forall x :: x in Dedup(xs) ==> x in xs
    ensures forall i, j :: 0 <= i < j < |Dedup(xs)| ==>
      FirstIndex(xs, Dedup(xs)[i]) < FirstIndex(xs, Dedup(xs)[j])
    decreases |xs|
  {
    DedupMembers(xs);
    if xs != [] {
      var init, last := xs[..|xs| - 1], xs[|xs| - 1];
      assert xs == init + [last];
      DedupFirstSeenOrder(init);
      var d := Dedup(init);
      DedupMembers(init);
      forall i, j | 0 <= i < j < |Dedup(xs)|
        ensures FirstIndex(xs, Dedup(xs)[i]) < FirstIndex(xs, Dedup(xs)[j])
      {
        FirstIndexOfAppend(init, last, Dedup(xs)[i]);
        FirstIndexOfAppend(init, last, Dedup(xs)[j]);
        if j == |d| {
          assert Dedup(xs)[i] == d[i];
        }
      }
    }
  }

  // ---------------------------------------------------------------------------
  // Lines 153-158, as written

  /** One pass of the inner loop: the list grows by the next normalized word
      exactly when that word is new. */
  lemma AddStep(seen: seq<string>, ws: seq<string>, j: nat)
    requires j < |ws|
    ensures
      var d := Dedup(seen + NormalizeAll(ws[..j]));
      Dedup(seen + NormalizeAll(ws[..j + 1])) == if Normalize(ws[j]) in d then d else d + [Normalize(ws[j])]
  {
    NormalizeAllSnoc(ws, j);
    assert seen + NormalizeAll(ws[..j + 1]) == (seen + NormalizeAll(ws[..j])) + [Normalize(ws[j])];
    DedupSnoc(seen + NormalizeAll(ws[..j]), Normalize(ws[j]));
  }

  lemma AllPrefixes(seen: seq<string>, ws: seq<string>)
    ensures seen + NormalizeAll(ws[..0]) == seen
    ensures ws[..|ws|] == ws
  {
  }

  /** The inner loop of lines 155-158 for one title's words: appends each
      normalized word that `kataUnik` does not hold yet. */
  method AddNewWords(kataUnik: seq<string>, ws: seq<string>, ghost seen: seq<string>)
    returns (result: seq<string>)
    requires kataUnik == Dedup(seen)
    ensures result == Dedup(seen + NormalizeAll(ws))
  {
    AllPrefixes(seen, ws);
    result := kataUnik;
    for j := 0 to |ws|
      invariant result == Dedup(seen + NormalizeAll(ws[..j]))
    {
      var w := Normalize(ws[j]);
      AddStep(seen, ws, j);
      if w !in result {
        result := result + [w];
      }
    }
  }

  /** The loops of lines 153-158: `kata_unik` ends up as the first-seen
      deduplication of the normalized title words. */
  method CollectTags(titles: seq<string>) returns (kataUnik: seq<string>)
    ensures kataUnik == Dedup(TitleWords(titles))
    ensures NoDuplicates(kataUnik)
    ensures forall x :: x in kataUnik <==> x in TitleWords(titles)
    ensures forall x :: x in kataUnik <==> IsTitleWord(titles, x)
    ensures forall i, j :: 0 <= i < j < |kataUnik| ==>
      FirstIndex(TitleWords(titles), kataUnik[i]) < FirstIndex(TitleWords(titles), kataUnik[j])
  {
    kataUnik := [];
    for i := 0 to |titles|
      invariant kataUnik == Dedup(TitleWords(titles[..i]))
    {
      kataUnik := AddNewWords(kataUnik, Words(titles[i]), TitleWords(titles[..i]));
      TitleWordsSnoc(titles, i);
    }
    assert titles[..|titles|] == titles;
    DedupNoDuplicates(TitleWords(titles));
    DedupMembers(TitleWords(titles));
    DedupFirstSeenOrder(TitleWords(titles));
    forall x {
      TitleWordsMembers(titles, x);
    }
  }

  /** A word made only of the characters "|,.-" normalizes to the empty
      string. */
  lemma SeparatorNormalizesToNothing(w: string)
    requires forall k :: 0 <= k < |w| ==> w[k] in StripChars
    ensures Normalize(w) == ""
  {
    forall k | 0 <= k < |w|
      ensures Lower(w)[k] in StripChars
    {
      assert !IsUpper(w[k]);
    }
    StripAll(Lower(w), StripChars);
  }

  /** A title with a word made only of "|,.-" (the " | " between the parts of
      many video titles) puts the empty string among the tags. */
  lemma EmptyTagFromSeparator(titles: seq<string>, i: nat, j: nat)
    requires i < |titles| && j < |Words(titles[i])|
    requires forall k :: 0 <= k < |Words(titles[i])[j]| ==> Words(titles[i])[j][k] in StripChars
    ensures "" in Dedup(TitleWords(titles))
  {
    SeparatorNormalizesToNothing(Words(titles[i])[j]);
    assert NormalizesOneOf(Words(titles[i]), "");
    assert WordOf(titles[i], "");
    TitleWordsMembers(titles, "");
    DedupMembers(TitleWords(titles));
  }

  /** The title "a | b" has such a word. */
  lemma SeparatorIsAWord()
    ensures |Words("a | b")| > 1 && Words("a | b")[1] == "|"
  {
    var t := "a | b";
    assert LeadingSpaces(t) == 0;
    assert WordLength(t) == 1;
    var rest := t[1..];
    assert LeadingSpaces(rest) == 1;
    assert rest[1..] == "| b";
    assert WordLength("| b") == 1;
    assert "| b"[..1] == "|";
  }

  // ---------------------------------------------------------------------------
  // Lines 153-158 without empty tags

  /** xs without its empty strings. */
  function DropEmpty(xs: seq<string>): seq<string> {
    if xs == [] then []
    else DropEmpty(xs[..|xs| - 1]) + (if xs[|xs| - 1] == "" then [] else [xs[|xs| - 1]])
  }

  lemma {:induction false} DropEmptyMembers(xs: seq<string>)
    ensures forall x :: x in DropEmpty(xs) <==> x in xs && x != ""
    decreases |xs|
  {
    if xs != [] {
      DropEmptyMembers(xs[..|xs| - 1]);
      assert xs == xs[..|xs| - 1] + [xs[|xs| - 1]];
    }
  }

  /** The list the loops build when they also skip the empty word. */
  function DedupNonEmpty(xs: seq<string>): seq<string> {
    if xs == [] then []
    else
      var d := DedupNonEmpty(xs[..|xs| - 1]);
      if xs[|xs| - 1] == "" || xs[|xs| - 1] in d then d else d + [xs[|xs| - 1]]
  }

  lemma DedupNonEmptySnoc(xs: seq<string>, x: string)
    ensures DedupNonEmpty(xs + [x]) == if x == "" || x in DedupNonEmpty(xs) then DedupNonEmpty(xs) else DedupNonEmpty(xs) + [x]
  {
    assert (xs + [x])[..|xs|] == xs;
  }

  /** Skipping empty words while deduplicating is deduplicating the
      non-empty words. */
  lemma {:induction false} DedupNonEmptyIsDedupOfNonEmpty(xs: seq<string>)
    ensures DedupNonEmpty(xs) == Dedup(DropEmpty(xs))
    decreases |xs|
  {
    if xs != [] {
      var init, last := xs[..|xs| - 1], xs[|xs| - 1];
      DedupNonEmptyIsDedupOfNonEmpty(init);
      if last != "" {
        DedupSnoc(DropEmpty(init), last);
      } else {
        assert DropEmpty(init) + [] == DropEmpty(init);
      }
    }
  }

  lemma AddNonEmptyStep(seen: seq<string>, ws: seq<string>, j: nat)
    requires j < |ws|
    ensures
      var d := DedupNonEmpty(seen + NormalizeAll(ws[..j]));
      var w := Normalize(ws[j]);
      DedupNonEmpty(seen + NormalizeAll(ws[..j + 1])) == if w == "" || w in d then d else d + [w]
  {
    NormalizeAllSnoc(ws, j);
    assert seen + NormalizeAll(ws[..j + 1]) == (seen + NormalizeAll(ws[..j])) + [Normalize(ws[j])];
    DedupNonEmptySnoc(seen + NormalizeAll(ws[..j]), Normalize(ws[j]));
  }

  /** AddNewWords, skipping the words that strip down to nothing. */
  method AddNewNonEmptyWords(kataUnik: seq<string>, ws: seq<string>, ghost seen: seq<string>)
    returns (result: seq<string>)
    requires kataUnik == DedupNonEmpty(seen)
    ensures result == DedupNonEmpty(seen + NormalizeAll(ws))
  {
    AllPrefixes(seen, ws);
    result := kataUnik;
    for j := 0 to |ws|
      invariant result == DedupNonEmpty(seen + NormalizeAll(ws[..j]))
    {
      var w := Normalize(ws[j]);
      AddNonEmptyStep(seen, ws, j);
      if w != "" && w !in result {
        result := result + [w];
      }
    }
  }

  /** The facts CollectNonEmptyTags promises, about the list of all the
      normalized words. */
  lemma NonEmptyTagFacts(words: seq<string>)
    ensures NoDuplicates(Dedup(DropEmpty(words)))
    ensures forall x :: x in Dedup(DropEmpty(words)) <==> x != "" && x in words
    ensures forall i, j :: 0 <= i < j < |Dedup(DropEmpty(words))| ==>
      FirstIndex(words, Dedup(DropEmpty(words))[i]) < FirstIndex(words, Dedup(DropEmpty(words))[j])
  {
    var kept := DropEmpty(words);
    DedupNoDuplicates(kept);
    DedupMembers(kept);
    DedupFirstSeenOrder(kept);
    DropEmptyMembers(words);
    DropEmptyFirstIndex(words);
  }

  /** The loops of lines 153-158 with the word skipped when it strips down to
      nothing: the tags are the non-empty normalized words, once each, in
      first-seen order. */
  method CollectNonEmptyTags(titles: seq<string>) returns (kataUnik: seq<string>)
    ensures kataUnik == Dedup(DropEmpty(TitleWords(titles)))
    ensures NoDuplicates(kataUnik)
    ensures forall x :: x in kataUnik <==> x != "" && x in TitleWords(titles)
    ensures forall x :: x in kataUnik <==> x != "" && IsTitleWord(titles, x)
    ensures forall i, j :: 0 <= i < j < |kataUnik| ==>
      FirstIndex(TitleWords(titles), kataUnik[i]) < FirstIndex(TitleWords(titles), kataUnik[j])
  {
    kataUnik := [];
    for i := 0 to |titles|
      invariant kataUnik == DedupNonEmpty(TitleWords(titles[..i]))
    {
      kataUnik := AddNewNonEmptyWords(kataUnik, Words(titles[i]), TitleWords(titles[..i]));
      TitleWordsSnoc(titles, i);
    }
    assert titles[..|titles|] == titles;
    DedupNonEmptyIsDedupOfNonEmpty(TitleWords(titles));
    NonEmptyTagFacts(TitleWords(titles));
    forall x {
      TitleWordsMembers(titles, x);
    }
  }

  /** Dropping the empty strings keeps the first-occurrence order of the rest. */
  lemma {:induction false} DropEmptyFirstIndex(xs: seq<string>)
    ensures forall x :: x in DropEmpty(xs) ==> x in xs
    ensures forall x, y :: x in DropEmpty(xs) && y in DropEmpty(xs) ==>
      (FirstIndex(DropEmpty(xs), x) < FirstIndex(DropEmpty(xs), y) <==> FirstIndex(xs, x) < FirstIndex(xs, y))
    decreases |xs|
  {
    DropEmptyMembers(xs);
    if xs != [] {
      var init, last := xs[..|xs| - 1], xs[|xs| - 1];
      assert xs == init + [last];
      DropEmptyFirstIndex(init);
      DropEmptyMembers(init);
      var d := DropEmpty(init);
      forall x, y | x in DropEmpty(xs) && y in DropEmpty(xs)
        ensures FirstIndex(DropEmpty(xs), x) < FirstIndex(DropEmpty(xs), y) <==> FirstIndex(xs, x) < FirstIndex(xs, y)
      {
        FirstIndexOfAppend(init, last, x);
        FirstIndexOfAppend(init, last, y);
        if last != "" {
          assert DropEmpty(xs) == d + [last];
          FirstIndexOfAppend(d, last, x);
          FirstIndexOfAppend(d, last, y);
        } else {
          assert DropEmpty(xs) == d + [] == d;
        }
        var e := DropEmpty(xs);
        if x in init && y in init {
          assert x in d && y in d;
          assert FirstIndex(e, x) == FirstIndex(d, x) && FirstIndex(e, y) == FirstIndex(d, y);
          assert FirstIndex(xs, x) == FirstIndex(init, x) && FirstIndex(xs, y) == FirstIndex(init, y);
        } else if x in init {
          assert x in d && y == last;
          assert FirstIndex(e, x) == FirstIndex(d, x) < |d| == FirstIndex(e, y);
        } else if y in init {
          assert y in d && x == last;
          assert FirstIndex(e, y) == FirstIndex(d, y) < |d| == FirstIndex(e, x);
        }
      }
    }
  }

  // ---------------------------------------------------------------------------
  // Lines 160-162

  const TagSeparator: string := ", "
  const MaxTagLength: nat := 500
  const Ellipsis: string := "..."

  /** A string over 500 characters cut to its first 497 and "...". */
  function Truncated(s: string): (r: string)
    ensures |r| <= MaxTagLength
    ensures |s| <= MaxTagLength ==> r == s
    ensures |s| > MaxTagLength ==> |r| == MaxTagLength && r[..MaxTagLength - 3] == s[..MaxTagLength - 3] && r[MaxTagLength - 3..] == Ellipsis
  {
    if |s| > MaxTagLength then s[..MaxTagLength - 3] + Ellipsis else s
  }

  /** Lines 160-162: join the tags with ", " and cut the result to 500
      characters. */
  method TagString(kataUnik: seq<string>) returns (tagString: string)
    ensures tagString == Truncated(Join(kataUnik, TagSeparator))
    ensures |tagString| <= MaxTagLength
  {
    tagString := Join(kataUnik, TagSeparator);
    if |tagString| > MaxTagLength {
      tagString := tagString[..MaxTagLength - 3] + Ellipsis;
    }
  }

  /** The cut keeps the first 497 characters of a string as they are. */
  lemma TruncatedKeepsHead(s: string, a: nat, b: nat)
    requires a <= b <= |s| && b <= MaxTagLength - 3
    ensures b <= |Truncated(s)|
    ensures Truncated(s)[a..b] == s[a..b]
  {
    if |s| > MaxTagLength {
      var r := Truncated(s);
      assert r[a..b] == r[..MaxTagLength - 3][a..b];
      assert s[a..b] == s[..MaxTagLength - 3][a..b];
    }
  }

  /** A tag that ends within the first 497 characters of the joined list is
      kept whole, at its place, by the cut. */
  lemma TagSurvivesCut(kataUnik: seq<string>, i: nat)
    requires i < |kataUnik|
    requires Offset(kataUnik, TagSeparator, i) + |kataUnik[i]| <= MaxTagLength - 3
    ensures Offset(kataUnik, TagSeparator, i) + |kataUnik[i]| <= |Truncated(Join(kataUnik, TagSeparator))|
    ensures
      var o := Offset(kataUnik, TagSeparator, i);
      Truncated(Join(kataUnik, TagSeparator))[o..o + |kataUnik[i]|] == kataUnik[i]
  {
    var o := Offset(kataUnik, TagSeparator, i);
    JoinAt(kataUnik, TagSeparator, i);
    TruncatedKeepsHead(Join(kataUnik, TagSeparator), o, o + |kataUnik[i]|);
  }
}
