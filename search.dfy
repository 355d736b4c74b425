/** The body of `if submit:` in youtube-analyzer.py:108-165 without the page
    layout: order the fetched videos, list their titles, offer the first five
    as title suggestions and build the tag string from all of them. */
module Search {
  import opened Text
  import opened Sorting
  import opened Tags

  /** The titles of vs, in order. */
  function TitlesOf(vs: seq<Video>): (ts: seq<string>)
    ensures |ts| == |vs|
    ensures forall i :: 0 <= i < |vs| ==> ts[i] == vs[i].title
  {
    if vs == [] then [] else TitlesOf(vs[..|vs| - 1]) + [vs[|vs| - 1].title]
  }

  /** Lines 120-144 without the display: `all_titles.append(v["title"])` for
      every video, in order. */
  method CollectTitles(videos: seq<Video>) returns (allTitles: seq<string>)
    ensures allTitles == TitlesOf(videos)
  {
    allTitles := [];
    for i := 0 to |videos|
      invariant allTitles == TitlesOf(videos[..i])
    {
      assert videos[..i + 1][..i] == videos[..i];
      allTitles := allTitles + [videos[i].title];
    }
    assert videos[..|videos|] == videos;
  }

  const SuggestionCount: nat := 5

  /** `all_titles[:5]` (line 148). */
  function TitleSuggestions(titles: seq<string>): (r: seq<string>)
    ensures |r| == if |titles| < SuggestionCount then |titles| else SuggestionCount
    ensures forall i :: 0 <= i < |r| ==> r[i] == titles[i]
  {
    if |titles| < SuggestionCount then titles else titles[..SuggestionCount]
  }

  /** Under a sorting mode the suggestions are the top of the ordering: a
      fetched video is either among the first five shown or ranks no higher
      than any suggested one. */
  lemma {:induction false} SuggestionsAreTop(fetched: seq<Video>, mode: string, v: Video, i: nat)
    requires OrderingOf(mode).Descending?
    requires v in fetched
    requires i < |fetched| && i < SuggestionCount
    ensures
      var videos := SortVideos(fetched, mode);
      TitleSuggestions(TitlesOf(videos))[i] == videos[i].title
      && ((exists j :: 0 <= j < SuggestionCount && j < |videos| && videos[j] == v)
          || !Above(OrderingOf(mode).key, v, videos[i]))
  {
    var videos := SortVideos(fetched, mode);
    var k := OrderingOf(mode).key;
    assert IsDescending(k, videos);
    assert v in multiset(fetched);
    assert v in videos;
    var j :| 0 <= j < |videos| && videos[j] == v;
    if j >= SuggestionCount {
      assert !Above(k, videos[j], videos[i]);
    }
  }

  /** v's title has a word that normalizes to x. */
  predicate InSomeTitle(vs: seq<Video>, x: string) {
    exists v :: v in vs && WordOf(v.title, x)
  }

  lemma InSomeTitleIsTitleWord(vs: seq<Video>, x: string)
    ensures InSomeTitle(vs, x) <==> IsTitleWord(TitlesOf(vs), x)
  {
    var ts := TitlesOf(vs);
    if InSomeTitle(vs, x) {
      var v :| v in vs && WordOf(v.title, x);
      var i :| 0 <= i < |vs| && vs[i] == v;
      assert WordOf(ts[i], x);
    }
    if IsTitleWord(ts, x) {
      var i :| 0 <= i < |ts| && WordOf(ts[i], x);
      assert vs[i] in vs;
    }
  }

  /** The words videos's titles normalize to are those of fetched's when
      videos is fetched reordered. */
  lemma SortKeepsTitleWords(fetched: seq<Video>, videos: seq<Video>, x: string)
    requires multiset(videos) == multiset(fetched)
    ensures InSomeTitle(videos, x) <==> InSomeTitle(fetched, x)
  {
    if InSomeTitle(videos, x) {
      var v :| v in videos && WordOf(v.title, x);
      assert v in multiset(videos);
      assert v in fetched;
    }
    if InSomeTitle(fetched, x) {
      var v :| v in fetched && WordOf(v.title, x);
      assert v in multiset(fetched);
      assert v in videos;
    }
  }

  /** The tags of a search, as lines 153-158 build them, are the normalized
      words of the fetched titles whatever the sort mode: the mode only
      changes their order. An empty word is among them when a title has a
      word made only of strip characters. */
  lemma TagWordsIgnoreMode(fetched: seq<Video>, mode: string, x: string)
    ensures x in Dedup(TitleWords(TitlesOf(SortVideos(fetched, mode))))
      <==> InSomeTitle(fetched, x)
  {
    var videos := SortVideos(fetched, mode);
    DedupMembers(TitleWords(TitlesOf(videos)));
    TitleWordsMembers(TitlesOf(videos), x);
    InSomeTitleIsTitleWord(videos, x);
    SortKeepsTitleWords(fetched, videos, x);
  }

  /** With empty words skipped, the tags are the non-empty normalized words
      of the fetched titles, again whatever the sort mode. */
  lemma NonEmptyTagWordsIgnoreMode(fetched: seq<Video>, mode: string, x: string)
    ensures x in Dedup(DropEmpty(TitleWords(TitlesOf(SortVideos(fetched, mode)))))
      <==> x != "" && InSomeTitle(fetched, x)
  {
    var videos := SortVideos(fetched, mode);
    var words := TitleWords(TitlesOf(videos));
    DedupMembers(DropEmpty(words));
    DropEmptyMembers(words);
    TitleWordsMembers(TitlesOf(videos), x);
    InSomeTitleIsTitleWord(videos, x);
    SortKeepsTitleWords(fetched, videos, x);
  }

  /** What one search shows: an error when nothing was found, otherwise the
      ordered videos, the title suggestions and the tag string. */
  datatype Report =
    | NoVideos
    | Found(videos: seq<Video>, suggestions: seq<string>, tagString: string)

  /** Lines 108-162, with the fetched videos as input. The tag string is
      built by the loops as written, so it can hold an empty tag. */
  method RunSearch(fetched: seq<Video>, sortOption: string) returns (report: Report)
    ensures report == NoVideos <==> fetched == []
    ensures report.Found? ==>
      && report.videos == SortVideos(fetched, sortOption)
      && report.suggestions == TitleSuggestions(TitlesOf(report.videos))
      && report.tagString == Truncated(Join(Dedup(TitleWords(TitlesOf(report.videos))), TagSeparator))
      && |report.tagString| <= MaxTagLength
  {
    var videos := SortVideos(fetched, sortOption);
    if videos == [] {
      report := NoVideos;
    } else {
      var allTitles := CollectTitles(videos);
      var suggestions := TitleSuggestions(allTitles);
      var kataUnik := CollectTags(allTitles);
      var tagString := TagString(kataUnik);
      report := Found(videos, suggestions, tagString);
    }
  }

  /** RunSearch with the tag loops corrected to skip words that strip to
      nothing: the tag string joins only non-empty tags. */
  method RunSearchWithoutEmptyTags(fetched: seq<Video>, sortOption: string) returns (report: Report)
    ensures report == NoVideos <==> fetched == []
    ensures report.Found? ==>
      && report.videos == SortVideos(fetched, sortOption)
      && report.suggestions == TitleSuggestions(TitlesOf(report.videos))
      && report.tagString == Truncated(Join(Dedup(DropEmpty(TitleWords(TitlesOf(report.videos)))), TagSeparator))
      && |report.tagString| <= MaxTagLength
  {
    var videos := SortVideos(fetched, sortOption);
    if videos == [] {
      report := NoVideos;
    } else {
      var allTitles := CollectTitles(videos);
      var suggestions := TitleSuggestions(allTitles);
      var kataUnik := CollectNonEmptyTags(allTitles);
      var tagString := TagString(kataUnik);
      report := Found(videos, suggestions, tagString);
    }
  }
}
