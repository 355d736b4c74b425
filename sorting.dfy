/** The result ordering of youtube-analyzer.py: the video record built from
    the API response and `urutkan_video`, which sorts the records in
    descending order of one key chosen by the user, or keeps the API's order. */
module Sorting {
  import opened Text

  /** One search result, the dict built at youtube-analyzer.py:83-91. The
      views-per-hour figure is a real here; how it is computed from the clock
      is not part of this model. */
  datatype Video = Video(
    id: string,
    title: string,
    channel: string,
    publishedAt: string,
    views: int,
    thumbnail: string,
    vph: real)

  /** The key a sorting mode compares. */
  datatype SortKey = ByViews | ByPublishedAt | ByVph

  /** What a sorting mode asks for: a descending sort on one key, or the
      order the search API returned. */
  datatype Ordering = Descending(key: SortKey) | ApiOrder

  const MostViewed: string := "Paling Banyak Ditonton"
  const Newest: string := "Terbaru"
  const HighestVph: string := "VPH Tertinggi"

  /** The branch `urutkan_video` takes for a mode string; every string other
      than the three sorting modes (the form's "Paling Relevan" among them)
      keeps the API order. */
  function OrderingOf(mode: string): (o: Ordering)
    ensures o == Descending(ByViews) <==> mode == MostViewed
    ensures o == Descending(ByPublishedAt) <==> mode == Newest
    ensures o == Descending(ByVph) <==> mode == HighestVph
    ensures o == ApiOrder <==> mode !in {MostViewed, Newest, HighestVph}
  {
    if mode == MostViewed then Descending(ByViews)
    else if mode == Newest then Descending(ByPublishedAt)
    else if mode == HighestVph then Descending(ByVph)
    else ApiOrder
  }

  /** The key of a ranks strictly above the key of b: Python's `<` on ints,
      on strings (code point by code point) and on numbers. */
  predicate Above(k: SortKey, a: Video, b: Video) {
    match k
    case ByViews => a.views > b.views
    case ByPublishedAt => LexLess(b.publishedAt, a.publishedAt)
    case ByVph => a.vph > b.vph
  }

  /** a and b carry equal keys. */
  predicate SameKey(k: SortKey, a: Video, b: Video) {
    match k
    case ByViews => a.views == b.views
    case ByPublishedAt => a.publishedAt == b.publishedAt
    case ByVph => a.vph == b.vph
  }

  /** The keys are totally ordered: of two records, exactly one ranks above
      the other or they tie. */
  lemma AboveTrichotomy(k: SortKey, a: Video, b: Video)
    ensures Above(k, a, b) || Above(k, b, a) || SameKey(k, a, b)
    ensures !(Above(k, a, b) && Above(k, b, a))
    ensures SameKey(k, a, b) ==> !Above(k, a, b)
  {
    if k == ByPublishedAt {
      LexLessTotal(a.publishedAt, b.publishedAt);
      LexLessIrreflexive(a.publishedAt);
      if LexLess(a.publishedAt, b.publishedAt) && LexLess(b.publishedAt, a.publishedAt) {
        LexLessTransitive(a.publishedAt, b.publishedAt, a.publishedAt);
      }
    }
  }

  lemma AboveTransitive(k: SortKey, a: Video, b: Video, c: Video)
    requires Above(k, a, b) && Above(k, b, c)
    ensures Above(k, a, c)
  {
    if k == ByPublishedAt {
      LexLessTransitive(c.publishedAt, b.publishedAt, a.publishedAt);
    }
  }

  /** "Ranks no higher than" is transitive too. */
  lemma NotAboveTransitive(k: SortKey, a: Video, b: Video, c: Video)
    requires !Above(k, a, b) && !Above(k, b, c)
    ensures !Above(k, a, c)
  {
    AboveTrichotomy(k, a, b);
    AboveTrichotomy(k, b, c);
    AboveTrichotomy(k, a, c);
    if Above(k, a, c) {
      if Above(k, b, a) {
        AboveTransitive(k, b, a, c);
      } else if Above(k, c, b) {
        AboveTransitive(k, a, c, b);
      }
    }
  }

  /** Non-increasing in the key: no record ranks above an earlier one. */
  ghost predicate IsDescending(k: SortKey, s: seq<Video>) {
    forall i, j :: 0 <= i < j < |s| ==> !Above(k, s[j], s[i])
  }

  /** The records of s whose key equals that of v, in their order in s.
      A sort is stable when it leaves this subsequence alone for every v. */
  function Ties(k: SortKey, v: Video, s: seq<Video>): seq<Video> {
    if s == [] then []
    else (if SameKey(k, s[0], v) then [s[0]] else []) + Ties(k, v, s[1..])
  }

  /** Puts x in front of the first record of t that does not rank above it. */
  function Insert(k: SortKey, x: Video, t: seq<Video>): (r: seq<Video>)
    ensures multiset(r) == multiset(t) + multiset{x}
    ensures |r| == |t| + 1
  {
    if t == [] || !Above(k, t[0], x) then [x] + t
    else
      assert t == [t[0]] + t[1..];
      [t[0]] + Insert(k, x, t[1..])
  }

  /** Stable descending sort on key k: `sorted(s, key=..., reverse=True)`. */
  function SortBy(k: SortKey, s: seq<Video>): (r: seq<Video>)
    ensures multiset(r) == multiset(s)
    ensures |r| == |s|
  {
    if s == [] then []
    else
      assert s == [s[0]] + s[1..];
      Insert(k, s[0], SortBy(k, s[1..]))
  }

  lemma {:induction false} InsertDescending(k: SortKey, x: Video, t: seq<Video>)
    requires IsDescending(k, t)
    ensures IsDescending(k, Insert(k, x, t))
    decreases |t|
  {
    var r := Insert(k, x, t);
    if t == [] || !Above(k, t[0], x) {
      forall i, j | 0 <= i < j < |r| ensures !Above(k, r[j], r[i]) {
        if i == 0 && j > 1 {
          NotAboveTransitive(k, t[j - 1], t[0], x);
        }
      }
    } else {
      var rest := Insert(k, x, t[1..]);
      InsertDescending(k, x, t[1..]);
      forall i, j | 0 <= i < j < |r| ensures !Above(k, r[j], r[i]) {
        if i == 0 {
          assert r[j] == rest[j - 1];
          assert rest[j - 1] in multiset(rest);
          if rest[j - 1] == x {
            AboveTrichotomy(k, t[0], x);
          } else {
            assert rest[j - 1] in multiset(t[1..]);
            var m :| 0 <= m < |t[1..]| && t[1..][m] == rest[j - 1];
            assert t[m + 1] == r[j];
          }
        }
      }
    }
  }

  lemma {:induction false} SortByDescending(k: SortKey, s: seq<Video>)
    ensures IsDescending(k, SortBy(k, s))
    decreases |s|
  {
    if s != [] {
      SortByDescending(k, s[1..]);
      InsertDescending(k, s[0], SortBy(k, s[1..]));
    }
  }

  lemma TiesCons(k: SortKey, v: Video, a: Video, s: seq<Video>)
    ensures Ties(k, v, [a] + s) == (if SameKey(k, a, v) then [a] else []) + Ties(k, v, s)
  {
    assert ([a] + s)[1..] == s;
  }

  /** Two records with different keys can trade places without disturbing
      any tie group. */
  lemma SwapTies(k: SortKey, v: Video, a: Video, b: Video, s: seq<Video>)
    requires Above(k, a, b)
    ensures Ties(k, v, [a] + ([b] + s)) == Ties(k, v, [b] + ([a] + s))
  {
    TiesCons(k, v, a, [b] + s);
    TiesCons(k, v, b, s);
    TiesCons(k, v, b, [a] + s);
    TiesCons(k, v, a, s);
    if SameKey(k, a, v) && SameKey(k, b, v) {
      AboveTrichotomy(k, a, b);
      assert false;
    }
  }

  lemma {:induction false} InsertKeepsTies(k: SortKey, v: Video, x: Video, t: seq<Video>)
    ensures Ties(k, v, Insert(k, x, t)) == Ties(k, v, [x] + t)
    decreases |t|
  {
    if t != [] && Above(k, t[0], x) {
      var rest := Insert(k, x, t[1..]);
      assert Insert(k, x, t) == [t[0]] + rest;
      InsertKeepsTies(k, v, x, t[1..]);
      TiesCons(k, v, t[0], rest);
      TiesCons(k, v, t[0], [x] + t[1..]);
      SwapTies(k, v, t[0], x, t[1..]);
      assert [t[0]] + t[1..] == t;
    }
  }

  /** The sort is stable: records with equal keys keep their input order. */
  lemma {:induction false} SortByStable(k: SortKey, v: Video, s: seq<Video>)
    ensures Ties(k, v, SortBy(k, s)) == Ties(k, v, s)
    decreases |s|
  {
    if s != [] {
      InsertKeepsTies(k, v, s[0], SortBy(k, s[1..]));
      assert ([s[0]] + SortBy(k, s[1..]))[1..] == SortBy(k, s[1..]);
      SortByStable(k, v, s[1..]);
    }
  }

  /** Sorting an already sorted list changes nothing. */
  lemma {:induction false} SortByOfDescending(k: SortKey, s: seq<Video>)
    requires IsDescending(k, s)
    ensures SortBy(k, s) == s
    decreases |s|
  {
    if s != [] {
      SortByOfDescending(k, s[1..]);
      assert s == [s[0]] + s[1..];
    }
  }

  lemma SortByIdempotent(k: SortKey, s: seq<Video>)
    ensures SortBy(k, SortBy(k, s)) == SortBy(k, s)
  {
    SortByDescending(k, s);
    SortByOfDescending(k, SortBy(k, s));
  }

  /** A descending sequence that keeps every tie group of s in order IS the
      stable sort of s: the three properties fix the result, so the model
      agrees with Python's sorted(..., reverse=True) whatever algorithm runs. */
  lemma {:induction false} StableSortIsUnique(k: SortKey, r: seq<Video>, q: seq<Video>)
    requires IsDescending(k, r) && IsDescending(k, q)
    requires forall v :: Ties(k, v, r) == Ties(k, v, q)
    ensures r == q
    decreases |r|
  {
    if r == [] || q == [] {
      HeadHasTies(k, r);
      HeadHasTies(k, q);
    } else {
      TopTiesWithEveryTop(k, r, q);
      assert Ties(k, r[0], r)[0] == r[0];
      assert Ties(k, r[0], q)[0] == q[0];
      assert r[0] == q[0];
      forall v ensures Ties(k, v, r[1..]) == Ties(k, v, q[1..]) {
        var head := if SameKey(k, r[0], v) then [r[0]] else [];
        assert Ties(k, v, r) == head + Ties(k, v, r[1..]);
        assert Ties(k, v, q) == head + Ties(k, v, q[1..]);
        assert Ties(k, v, r) == Ties(k, v, q);
        assert (head + Ties(k, v, r[1..]))[|head|..] == Ties(k, v, r[1..]);
        assert (head + Ties(k, v, q[1..]))[|head|..] == Ties(k, v, q[1..]);
      }
      StableSortIsUnique(k, r[1..], q[1..]);
      assert r == [r[0]] + r[1..] && q == [q[0]] + q[1..];
    }
  }

  lemma HeadHasTies(k: SortKey, s: seq<Video>)
    ensures s != [] ==> Ties(k, s[0], s) != []
  {
  }

  lemma InTies(k: SortKey, v: Video, s: seq<Video>, x: Video)
    requires x in Ties(k, v, s)
    ensures x in s && SameKey(k, x, v)
  {
  }

  lemma {:induction false} TiesOfMember(k: SortKey, s: seq<Video>, i: nat)
    requires i < |s|
    ensures s[i] in Ties(k, s[i], s)
    decreases i
  {
    if i > 0 {
      TiesOfMember(k, s[1..], i - 1);
    }
  }

  /** The heads of two descending sequences with the same tie groups tie. */
  lemma TopTiesWithEveryTop(k: SortKey, r: seq<Video>, q: seq<Video>)
    requires r != [] && q != []
    requires IsDescending(k, r) && IsDescending(k, q)
    requires forall v :: Ties(k, v, r) == Ties(k, v, q)
    ensures SameKey(k, r[0], q[0])
  {
    TiesOfMember(k, r, 0);
    assert r[0] in Ties(k, r[0], q);
    InTies(k, r[0], q, r[0]);
    var m :| 0 <= m < |q| && q[m] == r[0];
    TiesOfMember(k, q, 0);
    assert q[0] in Ties(k, q[0], r);
    InTies(k, q[0], r, q[0]);
    var n :| 0 <= n < |r| && r[n] == q[0];
    if m > 0 {
      assert !Above(k, q[m], q[0]);
    }
    if n > 0 {
      assert !Above(k, r[n], r[0]);
    }
    AboveTrichotomy(k, r[0], q[0]);
  }

  /** `urutkan_video(data, mode)`: a stable descending sort by views,
      publishedAt or vph, or data itself for any other mode. */
  function SortVideos(data: seq<Video>, mode: string): (r: seq<Video>)
    ensures multiset(r) == multiset(data) && |r| == |data|
    ensures OrderingOf(mode) == ApiOrder ==> r == data
    ensures OrderingOf(mode).Descending? ==> IsDescending(OrderingOf(mode).key, r)
    ensures OrderingOf(mode).Descending? ==>
      forall v :: Ties(OrderingOf(mode).key, v, r) == Ties(OrderingOf(mode).key, v, data)
  {
    match OrderingOf(mode)
    case ApiOrder => data
    case Descending(k) =>
      SortByDescending(k, data);
      assert forall v :: Ties(k, v, SortBy(k, data)) == Ties(k, v, data) by {
        forall v { SortByStable(k, v, data); }
      }
      SortBy(k, data)
  }
}
