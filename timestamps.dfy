/** The "Terbaru" mode of youtube-analyzer.py:100-101 compares the
    `publishedAt` strings as text. The API writes them in the fixed-width UTC
    form of section 5.6 of RFC 3339, "YYYY-MM-DDTHH:MM:SSZ" (the format the
    script hands to strptime at lines 34 and 46); for such strings text order
    is time order, so the newest video comes first. */
module Timestamps {
  import opened Text
  import opened Sorting

  /** A UTC instant by its calendar fields. */
  datatype Instant = Instant(year: nat, month: nat, day: nat, hour: nat, minute: nat, second: nat)

  /** The field ranges of section 5.6 of RFC 3339 (second 60 is a leap second). */
  predicate ValidInstant(t: Instant) {
    t.year <= 9999 && 1 <= t.month <= 12 && 1 <= t.day <= 31
    && t.hour <= 23 && t.minute <= 59 && t.second <= 60
  }

  function Fields(t: Instant): seq<nat> {
    [t.year, t.month, t.day, t.hour, t.minute, t.second]
  }

  const Widths: seq<nat> := [4, 2, 2, 2, 2, 2]
  const Separators: seq<string> := ["-", "-", "T", ":", ":", "Z"]

  /** Lexicographic order on field tuples: the earlier of two calendar
      instants is the one with the smaller year, then month, and so on. */
  predicate TupleLess(a: seq<nat>, b: seq<nat>)
    requires |a| == |b|
  {
    a != [] && (a[0] < b[0] || (a[0] == b[0] && TupleLess(a[1..], b[1..])))
  }

  predicate Earlier(t1: Instant, t2: Instant) {
    TupleLess(Fields(t1), Fields(t2))
  }

  function Pow10(w: nat): (p: nat)
    ensures p >= 1
  {
    if w == 0 then 1 else 10 * Pow10(w - 1)
  }

  /** n in exactly w decimal digits, zero-padded on the left (strftime's %Y,
      %m, %d, %H, %M and %S). */
  function Padded(n: nat, w: nat): (s: string)
    ensures |s| == w && AllDigits(s)
  {
    if w == 0 then [] else Padded(n / 10, w - 1) + [DigitChar(n % 10)]
  }

  /** Fields written with their widths, each followed by its separator. */
  function Render(ns: seq<nat>, ws: seq<nat>, seps: seq<string>): string
    requires |ns| == |ws| == |seps|
  {
    if ns == [] then [] else Padded(ns[0], ws[0]) + (seps[0] + Render(ns[1..], ws[1..], seps[1..]))
  }

  function Format(t: Instant): string {
    Render(Fields(t), Widths, Separators)
  }

  lemma {:induction false} PaddedOrder(a: nat, b: nat, w: nat)
    requires a < Pow10(w) && b < Pow10(w)
    ensures LexLess(Padded(a, w), Padded(b, w)) <==> a < b
    ensures Padded(a, w) == Padded(b, w) <==> a == b
  {
    if w == 0 {
      LexLessIrreflexive([]);
    } else {
      PaddedOrder(a / 10, b / 10, w - 1);
      var pa, pb := Padded(a / 10, w - 1), Padded(b / 10, w - 1);
      LexLessAppend(pa, pb, [DigitChar(a % 10)], [DigitChar(b % 10)]);
      assert Padded(a, w) == pa + [DigitChar(a % 10)];
      assert Padded(b, w) == pb + [DigitChar(b % 10)];
      if Padded(a, w) == Padded(b, w) {
        assert pa == Padded(a, w)[..w - 1] == Padded(b, w)[..w - 1] == pb;
        assert DigitChar(a % 10) == Padded(a, w)[w - 1] == DigitChar(b % 10);
      }
      assert a == 10 * (a / 10) + a % 10;
      assert b == 10 * (b / 10) + b % 10;
    }
  }

  lemma LexLessCommonHead(p: string, c: string, d: string)
    ensures LexLess(p + c, p + d) <==> LexLess(c, d)
  {
    LexLessAppend(p, p, c, d);
    LexLessIrreflexive(p);
  }

  /** Rendered field tuples compare as text exactly as they compare as
      numbers, whenever every field fits its width. */
  lemma {:induction false} RenderOrder(a: seq<nat>, b: seq<nat>, ws: seq<nat>, seps: seq<string>)
    requires |a| == |b| == |ws| == |seps|
    requires forall i :: 0 <= i < |a| ==> a[i] < Pow10(ws[i]) && b[i] < Pow10(ws[i])
    ensures LexLess(Render(a, ws, seps), Render(b, ws, seps)) <==> TupleLess(a, b)
    decreases |a|
  {
    if a == [] {
      LexLessIrreflexive([]);
    } else {
      RenderOrder(a[1..], b[1..], ws[1..], seps[1..]);
      PaddedOrder(a[0], b[0], ws[0]);
      var ra, rb := Render(a[1..], ws[1..], seps[1..]), Render(b[1..], ws[1..], seps[1..]);
      LexLessAppend(Padded(a[0], ws[0]), Padded(b[0], ws[0]), seps[0] + ra, seps[0] + rb);
      LexLessCommonHead(seps[0], ra, rb);
    }
  }

  /** For well-formed timestamps, string order is chronological order. */
  lemma TextOrderIsTimeOrder(t1: Instant, t2: Instant)
    requires ValidInstant(t1) && ValidInstant(t2)
    ensures LexLess(Format(t1), Format(t2)) <==> Earlier(t1, t2)
  {
    assert Pow10(2) == 100;
    assert Pow10(4) == 10000;
    RenderOrder(Fields(t1), Fields(t2), Widths, Separators);
  }

  /** Under "Terbaru" no video published later follows one published earlier. */
  lemma NewestFirst(data: seq<Video>, i: nat, j: nat, t1: Instant, t2: Instant)
    requires ValidInstant(t1) && ValidInstant(t2)
    requires i < j < |data|
    requires SortVideos(data, Newest)[i].publishedAt == Format(t1)
    requires SortVideos(data, Newest)[j].publishedAt == Format(t2)
    ensures !Earlier(t1, t2)
  {
    var r := SortVideos(data, Newest);
    assert !Above(ByPublishedAt, r[j], r[i]);
    TextOrderIsTimeOrder(t1, t2);
  }
}
