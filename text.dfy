/** The Python string built-ins the analyzer relies on (str.split, str.lower,
    str.strip, str.join, str(int) and the `<` on strings), for ASCII text. */
module Text {

  datatype Option<T> = None | Some(value: T)

  // ---------------------------------------------------------------------------
  // Characters

  /** The ASCII characters Python's str.isspace() accepts: space, \t \n \v \f \r
      and the four separators 0x1c..0x1f. */
  predicate IsSpace(c: char) {
    c == ' ' || (9 <= c as int <= 13) || (28 <= c as int <= 31)
  }

  predicate IsUpper(c: char) {
    'A' <= c <= 'Z'
  }

  /** str.lower() restricted to ASCII: 'A'..'Z' become 'a'..'z', all else stays. */
  function LowerChar(c: char): (d: char)
    ensures !IsUpper(d)
    ensures IsUpper(c) ==> d as int == c as int + 32
    ensures !IsUpper(c) ==> d == c
  {
    if IsUpper(c) then (c as int + 32) as char else c
  }

  function Lower(s: string): (r: string)
    ensures |r| == |s|
    ensures forall i :: 0 <= i < |s| ==> r[i] == LowerChar(s[i])
  {
    if s == [] then [] else [LowerChar(s[0])] + Lower(s[1..])
  }

  predicate NoUpper(s: string) {
    forall i :: 0 <= i < |s| ==> !IsUpper(s[i])
  }

  lemma LowerOfLowerIsIdentity(s: string)
    requires NoUpper(s)
    ensures Lower(s) == s
  {
  }

  // ---------------------------------------------------------------------------
  // Scanning

  /** The length of the longest prefix of s whose characters all satisfy p. */
  function PrefixWhile(s: string, p: char -> bool): (k: nat)
    ensures k <= |s|
    ensures forall i :: 0 <= i < k ==> p(s[i])
    ensures k < |s| ==> !p(s[k])
  {
    if s == [] || !p(s[0]) then 0 else 1 + PrefixWhile(s[1..], p)
  }

  /** How many whitespace characters s starts with. */
  function LeadingSpaces(s: string): (k: nat)
    ensures k <= |s|
    ensures forall i :: 0 <= i < k ==> IsSpace(s[i])
    ensures k < |s| ==> !IsSpace(s[k])
  {
    if s == [] || !IsSpace(s[0]) then 0 else 1 + LeadingSpaces(s[1..])
  }

  /** How many non-whitespace characters s starts with. */
  function WordLength(s: string): (k: nat)
    ensures k <= |s|
    ensures forall i :: 0 <= i < k ==> !IsSpace(s[i])
    ensures k < |s| ==> IsSpace(s[k])
  {
    if s == [] || IsSpace(s[0]) then 0 else 1 + WordLength(s[1..])
  }

  /** The length of the longest suffix of s whose characters all satisfy p. */
  function SuffixWhile(s: string, p: char -> bool): (k: nat)
    ensures k <= |s|
    ensures forall i :: |s| - k <= i < |s| ==> p(s[i])
    ensures k < |s| ==> !p(s[|s| - k - 1])
  {
    if s == [] || !p(s[|s| - 1]) then 0 else 1 + SuffixWhile(s[..|s| - 1], p)
  }

  // ---------------------------------------------------------------------------
  // str.split() with no argument

  predicate NoSpace(s: string) {
    forall i :: 0 <= i < |s| ==> !IsSpace(s[i])
  }

  /** Every entry of ws is a non-empty run of non-whitespace. */
  predicate AllWords(ws: seq<string>) {
    forall i :: 0 <= i < |ws| ==> ws[i] != [] && NoSpace(ws[i])
  }

  /** Python's t.split(): the maximal runs of non-whitespace characters, in order;
      leading, trailing and repeated whitespace yield no empty words. */
  function Words(t: string): (ws: seq<string>)
    ensures AllWords(ws)
    decreases |t|
  {
    var j := LeadingSpaces(t);
    var s := t[j..];
    if s == [] then []
    else
      assert s[0] == t[j] && !IsSpace(s[0]);
      var k := WordLength(s);
      assert 1 <= k && NoSpace(s[..k]);
      [s[..k]] + Words(s[k..])
  }

  /** t with every whitespace character removed. */
  function DropSpaces(t: string): (r: string)
    ensures NoSpace(r)
  {
    if t == [] then []
    else if IsSpace(t[0]) then DropSpaces(t[1..])
    else [t[0]] + DropSpaces(t[1..])
  }

  function Concat(ws: seq<string>): string {
    if ws == [] then [] else ws[0] + Concat(ws[1..])
  }

  lemma {:induction false} DropSpacesAppend(a: string, b: string)
    ensures DropSpaces(a + b) == DropSpaces(a) + DropSpaces(b)
    decreases |a|
  {
    if a == [] {
      assert a + b == b;
    } else {
      assert (a + b)[1..] == a[1..] + b;
      DropSpacesAppend(a[1..], b);
    }
  }

  lemma {:induction false} DropSpacesOfSpaces(a: string)
    requires forall i :: 0 <= i < |a| ==> IsSpace(a[i])
    ensures DropSpaces(a) == []
    decreases |a|
  {
    if a != [] {
      DropSpacesOfSpaces(a[1..]);
    }
  }

  lemma {:induction false} DropSpacesOfWord(a: string)
    requires NoSpace(a)
    ensures DropSpaces(a) == a
    decreases |a|
  {
    if a != [] {
      DropSpacesOfWord(a[1..]);
    }
  }

  lemma SkipSpaces(t: string, j: nat)
    requires j <= |t|
    requires forall i :: 0 <= i < j ==> IsSpace(t[i])
    ensures DropSpaces(t) == DropSpaces(t[j..])
  {
    assert t == t[..j] + t[j..];
    DropSpacesAppend(t[..j], t[j..]);
    DropSpacesOfSpaces(t[..j]);
  }

  lemma KeepWord(s: string, k: nat)
    requires k <= |s| && NoSpace(s[..k])
    ensures DropSpaces(s) == s[..k] + DropSpaces(s[k..])
  {
    assert s == s[..k] + s[k..];
    DropSpacesAppend(s[..k], s[k..]);
    DropSpacesOfWord(s[..k]);
  }

  /** split() loses only whitespace: gluing the words back together gives the
      title with its whitespace removed. */
  lemma {:induction false} WordsCoverText(t: string)
    ensures Concat(Words(t)) == DropSpaces(t)
    decreases |t|
  {
    var j := LeadingSpaces(t);
    var s := t[j..];
    SkipSpaces(t, j);
    if s != [] {
      var k := WordLength(s);
      KeepWord(s, k);
      WordsCoverText(s[k..]);
      var ws := Words(t);
      assert ws == [s[..k]] + Words(s[k..]);
      assert ws[1..] == Words(s[k..]);
    }
  }

  /** Leading whitespace yields no word. */
  lemma WordsAfterSpace(c: char, u: string)
    requires IsSpace(c)
    ensures Words([c] + u) == Words(u)
  {
    var t := [c] + u;
    SkipOneSpace(c, u);
    assert t[LeadingSpaces(t)..] == u[LeadingSpaces(u)..];
  }

  lemma SkipOneSpace(c: char, u: string)
    requires IsSpace(c)
    ensures LeadingSpaces([c] + u) == 1 + LeadingSpaces(u)
    ensures ([c] + u)[1 + LeadingSpaces(u)..] == u[LeadingSpaces(u)..]
  {
    assert ([c] + u)[1..] == u;
  }

  /** A word followed by nothing or by whitespace is split off whole. */
  lemma WordsOfWordThen(w: string, u: string)
    requires w != [] && NoSpace(w)
    requires u == [] || IsSpace(u[0])
    ensures Words(w + u) == [w] + Words(u)
  {
    var t := w + u;
    assert !IsSpace(t[0]);
    assert LeadingSpaces(t) == 0;
    assert t[0..] == t;
    var k := WordLength(t);
    assert forall i :: 0 <= i < |w| ==> t[i] == w[i] && !IsSpace(t[i]);
    if u != [] {
      assert t[|w|] == u[0] && IsSpace(t[|w|]);
    }
    assert k == |w|;
    assert t[..k] == w && t[k..] == u;
  }

  lemma JoinCons(ws: seq<string>, sep: string)
    requires |ws| >= 2
    ensures Join(ws, sep) == ws[0] + (sep + Join(ws[1..], sep))
  {
  }

  /** One step of WordsOfJoin: the first word, then the rest of the join. */
  lemma WordsOfJoinStep(ws: seq<string>)
    requires |ws| >= 2 && ws[0] != [] && NoSpace(ws[0])
    ensures Words(Join(ws, " ")) == [ws[0]] + Words(Join(ws[1..], " "))
  {
    var rest := Join(ws[1..], " ");
    JoinCons(ws, " ");
    WordsOfWordThen(ws[0], " " + rest);
    WordsAfterSpace(' ', rest);
  }

  lemma WordsOfJoinOne(ws: seq<string>)
    requires |ws| == 1 && AllWords(ws)
    ensures Words(Join(ws, " ")) == ws
  {
    WordsOfWordThen(ws[0], []);
    assert ws[0] + [] == ws[0];
    assert ws == [ws[0]];
  }

  lemma ConsOfTail<T>(xs: seq<T>)
    requires |xs| >= 1
    ensures [xs[0]] + xs[1..] == xs
  {
  }

  lemma AllWordsTail(ws: seq<string>)
    requires |ws| >= 1 && AllWords(ws)
    ensures AllWords(ws[1..])
  {
    assert forall i :: 0 <= i < |ws| - 1 ==> ws[1..][i] == ws[i + 1];
  }

  /** split() undoes a join with a single space: the words break exactly
      where the spaces are. */
  lemma {:induction false} WordsOfJoin(ws: seq<string>)
    requires AllWords(ws)
    ensures Words(Join(ws, " ")) == ws
    decreases |ws|
  {
    if |ws| == 0 {
    } else if |ws| == 1 {
      WordsOfJoinOne(ws);
    } else {
      WordsOfJoinStep(ws);
      AllWordsTail(ws);
      WordsOfJoin(ws[1..]);
      ConsOfTail(ws);
    }
  }

  // ---------------------------------------------------------------------------
  // str.strip(chars)

  function StripStart(s: string, cs: set<char>): (i: nat)
    ensures i <= |s|
    ensures forall k :: 0 <= k < i ==> s[k] in cs
    ensures i < |s| ==> s[i] !in cs
  {
    PrefixWhile(s, c => c in cs)
  }

  function StripEnd(s: string, cs: set<char>): (j: nat)
    ensures StripStart(s, cs) <= j <= |s|
    ensures forall k :: j <= k < |s| ==> s[k] in cs
    ensures j > StripStart(s, cs) ==> s[j - 1] !in cs
  {
    var i := StripStart(s, cs);
    i + (|s| - i - SuffixWhile(s[i..], c => c in cs))
  }

  /** r is s with some leading and some trailing characters of cs cut off. */
  predicate TrimmedOf(r: string, s: string, cs: set<char>) {
    exists i, j :: 0 <= i <= j <= |s| && r == s[i..j]
      && (forall k :: 0 <= k < i ==> s[k] in cs)
      && (forall k :: j <= k < |s| ==> s[k] in cs)
  }

  /** Python's s.strip(cs): drop every leading and every trailing character of
      cs. The result is a trimming of s that neither starts nor ends with a
      character of cs, and that fixes it (`StripIsOnlyTrim`). */
  function Strip(s: string, cs: set<char>): (r: string)
    ensures |r| <= |s|
    ensures r == [] || (r[0] !in cs && r[|r| - 1] !in cs)
    ensures TrimmedOf(r, s, cs)
  {
    var i, j := StripStart(s, cs), StripEnd(s, cs);
    assert TrimmedOf(s[i..j], s, cs);
    s[i..j]
  }

  /** There is only one trimming of s that neither starts nor ends with a
      character of cs, so the contract of Strip determines it. */
  lemma StripIsOnlyTrim(s: string, cs: set<char>, r: string)
    requires TrimmedOf(r, s, cs)
    requires r == [] || (r[0] !in cs && r[|r| - 1] !in cs)
    ensures r == Strip(s, cs)
  {
    var i, j :| 0 <= i <= j <= |s| && r == s[i..j]
      && (forall k :: 0 <= k < i ==> s[k] in cs)
      && (forall k :: j <= k < |s| ==> s[k] in cs);
    var i0, j0 := StripStart(s, cs), StripEnd(s, cs);
    if r == [] {
      assert forall k :: 0 <= k < |s| ==> s[k] in cs;
      StripAll(s, cs);
    } else {
      assert s[i] == r[0] && s[j - 1] == r[|r| - 1];
      assert i == i0;
      assert j == j0;
    }
  }

  /** Strip keeps no character that s does not have where it has it. */
  lemma StripNoUpper(s: string, cs: set<char>)
    requires NoUpper(s)
    ensures NoUpper(Strip(s, cs))
  {
    var i := StripStart(s, cs);
    var r := Strip(s, cs);
    assert forall k :: 0 <= k < |r| ==> r[k] == s[i + k];
  }

  /** Strip keeps every character outside cs. */
  lemma StripKeeps(s: string, cs: set<char>, k: nat)
    requires k < |s| && s[k] !in cs
    ensures s[k] in Strip(s, cs)
  {
    var i, j := StripStart(s, cs), StripEnd(s, cs);
    assert i <= k < j;
    assert Strip(s, cs)[k - i] == s[k];
  }

  /** A string made only of characters of cs strips down to nothing. */
  lemma StripAll(s: string, cs: set<char>)
    requires forall k :: 0 <= k < |s| ==> s[k] in cs
    ensures Strip(s, cs) == []
  {
  }

  lemma StripIdempotent(s: string, cs: set<char>)
    ensures Strip(Strip(s, cs), cs) == Strip(s, cs)
  {
    var r := Strip(s, cs);
    assert StripStart(r, cs) == 0;
    assert StripEnd(r, cs) == |r|;
  }

  // ---------------------------------------------------------------------------
  // sep.join(ws)

  /** Python's sep.join(ws). */
  function Join(ws: seq<string>, sep: string): string {
    if |ws| == 0 then []
    else if |ws| == 1 then ws[0]
    else ws[0] + sep + Join(ws[1..], sep)
  }

  function TotalLength(ws: seq<string>): nat {
    if ws == [] then 0 else |ws[0]| + TotalLength(ws[1..])
  }

  /** The joined string holds the pieces and one separator between each two
      neighbours, and nothing more. */
  lemma {:induction false} JoinLength(ws: seq<string>, sep: string)
    ensures |ws| == 0 ==> Join(ws, sep) == []
    ensures |ws| > 0 ==> |Join(ws, sep)| == TotalLength(ws) + |sep| * (|ws| - 1)
    decreases |ws|
  {
    if |ws| > 1 {
      JoinLength(ws[1..], sep);
      assert |sep| * (|ws| - 1) == |sep| + |sep| * (|ws[1..]| - 1);
    }
  }

  /** Where the i-th piece starts inside Join(ws, sep). */
  function Offset(ws: seq<string>, sep: string, i: nat): nat
    requires i <= |ws|
  {
    if i == 0 then 0 else |ws[0]| + |sep| + Offset(ws[1..], sep, i - 1)
  }

  lemma SliceOfAppend(x: string, y: string, a: nat, b: nat)
    requires a <= b <= |y|
    ensures (x + y)[|x| + a..|x| + b] == y[a..b]
  {
  }

  /** Every piece ends before the joined string does. */
  lemma {:induction false} OffsetBound(ws: seq<string>, sep: string, i: nat)
    requires i < |ws|
    ensures Offset(ws, sep, i) + |ws[i]| <= |Join(ws, sep)|
    ensures i + 1 < |ws| ==> Offset(ws, sep, i + 1) + |ws[i + 1]| <= |Join(ws, sep)|
    decreases |ws|
  {
    if |ws| == 1 {
      assert Join(ws, sep) == ws[0];
    } else {
      var tail := ws[1..];
      assert |Join(ws, sep)| == |ws[0]| + |sep| + |Join(tail, sep)|;
      if i == 0 {
        OffsetBound(tail, sep, 0);
        assert Offset(ws, sep, 1) == |ws[0]| + |sep| + Offset(tail, sep, 0);
        assert tail[0] == ws[1];
      } else {
        OffsetBound(tail, sep, i - 1);
        assert Offset(ws, sep, i) == |ws[0]| + |sep| + Offset(tail, sep, i - 1);
        assert tail[i - 1] == ws[i];
        if i + 1 < |ws| {
          assert Offset(ws, sep, i + 1) == |ws[0]| + |sep| + Offset(tail, sep, i);
          assert tail[i] == ws[i + 1];
        }
      }
    }
  }

  /** The joined string holds ws[i] at Offset(ws, sep, i). */
  lemma {:induction false} JoinAt(ws: seq<string>, sep: string, i: nat)
    requires i < |ws|
    ensures Offset(ws, sep, i) + |ws[i]| <= |Join(ws, sep)|
    ensures Join(ws, sep)[Offset(ws, sep, i)..Offset(ws, sep, i) + |ws[i]|] == ws[i]
    decreases i
  {
    OffsetBound(ws, sep, i);
    if |ws| > 1 {
      var head := ws[0] + sep;
      assert Join(ws, sep) == head + Join(ws[1..], sep);
      if i > 0 {
        JoinAt(ws[1..], sep, i - 1);
        SliceOfAppend(head, Join(ws[1..], sep), Offset(ws[1..], sep, i - 1), Offset(ws[1..], sep, i - 1) + |ws[i]|);
      }
    }
  }

  /** Between two neighbouring pieces the joined string holds exactly one
      separator; with JoinAt and the length in Join's contract this pins the
      joined string down completely. */
  lemma {:induction false} JoinSeparatorAt(ws: seq<string>, sep: string, i: nat)
    requires i + 1 < |ws|
    ensures Offset(ws, sep, i + 1) == Offset(ws, sep, i) + |ws[i]| + |sep|
    ensures Offset(ws, sep, i + 1) <= |Join(ws, sep)|
    ensures Join(ws, sep)[Offset(ws, sep, i) + |ws[i]|..Offset(ws, sep, i + 1)] == sep
    decreases i
  {
    OffsetBound(ws, sep, i);
    var head := ws[0] + sep;
    assert Join(ws, sep) == head + Join(ws[1..], sep);
    if i == 0 {
      assert Offset(ws, sep, 1) == |ws[0]| + |sep| + Offset(ws[1..], sep, 0);
    } else {
      JoinSeparatorAt(ws[1..], sep, i - 1);
      OffsetBound(ws[1..], sep, i - 1);
      var o := Offset(ws[1..], sep, i - 1);
      SliceOfAppend(head, Join(ws[1..], sep), o + |ws[i]|, Offset(ws[1..], sep, i));
    }
  }

  // ---------------------------------------------------------------------------
  // Lexicographic comparison (Python's `<` on str, by code point)

  predicate LexLess(a: string, b: string) {
    if b == [] then false
    else if a == [] then true
    else if a[0] != b[0] then a[0] < b[0]
    else LexLess(a[1..], b[1..])
  }

  lemma {:induction false} LexLessIrreflexive(a: string)
    ensures !LexLess(a, a)
    decreases |a|
  {
    if a != [] {
      LexLessIrreflexive(a[1..]);
    }
  }

  lemma {:induction false} LexLessTransitive(a: string, b: string, c: string)
    requires LexLess(a, b) && LexLess(b, c)
    ensures LexLess(a, c)
    decreases |a|
  {
    if a != [] && a[0] == b[0] && b[0] == c[0] {
      LexLessTransitive(a[1..], b[1..], c[1..]);
    }
  }

  lemma {:induction false} LexLessTotal(a: string, b: string)
    ensures a == b || LexLess(a, b) || LexLess(b, a)
    decreases |a|
  {
    if a != [] && b != [] && a[0] == b[0] {
      LexLessTotal(a[1..], b[1..]);
      if a[1..] == b[1..] {
        assert a == [a[0]] + a[1..] && b == [b[0]] + b[1..];
      }
    }
  }

  /** Comparing two equally long heads decides, unless they are equal, in
      which case the tails decide. */
  lemma {:induction false} LexLessAppend(a: string, b: string, c: string, d: string)
    requires |a| == |b|
    ensures LexLess(a + c, b + d) <==> LexLess(a, b) || (a == b && LexLess(c, d))
    decreases |a|
  {
    if a == [] {
      assert a + c == c && b + d == d;
    } else {
      assert (a + c)[0] == a[0] && (b + d)[0] == b[0];
      assert (a + c)[1..] == a[1..] + c && (b + d)[1..] == b[1..] + d;
      LexLessAppend(a[1..], b[1..], c, d);
      if a[0] == b[0] && a[1..] == b[1..] {
        assert a == [a[0]] + a[1..] && b == [b[0]] + b[1..];
      }
      if a == b {
        LexLessIrreflexive(a);
      }
    }
  }

  // ---------------------------------------------------------------------------
  // str(n) for an int and its inverse

  predicate IsDigit(c: char) {
    '0' <= c <= '9'
  }

  predicate AllDigits(s: string) {
    forall i :: 0 <= i < |s| ==> IsDigit(s[i])
  }

  function DigitChar(d: nat): (c: char)
    requires d < 10
    ensures IsDigit(c)
  {
    ('0' as int + d) as char
  }

  function DigitValue(c: char): nat
    requires IsDigit(c)
  {
    c as int - '0' as int
  }

  /** The decimal reading of a string of digits. */
  function DigitsValue(s: string): nat
    requires AllDigits(s)
  {
    if s == [] then 0 else 10 * DigitsValue(s[..|s| - 1]) + DigitValue(s[|s| - 1])
  }

  /** A decimal numeral as str writes one: at least one digit, and no
      leading zero unless the numeral is "0" itself. */
  predicate IsNumeral(s: string) {
    |s| >= 1 && AllDigits(s) && (|s| > 1 ==> s[0] != '0')
  }

  /** str(n) for n >= 0: the shortest decimal numeral (no leading zero). */
  function NatToString(n: nat): (s: string)
    ensures IsNumeral(s)
  {
    if n < 10 then [DigitChar(n)] else NatToString(n / 10) + [DigitChar(n % 10)]
  }

  /** str(n) for any int: a minus sign before negative numbers. */
  function IntToString(n: int): (s: string)
    ensures |s| >= 1
  {
    if n < 0 then "-" + NatToString(-n) else NatToString(n)
  }

  /** Reads back what IntToString writes; None for anything else, such as
      a leading zero or "-0". */
  function ParseInt(s: string): Option<int> {
    if |s| >= 2 && s[0] == '-' && IsNumeral(s[1..]) && s[1..] != "0" then Some(0 - DigitsValue(s[1..]))
    else if IsNumeral(s) then Some(DigitsValue(s))
    else None
  }

  lemma {:induction false} NatToStringRoundTrip(n: nat)
    ensures DigitsValue(NatToString(n)) == n
  {
    if n >= 10 {
      NatToStringRoundTrip(n / 10);
      var s := NatToString(n);
      assert s[..|s| - 1] == NatToString(n / 10);
    }
  }

  lemma {:induction false} IntToStringRoundTrip(n: int)
    ensures ParseInt(IntToString(n)) == Some(n)
  {
    var s := IntToString(n);
    if n < 0 {
      assert s[0] == '-' && s[1..] == NatToString(-n);
      NatToStringRoundTrip(-n);
    } else {
      assert s == NatToString(n) && IsDigit(s[0]);
      NatToStringRoundTrip(n);
    }
  }

  /** A numeral that does not start with '0' reads as a positive number. */
  lemma {:induction false} NumeralPositive(s: string)
    requires IsNumeral(s) && s[0] != '0'
    ensures DigitsValue(s) >= 1
    decreases |s|
  {
    if |s| > 1 {
      NumeralPositive(s[..|s| - 1]);
    }
  }

  /** Each number has one numeral: a numeral is str of its value. */
  lemma {:induction false} NumeralIsOnlyString(s: string)
    requires IsNumeral(s)
    ensures s == NatToString(DigitsValue(s))
    decreases |s|
  {
    var n := DigitsValue(s);
    if |s| == 1 {
      assert DigitsValue(s[..0]) == 0;
      assert DigitChar(n) == s[0];
    } else {
      var p := s[..|s| - 1];
      var d := DigitValue(s[|s| - 1]);
      NumeralPositive(p);
      NumeralIsOnlyString(p);
      assert n == 10 * DigitsValue(p) + d && d < 10;
      assert n / 10 == DigitsValue(p) && n % 10 == d;
      assert DigitChar(d) == s[|s| - 1];
      assert s == p + [s[|s| - 1]];
    }
  }

  /** ParseInt accepts only what str writes: a text that reads as n is str(n). */
  lemma ParseIntIsOnlyString(s: string, n: int)
    requires ParseInt(s) == Some(n)
    ensures s == IntToString(n)
  {
    if |s| >= 2 && s[0] == '-' && IsNumeral(s[1..]) && s[1..] != "0" {
      var t := s[1..];
      if |t| == 1 {
        assert t[0] != '0';
      }
      NumeralPositive(t);
      NumeralIsOnlyString(t);
      assert s == "-" + t;
    } else {
      NumeralIsOnlyString(s);
    }
  }
}
