/** String operations the exercise engine leans on, stated the way Python's
    built-ins behave on them: `str.lower()`, `str.split()`, `str.strip()` and
    the substring test `needle in hay`. Characters outside ASCII are left as
    they are by `Lower` and are never whitespace here. */
module Text {

  /** Whitespace as `str.split()`, `str.strip()` and the regex class `\s` see
      it, restricted to ASCII: tab, line feed, vertical tab, form feed,
      carriage return, the four separators 0x1C-0x1F and space. */
  predicate IsSpace(c: char) {
    ('\t' <= c <= '\r') || ('\U{1C}' <= c <= ' ')
  }

  function LowerChar(c: char): char {
    if 'A' <= c <= 'Z' then (c as int + 32) as char else c
  }

  /** `s.lower()` on ASCII letters. */
  function Lower(s: string): (r: string)
    ensures |r| == |s|
    ensures forall i :: 0 <= i < |s| ==> r[i] == LowerChar(s[i])
  {
    seq(|s|, i requires 0 <= i < |s| => LowerChar(s[i]))
  }

  // ---------------------------------------------------------------------
  // Substring test

  predicate OccursAt(hay: string, needle: string, i: int) {
    0 <= i && i + |needle| <= |hay| && hay[i..i + |needle|] == needle
  }

  /** `needle in hay` for Python strings: a scan over the start positions. */
  function Contains(hay: string, needle: string): (r: bool)
    ensures r <==> exists i :: OccursAt(hay, needle, i)
    decreases |hay|
  {
    if needle <= hay then
      assert OccursAt(hay, needle, 0);
      true
    else if |hay| <= |needle| then
      false
    else
      var r := Contains(hay[1..], needle);
      assert forall i :: OccursAt(hay[1..], needle, i) ==> OccursAt(hay, needle, i + 1);
      assert forall i :: OccursAt(hay, needle, i) && i > 0 ==> OccursAt(hay[1..], needle, i - 1);
      r
  }

  /** A text occurs right after whatever precedes it. */
  lemma OccursBetween(a: string, b: string, c: string)
    ensures OccursAt(a + b + c, b, |a|)
  {
    assert (a + b + c)[|a|..|a| + |b|] == b;
  }

  /** A needle holding a character the haystack lacks never occurs in it. */
  lemma MissingCharNotContained(hay: string, needle: string, k: int)
    requires 0 <= k < |needle| && needle[k] !in hay
    ensures !Contains(hay, needle)
  {
  }

  // ---------------------------------------------------------------------
  // Splitting on whitespace

  /** A word of `str.split()`: a non-empty run of non-whitespace characters. */
  predicate IsWord(w: string) {
    w != [] && forall i :: 0 <= i < |w| ==> !IsSpace(w[i])
  }

  /** The suffix of `s` left after its leading whitespace. */
  function SkipSpaces(s: string): (r: string)
    ensures |r| <= |s| && r == s[|s| - |r|..]
    ensures r == [] || !IsSpace(r[0])
    ensures forall i :: 0 <= i < |s| - |r| ==> IsSpace(s[i])
  {
    if s != [] && IsSpace(s[0]) then SkipSpaces(s[1..]) else s
  }

  /** The length of the longest prefix of `s` without whitespace. */
  function WordLength(s: string): (n: nat)
    ensures n <= |s|
    ensures forall i :: 0 <= i < n ==> !IsSpace(s[i])
    ensures n == |s| || IsSpace(s[n])
  {
    if s != [] && !IsSpace(s[0]) then 1 + WordLength(s[1..]) else 0
  }

  /** `s.split()`: the maximal runs of non-whitespace characters, in order. */
  function Split(s: string): (words: seq<string>)
    decreases |s|
  {
    if s == [] then []
    else if IsSpace(s[0]) then Split(s[1..])
    else
      var n := WordLength(s);
      [s[..n]] + Split(s[n..])
  }

  /** Every piece `Split` returns is a word. */
  lemma {:induction false} SplitGivesWords(s: string)
    ensures forall k :: 0 <= k < |Split(s)| ==> IsWord(Split(s)[k])
    decreases |s|
  {
    if s == [] {
    } else if IsSpace(s[0]) {
      SplitGivesWords(s[1..]);
    } else {
      var n := WordLength(s);
      SplitGivesWords(s[n..]);
      var ws := Split(s);
      assert ws == [s[..n]] + Split(s[n..]);
      forall k | 0 <= k < |ws| ensures IsWord(ws[k]) {
        if k > 0 {
          assert ws[k] == Split(s[n..])[k - 1];
        }
      }
    }
  }

  /** `w` is the run `s[i..j]`, with whitespace or an end of `s` on both
      sides: a run that cannot be extended. */
  predicate RunAt(s: string, w: string, i: int, j: int) {
    0 <= i < j <= |s| && w == s[i..j]
    && (i == 0 || IsSpace(s[i - 1])) && (j == |s| || IsSpace(s[j]))
  }

  /** `w` is a run of `s` that cannot be extended, somewhere in `s`. */
  predicate IsRun(s: string, w: string) {
    exists i, j :: 0 <= i < j <= |s| && RunAt(s, w, i, j)
  }

  /** A run of a suffix that follows whitespace is a run of the whole text. */
  lemma RunShift(s: string, off: nat, w: string)
    requires 0 < off <= |s| && IsSpace(s[off - 1])
    requires IsRun(s[off..], w)
    ensures IsRun(s, w)
  {
    var i, j :| 0 <= i < j <= |s[off..]| && RunAt(s[off..], w, i, j);
    assert s[off..][i..j] == s[i + off..j + off];
    assert RunAt(s, w, i + off, j + off);
  }

  /** The runs of a suffix after whitespace are runs of the whole text. */
  lemma RunsOfSuffix(s: string, off: nat, ws: seq<string>)
    requires 0 < off <= |s| && IsSpace(s[off - 1])
    requires forall k :: 0 <= k < |ws| ==> IsRun(s[off..], ws[k])
    ensures forall k :: 0 <= k < |ws| ==> IsRun(s, ws[k])
  {
    forall k | 0 <= k < |ws| ensures IsRun(s, ws[k]) {
      RunShift(s, off, ws[k]);
    }
  }

  /** Every word of `split()` is a whole run of `s`: it is bounded on both
      sides by whitespace or an end of the text, so no word is a piece of a
      longer one. */
  lemma {:induction false} SplitGivesMaximalRuns(s: string)
    ensures forall k :: 0 <= k < |Split(s)| ==> IsRun(s, Split(s)[k])
    decreases |s|
  {
    if s == [] {
    } else if IsSpace(s[0]) {
      SplitGivesMaximalRuns(s[1..]);
      RunsOfSuffix(s, 1, Split(s[1..]));
    } else {
      var n := WordLength(s);
      var rest := Split(s[n..]);
      assert Split(s) == [s[..n]] + rest;
      assert RunAt(s, s[..n], 0, n);
      if n < |s| {
        assert s[n..][1..] == s[n + 1..];
        assert rest == Split(s[n + 1..]);
        SplitGivesMaximalRuns(s[n + 1..]);
        RunsOfSuffix(s, n + 1, rest);
      }
    }
  }

  /** The words `ws` sit at `starts[k]..ends[k]` of `s`, each a run that
      cannot be extended, strictly left to right, and every non-whitespace
      character of `s` lies inside one of them. */
  predicate RunsInOrder(s: string, ws: seq<string>, starts: seq<int>, ends: seq<int>) {
    |starts| == |ws| && |ends| == |ws|
    && (forall k :: 0 <= k < |ws| ==> RunAt(s, ws[k], starts[k], ends[k]))
    && (forall k, l :: 0 <= k < l < |ws| ==> ends[k] < starts[l])
    && Covers(s, starts, ends)
  }

  /** Every non-whitespace character of `s` lies in one of the spans. */
  predicate Covers(s: string, starts: seq<int>, ends: seq<int>)
    requires |starts| == |ends|
  {
    forall p :: 0 <= p < |s| && !IsSpace(s[p]) ==> InSpan(p, starts, ends)
  }

  predicate InSpan(p: int, starts: seq<int>, ends: seq<int>)
    requires |starts| == |ends|
  {
    exists k :: 0 <= k < |starts| && starts[k] <= p < ends[k]
  }

  function Shifted(xs: seq<int>, off: int): (r: seq<int>)
    ensures |r| == |xs| && forall k :: 0 <= k < |xs| ==> r[k] == xs[k] + off
  {
    seq(|xs|, k requires 0 <= k < |xs| => xs[k] + off)
  }

  /** The positions of the runs of a suffix after whitespace, moved by the
      suffix's offset, are positions of runs of the whole text. */
  lemma RunsInOrderShift(s: string, off: nat, ws: seq<string>, starts: seq<int>, ends: seq<int>)
    requires 0 < off <= |s| && IsSpace(s[off - 1])
    requires RunsInOrder(s[off..], ws, starts, ends)
    ensures forall k :: 0 <= k < |ws| ==> RunAt(s, ws[k], Shifted(starts, off)[k], Shifted(ends, off)[k])
    ensures forall k :: 0 <= k < |ws| ==> off <= Shifted(starts, off)[k]
    ensures forall k, l :: 0 <= k < l < |ws| ==> Shifted(ends, off)[k] < Shifted(starts, off)[l]
    ensures forall p :: off <= p < |s| && !IsSpace(s[p]) ==> InSpan(p, Shifted(starts, off), Shifted(ends, off))
  {
    var st, en := Shifted(starts, off), Shifted(ends, off);
    forall k | 0 <= k < |ws| ensures RunAt(s, ws[k], st[k], en[k]) {
      assert s[off..][starts[k]..ends[k]] == s[st[k]..en[k]];
    }
    forall p | off <= p < |s| && !IsSpace(s[p]) ensures InSpan(p, st, en) {
      assert s[off..][p - off] == s[p];
      assert InSpan(p - off, starts, ends);
      var k :| 0 <= k < |starts| && starts[k] <= p - off < ends[k];
      assert st[k] <= p < en[k];
    }
  }

  /** A leading word followed by whitespace, then the runs of the rest. */
  lemma RunsInOrderCons(s: string, n: nat, rest: seq<string>, starts: seq<int>, ends: seq<int>)
    requires 0 < n < |s| && IsSpace(s[n]) && RunAt(s, s[..n], 0, n)
    requires RunsInOrder(s[n + 1..], rest, starts, ends)
    ensures RunsInOrder(s, [s[..n]] + rest, [0] + Shifted(starts, n + 1), [n] + Shifted(ends, n + 1))
  {
    RunsInOrderShift(s, n + 1, rest, starts, ends);
    ConsPlacesRuns(s, n, rest, Shifted(starts, n + 1), Shifted(ends, n + 1));
    ConsCovers(s, n, Shifted(starts, n + 1), Shifted(ends, n + 1));
  }

  lemma ConsPlacesRuns(s: string, n: nat, rest: seq<string>, starts: seq<int>, ends: seq<int>)
    requires 0 < n < |s| && RunAt(s, s[..n], 0, n)
    requires |starts| == |rest| && |ends| == |rest|
    requires forall k :: 0 <= k < |rest| ==> RunAt(s, rest[k], starts[k], ends[k])
    requires forall k :: 0 <= k < |rest| ==> n < starts[k]
    requires forall k, l :: 0 <= k < l < |rest| ==> ends[k] < starts[l]
    ensures forall k :: 0 <= k < |rest| + 1 ==> RunAt(s, ([s[..n]] + rest)[k], ([0] + starts)[k], ([n] + ends)[k])
    ensures forall k, l :: 0 <= k < l < |rest| + 1 ==> ([n] + ends)[k] < ([0] + starts)[l]
  {
    var ws, st, en := [s[..n]] + rest, [0] + starts, [n] + ends;
    forall k | 0 <= k < |ws| ensures RunAt(s, ws[k], st[k], en[k]) {
      if k > 0 {
        assert ws[k] == rest[k - 1] && st[k] == starts[k - 1] && en[k] == ends[k - 1];
      }
    }
    forall k, l | 0 <= k < l < |ws| ensures en[k] < st[l] {
      assert st[l] == starts[l - 1];
      if k > 0 {
        assert en[k] == ends[k - 1];
      }
    }
  }

  lemma ConsCovers(s: string, n: nat, starts: seq<int>, ends: seq<int>)
    requires n <= |s| && |starts| == |ends|
    requires forall p :: n < p < |s| && !IsSpace(s[p]) ==> InSpan(p, starts, ends)
    requires n == |s| || IsSpace(s[n])
    ensures Covers(s, [0] + starts, [n] + ends)
  {
    var st, en := [0] + starts, [n] + ends;
    forall p | 0 <= p < |s| && !IsSpace(s[p]) ensures InSpan(p, st, en) {
      if p < n {
        assert st[0] <= p < en[0];
      } else {
        var k :| 0 <= k < |starts| && starts[k] <= p < ends[k];
        assert st[k + 1] <= p < en[k + 1];
      }
    }
  }

  /** `split()` returns exactly the maximal runs of non-whitespace, in the
      order they occur: the words are placed left to right without overlap,
      and together they cover every non-whitespace character. */
  lemma {:induction false} SplitRunsInOrder(s: string)
    ensures forall k :: 0 <= k < |Split(s)| ==> IsWord(Split(s)[k])
    ensures exists starts, ends :: RunsInOrder(s, Split(s), starts, ends)
    decreases |s|
  {
    SplitGivesWords(s);
    if s == [] {
      assert RunsInOrder(s, Split(s), [], []);
    } else if IsSpace(s[0]) {
      SplitRunsInOrder(s[1..]);
      var ws := Split(s[1..]);
      var starts, ends :| RunsInOrder(s[1..], ws, starts, ends);
      RunsInOrderShift(s, 1, ws, starts, ends);
      assert RunsInOrder(s, Split(s), Shifted(starts, 1), Shifted(ends, 1));
    } else {
      var n := WordLength(s);
      var rest := Split(s[n..]);
      assert Split(s) == [s[..n]] + rest;
      assert RunAt(s, s[..n], 0, n);
      if n == |s| {
        ConsCovers(s, n, [], []);
        assert RunsInOrder(s, Split(s), [0], [n]);
      } else {
        assert s[n..][1..] == s[n + 1..];
        assert rest == Split(s[n + 1..]);
        SplitRunsInOrder(s[n + 1..]);
        var starts, ends :| RunsInOrder(s[n + 1..], rest, starts, ends);
        RunsInOrderCons(s, n, rest, starts, ends);
      }
    }
  }

  function Concat(ws: seq<string>): string {
    if ws == [] then [] else ws[0] + Concat(ws[1..])
  }

  /** `s` with its whitespace removed. */
  function NonSpace(s: string): string {
    if s == [] then [] else (if IsSpace(s[0]) then [] else [s[0]]) + NonSpace(s[1..])
  }

  lemma {:induction false} NonSpaceOfWord(w: string, rest: string)
    requires forall i :: 0 <= i < |w| ==> !IsSpace(w[i])
    ensures NonSpace(w + rest) == w + NonSpace(rest)
  {
    if w != [] {
      assert (w + rest)[0] == w[0] && (w + rest)[1..] == w[1..] + rest;
      NonSpaceOfWord(w[1..], rest);
      assert NonSpace(w + rest) == [w[0]] + NonSpace(w[1..] + rest);
      assert w == [w[0]] + w[1..];
    } else {
      assert w + rest == rest;
    }
  }

  /** Nothing but whitespace is lost by splitting: gluing the words back
      together gives the input with its whitespace removed. */
  lemma {:induction false} SplitLosesOnlySpaces(s: string)
    ensures Concat(Split(s)) == NonSpace(s)
    decreases |s|
  {
    if s == [] {
    } else if IsSpace(s[0]) {
      SplitLosesOnlySpaces(s[1..]);
      assert NonSpace(s) == [] + NonSpace(s[1..]);
    } else {
      var n := WordLength(s);
      assert s == s[..n] + s[n..];
      NonSpaceOfWord(s[..n], s[n..]);
      SplitLosesOnlySpaces(s[n..]);
      var ws := Split(s);
      assert ws[0] == s[..n] && ws[1..] == Split(s[n..]);
    }
  }

  /** A word followed by whitespace or the end of the text is the first word. */
  lemma SplitWord(w: string, rest: string)
    requires IsWord(w) && (rest == [] || IsSpace(rest[0]))
    ensures Split(w + rest) == [w] + Split(rest)
  {
    var s := w + rest;
    WordLengthOf(w, rest);
    assert s[..|w|] == w && s[|w|..] == rest;
  }

  lemma {:induction false} WordLengthOf(w: string, rest: string)
    requires forall i :: 0 <= i < |w| ==> !IsSpace(w[i])
    requires rest == [] || IsSpace(rest[0])
    ensures WordLength(w + rest) == |w|
  {
    if w != [] {
      assert (w + rest)[1..] == w[1..] + rest;
      WordLengthOf(w[1..], rest);
    } else {
      assert w + rest == rest;
    }
  }

  /** Leading whitespace does not change the words. */
  lemma SplitSpace(c: char, rest: string)
    requires IsSpace(c)
    ensures Split([c] + rest) == Split(rest)
  {
    assert ([c] + rest)[1..] == rest;
  }

  /** A single word splits into itself. */
  lemma SplitOneWord(w: string)
    requires IsWord(w)
    ensures Split(w) == [w]
  {
    assert w + [] == w;
    SplitWord(w, []);
  }

  lemma SplitWordThenSpace(w1: string, w2: string)
    requires IsWord(w1)
    ensures Split(w1 + [' '] + w2) == [w1] + Split(w2)
  {
    AppendAssociates(w1, [' '], w2);
    SplitWord(w1, [' '] + w2);
    SplitSpace(' ', w2);
  }

  /** Two words separated by one space split into those two words. */
  lemma SplitTwoWords(w1: string, w2: string)
    requires IsWord(w1) && IsWord(w2)
    ensures Split(w1 + [' '] + w2) == [w1] + [w2]
  {
    SplitWordThenSpace(w1, w2);
    SplitOneWord(w2);
  }

  // ---------------------------------------------------------------------
  // Stripping

  /** `s.strip()`: `s` without its leading and trailing whitespace. */
  function Strip(s: string): (r: string)
    ensures exists i, j ::
      (0 <= i <= j <= |s| && r == s[i..j]
       && (forall k :: 0 <= k < i ==> IsSpace(s[k]))
       && (forall k :: j <= k < |s| ==> IsSpace(s[k])))
    ensures r == [] || (!IsSpace(r[0]) && !IsSpace(r[|r| - 1]))
  {
    var t := SkipSpaces(s);
    var r := TrimEnd(t);
    assert t == s[|s| - |t|..];
    assert r == s[|s| - |t|..|s| - |t| + |r|];
    r
  }

  function TrimEnd(s: string): (r: string)
    ensures |r| <= |s| && r == s[..|r|]
    ensures r == [] || !IsSpace(r[|r| - 1])
    ensures forall k :: |r| <= k < |s| ==> IsSpace(s[k])
  {
    if s != [] && IsSpace(s[|s| - 1]) then TrimEnd(s[..|s| - 1]) else s
  }

  /** `not s.strip()`: the text holds nothing but whitespace. */
  predicate IsBlank(s: string) {
    forall k :: 0 <= k < |s| ==> IsSpace(s[k])
  }

  lemma StripEmptyIffBlank(s: string)
    ensures Strip(s) == [] <==> IsBlank(s)
  {
  }

  lemma AppendAssociates<T>(a: seq<T>, b: seq<T>, c: seq<T>)
    ensures (a + b) + c == a + (b + c)
  {
  }

  lemma TailOfAppend<T>(s: seq<T>, x: T)
    requires s != []
    ensures (s + [x])[1..] == s[1..] + [x]
  {
  }

  lemma PrefixOfNext<T>(s: seq<T>, i: nat)
    requires i < |s|
    ensures s[..i + 1] == s[..i] + [s[i]]
  {
  }

  // ---------------------------------------------------------------------
  // Decimal rendering, as an f-string prints a non-negative int

  function DigitChar(d: nat): char
    requires d < 10
  {
    ('0' as int + d) as char
  }

  function DecimalString(n: nat): (r: string)
    ensures r != []
    ensures forall i :: 0 <= i < |r| ==> '0' <= r[i] <= '9'
  {
    if n < 10 then [DigitChar(n)] else DecimalString(n / 10) + [DigitChar(n % 10)]
  }

  /** The number a string of decimal digits denotes, most significant first. */
  function DecimalValue(s: string): int {
    if s == [] then 0 else DecimalValue(s[..|s| - 1]) * 10 + (s[|s| - 1] as int - '0' as int)
  }

  /** Reading the printed digits back gives the number, and only 0 is
      printed with a leading zero. */
  lemma {:induction false} DecimalStringValue(n: nat)
    ensures DecimalValue(DecimalString(n)) == n
    ensures DecimalString(n)[0] == '0' <==> n == 0
    decreases n
  {
    if n >= 10 {
      DecimalStringValue(n / 10);
      var s := DecimalString(n / 10);
      assert (s + [DigitChar(n % 10)])[..|s|] == s;
    }
  }
}
