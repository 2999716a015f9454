/** The three Python string builtins that the keyword matcher relies on:
    `str.lower()` (restricted to ASCII), `str.split()` with no separator,
    and the substring test `w in s`. */
module PyStr {

  // ---------------------------------------------------------------------
  // Case

  predicate IsAsciiUpper(c: char) {
    'A' <= c <= 'Z'
  }

  /** The ASCII part of `str.lower()` on one character. */
  function LowerChar(c: char): (d: char)
    ensures !IsAsciiUpper(d)
    ensures IsAsciiUpper(c) ==> d as int == c as int + 32
    ensures !IsAsciiUpper(c) ==> d == c
  {
    if IsAsciiUpper(c) then (c as int + 32) as char else c
  }

  /** `s.lower()`, for ASCII letters: same length, and no capital is left. */
  function Lower(s: string): (r: string)
    ensures |r| == |s|
    ensures !HasAsciiUpper(r)
  {
    seq(|s|, i requires 0 <= i < |s| => LowerChar(s[i]))
  }

  predicate HasAsciiUpper(s: string) {
    exists i :: 0 <= i < |s| && IsAsciiUpper(s[i])
  }

  // ---------------------------------------------------------------------
  // Whitespace and `str.split()`

  /** The characters `str.split()` (with no argument) treats as separators:
      those for which Python's `str.isspace()` holds. */
  predicate IsSpace(c: char)
    ensures IsSpace(c) ==> !IsAsciiUpper(c) && LowerChar(c) == c
  {
    var n := c as int;
    (0x09 <= n <= 0x0D) || (0x1C <= n <= 0x20) || n == 0x85 || n == 0xA0 ||
    n == 0x1680 || (0x2000 <= n <= 0x200A) || n == 0x2028 || n == 0x2029 ||
    n == 0x202F || n == 0x205F || n == 0x3000
  }

  predicate AllSpace(s: string) {
    forall i :: 0 <= i < |s| ==> IsSpace(s[i])
  }

  /** A piece `str.split()` can produce: non-empty, with no separator in it. */
  predicate IsWord(w: string) {
    |w| > 0 && forall i :: 0 <= i < |w| ==> !IsSpace(w[i])
  }

  /** Length of the run of non-separators that starts `s`. */
  function RunLength(s: string): (n: nat)
    requires |s| > 0 && !IsSpace(s[0])
    ensures 1 <= n <= |s|
    ensures forall k :: 0 <= k < n ==> !IsSpace(s[k])
    ensures n == |s| || IsSpace(s[n])
  {
    if |s| == 1 || IsSpace(s[1]) then 1 else 1 + RunLength(s[1..])
  }

  /** `s.split()`: the maximal runs of non-separators, in order; runs of
      separators (leading and trailing ones too) produce no empty pieces. */
  function Words(s: string): (ws: seq<string>)
    ensures forall k :: 0 <= k < |ws| ==> IsWord(ws[k])
    decreases |s|
  {
    if s == [] then []
    else if IsSpace(s[0]) then Words(s[1..])
    else
      var n := RunLength(s);
      [s[..n]] + Words(s[n..])
  }

  /** `" ".join(ws)` */
  function Join(ws: seq<string>): string {
    if ws == [] then []
    else if |ws| == 1 then ws[0]
    else ws[0] + " " + Join(ws[1..])
  }

  /** The characters of `s` that are not separators, in order. */
  function NonSpace(s: string): (r: string)
    ensures |r| <= |s|
  {
    if s == [] then []
    else if IsSpace(s[0]) then NonSpace(s[1..])
    else [s[0]] + NonSpace(s[1..])
  }

  function Concat(ws: seq<string>): string {
    if ws == [] then [] else ws[0] + Concat(ws[1..])
  }

  // ---------------------------------------------------------------------
  // `w in s`

  /** Python's `w in s` on strings: `w` is a contiguous substring of `s`
      (the empty string is in every string). */
  predicate Occurs(w: string, s: string)
    ensures Occurs(w, s) ==> |w| <= |s|
    ensures w == [] ==> Occurs(w, s)
  {
    assert w == [] ==> OccursAt(w, s, 0);
    exists i :: 0 <= i <= |s| - |w| && OccursAt(w, s, i)
  }

  /** `w` is the slice of `s` that starts at position `i`. */
  predicate OccursAt(w: string, s: string, i: int) {
    0 <= i <= |s| - |w| && s[i..i + |w|] == w
  }

  // ---------------------------------------------------------------------
  // Lemmas

  /** Lowercasing is idempotent. */
  lemma {:induction false} LowerIdempotent(s: string)
    ensures Lower(Lower(s)) == Lower(s)
  {
    var l := Lower(s);
    assert |Lower(l)| == |l|;
    forall i | 0 <= i < |l| ensures Lower(l)[i] == l[i] {
      assert Lower(l)[i] == LowerChar(l[i]);
    }
  }

  /** Lowercasing neither creates nor removes separators. */
  lemma LowerKeepsSpaces(s: string)
    ensures AllSpace(Lower(s)) <==> AllSpace(s)
  {
    assert forall i :: 0 <= i < |s| ==> (IsSpace(Lower(s)[i]) <==> IsSpace(s[i]));
  }

  /** `s.split()` is empty exactly when `s` is empty or whitespace only. */
  lemma {:induction false} WordsEmptyIff(s: string)
    ensures Words(s) == [] <==> AllSpace(s)
    decreases |s|
  {
    if s == [] {
    } else if IsSpace(s[0]) {
      WordsEmptyIff(s[1..]);
      assert AllSpace(s) <==> AllSpace(s[1..]) by {
        if AllSpace(s[1..]) {
          forall i | 0 <= i < |s| ensures IsSpace(s[i]) {
            if i > 0 { assert s[i] == s[1..][i - 1]; }
          }
        }
      }
    } else {
      assert !AllSpace(s);
    }
  }

  lemma {:induction false} NonSpaceAppend(a: string, b: string)
    ensures NonSpace(a + b) == NonSpace(a) + NonSpace(b)
    decreases |a|
  {
    if a == [] {
      assert a + b == b;
    } else {
      assert (a + b)[0] == a[0];
      assert (a + b)[1..] == a[1..] + b;
      NonSpaceAppend(a[1..], b);
    }
  }

  lemma {:induction false} NonSpaceOfWord(w: string)
    requires forall i :: 0 <= i < |w| ==> !IsSpace(w[i])
    ensures NonSpace(w) == w
    decreases |w|
  {
    if w != [] {
      NonSpaceOfWord(w[1..]);
      assert w == [w[0]] + w[1..];
    }
  }

  /** Gluing the pieces of `s.split()` back together gives exactly the
      non-separator characters of `s`: nothing is lost, added or moved. */
  lemma {:induction false} WordsKeepCharacters(s: string)
    ensures Concat(Words(s)) == NonSpace(s)
    decreases |s|
  {
    if s == [] {
    } else if IsSpace(s[0]) {
      WordsKeepCharacters(s[1..]);
    } else {
      var n := RunLength(s);
      WordsKeepCharacters(s[n..]);
      assert s == s[..n] + s[n..];
      NonSpaceAppend(s[..n], s[n..]);
      NonSpaceOfWord(s[..n]);
      assert Words(s) == [s[..n]] + Words(s[n..]);
      assert Words(s)[1..] == Words(s[n..]);
    }
  }

  lemma {:induction false} RunLengthOfWord(w: string, t: string)
    requires IsWord(w)
    requires t == [] || IsSpace(t[0])
    ensures RunLength(w + t) == |w|
    decreases |w|
  {
    var s := w + t;
    if |w| == 1 {
    } else {
      assert s[1..] == w[1..] + t;
      RunLengthOfWord(w[1..], t);
    }
  }

  lemma {:induction false} WordsOfWordThen(w: string, t: string)
    requires IsWord(w)
    requires t == [] || IsSpace(t[0])
    ensures Words(w + t) == [w] + Words(t)
  {
    var s := w + t;
    RunLengthOfWord(w, t);
    assert s[..|w|] == w;
    assert s[|w|..] == t;
  }

  /** A word splits into itself. */
  lemma WordsOfWord(w: string)
    requires IsWord(w)
    ensures Words(w) == [w]
  {
    WordsOfWordThen(w, []);
    assert w + [] == w;
  }

  lemma {:induction false} RunLengthBeforeSpace(a: string, t: string)
    requires |a| > 0 && !IsSpace(a[0])
    requires t == [] || IsSpace(t[0])
    ensures RunLength(a + t) == RunLength(a)
    decreases |a|
  {
    if |a| > 1 && !IsSpace(a[1]) {
      assert (a + t)[1..] == a[1..] + t;
      RunLengthBeforeSpace(a[1..], t);
    }
  }

  /** Any separator cuts the string in two: no piece of `split()` spans it,
      so the pieces are maximal runs of non-separators. */
  lemma {:induction false} WordsSplitAtSpace(a: string, c: char, b: string)
    requires IsSpace(c)
    ensures Words(a + [c] + b) == Words(a) + Words(b)
    decreases |a|
  {
    var s := a + [c] + b;
    if a == [] {
      assert s == [c] + b;
      assert s[1..] == b;
    } else if IsSpace(a[0]) {
      assert s[1..] == a[1..] + [c] + b;
      WordsSplitAtSpace(a[1..], c, b);
    } else {
      assert s == a + ([c] + b);
      RunLengthBeforeSpace(a, [c] + b);
      var n := RunLength(a);
      assert s[..n] == a[..n];
      assert s[n..] == a[n..] + [c] + b;
      WordsSplitAtSpace(a[n..], c, b);
    }
  }

  /** Splitting a single-space join of words gives the words back. */
  lemma {:induction false} WordsOfJoin(ws: seq<string>)
    requires forall k :: 0 <= k < |ws| ==> IsWord(ws[k])
    ensures Words(Join(ws)) == ws
    decreases |ws|
  {
    if ws == [] {
    } else if |ws| == 1 {
      WordsOfWordThen(ws[0], []);
      assert ws[0] + [] == ws[0];
    } else {
      var rest := Join(ws[1..]);
      WordsOfJoin(ws[1..]);
      assert Join(ws) == ws[0] + (" " + rest);
      WordsOfWordThen(ws[0], " " + rest);
      assert (" " + rest)[1..] == rest;
    }
  }

  /** `w in a + w + b`: a substring need not be a whole word. */
  lemma OccursInside(a: string, w: string, b: string)
    ensures Occurs(w, a + w + b)
  {
    var s := a + w + b;
    assert OccursAt(w, s, |a|);
  }

  /** A piece with a capital in it is never in lowercased text. */
  lemma UpperNeverInLower(w: string, s: string)
    requires HasAsciiUpper(w)
    ensures !Occurs(w, Lower(s))
  {
    var l := Lower(s);
    var k :| 0 <= k < |w| && IsAsciiUpper(w[k]);
    forall i | 0 <= i <= |l| - |w| ensures !OccursAt(w, l, i) {
      assert l[i..i + |w|][k] == LowerChar(s[i + k]);
    }
  }

  /** A word (it has a non-separator) is never in whitespace-only text. */
  lemma WordNeverInBlank(w: string, s: string)
    requires IsWord(w)
    requires AllSpace(s)
    ensures !Occurs(w, s)
  {
    forall i | 0 <= i <= |s| - |w| ensures !OccursAt(w, s, i) {
      assert s[i..i + |w|][0] == s[i];
    }
  }
}
