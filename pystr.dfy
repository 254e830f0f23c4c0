/** Python's built-in string operations used by the normalizer:
    str.replace, str.split() with no separator, and ' '.join. */
module PyStr {

  /** Python's `s.replace(pat, rep)`: the occurrences of `pat` are found
      scanning from the left, never overlapping, and each is replaced by `rep`. */
  function Replace(s: string, pat: string, rep: string): (r: string)
    requires pat != []
    ensures forall c :: c in r ==> c in rep || (c in s && (|pat| == 1 ==> c != pat[0]))
    decreases |s|
  {
    if |s| < |pat| then
      s
    else if s[..|pat|] == pat then
      rep + Replace(s[|pat|..], pat, rep)
    else
      [s[0]] + Replace(s[1..], pat, rep)
  }

  /** The loop `for p in pats: s = s.replace(p, rep)`, one replacement per
      character of `pats`, in order. */
  function ReplaceEach(s: string, pats: seq<char>, rep: string): (r: string)
    ensures forall c :: c in r ==> c in rep || (c in s && c !in pats)
    decreases |pats|
  {
    if pats == [] then s
    else
      var before := ReplaceEach(s, pats[..|pats| - 1], rep);
      assert pats == pats[..|pats| - 1] + [pats[|pats| - 1]];
      Replace(before, [pats[|pats| - 1]], rep)
  }

  /** Replacing one character by one character rewrites the string in place. */
  lemma {:induction false} ReplaceCharPointwise(s: string, p: char, t: char)
    ensures |Replace(s, [p], [t])| == |s|
    ensures forall i :: 0 <= i < |s| ==> Replace(s, [p], [t])[i] == if s[i] == p then t else s[i]
    decreases |s|
  {
    if s != [] {
      ReplaceCharPointwise(s[1..], p, t);
    }
  }

  /** Replacing each character of `pats` by the character `t` maps every
      character of `pats` to `t` and leaves every other character where it is. */
  lemma {:induction false} ReplaceEachPointwise(s: string, pats: seq<char>, t: char)
    ensures |ReplaceEach(s, pats, [t])| == |s|
    ensures forall i :: 0 <= i < |s| ==>
      ReplaceEach(s, pats, [t])[i] == if s[i] in pats then t else s[i]
    decreases |pats|
  {
    if pats != [] {
      var init := pats[..|pats| - 1];
      var last := pats[|pats| - 1];
      assert pats == init + [last];
      ReplaceEachPointwise(s, init, t);
      ReplaceCharPointwise(ReplaceEach(s, init, [t]), last, t);
    }
  }

  /** A pattern whose first character does not occur leaves the string as it is. */
  lemma {:induction false} ReplaceAbsent(s: string, pat: string, rep: string)
    requires pat != [] && pat[0] !in s
    ensures Replace(s, pat, rep) == s
    decreases |s|
  {
    if |s| >= |pat| {
      assert s[..|pat|][0] == s[0] != pat[0];
      ReplaceAbsent(s[1..], pat, rep);
    }
  }

  /** A one-character pattern is replaced independently in two halves. */
  lemma {:induction false} ReplaceCharAppend(a: string, b: string, p: char, rep: string)
    ensures Replace(a + b, [p], rep) == Replace(a, [p], rep) + Replace(b, [p], rep)
    decreases |a|
  {
    if a == [] {
      assert a + b == b;
    } else {
      assert (a + b)[1..] == a[1..] + b;
      ReplaceCharAppend(a[1..], b, p, rep);
    }
  }

  /** Where `pat` starts `s`, it is replaced and the scan resumes after it. */
  lemma ReplaceAtMatch(s: string, pat: string, rep: string)
    requires pat != [] && |s| >= |pat| && s[..|pat|] == pat
    ensures Replace(s, pat, rep) == rep + Replace(s[|pat|..], pat, rep)
  {
  }

  /** Where `pat` does not start `s`, the first character is kept. */
  lemma ReplaceAtMiss(s: string, pat: string, rep: string)
    requires pat != [] && s != [] && !(|s| >= |pat| && s[..|pat|] == pat)
    ensures Replace(s, pat, rep) == [s[0]] + Replace(s[1..], pat, rep)
  {
  }

  /** A pattern at the very start is replaced. */
  lemma PairAtFront(pat: string, y: string, rep: string)
    requires |pat| == 2
    ensures Replace(pat + y, pat, rep) == rep + Replace(y, pat, rep)
  {
    var s := pat + y;
    assert s[..2] == pat && s[2..] == y;
    ReplaceAtMatch(s, pat, rep);
  }

  /** A pattern after one character is replaced: the character and the
      pattern's first character cannot form the pattern, as its two
      characters differ. */
  lemma PairAfterOne(a: char, pat: string, y: string, rep: string)
    requires |pat| == 2 && pat[0] != pat[1]
    ensures Replace([a] + pat + y, pat, rep) == [a] + rep + Replace(y, pat, rep)
  {
    var s := [a] + pat + y;
    assert s[..2] == [a, pat[0]] != pat;
    ReplaceAtMiss(s, pat, rep);
    assert s[1..] == pat + y;
    PairAtFront(pat, y, rep);
  }

  /** The step of `ReplacePairAround` when `x` starts with the pattern. */
  lemma PairAroundMatch(x: string, y: string, pat: string, rep: string)
    requires |pat| == 2 && |x| >= 2 && x[..2] == pat
    requires Replace(x[2..] + pat + y, pat, rep) == Replace(x[2..], pat, rep) + rep + Replace(y, pat, rep)
    ensures Replace(x + pat + y, pat, rep) == Replace(x, pat, rep) + rep + Replace(y, pat, rep)
  {
    var s := x + pat + y;
    assert s[..2] == x[..2];
    assert s[2..] == x[2..] + pat + y;
    ReplaceAtMatch(s, pat, rep);
    ReplaceAtMatch(x, pat, rep);
    PrefixAround(Replace(s, pat, rep), Replace(x, pat, rep), rep, Replace(x[2..] + pat + y, pat, rep),
                 Replace(x[2..], pat, rep), rep, Replace(y, pat, rep));
  }

  /** The step of `ReplacePairAround` when `x` does not start with the
      pattern. */
  lemma PairAroundMiss(x: string, y: string, pat: string, rep: string)
    requires |pat| == 2 && |x| >= 2 && x[..2] != pat
    requires Replace(x[1..] + pat + y, pat, rep) == Replace(x[1..], pat, rep) + rep + Replace(y, pat, rep)
    ensures Replace(x + pat + y, pat, rep) == Replace(x, pat, rep) + rep + Replace(y, pat, rep)
  {
    var s := x + pat + y;
    assert s[..2] == x[..2] && s[0] == x[0];
    assert s[1..] == x[1..] + pat + y;
    ReplaceAtMiss(s, pat, rep);
    ReplaceAtMiss(x, pat, rep);
    PrefixAround(Replace(s, pat, rep), Replace(x, pat, rep), [x[0]], Replace(x[1..] + pat + y, pat, rep),
                 Replace(x[1..], pat, rep), rep, Replace(y, pat, rep));
  }

  /** The bookkeeping of the two steps above: the same head in front of both
      sides. */
  lemma PrefixAround(whole: string, left: string, head: string, tail: string, a: string, mid: string, b: string)
    requires whole == head + tail && tail == a + mid + b && left == head + a
    ensures whole == left + mid + b
  {
  }

  /** The base cases of `ReplacePairAround`: `x` shorter than the pattern. */
  lemma PairAroundShort(x: string, y: string, pat: string, rep: string)
    requires |pat| == 2 && pat[0] != pat[1] && |x| < 2
    ensures Replace(x + pat + y, pat, rep) == Replace(x, pat, rep) + rep + Replace(y, pat, rep)
  {
    assert Replace(x, pat, rep) == x;
    if x == [] {
      assert x + pat + y == pat + y;
      PairAtFront(pat, y, rep);
    } else {
      assert x + pat + y == [x[0]] + pat + y;
      PairAfterOne(x[0], pat, y, rep);
    }
  }

  /** A two-character pattern whose characters differ cannot overlap itself,
      so an occurrence placed between `x` and `y` is always the one replaced,
      whatever `x` ends with. */
  lemma {:induction false} ReplacePairAround(x: string, y: string, pat: string, rep: string)
    requires |pat| == 2 && pat[0] != pat[1]
    ensures Replace(x + pat + y, pat, rep) == Replace(x, pat, rep) + rep + Replace(y, pat, rep)
    decreases |x|
  {
    if |x| < 2 {
      PairAroundShort(x, y, pat, rep);
    } else if x[..2] == pat {
      ReplacePairAround(x[2..], y, pat, rep);
      PairAroundMatch(x, y, pat, rep);
    } else {
      ReplacePairAround(x[1..], y, pat, rep);
      PairAroundMiss(x, y, pat, rep);
    }
  }

  /** Python 2's unicode.isspace() for one character, which is what split()
      with no separator splits on: the characters of bidirectional class WS,
      B or S, or of category Zs, in the Unicode database Python 2.7 ships
      (there U+180E MONGOLIAN VOWEL SEPARATOR is still a space separator). */
  predicate IsSpace(c: char) {
    || '\t' <= c <= '\r'
    || '\U{1C}' <= c <= '\U{1F}'
    || c == ' ' || c == '\U{85}' || c == '\U{A0}' || c == '\U{1680}' || c == '\U{180E}'
    || '\U{2000}' <= c <= '\U{200A}'
    || c == '\U{2028}' || c == '\U{2029}' || c == '\U{202F}' || c == '\U{205F}'
    || c == '\U{3000}'
  }

  predicate NoSpace(w: string) {
    forall i :: 0 <= i < |w| ==> !IsSpace(w[i])
  }

  /** The longest prefix of `s` holding no whitespace. */
  function Word(s: string): (w: string)
    ensures |w| <= |s| && w == s[..|w|]
    ensures NoSpace(w)
    ensures |w| < |s| ==> IsSpace(s[|w|])
    ensures s != [] && !IsSpace(s[0]) ==> w != []
    decreases |s|
  {
    if s == [] || IsSpace(s[0]) then [] else [s[0]] + Word(s[1..])
  }

  /** Python's `s.split()`: the maximal runs of non-whitespace, in order. */
  function Split(s: string): (words: seq<string>)
    ensures forall k :: 0 <= k < |words| ==> words[k] != [] && NoSpace(words[k])
    decreases |s|
  {
    if s == [] then []
    else if IsSpace(s[0]) then Split(s[1..])
    else
      var w := Word(s);
      [w] + Split(s[|w|..])
  }

  /** Python's `' '.join(words)`. */
  function Join(words: seq<string>): string
    decreases |words|
  {
    if words == [] then []
    else if |words| == 1 then words[0]
    else words[0] + " " + Join(words[1..])
  }

  /** `' '.join(s.split())`: runs of whitespace become one space, and the
      ends are stripped. */
  function Collapse(s: string): string {
    Join(Split(s))
  }

  /** The characters of `s` that are not whitespace, in order. */
  function Visible(s: string): string
    decreases |s|
  {
    if s == [] then [] else (if IsSpace(s[0]) then [] else [s[0]]) + Visible(s[1..])
  }

  function Concat(words: seq<string>): string
    decreases |words|
  {
    if words == [] then [] else words[0] + Concat(words[1..])
  }

  /** `' '.join(words)` holds the words plus one space between each pair of
      neighbours. */
  lemma {:induction false} JoinLength(words: seq<string>)
    requires words != []
    ensures |Join(words)| == |Concat(words)| + |words| - 1
    decreases |words|
  {
    if |words| > 1 {
      JoinLength(words[1..]);
    }
  }

  /** The shape of a collapsed string: its only whitespace is a plain space,
      never at either end and never next to other whitespace. */
  predicate Collapsed(r: string) {
    forall i :: 0 <= i < |r| && IsSpace(r[i]) ==>
      r[i] == ' ' && 0 < i < |r| - 1 && !IsSpace(r[i - 1]) && !IsSpace(r[i + 1])
  }

  predicate Words(words: seq<string>) {
    forall k :: 0 <= k < |words| ==> words[k] != [] && NoSpace(words[k])
  }

  lemma {:induction false} JoinCollapsed(words: seq<string>)
    requires Words(words)
    ensures Collapsed(Join(words))
    ensures words != [] ==> Join(words) != []
    decreases |words|
  {
    if |words| >= 2 {
      var w, rest := words[0], Join(words[1..]);
      JoinCollapsed(words[1..]);
      var r := Join(words);
      assert r == w + " " + rest;
      assert !IsSpace(rest[0]);
      forall i | 0 <= i < |r| && IsSpace(r[i])
        ensures r[i] == ' ' && 0 < i < |r| - 1 && !IsSpace(r[i - 1]) && !IsSpace(r[i + 1])
      {
        if i > |w| {
          assert r[i] == rest[i - |w| - 1];
          if i - 1 > |w| {
            assert r[i - 1] == rest[i - 1 - |w| - 1];
          }
          assert r[i + 1] == rest[i + 1 - |w| - 1];
        }
      }
    }
  }

  /** Collapsing leaves a string of the collapsed shape. */
  lemma CollapseIsCollapsed(s: string)
    ensures Collapsed(Collapse(s))
  {
    JoinCollapsed(Split(s));
  }

  lemma {:induction false} VisibleAppend(a: string, b: string)
    ensures Visible(a + b) == Visible(a) + Visible(b)
    decreases |a|
  {
    if a == [] {
      assert a + b == b;
    } else {
      assert (a + b)[1..] == a[1..] + b;
      VisibleAppend(a[1..], b);
    }
  }

  lemma {:induction false} VisibleOfWord(w: string)
    requires NoSpace(w)
    ensures Visible(w) == w
    decreases |w|
  {
    if w != [] {
      VisibleOfWord(w[1..]);
    }
  }

  lemma {:induction false} VisibleJoin(words: seq<string>)
    requires Words(words)
    ensures Visible(Join(words)) == Concat(words)
    decreases |words|
  {
    if |words| == 1 {
      VisibleOfWord(words[0]);
      assert Concat(words[1..]) == [];
    } else if |words| >= 2 {
      VisibleJoin(words[1..]);
      VisibleAppend(words[0] + " ", Join(words[1..]));
      VisibleAppend(words[0], " ");
      VisibleOfWord(words[0]);
    }
  }

  lemma {:induction false} VisibleSplit(s: string)
    ensures Concat(Split(s)) == Visible(s)
    decreases |s|
  {
    if s != [] {
      if IsSpace(s[0]) {
        VisibleSplit(s[1..]);
      } else {
        var w := Word(s);
        VisibleSplit(s[|w|..]);
        assert s == w + s[|w|..];
        VisibleAppend(w, s[|w|..]);
        VisibleOfWord(w);
      }
    }
  }

  /** Collapsing keeps every non-whitespace character, in order. */
  lemma CollapseKeepsVisible(s: string)
    ensures Visible(Collapse(s)) == Visible(s)
  {
    VisibleJoin(Split(s));
    VisibleSplit(s);
  }

  lemma {:induction false} InVisible(s: string, c: char)
    ensures c in Visible(s) <==> c in s && !IsSpace(c)
    decreases |s|
  {
    if s != [] {
      InVisible(s[1..], c);
      assert s == [s[0]] + s[1..];
    }
  }

  /** The characters of a collapsed string are a space or came from the
      input and are not whitespace. */
  lemma CollapseChars(s: string)
    ensures forall c :: c in Collapse(s) ==> c == ' ' || (c in s && !IsSpace(c))
  {
    var r := Collapse(s);
    CollapseIsCollapsed(s);
    CollapseKeepsVisible(s);
    forall c | c in r
      ensures c == ' ' || (c in s && !IsSpace(c))
    {
      if !IsSpace(c) {
        InVisible(r, c);
        InVisible(s, c);
      }
    }
  }

  lemma {:induction false} WordOfPrefix(w: string, t: string)
    requires NoSpace(w)
    requires t == [] || IsSpace(t[0])
    ensures Word(w + t) == w
    decreases |w|
  {
    if w == [] {
      assert w + t == t;
    } else {
      assert (w + t)[1..] == w[1..] + t;
      WordOfPrefix(w[1..], t);
    }
  }

  /** Splitting undoes joining words that are non-empty and hold no whitespace. */
  lemma {:induction false} SplitJoin(words: seq<string>)
    requires Words(words)
    ensures Split(Join(words)) == words
    decreases |words|
  {
    if |words| == 1 {
      var w := words[0];
      WordOfPrefix(w, []);
      assert w + [] == w;
      assert w[|w|..] == [];
    } else if |words| >= 2 {
      var w, rest := words[0], Join(words[1..]);
      var s := w + " " + rest;
      assert s == w + (" " + rest);
      WordOfPrefix(w, " " + rest);
      assert s[|w|..] == " " + rest;
      assert (" " + rest)[1..] == rest;
      SplitJoin(words[1..]);
    }
  }

  /** A whitespace character always ends a word: the words on its two sides
      are split apart and never merge. */
  lemma {:induction false} SplitAtSpace(x: string, c: char, y: string)
    requires IsSpace(c)
    ensures Split(x + [c] + y) == Split(x) + Split(y)
    decreases |x|, 2
  {
    if x == [] || IsSpace(x[0]) {
      SplitAtSpaceLead(x, c, y);
    } else {
      SplitAtSpaceWord(x, c, y);
    }
  }

  /** `SplitAtSpace` when `x` is empty or starts with whitespace. */
  lemma {:induction false} SplitAtSpaceLead(x: string, c: char, y: string)
    requires IsSpace(c) && (x == [] || IsSpace(x[0]))
    ensures Split(x + [c] + y) == Split(x) + Split(y)
    decreases |x|, 0
  {
    SpaceFirst(x, c, y);
    if x == [] {
      assert Split(x) == [];
    } else {
      SplitAtSpace(x[1..], c, y);
    }
  }

  /** `SplitAtSpace` when `x` starts with a word. */
  lemma {:induction false} SplitAtSpaceWord(x: string, c: char, y: string)
    requires IsSpace(c) && x != [] && !IsSpace(x[0])
    ensures Split(x + [c] + y) == Split(x) + Split(y)
    decreases |x|, 1
  {
    var rest := WordFirst(x, c, y);
    SplitAfterWord(x, rest, c, y);
  }

  /** `SplitAtSpace` once the first word of `x` is set aside: what follows it
      splits at `c` as `x` itself does. */
  lemma {:induction false} SplitAfterWord(x: string, rest: string, c: char, y: string)
    requires IsSpace(c) && |rest| < |x|
    requires Split(x) == [Word(x)] + Split(rest)
    requires Split(x + [c] + y) == [Word(x)] + Split(rest + [c] + y)
    ensures Split(x + [c] + y) == Split(x) + Split(y)
    decreases |x|, 0
  {
    if rest != [] {
      SplitAtSpace(rest, c, y);
    } else {
      SpaceFirst(rest, c, y);
      assert Split(rest) == [];
    }
    ConsAppend(Split(x + [c] + y), Split(x), Word(x), Split(rest + [c] + y), Split(rest), Split(y));
  }

  /** The bookkeeping of `SplitAfterWord`: putting the same word in front
      of both sides of an append. */
  lemma ConsAppend(whole: seq<string>, left: seq<string>, w: string, tail: seq<string>, rest: seq<string>, right: seq<string>)
    requires left == [w] + rest && whole == [w] + tail && tail == rest + right
    ensures whole == left + right
  {
  }

  /** The step of `SplitAtSpace` when `x` is empty or starts with whitespace. */
  lemma SpaceFirst(x: string, c: char, y: string)
    requires IsSpace(c) && (x == [] || IsSpace(x[0]))
    ensures x == [] ==> Split(x + [c] + y) == Split(y)
    ensures x != [] ==> Split(x) == Split(x[1..]) && Split(x + [c] + y) == Split(x[1..] + [c] + y)
  {
    var s := x + [c] + y;
    if x == [] {
      assert s == [c] + y && s[1..] == y;
    } else {
      assert s[0] == x[0];
      assert s[1..] == x[1..] + [c] + y;
    }
  }

  /** The step of `SplitAtSpace` when `x` starts with a word: that word comes
      first on both sides, and the splitting resumes after it. */
  lemma WordFirst(x: string, c: char, y: string) returns (rest: string)
    requires IsSpace(c) && x != [] && !IsSpace(x[0])
    ensures |rest| < |x|
    ensures Split(x) == [Word(x)] + Split(rest)
    ensures Split(x + [c] + y) == [Word(x)] + Split(rest + [c] + y)
  {
    var w := Word(x);
    rest := x[|w|..];
    var s := x + [c] + y;
    assert x == w + rest;
    assert s == w + (rest + [c] + y);
    WordOfPrefix(w, rest + [c] + y);
    assert s[|w|..] == rest + [c] + y;
  }

  /** Leading whitespace yields no word. */
  lemma {:induction false} SplitAfterSpaces(ws: string, y: string)
    requires forall i :: 0 <= i < |ws| ==> IsSpace(ws[i])
    ensures Split(ws + y) == Split(y)
    decreases |ws|
  {
    if ws == [] {
      assert ws + y == y;
    } else {
      assert (ws + y)[0] == ws[0];
      assert (ws + y)[1..] == ws[1..] + y;
      SplitAfterSpaces(ws[1..], y);
    }
  }

  /** A run of whitespace splits the string, whatever surrounds it. */
  lemma {:induction false} SplitAroundRun(x: string, ws: string, y: string)
    requires ws != [] && forall i :: 0 <= i < |ws| ==> IsSpace(ws[i])
    ensures Split(x + ws + y) == Split(x) + Split(y)
  {
    assert x + ws + y == x + [ws[0]] + (ws[1..] + y);
    SplitAtSpace(x, ws[0], ws[1..] + y);
    SplitAfterSpaces(ws[1..], y);
  }

  /** `' '.join(s.split())` turns a run of whitespace between two words into
      exactly one space. */
  lemma {:induction false} CollapseRun(a: string, ws: string, b: string)
    requires a != [] && b != [] && NoSpace(a) && NoSpace(b)
    requires ws != [] && forall i :: 0 <= i < |ws| ==> IsSpace(ws[i])
    ensures Collapse(a + ws + b) == a + " " + b
  {
    SplitAroundRun(a, ws, b);
    SplitJoin([a]);
    SplitJoin([b]);
    assert Split(a + ws + b) == [a, b];
  }

  /** `' '.join(s.split())` applied twice is the same as applied once. */
  lemma CollapseIdempotent(s: string)
    ensures Collapse(Collapse(s)) == Collapse(s)
  {
    SplitJoin(Split(s));
  }
}
