/** `normalize(text, form='NFKC', collapse=True)` from twitterplus/admin.py:
    Unicode canonicalisation followed by a fixed sequence of str.replace calls
    and, optionally, whitespace collapsing. */
module Normalizer {
  import opened PyStr

  /** What normalize takes from outside the file: `unicodedata.normalize`
      applied after `to_unicode`, and the CONTROLS and HYPHENS tables, each a
      collection of single characters. */
  datatype Env = Env(
    unicodeNormalize: (string, string) -> string,
    controls: seq<char>,
    hyphens: seq<char>)

  const DEFAULT_FORM := "NFKC"

  const SOFT_HYPHEN := '\U{AD}'
  const LEFT_DOUBLE_QUOTE := '\U{201C}'
  const RIGHT_DOUBLE_QUOTE := '\U{201D}'
  /** Left and right single quotation marks, grave accent, acute accent. */
  const SINGLE_QUOTES: seq<char> := ['\U{2018}', '\U{2019}', '\U{60}', '\U{B4}']

  /** The only characters the replacement steps ever write. */
  const INTRODUCED: seq<char> := ['-', '"', '\'', ' ', '\n']

  /** Characters every replacement step after canonicalisation removes. */
  const REMOVED: seq<char> := [
    SOFT_HYPHEN, LEFT_DOUBLE_QUOTE, RIGHT_DOUBLE_QUOTE,
    '\U{2018}', '\U{2019}', '\U{60}', '\U{B4}',
    '\U{B}', '\U{C}', '\U{85}', '\U{2028}', '\U{2029}', '\r']

  function DropControls(t: string, controls: seq<char>): string {
    ReplaceEach(t, controls, "")
  }

  function UnifyHyphens(t: string, hyphens: seq<char>): string {
    Replace(ReplaceEach(t, hyphens, "-"), [SOFT_HYPHEN], "")
  }

  function UnifyDoubleQuotes(t: string): string {
    var t1 := Replace(Replace(t, "''", "\""), "``", "\"");
    Replace(Replace(t1, [LEFT_DOUBLE_QUOTE], "\""), [RIGHT_DOUBLE_QUOTE], "\"")
  }

  function UnifySingleQuotes(t: string): string {
    ReplaceEach(t, SINGLE_QUOTES, "'")
  }

  /** Vertical tab, form feed and next-line become a space. */
  function UnifySpaces(t: string): string {
    Replace(Replace(Replace(t, "\U{B}", " "), "\U{C}", " "), "\U{85}", " ")
  }

  /** Line separator, paragraph separator, CRLF and CR become a newline. */
  function UnifyNewlines(t: string): string {
    var t1 := Replace(Replace(t, "\U{2028}", "\n"), "\U{2029}", "\n");
    Replace(Replace(t1, "\r\n", "\n"), "\r", "\n")
  }

  /** The text just before the optional collapsing step. */
  function Unified(text: string, form: string, env: Env): string {
    var canonical := env.unicodeNormalize(form, text);
    var t := UnifyHyphens(DropControls(canonical, env.controls), env.hyphens);
    UnifyNewlines(UnifySpaces(UnifySingleQuotes(UnifyDoubleQuotes(t))))
  }

  /** The value normalize returns. */
  function NormalizeSpec(text: string, form: string, collapse: bool, env: Env): string {
    var t := Unified(text, form, env);
    if collapse then Collapse(t) else t
  }

  /** normalize as the source writes it: the text is reassigned step by step,
      with one loop over CONTROLS, one over HYPHENS and one over the single
      quote marks. */
  method Normalize(text: string, form: string, collapse: bool, env: Env) returns (r: string)
    ensures r == NormalizeSpec(text, form, collapse, env)
  {
    r := env.unicodeNormalize(form, text);
    ghost var canonical := r;
    for i := 0 to |env.controls|
      invariant r == ReplaceEach(canonical, env.controls[..i], "")
    {
      assert env.controls[..i + 1][..i] == env.controls[..i];
      r := Replace(r, [env.controls[i]], "");
    }
    assert env.controls[..|env.controls|] == env.controls;
    ghost var clean := r;
    for i := 0 to |env.hyphens|
      invariant r == ReplaceEach(clean, env.hyphens[..i], "-")
    {
      assert env.hyphens[..i + 1][..i] == env.hyphens[..i];
      r := Replace(r, [env.hyphens[i]], "-");
    }
    assert env.hyphens[..|env.hyphens|] == env.hyphens;
    r := Replace(r, [SOFT_HYPHEN], "");
    r := Replace(Replace(r, "''", "\""), "``", "\"");
    r := Replace(r, [LEFT_DOUBLE_QUOTE], "\"");
    r := Replace(r, [RIGHT_DOUBLE_QUOTE], "\"");
    ghost var quoted := r;
    for i := 0 to |SINGLE_QUOTES|
      invariant r == ReplaceEach(quoted, SINGLE_QUOTES[..i], "'")
    {
      assert SINGLE_QUOTES[..i + 1][..i] == SINGLE_QUOTES[..i];
      r := Replace(r, [SINGLE_QUOTES[i]], "'");
    }
    assert SINGLE_QUOTES[..|SINGLE_QUOTES|] == SINGLE_QUOTES;
    r := Replace(Replace(Replace(r, "\U{B}", " "), "\U{C}", " "), "\U{85}", " ");
    r := Replace(Replace(r, "\U{2028}", "\n"), "\U{2029}", "\n");
    r := Replace(Replace(r, "\r\n", "\n"), "\r", "\n");
    if collapse {
      r := Join(Split(r));
    }
  }

  /** Every character of the result is one the replacement steps write, or
      comes from the canonicalised text and is none of the controls, none of
      the hyphens and none of the characters the steps remove. */
  lemma NormalizedProvenance(text: string, form: string, collapse: bool, env: Env)
    ensures forall c :: c in NormalizeSpec(text, form, collapse, env) ==>
      c in INTRODUCED ||
      (c in env.unicodeNormalize(form, text) && c !in env.controls && c !in env.hyphens && c !in REMOVED)
  {
    var t := Unified(text, form, env);
    if collapse {
      CollapseChars(t);
    }
  }

  /** No soft hyphen, curly or backtick quote, vertical tab, form feed,
      next-line, line or paragraph separator or carriage return survives,
      whether or not whitespace is collapsed. */
  lemma NoRemovedCharacter(text: string, form: string, collapse: bool, env: Env)
    ensures forall c :: c in REMOVED ==> c !in NormalizeSpec(text, form, collapse, env)
  {
    NormalizedProvenance(text, form, collapse, env);
    RemovedNotIntroduced(NormalizeSpec(text, form, collapse, env));
  }

  lemma RemovedNotIntroduced(r: string)
    requires forall c :: c in r ==> c in INTRODUCED || c !in REMOVED
    ensures forall c :: c in REMOVED ==> c !in r
  {
    forall c | c in REMOVED
      ensures c !in INTRODUCED
    {
    }
  }

  /** When no hyphen variant is one of the characters later steps write (in
      particular not '-' itself), none is left in the result. */
  lemma NoHyphenLeft(text: string, form: string, collapse: bool, env: Env)
    requires forall h :: h in env.hyphens ==> h !in INTRODUCED
    ensures forall h :: h in env.hyphens ==> h !in NormalizeSpec(text, form, collapse, env)
  {
    NormalizedProvenance(text, form, collapse, env);
  }

  /** Likewise for the control characters. */
  lemma NoControlLeft(text: string, form: string, collapse: bool, env: Env)
    requires forall k :: k in env.controls ==> k !in INTRODUCED
    ensures forall k :: k in env.controls ==> k !in NormalizeSpec(text, form, collapse, env)
  {
    NormalizedProvenance(text, form, collapse, env);
  }

  /** The hyphen step character by character: a hyphen variant becomes '-',
      a soft hyphen is dropped, and any other character is kept. */
  function DashOrDrop(t: string, hyphens: seq<char>): string
    decreases |t|
  {
    if t == [] then []
    else
      (if t[0] in hyphens then "-" else if t[0] == SOFT_HYPHEN then "" else [t[0]])
        + DashOrDrop(t[1..], hyphens)
  }

  /** Dropping soft hyphens from the text after the hyphen loop, given that
      loop's pointwise effect. */
  lemma {:induction false} DropSoftAfterDash(t: string, hyphens: seq<char>, m: string)
    requires |m| == |t|
    requires forall i :: 0 <= i < |t| ==> m[i] == if t[i] in hyphens then '-' else t[i]
    ensures Replace(m, [SOFT_HYPHEN], "") == DashOrDrop(t, hyphens)
    decreases |t|
  {
    if t != [] {
      assert m[..1] == [m[0]];
      if m[0] == SOFT_HYPHEN {
        ReplaceAtMatch(m, [SOFT_HYPHEN], "");
      } else {
        ReplaceAtMiss(m, [SOFT_HYPHEN], "");
      }
      DropSoftAfterDash(t[1..], hyphens, m[1..]);
    }
  }

  /** The hyphen step, after the controls are dropped and before the quotes
      are unified, maps every hyphen variant to '-' and removes every soft
      hyphen, keeping all other characters in order. */
  lemma HyphensBecomeDash(t: string, hyphens: seq<char>)
    ensures UnifyHyphens(t, hyphens) == DashOrDrop(t, hyphens)
  {
    ReplaceEachPointwise(t, hyphens, '-');
    DropSoftAfterDash(t, hyphens, ReplaceEach(t, hyphens, "-"));
  }

  /** With collapsing on, a run of whitespace between two words of the text
      before collapsing becomes exactly one space. */
  lemma CollapseSeparatesWords(text: string, form: string, env: Env, a: string, ws: string, b: string)
    requires Unified(text, form, env) == a + ws + b
    requires a != [] && b != [] && NoSpace(a) && NoSpace(b)
    requires ws != [] && forall i :: 0 <= i < |ws| ==> IsSpace(ws[i])
    ensures NormalizeSpec(text, form, true, env) == a + " " + b
  {
    CollapseRun(a, ws, b);
  }

  /** With collapsing on, the result has the collapsed shape (no whitespace
      but single inner spaces, so no newline) and keeps every non-whitespace
      character of the text before collapsing, in order. */
  lemma CollapsedResult(text: string, form: string, env: Env)
    ensures Collapsed(NormalizeSpec(text, form, true, env))
    ensures '\n' !in NormalizeSpec(text, form, true, env)
    ensures Visible(NormalizeSpec(text, form, true, env)) == Visible(Unified(text, form, env))
  {
    var t := Unified(text, form, env);
    CollapseIsCollapsed(t);
    CollapseKeepsVisible(t);
  }

  /** With collapsing off, the newline-normalised text is returned as is, and
      collapsing it afterwards gives the collapsed result. */
  lemma UncollapsedResult(text: string, form: string, env: Env)
    ensures NormalizeSpec(text, form, false, env) == Unified(text, form, env)
    ensures Collapse(NormalizeSpec(text, form, false, env)) == NormalizeSpec(text, form, true, env)
  {
  }

  /** CRLF becomes one newline, wherever it stands. */
  lemma CrLfIsOneNewline(x: string, y: string)
    ensures UnifyNewlines(x + "\r\n" + y) == UnifyNewlines(x) + "\n" + UnifyNewlines(y)
  {
    var ls, ps := "\U{2028}", "\U{2029}";
    assert Replace("\r\n", ls, "\n") == "\r\n";
    assert Replace("\r\n", ps, "\n") == "\r\n";
    ReplaceCharAppend(x + "\r\n", y, ls[0], "\n");
    ReplaceCharAppend(x, "\r\n", ls[0], "\n");
    var x1, y1 := Replace(x, ls, "\n"), Replace(y, ls, "\n");
    ReplaceCharAppend(x1 + "\r\n", y1, ps[0], "\n");
    ReplaceCharAppend(x1, "\r\n", ps[0], "\n");
    var x2, y2 := Replace(x1, ps, "\n"), Replace(y1, ps, "\n");
    ReplacePairAround(x2, y2, "\r\n", "\n");
    var x3, y3 := Replace(x2, "\r\n", "\n"), Replace(y2, "\r\n", "\n");
    ReplaceCharAppend(x3 + "\n", y3, '\r', "\n");
    ReplaceCharAppend(x3, "\n", '\r', "\n");
    assert Replace("\n", "\r", "\n") == "\n";
  }

  /** The canonicalisation that leaves text alone, with empty tables. */
  function PlainEnv(): Env {
    Env((form: string, t: string) => t, [], [])
  }

  /** normalize is not idempotent: with canonicalisation that leaves the text
      alone and empty tables, a left and a right single quotation mark become
      two apostrophes, which a second call turns into one double quote. */
  lemma NormalizeNotIdempotent()
    ensures NormalizeSpec("\U{2018}\U{2019}", DEFAULT_FORM, true, PlainEnv()) == "''"
    ensures NormalizeSpec("''", DEFAULT_FORM, true, PlainEnv()) == "\""
  {
    CurlyQuotesBecomeApostrophes();
    ApostrophesBecomeDoubleQuote();
  }

  lemma CurlyQuotesBecomeApostrophes()
    ensures NormalizeSpec("\U{2018}\U{2019}", DEFAULT_FORM, true, PlainEnv()) == "''"
  {
    CurlyQuotesUnified();
    QuotesCollapse("''");
  }

  lemma CurlyQuotesUnified()
    ensures Unified("\U{2018}\U{2019}", DEFAULT_FORM, PlainEnv()) == "''"
  {
    var s := "\U{2018}\U{2019}";
    assert PlainEnv().unicodeNormalize(DEFAULT_FORM, s) == s;
    UntouchedBeforeSingleQuotes(s);
    CurlyQuotesStep();
    AfterSingleQuotesUntouched("''");
  }

  lemma CurlyQuotesStep()
    ensures UnifySingleQuotes("\U{2018}\U{2019}") == "''"
  {
    var s := "\U{2018}\U{2019}";
    assert s[1..] == ['\U{2019}'];
    var q1 := Replace(s, ['\U{2018}'], "'");
    assert q1 == "'" + Replace(s[1..], ['\U{2018}'], "'");
    assert Replace(s[1..], ['\U{2018}'], "'") == s[1..];
    assert q1[1..] == ['\U{2019}'];
    var q2 := Replace(q1, ['\U{2019}'], "'");
    assert q2 == [q1[0]] + Replace(q1[1..], ['\U{2019}'], "'");
    assert q2 == "''";
    ReplaceAbsent(q2, ['\U{60}'], "'");
    ReplaceAbsent(q2, ['\U{B4}'], "'");
    assert SINGLE_QUOTES[..1][..0] == [];
    assert ReplaceEach(s, SINGLE_QUOTES[..1], "'") == q1;
    assert SINGLE_QUOTES[..2][..1] == SINGLE_QUOTES[..1];
    assert ReplaceEach(s, SINGLE_QUOTES[..2], "'") == q2;
    assert SINGLE_QUOTES[..3][..2] == SINGLE_QUOTES[..2];
    assert ReplaceEach(s, SINGLE_QUOTES[..3], "'") == q2;
    assert SINGLE_QUOTES[..4] == SINGLE_QUOTES;
  }

  lemma ApostrophesBecomeDoubleQuote()
    ensures NormalizeSpec("''", DEFAULT_FORM, true, PlainEnv()) == "\""
  {
    ApostrophesUnified();
    QuotesCollapse("\"");
  }

  lemma ApostrophesUnified()
    ensures Unified("''", DEFAULT_FORM, PlainEnv()) == "\""
  {
    assert PlainEnv().unicodeNormalize(DEFAULT_FORM, "''") == "''";
    UntouchedBeforeSingleQuotesExceptQuotes("''");
    ApostrophesStep();
    ReplaceEachAbsent("\"", SINGLE_QUOTES, "'");
    AfterSingleQuotesUntouched("\"");
  }

  lemma ApostrophesStep()
    ensures UnifyDoubleQuotes("''") == "\""
  {
    assert "''"[..2] == "''";
    assert "''"[2..] == [];
    assert Replace("''", "''", "\"") == "\"";
    ReplaceAbsent("\"", "``", "\"");
    ReplaceAbsent("\"", [LEFT_DOUBLE_QUOTE], "\"");
    ReplaceAbsent("\"", [RIGHT_DOUBLE_QUOTE], "\"");
  }

  /** The results of the two examples are single words, which collapsing keeps. */
  lemma QuotesCollapse(t: string)
    requires t == "''" || t == "\""
    ensures Collapse(t) == t
  {
    assert t + [] == t && t[|t|..] == [];
    WordOfPrefix(t, []);
    assert Split(t) == [t];
  }

  /** Helpers for the example above: steps that find nothing to replace. */
  lemma ReplaceEachAbsent(s: string, pats: seq<char>, rep: string)
    requires forall c :: c in pats ==> c !in s
    ensures ReplaceEach(s, pats, rep) == s
    decreases |pats|
  {
    if pats != [] {
      ReplaceEachAbsent(s, pats[..|pats| - 1], rep);
      ReplaceAbsent(s, [pats[|pats| - 1]], rep);
    }
  }

  lemma UntouchedBeforeSingleQuotes(s: string)
    requires forall c :: c in s ==> c == '\U{2018}' || c == '\U{2019}'
    ensures UnifyDoubleQuotes(UnifyHyphens(DropControls(s, []), [])) == s
  {
    ReplaceAbsent(s, [SOFT_HYPHEN], "");
    ReplaceAbsent(s, "''", "\"");
    ReplaceAbsent(s, "``", "\"");
    ReplaceAbsent(s, [LEFT_DOUBLE_QUOTE], "\"");
    ReplaceAbsent(s, [RIGHT_DOUBLE_QUOTE], "\"");
  }

  lemma UntouchedBeforeSingleQuotesExceptQuotes(s: string)
    requires forall c :: c in s ==> c == '\''
    ensures UnifyHyphens(DropControls(s, []), []) == s
  {
    ReplaceAbsent(s, [SOFT_HYPHEN], "");
  }

  lemma AfterSingleQuotesUntouched(s: string)
    requires forall c :: c in s ==> c == '\'' || c == '"'
    ensures UnifyNewlines(UnifySpaces(s)) == s
  {
    ReplaceAbsent(s, "\U{B}", " ");
    ReplaceAbsent(s, "\U{C}", " ");
    ReplaceAbsent(s, "\U{85}", " ");
    ReplaceAbsent(s, "\U{2028}", "\n");
    ReplaceAbsent(s, "\U{2029}", "\n");
    ReplaceAbsent(s, "\r\n", "\n");
    ReplaceAbsent(s, "\r", "\n");
  }
}
