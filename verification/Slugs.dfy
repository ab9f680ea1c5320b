/** `slugify`: lower-case, replace runs of other characters by one hyphen, trim, add a random suffix.
    The pipeline is proved to join the alphanumeric words of the title. */
module Slugs {

  predicate IsWordChar(c: char) {
    'a' <= c <= 'z' || '0' <= c <= '9'
  }

  predicate IsWord(w: string) {
    w != [] && forall i | 0 <= i < |w| :: IsWordChar(w[i])
  }

  predicate IsHexDigit(c: char) {
    '0' <= c <= '9' || 'a' <= c <= 'f'
  }

  /** The first eight characters of a UUID in text form. */
  type Suffix = s: string | IsSuffix(s) witness "00000000"

  predicate IsSuffix(s: string) {
    |s| == 8 && forall i | 0 <= i < |s| :: IsHexDigit(s[i])
  }

  /** Lower case as far as [a-z0-9] can tell: besides A-Z, only the Kelvin sign and the dotted
      capital I have a lower case in that range. Characters it keeps are outside it. */
  function LowerChar(c: char): char {
    if 'A' <= c <= 'Z' then (c as int + 32) as char
    else if c == '\U{212A}' then 'k'
    else if c == '\U{0130}' then 'i'
    else c
  }

  function Lower(s: string): string {
    seq(|s|, i requires 0 <= i < |s| => LowerChar(s[i]))
  }

  // ---- the meaning ------------------------------------------------------------

  /** The maximal runs of [a-z0-9]. */
  function Words(s: string): (ws: seq<string>)
    ensures forall i | 0 <= i < |ws| :: IsWord(ws[i])
    ensures s != [] && IsWordChar(s[|s| - 1]) ==> ws != []
  {
    if s == [] then []
    else
      var n := |s| - 1;
      var ws := Words(s[..n]);
      if !IsWordChar(s[n]) then ws
      else if n > 0 && IsWordChar(s[n - 1]) then ws[|ws| - 1 := ws[|ws| - 1] + [s[n]]]
      else ws + [[s[n]]]
  }

  function Join(ws: seq<string>): string {
    if ws == [] then ""
    else if |ws| == 1 then ws[0]
    else Join(ws[..|ws| - 1]) + "-" + ws[|ws| - 1]
  }

  function Base(title: string): string {
    var ws := Words(Lower(title));
    if ws == [] then "post" else Join(ws)
  }

  function Slug(title: string, suffix: Suffix): string {
    Base(title) + "-" + suffix
  }

  // ---- the pipeline -----------------------------------------------------------

  /** ReplaceAllString of `[^a-z0-9]+` by a hyphen. */
  function Collapse(s: string): string {
    if s == [] then ""
    else
      var n := |s| - 1;
      if IsWordChar(s[n]) then Collapse(s[..n]) + [s[n]]
      else if n > 0 && !IsWordChar(s[n - 1]) then Collapse(s[..n])
      else Collapse(s[..n]) + "-"
  }

  method CollapseRuns(s: string) returns (out: string)
    ensures out == Collapse(s)
  {
    out := "";
    for i := 0 to |s|
      invariant out == Collapse(s[..i])
    {
      assert s[..i + 1][..i] == s[..i];
      if IsWordChar(s[i]) {
        out := out + [s[i]];
      } else if i == 0 || IsWordChar(s[i - 1]) {
        out := out + "-";
      }
    }
    assert s[..|s|] == s;
  }

  /** strings.Trim(s, "-") takes off every hyphen at either end, and nothing else. */
  method Trim(s: string) returns (t: string)
    ensures exists a, b :: 0 <= a <= b <= |s| && t == s[a..b] && TrimmedAt(s, a, b)
  {
    var b := |s|;
    while b > 0 && s[b - 1] == '-'
      invariant 0 <= b <= |s|
      invariant forall i | b <= i < |s| :: s[i] == '-'
    {
      b := b - 1;
    }
    var a := 0;
    while a < b && s[a] == '-'
      invariant 0 <= a <= b
      invariant forall i | 0 <= i < a :: s[i] == '-'
    {
      a := a + 1;
    }
    t := s[a..b];
    assert TrimmedAt(s, a, b);
  }

  ghost predicate TrimmedAt(s: string, a: nat, b: nat)
    requires a <= b <= |s|
  {
    && (forall i | 0 <= i < a :: s[i] == '-')
    && (forall i | b <= i < |s| :: s[i] == '-')
    && (a < b ==> s[a] != '-' && s[b - 1] != '-')
  }

  /** The code's pipeline computes the joined words of the title. */
  method Slugify(title: string, suffix: Suffix) returns (slug: string)
    ensures slug == Slug(title, suffix)
  {
    var lower := Lower(title);
    var collapsed := CollapseRuns(lower);
    var base := Trim(collapsed);
    ghost var a, b :| 0 <= a <= b <= |collapsed| && base == collapsed[a..b] && TrimmedAt(collapsed, a, b);
    TrimJoin(lower, a, b);
    JoinEnds(Words(lower));
    if base == "" {
      base := "post";
    }
    slug := base + "-" + suffix;
  }

  // ---- pipeline and meaning agree ---------------------------------------------

  function LeftHyphen(s: string): string {
    if s != [] && !IsWordChar(s[0]) then "-" else ""
  }

  function RightHyphen(s: string): string {
    if Words(s) != [] && !IsWordChar(s[|s| - 1]) then "-" else ""
  }

  lemma {:induction false} CollapseJoin(s: string)
    ensures Words(s) == [] ==> Collapse(s) == LeftHyphen(s)
    ensures Words(s) != [] ==> Collapse(s) == LeftHyphen(s) + Join(Words(s)) + RightHyphen(s)
  {
    if s != [] {
      var n := |s| - 1;
      CollapseJoin(s[..n]);
      if IsWordChar(s[n]) {
        CollapseWordChar(s);
      } else {
        CollapseOther(s);
      }
    }
  }

  lemma CollapseWordChar(s: string)
    requires s != [] && IsWordChar(s[|s| - 1])
    requires var t := s[..|s| - 1];
             Collapse(t) == if Words(t) == [] then LeftHyphen(t) else LeftHyphen(t) + Join(Words(t)) + RightHyphen(t)
    ensures Collapse(s) == LeftHyphen(s) + Join(Words(s)) + RightHyphen(s)
  {
    var n := |s| - 1;
    var t := s[..n];
    assert RightHyphen(s) == "" && Collapse(s) == Collapse(t) + [s[n]];
    if n > 0 {
      assert t[0] == s[0] && t[n - 1] == s[n - 1];
      if IsWordChar(s[n - 1]) {
        GrowWord(LeftHyphen(t), Words(t), s[n]);
      } else {
        StartWord(LeftHyphen(t), Words(t), s[n]);
      }
    }
  }

  lemma GrowWord(l: string, ws: seq<string>, c: char)
    requires ws != []
    ensures l + Join(ws[|ws| - 1 := ws[|ws| - 1] + [c]]) + "" == l + Join(ws) + "" + [c]
  {
    JoinGrow(ws, c);
  }

  lemma StartWord(l: string, ws: seq<string>, c: char)
    ensures l + Join(ws + [[c]]) + "" == (if ws == [] then l else l + Join(ws) + "-") + [c]
  {
    assert (ws + [[c]])[..|ws|] == ws;
  }

  lemma CollapseOther(s: string)
    requires s != [] && !IsWordChar(s[|s| - 1])
    requires var t := s[..|s| - 1];
             Collapse(t) == if Words(t) == [] then LeftHyphen(t) else LeftHyphen(t) + Join(Words(t)) + RightHyphen(t)
    ensures Collapse(s) == if Words(s) == [] then LeftHyphen(s) else LeftHyphen(s) + Join(Words(s)) + RightHyphen(s)
  {
    var n := |s| - 1;
    var t := s[..n];
    if n > 0 {
      assert t[0] == s[0] && t[n - 1] == s[n - 1];
      if Words(t) == [] {
        NoWords(t);
      }
    }
  }

  lemma {:induction false} NoWords(s: string)
    requires Words(s) == []
    ensures forall i | 0 <= i < |s| :: !IsWordChar(s[i])
  {
    if s != [] {
      NoWords(s[..|s| - 1]);
    }
  }

  lemma JoinGrow(ws: seq<string>, c: char)
    requires ws != []
    ensures Join(ws[|ws| - 1 := ws[|ws| - 1] + [c]]) == Join(ws) + [c]
  {
    var last := ws[|ws| - 1];
    var grown := ws[|ws| - 1 := last + [c]];
    assert grown[..|ws| - 1] == ws[..|ws| - 1];
    if |ws| > 1 {
      assert Join(ws[..|ws| - 1]) + "-" + (last + [c]) == Join(ws[..|ws| - 1]) + "-" + last + [c];
    }
  }

  lemma {:induction false} JoinEnds(ws: seq<string>)
    requires forall i | 0 <= i < |ws| :: IsWord(ws[i])
    ensures ws != [] ==> Join(ws) != [] && IsWordChar(Join(ws)[0]) && IsWordChar(Join(ws)[|Join(ws)| - 1])
  {
    if |ws| > 1 {
      JoinEnds(ws[..|ws| - 1]);
    }
  }

  /** Trimming finds the part between hyphens, when that part has none at its ends. */
  lemma TrimMiddle(left: string, middle: string, right: string, a: nat, b: nat)
    requires a <= b <= |left + middle + right| && TrimmedAt(left + middle + right, a, b)
    requires forall i | 0 <= i < |left| :: left[i] == '-'
    requires forall i | 0 <= i < |right| :: right[i] == '-'
    requires middle != [] && middle[0] != '-' && middle[|middle| - 1] != '-'
    ensures (left + middle + right)[a..b] == middle
  {
    var s := left + middle + right;
    var l, m := |left|, |left| + |middle|;
    assert s[l] == middle[0] && s[m - 1] == middle[|middle| - 1];
    assert a == l;
    assert b == m;
    assert s[l..m] == middle;
  }

  lemma TrimHyphens(s: string, a: nat, b: nat)
    requires a <= b <= |s| && TrimmedAt(s, a, b)
    requires forall i | 0 <= i < |s| :: s[i] == '-'
    ensures s[a..b] == ""
  {
  }

  lemma TrimWords(left: string, ws: seq<string>, right: string, a: nat, b: nat)
    requires ws != [] && forall i | 0 <= i < |ws| :: IsWord(ws[i])
    requires (left == "" || left == "-") && (right == "" || right == "-")
    requires a <= b <= |left + Join(ws) + right| && TrimmedAt(left + Join(ws) + right, a, b)
    ensures (left + Join(ws) + right)[a..b] == Join(ws)
  {
    JoinEnds(ws);
    TrimMiddle(left, Join(ws), right, a, b);
  }

  /** What Trim leaves of the collapsed text. */
  lemma TrimJoin(s: string, a: nat, b: nat)
    requires a <= b <= |Collapse(s)| && TrimmedAt(Collapse(s), a, b)
    ensures Collapse(s)[a..b] == Join(Words(s))
  {
    CollapseJoin(s);
    if Words(s) == [] {
      TrimHyphens(Collapse(s), a, b);
    } else {
      TrimWords(LeftHyphen(s), Words(s), RightHyphen(s), a, b);
    }
  }

  // ---- what the slugs look like -----------------------------------------------

  lemma {:induction false} WordsOfWord(w: string)
    requires IsWord(w)
    ensures Words(w) == [w]
  {
    var n := |w| - 1;
    assert w == w[..n] + [w[n]];
    if n == 0 {
      assert Words(w[..n]) == [];
    } else {
      var init := w[..n];
      WordsOfWord(init);
      assert IsWordChar(w[n - 1]);
      assert Words(w) == [init][0 := init + [w[n]]];
    }
  }

  /** With WordsOfWord, this says all there is to say about `Words`: any other character separates. */
  lemma {:induction false} WordsSplit(a: string, c: char, b: string)
    requires !IsWordChar(c)
    ensures Words(a + [c] + b) == Words(a) + Words(b)
  {
    var whole := a + [c] + b;
    if b == [] {
      assert whole[..|whole| - 1] == a;
    } else {
      var n := |b| - 1;
      assert whole[..|whole| - 1] == a + [c] + b[..n];
      WordsSplit(a, c, b[..n]);
      assert n > 0 ==> whole[|whole| - 2] == b[n - 1];
      assert n == 0 ==> whole[|whole| - 2] == c;
    }
  }

  lemma WordsAppend(s: string, w: string)
    requires IsWord(w)
    ensures Words(s + "-" + w) == Words(s) + [w]
  {
    WordsSplit(s, '-', w);
    WordsOfWord(w);
  }

  lemma {:induction false} WordsOfJoin(ws: seq<string>)
    requires forall i | 0 <= i < |ws| :: IsWord(ws[i])
    ensures Words(Join(ws)) == ws
  {
    if |ws| == 1 {
      WordsOfWord(ws[0]);
    } else if |ws| > 1 {
      WordsOfJoin(ws[..|ws| - 1]);
      WordsAppend(Join(ws[..|ws| - 1]), ws[|ws| - 1]);
    }
  }

  lemma {:induction false} JoinChars(ws: seq<string>)
    requires forall i | 0 <= i < |ws| :: IsWord(ws[i])
    ensures forall i | 0 <= i < |Join(ws)| :: IsWordChar(Join(ws)[i]) || Join(ws)[i] == '-'
  {
    if |ws| > 1 {
      JoinChars(ws[..|ws| - 1]);
    }
  }

  /** The words of a slug: those of the base, then the suffix. */
  lemma SlugWords(title: string, suffix: Suffix)
    ensures var ws := Words(Slug(title, suffix));
            |ws| >= 2 && ws[|ws| - 1] == suffix && Slug(title, suffix) == Join(ws)
            && Join(ws[..|ws| - 1]) == Base(title)
  {
    var ws := BaseWords(title);
    WordsAppend(Base(title), suffix);
    assert (ws + [suffix])[..|ws|] == ws;
  }

  lemma BaseWords(title: string) returns (ws: seq<string>)
    ensures ws != [] && Words(Base(title)) == ws && Join(ws) == Base(title)
  {
    ws := Words(Lower(title));
    if ws == [] {
      ws := ["post"];
      WordsOfWord("post");
    } else {
      WordsOfJoin(ws);
    }
  }

  /** Base of a base is that base. */
  lemma BaseIdempotent(title: string)
    ensures Base(Base(title)) == Base(title)
  {
    var ws := BaseWords(title);
    JoinChars(ws);
    assert Lower(Base(title)) == Base(title);
  }

  /** A slug determines its base and its suffix: two slugs collide only when both agree. */
  lemma SlugInjective(title: string, suffix: Suffix, title': string, suffix': Suffix)
    ensures Slug(title, suffix)[..|Slug(title, suffix)| - 9] == Base(title)
    ensures Slug(title, suffix) == Slug(title', suffix') <==> Base(title) == Base(title') && suffix == suffix'
  {
    var s, s' := Slug(title, suffix), Slug(title', suffix');
    assert s[..|s| - 9] == Base(title) && s[|s| - 8..] == suffix;
    assert s'[..|s'| - 9] == Base(title') && s'[|s'| - 8..] == suffix';
  }

  // ---- letters of either case -------------------------------------------------

  /** A letter or digit, as ASCII has them. */
  predicate IsAlnum(c: char) {
    'a' <= c <= 'z' || 'A' <= c <= 'Z' || '0' <= c <= '9'
  }

  /** The same character up to the case of an ASCII letter. */
  predicate SameLetter(c: char, d: char) {
    c == d || ('A' <= c <= 'Z' && d as int == c as int + 32) || ('A' <= d <= 'Z' && c as int == d as int + 32)
  }

  predicate SameText(s: string, t: string) {
    |s| == |t| && forall i | 0 <= i < |s| :: SameLetter(s[i], t[i])
  }

  /** The case of ASCII letters does not matter. */
  lemma BaseIgnoresCase(title: string, t: string)
    requires SameText(title, t)
    ensures Base(title) == Base(t)
  {
    assert forall i | 0 <= i < |title| :: SameLetter(title[i], t[i]) ==> LowerChar(title[i]) == LowerChar(t[i]);
    assert Lower(title) == Lower(t);
  }

  /** Of the characters that are not ASCII letters or digits, only the Kelvin sign and the dotted capital I
      become one. */
  predicate Separates(c: char) {
    !IsAlnum(c) && c != '\U{212A}' && c != '\U{0130}'
  }

  lemma LowerOfWord(w: string, t: string)
    requires SameText(w, t) && t != "" && IsWord(t)
    ensures Lower(w) == t
  {
    forall i | 0 <= i < |w|
      ensures LowerChar(w[i]) == t[i]
    {
      assert SameLetter(w[i], t[i]);
    }
  }

  lemma LowerJoins(a: string, b: string)
    ensures Lower(a + b) == Lower(a) + Lower(b)
  {
  }

  lemma LastSeparates(init: string, c: char)
    requires !IsWordChar(c)
    ensures Words(init + [c]) == Words(init)
  {
    assert (init + [c])[..|init|] == init;
  }

  lemma FirstSeparates(c: char, rest: string)
    requires !IsWordChar(c)
    ensures Words([c] + rest) == Words(rest)
  {
    WordsSplit("", c, rest);
    assert "" + [c] + rest == [c] + rest;
  }

  lemma WordsBefore(a: string, w: string)
    requires IsWord(w) && (a == "" || !IsWordChar(a[|a| - 1]))
    ensures Words(a + w) == Words(a) + [w]
  {
    WordsOfWord(w);
    if a == "" {
      assert a + w == w;
    } else {
      var init, c := a[..|a| - 1], a[|a| - 1];
      assert a == init + [c];
      WordsSplit(init, c, w);
      LastSeparates(init, c);
    }
  }

  lemma Regroup(s: string, t: string, u: string)
    ensures s + (t + u) == s + t + u
  {
  }

  /** The words of a text that separators part are those of the parts. */
  lemma WordsParted(a: string, w: string, b: string)
    requires IsWord(w) && (a == "" || !IsWordChar(a[|a| - 1])) && (b == "" || !IsWordChar(b[0]))
    ensures Words(a + w + b) == Words(a) + [w] + Words(b)
  {
    WordsBefore(a, w);
    if b == "" {
      assert a + w + b == a + w;
    } else {
      var c, rest := b[0], b[1..];
      assert b == [c] + rest;
      WordsSplit(a + w, c, rest);
      FirstSeparates(c, rest);
      Regroup(a + w, [c], rest);
    }
  }

  /** A run of ASCII letters and digits in the title is one word of the base, in lower case, between the
      words of what stands before it and after it. */
  lemma RunIsWord(a: string, w: string, b: string, t: string)
    requires (a == "" || Separates(a[|a| - 1])) && (b == "" || Separates(b[0]))
    requires SameText(w, t) && IsWord(t)
    ensures Words(Base(a + w + b)) == Words(Lower(a)) + [t] + Words(Lower(b))
  {
    LowerOfWord(w, t);
    LowerJoins(a + w, b);
    LowerJoins(a, w);
    WordsParted(Lower(a), t, Lower(b));
    var ws := Words(Lower(a)) + [t] + Words(Lower(b));
    assert Words(Lower(a + w + b)) == ws && ws != [];
    WordsOfJoin(ws);
  }

  /** A title without letters and digits gives `post`. */
  lemma NoLetters(title: string, suffix: Suffix)
    requires forall i | 0 <= i < |title| :: Separates(title[i])
    ensures Slug(title, suffix) == "post-" + suffix
  {
    AllSeparate(Lower(title));
  }

  lemma {:induction false} AllSeparate(s: string)
    requires forall i | 0 <= i < |s| :: !IsWordChar(s[i])
    ensures Words(s) == []
  {
    if s != [] {
      AllSeparate(s[..|s| - 1]);
    }
  }

  /** Two words, in any case, with a space between them. */
  lemma TwoWords(v: string, w: string, t: string, u: string, suffix: Suffix)
    requires SameText(v, t) && IsWord(t) && SameText(w, u) && IsWord(u)
    ensures Slug(v + " " + w, suffix) == t + "-" + u + "-" + suffix
  {
    LowerOfWord(v, t);
    LowerOfWord(w, u);
    LowerJoins(v + " ", w);
    LowerJoins(v, " ");
    WordsSplit(t, ' ', u);
    WordsOfWord(t);
    WordsOfWord(u);
    var ws := [t] + [u];
    assert Lower(" ") == " ";
    assert Words(Lower(v + " " + w)) == ws;
    assert ws[..1] == [t] && ws[1] == u && Join([t]) == t;
    assert Base(v + " " + w) == Join(ws) == t + "-" + u;
  }

  /** The Kelvin sign counts as a k, the dotted capital I as an i. */
  lemma TwoOutsiders()
    ensures Base("\U{212A}") == "k" && Base("\U{0130}") == "i"
  {
    WordsOfWord("k");
    WordsOfWord("i");
    assert Lower("\U{212A}") == "k" && Lower("\U{0130}") == "i";
  }
}
