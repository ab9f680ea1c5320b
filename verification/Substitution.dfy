/** `{{var}}` templating in the scenario runner: for which templates replacing the variables one after
    the other, in the order of the store, is the same as replacing them all at once. */
module Substitution {
  import opened Tables

  datatype Binding = Binding(key: string, value: string)

  const TAB := '\t'
  const NEWLINE := '\n'

  /** A character the shell matches as more than itself. */
  predicate IsWild(c: char) {
    c == '*' || c == '?' || c == '[' || c == '\\'
  }

  predicate IsKeyChar(c: char) {
    c != '{' && c != '}' && c != TAB && c != NEWLINE && !IsWild(c)
  }

  predicate KeyChars(text: string) {
    forall i | 0 <= i < |text| :: IsKeyChar(text[i])
  }

  predicate IsKey(k: string) {
    k != [] && KeyChars(k)
  }

  predicate NoBrace(text: string) {
    forall i | 0 <= i < |text| :: text[i] != '{'
  }

  /** A value that leaves a template a template: no braces, and no `&`, which the shell may expand. */
  predicate IsPlain(v: string) {
    forall i | 0 <= i < |v| :: v[i] != '{' && v[i] != '}' && v[i] != '&'
  }

  ghost predicate Proper(bs: seq<Binding>) {
    forall i | 0 <= i < |bs| :: IsKey(bs[i].key) && IsPlain(bs[i].value)
  }

  function Placeholder(key: string): string {
    "{{" + key + "}}"
  }

  // ---- one after the other ----------------------------------------------------

  /** `${s//pattern/value}` for a pattern without wildcards. */
  function ReplaceAll(s: string, pattern: string, value: string): string
    requires pattern != []
    decreases |s|
  {
    if s == [] then ""
    else if pattern <= s then value + ReplaceAll(s[|pattern|..], pattern, value)
    else [s[0]] + ReplaceAll(s[1..], pattern, value)
  }

  function Fold(s: string, bs: seq<Binding>): string
    decreases |bs|
  {
    if bs == [] then s
    else Fold(if bs[0].key == "" then s else ReplaceAll(s, Placeholder(bs[0].key), bs[0].value), bs[1..])
  }

  // ---- all at once ------------------------------------------------------------

  /** The length of the key that starts `s`. */
  function KeyLength(s: string): (n: nat)
    ensures n <= |s|
  {
    if s != [] && IsKeyChar(s[0]) then 1 + KeyLength(s[1..]) else 0
  }

  /** The key of the placeholder that starts `s`, if one does. */
  function HoleAt(s: string): Option<string> {
    if |s| < 2 || s[0] != '{' || s[1] != '{' then None
    else
      var n := KeyLength(s[2..]);
      if n > 0 && 4 + n <= |s| && s[2 + n] == '}' && s[3 + n] == '}' then Some(s[2..2 + n]) else None
  }

  /** The first binding of a key wins. */
  function Value(key: string, bs: seq<Binding>): Option<string> {
    if bs == [] then None
    else if bs[0].key == key then Some(bs[0].value)
    else Value(key, bs[1..])
  }

  /** One pass over the template; a placeholder without a binding stays. */
  function Render(s: string, bs: seq<Binding>): string
    decreases |s|
  {
    if s == [] then ""
    else
      var hole := HoleAt(s);
      if hole.Some? then Value(hole.value, bs).GetOr(Placeholder(hole.value)) + Render(s[|hole.value| + 4..], bs)
      else [s[0]] + Render(s[1..], bs)
  }

  // ---- placeholders -----------------------------------------------------------

  lemma {:induction false} KeyLengthChars(s: string)
    ensures forall i | 0 <= i < KeyLength(s) :: IsKeyChar(s[i])
    ensures KeyLength(s) < |s| ==> !IsKeyChar(s[KeyLength(s)])
  {
    if s != [] && IsKeyChar(s[0]) {
      KeyLengthChars(s[1..]);
    }
  }

  lemma {:induction false} KeyLengthExact(k: string, rest: string)
    requires KeyChars(k)
    requires rest != [] && !IsKeyChar(rest[0])
    ensures KeyLength(k + rest) == |k|
  {
    if k == [] {
      assert k + rest == rest;
    } else {
      assert (k + rest)[1..] == k[1..] + rest;
      KeyLengthExact(k[1..], rest);
    }
  }

  lemma HolePlaceholder(s: string)
    requires HoleAt(s).Some?
    ensures var k := HoleAt(s).value;
            IsKey(k) && |k| + 4 <= |s| && s == Placeholder(k) + s[|k| + 4..]
  {
    var n := KeyLength(s[2..]);
    KeyLengthChars(s[2..]);
    var k := s[2..2 + n];
    forall i | 0 <= i < |k|
      ensures IsKeyChar(k[i])
    {
      assert k[i] == s[2..][i];
    }
    assert s == s[..2] + k + s[2 + n..4 + n] + s[4 + n..];
    assert s[..2] == "{{" && s[2 + n..4 + n] == "}}";
  }

  lemma PlaceholderHole(k: string, rest: string)
    requires IsKey(k)
    ensures HoleAt(Placeholder(k) + rest) == Some(k)
    ensures (Placeholder(k) + rest)[|k| + 4..] == rest
  {
    var s := Placeholder(k) + rest;
    assert s[2..] == k + ("}}" + rest);
    KeyLengthExact(k, "}}" + rest);
    assert s[2..2 + |k|] == k;
  }

  lemma PlaceholderInjective(k: string, j: string, rest: string)
    requires IsKey(k) && IsKey(j) && Placeholder(k) <= Placeholder(j) + rest
    ensures k == j
  {
    var s := Placeholder(j) + rest;
    assert s == Placeholder(k) + s[|k| + 4..];
    PlaceholderHole(k, s[|k| + 4..]);
    PlaceholderHole(j, rest);
  }

  // ---- text that passes through -----------------------------------------------

  /** Text without an opening brace is copied by a replacement. */
  lemma {:induction false} CopiedText(text: string, rest: string, k: string, v: string)
    requires NoBrace(text)
    ensures ReplaceAll(text + rest, Placeholder(k), v) == text + ReplaceAll(rest, Placeholder(k), v)
  {
    if text == [] {
      assert text + rest == rest;
    } else {
      var s := text + rest;
      assert s[1..] == text[1..] + rest;
      assert Placeholder(k)[0] == '{' && s[0] == text[0];
      CopiedText(text[1..], rest, k, v);
    }
  }

  /** So is a placeholder of another key. */
  lemma OtherPlaceholder(j: string, rest: string, k: string, v: string)
    requires IsKey(j) && IsKey(k) && j != k
    ensures ReplaceAll(Placeholder(j) + rest, Placeholder(k), v) == Placeholder(j) + ReplaceAll(rest, Placeholder(k), v)
  {
    var s, p := Placeholder(j) + rest, Placeholder(k);
    if p <= s {
      PlaceholderInjective(k, j, rest);
    }
    var t := j + "}}";
    assert s == "{{" + t + rest;
    assert s[1..] == ("{" + t) + rest;
    assert p[1] == '{' && s[1..][1] == j[0];
    assert s[1..][1..] == t + rest;
    CopiedText(t, rest, k, v);
    assert ReplaceAll(s, p, v) == ['{'] + (['{'] + ReplaceAll(t + rest, p, v));
  }

  lemma PlainChar(c: char, t: string, bs: seq<Binding>)
    requires c != '{'
    ensures IsTemplate([c] + t) == IsTemplate(t) && Render([c] + t, bs) == [c] + Render(t, bs)
  {
    assert ([c] + t)[1..] == t;
  }

  /** A plain value put before a text renders as itself, and leaves a template a template. */
  lemma {:induction false} PlainPrefix(v: string, t: string, bs: seq<Binding>)
    requires NoBrace(v)
    ensures IsTemplate(v + t) == IsTemplate(t) && Render(v + t, bs) == v + Render(t, bs)
  {
    if v == [] {
      assert v + t == t;
    } else {
      PlainPrefix(v[1..], t, bs);
      PlainChar(v[0], v[1..] + t, bs);
      assert v + t == [v[0]] + (v[1..] + t);
    }
  }

  // ---- templates as characters and placeholders --------------------------------

  datatype Token = Char(c: char) | Hole(key: string)

  function Tokens(s: string): seq<Token>
    decreases |s|
  {
    if s == [] then []
    else
      var hole := HoleAt(s);
      if hole.Some? then [Hole(hole.value)] + Tokens(s[|hole.value| + 4..])
      else [Char(s[0])] + Tokens(s[1..])
  }

  function Shown(t: Token): string {
    match t
    case Char(c) => [c]
    case Hole(k) => Placeholder(k)
  }

  function Flat(ts: seq<Token>): string {
    if ts == [] then "" else Shown(ts[0]) + Flat(ts[1..])
  }

  /** Text put before a template. */
  function Prepend(v: string, ts: seq<Token>): seq<Token> {
    if v == [] then ts else [Char(v[0])] + Prepend(v[1..], ts)
  }

  /** One variable replaced. */
  function Fill(ts: seq<Token>, k: string, v: string): seq<Token> {
    if ts == [] then []
    else
      var rest := Fill(ts[1..], k, v);
      if ts[0] == Hole(k) then Prepend(v, rest) else [ts[0]] + rest
  }

  /** All of them. */
  function FillAll(ts: seq<Token>, bs: seq<Binding>): string {
    if ts == [] then ""
    else (if ts[0].Hole? then Value(ts[0].key, bs).GetOr(Shown(ts[0])) else Shown(ts[0])) + FillAll(ts[1..], bs)
  }

  ghost predicate Keyed(ts: seq<Token>) {
    forall i | 0 <= i < |ts| :: ts[i].Hole? ==> IsKey(ts[i].key)
  }

  // ---- which templates are safe ------------------------------------------------

  /** What a key can be put together from: its characters, and placeholders yet to be filled. */
  predicate IsKeyPart(t: Token) {
    t.Hole? || IsKeyChar(t.c)
  }

  /** Key parts up to two closing braces. */
  predicate Closes(ts: seq<Token>) {
    ts != [] &&
    if IsKeyPart(ts[0]) then Closes(ts[1..])
    else ts[0] == Char('}') && |ts| >= 2 && ts[1] == Char('}')
  }

  predicate AssembledAt(ts: seq<Token>) {
    |ts| >= 3 && ts[0] == Char('{') && ts[1] == Char('{') && IsKeyPart(ts[2]) && Closes(ts[2..])
  }

  predicate Assembles(ts: seq<Token>) {
    ts != [] && (AssembledAt(ts) || Assembles(ts[1..]))
  }

  /** The template with these variables left empty. */
  function Erase(ts: seq<Token>, empty: set<string>): seq<Token> {
    if ts == [] then []
    else if ts[0].Hole? && ts[0].key in empty then Erase(ts[1..], empty)
    else [ts[0]] + Erase(ts[1..], empty)
  }

  /** No choice of variables to leave empty puts two braces together that open a run of key characters and
      placeholders closed by two braces. */
  ghost predicate IsSafe(s: string) {
    forall empty: set<string> :: !Assembles(Erase(Tokens(s), empty))
  }

  /** No two opening braces in a row outside placeholders. */
  predicate IsTemplate(s: string)
    decreases |s|
  {
    s == [] ||
    var hole := HoleAt(s);
    if hole.Some? then IsTemplate(s[|hole.value| + 4..])
    else !(|s| >= 2 && s[0] == '{' && s[1] == '{') && IsTemplate(s[1..])
  }

  lemma {:induction false} TokensKeyed(s: string)
    ensures Keyed(Tokens(s))
    decreases |s|
  {
    if s != [] {
      if HoleAt(s).Some? {
        HolePlaceholder(s);
        TokensKeyed(s[|HoleAt(s).value| + 4..]);
      } else {
        TokensKeyed(s[1..]);
      }
    }
  }

  /** A template in the simple sense: an opening brace is not followed by another. */
  predicate Apart(ts: seq<Token>) {
    ts == [] ||
    ((ts[0] == Char('{') && |ts| > 1 ==> ts[1].Char? && ts[1].c != '{') && Apart(ts[1..]))
  }

  lemma {:induction false} TemplateApart(s: string)
    requires IsTemplate(s)
    ensures Apart(Tokens(s))
    decreases |s|
  {
    if s != [] {
      if HoleAt(s).Some? {
        TemplateApart(s[|HoleAt(s).value| + 4..]);
      } else {
        TemplateApart(s[1..]);
      }
    }
  }

  lemma {:induction false} ApartErased(ts: seq<Token>, empty: set<string>)
    requires Apart(ts)
    ensures !Assembles(Erase(ts, empty))
  {
    if ts != [] {
      ApartErased(ts[1..], empty);
      if ts[0] == Char('{') && |ts| > 1 {
        assert Erase(ts[1..], empty)[0] == ts[1];
      }
    }
  }

  /** Without two opening braces in a row outside placeholders a template is safe. */
  lemma TemplateSafe(s: string)
    requires IsTemplate(s)
    ensures IsSafe(s)
  {
    TemplateApart(s);
    forall empty: set<string>
      ensures !Assembles(Erase(Tokens(s), empty))
    {
      ApartErased(Tokens(s), empty);
    }
  }

  // ---- both substitutions, on tokens -------------------------------------------

  lemma {:induction false} RenderFills(s: string, bs: seq<Binding>)
    ensures Render(s, bs) == FillAll(Tokens(s), bs)
    decreases |s|
  {
    if s != [] {
      if HoleAt(s).Some? {
        RenderFills(s[|HoleAt(s).value| + 4..], bs);
      } else {
        RenderFills(s[1..], bs);
      }
    }
  }

  lemma HeadOnto(v: string, w: string)
    requires v != ""
    ensures [v[0]] + (v[1..] + w) == v + w
  {
  }

  lemma {:induction false} FlatPrepend(v: string, ts: seq<Token>)
    ensures Flat(Prepend(v, ts)) == v + Flat(ts)
  {
    if v != [] {
      FlatPrepend(v[1..], ts);
      FlatHead(Char(v[0]), Prepend(v[1..], ts));
      HeadOnto(v, Flat(ts));
    }
  }

  lemma NotReplaced(s: string, k: string, v: string)
    requires s != "" && HoleAt(s).None? && IsKey(k)
    ensures ReplaceAll(s, Placeholder(k), v) == [s[0]] + ReplaceAll(s[1..], Placeholder(k), v)
  {
    if Placeholder(k) <= s {
      assert s == Placeholder(k) + s[|k| + 4..];
      PlaceholderHole(k, s[|k| + 4..]);
    }
  }

  lemma {:induction false} ReplaceFills(s: string, k: string, v: string)
    requires IsKey(k)
    ensures ReplaceAll(s, Placeholder(k), v) == Flat(Fill(Tokens(s), k, v))
    decreases |s|
  {
    if s != [] {
      var hole := HoleAt(s);
      if hole.Some? {
        var j := hole.value;
        var t := s[|j| + 4..];
        HolePlaceholder(s);
        ReplaceFills(t, k, v);
        if j == k {
          FlatPrepend(v, Fill(Tokens(t), k, v));
        } else {
          OtherPlaceholder(j, t, k, v);
          FlatHead(Hole(j), Fill(Tokens(t), k, v));
        }
      } else {
        NotReplaced(s, k, v);
        ReplaceFills(s[1..], k, v);
        FlatHead(Char(s[0]), Fill(Tokens(s[1..]), k, v));
      }
    }
  }

  lemma FlatHead(t: Token, ts: seq<Token>)
    ensures Flat([t] + ts) == Shown(t) + Flat(ts)
  {
    assert ([t] + ts)[1..] == ts;
  }

  lemma {:induction false} FillAllPrepend(v: string, ts: seq<Token>, bs: seq<Binding>)
    ensures FillAll(Prepend(v, ts), bs) == v + FillAll(ts, bs)
  {
    if v != [] {
      FillAllPrepend(v[1..], ts, bs);
      assert Prepend(v, ts)[1..] == Prepend(v[1..], ts);
      HeadOnto(v, FillAll(ts, bs));
    }
  }

  /** Filling one variable and then the others is filling all of them. */
  lemma {:induction false} FillThenAll(ts: seq<Token>, k: string, v: string, bs: seq<Binding>)
    ensures FillAll(Fill(ts, k, v), bs) == FillAll(ts, [Binding(k, v)] + bs)
  {
    if ts != [] {
      var rest := Fill(ts[1..], k, v);
      FillThenAll(ts[1..], k, v, bs);
      assert ([Binding(k, v)] + bs)[1..] == bs;
      if ts[0] == Hole(k) {
        FillAllPrepend(v, rest, bs);
      } else {
        assert ([ts[0]] + rest)[1..] == rest;
      }
    }
  }

  // ---- a safe template stays one -----------------------------------------------

  lemma {:induction false} ErasePrepend(v: string, ts: seq<Token>, empty: set<string>)
    ensures Erase(Prepend(v, ts), empty) == Prepend(v, Erase(ts, empty))
  {
    if v != [] {
      ErasePrepend(v[1..], ts, empty);
      assert Prepend(v, ts)[1..] == Prepend(v[1..], ts);
    }
  }

  lemma {:induction false} FillEmptyErases(ts: seq<Token>, k: string, empty: set<string>)
    ensures Erase(Fill(ts, k, ""), empty) == Erase(ts, empty + {k})
  {
    if ts != [] {
      var rest := Fill(ts[1..], k, "");
      FillEmptyErases(ts[1..], k, empty);
      if ts[0] == Hole(k) {
        assert Fill(ts, k, "") == rest;
      } else {
        assert Fill(ts, k, "")[1..] == rest;
      }
    }
  }

  lemma {:induction false} FillErased(ts: seq<Token>, k: string, v: string, empty: set<string>)
    ensures Erase(Fill(ts, k, v), empty) == Fill(Erase(ts, empty - {k}), k, v)
  {
    if ts != [] {
      var rest := Fill(ts[1..], k, v);
      FillErased(ts[1..], k, v, empty);
      if ts[0] == Hole(k) {
        ErasePrepend(v, rest, empty);
        assert Erase(ts, empty - {k})[1..] == Erase(ts[1..], empty - {k});
      } else {
        assert Fill(ts, k, v)[1..] == rest;
        if !(ts[0].Hole? && ts[0].key in empty) {
          assert Erase(ts, empty - {k})[1..] == Erase(ts[1..], empty - {k});
        }
      }
    }
  }

  lemma {:induction false} ClosesBeyond(v: string, ts: seq<Token>)
    requires IsPlain(v) && Closes(Prepend(v, ts))
    ensures Closes(ts)
  {
    if v != [] {
      assert Prepend(v, ts)[1..] == Prepend(v[1..], ts);
      ClosesBeyond(v[1..], ts);
    }
  }

  lemma {:induction false} AssemblesBeyond(v: string, ts: seq<Token>)
    requires IsPlain(v) && Assembles(Prepend(v, ts))
    ensures Assembles(ts)
  {
    if v != [] {
      assert Prepend(v, ts)[1..] == Prepend(v[1..], ts);
      AssemblesBeyond(v[1..], ts);
    }
  }

  /** A brace in a filled template was one before. */
  lemma FilledBrace(ts: seq<Token>, k: string, v: string, brace: char)
    requires v != "" && IsPlain(v) && (brace == '{' || brace == '}')
    requires Fill(ts, k, v) != [] && Fill(ts, k, v)[0] == Char(brace)
    ensures ts != [] && ts[0] == Char(brace) && Fill(ts, k, v)[1..] == Fill(ts[1..], k, v)
  {
  }

  lemma {:induction false} FilledCloses(ts: seq<Token>, k: string, v: string)
    requires v != "" && IsPlain(v) && Closes(Fill(ts, k, v))
    ensures Closes(ts)
  {
    if ts != [] {
      var rest := Fill(ts[1..], k, v);
      if ts[0] == Hole(k) {
        ClosesBeyond(v, rest);
        FilledCloses(ts[1..], k, v);
      } else {
        assert Fill(ts, k, v)[1..] == rest;
        if IsKeyPart(ts[0]) {
          FilledCloses(ts[1..], k, v);
        } else {
          assert rest[0] == Fill(ts, k, v)[1];
          FilledBrace(ts[1..], k, v, '}');
        }
      }
    }
  }

  lemma FilledAssembledAt(ts: seq<Token>, k: string, v: string)
    requires v != "" && IsPlain(v) && ts != [] && ts[0] != Hole(k) && AssembledAt(Fill(ts, k, v))
    ensures AssembledAt(ts)
  {
    var all := Fill(ts, k, v);
    FilledBrace(ts, k, v, '{');
    assert all[1..][0] == all[1];
    FilledBrace(ts[1..], k, v, '{');
    assert all[1..][1..] == all[2..] && ts[1..][1..] == ts[2..];
    FilledCloses(ts[2..], k, v);
    FilledKeyPart(ts[2..], k, v);
  }

  lemma FilledKeyPart(ts: seq<Token>, k: string, v: string)
    requires Fill(ts, k, v) != [] && IsKeyPart(Fill(ts, k, v)[0])
    requires ts != []
    ensures IsKeyPart(ts[0])
  {
  }

  lemma {:induction false} FilledAssembles(ts: seq<Token>, k: string, v: string)
    requires v != "" && IsPlain(v) && Assembles(Fill(ts, k, v))
    ensures Assembles(ts)
  {
    var rest := Fill(ts[1..], k, v);
    if ts[0] == Hole(k) {
      AssemblesBeyond(v, rest);
      FilledAssembles(ts[1..], k, v);
    } else if AssembledAt(Fill(ts, k, v)) {
      FilledAssembledAt(ts, k, v);
    } else {
      assert Fill(ts, k, v)[1..] == rest;
      FilledAssembles(ts[1..], k, v);
    }
  }

  lemma FillSafe(ts: seq<Token>, k: string, v: string)
    requires IsPlain(v) && forall empty: set<string> :: !Assembles(Erase(ts, empty))
    ensures forall empty: set<string> :: !Assembles(Erase(Fill(ts, k, v), empty))
  {
    forall empty: set<string>
      ensures !Assembles(Erase(Fill(ts, k, v), empty))
    {
      if v == "" {
        FillEmptyErases(ts, k, empty);
      } else {
        FillErased(ts, k, v, empty);
        if Assembles(Erase(Fill(ts, k, v), empty)) {
          FilledAssembles(Erase(ts, empty - {k}), k, v);
        }
      }
    }
  }

  // ---- tokens and their text ---------------------------------------------------

  lemma {:induction false} FlatCloses(ts: seq<Token>)
    requires var s := Flat(ts); var n := KeyLength(s); n + 2 <= |s| && s[n] == '}' && s[n + 1] == '}'
    ensures Closes(ts)
  {
    var s := Flat(ts);
    assert s[0] == Shown(ts[0])[0];
    assert ts[0].Char?;
    assert s == [ts[0].c] + Flat(ts[1..]);
    assert s[1..] == Flat(ts[1..]);
    if IsKeyChar(s[0]) {
      FlatCloses(ts[1..]);
    } else {
      assert Flat(ts[1..])[0] == Shown(ts[1])[0];
    }
  }

  lemma FlatOpens(ts: seq<Token>)
    requires ts != [] && ts[0].Hole?
    ensures "{{" <= Flat(ts)
  {
    assert Flat(ts)[0] == '{' && Flat(ts)[1] == '{';
  }

  /** Characters that read as a placeholder are an assembled one. */
  lemma FlatHole(ts: seq<Token>)
    requires ts != [] && ts[0].Char? && HoleAt(Flat(ts)).Some?
    ensures AssembledAt(ts)
  {
    var s, rest := Flat(ts), Flat(ts[1..]);
    assert s[1..] == rest && rest[0] == Shown(ts[1])[0];
    KeyLengthChars(s[2..]);
    assert IsKeyChar(s[2..][0]);
    if ts[1].Hole? {
      FlatOpens(ts[1..]);
    }
    assert rest[1..] == Flat(ts[2..]) by {
      assert ts[1..][1..] == ts[2..];
    }
    assert s[2..] == Flat(ts[2..]);
    FlatCloses(ts[2..]);
    assert Flat(ts[2..])[0] == Shown(ts[2])[0];
  }

  lemma {:induction false} Retokenized(ts: seq<Token>)
    requires Keyed(ts) && !Assembles(ts)
    ensures Tokens(Flat(ts)) == ts
  {
    if ts != [] {
      Retokenized(ts[1..]);
      assert ts == [ts[0]] + ts[1..];
      if ts[0].Hole? {
        PlaceholderHole(ts[0].key, Flat(ts[1..]));
      } else {
        if HoleAt(Flat(ts)).Some? {
          FlatHole(ts);
        }
        assert Flat(ts)[1..] == Flat(ts[1..]);
      }
    }
  }

  lemma {:induction false} ErasesNothing(ts: seq<Token>)
    ensures Erase(ts, {}) == ts
  {
    if ts != [] {
      ErasesNothing(ts[1..]);
    }
  }

  lemma {:induction false} FillKeyed(ts: seq<Token>, k: string, v: string)
    requires Keyed(ts)
    ensures Keyed(Fill(ts, k, v))
  {
    if ts != [] {
      FillKeyed(ts[1..], k, v);
      PrependKeyed(v, Fill(ts[1..], k, v));
    }
  }

  lemma {:induction false} PrependKeyed(v: string, ts: seq<Token>)
    requires Keyed(ts)
    ensures Keyed(Prepend(v, ts))
  {
    if v != [] {
      PrependKeyed(v[1..], ts);
    }
  }

  // ---- in sequence and at once --------------------------------------------------

  /** Replacing one variable leaves a safe template, with the rest to be rendered as if the variable had
      been bound first. */
  lemma OneReplacement(s: string, k: string, v: string, bs: seq<Binding>)
    requires IsSafe(s) && IsKey(k) && IsPlain(v)
    ensures var s' := ReplaceAll(s, Placeholder(k), v);
            IsSafe(s') && Render(s', bs) == Render(s, [Binding(k, v)] + bs)
  {
    var ts := Tokens(s);
    var filled := Fill(ts, k, v);
    ReplaceFills(s, k, v);
    FillSafe(ts, k, v);
    TokensKeyed(s);
    FillKeyed(ts, k, v);
    ErasesNothing(filled);
    assert !Assembles(Erase(filled, {}));
    Retokenized(filled);
    RenderFills(Flat(filled), bs);
    RenderFills(s, [Binding(k, v)] + bs);
    FillThenAll(ts, k, v, bs);
  }

  lemma {:induction false} RenderNothing(s: string)
    ensures Render(s, []) == s
    decreases |s|
  {
    if s != [] {
      if HoleAt(s).Some? {
        HolePlaceholder(s);
        RenderNothing(s[|HoleAt(s).value| + 4..]);
      } else {
        RenderNothing(s[1..]);
      }
    }
  }

  /** Sequential substitution is simultaneous substitution, for every safe template and every store. */
  lemma {:induction false} SubstitutionSimultaneous(s: string, bs: seq<Binding>)
    requires IsSafe(s) && Proper(bs)
    ensures Fold(s, bs) == Render(s, bs)
    decreases |bs|
  {
    if bs == [] {
      RenderNothing(s);
    } else {
      var b := bs[0];
      assert IsKey(b.key) && IsPlain(b.value);
      assert forall i | 0 <= i < |bs| - 1 :: bs[1..][i] == bs[i + 1];
      OneReplacement(s, b.key, b.value, bs[1..]);
      assert bs == [Binding(b.key, b.value)] + bs[1..];
      SubstitutionSimultaneous(ReplaceAll(s, Placeholder(b.key), b.value), bs[1..]);
    }
  }

  /** The lines that bind something. */
  function WithKeys(bs: seq<Binding>): seq<Binding> {
    if bs == [] then [] else (if bs[0].key == "" then [] else [bs[0]]) + WithKeys(bs[1..])
  }

  /** Lines without a key change nothing. */
  lemma {:induction false} KeylessSkipped(s: string, bs: seq<Binding>)
    ensures Fold(s, bs) == Fold(s, WithKeys(bs))
    decreases |bs|
  {
    if bs != [] {
      if bs[0].key == "" {
        KeylessSkipped(s, bs[1..]);
        assert WithKeys(bs) == WithKeys(bs[1..]);
      } else {
        KeylessSkipped(ReplaceAll(s, Placeholder(bs[0].key), bs[0].value), bs[1..]);
        assert WithKeys(bs)[1..] == WithKeys(bs[1..]);
      }
    }
  }

  // ---- and for no other template ------------------------------------------------

  /** Every variable of the template bound, to nothing or to a single character. */
  function Bindings(ts: seq<Token>, empty: set<string>): seq<Binding> {
    if ts == [] then []
    else
      var rest := Bindings(ts[1..], empty);
      if ts[0].Hole? then [Binding(ts[0].key, if ts[0].key in empty then "" else "x")] + rest else rest
  }

  ghost predicate Binds(bs: seq<Binding>, ts: seq<Token>, empty: set<string>) {
    forall t | t in ts && t.Hole? :: Value(t.key, bs) == Some(if t.key in empty then "" else "x")
  }

  lemma {:induction false} BindingsBind(ts: seq<Token>, empty: set<string>)
    requires Keyed(ts)
    ensures Proper(Bindings(ts, empty)) && Binds(Bindings(ts, empty), ts, empty)
  {
    if ts != [] {
      assert Keyed(ts[1..]) by {
        assert forall i | 0 <= i < |ts| - 1 :: ts[1..][i] == ts[i + 1];
      }
      BindingsBind(ts[1..], empty);
      assert ts == [ts[0]] + ts[1..];
      if ts[0].Hole? {
        var bs := Bindings(ts, empty);
        assert bs[1..] == Bindings(ts[1..], empty);
        assert IsKey(ts[0].key);
      }
    }
  }

  /** The text once every variable left is a single character. */
  function Marked(ts: seq<Token>): string {
    if ts == [] then "" else [if ts[0].Char? then ts[0].c else 'x'] + Marked(ts[1..])
  }

  lemma {:induction false} FillAllMarks(ts: seq<Token>, bs: seq<Binding>, empty: set<string>)
    requires Binds(bs, ts, empty)
    ensures FillAll(ts, bs) == Marked(Erase(ts, empty))
  {
    if ts != [] {
      assert forall t | t in ts[1..] :: t in ts;
      FillAllMarks(ts[1..], bs, empty);
      assert ts[0] in ts;
      if !(ts[0].Hole? && ts[0].key in empty) {
        assert Erase(ts, empty)[1..] == Erase(ts[1..], empty);
      }
    }
  }

  predicate HasHole(s: string) {
    s != "" && (HoleAt(s).Some? || HasHole(s[1..]))
  }

  lemma {:induction false} MarkedCloses(ts: seq<Token>)
    requires Closes(ts)
    ensures var s := Marked(ts); var n := KeyLength(s);
            && n + 2 <= |s| && s[n] == '}' && s[n + 1] == '}' && (IsKeyPart(ts[0]) ==> n > 0)
  {
    assert Marked(ts)[1..] == Marked(ts[1..]);
    if IsKeyPart(ts[0]) {
      MarkedCloses(ts[1..]);
    } else {
      assert ts[1..][0] == Char('}');
    }
  }

  lemma {:induction false} MarkedHasHole(ts: seq<Token>)
    requires Assembles(ts)
    ensures HasHole(Marked(ts))
  {
    assert Marked(ts)[1..] == Marked(ts[1..]);
    if AssembledAt(ts) {
      assert ts[1..][1..] == ts[2..];
      assert Marked(ts)[2..] == Marked(ts[2..]) by {
        assert Marked(ts[1..])[1..] == Marked(ts[2..]);
      }
      MarkedCloses(ts[2..]);
    } else {
      MarkedHasHole(ts[1..]);
    }
  }

  lemma {:induction false} NeverLonger(s: string, k: string)
    ensures |ReplaceAll(s, Placeholder(k), "")| <= |s|
    decreases |s|
  {
    if s != "" {
      if Placeholder(k) <= s {
        NeverLonger(s[|Placeholder(k)|..], k);
      } else {
        NeverLonger(s[1..], k);
      }
    }
  }

  lemma {:induction false} SomeShorter(s: string) returns (k: string)
    requires HasHole(s)
    ensures IsKey(k) && |ReplaceAll(s, Placeholder(k), "")| < |s|
  {
    if HoleAt(s).Some? {
      k := HoleAt(s).value;
      HolePlaceholder(s);
      NeverLonger(s[|Placeholder(k)|..], k);
    } else {
      k := SomeShorter(s[1..]);
      NotReplaced(s, k, "");
    }
  }

  lemma {:induction false} FoldAppend(s: string, bs: seq<Binding>, b: Binding)
    requires b.key != ""
    ensures Fold(s, bs + [b]) == ReplaceAll(Fold(s, bs), Placeholder(b.key), b.value)
    decreases |bs|
  {
    if bs == [] {
      assert bs + [b] == [b] && [b][1..] == [];
      assert Fold(ReplaceAll(s, Placeholder(b.key), b.value), []) == ReplaceAll(s, Placeholder(b.key), b.value);
    } else {
      assert (bs + [b])[1..] == bs[1..] + [b];
      FoldAppend(if bs[0].key == "" then s else ReplaceAll(s, Placeholder(bs[0].key), bs[0].value), bs[1..], b);
    }
  }

  lemma {:induction false} ValueAppend(k: string, bs: seq<Binding>, b: Binding)
    ensures Value(k, bs + [b]) == if Value(k, bs).Some? || b.key != k then Value(k, bs) else Some(b.value)
  {
    if bs != [] {
      assert (bs + [b])[1..] == bs[1..] + [b];
      ValueAppend(k, bs[1..], b);
    }
  }

  lemma {:induction false} BoundIgnores(ts: seq<Token>, bs: seq<Binding>, b: Binding)
    requires forall t | t in ts && t.Hole? :: Value(t.key, bs).Some?
    ensures FillAll(ts, bs + [b]) == FillAll(ts, bs)
  {
    if ts != [] {
      assert forall t | t in ts[1..] :: t in ts;
      BoundIgnores(ts[1..], bs, b);
      assert ts[0] in ts;
      if ts[0].Hole? {
        ValueAppend(ts[0].key, bs, b);
      }
    }
  }

  /** A template that is not safe: bind its variables so that a placeholder comes about, and then that one;
      only the substitution in sequence fills it. */
  lemma UnsafeDiffers(s: string) returns (bs: seq<Binding>)
    requires !IsSafe(s)
    ensures Proper(bs) && Fold(s, bs) != Render(s, bs)
  {
    var ts := Tokens(s);
    var empty: set<string> :| Assembles(Erase(ts, empty));
    TokensKeyed(s);
    BindingsBind(ts, empty);
    bs := Bindings(ts, empty);
    RenderFills(s, bs);
    FillAllMarks(ts, bs, empty);
    MarkedHasHole(Erase(ts, empty));
    if Fold(s, bs) == Render(s, bs) {
      var k := SomeShorter(Render(s, bs));
      var b := Binding(k, "");
      FoldAppend(s, bs, b);
      BoundIgnores(ts, bs, b);
      RenderFills(s, bs + [b]);
      bs := bs + [b];
    }
  }

  /** Sequential and simultaneous substitution agree for every store if and only if the template is safe. */
  lemma SubstitutionExact(s: string)
    ensures (forall bs | Proper(bs) :: Fold(s, bs) == Render(s, bs)) <==> IsSafe(s)
  {
    if IsSafe(s) {
      forall bs | Proper(bs)
        ensures Fold(s, bs) == Render(s, bs)
      {
        SubstitutionSimultaneous(s, bs);
      }
    } else {
      var bs := UnsafeDiffers(s);
    }
  }

  // ---- order and repetition ---------------------------------------------------

  lemma {:induction false} FillByValue(ts: seq<Token>, bs: seq<Binding>, cs: seq<Binding>)
    requires forall k :: Value(k, bs) == Value(k, cs)
    ensures FillAll(ts, bs) == FillAll(ts, cs)
  {
    if ts != [] {
      FillByValue(ts[1..], bs, cs);
      if ts[0].Hole? {
        assert Value(ts[0].key, bs) == Value(ts[0].key, cs);
      }
    }
  }

  lemma RenderByValue(s: string, bs: seq<Binding>, cs: seq<Binding>)
    requires forall k :: Value(k, bs) == Value(k, cs)
    ensures Render(s, bs) == Render(s, cs)
  {
    RenderFills(s, bs);
    RenderFills(s, cs);
    FillByValue(Tokens(s), bs, cs);
  }

  /** Only the first value of each key counts: stores that agree on it substitute alike. */
  lemma SubstitutionByFirstValue(s: string, bs: seq<Binding>, cs: seq<Binding>)
    requires IsSafe(s) && Proper(bs) && Proper(cs)
    requires forall k :: Value(k, bs) == Value(k, cs)
    ensures Fold(s, bs) == Fold(s, cs)
  {
    SubstitutionSimultaneous(s, bs);
    SubstitutionSimultaneous(s, cs);
    RenderByValue(s, bs, cs);
  }

  ghost predicate DistinctKeys(bs: seq<Binding>) {
    forall i, j | 0 <= i < j < |bs| :: bs[i].key != bs[j].key
  }

  lemma {:induction false} ValueIsFirst(k: string, bs: seq<Binding>)
    ensures Value(k, bs).None? <==> forall b | b in bs :: b.key != k
    ensures Value(k, bs).Some? ==> Binding(k, Value(k, bs).value) in bs
  {
    if bs != [] {
      ValueIsFirst(k, bs[1..]);
      assert bs == [bs[0]] + bs[1..];
    }
  }

  /** With distinct keys the value of a key is the one it is bound to. */
  lemma ValueIsOnly(k: string, v: string, bs: seq<Binding>)
    requires DistinctKeys(bs) && Binding(k, v) in bs
    ensures Value(k, bs) == Some(v)
  {
    ValueIsFirst(k, bs);
    var i :| 0 <= i < |bs| && bs[i] == Binding(k, v);
    var j :| 0 <= j < |bs| && bs[j] == Binding(k, Value(k, bs).value);
    assert bs[i].key == bs[j].key;
  }

  /** With distinct keys the order of the bindings does not matter. */
  lemma SubstitutionUnordered(s: string, bs: seq<Binding>, cs: seq<Binding>)
    requires IsSafe(s) && Proper(bs) && DistinctKeys(bs) && DistinctKeys(cs) && multiset(bs) == multiset(cs)
    ensures Fold(s, bs) == Fold(s, cs)
  {
    forall b
      ensures b in bs <==> b in cs
    {
      assert b in multiset(bs) <==> b in multiset(cs);
    }
    forall i | 0 <= i < |cs|
      ensures IsKey(cs[i].key) && IsPlain(cs[i].value)
    {
      assert cs[i] in bs;
      var j :| 0 <= j < |bs| && bs[j] == cs[i];
    }
    forall k
      ensures Value(k, bs) == Value(k, cs)
    {
      ValueIsFirst(k, bs);
      ValueIsFirst(k, cs);
      if Value(k, bs).Some? {
        ValueIsOnly(k, Value(k, bs).value, cs);
      }
    }
    SubstitutionByFirstValue(s, bs, cs);
  }

  /** Capturing a variable a second time has no effect on any template: the first value stays. */
  lemma RecaptureIgnored(template: string, bs: seq<Binding>, b: Binding)
    requires IsSafe(template) && Proper(bs) && IsKey(b.key) && IsPlain(b.value)
    requires Value(b.key, bs).Some?
    ensures Fold(template, bs + [b]) == Fold(template, bs)
  {
    forall k
      ensures Value(k, bs + [b]) == Value(k, bs)
    {
      ValueAppend(k, bs, b);
    }
    SubstitutionByFirstValue(template, bs + [b], bs);
  }

  /** Two braces alone are safe, though not apart. */
  lemma LoneBracesSafe()
    ensures IsSafe("{{") && !IsTemplate("{{")
  {
    assert Tokens("{{") == [Char('{')] + Tokens("{") && Tokens("{") == [Char('{')] + Tokens("");
    forall empty: set<string>
      ensures !Assembles(Erase(Tokens("{{"), empty))
    {
      assert Tokens("{{")[1..] == [Char('{')] && [Char('{')][1..] == [];
      assert Erase([Char('{')], empty) == [Char('{')];
      assert Erase(Tokens("{{"), empty) == [Char('{'), Char('{')];
    }
  }

  lemma {:induction false} PlainTokens(text: string)
    requires NoBrace(text)
    ensures Tokens(text) == Prepend(text, [])
  {
    if text != "" {
      PlainTokens(text[1..]);
    }
  }

  lemma {:induction false} KeyCloses(k: string)
    requires KeyChars(k)
    ensures Closes(Prepend(k + "}}", []))
  {
    if k == "" {
      assert k + "}}" == "}}" && "}}"[1..] == "}" && "}"[1..] == "";
    } else {
      assert (k + "}}")[1..] == k[1..] + "}}";
      KeyCloses(k[1..]);
    }
  }

  /** Not doubled braces alone are at fault: an empty value can bring two single ones together. */
  lemma HalvesMeet(a: string, b: string)
    requires IsKey(a) && IsKey(b)
    ensures !IsSafe("{" + (Placeholder(a) + ("{" + (b + "}}"))))
  {
    var end, rest := b + "}}", "{" + (b + "}}");
    var s := "{" + (Placeholder(a) + rest);
    PlainTokens(end);
    KeyCloses(b);
    ErasePrepend(end, [], {a});
    PlaceholderHole(a, rest);
    assert s[1..] == Placeholder(a) + rest && rest[1..] == end;
    assert !IsKeyChar(s[2]) && HoleAt(s).None?;
    assert Tokens(rest) == [Char('{')] + Tokens(end);
    assert Tokens(s) == [Char('{')] + ([Hole(a)] + ([Char('{')] + Tokens(end)));
    var kept := Prepend(end, []);
    ErasedHole(a, kept);
    var erased := [Char('{'), Char('{')] + kept;
    assert erased[2..] == kept;
    assert AssembledAt(erased);
    assert Assembles(Erase(Tokens(s), {a}));
  }

  lemma ErasedHole(a: string, kept: seq<Token>)
    requires Erase(kept, {a}) == kept
    ensures Erase([Char('{')] + ([Hole(a)] + ([Char('{')] + kept)), {a}) == [Char('{'), Char('{')] + kept
  {
    var half := [Char('{')] + kept;
    var middle := [Hole(a)] + half;
    var all := [Char('{')] + middle;
    assert half[1..] == kept && middle[1..] == half && all[1..] == middle;
    assert Erase(half, {a}) == half && Erase(middle, {a}) == half;
    assert Erase(all, {a}) == [Char('{')] + half;
  }

  // ---- why templates may not double a brace elsewhere --------------------------

  /** Two braces and part of a key, then a placeholder: the braces start no placeholder. */
  lemma LooseBraces(p: string, u: string)
    requires KeyChars(p) && "{{" <= u
    ensures HoleAt("{" + ("{" + (p + u))).None? && HoleAt("{" + (p + u)).None?
  {
    KeyLengthExact(p, u);
    assert ("{" + ("{" + (p + u)))[2..] == p + u;
    if p == "" {
      assert ("{" + (p + u))[2] == u[1];
      assert ("{" + (p + u))[2..] == u[1..];
    } else {
      assert ("{" + (p + u))[1] == p[0];
    }
  }

  lemma LooseBracesReplaced(p: string, u: string, k: string, v: string)
    requires KeyChars(p) && "{{" <= u && IsKey(k)
    ensures ReplaceAll("{" + ("{" + (p + u)), Placeholder(k), v)
            == "{" + ("{" + (p + ReplaceAll(u, Placeholder(k), v)))
  {
    LooseBraces(p, u);
    NotReplaced("{" + ("{" + (p + u)), k, v);
    NotReplaced("{" + (p + u), k, v);
    CopiedText(p, u, k, v);
    assert ("{" + ("{" + (p + u)))[1..] == "{" + (p + u) && ("{" + (p + u))[1..] == p + u;
  }

  lemma NotRendered(c: char, t: string, bs: seq<Binding>)
    requires HoleAt([c] + t).None?
    ensures Render([c] + t, bs) == [c] + Render(t, bs)
  {
    assert ([c] + t)[1..] == t;
  }

  lemma LooseBracesRendered(p: string, u: string, bs: seq<Binding>)
    requires KeyChars(p) && "{{" <= u
    ensures !IsTemplate("{" + ("{" + (p + u)))
    ensures Render("{" + ("{" + (p + u)), bs) == "{" + ("{" + (p + Render(u, bs)))
  {
    LooseBraces(p, u);
    PlainPrefix(p, u, bs);
    NotRendered('{', p + u, bs);
    NotRendered('{', "{" + (p + u), bs);
    var s := "{" + ("{" + (p + u));
    assert s[0] == '{' && s[1] == '{';
  }

  lemma HoleReplaced(k: string, rest: string, v: string)
    requires IsKey(k) && NoBrace(rest)
    ensures ReplaceAll(Placeholder(k) + rest, Placeholder(k), v) == v + rest
  {
    assert (Placeholder(k) + rest)[|k| + 4..] == rest;
    CopiedText(rest, "", k, v);
    assert rest + "" == rest;
  }

  lemma HoleRendered(k: string, rest: string, bs: seq<Binding>)
    requires IsKey(k) && NoBrace(rest) && Value(k, bs).Some?
    ensures Render(Placeholder(k) + rest, bs) == Value(k, bs).value + rest
  {
    PlaceholderHole(k, rest);
    PlainPrefix(rest, "", bs);
    assert rest + "" == rest;
  }

  /** `p{{a}}q` inside doubled braces, with any text without braces around them. */
  function Nested(pre: string, p: string, a: string, q: string, post: string): string {
    pre + ("{" + ("{" + (p + (Placeholder(a) + (q + "}}" + post)))))
  }

  lemma Assembled(pre: string, p: string, v: string, q: string, post: string)
    ensures pre + ("{" + ("{" + (p + (v + (q + "}}" + post))))) == pre + (Placeholder(p + v + q) + post)
  {
    assert "{" + ("{" + (p + (v + (q + "}}" + post)))) == "{{" + (p + v + q) + "}}" + post;
  }

  lemma Between(pre: string, x: string, y: string, post: string)
    requires pre + (x + post) == pre + (y + post)
    ensures x == y
  {
    assert |x| == |y|;
    assert (pre + (x + post))[|pre|..][..|x|] == x && (pre + (y + post))[|pre|..][..|x|] == y;
  }

  /** A placeholder nested in doubled braces: one replacement makes a placeholder, which the next fills
      and a single pass leaves. So for every such template, every value that completes a key other than
      the nested one, and every value of that key, the two substitutions differ. */
  lemma DoubledBracesDiffer(pre: string, p: string, a: string, q: string, post: string, v: string, x: string)
    requires NoBrace(pre) && NoBrace(post) && KeyChars(p) && KeyChars(q) && KeyChars(v)
    requires IsKey(a) && IsKey(p + v + q) && p + v + q != a && IsPlain(v) && IsPlain(x)
    ensures var s := Nested(pre, p, a, q, post); var b := p + v + q; var bs := [Binding(a, v), Binding(b, x)];
            && !IsTemplate(s) && Proper(bs)
            && Fold(s, bs) == pre + (x + post) && Render(s, bs) == pre + (Placeholder(b) + post)
            && Fold(s, bs) != Render(s, bs)
  {
    var b := p + v + q;
    var bs := [Binding(a, v), Binding(b, x)];
    NestedInSequence(pre, p, a, q, post, v, x);
    NestedAtOnce(pre, p, a, q, post, v, bs);
    assert Placeholder(b)[0] == '{';
    if pre + (x + post) == pre + (Placeholder(b) + post) {
      Between(pre, x, Placeholder(b), post);
    }
  }

  lemma NestedInSequence(pre: string, p: string, a: string, q: string, post: string, v: string, x: string)
    requires NoBrace(pre) && NoBrace(post) && KeyChars(p) && KeyChars(q) && KeyChars(v)
    requires IsKey(a) && IsKey(p + v + q)
    ensures Fold(Nested(pre, p, a, q, post), [Binding(a, v), Binding(p + v + q, x)]) == pre + (x + post)
  {
    var b := p + v + q;
    var bs := [Binding(a, v), Binding(b, x)];
    var s := Nested(pre, p, a, q, post);
    var rest := q + "}}" + post;
    CopiedText(pre, "{" + ("{" + (p + (Placeholder(a) + rest))), a, v);
    LooseBracesReplaced(p, Placeholder(a) + rest, a, v);
    HoleReplaced(a, rest, v);
    Assembled(pre, p, v, q, post);
    CopiedText(pre, Placeholder(b) + post, b, x);
    HoleReplaced(b, post, x);
    assert ReplaceAll(s, Placeholder(a), v) == pre + (Placeholder(b) + post);
    FoldTwo(s, Binding(a, v), Binding(b, x));
  }

  lemma FoldTwo(s: string, b: Binding, d: Binding)
    requires IsKey(b.key) && IsKey(d.key)
    ensures Fold(s, [b, d]) == ReplaceAll(ReplaceAll(s, Placeholder(b.key), b.value), Placeholder(d.key), d.value)
  {
    assert [b, d][1..] == [d] && [d][1..] == [];
    var t := ReplaceAll(s, Placeholder(b.key), b.value);
    assert Fold(s, [b, d]) == Fold(t, [d]) == Fold(ReplaceAll(t, Placeholder(d.key), d.value), []);
  }

  lemma NestedAtOnce(pre: string, p: string, a: string, q: string, post: string, v: string, bs: seq<Binding>)
    requires NoBrace(pre) && NoBrace(post) && KeyChars(p) && KeyChars(q) && IsKey(a) && Value(a, bs) == Some(v)
    ensures !IsTemplate(Nested(pre, p, a, q, post))
    ensures Render(Nested(pre, p, a, q, post), bs) == pre + (Placeholder(p + v + q) + post)
  {
    var rest := q + "}}" + post;
    PlainPrefix(pre, "{" + ("{" + (p + (Placeholder(a) + rest))), bs);
    LooseBracesRendered(p, Placeholder(a) + rest, bs);
    HoleRendered(a, rest, bs);
    Assembled(pre, p, v, q, post);
  }
}
