/** The variables of a scenario: a text file of key-tab-value lines, written by captures and read back by
    every substitution. */
module Scenarios {
  import opened Substitution

  // ---- the store file ---------------------------------------------------------

  function StripLeft(s: string): string {
    if s != [] && s[0] == TAB then StripLeft(s[1..]) else s
  }

  function StripRight(s: string): string {
    if s != [] && s[|s| - 1] == TAB then StripRight(s[..|s| - 1]) else s
  }

  /** Where the first `c` is, or the end. */
  function First(c: char, s: string): (n: nat)
    ensures n <= |s|
    ensures n < |s| ==> s[n] == c
    ensures forall i | 0 <= i < n :: s[i] != c
  {
    if s == [] || s[0] == c then 0 else 1 + First(c, s[1..])
  }

  /** `IFS=$'\t' read -r key val`: tabs around the line are dropped, the first run of tabs ends the key. */
  function ReadLine(line: string): Binding {
    var s := StripRight(StripLeft(line));
    var n := First(TAB, s);
    Binding(s[..n], StripLeft(s[n..]))
  }

  /** `while read`: one binding for each line, up to the last newline. */
  function ReadText(text: string): (bs: seq<Binding>)
    decreases |text|
  {
    var n := First(NEWLINE, text);
    if n == |text| then [] else [ReadLine(text[..n])] + ReadText(text[n + 1..])
  }

  /** What `printf '%s\t%s\n'` writes for a binding. */
  function Line(b: Binding): string {
    b.key + [TAB] + b.value + [NEWLINE]
  }

  /** The value has no newline, and neither starts nor ends with a tab. */
  predicate CanStore(v: string) {
    NEWLINE !in v && (v == "" || (v[0] != TAB && v[|v| - 1] != TAB))
  }

  lemma FirstFinds(c: char, s: string, i: nat)
    requires i < |s| && s[i] == c
    ensures First(c, s) <= i
  {
  }

  lemma BeforeFirst(c: char, s: string)
    ensures c !in s[..First(c, s)]
  {
  }

  lemma {:induction false} FirstAfter(c: char, text: string, rest: string)
    requires c !in text
    ensures First(c, text + [c] + rest) == |text|
    ensures First(c, text) == |text|
  {
    if text == [] {
      assert (text + [c] + rest)[0] == c;
    } else {
      assert text[0] in text && forall d | d in text[1..] :: d in text;
      assert (text + [c] + rest)[1..] == text[1..] + [c] + rest;
      FirstAfter(c, text[1..], rest);
    }
  }

  lemma {:induction false} StripRightTail(s: string)
    ensures StripRight(s) != [] ==> StripRight(s)[|StripRight(s)| - 1] != TAB
    ensures |StripRight(s)| <= |s|
    ensures s != [] && s[|s| - 1] == TAB ==> |StripRight(s)| < |s|
    ensures StripRight(s) == s <==> s == [] || s[|s| - 1] != TAB
  {
    if s != [] && s[|s| - 1] == TAB {
      StripRightTail(s[..|s| - 1]);
    }
  }

  lemma {:induction false} StripRightAppend(s: string, t: string)
    requires s != [] && s[|s| - 1] != TAB
    ensures StripRight(s + [TAB] + t) == if StripRight(t) == [] then s else s + [TAB] + StripRight(t)
  {
    var line := s + [TAB] + t;
    if t == [] {
      assert line[..|line| - 1] == s;
    } else if t[|t| - 1] == TAB {
      assert line[..|line| - 1] == s + [TAB] + t[..|t| - 1];
      StripRightAppend(s, t[..|t| - 1]);
    }
  }

  lemma {:induction false} StripLeftHead(s: string)
    ensures StripLeft(s) != [] ==> StripLeft(s)[0] != TAB
    ensures |StripLeft(s)| <= |s|
    ensures StripLeft(s) == s <==> s == [] || s[0] != TAB
  {
    if s != [] && s[0] == TAB {
      StripLeftHead(s[1..]);
    }
  }

  /** A variable name a line of captures can hold. */
  predicate CanName(k: string) {
    k != "" && TAB !in k && NEWLINE !in k
  }

  lemma KeyThenValue(k: string, w: string)
    requires CanName(k)
    ensures First(TAB, k + [TAB] + w) == |k| && First(TAB, k) == |k|
    ensures (k + [TAB] + w)[..|k|] == k && StripLeft((k + [TAB] + w)[|k|..]) == StripLeft(w)
  {
    FirstAfter(TAB, k, w);
    assert (k + [TAB] + w)[|k|..] == [TAB] + w;
    assert ([TAB] + w)[1..] == w;
  }

  /** The line of a key and a value gives the key, and the value without the tabs at its ends. */
  lemma ReadTrimmed(k: string, v: string)
    requires CanName(k)
    ensures ReadLine(k + [TAB] + v) == Binding(k, StripLeft(StripRight(v)))
  {
    var line := k + [TAB] + v;
    var w := StripRight(v);
    KeyThenValue(k, w);
    assert k[0] != TAB && k[|k| - 1] != TAB && line[0] == k[0];
    StripLeftHead(line);
    StripRightAppend(k, v);
    assert k[..|k|] == k && k[|k|..] == "";
  }

  /** One line without a newline in it: key and value come back exactly when the value neither starts
      nor ends with a tab; tabs inside are kept. */
  lemma ReadBackLine(k: string, v: string)
    requires CanName(k)
    ensures ReadLine(k + [TAB] + v) == Binding(k, v) <==> v == "" || (v[0] != TAB && v[|v| - 1] != TAB)
  {
    ReadTrimmed(k, v);
    StripRightTail(v);
    StripLeftHead(StripRight(v));
    StripLeftHead(v);
  }

  predicate AllTabs(s: string) {
    forall i | 0 <= i < |s| :: s[i] == TAB
  }

  lemma {:induction false} StripsLeft(l: string, s: string)
    requires AllTabs(l)
    ensures StripLeft(l + s) == StripLeft(s)
  {
    if l == "" {
      assert l + s == s;
    } else {
      assert (l + s)[0] == l[0] && (l + s)[1..] == l[1..] + s;
      StripsLeft(l[1..], s);
    }
  }

  lemma {:induction false} StripsRight(s: string, r: string)
    requires AllTabs(r)
    ensures StripRight(s + r) == StripRight(s)
  {
    if r == "" {
      assert s + r == s;
    } else {
      var n := |r| - 1;
      assert (s + r)[|s + r| - 1] == r[n] && (s + r)[..|s + r| - 1] == s + r[..n];
      StripsRight(s, r[..n]);
    }
  }

  /** Tabs around a value, and nothing else, are lost. */
  lemma TabsLost(k: string, l: string, v: string, r: string)
    requires CanName(k) && AllTabs(l) && AllTabs(r) && (v == "" || (v[0] != TAB && v[|v| - 1] != TAB))
    ensures ReadLine(k + [TAB] + (l + v + r)) == Binding(k, v)
  {
    ReadTrimmed(k, l + v + r);
    StripsRight(l + v, r);
    if v == "" {
      assert l + v == l && "" + l == l && l + "" == l;
      StripsRight("", l);
    } else {
      StripRightTail(l + v);
      assert (l + v)[|l + v| - 1] == v[|v| - 1];
      StripsLeft(l, v);
      StripLeftHead(v);
    }
  }

  lemma SplitAt<T>(s: seq<T>, n: nat)
    requires n < |s|
    ensures s == s[..n] + [s[n]] + s[n + 1..]
  {
  }

  /** A line, then the rest of the file. */
  lemma ReadFirstLine(line: string, rest: string)
    requires NEWLINE !in line
    ensures ReadText(line + [NEWLINE] + rest) == [ReadLine(line)] + ReadText(rest)
  {
    var text := line + [NEWLINE] + rest;
    FirstAfter(NEWLINE, line, rest);
    assert text[..|line|] == line && text[|line| + 1..] == rest;
  }

  lemma ReadOnlyLine(line: string)
    requires NEWLINE !in line
    ensures ReadText(line + [NEWLINE]) == [ReadLine(line)]
  {
    ReadFirstLine(line, "");
    assert line + [NEWLINE] + "" == line + [NEWLINE];
    assert ReadText("") == [];
  }

  /** A value of more lines than one binds the key to its first line only; every further line is taken
      for a binding of its own. */
  lemma ReadManyLines(k: string, line: string, more: string)
    requires CanName(k) && NEWLINE !in line
    ensures ReadText(Line(Binding(k, line + [NEWLINE] + more)))
            == [ReadLine(k + [TAB] + line)] + ReadText(more + [NEWLINE])
  {
    ReadFirstLine(k + [TAB] + line, more + [NEWLINE]);
    TwoParts(k + [TAB], line, [NEWLINE], more);
  }

  lemma TwoParts(a: string, b: string, c: string, d: string)
    ensures a + (b + c + d) + c == (a + b) + c + (d + c)
  {
    assert a + (b + c + d) == (a + b) + c + d;
  }

  lemma ReadsSomething(text: string)
    requires NEWLINE in text
    ensures ReadText(text) != []
  {
    var i :| 0 <= i < |text| && text[i] == NEWLINE;
    FirstFinds(NEWLINE, text, i);
  }

  /** What is appended to the store for a binding is read back as that binding, and nothing else,
      exactly when the value has no newline and neither starts nor ends with a tab. */
  lemma ReadBack(b: Binding)
    requires CanName(b.key)
    ensures ReadText(Line(b)) == [b] <==> CanStore(b.value)
    ensures ReadText(Line(b)) != []
  {
    var k, v := b.key, b.value;
    var n := First(NEWLINE, v);
    BeforeFirst(NEWLINE, v);
    if n == |v| {
      assert v[..n] == v;
      ReadOnlyLine(k + [TAB] + v);
      ReadBackLine(k, v);
    } else {
      var line, more := v[..n], v[n + 1..];
      SplitAt(v, n);
      ReadManyLines(k, line, more);
      ReadsSomething(more + [NEWLINE]);
      assert v[n] == NEWLINE;
    }
  }

  // ---- the runner -------------------------------------------------------------

  /** Nothing is left open at the end: empty, or ended by a newline. */
  predicate Closed(text: string) {
    text == "" || text[|text| - 1] == NEWLINE
  }

  lemma Regroup<T>(a: seq<T>, b: seq<T>, c: seq<T>)
    ensures (a + b) + c == a + (b + c)
  {
  }

  lemma ClosedRest(text: string, n: nat)
    requires Closed(text) && n < |text|
    ensures Closed(text[n + 1..])
  {
    var rest := text[n + 1..];
    if rest != "" {
      assert rest[|rest| - 1] == text[|text| - 1];
    }
  }

  lemma {:induction false} ReadAppended(text: string, more: string)
    requires Closed(text)
    ensures ReadText(text + more) == ReadText(text) + ReadText(more)
    decreases |text|
  {
    if text == "" {
      assert text + more == more;
      assert ReadText(text) == [];
    } else {
      var n := First(NEWLINE, text);
      FirstFinds(NEWLINE, text, |text| - 1);
      BeforeFirst(NEWLINE, text);
      ClosedRest(text, n);
      SplitAt(text, n);
      var line, rest := text[..n], text[n + 1..];
      ReadAppended(rest, more);
      Regroup(line + [NEWLINE], rest, more);
      ReadFirstLine(line, rest + more);
      Regroup([ReadLine(line)], ReadText(rest), ReadText(more));
    }
  }

  /** Values that come back from the store. */
  ghost predicate Storable(bs: seq<Binding>) {
    forall i | 0 <= i < |bs| :: CanStore(bs[i].value)
  }

  ghost predicate Named(bs: seq<Binding>) {
    forall i | 0 <= i < |bs| :: CanName(bs[i].key)
  }

  /** The store after these captures. */
  function Text(bs: seq<Binding>): (text: string)
    ensures Closed(text)
  {
    if bs == [] then "" else Text(bs[..|bs| - 1]) + Line(bs[|bs| - 1])
  }

  lemma SplitAtEnd<T>(first: seq<T>, last: seq<T>, init: seq<T>, b: T)
    requires |first| >= |init| && last != []
    ensures first + last == init + [b] <==> first == init && last == [b]
  {
    if first + last == init + [b] {
      assert |last| == 1 && |first| == |init|;
      assert first == (first + last)[..|init|] == init;
      assert last == (first + last)[|init|..] == [b];
    }
  }

  lemma Appended(bs: seq<Binding>, b: Binding)
    requires CanName(b.key)
    ensures Text(bs + [b]) == Text(bs) + Line(b)
    ensures ReadText(Text(bs + [b])) == ReadText(Text(bs)) + ReadText(Line(b))
    ensures ReadText(Text(bs + [b])) == ReadText(Text(bs)) + [b] <==> CanStore(b.value)
    ensures |ReadText(Text(bs + [b]))| > |ReadText(Text(bs))|
  {
    assert (bs + [b])[..|bs|] == bs;
    ReadAppended(Text(bs), Line(b));
    ReadBack(b);
    SplitAtEnd(ReadText(Text(bs)), ReadText(Line(b)), ReadText(Text(bs)), b);
  }

  /** The whole store comes back as it was captured exactly when each of its values does. */
  lemma {:induction false} StoreReadsBack(bs: seq<Binding>)
    requires Named(bs)
    ensures |ReadText(Text(bs))| >= |bs|
    ensures ReadText(Text(bs)) == bs <==> Storable(bs)
  {
    if bs == [] {
      assert ReadText("") == [];
    } else {
      var init, b := bs[..|bs| - 1], bs[|bs| - 1];
      StoreReadsBack(init);
      assert bs == init + [b];
      NamedLast(init, b);
      Appended(init, b);
      ReadBack(b);
      SplitAtEnd(ReadText(Text(init)), ReadText(Line(b)), init, b);
      StorableLast(init, b);
    }
  }

  lemma NamedLast(init: seq<Binding>, b: Binding)
    ensures Named(init + [b]) <==> Named(init) && CanName(b.key)
  {
    var bs := init + [b];
    assert bs[|init|] == b && forall i | 0 <= i < |init| :: bs[i] == init[i];
  }

  lemma StorableLast(init: seq<Binding>, b: Binding)
    ensures Storable(init + [b]) <==> Storable(init) && CanStore(b.value)
  {
    var bs := init + [b];
    assert bs[|init|] == b && forall i | 0 <= i < |init| :: bs[i] == init[i];
  }

  /** What the shell would read as more than text: wildcards in a pattern, `&` in a replacement. */
  ghost predicate Literal(bs: seq<Binding>) {
    forall b | b in bs :: forall i | 0 <= i < |b.key| :: !IsWild(b.key[i]) && '&' !in b.value
  }

  lemma NonceNamed(nonce: string)
    ensures CanName(Binding("nonce", nonce).key)
  {
  }

  lemma OnlyOne(b: Binding)
    requires CanName(b.key)
    ensures Named([b]) && Text([b]) == Line(b)
    ensures ReadText(Line(b)) == [b] <==> CanStore(b.value)
  {
    Appended([], b);
    assert [] + [b] == [b];
    ReadBack(b);
  }

  /** The variables of one scenario run: a file that only grows. */
  class Scenario {
    var vars: string
    ghost var captures: seq<Binding>

    ghost predicate Valid()
      reads this
    {
      Named(captures) && vars == Text(captures)
    }

    /** What a template can use: the store as it is read, not as it was meant. */
    ghost function Bindings(): seq<Binding>
      reads this
    {
      ReadText(vars)
    }

    constructor (nonce: string)
      ensures Valid() && captures == [Binding("nonce", nonce)]
      ensures Bindings() == captures <==> CanStore(nonce)
    {
      var b := Binding("nonce", nonce);
      NonceNamed(nonce);
      OnlyOne(b);
      vars := Line(b);
      captures := [b];
    }

    /** A captured variable is appended, whether or not it is already there; an empty name is skipped.
        The value may be anything: what it adds to the store is one binding exactly when it can be
        stored. */
    method Capture(key: string, value: string)
      requires Valid() && (key == "" || CanName(key))
      modifies this
      ensures Valid()
      ensures captures == if key == "" then old(captures) else old(captures) + [Binding(key, value)]
      ensures Bindings() == old(Bindings()) + if key == "" then [] else ReadText(Line(Binding(key, value)))
      ensures key != "" ==> (Bindings() == old(Bindings()) + [Binding(key, value)] <==> CanStore(value))
    {
      if key != "" {
        var b := Binding(key, value);
        Appended(captures, b);
        NamedLast(captures, b);
        vars := vars + Line(b);
        captures := captures + [b];
      }
    }

    /** `subst`: for each line of the store, replace its variable in the text. That renders the template
        in one pass with the store as it reads, and with the captures as they were made when all of
        them can be stored. */
    method Subst(template: string) returns (s: string)
      requires Valid() && Literal(Bindings())
      ensures s == Fold(template, Bindings())
      ensures IsSafe(template) && Proper(Bindings()) ==> s == Render(template, Bindings())
      ensures IsSafe(template) && Proper(captures) && Storable(captures) ==> s == Render(template, captures)
    {
      s := template;
      var rest := vars;
      var n := First(NEWLINE, rest);
      while n < |rest|
        invariant n == First(NEWLINE, rest)
        invariant Fold(template, ReadText(vars)) == Fold(s, ReadText(rest))
        decreases |rest|
      {
        var b := ReadLine(rest[..n]);
        assert ReadText(rest) == [b] + ReadText(rest[n + 1..]);
        if b.key != "" {
          s := ReplaceAll(s, Placeholder(b.key), b.value);
        }
        rest := rest[n + 1..];
        n := First(NEWLINE, rest);
      }
      StoreReadsBack(captures);
      if IsSafe(template) && Proper(Bindings()) {
        SubstitutionSimultaneous(template, Bindings());
      }
    }
  }

  /** A captured array or text of two lines: the variable gets the first line, and the second becomes
      a variable of its own, here one with an empty value. */
  lemma TwoLinesSplit(k: string, first: string, second: string)
    requires CanName(k) && CanName(first) && CanName(second)
    ensures ReadText(Line(Binding(k, first + [NEWLINE] + second))) == [Binding(k, first), Binding(second, "")]
  {
    ReadManyLines(k, first, second);
    assert first[0] != TAB && first[|first| - 1] != TAB;
    ReadBackLine(k, first);
    ReadOnlyLine(second);
    StripLeftHead(second);
    StripRightTail(second);
    FirstAfter(TAB, second, "");
    assert ReadLine(second) == Binding(second, "") by {
      assert second[..|second|] == second && second[|second|..] == "";
    }
  }
}
