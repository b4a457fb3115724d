/** The command name printed for an enum variant, and the variants it can be read back from. */
module Kebab {
  import opened Common

  predicate IsUpper(c: char) { 'A' <= c <= 'Z' }

  predicate IsLower(c: char) { 'a' <= c <= 'z' }

  function ToLower(c: char): char {
    if IsUpper(c) then c - 'A' + 'a' else c
  }

  function ToUpper(c: char): char {
    if IsLower(c) then c - 'a' + 'A' else c
  }

  /** Where a new word starts. */
  predicate Boundary(previous: Option<char>, c: char, next: Option<char>) {
    && IsUpper(c) && previous.Some?
    && var before := previous.value;
       IsLower(before) || IsDigit(before) || (IsUpper(before) && next.Some? && IsLower(next.value))
  }

  function Rendered(c: char): char { if c == '_' then '-' else ToLower(c) }

  function Peek(s: string): Option<char> { if s == [] then None else Some(s[0]) }

  function KebabFrom(previous: Option<char>, s: string): string
    decreases |s|
  {
    if s == [] then []
    else
      (if Boundary(previous, s[0], Peek(s[1..])) then ['-', Rendered(s[0])] else [Rendered(s[0])])
      + KebabFrom(Some(s[0]), s[1..])
  }

  lemma OneCharacter(before: string, after: string, previous: Option<char>, variant: string, i: nat)
    requires i < |variant|
    requires var next := if i + 1 < |variant| then Some(variant[i + 1]) else None;
             after == if Boundary(previous, variant[i], next) then before + ['-'] + [Rendered(variant[i])]
                      else before + [Rendered(variant[i])]
    ensures after + KebabFrom(Some(variant[i]), variant[i + 1..]) == before + KebabFrom(previous, variant[i..])
  {
    var rest := variant[i..];
    assert rest[0] == variant[i] && rest[1..] == variant[i + 1..];
  }

  method Render(variant: string) returns (rendered: string)
    ensures rendered == KebabFrom(None, variant)
  {
    rendered := [];
    var previous: Option<char> := None;
    var i := 0;
    while i < |variant|
      invariant 0 <= i <= |variant|
      invariant previous == if i == 0 then None else Some(variant[i - 1])
      invariant rendered + KebabFrom(previous, variant[i..]) == KebabFrom(None, variant)
    {
      var c := variant[i];
      var next := if i + 1 < |variant| then Some(variant[i + 1]) else None;
      ghost var before := rendered;
      if Boundary(previous, c, next) {
        rendered := rendered + ['-'];
      }
      rendered := rendered + [Rendered(c)];
      OneCharacter(before, rendered, previous, variant, i);
      previous := Some(c);
      i := i + 1;
    }
  }

  // ---- Where a name splits, for every variant ----

  /** A dash stands before character `i`: a capital behind a lowercase letter or a digit, or the last capital of
      a run, when a lowercase letter follows it. */
  predicate Splits(v: string, i: nat)
    requires i < |v|
  {
    && 0 < i && 'A' <= v[i] <= 'Z'
    && (|| 'a' <= v[i - 1] <= 'z' || '0' <= v[i - 1] <= '9'
        || ('A' <= v[i - 1] <= 'Z' && i + 1 < |v| && 'a' <= v[i + 1] <= 'z'))
  }

  const CAPITALS := "ABCDEFGHIJKLMNOPQRSTUVWXYZ"
  const SMALL := "abcdefghijklmnopqrstuvwxyz"

  /** `d` is printed for `c`: the small letter of a capital, a dash of an underscore, and any other as it is. */
  predicate PrintedAs(c: char, d: char) {
    && (forall k :: 0 <= k < |CAPITALS| && CAPITALS[k] == c ==> d == SMALL[k])
    && (c == '_' ==> d == '-')
    && (c !in CAPITALS && c != '_' ==> d == c)
  }

  lemma LettersPrinted(c: char)
    ensures PrintedAs(c, Rendered(c))
  {
    forall k | 0 <= k < |CAPITALS| && CAPITALS[k] == c ensures Rendered(c) == SMALL[k] { AlphabetAt(k); }
    if 'A' <= c <= 'Z' {
      AlphabetAt((c - 'A') as int);
    }
  }

  lemma AlphabetAt(k: nat)
    requires k < 26
    ensures |CAPITALS| == |SMALL| == 26
    ensures CAPITALS[k] == 'A' + k as char && SMALL[k] == 'a' + k as char
  {
    if k < 9 {
      assert k == 0 || k == 1 || k == 2 || k == 3 || k == 4 || k == 5 || k == 6 || k == 7 || k == 8;
    } else if k < 18 {
      assert k == 9 || k == 10 || k == 11 || k == 12 || k == 13 || k == 14 || k == 15 || k == 16 || k == 17;
    } else {
      assert k == 18 || k == 19 || k == 20 || k == 21 || k == 22 || k == 23 || k == 24 || k == 25;
    }
  }

  /** `name` is the rest of `v` from character `i`, printed: each character in its turn, behind a dash where the
      variant splits. */
  predicate Prints(v: string, i: nat, name: string)
    requires i <= |v|
    decreases |v| - i
  {
    if i == |v| then name == []
    else
      var dash := if Splits(v, i) then 1 else 0;
      && dash < |name| && (Splits(v, i) ==> name[0] == '-')
      && PrintedAs(v[i], name[dash]) && Prints(v, i + 1, name[dash + 1..])
  }

  lemma {:induction false} RestPrints(v: string, i: nat)
    requires i <= |v|
    ensures Prints(v, i, KebabFrom(if i == 0 then None else Some(v[i - 1]), v[i..]))
    decreases |v| - i
  {
    if i < |v| {
      var previous := if i == 0 then None else Some(v[i - 1]);
      var rest := v[i..];
      assert rest[0] == v[i] && rest[1..] == v[i + 1..];
      var name, dash := KebabFrom(previous, rest), if Splits(v, i) then 1 else 0;
      assert Boundary(previous, v[i], Peek(rest[1..])) <==> Splits(v, i);
      assert name[dash] == Rendered(v[i]) && name[dash + 1..] == KebabFrom(Some(v[i]), v[i + 1..]);
      LettersPrinted(v[i]);
      RestPrints(v, i + 1);
    }
  }

  /** What every variant prints as, capital runs and underscores included. */
  lemma PrintsExactly(variant: string)
    ensures Prints(variant, 0, KebabFrom(None, variant))
  {
    RestPrints(variant, 0);
    assert variant[0..] == variant;
  }

  // ---- Variants made of capitalised words ----

  predicate IsTail(s: string) { forall i :: 0 <= i < |s| ==> IsLower(s[i]) || IsDigit(s[i]) }

  /** A capital letter, then at least one lowercase letter or digit. */
  predicate IsWord(w: string) { |w| >= 2 && IsUpper(w[0]) && IsTail(w[1..]) }

  predicate AllWords(words: seq<string>) { forall i :: 0 <= i < |words| ==> IsWord(words[i]) }

  function Concat(words: seq<string>): string {
    if words == [] then [] else words[0] + Concat(words[1..])
  }

  function LowerWord(w: string): string
    requires w != []
  {
    [ToLower(w[0])] + w[1..]
  }

  function Joined(words: seq<string>): string
    requires AllWords(words)
  {
    if words == [] then []
    else if |words| == 1 then LowerWord(words[0])
    else LowerWord(words[0]) + "-" + Joined(words[1..])
  }

  function SplitDash(s: string): (parts: seq<string>)
    ensures parts != []
  {
    if s == [] then [[]]
    else
      var rest := SplitDash(s[1..]);
      if s[0] == '-' then [[]] + rest else [[s[0]] + rest[0]] + rest[1..]
  }

  function Capitalised(w: string): string {
    if w == [] then [] else [ToUpper(w[0])] + w[1..]
  }

  function CapitaliseAll(parts: seq<string>): seq<string> {
    if parts == [] then [] else [Capitalised(parts[0])] + CapitaliseAll(parts[1..])
  }

  /** Reading a printed name back: split at the dashes and capitalise. */
  function WordsOf(name: string): seq<string> { CapitaliseAll(SplitDash(name)) }

  lemma {:induction false} TailRendersItself(previous: char, t: string, rest: string)
    requires IsTail(t)
    ensures KebabFrom(Some(previous), t + rest) ==
              t + KebabFrom(Some(if t == [] then previous else t[|t| - 1]), rest)
    decreases |t|
  {
    if t == [] {
      assert t + rest == rest;
    } else {
      var s := t + rest;
      assert s[0] == t[0] && s[1..] == t[1..] + rest;
      assert !IsUpper(t[0]) && Rendered(t[0]) == t[0];
      assert KebabFrom(Some(previous), s) == [t[0]] + KebabFrom(Some(t[0]), s[1..]);
      TailRendersItself(t[0], t[1..], rest);
      var last := if |t| == 1 then t[0] else t[1..][|t| - 2];
      assert last == t[|t| - 1];
      assert [t[0]] + (t[1..] + KebabFrom(Some(last), rest)) == t + KebabFrom(Some(last), rest);
    }
  }

  lemma WordRenders(previous: Option<char>, w: string, rest: string)
    requires IsWord(w)
    requires previous.Some? ==> IsLower(previous.value) || IsDigit(previous.value)
    ensures KebabFrom(previous, w + rest) ==
              (if previous.Some? then "-" else "") + LowerWord(w) + KebabFrom(Some(w[|w| - 1]), rest)
  {
    var s := w + rest;
    assert s[1..] == w[1..] + rest;
    TailRendersItself(w[0], w[1..], rest);
    assert w[1..][|w[1..]| - 1] == w[|w| - 1];
  }

  lemma {:induction false} WordsRender(previous: Option<char>, words: seq<string>)
    requires AllWords(words)
    requires previous.Some? ==> IsLower(previous.value) || IsDigit(previous.value)
    ensures KebabFrom(previous, Concat(words)) ==
              (if previous.Some? && words != [] then "-" else "") + Joined(words)
    decreases |words|
  {
    if words != [] {
      var w, rest := words[0], words[1..];
      WordRenders(previous, w, Concat(rest));
      assert IsLower(w[1..][|w| - 2]) || IsDigit(w[1..][|w| - 2]);
      WordsRender(Some(w[|w| - 1]), rest);
      var dash, more := if previous.Some? then "-" else "", if rest == [] then "" else "-";
      assert dash + LowerWord(w) + (more + Joined(rest)) == dash + (LowerWord(w) + more + Joined(rest));
    }
  }

  /** A variant of capitalised words prints as its words, lowercased and joined by dashes. */
  lemma KebabJoinsWords(words: seq<string>)
    requires AllWords(words)
    ensures KebabFrom(None, Concat(words)) == Joined(words)
  {
    WordsRender(None, words);
  }

  lemma {:induction false} SplitWithoutDash(x: string)
    requires '-' !in x
    ensures SplitDash(x) == [x]
  {
    if x != [] {
      SplitWithoutDash(x[1..]);
      assert x == [x[0]] + x[1..];
    }
  }

  lemma {:induction false} SplitAtDash(x: string, y: string)
    requires '-' !in x
    ensures SplitDash(x + "-" + y) == [x] + SplitDash(y)
  {
    var s := x + "-" + y;
    if x == [] {
      assert s[1..] == y;
    } else {
      assert s[1..] == x[1..] + "-" + y;
      SplitAtDash(x[1..], y);
      assert x == [x[0]] + x[1..];
      assert SplitDash(s)[1..] == SplitDash(y);
    }
  }

  lemma LowerWordReadsBack(w: string)
    requires IsWord(w)
    ensures '-' !in LowerWord(w) && Capitalised(LowerWord(w)) == w
  {
    assert forall i :: 0 <= i < |w[1..]| ==> w[1..][i] != '-';
    assert w == [w[0]] + w[1..];
  }

  /** Splitting and capitalising undoes the printing. */
  lemma {:induction false} WordsReadBack(words: seq<string>)
    requires AllWords(words) && words != []
    ensures WordsOf(Joined(words)) == words
    decreases |words|
  {
    var w, rest := words[0], words[1..];
    LowerWordReadsBack(w);
    if rest == [] {
      SplitWithoutDash(LowerWord(w));
      assert words == [w];
      assert [LowerWord(w)][1..] == [];
      assert CapitaliseAll([LowerWord(w)]) == [w];
    } else {
      WordsReadBack(rest);
      SplitAtDash(LowerWord(w), Joined(rest));
      var parts := SplitDash(Joined(rest));
      assert ([LowerWord(w)] + parts)[1..] == parts;
      assert words == [w] + rest;
    }
  }

  /** Variants of capitalised words never collide. */
  lemma KebabInjectiveOnWords(a: seq<string>, b: seq<string>)
    requires AllWords(a) && AllWords(b) && a != [] && b != []
    requires KebabFrom(None, Concat(a)) == KebabFrom(None, Concat(b))
    ensures a == b
  {
    KebabJoinsWords(a);
    KebabJoinsWords(b);
    WordsReadBack(a);
    WordsReadBack(b);
  }

  /** Outside that shape they can: a run of capitals prints like one word. */
  lemma CapitalRunCollides()
    ensures KebabFrom(None, "AB") == KebabFrom(None, "Ab") && IsWord("Ab") && !IsWord("AB")
  {
    assert "AB"[1..] == "B" && "Ab"[1..] == "b";
    assert KebabFrom(Some('A'), "B") == "b" && KebabFrom(Some('A'), "b") == "b";
  }
}
