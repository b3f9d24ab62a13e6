/** The two case conversions the application adds to `String.prototype`:
    `toCamelCase` (two global regular-expression replacements) and
    `toSpinalCase` (a regular-expression split, a join on `-` and a lowering).
    Characters are Unicode scalar values; case mapping is ASCII only. */
module StringExtension {
  import opened Wrappers
  import opened Chars

  // ---------------------------------------------------------------------------
  // Character classes of the regular expressions (no `u` flag)
  // ---------------------------------------------------------------------------

  predicate IsUpper(c: char) { 'A' <= c <= 'Z' }

  predicate IsLower(c: char) { 'a' <= c <= 'z' }

  /** `\w` */
  predicate IsWord(c: char) { IsUpper(c) || IsLower(c) || IsDigit(c) || c == '_' }

  /** `\s`: ECMAScript's WhiteSpace and LineTerminator code points. */
  predicate IsSpace(c: char) {
    var n := c as int;
    (9 <= n <= 13) || n == 0x20 || n == 0xA0 || n == 0x1680 || (0x2000 <= n <= 0x200A)
    || n == 0x2028 || n == 0x2029 || n == 0x202F || n == 0x205F || n == 0x3000 || n == 0xFEFF
  }

  function ToLower(c: char): (r: char)
    ensures !IsUpper(r)
    ensures IsWord(r) == IsWord(c) && IsSpace(r) == IsSpace(c)
    ensures !IsUpper(c) ==> r == c
  {
    if IsUpper(c) then (c as int + 32) as char else c
  }

  function ToUpper(c: char): (r: char)
    ensures !IsLower(r)
    ensures IsWord(r) == IsWord(c) && IsSpace(r) == IsSpace(c)
    ensures !IsLower(c) ==> r == c
  {
    if IsLower(c) then (c as int - 32) as char else c
  }

  // ---------------------------------------------------------------------------
  // toCamelCase
  // ---------------------------------------------------------------------------

  /** `\b` at position `i`: exactly one of the characters either side of it is
      a word character (outside the string counts as non-word). */
  predicate WordBoundary(s: string, i: nat)
    requires i <= |s|
  {
    (i > 0 && IsWord(s[i - 1])) != (i < |s| && IsWord(s[i]))
  }

  /** One alternative of `(?:^\w|[A-Z]|-|\b\w)` matches the character at `i`.
      Every alternative is one character long, so the global replacement
      visits each position once. */
  predicate CamelMatch(s: string, i: nat)
    requires i < |s|
  {
    (i == 0 && IsWord(s[i])) || IsUpper(s[i]) || s[i] == '-' || (WordBoundary(s, i) && IsWord(s[i]))
  }

  /** The first replacement: a match at index 0 is lowered, every other match
      is raised, and unmatched characters stay. In plain terms: the first
      character is lowered, a word character after a non-word character is
      raised, and everything else (capitals inside a word included) stays. */
  function CaseWords(s: string): (t: string)
    ensures |t| == |s|
    ensures forall i | 0 <= i < |s| ::
      t[i] == (if i == 0 then ToLower(s[i])
               else if IsWord(s[i]) && !IsWord(s[i - 1]) then ToUpper(s[i])
               else s[i])
  {
    seq(|s|, i requires 0 <= i < |s| =>
      if CamelMatch(s, i) then (if i == 0 then ToLower(s[i]) else ToUpper(s[i])) else s[i])
  }

  /** What `/\s+|-/g` removes. */
  predicate IsCamelSeparator(c: char) { IsSpace(c) || c == '-' }

  function CountCamelSeparators(s: string): nat {
    if s == [] then 0 else (if IsCamelSeparator(s[0]) then 1 else 0) + CountCamelSeparators(s[1..])
  }

  /** The second replacement: every run of white space and every `-` goes,
      the other characters stay in order. */
  function DropSeparators(t: string): (r: string)
    ensures forall i | 0 <= i < |r| :: !IsCamelSeparator(r[i])
    ensures |r| == |t| - CountCamelSeparators(t)
  {
    if t == [] then []
    else (if IsCamelSeparator(t[0]) then [] else [t[0]]) + DropSeparators(t[1..])
  }

  function ToCamelCase(s: string): string {
    DropSeparators(CaseWords(s))
  }

  lemma {:induction false} SeparatorCountsAgree(s: string, t: string)
    requires |s| == |t|
    requires forall i | 0 <= i < |s| :: IsCamelSeparator(s[i]) == IsCamelSeparator(t[i])
    ensures CountCamelSeparators(s) == CountCamelSeparators(t)
  {
    if s != [] {
      SeparatorCountsAgree(s[1..], t[1..]);
    }
  }

  /** The result holds no white space and no `-`, and is shorter than the input
      by exactly the number of those characters. */
  lemma CamelCaseDropsSeparators(s: string)
    ensures forall c | c in ToCamelCase(s) :: !IsSpace(c) && c != '-'
    ensures |ToCamelCase(s)| == |s| - CountCamelSeparators(s)
  {
    var t := CaseWords(s);
    forall i | 0 <= i < |s|
      ensures IsCamelSeparator(s[i]) == IsCamelSeparator(t[i])
    {
      assert s[i] == '-' ==> t[i] == '-';
    }
    SeparatorCountsAgree(s, t);
  }

  /** Every lower-case letter after the first position follows a word
      character: the shape the first replacement leaves behind. */
  predicate LowerFollowsWord(t: string) {
    forall i | 0 < i < |t| :: IsLower(t[i]) ==> IsWord(t[i - 1])
  }

  /** Removing separators keeps that shape: a separator is not a word
      character, so a letter it preceded was not lower-case. */
  lemma {:induction false} DropKeepsShape(t: string)
    requires LowerFollowsWord(t)
    ensures LowerFollowsWord(DropSeparators(t))
  {
    if t != [] {
      var rest := t[1..];
      ShapeOfTail(t);
      DropKeepsShape(rest);
      var d := DropSeparators(rest);
      if !IsCamelSeparator(t[0]) {
        assert DropSeparators(t) == [t[0]] + d;
        if rest != [] {
          if IsCamelSeparator(rest[0]) {
            HeadAfterSeparator(rest);
          } else {
            assert d[0] == t[1];
          }
        }
        ShapeOfCons(t[0], d);
      } else {
        assert DropSeparators(t) == d;
      }
    }
  }

  lemma ShapeOfTail(t: string)
    requires t != [] && LowerFollowsWord(t)
    ensures LowerFollowsWord(t[1..])
  {
    var rest := t[1..];
    forall i | 0 < i < |rest| ensures IsLower(rest[i]) ==> IsWord(rest[i - 1]) {
      assert rest[i] == t[i + 1] && rest[i - 1] == t[i];
    }
  }

  lemma ShapeOfCons(c: char, u: string)
    requires LowerFollowsWord(u)
    requires u != [] && IsLower(u[0]) ==> IsWord(c)
    ensures LowerFollowsWord([c] + u)
  {
    var r := [c] + u;
    forall i | 0 < i < |r| ensures IsLower(r[i]) ==> IsWord(r[i - 1]) {
      if i > 1 {
        assert r[i] == u[i - 1] && r[i - 1] == u[i - 2];
      }
    }
  }

  lemma {:induction false} HeadAfterSeparator(t: string)
    requires LowerFollowsWord(t)
    requires t != [] && IsCamelSeparator(t[0])
    ensures DropSeparators(t) == [] || !IsLower(DropSeparators(t)[0])
  {
    var rest := t[1..];
    if rest != [] {
      if IsCamelSeparator(rest[0]) {
        ShapeOfTail(t);
        HeadAfterSeparator(rest);
      } else {
        assert DropSeparators(rest)[0] == t[1];
      }
    }
  }

  /** A string already in camel case is left alone: converting twice is
      converting once, as long as the input does not start with a separator. */
  lemma CamelCaseIdempotent(s: string)
    requires s == [] || !IsCamelSeparator(s[0])
    ensures ToCamelCase(ToCamelCase(s)) == ToCamelCase(s)
  {
    var t := CaseWords(s);
    var r := DropSeparators(t);
    assert LowerFollowsWord(t) by {
      forall i | 0 < i < |t| ensures IsLower(t[i]) ==> IsWord(t[i - 1]) {
        assert IsWord(t[i - 1]) == IsWord(s[i - 1]);
      }
    }
    DropKeepsShape(t);
    if s != [] {
      assert r[0] == t[0];
    }
    assert CaseWords(r) == r;
    assert forall i | 0 <= i < |r| :: !IsCamelSeparator(r[i]);
    NoSeparatorsDropNothing(r);
  }

  lemma {:induction false} NoSeparatorsDropNothing(t: string)
    requires forall i | 0 <= i < |t| :: !IsCamelSeparator(t[i])
    ensures DropSeparators(t) == t
  {
    if t != [] {
      NoSeparatorsDropNothing(t[1..]);
    }
  }

  /** Leading white space is removed only after the first replacement, so the
      word behind it is raised: " ab" becomes "Ab", and converting that once
      more gives "ab". */
  lemma LeadingSpaceCapitalises(spaced: string)
    requires spaced == " ab"
    ensures ToCamelCase(spaced) == "Ab"
    ensures ToCamelCase(ToCamelCase(spaced)) == "ab"
  {
    SpacedWordRaised(spaced);
    RaisedWordLowered(ToCamelCase(spaced));
  }

  lemma SpacedWordRaised(spaced: string)
    requires spaced == " ab"
    ensures ToCamelCase(spaced) == "Ab"
  {
    var t := CaseWords(spaced);
    var raised := t[1..];
    assert raised == "Ab" by {
      assert !IsWord(spaced[0]) && IsWord(spaced[1]);
      assert t[1] == 'A' && t[2] == 'b';
    }
    assert IsCamelSeparator(t[0]);
    assert DropSeparators(t) == DropSeparators(raised);
    assert forall i | 0 <= i < |raised| :: !IsCamelSeparator(raised[i]);
    NoSeparatorsDropNothing(raised);
  }

  lemma RaisedWordLowered(raised: string)
    requires raised == "Ab"
    ensures ToCamelCase(raised) == "ab"
  {
    var lowered := CaseWords(raised);
    assert lowered == "ab" by {
      assert lowered[0] == 'a' && lowered[1] == 'b';
    }
    assert forall i | 0 <= i < |lowered| :: !IsCamelSeparator(lowered[i]);
    NoSeparatorsDropNothing(lowered);
  }

  lemma {:induction false} DropSeparatorsAppend(x: string, y: string)
    ensures DropSeparators(x + y) == DropSeparators(x) + DropSeparators(y)
  {
    if x == [] {
      assert x + y == y;
    } else {
      assert (x + y)[1..] == x[1..] + y;
      DropSeparatorsAppend(x[1..], y);
    }
  }

  predicate AllLetters(w: string) {
    forall i | 0 <= i < |w| :: IsUpper(w[i]) || IsLower(w[i])
  }

  lemma LettersAreNotSeparators(w: string)
    requires AllLetters(w)
    ensures forall i | 0 <= i < |w| :: !IsCamelSeparator(w[i])
  {
    forall i | 0 <= i < |w| ensures !IsCamelSeparator(w[i]) {
      assert IsUpper(w[i]) || IsLower(w[i]);
    }
  }

  /** Two words of letters joined by one separator: the first lowered at its
      start, the second raised at its start, the separator gone. */
  lemma CamelCaseTwoWords(first: string, sep: char, second: string)
    requires first != [] && second != [] && IsCamelSeparator(sep)
    requires AllLetters(first) && AllLetters(second)
    ensures ToCamelCase(first + [sep] + second)
      == CaseWords(first) + ([ToUpper(second[0])] + second[1..])
  {
    var a := CaseWords(first);
    var c := [ToUpper(second[0])] + second[1..];
    TwoWordsCased(first, sep, second);
    CaseWordsKeepsLetters(first);
    LettersAreNotSeparators(a);
    RaisedWordIsLetters(second);
    LettersAreNotSeparators(c);
    DropAroundSeparator(a, sep, c);
  }

  lemma TwoWordsCased(first: string, sep: char, second: string)
    requires first != [] && second != [] && IsCamelSeparator(sep)
    requires AllLetters(second)
    ensures CaseWords(first + [sep] + second) == CaseWords(first) + [sep] + ([ToUpper(second[0])] + second[1..])
  {
    var t := CaseWords(first + [sep] + second);
    var n := |first|;
    TwoWordsFirst(first, sep, second);
    TwoWordsSeparator(first, sep, second);
    TwoWordsSecond(first, sep, second);
    assert t == t[..n] + t[n..n + 1] + t[n + 1..];
  }

  lemma DropAroundSeparator(a: string, sep: char, c: string)
    requires IsCamelSeparator(sep)
    requires forall i | 0 <= i < |a| :: !IsCamelSeparator(a[i])
    requires forall i | 0 <= i < |c| :: !IsCamelSeparator(c[i])
    ensures DropSeparators(a + [sep] + c) == a + c
  {
    calc {
      DropSeparators(a + [sep] + c);
      == { DropSeparatorsAppend(a + [sep], c); }
      DropSeparators(a + [sep]) + DropSeparators(c);
      == { DropSeparatorsAppend(a, [sep]); }
      DropSeparators(a) + DropSeparators([sep]) + DropSeparators(c);
      == { NoSeparatorsDropNothing(a); NoSeparatorsDropNothing(c); assert DropSeparators([sep]) == []; }
      a + [] + c;
      == { assert a + [] == a; }
      a + c;
    }
  }

  lemma CaseWordsKeepsLetters(w: string)
    requires AllLetters(w)
    ensures AllLetters(CaseWords(w))
  {
    var t := CaseWords(w);
    forall i | 0 <= i < |w| ensures IsUpper(t[i]) || IsLower(t[i]) {
      assert IsUpper(w[i]) || IsLower(w[i]);
    }
  }

  lemma RaisedWordIsLetters(w: string)
    requires w != [] && AllLetters(w)
    ensures AllLetters([ToUpper(w[0])] + w[1..])
  {
    var r := [ToUpper(w[0])] + w[1..];
    forall i | 0 <= i < |r| ensures IsUpper(r[i]) || IsLower(r[i]) {
      assert IsUpper(w[i]) || IsLower(w[i]);
    }
  }

  lemma TwoWordsFirst(first: string, sep: char, second: string)
    requires first != [] && IsCamelSeparator(sep)
    ensures CaseWords(first + [sep] + second)[..|first|] == CaseWords(first)
  {
    var s := first + [sep] + second;
    assert forall i | 0 <= i < |first| :: s[i] == first[i];
  }

  lemma TwoWordsSeparator(first: string, sep: char, second: string)
    requires first != [] && IsCamelSeparator(sep)
    ensures CaseWords(first + [sep] + second)[|first|..|first| + 1] == [sep]
  {
    var s := first + [sep] + second;
    assert s[|first|] == sep;
    assert !IsWord(sep);
  }

  lemma TwoWordsSecond(first: string, sep: char, second: string)
    requires first != [] && second != [] && IsCamelSeparator(sep)
    requires AllLetters(second)
    ensures CaseWords(first + [sep] + second)[|first| + 1..] == [ToUpper(second[0])] + second[1..]
  {
    var s := first + [sep] + second;
    var n := |first|;
    assert s[n] == sep && !IsWord(sep);
    assert s[n + 1..] == second;
    forall k | n < k < |s| ensures IsUpper(s[k]) || IsLower(s[k]) {
      assert s[k] == second[k - n - 1];
    }
    CaseWordsAfterBreak(s, n);
  }

  /** After a non-word character, a run of letters is raised at its start and
      kept as it is from then on. */
  lemma CaseWordsAfterBreak(s: string, n: nat)
    requires n + 1 < |s| && !IsWord(s[n])
    requires forall k | n < k < |s| :: IsUpper(s[k]) || IsLower(s[k])
    ensures CaseWords(s)[n + 1..] == [ToUpper(s[n + 1])] + s[n + 2..]
  {
    var t := CaseWords(s);
    var r := [ToUpper(s[n + 1])] + s[n + 2..];
    forall i | 0 <= i < |r| ensures t[n + 1..][i] == r[i] {
      var k := n + 1 + i;
      if i > 0 {
        assert IsUpper(s[k - 1]) || IsLower(s[k - 1]);
        assert r[i] == s[k];
      }
    }
  }

  /** `toCamelCase("hello world")`; the input is a parameter pinned by the
      precondition so that the verifier does not unfold the conversion on a
      literal. */
  lemma CamelCaseSpacedExample(spaced: string)
    requires spaced == "hello world"
    ensures ToCamelCase(spaced) == "helloWorld"
    ensures ToCamelCase("") == ""
  {
    assert AllLetters("hello") && AllLetters("world") by {
      forall i | 0 <= i < 5 ensures IsLower("hello"[i]) && IsLower("world"[i]) { }
    }
    CamelCaseTwoWords("hello", ' ', "world");
    assert "hello" + [' '] + "world" == spaced;
    assert CaseWords("hello") == "hello";
  }

  /** `toCamelCase("Foo-bar")`, with the input pinned as above. */
  lemma CamelCaseHyphenatedExample(hyphenated: string)
    requires hyphenated == "Foo-bar"
    ensures ToCamelCase(hyphenated) == "fooBar"
  {
    assert AllLetters("Foo") && AllLetters("bar") by {
      forall i | 0 <= i < 3 ensures IsLower("Foo"[i]) || IsUpper("Foo"[i]) { }
      forall i | 0 <= i < 3 ensures IsLower("bar"[i]) { }
    }
    CamelCaseTwoWords("Foo", '-', "bar");
    assert "Foo" + ['-'] + "bar" == hyphenated;
    assert CaseWords("Foo") == "foo";
  }

  // ---------------------------------------------------------------------------
  // toSpinalCase
  // ---------------------------------------------------------------------------

  /** A character `\s|_` consumes. */
  predicate IsSplitSeparator(c: char) { IsSpace(c) || c == '_' }

  /** Where `/\s|_|(?=[A-Z])/` ends when tried at position `q` and anchored
      there: after a separator, or at `q` itself in front of a capital
      (the look-ahead consumes nothing); None when it fails. */
  function SplitMatchEnd(s: string, q: nat): (e: Option<nat>)
    requires q < |s|
    ensures e.Some? ==> q <= e.value <= q + 1
  {
    if IsSplitSeparator(s[q]) then Some(q + 1)
    else if IsUpper(s[q]) then Some(q)
    else None
  }

  /** The split loop of `String.prototype.split` with a regular expression:
      `p` is where the current piece starts, `q` where the separator is tried
      next. A match that would end where the piece starts is skipped, so a
      capital never yields an empty piece. */
  function SplitFrom(s: string, p: nat, q: nat): (parts: seq<string>)
    requires p <= q <= |s|
    ensures |parts| >= 1
    decreases |s| - q, q - p
  {
    if q == |s| then [s[p..]]
    else match SplitMatchEnd(s, q)
      case None => SplitFrom(s, p, q + 1)
      case Some(e) =>
        if e == p then SplitFrom(s, p, q + 1)
        else [s[p..q]] + SplitFrom(s, e, e)
  }

  /** `split(/\s|_|(?=[A-Z])/)`. The empty string, which the expression does
      not match, splits into one empty piece, as the loop also gives. */
  function Split(s: string): seq<string> {
    SplitFrom(s, 0, 0)
  }

  /** `join('-')` */
  function JoinDash(parts: seq<string>): string {
    if |parts| == 0 then ""
    else if |parts| == 1 then parts[0]
    else parts[0] + "-" + JoinDash(parts[1..])
  }

  /** `toLowerCase()` */
  function LowerAll(s: string): (r: string)
    ensures |r| == |s|
    ensures forall i | 0 <= i < |s| :: r[i] == ToLower(s[i])
  {
    seq(|s|, i requires 0 <= i < |s| => ToLower(s[i]))
  }

  function ToSpinalCase(s: string): string {
    LowerAll(JoinDash(Split(s)))
  }

  // Reference definition, one character at a time -------------------------------

  /** A capital that gets a `-` in front of it: not the first character, and
      not right after a separator (whose own `-` already stands there). */
  predicate Hyphenates(s: string, i: nat)
    requires i < |s|
  {
    IsUpper(s[i]) && i > 0 && !IsSplitSeparator(s[i - 1])
  }

  /** What character `i` becomes before lowering. */
  function Piece(s: string, i: nat): string
    requires i < |s|
  {
    if IsSplitSeparator(s[i]) then "-"
    else if Hyphenates(s, i) then "-" + [s[i]]
    else [s[i]]
  }

  /** The pieces of characters `i..` in order. */
  function Expand(s: string, i: nat): string
    requires i <= |s|
    decreases |s| - i
  {
    if i == |s| then "" else Piece(s, i) + Expand(s, i + 1)
  }

  function HyphenCount(s: string, i: nat): nat
    requires i <= |s|
    decreases |s| - i
  {
    if i == |s| then 0 else (if Hyphenates(s, i) then 1 else 0) + HyphenCount(s, i + 1)
  }

  /** The split loop, joined on `-`, is the reference expansion: from a state
      whose current piece `s[p..q]` holds no separator and no capital other
      than possibly its first character, the joined remainder is that piece
      followed by the expansion of `q..` (without the `-` of a capital at `q`
      when the piece starts there, since the join wrote it already). */
  lemma {:induction false} SplitJoinIsExpand(s: string, p: nat, q: nat)
    requires p <= q <= |s|
    requires forall j | p <= j < q :: !IsSplitSeparator(s[j]) && (IsUpper(s[j]) ==> j == p)
    ensures JoinDash(SplitFrom(s, p, q)) == s[p..q] + ExpandAfter(s, p, q)
    decreases |s| - q, q - p, 1
  {
    if q == |s| {
      assert s[p..] == s[p..q];
    } else if IsSplitSeparator(s[q]) {
      SeparatorCase(s, p, q);
    } else if IsUpper(s[q]) && q != p {
      CapitalCase(s, p, q);
    } else {
      PlainCase(s, p, q);
    }
  }

  /** A separator at `q` closes the piece; the next one starts after it. */
  lemma {:induction false} SeparatorCase(s: string, p: nat, q: nat)
    requires p <= q < |s| && IsSplitSeparator(s[q])
    ensures JoinDash(SplitFrom(s, p, q)) == s[p..q] + ExpandAfter(s, p, q)
    decreases |s| - q, q - p, 0
  {
    SplitJoinIsExpand(s, q + 1, q + 1);
    SeparatorStep(s, p, q);
  }

  /** A capital at `q` closes a non-empty piece; the next one starts at it. */
  lemma {:induction false} CapitalCase(s: string, p: nat, q: nat)
    requires p < q < |s| && IsUpper(s[q]) && !IsSplitSeparator(s[q])
    requires !IsSplitSeparator(s[q - 1])
    ensures JoinDash(SplitFrom(s, p, q)) == s[p..q] + ExpandAfter(s, p, q)
    decreases |s| - q, q - p, 0
  {
    SplitJoinIsExpand(s, q, q);
    CapitalStep(s, p, q);
  }

  /** Any other character extends the piece. */
  lemma {:induction false} PlainCase(s: string, p: nat, q: nat)
    requires p <= q < |s| && !IsSplitSeparator(s[q]) && (IsUpper(s[q]) ==> q == p)
    requires forall j | p <= j < q :: !IsSplitSeparator(s[j]) && (IsUpper(s[j]) ==> j == p)
    ensures JoinDash(SplitFrom(s, p, q)) == s[p..q] + ExpandAfter(s, p, q)
    decreases |s| - q, q - p, 0
  {
    SplitJoinIsExpand(s, p, q + 1);
    PlainStep(s, p, q);
  }

  lemma SeparatorStep(s: string, p: nat, q: nat)
    requires p <= q < |s| && IsSplitSeparator(s[q])
    requires JoinDash(SplitFrom(s, q + 1, q + 1)) == s[q + 1..q + 1] + ExpandAfter(s, q + 1, q + 1)
    ensures JoinDash(SplitFrom(s, p, q)) == s[p..q] + ExpandAfter(s, p, q)
  {
    var rest := SplitFrom(s, q + 1, q + 1);
    assert SplitFrom(s, p, q) == [s[p..q]] + rest;
    JoinDashCons(s[p..q], rest);
    EmptySliceAppend(s, q + 1, ExpandAfter(s, q + 1, q + 1));
    ExpandAfterSeparator(s, p, q);
    AppendAssoc(s[p..q], "-", Expand(s, q + 1));
  }

  lemma CapitalStep(s: string, p: nat, q: nat)
    requires p < q < |s| && IsUpper(s[q]) && !IsSplitSeparator(s[q - 1]) && !IsSplitSeparator(s[q])
    requires JoinDash(SplitFrom(s, q, q)) == s[q..q] + ExpandAfter(s, q, q)
    ensures JoinDash(SplitFrom(s, p, q)) == s[p..q] + ExpandAfter(s, p, q)
  {
    var rest := SplitFrom(s, q, q);
    assert SplitFrom(s, p, q) == [s[p..q]] + rest;
    JoinDashCons(s[p..q], rest);
    EmptySliceAppend(s, q, ExpandAfter(s, q, q));
    ExpandAfterCapital(s, p, q);
    AppendAssoc(s[p..q], "-", [s[q]] + Expand(s, q + 1));
  }

  lemma PlainStep(s: string, p: nat, q: nat)
    requires p <= q < |s| && !IsSplitSeparator(s[q]) && (IsUpper(s[q]) ==> q == p)
    requires JoinDash(SplitFrom(s, p, q + 1)) == s[p..q + 1] + ExpandAfter(s, p, q + 1)
    ensures JoinDash(SplitFrom(s, p, q)) == s[p..q] + ExpandAfter(s, p, q)
  {
    assert SplitFrom(s, p, q) == SplitFrom(s, p, q + 1);
    ExpandAfterPlain(s, p, q);
    SliceExtend(s, p, q, Expand(s, q + 1));
  }

  lemma EmptySliceAppend(s: string, i: nat, x: string)
    requires i <= |s|
    ensures s[i..i] + x == x
  {
  }

  lemma AppendAssoc(a: string, b: string, c: string)
    ensures a + b + c == a + (b + c)
  {
  }

  lemma SliceExtend(s: string, p: nat, q: nat, x: string)
    requires p <= q < |s|
    ensures s[p..q + 1] + x == s[p..q] + ([s[q]] + x)
  {
    assert s[p..q + 1] == s[p..q] + [s[q]];
  }

  lemma ExpandAfterSeparator(s: string, p: nat, q: nat)
    requires p <= q < |s| && IsSplitSeparator(s[q])
    ensures ExpandAfter(s, q + 1, q + 1) == Expand(s, q + 1)
    ensures ExpandAfter(s, p, q) == "-" + Expand(s, q + 1)
  {
  }

  lemma ExpandAfterCapital(s: string, p: nat, q: nat)
    requires p < q < |s| && IsUpper(s[q]) && !IsSplitSeparator(s[q - 1]) && !IsSplitSeparator(s[q])
    ensures ExpandAfter(s, q, q) == [s[q]] + Expand(s, q + 1)
    ensures ExpandAfter(s, p, q) == "-" + ([s[q]] + Expand(s, q + 1))
  {
    assert Hyphenates(s, q);
    assert ExpandAfter(s, p, q) == Piece(s, q) + Expand(s, q + 1);
    AppendAssoc("-", [s[q]], Expand(s, q + 1));
  }

  lemma ExpandAfterPlain(s: string, p: nat, q: nat)
    requires p <= q < |s| && !IsSplitSeparator(s[q]) && (IsUpper(s[q]) ==> q == p)
    ensures ExpandAfter(s, p, q + 1) == Expand(s, q + 1)
    ensures ExpandAfter(s, p, q) == [s[q]] + Expand(s, q + 1)
  {
    if p == q && Hyphenates(s, q) {
      assert Piece(s, q) == "-" + [s[q]];
    }
  }

  /** The expansion of `q..` as the join continues it from a piece starting at
      `p`: without the `-` of a capital at `q` when the piece starts there. */
  function ExpandAfter(s: string, p: nat, q: nat): string
    requires p <= q <= |s|
  {
    if q < |s| && p == q && Hyphenates(s, q) then [s[q]] + Expand(s, q + 1) else Expand(s, q)
  }

  lemma JoinDashCons(first: string, rest: seq<string>)
    requires |rest| >= 1
    ensures JoinDash([first] + rest) == first + "-" + JoinDash(rest)
  {
    assert ([first] + rest)[1..] == rest;
  }

  /** toSpinalCase, one character at a time: a separator becomes `-`, a
      capital not at the start and not after a separator gets a `-` in front,
      every other character (an input `-` included) stays; then all is lowered. */
  lemma SpinalCaseByCharacter(s: string)
    ensures ToSpinalCase(s) == LowerAll(Expand(s, 0))
  {
    SplitJoinIsExpand(s, 0, 0);
  }

  lemma {:induction false} ExpandAlphabet(s: string, i: nat)
    requires i <= |s|
    ensures forall c | c in Expand(s, i) :: !IsSplitSeparator(c)
    decreases |s| - i
  {
    if i < |s| {
      ExpandAlphabet(s, i + 1);
    }
  }

  lemma {:induction false} ExpandLength(s: string, i: nat)
    requires i <= |s|
    ensures |Expand(s, i)| == |s| - i + HyphenCount(s, i)
    decreases |s| - i
  {
    if i < |s| {
      ExpandLength(s, i + 1);
      PieceLength(s, i);
    }
  }

  lemma PieceLength(s: string, i: nat)
    requires i < |s|
    ensures |Piece(s, i)| == if Hyphenates(s, i) then 2 else 1
  {
    if Hyphenates(s, i) {
      assert !IsSplitSeparator(s[i]);
    }
  }

  /** The result holds no capital, no white space and no underscore. */
  lemma SpinalCaseAlphabet(s: string)
    ensures forall c | c in ToSpinalCase(s) :: !IsUpper(c) && !IsSpace(c) && c != '_'
  {
    SpinalCaseByCharacter(s);
    ExpandAlphabet(s, 0);
    var x := Expand(s, 0);
    forall c | c in LowerAll(x) ensures !IsUpper(c) && !IsSpace(c) && c != '_' {
      var i :| 0 <= i < |x| && LowerAll(x)[i] == c;
      assert x[i] in x;
    }
  }

  /** The result is the input plus one `-` for every capital that hyphenates. */
  lemma SpinalCaseLength(s: string)
    ensures |ToSpinalCase(s)| == |s| + HyphenCount(s, 0)
  {
    SpinalCaseByCharacter(s);
    ExpandLength(s, 0);
  }

  /** A run of characters that are neither separators nor capitals expands
      to itself. */
  lemma {:induction false} ExpandRun(s: string, i: nat, j: nat)
    requires i <= j <= |s|
    requires forall k | i <= k < j :: !IsSplitSeparator(s[k]) && !IsUpper(s[k])
    ensures Expand(s, i) == s[i..j] + Expand(s, j)
    decreases j - i
  {
    if i < j {
      ExpandRun(s, i + 1, j);
      assert Piece(s, i) == [s[i]];
      assert s[i..j] == [s[i]] + s[i + 1..j];
      AppendAssoc([s[i]], s[i + 1..j], Expand(s, j));
    }
  }

  /** Converting twice is converting once. */
  lemma SpinalCaseIdempotent(s: string)
    ensures ToSpinalCase(ToSpinalCase(s)) == ToSpinalCase(s)
  {
    var t := ToSpinalCase(s);
    SpinalCaseAlphabet(s);
    assert forall j | 0 <= j < |t| :: !IsSplitSeparator(t[j]) && !IsUpper(t[j]) by {
      forall j | 0 <= j < |t| ensures !IsSplitSeparator(t[j]) && !IsUpper(t[j]) {
        assert t[j] in t;
      }
    }
    SpinalCaseByCharacter(t);
    ExpandRun(t, 0, |t|);
    assert t[0..|t|] == t;
    assert LowerAll(t) == t;
  }

  /** The example of the doc comment; `sample` stands for the literal so that
      the verifier does not unfold the conversion on it character by
      character. */
  lemma SpinalCaseExample(sample: string)
    requires sample == "AllThe-small Things"
    ensures ToSpinalCase(sample) == "all-the-small-things"
    ensures ToSpinalCase("") == ""
  {
    SpinalCaseByCharacter(sample);
    assert sample[0] == 'A' && sample[1..3] == "ll" && sample[2] == 'l' && sample[3] == 'T';
    assert sample[4..12] == "he-small" && sample[12] == ' ' && sample[13] == 'T' && sample[14..] == "hings";
    ExampleHead(sample);
    ExampleMiddle(sample);
    ExampleTail(sample);
    ExampleLowered(Expand(sample, 0));
  }

  /** From index `i` on, only lower-case letters and hyphens, checked one
      character at a time (so that the verifier can evaluate it on a literal). */
  predicate PlainFrom(w: string, i: nat)
    requires i <= |w|
    decreases |w| - i
  {
    i == |w| || ((IsLower(w[i]) || w[i] == '-') && PlainFrom(w, i + 1))
  }

  lemma {:induction false} PlainFromChars(w: string, i: nat)
    requires i <= |w| && PlainFrom(w, i)
    ensures forall k | i <= k < |w| :: !IsSplitSeparator(w[k]) && !IsUpper(w[k])
    decreases |w| - i
  {
    if i < |w| {
      PlainFromChars(w, i + 1);
      assert IsLower(w[i]) || w[i] == '-';
    }
  }

  /** A plain slice expands to itself. */
  lemma ExpandPlainRun(s: string, i: nat, j: nat)
    requires i <= j <= |s| && PlainFrom(s[i..j], 0)
    ensures Expand(s, i) == s[i..j] + Expand(s, j)
  {
    PlainFromChars(s[i..j], 0);
    forall k | i <= k < j ensures !IsSplitSeparator(s[k]) && !IsUpper(s[k]) {
      assert s[k] == s[i..j][k - i];
    }
    ExpandRun(s, i, j);
  }

  lemma ExampleHead(s: string)
    requires |s| >= 3 && s[0] == 'A' && s[1..3] == "ll"
    ensures Expand(s, 0) == "A" + ("ll" + Expand(s, 3))
  {
    assert PlainFrom("ll", 0);
    ExpandPlainRun(s, 1, 3);
  }

  lemma ExampleMiddle(s: string)
    requires |s| >= 12 && s[2] == 'l' && s[3] == 'T' && s[4..12] == "he-small"
    ensures Expand(s, 3) == "-T" + ("he-small" + Expand(s, 12))
  {
    assert Piece(s, 3) == "-T";
    assert PlainFrom("he-small", 0);
    ExpandPlainRun(s, 4, 12);
  }

  lemma ExampleTail(s: string)
    requires |s| == 19 && s[12] == ' ' && s[13] == 'T' && s[14..] == "hings"
    ensures Expand(s, 12) == "-" + ("T" + ("hings" + ""))
  {
    assert PlainFrom("hings", 0);
    assert s[14..19] == s[14..];
    ExpandPlainRun(s, 14, 19);
  }

  lemma ExampleLowered(expanded: string)
    requires expanded == "A" + ("ll" + ("-T" + ("he-small" + ("-" + ("T" + ("hings" + ""))))))
    ensures LowerAll(expanded) == "all-the-small-things"
  {
  }
}
