/**
  The handful of Python string operations the pipeline relies on: `str.lower`,
  `str.strip`, `str.replace(" ", "")`, `str.split()` followed by `" ".join`,
  `", ".join`, the `in` substring test, `int()` on a digit string, and the
  zero-padded decimal fields that `strftime` writes.

  Characters are modelled on their ASCII meaning: a letter is `A`-`Z` or
  `a`-`z`, a digit is `0`-`9`, a word character is a letter, a digit or `_`.
  The whitespace set is the one Python's `str.isspace` and the regular
  expression class `\s` share on the first 256 code points.
*/
module Text {

  import opened Wrappers

  predicate IsSpace(c: char) {
    c == ' ' || c == '\t' || c == '\n' || c == '\r' || c == '\U{0B}' || c == '\U{0C}'
    || ('\U{1C}' <= c <= '\U{1F}') || c == '\U{85}' || c == '\U{A0}'
  }

  predicate IsDigit(c: char) { '0' <= c <= '9' }

  predicate IsUpper(c: char) { 'A' <= c <= 'Z' }

  predicate IsWordChar(c: char) { 'a' <= c <= 'z' || IsUpper(c) || IsDigit(c) || c == '_' }

  /** Python truthiness of an optional string: present and non-empty. */
  predicate Truthy(s: Option<string>) { s.Some? && s.value != "" }

  function LowerChar(c: char): char {
    if IsUpper(c) then (c as int + 32) as char else c
  }

  /** `str.lower()`: same length, and no upper-case letter left. */
  function Lower(s: string): (r: string)
    ensures |r| == |s| && IsLowercase(r)
  {
    seq(|s|, i requires 0 <= i < |s| => LowerChar(s[i]))
  }

  function UpperChar(c: char): char {
    if 'a' <= c <= 'z' then (c as int - 32) as char else c
  }

  /** `str.upper()`, used to state that case does not matter. */
  function Upper(s: string): string {
    seq(|s|, i requires 0 <= i < |s| => UpperChar(s[i]))
  }

  lemma LowerUpper(s: string)
    ensures Lower(Upper(s)) == Lower(s)
  {
    forall i | 0 <= i < |s| ensures Lower(Upper(s))[i] == Lower(s)[i] {
      assert Upper(s)[i] == UpperChar(s[i]);
    }
  }

  /** Every character of `s` is a decimal digit. */
  predicate DigitsOnly(s: string) {
    forall k :: 0 <= k < |s| ==> IsDigit(s[k])
  }

  /** No character of `s` is an upper-case letter. */
  predicate IsLowercase(s: string) {
    forall i :: 0 <= i < |s| ==> !IsUpper(s[i])
  }

  /** Every character of `t` is whitespace. */
  predicate AllSpace(t: string) {
    forall k :: 0 <= k < |t| ==> IsSpace(t[k])
  }

  /** `str.lstrip()`: the longest whitespace prefix is removed, and nothing else. */
  function StripLeft(s: string): (r: string)
    ensures |r| <= |s| && r == s[|s| - |r|..]
    ensures AllSpace(s[..|s| - |r|])
    ensures r == [] || !IsSpace(r[0])
  {
    if |s| > 0 && IsSpace(s[0]) then
      var r := StripLeft(s[1..]);
      assert s[..|s| - |r|] == [s[0]] + s[1..][..|s| - 1 - |r|];
      r
    else s
  }

  /** `str.rstrip()`: the longest whitespace suffix is removed, and nothing else. */
  function StripRight(s: string): (r: string)
    ensures |r| <= |s| && r == s[..|r|]
    ensures AllSpace(s[|r|..])
    ensures r == [] || !IsSpace(r[|r| - 1])
  {
    if |s| > 0 && IsSpace(s[|s| - 1]) then
      var r := StripRight(s[..|s| - 1]);
      assert s[|r|..] == s[..|s| - 1][|r|..] + [s[|s| - 1]];
      r
    else s
  }

  /** `str.strip()`: the result is no longer than `s` and neither starts nor ends with whitespace. */
  function Strip(s: string): (r: string)
    ensures |r| <= |s|
    ensures r == [] || (!IsSpace(r[0]) && !IsSpace(r[|r| - 1]))
  {
    var l := StripLeft(s);
    var r := StripRight(l);
    assert r != [] ==> r[0] == l[0];
    r
  }

  /** No character of `t` is a plain space. */
  predicate NoPlainSpace(t: string) {
    forall k :: 0 <= k < |t| ==> t[k] != ' '
  }

  /** `str.replace(" ", "")`: no plain space is left, and a lower-case string stays lower-case. */
  function RemoveSpaces(s: string): (r: string)
    ensures NoPlainSpace(r)
    ensures IsLowercase(s) ==> IsLowercase(r)
  {
    if s == [] then []
    else
      var rest := RemoveSpaces(s[1..]);
      assert IsLowercase(s) ==> IsLowercase(s[1..]) by {
        assert forall i :: 0 <= i < |s[1..]| ==> s[1..][i] == s[i + 1];
      }
      var r := (if s[0] == ' ' then [] else [s[0]]) + rest;
      assert forall i :: 0 <= i < |r| - |rest| ==> r[i] == s[0] != ' ';
      assert forall i :: |r| - |rest| <= i < |r| ==> r[i] == rest[i - (|r| - |rest|)];
      r
  }

  /** Length of the leading run of non-whitespace characters: it stops at whitespace or at the end. */
  function NonSpaceRun(s: string): (n: nat)
    ensures n <= |s|
    ensures forall k :: 0 <= k < n ==> !IsSpace(s[k])
    ensures n == |s| || IsSpace(s[n])
  {
    if s == [] || IsSpace(s[0]) then 0 else 1 + NonSpaceRun(s[1..])
  }

  /** Every item is non-empty and free of whitespace. */
  predicate AreWords(ws: seq<string>) {
    forall k :: 0 <= k < |ws| ==> ws[k] != [] && NoSpace(ws[k])
  }

  /** `str.split()` with no argument: the maximal runs of non-whitespace, each non-empty and free of whitespace. */
  function Words(s: string): (ws: seq<string>)
    ensures AreWords(ws)
    decreases |s|
  {
    var t := StripLeft(s);
    if t == [] then []
    else
      var n := NonSpaceRun(t);
      var w := t[..n];
      assert w != [] && NoSpace(w) by {
        assert !IsSpace(t[0]);
        assert forall k :: 0 <= k < n ==> w[k] == t[k];
      }
      ConsWords(w, Words(t[n..]));
      [w] + Words(t[n..])
  }

  lemma ConsWords(w: string, rest: seq<string>)
    requires w != [] && NoSpace(w) && AreWords(rest)
    ensures AreWords([w] + rest)
  {
    var ws := [w] + rest;
    assert forall k :: 0 < k < |ws| ==> ws[k] == rest[k - 1];
  }

  /** `sep.join(xs)`: it starts with the first character of the first item and ends with the last character of the last. */
  function Join(sep: string, xs: seq<string>): (r: string)
    ensures xs != [] && xs[0] != [] ==> r != [] && r[0] == xs[0][0]
    ensures xs != [] && xs[|xs| - 1] != [] ==> r != [] && r[|r| - 1] == xs[|xs| - 1][|xs[|xs| - 1]| - 1]
  {
    if xs == [] then ""
    else if |xs| == 1 then xs[0]
    else
      assert xs[1..][|xs[1..]| - 1] == xs[|xs| - 1];
      xs[0] + sep + Join(sep, xs[1..])
  }

  /**
    `" ".join(s.split())`: whitespace runs collapsed to one space, ends trimmed.
    It is empty exactly when `s` is all whitespace, and otherwise neither starts
    nor ends with whitespace.
  */
  function Collapse(s: string): (r: string)
    ensures r == [] <==> AllSpace(s)
    ensures r == [] || (!IsSpace(r[0]) && !IsSpace(r[|r| - 1]))
  {
    var ws := Words(s);
    WordsEmpty(s);
    if ws != [] then
      assert ws[0] != [] && NoSpace(ws[0]);
      assert ws[|ws| - 1] != [] && NoSpace(ws[|ws| - 1]);
      Join(" ", ws)
    else Join(" ", ws)
  }

  /** Python's `k in s` on strings: `k` occurs somewhere in `s`. */
  function Contains(s: string, k: string): (r: bool)
    ensures r <==> exists i: nat :: OccursAt(s, k, i)
    decreases |s|
  {
    if |k| > |s| then false
    else if s[..|k|] == k then
      assert OccursAt(s, k, 0);
      true
    else
      var r := Contains(s[1..], k);
      OccursInTail(s, k);
      r
  }

  /** `k` occurs in `s` starting at position `i`. */
  predicate OccursAt(s: string, k: string, i: nat) {
    i + |k| <= |s| && s[i..i + |k|] == k
  }

  /** When `k` does not start `s`, it occurs in `s` exactly when it occurs in the tail. */
  lemma OccursInTail(s: string, k: string)
    requires s != [] && !OccursAt(s, k, 0)
    ensures (exists i: nat :: OccursAt(s, k, i)) <==> exists i: nat :: OccursAt(s[1..], k, i)
  {
    if i: nat :| OccursAt(s[1..], k, i) {
      OccursShift(s, k, i + 1);
    }
    if i: nat :| OccursAt(s, k, i) {
      OccursShift(s, k, i);
    }
  }

  /** An occurrence past the first character is an occurrence in the tail. */
  lemma OccursShift(s: string, k: string, i: nat)
    requires 0 < i && s != []
    ensures OccursAt(s, k, i) <==> OccursAt(s[1..], k, i - 1)
  {
    if i + |k| <= |s| {
      assert s[1..][i - 1..i - 1 + |k|] == s[i..i + |k|];
    }
  }

  /** Every slice of `s` is contained in `s`. */
  lemma ContainsSlice(s: string, lo: nat, hi: nat)
    requires lo <= hi <= |s|
    ensures Contains(s, s[lo..hi])
  {
    assert OccursAt(s, s[lo..hi], lo);
  }

  function DigitValue(c: char): nat { if IsDigit(c) then c as int - '0' as int else 0 }

  /** `int(s)` for a string of decimal digits. */
  function DigitsValue(s: string): nat {
    if s == [] then 0 else 10 * DigitsValue(s[..|s| - 1]) + DigitValue(s[|s| - 1])
  }

  function Digit(d: nat): (c: char)
    requires d < 10
    ensures IsDigit(c) && DigitValue(c) == d
  {
    ('0' as int + d) as char
  }

  /** The `%02d`-style field `strftime` writes for hours, minutes, months and days. */
  function Pad2(n: nat): (s: string)
    requires n < 100
    ensures |s| == 2 && IsDigit(s[0]) && IsDigit(s[1]) && DigitsValue(s) == n
  {
    assert DigitsValue([Digit(n / 10)]) == n / 10 by {
      assert [Digit(n / 10)][..0] == [];
    }
    var s := [Digit(n / 10), Digit(n % 10)];
    assert s[..1] == [Digit(n / 10)];
    s
  }

  /** The four-digit year field of `%Y`. */
  function Pad4(n: nat): (s: string)
    requires n < 10000
    ensures |s| == 4 && forall k :: 0 <= k < 4 ==> IsDigit(s[k])
    ensures DigitsValue(s) == n
  {
    var hi := Pad2(n / 100);
    var lo := Pad2(n % 100);
    var s := hi + lo;
    assert s[..3] == hi + [lo[0]] && s[..2] == hi;
    assert (hi + [lo[0]])[..2] == hi;
    s
  }

  /** Shortest decimal spelling of a number below 100, as a user would type an hour. */
  function Decimal(n: nat): (s: string)
    requires n < 100
    ensures 1 <= |s| <= 2 && forall k :: 0 <= k < |s| ==> IsDigit(s[k])
    ensures DigitsValue(s) == n
  {
    if n < 10 then
      assert [Digit(n)][..0] == [];
      [Digit(n)]
    else Pad2(n)
  }

  // ---------------------------------------------------------------------------
  // How `str.replace(" ", "")` interacts with `+` and `str.strip()`
  // ---------------------------------------------------------------------------

  lemma {:induction false} RemoveSpacesConcat(a: string, b: string)
    ensures RemoveSpaces(a + b) == RemoveSpaces(a) + RemoveSpaces(b)
  {
    if a != [] {
      assert (a + b)[1..] == a[1..] + b;
      RemoveSpacesConcat(a[1..], b);
    } else {
      assert a + b == b;
    }
  }

  lemma {:induction false} RemoveSpacesStripLeft(s: string)
    ensures RemoveSpaces(StripLeft(s)) == StripLeft(RemoveSpaces(s))
  {
    if s != [] && IsSpace(s[0]) {
      RemoveSpacesStripLeft(s[1..]);
      if s[0] != ' ' {
        var rest := RemoveSpaces(s[1..]);
        assert RemoveSpaces(s) == [s[0]] + rest;
        assert ([s[0]] + rest)[1..] == rest;
      } else {
        assert RemoveSpaces(s) == RemoveSpaces(s[1..]);
      }
    } else if s != [] {
      assert RemoveSpaces(s) == [s[0]] + RemoveSpaces(s[1..]);
    }
  }

  lemma {:induction false} RemoveSpacesStripRight(s: string)
    ensures RemoveSpaces(StripRight(s)) == StripRight(RemoveSpaces(s))
  {
    if s != [] {
      var init, last := s[..|s| - 1], s[|s| - 1];
      assert s == init + [last];
      RemoveSpacesConcat(init, [last]);
      assert RemoveSpaces([last]) == if last == ' ' then [] else [last];
      if IsSpace(last) {
        RemoveSpacesStripRight(init);
        if last != ' ' {
          var r := RemoveSpaces(init) + [last];
          assert r[..|r| - 1] == RemoveSpaces(init);
        } else {
          assert RemoveSpaces(s) == RemoveSpaces(init);
        }
      } else {
        var r := RemoveSpaces(s);
        assert r[|r| - 1] == last;
      }
    }
  }

  /** Removing spaces and stripping whitespace can be done in either order. */
  lemma RemoveSpacesStrip(s: string)
    ensures RemoveSpaces(Strip(s)) == Strip(RemoveSpaces(s))
  {
    RemoveSpacesStripRight(StripLeft(s));
    RemoveSpacesStripLeft(s);
  }

  // ---------------------------------------------------------------------------
  // Strings without whitespace
  // ---------------------------------------------------------------------------

  /** `s` has no whitespace character. */
  predicate NoSpace(s: string) {
    forall k :: 0 <= k < |s| ==> !IsSpace(s[k])
  }

  /** A run of ASCII lower-case letters has no whitespace and no upper-case letter. */
  lemma LettersAreWord(w: string)
    requires forall i :: 0 <= i < |w| ==> 'a' <= w[i] <= 'z'
    ensures NoSpace(w) && IsLowercase(w)
  {
  }

  /** `s` is whitespace, then `r` starting at `i`, then whitespace. */
  predicate PaddedAt(s: string, r: string, i: nat) {
    i + |r| <= |s| && s[i..i + |r|] == r && AllSpace(s[..i]) && AllSpace(s[i + |r|..])
  }

  /**
    `str.strip()` removes whitespace from both ends and nothing else: `s` is
    whitespace, then `Strip(s)` starting at `i`, then whitespace.
  */
  lemma StripShape(s: string)
    ensures PaddedAt(s, Strip(s), |s| - |StripLeft(s)|)
  {
    var l := StripLeft(s);
    assert Strip(s) == StripRight(l);
    PaddedCompose(s, l, StripRight(l), |s| - |l|);
  }

  /** Whitespace then `l`, where `l` is `r` then whitespace: whitespace, `r`, whitespace. */
  lemma PaddedCompose(s: string, l: string, r: string, i: nat)
    requires i <= |s| && l == s[i..] && AllSpace(s[..i])
    requires |r| <= |l| && r == l[..|r|] && AllSpace(l[|r|..])
    ensures PaddedAt(s, r, i)
  {
    assert s[i..i + |r|] == r;
    assert s[i + |r|..] == l[|r|..];
  }

  /** So the stripped text is a piece of `s`. */
  lemma StripContained(s: string)
    ensures Contains(s, Strip(s))
  {
    var l := StripLeft(s);
    var r := StripRight(l);
    var lo := |s| - |l|;
    assert s[lo..lo + |r|] == r;
    ContainsSlice(s, lo, lo + |r|);
  }

  /** Stripping leaves a string that neither starts nor ends with whitespace as it is. */
  lemma StripKeeps(s: string)
    requires s == [] || (!IsSpace(s[0]) && !IsSpace(s[|s| - 1]))
    ensures Strip(s) == s
  {
  }

  lemma NonSpaceRunAll(s: string)
    requires NoSpace(s)
    ensures NonSpaceRun(s) == |s|
  {
  }

  /** A single lower-case word survives lower-casing and whitespace collapsing unchanged. */
  lemma CollapseWord(w: string)
    requires w != [] && NoSpace(w) && IsLowercase(w)
    ensures Collapse(Lower(w)) == w
  {
    assert Lower(w) == w;
    assert StripLeft(w) == w by { assert !IsSpace(w[0]); }
    NonSpaceRunAll(w);
    assert w[|w|..] == [] && w[..|w|] == w;
    assert Words([]) == [];
    assert Words(w) == [w] + Words([]);
  }

  /** A prefix of a contained string is contained. */
  lemma ContainsPrefix(s: string, a: string, b: string)
    requires Contains(s, a + b)
    ensures Contains(s, a)
  {
    var i: nat :| OccursAt(s, a + b, i);
    assert s[i..i + |a|] == (a + b)[..|a|] == a;
    assert OccursAt(s, a, i);
  }

  // ---------------------------------------------------------------------------
  // What lower-casing, space removal, splitting and joining leave
  // ---------------------------------------------------------------------------

  /** `str.lower()` changes only upper-case letters, each into the same letter, and is idempotent. */
  lemma LowerMeaning(s: string)
    ensures forall i :: 0 <= i < |s| ==> UpperChar(Lower(s)[i]) == UpperChar(s[i])
    ensures forall i :: 0 <= i < |s| && !IsUpper(s[i]) ==> Lower(s)[i] == s[i]
    ensures Lower(Lower(s)) == Lower(s)
  {
  }

  /** A string with no upper-case letter is its own lower case. */
  lemma LowerKeepsLowercase(s: string)
    requires IsLowercase(s)
    ensures Lower(s) == s
  {
  }

  /** `str.lower()` works character by character, so it distributes over concatenation and keeps whitespace. */
  lemma LowerConcat(a: string, b: string)
    ensures Lower(a + b) == Lower(a) + Lower(b)
    ensures AllSpace(a) ==> Lower(a) == a
  {
    assert forall i :: 0 <= i < |a| ==> (a + b)[i] == a[i];
    assert forall i :: |a| <= i < |a| + |b| ==> (a + b)[i] == b[i - |a|];
  }

  /** Lower-casing two words with whitespace around and between them lower-cases the words alone. */
  lemma LowerPadded(g0: string, x: string, g1: string, y: string, g2: string)
    requires AllSpace(g0) && AllSpace(g1) && AllSpace(g2)
    ensures Lower(g0 + x + g1 + y + g2) == g0 + Lower(x) + g1 + Lower(y) + g2
  {
    LowerConcat(g0 + x + g1 + y, g2);
    LowerConcat(g0 + x + g1, y);
    LowerConcat(g0 + x, g1);
    LowerConcat(g0, x);
    LowerConcat(g1, []);
    LowerConcat(g2, []);
    LowerConcat(g0, []);
  }

  /** Leading whitespace is what `lstrip` removes: before text that is not all whitespace, only that text's own. */
  lemma {:induction false} StripLeftConcat(a: string, b: string)
    ensures AllSpace(a) ==> StripLeft(a + b) == StripLeft(b)
    ensures !AllSpace(a) ==> StripLeft(a + b) == StripLeft(a) + b
  {
    if a != [] {
      assert (a + b)[1..] == a[1..] + b;
      StripLeftConcat(a[1..], b);
      assert AllSpace(a) ==> AllSpace(a[1..]);
      if !IsSpace(a[0]) {
        assert StripLeft(a) == a;
      }
    } else {
      assert a + b == b;
    }
  }

  /** The non-whitespace run of `a + b` is that of `a` when `b` starts with whitespace. */
  lemma {:induction false} NonSpaceRunConcat(a: string, b: string)
    requires b != [] && IsSpace(b[0])
    ensures NonSpaceRun(a + b) == NonSpaceRun(a)
  {
    if a != [] {
      assert (a + b)[1..] == a[1..] + b;
      NonSpaceRunConcat(a[1..], b);
    } else {
      assert a + b == b;
    }
  }

  /** `s.split()` is empty exactly when `s` is all whitespace. */
  lemma WordsEmpty(s: string)
    ensures Words(s) == [] <==> AllSpace(s)
  {
    var r := StripLeft(s);
    if r == [] {
      assert s[..|s|] == s;
    } else {
      assert r[0] == s[|s| - |r|] && !IsSpace(r[0]);
      assert Words(s) == [r[..NonSpaceRun(r)]] + Words(r[NonSpaceRun(r)..]);
    }
  }

  /** A non-empty string without whitespace splits into itself alone. */
  lemma WordsOfWord(w: string)
    requires w != [] && NoSpace(w)
    ensures Words(w) == [w]
  {
    assert StripLeft(w) == w by { assert !IsSpace(w[0]); }
    NonSpaceRunAll(w);
    assert w[|w|..] == [] && w[..|w|] == w;
    assert Words([]) == [];
  }

  /** Cutting `l + (g + b)` inside `l`. */
  lemma CutInFirst(l: string, g: string, b: string, n: nat)
    requires n <= |l|
    ensures (l + (g + b))[..n] == l[..n]
    ensures (l + (g + b))[n..] == l[n..] + g + b
  {
  }

  /** Concatenation of lists re-associates. */
  lemma ConsAppend<T>(w: T, xs: seq<T>, ys: seq<T>)
    ensures [w] + (xs + ys) == ([w] + xs) + ys
  {
  }

  /**
    `split()` on two texts joined by whitespace gives the words of the first,
    then the words of the second: a whitespace run only ever separates words.
  */
  lemma {:induction false} WordsSplit(a: string, g: string, b: string)
    requires g != [] && AllSpace(g)
    ensures Words(a + g + b) == Words(a) + Words(b)
    decreases |a|
  {
    if AllSpace(a) {
      WordsEmpty(a);
      assert AllSpace(a + g);
      WordsAfterSpaces(a + g, b);
    } else {
      var l := StripLeft(a);
      var n := NonSpaceRun(l);
      WordsFirstWord(a, g, b);
      WordsSplit(l[n..], g, b);
      ConsAppend(l[..n], Words(l[n..]), Words(b));
    }
  }

  /** Before whitespace, the first word of a text that is not all whitespace is split off as it is alone. */
  lemma WordsFirstWord(a: string, g: string, b: string)
    requires g != [] && AllSpace(g) && !AllSpace(a)
    ensures var l := StripLeft(a); var n := NonSpaceRun(l);
      0 < n <= |l| && Words(a) == [l[..n]] + Words(l[n..]) && Words(a + g + b) == [l[..n]] + Words(l[n..] + g + b)
  {
    var s := a + g + b;
    assert s == a + (g + b);
    StripLeftConcat(a, g + b);
    var l := StripLeft(a);
    NonSpaceRunConcat(l, g + b);
    var n := NonSpaceRun(l);
    assert l != [] && n >= 1 by { assert !IsSpace(l[0]); }
    CutInFirst(l, g, b, n);
  }

  /** Joining two non-empty lists puts one separator between their joins. */
  lemma {:induction false} JoinAppend(sep: string, xs: seq<string>, ys: seq<string>)
    requires xs != [] && ys != []
    ensures Join(sep, xs + ys) == Join(sep, xs) + sep + Join(sep, ys)
  {
    var zs := xs + ys;
    assert zs[0] == xs[0] && |zs| > 1;
    if |xs| == 1 {
      assert zs[1..] == ys;
    } else {
      assert zs[1..] == xs[1..] + ys;
      JoinAppend(sep, xs[1..], ys);
    }
  }

  /**
    `" ".join(s.split())` on two texts with some whitespace between them, neither
    all whitespace: the two collapsed texts with one space between.
  */
  lemma CollapseSplit(a: string, g: string, b: string)
    requires g != [] && AllSpace(g) && !AllSpace(a) && !AllSpace(b)
    ensures Collapse(a + g + b) == Collapse(a) + " " + Collapse(b)
  {
    WordsSplit(a, g, b);
    WordsEmpty(a);
    WordsEmpty(b);
    JoinAppend(" ", Words(a), Words(b));
  }

  /** Leading whitespace does not change `split()`. */
  lemma WordsAfterSpaces(g: string, b: string)
    requires AllSpace(g)
    ensures Words(g + b) == Words(b)
  {
    StripLeftConcat(g, b);
  }

  /** A word followed by whitespace splits into the word alone. */
  lemma WordThenSpaces(y: string, g: string)
    requires y != [] && NoSpace(y) && AllSpace(g)
    ensures Words(y + g) == [y]
  {
    WordsOfWord(y);
    if g == [] {
      assert y + g == y;
    } else {
      WordsSplit(y, g, []);
      assert y + g + [] == y + g;
      WordsEmpty([]);
    }
  }

  /** A word, whitespace, a word and whitespace split into the two words. */
  lemma WordsWordSpacesWord(x: string, g1: string, y: string, g2: string)
    requires AllSpace(g1) && g1 != [] && AllSpace(g2)
    requires x != [] && NoSpace(x) && y != [] && NoSpace(y)
    ensures Words(x + g1 + (y + g2)) == [x, y]
  {
    WordThenSpaces(y, g2);
    WordsOfWord(x);
    WordsSplit(x, g1, y + g2);
    assert [x] + [y] == [x, y];
  }

  /**
    Two words in any letter case, with whitespace around and between them: lower-cased
    and collapsed, they are the two lower-case words with one space between.
  */
  lemma CollapseLowerPadded(g0: string, u: string, g1: string, v: string, g2: string)
    requires AllSpace(g0) && AllSpace(g1) && g1 != [] && AllSpace(g2)
    requires Lower(u) != [] && NoSpace(Lower(u)) && Lower(v) != [] && NoSpace(Lower(v))
    ensures Collapse(Lower(g0 + u + g1 + v + g2)) == Lower(u) + " " + Lower(v)
  {
    LowerPadded(g0, u, g1, v, g2);
    CollapseTwoWords(g0, Lower(u), g1, Lower(v), g2);
  }

  /** Five strings joined in order, regrouped. */
  lemma Regroup(a: string, b: string, c: string, d: string, e: string)
    ensures a + b + c + d + e == a + (b + c + (d + e))
  {
  }

  /** Two words with whitespace around and between them split into the two words. */
  lemma WordsTwoWords(g0: string, x: string, g1: string, y: string, g2: string)
    requires AllSpace(g0) && AllSpace(g1) && g1 != [] && AllSpace(g2)
    requires x != [] && NoSpace(x) && y != [] && NoSpace(y)
    ensures Words(g0 + x + g1 + y + g2) == [x, y]
  {
    var rest := x + g1 + (y + g2);
    Regroup(g0, x, g1, y, g2);
    WordsAfterSpaces(g0, rest);
    WordsWordSpacesWord(x, g1, y, g2);
  }

  /** ... and so collapse to the two words and one space. */
  lemma CollapseTwoWords(g0: string, x: string, g1: string, y: string, g2: string)
    requires AllSpace(g0) && AllSpace(g1) && g1 != [] && AllSpace(g2)
    requires x != [] && NoSpace(x) && y != [] && NoSpace(y)
    ensures Collapse(g0 + x + g1 + y + g2) == x + " " + y
  {
    WordsTwoWords(g0, x, g1, y, g2);
    assert Join(" ", [x, y]) == x + " " + Join(" ", [y]);
  }

  /** `str.replace(" ", "")` keeps every character other than the plain space as often as it occurs. */
  lemma {:induction false} RemoveSpacesKeepsOthers(s: string)
    ensures multiset(RemoveSpaces(s)) == multiset(s)[' ' := 0]
  {
    if s != [] {
      RemoveSpacesKeepsOthers(s[1..]);
      assert s == [s[0]] + s[1..];
    }
  }
}
