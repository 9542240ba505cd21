/** Character classes and the few operations of Python's `str` that the
    parsers rely on: `strip()`, `lower()`, `in`, `replace`, and a
    first-index search that stands for the leftmost match of `re.search`.

    Whitespace is ASCII whitespace throughout: it is what `\s` matches and
    what `strip()` removes in this model. */
module Text {

  datatype Option<+T> = None | Some(value: T)

  predicate IsSpace(c: char) {
    c == ' ' || c == '\t' || c == '\n' || c == '\r' || c == '\U{B}' || c == '\U{C}'
  }

  predicate IsDigit(c: char) {
    '0' <= c <= '9'
  }

  predicate AllDigits(s: string) {
    forall i | 0 <= i < |s| :: IsDigit(s[i])
  }

  function DigitValue(c: char): (n: nat)
    requires IsDigit(c)
    ensures n <= 9
  {
    c as int - '0' as int
  }

  function Pow10(k: nat): (r: nat)
    ensures r >= 1
  {
    if k == 0 then 1 else 10 * Pow10(k - 1)
  }

  /** The number a string of decimal digits denotes (Python's `int(s)`). */
  function DigitsValue(s: string): (n: nat)
    requires AllDigits(s)
    decreases |s|
  {
    if s == [] then 0 else DigitsValue(s[..|s| - 1]) * 10 + DigitValue(s[|s| - 1])
  }

  lemma {:induction false} DigitsValueBound(s: string)
    requires AllDigits(s)
    ensures DigitsValue(s) < Pow10(|s|)
    decreases |s|
  {
    if s != [] {
      DigitsValueBound(s[..|s| - 1]);
    }
  }

  lemma {:induction false} DigitsValueAppend(a: string, b: string)
    requires AllDigits(a) && AllDigits(b)
    ensures AllDigits(a + b)
    ensures DigitsValue(a + b) == DigitsValue(a) * Pow10(|b|) + DigitsValue(b)
    decreases |b|
  {
    if b == [] {
      assert a + b == a;
    } else {
      var b' := b[..|b| - 1];
      var d := DigitValue(b[|b| - 1]);
      assert (a + b)[..|a + b| - 1] == a + b';
      assert (a + b)[|a + b| - 1] == b[|b| - 1];
      DigitsValueAppend(a, b');
      assert DigitsValue(a + b) == DigitsValue(a + b') * 10 + d;
      assert DigitsValue(b) == DigitsValue(b') * 10 + d;
      assert Pow10(|b|) == Pow10(|b'|) * 10;
      ShiftDigit(DigitsValue(a), Pow10(|b'|), DigitsValue(b'), d);
    }
  }

  /** Appending a digit to the low part of x * p + y; kept apart because the
      solver does not find this regrouping among the facts of the caller. */
  lemma ShiftDigit(x: int, p: int, y: int, d: int)
    ensures (x * p + y) * 10 + d == x * (p * 10) + (y * 10 + d)
  {
  }

  /** Zero-padded decimal spelling of n in w digits. */
  function Pad(n: nat, w: nat): (r: string)
    ensures |r| == w && AllDigits(r)
  {
    if w == 0 then "" else Pad(n / 10, w - 1) + [('0' as int + n % 10) as char]
  }

  lemma {:induction false} PadValue(n: nat, w: nat)
    requires n < Pow10(w)
    ensures DigitsValue(Pad(n, w)) == n
  {
    if w > 0 {
      var r := Pad(n, w);
      assert r[..|r| - 1] == Pad(n / 10, w - 1);
      PadValue(n / 10, w - 1);
    }
  }

  /** The leftmost index in [i, n) that satisfies p: the position at which
      a left-to-right scan such as `re.search` stops first. */
  function FirstFrom(i: nat, n: nat, p: nat -> bool): (r: Option<nat>)
    requires i <= n
    decreases n - i
    ensures r.Some? ==> i <= r.value < n && p(r.value)
    ensures r.Some? ==> forall j | i <= j < r.value :: !p(j)
    ensures r.None? ==> forall j | i <= j < n :: !p(j)
  {
    if i == n then None else if p(i) then Some(i) else FirstFrom(i + 1, n, p)
  }

  // ---------------------------------------------------------------------
  // str.strip()

  function LeadingSpaces(s: string): (n: nat)
    ensures n <= |s|
    ensures forall i | 0 <= i < n :: IsSpace(s[i])
    ensures n < |s| ==> !IsSpace(s[n])
  {
    if s == [] || !IsSpace(s[0]) then 0 else 1 + LeadingSpaces(s[1..])
  }

  function TrailingSpaces(s: string): (n: nat)
    ensures n <= |s|
    ensures forall i | |s| - n <= i < |s| :: IsSpace(s[i])
    ensures n < |s| ==> !IsSpace(s[|s| - n - 1])
  {
    if s == [] || !IsSpace(s[|s| - 1]) then 0 else 1 + TrailingSpaces(s[..|s| - 1])
  }

  /** r sits in s at index i, with only whitespace around it. */
  predicate InfixAt(s: string, r: string, i: nat) {
    && i + |r| <= |s|
    && r == s[i..i + |r|]
    && (forall j | 0 <= j < i :: IsSpace(s[j]))
    && (forall j | i + |r| <= j < |s| :: IsSpace(s[j]))
  }

  /** Python's `s.strip()`: the infix left after removing whitespace from
      both ends. */
  function Strip(s: string): (r: string)
    ensures |r| <= |s|
    ensures r == [] || (!IsSpace(r[0]) && !IsSpace(r[|r| - 1]))
    ensures exists i | 0 <= i <= |s| :: InfixAt(s, r, i)
  {
    var lead := LeadingSpaces(s);
    var rest := s[lead..];
    var trail := TrailingSpaces(rest);
    var r := rest[..|rest| - trail];
    assert r == s[lead..lead + |r|];
    assert InfixAt(s, r, lead);
    assert r != [] ==> r[|r| - 1] == rest[|rest| - trail - 1];
    r
  }

  /** A text that neither starts nor ends with whitespace is its own
      strip. */
  lemma StripTrimmed(s: string)
    requires s != [] && !IsSpace(s[0]) && !IsSpace(s[|s| - 1])
    ensures Strip(s) == s
  {
    var r := Strip(s);
    var i :| 0 <= i <= |s| && InfixAt(s, r, i);
    assert i == 0;
    assert i + |r| == |s|;
    assert r == s[..|s|];
  }

  // ---------------------------------------------------------------------
  // str.lower()

  /** Lower-casing of ASCII letters and of the Cyrillic capitals
      U+0400..U+042F (Ѐ..Џ go up by 0x50, А..Я by 0x20). */
  function LowerChar(c: char): char {
    if 'A' <= c <= 'Z' then (c as int + 32) as char
    else if '\U{400}' <= c <= '\U{40F}' then (c as int + 0x50) as char
    else if '\U{410}' <= c <= '\U{42F}' then (c as int + 0x20) as char
    else c
  }

  function Lower(s: string): (r: string)
    ensures |r| == |s|
    ensures forall i | 0 <= i < |s| :: r[i] == LowerChar(s[i])
  {
    if s == [] then [] else [LowerChar(s[0])] + Lower(s[1..])
  }

  /** A text whose letters are all small already is its own lower case. */
  lemma LowerSmall(s: string)
    requires forall i | 0 <= i < |s| :: LowerChar(s[i]) == s[i]
    ensures Lower(s) == s
  {
  }

  // ---------------------------------------------------------------------
  // `pat in s`, s.replace(a, b)

  predicate OccursAt(s: string, pat: string, i: nat) {
    i + |pat| <= |s| && s[i..i + |pat|] == pat
  }

  /** Python's `pat in s`. */
  predicate Contains(s: string, pat: string) {
    exists i | 0 <= i <= |s| :: OccursAt(s, pat, i)
  }

  /** Python's `s.replace(pat, '')`: occurrences are found left to right,
      without overlap, and each one found is deleted. */
  function DeleteAll(s: string, pat: string): (r: string)
    requires pat != []
    decreases |s|
    ensures |r| <= |s|
    ensures r == s <==> !Contains(s, pat)
  {
    if |s| < |pat| then
      assert !Contains(s, pat);
      s
    else if s[..|pat|] == pat then
      assert OccursAt(s, pat, 0);
      DeleteAll(s[|pat|..], pat)
    else
      var r := [s[0]] + DeleteAll(s[1..], pat);
      assert Contains(s, pat) <==> Contains(s[1..], pat) by {
        if Contains(s, pat) {
          var i :| 0 <= i <= |s| && OccursAt(s, pat, i);
          assert i > 0;
          assert OccursAt(s[1..], pat, i - 1);
        }
        if Contains(s[1..], pat) {
          var i :| 0 <= i <= |s[1..]| && OccursAt(s[1..], pat, i);
          assert OccursAt(s, pat, i + 1);
        }
      }
      r
  }

  /** Every occurrence is deleted, not only one: where pat first occurs in
      a + pat + b right after a, that occurrence goes and the scan carries
      on in b. With the ensures of DeleteAll (no occurrence, no change)
      this fixes the result on every input. */
  lemma {:induction false} DeleteAllFirst(a: string, pat: string, b: string)
    requires pat != [] && !Contains(a + pat[..|pat| - 1], pat)
    ensures DeleteAll(a + pat + b, pat) == a + DeleteAll(b, pat)
    decreases |a|
  {
    var s := a + pat + b;
    if a == [] {
      assert s == pat + b;
      assert s[..|pat|] == pat && s[|pat|..] == b;
    } else {
      NoEarlierOccurrence(a, pat, b);
      var t := DeleteAll(b, pat);
      calc {
        DeleteAll(s, pat);
        { DeleteAllKeep(s, pat); }
        [s[0]] + DeleteAll(s[1..], pat);
        { assert s[1..] == a[1..] + pat + b; DeleteAllFirst(a[1..], pat, b); }
        [a[0]] + (a[1..] + t);
        { assert a == [a[0]] + a[1..]; }
        a + t;
      }
    }
  }

  /** A text that contains pat splits at its first occurrence into the
      shape DeleteAllFirst takes, so that lemma applies to every text that
      contains pat. */
  lemma FirstOccurrence(s: string, pat: string) returns (i: nat)
    requires pat != [] && Contains(s, pat)
    ensures i + |pat| <= |s| && s == s[..i] + pat + s[i + |pat|..]
    ensures !Contains(s[..i] + pat[..|pat| - 1], pat)
  {
    var at := (k: nat) => OccursAt(s, pat, k);
    assert forall k: nat :: at(k) == OccursAt(s, pat, k);
    var w :| 0 <= w <= |s| && OccursAt(s, pat, w);
    var first := FirstFrom(0, |s| + 1, at);
    assert first.Some? by {
      assert at(w);
    }
    i := first.value;
    assert OccursAt(s, pat, i);
    assert s == s[..i] + pat + s[i + |pat|..] by {
      assert s == s[..i] + s[i..i + |pat|] + s[i + |pat|..];
    }
    assert forall j | 0 <= j < i :: !OccursAt(s, pat, j);
    NoEarlierIn(s, pat, i);
  }

  lemma NoEarlierIn(s: string, pat: string, i: nat)
    requires pat != [] && OccursAt(s, pat, i)
    requires forall j | 0 <= j < i :: !OccursAt(s, pat, j)
    ensures !Contains(s[..i] + pat[..|pat| - 1], pat)
  {
    var c := s[..i] + pat[..|pat| - 1];
    assert c == s[..i + |pat| - 1] by {
      assert pat == s[i..i + |pat|];
    }
    forall j | 0 <= j <= |c| && OccursAt(c, pat, j)
      ensures OccursAt(s, pat, j) && j < i
    {
      assert s[j..j + |pat|] == c[j..j + |pat|];
    }
  }

  /** When pat does not start s, the first character is kept. */
  lemma DeleteAllKeep(s: string, pat: string)
    requires pat != [] && |s| >= |pat| && s[..|pat|] != pat
    ensures DeleteAll(s, pat) == [s[0]] + DeleteAll(s[1..], pat)
  {
  }

  /** No occurrence within a + pat[..|pat| - 1] means none starts at 0 in
      a + pat + b, and none in the text once its first character goes. */
  lemma NoEarlierOccurrence(a: string, pat: string, b: string)
    requires pat != [] && a != [] && !Contains(a + pat[..|pat| - 1], pat)
    ensures (a + pat + b)[..|pat|] != pat
    ensures !Contains(a[1..] + pat[..|pat| - 1], pat)
  {
    var s := a + pat + b;
    var c := a + pat[..|pat| - 1];
    assert s[..|pat|] == c[..|pat|];
    if s[..|pat|] == pat {
      assert OccursAt(c, pat, 0);
    }
    var c' := a[1..] + pat[..|pat| - 1];
    assert c' == c[1..];
    forall i | 0 <= i <= |c'| && OccursAt(c', pat, i)
      ensures OccursAt(c, pat, i + 1)
    {
      assert c[i + 1..i + 1 + |pat|] == c'[i..i + |pat|];
    }
  }

  /** A text without one of pat's characters does not contain pat. */
  lemma MissingChar(x: string, pat: string, k: nat)
    requires k < |pat| && pat[k] !in x
    ensures !Contains(x, pat)
  {
  }

  /** Both copies of a repeated year go. */
  lemma DeleteEveryYear()
    ensures DeleteAll("2025 2025", "2025") == " "
  {
    var pat := "2025";
    assert pat[3] == '5' && pat[..3] == "202";
    MissingChar(" 202", pat, 3);
    MissingChar("202", pat, 3);
    DeleteAllFirst(" ", pat, "");
    DeleteAllFirst("", pat, " " + pat);
    RepeatedYear();
    assert DeleteAll("", pat) == "";
  }

  lemma RepeatedYear()
    ensures "" + "2025" + (" " + "2025") == "2025 2025"
    ensures " " + "2025" + "" == " 2025"
  {
  }

  /** Python's `s.replace(a, b)` for single characters. */
  function ReplaceChar(s: string, a: char, b: char): (r: string)
    ensures |r| == |s|
    ensures forall i | 0 <= i < |s| :: r[i] == (if s[i] == a then b else s[i])
  {
    if s == [] then [] else [if s[0] == a then b else s[0]] + ReplaceChar(s[1..], a, b)
  }

  /** Replacing a character that does not occur changes nothing. */
  lemma ReplaceAbsent(s: string, a: char, b: char)
    requires a !in s
    ensures ReplaceChar(s, a, b) == s
  {
  }

  /** Python's `sep.join(pieces)`. */
  function Join(pieces: seq<string>, sep: string): string {
    if pieces == [] then ""
    else if |pieces| == 1 then pieces[0]
    else Join(pieces[..|pieces| - 1], sep) + sep + pieces[|pieces| - 1]
  }

  /** A pattern that does not contain the separator occurs in a joined
      string exactly when it occurs in one of the pieces. */
  lemma {:induction false} JoinContains(pieces: seq<string>, sep: char, pat: string)
    requires pat != [] && sep !in pat
    ensures Contains(Join(pieces, [sep]), pat) <==>
      exists k | 0 <= k < |pieces| :: Contains(pieces[k], pat)
    decreases |pieces|
  {
    if |pieces| > 1 {
      var init := pieces[..|pieces| - 1];
      var last := pieces[|pieces| - 1];
      var a := Join(init, [sep]);
      JoinContains(init, sep, pat);
      assert Join(pieces, [sep]) == a + [sep] + last;
      ConcatContains(a, sep, last, pat);
      if exists k | 0 <= k < |init| :: Contains(init[k], pat) {
        var k :| 0 <= k < |init| && Contains(init[k], pat);
        assert pieces[k] == init[k];
      }
      if exists k | 0 <= k < |pieces| :: Contains(pieces[k], pat) {
        var k :| 0 <= k < |pieces| && Contains(pieces[k], pat);
        if k < |init| {
          assert init[k] == pieces[k];
        }
      }
    }
  }

  lemma ConcatContains(a: string, sep: char, b: string, pat: string)
    requires pat != [] && sep !in pat
    ensures Contains(a + [sep] + b, pat) <==> Contains(a, pat) || Contains(b, pat)
  {
    var s := a + [sep] + b;
    if Contains(s, pat) {
      var i :| 0 <= i <= |s| && OccursAt(s, pat, i);
      assert s[|a|] == sep;
      assert forall k | i <= k < i + |pat| :: s[k] == pat[k - i];
      if i + |pat| <= |a| {
        assert s[i..i + |pat|] == a[i..i + |pat|];
        assert OccursAt(a, pat, i);
      } else if i > |a| {
        assert s[i..i + |pat|] == b[i - |a| - 1..i - |a| - 1 + |pat|];
        assert OccursAt(b, pat, i - |a| - 1);
      }
    }
    if Contains(a, pat) {
      var i :| 0 <= i <= |a| && OccursAt(a, pat, i);
      assert s[i..i + |pat|] == a[i..i + |pat|];
      assert OccursAt(s, pat, i);
    }
    if Contains(b, pat) {
      var i :| 0 <= i <= |b| && OccursAt(b, pat, i);
      assert s[|a| + 1..] == b;
      assert s[|a| + 1 + i..|a| + 1 + i + |pat|] == s[|a| + 1..][i..i + |pat|];
      assert OccursAt(s, pat, |a| + 1 + i);
    }
  }
}
