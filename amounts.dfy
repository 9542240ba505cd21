/** The dividend cell of a row: the "no dividend" sentinel, the number
    pattern `\d{1,3}(?:\s\d{3})*(?:,\d+)?` searched first with the
    currency suffix `\s*руб\.` and then without it, and the conversion of
    the matched text to a decimal (dividend_parser.py, lines 178-192 and
    205-219). */
module Amounts {
  import opened Text

  const Sentinel := "РЕШЕНИЕ ДИВИДЕНДЫ НЕ ВЫПЛАЧИВАТЬ"
  const Currency := "руб."

  /** The decimal mantissa / 10^scale. */
  datatype Decimal = Decimal(mantissa: nat, scale: nat)

  /** What a dividend cell yields: nothing to match (the row is skipped),
      a matched text that `float()` rejects (the call raises), or an
      amount. */
  datatype Amount = NoAmount | Unconvertible | Amount(value: Decimal)

  // ---------------------------------------------------------------------
  // The number pattern, on index ranges of the cell

  predicate DigitsBetween(s: string, i: nat, j: nat) {
    i <= j <= |s| && forall k | i <= k < j :: IsDigit(s[k])
  }

  /** s[i..j] is matched by `(?:\s\d{3})*`. */
  predicate GroupsBetween(s: string, i: nat, j: nat)
    decreases j - i
  {
    i <= j <= |s|
    && (i == j || (i + 4 <= j && IsSpace(s[i]) && DigitsBetween(s, i + 1, i + 4) && GroupsBetween(s, i + 4, j)))
  }

  /** s[i..j] is matched by `\d{1,3}(?:\s\d{3})*`. */
  predicate IntPartBetween(s: string, i: nat, j: nat) {
    exists d | i < d <= i + 3 :: DigitsBetween(s, i, d) && GroupsBetween(s, d, j)
  }

  /** s[i..j] is matched by `\d{1,3}(?:\s\d{3})*(?:,\d+)?`. */
  predicate NumberBetween(s: string, i: nat, j: nat) {
    || IntPartBetween(s, i, j)
    || exists k | i < k && k + 1 < j <= |s| :: s[k] == ',' && IntPartBetween(s, i, k) && DigitsBetween(s, k + 1, j)
  }

  /** `\s*руб\.` matches at q. */
  predicate CurrencyAt(s: string, q: nat) {
    exists k | q <= k <= |s| :: (forall m | q <= m < k :: IsSpace(s[m])) && OccursAt(s, Currency, k)
  }

  lemma {:induction false} GroupsChars(s: string, i: nat, j: nat)
    requires GroupsBetween(s, i, j)
    ensures forall m | i <= m < j :: IsDigit(s[m]) || IsSpace(s[m])
    ensures i < j ==> IsDigit(s[j - 1])
    decreases j - i
  {
    if i < j {
      GroupsChars(s, i + 4, j);
    }
  }

  /** An integer part holds only digits and whitespace, and begins and
      ends with a digit. */
  lemma IntPartChars(s: string, i: nat, j: nat)
    requires IntPartBetween(s, i, j)
    ensures i < j <= |s|
    ensures forall m | i <= m < j :: IsDigit(s[m]) || IsSpace(s[m])
    ensures IsDigit(s[i]) && IsDigit(s[j - 1])
  {
    var d :| i < d <= i + 3 && DigitsBetween(s, i, d) && GroupsBetween(s, d, j);
    GroupsChars(s, d, j);
  }

  /** A matched number holds only digits, whitespace and commas, and begins
      and ends with a digit. */
  lemma NumberChars(s: string, i: nat, j: nat)
    requires NumberBetween(s, i, j)
    ensures i < j <= |s|
    ensures forall m | i <= m < j :: IsDigit(s[m]) || IsSpace(s[m]) || s[m] == ','
    ensures IsDigit(s[i]) && IsDigit(s[j - 1])
  {
    if IntPartBetween(s, i, j) {
      IntPartChars(s, i, j);
    } else {
      var k :| i < k && k + 1 < j <= |s| && s[k] == ',' && IntPartBetween(s, i, k) && DigitsBetween(s, k + 1, j);
      IntPartChars(s, i, k);
    }
  }

  // ---------------------------------------------------------------------
  // With the currency suffix

  /** The number s[p..q] is followed by the currency. */
  predicate SuffixedAt(s: string, p: nat, q: nat) {
    p < q <= |s| && NumberBetween(s, p, q) && CurrencyAt(s, q)
  }

  predicate SuffixedFrom(s: string, p: nat) {
    exists q | p < q <= |s| :: SuffixedAt(s, p, q)
  }

  /** A number that is followed by the currency cannot be extended: the
      currency's first letter is not a character of a number, and the
      whitespace before it cannot end one. */
  lemma SuffixedIsLongest(s: string, p: nat, q: nat, q': nat)
    requires SuffixedAt(s, p, q) && NumberBetween(s, p, q')
    ensures q' <= q
  {
    NumberChars(s, p, q');
    var k :| q <= k <= |s| && (forall m | q <= m < k :: IsSpace(s[m])) && OccursAt(s, Currency, k);
    assert s[k] == Currency[0];
  }

  /** From a given start, the suffixed pattern can end in one place only,
      so the group `re.search` reports is determined by where it starts. */
  lemma SuffixedEndUnique(s: string, p: nat, q1: nat, q2: nat)
    requires SuffixedAt(s, p, q1) && SuffixedAt(s, p, q2)
    ensures q1 == q2
  {
    SuffixedIsLongest(s, p, q1, q2);
    SuffixedIsLongest(s, p, q2, q1);
  }

  /** The span of the group of `(\d{1,3}(?:\s\d{3})*(?:,\d+)?)\s*руб\.`:
      the leftmost start from which a number followed by the currency
      matches, and the one end that number can have. */
  function SuffixedSpan(s: string): (r: Option<(nat, nat)>)
    ensures r.Some? ==> SuffixedAt(s, r.value.0, r.value.1)
    ensures r.Some? ==> forall p | 0 <= p < r.value.0 :: !SuffixedFrom(s, p)
    ensures r.Some? ==> forall q | SuffixedAt(s, r.value.0, q) :: q == r.value.1
    ensures r.None? <==> forall p | 0 <= p <= |s| :: !SuffixedFrom(s, p)
  {
    var from := (p: nat) => SuffixedFrom(s, p);
    assert forall p: nat :: from(p) == SuffixedFrom(s, p);
    match FirstFrom(0, |s| + 1, from)
    case None => None
    case Some(p) =>
      var ends := (q: nat) => SuffixedAt(s, p, q);
      assert forall q: nat :: ends(q) == SuffixedAt(s, p, q);
      match FirstFrom(p + 1, |s| + 1, ends)
      case Some(q) =>
        forall q' | SuffixedAt(s, p, q') ensures q' == q {
          SuffixedEndUnique(s, p, q, q');
        }
        Some((p, q))
      case None =>
        assert false;
        None
  }

  // ---------------------------------------------------------------------
  // Without the suffix: greedy from the first digit

  /** End of the run of digits that starts at i. */
  function RunEnd(s: string, i: nat): (e: nat)
    requires i <= |s|
    decreases |s| - i
    ensures i <= e <= |s| && DigitsBetween(s, i, e)
    ensures e < |s| ==> !IsDigit(s[e])
  {
    if i < |s| && IsDigit(s[i]) then RunEnd(s, i + 1) else i
  }

  lemma RunIsLongest(s: string, i: nat, j: nat)
    requires DigitsBetween(s, i, j)
    ensures j <= RunEnd(s, i)
  {
    var e := RunEnd(s, i);
    if e < j {
      assert false;
    }
  }

  /** End of the groups `(?:\s\d{3})*` taken greedily from i. */
  function GroupsEnd(s: string, i: nat): (e: nat)
    requires i <= |s|
    decreases |s| - i
    ensures i <= e <= |s| && GroupsBetween(s, i, e)
    ensures e > i ==> IsSpace(s[i])
  {
    if i + 4 <= |s| && IsSpace(s[i]) && DigitsBetween(s, i + 1, i + 4) then GroupsEnd(s, i + 4) else i
  }

  /** Any run of groups from i ends at or before the greedy end, and where
      it ends earlier the next group's whitespace follows. */
  lemma {:induction false} GroupsAreGreedy(s: string, i: nat, j: nat)
    requires GroupsBetween(s, i, j)
    ensures j <= GroupsEnd(s, i)
    ensures j < GroupsEnd(s, i) ==> IsSpace(s[j])
    decreases j - i
  {
    if i < j {
      GroupsAreGreedy(s, i + 4, j);
    }
  }

  function Min(a: int, b: int): int {
    if a < b then a else b
  }

  /** End of `\d{1,3}(?:\s\d{3})*` taken greedily from the digit at p. */
  function IntEnd(s: string, p: nat): (e: nat)
    requires p < |s| && IsDigit(s[p])
    ensures p < e <= |s| && IntPartBetween(s, p, e)
  {
    var h := Min(RunEnd(s, p) - p, 3);
    var e := GroupsEnd(s, p + h);
    assert 1 <= h && DigitsBetween(s, p, p + h) && GroupsBetween(s, p + h, e);
    e
  }

  lemma IntPartIsGreedy(s: string, p: nat, j: nat)
    requires p < |s| && IsDigit(s[p]) && IntPartBetween(s, p, j)
    ensures j <= IntEnd(s, p)
    ensures j < IntEnd(s, p) ==> s[j] != ','
  {
    var r := RunEnd(s, p);
    var d0 := p + Min(r - p, 3);
    var d :| p < d <= p + 3 && DigitsBetween(s, p, d) && GroupsBetween(s, d, j);
    if d > d0 {
      assert false;
    } else if d < d0 {
      assert IsDigit(s[d]);
      assert j == d;
      GroupsAreGreedy(s, d0, d0);
    } else {
      GroupsAreGreedy(s, d0, j);
    }
  }

  /** End of the whole number pattern taken greedily from the digit at p:
      the greedy integer part, then `,\d+` when a comma and a digit
      follow it. */
  function GreedyEnd(s: string, p: nat): (e: nat)
    requires p < |s| && IsDigit(s[p])
    ensures NumberBetween(s, p, e)
  {
    var ie := IntEnd(s, p);
    if ie + 1 < |s| && s[ie] == ',' && IsDigit(s[ie + 1]) then
      var e := RunEnd(s, ie + 1);
      assert DigitsBetween(s, ie + 1, e);
      e
    else
      ie
  }

  /** The greedy match is the longest number that starts at p. */
  lemma GreedyIsLongest(s: string, p: nat, e: nat)
    requires p < |s| && IsDigit(s[p]) && NumberBetween(s, p, e)
    ensures e <= GreedyEnd(s, p)
  {
    var ie := IntEnd(s, p);
    if IntPartBetween(s, p, e) {
      IntPartIsGreedy(s, p, e);
    } else {
      var k :| p < k && k + 1 < e && s[k] == ',' && IntPartBetween(s, p, k) && DigitsBetween(s, k + 1, e);
      IntPartIsGreedy(s, p, k);
      assert k == ie;
      RunIsLongest(s, ie + 1, e);
    }
  }

  /** The span of the group of `(\d{1,3}(?:\s\d{3})*(?:,\d+)?)`: a match
      starts at every digit, so the leftmost is at the first digit, and the
      greedy quantifiers make it the longest number there. */
  function BareSpan(s: string): (r: Option<(nat, nat)>)
    ensures r.None? <==> forall k | 0 <= k < |s| :: !IsDigit(s[k])
    ensures r.Some? ==> var (p, q) := r.value;
      && p < |s| && IsDigit(s[p]) && (forall k | 0 <= k < p :: !IsDigit(s[k]))
      && NumberBetween(s, p, q)
      && forall q' | q < q' <= |s| :: !NumberBetween(s, p, q')
  {
    var digit := (k: nat) => k < |s| && IsDigit(s[k]);
    assert forall k: nat :: digit(k) == (k < |s| && IsDigit(s[k]));
    match FirstFrom(0, |s|, digit)
    case None => None
    case Some(p) =>
      var q := GreedyEnd(s, p);
      forall q' | q < q' <= |s| ensures !NumberBetween(s, p, q') {
        if NumberBetween(s, p, q') {
          GreedyIsLongest(s, p, q');
        }
      }
      Some((p, q))
  }

  /** The text the amount search reports: the suffixed pattern's group,
      failing that the bare pattern's. */
  function MatchedSpan(s: string): (r: Option<(nat, nat)>)
    ensures SuffixedSpan(s).Some? ==> r == SuffixedSpan(s)
    ensures SuffixedSpan(s).None? ==> r == BareSpan(s)
    ensures r.Some? ==> NumberBetween(s, r.value.0, r.value.1)
    ensures r.None? <==> forall k | 0 <= k < |s| :: !IsDigit(s[k])
  {
    match SuffixedSpan(s)
    case Some(span) =>
      NumberChars(s, span.0, span.1);
      Some(span)
    case None => BareSpan(s)
  }

  // ---------------------------------------------------------------------
  // float(text.replace(' ', '').replace(',', '.'))

  /** `g.replace(' ', '').replace(',', '.')`: spaces dropped, the comma
      turned into a decimal point. */
  function Clean(g: string): string {
    if g == [] then []
    else (if g[0] == ' ' then [] else [if g[0] == ',' then '.' else g[0]]) + Clean(g[1..])
  }

  /** The index of the first '.' of t. */
  function PointIndex(t: string): (r: Option<nat>)
    ensures r.Some? ==> r.value < |t| && t[r.value] == '.' && '.' !in t[..r.value]
    ensures r.None? <==> '.' !in t
  {
    var point := (k: nat) => k < |t| && t[k] == '.';
    assert forall k: nat :: point(k) == (k < |t| && t[k] == '.');
    FirstFrom(0, |t|, point)
  }

  /** `float(t)` on the texts a cleaned group can be: digits with at most
      one decimal point, possibly with whitespace other than the space left
      inside, which `float` rejects (None). */
  function DecimalOf(t: string): (r: Option<Decimal>)
    ensures r.Some? ==> r.value.scale < |t|
  {
    match PointIndex(t)
    case None =>
      if t != [] && AllDigits(t) then Some(Decimal(DigitsValue(t), 0)) else None
    case Some(k) =>
      var a, b := t[..k], t[k + 1..];
      if (a != [] || b != []) && AllDigits(a) && AllDigits(b) then
        DigitsValueAppend(a, b);
        Some(Decimal(DigitsValue(a + b), |b|))
      else
        None
  }

  /** t is digits, a point at k, and digits, with at least one digit. */
  predicate PointSplit(t: string, k: nat) {
    k < |t| && t[k] == '.' && |t| > 1 && AllDigits(t[..k]) && AllDigits(t[k + 1..])
  }

  /** `float` of a run of digits is the number they spell. */
  lemma DecimalOfDigits(t: string)
    requires t != [] && AllDigits(t)
    ensures DecimalOf(t) == Some(Decimal(DigitsValue(t), 0))
  {
  }

  /** `float` of digits, a point and digits is the digits without the point
      over ten to the number of digits after it. */
  lemma DecimalOfSplit(t: string, k: nat)
    requires PointSplit(t, k)
    ensures DecimalOf(t) == Some(Decimal(DigitsValue(t[..k]) * Pow10(|t| - k - 1) + DigitsValue(t[k + 1..]), |t| - k - 1))
  {
    var a, b := t[..k], t[k + 1..];
    PointIsFirst(t, k);
    DigitsValueAppend(a, b);
  }

  /** In digits, a point and digits, the point is the first one. */
  lemma PointIsFirst(t: string, k: nat)
    requires PointSplit(t, k)
    ensures PointIndex(t) == Some(k)
  {
  }

  /** `float` rejects every other text. */
  lemma DecimalOfRejects(t: string)
    requires DecimalOf(t).Some?
    ensures (t != [] && AllDigits(t)) || exists k | 0 <= k < |t| :: PointSplit(t, k)
  {
    match PointIndex(t)
    case None =>
    case Some(k) =>
      assert PointSplit(t, k);
  }

  /** The amount a dividend cell yields (lines 178-192 for the ordinary
      share, 205-219 for the preferred one). */
  function ParseAmount(cell: string): (r: Amount)
    ensures Contains(cell, Sentinel) ==> r == Amount(Decimal(0, 0))
    ensures r == NoAmount <==> !Contains(cell, Sentinel) && forall k | 0 <= k < |cell| :: !IsDigit(cell[k])
  {
    if Contains(cell, Sentinel) then Amount(Decimal(0, 0))
    else
      match MatchedSpan(cell)
      case None => NoAmount
      case Some((p, q)) =>
        match DecimalOf(Clean(cell[p..q]))
        case None => Unconvertible
        case Some(d) => Amount(d)
  }

  // ---------------------------------------------------------------------
  // What a matched number stands for

  /** Every whitespace character of g is the space, the only one
      `replace(' ', '')` removes. */
  predicate OnlySpaces(g: string) {
    forall m | 0 <= m < |g| :: IsSpace(g[m]) ==> g[m] == ' '
  }

  /** The digits of g, in order. */
  function DigitsOf(g: string): (r: string)
    ensures AllDigits(r) && |r| <= |g|
  {
    if g == [] then [] else (if IsDigit(g[0]) then [g[0]] else []) + DigitsOf(g[1..])
  }

  /** How many digits follow the first comma of g (none without a comma). */
  function DigitsAfterComma(g: string): nat {
    if g == [] then 0
    else if g[0] == ',' then |DigitsOf(g[1..])|
    else DigitsAfterComma(g[1..])
  }

  /** The amount the text of a number stands for: all its digits read as
      one integer, over ten to the number of digits after the comma. */
  function Denotes(g: string): Decimal {
    Decimal(DigitsValue(DigitsOf(g)), DigitsAfterComma(g))
  }

  lemma {:induction false} CleanAppend(x: string, y: string)
    ensures Clean(x + y) == Clean(x) + Clean(y)
    decreases |x|
  {
    if x == [] {
      assert x + y == y;
    } else {
      var h: string := if x[0] == ' ' then [] else [if x[0] == ',' then '.' else x[0]];
      assert (x + y)[0] == x[0] && (x + y)[1..] == x[1..] + y;
      CleanAppend(x[1..], y);
      calc {
        Clean(x + y);
        h + Clean(x[1..] + y);
        h + (Clean(x[1..]) + Clean(y));
        (h + Clean(x[1..])) + Clean(y);
      }
    }
  }

  lemma {:induction false} DigitsOfAppend(x: string, y: string)
    ensures DigitsOf(x + y) == DigitsOf(x) + DigitsOf(y)
    decreases |x|
  {
    if x == [] {
      assert x + y == y;
    } else {
      var h: string := if IsDigit(x[0]) then [x[0]] else [];
      assert (x + y)[0] == x[0] && (x + y)[1..] == x[1..] + y;
      DigitsOfAppend(x[1..], y);
      calc {
        DigitsOf(x + y);
        h + DigitsOf(x[1..] + y);
        h + (DigitsOf(x[1..]) + DigitsOf(y));
        (h + DigitsOf(x[1..])) + DigitsOf(y);
      }
    }
  }

  /** On text of digits and whitespace, the cleaning leaves digits only
      when every whitespace character was a space, and then it leaves the
      digits. */
  lemma {:induction false} CleanPlain(g: string)
    requires forall m | 0 <= m < |g| :: IsDigit(g[m]) || IsSpace(g[m])
    ensures '.' !in Clean(g) && ',' !in g && DigitsAfterComma(g) == 0
    ensures AllDigits(Clean(g)) <==> OnlySpaces(g)
    ensures AllDigits(Clean(g)) ==> Clean(g) == DigitsOf(g)
    ensures g != [] && IsDigit(g[0]) ==> Clean(g) != []
    decreases |g|
  {
    if g != [] {
      CleanPlain(g[1..]);
      assert g == [g[0]] + g[1..];
      assert OnlySpaces(g) <==> (IsSpace(g[0]) ==> g[0] == ' ') && OnlySpaces(g[1..]) by {
        assert forall m | 1 <= m < |g| :: g[m] == g[1..][m - 1];
      }
      var h: string := if g[0] == ' ' then [] else [if g[0] == ',' then '.' else g[0]];
      assert Clean(g) == h + Clean(g[1..]);
      AllDigitsAppend(h, Clean(g[1..]));
    }
  }

  lemma AllDigitsAppend(x: string, y: string)
    ensures AllDigits(x + y) <==> AllDigits(x) && AllDigits(y)
  {
    assert forall m | 0 <= m < |x| :: (x + y)[m] == x[m];
    assert forall m | 0 <= m < |y| :: (x + y)[|x| + m] == y[m];
  }

  lemma {:induction false} CommaAfterPlain(a: string, b: string)
    requires ',' !in a
    ensures DigitsAfterComma(a + [','] + b) == |DigitsOf(b)|
    decreases |a|
  {
    if a != [] {
      assert (a + [','] + b)[1..] == a[1..] + [','] + b;
      CommaAfterPlain(a[1..], b);
    } else {
      assert (a + [','] + b)[1..] == b;
    }
  }

  lemma ConvertPlain(g: string)
    requires g != [] && IsDigit(g[0])
    requires forall m | 0 <= m < |g| :: IsDigit(g[m]) || IsSpace(g[m])
    ensures DecimalOf(Clean(g)) == if OnlySpaces(g) then Some(Denotes(g)) else None
  {
    CleanPlain(g);
  }

  /** `float` on digits, a point and digits. */
  lemma DecimalOfPoint(x: string, y: string)
    requires '.' !in x && y != [] && AllDigits(y)
    ensures DecimalOf(x + ['.'] + y) == if AllDigits(x) then Some(Decimal(DigitsValue(x + y), |y|)) else None
  {
    var t := x + ['.'] + y;
    assert t[..|x|] == x && t[|x| + 1..] == y;
    assert PointIndex(t) == Some(|x|);
  }

  lemma {:induction false} CleanDigits(g: string)
    requires AllDigits(g)
    ensures Clean(g) == g && DigitsOf(g) == g
    decreases |g|
  {
    if g != [] {
      CleanDigits(g[1..]);
      assert g == [g[0]] + g[1..];
    }
  }

  lemma CleanFraction(a: string, b: string)
    requires AllDigits(b)
    ensures Clean(a + [','] + b) == Clean(a) + ['.'] + b
  {
    var c: string := [','];
    CleanDigits(b);
    CleanAppend(a + c, b);
    CleanAppend(a, c);
    assert c[1..] == [];
    assert Clean(c) == ['.'];
  }

  lemma DigitsOfFraction(a: string, b: string)
    requires AllDigits(b)
    ensures DigitsOf(a + [','] + b) == DigitsOf(a) + b
  {
    var c: string := [','];
    assert DigitsOf(c) == [] by {
      assert c[1..] == [];
    }
    assert DigitsOf(b) == b by {
      CleanDigits(b);
    }
    DigitsOfAppend(a + c, b);
    DigitsOfAppend(a, c);
    calc {
      DigitsOf(a + c + b);
      DigitsOf(a + c) + DigitsOf(b);
      DigitsOf(a) + DigitsOf(c) + b;
      DigitsOf(a) + b;
    }
  }

  lemma SpacesFraction(a: string, b: string)
    requires AllDigits(b)
    ensures OnlySpaces(a + [','] + b) <==> OnlySpaces(a)
  {
    var g := a + [','] + b;
    assert forall m | 0 <= m < |a| :: g[m] == a[m];
    assert forall m | |a| <= m < |g| :: !IsSpace(g[m]);
  }

  lemma ConvertFraction(a: string, b: string)
    requires a != [] && IsDigit(a[0]) && b != [] && AllDigits(b)
    requires forall m | 0 <= m < |a| :: IsDigit(a[m]) || IsSpace(a[m])
    ensures DecimalOf(Clean(a + [','] + b)) == if OnlySpaces(a + [','] + b) then Some(Denotes(a + [','] + b)) else None
  {
    CleanPlain(a);
    CleanFraction(a, b);
    DigitsOfFraction(a, b);
    CommaAfterPlain(a, b);
    CleanDigits(b);
    DecimalOfPoint(Clean(a), b);
    SpacesFraction(a, b);
  }

  /** `float` reads a matched number as the amount it stands for, unless a
      whitespace character other than the space separates its groups. */
  lemma ConvertNumber(s: string, i: nat, j: nat)
    requires NumberBetween(s, i, j)
    ensures DecimalOf(Clean(s[i..j])) == if OnlySpaces(s[i..j]) then Some(Denotes(s[i..j])) else None
  {
    NumberChars(s, i, j);
    if IntPartBetween(s, i, j) {
      IntPartChars(s, i, j);
      ConvertPlain(s[i..j]);
    } else {
      var k :| i < k && k + 1 < j <= |s| && s[k] == ',' && IntPartBetween(s, i, k) && DigitsBetween(s, k + 1, j);
      IntPartChars(s, i, k);
      assert s[i..j] == s[i..k] + [','] + s[k + 1..j];
      ConvertFraction(s[i..k], s[k + 1..j]);
    }
  }

  /** What a cell without the sentinel yields: the amount its matched
      number stands for, or the failure of `float` when a whitespace
      character other than the space sits inside that number. */
  lemma AmountOfMatch(cell: string)
    requires !Contains(cell, Sentinel) && MatchedSpan(cell).Some?
    ensures var (p, q) := MatchedSpan(cell).value;
      ParseAmount(cell) == if OnlySpaces(cell[p..q]) then Amount(Denotes(cell[p..q])) else Unconvertible
  {
    var (p, q) := MatchedSpan(cell).value;
    ConvertNumber(cell, p, q);
  }

  /** The number in front of the currency is the greedy number from where
      it starts: the two searches read the same digits from one start. */
  lemma SuffixedIsGreedy(s: string, p: nat, q: nat)
    requires SuffixedAt(s, p, q)
    ensures p < |s| && IsDigit(s[p]) && q == GreedyEnd(s, p)
  {
    NumberChars(s, p, q);
    GreedyIsLongest(s, p, q);
    SuffixedIsLongest(s, p, q, GreedyEnd(s, p));
  }

  // ---------------------------------------------------------------------
  // Reading back the usual spelling of an amount

  /** Digits in the leading group of the usual spelling of n < 1000. */
  function LeadWidth(n: nat): (w: nat)
    requires n < 1000
    ensures 1 <= w <= 3 && n < Pow10(w)
  {
    assert Pow10(1) == 10 && Pow10(2) == 100 && Pow10(3) == 1000;
    if n < 10 then 1 else if n < 100 then 2 else 3
  }

  /** The usual spelling of a whole number: groups of three digits
      separated by spaces, the leading group without leading zeros. */
  function Render(n: nat): (r: string)
    ensures r != [] && IsDigit(r[0])
    ensures forall m | 0 <= m < |r| :: IsDigit(r[m]) || r[m] == ' '
  {
    if n < 1000 then Pad(n, LeadWidth(n)) else Render(n / 1000) + " " + Pad(n % 1000, 3)
  }

  /** The usual spelling of an amount: the whole part, and the fraction
      digits after a comma when there are any. */
  function Spelled(n: nat, f: string): string {
    if f == [] then Render(n) else Render(n) + "," + f
  }

  lemma {:induction false} RenderValue(n: nat)
    ensures DigitsValue(DigitsOf(Render(n))) == n
    decreases n
  {
    if n < 1000 {
      CleanDigits(Pad(n, LeadWidth(n)));
      PadValue(n, LeadWidth(n));
    } else {
      var r, sp, pad := Render(n / 1000), " ", Pad(n % 1000, 3);
      assert Render(n) == r + sp + pad;
      DigitsOfAppend(r + sp, pad);
      DigitsOfAppend(r, sp);
      assert DigitsOf(sp) == [];
      CleanDigits(pad);
      DigitsValueAppend(DigitsOf(r), pad);
      assert Pow10(3) == 1000;
      PadValue(n % 1000, 3);
      RenderValue(n / 1000);
      assert DigitsOf(Render(n)) == DigitsOf(r) + pad;
      assert n == n / 1000 * 1000 + n % 1000;
    }
  }

  /** One more group after a run of groups. */
  lemma {:induction false} GroupsExtend(s: string, i: nat, j: nat)
    requires GroupsBetween(s, i, j) && j + 4 <= |s| && IsSpace(s[j]) && DigitsBetween(s, j + 1, j + 4)
    ensures GroupsBetween(s, i, j + 4)
    decreases j - i
  {
    if i < j {
      GroupsExtend(s, i + 4, j);
    }
  }

  lemma {:induction false} RenderIntPart(n: nat, rest: string)
    ensures IntPartBetween(Render(n) + rest, 0, |Render(n)|)
    decreases n
  {
    var s := Render(n) + rest;
    if n < 1000 {
      var w := LeadWidth(n);
      assert DigitsBetween(s, 0, w) && GroupsBetween(s, w, w);
    } else {
      var r, pad := Render(n / 1000), Pad(n % 1000, 3);
      assert s == r + (" " + pad + rest);
      RenderIntPart(n / 1000, " " + pad + rest);
      var d :| 0 < d <= 3 && DigitsBetween(s, 0, d) && GroupsBetween(s, d, |r|);
      assert s[|r|] == ' ';
      assert forall m | |r| + 1 <= m < |r| + 4 :: s[m] == pad[m - |r| - 1];
      GroupsExtend(s, d, |r|);
    }
  }

  lemma NoSentinelIn(s: string)
    requires forall m | 0 <= m < |s| :: s[m] != Sentinel[0]
    ensures !Contains(s, Sentinel)
  {
    forall i | 0 <= i <= |s|
      ensures !OccursAt(s, Sentinel, i)
    {
      if i + |Sentinel| <= |s| {
        assert s[i..i + |Sentinel|][0] == s[i];
      }
    }
  }

  lemma SpelledChars(n: nat, f: string)
    requires AllDigits(f)
    ensures forall m | 0 <= m < |Spelled(n, f)| :: IsDigit(Spelled(n, f)[m]) || Spelled(n, f)[m] == ' ' || Spelled(n, f)[m] == ','
  {
  }

  /** Whatever follows it, the usual spelling is a number. */
  lemma SpelledNumber(n: nat, f: string, rest: string)
    requires AllDigits(f)
    ensures NumberBetween(Spelled(n, f) + rest, 0, |Spelled(n, f)|)
  {
    if f == [] {
      RenderIntPart(n, rest);
    } else {
      SpelledFractionNumber(n, f, rest);
    }
  }

  lemma SpelledFractionNumber(n: nat, f: string, rest: string)
    requires f != [] && AllDigits(f)
    ensures NumberBetween(Spelled(n, f) + rest, 0, |Spelled(n, f)|)
  {
    RenderIntPart(n, "," + f + rest);
    FractionNumber(Render(n), f, rest);
  }

  /** An integer part, a comma and digits make a number. */
  lemma FractionNumber(r: string, f: string, rest: string)
    requires r != [] && f != [] && AllDigits(f)
    requires IntPartBetween(r + ("," + f + rest), 0, |r|)
    ensures NumberBetween(r + "," + f + rest, 0, |r| + 1 + |f|)
  {
    var s := r + "," + f + rest;
    var k, j := |r|, |r| + 1 + |f|;
    assert s == r + ("," + f + rest);
    assert s[k] == ',' && DigitsBetween(s, k + 1, j) by {
      assert forall m | k + 1 <= m < j :: s[m] == f[m - k - 1];
    }
  }

  lemma CurrencyAfter(g: string)
    ensures CurrencyAt(g + " " + Currency, |g|)
  {
    var s := g + " " + Currency;
    assert s[|g| + 1..|g| + 1 + |Currency|] == Currency;
    assert OccursAt(s, Currency, |g| + 1);
  }

  /** In the usual spelling followed by the currency, the search finds
      the whole spelled number. */
  lemma SpelledSpan(n: nat, f: string)
    requires AllDigits(f)
    ensures var s := Spelled(n, f) + " " + Currency;
      !Contains(s, Sentinel) && MatchedSpan(s) == Some((0, |Spelled(n, f)|))
  {
    var num := Spelled(n, f);
    var s := num + " " + Currency;
    SpelledChars(n, f);
    assert forall m | 0 <= m < |s| :: s[m] != Sentinel[0] by {
      assert forall m | |num| <= m < |s| :: s[m] == (" " + Currency)[m - |num|];
    }
    NoSentinelIn(s);
    SpelledNumber(n, f, " " + Currency);
    CurrencyAfter(num);
    assert s == num + (" " + Currency);
    assert SuffixedAt(s, 0, |num|);
  }

  lemma RenderDenotes(n: nat)
    ensures Denotes(Render(n)) == Decimal(n, 0)
  {
    RenderValue(n);
    CleanPlain(Render(n));
  }

  lemma FractionDenotes(n: nat, f: string)
    requires f != [] && AllDigits(f)
    ensures Denotes(Render(n) + [','] + f) == Decimal(n * Pow10(|f|) + DigitsValue(f), |f|)
  {
    var r := Render(n);
    RenderValue(n);
    CleanPlain(r);
    CleanFraction(r, f);
    DigitsOfFraction(r, f);
    CommaAfterPlain(r, f);
    CleanDigits(f);
    DigitsValueAppend(DigitsOf(r), f);
  }

  /** The usual spelling stands for the amount it spells. */
  lemma SpelledDenotes(n: nat, f: string)
    requires AllDigits(f)
    ensures Denotes(Spelled(n, f)) == Decimal(n * Pow10(|f|) + DigitsValue(f), |f|)
  {
    if f == [] {
      WholeDenotes(n, f);
    } else {
      FractionDenotes(n, f);
    }
  }

  lemma WholeDenotes(n: nat, f: string)
    requires f == []
    ensures Denotes(Spelled(n, f)) == Decimal(n * Pow10(|f|) + DigitsValue(f), |f|)
  {
    assert Spelled(n, f) == Render(n);
    RenderDenotes(n);
    assert Pow10(|f|) == 1 && DigitsValue(f) == 0;
    assert n * Pow10(|f|) == n;
  }

  lemma SpelledOnlySpaces(n: nat, f: string)
    requires AllDigits(f)
    ensures OnlySpaces(Spelled(n, f))
  {
    SpelledChars(n, f);
  }

  /** An amount in roubles written the usual way is read back as the
      amount it spells. */
  lemma ParseSpelled(n: nat, f: string)
    requires AllDigits(f)
    ensures ParseAmount(Spelled(n, f) + " " + Currency) == Amount(Decimal(n * Pow10(|f|) + DigitsValue(f), |f|))
  {
    var num := Spelled(n, f);
    var s := num + " " + Currency;
    SpelledSpan(n, f);
    SpelledOnlySpaces(n, f);
    SpelledDenotes(n, f);
    assert s[0..|num|] == num;
    AmountOfMatch(s);
  }

  /** The usual example: `1 234,56 руб.` is 1234.56. */
  lemma GroupedExample()
    ensures ParseAmount("1 234,56 руб.") == Amount(Decimal(123456, 2))
  {
    ExampleSpelled();
    ParseSpelled(1234, "56");
    ExampleValue();
  }

  lemma ExampleSpelled()
    ensures Spelled(1234, "56") + " " + Currency == "1 234,56 руб."
  {
    ExampleRender();
    assert Spelled(1234, "56") == Render(1234) + "," + "56";
  }

  lemma ExampleRender()
    ensures Render(1234) == "1 234"
  {
    assert 1234 / 1000 == 1 && 1234 % 1000 == 234;
    assert Render(1234) == Render(1) + " " + Pad(234, 3);
    assert LeadWidth(1) == 1;
    assert Render(1) == Pad(1, 1);
    ExamplePads();
  }

  lemma ExamplePads()
    ensures Pad(1, 1) == "1" && Pad(234, 3) == "234"
  {
    assert Pad(0, 0) == "";
    assert Pad(1, 1) == Pad(0, 0) + ['1'];
    assert Pad(2, 1) == Pad(0, 0) + ['2'];
    assert Pad(23, 2) == Pad(2, 1) + ['3'];
    assert Pad(234, 3) == Pad(23, 2) + ['4'];
  }

  lemma ExampleValue()
    ensures AllDigits("56") && 1234 * Pow10(|"56"|) + DigitsValue("56") == 123456
  {
    assert Pow10(2) == 100;
    assert "56"[..1] == "5";
    assert DigitsValue("56") == 56;
  }

  // ---------------------------------------------------------------------
  // Where the currency can follow

  /** The currency cannot follow at a digit. */
  lemma NoCurrencyAtDigit(s: string, q: nat)
    requires q < |s| && IsDigit(s[q])
    ensures !CurrencyAt(s, q)
  {
    forall k | q <= k <= |s| && OccursAt(s, Currency, k)
      ensures k > q
    {
      assert s[k..k + |Currency|][0] == s[k];
    }
  }

  /** Without its first letter in the cell, the currency follows nowhere. */
  lemma NoCurrencyIn(s: string)
    requires forall m | 0 <= m < |s| :: s[m] != Currency[0]
    ensures forall q | 0 <= q <= |s| :: !CurrencyAt(s, q)
  {
    forall k | 0 <= k <= |s|
      ensures !OccursAt(s, Currency, k)
    {
      if k + |Currency| <= |s| {
        assert s[k..k + |Currency|][0] == s[k];
      }
    }
  }

  /** The suffixed search matches from p exactly when p holds a digit and
      the currency follows the greedy number from p. */
  lemma SuffixedFromIff(s: string, p: nat)
    requires p < |s|
    ensures SuffixedFrom(s, p) <==> IsDigit(s[p]) && CurrencyAt(s, GreedyEnd(s, p))
  {
    if SuffixedFrom(s, p) {
      var q :| p < q <= |s| && SuffixedAt(s, p, q);
      SuffixedIsGreedy(s, p, q);
    }
    if IsDigit(s[p]) && CurrencyAt(s, GreedyEnd(s, p)) {
      NumberChars(s, p, GreedyEnd(s, p));
      assert SuffixedAt(s, p, GreedyEnd(s, p));
    }
  }

  // ---------------------------------------------------------------------
  // Two cells the unanchored pattern reads short

  /** The leading digit of an ungrouped four-digit amount is lost: the
      search with the currency starts at the second digit. */
  lemma UngroupedThousands()
    ensures ParseAmount("1234" + " " + Currency) == Amount(Decimal(234, 0))
  {
    var s := "1234" + " " + Currency;
    UngroupedThousandsSpan(s);
    NoSentinelIn(s);
    assert s[1..4] == "234";
    WholeAmount(s, 1, 4);
    ThreeDigits("234");
  }

  lemma UngroupedThousandsSpan(s: string)
    requires s == "1234" + " " + Currency
    ensures SuffixedSpan(s) == Some((1, 4))
  {
    UngroupedNotFirst(s);
    UngroupedFromSecond(s);
    assert SuffixedFrom(s, 1);
    var span := SuffixedSpan(s).value;
    assert SuffixedFrom(s, span.0);
    assert span.0 == 1;
  }

  lemma UngroupedNotFirst(s: string)
    requires s == "1234" + " " + Currency
    ensures !SuffixedFrom(s, 0)
  {
    assert s[0] == '1' && s[1] == '2' && s[2] == '3' && s[3] == '4' && s[4] == ' ';
    assert RunEnd(s, 4) == 4 && RunEnd(s, 3) == 4 && RunEnd(s, 2) == 4 && RunEnd(s, 1) == 4 && RunEnd(s, 0) == 4;
    assert GroupsEnd(s, 3) == 3 && IntEnd(s, 0) == 3 && GreedyEnd(s, 0) == 3;
    NoCurrencyAtDigit(s, 3);
    SuffixedFromIff(s, 0);
  }

  lemma UngroupedFromSecond(s: string)
    requires s == "1234" + " " + Currency
    ensures SuffixedAt(s, 1, 4)
  {
    assert s[1] == '2' && s[2] == '3' && s[3] == '4' && s[4] == ' ';
    assert DigitsBetween(s, 1, 4) && GroupsBetween(s, 4, 4);
    assert NumberBetween(s, 1, 4);
    CurrencyAfter("1234");
  }

  lemma UngroupedFractionSpan(s: string)
    requires s == "1234,5"
    ensures MatchedSpan(s) == Some((0, 3))
  {
    assert s[0] == '1' && s[1] == '2' && s[2] == '3' && s[3] == '4' && s[4] == ',';
    NoCurrencyIn(s);
    assert SuffixedSpan(s) == None;
    assert RunEnd(s, 4) == 4 && RunEnd(s, 3) == 4 && RunEnd(s, 2) == 4 && RunEnd(s, 1) == 4 && RunEnd(s, 0) == 4;
    assert GroupsEnd(s, 3) == 3 && IntEnd(s, 0) == 3 && GreedyEnd(s, 0) == 3;
    assert BareSpan(s) == Some((0, 3));
  }

  /** The fraction of an ungrouped four-digit amount without the currency
      is lost with its last digit: the number stops after three digits. */
  lemma UngroupedFraction()
    ensures ParseAmount("1234,5") == Amount(Decimal(123, 0))
  {
    var s := "1234,5";
    UngroupedFractionSpan(s);
    NoSentinelIn(s);
    assert s[0..3] == "123";
    WholeAmount(s, 0, 3);
    ThreeDigits("123");
  }

  /** A matched number without separators is read as a whole amount. */
  lemma WholeAmount(cell: string, p: nat, q: nat)
    requires !Contains(cell, Sentinel) && MatchedSpan(cell) == Some((p, q))
    requires AllDigits(cell[p..q])
    ensures ParseAmount(cell) == Amount(Decimal(DigitsValue(cell[p..q]), 0))
  {
    AmountOfMatch(cell);
    CleanPlain(cell[p..q]);
    CleanDigits(cell[p..q]);
  }

  lemma ThreeDigits(g: string)
    requires |g| == 3 && AllDigits(g)
    ensures DigitsValue(g) == DigitValue(g[0]) * 100 + DigitValue(g[1]) * 10 + DigitValue(g[2])
  {
    assert g[..1][..0] == [];
    assert DigitsValue(g[..1]) == DigitValue(g[0]);
    assert g[..2][..1] == g[..1];
    assert DigitsValue(g[..2]) == DigitValue(g[0]) * 10 + DigitValue(g[1]);
  }
}
