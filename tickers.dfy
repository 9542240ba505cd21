/** The link loop of `get_ticker_mappings`: every link of the front page
    whose text names a company with its ticker in brackets, and which has
    an address, maps that ticker to the address without its slashes.

    A link is the pair of its text (`link.text`, before stripping) and its
    `href`; a link without an `href` attribute has the empty one, which is
    what `link.get('href', '')` yields. */
module Tickers {
  import opened Text

  datatype Link = Link(text: string, href: string)

  /** The navigation labels the loop skips. */
  const NavLabels: seq<string> := [
    ">", "2025", "2024", "2023", "2022", "2021", "2020",
    "2019", "2018", "2017", "2016", "2015",
    "Дивидендные истории А-Я", "Страница Донатов"]

  // ---------------------------------------------------------------------
  // The pattern `(.*?)\s*\(([A-Z0-9\.]+)\)`

  predicate IsTickerChar(c: char) {
    'A' <= c <= 'Z' || IsDigit(c) || c == '.'
  }

  predicate IsTicker(t: string) {
    t != [] && forall i | 0 <= i < |t| :: IsTickerChar(t[i])
  }

  /** Where the run of ticker characters that starts at i ends. */
  function TickerRunEnd(s: string, i: nat): (e: nat)
    requires i <= |s|
    ensures i <= e <= |s|
    ensures forall k | i <= k < e :: IsTickerChar(s[k])
    ensures e < |s| ==> !IsTickerChar(s[e])
    decreases |s| - i
  {
    if i == |s| || !IsTickerChar(s[i]) then i else TickerRunEnd(s, i + 1)
  }

  /** At q an opening bracket starts `\(([A-Z0-9\.]+)\)`. The run is
      greedy and ')' is not a ticker character, so the group, when there
      is one, is the whole run after the bracket. */
  predicate BracketedAt(s: string, q: nat) {
    q < |s| && s[q] == '(' &&
    var e := TickerRunEnd(s, q + 1);
    q + 1 < e < |s| && s[e] == ')'
  }

  /** The ticker inside the brackets that open at q. */
  function TickerAt(s: string, q: nat): (t: string)
    requires BracketedAt(s, q)
    ensures IsTicker(t)
  {
    s[q + 1..TickerRunEnd(s, q + 1)]
  }

  /** Group 2 of `pattern.search(text)`, or None when nothing matches.

      The lazy `.*?` and the `\s*` only decide where group 1 ends: a search
      from the start of the text can reach any bracket that only
      whitespace separates from its line, and a later start reaches every
      other bracket, so the match is at the leftmost bracket that opens a
      bracketed ticker. */
  function FindTicker(text: string): (r: Option<string>)
    ensures r.Some? ==> IsTicker(r.value)
    ensures r.None? <==> forall q | 0 <= q < |text| :: !BracketedAt(text, q)
    ensures r.Some? ==> exists q | 0 <= q < |text| ::
      && BracketedAt(text, q)
      && (forall k | 0 <= k < q :: !BracketedAt(text, k))
      && r.value == TickerAt(text, q)
  {
    var open := (q: nat) => BracketedAt(text, q);
    assert forall q: nat :: open(q) == BracketedAt(text, q);
    match FirstFrom(0, |text|, open)
    case None => None
    case Some(q) => Some(TickerAt(text, q))
  }

  // ---------------------------------------------------------------------
  // href.strip('/')

  function LeadingSlashes(s: string): (n: nat)
    ensures n <= |s|
    ensures forall i | 0 <= i < n :: s[i] == '/'
    ensures n < |s| ==> s[n] != '/'
  {
    if s == [] || s[0] != '/' then 0 else 1 + LeadingSlashes(s[1..])
  }

  function TrailingSlashes(s: string): (n: nat)
    ensures n <= |s|
    ensures forall i | |s| - n <= i < |s| :: s[i] == '/'
    ensures n < |s| ==> s[|s| - n - 1] != '/'
  {
    if s == [] || s[|s| - 1] != '/' then 0 else 1 + TrailingSlashes(s[..|s| - 1])
  }

  /** r sits in s at index i, with only '/' around it. */
  predicate SlashInfixAt(s: string, r: string, i: nat) {
    && i + |r| <= |s|
    && r == s[i..i + |r|]
    && (forall k | 0 <= k < i :: s[k] == '/')
    && (forall k | i + |r| <= k < |s| :: s[k] == '/')
  }

  /** `href.strip('/')`: the infix left after removing every '/' from
      both ends. */
  function StripSlashes(href: string): (r: string)
    ensures r == [] || (r[0] != '/' && r[|r| - 1] != '/')
    ensures exists i | 0 <= i <= |href| :: SlashInfixAt(href, r, i)
  {
    var lead := LeadingSlashes(href);
    var rest := href[lead..];
    var r := rest[..|rest| - TrailingSlashes(rest)];
    assert r == href[lead..lead + |r|];
    assert r != [] ==> r[|r| - 1] == rest[|rest| - TrailingSlashes(rest) - 1];
    assert SlashInfixAt(href, r, lead);
    r
  }

  /** Stripping the slashes a second time changes nothing. */
  lemma StripSlashesIdempotent(href: string)
    ensures StripSlashes(StripSlashes(href)) == StripSlashes(href)
  {
    var r := StripSlashes(href);
    assert LeadingSlashes(r) == 0;
    assert r[0..] == r;
    assert TrailingSlashes(r) == 0;
  }

  // ---------------------------------------------------------------------
  // One link, and the loop over all of them

  /** What one link contributes: the ticker and the path, or nothing when
      its text is empty or a navigation label, when the pattern does not
      match, or when it has no address. */
  function Entry(link: Link): (r: Option<(string, string)>)
  {
    var text := Strip(link.text);
    if text == [] || text in NavLabels then None
    else match FindTicker(text)
      case None => None
      case Some(ticker) => if link.href == [] then None else Some((ticker, StripSlashes(link.href)))
  }

  /** What each link contributes, in page order. */
  function Entries(links: seq<Link>): (r: seq<Option<(string, string)>>)
    ensures |r| == |links| && forall i | 0 <= i < |links| :: r[i] == Entry(links[i])
  {
    seq(|links|, i requires 0 <= i < |links| => Entry(links[i]))
  }

  /** The dictionary that the insertions build, each one overwriting any
      earlier path of its ticker. */
  function Inserted(entries: seq<Option<(string, string)>>): map<string, string> {
    if entries == [] then map[]
    else
      var m := Inserted(entries[..|entries| - 1]);
      match entries[|entries| - 1]
      case None => m
      case Some((ticker, path)) => m[ticker := path]
  }

  /** The dictionary after the loop has seen the given links. */
  function MappingsOf(links: seq<Link>): map<string, string> {
    Inserted(Entries(links))
  }

  /** The loop of `get_ticker_mappings` over the links of the page. */
  method GetTickerMappings(links: seq<Link>) returns (m: map<string, string>)
    ensures m == MappingsOf(links)
  {
    m := map[];
    for i := 0 to |links|
      invariant m == Inserted(Entries(links)[..i])
    {
      assert Entries(links)[..i + 1][..i] == Entries(links)[..i];
      var text := Strip(links[i].text);
      if text == [] || text in NavLabels {
        continue;
      }
      var found := FindTicker(text);
      if found.Some? && links[i].href != [] {
        m := m[found.value := StripSlashes(links[i].href)];
      }
    }
    assert Entries(links)[..|links|] == Entries(links);
  }

  // ---------------------------------------------------------------------
  // Properties

  /** What an accepted link stores: a ticker over `[A-Z0-9.]` with a path
      that neither starts nor ends with '/'; a link with an empty address
      stores nothing. */
  lemma EntryShape(link: Link)
    ensures Entry(link).Some? ==> IsTicker(Entry(link).value.0)
    ensures Entry(link).Some? ==> var p := Entry(link).value.1;
      p == [] || (p[0] != '/' && p[|p| - 1] != '/')
    ensures link.href == [] ==> Entry(link).None?
  {
  }

  /** A link written the usual way, a company name without brackets
      followed by its ticker in brackets, maps that ticker to its path. */
  lemma EntryOfLabel(name: string, ticker: string, href: string)
    requires '(' !in name && IsTicker(ticker) && href != []
    requires name != [] && !IsSpace(name[0])
    ensures Entry(Link(name + " (" + ticker + ")", href)) == Some((ticker, StripSlashes(href)))
  {
    var text := name + " (" + ticker + ")";
    LabelStripped(text);
    LabelTicker(name, ticker);
    LabelNotNav(text);
  }

  lemma LabelStripped(text: string)
    requires text != [] && !IsSpace(text[0]) && !IsSpace(text[|text| - 1])
    ensures Strip(text) == text
  {
    assert LeadingSpaces(text) == 0;
    assert text[0..] == text;
    assert TrailingSpaces(text) == 0;
  }

  lemma LabelNotNav(text: string)
    requires text != [] && text[|text| - 1] == ')'
    ensures text !in NavLabels
  {
    NavLabelEnds();
  }

  /** The pattern reads the ticker of `name (TICKER)`. */
  lemma LabelTicker(name: string, ticker: string)
    requires '(' !in name && IsTicker(ticker)
    ensures FindTicker(name + " (" + ticker + ")") == Some(ticker)
  {
    var text := name + " (" + ticker + ")";
    var q := |name| + 1;
    assert text[q] == '(';
    assert forall k | q + 1 <= k < q + 1 + |ticker| :: text[k] == ticker[k - q - 1];
    TickerRunAt(text, q + 1, q + 1 + |ticker|);
    assert BracketedAt(text, q);
    forall k | 0 <= k < q
      ensures !BracketedAt(text, k)
    {
      assert k < |name| ==> text[k] == name[k];
    }
    assert TickerAt(text, q) == text[q + 1..q + 1 + |ticker|] == ticker;
  }

  lemma TickerRunAt(s: string, i: nat, e: nat)
    requires i <= e < |s| && !IsTickerChar(s[e])
    requires forall k | i <= k < e :: IsTickerChar(s[k])
    ensures TickerRunEnd(s, i) == e
    decreases e - i
  {
    if i < e {
      TickerRunAt(s, i + 1, e);
    }
  }

  /** No navigation label ends with a closing bracket. */
  lemma NavLabelEnds()
    ensures forall k | 0 <= k < |NavLabels| :: NavLabels[k] != [] && NavLabels[k][|NavLabels[k]| - 1] != ')'
  {
  }

  /** No navigation label contains a bracket, so none matches the
      pattern: the label filter never skips a link the pattern would
      accept. */
  lemma NavFilterRedundant(text: string)
    requires text in NavLabels
    ensures FindTicker(text).None?
  {
    assert '(' !in text;
    forall q | 0 <= q < |text|
      ensures !BracketedAt(text, q)
    {
      assert text[q] in text;
    }
  }

  /** Every key of the result is a ticker over `[A-Z0-9.]`, and every path
      neither starts nor ends with '/'. */
  lemma MappingsShape(links: seq<Link>)
    ensures forall t | t in MappingsOf(links) :: IsTicker(t)
    ensures forall t | t in MappingsOf(links) :: StripSlashes(MappingsOf(links)[t]) == MappingsOf(links)[t]
  {
    var es := Entries(links);
    forall k | 0 <= k < |es| && es[k].Some?
      ensures IsTicker(es[k].value.0) && StripSlashes(es[k].value.1) == es[k].value.1
    {
      EntryShape(links[k]);
      var h :| es[k].value.1 == StripSlashes(h);
      StripSlashesIdempotent(h);
    }
    InsertedShape(es);
  }

  predicate WellShaped(e: Option<(string, string)>) {
    e.Some? ==> IsTicker(e.value.0) && StripSlashes(e.value.1) == e.value.1
  }

  lemma {:induction false} InsertedShape(entries: seq<Option<(string, string)>>)
    requires forall k | 0 <= k < |entries| :: WellShaped(entries[k])
    ensures forall t | t in Inserted(entries) :: IsTicker(t) && StripSlashes(Inserted(entries)[t]) == Inserted(entries)[t]
    decreases |entries|
  {
    if entries != [] {
      var init := entries[..|entries| - 1];
      assert forall k | 0 <= k < |init| :: init[k] == entries[k];
      InsertedShape(init);
      assert WellShaped(entries[|entries| - 1]);
    }
  }

  /** A ticker is in the result exactly when some insertion carries it. */
  lemma {:induction false} InsertedKeys(entries: seq<Option<(string, string)>>, t: string)
    ensures t in Inserted(entries) <==>
      exists i | 0 <= i < |entries| :: entries[i].Some? && entries[i].value.0 == t
    decreases |entries|
  {
    if entries != [] {
      var init := entries[..|entries| - 1];
      InsertedKeys(init, t);
      if exists i | 0 <= i < |init| :: init[i].Some? && init[i].value.0 == t {
        var i :| 0 <= i < |init| && init[i].Some? && init[i].value.0 == t;
        assert entries[i] == init[i];
      }
      if exists i | 0 <= i < |entries| :: entries[i].Some? && entries[i].value.0 == t {
        var i :| 0 <= i < |entries| && entries[i].Some? && entries[i].value.0 == t;
        if i < |init| {
          assert init[i] == entries[i];
        }
      }
    }
  }

  /** A ticker is in the result exactly when some link yields it. */
  lemma MappingsKeys(links: seq<Link>, t: string)
    ensures t in MappingsOf(links) <==>
      exists i | 0 <= i < |links| :: Entry(links[i]).Some? && Entry(links[i]).value.0 == t
  {
    InsertedKeys(Entries(links), t);
  }

  /** The path stored for a ticker is the one of the last insertion that
      carries it: later insertions of other tickers, or none, leave it
      alone. */
  lemma {:induction false} LastWriterWins(entries: seq<Option<(string, string)>>, i: nat, t: string, path: string)
    requires i < |entries| && entries[i] == Some((t, path))
    requires forall j | i < j < |entries| :: entries[j].None? || entries[j].value.0 != t
    ensures t in Inserted(entries) && Inserted(entries)[t] == path
    decreases |entries|
  {
    var init := entries[..|entries| - 1];
    if i < |entries| - 1 {
      assert init[i] == entries[i];
      forall j | i < j < |init|
        ensures init[j].None? || init[j].value.0 != t
      {
        assert init[j] == entries[j];
      }
      LastWriterWins(init, i, t, path);
    }
  }

  /** For links: the last link that yields a ticker decides its path. */
  lemma LastLinkWins(links: seq<Link>, i: nat, t: string, path: string)
    requires i < |links| && Entry(links[i]) == Some((t, path))
    requires forall j | i < j < |links| :: Entry(links[j]).None? || Entry(links[j]).value.0 != t
    ensures t in MappingsOf(links) && MappingsOf(links)[t] == path
  {
    LastWriterWins(Entries(links), i, t, path);
  }

  /** An insertion changes at most the path of its own ticker. */
  lemma OtherKeysUnchanged(entries: seq<Option<(string, string)>>, e: Option<(string, string)>, t: string)
    requires e.None? || e.value.0 != t
    ensures t in Inserted(entries + [e]) <==> t in Inserted(entries)
    ensures t in Inserted(entries) ==> Inserted(entries + [e])[t] == Inserted(entries)[t]
  {
    assert (entries + [e])[..|entries|] == entries;
  }

  /** Appending a link changes at most the path of its own ticker. */
  lemma OtherLinksUnchanged(links: seq<Link>, l: Link, t: string)
    requires Entry(l).None? || Entry(l).value.0 != t
    ensures t in MappingsOf(links + [l]) <==> t in MappingsOf(links)
    ensures t in MappingsOf(links) ==> MappingsOf(links + [l])[t] == MappingsOf(links)[t]
  {
    assert Entries(links + [l]) == Entries(links) + [Entry(l)];
    OtherKeysUnchanged(Entries(links), Entry(l), t);
  }
}
