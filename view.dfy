/**
 * What `render(filter)` puts on the page, as a value: either the empty-state
 * message or one card per filtered entry, in order, each with the escaped
 * basename as its title and the escaped storage path as the target of its
 * "Open" and "Download" links.
 */
module View {
  import opened Wrappers
  import opened Strings
  import opened Html
  import opened Search

  /** The folder under which the listed files are stored. */
  const DbPrefix: string := "db/"

  /** `DB_PREFIX + escapeHtml(relPath)`, the `href` of both links of a card. */
  function Href(relPath: string): (r: string)
    ensures |DbPrefix| <= |r| && r[..|DbPrefix|] == DbPrefix
    ensures Unescape(r[|DbPrefix|..]) == Some(relPath)
    ensures forall i :: 0 <= i < |r| ==> !IsMarkup(r[i])
  {
    var r := DbPrefix + EscapeHtml(relPath);
    assert r[|DbPrefix|..] == EscapeHtml(relPath);
    UnescapeEscape(relPath);
    r
  }

  /** Different paths never produce the same link target. */
  lemma HrefInjective(a: string, b: string)
    requires Href(a) == Href(b)
    ensures a == b
  {
    assert Href(a)[|DbPrefix|..] == Href(b)[|DbPrefix|..];
  }

  datatype Card = Card(title: string, href: string)

  /** The card for one entry: its escaped basename and its link target. */
  function CardFor(relPath: string): Card
  {
    Card(EscapeHtml(Basename(relPath)), Href(relPath))
  }

  /** A card's title contains no markup character and decodes to the entry's basename. */
  lemma CardTitleDecodes(relPath: string)
    ensures Unescape(CardFor(relPath).title) == Some(Basename(relPath))
    ensures forall i :: 0 <= i < |CardFor(relPath).title| ==> !IsMarkup(CardFor(relPath).title[i])
  {
    UnescapeEscape(Basename(relPath));
  }

  /** The visible outcome of `render`: the empty-state message, or the result cards. */
  datatype Page = NoResults | Results(cards: seq<Card>)

  /** The cards of the shown entries, one per entry and in the same order. */
  function Cards(shown: seq<string>): (cards: seq<Card>)
    ensures |cards| == |shown|
    ensures forall k :: 0 <= k < |shown| ==> cards[k] == CardFor(shown[k])
  {
    seq(|shown|, k requires 0 <= k < |shown| => CardFor(shown[k]))
  }

  /** The page for a filtered list: the empty-state message exactly when nothing is shown. */
  function PageFor(shown: seq<string>): (page: Page)
    ensures page.NoResults? <==> shown == []
  {
    if |shown| == 0 then NoResults else Results(Cards(shown))
  }

  /** The loop of `render`: one card per filtered entry, appended in order. */
  method AppendCards(filtered: seq<string>) returns (cards: seq<Card>)
    ensures cards == Cards(filtered)
  {
    cards := [];
    for i := 0 to |filtered|
      invariant cards == Cards(filtered[..i])
    {
      assert filtered[..i + 1] == filtered[..i] + [filtered[i]];
      cards := cards + [CardFor(filtered[i])];
    }
    assert filtered[..|filtered|] == filtered;
  }

  /**
   * `render(filter)`: clears the results, filters the entries, and shows
   * the empty-state message when nothing is left, otherwise the cards of
   * the filtered entries.
   */
  method Render(entries: seq<string>, filter: Option<string>) returns (page: Page)
    ensures page == PageFor(Filter(entries, OrEmpty(filter)))
  {
    var q := OrEmpty(filter);
    var filtered := Filter(entries, q);
    if |filtered| == 0 {
      page := NoResults;
    } else {
      var cards := AppendCards(filtered);
      page := Results(cards);
    }
  }

  /** Without a filter argument, every entry gets a card. */
  lemma RenderWithoutFilterShowsAll(entries: seq<string>)
    ensures Filter(entries, OrEmpty(None)) == entries
  {
    FilterBlank(entries, OrEmpty(None));
  }
}
