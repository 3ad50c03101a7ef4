/** The final table of the application (`final_df`), which the page shows
    without its `Lien` column and the export writes in full: the offers are narrowed by the four
    multiselects and the title keywords, projected to five columns with the
    publication date parsed, given their links, and sorted by date, newest
    first, undated rows last. */
module FilterEngine {
  import opened Wrappers
  import opened Seqs
  import opened Text
  import opened DateParse
  import opened Records
  import opened Links

  // ---------------------------------------------------------------------------
  // Row masks
  // ---------------------------------------------------------------------------

  /** `series.isin(chosen)` for one cell: a missing cell is never chosen. */
  predicate IsIn(cell: Option<string>, chosen: seq<string>) {
    cell.Some? && cell.value in chosen
  }

  /** The four `isin` masks, combined with `&`. An empty selection keeps nothing. */
  predicate CategoricalMatch(o: Offer, sel: Selection) {
    && IsIn(o.versant, sel.versant)
    && IsIn(o.categorie, sel.categorie)
    && IsIn(o.nature, sel.nature)
    && IsIn(o.localisation, sel.localisation)
  }

  /** The keywords typed in the title box, `input.split('&')`. */
  function Keywords(input: string): (keywords: seq<string>)
    ensures |keywords| >= 1
    ensures forall i :: 0 <= i < |keywords| ==> '&' !in keywords[i]
    ensures Join(keywords, '&') == input
  {
    JoinSplit(input, '&');
    Split(input, '&')
  }

  function LowerAll(words: seq<string>): seq<string> {
    seq(|words|, i requires 0 <= i < |words| => Lower(words[i]))
  }

  /** `title.str.contains('|'.join(keywords), case=False, na=False)`: a regex
      search for the alternation of the keywords, ignoring ASCII case; a
      missing title never matches. */
  predicate TitleMatch(title: Option<string>, keywords: seq<string>) {
    title.Some? && SearchAny(Lower(title.value), LowerAll(keywords))
  }

  /** A title passes exactly when it is present and contains, ignoring case,
      at least one of the keywords. */
  lemma TitleMatchSpec(title: Option<string>, keywords: seq<string>)
    ensures TitleMatch(title, keywords) <==>
      title.Some? && exists k :: 0 <= k < |keywords| && Contains(Lower(title.value), Lower(keywords[k]))
  {
    if title.Some? {
      var t := Lower(title.value);
      var lowered := LowerAll(keywords);
      SearchAnySpec(t, lowered);
      if k :| 0 <= k < |lowered| && Contains(t, lowered[k]) {
        assert Contains(t, Lower(keywords[k]));
      }
      if k :| 0 <= k < |keywords| && Contains(t, Lower(keywords[k])) {
        assert Contains(t, lowered[k]);
      }
    }
  }

  /** An empty input, or one ending in `&`, has an empty last keyword, which
      lets every present title through. */
  lemma EmptyKeywordMatchesAll(input: string, title: Option<string>)
    requires input == [] || input[|input| - 1] == '&'
    ensures TitleMatch(title, Keywords(input)) <==> title.Some?
  {
    var keywords := Keywords(input);
    var k := |keywords| - 1;
    var last := keywords[k];
    JoinEndsWithLast(keywords, '&');
    assert last == [];
    if title.Some? {
      ContainsEmpty(Lower(title.value));
      assert Lower(keywords[k]) == [];
      TitleMatchSpec(title, keywords);
    }
  }

  /** The text the title box starts with. */
  const DefaultTitleInput := "data&Data&générative& IA&LLM"

  /** The starting text splits into five keywords; the fourth keeps its
      leading space. */
  lemma DefaultKeywords()
    ensures Keywords(DefaultTitleInput) == ["data", "Data", "générative", " IA", "LLM"]
  {
    var parts := ["data", "Data", "générative", " IA", "LLM"];
    assert Join(parts, '&') == DefaultTitleInput;
    SplitJoin(parts, '&');
  }

  /** The starting keywords in ASCII lower case. */
  lemma DefaultKeywordsLowered()
    ensures LowerAll(["data", "Data", "générative", " IA", "LLM"]) == ["data", "data", "générative", " ia", "llm"]
  {
    LowerWord("data", "data");
    LowerWord("Data", "data");
    LowerWord("générative", "générative");
    LowerWord(" IA", " ia");
    LowerWord("LLM", "llm");
  }

  lemma LowerWord(w: string, l: string)
    requires |w| == |l| && forall i :: 0 <= i < |w| ==> LowerChar(w[i]) == l[i]
    ensures Lower(w) == l
  {
  }

  /** With the starting text, a title passes exactly when, in ASCII lower case,
      it contains "data", "générative", " ia" (with the space, so a title that
      starts with "IA" does not pass on that keyword) or "llm". */
  lemma DefaultTitleFilter(title: string)
    ensures TitleMatch(Some(title), Keywords(DefaultTitleInput)) <==>
      var t := Lower(title);
      Contains(t, "data") || Contains(t, "générative") || Contains(t, " ia") || Contains(t, "llm")
  {
    DefaultKeywords();
    StartingKeywordsMatch(title, Keywords(DefaultTitleInput));
  }

  lemma StartingKeywordsMatch(title: string, keywords: seq<string>)
    requires keywords == ["data", "Data", "générative", " IA", "LLM"]
    ensures TitleMatch(Some(title), keywords) <==>
      var t := Lower(title);
      Contains(t, "data") || Contains(t, "générative") || Contains(t, " ia") || Contains(t, "llm")
  {
    var lowered := ["data", "data", "générative", " ia", "llm"];
    DefaultKeywordsLowered();
    var t := Lower(title);
    SearchAnySpec(t, lowered);
    if Contains(t, "data") { assert Contains(t, lowered[0]); }
    if Contains(t, "générative") { assert Contains(t, lowered[2]); }
    if Contains(t, " ia") { assert Contains(t, lowered[3]); }
    if Contains(t, "llm") { assert Contains(t, lowered[4]); }
  }

  /** The full mask of one offer. */
  predicate Kept(o: Offer, sel: Selection, keywords: seq<string>) {
    CategoricalMatch(o, sel) && TitleMatch(o.intitule, keywords)
  }

  // ---------------------------------------------------------------------------
  // Filtering
  // ---------------------------------------------------------------------------

  /** The category filter followed by the title filter. The kept offers are the
      offers passing every mask, each as often as in the input, in input order. */
  function FilterOffers(offers: seq<Offer>, sel: Selection, titleInput: string): (kept: seq<Offer>)
    ensures IsSubseq(kept, offers)
    ensures forall i :: 0 <= i < |kept| ==> Kept(kept[i], sel, Keywords(titleInput))
    ensures forall o :: (multiset(kept)[o] ==
      if Kept(o, sel, Keywords(titleInput)) then multiset(offers)[o] else 0)
    ensures sel.versant == [] || sel.categorie == [] || sel.nature == [] || sel.localisation == []
      ==> kept == []
  {
    var keywords := Keywords(titleInput);
    var category := (o: Offer) => CategoricalMatch(o, sel);
    var title := (o: Offer) => TitleMatch(o.intitule, keywords);
    var both := (o: Offer) => Kept(o, sel, keywords);
    FilterTwice(category, title, both, offers);
    Filter(title, Filter(category, offers))
  }

  // ---------------------------------------------------------------------------
  // Projection and links
  // ---------------------------------------------------------------------------

  /** The five projected columns of an offer, its parsed date and its two link columns. */
  function Project(o: Offer): ViewRow {
    var url := Link(o.reference);
    ViewRow(o.organisme, o.intitule, o.localisation, ParseDayMonthYear(o.datePublication),
            o.reference, url, url)
  }

  function ProjectAll(offers: seq<Offer>): (rows: seq<ViewRow>)
    ensures |rows| == |offers|
    ensures forall i :: 0 <= i < |offers| ==> rows[i] == Project(offers[i])
  {
    seq(|offers|, i requires 0 <= i < |offers| => Project(offers[i]))
  }

  // ---------------------------------------------------------------------------
  // Sorting by publication date, newest first, NaT last
  // ---------------------------------------------------------------------------

  /** `a` may stand before `b`: `b` is undated, or both are dated and `a` is not older. */
  predicate Precedes(a: ViewRow, b: ViewRow) {
    b.published.None? ||
    (a.published.Some? && DateKey(b.published.value) <= DateKey(a.published.value))
  }

  predicate SortedByDate(rows: seq<ViewRow>) {
    forall i, j :: 0 <= i < j < |rows| ==> Precedes(rows[i], rows[j])
  }

  /** A row whose publication date is NaT. */
  predicate Undated(row: ViewRow) {
    row.published.None?
  }

  /** Inserts `x` into a sorted list, before the first row it may precede.
      An undated `x` lands in front of the undated rows already there. */
  function Insert(x: ViewRow, rows: seq<ViewRow>): (r: seq<ViewRow>)
    requires SortedByDate(rows)
    ensures SortedByDate(r)
    ensures multiset(r) == multiset(rows) + multiset{x}
    ensures Filter(Undated, r) == (if Undated(x) then [x] else []) + Filter(Undated, rows)
    decreases |rows|
  {
    if |rows| == 0 || Precedes(x, rows[0]) then
      assert ([x] + rows)[1..] == rows;
      [x] + rows
    else
      var rest := Insert(x, rows[1..]);
      InsertBehindHead(x, rows, rest);
      assert ([rows[0]] + rest)[1..] == rest;
      [rows[0]] + rest
  }

  /** When `x` goes after the head of `rows`, the head may precede every row
      of the insertion into the tail. */
  lemma InsertBehindHead(x: ViewRow, rows: seq<ViewRow>, rest: seq<ViewRow>)
    requires SortedByDate(rows) && |rows| > 0 && !Precedes(x, rows[0])
    requires SortedByDate(rest) && multiset(rest) == multiset(rows[1..]) + multiset{x}
    ensures SortedByDate([rows[0]] + rest)
    ensures multiset([rows[0]] + rest) == multiset(rows) + multiset{x}
  {
    assert rows == [rows[0]] + rows[1..];
    var r := [rows[0]] + rest;
    forall i, j | 0 <= i < j < |r|
      ensures Precedes(r[i], r[j])
    {
      var y := rest[j - 1];
      if i == 0 {
        assert y in multiset(rest);
        if y != x {
          assert y in multiset(rows[1..]);
          var k :| 0 <= k < |rows[1..]| && rows[1..][k] == y;
          assert rows[k + 1] == y;
        }
      } else {
        assert r[i] == rest[i - 1];
      }
    }
  }

  /** `sort_values(by='Date de première publication', ascending=False)`:
      a permutation of the rows, newest dates first, undated rows last. */
  function SortByDate(rows: seq<ViewRow>): (r: seq<ViewRow>)
    ensures SortedByDate(r)
    ensures multiset(r) == multiset(rows)
    decreases |rows|
  {
    if |rows| == 0 then []
    else
      assert rows == [rows[0]] + rows[1..];
      Insert(rows[0], SortByDate(rows[1..]))
  }

  /** The undated rows come out in their input order: pandas places the NaT
      positions after the sorted ones without reordering them. */
  lemma {:induction false} SortKeepsUndatedOrder(rows: seq<ViewRow>)
    ensures Filter(Undated, SortByDate(rows)) == Filter(Undated, rows)
    decreases |rows|
  {
    if |rows| > 0 {
      var head := if Undated(rows[0]) then [rows[0]] else [];
      SortKeepsUndatedOrder(rows[1..]);
      assert SortByDate(rows) == Insert(rows[0], SortByDate(rows[1..]));
      assert Filter(Undated, SortByDate(rows)) == head + Filter(Undated, rows[1..]);
      assert Filter(Undated, rows) == head + Filter(Undated, rows[1..]);
    }
  }

  // ---------------------------------------------------------------------------
  // The final table
  // ---------------------------------------------------------------------------

  /** `row` is the projection of an input offer that passes every mask. */
  predicate ComesFrom(row: ViewRow, offers: seq<Offer>, sel: Selection, keywords: seq<string>) {
    exists j :: 0 <= j < |offers| && Kept(offers[j], sel, keywords) && row == Project(offers[j])
  }

  /** The final table `main` builds for the given offers, selections and title text. */
  function View(offers: seq<Offer>, sel: Selection, titleInput: string): (out: seq<ViewRow>)
    ensures multiset(out) == multiset(ProjectAll(FilterOffers(offers, sel, titleInput)))
    ensures |out| == |FilterOffers(offers, sel, titleInput)|
    ensures forall i, j :: 0 <= i < j < |out| && out[i].published.None? ==> out[j].published.None?
    ensures forall i, j :: 0 <= i < j < |out| && out[i].published.Some? && out[j].published.Some? ==>
      DateKey(out[j].published.value) <= DateKey(out[i].published.value)
    ensures forall i :: 0 <= i < |out| ==>
      out[i].lien == Link(out[i].reference) && out[i].cliquable == out[i].lien
    ensures forall i :: 0 <= i < |out| ==> ComesFrom(out[i], offers, sel, Keywords(titleInput))
    ensures sel.versant == [] || sel.categorie == [] || sel.nature == [] || sel.localisation == []
      ==> out == []
  {
    var kept := FilterOffers(offers, sel, titleInput);
    var projected := ProjectAll(kept);
    var out := SortByDate(projected);
    SortedRowsFromKeptOffers(offers, sel, titleInput, kept, projected, out);
    out
  }

  /** The sorted projection of the kept offers has one row per kept offer,
      and each row is the projection of a kept input offer. */
  lemma SortedRowsFromKeptOffers(offers: seq<Offer>, sel: Selection, titleInput: string,
                                 kept: seq<Offer>, projected: seq<ViewRow>, out: seq<ViewRow>)
    requires kept == FilterOffers(offers, sel, titleInput)
    requires projected == ProjectAll(kept)
    requires multiset(out) == multiset(projected)
    ensures |out| == |kept|
    ensures forall i :: 0 <= i < |out| ==>
      out[i].lien == Link(out[i].reference) && out[i].cliquable == out[i].lien
    ensures forall i :: 0 <= i < |out| ==> ComesFrom(out[i], offers, sel, Keywords(titleInput))
  {
    assert |multiset(out)| == |out|;
    assert |multiset(projected)| == |projected|;
    forall i | 0 <= i < |out|
      ensures out[i] in multiset(projected)
    {
      assert out[i] in multiset(out);
    }
    KeptComeFromOffers(offers, sel, titleInput, kept);
    RowsFromKeptOffers(offers, sel, Keywords(titleInput), kept, projected, out);
  }

  lemma KeptComeFromOffers(offers: seq<Offer>, sel: Selection, titleInput: string, kept: seq<Offer>)
    requires kept == FilterOffers(offers, sel, titleInput)
    ensures forall o :: o in kept ==> o in offers
  {
    forall o | o in kept
      ensures o in offers
    {
      assert multiset(kept)[o] > 0;
    }
  }

  /** Every row of a permutation of the projected kept offers is the projection
      of some input offer that passes every mask, and carries its link twice. */
  lemma RowsFromKeptOffers(offers: seq<Offer>, sel: Selection, keywords: seq<string>,
                           kept: seq<Offer>, projected: seq<ViewRow>, out: seq<ViewRow>)
    requires forall i :: 0 <= i < |kept| ==> Kept(kept[i], sel, keywords)
    requires forall o :: o in kept ==> o in offers
    requires projected == ProjectAll(kept)
    requires forall i :: 0 <= i < |out| ==> out[i] in multiset(projected)
    ensures forall i :: 0 <= i < |out| ==>
      out[i].lien == Link(out[i].reference) && out[i].cliquable == out[i].lien
    ensures forall i :: 0 <= i < |out| ==> ComesFrom(out[i], offers, sel, keywords)
  {
    forall i | 0 <= i < |out|
      ensures ComesFrom(out[i], offers, sel, keywords)
      ensures out[i].lien == Link(out[i].reference) && out[i].cliquable == out[i].lien
    {
      assert out[i] in projected;
      var k :| 0 <= k < |projected| && projected[k] == out[i];
      assert kept[k] in kept;
      var j :| 0 <= j < |offers| && offers[j] == kept[k];
    }
  }
}
