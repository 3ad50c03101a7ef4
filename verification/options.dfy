/** The option lists of the four multiselect widgets and their default
    selections. */
module Options {
  import opened Wrappers
  import opened Seqs
  import opened Text

  /** `series.dropna().unique().tolist()`: the present values of a column, each
      once, in the order of their first appearance. */
  function UniqueValues(column: seq<Option<string>>): (r: seq<string>)
    ensures NoDuplicates(r)
    ensures forall v :: v in r <==> Some(v) in column
    ensures forall i, j :: 0 <= i < j < |r| ==>
      FirstIndex(column, Some(r[i])) < FirstIndex(column, Some(r[j]))
    decreases |column|
  {
    if |column| == 0 then []
    else
      var prefix := column[..|column| - 1];
      var u := UniqueValues(prefix);
      assert column == prefix + [column[|column| - 1]];
      FirstIndexExtend(prefix, column[|column| - 1]);
      match column[|column| - 1]
      case None => u
      case Some(v) =>
        if v in u then u
        else
          assert FirstIndex(column, Some(v)) == |prefix|;
          u + [v]
  }

  /** Appending an element does not move the first occurrence of anything already present. */
  lemma FirstIndexExtend<T>(s: seq<T>, x: T)
    ensures forall y :: y in s ==> FirstIndex(s + [x], y) == FirstIndex(s, y)
    ensures x !in s ==> FirstIndex(s + [x], x) == |s|
  {
    forall y | y in s
      ensures FirstIndex(s + [x], y) == FirstIndex(s, y)
    {
      var k := FirstIndex(s, y);
      var k' := FirstIndex(s + [x], y);
      assert (s + [x])[k] == y;
    }
  }

  /** The option list is determined by its three properties: any list with no
      duplicates, the same values, and first-appearance order equals it. */
  lemma UniqueValuesCharacterised(column: seq<Option<string>>, r: seq<string>)
    requires NoDuplicates(r)
    requires forall v :: v in r <==> Some(v) in column
    requires forall i, j :: 0 <= i < j < |r| ==>
      FirstIndex(column, Some(r[i])) < FirstIndex(column, Some(r[j]))
    ensures r == UniqueValues(column)
  {
    var u := UniqueValues(column);
    var key := (v: string) => if Some(v) in column then FirstIndex(column, Some(v)) else |column|;
    StrictlyOrderedUnique(key, r, u);
  }

  // ---------------------------------------------------------------------------
  // Default selections
  // ---------------------------------------------------------------------------

  /** Markers of the Île-de-France default: `re.search(r'Paris|91|92|93|94|95|77|78', l)`. */
  const IleDeFranceMarkers := ["Paris", "91", "92", "93", "94", "95", "77", "78"]

  /** The options containing `needle`, in option order: the shape of the
      Versant, Catégorie and Nature defaults. */
  function OptionsContaining(options: seq<string>, needle: string): (r: seq<string>)
    ensures IsSubseq(r, options)
    ensures forall v :: v in r <==> v in options && Contains(v, needle)
    ensures forall v :: multiset(r)[v] == if Contains(v, needle) then multiset(options)[v] else 0
  {
    var p := (v: string) => Contains(v, needle);
    forall v ensures v in Filter(p, options) <==> v in options && p(v) {
      FilterMembership(p, options, v);
    }
    Filter(p, options)
  }

  /** Default Versant: the options containing "Etat". */
  function DefaultVersant(options: seq<string>): seq<string> {
    OptionsContaining(options, "Etat")
  }

  /** Default Catégorie: the options containing "Catégorie A". */
  function DefaultCategorie(options: seq<string>): seq<string> {
    OptionsContaining(options, "Catégorie A")
  }

  /** Default Nature de l'emploi: the options containing "itulaire" (Titulaire, titulaire). */
  function DefaultNature(options: seq<string>): seq<string> {
    OptionsContaining(options, "itulaire")
  }

  /** Default Localisation: the options mentioning Paris or one of the
      department numbers 91, 92, 93, 94, 95, 77, 78 anywhere in the text. */
  function DefaultLocalisation(options: seq<string>): (r: seq<string>)
    ensures IsSubseq(r, options)
    ensures forall v :: v in r <==> (v in options && MentionsIleDeFrance(v))
    ensures forall v :: multiset(r)[v] == if MentionsIleDeFrance(v) then multiset(options)[v] else 0
  {
    var p := (v: string) => MentionsIleDeFrance(v);
    forall v ensures v in Filter(p, options) <==> v in options && p(v) {
      FilterMembership(p, options, v);
    }
    Filter(p, options)
  }

  /** The regex search of the Localisation default. */
  predicate MentionsIleDeFrance(v: string) {
    SearchAny(v, IleDeFranceMarkers)
  }

  /** The Localisation default keeps exactly the labels containing one of the markers. */
  lemma MentionsIleDeFranceSpec(v: string)
    ensures MentionsIleDeFrance(v) <==>
      exists k :: 0 <= k < |IleDeFranceMarkers| && Contains(v, IleDeFranceMarkers[k])
  {
    SearchAnySpec(v, IleDeFranceMarkers);
  }
}
