/**
  Noun extraction: one candidate noun of a dictionary page, read from the
  text nodes of its cells at fixed offsets, as the nested record the add-on
  builds and then flattens.

  Locating the cells is left to the HTML library; the model receives each
  cell's text nodes (`findAll(text=True)`), in document order and untrimmed.
 */
module Noun {
  import opened Wrappers
  import opened TextNodes
  import opened Records

  /** The text nodes of one candidate's cells. */
  datatype NounCells = NounCells(
    headwordCell: seq<string>,       // every text node of the headword cell `tr[1]/td[1]`
    singularTexts: seq<string>,      // text nodes of `b[1]/font/font` in that cell
    pluralText: string,              // the text of `b[2]` in that cell
    indefiniteSingular: seq<string>, // text nodes of the four declension cells
    indefinitePlural: seq<string>,
    definiteSingular: seq<string>,
    definitePlural: seq<string>)

  /** The four case forms, in the order the page lists them. */
  datatype Declension = Declension(nominative: string, genitive: string, dative: string, accusative: string) {
    /** Case index 0..3: nominative, genitive, dative, accusative. */
    function Case(i: nat): string
      requires i < 4
    {
      if i == 0 then nominative else if i == 1 then genitive else if i == 2 then dative else accusative
    }
  }

  datatype NounRecord = NounRecord(
    singular: string, plural: string, gender: string,
    indefiniteSingular: Declension, indefinitePlural: Declension,
    definiteSingular: Declension, definitePlural: Declension)

  /** First text node holding a case form: every other node after it holds the next case. */
  const IndefiniteSingularBase: nat := 3
  const IndefinitePluralBase: nat := 2
  const DefiniteSingularBase: nat := 3
  const DefinitePluralBase: nat := 3

  /** The four forms of one cell, case `i` at text node `base + 2 * i`. */
  function ReadDeclension(cell: string, texts: seq<string>, base: nat): (r: Result<Declension, ExtractError>)
    ensures r.Success? <==> base + 6 < |texts|
    ensures r.Success? ==> forall i :: 0 <= i < 4 ==> r.value.Case(i) == texts[base + 2 * i]
    ensures r.Failure? ==> r.error == TooFewTextNodes(cell, base + 7, |texts|)
  {
    if base + 6 < |texts| then
      Success(Declension(texts[base], texts[base + 2], texts[base + 4], texts[base + 6]))
    else
      Failure(TooFewTextNodes(cell, base + 7, |texts|))
  }

  /** `extract_noun_info`: the whole record, or the first index error; never a partial record. */
  function ExtractNoun(c: NounCells): (r: Result<NounRecord, ExtractError>)
    ensures r.Success? <==>
              && |c.headwordCell| >= 1 && |c.singularTexts| >= 2
              && |c.indefiniteSingular| >= 10 && |c.indefinitePlural| >= 9
              && |c.definiteSingular| >= 10 && |c.definitePlural| >= 10
    ensures r.Success? ==>
              && r.value.singular == c.singularTexts[1]
              && r.value.plural == StripSlashPrefix(c.pluralText)
              && r.value.gender == Trim(c.headwordCell[|c.headwordCell| - 1])
    ensures r.Success? ==> forall i :: 0 <= i < 4 ==>
              && r.value.indefiniteSingular.Case(i) == c.indefiniteSingular[3 + 2 * i]
              && r.value.indefinitePlural.Case(i) == c.indefinitePlural[2 + 2 * i]
              && r.value.definiteSingular.Case(i) == c.definiteSingular[3 + 2 * i]
              && r.value.definitePlural.Case(i) == c.definitePlural[3 + 2 * i]
    ensures |c.headwordCell| == 0 ==> r == Failure(TooFewTextNodes("headword", 1, 0))
  {
    if |c.headwordCell| == 0 then Failure(TooFewTextNodes("headword", 1, 0))
    else if |c.singularTexts| < 2 then Failure(TooFewTextNodes("headword.singular", 2, |c.singularTexts|))
    else
      var genderText := c.headwordCell[|c.headwordCell| - 1];
      var indefiniteSingular :- ReadDeclension("declensions.indefinite.singular", c.indefiniteSingular, IndefiniteSingularBase);
      var indefinitePlural :- ReadDeclension("declensions.indefinite.plural", c.indefinitePlural, IndefinitePluralBase);
      var definiteSingular :- ReadDeclension("declensions.definite.singular", c.definiteSingular, DefiniteSingularBase);
      var definitePlural :- ReadDeclension("declensions.definite.plural", c.definitePlural, DefinitePluralBase);
      Success(NounRecord(c.singularTexts[1], StripSlashPrefix(c.pluralText), Trim(genderText),
                         indefiniteSingular, indefinitePlural, definiteSingular, definitePlural))
  }

  function DeclensionTree(d: Declension): Tree {
    Node(map["nominative" := Leaf(d.nominative), "genitive" := Leaf(d.genitive),
             "dative" := Leaf(d.dative), "accusative" := Leaf(d.accusative)])
  }

  /** The singular and plural declensions under one article. */
  function NumberTree(singular: Declension, plural: Declension): Tree {
    Node(map["singular" := DeclensionTree(singular), "plural" := DeclensionTree(plural)])
  }

  function HeadwordTree(r: NounRecord): Tree {
    Node(map["singular" := Leaf(r.singular), "plural" := Leaf(r.plural), "gender" := Leaf(r.gender)])
  }

  function DeclensionsTree(r: NounRecord): Tree {
    Node(map["indefinite" := NumberTree(r.indefiniteSingular, r.indefinitePlural),
             "definite" := NumberTree(r.definiteSingular, r.definitePlural)])
  }

  /** The nested dictionary `noun_data` of the add-on. */
  function NounTree(r: NounRecord): map<string, Tree> {
    map["headword" := HeadwordTree(r), "declensions" := DeclensionsTree(r)]
  }

  lemma DeclensionTreeWellKeyed(d: Declension)
    ensures WellKeyed(DeclensionTree(d))
  {
    var m0: map<string, Tree> := map[];
    var n, g, da, a := Leaf(d.nominative), Leaf(d.genitive), Leaf(d.dative), Leaf(d.accusative);
    WellKeyedInsert(m0, "nominative", n);
    WellKeyedInsert(m0["nominative" := n], "genitive", g);
    WellKeyedInsert(m0["nominative" := n]["genitive" := g], "dative", da);
    WellKeyedInsert(m0["nominative" := n]["genitive" := g]["dative" := da], "accusative", a);
  }

  lemma NumberTreeWellKeyed(singular: Declension, plural: Declension)
    ensures WellKeyed(NumberTree(singular, plural))
  {
    DeclensionTreeWellKeyed(singular);
    DeclensionTreeWellKeyed(plural);
    assert NumberTree(singular, plural).children.Keys == {"singular", "plural"};
  }

  lemma HeadwordTreeWellKeyed(r: NounRecord)
    ensures WellKeyed(HeadwordTree(r))
  {
    assert HeadwordTree(r).children.Keys == {"singular", "plural", "gender"};
  }

  lemma DeclensionsTreeWellKeyed(r: NounRecord)
    ensures WellKeyed(DeclensionsTree(r))
  {
    NumberTreeWellKeyed(r.indefiniteSingular, r.indefinitePlural);
    NumberTreeWellKeyed(r.definiteSingular, r.definitePlural);
    assert DeclensionsTree(r).children.Keys == {"indefinite", "definite"};
  }

  lemma NounTreeWellKeyed(r: NounRecord)
    ensures WellKeyed(Node(NounTree(r)))
  {
    HeadwordTreeWellKeyed(r);
    DeclensionsTreeWellKeyed(r);
    assert NounTree(r).Keys == {"headword", "declensions"};
  }

  /** The flat record of one candidate: `flatten(extract_noun_info(...))`. */
  function NounInfo(r: NounRecord): (m: map<string, string>)
    ensures "headword.singular" in m && m["headword.singular"] == r.singular
  {
    NounTreeWellKeyed(r);
    WellKeyedHasUniquePaths(NounTree(r));
    NounSearchKey(r);
    Flatten(NounTree(r))
  }

  lemma NounSearchKey(r: NounRecord)
    requires UniquePaths(NounTree(r))
    ensures "headword.singular" in Flatten(NounTree(r))
    ensures Flatten(NounTree(r))["headword.singular"] == r.singular
  {
    var ks := ["headword", "singular"];
    assert Reach(HeadwordTree(r), ks[1..]) == Some(Leaf(r.singular));
    assert Reach(Node(NounTree(r)), ks) == Some(Leaf(r.singular));
    FlattenKeepsLeavesDotted(NounTree(r), ks, r.singular);
    SearchKeyDotted();
  }

  /** The case names of a declension, in case-index order. */
  function CaseKey(i: nat): string
    requires i < 4
  {
    if i == 0 then "nominative" else if i == 1 then "genitive" else if i == 2 then "dative" else "accusative"
  }

  function ArticleKey(definite: bool): string {
    if definite then "definite" else "indefinite"
  }

  function NumberKey(plural: bool): string {
    if plural then "plural" else "singular"
  }

  /** The declension a record holds for an article and a number. */
  function DeclensionOf(r: NounRecord, definite: bool, plural: bool): Declension {
    if definite then (if plural then r.definitePlural else r.definiteSingular)
    else (if plural then r.indefinitePlural else r.indefiniteSingular)
  }

  /** The field name of one case form: `declensions.<article>.<number>.<case>`. */
  function DeclensionField(definite: bool, plural: bool, i: nat): string
    requires i < 4
  {
    "declensions." + ArticleKey(definite) + "." + NumberKey(plural) + "." + CaseKey(i)
  }

  lemma DeclensionReach(d: Declension, i: nat)
    requires i < 4
    ensures Reach(DeclensionTree(d), [CaseKey(i)]) == Some(Leaf(d.Case(i)))
  {
    ReachStep(DeclensionTree(d).children, CaseKey(i), []);
    assert [CaseKey(i)] + [] == [CaseKey(i)];
  }

  lemma NumberReach(singular: Declension, plural: Declension, isPlural: bool, i: nat)
    requires i < 4
    ensures Reach(NumberTree(singular, plural), [NumberKey(isPlural), CaseKey(i)]) ==
              Some(Leaf((if isPlural then plural else singular).Case(i)))
  {
    var d := if isPlural then plural else singular;
    DeclensionReach(d, i);
    ReachStep(NumberTree(singular, plural).children, NumberKey(isPlural), [CaseKey(i)]);
    assert [NumberKey(isPlural)] + [CaseKey(i)] == [NumberKey(isPlural), CaseKey(i)];
  }

  lemma DeclensionsReach(r: NounRecord, definite: bool, plural: bool, i: nat)
    requires i < 4
    ensures Reach(Node(NounTree(r)), ["declensions", ArticleKey(definite), NumberKey(plural), CaseKey(i)]) ==
              Some(Leaf(DeclensionOf(r, definite, plural).Case(i)))
  {
    var ks := [NumberKey(plural), CaseKey(i)];
    if definite {
      NumberReach(r.definiteSingular, r.definitePlural, plural, i);
    } else {
      NumberReach(r.indefiniteSingular, r.indefinitePlural, plural, i);
    }
    ReachStep(DeclensionsTree(r).children, ArticleKey(definite), ks);
    ReachStep(NounTree(r), "declensions", [ArticleKey(definite)] + ks);
    assert [ArticleKey(definite)] + ks == [ArticleKey(definite), NumberKey(plural), CaseKey(i)];
    assert ["declensions"] + ([ArticleKey(definite)] + ks) == ["declensions", ArticleKey(definite), NumberKey(plural), CaseKey(i)];
  }

  lemma DeclensionFieldDotted(definite: bool, plural: bool, i: nat)
    requires i < 4
    ensures Dotted(["declensions", ArticleKey(definite), NumberKey(plural), CaseKey(i)]) == DeclensionField(definite, plural, i)
  {
    DottedFour("declensions", ArticleKey(definite), NumberKey(plural), CaseKey(i));
    assert "declensions" + "." == "declensions.";
  }

  /**
    Every case form of the record reaches the flat record, unchanged, under
    `declensions.<article>.<number>.<case>`.
   */
  lemma NounDeclensionField(r: NounRecord, definite: bool, plural: bool, i: nat)
    requires i < 4
    ensures DeclensionField(definite, plural, i) in NounInfo(r)
    ensures NounInfo(r)[DeclensionField(definite, plural, i)] == DeclensionOf(r, definite, plural).Case(i)
  {
    NounTreeWellKeyed(r);
    WellKeyedHasUniquePaths(NounTree(r));
    var ks := ["declensions", ArticleKey(definite), NumberKey(plural), CaseKey(i)];
    DeclensionsReach(r, definite, plural, i);
    FlattenKeepsLeavesDotted(NounTree(r), ks, DeclensionOf(r, definite, plural).Case(i));
    DeclensionFieldDotted(definite, plural, i);
    assert NounInfo(r) == Flatten(NounTree(r));
  }

  /** The plural and the gender reach the flat record under `headword.plural` and `headword.gender`. */
  lemma NounHeadwordFields(r: NounRecord)
    ensures "headword.plural" in NounInfo(r) && NounInfo(r)["headword.plural"] == r.plural
    ensures "headword.gender" in NounInfo(r) && NounInfo(r)["headword.gender"] == r.gender
  {
    HeadwordKeysDotted();
    NounHeadwordField(r, "plural", r.plural);
    NounHeadwordField(r, "gender", r.gender);
  }

  lemma NounHeadwordField(r: NounRecord, k: string, v: string)
    requires k in HeadwordTree(r).children && HeadwordTree(r).children[k] == Leaf(v)
    ensures Dotted(["headword", k]) in NounInfo(r) && NounInfo(r)[Dotted(["headword", k])] == v
  {
    NounTreeWellKeyed(r);
    WellKeyedHasUniquePaths(NounTree(r));
    HeadwordReach(r, k, v);
    FlattenKeepsLeavesDotted(NounTree(r), ["headword", k], v);
    assert NounInfo(r) == Flatten(NounTree(r));
  }

  lemma HeadwordReach(r: NounRecord, k: string, v: string)
    requires k in HeadwordTree(r).children && HeadwordTree(r).children[k] == Leaf(v)
    ensures Reach(Node(NounTree(r)), ["headword", k]) == Some(Leaf(v))
  {
    ReachStep(HeadwordTree(r).children, k, []);
    assert [k] + [] == [k];
    ReachStep(NounTree(r), "headword", [k]);
    assert ["headword"] + [k] == ["headword", k];
  }

  lemma HeadwordKeysDotted()
    ensures Dotted(["headword", "plural"]) == "headword.plural"
    ensures Dotted(["headword", "gender"]) == "headword.gender"
  {
    DottedTwo("headword", "plural");
    DottedTwo("headword", "gender");
  }

  lemma SearchKeyDotted()
    ensures Dotted(["headword", "singular"]) == "headword.singular"
  {
    DottedTwo("headword", "singular");
  }
}
