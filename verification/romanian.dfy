/**
  Comparison of Romanian words.

  Romanian texts write the letters s-comma and t-comma either with a comma
  below (U+0218..U+021B) or with a cedilla (U+015E, U+015F, U+0162, U+0163).
  The add-on rewrites the four cedilla letters to their comma-below forms by
  four successive `str.replace` calls and then compares exactly.
 */
module Romanian {

  /** Upper-case S with cedilla and its comma-below counterpart. */
  const UpperSCedilla: char := '\U{015E}'
  const UpperSComma: char := '\U{0218}'
  const LowerSCedilla: char := '\U{015F}'
  const LowerSComma: char := '\U{0219}'
  const UpperTCedilla: char := '\U{0162}'
  const UpperTComma: char := '\U{021A}'
  const LowerTCedilla: char := '\U{0163}'
  const LowerTComma: char := '\U{021B}'

  /**
    The replacement table. The add-on keeps it in a Python 2 dictionary,
    whose iteration order is unspecified; `ReplaceAllAnyOrder` shows the
    order does not matter.
   */
  const Replacements: seq<(char, char)> :=
    [(UpperSCedilla, UpperSComma), (LowerSCedilla, LowerSComma),
     (UpperTCedilla, UpperTComma), (LowerTCedilla, LowerTComma)]

  predicate IsCedillaLetter(c: char) {
    c == UpperSCedilla || c == LowerSCedilla || c == UpperTCedilla || c == LowerTCedilla
  }

  /** Reference definition: the canonical form of one character. */
  function CanonicalChar(c: char): char {
    if c == UpperSCedilla then UpperSComma
    else if c == LowerSCedilla then LowerSComma
    else if c == UpperTCedilla then UpperTComma
    else if c == LowerTCedilla then LowerTComma
    else c
  }

  /** `s.replace(search, replacement)` for a one-character search string. */
  function Replace(s: string, search: char, replacement: char): (r: string)
    ensures |r| == |s|
    ensures forall i :: 0 <= i < |s| ==> r[i] == (if s[i] == search then replacement else s[i])
  {
    if s == [] then []
    else [if s[0] == search then replacement else s[0]] + Replace(s[1..], search, replacement)
  }

  /** The replacement loop: each table entry in turn replaces its letter throughout the text. */
  function ReplaceAll(s: string, table: seq<(char, char)>): string
    decreases |table|
  {
    if table == [] then s
    else ReplaceAll(Replace(s, table[0].0, table[0].1), table[1..])
  }

  /** What the replacement loop does to a single character. */
  function ReplaceCharAll(c: char, table: seq<(char, char)>): char
    decreases |table|
  {
    if table == [] then c
    else ReplaceCharAll(if c == table[0].0 then table[0].1 else c, table[1..])
  }

  /** The canonical spelling the add-on compares: the four replacements applied to `s`. */
  function Canonical(s: string): (r: string)
    ensures |r| == |s|
    ensures forall i :: 0 <= i < |s| ==> r[i] == CanonicalChar(s[i])
  {
    ReplaceAllCharwise(s, Replacements);
    forall i | 0 <= i < |s|
      ensures ReplaceCharAll(s[i], Replacements) == CanonicalChar(s[i])
    {
      TableCharIsCanonical(s[i], Replacements);
      if s[i] == UpperSCedilla { assert Replacements[0].0 == s[i]; }
      else if s[i] == LowerSCedilla { assert Replacements[1].0 == s[i]; }
      else if s[i] == UpperTCedilla { assert Replacements[2].0 == s[i]; }
      else if s[i] == LowerTCedilla { assert Replacements[3].0 == s[i]; }
    }
    ReplaceAll(s, Replacements)
  }

  /**
    `compare_romanian_words`: exact equality after canonicalising both words,
    that is, equally long and equal letter by letter up to cedilla/comma.
   */
  function WordsEqual(a: string, b: string): (r: bool)
    ensures r <==> |a| == |b| && forall i :: 0 <= i < |a| ==> CanonicalChar(a[i]) == CanonicalChar(b[i])
  {
    CanonicalEqualCharwise(a, b);
    Canonical(a) == Canonical(b)
  }

  /** The loop over the table acts on each character independently. */
  lemma {:induction false} ReplaceAllCharwise(s: string, table: seq<(char, char)>)
    ensures |ReplaceAll(s, table)| == |s|
    ensures forall i :: 0 <= i < |s| ==> ReplaceAll(s, table)[i] == ReplaceCharAll(s[i], table)
    decreases |table|
  {
    if table != [] {
      var s' := Replace(s, table[0].0, table[0].1);
      ReplaceAllCharwise(s', table[1..]);
    }
  }

  /**
    Whatever order the table's entries are visited in, as long as only the
    four replacements occur, a character ends as `CanonicalChar` of itself
    when its cedilla letter is visited and unchanged otherwise.
   */
  lemma {:induction false} TableCharIsCanonical(c: char, table: seq<(char, char)>)
    requires forall j :: 0 <= j < |table| ==> table[j] in Replacements
    ensures ReplaceCharAll(c, table) ==
              (if exists j :: 0 <= j < |table| && table[j].0 == c then CanonicalChar(c) else c)
    decreases |table|
  {
    if table != [] {
      assert table[0] in Replacements;
      var c' := if c == table[0].0 then table[0].1 else c;
      TableCharIsCanonical(c', table[1..]);
      if c == table[0].0 {
        // c' is a comma-below letter, which no later entry touches.
        assert !(exists j :: 0 <= j < |table[1..]| && table[1..][j].0 == c');
      } else {
        assert (exists j :: 0 <= j < |table| && table[j].0 == c) <==>
               (exists j :: 0 <= j < |table[1..]| && table[1..][j].0 == c) by {
          forall j | 0 <= j < |table| && table[j].0 == c
            ensures 1 <= j && table[1..][j - 1].0 == c
          {
          }
        }
      }
    }
  }

  /** The order the dictionary happens to yield its four items in is irrelevant. */
  lemma ReplaceAllAnyOrder(s: string, table: seq<(char, char)>)
    requires |table| == 4
    requires forall j :: 0 <= j < |table| ==> table[j] in Replacements
    requires forall p :: p in Replacements ==> p in table
    ensures ReplaceAll(s, table) == Canonical(s)
  {
    ReplaceAllCharwise(s, table);
    forall i | 0 <= i < |s|
      ensures ReplaceAll(s, table)[i] == Canonical(s)[i]
    {
      TableCharIsCanonical(s[i], table);
      if IsCedillaLetter(s[i]) {
        var p := (s[i], CanonicalChar(s[i]));
        assert p in Replacements;
        var j :| 0 <= j < |table| && table[j] == p;
      }
    }
  }

  /** Canonicalisation only rewrites the four cedilla letters and leaves none behind. */
  lemma CanonicalTouchesOnlyCedillas(s: string)
    ensures forall i :: 0 <= i < |s| && !IsCedillaLetter(s[i]) ==> Canonical(s)[i] == s[i]
    ensures forall i :: 0 <= i < |s| ==> !IsCedillaLetter(Canonical(s)[i])
  {
  }

  lemma CanonicalIdempotent(s: string)
    ensures Canonical(Canonical(s)) == Canonical(s)
  {
  }

  /** Both directions: the canonical forms agree iff the words are equally long and agree letter by letter. */
  lemma CanonicalEqualCharwise(a: string, b: string)
    ensures Canonical(a) == Canonical(b) <==>
              |a| == |b| && forall i :: 0 <= i < |a| ==> CanonicalChar(a[i]) == CanonicalChar(b[i])
  {
    if |a| == |b| && forall i :: 0 <= i < |a| ==> CanonicalChar(a[i]) == CanonicalChar(b[i]) {
      assert forall i :: 0 <= i < |a| ==> Canonical(a)[i] == Canonical(b)[i];
    }
  }

  /** The comparison is an equivalence relation. */
  lemma WordsEqualIsEquivalence(a: string, b: string, c: string)
    ensures WordsEqual(a, a)
    ensures WordsEqual(a, b) == WordsEqual(b, a)
    ensures WordsEqual(a, b) && WordsEqual(b, c) ==> WordsEqual(a, c)
  {
  }

  lemma WordsEqualCanonical(s: string)
    ensures WordsEqual(Canonical(s), s)
  {
    CanonicalIdempotent(s);
  }

  /** The comparison does not fold case, not even for the letters it canonicalises. */
  lemma WordsEqualIsCaseSensitive()
    ensures !WordsEqual("a", "A")
    ensures !WordsEqual([LowerSCedilla], [UpperSComma])
    ensures WordsEqual([LowerSCedilla], [LowerSComma])
  {
    assert Canonical("a")[0] == 'a';
    assert Canonical("A")[0] == 'A';
    assert Canonical([LowerSCedilla])[0] == LowerSComma;
    assert Canonical([UpperSComma])[0] == UpperSComma;
    assert Canonical([LowerSComma]) == [LowerSComma];
  }
}
