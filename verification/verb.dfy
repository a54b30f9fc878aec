/**
  Verb extraction: the headword row and the conjugation table of a verb
  page. Every conjugated form on the page is one (pronoun, verb) pair of text
  nodes; the pairs are consumed strictly in order, a window of six (two for
  the imperative) per tense, following a fixed table of tenses.
 */
module Verb {
  import opened Wrappers
  import opened TextNodes
  import opened Records

  datatype Tense =
    | IndPrs | IndPerfcomp | IndImperf | IndPastperf | IndSimpperf
    | SubjPrs | SubjPerfcomp | Imp
    | IndFuture1 | IndFuture2 | IndFuture1pop | IndFuture2pop | IndFuture3pop
    | CondPrs | CondPerf

  /** `conj_order`: the order in which the page presents the tenses. */
  const ConjOrder: seq<Tense> :=
    [IndPrs, IndPerfcomp, IndImperf, IndPastperf, IndSimpperf, SubjPrs, SubjPerfcomp, Imp,
     IndFuture1, IndFuture2, IndFuture1pop, IndFuture2pop, IndFuture3pop, CondPrs, CondPerf]

  /** Where a tense stands in `ConjOrder`. */
  function Position(t: Tense): nat {
    match t
    case IndPrs => 0 case IndPerfcomp => 1 case IndImperf => 2 case IndPastperf => 3
    case IndSimpperf => 4 case SubjPrs => 5 case SubjPerfcomp => 6 case Imp => 7
    case IndFuture1 => 8 case IndFuture2 => 9 case IndFuture1pop => 10 case IndFuture2pop => 11
    case IndFuture3pop => 12 case CondPrs => 13 case CondPerf => 14
  }

  /** The mood key of a tense in the record. */
  function Mood(t: Tense): string {
    match t
    case SubjPrs | SubjPerfcomp => "subj"
    case Imp => "imp"
    case CondPrs | CondPerf => "cond"
    case _ => "ind"
  }

  /** The tense key below its mood; the imperative sits directly under its mood and has none. */
  function TenseName(t: Tense): string
    requires t != Imp
  {
    match t
    case IndPrs | SubjPrs | CondPrs => "prs"
    case IndPerfcomp | SubjPerfcomp => "perfcomp"
    case IndImperf => "imperf"
    case IndPastperf => "pastperf"
    case IndSimpperf => "simpperf"
    case IndFuture1 => "future1"
    case IndFuture2 => "future2"
    case IndFuture1pop => "future1pop"
    case IndFuture2pop => "future2pop"
    case IndFuture3pop => "future3pop"
    case CondPerf => "perf"
  }

  /** The `conj_order` entry: `mood.tense`, or `imp`. */
  function TenseKey(t: Tense): string {
    if t == Imp then "imp" else Mood(t) + "." + TenseName(t)
  }

  /** How many pairs a tense takes off the sequence. */
  function Take(t: Tense): nat {
    if t == Imp then 2 else 6
  }

  /** `verb_index`: which element of a pair is the verb; the other is the pronoun. */
  function VerbIndex(t: Tense): nat {
    match t
    case SubjPrs | SubjPerfcomp | Imp | IndFuture1pop | IndFuture2pop | IndFuture3pop => 0
    case _ => 1
  }

  /** The persons a tense's forms are assigned to, in page order. */
  function Persons(t: Tense): seq<string> {
    if t == Imp then ["2sg", "2pl"] else ["1sg", "2sg", "3sg", "1pl", "2pl", "3pl"]
  }

  /**
    The cursor when tense `k` of `ConjOrder` is reached: six pairs for each
    tense before it, two for the imperative (`OffsetIsConsumed` shows this is
    what the earlier tenses take off the sequence).
   */
  function Offset(k: nat): nat
    requires k <= |ConjOrder|
  {
    if k <= 7 then 6 * k else 6 * k - 4
  }

  /** What the tenses before `k` take off the sequence, added up. */
  function Consumed(k: nat): nat
    requires k <= |ConjOrder|
  {
    if k == 0 then 0 else Consumed(k - 1) + Take(ConjOrder[k - 1])
  }

  lemma TakeAt(k: nat)
    requires k < |ConjOrder|
    ensures Take(ConjOrder[k]) == if k == 7 then 2 else 6
  {
  }

  /** Reading tense `k` moves the cursor past that tense's window. */
  lemma OffsetStep(k: nat)
    requires k < |ConjOrder|
    ensures Offset(k + 1) == Offset(k) + Take(ConjOrder[k])
  {
    TakeAt(k);
  }

  /** The cursor at tense `k` is the number of pairs the tenses before it take. */
  lemma {:induction false} OffsetIsConsumed(k: nat)
    requires k <= |ConjOrder|
    ensures Offset(k) == Consumed(k)
  {
    if k > 0 {
      OffsetIsConsumed(k - 1);
      OffsetStep(k - 1);
    }
  }

  /** Every pair the table reads, all tenses together. */
  const PairsConsumed: nat := 86

  /** The text nodes the extractor reads for a verb. */
  datatype VerbCells = VerbCells(
    headwordRow: seq<string>,    // every text node of the row `tr[1]`
    pairs: seq<seq<string>>)     // the text nodes of each conjugation cell, in page order

  datatype VerbRecord = VerbRecord(
    headword: string, gerund: string, pastParticiple: string,
    conj: map<Tense, map<string, string>>)

  /** Python's clamping slice `s[lo:hi]` for `0 <= lo <= hi`. */
  function Window(pairs: seq<seq<string>>, lo: nat, hi: nat): (w: seq<seq<string>>)
    requires lo <= hi
    ensures |w| == (if hi <= |pairs| then hi - lo else if lo <= |pairs| then |pairs| - lo else 0)
    ensures forall j :: 0 <= j < |w| ==> w[j] == pairs[lo + j]
  {
    if hi <= |pairs| then pairs[lo..hi] else if lo <= |pairs| then pairs[lo..] else []
  }

  /** Element `i` of every pair of the window, trimmed; the first pair too short to index raises. */
  function VerbsOf(window: seq<seq<string>>, i: nat, cell: string): (r: Result<seq<string>, ExtractError>)
    ensures r.Success? <==> forall j :: 0 <= j < |window| ==> i < |window[j]|
    ensures r.Success? ==> |r.value| == |window| && forall j :: 0 <= j < |window| ==> r.value[j] == Trim(window[j][i])
  {
    if window == [] then Success([])
    else if |window[0]| <= i then Failure(TooFewTextNodes(cell, i + 1, |window[0]|))
    else
      match VerbsOf(window[1..], i, cell)
      case Failure(e) => Failure(e)
      case Success(rest) =>
        assert forall j :: 1 <= j < |window| ==> window[j] == window[1..][j - 1];
        Success([Trim(window[0][i])] + rest)
  }

  function Min(a: nat, b: nat): nat {
    if a <= b then a else b
  }

  /** The dictionary built from the first `n` key/value pairs, later pairs overriding earlier ones. */
  function ZipUpTo(keys: seq<string>, values: seq<string>, n: nat): map<string, string>
    requires n <= |keys| && n <= |values|
  {
    if n == 0 then map[] else ZipUpTo(keys, values, n - 1)[keys[n - 1] := values[n - 1]]
  }

  /** `dict(zip(keys, values))`: stops at the shorter list. */
  function ZipMap(keys: seq<string>, values: seq<string>): map<string, string> {
    ZipUpTo(keys, values, Min(|keys|, |values|))
  }

  /** The first `n` keys: the first `n - 1` and key `n - 1`. */
  lemma KeysStep(keys: seq<string>, n: nat)
    requires 0 < n <= |keys|
    ensures (set j | 0 <= j < n :: keys[j]) == (set j | 0 <= j < n - 1 :: keys[j]) + {keys[n - 1]}
  {
    var all := set j | 0 <= j < n :: keys[j];
    var before := set j | 0 <= j < n - 1 :: keys[j];
    forall d | d in all
      ensures d in before + {keys[n - 1]}
    {
      var j :| 0 <= j < n && keys[j] == d;
      if j < n - 1 {
        assert d in before;
      }
    }
    forall d | d in before
      ensures d in all
    {
      var j :| 0 <= j < n - 1 && keys[j] == d;
      assert d in all;
    }
  }

  /** The dictionary of the first `n` pairs has their keys, and a key not repeated later keeps its own value. */
  lemma {:induction false} ZipUpToSpec(keys: seq<string>, values: seq<string>, n: nat)
    requires n <= |keys| && n <= |values|
    ensures ZipUpTo(keys, values, n).Keys == set j | 0 <= j < n :: keys[j]
    ensures forall j :: 0 <= j < n && (forall j' :: j < j' < n ==> keys[j'] != keys[j]) ==>
              ZipUpTo(keys, values, n)[keys[j]] == values[j]
  {
    if n > 0 {
      ZipUpToSpec(keys, values, n - 1);
      KeysStep(keys, n);
      var m := ZipUpTo(keys, values, n);
      forall j | 0 <= j < n - 1 && (forall j' :: j < j' < n ==> keys[j'] != keys[j])
        ensures m[keys[j]] == values[j]
      {
        assert keys[n - 1] != keys[j];
      }
    }
  }

  /** `dict(zip(...))` has the keys of the shorter list's length, and a key not repeated later keeps its value. */
  lemma ZipMapSpec(keys: seq<string>, values: seq<string>)
    ensures var n := Min(|keys|, |values|);
            && ZipMap(keys, values).Keys == (set j | 0 <= j < n :: keys[j])
            && forall j :: 0 <= j < n && (forall j' :: j < j' < n ==> keys[j'] != keys[j]) ==>
                 ZipMap(keys, values)[keys[j]] == values[j]
  {
    ZipUpToSpec(keys, values, Min(|keys|, |values|));
  }

  /** The pairs a tense reads from `base` on each have an element at the tense's verb index. */
  ghost predicate ReadableFrom(pairs: seq<seq<string>>, t: Tense, base: nat) {
    forall n :: base <= n < base + Take(t) && n < |pairs| ==> VerbIndex(t) < |pairs[n]|
  }

  /**
    Reference statement of the forms of a tense whose window starts at
    `base`: person `j` has the verb of pair `base + j`, trimmed, exactly for
    the pairs that exist.
   */
  ghost predicate FormsFrom(pairs: seq<seq<string>>, t: Tense, base: nat, forms: map<string, string>) {
    && (forall p :: p in forms ==> p in Persons(t))
    && (forall j :: 0 <= j < |Persons(t)| ==> (Persons(t)[j] in forms <==> base + j < |pairs|))
    && (forall j :: 0 <= j < |Persons(t)| && base + j < |pairs| && VerbIndex(t) < |pairs[base + j]|
                    ==> Persons(t)[j] in forms && forms[Persons(t)[j]] == Trim(pairs[base + j][VerbIndex(t)]))
  }

  /** Tense `k` of the table can be read at its cursor position. */
  ghost predicate WindowReadable(pairs: seq<seq<string>>, k: nat)
    requires k < |ConjOrder|
  {
    ReadableFrom(pairs, ConjOrder[k], Offset(k))
  }

  /** Tense `k` of the table holds the forms of the window at its cursor position. */
  ghost predicate ConjugatedAt(pairs: seq<seq<string>>, conj: map<Tense, map<string, string>>, k: nat)
    requires k < |ConjOrder|
  {
    ConjOrder[k] in conj && FormsFrom(pairs, ConjOrder[k], Offset(k), conj[ConjOrder[k]])
  }

  lemma PositionOfConjOrder(k: nat)
    requires k < |ConjOrder|
    ensures Position(ConjOrder[k]) == k
  {
  }

  lemma ConjOrderOfPosition(t: Tense)
    ensures Position(t) < |ConjOrder| && ConjOrder[Position(t)] == t
  {
  }

  lemma PersonsDistinct(t: Tense)
    ensures |Persons(t)| == Take(t)
    ensures forall j, j' :: 0 <= j < j' < |Persons(t)| ==> Persons(t)[j] != Persons(t)[j']
  {
  }

  /** One window of the loop: the verbs of the window, zipped with the persons. */
  lemma WindowForms(pairs: seq<seq<string>>, t: Tense, base: nat, cell: string, verbs: seq<string>)
    requires VerbsOf(Window(pairs, base, base + Take(t)), VerbIndex(t), cell) == Success(verbs)
    ensures FormsFrom(pairs, t, base, ZipMap(Persons(t), verbs))
  {
    var w := Window(pairs, base, base + Take(t));
    PersonsDistinct(t);
    forall j | 0 <= j < |verbs|
      ensures base + j < |pairs| && VerbIndex(t) < |pairs[base + j]| && verbs[j] == Trim(pairs[base + j][VerbIndex(t)])
    {
      assert w[j] == pairs[base + j];
    }
    ZipForms(pairs, t, base, verbs);
  }

  /** Verbs for the persons of `t` whose pairs exist, each the trimmed verb of its pair, make the forms of `t`. */
  lemma ZipForms(pairs: seq<seq<string>>, t: Tense, base: nat, verbs: seq<string>)
    requires |verbs| == if base + |Persons(t)| <= |pairs| then |Persons(t)| else if base <= |pairs| then |pairs| - base else 0
    requires forall j :: 0 <= j < |verbs| ==>
               base + j < |pairs| && VerbIndex(t) < |pairs[base + j]| && verbs[j] == Trim(pairs[base + j][VerbIndex(t)])
    ensures FormsFrom(pairs, t, base, ZipMap(Persons(t), verbs))
  {
    PersonsDistinct(t);
    ZipDistinct(Persons(t), verbs);
  }

  /** Zipping distinct keys with no more values than keys: key `j` is present exactly when value `j` is, and maps to it. */
  lemma ZipDistinct(keys: seq<string>, values: seq<string>)
    requires |values| <= |keys|
    requires forall j, j' :: 0 <= j < j' < |keys| ==> keys[j] != keys[j']
    ensures forall p :: p in ZipMap(keys, values) ==> p in keys
    ensures forall j :: 0 <= j < |keys| ==> (keys[j] in ZipMap(keys, values) <==> j < |values|)
    ensures forall j :: 0 <= j < |values| ==> ZipMap(keys, values)[keys[j]] == values[j]
  {
    var m := ZipMap(keys, values);
    ZipMapSpec(keys, values);
    assert Min(|keys|, |values|) == |values|;
    forall p | p in m
      ensures p in keys
    {
      var j :| 0 <= j < |values| && keys[j] == p;
    }
    forall j | 0 <= j < |keys|
      ensures keys[j] in m <==> j < |values|
    {
      if j < |values| {
        assert keys[j] in m.Keys;
      } else {
        forall j' | 0 <= j' < |values|
          ensures keys[j'] != keys[j]
        {
        }
      }
    }
  }

  /** One turn of the loop: the verbs of the window of tense `t` starting at `base`, trimmed. */
  function ReadTense(pairs: seq<seq<string>>, t: Tense, base: nat): Result<seq<string>, ExtractError> {
    VerbsOf(Window(pairs, base, base + Take(t)), VerbIndex(t), "conj." + TenseKey(t))
  }

  /** The forms one successful turn of the loop stores for tense `t`. */
  function TenseForms(pairs: seq<seq<string>>, t: Tense, base: nat): map<string, string>
    requires ReadTense(pairs, t, base).Success?
  {
    ZipMap(Persons(t), ReadTense(pairs, t, base).value)
  }

  /** The same, for the verbs as the loop reads them. */
  lemma WindowFormsRead(pairs: seq<seq<string>>, t: Tense, base: nat)
    requires ReadTense(pairs, t, base).Success?
    ensures FormsFrom(pairs, t, base, TenseForms(pairs, t, base))
  {
    WindowForms(pairs, t, base, "conj." + TenseKey(t), ReadTense(pairs, t, base).value);
  }

  /** The window the cursor selects is readable exactly when the tense's pairs are. */
  lemma WindowReadableIff(pairs: seq<seq<string>>, t: Tense, base: nat)
    ensures var w := Window(pairs, base, base + Take(t));
            (forall j :: 0 <= j < |w| ==> VerbIndex(t) < |w[j]|) <==> ReadableFrom(pairs, t, base)
  {
    var w := Window(pairs, base, base + Take(t));
    if forall j :: 0 <= j < |w| ==> VerbIndex(t) < |w[j]| {
      forall n | base <= n < base + Take(t) && n < |pairs|
        ensures VerbIndex(t) < |pairs[n]|
      {
        assert w[n - base] == pairs[n];
      }
    } else {
      var j :| 0 <= j < |w| && !(VerbIndex(t) < |w[j]|);
      assert w[j] == pairs[base + j];
    }
  }

  /** Every tense from `k` on can be read at its cursor position. */
  ghost predicate ReadableFromTense(pairs: seq<seq<string>>, k: nat)
    requires k <= |ConjOrder|
    decreases |ConjOrder| - k
  {
    k == |ConjOrder| || (WindowReadable(pairs, k) && ReadableFromTense(pairs, k + 1))
  }

  /** Each tense from `k` on is readable when the table is readable from `k`. */
  lemma {:induction false} ReadableAt(pairs: seq<seq<string>>, k: nat, k': nat)
    requires k <= k' < |ConjOrder| && ReadableFromTense(pairs, k)
    ensures WindowReadable(pairs, k')
    decreases k' - k
  {
    if k < k' {
      ReadableAt(pairs, k + 1, k');
    }
  }

  /** Each tense from `k` on holds the forms of its window. */
  ghost predicate FormsFromTense(pairs: seq<seq<string>>, conj: map<Tense, map<string, string>>, k: nat)
    requires k <= |ConjOrder|
    decreases |ConjOrder| - k
  {
    k == |ConjOrder| || (ConjugatedAt(pairs, conj, k) && FormsFromTense(pairs, conj, k + 1))
  }

  /** Each tense from `k` on holds its forms when the table does from `k`. */
  lemma {:induction false} ConjugatedAtFrom(pairs: seq<seq<string>>, conj: map<Tense, map<string, string>>, k: nat, k': nat)
    requires k <= k' < |ConjOrder| && FormsFromTense(pairs, conj, k)
    ensures ConjugatedAt(pairs, conj, k')
    decreases k' - k
  {
    if k < k' {
      ConjugatedAtFrom(pairs, conj, k + 1, k');
    }
  }

  /** Replacing the forms of a tense before `k` leaves the tenses from `k` on as they were. */
  lemma {:induction false} FormsFromTenseUpdate(pairs: seq<seq<string>>, conj: map<Tense, map<string, string>>, k: nat,
                                                t: Tense, forms: map<string, string>)
    requires k <= |ConjOrder| && Position(t) < k && FormsFromTense(pairs, conj, k)
    ensures FormsFromTense(pairs, conj[t := forms], k)
    decreases |ConjOrder| - k
  {
    if k < |ConjOrder| {
      PositionOfConjOrder(k);
      assert ConjOrder[k] != t;
      FormsFromTenseUpdate(pairs, conj, k + 1, t, forms);
    }
  }

  /** Adding tense `k` in front of the tenses after it keeps what those hold. */
  lemma ConjugationsStep(pairs: seq<seq<string>>, k: nat, rest: map<Tense, map<string, string>>, forms: map<string, string>)
    requires k < |ConjOrder|
    requires FormsFromTense(pairs, rest, k + 1)
    requires FormsFrom(pairs, ConjOrder[k], Offset(k), forms)
    ensures FormsFromTense(pairs, rest[ConjOrder[k] := forms], k)
  {
    PositionOfConjOrder(k);
    FormsFromTenseUpdate(pairs, rest, k + 1, ConjOrder[k], forms);
  }

  /**
    The loop from tense `k` on, the cursor standing at `Offset(k)` (each turn
    moves it past the tense's window, `OffsetStep`): it fails exactly when a
    window cannot be read.
   */
  function Conjugations(pairs: seq<seq<string>>, k: nat): (r: Result<map<Tense, map<string, string>>, ExtractError>)
    requires k <= |ConjOrder|
    ensures r.Success? <==> ReadableFromTense(pairs, k)
    decreases |ConjOrder| - k
  {
    if k == |ConjOrder| then Success(map[])
    else
      var t := ConjOrder[k];
      WindowReadableIff(pairs, t, Offset(k));
      match ReadTense(pairs, t, Offset(k))
      case Failure(e) => Failure(e)
      case Success(verbs) =>
        match Conjugations(pairs, k + 1)
        case Failure(e) => Failure(e)
        case Success(rest) => Success(rest[t := ZipMap(Persons(t), verbs)])
  }

  /** One successful turn of the loop: tense `k`'s window was read, and so was the rest. */
  lemma ConjugationsUnfold(pairs: seq<seq<string>>, k: nat)
    requires k < |ConjOrder| && Conjugations(pairs, k).Success?
    ensures ReadTense(pairs, ConjOrder[k], Offset(k)).Success? && Conjugations(pairs, k + 1).Success?
    ensures Conjugations(pairs, k).value ==
              Conjugations(pairs, k + 1).value[ConjOrder[k] := TenseForms(pairs, ConjOrder[k], Offset(k))]
  {
  }

  /** The forms read for tense `k`, put in front of a table holding the later tenses. */
  lemma ConjugationsRead(pairs: seq<seq<string>>, k: nat, rest: map<Tense, map<string, string>>)
    requires k < |ConjOrder|
    requires ReadTense(pairs, ConjOrder[k], Offset(k)).Success?
    requires FormsFromTense(pairs, rest, k + 1)
    ensures FormsFromTense(pairs, rest[ConjOrder[k] := TenseForms(pairs, ConjOrder[k], Offset(k))], k)
  {
    WindowFormsRead(pairs, ConjOrder[k], Offset(k));
    ConjugationsStep(pairs, k, rest, TenseForms(pairs, ConjOrder[k], Offset(k)));
  }

  /** What the loop builds: every tense from `k` on, each with the forms of its window. */
  lemma {:induction false} ConjugationsTable(pairs: seq<seq<string>>, k: nat)
    requires k <= |ConjOrder|
    requires Conjugations(pairs, k).Success?
    ensures FormsFromTense(pairs, Conjugations(pairs, k).value, k)
    decreases |ConjOrder| - k
  {
    if k < |ConjOrder| {
      ConjugationsUnfold(pairs, k);
      ConjugationsTable(pairs, k + 1);
      ConjugationsRead(pairs, k, Conjugations(pairs, k + 1).value);
    }
  }

  /** `extract_verb_info`: the whole record, or the first index error; never a partial record. */
  function ExtractVerb(c: VerbCells): (r: Result<VerbRecord, ExtractError>)
    ensures r.Success? <==> |c.headwordRow| >= 6 && ReadableFromTense(c.pairs, 0)
    ensures |c.headwordRow| < 6 ==>
              r == Failure(TooFewTextNodes("headword", if |c.headwordRow| < 2 then 2 else if |c.headwordRow| < 4 then 4 else 6, |c.headwordRow|))
    ensures r.Success? ==>
              && r.value.headword == c.headwordRow[1]
              && r.value.gerund == Trim(c.headwordRow[3])
              && r.value.pastParticiple == c.headwordRow[5]
    ensures r.Success? ==> FormsFromTense(c.pairs, r.value.conj, 0)
  {
    var row := c.headwordRow;
    if |row| < 6 then
      Failure(TooFewTextNodes("headword", if |row| < 2 then 2 else if |row| < 4 then 4 else 6, |row|))
    else
      match Conjugations(c.pairs, 0)
      case Failure(e) => Failure(e)
      case Success(conj) =>
        ConjugationsTable(c.pairs, 0);
        Success(VerbRecord(row[1], Trim(row[3]), row[5], conj))
  }

  /** The whole table reads 86 pairs; the imperative reads pairs 42 and 43. */
  lemma PairsConsumedTotal()
    ensures Consumed(|ConjOrder|) == PairsConsumed
    ensures ConjOrder[7] == Imp && Consumed(7) == 42 && Consumed(8) == 44
  {
    OffsetIsConsumed(|ConjOrder|);
    OffsetIsConsumed(7);
    OffsetIsConsumed(8);
  }

  /** Tense `k` of the table reads pair `n` as its person `j`. */
  predicate ReadsPair(k: int, j: int, n: int) {
    0 <= k < |ConjOrder| && 0 <= j < Take(ConjOrder[k]) && Offset(k) + j == n
  }

  /** Every pair up to the 86th is read by exactly one tense, as exactly one person. */
  lemma EachPairReadOnce(n: nat)
    requires n < PairsConsumed
    ensures exists k, j :: ReadsPair(k, j, n)
    ensures forall k, j, k', j' :: ReadsPair(k, j, n) && ReadsPair(k', j', n) ==> k == k' && j == j'
  {
    var reader := if n < 42 then n / 6 else if n < 44 then 7 else (n + 4) / 6;
    forall k, j | ReadsPair(k, j, n)
      ensures k == reader && j == n - Offset(reader)
    {
      TakeAt(k);
    }
    TakeAt(reader);
    assert ReadsPair(reader, n - Offset(reader), n);
  }

  /** Persons of one tense as a dictionary of strings. */
  function PersonsTree(forms: map<string, string>): Tree {
    Node(map p | p in forms :: Leaf(forms[p]))
  }

  /** A tense's forms; the extractor fills every tense, so the default is never used for its records. */
  function FormsOf(r: VerbRecord, t: Tense): map<string, string> {
    if t in r.conj then r.conj[t] else map[]
  }

  const IndicativeTenses: seq<Tense> :=
    [IndPrs, IndPerfcomp, IndImperf, IndPastperf, IndFuture1, IndFuture2,
     IndFuture1pop, IndFuture2pop, IndFuture3pop, IndSimpperf]
  const SubjunctiveTenses: seq<Tense> := [SubjPrs, SubjPerfcomp]
  const ConditionalTenses: seq<Tense> := [CondPrs, CondPerf]

  /** The tenses listed under a mood with a tense level: the imperative is not among them. */
  predicate NoImperative(ts: seq<Tense>) {
    forall i :: 0 <= i < |ts| ==> ts[i] != Imp
  }

  lemma MoodListsHaveNoImperative()
    ensures NoImperative(IndicativeTenses) && NoImperative(SubjunctiveTenses) && NoImperative(ConditionalTenses)
  {
  }

  /** The dictionary of one mood: each of its tenses under the tense's name. */
  function MoodMap(r: VerbRecord, ts: seq<Tense>): map<string, Tree>
    requires NoImperative(ts)
    decreases |ts|
  {
    if ts == [] then map[]
    else MoodMap(r, ts[..|ts| - 1])[TenseName(ts[|ts| - 1]) := PersonsTree(FormsOf(r, ts[|ts| - 1]))]
  }

  function ConjTree(r: VerbRecord): Tree {
    Node(map["ind" := Node(MoodMap(r, IndicativeTenses)), "subj" := Node(MoodMap(r, SubjunctiveTenses)),
             "cond" := Node(MoodMap(r, ConditionalTenses)), "imp" := PersonsTree(FormsOf(r, Imp))])
  }

  /** The nested dictionary `verb_data` of the add-on. */
  function VerbTree(r: VerbRecord): map<string, Tree> {
    VerbFields(r.headword, r.gerund, r.pastParticiple, ConjTree(r))
  }

  function VerbFields(headword: string, gerund: string, pastParticiple: string, conj: Tree): map<string, Tree> {
    map["headword" := Leaf(headword), "gerund" := Leaf(gerund),
        "past_participle" := Leaf(pastParticiple), "conj" := conj]
  }

  /** Every tense holds only the persons of that tense. */
  predicate ProperPersons(r: VerbRecord) {
    forall t, p :: t in r.conj && p in r.conj[t] ==> p in Persons(t)
  }

  lemma ExtractedHasProperPersons(c: VerbCells)
    requires ExtractVerb(c).Success?
    ensures ProperPersons(ExtractVerb(c).value)
  {
    var r := ExtractVerb(c).value;
    assert FormsFromTense(c.pairs, r.conj, 0);
    forall t, p | t in r.conj && p in r.conj[t]
      ensures p in Persons(t)
    {
      ConjOrderOfPosition(t);
      var k := Position(t);
      ConjugatedAtFrom(c.pairs, r.conj, 0, k);
      assert FormsFrom(c.pairs, t, Offset(k), r.conj[t]);
    }
  }

  /**
    Person `j` of tense `t` is present in `forms` exactly when pair `n`
    exists, and is then the verb of that pair, trimmed.
   */
  ghost predicate PersonForm(pairs: seq<seq<string>>, t: Tense, forms: map<string, string>, j: nat, n: nat)
    requires j < |Persons(t)|
  {
    && (Persons(t)[j] in forms <==> n < |pairs|)
    && (n < |pairs| ==> VerbIndex(t) < |pairs[n]| && forms[Persons(t)[j]] == Trim(pairs[n][VerbIndex(t)]))
  }

  /**
    In an extracted record, person `j` of tense `t` is the verb of pair
    `Offset(Position(t)) + j`, trimmed, and is present exactly when that pair
    exists: a short list of pairs gives fewer persons, not an error.
   */
  lemma ExtractedForm(c: VerbCells, t: Tense, j: nat)
    requires ExtractVerb(c).Success?
    requires j < |Persons(t)|
    ensures t in ExtractVerb(c).value.conj
    ensures PersonForm(c.pairs, t, ExtractVerb(c).value.conj[t], j, Offset(Position(t)) + j)
  {
    TableForm(c.pairs, ExtractVerb(c).value.conj, t, j);
  }

  /** The same, for any table that holds the forms of every readable window. */
  lemma TableForm(pairs: seq<seq<string>>, conj: map<Tense, map<string, string>>, t: Tense, j: nat)
    requires ReadableFromTense(pairs, 0) && FormsFromTense(pairs, conj, 0)
    requires j < |Persons(t)|
    ensures t in conj
    ensures PersonForm(pairs, t, conj[t], j, Offset(Position(t)) + j)
  {
    ConjOrderOfPosition(t);
    var k := Position(t);
    ReadableAt(pairs, 0, k);
    ConjugatedAtFrom(pairs, conj, 0, k);
    FormOfPerson(pairs, t, Offset(k), conj[t], j);
  }

  lemma FormOfPerson(pairs: seq<seq<string>>, t: Tense, base: nat, forms: map<string, string>, j: nat)
    requires FormsFrom(pairs, t, base, forms) && ReadableFrom(pairs, t, base)
    requires j < |Persons(t)|
    ensures PersonForm(pairs, t, forms, j, base + j)
  {
    PersonsDistinct(t);
  }

  lemma PersonsTreeWellKeyed(r: VerbRecord, t: Tense)
    requires ProperPersons(r)
    ensures WellKeyed(PersonsTree(FormsOf(r, t)))
  {
    PersonsAreKeys(t);
  }

  lemma PersonsAreKeys(t: Tense)
    ensures forall p :: p in Persons(t) ==> p != "" && '.' !in p
  {
  }

  lemma TenseNameIsKey(t: Tense)
    requires t != Imp
    ensures TenseName(t) != "" && '.' !in TenseName(t)
  {
  }

  lemma {:induction false} MoodMapWellKeyed(r: VerbRecord, ts: seq<Tense>)
    requires ProperPersons(r)
    requires NoImperative(ts)
    ensures WellKeyed(Node(MoodMap(r, ts)))
    decreases |ts|
  {
    if ts != [] {
      var t := ts[|ts| - 1];
      MoodMapWellKeyed(r, ts[..|ts| - 1]);
      TenseNameIsKey(t);
      PersonsTreeWellKeyed(r, t);
    }
  }

  lemma ConjTreeWellKeyed(r: VerbRecord)
    requires ProperPersons(r)
    ensures WellKeyed(ConjTree(r))
  {
    MoodMapWellKeyed(r, IndicativeTenses);
    MoodMapWellKeyed(r, SubjunctiveTenses);
    MoodMapWellKeyed(r, ConditionalTenses);
    PersonsTreeWellKeyed(r, Imp);
    MoodsWellKeyed(Node(MoodMap(r, IndicativeTenses)), Node(MoodMap(r, SubjunctiveTenses)),
                   Node(MoodMap(r, ConditionalTenses)), PersonsTree(FormsOf(r, Imp)));
  }

  /** The four moods under their keys make a well-keyed dictionary. */
  lemma MoodsWellKeyed(ind: Tree, subj: Tree, cond: Tree, imp: Tree)
    requires WellKeyed(ind) && WellKeyed(subj) && WellKeyed(cond) && WellKeyed(imp)
    ensures WellKeyed(Node(map["ind" := ind, "subj" := subj, "cond" := cond, "imp" := imp]))
  {
    var m0: map<string, Tree> := map[];
    WellKeyedInsert(m0, "ind", ind);
    WellKeyedInsert(m0["ind" := ind], "subj", subj);
    WellKeyedInsert(m0["ind" := ind]["subj" := subj], "cond", cond);
    WellKeyedInsert(m0["ind" := ind]["subj" := subj]["cond" := cond], "imp", imp);
  }

  lemma VerbFieldsWellKeyed(headword: string, gerund: string, pastParticiple: string, conj: Tree)
    requires WellKeyed(conj)
    ensures WellKeyed(Node(VerbFields(headword, gerund, pastParticiple, conj)))
  {
    var m0: map<string, Tree> := map[];
    var h, g, pp := Leaf(headword), Leaf(gerund), Leaf(pastParticiple);
    WellKeyedInsert(m0, "headword", h);
    WellKeyedInsert(m0["headword" := h], "gerund", g);
    WellKeyedInsert(m0["headword" := h]["gerund" := g], "past_participle", pp);
    WellKeyedInsert(m0["headword" := h]["gerund" := g]["past_participle" := pp], "conj", conj);
  }

  lemma VerbTreeWellKeyed(r: VerbRecord)
    requires ProperPersons(r)
    ensures WellKeyed(Node(VerbTree(r)))
  {
    ConjTreeWellKeyed(r);
    VerbFieldsWellKeyed(r.headword, r.gerund, r.pastParticiple, ConjTree(r));
  }

  /** The flat record of the verb: `flatten(extract_verb_info(...))`. */
  function VerbInfo(r: VerbRecord): (m: map<string, string>)
    requires ProperPersons(r)
    ensures "headword" in m && m["headword"] == r.headword
    ensures "gerund" in m && m["gerund"] == r.gerund
    ensures "past_participle" in m && m["past_participle"] == r.pastParticiple
  {
    VerbTreeWellKeyed(r);
    WellKeyedHasUniquePaths(VerbTree(r));
    VerbFieldsTop(r.headword, r.gerund, r.pastParticiple, ConjTree(r));
    Flatten(VerbTree(r))
  }

  /** The flat record of the verb an extraction yields. */
  function ExtractedInfo(c: VerbCells): map<string, string>
    requires ExtractVerb(c).Success?
  {
    ExtractedHasProperPersons(c);
    VerbInfo(ExtractVerb(c).value)
  }

  lemma VerbFieldsTop(headword: string, gerund: string, pastParticiple: string, conj: Tree)
    requires UniquePaths(VerbFields(headword, gerund, pastParticiple, conj))
    ensures var m := Flatten(VerbFields(headword, gerund, pastParticiple, conj));
      && "headword" in m && m["headword"] == headword
      && "gerund" in m && m["gerund"] == gerund
      && "past_participle" in m && m["past_participle"] == pastParticiple
  {
    var d := VerbFields(headword, gerund, pastParticiple, conj);
    assert d["headword"] == Leaf(headword);
    assert d["gerund"] == Leaf(gerund);
    assert d["past_participle"] == Leaf(pastParticiple);
  }

  /** The tenses of the mood a tense belongs to, as the record lists them. */
  function MoodTenses(t: Tense): (ts: seq<Tense>)
    requires t != Imp
    ensures NoImperative(ts)
  {
    match t
    case SubjPrs | SubjPerfcomp => SubjunctiveTenses
    case CondPrs | CondPerf => ConditionalTenses
    case _ => IndicativeTenses
  }

  lemma {:induction false} MoodMapLookup(r: VerbRecord, ts: seq<Tense>, t: Tense)
    requires NoImperative(ts) && t in ts
    requires forall i :: 0 <= i < |ts| && TenseName(ts[i]) == TenseName(t) ==> ts[i] == t
    ensures TenseName(t) in MoodMap(r, ts) && MoodMap(r, ts)[TenseName(t)] == PersonsTree(FormsOf(r, t))
    decreases |ts|
  {
    var last := ts[|ts| - 1];
    if last != t {
      assert TenseName(last) != TenseName(t);
      assert t in ts[..|ts| - 1];
      MoodMapLookup(r, ts[..|ts| - 1], t);
    }
  }

  /** Each tense is listed in its mood, and no other tense of that mood has its name. */
  lemma MoodTensesNameTense(t: Tense)
    requires t != Imp
    ensures t in MoodTenses(t)
    ensures forall i :: 0 <= i < |MoodTenses(t)| && TenseName(MoodTenses(t)[i]) == TenseName(t) ==> MoodTenses(t)[i] == t
  {
    var ts := MoodTenses(t);
    forall i | 0 <= i < |ts| && TenseName(ts[i]) == TenseName(t)
      ensures ts[i] == t
    {
      MoodTensesMood(t, i);
      TenseNameInjective(ts[i], t);
    }
  }

  lemma MoodTensesMood(t: Tense, i: nat)
    requires t != Imp && i < |MoodTenses(t)|
    ensures Mood(MoodTenses(t)[i]) == Mood(t)
  {
  }

  /** Within a mood, the tense name tells the tense. */
  lemma TenseNameInjective(a: Tense, b: Tense)
    requires a != Imp && b != Imp && Mood(a) == Mood(b) && TenseName(a) == TenseName(b)
    ensures a == b
  {
  }

  /** Every tense but the imperative sits in the record under its mood. */
  lemma ConjMood(r: VerbRecord, t: Tense)
    requires t != Imp
    ensures Mood(t) in ConjTree(r).children
    ensures ConjTree(r).children[Mood(t)] == Node(MoodMap(r, MoodTenses(t)))
  {
    MoodListsHaveNoImperative();
    if t == SubjPrs || t == SubjPerfcomp {
      assert Mood(t) == "subj" && MoodTenses(t) == SubjunctiveTenses;
      MoodUnder(r, "subj", SubjunctiveTenses);
    } else if t == CondPrs || t == CondPerf {
      assert Mood(t) == "cond" && MoodTenses(t) == ConditionalTenses;
      MoodUnder(r, "cond", ConditionalTenses);
    } else {
      assert Mood(t) == "ind" && MoodTenses(t) == IndicativeTenses;
      MoodUnder(r, "ind", IndicativeTenses);
    }
  }

  /** A mood with a tense level sits in the record under its key. */
  lemma MoodUnder(r: VerbRecord, mood: string, ts: seq<Tense>)
    requires (mood, ts) in [("ind", IndicativeTenses), ("subj", SubjunctiveTenses), ("cond", ConditionalTenses)]
    requires NoImperative(ts)
    ensures mood in ConjTree(r).children && ConjTree(r).children[mood] == Node(MoodMap(r, ts))
  {
  }

  /** ... then under its name. */
  lemma ConjSubtree(r: VerbRecord, t: Tense, p: string)
    requires t != Imp && p in FormsOf(r, t)
    ensures Reach(ConjTree(r), [Mood(t), TenseName(t), p]) == Some(Leaf(FormsOf(r, t)[p]))
  {
    MoodTensesNameTense(t);
    MoodMapLookup(r, MoodTenses(t), t);
    ConjMood(r, t);
    PersonReach(FormsOf(r, t), p);
    ReachStep(MoodMap(r, MoodTenses(t)), TenseName(t), [p]);
    assert [TenseName(t)] + [p] == [TenseName(t), p];
    ReachStep(ConjTree(r).children, Mood(t), [TenseName(t), p]);
    assert [Mood(t)] + [TenseName(t), p] == [Mood(t), TenseName(t), p];
  }

  lemma PersonReach(forms: map<string, string>, p: string)
    requires p in forms
    ensures Reach(PersonsTree(forms), [p]) == Some(Leaf(forms[p]))
  {
    ReachStep(PersonsTree(forms).children, p, []);
    assert [p] + [] == [p];
  }

  /** The imperative sits in the record directly under its mood. */
  lemma ImperativeSubtree(r: VerbRecord, p: string)
    requires p in FormsOf(r, Imp)
    ensures Reach(ConjTree(r), ["imp", p]) == Some(Leaf(FormsOf(r, Imp)[p]))
  {
    var ks := ["imp", p];
    assert ks[1..] == [p];
    assert Reach(PersonsTree(FormsOf(r, Imp)), [p]) == Some(Leaf(FormsOf(r, Imp)[p]));
  }

  lemma ReachConj(headword: string, gerund: string, pastParticiple: string, conj: Tree, ks: seq<string>)
    ensures Reach(Node(VerbFields(headword, gerund, pastParticiple, conj)), ["conj"] + ks) == Reach(conj, ks)
  {
    assert (["conj"] + ks)[1..] == ks;
  }

  /** The key path of a form in the record, and its dot-join. */
  function FormPath(t: Tense, p: string): (ks: seq<string>)
    ensures ks != [] && ks[0] == "conj"
    ensures Dotted(ks) == "conj." + TenseKey(t) + "." + p
  {
    if t == Imp then
      DottedThree("conj", "imp", p);
      ["conj", "imp", p]
    else
      DottedFour("conj", Mood(t), TenseName(t), p);
      ["conj", Mood(t), TenseName(t), p]
  }

  lemma FormPathReaches(r: VerbRecord, t: Tense, p: string)
    requires p in FormsOf(r, t)
    ensures Reach(Node(VerbTree(r)), FormPath(t, p)) == Some(Leaf(FormsOf(r, t)[p]))
  {
    var ks: seq<string>;
    if t == Imp {
      ImperativeSubtree(r, p);
      ks := ["imp", p];
    } else {
      ConjSubtree(r, t, p);
      ks := [Mood(t), TenseName(t), p];
    }
    assert FormPath(t, p) == ["conj"] + ks;
    ReachConj(r.headword, r.gerund, r.pastParticiple, ConjTree(r), ks);
  }

  /**
    Every conjugated form reaches the note under the field `conj.<mood>.<tense>.<person>`
    (`conj.imp.<person>` for the imperative), unchanged.
   */
  lemma ConjFormField(r: VerbRecord, t: Tense, p: string)
    requires ProperPersons(r)
    requires p in FormsOf(r, t)
    ensures var key := "conj." + TenseKey(t) + "." + p;
      key in VerbInfo(r) && VerbInfo(r)[key] == FormsOf(r, t)[p]
  {
    FlatForm(r, t, p);
    assert VerbInfo(r) == Flatten(VerbTree(r));
  }

  lemma FlatForm(r: VerbRecord, t: Tense, p: string)
    requires ProperPersons(r)
    requires p in FormsOf(r, t)
    ensures UniquePaths(VerbTree(r))
    ensures Dotted(FormPath(t, p)) in Flatten(VerbTree(r)) && Flatten(VerbTree(r))[Dotted(FormPath(t, p))] == FormsOf(r, t)[p]
  {
    VerbTreeWellKeyed(r);
    WellKeyedHasUniquePaths(VerbTree(r));
    FormPathReaches(r, t, p);
    FlattenKeepsLeavesDotted(VerbTree(r), FormPath(t, p), FormsOf(r, t)[p]);
  }
}
