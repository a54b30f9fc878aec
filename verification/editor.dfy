/**
  The editor action: read the search word off the note, fetch and extract
  every candidate record on the page, choose one of them (on its own when the
  headwords settle it, otherwise by asking the user) and copy the chosen
  record's strings into the note's fields of the same name.

  The user's answer is an input: `answer` is what the user would click if
  asked, `None` for Cancel. A decision reports the words shown to the user,
  if any question was asked.
 */
module Editor {
  import opened Wrappers
  import opened Romanian
  import opened TextNodes
  import opened Page
  import opened Noun
  import opened Verb

  /** A note: its field names and their contents. */
  type Note = map<string, string>

  /** One flattened candidate record. */
  type Info = map<string, string>

  datatype InsertError =
    | MissingNoteField(field: string)   // the note has no field for the search key
    | NoCandidates                      // the page yielded no record at all
    | MissingSearchKey(candidate: nat)  // a candidate record lacks the search key
    | UnknownChoice(choice: string)     // the answer is not one of the words shown
    | PageFailure(page: PageError)
    | ExtractFailure(extract: ExtractError)

  datatype Selection = Selected(info: Info) | Cancelled

  datatype Decision = Decision(selection: Selection, asked: Option<set<string>>)

  /** The candidate's headword is the user's word, up to cedilla and comma. */
  predicate Matches(info: Info, key: string, word: string) {
    key in info && WordsEqual(info[key], word)
  }

  /** Every candidate has the search key. */
  predicate AllKeyed(infos: seq<Info>, key: string) {
    forall j :: 0 <= j < |infos| ==> key in infos[j]
  }

  /** The words the user is shown: the headwords of all candidates. */
  function Headwords(infos: seq<Info>, key: string): set<string>
    requires AllKeyed(infos, key)
  {
    set j | 0 <= j < |infos| :: infos[j][key]
  }

  /**
    The comparison in the add-on's loop, from candidate `i` on: the first candidate
    that matches, or none; reading a candidate without the search key fails.
   */
  function Scan(infos: seq<Info>, key: string, word: string, i: nat): (r: Result<Option<nat>, InsertError>)
    requires i <= |infos|
    ensures r.Success? && r.value.Some? ==>
              var m := r.value.value;
              i <= m < |infos| && Matches(infos[m], key, word) &&
              forall j :: i <= j < m ==> key in infos[j] && !Matches(infos[j], key, word)
    ensures r.Success? && r.value.None? ==>
              forall j :: i <= j < |infos| ==> key in infos[j] && !Matches(infos[j], key, word)
    ensures r.Failure? ==>
              r.error.MissingSearchKey? && i <= r.error.candidate < |infos| && key !in infos[r.error.candidate] &&
              forall j :: i <= j < r.error.candidate ==> key in infos[j] && !Matches(infos[j], key, word)
    decreases |infos| - i
  {
    if i == |infos| then Success(None)
    else if key !in infos[i] then Failure(MissingSearchKey(i))
    else if WordsEqual(infos[i][key], word) then Success(Some(i))
    else Scan(infos, key, word, i + 1)
  }

  /** The headword dictionary of the first `n` candidates: a later candidate with the same headword replaces an earlier one. */
  function KeyedUpTo(infos: seq<Info>, key: string, n: nat): (m: map<string, Info>)
    requires n <= |infos| && AllKeyed(infos, key)
    ensures m.Keys == set j | 0 <= j < n :: infos[j][key]
    ensures forall j :: 0 <= j < n && (forall j' :: j < j' < n ==> infos[j'][key] != infos[j][key]) ==>
              m[infos[j][key]] == infos[j]
  {
    if n == 0 then map[]
    else
      var prev := KeyedUpTo(infos, key, n - 1);
      KeyedStep(infos, key, n, prev);
      prev[infos[n - 1][key] := infos[n - 1]]
  }

  /** One step of the dictionary comprehension: candidate `n - 1` is entered last. */
  lemma KeyedStep(infos: seq<Info>, key: string, n: nat, prev: map<string, Info>)
    requires 0 < n <= |infos| && AllKeyed(infos, key)
    requires prev.Keys == set j | 0 <= j < n - 1 :: infos[j][key]
    requires forall j :: 0 <= j < n - 1 && (forall j' :: j < j' < n - 1 ==> infos[j'][key] != infos[j][key]) ==>
               prev[infos[j][key]] == infos[j]
    ensures var m := prev[infos[n - 1][key] := infos[n - 1]];
            && m.Keys == (set j | 0 <= j < n :: infos[j][key])
            && forall j :: 0 <= j < n && (forall j' :: j < j' < n ==> infos[j'][key] != infos[j][key]) ==>
                 m[infos[j][key]] == infos[j]
  {
    var m := prev[infos[n - 1][key] := infos[n - 1]];
    HeadwordsStep(infos, key, n);
    forall j | 0 <= j < n - 1 && (forall j' :: j < j' < n ==> infos[j'][key] != infos[j][key])
      ensures m[infos[j][key]] == infos[j]
    {
      assert infos[n - 1][key] != infos[j][key];
    }
  }

  /** The headwords of the first `n` candidates: those of the first `n - 1` and candidate `n - 1`'s. */
  lemma HeadwordsStep(infos: seq<Info>, key: string, n: nat)
    requires 0 < n <= |infos| && AllKeyed(infos, key)
    ensures (set j | 0 <= j < n :: infos[j][key]) == (set j | 0 <= j < n - 1 :: infos[j][key]) + {infos[n - 1][key]}
  {
    var all := set j | 0 <= j < n :: infos[j][key];
    var before := set j | 0 <= j < n - 1 :: infos[j][key];
    forall d | d in all
      ensures d in before + {infos[n - 1][key]}
    {
      var j :| 0 <= j < n && infos[j][key] == d;
      if j < n - 1 {
        assert d in before;
      }
    }
    forall d | d in before
      ensures d in all
    {
      var j :| 0 <= j < n - 1 && infos[j][key] == d;
      assert d in all;
    }
  }

  /** The first candidate without the search key, if any. */
  function FirstUnkeyed(infos: seq<Info>, key: string, i: nat): (r: Option<nat>)
    requires i <= |infos|
    ensures r.None? <==> forall j :: i <= j < |infos| ==> key in infos[j]
    ensures r.Some? ==> i <= r.value < |infos| && key !in infos[r.value] &&
                        forall j :: i <= j < r.value ==> key in infos[j]
    decreases |infos| - i
  {
    if i == |infos| then None
    else if key !in infos[i] then Some(i)
    else FirstUnkeyed(infos, key, i + 1)
  }

  /** Candidate `j` is the last one carrying its headword. */
  predicate LastOfHeadword(infos: seq<Info>, key: string, j: nat)
    requires j < |infos| && AllKeyed(infos, key)
  {
    forall j' :: j < j' < |infos| ==> infos[j'][key] != infos[j][key]
  }

  /** The dictionary of candidates by headword; building it reads every candidate's search key. */
  function KeyedResults(infos: seq<Info>, key: string): (r: Result<map<string, Info>, InsertError>)
    ensures r.Success? <==> AllKeyed(infos, key)
    ensures r.Success? ==> r.value.Keys == Headwords(infos, key)
    ensures r.Success? ==> forall d :: d in r.value ==>
              exists j :: 0 <= j < |infos| && r.value[d] == infos[j] && infos[j][key] == d
    ensures r.Success? ==> forall j :: 0 <= j < |infos| && LastOfHeadword(infos, key, j) ==>
              r.value[infos[j][key]] == infos[j]
    ensures r.Failure? ==> r.error.MissingSearchKey? && r.error.candidate < |infos| && key !in infos[r.error.candidate]
  {
    match FirstUnkeyed(infos, key, 0)
    case Some(j) => Failure(MissingSearchKey(j))
    case None =>
      var m := KeyedUpTo(infos, key, |infos|);
      forall d | d in m
        ensures exists j :: 0 <= j < |infos| && m[d] == infos[j] && infos[j][key] == d
      {
        LastWithHeadword(infos, key, d);
      }
      Success(m)
  }

  /** Among the candidates with a given headword, the last one is the one the dictionary keeps. */
  lemma LastWithHeadword(infos: seq<Info>, key: string, d: string)
    requires AllKeyed(infos, key)
    requires d in Headwords(infos, key)
    ensures exists j :: 0 <= j < |infos| && KeyedUpTo(infos, key, |infos|)[d] == infos[j] && infos[j][key] == d
  {
    var j :| 0 <= j < |infos| && infos[j][key] == d;
    while exists j' :: j < j' < |infos| && infos[j'][key] == d
      invariant 0 <= j < |infos| && infos[j][key] == d
      decreases |infos| - j
    {
      var later :| j < later < |infos| && infos[later][key] == d;
      j := later;
    }
  }

  /**
    The selection of `download_and_insert_info` as written: the question is
    inside the loop, so it is put as soon as the first candidate does not
    match, and a later matching candidate still replaces the user's pick.
   */
  function SelectAsWritten(infos: seq<Info>, key: string, word: string, answer: Option<string>): (r: Result<Decision, InsertError>)
    ensures |infos| == 0 ==> r == Failure(NoCandidates)
    ensures |infos| == 1 ==> r == Success(Decision(Selected(infos[0]), None))
    ensures |infos| > 1 && Matches(infos[0], key, word) ==> r == Success(Decision(Selected(infos[0]), None))
    ensures |infos| > 1 && AllKeyed(infos, key) && !Matches(infos[0], key, word) ==>
              r.Success? ==> r.value.asked == Some(Headwords(infos, key))
    ensures AllKeyed(infos, key) && r.Failure? ==> r.error == NoCandidates || r.error.UnknownChoice?
    ensures r.Success? && r.value.selection.Selected? ==> r.value.selection.info in infos
  {
    if |infos| == 0 then Failure(NoCandidates)
    else if |infos| == 1 then Success(Decision(Selected(infos[0]), None))
    else if key !in infos[0] then Failure(MissingSearchKey(0))
    else if WordsEqual(infos[0][key], word) then Success(Decision(Selected(infos[0]), None))
    else
      match KeyedResults(infos, key)
      case Failure(e) => Failure(e)
      case Success(keyed) =>
        match answer
        case None => Success(Decision(Cancelled, Some(keyed.Keys)))
        case Some(d) =>
          if d !in keyed then Failure(UnknownChoice(d))
          else
            match Scan(infos, key, word, 1)
            case Failure(e) => Failure(e)
            case Success(later) =>
              var chosen := if later.Some? then infos[later.value] else keyed[d];
              Success(Decision(Selected(chosen), Some(keyed.Keys)))
  }

  /**
    The selection the comments of `download_and_insert_info` describe: look
    for a matching candidate first and ask the user only when none matches.
   */
  function SelectIntended(infos: seq<Info>, key: string, word: string, answer: Option<string>): (r: Result<Decision, InsertError>)
    ensures |infos| == 0 ==> r == Failure(NoCandidates)
    ensures |infos| == 1 ==> r == Success(Decision(Selected(infos[0]), None))
    ensures r.Success? && r.value.selection.Selected? ==> r.value.selection.info in infos
  {
    if |infos| == 0 then Failure(NoCandidates)
    else if |infos| == 1 then Success(Decision(Selected(infos[0]), None))
    else
      match Scan(infos, key, word, 0)
      case Failure(e) => Failure(e)
      case Success(found) =>
        if found.Some? then Success(Decision(Selected(infos[found.value]), None))
        else
          match KeyedResults(infos, key)
          case Failure(e) => Failure(e)
          case Success(keyed) =>
            match answer
            case None => Success(Decision(Cancelled, Some(keyed.Keys)))
            case Some(d) =>
              if d !in keyed then Failure(UnknownChoice(d))
              else Success(Decision(Selected(keyed[d]), Some(keyed.Keys)))
  }

  /** The scan stops at the first matching candidate when every candidate before it has the search key. */
  lemma {:induction false} ScanFindsFirst(infos: seq<Info>, key: string, word: string, i: nat, j: nat)
    requires i <= j < |infos| && Matches(infos[j], key, word)
    requires forall j' :: i <= j' < j ==> key in infos[j'] && !Matches(infos[j'], key, word)
    ensures Scan(infos, key, word, i) == Success(Some(j))
    decreases j - i
  {
    if i < j {
      ScanFindsFirst(infos, key, word, i + 1, j);
    }
  }

  /** Some candidate matches the user's word. */
  predicate AnyMatch(infos: seq<Info>, key: string, word: string) {
    exists j :: 0 <= j < |infos| && Matches(infos[j], key, word)
  }

  /**
    With several candidates that all carry the search key, the corrected
    selection asks exactly when no candidate matches, and otherwise takes
    the first one that does.
   */
  lemma IntendedAsksOnlyWithoutMatch(infos: seq<Info>, key: string, word: string, answer: Option<string>)
    requires |infos| > 1 && AllKeyed(infos, key)
    ensures SelectIntended(infos, key, word, answer).Success? || answer.Some?
    ensures var r := SelectIntended(infos, key, word, answer);
      r.Success? ==> (r.value.asked.Some? <==> !AnyMatch(infos, key, word))
    ensures var r := SelectIntended(infos, key, word, answer);
      r.Success? && r.value.asked.Some? ==> r.value.asked == Some(Headwords(infos, key))
    ensures AnyMatch(infos, key, word) ==>
      exists j :: 0 <= j < |infos| && Matches(infos[j], key, word) &&
        (forall j' :: 0 <= j' < j ==> !Matches(infos[j'], key, word)) &&
        SelectIntended(infos, key, word, answer) == Success(Decision(Selected(infos[j]), None))
  {
  }

  /**
    Whenever the user is asked, the corrected selection returns the user's
    pick (the last candidate of that headword); Cancel selects nothing.
   */
  lemma IntendedHonoursAnswer(infos: seq<Info>, key: string, word: string, answer: Option<string>)
    requires |infos| > 1 && AllKeyed(infos, key) && !AnyMatch(infos, key, word)
    ensures answer.None? ==> SelectIntended(infos, key, word, answer) == Success(Decision(Cancelled, Some(Headwords(infos, key))))
    ensures answer.Some? && answer.value !in Headwords(infos, key) ==>
              SelectIntended(infos, key, word, answer) == Failure(UnknownChoice(answer.value))
    ensures answer.Some? && answer.value in Headwords(infos, key) ==>
              var r := SelectIntended(infos, key, word, answer);
              r.Success? && r.value.selection.Selected? && r.value.selection.info[key] == answer.value
    ensures forall j :: 0 <= j < |infos| && LastOfHeadword(infos, key, j) && answer == Some(infos[j][key]) ==>
              SelectIntended(infos, key, word, answer) == Success(Decision(Selected(infos[j]), Some(Headwords(infos, key))))
  {
  }

  /**
    As written, a question is asked whenever the first candidate does not
    match, even if a later one does; the user's pick is then replaced by the
    first later candidate that matches.
   */
  lemma AsWrittenLaterMatchOverridesPick(infos: seq<Info>, key: string, word: string, d: string, j: nat)
    requires |infos| > 1 && AllKeyed(infos, key) && !Matches(infos[0], key, word)
    requires d in Headwords(infos, key)
    requires 0 < j < |infos| && Matches(infos[j], key, word)
    requires forall j' :: 0 < j' < j ==> !Matches(infos[j'], key, word)
    ensures SelectAsWritten(infos, key, word, Some(d)) == Success(Decision(Selected(infos[j]), Some(Headwords(infos, key))))
  {
    ScanFindsFirst(infos, key, word, 1, j);
  }

  /**
    As written, cancelling the question discards the candidates even when a
    later one matches the user's word.
   */
  lemma AsWrittenCancelIgnoresMatch(infos: seq<Info>, key: string, word: string)
    requires |infos| > 1 && AllKeyed(infos, key) && !Matches(infos[0], key, word)
    ensures SelectAsWritten(infos, key, word, None) == Success(Decision(Cancelled, Some(Headwords(infos, key))))
  {
  }

  /** The two selections agree when the first candidate matches and when none does. */
  lemma SelectionsAgreeWithoutLaterMatch(infos: seq<Info>, key: string, word: string, answer: Option<string>)
    requires AllKeyed(infos, key)
    requires (|infos| > 0 && Matches(infos[0], key, word)) || !AnyMatch(infos, key, word)
    ensures SelectAsWritten(infos, key, word, answer) == SelectIntended(infos, key, word, answer)
  {
  }

  /** Two candidates whose second one is the user's word. */
  const ExampleInfos: seq<Info> := [map["headword" := "a"], map["headword" := "b"]]

  /**
    On `ExampleInfos` with the word "b", the selection as written asks the
    user and cancelling inserts nothing; the corrected one takes the second
    candidate without a question.
   */
  lemma AsWrittenAsksDespiteMatch()
    ensures SelectAsWritten(ExampleInfos, "headword", "b", None) == Success(Decision(Cancelled, Some({"a", "b"})))
    ensures SelectAsWritten(ExampleInfos, "headword", "b", Some("a")) ==
              Success(Decision(Selected(ExampleInfos[1]), Some({"a", "b"})))
    ensures SelectIntended(ExampleInfos, "headword", "b", None) == Success(Decision(Selected(ExampleInfos[1]), None))
  {
    assert !WordsEqual("a", "b") by {
      assert "a"[0] != "b"[0];
    }
    assert WordsEqual("b", "b");
    assert Headwords(ExampleInfos, "headword") == {"a", "b"} by {
      assert ExampleInfos[0]["headword"] == "a" && ExampleInfos[1]["headword"] == "b";
    }
    AsWrittenCancelIgnoresMatch(ExampleInfos, "headword", "b");
    AsWrittenLaterMatchOverridesPick(ExampleInfos, "headword", "b", "a", 1);
  }

  /** The field write: each record key that is also a field of the note overwrites that field; other record keys are skipped. */
  function ApplyFields(note: Note, info: Info): (r: Note)
    ensures r.Keys == note.Keys
    ensures forall f :: f in note && f in info ==> r[f] == info[f]
    ensures forall f :: f in note && f !in info ==> r[f] == note[f]
  {
    map f | f in note :: if f in info then info[f] else note[f]
  }

  /** The field write is the record laid over the note, cut back to the note's own fields. */
  lemma ApplyFieldsIsRestrictedUnion(note: Note, info: Info)
    ensures ApplyFields(note, info) == map f | f in note :: (note + info)[f]
  {
  }

  /** Writing the same record twice changes nothing more. */
  lemma ApplyFieldsIdempotent(note: Note, info: Info)
    ensures ApplyFields(ApplyFields(note, info), info) == ApplyFields(note, info)
  {
  }

  /** A record without any of the note's fields leaves the note as it was. */
  lemma ApplyFieldsDisjoint(note: Note, info: Info)
    requires forall f :: f in note ==> f !in info
    ensures ApplyFields(note, info) == note
  {
  }

  datatype Outcome = Outcome(note: Note, asked: Option<set<string>>)

  /**
    `download_and_insert_info` once the candidates are in hand: look up the
    search word, select, and write the selected record into the note; a
    cancelled question leaves the note untouched.
   */
  function InsertInfo(note: Note, key: string, infos: seq<Info>, answer: Option<string>): (r: Result<Outcome, InsertError>)
    ensures key !in note ==> r == Failure(MissingNoteField(key))
    ensures r.Success? ==> r.value.note.Keys == note.Keys
    ensures key in note ==>
              var s := SelectAsWritten(infos, key, note[key], answer);
              (r.Success? <==> s.Success?) &&
              (r.Success? ==> r.value.asked == s.value.asked &&
                              r.value.note == (if s.value.selection.Cancelled? then note
                                               else ApplyFields(note, s.value.selection.info)))
    ensures r.Success? ==> r.value.note == note || exists info :: info in infos && r.value.note == ApplyFields(note, info)
  {
    if key !in note then Failure(MissingNoteField(key))
    else
      var d :- SelectAsWritten(infos, key, note[key], answer);
      match d.selection
      case Cancelled => Success(Outcome(note, d.asked))
      case Selected(info) => Success(Outcome(ApplyFields(note, info), d.asked))
  }

  /**
    The same action with the corrected selection: when several candidates
    carry the search key and one of them matches the note's word, the first
    such candidate is written and no question is asked.
   */
  function InsertInfoCorrected(note: Note, key: string, infos: seq<Info>, answer: Option<string>): (r: Result<Outcome, InsertError>)
    ensures key !in note ==> r == Failure(MissingNoteField(key))
    ensures r.Success? ==> r.value.note.Keys == note.Keys
    ensures key in note && |infos| > 1 && AllKeyed(infos, key) && AnyMatch(infos, key, note[key]) ==>
              exists j :: 0 <= j < |infos| && Matches(infos[j], key, note[key]) &&
                r == Success(Outcome(ApplyFields(note, infos[j]), None))
  {
    if key !in note then Failure(MissingNoteField(key))
    else
      var word := note[key];
      assert |infos| > 1 && AllKeyed(infos, key) && AnyMatch(infos, key, word) ==>
               exists j :: 0 <= j < |infos| && Matches(infos[j], key, word) &&
                 SelectIntended(infos, key, word, answer) == Success(Decision(Selected(infos[j]), None)) by {
        if |infos| > 1 && AllKeyed(infos, key) {
          IntendedAsksOnlyWithoutMatch(infos, key, word, answer);
        }
      }
      var d :- SelectIntended(infos, key, note[key], answer);
      match d.selection
      case Cancelled => Success(Outcome(note, d.asked))
      case Selected(info) => Success(Outcome(ApplyFields(note, info), d.asked))
  }

  /** The single candidate is written without a comparison and without a question. */
  lemma InsertSingleCandidate(note: Note, key: string, info: Info, answer: Option<string>)
    requires key in note
    ensures InsertInfo(note, key, [info], answer) == Success(Outcome(ApplyFields(note, info), None))
  {
  }

  /** Every noun record, in page order; the first one that cannot be read fails the whole page. */
  function ExtractNouns(cells: seq<NounCells>): (r: Result<seq<NounRecord>, ExtractError>)
    ensures r.Success? <==> forall j :: 0 <= j < |cells| ==> ExtractNoun(cells[j]).Success?
    ensures r.Success? ==>
              |r.value| == |cells| && forall j :: 0 <= j < |cells| ==> r.value[j] == ExtractNoun(cells[j]).value
    ensures r.Failure? ==>
              exists j :: 0 <= j < |cells| && ExtractNoun(cells[j]).Failure? && r.error == ExtractNoun(cells[j]).error &&
                forall j' :: 0 <= j' < j ==> ExtractNoun(cells[j']).Success?
  {
    if cells == [] then Success([])
    else
      var first :- ExtractNoun(cells[0]);
      var rest :- ExtractNouns(cells[1..]);
      assert forall j :: 1 <= j < |cells| ==> cells[j] == cells[1..][j - 1];
      Success([first] + rest)
  }

  /** The search key of the noun action. */
  const NounSearchField := "headword.singular"

  /** The search key of the verb action. */
  const VerbSearchField := "headword"

  /**
    The noun action: `page` is the downloaded page and `cells` the text
    nodes of each noun table found in its marked part.
   */
  function InsertNoun(note: Note, page: string, cells: seq<NounCells>, answer: Option<string>): (r: Result<Outcome, InsertError>)
    ensures NounSearchField !in note ==> r == Failure(MissingNoteField(NounSearchField))
    ensures NounSearchField in note && ParserInput(page).Failure? ==> r == Failure(PageFailure(NoMarkedText))
    ensures r.Success? ==> r.value.note.Keys == note.Keys
    ensures r.Failure? ==> !r.error.MissingSearchKey?
    ensures r.Success? ==>
              && ExtractNouns(cells).Success?
              && (r.value.note == note ||
                  exists j :: 0 <= j < |cells| && r.value.note == ApplyFields(note, NounInfo(ExtractNouns(cells).value[j])))
  {
    if NounSearchField !in note then Failure(MissingNoteField(NounSearchField))
    else if ParserInput(page).Failure? then Failure(PageFailure(ParserInput(page).error))
    else
      match ExtractNouns(cells)
      case Failure(e) => Failure(ExtractFailure(e))
      case Success(records) =>
        var infos := NounInfos(records);
        var r := InsertInfo(note, NounSearchField, infos, answer);
        if r.Success? then
          WrittenNoun(note, records, r.value.note);
          r
        else r
  }

  /** The flat records of the nouns, in page order; each carries the search key. */
  function NounInfos(records: seq<NounRecord>): (infos: seq<Info>)
    ensures |infos| == |records| && AllKeyed(infos, NounSearchField)
    ensures forall j :: 0 <= j < |records| ==> infos[j] == NounInfo(records[j])
  {
    seq(|records|, j requires 0 <= j < |records| => NounInfo(records[j]))
  }

  /** A note written with one of the flat noun records was written with the record of some noun. */
  lemma WrittenNoun(note: Note, records: seq<NounRecord>, written: Note)
    requires written == note || exists info :: info in NounInfos(records) && written == ApplyFields(note, info)
    ensures written == note || exists j :: 0 <= j < |records| && written == ApplyFields(note, NounInfo(records[j]))
  {
    if written != note {
      var info :| info in NounInfos(records) && written == ApplyFields(note, info);
      var j :| 0 <= j < |records| && NounInfos(records)[j] == info;
    }
  }

  /**
    With a single noun on the page, the noun action writes every case form of
    the record into the note field of the same name, if the note has it.
   */
  lemma InsertNounWritesDeclension(note: Note, page: string, c: NounCells, answer: Option<string>,
                                   definite: bool, plural: bool, i: nat)
    requires NounSearchField in note && ParserInput(page).Success? && ExtractNoun(c).Success?
    requires i < 4 && DeclensionField(definite, plural, i) in note
    ensures InsertNoun(note, page, [c], answer).Success?
    ensures InsertNoun(note, page, [c], answer).value.note[DeclensionField(definite, plural, i)] ==
              DeclensionOf(ExtractNoun(c).value, definite, plural).Case(i)
  {
    var record := ExtractNoun(c).value;
    assert ExtractNouns([c]).value == [record];
    assert NounInfos([record]) == [NounInfo(record)];
    InsertSingleCandidate(note, NounSearchField, NounInfo(record), answer);
    NounDeclensionField(record, definite, plural, i);
  }

  /**
    The verb action: one conjugation table per page, so the record is
    written without a comparison and without a question.
   */
  function InsertVerb(note: Note, page: string, cells: VerbCells): (r: Result<Outcome, InsertError>)
    ensures VerbSearchField !in note ==> r == Failure(MissingNoteField(VerbSearchField))
    ensures VerbSearchField in note && ParserInput(page).Failure? ==> r == Failure(PageFailure(NoMarkedText))
    ensures VerbSearchField in note && ParserInput(page).Success? ==>
              (r.Success? <==> ExtractVerb(cells).Success?)
    ensures r.Success? ==> r.value.asked.None? && r.value.note.Keys == note.Keys
    ensures r.Success? ==> ExtractVerb(cells).Success? && r.value.note == ApplyFields(note, ExtractedInfo(cells))
    ensures r.Success? && "gerund" in note ==> r.value.note["gerund"] == ExtractVerb(cells).value.gerund
  {
    if VerbSearchField !in note then Failure(MissingNoteField(VerbSearchField))
    else if ParserInput(page).Failure? then Failure(PageFailure(ParserInput(page).error))
    else
      match ExtractVerb(cells)
      case Failure(e) => Failure(ExtractFailure(e))
      case Success(record) =>
        InsertSingleCandidate(note, VerbSearchField, ExtractedInfo(cells), None);
        InsertInfo(note, VerbSearchField, [ExtractedInfo(cells)], None)
  }

  /**
    The verb action writes every conjugation form of the record into the note
    field `conj.<mood>.<tense>.<person>` (`conj.imp.<person>`), if the note has it.
   */
  lemma InsertVerbWritesForm(note: Note, page: string, cells: VerbCells, t: Tense, p: string)
    requires VerbSearchField in note && ParserInput(page).Success? && ExtractVerb(cells).Success?
    requires p in FormsOf(ExtractVerb(cells).value, t) && "conj." + TenseKey(t) + "." + p in note
    ensures InsertVerb(note, page, cells).Success?
    ensures InsertVerb(note, page, cells).value.note["conj." + TenseKey(t) + "." + p] ==
              FormsOf(ExtractVerb(cells).value, t)[p]
  {
    ExtractedHasProperPersons(cells);
    ConjFormField(ExtractVerb(cells).value, t, p);
  }
}
