/**
 * The game controller `whatIsJeopardy`: its database (`categories`, `clues`)
 * and its state (`currentClue`, `score`), with the handlers that change them.
 * Element lookups, rendering and the modal's classes are view effects and are
 * not part of this model.
 */
module Game {
  import opened Wrappers
  import opened Text
  import opened Answer
  import opened FisherYates
  import opened Store
  import opened Fetch
  import opened Scoring

  class Jeopardy {
    var categories: seq<Category>
    var clues: map<string, Clue>
    var currentClue: Option<Clue>
    var score: int

    /**
     * The score is never negative, the open clue's value is positive, and the
     * database is consistent: positive values, every listed key stored.
     */
    ghost predicate Valid()
      reads this
    {
      && score >= 0
      && (currentClue.Some? ==> currentClue.value.value > 0)
      && Consistent(Database())
    }

    /** The database part of the state. */
    function Database(): (db: Db)
      reads this
    {
      Db(categories, clues)
    }

    /** Lines 5-9: empty database, no clue open, score 0. */
    constructor ()
      ensures Valid()
      ensures categories == [] && clues == map[] && currentClue == None && score == 0
    {
      categories := [];
      clues := map[];
      currentClue := None;
      score := 0;
    }

    /** `updateScore(change)`: adds `change` to the score and nothing else. */
    method UpdateScore(change: int)
      modifies this
      ensures score == old(score) + change
      ensures categories == old(categories) && clues == old(clues) && currentClue == old(currentClue)
      ensures old(Valid()) && change >= 0 ==> Valid()
    {
      score := score + change;
    }

    /**
     * The state part of `handleClueClick`: the clue stored under `clueId`
     * becomes the current one. An unknown key leaves `undefined` there (the
     * handler then throws on the next line), modelled as `None`.
     */
    method HandleClueClick(clueId: string) returns (found: bool)
      requires Valid()
      modifies this
      ensures Valid()
      ensures found == (clueId in clues)
      ensures currentClue == (if found then Some(clues[clueId]) else None)
      ensures categories == old(categories) && clues == old(clues) && score == old(score)
    {
      found := clueId in clues;
      currentClue := if found then Some(clues[clueId]) else None;
    }

    /**
     * `handleFormSubmit`: a submission without the "What is " prefix (in any
     * letter case) changes nothing; otherwise the rest, trimmed, is compared
     * with the current clue's answer under `Cleanse`, and a match adds the
     * clue's value to the score. Nothing else ever changes.
     */
    method HandleFormSubmit(input: string) returns (verdict: Verdict)
      requires Valid()
      modifies this
      ensures Valid()
      ensures verdict == Judge(input, old(currentClue))
      ensures score == old(score) + Award(input, old(currentClue))
      ensures score >= old(score)
      ensures categories == old(categories) && clues == old(clues) && currentClue == old(currentClue)
    {
      if !StartsWith(Lower(input), Lower(ExpectedFormat)) {
        verdict := FormatError;
        return;
      }
      var userAnswer := Trim(input[|ExpectedFormat|..]);
      if currentClue.None? {
        verdict := NoClueOpen;
        return;
      }
      var isCorrect := Cleanse(userAnswer) == Cleanse(currentClue.value.answer);
      if isCorrect {
        UpdateScore(currentClue.value.value);
      }
      verdict := Revealed(isCorrect);
    }

    /**
     * The success handler of lines 58-83 after `requestsMade++`: shuffles the
     * payload's clues in place, stores the first five under `i-<id>` with value
     * `(i + 1) * 100`, and appends the category. A payload without a clue array
     * makes `shuffle` throw before anything is written.
     */
    method IngestCategory(data: Payload, draws: seq<nat>) returns (ingested: bool)
      requires Valid()
      requires data.clues.Some? ==> ValidDraws(draws, |data.clues.value|)
      modifies this
      ensures Valid()
      ensures ingested == data.clues.Some?
      ensures Database() == Ingest(old(Database()), data, draws)
      ensures score == old(score) && currentClue == old(currentClue)
    {
      if data.clues.None? {
        return false;
      }
      var raw := data.clues.value;
      var a := new RawClue[|raw|](i requires 0 <= i < |raw| => raw[i]);
      assert a[..] == raw;
      Shuffle(a, draws);
      var count := Min(CluesPerCategory, a.Length);
      var picked := a[..count];
      assert picked == Picked(raw, draws);
      var category := Category(data.title, []);
      for index := 0 to count
        invariant category == Category(data.title, ClueIds(data.id, index))
        invariant clues == old(clues) + Entries(data.id, picked[..index])
        invariant categories == old(categories) && score == old(score) && currentClue == old(currentClue)
      {
        var clue := picked[index];
        var clueId := ClueKey(index, data.id);
        category := category.(clues := category.clues + [clueId]);
        clues := clues[clueId := Clue(clue.question, clue.answer, (index + 1) * ValueStep)];
        EntriesExtend(old(clues), data.id, picked, index);
      }
      assert picked[..count] == picked;
      categories := categories + [category];
      ingested := true;
      IngestKeepsConsistent(old(Database()), data, draws);
    }

    /**
     * `fetchCategories`: attempts are taken in order while `requestsMade` is
     * below five; a failed one is skipped without counting, a received one is
     * counted (line 59) and ingested.
     */
    method FetchCategories(attempts: seq<Attempt>) returns (requestsMade: nat, issued: nat)
      requires Valid() && AllWellDrawn(attempts)
      modifies this
      ensures Valid()
      ensures issued == Issued(attempts, 0)
      ensures requestsMade == Counted(attempts[..issued]) <= MaxRequests
      ensures requestsMade < MaxRequests ==> issued == |attempts|
      ensures Database() == Run(old(Database()), attempts[..issued])
      ensures score == old(score) && currentClue == old(currentClue)
    {
      requestsMade, issued := 0, 0;
      while requestsMade < MaxRequests && issued < |attempts|
        invariant Valid()
        invariant issued <= |attempts|
        invariant requestsMade == Counted(attempts[..issued])
        invariant Issued(attempts, 0) == issued + Issued(attempts[issued..], requestsMade)
        invariant Database() == Run(old(Database()), attempts[..issued])
        invariant score == old(score) && currentClue == old(currentClue)
        decreases |attempts| - issued
      {
        var attempt := attempts[issued];
        LoopStep(old(Database()), attempts, issued, requestsMade);
        match attempt {
          case Failed =>
          case Received(data, draws) =>
            requestsMade := requestsMade + 1;
            var _ := IngestCategory(data, draws);
        }
        issued := issued + 1;
      }
      IssuedStopsAtCap(attempts, 0);
    }

    /** `initGame` without the event binding: shows score 0, then runs the fetch loop. */
    method InitGame(attempts: seq<Attempt>) returns (requestsMade: nat)
      requires Valid() && AllWellDrawn(attempts)
      modifies this
      ensures Valid()
      ensures requestsMade <= MaxRequests
      ensures Database() == Run(old(Database()), attempts[..Issued(attempts, 0)])
      ensures score == old(score) && currentClue == old(currentClue)
    {
      UpdateScore(0);
      var issued;
      requestsMade, issued := FetchCategories(attempts);
    }
  }
}
