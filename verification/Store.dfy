/**
 * The game's database: a keyed table of clue records and the list of
 * categories that own them, and what ingesting one fetched category (the
 * success handler of the category fetch) does to them.
 */
module Store {
  import opened Wrappers
  import opened Text
  import opened FisherYates

  /** A clue as the category payload delivers it. */
  datatype RawClue = RawClue(question: string, answer: string)

  /**
   * A parsed category payload `{id, title, clues}`. `clues == None` stands for a
   * body whose `clues` is not an array of clues, on which `shuffle` throws.
   */
  datatype Payload = Payload(id: nat, title: string, clues: Option<seq<RawClue>>)

  /** A clue record in the store. */
  datatype Clue = Clue(question: string, answer: string, value: int)

  /** A category: its title and the keys of the clues it owns, in board order. */
  datatype Category = Category(title: string, clues: seq<string>)

  /** `this.categories` and `this.clues`, taken together. */
  datatype Db = Db(categories: seq<Category>, clues: map<string, Clue>)

  const CluesPerCategory: nat := 5
  const ValueStep: nat := 100

  function Min(a: nat, b: nat): (m: nat) {
    if a <= b then a else b
  }

  /** `index + '-' + data.id`: the key of the clue at `index` of category `categoryId`. */
  function ClueKey(index: nat, categoryId: nat): (key: string) {
    Decimal(index) + "-" + Decimal(categoryId)
  }

  /** The key names its clue's rank and category and nothing else: distinct pairs give distinct keys. */
  lemma ClueKeyInjective(i: nat, c: nat, i': nat, c': nat)
    requires ClueKey(i, c) == ClueKey(i', c')
    ensures i == i' && c == c'
  {
    var k := ClueKey(i, c);
    var p, q := |Decimal(i)|, |Decimal(i')|;
    assert k[p] == '-';
    assert ClueKey(i', c')[q] == '-';
    assert forall j :: 0 <= j < p ==> k[j] == Decimal(i)[j];
    assert forall j :: 0 <= j < q ==> ClueKey(i', c')[j] == Decimal(i')[j];
    assert p == q;
    assert Decimal(i) == k[..p] == Decimal(i');
    assert Decimal(c) == k[p + 1..] == Decimal(c');
    DecimalInjective(i, i');
    DecimalInjective(c, c');
  }

  /** The keys the ingest gives the first `count` clues of category `categoryId`. */
  function ClueIds(categoryId: nat, count: nat): (ids: seq<string>)
    ensures |ids| == count
  {
    seq(count, (i: nat) requires i < count => ClueKey(i, categoryId))
  }

  /** `shuffle(data.clues).splice(0, 5)`: the first five clues after the shuffle. */
  function Picked(clues: seq<RawClue>, draws: seq<nat>): (picked: seq<RawClue>)
    requires ValidDraws(draws, |clues|)
  {
    var shuffled := Shuffled(clues, draws);
    ShuffledIsPermutation(clues, draws);
    shuffled[..Min(CluesPerCategory, |clues|)]
  }

  /** At most five clues are picked, all of them drawn from the payload, none twice more often than it occurs. */
  lemma PickedFromPayload(clues: seq<RawClue>, draws: seq<nat>)
    requires ValidDraws(draws, |clues|)
    ensures |Picked(clues, draws)| == Min(CluesPerCategory, |clues|)
    ensures multiset(Picked(clues, draws)) <= multiset(clues)
  {
    var shuffled := Shuffled(clues, draws);
    ShuffledIsPermutation(clues, draws);
    var m := Min(CluesPerCategory, |clues|);
    assert shuffled == shuffled[..m] + shuffled[m..];
  }

  /** The record stored for the picked clue at `index`: its value is `(index + 1) * 100`. */
  function Record(raw: RawClue, index: nat): (c: Clue) {
    Clue(raw.question, raw.answer, (index + 1) * ValueStep)
  }

  /** The store entries written by the `forEach` over the picked clues, in order. */
  function Entries(categoryId: nat, picked: seq<RawClue>): (entries: map<string, Clue>)
    decreases |picked|
  {
    if picked == [] then map[]
    else
      var last := |picked| - 1;
      Entries(categoryId, picked[..last])[ClueKey(last, categoryId) := Record(picked[last], last)]
  }

  /** The entries written are exactly the keys of the picked clues. */
  lemma {:induction false} EntriesKeys(categoryId: nat, picked: seq<RawClue>)
    ensures forall k :: k in Entries(categoryId, picked) <==> k in ClueIds(categoryId, |picked|)
    decreases |picked|
  {
    if picked != [] {
      var last := |picked| - 1;
      EntriesKeys(categoryId, picked[..last]);
      var ids, ids' := ClueIds(categoryId, |picked|), ClueIds(categoryId, last);
      assert ids == ids' + [ClueKey(last, categoryId)];
    }
  }

  /** The `i`-th picked clue is stored under its key with value `(i + 1) * 100`. */
  lemma {:induction false} EntriesAt(categoryId: nat, picked: seq<RawClue>, i: nat)
    requires i < |picked|
    ensures ClueKey(i, categoryId) in Entries(categoryId, picked)
    ensures Entries(categoryId, picked)[ClueKey(i, categoryId)] == Record(picked[i], i)
    decreases |picked|
  {
    var last := |picked| - 1;
    if i < last {
      EntriesAt(categoryId, picked[..last], i);
      if ClueKey(last, categoryId) == ClueKey(i, categoryId) {
        ClueKeyInjective(last, categoryId, i, categoryId);
      }
    }
  }

  /** Every value the ingest stores is positive: at least 100. */
  lemma {:induction false} EntriesValuesPositive(categoryId: nat, picked: seq<RawClue>)
    ensures forall k :: k in Entries(categoryId, picked) ==> Entries(categoryId, picked)[k].value >= ValueStep
    decreases |picked|
  {
    if picked != [] {
      EntriesValuesPositive(categoryId, picked[..|picked| - 1]);
    }
  }

  /** Writing the clue at `index` extends the keys by its key and the store by its record. */
  lemma EntriesExtend(base: map<string, Clue>, categoryId: nat, picked: seq<RawClue>, index: nat)
    requires index < |picked|
    ensures ClueIds(categoryId, index + 1) == ClueIds(categoryId, index) + [ClueKey(index, categoryId)]
    ensures base + Entries(categoryId, picked[..index + 1])
         == (base + Entries(categoryId, picked[..index]))[ClueKey(index, categoryId) := Record(picked[index], index)]
  {
    assert picked[..index + 1][..index] == picked[..index];
  }

  /** The database invariant: every stored value is positive and every key a category lists is stored. */
  ghost predicate Consistent(db: Db) {
    && (forall k :: k in db.clues ==> db.clues[k].value > 0)
    && (forall i, j :: 0 <= i < |db.categories| && 0 <= j < |db.categories[i].clues| ==> db.categories[i].clues[j] in db.clues)
  }

  /**
   * The success handler of lines 58-83 on the database: a payload without a
   * clue array leaves it unchanged (the handler throws before writing); any
   * other appends one category and writes its clues into the store.
   */
  function Ingest(db: Db, data: Payload, draws: seq<nat>): (db': Db)
    requires data.clues.Some? ==> ValidDraws(draws, |data.clues.value|)
  {
    match data.clues
    case None => db
    case Some(clues) =>
      var picked := Picked(clues, draws);
      Db(db.categories + [Category(data.title, ClueIds(data.id, |picked|))],
         db.clues + Entries(data.id, picked))
  }

  /**
   * Ingesting a payload with `n` clues appends exactly one category, holding
   * `min(5, n)` keys, the `i`-th being `i-<id>`; each key is then in the store,
   * holding the `i`-th picked clue with value `(i + 1) * 100`; every other key
   * keeps what it had, and no other key appears.
   */
  lemma IngestSpec(db: Db, data: Payload, draws: seq<nat>)
    requires data.clues.Some? && ValidDraws(draws, |data.clues.value|)
    ensures var after := Ingest(db, data, draws);
      && |after.categories| == |db.categories| + 1
      && after.categories[..|db.categories|] == db.categories
      && after.categories[|db.categories|].title == data.title
      && |after.categories[|db.categories|].clues| == Min(CluesPerCategory, |data.clues.value|)
    ensures var after := Ingest(db, data, draws);
      var ids := after.categories[|db.categories|].clues;
      var picked := Picked(data.clues.value, draws);
      forall i :: 0 <= i < |ids| ==>
        && ids[i] == ClueKey(i, data.id)
        && ids[i] in after.clues
        && after.clues[ids[i]] == Clue(picked[i].question, picked[i].answer, (i + 1) * 100)
    ensures var after := Ingest(db, data, draws);
      var ids := after.categories[|db.categories|].clues;
      forall k :: k !in ids ==> (k in after.clues <==> k in db.clues) && (k in db.clues ==> after.clues[k] == db.clues[k])
  {
    var clues := data.clues.value;
    var picked := Picked(clues, draws);
    PickedFromPayload(clues, draws);
    EntriesKeys(data.id, picked);
    forall i | 0 <= i < |picked| ensures ClueKey(i, data.id) in Entries(data.id, picked)
      && Entries(data.id, picked)[ClueKey(i, data.id)] == Record(picked[i], i)
    {
      EntriesAt(data.id, picked, i);
    }
  }

  /** Ingesting keeps the database consistent. */
  lemma IngestKeepsConsistent(db: Db, data: Payload, draws: seq<nat>)
    requires Consistent(db)
    requires data.clues.Some? ==> ValidDraws(draws, |data.clues.value|)
    ensures Consistent(Ingest(db, data, draws))
  {
    if data.clues.Some? {
      var picked := Picked(data.clues.value, draws);
      IngestSpec(db, data, draws);
      EntriesValuesPositive(data.id, picked);
      var after := Ingest(db, data, draws);
      forall i, j | 0 <= i < |after.categories| && 0 <= j < |after.categories[i].clues|
        ensures after.categories[i].clues[j] in after.clues
      {
        if i < |db.categories| {
          assert after.categories[i] == db.categories[i];
        }
      }
    }
  }
}
