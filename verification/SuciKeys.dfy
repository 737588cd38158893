/** The SUCI key store: requests complete in any order (frontend/src/stores/suci.ts). */
module SuciKeys {
  import opened Prelude
  import opened Sorting

  /** One home network key; `data` stands for the fields the store never reads. */
  datatype HnetKey = HnetKey(id: int, data: string)

  /** What the server answered: each answer is applied to the keys of that moment. */
  datatype Answer =
    | Generated(key: HnetKey)
    | Regenerated(id: int, key: HnetKey)
    | Deleted(id: int)

  function IdOf(k: HnetKey): int {
    k.id
  }

  function MapKey(keys: seq<HnetKey>, id: int, key: HnetKey): (r: seq<HnetKey>)
    ensures |r| == |keys|
    ensures forall i :: 0 <= i < |r| ==> r[i] == if keys[i].id == id then key else keys[i]
  {
    if keys == [] then [] else [if keys[0].id == id then key else keys[0]] + MapKey(keys[1..], id, key)
  }

  function OtherThan(id: int): HnetKey -> bool {
    (k: HnetKey) => k.id != id
  }

  function Apply(keys: seq<HnetKey>, a: Answer): seq<HnetKey> {
    match a
    case Generated(key) => SortBy(keys + [key], IdOf)
    case Regenerated(id, key) => MapKey(keys, id, key)
    case Deleted(id) => Filter(keys, OtherThan(id))
  }

  // ----- the store as a table -----

  /** Sorted by distinct ids. */
  ghost predicate Ordered(keys: seq<HnetKey>) {
    forall i, j :: 0 <= i < j < |keys| ==> keys[i].id < keys[j].id
  }

  ghost predicate LooksUp(keys: seq<HnetKey>, table: map<int, HnetKey>, i: nat)
    requires i < |keys|
  {
    keys[i].id in table && table[keys[i].id] == keys[i]
  }

  ghost predicate Listed(keys: seq<HnetKey>, table: map<int, HnetKey>, id: int)
    requires id in table
  {
    table[id] in keys && table[id].id == id
  }

  /** Every key is the one its id looks up, and nothing else is looked up. */
  ghost predicate Holds(keys: seq<HnetKey>, table: map<int, HnetKey>) {
    && (forall i :: 0 <= i < |keys| ==> LooksUp(keys, table, i))
    && (forall id {:trigger Listed(keys, table, id)} :: id in table ==> Listed(keys, table, id))
  }

  function AnswerId(a: Answer): int {
    match a
    case Generated(key) => key.id
    case Regenerated(id, _) => id
    case Deleted(id) => id
  }

  /** The answer is about the id that was asked for, and a generated id is new. */
  ghost predicate Expected(table: map<int, HnetKey>, a: Answer) {
    match a
    case Generated(key) => key.id !in table
    case Regenerated(id, key) => key.id == id
    case Deleted(_) => true
  }

  function Update(table: map<int, HnetKey>, a: Answer): map<int, HnetKey> {
    match a
    case Generated(key) => table[key.id := key]
    case Regenerated(id, key) => if id in table then table[id := key] else table
    case Deleted(id) => table - {id}
  }

  lemma InTable(keys: seq<HnetKey>, table: map<int, HnetKey>, k: HnetKey)
    requires Holds(keys, table) && k in keys
    ensures k.id in table && table[k.id] == k
  {
    var i :| 0 <= i < |keys| && keys[i] == k;
    assert LooksUp(keys, table, i);
  }

  lemma InKeys(keys: seq<HnetKey>, table: map<int, HnetKey>, id: int) returns (i: nat)
    requires Holds(keys, table) && id in table
    ensures i < |keys| && keys[i] == table[id] && keys[i].id == id
  {
    assert Listed(keys, table, id);
    i :| 0 <= i < |keys| && keys[i] == table[id];
  }

  /** An ordered list is determined by its table. */
  lemma {:induction false} TableDetermines(a: seq<HnetKey>, b: seq<HnetKey>, table: map<int, HnetKey>)
    requires Ordered(a) && Ordered(b) && Holds(a, table) && Holds(b, table)
    ensures a == b
    decreases |a|
  {
    EmptyIff(a, table);
    EmptyIff(b, table);
    if a != [] {
      SameHead(a, b, table);
      TailHolds(a, table);
      TailHolds(b, table);
      TableDetermines(a[1..], b[1..], table - {a[0].id});
      assert a == [a[0]] + a[1..] && b == [b[0]] + b[1..];
    }
  }

  lemma EmptyIff(keys: seq<HnetKey>, table: map<int, HnetKey>)
    requires Holds(keys, table)
    ensures keys == [] <==> forall id :: id !in table
  {
    if keys != [] { assert LooksUp(keys, table, 0); }
    if id :| id in table { var i := InKeys(keys, table, id); }
  }

  lemma SameHead(a: seq<HnetKey>, b: seq<HnetKey>, table: map<int, HnetKey>)
    requires Ordered(a) && Ordered(b) && Holds(a, table) && Holds(b, table) && a != [] && b != []
    ensures a[0] == b[0]
  {
    assert LooksUp(a, table, 0) && LooksUp(b, table, 0);
    var i := InKeys(b, table, a[0].id);
    var j := InKeys(a, table, b[0].id);
  }

  lemma TailHolds(a: seq<HnetKey>, table: map<int, HnetKey>)
    requires Ordered(a) && a != [] && Holds(a, table)
    ensures Ordered(a[1..]) && Holds(a[1..], table - {a[0].id})
  {
    var rest, less := a[1..], table - {a[0].id};
    forall i | 0 <= i < |rest| ensures LooksUp(rest, less, i) {
      assert LooksUp(a, table, i + 1);
    }
    forall id | id in less ensures Listed(rest, less, id) {
      var i := InKeys(a, table, id);
      assert rest[i - 1] == table[id];
    }
  }

  /** One answer, whatever happened since its request, is one table update; the list stays ordered. */
  lemma AnswerUpdatesTable(keys: seq<HnetKey>, table: map<int, HnetKey>, a: Answer)
    requires Ordered(keys) && Holds(keys, table) && Expected(table, a)
    ensures Ordered(Apply(keys, a)) && Holds(Apply(keys, a), Update(table, a))
  {
    match a
    case Generated(key) => GeneratedHolds(keys, table, key);
    case Regenerated(id, key) => RegeneratedHolds(keys, table, id, key);
    case Deleted(id) => DeletedHolds(keys, table, id);
  }

  lemma GeneratedHolds(keys: seq<HnetKey>, table: map<int, HnetKey>, key: HnetKey)
    requires Ordered(keys) && Holds(keys, table) && key.id !in table
    ensures Ordered(SortBy(keys + [key], IdOf)) && Holds(SortBy(keys + [key], IdOf), table[key.id := key])
  {
    var more := keys + [key];
    forall i, j | 0 <= i < j < |more| ensures more[i].id != more[j].id {
      assert LooksUp(keys, table, i);
    }
    SortedDistinctKeys(more, IdOf);
    MembersHold(keys, table, key, SortBy(more, IdOf));
  }

  lemma MembersHold(keys: seq<HnetKey>, table: map<int, HnetKey>, key: HnetKey, r: seq<HnetKey>)
    requires Holds(keys, table) && key.id !in table && forall k :: k in r <==> k in keys + [key]
    ensures Holds(r, table[key.id := key])
  {
    var more, t := keys + [key], table[key.id := key];
    forall i | 0 <= i < |r| ensures LooksUp(r, t, i) {
      assert r[i] in more;
      if r[i] != key { InTable(keys, table, r[i]); }
    }
    forall id | id in t ensures Listed(r, t, id) {
      if id != key.id {
        var i := InKeys(keys, table, id);
        assert more[i] == t[id];
      } else {
        assert more[|keys|] == key;
      }
    }
  }

  lemma RegeneratedHolds(keys: seq<HnetKey>, table: map<int, HnetKey>, id: int, key: HnetKey)
    requires Ordered(keys) && Holds(keys, table) && key.id == id
    ensures Ordered(MapKey(keys, id, key)) && Holds(MapKey(keys, id, key), Update(table, Regenerated(id, key)))
  {
    var r, t := MapKey(keys, id, key), Update(table, Regenerated(id, key));
    assert forall i :: 0 <= i < |r| ==> r[i].id == keys[i].id;
    forall i | 0 <= i < |r| ensures LooksUp(r, t, i) {
      assert LooksUp(keys, table, i);
    }
    forall n | n in t ensures Listed(r, t, n) {
      var i := InKeys(keys, table, n);
      assert LooksUp(r, t, i) && r[i] in r;
    }
  }

  lemma DeletedHolds(keys: seq<HnetKey>, table: map<int, HnetKey>, id: int)
    requires Ordered(keys) && Holds(keys, table)
    ensures Ordered(Filter(keys, OtherThan(id))) && Holds(Filter(keys, OtherThan(id)), table - {id})
  {
    FilterOrdered(keys, OtherThan(id));
    var r, t := Filter(keys, OtherThan(id)), table - {id};
    forall i | 0 <= i < |r| ensures LooksUp(r, t, i) {
      InTable(keys, table, r[i]);
    }
    forall n | n in t ensures Listed(r, t, n) {
      var i := InKeys(keys, table, n);
    }
  }

  lemma {:induction false} FilterOrdered(keys: seq<HnetKey>, keep: HnetKey -> bool)
    requires Ordered(keys)
    ensures Ordered(Filter(keys, keep))
  {
    if keys != [] {
      FilterOrdered(keys[1..], keep);
      var rest := Filter(keys[1..], keep);
      forall i | 0 <= i < |rest| ensures keys[0].id < rest[i].id {
        assert rest[i] in keys[1..];
      }
    }
  }

  // ----- interleavings -----

  /** Answers about different ids can arrive in either order. */
  lemma AnswersCommute(keys: seq<HnetKey>, table: map<int, HnetKey>, a: Answer, b: Answer)
    requires Ordered(keys) && Holds(keys, table) && Expected(table, a) && Expected(table, b)
    requires AnswerId(a) != AnswerId(b)
    ensures Apply(Apply(keys, a), b) == Apply(Apply(keys, b), a)
  {
    UpdatesCommute(table, a, b);
    UpdatesCommute(table, b, a);
    AnswerUpdatesTable(keys, table, a);
    AnswerUpdatesTable(keys, table, b);
    AnswerUpdatesTable(Apply(keys, a), Update(table, a), b);
    AnswerUpdatesTable(Apply(keys, b), Update(table, b), a);
    TableDetermines(Apply(Apply(keys, a), b), Apply(Apply(keys, b), a), Update(Update(table, a), b));
  }

  lemma UpdatesCommute(table: map<int, HnetKey>, a: Answer, b: Answer)
    requires AnswerId(a) != AnswerId(b)
    ensures Update(Update(table, a), b) == Update(Update(table, b), a)
    ensures Expected(table, b) <==> Expected(Update(table, a), b)
  {
  }

  function ApplyAll(keys: seq<HnetKey>, answers: seq<Answer>): seq<HnetKey>
    decreases |answers|
  {
    if answers == [] then keys else ApplyAll(Apply(keys, answers[0]), answers[1..])
  }

  ghost function UpdateAll(table: map<int, HnetKey>, answers: seq<Answer>): map<int, HnetKey>
    decreases |answers|
  {
    if answers == [] then table else UpdateAll(Update(table, answers[0]), answers[1..])
  }

  /** Every answer is as expected when it arrives. */
  ghost predicate AllExpected(table: map<int, HnetKey>, answers: seq<Answer>)
    decreases |answers|
  {
    answers == [] || (Expected(table, answers[0]) && AllExpected(Update(table, answers[0]), answers[1..]))
  }

  /** Any interleaving of completions keeps the list sorted by distinct ids, and is the table's history. */
  lemma {:induction false} InterleavingStaysOrdered(keys: seq<HnetKey>, table: map<int, HnetKey>, answers: seq<Answer>)
    requires Ordered(keys) && Holds(keys, table) && AllExpected(table, answers)
    ensures Ordered(ApplyAll(keys, answers)) && Holds(ApplyAll(keys, answers), UpdateAll(table, answers))
    decreases |answers|
  {
    if answers != [] {
      AnswerUpdatesTable(keys, table, answers[0]);
      InterleavingStaysOrdered(Apply(keys, answers[0]), Update(table, answers[0]), answers[1..]);
    }
  }

  // ----- what each id sees -----

  /** What the table holds for one id. */
  function Slot(table: map<int, HnetKey>, id: int): Option<HnetKey> {
    if id in table then Some(table[id]) else None
  }

  ghost predicate SlotExpected(slot: Option<HnetKey>, a: Answer) {
    match a
    case Generated(_) => slot.None?
    case Regenerated(id, key) => key.id == id
    case Deleted(_) => true
  }

  function SlotUpdate(slot: Option<HnetKey>, a: Answer): Option<HnetKey> {
    match a
    case Generated(key) => Some(key)
    case Regenerated(_, key) => if slot.Some? then Some(key) else None
    case Deleted(_) => None
  }

  function SlotAfter(slot: Option<HnetKey>, answers: seq<Answer>): Option<HnetKey>
    decreases |answers|
  {
    if answers == [] then slot else SlotAfter(SlotUpdate(slot, answers[0]), answers[1..])
  }

  ghost predicate SlotAllExpected(slot: Option<HnetKey>, answers: seq<Answer>)
    decreases |answers|
  {
    answers == [] || (SlotExpected(slot, answers[0]) && SlotAllExpected(SlotUpdate(slot, answers[0]), answers[1..]))
  }

  /** The answers about one id, in the order they arrive. */
  function About(answers: seq<Answer>, id: int): seq<Answer>
    decreases |answers|
  {
    if answers == [] then []
    else (if AnswerId(answers[0]) == id then [answers[0]] else []) + About(answers[1..], id)
  }

  lemma AboutStep(answers: seq<Answer>, id: int)
    requires answers != []
    ensures AnswerId(answers[0]) == id ==>
              var own := About(answers, id); own != [] && own[0] == answers[0] && own[1..] == About(answers[1..], id)
    ensures AnswerId(answers[0]) != id ==> About(answers, id) == About(answers[1..], id)
  {
  }

  lemma SlotStep(table: map<int, HnetKey>, a: Answer, id: int)
    ensures Slot(Update(table, a), id) == if AnswerId(a) == id then SlotUpdate(Slot(table, id), a) else Slot(table, id)
    ensures AnswerId(a) == id ==> (Expected(table, a) <==> SlotExpected(Slot(table, id), a))
  {
  }

  /** What an id looks up in the end depends on the answers about it alone. */
  lemma {:induction false} LookupAfter(table: map<int, HnetKey>, answers: seq<Answer>, id: int)
    ensures Slot(UpdateAll(table, answers), id) == SlotAfter(Slot(table, id), About(answers, id))
    decreases |answers|
  {
    if answers != [] {
      LookupAfter(Update(table, answers[0]), answers[1..], id);
      AboutStep(answers, id);
      SlotStep(table, answers[0], id);
    }
  }

  lemma {:induction false} ExpectedPerId(table: map<int, HnetKey>, answers: seq<Answer>, id: int)
    requires AllExpected(table, answers)
    ensures SlotAllExpected(Slot(table, id), About(answers, id))
    decreases |answers|
  {
    if answers != [] {
      ExpectedPerId(Update(table, answers[0]), answers[1..], id);
      AboutStep(answers, id);
      SlotStep(table, answers[0], id);
    }
  }

  /** Whether a run of answers is as expected is decided for each id by itself. */
  lemma {:induction false} ExpectedIff(table: map<int, HnetKey>, answers: seq<Answer>)
    ensures AllExpected(table, answers) <==> forall id :: SlotAllExpected(Slot(table, id), About(answers, id))
    decreases |answers|
  {
    if AllExpected(table, answers) {
      forall id ensures SlotAllExpected(Slot(table, id), About(answers, id)) {
        ExpectedPerId(table, answers, id);
      }
    } else {
      var id := UnexpectedId(table, answers);
    }
  }

  lemma {:induction false} UnexpectedId(table: map<int, HnetKey>, answers: seq<Answer>) returns (id: int)
    requires !AllExpected(table, answers)
    ensures !SlotAllExpected(Slot(table, id), About(answers, id))
    decreases |answers|
  {
    if !Expected(table, answers[0]) {
      id := AnswerId(answers[0]);
    } else {
      id := UnexpectedId(Update(table, answers[0]), answers[1..]);
    }
    AboutStep(answers, id);
    SlotStep(table, answers[0], id);
  }

  lemma SameSlots(t: map<int, HnetKey>, u: map<int, HnetKey>)
    requires forall id :: Slot(t, id) == Slot(u, id)
    ensures t == u
  {
    forall id ensures id in t <==> id in u ensures id in t ==> t[id] == u[id] {
      assert Slot(t, id) == Slot(u, id);
    }
  }

  /** Two arrival orders that bring each id its own answers in the same order. */
  ghost predicate SameForEachId(a: seq<Answer>, b: seq<Answer>) {
    forall id :: About(a, id) == About(b, id)
  }

  /** They leave the same table, and one of them is as expected when the other is. */
  lemma TablesAgree(table: map<int, HnetKey>, a: seq<Answer>, b: seq<Answer>)
    requires SameForEachId(a, b)
    ensures UpdateAll(table, a) == UpdateAll(table, b)
    ensures AllExpected(table, a) <==> AllExpected(table, b)
  {
    forall id ensures Slot(UpdateAll(table, a), id) == Slot(UpdateAll(table, b), id) {
      LookupAfter(table, a, id);
      LookupAfter(table, b, id);
    }
    SameSlots(UpdateAll(table, a), UpdateAll(table, b));
    ExpectedIff(table, a);
    ExpectedIff(table, b);
  }

  /**
    However the network interleaves the answers, as long as each id's own answers keep
    their order the list in the end is the same, sorted by distinct ids.
   */
  lemma ArrivalOrderDoesNotMatter(keys: seq<HnetKey>, table: map<int, HnetKey>, a: seq<Answer>, b: seq<Answer>)
    requires Ordered(keys) && Holds(keys, table) && AllExpected(table, a) && SameForEachId(a, b)
    ensures AllExpected(table, b) && ApplyAll(keys, a) == ApplyAll(keys, b) && Ordered(ApplyAll(keys, a))
  {
    TablesAgree(table, a, b);
    InterleavingStaysOrdered(keys, table, a);
    InterleavingStaysOrdered(keys, table, b);
    TableDetermines(ApplyAll(keys, a), ApplyAll(keys, b), UpdateAll(table, a));
  }

  /** Exactly the new ids can be generated without a duplicate in the list. */
  lemma GenerateStaysOrderedIff(keys: seq<HnetKey>, table: map<int, HnetKey>, key: HnetKey)
    requires Ordered(keys) && Holds(keys, table)
    ensures Ordered(Apply(keys, Generated(key))) <==> key.id !in table
  {
    if key.id !in table {
      AnswerUpdatesTable(keys, table, Generated(key));
    } else {
      var more := keys + [key];
      SortByKeepsKeys(more, IdOf, key.id);
      var i := InKeys(keys, table, key.id);
      TwoWithKey(more, IdOf, i, |keys|);
      if Ordered(SortBy(more, IdOf)) {
        OneWithKey(SortBy(more, IdOf), IdOf, key.id);
      }
    }
  }

  ghost predicate OrderedAfter(keys: seq<HnetKey>, answers: seq<Answer>, n: nat)
    requires n <= |answers|
  {
    Ordered(ApplyAll(keys, answers[..n]))
  }

  ghost predicate KeepsId(a: Answer) {
    a.Regenerated? ==> a.key.id == a.id
  }

  lemma PrefixStep(keys: seq<HnetKey>, answers: seq<Answer>, n: nat)
    requires n < |answers|
    ensures OrderedAfter(keys, answers, n + 1) <==> OrderedAfter(Apply(keys, answers[0]), answers[1..], n)
  {
    assert answers[..n + 1][1..] == answers[1..][..n];
  }

  lemma UnexpectedBreaks(keys: seq<HnetKey>, table: map<int, HnetKey>, answers: seq<Answer>)
    requires Ordered(keys) && Holds(keys, table) && answers != []
    requires KeepsId(answers[0]) && !Expected(table, answers[0])
    ensures !OrderedAfter(keys, answers, 1)
  {
    GenerateStaysOrderedIff(keys, table, answers[0].key);
    assert answers[..1] == [answers[0]] && [answers[0]][1..] == [];
    assert ApplyAll(keys, answers[..1]) == Apply(keys, answers[0]);
  }

  /**
    Over a whole run, where regenerated keys keep their id: the list is sorted by distinct
    ids after every answer exactly when every generated id is new on arrival.
   */
  lemma {:induction false} StaysOrderedIff(keys: seq<HnetKey>, table: map<int, HnetKey>, answers: seq<Answer>)
    requires Ordered(keys) && Holds(keys, table) && forall i :: 0 <= i < |answers| ==> KeepsId(answers[i])
    ensures (forall n :: 0 <= n <= |answers| ==> OrderedAfter(keys, answers, n)) <==> AllExpected(table, answers)
    decreases |answers|
  {
    if answers != [] {
      var a, rest := answers[0], answers[1..];
      assert KeepsId(a);
      if !Expected(table, a) {
        UnexpectedBreaks(keys, table, answers);
      } else {
        assert forall i :: 0 <= i < |rest| ==> rest[i] == answers[i + 1];
        AnswerUpdatesTable(keys, table, a);
        StaysOrderedIff(Apply(keys, a), Update(table, a), rest);
        LaterIsEnough(keys, answers);
      }
    }
  }

  lemma LaterIsEnough(keys: seq<HnetKey>, answers: seq<Answer>)
    requires Ordered(keys) && answers != []
    ensures (forall n :: 0 <= n <= |answers| ==> OrderedAfter(keys, answers, n)) <==>
            (forall n :: 0 <= n <= |answers| - 1 ==> OrderedAfter(Apply(keys, answers[0]), answers[1..], n))
  {
    forall n | 0 <= n < |answers|
      ensures OrderedAfter(keys, answers, n + 1) <==> OrderedAfter(Apply(keys, answers[0]), answers[1..], n)
    {
      PrefixStep(keys, answers, n);
    }
    if forall n :: 0 <= n <= |answers| - 1 ==> OrderedAfter(Apply(keys, answers[0]), answers[1..], n) {
      forall n | 0 <= n <= |answers| ensures OrderedAfter(keys, answers, n) {
        if n > 0 { assert OrderedAfter(Apply(keys, answers[0]), answers[1..], n - 1); }
      }
    } else {
      var n :| 0 <= n <= |answers| - 1 && !OrderedAfter(Apply(keys, answers[0]), answers[1..], n);
      assert !OrderedAfter(keys, answers, n + 1);
    }
  }

  // ----- the store -----

  class SuciStore {
    var keys: seq<HnetKey>
    var loading: bool
    var error: Option<string>

    /** The invariant: the keys are the table's, sorted by distinct ids. */
    ghost predicate Keeps(table: map<int, HnetKey>)
      reads this
    {
      Ordered(keys) && Holds(keys, table)
    }

    constructor ()
      ensures keys == [] && !loading && error == None && Keeps(map[])
    {
      keys, loading, error := [], false, None;
    }

    /** The first half of every action, up to its await. */
    method Start()
      modifies this`loading, this`error
      ensures loading && error == None
    {
      loading, error := true, None;
    }

    /**
      generateKey, after its await: reads the keys as they are now. Whatever table they
      kept gets the new key; an id it already had breaks the invariant, and only that does.
     */
    method FinishGenerate(key: HnetKey)
      modifies this`keys, this`loading
      ensures keys == Apply(old(keys), Generated(key)) && !loading
      ensures forall table :: old(Keeps(table)) && key.id !in table ==> Keeps(table[key.id := key])
      ensures forall table :: old(Keeps(table)) ==> (Ordered(keys) <==> key.id !in table)
    {
      forall table | Keeps(table)
        ensures Ordered(Apply(keys, Generated(key))) <==> key.id !in table
        ensures key.id !in table ==> Holds(Apply(keys, Generated(key)), table[key.id := key])
      {
        GenerateStaysOrderedIff(keys, table, key);
        if key.id !in table { AnswerUpdatesTable(keys, table, Generated(key)); }
      }
      var currentKeys := keys;
      keys := SortBy(currentKeys + [key], IdOf);
      loading := false;
    }

    method FinishRegenerate(id: int, key: HnetKey)
      modifies this`keys, this`loading
      ensures keys == Apply(old(keys), Regenerated(id, key)) && !loading
      ensures key.id == id ==>
                forall table :: old(Keeps(table)) ==> Keeps(if id in table then table[id := key] else table)
    {
      if key.id == id {
        forall table | Keeps(table) {
          AnswerUpdatesTable(keys, table, Regenerated(id, key));
        }
      }
      var currentKeys := keys;
      keys := MapKey(currentKeys, id, key);
      loading := false;
    }

    method FinishDelete(id: int)
      modifies this`keys, this`loading
      ensures keys == Apply(old(keys), Deleted(id)) && !loading
      ensures forall table :: old(Keeps(table)) ==> Keeps(table - {id})
    {
      forall table | Keeps(table) {
        AnswerUpdatesTable(keys, table, Deleted(id));
      }
      var currentKeys := keys;
      keys := Filter(currentKeys, OtherThan(id));
      loading := false;
    }

    /** A request that failed leaves the keys alone. */
    method Fail(message: string)
      modifies this`loading, this`error
      ensures !loading && error == Some(message)
    {
      loading, error := false, Some(message);
    }
  }
}
