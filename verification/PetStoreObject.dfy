/**
 The pet store as an object on the heap, with the id pointers as references to
 cells.  Handlers run one at a time, under the store's lock.
 */
module PetStoreObject {
  import opened PetStore
  import opened Wrappers

  class Cell {
    var value: int

    constructor (value: int)
      ensures this.value == value
    {
      this.value := value;
    }
  }

  datatype Pet = Pet(id: Cell, name: string, photoUrls: seq<string>, status: Option<string>)

  const INT32_RANGE: int := 0x1_0000_0000

  /** The value an int32 has after counting to `n`. */
  function Int32(n: nat): int {
    var m := n % INT32_RANGE;
    if m < 0x8000_0000 then m else m - INT32_RANGE
  }

  /** `++` on an int32. */
  function Increment32(x: int): int {
    if x == 0x7fff_ffff then -0x8000_0000 else x + 1
  }

  /** Walking a map visits its keys in any order. */
  method AnyOf<T>(s: set<T>) returns (x: T)
    requires s != {}
    ensures x in s
  {
    x :| x in s;
  }

  class Server {
    var pets: map<int, Pet>
    /** The field nextPetID, whose address the handlers take. */
    const nextPetID: Cell
    /** The requests handled so far. */
    ghost var history: seq<Request>

    ghost function Cells(): set<Cell>
      reads this
    {
      set k | k in pets :: pets[k].id
    }

    ghost function RecordOf(p: Pet): Record
      reads p.id
    {
      Record(if p.id == nextPetID then Shared else Own(p.id.value), p.name, p.photoUrls, p.status)
    }

    ghost function Records(): map<int, Record>
      reads this, Cells()
    {
      map k | k in pets :: RecordOf(pets[k])
    }

    /** The store as a value. */
    ghost function State(): Store
      reads this, nextPetID, Cells()
    {
      Store(Records(), nextPetID.value)
    }

    ghost predicate Valid()
      reads this, nextPetID, Cells()
    {
      State() == After(Start(), history)
    }

    /** Starts with the sample pets. */
    constructor ()
      ensures Valid() && fresh(nextPetID) && fresh(Cells())
      ensures history == []
    {
      var counter := new Cell(1);
      pets, nextPetID, history := map[], counter, [];
      new;
      AddSampleData(SAMPLES);
    }

    /** Fills an empty store, keeping the counter ahead of every id but the largest int64. */
    method AddSampleData(samples: seq<PetInput>)
      requires pets == map[] && nextPetID.value == 1
      requires forall i :: 0 <= i < |samples| ==> samples[i].id.Some?
      modifies this, nextPetID
      ensures State() == Load(samples) && history == old(history)
      ensures AllNamed(samples) ==> ((forall k :: k in pets ==> k < nextPetID.value) <==> NoneLargest(samples))
      ensures fresh(Cells())
    {
      assert State() == Store(map[], 1);
      for i := 0 to |samples|
        invariant forall k :: k in pets ==> fresh(pets[k].id)
        invariant State() == Load(samples[..i]) && history == old(history)
      {
        AddSample(samples[i]);
        assert samples[..i + 1][..i] == samples[..i];
      }
      assert samples[..|samples|] == samples;
      if AllNamed(samples) {
        LoadedAheadIff(samples);
        assert pets.Keys == State().pets.Keys;
      }
    }

    method AddSample(sample: PetInput)
      requires sample.id.Some?
      modifies this, nextPetID
      ensures State() == LoadOne(old(State()), sample) && history == old(history)
      ensures forall k :: k in pets ==> fresh(pets[k].id) || (k in old(pets) && pets[k].id == old(pets[k].id))
    {
      var id := new Cell(sample.id.value);
      var pet := Pet(id, sample.name, sample.photoUrls, sample.status);
      pets := pets[id.value := pet];
      if id.value >= nextPetID.value {
        nextPetID.value := Increment(id.value);
      }
      StoreOne(id.value, pet);
    }

    /** Storing one pet changes one record; the cells of the others are as they were. */
    twostate lemma StoreOne(k: int, new p: Pet)
      requires pets == old(pets)[k := p]
      requires forall j :: j in old(pets) && old(pets)[j].id != nextPetID ==> unchanged(old(pets)[j].id)
      ensures Records() == old(Records())[k := RecordOf(p)]
    {
      forall j | j in old(pets) ensures RecordOf(old(pets)[j]) == old(Records())[j] {
        assert old(Records())[j] == old(RecordOf(pets[j]));
      }
    }

    /** Nor does the counter touch them. */
    twostate lemma RecordsKept()
      requires pets == old(pets)
      requires forall j :: j in pets && pets[j].id != nextPetID ==> unchanged(pets[j].id)
      ensures Records() == old(Records())
    {
      forall j | j in pets ensures RecordOf(pets[j]) == old(Records())[j] {
        assert old(Records())[j] == old(RecordOf(pets[j]));
      }
    }

    method AddPet(body: Option<PetInput>) returns (reply: Reply)
      requires Valid()
      modifies this, nextPetID
      ensures Valid() && history == old(history) + [Add(body)]
      ensures reply == Handle(old(State()), Add(body)).1
      ensures fresh(Cells() - old(Cells()) - {nextPetID})
    {
      AfterAppend(Start(), history, Add(body));
      history := history + [Add(body)];
      RecordsKept();
      if body.None? {
        return BadRequest;
      }
      var p := body.value;
      var id := nextPetID;
      if p.id.None? {
        nextPetID.value := Increment(nextPetID.value);
      } else {
        id := new Cell(p.id.value);
      }
      RecordsKept();
      if p.name == "" || p.photoUrls == [] {
        return BadRequest;
      }
      var pet := Pet(id, p.name, p.photoUrls, p.status);
      pets := pets[id.value := pet];
      StoreOne(id.value, pet);
      reply := Ok;
    }

    method UpdatePet(body: Option<PetInput>) returns (reply: Reply)
      requires Valid()
      modifies this
      ensures Valid() && history == old(history) + [Update(body)]
      ensures reply == Handle(old(State()), Update(body)).1
      ensures reply == Ok <==> body.Some? && body.value.id.Some? && body.value.id.value in old(pets)
      ensures fresh(Cells() - old(Cells()))
    {
      AfterAppend(Start(), history, Update(body));
      history := history + [Update(body)];
      RecordsKept();
      if body.None? || body.value.id.None? {
        return BadRequest;
      }
      var p := body.value;
      if p.id.value !in pets {
        return NotFound;
      }
      var id := new Cell(p.id.value);
      var pet := Pet(id, p.name, p.photoUrls, p.status);
      pets := pets[id.value := pet];
      StoreOne(id.value, pet);
      reply := Ok;
    }

    /** The stored pet is copied and its pointer with it. */
    method UpdatePetWithForm(petId: int, name: string, status: string) returns (reply: Reply)
      requires Valid()
      modifies this
      ensures Valid() && history == old(history) + [Form(petId, name, status)]
      ensures reply == Handle(old(State()), Form(petId, name, status)).1
      ensures reply == if petId in old(pets) then Ok else NotFound
      ensures reply != Ok ==> pets == old(pets)
      ensures reply == Ok ==>
        pets == old(pets)[petId := Pet(old(pets)[petId].id,
                                       if name == "" then old(pets)[petId].name else name,
                                       old(pets)[petId].photoUrls,
                                       if status == "" then old(pets)[petId].status else Some(status))]
      ensures Cells() == old(Cells())
    {
      AfterAppend(Start(), history, Form(petId, name, status));
      history := history + [Form(petId, name, status)];
      RecordsKept();
      if petId !in pets {
        return NotFound;
      }
      var pet := pets[petId];
      if name != "" {
        pet := pet.(name := name);
      }
      if status != "" {
        pet := pet.(status := Some(status));
      }
      pets := pets[petId := pet];
      StoreOne(petId, pet);
      assert old(Records())[petId] == old(RecordOf(pets[petId]));
      assert forall k :: k in pets ==> pets[k].id == old(pets[k].id);
      reply := Ok;
    }

    method DeletePet(petId: int) returns (reply: Reply)
      requires Valid()
      modifies this
      ensures Valid() && history == old(history) + [Delete(petId)]
      ensures reply == Handle(old(State()), Delete(petId)).1
      ensures reply == if petId in old(pets) then Ok else NotFound
      ensures pets == old(pets) - {petId}
    {
      AfterAppend(Start(), history, Delete(petId));
      history := history + [Delete(petId)];
      RecordsKept();
      if petId !in pets {
        assert pets - {petId} == pets;
        return NotFound;
      }
      pets := pets - {petId};
      assert Records() == old(Records()) - {petId};
      reply := Ok;
    }

    /** GetPetById: the pet as stored, except that the id is what the pointer shows now. */
    method GetPet(petId: int) returns (answer: Option<PetInput>)
      requires Valid()
      ensures answer.Some? <==> petId in State().pets
      ensures answer.Some? ==>
        var pet := State().pets[petId];
        answer.value == PetInput(Some(ReadId(State(), petId)), pet.name, pet.photoUrls, pet.status)
    {
      if petId !in pets {
        return None;
      }
      var pet := pets[petId];
      assert Records()[petId] == RecordOf(pet);
      answer := Some(PetInput(Some(pet.id.value), pet.name, pet.photoUrls, pet.status));
    }

    // -------------------------------------------------------------- queries

    /** The pets whose status is among the given ones, each once, in the order the map is walked. */
    method FindPetsByStatus(statuses: seq<string>) returns (result: seq<Pet>, ghost keys: seq<int>)
      ensures forall p :: p in result ==> p.status.Some? && p.status.value in statuses
      ensures |result| == |KeysAmong(Statuses(), set s | s in statuses)|
      ensures |keys| == |result|
      ensures forall i :: 0 <= i < |keys| ==> keys[i] in pets && result[i] == pets[keys[i]]
      ensures forall i, j :: 0 <= i < j < |keys| ==> keys[i] != keys[j]
      ensures forall k :: k in keys <==> k in pets && pets[k].status.Some? && pets[k].status.value in statuses
    {
      var wanted: set<string> := {};
      for i := 0 to |statuses|
        invariant forall s :: s in wanted <==> s in statuses[..i]
      {
        wanted := wanted + {statuses[i]};
      }
      assert statuses[..|statuses|] == statuses;
      result, keys := [], [];
      var rest: set<int> := pets.Keys;
      while rest != {}
        invariant rest <= pets.Keys
        invariant |keys| == |result|
        invariant forall i :: 0 <= i < |keys| ==> keys[i] in pets && keys[i] !in rest && result[i] == pets[keys[i]]
        invariant forall i, j :: 0 <= i < j < |keys| ==> keys[i] != keys[j]
        invariant forall k :: k in pets && k !in rest ==> (k in keys <==> Matches(pets[k], wanted))
        decreases |rest|
      {
        var k := AnyOf(rest);
        rest := rest - {k};
        if Matches(pets[k], wanted) {
          result, keys := result + [pets[k]], keys + [k];
        }
      }
      SeqOfSet(keys, KeysAmong(Statuses(), set s | s in statuses));
    }

    static predicate Matches(p: Pet, wanted: set<string>) {
      p.status.Some? && p.status.value in wanted
    }

    /** Counts the pets by status in an int32, walking the map in any order. */
    method GetInventory() returns (inventory: map<string, int>)
      ensures Counted(pets.Keys, inventory)
    {
      inventory := map[];
      var rest: set<int> := pets.Keys;
      while rest != {}
        invariant rest <= pets.Keys
        invariant Counted(pets.Keys - rest, inventory)
        decreases |rest|
      {
        var k := AnyOf(rest);
        CountOne(pets.Keys - rest, k, inventory);
        assert pets.Keys - (rest - {k}) == pets.Keys - rest + {k};
        rest := rest - {k};
        if pets[k].status.Some? {
          var s := pets[k].status.value;
          inventory := inventory[s := Increment32(if s in inventory then inventory[s] else 0)];
        }
      }
      assert pets.Keys - rest == pets.Keys;
    }

    /** The statuses of the given pets, each with the number of pets that have it. */
    ghost predicate Counted(keys: set<int>, inventory: map<string, int>)
      requires keys <= pets.Keys
      reads this
    {
      forall s ::
        && (s in inventory <==> KeysOf(keys, s) != {})
        && (s in inventory ==> inventory[s] == Int32(|KeysOf(keys, s)|))
    }

    /** Of the given keys, those of pets with status `s`. */
    ghost function KeysOf(keys: set<int>, s: string): set<int>
      requires keys <= pets.Keys
      reads this
    {
      set k | k in keys && pets[k].status == Some(s)
    }

    lemma KeysOfOneMore(done: set<int>, k: int, s: string)
      requires done <= pets.Keys && k in pets && k !in done
      ensures KeysOf(done + {k}, s) == if pets[k].status == Some(s) then KeysOf(done, s) + {k} else KeysOf(done, s)
      ensures pets[k].status == Some(s) ==> |KeysOf(done + {k}, s)| == |KeysOf(done, s)| + 1
    {
      if pets[k].status == Some(s) {
        assert KeysOf(done + {k}, s) == KeysOf(done, s) + {k};
        assert k !in KeysOf(done, s);
      } else {
        assert KeysOf(done + {k}, s) == KeysOf(done, s);
      }
    }

    lemma CountOne(done: set<int>, k: int, inventory: map<string, int>)
      requires done <= pets.Keys && k in pets && k !in done && Counted(done, inventory)
      ensures pets[k].status.None? ==> Counted(done + {k}, inventory)
      ensures pets[k].status.Some? ==>
        var s := pets[k].status.value;
        Counted(done + {k}, inventory[s := Increment32(if s in inventory then inventory[s] else 0)])
    {
      forall t ensures KeysOf(done + {k}, t) == if pets[k].status == Some(t) then KeysOf(done, t) + {k} else KeysOf(done, t)
      {
        KeysOfOneMore(done, k, t);
      }
      if pets[k].status.Some? {
        var s := pets[k].status.value;
        KeysOfOneMore(done, k, s);
        Int32Step(|KeysOf(done, s)|);
        assert s !in inventory ==> |KeysOf(done, s)| == 0;
      }
    }

    ghost function Statuses(): map<int, Option<string>>
      reads this
    {
      map k | k in pets :: pets[k].status
    }

    /** With fewer than 2^31 pets no count wraps around. */
    lemma CountsExact(inventory: map<string, int>)
      requires |pets| < 0x8000_0000 && Counted(pets.Keys, inventory)
      ensures forall s :: s in inventory ==> inventory[s] == |KeysOf(pets.Keys, s)|
      ensures forall s :: s in inventory ==> KeysOf(pets.Keys, s) == KeysWith(Statuses(), s)
    {
      forall s | s in inventory
        ensures inventory[s] == |KeysOf(pets.Keys, s)|
        ensures KeysOf(pets.Keys, s) == KeysWith(Statuses(), s)
      {
        assert |pets.Keys| == |pets|;
        SubsetSize(KeysOf(pets.Keys, s), pets.Keys);
      }
    }

    /** A new server has one pet available and one pending. */
    lemma NewInventory(inventory: map<string, int>)
      requires Valid() && history == [] && Counted(pets.Keys, inventory)
      ensures inventory == map["available" := 1, "pending" := 1]
    {
      StartIs();
      assert pets.Keys == State().pets.Keys == {1, 2};
      assert Records()[1] == RecordOf(pets[1]) && Records()[2] == RecordOf(pets[2]);
      assert KeysOf(pets.Keys, "available") == {1} && KeysOf(pets.Keys, "pending") == {2};
      forall s | s != "available" && s != "pending" ensures s !in inventory {
        assert KeysOf(pets.Keys, s) == {};
      }
      assert inventory.Keys == {"available", "pending"};
    }

    lemma TotalExact(inventory: map<string, int>)
      requires |pets| < 0x8000_0000 && Counted(pets.Keys, inventory)
      ensures Total(inventory, inventory.Keys) == |set k | k in pets && pets[k].status.Some?|
    {
      CountsExact(inventory);
      CountsAddUp(Statuses(), inventory, inventory.Keys);
      forall k | k in pets && pets[k].status.Some? ensures pets[k].status.value in inventory {
        assert k in KeysOf(pets.Keys, pets[k].status.value);
      }
      assert KeysAmong(Statuses(), inventory.Keys) == set k | k in pets && pets[k].status.Some?;
    }

    /**
     In a store of fewer than 2^31 pets the inventory and the search agree: the
     count of a status is the number of pets the search for that status returns,
     and all counts together are the pets that have a status.
     */
    method QueriesAgree(s: string) returns (inventory: map<string, int>, result: seq<Pet>)
      requires |pets| < 0x8000_0000
      ensures |result| == if s in inventory then inventory[s] else 0
      ensures Total(inventory, inventory.Keys) == |set k | k in pets && pets[k].status.Some?|
    {
      inventory := GetInventory();
      CountsExact(inventory);
      TotalExact(inventory);
      ghost var keys: seq<int>;
      result, keys := FindPetsByStatus([s]);
      SeqOfSet(keys, KeysOf(pets.Keys, s));
    }
  }

  lemma Int32Step(n: nat)
    ensures Int32(n + 1) == Increment32(Int32(n))
  {
    var m := n % INT32_RANGE;
    assert (n + 1) % INT32_RANGE == if m + 1 == INT32_RANGE then 0 else m + 1;
  }

  /** A sequence without repetition is as long as the set of its elements. */
  lemma {:induction false} SeqOfSet(q: seq<int>, s: set<int>)
    requires forall i, j :: 0 <= i < j < |q| ==> q[i] != q[j]
    requires forall x :: x in q <==> x in s
    ensures |q| == |s|
  {
    if q == [] {
      assert s == {} by {
        forall x ensures x !in s { assert x !in q; }
      }
    } else {
      var x := q[0];
      assert x in s;
      forall y ensures y in q[1..] <==> y in s - {x} {
        if y in s - {x} {
          assert y in q;
        }
      }
      SeqOfSet(q[1..], s - {x});
    }
  }

  lemma SubsetSize(a: set<int>, b: set<int>)
    requires a <= b
    ensures |a| <= |b|
  {
    assert b == a + (b - a);
  }
}
