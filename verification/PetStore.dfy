/**
 The pet store's state as values: what the handlers do to the pets and to the
 counter for new ids.

 A pet's id is a pointer.  A pet that came with an id has a cell of its own; a
 pet that came without one gets a pointer to the store's counter itself, and so
 shows whatever the counter is now.
 */
module PetStore {
  import opened Wrappers

  /** A decoded request body; `None` where the body could not be decoded. */
  datatype PetInput = PetInput(id: Option<int>, name: string, photoUrls: seq<string>, status: Option<string>)

  datatype Ref = Shared | Own(value: int)

  datatype Record = Record(ref: Ref, name: string, photoUrls: seq<string>, status: Option<string>)

  datatype Store = Store(pets: map<int, Record>, counter: int)

  datatype Reply = Ok | BadRequest | NotFound

  datatype Request =
    | Add(body: Option<PetInput>)
    | Update(body: Option<PetInput>)
    | Form(petId: int, name: string, status: string)
    | Delete(petId: int)

  const INT64_MAX: int := 0x7fff_ffff_ffff_ffff

  predicate Int64(x: int) {
    -INT64_MAX - 1 <= x <= INT64_MAX
  }

  /** The increment of an int64. */
  function Increment(x: int): int {
    if x == INT64_MAX then -INT64_MAX - 1 else x + 1
  }

  /** What the id of a stored pet reads as. */
  function ReadId(st: Store, k: int): int
    requires k in st.pets
  {
    match st.pets[k].ref
    case Shared => st.counter
    case Own(v) => v
  }

  // ---------------------------------------------------------------- the handlers

  predicate Complete(p: PetInput) {
    p.name != "" && p.photoUrls != []
  }

  /** The counter moves before the fields are looked at, and the new pet's key is the new counter. */
  function AddPet(st: Store, p: PetInput): (Store, Reply) {
    var counter := if p.id.None? then Increment(st.counter) else st.counter;
    if !Complete(p) then (st.(counter := counter), BadRequest)
    else
      var key, ref := if p.id.None? then counter else p.id.value, if p.id.None? then Shared else Own(p.id.value);
      (Store(st.pets[key := Record(ref, p.name, p.photoUrls, p.status)], counter), Ok)
  }

  function UpdatePet(st: Store, p: PetInput): (Store, Reply) {
    if p.id.None? then (st, BadRequest)
    else if p.id.value !in st.pets then (st, NotFound)
    else (st.(pets := st.pets[p.id.value := Record(Own(p.id.value), p.name, p.photoUrls, p.status)]), Ok)
  }

  function UpdateWithForm(st: Store, k: int, name: string, status: string): (Store, Reply) {
    if k !in st.pets then (st, NotFound)
    else
      var named := if name != "" then st.pets[k].(name := name) else st.pets[k];
      var pet := if status != "" then named.(status := Some(status)) else named;
      (st.(pets := st.pets[k := pet]), Ok)
  }

  function DeletePet(st: Store, k: int): (Store, Reply) {
    if k !in st.pets then (st, NotFound) else (st.(pets := st.pets - {k}), Ok)
  }

  function Handle(st: Store, r: Request): (Store, Reply) {
    match r
    case Add(None) => (st, BadRequest)
    case Add(Some(p)) => AddPet(st, p)
    case Update(None) => (st, BadRequest)
    case Update(Some(p)) => UpdatePet(st, p)
    case Form(k, name, status) => UpdateWithForm(st, k, name, status)
    case Delete(k) => DeletePet(st, k)
  }

  function After(st: Store, rs: seq<Request>): Store
    decreases |rs|
  {
    if rs == [] then st else After(Handle(st, rs[0]).0, rs[1..])
  }

  lemma {:induction false} AfterAppend(st: Store, rs: seq<Request>, r: Request)
    ensures After(st, rs + [r]) == Handle(After(st, rs), r).0
    decreases |rs|
  {
    if rs == [] {
      assert rs + [r] == [r] && [r][1..] == [];
    } else {
      assert (rs + [r])[1..] == rs[1..] + [r];
      AfterAppend(Handle(st, rs[0]).0, rs[1..], r);
    }
  }

  /** Loading one sample pet, which has an id, keeps the counter ahead of it. */
  function LoadOne(st: Store, p: PetInput): Store
    requires p.id.Some?
  {
    var id := p.id.value;
    Store(st.pets[id := Record(Own(id), p.name, p.photoUrls, p.status)],
          if id >= st.counter then Increment(id) else st.counter)
  }

  function Load(samples: seq<PetInput>): Store
    requires forall i :: 0 <= i < |samples| ==> samples[i].id.Some?
  {
    if samples == [] then Store(map[], 1)
    else LoadOne(Load(samples[..|samples| - 1]), samples[|samples| - 1])
  }

  ghost predicate AllBehind(st: Store) {
    forall k :: k in st.pets ==> k < st.counter
  }

  predicate AllNamed(samples: seq<PetInput>) {
    forall i :: 0 <= i < |samples| ==> samples[i].id.Some? && Int64(samples[i].id.value)
  }

  predicate NoneLargest(samples: seq<PetInput>) {
    forall i :: 0 <= i < |samples| ==> samples[i].id.Some? && samples[i].id.value < INT64_MAX
  }

  lemma LoadOneAhead(st: Store, p: PetInput)
    requires AllBehind(st) && p.id.Some? && p.id.value < INT64_MAX
    ensures AllBehind(LoadOne(st, p))
  {
  }

  lemma {:induction false} LoadedAhead(samples: seq<PetInput>)
    requires NoneLargest(samples)
    ensures AllBehind(Load(samples))
  {
    if samples != [] {
      var n := |samples| - 1;
      assert samples[n].id.Some? && samples[n].id.value < INT64_MAX;
      LoadedAhead(samples[..n]);
      LoadOneAhead(Load(samples[..n]), samples[n]);
    }
  }

  lemma {:induction false} LoadedHas(samples: seq<PetInput>, i: nat)
    requires AllNamed(samples) && i < |samples|
    ensures samples[i].id.value in Load(samples).pets
  {
    var n := |samples| - 1;
    if i < n {
      LoadedHas(samples[..n], i);
      assert samples[..n][i] == samples[i];
    }
  }

  lemma {:induction false} LoadedInt64(samples: seq<PetInput>)
    requires AllNamed(samples)
    ensures Int64(Load(samples).counter)
  {
    if samples != [] {
      var n := |samples| - 1;
      assert Int64(samples[n].id.value);
      LoadedInt64(samples[..n]);
    }
  }

  /**
   The counter is then ahead of every id, exactly when none of them is the
   largest int64, from which it wraps around.
   */
  lemma {:induction false} LoadedAheadIff(samples: seq<PetInput>)
    requires AllNamed(samples)
    ensures AllBehind(Load(samples)) <==> NoneLargest(samples)
  {
    if NoneLargest(samples) {
      LoadedAhead(samples);
    } else {
      var i: nat :| i < |samples| && samples[i].id.value >= INT64_MAX;
      LoadedHas(samples, i);
      LoadedInt64(samples);
    }
  }

  const SAMPLES: seq<PetInput> := [
    PetInput(Some(1), "Buddy", ["https://example.com/buddy.jpg"], Some("available")),
    PetInput(Some(2), "Mittens", ["https://example.com/mittens.jpg"], Some("pending"))]

  /** The store a new server starts with. */
  function Start(): Store {
    Load(SAMPLES)
  }

  lemma StartIs()
    ensures Start().counter == 3 && Start().pets.Keys == {1, 2}
    ensures Start().pets[1] == Record(Own(1), "Buddy", ["https://example.com/buddy.jpg"], Some("available"))
    ensures Start().pets[2] == Record(Own(2), "Mittens", ["https://example.com/mittens.jpg"], Some("pending"))
  {
    assert SAMPLES[..1] == [SAMPLES[0]] && SAMPLES[..1][..0] == [];
    assert Load(SAMPLES[..1]) == LoadOne(Store(map[], 1), SAMPLES[0]);
  }

  // ---------------------------------------------------------------- the aggregate queries

  /** Of the pets with these statuses, those that have status `s`. */
  ghost function KeysWith(statuses: map<int, Option<string>>, s: string): set<int> {
    set k | k in statuses && statuses[k] == Some(s)
  }

  /** Those whose status is one of `ss`. */
  ghost function KeysAmong(statuses: map<int, Option<string>>, ss: set<string>): set<int> {
    set k | k in statuses && statuses[k].Some? && statuses[k].value in ss
  }

  ghost function Pick(ss: set<string>): (s: string)
    requires ss != {}
    ensures s in ss
  {
    var s :| s in ss; s
  }

  /** The sum of an inventory's counts over some statuses. */
  ghost function Total(inventory: map<string, int>, ss: set<string>): int
    requires ss <= inventory.Keys
  {
    if ss == {} then 0 else inventory[Pick(ss)] + Total(inventory, ss - {Pick(ss)})
  }

  /** Status by status the pets are divided up, so the counts add up. */
  lemma {:induction false} CountsAddUp(statuses: map<int, Option<string>>, inventory: map<string, int>, ss: set<string>)
    requires ss <= inventory.Keys
    requires forall s :: s in inventory ==> inventory[s] == |KeysWith(statuses, s)|
    ensures Total(inventory, ss) == |KeysAmong(statuses, ss)|
  {
    if ss == {} {
      assert KeysAmong(statuses, ss) == {};
    } else {
      var s := Pick(ss);
      CountsAddUp(statuses, inventory, ss - {s});
      assert KeysAmong(statuses, ss) == KeysWith(statuses, s) + KeysAmong(statuses, ss - {s});
      assert KeysWith(statuses, s) !! KeysAmong(statuses, ss - {s});
    }
  }
}
