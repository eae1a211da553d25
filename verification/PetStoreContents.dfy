/**
 What each request does to the store, and what the store has in it after a whole
 run of them.
 */
module PetStoreContents {
  import opened PetStore
  import opened PetStoreRuns
  import opened Wrappers

  // ---------------------------------------------------------------- one request

  /** Which requests are accepted, and how the others are turned down. */
  lemma RepliesAre(st: Store, r: Request)
    ensures
      var reply := Handle(st, r).1;
      match r
      case Add(body) =>
        reply == if body.Some? && body.value.name != "" && body.value.photoUrls != [] then Ok else BadRequest
      case Update(body) =>
        && (reply == BadRequest <==> body.None? || body.value.id.None?)
        && (reply == Ok <==> body.Some? && body.value.id.Some? && body.value.id.value in st.pets)
      case Form(k, _, _) => reply == if k in st.pets then Ok else NotFound
      case Delete(k) => reply == if k in st.pets then Ok else NotFound
  {
  }

  /** A deletion takes away the pet it names and nothing else. */
  lemma DeletedIsGone(st: Store, k: int)
    ensures
      var next := Handle(st, Delete(k)).0;
      && next.counter == st.counter
      && (forall j :: j in next.pets <==> j in st.pets && j != k)
      && (forall j :: j in next.pets ==> next.pets[j] == st.pets[j])
  {
  }

  /** A form sets the name and the status of the pet it names, each where given, and nothing else. */
  lemma FormSets(st: Store, k: int, name: string, status: string)
    ensures
      var next := Handle(st, Form(k, name, status)).0;
      && next.counter == st.counter && next.pets.Keys == st.pets.Keys
      && (forall j :: j in st.pets && j != k ==> next.pets[j] == st.pets[j])
      && (k in st.pets ==>
            && next.pets[k].name == (if name == "" then st.pets[k].name else name)
            && next.pets[k].status == (if status == "" then st.pets[k].status else Some(status))
            && next.pets[k].photoUrls == st.pets[k].photoUrls && next.pets[k].ref == st.pets[k].ref)
  {
  }

  // ---------------------------------------------------------------- which pets are there

  /** One request decides about pet `k` only by storing or deleting it. */
  lemma PresentStep(st: Store, r: Request, k: int)
    ensures k in Handle(st, r).0.pets <==> StoredKey(st, r) == Some(k) || (k in st.pets && r != Delete(k))
  {
  }

  lemma {:induction false} PresentFrom(st: Store, rs: seq<Request>, k: int)
    ensures k in After(st, rs).pets <==>
      match LastStore(st, rs, k)
      case None => k in st.pets && Delete(k) !in rs
      case Some(i) => Delete(k) !in rs[i + 1..]
    decreases |rs|
  {
    if rs != [] {
      var next, rest := Handle(st, rs[0]).0, rs[1..];
      PresentFrom(next, rest, k);
      PresentStep(st, rs[0], k);
      match LastStore(next, rest, k) {
        case Some(i) =>
          assert rest[i + 1..] == rs[i + 2..];
        case None =>
          assert Delete(k) in rs <==> rs[0] == Delete(k) || Delete(k) in rest;
      }
    }
  }

  /**
   After every run a pet is there exactly when it was stored last and not deleted
   since, or it was one of the samples and was neither stored nor deleted.
   */
  lemma {:induction false} PresentIff(rs: seq<Request>, k: int)
    ensures k in After(Start(), rs).pets <==>
      match LastStore(Start(), rs, k)
      case None => (k == 1 || k == 2) && Delete(k) !in rs
      case Some(i) => Delete(k) !in rs[i + 1..]
  {
    StartIs();
    PresentFrom(Start(), rs, k);
  }

  // ---------------------------------------------------------------- and what is known of them

  /** The name and the status after one request. */
  function NameGiven(r: Request, k: int, name: string): string {
    if r.Form? && r.petId == k && r.name != "" then r.name else name
  }

  function StatusGiven(r: Request, k: int, status: Option<string>): Option<string> {
    if r.Form? && r.petId == k && r.status != "" then Some(r.status) else status
  }

  /** The name after the requests, when it was `name` before: the last one a form gave to pet `k`. */
  function NameAfter(rs: seq<Request>, k: int, name: string): string {
    if rs == [] then name else NameAfter(rs[1..], k, NameGiven(rs[0], k, name))
  }

  /** The status likewise. */
  function StatusAfter(rs: seq<Request>, k: int, status: Option<string>): Option<string> {
    if rs == [] then status else StatusAfter(rs[1..], k, StatusGiven(rs[0], k, status))
  }

  /** The fields of pet `k`, when they were these and then the requests came. */
  predicate Has(pet: Record, rs: seq<Request>, k: int, name: string, photoUrls: seq<string>, status: Option<string>) {
    pet.name == NameAfter(rs, k, name) && pet.photoUrls == photoUrls && pet.status == StatusAfter(rs, k, status)
  }

  /** A request that does not store the pet changes its fields only by a form. */
  lemma FieldsStep(st: Store, r: Request, k: int)
    requires k in Handle(st, r).0.pets && StoredKey(st, r) != Some(k)
    ensures
      && k in st.pets
      && var pet, was := Handle(st, r).0.pets[k], st.pets[k];
         && pet.name == NameGiven(r, k, was.name) && pet.photoUrls == was.photoUrls
         && pet.status == StatusGiven(r, k, was.status)
  {
    if r.Form? && r.petId == k {
      FormSets(st, k, r.name, r.status);
    }
  }

  lemma {:induction false} FieldsUnstored(st: Store, rs: seq<Request>, k: int)
    requires k in After(st, rs).pets && LastStore(st, rs, k).None?
    ensures
      k in st.pets && Has(After(st, rs).pets[k], rs, k, st.pets[k].name, st.pets[k].photoUrls, st.pets[k].status)
    decreases |rs|
  {
    if rs != [] {
      var next := Handle(st, rs[0]).0;
      FieldsUnstored(next, rs[1..], k);
      FieldsStep(st, rs[0], k);
    }
  }

  lemma {:induction false} FieldsStored(st: Store, rs: seq<Request>, k: int, i: nat)
    requires k in After(st, rs).pets && LastStore(st, rs, k) == Some(i)
    ensures
      && (rs[i].Add? || rs[i].Update?) && rs[i].body.Some?
      && var p := rs[i].body.value; Has(After(st, rs).pets[k], rs[i + 1..], k, p.name, p.photoUrls, p.status)
    decreases |rs|
  {
    var next, rest := Handle(st, rs[0]).0, rs[1..];
    if LastStore(next, rest, k).Some? {
      FieldsStored(next, rest, k, i - 1);
      assert rest[i - 1] == rs[i] && rest[i..] == rs[i + 1..];
    } else {
      StoredIsBody(st, rs[0], k);
      FieldsUnstored(next, rest, k);
    }
  }

  lemma StoredIsBody(st: Store, r: Request, k: int)
    requires StoredKey(st, r) == Some(k)
    ensures (r.Add? || r.Update?) && r.body.Some?
    ensures
      var pet, p := Handle(st, r).0.pets[k], r.body.value;
      pet.name == p.name && pet.photoUrls == p.photoUrls && pet.status == p.status
  {
  }

  /**
   After every run a pet has the fields it was last stored with, or those of the
   sample, except that its name and its status are the last ones a form gave it
   since.
   */
  lemma {:induction false} FieldsAfter(rs: seq<Request>, k: int)
    requires k in After(Start(), rs).pets
    ensures
      var pet := After(Start(), rs).pets[k];
      match LastStore(Start(), rs, k)
      case None =>
        if k == 1 then Has(pet, rs, 1, "Buddy", ["https://example.com/buddy.jpg"], Some("available"))
        else k == 2 && Has(pet, rs, 2, "Mittens", ["https://example.com/mittens.jpg"], Some("pending"))
      case Some(i) =>
        && (rs[i].Add? || rs[i].Update?) && rs[i].body.Some?
        && var p := rs[i].body.value; Has(pet, rs[i + 1..], k, p.name, p.photoUrls, p.status)
  {
    StartIs();
    match LastStore(Start(), rs, k) {
      case None => FieldsUnstored(Start(), rs, k);
      case Some(i) => FieldsStored(Start(), rs, k, i);
    }
  }
}
