/**
 What the pet store's handlers amount to over whole runs: the keys given to new
 pets, the ids pets show, and when a new pet replaces another.
 */
module PetStoreRuns {
  import opened PetStore
  import opened Sorting
  import opened Wrappers

  // ---------------------------------------------------------------- the counter

  const TWO64: int := 0x1_0000_0000_0000_0000

  /** An int64 incremented `n` times. */
  function Advance(x: int, n: nat): int {
    (x + INT64_MAX + 1 + n) % TWO64 - INT64_MAX - 1
  }

  lemma AdvanceStep(x: int, n: nat)
    requires Int64(x)
    ensures Advance(x, 0) == x
    ensures Advance(Increment(x), n) == Advance(x, n + 1)
    ensures Int64(Advance(x, n))
  {
    if x == INT64_MAX {
      assert (TWO64 + n) % TWO64 == n % TWO64;
    }
  }

  /** It is back where it was after full turns only. */
  lemma AdvanceIsBack(x: int, n: nat)
    requires Int64(x)
    ensures Advance(x, n) == x <==> n % TWO64 == 0
  {
    var y, q, r := x + INT64_MAX + 1, n / TWO64, n % TWO64;
    assert (y + n) % TWO64 == (y + r) % TWO64 by {
      assert y + n == y + r + q * TWO64;
    }
  }

  lemma AdvanceBelow(x: int, n: nat)
    requires Int64(x) && x + n <= INT64_MAX
    ensures Advance(x, n) == x + n
  {
  }

  /** The request takes a number from the counter, whether or not it succeeds. */
  predicate Allocates(r: Request) {
    r.Add? && r.body.Some? && r.body.value.id.None?
  }

  function Allocations(rs: seq<Request>): nat {
    if rs == [] then 0 else (if Allocates(rs[0]) then 1 else 0) + Allocations(rs[1..])
  }

  /** Whatever the requests are, the counter has moved once for each add without an id. */
  lemma {:induction false} CounterAfter(st: Store, rs: seq<Request>)
    requires Int64(st.counter)
    ensures After(st, rs).counter == Advance(st.counter, Allocations(rs))
    ensures Int64(After(st, rs).counter)
    decreases |rs|
  {
    AdvanceStep(st.counter, Allocations(rs));
    if rs != [] {
      AdvanceStep(st.counter, Allocations(rs[1..]));
      CounterAfter(Handle(st, rs[0]).0, rs[1..]);
    }
  }

  // ---------------------------------------------------------------- the ids pets show

  /** The key under which an accepted add or update stores its pet. */
  function StoredKey(st: Store, r: Request): Option<int> {
    var (next, reply) := Handle(st, r);
    if reply != Ok || !(r.Add? || r.Update?) then None
    else Some(if r.body.value.id.None? then next.counter else r.body.value.id.value)
  }

  /** The last request of the run that stored pet `k`. */
  function LastStore(st: Store, rs: seq<Request>, k: int): (i: Option<nat>)
    ensures i.Some? ==> i.value < |rs|
    decreases |rs|
  {
    if rs == [] then None
    else
      match LastStore(Handle(st, rs[0]).0, rs[1..], k)
      case Some(i) => Some(i + 1)
      case None => if StoredKey(st, rs[0]) == Some(k) then Some(0) else None
  }

  /** A request that does not store pet `k` leaves its id pointer, if it leaves the pet. */
  lemma NotStored(st: Store, r: Request, k: int)
    requires StoredKey(st, r) != Some(k) && k in Handle(st, r).0.pets
    ensures k in st.pets && Handle(st, r).0.pets[k].ref == st.pets[k].ref
  {
  }

  lemma Stored(st: Store, r: Request, k: int)
    requires StoredKey(st, r) == Some(k)
    ensures
      var next := Handle(st, r).0;
      && k in next.pets && (Allocates(r) ==> next.counter == k)
      && next.pets[k].ref == if Allocates(r) then Shared else Own(k)
  {
  }

  /** What the id of a pet shows was decided by the request that stored it last. */
  lemma {:induction false} IdDecidedByLastStore(st: Store, rs: seq<Request>, k: int)
    requires Int64(st.counter) && k in After(st, rs).pets
    ensures
      match LastStore(st, rs, k)
      case None => k in st.pets && After(st, rs).pets[k].ref == st.pets[k].ref
      case Some(i) =>
        if Allocates(rs[i])
        then
          && Int64(k) && After(st, rs).pets[k].ref == Shared
          && After(st, rs).counter == Advance(k, Allocations(rs[i + 1..]))
        else After(st, rs).pets[k].ref == Own(k)
    decreases |rs|
  {
    if rs != [] {
      var next := Handle(st, rs[0]).0;
      AdvanceStep(st.counter, 0);
      IdDecidedByLastStore(next, rs[1..], k);
      match LastStore(next, rs[1..], k) {
        case Some(i) =>
          assert rs[1..][i + 1..] == rs[i + 2..];
        case None =>
          if StoredKey(st, rs[0]) == Some(k) {
            Stored(st, rs[0], k);
            CounterAfter(next, rs[1..]);
          } else {
            NotStored(st, rs[0], k);
          }
      }
    }
  }

  /**
   The exact condition, over the requests alone: a pet shows an id that is not
   its key when the last accepted add or update that stored it was an add without
   an id, and more adds without an id, accepted or rejected, came after it.  (The
   counter is back at the key after 2^64 of them.)
   */
  lemma {:induction false} ShowsAnotherIdIff(rs: seq<Request>, k: int)
    requires k in After(Start(), rs).pets
    ensures
      var last := LastStore(Start(), rs, k);
      ReadId(After(Start(), rs), k) != k <==>
        last.Some? && Allocates(rs[last.value]) && Allocations(rs[last.value + 1..]) % TWO64 != 0
  {
    StartIs();
    IdDecidedByLastStore(Start(), rs, k);
    var last := LastStore(Start(), rs, k);
    if last.Some? && Allocates(rs[last.value]) {
      AdvanceIsBack(k, Allocations(rs[last.value + 1..]));
    }
  }

  /** In particular, from the next add without an id on the id is wrong for as long as the pet is not stored anew. */
  lemma {:induction false} StaleAfterNextAllocation(rs: seq<Request>, k: int, i: nat, j: nat)
    requires k in After(Start(), rs).pets && LastStore(Start(), rs, k) == Some(i)
    requires Allocates(rs[i]) && i < j < |rs| && Allocates(rs[j])
    ensures ReadId(After(Start(), rs), k) == k ==> Allocations(rs) > TWO64
    ensures 3 + Allocations(rs) <= INT64_MAX ==> ReadId(After(Start(), rs), k) > k
  {
    var n := Allocations(rs[i + 1..]);
    ShowsAnotherIdIff(rs, k);
    AllocationsFrom(rs[i + 1..], j - i - 1);
    AllocationsFrom(rs, i);
    assert n > 0;
    if 3 + Allocations(rs) <= INT64_MAX {
      StartIs();
      IdDecidedByLastStore(Start(), rs, k);
      CounterAfter(Start(), rs);
      AdvanceBelow(3, Allocations(rs));
      AdvanceStaysAhead(k, n, 3 + Allocations(rs));
    }
  }

  /** A counter that has moved `n` times to `c`, and fewer times than `c` is large, came from below. */
  lemma AdvanceStaysAhead(k: int, n: nat, c: nat)
    requires Int64(k) && 0 < n < c <= INT64_MAX && Advance(k, n) == c
    ensures k < c
  {
  }

  lemma {:induction false} AllocationsFrom(rs: seq<Request>, i: nat)
    requires i < |rs| && Allocates(rs[i])
    ensures Allocations(rs) >= 1 + Allocations(rs[i + 1..])
  {
    if i > 0 {
      AllocationsFrom(rs[1..], i - 1);
      assert rs[1..][i..] == rs[i + 1..];
    }
  }

  /** A complete body without an id. */
  predicate Unnamed(p: PetInput) {
    p.id.None? && Complete(p)
  }

  /** It happens: after two adds without an id on a new server, pet 4 shows id 5. */
  lemma SecondAddSpoilsFirst(p: PetInput, q: PetInput)
    requires Unnamed(p) && Unnamed(q)
    ensures
      var st := After(Start(), [Add(Some(p)), Add(Some(q))]);
      4 in st.pets && ReadId(st, 4) == 5
  {
    StartIs();
    AfterTwo(Start(), Add(Some(p)), Add(Some(q)));
  }

  lemma AfterTwo(st: Store, a: Request, b: Request)
    ensures After(st, [a]) == Handle(st, a).0
    ensures After(st, [a, b]) == Handle(Handle(st, a).0, b).0
  {
    AfterAppend(st, [], a);
    assert [] + [a] == [a];
    AfterAppend(st, [a], b);
    assert [a] + [b] == [a, b];
  }

  // ---------------------------------------------------------------- the keys given

  /** The keys under which the pets added without an id were stored, in order. */
  function KeysGiven(st: Store, rs: seq<Request>): seq<int>
    decreases |rs|
  {
    if rs == [] then []
    else
      var (next, reply) := Handle(st, rs[0]);
      (if Allocates(rs[0]) && reply == Ok then [next.counter] else []) + KeysGiven(next, rs[1..])
  }

  lemma {:induction false} KeysGivenAbove(st: Store, rs: seq<Request>)
    requires Int64(st.counter) && st.counter + Allocations(rs) <= INT64_MAX
    ensures Increasing(KeysGiven(st, rs))
    ensures forall i :: 0 <= i < |KeysGiven(st, rs)| ==> st.counter < KeysGiven(st, rs)[i]
    decreases |rs|
  {
    if rs != [] {
      KeysGivenAbove(Handle(st, rs[0]).0, rs[1..]);
    }
  }

  /** Requests that take a number and are rejected. */
  function Blanks(n: nat): (rs: seq<Request>)
    ensures |rs| == n
  {
    if n == 0 then [] else [Add(Some(PetInput(None, "", [], None)))] + Blanks(n - 1)
  }

  lemma {:induction false} AfterBlanks(st: Store, n: nat)
    requires Int64(st.counter)
    ensures Allocations(Blanks(n)) == n && KeysGiven(st, Blanks(n)) == []
    ensures After(st, Blanks(n)) == st.(counter := Advance(st.counter, n))
    decreases n
  {
    AdvanceStep(st.counter, 0);
    if n > 0 {
      AdvanceStep(st.counter, n - 1);
      assert Blanks(n)[1..] == Blanks(n - 1);
      AfterBlanks(st.(counter := Increment(st.counter)), n - 1);
    }
  }

  /** A run in two parts. */
  lemma {:induction false} InTwoParts(st: Store, a: seq<Request>, b: seq<Request>)
    ensures After(st, a + b) == After(After(st, a), b)
    ensures KeysGiven(st, a + b) == KeysGiven(st, a) + KeysGiven(After(st, a), b)
    ensures Allocations(a + b) == Allocations(a) + Allocations(b)
    decreases |a|
  {
    if a == [] {
      assert a + b == b;
    } else {
      assert (a + b)[1..] == a[1..] + b;
      InTwoParts(Handle(st, a[0]).0, a[1..], b);
    }
  }

  const PLAIN: PetInput := PetInput(None, "x", ["y"], None)

  /** The run that takes the largest number, and then the smallest. */
  lemma {:induction false} WrappingRun(n: nat) returns (rs: seq<Request>)
    requires 3 + n > INT64_MAX
    ensures Allocations(rs) == n && !Increasing(KeysGiven(Start(), rs))
  {
    StartIs();
    var two, rest := [Add(Some(PLAIN)), Add(Some(PLAIN))], Blanks(n - (INT64_MAX - 2));
    var front := Blanks(INT64_MAX - 4);
    AfterBlanks(Start(), INT64_MAX - 4);
    AdvanceBelow(3, INT64_MAX - 4);
    TwoKeys(After(Start(), front), rest);
    InTwoParts(Start(), front, two + rest);
    InTwoParts(Start(), two, rest);
    assert Allocations(two) == 2 by {
      assert two[1..] == [Add(Some(PLAIN))] && two[1..][1..] == [];
    }
    AfterBlanks(Start(), n - (INT64_MAX - 2));
    rs := front + (two + rest);
    assert KeysGiven(Start(), rs) == KeysGiven(After(Start(), front), two + rest);
  }

  lemma TwoKeys(st: Store, rest: seq<Request>)
    requires st.counter == INT64_MAX - 1
    ensures
      var keys := KeysGiven(st, [Add(Some(PLAIN)), Add(Some(PLAIN))] + rest);
      |keys| >= 2 && keys[0] == INT64_MAX && keys[1] < 0
  {
    var a := Add(Some(PLAIN));
    assert ([a, a] + rest)[1..] == [a] + rest && ([a] + rest)[1..] == rest;
  }

  /**
   The keys given to pets without an id increase, whatever was rejected in
   between, in all runs that take `n` numbers exactly when the counter, which
   starts at 3, cannot get past the largest int64.
   */
  lemma {:induction false} KeysIncreaseIff(n: nat)
    ensures (forall rs :: Allocations(rs) == n ==> Increasing(KeysGiven(Start(), rs))) <==> 3 + n <= INT64_MAX
  {
    StartIs();
    if 3 + n <= INT64_MAX {
      forall rs | Allocations(rs) == n ensures Increasing(KeysGiven(Start(), rs)) {
        KeysGivenAbove(Start(), rs);
      }
    } else {
      var rs := WrappingRun(n);
    }
  }

  // ---------------------------------------------------------------- what a request changes

  ghost predicate OthersKept(st: Store, next: Store, k: int) {
    forall j :: j != k ==> (j in st.pets <==> j in next.pets) && (j in st.pets ==> next.pets[j] == st.pets[j])
  }

  /**
   A request leaves alone every pet but one, and all of them when it is
   rejected; a pet it stores has what was sent, and shows its key as its id.
   */
  lemma OnePetAtMost(st: Store, r: Request)
    ensures
      var (next, reply) := Handle(st, r);
      && (reply != Ok ==> next.pets == st.pets)
      && exists k {:trigger OthersKept(st, next, k)} :: OthersKept(st, next, k)
    ensures StoredKey(st, r).Some? ==>
      var next, k, p := Handle(st, r).0, StoredKey(st, r).value, r.body.value;
      && OthersKept(st, next, k) && k in next.pets && ReadId(next, k) == k
      && next.pets[k] == Record(next.pets[k].ref, p.name, p.photoUrls, p.status)
  {
    var next := Handle(st, r).0;
    var k := match r
      case Add(Some(p)) => if p.id.None? then next.counter else p.id.value
      case Update(Some(p)) => if p.id.None? then 0 else p.id.value
      case Form(k, _, _) => k
      case Delete(k) => k
      case _ => 0;
    assert OthersKept(st, next, k);
  }

  /** The body that has a pet's key and fields, but for the name and the status where they are given. */
  function FormAsBody(st: Store, k: int, name: string, status: string): PetInput
    requires k in st.pets
  {
    var pet := st.pets[k];
    PetInput(Some(k), if name == "" then pet.name else name, pet.photoUrls,
             if status == "" then pet.status else Some(status))
  }

  /**
   A form is the update that fills in what the form leaves out, except on a pet
   that shares the counter as its id: the form leaves it so, the update ends it.
   Naming a stored pet in a complete add is an update, too.
   */
  lemma ThreeWaysToUpdate(st: Store, k: int, name: string, status: string)
    requires k in st.pets
    ensures
      var p := FormAsBody(st, k, name, status);
      && (Handle(st, Form(k, name, status)) == Handle(st, Update(Some(p))) <==> st.pets[k].ref == Own(k))
      && (p.name != "" && p.photoUrls != [] ==> Handle(st, Add(Some(p))) == Handle(st, Update(Some(p))))
  {
    var form, update := Form(k, name, status), Update(Some(FormAsBody(st, k, name, status)));
    assert Handle(st, update).0.pets[k].ref == Own(k);
    assert Handle(st, form).0.pets[k] == Handle(st, update).0.pets[k].(ref := st.pets[k].ref);
  }

  // ---------------------------------------------------------------- overwriting

  ghost predicate KeepsPets(st: Store, next: Store) {
    forall k :: k in st.pets ==> k in next.pets && next.pets[k] == st.pets[k]
  }

  /** Every pet added without an id is safe to add exactly when the next number is not a key already. */
  lemma AddKeepsPetsIff(st: Store)
    ensures (forall p :: Unnamed(p) ==> KeepsPets(st, AddPet(st, p).0)) <==> Increment(st.counter) !in st.pets
  {
    var k := Increment(st.counter);
    if k in st.pets {
      var p := PLAIN.(name := st.pets[k].name + "x");
      assert AddPet(st, p).0.pets[k].name == p.name;
      assert !KeepsPets(st, AddPet(st, p).0);
    }
  }

  /** It can be one: a client that names id 4 on a new server loses its pet to the next one. */
  lemma AddCanOverwrite(named: PetInput, unnamed: PetInput)
    requires Complete(named) && named.id == Some(4) && Unnamed(unnamed)
    ensures !KeepsPets(After(Start(), [Add(Some(named))]), After(Start(), [Add(Some(named)), Add(Some(unnamed))]))
  {
    StartIs();
    AfterTwo(Start(), Add(Some(named)), Add(Some(unnamed)));
    assert After(Start(), [Add(Some(named))]).pets[4].ref == Own(4);
  }

  ghost predicate AllUnnamed(rs: seq<Request>) {
    forall i :: 0 <= i < |rs| ==> Allocates(rs[i])
  }

  /** Number `k` is still to be taken, and is a key. */
  ghost predicate Ahead(st: Store, k: int) {
    k in st.pets && st.counter < k <= INT64_MAX
  }

  ghost predicate NoneAhead(st: Store) {
    forall k :: k in st.pets ==> !Ahead(st, k)
  }

  /** An id that an add names is not ahead of the counter. */
  predicate NamesAtMostCounter(st: Store, r: Request) {
    r.Add? && r.body.Some? && r.body.value.id.Some? ==> r.body.value.id.value <= st.counter
  }

  /** Then no key gets ahead, and what the add takes was not a key. */
  lemma StaysBehind(st: Store, r: Request)
    requires NoneAhead(st) && NamesAtMostCounter(st, r) && (Allocates(r) ==> st.counter < INT64_MAX)
    ensures NoneAhead(Handle(st, r).0) && (Allocates(r) ==> KeepsPets(st, Handle(st, r).0))
  {
    var next := Handle(st, r).0;
    forall k | k in next.pets ensures !Ahead(next, k) {
      assert k in st.pets ==> !Ahead(st, k);
    }
    assert !Ahead(st, st.counter + 1);
  }

  /** These adds without ids lose one of the store's pets before the counter wraps around. */
  ghost predicate Loses(st: Store, rs: seq<Request>) {
    AllUnnamed(rs) && st.counter + |rs| <= INT64_MAX && !KeepsPets(st, After(st, rs))
  }

  lemma {:induction false} BehindIsSafe(st: Store, rs: seq<Request>)
    requires Int64(st.counter) && NoneAhead(st) && AllUnnamed(rs) && st.counter + |rs| <= INT64_MAX
    ensures KeepsPets(st, After(st, rs))
    decreases |rs|
  {
    if rs != [] {
      StaysBehind(st, rs[0]);
      BehindIsSafe(Handle(st, rs[0]).0, rs[1..]);
    }
  }

  /** The add that takes number `k` after blanks that take those before it. */
  lemma {:induction false} AheadIsLost(st: Store, k: int) returns (rs: seq<Request>)
    requires Int64(st.counter) && Ahead(st, k)
    ensures Loses(st, rs)
  {
    var n, p := k - st.counter - 1, PLAIN.(name := st.pets[k].name + "x");
    AfterBlanks(st, n);
    AdvanceBelow(st.counter, n);
    BlanksAllocate(n);
    AfterAppend(st, Blanks(n), Add(Some(p)));
    rs := Blanks(n) + [Add(Some(p))];
    assert After(st, rs).pets[k].name == p.name;
  }

  lemma {:induction false} BlanksAllocate(n: nat)
    ensures AllUnnamed(Blanks(n))
  {
    if n > 0 {
      BlanksAllocate(n - 1);
    }
  }

  /**
   Adds without ids can go on to lose a pet, before the counter wraps around,
   exactly when some key is ahead of the counter.
   */
  lemma {:induction false} LosesIffAhead(st: Store)
    requires Int64(st.counter)
    ensures (exists rs :: Loses(st, rs)) <==> (exists k :: Ahead(st, k))
  {
    if k :| Ahead(st, k) {
      var rs := AheadIsLost(st, k);
    } else if rs :| Loses(st, rs) {
      BehindIsSafe(st, rs);
    }
  }

  predicate NamesUpToCounter(st: Store, rs: seq<Request>)
    decreases |rs|
  {
    rs == [] || (NamesAtMostCounter(st, rs[0]) && NamesUpToCounter(Handle(st, rs[0]).0, rs[1..]))
  }

  /** No add without an id in the run loses a pet. */
  ghost predicate NeverLoses(st: Store, rs: seq<Request>)
    decreases |rs|
  {
    rs == [] ||
    (&& (Allocates(rs[0]) ==> KeepsPets(st, Handle(st, rs[0]).0))
     && NeverLoses(Handle(st, rs[0]).0, rs[1..]))
  }

  lemma {:induction false} UpToCounterIsSafe(st: Store, rs: seq<Request>)
    requires Int64(st.counter) && NoneAhead(st)
    requires NamesUpToCounter(st, rs) && st.counter + Allocations(rs) <= INT64_MAX
    ensures NeverLoses(st, rs)
    decreases |rs|
  {
    if rs != [] {
      StaysBehind(st, rs[0]);
      UpToCounterIsSafe(Handle(st, rs[0]).0, rs[1..]);
    }
  }

  lemma {:induction false} UnnamedNameNothing(st: Store, rs: seq<Request>)
    requires AllUnnamed(rs)
    ensures NamesUpToCounter(st, rs)
    decreases |rs|
  {
    if rs != [] {
      UnnamedNameNothing(Handle(st, rs[0]).0, rs[1..]);
    }
  }

  lemma {:induction false} NeverLosesLater(st: Store, a: seq<Request>, b: seq<Request>)
    requires NeverLoses(st, a + b)
    ensures NeverLoses(After(st, a), b)
    decreases |a|
  {
    if a == [] {
      assert a + b == b;
    } else {
      assert (a + b)[1..] == a[1..] + b;
      NeverLosesLater(Handle(st, a[0]).0, a[1..], b);
    }
  }

  /** A pet with the smallest id is lost when the counter wraps around to it. */
  lemma {:induction false} LosingRun(n: nat) returns (rs: seq<Request>)
    requires 3 + n > INT64_MAX
    ensures NamesUpToCounter(Start(), rs) && Allocations(rs) == n && !NeverLoses(Start(), rs)
  {
    StartIs();
    var named, m := Add(Some(PLAIN.(id := Some(-INT64_MAX - 1)))), INT64_MAX - 3;
    var rest := [Add(Some(PLAIN))] + Blanks(n - m - 1);
    var st := Handle(Start(), named).0;
    var full := st.(counter := INT64_MAX);
    rs := [named] + (Blanks(m) + rest);
    assert rs[1..] == Blanks(m) + rest;
    AfterBlanks(st, m);
    AdvanceBelow(3, m);
    AfterBlanks(st, n - m - 1);
    InTwoParts(st, Blanks(m), rest);
    assert rest[1..] == Blanks(n - m - 1);
    BlanksAllocate(m);
    BlanksAllocate(n - m - 1);
    UnnamedNameNothing(st, Blanks(m) + rest);
    assert !NeverLoses(full, rest) by {
      var k := -INT64_MAX - 1;
      assert k in full.pets && full.pets[k].ref == Own(k) && AddPet(full, PLAIN).0.pets[k].ref == Shared;
    }
    if NeverLoses(st, Blanks(m) + rest) {
      NeverLosesLater(st, Blanks(m), rest);
    }
  }

  /**
   Where adds name only ids up to the counter no add without an id ever loses a pet, in
   all runs that take `n` numbers, exactly when the counter cannot wrap around.
   */
  lemma {:induction false} NothingOverwrittenIff(n: nat)
    ensures (forall rs :: NamesUpToCounter(Start(), rs) && Allocations(rs) == n ==> NeverLoses(Start(), rs))
            <==> 3 + n <= INT64_MAX
  {
    StartIs();
    if 3 + n <= INT64_MAX {
      forall rs | NamesUpToCounter(Start(), rs) && Allocations(rs) == n ensures NeverLoses(Start(), rs) {
        UpToCounterIsSafe(Start(), rs);
      }
    } else {
      var rs := LosingRun(n);
    }
  }
}
