/** The in-memory user collection of the service: a process-wide ordered
    sequence of user records that the request handlers list, append to,
    replace in place and splice, after a linear find-first lookup by id. */
module Users {

  /** Ids are the strings the id generator produces and the route carries. */
  type Id = string

  /** One user record. The name and the age are taken from the request body
      as they are, with no validation, so they are left as type parameters. */
  datatype User<N, A> = User(id: Id, name: N, age: A)

  datatype Option<T> = None | Some(value: T)

  /** The outcome of an operation that needs an existing id: `NotFound`
      stands in for the "User not found" 404 answer of the lookup step. */
  datatype Outcome<T> = Found(value: T) | NotFound

  /** Some record of `s` carries `id`. */
  predicate HasId<N, A>(s: seq<User<N, A>>, id: Id)
  {
    exists k :: 0 <= k < |s| && s[k].id == id
  }

  /** No two records of `s` share an id: the collection's invariant. */
  predicate UniqueIds<N, A>(s: seq<User<N, A>>)
  {
    forall i, j :: 0 <= i < j < |s| ==> s[i].id != s[j].id
  }

  /** Find-first lookup by id, the reference definition of the scan the
      lookup step performs: the position of the first record carrying `id`,
      or `None` exactly when no record carries it. */
  function IndexOf<N, A>(s: seq<User<N, A>>, id: Id): (r: Option<nat>)
    ensures r.Some? ==> r.value < |s| && s[r.value].id == id
    ensures r.Some? ==> forall k :: 0 <= k < r.value ==> s[k].id != id
    ensures r.None? <==> !HasId(s, id)
  {
    if s == [] then None
    else if s[0].id == id then Some(0)
    else
      match IndexOf(s[1..], id)
      case None =>
        assert forall k :: 1 <= k < |s| ==> s[k] == s[1..][k - 1];
        None
      case Some(k) => Some(k + 1)
  }

  /** `s` with the entry at position `i` cut out and the gap closed. */
  function RemoveAt<T>(s: seq<T>, i: nat): (r: seq<T>)
    requires i < |s|
    ensures |r| == |s| - 1
    ensures forall k :: 0 <= k < i ==> r[k] == s[k]
    ensures forall k :: i <= k < |r| ==> r[k] == s[k + 1]
    ensures multiset(r) + multiset{s[i]} == multiset(s)
  {
    assert s == s[..i] + [s[i]] + s[i + 1..];
    s[..i] + s[i + 1..]
  }

  /** Under unique ids the lookup is exact: it finds position `i` exactly
      when the record at `i` carries the id. */
  lemma LocateExact<N, A>(s: seq<User<N, A>>, id: Id, i: nat)
    requires UniqueIds(s)
    ensures IndexOf(s, id) == Some(i) <==> i < |s| && s[i].id == id
  {
    if i < |s| && s[i].id == id {
      assert HasId(s, id);
    }
  }

  /** After an append, lookups of ids already present are unchanged, and
      the appended id, when it is new, is found at the old length. */
  lemma AppendLocate<N, A>(s: seq<User<N, A>>, u: User<N, A>, id: Id)
    ensures IndexOf(s + [u], id) ==
      if HasId(s, id) then IndexOf(s, id)
      else if u.id == id then Some(|s|)
      else None
  {
    var t := s + [u];
    assert forall k :: 0 <= k < |s| ==> t[k] == s[k];
    if HasId(s, id) {
      var i := IndexOf(s, id).value;
      assert t[i].id == id;
    } else if u.id == id {
      assert t[|s|].id == id;
    } else {
      assert forall k :: 0 <= k < |t| ==> t[k].id != id;
    }
  }

  /** Appending a record whose id is fresh keeps the ids unique. */
  lemma {:induction false} AppendKeepsUnique<N, A>(s: seq<User<N, A>>, u: User<N, A>)
    requires UniqueIds(s)
    requires !HasId(s, u.id)
    ensures UniqueIds(s + [u])
  {
    var t := s + [u];
    forall i, j | 0 <= i < j < |t| ensures t[i].id != t[j].id {
      if j == |s| {
        assert t[i] == s[i];
      } else {
        assert t[i] == s[i] && t[j] == s[j];
      }
    }
  }

  /** Replacing a record by one with the same id keeps the ids unique and
      leaves the answer of every lookup unchanged. */
  lemma ReplaceKeepsLookups<N, A>(s: seq<User<N, A>>, i: nat, u: User<N, A>, id: Id)
    requires i < |s| && u.id == s[i].id
    ensures UniqueIds(s) ==> UniqueIds(s[i := u])
    ensures IndexOf(s[i := u], id) == IndexOf(s, id)
  {
    var t := s[i := u];
    assert forall k :: 0 <= k < |s| ==> t[k].id == s[k].id;
    if HasId(s, id) {
      var a := IndexOf(s, id).value;
      assert t[a].id == id;
    } else {
      assert !HasId(t, id);
    }
  }

  /** Removing a position keeps the ids unique, and under unique ids the
      removed id is no longer found. */
  lemma RemoveForgets<N, A>(s: seq<User<N, A>>, i: nat)
    requires UniqueIds(s)
    requires i < |s|
    ensures UniqueIds(RemoveAt(s, i))
    ensures IndexOf(RemoveAt(s, i), s[i].id) == None
  {
    var t := RemoveAt(s, i);
    forall a, b | 0 <= a < b < |t| ensures t[a].id != t[b].id {
      var a', b' := if a < i then a else a + 1, if b < i then b else b + 1;
      assert t[a] == s[a'] && t[b] == s[b'];
    }
    forall k | 0 <= k < |t| ensures t[k].id != s[i].id {
      assert t[k] == s[if k < i then k else k + 1];
    }
  }

  /** Removing position `i` shifts the lookup of every other id: positions
      before `i` stay, positions after it move down by one. */
  lemma RemoveShiftsLookups<N, A>(s: seq<User<N, A>>, i: nat, id: Id)
    requires i < |s|
    requires IndexOf(s, id) != Some(i)
    ensures IndexOf(RemoveAt(s, i), id) ==
      match IndexOf(s, id)
      case None => None
      case Some(j) => Some(if j < i then j else j - 1)
  {
    var t := RemoveAt(s, i);
    match IndexOf(s, id)
    case None =>
      forall k | 0 <= k < |t| ensures t[k].id != id {
        assert t[k] == s[if k < i then k else k + 1];
      }
    case Some(j) =>
      var j' := if j < i then j else j - 1;
      assert t[j'].id == id;
      var m := IndexOf(t, id).value;
      var m' := if m < i then m else m + 1;
      assert s[m'].id == id;
  }

  /** The collection itself. The source keeps it in one module-level array
      that every handler changes in place. */
  class UserStore<N, A> {
    var users: seq<User<N, A>>

    /** The invariant every handler keeps: ids are unique. */
    ghost predicate Valid()
      reads this
    {
      UniqueIds(users)
    }

    /** The collection starts empty when the process starts. */
    constructor ()
      ensures Valid()
      ensures users == []
    {
      users := [];
    }

    /** GET /users: the whole collection, in insertion order, unchanged. */
    method List() returns (all: seq<User<N, A>>)
      ensures all == users
    {
      all := users;
    }

    /** The lookup step shared by update and delete: a front-to-back scan
      for the first record carrying `id`. */
    method Locate(id: Id) returns (r: Option<nat>)
      ensures r == IndexOf(users, id)
    {
      var i := 0;
      while i < |users|
        invariant 0 <= i <= |users|
        invariant forall k :: 0 <= k < i ==> users[k].id != id
      {
        if users[i].id == id {
          return Some(i);
        }
        i := i + 1;
      }
      return None;
    }

    /** POST /users: append a record with the fresh id `id` (the value the
      id generator would produce) and answer with the whole collection. */
    method Insert(id: Id, name: N, age: A) returns (all: seq<User<N, A>>)
      requires Valid()
      requires !HasId(users, id)
      modifies this
      ensures Valid()
      ensures users == old(users) + [User(id, name, age)]
      ensures all == users
      ensures IndexOf(users, id) == Some(|old(users)|)
    {
      AppendKeepsUnique(users, User(id, name, age));
      AppendLocate(users, User(id, name, age), id);
      users := users + [User(id, name, age)];
      all := users;
    }

    /** PUT /users/:id: when the id is found, the record at its position is
      replaced by one with the same id and the new name and age, and that
      record is the answer; otherwise nothing changes. */
    method Update(id: Id, name: N, age: A) returns (r: Outcome<User<N, A>>)
      requires Valid()
      modifies this
      ensures Valid()
      ensures r.NotFound? <==> !HasId(old(users), id)
      ensures match IndexOf(old(users), id)
        case None => users == old(users)
        case Some(i) => r == Found(User(id, name, age)) && users == old(users)[i := User(id, name, age)]
      ensures forall x :: IndexOf(users, x) == IndexOf(old(users), x)
    {
      var index := Locate(id);
      if index.None? {
        return NotFound;
      }
      var updated := User(id, name, age);
      forall x ensures IndexOf(users[index.value := updated], x) == IndexOf(users, x) {
        ReplaceKeepsLookups(users, index.value, updated, x);
      }
      ReplaceKeepsLookups(users, index.value, updated, id);
      users := users[index.value := updated];
      r := Found(updated);
    }

    /** DELETE /users/:id: when the id is found, its record is spliced out
      and the rest keep their order; otherwise nothing changes. Either way
      the id is not found afterwards. */
    method Remove(id: Id) returns (r: Outcome<()>)
      requires Valid()
      modifies this
      ensures Valid()
      ensures r.NotFound? <==> !HasId(old(users), id)
      ensures match IndexOf(old(users), id)
        case None => users == old(users)
        case Some(i) => users == RemoveAt(old(users), i)
      ensures |users| == if r.Found? then |old(users)| - 1 else |old(users)|
      ensures IndexOf(users, id) == None
    {
      var index := Locate(id);
      if index.None? {
        return NotFound;
      }
      RemoveForgets(users, index.value);
      users := RemoveAt(users, index.value);
      r := Found(());
    }
  }
}
