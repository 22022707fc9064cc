/** The records the store holds and the three mutations `addUser`, `updateUser` and
    `deleteUser`, each stated as a function from the list before to the list after. */
module Users {
  import opened Wrappers
  import opened Seqs

  /** One record of the list: the id and the three text fields the store reads. */
  datatype User = User(id: int, firstName: string, lastName: string, email: string)

  /** The argument of `addUser`: a record without its id (`Omit<User, 'id'>`). */
  datatype Draft = Draft(firstName: string, lastName: string, email: string) {

    /** `{ ...this, id: id }`. */
    function WithId(id: int): User {
      User(id, firstName, lastName, email)
    }
  }

  /** The argument of `updateUser` (`Partial<User>`): each field present or absent. */
  datatype Patch = Patch(id: Option<int>, firstName: Option<string>, lastName: Option<string>, email: Option<string>)

  /** `{ ...u, ...p }`: a field present in the patch replaces the record's, since it is
      spread last; this includes the id. */
  function Overlay(u: User, p: Patch): (r: User)
    ensures p == Patch(None, None, None, None) ==> r == u
    ensures p.id.Some? ==> r.id == p.id.value
    ensures p.id.None? ==> r.id == u.id
    ensures p.firstName.Some? ==> r.firstName == p.firstName.value
    ensures p.firstName.None? ==> r.firstName == u.firstName
    ensures p.lastName.Some? ==> r.lastName == p.lastName.value
    ensures p.lastName.None? ==> r.lastName == u.lastName
    ensures p.email.Some? ==> r.email == p.email.value
    ensures p.email.None? ==> r.email == u.email
  {
    User(p.id.GetOr(u.id), p.firstName.GetOr(u.firstName), p.lastName.GetOr(u.lastName), p.email.GetOr(u.email))
  }

  /** Applying the same patch twice is applying it once. */
  lemma OverlayTwice(u: User, p: Patch)
    ensures Overlay(Overlay(u, p), p) == Overlay(u, p)
  {
  }

  /** No two records share an id. */
  predicate UniqueIds(s: seq<User>) {
    forall i, j :: 0 <= i < j < |s| ==> s[i].id != s[j].id
  }

  /** Distinct ids at the front of a list: the first id is new and the rest are distinct. */
  lemma UniqueIdsCons(x: User, t: seq<User>)
    ensures UniqueIds([x] + t) <==> UniqueIds(t) && forall y :: y in t ==> y.id != x.id
  {
    var s := [x] + t;
    assert forall i :: 0 <= i < |t| ==> t[i] == s[i + 1];
    if UniqueIds(t) && forall y :: y in t ==> y.id != x.id {
      forall i, j | 0 <= i < j < |s| ensures s[i].id != s[j].id {
        if i == 0 {
          assert s[j] in t;
        }
      }
    }
    if UniqueIds(s) {
      forall i, j | 0 <= i < j < |t| ensures t[i].id != t[j].id {
        assert t[i] == s[i + 1] && t[j] == s[j + 1];
      }
      forall y | y in t ensures y.id != x.id {
        var k :| 0 <= k < |t| && t[k] == y;
        assert s[0].id != s[k + 1].id;
      }
    }
  }

  /** `Math.max(...s.map(u => u.id), 0)`. */
  function MaxId(s: seq<User>): (m: int)
    ensures 0 <= m
    ensures forall i :: 0 <= i < |s| ==> s[i].id <= m
    ensures m == 0 || exists i :: 0 <= i < |s| && s[i].id == m
  {
    if s == [] then 0
    else
      var rest := MaxId(s[1..]);
      assert forall i :: 0 <= i < |s| - 1 ==> s[1..][i] == s[i + 1];
      if s[0].id > rest then s[0].id else rest
  }

  /** The list after `addUser(d)`: `d` appended at the end under the id `MaxId(s) + 1`. */
  function Added(s: seq<User>, d: Draft): (r: seq<User>)
    ensures |r| == |s| + 1 && r[..|s|] == s
    ensures r[|s|] == d.WithId(MaxId(s) + 1)
    ensures forall i :: 0 <= i < |s| ==> s[i].id < r[|s|].id
    ensures s == [] ==> r[0].id == 1
    ensures UniqueIds(s) ==> UniqueIds(r)
  {
    s + [d.WithId(MaxId(s) + 1)]
  }

  /** Index `i` holds the first record whose id is `id`. */
  predicate IsFirstMatch(s: seq<User>, id: int, i: int) {
    0 <= i < |s| && s[i].id == id && forall j :: 0 <= j < i ==> s[j].id != id
  }

  /** `s.findIndex(u => u.id === id)`: the first matching index, or -1 when there is none. */
  function FindIndex(s: seq<User>, id: int): (i: int)
    ensures -1 <= i < |s|
    ensures i != -1 ==> IsFirstMatch(s, id, i)
    ensures i == -1 <==> forall j :: 0 <= j < |s| ==> s[j].id != id
  {
    if s == [] then -1
    else if s[0].id == id then 0
    else
      var k := FindIndex(s[1..], id);
      assert forall j :: 0 <= j < |s| - 1 ==> s[1..][j] == s[j + 1];
      if k == -1 then -1 else k + 1
  }

  /** The list after `updateUser(id, p)`, defined by walking the list: the first record with
      id `id` is overlaid with `p`, every other position is kept, and without a match
      nothing changes. */
  function Updated(s: seq<User>, id: int, p: Patch): (r: seq<User>)
    ensures |r| == |s|
    ensures forall i :: 0 <= i < |s| ==> r[i] == if IsFirstMatch(s, id, i) then Overlay(s[i], p) else s[i]
    ensures (forall i :: 0 <= i < |s| ==> s[i].id != id) ==> r == s
  {
    if s == [] then []
    else if s[0].id == id then [Overlay(s[0], p)] + s[1..]
    else
      var rest := Updated(s[1..], id, p);
      assert forall i :: 1 <= i < |s| ==> (IsFirstMatch(s, id, i) <==> IsFirstMatch(s[1..], id, i - 1));
      [s[0]] + rest
  }

  /** A patch that leaves the id alone, or sets it to the id already there, keeps ids unique. */
  lemma UpdatedKeepsIdsUnique(s: seq<User>, id: int, p: Patch)
    requires UniqueIds(s)
    requires p.id == None || p.id == Some(id)
    ensures UniqueIds(Updated(s, id, p))
  {
    var r := Updated(s, id, p);
    assert forall i :: 0 <= i < |s| ==> r[i].id == s[i].id;
  }

  /** Because the patch is spread last, a patch carrying another record's id duplicates it. */
  lemma UpdateCanDuplicateIds()
    ensures var s := [User(1, "Ann", "Lee", "ann@example.com"), User(2, "Bob", "Ray", "bob@example.com")];
            UniqueIds(s) && !UniqueIds(Updated(s, 2, Patch(Some(1), None, None, None)))
  {
    var s := [User(1, "Ann", "Lee", "ann@example.com"), User(2, "Bob", "Ray", "bob@example.com")];
    var r := Updated(s, 2, Patch(Some(1), None, None, None));
    assert IsFirstMatch(s, 2, 1);
    assert r[0].id == 1 && r[1].id == 1;
  }

  /** The predicate that `deleteUser(id)` filters with. */
  function IdDiffers(id: int): User -> bool {
    (u: User) => u.id != id
  }

  /** The list after `deleteUser(id)`. */
  function Without(s: seq<User>, id: int): (r: seq<User>)
    ensures |r| <= |s|
    ensures forall u :: u in r <==> u in s && u.id != id
  {
    Filter(IdDiffers(id), s)
  }

  /** Deleting removes every record with that id, keeps every other one as often as before
      and in order, changes nothing when the id is absent, and keeps ids unique. */
  lemma WithoutSpec(s: seq<User>, id: int)
    ensures forall u: User :: u.id != id ==> multiset(Without(s, id))[u] == multiset(s)[u]
    ensures IsSubsequence(Without(s, id), s)
    ensures (forall u :: u in s ==> u.id != id) ==> Without(s, id) == s
    ensures UniqueIds(s) ==> UniqueIds(Without(s, id))
  {
    FilterIsSubsequence(IdDiffers(id), s);
    if forall u :: u in s ==> u.id != id {
      FilterAllPass(IdDiffers(id), s);
    }
    if UniqueIds(s) {
      FilterKeepsIdsUnique(IdDiffers(id), s);
    }
  }

  /** A filtered list keeps distinct ids. */
  lemma {:induction false} FilterKeepsIdsUnique(p: User -> bool, s: seq<User>)
    requires UniqueIds(s)
    ensures UniqueIds(Filter(p, s))
  {
    if s != [] {
      assert s == [s[0]] + s[1..];
      UniqueIdsCons(s[0], s[1..]);
      FilterKeepsIdsUnique(p, s[1..]);
      FilterCons(p, s[0], s[1..]);
      if p(s[0]) {
        UniqueIdsCons(s[0], Filter(p, s[1..]));
      }
    }
  }

  /** With distinct ids no record occurs twice. */
  lemma {:induction false} UniqueIdsNoRepeats(s: seq<User>, v: User)
    requires UniqueIds(s)
    ensures multiset(s)[v] <= 1
  {
    if s != [] {
      assert s == [s[0]] + s[1..];
      UniqueIdsCons(s[0], s[1..]);
      UniqueIdsNoRepeats(s[1..], v);
    }
  }

  /** Reordering a list keeps its ids distinct. */
  lemma PermutationKeepsIdsUnique(s: seq<User>, t: seq<User>)
    requires multiset(s) == multiset(t)
    requires UniqueIds(s)
    ensures UniqueIds(t)
  {
    forall i, j | 0 <= i < j < |t| ensures t[i].id != t[j].id {
      if t[i] == t[j] {
        assert t == t[..j] + t[j..];
        assert t[i] in t[..j] && t[j] in t[j..];
        assert multiset(t)[t[i]] == multiset(t[..j])[t[i]] + multiset(t[j..])[t[i]];
        UniqueIdsNoRepeats(s, t[i]);
      } else {
        assert t[i] in multiset(s) && t[j] in multiset(s);
        var p :| 0 <= p < |s| && s[p] == t[i];
        var q :| 0 <= q < |s| && s[q] == t[j];
        assert p != q;
      }
    }
  }
}
